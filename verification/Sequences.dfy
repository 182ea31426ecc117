/**
 Facts about sequences of any kind that several modules need.
 */
module Sequences {

  lemma {:induction false} ConsGap<T>(s: seq<T>, i: nat)
    requires 0 < i < |s|
    ensures [s[0]] + (s[1..][..i - 1] + s[1..][i..]) == s[..i] + s[i + 1..]
  {
    assert s[1..][i..] == s[i + 1..] && [s[0]] + s[1..][..i - 1] == s[..i];
  }

  lemma {:induction false} Assoc<T>(a: seq<T>, b: seq<T>, c: seq<T>)
    ensures a + (b + c) == a + b + c
  {
  }

  /** Everything after position `i` one place down. */
  lemma {:induction false} GapClosed<T>(r: seq<T>, l: seq<T>, i: nat)
    requires i < |l| == |r| + 1
    requires (forall p | 0 <= p < i :: r[p] == l[p]) && forall p | i <= p < |r| :: r[p] == l[p + 1]
    ensures r == l[..i] + l[i + 1..]
  {
  }

  /** `s` with two elements in place of the one at position `i`. */
  function Spliced<T>(s: seq<T>, i: nat, x: T, y: T): (r: seq<T>)
    requires i < |s|
    ensures |r| == |s| + 1
  {
    s[..i] + [x, y] + s[i + 1..]
  }

  lemma {:induction false} SplicedAt<T>(s: seq<T>, i: nat, x: T, y: T, k: nat)
    requires i < |s| && k <= |s|
    ensures Spliced(s, i, x, y)[k] == if k < i then s[k] else if k == i then x else if k == i + 1 then y else s[k - 1]
  {
  }

  /** What is before and behind the place stays. */
  lemma {:induction false} SplicedEnds<T>(s: seq<T>, i: nat, x: T, y: T, b: nat, e: nat)
    requires b <= i < e <= |s|
    ensures var r := Spliced(s, i, x, y);
            r[..b] == s[..b] && r[e + 1..] == s[e..] && r[b..e + 1] == Spliced(s[b..e], i - b, x, y)
  {
    var r := Spliced(s, i, x, y);
    forall k | e <= k < |s|
      ensures r[k + 1] == s[k]
    {
      SplicedAt(s, i, x, y, k + 1);
    }
    forall k | b <= k < e + 1
      ensures r[k] == Spliced(s[b..e], i - b, x, y)[k - b]
    {
      SplicedAt(s, i, x, y, k);
      SplicedAt(s[b..e], i - b, x, y, k - b);
    }
  }

  lemma {:induction false} TwiceInMultiset<T>(s: seq<T>, i: nat, j: nat)
    requires i < j < |s| && s[i] == s[j]
    ensures multiset(s)[s[i]] >= 2
  {
    assert s == s[..i] + [s[i]] + s[i + 1..j] + [s[j]] + s[j + 1..];
  }
}
