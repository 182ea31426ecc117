/**
 The byte-level tools of the wire format: substring search, decimal numbers as the
 printer writes them, and decimal numbers as the scanner reads them.  A byte is a
 character here; reading past the end of a packet yields the terminating NUL.
 */
module Bytes {
  import opened Options

  type Bytes = string

  // ----- substring search -----

  predicate OccursAt(buf: Bytes, m: Bytes, i: nat) { i + |m| <= |buf| && buf[i..i + |m|] == m }

  function FindFrom(buf: Bytes, m: Bytes, i: nat): (r: Option<nat>)
    ensures r.Some? ==> i <= r.value && OccursAt(buf, m, r.value) && forall k: nat | i <= k < r.value :: !OccursAt(buf, m, k)
    ensures r.None? ==> forall k: nat | i <= k :: !OccursAt(buf, m, k)
    decreases |buf| - i
  {
    if i + |m| > |buf| then None
    else if buf[i..i + |m|] == m then Some(i)
    else FindFrom(buf, m, i + 1)
  }

  /** The first occurrence of `m`. */
  function Find(buf: Bytes, m: Bytes): Option<nat> { FindFrom(buf, m, 0) }

  lemma {:induction false} FindIs(buf: Bytes, m: Bytes, p: nat)
    requires OccursAt(buf, m, p) && forall k: nat | k < p :: !OccursAt(buf, m, k)
    ensures Find(buf, m) == Some(p)
  {
    var r := Find(buf, m);
    assert r.Some? && !(r.value < p) && !(p < r.value);
  }

  method MemMem(buf: Bytes, m: Bytes) returns (r: Option<nat>)
    ensures r == Find(buf, m)
  {
    if |m| > |buf| {
      return None;
    }
    var i := 0;
    while i <= |buf| - |m|
      invariant 0 <= i && Find(buf, m) == FindFrom(buf, m, i)
    {
      if buf[i..i + |m|] == m {
        return Some(i);
      }
      i := i + 1;
    }
    return None;
  }

  // ----- decimal numbers -----

  function DigitChar(d: nat): char
    requires d < 10
  {
    '0' + d as char
  }

  function Dec(n: nat): (r: Bytes)
    ensures |r| > 0
  {
    if n < 10 then [DigitChar(n)] else Dec(n / 10) + [DigitChar(n % 10)]
  }

  predicate IsDigit(c: char) { '0' <= c <= '9' }

  function DigitValue(c: char): nat
    requires IsDigit(c)
  {
    (c - '0') as nat
  }

  /** The byte at `i`, or the terminating NUL. */
  function At(buf: Bytes, i: nat): char { if i < |buf| then buf[i] else '\0' }

  predicate IsSpace(c: char) { c == ' ' || '\t' <= c <= '\r' }

  function SkipSpace(buf: Bytes, i: nat): (j: nat)
    requires i <= |buf|
    ensures i <= j <= |buf|
    decreases |buf| - i
  {
    if i < |buf| && IsSpace(buf[i]) then SkipSpace(buf, i + 1) else i
  }

  function DigitsEnd(buf: Bytes, i: nat): (j: nat)
    requires i <= |buf|
    ensures i <= j <= |buf|
    ensures forall k | i <= k < j :: IsDigit(buf[k])
    ensures !IsDigit(At(buf, j))
    decreases |buf| - i
  {
    if i < |buf| && IsDigit(buf[i]) then DigitsEnd(buf, i + 1) else i
  }

  function DigitsValue(s: Bytes): nat
    requires forall c | c in s :: IsDigit(c)
  {
    if s == [] then 0 else 10 * DigitsValue(s[..|s| - 1]) + DigitValue(s[|s| - 1])
  }

  /** The number scanned from position `i`, and where scanning stopped (at `i` if there was none). */
  datatype Number = Number(value: int, end: nat)

  function Strtol(buf: Bytes, i: nat): (r: Number)
    requires i <= |buf|
    ensures i <= r.end <= |buf|
    ensures r.end == i ==> r.value == 0
  {
    var j := SkipSpace(buf, i);
    var k := if At(buf, j) == '-' || At(buf, j) == '+' then j + 1 else j;
    var e := DigitsEnd(buf, k);
    if e == k then Number(0, i)
    else
      var v: int := DigitsValue(buf[k..e]);
      Number(if At(buf, j) == '-' then -v else v, e)
  }

  lemma {:induction false} DecDigits(n: nat)
    ensures forall c | c in Dec(n) :: IsDigit(c)
    ensures DigitsValue(Dec(n)) == n
  {
    if n < 10 {
      assert Dec(n)[..0] == [];
    } else {
      DecDigits(n / 10);
      var d := Dec(n);
      assert d[..|d| - 1] == Dec(n / 10) && d[|d| - 1] == DigitChar(n % 10);
    }
  }

  lemma {:induction false} DigitsEndIs(buf: Bytes, i: nat, j: nat)
    requires i <= j <= |buf| && (forall k | i <= k < j :: IsDigit(buf[k])) && !IsDigit(At(buf, j))
    ensures DigitsEnd(buf, i) == j
    decreases j - i
  {
    if i < j {
      DigitsEndIs(buf, i + 1, j);
    }
  }

  /** Reading back a printed number that is followed by something other than a digit. */
  lemma {:induction false} StrtolDec(pre: Bytes, n: nat, post: Bytes)
    requires post == [] || !IsDigit(post[0])
    ensures Strtol(pre + Dec(n) + post, |pre|) == Number(n, |pre| + |Dec(n)|)
  {
    var buf, i, j := pre + Dec(n) + post, |pre|, |pre| + |Dec(n)|;
    DecDigits(n);
    assert buf[i..j] == Dec(n);
    assert forall k | i <= k < j :: buf[k] == Dec(n)[k - i];
    assert buf[i] in Dec(n);
    assert At(buf, j) == if post == [] then '\0' else post[0];
    DigitsEndIs(buf, i, j);
  }

  /** Decimal notation: the digits of a number, most significant first, without leading zeros. */
  lemma {:induction false} DecIsDecimal(n: nat, d: nat)
    requires d < 10
    ensures Dec(d) == ["0123456789"[d]]
    ensures n > 0 ==> Dec(10 * n + d) == Dec(n) + ["0123456789"[d]]
  {
  }

  lemma {:induction false} SpaceSkipped(buf: Bytes, i: nat, j: nat)
    requires i <= j <= |buf| && (forall k | i <= k < j :: IsSpace(buf[k])) && !IsSpace(At(buf, j))
    ensures SkipSpace(buf, i) == j
    decreases j - i
  {
    if i < j {
      SpaceSkipped(buf, i + 1, j);
    }
  }

  /** White space and a sign before the digits are accepted, and a minus sign counts. */
  lemma {:induction false} StrtolSigned(pre: Bytes, space: Bytes, sign: char, n: nat, post: Bytes)
    requires (forall c | c in space :: c == ' ' || 9 <= c as int <= 13) && sign in {'-', '+'}
    requires post == [] || !IsDigit(post[0])
    ensures var head := pre + space + [sign];
            Strtol(head + Dec(n) + post, |pre|) == Number(if sign == '-' then -(n as int) else n, |head| + |Dec(n)|)
  {
    var head := pre + space + [sign];
    var buf := head + Dec(n) + post;
    var i, j, e := |pre|, |pre| + |space|, |head| + |Dec(n)|;
    assert buf[j] == sign;
    forall k | i <= k < j
      ensures IsSpace(buf[k])
    {
      assert buf[k] == space[k - i] && space[k - i] in space;
    }
    SpaceSkipped(buf, i, j);
    DecDigits(n);
    assert buf[j + 1..e] == Dec(n);
    assert forall k | j + 1 <= k < e :: buf[k] == Dec(n)[k - (j + 1)];
    assert At(buf, e) == if post == [] then '\0' else post[0];
    DigitsEndIs(buf, j + 1, e);
  }

  /** Where no number starts, nothing is read. */
  lemma {:induction false} StrtolNone(buf: Bytes, i: nat)
    requires i <= |buf| && !IsDigit(At(buf, i)) && !IsSpace(At(buf, i)) && At(buf, i) != '-' && At(buf, i) != '+'
    ensures Strtol(buf, i) == Number(0, i)
  {
    DigitsEndIs(buf, i, i);
  }
}
