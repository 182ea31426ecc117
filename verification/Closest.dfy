/**
 Bounded lists ordered by XOR distance: a list that holds the `k` ids of a set closest to
 a reference, and what offering it one more id does.
 */
module Closest {
  import opened Ids
  import opened Prefixes

  ghost predicate Sorted(l: seq<Id>, ref: Id)
  {
    forall i, j | 0 <= i < j < |l| :: Closer(l[i], l[j], ref)
  }

  /** `l` lists, nearest first, the `k` members of `s` closest to `ref` (or all of them, if fewer). */
  ghost predicate KClosest(l: seq<Id>, s: set<Id>, ref: Id, k: nat)
  {
    && Sorted(l, ref) && |l| <= k
    && (forall x | x in l :: x in s)
    && (forall x | x in s && x !in l :: |l| == k && forall y | y in l :: Closer(y, x, ref))
  }

  /** The first position holding `id` or something farther away. */
  ghost function Position(l: seq<Id>, id: Id, ref: Id): (i: nat)
    ensures i <= |l|
    ensures forall j | 0 <= j < i :: l[j] != id && !Closer(id, l[j], ref)
    ensures i < |l| ==> l[i] == id || Closer(id, l[i], ref)
  {
    if l == [] || AtOrBefore(id, l[0], ref) then 0 else 1 + Position(l[1..], id, ref)
  }

  ghost predicate AtOrBefore(id: Id, x: Id, ref: Id) { x == id || Closer(id, x, ref) }

  lemma {:induction false} PositionIs(l: seq<Id>, id: Id, ref: Id, i: nat)
    requires i <= |l| && (i < |l| ==> l[i] == id || Closer(id, l[i], ref))
    requires forall j | 0 <= j < i :: l[j] != id && !Closer(id, l[j], ref)
    ensures Position(l, id, ref) == i
  {
    var p := Position(l, id, ref);
    assert !(p < i) && !(i < p);
  }

  /** `x` put at position `i`, and the last entry dropped if there are now too many. */
  function InsertAt<T>(l: seq<T>, i: nat, x: T, k: nat): (r: seq<T>)
    requires i <= |l| <= k && i < k
    ensures |r| == if |l| < k then |l| + 1 else k
  {
    if |l| < k then l[..i] + [x] + l[i..] else l[..i] + [x] + l[i..k - 1]
  }

  lemma {:induction false} InsertIs<T>(r: seq<T>, l: seq<T>, i: nat, x: T, k: nat)
    requires i <= |l| <= k && i < k && |r| == if |l| < k then |l| + 1 else k
    requires forall a {:trigger r[a]} | 0 <= a < |r| :: r[a] == if a < i then l[a] else if a == i then x else l[a - 1]
    ensures r == InsertAt(l, i, x, k)
  {
    var s := InsertAt(l, i, x, k);
    forall a | 0 <= a < |r|
      ensures r[a] == s[a]
    {
      InsertedAt(l, i, x, k, a);
      assert r[a] == if a < i then l[a] else if a == i then x else l[a - 1];
    }
  }

  /** Offers `id` to a list bounded by `k`. */
  ghost function Offer(l: seq<Id>, id: Id, ref: Id, k: nat): (r: seq<Id>)
    requires |l| <= k
    ensures |r| <= k
  {
    var i := Position(l, id, ref);
    if (i < |l| && l[i] == id) || i == k then l else InsertAt(l, i, id, k)
  }

  lemma {:induction false} NotLater(a: Id, b: Id, id: Id, ref: Id)
    requires Closer(a, b, ref) && Closer(id, a, ref)
    ensures b != id
  {
    CloserTotal(a, id, ref);
  }

  lemma {:induction false} NoneFrom(l: seq<Id>, id: Id, ref: Id, i: nat)
    requires i < |l| && Closer(id, l[i], ref) && forall j | i < j < |l| :: Closer(l[i], l[j], ref)
    ensures id !in l[i..]
  {
    CloserTotal(id, id, ref);
    forall j | i < j < |l|
      ensures l[j] != id
    {
      NotLater(l[i], l[j], id, ref);
    }
  }

  lemma {:induction false} SortedMissing(l: seq<Id>, id: Id, ref: Id)
    requires Sorted(l, ref)
    ensures var i := Position(l, id, ref); i < |l| && l[i] != id ==> id !in l
    ensures Position(l, id, ref) == |l| ==> id !in l
  {
    var i := Position(l, id, ref);
    assert id !in l[..i];
    assert l == l[..i] + l[i..];
    if i < |l| && l[i] != id {
      NoneFrom(l, id, ref, i);
    }
  }

  lemma {:induction false} AfterPosition(l: seq<Id>, id: Id, ref: Id, i: nat, j: nat)
    requires Sorted(l, ref) && i <= j < |l| && Closer(id, l[i], ref)
    ensures Closer(id, l[j], ref)
  {
    if i < j {
      CloserTransitive(id, l[i], l[j], ref);
    }
  }

  lemma {:induction false} BeforePosition(l: seq<Id>, id: Id, ref: Id)
    requires Sorted(l, ref)
    ensures var i := Position(l, id, ref);
            && (forall j | 0 <= j < i :: Closer(l[j], id, ref))
            && (i < |l| && l[i] != id ==> forall j | i <= j < |l| :: Closer(id, l[j], ref))
  {
    var i := Position(l, id, ref);
    forall j | 0 <= j < i
      ensures Closer(l[j], id, ref)
    {
      CloserTotal(l[j], id, ref);
    }
    if i < |l| && l[i] != id {
      forall j | i <= j < |l|
        ensures Closer(id, l[j], ref)
      {
        AfterPosition(l, id, ref, i, j);
      }
    }
  }

  lemma {:induction false} InsertSorted(l: seq<Id>, i: nat, id: Id, ref: Id, k: nat)
    requires Sorted(l, ref) && i <= |l| <= k && i < k
    requires (forall j | 0 <= j < i :: Closer(l[j], id, ref)) && (forall j | i <= j < |l| :: Closer(id, l[j], ref))
    ensures Sorted(InsertAt(l, i, id, k), ref)
  {
    var r := InsertAt(l, i, id, k);
    forall a, b | 0 <= a < b < |r|
      ensures Closer(r[a], r[b], ref)
    {
      InsertedAt(l, i, id, k, a);
      InsertedAt(l, i, id, k, b);
    }
  }

  /** Where each entry comes from. */
  lemma {:induction false} InsertedAt<T>(l: seq<T>, i: nat, x: T, k: nat, a: nat)
    requires i <= |l| <= k && i < k && a < |InsertAt(l, i, x, k)|
    ensures InsertAt(l, i, x, k)[a] == if a < i then l[a] else if a == i then x else l[a - 1]
  {
  }

  lemma {:induction false} InsertMembers<T>(l: seq<T>, i: nat, x: T, k: nat)
    requires i <= |l| <= k && i < k
    ensures forall y :: y in InsertAt(l, i, x, k) ==> y == x || y in l
    ensures x in InsertAt(l, i, x, k)
    ensures forall y | y in l :: y in InsertAt(l, i, x, k) || (|l| == k && y == l[k - 1])
  {
    var r := InsertAt(l, i, x, k);
    assert r[i] == x;
    forall y | y in l
      ensures y in r || (|l| == k && y == l[k - 1])
    {
      var j :| 0 <= j < |l| && l[j] == y;
      assert j < i ==> r[j] == y;
      assert i <= j && (|l| < k || j < k - 1) ==> r[j + 1] == y;
    }
  }

  /** Offering an id keeps the list exactly the k closest of everything offered so far. */
  lemma {:induction false} OfferKeeps(l: seq<Id>, s: set<Id>, ref: Id, k: nat, id: Id)
    requires KClosest(l, s, ref, k)
    ensures KClosest(Offer(l, id, ref, k), s + {id}, ref, k)
  {
    var i := Position(l, id, ref);
    BeforePosition(l, id, ref);
    if i < |l| && l[i] == id {
      assert s + {id} == s;
    } else if i == k {
      FullKClosest(l, s, ref, k, id);
    } else {
      InsertKClosest(l, s, ref, k, id, i);
    }
  }

  lemma {:induction false} FullKClosest(l: seq<Id>, s: set<Id>, ref: Id, k: nat, id: Id)
    requires KClosest(l, s, ref, k) && |l| == k && forall j | 0 <= j < |l| :: Closer(l[j], id, ref)
    ensures KClosest(l, s + {id}, ref, k)
  {
  }

  lemma {:induction false} InsertKClosest(l: seq<Id>, s: set<Id>, ref: Id, k: nat, id: Id, i: nat)
    requires KClosest(l, s, ref, k) && i <= |l| && i < k
    requires forall j | 0 <= j < i :: Closer(l[j], id, ref)
    requires forall j | i <= j < |l| :: Closer(id, l[j], ref)
    ensures KClosest(InsertAt(l, i, id, k), s + {id}, ref, k)
  {
    InsertSorted(l, i, id, ref, k);
    InsertMembers(l, i, id, k);
    InsertKeepsClosest(l, s, ref, k, id, i);
  }

  lemma {:induction false} InsertKeepsClosest(l: seq<Id>, s: set<Id>, ref: Id, k: nat, id: Id, i: nat)
    requires KClosest(l, s, ref, k) && i <= |l| && i < k
    requires forall j | 0 <= j < i :: Closer(l[j], id, ref)
    requires forall j | i <= j < |l| :: Closer(id, l[j], ref)
    ensures forall x | x in s + {id} && x !in InsertAt(l, i, id, k) ::
              |l| == k && forall y | y in InsertAt(l, i, id, k) :: Closer(y, x, ref)
  {
    var r := InsertAt(l, i, id, k);
    InsertMembers(l, i, id, k);
    forall x | x in s + {id} && x !in r
      ensures |l| == k && forall y | y in r :: Closer(y, x, ref)
    {
      assert |l| == k;
      var last := l[k - 1];
      assert x == last || Closer(last, x, ref);
      forall y | y in r
        ensures Closer(y, x, ref)
      {
        if y == id {
          if x != last {
            CloserTransitive(id, last, x, ref);
          }
        } else if x == last {
          InsertDropsLast(l, i, id, k, y);
        }
      }
    }
  }

  lemma {:induction false} InsertDropsLast<T>(l: seq<T>, i: nat, x: T, k: nat, y: T)
    requires i <= |l| == k && i < k && y in InsertAt(l, i, x, k) && y != x
    ensures y in l[..k - 1]
  {
    var r := InsertAt(l, i, x, k);
    var j :| 0 <= j < |r| && r[j] == y;
    assert if j < i then l[..k - 1][j] == y else l[..k - 1][j - 1] == y;
  }

  // ----- there is only one such list -----

  ghost function Members(l: seq<Id>): set<Id> { set x | x in l }

  lemma {:induction false} SortedSize(l: seq<Id>, ref: Id)
    requires Sorted(l, ref)
    ensures |Members(l)| == |l|
  {
    if l != [] {
      var t, x := l[..|l| - 1], l[|l| - 1];
      SortedSize(t, ref);
      LastMember(l);
      LastIsNew(l, ref);
    }
  }

  lemma {:induction false} LastIsNew(l: seq<Id>, ref: Id)
    requires l != [] && Sorted(l, ref)
    ensures l[|l| - 1] !in Members(l[..|l| - 1])
  {
    forall j | 0 <= j < |l| - 1
      ensures l[j] != l[|l| - 1]
    {
      CloserTotal(l[j], l[|l| - 1], ref);
    }
  }

  lemma {:induction false} SortedSameMembers(a: seq<Id>, b: seq<Id>, ref: Id)
    requires Sorted(a, ref) && Sorted(b, ref) && Members(a) == Members(b)
    ensures a == b
  {
    SortedSize(a, ref);
    SortedSize(b, ref);
    if a != [] {
      assert a[0] in Members(b) && b[0] in Members(a);
      if a[0] != b[0] {
        CloserTotal(a[0], b[0], ref);
      }
      TailMembers(a, ref);
      TailMembers(b, ref);
      SortedSameMembers(a[1..], b[1..], ref);
    }
  }

  lemma {:induction false} TailMembers(l: seq<Id>, ref: Id)
    requires l != [] && Sorted(l, ref)
    ensures Sorted(l[1..], ref) && Members(l[1..]) == Members(l) - {l[0]}
  {
    assert l == [l[0]] + l[1..];
    forall y | y in l[1..]
      ensures y != l[0]
    {
      CloserTotal(y, l[0], ref);
    }
  }

  /** The k closest members of a set are listed in one way only, so the order of offers is irrelevant. */
  lemma {:induction false} KClosestUnique(a: seq<Id>, b: seq<Id>, s: set<Id>, ref: Id, k: nat)
    requires KClosest(a, s, ref, k) && KClosest(b, s, ref, k)
    ensures a == b
  {
    KClosestIncluded(a, b, s, ref, k);
    KClosestIncluded(b, a, s, ref, k);
    SortedSameMembers(a, b, ref);
  }

  lemma {:induction false} KClosestIncluded(a: seq<Id>, b: seq<Id>, s: set<Id>, ref: Id, k: nat)
    requires KClosest(a, s, ref, k) && KClosest(b, s, ref, k)
    ensures Members(a) <= Members(b)
  {
    forall x | x in a
      ensures x in b
    {
      if x !in b {
        SortedSize(a, ref);
        SortedSize(b, ref);
        var y := MissingMember(Members(b), Members(a), x);
        CloserTotal(x, y, ref);
      }
    }
  }

  /** A set at least as large that lacks `x` has a member the other one lacks. */
  lemma {:induction false} MissingMember(b: set<Id>, a: set<Id>, x: Id) returns (y: Id)
    requires |b| >= |a| && x in a && x !in b
    ensures y in b && y !in a
  {
    if b <= a {
      SubsetSize(b, a - {x});
    }
    y :| y in b && y !in a;
  }

  // ----- a run of offers -----

  ghost function OfferAll(ids: seq<Id>, ref: Id, k: nat): (r: seq<Id>)
    ensures |r| <= k
  {
    if ids == [] then [] else Offer(OfferAll(ids[..|ids| - 1], ref, k), ids[|ids| - 1], ref, k)
  }

  lemma {:induction false} OfferAllClosest(ids: seq<Id>, ref: Id, k: nat)
    ensures KClosest(OfferAll(ids, ref, k), Members(ids), ref, k)
  {
    if ids != [] {
      var t, x := ids[..|ids| - 1], ids[|ids| - 1];
      OfferAllClosest(t, ref, k);
      OfferKeeps(OfferAll(t, ref, k), Members(t), ref, k, x);
      LastMember(ids);
    }
  }

  lemma {:induction false} LastMember(ids: seq<Id>)
    requires ids != []
    ensures Members(ids) == Members(ids[..|ids| - 1]) + {ids[|ids| - 1]}
  {
    assert ids == ids[..|ids| - 1] + [ids[|ids| - 1]];
  }

  /** Any order, and any repetition, of the same offers gives the same list. */
  lemma {:induction false} OfferOrderIrrelevant(a: seq<Id>, b: seq<Id>, ref: Id, k: nat)
    requires Members(a) == Members(b)
    ensures OfferAll(a, ref, k) == OfferAll(b, ref, k)
  {
    OfferAllClosest(a, ref, k);
    OfferAllClosest(b, ref, k);
    KClosestUnique(OfferAll(a, ref, k), OfferAll(b, ref, k), Members(a), ref, k);
  }

  // ----- from part of a set to all of it -----

  /** If some part alone fills the list and is closer than all that was not offered, nothing more was needed. */
  lemma {:induction false} NearPartSuffices(l: seq<Id>, near: set<Id>, part: set<Id>, all: set<Id>, ref: Id, k: nat)
    requires KClosest(l, part, ref, k) && near <= part <= all && |near| >= k
    requires forall x, y | x in near && y in all && y !in part :: Closer(x, y, ref)
    ensures KClosest(l, all, ref, k)
  {
    FullList(l, near, part, ref, k);
    forall x, y | x in all && x !in part && y in l
      ensures Closer(y, x, ref)
    {
      NearPartCloser(l, near, part, ref, k, x, y);
    }
  }

  lemma {:induction false} NearPartCloser(l: seq<Id>, near: set<Id>, part: set<Id>, ref: Id, k: nat, x: Id, y: Id)
    requires KClosest(l, part, ref, k) && near <= part && |near| >= k && y in l
    requires forall z | z in near :: Closer(z, x, ref)
    ensures Closer(y, x, ref)
  {
    if y !in near {
      SortedSize(l, ref);
      var z := MissingMember(near, Members(l), y);
      CloserTransitive(y, z, x, ref);
    }
  }

  /** How long such a list is. */
  lemma {:induction false} ListSize(l: seq<Id>, s: set<Id>, ref: Id, k: nat)
    requires KClosest(l, s, ref, k)
    ensures |l| == if |s| < k then |s| else k
  {
    if |s| >= k {
      FullList(l, s, s, ref, k);
    } else {
      SortedSize(l, ref);
      assert Members(l) <= s;
      SubsetSize(Members(l), s);
      assert s <= Members(l);
      assert s == Members(l);
    }
  }

  lemma {:induction false} FullList(l: seq<Id>, near: set<Id>, part: set<Id>, ref: Id, k: nat)
    requires KClosest(l, part, ref, k) && near <= part && |near| >= k
    ensures |l| == k
  {
    SortedSize(l, ref);
    if |l| < k {
      assert near <= Members(l);
      SubsetSize(near, Members(l));
    }
  }
}
