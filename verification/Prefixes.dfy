/**
 The address arithmetic of buckets.  A bucket is known by its first id and by the first
 id of the bucket after it; the ids between the two are exactly those that share a
 prefix with the first one.  From that single fact follow the midpoint used for
 splitting, random ids inside a bucket, and the number of ids a bucket can hold.
 */
module Prefixes {
  import opened Ids
  import opened Options

  /** Range membership: not before `first` and before the next bucket, if there is one. */
  predicate InRange(id: Id, first: Id, next: Option<Id>)
  {
    LessEq(first, id) && (next.None? || Less(id, next.value))
  }

  /** The range holds exactly the ids that share their first `d` bits with `first`. */
  ghost predicate Covers(first: Id, next: Option<Id>, d: nat)
  {
    d <= ID_BITS && forall id: Id :: InRange(id, first, next) <==> Agree(first, id, d)
  }

  ghost function SplitBit(first: Id, next: Option<Id>): (r: nat)
    ensures r <= ID_BITS
  {
    var bit1, bit2 := LastSet(first, ID_BITS), if next.Some? then LastSet(next.value, ID_BITS) else -1;
    (if bit1 >= bit2 then bit1 else bit2) + 1
  }

  method ComputeSplitBit(first: Id, next: Option<Id>) returns (bit: nat)
    ensures bit == SplitBit(first, next)
  {
    var bit1 := LowBit(first);
    var bit2 := -1;
    if next.Some? {
      bit2 := LowBit(next.value);
    }
    bit := (if bit1 >= bit2 then bit1 else bit2) + 1;
  }

  // ----- what covering a prefix says about the two ends -----

  lemma {:induction false} CoversStartsAtZeroes(first: Id, next: Option<Id>, d: nat)
    requires Covers(first, next, d)
    ensures ZeroFrom(first, d)
  {
    FillAgrees(first, d, false);
    assert InRange(Fill(first, d, false), first, next);
    FillLow(first, d);
  }

  /** Every id above the last one of the prefix is at or above `next`. */
  lemma {:induction false} AboveLast(first: Id, next: Id, d: nat, id: Id)
    requires Covers(first, Some(next), d) && Less(Fill(first, d, true), id)
    ensures LessEq(next, id)
  {
    var last := Fill(first, d, true);
    FillAgrees(first, d, true);
    assert InRange(last, first, Some(next));
    LessTransitive(first, last, id);
    OrderTotal(next, id);
    OrderTotal(id, last);
    if Agree(first, id, d) {
      FillHigh(first, d, id);
    }
  }

  lemma {:induction false} NextAfterClearBit(first: Id, next: Id, d: nat)
    requires 0 < d && Covers(first, Some(next), d) && !Bit(first, d - 1)
    ensures LastSet(next, ID_BITS) == d - 1
  {
    CoversStartsAtZeroes(first, Some(next), d);
    var last, m := Fill(first, d, true), PutBit(first, d - 1, true);
    AgreeBits(last, m, d - 1);
    FillAgrees(first, d, true);
    LessAt(last, m, d - 1);
    AboveLast(first, next, d, m);
    assert InRange(last, first, Some(next));
    NothingBetween(last, next, m, d);
    LastSetIs(m, ID_BITS, d - 1);
  }

  /** No id lies strictly between p 0 1...1 and p 1 0...0. */
  lemma {:induction false} NothingBetween(low: Id, id: Id, high: Id, d: nat)
    requires 0 < d <= ID_BITS && Agree(low, high, d - 1) && !Bit(low, d - 1) && Bit(high, d - 1)
    requires ZeroFrom(high, d) && forall k: nat | d <= k < ID_BITS :: Bit(low, k)
    requires Less(low, id) && LessEq(id, high)
    ensures id == high
  {
    PartsLate(low, id, high, d);
    AgreeBits(low, id, d - 1);
    AgreeBits(low, high, d - 1);
    AgreeBits(id, high, d);
    LeastOfPrefix(id, high, d);
  }

  /** An id between the two parts from the lower one at bit d - 1. */
  lemma {:induction false} PartsLate(low: Id, id: Id, high: Id, d: nat)
    requires 0 < d <= ID_BITS && Agree(low, high, d - 1) && !Bit(low, d - 1) && Bit(high, d - 1)
    requires forall k: nat | d <= k < ID_BITS :: Bit(low, k)
    requires Less(low, id) && LessEq(id, high)
    ensures Agree(low, id, d - 1) && Bit(id, d - 1)
  {
    OrderAtFirstDiff(low, id);
    var p := FirstDiff(low, id);
    assert p < d;
    if p < d - 1 {
      AboveBoth(low, id, high, d, p);
      OrderTotal(id, high);
    }
  }

  /** An id that rises above `low` while `low` and `high` still agree is above `high`. */
  lemma {:induction false} AboveBoth(low: Id, id: Id, high: Id, d: nat, p: nat)
    requires p < d - 1 < ID_BITS && Agree(low, high, d - 1) && Agree(low, id, p) && Bit(id, p) && !Bit(low, p)
    ensures Less(high, id)
  {
    AgreeBits(low, high, d - 1);
    AgreeBits(low, id, p);
    AgreeBits(high, id, p);
    LessAt(high, id, p);
  }

  lemma {:induction false} LeastOfPrefix(id: Id, high: Id, d: nat)
    requires d <= ID_BITS && Agree(id, high, d) && ZeroFrom(high, d) && LessEq(id, high)
    ensures id == high
  {
    if id != high {
      OrderAtFirstDiff(id, high);
      AgreeBits(id, high, d);
    }
  }

  lemma {:induction false} NextAfterSetBit(first: Id, next: Id, d: nat)
    requires 0 < d && Covers(first, Some(next), d) && Bit(first, d - 1)
    ensures ZeroFrom(next, d - 1)
  {
    var last, z := Fill(first, d, true), Fill(next, d - 1, false);
    FillAgrees(first, d, true);
    assert InRange(last, first, Some(next));
    OrderAtFirstDiff(last, next);
    AgreeBits(last, next, FirstDiff(last, next));
    AgreeBits(last, z, FirstDiff(last, next));
    LessAt(last, z, FirstDiff(last, next));
    AboveLast(first, next, d, z);
    FillLow(next, d - 1);
  }

  lemma {:induction false} LastBucketIsOnes(first: Id, d: nat, k: nat)
    requires Covers(first, None, d) && k < d
    ensures Bit(first, k)
  {
    if !Bit(first, k) {
      var up := PutBit(first, k, true);
      AgreeBits(first, up, k);
      AgreeBits(first, up, d);
      LessAt(first, up, k);
      assert !Agree(first, up, d) && InRange(up, first, None);
    }
  }

  /** The bit chosen from the ends of a range is the length of its common prefix. */
  lemma {:induction false} SplitBitIsDepth(first: Id, next: Option<Id>, d: nat)
    requires Covers(first, next, d)
    ensures SplitBit(first, next) == d
  {
    CoversStartsAtZeroes(first, next, d);
    if d == 0 {
      LastSetIs(first, ID_BITS, -1);
      if next.Some? {
        assert InRange(next.value, first, next);
        OrderTotal(next.value, next.value);
      }
    } else if next.None? {
      LastBucketIsOnes(first, d, d - 1);
      LastSetIs(first, ID_BITS, d - 1);
    } else if Bit(first, d - 1) {
      LastSetIs(first, ID_BITS, d - 1);
      NextAfterSetBit(first, next.value, d);
      LastSetBelow(next.value, ID_BITS, d - 1);
    } else {
      NextAfterClearBit(first, next.value, d);
      LastSetBelow(first, ID_BITS, d);
    }
  }

  // ----- splitting -----

  lemma {:induction false} SplitLow(first: Id, next: Option<Id>, d: nat, mid: Id)
    requires d < ID_BITS && Covers(first, next, d) && mid == SetBit(first, d)
    ensures Covers(first, Some(mid), d + 1)
  {
    CoversStartsAtZeroes(first, next, d);
    MidBits(first, d, mid);
    forall id: Id
      ensures InRange(id, first, Some(mid)) <==> Agree(first, id, d + 1)
    {
      assert InRange(id, first, next) <==> Agree(first, id, d);
      assert InRange(mid, first, next) <==> Agree(first, mid, d);
      AgreeBits(first, mid, d);
      AgreeOneMore(first, id, d);
      if Agree(first, id, d) {
        MidOrder(first, d, mid, id);
      } else if InRange(id, first, Some(mid)) {
        if next.Some? {
          LessTransitive(id, mid, next.value);
        }
      }
    }
  }

  lemma {:induction false} SplitHigh(first: Id, next: Option<Id>, d: nat, mid: Id)
    requires d < ID_BITS && Covers(first, next, d) && mid == SetBit(first, d)
    ensures Covers(mid, next, d + 1)
  {
    CoversStartsAtZeroes(first, next, d);
    MidBits(first, d, mid);
    forall id: Id
      ensures InRange(id, mid, next) <==> Agree(mid, id, d + 1)
    {
      assert InRange(id, first, next) <==> Agree(first, id, d);
      assert InRange(mid, first, next) <==> Agree(first, mid, d);
      AgreeBits(first, mid, d);
      MidAgrees(first, mid, id, d);
      if Agree(first, id, d) {
        MidOrder(first, d, mid, id);
        OrderTotal(mid, id);
      } else if InRange(id, mid, next) {
        LessTransitive(first, mid, id);
      }
    }
  }

  lemma {:induction false} MidBits(first: Id, d: nat, mid: Id)
    requires d < ID_BITS && ZeroFrom(first, d) && mid == SetBit(first, d)
    ensures forall k: nat | k < ID_BITS :: Bit(mid, k) == (k == d || Bit(first, k))
  {
    forall k: nat | k < ID_BITS
      ensures Bit(mid, k) == (k == d || Bit(first, k))
    {
      SetBitBits(first, d, k);
    }
  }

  lemma {:induction false} AgreeOneMore(a: Id, b: Id, d: nat)
    requires d < ID_BITS
    ensures Agree(a, b, d + 1) <==> Agree(a, b, d) && Bit(a, d) == Bit(b, d)
  {
    AgreeBits(a, b, d);
    AgreeBits(a, b, d + 1);
  }

  lemma {:induction false} MidAgrees(first: Id, mid: Id, id: Id, d: nat)
    requires d < ID_BITS && forall k: nat | k < ID_BITS :: Bit(mid, k) == (k == d || Bit(first, k))
    ensures Agree(mid, id, d + 1) <==> Agree(first, id, d) && Bit(id, d)
  {
    AgreeBits(first, id, d);
    AgreeBits(mid, id, d + 1);
  }

  lemma {:induction false} MidOrder(first: Id, d: nat, mid: Id, id: Id)
    requires d < ID_BITS && ZeroFrom(first, d) && Agree(first, id, d)
    requires forall k: nat | k < ID_BITS :: Bit(mid, k) == (k == d || Bit(first, k))
    ensures LessEq(first, id)
    ensures Less(id, mid) <==> !Bit(id, d)
  {
    AgreeBits(first, id, d);
    OrderAtFirstDiff(first, id);
    if id != first {
      AgreeBits(first, id, FirstDiff(first, id));
    }
    if !Bit(id, d) {
      AgreeBits(id, mid, d);
      LessAt(id, mid, d);
    } else if id != mid {
      OrderAtFirstDiff(id, mid);
      AgreeBits(id, mid, FirstDiff(id, mid));
      assert FirstDiff(id, mid) > d;
    } else {
      OrderTotal(id, id);
    }
  }

  /** Setting the split bit of a range gives the two halves of its prefix. */
  lemma {:induction false} SplitCovers(first: Id, next: Option<Id>, d: nat)
    requires d < ID_BITS && Covers(first, next, d)
    ensures Covers(first, Some(SetBit(first, d)), d + 1)
    ensures Covers(SetBit(first, d), next, d + 1)
  {
    SplitLow(first, next, d, SetBit(first, d));
    SplitHigh(first, next, d, SetBit(first, d));
  }

  /** The midpoint of a range, or nothing when it is a single id. */
  method BucketMiddle(first: Id, next: Option<Id>) returns (mid: Option<Id>)
    requires Covers(first, next, SplitBit(first, next))
    ensures mid.None? <==> SplitBit(first, next) == ID_BITS
    ensures mid.Some? ==> mid.value == SetBit(first, SplitBit(first, next))
    ensures mid.Some? ==> Covers(first, mid, SplitBit(first, next) + 1)
    ensures mid.Some? ==> Covers(mid.value, next, SplitBit(first, next) + 1)
  {
    var bit := ComputeSplitBit(first, next);
    if bit >= 160 {
      return None;
    }
    SplitCovers(first, next, bit);
    mid := Some(first[bit / 8 := first[bit / 8] | Mask(bit % 8)]);
  }

  lemma {:induction false} WholeSpace()
    ensures Covers(ZERO, None, 0)
  {
    forall id: Id
      ensures InRange(id, ZERO, None)
    {
      OrderAtFirstDiff(ZERO, id);
    }
  }

  // ----- random ids in a range -----

  /** 0xFF >> j */
  function LowMask(j: nat): Byte
    requires j < 8
  {
    if j == 0 then 0xFF else if j == 1 then 0x7F else if j == 2 then 0x3F else if j == 3 then 0x1F
    else if j == 4 then 0x0F else if j == 5 then 0x07 else if j == 6 then 0x03 else 0x01
  }

  /** The low byte of 0xFF00 >> j */
  function HighMask(j: nat): Byte
    requires j < 8
  {
    if j == 0 then 0x00 else if j == 1 then 0x80 else if j == 2 then 0xC0 else if j == 3 then 0xE0
    else if j == 4 then 0xF0 else if j == 5 then 0xF8 else if j == 6 then 0xFC else 0xFE
  }

  /** Keeps `first` up to the split bit and takes every later bit from `rnd`. */
  method BucketRandom(first: Id, next: Option<Id>, rnd: Id) returns (id: Id)
    requires Covers(first, next, SplitBit(first, next))
    ensures InRange(id, first, next)
    ensures InRange(rnd, first, next) ==> id == rnd
  {
    var bit := ComputeSplitBit(first, next);
    if bit >= 160 {
      SingleId(first, next, rnd);
      return first;
    }
    var i, j := bit / 8, bit % 8;
    var head := (first[i] & HighMask(j)) | (rnd[i] & LowMask(j));
    id := first[i := head];
    var m := i + 1;
    while m < 20
      invariant i + 1 <= m <= 20 && |id| == 20 && id[i] == head
      invariant forall p | 0 <= p < i :: id[p] == first[p]
      invariant forall p | i < p < m :: id[p] == rnd[p]
    {
      id := id[m := rnd[m]];
      m := m + 1;
    }
    BlendedInRange(first, next, rnd, id, bit);
  }

  lemma {:induction false} SingleId(first: Id, next: Option<Id>, id: Id)
    requires Covers(first, next, ID_BITS)
    ensures InRange(first, first, next)
    ensures InRange(id, first, next) ==> first == id
  {
    AgreeBits(first, first, ID_BITS);
    if InRange(id, first, next) {
      EqualBits(first, id);
    }
  }

  lemma {:induction false} BlendBits(x: Byte, r: Byte, j: nat, m: nat)
    requires j < 8 && m < 8
    ensures ByteBit((x & HighMask(j)) | (r & LowMask(j)), m) == if m < j then ByteBit(x, m) else ByteBit(r, m)
  {
  }

  /** `id` is `first` up to byte `i`, a blend of the two at byte `i`, and `rnd` after it. */
  predicate Blended(first: Id, rnd: Id, id: Id, i: nat, j: nat)
    requires i < 20 && j < 8
  {
    && (forall m | 0 <= m < i :: id[m] == first[m])
    && id[i] == (first[i] & HighMask(j)) | (rnd[i] & LowMask(j))
    && (forall m | i < m < 20 :: id[m] == rnd[m])
  }

  lemma {:induction false} BlendedByte(first: Id, rnd: Id, id: Id, i: nat, j: nat, p: nat, m: nat)
    requires i < 20 && j < 8 && p < 20 && m < 8 && Blended(first, rnd, id, i, j)
    ensures ByteBit(id[p], m) == if p < i || (p == i && m < j) then ByteBit(first[p], m) else ByteBit(rnd[p], m)
  {
    if p == i {
      BlendBits(first[i], rnd[i], j, m);
    }
  }

  lemma {:induction false} BlendedBit(first: Id, rnd: Id, id: Id, i: nat, j: nat, k: nat)
    requires i < 20 && j < 8 && k < ID_BITS && Blended(first, rnd, id, i, j)
    ensures Bit(id, k) == if k < 8 * i + j then Bit(first, k) else Bit(rnd, k)
  {
    BlendedByte(first, rnd, id, i, j, k / 8, k % 8);
  }

  lemma {:induction false} BlendedInRange(first: Id, next: Option<Id>, rnd: Id, id: Id, bit: nat)
    requires bit < ID_BITS && Covers(first, next, bit) && Blended(first, rnd, id, bit / 8, bit % 8)
    ensures InRange(id, first, next)
    ensures InRange(rnd, first, next) ==> id == rnd
  {
    forall k: nat | k < ID_BITS
      ensures Bit(id, k) == if k < bit then Bit(first, k) else Bit(rnd, k)
    {
      BlendedBit(first, rnd, id, bit / 8, bit % 8, k);
    }
    AgreeBits(first, id, bit);
    if InRange(rnd, first, next) {
      AgreeBits(first, rnd, bit);
      AgreeBits(id, rnd, ID_BITS);
      EqualBits(id, rnd);
    }
  }

  // ----- ids as numbers -----

  ghost function Pow2(n: nat): (r: nat)
    ensures r > 0
  {
    if n == 0 then 1 else 2 * Pow2(n - 1)
  }

  /** The number written by bits `lo`..`hi` of an id. */
  ghost function BitsValue(id: Id, lo: nat, hi: nat): (r: nat)
    requires lo <= hi <= ID_BITS
    ensures r < Pow2(hi - lo)
  {
    if lo == hi then 0 else 2 * BitsValue(id, lo, hi - 1) + if Bit(id, hi - 1) then 1 else 0
  }

  ghost function Value(id: Id): (r: nat)
    ensures r < Pow2(ID_BITS)
  {
    BitsValue(id, 0, ID_BITS)
  }

  lemma {:induction false} Pow2Sum(a: nat, b: nat)
    ensures Pow2(a + b) == Pow2(a) * Pow2(b)
  {
    if b > 0 {
      Pow2Sum(a, b - 1);
      assert Pow2(b) == 2 * Pow2(b - 1) && Pow2(a + b) == 2 * Pow2(a + (b - 1));
      ScaleByTwo(Pow2(a), Pow2(b - 1));
    }
  }

  lemma {:induction false} ScaleByTwo(v: nat, w: nat)
    ensures v * (2 * w) == 2 * (v * w)
  {
  }

  lemma {:induction false} ValueSplits(id: Id, lo: nat, d: nat, hi: nat)
    requires lo <= d <= hi <= ID_BITS
    ensures BitsValue(id, lo, hi) == BitsValue(id, lo, d) * Pow2(hi - d) + BitsValue(id, d, hi)
  {
    if d < hi {
      ValueSplits(id, lo, d, hi - 1);
      var v, w := BitsValue(id, lo, d), Pow2(hi - 1 - d);
      assert Pow2(hi - d) == 2 * w;
      ScaleByTwo(v, w);
    }
  }

  lemma {:induction false} AgreeIsEqualValue(a: Id, b: Id, d: nat)
    requires d <= ID_BITS
    ensures Agree(a, b, d) <==> BitsValue(a, 0, d) == BitsValue(b, 0, d)
  {
    if d > 0 {
      AgreeIsEqualValue(a, b, d - 1);
      AgreeOneMore(a, b, d - 1);
    }
  }

  lemma {:induction false} ZeroesHaveNoValue(id: Id, d: nat, hi: nat)
    requires d <= hi <= ID_BITS && ZeroFrom(id, d)
    ensures BitsValue(id, d, hi) == 0
  {
    if d < hi {
      ZeroesHaveNoValue(id, d, hi - 1);
    }
  }

  lemma {:induction false} BlockMembership(q: nat, v: nat, low: nat, w: nat)
    requires low < w
    ensures q == v <==> q * w <= v * w + low < q * w + w
  {
    if q < v {
      assert (q + 1) * w <= v * w;
    } else if v < q {
      assert (v + 1) * w <= q * w;
    }
  }

  /** A covered range is an aligned interval of numbers of width 2^(160-d). */
  lemma {:induction false} AlignedInterval(first: Id, next: Option<Id>, d: nat, id: Id)
    requires Covers(first, next, d)
    ensures Value(first) == BitsValue(first, 0, d) * Pow2(ID_BITS - d)
    ensures InRange(id, first, next) <==> Value(first) <= Value(id) < Value(first) + Pow2(ID_BITS - d)
  {
    CoversStartsAtZeroes(first, next, d);
    ZeroesHaveNoValue(first, d, ID_BITS);
    ValueSplits(first, 0, d, ID_BITS);
    ValueSplits(id, 0, d, ID_BITS);
    AgreeIsEqualValue(first, id, d);
    assert Value(first) == BitsValue(first, 0, d) * Pow2(ID_BITS - d);
    BlockMembership(BitsValue(first, 0, d), BitsValue(id, 0, d), BitsValue(id, d, ID_BITS), Pow2(ID_BITS - d));
  }

  /** Setting the split bit lands exactly half the width further on. */
  lemma {:induction false} MiddleIsHalfway(first: Id, next: Option<Id>, d: nat)
    requires d < ID_BITS && Covers(first, next, d)
    ensures Value(SetBit(first, d)) == Value(first) + Pow2(ID_BITS - d - 1)
    ensures 2 * Pow2(ID_BITS - d - 1) == Pow2(ID_BITS - d)
  {
    CoversStartsAtZeroes(first, next, d);
    var mid := SetBit(first, d);
    MidBits(first, d, mid);
    AgreeBits(first, mid, d);
    AgreeIsEqualValue(first, mid, d);
    ZeroesHaveNoValue(first, d, ID_BITS);
    OneThenZeroes(mid, d);
    ValueSplits(first, 0, d, ID_BITS);
    ValueSplits(mid, 0, d, ID_BITS);
  }

  lemma {:induction false} OneThenZeroes(id: Id, d: nat)
    requires d < ID_BITS && Bit(id, d) && ZeroFrom(id, d + 1)
    ensures BitsValue(id, d, ID_BITS) == Pow2(ID_BITS - d - 1)
  {
    ZeroesHaveNoValue(id, d + 1, ID_BITS);
    ValueSplits(id, d, d + 1, ID_BITS);
    assert BitsValue(id, d, d) == 0;
    assert BitsValue(id, d, d + 1) == 1;
    assert 1 * Pow2(ID_BITS - (d + 1)) == Pow2(ID_BITS - d - 1);
  }

  // ----- how many ids fit -----

  /** Ids that share `d` bits number at most 2^(160-d). */
  lemma {:induction false} PrefixClassSize(s: set<Id>, first: Id, d: nat)
    requires d <= ID_BITS && forall id | id in s :: Agree(first, id, d)
    ensures |s| <= Pow2(ID_BITS - d)
    decreases ID_BITS - d
  {
    if d == ID_BITS {
      forall id | id in s
        ensures id == first
      {
        EqualBits(first, id);
      }
      assert s <= {first};
      SubsetSize(s, {first});
    } else {
      var ones, zeroes := set id | id in s && Bit(id, d), set id | id in s && !Bit(id, d);
      assert s == ones + zeroes;
      forall id | id in s
        ensures Agree(PutBit(first, d, Bit(id, d)), id, d + 1)
      {
        AgreeBits(first, id, d);
        AgreeBits(PutBit(first, d, Bit(id, d)), id, d + 1);
      }
      PrefixClassSize(ones, PutBit(first, d, true), d + 1);
      PrefixClassSize(zeroes, PutBit(first, d, false), d + 1);
    }
  }

  lemma {:induction false} SubsetSize<T>(a: set<T>, b: set<T>)
    requires a <= b
    ensures |a| <= |b|
  {
    if a != {} {
      var x :| x in a;
      SubsetSize(a - {x}, b - {x});
    }
  }

  /** Nine distinct ids in one prefix class leave at least four free bits. */
  lemma {:induction false} NineIdsNeedFourBits(s: set<Id>, first: Id, d: nat)
    requires d <= ID_BITS && |s| >= 9 && forall id | id in s :: Agree(first, id, d)
    ensures d + 4 <= ID_BITS
  {
    PrefixClassSize(s, first, d);
    assert Pow2(0) == 1 && Pow2(1) == 2 && Pow2(2) == 4 && Pow2(3) == 8;
  }

  // ----- distance -----

  /** Whatever shares the target's bucket is strictly closer to it than whatever does not. */
  lemma {:induction false} InsideIsCloser(first: Id, next: Option<Id>, d: nat, target: Id, inside: Id, outside: Id)
    requires Covers(first, next, d)
    requires InRange(target, first, next) && InRange(inside, first, next) && !InRange(outside, first, next)
    ensures Closer(inside, outside, target)
  {
    AgreeBits(first, inside, d);
    AgreeBits(first, outside, d);
    AgreeBits(first, target, d);
    var k := FirstDiff(inside, outside);
    AgreeBits(inside, outside, k);
    assert k < d;
    assert Bit(inside, k) == Bit(first, k) == Bit(target, k);
    CloserAt(inside, outside, target, k);
  }
}
