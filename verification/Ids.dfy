/**
 Node identifiers: twenty bytes, compared as big-endian numbers or by XOR distance
 to a reference.  Every fact used by the rest of the project is stated bit by bit,
 bit 0 being the most significant bit of byte 0.
 */
module Ids {

  type Byte = bv8

  const ID_BYTES: nat := 20
  const ID_BITS: nat := 160

  type Id = s: seq<Byte> | |s| == 20 witness ZERO_BYTES

  const ZERO_BYTES: seq<Byte> := [0, 0, 0, 0, 0, 0, 0, 0, 0, 0, 0, 0, 0, 0, 0, 0, 0, 0, 0, 0]
  const ZERO: Id := ZERO_BYTES

  // ----- bits -----

  /** The byte 0x80 >> j. */
  function Mask(j: nat): Byte
    requires j < 8
  {
    if j == 0 then 0x80 else if j == 1 then 0x40 else if j == 2 then 0x20 else if j == 3 then 0x10
    else if j == 4 then 0x08 else if j == 5 then 0x04 else if j == 6 then 0x02 else 0x01
  }

  predicate ByteBit(b: Byte, j: nat)
    requires j < 8
  {
    b & Mask(j) != 0
  }

  predicate Bit(id: Id, k: nat)
    requires k < ID_BITS
  {
    ByteBit(id[k / 8], k % 8)
  }

  ghost predicate AgreeFrom(a: Id, b: Id, k: nat, d: nat)
    requires k <= d <= ID_BITS
    decreases d - k
  {
    k == d || (Bit(a, k) == Bit(b, k) && AgreeFrom(a, b, k + 1, d))
  }

  /** The two ids have the same first `d` bits. */
  ghost predicate Agree(a: Id, b: Id, d: nat)
    requires d <= ID_BITS
  {
    AgreeFrom(a, b, 0, d)
  }

  lemma {:induction false} AgreeFromBits(a: Id, b: Id, k: nat, d: nat)
    requires k <= d <= ID_BITS
    ensures AgreeFrom(a, b, k, d) <==> forall j: nat | k <= j < d :: Bit(a, j) == Bit(b, j)
    decreases d - k
  {
    if k < d {
      AgreeFromBits(a, b, k + 1, d);
    }
  }

  lemma {:induction false} AgreeBits(a: Id, b: Id, d: nat)
    requires d <= ID_BITS
    ensures Agree(a, b, d) <==> forall k: nat | k < d :: Bit(a, k) == Bit(b, k)
  {
    AgreeFromBits(a, b, 0, d);
  }

  lemma {:induction false} BytesEqual(x: Byte, y: Byte)
    requires forall j: nat | j < 8 :: ByteBit(x, j) == ByteBit(y, j)
    ensures x == y
  {
    assert ByteBit(x, 0) == ByteBit(y, 0) && ByteBit(x, 1) == ByteBit(y, 1);
    assert ByteBit(x, 2) == ByteBit(y, 2) && ByteBit(x, 3) == ByteBit(y, 3);
    assert ByteBit(x, 4) == ByteBit(y, 4) && ByteBit(x, 5) == ByteBit(y, 5);
    assert ByteBit(x, 6) == ByteBit(y, 6) && ByteBit(x, 7) == ByteBit(y, 7);
  }

  /** Ids are determined by their bits. */
  lemma {:induction false} EqualBits(a: Id, b: Id)
    requires Agree(a, b, ID_BITS)
    ensures a == b
  {
    forall i | 0 <= i < 20
      ensures a[i] == b[i]
    {
      AgreeByte(a, b, ID_BITS, i, 8);
      BytesEqual(a[i], b[i]);
    }
  }

  /** The least bit position from `k` on at which the ids differ, or 160. */
  ghost function DiffFrom(a: Id, b: Id, k: nat): (d: nat)
    requires k <= ID_BITS
    ensures k <= d <= ID_BITS && AgreeFrom(a, b, k, d)
    ensures d < ID_BITS ==> Bit(a, d) != Bit(b, d)
    decreases ID_BITS - k
  {
    if k == ID_BITS then k else if Bit(a, k) != Bit(b, k) then k else DiffFrom(a, b, k + 1)
  }

  ghost function FirstDiff(a: Id, b: Id): (d: nat)
    ensures d <= ID_BITS && Agree(a, b, d)
    ensures d < ID_BITS ==> Bit(a, d) != Bit(b, d)
    ensures d == ID_BITS <==> a == b
  {
    var d := DiffFrom(a, b, 0);
    if d == ID_BITS then EqualBits(a, b); d else d
  }

  lemma {:induction false} FirstDiffIs(a: Id, b: Id, d: nat)
    requires d < ID_BITS && Agree(a, b, d) && Bit(a, d) != Bit(b, d)
    ensures FirstDiff(a, b) == d
  {
    var e := FirstDiff(a, b);
    AgreeBits(a, b, d);
    AgreeBits(a, b, e);
    assert !(e < d) && !(d < e);
  }

  lemma {:induction false} AgreeBack(a: Id, b: Id, d: nat)
    requires d <= ID_BITS && Agree(a, b, d)
    ensures Agree(b, a, d)
  {
    AgreeBits(a, b, d);
    AgreeBits(b, a, d);
  }

  /** Where `a` parts from `b` at `d`, and `b` from `c` at `e`, `a` parts from `c` at the earlier of the two. */
  lemma {:induction false} AgreeThrough(a: Id, b: Id, c: Id, d: nat, e: nat)
    requires d < ID_BITS && e < ID_BITS && Agree(a, b, d) && Agree(b, c, e)
    ensures Agree(a, c, if d < e then d else e)
    ensures d < e ==> Bit(b, d) == Bit(c, d)
    ensures e < d ==> Bit(a, e) == Bit(b, e)
  {
    AgreeBits(a, b, d);
    AgreeBits(b, c, e);
    AgreeBits(a, c, if d < e then d else e);
  }

  // ----- order -----

  /** `memcmp` of the bytes from position `i` on: -1, 0 or 1. */
  function CompareFrom(a: Id, b: Id, i: nat): int
    requires i <= 20
    decreases 20 - i
  {
    if i == 20 then 0 else if a[i] == b[i] then CompareFrom(a, b, i + 1)
    else if a[i] < b[i] then -1 else 1
  }

  function IdCmp(a: Id, b: Id): int { CompareFrom(a, b, 0) }

  predicate Less(a: Id, b: Id) { IdCmp(a, b) < 0 }

  predicate LessEq(a: Id, b: Id) { IdCmp(a, b) <= 0 }

  /** The bits of `x` and `y` above the one selected by the mask `m` agree, and that one differs. */
  predicate PartsAt(x: Byte, y: Byte, m: Byte) { (x ^ y) & m != 0 && (x ^ y) & !(m | (m - 1)) == 0 }

  lemma {:induction false} PartOrder(x: Byte, y: Byte, r: Byte, j: nat)
    requires j < 8 && PartsAt(x, y, Mask(j))
    ensures x != y
    ensures x < y <==> y & Mask(j) != 0
    ensures (x ^ r) < (y ^ r) <==> ((x & Mask(j) != 0) <==> (r & Mask(j) != 0))
  {
  }

  lemma {:induction false} PartsByMask(x: Byte, y: Byte, j: nat)
    requires j < 8 && (x & Mask(j) != 0) != (y & Mask(j) != 0)
    requires 0 < j ==> (x & 0x80 != 0) == (y & 0x80 != 0)
    requires 1 < j ==> (x & 0x40 != 0) == (y & 0x40 != 0)
    requires 2 < j ==> (x & 0x20 != 0) == (y & 0x20 != 0)
    requires 3 < j ==> (x & 0x10 != 0) == (y & 0x10 != 0)
    requires 4 < j ==> (x & 0x08 != 0) == (y & 0x08 != 0)
    requires 5 < j ==> (x & 0x04 != 0) == (y & 0x04 != 0)
    requires 6 < j ==> (x & 0x02 != 0) == (y & 0x02 != 0)
    ensures PartsAt(x, y, Mask(j))
  {
  }

  lemma {:induction false} Parts(x: Byte, y: Byte, j: nat)
    requires j < 8 && forall i: nat | i < j :: ByteBit(x, i) == ByteBit(y, i)
    requires ByteBit(x, j) != ByteBit(y, j)
    ensures PartsAt(x, y, Mask(j))
  {
    if 0 < j { assert ByteBit(x, 0) == ByteBit(y, 0); }
    if 1 < j { assert ByteBit(x, 1) == ByteBit(y, 1); }
    if 2 < j { assert ByteBit(x, 2) == ByteBit(y, 2); }
    if 3 < j { assert ByteBit(x, 3) == ByteBit(y, 3); }
    if 4 < j { assert ByteBit(x, 4) == ByteBit(y, 4); }
    if 5 < j { assert ByteBit(x, 5) == ByteBit(y, 5); }
    if 6 < j { assert ByteBit(x, 6) == ByteBit(y, 6); }
    PartsByMask(x, y, j);
  }

  /** Within a byte, order and XOR order are both decided at the highest differing bit. */
  lemma {:induction false} ByteOrder(x: Byte, y: Byte, r: Byte, j: nat)
    requires j < 8 && forall i: nat | i < j :: ByteBit(x, i) == ByteBit(y, i)
    requires ByteBit(x, j) != ByteBit(y, j)
    ensures x != y
    ensures x < y <==> ByteBit(y, j)
    ensures (x ^ r) < (y ^ r) <==> ByteBit(x, j) == ByteBit(r, j)
  {
    Parts(x, y, j);
    PartOrder(x, y, r, j);
  }

  /** The byte and the bit within it at which two distinct ids first differ. */
  lemma {:induction false} FirstDiffByte(a: Id, b: Id) returns (i: nat, j: nat)
    requires a != b
    ensures i < 20 && j < 8 && FirstDiff(a, b) == 8 * i + j
    ensures forall k | 0 <= k < i :: a[k] == b[k]
    ensures forall k: nat | k < j :: ByteBit(a[i], k) == ByteBit(b[i], k)
    ensures ByteBit(a[i], j) != ByteBit(b[i], j)
  {
    var d := FirstDiff(a, b);
    i, j := d / 8, d % 8;
    assert ByteBit(a[i], j) == Bit(a, d) && ByteBit(b[i], j) == Bit(b, d);
    forall k | 0 <= k < i
      ensures a[k] == b[k]
    {
      AgreeByte(a, b, d, k, 8);
      BytesEqual(a[k], b[k]);
    }
    AgreeByte(a, b, d, i, j);
  }

  lemma {:induction false} AgreeByte(a: Id, b: Id, d: nat, i: nat, j: nat)
    requires i < 20 && j <= 8 && 8 * i + j <= d <= ID_BITS && Agree(a, b, d)
    ensures forall k: nat | k < j :: ByteBit(a[i], k) == ByteBit(b[i], k)
  {
    AgreeBits(a, b, d);
    forall k: nat | k < j
      ensures ByteBit(a[i], k) == ByteBit(b[i], k)
    {
      BitOfByte(a, i, k);
      BitOfByte(b, i, k);
    }
  }

  lemma {:induction false} BitOfByte(a: Id, i: nat, j: nat)
    requires i < 20 && j < 8
    ensures Bit(a, 8 * i + j) == ByteBit(a[i], j)
  {
    assert (8 * i + j) / 8 == i && (8 * i + j) % 8 == j;
  }

  lemma {:induction false} CompareSkips(a: Id, b: Id, i: nat, k: nat)
    requires i <= k <= 20 && forall m | i <= m < k :: a[m] == b[m]
    ensures CompareFrom(a, b, i) == CompareFrom(a, b, k)
    decreases k - i
  {
    if i < k {
      CompareSkips(a, b, i + 1, k);
    }
  }

  /** Byte-wise comparison is decided at the first differing bit. */
  lemma {:induction false} OrderAtFirstDiff(a: Id, b: Id)
    ensures IdCmp(a, b) == 0 <==> a == b
    ensures Less(a, b) <==> a != b && Bit(b, FirstDiff(a, b))
    ensures LessEq(a, b) <==> a == b || Less(a, b)
  {
    if a == b {
      CompareSkips(a, b, 0, 20);
    } else {
      var i, j := FirstDiffByte(a, b);
      CompareSkips(a, b, 0, i);
      ByteOrder(a[i], b[i], 0, j);
      BitOfByte(b, i, j);
    }
  }

  /** Comparing ids tells whether they are the same. */
  lemma {:induction false} SameId(a: Id, b: Id)
    ensures IdCmp(a, b) == 0 <==> a == b
  {
    OrderAtFirstDiff(a, b);
  }

  /** How a difference at bit `d` after a common prefix settles the order. */
  lemma {:induction false} LessAt(a: Id, b: Id, d: nat)
    requires d < ID_BITS && Agree(a, b, d) && Bit(a, d) != Bit(b, d)
    ensures a != b && (Less(a, b) <==> Bit(b, d)) && (LessEq(a, b) <==> Bit(b, d))
  {
    FirstDiffIs(a, b, d);
    OrderAtFirstDiff(a, b);
  }

  /** The order is a strict total one. */
  lemma {:induction false} OrderTotal(a: Id, b: Id)
    ensures Less(a, b) || a == b || Less(b, a)
    ensures !(Less(a, b) && Less(b, a)) && !Less(a, a)
    ensures LessEq(a, b) <==> !Less(b, a)
  {
    OrderAtFirstDiff(a, b);
    OrderAtFirstDiff(b, a);
    OrderAtFirstDiff(a, a);
    if a != b {
      AgreeBack(a, b, FirstDiff(a, b));
      FirstDiffIs(b, a, FirstDiff(a, b));
    }
  }

  lemma {:induction false} LessTransitive(a: Id, b: Id, c: Id)
    requires LessEq(a, b) && LessEq(b, c)
    ensures LessEq(a, c)
    ensures Less(a, b) || Less(b, c) ==> Less(a, c)
  {
    OrderAtFirstDiff(a, b);
    OrderAtFirstDiff(b, c);
    OrderAtFirstDiff(a, c);
    if a != b && b != c {
      var d, e := FirstDiff(a, b), FirstDiff(b, c);
      var m := if d < e then d else e;
      AgreeThrough(a, b, c, d, e);
      LessAt(a, c, m);
    }
  }

  lemma {:induction false} LessChain(a: Id, b: Id, c: Id)
    requires Less(a, b) && Less(b, c)
    ensures Less(a, c)
  {
    LessTransitive(a, b, c);
  }

  // ----- XOR order -----

  /** From bit `k` on, `a` is the first to follow `ref` where the two part. */
  ghost predicate CloserFrom(a: Id, b: Id, ref: Id, k: nat)
    requires k <= ID_BITS
    decreases ID_BITS - k
  {
    k < ID_BITS && if Bit(a, k) != Bit(b, k) then Bit(a, k) == Bit(ref, k) else CloserFrom(a, b, ref, k + 1)
  }

  /** `a` is strictly closer to `ref` than `b`: it follows `ref` where the two first part. */
  ghost predicate Closer(a: Id, b: Id, ref: Id) { CloserFrom(a, b, ref, 0) }

  lemma {:induction false} CloserFromAt(a: Id, b: Id, ref: Id, k: nat, d: nat)
    requires k <= d < ID_BITS && Agree(a, b, d) && Bit(a, d) != Bit(b, d)
    ensures CloserFrom(a, b, ref, k) <==> Bit(a, d) == Bit(ref, d)
    decreases d - k
  {
    AgreeBits(a, b, d);
    if k < d {
      CloserFromAt(a, b, ref, k + 1, d);
    }
  }

  lemma {:induction false} CloserFromSame(a: Id, ref: Id, k: nat)
    requires k <= ID_BITS
    ensures !CloserFrom(a, a, ref, k)
    decreases ID_BITS - k
  {
    if k < ID_BITS {
      CloserFromSame(a, ref, k + 1);
    }
  }

  lemma {:induction false} CloserAt(a: Id, b: Id, ref: Id, d: nat)
    requires d < ID_BITS && Agree(a, b, d) && Bit(a, d) != Bit(b, d)
    ensures Closer(a, b, ref) <==> Bit(a, d) == Bit(ref, d)
  {
    CloserFromAt(a, b, ref, 0, d);
  }

  lemma {:induction false} CloserTotal(a: Id, b: Id, ref: Id)
    ensures Closer(a, b, ref) || a == b || Closer(b, a, ref)
    ensures !(Closer(a, b, ref) && Closer(b, a, ref)) && !Closer(a, a, ref)
  {
    CloserFromSame(a, ref, 0);
    if a != b {
      var d := FirstDiff(a, b);
      AgreeBack(a, b, d);
      CloserAt(a, b, ref, d);
      CloserAt(b, a, ref, d);
    }
  }

  lemma {:induction false} CloserTransitive(a: Id, b: Id, c: Id, ref: Id)
    requires Closer(a, b, ref) && Closer(b, c, ref)
    ensures Closer(a, c, ref)
  {
    CloserTotal(a, b, ref);
    CloserTotal(b, c, ref);
    var d, e := FirstDiff(a, b), FirstDiff(b, c);
    CloserAt(a, b, ref, d);
    CloserAt(b, c, ref, e);
    var m := if d < e then d else e;
    AgreeThrough(a, b, c, d, e);
    CloserAt(a, c, ref, m);
  }

  lemma {:induction false} CloserAtByte(a: Id, b: Id, ref: Id, i: nat)
    requires i < 20 && a[i] != b[i] && forall k | 0 <= k < i :: a[k] == b[k]
    ensures Closer(a, b, ref) <==> (a[i] ^ ref[i]) < (b[i] ^ ref[i])
  {
    var q := CloserAtBit(a, b, ref, i);
    ByteOrder(a[i], b[i], ref[i], q);
  }

  lemma {:induction false} CloserAtBit(a: Id, b: Id, ref: Id, i: nat) returns (q: nat)
    requires i < 20 && a[i] != b[i] && forall k | 0 <= k < i :: a[k] == b[k]
    ensures q < 8 && ByteBit(a[i], q) != ByteBit(b[i], q) && forall k: nat | k < q :: ByteBit(a[i], k) == ByteBit(b[i], k)
    ensures Closer(a, b, ref) <==> ByteBit(a[i], q) == ByteBit(ref[i], q)
  {
    var p;
    p, q := FirstDiffByte(a, b);
    FirstByte(a, b, i, p, q);
    BitOfByte(ref, i, q);
    BitOfByte(a, i, q);
    CloserAt(a, b, ref, 8 * i + q);
  }

  lemma {:induction false} FirstByte(a: Id, b: Id, i: nat, p: nat, q: nat)
    requires i < 20 && a[i] != b[i] && forall k | 0 <= k < i :: a[k] == b[k]
    requires p < 20 && q < 8 && ByteBit(a[p], q) != ByteBit(b[p], q) && forall k | 0 <= k < p :: a[k] == b[k]
    ensures p == i
  {
  }

  /** The XOR comparison loop. */
  method XorCmp(id1: Id, id2: Id, ref: Id) returns (r: int)
    ensures r == 0 <==> id1 == id2
    ensures r < 0 <==> Closer(id1, id2, ref)
    ensures r > 0 <==> Closer(id2, id1, ref)
  {
    CloserTotal(id1, id2, ref);
    for i := 0 to 20
      invariant forall k | 0 <= k < i :: id1[k] == id2[k]
    {
      if id1[i] == id2[i] {
        continue;
      }
      CloserAtByte(id1, id2, ref, i);
      var xor1, xor2 := id1[i] ^ ref[i], id2[i] ^ ref[i];
      if xor1 < xor2 {
        return -1;
      } else {
        return 1;
      }
    }
    return 0;
  }

  // ----- lowest set bit -----

  /** The position of the last set bit among the first `n`, or -1. */
  ghost function LastSet(id: Id, n: nat): (r: int)
    requires n <= ID_BITS
    ensures -1 <= r < n
  {
    if n == 0 then -1 else if Bit(id, n - 1) then n - 1 else LastSet(id, n - 1)
  }

  lemma {:induction false} LastSetIs(id: Id, n: nat, r: int)
    requires n <= ID_BITS && -1 <= r < n && (r >= 0 ==> Bit(id, r))
    requires forall k: nat | r < k < n :: !Bit(id, k)
    ensures LastSet(id, n) == r
  {
    if n > 0 && r < n - 1 {
      LastSetIs(id, n - 1, r);
    }
  }

  /** The two scanning loops that look for the last set bit of an id. */
  method LowBit(id: Id) returns (r: int)
    ensures r == LastSet(id, ID_BITS)
  {
    var i := 19;
    while i >= 0
      invariant -1 <= i <= 19
      invariant forall m | i < m < 20 :: id[m] == 0
    {
      if id[i] != 0 {
        break;
      }
      i := i - 1;
    }
    if i < 0 {
      LastSetIs(id, ID_BITS, -1);
      return -1;
    }
    assert exists m: nat :: m < 8 && ByteBit(id[i], m) by {
      if forall m: nat | m < 8 :: !ByteBit(id[i], m) {
        BytesEqual(id[i], 0);
      }
    }
    var j := 7;
    while j >= 0
      invariant -1 <= j <= 7
      invariant forall m: nat | j < m < 8 :: !ByteBit(id[i], m)
    {
      if id[i] & Mask(j) != 0 {
        break;
      }
      j := j - 1;
    }
    r := 8 * i + j;
    LowestBitOfByte(id, i, j);
  }

  lemma {:induction false} LowestBitOfByte(id: Id, i: nat, j: nat)
    requires i < 20 && j < 8 && ByteBit(id[i], j)
    requires forall m | i < m < 20 :: id[m] == 0
    requires forall m: nat | j < m < 8 :: !ByteBit(id[i], m)
    ensures LastSet(id, ID_BITS) == 8 * i + j
  {
    BitOfByte(id, i, j);
    forall k: nat | 8 * i + j < k < ID_BITS
      ensures !Bit(id, k)
    {
      BitOfByte(id, k / 8, k % 8);
      assert k / 8 == i || id[k / 8] == 0;
    }
    LastSetIs(id, ID_BITS, 8 * i + j);
  }

  // ----- building ids -----

  function SetBit(id: Id, k: nat): Id
    requires k < ID_BITS
  {
    id[k / 8 := id[k / 8] | Mask(k % 8)]
  }

  lemma {:induction false} MaskBits(b: Byte, i: nat, j: nat)
    requires i < 8 && j < 8
    ensures ByteBit(b | Mask(i), j) <==> i == j || ByteBit(b, j)
    ensures ByteBit(b & !Mask(i), j) <==> i != j && ByteBit(b, j)
  {
  }

  lemma {:induction false} SetBitBits(id: Id, k: nat, j: nat)
    requires k < ID_BITS && j < ID_BITS
    ensures Bit(SetBit(id, k), j) <==> j == k || Bit(id, j)
  {
    MaskBits(id[k / 8], k % 8, j % 8);
    assert j == 8 * (j / 8) + j % 8 && k == 8 * (k / 8) + k % 8;
  }

  /** The id with `head`'s bits before position `d` and every later bit equal to `fill`. */
  ghost function Fill(head: Id, d: nat, fill: bool): (r: Id)
    requires d <= ID_BITS
    ensures forall k: nat | k < ID_BITS :: Bit(r, k) == if k < d then Bit(head, k) else fill
  {
    FillFrom(head, d, fill, ID_BITS)
  }

  function ClearBit(id: Id, k: nat): Id
    requires k < ID_BITS
  {
    id[k / 8 := id[k / 8] & !Mask(k % 8)]
  }

  lemma {:induction false} ClearBitBits(id: Id, k: nat, j: nat)
    requires k < ID_BITS && j < ID_BITS
    ensures Bit(ClearBit(id, k), j) <==> j != k && Bit(id, j)
  {
    MaskBits(id[k / 8], k % 8, j % 8);
    assert j == 8 * (j / 8) + j % 8 && k == 8 * (k / 8) + k % 8;
  }

  ghost function PutBit(id: Id, k: nat, v: bool): (r: Id)
    requires k < ID_BITS
    ensures forall j: nat | j < ID_BITS :: Bit(r, j) == if j == k then v else Bit(id, j)
  {
    var r := if v then SetBit(id, k) else ClearBit(id, k);
    PutBitBits(id, k, v, r);
    r
  }

  lemma {:induction false} PutBitBits(id: Id, k: nat, v: bool, r: Id)
    requires k < ID_BITS && r == if v then SetBit(id, k) else ClearBit(id, k)
    ensures forall j: nat | j < ID_BITS :: Bit(r, j) == if j == k then v else Bit(id, j)
  {
    forall j: nat | j < ID_BITS
      ensures Bit(r, j) == if j == k then v else Bit(id, j)
    {
      SetBitBits(id, k, j);
      ClearBitBits(id, k, j);
    }
  }

  ghost function FillFrom(head: Id, d: nat, fill: bool, n: nat): (r: Id)
    requires d <= n <= ID_BITS
    ensures forall k: nat | k < ID_BITS :: Bit(r, k) == if k < d || n <= k then Bit(head, k) else fill
  {
    if n == d then head else PutBit(FillFrom(head, d, fill, n - 1), n - 1, fill)
  }

  ghost predicate ZeroFrom(id: Id, d: nat)
  {
    forall k: nat | d <= k < ID_BITS :: !Bit(id, k)
  }

  lemma {:induction false} FillAgrees(head: Id, d: nat, fill: bool)
    requires d <= ID_BITS
    ensures Agree(head, Fill(head, d, fill), d)
  {
    AgreeBits(head, Fill(head, d, fill), d);
  }

  lemma {:induction false} LastSetBelow(id: Id, n: nat, d: nat)
    requires n <= ID_BITS && forall k: nat | d <= k < n :: !Bit(id, k)
    ensures LastSet(id, n) < d
  {
    if n > d {
      LastSetBelow(id, n - 1, d);
    }
  }

  /** Clearing the tail of an id gives the least id with its prefix. */
  lemma {:induction false} FillLow(id: Id, d: nat)
    requires d <= ID_BITS
    ensures LessEq(Fill(id, d, false), id)
    ensures LessEq(id, Fill(id, d, false)) ==> ZeroFrom(id, d)
  {
    var z := Fill(id, d, false);
    OrderAtFirstDiff(z, id);
    OrderTotal(id, z);
  }

  /** Setting the tail of an id gives the greatest id with its prefix. */
  lemma {:induction false} FillHigh(head: Id, d: nat, id: Id)
    requires d <= ID_BITS && Agree(head, id, d)
    ensures LessEq(id, Fill(head, d, true))
  {
    AgreeBits(head, id, d);
    OrderAtFirstDiff(id, Fill(head, d, true));
  }
}
