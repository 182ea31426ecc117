/**
 The routing table as a value: a list of buckets ordered by first id, each with its own
 list of nodes.  This module says what a well-formed table is and proves what the
 individual steps on it (changing nodes in place, splitting our own bucket) preserve.
 */
module Tables {
  import opened Ids
  import opened Prefixes
  import opened Sequences
  import opened Options

  // ----- addresses and nodes -----

  datatype Family = Inet | Inet6

  datatype RawAddress = Address(family: Family, ip: seq<Byte>, port: nat)

  predicate IsAddress(a: RawAddress)
  {
    |a.ip| == (if a.family.Inet? then 4 else 16) && a.port < 0x10000
  }

  type Address = a: RawAddress | IsAddress(a) witness Address(Inet, [0, 0, 0, 0], 0)

  /** Addresses that can never belong to a usable node. */
  predicate Martian(a: Address)
  {
    match a.family
    case Inet =>
      a.port == 0 || a.ip[0] == 0 || a.ip[0] == 127 || a.ip[0] & 0xE0 == 0xE0
    case Inet6 =>
      || a.port == 0
      || a.ip[0] == 0xFF
      || (a.ip[0] == 0xFE && a.ip[1] & 0xC0 == 0x80)
      || (a.ip[..15] == ZERO[..15] && (a.ip[15] == 0 || a.ip[15] == 1))
      || a.ip[..12] == [0, 0, 0, 0, 0, 0, 0, 0, 0, 0, 0xFF, 0xFF]
  }

  datatype Node = Node(id: Id, addr: Address, time: int, replyTime: int, pingedTime: int, pinged: int)

  /** Recently heard from, and not failing to answer. */
  predicate NodeGood(n: Node, now: int)
  {
    n.pinged <= 2 && n.replyTime >= now - 7200 && n.time >= now - 900
  }

  /** The unusable IPv4 addresses by number: no port, "this" network, loopback, multicast and beyond. */
  lemma {:induction false} Martian4Exactly(a: Address)
    requires a.family == Inet
    ensures Martian(a) <==> a.port == 0 || a.ip[0] as int == 0 || a.ip[0] as int == 127 || a.ip[0] as int >= 224
  {
    HighBits(a.ip[0]);
  }

  /** For IPv6: no port, multicast, link-local, unspecified or loopback, and mapped IPv4. */
  lemma {:induction false} Martian6Exactly(a: Address)
    requires a.family == Inet6
    ensures Martian(a) <==>
            || a.port == 0 || a.ip[0] as int == 255 || (a.ip[0] as int == 254 && 128 <= a.ip[1] as int < 192)
            || ((forall i | 0 <= i < 15 :: a.ip[i] == 0) && a.ip[15] as int <= 1)
            || ((forall i | 0 <= i < 10 :: a.ip[i] == 0) && a.ip[10] as int == 255 && a.ip[11] as int == 255)
  {
    HighBits(a.ip[1]);
    ZeroStart(a.ip);
    MappedStart(a.ip);
    AllOrNearlyZero(a.ip[0]);
    AllOrNearlyZero(a.ip[10]);
    AllOrNearlyZero(a.ip[11]);
    AllOrNearlyZero(a.ip[15]);
  }

  lemma {:induction false} AllOrNearlyZero(b: Byte)
    ensures b == 0xFF <==> b as int == 255
    ensures b == 0xFE <==> b as int == 254
    ensures b == 0 || b == 1 <==> b as int <= 1
  {
  }

  lemma {:induction false} MappedStart(ip: seq<Byte>)
    requires |ip| == 16
    ensures ip[..12] == [0, 0, 0, 0, 0, 0, 0, 0, 0, 0, 0xFF, 0xFF] <==>
            (forall i | 0 <= i < 10 :: ip[i] == 0) && ip[10] == 0xFF && ip[11] == 0xFF
  {
    var p := ip[..12];
    assert forall i | 0 <= i < 12 :: p[i] == ip[i];
  }

  lemma {:induction false} HighBits(b: Byte)
    ensures b & 0xE0 == 0xE0 <==> b as int >= 224
    ensures b & 0xC0 == 0x80 <==> 128 <= b as int < 192
  {
    assert b & 0xE0 == 0xE0 <==> b >= 224;
    assert b & 0xC0 == 0x80 <==> 128 <= b < 192;
  }

  lemma {:induction false} ZeroStart(ip: seq<Byte>)
    requires |ip| == 16
    ensures ip[..15] == ZERO[..15] <==> forall i | 0 <= i < 15 :: ip[i] == 0
  {
    assert forall i | 0 <= i < 15 :: ZERO[i] == 0;
    if ip[..15] == ZERO[..15] {
      forall i | 0 <= i < 15
        ensures ip[i] == 0
      {
        assert ip[..15][i] == ip[i] && ZERO[..15][i] == ZERO[i];
      }
    }
  }

  /** A good node that is not pinged stays good for two hours from its reply and fifteen minutes from when it was last heard. */
  lemma {:induction false} GoodUntil(n: Node, now: int, later: int)
    requires NodeGood(n, now) && now <= later
    ensures NodeGood(n, later) <==> later <= n.replyTime + 7200 && later <= n.time + 900
    ensures NodeGood(n.(pinged := n.pinged + 1), now) <==> n.pinged < 2
  {
  }

  datatype Bucket = Bucket(first: Id, nodes: seq<Node>, count: int, maxCount: int, time: int, cached: Option<Address>)

  // ----- where ids belong -----

  function NextFirst(bs: seq<Bucket>, i: nat): Option<Id>
    requires i < |bs|
  {
    if i + 1 < |bs| then Some(bs[i + 1].first) else None
  }

  predicate InBucket(id: Id, bs: seq<Bucket>, i: nat)
    requires i < |bs|
  {
    InRange(id, bs[i].first, NextFirst(bs, i))
  }

  ghost function Depth(bs: seq<Bucket>, i: nat): (d: nat)
    requires i < |bs|
    ensures d <= ID_BITS
  {
    SplitBit(bs[i].first, NextFirst(bs, i))
  }

  /** The buckets cut the whole id space into prefix classes. */
  ghost predicate Partition(bs: seq<Bucket>)
  {
    && |bs| > 0 && bs[0].first == ZERO
    && forall i: nat | i < |bs| :: Covers(bs[i].first, NextFirst(bs, i), Depth(bs, i))
  }

  /**
   As numbers: bucket `i` is an interval whose width is a power of two and whose start is a multiple of
   it, and the id at which it is split is its exact midpoint.
   */
  lemma {:induction false} BucketIsInterval(bs: seq<Bucket>, i: nat, id: Id)
    requires Partition(bs) && i < |bs|
    ensures var d, first := Depth(bs, i), bs[i].first;
            && Value(first) == BitsValue(first, 0, d) * Pow2(ID_BITS - d)
            && (InBucket(id, bs, i) <==> Value(first) <= Value(id) < Value(first) + Pow2(ID_BITS - d))
            && (d < ID_BITS ==> Value(SetBit(first, d)) == Value(first) + Pow2(ID_BITS - d - 1)
                                && 2 * Pow2(ID_BITS - d - 1) == Pow2(ID_BITS - d))
  {
    var d := Depth(bs, i);
    AlignedInterval(bs[i].first, NextFirst(bs, i), d, id);
    if d < ID_BITS {
      MiddleIsHalfway(bs[i].first, NextFirst(bs, i), d);
    }
  }

  lemma {:induction false} FirstInBucket(bs: seq<Bucket>, i: nat)
    requires Partition(bs) && i < |bs|
    ensures InBucket(bs[i].first, bs, i)
  {
    AgreeBits(bs[i].first, bs[i].first, Depth(bs, i));
    assert Agree(bs[i].first, bs[i].first, Depth(bs, i));
  }

  ghost predicate Increasing(bs: seq<Bucket>)
  {
    forall i: nat | i + 1 < |bs| :: Less(bs[i].first, bs[i + 1].first)
  }

  lemma {:induction false} PartitionIncreasing(bs: seq<Bucket>)
    requires Partition(bs)
    ensures Increasing(bs)
  {
    forall i: nat | i + 1 < |bs|
      ensures Less(bs[i].first, bs[i + 1].first)
    {
      FirstInBucket(bs, i);
    }
  }

  lemma {:induction false} FirstsIncrease(bs: seq<Bucket>, i: nat, j: nat)
    requires Increasing(bs) && i < j < |bs|
    ensures Less(bs[i].first, bs[j].first)
    decreases j
  {
    assert Less(bs[j - 1].first, bs[j - 1 + 1].first);
    if i < j - 1 {
      FirstsIncrease(bs, i, j - 1);
      LessChain(bs[i].first, bs[j - 1].first, bs[j].first);
    }
  }

  /** No id is in two buckets. */
  lemma {:induction false} BucketUnique(bs: seq<Bucket>, id: Id, i: nat, j: nat)
    requires Partition(bs) && i < |bs| && j < |bs| && InBucket(id, bs, i) && InBucket(id, bs, j)
    ensures i == j
  {
    PartitionIncreasing(bs);
    if i < j {
      NotInEarlier(bs, id, i, j);
    } else if j < i {
      NotInEarlier(bs, id, j, i);
    }
  }

  lemma {:induction false} NotInEarlier(bs: seq<Bucket>, id: Id, i: nat, j: nat)
    requires Increasing(bs) && i < j < |bs| && LessEq(bs[j].first, id)
    ensures !InBucket(id, bs, i)
  {
    OrderAtFirstDiff(bs[i + 1].first, bs[j].first);
    if i + 1 < j {
      FirstsIncrease(bs, i + 1, j);
    }
    LessTransitive(bs[i + 1].first, bs[j].first, id);
    OrderTotal(bs[i + 1].first, id);
  }

  /** The bucket reached by walking the list from `i`. */
  function HomeFrom(bs: seq<Bucket>, id: Id, i: nat): (h: nat)
    requires i < |bs|
    ensures i <= h < |bs|
    decreases |bs| - i
  {
    if i + 1 == |bs| then i else if Less(id, bs[i + 1].first) then i else HomeFrom(bs, id, i + 1)
  }

  lemma {:induction false} HomeFromHolds(bs: seq<Bucket>, id: Id, i: nat)
    requires i < |bs| && LessEq(bs[i].first, id)
    ensures InBucket(id, bs, HomeFrom(bs, id, i))
    decreases |bs| - i
  {
    if i + 1 < |bs| && !Less(id, bs[i + 1].first) {
      OrderTotal(bs[i + 1].first, id);
      HomeFromHolds(bs, id, i + 1);
    }
  }

  ghost function Home(bs: seq<Bucket>, id: Id): (h: nat)
    requires Partition(bs)
    ensures h < |bs| && InBucket(id, bs, h)
    ensures forall j: nat | j < |bs| && InBucket(id, bs, j) :: j == h
  {
    HomeIsUnique(bs, id);
    HomeFrom(bs, id, 0)
  }

  lemma {:induction false} HomeIsUnique(bs: seq<Bucket>, id: Id)
    requires Partition(bs)
    ensures InBucket(id, bs, HomeFrom(bs, id, 0))
    ensures forall j: nat | j < |bs| && InBucket(id, bs, j) :: j == HomeFrom(bs, id, 0)
  {
    WholeSpace();
    assert Agree(ZERO, id, 0) && InRange(id, ZERO, None);
    HomeFromHolds(bs, id, 0);
    forall j: nat | j < |bs| && InBucket(id, bs, j)
      ensures j == HomeFrom(bs, id, 0)
    {
      BucketUnique(bs, id, j, HomeFrom(bs, id, 0));
    }
  }

  // ----- the nodes of a table -----

  ghost function AllNodes(bs: seq<Bucket>): multiset<Node>
  {
    if bs == [] then multiset{} else multiset(bs[0].nodes) + AllNodes(bs[1..])
  }

  lemma {:induction false} AllNodesConcat(a: seq<Bucket>, b: seq<Bucket>)
    ensures AllNodes(a + b) == AllNodes(a) + AllNodes(b)
  {
    if a == [] {
      assert a + b == b;
    } else {
      assert (a + b)[1..] == a[1..] + b;
      AllNodesConcat(a[1..], b);
    }
  }

  /** A table's nodes, with bucket `i` singled out. */
  lemma {:induction false} AllNodesAt(bs: seq<Bucket>, i: nat)
    requires i < |bs|
    ensures AllNodes(bs) == AllNodes(bs[..i]) + multiset(bs[i].nodes) + AllNodes(bs[i + 1..])
  {
    assert bs == bs[..i] + bs[i..];
    AllNodesConcat(bs[..i], bs[i..]);
    assert bs[i..][1..] == bs[i + 1..];
  }

  lemma {:induction false} AllNodesUpdate(bs: seq<Bucket>, i: nat, b: Bucket)
    requires i < |bs|
    ensures AllNodes(bs[i := b]) + multiset(bs[i].nodes) == AllNodes(bs) + multiset(b.nodes)
  {
    AllNodesAt(bs, i);
    AllNodesAt(bs[i := b], i);
    assert bs[i := b][..i] == bs[..i] && bs[i := b][i + 1..] == bs[i + 1..];
  }

  lemma {:induction false} NodeInSomeBucket(bs: seq<Bucket>, n: Node) returns (i: nat)
    requires n in AllNodes(bs)
    ensures i < |bs| && n in bs[i].nodes
  {
    if n in bs[0].nodes {
      return 0;
    }
    var j := NodeInSomeBucket(bs[1..], n);
    return j + 1;
  }

  lemma {:induction false} BucketNodesInTable(bs: seq<Bucket>, i: nat)
    requires i < |bs|
    ensures multiset(bs[i].nodes) <= AllNodes(bs)
  {
    AllNodesAt(bs, i);
  }

  ghost predicate DistinctIds(t: multiset<Node>)
  {
    && (forall a | a in t :: t[a] == 1)
    && (forall a, b | a in t && b in t && a.id == b.id :: a == b)
  }

  ghost predicate SeqDistinct(s: seq<Node>)
  {
    forall i, j | 0 <= i < j < |s| :: s[i].id != s[j].id
  }

  lemma {:induction false} DistinctPart(s: seq<Node>, t: multiset<Node>)
    requires multiset(s) <= t && DistinctIds(t)
    ensures SeqDistinct(s)
  {
    forall i, j | 0 <= i < j < |s|
      ensures s[i].id != s[j].id
    {
      assert s[i] in multiset(s) && s[j] in multiset(s);
      if s[i].id == s[j].id {
        TwiceInMultiset(s, i, j);
      }
    }
  }

  lemma {:induction false} SmallerTableDistinct(s: multiset<Node>, t: multiset<Node>)
    requires s <= t && DistinctIds(t)
    ensures DistinctIds(s)
  {
    forall a | a in s
      ensures s[a] == 1
    {
      assert a in t;
    }
  }

  // ----- capacities -----

  /** What a bucket may hold after our own bucket was halved `d` times. */
  ghost function Capacity(d: nat): (c: nat)
    ensures c >= 8
  {
    var c := 128 / Pow2(d);
    if c > 8 then c else 8
  }

  lemma {:induction false} CapacityHalves(d: nat)
    ensures Capacity(d + 1) == if Capacity(d) / 2 >= 8 then Capacity(d) / 2 else 8
  {
    if d < 4 {
      assert Pow2(0) == 1 && Pow2(1) == 2 && Pow2(2) == 4 && Pow2(3) == 8 && Pow2(4) == 16;
    } else {
      Pow2Sum(4, d - 4);
      assert Pow2(4) == 16;
      SmallQuotient(Pow2(d));
      SmallQuotient(Pow2(d + 1));
    }
  }

  lemma {:induction false} SmallQuotient(p: nat)
    requires p >= 16
    ensures 128 / p <= 8
  {
    var q := 128 / p;
    assert q * p <= 128;
    assert q * p >= 9 * p || q <= 8;
  }

  // ----- well-formed tables -----

  ghost predicate NodeOk(n: Node, myid: Id, af: Family)
  {
    n.id != myid && !Martian(n.addr) && n.addr.family == af
  }

  ghost predicate CachedOk(cached: Option<Address>, af: Family)
  {
    cached.Some? ==> !Martian(cached.value) && cached.value.family == af
  }

  ghost predicate BucketOk(bs: seq<Bucket>, i: nat, myid: Id, af: Family)
    requires i < |bs|
  {
    && bs[i].count == |bs[i].nodes| <= bs[i].maxCount
    && (forall n | n in bs[i].nodes :: NodeOk(n, myid, af) && InBucket(n.id, bs, i))
    && CachedOk(bs[i].cached, af)
  }

  ghost predicate CapacityOk(bs: seq<Bucket>, i: nat, myid: Id)
    requires i < |bs|
  {
    if InBucket(myid, bs, i) then bs[i].maxCount == Capacity(Depth(bs, i))
    else Depth(bs, i) > 0 && bs[i].maxCount == Capacity(Depth(bs, i) - 1)
  }

  ghost predicate BucketsOk(bs: seq<Bucket>, myid: Id, af: Family)
  {
    forall i: nat | i < |bs| :: CapacityOk(bs, i, myid) && BucketOk(bs, i, myid, af)
  }

  ghost function OwnDepth(bs: seq<Bucket>, myid: Id): nat
    requires Partition(bs)
  {
    Depth(bs, Home(bs, myid))
  }

  /** Shape, capacities and placement; distinctness of ids is stated separately. */
  ghost predicate Structure(bs: seq<Bucket>, myid: Id, af: Family)
  {
    && Partition(bs)
    && |bs| == OwnDepth(bs, myid) + 1
    && BucketsOk(bs, myid, af)
  }

  ghost predicate WellFormed(bs: seq<Bucket>, myid: Id, af: Family)
  {
    Structure(bs, myid, af) && DistinctIds(AllNodes(bs)) && |bs| <= 158
  }

  ghost predicate Holds(bs: seq<Bucket>, id: Id)
  {
    exists n :: n in AllNodes(bs) && n.id == id
  }

  /** Full, and not the bucket of our own id: a node bound for it is dropped. */
  ghost predicate Overflowed(bs: seq<Bucket>, myid: Id, id: Id)
  {
    exists i: nat | i < |bs| :: InBucket(id, bs, i) && !InBucket(myid, bs, i) && bs[i].count >= bs[i].maxCount
  }

  // ----- changing nodes in place -----

  ghost predicate SameShape(a: seq<Bucket>, b: seq<Bucket>)
  {
    |a| == |b| && forall i | 0 <= i < |a| :: a[i].first == b[i].first && a[i].maxCount == b[i].maxCount
  }

  lemma {:induction false} SameShapePlaces(a: seq<Bucket>, b: seq<Bucket>)
    requires SameShape(a, b)
    ensures forall i: nat, id: Id | i < |a| :: InBucket(id, a, i) == InBucket(id, b, i)
    ensures forall i: nat | i < |a| :: Depth(a, i) == Depth(b, i) && NextFirst(a, i) == NextFirst(b, i)
    ensures Partition(a) ==> Partition(b)
  {
  }

  /** Replacing the nodes of one bucket by acceptable ones keeps the structure. */
  lemma {:induction false} ReplaceNodes(bs: seq<Bucket>, i: nat, b: Bucket, myid: Id, af: Family)
    requires Structure(bs, myid, af) && i < |bs|
    requires b.first == bs[i].first && b.maxCount == bs[i].maxCount && b.count == |b.nodes| <= b.maxCount
    requires forall n | n in b.nodes :: NodeOk(n, myid, af) && InBucket(n.id, bs, i)
    requires CachedOk(b.cached, af)
    ensures Structure(bs[i := b], myid, af)
    ensures SameShape(bs, bs[i := b])
    ensures OwnDepth(bs[i := b], myid) == OwnDepth(bs, myid)
  {
    var c := bs[i := b];
    SameShapePlaces(bs, c);
    assert Home(c, myid) == Home(bs, myid);
    forall j: nat | j < |c|
      ensures CapacityOk(c, j, myid) && BucketOk(c, j, myid, af)
    {
      assert CapacityOk(bs, j, myid) && BucketOk(bs, j, myid, af);
    }
  }

  /** Buckets that only grow stay full. */
  lemma {:induction false} OverflowedStays(a: seq<Bucket>, b: seq<Bucket>, myid: Id, id: Id)
    requires SameShape(a, b) && Overflowed(a, myid, id)
    requires forall i | 0 <= i < |a| :: a[i].count <= b[i].count
    ensures Overflowed(b, myid, id)
  {
    SameShapePlaces(a, b);
    var i: nat :| i < |a| && InBucket(id, a, i) && !InBucket(myid, a, i) && a[i].count >= a[i].maxCount;
    assert InBucket(id, b, i) && !InBucket(myid, b, i) && b[i].count >= b[i].maxCount;
  }

  // ----- splitting -----

  function Halve(c: int): int { if c / 2 >= 8 then c / 2 else 8 }

  /** Bucket `i` cut at `mid` and emptied; the half with our id gets half the capacity. */
  function SplitAt(bs: seq<Bucket>, i: nat, mid: Id, myid: Id): seq<Bucket>
    requires i < |bs|
  {
    Spliced(bs, i, LowHalf(bs[i], mid, myid), HighHalf(bs[i], mid, myid))
  }

  function LowHalf(b: Bucket, mid: Id, myid: Id): Bucket
  {
    b.(nodes := [], count := 0, cached := None,
       maxCount := if InRange(myid, b.first, Some(mid)) then Halve(b.maxCount) else b.maxCount)
  }

  function HighHalf(b: Bucket, mid: Id, myid: Id): Bucket
  {
    Bucket(mid, [], 0, if InRange(myid, b.first, Some(mid)) then b.maxCount else Halve(b.maxCount), b.time, None)
  }

  /** Position in the split table of a bucket other than the split one. */
  function Shifted(i: nat, j: nat): nat { if j < i then j else j + 1 }

  lemma {:induction false} SplitPlaces(bs: seq<Bucket>, i: nat, mid: Id, myid: Id, j: nat)
    requires i < |bs| && j < |bs| && j != i
    ensures var cs := SplitAt(bs, i, mid, myid);
            cs[Shifted(i, j)] == bs[j] && NextFirst(cs, Shifted(i, j)) == NextFirst(bs, j)
  {
  }

  lemma {:induction false} SplitPartition(bs: seq<Bucket>, i: nat, mid: Id, myid: Id)
    requires Partition(bs) && i < |bs| && Depth(bs, i) < ID_BITS && mid == SetBit(bs[i].first, Depth(bs, i))
    ensures var cs := SplitAt(bs, i, mid, myid);
            Partition(cs) && Depth(cs, i) == Depth(cs, i + 1) == Depth(bs, i) + 1
    ensures var cs := SplitAt(bs, i, mid, myid);
            forall id: Id :: InBucket(id, cs, i) || InBucket(id, cs, i + 1) <==> InBucket(id, bs, i)
  {
    var cs := SplitAt(bs, i, mid, myid);
    SplitDepths(bs, i, mid, myid);
    forall j: nat | j < |cs|
      ensures Covers(cs[j].first, NextFirst(cs, j), Depth(cs, j))
    {
      if j != i && j != i + 1 {
        SplitPlaces(bs, i, mid, myid, if j < i then j else j - 1);
      }
    }
    forall id: Id
      ensures InBucket(id, cs, i) || InBucket(id, cs, i + 1) <==> InBucket(id, bs, i)
    {
      SplitMembers(bs[i].first, NextFirst(bs, i), Depth(bs, i), mid, id);
    }
  }

  /** The two halves of a split bucket. */
  lemma {:induction false} SplitDepths(bs: seq<Bucket>, i: nat, mid: Id, myid: Id)
    requires i < |bs| && Depth(bs, i) < ID_BITS && mid == SetBit(bs[i].first, Depth(bs, i))
    requires Covers(bs[i].first, NextFirst(bs, i), Depth(bs, i))
    ensures var cs := SplitAt(bs, i, mid, myid);
            && cs[i].first == bs[i].first && cs[i + 1].first == mid
            && NextFirst(cs, i) == Some(mid) && NextFirst(cs, i + 1) == NextFirst(bs, i)
            && Depth(cs, i) == Depth(cs, i + 1) == Depth(bs, i) + 1
            && Covers(cs[i].first, NextFirst(cs, i), Depth(cs, i))
            && Covers(cs[i + 1].first, NextFirst(cs, i + 1), Depth(cs, i + 1))
  {
    var cs, first, next := SplitAt(bs, i, mid, myid), bs[i].first, NextFirst(bs, i);
    HalvesCover(first, next, Depth(bs, i));
    SplitEnds(bs, i, mid, myid);
    assert Depth(cs, i) == SplitBit(first, Some(mid));
    assert Depth(cs, i + 1) == SplitBit(mid, next);
  }

  lemma {:induction false} HalvesCover(first: Id, next: Option<Id>, d: nat)
    requires d < ID_BITS && Covers(first, next, d)
    ensures var mid := SetBit(first, d);
            && Covers(first, Some(mid), d + 1) && SplitBit(first, Some(mid)) == d + 1
            && Covers(mid, next, d + 1) && SplitBit(mid, next) == d + 1
  {
    SplitCovers(first, next, d);
    SplitBitIsDepth(first, Some(SetBit(first, d)), d + 1);
    SplitBitIsDepth(SetBit(first, d), next, d + 1);
  }

  lemma {:induction false} SplitEnds(bs: seq<Bucket>, i: nat, mid: Id, myid: Id)
    requires i < |bs|
    ensures var cs := SplitAt(bs, i, mid, myid);
            && cs[i].first == bs[i].first && cs[i + 1].first == mid
            && NextFirst(cs, i) == Some(mid) && NextFirst(cs, i + 1) == NextFirst(bs, i)
  {
    var low, high := LowHalf(bs[i], mid, myid), HighHalf(bs[i], mid, myid);
    SplicedAt(bs, i, low, high, i);
    SplicedAt(bs, i, low, high, i + 1);
    if i + 1 < |bs| {
      SplicedAt(bs, i, low, high, i + 2);
    }
  }

  lemma {:induction false} SplitMembers(first: Id, next: Option<Id>, d: nat, mid: Id, id: Id)
    requires d < ID_BITS && Covers(first, next, d) && mid == SetBit(first, d)
    ensures InRange(id, first, Some(mid)) || InRange(id, mid, next) <==> InRange(id, first, next)
  {
    SplitCovers(first, next, d);
    CoversStartsAtZeroes(first, next, d);
    MidBits(first, d, mid);
    AgreeOneMore(first, id, d);
    MidAgrees(first, mid, id, d);
    assert InRange(id, first, next) <==> Agree(first, id, d);
    assert InRange(id, first, Some(mid)) <==> Agree(first, id, d + 1);
    assert InRange(id, mid, next) <==> Agree(mid, id, d + 1);
  }

  /** Splitting the bucket of our id keeps the table well shaped, one bucket longer and one bit deeper. */
  lemma {:induction false} SplitStructure(bs: seq<Bucket>, i: nat, mid: Id, myid: Id, af: Family)
    requires Structure(bs, myid, af) && i < |bs| && InBucket(myid, bs, i)
    requires Depth(bs, i) < ID_BITS && mid == SetBit(bs[i].first, Depth(bs, i))
    ensures var cs := SplitAt(bs, i, mid, myid);
            Structure(cs, myid, af) && OwnDepth(cs, myid) == OwnDepth(bs, myid) + 1
  {
    SplitOwnHome(bs, i, mid, myid);
    SplitHalvesOk(bs, i, mid, myid, af);
    SplitOtherBucketsOk(bs, i, mid, myid, af);
  }

  lemma {:induction false} SplitOtherBucketsOk(bs: seq<Bucket>, i: nat, mid: Id, myid: Id, af: Family)
    requires i < |bs| && BucketsOk(bs, myid, af)
    requires var cs := SplitAt(bs, i, mid, myid);
             && CapacityOk(cs, i, myid) && BucketOk(cs, i, myid, af)
             && CapacityOk(cs, i + 1, myid) && BucketOk(cs, i + 1, myid, af)
    ensures BucketsOk(SplitAt(bs, i, mid, myid), myid, af)
  {
    var cs := SplitAt(bs, i, mid, myid);
    forall j: nat | j < |cs|
      ensures CapacityOk(cs, j, myid) && BucketOk(cs, j, myid, af)
    {
      if j != i && j != i + 1 {
        SplitOtherOk(bs, i, mid, myid, af, j);
      }
    }
  }

  lemma {:induction false} SplitOtherOk(bs: seq<Bucket>, i: nat, mid: Id, myid: Id, af: Family, j: nat)
    requires i < |bs| && j <= |bs| && j != i && j != i + 1 && BucketsOk(bs, myid, af)
    ensures var cs := SplitAt(bs, i, mid, myid); CapacityOk(cs, j, myid) && BucketOk(cs, j, myid, af)
  {
    var k := if j < i then j else j - 1;
    assert CapacityOk(bs, k, myid) && BucketOk(bs, k, myid, af) && j == Shifted(i, k);
    SplitOthersOk(bs, i, mid, myid, af, k);
  }

  lemma {:induction false} SplitOwnHome(bs: seq<Bucket>, i: nat, mid: Id, myid: Id)
    requires Partition(bs) && i < |bs| && InBucket(myid, bs, i)
    requires Depth(bs, i) < ID_BITS && mid == SetBit(bs[i].first, Depth(bs, i))
    ensures var cs := SplitAt(bs, i, mid, myid);
            && Partition(cs) && OwnDepth(cs, myid) == OwnDepth(bs, myid) + 1
            && Home(cs, myid) == (if InBucket(myid, cs, i) then i else i + 1)
            && (InBucket(myid, cs, i) <==> !InBucket(myid, cs, i + 1))
  {
    SplitPartition(bs, i, mid, myid);
    var cs := SplitAt(bs, i, mid, myid);
    assert Home(bs, myid) == i;
    var h := Home(cs, myid);
    assert InBucket(myid, cs, i) ==> h == i;
    assert InBucket(myid, cs, i + 1) ==> h == i + 1;
  }

  lemma {:induction false} SplitOthersOk(bs: seq<Bucket>, i: nat, mid: Id, myid: Id, af: Family, k: nat)
    requires i < |bs| && k < |bs| && k != i && CapacityOk(bs, k, myid) && BucketOk(bs, k, myid, af)
    ensures var cs := SplitAt(bs, i, mid, myid);
            CapacityOk(cs, Shifted(i, k), myid) && BucketOk(cs, Shifted(i, k), myid, af)
  {
    SplitPlaces(bs, i, mid, myid, k);
  }

  lemma {:induction false} SplitHalvesOk(bs: seq<Bucket>, i: nat, mid: Id, myid: Id, af: Family)
    requires Partition(bs) && i < |bs| && InBucket(myid, bs, i) && CapacityOk(bs, i, myid)
    requires Depth(bs, i) < ID_BITS && mid == SetBit(bs[i].first, Depth(bs, i))
    ensures var cs := SplitAt(bs, i, mid, myid);
            && CapacityOk(cs, i, myid) && BucketOk(cs, i, myid, af)
            && CapacityOk(cs, i + 1, myid) && BucketOk(cs, i + 1, myid, af)
  {
    var cs, d := SplitAt(bs, i, mid, myid), Depth(bs, i);
    SplitOwnHome(bs, i, mid, myid);
    assert Depth(cs, i) == d + 1 && Depth(cs, i + 1) == d + 1 by {
      SplitPartition(bs, i, mid, myid);
    }
    HalvedCapacities(cs, i, myid, bs[i].maxCount, d);
  }

  lemma {:induction false} HalvedCapacities(cs: seq<Bucket>, i: nat, myid: Id, c: int, d: nat)
    requires i + 1 < |cs| && Depth(cs, i) == d + 1 && Depth(cs, i + 1) == d + 1 && c == Capacity(d)
    requires InBucket(myid, cs, i) <==> !InBucket(myid, cs, i + 1)
    requires cs[i].maxCount == if InBucket(myid, cs, i) then Halve(c) else c
    requires cs[i + 1].maxCount == if InBucket(myid, cs, i) then c else Halve(c)
    ensures CapacityOk(cs, i, myid) && CapacityOk(cs, i + 1, myid)
  {
    CapacityHalves(d);
  }

  lemma {:induction false} SplitNodes(bs: seq<Bucket>, i: nat, mid: Id, myid: Id)
    requires i < |bs|
    ensures AllNodes(SplitAt(bs, i, mid, myid)) + multiset(bs[i].nodes) == AllNodes(bs)
  {
    SplicedNodes(bs, i, LowHalf(bs[i], mid, myid), HighHalf(bs[i], mid, myid));
  }

  /** Two empty buckets in place of one. */
  lemma {:induction false} SplicedNodes(bs: seq<Bucket>, i: nat, x: Bucket, y: Bucket)
    requires i < |bs| && x.nodes == [] && y.nodes == []
    ensures AllNodes(Spliced(bs, i, x, y)) + multiset(bs[i].nodes) == AllNodes(bs)
  {
    AllNodesAt(bs, i);
    AllNodesConcat(bs[..i] + [x, y], bs[i + 1..]);
    AllNodesConcat(bs[..i], [x, y]);
    TwoEmpty(x, y);
  }

  lemma {:induction false} TwoEmpty(x: Bucket, y: Bucket)
    requires x.nodes == [] && y.nodes == []
    ensures AllNodes([x, y]) == multiset{}
  {
    assert [x, y][1..] == [y] && [y][1..] == [];
    assert AllNodes([y]) == multiset{};
  }

  lemma {:induction false} SplitKeepsOverflowed(bs: seq<Bucket>, i: nat, mid: Id, myid: Id, id: Id)
    requires i < |bs| && InBucket(myid, bs, i) && Overflowed(bs, myid, id)
    ensures Overflowed(SplitAt(bs, i, mid, myid), myid, id)
  {
    var cs := SplitAt(bs, i, mid, myid);
    var j: nat :| j < |bs| && InBucket(id, bs, j) && !InBucket(myid, bs, j) && bs[j].count >= bs[j].maxCount;
    SplitPlaces(bs, i, mid, myid, j);
    var k := Shifted(i, j);
    assert InBucket(id, cs, k) && !InBucket(myid, cs, k) && cs[k].count >= cs[k].maxCount;
  }

  ghost function IdSet(s: seq<Node>): set<Id> { set n | n in s :: n.id }

  lemma {:induction false} DistinctIdCount(s: seq<Node>)
    requires SeqDistinct(s)
    ensures |IdSet(s)| == |s|
  {
    if s != [] {
      var t := s[..|s| - 1];
      assert SeqDistinct(t);
      DistinctIdCount(t);
      var x := s[|s| - 1];
      assert s == t + [x];
      assert IdSet(s) == IdSet(t) + {x.id};
      assert x.id !in IdSet(t);
    }
  }

  /** A full bucket that holds our id still has at least four free bits. */
  lemma {:induction false} FullOwnBucketIsWide(bs: seq<Bucket>, i: nat, myid: Id, af: Family)
    requires Structure(bs, myid, af) && i < |bs| && InBucket(myid, bs, i)
    requires SeqDistinct(bs[i].nodes) && bs[i].count >= bs[i].maxCount
    ensures Depth(bs, i) + 4 <= ID_BITS
  {
    var nodes, d := bs[i].nodes, Depth(bs, i);
    assert BucketOk(bs, i, myid, af) && CapacityOk(bs, i, myid);
    DistinctIdCount(nodes);
    var ids := IdSet(nodes) + {myid};
    assert myid !in IdSet(nodes);
    assert |ids| >= 9;
    forall id | id in ids
      ensures Agree(bs[i].first, id, d)
    {
      assert InBucket(id, bs, i);
    }
    NineIdsNeedFourBits(ids, bs[i].first, d);
  }

  /** The table a node starts with. */
  lemma {:induction false} InitialTable(bs: seq<Bucket>, myid: Id, af: Family)
    requires |bs| == 1 && bs[0].first == ZERO && bs[0].nodes == [] && bs[0].count == 0
    requires bs[0].maxCount == 128 && bs[0].cached == None
    ensures WellFormed(bs, myid, af)
  {
    WholeSpace();
    SplitBitIsDepth(ZERO, None, 0);
    assert Depth(bs, 0) == 0;
    assert InBucket(myid, bs, 0) by {
      assert Agree(ZERO, myid, 0);
    }
    assert 128 / Pow2(0) == 128;
    assert bs[1..] == [];
  }

  /** A node outside the bucket of the target is farther from it than every node inside. */
  lemma {:induction false} NearerAtHome(bs: seq<Bucket>, myid: Id, af: Family, target: Id, m: Node, n: Node)
    requires Partition(bs) && BucketsOk(bs, myid, af)
    requires var home := bs[Home(bs, target)].nodes; m in home && n !in home && n in AllNodes(bs)
    ensures Closer(m.id, n.id, target)
  {
    var h := Home(bs, target);
    var i := NodeInSomeBucket(bs, n);
    assert BucketOk(bs, i, myid, af) && BucketOk(bs, h, myid, af);
    if InBucket(n.id, bs, h) {
      BucketUnique(bs, n.id, i, h);
    }
    InsideIsCloser(bs[h].first, NextFirst(bs, h), Depth(bs, h), target, m.id, n.id);
  }
}
