/**
 The routing table of one address family, changed in place by the operations of the
 node: finding a bucket, inserting, splitting, learning about nodes and expiring them.
 */
module RoutingTable {
  import opened Ids
  import opened Prefixes
  import opened Tables
  import opened Redistribution
  import opened NodeUpdates
  import opened Sequences
  import opened Options

  /** The nodes that have not failed to answer four times. */
  function Kept(nodes: seq<Node>): (r: seq<Node>)
    ensures |r| <= |nodes|
  {
    if nodes == [] then []
    else if nodes[0].pinged >= 4 then Kept(nodes[1..])
    else [nodes[0]] + Kept(nodes[1..])
  }

  lemma {:induction false} KeptMembers(nodes: seq<Node>)
    ensures forall n | n in Kept(nodes) :: n in nodes && n.pinged < 4
  {
    if nodes != [] {
      KeptMembers(nodes[1..]);
    }
  }

  lemma {:induction false} KeptExactly(nodes: seq<Node>, x: Node)
    ensures multiset(Kept(nodes))[x] == if x.pinged >= 4 then 0 else multiset(nodes)[x]
  {
    if nodes != [] {
      KeptExactly(nodes[1..], x);
      assert nodes == [nodes[0]] + nodes[1..];
    }
  }

  lemma {:induction false} KeptConcat(a: seq<Node>, b: seq<Node>)
    ensures Kept(a + b) == Kept(a) + Kept(b)
  {
    if a == [] {
      assert a + b == b;
    } else {
      KeptConcat(a[1..], b);
      assert (a + b)[1..] == a[1..] + b && (a + b)[0] == a[0];
      Assoc([a[0]], Kept(a[1..]), Kept(b));
    }
  }

  lemma {:induction false} KeptAll(nodes: seq<Node>)
    requires forall n | n in nodes :: n.pinged < 4
    ensures Kept(nodes) == nodes
  {
    if nodes != [] {
      KeptAll(nodes[1..]);
    }
  }

  function ExpireBucket(b: Bucket): Bucket
  {
    var kept := Kept(b.nodes);
    b.(nodes := kept, count := |kept|, cached := if kept == b.nodes then b.cached else None)
  }

  function Expired(bs: seq<Bucket>): (r: seq<Bucket>)
    ensures |r| == |bs| && forall i | 0 <= i < |bs| :: r[i] == ExpireBucket(bs[i])
  {
    if bs == [] then [] else [ExpireBucket(bs[0])] + Expired(bs[1..])
  }

  lemma {:induction false} ExpiredExactly(bs: seq<Bucket>, x: Node)
    ensures AllNodes(Expired(bs))[x] == if x.pinged >= 4 then 0 else AllNodes(bs)[x]
  {
    if bs != [] {
      ExpiredExactly(bs[1..], x);
      KeptExactly(bs[0].nodes, x);
      assert Expired(bs)[1..] == Expired(bs[1..]);
    }
  }

  lemma {:induction false} ExpireStructure(bs: seq<Bucket>, i: nat, myid: Id, af: Family)
    requires Structure(bs, myid, af) && i < |bs|
    ensures Structure(bs[i := ExpireBucket(bs[i])], myid, af)
  {
    assert BucketOk(bs, i, myid, af);
    KeptMembers(bs[i].nodes);
    ReplaceNodes(bs, i, ExpireBucket(bs[i]), myid, af);
  }

  lemma {:induction false} ExpiredDistinct(bs: seq<Bucket>)
    requires DistinctIds(AllNodes(bs))
    ensures DistinctIds(AllNodes(Expired(bs)))
  {
    forall x
      ensures AllNodes(Expired(bs))[x] <= AllNodes(bs)[x]
    {
      ExpiredExactly(bs, x);
    }
    SmallerTableDistinct(AllNodes(Expired(bs)), AllNodes(bs));
  }

  /**
   `r` is the entry for `id` in the table `bs` that has come of `os`: a known node refreshed, or a first
   entry.  Every other node is as it was or has been pinged, and none is lost but the stale and those
   for whose bucket there was no room in a split.
   */
  ghost predicate Learned(os: seq<Bucket>, bs: seq<Bucket>, myid: Id, id: Id, addr: Address, confirm: int, now: int,
                          r: Option<Node>)
  {
    && Accounted(os, bs, myid, id, now)
    && (r.Some? <==> Holds(bs, id))
    && (r.Some? ==> r.value in AllNodes(bs) && r.value.id == id)
    && (r.Some? && !Holds(os, id) ==> r.value == Fresh(id, addr, confirm, now))
    && (forall o | o in AllNodes(os) && o.id == id :: r == Some(Refreshed(o, addr, confirm, now)))
  }

  lemma {:induction false} DeclinedCandidate(bs: seq<Bucket>, b: nat, myid: Id, af: Family, addr: Address, confirm: int, now: int)
    requires BucketsOk(bs, myid, af) && b < |bs| && addr.family == af && !Martian(addr)
    ensures CachedOk(Declined(bs[b], addr, confirm, now).cached, af)
  {
    assert BucketOk(bs, b, myid, af);
  }

  /** A bucket that keeps the address as its candidate at most pings one of its nodes. */
  lemma {:induction false} AfterDecline(os: seq<Bucket>, bs: seq<Bucket>, b: nat, myid: Id, af: Family, id: Id, addr: Address,
                                        confirm: int, now: int)
    requires OnlySplit(os, bs, myid, id) && WellFormed(bs, myid, af) && b < |bs| && !Holds(bs, id)
    requires addr.family == af && !Martian(addr)
    ensures var cs := bs[b := Declined(bs[b], addr, confirm, now)];
            WellFormed(cs, myid, af) && Accounted(os, cs, myid, id, now) && !Holds(cs, id)
  {
    var nodes, c := PingFirst(bs[b].nodes, now, 0), Declined(bs[b], addr, confirm, now);
    AfterPing(os, bs, myid, af, id, now, b, nodes);
    DeclinedCandidate(bs, b, myid, af, addr, confirm, now);
    TouchAgain(os, bs, b, nodes, c, myid, af, id, now);
  }

  lemma {:induction false} TouchAgain(os: seq<Bucket>, bs: seq<Bucket>, b: nat, nodes: seq<Node>, c: Bucket, myid: Id, af: Family,
                                      id: Id, now: int)
    requires b < |bs| && CachedOk(c.cached, af) && c == bs[b].(nodes := nodes, cached := c.cached)
    requires var ds := bs[b := bs[b].(nodes := nodes)]; WellFormed(ds, myid, af) && Accounted(os, ds, myid, id, now)
    ensures WellFormed(bs[b := c], myid, af) && Accounted(os, bs[b := c], myid, id, now)
    ensures Holds(bs[b := c], id) == Holds(bs[b := bs[b].(nodes := nodes)], id)
  {
    var ds := bs[b := bs[b].(nodes := nodes)];
    TouchAccounted(os, ds, b, c, myid, af, id, now);
    assert ds[b := c] == bs[b := c];
  }

  lemma {:induction false} TouchAccounted(os: seq<Bucket>, bs: seq<Bucket>, b: nat, c: Bucket, myid: Id, af: Family, id: Id, now: int)
    requires WellFormed(bs, myid, af) && b < |bs| && CachedOk(c.cached, af)
    requires c == bs[b].(time := c.time, cached := c.cached) && Accounted(os, bs, myid, id, now)
    ensures WellFormed(bs[b := c], myid, af) && Accounted(os, bs[b := c], myid, id, now)
    ensures Holds(bs[b := c], id) == Holds(bs, id)
  {
    TouchBucket(bs, b, c, myid, af);
  }

  lemma {:induction false} TouchOnlySplit(os: seq<Bucket>, bs: seq<Bucket>, b: nat, c: Bucket, myid: Id, af: Family, id: Id)
    requires WellFormed(bs, myid, af) && b < |bs| && CachedOk(c.cached, af)
    requires c == bs[b].(time := c.time, cached := c.cached) && OnlySplit(os, bs, myid, id)
    ensures WellFormed(bs[b := c], myid, af) && OnlySplit(os, bs[b := c], myid, id)
    ensures OwnDepth(bs[b := c], myid) == OwnDepth(bs, myid)
    ensures forall x: Id :: InBucket(x, bs[b := c], b) == InBucket(x, bs, b)
  {
    TouchBucket(bs, b, c, myid, af);
    SameShapePlaces(bs, bs[b := c]);
  }

  /** One more split on the way to placing `id`. */
  lemma {:induction false} SplitOnlySplit(os: seq<Bucket>, bs: seq<Bucket>, cs: seq<Bucket>, b: nat, freed: multiset<Node>,
                       myid: Id, af: Family, id: Id)
    requires OnlySplit(os, bs, myid, id) && !Holds(bs, id) && Partition(bs) && Partition(cs)
    requires Redistributing(bs, cs, b, multiset{}, freed, myid, af) && AllNodes(cs) + freed == AllNodes(bs)
    requires InBucket(myid, bs, b)
    ensures OnlySplit(os, cs, myid, id)
  {
    forall y | y in AllNodes(os)
      ensures y in AllNodes(cs) || Overflowed(cs, myid, y.id)
    {
      if y in AllNodes(bs) {
        assert y in AllNodes(cs) || y in freed;
      } else {
        OverflowedOutside(bs, cs, b, myid, y.id);
      }
    }
  }

  lemma {:induction false} OverflowedOutside(bs: seq<Bucket>, cs: seq<Bucket>, b: nat, myid: Id, id: Id)
    requires Framed(bs, cs, b) && InBucket(myid, bs, b) && Overflowed(bs, myid, id)
    ensures Overflowed(cs, myid, id)
  {
    var j: nat :| j < |bs| && InBucket(id, bs, j) && !InBucket(myid, bs, j) && bs[j].count >= bs[j].maxCount;
    var k := |cs| - |bs|;
    if j < b {
      BeforeRegion(bs, cs, b, j, id);
      BeforeRegion(bs, cs, b, j, myid);
      assert cs[j] == cs[..b][j] == bs[j];
      assert InBucket(id, cs, j) && !InBucket(myid, cs, j) && cs[j].count >= cs[j].maxCount;
    } else {
      AfterRegion(bs, cs, b, j, id);
      AfterRegion(bs, cs, b, j, myid);
      assert cs[j + k] == cs[b + k + 1..][j - b - 1] == bs[b + 1..][j - b - 1] == bs[j];
      assert InBucket(id, cs, j + k) && !InBucket(myid, cs, j + k) && cs[j + k].count >= cs[j + k].maxCount;
    }
  }

  class RoutingTable {
    const myid: Id
    const af: Family
    var buckets: seq<Bucket>

    ghost predicate Valid()
      reads this
    {
      WellFormed(buckets, myid, af)
    }

    /** A table of one empty bucket for the whole id space. */
    constructor (myid: Id, af: Family)
      ensures Valid() && this.myid == myid && this.af == af
      ensures |buckets| == 1 && AllNodes(buckets) == multiset{}
    {
      this.myid, this.af := myid, af;
      buckets := [Bucket(ZERO, [], 0, 128, 0, None)];
      new;
      InitialTable(buckets, myid, af);
    }

    method FindBucket(id: Id) returns (b: nat)
      requires Partition(buckets)
      ensures b == Home(buckets, id)
    {
      b := 0;
      while true
        invariant b < |buckets| && HomeFrom(buckets, id, b) == HomeFrom(buckets, id, 0)
        decreases |buckets| - b
      {
        if b + 1 == |buckets| {
          return;
        }
        if IdCmp(id, buckets[b + 1].first) < 0 {
          return;
        }
        b := b + 1;
      }
    }

    /** Puts a node in front of its bucket's list, unless the bucket is full. */
    method InsertNode(node: Node) returns (rc: int, split: nat)
      requires Structure(buckets, myid, af) && NodeOk(node, myid, af)
      modifies this
      ensures split == Home(old(buckets), node.id)
      ensures old(buckets)[split].count >= old(buckets)[split].maxCount ==> rc == 0 && buckets == old(buckets)
      ensures old(buckets)[split].count < old(buckets)[split].maxCount ==>
                rc == 1 && buckets == old(buckets)[split := Prepend(old(buckets)[split], node)]
      ensures rc == 1 ==> buckets[split].nodes == [node] + old(buckets)[split].nodes
      ensures Structure(buckets, myid, af)
    {
      var b := FindBucket(node.id);
      split := b;
      if buckets[b].count >= buckets[b].maxCount {
        return 0, split;
      }
      PrependStructure(buckets, myid, af, node, b);
      buckets := buckets[b := Prepend(buckets[b], node)];
      rc := 1;
    }

    /** Cuts our own bucket in two empty halves and hands back its nodes. */
    method SplitBucketHelper(b: nat) returns (rc: int, nodes: seq<Node>)
      requires Structure(buckets, myid, af) && b < |buckets|
      modifies this
      ensures rc == (if InBucket(myid, old(buckets), b) && Depth(old(buckets), b) < ID_BITS then 1 else -1)
      ensures rc < 0 ==> buckets == old(buckets) && nodes == []
      ensures rc > 0 ==> nodes == old(buckets)[b].nodes
      ensures rc > 0 ==> buckets == SplitAt(old(buckets), b, SetBit(old(buckets)[b].first, Depth(old(buckets), b)), myid)
      ensures rc > 0 ==> |buckets| == |old(buckets)| + 1 && Halved(old(buckets)[b], buckets[b], buckets[b + 1])
      ensures Structure(buckets, myid, af)
    {
      if !InBucket(myid, buckets, b) {
        return -1, [];
      }
      var mid := BucketMiddle(buckets[b].first, NextFirst(buckets, b));
      if mid.None? {
        return -1, [];
      }
      SplitStructure(buckets, b, mid.value, myid, af);
      ghost var os := buckets;
      var low := buckets[b].(cached := None);
      var high := Bucket(mid.value, [], 0, 0, low.time, None);
      nodes := low.nodes;
      low := low.(nodes := [], count := 0);
      if InRange(myid, low.first, mid) {
        high := high.(maxCount := low.maxCount);
        low := low.(maxCount := if low.maxCount / 2 >= 8 then low.maxCount / 2 else 8);
      } else {
        high := high.(maxCount := if low.maxCount / 2 >= 8 then low.maxCount / 2 else 8);
      }
      assert low == LowHalf(os[b], mid.value, myid) && high == HighHalf(os[b], mid.value, myid);
      buckets := Spliced(buckets, b, low, high);
      SplicedAt(os, b, low, high, b);
      SplicedAt(os, b, low, high, b + 1);
      rc := 1;
    }

    /** Two empty halves without candidates, as recently alive as the whole was. */
    static ghost predicate Halved(b: Bucket, low: Bucket, high: Bucket)
    {
      && low.nodes == [] && high.nodes == [] && low.count == 0 && high.count == 0 && low.cached == None && high.cached == None
      && low.time == b.time && high.time == b.time && low.first == b.first
    }

    /** Splits a bucket and puts its nodes back, splitting our own bucket again as often as needed. */
    method SplitBucket(b: nat) returns (rc: int, ghost freed: multiset<Node>)
      requires Structure(buckets, myid, af) && DistinctIds(AllNodes(buckets)) && b < |buckets|
      modifies this
      ensures rc == (if InBucket(myid, old(buckets), b) && Depth(old(buckets), b) < ID_BITS then 1 else -1)
      ensures rc < 0 ==> buckets == old(buckets) && freed == multiset{}
      ensures rc > 0 ==> Redistributing(old(buckets), buckets, b, multiset{}, freed, myid, af)
      ensures Structure(buckets, myid, af) && DistinctIds(AllNodes(buckets))
      ensures AllNodes(buckets) + freed == AllNodes(old(buckets))
      ensures forall x | x in freed :: Overflowed(buckets, myid, x.id)
      ensures old(buckets)[b].maxCount == 8 ==> freed == multiset{}
      ensures rc > 0 ==> OwnDepth(buckets, myid) > OwnDepth(old(buckets), myid)
      ensures rc > 0 && old(buckets)[b].count >= old(buckets)[b].maxCount ==> |buckets| <= 158
    {
      ghost var os := buckets;
      freed := multiset{};
      var nodes;
      rc, nodes := SplitBucketHelper(b);
      if rc < 0 {
        return;
      }
      FirstSplit(os, b, myid, af);
      var n: Option<Node> := None;
      while n.Some? || nodes != []
        invariant Redistributing(os, buckets, b, Waiting(n, nodes), freed, myid, af)
        invariant OwnDepth(buckets, myid) > OwnDepth(os, myid)
        decreases ID_BITS - OwnDepth(buckets, myid), |nodes| + if n.Some? then 1 else 0
      {
        if n.None? {
          WaitingHead(nodes);
          n := Some(nodes[0]);
          nodes := nodes[1..];
        }
        n, nodes, freed := PutBack(n.value, nodes, os, b, freed);
      }
      rc := 1;
      assert Waiting(n, nodes) == multiset{};
      Finished(os, buckets, b, freed, myid, af);
      if os[b].count >= os[b].maxCount {
        FullSplitBound(os, b, myid, af);
      }
    }

    static lemma {:induction false} FullSplitBound(os: seq<Bucket>, b: nat, myid: Id, af: Family)
      requires Start(os, b, myid, af) && InBucket(myid, os, b) && os[b].count >= os[b].maxCount
      ensures |os| + 1 <= 158
    {
      DistinctPartOfTable(os, b);
      FullOwnBucketIsWide(os, b, myid, af);
      assert Home(os, myid) == b;
    }

    /** One turn of the loop: places, frees or, after splitting our full bucket again, keeps node `x`. */
    method PutBack(x: Node, nodes: seq<Node>, ghost os: seq<Bucket>, ghost b: nat, ghost freed: multiset<Node>)
      returns (n: Option<Node>, rest: seq<Node>, ghost freed': multiset<Node>)
      requires Start(os, b, myid, af) && Redistributing(os, buckets, b, Waiting(Some(x), nodes), freed, myid, af)
      modifies this
      ensures Redistributing(os, buckets, b, Waiting(n, rest), freed', myid, af)
      ensures n == None ==> rest == nodes && OwnDepth(buckets, myid) == OwnDepth(old(buckets), myid)
      ensures n != None ==> n == Some(x) && OwnDepth(buckets, myid) == OwnDepth(old(buckets), myid) + 1
    {
      ghost var bs := buckets;
      PutBackCases(os, bs, b, x, nodes, freed, myid, af);
      n, rest, freed' := None, nodes, freed;
      var rc, split := InsertNode(x);
      if rc > 0 {
      } else if !InBucket(myid, buckets, split) {
        freed' := freed + multiset{x};
      } else {
        var done, insert := SplitBucketHelper(split);
        if done < 0 {
          assert false;
        }
        n, rest := Some(x), nodes + insert;
      }
    }

    static lemma {:induction false} DistinctPartOfTable(bs: seq<Bucket>, b: nat)
      requires b < |bs| && DistinctIds(AllNodes(bs))
      ensures SeqDistinct(bs[b].nodes)
    {
      BucketNodesInTable(bs, b);
      DistinctPart(bs[b].nodes, AllNodes(bs));
    }

    /**
     Learns that `id` lives at `addr`.  `confirm` is 0 for hearsay, 1 for a query from the node
     and 2 for its reply.  The result is the table's entry for the id, if it has one now;
     `notify` says whether running searches are to be offered the node.  `mid` is the table after
     the splits, if any, that make room for it.
     */
    method NewNode(id: Id, addr: Address, confirm: int, now: int, blacklisted: bool)
      returns (r: Option<Node>, notify: bool, ghost mid: seq<Bucket>)
      requires Valid() && addr.family == af
      modifies this
      ensures Valid()
      ensures id == myid || Martian(addr) || blacklisted <==> Refused(id, addr, blacklisted)
      ensures Refused(id, addr, blacklisted) ==> r == None && !notify && buckets == old(buckets)
      ensures !Refused(id, addr, blacklisted) ==>
                && notify == (confirm == 2)
                && WellFormed(mid, myid, af) && OnlySplit(old(buckets), mid, myid, id)
                && PlacedAt(mid, buckets, Home(mid, id), myid, id, addr, confirm, now, r)
                && Learned(old(buckets), buckets, myid, id, addr, confirm, now, r)
      ensures !Refused(id, addr, blacklisted) ==>
                var b := Home(old(buckets), id);
                MustSplit(old(buckets), b, myid, id, now) || mid == Touched(old(buckets), b, confirm, now)
      ensures !Refused(id, addr, blacklisted) ==>
                && Bookkept(mid, buckets, Home(mid, id), addr, confirm, r)
                && (confirm == 2 ==> mid[Home(mid, id)].time == now)
      ensures !Refused(id, addr, blacklisted) ==>
                && (forall o | o in AllNodes(old(buckets)) && o.id == id :: r.Some? && HeardAgain(o, r.value, addr, confirm, now))
                && (r.Some? && !Holds(old(buckets), id) ==> HeardFirst(r.value, id, addr, confirm, now))
                && (r.Some? && confirm >= 2 ==> NodeGood(r.value, now))
    {
      ghost var os := buckets;
      mid := buckets;
      SameId(id, myid);
      if IdCmp(id, myid) == 0 {
        return None, false, mid;
      }
      if Martian(addr) || blacklisted {
        return None, false, mid;
      }
      notify := confirm == 2;
      ghost var h := Home(buckets, id);
      while true
        invariant Valid() && OnlySplit(os, buckets, myid, id)
        invariant buckets == os || MustSplit(os, h, myid, id, now)
        decreases ID_BITS - OwnDepth(buckets, myid)
      {
        var b := FindBucket(id);
        ghost var was := buckets;
        if confirm == 2 {
          TouchTime(b, now, id, os);
        }
        mid := buckets;
        var again;
        again, r := Settle(b, id, addr, confirm, now, os);
        if !again {
          PlacedBookkept(mid, buckets, b, myid, id, addr, confirm, now, r);
          LearnedMeans(os, buckets, myid, id, addr, confirm, now, r);
          return;
        }
        TouchMustSplit(was, b, myid, id, confirm, now);
      }
    }

    /** What the entry for a node says, whether it was known or not. */
    static lemma {:induction false} LearnedMeans(os: seq<Bucket>, bs: seq<Bucket>, myid: Id, id: Id, addr: Address, confirm: int,
                                                 now: int, r: Option<Node>)
      requires Learned(os, bs, myid, id, addr, confirm, now, r)
      ensures forall o | o in AllNodes(os) && o.id == id :: r.Some? && HeardAgain(o, r.value, addr, confirm, now)
      ensures r.Some? && !Holds(os, id) ==> HeardFirst(r.value, id, addr, confirm, now)
      ensures r.Some? && confirm >= 2 ==> NodeGood(r.value, now)
    {
      FreshMeans(id, addr, confirm, now);
      forall o | o in AllNodes(os) && o.id == id
        ensures r.Some? && HeardAgain(o, r.value, addr, confirm, now) && (confirm >= 2 ==> NodeGood(r.value, now))
      {
        RefreshedMeans(o, addr, confirm, now);
      }
    }

    static lemma {:induction false} TouchMustSplit(bs: seq<Bucket>, b: nat, myid: Id, id: Id, confirm: int, now: int)
      requires b < |bs| && MustSplit(Touched(bs, b, confirm, now), b, myid, id, now)
      ensures MustSplit(bs, b, myid, id, now)
    {
    }

    /** One attempt at placing the node; `again` says that our own bucket had to be split first. */
    method Settle(b: nat, id: Id, addr: Address, confirm: int, now: int, ghost os: seq<Bucket>)
      returns (again: bool, r: Option<Node>)
      requires Valid() && OnlySplit(os, buckets, myid, id) && addr.family == af && !Martian(addr) && id != myid
      requires b == Home(buckets, id) && DistinctIds(AllNodes(os))
      modifies this
      ensures Valid()
      ensures again ==> MustSplit(old(buckets), b, myid, id, now) && OnlySplit(os, buckets, myid, id)
      ensures again ==> OwnDepth(buckets, myid) > OwnDepth(old(buckets), myid)
      ensures !again ==> PlacedAt(old(buckets), buckets, b, myid, id, addr, confirm, now, r)
      ensures !again ==> Learned(os, buckets, myid, id, addr, confirm, now, r)
    {
      again := false;
      HoldsInHome(buckets, id, b, myid, af);
      var found := FindInNodes(buckets[b].nodes, id);
      if found.Some? {
        ghost var bs := buckets;
        r := RefreshAt(b, found.value, id, addr, confirm, now, os);
        ByRefresh(bs, buckets, b, found.value, myid, id, addr, confirm, now, r);
        return;
      }
      again, r := SettleNew(b, id, addr, confirm, now, os);
    }

    static lemma {:induction false} ByRefresh(bs: seq<Bucket>, cs: seq<Bucket>, b: nat, k: nat, myid: Id, id: Id, addr: Address,
                                              confirm: int, now: int, r: Option<Node>)
      requires b < |bs| && RefreshedAt(bs, cs, b, k, id, addr, confirm, now, r)
      ensures PlacedAt(bs, cs, b, myid, id, addr, confirm, now, r)
    {
    }

    static lemma {:induction false} ByTakeover(bs: seq<Bucket>, cs: seq<Bucket>, b: nat, k: nat, myid: Id, id: Id, addr: Address,
                                               confirm: int, now: int)
      requires b < |bs| && TakenOver(bs, cs, b, k, now, Fresh(id, addr, confirm, now)) && !Known(bs[b].nodes, id)
      ensures PlacedAt(bs, cs, b, myid, id, addr, confirm, now, Some(Fresh(id, addr, confirm, now)))
    {
    }

    static lemma {:induction false} UnknownHere(bs: seq<Bucket>, b: nat, id: Id)
      requires b < |bs| && !Holds(bs, id)
      ensures !Known(bs[b].nodes, id)
    {
      BucketNodesInTable(bs, b);
      forall n | n in bs[b].nodes
        ensures n.id != id
      {
        assert n in multiset(bs[b].nodes);
      }
    }

    /** A node the table does not know. */
    method SettleNew(b: nat, id: Id, addr: Address, confirm: int, now: int, ghost os: seq<Bucket>)
      returns (again: bool, r: Option<Node>)
      requires Valid() && OnlySplit(os, buckets, myid, id) && addr.family == af && !Martian(addr) && id != myid
      requires b == Home(buckets, id) && !Holds(buckets, id)
      modifies this
      ensures Valid()
      ensures again ==> MustSplit(old(buckets), b, myid, id, now) && OnlySplit(os, buckets, myid, id)
      ensures again ==> OwnDepth(buckets, myid) > OwnDepth(old(buckets), myid)
      ensures !again ==> PlacedAt(old(buckets), buckets, b, myid, id, addr, confirm, now, r)
      ensures !again ==> Learned(os, buckets, myid, id, addr, confirm, now, r)
    {
      ghost var bs := buckets;
      again := false;
      UnknownHere(buckets, b, id);
      var stale := FindStale(buckets[b].nodes, now);
      if stale.Some? {
        r := ReplaceStale(b, stale.value, id, addr, confirm, now, os);
        ByTakeover(bs, buckets, b, stale.value, myid, id, addr, confirm, now);
        return;
      }
      again, r := SettleLast(b, id, addr, confirm, now, os);
    }

    static lemma {:induction false} ByAdding(bs: seq<Bucket>, b: nat, myid: Id, id: Id, addr: Address, confirm: int, now: int)
      requires b < |bs| && !Known(bs[b].nodes, id) && NoneStale(bs[b].nodes, now) && bs[b].count < bs[b].maxCount
      ensures var entry := Fresh(id, addr, confirm, now);
              PlacedAt(bs, bs[b := Prepend(bs[b], entry)], b, myid, id, addr, confirm, now, Some(entry))
    {
    }

    static lemma {:induction false} ByDeclining(bs: seq<Bucket>, b: nat, myid: Id, id: Id, addr: Address, confirm: int, now: int)
      requires b < |bs| && Full(bs, b, id, now) && (InBucket(myid, bs, b) ==> Dubious(bs[b].nodes, now))
      ensures PlacedAt(bs, bs[b := Declined(bs[b], addr, confirm, now)], b, myid, id, addr, confirm, now, None)
    {
    }

    /** A node the table does not know, in a bucket whose nodes are all worth keeping. */
    method SettleLast(b: nat, id: Id, addr: Address, confirm: int, now: int, ghost os: seq<Bucket>)
      returns (again: bool, r: Option<Node>)
      requires Valid() && OnlySplit(os, buckets, myid, id) && addr.family == af && !Martian(addr) && id != myid
      requires b == Home(buckets, id) && !Holds(buckets, id)
      requires !Known(buckets[b].nodes, id) && NoneStale(buckets[b].nodes, now)
      modifies this
      ensures Valid()
      ensures again ==> MustSplit(old(buckets), b, myid, id, now) && OnlySplit(os, buckets, myid, id)
      ensures again ==> OwnDepth(buckets, myid) > OwnDepth(old(buckets), myid)
      ensures !again ==> PlacedAt(old(buckets), buckets, b, myid, id, addr, confirm, now, r)
      ensures !again ==> Learned(os, buckets, myid, id, addr, confirm, now, r)
    {
      ghost var bs := buckets;
      if buckets[b].count >= buckets[b].maxCount {
        again := NoPlace(b, id, addr, confirm, now, os);
        r := None;
        if !again {
          ByDeclining(bs, b, myid, id, addr, confirm, now);
        }
      } else {
        again := false;
        r := AddFresh(b, id, addr, confirm, now, os);
        ByAdding(bs, b, myid, id, addr, confirm, now);
      }
    }

    /** A full bucket: pings a dubious node, and splits if it is ours and has none. */
    method NoPlace(b: nat, id: Id, addr: Address, confirm: int, now: int, ghost os: seq<Bucket>) returns (again: bool)
      requires Valid() && OnlySplit(os, buckets, myid, id) && addr.family == af && !Martian(addr)
      requires b < |buckets| && !Holds(buckets, id) && buckets[b].count >= buckets[b].maxCount
      modifies this
      ensures Valid()
      ensures again <==> InBucket(myid, old(buckets), b) && !Dubious(old(buckets)[b].nodes, now)
      ensures again ==> OnlySplit(os, buckets, myid, id) && OwnDepth(buckets, myid) > OwnDepth(old(buckets), myid)
      ensures !again ==> buckets == old(buckets)[b := Declined(old(buckets)[b], addr, confirm, now)]
      ensures !again ==> Learned(os, buckets, myid, id, addr, confirm, now, None)
    {
      var nodes, dubious := PingDubious(buckets[b].nodes, now);
      again := InBucket(myid, buckets, b) && !dubious;
      if again {
        AllGoodUnpinged(buckets[b].nodes, now, 0);
        SplitFullOwn(b, id, os);
      } else {
        KeepCandidate(b, nodes, id, addr, confirm, now, os);
      }
    }

    method TouchTime(b: nat, now: int, id: Id, ghost os: seq<Bucket>)
      requires Valid() && b == Home(buckets, id) && OnlySplit(os, buckets, myid, id)
      modifies this
      ensures Valid() && b == Home(buckets, id) && OnlySplit(os, buckets, myid, id)
      ensures OwnDepth(buckets, myid) == OwnDepth(old(buckets), myid)
      ensures InBucket(myid, buckets, b) == InBucket(myid, old(buckets), b)
      ensures buckets == old(buckets)[b := old(buckets)[b].(time := now)]
    {
      assert BucketOk(buckets, b, myid, af);
      var c := buckets[b].(time := now);
      assert c == buckets[b].(time := c.time, cached := c.cached);
      TouchOnlySplit(os, buckets, b, c, myid, af, id);
      buckets := buckets[b := c];
    }

    predicate Refused(id: Id, addr: Address, blacklisted: bool)
    {
      id == myid || Martian(addr) || blacklisted
    }

    static lemma {:induction false} AllGoodUnpinged(nodes: seq<Node>, now: int, i: nat)
      requires i <= |nodes| && forall n | n in nodes :: NodeGood(n, now)
      ensures PingFirst(nodes, now, i) == nodes
      decreases |nodes| - i
    {
      if i < |nodes| {
        assert nodes[i] in nodes;
        AllGoodUnpinged(nodes, now, i + 1);
      }
    }

    /** The entry already there is refreshed in place. */
    method RefreshAt(b: nat, k: nat, id: Id, addr: Address, confirm: int, now: int, ghost os: seq<Bucket>)
      returns (r: Option<Node>)
      requires Valid() && OnlySplit(os, buckets, myid, id) && addr.family == af && !Martian(addr) && id != myid
      requires b == Home(buckets, id) && k < |buckets[b].nodes| && buckets[b].nodes[k].id == id
      requires DistinctIds(AllNodes(os))
      modifies this
      ensures Valid() && Learned(os, buckets, myid, id, addr, confirm, now, r)
      ensures RefreshedAt(old(buckets), buckets, b, k, id, addr, confirm, now, r)
    {
      var n := Refreshed(buckets[b].nodes[k], addr, confirm, now);
      RefreshWellFormed(buckets, b, k, n, myid, af);
      RefreshLearned(os, buckets, b, k, myid, id, addr, confirm, now);
      buckets := ReplaceAt(buckets, b, k, n);
      r := Some(n);
    }

    static lemma {:induction false} RefreshWellFormed(bs: seq<Bucket>, b: nat, k: nat, n: Node, myid: Id, af: Family)
      requires WellFormed(bs, myid, af) && b < |bs| && k < |bs[b].nodes| && n.id == bs[b].nodes[k].id
      requires (n.addr.family == af && !Martian(n.addr)) || n.addr == bs[b].nodes[k].addr
      ensures WellFormed(ReplaceAt(bs, b, k, n), myid, af)
    {
      assert BucketOk(bs, b, myid, af);
      assert bs[b].nodes[k] in bs[b].nodes;
      ReplaceAtWellFormed(bs, b, k, n, myid, af);
    }

    static lemma {:induction false} RefreshLearned(os: seq<Bucket>, bs: seq<Bucket>, b: nat, k: nat, myid: Id, id: Id, addr: Address,
                                                   confirm: int, now: int)
      requires OnlySplit(os, bs, myid, id) && DistinctIds(AllNodes(os))
      requires b < |bs| && k < |bs[b].nodes| && bs[b].nodes[k].id == id
      ensures var n := Refreshed(bs[b].nodes[k], addr, confirm, now);
              Learned(os, ReplaceAt(bs, b, k, n), myid, id, addr, confirm, now, Some(n))
    {
      var n := Refreshed(bs[b].nodes[k], addr, confirm, now);
      ReplaceAtNodes(bs, b, k, n);
      AfterReplace(os, bs, myid, id, now, b, k, n);
    }

    /** An unresponsive node's slot is taken over. */
    method ReplaceStale(b: nat, k: nat, id: Id, addr: Address, confirm: int, now: int, ghost os: seq<Bucket>)
      returns (r: Option<Node>)
      requires Valid() && OnlySplit(os, buckets, myid, id) && addr.family == af && !Martian(addr) && id != myid
      requires b == Home(buckets, id) && !Holds(buckets, id)
      requires k < |buckets[b].nodes| && Stale(buckets[b].nodes[k], now)
      modifies this
      ensures Valid() && Learned(os, buckets, myid, id, addr, confirm, now, r) && !Holds(os, id)
      ensures r == Some(Fresh(id, addr, confirm, now)) && buckets == ReplaceAt(old(buckets), b, k, r.value)
    {
      var n := Fresh(id, addr, confirm, now);
      ReplaceAtWellFormed(buckets, b, k, n, myid, af);
      AfterReplace(os, buckets, myid, id, now, b, k, n);
      buckets := ReplaceAt(buckets, b, k, n);
      r := Some(n);
    }

    method AddFresh(b: nat, id: Id, addr: Address, confirm: int, now: int, ghost os: seq<Bucket>)
      returns (r: Option<Node>)
      requires Valid() && OnlySplit(os, buckets, myid, id) && addr.family == af && !Martian(addr) && id != myid
      requires b == Home(buckets, id) && !Holds(buckets, id) && buckets[b].count < buckets[b].maxCount
      modifies this
      ensures Valid() && Learned(os, buckets, myid, id, addr, confirm, now, r) && !Holds(os, id)
      ensures r == Some(Fresh(id, addr, confirm, now)) && buckets == old(buckets)[b := Prepend(old(buckets)[b], r.value)]
    {
      var n := Fresh(id, addr, confirm, now);
      PrependWellFormed(buckets, b, n, myid, af);
      AfterPrepend(os, buckets, myid, af, id, now, b, n);
      buckets := buckets[b := Prepend(buckets[b], n)];
      r := Some(n);
    }

    /** A full bucket of others, or one with dubious nodes, only remembers the address. */
    method KeepCandidate(b: nat, nodes: seq<Node>, id: Id, addr: Address, confirm: int, now: int, ghost os: seq<Bucket>)
      requires Valid() && OnlySplit(os, buckets, myid, id) && addr.family == af && !Martian(addr)
      requires b < |buckets| && !Holds(buckets, id) && nodes == PingFirst(buckets[b].nodes, now, 0)
      modifies this
      ensures Valid() && Learned(os, buckets, myid, id, addr, confirm, now, None) && !Holds(os, id)
      ensures buckets == old(buckets)[b := Declined(old(buckets)[b], addr, confirm, now)]
    {
      AfterDecline(os, buckets, b, myid, af, id, addr, confirm, now);
      var c := buckets[b].(nodes := nodes);
      if confirm != 0 || c.cached.None? {
        c := c.(cached := Some(addr));
      }
      buckets := buckets[b := c];
    }

    /** Our own full bucket is split; it is always wide enough. */
    method SplitFullOwn(b: nat, id: Id, ghost os: seq<Bucket>)
      requires Valid() && OnlySplit(os, buckets, myid, id) && !Holds(buckets, id)
      requires b < |buckets| && InBucket(myid, buckets, b) && buckets[b].count >= buckets[b].maxCount
      modifies this
      ensures Valid() && OnlySplit(os, buckets, myid, id)
      ensures OwnDepth(buckets, myid) > OwnDepth(old(buckets), myid)
    {
      ghost var bs := buckets;
      DistinctPartOfTable(bs, b);
      FullOwnBucketIsWide(bs, b, myid, af);
      var rc, freed := SplitBucket(b);
      SplitOnlySplit(os, bs, buckets, b, freed, myid, af, id);
    }

    /** Counts a query that `id` has not answered yet. */
    method Pinged(id: Id, now: int)
      requires Valid()
      modifies this
      ensures Valid() && Holds(buckets, id) == Holds(old(buckets), id)
      ensures !Holds(old(buckets), id) ==> buckets == old(buckets)
      ensures forall o | o in AllNodes(old(buckets)) && o.id == id ::
                StoredOver(old(buckets), buckets, o, o.(pinged := o.pinged + 1, pingedTime := now))
      ensures forall o | o in AllNodes(old(buckets)) && o.id == id ::
                AllNodes(buckets) == AllNodes(old(buckets)) - multiset{o} + multiset{Ping(o, now)}
    {
      var b := FindBucket(id);
      HoldsInHome(buckets, id, b, myid, af);
      var found := FindInNodes(buckets[b].nodes, id);
      if found.Some? {
        SetNode(b, found.value, Ping(buckets[b].nodes[found.value], now), now);
      }
    }

    /** Marks `id` as beyond saving: the next expiry will drop it. */
    method Blacklist(id: Id, now: int)
      requires Valid()
      modifies this
      ensures Valid() && Holds(buckets, id) == Holds(old(buckets), id)
      ensures !Holds(old(buckets), id) ==> buckets == old(buckets)
      ensures forall o | o in AllNodes(old(buckets)) && o.id == id ::
                StoredOver(old(buckets), buckets, o, o.(pinged := 4, pingedTime := now))
      ensures forall o | o in AllNodes(old(buckets)) && o.id == id ::
                AllNodes(buckets) == AllNodes(old(buckets)) - multiset{o} + multiset{o.(pinged := 4, pingedTime := now)}
    {
      var b := FindBucket(id);
      HoldsInHome(buckets, id, b, myid, af);
      var found := FindInNodes(buckets[b].nodes, id);
      if found.Some? {
        SetNode(b, found.value, Ping(buckets[b].nodes[found.value].(pinged := 3), now), now);
      }
    }

    /** Stores a pinged node, and lets go of the bucket's candidate once three pings are due. */
    method SetNode(b: nat, k: nat, n: Node, now: int)
      requires Valid() && b < |buckets| && k < |buckets[b].nodes|
      requires n.id == buckets[b].nodes[k].id && n.addr == buckets[b].nodes[k].addr
      modifies this
      ensures Valid() && Holds(buckets, n.id) && Holds(old(buckets), n.id)
      ensures forall o | o in AllNodes(old(buckets)) && o.id == n.id ::
                && o == old(buckets)[b].nodes[k] && StoredOver(old(buckets), buckets, o, n)
                && AllNodes(buckets) == AllNodes(old(buckets)) - multiset{o} + multiset{n}
    {
      StoredWellFormed(buckets, b, k, n, myid, af);
      StoredNodes(buckets, b, k, n);
      StoredIsOver(buckets, b, k, n);
      ghost var bs := buckets;
      buckets := ReplaceAt(buckets, b, k, n);
      if n.pinged >= 3 {
        buckets := Uncached(buckets, b);
      }
      assert buckets == Stored(bs, b, k, n);
    }

    static lemma {:induction false} StoredIsOver(bs: seq<Bucket>, b: nat, k: nat, n: Node)
      requires b < |bs| && k < |bs[b].nodes|
      ensures StoredOver(bs, Stored(bs, b, k, n), bs[b].nodes[k], n)
    {
      assert Stored(bs, b, k, n)
          == bs[b := bs[b].(nodes := bs[b].nodes[k := n], cached := if n.pinged >= 3 then None else bs[b].cached)];
    }

    static lemma {:induction false} StoredWellFormed(bs: seq<Bucket>, b: nat, k: nat, n: Node, myid: Id, af: Family)
      requires WellFormed(bs, myid, af) && b < |bs| && k < |bs[b].nodes|
      requires n.id == bs[b].nodes[k].id && n.addr == bs[b].nodes[k].addr
      ensures WellFormed(Stored(bs, b, k, n), myid, af)
    {
      assert BucketOk(bs, b, myid, af) && bs[b].nodes[k] in bs[b].nodes;
      ReplaceAtWellFormed(bs, b, k, n, myid, af);
      if n.pinged >= 3 {
        UncachedWellFormed(ReplaceAt(bs, b, k, n), b, myid, af);
      }
    }

    static lemma {:induction false} UncachedWellFormed(bs: seq<Bucket>, b: nat, myid: Id, af: Family)
      requires WellFormed(bs, myid, af) && b < |bs|
      ensures WellFormed(Uncached(bs, b), myid, af)
    {
      TouchBucket(bs, b, bs[b].(cached := None), myid, af);
    }

    static lemma {:induction false} UncachedNodes(bs: seq<Bucket>, b: nat)
      requires b < |bs|
      ensures AllNodes(Uncached(bs, b)) == AllNodes(bs)
    {
      AllNodesUpdate(bs, b, bs[b].(cached := None));
      SameNodes(AllNodes(Uncached(bs, b)), AllNodes(bs), multiset(bs[b].nodes));
    }

    /** Storing a node over one with its id, which is the only one. */
    static lemma {:induction false} StoredNodes(bs: seq<Bucket>, b: nat, k: nat, n: Node)
      requires DistinctIds(AllNodes(bs)) && b < |bs| && k < |bs[b].nodes| && n.id == bs[b].nodes[k].id
      ensures AllNodes(Stored(bs, b, k, n)) == AllNodes(bs) - multiset{bs[b].nodes[k]} + multiset{n}
      ensures Holds(bs, n.id) && Holds(Stored(bs, b, k, n), n.id)
      ensures forall o | o in AllNodes(bs) && o.id == n.id :: o == bs[b].nodes[k]
    {
      ReplaceAtNodes(bs, b, k, n);
      UncachedNodes(ReplaceAt(bs, b, k, n), b);
      assert n in AllNodes(Stored(bs, b, k, n));
    }

    // ----- expiry -----

    /** The unlinking loops over one bucket's list. */
    method ExpireNodes(nodes: seq<Node>, count: int) returns (r: seq<Node>, left: int, changed: bool)
      ensures r == Kept(nodes)
      ensures left == count - (|nodes| - |r|)
      ensures changed <==> r != nodes
    {
      r, left, changed := nodes, count, false;
      while r != [] && r[0].pinged >= 4
        invariant Unlinking(nodes, count, r, left, changed)
      {
        UnlinkKept(r, 0);
        r := r[1..];
        left := left - 1;
        changed := true;
      }
      var p := 0;
      while p < |r|
        invariant 0 <= p <= |r| && Unlinking(nodes, count, r, left, changed)
        invariant forall j | 0 <= j <= p && j < |r| :: r[j].pinged < 4
      {
        while p + 1 < |r| && r[p + 1].pinged >= 4
          invariant p < |r| && Unlinking(nodes, count, r, left, changed)
          invariant forall j | 0 <= j <= p :: r[j].pinged < 4
        {
          UnlinkKept(r, p + 1);
          r := r[..p + 1] + r[p + 2..];
          left := left - 1;
          changed := true;
        }
        p := p + 1;
      }
      KeptAll(r);
    }

    /** The list `r` is `nodes` with only expirable nodes taken out so far. */
    static ghost predicate Unlinking(nodes: seq<Node>, count: int, r: seq<Node>, left: int, changed: bool)
    {
      && Kept(r) == Kept(nodes) && |r| <= |nodes| && left == count - (|nodes| - |r|)
      && (changed <==> |r| < |nodes|) && (!changed ==> r == nodes)
    }

    static lemma {:induction false} UnlinkKept(s: seq<Node>, k: nat)
      requires k < |s| && s[k].pinged >= 4
      ensures Kept(s[..k] + s[k + 1..]) == Kept(s)
      ensures k == 0 ==> s[..k] + s[k + 1..] == s[1..]
    {
      KeptConcat(s[..k], s[k + 1..]);
      KeptConcat(s[..k], s[k..]);
      assert s == s[..k] + s[k..];
      assert s[k..][1..] == s[k + 1..] && s[k..][0] == s[k];
      assert Kept(s[k..]) == Kept(s[k + 1..]);
    }

    method ExpireOne(b: nat)
      requires Structure(buckets, myid, af) && b < |buckets|
      modifies this
      ensures Structure(buckets, myid, af)
      ensures buckets == old(buckets)[b := ExpireBucket(old(buckets)[b])]
    {
      assert BucketOk(buckets, b, myid, af);
      var nodes, left, changed := ExpireNodes(buckets[b].nodes, buckets[b].count);
      ExpireStructure(buckets, b, myid, af);
      var e := buckets[b].(nodes := nodes, count := left);
      if changed {
        e := e.(cached := None);
      }
      assert e == ExpireBucket(buckets[b]);
      buckets := buckets[b := e];
    }

    /** Drops the nodes that never answered; a bucket that lost one also lets go of its candidate. */
    method ExpireBuckets()
      requires Valid()
      modifies this
      ensures Valid()
      ensures buckets == Expired(old(buckets))
      ensures forall x :: AllNodes(buckets)[x] == if x.pinged >= 4 then 0 else AllNodes(old(buckets))[x]
      ensures |buckets| == |old(buckets)| && forall i | 0 <= i < |buckets| :: Thinned(old(buckets)[i], buckets[i])
    {
      ghost var os := buckets;
      var b := 0;
      while b < |buckets|
        invariant 0 <= b <= |buckets| && Structure(buckets, myid, af) && ExpiredUpTo(os, buckets, b)
      {
        ExpireOne(b);
        b := b + 1;
      }
      ExpiredAll(os, buckets);
      forall i | 0 <= i < |buckets|
        ensures Thinned(os[i], buckets[i])
      {
        ExpireThins(os[i]);
      }
    }

    /** A bucket that lost a node has let go of its candidate; nothing but nodes, count and candidate changes. */
    static ghost predicate Thinned(b: Bucket, c: Bucket)
    {
      && c.first == b.first && c.maxCount == b.maxCount && c.time == b.time && c.count == |c.nodes|
      && (c.nodes == b.nodes ==> c.cached == b.cached) && (c.nodes != b.nodes ==> c.cached == None)
      && forall n | n in b.nodes :: n.pinged < 4 ==> n in c.nodes
    }

    static lemma {:induction false} ExpireThins(b: Bucket)
      ensures Thinned(b, ExpireBucket(b))
    {
      forall n | n in b.nodes && n.pinged < 4
        ensures n in Kept(b.nodes)
      {
        KeptExactly(b.nodes, n);
        assert n in multiset(b.nodes);
      }
    }

    static ghost predicate ExpiredUpTo(os: seq<Bucket>, bs: seq<Bucket>, b: nat)
    {
      && b <= |bs| == |os|
      && (forall i | 0 <= i < b :: bs[i] == ExpireBucket(os[i]))
      && (forall i | b <= i < |os| :: bs[i] == os[i])
    }

    static lemma {:induction false} ExpiredAll(os: seq<Bucket>, bs: seq<Bucket>)
      requires ExpiredUpTo(os, bs, |os|) && DistinctIds(AllNodes(os))
      ensures bs == Expired(os) && DistinctIds(AllNodes(bs))
      ensures forall x :: AllNodes(bs)[x] == if x.pinged >= 4 then 0 else AllNodes(os)[x]
    {
      assert bs == Expired(os);
      ExpiredDistinct(os);
      forall x
        ensures AllNodes(bs)[x] == if x.pinged >= 4 then 0 else AllNodes(os)[x]
      {
        ExpiredExactly(os, x);
      }
    }
  }
}
