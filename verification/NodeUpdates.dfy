/**
 How learning about one node changes a well-formed table: which values the scans over
 a bucket find, and what replacing, adding or pinging a node does to the table's nodes.
 */
module NodeUpdates {
  import opened Ids
  import opened Prefixes
  import opened Tables
  import opened Redistribution
  import opened Options

  /** A node heard of for the first time. */
  function Fresh(id: Id, addr: Address, confirm: int, now: int): Node
  {
    Node(id, addr, if confirm != 0 then now else 0, if confirm >= 2 then now else 0, 0, 0)
  }

  /** A known node heard of again. */
  function Refreshed(n: Node, addr: Address, confirm: int, now: int): Node
  {
    if confirm != 0 || n.time < now - 15 * 60 then
      var m := n.(addr := addr, time := if confirm != 0 then now else n.time);
      if confirm >= 2 then m.(replyTime := now, pinged := 0, pingedTime := 0) else m
    else n
  }

  function Ping(n: Node, now: int): Node { n.(pinged := n.pinged + 1, pingedTime := now) }

  /** Failed to answer often enough, long enough ago, to give up its place. */
  predicate Stale(n: Node, now: int) { n.pinged >= 3 && n.pingedTime < now - 15 }

  predicate WorthPinging(n: Node, now: int) { !NodeGood(n, now) && n.pingedTime < now - 15 }

  /** The nodes with the first one worth pinging, from position `i` on, pinged. */
  function PingFirst(nodes: seq<Node>, now: int, i: nat): (r: seq<Node>)
    requires i <= |nodes|
    ensures |r| == |nodes|
    ensures forall k | 0 <= k < |nodes| :: r[k] == nodes[k] || (r[k] == Ping(nodes[k], now) && !NodeGood(nodes[k], now))
    decreases |nodes| - i
  {
    if i == |nodes| then nodes
    else if WorthPinging(nodes[i], now) then nodes[i := Ping(nodes[i], now)]
    else PingFirst(nodes, now, i + 1)
  }

  /** A pinged node stored again; with three pings or more its bucket lets go of its candidate. */
  function Stored(bs: seq<Bucket>, b: nat, k: nat, n: Node): seq<Bucket>
    requires b < |bs| && k < |bs[b].nodes|
  {
    if n.pinged >= 3 then Uncached(ReplaceAt(bs, b, k, n), b) else ReplaceAt(bs, b, k, n)
  }

  function Uncached(bs: seq<Bucket>, b: nat): seq<Bucket>
    requires b < |bs|
  {
    bs[b := bs[b].(cached := None)]
  }

  /** `cs` is `bs` with `n` stored in place of `o`, and nothing else changed. */
  ghost predicate StoredOver(bs: seq<Bucket>, cs: seq<Bucket>, o: Node, n: Node)
  {
    exists b: nat, k: nat :: b < |bs| && k < |bs[b].nodes| && bs[b].nodes[k] == o
      && cs == bs[b := bs[b].(nodes := bs[b].nodes[k := n], cached := if n.pinged >= 3 then None else bs[b].cached)]
  }

  // ----- where a node goes -----

  ghost predicate Known(nodes: seq<Node>, id: Id) { exists n :: n in nodes && n.id == id }

  ghost predicate NoneStale(nodes: seq<Node>, now: int) { forall n | n in nodes :: !Stale(n, now) }

  ghost predicate Dubious(nodes: seq<Node>, now: int) { exists n :: n in nodes && !NodeGood(n, now) }

  /** Bucket `b` has no place for `id`: it does not know it, and it is full of nodes none of which is to be given up. */
  ghost predicate Full(bs: seq<Bucket>, b: nat, id: Id, now: int)
    requires b < |bs|
  {
    !Known(bs[b].nodes, id) && NoneStale(bs[b].nodes, now) && bs[b].count >= bs[b].maxCount
  }

  /** The bucket for `id` is ours, has no place for it, and holds good nodes only. */
  ghost predicate MustSplit(bs: seq<Bucket>, b: nat, myid: Id, id: Id, now: int)
    requires b < |bs|
  {
    Full(bs, b, id, now) && InBucket(myid, bs, b) && !Dubious(bs[b].nodes, now)
  }

  /** A reply marks the bucket as alive. */
  function Touched(bs: seq<Bucket>, b: nat, confirm: int, now: int): seq<Bucket>
    requires b < |bs|
  {
    if confirm == 2 then bs[b := bs[b].(time := now)] else bs
  }

  /** A bucket that could not take `addr`: one dubious node pinged, the address kept as a candidate. */
  function Declined(c: Bucket, addr: Address, confirm: int, now: int): Bucket
  {
    c.(nodes := PingFirst(c.nodes, now, 0), cached := if confirm != 0 || c.cached.None? then Some(addr) else c.cached)
  }

  /** `cs` is `bs` with `id` refreshed, put in a stale node's place, added or declined at bucket `b`; `r` is its entry. */
  ghost predicate PlacedAt(bs: seq<Bucket>, cs: seq<Bucket>, b: nat, myid: Id, id: Id, addr: Address, confirm: int, now: int,
                           r: Option<Node>)
    requires b < |bs|
  {
    var nodes, entry := bs[b].nodes, Fresh(id, addr, confirm, now);
    || (exists k :: RefreshedAt(bs, cs, b, k, id, addr, confirm, now, r))
    || (!Known(nodes, id) && r == Some(entry) && exists k :: TakenOver(bs, cs, b, k, now, entry))
    || (!Known(nodes, id) && NoneStale(nodes, now) && bs[b].count < bs[b].maxCount && r == Some(entry)
        && cs == bs[b := bs[b].(nodes := [entry] + nodes, count := bs[b].count + 1)])
    || (Full(bs, b, id, now) && !MustSplit(bs, b, myid, id, now) && r == None
        && cs == bs[b := Declined(bs[b], addr, confirm, now)])
  }

  ghost predicate RefreshedAt(bs: seq<Bucket>, cs: seq<Bucket>, b: nat, k: nat, id: Id, addr: Address, confirm: int, now: int,
                              r: Option<Node>)
    requires b < |bs|
  {
    && k < |bs[b].nodes| && bs[b].nodes[k].id == id
    && r == Some(Refreshed(bs[b].nodes[k], addr, confirm, now))
    && cs == bs[b := bs[b].(nodes := bs[b].nodes[k := r.value])]
  }

  /** The first stale node has given way to `entry`. */
  ghost predicate TakenOver(bs: seq<Bucket>, cs: seq<Bucket>, b: nat, k: nat, now: int, entry: Node)
    requires b < |bs|
  {
    && k < |bs[b].nodes| && Stale(bs[b].nodes[k], now) && (forall j | 0 <= j < k :: !Stale(bs[b].nodes[j], now))
    && cs == bs[b := bs[b].(nodes := bs[b].nodes[k := entry])]
  }

  // ----- what is known of a node afterwards -----

  /** What hearing of a known node, by hearsay (0), by its query (1) or by its reply (2), makes of its entry. */
  ghost predicate HeardAgain(o: Node, n: Node, addr: Address, confirm: int, now: int)
  {
    && n.id == o.id
    && (confirm >= 2 ==> n.addr == addr && n.time == now && n.replyTime == now && n.pinged == 0 && n.pingedTime == 0)
    && (confirm < 2 ==> n.replyTime == o.replyTime && n.pinged == o.pinged && n.pingedTime == o.pingedTime)
    && (confirm != 0 ==> n.addr == addr && n.time == now)
    && (confirm == 0 ==> n.time == o.time && n.addr == if o.time < now - 900 then addr else o.addr)
  }

  /** A first entry: unasked so far, and dated only by what the node itself has said. */
  ghost predicate HeardFirst(n: Node, id: Id, addr: Address, confirm: int, now: int)
  {
    && n.id == id && n.addr == addr && n.pinged == 0 && n.pingedTime == 0
    && (confirm == 0 ==> n.time == 0) && (confirm != 0 ==> n.time == now)
    && (confirm < 2 ==> n.replyTime == 0) && (confirm >= 2 ==> n.replyTime == now)
  }

  lemma {:induction false} RefreshedMeans(o: Node, addr: Address, confirm: int, now: int)
    ensures HeardAgain(o, Refreshed(o, addr, confirm, now), addr, confirm, now)
    ensures confirm >= 2 ==> NodeGood(Refreshed(o, addr, confirm, now), now)
  {
  }

  lemma {:induction false} FreshMeans(id: Id, addr: Address, confirm: int, now: int)
    ensures HeardFirst(Fresh(id, addr, confirm, now), id, addr, confirm, now)
    ensures confirm >= 2 ==> NodeGood(Fresh(id, addr, confirm, now), now)
  {
  }

  /** Apart from its nodes, bucket `b` changes only in the candidate it keeps when it takes no entry. */
  ghost predicate Bookkept(bs: seq<Bucket>, cs: seq<Bucket>, b: nat, addr: Address, confirm: int, r: Option<Node>)
  {
    && b < |bs| == |cs| && (forall j | 0 <= j < |bs| && j != b :: cs[j] == bs[j])
    && cs[b].first == bs[b].first && cs[b].maxCount == bs[b].maxCount && cs[b].time == bs[b].time
    && (r.Some? ==> cs[b].cached == bs[b].cached)
    && (r.None? && (confirm != 0 || bs[b].cached == None) ==> cs[b].cached == Some(addr))
    && (r.None? && confirm == 0 && bs[b].cached != None ==> cs[b].cached == bs[b].cached)
  }

  lemma {:induction false} PlacedBookkept(bs: seq<Bucket>, cs: seq<Bucket>, b: nat, myid: Id, id: Id, addr: Address, confirm: int,
                                          now: int, r: Option<Node>)
    requires b < |bs| && PlacedAt(bs, cs, b, myid, id, addr, confirm, now, r)
    ensures Bookkept(bs, cs, b, addr, confirm, r)
  {
  }

  // ----- scans over one bucket -----

  method FindInNodes(nodes: seq<Node>, id: Id) returns (k: Option<nat>)
    ensures k.Some? ==> k.value < |nodes| && nodes[k.value].id == id
    ensures k.None? ==> forall n | n in nodes :: n.id != id
  {
    var i := 0;
    while i < |nodes|
      invariant 0 <= i <= |nodes| && forall j | 0 <= j < i :: nodes[j].id != id
    {
      SameId(nodes[i].id, id);
      if IdCmp(nodes[i].id, id) == 0 {
        return Some(i);
      }
      i := i + 1;
    }
    k := None;
  }

  method FindStale(nodes: seq<Node>, now: int) returns (k: Option<nat>)
    ensures k.Some? ==> k.value < |nodes| && Stale(nodes[k.value], now) && forall j | 0 <= j < k.value :: !Stale(nodes[j], now)
    ensures k.Some? ==> nodes[k.value].pinged >= 3 && nodes[k.value].pingedTime < now - 15
    ensures k.None? ==> forall n | n in nodes :: !Stale(n, now)
    ensures k.None? ==> forall n | n in nodes :: n.pinged < 3 || n.pingedTime >= now - 15
  {
    var i := 0;
    while i < |nodes|
      invariant 0 <= i <= |nodes| && forall j | 0 <= j < i :: !Stale(nodes[j], now)
    {
      if nodes[i].pinged >= 3 && nodes[i].pingedTime < now - 15 {
        return Some(i);
      }
      i := i + 1;
    }
    k := None;
  }

  /** Position `i` holds the first dubious node that was not pinged within the last fifteen seconds. */
  ghost predicate FirstToPing(nodes: seq<Node>, i: int, now: int)
  {
    && 0 <= i < |nodes| && !NodeGood(nodes[i], now) && nodes[i].pingedTime < now - 15
    && forall j | 0 <= j < i :: NodeGood(nodes[j], now) || nodes[j].pingedTime >= now - 15
  }

  lemma {:induction false} PingFirstExactly(nodes: seq<Node>, now: int, k: nat)
    requires k <= |nodes| && forall j | 0 <= j < k :: NodeGood(nodes[j], now) || nodes[j].pingedTime >= now - 15
    ensures (forall n | n in nodes :: NodeGood(n, now) || n.pingedTime >= now - 15) ==> PingFirst(nodes, now, k) == nodes
    ensures forall i | FirstToPing(nodes, i, now) ::
              PingFirst(nodes, now, k) == nodes[i := nodes[i].(pinged := nodes[i].pinged + 1, pingedTime := now)]
    decreases |nodes| - k
  {
    if k < |nodes| {
      assert nodes[k] in nodes;
      if NodeGood(nodes[k], now) || nodes[k].pingedTime >= now - 15 {
        PingFirstExactly(nodes, now, k + 1);
      }
    }
  }

  /** Looks for a dubious node to ping in a full bucket. */
  method PingDubious(nodes: seq<Node>, now: int) returns (r: seq<Node>, dubious: bool)
    ensures r == PingFirst(nodes, now, 0)
    ensures dubious <==> exists n :: n in nodes && !NodeGood(n, now)
    ensures (forall n | n in nodes :: NodeGood(n, now) || n.pingedTime >= now - 15) ==> r == nodes
    ensures forall i | FirstToPing(nodes, i, now) ::
              r == nodes[i := nodes[i].(pinged := nodes[i].pinged + 1, pingedTime := now)]
  {
    r, dubious := ScanDubious(nodes, now);
    PingFirstExactly(nodes, now, 0);
  }

  method ScanDubious(nodes: seq<Node>, now: int) returns (r: seq<Node>, dubious: bool)
    ensures r == PingFirst(nodes, now, 0)
    ensures dubious <==> exists n :: n in nodes && !NodeGood(n, now)
  {
    dubious := false;
    var i := 0;
    while i < |nodes|
      invariant 0 <= i <= |nodes|
      invariant PingFirst(nodes, now, 0) == PingFirst(nodes, now, i)
      invariant dubious <==> exists j :: 0 <= j < i && !NodeGood(nodes[j], now)
    {
      if !NodeGood(nodes[i], now) {
        dubious := true;
        assert nodes[i] in nodes;
        if nodes[i].pingedTime < now - 15 {
          return nodes[i := nodes[i].(pinged := nodes[i].pinged + 1, pingedTime := now)], true;
        }
      }
      i := i + 1;
    }
    r := nodes;
  }

  // ----- effect on the whole table -----

  lemma {:induction false} HoldsInHome(bs: seq<Bucket>, id: Id, b: nat, myid: Id, af: Family)
    requires Structure(bs, myid, af) && b == Home(bs, id)
    ensures Holds(bs, id) <==> exists n :: n in bs[b].nodes && n.id == id
  {
    if Holds(bs, id) {
      var n :| n in AllNodes(bs) && n.id == id;
      var i := NodeInSomeBucket(bs, n);
      assert BucketOk(bs, i, myid, af);
    }
    if n :| n in bs[b].nodes && n.id == id {
      BucketNodesInTable(bs, b);
      assert n in multiset(bs[b].nodes);
    }
  }

  lemma {:induction false} SwapDistinct(t: multiset<Node>, x: Node, y: Node)
    requires DistinctIds(t) && x in t
    requires forall n | n in t && n.id == y.id :: n == x
    ensures DistinctIds(t - multiset{x} + multiset{y})
  {
    var u := t - multiset{x} + multiset{y};
    forall a | a in u
      ensures u[a] == 1
    {
      assert a != y ==> a in t;
      assert y in t ==> y == x;
    }
    assert forall a | a in u :: a == y || (a in t && a != x);
  }

  lemma {:induction false} AddDistinct(t: multiset<Node>, y: Node)
    requires DistinctIds(t) && forall n | n in t :: n.id != y.id
    ensures DistinctIds(t + multiset{y})
  {
    var u := t + multiset{y};
    forall a | a in u
      ensures u[a] == 1
    {
      assert a != y ==> a in t;
    }
    assert forall a | a in u :: a == y || a in t;
  }

  /** Puts `y` in place of the node at position `k` of bucket `b`. */
  function ReplaceAt(bs: seq<Bucket>, b: nat, k: nat, y: Node): seq<Bucket>
    requires b < |bs| && k < |bs[b].nodes|
  {
    bs[b := bs[b].(nodes := bs[b].nodes[k := y])]
  }

  lemma {:induction false} ReplaceAtNodes(bs: seq<Bucket>, b: nat, k: nat, y: Node)
    requires b < |bs| && k < |bs[b].nodes|
    ensures AllNodes(ReplaceAt(bs, b, k, y)) == AllNodes(bs) - multiset{bs[b].nodes[k]} + multiset{y}
    ensures bs[b].nodes[k] in AllNodes(bs)
  {
    var nodes, cs := bs[b].nodes, ReplaceAt(bs, b, k, y);
    BucketNodesInTable(bs, b);
    assert nodes[k] in multiset(nodes);
    AllNodesUpdate(bs, b, cs[b]);
    assert multiset(nodes[k := y]) == multiset(nodes) - multiset{nodes[k]} + multiset{y};
    SwapOne(AllNodes(cs), AllNodes(bs), multiset(nodes), nodes[k], y);
  }

  lemma {:induction false} SwapOne(a: multiset<Node>, b: multiset<Node>, n: multiset<Node>, x: Node, y: Node)
    requires a + n == b + (n - multiset{x} + multiset{y}) && x in n && x in b
    ensures a == b - multiset{x} + multiset{y}
  {
    forall z
      ensures a[z] == (b - multiset{x} + multiset{y})[z]
    {
      assert (a + n)[z] == (b + (n - multiset{x} + multiset{y}))[z];
    }
  }

  lemma {:induction false} ReplaceAtWellFormed(bs: seq<Bucket>, b: nat, k: nat, y: Node, myid: Id, af: Family)
    requires WellFormed(bs, myid, af) && b < |bs| && k < |bs[b].nodes|
    requires NodeOk(y, myid, af) && InBucket(y.id, bs, b)
    requires y.id == bs[b].nodes[k].id || !Holds(bs, y.id)
    ensures WellFormed(ReplaceAt(bs, b, k, y), myid, af)
    ensures SameShape(bs, ReplaceAt(bs, b, k, y))
    ensures OwnDepth(ReplaceAt(bs, b, k, y), myid) == OwnDepth(bs, myid)
  {
    assert BucketOk(bs, b, myid, af);
    ReplaceNodes(bs, b, bs[b].(nodes := bs[b].nodes[k := y]), myid, af);
    ReplaceAtNodes(bs, b, k, y);
    SwapDistinct(AllNodes(bs), bs[b].nodes[k], y);
  }

  lemma {:induction false} PrependNodes(bs: seq<Bucket>, b: nat, y: Node)
    requires b < |bs|
    ensures AllNodes(bs[b := Prepend(bs[b], y)]) == AllNodes(bs) + multiset{y}
  {
    var cs := bs[b := Prepend(bs[b], y)];
    AllNodesAt(bs, b);
    AllNodesAt(cs, b);
    assert cs[..b] == bs[..b] && cs[b + 1..] == bs[b + 1..];
    assert multiset([y] + bs[b].nodes) == multiset{y} + multiset(bs[b].nodes);
  }

  lemma {:induction false} PrependWellFormed(bs: seq<Bucket>, b: nat, y: Node, myid: Id, af: Family)
    requires WellFormed(bs, myid, af) && b < |bs| && bs[b].count < bs[b].maxCount
    requires NodeOk(y, myid, af) && InBucket(y.id, bs, b) && !Holds(bs, y.id)
    ensures WellFormed(bs[b := Prepend(bs[b], y)], myid, af)
    ensures SameShape(bs, bs[b := Prepend(bs[b], y)])
  {
    PrependStructure(bs, myid, af, y, b);
    PrependNodes(bs, b, y);
    AddDistinct(AllNodes(bs), y);
  }

  /** Changing only the bookkeeping fields of a bucket changes no node. */
  lemma {:induction false} TouchBucket(bs: seq<Bucket>, b: nat, c: Bucket, myid: Id, af: Family)
    requires WellFormed(bs, myid, af) && b < |bs| && CachedOk(c.cached, af)
    requires c == bs[b].(time := c.time, cached := c.cached)
    ensures WellFormed(bs[b := c], myid, af) && SameShape(bs, bs[b := c])
    ensures AllNodes(bs[b := c]) == AllNodes(bs)
    ensures OwnDepth(bs[b := c], myid) == OwnDepth(bs, myid)
    ensures forall id :: Overflowed(bs, myid, id) ==> Overflowed(bs[b := c], myid, id)
  {
    assert BucketOk(bs, b, myid, af);
    ReplaceNodes(bs, b, c, myid, af);
    AllNodesUpdate(bs, b, c);
    SameNodes(AllNodes(bs[b := c]), AllNodes(bs), multiset(c.nodes));
    forall id | Overflowed(bs, myid, id)
      ensures Overflowed(bs[b := c], myid, id)
    {
      OverflowedStays(bs, bs[b := c], myid, id);
    }
  }

  lemma {:induction false} SameNodes(a: multiset<Node>, b: multiset<Node>, n: multiset<Node>)
    requires a + n == b + n
    ensures a == b
  {
    forall x
      ensures a[x] == b[x]
    {
      assert (a + n)[x] == (b + n)[x];
    }
  }

  /** The whole effect on a table of learning about `id`, up to bookkeeping. */
  ghost predicate Accounted(os: seq<Bucket>, bs: seq<Bucket>, myid: Id, id: Id, now: int)
  {
    && (forall x | x in AllNodes(bs) && x.id != id :: Unmoved(os, x, now))
    && (forall y | y in AllNodes(os) && y.id != id ::
          Holds(bs, y.id) || Stale(y, now) || Overflowed(bs, myid, y.id))
  }

  ghost predicate Unmoved(os: seq<Bucket>, x: Node, now: int)
  {
    x in AllNodes(os) || exists y :: y in AllNodes(os) && !NodeGood(y, now) && x == Ping(y, now)
  }

  /** Where the table stands after some splits and no other change. */
  ghost predicate OnlySplit(os: seq<Bucket>, bs: seq<Bucket>, myid: Id, id: Id)
  {
    && AllNodes(bs) <= AllNodes(os)
    && (forall y | y in AllNodes(os) :: y in AllNodes(bs) || Overflowed(bs, myid, y.id))
    && (Holds(os, id) ==> AllNodes(bs) == AllNodes(os))
  }

  lemma {:induction false} AfterSplitOnly(os: seq<Bucket>, bs: seq<Bucket>, myid: Id, id: Id, now: int)
    requires OnlySplit(os, bs, myid, id)
    ensures Accounted(os, bs, myid, id, now)
  {
  }

  /** One node `x` giving way to `y`. */
  lemma {:induction false} AfterSwap(os: seq<Bucket>, bs: seq<Bucket>, cs: seq<Bucket>, myid: Id, id: Id, now: int, x: Node, y: Node)
    requires OnlySplit(os, bs, myid, id) && x in AllNodes(bs) && AllNodes(cs) == AllNodes(bs) - multiset{x} + multiset{y}
    requires SameShape(bs, cs) && forall i | 0 <= i < |bs| :: bs[i].count == cs[i].count
    requires x.id == id || x.id == y.id || Stale(x, now)
    requires y.id == id || Unmoved(os, y, now)
    ensures Accounted(os, cs, myid, id, now)
  {
    forall z | z in AllNodes(os) && z.id != id
      ensures Holds(cs, z.id) || Stale(z, now) || Overflowed(cs, myid, z.id)
    {
      assert y in AllNodes(cs);
      if z in AllNodes(bs) {
        assert z == x || z in AllNodes(cs);
      } else {
        OverflowedStays(bs, cs, myid, z.id);
      }
    }
    forall z | z in AllNodes(cs) && z.id != id
      ensures Unmoved(os, z, now)
    {
      assert z == y || z in AllNodes(bs);
    }
  }

  lemma {:induction false} AfterReplace(os: seq<Bucket>, bs: seq<Bucket>, myid: Id, id: Id, now: int, b: nat, k: nat, y: Node)
    requires OnlySplit(os, bs, myid, id) && b < |bs| && k < |bs[b].nodes|
    requires y.id == id && (bs[b].nodes[k].id == id || Stale(bs[b].nodes[k], now))
    ensures Accounted(os, ReplaceAt(bs, b, k, y), myid, id, now)
    ensures y in AllNodes(ReplaceAt(bs, b, k, y)) && Holds(ReplaceAt(bs, b, k, y), id)
  {
    ReplaceAtHolds(bs, b, k, y);
    AfterSwap(os, bs, ReplaceAt(bs, b, k, y), myid, id, now, bs[b].nodes[k], y);
  }

  lemma {:induction false} ReplaceAtHolds(bs: seq<Bucket>, b: nat, k: nat, y: Node)
    requires b < |bs| && k < |bs[b].nodes|
    ensures var cs := ReplaceAt(bs, b, k, y);
            && AllNodes(cs) == AllNodes(bs) - multiset{bs[b].nodes[k]} + multiset{y}
            && y in AllNodes(cs) && Holds(cs, y.id) && bs[b].nodes[k] in AllNodes(bs)
            && SameShape(bs, cs) && forall i | 0 <= i < |bs| :: bs[i].count == cs[i].count
  {
    ReplaceAtNodes(bs, b, k, y);
    ReplaceAtShape(bs, b, k, y);
    assert y in AllNodes(ReplaceAt(bs, b, k, y));
  }

  lemma {:induction false} ReplaceAtShape(bs: seq<Bucket>, b: nat, k: nat, y: Node)
    requires b < |bs| && k < |bs[b].nodes|
    ensures var cs := ReplaceAt(bs, b, k, y);
            SameShape(bs, cs) && forall i | 0 <= i < |bs| :: bs[i].count == cs[i].count
  {
  }

  lemma {:induction false} AfterPrepend(os: seq<Bucket>, bs: seq<Bucket>, myid: Id, af: Family, id: Id, now: int, b: nat, y: Node)
    requires OnlySplit(os, bs, myid, id) && b < |bs| && y.id == id
    ensures var cs := bs[b := Prepend(bs[b], y)];
            Accounted(os, cs, myid, id, now) && y in AllNodes(cs) && Holds(cs, id)
  {
    var cs := bs[b := Prepend(bs[b], y)];
    PrependNodes(bs, b, y);
    assert y in AllNodes(cs);
    forall z | z in AllNodes(os) && z.id != id
      ensures Holds(cs, z.id) || Stale(z, now) || Overflowed(cs, myid, z.id)
    {
      if z in AllNodes(bs) {
        assert z in AllNodes(cs);
      } else {
        OverflowedStays(bs, cs, myid, z.id);
      }
    }
  }

  /** Pinging at most one node of a bucket. */
  lemma {:induction false} AfterPing(os: seq<Bucket>, bs: seq<Bucket>, myid: Id, af: Family, id: Id, now: int, b: nat, nodes: seq<Node>)
    requires OnlySplit(os, bs, myid, id) && WellFormed(bs, myid, af) && b < |bs| && !Holds(bs, id)
    requires nodes == PingFirst(bs[b].nodes, now, 0)
    ensures var cs := bs[b := bs[b].(nodes := nodes)];
            WellFormed(cs, myid, af) && Accounted(os, cs, myid, id, now) && !Holds(cs, id)
  {
    var ns := bs[b].nodes;
    if nodes != ns {
      var k := PingedPosition(ns, now, 0);
      AfterPingAt(os, bs, myid, af, id, now, b, k);
    } else {
      assert bs[b := bs[b].(nodes := ns)] == bs;
      AfterSplitOnly(os, bs, myid, id, now);
    }
  }

  lemma {:induction false} AfterPingAt(os: seq<Bucket>, bs: seq<Bucket>, myid: Id, af: Family, id: Id, now: int, b: nat, k: nat)
    requires OnlySplit(os, bs, myid, id) && WellFormed(bs, myid, af) && b < |bs| && !Holds(bs, id)
    requires k < |bs[b].nodes| && !NodeGood(bs[b].nodes[k], now)
    ensures var cs := ReplaceAt(bs, b, k, Ping(bs[b].nodes[k], now));
            WellFormed(cs, myid, af) && Accounted(os, cs, myid, id, now) && !Holds(cs, id)
  {
    PingWellFormed(bs, myid, af, now, b, k);
    PingAccounted(os, bs, myid, id, now, b, k);
  }

  lemma {:induction false} PingWellFormed(bs: seq<Bucket>, myid: Id, af: Family, now: int, b: nat, k: nat)
    requires WellFormed(bs, myid, af) && b < |bs| && k < |bs[b].nodes|
    ensures WellFormed(ReplaceAt(bs, b, k, Ping(bs[b].nodes[k], now)), myid, af)
  {
    assert BucketOk(bs, b, myid, af);
    ReplaceAtWellFormed(bs, b, k, Ping(bs[b].nodes[k], now), myid, af);
  }

  lemma {:induction false} PingAccounted(os: seq<Bucket>, bs: seq<Bucket>, myid: Id, id: Id, now: int, b: nat, k: nat)
    requires OnlySplit(os, bs, myid, id) && b < |bs| && !Holds(bs, id)
    requires k < |bs[b].nodes| && !NodeGood(bs[b].nodes[k], now)
    ensures var cs := ReplaceAt(bs, b, k, Ping(bs[b].nodes[k], now)); Accounted(os, cs, myid, id, now) && !Holds(cs, id)
  {
    var x := bs[b].nodes[k];
    var y := Ping(x, now);
    ReplaceAtHolds(bs, b, k, y);
    assert x in AllNodes(os) && Unmoved(os, y, now);
    AfterSwap(os, bs, ReplaceAt(bs, b, k, y), myid, id, now, x, y);
    NotHeld(AllNodes(bs), x, y, id);
  }

  lemma {:induction false} NotHeld(t: multiset<Node>, x: Node, y: Node, id: Id)
    requires x in t && x.id == y.id && forall n | n in t :: n.id != id
    ensures forall n | n in t - multiset{x} + multiset{y} :: n.id != id
  {
    assert forall n | n in t - multiset{x} + multiset{y} :: n == y || n in t;
  }

  lemma {:induction false} PingedPosition(nodes: seq<Node>, now: int, i: nat) returns (k: nat)
    requires i <= |nodes| && PingFirst(nodes, now, i) != nodes
    ensures k < |nodes| && !NodeGood(nodes[k], now)
    ensures PingFirst(nodes, now, i) == nodes[k := Ping(nodes[k], now)]
    decreases |nodes| - i
  {
    if WorthPinging(nodes[i], now) {
      k := i;
    } else {
      k := PingedPosition(nodes, now, i + 1);
    }
  }
}
