/**
 What holds while the nodes of a split bucket are being put back.  `os` is the table
 before the split, `bs` the table now, `b` the position of the split bucket; the
 buckets it has become occupy positions b .. b + k where k buckets have been added.
 */
module Redistribution {
  import opened Ids
  import opened Prefixes
  import opened Tables
  import opened Sequences
  import opened Options

  /** Nothing outside the split bucket has changed. */
  ghost predicate Framed(os: seq<Bucket>, bs: seq<Bucket>, b: nat)
  {
    && b < |os| <= |bs|
    && bs[..b] == os[..b]
    && bs[b].first == os[b].first
    && bs[b + |bs| - |os| + 1..] == os[b + 1..]
  }

  ghost function Region(os: seq<Bucket>, bs: seq<Bucket>, b: nat): seq<Bucket>
    requires b < |os| <= |bs|
  {
    bs[b..b + |bs| - |os| + 1]
  }

  /** Placed, waiting and freed nodes together are the nodes the split bucket had. */
  ghost predicate Conserved(os: seq<Bucket>, bs: seq<Bucket>, b: nat, waiting: multiset<Node>, freed: multiset<Node>)
    requires b < |os| <= |bs|
  {
    AllNodes(Region(os, bs, b)) + waiting + freed == multiset(os[b].nodes)
  }

  /** Freed nodes were bound for a full bucket that does not hold our id. */
  ghost predicate FreedOk(os: seq<Bucket>, bs: seq<Bucket>, b: nat, freed: multiset<Node>, myid: Id)
    requires b < |os|
  {
    && (forall x | x in freed :: Overflowed(bs, myid, x.id))
    && (os[b].maxCount == 8 ==> freed == multiset{})
  }

  ghost predicate Redistributing(os: seq<Bucket>, bs: seq<Bucket>, b: nat,
                                 waiting: multiset<Node>, freed: multiset<Node>, myid: Id, af: Family)
  {
    && Framed(os, bs, b) && Conserved(os, bs, b, waiting, freed)
    && Structure(bs, myid, af) && FreedOk(os, bs, b, freed, myid)
    && (|bs| <= 158 || |bs| == |os| + 1)
  }

  /** The well-formed table being split. */
  ghost predicate Start(os: seq<Bucket>, b: nat, myid: Id, af: Family)
  {
    Structure(os, myid, af) && DistinctIds(AllNodes(os)) && b < |os|
  }

  lemma {:induction false} BeforeRegion(os: seq<Bucket>, bs: seq<Bucket>, b: nat, h: nat, id: Id)
    requires Framed(os, bs, b) && h < b
    ensures InBucket(id, bs, h) == InBucket(id, os, h)
  {
    assert bs[h] == bs[..b][h] == os[h];
    assert h + 1 < b ==> bs[h + 1] == bs[..b][h + 1] == os[h + 1];
  }

  lemma {:induction false} AfterRegion(os: seq<Bucket>, bs: seq<Bucket>, b: nat, j: nat, id: Id)
    requires Framed(os, bs, b) && b < j < |os|
    ensures InBucket(id, bs, j + |bs| - |os|) == InBucket(id, os, j)
  {
    var k := |bs| - |os|;
    assert bs[j + k] == bs[b + k + 1..][j - b - 1] == os[b + 1..][j - b - 1] == os[j];
    assert j + 1 < |os| ==> bs[j + k + 1] == bs[b + k + 1..][j - b] == os[b + 1..][j - b] == os[j + 1];
  }

  lemma {:induction false} HomeInRegion(os: seq<Bucket>, bs: seq<Bucket>, b: nat, id: Id)
    requires Partition(os) && Partition(bs) && Framed(os, bs, b) && InBucket(id, os, b)
    ensures b <= Home(bs, id) <= b + |bs| - |os|
  {
    assert Home(os, id) == b;
    StaysInRegion(os, bs, b, id, Home(bs, id));
  }

  lemma {:induction false} StaysInRegion(os: seq<Bucket>, bs: seq<Bucket>, b: nat, id: Id, h: nat)
    requires Framed(os, bs, b) && h < |bs| && InBucket(id, bs, h)
    requires forall j: nat | j < |os| && InBucket(id, os, j) :: j == b
    ensures b <= h <= b + |bs| - |os|
  {
    if h < b {
      BeforeRegion(os, bs, b, h, id);
    } else if h > b + |bs| - |os| {
      AfterRegion(os, bs, b, h - (|bs| - |os|), id);
    }
  }

  /** Facts about a waiting node and the bucket it is bound for. */
  lemma {:induction false} WaitingNode(os: seq<Bucket>, bs: seq<Bucket>, b: nat, waiting: multiset<Node>, freed: multiset<Node>,
                    myid: Id, af: Family, x: Node)
    requires Start(os, b, myid, af) && Redistributing(os, bs, b, waiting, freed, myid, af) && x in waiting
    ensures NodeOk(x, myid, af)
    ensures b <= Home(bs, x.id) <= b + |bs| - |os|
  {
    assert x in multiset(os[b].nodes);
    assert BucketOk(os, b, myid, af);
    HomeInRegion(os, bs, b, x.id);
  }

  lemma {:induction false} RegionBucket(os: seq<Bucket>, bs: seq<Bucket>, b: nat, waiting: multiset<Node>, freed: multiset<Node>, h: nat)
    requires b < |os| <= |bs| && b <= h <= b + |bs| - |os| && Conserved(os, bs, b, waiting, freed)
    ensures multiset(bs[h].nodes) + waiting + freed <= multiset(os[b].nodes)
    ensures multiset(bs[h].nodes) <= AllNodes(os)
  {
    var r := Region(os, bs, b);
    assert r[h - b] == bs[h];
    BucketNodesInTable(r, h - b);
    BucketNodesInTable(os, b);
  }

  lemma {:induction false} MultisetSize<T>(a: multiset<T>, b: multiset<T>)
    requires a <= b
    ensures |a| <= |b|
  {
    assert b == a + (b - a);
  }

  /** When a bucket is full while a node still waits, more than eight nodes were to be placed. */
  lemma {:induction false} FullMeansMany(os: seq<Bucket>, bs: seq<Bucket>, b: nat, waiting: multiset<Node>, freed: multiset<Node>,
                      myid: Id, af: Family, x: Node, h: nat)
    requires Start(os, b, myid, af) && Redistributing(os, bs, b, waiting, freed, myid, af)
    requires x in waiting && h == Home(bs, x.id) && bs[h].count >= bs[h].maxCount
    ensures os[b].maxCount > 8
  {
    WaitingNode(os, bs, b, waiting, freed, myid, af, x);
    RegionBucket(os, bs, b, waiting, freed, h);
    MultisetSize(multiset(bs[h].nodes) + multiset{x}, multiset(os[b].nodes));
    assert BucketOk(bs, h, myid, af) && CapacityOk(bs, h, myid) && BucketOk(os, b, myid, af);
  }

  function Prepend(b: Bucket, n: Node): Bucket { b.(nodes := [n] + b.nodes, count := b.count + 1) }

  lemma {:induction false} RegionUpdate(os: seq<Bucket>, bs: seq<Bucket>, b: nat, h: nat, c: Bucket)
    requires b < |os| <= |bs| && b <= h <= b + |bs| - |os| && c.first == bs[h].first
    ensures Region(os, bs[h := c], b) == Region(os, bs, b)[h - b := c]
    ensures Framed(os, bs, b) ==> Framed(os, bs[h := c], b)
  {
  }

  lemma {:induction false} PrependConserves(os: seq<Bucket>, bs: seq<Bucket>, b: nat, waiting: multiset<Node>, freed: multiset<Node>,
                         x: Node, h: nat)
    requires b < |os| <= |bs| && b <= h <= b + |bs| - |os| && Conserved(os, bs, b, waiting, freed) && x in waiting
    ensures Conserved(os, bs[h := Prepend(bs[h], x)], b, waiting - multiset{x}, freed)
  {
    var r, c := Region(os, bs, b), Prepend(bs[h], x);
    assert r[h - b] == bs[h];
    RegionUpdate(os, bs, b, h, c);
    AllNodesUpdate(r, h - b, c);
    assert multiset(c.nodes) == multiset{x} + multiset(bs[h].nodes);
    MoveOne(AllNodes(r), AllNodes(r[h - b := c]), multiset(bs[h].nodes), waiting, freed, x);
  }

  lemma {:induction false} MoveOne(a: multiset<Node>, a': multiset<Node>, n: multiset<Node>,
                waiting: multiset<Node>, freed: multiset<Node>, x: Node)
    requires a' + n == a + (multiset{x} + n) && x in waiting
    ensures a' + (waiting - multiset{x}) + freed == a + waiting + freed
  {
    forall y
      ensures a'[y] == (a + multiset{x})[y]
    {
      assert (a' + n)[y] == (a + (multiset{x} + n))[y];
    }
    assert a' == a + multiset{x};
    assert multiset{x} + (waiting - multiset{x}) == waiting;
  }

  /** Placing a waiting node in a bucket with room. */
  lemma {:induction false} PlaceStep(os: seq<Bucket>, bs: seq<Bucket>, b: nat, waiting: multiset<Node>, freed: multiset<Node>,
                  myid: Id, af: Family, x: Node, h: nat)
    requires Start(os, b, myid, af) && Redistributing(os, bs, b, waiting, freed, myid, af)
    requires x in waiting && h == Home(bs, x.id) && bs[h].count < bs[h].maxCount
    ensures Redistributing(os, bs[h := Prepend(bs[h], x)], b, waiting - multiset{x}, freed, myid, af)
    ensures OwnDepth(bs[h := Prepend(bs[h], x)], myid) == OwnDepth(bs, myid)
  {
    WaitingNode(os, bs, b, waiting, freed, myid, af, x);
    PrependKeeps(os, bs, b, waiting, freed, myid, af, x, h);
  }

  lemma {:induction false} PrependKeeps(os: seq<Bucket>, bs: seq<Bucket>, b: nat, waiting: multiset<Node>, freed: multiset<Node>,
                  myid: Id, af: Family, x: Node, h: nat)
    requires Redistributing(os, bs, b, waiting, freed, myid, af) && x in waiting && NodeOk(x, myid, af)
    requires b <= h <= b + |bs| - |os| && InBucket(x.id, bs, h) && bs[h].count < bs[h].maxCount
    ensures Redistributing(os, bs[h := Prepend(bs[h], x)], b, waiting - multiset{x}, freed, myid, af)
    ensures OwnDepth(bs[h := Prepend(bs[h], x)], myid) == OwnDepth(bs, myid)
  {
    RegionUpdate(os, bs, b, h, Prepend(bs[h], x));
    PrependConserves(os, bs, b, waiting, freed, x, h);
    PrependStructure(bs, myid, af, x, h);
    PrependFreed(os, bs, b, freed, myid, x, h);
  }

  lemma {:induction false} PrependFreed(os: seq<Bucket>, bs: seq<Bucket>, b: nat, freed: multiset<Node>, myid: Id, x: Node, h: nat)
    requires b < |os| && h < |bs| && FreedOk(os, bs, b, freed, myid) && SameShape(bs, bs[h := Prepend(bs[h], x)])
    ensures FreedOk(os, bs[h := Prepend(bs[h], x)], b, freed, myid)
  {
    forall y | y in freed
      ensures Overflowed(bs[h := Prepend(bs[h], x)], myid, y.id)
    {
      OverflowedStays(bs, bs[h := Prepend(bs[h], x)], myid, y.id);
    }
  }

  lemma {:induction false} PrependStructure(bs: seq<Bucket>, myid: Id, af: Family, x: Node, h: nat)
    requires Structure(bs, myid, af) && NodeOk(x, myid, af) && h < |bs| && InBucket(x.id, bs, h)
    requires bs[h].count < bs[h].maxCount
    ensures Structure(bs[h := Prepend(bs[h], x)], myid, af)
    ensures SameShape(bs, bs[h := Prepend(bs[h], x)])
    ensures OwnDepth(bs[h := Prepend(bs[h], x)], myid) == OwnDepth(bs, myid)
  {
    assert BucketOk(bs, h, myid, af);
    ReplaceNodes(bs, h, Prepend(bs[h], x), myid, af);
  }

  /** Freeing a waiting node bound for a full bucket of others. */
  lemma {:induction false} FreeStep(os: seq<Bucket>, bs: seq<Bucket>, b: nat, waiting: multiset<Node>, freed: multiset<Node>,
                 myid: Id, af: Family, x: Node, h: nat)
    requires Start(os, b, myid, af) && Redistributing(os, bs, b, waiting, freed, myid, af)
    requires x in waiting && h == Home(bs, x.id) && bs[h].count >= bs[h].maxCount && !InBucket(myid, bs, h)
    ensures Redistributing(os, bs, b, waiting - multiset{x}, freed + multiset{x}, myid, af)
  {
    FullMeansMany(os, bs, b, waiting, freed, myid, af, x, h);
    FreeConserves(os, bs, b, waiting, freed, x);
    FreeOverflowed(os, bs, b, freed, myid, x);
  }

  lemma {:induction false} FreeConserves(os: seq<Bucket>, bs: seq<Bucket>, b: nat, waiting: multiset<Node>, freed: multiset<Node>, x: Node)
    requires b < |os| <= |bs| && Conserved(os, bs, b, waiting, freed) && x in waiting
    ensures Conserved(os, bs, b, waiting - multiset{x}, freed + multiset{x})
  {
    assert waiting + freed == (waiting - multiset{x}) + (freed + multiset{x});
  }

  lemma {:induction false} FreeOverflowed(os: seq<Bucket>, bs: seq<Bucket>, b: nat, freed: multiset<Node>, myid: Id, x: Node)
    requires b < |os| && os[b].maxCount > 8 && FreedOk(os, bs, b, freed, myid) && Overflowed(bs, myid, x.id)
    ensures FreedOk(os, bs, b, freed + multiset{x}, myid)
  {
  }

  lemma {:induction false} RegionSplit(os: seq<Bucket>, bs: seq<Bucket>, b: nat, h: nat, mid: Id, myid: Id)
    requires b < |os| <= |bs| && b <= h <= b + |bs| - |os|
    ensures var cs := SplitAt(bs, h, mid, myid);
            && |cs| == |bs| + 1
            && Region(os, cs, b) == SplitAt(Region(os, bs, b), h - b, mid, myid)
            && (Framed(os, bs, b) ==> Framed(os, cs, b))
  {
    var r := Region(os, bs, b);
    assert r[h - b] == bs[h];
    SplicedEnds(bs, h, LowHalf(bs[h], mid, myid), HighHalf(bs[h], mid, myid), b, b + |bs| - |os| + 1);
    SplicedAt(bs, h, LowHalf(bs[h], mid, myid), HighHalf(bs[h], mid, myid), b);
  }

  lemma {:induction false} SplitConserves(os: seq<Bucket>, bs: seq<Bucket>, b: nat, waiting: multiset<Node>, freed: multiset<Node>,
                       h: nat, mid: Id, myid: Id)
    requires b < |os| <= |bs| && b <= h <= b + |bs| - |os| && Conserved(os, bs, b, waiting, freed)
    ensures Conserved(os, SplitAt(bs, h, mid, myid), b, waiting + multiset(bs[h].nodes), freed)
  {
    RegionSplit(os, bs, b, h, mid, myid);
    assert Region(os, bs, b)[h - b] == bs[h];
    SplitNodes(Region(os, bs, b), h - b, mid, myid);
  }

  /** Splitting our own bucket again because it is full. */
  lemma {:induction false} SplitAgainStep(os: seq<Bucket>, bs: seq<Bucket>, b: nat, waiting: multiset<Node>, freed: multiset<Node>,
                       myid: Id, af: Family, x: Node, h: nat)
    requires Start(os, b, myid, af) && Redistributing(os, bs, b, waiting, freed, myid, af)
    requires x in waiting && h == Home(bs, x.id) && bs[h].count >= bs[h].maxCount && InBucket(myid, bs, h)
    ensures Depth(bs, h) + 4 <= ID_BITS
    ensures var cs := SplitAt(bs, h, SetBit(bs[h].first, Depth(bs, h)), myid);
            && Redistributing(os, cs, b, waiting + multiset(bs[h].nodes), freed, myid, af)
            && OwnDepth(cs, myid) == OwnDepth(bs, myid) + 1
  {
    WaitingNode(os, bs, b, waiting, freed, myid, af, x);
    RegionBucket(os, bs, b, waiting, freed, h);
    DistinctPart(bs[h].nodes, AllNodes(os));
    FullOwnBucketIsWide(bs, h, myid, af);
    var mid := SetBit(bs[h].first, Depth(bs, h));
    SplitStructure(bs, h, mid, myid, af);
    RegionSplit(os, bs, b, h, mid, myid);
    SplitConserves(os, bs, b, waiting, freed, h, mid, myid);
    forall y | y in freed
      ensures Overflowed(SplitAt(bs, h, mid, myid), myid, y.id)
    {
      SplitKeepsOverflowed(bs, h, mid, myid, y.id);
    }
  }

  /** The first split, before anything has been put back. */
  lemma {:induction false} FirstSplit(os: seq<Bucket>, b: nat, myid: Id, af: Family)
    requires Start(os, b, myid, af) && InBucket(myid, os, b) && Depth(os, b) < ID_BITS
    ensures var cs := SplitAt(os, b, SetBit(os[b].first, Depth(os, b)), myid);
            && Redistributing(os, cs, b, multiset(os[b].nodes), multiset{}, myid, af)
            && OwnDepth(cs, myid) == OwnDepth(os, myid) + 1
  {
    var mid := SetBit(os[b].first, Depth(os, b));
    SplitStructure(os, b, mid, myid, af);
    FirstSplitFrames(os, b, mid, myid);
  }

  lemma {:induction false} FirstSplitFrames(os: seq<Bucket>, b: nat, mid: Id, myid: Id)
    requires b < |os|
    ensures var cs := SplitAt(os, b, mid, myid);
            |cs| == |os| + 1 && Framed(os, cs, b) && Conserved(os, cs, b, multiset(os[b].nodes), multiset{})
  {
    RegionSplit(os, os, b, b, mid, myid);
    assert Region(os, os, b) == [os[b]];
    assert [os[b]][1..] == [];
    SplitConserves(os, os, b, multiset{}, multiset{}, b, mid, myid);
  }

  /** With nothing left waiting, the whole table has lost exactly the freed nodes. */
  lemma {:induction false} Finished(os: seq<Bucket>, bs: seq<Bucket>, b: nat, freed: multiset<Node>, myid: Id, af: Family)
    requires Start(os, b, myid, af) && Redistributing(os, bs, b, multiset{}, freed, myid, af)
    ensures AllNodes(bs) + freed == AllNodes(os)
    ensures DistinctIds(AllNodes(bs))
  {
    WholeTable(os, bs, b, freed);
    SmallerTableDistinct(AllNodes(bs), AllNodes(os));
  }

  lemma {:induction false} WholeTable(os: seq<Bucket>, bs: seq<Bucket>, b: nat, freed: multiset<Node>)
    requires Framed(os, bs, b) && Conserved(os, bs, b, multiset{}, freed)
    ensures AllNodes(bs) + freed == AllNodes(os)
  {
    var r, tail := Region(os, bs, b), bs[b + |bs| - |os| + 1..];
    assert bs == bs[..b] + r + tail;
    AllNodesConcat(bs[..b] + r, tail);
    AllNodesConcat(bs[..b], r);
    AllNodesAt(os, b);
  }

  // ----- the loop that puts nodes back -----

  ghost function Waiting(n: Option<Node>, nodes: seq<Node>): multiset<Node>
  {
    multiset(nodes) + if n.Some? then multiset{n.value} else multiset{}
  }

  lemma {:induction false} WaitingHead(nodes: seq<Node>)
    requires nodes != []
    ensures Waiting(Some(nodes[0]), nodes[1..]) == Waiting(None, nodes)
  {
    assert nodes == [nodes[0]] + nodes[1..];
  }

  /** What each of the three outcomes for a waiting node `x` leads to. */
  lemma {:induction false} PutBackCases(os: seq<Bucket>, bs: seq<Bucket>, b: nat, x: Node, nodes: seq<Node>, freed: multiset<Node>,
                     myid: Id, af: Family)
    requires Start(os, b, myid, af) && Redistributing(os, bs, b, Waiting(Some(x), nodes), freed, myid, af)
    ensures NodeOk(x, myid, af) && Structure(bs, myid, af)
    ensures var h := Home(bs, x.id);
            bs[h].count < bs[h].maxCount ==>
              var cs := bs[h := Prepend(bs[h], x)];
              && Redistributing(os, cs, b, Waiting(None, nodes), freed, myid, af)
              && OwnDepth(cs, myid) == OwnDepth(bs, myid)
    ensures var h := Home(bs, x.id);
            bs[h].count >= bs[h].maxCount && !InBucket(myid, bs, h) ==>
              Redistributing(os, bs, b, Waiting(None, nodes), freed + multiset{x}, myid, af)
    ensures var h := Home(bs, x.id);
            bs[h].count >= bs[h].maxCount && InBucket(myid, bs, h) ==>
              && Depth(bs, h) < ID_BITS
              && var cs := SplitAt(bs, h, SetBit(bs[h].first, Depth(bs, h)), myid);
                 && Redistributing(os, cs, b, Waiting(Some(x), nodes + bs[h].nodes), freed, myid, af)
                 && OwnDepth(cs, myid) == OwnDepth(bs, myid) + 1
  {
    var waiting, h := Waiting(Some(x), nodes), Home(bs, x.id);
    WaitingNode(os, bs, b, waiting, freed, myid, af, x);
    WaitingChanges(x, nodes, bs[h].nodes);
    if bs[h].count < bs[h].maxCount {
      PlaceStep(os, bs, b, waiting, freed, myid, af, x, h);
    } else if !InBucket(myid, bs, h) {
      FreeStep(os, bs, b, waiting, freed, myid, af, x, h);
    } else {
      SplitAgainStep(os, bs, b, waiting, freed, myid, af, x, h);
    }
  }

  lemma {:induction false} WaitingChanges(x: Node, nodes: seq<Node>, more: seq<Node>)
    ensures x in Waiting(Some(x), nodes) && Waiting(Some(x), nodes) - multiset{x} == Waiting(None, nodes)
    ensures Waiting(Some(x), nodes) + multiset(more) == Waiting(Some(x), nodes + more)
  {
  }
}
