/**
 The nodes named in a reply: the good nodes of the target's bucket and of its two
 neighbours are offered one by one to a buffer of eight contacts kept in XOR order.
 */
module ClosestNodes {
  import opened Ids
  import opened Prefixes
  import opened Tables
  import opened Closest
  import opened RoutingTable

  const REPLY_NODES: nat := 8

  /** What a reply says about a node: its id, address and port. */
  datatype Contact = Contact(id: Id, addr: Address)

  function ContactOf(n: Node): Contact { Contact(n.id, n.addr) }

  ghost function ContactIds(l: seq<Contact>): (r: seq<Id>)
    ensures |r| == |l| && forall i | 0 <= i < |l| :: r[i] == l[i].id
  {
    seq(|l|, i requires 0 <= i < |l| => l[i].id)
  }

  /** Offers one contact to a list of at most eight. */
  ghost function OfferContact(l: seq<Contact>, c: Contact, target: Id): (r: seq<Contact>)
    requires |l| <= REPLY_NODES
    ensures |r| <= REPLY_NODES
  {
    var i := Position(ContactIds(l), c.id, target);
    if (i < |l| && l[i].id == c.id) || i == REPLY_NODES then l else InsertAt(l, i, c, REPLY_NODES)
  }

  lemma {:induction false} OfferContactIds(l: seq<Contact>, c: Contact, target: Id)
    requires |l| <= REPLY_NODES
    ensures ContactIds(OfferContact(l, c, target)) == Offer(ContactIds(l), c.id, target, REPLY_NODES)
  {
    var i := Position(ContactIds(l), c.id, target);
    if i < REPLY_NODES {
      InsertContactIds(l, i, c);
    }
  }

  lemma {:induction false} InsertContactIds(l: seq<Contact>, i: nat, c: Contact)
    requires i <= |l| <= REPLY_NODES && i < REPLY_NODES
    ensures ContactIds(InsertAt(l, i, c, REPLY_NODES)) == InsertAt(ContactIds(l), i, c.id, REPLY_NODES)
  {
  }

  lemma {:induction false} OfferContactMembers(l: seq<Contact>, c: Contact, target: Id)
    requires |l| <= REPLY_NODES
    ensures forall x | x in OfferContact(l, c, target) :: x == c || x in l
  {
    var i := Position(ContactIds(l), c.id, target);
    if !((i < |l| && l[i].id == c.id) || i == REPLY_NODES) {
      InsertMembers(l, i, c, REPLY_NODES);
    }
  }

  /** Scans for the first entry that is `id` or is farther from the target. */
  method FindPlace(nodes: array<Contact>, numnodes: nat, target: Id, id: Id) returns (i: nat, found: bool)
    requires numnodes <= nodes.Length
    ensures i == Position(ContactIds(nodes[..numnodes]), id, target)
    ensures found <==> i < numnodes && nodes[i].id == id
  {
    i := 0;
    while i < numnodes
      invariant 0 <= i <= numnodes
      invariant forall j | 0 <= j < i :: nodes[j].id != id && !Closer(id, nodes[j].id, target)
    {
      SameId(id, nodes[i].id);
      if IdCmp(id, nodes[i].id) == 0 {
        PositionIs(ContactIds(nodes[..numnodes]), id, target, i);
        return i, true;
      }
      var c := XorCmp(id, nodes[i].id, target);
      if c < 0 {
        break;
      }
      i := i + 1;
    }
    PositionIs(ContactIds(nodes[..numnodes]), id, target, i);
    found := false;
  }

  /** The in-place insertion: find the place, shift the rest, store. */
  method InsertClosestNode(nodes: array<Contact>, numnodes: nat, target: Id, n: Node) returns (num: nat)
    requires nodes.Length == REPLY_NODES && numnodes <= REPLY_NODES
    modifies nodes
    ensures num <= REPLY_NODES
    ensures nodes[..num] == OfferContact(old(nodes[..numnodes]), ContactOf(n), target)
  {
    var i, found := FindPlace(nodes, numnodes, target, n.id);
    if found || i == 8 {
      return numnodes;
    }
    num := if numnodes < 8 then numnodes + 1 else numnodes;
    ShiftAndStore(nodes, numnodes, num, i, ContactOf(n));
  }

  method ShiftAndStore(nodes: array<Contact>, numnodes: nat, num: nat, i: nat, c: Contact)
    requires nodes.Length == REPLY_NODES && i <= numnodes <= REPLY_NODES && i < REPLY_NODES
    requires num == if numnodes < 8 then numnodes + 1 else numnodes
    modifies nodes
    ensures nodes[..num] == InsertAt(old(nodes[..numnodes]), i, c, REPLY_NODES)
  {
    forall j | i < j < num {
      nodes[j] := nodes[j - 1];
    }
    nodes[i] := c;
  }

  // ----- buckets -----

  ghost function GoodIds(nodes: seq<Node>, now: int): set<Id>
  {
    set n | n in nodes && NodeGood(n, now) :: n.id
  }

  /** `l` holds the eight contacts closest to `target` among `ids`, each naming a good node in `t`. */
  ghost predicate Lists(l: seq<Contact>, ids: set<Id>, target: Id, t: multiset<Node>, now: int)
  {
    && KClosest(ContactIds(l), ids, target, REPLY_NODES)
    && forall c | c in l :: exists n :: n in t && NodeGood(n, now) && c == Contact(n.id, n.addr)
  }

  lemma {:induction false} OfferLists(l: seq<Contact>, ids: set<Id>, target: Id, t: multiset<Node>, now: int, n: Node)
    requires Lists(l, ids, target, t, now) && n in t && NodeGood(n, now)
    ensures Lists(OfferContact(l, ContactOf(n), target), ids + {n.id}, target, t, now)
  {
    OfferContactIds(l, ContactOf(n), target);
    OfferContactMembers(l, ContactOf(n), target);
    OfferKeeps(ContactIds(l), ids, target, REPLY_NODES, n.id);
  }

  lemma {:induction false} GoodIdsNext(nodes: seq<Node>, now: int, i: nat)
    requires i < |nodes|
    ensures GoodIds(nodes[..i + 1], now) ==
            GoodIds(nodes[..i], now) + if NodeGood(nodes[i], now) then {nodes[i].id} else {}
  {
    assert nodes[..i + 1] == nodes[..i] + [nodes[i]];
  }

  /** Offers the good nodes of one bucket. */
  method BufferClosestNodes(nodes: array<Contact>, numnodes: nat, target: Id, b: Bucket, now: int,
                            ghost ids: set<Id>, ghost t: multiset<Node>) returns (num: nat)
    requires nodes.Length == REPLY_NODES && numnodes <= REPLY_NODES
    requires Lists(nodes[..numnodes], ids, target, t, now) && multiset(b.nodes) <= t
    modifies nodes
    ensures num <= REPLY_NODES
    ensures Lists(nodes[..num], ids + GoodIds(b.nodes, now), target, t, now)
  {
    num := numnodes;
    var i := 0;
    while i < |b.nodes|
      invariant 0 <= i <= |b.nodes| && num <= REPLY_NODES
      invariant Lists(nodes[..num], ids + GoodIds(b.nodes[..i], now), target, t, now)
    {
      GoodIdsNext(b.nodes, now, i);
      ghost var l, s := nodes[..num], ids + GoodIds(b.nodes[..i], now);
      if NodeGood(b.nodes[i], now) {
        assert b.nodes[i] in multiset(b.nodes);
        OfferLists(l, s, target, t, now, b.nodes[i]);
        num := InsertClosestNode(nodes, num, target, b.nodes[i]);
        assert s + {b.nodes[i].id} == ids + GoodIds(b.nodes[..i + 1], now);
      } else {
        assert s == ids + GoodIds(b.nodes[..i + 1], now);
      }
      i := i + 1;
    }
    assert b.nodes[..i] == b.nodes;
  }

  // ----- the reply -----

  /** The good ids of bucket `i`, if there is such a bucket. */
  ghost function GoodAt(bs: seq<Bucket>, i: int, now: int): set<Id>
  {
    if 0 <= i < |bs| then GoodIds(bs[i].nodes, now) else {}
  }

  ghost function AllGood(bs: seq<Bucket>, now: int): set<Id>
  {
    set n | n in AllNodes(bs) && NodeGood(n, now) :: n.id
  }

  lemma {:induction false} GoodAtInAll(bs: seq<Bucket>, i: int, now: int)
    ensures GoodAt(bs, i, now) <= AllGood(bs, now)
  {
    if 0 <= i < |bs| {
      BucketNodesInTable(bs, i);
      forall n | n in bs[i].nodes
        ensures n in AllNodes(bs)
      {
        assert n in multiset(bs[i].nodes);
      }
    }
  }

  /** A good node outside the target's bucket is farther from the target than any inside it. */
  lemma {:induction false} HomeIsNearest(bs: seq<Bucket>, myid: Id, af: Family, target: Id, now: int)
    requires Structure(bs, myid, af)
    ensures var home := GoodAt(bs, Home(bs, target), now);
            forall x, y | x in home && y in AllGood(bs, now) && y !in home :: Closer(x, y, target)
  {
    var home := bs[Home(bs, target)].nodes;
    forall x, y | x in GoodIds(home, now) && y in AllGood(bs, now) && y !in GoodIds(home, now)
      ensures Closer(x, y, target)
    {
      var m :| m in home && m.id == x;
      var n :| n in AllNodes(bs) && NodeGood(n, now) && n.id == y;
      NearerAtHome(bs, myid, af, target, m, n);
    }
  }

  /**
   The contacts sent for a target: the eight closest good nodes of its bucket and the two
   around it, and the eight closest of the whole table once its own bucket has eight.
   */
  method ClosestNodes(table: RoutingTable, target: Id, now: int) returns (l: seq<Contact>)
    requires table.Valid()
    ensures ListsClosest(l, table.buckets, Home(table.buckets, target), target, now)
  {
    var b := table.FindBucket(target);
    l := NeighbourhoodClosest(table.buckets, b, target, now);
    NeighbourhoodSuffices(l, table.buckets, table.myid, table.af, target, now);
  }

  /** The closest good nodes: of the target's bucket and its neighbours, and of the table if its own bucket suffices. */
  ghost predicate ListsClosest(l: seq<Contact>, bs: seq<Bucket>, h: nat, target: Id, now: int)
  {
    && Lists(l, GoodAt(bs, h, now) + GoodAt(bs, h + 1, now) + GoodAt(bs, h - 1, now), target, AllNodes(bs), now)
    && (|GoodAt(bs, h, now)| >= REPLY_NODES ==> Lists(l, AllGood(bs, now), target, AllNodes(bs), now))
  }

  lemma {:induction false} NeighbourhoodSuffices(l: seq<Contact>, bs: seq<Bucket>, myid: Id, af: Family, target: Id, now: int)
    requires Structure(bs, myid, af)
    requires var h := Home(bs, target);
             Lists(l, GoodAt(bs, h, now) + GoodAt(bs, h + 1, now) + GoodAt(bs, h - 1, now), target, AllNodes(bs), now)
    ensures ListsClosest(l, bs, Home(bs, target), target, now)
  {
    var h := Home(bs, target);
    if |GoodAt(bs, h, now)| >= REPLY_NODES {
      HomeIsNearest(bs, myid, af, target, now);
      WholeTableLists(l, bs, h, target, now);
    }
  }

  /** Offers bucket `b`, then the one after it, then the one before it. */
  method NeighbourhoodClosest(bs: seq<Bucket>, b: nat, target: Id, now: int) returns (l: seq<Contact>)
    requires b < |bs|
    ensures Lists(l, GoodAt(bs, b, now) + GoodAt(bs, b + 1, now) + GoodAt(bs, b - 1, now), target, AllNodes(bs), now)
  {
    ghost var t := AllNodes(bs);
    var nodes := new Contact[8](_ => Contact(ZERO, Address(Inet, [0, 0, 0, 0], 0)));
    ghost var home, next := GoodAt(bs, b, now), GoodAt(bs, b + 1, now);
    assert nodes[..0] == [] && {} + home == home;
    var num := OfferBucket(nodes, 0, target, bs, b, now, {}, t);
    num := OfferBucket(nodes, num, target, bs, b + 1, now, home, t);
    num := OfferBucket(nodes, num, target, bs, b - 1, now, home + next, t);
    l := nodes[..num];
  }

  /** Offers bucket `i`, if the table has it. */
  method OfferBucket(nodes: array<Contact>, numnodes: nat, target: Id, bs: seq<Bucket>, i: int, now: int,
                     ghost ids: set<Id>, ghost t: multiset<Node>) returns (num: nat)
    requires nodes.Length == REPLY_NODES && numnodes <= REPLY_NODES
    requires Lists(nodes[..numnodes], ids, target, t, now) && t == AllNodes(bs)
    modifies nodes
    ensures num <= REPLY_NODES
    ensures Lists(nodes[..num], ids + GoodAt(bs, i, now), target, t, now)
  {
    num := numnodes;
    if 0 <= i < |bs| {
      BucketNodesInTable(bs, i);
      num := BufferClosestNodes(nodes, numnodes, target, bs[i], now, ids, t);
    } else {
      assert ids + GoodAt(bs, i, now) == ids;
    }
  }

  lemma {:induction false} WholeTableLists(l: seq<Contact>, bs: seq<Bucket>, h: nat, target: Id, now: int)
    requires |GoodAt(bs, h, now)| >= REPLY_NODES
    requires Lists(l, GoodAt(bs, h, now) + GoodAt(bs, h + 1, now) + GoodAt(bs, h - 1, now), target, AllNodes(bs), now)
    requires var home := GoodAt(bs, h, now);
             forall x, y | x in home && y in AllGood(bs, now) && y !in home :: Closer(x, y, target)
    ensures Lists(l, AllGood(bs, now), target, AllNodes(bs), now)
  {
    WholeTableIds(ContactIds(l), bs, h, target, now);
  }

  lemma {:induction false} WholeTableIds(l: seq<Id>, bs: seq<Bucket>, h: nat, target: Id, now: int)
    requires |GoodAt(bs, h, now)| >= REPLY_NODES
    requires KClosest(l, GoodAt(bs, h, now) + GoodAt(bs, h + 1, now) + GoodAt(bs, h - 1, now), target, REPLY_NODES)
    requires var home := GoodAt(bs, h, now);
             forall x, y | x in home && y in AllGood(bs, now) && y !in home :: Closer(x, y, target)
    ensures KClosest(l, AllGood(bs, now), target, REPLY_NODES)
  {
    var home, next, prev := GoodAt(bs, h, now), GoodAt(bs, h + 1, now), GoodAt(bs, h - 1, now);
    GoodAtInAll(bs, h, now);
    GoodAtInAll(bs, h + 1, now);
    GoodAtInAll(bs, h - 1, now);
    NearPartSuffices(l, home, home + next + prev, AllGood(bs, now), target, REPLY_NODES);
  }
}
