/**
 A search in progress: a fixed array of fourteen candidates of which the first `num`
 are in use, shifted in place as candidates come and go.
 */
module Searches {
  import opened Ids
  import opened Prefixes
  import opened Tables
  import opened Closest
  import opened SearchLists
  import opened SearchLaws
  import opened Sequences
  import opened RoutingTable
  import opened Options

  /** Kept when a search is started anew. */
  predicate Reusable(n: SearchNode, now: int) { n.pinged < 3 && n.replyTime >= now - 7200 }

  function Reset(n: SearchNode): SearchNode
  {
    n.(pinged := 0, token := [], replied := false, acked := false)
  }

  /** The reusable candidates, reset, in their order. */
  function Reused(l: seq<SearchNode>, now: int): (r: seq<SearchNode>)
    ensures |r| <= |l|
  {
    if l == [] then []
    else (if Reusable(l[0], now) then [Reset(l[0])] else []) + Reused(l[1..], now)
  }

  lemma {:induction false} ReusedConcat(a: seq<SearchNode>, b: seq<SearchNode>, now: int)
    ensures Reused(a + b, now) == Reused(a, now) + Reused(b, now)
  {
    if a == [] {
      assert a + b == b;
    } else {
      ReusedConcat(a[1..], b, now);
      assert (a + b)[1..] == a[1..] + b && (a + b)[0] == a[0];
      var h := if Reusable(a[0], now) then [Reset(a[0])] else [];
      assert h + (Reused(a[1..], now) + Reused(b, now)) == h + Reused(a[1..], now) + Reused(b, now);
    }
  }

  /** Taking out an unusable candidate, or resetting a usable one, changes nothing for the rest. */
  lemma {:induction false} ReusedAt(l: seq<SearchNode>, i: nat, now: int)
    requires i < |l|
    ensures !Reusable(l[i], now) ==> Reused(l[..i] + l[i + 1..], now) == Reused(l, now)
    ensures Reusable(l[i], now) ==> Reused(l[i := Reset(l[i])], now) == Reused(l, now)
  {
    var a, b := l[..i], l[i + 1..];
    assert l == a + ([l[i]] + b) && ([l[i]] + b)[1..] == b;
    ReusedConcat(a, [l[i]] + b, now);
    if Reusable(l[i], now) {
      assert l[i := Reset(l[i])] == a + ([Reset(l[i])] + b) && ([Reset(l[i])] + b)[1..] == b;
      ReusedConcat(a, [Reset(l[i])] + b, now);
    } else {
      ReusedConcat(a, b, now);
    }
  }

  lemma {:induction false} ReusedDone(l: seq<SearchNode>, now: int)
    requires forall n | n in l :: Reusable(n, now) && n == Reset(n)
    ensures Reused(l, now) == l
  {
    if l != [] {
      assert l[0] in l;
      ReusedDone(l[1..], now);
    }
  }

  lemma {:induction false} ReusedMembers(l: seq<SearchNode>, now: int)
    ensures forall n | n in Reused(l, now) :: exists o :: o in l && Reusable(o, now) && n == Reset(o)
    ensures forall o | o in l && Reusable(o, now) :: Reset(o) in Reused(l, now)
  {
    if l != [] {
      ReusedMembers(l[1..], now);
      forall n | n in Reused(l, now)
        ensures exists o :: o in l && Reusable(o, now) && n == Reset(o)
      {
        if n in Reused(l[1..], now) {
          var o :| o in l[1..] && Reusable(o, now) && n == Reset(o);
          assert o in l;
        } else {
          assert l[0] in l;
        }
      }
    }
  }

  /** What is reused is what is worth keeping, with nothing asked and nothing heard. */
  lemma {:induction false} ReusedExactly(l: seq<SearchNode>, now: int)
    ensures StartedOver(l, Reused(l, now), now)
  {
    var r := Reused(l, now);
    ReusedMembers(l, now);
    forall n | n in r
      ensures Unasked(n) && exists o :: o in l && WorthKeeping(o, now) && Afresh(o, n)
    {
      var o :| o in l && Reusable(o, now) && n == Reset(o);
      assert WorthKeeping(o, now) && Afresh(o, n);
    }
    forall o | o in l && WorthKeeping(o, now)
      ensures exists n :: n in r && Afresh(o, n)
    {
      assert Reset(o) in r && Afresh(o, Reset(o));
    }
  }

  lemma {:induction false} ReusedSorted(l: seq<SearchNode>, now: int, target: Id)
    requires Sorted(SearchIds(l), target)
    ensures Sorted(SearchIds(Reused(l, now)), target)
    ensures forall x | x in SearchIds(Reused(l, now)) :: x in SearchIds(l)
  {
    if l != [] {
      var ids, tail := SearchIds(l), Reused(l[1..], now);
      assert SearchIds(l[1..]) == ids[1..];
      SortedTail(ids, target);
      ReusedSorted(l[1..], now, target);
      if Reusable(l[0], now) {
        assert SearchIds(Reused(l, now)) == [ids[0]] + SearchIds(tail);
        SortedCons(ids[0], SearchIds(tail), ids[1..], target);
      } else {
        assert Reused(l, now) == tail;
      }
    }
  }

  lemma {:induction false} SortedTail(ids: seq<Id>, target: Id)
    requires ids != [] && Sorted(ids, target)
    ensures Sorted(ids[1..], target) && forall x | x in ids[1..] :: Closer(ids[0], x, target) && x in ids
  {
  }

  lemma {:induction false} SortedCons(x: Id, t: seq<Id>, u: seq<Id>, target: Id)
    requires Sorted(t, target) && (forall y | y in t :: y in u) && forall y | y in u :: Closer(x, y, target)
    ensures Sorted([x] + t, target)
  {
    var l := [x] + t;
    forall i, j | 0 <= i < j < |l|
      ensures Closer(l[i], l[j], target)
    {
      assert l[j] == t[j - 1] && t[j - 1] in t;
    }
  }

  class Search {
    const id: Id
    const af: Family
    const nodes: array<SearchNode>
    var num: nat
    var port: nat
    var stepTime: int
    var done: bool

    ghost predicate Valid()
      reads this, nodes
    {
      nodes.Length == SEARCH_NODES && num <= SEARCH_NODES && Sorted(SearchIds(nodes[..num]), id)
    }

    ghost function Contents(): seq<SearchNode>
      requires Valid()
      reads this, nodes
    {
      nodes[..num]
    }

    ghost function State(): SearchState
      requires Valid()
      reads this, nodes
    {
      SearchState(nodes[..num], stepTime, port, done)
    }

    constructor (id: Id, af: Family, port: nat)
      ensures Valid() && fresh(nodes) && this.id == id && this.af == af
      ensures Contents() == [] && this.port == port && !done && stepTime == 0
    {
      this.id, this.af, this.port := id, af, port;
      nodes := new SearchNode[14](_ => Blank(ZERO, Address(Inet, [0, 0, 0, 0], 0)));
      num, stepTime, done := 0, 0, false;
    }

    /** Scans for the first candidate that is `x` or is farther from the target. */
    method FindPlace(x: Id) returns (i: nat, found: bool)
      requires num <= nodes.Length
      ensures i == Position(SearchIds(nodes[..num]), x, id)
      ensures found <==> i < num && nodes[i].id == x
    {
      i := 0;
      while i < num
        invariant 0 <= i <= num
        invariant forall j | 0 <= j < i :: nodes[j].id != x && !Closer(x, nodes[j].id, id)
      {
        SameId(x, nodes[i].id);
        if IdCmp(x, nodes[i].id) == 0 {
          PlaceFound(nodes[..num], x, id, i);
          return i, true;
        }
        var c := XorCmp(x, nodes[i].id, id);
        if c < 0 {
          break;
        }
        i := i + 1;
      }
      PlaceFound(nodes[..num], x, id, i);
      found := false;
    }

    static lemma {:induction false} PlaceFound(l: seq<SearchNode>, x: Id, target: Id, i: nat)
      requires i <= |l| && (i < |l| ==> l[i].id == x || Closer(x, l[i].id, target))
      requires forall j | 0 <= j < i :: l[j].id != x && !Closer(x, l[j].id, target)
      ensures Position(SearchIds(l), x, target) == i
    {
      PositionIs(SearchIds(l), x, target, i);
    }

    /** Makes room at position `i`, dropping the farthest candidate if all slots are taken, and stores `n`. */
    method ShiftIn(i: nat, n: SearchNode)
      requires nodes.Length == SEARCH_NODES && i <= num <= SEARCH_NODES && i < SEARCH_NODES
      modifies nodes, this`num
      ensures num <= SEARCH_NODES
      ensures nodes[..num] == InsertAt(old(nodes[..num]), i, n, SEARCH_NODES)
    {
      ghost var l := nodes[..num];
      if num < SEARCH_NODES {
        num := num + 1;
      }
      ShiftUp(i, l);
      nodes[i] := n;
      InsertIs(nodes[..num], l, i, n, SEARCH_NODES);
    }

    /** Moves the entries from position `i` on one place up, the last one out. */
    method ShiftUp(i: nat, ghost l: seq<SearchNode>)
      requires i < num <= nodes.Length && num - 1 <= |l| <= num
      requires forall p | 0 <= p < num && p < |l| :: nodes[p] == l[p]
      modifies nodes
      ensures forall p | 0 <= p < i :: nodes[p] == l[p]
      ensures forall p | i < p < num :: nodes[p] == l[p - 1]
    {
      var j := num - 1;
      while j > i
        invariant i <= j < num
        invariant forall p | 0 <= p <= j && p < |l| :: nodes[p] == l[p]
        invariant forall p | j < p < num :: nodes[p] == l[p - 1]
      {
        nodes[j] := nodes[j - 1];
        j := j - 1;
      }
    }

    /** Takes in news about a candidate; nothing happens if it is of the wrong family or too far away. */
    method InsertSearchNode(w: News) returns (r: Option<nat>)
      requires Valid()
      modifies nodes, this`num
      ensures Valid()
      ensures Contents() == if w.addr.family != af then old(Contents()) else OfferNews(old(Contents()), w, id)
      ensures r.Some? <==> w.addr.family == af && w.id in SearchIds(Contents())
      ensures r.Some? ==> r.value < num && nodes[r.value].id == w.id
      ensures r.Some? ==> EntryFor(old(Contents()), nodes[r.value], w)
      ensures OthersKept(old(Contents()), Contents(), w.id)
    {
      if w.addr.family != af {
        return None;
      }
      ghost var l := nodes[..num];
      OfferNewsIds(l, w, id);
      OfferSorted(SearchIds(l), w.id, id);
      OfferNewsMeans(l, w, id);
      r := Place(w);
      if r.Some? {
        assert nodes[r.value] == nodes[..num][r.value];
        assert SearchIds(nodes[..num])[r.value] == w.id;
      }
    }

    /** Finds, makes or refuses a place, and brings the entry there up to date. */
    method Place(w: News) returns (r: Option<nat>)
      requires nodes.Length == SEARCH_NODES && num <= SEARCH_NODES
      modifies nodes, this`num
      ensures num <= SEARCH_NODES && nodes[..num] == OfferNews(old(nodes[..num]), w, id)
      ensures r.None? ==> num == old(num) && Position(SearchIds(old(nodes[..num])), w.id, id) == SEARCH_NODES
      ensures r.Some? ==> r.value < num && nodes[r.value].id == w.id
    {
      var i, found := FindPlace(w.id);
      if !found && i == SEARCH_NODES {
        return None;
      }
      if !found {
        ghost var l := nodes[..num];
        var blank := Blank(w.id, w.addr);
        ShiftIn(i, blank);
        InsertThenUpdate(l, i, blank, Stamp(blank, w), SEARCH_NODES);
        assert nodes[i] == nodes[..num][i];
      }
      Update(i, Stamp(nodes[i], w));
      assert nodes[i] == nodes[..num][i];
      r := Some(i);
    }

    static lemma {:induction false} InsertThenUpdate<T>(l: seq<T>, i: nat, x: T, y: T, k: nat)
      requires i <= |l| <= k && i < k
      ensures InsertAt(l, i, x, k)[i] == x && InsertAt(l, i, x, k)[i := y] == InsertAt(l, i, y, k)
    {
    }

    method Update(i: nat, n: SearchNode)
      requires i < num <= nodes.Length
      modifies nodes
      ensures nodes[..num] == old(nodes[..num])[i := n]
    {
      nodes[i] := n;
    }

    /** Closes the gap left by candidate `i`. */
    method FlushSearchNode(i: nat)
      requires Valid() && i < num
      modifies nodes, this`num
      ensures Valid()
      ensures Contents() == old(Contents())[..i] + old(Contents())[i + 1..]
      ensures Contents() == Without(old(Contents()), old(Contents())[i].id)
    {
      ghost var l := nodes[..num];
      FlushSorted(l, i, id);
      FlushRemoves(l, i, id);
      CloseGap(i);
    }

    method CloseGap(i: nat)
      requires i < num <= nodes.Length
      modifies nodes, this`num
      ensures num == old(num) - 1
      ensures nodes[..num] == old(nodes[..num])[..i] + old(nodes[..num])[i + 1..]
    {
      ghost var l := nodes[..num];
      var j := i;
      while j < num - 1
        invariant i <= j < num == |l|
        invariant forall p | 0 <= p < i :: nodes[p] == l[p]
        invariant forall p | i <= p < j :: nodes[p] == l[p + 1]
        invariant forall p | j <= p < num :: nodes[p] == l[p]
      {
        nodes[j] := nodes[j + 1];
        j := j + 1;
      }
      num := num - 1;
      GapClosed(nodes[..num], l, i);
    }

    /** The loop by which a blacklisted id is flushed; it does not look again at the slot it has just filled. */
    method FlushId(x: Id)
      requires Valid()
      modifies nodes, this`num
      ensures Valid() && Contents() == Without(old(Contents()), x)
      ensures x !in SearchIds(Contents())
    {
      ghost var l := nodes[..num];
      WithoutLacks(l, x);
      var i := 0;
      while i < num
        invariant Valid() && Flushing(l, nodes[..num], i, x)
      {
        SameId(nodes[i].id, x);
        assert nodes[i] == nodes[..num][i];
        FlushStep(l, nodes[..num], i, x);
        if IdCmp(nodes[i].id, x) == 0 {
          FlushSearchNode(i);
        }
        i := i + 1;
      }
      FlushEnds(l, nodes[..num], i, x);
    }

    static lemma {:induction false} FlushStep(l: seq<SearchNode>, cur: seq<SearchNode>, i: nat, x: Id)
      requires Flushing(l, cur, i, x) && i < |cur|
      ensures Flushing(l, if cur[i].id == x then Without(cur, x) else cur, i + 1, x)
    {
      if cur == l {
        WithoutLacks(l, x);
      } else {
        assert cur[i] in cur;
      }
    }

    static lemma {:induction false} FlushEnds(l: seq<SearchNode>, cur: seq<SearchNode>, i: nat, x: Id)
      requires Flushing(l, cur, i, x) && i >= |cur|
      ensures cur == Without(l, x)
    {
      if cur == l && forall j | 0 <= j < i && j < |l| :: l[j].id != x {
        WithoutAbsent(l, x);
      }
    }

    /** Either nothing has been flushed and the id has not been met, or it is gone. */
    static ghost predicate Flushing(l: seq<SearchNode>, cur: seq<SearchNode>, i: nat, x: Id)
    {
      || (cur == l && forall j | 0 <= j < i && j < |l| :: l[j].id != x)
      || (cur == Without(l, x) && forall n | n in cur :: n.id != x)
    }

    // ----- one step -----

    method AllRepliedScan() returns (allDone: bool)
      requires num <= nodes.Length
      ensures allDone <==> AllReplied(nodes[..num], 8)
    {
      ghost var l := nodes[..num];
      var i, j := 0, 0;
      assert l[0..] == l;
      while i < num && j < 8
        invariant 0 <= i <= num && 0 <= j <= 8
        invariant AllReplied(l, 8) <==> AllReplied(l[i..], 8 - j)
      {
        ScanStep(l, i, 8 - j);
        if nodes[i].pinged < 3 {
          if !nodes[i].replied {
            return false;
          }
          j := j + 1;
        }
        i := i + 1;
      }
      allDone := true;
    }

    static lemma {:induction false} ScanStep(l: seq<SearchNode>, i: nat, k: nat)
      requires i < |l| && k > 0
      ensures !Live(l[i]) ==> FirstLive(l[i..], k) == FirstLive(l[i + 1..], k)
      ensures Live(l[i]) ==> (AllReplied(l[i..], k) <==> l[i].replied && AllReplied(l[i + 1..], k - 1))
      ensures Live(l[i]) ==> (AllSettled(l[i..], k) <==> Settled(l[i]) && AllSettled(l[i + 1..], k - 1))
    {
      assert l[i..][1..] == l[i + 1..];
      if Live(l[i]) {
        RepliedStep(l[i..], k);
      }
    }

    static lemma {:induction false} RepliedStep(l: seq<SearchNode>, k: nat)
      requires l != [] && k > 0 && Live(l[0])
      ensures AllReplied(l, k) <==> l[0].replied && AllReplied(l[1..], k - 1)
      ensures AllSettled(l, k) <==> Settled(l[0]) && AllSettled(l[1..], k - 1)
    {
      assert FirstLive(l, k) == [l[0]] + FirstLive(l[1..], k - 1);
      assert l[0] in FirstLive(l, k);
      assert forall n | n in FirstLive(l[1..], k - 1) :: n in FirstLive(l, k);
    }

    /** The list with positions before `i` dealt with and `k` announcements to go. */
    static ghost function AnnouncedAfter(l: seq<SearchNode>, i: nat, k: nat, now: int): seq<SearchNode>
      requires i <= |l|
    {
      l[..i] + Announced(l[i..], k, now)
    }

    static lemma {:induction false} AnnounceStep(l: seq<SearchNode>, i: nat, k: nat, now: int)
      requires i < |l| && k > 0
      ensures var m := if Live(l[i]) then l[i := AnnounceTo(l[i], now)] else l;
              && m[i + 1..] == l[i + 1..]
              && AnnouncedAfter(m, i + 1, if Live(l[i]) then k - 1 else k, now) == AnnouncedAfter(l, i, k, now)
    {
      assert l[i..][1..] == l[i + 1..];
    }

    /** Part-way through: what is left to do is what the whole pass would do from here. */
    static ghost predicate Announcing(l: seq<SearchNode>, cur: seq<SearchNode>, i: nat, k: nat, allAcked: bool, now: int)
    {
      && i <= |cur| && AnnouncedAfter(cur, i, k, now) == Announced(l, 8, now)
      && ((allAcked && AllSettled(cur[i..], k)) <==> AllSettled(l, 8))
    }

    static lemma {:induction false} AnnouncingStep(l: seq<SearchNode>, cur: seq<SearchNode>, i: nat, k: nat, allAcked: bool, now: int)
      requires i < |cur| && k > 0 && Announcing(l, cur, i, k, allAcked, now)
      ensures !Live(cur[i]) ==> Announcing(l, cur, i + 1, k, allAcked, now)
      ensures Live(cur[i]) ==>
                Announcing(l, cur[i := AnnounceTo(cur[i], now)], i + 1, k - 1, allAcked && Settled(cur[i]), now)
    {
      AnnounceStep(cur, i, k, now);
      ScanStep(cur, i, k);
    }

    static lemma {:induction false} AnnouncingEnds(l: seq<SearchNode>, cur: seq<SearchNode>, i: nat, k: nat, allAcked: bool, now: int)
      requires Announcing(l, cur, i, k, allAcked, now) && (k == 0 || i == |cur|)
      ensures cur == Announced(l, 8, now) && (allAcked <==> AllSettled(l, 8))
    {
    }

    /** Announces to the closest live candidates; says whether there was nobody left to ask. */
    method AnnouncePass(now: int) returns (allAcked: bool)
      requires num <= nodes.Length
      modifies nodes
      ensures nodes[..num] == Announced(old(nodes[..num]), 8, now)
      ensures allAcked <==> AllSettled(old(nodes[..num]), 8)
    {
      ghost var l := nodes[..num];
      assert l[0..] == l && l[..0] == [];
      allAcked := true;
      var i, j := 0, 0;
      while i < num && j < 8
        invariant 0 <= i <= num && 0 <= j <= 8
        invariant Announcing(l, nodes[..num], i, 8 - j, allAcked, now)
      {
        ghost var cur := nodes[..num];
        assert nodes[i] == cur[i];
        AnnouncingStep(l, cur, i, 8 - j, allAcked, now);
        if nodes[i].pinged < 3 {
          var settled := AnnounceAt(i, now);
          allAcked := allAcked && settled;
          j := j + 1;
        }
        i := i + 1;
      }
      AnnouncingEnds(l, nodes[..num], i, 8 - j, allAcked, now);
    }

    /** Announces to one candidate, unless it has acknowledged or has given no token. */
    method AnnounceAt(i: nat, now: int) returns (settled: bool)
      requires i < num <= nodes.Length
      modifies nodes
      ensures nodes[..num] == old(nodes[..num])[i := AnnounceTo(old(nodes[i]), now)]
      ensures settled <==> Settled(old(nodes[i]))
      ensures Told(old(nodes[i]), nodes[i], now)
    {
      var n := nodes[i];
      if |n.token| == 0 {
        n := n.(acked := true);
      }
      settled := n.acked;
      if !n.acked {
        n := n.(pinged := n.pinged + 1, requestTime := now);
      }
      nodes[i] := n;
    }

    static lemma {:induction false} AnnouncedIds(l: seq<SearchNode>, k: nat, now: int)
      ensures SearchIds(Announced(l, k, now)) == SearchIds(l)
    {
      if k > 0 && l != [] {
        var k' := if Live(l[0]) then k - 1 else k;
        AnnouncedIds(l[1..], k', now);
        assert Announced(l, k, now)[1..] == Announced(l[1..], k', now);
        ConsIds(Announced(l, k, now), l);
      }
    }

    static lemma {:induction false} QueriedIds(l: seq<SearchNode>, k: nat, now: int)
      ensures SearchIds(Queried(l, k, now)) == SearchIds(l)
    {
      if k > 0 && l != [] {
        var k' := if Due(l[0], now) then k - 1 else k;
        QueriedIds(l[1..], k', now);
        assert Queried(l, k, now)[1..] == Queried(l[1..], k', now);
        ConsIds(Queried(l, k, now), l);
      }
    }

    static lemma {:induction false} ConsIds(a: seq<SearchNode>, b: seq<SearchNode>)
      requires |a| == |b| > 0 && a[0].id == b[0].id && SearchIds(a[1..]) == SearchIds(b[1..])
      ensures SearchIds(a) == SearchIds(b)
    {
      assert SearchIds(a) == [a[0].id] + SearchIds(a[1..]);
      assert SearchIds(b) == [b[0].id] + SearchIds(b[1..]);
    }

    /** Queries one candidate if it is due; says how many queries were sent. */
    method SendGetPeers(i: nat, now: int) returns (sent: nat)
      requires i < num <= nodes.Length
      modifies nodes
      ensures sent == if Due(old(nodes[i]), now) then 1 else 0
      ensures sent == 1 <==> Overdue(old(nodes[i]), now)
      ensures sent == 1 ==> Asked(old(nodes[i]), nodes[i], now)
      ensures nodes[..num] == old(nodes[..num])[i := if sent == 1 then Query(old(nodes[i]), now) else old(nodes[i])]
    {
      var n := nodes[i];
      if n.pinged >= 3 || n.replied || n.requestTime >= now - RETRANSMIT {
        return 0;
      }
      nodes[i] := n.(pinged := n.pinged + 1, requestTime := now);
      sent := 1;
    }

    /** Queries the farthest candidate that is due, if there is one; says how many queries were sent. */
    method SendGetPeersToAny(now: int) returns (sent: nat)
      requires Valid()
      modifies nodes
      ensures Valid()
      ensures sent == 0 ==> Contents() == old(Contents()) && forall n | n in Contents() :: !Due(n, now)
      ensures sent != 0 ==>
                exists i: nat | i < num :: LastDue(old(Contents()), i, now) && sent == 1
                  && Contents() == old(Contents())[i := Query(old(Contents())[i], now)]
    {
      var pick: Option<nat>, i := None, 0;
      while i < num
        invariant 0 <= i <= num
        invariant pick.None? ==> forall j | 0 <= j < i :: !Due(nodes[j], now)
        invariant pick.Some? ==> pick.value < i && Due(nodes[pick.value], now) && forall j | pick.value < j < i :: !Due(nodes[j], now)
      {
        if nodes[i].pinged < 3 && !nodes[i].replied && nodes[i].requestTime < now - RETRANSMIT {
          pick := Some(i);
        }
        i := i + 1;
      }
      if pick.None? {
        return 0;
      }
      ghost var l := Contents();
      var k := pick.value;
      assert LastDue(l, k, now);
      UpdateIds(l, k, Query(l[k], now));
      sent := SendGetPeers(k, now);
      assert nodes[..num] == l[k := Query(l[k], now)];
    }

    static ghost predicate LastDue(l: seq<SearchNode>, i: nat, now: int)
    {
      i < |l| && Due(l[i], now) && forall j | i < j < |l| :: !Due(l[j], now)
    }

    static ghost function QueriedAfter(l: seq<SearchNode>, i: nat, k: nat, now: int): seq<SearchNode>
      requires i <= |l|
    {
      l[..i] + Queried(l[i..], k, now)
    }

    /** Part-way through: what is left to do is what the whole pass would do from here. */
    static ghost predicate Querying(l: seq<SearchNode>, cur: seq<SearchNode>, i: nat, k: nat, now: int)
    {
      i <= |cur| && QueriedAfter(cur, i, k, now) == Queried(l, INFLIGHT_QUERIES, now)
    }

    static lemma {:induction false} QueryStep(l: seq<SearchNode>, cur: seq<SearchNode>, i: nat, k: nat, now: int)
      requires i < |cur| && k > 0 && Querying(l, cur, i, k, now)
      ensures !Due(cur[i], now) ==> Querying(l, cur[i := cur[i]], i + 1, k, now)
      ensures Due(cur[i], now) ==> Querying(l, cur[i := Query(cur[i], now)], i + 1, k - 1, now)
    {
      assert cur[i..][1..] == cur[i + 1..];
    }

    static lemma {:induction false} QueryingEnds(l: seq<SearchNode>, cur: seq<SearchNode>, i: nat, k: nat, now: int)
      requires Querying(l, cur, i, k, now) && (k == 0 || i == |cur|)
      ensures cur == Queried(l, INFLIGHT_QUERIES, now)
    {
    }

    /** Queries the closest candidates that are due, four at most. */
    method QueryPass(now: int)
      requires num <= nodes.Length
      modifies nodes
      ensures nodes[..num] == Queried(old(nodes[..num]), INFLIGHT_QUERIES, now)
    {
      ghost var l := nodes[..num];
      assert l[0..] == l && l[..0] == [];
      var i, j := 0, 0;
      while i < num
        invariant 0 <= i <= num && 0 <= j < INFLIGHT_QUERIES
        invariant Querying(l, nodes[..num], i, INFLIGHT_QUERIES - j, now)
      {
        ghost var cur := nodes[..num];
        assert nodes[i] == cur[i];
        QueryStep(l, cur, i, INFLIGHT_QUERIES - j, now);
        var sent := SendGetPeers(i, now);
        j := j + sent;
        i := i + 1;
        if j >= INFLIGHT_QUERIES {
          break;
        }
      }
      QueryingEnds(l, nodes[..num], i, INFLIGHT_QUERIES - j, now);
    }

    /** One step of the search. */
    method SearchStep(now: int)
      requires Valid()
      modifies this, nodes
      ensures Valid()
      ensures State() == Step(old(State()), now) && Stepped(old(State()), State(), id, now)
      ensures !old(done) ==> (done <==> Complete(old(State()), id))
      ensures !old(done) && done && port != 0 ==> forall n | AmongClosestLive(Contents(), 8, id, n) :: n.acked
    {
      StepMeans(State(), now, id);
      StepExactly(State(), id, now);
      AnnouncedIds(nodes[..num], 8, now);
      QueriedIds(nodes[..num], INFLIGHT_QUERIES, now);
      var allDone := AllRepliedScan();
      if allDone {
        if port == 0 {
          done := true;
        } else {
          var allAcked := AnnouncePass(now);
          if allAcked {
            done := true;
          }
        }
        stepTime := now;
        return;
      }
      if stepTime + RETRANSMIT >= now {
        return;
      }
      QueryPass(now);
      stepTime := now;
    }

    /** What the outcome of a step means. */
    static lemma {:induction false} StepMeans(s: SearchState, now: int, target: Id)
      requires Sorted(SearchIds(s.nodes), target)
      ensures SearchIds(Step(s, now).nodes) == SearchIds(s.nodes)
      ensures !s.done ==> (Step(s, now).done <==> Complete(s, target))
      ensures !s.done && Step(s, now).done && s.port != 0 ==>
                forall n | AmongClosestLive(Step(s, now).nodes, 8, target, n) :: n.acked
    {
      AnnouncedIds(s.nodes, 8, now);
      QueriedIds(s.nodes, INFLIGHT_QUERIES, now);
      if !s.done {
        DoneExactly(s, now, target);
        if Step(s, now).done && s.port != 0 {
          DoneMeansAcked(s, now, target);
        }
      }
    }

    // ----- starting -----

    /** The first `i` candidates are ready to be asked again, and nothing worth keeping is lost. */
    static ghost predicate Restarting(l: seq<SearchNode>, cur: seq<SearchNode>, i: nat, now: int)
    {
      && Reused(cur, now) == Reused(l, now)
      && forall j | 0 <= j < i && j < |cur| :: Reusable(cur[j], now) && cur[j] == Reset(cur[j])
    }

    static lemma {:induction false} RestartStep(l: seq<SearchNode>, cur: seq<SearchNode>, i: nat, now: int)
      requires Restarting(l, cur, i, now) && i < |cur|
      ensures !Reusable(cur[i], now) ==> Restarting(l, cur[..i] + cur[i + 1..], 0, now)
      ensures Reusable(cur[i], now) ==> Restarting(l, cur[i := Reset(cur[i])], i + 1, now)
      ensures SearchIds(cur[i := Reset(cur[i])]) == SearchIds(cur)
    {
      ReusedAt(cur, i, now);
      UpdateIds(cur, i, Reset(cur[i]));
    }

    static lemma {:induction false} RestartEnds(l: seq<SearchNode>, cur: seq<SearchNode>, i: nat, now: int)
      requires Restarting(l, cur, i, now) && i >= |cur|
      ensures cur == Reused(l, now)
    {
      ReusedDone(cur, now);
    }

    /** Prepares the candidates of an earlier run, rescanning from the start after every flush. */
    method Restart(now: int)
      requires Valid()
      modifies this, nodes
      ensures Valid() && !done && port == old(port) && stepTime == old(stepTime)
      ensures Contents() == Reused(old(Contents()), now)
      ensures StartedOver(old(Contents()), Contents(), now)
    {
      ghost var l := nodes[..num];
      done := false;
      var i := 0;
      while i < num
        invariant Valid() && 0 <= i <= num && !done && port == old(port) && stepTime == old(stepTime)
        invariant Restarting(l, nodes[..num], i, now)
        decreases num, num - i
      {
        assert nodes[i] == nodes[..num][i];
        RestartStep(l, nodes[..num], i, now);
        if nodes[i].pinged >= 3 || nodes[i].replyTime < now - 7200 {
          FlushSearchNode(i);
          i := 0;
        } else {
          Update(i, nodes[i].(pinged := 0, token := [], replied := false, acked := false));
          i := i + 1;
        }
      }
      RestartEnds(l, nodes[..num], i, now);
      ReusedExactly(l, now);
    }

    /** Offers every node of a bucket. */
    method InsertSearchBucket(b: seq<Node>, now: int, ghost ids: set<Id>, ghost kept: seq<SearchNode>)
      requires Valid() && KClosest(SearchIds(Contents()), ids, id, SEARCH_NODES) && AllTakenFrom(kept, Contents())
      requires forall n | n in b :: n.addr.family == af
      modifies nodes, this`num
      ensures Valid() && KClosest(SearchIds(Contents()), ids + IdSet(b), id, SEARCH_NODES) && AllTakenFrom(kept, Contents())
    {
      var i := 0;
      assert ids + IdSet(b[..0]) == ids;
      while i < |b|
        invariant 0 <= i <= |b| && Valid() && AllTakenFrom(kept, Contents())
        invariant KClosest(SearchIds(Contents()), ids + IdSet(b[..i]), id, SEARCH_NODES)
      {
        InsertFromBucket(b[i], now, ids + IdSet(b[..i]), kept);
        NextIds(b, i, ids);
        i := i + 1;
      }
      assert b[..i] == b;
    }

    method InsertFromBucket(n: Node, now: int, ghost ids: set<Id>, ghost kept: seq<SearchNode>)
      requires Valid() && KClosest(SearchIds(Contents()), ids, id, SEARCH_NODES) && AllTakenFrom(kept, Contents())
      requires n.addr.family == af
      modifies nodes, this`num
      ensures Valid() && KClosest(SearchIds(Contents()), ids + {n.id}, id, SEARCH_NODES) && AllTakenFrom(kept, Contents())
    {
      var w := News(n.id, n.addr, false, None, now);
      OfferNewsIds(Contents(), w, id);
      OfferNewsTaken(kept, Contents(), w, id);
      OfferKeeps(SearchIds(Contents()), ids, id, SEARCH_NODES, w.id);
      var r := InsertSearchNode(w);
    }

    static lemma {:induction false} NextIds(b: seq<Node>, i: nat, ids: set<Id>)
      requires i < |b|
      ensures ids + IdSet(b[..i]) + {b[i].id} == ids + IdSet(b[..i + 1])
    {
      assert b[..i + 1] == b[..i] + [b[i]];
    }

    /**
     Fills a new or repeated search from the routing table: the target's bucket, then its neighbours,
     then our own bucket, as long as there is room.
     */
    method Fill(table: RoutingTable, now: int)
      requires Valid() && table.Valid() && table.af == af
      modifies nodes, this`num
      ensures Valid() && AllTakenFrom(old(Contents()), Contents())
      ensures Filled(SearchIds(Contents()), Members(SearchIds(old(Contents()))), table.buckets, table.myid, id)
    {
      var b := table.FindBucket(id);
      var own := table.FindBucket(table.myid);
      FamiliesAgree(table.buckets, table.myid, af);
      ghost var bs, myid, kept := table.buckets, table.myid, Members(SearchIds(Contents()));
      FillFrom(table.buckets, b, own, now);
      HomeSuffices(SearchIds(Contents()), kept, bs, myid, af, id);
    }

    method FillFrom(bs: seq<Bucket>, b: nat, own: nat, now: int)
      requires Valid() && b < |bs| && own < |bs|
      requires forall j, n | 0 <= j < |bs| && n in bs[j].nodes :: n.addr.family == af
      modifies nodes, this`num
      ensures Valid() && AllTakenFrom(old(Contents()), Contents())
      ensures KClosest(SearchIds(Contents()), Offered(Members(SearchIds(old(Contents()))), bs, b, own), id, SEARCH_NODES)
    {
      ghost var l := Contents();
      OwnKClosest(SearchIds(l), id);
      AllTaken(l);
      ghost var ids := OfferAt(bs, b, now, Members(SearchIds(l)), l);
      ids := OfferNeighbours(bs, b, now, ids, l);
      ids := OfferOwn(bs, own, now, ids, l);
    }

    method OfferNeighbours(bs: seq<Bucket>, b: nat, now: int, ghost ids: set<Id>, ghost kept: seq<SearchNode>)
      returns (ghost offered: set<Id>)
      requires Valid() && KClosest(SearchIds(Contents()), ids, id, SEARCH_NODES) && AllTakenFrom(kept, Contents())
      requires forall j, n | 0 <= j < |bs| && n in bs[j].nodes :: n.addr.family == af
      modifies nodes, this`num
      ensures Valid() && KClosest(SearchIds(Contents()), offered, id, SEARCH_NODES) && AllTakenFrom(kept, Contents())
      ensures offered == WithNeighbours(ids, bs, b)
    {
      offered := ids;
      ListSize(SearchIds(Contents()), ids, id, SEARCH_NODES);
      if num < SEARCH_NODES {
        offered := OfferAt(bs, b + 1, now, ids, kept);
        offered := OfferAt(bs, b - 1, now, offered, kept);
      }
    }

    method OfferOwn(bs: seq<Bucket>, own: nat, now: int, ghost ids: set<Id>, ghost kept: seq<SearchNode>)
      returns (ghost offered: set<Id>)
      requires Valid() && KClosest(SearchIds(Contents()), ids, id, SEARCH_NODES) && AllTakenFrom(kept, Contents())
      requires forall j, n | 0 <= j < |bs| && n in bs[j].nodes :: n.addr.family == af
      modifies nodes, this`num
      ensures Valid() && KClosest(SearchIds(Contents()), offered, id, SEARCH_NODES) && AllTakenFrom(kept, Contents())
      ensures offered == WithOwn(ids, bs, own)
    {
      offered := ids;
      ListSize(SearchIds(Contents()), ids, id, SEARCH_NODES);
      if num < SEARCH_NODES {
        offered := OfferAt(bs, own, now, ids, kept);
      }
    }

    /** A list in order holds the closest of its own members. */
    static lemma {:induction false} OwnKClosest(l: seq<Id>, target: Id)
      requires Sorted(l, target) && |l| <= SEARCH_NODES
      ensures KClosest(l, Members(l), target, SEARCH_NODES)
    {
    }

    static lemma {:induction false} AllTaken(l: seq<SearchNode>)
      ensures AllTakenFrom(l, l)
    {
      forall n | n in l
        ensures TakenFrom(l, n)
      {
        assert n == n.(addr := n.addr);
      }
    }

    /** Offers bucket `i`, if there is one. */
    method OfferAt(bs: seq<Bucket>, i: int, now: int, ghost ids: set<Id>, ghost kept: seq<SearchNode>)
      returns (ghost offered: set<Id>)
      requires Valid() && KClosest(SearchIds(Contents()), ids, id, SEARCH_NODES) && AllTakenFrom(kept, Contents())
      requires forall j, n | 0 <= j < |bs| && n in bs[j].nodes :: n.addr.family == af
      modifies nodes, this`num
      ensures Valid() && KClosest(SearchIds(Contents()), offered, id, SEARCH_NODES) && AllTakenFrom(kept, Contents())
      ensures offered == ids + IdsAt(bs, i)
    {
      offered := ids + IdsAt(bs, i);
      if 0 <= i < |bs| {
        InsertSearchBucket(bs[i].nodes, now, ids, kept);
      } else {
        assert offered == ids;
      }
    }

    /**
     Starts a search, or starts one over: the candidates worth keeping and the closest the table has to
     offer, and then a first step.  `l` is the list the step is taken with.
     */
    method Begin(table: RoutingTable, forPort: nat, again: bool, now: int) returns (ghost l: seq<SearchNode>)
      requires Valid() && table.Valid() && table.af == af && (!again ==> Contents() == [] && !done)
      modifies this, nodes
      ensures Valid() && State() == Step(SearchState(l, old(stepTime), forPort, false), now)
      ensures Prepared(l, if again then Reused(old(Contents()), now) else [], table.buckets, table.myid, id)
      ensures AllUnasked(l) && Stepped(SearchState(l, old(stepTime), forPort, false), State(), id, now)
      ensures done <==> l == []
    {
      ReusedExactly(Contents(), now);
      Prepare(table, forPort, again, now);
      l := Contents();
      TakenUnasked(if again then Reused(old(Contents()), now) else [], l);
      UnaskedIncomplete(State(), id);
      SearchStep(now);
    }

    method Prepare(table: RoutingTable, forPort: nat, again: bool, now: int)
      requires Valid() && table.Valid() && table.af == af && (!again ==> Contents() == [] && !done)
      modifies this, nodes
      ensures Valid() && port == forPort && !done && stepTime == old(stepTime)
      ensures Prepared(Contents(), if again then Reused(old(Contents()), now) else [], table.buckets, table.myid, id)
    {
      if again {
        Restart(now);
      }
      port := forPort;
      Fill(table, now);
    }
  }

  /** The candidates kept, brought up to date, and those the table has to offer. */
  ghost predicate Prepared(l: seq<SearchNode>, kept: seq<SearchNode>, bs: seq<Bucket>, myid: Id, target: Id)
    requires Partition(bs)
  {
    AllTakenFrom(kept, l) && Filled(SearchIds(l), Members(SearchIds(kept)), bs, myid, target)
  }

  ghost function IdsAt(bs: seq<Bucket>, i: int): set<Id>
  {
    if 0 <= i < |bs| then IdSet(bs[i].nodes) else {}
  }

  ghost function TableIds(bs: seq<Bucket>): set<Id> { set n | n in AllNodes(bs) :: n.id }

  lemma {:induction false} IdsAtInTable(bs: seq<Bucket>, i: int)
    ensures IdsAt(bs, i) <= TableIds(bs)
  {
    if 0 <= i < |bs| {
      BucketNodesInTable(bs, i);
      forall n | n in bs[i].nodes
        ensures n in AllNodes(bs)
      {
        assert n in multiset(bs[i].nodes);
      }
    }
  }

  lemma {:induction false} FamiliesAgree(bs: seq<Bucket>, myid: Id, af: Family)
    requires BucketsOk(bs, myid, af)
    ensures forall j, n | 0 <= j < |bs| && n in bs[j].nodes :: n.addr.family == af
  {
    forall j, n | 0 <= j < |bs| && n in bs[j].nodes
      ensures n.addr.family == af
    {
      assert BucketOk(bs, j, myid, af);
    }
  }

  /** When the target's own bucket fills the list, the rest of the table was not needed. */
  lemma {:induction false} HomeFillsSearch(l: seq<Id>, kept: set<Id>, bs: seq<Bucket>, myid: Id, af: Family, target: Id)
    requires Structure(bs, myid, af) && |IdsAt(bs, Home(bs, target))| >= SEARCH_NODES
    requires KClosest(l, kept + IdsAt(bs, Home(bs, target)), target, SEARCH_NODES)
    ensures KClosest(l, kept + TableIds(bs), target, SEARCH_NODES) && |l| == SEARCH_NODES
  {
    var h := Home(bs, target);
    var home := IdsAt(bs, h);
    IdsAtInTable(bs, h);
    HomeIsCloser(bs, myid, af, target);
    FullList(l, home, kept + home, target, SEARCH_NODES);
    NearPartSuffices(l, home, kept + home, kept + TableIds(bs), target, SEARCH_NODES);
  }

  lemma {:induction false} HomeIsCloser(bs: seq<Bucket>, myid: Id, af: Family, target: Id)
    requires Structure(bs, myid, af)
    ensures var home := IdsAt(bs, Home(bs, target));
            forall x, y | x in home && y in TableIds(bs) && y !in home :: Closer(x, y, target)
  {
    var home := bs[Home(bs, target)].nodes;
    forall x, y | x in IdSet(home) && y in TableIds(bs) && y !in IdSet(home)
      ensures Closer(x, y, target)
    {
      var m :| m in home && m.id == x;
      var n :| n in AllNodes(bs) && n.id == y;
      NearerAtHome(bs, myid, af, target, m, n);
    }
  }

  /**
   Everything offered to a search that had the candidates `kept`: the target's own bucket, the two next
   to it unless the list is full by then, and our own unless it is full by then.
   */
  ghost function Offered(kept: set<Id>, bs: seq<Bucket>, h: nat, own: nat): set<Id>
  {
    WithOwn(WithNeighbours(kept + IdsAt(bs, h), bs, h), bs, own)
  }

  ghost function WithNeighbours(ids: set<Id>, bs: seq<Bucket>, h: nat): set<Id>
  {
    if |ids| >= SEARCH_NODES then ids else ids + IdsAt(bs, h + 1) + IdsAt(bs, h - 1)
  }

  ghost function WithOwn(ids: set<Id>, bs: seq<Bucket>, own: nat): set<Id>
  {
    if |ids| >= SEARCH_NODES then ids else ids + IdsAt(bs, own)
  }

  /**
   `l` lists the fourteen closest of what was kept and offered; and when the target's own bucket fills
   the list, they are the fourteen closest of what was kept and the whole table.
   */
  ghost predicate Filled(l: seq<Id>, kept: set<Id>, bs: seq<Bucket>, myid: Id, target: Id)
    requires Partition(bs)
  {
    && KClosest(l, Offered(kept, bs, Home(bs, target), Home(bs, myid)), target, SEARCH_NODES)
    && (|IdsAt(bs, Home(bs, target))| >= SEARCH_NODES ==> KClosest(l, kept + TableIds(bs), target, SEARCH_NODES))
  }

  lemma {:induction false} HomeSuffices(l: seq<Id>, kept: set<Id>, bs: seq<Bucket>, myid: Id, af: Family, target: Id)
    requires Structure(bs, myid, af)
    requires KClosest(l, Offered(kept, bs, Home(bs, target), Home(bs, myid)), target, SEARCH_NODES)
    ensures Filled(l, kept, bs, myid, target)
  {
    var home := IdsAt(bs, Home(bs, target));
    if |home| >= SEARCH_NODES {
      SubsetSize(home, kept + home);
      HomeFillsSearch(l, kept, bs, myid, af, target);
    }
  }

  /** No two searches are the same or share an array. */
  ghost predicate Separate(searches: seq<Search>)
  {
    forall i, j | 0 <= i < j < |searches| :: searches[i] != searches[j] && searches[i].nodes != searches[j].nodes
  }

  /** Blacklisting: the id disappears from every search, and nothing else does. */
  method FlushEverywhere(searches: seq<Search>, x: Id)
    requires Separate(searches) && forall s | s in searches :: s.Valid()
    modifies searches, set s | s in searches :: s.nodes
    ensures forall s | s in searches :: Has(s, Without(old(s.Contents()), x)) && x !in SearchIds(s.Contents())
  {
    var i := 0;
    while i < |searches|
      invariant 0 <= i <= |searches|
      invariant forall k | 0 <= k < i :: Has(searches[k], Without(old(searches[k].Contents()), x))
      invariant forall k | i <= k < |searches| :: Has(searches[k], old(searches[k].Contents()))
    {
      var s := searches[i];
      assert forall k | 0 <= k < |searches| && k != i :: searches[k] != s && searches[k].nodes != s.nodes;
      s.FlushId(x);
      i := i + 1;
    }
    forall s | s in searches
      ensures x !in SearchIds(s.Contents())
    {
      WithoutLacks(old(s.Contents()), x);
    }
  }

  /** The search is well formed and its candidates are `l`. */
  ghost predicate Has(s: Search, l: seq<SearchNode>)
    reads s, s.nodes
  {
    s.Valid() && s.nodes[..s.num] == l
  }
}
