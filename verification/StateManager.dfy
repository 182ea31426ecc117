/**
 The state manager: the lists of peers and stored messages, changed in place, with
 deliveries announced through the event queue.
 */
module StateManager {
  import opened EventQueue
  import opened Ghosts
  import opened Sequences

  lemma {:induction false} MarkedAppend(ms: seq<Message>, m: Message, id: string)
    ensures Marked(ms + [m], id) == Marked(ms, id) + [if Awaits(m, id) then m.(delivered := true) else m]
  {
    if ms == [] {
      assert ms + [m] == [m];
    } else {
      MarkedAppend(ms[1..], m, id);
      assert (ms + [m])[1..] == ms[1..] + [m] && (ms + [m])[0] == ms[0];
    }
  }

  lemma {:induction false} AnnouncementsAppend(ms: seq<Message>, m: Message, id: string)
    ensures Announcements(ms + [m], id) == Announcements(ms, id) + if Awaits(m, id) then [Announce(m, id)] else []
  {
    if ms == [] {
      assert ms + [m] == [m];
    } else {
      AnnouncementsAppend(ms[1..], m, id);
      assert (ms + [m])[1..] == ms[1..] + [m] && (ms + [m])[0] == ms[0];
      var h, t := if Awaits(ms[0], id) then [Announce(ms[0], id)] else [], if Awaits(m, id) then [Announce(m, id)] else [];
      assert h + (Announcements(ms[1..], id) + t) == h + Announcements(ms[1..], id) + t;
    }
  }

  lemma {:induction false} EnqueuedAppend(q: seq<Event>, es: seq<Event>, e: Event)
    ensures Enqueued(q, es + [e]) ==
            var r := Enqueued(q, es); if |r| >= QUEUE_SIZE then r else r + [e]
    decreases |es|
  {
    if es == [] {
      assert es + [e] == [e] && [e][1..] == [];
    } else {
      EnqueuedAppend(if |q| >= QUEUE_SIZE then q else q + [es[0]], es[1..], e);
      assert (es + [e])[1..] == es[1..] + [e] && (es + [e])[0] == es[0];
    }
  }

  /** Where a delivery sweep stands after the first `i` messages. */
  ghost predicate Sweep(l: seq<Message>, cur: seq<Message>, i: nat, to: string, n: int, q0: seq<Event>, q: seq<Event>)
  {
    && i <= |l| == |cur|
    && cur[..i] == Marked(l[..i], to) && cur[i..] == l[i..]
    && n == Undelivered(l[..i], to)
    && q == Enqueued(q0, Announcements(l[..i], to))
  }

  lemma {:induction false} SweepNext(l: seq<Message>, cur: seq<Message>, i: nat, to: string, n: int, q0: seq<Event>, q: seq<Event>)
    requires Sweep(l, cur, i, to, n, q0, q) && i < |l|
    ensures cur[i] == l[i]
    ensures !Awaits(l[i], to) ==> Sweep(l, cur, i + 1, to, n, q0, q)
    ensures Awaits(l[i], to) ==>
              Sweep(l, cur[i := l[i].(delivered := true)], i + 1, to, n + 1, q0,
                    if |q| >= QUEUE_SIZE then q else q + [Announce(l[i], to)])
  {
    assert l[..i + 1] == l[..i] + [l[i]];
    assert cur[i] == cur[i..][0];
    UndeliveredAppend(l[..i], l[i], to);
    SweepMarks(l, cur, i, to);
    SweepQueue(l, i, to, q0, q);
  }

  lemma {:induction false} SweepMarks(l: seq<Message>, cur: seq<Message>, i: nat, to: string)
    requires i < |l| == |cur| && cur[..i] == Marked(l[..i], to) && cur[i..] == l[i..]
    ensures var c := if Awaits(l[i], to) then cur[i := l[i].(delivered := true)] else cur;
            c[..i + 1] == Marked(l[..i + 1], to) && c[i + 1..] == l[i + 1..]
  {
    assert l[..i + 1] == l[..i] + [l[i]] && cur[i] == cur[i..][0] == l[i];
    MarkedAppend(l[..i], l[i], to);
    assert cur[i + 1..] == cur[i..][1..] && l[i + 1..] == l[i..][1..];
    var c := if Awaits(l[i], to) then cur[i := l[i].(delivered := true)] else cur;
    assert c[..i + 1] == cur[..i] + [c[i]] && c[i + 1..] == cur[i + 1..];
  }

  lemma {:induction false} SweepQueue(l: seq<Message>, i: nat, to: string, q0: seq<Event>, q: seq<Event>)
    requires i < |l| && q == Enqueued(q0, Announcements(l[..i], to))
    ensures Enqueued(q0, Announcements(l[..i + 1], to)) ==
            if !Awaits(l[i], to) || |q| >= QUEUE_SIZE then q else q + [Announce(l[i], to)]
  {
    var es := Announcements(l[..i], to);
    assert l[..i + 1] == l[..i] + [l[i]];
    AnnouncementsAppend(l[..i], l[i], to);
    EnqueuedAppend(q0, es, Announce(l[i], to));
    assert es + [] == es;
  }

  /** `i` is where the scanning loops find the first peer with the given id. */
  ghost predicate FirstAt(ps: seq<Peer>, id: string, i: nat)
  {
    i < |ps| && Norm(ps[i].id) == Norm(id) && forall j | 0 <= j < i :: Norm(ps[j].id) != Norm(id)
  }

  lemma {:induction false} FirstUnique(ps: seq<Peer>, id: string, i: nat)
    requires FirstAt(ps, id, i)
    ensures forall j: nat | FirstAt(ps, id, j) :: j == i
  {
  }

  lemma {:induction false} CountedAt(ps: seq<Peer>, id: string, i: nat, delta: int)
    requires FirstAt(ps, id, i)
    ensures Counted(ps, id, delta) ==
            ps[i := ps[i].(ghostCount := if ps[i].ghostCount + delta < 0 then 0 else ps[i].ghostCount + delta)]
  {
    if i > 0 {
      assert FirstAt(ps[1..], id, i - 1);
      CountedAt(ps[1..], id, i - 1, delta);
    }
  }

  lemma {:induction false} RemovedAt(ps: seq<Peer>, id: string, i: nat)
    requires FirstAt(ps, id, i)
    ensures Removed(ps, id) == ps[..i] + ps[i + 1..] && Known(ps, id)
  {
    assert ps[i] in ps;
    if i > 0 {
      assert FirstAt(ps[1..], id, i - 1);
      RemovedAt(ps[1..], id, i - 1);
      ConsGap(ps, i);
    } else {
      assert ps[..0] + ps[1..] == ps[1..];
    }
  }

  lemma {:induction false} NoMatch(ps: seq<Peer>, id: string, delta: int)
    requires forall j | 0 <= j < |ps| :: Norm(ps[j].id) != Norm(id)
    ensures Counted(ps, id, delta) == ps && Removed(ps, id) == ps && !Known(ps, id)
  {
    if ps != [] {
      NoMatch(ps[1..], id, delta);
    }
  }

  /** The peer with this id has its count raised, and nothing else changes. */
  ghost predicate Tallied(ps: seq<Peer>, r: seq<Peer>, id: string, n: int)
  {
    && |r| == |ps|
    && forall i | 0 <= i < |ps| ::
         r[i] == if Norm(ps[i].id) == Norm(id) then Peer(ps[i].id, ps[i].ghostCount + n) else ps[i]
  }

  /** The peer with this id has nothing counted any more. */
  ghost predicate Zeroed(ps: seq<Peer>, r: seq<Peer>, id: string)
  {
    |r| == |ps| && forall i | 0 <= i < |ps| :: r[i] == if Norm(ps[i].id) == Norm(id) then Peer(ps[i].id, 0) else ps[i]
  }

  /** Everything for this id is marked delivered, and nothing else changes. */
  ghost predicate Cleared(ms: seq<Message>, r: seq<Message>, id: string)
  {
    && |r| == |ms|
    && forall k | 0 <= k < |ms| :: r[k] == if Norm(ms[k].to) == Norm(id) then Message(ms[k].to, ms[k].text, true) else ms[k]
  }

  lemma {:induction false} MarkedClears(ms: seq<Message>, id: string)
    ensures Cleared(ms, Marked(ms, id), id)
  {
    forall k | 0 <= k < |ms|
      ensures Marked(ms, id)[k] == if Norm(ms[k].to) == Norm(id) then Message(ms[k].to, ms[k].text, true) else ms[k]
    {
      MarkedExactly(ms, id, k);
    }
  }

  /** Among peers with different ids, the first with a given id is the only one. */
  lemma {:induction false} OnlyAt(ps: seq<Peer>, id: string, i: nat)
    requires PeersOk(ps) && FirstAt(ps, id, i)
    ensures forall j | 0 <= j < |ps| && j != i :: Norm(ps[j].id) != Norm(id)
  {
    forall j | 0 <= j < |ps| && j != i
      ensures Norm(ps[j].id) != Norm(id)
    {
      assert ps[i] in ps && ps[j] in ps;
    }
  }

  lemma {:induction false} FirstMatch(ps: seq<Peer>, id: string) returns (i: nat)
    ensures i == |ps| || FirstAt(ps, id, i)
    ensures i <= |ps| && forall j | 0 <= j < i :: Norm(ps[j].id) != Norm(id)
  {
    if ps == [] {
      i := 0;
    } else if Norm(ps[0].id) == Norm(id) {
      i := 0;
    } else {
      i := FirstMatch(ps[1..], id);
      i := i + 1;
    }
  }

  lemma {:induction false} CountedTallies(ps: seq<Peer>, id: string)
    requires PeersOk(ps) && forall p | p in ps :: p.ghostCount >= 0
    ensures Tallied(ps, Counted(ps, id, 1), id, 1)
  {
    var i := FirstMatch(ps, id);
    if i < |ps| {
      OnlyAt(ps, id, i);
      CountedAt(ps, id, i, 1);
      assert ps[i] in ps;
    } else {
      NoMatch(ps, id, 1);
    }
  }

  lemma {:induction false} CountedZeroes(ps: seq<Peer>, ms: seq<Message>, id: string)
    requires PeersOk(ps) && CountsOk(ps, ms)
    ensures Zeroed(ps, Counted(ps, id, Less(Undelivered(ms, id))), id)
  {
    var delta := Less(Undelivered(ms, id));
    var i := FirstMatch(ps, id);
    if i < |ps| {
      OnlyAt(ps, id, i);
      CountedAt(ps, id, i, delta);
      assert ps[i] in ps;
      UndeliveredNorm(ms, id);
      UndeliveredNorm(ms, ps[i].id);
    } else {
      NoMatch(ps, id, delta);
    }
  }

  class StateManager {
    var peers: seq<Peer>
    var messages: seq<Message>
    const queue: EventQueue

    ghost predicate Valid()
      reads this, queue
    {
      PeersOk(peers) && MessagesOk(messages) && CountsOk(peers, messages) && queue.Valid()
    }

    constructor (queue: EventQueue)
      requires queue.Valid()
      ensures Valid() && peers == [] && messages == [] && this.queue == queue
    {
      peers, messages := [], [];
      this.queue := queue;
    }

    /** Scans for the first peer with this id. */
    method FindPeer(id: string) returns (i: nat)
      ensures i <= |peers| && forall j | 0 <= j < i :: Norm(peers[j].id) != Norm(id)
      ensures i < |peers| ==> Norm(peers[i].id) == Norm(id)
    {
      i := 0;
      var b := NormalizeId(id);
      while i < |peers|
        invariant 0 <= i <= |peers| && forall j | 0 <= j < i :: Norm(peers[j].id) != Norm(id)
      {
        var a := NormalizeId(peers[i].id);
        if a == b {
          return;
        }
        i := i + 1;
      }
    }

    method StateAddPeer(id: string) returns (rc: int)
      requires Valid()
      modifies this
      ensures Valid() && messages == old(messages)
      ensures peers == PeersAfterAdd(old(peers), id)
      ensures Norm(id) != "" && !Known(old(peers), id) && |old(peers)| < 256 ==> rc == 0 && peers == old(peers) + [Peer(Norm(id), 0)]
      ensures Norm(id) == "" || Known(old(peers), id) || |old(peers)| >= 256 ==> peers == old(peers)
      ensures rc == 0 <==> Known(peers, id) && Norm(id) != ""
    {
      var norm := NormalizeId(id);
      NormPlain(id);
      if |norm| == 0 {
        return -1;
      }
      var i := FindPeer(norm);
      if i < |peers| {
        RemovedAt(peers, id, i);
        return 0;
      }
      NoMatch(peers, id, 0);
      if |peers| >= MAX_PEERS {
        return -1;
      }
      AddedPeer(peers, messages, id);
      peers := peers + [Peer(norm, 0)];
      rc := 0;
    }

    static lemma {:induction false} AddedPeer(ps: seq<Peer>, ms: seq<Message>, id: string)
      requires PeersOk(ps) && CountsOk(ps, ms) && |ps| < MAX_PEERS && Norm(id) != "" && !Known(ps, id)
      ensures var r := ps + [Peer(Norm(id), 0)];
              PeersOk(r) && CountsOk(r, ms) && Known(r, id)
    {
      NormPlain(id);
      var p := Peer(Norm(id), 0);
      var r := ps + [p];
      assert r[|ps|] == p && p in r;
      forall i | 0 <= i < |ps|
        ensures ps[i].id != p.id
      {
        assert ps[i] in ps;
      }
      assert forall q | q in r :: q in ps || q == p;
    }

    /** Removes the peer by shifting down those after it. */
    method StateRemovePeer(id: string) returns (rc: int)
      requires Valid()
      modifies this
      ensures Valid() && messages == old(messages)
      ensures peers == if Norm(id) == "" then old(peers) else Removed(old(peers), id)
      ensures forall i: nat | Norm(id) != "" && FirstAt(old(peers), id, i) :: peers == old(peers)[..i] + old(peers)[i + 1..]
      ensures rc == 0 <==> Norm(id) != "" && Known(old(peers), id)
      ensures rc != 0 ==> peers == old(peers)
    {
      var norm := NormalizeId(id);
      NormPlain(id);
      if |norm| == 0 {
        return -1;
      }
      ghost var ps := peers;
      RemovedDistinct(ps, id);
      RemovedMembers(ps, id);
      var i := FindPeer(norm);
      if i == |peers| {
        NoMatch(peers, id, 0);
        return -1;
      }
      RemovedAt(peers, id, i);
      FirstUnique(peers, id, i);
      ShiftDown(i);
      rc := 0;
    }

    /** Moves everything after position `i` one place down. */
    method ShiftDown(i: nat)
      requires i < |peers|
      modifies this`peers
      ensures peers == old(peers)[..i] + old(peers)[i + 1..]
    {
      ghost var ps := peers;
      var j := i;
      while j < |peers| - 1
        invariant i <= j < |peers| == |ps|
        invariant forall k | 0 <= k < i :: peers[k] == ps[k]
        invariant forall k | i <= k < j :: peers[k] == ps[k + 1]
        invariant forall k | j <= k < |ps| :: peers[k] == ps[k]
      {
        peers := peers[j := peers[j + 1]];
        j := j + 1;
      }
      peers := peers[..j];
      GapClosed(peers, ps, i);
    }

    /** Adjusts the cached count of the first peer with this id, never below zero. */
    method CountPeer(id: string, delta: int)
      modifies this`peers
      ensures peers == Counted(old(peers), id, delta)
    {
      var i := FindPeer(id);
      if i < |peers| {
        CountedAt(peers, id, i, delta);
        var n := peers[i].ghostCount + delta;
        peers := peers[i := peers[i].(ghostCount := if n < 0 then 0 else n)];
      } else {
        NoMatch(peers, id, delta);
      }
    }

    method StateAddGhostMessage(to: string, text: string) returns (rc: int)
      requires Valid()
      modifies this
      ensures Valid()
      ensures rc == if AcceptsGhost(old(messages), to) then 0 else -1
      ensures rc == 0 <==> Norm(to) != "" && |old(messages)| < 1024
      ensures rc != 0 ==> peers == old(peers) && messages == old(messages)
      ensures rc == 0 ==> messages == old(messages) + [Message(Norm(to), text, false)]
                          && peers == Counted(old(peers), to, 1) && Tallied(old(peers), peers, to, 1)
    {
      var norm := NormalizeId(to);
      NormPlain(to);
      if |norm| == 0 {
        return -1;
      }
      if |messages| >= MAX_MESSAGES {
        return -1;
      }
      GhostAdded(peers, messages, to, text);
      CountedTallies(peers, to);
      messages := messages + [Message(norm, text, false)];
      CountPeer(norm, 1);
      CountedNorm(old(peers), to, 1);
      rc := 0;
    }

    static lemma {:induction false} CountedNorm(ps: seq<Peer>, id: string, delta: int)
      ensures Counted(ps, Norm(id), delta) == Counted(ps, id, delta)
    {
      NormPlain(id);
      if ps != [] {
        CountedNorm(ps[1..], id, delta);
      }
    }

    static lemma {:induction false} GhostAdded(ps: seq<Peer>, ms: seq<Message>, to: string, text: string)
      requires PeersOk(ps) && MessagesOk(ms) && CountsOk(ps, ms) && AcceptsGhost(ms, to)
      ensures var r := ms + [Message(Norm(to), text, false)];
              MessagesOk(r) && PeersOk(Counted(ps, to, 1)) && CountsOk(Counted(ps, to, 1), r)
    {
      NormPlain(to);
      var m := Message(Norm(to), text, false);
      var r := ms + [m];
      assert forall x | x in r :: x in ms || x == m;
      forall id
        ensures Undelivered(r, id) == Undelivered(ms, id) + if Norm(id) == Norm(to) then 1 else 0
      {
        UndeliveredAppend(ms, m, id);
      }
      CountedCounts(ps, ms, r, to, 1);
      CountedOk(ps, to, 1);
    }

    /** Marks and announces everything waiting for an id. */
    method StateDeliverGhostMessages(to: string) returns (delivered: int)
      requires Valid() && this as object != queue
      modifies this, queue, queue.ring
      ensures Valid()
      ensures Norm(to) == "" ==> delivered == 0 && peers == old(peers) && messages == old(messages)
                                 && queue.Contents() == old(queue.Contents())
      ensures Norm(to) != "" ==>
                && delivered == Undelivered(old(messages), to)
                && messages == Marked(old(messages), to)
                && peers == Counted(old(peers), to, Less(Undelivered(old(messages), to)))
                && queue.Contents() == Enqueued(old(queue.Contents()), Announcements(old(messages), Norm(to)))
      ensures Norm(to) != "" ==>
                && delivered == |WaitingAt(old(messages), to)| && Cleared(old(messages), messages, to)
                && Zeroed(old(peers), peers, to)
    {
      var norm := NormalizeId(to);
      NormPlain(to);
      if |norm| == 0 {
        return 0;
      }
      DeliveryOutcome(peers, messages, to);
      UndeliveredExactly(messages, to);
      MarkedClears(messages, to);
      CountedZeroes(peers, messages, to);
      delivered := Deliver(norm);
    }

    method Deliver(norm: string) returns (delivered: int)
      requires queue.Valid() && this as object != queue && Norm(norm) == norm
      modifies this, queue, queue.ring
      ensures queue.Valid() && messages == Marked(old(messages), norm)
      ensures delivered == Undelivered(old(messages), norm)
      ensures peers == Counted(old(peers), norm, Less(Undelivered(old(messages), norm)))
      ensures queue.Contents() == Enqueued(old(queue.Contents()), Announcements(old(messages), norm))
    {
      delivered := DeliverSweep(norm);
      CountPeer(norm, -delivered);
    }

    /** What a delivery leaves behind, in terms of the normal form the code works with. */
    static lemma {:induction false} DeliveryOutcome(ps: seq<Peer>, ms: seq<Message>, to: string)
      requires PeersOk(ps) && MessagesOk(ms) && CountsOk(ps, ms)
      ensures var n := Undelivered(ms, to);
              && Undelivered(ms, Norm(to)) == n && Marked(ms, Norm(to)) == Marked(ms, to)
              && Counted(ps, Norm(to), Less(n)) == Counted(ps, to, Less(n))
              && PeersOk(Counted(ps, to, Less(n))) && MessagesOk(Marked(ms, to))
              && CountsOk(Counted(ps, to, Less(n)), Marked(ms, to))
    {
      DeliverCounts(ps, ms, to);
      CountedOk(ps, to, Less(Undelivered(ms, to)));
      MarkedEvents(ms, to);
      SameTarget(ms, to);
      CountedNorm(ps, to, Less(Undelivered(ms, to)));
    }

    method DeliverSweep(norm: string) returns (delivered: int)
      requires queue.Valid() && this as object != queue && Norm(norm) == norm
      modifies this`messages, queue, queue.ring
      ensures queue.Valid() && messages == Marked(old(messages), norm)
      ensures delivered == Undelivered(old(messages), norm)
      ensures queue.Contents() == Enqueued(old(queue.Contents()), Announcements(old(messages), norm))
    {
      ghost var l, q0 := messages, queue.Contents();
      delivered := 0;
      var i := 0;
      while i < |messages|
        invariant queue.Valid() && Sweep(l, messages, i, norm, delivered, q0, queue.Contents())
      {
        delivered := DeliverAt(i, norm, delivered, l, q0);
        i := i + 1;
      }
      assert l[..i] == l && messages[..i] == messages;
    }

    /** One turn of the sweep. */
    method DeliverAt(i: nat, norm: string, n: int, ghost l: seq<Message>, ghost q0: seq<Event>) returns (delivered: int)
      requires queue.Valid() && this as object != queue && Norm(norm) == norm
      requires i < |messages| && Sweep(l, messages, i, norm, n, q0, queue.Contents())
      modifies this`messages, queue, queue.ring
      ensures queue.Valid() && Sweep(l, messages, i + 1, norm, delivered, q0, queue.Contents())
    {
      SweepNext(l, messages, i, norm, n, q0, queue.Contents());
      delivered := n;
      var a := NormalizeId(messages[i].to);
      if a == norm && !messages[i].delivered {
        var e := Event(true, norm, messages[i].text);
        messages := messages[i := messages[i].(delivered := true)];
        delivered := delivered + 1;
        var rc := queue.Push(e);
      }
    }

    method StateGetGhostCount(to: string) returns (count: nat)
      ensures count == if Norm(to) == "" then 0 else Undelivered(messages, to)
      ensures Norm(to) != "" ==> count == |WaitingAt(messages, to)|
    {
      UndeliveredExactly(messages, to);
      var norm := NormalizeId(to);
      NormPlain(to);
      if |norm| == 0 {
        return 0;
      }
      count := 0;
      var i := 0;
      while i < |messages|
        invariant 0 <= i <= |messages| && count == Undelivered(messages[..i], to)
      {
        assert messages[..i + 1] == messages[..i] + [messages[i]];
        UndeliveredAppend(messages[..i], messages[i], to);
        var a := NormalizeId(messages[i].to);
        if a == norm && !messages[i].delivered {
          count := count + 1;
        }
        i := i + 1;
      }
      assert messages[..i] == messages;
    }
  }
}
