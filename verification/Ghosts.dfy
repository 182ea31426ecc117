/**
 Messages stored for peers that cannot be reached ("ghost" messages): accepted into a
 ledger, delivered at most once each, and announced through the event queue.
 */
module Ghosts {
  import opened EventQueue
  import opened Sequences

  const MAX_PEERS: nat := 256
  const MAX_MESSAGES: nat := 1024
  const ID_LENGTH: nat := 63

  // ----- identifiers -----

  function Stripped(s: string): string
  {
    if s == "" then "" else (if s[0] == '<' || s[0] == '>' then "" else [s[0]]) + Stripped(s[1..])
  }

  function Truncated(s: string): string { if |s| <= ID_LENGTH then s else s[..ID_LENGTH] }

  /** An id without angle brackets, cut to 63 characters. */
  function Norm(s: string): string { Truncated(Stripped(s)) }

  ghost predicate Plain(s: string) { |s| <= ID_LENGTH && '<' !in s && '>' !in s }

  lemma {:induction false} StrippedPlain(s: string)
    ensures '<' !in Stripped(s) && '>' !in Stripped(s)
  {
    if s != "" {
      StrippedPlain(s[1..]);
    }
  }

  lemma {:induction false} PlainStripped(s: string)
    requires '<' !in s && '>' !in s
    ensures Stripped(s) == s
  {
    if s != "" {
      assert s[0] in s;
      PlainStripped(s[1..]);
    }
  }

  /** Normalised ids are plain, and normalising them again changes nothing. */
  lemma {:induction false} NormPlain(s: string)
    ensures Plain(Norm(s)) && Norm(Norm(s)) == Norm(s)
  {
    StrippedPlain(s);
    PlainStripped(Norm(s));
  }

  lemma {:induction false} StrippedConcat(a: string, b: string)
    ensures Stripped(a + b) == Stripped(a) + Stripped(b)
  {
    if a == "" {
      assert a + b == b;
    } else {
      var h := if a[0] == '<' || a[0] == '>' then "" else [a[0]];
      StrippedConcat(a[1..], b);
      assert (a + b)[1..] == a[1..] + b && (a + b)[0] == a[0];
      assert Stripped(a + b) == h + Stripped(a[1..] + b);
      Assoc(h, Stripped(a[1..]), Stripped(b));
    }
  }

  /** Stripping drops the brackets and keeps every other character as often as it occurs. */
  lemma {:induction false} StrippedCounts(s: string, c: char)
    ensures multiset(Stripped(s))[c] == if c == '<' || c == '>' then 0 else multiset(s)[c]
  {
    if s != "" {
      StrippedCounts(s[1..], c);
      assert s == [s[0]] + s[1..];
    }
  }

  lemma {:induction false} StrippedLength(s: string)
    ensures |Stripped(s)| == |s| - multiset(s)['<'] - multiset(s)['>']
  {
    if s != "" {
      StrippedLength(s[1..]);
      assert s == [s[0]] + s[1..];
    }
  }

  /** A bracket makes no difference, wherever it stands. */
  lemma {:induction false} BracketIgnored(a: string, c: char, b: string)
    requires c == '<' || c == '>'
    ensures Stripped(a + [c] + b) == Stripped(a + b) && Norm(a + [c] + b) == Norm(a + b)
  {
    StrippedConcat(a, [c]);
    StrippedConcat(a + [c], b);
    StrippedConcat(a, b);
    assert [c][1..] == "";
    assert Stripped([c]) == "";
  }

  /** An id and the same id in angle brackets are one. */
  lemma {:induction false} NormBracketed(s: string)
    ensures Norm("<" + s + ">") == Norm(s)
  {
    BracketIgnored("<" + s, '>', "");
    BracketIgnored("", '<', s);
    assert "<" + s + "" == "" + ['<'] + s && "" + s == s && ("<" + s) + ['>'] + "" == "<" + s + ">";
  }

  /** The first 63 characters of what is left without brackets, or all of it. */
  lemma {:induction false} NormIsPrefix(s: string)
    ensures Norm(s) <= Stripped(s) && |Norm(s)| == if |Stripped(s)| < 63 then |Stripped(s)| else 63
  {
  }

  /** The copying loop of the normaliser. */
  method NormalizeId(input: string) returns (output: string)
    ensures output == Norm(input)
    ensures Plain(output) && output <= Stripped(input) && (|output| < 63 ==> output == Stripped(input))
  {
    NormPlain(input);
    NormIsPrefix(input);
    output := "";
    var i := 0;
    while i < |input| && |output| < ID_LENGTH
      invariant 0 <= i <= |input| && |output| <= ID_LENGTH
      invariant output == Stripped(input[..i])
    {
      assert input[..i + 1] == input[..i] + [input[i]];
      StrippedConcat(input[..i], [input[i]]);
      assert Stripped([input[i]]) == if input[i] == '<' || input[i] == '>' then "" else [input[i]];
      if input[i] != '<' && input[i] != '>' {
        output := output + [input[i]];
      }
      i := i + 1;
    }
    assert input == input[..i] + input[i..];
    StrippedConcat(input[..i], input[i..]);
    if i == |input| {
      assert input[..i] == input;
    }
  }

  // ----- the ledger -----

  datatype Peer = Peer(id: string, ghostCount: int)

  datatype Message = Message(to: string, text: string, delivered: bool)

  predicate Awaits(m: Message, id: string) { Norm(m.to) == Norm(id) && !m.delivered }

  /** How many stored messages for `id` have not been delivered. */
  function Undelivered(ms: seq<Message>, id: string): nat
  {
    if ms == [] then 0 else (if Awaits(ms[0], id) then 1 else 0) + Undelivered(ms[1..], id)
  }

  function Announce(m: Message, id: string): Event { Event(true, id, m.text) }

  /** The messages after everything waiting for `id` has been marked delivered. */
  function Marked(ms: seq<Message>, id: string): (r: seq<Message>)
    ensures |r| == |ms|
  {
    if ms == [] then []
    else [if Awaits(ms[0], id) then ms[0].(delivered := true) else ms[0]] + Marked(ms[1..], id)
  }

  /** The events that announce them, in order. */
  function Announcements(ms: seq<Message>, id: string): seq<Event>
  {
    if ms == [] then [] else (if Awaits(ms[0], id) then [Announce(ms[0], id)] else []) + Announcements(ms[1..], id)
  }

  /** One event for every message ever delivered. */
  function DeliveredEvents(ms: seq<Message>): multiset<Event>
  {
    if ms == [] then multiset{}
    else (if ms[0].delivered then multiset{Announce(ms[0], ms[0].to)} else multiset{}) + DeliveredEvents(ms[1..])
  }

  /** Pushing events one by one onto a bounded queue. */
  function Enqueued(q: seq<Event>, es: seq<Event>): seq<Event>
    decreases |es|
  {
    if es == [] then q
    else Enqueued(if |q| >= QUEUE_SIZE then q else q + [es[0]], es[1..])
  }

  /** The first peer with this id has its count changed to at least zero. */
  function Counted(ps: seq<Peer>, id: string, delta: int): (r: seq<Peer>)
    ensures |r| == |ps| && forall i | 0 <= i < |ps| :: r[i].id == ps[i].id
  {
    if ps == [] then []
    else if Norm(ps[0].id) == Norm(id) then
      [ps[0].(ghostCount := if ps[0].ghostCount + delta < 0 then 0 else ps[0].ghostCount + delta)] + ps[1..]
    else [ps[0]] + Counted(ps[1..], id, delta)
  }

  function Less(n: nat): int { 0 - n as int }

  function Removed(ps: seq<Peer>, id: string): seq<Peer>
  {
    if ps == [] then [] else if Norm(ps[0].id) == Norm(id) then ps[1..] else [ps[0]] + Removed(ps[1..], id)
  }

  predicate Known(ps: seq<Peer>, id: string) { exists p :: p in ps && Norm(p.id) == Norm(id) }

  // ----- whole runs -----

  /** The ledger, the queue, and a record of what was accepted, reported, pushed and popped. */
  datatype World = World(peers: seq<Peer>, messages: seq<Message>, queue: seq<Event>,
                         accepted: multiset<string>, reported: multiset<string>, popped: seq<Event>)

  const EMPTY: World := World([], [], [], multiset{}, multiset{}, [])

  datatype Op =
    | AddPeer(id: string)
    | RemovePeer(id: string)
    | AddGhost(to: string, text: string)
    | DeliverGhosts(to: string)
    | PushOther(peer: string, text: string)
    | PopEvent

  function PeersAfterAdd(ps: seq<Peer>, id: string): seq<Peer>
  {
    if Norm(id) == "" || Known(ps, id) || |ps| >= MAX_PEERS then ps else ps + [Peer(Norm(id), 0)]
  }

  predicate AcceptsGhost(ms: seq<Message>, to: string) { Norm(to) != "" && |ms| < MAX_MESSAGES }

  function Apply(w: World, op: Op): World
  {
    match op
    case AddPeer(id) => w.(peers := PeersAfterAdd(w.peers, id))
    case RemovePeer(id) => if Norm(id) == "" then w else w.(peers := Removed(w.peers, id))
    case AddGhost(to, text) =>
      if !AcceptsGhost(w.messages, to) then w
      else w.(messages := w.messages + [Message(Norm(to), text, false)], peers := Counted(w.peers, to, 1),
              accepted := w.accepted + multiset{Norm(to)})
    case DeliverGhosts(to) =>
      if Norm(to) == "" then w
      else
        var n: nat := Undelivered(w.messages, to);
        w.(messages := Marked(w.messages, to), peers := Counted(w.peers, to, Less(n)),
           queue := Enqueued(w.queue, Announcements(w.messages, Norm(to))),
           reported := w.reported[Norm(to) := w.reported[Norm(to)] + n])
    case PushOther(peer, text) => w.(queue := Enqueued(w.queue, [Event(false, peer, text)]))
    case PopEvent => if w.queue == [] then w else w.(queue := w.queue[1..], popped := w.popped + [w.queue[0]])
  }

  function AfterOps(w: World, ops: seq<Op>): World
  {
    if ops == [] then w else Apply(AfterOps(w, ops[..|ops| - 1]), ops[|ops| - 1])
  }

  ghost function GhostEvents(es: seq<Event>): multiset<Event>
  {
    if es == [] then multiset{} else OneGhost(es[0]) + GhostEvents(es[1..])
  }

  ghost function OneGhost(e: Event): multiset<Event> { if e.forGhost then multiset{e} else multiset{} }

  ghost predicate PeersOk(ps: seq<Peer>)
  {
    && |ps| <= MAX_PEERS && DistinctPeers(ps)
    && forall p | p in ps :: p.id != "" && Norm(p.id) == p.id
  }

  ghost predicate DistinctPeers(ps: seq<Peer>)
  {
    forall i, j | 0 <= i < j < |ps| :: ps[i].id != ps[j].id
  }

  ghost predicate MessagesOk(ms: seq<Message>)
  {
    |ms| <= MAX_MESSAGES && forall m | m in ms :: m.to != "" && Norm(m.to) == m.to
  }

  /** A peer's cached count is never negative and never more than what is really waiting. */
  ghost predicate CountsOk(ps: seq<Peer>, ms: seq<Message>)
  {
    forall p | p in ps :: 0 <= p.ghostCount <= Undelivered(ms, p.id)
  }

  /** Everything accepted for an id has been reported delivered or is still waiting. */
  ghost predicate Conserved(w: World)
  {
    forall id :: Norm(id) == id ==> w.accepted[id] == w.reported[id] + Undelivered(w.messages, id)
  }

  /** No delivered message has more than one event, whether still queued or already popped. */
  ghost predicate AtMostOnce(w: World)
  {
    GhostEvents(w.popped) + GhostEvents(w.queue) <= DeliveredEvents(w.messages)
  }

  ghost predicate Good(w: World)
  {
    && PeersOk(w.peers) && MessagesOk(w.messages) && CountsOk(w.peers, w.messages) && |w.queue| <= QUEUE_SIZE
    && Conserved(w) && AtMostOnce(w)
  }

  // ----- messages -----

  lemma {:induction false} UndeliveredAppend(ms: seq<Message>, m: Message, id: string)
    ensures Undelivered(ms + [m], id) == Undelivered(ms, id) + if Awaits(m, id) then 1 else 0
  {
    if ms == [] {
      assert ms + [m] == [m];
    } else {
      UndeliveredAppend(ms[1..], m, id);
      assert (ms + [m])[1..] == ms[1..] + [m];
    }
  }

  lemma {:induction false} DeliveredAppend(ms: seq<Message>, m: Message)
    requires !m.delivered
    ensures DeliveredEvents(ms + [m]) == DeliveredEvents(ms)
  {
    if ms == [] {
      assert ms + [m] == [m];
    } else {
      DeliveredAppend(ms[1..], m);
      assert (ms + [m])[1..] == ms[1..] + [m];
    }
  }

  lemma {:induction false} UndeliveredNorm(ms: seq<Message>, id: string)
    ensures Undelivered(ms, Norm(id)) == Undelivered(ms, id)
  {
    NormPlain(id);
    if ms != [] {
      UndeliveredNorm(ms[1..], id);
    }
  }

  /** Delivering leaves nothing for the id and touches nothing else. */
  lemma {:induction false} MarkedUndelivered(ms: seq<Message>, id: string, other: string)
    ensures Undelivered(Marked(ms, id), other) == if Norm(other) == Norm(id) then 0 else Undelivered(ms, other)
  {
    if ms != [] {
      MarkedUndelivered(ms[1..], id, other);
      assert Marked(ms, id)[1..] == Marked(ms[1..], id);
    }
  }

  lemma {:induction false} AnnouncementCount(ms: seq<Message>, id: string)
    ensures |Announcements(ms, id)| == Undelivered(ms, id)
  {
    if ms != [] {
      AnnouncementCount(ms[1..], id);
    }
  }

  lemma {:induction false} FirstAnnounced(ms: seq<Message>, id: string)
    requires ms != []
    ensures multiset(Announcements(ms, id)) ==
            (if Awaits(ms[0], id) then multiset{Announce(ms[0], id)} else multiset{}) + multiset(Announcements(ms[1..], id))
  {
    var e := if Awaits(ms[0], id) then [Announce(ms[0], id)] else [];
    assert multiset(e + Announcements(ms[1..], id)) == multiset(e) + multiset(Announcements(ms[1..], id));
  }

  lemma {:induction false} MarkedOk(ms: seq<Message>, id: string)
    requires MessagesOk(ms)
    ensures MessagesOk(Marked(ms, id))
  {
    var r := Marked(ms, id);
    forall m | m in r
      ensures m.to != "" && Norm(m.to) == m.to
    {
      var k :| 0 <= k < |r| && r[k] == m;
      MarkedExactly(ms, id, k);
      assert ms[k] in ms;
    }
  }

  lemma {:induction false} FirstDelivered(ms: seq<Message>, id: string)
    requires ms != [] && Norm(ms[0].to) == ms[0].to && Norm(id) == id
    ensures DeliveredEvents(Marked(ms, id)) ==
            (if ms[0].delivered then multiset{Announce(ms[0], ms[0].to)} else multiset{})
            + (if Awaits(ms[0], id) then multiset{Announce(ms[0], id)} else multiset{})
            + DeliveredEvents(Marked(ms[1..], id))
  {
    assert Marked(ms, id)[1..] == Marked(ms[1..], id);
  }

  /** For the ledger an id and its normal form are the same. */
  lemma {:induction false} SameTarget(ms: seq<Message>, id: string)
    ensures Marked(ms, Norm(id)) == Marked(ms, id) && Undelivered(ms, Norm(id)) == Undelivered(ms, id)
  {
    NormPlain(id);
    if ms != [] {
      SameTarget(ms[1..], id);
    }
  }

  lemma {:induction false} MarkedNormEvents(ms: seq<Message>, id: string)
    requires (forall m | m in ms :: Norm(m.to) == m.to) && Norm(id) == id
    ensures DeliveredEvents(Marked(ms, id)) == DeliveredEvents(ms) + multiset(Announcements(ms, id))
  {
    if ms != [] {
      assert ms[0] in ms && forall m | m in ms[1..] :: m in ms;
      MarkedNormEvents(ms[1..], id);
      FirstDelivered(ms, id);
      FirstAnnounced(ms, id);
    }
  }

  /** Every announcement stands for one newly delivered message. */
  lemma {:induction false} MarkedEvents(ms: seq<Message>, id: string)
    requires MessagesOk(ms)
    ensures DeliveredEvents(Marked(ms, id)) == DeliveredEvents(ms) + multiset(Announcements(ms, Norm(id)))
    ensures MessagesOk(Marked(ms, id))
  {
    NormPlain(id);
    SameTarget(ms, id);
    MarkedNormEvents(ms, Norm(id));
    MarkedOk(ms, id);
  }

  /** A delivery marks what is addressed to the id, and changes nothing else of any message. */
  lemma {:induction false} MarkedExactly(ms: seq<Message>, id: string, k: nat)
    requires k < |ms|
    ensures Norm(ms[k].to) == Norm(id) ==> Marked(ms, id)[k] == Message(ms[k].to, ms[k].text, true)
    ensures Norm(ms[k].to) != Norm(id) ==> Marked(ms, id)[k] == ms[k]
  {
    if k > 0 {
      MarkedExactly(ms[1..], id, k - 1);
    }
  }

  /** The positions of what is waiting for an id. */
  ghost function WaitingAt(ms: seq<Message>, id: string): set<nat>
  {
    set k: nat | k < |ms| && Norm(ms[k].to) == Norm(id) && !ms[k].delivered
  }

  lemma {:induction false} WaitingAppend(ms: seq<Message>, m: Message, id: string)
    ensures |WaitingAt(ms + [m], id)| == |WaitingAt(ms, id)| + if Awaits(m, id) then 1 else 0
  {
    var a, b := WaitingAt(ms, id), WaitingAt(ms + [m], id);
    forall k: nat
      ensures k in b <==> k in a || (k == |ms| && Awaits(m, id))
    {
      WaitsAt(ms, m, id, k);
    }
    var last := |ms|;
    assert last !in a;
    assert b == a + if Awaits(m, id) then {last} else {};
  }

  lemma {:induction false} WaitsAt(ms: seq<Message>, m: Message, id: string, k: nat)
    ensures k in WaitingAt(ms + [m], id) <==> k in WaitingAt(ms, id) || (k == |ms| && Awaits(m, id))
  {
    if k < |ms| {
      assert (ms + [m])[k] == ms[k];
    }
  }

  lemma {:induction false} UndeliveredExactly(ms: seq<Message>, id: string)
    ensures Undelivered(ms, id) == |WaitingAt(ms, id)|
  {
    if ms == [] {
      assert WaitingAt(ms, id) == {};
    } else {
      var front, m := ms[..|ms| - 1], ms[|ms| - 1];
      UndeliveredExactly(front, id);
      UndeliveredAppend(front, m, id);
      WaitingAppend(front, m, id);
      assert front + [m] == ms;
    }
  }

  /** The announcement of a waiting message says to whom and what, and comes after those of the messages before it. */
  lemma {:induction false} AnnouncedInOrder(ms: seq<Message>, id: string, k: nat)
    requires k < |ms| && Awaits(ms[k], id)
    ensures Undelivered(ms[..k], id) < |Announcements(ms, id)|
    ensures Announcements(ms, id)[Undelivered(ms[..k], id)] == Event(true, id, ms[k].text)
  {
    AnnouncementCount(ms, id);
    if k > 0 {
      AnnouncedInOrder(ms[1..], id, k - 1);
      assert ms[..k][1..] == ms[1..][..k - 1] && ms[..k][0] == ms[0];
    }
  }

  // ----- events -----

  lemma {:induction false} GhostAppend(es: seq<Event>, e: Event)
    ensures GhostEvents(es + [e]) == GhostEvents(es) + OneGhost(e)
  {
    if es == [] {
      assert es + [e] == [e] && [e][1..] == [];
    } else {
      GhostAppend(es[1..], e);
      assert (es + [e])[1..] == es[1..] + [e] && (es + [e])[0] == es[0];
    }
  }

  /** Events are queued in order until the queue is full; the rest are lost. */
  lemma {:induction false} EnqueuedExactly(q: seq<Event>, es: seq<Event>)
    requires |q| <= 1024
    ensures Enqueued(q, es) == q + if |q| + |es| <= 1024 then es else es[..1024 - |q|]
    decreases |es|
  {
    if es != [] {
      EnqueuedExactly(if |q| >= QUEUE_SIZE then q else q + [es[0]], es[1..]);
    }
  }

  lemma {:induction false} EnqueuedGhosts(q: seq<Event>, es: seq<Event>)
    requires |q| <= QUEUE_SIZE && forall e | e in es :: e.forGhost
    ensures |Enqueued(q, es)| <= QUEUE_SIZE
    ensures GhostEvents(Enqueued(q, es)) <= GhostEvents(q) + multiset(es)
    decreases |es|
  {
    if es != [] {
      assert es[0] in es && forall e | e in es[1..] :: e in es;
      var next := if |q| >= QUEUE_SIZE then q else q + [es[0]];
      PushedGhost(q, es[0]);
      EnqueuedGhosts(next, es[1..]);
      FirstOfAll(es);
      Chain(GhostEvents(Enqueued(next, es[1..])), GhostEvents(next), GhostEvents(q), multiset{es[0]}, multiset(es[1..]));
    }
  }

  lemma {:induction false} PushedGhost(q: seq<Event>, e: Event)
    requires e.forGhost
    ensures GhostEvents(if |q| >= QUEUE_SIZE then q else q + [e]) <= GhostEvents(q) + multiset{e}
  {
    GhostAppend(q, e);
  }

  lemma {:induction false} FirstOfAll(es: seq<Event>)
    requires es != []
    ensures multiset(es) == multiset{es[0]} + multiset(es[1..])
  {
    assert es == [es[0]] + es[1..];
  }

  lemma {:induction false} Chain(a: multiset<Event>, b: multiset<Event>, c: multiset<Event>, d: multiset<Event>, e: multiset<Event>)
    requires a <= b + e && b <= c + d
    ensures a <= c + (d + e)
  {
    assert b + e <= c + d + e;
  }

  lemma {:induction false} AnnouncementsAreGhosts(ms: seq<Message>, id: string)
    ensures forall e | e in Announcements(ms, id) :: e.forGhost
  {
    if ms != [] {
      AnnouncementsAreGhosts(ms[1..], id);
    }
  }

  // ----- peers -----

  lemma {:induction false} CountedCounts(ps: seq<Peer>, ms: seq<Message>, ms': seq<Message>, id: string, delta: int)
    requires PeersOk(ps) && CountsOk(ps, ms)
    requires forall p | p in ps :: Undelivered(ms', p.id) ==
               if Norm(p.id) == Norm(id) then Undelivered(ms, p.id) + delta else Undelivered(ms, p.id)
    ensures CountsOk(Counted(ps, id, delta), ms')
  {
    if ps != [] {
      assert ps[0] in ps && forall p | p in ps[1..] :: p in ps;
      if Norm(ps[0].id) == Norm(id) {
        forall p | p in ps[1..]
          ensures Norm(p.id) != Norm(id)
        {
          var i :| 0 <= i < |ps[1..]| && ps[1..][i] == p;
          assert ps[i + 1] == p && ps[0].id != ps[i + 1].id;
        }
      } else {
        CountedCounts(ps[1..], ms, ms', id, delta);
      }
    }
  }

  lemma {:induction false} RemovedMembers(ps: seq<Peer>, id: string)
    ensures forall p | p in Removed(ps, id) :: p in ps
    ensures |Removed(ps, id)| <= |ps|
  {
    if ps != [] {
      RemovedMembers(ps[1..], id);
      assert forall p | p in ps[1..] :: p in ps;
    }
  }

  lemma {:induction false} RemovedDistinct(ps: seq<Peer>, id: string)
    requires DistinctPeers(ps)
    ensures DistinctPeers(Removed(ps, id))
  {
    if ps != [] && Norm(ps[0].id) != Norm(id) {
      var t := ps[1..];
      var r := Removed(t, id);
      RemovedDistinct(t, id);
      RemovedMembers(t, id);
      forall i | 0 <= i < |r|
        ensures r[i].id != ps[0].id
      {
        assert r[i] in t;
        var j :| 0 <= j < |t| && t[j] == r[i];
        assert ps[j + 1] == r[i];
      }
      PrependPeer(ps[0], r);
    }
  }

  lemma {:induction false} PrependPeer(p: Peer, r: seq<Peer>)
    requires DistinctPeers(r) && forall i | 0 <= i < |r| :: r[i].id != p.id
    ensures DistinctPeers([p] + r)
  {
    var s := [p] + r;
    forall i, j | 0 <= i < j < |s|
      ensures s[i].id != s[j].id
    {
      assert s[j] == r[j - 1] && (i == 0 || s[i] == r[i - 1]);
    }
  }

  /** At most one peer has an id, so removing the first match leaves none. */
  lemma {:induction false} RemovedGone(ps: seq<Peer>, id: string)
    requires PeersOk(ps)
    ensures !Known(Removed(ps, id), id)
  {
    if ps != [] {
      if Norm(ps[0].id) == Norm(id) {
        forall p | p in ps[1..]
          ensures Norm(p.id) != Norm(id)
        {
          var i :| 0 <= i < |ps[1..]| && ps[1..][i] == p;
          assert ps[i + 1] == p;
        }
      } else {
        RemovedGone(ps[1..], id);
      }
    }
  }

  lemma {:induction false} RemovePeerGood(w: World, id: string)
    requires Good(w)
    ensures Good(Apply(w, RemovePeer(id))) && (Norm(id) != "" ==> !Known(Apply(w, RemovePeer(id)).peers, id))
  {
    RemovedDistinct(w.peers, id);
    RemovedMembers(w.peers, id);
    RemovedGone(w.peers, id);
  }

  // ----- every operation keeps the world good -----

  lemma {:induction false} AddPeerGood(w: World, id: string)
    requires Good(w)
    ensures Good(Apply(w, AddPeer(id)))
  {
    NormPlain(id);
    var ps := PeersAfterAdd(w.peers, id);
    if ps != w.peers {
      forall i | 0 <= i < |w.peers|
        ensures w.peers[i].id != Norm(id)
      {
        assert w.peers[i] in w.peers;
      }
      assert forall p | p in ps :: p in w.peers || p == Peer(Norm(id), 0);
    }
  }

  lemma {:induction false} AddGhostGood(w: World, to: string, text: string)
    requires Good(w)
    ensures Good(Apply(w, AddGhost(to, text)))
  {
    if AcceptsGhost(w.messages, to) {
      NormPlain(to);
      var m := Message(Norm(to), text, false);
      var ms := w.messages + [m];
      assert forall x | x in ms :: x in w.messages || x == m;
      DeliveredAppend(w.messages, m);
      forall id
        ensures Undelivered(ms, id) == Undelivered(w.messages, id) + if Norm(id) == Norm(to) then 1 else 0
      {
        UndeliveredAppend(w.messages, m, id);
      }
      CountedCounts(w.peers, w.messages, ms, to, 1);
    }
  }

  lemma {:induction false} DeliverGood(w: World, to: string)
    requires Good(w)
    ensures Good(Apply(w, DeliverGhosts(to)))
  {
    if Norm(to) != "" {
      var v := Apply(w, DeliverGhosts(to));
      assert CountsOk(v.peers, v.messages) by {
        DeliverCounts(w.peers, w.messages, to);
      }
      assert PeersOk(v.peers) by {
        CountedOk(w.peers, to, Less(Undelivered(w.messages, to)));
      }
      DeliverConserves(w, to);
      DeliverOnce(w, to);
    }
  }

  lemma {:induction false} CountedOk(ps: seq<Peer>, id: string, delta: int)
    requires PeersOk(ps)
    ensures PeersOk(Counted(ps, id, delta))
  {
    var r := Counted(ps, id, delta);
    forall p | p in r
      ensures p.id != "" && Norm(p.id) == p.id
    {
      var i :| 0 <= i < |r| && r[i] == p;
      assert ps[i] in ps && r[i].id == ps[i].id;
    }
  }

  lemma {:induction false} AfterMarking(ms: seq<Message>, to: string)
    ensures forall id :: Undelivered(Marked(ms, to), id) == if Norm(id) == Norm(to) then 0 else Undelivered(ms, id)
    ensures forall id | Norm(id) == Norm(to) :: Undelivered(ms, id) == Undelivered(ms, to)
  {
    forall id
      ensures Undelivered(Marked(ms, to), id) == if Norm(id) == Norm(to) then 0 else Undelivered(ms, id)
      ensures Norm(id) == Norm(to) ==> Undelivered(ms, id) == Undelivered(ms, to)
    {
      MarkedUndelivered(ms, to, id);
      UndeliveredNorm(ms, id);
      UndeliveredNorm(ms, to);
    }
  }

  lemma {:induction false} DeliverCounts(ps: seq<Peer>, ms: seq<Message>, to: string)
    requires PeersOk(ps) && CountsOk(ps, ms)
    ensures CountsOk(Counted(ps, to, Less(Undelivered(ms, to))), Marked(ms, to))
  {
    AfterMarking(ms, to);
    CountedCounts(ps, ms, Marked(ms, to), to, Less(Undelivered(ms, to)));
  }

  lemma {:induction false} DeliverConserves(w: World, to: string)
    requires Conserved(w) && Norm(to) != ""
    ensures Conserved(Apply(w, DeliverGhosts(to)))
  {
    AfterMarking(w.messages, to);
    NormPlain(to);
  }

  lemma {:induction false} DeliverOnce(w: World, to: string)
    requires AtMostOnce(w) && MessagesOk(w.messages) && |w.queue| <= QUEUE_SIZE && Norm(to) != ""
    ensures var v := Apply(w, DeliverGhosts(to));
            AtMostOnce(v) && MessagesOk(v.messages) && |v.queue| <= QUEUE_SIZE
  {
    var es := Announcements(w.messages, Norm(to));
    MarkedEvents(w.messages, to);
    AnnouncementsAreGhosts(w.messages, Norm(to));
    EnqueuedGhosts(w.queue, es);
    var v := Apply(w, DeliverGhosts(to));
    assert GhostEvents(w.popped) + (GhostEvents(w.queue) + multiset(es)) == GhostEvents(w.popped) + GhostEvents(w.queue) + multiset(es);
  }

  lemma {:induction false} QueueGood(w: World, op: Op)
    requires Good(w) && (op.PushOther? || op.PopEvent?)
    ensures Good(Apply(w, op))
  {
    if op.PushOther? {
      PushOnce(w.queue, Event(false, op.peer, op.text));
    } else {
      PopOnce(w);
    }
  }

  lemma {:induction false} PushOnce(q: seq<Event>, e: Event)
    requires |q| <= QUEUE_SIZE && !e.forGhost
    ensures |Enqueued(q, [e])| <= QUEUE_SIZE && GhostEvents(Enqueued(q, [e])) == GhostEvents(q)
  {
    GhostAppend(q, e);
    var next := if |q| >= QUEUE_SIZE then q else q + [e];
    assert [e][1..] == [] && Enqueued(next, []) == next;
    assert Enqueued(q, [e]) == Enqueued(next, [e][1..]);
  }

  lemma {:induction false} PopOnce(w: World)
    requires AtMostOnce(w)
    ensures AtMostOnce(Apply(w, PopEvent))
  {
    if w.queue != [] {
      GhostAppend(w.popped, w.queue[0]);
    }
  }

  lemma {:induction false} ApplyGood(w: World, op: Op)
    requires Good(w)
    ensures Good(Apply(w, op))
  {
    match op
    case AddPeer(id) => AddPeerGood(w, id);
    case RemovePeer(id) => RemovePeerGood(w, id);
    case AddGhost(to, text) => AddGhostGood(w, to, text);
    case DeliverGhosts(to) => DeliverGood(w, to);
    case PushOther(peer, text) => QueueGood(w, op);
    case PopEvent => QueueGood(w, op);
  }

  /**
   From an empty start, after any operations: peers are unique, accepted messages are delivered or
   waiting, every ghost event popped or queued stands for a delivered message of its own, and cached
   counts never exceed what is waiting.
   */
  lemma {:induction false} EveryRunGood(ops: seq<Op>)
    ensures Good(AfterOps(EMPTY, ops))
  {
    if ops != [] {
      EveryRunGood(ops[..|ops| - 1]);
      ApplyGood(AfterOps(EMPTY, ops[..|ops| - 1]), ops[|ops| - 1]);
    }
  }
}
