/**
 The SYNC / SYNC_ACK / SYNC_CONFIRM handshake of a simultaneous open: what one endpoint
 does with each packet, and its connect and accept loops.

 An endpoint's attempts are numbered, and a packet bears the number of the attempt in
 which it was sent.  The code keeps a start time and a timestamp in their places and
 decides nothing by them; no function here does either.
 */
module Handshake {
  import opened Sequences

  const MAGIC: nat := 0x53494D4F
  const VERSION: nat := 1
  const HEADER: nat := 16
  const MAX_RETRY: nat := 5

  const SYNC: nat := 1
  const SYNC_ACK: nat := 2
  const SYNC_CONFIRM: nat := 3
  const DATA: nat := 4
  const KEEPALIVE: nat := 5
  const CLOSE: nat := 6

  datatype Phase = Idle | Connecting | Syncing | Established

  datatype Session = Session(phase: Phase, token: nat, initiator: bool, open: bool, attempt: nat)

  datatype Packet = Packet(magic: nat, version: nat, kind: nat, token: nat, len: nat, attempt: nat)

  /** The packets one send puts on the wire: none when the socket is closed. */
  function Sends(s: Session, kind: nat): seq<Packet>
  {
    if s.open then [Packet(MAGIC, VERSION, kind, s.token, HEADER, s.attempt)] else []
  }

  predicate WellMade(p: Packet) { p.len >= HEADER && p.magic == MAGIC && p.version == VERSION }

  datatype Outcome = Outcome(session: Session, replies: seq<Packet>, rc: int)

  /** What an endpoint makes of one incoming packet. */
  function Process(s: Session, p: Packet): Outcome
  {
    if !WellMade(p) then Outcome(s, [], -1)
    else if p.kind == SYNC then
      var u := s.(token := p.token);
      Outcome(if u.phase == Syncing then u.(phase := Established) else u, Sends(u, SYNC_ACK), 0)
    else if p.kind == SYNC_ACK && s.token == p.token then
      Outcome(s.(phase := Established), Sends(s, SYNC_CONFIRM), 0)
    else if p.kind == SYNC_CONFIRM && s.phase == Syncing then
      Outcome(s.(phase := Established), [], 0)
    else if p.kind == CLOSE then Outcome(s.(phase := Idle), [], 0)
    else Outcome(s, [], 0)
  }

  // ----- what a packet may do -----

  /** What is to be sent, under the session's token and attempt: one packet, if the socket is open. */
  ghost predicate SentOnly(s: Session, kind: nat, token: nat, replies: seq<Packet>)
  {
    && (!s.open ==> replies == [])
    && (s.open ==> |replies| == 1 && WellMade(replies[0]) && replies[0].kind == kind && replies[0].token == token
                   && replies[0].len == 16 && replies[0].attempt == s.attempt)
  }

  ghost predicate Ignored(p: Packet) { p.len < 16 || p.magic != 0x53494D4F || p.version != 1 }

  /**
   The effect of a packet on a session, kind by kind (1 SYNC, 2 SYNC_ACK, 3 SYNC_CONFIRM, 6 CLOSE, as they
   are numbered on the wire): `t` is the session afterwards.
   */
  ghost predicate Handled(s: Session, p: Packet, t: Session, replies: seq<Packet>, rc: int)
  {
    && t.open == s.open && t.initiator == s.initiator && t.attempt == s.attempt
    && (rc == if Ignored(p) then -1 else 0)
    && (Ignored(p) ==> t == s && replies == [])
    && (!Ignored(p) && p.kind == 1 ==>
          && t.token == p.token && SentOnly(s, 2, p.token, replies)
          && (s.phase == Syncing ==> t.phase == Established) && (s.phase != Syncing ==> t.phase == s.phase))
    && (!Ignored(p) && p.kind == 2 && p.token == s.token ==>
          t.token == s.token && t.phase == Established && SentOnly(s, 3, s.token, replies))
    && (!Ignored(p) && p.kind == 2 && p.token != s.token ==> t == s && replies == [])
    && (!Ignored(p) && p.kind == 3 ==>
          && t.token == s.token && replies == []
          && (s.phase == Syncing ==> t.phase == Established) && (s.phase != Syncing ==> t.phase == s.phase))
    && (!Ignored(p) && p.kind == 6 ==> t.phase == Idle && t.token == s.token && replies == [])
    && (!Ignored(p) && p.kind !in {1, 2, 3, 6} ==> t == s && replies == [])
  }

  lemma {:induction false} ProcessHandles(s: Session, p: Packet)
    ensures var r := Process(s, p); Handled(s, p, r.session, r.replies, r.rc)
  {
  }

  // ----- one endpoint, in place -----

  /** What a wait brings: a packet, or nothing. */
  datatype Wait = Nothing | Got(packet: Packet)

  function Received(s: Session, w: Wait): Outcome
  {
    if w.Got? && s.open && w.packet.len >= HEADER then Process(s, w.packet) else Outcome(s, [], -1)
  }

  /** The waiting loop shared by both roles; only a connecting endpoint repeats its SYNC. */
  function Attempt(s: Session, waits: seq<Wait>, i: nat): Outcome
    requires i <= MAX_RETRY && |waits| == MAX_RETRY
    decreases MAX_RETRY - i
  {
    if i == MAX_RETRY then Outcome(s.(phase := Idle, open := false), [], -1)
    else
      var r := Received(s, waits[i]);
      if r.rc == 0 && r.session.phase == Established then r.(rc := 0)
      else
        var again := if r.session.initiator && i < MAX_RETRY - 1 then Sends(r.session, SYNC) else [];
        var rest := Attempt(r.session, waits, i + 1);
        Outcome(rest.session, r.replies + again + rest.replies, rest.rc)
  }

  /** An attempt succeeds exactly when it leaves the session established; otherwise the session is idle and closed. */
  lemma {:induction false} AttemptOutcome(s: Session, waits: seq<Wait>, i: nat)
    requires i <= MAX_RETRY && |waits| == MAX_RETRY
    ensures var r := Attempt(s, waits, i);
            && (r.rc == 0 <==> r.session.phase == Established)
            && (r.rc != 0 ==> r.rc == -1 && r.session.phase == Idle && !r.session.open)
    decreases MAX_RETRY - i
  {
    if i < MAX_RETRY {
      AttemptOutcome(Received(s, waits[i]).session, waits, i + 1);
    }
  }

  // ----- when an attempt succeeds -----

  /** A wait brings a packet of this kind that is not ignored. */
  ghost predicate Brings(w: Wait, kind: nat) { w.Got? && !Ignored(w.packet) && w.packet.kind == kind }

  /** The token held before wait `k`: that of the last SYNC since wait `i`, or else the one there was. */
  ghost function TokenBefore(token: nat, waits: seq<Wait>, i: nat, k: nat): nat
    requires i <= k <= |waits|
    decreases k - i
  {
    if i == k then token else TokenBefore(if Brings(waits[i], SYNC) then waits[i].packet.token else token, waits, i + 1, k)
  }

  /** Wait `k` opens the connection, whatever the other waits since `i` bring. */
  ghost predicate Opens(s: Session, waits: seq<Wait>, i: nat, k: nat)
    requires i <= k < |waits|
  {
    || (s.phase == Syncing && (Brings(waits[k], SYNC) || Brings(waits[k], SYNC_CONFIRM))
        && forall j | i <= j < k :: !Brings(waits[j], CLOSE))
    || (Brings(waits[k], SYNC_ACK) && waits[k].packet.token == TokenBefore(s.token, waits, i, k))
  }

  lemma {:induction false} OpensLater(s: Session, waits: seq<Wait>, i: nat, k: nat)
    requires i < k < |waits| && s.open && (s.phase == Syncing || s.phase == Idle) && !Opens(s, waits, i, i)
    ensures Opens(s, waits, i, k) <==> Opens(Received(s, waits[i]).session, waits, i + 1, k)
  {
    var t := Received(s, waits[i]).session;
    assert TokenBefore(s.token, waits, i, k) == TokenBefore(t.token, waits, i + 1, k);
    assert TokenBefore(s.token, waits, i, i) == s.token;
    if Brings(waits[i], CLOSE) {
      assert t.phase != Syncing;
    } else {
      assert t.phase == s.phase;
    }
  }

  lemma {:induction false} OpensNow(s: Session, waits: seq<Wait>, i: nat)
    requires i < |waits| && s.open && (s.phase == Syncing || s.phase == Idle)
    ensures var r := Received(s, waits[i]);
            && (Opens(s, waits, i, i) <==> r.rc == 0 && r.session.phase == Established)
            && (!Opens(s, waits, i, i) ==> r.session.open && (r.session.phase == Syncing || r.session.phase == Idle))
  {
    assert TokenBefore(s.token, waits, i, i) == s.token;
  }

  /**
   An attempt succeeds exactly when one of its waits brings a SYNC or a SYNC_CONFIRM before any CLOSE, or a
   SYNC_ACK of the token held by then.
   */
  lemma {:induction false} SucceedsExactly(s: Session, waits: seq<Wait>, i: nat)
    requires i <= MAX_RETRY == |waits| && s.open && (s.phase == Syncing || s.phase == Idle)
    ensures Attempt(s, waits, i).rc == 0 <==> exists k :: i <= k < 5 && Opens(s, waits, i, k)
    decreases MAX_RETRY - i
  {
    if i < MAX_RETRY {
      OpensNow(s, waits, i);
      if !Opens(s, waits, i, i) {
        forall k | i < k < 5
          ensures Opens(s, waits, i, k) <==> Opens(Received(s, waits[i]).session, waits, i + 1, k)
        {
          OpensLater(s, waits, i, k);
        }
        var t, next := Received(s, waits[i]).session, i + 1;
        SucceedsExactly(t, waits, next);
        if k :| next <= k < 5 && Opens(t, waits, next, k) {
          assert Opens(s, waits, i, k);
        }
      }
    }
  }

  /** Left alone, an attempt ends idle and closed, having repeated its SYNC before every wait but the first if it connects. */
  lemma {:induction false} UnansweredAttempt(s: Session, waits: seq<Wait>, i: nat)
    requires i < MAX_RETRY == |waits| && s.open && forall j | i <= j < MAX_RETRY :: waits[j].Nothing?
    ensures var r := Attempt(s, waits, i);
            && r.session == s.(phase := Idle, open := false) && r.rc == -1
            && |r.replies| == (if s.initiator then 4 - i else 0)
            && forall p | p in r.replies :: p == Packet(0x53494D4F, 1, SYNC, s.token, 16, s.attempt)
    decreases MAX_RETRY - i
  {
    if i + 1 < MAX_RETRY {
      UnansweredAttempt(s, waits, i + 1);
    }
  }

  class Endpoint {
    var phase: Phase
    var token: nat
    var initiator: bool
    var open: bool
    var attempt: nat

    ghost function State(): Session
      reads this
    {
      Session(phase, token, initiator, open, attempt)
    }

    constructor ()
      ensures State() == Session(Idle, 0, false, false, 0)
    {
      phase, token, initiator, open, attempt := Idle, 0, false, false, 0;
    }

    method ProcessPacket(p: Packet) returns (replies: seq<Packet>, rc: int)
      modifies this
      ensures Outcome(State(), replies, rc) == Process(old(State()), p)
      ensures Handled(old(State()), p, State(), replies, rc)
    {
      ProcessHandles(State(), p);
      replies := [];
      if p.len < HEADER {
        return [], -1;
      }
      if p.magic != MAGIC {
        return [], -1;
      }
      if p.version != VERSION {
        return [], -1;
      }
      if p.kind == SYNC {
        token := p.token;
        replies := SendPacket(SYNC_ACK);
        if phase == Syncing {
          phase := Established;
        }
      } else if p.kind == SYNC_ACK {
        if token == p.token {
          replies := SendPacket(SYNC_CONFIRM);
          phase := Established;
        }
      } else if p.kind == SYNC_CONFIRM {
        if phase == Syncing {
          phase := Established;
        }
      } else if p.kind == CLOSE {
        phase := Idle;
      }
      rc := 0;
    }

    method SendPacket(kind: nat) returns (sent: seq<Packet>)
      ensures sent == Sends(State(), kind)
    {
      sent := if open then [Packet(MAGIC, VERSION, kind, token, HEADER, attempt)] else [];
    }

    /** Sends `payload` bytes over an established connection. */
    method Send(payload: nat) returns (sent: seq<Packet>, rc: int)
      ensures phase != Established || payload == 0 || !open ==> rc == -1 && sent == []
      ensures phase == Established && payload > 0 && open ==>
                && rc == 0 && |sent| == 1 && WellMade(sent[0]) && sent[0].kind == 4 && sent[0].token == token
                && sent[0].len == 16 + payload && sent[0].attempt == attempt
    {
      if payload == 0 || phase != Established || !open {
        return [], -1;
      }
      return [Packet(MAGIC, VERSION, DATA, token, HEADER + payload, attempt)], 0;
    }

    /** Tells the peer, if the socket is open, and closes it. */
    method Close() returns (sent: seq<Packet>)
      modifies this
      ensures State() == old(State()).(phase := Idle, open := false)
      ensures SentOnly(old(State()), 6, token, sent)
    {
      sent := [];
      if open {
        sent := SendPacket(CLOSE);
        open := false;
      }
      phase := Idle;
    }

    method WaitForSync(w: Wait) returns (replies: seq<Packet>, rc: int)
      modifies this
      ensures Outcome(State(), replies, rc) == Received(old(State()), w)
      ensures old(open) && w.Got? && w.packet.len >= 16 ==> Handled(old(State()), w.packet, State(), replies, rc)
      ensures !old(open) || w.Nothing? || w.packet.len < 16 ==> State() == old(State()) && replies == [] && rc == -1
    {
      if !open || w.Nothing? || w.packet.len < HEADER {
        return [], -1;
      }
      replies, rc := ProcessPacket(w.packet);
    }

    /** Opens towards the peer, as the connecting or the accepting side, with at most five waits. */
    method Run(connector: bool, newToken: nat, waits: seq<Wait>) returns (sent: seq<Packet>, rc: int)
      requires |waits| == MAX_RETRY
      modifies this
      ensures var start := Session(Syncing, newToken, connector, true, old(attempt) + 1);
              var r := Attempt(start, waits, 0);
              && State() == r.session && rc == r.rc
              && sent == (if connector then Sends(start, SYNC) else []) + r.replies
      ensures var start := Session(Syncing, newToken, connector, true, old(attempt) + 1);
              rc == 0 <==> exists k :: 0 <= k < 5 && Opens(start, waits, 0, k)
      ensures rc == if phase == Established then 0 else -1
      ensures rc != 0 ==> phase == Idle && !open
      ensures (forall w | w in waits :: w.Nothing?) ==>
                && |sent| == (if connector then 5 else 0)
                && forall p | p in sent :: p == Packet(0x53494D4F, 1, SYNC, newToken, 16, old(attempt) + 1)
    {
      open, token, initiator, phase, attempt := true, newToken, connector, Connecting, attempt + 1;
      phase := Syncing;
      sent := [];
      if connector {
        sent := SendPacket(SYNC);
      }
      ghost var start := Session(Syncing, newToken, connector, true, old(attempt) + 1);
      assert State() == start;
      var more;
      more, rc := Retry(waits);
      sent := sent + more;
      assert Outcome(State(), more, rc) == Attempt(start, waits, 0);
      SucceedsExactly(start, waits, 0);
      AttemptOutcome(start, waits, 0);
      if forall w | w in waits :: w.Nothing? {
        UnansweredAttempt(start, waits, 0);
      }
    }

    /** Up to five waits, with the SYNC of a connecting endpoint repeated between them. */
    method Retry(waits: seq<Wait>) returns (sent: seq<Packet>, rc: int)
      requires |waits| == MAX_RETRY
      modifies this
      ensures Outcome(State(), sent, rc) == Attempt(old(State()), waits, 0)
    {
      sent := [];
      ghost var start := State();
      var i := 0;
      while i < MAX_RETRY
        invariant 0 <= i <= MAX_RETRY
        invariant Attempt(start, waits, 0) == Logged(sent, Attempt(State(), waits, i))
      {
        AttemptStep(State(), waits, i, sent);
        var replies, done := Turn(waits[i], i == MAX_RETRY - 1);
        sent := sent + replies;
        if done {
          return sent, 0;
        }
        i := i + 1;
      }
      open, phase := false, Idle;
      rc := -1;
    }

    method Turn(w: Wait, last: bool) returns (sent: seq<Packet>, done: bool)
      modifies this
      ensures var r := Received(old(State()), w);
              && State() == r.session
              && (done <==> r.rc == 0 && r.session.phase == Established)
              && sent == r.replies + if !done && r.session.initiator && !last then Sends(r.session, SYNC) else []
    {
      var rc;
      sent, rc := WaitForSync(w);
      done := rc == 0 && phase == Established;
      if !done && initiator && !last {
        var again := SendPacket(SYNC);
        sent := sent + again;
      }
    }
  }

  ghost function Logged(log: seq<Packet>, r: Outcome): Outcome { r.(replies := log + r.replies) }

  /** One turn of the waiting loop, with what was sent before it kept in `log`. */
  lemma {:induction false} AttemptStep(s: Session, waits: seq<Wait>, i: nat, log: seq<Packet>)
    requires i < MAX_RETRY && |waits| == MAX_RETRY
    ensures var r := Received(s, waits[i]);
            var again := if s.initiator && i < MAX_RETRY - 1 then Sends(r.session, SYNC) else [];
            && r.session.initiator == s.initiator
            && (r.rc == 0 && r.session.phase == Established ==> Logged(log, Attempt(s, waits, i)) == r.(replies := log + r.replies))
            && (!(r.rc == 0 && r.session.phase == Established) ==>
                  Logged(log, Attempt(s, waits, i)) == Logged(log + (r.replies + again), Attempt(r.session, waits, i + 1)))
  {
    var r := Received(s, waits[i]);
    var again := if s.initiator && i < MAX_RETRY - 1 then Sends(r.session, SYNC) else [];
    var rest := Attempt(r.session, waits, i + 1).replies;
    Assoc(log, r.replies + again, rest);
  }
}
