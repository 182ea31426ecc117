/**
 The connect and accept loops of both endpoints, interleaved turn by turn in any order with
 whatever the network brings: every such interleaving is a run of the two-endpoint system.
 */
module Attempts {
  import opened Handshake
  import opened Network
  import opened Agreement
  import opened Sequences

  /** Where an endpoint stands: not in a loop, in one with these waits behind it, or returned from it. */
  datatype Loop =
    | Ready
    | Trying(start: Session, waits: seq<Wait>, log: seq<Packet>)
    | Returned(start: Session, waits: seq<Wait>, result: Outcome)

  datatype Joint = Joint(sys: System, left: Loop, right: Loop)

  const IDLE: Joint := Joint(BLANK, Ready, Ready)

  /** An endpoint enters its loop, makes one turn of it, or, outside a loop, does something else. */
  datatype Move =
    | Begin(atLeft: bool, connector: bool, newToken: nat)
    | Turn(atLeft: bool, wait: Wait)
    | Other(action: Action)

  ghost function LoopAt(j: Joint, l: bool): Loop { if l then j.left else j.right }

  ghost function At(j: Joint, l: bool, sys: System, loop: Loop): Joint
  {
    if l then Joint(sys, loop, j.right) else Joint(sys, j.left, loop)
  }

  /** A wait brings nothing, or something that is on the wire by then. */
  ghost predicate Allowed(j: Joint, m: Move)
  {
    match m
    case Begin(l, _, _) => !LoopAt(j, l).Trying?
    case Turn(l, w) => LoopAt(j, l).Trying? && (w.Got? ==> w.packet in Inbox(j.sys, l))
    case Other(a) => !a.Start? && !LoopAt(j, a.atLeft).Trying? && Enabled(j.sys, a)
  }

  ghost predicate Succeeds(r: Outcome) { r.rc == 0 && r.session.phase == Established }

  /** What a turn that does not succeed sends after its replies: a connector's SYNC, except the last time. */
  ghost function Again(s: Session, turn: nat): seq<Packet> { if s.initiator && turn < MAX_RETRY - 1 then Sends(s, SYNC) else [] }

  ghost function Closed(s: Session): Session { s.(phase := Idle, open := false) }

  /** Everything turn number `n` sends, and the session it leaves. */
  ghost function SentIn(s: Session, w: Wait, n: nat): seq<Packet>
  {
    var r := Received(s, w);
    if Succeeds(r) then r.replies else r.replies + Again(r.session, n)
  }

  ghost function SessionAfter(s: Session, w: Wait, n: nat): Session
  {
    var r := Received(s, w);
    if !Succeeds(r) && n + 1 == MAX_RETRY then Closed(r.session) else r.session
  }

  ghost function LoopAfter(s: Session, loop: Loop, w: Wait): Loop
    requires loop.Trying?
  {
    var n := |loop.waits|;
    var waits, log, t := loop.waits + [w], loop.log + SentIn(s, w, n), SessionAfter(s, w, n);
    if Succeeds(Received(s, w)) then Returned(loop.start, waits, Outcome(t, log, 0))
    else if n + 1 < MAX_RETRY then Trying(loop.start, waits, log)
    else Returned(loop.start, waits, Outcome(t, log, -1))
  }

  ghost function Turned(j: Joint, l: bool, w: Wait): Joint
    requires LoopAt(j, l).Trying?
  {
    var s, loop := Here(j.sys, l), LoopAt(j, l);
    At(j, l, Put(j.sys, l, SessionAfter(s, w, |loop.waits|), SentIn(s, w, |loop.waits|)), LoopAfter(s, loop, w))
  }

  ghost function Moved(j: Joint, m: Move): Joint
    requires Allowed(j, m)
  {
    match m
    case Begin(l, c, t) => At(j, l, Next(j.sys, Start(l, c, t)), Trying(Begun(Here(j.sys, l), c, t), [], []))
    case Turn(l, w) => Turned(j, l, w)
    case Other(a) => j.(sys := Next(j.sys, a))
  }

  ghost predicate Possible(moves: seq<Move>)
    decreases |moves|, 0
  {
    moves == [] || (Possible(Front(moves)) && Allowed(Played(Front(moves)), Last(moves)))
  }

  ghost function Played(moves: seq<Move>): Joint
    requires Possible(moves)
    decreases |moves|, 1
  {
    if moves == [] then IDLE else Moved(Played(Front(moves)), Last(moves))
  }

  // ----- as steps of the system -----

  /** The steps one move is made of. */
  ghost function Steps(j: Joint, m: Move): seq<Action>
    requires Allowed(j, m)
  {
    match m
    case Begin(l, c, t) => [Start(l, c, t)]
    case Turn(l, w) =>
      var r, n := Received(Here(j.sys, l), w), |LoopAt(j, l).waits|;
      (if w.Got? then [Deliver(l, w.packet)] else [])
      + (if Succeeds(r) then [] else if n + 1 == MAX_RETRY then [GiveUp(l)]
         else if r.session.initiator then [Resend(l)] else [])
    case Other(a) => [a]
  }

  ghost function AllSteps(moves: seq<Move>): seq<Action>
    requires Possible(moves)
  {
    if moves == [] then [] else AllSteps(Front(moves)) + Steps(Played(Front(moves)), Last(moves))
  }

  /** An endpoint in its loop has its socket open and some waits left. */
  ghost predicate InLoop(s: Session, loop: Loop) { loop.Trying? ==> s.open && |loop.waits| < MAX_RETRY }

  ghost predicate LoopsOk(j: Joint) { InLoop(j.sys.left, j.left) && InLoop(j.sys.right, j.right) }

  lemma {:induction false} PutTwice(sys: System, l: bool, s: Session, sent: seq<Packet>, t: Session, more: seq<Packet>)
    ensures Put(Put(sys, l, s, sent), l, t, more) == Put(sys, l, t, sent + more)
    ensures Put(sys, l, Here(sys, l), []) == sys && Here(Put(sys, l, s, sent), l) == s
    ensures Here(Put(sys, l, s, sent), !l) == Here(sys, !l)
  {
    assert Wire(sent + more) == Wire(sent) + Wire(more) && Wire([]) == {};
  }

  /** What a wait brings is a delivery, or nothing. */
  lemma {:induction false} WaitIsDelivery(sys: System, l: bool, w: Wait)
    requires Here(sys, l).open && (w.Got? ==> w.packet in Inbox(sys, l))
    ensures var steps, r := if w.Got? then [Deliver(l, w.packet)] else [], Received(Here(sys, l), w);
            Run(sys, steps) && After(sys, steps) == Put(sys, l, r.session, r.replies) && r.session.open
  {
    PutTwice(sys, l, Here(sys, l), [], Here(sys, l), []);
    if w.Got? {
      RunOne(sys, Deliver(l, w.packet));
    } else {
      assert Run(sys, []) && After(sys, []) == sys;
    }
  }

  /** The end of a turn that has not succeeded: giving up, another SYNC, or nothing. */
  lemma {:induction false} TurnEnds(sys: System, l: bool, n: nat)
    requires Here(sys, l).open && n < MAX_RETRY
    ensures var s := Here(sys, l);
            var steps := if n + 1 == MAX_RETRY then [GiveUp(l)] else if s.initiator then [Resend(l)] else [];
            && Run(sys, steps)
            && After(sys, steps) == Put(sys, l, if n + 1 == MAX_RETRY then Closed(s) else s, Again(s, n))
  {
    var s := Here(sys, l);
    PutTwice(sys, l, s, [], s, []);
    if n + 1 == MAX_RETRY {
      RunOne(sys, GiveUp(l));
    } else if s.initiator {
      RunOne(sys, Resend(l));
    } else {
      assert Run(sys, []) && After(sys, []) == sys;
    }
  }

  lemma {:induction false} TurnSucceeds(j: Joint, l: bool, w: Wait)
    requires LoopsOk(j) && Allowed(j, Turn(l, w)) && Succeeds(Received(Here(j.sys, l), w))
    ensures Run(j.sys, Steps(j, Turn(l, w))) && After(j.sys, Steps(j, Turn(l, w))) == Turned(j, l, w).sys
  {
    var first := if w.Got? then [Deliver(l, w.packet)] else [];
    WaitIsDelivery(j.sys, l, w);
    assert first + [] == first;
  }

  lemma {:induction false} TurnGoesOn(j: Joint, l: bool, w: Wait)
    requires LoopsOk(j) && Allowed(j, Turn(l, w)) && !Succeeds(Received(Here(j.sys, l), w))
    ensures Run(j.sys, Steps(j, Turn(l, w))) && After(j.sys, Steps(j, Turn(l, w))) == Turned(j, l, w).sys
  {
    var r, n := Received(Here(j.sys, l), w), |LoopAt(j, l).waits|;
    var first := if w.Got? then [Deliver(l, w.packet)] else [];
    var rest := if n + 1 == MAX_RETRY then [GiveUp(l)] else if r.session.initiator then [Resend(l)] else [];
    WaitIsDelivery(j.sys, l, w);
    PutTwice(j.sys, l, r.session, r.replies, SessionAfter(Here(j.sys, l), w, n), Again(r.session, n));
    TurnEnds(Put(j.sys, l, r.session, r.replies), l, n);
    RunConcat(j.sys, first, rest);
  }

  lemma {:induction false} TurnIsSteps(j: Joint, l: bool, w: Wait)
    requires LoopsOk(j) && Allowed(j, Turn(l, w))
    ensures Run(j.sys, Steps(j, Turn(l, w))) && After(j.sys, Steps(j, Turn(l, w))) == Turned(j, l, w).sys
  {
    if Succeeds(Received(Here(j.sys, l), w)) {
      TurnSucceeds(j, l, w);
    } else {
      TurnGoesOn(j, l, w);
    }
  }

  lemma {:induction false} TurnKeepsLoops(j: Joint, l: bool, w: Wait)
    requires LoopsOk(j) && Allowed(j, Turn(l, w))
    ensures LoopsOk(Turned(j, l, w))
  {
    WaitIsDelivery(j.sys, l, w);
  }

  lemma {:induction false} MoveIsSteps(j: Joint, m: Move)
    requires LoopsOk(j) && Allowed(j, m)
    ensures Run(j.sys, Steps(j, m)) && After(j.sys, Steps(j, m)) == Moved(j, m).sys && LoopsOk(Moved(j, m))
  {
    match m
    case Begin(l, c, t) => RunOne(j.sys, Start(l, c, t));
    case Turn(l, w) =>
      TurnIsSteps(j, l, w);
      TurnKeepsLoops(j, l, w);
    case Other(a) => RunOne(j.sys, a);
  }

  /** However the turns of the two endpoints are interleaved, together they make a run of the system. */
  lemma {:induction false} InterleavingIsRun(moves: seq<Move>)
    requires Possible(moves)
    ensures Run(BLANK, AllSteps(moves)) && After(BLANK, AllSteps(moves)) == Played(moves).sys && LoopsOk(Played(moves))
  {
    if moves == [] {
      assert Run(BLANK, []) && After(BLANK, []) == BLANK;
    } else {
      var front := Front(moves);
      InterleavingIsRun(front);
      MoveIsSteps(Played(front), Last(moves));
      RunConcat(BLANK, AllSteps(front), Steps(Played(front), Last(moves)));
    }
  }

  // ----- as the loops of the code -----

  /** Five waits that begin with the given ones. */
  ghost predicate Extends(ws: seq<Wait>, waits: seq<Wait>) { |ws| == MAX_RETRY && |waits| <= |ws| && ws[..|waits|] == waits }

  /** The loop so far is the beginning of what the code does with these waits, and a finished one is all of it. */
  ghost predicate Follows(s: Session, loop: Loop)
  {
    match loop
    case Ready => true
    case Trying(start, waits, log) =>
      |waits| < MAX_RETRY
      && forall ws | Extends(ws, waits) :: Attempt(start, ws, 0) == Logged(log, Attempt(s, ws, |waits|))
    case Returned(start, waits, result) =>
      |waits| <= MAX_RETRY && forall ws | Extends(ws, waits) :: Attempt(start, ws, 0) == result
  }

  ghost predicate BothFollow(j: Joint) { Follows(j.sys.left, j.left) && Follows(j.sys.right, j.right) }

  lemma {:induction false} OneTurnFollows(s: Session, loop: Loop, w: Wait, ws: seq<Wait>)
    requires loop.Trying? && |loop.waits| < MAX_RETRY && Extends(ws, loop.waits + [w])
    requires Attempt(loop.start, ws, 0) == Logged(loop.log, Attempt(s, ws, |loop.waits|))
    ensures var n, next := |loop.waits|, LoopAfter(s, loop, w);
            && (next.Returned? ==> Attempt(loop.start, ws, 0) == next.result)
            && (next.Trying? ==> Attempt(loop.start, ws, 0) == Logged(next.log, Attempt(SessionAfter(s, w, n), ws, n + 1)))
  {
    var n, log := |loop.waits|, loop.log;
    assert ws[n] == ws[..n + 1][n] == w;
    AttemptStep(s, ws, n, log);
    var sent := SentIn(s, w, n);
    if n + 1 == MAX_RETRY {
      assert log + sent + [] == log + sent;
    }
  }

  lemma {:induction false} ExtendsLess(ws: seq<Wait>, waits: seq<Wait>, w: Wait)
    requires Extends(ws, waits + [w])
    ensures Extends(ws, waits)
  {
    assert ws[..|waits|] == ws[..|waits| + 1][..|waits|];
  }

  lemma {:induction false} TurnFollows(s: Session, loop: Loop, w: Wait)
    requires loop.Trying? && Follows(s, loop)
    ensures Follows(SessionAfter(s, w, |loop.waits|), LoopAfter(s, loop, w))
  {
    var next, t := LoopAfter(s, loop, w), SessionAfter(s, w, |loop.waits|);
    forall ws | Extends(ws, next.waits)
      ensures next.Trying? ==> Attempt(next.start, ws, 0) == Logged(next.log, Attempt(t, ws, |next.waits|))
      ensures next.Returned? ==> Attempt(next.start, ws, 0) == next.result
    {
      ExtendsLess(ws, loop.waits, w);
      OneTurnFollows(s, loop, w, ws);
    }
  }

  lemma {:induction false} BeginFollows(s: Session)
    ensures Follows(s, Trying(s, [], []))
  {
    forall ws | Extends(ws, [])
      ensures Attempt(s, ws, 0) == Logged([], Attempt(s, ws, 0))
    {
      assert [] + Attempt(s, ws, 0).replies == Attempt(s, ws, 0).replies;
    }
  }

  lemma {:induction false} MoveFollows(j: Joint, m: Move)
    requires BothFollow(j) && Allowed(j, m)
    ensures BothFollow(Moved(j, m))
  {
    match m
    case Begin(l, c, t) => BeginFollows(Begun(Here(j.sys, l), c, t));
    case Turn(l, w) =>
      TurnFollows(Here(j.sys, l), LoopAt(j, l), w);
      TurnElsewhere(j, l, w);
    case Other(a) => {}
  }

  lemma {:induction false} TurnElsewhere(j: Joint, l: bool, w: Wait)
    requires LoopAt(j, l).Trying?
    ensures var t := Turned(j, l, w); Here(t.sys, !l) == Here(j.sys, !l) && LoopAt(t, !l) == LoopAt(j, !l)
  {
  }

  /**
   In every interleaving each finished connect or accept has sent, and returned with, exactly what the
   loop of the code does with the waits it had.
   */
  lemma {:induction false} LoopsFollowCode(moves: seq<Move>)
    requires Possible(moves)
    ensures BothFollow(Played(moves))
  {
    if moves != [] {
      LoopsFollowCode(Front(moves));
      MoveFollows(Played(Front(moves)), Last(moves));
    }
  }

  // ----- what the callers get -----

  /** One connect on the left with token `c`, one accept on the right. */
  ghost predicate Parts(moves: seq<Move>, c: nat, d: nat)
  {
    forall m | m in moves && m.Begin? :: m.connector == m.atLeft && m.newToken == if m.atLeft then c else d
  }

  /** Only entering a loop starts an attempt. */
  lemma {:induction false} StartsBegin(j: Joint, m: Move)
    requires Allowed(j, m)
    ensures forall a | a in Steps(j, m) && a.Start? :: m.Begin? && a == Start(m.atLeft, m.connector, m.newToken)
  {
  }

  lemma {:induction false} PartsCast(moves: seq<Move>, c: nat, d: nat)
    requires Possible(moves) && Parts(moves, c, d)
    ensures Cast(AllSteps(moves), true, c, false, d)
  {
    if moves != [] {
      var front, m := Front(moves), Last(moves);
      assert m in moves && forall x | x in front :: x in moves;
      PartsCast(front, c, d);
      StartsBegin(Played(front), m);
      CastConcat(AllSteps(front), Steps(Played(front), m), true, c, false, d);
    }
  }

  lemma {:induction false} PlayedSafe(moves: seq<Move>, c: nat, d: nat)
    requires Possible(moves) && Parts(moves, c, d) && Single(Played(moves).sys)
    ensures Safe(Played(moves).sys, c)
  {
    InterleavingIsRun(moves);
    PartsCast(moves, c, d);
    RunSafe(AllSteps(moves), c, d);
  }

  lemma {:induction false} MovesAddAttempts(j: Joint, m: Move)
    requires Allowed(j, m) && Single(Moved(j, m).sys)
    ensures Single(j.sys)
  {
    match m
    case Begin(l, c, t) => AttemptsGrow(j.sys, Start(l, c, t));
    case Turn(l, w) => {}
    case Other(a) => AttemptsGrow(j.sys, a);
  }

  ghost predicate ReturnedWith(loop: Loop, c: nat)
  {
    loop.Returned? && loop.result.rc == 0 ==> loop.result.session.phase == Established && loop.result.session.token == c
  }

  /**
   In every interleaving of one connect and one accept: whichever returns success does so established
   with the connector's token, and once the connect has succeeded the acceptor has adopted it.
   */
  lemma {:induction false} AttemptsAgree(moves: seq<Move>, c: nat, d: nat)
    requires Possible(moves) && Parts(moves, c, d) && Single(Played(moves).sys)
    ensures var j := Played(moves);
            && ReturnedWith(j.left, c) && ReturnedWith(j.right, c)
            && (j.left.Returned? && j.left.result.rc == 0 ==> Acked(j.sys, c) && j.sys.right.token == c)
  {
    if moves != [] {
      var front, m := Front(moves), Last(moves);
      var j := Played(front);
      assert forall x | x in front :: x in moves;
      MovesAddAttempts(j, m);
      AttemptsAgree(front, c, d);
      PlayedSafe(moves, c, d);
      NewlyReturned(j, m, true);
      NewlyReturned(j, m, false);
      if Acked(j.sys, c) {
        AckedStays(j, m, c);
      }
    }
  }

  /** A loop that has just returned success leaves the session it returns with. */
  lemma {:induction false} NewlyReturned(j: Joint, m: Move, l: bool)
    requires Allowed(j, m)
    ensures var t := Moved(j, m);
            LoopAt(t, l).Returned? && LoopAt(t, l).result.rc == 0 && LoopAt(t, l) != LoopAt(j, l) ==>
              LoopAt(t, l).result.session == Here(t.sys, l) && Here(t.sys, l).phase == Established
  {
  }

  lemma {:induction false} AckedStays(j: Joint, m: Move, c: nat)
    requires Allowed(j, m) && Acked(j.sys, c)
    ensures Acked(Moved(j, m).sys, c)
  {
    assert j.sys.toLeft <= Moved(j, m).sys.toLeft;
  }

  /** Both do return success: the accept hears the SYNC, the connect its acknowledgement. */
  lemma {:induction false} ConnectCanSucceed(c: nat, d: nat) returns (moves: seq<Move>)
    ensures Possible(moves) && Parts(moves, c, d) && Single(Played(moves).sys)
    ensures var j := Played(moves);
            j.left.Returned? && j.left.result.rc == 0 && j.right.Returned? && j.right.result.rc == 0
  {
    var sync, ack := Packet(MAGIC, VERSION, SYNC, c, HEADER, 1), Packet(MAGIC, VERSION, SYNC_ACK, c, HEADER, 1);
    moves := [];
    moves := PlayOn(moves, Begin(true, true, c), c, d);
    var j1 := Played(moves);
    assert j1.sys.left == Session(Syncing, c, true, true, 1) && j1.right == Ready && sync in Wire([sync]);
    moves := PlayOn(moves, Begin(false, false, d), c, d);
    var j2 := Played(moves);
    assert j2.sys.left == j1.sys.left && j2.sys.right == Session(Syncing, d, false, true, 1) && sync in j2.sys.toRight;
    moves := PlayOn(moves, Turn(false, Got(sync)), c, d);
    var j3 := Played(moves);
    assert ack in Wire([ack]);
    assert j3.sys.left == j1.sys.left && j3.sys.right == Session(Established, c, false, true, 1) && ack in j3.sys.toLeft;
    moves := PlayOn(moves, Turn(true, Got(ack)), c, d);
  }

  lemma {:induction false} PlayOn(before: seq<Move>, m: Move, c: nat, d: nat) returns (moves: seq<Move>)
    requires Possible(before) && Parts(before, c, d) && Allowed(Played(before), m)
    requires m.Begin? ==> m.connector == m.atLeft && m.newToken == if m.atLeft then c else d
    ensures moves == before + [m] && Possible(moves) && Parts(moves, c, d) && Played(moves) == Moved(Played(before), m)
  {
    moves := before + [m];
    assert Front(moves) == before && Last(moves) == m;
  }
}
