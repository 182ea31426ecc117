/**
 Two endpoints and a network that may lose, repeat, delay and reorder whatever they send,
 as a state machine over the steps either endpoint can take.
 */
module Network {
  import opened Handshake

  /** Everything ever sent stays deliverable: packets may be lost, repeated, delayed or overtaken. */
  datatype System = System(left: Session, right: Session, toLeft: set<Packet>, toRight: set<Packet>)

  datatype Action =
    | Start(atLeft: bool, connector: bool, newToken: nat)
    | Resend(atLeft: bool)
    | Deliver(atLeft: bool, packet: Packet)
    | SendData(atLeft: bool, payload: nat)
    | EndOfStream(atLeft: bool)
    | GiveUp(atLeft: bool)
    | Hangup(atLeft: bool)

  ghost function Wire(ps: seq<Packet>): set<Packet> { set p | p in ps }

  /** The session at one side replaced, and what it sent added to the other side's wire. */
  ghost function Put(sys: System, atLeft: bool, s: Session, sent: seq<Packet>): System
  {
    if atLeft then sys.(left := s, toRight := sys.toRight + Wire(sent))
    else sys.(right := s, toLeft := sys.toLeft + Wire(sent))
  }

  ghost function Here(sys: System, atLeft: bool): Session { if atLeft then sys.left else sys.right }

  ghost function Inbox(sys: System, atLeft: bool): set<Packet> { if atLeft then sys.toLeft else sys.toRight }

  /** An endpoint may start at any time, even over an attempt of its own. */
  ghost predicate Enabled(sys: System, a: Action)
  {
    match a
    case Start(_, _, _) => true
    case Resend(l) => Here(sys, l).open && Here(sys, l).initiator
    case Deliver(l, p) => Here(sys, l).open && p in Inbox(sys, l)
    case SendData(l, _) => Here(sys, l).open && Here(sys, l).phase == Established
    case EndOfStream(l) => Here(sys, l).open
    case GiveUp(l) => Here(sys, l).open
    case Hangup(l) => Here(sys, l).open
  }

  function Begun(s: Session, connector: bool, newToken: nat): Session
  {
    Session(Syncing, newToken, connector, true, s.attempt + 1)
  }

  function Data(s: Session, payload: nat): Packet { Packet(MAGIC, VERSION, DATA, s.token, HEADER + payload, s.attempt) }

  /** What a step makes of the endpoint that takes it. */
  ghost function Changed(s: Session, a: Action): Session
  {
    match a
    case Start(_, c, t) => Begun(s, c, t)
    case Resend(_) => s
    case Deliver(_, p) => Process(s, p).session
    case SendData(_, _) => s
    case EndOfStream(_) => s.(phase := Idle)
    case GiveUp(_) => s.(phase := Idle, open := false)
    case Hangup(_) => s.(phase := Idle, open := false)
  }

  /** What it sends. */
  ghost function Sent(s: Session, a: Action): seq<Packet>
  {
    match a
    case Start(_, c, t) => if c then Sends(Begun(s, c, t), SYNC) else []
    case Resend(_) => Sends(s, SYNC)
    case Deliver(_, p) => Process(s, p).replies
    case SendData(_, payload) => [Data(s, payload)]
    case EndOfStream(_) => []
    case GiveUp(_) => []
    case Hangup(_) => Sends(s, CLOSE)
  }

  ghost function Next(sys: System, a: Action): System
  {
    Put(sys, a.atLeft, Changed(Here(sys, a.atLeft), a), Sent(Here(sys, a.atLeft), a))
  }

  const FRESH: Session := Session(Idle, 0, false, false, 0)

  /** Before anything has happened. */
  const BLANK: System := System(FRESH, FRESH, {}, {})

  // ----- runs -----

  ghost predicate Run(sys: System, actions: seq<Action>)
  {
    actions == [] || (Run(sys, Front(actions)) && Enabled(After(sys, Front(actions)), Last(actions)))
  }

  ghost function After(sys: System, actions: seq<Action>): System
  {
    if actions == [] then sys else Next(After(sys, Front(actions)), Last(actions))
  }

  function Front<T>(s: seq<T>): (r: seq<T>)
    requires s != []
    ensures |r| == |s| - 1 && r + [Last(s)] == s
  {
    s[..|s| - 1]
  }

  function Last<T>(s: seq<T>): T
    requires s != []
  {
    s[|s| - 1]
  }

  lemma {:induction false} FrontOfConcat<T>(a: seq<T>, b: seq<T>)
    requires b != []
    ensures Front(a + b) == a + Front(b) && Last(a + b) == Last(b)
  {
  }

  /** One run after another. */
  lemma {:induction false} RunConcat(sys: System, a: seq<Action>, b: seq<Action>)
    requires Run(sys, a) && Run(After(sys, a), b)
    ensures Run(sys, a + b) && After(sys, a + b) == After(After(sys, a), b)
  {
    if b == [] {
      assert a + b == a;
    } else {
      FrontOfConcat(a, b);
      RunConcat(sys, a, Front(b));
    }
  }

  lemma {:induction false} RunOne(sys: System, a: Action)
    requires Enabled(sys, a)
    ensures Run(sys, [a]) && After(sys, [a]) == Next(sys, a)
  {
    assert Front([a]) == [] && Last([a]) == a;
    assert Run(sys, []) && After(sys, []) == sys;
  }

  lemma {:induction false} RunMore(sys: System, actions: seq<Action>, a: Action)
    requires Run(sys, actions) && Enabled(After(sys, actions), a)
    ensures Run(sys, actions + [a]) && After(sys, actions + [a]) == Next(After(sys, actions), a)
  {
    assert Front(actions + [a]) == actions && Last(actions + [a]) == a;
  }

  lemma {:induction false} RunFront(sys: System, actions: seq<Action>)
    requires actions != [] && Run(sys, actions)
    ensures Run(sys, Front(actions)) && Enabled(After(sys, Front(actions)), Last(actions))
    ensures After(sys, actions) == Next(After(sys, Front(actions)), Last(actions))
  {
  }

  /** Attempts are only ever added. */
  lemma {:induction false} AttemptsGrow(sys: System, a: Action)
    ensures Next(sys, a).left.attempt == sys.left.attempt + (if a.Start? && a.atLeft then 1 else 0)
    ensures Next(sys, a).right.attempt == sys.right.attempt + (if a.Start? && !a.atLeft then 1 else 0)
  {
  }

  // ----- after a CLOSE -----

  /** What can make an idle endpoint an established one: a new start, or an acknowledgement of its token. */
  ghost predicate Reopens(sys: System, a: Action, atLeft: bool)
  {
    && a.atLeft == atLeft
    && (a.Start? || (a.Deliver? && a.packet.kind == SYNC_ACK && a.packet.token == Here(sys, atLeft).token))
  }

  ghost predicate ReopenedIn(sys: System, actions: seq<Action>, atLeft: bool)
  {
    actions != [] && (ReopenedIn(sys, Front(actions), atLeft) || Reopens(After(sys, Front(actions)), Last(actions), atLeft))
  }

  lemma {:induction false} IdleStep(sys: System, a: Action, atLeft: bool)
    requires Here(sys, atLeft).phase == Idle && !Reopens(sys, a, atLeft)
    ensures Here(Next(sys, a), atLeft).phase == Idle
  {
  }

  lemma {:induction false} IdleUntilReopened(sys: System, actions: seq<Action>, atLeft: bool)
    requires Here(sys, atLeft).phase == Idle && !ReopenedIn(sys, actions, atLeft)
    ensures Here(After(sys, actions), atLeft).phase == Idle
  {
    if actions != [] {
      IdleUntilReopened(sys, Front(actions), atLeft);
      IdleStep(After(sys, Front(actions)), Last(actions), atLeft);
    }
  }

  /** Once a CLOSE is delivered the endpoint stays idle, in every run, until it starts again or its token is acknowledged. */
  lemma {:induction false} ClosedUntilReopened(sys: System, p: Packet, actions: seq<Action>, atLeft: bool)
    requires Enabled(sys, Deliver(atLeft, p)) && !Ignored(p) && p.kind == CLOSE
    requires Run(Next(sys, Deliver(atLeft, p)), actions)
    ensures var closed := Next(sys, Deliver(atLeft, p));
            Here(After(closed, actions), atLeft).phase == Idle || ReopenedIn(closed, actions, atLeft)
  {
    var closed := Next(sys, Deliver(atLeft, p));
    if !ReopenedIn(closed, actions, atLeft) {
      IdleUntilReopened(closed, actions, atLeft);
    }
  }

  /** Hanging up sends a CLOSE whose delivery leaves both sides idle. */
  lemma {:induction false} HangupCloses(sys: System, atLeft: bool) returns (p: Packet)
    requires Here(sys, atLeft).open && Here(sys, !atLeft).open
    ensures !Ignored(p) && p.kind == CLOSE && p.token == Here(sys, atLeft).token
    ensures var hung := Next(sys, Hangup(atLeft));
            && Enabled(sys, Hangup(atLeft)) && Enabled(hung, Deliver(!atLeft, p))
            && var closed := Next(hung, Deliver(!atLeft, p));
               closed.left.phase == Idle && closed.right.phase == Idle && !Here(closed, atLeft).open
  {
    p := Sent(Here(sys, atLeft), Hangup(atLeft))[0];
    assert p in Wire(Sent(Here(sys, atLeft), Hangup(atLeft)));
  }

  // ----- the two sides exchanged -----

  ghost function Flip(sys: System): System { System(sys.right, sys.left, sys.toRight, sys.toLeft) }

  ghost function FlipAction(a: Action): Action
  {
    match a
    case Start(l, c, t) => Start(!l, c, t)
    case Resend(l) => Resend(!l)
    case Deliver(l, p) => Deliver(!l, p)
    case SendData(l, n) => SendData(!l, n)
    case EndOfStream(l) => EndOfStream(!l)
    case GiveUp(l) => GiveUp(!l)
    case Hangup(l) => Hangup(!l)
  }

  ghost function FlipAll(actions: seq<Action>): seq<Action>
  {
    if actions == [] then [] else FlipAll(Front(actions)) + [FlipAction(Last(actions))]
  }

  lemma {:induction false} FlipStep(sys: System, a: Action)
    ensures Enabled(Flip(sys), FlipAction(a)) == Enabled(sys, a)
    ensures Next(Flip(sys), FlipAction(a)) == Flip(Next(sys, a))
  {
  }

  /** A run seen from the other side is a run. */
  lemma {:induction false} FlipRun(actions: seq<Action>)
    requires Run(BLANK, actions)
    ensures Run(BLANK, FlipAll(actions)) && After(BLANK, FlipAll(actions)) == Flip(After(BLANK, actions))
  {
    if actions != [] {
      FlipRun(Front(actions));
      FlipStep(After(BLANK, Front(actions)), Last(actions));
      RunMore(BLANK, FlipAll(Front(actions)), FlipAction(Last(actions)));
    }
  }
}
