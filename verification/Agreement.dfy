/**
 When two endpoints that make one attempt each agree on a token: exactly unless both of
 them connect, with different tokens.
 */
module Agreement {
  import opened Handshake
  import opened Network

  /** Whenever the left side starts it is with `lc` and `c`, and the right side with `rc` and `d`. */
  ghost predicate Cast(actions: seq<Action>, lc: bool, c: nat, rc: bool, d: nat)
  {
    forall a | a in actions && a.Start? :: PlaysAs(a, lc, c, rc, d)
  }

  ghost predicate PlaysAs(a: Action, lc: bool, c: nat, rc: bool, d: nat)
  {
    a.Start? ==> if a.atLeft then a.connector == lc && a.newToken == c else a.connector == rc && a.newToken == d
  }

  /** Neither side has started over. */
  ghost predicate Single(sys: System) { sys.left.attempt <= 1 && sys.right.attempt <= 1 }

  ghost predicate BothEstablished(sys: System) { sys.left.phase == Established && sys.right.phase == Established }

  ghost predicate SameToken(sys: System) { sys.left.token == sys.right.token }

  /** A run of two single attempts in the given roles. */
  ghost predicate Plays(actions: seq<Action>, lc: bool, c: nat, rc: bool, d: nat)
  {
    Run(BLANK, actions) && Cast(actions, lc, c, rc, d) && Single(After(BLANK, actions))
  }

  /** Whatever the network does, two established endpoints hold the same token. */
  ghost predicate AlwaysAgree(lc: bool, c: nat, rc: bool, d: nat)
  {
    forall actions | Plays(actions, lc, c, rc, d) && BothEstablished(After(BLANK, actions)) :: SameToken(After(BLANK, actions))
  }

  lemma {:induction false} PlaysFront(actions: seq<Action>, lc: bool, c: nat, rc: bool, d: nat)
    requires actions != [] && Plays(actions, lc, c, rc, d)
    ensures Plays(Front(actions), lc, c, rc, d) && PlaysAs(Last(actions), lc, c, rc, d)
    ensures var s := After(BLANK, Front(actions)); Enabled(s, Last(actions)) && After(BLANK, actions) == Next(s, Last(actions))
  {
    RunFront(BLANK, actions);
    AttemptsGrow(After(BLANK, Front(actions)), Last(actions));
    assert Last(actions) in actions && forall a | a in Front(actions) :: a in actions;
  }

  // ----- a connector on the left, an acceptor on the right -----

  ghost predicate Acked(sys: System, c: nat)
  {
    exists p :: p in sys.toLeft && p.kind == SYNC_ACK && p.token == c
  }

  /** The connector: nothing before it starts, and its own token from then on. */
  ghost predicate LeftOk(s: Session, c: nat)
  {
    if s.attempt == 0 then !s.open && s.phase == Idle else s.token == c && s.initiator
  }

  ghost predicate RightOk(s: Session) { !s.initiator && (s.attempt == 0 ==> !s.open && s.phase == Idle) }

  /** What holds in every state the two can reach. */
  ghost predicate Safe(sys: System, c: nat)
  {
    && LeftOk(sys.left, c) && RightOk(sys.right)
    && (forall p | p in sys.toRight :: p.token == c && p.kind != SYNC_ACK)
    && (forall p | p in sys.toRight && p.kind == SYNC_CONFIRM :: Acked(sys, c))
    && (forall p | p in sys.toLeft :: p.kind != SYNC && p.kind != SYNC_CONFIRM)
    && (forall p | p in sys.toLeft && p.kind == SYNC_ACK :: p.token == c)
    && (Acked(sys, c) ==> sys.right.token == c && sys.right.attempt > 0)
    && (sys.left.phase == Established ==> Acked(sys, c))
    && (sys.right.phase == Established ==> sys.right.token == c)
  }

  /** Packets sent by the connector while its ACK has or has not come. */
  lemma {:induction false} LeftKeepsSafe(sys: System, s: Session, sent: seq<Packet>, c: nat)
    requires Safe(sys, c) && LeftOk(s, c)
    requires forall p | p in sent :: p.token == c && p.kind != SYNC_ACK
    requires (exists p :: p in sent && p.kind == SYNC_CONFIRM) || s.phase == Established ==> Acked(sys, c)
    ensures Safe(Put(sys, true, s, sent), c)
  {
    var t := Put(sys, true, s, sent);
    assert t.toLeft == sys.toLeft;
    assert Acked(t, c) == Acked(sys, c);
  }

  lemma {:induction false} RightKeepsSafe(sys: System, s: Session, sent: seq<Packet>, c: nat)
    requires Safe(sys, c) && RightOk(s)
    requires forall p | p in sent :: p.kind != SYNC && p.kind != SYNC_CONFIRM && (p.kind == SYNC_ACK ==> p.token == c)
    requires (exists p :: p in sent && p.kind == SYNC_ACK) || Acked(sys, c) ==> s.token == c && s.attempt > 0
    requires s.phase == Established ==> s.token == c
    ensures Safe(Put(sys, false, s, sent), c)
  {
    var t := Put(sys, false, s, sent);
    assert forall p | p in t.toLeft :: p in sys.toLeft || p in sent;
    assert Acked(sys, c) ==> Acked(t, c);
  }

  /** Every step but a second start keeps the endpoints safe. */
  lemma {:induction false} StepSafe(sys: System, a: Action, c: nat, d: nat)
    requires Safe(sys, c) && Enabled(sys, a) && PlaysAs(a, true, c, false, d) && Single(Next(sys, a))
    ensures Safe(Next(sys, a), c)
  {
    AttemptsGrow(sys, a);
    var s := Here(sys, a.atLeft);
    if a.atLeft {
      LeftKeepsSafe(sys, Changed(s, a), Sent(s, a), c);
    } else {
      RightKeepsSafe(sys, Changed(s, a), Sent(s, a), c);
    }
  }

  lemma {:induction false} RunSafe(actions: seq<Action>, c: nat, d: nat)
    requires Plays(actions, true, c, false, d)
    ensures Safe(After(BLANK, actions), c)
  {
    if actions != [] {
      PlaysFront(actions, true, c, false, d);
      RunSafe(Front(actions), c, d);
      StepSafe(After(BLANK, Front(actions)), Last(actions), c, d);
    }
  }

  /**
   Over any loss, repetition or reordering: an established acceptor holds the connector's token,
   and when the connector is established the acceptor has adopted that token and said so.
   */
  lemma {:induction false} TokensAgree(actions: seq<Action>, c: nat, d: nat)
    requires Plays(actions, true, c, false, d)
    ensures var s := After(BLANK, actions);
            && (s.right.phase == Established ==> s.right.token == c)
            && (s.left.phase == Established ==> s.left.token == c && s.right.token == c && Acked(s, c))
  {
    RunSafe(actions, c, d);
  }

  // ----- two acceptors -----

  ghost predicate Silent(ps: set<Packet>)
  {
    forall p | p in ps :: p.kind != SYNC && p.kind != SYNC_ACK && p.kind != SYNC_CONFIRM
  }

  /** Nobody ever starts the handshake. */
  ghost predicate Quiet(sys: System)
  {
    && !sys.left.initiator && !sys.right.initiator && Silent(sys.toLeft) && Silent(sys.toRight)
    && sys.left.phase != Established && sys.right.phase != Established
  }

  /** An acceptor's step, given that it hears nothing of a handshake. */
  lemma {:induction false} QuietStep(s: Session, a: Action)
    requires !s.initiator && s.phase != Established && (a.Start? ==> !a.connector) && (a.Deliver? ==> Silent({a.packet}))
    requires !a.Resend? && !a.SendData?
    ensures !Changed(s, a).initiator && Changed(s, a).phase != Established && Silent(Wire(Sent(s, a)))
  {
    if a.Deliver? {
      assert a.packet in {a.packet};
    }
  }

  lemma {:induction false} AcceptorsStayQuiet(actions: seq<Action>, c: nat, d: nat)
    requires Plays(actions, false, c, false, d)
    ensures Quiet(After(BLANK, actions))
  {
    if actions != [] {
      PlaysFront(actions, false, c, false, d);
      AcceptorsStayQuiet(Front(actions), c, d);
      var sys, a := After(BLANK, Front(actions)), Last(actions);
      QuietStep(Here(sys, a.atLeft), a);
    }
  }

  // ----- one token on both sides -----

  ghost predicate Holds(s: Session, c: nat) { s.attempt == 0 || s.token == c }

  ghost predicate Bear(ps: set<Packet>, c: nat) { forall p | p in ps :: p.token == c }

  ghost predicate OneToken(sys: System, c: nat)
  {
    && Holds(sys.left, c) && Holds(sys.right, c) && Bear(sys.toLeft, c) && Bear(sys.toRight, c)
    && (sys.left.attempt == 0 ==> !sys.left.open && sys.left.phase == Idle)
    && (sys.right.attempt == 0 ==> !sys.right.open && sys.right.phase == Idle)
  }

  lemma {:induction false} TokenStep(s: Session, a: Action, c: nat)
    requires Holds(s, c) && (s.attempt == 0 ==> !s.open && s.phase == Idle)
    requires (a.Start? ==> a.newToken == c) && (a.Deliver? ==> a.packet.token == c) && (a.Start? || s.open)
    ensures Holds(Changed(s, a), c) && Changed(s, a).attempt > 0 && Bear(Wire(Sent(s, a)), c)
  {
  }

  lemma {:induction false} TokenStays(actions: seq<Action>, lc: bool, rc: bool, c: nat)
    requires Plays(actions, lc, c, rc, c)
    ensures OneToken(After(BLANK, actions), c)
  {
    if actions != [] {
      PlaysFront(actions, lc, c, rc, c);
      TokenStays(Front(actions), lc, rc, c);
      var sys, a := After(BLANK, Front(actions)), Last(actions);
      TokenStep(Here(sys, a.atLeft), a, c);
    }
  }

  // ----- two connectors -----

  lemma {:induction false} PlayMore(actions: seq<Action>, a: Action, lc: bool, c: nat, rc: bool, d: nat)
    requires Plays(actions, lc, c, rc, d) && Enabled(After(BLANK, actions), a) && PlaysAs(a, lc, c, rc, d)
    requires Single(Next(After(BLANK, actions), a))
    ensures Plays(actions + [a], lc, c, rc, d) && After(BLANK, actions + [a]) == Next(After(BLANK, actions), a)
  {
    RunMore(BLANK, actions, a);
  }

  /** Both sides started, nothing delivered. */
  lemma {:induction false} BothStarted(lc: bool, c: nat, rc: bool, d: nat) returns (actions: seq<Action>)
    ensures Plays(actions, lc, c, rc, d)
    ensures var s := After(BLANK, actions);
            && s.left == Session(Syncing, c, lc, true, 1) && s.right == Session(Syncing, d, rc, true, 1)
            && (lc ==> Packet(MAGIC, VERSION, SYNC, c, HEADER, 1) in s.toRight)
            && (rc ==> Packet(MAGIC, VERSION, SYNC, d, HEADER, 1) in s.toLeft)
  {
    var first, second := Start(true, lc, c), Start(false, rc, d);
    assert After(BLANK, []) == BLANK && Run(BLANK, []);
    PlayMore([], first, lc, c, rc, d);
    PlayMore([] + [first], second, lc, c, rc, d);
    actions := [] + [first] + [second];
  }

  /** When both sides connect, crossing SYNCs can leave both established with each other's token. */
  lemma {:induction false} TokensCanCross(c: nat, d: nat) returns (actions: seq<Action>)
    requires c != d
    ensures Plays(actions, true, c, true, d) && BothEstablished(After(BLANK, actions)) && !SameToken(After(BLANK, actions))
  {
    actions := BothStarted(true, c, true, d);
    var first := Deliver(false, Packet(MAGIC, VERSION, SYNC, c, HEADER, 1));
    var second := Deliver(true, Packet(MAGIC, VERSION, SYNC, d, HEADER, 1));
    PlayMore(actions, first, true, c, true, d);
    PlayMore(actions + [first], second, true, c, true, d);
    actions := actions + [first] + [second];
  }

  /** A connector and an acceptor can both be established. */
  lemma {:induction false} HandshakeCompletes(c: nat, d: nat) returns (actions: seq<Action>)
    ensures Plays(actions, true, c, false, d) && BothEstablished(After(BLANK, actions))
  {
    actions := BothStarted(true, c, false, d);
    var ack := Packet(MAGIC, VERSION, SYNC_ACK, c, HEADER, 1);
    var first, second := Deliver(false, Packet(MAGIC, VERSION, SYNC, c, HEADER, 1)), Deliver(true, ack);
    PlayMore(actions, first, true, c, false, d);
    assert ack in Wire([ack]);
    PlayMore(actions + [first], second, true, c, false, d);
    actions := actions + [first] + [second];
  }

  // ----- exactly when -----

  lemma {:induction false} FlipPlays(actions: seq<Action>, lc: bool, c: nat, rc: bool, d: nat)
    requires Plays(actions, lc, c, rc, d)
    ensures Plays(FlipAll(actions), rc, d, lc, c) && After(BLANK, FlipAll(actions)) == Flip(After(BLANK, actions))
  {
    FlipRun(actions);
    FlipCast(actions, lc, c, rc, d);
  }

  lemma {:induction false} FlipCast(actions: seq<Action>, lc: bool, c: nat, rc: bool, d: nat)
    requires Cast(actions, lc, c, rc, d)
    ensures Cast(FlipAll(actions), rc, d, lc, c)
  {
    if actions != [] {
      var front, a := Front(actions), Last(actions);
      assert a in actions && forall b | b in front :: b in actions;
      FlipCast(front, lc, c, rc, d);
      CastOne(a, lc, c, rc, d);
      CastConcat(FlipAll(front), [FlipAction(a)], rc, d, lc, c);
    }
  }

  lemma {:induction false} CastOne(a: Action, lc: bool, c: nat, rc: bool, d: nat)
    requires PlaysAs(a, lc, c, rc, d)
    ensures Cast([FlipAction(a)], rc, d, lc, c)
  {
  }

  lemma {:induction false} CastConcat(a: seq<Action>, b: seq<Action>, lc: bool, c: nat, rc: bool, d: nat)
    requires Cast(a, lc, c, rc, d) && Cast(b, lc, c, rc, d)
    ensures Cast(a + b, lc, c, rc, d)
  {
  }

  lemma {:induction false} OneRunAgrees(actions: seq<Action>, lc: bool, c: nat, rc: bool, d: nat)
    requires Plays(actions, lc, c, rc, d) && BothEstablished(After(BLANK, actions)) && (!(lc && rc) || c == d)
    ensures SameToken(After(BLANK, actions))
  {
    if c == d {
      TokenStays(actions, lc, rc, c);
    } else if lc {
      TokensAgree(actions, c, d);
    } else if rc {
      FlipPlays(actions, lc, c, rc, d);
      TokensAgree(FlipAll(actions), d, c);
    } else {
      AcceptorsStayQuiet(actions, c, d);
    }
  }

  /**
   With one attempt each, two established endpoints always hold the same token, if and only if they do
   not both connect or happen to have drawn the same token.
   */
  lemma {:induction false} AgreementExactly(lc: bool, c: nat, rc: bool, d: nat)
    ensures AlwaysAgree(lc, c, rc, d) <==> !(lc && rc) || c == d
  {
    if lc && rc && c != d {
      var actions := TokensCanCross(c, d);
    } else {
      forall actions | Plays(actions, lc, c, rc, d) && BothEstablished(After(BLANK, actions))
        ensures SameToken(After(BLANK, actions))
      {
        OneRunAgrees(actions, lc, c, rc, d);
      }
    }
  }
}
