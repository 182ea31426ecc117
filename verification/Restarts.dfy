/**
 A connector and an acceptor that may both start over, any number of times.  Tokens then
 agree exactly as long as the last SYNC the acceptor handled since its own last start
 was sent in the connector's current attempt.
 */
module Restarts {
  import opened Handshake
  import opened Network
  import opened Agreement
  import opened Options

  /** The left side only ever connects, the right side only ever accepts. */
  ghost predicate RolesKept(actions: seq<Action>)
  {
    forall a | a in actions && a.Start? :: a.connector == a.atLeft
  }

  /** The tokens drawn by one side, in order. */
  ghost function Tokens(actions: seq<Action>, l: bool): seq<nat>
  {
    if actions == [] then []
    else Tokens(Front(actions), l) + if Last(actions).Start? && Last(actions).atLeft == l then [Last(actions).newToken] else []
  }

  ghost predicate Distinct(s: seq<nat>) { forall i, j | 0 <= i < j < |s| :: s[i] != s[j] }

  /** No token is drawn twice, by either side. */
  ghost predicate FreshTokens(actions: seq<Action>) { Distinct(Tokens(actions, true) + Tokens(actions, false)) }

  /** The acceptor takes a SYNC in this step. */
  ghost predicate TakesSync(a: Action, p: Packet) { a == Deliver(false, p) && WellMade(p) && p.kind == SYNC }

  /** The last SYNC the acceptor handled since it last started. */
  ghost function Heard(actions: seq<Action>): Option<Packet>
  {
    if actions == [] then None
    else
      var a := Last(actions);
      if a.Start? && !a.atLeft then None
      else if a.Deliver? && TakesSync(a, a.packet) then Some(a.packet)
      else Heard(Front(actions))
  }

  ghost predicate Handled(actions: seq<Action>, p: Packet) { exists a :: a in actions && TakesSync(a, p) }

  /** The packet was sent by the connector in the attempt it is numbered with. */
  ghost predicate Traced(p: Packet, tokens: seq<nat>)
  {
    1 <= p.attempt <= |tokens| && p.token == tokens[p.attempt - 1]
  }

  /** The acceptor's token: the last one heard, or its own. */
  ghost predicate RightToken(s: Session, heard: Option<Packet>, own: seq<nat>)
  {
    && s.attempt == |own| && !s.initiator && (own == [] ==> !s.open && heard == None)
    && (heard.Some? ==> s.token == heard.value.token)
    && (heard.None? && own != [] ==> s.token == own[|own| - 1])
  }

  ghost predicate LeftToken(s: Session, own: seq<nat>)
  {
    && s.attempt == |own| && (own == [] ==> !s.open && s.phase == Idle)
    && (own != [] ==> s.initiator && s.token == own[|own| - 1])
  }

  /** Acknowledgements answer a SYNC of the connector's. */
  ghost predicate Answers(actions: seq<Action>, q: Packet, tokens: seq<nat>)
  {
    exists p :: Handled(actions, p) && p.token == q.token && Traced(p, tokens)
  }

  ghost predicate WiresOk(actions: seq<Action>, s: System, tokens: seq<nat>)
  {
    && (forall p | p in s.toRight :: Traced(p, tokens) && p.kind != SYNC_ACK)
    && (forall p | p in s.toLeft :: p.kind != SYNC && p.kind != SYNC_CONFIRM)
    && (forall p | p in s.toLeft && p.kind == SYNC_ACK :: Answers(actions, p, tokens))
  }

  /** What holds after any run. */
  ghost predicate History(actions: seq<Action>, s: System)
  {
    var tokens := Tokens(actions, true);
    && LeftToken(s.left, tokens) && RightToken(s.right, Heard(actions), Tokens(actions, false))
    && (Heard(actions).Some? ==> Traced(Heard(actions).value, tokens))
    && WiresOk(actions, s, tokens)
    && (s.left.phase == Established ==> Acked(s, s.left.token))
  }

  // ----- every step keeps it -----

  lemma {:induction false} TracedStays(p: Packet, tokens: seq<nat>, more: seq<nat>)
    requires Traced(p, tokens)
    ensures Traced(p, tokens + more)
  {
  }

  lemma {:induction false} AnswersStays(actions: seq<Action>, a: Action, q: Packet, tokens: seq<nat>, more: seq<nat>)
    requires Answers(actions, q, tokens)
    ensures Answers(actions + [a], q, tokens + more)
  {
    var p :| Handled(actions, p) && p.token == q.token && Traced(p, tokens);
    TracedStays(p, tokens, more);
    var b :| b in actions && TakesSync(b, p);
    assert b in actions + [a];
    assert Handled(actions + [a], p);
  }

  lemma {:induction false} WiresStay(actions: seq<Action>, a: Action, s: System, tokens: seq<nat>, more: seq<nat>)
    requires WiresOk(actions, s, tokens)
    ensures WiresOk(actions + [a], s, tokens + more)
  {
    forall p | p in s.toRight
      ensures Traced(p, tokens + more)
    {
      TracedStays(p, tokens, more);
    }
    forall p | p in s.toLeft && p.kind == SYNC_ACK
      ensures Answers(actions + [a], p, tokens + more)
    {
      AnswersStays(actions, a, p, tokens, more);
    }
  }

  /** How one more step changes what is remembered. */
  lemma {:induction false} Remember(actions: seq<Action>, a: Action)
    ensures Tokens(actions + [a], true) == Tokens(actions, true) + if a.Start? && a.atLeft then [a.newToken] else []
    ensures Tokens(actions + [a], false) == Tokens(actions, false) + if a.Start? && !a.atLeft then [a.newToken] else []
    ensures Heard(actions + [a]) ==
            if a.Start? && !a.atLeft then None
            else if a.Deliver? && TakesSync(a, a.packet) then Some(a.packet) else Heard(actions)
  {
    assert Front(actions + [a]) == actions && Last(actions + [a]) == a;
  }

  /** A step of the connector. */
  lemma {:induction false} LeftStep(s: Session, a: Action, own: seq<nat>)
    requires LeftToken(s, own) && a.atLeft && (a.Start? ==> a.connector) && (a.Start? || s.open)
    requires a.Deliver? ==> a.packet.kind != SYNC && a.packet.kind != SYNC_CONFIRM
    ensures var more := own + if a.Start? then [a.newToken] else [];
            && LeftToken(Changed(s, a), more)
            && (forall p | p in Sent(s, a) :: Traced(p, more) && p.kind != SYNC_ACK)
    ensures Changed(s, a).phase == Established ==>
              (s.phase == Established && !a.Start?) || (a.Deliver? && a.packet.kind == SYNC_ACK && a.packet.token == s.token)
  {
  }

  lemma {:induction false} LeftKeeps(actions: seq<Action>, s: System, a: Action)
    requires History(actions, s) && Enabled(s, a) && a.atLeft && (a.Start? ==> a.connector)
    ensures History(actions + [a], Next(s, a))
  {
    var tokens, more := Tokens(actions, true), if a.Start? then [a.newToken] else [];
    Remember(actions, a);
    LeftStep(s.left, a, tokens);
    WiresStay(actions, a, s, tokens, more);
    if Heard(actions).Some? {
      TracedStays(Heard(actions).value, tokens, more);
    }
    var t := Next(s, a);
    assert t.toLeft == s.toLeft && t.right == s.right;
    assert Acked(s, s.left.token) ==> Acked(t, s.left.token);
  }

  /** A step of the acceptor. */
  lemma {:induction false} RightStep(s: Session, a: Action, heard: Option<Packet>, own: seq<nat>)
    requires RightToken(s, heard, own) && !a.atLeft && (a.Start? ==> !a.connector) && (a.Start? || s.open) && !a.Resend?
    requires a.Deliver? ==> a.packet.kind != SYNC_ACK
    ensures var more := own + if a.Start? then [a.newToken] else [];
            var now := if a.Start? then None else if a.Deliver? && TakesSync(a, a.packet) then Some(a.packet) else heard;
            RightToken(Changed(s, a), now, more)
    ensures forall q | q in Sent(s, a) ::
              && q.kind != SYNC && q.kind != SYNC_CONFIRM
              && (q.kind == SYNC_ACK ==> a.Deliver? && TakesSync(a, a.packet) && q.token == a.packet.token)
  {
  }

  lemma {:induction false} RightWires(actions: seq<Action>, s: System, a: Action, tokens: seq<nat>, sent: seq<Packet>, r: Session)
    requires WiresOk(actions + [a], s, tokens)
    requires forall q | q in sent ::
               && q.kind != SYNC && q.kind != SYNC_CONFIRM
               && (q.kind == SYNC_ACK ==> a.Deliver? && TakesSync(a, a.packet) && q.token == a.packet.token)
    requires a.Deliver? ==> Traced(a.packet, tokens)
    ensures WiresOk(actions + [a], Put(s, false, r, sent), tokens)
  {
    forall q | q in sent && q.kind == SYNC_ACK
      ensures Answers(actions + [a], q, tokens)
    {
      assert a in actions + [a];
      assert Handled(actions + [a], a.packet);
    }
  }

  lemma {:induction false} RightKeeps(actions: seq<Action>, s: System, a: Action)
    requires History(actions, s) && Enabled(s, a) && !a.atLeft && (a.Start? ==> !a.connector)
    ensures History(actions + [a], Next(s, a))
  {
    var tokens := Tokens(actions, true);
    Remember(actions, a);
    RightStep(s.right, a, Heard(actions), Tokens(actions, false));
    WiresStay(actions, a, s, tokens, []);
    assert tokens + [] == tokens;
    RightWires(actions, s, a, tokens, Sent(s.right, a), Changed(s.right, a));
    var t := Next(s, a);
    assert t.left == s.left && s.toLeft <= t.toLeft;
    assert Acked(s, s.left.token) ==> Acked(t, s.left.token);
  }

  lemma {:induction false} EveryRunHas(actions: seq<Action>)
    requires Run(BLANK, actions) && RolesKept(actions)
    ensures History(actions, After(BLANK, actions))
  {
    if actions != [] {
      var front, a := Front(actions), Last(actions);
      RunFront(BLANK, actions);
      assert a in actions && forall b | b in front :: b in actions;
      EveryRunHas(front);
      if a.atLeft {
        LeftKeeps(front, After(BLANK, front), a);
      } else {
        RightKeeps(front, After(BLANK, front), a);
      }
    }
  }

  // ----- what it means -----

  lemma {:induction false} SameAttempt(actions: seq<Action>, p: Packet)
    requires FreshTokens(actions) && Traced(p, Tokens(actions, true)) && Tokens(actions, true) != []
    ensures var own := Tokens(actions, true); p.token == own[|own| - 1] <==> p.attempt == |own|
  {
    var own, all := Tokens(actions, true), Tokens(actions, true) + Tokens(actions, false);
    assert all[p.attempt - 1] == p.token && all[|own| - 1] == own[|own| - 1];
  }

  lemma {:induction false} OwnTokensDiffer(actions: seq<Action>)
    requires FreshTokens(actions) && Tokens(actions, true) != [] && Tokens(actions, false) != []
    ensures var a, b := Tokens(actions, true), Tokens(actions, false); a[|a| - 1] != b[|b| - 1]
  {
    var a, b := Tokens(actions, true), Tokens(actions, false);
    var all := a + b;
    assert all[|a| - 1] == a[|a| - 1] && all[|all| - 1] == b[|b| - 1];
  }

  /**
   After any run in which both have started, with fresh tokens: the tokens agree if and only if the
   last SYNC the acceptor handled since its own last start was sent in the connector's current attempt.
   */
  lemma {:induction false} TokensAgreeExactly(actions: seq<Action>)
    requires Run(BLANK, actions) && RolesKept(actions) && FreshTokens(actions)
    requires After(BLANK, actions).left.attempt > 0 && After(BLANK, actions).right.attempt > 0
    ensures var s, heard := After(BLANK, actions), Heard(actions);
            SameToken(s) <==> heard.Some? && heard.value.attempt == s.left.attempt
  {
    EveryRunHas(actions);
    HistoryDecides(actions, After(BLANK, actions));
  }

  lemma {:induction false} HistoryDecides(actions: seq<Action>, s: System)
    requires History(actions, s) && FreshTokens(actions) && s.left.attempt > 0 && s.right.attempt > 0
    ensures SameToken(s) <==> Heard(actions).Some? && Heard(actions).value.attempt == s.left.attempt
  {
    OwnTokensDiffer(actions);
    if Heard(actions).Some? {
      SameAttempt(actions, Heard(actions).value);
    }
  }

  /**
   After any run, an established connector has had its current token acknowledged, and the acceptor did
   handle a SYNC of the connector's current attempt.
   */
  lemma {:induction false} ConnectedMeansHeard(actions: seq<Action>)
    requires Run(BLANK, actions) && RolesKept(actions) && FreshTokens(actions)
    requires After(BLANK, actions).left.phase == Established
    ensures var s := After(BLANK, actions);
            Acked(s, s.left.token) && exists p :: Handled(actions, p) && p.attempt == s.left.attempt
  {
    EveryRunHas(actions);
    AckedMeansHeard(actions, After(BLANK, actions));
  }

  lemma {:induction false} AnswerIsCurrent(actions: seq<Action>, q: Packet, own: seq<nat>)
    requires own == Tokens(actions, true) && own != [] && FreshTokens(actions)
    requires Answers(actions, q, own) && q.token == own[|own| - 1]
    ensures exists p :: Handled(actions, p) && p.attempt == |own|
  {
    var p :| Handled(actions, p) && p.token == q.token && Traced(p, own);
    SameAttempt(actions, p);
  }

  lemma {:induction false} AckedMeansHeard(actions: seq<Action>, s: System)
    requires History(actions, s) && FreshTokens(actions) && s.left.phase == Established
    ensures exists p :: Handled(actions, p) && p.attempt == s.left.attempt
  {
    var own := Tokens(actions, true);
    var q :| q in s.toLeft && q.kind == SYNC_ACK && q.token == s.left.token;
    AnswerIsCurrent(actions, q, own);
  }

  // ----- starting over -----

  /** A run of a connector and an acceptor with fresh tokens and a bounded number of attempts each. */
  ghost predicate Retries(actions: seq<Action>, m: nat, n: nat)
  {
    && Run(BLANK, actions) && RolesKept(actions) && FreshTokens(actions)
    && After(BLANK, actions).left.attempt <= m && After(BLANK, actions).right.attempt <= n
  }

  /** A run so far, with the tokens drawn. */
  ghost predicate Reached(actions: seq<Action>, s: System, lefts: seq<nat>, rights: seq<nat>)
  {
    && Run(BLANK, actions) && RolesKept(actions) && After(BLANK, actions) == s
    && Tokens(actions, true) == lefts && Tokens(actions, false) == rights
  }

  lemma {:induction false} Onward(actions: seq<Action>, s: System, lefts: seq<nat>, rights: seq<nat>, a: Action)
    requires Reached(actions, s, lefts, rights) && Enabled(s, a) && (a.Start? ==> a.connector == a.atLeft)
    ensures Reached(actions + [a], Next(s, a), lefts + (if a.Start? && a.atLeft then [a.newToken] else []),
                    rights + if a.Start? && !a.atLeft then [a.newToken] else [])
  {
    RunMore(BLANK, actions, a);
    Remember(actions, a);
  }

  function Message(kind: nat, token: nat, attempt: nat): Packet { Packet(MAGIC, VERSION, kind, token, HEADER, attempt) }

  /** A connector with token `c` and an acceptor with token `d`, both started. */
  lemma {:induction false} Opening(c: nat, d: nat) returns (actions: seq<Action>, s: System)
    ensures Reached(actions, s, [c], [d])
    ensures s == System(Session(Syncing, c, true, true, 1), Session(Syncing, d, false, true, 1), {}, {Message(SYNC, c, 1)})
  {
    var t;
    actions, t := ConnectorStarts(c);
    var second := Start(false, false, d);
    Onward(actions, t, [c], [], second);
    assert [] + [d] == [d] && [c] + [] == [c] && Wire([]) == {};
    actions, s := actions + [second], Next(t, second);
  }

  lemma {:induction false} ConnectorStarts(c: nat) returns (actions: seq<Action>, s: System)
    ensures Reached(actions, s, [c], [])
    ensures s == System(Session(Syncing, c, true, true, 1), FRESH, {}, {Message(SYNC, c, 1)})
  {
    var first, sync := Start(true, true, c), Message(SYNC, c, 1);
    assert Reached([], BLANK, [], []);
    Onward([], BLANK, [], [], first);
    assert [] + [c] == [c] && Wire([sync]) == {sync};
    actions, s := [] + [first], Next(BLANK, first);
    assert s.toRight == {sync};
  }

  lemma {:induction false} OnwardQuietly(actions: seq<Action>, s: System, lefts: seq<nat>, rights: seq<nat>, a: Action)
    requires Reached(actions, s, lefts, rights) && Enabled(s, a) && !a.Start?
    ensures Reached(actions + [a], Next(s, a), lefts, rights)
  {
    Onward(actions, s, lefts, rights, a);
    assert lefts + [] == lefts && rights + [] == rights;
  }

  /** The exchange of an attempt `k` with token `t`, from its SYNC to the confirmation. */
  lemma {:induction false} Exchange(before: seq<Action>, s: System, lefts: seq<nat>, rights: seq<nat>, t: nat, k: nat, d: nat)
    returns (actions: seq<Action>, done: System)
    requires Reached(before, s, lefts, rights) && Message(SYNC, t, k) in s.toRight
    requires s.left == Session(Syncing, t, true, true, k) && s.right == Session(Syncing, d, false, true, 1)
    ensures Reached(actions, done, lefts, rights)
    ensures done.left == Session(Established, t, true, true, k) && done.right == Session(Established, t, false, true, 1)
    ensures s.toRight <= done.toRight && Message(SYNC_CONFIRM, t, k) in done.toRight
  {
    var first, ack := Deliver(false, Message(SYNC, t, k)), Message(SYNC_ACK, t, 1);
    OnwardQuietly(before, s, lefts, rights, first);
    var mid := Next(s, first);
    assert mid.right == Session(Established, t, false, true, 1) && mid.toLeft == s.toLeft + Wire([ack]) && ack in Wire([ack]);
    OnwardQuietly(before + [first], mid, lefts, rights, Deliver(true, ack));
    actions, done := before + [first] + [Deliver(true, ack)], Next(mid, Deliver(true, ack));
    assert Message(SYNC_CONFIRM, t, k) in Wire([Message(SYNC_CONFIRM, t, k)]);
  }

  /**
   A connector that starts over: the acceptor, established by the new attempt, can fall back to the
   token of the abandoned one.
   */
  lemma {:induction false} ConnectorRestart(c: nat, d: nat, c': nat) returns (actions: seq<Action>)
    requires c != c' && c != d && c' != d
    ensures Retries(actions, 2, 1) && BothEstablished(After(BLANK, actions)) && !SameToken(After(BLANK, actions))
  {
    var s;
    actions, s := Opening(c, d);
    var again := Start(true, true, c');
    Onward(actions, s, [c], [d], again);
    assert [c] + [c'] == [c, c'] && [d] + [] == [d];
    assert Message(SYNC, c', 2) in Wire([Message(SYNC, c', 2)]);
    actions, s := Exchange(actions + [again], Next(s, again), [c, c'], [d], c', 2, d);
    var late := Deliver(false, Message(SYNC, c, 1));
    OnwardQuietly(actions, s, [c, c'], [d], late);
    actions := actions + [late];
    assert [c, c'] + [d] == [c, c', d];
  }

  /**
   An acceptor that starts over: a confirmation meant for its abandoned attempt establishes the new one,
   with a token the connector has never seen, since the token of a confirmation is not looked at.
   */
  lemma {:induction false} AcceptorRestart(c: nat, d: nat, d': nat) returns (actions: seq<Action>)
    requires c != d && c != d' && d != d'
    ensures Retries(actions, 1, 2) && BothEstablished(After(BLANK, actions)) && !SameToken(After(BLANK, actions))
    ensures After(BLANK, actions).right.token == d'
  {
    var s;
    actions, s := Opening(c, d);
    actions, s := Exchange(actions, s, [c], [d], c, 1, d);
    var again, late := Start(false, false, d'), Deliver(false, Message(SYNC_CONFIRM, c, 1));
    Onward(actions, s, [c], [d], again);
    assert [c] + [] == [c] && [d] + [d'] == [d, d'];
    OnwardQuietly(actions + [again], Next(s, again), [c], [d, d'], late);
    actions := actions + [again] + [late];
    assert [c] + [d, d'] == [c, d, d'];
  }

  lemma {:induction false} TokenDrawn(actions: seq<Action>, a: Action)
    requires a in actions && a.Start?
    ensures a.newToken in Tokens(actions, a.atLeft)
  {
    if a != Last(actions) {
      assert actions == Front(actions) + [Last(actions)];
      TokenDrawn(Front(actions), a);
    }
  }

  lemma {:induction false} SingleAttemptsAgree(actions: seq<Action>)
    requires Retries(actions, 1, 1) && BothEstablished(After(BLANK, actions))
    ensures SameToken(After(BLANK, actions))
  {
    EveryRunHas(actions);
    var c, d := OnlyTokens(actions);
    TokensAgree(actions, c, d);
  }

  lemma {:induction false} OnlyOne(s: seq<nat>, x: nat)
    requires x in s && |s| <= 1
    ensures s != [] && x == s[0]
  {
  }

  lemma {:induction false} OnlyTokens(actions: seq<Action>) returns (c: nat, d: nat)
    requires RolesKept(actions) && |Tokens(actions, true)| <= 1 && |Tokens(actions, false)| <= 1
    ensures Cast(actions, true, c, false, d)
  {
    var a, b := Tokens(actions, true), Tokens(actions, false);
    c, d := if a == [] then 0 else a[0], if b == [] then 0 else b[0];
    forall x | x in actions && x.Start?
      ensures PlaysAs(x, true, c, false, d)
    {
      TokenDrawn(actions, x);
      OnlyOne(Tokens(actions, x.atLeft), x.newToken);
    }
  }

  /**
   Two established endpoints always agree if and only if neither may start over: bounds of one attempt
   each suffice, and either bound above one allows disagreement.
   */
  lemma {:induction false} RestartsExactly(m: nat, n: nat)
    requires m > 0 && n > 0
    ensures (forall actions | Retries(actions, m, n) && BothEstablished(After(BLANK, actions)) :: SameToken(After(BLANK, actions)))
            <==> m == 1 && n == 1
  {
    if m > 1 {
      var actions := ConnectorRestart(1, 2, 3);
      assert Retries(actions, m, n);
    } else if n > 1 {
      var actions := AcceptorRestart(1, 2, 3);
      assert Retries(actions, m, n);
    } else {
      forall actions | Retries(actions, m, n) && BothEstablished(After(BLANK, actions))
        ensures SameToken(After(BLANK, actions))
      {
        SingleAttemptsAgree(actions);
      }
    }
  }
}
