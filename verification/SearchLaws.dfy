/**
 What news, announcements, queries and restarts do to the candidates of a search, one
 candidate at a time, and what any sequence of replies leads to.
 */
module SearchLaws {
  import opened Ids
  import opened Tables
  import opened Closest
  import opened SearchLists
  import opened Prefixes
  import opened Options

  // ----- news -----

  ghost predicate TokenGiven(w: News) { w.token.Some? && |w.token.value| < 40 }

  /** What news `w` makes of a candidate known as `o`. */
  ghost predicate BroughtUpToDate(o: SearchNode, n: SearchNode, w: News)
  {
    && n.id == o.id && n.addr == w.addr && n.acked == o.acked
    && (w.replied ==> n.replied && n.replyTime == w.now && n.requestTime == 0 && n.pinged == 0)
    && (!w.replied ==> n.replied == o.replied && n.replyTime == o.replyTime && n.requestTime == o.requestTime && n.pinged == o.pinged)
    && (TokenGiven(w) ==> n.token == w.token.value) && (!TokenGiven(w) ==> n.token == o.token)
  }

  /** The entry of a candidate first heard of by news `w`: never asked, never acknowledged. */
  ghost predicate FirstHeard(n: SearchNode, w: News)
  {
    && n.id == w.id && n.addr == w.addr && !n.acked && n.requestTime == 0 && n.pinged == 0 && n.replied == w.replied
    && (w.replied ==> n.replyTime == w.now) && (!w.replied ==> n.replyTime == 0)
    && (TokenGiven(w) ==> n.token == w.token.value) && (!TokenGiven(w) ==> n.token == [])
  }

  /** The entry `n` for the candidate `w` is about, in a list that was `l`. */
  ghost predicate EntryFor(l: seq<SearchNode>, n: SearchNode, w: News)
  {
    && (forall o | o in l && o.id == w.id :: BroughtUpToDate(o, n, w))
    && ((forall o | o in l :: o.id != w.id) ==> FirstHeard(n, w))
  }

  /** Nobody but the candidate the news is about is affected, save the farthest one, which may have to make room. */
  ghost predicate OthersKept(l: seq<SearchNode>, r: seq<SearchNode>, x: Id)
  {
    && (forall n | n in r && n.id != x :: n in l)
    && (forall n | n in l && n.id != x :: n in r || (|l| == SEARCH_NODES && n == l[SEARCH_NODES - 1]))
  }

  lemma {:induction false} StampMeans(n: SearchNode, w: News)
    ensures BroughtUpToDate(n, Stamp(n, w), w)
    ensures n == Blank(w.id, w.addr) ==> FirstHeard(Stamp(n, w), w)
  {
  }

  /** Taking in a piece of news, candidate by candidate. */
  lemma {:induction false} OfferNewsMeans(l: seq<SearchNode>, w: News, target: Id)
    requires |l| <= SEARCH_NODES && Sorted(SearchIds(l), target)
    ensures var r := OfferNews(l, w, target); OthersKept(l, r, w.id) && forall n | n in r && n.id == w.id :: EntryFor(l, n, w)
  {
    var i := Position(SearchIds(l), w.id, target);
    SortedMissing(SearchIds(l), w.id, target);
    if i < |l| && l[i].id == w.id {
      StampMeans(l[i], w);
      UpdateMeans(l, i, Stamp(l[i], w), w, target);
    } else {
      AbsentId(l, w.id);
      if i < SEARCH_NODES {
        StampMeans(Blank(w.id, w.addr), w);
        InsertMembers(l, i, Stamp(Blank(w.id, w.addr), w), SEARCH_NODES);
      }
    }
  }

  lemma {:induction false} AbsentId(l: seq<SearchNode>, x: Id)
    requires x !in SearchIds(l)
    ensures forall n | n in l :: n.id != x
  {
    forall n | n in l
      ensures n.id != x
    {
      var j :| 0 <= j < |l| && l[j] == n;
      assert SearchIds(l)[j] == n.id;
    }
  }

  lemma {:induction false} UpdateMeans(l: seq<SearchNode>, i: nat, n: SearchNode, w: News, target: Id)
    requires i < |l| && Sorted(SearchIds(l), target) && l[i].id == w.id && BroughtUpToDate(l[i], n, w)
    ensures OthersKept(l, l[i := n], w.id) && forall m | m in l[i := n] && m.id == w.id :: EntryFor(l, m, w)
  {
    SortedDistinct(l, i, target);
    var r := l[i := n];
    forall m | m in l && m.id != w.id
      ensures m in r
    {
      var j :| 0 <= j < |l| && l[j] == m;
      assert r[j] == m;
    }
  }

  // ----- replies complete a search -----

  /** One of the eight closest live candidates that has yet to reply. */
  ghost predicate Pending(l: seq<SearchNode>, target: Id, n: SearchNode) { AmongClosestLive(l, 8, target, n) && !n.replied }

  /** Whoever is closer than one that stays in the list stays too. */
  lemma {:induction false} CloserStays(l: seq<SearchNode>, r: seq<SearchNode>, x: Id, target: Id, m: SearchNode, n: SearchNode)
    requires Sorted(SearchIds(l), target) && OthersKept(l, r, x) && m in l && n in l && m.id != x && Closer(m.id, n.id, target)
    ensures m in r
  {
    var ids := SearchIds(l);
    var j :| 0 <= j < |l| && l[j] == n;
    CloserTotal(m.id, n.id, target);
    CloserTotal(n.id, n.id, target);
    assert j < |l| - 1 ==> Closer(ids[j], ids[|l| - 1], target);
  }

  lemma {:induction false} OfferNewsSorted(l: seq<SearchNode>, w: News, target: Id)
    requires |l| <= SEARCH_NODES && Sorted(SearchIds(l), target)
    ensures Sorted(SearchIds(OfferNews(l, w, target)), target)
  {
    OfferNewsIds(l, w, target);
    OfferSorted(SearchIds(l), w.id, target);
  }

  /** If the id is in the list it stays, so closer candidates never become fewer. */
  lemma {:induction false} KnownStays(l: seq<SearchNode>, w: News, target: Id) returns (e: SearchNode)
    requires |l| <= SEARCH_NODES && Sorted(SearchIds(l), target) && w.id in SearchIds(l)
    ensures e in OfferNews(l, w, target) && e.id == w.id
  {
    var i := Position(SearchIds(l), w.id, target);
    SortedMissing(SearchIds(l), w.id, target);
    var r := OfferNews(l, w, target);
    e := r[i];
  }

  lemma {:induction false} CloserLiveGrows(l: seq<SearchNode>, w: News, target: Id, n: SearchNode)
    requires |l| <= SEARCH_NODES && Sorted(SearchIds(l), target) && w.replied && n in l
    ensures |CloserLive(l, target, n)| <= |CloserLive(OfferNews(l, w, target), target, n)|
  {
    var r := OfferNews(l, w, target);
    var a, b := CloserLive(l, target, n), CloserLive(r, target, n);
    OfferNewsMeans(l, w, target);
    forall m | m in a && m.id != w.id
      ensures m in b
    {
      CloserStays(l, r, w.id, target, m, n);
    }
    if o :| o in a && o.id == w.id {
      assert o in l;
      var j :| 0 <= j < |l| && l[j] == o;
      SortedDistinct(l, j, target);
      assert SearchIds(l)[j] == w.id;
      var e := KnownStays(l, w, target);
      assert EntryFor(l, e, w) && BroughtUpToDate(o, e, w);
      assert e in b;
      assert a - {o} <= b - {e};
      SubsetSize(a - {o}, b - {e});
    } else {
      assert a <= b;
      SubsetSize(a, b);
    }
  }

  /** A reply leaves nobody pending who was not, and its sender no longer is. */
  lemma {:induction false} ReplyLeavesPending(l: seq<SearchNode>, w: News, target: Id, n: SearchNode)
    requires |l| <= SEARCH_NODES && Sorted(SearchIds(l), target) && w.replied && Pending(OfferNews(l, w, target), target, n)
    ensures Pending(l, target, n) && n.id != w.id
  {
    OfferNewsMeans(l, w, target);
    SenderReplied(l, w, target);
    CloserLiveGrows(l, w, target, n);
  }

  lemma {:induction false} SenderReplied(l: seq<SearchNode>, w: News, target: Id)
    requires |l| <= SEARCH_NODES && Sorted(SearchIds(l), target) && w.replied
    ensures forall n | n in OfferNews(l, w, target) && n.id == w.id :: n.replied
  {
    OfferNewsMeans(l, w, target);
    forall n | n in OfferNews(l, w, target) && n.id == w.id
      ensures n.replied
    {
      assert EntryFor(l, n, w);
    }
  }

  /** A list after a sequence of news. */
  ghost function OfferEach(l: seq<SearchNode>, ws: seq<News>, target: Id): (r: seq<SearchNode>)
    requires |l| <= SEARCH_NODES
    ensures |r| <= SEARCH_NODES
    decreases |ws|
  {
    if ws == [] then l else OfferNews(OfferEach(l, ws[..|ws| - 1], target), ws[|ws| - 1], target)
  }

  lemma {:induction false} OfferEachSorted(l: seq<SearchNode>, ws: seq<News>, target: Id)
    requires |l| <= SEARCH_NODES && Sorted(SearchIds(l), target)
    ensures Sorted(SearchIds(OfferEach(l, ws, target)), target)
    decreases |ws|
  {
    if ws != [] {
      OfferEachSorted(l, ws[..|ws| - 1], target);
      OfferNewsSorted(OfferEach(l, ws[..|ws| - 1], target), ws[|ws| - 1], target);
    }
  }

  ghost predicate AllReplies(ws: seq<News>) { forall i | 0 <= i < |ws| :: ws[i].replied }

  lemma {:induction false} AllRepliesFront(ws: seq<News>)
    requires AllReplies(ws) && ws != []
    ensures AllReplies(ws[..|ws| - 1]) && ws[|ws| - 1].replied
  {
  }

  /** Whoever is pending after any replies was pending before. */
  lemma {:induction false} RepliesLeavePending(l: seq<SearchNode>, ws: seq<News>, target: Id, n: SearchNode)
    requires |l| <= SEARCH_NODES && Sorted(SearchIds(l), target) && AllReplies(ws)
    requires Pending(OfferEach(l, ws, target), target, n)
    ensures Pending(l, target, n)
    decreases |ws|
  {
    if ws != [] {
      AllRepliesFront(ws);
      LastReplyLeavesPending(l, ws, target, n);
      RepliesLeavePending(l, ws[..|ws| - 1], target, n);
    }
  }

  /** ... and has sent none of them. */
  lemma {:induction false} PendingSentNone(l: seq<SearchNode>, ws: seq<News>, target: Id, n: SearchNode, i: nat)
    requires |l| <= SEARCH_NODES && Sorted(SearchIds(l), target) && AllReplies(ws) && i < |ws|
    requires Pending(OfferEach(l, ws, target), target, n)
    ensures ws[i].id != n.id
    decreases |ws|
  {
    AllRepliesFront(ws);
    LastReplyLeavesPending(l, ws, target, n);
    if i < |ws| - 1 {
      PendingSentNone(l, ws[..|ws| - 1], target, n, i);
    }
  }

  lemma {:induction false} LastReplyLeavesPending(l: seq<SearchNode>, ws: seq<News>, target: Id, n: SearchNode)
    requires |l| <= SEARCH_NODES && Sorted(SearchIds(l), target) && ws != [] && ws[|ws| - 1].replied
    requires Pending(OfferEach(l, ws, target), target, n)
    ensures Pending(OfferEach(l, ws[..|ws| - 1], target), target, n) && ws[|ws| - 1].id != n.id
  {
    OfferEachSorted(l, ws[..|ws| - 1], target);
    ReplyLeavesPending(OfferEach(l, ws[..|ws| - 1], target), ws[|ws| - 1], target, n);
  }

  /**
   Once each of the eight closest live candidates has replied, in whatever order and whoever else has
   replied among them, the next step of a search that does not announce ends it.
   */
  lemma {:induction false} RepliesEndSearch(s: SearchState, ws: seq<News>, target: Id, now: int)
    requires !s.done && s.port == 0 && |s.nodes| <= SEARCH_NODES && Sorted(SearchIds(s.nodes), target)
    requires AllReplies(ws)
    requires forall n | AmongClosestLive(s.nodes, 8, target, n) && !n.replied :: exists i :: 0 <= i < |ws| && ws[i].id == n.id
    ensures Step(s.(nodes := OfferEach(s.nodes, ws, target)), now).done
  {
    var l := OfferEach(s.nodes, ws, target);
    OfferEachSorted(s.nodes, ws, target);
    forall n | AmongClosestLive(l, 8, target, n)
      ensures n.replied
    {
      if !n.replied {
        RepliesLeavePending(s.nodes, ws, target, n);
        var i :| 0 <= i < |ws| && ws[i].id == n.id;
        PendingSentNone(s.nodes, ws, target, n, i);
      }
    }
    DoneExactly(s.(nodes := l), now, target);
  }

  // ----- one pass over the candidates -----

  /** Announced to: without a token there is nobody to tell, and whoever has acknowledged is left alone. */
  ghost predicate Told(o: SearchNode, n: SearchNode, now: int)
  {
    && (o.token == [] ==> n == o.(acked := true))
    && (o.token != [] && o.acked ==> n == o)
    && (o.token != [] && !o.acked ==> n == o.(pinged := o.pinged + 1, requestTime := now))
  }

  /** Unanswered, asked less than three times, and not asked within the last ten seconds. */
  ghost predicate Overdue(n: SearchNode, now: int) { n.pinged < 3 && !n.replied && n.requestTime < now - 10 }

  ghost predicate Asked(o: SearchNode, n: SearchNode, now: int) { n == o.(pinged := o.pinged + 1, requestTime := now) }

  /** A candidate that was asked is not due again for ten seconds. */
  lemma {:induction false} AskedNotDue(o: SearchNode, n: SearchNode, now: int, later: int)
    requires Asked(o, n, now) && later <= now + 10
    ensures !Due(n, later)
  {
  }

  lemma {:induction false} AnnouncedExactly(l: seq<SearchNode>, k: nat, now: int, target: Id, i: nat)
    requires i < |l| && Sorted(SearchIds(l), target)
    ensures AmongClosestLive(l, k, target, l[i]) ==> Told(l[i], Announced(l, k, now)[i], now)
    ensures !AmongClosestLive(l, k, target, l[i]) ==> Announced(l, k, now)[i] == l[i]
  {
    SortedSuffix(l, target);
    NoneCloserThanFirst(l, target);
    if i > 0 && k > 0 {
      var k' := if Live(l[0]) then k - 1 else k;
      LiveInTail(l, k, target, i);
      AnnouncedExactly(l[1..], k', now, target, i - 1);
      assert Announced(l, k, now)[i] == Announced(l[1..], k', now)[i - 1];
    }
  }

  lemma {:induction false} LiveInTail(l: seq<SearchNode>, k: nat, target: Id, i: nat)
    requires 0 < i < |l| && k > 0 && l[0] !in l[1..] && Closer(l[0].id, l[i].id, target)
    ensures var k' := if Live(l[0]) then k - 1 else k;
            AmongClosestLive(l, k, target, l[i]) <==> AmongClosestLive(l[1..], k', target, l[1..][i - 1])
  {
    CloserLiveStep(l, target, l[i]);
  }

  /** The due candidates closer to the target than `n`. */
  ghost function CloserDue(l: seq<SearchNode>, target: Id, n: SearchNode, now: int): set<SearchNode>
  {
    set m | m in l && Overdue(m, now) && Closer(m.id, n.id, target)
  }

  /** `n` is one of the `k` closest due candidates. */
  ghost predicate AmongClosestDue(l: seq<SearchNode>, k: nat, target: Id, n: SearchNode, now: int)
  {
    n in l && Overdue(n, now) && |CloserDue(l, target, n, now)| < k
  }

  lemma {:induction false} CloserDueStep(l: seq<SearchNode>, target: Id, n: SearchNode, now: int)
    requires l != [] && l[0] !in l[1..] && Closer(l[0].id, n.id, target)
    ensures |CloserDue(l, target, n, now)| == |CloserDue(l[1..], target, n, now)| + if Overdue(l[0], now) then 1 else 0
  {
    var rest := CloserDue(l[1..], target, n, now);
    assert forall m :: m in l <==> m == l[0] || m in l[1..];
    if Overdue(l[0], now) {
      assert CloserDue(l, target, n, now) == rest + {l[0]};
    } else {
      assert CloserDue(l, target, n, now) == rest;
    }
  }

  lemma {:induction false} DueInTail(l: seq<SearchNode>, k: nat, target: Id, i: nat, now: int)
    requires 0 < i < |l| && k > 0 && l[0] !in l[1..] && Closer(l[0].id, l[i].id, target)
    ensures var k' := if Overdue(l[0], now) then k - 1 else k;
            AmongClosestDue(l, k, target, l[i], now) <==> AmongClosestDue(l[1..], k', target, l[1..][i - 1], now)
  {
    CloserDueStep(l, target, l[i], now);
  }

  lemma {:induction false} NoneDueBeforeFirst(l: seq<SearchNode>, target: Id, now: int)
    requires l != [] && forall m | m in l[1..] :: Closer(l[0].id, m.id, target)
    ensures CloserDue(l, target, l[0], now) == {}
  {
    forall m | m in l
      ensures !Closer(m.id, l[0].id, target)
    {
      CloserTotal(m.id, l[0].id, target);
      assert m == l[0] || m in l[1..];
    }
  }

  lemma {:induction false} QueriedExactly(l: seq<SearchNode>, k: nat, now: int, target: Id, i: nat)
    requires i < |l| && Sorted(SearchIds(l), target)
    ensures AmongClosestDue(l, k, target, l[i], now) ==> Asked(l[i], Queried(l, k, now)[i], now)
    ensures !AmongClosestDue(l, k, target, l[i], now) ==> Queried(l, k, now)[i] == l[i]
  {
    SortedSuffix(l, target);
    NoneCloserThanFirst(l, target);
    NoneDueBeforeFirst(l, target, now);
    if i > 0 && k > 0 {
      var k' := if Due(l[0], now) then k - 1 else k;
      DueInTail(l, k, target, i, now);
      QueriedExactly(l[1..], k', now, target, i - 1);
      assert Queried(l, k, now)[i] == Queried(l[1..], k', now)[i - 1];
    }
  }

  // ----- one step -----

  /** Each of the eight closest live candidates has replied. */
  ghost predicate Answered(l: seq<SearchNode>, target: Id) { forall n | AmongClosestLive(l, 8, target, n) :: n.replied }

  ghost predicate ToldClosest(l: seq<SearchNode>, r: seq<SearchNode>, target: Id, now: int)
  {
    |r| == |l| && forall i | 0 <= i < |l| ::
      if AmongClosestLive(l, 8, target, l[i]) then Told(l[i], r[i], now) else r[i] == l[i]
  }

  ghost predicate AskedClosest(l: seq<SearchNode>, r: seq<SearchNode>, target: Id, now: int)
  {
    |r| == |l| && forall i | 0 <= i < |l| ::
      if AmongClosestDue(l, 4, target, l[i], now) then Asked(l[i], r[i], now) else r[i] == l[i]
  }

  /** What a step makes of a search, candidate by candidate. */
  ghost predicate Stepped(s: SearchState, t: SearchState, target: Id, now: int)
  {
    && t.port == s.port
    && (!s.done ==> (t.done <==> && Answered(s.nodes, target)
                                 && (s.port == 0 || forall n | AmongClosestLive(s.nodes, 8, target, n) :: n.acked || n.token == [])))
    && (Answered(s.nodes, target) && s.port == 0 ==> t.nodes == s.nodes && t.stepTime == now)
    && (Answered(s.nodes, target) && s.port != 0 ==> ToldClosest(s.nodes, t.nodes, target, now) && t.stepTime == now)
    && (!Answered(s.nodes, target) && now <= s.stepTime + 10 ==> t == s)
    && (!Answered(s.nodes, target) && now > s.stepTime + 10 ==>
          AskedClosest(s.nodes, t.nodes, target, now) && t.stepTime == now && t.done == s.done)
  }

  lemma {:induction false} ToldByPass(l: seq<SearchNode>, target: Id, now: int)
    requires Sorted(SearchIds(l), target)
    ensures ToldClosest(l, Announced(l, 8, now), target, now)
  {
    forall i | 0 <= i < |l|
      ensures var r := Announced(l, 8, now); if AmongClosestLive(l, 8, target, l[i]) then Told(l[i], r[i], now) else r[i] == l[i]
    {
      AnnouncedExactly(l, 8, now, target, i);
    }
  }

  lemma {:induction false} AskedByPass(l: seq<SearchNode>, target: Id, now: int)
    requires Sorted(SearchIds(l), target)
    ensures AskedClosest(l, Queried(l, INFLIGHT_QUERIES, now), target, now)
  {
    forall i | 0 <= i < |l|
      ensures var r := Queried(l, INFLIGHT_QUERIES, now);
              if AmongClosestDue(l, 4, target, l[i], now) then Asked(l[i], r[i], now) else r[i] == l[i]
    {
      QueriedExactly(l, INFLIGHT_QUERIES, now, target, i);
    }
  }

  lemma {:induction false} RepliedIsAnswered(l: seq<SearchNode>, target: Id)
    requires Sorted(SearchIds(l), target)
    ensures AllReplied(l, 8) <==> Answered(l, target)
    ensures forall n :: n in FirstLive(l, 8) <==> AmongClosestLive(l, 8, target, n)
  {
    forall n
      ensures n in FirstLive(l, 8) <==> AmongClosestLive(l, 8, target, n)
    {
      FirstLiveExactly(l, 8, target, n);
    }
  }

  /** While answers are missing, nothing is done within ten seconds of the last step. */
  lemma {:induction false} TooSoon(s: SearchState, target: Id, now: int)
    requires Sorted(SearchIds(s.nodes), target) && !Answered(s.nodes, target) && now <= s.stepTime + 10
    ensures Step(s, now) == s
  {
    RepliedIsAnswered(s.nodes, target);
  }

  lemma {:induction false} StepExactly(s: SearchState, target: Id, now: int)
    requires Sorted(SearchIds(s.nodes), target)
    ensures Stepped(s, Step(s, now), target, now)
  {
    RepliedIsAnswered(s.nodes, target);
    ToldByPass(s.nodes, target, now);
    AskedByPass(s.nodes, target, now);
  }

  // ----- starting over -----

  /** Not asked and not heard from in this run of the search. */
  ghost predicate Unasked(n: SearchNode) { n.pinged == 0 && n.token == [] && !n.replied && !n.acked }

  ghost predicate AllUnasked(l: seq<SearchNode>) { forall n | n in l :: Unasked(n) }

  ghost predicate Afresh(o: SearchNode, n: SearchNode)
  {
    n.id == o.id && n.addr == o.addr && n.requestTime == o.requestTime && n.replyTime == o.replyTime && Unasked(n)
  }

  /** Answers, and has done so in the last two hours. */
  ghost predicate WorthKeeping(o: SearchNode, now: int) { o.pinged < 3 && o.replyTime >= now - 7200 }

  /** `r` holds what is worth keeping of `l`, afresh, and nothing else. */
  ghost predicate StartedOver(l: seq<SearchNode>, r: seq<SearchNode>, now: int)
  {
    && AllUnasked(r)
    && (forall n | n in r :: exists o :: o in l && WorthKeeping(o, now) && Afresh(o, n))
    && (forall o | o in l && WorthKeeping(o, now) :: exists n :: n in r && Afresh(o, n))
  }

  lemma {:induction false} TakenUnasked(kept: seq<SearchNode>, l: seq<SearchNode>)
    requires AllUnasked(kept) && AllTakenFrom(kept, l)
    ensures AllUnasked(l)
  {
    forall n | n in l
      ensures Unasked(n)
    {
      assert TakenFrom(kept, n);
    }
  }

  /** A search whose candidates have not been asked is complete only if it has none. */
  lemma {:induction false} UnaskedIncomplete(s: SearchState, target: Id)
    requires AllUnasked(s.nodes) && Sorted(SearchIds(s.nodes), target)
    ensures Complete(s, target) <==> s.nodes == []
  {
    if s.nodes != [] {
      var n := s.nodes[0];
      assert n in s.nodes;
      SortedSuffix(s.nodes, target);
      NoneCloserThanFirst(s.nodes, target);
      assert AmongClosestLive(s.nodes, 8, target, n);
    }
  }

  // ----- dropping candidates -----

  /** Dropping an id drops nothing else. */
  lemma {:induction false} WithoutExactly(l: seq<SearchNode>, id: Id, n: SearchNode)
    ensures multiset(Without(l, id))[n] == if n.id == id then 0 else multiset(l)[n]
  {
    if l != [] {
      var h, t := if l[0].id == id then [] else [l[0]], Without(l[1..], id);
      WithoutExactly(l[1..], id, n);
      assert Without(l, id) == h + t && multiset(h + t) == multiset(h) + multiset(t);
      assert l == [l[0]] + l[1..];
    }
  }
}
