/**
 The list of candidates kept by a search, as a value: offering candidates to it, and
 what one step of the search makes of it.
 */
module SearchLists {
  import opened Ids
  import opened Prefixes
  import opened Tables
  import opened Closest
  import opened Options

  const SEARCH_NODES: nat := 14
  const INFLIGHT_QUERIES: nat := 4
  const RETRANSMIT: int := 10

  datatype SearchNode = SearchNode(id: Id, addr: Address, requestTime: int, replyTime: int, pinged: int,
                                   token: seq<Byte>, replied: bool, acked: bool)

  ghost function SearchIds(l: seq<SearchNode>): (r: seq<Id>)
    ensures |r| == |l| && forall i | 0 <= i < |l| :: r[i] == l[i].id
  {
    seq(|l|, i requires 0 <= i < |l| => l[i].id)
  }

  // ----- offering candidates -----

  /** What one piece of news about a candidate says. */
  datatype News = News(id: Id, addr: Address, replied: bool, token: Option<seq<Byte>>, now: int)

  function Blank(id: Id, addr: Address): SearchNode
  {
    SearchNode(id, addr, 0, 0, 0, [], false, false)
  }

  /** An entry brought up to date; tokens of forty bytes or more are ignored. */
  function Stamp(n: SearchNode, w: News): (r: SearchNode)
    ensures r.id == n.id
  {
    var a := n.(addr := w.addr);
    var b := if w.replied then a.(replied := true, replyTime := w.now, requestTime := 0, pinged := 0) else a;
    if w.token.Some? && |w.token.value| < 40 then b.(token := w.token.value) else b
  }

  ghost function OfferNews(l: seq<SearchNode>, w: News, target: Id): (r: seq<SearchNode>)
    requires |l| <= SEARCH_NODES
    ensures |r| <= SEARCH_NODES
  {
    var i := Position(SearchIds(l), w.id, target);
    if i < |l| && l[i].id == w.id then l[i := Stamp(l[i], w)]
    else if i == SEARCH_NODES then l
    else InsertAt(l, i, Stamp(Blank(w.id, w.addr), w), SEARCH_NODES)
  }

  lemma {:induction false} OfferNewsIds(l: seq<SearchNode>, w: News, target: Id)
    requires |l| <= SEARCH_NODES
    ensures SearchIds(OfferNews(l, w, target)) == Offer(SearchIds(l), w.id, target, SEARCH_NODES)
  {
    var i := Position(SearchIds(l), w.id, target);
    if i < |l| && l[i].id == w.id {
      UpdateIds(l, i, Stamp(l[i], w));
    } else if i < SEARCH_NODES {
      InsertIds(l, i, Stamp(Blank(w.id, w.addr), w));
    }
  }

  lemma {:induction false} OfferSorted(ids: seq<Id>, x: Id, target: Id)
    requires Sorted(ids, target) && |ids| <= SEARCH_NODES
    ensures Sorted(Offer(ids, x, target, SEARCH_NODES), target)
    ensures Position(ids, x, target) == SEARCH_NODES ==> x !in ids
  {
    var i := Position(ids, x, target);
    BeforePosition(ids, x, target);
    SortedMissing(ids, x, target);
    if !((i < |ids| && ids[i] == x) || i == SEARCH_NODES) {
      InsertSorted(ids, i, x, target, SEARCH_NODES);
    }
  }

  lemma {:induction false} UpdateIds(l: seq<SearchNode>, i: nat, n: SearchNode)
    requires i < |l| && n.id == l[i].id
    ensures SearchIds(l[i := n]) == SearchIds(l)
  {
  }

  lemma {:induction false} InsertIds(l: seq<SearchNode>, i: nat, n: SearchNode)
    requires i <= |l| <= SEARCH_NODES && i < SEARCH_NODES
    ensures SearchIds(InsertAt(l, i, n, SEARCH_NODES)) == InsertAt(SearchIds(l), i, n.id, SEARCH_NODES)
  {
  }

  /** A candidate taken over from `kept`, its address perhaps updated, or one never asked before. */
  ghost predicate TakenFrom(kept: seq<SearchNode>, n: SearchNode)
  {
    (exists m :: m in kept && n == m.(addr := n.addr)) || n == Blank(n.id, n.addr)
  }

  ghost predicate AllTakenFrom(kept: seq<SearchNode>, l: seq<SearchNode>) { forall n | n in l :: TakenFrom(kept, n) }

  /** News of a node that has not replied leaves everything but its address as it was. */
  lemma {:induction false} OfferNewsTaken(kept: seq<SearchNode>, l: seq<SearchNode>, w: News, target: Id)
    requires |l| <= SEARCH_NODES && AllTakenFrom(kept, l) && !w.replied && w.token == None
    ensures AllTakenFrom(kept, OfferNews(l, w, target))
  {
    var i := Position(SearchIds(l), w.id, target);
    if i < |l| && l[i].id == w.id {
      UpdateTaken(kept, l, i, Stamp(l[i], w));
    } else if i < SEARCH_NODES {
      InsertMembers(l, i, Stamp(Blank(w.id, w.addr), w), SEARCH_NODES);
    }
  }

  lemma {:induction false} UpdateTaken(kept: seq<SearchNode>, l: seq<SearchNode>, i: nat, n: SearchNode)
    requires AllTakenFrom(kept, l) && i < |l| && n == l[i].(addr := n.addr)
    ensures AllTakenFrom(kept, l[i := n])
  {
    assert TakenFrom(kept, l[i]);
    forall x | x in l[i := n]
      ensures TakenFrom(kept, x)
    {
      assert x == n || x in l;
    }
  }

  ghost function OfferAllNews(ws: seq<News>, target: Id): (r: seq<SearchNode>)
    ensures |r| <= SEARCH_NODES
  {
    if ws == [] then [] else OfferNews(OfferAllNews(ws[..|ws| - 1], target), ws[|ws| - 1], target)
  }

  ghost function NewsIds(ws: seq<News>): (r: seq<Id>)
    ensures |r| == |ws| && forall i | 0 <= i < |ws| :: r[i] == ws[i].id
  {
    seq(|ws|, i requires 0 <= i < |ws| => ws[i].id)
  }

  lemma {:induction false} OfferAllNewsIds(ws: seq<News>, target: Id)
    ensures SearchIds(OfferAllNews(ws, target)) == OfferAll(NewsIds(ws), target, SEARCH_NODES)
  {
    if ws != [] {
      OfferAllNewsIds(ws[..|ws| - 1], target);
      OfferNewsIds(OfferAllNews(ws[..|ws| - 1], target), ws[|ws| - 1], target);
      assert NewsIds(ws)[..|ws| - 1] == NewsIds(ws[..|ws| - 1]);
    }
  }

  /** After any run of offers the search holds exactly the fourteen closest ids offered. */
  lemma {:induction false} SearchHoldsClosest(ws: seq<News>, target: Id)
    ensures KClosest(SearchIds(OfferAllNews(ws, target)), Members(NewsIds(ws)), target, 14)
  {
    OfferAllNewsIds(ws, target);
    OfferAllClosest(NewsIds(ws), target, SEARCH_NODES);
  }

  /** ... and the order in which they came, or came again, does not matter. */
  lemma {:induction false} SearchOrderIrrelevant(ws: seq<News>, vs: seq<News>, target: Id)
    requires Members(NewsIds(ws)) == Members(NewsIds(vs))
    ensures SearchIds(OfferAllNews(ws, target)) == SearchIds(OfferAllNews(vs, target))
  {
    OfferAllNewsIds(ws, target);
    OfferAllNewsIds(vs, target);
    OfferOrderIrrelevant(NewsIds(ws), NewsIds(vs), target, SEARCH_NODES);
  }

  // ----- dropping candidates -----

  function Without(l: seq<SearchNode>, id: Id): seq<SearchNode>
  {
    if l == [] then [] else (if l[0].id == id then [] else [l[0]]) + Without(l[1..], id)
  }

  lemma {:induction false} WithoutAbsent(l: seq<SearchNode>, id: Id)
    requires forall n | n in l :: n.id != id
    ensures Without(l, id) == l
  {
    if l != [] {
      WithoutAbsent(l[1..], id);
    }
  }

  /** In an ordered list an id occurs at most once, so flushing its position removes it. */
  lemma {:induction false} FlushRemoves(l: seq<SearchNode>, i: nat, target: Id)
    requires i < |l| && Sorted(SearchIds(l), target)
    ensures l[..i] + l[i + 1..] == Without(l, l[i].id)
    ensures forall n | n in l[..i] + l[i + 1..] :: n.id != l[i].id
  {
    SortedDistinct(l, i, target);
    WithoutOne(l, i);
    WithoutLacks(l, l[i].id);
  }

  lemma {:induction false} WithoutOne(l: seq<SearchNode>, i: nat)
    requires i < |l| && forall j | 0 <= j < |l| && j != i :: l[j].id != l[i].id
    ensures l[..i] + l[i + 1..] == Without(l, l[i].id)
  {
    if i == 0 {
      WithoutAbsent(l[1..], l[0].id);
      assert l[..0] + l[1..] == l[1..];
    } else {
      WithoutOne(l[1..], i - 1);
      assert l[1..][..i - 1] + l[1..][i..] == l[1..i] + l[i + 1..];
      assert [l[0]] + (l[1..i] + l[i + 1..]) == l[..i] + l[i + 1..];
    }
  }

  lemma {:induction false} WithoutLacks(l: seq<SearchNode>, id: Id)
    ensures forall n | n in Without(l, id) :: n.id != id
  {
    if l != [] {
      WithoutLacks(l[1..], id);
    }
  }

  lemma {:induction false} SortedDistinct(l: seq<SearchNode>, i: nat, target: Id)
    requires i < |l| && Sorted(SearchIds(l), target)
    ensures forall j | 0 <= j < |l| && j != i :: l[j].id != l[i].id
  {
    var ids := SearchIds(l);
    forall j | 0 <= j < |l| && j != i
      ensures l[j].id != l[i].id
    {
      var p, q := if j < i then j else i, if j < i then i else j;
      assert Closer(ids[p], ids[q], target);
      CloserTotal(ids[p], ids[q], target);
    }
  }

  lemma {:induction false} FlushSorted(l: seq<SearchNode>, i: nat, target: Id)
    requires i < |l| && Sorted(SearchIds(l), target)
    ensures Sorted(SearchIds(l[..i] + l[i + 1..]), target)
  {
    var ids, rids := SearchIds(l), SearchIds(l[..i] + l[i + 1..]);
    assert rids == ids[..i] + ids[i + 1..];
    SortedGap(ids, i, target);
  }

  lemma {:induction false} SortedGap(ids: seq<Id>, i: nat, target: Id)
    requires i < |ids| && Sorted(ids, target)
    ensures Sorted(ids[..i] + ids[i + 1..], target)
  {
    var r := ids[..i] + ids[i + 1..];
    forall p, q | 0 <= p < q < |r|
      ensures Closer(r[p], r[q], target)
    {
      var p', q' := if p < i then p else p + 1, if q < i then q else q + 1;
      assert r[p] == ids[p'] && r[q] == ids[q'];
    }
  }

  // ----- one step of a search -----

  predicate Live(n: SearchNode) { n.pinged < 3 }

  /** The first `k` live candidates. */
  function FirstLive(l: seq<SearchNode>, k: nat): seq<SearchNode>
  {
    if k == 0 || l == [] then []
    else if Live(l[0]) then [l[0]] + FirstLive(l[1..], k - 1)
    else FirstLive(l[1..], k)
  }

  /** The live candidates closer to the target than `n`. */
  ghost function CloserLive(l: seq<SearchNode>, target: Id, n: SearchNode): set<SearchNode>
  {
    set m | m in l && Live(m) && Closer(m.id, n.id, target)
  }

  /** `n` is one of the `k` closest live candidates: it is live, and fewer than `k` live ones are closer. */
  ghost predicate AmongClosestLive(l: seq<SearchNode>, k: nat, target: Id, n: SearchNode)
  {
    n in l && Live(n) && |CloserLive(l, target, n)| < k
  }

  lemma {:induction false} SortedSuffix(l: seq<SearchNode>, target: Id)
    requires l != [] && Sorted(SearchIds(l), target)
    ensures Sorted(SearchIds(l[1..]), target)
    ensures forall m | m in l[1..] :: Closer(l[0].id, m.id, target)
  {
    var ids := SearchIds(l);
    assert SearchIds(l[1..]) == ids[1..];
    forall m | m in l[1..]
      ensures Closer(l[0].id, m.id, target)
    {
      var j :| 0 <= j < |l| - 1 && l[1..][j] == m;
      assert Closer(ids[0], ids[j + 1], target);
    }
  }

  /** Nothing is closer than the first of an ordered list. */
  lemma {:induction false} NoneCloserThanFirst(l: seq<SearchNode>, target: Id)
    requires l != [] && forall m | m in l[1..] :: Closer(l[0].id, m.id, target)
    ensures CloserLive(l, target, l[0]) == {} && l[0] !in l[1..]
  {
    forall m | m in l
      ensures !Closer(m.id, l[0].id, target)
    {
      CloserTotal(m.id, l[0].id, target);
      assert m == l[0] || m in l[1..];
    }
    CloserTotal(l[0].id, l[0].id, target);
  }

  /** How the first of an ordered list adds to what is closer than a later one. */
  lemma {:induction false} CloserLiveStep(l: seq<SearchNode>, target: Id, n: SearchNode)
    requires l != [] && l[0] !in l[1..] && Closer(l[0].id, n.id, target)
    ensures |CloserLive(l, target, n)| == |CloserLive(l[1..], target, n)| + if Live(l[0]) then 1 else 0
  {
    var rest := CloserLive(l[1..], target, n);
    assert forall m :: m in l <==> m == l[0] || m in l[1..];
    assert CloserLive(l, target, n) == rest + if Live(l[0]) then {l[0]} else {};
  }

  /** The scan over an ordered list does pick the `k` closest live candidates, no more and no fewer. */
  lemma {:induction false} FirstLiveExactly(l: seq<SearchNode>, k: nat, target: Id, n: SearchNode)
    requires Sorted(SearchIds(l), target)
    ensures n in FirstLive(l, k) <==> AmongClosestLive(l, k, target, n)
  {
    if l != [] {
      SortedSuffix(l, target);
      NoneCloserThanFirst(l, target);
      if n in l[1..] {
        CloserLiveStep(l, target, n);
      }
      if k > 0 {
        FirstLiveExactly(l[1..], if Live(l[0]) then k - 1 else k, target, n);
      }
    }
  }

  predicate AllReplied(l: seq<SearchNode>, k: nat) { forall n | n in FirstLive(l, k) :: n.replied }

  /** Acknowledged, or unable to be announced to for want of a token. */
  predicate Settled(n: SearchNode) { n.acked || n.token == [] }

  predicate AllSettled(l: seq<SearchNode>, k: nat) { forall n | n in FirstLive(l, k) :: Settled(n) }

  function AnnounceTo(n: SearchNode, now: int): SearchNode
  {
    if n.token == [] then n.(acked := true)
    else if n.acked then n
    else n.(pinged := n.pinged + 1, requestTime := now)
  }

  /** Announces to those of the first `k` live candidates that have not acknowledged. */
  function Announced(l: seq<SearchNode>, k: nat, now: int): (r: seq<SearchNode>)
    ensures |r| == |l|
  {
    if k == 0 || l == [] then l
    else if Live(l[0]) then [AnnounceTo(l[0], now)] + Announced(l[1..], k - 1, now)
    else [l[0]] + Announced(l[1..], k, now)
  }

  predicate Due(n: SearchNode, now: int)
  {
    n.pinged < 3 && !n.replied && n.requestTime < now - RETRANSMIT
  }

  function Query(n: SearchNode, now: int): SearchNode { n.(pinged := n.pinged + 1, requestTime := now) }

  /** Queries the first `k` candidates that are due. */
  function Queried(l: seq<SearchNode>, k: nat, now: int): (r: seq<SearchNode>)
    ensures |r| == |l|
  {
    if k == 0 || l == [] then l
    else if Due(l[0], now) then [Query(l[0], now)] + Queried(l[1..], k - 1, now)
    else [l[0]] + Queried(l[1..], k, now)
  }

  datatype SearchState = SearchState(nodes: seq<SearchNode>, stepTime: int, port: nat, done: bool)

  /** Everything one step does to a search. */
  function Step(s: SearchState, now: int): SearchState
  {
    if AllReplied(s.nodes, 8) then
      if s.port == 0 then s.(stepTime := now, done := true)
      else
        var t := s.(nodes := Announced(s.nodes, 8, now), stepTime := now);
        if AllSettled(s.nodes, 8) then t.(done := true) else t
    else if s.stepTime + RETRANSMIT >= now then s
    else s.(nodes := Queried(s.nodes, INFLIGHT_QUERIES, now), stepTime := now)
  }

  /** What a search waits for: the eight closest live candidates have replied and, to announce, are settled. */
  ghost predicate Complete(s: SearchState, target: Id)
  {
    forall n | AmongClosestLive(s.nodes, 8, target, n) :: n.replied && (s.port == 0 || Settled(n))
  }

  /** A step ends a search exactly when it is complete. */
  lemma {:induction false} DoneExactly(s: SearchState, now: int, target: Id)
    requires !s.done && Sorted(SearchIds(s.nodes), target)
    ensures Step(s, now).done <==> Complete(s, target)
  {
    forall n
      ensures n in FirstLive(s.nodes, 8) <==> AmongClosestLive(s.nodes, 8, target, n)
    {
      FirstLiveExactly(s.nodes, 8, target, n);
    }
  }

  lemma {:induction false} SettledUnchanged(l: seq<SearchNode>, k: nat, now: int)
    requires AllSettled(l, k)
    ensures forall n | n in FirstLive(Announced(l, k, now), k) :: n.acked
    ensures |FirstLive(Announced(l, k, now), k)| == |FirstLive(l, k)|
  {
    if k > 0 && l != [] {
      var r := Announced(l, k, now);
      var k' := if Live(l[0]) then k - 1 else k;
      assert FirstLive(l, k) == (if Live(l[0]) then [l[0]] else []) + FirstLive(l[1..], k');
      forall n | n in FirstLive(l[1..], k')
        ensures Settled(n)
      {
        assert n in FirstLive(l, k);
      }
      SettledUnchanged(l[1..], k', now);
      assert r[1..] == Announced(l[1..], k', now);
      if Live(l[0]) {
        assert l[0] in FirstLive(l, k);
        assert Live(r[0]) && r[0].acked;
      }
    }
  }

  /** When an announcing search ends, its eight closest live candidates are all acknowledged. */
  lemma {:induction false} DoneMeansAcked(s: SearchState, now: int, target: Id)
    requires !s.done && s.port != 0 && Step(s, now).done && Sorted(SearchIds(Step(s, now).nodes), target)
    ensures forall n | AmongClosestLive(Step(s, now).nodes, 8, target, n) :: n.acked
  {
    SettledUnchanged(s.nodes, 8, now);
    var l := Step(s, now).nodes;
    forall n | AmongClosestLive(l, 8, target, n)
      ensures n.acked
    {
      FirstLiveExactly(l, 8, target, n);
    }
  }

  // ----- a silent network -----

  /** How many more queries the live candidates may be sent. */
  function Budget(l: seq<SearchNode>): nat
  {
    if l == [] then 0 else (if Live(l[0]) && l[0].pinged >= 0 then 3 - l[0].pinged else 0) + Budget(l[1..])
  }

  /** Attempts are counted from zero, and nothing was asked after the last step. */
  ghost predicate Paced(s: SearchState)
  {
    forall n | n in s.nodes :: n.pinged >= 0 && n.requestTime <= s.stepTime
  }

  lemma {:induction false} BudgetBound(l: seq<SearchNode>)
    ensures Budget(l) <= 3 * |l|
  {
    if l != [] {
      BudgetBound(l[1..]);
    }
  }

  lemma {:induction false} AnnouncedBudget(l: seq<SearchNode>, k: nat, now: int)
    requires forall n | n in l :: n.pinged >= 0
    ensures Budget(Announced(l, k, now)) <= Budget(l)
    ensures !AllSettled(l, k) ==> Budget(Announced(l, k, now)) < Budget(l)
  {
    if k > 0 && l != [] {
      var k' := if Live(l[0]) then k - 1 else k;
      assert l[0] in l && forall n | n in l[1..] :: n in l;
      AnnouncedBudget(l[1..], k', now);
      assert Announced(l, k, now)[1..] == Announced(l[1..], k', now);
      assert FirstLive(l, k) == (if Live(l[0]) then [l[0]] else []) + FirstLive(l[1..], k');
    }
  }

  lemma {:induction false} QueriedBudget(l: seq<SearchNode>, k: nat, now: int)
    requires forall n | n in l :: n.pinged >= 0
    ensures Budget(Queried(l, k, now)) <= Budget(l)
    ensures k > 0 && (exists n | n in l :: Due(n, now)) ==> Budget(Queried(l, k, now)) < Budget(l)
  {
    if k > 0 && l != [] {
      var k' := if Due(l[0], now) then k - 1 else k;
      assert l[0] in l && forall n | n in l[1..] :: n in l;
      QueriedBudget(l[1..], k', now);
      assert Queried(l, k, now)[1..] == Queried(l[1..], k', now);
      if !Due(l[0], now) && exists n | n in l :: Due(n, now) {
        var n :| n in l && Due(n, now);
        assert n in l[1..];
      }
    }
  }

  lemma {:induction false} FirstLiveMembers(l: seq<SearchNode>, k: nat)
    ensures forall n | n in FirstLive(l, k) :: n in l && Live(n)
  {
    if k > 0 && l != [] {
      FirstLiveMembers(l[1..], if Live(l[0]) then k - 1 else k);
    }
  }

  lemma {:induction false} AnnouncedPaced(l: seq<SearchNode>, k: nat, now: int, last: int)
    requires last <= now && forall n | n in l :: n.pinged >= 0 && n.requestTime <= last
    ensures forall n | n in Announced(l, k, now) :: n.pinged >= 0 && n.requestTime <= now
  {
    if k > 0 && l != [] {
      assert l[0] in l && forall n | n in l[1..] :: n in l;
      AnnouncedPaced(l[1..], if Live(l[0]) then k - 1 else k, now, last);
    }
  }

  lemma {:induction false} QueriedPaced(l: seq<SearchNode>, k: nat, now: int, last: int)
    requires last <= now && forall n | n in l :: n.pinged >= 0 && n.requestTime <= last
    ensures forall n | n in Queried(l, k, now) :: n.pinged >= 0 && n.requestTime <= now
  {
    if k > 0 && l != [] {
      assert l[0] in l && forall n | n in l[1..] :: n in l;
      QueriedPaced(l[1..], if Due(l[0], now) then k - 1 else k, now, last);
    }
  }

  /** A step more than ten seconds after the last one ends the search or uses up some of its budget. */
  lemma {:induction false} SilentStep(s: SearchState, now: int)
    requires Paced(s) && !s.done && now > s.stepTime + RETRANSMIT
    ensures var t := Step(s, now);
            Paced(t) && t.stepTime == now && t.port == s.port && |t.nodes| == |s.nodes|
    ensures Step(s, now).done || Budget(Step(s, now).nodes) < Budget(s.nodes)
  {
    AnnouncedPaced(s.nodes, 8, now, s.stepTime);
    QueriedPaced(s.nodes, INFLIGHT_QUERIES, now, s.stepTime);
    AnnouncedBudget(s.nodes, 8, now);
    QueriedBudget(s.nodes, INFLIGHT_QUERIES, now);
    if !AllReplied(s.nodes, 8) {
      FirstLiveMembers(s.nodes, 8);
      var n :| n in FirstLive(s.nodes, 8) && !n.replied;
      assert Due(n, now);
    }
  }

  /** Steps at the given times, stopping as soon as the search is done. */
  function SilentRun(s: SearchState, times: seq<int>): SearchState
    decreases |times|
  {
    if times == [] || s.done then s else SilentRun(Step(s, times[0]), times[1..])
  }

  ghost predicate Spaced(start: int, times: seq<int>)
    decreases |times|
  {
    times != [] ==> times[0] > start + RETRANSMIT && Spaced(times[0], times[1..])
  }

  /** With nobody answering, a search ends within as many steps as its budget, plus one. */
  lemma {:induction false} SilentSearchEnds(s: SearchState, times: seq<int>)
    requires Paced(s) && Spaced(s.stepTime, times) && |times| > Budget(s.nodes)
    ensures SilentRun(s, times).done
    decreases |times|
  {
    if !s.done {
      SilentStep(s, times[0]);
      var t := Step(s, times[0]);
      if t.done {
        assert SilentRun(t, times[1..]) == t;
      } else {
        SilentSearchEnds(t, times[1..]);
      }
    }
  }

  /** At most 42 spaced steps precede the end of a search on a silent network. */
  lemma {:induction false} FortyTwoSteps(s: SearchState, times: seq<int>)
    requires Paced(s) && |s.nodes| <= SEARCH_NODES && Spaced(s.stepTime, times) && |times| > 42
    ensures SilentRun(s, times).done
  {
    BudgetBound(s.nodes);
    SilentSearchEnds(s, times);
  }
}
