/**
 Scanning what was printed.  The scanner takes the first occurrence of every marker, so
 it recovers a packet exactly as long as each marker is first found where the printer
 wrote it, or is followed, where it is found, by bytes that happen to read the same.
 */
module RoundTrip {
  import opened Bytes
  import opened Messages
  import opened Packets
  import opened Printers
  import opened Sequences
  import opened Options

  // ----- markers in and out of place -----

  /** Where part `i` starts, if it has a marker. */
  ghost function Place(ps: seq<Part>, i: nat): Option<nat>
    requires i < |ps|
  {
    if ps[i].mark != [] then Some(Start(ps, i)) else None
  }

  /** A body is written after a `t` at place `w`; without a body there is no place. */
  ghost predicate Placed(buf: Bytes, t: Bytes, w: Option<nat>, body: Option<Bytes>)
  {
    if body.None? then w == None
    else w.Some? && exists pre, post :: |pre| == w.value && buf == pre + (t + body.value) + post
  }

  lemma {:induction false} PlacedSlot(ps: seq<Part>, i: nat, t: Bytes, body: Option<Bytes>)
    requires i < |ps| && ps[i] == Slot(t, body) && t != []
    ensures Placed(Concat(ps), t, Place(ps, i), body)
  {
    PartAt(ps, i);
  }

  /** Where the scanner finds a marker, if that is not its place. */
  ghost function Stray(buf: Bytes, t: Bytes, w: Option<nat>): (k: Option<nat>)
    ensures k.Some? ==> k.value + |t| <= |buf| && Find(buf, t) == k
  {
    var f := Find(buf, t);
    if f == w then None else f
  }

  /** A marker that does not stray is found in its place, in front of its body. */
  lemma {:induction false} InPlace(buf: Bytes, t: Bytes, w: Option<nat>, body: Option<Bytes>)
    returns (pre: Bytes, post: Bytes)
    requires Placed(buf, t, w, body) && Stray(buf, t, w) == None
    ensures body.None? ==> Find(buf, t) == None
    ensures body.Some? ==> Cut(buf, t, pre, body.value, post)
  {
    pre, post := [], [];
    if body.Some? {
      var a;
      a, post :| |a| == w.value && buf == a + (t + body.value) + post;
      pre := a + t;
      assert buf == a + t + (body.value + post);
      assert buf[|a|..|a| + |t|] == t;
      assert OccursAt(buf, t, |a|);
      assert buf == pre + body.value + post;
    }
  }

  /** The first `t` in the packet ends where `body` begins. */
  ghost predicate Cut(buf: Bytes, t: Bytes, pre: Bytes, body: Bytes, post: Bytes)
  {
    buf == pre + body + post && |t| <= |pre| && Find(buf, t) == Some(|pre| - |t|)
  }

  // ----- exactly when a field comes back -----

  /** A field is read, and read as `x`. */
  ghost predicate Reads(f: Field<Bytes>, default: Bytes, x: Bytes) { !f.Overflow? && OrElse(f, default) == x }

  function OrEmpty(x: Option<Bytes>): Bytes { if x.Some? then x.value else [] }

  function OrZero(x: Option<Bytes>): Bytes { if x.Some? then x.value else ZERO_ID }

  // A field marker is harmless if it does not stray, or if what follows it there happens to read as the
  // field should.

  ghost predicate FixedHarmless(buf: Bytes, t: Bytes, w: Option<nat>, x: Bytes)
  {
    var k := Stray(buf, t, w);
    k.Some? ==> Reads(FixedAt(buf, k.value + |t|), ZERO_ID, x)
  }

  ghost predicate CountedHarmless(buf: Bytes, t: Bytes, w: Option<nat>, limit: nat, x: Bytes)
  {
    var k := Stray(buf, t, w);
    k.Some? ==> Reads(CountedAt(buf, k.value + |t|, limit), [], x)
  }

  ghost predicate PortHarmless(buf: Bytes, t: Bytes, w: Option<nat>, n: nat)
  {
    var k := Stray(buf, t, w);
    k.Some? ==> PortAt(buf, k.value + |t|) == n
  }

  ghost predicate ValuesHarmless(buf: Bytes, w: Option<nat>, v: Peers)
  {
    var k := Stray(buf, VALUES_MARK, w);
    k.Some? ==> ValuesFrom(buf, k.value + |VALUES_MARK|, Peers([], [])) == Value(v)
  }

  ghost predicate WantHarmless(buf: Bytes, w: Option<nat>, v: Want)
  {
    var k := Stray(buf, WANT_MARK, w);
    k.Some? ==> WantFrom(buf, k.value + |WANT_MARK|, Want(false, false)) == v
  }

  lemma {:induction false} FixedInPlace(buf: Bytes, t: Bytes, w: Option<nat>, x: Option<Bytes>)
    requires Placed(buf, t, w, x) && (x.Some? ==> |x.value| == 20) && Stray(buf, t, w) == None
    ensures Fixed(buf, t) == if x.Some? then Value(x.value) else Absent
  {
    var pre, post := InPlace(buf, t, w, x);
    if x.Some? {
      assert buf[|pre|..|pre| + 20] == x.value;
    }
  }

  lemma {:induction false} FixedStray(buf: Bytes, t: Bytes, w: Option<nat>)
    ensures var k := Stray(buf, t, w); k.Some? ==> Fixed(buf, t) == FixedAt(buf, k.value + |t|)
  {
  }

  lemma {:induction false} FixedExactly(buf: Bytes, t: Bytes, w: Option<nat>, x: Option<Bytes>)
    requires Placed(buf, t, w, x) && (x.Some? ==> |x.value| == 20)
    ensures Reads(Fixed(buf, t), ZERO_ID, OrZero(x)) <==> FixedHarmless(buf, t, w, OrZero(x))
  {
    if Stray(buf, t, w) == None {
      FixedInPlace(buf, t, w, x);
    } else {
      FixedStray(buf, t, w);
    }
  }

  lemma {:induction false} EntryAt(pre: Bytes, x: Bytes, post: Bytes)
    ensures var buf := pre + Entry(x) + post;
            var n := Strtol(buf, |pre|);
            && n.value == |x| && |pre| < n.end && At(buf, n.end) == ':'
            && n.end + 1 + |x| == |pre + Entry(x)|
            && buf[n.end + 1..n.end + 1 + |x|] == x
  {
    var buf, tail := pre + Entry(x) + post, ":" + x + post;
    assert buf == pre + Dec(|x|) + tail;
    StrtolDec(pre, |x|, tail);
    var e := |pre| + |Dec(|x|)|;
    assert buf[e] == ':';
    assert buf[e + 1..e + 1 + |x|] == x;
  }

  lemma {:induction false} CountedCut(buf: Bytes, t: Bytes, pre: Bytes, x: Bytes, post: Bytes, limit: nat)
    requires Cut(buf, t, pre, Entry(x), post) && |x| < limit
    ensures Counted(buf, t, limit) == if x != [] then Value(x) else Absent
  {
    EntryAt(pre, x, post);
  }

  lemma {:induction false} CountedInPlace(buf: Bytes, t: Bytes, w: Option<nat>, x: Option<Bytes>, limit: nat)
    requires Placed(buf, t, w, CountedBody(x)) && (x.Some? ==> |x.value| < limit) && Stray(buf, t, w) == None
    ensures Counted(buf, t, limit) == if OrEmpty(x) != [] then Value(OrEmpty(x)) else Absent
  {
    var pre, post := InPlace(buf, t, w, CountedBody(x));
    if x.Some? {
      CountedCut(buf, t, pre, x.value, post, limit);
    }
  }

  lemma {:induction false} CountedStray(buf: Bytes, t: Bytes, w: Option<nat>, limit: nat)
    ensures var k := Stray(buf, t, w); k.Some? ==> Counted(buf, t, limit) == CountedAt(buf, k.value + |t|, limit)
  {
  }

  lemma {:induction false} CountedExactly(buf: Bytes, t: Bytes, w: Option<nat>, x: Option<Bytes>, limit: nat)
    requires Placed(buf, t, w, CountedBody(x)) && (x.Some? ==> |x.value| < limit)
    ensures Reads(Counted(buf, t, limit), [], OrEmpty(x)) <==> CountedHarmless(buf, t, w, limit, OrEmpty(x))
  {
    if Stray(buf, t, w) == None {
      CountedInPlace(buf, t, w, x, limit);
    } else {
      CountedStray(buf, t, w, limit);
    }
  }

  lemma {:induction false} NumberThenE(buf: Bytes, pre: Bytes, n: nat, post: Bytes)
    requires buf == pre + (Dec(n) + "e") + post
    ensures var e := |pre| + |Dec(n)|; Strtol(buf, |pre|) == Number(n, e) && At(buf, e) == 'e'
  {
    var tail := "e" + post;
    assert tail[0] == 'e';
    Regroup(pre, Dec(n), "e", post);
    assert buf == pre + Dec(n) + tail;
    StrtolDec(pre, n, tail);
  }

  function PortOf(n: Option<nat>): nat { if n.Some? then n.value else 0 }

  lemma {:induction false} PortCut(buf: Bytes, t: Bytes, pre: Bytes, n: nat, post: Bytes)
    requires Cut(buf, t, pre, Dec(n) + "e", post)
    ensures PortNumber(buf, t) == if n < 0x10000 then n else 0
  {
    NumberThenE(buf, pre, n, post);
  }

  /** An implied port is read back wherever it stands, as long as no other one stands before it. */
  lemma {:induction false} ImpliedPortBack(buf: Bytes, pre: Bytes, n: nat, post: Bytes)
    requires buf == pre + "12:implied_porti" + (Dec(n) + "e") + post
    requires forall k: nat | k < |pre| :: !OccursAt(buf, "12:implied_porti", k)
    ensures Fields(buf).impliedPort == if n < 0x10000 then n else 0
  {
    var t := "12:implied_porti";
    assert buf[|pre|..|pre| + |t|] == t;
    FindIs(buf, t, |pre|);
    assert |pre + t| - |t| == |pre|;
    PortCut(buf, t, pre + t, n, post);
  }

  lemma {:induction false} PortInPlace(buf: Bytes, t: Bytes, w: Option<nat>, n: Option<nat>)
    requires Placed(buf, t, w, NumberBody(n)) && PortOf(n) < 0x10000 && Stray(buf, t, w) == None
    ensures PortNumber(buf, t) == PortOf(n)
  {
    var pre, post := InPlace(buf, t, w, NumberBody(n));
    if n.Some? {
      PortCut(buf, t, pre, n.value, post);
    }
  }

  lemma {:induction false} PortExactly(buf: Bytes, t: Bytes, w: Option<nat>, n: Option<nat>)
    requires Placed(buf, t, w, NumberBody(n)) && PortOf(n) < 0x10000
    ensures PortNumber(buf, t) == PortOf(n) <==> PortHarmless(buf, t, w, PortOf(n))
  {
    if Stray(buf, t, w) == None {
      PortInPlace(buf, t, w, n);
    }
  }

  // ----- the list of values -----

  function AddAll(v: Peers, xs: seq<Bytes>): Peers
    decreases |xs|
  {
    if xs == [] then v else AddAll(AddValue(v, xs[0]), xs[1..])
  }

  lemma {:induction false} ItemOfEntry(pre: Bytes, x: Bytes, post: Bytes)
    requires x != []
    ensures var buf, next := pre + Entry(x) + post, pre + Entry(x);
            ItemAt(buf, |pre|) == Item(|next| - |x|, |next|) && buf[|next| - |x|..|next|] == x
  {
    EntryAt(pre, x, post);
  }

  lemma {:induction false} ValuesRead(pre: Bytes, xs: seq<Bytes>, post: Bytes, v: Peers)
    requires forall x | x in xs :: x != []
    ensures ValuesFrom(pre + (Entries(xs) + "e") + post, |pre|, v) == Value(AddAll(v, xs))
    decreases |xs|
  {
    if xs == [] {
      ListEnds(pre, post, v);
      assert Entries(xs) + "e" == "e";
    } else {
      assert xs[0] in xs && forall x | x in xs[1..] :: x in xs;
      ListGoesOn(pre, xs[0], Entries(xs[1..]) + "e", post, v);
      assert Entry(xs[0]) + (Entries(xs[1..]) + "e") == Entries(xs) + "e";
      ValuesRead(pre + Entry(xs[0]), xs[1..], post, AddValue(v, xs[0]));
    }
  }

  lemma {:induction false} ListEnds(pre: Bytes, post: Bytes, v: Peers)
    ensures ValuesFrom(pre + "e" + post, |pre|, v) == Value(v)
  {
    var buf := pre + "e" + post;
    assert At(buf, |pre|) == 'e';
    StrtolNone(buf, |pre|);
  }

  lemma {:induction false} ListGoesOn(pre: Bytes, x: Bytes, rest: Bytes, post: Bytes, v: Peers)
    requires x != []
    ensures var next := pre + Entry(x);
            ValuesFrom(pre + (Entry(x) + rest) + post, |pre|, v) == ValuesFrom(next + rest + post, |next|, AddValue(v, x))
  {
    ItemOfEntry(pre, x, rest + post);
    Regroup(pre, Entry(x), rest, post);
    Assoc(pre + Entry(x), rest, post);
    var buf, next := pre + Entry(x) + (rest + post), pre + Entry(x);
    assert ValuesFrom(buf, |pre|, v) == ValuesFrom(buf, |next|, AddValue(v, x));
  }

  /** The values of one length, joined. */
  function Joined(xs: seq<Bytes>, n: nat): Bytes
  {
    if xs == [] then [] else (if |xs[0]| == n then xs[0] else []) + Joined(xs[1..], n)
  }

  lemma {:induction false} AddAllJoined(v: Peers, xs: seq<Bytes>)
    requires |v.v4| + |Joined(xs, 6)| <= VALUES_LIMIT && |v.v6| + |Joined(xs, 18)| <= VALUES_LIMIT
    ensures AddAll(v, xs) == Peers(v.v4 + Joined(xs, 6), v.v6 + Joined(xs, 18))
    decreases |xs|
  {
    if xs == [] {
      assert v.v4 + [] == v.v4 && v.v6 + [] == v.v6;
    } else {
      AddAllJoined(AddValue(v, xs[0]), xs[1..]);
      var x := xs[0];
      assert v.v4 + (x + Joined(xs[1..], 6)) == v.v4 + x + Joined(xs[1..], 6);
      assert v.v6 + (x + Joined(xs[1..], 18)) == v.v6 + x + Joined(xs[1..], 18);
      assert [] + Joined(xs[1..], 6) == Joined(xs[1..], 6) && [] + Joined(xs[1..], 18) == Joined(xs[1..], 18);
    }
  }

  lemma {:induction false} AddAllToNone(xs: seq<Bytes>)
    requires |Joined(xs, 6)| <= VALUES_LIMIT && |Joined(xs, 18)| <= VALUES_LIMIT
    ensures AddAll(Peers([], []), xs) == Peers(Joined(xs, 6), Joined(xs, 18))
  {
    AddAllJoined(Peers([], []), xs);
    assert [] + Joined(xs, 6) == Joined(xs, 6) && [] + Joined(xs, 18) == Joined(xs, 18);
  }

  function PeersOf(xs: Option<seq<Bytes>>): Peers
  {
    if xs.Some? then Peers(Joined(xs.value, 6), Joined(xs.value, 18)) else Peers([], [])
  }

  /** Values the scanner can take in: none empty, and no more than it has room for. */
  ghost predicate Listable(xs: Option<seq<Bytes>>)
  {
    xs.Some? ==> (forall x | x in xs.value :: x != [])
                 && |Joined(xs.value, 6)| <= 2048 && |Joined(xs.value, 18)| <= 2048
  }

  ghost predicate ReadsValues(f: Field<Peers>, v: Peers) { !f.Overflow? && (if f.Value? then f.v else Peers([], [])) == v }

  lemma {:induction false} ValuesCut(buf: Bytes, pre: Bytes, xs: seq<Bytes>, post: Bytes)
    requires Cut(buf, VALUES_MARK, pre, Entries(xs) + "e", post) && Listable(Some(xs))
    ensures Values(buf) == Value(Peers(Joined(xs, 6), Joined(xs, 18)))
  {
    ValuesRead(pre, xs, post, Peers([], []));
    AddAllToNone(xs);
  }

  lemma {:induction false} ValuesInPlace(buf: Bytes, w: Option<nat>, xs: Option<seq<Bytes>>)
    requires Placed(buf, VALUES_MARK, w, ListBody(xs)) && Listable(xs) && Stray(buf, VALUES_MARK, w) == None
    ensures ReadsValues(Values(buf), PeersOf(xs))
  {
    var pre, post := InPlace(buf, VALUES_MARK, w, ListBody(xs));
    if xs.Some? {
      ValuesCut(buf, pre, xs.value, post);
    }
  }

  lemma {:induction false} ValuesExactly(buf: Bytes, w: Option<nat>, xs: Option<seq<Bytes>>)
    requires Placed(buf, VALUES_MARK, w, ListBody(xs)) && Listable(xs)
    ensures ReadsValues(Values(buf), PeersOf(xs)) <==> ValuesHarmless(buf, w, PeersOf(xs))
  {
    if Stray(buf, VALUES_MARK, w) == None {
      ValuesInPlace(buf, w, xs);
    }
  }

  // ----- the wanted families -----

  lemma {:induction false} WantOne(pre: Bytes, f: Bytes, post: Bytes, w: Want)
    requires (f == "2:n4" || f == "2:n6") && post != []
    ensures var buf := pre + f + post;
            WantFrom(buf, |pre|, w) == WantFrom(buf, |pre| + 4, if f == "2:n4" then w.(n4 := true) else w.(n6 := true))
  {
    var buf := pre + f + post;
    assert buf[|pre|] == f[0] == '2' && buf[|pre| + 1] == f[1] == ':';
    assert buf[|pre| + 2..|pre| + 4] == f[2..4];
  }

  lemma {:induction false} WantStops(pre: Bytes, post: Bytes, w: Want)
    ensures WantFrom(pre + "e" + post, |pre|, w) == w
  {
    assert (pre + "e" + post)[|pre|] == 'e';
  }

  lemma {:induction false} WantRead(pre: Bytes, w: Want, post: Bytes)
    ensures WantFrom(pre + (WantText(w) + "e") + post, |pre|, Want(false, false)) == w
  {
    var buf := pre + (WantText(w) + "e") + post;
    var a, b := if w.n4 then "2:n4" else [], if w.n6 then "2:n6" else [];
    var tail := b + "e" + post;
    assert buf == pre + a + tail;
    assert buf == (pre + a) + b + ("e" + post);
    assert buf == (pre + a + b) + "e" + post;
    if w.n4 {
      WantOne(pre, a, tail, Want(false, false));
    }
    if w.n6 {
      WantOne(pre + a, b, "e" + post, Want(w.n4, false));
    }
    WantStops(pre + a + b, post, w);
  }

  function WantOf(w: Option<Want>): Want { if w.Some? then w.value else Want(false, false) }

  lemma {:induction false} WantInPlace(buf: Bytes, w: Option<nat>, x: Option<Want>)
    requires Placed(buf, WANT_MARK, w, WantBody(x)) && Stray(buf, WANT_MARK, w) == None
    ensures Wants(buf) == WantOf(x)
  {
    var pre, post := InPlace(buf, WANT_MARK, w, WantBody(x));
    if x.Some? {
      WantRead(pre, x.value, post);
    }
  }

  lemma {:induction false} WantExactly(buf: Bytes, w: Option<nat>, x: Option<Want>)
    requires Placed(buf, WANT_MARK, w, WantBody(x))
    ensures Wants(buf) == WantOf(x) <==> WantHarmless(buf, w, WantOf(x))
  {
    if Stray(buf, WANT_MARK, w) == None {
      WantInPlace(buf, w, x);
    }
  }

  // ----- the kind -----

  function KindCode(k: Kind): int
  {
    match k
    case Ping => PING
    case FindNode => FIND_NODE
    case GetPeers => GET_PEERS
    case AnnouncePeer => ANNOUNCE_PEER
    case Reply => REPLY
  }

  ghost predicate Occurs(buf: Bytes, t: Bytes) { exists k: nat :: OccursAt(buf, t, k) }

  lemma {:induction false} HasIsOccurs(buf: Bytes, t: Bytes)
    ensures Has(buf, t) <==> Occurs(buf, t)
  {
    if Has(buf, t) {
      assert OccursAt(buf, t, Find(buf, t).value);
    }
  }

  /** The marker by which the parser tells each kind of query. */
  function KindMarker(k: Kind): Bytes
  {
    match k
    case Ping => PING_MARK
    case FindNode => FIND_NODE_MARK
    case GetPeers => GET_PEERS_MARK
    case AnnouncePeer => ANNOUNCE_MARK
    case Reply => REPLY_MARK
  }

  /** Nothing in a query looks like a reply, like an error, or like a kind the parser tests for earlier. */
  ghost predicate KindClear(buf: Bytes, k: Kind)
  {
    k == Reply
    || (&& !Occurs(buf, REPLY_MARK) && !Occurs(buf, ERROR_MARK)
        && (k != Ping ==> !Occurs(buf, PING_MARK))
        && (k == GetPeers || k == AnnouncePeer ==> !Occurs(buf, FIND_NODE_MARK))
        && (k == AnnouncePeer ==> !Occurs(buf, GET_PEERS_MARK)))
  }

  lemma {:induction false} KindByOccurrence(buf: Bytes, k: Kind)
    requires Has(buf, KindMarker(k)) && (k != Reply ==> Has(buf, QUERY_MARK))
    ensures KindOf(buf) == KindCode(k) <==> KindClear(buf, k)
  {
    HasIsOccurs(buf, REPLY_MARK);
    HasIsOccurs(buf, ERROR_MARK);
    HasIsOccurs(buf, PING_MARK);
    HasIsOccurs(buf, FIND_NODE_MARK);
    HasIsOccurs(buf, GET_PEERS_MARK);
  }

  /** No field overruns the packet. */
  ghost predicate Whole(buf: Bytes)
  {
    && !Tid(buf).Overflow? && !Fixed(buf, ID_MARK).Overflow? && !Fixed(buf, HASH_MARK).Overflow?
    && !Fixed(buf, TARGET_MARK).Overflow? && !Token(buf).Overflow? && !Nodes(buf).Overflow? && !Nodes6(buf).Overflow?
    && !Values(buf).Overflow?
  }

  /** A packet is taken for an error exactly when it says so, does not say that it is a reply, and is whole. */
  lemma {:induction false} ErrorExactly(buf: Bytes)
    ensures Parse(buf).kind == 0 <==> Whole(buf) && Occurs(buf, "1:y1:e") && !Occurs(buf, "1:y1:r")
  {
    HasIsOccurs(buf, "1:y1:r");
    HasIsOccurs(buf, "1:y1:e");
  }

  /** A packet is turned away exactly when it is cut short, or is neither a reply nor an error nor a query known here. */
  lemma {:induction false} TurnedAwayExactly(buf: Bytes)
    ensures Parse(buf).kind == -1 <==>
            || !Whole(buf)
            || (&& !Occurs(buf, "1:y1:r") && !Occurs(buf, "1:y1:e")
                && (!Occurs(buf, "1:y1:q") || (&& !Occurs(buf, "1:q4:ping") && !Occurs(buf, "1:q9:find_node")
                                               && !Occurs(buf, "1:q9:get_peers") && !Occurs(buf, "1:q13:announce_peer"))))
  {
    HasIsOccurs(buf, "1:y1:r");
    HasIsOccurs(buf, "1:y1:e");
    HasIsOccurs(buf, "1:y1:q");
    HasIsOccurs(buf, "1:q4:ping");
    HasIsOccurs(buf, "1:q9:find_node");
    HasIsOccurs(buf, "1:q9:get_peers");
    HasIsOccurs(buf, "1:q13:announce_peer");
  }

  lemma {:induction false} KindOfParts(ps: seq<Part>, k: Kind)
    requires |ps| == 15 && ps[11] == KindPart(k) && ps[14].mark == if k == Reply then REPLY_MARK else QUERY_MARK
    ensures KindOf(Concat(ps)) == KindCode(k) <==> KindClear(Concat(ps), k)
  {
    WrittenOccurs(ps, 14);
    if k != Reply {
      WrittenOccurs(ps, 11);
      assert ps[11].mark == KindMarker(k);
    }
    KindByOccurrence(Concat(ps), k);
  }

  /** Whatever is written occurs. */
  lemma {:induction false} WrittenOccurs(ps: seq<Part>, i: nat)
    requires i < |ps|
    ensures OccursAt(Concat(ps), ps[i].mark, Start(ps, i)) && Has(Concat(ps), ps[i].mark)
  {
    PartAt(ps, i);
    var buf, a, t := Concat(ps), Concat(ps[..i]), ps[i].mark;
    var rest := ps[i].body + Concat(ps[i + 1..]);
    assert buf == a + t + rest;
    assert buf[|a|..|a| + |t|] == t;
    assert OccursAt(buf, t, |a|);
    HasIsOccurs(buf, t);
  }

  // ----- exactly when a packet comes back -----

  ghost predicate Twenty(x: Option<Bytes>) { x.Some? ==> |x.value| == 20 }

  /** Field sizes the scanner has room for. */
  ghost predicate Fits(p: Packet)
  {
    && |p.id| == 20 && Twenty(p.target) && Twenty(p.infoHash) && |p.tid| < 16 && PortOf(p.port) < 0x10000
    && (p.token.Some? ==> |p.token.value| < 128) && (p.nodes.Some? ==> |p.nodes.value| <= 26 * 16)
    && (p.nodes6.Some? ==> |p.nodes6.value| <= 38 * 16) && Listable(p.values)
  }

  /** The fields of a packet as the receiver should see them. */
  function Content(p: Packet): Parsed
  {
    Parsed(p.tid, p.id, OrZero(p.infoHash), PortOf(p.port), 0, OrZero(p.target), OrEmpty(p.token), OrEmpty(p.nodes),
           OrEmpty(p.nodes6), PeersOf(p.values), WantOf(p.want))
  }

  /** What was read for each field is what the packet says. */
  ghost predicate ReadAll(p: Packet, tid: Field<Bytes>, id: Field<Bytes>, hash: Field<Bytes>, port: nat, implied: nat,
                          target: Field<Bytes>, token: Field<Bytes>, nodes: Field<Bytes>, nodes6: Field<Bytes>,
                          values: Field<Peers>, want: Want)
  {
    && Reads(tid, [], p.tid) && Reads(id, ZERO_ID, p.id) && Reads(hash, ZERO_ID, OrZero(p.infoHash)) && port == PortOf(p.port)
    && implied == 0 && Reads(target, ZERO_ID, OrZero(p.target)) && Reads(token, [], OrEmpty(p.token))
    && Reads(nodes, [], OrEmpty(p.nodes)) && Reads(nodes6, [], OrEmpty(p.nodes6)) && ReadsValues(values, PeersOf(p.values))
    && want == WantOf(p.want)
  }

  lemma {:induction false} KindsNotNegative(k: Kind)
    ensures KindCode(k) >= 0
  {
  }

  lemma {:induction false} AssembledIfRead(p: Packet, kind: int, tid: Field<Bytes>, id: Field<Bytes>, hash: Field<Bytes>, port: nat,
                                          implied: nat, target: Field<Bytes>, token: Field<Bytes>, nodes: Field<Bytes>,
                                          nodes6: Field<Bytes>, values: Field<Peers>, want: Want)
    requires kind == KindCode(p.kind) && ReadAll(p, tid, id, hash, port, implied, target, token, nodes, nodes6, values, want)
    ensures Assemble(kind, tid, id, hash, port, implied, target, token, nodes, nodes6, values, want)
              == Result(KindCode(p.kind), Content(p))
  {
  }

  lemma {:induction false} ReadIfAssembled(p: Packet, kind: int, tid: Field<Bytes>, id: Field<Bytes>, hash: Field<Bytes>, port: nat,
                                          implied: nat, target: Field<Bytes>, token: Field<Bytes>, nodes: Field<Bytes>,
                                          nodes6: Field<Bytes>, values: Field<Peers>, want: Want)
    requires Assemble(kind, tid, id, hash, port, implied, target, token, nodes, nodes6, values, want)
               == Result(KindCode(p.kind), Content(p))
    ensures kind == KindCode(p.kind) && ReadAll(p, tid, id, hash, port, implied, target, token, nodes, nodes6, values, want)
  {
    KindsNotNegative(p.kind);
    var r := Assemble(kind, tid, id, hash, port, implied, target, token, nodes, nodes6, values, want);
    assert r.kind >= 0;
    assert r.m == Content(p);
  }

  /** A packet is assembled from its content exactly if each field was read without overrunning it. */
  lemma {:induction false} AssembleIs(p: Packet, kind: int, tid: Field<Bytes>, id: Field<Bytes>, hash: Field<Bytes>, port: nat,
                                          implied: nat, target: Field<Bytes>, token: Field<Bytes>, nodes: Field<Bytes>,
                                          nodes6: Field<Bytes>, values: Field<Peers>, want: Want)
    ensures Assemble(kind, tid, id, hash, port, implied, target, token, nodes, nodes6, values, want)
              == Result(KindCode(p.kind), Content(p)) <==>
            kind == KindCode(p.kind) && ReadAll(p, tid, id, hash, port, implied, target, token, nodes, nodes6, values, want)
  {
    if kind == KindCode(p.kind) && ReadAll(p, tid, id, hash, port, implied, target, token, nodes, nodes6, values, want) {
      AssembledIfRead(p, kind, tid, id, hash, port, implied, target, token, nodes, nodes6, values, want);
    } else if Assemble(kind, tid, id, hash, port, implied, target, token, nodes, nodes6, values, want) == Result(KindCode(p.kind), Content(p)) {
      ReadIfAssembled(p, kind, tid, id, hash, port, implied, target, token, nodes, nodes6, values, want);
    }
  }

  ghost predicate AllRead(p: Packet, buf: Bytes)
  {
    ReadAll(p, Tid(buf), Fixed(buf, ID_MARK), Fixed(buf, HASH_MARK), PortNumber(buf, PORT_MARK),
            PortNumber(buf, IMPLIED_MARK), Fixed(buf, TARGET_MARK), Token(buf), Nodes(buf), Nodes6(buf), Values(buf),
            Wants(buf))
  }

  lemma {:induction false} ParseIs(p: Packet, buf: Bytes)
    ensures Parse(buf) == Result(KindCode(p.kind), Content(p)) <==> KindOf(buf) == KindCode(p.kind) && AllRead(p, buf)
  {
    AssembleIs(p, KindOf(buf), Tid(buf), Fixed(buf, ID_MARK), Fixed(buf, HASH_MARK), PortNumber(buf, PORT_MARK),
               PortNumber(buf, IMPLIED_MARK), Fixed(buf, TARGET_MARK), Token(buf), Nodes(buf), Nodes6(buf), Values(buf),
               Wants(buf));
  }

  /** The parts in which the fields of a packet are written. */
  ghost predicate Lays(ps: seq<Part>, p: Packet)
  {
    && |ps| == 15 && ps[1] == Slot(ID_MARK, Some(p.id)) && ps[2] == Slot(TARGET_MARK, p.target)
    && ps[3] == Slot(HASH_MARK, p.infoHash) && ps[4] == Slot(PORT_MARK, NumberBody(p.port))
    && ps[5] == Slot(NODES_MARK, CountedBody(p.nodes)) && ps[6] == Slot(NODES6_MARK, CountedBody(p.nodes6))
    && ps[7] == Slot(TOKEN_MARK, CountedBody(p.token)) && ps[8] == Slot(VALUES_MARK, ListBody(p.values))
    && ps[9] == Slot(WANT_MARK, WantBody(p.want)) && ps[11] == KindPart(p.kind)
    && ps[12] == Slot(TID_MARK, CountedBody(Some(p.tid))) && ps[14].mark == if p.kind == Reply then REPLY_MARK else QUERY_MARK
  }

  lemma {:induction false} LayoutLays(p: Packet)
    ensures Lays(Layout(p), p)
  {
    LayoutStart(p);
    LayoutEnd(p);
  }

  lemma {:induction false} LayoutStart(p: Packet)
    ensures var ps := Layout(p);
            && ps[1] == Slot(ID_MARK, Some(p.id)) && ps[2] == Slot(TARGET_MARK, p.target)
            && ps[3] == Slot(HASH_MARK, p.infoHash) && ps[4] == Slot(PORT_MARK, NumberBody(p.port))
            && ps[5] == Slot(NODES_MARK, CountedBody(p.nodes)) && ps[6] == Slot(NODES6_MARK, CountedBody(p.nodes6))
  {
  }

  lemma {:induction false} LayoutEnd(p: Packet)
    ensures var ps := Layout(p);
            && ps[7] == Slot(TOKEN_MARK, CountedBody(p.token)) && ps[8] == Slot(VALUES_MARK, ListBody(p.values))
            && ps[9] == Slot(WANT_MARK, WantBody(p.want)) && ps[11] == KindPart(p.kind)
            && ps[12] == Slot(TID_MARK, CountedBody(Some(p.tid)))
            && ps[14].mark == if p.kind == Reply then REPLY_MARK else QUERY_MARK
  {
  }

  /** No field marker strays to where it would be read wrongly. */
  ghost predicate AllHarmless(p: Packet, ps: seq<Part>)
    requires |ps| == 15
  {
    var buf := Concat(ps);
    && FixedHarmless(buf, ID_MARK, Place(ps, 1), p.id) && FixedHarmless(buf, TARGET_MARK, Place(ps, 2), OrZero(p.target))
    && FixedHarmless(buf, HASH_MARK, Place(ps, 3), OrZero(p.infoHash))
    && PortHarmless(buf, PORT_MARK, Place(ps, 4), PortOf(p.port)) && PortHarmless(buf, IMPLIED_MARK, None, 0)
    && CountedHarmless(buf, NODES_MARK, Place(ps, 5), NODES_LIMIT + 1, OrEmpty(p.nodes))
    && CountedHarmless(buf, NODES6_MARK, Place(ps, 6), NODES6_LIMIT + 1, OrEmpty(p.nodes6))
    && CountedHarmless(buf, TOKEN_MARK, Place(ps, 7), TOKEN_LIMIT, OrEmpty(p.token))
    && ValuesHarmless(buf, Place(ps, 8), PeersOf(p.values)) && WantHarmless(buf, Place(ps, 9), WantOf(p.want))
    && CountedHarmless(buf, TID_MARK, Place(ps, 12), TID_LIMIT, p.tid)
  }

  lemma {:induction false} FixedFields(p: Packet, ps: seq<Part>)
    requires Fits(p) && Lays(ps, p)
    ensures Reads(Fixed(Concat(ps), ID_MARK), ZERO_ID, p.id) <==> FixedHarmless(Concat(ps), ID_MARK, Place(ps, 1), p.id)
    ensures Reads(Fixed(Concat(ps), TARGET_MARK), ZERO_ID, OrZero(p.target)) <==>
            FixedHarmless(Concat(ps), TARGET_MARK, Place(ps, 2), OrZero(p.target))
    ensures Reads(Fixed(Concat(ps), HASH_MARK), ZERO_ID, OrZero(p.infoHash)) <==>
            FixedHarmless(Concat(ps), HASH_MARK, Place(ps, 3), OrZero(p.infoHash))
  {
    PlacedSlot(ps, 1, ID_MARK, Some(p.id));
    PlacedSlot(ps, 2, TARGET_MARK, p.target);
    PlacedSlot(ps, 3, HASH_MARK, p.infoHash);
    FixedExactly(Concat(ps), ID_MARK, Place(ps, 1), Some(p.id));
    FixedExactly(Concat(ps), TARGET_MARK, Place(ps, 2), p.target);
    FixedExactly(Concat(ps), HASH_MARK, Place(ps, 3), p.infoHash);
  }

  lemma {:induction false} CountedField(ps: seq<Part>, i: nat, t: Bytes, x: Option<Bytes>, limit: nat)
    requires i < |ps| && ps[i] == Slot(t, CountedBody(x)) && t != [] && (x.Some? ==> |x.value| < limit)
    ensures Reads(Counted(Concat(ps), t, limit), [], OrEmpty(x)) <==>
            CountedHarmless(Concat(ps), t, Place(ps, i), limit, OrEmpty(x))
  {
    PlacedSlot(ps, i, t, CountedBody(x));
    CountedExactly(Concat(ps), t, Place(ps, i), x, limit);
  }

  lemma {:induction false} OtherFields(p: Packet, ps: seq<Part>)
    requires Fits(p) && Lays(ps, p)
    ensures PortNumber(Concat(ps), PORT_MARK) == PortOf(p.port) <==>
            PortHarmless(Concat(ps), PORT_MARK, Place(ps, 4), PortOf(p.port))
    ensures PortNumber(Concat(ps), IMPLIED_MARK) == 0 <==> PortHarmless(Concat(ps), IMPLIED_MARK, None, 0)
    ensures ReadsValues(Values(Concat(ps)), PeersOf(p.values)) <==>
            ValuesHarmless(Concat(ps), Place(ps, 8), PeersOf(p.values))
    ensures Wants(Concat(ps)) == WantOf(p.want) <==> WantHarmless(Concat(ps), Place(ps, 9), WantOf(p.want))
  {
    PlacedSlot(ps, 4, PORT_MARK, NumberBody(p.port));
    PlacedSlot(ps, 8, VALUES_MARK, ListBody(p.values));
    PlacedSlot(ps, 9, WANT_MARK, WantBody(p.want));
    PortExactly(Concat(ps), PORT_MARK, Place(ps, 4), p.port);
    PortExactly(Concat(ps), IMPLIED_MARK, None, None);
    ValuesExactly(Concat(ps), Place(ps, 8), p.values);
    WantExactly(Concat(ps), Place(ps, 9), p.want);
  }

  lemma {:induction false} FieldsExactly(p: Packet, ps: seq<Part>)
    requires Fits(p) && Lays(ps, p)
    ensures AllRead(p, Concat(ps)) <==> AllHarmless(p, ps)
  {
    FixedFields(p, ps);
    OtherFields(p, ps);
    CountedField(ps, 5, NODES_MARK, p.nodes, NODES_LIMIT + 1);
    CountedField(ps, 6, NODES6_MARK, p.nodes6, NODES6_LIMIT + 1);
    CountedField(ps, 7, TOKEN_MARK, p.token, TOKEN_LIMIT);
    CountedField(ps, 12, TID_MARK, Some(p.tid), TID_LIMIT);
  }

  /**
   Scanning a printed packet gives back its kind and every field it was printed from, if and only if
   nothing in it looks like a kind tested for earlier and each field marker is found where it was
   written, or is followed, where it is found, by bytes that happen to read the same.
   */
  lemma {:induction false} ParsesExactly(p: Packet)
    requires Fits(p)
    ensures Parse(Text(p)) == Result(KindCode(p.kind), Content(p)) <==> KindClear(Text(p), p.kind) && AllHarmless(p, Layout(p))
  {
    LayoutLays(p);
    ParseIs(p, Text(p));
    KindOfParts(Layout(p), p.kind);
    FieldsExactly(p, Layout(p));
  }

  // ----- packets without stray markers -----

  /** The marker `t` does not occur before part `i`, where it was written, or anywhere if it was not written. */
  ghost predicate Clear(ps: seq<Part>, t: Bytes, i: nat)
  {
    forall k: nat | OccursAt(Concat(ps), t, k) :: i < |ps| && ps[i].mark == t && Start(ps, i) <= k
  }

  ghost predicate FieldsClear(ps: seq<Part>)
  {
    && Clear(ps, ID_MARK, 1) && Clear(ps, TARGET_MARK, 2) && Clear(ps, HASH_MARK, 3) && Clear(ps, PORT_MARK, 4)
    && Clear(ps, IMPLIED_MARK, 15) && Clear(ps, NODES_MARK, 5) && Clear(ps, NODES6_MARK, 6) && Clear(ps, TOKEN_MARK, 7)
    && Clear(ps, VALUES_MARK, 8) && Clear(ps, WANT_MARK, 9) && Clear(ps, TID_MARK, 12)
  }

  ghost predicate KindsClear(ps: seq<Part>)
  {
    && Clear(ps, PING_MARK, 11) && Clear(ps, FIND_NODE_MARK, 11) && Clear(ps, GET_PEERS_MARK, 11)
    && Clear(ps, ANNOUNCE_MARK, 11) && Clear(ps, QUERY_MARK, 14) && Clear(ps, REPLY_MARK, 14) && Clear(ps, ERROR_MARK, 14)
  }

  /** No marker occurs except from where the printer wrote it on. */
  ghost predicate Unspoilt(ps: seq<Part>) { FieldsClear(ps) && KindsClear(ps) }

  lemma {:induction false} ClearDoesNotStray(ps: seq<Part>, t: Bytes, i: nat, body: Option<Bytes>)
    requires i < |ps| && ps[i] == Slot(t, body) && t != [] && Clear(ps, t, i)
    ensures Stray(Concat(ps), t, Place(ps, i)) == None
  {
    if body.Some? {
      WrittenOccurs(ps, i);
      FindIs(Concat(ps), t, Start(ps, i));
    } else {
      assert Find(Concat(ps), t) == None;
    }
  }

  lemma {:induction false} ClearFields(p: Packet, ps: seq<Part>)
    requires FieldsClear(ps) && Lays(ps, p)
    ensures AllHarmless(p, ps)
  {
    ClearDoesNotStray(ps, ID_MARK, 1, Some(p.id));
    ClearDoesNotStray(ps, TARGET_MARK, 2, p.target);
    ClearDoesNotStray(ps, HASH_MARK, 3, p.infoHash);
    ClearDoesNotStray(ps, PORT_MARK, 4, NumberBody(p.port));
    ClearDoesNotStray(ps, NODES_MARK, 5, CountedBody(p.nodes));
    ClearDoesNotStray(ps, NODES6_MARK, 6, CountedBody(p.nodes6));
    ClearDoesNotStray(ps, TOKEN_MARK, 7, CountedBody(p.token));
    ClearDoesNotStray(ps, VALUES_MARK, 8, ListBody(p.values));
    ClearDoesNotStray(ps, WANT_MARK, 9, WantBody(p.want));
    ClearDoesNotStray(ps, TID_MARK, 12, CountedBody(Some(p.tid)));
    NowhereClear(ps, IMPLIED_MARK, 15);
  }

  lemma {:induction false} NowhereClear(ps: seq<Part>, t: Bytes, i: nat)
    requires Clear(ps, t, i) && (i < |ps| ==> ps[i].mark != t)
    ensures Find(Concat(ps), t) == None && !Occurs(Concat(ps), t)
  {
    HasIsOccurs(Concat(ps), t);
  }

  lemma {:induction false} ClearKind(ps: seq<Part>, k: Kind)
    requires |ps| == 15 && KindsClear(ps) && ps[11] == KindPart(k) && ps[14].mark == if k == Reply then REPLY_MARK else QUERY_MARK
    ensures KindClear(Concat(ps), k)
  {
    if k != Reply {
      KindMarksDiffer();
      NowhereClear(ps, REPLY_MARK, 14);
      NowhereClear(ps, ERROR_MARK, 14);
      if k != Ping {
        NowhereClear(ps, PING_MARK, 11);
      }
      if k == GetPeers || k == AnnouncePeer {
        NowhereClear(ps, FIND_NODE_MARK, 11);
      }
      if k == AnnouncePeer {
        NowhereClear(ps, GET_PEERS_MARK, 11);
      }
    }
  }

  lemma {:induction false} KindMarksDiffer()
    ensures QUERY_MARK != REPLY_MARK && QUERY_MARK != ERROR_MARK
    ensures PING_MARK != FIND_NODE_MARK && PING_MARK != GET_PEERS_MARK && PING_MARK != ANNOUNCE_MARK
    ensures FIND_NODE_MARK != GET_PEERS_MARK && FIND_NODE_MARK != ANNOUNCE_MARK && GET_PEERS_MARK != ANNOUNCE_MARK
  {
    assert QUERY_MARK[5] != REPLY_MARK[5] && QUERY_MARK[5] != ERROR_MARK[5];
    assert FIND_NODE_MARK[5] != GET_PEERS_MARK[5] && FIND_NODE_MARK[3] != ANNOUNCE_MARK[3];
    assert GET_PEERS_MARK[3] != ANNOUNCE_MARK[3] && PING_MARK[3] != FIND_NODE_MARK[3];
    assert PING_MARK[3] != GET_PEERS_MARK[3] && PING_MARK[3] != ANNOUNCE_MARK[3];
  }

  /** In particular, a packet in which markers occur only from where they were written on is read back. */
  lemma {:induction false} ParsePrinted(p: Packet)
    requires Fits(p) && Unspoilt(Layout(p))
    ensures Parse(Text(p)) == Result(KindCode(p.kind), Content(p))
  {
    LayoutLays(p);
    ClearFields(p, Layout(p));
    ClearKind(Layout(p), p.kind);
    ParsesExactly(p);
  }

  // ----- a family that is not read back -----

  lemma {:induction false} FirstAt(buf: Bytes, a: Bytes, t: Bytes, body: Bytes, post: Bytes)
    requires buf == a + (t + body) + post && forall k: nat | OccursAt(buf, t, k) :: |a| <= k
    ensures Cut(buf, t, a + t, body, post)
  {
    assert buf[|a|..|a| + |t|] == t;
    FindIs(buf, t, |a|);
    assert buf == a + t + body + post;
  }

  /** Nothing in the opening of a packet looks like the marker of a transaction id. */
  lemma {:induction false} OpeningClear(opening: Bytes, rest: Bytes, k: nat)
    requires (opening == "d1:rd2:id20:" || opening == "d1:ad2:id20:") && k < 12
    ensures !OccursAt(opening + TID_MARK + rest, TID_MARK, k)
  {
    var buf := opening + TID_MARK + rest;
    var found := buf[k..k + 3];
    assert found[0] == buf[k] == opening[k] && found[2] == buf[k + 2];
    assert buf[3] == opening[3];
    assert TID_MARK[0] == '1' && TID_MARK[2] == 't';
  }

  /** A packet is its opening, its id and the rest. */
  lemma {:induction false} Opened(p: Packet)
    returns (opening: Bytes, after: Bytes)
    ensures opening == "d1:rd2:id20:" || opening == "d1:ad2:id20:"
    ensures Text(p) == opening + p.id + after
  {
    opening := if p.kind == Reply then "d1:rd2:id20:" else "d1:ad2:id20:";
    Framed(p);
    var ps := Layout(p);
    var fields := PartText(ps[2]) + PartText(ps[3]) + PartText(ps[4]) + PartText(ps[5]) + PartText(ps[6])
                  + PartText(ps[7]) + PartText(ps[8]) + PartText(ps[9]);
    var closing := KindText(p.kind) + TidText(p.tid) + VersionText(p.version) + EndText(p.kind);
    after := fields + closing;
    Assoc(opening + p.id, fields, closing);
  }

  lemma {:induction false} StrayFound(buf: Bytes, opening: Bytes, x: Bytes, post: Bytes)
    requires opening == "d1:rd2:id20:" || opening == "d1:ad2:id20:"
    requires buf == opening + (TID_MARK + Entry(x)) + post && 0 < |x| < TID_LIMIT
    ensures Tid(buf) == Value(x) && OccursAt(buf, TID_MARK, 12)
  {
    Regroup(opening, TID_MARK, Entry(x), post);
    forall k: nat | OccursAt(buf, TID_MARK, k)
      ensures |opening| <= k
    {
      if k < 12 {
        OpeningClear(opening, Entry(x) + post, k);
      }
    }
    FirstAt(buf, opening, TID_MARK, Entry(x), post);
    assert |opening| == 12 && |opening + TID_MARK| - |TID_MARK| == 12;
    CountedCut(buf, TID_MARK, opening + TID_MARK, x, post, TID_LIMIT);
  }

  lemma {:induction false} Regroup(a: Bytes, b: Bytes, c: Bytes, d: Bytes)
    ensures a + (b + c) + d == a + b + (c + d)
  {
  }

  /**
   The marker strings do have to be kept out of the data: whatever the packet, an id that begins with
   a complete transaction id makes the parser report that one, whatever was printed.
   */
  lemma {:induction false} StrayTransaction(p: Packet, x: Bytes, rest: Bytes)
    requires p.id == TID_MARK + Entry(x) + rest && 0 < |x| < TID_LIMIT
    ensures Fields(Text(p)).tid == x
    ensures x != p.tid ==> Parse(Text(p)) != Result(KindCode(p.kind), Content(p))
  {
    var opening, after := Opened(p);
    Regroup(opening, TID_MARK + Entry(x), rest, after);
    StrayFound(Text(p), opening, x, rest + after);
  }
}
