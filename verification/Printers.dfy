/**
 The printers, piece by piece as they format a packet, and the proof that what they
 write is the packet's text.  A printer gives up when its buffer is too small.
 */
module Printers {
  import opened Bytes
  import opened Messages
  import opened Packets
  import opened Sequences
  import opened Options

  const SMALL: nat := 512
  const LARGE: nat := 2048

  function VersionText(version: Option<Bytes>): Bytes
  {
    if version.Some? then "1:v4:" + version.value else []
  }

  function TidText(tid: Bytes): Bytes { Dec(|tid|) + ":" + tid }

  lemma {:induction false} Five(a: Part, b: Part, c: Part, d: Part, e: Part)
    ensures Concat([a, b, c, d, e]) == PartText(a) + PartText(b) + PartText(c) + PartText(d) + PartText(e)
  {
    assert [a, b, c, d, e][1..] == [b, c, d, e] && [b, c, d, e][1..] == [c, d, e];
    assert [c, d, e][1..] == [d, e] && [d, e][1..] == [e] && [e][1..] == [];
    assert Concat([e]) == PartText(e);
    assert Concat([d, e]) == PartText(d) + PartText(e);
    assert Concat([c, d, e]) == PartText(c) + PartText(d) + PartText(e);
    assert Concat([b, c, d, e]) == PartText(b) + PartText(c) + PartText(d) + PartText(e);
  }

  /** Parts `i` to `i + 4` of a packet. */
  lemma {:induction false} FiveOf(ps: seq<Part>, i: nat)
    requires i + 5 <= |ps|
    ensures Concat(ps[i..i + 5]) ==
            PartText(ps[i]) + PartText(ps[i + 1]) + PartText(ps[i + 2]) + PartText(ps[i + 3]) + PartText(ps[i + 4])
  {
    assert ps[i..i + 5] == [ps[i], ps[i + 1], ps[i + 2], ps[i + 3], ps[i + 4]];
    Five(ps[i], ps[i + 1], ps[i + 2], ps[i + 3], ps[i + 4]);
  }

  lemma {:induction false} Thirds(ps: seq<Part>)
    requires |ps| == 15
    ensures Concat(ps) == Concat(ps[0..5]) + Concat(ps[5..10]) + Concat(ps[10..15])
  {
    assert ps == ps[0..5] + ps[5..10] + ps[10..15];
    ConcatSplit(ps[0..5] + ps[5..10], ps[10..15]);
    ConcatSplit(ps[0..5], ps[5..10]);
  }

  /** The text of a packet, part by part. */
  lemma {:induction false} WholeText(p: Packet)
    ensures var ps := Layout(p);
            Text(p) == (PartText(ps[0]) + PartText(ps[1]) + PartText(ps[2]) + PartText(ps[3]) + PartText(ps[4]))
                     + (PartText(ps[5]) + PartText(ps[6]) + PartText(ps[7]) + PartText(ps[8]) + PartText(ps[9]))
                     + (PartText(ps[10]) + PartText(ps[11]) + PartText(ps[12]) + PartText(ps[13]) + PartText(ps[14]))
  {
    var ps := Layout(p);
    Thirds(ps);
    FiveOf(ps, 0);
    FiveOf(ps, 5);
    FiveOf(ps, 10);
  }

  /** The opening of a packet, as formatted. */
  lemma {:induction false} HeadText(p: Packet)
    ensures PartText(Layout(p)[0]) + PartText(Layout(p)[1]) ==
            (if p.kind == Reply then "d1:rd2:id20:" else "d1:ad2:id20:") + p.id
  {
    assert "d1:rd" + ID_MARK == "d1:rd2:id20:" && "d1:ad" + ID_MARK == "d1:ad2:id20:";
  }

  function KindText(k: Kind): Bytes
  {
    match k
    case Ping => "e1:q4:ping1:t"
    case FindNode => "e1:q9:find_node1:t"
    case GetPeers => "e1:q9:get_peers1:t"
    case AnnouncePeer => "e1:q13:announce_peer1:t"
    case Reply => "e1:t"
  }

  lemma {:induction false} ShortKinds()
    ensures "e" + PING_MARK + TID_MARK == "e1:q4:ping1:t" && "e" + FIND_NODE_MARK + TID_MARK == "e1:q9:find_node1:t"
  {
  }

  lemma {:induction false} LongKinds()
    ensures "e" + GET_PEERS_MARK + TID_MARK == "e1:q9:get_peers1:t"
    ensures "e" + ANNOUNCE_MARK + TID_MARK == "e1:q13:announce_peer1:t"
  {
  }

  lemma {:induction false} KindMark(k: Kind)
    ensures PartText(KindPart(k)) == KindPart(k).mark
  {
  }

  lemma {:induction false} KindTexts(k: Kind)
    ensures "e" + PartText(KindPart(k)) + TID_MARK == KindText(k)
  {
    KindMark(k);
    ShortKinds();
    LongKinds();
    assert "e" + [] + TID_MARK == "e1:t";
  }

  function EndText(k: Kind): Bytes { if k == Reply then "1:y1:re" else "1:y1:qe" }

  lemma {:induction false} EndTexts(p: Packet)
    ensures PartText(Layout(p)[14]) == EndText(p.kind)
  {
    assert REPLY_MARK + "e" == "1:y1:re" && QUERY_MARK + "e" == "1:y1:qe";
  }

  /** The closing of a packet, as formatted. */
  lemma {:induction false} TailText(p: Packet)
    ensures var ps := Layout(p);
            PartText(ps[10]) + PartText(ps[11]) + PartText(ps[12]) + PartText(ps[13]) + PartText(ps[14]) ==
            KindText(p.kind) + TidText(p.tid) + VersionText(p.version) + EndText(p.kind)
  {
    KindTexts(p.kind);
    Tail("e", PartText(KindPart(p.kind)), TID_MARK, TidText(p.tid), VersionText(p.version), EndText(p.kind));
    EndTexts(p);
  }

  lemma {:induction false} Tail(a: Bytes, b: Bytes, c: Bytes, d: Bytes, e: Bytes, f: Bytes)
    ensures a + b + (c + d) + e + f == (a + b + c) + d + e + f
  {
    assert a + b + (c + d) == (a + b + c) + d;
  }

  /** Every packet is its opening, its fields and its closing. */
  lemma {:induction false} Framed(p: Packet)
    ensures var ps := Layout(p);
            Text(p) == (if p.kind == Reply then "d1:rd2:id20:" else "d1:ad2:id20:") + p.id
                     + (PartText(ps[2]) + PartText(ps[3]) + PartText(ps[4]) + PartText(ps[5]) + PartText(ps[6])
                        + PartText(ps[7]) + PartText(ps[8]) + PartText(ps[9]))
                     + (KindText(p.kind) + TidText(p.tid) + VersionText(p.version) + EndText(p.kind))
  {
    var ps := Layout(p);
    WholeText(p);
    HeadText(p);
    TailText(p);
    Middle(PartText(ps[0]), PartText(ps[1]), PartText(ps[2]), PartText(ps[3]), PartText(ps[4]), PartText(ps[5]),
           PartText(ps[6]), PartText(ps[7]), PartText(ps[8]), PartText(ps[9]));
  }

  lemma {:induction false} Middle(a: Bytes, b: Bytes, c: Bytes, d: Bytes, e: Bytes, f: Bytes, g: Bytes, h: Bytes, i: Bytes, j: Bytes)
    ensures (a + b + c + d + e) + (f + g + h + i + j) == (a + b) + (c + d + e + f + g + h + i + j)
  {
    assert (a + b + c + d + e) == (a + b) + (c + d + e);
    assert (c + d + e) + (f + g + h + i + j) == c + d + e + f + g + h + i + j;
  }

  // ----- the printers -----

  lemma {:induction false} FlatFive(a: Bytes, b: Bytes, fields: seq<Bytes>, c: Bytes, d: Bytes, e: Bytes)
    ensures Flat([a, b] + fields + [c, d, e]) == a + b + Flat(fields) + (c + d + e)
  {
    FlatConcat([a, b] + fields, [c, d, e]);
    FlatConcat([a, b], fields);
    FlatTwo(a, b);
    FlatThree(c, d, e);
  }

  /** Opening, fields and closing, formatted into a buffer of the given size. */
  method SendFields(kind: Kind, id: Bytes, fields: seq<Bytes>, tid: Bytes, version: Option<Bytes>, size: nat)
    returns (r: Option<Bytes>)
    ensures var text := (if kind == Reply then "d1:rd2:id20:" else "d1:ad2:id20:") + id + Flat(fields)
                        + (KindText(kind) + TidText(tid) + VersionText(version) + EndText(kind));
            r == Fit(text, size)
  {
    var opening := if kind == Reply then "d1:rd2:id20:" else "d1:ad2:id20:";
    var a, b, c := KindText(kind), TidText(tid), VersionText(version);
    FlatFive(opening, id, fields, a, b, c);
    Assoc(opening + id + Flat(fields), a + b + c, EndText(kind));
    r := Print([opening, id] + fields + [a, b, c], EndText(kind), size);
  }

  method SendPing(id: Bytes, tid: Bytes, version: Option<Bytes>) returns (r: Option<Bytes>)
    ensures r == Fit(Text(PingPacket(id, tid, version)), SMALL)
  {
    Framed(PingPacket(id, tid, version));
    assert PartText(GAP) == [] && Flat([]) == [];
    r := SendFields(Ping, id, [], tid, version, SMALL);
  }

  method SendPong(id: Bytes, tid: Bytes, version: Option<Bytes>) returns (r: Option<Bytes>)
    ensures r == Fit(Text(PongPacket(id, tid, version)), SMALL)
  {
    Framed(PongPacket(id, tid, version));
    assert PartText(GAP) == [] && Flat([]) == [];
    r := SendFields(Reply, id, [], tid, version, SMALL);
  }

  function WantPiece(want: Option<Want>): Bytes
  {
    if want.Some? then WANT_MARK + (WantText(want.value) + "e") else []
  }

  lemma {:induction false} FlatTwo(a: Bytes, b: Bytes)
    ensures Flat([a, b]) == a + b
  {
    assert [a, b][1..] == [b] && [b][1..] == [] && Flat([b]) == b;
  }

  lemma {:induction false} FlatThree(a: Bytes, b: Bytes, c: Bytes)
    ensures Flat([a, b, c]) == a + b + c
  {
    assert [a, b, c][1..] == [b, c];
    FlatTwo(b, c);
  }

  lemma {:induction false} FlatFour(a: Bytes, b: Bytes, c: Bytes, d: Bytes)
    ensures Flat([a, b, c, d]) == a + b + c + d
  {
    assert [a, b, c, d][1..] == [b, c, d];
    FlatThree(b, c, d);
  }

  method SendFindNode(id: Bytes, target: Bytes, want: Option<Want>, tid: Bytes, version: Option<Bytes>)
    returns (r: Option<Bytes>)
    ensures r == Fit(Text(FindNodePacket(id, target, want, tid, version)), SMALL)
  {
    Framed(FindNodePacket(id, target, want, tid, version));
    FlatTwo(TARGET_MARK + target, WantPiece(want));
    assert PartText(GAP) == [] && TARGET_MARK + target + [] == TARGET_MARK + target;
    r := SendFields(FindNode, id, [TARGET_MARK + target, WantPiece(want)], tid, version, SMALL);
  }

  method SendGetPeers(id: Bytes, infoHash: Bytes, want: Option<Want>, tid: Bytes, version: Option<Bytes>)
    returns (r: Option<Bytes>)
    ensures r == Fit(Text(GetPeersPacket(id, infoHash, want, tid, version)), SMALL)
  {
    Framed(GetPeersPacket(id, infoHash, want, tid, version));
    FlatTwo(HASH_MARK + infoHash, WantPiece(want));
    assert PartText(GAP) == [] && [] + (HASH_MARK + infoHash) == HASH_MARK + infoHash == HASH_MARK + infoHash + [];
    r := SendFields(GetPeers, id, [HASH_MARK + infoHash, WantPiece(want)], tid, version, SMALL);
  }

  method SendAnnouncePeer(id: Bytes, infoHash: Bytes, port: nat, token: Bytes, tid: Bytes, version: Option<Bytes>)
    returns (r: Option<Bytes>)
    ensures r == Fit(Text(AnnouncePacket(id, infoHash, port, token, tid, version)), SMALL)
  {
    Framed(AnnouncePacket(id, infoHash, port, token, tid, version));
    var a, b, c := HASH_MARK + infoHash, PORT_MARK + (Dec(port) + "e"), TOKEN_MARK + Entry(token);
    FlatThree(a, b, c);
    assert PartText(GAP) == [] && [] + a == a && a + b + [] == a + b && a + b + c + [] == a + b + c;
    r := SendFields(AnnouncePeer, id, [a, b, c], tid, version, SMALL);
  }

  function CountedPiece(mark: Bytes, x: Bytes): Bytes { if x == [] then [] else mark + Entry(x) }

  function ValuesPiece(values: Option<seq<Bytes>>): Bytes
  {
    if values.Some? then VALUES_MARK + (Entries(values.value) + "e") else []
  }

  lemma {:induction false} ReplyGaps(p: Packet)
    requires p.target.None? && p.infoHash.None? && p.port.None? && p.want.None?
    ensures var ps := Layout(p); ps[2] == ps[3] == ps[4] == ps[9] == GAP
  {
  }

  /** The fields of a reply. */
  lemma {:induction false} ReplyFields(p: Packet, nodes: Bytes, nodes6: Bytes, token: Bytes)
    requires p.nodes == NonEmpty(nodes) && p.nodes6 == NonEmpty(nodes6) && p.token == NonEmpty(token)
    ensures PartText(Layout(p)[5]) == CountedPiece(NODES_MARK, nodes)
    ensures PartText(Layout(p)[6]) == CountedPiece(NODES6_MARK, nodes6)
    ensures PartText(Layout(p)[7]) == CountedPiece(TOKEN_MARK, token)
    ensures PartText(Layout(p)[8]) == ValuesPiece(p.values)
  {
    CountedText(NODES_MARK, nodes);
    CountedText(NODES6_MARK, nodes6);
    CountedText(TOKEN_MARK, token);
    ValuesText(p.values);
  }

  lemma {:induction false} GapText()
    ensures PartText(GAP) == []
  {
  }

  lemma {:induction false} CountedText(mark: Bytes, x: Bytes)
    ensures PartText(Slot(mark, CountedBody(NonEmpty(x)))) == CountedPiece(mark, x)
  {
  }

  lemma {:induction false} ValuesText(values: Option<seq<Bytes>>)
    ensures PartText(Slot(VALUES_MARK, ListBody(values))) == ValuesPiece(values)
  {
  }

  lemma {:induction false} DropEmpty(a: Bytes, b: Bytes, c: Bytes, d: Bytes)
    ensures [] + [] + [] + a + b + c + d + [] == a + b + c + d
  {
    assert [] + [] + [] + a == a;
  }

  method SendNodesPeers(id: Bytes, nodes: Bytes, nodes6: Bytes, token: Bytes, values: Option<seq<Bytes>>,
                        tid: Bytes, version: Option<Bytes>) returns (r: Option<Bytes>)
    ensures r == Fit(Text(ReplyPacket(id, nodes, nodes6, token, values, tid, version)), LARGE)
  {
    ghost var p := ReplyPacket(id, nodes, nodes6, token, values, tid, version);
    Framed(p);
    ReplyFields(p, nodes, nodes6, token);
    ReplyGaps(p);
    GapText();
    var a, b, c, d := CountedPiece(NODES_MARK, nodes), CountedPiece(NODES6_MARK, nodes6),
                      CountedPiece(TOKEN_MARK, token), ValuesPiece(values);
    FlatFour(a, b, c, d);
    DropEmpty(a, b, c, d);
    r := SendFields(Reply, id, [a, b, c, d], tid, version, LARGE);
  }

  // ----- sizes -----

  lemma {:induction false} DecLength(n: nat)
    ensures n < 10 ==> |Dec(n)| == 1
    ensures n < 100 ==> |Dec(n)| <= 2
    ensures n < 1000 ==> |Dec(n)| <= 3
  {
    if n >= 10 {
      assert Dec(n) == Dec(n / 10) + [DigitChar(n % 10)];
      if n >= 100 {
        assert Dec(n / 10) == Dec(n / 10 / 10) + [DigitChar(n / 10 % 10)];
      }
    }
  }

  lemma {:induction false} EntriesLength(xs: seq<Bytes>)
    requires forall x | x in xs :: |x| <= 18
    ensures |Entries(xs)| <= 21 * |xs|
  {
    if xs != [] {
      assert xs[0] in xs && forall x | x in xs[1..] :: x in xs;
      DecLength(|xs[0]|);
      EntriesLength(xs[1..]);
    }
  }

  lemma {:induction false} ValuesLength(values: Option<seq<Bytes>>)
    requires values.Some? ==> |values.value| <= 50 && forall x | x in values.value :: |x| <= 18
    ensures |ValuesPiece(values)| <= 1060
  {
    if values.Some? {
      EntriesLength(values.value);
      var t := Entries(values.value) + "e";
      assert |t| <= 1051 && ValuesPiece(values) == VALUES_MARK + t;
    }
  }

  lemma {:induction false} SumLength(a: Bytes, b: Bytes, f: seq<Bytes>, c: Bytes, d: Bytes, e: Bytes, g: Bytes)
    requires |f| == 8
    ensures |a + b + (f[0] + f[1] + f[2] + f[3] + f[4] + f[5] + f[6] + f[7]) + (c + d + e + g)|
            == |a| + |b| + |f[0]| + |f[1]| + |f[2]| + |f[3]| + |f[4]| + |f[5]| + |f[6]| + |f[7]| + |c| + |d| + |e| + |g|
  {
  }

  /** How long a packet is, field by field. */
  lemma {:induction false} TextLength(p: Packet)
    ensures var ps := Layout(p);
            |Text(p)| == 12 + |p.id| + |PartText(ps[2])| + |PartText(ps[3])| + |PartText(ps[4])| + |PartText(ps[5])|
                         + |PartText(ps[6])| + |PartText(ps[7])| + |PartText(ps[8])| + |PartText(ps[9])|
                         + |KindText(p.kind)| + |TidText(p.tid)| + |VersionText(p.version)| + 7
  {
    Framed(p);
    var ps := Layout(p);
    var f := [PartText(ps[2]), PartText(ps[3]), PartText(ps[4]), PartText(ps[5]), PartText(ps[6]), PartText(ps[7]),
              PartText(ps[8]), PartText(ps[9])];
    SumLength(if p.kind == Reply then "d1:rd2:id20:" else "d1:ad2:id20:", p.id, f,
              KindText(p.kind), TidText(p.tid), VersionText(p.version), EndText(p.kind));
  }

  lemma {:induction false} CountedLength(mark: Bytes, x: Bytes)
    requires |mark| <= 8 && |x| < 1000
    ensures |CountedPiece(mark, x)| <= 12 + |x|
  {
    DecLength(|x|);
  }

  /** The closing of a reply. */
  lemma {:induction false} ReplyTail(p: Packet)
    requires p.kind == Reply && |p.tid| < TID_LIMIT && (p.version.Some? ==> |p.version.value| == 4)
    ensures |KindText(p.kind)| + |TidText(p.tid)| + |VersionText(p.version)| <= 31
  {
    DecLength(|p.tid|);
  }

  /** The largest reply there can be fits its buffer with room to spare, so the printer never gives up. */
  lemma {:induction false} ReplyFits(id: Bytes, nodes: Bytes, nodes6: Bytes, token: Bytes, values: Option<seq<Bytes>>,
                                     tid: Bytes, version: Option<Bytes>)
    requires |id| == 20 && |nodes| <= 8 * 26 && |nodes6| <= 8 * 38 && |token| <= 8 && |tid| < TID_LIMIT
    requires version.Some? ==> |version.value| == 4
    requires values.Some? ==> |values.value| <= 50 && forall x | x in values.value :: |x| <= 18
    ensures |Text(ReplyPacket(id, nodes, nodes6, token, values, tid, version))| < LARGE
  {
    var p := ReplyPacket(id, nodes, nodes6, token, values, tid, version);
    TextLength(p);
    ReplyTail(p);
    ReplyGaps(p);
    GapText();
    ReplyFields(p, nodes, nodes6, token);
    ReplyLengths(nodes, nodes6, token);
    ValuesLength(values);
  }

  lemma {:induction false} ReplyLengths(nodes: Bytes, nodes6: Bytes, token: Bytes)
    requires |nodes| <= 8 * 26 && |nodes6| <= 8 * 38 && |token| <= 8
    ensures |CountedPiece(NODES_MARK, nodes)| <= 220 && |CountedPiece(NODES6_MARK, nodes6)| <= 316
    ensures |CountedPiece(TOKEN_MARK, token)| <= 20
  {
    CountedLength(NODES_MARK, nodes);
    CountedLength(NODES6_MARK, nodes6);
    CountedLength(TOKEN_MARK, token);
  }
}
