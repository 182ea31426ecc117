/**
 The packets the printers write, as a sequence of parts: each part is a marker the
 scanner knows, followed by the bytes that belong to it, or filler between two such.
 */
module Packets {
  import opened Bytes
  import opened Messages
  import opened Options

  /** A marker and what belongs to it; filler has no marker. */
  datatype Part = Part(mark: Bytes, body: Bytes)

  function PartText(p: Part): Bytes { p.mark + p.body }

  function Concat(ps: seq<Part>): Bytes { if ps == [] then [] else PartText(ps[0]) + Concat(ps[1..]) }

  lemma {:induction false} ConcatSplit(a: seq<Part>, b: seq<Part>)
    ensures Concat(a + b) == Concat(a) + Concat(b)
  {
    if a == [] {
      assert a + b == b;
    } else {
      ConcatSplit(a[1..], b);
      assert (a + b)[1..] == a[1..] + b && (a + b)[0] == a[0];
    }
  }

  /** Where part `i` starts. */
  function Start(ps: seq<Part>, i: nat): nat
    requires i <= |ps|
  {
    |Concat(ps[..i])|
  }

  lemma {:induction false} PartAt(ps: seq<Part>, i: nat)
    requires i < |ps|
    ensures Concat(ps) == Concat(ps[..i]) + PartText(ps[i]) + Concat(ps[i + 1..])
  {
    assert ps == ps[..i] + ps[i..];
    ConcatSplit(ps[..i], ps[i..]);
    assert ps[i..][1..] == ps[i + 1..];
  }

  // ----- packets -----

  datatype Kind = Ping | FindNode | GetPeers | AnnouncePeer | Reply

  datatype Packet = Packet(kind: Kind, id: Bytes, target: Option<Bytes>, infoHash: Option<Bytes>, port: Option<nat>,
                           nodes: Option<Bytes>, nodes6: Option<Bytes>, token: Option<Bytes>,
                           values: Option<seq<Bytes>>, want: Option<Want>, tid: Bytes, version: Option<Bytes>)

  /** A length, a colon and the bytes. */
  function Entry(x: Bytes): Bytes { Dec(|x|) + ":" + x }

  function Entries(xs: seq<Bytes>): Bytes { if xs == [] then [] else Entry(xs[0]) + Entries(xs[1..]) }

  function WantText(w: Want): Bytes { (if w.n4 then "2:n4" else []) + (if w.n6 then "2:n6" else []) }

  const GAP: Part := Part([], [])

  /** A part for an optional field; nothing at all when the field is missing. */
  function Slot(mark: Bytes, body: Option<Bytes>): Part { if body.Some? then Part(mark, body.value) else GAP }

  // The bodies of the fields that are not simply copied.

  function CountedBody(x: Option<Bytes>): Option<Bytes> { if x.Some? then Some(Entry(x.value)) else None }

  function NumberBody(n: Option<nat>): Option<Bytes> { if n.Some? then Some(Dec(n.value) + "e") else None }

  function ListBody(xs: Option<seq<Bytes>>): Option<Bytes> { if xs.Some? then Some(Entries(xs.value) + "e") else None }

  function WantBody(w: Option<Want>): Option<Bytes> { if w.Some? then Some(WantText(w.value) + "e") else None }

  function KindPart(k: Kind): Part
  {
    match k
    case Ping => Part(PING_MARK, [])
    case FindNode => Part(FIND_NODE_MARK, [])
    case GetPeers => Part(GET_PEERS_MARK, [])
    case AnnouncePeer => Part(ANNOUNCE_MARK, [])
    case Reply => GAP
  }

  /** All fifteen parts of a packet, in the order in which they are written. */
  function Layout(p: Packet): (r: seq<Part>)
    ensures |r| == 15
  {
    [Part([], if p.kind == Reply then "d1:rd" else "d1:ad"),
     Slot(ID_MARK, Some(p.id)),
     Slot(TARGET_MARK, p.target),
     Slot(HASH_MARK, p.infoHash),
     Slot(PORT_MARK, NumberBody(p.port)),
     Slot(NODES_MARK, CountedBody(p.nodes)),
     Slot(NODES6_MARK, CountedBody(p.nodes6)),
     Slot(TOKEN_MARK, CountedBody(p.token)),
     Slot(VALUES_MARK, ListBody(p.values)),
     Slot(WANT_MARK, WantBody(p.want)),
     Part([], "e"),
     KindPart(p.kind),
     Slot(TID_MARK, CountedBody(Some(p.tid))),
     Part([], if p.version.Some? then "1:v4:" + p.version.value else []),
     Part(if p.kind == Reply then REPLY_MARK else QUERY_MARK, "e")]
  }

  function Text(p: Packet): Bytes { Concat(Layout(p)) }

  // ----- what each printer writes -----

  function PingPacket(id: Bytes, tid: Bytes, version: Option<Bytes>): Packet
  {
    Packet(Ping, id, None, None, None, None, None, None, None, None, tid, version)
  }

  function FindNodePacket(id: Bytes, target: Bytes, want: Option<Want>, tid: Bytes, version: Option<Bytes>): Packet
  {
    Packet(FindNode, id, Some(target), None, None, None, None, None, None, want, tid, version)
  }

  function GetPeersPacket(id: Bytes, infoHash: Bytes, want: Option<Want>, tid: Bytes, version: Option<Bytes>): Packet
  {
    Packet(GetPeers, id, None, Some(infoHash), None, None, None, None, None, want, tid, version)
  }

  function AnnouncePacket(id: Bytes, infoHash: Bytes, port: nat, token: Bytes, tid: Bytes, version: Option<Bytes>): Packet
  {
    Packet(AnnouncePeer, id, None, Some(infoHash), Some(port), None, None, Some(token), None, None, tid, version)
  }

  function NonEmpty(x: Bytes): Option<Bytes> { if x == [] then None else Some(x) }

  function ReplyPacket(id: Bytes, nodes: Bytes, nodes6: Bytes, token: Bytes, values: Option<seq<Bytes>>,
                       tid: Bytes, version: Option<Bytes>): Packet
  {
    Packet(Reply, id, None, None, None, NonEmpty(nodes), NonEmpty(nodes6), NonEmpty(token), values, None, tid, version)
  }

  /** Pongs and announce acknowledgements carry nothing but our id. */
  function PongPacket(id: Bytes, tid: Bytes, version: Option<Bytes>): Packet
  {
    ReplyPacket(id, [], [], [], None, tid, version)
  }

  // ----- printing into a bounded buffer -----

  function Flat(xs: seq<Bytes>): Bytes { if xs == [] then [] else xs[0] + Flat(xs[1..]) }

  lemma {:induction false} FlatAppend(xs: seq<Bytes>, x: Bytes)
    ensures Flat(xs + [x]) == Flat(xs) + x
  {
    if xs == [] {
      assert xs + [x] == [x] && [x][1..] == [];
    } else {
      FlatAppend(xs[1..], x);
      assert (xs + [x])[1..] == xs[1..] + [x] && (xs + [x])[0] == xs[0];
    }
  }

  lemma {:induction false} FlatConcat(a: seq<Bytes>, b: seq<Bytes>)
    ensures Flat(a + b) == Flat(a) + Flat(b)
  {
    if a == [] {
      assert a + b == b;
    } else {
      FlatConcat(a[1..], b);
      assert (a + b)[1..] == a[1..] + b && (a + b)[0] == a[0];
    }
  }

  /**
   What a buffer holds once everything is in it: the text, all of it when there is a byte to spare.
   Text that fills the buffer exactly loses its last byte to the terminator of the last piece.
   */
  function Fit(text: Bytes, size: nat): Option<Bytes>
  {
    if |text| < size then Some(text) else if |text| == size > 0 then Some(text[..size - 1] + ['\0']) else None
  }

  /**
   Appends piece after piece, then the formatted closing, giving up at the first that does not fit.
   An earlier formatted piece that fills the buffer loses its last byte too, but then the closing does not fit.
   */
  method Print(pieces: seq<Bytes>, closing: Bytes, size: nat) returns (r: Option<Bytes>)
    requires closing != []
    ensures r == Fit(Flat(pieces) + closing, size)
  {
    var buf: Bytes, i := [], 0;
    while i < |pieces|
      invariant 0 <= i <= |pieces| && buf == Flat(pieces[..i]) && |buf| <= size
    {
      assert pieces[..i + 1] == pieces[..i] + [pieces[i]];
      FlatAppend(pieces[..i], pieces[i]);
      if |buf| + |pieces[i]| > size {
        FlatConcat(pieces[..i + 1], pieces[i + 1..]);
        assert pieces == pieces[..i + 1] + pieces[i + 1..];
        assert |Flat(pieces)| > size;
        return None;
      }
      buf := buf + pieces[i];
      i := i + 1;
    }
    assert pieces[..i] == pieces;
    r := Close(buf, closing, size);
  }

  /** The formatted closing, cut short by its terminator when it fills the buffer. */
  method Close(buf: Bytes, closing: Bytes, size: nat) returns (r: Option<Bytes>)
    requires closing != [] && |buf| <= size
    ensures r == Fit(buf + closing, size)
  {
    if |buf| + |closing| > size {
      return None;
    }
    var last := |closing| - 1;
    if |buf| + |closing| < size {
      return Some(buf + closing);
    }
    assert (buf + closing)[..size - 1] == buf + closing[..last];
    return Some(buf + closing[..last] + ['\0']);
  }
}
