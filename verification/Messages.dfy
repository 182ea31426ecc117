/**
 Packets on the wire: what the printers write, and what the scanner makes of an
 arbitrary packet by looking for marker strings.
 */
module Messages {
  import opened Bytes
  import opened Options

  const TID_LIMIT: nat := 16
  const TOKEN_LIMIT: nat := 128
  const NODES_LIMIT: nat := 26 * 16
  const NODES6_LIMIT: nat := 38 * 16
  const VALUES_LIMIT: nat := 2048

  const REPLY: int := 1
  const ERROR: int := 0
  const PING: int := 2
  const FIND_NODE: int := 3
  const GET_PEERS: int := 4
  const ANNOUNCE_PEER: int := 5

  const ZERO_ID: Bytes := "\0\0\0\0\0\0\0\0\0\0\0\0\0\0\0\0\0\0\0\0"

  // The strings the scanner looks for.
  const TID_MARK: Bytes := "1:t"
  const ID_MARK: Bytes := "2:id20:"
  const HASH_MARK: Bytes := "9:info_hash20:"
  const PORT_MARK: Bytes := "4:porti"
  const IMPLIED_MARK: Bytes := "12:implied_porti"
  const TARGET_MARK: Bytes := "6:target20:"
  const TOKEN_MARK: Bytes := "5:token"
  const NODES_MARK: Bytes := "5:nodes"
  const NODES6_MARK: Bytes := "6:nodes6"
  const VALUES_MARK: Bytes := "6:valuesl"
  const WANT_MARK: Bytes := "4:wantl"
  const REPLY_MARK: Bytes := "1:y1:r"
  const ERROR_MARK: Bytes := "1:y1:e"
  const QUERY_MARK: Bytes := "1:y1:q"
  const PING_MARK: Bytes := "1:q4:ping"
  const FIND_NODE_MARK: Bytes := "1:q9:find_node"
  const GET_PEERS_MARK: Bytes := "1:q9:get_peers"
  const ANNOUNCE_MARK: Bytes := "1:q13:announce_peer"

  // ----- reading one field -----

  /** A field is missing, runs past the end of the packet, or has a value. */
  datatype Field<+T> = Absent | Overflow | Value(v: T)

  /** Twenty bytes from position `i` on. */
  function FixedAt(buf: Bytes, i: nat): (f: Field<Bytes>)
    ensures f.Value? ==> |f.v| == 20
  {
    if i + 20 > |buf| then Overflow else Value(buf[i..i + 20])
  }

  /** Twenty bytes after a marker. */
  function Fixed(buf: Bytes, m: Bytes): (f: Field<Bytes>)
    ensures f.Value? ==> |f.v| == 20
  {
    match Find(buf, m)
    case None => Absent
    case Some(p) => FixedAt(buf, p + |m|)
  }

  /** A length, a colon and that many bytes from position `i` on; lengths of `limit` or more are ignored. */
  function CountedAt(buf: Bytes, i: nat, limit: nat): (f: Field<Bytes>)
    requires i <= |buf|
    ensures f.Value? ==> 0 < |f.v| < limit
  {
    var n := Strtol(buf, i);
    if At(buf, n.end) == ':' && 0 < n.value < limit then
      if n.end + 1 + n.value > |buf| then Overflow else Value(buf[n.end + 1..n.end + 1 + n.value])
    else Absent
  }

  /** The same after a marker. */
  function Counted(buf: Bytes, m: Bytes, limit: nat): (f: Field<Bytes>)
    ensures f.Value? ==> 0 < |f.v| < limit
  {
    match Find(buf, m)
    case None => Absent
    case Some(p) => CountedAt(buf, p + |m|, limit)
  }

  /** A number closed by an 'e' from position `i` on; zero unless it fits sixteen bits. */
  function PortAt(buf: Bytes, i: nat): (r: nat)
    requires i <= |buf|
    ensures r < 0x10000
  {
    var n := Strtol(buf, i);
    if At(buf, n.end) == 'e' && 0 < n.value < 0x10000 then n.value else 0
  }

  /** The same after a marker. */
  function PortNumber(buf: Bytes, m: Bytes): (r: nat)
    ensures r < 0x10000
  {
    match Find(buf, m)
    case None => 0
    case Some(p) => PortAt(buf, p + |m|)
  }

  datatype Peers = Peers(v4: Bytes, v6: Bytes)

  /** Adds one value to the right list, unless that list is full or the length is neither 6 nor 18. */
  function AddValue(v: Peers, x: Bytes): Peers
  {
    if |x| == 6 && |v.v4| + 6 <= VALUES_LIMIT then v.(v4 := v.v4 + x)
    else if |x| == 18 && |v.v6| + 18 <= VALUES_LIMIT then v.(v6 := v.v6 + x)
    else v
  }

  /** Every value list the scanner builds consists of whole entries within the space reserved for it. */
  predicate PeersOk(v: Peers)
  {
    |v.v4| % 6 == 0 && |v.v6| % 18 == 0 && |v.v4| <= VALUES_LIMIT && |v.v6| <= VALUES_LIMIT
  }

  /** One entry of a list: none, one that overruns the packet, or the bytes between two positions. */
  datatype Item = NoItem | Overrun | Item(from: nat, to: nat)

  function ItemAt(buf: Bytes, i: nat): (r: Item)
    requires i <= |buf|
    ensures r.Item? ==> i < r.from < r.to <= |buf|
  {
    var n := Strtol(buf, i);
    if At(buf, n.end) == ':' && n.value > 0 then
      if n.end + 1 + n.value > |buf| then Overrun else Item(n.end + 1, n.end + 1 + n.value)
    else NoItem
  }

  /** The list of values from position `i` on. */
  function ValuesFrom(buf: Bytes, i: nat, v: Peers): (r: Field<Peers>)
    requires i <= |buf|
    ensures !r.Absent?
    decreases |buf| - i
  {
    match ItemAt(buf, i)
    case NoItem => Value(v)
    case Overrun => Overflow
    case Item(from, to) => ValuesFrom(buf, to, AddValue(v, buf[from..to]))
  }

  function Values(buf: Bytes): Field<Peers>
  {
    match Find(buf, VALUES_MARK)
    case None => Absent
    case Some(p) => ValuesFrom(buf, p + |VALUES_MARK|, Peers([], []))
  }

  lemma {:induction false} ValuesFromOk(buf: Bytes, i: nat, v: Peers)
    requires i <= |buf| && PeersOk(v)
    ensures ValuesFrom(buf, i, v).Value? ==> PeersOk(ValuesFrom(buf, i, v).v)
    decreases |buf| - i
  {
    var it := ItemAt(buf, i);
    if it.Item? {
      ValuesFromOk(buf, it.to, AddValue(v, buf[it.from..it.to]));
    }
  }

  datatype Want = Want(n4: bool, n6: bool)

  predicate WantHere(buf: Bytes, i: nat)
  {
    '0' < At(buf, i) <= '9' && At(buf, i + 1) == ':' && i + 2 + DigitValue(At(buf, i)) < |buf|
  }

  /** The list of wanted families from position `i` on. */
  function WantFrom(buf: Bytes, i: nat, w: Want): Want
    decreases |buf| - i
  {
    if !WantHere(buf, i) then w
    else
      var d := DigitValue(buf[i]);
      var w' := if d == 2 && buf[i + 2..i + 4] == "n4" then w.(n4 := true)
                else if d == 2 && buf[i + 2..i + 4] == "n6" then w.(n6 := true)
                else w;
      WantFrom(buf, i + 2 + d, w')
  }

  function Wants(buf: Bytes): Want
  {
    match Find(buf, WANT_MARK)
    case None => Want(false, false)
    case Some(p) => WantFrom(buf, p + |WANT_MARK|, Want(false, false))
  }

  predicate Has(buf: Bytes, m: Bytes) { Find(buf, m).Some? }

  function KindOf(buf: Bytes): int
  {
    if Has(buf, REPLY_MARK) then REPLY
    else if Has(buf, ERROR_MARK) then ERROR
    else if !Has(buf, QUERY_MARK) then -1
    else if Has(buf, PING_MARK) then PING
    else if Has(buf, FIND_NODE_MARK) then FIND_NODE
    else if Has(buf, GET_PEERS_MARK) then GET_PEERS
    else if Has(buf, ANNOUNCE_MARK) then ANNOUNCE_PEER
    else -1
  }

  // ----- reading a packet -----

  datatype Parsed = Parsed(tid: Bytes, id: Bytes, infoHash: Bytes, port: nat, impliedPort: nat, target: Bytes,
                           token: Bytes, nodes: Bytes, nodes6: Bytes, values: Peers, want: Want)

  datatype Result = Result(kind: int, m: Parsed)

  function OrElse(f: Field<Bytes>, default: Bytes): Bytes { if f.Value? then f.v else default }

  function Tid(buf: Bytes): Field<Bytes> { Counted(buf, TID_MARK, TID_LIMIT) }
  function Token(buf: Bytes): Field<Bytes> { Counted(buf, TOKEN_MARK, TOKEN_LIMIT) }
  function Nodes(buf: Bytes): Field<Bytes> { Counted(buf, NODES_MARK, NODES_LIMIT + 1) }
  function Nodes6(buf: Bytes): Field<Bytes> { Counted(buf, NODES6_MARK, NODES6_LIMIT + 1) }

  /** The fields read and the kind told; a field that overruns the packet spoils the kind. */
  function Assemble(kind: int, tid: Field<Bytes>, id: Field<Bytes>, hash: Field<Bytes>, port: nat, implied: nat,
                    target: Field<Bytes>, token: Field<Bytes>, nodes: Field<Bytes>, nodes6: Field<Bytes>,
                    values: Field<Peers>, want: Want): Result
  {
    var truncated := || tid.Overflow? || id.Overflow? || hash.Overflow? || target.Overflow? || token.Overflow?
                     || nodes.Overflow? || nodes6.Overflow? || values.Overflow?;
    Result(if truncated then -1 else kind,
           Parsed(OrElse(tid, []), OrElse(id, ZERO_ID), OrElse(hash, ZERO_ID), port, implied, OrElse(target, ZERO_ID),
                  OrElse(token, []), OrElse(nodes, []), OrElse(nodes6, []),
                  if values.Value? then values.v else Peers([], []), want))
  }

  /** What the scanner returns: the kind of the packet, or -1, and the fields. */
  function Parse(buf: Bytes): Result
  {
    Assemble(KindOf(buf), Tid(buf), Fixed(buf, ID_MARK), Fixed(buf, HASH_MARK), PortNumber(buf, PORT_MARK),
             PortNumber(buf, IMPLIED_MARK), Fixed(buf, TARGET_MARK), Token(buf), Nodes(buf), Nodes6(buf), Values(buf),
             Wants(buf))
  }

  function Fields(buf: Bytes): Parsed { Parse(buf).m }

  /** Whatever the packet, every field read stays within the space reserved for it. */
  lemma {:induction false} FieldsFit(buf: Bytes)
    ensures var m := Fields(buf);
            && |m.tid| < 16 && |m.id| == |m.infoHash| == |m.target| == 20 && |m.token| < 128
            && |m.nodes| <= 26 * 16 && |m.nodes6| <= 38 * 16 && PeersOk(m.values)
            && |m.values.v4| <= 2048 && |m.values.v6| <= 2048
            && m.port < 0x10000 && m.impliedPort < 0x10000
  {
    NoPeersOk();
    var p := Find(buf, VALUES_MARK);
    if p.Some? {
      ValuesFromOk(buf, p.value + |VALUES_MARK|, Peers([], []));
    }
    var m := Fields(buf);
    assert m.values == if Values(buf).Value? then Values(buf).v else Peers([], []);
  }

  lemma {:induction false} NoPeersOk()
    ensures PeersOk(Peers([], []))
  {
  }

  // ----- the loops -----

  method ReadFixed(buf: Bytes, m: Bytes) returns (f: Field<Bytes>)
    ensures f == Fixed(buf, m)
  {
    var p := MemMem(buf, m);
    if p.None? {
      return Absent;
    }
    if p.value + |m| + 20 > |buf| {
      return Overflow;
    }
    return Value(buf[p.value + |m|..p.value + |m| + 20]);
  }

  method ReadCounted(buf: Bytes, m: Bytes, limit: nat) returns (f: Field<Bytes>)
    ensures f == Counted(buf, m, limit)
  {
    var p := MemMem(buf, m);
    if p.None? {
      return Absent;
    }
    var n := Strtol(buf, p.value + |m|);
    if At(buf, n.end) == ':' && n.value > 0 && n.value < limit {
      if n.end + 1 + n.value > |buf| {
        return Overflow;
      }
      return Value(buf[n.end + 1..n.end + 1 + n.value]);
    }
    return Absent;
  }

  /** The loop over the listed values; it ends because the position strictly grows. */
  method ReadValues(buf: Bytes, start: nat) returns (f: Field<Peers>)
    requires start <= |buf|
    ensures f == ValuesFrom(buf, start, Peers([], []))
  {
    var i, v := start, Peers([], []);
    ghost var all := ValuesFrom(buf, start, v);
    while true
      invariant start <= i <= |buf| && all == ValuesFrom(buf, i, v)
      decreases |buf| - i
    {
      var it := ItemAt(buf, i);
      if it.Overrun? {
        return Overflow;
      }
      if it.NoItem? {
        return Value(v);
      }
      v := AddValue(v, buf[it.from..it.to]);
      i := it.to;
    }
  }

  method ReadWant(buf: Bytes, start: nat) returns (w: Want)
    ensures w == WantFrom(buf, start, Want(false, false))
  {
    w := Want(false, false);
    var i := start;
    while '0' < At(buf, i) <= '9' && At(buf, i + 1) == ':' && i + 2 + DigitValue(At(buf, i)) < |buf|
      invariant WantFrom(buf, start, Want(false, false)) == WantFrom(buf, i, w)
      decreases |buf| - i
    {
      var d := DigitValue(buf[i]);
      if buf[i] == '2' && buf[i + 2..i + 4] == "n4" {
        w := w.(n4 := true);
      } else if buf[i] == '2' && buf[i + 2..i + 4] == "n6" {
        w := w.(n6 := true);
      }
      i := i + 2 + d;
    }
  }

  /** Scans for each field in turn; a field that overruns the packet ends the scan. */
  method ParseMessage(buf: Bytes) returns (kind: int, m: Parsed)
    ensures kind == Parse(buf).kind
    ensures kind >= 0 ==> m == Fields(buf)
  {
    m := Parsed([], ZERO_ID, ZERO_ID, 0, 0, ZERO_ID, [], [], [], Peers([], []), Want(false, false));
    var tid := ReadCounted(buf, TID_MARK, TID_LIMIT);
    if tid.Overflow? {
      return -1, m;
    }
    var id := ReadFixed(buf, ID_MARK);
    if id.Overflow? {
      return -1, m;
    }
    var hash := ReadFixed(buf, HASH_MARK);
    if hash.Overflow? {
      return -1, m;
    }
    var target := ReadFixed(buf, TARGET_MARK);
    if target.Overflow? {
      return -1, m;
    }
    var token := ReadCounted(buf, TOKEN_MARK, TOKEN_LIMIT);
    if token.Overflow? {
      return -1, m;
    }
    var nodes := ReadCounted(buf, NODES_MARK, NODES_LIMIT + 1);
    if nodes.Overflow? {
      return -1, m;
    }
    var nodes6 := ReadCounted(buf, NODES6_MARK, NODES6_LIMIT + 1);
    if nodes6.Overflow? {
      return -1, m;
    }
    var values := ReadValueList(buf);
    if values.Overflow? {
      return -1, m;
    }
    var want := ReadWantList(buf);
    var port, implied := PortNumber(buf, PORT_MARK), PortNumber(buf, IMPLIED_MARK);
    m := Parsed(OrElse(tid, []), OrElse(id, ZERO_ID), OrElse(hash, ZERO_ID), port, implied, OrElse(target, ZERO_ID),
                OrElse(token, []), OrElse(nodes, []), OrElse(nodes6, []),
                if values.Value? then values.v else Peers([], []), want);
    kind := KindOf(buf);
  }

  method ReadValueList(buf: Bytes) returns (f: Field<Peers>)
    ensures f == Values(buf)
  {
    var p := MemMem(buf, VALUES_MARK);
    if p.None? {
      return Absent;
    }
    f := ReadValues(buf, p.value + |VALUES_MARK|);
  }

  method ReadWantList(buf: Bytes) returns (w: Want)
    ensures w == Wants(buf)
  {
    var p := MemMem(buf, WANT_MARK);
    if p.None? {
      return Want(false, false);
    }
    w := ReadWant(buf, p.value + |WANT_MARK|);
  }
}
