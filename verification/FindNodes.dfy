/**
 Contacts on the wire: the compact entries in which a reply lists nodes, how they are cut
 up again by whoever asked, and the whole answer to a query for the nodes closest to a target.
 */
module FindNodes {
  import opened Ids
  import opened Options
  import opened Tables
  import opened RoutingTable
  import opened ClosestNodes
  import opened PeerStore
  import opened Replies
  import opened Sequences
  import B = Bytes
  import M = Messages
  import P = Packets
  import R = RoundTrip

  function EntrySize(af: Family): nat { if af.Inet? then 26 else 38 }

  /** An id, an address and a port in network order. */
  function Encoded(c: Contact): (r: B.Bytes)
    ensures |r| == EntrySize(c.addr.family)
  {
    IpBytes(c.id) + IpBytes(c.addr.ip) + PortBytes(c.addr.port)
  }

  function EncodedAll(l: seq<Contact>): B.Bytes { if l == [] then [] else Encoded(l[0]) + EncodedAll(l[1..]) }

  // ----- reading entries -----

  function ByteOf(c: char): Byte { (c as int % 256) as Byte }

  function BytesOf(s: B.Bytes): (r: seq<Byte>)
    ensures |r| == |s| && forall i | 0 <= i < |s| :: r[i] == ByteOf(s[i])
  {
    if s == [] then [] else [ByteOf(s[0])] + BytesOf(s[1..])
  }

  function PortNumberOf(hi: char, lo: char): (r: nat)
    ensures r < 0x10000
  {
    (hi as int % 256) * 256 + lo as int % 256
  }

  /** The contact in one entry. */
  function Decoded(s: B.Bytes, af: Family): Contact
    requires |s| == EntrySize(af)
  {
    var n := |s|;
    Contact(BytesOf(s[..20]), Address(af, BytesOf(s[20..n - 2]), PortNumberOf(s[n - 2], s[n - 1])))
  }

  /** The contacts in a list of entries. */
  function DecodedAll(s: B.Bytes, af: Family): seq<Contact>
    decreases |s|
  {
    var n := EntrySize(af);
    if |s| < n then [] else [Decoded(s[..n], af)] + DecodedAll(s[n..], af)
  }

  lemma {:induction false} ByteBack(b: Byte)
    ensures ByteOf(ByteChar(b)) == b
  {
    var n := b as int;
    assert n % 256 == n && ByteChar(b) as int == n;
  }

  lemma {:induction false} BytesBack(s: seq<Byte>)
    ensures BytesOf(IpBytes(s)) == s
  {
    forall i | 0 <= i < |s|
      ensures BytesOf(IpBytes(s))[i] == s[i]
    {
      ByteBack(s[i]);
    }
  }

  lemma {:induction false} PortBack(port: nat)
    requires port < 0x10000
    ensures PortNumberOf(PortBytes(port)[0], PortBytes(port)[1]) == port
  {
  }

  /** On the wire: the id, the address, then the port with its high byte first. */
  lemma {:induction false} EntryBytes(c: Contact)
    ensures var s, n := Encoded(c), 20 + |c.addr.ip|;
            && (forall i | 0 <= i < 20 :: s[i] as int == c.id[i] as int)
            && (forall i | 20 <= i < n :: s[i] as int == c.addr.ip[i - 20] as int)
            && s[n] as int == c.addr.port / 256 && s[n + 1] as int == c.addr.port % 256
  {
  }

  /** A peer sent as a value can be taken apart again: what stands before the last two bytes is the address. */
  lemma {:induction false} ValueBack(p: Peer)
    requires p.port < 0x10000
    ensures var s, n := Compact(p), |p.ip|; BytesOf(s[..n]) == p.ip && PortNumberOf(s[n], s[n + 1]) == p.port
    ensures var s, n := Compact(p), |p.ip|; s[n] as int == p.port / 256 && s[n + 1] as int == p.port % 256
  {
    assert Compact(p)[..|p.ip|] == IpBytes(p.ip);
    BytesBack(p.ip);
    PortBack(p.port);
  }

  lemma {:induction false} EntryBack(c: Contact)
    ensures Decoded(Encoded(c), c.addr.family) == c
  {
    var s, a, b, p := Encoded(c), IpBytes(c.id), IpBytes(c.addr.ip), PortBytes(c.addr.port);
    assert s[..20] == a && s[20..|s| - 2] == b && s[|s| - 2] == p[0] && s[|s| - 1] == p[1];
    BytesBack(c.id);
    BytesBack(c.addr.ip);
    PortBack(c.addr.port);
  }

  /** Entries, cut apart again, are the contacts they were made of. */
  lemma {:induction false} EntriesBack(l: seq<Contact>, af: Family)
    requires forall c | c in l :: c.addr.family == af
    ensures DecodedAll(EncodedAll(l), af) == l
  {
    if l != [] {
      assert l[0] in l && forall c | c in l[1..] :: c in l;
      EntriesBack(l[1..], af);
      EntryBack(l[0]);
      FirstEntry(Encoded(l[0]), EncodedAll(l[1..]), af);
    }
  }

  lemma {:induction false} FirstEntry(h: B.Bytes, t: B.Bytes, af: Family)
    requires |h| == EntrySize(af)
    ensures DecodedAll(h + t, af) == [Decoded(h, af)] + DecodedAll(t, af)
  {
    assert (h + t)[..|h|] == h && (h + t)[|h|..] == t;
  }

  lemma {:induction false} EntriesLength(l: seq<Contact>, af: Family)
    requires forall c | c in l :: c.addr.family == af
    ensures |EncodedAll(l)| == if af.Inet? then 26 * |l| else 38 * |l|
  {
    if l != [] {
      assert l[0] in l && forall c | c in l[1..] :: c in l;
      EntriesLength(l[1..], af);
    }
  }

  /** The contacts that are not about ourselves. */
  function Except(l: seq<Contact>, myid: Id): seq<Contact>
  {
    if l == [] then [] else (if l[0].id == myid then [] else [l[0]]) + Except(l[1..], myid)
  }

  /** Every contact is heard as often as it is listed, only ourselves never. */
  lemma {:induction false} ExceptExactly(l: seq<Contact>, myid: Id, c: Contact)
    ensures multiset(Except(l, myid))[c] == if c.id == myid then 0 else multiset(l)[c]
  {
    if l != [] {
      ExceptExactly(l[1..], myid, c);
      assert l == [l[0]] + l[1..];
    }
  }

  lemma {:induction false} ExceptAppend(l: seq<Contact>, c: Contact, myid: Id)
    ensures Except(l + [c], myid) == Except(l, myid) + if c.id == myid then [] else [c]
  {
    if l == [] {
      assert l + [c] == [c] && [c][1..] == [];
    } else {
      ExceptAppend(l[1..], c, myid);
      assert (l + [c])[1..] == l[1..] + [c] && (l + [c])[0] == l[0];
    }
  }

  /** The entries up to `pos` have been seen, and all but our own handed on. */
  ghost predicate Reading(nodes: B.Bytes, af: Family, myid: Id, pos: nat, seen: seq<Contact>, heard: seq<Contact>)
  {
    && pos <= |nodes| && DecodedAll(nodes, af) == seen + DecodedAll(nodes[pos..], af) && heard == Except(seen, myid)
  }

  lemma {:induction false} ReadNone(nodes: B.Bytes, af: Family, myid: Id)
    ensures Reading(nodes, af, myid, 0, [], [])
  {
    assert nodes[0..] == nodes && [] + DecodedAll(nodes, af) == DecodedAll(nodes, af);
  }

  lemma {:induction false} ReadOne(nodes: B.Bytes, af: Family, myid: Id, pos: nat, seen: seq<Contact>, heard: seq<Contact>)
    requires Reading(nodes, af, myid, pos, seen, heard) && pos + EntrySize(af) <= |nodes|
    ensures var c := Decoded(nodes[pos..pos + EntrySize(af)], af);
            Reading(nodes, af, myid, pos + EntrySize(af), seen + [c], if c.id == myid then heard else heard + [c])
  {
    var c := Decoded(nodes[pos..pos + EntrySize(af)], af);
    SeenNext(seen, nodes, pos, af);
    ExceptAppend(seen, c, myid);
    assert heard + [] == heard;
  }

  lemma {:induction false} ReadAll(nodes: B.Bytes, af: Family, myid: Id, seen: seq<Contact>, heard: seq<Contact>)
    requires Reading(nodes, af, myid, |nodes|, seen, heard)
    ensures heard == Except(DecodedAll(nodes, af), myid)
  {
    assert nodes[|nodes|..] == [] && seen + [] == seen;
  }

  /** The loop over the nodes of a reply; a list that is not made of whole entries is refused. */
  method ReadNodes(nodes: B.Bytes, af: Family, myid: Id) returns (r: Option<seq<Contact>>)
    ensures r == if |nodes| % EntrySize(af) != 0 then None else Some(Except(DecodedAll(nodes, af), myid))
  {
    if |nodes| % EntrySize(af) != 0 {
      return None;
    }
    var heard := ReadEntries(nodes, af, myid, |nodes| / EntrySize(af));
    r := Some(heard);
  }

  /** Where entry number `i` starts. */
  function EntryStart(af: Family, i: nat): nat { if af.Inet? then 26 * i else 38 * i }

  method ReadEntries(nodes: B.Bytes, af: Family, myid: Id, count: nat) returns (heard: seq<Contact>)
    requires |nodes| == EntryStart(af, count)
    ensures heard == Except(DecodedAll(nodes, af), myid)
  {
    heard := [];
    ghost var seen: seq<Contact> := [];
    ReadNone(nodes, af, myid);
    for i := 0 to count
      invariant Reading(nodes, af, myid, EntryStart(af, i), seen, heard)
    {
      EntryWithin(af, i, count);
      heard, seen := ReadEntry(nodes, af, myid, EntryStart(af, i), seen, heard);
    }
    ReadAll(nodes, af, myid, seen, heard);
  }

  lemma {:induction false} EntryWithin(af: Family, i: nat, count: nat)
    requires i < count
    ensures EntryStart(af, i) + EntrySize(af) == EntryStart(af, i + 1) <= EntryStart(af, count)
  {
  }

  /** One turn of the loop. */
  method ReadEntry(nodes: B.Bytes, af: Family, myid: Id, pos: nat, ghost seen: seq<Contact>, heard: seq<Contact>)
    returns (heard': seq<Contact>, ghost seen': seq<Contact>)
    requires Reading(nodes, af, myid, pos, seen, heard) && pos + EntrySize(af) <= |nodes|
    ensures Reading(nodes, af, myid, pos + EntrySize(af), seen', heard')
  {
    ReadOne(nodes, af, myid, pos, seen, heard);
    var c := Decoded(nodes[pos..pos + EntrySize(af)], af);
    SameId(c.id, myid);
    heard' := if IdCmp(c.id, myid) != 0 then heard + [c] else heard;
    seen' := seen + [c];
  }

  lemma {:induction false} SeenNext(seen: seq<Contact>, nodes: B.Bytes, pos: nat, af: Family)
    requires pos + EntrySize(af) <= |nodes|
    ensures var n := EntrySize(af);
            seen + DecodedAll(nodes[pos..], af) == seen + [Decoded(nodes[pos..pos + n], af)] + DecodedAll(nodes[pos + n..], af)
  {
    var n := EntrySize(af);
    var h, t := nodes[pos..pos + n], nodes[pos + n..];
    assert nodes[pos..] == h + t;
    FirstEntry(h, t, af);
    Assoc(seen, [Decoded(h, af)], DecodedAll(t, af));
  }

  // ----- whole answers -----

  /** The contacts of a list are of the table's family. */
  lemma {:induction false} ContactsOfTable(l: seq<Contact>, bs: seq<Bucket>, myid: Id, af: Family, now: int)
    requires BucketsOk(bs, myid, af)
    requires forall c | c in l :: exists n :: n in AllNodes(bs) && NodeGood(n, now) && c == ContactOf(n)
    ensures forall c | c in l :: c.addr.family == af
  {
    forall c | c in l
      ensures c.addr.family == af
    {
      var n :| n in AllNodes(bs) && NodeGood(n, now) && c == ContactOf(n);
      var i := NodeInSomeBucket(bs, n);
      assert BucketOk(bs, i, myid, af);
    }
  }

  lemma {:induction false} ListedFit(l: seq<Contact>, bs: seq<Bucket>, h: nat, target: Id, now: int, myid: Id, af: Family)
    requires BucketsOk(bs, myid, af) && ListsClosest(l, bs, h, target, now)
    ensures ListFits(l, af)
  {
    ContactsOfTable(l, bs, myid, af, now);
  }

  /** At most eight contacts of one family. */
  ghost predicate ListFits(l: seq<Contact>, af: Family) { |l| <= 8 && forall c | c in l :: c.addr.family == af }

  /** What is listed from a table, if there is one and it is wanted. */
  ghost predicate Answers(l: seq<Contact>, table: RoutingTable?, wanted: bool, target: Id, now: int)
    requires table != null ==> table.Valid()
    reads table
  {
    if table == null || !wanted then l == [] else ListsClosest(l, table.buckets, Home(table.buckets, target), target, now)
  }

  method NodesFrom(table: RoutingTable?, wanted: bool, target: Id, now: int, af: Family) returns (l: seq<Contact>)
    requires table != null ==> table.Valid() && table.af == af
    ensures Answers(l, table, wanted, target, now) && ListFits(l, af)
  {
    l := [];
    if wanted && table != null {
      l := NodesOf(table, target, now);
    }
  }

  method NodesOf(table: RoutingTable, target: Id, now: int) returns (l: seq<Contact>)
    requires table.Valid()
    ensures ListsClosest(l, table.buckets, Home(table.buckets, target), target, now) && ListFits(l, table.af)
  {
    l := ClosestNodes.ClosestNodes(table, target, now);
    ListedFit(l, table.buckets, Home(table.buckets, target), target, now, table.myid, table.af);
  }

  /** The families asked for; without a wish, the one the query came by. */
  function Wanted(want: M.Want, v4: bool): M.Want { if want.n4 || want.n6 then want else M.Want(v4, !v4) }

  lemma {:induction false} WantedFamilies(want: M.Want, v4: bool)
    ensures Wanted(want, v4).n4 <==> want.n4 || (!want.n4 && !want.n6 && v4)
    ensures Wanted(want, v4).n6 <==> want.n6 || (!want.n4 && !want.n6 && !v4)
  {
  }

  /**
   The answer to a query for the nodes closest to a target: from each table wanted its closest good
   nodes, as entries, with a token and stored peers if there are any.  It is always sent whole.
   */
  method SendClosestNodes(id: B.Bytes, t4: RoutingTable?, t6: RoutingTable?, target: Id, want: M.Want, v4: bool, token: B.Bytes,
                          peers: seq<Peer>, random: nat, tid: B.Bytes, version: Option<B.Bytes>, now: int)
    returns (r: Option<B.Bytes>, ghost l4: seq<Contact>, ghost l6: seq<Contact>)
    requires t4 != null ==> t4.Valid() && t4.af == Inet
    requires t6 != null ==> t6.Valid() && t6.af == Inet6
    requires |id| == 20 && |token| <= 8 && |tid| < M.TID_LIMIT && (version.Some? ==> |version.value| == 4)
    ensures Answers(l4, t4, want.n4 || (!want.n4 && !want.n6 && v4), target, now)
    ensures Answers(l6, t6, want.n6 || (!want.n4 && !want.n6 && !v4), target, now)
    ensures ListFits(l4, Inet) && ListFits(l6, Inet6)
    ensures r == Some(P.Text(AnswerPacket(id, l4, l6, token, peers, v4, random, tid, version)))
  {
    WantedFamilies(want, v4);
    var w := Wanted(want, v4);
    var n4 := NodesFrom(t4, w.n4, target, now, Inet);
    var n6 := NodesFrom(t6, w.n6, target, now, Inet6);
    l4, l6 := n4, n6;
    EntriesFit(n4, n6);
    r := SendReply(id, EncodedAll(n4), EncodedAll(n6), token, peers, v4, random, tid, version);
  }

  lemma {:induction false} EntriesFit(l4: seq<Contact>, l6: seq<Contact>)
    requires ListFits(l4, Inet) && ListFits(l6, Inet6)
    ensures |EncodedAll(l4)| <= 8 * 26 && |EncodedAll(l6)| <= 8 * 38
  {
    EntriesLength(l4, Inet);
    EntriesLength(l6, Inet6);
  }

  function AnswerPacket(id: B.Bytes, l4: seq<Contact>, l6: seq<Contact>, token: B.Bytes, peers: seq<Peer>, v4: bool,
                        random: nat, tid: B.Bytes, version: Option<B.Bytes>): P.Packet
  {
    P.ReplyPacket(id, EncodedAll(l4), EncodedAll(l6), token, ReplyValues(peers, if v4 then 4 else 16, random), tid, version)
  }

  /** Whoever asked, and is not misled by a stray marker, reads exactly the contacts listed, in order. */
  lemma {:induction false} AnswerReadBack(id: B.Bytes, l4: seq<Contact>, l6: seq<Contact>, token: B.Bytes, peers: seq<Peer>,
                                          v4: bool, random: nat, tid: B.Bytes, version: Option<B.Bytes>)
    requires |id| == 20 && |token| <= 8 && |tid| < M.TID_LIMIT && ListFits(l4, Inet) && ListFits(l6, Inet6)
    requires R.Unspoilt(P.Layout(AnswerPacket(id, l4, l6, token, peers, v4, random, tid, version)))
    ensures var m := M.Parse(P.Text(AnswerPacket(id, l4, l6, token, peers, v4, random, tid, version))).m;
            DecodedAll(m.nodes, Inet) == l4 && DecodedAll(m.nodes6, Inet6) == l6
  {
    EntriesFit(l4, l6);
    EntriesBack(l4, Inet);
    EntriesBack(l6, Inet6);
    ReplyReadBack(id, EncodedAll(l4), EncodedAll(l6), token, peers, v4, random, tid, version);
  }
}
