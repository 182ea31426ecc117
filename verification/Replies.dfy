/**
 The peers put into a reply: a walk around the stored list from a random position,
 taking those of the asker's family until fifty are taken or the walk is complete.
 */
module Replies {
  import opened Ids
  import opened PeerStore
  import B = Bytes
  import M = Messages
  import opened Packets
  import opened Printers
  import opened RoundTrip
  import opened Sequences
  import opened Options

  const MOST_VALUES: nat := 50

  function One(p: Peer, len: nat): seq<Peer>
  {
    if |p.ip| == len then [p] else []
  }

  function Matching(ps: seq<Peer>, len: nat): seq<Peer>
  {
    if ps == [] then [] else One(ps[0], len) + Matching(ps[1..], len)
  }

  function Rotated(ps: seq<Peer>, start: nat): (r: seq<Peer>)
    requires start < |ps|
    ensures |r| == |ps|
  {
    ps[start..] + ps[..start]
  }

  /** The first fifty peers of one family, counted from `start` around the ring. */
  function Chosen(ps: seq<Peer>, len: nat, start: nat): (r: seq<Peer>)
    requires start < |ps|
    ensures |r| <= MOST_VALUES
  {
    var m := Matching(Rotated(ps, start), len);
    if |m| <= MOST_VALUES then m else m[..MOST_VALUES]
  }

  // ----- on the wire -----

  function ByteChar(b: Byte): char { (b as int) as char }

  function PortBytes(port: nat): (r: B.Bytes)
    ensures |r| == 2
  {
    [(port / 256 % 256) as char, (port % 256) as char]
  }

  function IpBytes(ip: seq<Byte>): (r: B.Bytes)
    ensures |r| == |ip| && forall i | 0 <= i < |ip| :: r[i] == ByteChar(ip[i])
  {
    if ip == [] then [] else [ByteChar(ip[0])] + IpBytes(ip[1..])
  }

  /** Address and port, the port in network order. */
  function Compact(p: Peer): (r: B.Bytes)
    ensures |r| == |p.ip| + 2
  {
    IpBytes(p.ip) + PortBytes(p.port)
  }

  function Compacts(ps: seq<Peer>): (r: seq<B.Bytes>)
    ensures |r| == |ps| && forall i | 0 <= i < |ps| :: r[i] == Compact(ps[i])
  {
    if ps == [] then [] else [Compact(ps[0])] + Compacts(ps[1..])
  }

  lemma {:induction false} CompactInjective(p: Peer, q: Peer)
    requires Compact(p) == Compact(q) && p.port < 0x10000 && q.port < 0x10000
    ensures KeyOf(p) == KeyOf(q)
  {
    var n := |p.ip|;
    forall i | 0 <= i < n
      ensures p.ip[i] == q.ip[i]
    {
      assert Compact(p)[i] == ByteChar(p.ip[i]) && Compact(q)[i] == ByteChar(q.ip[i]);
      assert (p.ip[i] as int) == (q.ip[i] as int);
    }
    assert p.ip == q.ip;
    assert Compact(p)[n] == (p.port / 256 % 256) as char && Compact(p)[n + 1] == (p.port % 256) as char;
    assert Compact(q)[n] == (q.port / 256 % 256) as char && Compact(q)[n + 1] == (q.port % 256) as char;
  }

  lemma {:induction false} CompactsAppend(ps: seq<Peer>, p: Peer)
    ensures Compacts(ps + [p]) == Compacts(ps) + [Compact(p)]
  {
  }

  // ----- what is chosen -----

  lemma {:induction false} MatchingSplit(a: seq<Peer>, b: seq<Peer>, len: nat)
    ensures Matching(a + b, len) == Matching(a, len) + Matching(b, len)
  {
    if a == [] {
      assert a + b == b;
    } else {
      MatchingSplit(a[1..], b, len);
      assert (a + b)[1..] == a[1..] + b && (a + b)[0] == a[0];
      Assoc(One(a[0], len), Matching(a[1..], len), Matching(b, len));
    }
  }

  /** Filtering keeps the peers of one family, each as often as it was there. */
  lemma {:induction false} MatchingCounts(ps: seq<Peer>, len: nat, p: Peer)
    ensures multiset(Matching(ps, len))[p] == if |p.ip| == len then multiset(ps)[p] else 0
  {
    if ps != [] {
      MatchingCounts(ps[1..], len, p);
      assert ps == [ps[0]] + ps[1..];
    }
  }

  /**
   Each peer is sent at most as often as it is stored, only peers of the right family are sent,
   and every one of them is sent when there are no more than fifty.
   */
  lemma {:induction false} ChosenCounts(ps: seq<Peer>, len: nat, start: nat, p: Peer)
    requires start < |ps|
    ensures multiset(Chosen(ps, len, start))[p] <= if |p.ip| == len then multiset(ps)[p] else 0
    ensures |Matching(ps, len)| <= 50 && |p.ip| == len ==> multiset(Chosen(ps, len, start))[p] == multiset(ps)[p]
    ensures |Chosen(ps, len, start)| == if |Matching(ps, len)| <= 50 then |Matching(ps, len)| else 50
  {
    RotatedMatches(ps, len, start);
    var m := Matching(Rotated(ps, start), len);
    MatchingCounts(ps, len, p);
    if |m| > MOST_VALUES {
      assert m == m[..MOST_VALUES] + m[MOST_VALUES..];
    }
  }

  /** Where the walk starts does not change what there is to find. */
  lemma {:induction false} RotatedMatches(ps: seq<Peer>, len: nat, start: nat)
    requires start < |ps|
    ensures multiset(Matching(Rotated(ps, start), len)) == multiset(Matching(ps, len))
    ensures |Matching(Rotated(ps, start), len)| == |Matching(ps, len)|
  {
    var a, b := ps[..start], ps[start..];
    assert ps == a + b;
    MatchingSplit(a, b, len);
    MatchingSplit(b, a, len);
  }

  lemma {:induction false} ChosenIsStored(ps: seq<Peer>, len: nat, start: nat, i: nat)
    requires start < |ps| && i < |Chosen(ps, len, start)|
    ensures Chosen(ps, len, start)[i] in ps && |Chosen(ps, len, start)[i].ip| == len
  {
    var c := Chosen(ps, len, start);
    assert c[i] in multiset(c);
    ChosenCounts(ps, len, start, c[i]);
  }

  /** No entry of a reply is sent twice. */
  lemma {:induction false} ValuesDistinct(ps: seq<Peer>, len: nat, start: nat, i: nat, j: nat)
    requires start < |ps| && DistinctPeers(ps) && forall p | p in ps :: p.port < 0x10000
    requires i < j < |Chosen(ps, len, start)|
    ensures Compacts(Chosen(ps, len, start))[i] != Compacts(Chosen(ps, len, start))[j]
  {
    var c := Chosen(ps, len, start);
    ChosenIsStored(ps, len, start, i);
    ChosenIsStored(ps, len, start, j);
    if Compact(c[i]) == Compact(c[j]) {
      CompactInjective(c[i], c[j]);
      SameKey(ps, c[i], c[j]);
      TwiceInMultiset(c, i, j);
      ChosenCounts(ps, len, start, c[i]);
      DistinctOnce(ps, c[i]);
      assert false;
    }
  }

  lemma {:induction false} SameKey(ps: seq<Peer>, p: Peer, q: Peer)
    requires DistinctPeers(ps) && p in ps && q in ps && KeyOf(p) == KeyOf(q)
    ensures p == q
  {
    var i :| 0 <= i < |ps| && ps[i] == p;
    var j :| 0 <= j < |ps| && ps[j] == q;
    if i < j {
      assert false;
    } else if j < i {
      assert false;
    }
  }

  // ----- the walk -----

  lemma {:induction false} RingStep(ps: seq<Peer>, len: nat, start: nat, t: nat)
    requires start < |ps| && t < |ps|
    ensures var r, j := Rotated(ps, start), RingPlace(start, t, |ps|);
            r[t] == ps[j]
            && Matching(r[..t + 1], len) == Matching(r[..t], len) + One(ps[j], len)
  {
    var r := Rotated(ps, start);
    assert r[..t + 1] == r[..t] + [r[t]];
    MatchingSplit(r[..t], [r[t]], len);
    assert [r[t]][1..] == [];
  }

  lemma {:induction false} RingStopped(ps: seq<Peer>, len: nat, start: nat, t: nat)
    requires start < |ps| && t <= |ps|
    requires var n := |Matching(Rotated(ps, start)[..t], len)|; n <= MOST_VALUES && (t == |ps| || n == MOST_VALUES)
    ensures Chosen(ps, len, start) == Matching(Rotated(ps, start)[..t], len)
  {
    var r := Rotated(ps, start);
    assert r == r[..t] + r[t..];
    MatchingSplit(r[..t], r[t..], len);
    if t == |ps| {
      assert r[..t] == r;
    }
  }

  /** The place of step `t` of a walk around `n` places. */
  function RingPlace(start: nat, t: nat, n: nat): nat
    requires start < n && t <= n
  {
    if start + t < n then start + t else start + t - n
  }

  lemma {:induction false} NextPlace(start: nat, t: nat, n: nat)
    requires start < n && t < n
    ensures (RingPlace(start, t, n) + 1) % n == RingPlace(start, t + 1, n) < n
    ensures RingPlace(start, t + 1, n) == start <==> t + 1 == n
  {
  }

  /** What has been taken after `t` steps. */
  ghost predicate Walked(peers: seq<Peer>, len: nat, start: nat, t: nat, got: seq<Peer>, values: seq<B.Bytes>)
    requires start < |peers|
  {
    t <= |peers| && got == Matching(Rotated(peers, start)[..t], len) && values == Compacts(got)
  }

  lemma {:induction false} WalkStep(peers: seq<Peer>, len: nat, start: nat, t: nat, got: seq<Peer>, values: seq<B.Bytes>)
    requires start < |peers| && t < |peers| && Walked(peers, len, start, t, got, values)
    ensures var p := peers[RingPlace(start, t, |peers|)];
            && (|p.ip| == len ==> Walked(peers, len, start, t + 1, got + [p], values + [Compact(p)]))
            && (|p.ip| != len ==> Walked(peers, len, start, t + 1, got, values))
  {
    RingStep(peers, len, start, t);
    CompactsAppend(got, peers[RingPlace(start, t, |peers|)]);
    assert got + [] == got;
  }

  method WalkRing(peers: seq<Peer>, len: nat, start: nat) returns (values: seq<B.Bytes>)
    requires start < |peers|
    ensures values == Compacts(Chosen(peers, len, start))
  {
    var j, k := start, 0;
    values := [];
    ghost var t: nat, got: seq<Peer> := 0, [];
    while true
      invariant t < |peers| && j == RingPlace(start, t, |peers|)
      invariant Walked(peers, len, start, t, got, values) && |got| == k < MOST_VALUES
      decreases |peers| - t
    {
      WalkStep(peers, len, start, t, got, values);
      if |peers[j].ip| == len {
        values, got := values + [Compact(peers[j])], got + [peers[j]];
        k := k + 1;
      }
      NextPlace(start, t, |peers|);
      j := (j + 1) % |peers|;
      t := t + 1;
      if j == start || k >= MOST_VALUES {
        break;
      }
    }
    RingStopped(peers, len, start, t);
  }

  // ----- whole replies -----

  /** The values of a reply: none without stored peers, otherwise what the walk from a random position finds. */
  function ReplyValues(peers: seq<Peer>, len: nat, random: nat): Option<seq<B.Bytes>>
  {
    if peers == [] then None else Some(Compacts(Chosen(peers, len, random % |peers|)))
  }

  lemma {:induction false} ReplyValuesFit(peers: seq<Peer>, len: nat, random: nat)
    requires len <= 16
    ensures var v := ReplyValues(peers, len, random);
            v.Some? ==> |v.value| <= MOST_VALUES && forall x | x in v.value :: |x| == len + 2
  {
    if peers != [] {
      var start := random % |peers|;
      var c := Chosen(peers, len, start);
      forall x | x in Compacts(c)
        ensures |x| == len + 2
      {
        var i :| 0 <= i < |c| && Compacts(c)[i] == x;
        ChosenIsStored(peers, len, start, i);
      }
    }
  }

  /** Whatever is stored, and from wherever the walk starts, the reply is printed whole. */
  method SendReply(id: B.Bytes, nodes: B.Bytes, nodes6: B.Bytes, token: B.Bytes, peers: seq<Peer>, v4: bool,
                   random: nat, tid: B.Bytes, version: Option<B.Bytes>) returns (r: Option<B.Bytes>)
    requires |id| == 20 && |nodes| <= 8 * 26 && |nodes6| <= 8 * 38 && |token| <= 8 && |tid| < M.TID_LIMIT
    requires version.Some? ==> |version.value| == 4
    ensures var values := ReplyValues(peers, if v4 then 4 else 16, random);
            r == Some(Text(ReplyPacket(id, nodes, nodes6, token, values, tid, version)))
  {
    var len := if v4 then 4 else 16;
    var values: Option<seq<B.Bytes>> := None;
    if |peers| > 0 {
      var vs := WalkRing(peers, len, random % |peers|);
      values := Some(vs);
    }
    ReplyValuesFit(peers, len, random);
    ReplyFits(id, nodes, nodes6, token, values, tid, version);
    r := SendNodesPeers(id, nodes, nodes6, token, values, tid, version);
  }

  lemma {:induction false} JoinedLength(xs: seq<B.Bytes>, n: nat)
    requires n <= 18
    ensures |Joined(xs, n)| <= 18 * |xs|
  {
    if xs != [] {
      JoinedLength(xs[1..], n);
    }
  }

  /** Values of one length are joined into one list, and none of them into the other. */
  lemma {:induction false} JoinedAll(xs: seq<B.Bytes>, k: nat, n: nat)
    requires forall x | x in xs :: |x| == k
    ensures Joined(xs, n) == if k == n then Flat(xs) else []
  {
    if xs != [] {
      assert xs[0] in xs && forall x | x in xs[1..] :: x in xs;
      JoinedAll(xs[1..], k, n);
    }
  }

  /** A reply, read back: the nodes, the token, the transaction and exactly the peers chosen. */
  lemma {:induction false} ReplyReadBack(id: B.Bytes, nodes: B.Bytes, nodes6: B.Bytes, token: B.Bytes, peers: seq<Peer>,
                                         v4: bool, random: nat, tid: B.Bytes, version: Option<B.Bytes>)
    requires |id| == 20 && |nodes| <= 8 * 26 && |nodes6| <= 8 * 38 && |token| <= 8 && |tid| < M.TID_LIMIT
    requires Unspoilt(Layout(ReplyPacket(id, nodes, nodes6, token, ReplyValues(peers, if v4 then 4 else 16, random), tid, version)))
    ensures var values := ReplyValues(peers, if v4 then 4 else 16, random);
            var p := M.Parse(Text(ReplyPacket(id, nodes, nodes6, token, values, tid, version)));
            && p.kind == M.REPLY && p.m.id == id && p.m.tid == tid && p.m.token == token
            && p.m.nodes == nodes && p.m.nodes6 == nodes6
            && var sent := if values.Some? then Flat(values.value) else [];
               p.m.values == if v4 then M.Peers(sent, []) else M.Peers([], sent)
  {
    var values := ReplyValues(peers, if v4 then 4 else 16, random);
    ValuesReadable(peers, v4, random);
    var p := ReplyPacket(id, nodes, nodes6, token, values, tid, version);
    ReplyHasRoom(p, nodes, nodes6, token);
    ReadBack(p);
  }

  lemma {:induction false} ReadBack(p: Packet)
    requires p.kind == Reply && Fits(p) && Unspoilt(Layout(p))
    ensures var r := M.Parse(Text(p));
            && r.kind == M.REPLY && r.m.id == p.id && r.m.tid == p.tid && r.m.token == OrEmpty(p.token)
            && r.m.nodes == OrEmpty(p.nodes) && r.m.nodes6 == OrEmpty(p.nodes6)
            && r.m.values == if p.values.Some? then M.Peers(Joined(p.values.value, 6), Joined(p.values.value, 18)) else M.Peers([], [])
  {
    ParsePrinted(p);
  }

  lemma {:induction false} ReplyHasRoom(p: Packet, nodes: B.Bytes, nodes6: B.Bytes, token: B.Bytes)
    requires |p.id| == 20 && |nodes| <= 8 * 26 && |nodes6| <= 8 * 38 && |token| <= 8 && |p.tid| < M.TID_LIMIT
    requires p.target.None? && p.infoHash.None? && p.port.None?
    requires p.nodes == NonEmpty(nodes) && p.nodes6 == NonEmpty(nodes6) && p.token == NonEmpty(token)
    requires p.values.Some? ==>
               && (forall x | x in p.values.value :: x != [])
               && |Joined(p.values.value, 6)| <= M.VALUES_LIMIT && |Joined(p.values.value, 18)| <= M.VALUES_LIMIT
    ensures Fits(p)
  {
  }

  lemma {:induction false} ValuesReadable(peers: seq<Peer>, v4: bool, random: nat)
    ensures var values := ReplyValues(peers, if v4 then 4 else 16, random);
            values.Some? ==>
              && (forall x | x in values.value :: x != [])
              && |Joined(values.value, 6)| <= M.VALUES_LIMIT && |Joined(values.value, 18)| <= M.VALUES_LIMIT
              && Joined(values.value, 6) == (if v4 then Flat(values.value) else [])
              && Joined(values.value, 18) == (if v4 then [] else Flat(values.value))
  {
    var len := if v4 then 4 else 16;
    var values := ReplyValues(peers, len, random);
    ReplyValuesFit(peers, len, random);
    if values.Some? {
      JoinedLength(values.value, 6);
      JoinedLength(values.value, 18);
      JoinedAll(values.value, len + 2, 6);
      JoinedAll(values.value, len + 2, 18);
    }
  }
}
