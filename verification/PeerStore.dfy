/**
 The store of announced peers: for every info hash a growable list of peers with the
 time each was last announced, behaving as a map from hashes to maps of endpoints.
 */
module PeerStore {
  import opened Ids
  import opened Prefixes
  import opened Tables
  import opened Sequences
  import opened Options

  const MAX_PEERS: nat := 2048
  const MAX_HASHES: nat := 16384
  const PEER_LIFETIME: int := 32 * 60

  datatype Endpoint = Endpoint(ip: seq<Byte>, port: nat)

  datatype Peer = Peer(time: int, ip: seq<Byte>, port: nat)

  function KeyOf(p: Peer): Endpoint { Endpoint(p.ip, p.port) }

  /** One hash: its peers (their number is the length of the list) and the room allocated for them. */
  datatype Storage = Storage(id: Id, peers: seq<Peer>, maxpeers: nat)

  ghost predicate DistinctPeers(ps: seq<Peer>)
  {
    forall i, j | 0 <= i < j < |ps| :: KeyOf(ps[i]) != KeyOf(ps[j])
  }

  ghost predicate DistinctHashes(s: seq<Storage>)
  {
    forall i, j | 0 <= i < j < |s| :: s[i].id != s[j].id
  }

  ghost predicate EntryOk(e: Storage)
  {
    DistinctPeers(e.peers) && e.peers != [] && |e.peers| <= e.maxpeers <= MAX_PEERS
  }

  ghost predicate StoreOk(s: seq<Storage>)
  {
    DistinctHashes(s) && forall e | e in s :: EntryOk(e)
  }

  // ----- the store as a map -----

  ghost function PeersView(ps: seq<Peer>): map<Endpoint, int>
  {
    if ps == [] then map[]
    else PeersView(ps[..|ps| - 1])[KeyOf(ps[|ps| - 1]) := ps[|ps| - 1].time]
  }

  ghost function View(s: seq<Storage>): map<Id, map<Endpoint, int>>
  {
    if s == [] then map[]
    else View(s[..|s| - 1])[s[|s| - 1].id := PeersView(s[|s| - 1].peers)]
  }

  /** Some peer has this endpoint. */
  ghost predicate HasPeer(ps: seq<Peer>, k: Endpoint) { exists i :: 0 <= i < |ps| && KeyOf(ps[i]) == k }

  ghost predicate HasHash(s: seq<Storage>, id: Id) { exists i :: 0 <= i < |s| && s[i].id == id }

  lemma {:induction false} PeersViewFacts(ps: seq<Peer>)
    requires DistinctPeers(ps)
    ensures forall i | 0 <= i < |ps| :: KeyOf(ps[i]) in PeersView(ps) && PeersView(ps)[KeyOf(ps[i])] == ps[i].time
    ensures forall k | k in PeersView(ps) :: HasPeer(ps, k)
  {
    if ps != [] {
      var t, n := ps[..|ps| - 1], |ps| - 1;
      PeersViewFacts(t);
      forall k | k in PeersView(ps)
        ensures HasPeer(ps, k)
      {
        if k != KeyOf(ps[n]) {
          assert HasPeer(t, k);
          var i :| 0 <= i < |t| && KeyOf(t[i]) == k;
          assert KeyOf(ps[i]) == k;
        }
      }
      forall i | 0 <= i < |ps|
        ensures KeyOf(ps[i]) in PeersView(ps) && PeersView(ps)[KeyOf(ps[i])] == ps[i].time
      {
        if i < n {
          assert t[i] == ps[i];
        }
      }
    }
  }

  lemma {:induction false} ViewFacts(s: seq<Storage>)
    requires DistinctHashes(s)
    ensures forall i | 0 <= i < |s| :: s[i].id in View(s) && View(s)[s[i].id] == PeersView(s[i].peers)
    ensures forall id | id in View(s) :: HasHash(s, id)
  {
    if s != [] {
      var t, n := s[..|s| - 1], |s| - 1;
      ViewFacts(t);
      forall id | id in View(s)
        ensures HasHash(s, id)
      {
        if id != s[n].id {
          assert HasHash(t, id);
          var i :| 0 <= i < |t| && t[i].id == id;
          assert s[i].id == id;
        }
      }
      forall i | 0 <= i < |s|
        ensures s[i].id in View(s) && View(s)[s[i].id] == PeersView(s[i].peers)
      {
        if i < n {
          assert t[i] == s[i];
        }
      }
    }
  }

  lemma {:induction false} ViewIs(s: seq<Storage>, m: map<Id, map<Endpoint, int>>)
    requires DistinctHashes(s)
    requires forall i | 0 <= i < |s| :: s[i].id in m && m[s[i].id] == PeersView(s[i].peers)
    requires forall id | id in m :: HasHash(s, id)
    ensures View(s) == m
  {
    ViewFacts(s);
  }

  lemma {:induction false} PeersViewIs(ps: seq<Peer>, m: map<Endpoint, int>)
    requires DistinctPeers(ps)
    requires forall i | 0 <= i < |ps| :: KeyOf(ps[i]) in m && m[KeyOf(ps[i])] == ps[i].time
    requires forall k | k in m :: HasPeer(ps, k)
    ensures PeersView(ps) == m
  {
    PeersViewFacts(ps);
  }

  /** The view after an announce: the endpoint's time is set, whether or not it was there. */
  ghost function Announced(m: map<Id, map<Endpoint, int>>, id: Id, k: Endpoint, now: int): map<Id, map<Endpoint, int>>
  {
    m[id := (if id in m then m[id] else map[])[k := now]]
  }

  ghost function Fresh(m: map<Endpoint, int>, now: int): map<Endpoint, int>
  {
    map k | k in m && m[k] >= now - PEER_LIFETIME :: m[k]
  }

  /** The view after expiry: old endpoints go, and with its last endpoint a hash goes too. */
  ghost function Unexpired(m: map<Id, map<Endpoint, int>>, now: int): map<Id, map<Endpoint, int>>
  {
    map id | id in m && Fresh(m[id], now) != map[] :: Fresh(m[id], now)
  }

  /** One endpoint is listed under one hash at time `now`, and nothing else is different. */
  ghost predicate Entered(m: map<Id, map<Endpoint, int>>, r: map<Id, map<Endpoint, int>>, id: Id, k: Endpoint, now: int)
  {
    && (forall i | i != id :: (i in r <==> i in m) && (i in r && i in m ==> r[i] == m[i]))
    && id in r && k in r[id] && r[id][k] == now
    && (forall j | j in r[id] && j != k :: id in m && j in m[id] && r[id][j] == m[id][j])
    && (id in m ==> forall j | j in m[id] :: j in r[id])
  }

  /** What was announced in the last 1920 s is still there, with its time; nothing else is, not even an empty hash. */
  ghost predicate Outlived(m: map<Id, map<Endpoint, int>>, r: map<Id, map<Endpoint, int>>, now: int)
  {
    && (forall i, k | i in m && k in m[i] && m[i][k] >= now - 1920 :: i in r && k in r[i] && r[i][k] == m[i][k])
    && (forall i, k | i in r && k in r[i] :: i in m && k in m[i] && m[i][k] >= now - 1920)
    && (forall i | i in r :: r[i] != map[])
  }

  lemma {:induction false} UnexpiredOutlives(m: map<Id, map<Endpoint, int>>, now: int)
    ensures Outlived(m, Unexpired(m, now), now)
  {
    forall i, k | i in m && k in m[i] && m[i][k] >= now - 1920
      ensures i in Unexpired(m, now) && k in Unexpired(m, now)[i] && Unexpired(m, now)[i][k] == m[i][k]
    {
      assert k in Fresh(m[i], now);
    }
  }

  lemma {:induction false} AnnouncedEnters(m: map<Id, map<Endpoint, int>>, id: Id, k: Endpoint, now: int)
    ensures Entered(m, Announced(m, id, k, now), id, k, now)
  {
  }

  // ----- lemmas about one entry -----

  lemma {:induction false} TouchPeer(ps: seq<Peer>, i: nat, now: int)
    requires DistinctPeers(ps) && i < |ps|
    ensures DistinctPeers(ps[i := ps[i].(time := now)])
    ensures PeersView(ps[i := ps[i].(time := now)]) == PeersView(ps)[KeyOf(ps[i]) := now]
    ensures KeyOf(ps[i]) in PeersView(ps)
  {
    var qs, m := ps[i := ps[i].(time := now)], PeersView(ps)[KeyOf(ps[i]) := now];
    PeersViewFacts(ps);
    assert forall j | 0 <= j < |ps| :: KeyOf(qs[j]) == KeyOf(ps[j]);
    forall k | k in m
      ensures HasPeer(qs, k)
    {
      var j :| 0 <= j < |ps| && KeyOf(ps[j]) == k;
      assert KeyOf(qs[j]) == k;
    }
    PeersViewIs(qs, m);
  }

  lemma {:induction false} AppendPeer(ps: seq<Peer>, p: Peer)
    requires DistinctPeers(ps) && forall j | 0 <= j < |ps| :: KeyOf(ps[j]) != KeyOf(p)
    ensures DistinctPeers(ps + [p])
    ensures PeersView(ps + [p]) == PeersView(ps)[KeyOf(p) := p.time]
    ensures KeyOf(p) !in PeersView(ps)
  {
    PeersViewFacts(ps);
    assert (ps + [p])[..|ps|] == ps;
  }

  /** Replacing the peers of one entry updates the view at its hash only. */
  lemma {:induction false} ReplaceEntry(s: seq<Storage>, i: nat, e: Storage)
    requires StoreOk(s) && i < |s| && e.id == s[i].id && EntryOk(e)
    ensures StoreOk(s[i := e]) && View(s[i := e]) == View(s)[e.id := PeersView(e.peers)]
  {
    ViewOfUpdate(s, i, e);
    assert forall j | 0 <= j < |s| :: s[i := e][j].id == s[j].id;
    assert forall x | x in s[i := e] :: x == e || x in s;
  }

  lemma {:induction false} ViewOfUpdate(s: seq<Storage>, i: nat, e: Storage)
    requires DistinctHashes(s) && i < |s| && e.id == s[i].id
    ensures View(s[i := e]) == View(s)[e.id := PeersView(e.peers)]
  {
    var t, m := s[i := e], View(s)[e.id := PeersView(e.peers)];
    ViewFacts(s);
    assert forall j | 0 <= j < |s| :: t[j].id == s[j].id;
    forall id | id in m
      ensures HasHash(t, id)
    {
      var j :| 0 <= j < |s| && s[j].id == id;
      assert t[j].id == id;
    }
    ViewIs(t, m);
  }

  lemma {:induction false} SwapUpdates<K, V>(m: map<K, V>, a: K, x: V, b: K, y: V)
    requires a != b
    ensures m[b := y][a := x] == m[a := x][b := y]
  {
  }

  lemma {:induction false} ViewOfCons(e: Storage, s: seq<Storage>)
    requires forall j | 0 <= j < |s| :: s[j].id != e.id
    ensures View([e] + s) == View(s)[e.id := PeersView(e.peers)]
  {
    if s == [] {
      assert ([e] + s)[..0] == [];
    } else {
      var n, r := |s| - 1, [e] + s;
      ViewOfCons(e, s[..n]);
      assert r[..n + 1] == [e] + s[..n] && r[n + 1] == s[n];
      SwapUpdates(View(s[..n]), s[n].id, PeersView(s[n].peers), e.id, PeersView(e.peers));
    }
  }

  lemma {:induction false} AddEntry(s: seq<Storage>, e: Storage)
    requires StoreOk(s) && EntryOk(e) && forall j | 0 <= j < |s| :: s[j].id != e.id
    ensures StoreOk([e] + s) && View([e] + s) == View(s)[e.id := PeersView(e.peers)]
  {
    ViewOfCons(e, s);
    var t := [e] + s;
    assert forall j | 0 < j < |t| :: t[j] == s[j - 1];
    forall x | x in t
      ensures EntryOk(x)
    {
      assert x == e || x in s;
    }
  }

  lemma {:induction false} AppendEntry(s: seq<Storage>, e: Storage)
    requires StoreOk(s) && EntryOk(e) && forall j | 0 <= j < |s| :: s[j].id != e.id
    ensures StoreOk(s + [e]) && View(s + [e]) == View(s)[e.id := PeersView(e.peers)]
  {
    var t := s + [e];
    assert t[..|t| - 1] == s && t[|t| - 1] == e;
    forall x | x in t
      ensures EntryOk(x)
    {
      assert x == e || x in s;
    }
  }

  // ----- expiry of one list -----

  ghost predicate OnlyFresh(ps: seq<Peer>, qs: seq<Peer>, now: int)
  {
    forall p :: multiset(qs)[p] == if p.time < now - PEER_LIFETIME then 0 else multiset(ps)[p]
  }

  /** Position `i` overwritten by the last entry, and the last entry dropped. */
  function Dropped(r: seq<Peer>, i: nat): (s: seq<Peer>)
    requires i < |r|
    ensures |s| == |r| - 1
  {
    if i != |r| - 1 then r[i := r[|r| - 1]][..|r| - 1] else r[..|r| - 1]
  }

  lemma {:induction false} DropBySwap(r: seq<Peer>, i: nat)
    requires i < |r|
    ensures multiset(Dropped(r, i)) == multiset(r) - multiset{r[i]}
  {
    var n := |r| - 1;
    if i == n {
      WithoutOne(r[..n], r[n], []);
      assert r == r[..n] + [r[n]] + [] && Dropped(r, i) == r[..n] + [];
    } else {
      SwapParts(r, i);
      WithoutOne(r[..i], r[i], r[i + 1..n] + [r[n]]);
    }
  }

  lemma {:induction false} WithoutOne(a: seq<Peer>, x: Peer, b: seq<Peer>)
    ensures multiset(a + b) == multiset(a + [x] + b) - multiset{x}
  {
  }

  lemma {:induction false} SwapParts(r: seq<Peer>, i: nat)
    requires i < |r| - 1
    ensures var n := |r| - 1;
            var a, b := r[..i], r[i + 1..n];
            r == a + [r[i]] + (b + [r[n]]) && multiset(Dropped(r, i)) == multiset(a + (b + [r[n]]))
  {
    var n := |r| - 1;
    DroppedParts(r, i);
    SwapEnds(r[..i], r[i + 1..n], r[n]);
  }

  lemma {:induction false} DroppedParts(r: seq<Peer>, i: nat)
    requires i < |r| - 1
    ensures var n := |r| - 1; Dropped(r, i) == r[..i] + [r[n]] + r[i + 1..n]
  {
    var n := |r| - 1;
    var s, t := Dropped(r, i), r[..i] + [r[n]] + r[i + 1..n];
    assert |s| == |t| && forall k | 0 <= k < |s| :: s[k] == t[k];
  }

  lemma {:induction false} SwapEnds(a: seq<Peer>, b: seq<Peer>, x: Peer)
    ensures multiset(a + [x] + b) == multiset(a + (b + [x]))
  {
  }

  lemma {:induction false} DropKeepsFront(r: seq<Peer>, i: nat, j: nat)
    requires j < i < |r|
    ensures Dropped(r, i)[j] == r[j]
  {
  }

  /** No fresh peer is lost, and the first `i` are fresh. */
  ghost predicate Expiring(ps: seq<Peer>, r: seq<Peer>, i: nat, now: int)
  {
    && i <= |r| <= |ps|
    && (forall j | 0 <= j < i :: r[j].time >= now - PEER_LIFETIME)
    && (forall p: Peer | p.time >= now - PEER_LIFETIME :: multiset(r)[p] == multiset(ps)[p])
  }

  lemma {:induction false} ExpireStep(ps: seq<Peer>, r: seq<Peer>, i: nat, now: int)
    requires Expiring(ps, r, i, now) && i < |r| && r[i].time < now - PEER_LIFETIME
    ensures Expiring(ps, Dropped(r, i), i, now)
  {
    DropBySwap(r, i);
    var s := Dropped(r, i);
    forall j | 0 <= j < i
      ensures s[j].time >= now - PEER_LIFETIME
    {
      DropKeepsFront(r, i, j);
    }
    forall p: Peer | p.time >= now - PEER_LIFETIME
      ensures multiset(s)[p] == multiset(ps)[p]
    {
      assert (multiset(r) - multiset{r[i]})[p] == multiset(r)[p];
    }
  }

  lemma {:induction false} KeepStep(ps: seq<Peer>, r: seq<Peer>, i: nat, now: int)
    requires Expiring(ps, r, i, now) && i < |r| && r[i].time >= now - PEER_LIFETIME
    ensures Expiring(ps, r, i + 1, now)
  {
  }

  lemma {:induction false} ExpiringEnds(ps: seq<Peer>, r: seq<Peer>, now: int)
    requires Expiring(ps, r, |r|, now)
    ensures OnlyFresh(ps, r, now)
  {
    forall p: Peer | p.time < now - PEER_LIFETIME
      ensures multiset(r)[p] == 0
    {
      assert p in multiset(r) ==> p in r;
    }
  }

  /** The loop that overwrites an expired peer with the last one and looks at that slot again. */
  method ExpirePeers(peers: seq<Peer>, now: int) returns (r: seq<Peer>)
    ensures OnlyFresh(peers, r, now)
    ensures forall p :: multiset(r)[p] == if p.time < now - 1920 then 0 else multiset(peers)[p]
    ensures |r| <= |peers|
  {
    r := peers;
    var i := 0;
    while i < |r|
      invariant 0 <= i && Expiring(peers, r, i, now)
      decreases |r| - i
    {
      if r[i].time < now - 32 * 60 {
        ExpireStep(peers, r, i, now);
        ghost var was := r;
        if i != |r| - 1 {
          r := r[i := r[|r| - 1]];
        }
        r := r[..|r| - 1];
        assert r == Dropped(was, i);
      } else {
        KeepStep(peers, r, i, now);
        i := i + 1;
      }
    }
    ExpiringEnds(peers, r, now);
  }

  lemma {:induction false} InMultiset(ps: seq<Peer>, i: nat)
    requires i < |ps|
    ensures multiset(ps)[ps[i]] >= 1
  {
    assert ps[i] in multiset(ps);
  }

  lemma {:induction false} DistinctOnce(ps: seq<Peer>, p: Peer)
    requires DistinctPeers(ps)
    ensures multiset(ps)[p] <= 1
  {
    if p in ps {
      var i :| 0 <= i < |ps| && ps[i] == p;
      assert ps == ps[..i] + [ps[i]] + ps[i + 1..];
      assert p !in ps[..i] && p !in ps[i + 1..];
    }
  }

  lemma {:induction false} FreshDistinct(ps: seq<Peer>, qs: seq<Peer>, now: int)
    requires DistinctPeers(ps) && OnlyFresh(ps, qs, now)
    ensures DistinctPeers(qs)
  {
    forall i, j | 0 <= i < j < |qs|
      ensures KeyOf(qs[i]) != KeyOf(qs[j])
    {
      InMultiset(qs, i);
      InMultiset(qs, j);
      assert qs[i] in multiset(ps) && qs[j] in multiset(ps);
      var a := IndexOf(ps, qs[i]);
      var b := IndexOf(ps, qs[j]);
      if a == b {
        TwiceInMultiset(qs, i, j);
        DistinctOnce(ps, qs[i]);
      }
    }
  }

  lemma {:induction false} IndexOf(ps: seq<Peer>, p: Peer) returns (i: nat)
    requires p in multiset(ps)
    ensures i < |ps| && ps[i] == p
  {
    assert p in ps;
    i :| i < |ps| && ps[i] == p;
  }

  lemma {:induction false} FreshView(ps: seq<Peer>, qs: seq<Peer>, now: int)
    requires DistinctPeers(ps) && OnlyFresh(ps, qs, now)
    ensures DistinctPeers(qs) && PeersView(qs) == Fresh(PeersView(ps), now)
    ensures qs == [] <==> Fresh(PeersView(ps), now) == map[]
  {
    FreshDistinct(ps, qs, now);
    var m := Fresh(PeersView(ps), now);
    PeersViewFacts(ps);
    forall i | 0 <= i < |qs|
      ensures KeyOf(qs[i]) in m && m[KeyOf(qs[i])] == qs[i].time
    {
      InMultiset(qs, i);
      var j := IndexOf(ps, qs[i]);
    }
    forall k | k in m
      ensures HasPeer(qs, k)
    {
      var j :| 0 <= j < |ps| && KeyOf(ps[j]) == k;
      InMultiset(ps, j);
      var i := IndexOf(qs, ps[j]);
      assert KeyOf(qs[i]) == k;
    }
    PeersViewIs(qs, m);
    if qs != [] {
      assert KeyOf(qs[0]) in m;
    }
  }

  class PeerStore {
    var storage: seq<Storage>
    var numstorage: int

    ghost predicate Valid()
      reads this
    {
      StoreOk(storage) && numstorage == |storage| <= MAX_HASHES
    }

    constructor ()
      ensures Valid() && View(storage) == map[]
    {
      storage, numstorage := [], 0;
    }

    method FindStorage(id: Id) returns (k: Option<nat>)
      ensures k.Some? ==> k.value < |storage| && storage[k.value].id == id
      ensures k.None? ==> forall j | 0 <= j < |storage| :: storage[j].id != id
    {
      var i := 0;
      while i < |storage|
        invariant 0 <= i <= |storage| && forall j | 0 <= j < i :: storage[j].id != id
      {
        SameId(id, storage[i].id);
        if IdCmp(id, storage[i].id) == 0 {
          return Some(i);
        }
        i := i + 1;
      }
      k := None;
    }

    static method FindPeer(peers: seq<Peer>, ip: seq<Byte>, port: nat) returns (i: nat)
      ensures i <= |peers|
      ensures i < |peers| ==> KeyOf(peers[i]) == Endpoint(ip, port)
      ensures i == |peers| ==> forall j | 0 <= j < |peers| :: KeyOf(peers[j]) != Endpoint(ip, port)
    {
      i := 0;
      while i < |peers|
        invariant 0 <= i <= |peers| && forall j | 0 <= j < i :: KeyOf(peers[j]) != Endpoint(ip, port)
      {
        if peers[i].port == port && |peers[i].ip| == |ip| && peers[i].ip == ip {
          return;
        }
        i := i + 1;
      }
    }

    /** An endpoint is refused only when the store, or the list of its hash, is full. */
    ghost predicate Refuses(id: Id, k: Endpoint)
      requires Valid()
      reads this
    {
      if id in View(storage) then k !in View(storage)[id] && |View(storage)[id]| >= MAX_PEERS
      else |View(storage)| >= MAX_HASHES
    }

    /** Records an announce. */
    method StorageStore(id: Id, addr: Address, port: nat, now: int) returns (rc: int)
      requires Valid()
      modifies this
      ensures Valid()
      ensures var k := Endpoint(addr.ip, port);
              View(storage) == if old(Refuses(id, k)) then old(View(storage)) else Announced(old(View(storage)), id, k, now)
      ensures var k, m := Endpoint(addr.ip, port), old(View(storage));
              && (rc == -1 <==> id !in m && |m| >= MAX_HASHES)
              && (rc == 1 <==> !old(Refuses(id, k)) && !(id in m && k in m[id]))
      ensures var k, m := Endpoint(addr.ip, port), old(View(storage));
              if (if id in m then k !in m[id] && |m[id]| >= 2048 else |m| >= 16384) then View(storage) == m
              else Entered(m, View(storage), id, k, now)
    {
      AnnouncedEnters(View(storage), id, Endpoint(addr.ip, port), now);
      ViewSize(storage);
      var st := FindStorage(id);
      if st.None? {
        NotInView(storage, id);
        if numstorage >= MAX_HASHES {
          return -1;
        }
        FirstPeer(id, Peer(now, addr.ip, port));
        rc := 1;
      } else {
        InView(storage, st.value);
        rc := StoreIn(st.value, Peer(now, addr.ip, port));
      }
    }

    /** A new hash starts with room for two peers. */
    method FirstPeer(id: Id, p: Peer)
      requires Valid() && numstorage < MAX_HASHES && forall j | 0 <= j < |storage| :: storage[j].id != id
      modifies this
      ensures Valid() && View(storage) == old(View(storage))[id := map[KeyOf(p) := p.time]]
      ensures storage == [Storage(id, [p], 2)] + old(storage)
    {
      var st := Storage(id, [], 0);
      var n := if st.maxpeers == 0 then 2 else 2 * st.maxpeers;
      st := st.(maxpeers := if n <= MAX_PEERS then n else MAX_PEERS);
      st := st.(peers := st.peers + [p]);
      AppendPeer([], p);
      assert PeersView([]) == map[];
      assert st.peers == [p];
      AddEntry(storage, st);
      storage := [st] + storage;
      numstorage := numstorage + 1;
    }

    /** Refreshes a known peer or appends a new one, doubling the room when it has run out. */
    method StoreIn(e: nat, p: Peer) returns (rc: int)
      requires Valid() && e < |storage|
      modifies this
      ensures Valid() && |storage| == |old(storage)|
      ensures var m, ps := old(View(storage)), PeersView(old(storage)[e].peers);
              if KeyOf(p) !in ps && |old(storage)[e].peers| >= MAX_PEERS then rc == 0 && View(storage) == m
              else && rc == (if KeyOf(p) in ps then 0 else 1)
                   && View(storage) == m[old(storage)[e].id := ps[KeyOf(p) := p.time]]
      ensures rc == 0 ==> storage[e].maxpeers == old(storage)[e].maxpeers
      ensures rc == 1 ==> storage[e].maxpeers == Room(|old(storage)[e].peers|, old(storage)[e].maxpeers)
    {
      var st := storage[e];
      assert EntryOk(st);
      var i := FindPeer(st.peers, p.ip, p.port);
      if i < |st.peers| {
        TouchPeer(st.peers, i, p.time);
        ReplaceEntry(storage, e, st.(peers := st.peers[i := st.peers[i].(time := p.time)]));
        storage := storage[e := st.(peers := st.peers[i := st.peers[i].(time := p.time)])];
        return 0;
      }
      AppendPeer(st.peers, p);
      rc := Append(e, p);
    }

    method Append(e: nat, p: Peer) returns (rc: int)
      requires Valid() && e < |storage| && forall j | 0 <= j < |storage[e].peers| :: KeyOf(storage[e].peers[j]) != KeyOf(p)
      modifies this
      ensures Valid() && |storage| == |old(storage)|
      ensures rc == if |old(storage)[e].peers| >= MAX_PEERS then 0 else 1
      ensures rc == 0 ==> storage == old(storage)
      ensures rc == 1 ==>
                && storage[e].maxpeers == Room(|old(storage)[e].peers|, old(storage)[e].maxpeers)
                && View(storage) == old(View(storage))[old(storage)[e].id := PeersView(old(storage)[e].peers)[KeyOf(p) := p.time]]
    {
      var st := storage[e];
      assert EntryOk(st);
      if |st.peers| >= st.maxpeers {
        if st.maxpeers >= MAX_PEERS {
          return 0;
        }
        var n := if st.maxpeers == 0 then 2 else 2 * st.maxpeers;
        st := st.(maxpeers := if n <= MAX_PEERS then n else MAX_PEERS);
      }
      AppendPeer(st.peers, p);
      st := st.(peers := st.peers + [p]);
      ReplaceEntry(storage, e, st);
      storage := storage[e := st];
      rc := 1;
    }

    /** Room for `max` peers is enough for `n` and one more, or else is doubled, up to 2048. */
    static ghost function Room(n: nat, max: nat): nat { if n < max then max else if max > 1024 then 2048 else 2 * max }

    static lemma {:induction false} InView(s: seq<Storage>, i: nat)
      requires StoreOk(s) && i < |s|
      ensures s[i].id in View(s) && View(s)[s[i].id] == PeersView(s[i].peers)
      ensures |View(s)[s[i].id]| == |s[i].peers|
    {
      ViewFacts(s);
      assert EntryOk(s[i]);
      PeersViewSize(s[i].peers);
    }

    static lemma {:induction false} NotInView(s: seq<Storage>, id: Id)
      requires StoreOk(s) && forall j | 0 <= j < |s| :: s[j].id != id
      ensures id !in View(s)
    {
      ViewFacts(s);
    }

    static lemma {:induction false} PeersViewSize(ps: seq<Peer>)
      requires DistinctPeers(ps)
      ensures |PeersView(ps)| == |ps|
    {
      if ps != [] {
        var t, p := ps[..|ps| - 1], ps[|ps| - 1];
        PeersViewSize(t);
        AppendPeer(t, p);
        assert ps == t + [p];
      }
    }

    static lemma {:induction false} ViewSize(s: seq<Storage>)
      requires StoreOk(s)
      ensures |View(s)| == |s|
    {
      if s != [] {
        var t, n := s[..|s| - 1], |s| - 1;
        assert forall e | e in t :: e in s;
        ViewSize(t);
        NotInView(t, s[n].id);
      }
    }

    // ----- expiry -----

    /** Sweeps the list of hashes, unlinking those left without peers. */
    method ExpireStorage(now: int)
      requires Valid()
      modifies this
      ensures Valid() && View(storage) == Unexpired(old(View(storage)), now)
      ensures Outlived(old(View(storage)), View(storage), now)
    {
      UnexpiredOutlives(View(storage), now);
      ghost var os := storage;
      var i := 0;
      ghost var k := 0;
      assert os[..0] == [];
      while i < |storage|
        invariant numstorage == |storage| <= MAX_HASHES && Sweeping(os, k, storage, i, now)
        decreases |storage| - i
      {
        var st := storage[i];
        assert st == storage[i..][0] == os[k..][0] == os[k];
        var peers := ExpirePeers(st.peers, now);
        SweepStep(os, k, storage, i, peers, now);
        if |peers| == 0 {
          storage := storage[..i] + storage[i + 1..];
          numstorage := numstorage - 1;
          if numstorage < 0 {
            assert false;
          }
        } else {
          storage := storage[i := st.(peers := peers)];
          i := i + 1;
        }
        k := k + 1;
      }
      assert storage[..i] == storage && os[k..] == [] && os[..k] == os;
    }

    /** The first `i` entries are what the first `k` original ones have become; the rest are untouched. */
    static ghost predicate Sweeping(os: seq<Storage>, k: nat, s: seq<Storage>, i: nat, now: int)
    {
      && i <= |s| && k <= |os| && StoreOk(os) && s[i..] == os[k..]
      && StoreOk(s[..i]) && View(s[..i]) == Unexpired(View(os[..k]), now)
    }

    static lemma {:induction false} SweepStep(os: seq<Storage>, k: nat, s: seq<Storage>, i: nat, peers: seq<Peer>, now: int)
      requires Sweeping(os, k, s, i, now) && i < |s| && k < |os| && s[i] == os[k]
      requires OnlyFresh(os[k].peers, peers, now) && |peers| <= |os[k].peers|
      ensures peers == [] ==> Sweeping(os, k + 1, s[..i] + s[i + 1..], i, now)
      ensures peers != [] ==> Sweeping(os, k + 1, s[i := s[i].(peers := peers)], i + 1, now)
    {
      PrefixView(os, k);
      SweepEntry(os, k, s[..i], peers, now);
      assert s[i..][1..] == os[k..][1..];
      if peers == [] {
        var t := s[..i] + s[i + 1..];
        assert t[..i] == s[..i] && t[i..] == os[k + 1..];
      } else {
        var t := s[i := s[i].(peers := peers)];
        assert t[..i + 1] == s[..i] + [os[k].(peers := peers)] && t[i + 1..] == os[k + 1..];
      }
    }

    /** One hash more swept: it stays with its fresh peers, or goes. */
    static lemma {:induction false} SweepEntry(os: seq<Storage>, k: nat, head: seq<Storage>, peers: seq<Peer>, now: int)
      requires StoreOk(os) && k < |os| && StoreOk(os[..k]) && StoreOk(head)
      requires OnlyFresh(os[k].peers, peers, now) && |peers| <= |os[k].peers|
      requires View(head) == Unexpired(View(os[..k]), now)
      ensures StoreOk(os[..k + 1])
      ensures peers == [] ==> View(head) == Unexpired(View(os[..k + 1]), now)
      ensures peers != [] ==> StoreOk(head + [os[k].(peers := peers)])
                              && View(head + [os[k].(peers := peers)]) == Unexpired(View(os[..k + 1]), now)
    {
      var e := os[k];
      assert EntryOk(e);
      FreshView(e.peers, peers, now);
      PrefixView(os, k);
      UnexpiredStep(View(os[..k]), e.id, PeersView(e.peers), now);
      if peers != [] {
        ViewFacts(head);
        AppendEntry(head, e.(peers := peers));
      }
    }

    static lemma {:induction false} PrefixView(os: seq<Storage>, k: nat)
      requires StoreOk(os) && k < |os|
      ensures StoreOk(os[..k]) && StoreOk(os[..k + 1])
      ensures os[k].id !in View(os[..k])
      ensures View(os[..k + 1]) == View(os[..k])[os[k].id := PeersView(os[k].peers)]
    {
      assert forall e | e in os[..k + 1] :: e in os;
      assert forall e | e in os[..k] :: e in os;
      assert os[..k + 1] == os[..k] + [os[k]];
      assert forall j | 0 <= j < k :: os[..k][j].id != os[k].id;
      NotInView(os[..k], os[k].id);
      AppendEntry(os[..k], os[k]);
    }

    static lemma {:induction false} UnexpiredStep(m: map<Id, map<Endpoint, int>>, id: Id, ps: map<Endpoint, int>, now: int)
      requires id !in m
      ensures Fresh(ps, now) == map[] ==> Unexpired(m[id := ps], now) == Unexpired(m, now)
      ensures Fresh(ps, now) != map[] ==> Unexpired(m[id := ps], now) == Unexpired(m, now)[id := Fresh(ps, now)]
    {
    }
  }
}
