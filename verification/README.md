# A verified model of the DHT node, the simultaneous open and the ghost-message ledger

The repository is a peer-to-peer messenger.  This project models its three stateful cores and proves
what they promise each other:

* the Kademlia node of `dht.c`: the routing table that splits its own bucket in place, the XOR-ordered
  bounded lists for replies and searches, the search and announce state machine, the peer store, the
  rotating-secret tokens, the rate limiter, the packet printers and the marker-scanning parser;
* the SYNC / SYNC_ACK / SYNC_CONFIRM handshake of `simultaneous_open.c`, as two endpoints over a network
  that loses, repeats, delays and reorders;
* the ghost-message ledger of `state_manager.c` and the event ring of `event_loop.c`.

`dafny verify dfyconfig.toml` checks everything.

## How it is organised

| files | content |
|---|---|
| `Options`, `Sequences` | missing values, and facts about sequences of any kind |
| `Ids`, `Prefixes` | ids bit by bit, byte order and XOR order, prefix classes as aligned intervals |
| `Tables`, `Redistribution`, `NodeUpdates`, `RoutingTable` | bucket lists, splitting and putting nodes back, learning about nodes, expiry |
| `Closest`, `ClosestNodes` | the k closest of a set, the eight nodes of a reply |
| `SearchLists`, `SearchLaws`, `Searches` | the candidates of a search, what happens to each of them, and the array they are kept in |
| `PeerStore`, `Tokens`, `RateLimiter` | announced peers, write tokens, request limiting |
| `Bytes`, `Messages`, `Packets`, `Printers`, `RoundTrip`, `Replies`, `FindNodes` | the wire format in both directions, and whole replies |
| `Handshake` | one endpoint in place: packets, connect and accept |
| `Network`, `Agreement`, `Restarts`, `Attempts` | two endpoints and a network as a state machine; when their tokens agree; their loops interleaved |
| `EventQueue`, `Ghosts`, `StateManager` | the ring, the ledger over whole runs, the code that maintains it |

Conventions.  An id is twenty bytes and its bits are numbered from the most significant.  A bucket list,
a node list or the list of stored hashes is a `seq` field that methods reassign; the fixed arrays of a
search, of a reply and of the event ring are arrays updated in place.  Time is an argument, random values
are arguments about which nothing is assumed, `dht_hash` is an arbitrary function, whether an address is
blacklisted is an argument, and allocation succeeds.  Every lemma switches automatic induction off, so
each inductive proof is the one written.

The central invariant is `Tables.WellFormed`: the buckets cut the id space into prefix classes (aligned
power-of-two intervals), there are as many buckets as our own bucket has bits of prefix plus one and at
most 158, capacities are `max(8, 128 / 2^d)`, every node sits in its id's bucket, ids are distinct and
never ours, no address is martian and every count is the length of its list.  Each operation of
`RoutingTable` starts and ends in it.

## Results about the code that a reader might not expect

* The parser takes the first occurrence of each marker, so printing and parsing are not inverse on all
  data.  `RoundTrip.ParsesExactly` says when they are: nothing in the packet looks like a kind the parser
  tests for earlier, and each field marker is found where it was written or is followed, where it is found,
  by bytes that happen to read the same.  `RoundTrip.StrayTransaction` gives, for every packet, ids that
  make the parser report another transaction id.
* A packet that fills its buffer to the last byte is sent with a NUL in place of its final `e`
  (`Packets.Fit`), because the closing is written by `snprintf`.  `Printers.ReplyFits` shows replies never
  come near that size.
* Two established endpoints need not hold the same token.  With one attempt each they always do, if and
  only if they do not both connect (or happen to have drawn the same token): `Agreement.AgreementExactly`.
  With a connector and an acceptor that may start over, they always do if and only if neither may
  (`Restarts.RestartsExactly`), and in any one run they do exactly as long as the last SYNC the acceptor
  handled since its own last start was sent in the connector's current attempt
  (`Restarts.TokensAgreeExactly`).  A connector's restart lets the acceptor fall back to the abandoned
  token (`Restarts.ConnectorRestart`).  An acceptor's restart lets a stale confirmation establish it with a
  token the connector has never seen, since the token of a SYNC_CONFIRM is not looked at
  (`Restarts.AcceptorRestart`).
* `dht.c` repairs a storage count that "became negative"; in the model that branch is dead.

## Model

| member | source | states |
|---|---|---|
| `Ids.OrderAtFirstDiff` | dht.c:373-375 | `memcmp` order of two ids is decided by the first bit in which they differ, and is 0 only for equal ids |
| `Ids.XorCmp` | dht.c:408-423 | the loop's sign says which id is closer: the one that agrees with the reference at the first bit where the two differ; 0 only for equal ids |
| `Ids.CloserTotal` | dht.c:408-423 | XOR closeness to a reference is total and asymmetric on distinct ids |
| `Ids.CloserTransitive` | dht.c:408-423 | XOR closeness is transitive |
| `Ids.LowBit` | dht.c:377-388 | the two loops return the position of the last set bit, or -1 for the zero id |
| `Prefixes.SplitBitIsDepth` | dht.c:484-493 | for a range that is a prefix class, one past the larger low bit of its two ends is the length of the prefix |
| `Prefixes.SplitCovers` | dht.c:484-493 | setting that bit cuts a prefix class into its two halves |
| `Prefixes.BucketMiddle` | dht.c:484-493 | fails exactly for single-id ranges; otherwise both sides of the id returned are the prefix classes one bit longer |
| `Prefixes.MiddleIsHalfway` | dht.c:484-493 | as a number, the middle is the start plus exactly half the width |
| `Prefixes.AlignedInterval` | dht.c:425-428 | a prefix class is an interval of width 2^(160-d) whose start is a multiple of the width |
| `Prefixes.BucketRandom` | dht.c:495-510 | for all random bytes the id is in the bucket, and every id of the bucket is produced by some random bytes |
| `Prefixes.NineIdsNeedFourBits` | dht.c:650-691 | nine distinct ids with a common prefix leave at least four free bits |
| `Prefixes.InsideIsCloser` | dht.c:425-428 | any id in the target's bucket is strictly XOR-closer to the target than any id outside it |
| `Tables.Martian4Exactly` | dht.c:348-358 | an IPv4 address is unusable exactly if it has no port or its first byte is 0, 127 or at least 224 |
| `Tables.Martian6Exactly` | dht.c:348-371 | an IPv6 address is unusable exactly if it has no port or is multicast, link-local, unspecified, loopback or mapped IPv4, byte by byte |
| `Tables.GoodUntil` | dht.c:512-518 | a good node stays good exactly until two hours after its reply or fifteen minutes after it was last heard, and through exactly two unanswered pings |
| `Tables.BucketIsInterval` | dht.c:425-428 | in every partitioned bucket list, membership in a bucket is membership in an aligned power-of-two interval, and the split id is its midpoint |
| `Tables.HomeIsUnique` | dht.c:430-441 | walking the list finds a bucket that contains the id, and no other bucket does |
| `Tables.CapacityHalves` | dht.c:618-648 | halving a capacity but not below 8 is the step from max(8, 128/2^d) to max(8, 128/2^(d+1)) |
| `Tables.InitialTable` | dht.c:1454-1467 | the one empty bucket of capacity 128 for the whole space is well formed |
| `Tables.SplitStructure` | dht.c:618-648 | splitting our own bucket keeps partition, capacities and node placement, with one bucket more and our own one bit deeper |
| `Tables.SplitNodes` | dht.c:618-648 | the split itself takes exactly the old bucket's nodes out of the table |
| `Tables.FullOwnBucketIsWide` | dht.c:650-691 | a full bucket holding our id, with distinct ids, has at least four free bits, so it can always be split |
| `Redistribution.PlaceStep` | dht.c:604-616 | putting a waiting node into a bucket with room keeps the redistribution invariant (frame, conservation, structure, freed nodes) |
| `Redistribution.FreeStep` | dht.c:667-676 | freeing a node bound for a full bucket of others keeps the invariant, and happens only when the split bucket's capacity was above 8 |
| `Redistribution.SplitAgainStep` | dht.c:677-688 | when our own bucket is full it is wide enough, and splitting it again keeps the invariant |
| `Redistribution.Finished` | dht.c:650-691 | with nothing waiting, table nodes plus freed nodes are the old table's nodes and ids are distinct |
| `NodeUpdates.FindInNodes` | dht.c:709-727 | the scan finds a node with the id, or there is none |
| `NodeUpdates.FindStale` | dht.c:734-748 | the scan finds the first node with three unanswered pings, the last over 15 s ago, or there is none; also in so many numbers |
| `NodeUpdates.PingDubious` | dht.c:749-766 | the first dubious node not pinged in the last 15 s gets one more ping and the ping time, nothing else changes, and without such a node nothing does; the flag says whether any node is dubious |
| `NodeUpdates.RefreshedMeans` | dht.c:709-727 | field by field, what hearing of a known node makes of its entry: a reply sets address, time and reply time and clears the pings; a query sets address and time; hearsay changes only the address, and only of an entry not heard of for 900 s; after a reply the node is good |
| `NodeUpdates.FreshMeans` | dht.c:784-796 | field by field, a first entry: unpinged, timed only by what the node itself said, and good if that was a reply |
| `NodeUpdates.PingFirstExactly` | dht.c:749-766 | the scan pings the first dubious node that is due, and none if none is |
| `RoutingTable.RoutingTable.constructor` | dht.c:1454-1467 | a new table is well formed and empty |
| `RoutingTable.RoutingTable.FindBucket` | dht.c:430-441 | returns the one bucket that contains the id |
| `RoutingTable.RoutingTable.InsertNode` | dht.c:604-616 | a full bucket is left alone and named; otherwise the node is put in front of the bucket's others and the table keeps its structure |
| `RoutingTable.RoutingTable.SplitBucketHelper` | dht.c:618-648 | fails exactly for other buckets and single ids; otherwise the new bucket list: two empty halves without candidate, with the old time and halved capacity, and the nodes taken out |
| `RoutingTable.RoutingTable.SplitBucket` | dht.c:650-691 | nodes afterwards plus freed nodes are the nodes before; freed nodes were bound for a full bucket without our id; capacity 8 frees none; nothing outside the split bucket changes; at most 158 buckets; the loop ends |
| `RoutingTable.RoutingTable.PutBack` | dht.c:667-688 | one turn of the loop keeps the redistribution invariant and uses up a node or deepens our own bucket |
| `RoutingTable.RoutingTable.NewNode` | dht.c:693-796 | keeps well-formedness; refuses our id, martians and the blacklisted without effect; otherwise, after splits that happen only when our own bucket is full of good nodes, refreshes, takes over the first stale slot, adds in front or declines, with the exact new state; field by field what the entry says for hearsay, query and reply, known or new, and that it is good after a reply; the bucket's time and candidate; every other node is kept unless stale or overflowed by a split |
| `RoutingTable.RoutingTable.NoPlace` | dht.c:749-781 | a full bucket is split exactly if it is ours and has no dubious node; else one dubious node is pinged and the address kept as candidate if confirmed or there was none |
| `RoutingTable.RoutingTable.Pinged` | dht.c:535-553 | the exact new table: the named node has one more ping and the ping time, its bucket lets go of its candidate from three pings on, nothing else changes; an unknown id changes nothing |
| `RoutingTable.RoutingTable.Blacklist` | dht.c:555-565 | the exact new table: the named node gets four pings, so that the next expiry removes it, and its bucket lets go of its candidate; nothing else changes |
| `RoutingTable.KeptExactly` | dht.c:798-826 | expiry of a list keeps each node with fewer than four pings as often as it was there, and no other |
| `RoutingTable.RoutingTable.ExpireNodes` | dht.c:798-819 | the two unlinking loops leave the kept nodes in order, count what they removed and notice any change |
| `RoutingTable.RoutingTable.ExpireBuckets` | dht.c:798-826 | the whole table loses exactly the nodes with four pings or more and stays well formed; a bucket lets go of its candidate exactly if it lost a node |
| `Closest.OfferKeeps` | dht.c:838-884 | offering an id to the k closest of a set gives the k closest of the set with that id |
| `Closest.KClosestUnique` | dht.c:838-884 | the k closest of a set are listed in one way only |
| `Closest.OfferOrderIrrelevant` | dht.c:2162-2209 | the same offers in any order, repeated or not, give the same list |
| `Closest.NearPartSuffices` | dht.c:2211-2250 | if a part of the set fills the list and is closer than the rest, the list is the k closest of the whole set |
| `ClosestNodes.InsertClosestNode` | dht.c:2162-2198 | the in-place insertion into at most eight contacts is the specified offer |
| `ClosestNodes.BufferClosestNodes` | dht.c:2200-2209 | offering a bucket leaves the eight closest of what was offered and that bucket's good nodes |
| `ClosestNodes.HomeIsNearest` | dht.c:2211-2250 | a good node of the target's bucket is closer to the target than any good node elsewhere |
| `ClosestNodes.ClosestNodes` | dht.c:2211-2250 | the list is the eight closest good nodes of the home, next and previous buckets, and of the whole table once the home bucket has eight good ones |
| `SearchLists.SearchHoldsClosest` | dht.c:838-884 | after any run of insertions a search holds exactly the 14 closest distinct ids offered, in order |
| `SearchLists.SearchOrderIrrelevant` | dht.c:838-884 | whatever the order and repetition of the insertions |
| `SearchLists.FlushRemoves` | dht.c:886-891 | flushing a position removes that id altogether and nothing else |
| `SearchLists.FlushSorted` | dht.c:886-891 | flushing keeps the order |
| `SearchLists.FirstLiveExactly` | dht.c:955-968 | the scan over the ordered list sees a candidate exactly if it is live and fewer than k live candidates are closer to the target |
| `SearchLists.DoneExactly` | dht.c:955-1023 | a step marks the search done if and only if every candidate that is live, with fewer than eight live ones closer, has replied and, for an announce, is acknowledged or has no token |
| `SearchLists.DoneMeansAcked` | dht.c:972-1000 | when an announcing search ends, every live candidate with fewer than eight live ones closer is acknowledged |
| `SearchLists.SilentStep` | dht.c:918-1023 | a step over 10 s after the last ends the search or lowers the sum of (3 - pinged) over live candidates, and keeps request times at most the step time |
| `SearchLists.SilentSearchEnds` | dht.c:918-1023 | with nobody answering, a search is done after one step more than its budget |
| `SearchLists.FortyTwoSteps` | dht.c:918-1023 | at most 42 such steps precede the end |
| `SearchLaws.OfferNewsMeans` | dht.c:838-884 | field by field, what news makes of a candidate, known or new (address; on a reply replied, reply time, request time 0, no pings; a token shorter than 40 bytes; acknowledgement kept); no other candidate changes, and only the farthest of 14 may go |
| `SearchLaws.RepliesEndSearch` | dht.c:869-874 | over any run: once each of the eight closest live candidates has replied, in any order and with any other replies among them, the next step of a search that does not announce is done |
| `SearchLaws.AnnouncedExactly` | dht.c:973-998 | a candidate is announced to exactly if fewer than k live ones are closer: without a token it counts as acknowledged, acknowledged it is left alone, otherwise it gets a ping and the request time |
| `SearchLaws.QueriedExactly` | dht.c:1007-1012 | a candidate is queried exactly if it is due and fewer than k due ones are closer, and then gets a ping and the request time |
| `SearchLaws.AskedNotDue` | dht.c:918-941 | a candidate that was queried is not due again for ten seconds |
| `SearchLaws.TooSoon` | dht.c:1005-1006 | while answers are missing, a step within 10 s of the last one leaves the search as it is |
| `SearchLaws.StepExactly` | dht.c:955-1023 | one step, candidate by candidate: nothing at all within 10 s of the last step while answers are missing; queries to the four closest due candidates after that; announcements once all eight have answered; and exactly when it is done |
| `SearchLaws.UnaskedIncomplete` | dht.c:955-1023 | a search of unasked candidates is complete only if it has none |
| `SearchLaws.WithoutExactly` | dht.c:886-891 | dropping an id drops every candidate with that id and no other |
| `Searches.ReusedExactly` | dht.c:1099-1114 | what is kept for a repeated search is every candidate with fewer than three pings that replied within two hours, with id, address and times as they were and no ping, token, reply or acknowledgement |
| `Searches.Search.constructor` | dht.c:1116-1128 | a new search is empty, not done and well formed |
| `Searches.Search.InsertSearchNode` | dht.c:838-884 | the array becomes the specified offer for a node of its family, is untouched for another family, and the result tells whether and where the id is held; the entry there, field by field, for known and new candidates; no other candidate changes |
| `Searches.Search.FlushSearchNode` | dht.c:886-891 | the gap is closed: the list without that id, still in order |
| `Searches.Search.FlushId` | dht.c:566-573 | the flushing loop leaves the list without the id, although it skips the slot it has just refilled |
| `Searches.FlushEverywhere` | dht.c:566-573 | blacklisting removes the id from every search and nothing else from any |
| `Searches.Search.SendGetPeers` | dht.c:918-941 | a candidate is queried exactly if it has fewer than three pings, has not replied and was last asked over 10 s ago; it then has one more ping and the time |
| `Searches.Search.SendGetPeersToAny` | dht.c:918-941 | without a named candidate, the last one in the list that is due is queried, and none is due if nothing was sent |
| `Searches.Search.AnnouncePass` | dht.c:973-998 | announces to the unacknowledged among the eight closest live candidates and tells whether all were settled |
| `Searches.Search.QueryPass` | dht.c:1007-1012 | queries the first four candidates that are due |
| `Searches.Search.SearchStep` | dht.c:955-1023 | the whole new state of a search after a step, candidate by candidate; nothing changes within 10 s of the last step while answers are missing; it is then done if and only if the eight closest live candidates had replied and, for an announce, were settled, and all eight are then acknowledged |
| `Searches.Search.Restart` | dht.c:1099-1114 | a repeated search keeps exactly the candidates with fewer than three pings that replied within two hours, in order, none of them pinged, replied, acknowledged or with a token |
| `Searches.Search.InsertSearchBucket` | dht.c:1050-1058 | offering a bucket leaves the 14 closest of what was offered and the bucket |
| `Searches.Search.Fill` | dht.c:1129-1138 | a new or repeated search then holds the 14 closest of what it had and exactly what was offered: the target's bucket, the two next to it unless that made 14, our own unless those made 14; with 14 nodes in the target's bucket, the 14 closest of what it had and the whole table; candidates it had keep all but their address |
| `Searches.Search.Begin` | dht.c:1092-1139 | a search started or started over: what is kept, filled from the table, none of it asked yet, with the new port, and one step taken; it is done at once exactly if it has no candidate |
| `Searches.HomeFillsSearch` | dht.c:1129-1138 | a target's bucket with 14 nodes makes the rest of the table irrelevant |
| `PeerStore.ExpirePeers` | dht.c:1217-1229 | overwriting expired peers with the last one keeps exactly the peers not older than 32 minutes |
| `PeerStore.PeerStore.StorageStore` | dht.c:1158-1215 | the store as a map from hashes to endpoints with times: the endpoint's time is set and nothing else changes, or the announce is refused exactly at 16384 hashes or 2048 peers; hashes and peers stay distinct, no entry is empty, the number of peers stays within the room allocated; return codes |
| `PeerStore.PeerStore.StoreIn` | dht.c:1185-1215 | refresh, refuse at 2048, or append after doubling the room, up to 2048 |
| `PeerStore.PeerStore.ExpireStorage` | dht.c:1217-1252 | the map keeps exactly the endpoints announced in the last 1920 s, with their times, and the hashes that have any; the count equals the list length throughout, so the repair branch is dead |
| `Tokens.SecretSurvives` | dht.c:1254-1266 | over any schedule of calls, a secret stays current or previous for 900 s after a call that used it |
| `Tokens.TokenHonoured` | dht.c:1290-1302 | a token handed out at t is accepted from that address by every call before t + 900 s |
| `Tokens.TokenLifetime` | dht.c:1254-1302 | with fresh secrets and a hash that separates them, a token is accepted if and only if at most one rotation has happened since |
| `Tokens.TokenExpires` | dht.c:1254-1302 | over any schedule, with fresh secrets and such a hash, a token is refused after two calls that each come 2699 s or more after what was before them |
| `Tokens.TokenServer.TokenMatch` | dht.c:1290-1302 | accepts exactly the tokens of the current and the previous secret, and no other length |
| `Tokens.TokenServer.RotateSecrets` | dht.c:1254-1266 | the old secret becomes the previous one, the new one current, and the next rotation is 900 to 2699 s away |
| `Tokens.TokenServer.EndOfCall` | dht.c:1872-1873 | a periodic call rotates exactly when the time has come, after its packet is handled |
| `RateLimiter.RejectedExactly` | dht.c:1543-1553 | a request is turned away exactly when the bucket is empty and was last refilled within the current second |
| `RateLimiter.BurstExactly` | dht.c:1543-1553 | of n requests at one moment exactly the smaller of n and (tokens left + the smaller of 400 and 100 per second since the last refill) are admitted |
| `RateLimiter.AdmittedSinceStart` | dht.c:1543-1553 | over any run, at most 400 + 100 per elapsed second |
| `RateLimiter.AdmittedInWindow` | dht.c:1543-1553 | in any window of any run, at most 800 + 100 per second of the window |
| `RateLimiter.RequestLimiter.TokenBucket` | dht.c:1543-1553 | takes a token if there is one; refills an empty bucket with the smaller of 400 and 100 per second since the last refill, and takes one; turns away if that is none |
| `Bytes.MemMem` | dht.c:94-108 | the search loop returns the first occurrence, or none if there is none |
| `Bytes.StrtolDec` | dht.c:2344-2478 | scanning a printed decimal followed by a non-digit returns the number and where it ended |
| `Bytes.StrtolSigned` | dht.c:2344-2478 | white space and a sign before the digits are accepted, and a minus makes the number negative |
| `Bytes.DecIsDecimal` | dht.c:2048-2160 | numbers are printed in decimal notation, most significant digit first |
| `Messages.FieldsFit` | dht.c:2344-2478 | whatever the packet, every field read is within its capacity, and value lists are whole multiples of 6 and 18 bytes |
| `Messages.ReadValues` | dht.c:2428-2460 | the loop ends for every packet and collects the 6- and 18-byte values that fit, in order, or reports an overrun |
| `Messages.ReadWant` | dht.c:2461-2478 | the loop ends for every packet and collects the flags |
| `Messages.ParseMessage` | dht.c:2344-2498 | the result code and, unless it is negative, every field |
| `Packets.Print` | dht.c:2011-2023 | piece by piece into a bounded buffer: the whole text, or nothing if it does not fit, or its last byte a NUL if it fits exactly |
| `Printers.Framed` | dht.c:2048-2160 | the text of a packet is the printers' literal opening, its fields, and their literal closing |
| `Printers.SendPing` | dht.c:2048-2063 | prints the text of a ping |
| `Printers.SendPong` | dht.c:2065-2079 | prints the text of a pong |
| `Printers.SendFindNode` | dht.c:2081-2105 | prints the text of a find_node query |
| `Printers.SendGetPeers` | dht.c:2252-2276 | prints the text of a get_peers query |
| `Printers.SendAnnouncePeer` | dht.c:2278-2301 | prints the text of an announce_peer query |
| `Printers.SendNodesPeers` | dht.c:2107-2160 | prints the text of a reply with nodes, token and values |
| `Printers.ReplyFits` | dht.c:2107-2160 | a reply of 8 + 8 nodes, an 8-byte token, a transaction id of up to 15 bytes and up to 50 values is shorter than its 2048-byte buffer |
| `RoundTrip.KindOfParts` | dht.c:2480-2494 | the kind of a printed packet is recognised if and only if nothing in it looks like a reply, an error or a kind tested for earlier |
| `RoundTrip.ErrorExactly` | dht.c:2480-2483 | any packet is taken for an error exactly if it holds the error marker, not the reply marker, and no field overruns it |
| `RoundTrip.TurnedAwayExactly` | dht.c:2480-2498 | any packet is turned away exactly if a field overruns it or it is neither a reply nor an error nor a query of a known kind |
| `RoundTrip.ImpliedPortBack` | dht.c:2382-2389 | an implied port is read back from wherever it first stands, and is 0 if it does not fit sixteen bits |
| `RoundTrip.CountedExactly` | dht.c:2353-2427 | a printed length-prefixed field is read back if and only if its marker is found in its place or what follows it elsewhere reads the same |
| `RoundTrip.ParsesExactly` | dht.c:2344-2498 | parsing a printed packet gives back kind, tid, id, target, info_hash, port, token, nodes, want flags and values, if and only if its kind is recognised and every field marker is found in its place or is harmless where it is found |
| `RoundTrip.ParsePrinted` | dht.c:2344-2498 | in particular a packet whose data hold no marker ahead of its place is read back |
| `RoundTrip.StrayTransaction` | dht.c:2353-2363 | an id that starts with a complete transaction field replaces the packet's transaction id, so the packet is not read back |
| `Replies.WalkRing` | dht.c:2132-2150 | the walk from any position yields the first fifty peers of the family, counted around the ring, as address and port |
| `Replies.ChosenCounts` | dht.c:2132-2150 | each peer is sent at most as often as it is stored, only of the right family, and all of them when there are at most 50 |
| `Replies.ValuesDistinct` | dht.c:2132-2150 | with distinct stored peers no two values sent are equal |
| `Replies.SendReply` | dht.c:2107-2160 | whatever is stored and wherever the walk starts, the reply is printed whole and the failure exit is not taken |
| `Replies.ReplyReadBack` | dht.c:2107-2160 | an unspoilt reply parses to exactly its nodes, token, transaction id and chosen peers |
| `FindNodes.EntriesBack` | dht.c:2162-2198 | contacts written as 26- or 38-byte entries and cut apart again are the same contacts |
| `FindNodes.EntryBytes` | dht.c:2185-2194 | an entry is the id, the address and the port with its high byte first, byte by byte |
| `FindNodes.ValueBack` | dht.c:2139-2144 | a value is the peer's address followed by its port with the high byte first, and can be taken apart again |
| `FindNodes.ExceptExactly` | dht.c:1721-1746 | each listed contact is handed on as often as it is listed, except ourselves |
| `FindNodes.ReadNodes` | dht.c:1705-1748 | the receiver's loop yields the listed contacts except ourselves, and refuses a list that is not made of whole entries |
| `FindNodes.SendClosestNodes` | dht.c:2211-2250 | IPv4 nodes are listed exactly if asked for, or if nothing is asked for and the query came over IPv4, and IPv6 nodes likewise; each list is the closest good nodes of its table, empty without a table; they are sent as entries, whole |
| `FindNodes.AnswerReadBack` | dht.c:2211-2250 | an unspoilt answer, parsed and cut into entries, gives exactly the contacts of both lists in order |
| `Handshake.Endpoint.ProcessPacket` | simultaneous_open.c:168-233 | the new session, the replies and the return code for every packet, kind by kind: a packet that is short or has the wrong magic or version returns -1 without effect; SYNC adopts the token, is acknowledged and establishes a syncing session; SYNC_ACK of the session's token is confirmed and establishes it; SYNC_CONFIRM establishes a syncing session; CLOSE makes it idle; anything else changes and sends nothing |
| `Handshake.ProcessHandles` | simultaneous_open.c:168-233 | the same for the specification the two-endpoint system is built on |
| `Handshake.Endpoint.Send` | simultaneous_open.c:412-423 | data are sent, under the session's token, exactly over an established open connection |
| `Handshake.Endpoint.Close` | simultaneous_open.c:467-479 | a CLOSE is sent if the socket is open; the session is then idle and closed |
| `Handshake.Endpoint.WaitForSync` | simultaneous_open.c:235-275 | one wait: nothing, a short packet or a processed one |
| `Handshake.Endpoint.Run` | simultaneous_open.c:277-380 | a connect or an accept: the session, the result and everything sent over five waits; it succeeds exactly if some wait brings a SYNC or SYNC_CONFIRM before any CLOSE, or a SYNC_ACK of the token held by then; unanswered, a connect sends five SYNCs, an accept nothing, and both fail |
| `Handshake.AttemptOutcome` | simultaneous_open.c:277-380 | an attempt returns success exactly when it leaves the session established, and otherwise leaves it idle and closed |
| `Handshake.SucceedsExactly` | simultaneous_open.c:277-380 | an attempt succeeds if and only if one of its waits brings a SYNC or a SYNC_CONFIRM with no CLOSE before it, or a SYNC_ACK of the token of the last SYNC before it (its own if there was none) |
| `Handshake.UnansweredAttempt` | simultaneous_open.c:303-328 | left alone, an attempt repeats its SYNC before every wait but the first if it connects, and ends idle and closed |
| `Network.ClosedUntilReopened` | simultaneous_open.c:222-225 | in every run, an endpoint to which a CLOSE was delivered stays idle until it starts again or handles a SYNC_ACK of its token |
| `Network.HangupCloses` | simultaneous_open.c:467-479 | hanging up sends a CLOSE whose delivery leaves both sides idle |
| `Agreement.StepSafe` | simultaneous_open.c:168-233 | every step of a connector and an acceptor, up to a second start, keeps the safety invariant |
| `Agreement.TokensAgree` | simultaneous_open.c:168-380 | with one attempt each, over any loss, repetition or reordering, an established acceptor holds the connector's token, and an established connector means the acceptor has adopted it and said so |
| `Agreement.HandshakeCompletes` | simultaneous_open.c:168-380 | whatever the tokens there is a run that establishes both sides |
| `Agreement.TokensCanCross` | simultaneous_open.c:186-204 | two connectors with different tokens can both be established, each with the other's |
| `Agreement.AgreementExactly` | simultaneous_open.c:168-380 | for any roles and tokens, with one attempt each: two established endpoints always agree if and only if not both connect or the tokens are the same |
| `Restarts.EveryRunHas` | simultaneous_open.c:168-380 | after any run with any number of restarts: the acceptor's token is that of the last SYNC it handled since its last start, or its own; packets bear the token of the attempt they were sent in; acknowledgements answer a SYNC; an established connector's current token has been acknowledged |
| `Restarts.TokensAgreeExactly` | simultaneous_open.c:168-380 | after any run with fresh tokens, the tokens agree if and only if the last SYNC the acceptor handled since its last start was sent in the connector's current attempt |
| `Restarts.ConnectedMeansHeard` | simultaneous_open.c:199-205 | after any run, an established connector's current token has been acknowledged, and the acceptor did handle a SYNC of that attempt |
| `Restarts.ConnectorRestart` | simultaneous_open.c:277-329 | a connector that starts over can be established while the acceptor has fallen back to the abandoned token |
| `Restarts.AcceptorRestart` | simultaneous_open.c:206-212 | an acceptor that starts over can be established by a stale confirmation, with a token of its own |
| `Restarts.RestartsExactly` | simultaneous_open.c:277-380 | for any bounds on the attempts: two established endpoints always agree if and only if both bounds are one |
| `Attempts.InterleavingIsRun` | simultaneous_open.c:277-380 | the turns of both endpoints' connect and accept loops, interleaved in any order, with waits that bring nothing or anything on the wire by then, and any other use outside the loops, make a run of the two-endpoint system |
| `Attempts.LoopsFollowCode` | simultaneous_open.c:277-380 | in every interleaving each loop has sent, and returns, exactly what the code does with the waits it had |
| `Attempts.AttemptsAgree` | simultaneous_open.c:277-380 | in every interleaving of one connect and one accept, whichever returns success is established with the connector's token, and after a successful connect the acceptor has adopted it |
| `Attempts.ConnectCanSucceed` | simultaneous_open.c:277-380 | there is such an interleaving in which both return success |
| `EventQueue.EventQueue.Push` | event_loop.c:47-66 | appends to the queue of at most 1024, or refuses when full |
| `EventQueue.EventQueue.Pop` | event_loop.c:68-104 | takes the oldest event, or reports an empty queue |
| `Ghosts.NormalizeId` | state_manager.c:65-77 | the copying loop yields a prefix of the input without its angle brackets: all of it, or 63 characters |
| `Ghosts.NormPlain` | state_manager.c:65-87 | normalised ids hold no brackets and normalising is idempotent |
| `Ghosts.StrippedCounts` | state_manager.c:65-77 | brackets are dropped and every other character occurs as often as before |
| `Ghosts.BracketIgnored` | state_manager.c:65-77 | a bracket anywhere in an id makes no difference |
| `Ghosts.NormBracketed` | state_manager.c:65-87 | an id and the same id in angle brackets are one |
| `Ghosts.NormIsPrefix` | state_manager.c:65-77 | the normal form is the first 63 characters of what is left without brackets, or all of it |
| `Ghosts.MarkedUndelivered` | state_manager.c:649-689 | a delivery leaves nothing waiting for that id and does not touch the others |
| `Ghosts.MarkedEvents` | state_manager.c:649-689 | each newly delivered message has exactly one announcement |
| `Ghosts.MarkedExactly` | state_manager.c:649-689 | a delivery marks what is addressed to the id and changes nothing else of any message |
| `Ghosts.AnnouncedInOrder` | state_manager.c:649-689 | the announcement of a waiting message bears the id and its text, and comes after those of the messages before it |
| `Ghosts.EnqueuedExactly` | event_loop.c:47-66 | events are queued in order until 1024 are queued, and the rest are lost |
| `Ghosts.UndeliveredExactly` | state_manager.c:691-710 | the number waiting is the number of positions with an undelivered message for the id |
| `Ghosts.RemovePeerGood` | state_manager.c:328-351 | removing a peer keeps the invariant and leaves no peer with that id |
| `Ghosts.ApplyGood` | state_manager.c:257-710 | every operation keeps the invariant of `EveryRunGood` |
| `Ghosts.EveryRunGood` | state_manager.c:257-710 | from an empty start, after any run: accepted = reported delivered + waiting for every id; every ghost event queued or popped stands for its own delivered message; peers unique up to normalisation; cached counts between 0 and what is waiting |
| `StateManager.StateManager.StateAddPeer` | state_manager.c:257-298 | appends the normalised id if it is not empty, not known and there are fewer than 256 peers, and otherwise changes nothing; success exactly if the peer is then known |
| `StateManager.StateManager.StateRemovePeer` | state_manager.c:328-351 | removes the first peer with the id by shifting those after it, or reports that there is none |
| `StateManager.StateManager.StateAddGhostMessage` | state_manager.c:589-626 | stores the message and raises the count of the peer with that id by one and of no other, or refuses |
| `StateManager.StateManager.StateDeliverGhostMessages` | state_manager.c:649-689 | marks everything waiting for the id and nothing else, pushes one event each, sets the peer's count to zero and leaves the others, and returns how many |
| `StateManager.StateManager.StateGetGhostCount` | state_manager.c:691-710 | counts what is waiting for the id |

## Left out

- Sockets, threads, select loops, DNS, timers, TURN, UPnP, port prediction, encryption and identities: input and output, or code that lives in libraries.
- The blacklist ring of `dht.c` and `dht_blacklisted`: whether an address is blacklisted is an argument of `NewNode`; the ring is a lookup with no invariant of its own.
- `add_search_node`: `NewNode` returns in `notify` that running searches are to be offered the node; the offer itself is `InsertSearchNode`.
- A search step or a query also counts a ping for the same node in the routing table: in the model that is a separate call of `Pinged`.
- The second, IPv6 table is a second object of the same class, with its family as a parameter.
- `bucket_maintenance`, `neighbourhood_maintenance`, `expire_searches`, `new_search`, `dht_get_nodes`, the growth times and the rest of the dispatch in `dht_periodic`: scheduling around the modelled operations.
- `send_error` and the test that a packet is NUL terminated: an error packet carries no state, and a packet is modelled as the bytes before its terminator.
- Linked lists of buckets, nodes, peers and stored hashes are sequences: pointer aliasing and freeing of memory are not captured.
- Overflow of C integers in times and counters, and failing allocations.
- `Bytes.StrtolDec`: numbers are unbounded, so the saturation of `strtol` at the largest long is not modelled; a saturated length is too long for every field either way.
- `Agreement.TokensAgree`: one attempt per endpoint; what holds with restarts is `Restarts.TokensAgreeExactly`.
- `last_activity`, `start_time` and packet timestamps of the handshake: set and never read by it; attempt numbers stand in for the last two.
- A delivery of ghost messages is one step of a run: pops that another thread makes between its pushes are not interleaved with it.
- Peer states, names, keys, plain messages, `state_save` and `state_load`: a saved state is not read back as it was written (state_manager.c:141-142, 207-212), so runs start empty.
