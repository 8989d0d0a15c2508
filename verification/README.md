# A verified model of go-devp2p

This Dafny project models the protocol core of the `go-devp2p` networking
library and proves what that core promises. Seven areas are covered.

- **Kademlia routing table** (`XorMetric`, `Buckets`, `Layers`, `Table`,
  `Recency`, `Nearest`, `DistanceSort`, `RoutingTable`). The lazily unfolded
  bucket list refines a plain capacity-bounded set of peers per common-prefix
  length, over every run of updates and removals; the calls determine the
  buckets and their order, most recently seen first. The one-to-three-bucket search is the exact
  nearest-peer query if and only if a condition on bucket sizes and one bit of
  the target holds.
- **RLPx framing** (`Framing`, `FrameRuns`, `HalfConn`). The bytes of a frame
  are those of RLP and the RLPx specification. Writer and reader stay
  in step in keystream position and MAC history over whole runs of frames; every
  message with a code below 0x80 is recovered exactly, and a write that fails on
  the way only leaves the reader waiting.
- **RLPx multiplexing** (`Multiplex`, `Negotiation`, `Streams`, `EndToEnd`,
  `Wakeup`). Code ranges, routing, exactly when two ends compute the same stream
  table, the byte queues of the streams, and in-order delivery end to end in
  every interleaving of writers, wire, receive loop and readers. No reader sleeps
  through data.
- **Session shutdown** (`Shutdown`), for any number of threads.
- **discv4** (`Lookup`, `PeerIndex`, `Bonding`). The lookup work list finds
  exactly the reachable nodes, the table and the node map never disagree for a
  reader, and exactly the nodes bonded within 24 hours are answered.
- **Fork identifiers** (`ForkId`). The checksums are the fork hashes of EIP-2124,
  and comparing them decides exactly its validation rules.
- **Periodic jobs** (`HeapOrder`, `PeriodicHeap`, `Schedule`, `Dispatcher`,
  `Launching`) and **DNS discovery** (`DnsTree`, `DnsDisc`).

`Basics` holds the options, bytes, list facts and sorting steps that these share.

Objects that the library updates in place are classes whose methods are proved
against specification functions; concurrent code is a state machine over the
steps between lock operations, with invariants proved for every run. Libraries
that are not part of the repository are parameters: the peer hash, the AES
keystream and block cipher, the Keccak state, snappy, CRC-32, the DNS resolver
and the entry parsers. What is assumed of them is written in
`Table.Config.Valid`, `Framing.Crypto.Valid`, `ForkId.Crc.Valid` and
`ForkId.NoCollision`.

`dafny verify dfyconfig.toml` checks the whole project with Dafny 4.11. It is a
model: none of the library's code is executed.

## Where code and documentation differ

The model follows the code in each of these cases.

- `NearestPeers` is documented as returning the closest peers, but when the
  chosen bucket is short it looks only at the two adjacent buckets.
  `Nearest.NearestExactIff` gives the exact condition, and
  `Nearest.NearestCanBeWrong` a two-peer table where the single nearest peer is
  missed.
- Capabilities have an order by name and version (`rlpx/common.go:137-157`), as
  the RLPx transport specification asks for under "Capability Messaging", but
  nothing applies it: each end lays out the shared protocols in the order the
  other end announced. `Negotiation.TablesAgreeIff` says exactly when the two
  tables are the same, `Negotiation.MessagesCanBeMisrouted` gives two ends whose
  messages reach the wrong stream, and `Negotiation.SortedEndsAgree` shows that
  announcing in a fixed order would leave only the lengths to agree on.
- `MoveToFront` scans on from the new front, so its loop runs forever on a list
  that holds an identifier twice. `Buckets.MoveToFrontHaltsIff` shows that this
  is the only case; the table never contains one.
- The lookup's seeding loop is commented as starting up to the maximum number of
  queries. Its bound is recomputed from the shrinking queue, so it starts at most
  half (rounded up) of a short queue (`Lookup.Seed`).
- The dispatcher's `Add` is commented as adding or updating. A duplicate replaces
  the tracked job and then fails, and the planned launch keeps the old job.
- `cleanForks` extends an empty slice by the first element of its spare capacity,
  so it returns a fork that was never given unless that element is zero
  (`ForkId.CleanForks`).
- A dispatch uses what the loop saw when it looked. A job removed in between is
  launched all the same, and one added again meanwhile is put off its schedule
  (`Launching.StaleDispatch`).
- A fork identifier's `Next` is commented as zero when no fork is known. The code
  reports the largest 64-bit value.
- The frame header is commented as a zero header. Bytes 6 to 15 are whatever the
  previous encrypted header left in the buffer.
- The reader accepts message codes below 0x80 only, while the writer encodes any
  code (`Framing.CodeRoundTrip`). A session can therefore break on a message that
  was written without error, exactly if the base and shared protocols together
  have more than 0x80 codes (`EndToEnd.RlpxCrashIff`).
- `LookupTarget` fails when a discovered node is not (yet) a known peer.

## Model

| member | source | states |
|---|---|---|
| XorMetric.CplSpec | discovery/kademlia/util.go:23-25 | the reference common-prefix length: all bits before it agree and the bit at it differs |
| XorMetric.CplUnique | discovery/kademlia/util.go:23-25 | no other length has that property |
| XorMetric.XorBytes | discovery/kademlia/util.go:27-33 | the loop computes the bytewise XOR |
| XorMetric.ZeroPrefixLen | discovery/kademlia/util.go:35-42 | the byte scan finds the number of leading zero bits: every earlier bit is zero, the next one is set |
| XorMetric.CommonPrefixLen | discovery/kademlia/util.go:23-25 | XOR and leading-zero count give the bitwise common-prefix length |
| XorMetric.LessTotal | discovery/kademlia/util.go:19-21 | the byte order is total, asymmetric and irreflexive |
| XorMetric.LessTransitive | discovery/kademlia/util.go:19-21 | the byte order is transitive |
| XorMetric.LessByBit | discovery/kademlia/util.go:19-21 | byte order of equally long strings is decided by the first differing bit, in both directions |
| XorMetric.NearerByBit | discovery/kademlia/sorting.go:24-26 | one peer is strictly nearer than another exactly if it has the target's bit where the two first differ |
| XorMetric.Ultrametric | discovery/kademlia/util.go:23-25 | of the three pairwise common prefixes of three identifiers the two shortest are equal |
| XorMetric.LongerPrefixIsNearer | discovery/kademlia/kademlia.go:182-198 | sharing a longer prefix with the target means being strictly nearer |
| Buckets.Bucket.constructor | discovery/kademlia/bucket.go:14-18 | a new bucket is empty |
| Buckets.Bucket.Peers | discovery/kademlia/bucket.go:20-29 | the identifiers in list order |
| Buckets.Bucket.Has | discovery/kademlia/bucket.go:31-40 | true exactly if the identifier is in the list |
| Buckets.Bucket.Remove | discovery/kademlia/bucket.go:42-52 | drops the first entry of that name and says whether there was one |
| Buckets.Bucket.MoveToFront | discovery/kademlia/bucket.go:54-62 | for an identifier that occurs at most once, the re-scanning loop ends with exactly that entry moved to the front |
| Buckets.MoveToFrontHaltsIff | discovery/kademlia/bucket.go:54-62 | the loop ends if and only if the identifier occurs at most once |
| Buckets.MoveFacts | discovery/kademlia/bucket.go:54-62 | moving permutes the bucket, keeps identifiers unique, puts the peer first and leaves the order of the others alone |
| Buckets.Bucket.PushFront | discovery/kademlia/bucket.go:64-68 | the new entry precedes the old list |
| Buckets.Bucket.Len | discovery/kademlia/bucket.go:78-82 | the list's length |
| Buckets.Bucket.Split | discovery/kademlia/bucket.go:87-108 | removing while iterating leaves the entries of at most the given prefix length and moves the others to a new bucket, both in order |
| Buckets.SelectMembers | discovery/kademlia/bucket.go:87-108 | an entry is in a part exactly if it was in the bucket and its prefix length is on that side |
| Buckets.SelectPartition | discovery/kademlia/bucket.go:87-108 | the two parts together are the old bucket, as multisets |
| Buckets.SelectKeepsOrder | discovery/kademlia/bucket.go:87-108 | each part embeds in the old bucket in increasing positions |
| Table.NonEmptyLastBound | discovery/kademlia/kademlia.go:136-149 | a non-empty last bucket bounds the number of buckets by the hash length, the measure on which unfolding ends |
| Table.SplitLastInv | discovery/kademlia/kademlia.go:136-149 | one split keeps the table invariant |
| Table.UnfoldInv | discovery/kademlia/kademlia.go:136-149 | unfolding keeps the invariant, leaves earlier buckets alone and ends with the last bucket below capacity |
| Table.UnfoldConserves | discovery/kademlia/kademlia.go:136-149 | unfolding conserves the multiset of entries |
| Table.UnfoldKeepsOrder | discovery/kademlia/kademlia.go:136-149 | every bucket made by unfolding keeps the relative order of its entries |
| Table.UpdateInv | discovery/kademlia/kademlia.go:68-114 | an update keeps the invariant: unique identifiers, exact prefix lengths except in the last bucket, capacity, at most 8 * hashLen + 2 buckets |
| Table.RemoveInv | discovery/kademlia/kademlia.go:118-134 | a removal keeps the invariant |
| Table.StoredIffHeld | discovery/kademlia/kademlia.go:68-77 | a peer is in the table exactly if the one bucket responsible for it holds it |
| Table.DedicatedBucket | discovery/kademlia/kademlia.go:88-110 | the responsible bucket holds at least all stored peers of that prefix length, and a non-last bucket exactly those |
| Table.UpdateRefines | discovery/kademlia/kademlia.go:68-114 | an update succeeds exactly if the peer is present or fewer than bucketsize stored peers share its prefix length, adds at most that peer and evicts nobody |
| Table.RemoveRefines | discovery/kademlia/kademlia.go:118-134 | a removal takes out exactly that peer and notifies exactly if it was stored |
| Table.Run | discovery/kademlia/kademlia.go:68-134 | the table after every sequence of calls satisfies the invariant |
| Table.RunRefines | discovery/kademlia/kademlia.go:68-134 | after every run the stored peers are those of the abstract table, and replaying the PeerAdded/PeerRemoved history gives the same set |
| Table.FlattenUnique | discovery/kademlia/kademlia.go:228-236 | no identifier occurs twice anywhere in the table |
| Table.ListingExact | discovery/kademlia/kademlia.go:228-236 | the concatenated buckets name every stored peer exactly once |
| Recency.RunRecent | discovery/kademlia/kademlia.go:68-134 | after every run each bucket lists its peers by their latest accepted Update, most recent first; stated over the list of calls and the plain set-per-prefix-length table |
| Recency.UpdateRecent | discovery/kademlia/kademlia.go:68-114 | an update keeps that order, whether it refreshes, adds, unfolds or rejects |
| Recency.UpdateInFront | discovery/kademlia/kademlia.go:82-112 | an accepted update leaves its peer first in its bucket |
| Recency.UnfoldLeast | discovery/kademlia/kademlia.go:136-149 | unfolding adds just as many buckets as it takes for the last one to be below capacity |
| Recency.RunDepth | discovery/kademlia/kademlia.go:68-149 | the number of buckets after every run: it grows exactly when a new peer finds the last bucket full, also if the peer is then rejected |
| Recency.RunTold | discovery/kademlia/kademlia.go:68-149 | after every run the number of buckets, the members of each and their order are those the calls determine |
| Recency.ToldUnique | discovery/kademlia/kademlia.go:68-149 | only one table is determined by the calls |
| Layers.ThreeRowsIff | discovery/kademlia/kademlia.go:170-214 | for rows ordered around a target, the best list of the rows searched is a best list of all rows if and only if `Enough` holds |
| Nearest.TableIsLayered | discovery/kademlia/kademlia.go:182-198 | around every target the buckets are ordered by distance: the chosen one, those above it, then those below in falling order |
| Nearest.SearchedIsNear | discovery/kademlia/kademlia.go:182-198 | the peers collected are those of the rows searched, without repetition |
| Nearest.SortedHeadAnswers | discovery/kademlia/kademlia.go:200-214 | sorting the peers collected and cutting off after `count` gives the nearest `count` of them, nearest first |
| Nearest.NearestExactIff | discovery/kademlia/kademlia.go:170-214 | for every reachable table, target and count, the answer is the exact nearest-peer list of the whole table if and only if `Sufficient` holds |
| Nearest.ExactWhen | discovery/kademlia/kademlia.go:188-198 | exact when the chosen bucket holds `count` peers, or is one of the last two and either one of the first two or the buckets searched hold `count` |
| Nearest.NearestCanBeWrong | discovery/kademlia/kademlia.go:189-198 | a table constructed for a peer and given two others, where the nearest one is not returned |
| Nearest.FindCorrect | discovery/kademlia/kademlia.go:152-158 | a non-empty identifier is found only if stored, and if stored is found unless another stored peer has the same hash |
| DistanceSort.PeerDistanceSorter.constructor | discovery/kademlia/kademlia.go:182-186 | an empty sorter for a target |
| DistanceSort.PeerDistanceSorter.AppendPeer | discovery/kademlia/sorting.go:29-34 | appends the peer with its XOR distance |
| DistanceSort.PeerDistanceSorter.AppendPeersFromList | discovery/kademlia/sorting.go:37-41 | appends every entry of a bucket with its distance, in order |
| DistanceSort.PeerDistanceSorter.Swap | discovery/kademlia/sorting.go:21-23 | exchanges two elements |
| DistanceSort.PeerDistanceSorter.Sort | discovery/kademlia/sorting.go:43-45 | leaves a permutation in which no later distance is smaller |
| DistanceSort.NamesPermute | discovery/kademlia/sorting.go:43-45 | sorting the pairs permutes the names |
| RoutingTable.RoutingTable.constructor | discovery/kademlia/kademlia.go:45-56 | a new table has one empty bucket |
| RoutingTable.RoutingTable.BucketIndex | discovery/kademlia/kademlia.go:72-77 | the common-prefix length, capped at the last bucket |
| RoutingTable.RoutingTable.Update | discovery/kademlia/kademlia.go:68-114 | after it the table is the one its calls determine (`Recency.Told`): buckets, members and order; it succeeds exactly if the peer is present or its prefix length has room, and then the peer is first in its bucket; PeerAdded is sent exactly if the peer was not stored before; evicts nobody |
| RoutingTable.RoutingTable.NextBucket | discovery/kademlia/kademlia.go:136-149 | the recursion on shared bucket objects ends, computes the unfolded table and adds only fresh buckets |
| RoutingTable.RoutingTable.Remove | discovery/kademlia/kademlia.go:118-134 | removes exactly that peer, leaves the table the calls determine, and sends PeerRemoved exactly if the peer was stored |
| RoutingTable.RoutingTable.Collect | discovery/kademlia/kademlia.go:182-198 | gathers the chosen bucket and, if it is short, the two beside it, with distances |
| RoutingTable.RoutingTable.NearestPeers | discovery/kademlia/kademlia.go:170-214 | returns the nearest `count` of the peers collected, nearest first; exact over the whole table if and only if `Sufficient` |
| RoutingTable.RoutingTable.Find | discovery/kademlia/kademlia.go:152-158 | for a non-empty identifier: returned only if stored, and if stored and not hash-colliding, returned; otherwise the empty string |
| RoutingTable.RoutingTable.Size | discovery/kademlia/kademlia.go:217-225 | the number of stored peers |
| RoutingTable.RoutingTable.ListPeers | discovery/kademlia/kademlia.go:228-236 | the peers bucket by bucket in their order: every stored peer exactly once, which is also what the notification history says |
| Framing.CodeRoundTrip | rlpx/session.go:544-559 | the reader recovers a written code, and what follows it, exactly if the code is below 0x80 |
| Framing.CodeIsRlp | rlpx/session.go:563-564 | for every code, a byte string is its RLP encoding if and only if it is the one written: the shortest big-endian form, empty for 0, a single byte below 0x80 as itself, anything else behind 0x80 plus its length |
| Framing.DecodesIff | rlpx/session.go:544-559 | what the reader makes of every content: the code, an empty frame, a length error or a code too big, each in exactly which case |
| Framing.ContentIs | rlpx/session.go:563-585 | what is framed is the RLP code followed by the payload, compressed exactly with snappy; it fits exactly below 2^24 bytes |
| Framing.FrameLayout | rlpx/session.go:587-661 | a frame byte by byte: 24-bit big-endian size, 0xC0 0x80 0x80 and the leftover bytes, enciphered; the content padded with zeros to the least multiple of 16, enciphered; both tags the first half of the hash after absorbing the enciphered first half of the previous one combined with the seed |
| Framing.CheckedIsAuthentic | rlpx/session.go:481-519 | input that passes both MAC checks starts with a frame of the right size and tags, and the reader then stands behind it |
| Framing.AuthenticIsChecked | rlpx/session.go:481-519 | every such input passes both checks |
| Framing.FrameRoundTrip | rlpx/session.go:481-628 | whatever follows a frame, a reader at the writer's link state passes both MAC checks, ends at the writer's new link state and recovers code and payload exactly if the code is below 0x80 |
| Framing.RejectedInStep | rlpx/session.go:481-559 | a frame whose code is rejected leaves the reader at the writer's link state and at the end of the frame all the same |
| Framing.CutFrame | rlpx/session.go:481-512 | a proper prefix of a frame only makes the reader run out of bytes |
| FrameRuns.FramesAreFaithful | rlpx/session.go:481-661 | frames are read back whole if their code is below 0x80 and fail otherwise, rejected writes leave no trace, incomplete frames only wait |
| FrameRuns.RunExact | rlpx/session.go:481-661 | for every run, whatever its codes: the reader gets exactly the accepted messages before the first written one with a code of 0x80 or more, is then in the writer's link state, and fails on that message, or has consumed every byte if there is none |
| FrameRuns.RunRoundTrip | rlpx/session.go:481-661 | without such codes the reader gets exactly the accepted messages, consumes every byte and ends in the writer's link state |
| FrameRuns.PartialRun | rlpx/session.go:481-661 | while only part of the bytes has arrived the reader has a prefix of those messages and is waiting, or has all of them and has failed on the large code |
| FrameRuns.BrokenRun | rlpx/session.go:561-628 | if a write breaks off, the reader gets exactly the messages before it and waits for the rest of the cut frame |
| FrameRuns.WriteOneMore | rlpx/session.go:561-628 | one more write extends the bytes of the run |
| FrameRuns.FrameRun | rlpx/session.go:481-661 | the exact result for every run of RLPx frames, with or without snappy |
| HalfConn.HalfConn.constructor | rlpx/session.go:463-479 | the initial state of one direction |
| HalfConn.HalfConn.XorKeyStream | rlpx/session.go:630-643 | masks the first bytes of a buffer in place and advances the keystream by as many |
| HalfConn.HalfConn.UpdateMac | rlpx/session.go:645-661 | absorbs the encrypted digest XORed with the seed and returns the first half of the new digest |
| HalfConn.SentBoth | rlpx/session.go:601-626 | two writes in a row on a connection that may fail are one write of both |
| HalfConn.SentCut | rlpx/session.go:601-626 | a failed write leaves a proper prefix of what was to be written |
| HalfConn.HalfConn.WriteData | rlpx/session.go:630-643 | writes the masked bytes, or the prefix the connection takes, advances the keystream in any case and absorbs the bytes exactly if the write succeeds |
| HalfConn.HalfConn.ExtendBuf | rlpx/session.go:455-461 | the same buffer if it is large enough, otherwise a fresh one with the old bytes in front and zeros behind |
| HalfConn.HalfConn.WriteHeader | rlpx/session.go:588-608 | sends the encrypted header, built over the leftover bytes, and its MAC, stopping at the first failure |
| HalfConn.HalfConn.WriteBody | rlpx/session.go:610-628 | sends masked code, payload and padding as one masked body, and its MAC, stopping at the first failure |
| HalfConn.HalfConn.Write | rlpx/session.go:561-628 | rejects exactly contents of 2^24 bytes or more and then changes nothing visible; otherwise sends exactly the frame `Framing.FrameLayout` describes and moves to its link state, or fails with a proper prefix of the frame sent |
| HalfConn.HalfConn.ReadHeader | rlpx/session.go:481-495 | end of input, header MAC failure, or the decrypted size; in each case the cipher and MAC state and the input left |
| HalfConn.HalfConn.ReadPayload | rlpx/session.go:497-519 | end of input, payload MAC failure, or the decrypted body in the reused buffer; in each case the cipher and MAC state and the input left |
| HalfConn.HalfConn.Read | rlpx/session.go:481-541 | the method on reused buffers does what the frame reader does, also in the state it leaves after an error; the content is a slice of one of the buffers |
| Multiplex.ProtocolIsFirst | rlpx/rlpx.go:32-41 | the protocol found offers the capability and none before it does; none is found exactly if none offers it |
| Multiplex.GetProtocol | rlpx/rlpx.go:32-41 | the loop finds the first local protocol of that name and version |
| Multiplex.SharedIsPicked | rlpx/session.go:274-279 | the shared protocols come from exactly the capabilities some local protocol offers, each once, in the order of the capabilities |
| Multiplex.OpenStream | rlpx/session.go:401-406 | appends the next range and moves the offset past it, in 64-bit arithmetic |
| Multiplex.NegotiateProtocols | rlpx/session.go:270-285 | the streams are the consecutive layout of the shared protocols in the remote's order; fails exactly if none is shared |
| Multiplex.Consecutive | rlpx/session.go:270-285 | without overflow the ranges follow one another from 16 on |
| Multiplex.LaterStartsAfter | rlpx/session.go:270-285 | a later range starts at or after the end of every earlier one |
| Multiplex.OwnerFrom | rlpx/session.go:408-415 | the first stream covering a code, or none if no stream does |
| Multiplex.GetStream | rlpx/session.go:408-415 | the loop finds that stream |
| Multiplex.UniqueOwner | rlpx/session.go:408-415 | no code has two owners |
| Multiplex.RoutingInverts | rlpx/stream.go:83-88 | a code written on a stream is routed back to that stream if and only if it is below the protocol's length |
| Multiplex.SameTable | rlpx/session.go:270-285 | the laid-out table determines the list of shared protocols |
| Negotiation.SameViewIff | rlpx/session.go:270-285 | two ends with distinct protocols each pick the same shared list exactly if the common ones are listed in the same order at both, with the same lengths |
| Negotiation.TablesAgreeIff | rlpx/session.go:270-285 | two ends compute the same stream table if and only if the common protocols are listed in the same order at both, with the same lengths |
| Negotiation.BusyAgreeIff | rlpx/session.go:270-285 | leaving out protocols without messages, both ends pick the same list exactly if shared protocols have the same lengths and those with messages are listed in the same order |
| Negotiation.RoutedIff | rlpx/session.go:408-415 | every message of every shared protocol reaches that protocol at the other end, in both directions, if and only if shared protocols have the same lengths and those with messages are listed in the same order |
| Negotiation.SortedEndsAgree | rlpx/common.go:137-157 | if both announce in any one strict order, the tables are the same exactly if the lengths are |
| Negotiation.SessionIff | rlpx/rlpx.go:170-182 | a session between the two meets the conditions of the end-to-end result if and only if they list the common protocols alike |
| Negotiation.MessagesCanBeMisrouted | rlpx/session.go:274-279 | with eth before snap at one end and snap before eth at the other, an eth message reaches the snap stream |
| Multiplex.HeadRoundTrip | rlpx/stream.go:61-77 | code and length are recovered from the six-byte header |
| Multiplex.HeadLayout | rlpx/stream.go:61-77 | the header is the code in two bytes and the length in four, most significant first |
| Multiplex.QueueOneMore | rlpx/stream.go:188-215 | one more message extends the byte queue at its end |
| Streams.HeadOfWhole | rlpx/stream.go:119-124 | the first read takes the header of a queued message and leaves its payload and the rest |
| Streams.BodyOfWhole | rlpx/stream.go:125-129 | after that the second read takes exactly the payload |
| Streams.TakeWhole | rlpx/stream.go:119-130 | on a queue of whole messages a read returns the first one, leaves the rest and does not wait |
| Streams.Stream.ReadData | rlpx/stream.go:188-215 | appends header and a copy of the content to the queue |
| Streams.Stream.Read | rlpx/stream.go:133-156 | takes what is there up to the buffer's length; waits exactly if there is nothing and something is asked for |
| Streams.Stream.ReadMsg | rlpx/stream.go:119-130 | waits exactly if one of its two reads does, with the queue empty by then; otherwise returns the message and leaves the rest |
| Streams.DispatchIff | rlpx/session.go:334-353 | a ping (2) and nothing else is answered, a pong (3) ignored, a disconnect message (1) ends the loop, and exactly the other codes go to the stream that owns them |
| Streams.Reply | rlpx/session.go:318-341 | a ping on an open session makes the loop write exactly a pong frame with the payload 0xC0; nothing else makes it write |
| Streams.TakeFrame | rlpx/session.go:324-355 | reads one frame, changes at most the owning stream's queue, and copies the content out of the reused buffer |
| Streams.RecvOnce | rlpx/session.go:324-355 | a turn of the receive loop is such a read, followed by a pong frame exactly if the frame was a ping |
| EndToEnd.ReadsOldest | rlpx/session.go:324-355 | the receive loop always reads the oldest message in flight, or fails on it if its raw code is 0x80 or more |
| EndToEnd.LoopEndsIff | rlpx/session.go:324-355 | a turn of the loop crashes exactly if the oldest message in flight has a raw code of 0x80 or more, and returns exactly if it is a disconnect message |
| EndToEnd.HoldsOneMore | rlpx/stream.go:188-215 | a message that arrives between the reader's two reads waits behind the others |
| EndToEnd.BodyInv | rlpx/stream.go:119-130 | the second read of ReadMsg never waits and returns the oldest message not yet returned |
| EndToEnd.NextInv | rlpx/stream.go:83-215 | every step keeps: sent = received + queued + in flight, per stream, in order, also between the two reads of ReadMsg |
| EndToEnd.RunInv | rlpx/stream.go:83-215 | that holds in every state of every run |
| EndToEnd.DeliveredInOrder | rlpx/stream.go:83-215 | for all codes of the protocols, at every moment what ReadMsg returned on a stream is a prefix of what WriteMsg sent on it, and a drained system has delivered everything; the loop has crashed only at a message with a raw code of 0x80 or more |
| EndToEnd.WriteIff | rlpx/stream.go:83-88 | a write is accepted exactly if its frame fits, and is then the last message in flight |
| EndToEnd.CanBeDelivered | rlpx/stream.go:83-215 | at every moment of every run in which the loop runs and no message in flight ends or crashes it, the run can go on so that the reader of a stream has got exactly what was sent on it |
| EndToEnd.FlightWasWritten | rlpx/stream.go:83-88 | whatever is in flight was written by an earlier step of the run |
| EndToEnd.CrashIff | rlpx/session.go:324-355 | in some run the loop crashes if and only if a shared protocol has a message that fits a frame and whose raw code is 0x80 or more |
| EndToEnd.RlpxCrashIff | rlpx/session.go:544-559 | for RLPx frames that is the case if and only if the base protocol and the shared protocols together have more than 0x80 codes |
| EndToEnd.RlpxSession | rlpx/session.go:481-661 | RLPx frames between ends with the same table satisfy what the end-to-end result needs |
| Wakeup.NextInv | rlpx/stream.go:133-215 | every step keeps: data and a waiting reader imply a wake-up on its way |
| Wakeup.NoLostWakeup | rlpx/stream.go:133-215 | in every run, whenever a reader waits and there is data, a token is present, a notification is about to be sent, or another reader will look again or notify |
| Wakeup.NeverStuck | rlpx/stream.go:133-215 | from such a state at most three steps of threads already inside lead to data being taken |
| Wakeup.BytesConserved | rlpx/stream.go:133-215 | in every run no byte is lost or read twice |
| Wakeup.CheckIs | rlpx/stream.go:133-156 | a reader waits exactly if it finds the buffer empty, and otherwise takes some of it |
| Shutdown.NextInv | rlpx/session.go:203-227 | every step keeps the shutdown invariant |
| Shutdown.RunInv | rlpx/session.go:203-227 | it holds in every state of every run |
| Shutdown.ClosedOnce | rlpx/session.go:203-227 | in every run the channel is closed at most once, at most one disconnect frame is written, its write is tried before the session is closed and leaves the frame exactly if it succeeds, and a shut-down session has a reason |
| Shutdown.FirstReasonStays | rlpx/session.go:357-371 | the first recorded reason never changes; once closed, a session stays closed and no frame is written |
| Shutdown.HolderFinishes | rlpx/session.go:203-227 | whether or not the disconnect frame can be written, the holder of the shutdown lock is at most three of its own steps from a closed session |
| Shutdown.RecordedIsFirst | rlpx/session.go:203-213 | in every run the recorded reason is the first one brought up by exitErr or by a Disconnect that is not too late |
| Shutdown.NoticeIs | rlpx/session.go:211-216 | in every run the disconnect frame carries the reason of the call that shuts the session down, 8 if that is exitErr, and is written exactly if the connection takes it |
| Shutdown.WriteRawIs | rlpx/session.go:432-445 | in every run any other write appends its frame exactly if the session is open and the connection takes it, and changes nothing else |
| Shutdown.DisconnectCloses | rlpx/session.go:203-227 | the whole of a Disconnect on an open session: the exact state it leaves |
| Shutdown.ExitErrCloses | rlpx/session.go:357-371 | the whole of an exitErr on an open session: its error recorded, reason 8 in the frame |
| Lookup.Seed | discovery/discv4.go:669-673 | the seeding loop starts the first min(3, half of the queue rounded up) queries |
| Lookup.Discover | discovery/discv4.go:686-693 | a reply marks its nodes visited and enqueues exactly the unseen ones, each once |
| Lookup.Refill | discovery/discv4.go:695-698 | starts queries from the front of the queue until exactly three are in flight or the queue is empty |
| Lookup.Answer | discovery/discv4.go:675-699 | processing any outstanding reply keeps the loop invariant and decreases the termination measure |
| Lookup.Explore | discovery/discv4.go:669-699 | for every order of replies the loop ends, has at most three queries in flight, enqueues each discovered node exactly once, queries every start and discovered node, and discovers exactly the reachable nodes |
| Lookup.LookupTarget | discovery/discv4.go:630-712 | the call returns exactly the reachable nodes, and fails exactly if one of them is not a known peer |
| PeerIndex.AnswerIsStored | discovery/discv4.go:589-601 | whatever the table search returns is stored in the table |
| PeerIndex.NextInv | discovery/discv4.go:989-1014 | every step of updaters and readers keeps the invariant |
| PeerIndex.AlwaysFound | discovery/discv4.go:589-601 | in every interleaving each identifier the table returned is found by getPeer, so the "peer not found" branch is never taken |
| PeerIndex.UpdatesLand | discovery/discv4.go:997-1014 | in every interleaving the table is the one its updates leave, one after the other, each for the identifier its thread locked for |
| PeerIndex.InsertsLand | discovery/discv4.go:997-1014 | in every interleaving `nodes` are exactly the identifiers inserted |
| Bonding.NextInv | discovery/discv4.go:761-1014 | every packet, probe and timeout step keeps: each bond time is proved by the log |
| Bonding.RunInv | discovery/discv4.go:761-1014 | that holds in every state of every run |
| Bonding.OnlyBondedAnswered | discovery/discv4.go:881-929 | neighbours are sent only to a node whose bond time is a completed pong or linked back to one by accepted pings, each within the bond lifetime of the time it was checked against |
| Bonding.ProofStartsWithPong | discovery/discv4.go:862-879 | every proved bond time goes back to a completed pong of that very node |
| Bonding.ListedOnlyAfterPong | discovery/discv4.go:957-1014 | a node is in `nodes` only after its own pong arrived while a probe of it was registered and waiting |
| Bonding.NodesAreLatest | discovery/discv4.go:957-1014 | in every run `nodes` holds each node's latest recorded bond time, and nothing else |
| Bonding.ListedStays | discovery/discv4.go:997-1014 | a node once listed stays listed |
| Bonding.AnsweredIff | discovery/discv4.go:862-929 | in every run a findnode request is answered if and only if the sender's latest recorded bond time is at most 24 hours, 86,400,000,000,000 ns, before it |
| Bonding.AcceptedIff | discovery/discv4.go:852-879 | in every run a ping is accepted under the same condition, and otherwise changes nothing |
| Bonding.PingRecorded | discovery/discv4.go:852-857 | an accepted ping can be finished at any time later, which records its own time |
| Bonding.PongIff | discovery/discv4.go:1129-1141 | in every run a pong completes a probe if and only if one of the node is registered and already waits; otherwise it changes nothing |
| Bonding.ProbeLists | discovery/discv4.go:957-985 | in every run a probe that waits, and that no newer probe of the node, timeout or pong gets in the way of, is completed by the node's pong, and finishing it lists the node with the pong's time |
| Bonding.TimeoutForgets | discovery/discv4.go:1129-1156 | after a timeout the node's pongs complete nothing until the next probe of it |
| ForkId.StrictUnique | forkid/forkid.go:123-146 | a strictly increasing list is determined by its elements, so cleaning has one possible result |
| ForkId.SortSlice | forkid/forkid.go:123-127 | leaves a sorted permutation |
| ForkId.Compact | forkid/forkid.go:129-137 | the in-place loop leaves each element once, strictly increasing, in front |
| ForkId.SkipZero | forkid/forkid.go:139-145 | skipping leaves exactly the non-zero elements |
| ForkId.CleanForks | forkid/forkid.go:123-146 | the result is strictly increasing and has exactly the non-zero elements of the slice, if and only if the slice is not empty or the first element of its spare capacity is zero |
| ForkId.ForkHash | forkid/forkid.go:159-182 | the checksum computed fork by fork is the fork hash of EIP-2124: the four big-endian bytes of the CRC-32 of the genesis hash followed by the passed forks as eight big-endian bytes each |
| ForkId.BuildSums | forkid/forkid.go:56-65 | the checksums are the fork hashes (`ForkHash`) of the genesis and all prefixes of the cleaned list, with the sentinel at the end |
| ForkId.NewForkID | forkid/forkid.go:52-71 | the checksums are those of the genesis and the cleaned list |
| ForkId.PassedFacts | forkid/forkid.go:73-78 | the passed forks are exactly those at or below the head |
| ForkId.FindForkAt | forkid/forkid.go:73-78 | the binary search finds the last entry at or below the block |
| ForkId.At | forkid/forkid.go:80-83 | the identifier names exactly the passed forks and the first one not passed |
| ForkId.Scan | forkid/forkid.go:95-120 | the two scans decide by the first matching checksum |
| ForkId.Validate | forkid/forkid.go:90-121 | for every head, every remote genesis and every remote fork history told apart by CRC-32: the decision is that of the EIP-2124 rules on fork lists if the genesis is the same, and a rejection as incompatible or stale otherwise |
| ForkId.JudgeIsEip | forkid/forkid.go:90-121 | deciding by checksums is deciding by fork lists |
| ForkId.ForeignRejected | forkid/forkid.go:90-121 | an identifier of another genesis is rejected at every head, whatever its forks and its next one |
| ForkId.AcceptsIff | forkid/forkid.go:90-121 | a remote node's identifier is accepted exactly in the three cases of the specification |
| ForkId.SameForksAccept | forkid/forkid.go:90-121 | nodes with equal forks accept each other at all heads |
| HeapOrder.RootIsMinimum | periodic.go:233-239 | the root of an ordered heap is a minimum, the zero time counting as latest |
| HeapOrder.UpStep | periodic.go:273-312 | one sift-up exchange restores order everywhere but one level higher |
| HeapOrder.DownStep | periodic.go:273-312 | one sift-down exchange restores order everywhere but one level lower |
| PeriodicHeap.PeriodicHeap.constructor | periodic.go:205-210 | a new heap is empty |
| PeriodicHeap.PeriodicHeap.Swap | periodic.go:292-296 | exchanges two entries and their recorded positions |
| PeriodicHeap.PeriodicHeap.Up | periodic.go:212-221 | sift-up makes the array a heap again, positions and map intact |
| PeriodicHeap.PeriodicHeap.Down | periodic.go:246-265 | sift-down makes the array a heap again if the entry moved, and otherwise leaves only sift-up to do |
| PeriodicHeap.PeriodicHeap.Fix | periodic.go:246-255 | after one key changed the array is a heap again |
| PeriodicHeap.PeriodicHeap.Push | periodic.go:212-221 | plans a new job and keeps heap order, positions and map; fails and changes nothing exactly if the identifier is planned |
| PeriodicHeap.PeriodicHeap.Pop | periodic.go:223-231 | removes and returns, with its plan, a job no other precedes, or nothing from an empty heap |
| PeriodicHeap.PeriodicHeap.Peek | periodic.go:233-239 | a job no other precedes, with its plan |
| PeriodicHeap.PeriodicHeap.Contains | periodic.go:241-244 | true exactly if the identifier is planned |
| PeriodicHeap.PeriodicHeap.Update | periodic.go:246-255 | replans exactly that job; fails exactly if it is not planned |
| PeriodicHeap.PeriodicHeap.Remove | periodic.go:257-265 | forgets exactly that job; fails exactly if it is not planned |
| PeriodicHeap.PeriodicHeap.Length | periodic.go:267-269 | the number of entries, zero exactly if nothing is planned |
| Schedule.StepInv | periodic.go:61-189 | every addition, removal and launch keeps the schedule invariant |
| Schedule.RunOnSchedule | periodic.go:61-189 | in every run a job's next launch is its first plus period times launches since it was added; with a positive clock and no negative period, launch times never decrease and none is later than a pending launch |
| Schedule.PlannedSince | periodic.go:61-82 | in every run a planned job was added by some call and its first launch is one period after that call |
| Dispatcher.Dispatcher.constructor | periodic.go:34-44 | nothing is tracked, planned or offered |
| Dispatcher.Dispatcher.Add | periodic.go:61-82 | tracked and planned identifiers stay equal even when a duplicate fails |
| Dispatcher.Dispatcher.Contains | periodic.go:53-59 | true exactly if the job is planned |
| Dispatcher.Dispatcher.Remove | periodic.go:100-121 | forgets exactly that job; the heap's error never occurs |
| Dispatcher.Dispatcher.NextLaunch | periodic.go:175-189 | a job no other precedes and its launch time, or the zero time if nothing is planned |
| Dispatcher.Dispatcher.Dispatch | periodic.go:159-173 | replans the job one period after the launch and offers the event unless the channel is full |
| Dispatcher.Dispatcher.RunOnce | periodic.go:137-157 | launches the earliest of the jobs whose time has come, replans it and puts it in the event channel if fewer than 10 events are buffered; does nothing exactly if no job's time has come |
| Dispatcher.FireIff | periodic.go:137-157 | a job can fire exactly if its time has come and no other such job is earlier |
| Dispatcher.AgreeStep | periodic.go:61-189 | each operation is possible exactly if the schedule allows it and keeps the two in agreement |
| Dispatcher.RunFollowsSchedule | periodic.go:61-189 | every run of the dispatcher follows the schedule, and the jobs it has offered are exactly those of the launch log, in order |
| Launching.DispatchOnTimeIff | periodic.go:159-173 | a dispatch keeps every job on time if and only if its job is gone or is still planned so that the same next launch follows |
| Launching.NextInv | periodic.go:137-173 | with looking and dispatching as separate steps, every step keeps: a peeked job that was not removed is planned as it was |
| Launching.OnTimeUnlessRemoved | periodic.go:137-173 | in every run in which no job is removed between the look and its dispatch, next launch = first + periods launched, for every job |
| Launching.LookedAtIsLaunched | periodic.go:137-173 | in every run the job looked at is launched when the timer fires, at the time it had then, whatever is added and removed in between |
| Launching.StaleRun | periodic.go:137-173 | a run in which a job is looked at, removed and added again before its dispatch |
| Launching.StaleDispatch | periodic.go:159-173 | that dispatch puts the job off its schedule |
| DnsTree.ItemsAllConcat | dnsdisc/dnsdisc.go:95-97 | walking a stack is walking its parts one after the other |
| DnsTree.PublishedItems | dnsdisc/dnsdisc.go:58-104 | on a well-formed tree the walk yields exactly the records of the recursive preorder, skipping links |
| DnsTree.FoundIsAuthentic | dnsdisc/dnsdisc.go:66-103 | every record the walk meets was parsed from a text of its name whose Keccak hash starts with the decoded name, and so on from branch to branch up to the name the walk started from |
| DnsDisc.DnsDisc.constructor | dnsdisc/dnsdisc.go:28-36 | nothing is resolved yet |
| DnsDisc.DnsDisc.ResolveRoot | dnsdisc/dnsdisc.go:42-56 | succeeds exactly if the domain resolves to a root entry, and then puts the whole tree on the stack |
| DnsDisc.DnsDisc.Visit | dnsdisc/dnsdisc.go:66-104 | visiting a name takes its item, if any, off the front of the remaining walk and makes the remaining subtrees smaller |
| DnsDisc.DnsDisc.ScanTexts | dnsdisc/dnsdisc.go:83-103 | scanning the texts stops at the first node or failure, with the branches before it on the stack |
| DnsDisc.DnsDisc.NextNode | dnsdisc/dnsdisc.go:58-104 | delivers the next item of the walk, whatever is malformed, and ends |
| DnsDisc.DnsDisc.Has | dnsdisc/dnsdisc.go:106-113 | true exactly if a record was delivered |
| DnsDisc.DnsDisc.Next | dnsdisc/dnsdisc.go:115-117 | the delivered record |
| DnsDisc.Collect | dnsdisc/dnsdisc.go:106-117 | repeated Has and Next yield the records of the walk up to the first failure and then stop; every record is authentic from the root on |
| DnsDisc.CollectPublished | dnsdisc/dnsdisc.go:106-117 | for a well-formed tree that is the recursive preorder |

## Left out

- Sockets, listeners, the transport and the key agreement of the RLPx handshake: the two directions start from mirrored secrets.
- RLP codecs, ENR and enode parsing, the entry parsers and base32 decoding of DNS discovery: parameters or absent.
- The `eth` wire protocol backend, the server and peer wiring, configuration, the peer store and logging.
- CRC-32, AES, Keccak and snappy arithmetic; XOR in the cipher and the MAC is any operation that undoes itself.
- The library sorts: modelled by insertion sorts, of which only an ordered permutation is used.
- Linked lists and slices that grow are `seq` fields; aliasing between a Go slice and a grown copy of it is modelled only for the read and write buffers of a half connection and the slice that cleanForks sorts and compacts.
- `bucketsize` zero: splitting would never end, so a table has a capacity of at least one.
- HalfConn.HalfConn.Write: after a failed write only what reached the connection is stated, not the cipher and MAC state, which nothing uses any more; a connection that failed once does not recover.
- A frame of size zero and a code that no stream owns: the source fails at run time there, the model reports an error value; end-to-end runs contain neither.
- RoutingTable.RoutingTable.Find: for the empty identifier only that the result is the empty string, because there the source cannot tell found from not found.
- Multiplex.Consecutive: assumes that 16 plus the negotiated lengths fit in 64 bits; NegotiateProtocols itself models the wrap-around.
- ForkId.At: at the largest 64-bit block the source indexes past the checksums, so the block is below it.
- ForkId.CleanForks: an empty slice without spare capacity is excluded, because the source panics on it.
- ForkId.NewForkID: as for CleanForks.
- ForkId.AcceptsIff: the same genesis, heads below the largest 64-bit value and a remote history whose checksum is told apart from those of the local prefixes; Validate itself covers every head.
- DnsDisc.DnsDisc.NextNode: the resolver answers consistently, the domain never resolves to an empty list and the names behind the root form a finite tree; a cyclic zone would make the source loop.
- Dispatcher.Dispatcher.RunOnce: peeking and dispatching are one step here; Launching takes them apart, for launch times but not for the order of launches. Timers and SetEnabled are not modelled.
- EndToEnd.DeliveredInOrder: one reader per stream, codes below the protocol's length (Multiplex.RoutingInverts says what others do), payloads below 4 GiB, the most snappy encodes, and ends that computed the same table (Negotiation.SessionIff says when); Stream.Write with its header toggling is not modelled.
- EndToEnd.RlpxCrashIff: with snappy, assumes that the empty payload compresses to at most 65535 bytes.
- Wakeup and EndToEnd abstract from deadlines, and EndToEnd from the pongs, which travel in the other direction (Streams.Reply): giving up a read is possible at any time in the first and absent in the second.
- Shutdown: notifying the streams' error channels and closing the connection.
- Lookup.LookupTarget: every query is eventually answered from a fixed reply relation and there is no shutdown; the `inlookup` flag, which is never set, and the query exchange inside findNodes are not modelled.
- Bonding: packet expiration times, pings as notifications for findNodes, and splitting the neighbours into packets of six.
- PopBack, Print and ID.Equal.
