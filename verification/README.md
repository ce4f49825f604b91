# Verified model of the p2p and consensus utilities

This project models the parts of the taraxa node where the state is most involved and proves what
they are for: the RLP codec, the RLPx transport from handshake to session, the Kademlia discovery
table, capability negotiation, the bounded caches, sortition arithmetic and the byte-level hash,
Bloom and Base64 code. `dafny verify dfyconfig.toml` checks all of it.

Objects that the source updates in place are classes here and their loops are loops; each is proved
equal to a specification on values, and the properties are proved about that specification.

- RLP (`Bytes`, `Sequences`, `RlpFormat`, `RlpStream`, `RlpReader`, `RlpList`): the stream that back-patches list
  headers refines the recursive encoder of the Ethereum Yellow Paper, appendix B; reading and writing
  are mutually inverse; cached indexing and the iterator agree with plain indexing.
- RLPx (`Bits`, `FrameHeader`, `FrameCoder`, `Session`, `SessionLimits`, `SessionEndpoint`,
  `SessionRun`, `Handshake`): two endpoints as step relations over a shared wire. The cipher is a key stream indexed by position,
  Keccak a function of what was absorbed, LZ4 a pair of functions with the size bounds of its
  documentation; their laws are hypotheses of the theorems that need them, and `Session.StoringIsLossless`
  and `FrameCoder.SomeAgreementCommutes` show that the hypotheses can be met.
- Discovery (`EndpointProofs`, `NodeTable`, `NodeTableLife`, `NodeTableRuns`, `NearestNodes`,
  `EndpointTracker`): entries are objects, a weak reference can be locked as long as somebody owns the
  entry, and a ghost history records what the table was told and which pings it sent.
- Negotiation and caches (`Capabilities`, `StatusTable`, `ExpirationCaches`, `BlockCaches`).
- Arithmetic (`Sets`, `Modulo`, `Sortition`, `SortitionPeriod`, `FixedHash`, `Bloom`, `Base64`).

Some properties one would expect hold only under a condition. The members that state the condition,
and those that show what happens without it, are in the table:

- After a subscript that throws, the last good item in front of the malformed one throws as well
  (`RlpList.ListView.At`, `RlpList.SpoiledByFailure`). The iterator's end is reached only in a view
  without trailing bytes (`RlpList.IteratorVisitsItems`).
- A tree is read back only below 2^64 - 257 bytes of payload (`RlpReader.RoundTripIff`).
- Every message below 2^32 bytes survives splitting; the exact limit, 274 * 15 MiB, is a little above
  that, and a message that reaches it is never delivered (`SessionLimits.SurvivesIff`). A message whose first byte is zero, or above 0x7f, is not
  accepted by the receiver's packet check (`Session.CheckedIsAcceptable`).
- A failure can be reported after success if a timer handler was already queued
  (`Handshake.RlpxHandshake.Handle`, and `Handshake.LateTimer` for such a run).
- A boot node's table loses known nodes from its buckets (`NodeTable.Table.NoteActiveNode`,
  `NodeTableRuns.BootNodeUnlists`). A waiting replacement is lost if its node was dropped on account of a
  ping that the same sweep looked at before (`NodeTable.Table.SweepTimeouts`, `NodeTableRuns.OrderDecides`).
- Thirteen IPv6 neighbours do not fit a datagram (`NearestNodes.DatagramFits`).
- The in-place capability filter relies on names not being confused with moved-from ones
  (`Capabilities.RemoveIfFilters`).
- Packet ranges that together reach 2^32 are no longer all found (`Capabilities.RoutedIff`).
- `StatusTable` is unbounded for capacities below ten (`StatusTable.SmallTablesGrow`), and its `erase`
  returns false even when it erased (`StatusTable.Table.Erase`).
- `ExpirationBlockNumberCache` can exceed its maximum after `erase` and its window after falling block
  numbers (`BlockCaches.EraseBreaksMaximum`, `BlockCaches.FallingBlocksHideOldKeys`); when an insertion
  keeps them is stated exactly by `BlockCaches.MaximumKeptIff` and `BlockCaches.InsertedInWindowIff`, for
  queued and for cached keys, since an erased key stays queued.
- More votes can make a threshold higher once their share is cut to 16 bits
  (`SortitionPeriod.NeverRisesIff`, `SortitionPeriod.CutShareIsNotEnough`); for a part of the votes that
  does not happen (`Sortition.PartIsCounted`, `SortitionPeriod.CountedIsEnough`).
- `VrfParams::operator+=` clamps only values that start in range or leave the range below it
  (`Sortition.VrfParams.Add`).

## Model

| member | source | states |
|---|---|---|
| `RlpStream.StreamRefinesEncoder` | libraries/aleth/libdevcore/RLP.cpp:165-250 | feeding the preorder events of any tree to a fresh stream ends with no list open and exactly the recursive encoding as output |
| `RlpStream.WritesEncoding` | libraries/aleth/libdevcore/RLP.cpp:171-243 | the same inside any lists that are already open: the effect is that of appending the finished encoding and counting one item, however many lists that closes |
| `RlpStream.WritesItems` | libraries/aleth/libdevcore/RLP.cpp:171-205 | the items of an open list leave it open until the last one, which alone patches its header in |
| `RlpStream.Writer.NoteAppended` | libraries/aleth/libdevcore/RLP.cpp:171-205 | the loop over the list stack with its in-place shifts equals the recursive closing of lists, and throws exactly when that does |
| `RlpStream.Writer.PatchListHeader` | libraries/aleth/libdevcore/RLP.cpp:184-200 | opening a gap by moving bytes and filling it backwards inserts the header in front of the payload and changes nothing else |
| `RlpStream.Writer.FillDigits` | libraries/aleth/libdevcore/RLP.h:650-656 | the backward digit loop writes the big-endian digits into their place and leaves every other byte alone |
| `RlpStream.Writer.Append` | libraries/aleth/libdevcore/RLP.cpp:225-243 | a byte string is appended as its encoding (without leading zeros in compact form) and counted |
| `RlpStream.StripsToCompact` | libraries/aleth/libdevcore/RLP.cpp:225-243 | the compact form of a byte string is its number without leading zeros |
| `RlpStream.Writer.AppendInt` | libraries/aleth/libdevcore/RLP.h:525-546 | a number of any width is appended as the encoding of its digits and counted |
| `RlpStream.Writer.AppendList` | libraries/aleth/libdevcore/RLP.cpp:207-214 | a list is opened, or for no items written and counted at once |
| `RlpStream.Writer.Feed` | libraries/aleth/libdevcore/RLP.cpp:165-250 | any sequence of calls on the mutable stream is the run of the value-level machine, including where it throws |
| `RlpStream.Serialize` | libraries/aleth/libdevcore/RLP.h:674-677 | the imperative writer as a whole returns the recursive encoding |
| `RlpFormat.PrefixBytes` | libraries/aleth/libdevcore/RLP.h:39-46 | every encoding in numbers: a byte below 0x80 stands for itself; payloads below 56 bytes are announced by 0x80 or 0xc0 plus their length, longer ones by 0xb7 or 0xf7 plus the number of digits of the length and these digits, the first of which is not zero |
| `RlpReader.DecodeEncode` | libraries/aleth/libdevcore/RLP.cpp:29-42 | full strict traversal of an encoding yields the tree it came from |
| `RlpReader.EncodeDecode` | libraries/aleth/libdevcore/RLP.cpp:79-153 | whatever bytes full strict traversal accepts are the encoding of the tree it yields, so encodings are unique |
| `RlpReader.RoundTripIff` | libraries/aleth/libdevcore/RLP.cpp:113-153 | a tree survives the round trip exactly if its payload is shorter than 2^64 - 257 bytes, the limit of the overflow check |
| `RlpReader.PrefixFree` | libraries/aleth/libdevcore/RLP.cpp:79-84 | no encoding is a proper prefix of another |
| `RlpReader.ReadLength` | libraries/aleth/libdevcore/RLP.cpp:113-153 | the digit loop in a size_t computes the length and raises the same errors as its specification, without overflow |
| `RlpReader.ReadsHeader` | libraries/aleth/libdevcore/RLP.cpp:113-153 | only the canonical header of a length is read as that length |
| `RlpReader.EncodingPayload` | libraries/aleth/libdevcore/RLP.h:367-371 | the payload behind a header is recovered whatever bytes follow |
| `RlpList.ListView.At` | libraries/aleth/libdevcore/RLP.cpp:65-77 | from any state of the index cache the subscript equals plain indexing of the payload, except that after a query that threw the last good item in front of the malformed one throws too |
| `RlpList.AskAll` | libraries/aleth/libdevcore/RLP.cpp:65-77 | any queries in any order to an item, list or not: with a well-formed payload all get the true item, or null past the end, and without a payload all throw |
| `RlpList.SpoiledByFailure` | libraries/aleth/libdevcore/RLP.cpp:65-77 | a concrete list on which a throwing query makes an earlier good item unreadable |
| `RlpList.EncodedItems` | libraries/aleth/libdevcore/RLP.cpp:65-77 | plain indexing of an encoded list finds the encodings of its items and nothing after them |
| `RlpList.IteratorVisitsItems` | libraries/aleth/libdevcore/RLP.cpp:44-63 | the iterator shows item k after k increments, and reaches its end exactly if no bytes follow the list in its view |
| `RlpList.EncodedListIterates` | libraries/aleth/libdevcore/RLP.cpp:44-63 | a list encoded on its own is visited item by item and then left |
| `RlpList.OthersVisitNothing` | libraries/aleth/libdevcore/RLP.cpp:54-63 | iteration over an item that is not a list is at its end at once, and over a list without a payload throws |
| `RlpList.CountItems` | libraries/aleth/libdevcore/RLP.cpp:155-163 | the item count loop equals its specification, which on encodings is the number of items |
| `RlpList.CountEncoded` | libraries/aleth/libdevcore/RLP.cpp:155-163 | the count of an encoded list is its length |
| `FrameHeader.HeaderFits` | libraries/aleth/libp2p/RLPXFrameCoder.cpp:154-198 | every header fits the sixteen bytes reserved for it, with two to spare |
| `FrameHeader.HeaderReadsBack` | libraries/aleth/libp2p/RLPXFrameCoder.cpp:18-26 | every header parses back to the length and the fields it was made from, whatever padding follows |
| `FrameHeader.HeaderOnWire` | libraries/aleth/libp2p/RLPXFrameCoder.cpp:154-198 | the bytes of every header: the length modulo 2^24, most significant byte first, then c1 80 for a packet in one plain frame, else a list of protocol id, sequence id and, in the first frame of several, the total |
| `FrameHeader.ParsedMeans` | libraries/aleth/libp2p/RLPXFrameCoder.cpp:18-26 | any header that parses lies within its bytes and consists of canonical numbers of at most two, two and four bytes, each in its place |
| `FrameHeader.WriteHeader` | libraries/aleth/libp2p/RLPXFrameCoder.cpp:154-168 | the header as the mutable stream assembles it |
| `FrameHeader.NumberReads` | libraries/aleth/libdevcore/RLP.h:311-340 | the strict number conversion returns every number that fits its type |
| `FrameHeader.NumberReadsOnly` | libraries/aleth/libdevcore/RLP.h:311-340 | an item reads as a number exactly if it is the encoding, without leading zeros, of that number and fits the type |
| `FrameCoder.SetupCrosses` | libraries/aleth/libp2p/RLPXFrameCoder.cpp:68-130 | the two ends of one handshake derive the same keys and crossed MAC states, or neither gets a coder |
| `FrameCoder.KeySchedule` | libraries/aleth/libp2p/RLPXFrameCoder.cpp:68-130 | by role, over the primitives alone: keccak of the agreed secret and of the nonces, the recipient's first, gives the AES key, keccak of the secret and that key the MAC key; what the initiator sends is seeded with the recipient's nonce and the auth message, what it receives with its own and the ack message, and the recipient has the mirror image |
| `FrameCoder.Setup` | libraries/aleth/libp2p/RLPXFrameCoder.cpp:68-130 | the key-material buffer whose halves are overwritten in turn ends up with those keys and states |
| `FrameCoder.SealedOpens` | libraries/aleth/libp2p/RLPXFrameCoder.cpp:132-152 | what one end seals the other opens: both MACs are accepted, the plaintext comes back and both directions end in the same cipher position and MAC state |
| `FrameCoder.HeaderAcceptedIff` | libraries/aleth/libp2p/RLPXFrameCoder.cpp:200-208 | over the primitives alone: a header is accepted exactly if its last 16 bytes are the digest of the transcript with the encrypted digest, mixed with the header ciphertext, absorbed; what it decrypts to and the state after it |
| `FrameCoder.BodyAcceptedIff` | libraries/aleth/libp2p/RLPXFrameCoder.cpp:222-229 | the same for a body, whose ciphertext is absorbed first and whose digest is mixed with itself |
| `FrameCoder.OpensIffSealed` | libraries/aleth/libp2p/RLPXFrameCoder.cpp:132-229 | bytes are accepted as a frame exactly if they are what the same direction seals for some header block and padded body, and they open to these |
| `FrameCoder.FrameLayout` | libraries/aleth/libp2p/RLPXFrameCoder.cpp:132-152 | where header, payload and padding zeros are in a frame, at which positions of the key stream they are encrypted, and how far the direction moves on |
| `FrameCoder.RlpxFrameCoder.WriteFrame` | libraries/aleth/libp2p/RLPXFrameCoder.cpp:132-152 | the frame built in one zeroed buffer is the sealed frame, and the egress state advances with it |
| `FrameCoder.RlpxFrameCoder.AuthAndDecryptHeader` | libraries/aleth/libp2p/RLPXFrameCoder.cpp:200-208 | in-place authentication and decryption answer as `FrameCoder.HeaderAcceptedIff` describes; a wrong MAC leaves the bytes alone |
| `FrameCoder.RlpxFrameCoder.AuthAndDecryptFrame` | libraries/aleth/libp2p/RLPXFrameCoder.cpp:222-229 | the same for the body of a frame |
| `Session.DeliversInOrder` | libraries/aleth/libp2p/Session.cpp:161-236 | on every interleaving of sends, write completions and reads nothing is dropped and what was delivered is a beginning of what was sent, in order and once each; when queue and wire are empty it is all of it and both coders agree |
| `Session.HandshakeToDelivery` | libraries/aleth/libp2p/RLPXFrameCoder.cpp:68-152 | from the handshake on: either neither end gets a coder, or what either end sends is delivered by the other in that way, in both directions |
| `Session.Drains` | libraries/aleth/libp2p/Session.cpp:211-236 | from every reachable state finitely many write completions and reads deliver everything that was sent |
| `Session.AlwaysDrains` | libraries/aleth/libp2p/Session.cpp:211-236 | after any run of a new connection finitely many write completions and reads, without a further send, deliver everything and leave queue and wire empty and both coders in agreement |
| `Session.ReceivesNext` | libraries/aleth/libp2p/Session.cpp:273-381 | one frame moves the receiver on by exactly one piece; the short last frame, empty for exact multiples of 15 MiB, delivers the message |
| `Session.ReceivedMeans` | libraries/aleth/libp2p/Session.cpp:323-381 | what any frame does to the receiver: it is refused exactly if it does not decompress or completes a message that is not acceptable, and otherwise is kept or completes a message |
| `Session.OnlyAcceptableDelivered` | libraries/aleth/libp2p/Session.cpp:273-381 | whatever bytes are on the wire and whatever happens, nothing is ever delivered that the packet check refuses |
| `Session.ReadIsSealed` | libraries/aleth/libp2p/Session.cpp:273-325 | whatever bytes are on the wire: a frame is taken only if the receiving direction itself would seal its header block and body into exactly these bytes |
| `Session.ForgeryDrops` | libraries/aleth/libp2p/Session.cpp:282-325 | a header that is not authentic or does not parse drops the connection at once, a body that is not authentic once it is complete |
| `Session.PartIsWaitedFor` | libraries/aleth/libp2p/Session.cpp:273-325 | any proper part of a genuine frame is waited for |
| `Session.ReadKeeps` | libraries/aleth/libp2p/Session.cpp:273-381 | reading the next frame succeeds in every reachable state and keeps the invariant |
| `Session.PackCounts` | libraries/aleth/libp2p/Session.cpp:176-209 | below the limit the 16-bit sequence id and the 32-bit sent size do not wrap |
| `Session.PackFields` | libraries/aleth/libp2p/Session.cpp:176-209 | the header fields of the next frame: protocol id, sequence id and total |
| `Session.PieceTravels` | libraries/aleth/libp2p/RLPXFrameCoder.cpp:170-220 | a piece, compressed or not, fits the 24-bit frame length and is recovered by the receiver |
| `Session.CheckedIsAcceptable` | libraries/aleth/libp2p/Session.cpp:151-159 | which messages the packet check lets through |
| `SessionLimits.SurvivesIff` | libraries/aleth/libp2p/Session.cpp:176-209 | an acceptable message survives splitting and reassembly exactly if it is shorter than 274 chunks of 15 MiB; a longer one is never delivered because the sent size wraps |
| `SessionLimits.FramesAre` | libraries/aleth/libp2p/Session.cpp:176-209 | all frames of a message one by one: how many there are, which bytes each carries, compressed or not, its sequence number and, in the first of several, the total modulo 2^32 |
| `SessionEndpoint.Endpoint.SplitAndPack` | libraries/aleth/libp2p/Session.cpp:176-209 | the counters updated in place and the frame written are those of the specification |
| `SessionEndpoint.Endpoint.Send` | libraries/aleth/libp2p/Session.cpp:161-174 | queueing is the send step of the machine, whatever is on the wire |
| `SessionEndpoint.Endpoint.OnWritten` | libraries/aleth/libp2p/Session.cpp:211-236 | a write completion is the written step of the machine |
| `SessionEndpoint.Endpoint.DoRead` | libraries/aleth/libp2p/Session.cpp:273-381 | reading one frame is the read step of the machine, and fails exactly when that does |
| `SessionRun.Converse` | libraries/aleth/libp2p/Session.cpp:161-381 | two session objects with a wire each way, under any interleaving, follow the two abstract runs and break off exactly if one of these does |
| `SessionRun.Talk` | libraries/aleth/libp2p/Session.cpp:161-381 | with crossed coders they never break off, and each delivers what the other was given, in order, and all of it once nothing is queued or on the wire |
| `Handshake.Run` | libraries/aleth/libp2p/RLPxHandshake.cpp:208-424 | under every interleaving of completions, timer expiries, timer handlers and cancel, the trace of callbacks is proper, the assertion on a started session is never violated, a handshake that is through has reported success, any other one is watched by a timer, and unless the owner cancels none is given up without a failure being reported |
| `Handshake.RunEnds` | libraries/aleth/libp2p/RLPxHandshake.cpp:231-250 | after any run, once the timer has run out and its handler was called, success was reported or the handshake was given up |
| `Handshake.ProperMeans` | libraries/aleth/libp2p/RLPxHandshake.cpp:208-424 | in a proper trace success is reported at most once, only after the keys, an authenticated Hello header and an authenticated Hello body, in that order, and never after cancel |
| `Handshake.RlpxHandshake.Handle` | libraries/aleth/libp2p/RLPxHandshake.cpp:231-250 | every completion moves an operation on; after success nothing more happens unless the owner cancels or a timer handler was already queued; such a handler reports a failure after the success |
| `Handshake.RlpxHandshake.Transition` | libraries/aleth/libp2p/RLPxHandshake.cpp:231-297 | one transition: the next state and the operation begun, or failure and cancellation |
| `Handshake.RlpxHandshake.OnKeyExchange` | libraries/aleth/libp2p/RLPxHandshake.cpp:45-206 | what every completion of the key exchange leads to, in either role and either format: the keys and the next operation, the same message read again as an EIP-8 one, a failure with its reason, or a handshake that hangs because the handler threw |
| `Handshake.RlpxHandshake.OnHeader` | libraries/aleth/libp2p/RLPxHandshake.cpp:297-350 | every ending of the read of the Hello header: the body is read exactly after an authenticated header of acceptable size, and otherwise TCPError, InternalError, FrameDecryptionFailure or ProtocolError is reported and the handshake given up |
| `Handshake.RlpxHandshake.OnBody` | libraries/aleth/libp2p/RLPxHandshake.cpp:351-420 | every ending of the read of the Hello body: success exactly for an authenticated body that parses as a Hello, and otherwise which failure is reported, a disconnect request and an exception of the host included |
| `Handshake.RlpxHandshake.OnHelloWritten` | libraries/aleth/libp2p/RLPxHandshake.cpp:273-297 | the header is read next, or the failure is reported |
| `Handshake.Undisturbed` | libraries/aleth/libp2p/RLPxHandshake.cpp:231-424 | with an answering peer both roles reach a started session, in the old and the EIP-8 format and whatever else the outcomes say, and by which operations: an EIP-8 message is answered in that format |
| `Handshake.LateTimer` | libraries/aleth/libp2p/RLPxHandshake.cpp:231-250 | a run in which the timer runs out just before the body arrives: success is followed by a timeout and by cancellation |
| `NodeTableLife.Lifetime` | libraries/aleth/libp2p/NodeTable.cpp:291-375 | for every run of a new table: the host is never in it; every node in it was proven at the very endpoint and with the very time that its entry shows, by a stored proof that was valid or by a Pong from there that echoes a ping which an earlier input had sent there and which was still outstanding, unless it was invalidated since; and unless it is a boot node every known node is in the bucket of its distance, so that there are at most 255 * 16 |
| `NodeTableLife.ProvenByInputs` | libraries/aleth/libp2p/NodeTable.cpp:257-277 | a proof on the record of a run is one by its inputs alone: the ping it answers was asked for at that endpoint by an earlier input, or drawn by one when some node had been proven there already |
| `NodeTable.Table.Run` | libraries/aleth/libp2p/NodeTable.cpp:377-428 | over any sequence of inputs the invariant is kept and the record is made of one part for each input, in order: what it was told by it, then only pings and timeouts that this input accounts for |
| `NodeTable.Table.Handle` | libraries/aleth/libp2p/NodeTable.cpp:377-428 | one input: a ping on record is the one that was asked for, or carries a hash that this input drew and goes to an endpoint where some node was proven |
| `NodeTable.Table.NoteActiveNode` | libraries/aleth/libp2p/NodeTable.cpp:291-344 | the new bucket, map and pings after activity, and exactly when a known node goes missing from its bucket: in boot-node mode, if a newcomer pushes out an entry that is still known |
| `NodeTable.DisplacedIsMissing` | libraries/aleth/libp2p/NodeTable.cpp:333-338 | popping the front of a full bucket breaks the listing exactly if the popped entry is still known |
| `NodeTable.Seen` | libraries/aleth/libp2p/NodeTable.cpp:311-341 | the bucket after an entry was seen: never overfull or with duplicates, the entry last, and only the oldest one ever missing |
| `NodeTable.SeenKeepsOrder` | libraries/aleth/libp2p/NodeTable.cpp:311-341 | all other entries of the bucket stay in their order, but for the oldest one if it had to go |
| `NodeTable.Table.HandlePong` | libraries/aleth/libp2p/NodeTable.cpp:430-473 | a Pong that does not echo the ping awaited from its endpoint changes nothing, not even the entry of its signer; one that does proves the endpoint of its signer, replaces a changed key, sets the time and, if it differs, the endpoint of the entry, and notes it as active with all that this means for bucket, map and pings, full bucket included |
| `NodeTable.Table.AddKnownNode` | libraries/aleth/libp2p/NodeTable.cpp:96-118 | a valid node that is not known yet is noted as active if its stored proof has not expired, with all that this means for bucket, map and pings, and is to be pinged if it has; any other changes nothing |
| `NodeTable.Table.AddNode` | libraries/aleth/libp2p/NodeTable.cpp:72-94 | exactly when a node that was heard of is pinged |
| `NodeTable.Table.HandlePing` | libraries/aleth/libp2p/NodeTable.cpp:585-627 | a node of another network or version is dropped from map and bucket; a valid known one is noted as active |
| `NodeTable.Table.HandleActivity` | libraries/aleth/libp2p/NodeTable.cpp:495-551 | other packets note a known node as active exactly if they come from its endpoint |
| `NodeTable.Table.Ping` | libraries/aleth/libp2p/NodeTable.cpp:257-277 | at most one ping per endpoint is outstanding, and only while the socket is open |
| `NodeTable.Table.DropNode` | libraries/aleth/libp2p/NodeTable.cpp:356-373 | a dropped node leaves bucket and map and nothing else |
| `NodeTable.Table.SweepTimeouts` | libraries/aleth/libp2p/NodeTable.cpp:708-731 | exactly the expired pings go, exactly the stale nodes at the pinged endpoint are dropped, from the map and from the buckets, which keep all other entries in order, and the replacements let in are exactly those whose node no ping before theirs has dropped, for whatever order the map has |
| `NodeTable.Table.HandleTimeout` | libraries/aleth/libp2p/NodeTable.cpp:708-731 | one expired ping: it goes, the node pinged leaves map and bucket exactly if it is stale and still at that endpoint, and the waiting entry is returned if the node was known |
| `NodeTable.Table.SavedIsActivated` | libraries/aleth/libp2p/NodeTable.cpp:708-731 | a replacement whose node no other ping of the sweep can drop is let in whatever the order |
| `NodeTableRuns.OrderDecides` | libraries/aleth/libp2p/NodeTable.cpp:708-731 | a run that leads to a sweep in which a replacement is lost in one order of two pings and saved in the other |
| `NodeTableRuns.BootNodeUnlists` | libraries/aleth/libp2p/NodeTable.cpp:333-338 | a run of a boot node told of 257 nodes at one distance, after which a known node is in no bucket |
| `NodeTable.Table.HandleTimeouts` | libraries/aleth/libp2p/NodeTable.cpp:708-736 | after a sweep only replacements of expired pings are new, and each saved admissible one is in its bucket or the bucket is full |
| `NodeTable.Table.InvalidateNode` | libraries/aleth/libp2p/NodeTable.cpp:346-354 | the proof of the node looks expired from then on; its endpoint stays |
| `NodeTable.Table.CountIsBounded` | libraries/aleth/libp2p/NodeTable.h:157-161 | a table that lists its nodes has no more of them than its buckets hold |
| `EndpointProofs.AnswerProves` | libraries/aleth/libp2p/NodeTable.cpp:430-446 | an answer to an outstanding ping is an endpoint proof of its signer, at the endpoint it came from and from that time on |
| `EndpointProofs.ProofLasts` | libraries/aleth/libp2p/NodeTable.h:403-405 | a proof is valid for 43200 seconds, and how the 32-bit clock cuts that short |
| `NearestNodes.NearestNodeEntries` | libraries/aleth/libp2p/NodeTable.cpp:232-255 | the multiset that is cut back after every insertion holds the first sixteen of all live entries in the stable order by distance |
| `NearestNodes.NearestMeans` | libraries/aleth/libp2p/NodeTable.cpp:232-255 | these are min(16, live) entries in ascending distance, and no live entry that is left out is nearer than any of them |
| `NearestNodes.AllLiveAre` | libraries/aleth/libp2p/NodeTable.cpp:237-249 | the entries considered are all live entries of all buckets and no others, each as often as it is there |
| `NearestNodes.SortedOrders` | libraries/aleth/libp2p/NodeTable.cpp:233-249 | the reference order is an ascending permutation |
| `NearestNodes.SortedIsStable` | libraries/aleth/libp2p/NodeTable.cpp:233-249 | equally distant entries keep their order of arrival |
| `NearestNodes.CutCommutes` | libraries/aleth/libp2p/NodeTable.cpp:245-248 | cutting off before an insertion loses nothing that would have stayed after it |
| `NearestNodes.Chunks` | libraries/aleth/libp2p/NodeTable.cpp:551-561 | the Neighbours packets concatenate back to the list; none is empty and all but the last are full |
| `NearestNodes.Chunk` | libraries/aleth/libp2p/NodeTable.h:571-576 | the slice that the packet constructor copies |
| `NearestNodes.HandleFindNode` | libraries/aleth/libp2p/NodeTable.cpp:548-561 | the packets of an answer carry the nearest entries, at most thirteen each |
| `NearestNodes.DatagramFits` | libraries/aleth/libp2p/NodeTable.h:590-608 | a signed datagram exceeds 1280 bytes exactly if it holds thirteen IPv6 neighbours with hardly any low port; with IPv4 alone it has at most 1136 |
| `NearestNodes.ThirteenV6AreTooLong` | libraries/aleth/libp2p/NodeTable.h:590-608 | thirteen IPv6 neighbours on ordinary ports make 1292 bytes |
| `NearestNodes.NeighbourSize` | libraries/aleth/libp2p/Common.cpp:126-135 | the exact encoded size of a neighbour |
| `NearestNodes.NeighbourOnWire` | libraries/aleth/libp2p/Common.cpp:126-135 | a receiver reads address, UDP port, TCP port and key, in that order |
| `Capabilities.RemoveIf` | libraries/aleth/libp2p/Host.cpp:236-243 | the in-place compaction, whose predicate reads the list it compacts, equals its step-by-step specification |
| `Capabilities.RemoveIfFilters` | libraries/aleth/libp2p/Host.cpp:236-243 | unless the host supports two versions of the empty name and another capability in the higher one, it is the stable filter: mutually supported and no higher mutual version in the original list |
| `Capabilities.ConfusionLosesOne` | libraries/aleth/libp2p/Host.cpp:236-243 | otherwise some list is filtered wrongly, for every such host |
| `Capabilities.AssignOffsets` | libraries/aleth/libp2p/Host.cpp:257-269 | ranges are handed out from 0x10 on, modulo 2^32, to the first of every name up to the first unsupported capability, where the session breaks off |
| `Capabilities.RangesDisjoint` | libraries/aleth/libp2p/Session.cpp:406-416 | while the ranges together end below 2^32 no packet belongs to two capabilities, and none below 0x10 to any |
| `Capabilities.EachPacketFound` | libraries/aleth/libp2p/Session.cpp:406-416 | and every packet of a negotiated capability is found to be its own |
| `Capabilities.RoutedIff` | libraries/aleth/libp2p/Session.cpp:406-416 | without repeated names, every packet finds its own capability and no other exactly if the ranges together end below 2^32 |
| `Capabilities.NoGaps` | libraries/aleth/libp2p/Session.cpp:406-416 | without repeated names every packet from 0x10 to the end of the ranges belongs to a capability |
| `Capabilities.RangeCoversIff` | libraries/aleth/libp2p/Session.cpp:411-412 | in 32-bit arithmetic a range covers its packets exactly if it ends below 2^32 and is lost as a whole otherwise |
| `Capabilities.CapabilityFor` | libraries/aleth/libp2p/Session.cpp:406-416 | the search, in any order, finds a capability exactly if some range holds the packet |
| `Capabilities.Negotiate` | libraries/aleth/libp2p/Host.cpp:236-269 | from the peer's list to the ranges of the filtered list |
| `StatusTable.Table.Get` | libraries/common/include/common/util.hpp:96-110 | a hit moves the entry to the front and returns its value |
| `StatusTable.Table.Insert` | libraries/common/include/common/util.hpp:115-130 | a new key goes to the front, after an overflow has dropped a batch; a cached one changes nothing |
| `StatusTable.Table.Update` | libraries/common/include/common/util.hpp:131-140 | a cached key gets the value and goes to the front |
| `StatusTable.Table.Erase` | libraries/common/include/common/util.hpp:161-171 | the entry goes; the result is false in every case |
| `StatusTable.Table.ClearOldData` | libraries/common/include/common/util.hpp:179-188 | the loop drops exactly the batch from the end and never the last entry |
| `StatusTable.RunIsOrdered` | libraries/common/include/common/util.hpp:91-194 | on every run the list holds each cached key once, in order of last use, with its last value |
| `StatusTable.StepMeans` | libraries/common/include/common/util.hpp:91-194 | what every operation does to the value of every key: only what is written, erased or evicted changes |
| `StatusTable.Execute` | libraries/common/include/common/util.hpp:91-194 | any operations on the mutable table end in the state of the abstract run |
| `StatusTable.RunIsBounded` | libraries/common/include/common/util.hpp:115-130 | no run exceeds the capacity if the batch is not empty, which holds for every capacity from ten on |
| `StatusTable.SmallTablesGrow` | libraries/common/include/common/util.hpp:179-188 | with an empty batch, as for every capacity below ten, insertions exceed any bound |
| `StatusTable.OverflowDropsOldest` | libraries/common/include/common/util.hpp:179-188 | an overflow drops a batch of keys all used before every key that stays |
| `StatusTable.BatchIsTenth` | libraries/common/include/common/util.hpp:180 | the batch is a tenth of the capacity |
| `StatusTable.AgreeUnlinked` | libraries/common/include/common/util.hpp:102-104 | erasing through an iterator removes exactly that key from list and map |
| `ExpirationCaches.CacheRunIsOrdered` | libraries/common/include/common/util.hpp:347-428 | with a delete step from 1 to the maximum plus one, on every run of insert, update, erase and clear the queue lists each cached key once in order of last refresh, with its last value, and the size stays within the maximum |
| `ExpirationCaches.CacheStepMeans` | libraries/common/include/common/util.hpp:347-428 | what every operation does to the value of every key: only what is written, erased or overflows changes |
| `ExpirationCaches.Execute` | libraries/common/include/common/util.hpp:347-428 | any operations on the mutable cache end in the state of the abstract run, and the queue is never popped empty |
| `ExpirationCaches.OverflowWorksIff` | libraries/common/include/common/util.hpp:473-478 | the first overflow works exactly for those delete steps; otherwise it exceeds the maximum or pops an empty queue |
| `ExpirationCaches.CacheMap.Insert` | libraries/common/include/common/util.hpp:361-381 | map and queue follow the specification |
| `ExpirationCaches.CacheMap.Update` | libraries/common/include/common/util.hpp:406-422 | the same for update, which refreshes the place in the queue |
| `ExpirationCaches.CacheMap.Erase` | libraries/common/include/common/util.hpp:424-428 | the same for erase |
| `ExpirationCaches.CacheMap.EraseOldest` | libraries/common/include/common/util.hpp:473-478 | the loop removes exactly the oldest entries |
| `BlockCaches.RunIsSound` | libraries/common/include/common/util.hpp:274-332 | on runs without erase and with block numbers that never fall, no cached key is older than the last block less the window and the size stays within the maximum |
| `BlockCaches.Execute` | libraries/common/include/common/util.hpp:274-332 | any operations on the mutable cache, erasures included, end in the state of the abstract run |
| `BlockCaches.ExpireFilters` | libraries/common/include/common/util.hpp:299-310 | on a queue ranked by block the loop over its front forgets exactly the keys that are too old |
| `BlockCaches.ExpireIs` | libraries/common/include/common/util.hpp:299-310 | on any queue the loop forgets exactly the longest run of entries at the front that are out of the window, and their keys |
| `BlockCaches.BlockCache.Insert` | libraries/common/include/common/util.hpp:289-320 | set, queue and last block follow the specification also when erase has left stale queue entries; the queue is never popped empty |
| `BlockCaches.BlockCache.Erase` | libraries/common/include/common/util.hpp:243-246 | the inherited erase leaves the queue entry behind |
| `BlockCaches.InsertedInWindowIff` | libraries/common/include/common/util.hpp:289-320 | an insertion leaves all queued keys in the window exactly if every accepted entry behind those that the overflow pops is in it, and all cached keys exactly if every such entry is whose key stays cached |
| `BlockCaches.WindowKeptIff` | libraries/common/include/common/util.hpp:289-311 | up to the overflow, from any state: a new key of a later block leaves all queued keys in the window exactly if no key that is too old stands behind one that is not, and a key of an earlier block exactly if they were and that block is in the window |
| `BlockCaches.OverflowRestoresWindow` | libraries/common/include/common/util.hpp:312-317 | a state in which the overflow pops a key that would have outlived the window |
| `BlockCaches.ExpireReachesIff` | libraries/common/include/common/util.hpp:299-310 | the loop over the front of any queue forgets all keys that are too old exactly if none of them stands behind one that is not |
| `BlockCaches.FallingBlocksHideOldKeys` | libraries/common/include/common/util.hpp:299-310 | block numbers that fall within the window already let an old key outlive it |
| `BlockCaches.EraseBreaksMaximum` | libraries/common/include/common/util.hpp:312-317 | with erase in the run the maximum can be exceeded |
| `BlockCaches.MaximumKeptIff` | libraries/common/include/common/util.hpp:312-317 | an insertion, erased keys in the queue included, stays within the maximum exactly if the accepted key did not exceed it or one of the entries then popped is still cached |
| `BlockCaches.OverflowUndoneIff` | libraries/common/include/common/util.hpp:312-317 | popping entries shrinks the cache exactly if one of them is still cached |
| `EndpointTracker.Tracker.Run` | libraries/aleth/libp2p/EndpointTracker.cpp:12-60 | on every run the statements are the last ones of their peers that were not collected, and the counts stay their histogram without zeros |
| `EndpointTracker.KeptIff` | libraries/aleth/libp2p/EndpointTracker.cpp:12-60 | told by the operations alone: a statement is kept exactly if its peer made no later one and no later collection found it too old |
| `EndpointTracker.Tracker.AddEndpointStatement` | libraries/aleth/libp2p/EndpointTracker.cpp:12-20 | the statement replaces the peer's former one and the result is the true support |
| `EndpointTracker.Tracker.RemoveStatement` | libraries/aleth/libp2p/EndpointTracker.cpp:52-60 | the source's assertion holds and the counts stay the histogram |
| `EndpointTracker.Tracker.GarbageCollectStatements` | libraries/aleth/libp2p/EndpointTracker.cpp:37-45 | the loop that erases while it walks keeps exactly the statements that are young enough |
| `EndpointTracker.Tracker.BestEndpoint` | libraries/aleth/libp2p/EndpointTracker.cpp:23-34 | no endpoint has more support than the result, and the first of several best ones is taken |
| `Sortition.ThresholdFromOutput` | libraries/common/include/common/vrf_wrapper.hpp:55-70 | the threshold is the least of seed * 48271^i mod 2^16 over the votes |
| `Sortition.ThresholdFalls` | libraries/common/include/common/vrf_wrapper.hpp:55-70 | more votes never raise it |
| `Sortition.ThresholdZero` | libraries/common/include/common/vrf_wrapper.hpp:55-70 | it is zero exactly for a zero seed |
| `Sortition.DifficultyInRangeIff` | libraries/vdf/src/sortition.cpp:20-34 | exactly which thresholds that are not stale have a difficulty from min to max + 1, wrap-around included |
| `Sortition.RoomyInRange` | libraries/vdf/src/sortition.cpp:20-34 | all of them do if the upper threshold T is at least n and n (n - 1) for n difficulties |
| `Sortition.DifficultyMonotone` | libraries/vdf/src/sortition.cpp:20-34 | a higher threshold never has a lower difficulty if stale is above max |
| `Sortition.DifficultyBands` | libraries/vdf/src/sortition.cpp:20-34 | below the upper threshold, difficulty min + k belongs exactly to the k-th of equally wide bands |
| `Sortition.StaleIff` | libraries/vdf/src/sortition.cpp:18-34 | the difficulty is the stale one exactly from the upper threshold on and, if stale is max + 1, in the band that the division leaves over |
| `Sortition.DefaultStale` | libraries/vdf/src/sortition.cpp:18-34 | with the default settings exactly from threshold 1000 on |
| `Sortition.ShareIs` | libraries/vdf/src/sortition.cpp:12-16 | the share is the proportion of the votes in thousandths, rounded down |
| `Sortition.PartIsCounted` | libraries/vdf/src/sortition.cpp:12-16 | below 2^64 / 1000 votes in all, the share of a part of them is at most 1000 and neither the 64-bit product nor the 16-bit parameter cuts it |
| `SortitionPeriod.CandidateRepeats` | libraries/common/include/common/vrf_wrapper.hpp:62-67 | the candidates repeat after 4096 votes |
| `SortitionPeriod.NeverRisesIff` | libraries/common/include/common/vrf_wrapper.hpp:55-70 | n votes never give a higher threshold than m, whatever the seed, exactly if m <= n, or m counts as one vote, or n is at least 4096 |
| `SortitionPeriod.MoreVotesNeverHarder` | libraries/vdf/src/sortition.cpp:12-16 | for the same output a node whose share meets that condition never gets a higher difficulty |
| `SortitionPeriod.CountedIsEnough` | libraries/vdf/src/sortition.cpp:12-16 | more of the votes do meet it, as long as the share is not cut |
| `SortitionPeriod.CutShareIsNotEnough` | libraries/common/include/common/vrf_wrapper.hpp:29 | a share that the 16-bit parameter cuts does not: with a thousand votes in all, 65536 count for none |
| `Sortition.VrfParams.Add` | libraries/vdf/src/config.cpp:9-26 | the change is clamped to 0x50 and 0xffff exactly unless it starts below 0x50 and stays there; then it is added as it is and may even wrap around |
| `FixedHash.Less` | libraries/aleth/libdevcore/FixedHash.h:117-124 | the byte-wise comparison is numeric order |
| `FixedHash.Increment` | libraries/aleth/libdevcore/FixedHash.h:152-156 | the in-place increment is + 1 modulo 256^N |
| `FixedHash.ToBigEndian` | libraries/aleth/libdevcore/CommonData.h:104-112 | the loop writes the last bytes of the number |
| `FixedHash.FixedDenotes` | libraries/aleth/libdevcore/CommonData.h:104-112 | which denote it modulo 256^N |
| `FixedHash.FixedOfValue` | libraries/aleth/libdevcore/CommonData.h:104-124 | bytes of any size are what their number is written as, so the conversions are inverse |
| `FixedHash.FromBigEndian` | libraries/aleth/libdevcore/CommonData.h:119-124 | the loop reads the number modulo the width of its type |
| `FixedHash.XorWith` | libraries/aleth/libdevcore/FixedHash.h:130-133 | exclusive or in place, also of an array with itself |
| `FixedHash.XorValue` | libraries/aleth/libdevcore/FixedHash.h:130-134 | the bytes of an exclusive or are those of the exclusive or of the numbers |
| `FixedHash.FirstBitSet` | libraries/aleth/libdevcore/FixedHash.h:262-272 | the index of the first bit set is the size in bits less the binary length of the number |
| `FixedHash.ComputeDistance` | libraries/aleth/libp2p/NodeTable.h:125-130 | the halving loop computes the distance |
| `FixedHash.DistanceIsFirstBit` | libraries/aleth/libp2p/NodeTable.h:125-130 | for different hashes of 32 bytes the distance is 255 less the first bit in which they differ |
| `FixedHash.DistanceUltrametric` | libraries/aleth/libp2p/NodeTable.h:125-130 | the distance is symmetric and no detour is shorter than its longer leg |
| `Bloom.BloomPart` | libraries/aleth/libdevcore/FixedHash.h:240-258 | the filter of one hash has exactly the bits set that its pointers point to |
| `Bloom.LogPointers` | libraries/aleth/libdevcore/FixedHash.h:240-258 | for a filter of 2048 bits the pointers are the low eleven bits of the first three pairs of bytes |
| `Bloom.ShiftBloom` | libraries/aleth/libdevcore/FixedHash.h:230-233 | adding a hash sets exactly those bits more |
| `Bloom.ContainsBloom` | libraries/aleth/libdevcore/FixedHash.h:235-238 | the test is true exactly if all of them are set |
| `Bloom.InsertAll` | libraries/aleth/libdevcore/FixedHash.h:230-238 | after any sequence of insertions every inserted hash is contained, and no bit is set without a reason |
| `Bloom.Contains` | libraries/aleth/libdevcore/FixedHash.h:158-159 | the mask comparison tests every bit |
| `Bloom.MaskIsRemainder` | libraries/aleth/libdevcore/FixedHash.h:254 | the mask is a remainder |
| `Base64.ToBase64` | libraries/aleth/libdevcore/Base64.cpp:53-90 | the encoder with its buffers of three and four equals the specification, padded or not |
| `Base64.FromBase64` | libraries/aleth/libdevcore/Base64.cpp:110-147 | the decoder equals the specification, up to the first character that is no digit |
| `Base64.TextDenotes` | libraries/aleth/libdevcore/Base64.cpp:36-90 | the text denotes, in base 64, the number of the bytes, followed by zero bits up to a whole digit; padding fills it up to a whole group |
| `Base64.DecodedDenotes` | libraries/aleth/libdevcore/Base64.cpp:110-147 | whatever the text, the bytes denote what its digits up to the first other character denote, less the bits of no whole byte |
| `Base64.DigitsAreStandard` | libraries/aleth/libdevcore/Base64.cpp:36-52 | the digits are those of table 1 of RFC 4648 |
| `Base64.DecodedEncoded` | libraries/aleth/libdevcore/Base64.cpp:36-147 | decoding undoes encoding for every byte string, across whole groups and both tails, padded or not |
| `Base64.PaddedLength` | libraries/aleth/libdevcore/Base64.cpp:75-87 | the padded text has 4 ceil(n / 3) characters |
| `Base64.UngroupGroup` | libraries/aleth/libdevcore/Base64.cpp:110-147 | a group of digits gives back its bytes, also when fillers stand for the missing digits |

## Left out

- RLP: conversions of items to strings, vectors, pairs, hashes and signed numbers, the lax flags of the reader, and `swapOut`/`reserve`.
- RlpStream.Writer: the buffer is a sequence that the methods reassign, so capacity and reallocation are not modelled.
- RLPx: ECIES, secp256k1, AES, Keccak and LZ4 themselves; the bytes of auth and ack messages (their decryption is an outcome); disconnect packets, ping and peer bookkeeping.
- Session: sockets deliver bytes in order and completely; partial writes and TCP errors are not modelled.
- Session.ReadKeeps: a frame that fails to decompress is taken to end the connection; the source compares the length it gets with zero as an unsigned number, and what it does with a negative one is not modelled.
- Handshake: what the peer answers is an outcome chosen at each completion, and the strand is modelled as interleaved atomic steps.
- NodeTable: discovery rounds, ENR packets, the table of IP mappings, the event queue and the external UDP port of a node.
- NodeTable.Table.Run: scheduled pings are inputs that may come at any time for any node, which includes all that the source schedules.
- NodeTable.Table.HandleTimeouts: steady clock and wall clock are read as one time in seconds.
- NodeTable.Table.HandleActivity: a FindNode or ENR request also needs an unexpired proof before it counts as activity, a condition that noting the entry repeats; unsolicited Neighbours and the nodes they carry are inputs of their own.
- NodeTableLife.Lifetime: takes for granted, as the bucket index does, that the hashes of other nodes differ from the host's above the last bit.
- ExpirationCaches: `updateWithGet` and `update` with an expected value, which leave duplicate queue entries; likewise `StatusTable::update` with an expected value.
- BlockCaches: `ExpirationCache` on its own differs from the block number cache without blocks only in the queue's element type and is not repeated.
- Caches and trackers: locks are modelled as atomic operations.
- Sortition.ThresholdFromOutput: the product of two 16-bit numbers is taken modulo 2^16, also where it exceeds the signed 32-bit range in which the source computes it.
- Sortition.VrfParams.Add: the least 32-bit change has no absolute value and is excluded.
- Sortition: proving and verifying VRF and VDF.
- Bloom.BloomPart: pointers of at most 32 bits, the width of the source's index.
- Base64: the URL-safe alphabet, which the decoder does not accept.
- FixedHash: `SecureFixedHash`, hexadecimal and random constructors.
- Storage, JSON-RPC, PBFT, DAG, vote and final-chain managers are not part of this model.
