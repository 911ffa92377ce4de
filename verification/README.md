# libnfs: transport, paths, codec and chunked I/O

libnfs is a client library for NFS: an ONC-RPC transport over TCP with an NFS layer on top. This project models
four of its parts and proves properties of them for every input, every interleaving and every way in which the
network cuts the bytes.

**The TCP client transport** (`Bytes`, `Streams`, `Iovec`, `Transport`, `Reader`, `Conservation`,
`QueueInvariants`, `Timeouts`, `ScanOutcome`, `Runs`, `Service`, `Interleaving`, `WireReplies`, `DoubleCallback`,
`BrokenRuns`, `Gathering`, `Context`, `LinkedQueue`).
`Transport` gives each step of the transport (queue, partial `writev`, partial `recv`/`readv`, timeout scan,
reconnect, purge) as a function on values; the environment picks how many bytes each call moves, the clock, the
replies and whether connecting works. `Runs` proves invariants of every run of these steps. `Context` is
`struct rpc_context` as a class whose methods update its fields in place; each method is proved equal to the step
of `Transport`, so the theorems about runs are about the methods. `LinkedQueue` does the same for the intrusive
lists, and `IovecCursor` for the scatter cursor. A PDU carries an identity (`id`), and the log of callbacks says
what each callback saw. Two flags of the model's state mark the situations in which the code gives a guarantee
up: `torn` (a half-sent head was taken off the out queue) and `poisoned` (a reply to a zero-copy READ was refused and
not dropped at once, or did not decode, or decoding went astray; `Runs.PoisonedIff`).

**Zero-copy WRITE** (`Writev`), on real memory: the out vectors point into the caller's arrays.

**Paths and lookup** (`Paths`, `Normalize`, `Resolver`, `Lookup`). The in-place rewriting of a NUL-terminated
buffer is compared with a stack of components; the chain of LOOKUP and READLINK callbacks with a resolver on
components (sections 3.3.3 and 3.3.5 of RFC 1813).

**Codec and chunked I/O** (`ZdrFormat`, `ZdrWire`, `Zdr`, `ChunkedIo`). One routine per type encodes or decodes (RFC 4506);
chains of READ and WRITE calls are compared with one big operation.

Where the code does not do what its comments or names promise, the model follows the code:

- A reply that refuses a zero-copy READ makes the error callback run and then, because the reader looks for a data
  length that is not there, puts the PDU back for retransmission; it is called back twice
  (`DoubleCallback.OneReadTwoCallbacks`). `Conservation.FinishPayloadConservesIff` says exactly when a reply
  conserves its PDU.
- The comment at include/libnfs-private.h:295-307 says that only the head of the out queue can be half-sent and that
  nothing is put before it. Both hold in every run, but a half-sent head can be removed, for example by a late reply
  to an earlier transmission, and then the stream of records is broken (`QueueInvariants.RemoveFramedIff`,
  `BrokenRuns.LateReplyBreaksStream`).
- Purging does not reset the in-flight counter (`Runs.PurgeCountedIff`, `BrokenRuns.CounterLeftBehind`).
- A reply to a zero-copy READ whose header or READ3 result does not decode makes the reader use a result that is not
  there; the model stops in a state `Crashed` (`Runs.CrashedIff`).
- The codec adds a length to its position as a C `int`. A length of 2^31 or more always passes the bounds test and
  takes the position back (`ZdrFormat.LengthTest`). In a reply header the model follows the position while it stays
  in the buffer (`Runs.VerifierStepsBack`) and stops when it does not (`Runs.AstrayIff`); in other items it stops.
- The time since the last success is stored in a C `int`: between 2^31 and 2^32 milliseconds of silence no scan asks
  for a reconnect (`ScanOutcome.LongSilence`).
- The vectored NFSv4 WRITE does not look at the result of encoding the data length. When header and arguments fill the
  encode buffer to the last byte, the length word is missing and its vector points behind the buffer
  (`Writev.WritevTask`, `Writev.LengthWordLost`).
- The array codec forms the size of the memory for decoded elements in an `int`. From about 2^31 bytes on the
  allocation fails unnoticed or is too small, although the count is accepted (`ZdrFormat.ArrayRoundTrip`,
  `ZdrFormat.ArrayTooLarge`). The encoder's element loop compares with the count converted to `int`: arrays of 2^31
  elements or more are encoded without their elements (`ZdrFormat.EncArray`).
- The vectored NFSv4 WRITE sizes its vector table by the number of user vectors and then needs four or five slots
  more, so it succeeds with at most four user vectors (`Writev.SlotsFitIff`).
- An absolute symbolic link in the middle of a path replaces the whole path; the components behind it are lost
  (`Resolver.TargetKeepsRestIff`, `Resolver.InnerAbsoluteLinkLosesRest`).
- `nfs_read_async` does not move the file position when the count is at least `readmax` (`ChunkedIo.Read`).
- The comment in `nfs3_pwrite_async_internal` speaks of chunks sent in parallel; the count is cut to `writemax`
  before, so there is one WRITE at a time.

## Model

| member | source | states |
|---|---|---|
| Runs.AtMostOnce | lib/socket.c:539-556 | In every run in which no reply to a zero-copy READ was refused without being dropped at once or undecodable, and no reply header went astray, a PDU that was ever queued is in exactly one queue, bucket or reader slot and not yet called back, or it is nowhere and was called back exactly once; a PDU never queued is nowhere |
| Runs.OutgoingFraming | include/libnfs-private.h:295-307 | In every run only the head of the out queue is ever half-sent, and the bytes the socket of the current connection accepted are whole records followed by a prefix of the head's record of length `num_done` if and only if no half-sent head was taken off the queue |
| Runs.InFlight | lib/socket.c:342-344 | In every run `waitpdu_len` respects a non-zero limit, equals the number of waiting PDUs until the context is closed, and every waiting PDU is in the bucket of its xid |
| Runs.ZeroCopyDelivery | lib/init.c:689-809 | In every run, short reads, other traffic and half-read attempts undone by reconnects included, the callback of a zero-copy READ finds in the user's buffers exactly the bytes that were received as its data |
| Service.ReadReplyDelivered | lib/socket.c:906-993 | After every run that leaves the reader at a record boundary, the bytes of a READ reply on the wire, however they are cut, make one callback, of the waiting PDU with the reply's xid, which finds exactly the data bytes of that reply (none for a READ error) in the user's buffers; no other byte of memory changes |
| Interleaving.InterleavedDelivery | lib/socket.c:656-998 | A well-formed record that arrives piece by piece, with new PDUs, partial writes and scans that ask for no reconnect in between, has the effect of its payload delivered at once: the same reader, the same user memory, the same callbacks besides timeouts |
| Interleaving.InterleavedReadReply | lib/socket.c:906-993 | In every run, a READ reply read in that company makes one callback besides timeouts, of the waiting PDU with the reply's xid, which finds exactly the reply's data in the user's buffers; no other byte of memory changes |
| WireReplies.ReadReplyOnTheWire | nfs/nfs.c:242-270 | A READ reply written out from its fields - any verifier, attributes or none, any count and end-of-file flag, with everything before the data within the first 1024 bytes - after any run and in any pieces: one callback with SUCCESS, of the waiting PDU, finds exactly the data in the user's buffers, no other byte of memory changes, and the reader is at a record boundary |
| WireReplies.ReadReplyInCompany | lib/socket.c:656-998 | The same written-out READ reply, read with new PDUs, partial writes and scans in between |
| WireReplies.ReadErrorOnTheWire | lib/socket.c:907-917 | A written-out READ reply with an error status: one callback without data, memory unchanged |
| WireReplies.AcceptedOnTheWire | lib/libnfs-zdr.c:490-545 | A written-out accepted reply to an ordinary PDU, with any verifier, status and results: one callback with the reply, SUCCESS if and only if the status is zero and the results decode, and only then a sign of life |
| WireReplies.DeniedOnTheWire | lib/libnfs-zdr.c:551-578 | A written-out denied reply to an ordinary PDU: one callback with ERROR, and no sign of life |
| WireReplies.DeniedReadOnTheWire | lib/pdu.c:858-867 | A written-out denied reply to a zero-copy READ: the error callback runs and the reader fails while it still holds the PDU |
| WireReplies.UnknownOnTheWire | lib/socket.c:876-879 | A reply that nobody waits for is drained whole and changes nothing |
| Runs.MarkerRefusedIff | lib/socket.c:776-866 | The reader refuses exactly fragments that are not the last, records below 8 bytes or above 8 MiB, and records above 4 MiB and 4096 bytes that do not answer a zero-copy READ |
| Runs.RepliesMatch | lib/socket.c:803-812 | In every run a callback that gets a buffered reply gets one that carries the xid of its own PDU |
| Runs.CrashedIff | lib/socket.c:907-917 | The model stops on a complete payload if and only if it is for a zero-copy READ and its header or READ3 result does not decode, or its header goes astray |
| Runs.CrashReports | lib/pdu.c:850-866 | Before the reader stops on an undecodable reply to a zero-copy READ the error callback runs, with the PDU still held |
| Runs.AstrayIff | lib/libnfs-zdr.c:196-226 | Decoding a reply header goes astray if and only if the message is a CALL, or an accepted reply with a verifier length from 2^31 to 2^32 - 24 |
| Runs.SoundVerifier | lib/libnfs-zdr.c:196-226 | A verifier length below 2^31 is checked against the end of the buffer, and decoding goes on behind the verifier |
| Runs.StatusDecides | lib/libnfs-zdr.c:490-545 | With a verifier length below 2^31 a reply is accepted if and only if its accept status is there and zero; any other status is refused where the code stops reading |
| Runs.VerifierStepsBack | lib/libnfs-zdr.c:200-223 | A concrete header with a verifier length of 2^32 - 8: the test passes, the position steps back, and an earlier word is taken for the accept status |
| Runs.PoisonedIff | lib/pdu.c:823-1040 | The flag that `AtMostOnce` asks about is raised exactly by the replies that do not conserve and by those that go astray |
| Runs.Retransmissions | lib/socket.c:1112-1163 | In every run a waiting PDU has been put back by fewer than `retrans` scans since its major deadline was set |
| Runs.ReconnectBound | README:116-124 | With `auto_reconnect = n > 0` at most n attempts are made between two connected states of any run |
| Runs.RequeueAll | lib/socket.c:1767-1835 | Requeueing moves every live PDU to the out queue once, unsent and with its cursor reset, empties the wait table and its counter, and leaves the reader at a record boundary on a new connection |
| Runs.GivingUp | lib/socket.c:1836-1852 | When the attempts are used up every live PDU gets exactly one error callback, nothing stays live, and every new callback is an error |
| Runs.ReconnectGoesOn | lib/socket.c:1836-1848 | With no limit, or with a limit and a link that was up or attempts left, and connecting that works, a reconnect makes no callback, moves every live PDU to the out queue unsent, and counts the attempt, from zero if the link was up |
| Runs.ReconnectGivesUp | lib/socket.c:1774-1778 | In all other cases every queued or waiting PDU, and unless reconnecting is disabled the half-read one, gets exactly one error callback and nothing stays queued |
| Runs.PurgeCountedIff | lib/init.c:417-480 | After a purge the in-flight counter is right if and only if it was zero before |
| Runs.RunInv | lib/socket.c:1190-1372 | The transport invariant (sound queues, reader consistent with user memory, counter, retry budget, one place per PDU) holds in every state of every run |
| Runs.StepHealthy | lib/socket.c:1190-1372 | Every single step keeps the queue, reader, counter and retry invariants |
| Runs.StepConserves | lib/socket.c:430-464 | Only queueing changes how often an id occurs in queues, reader and callback log, and it adds exactly the new PDU |
| Runs.SendAllIsRun | lib/socket.c:342-465 | The write loop, taken as a whole, is a run of single write events |
| Service.FeedIsRun | lib/socket.c:656-998 | The read loop over any stream, with the reconnect that follows a failure, is a run of single read events |
| Conservation.FinishPayloadConservesIff | lib/pdu.c:823-1040 | Unless its header goes astray, processing a complete reply keeps the number of places and callbacks of its PDU if and only if the PDU is not a zero-copy READ, or the reply is an accepted decodable READ reply, or it is refused and dropped in the same step |
| Conservation.ReconnectConserves | lib/socket.c:1767-1852 | A reconnect, whatever its outcome, neither loses nor duplicates a PDU or callback |
| Conservation.FindConserves | lib/pdu.c:1202-1274 | Taking a PDU off by xid removes it from the queues exactly once |
| Conservation.PurgeConserves | lib/init.c:417-480 | A purge turns every queued or waiting PDU into one callback and leaves none queued |
| Conservation.SendConserves | lib/socket.c:430-464 | Accounting for accepted bytes only moves PDUs between the out queue and the wait table |
| DoubleCallback.CalledBackTwice | lib/socket.c:912-922 | Every refused reply to a zero-copy READ that ends with its header leads, if the reconnect fails at once, to two callbacks of the same PDU |
| DoubleCallback.OneReadTwoCallbacks | lib/pdu.c:858-867 | A concrete run from an initial state: one READ queued, sent, denied, and called back twice |
| BrokenRuns.LateReplyBreaksStream | lib/pdu.c:1217-1232 | A concrete run from an initial state: a PDU is sent, times out, is half-sent again, and the reply to its first transmission takes it off the queue; a byte on the wire then belongs to no record |
| BrokenRuns.CounterLeftBehind | lib/init.c:454-477 | A concrete run from an initial state: the reader fails while a PDU waits and reconnecting is disabled; nothing waits any more and the counter is one |
| QueueInvariants.FindAgreesWithFlatTable | lib/pdu.c:1237-1260 | With hashed buckets, an xid is found if and only if a PDU with that xid is queued or waiting anywhere, and what is found has it |
| QueueInvariants.AccountExact | lib/socket.c:430-464 | Accounting for n accepted bytes completes the head's record, then whole records, then a prefix of the new head; exactly n pending bytes go |
| QueueInvariants.AccountCovers | lib/socket.c:403-407 | A `writev` that covers k PDUs completes at most k, so the in-flight limit survives multi-PDU writes |
| QueueInvariants.RemoveFramedIff | lib/pdu.c:1217-1232 | Taking a PDU off the out queue keeps the stream of records whole if and only if it is not a half-sent head |
| QueueInvariants.SendOk | lib/socket.c:342-465 | A partial write keeps hashing, counting, the limit and framing |
| QueueInvariants.FindOk | lib/pdu.c:1202-1274 | A reader's lookup keeps the queue invariants and the counter and returns a PDU with its cursor at the start |
| Timeouts.ScanPartition | lib/socket.c:1019-1188 | A scan at time t loses and duplicates nothing and leaves every queued non-zero minor deadline and every bucketed deadline later than t |
| Timeouts.ScanCallbacks | lib/socket.c:1085-1175 | The callbacks of a scan are exactly the TIMEOUT callbacks of the queued PDUs past their minor deadline and the waiting PDUs past either deadline that must not be retried |
| Timeouts.ReconnectOnlyIfSilent | lib/socket.c:1112-1163 | A scan asks for a reconnect only if a retryable PDU reached its major deadline and the last success is older than `timeout` |
| ScanOutcome.ReconnectAskedIff | lib/socket.c:1027-1157 | A reconnect is asked for if and only if some PDU in some bucket may be retried, has deadlines and is past its major one, and the last success is older than the timeout; with no success yet, if and only if in addition the timeout is below -1 |
| ScanOutcome.LongSilence | lib/socket.c:1027-1029 | From 2^31 up to 2^32 milliseconds after the last success no scan asks for a reconnect |
| ScanOutcome.BucketAfterScan | lib/socket.c:1112-1175 | After a scan a bucket holds exactly those of its PDUs, unchanged, that have no deadline or none that has passed |
| ScanOutcome.OutQueueAfterScan | lib/socket.c:1060-1163 | After a scan the out queue holds exactly the queued PDUs that are not past their minor deadline, those that are past it and may be retried with new deadlines, and the waiting ones that are put back |
| ScanOutcome.NewPduIs | lib/pdu.c:522-573 | A new PDU is due one timeout from now and finally `retrans` timeouts from now, never before the former |
| ScanOutcome.DeferredIs | lib/socket.c:1070-1090 | A PDU that was not sent in time gets both deadlines anew and changes in nothing else |
| ScanOutcome.RetriedIs | lib/socket.c:1126-1163 | A PDU that is put back is due one timeout from now, keeps its major deadline unless that has passed, and is sent from its first byte into untouched buffers |
| Timeouts.RetransmissionBound | lib/pdu.c:522-573 | Whenever a scan puts a PDU back it is at most the `retrans`-th time since its major deadline was set, and a new major deadline is set exactly when the old one has passed |
| Timeouts.SweptOk | lib/socket.c:1019-1188 | A scan keeps the queue invariants, the limit and the counter |
| RecordReader.SplitIndependence | lib/socket.c:656-772 | Two ways of cutting the same bytes into `recv`/`readv` results leave the same state, callbacks and user memory, for arbitrary bytes |
| RecordReader.RecordDelivery | lib/socket.c:775-993 | Every well-formed reply - to an ordinary PDU unless its header goes astray, a READ reply with data or with an NFS error, or one nobody waits for - consumes exactly four bytes and its payload, and has the effect of the payload delivered in one piece; an ordinary callback gets SUCCESS if and only if the header is accepted and the results decode |
| RecordReader.StreamDelivery | lib/socket.c:656-998 | Any stream of well-formed replies, however cut, ends in the state reached by delivering the replies whole one after the other |
| RecordReader.DeliveredBuffers | lib/socket.c:906-993 | A delivered READ leaves its data in the user's buffers at the time of the callback and changes no other byte of memory |
| Streams.SplitIndependence | lib/socket.c:656-772 | For any byte machine that obeys the split law, the state after a stream depends only on its bytes |
| Iovec.GatherScatter | lib/init.c:757-786 | With distinct addresses in memory, what is scattered is what is read back |
| Iovec.IovecCursor.Advance | lib/init.c:689-720 | The remaining addresses lose exactly their first `len`; the reference copy is untouched |
| Iovec.IovecCursor.Shrink | lib/init.c:722-755 | The remaining addresses become their first `new_len`; the reference copy is untouched |
| Iovec.IovecCursor.Memcpy | lib/init.c:757-786 | The bytes land at the next addresses, nothing else in memory changes, and the cursor moves past them |
| Iovec.IovecCursor.Reset | lib/init.c:788-809 | After any mix of operations the cursor is again the caller's flat buffer |
| Iovec.IovecCursor.constructor | nfs4/nfs4.c:297-311 | The set-up loop makes a cursor whose remaining and reference addresses are the caller's buffers in order |
| Iovec.IovecCursor.CountAgreesWithSize | lib/init.c:710-713 | The closing assertion of the cursor operations holds for non-empty buffers, and in general exactly when no iovec or some byte is left |
| Gathering.GatherVectors | lib/socket.c:370-407 | The coalesced vector array is a non-empty prefix of the pending bytes of the covered PDUs, all of them if there is vector room, never more PDUs than allowed, and merged vectors are contiguous memory |
| Gathering.GatherPdu | lib/socket.c:375-402 | One PDU adds a prefix of its own pending bytes behind what was gathered, all of them unless the vectors are used up |
| Context.RpcContext.WriteToSocket | lib/socket.c:317-480 | For any results of successive `writev` calls the queues become those after accounting for exactly what each call accepted, which is what the socket is ready for, cut to what was offered; offered is a non-empty prefix of the pending bytes of as many PDUs as the in-flight limit leaves room for, and all of them if there are vectors enough; the loop stops only for a blocked or broken socket, an empty queue, the limit or the end of the results, and fails exactly for a broken one |
| Context.RpcContext.ReadFromSocket | lib/socket.c:656-998 | For any cuts the context becomes the reader fed with exactly the consumed prefix of the stream; failure is returned exactly when the reader failed |
| Context.RpcContext.TimeoutScan | lib/socket.c:1019-1188 | The scan equals the specified sweep, or does nothing when the last one is at most a second old; it asks for a reconnect if and only if it does not come too soon, some waiting PDU that may be retried is past its major deadline, and the last success, less than 2^31 milliseconds ago, is older than the timeout |
| Context.RpcContext.ReconnectRequeue | lib/socket.c:1767-1852 | Equals the specified reconnect and keeps the invariant; it succeeds if and only if connecting works and there is no limit, or a limit above zero and a link that was up or attempts left; then no callback runs, and else no PDU stays queued |
| Context.RpcContext.ErrorAllPdus | lib/init.c:417-485 | Calls back every queued and waiting PDU once, in order, and empties the queues |
| Context.RpcContext.FindPdu | lib/pdu.c:1202-1274 | Takes the first PDU with the xid off the out queue or off the bucket of the xid |
| Context.RpcContext.QueuePdu | lib/pdu.c:654-690 | The out queue gets one PDU more, at its end, with all others before it unchanged: the caller's PDU, unsent, with its cursor at the start and both deadlines from now on; the invariant is kept |
| Context.RpcContext.ReturnToOutqueue | lib/pdu.c:102-128 | Puts a PDU right behind the head, never before it, unsent and with its cursor reset; the order of the others stays |
| Context.RpcContext.AccountFor | lib/socket.c:430-464 | The in-place accounting loop equals the specified send |
| Context.RpcContext.FinishedPdu | lib/socket.c:539-556 | Makes the owed callback of a zero-copy READ and returns to a record boundary |
| Context.RpcContext.ServiceTimer | lib/socket.c:1190-1203 | The timer part of a service call is one timer step and keeps the invariant; unless reconnecting is disabled the connection is dropped if and only if the scan asks for it, under the condition in deadlines |
| Context.RpcContext.ServiceInput | lib/socket.c:1309-1331 | The input part of a service call feeds the stream and reconnects exactly on a reader error; without one it does nothing else |
| Context.RpcContext.ServiceOutput | lib/socket.c:1348-1356 | The output part of a service call is a sequence of admissible sends, with a reconnect exactly if the socket breaks while there is something to send |
| Context.RpcContext.ReconnectCb | lib/socket.c:1719-1733 | A new connection only brings the link up; a failed one is a failed connection attempt of the state machine, that is, another reconnect |
| LinkedQueue.RpcQueue.Enqueue | lib/pdu.c:78-100 | Relinking at the tail appends to the sequence of PDUs and keeps head, tail and links consistent |
| LinkedQueue.RpcQueue.ReturnAfterHead | lib/pdu.c:102-128 | Relinking behind the head inserts the rewound PDU at position one of the sequence |
| LinkedQueue.RpcQueue.Remove | lib/pdu.c:135-190 | Unlinks the node if and only if it is in the queue; the other PDUs keep their order |
| LinkedQueue.RpcQueue.FindXid | lib/pdu.c:1217-1260 | Finds and unlinks the first node with the xid, or leaves the queue as it is |
| Writev.WritevTask | nfs4/nfs4.c:338-422 | Succeeds if and only if there is a user vector, header and arguments fit the encode buffer and the vector slots suffice; then the vectors lie inside their memory if and only if header and arguments leave room in the encode buffer, and if so, flattened they are the marker with the exact length, the marshalled header and arguments, and the section 4.10 RFC 4506 opaque of the concatenated user data, whose vectors are the caller's own |
| Writev.LengthWordLost | nfs4/nfs4.c:390-396 | A concrete call whose header and arguments fill the encode buffer: it succeeds with a vector that points behind the buffer |
| Writev.SlotsFitIff | lib/pdu.c:316-326 | The slots suffice if and only if there are at most three user vectors, or four with aligned data |
| Writev.Marshal | nfs4/nfs4.c:368-392 | Header and arguments are in the encode buffer exactly when they fit; the length word follows them unless they fill the buffer, and then it is not there and the position does not move |
| Writev.Seal | lib/pdu.c:654-690 | The record marker gets the summed length of the vectors behind it and nothing else changes on the wire; all vectors lie inside their memory if and only if the length word lies in the encode buffer |
| Writev.RecordMarker | lib/pdu.c:688-690 | The marker of a record has its highest bit set and holds the length of what follows |
| Writev.IoVectors.Add | lib/init.c:668-682 | A vector is added if and only if there is capacity |
| Normalize.NormalizePath | lib/libnfs.c:1327-1426 | The rewriting terminates and succeeds if and only if the path is absolute and its components never pop below the root; the buffer then spells exactly the resulting stack (the root as "/" or "") |
| Normalize.DropEmpties | lib/libnfs.c:1333-1339 | Removes every "//" in place without changing the meaning |
| Normalize.DropDots | lib/libnfs.c:1341-1347 | Removes every "/./" in place without changing the meaning or bringing back "//" |
| Normalize.DropNames | lib/libnfs.c:1364-1382 | Removes every "/name/../" in place without changing the meaning, or reports that the path leaves the root |
| Normalize.Finish | lib/libnfs.c:1384-1423 | Works off a closing "/", "/." or "/.." and fails exactly when the path has no meaning |
| Paths.CleanIsRendered | lib/libnfs.c:1327-1426 | A path in which no pattern is left is the rendering of its own component stack |
| Paths.DropDotDot | lib/libnfs.c:1374-1382 | A name followed by ".." cancels wherever it stands |
| Paths.ResolveRender | lib/libnfs.c:1327-1426 | The path spelled from a stack of plain names resolves to that stack, so normal forms are fixed points |
| Paths.RenderInjective | lib/libnfs.c:1327-1426 | Two paths have the same normal form if and only if they resolve alike |
| Lookup.LookupPath | lib/nfs_v3.c:462-567 | An absolute path starts if and only if it resolves, any other if and only if the working directory is absolute or empty and resolves and walking the path from there stays below the root; it is looked up as that stack, the empty path as the working directory; a started lookup makes exactly one callback, the resolver's outcome, after at most 40 READLINKs, and reports too many links only with O_NOFOLLOW or after 40, on every static server |
| Lookup.LookupData.Internal | lib/nfs_v3.c:320-424 | Issues the next request or reports, keeping the outcome that the resolver predicts, with (links left, components left) decreasing |
| Lookup.LookupData.OnLookup | lib/nfs_v3.c:278-318 | A LOOKUP reply keeps the predicted outcome and makes progress |
| Lookup.LookupData.OnGetattr | lib/nfs_v3.c:426-459 | The attributes of the root, fetched for the empty path, keep the predicted outcome and make progress |
| Lookup.LookupData.OnReadlink | lib/nfs_v3.c:159-255 | A READLINK reply keeps the predicted outcome and uses up link fuel |
| Lookup.LookupData.Start | lib/nfs_v3.c:462-567 | A relative path is walked from where the working directory resolves; the lookup starts if and only if that stays below the root |
| Lookup.RelativeTarget | lib/nfs_v3.c:213-235 | The path built for a relative link is the link's text and the rest of the path, resolved in the directory that holds the link |
| Lookup.AbsoluteTarget | lib/nfs_v3.c:189-212 | An absolute link counts only inside the export, and its part behind the export is resolved from the root |
| Lookup.LinkIntoExport | lib/nfs_v3.c:189-197 | A link that is the export followed by nothing or a slash leads to what follows the export |
| Lookup.LinkOutsideExport | lib/nfs_v3.c:198-209 | Every other absolute link leads nowhere |
| Resolver.FollowReaches | lib/nfs_v3.c:320-424 | A handle handed over is reached from the root by LOOKUPs alone, and is a link only if the caller asked not to follow the last one |
| Resolver.FollowLinkFree | lib/nfs_v3.c:373-423 | Without links the lookup is the plain descent through the components |
| Resolver.FollowRefused | lib/nfs_v3.c:334-340 | With O_NOFOLLOW a lookup succeeds if and only if it meets no link |
| Resolver.FinalLink | lib/nfs_v3.c:341-371 | A final link is handed over as it is if the caller asked for that, and else followed while fewer than 40 links have been |
| Resolver.TargetKeepsRestIff | lib/nfs_v3.c:187-238 | The new path after a link is the one a full resolver would take if and only if the link is relative, leads nowhere, or is the last component |
| Resolver.FollowIsReference | lib/nfs_v3.c:187-248 | If no absolute link that leads somewhere is met before the last component, the outcome is that of a resolver that always keeps the rest |
| Resolver.InnerAbsoluteLinkLosesRest | lib/nfs_v3.c:191-197 | A concrete server on which looking up "/l/x" ends at a directory instead of the file "x" in it |
| ZdrFormat.ExportsRoundTrip | mount/libnfs-raw-mount.c:132-156 | Every export list with nested groups decodes from its encoding to itself, with the end position behind it |
| ZdrFormat.GroupsRoundTrip | mount/libnfs-raw-mount.c:108-130 | The same for group lists |
| ZdrFormat.CallRoundTrip | lib/libnfs-zdr.c:449-488 | Every CALL header decodes from its encoding to itself, with the end position behind it |
| ZdrFormat.OpaqueRoundTrip | lib/libnfs-zdr.c:191-228 | Counted bytes with padding come back, with an aligned end |
| ZdrFormat.LengthTest | lib/libnfs-zdr.c:200-202 | The bounds test passes if and only if the bytes are there or the length is 2^31 or more; in the second case the position goes back to where it was or before, and before exactly for lengths up to 2^32 - 4 |
| ZdrFormat.HyperRoundTrip | lib/libnfs-zdr.c:161-184 | 64-bit integers come back |
| ZdrFormat.ArrayRoundTrip | lib/libnfs-zdr.c:342-370 | For any element routine that round-trips and any count that is accepted, an array comes back if and only if the memory for its elements and a block header is below 2^31 bytes; otherwise decoding is lost |
| ZdrFormat.ArrayTooLarge | lib/libnfs-zdr.c:111-125 | A count of 2^30 elements of two bytes is accepted and its allocation is not sound |
| ZdrFormat.InPlaceIsCopy | lib/libnfs-zdr.c:317-336 | A string read in place in front of a zero byte is the string read from a terminated copy |
| ZdrWire.HyperOrder | lib/libnfs-zdr.c:161-184 | A 64-bit integer is eight bytes, the most significant first |
| ZdrWire.OpaqueLayout | lib/libnfs-zdr.c:191-228 | Counted bytes are the length word, the bytes, and fewer than four zeros up to the next word |
| ZdrWire.GroupsOnTheWire | mount/libnfs-raw-mount.c:108-130 | A group list is each name behind the word 1, and the word 0 |
| ZdrWire.ExportsOnTheWire | mount/libnfs-raw-mount.c:132-156 | An export list is, behind the word 1, each directory and its groups, and the word 0 |
| ZdrWire.CallOnTheWire | lib/libnfs-zdr.c:449-488 | A CALL header is xid, 0, RPC version, program, version, procedure, credential and verifier, word by word |
| ZdrWire.ArrayOnTheWire | lib/libnfs-zdr.c:342-370 | Below 2^31 elements an array is its count and its elements in order |
| Zdr.Zdr.UInt | lib/libnfs-zdr.c:136-154 | Encoding succeeds exactly when four bytes fit and changes only them; decoding returns the word and changes nothing |
| Zdr.Zdr.Hyper | lib/libnfs-zdr.c:161-184 | The same for eight bytes, high word first |
| Zdr.Zdr.Blobs | lib/libnfs-zdr.c:191-228 | Encodes the section 4.10 opaque exactly when it fits, padding included; decoding is lost exactly on a length word of 2^31 or more, and else decodes as specified without touching the buffer |
| Zdr.Zdr.Str | lib/libnfs-zdr.c:297-340 | The same for strings, whether they are decoded in place or into a copy |
| Zdr.Zdr.Array | lib/libnfs-zdr.c:342-370 | For any element routine and element size the codec encodes exactly when the count is small enough for 32 bits of memory and everything fits; decoding is lost exactly when the block for the elements is not sound or an element is lost, and else decodes as specified |
| Zdr.Zdr.GroupList | mount/libnfs-raw-mount.c:108-130 | The recursive list codec terminates, encodes exactly when the whole list fits, is lost when decoding exactly at the first length word of 2^31 or more that it comes to, and else decodes as specified |
| Zdr.Zdr.ExportList | mount/libnfs-raw-mount.c:132-156 | The same for export lists |
| Zdr.Zdr.CallMsg | lib/libnfs-zdr.c:610-631 | The same for the header of a CALL |
| Zdr.ExportsThere | mount/libnfs-raw-mount.c:132-156 | An export list encoded into an aligned buffer, if and only if it fits, is decoded from it by a second codec: same value, same end position |
| Zdr.CallThere | lib/libnfs-zdr.c:449-488 | The same for a CALL header |
| ChunkedIo.AdjustMax | lib/libnfs.c:2459-2469 | The transfer size is positive, whole pages, within the limits, and less than a page below a request inside them |
| ChunkedIo.ReadChain | lib/libnfs.c:1558-1597 | The chain of READs terminates; the k-th asks for the k-th stretch of `readmax` bytes or what is left of the count; one callback carries the status of the READ that failed or the number of bytes read; the buffer gets exactly a prefix of the file's bytes from the offset and is otherwise unchanged; if the server is short only at the end of the file the count is min(count, bytes left), as for one READ |
| ChunkedIo.Pread | lib/libnfs.c:1600-1631 | The same for any count; the position follows only below `readmax` |
| ChunkedIo.Read | lib/libnfs.c:1641-1647 | After a successful read the position has moved by what was read if and only if the count was below `readmax` or nothing was read |
| ChunkedIo.WriteAtTwice | lib/nfs_v3.c:4264-4284 | Two writes end to end, gaps included, leave the file of one write |
| ChunkedIo.WriteAtBytes | lib/nfs_v3.c:4216-4228 | A write changes exactly the bytes in its range, keeps the others, and fills a gap behind the end of the file with zeros |
| ChunkedIo.WriteOp.Mcb | lib/nfs_v3.c:4230-4329 | A short reply re-issues exactly the rest; any other reply makes exactly one callback with the right status, and only success moves a position that is to be updated, to the end of the data |
| ChunkedIo.Pwrite | lib/nfs_v3.c:4331-4412 | Under any replies the server's file is the old one with a prefix of the data written at the offset; success is reported exactly with the clamped count and the whole clamped data, and then only the position follows; replies that always take something lead to success |

## Left out

- UDP, broadcast and server contexts: their queue rules differ from those of a TCP client.
- TLS and Kerberos/GSS wrapping: foreign libraries; the codec has no GSS branch and the reader no KRB5P branch.
- Socket creation, polling, DNS and portmapper: I/O; their results are parameters of the steps.
- Threads and mutexes: each service step is atomic, and callbacks do not re-enter the library.
- `rpc_cancel_pdu`: it hashes by the wrong xid for sent PDUs, so the obvious claim does not hold.
- Fragment reassembly: records that are not final are refused before it is reached.
- Nested mounts: the matching loop rewrites the path while it matches; lookups are modelled without them.
- Result decoders of ordinary replies: whether one accepts the bytes behind the header is a parameter (`decodes`); the log entry carries the raw reply.
- A record whose direction is CALL on a client connection: the code reads the fields of a call as those of a reply; the model stops (`Astray`), whether or not the call decodes.
- PDUs are values in the queues of `Context`; pointer relinking is covered by `LinkedQueue`, aliasing of PDUs by user code is not.
- Memory exhaustion, logging, statistics, error strings and the errno tables: an error reply carries its code as given.
- A server's answers do not change during a lookup, and in `ChunkedIo` the file does not change during a read; the server reports what it read or wrote.
- NFSv4 lookup and the NFSv4 COMPOUND encoders: the marshalled arguments of a WRITE are taken as given bytes.
- URL parsing, the directory cache, directory streams and operations of one RPC: they would only add easy members.
- Zdr.Zdr.Blobs: after a length word of 2^31 or more the code goes on with a position that has moved back; the model says that it does (`lost`) and no more.
- Zdr.Zdr.Str: after such a length word the code also stores a terminator outside the string; the model stops there. The declared maximum length is ignored, as in the code.
- Zdr.Zdr.Array: after an allocation that is not sound the model stops; the size of the block header is that of 64-bit pointers.
- ZdrFormat.LengthTest: for buffers of 2^31 - 16 bytes or more positions themselves leave the `int`; larger ones are not considered.
- Zdr.Zdr.CallMsg: a decoded direction other than CALL counts as failure; the REPLY body is part of the reader's model.
- Runs.RepliesMatch: says nothing about zero-copy callbacks, whose log entry holds data and no header; their xid is part of `Service.ReadReplyDelivered`.
- Writev.WritevTask: records of 2^31 bytes or more are not modelled; a marker cannot hold their length, and the code's `int` sums overflow.
- Lookup.LookupData.Internal: the slash that the code overwrites while it issues a request and restores afterwards is not written in the model.
- Lookup.LookupPath: `asked`, whether the root's attributes are fetched first, is an output; it can only be set when the path names the root.
- ChunkedIo.ReadChain: the callback's status is the count stored in a C `int`; it is the count itself below 2^31.
