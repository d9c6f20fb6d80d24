# keli-core-rs: a verified model of its protocol core

This project models the parts of keli-core-rs where correctness rests on reasoning across
several functions or over whole runs, and proves what those parts are for. It is written in
Dafny; `dafny verify dfyconfig.toml` checks all of it. Nothing here is executed.

## What is modelled

- **The gRPC tunnel** (`Hunk`, `GrpcPipe`). A write becomes a protobuf hunk, a length-prefixed
  message, and HTTP/2 DATA cut by flow control; it comes back through arbitrary chunks, an
  incremental decoder and a buffered reader. `GrpcPipe.TunnelIsFifo`: end to end this is a FIFO
  byte pipe. `GrpcPipe.ChunkingIsInvisible`: for every byte stream, valid or not, the cut into
  chunks changes neither the payloads, nor the pending bytes, nor the error.
- **The AnyTLS session** (`AnyTlsFrames`, `Uot`, `AnyTlsSession`). A frame codec over a writer
  that accepts any part of what it is offered; an incremental UDP-over-TCP parser whose result
  does not depend on framing; and a demultiplexer that is the product of independent per-stream
  automata (`AnyTlsSession.SessionIsProduct`), up to and including the frame that ends it with an
  error, and fails exactly when one of them does.
- **Dialling** (`Dialer`). Happy Eyeballs ordering and the race of at most four attempts, over
  every order in which attempts can end. The race succeeds exactly when sequential connect would.
- **DNS** (`DnsWire`, `ResolverCache`, `Inflight`). The message codec with compression pointers,
  the two caches with the googlevideo fallback over every run, and the in-flight counters.
- **Client failure backoff** (`Backoff`). The sharded table with purge and eviction: blocking is
  sound over every run and happens when it is due, size is bounded, and below the cap sharding
  is invisible.
- **Datagram fragmentation** (`Fragments`, `Tuic`, `Hysteria2`). Split, deliver in any order with
  duplicates and foreign sessions, reassemble: the identity, for both wire formats.
- **The TLS server name reader** (`Sni`). It returns the sanitized first host_name of every
  well-formed ClientHello, and a name for nothing else.
- **Configuration** (`ConfigRoutes`). The route checks pass exactly when everything the resolver
  hands to an inbound is usable.
- **Calendar** (`Calendar`, `Timestamps`). The closed form from days to dates is the proleptic
  Gregorian calendar, and the text of a timestamp sorts by time.

`Wrappers`, `Bytes`, `Arith`, `Sets` and `DnsKey` hold shared definitions.

The model takes the source's own form. Loops are loops with invariants and objects with updated
fields are classes; each is proved against a function, and the theorems are about those
functions. What the source gets from outside is a parameter: the clock, the capacities a
connection grants, how much a socket accepts, which attempt ends next, which entry a hash map
yields first, what name servers answer, which bytes are UTF-8.

## Where the code does not do what one might expect

Each of these is proved, with the exact condition.

- The year of a log timestamp is narrowed to 32 bits; it is right exactly for days of the years
  -2^31 to 2^31 - 1 (`Calendar.NarrowYearExact`), while 64-bit seconds reach further
  (`Calendar.SecondsReachFurther`). Its text sorts by time exactly up to the year 9999
  (`Timestamps.TextOrderExact`).
- A failed AnyTLS write can leave part of a frame behind, and other writers go on. The reader
  still gets exactly the frames of the successful writes, whatever is written later, exactly when
  no failed write did so (`AnyTlsFrames.CallsReadBackExact`); any part of any frame can be left
  behind (`AnyTlsFrames.FailPartway`).
- A UDP-over-TCP response must fit one frame with its header. It reaches the client exactly when
  its payload has at most 65533 bytes in connect mode, and otherwise 65526 bytes from an IPv4 and
  65514 from an IPv6 peer; a longer one is refused and nothing is written
  (`AnyTlsSession.ResponseArrivesExact`, `AnyTlsSession.SendResponse`). The codec alone would go up
  to 65535 bytes (`Uot.PacketRoundTripExact`).
- A DNS name is read exactly up to 127 labels and compression pointers together
  (`DnsWire.NameReadExact`); a query is written for any number of labels. Length bytes that
  section 4.1.4 of RFC 1035 reserves are read as label lengths.
- With private addresses blocked, a googlevideo host that is not allow-listed can still be given
  a private address, through the fallback another googlevideo host filled. It is safe on every run
  exactly when no googlevideo host is allow-listed (`ResolverCache.NeverPrivateExact`).
- Asking whether a client is blocked restarts the window of a block that is over. So purging an
  expired entry is invisible exactly when the entry carries no block, or the threshold is at most
  1, or the window is empty, with times in any order (`Backoff.PurgeInvisibleExact`); on a clock
  that does not run backwards, also when the block duration is empty
  (`Backoff.PurgeInvisibleInOrderExact`). In any case the entry blocks no longer and would not have
  counted the next failure (`Backoff.PurgeForgetsNothing`).
- A gRPC payload comes out of the tunnel exactly when its message is at most 16 MiB; the sender
  does not check this (`GrpcPipe.FrameDecodeExact`).
- Sanitizing a host name twice differs from once exactly when the name ends in white space, which
  is possible beyond ASCII (`Sni.SanitizedIdempotentExact`, `Sni.SanitizingTwiceDiffers`).

## Model

| member | source | states |
|---|---|---|
| Hunk.EncodeVarint | src/grpc.rs:520-526 | The loop appends the base-128 form of the value to what was there. |
| Hunk.VarintLen | src/grpc.rs:546-553 | The precomputed length is the length of that form, for every value. |
| Hunk.DecodeVarint | src/grpc.rs:528-544 | The loop over 7-bit groups is the bounded accumulation with bits past 63 lost, and fails on a truncated or over-long varint. |
| Hunk.VarintRoundTrip | src/grpc.rs:520-544 | Every 64-bit value is read back from anywhere in any input, consuming exactly its own bytes. |
| Hunk.EncodeHunkMessage | src/grpc.rs:469-475 | An outgoing message is key 0x0a, the varint length and the payload. |
| Hunk.DecodeHunkMessage | src/grpc.rs:477-518 | The cursor loop computes the field-by-field reading, with each error where it arises. |
| Hunk.DecodeFields | src/grpc.rs:477-518 | Any sequence of varint and length-delimited fields decodes to the data of its last length-delimited field 1, or to nothing. |
| Hunk.MessageRoundTrip | src/grpc.rs:469-518 | Decoding an encoded payload returns it. |
| GrpcPipe.EncodeGrpcHunk | src/grpc.rs:460-467 | A frame is a zero byte, the 32-bit big-endian length and the message. |
| GrpcPipe.TakeGrpcMessage | src/grpc.rs:435-458 | One complete message is drained from the buffer, or the buffer is left alone, with the compressed and oversize errors. |
| GrpcPipe.DrainBuffer | src/grpc.rs:380-385 | The inner loop decodes and sends on every complete message in order, up to the first error or until the receiver is gone. |
| GrpcPipe.ReadGrpcHunks | src/grpc.rs:373-388 | The chunk loop sends on what decoding the chunks one after another yields; a receiver gone after n payloads has got the first n and ends the loop without an error. |
| GrpcPipe.TakeIsStable | src/grpc.rs:435-458 | Later bytes change neither a message already complete nor an error already met. |
| GrpcPipe.DrainExtends | src/grpc.rs:373-388 | Decoding a then b from what a left is decoding a and b together. |
| GrpcPipe.ChunkingIsInvisible | src/grpc.rs:373-388 | For every byte stream and every cut into chunks: same payloads, same error, same pending bytes. |
| GrpcPipe.FramesAreDecoded | src/grpc.rs:373-388 | A sequence of frames whose messages fit decodes to exactly its payloads, nothing pending. |
| GrpcPipe.OversizeIsRefused | src/grpc.rs:445-451 | A message over 16 MiB is refused with InvalidData and nothing is delivered. |
| GrpcPipe.FrameDecodeExact | src/grpc.rs:435-467 | For every payload, also one whose length wraps around 32 bits: its frame decodes to it alone if and only if its message is at most 16 MiB. |
| GrpcPipe.CutStreamDeliversPrefix | src/grpc.rs:373-388 | A stream cut anywhere has delivered a prefix of the payloads and no error. |
| GrpcPipe.SendGrpcData | src/grpc.rs:402-433 | Data leaves in pieces no larger than each granted capacity, zero grants are waited out, and the end-of-stream flag is on exactly the last piece. |
| GrpcPipe.CapacityKeepsBytes | src/grpc.rs:411-430 | For any capacities the non-empty pieces concatenate to the data on success and to a proper prefix otherwise. |
| GrpcPipe.WriteGrpcHunks | src/grpc.rs:390-400 | The writer loop sends the frame of each queued payload in turn, up to the first failed send, and trailers exactly when none failed. |
| GrpcPipe.WritesAreFrames | src/grpc.rs:390-433 | What leaves is a prefix of the frames of all payloads, and all of them if and only if no send failed. |
| GrpcPipe.GrpcHunkWriter.Write | src/grpc.rs:685-694 | An empty write queues nothing, a write to a closed channel fails, any other is queued whole. |
| GrpcPipe.QueueKeepsBytes | src/grpc.rs:686-694 | Dropping empty writes loses no byte. |
| GrpcPipe.GrpcHunkReader.Read | src/grpc.rs:593-609 | A read fills a prefix of the output from the pending bytes, leaves the rest of it alone, and returns 0 exactly for an empty output or at the end of the stream. |
| GrpcPipe.ReadOnceIsFifo | src/grpc.rs:593-609 | What is read followed by what is still pending is what was pending; nothing is returned only at the end. |
| GrpcPipe.ReadsAreFifo | src/grpc.rs:593-609 | Any read sizes return the pending bytes in order; enough non-empty reads return all of them. |
| GrpcPipe.TunnelIsFifo | src/grpc.rs:373-475 | Any writes that fit, any capacities, any part of the sent bytes in any chunks, any read sizes: no error, and the reader gets a prefix of the bytes written, exactly all of them once every send has succeeded and all has arrived. |
| AnyTlsFrames.WriteAllVectored | src/anytls.rs:932-964 | For any partial writes the socket accepts exactly a prefix of header then payload, as long as its grants let through, all of it if and only if the call succeeds. |
| AnyTlsFrames.WriteFrame | src/anytls.rs:906-930 | A call that succeeds puts exactly one frame on the stream; one that fails leaves a proper prefix of it; an oversize payload writes nothing. |
| AnyTlsFrames.ReadOneFrame | src/anytls.rs:884-904 | Reading a header, then a body, is splitting one frame off, or meeting the end of the stream. |
| AnyTlsFrames.ReadFrames | src/anytls.rs:297-312 | The loop returns all complete frames of the stream. |
| AnyTlsFrames.SplitInvertsFrames | src/anytls.rs:884-904 | Frames that stand one after another are read back as those frames, whatever follows. |
| AnyTlsFrames.FramesInvertSplit | src/anytls.rs:884-904 | Every stream is exactly the frames read from it plus a remainder with no complete frame. |
| AnyTlsFrames.WriteFrames | src/anytls.rs:906-930 | Calls of any writers in the order of the lock, failed ones not stopping the others: the socket has what each call got through, and the frames written are those of the successful calls. |
| AnyTlsFrames.WriteAllFrames | src/anytls.rs:884-964 | Over one socket with any partial writes, calls that all succeed are split back into exactly those frames, nothing left over. |
| AnyTlsFrames.CallsReadBackExact | src/anytls.rs:884-964 | Any sequence of calls, failed ones included, is split back into the frames of the successful ones, whatever is written later, if and only if no failed call left part of its frame behind. |
| AnyTlsFrames.FailPartway | src/anytls.rs:906-964 | For any frame and any proper part of it, a socket that takes that part and then fails leaves it behind, and later frames are then not read back. |
| Uot.AnyTlsUdpStream.HandleUdpPsh | src/anytls.rs:487-517 | One body is appended, the request is taken once, and every complete packet is forwarded; the stream's new state and the error are those of the specification. |
| Uot.AddressIsStable | src/anytls.rs:753-817 | An address parsed, or found malformed, stays so when more bytes follow. |
| Uot.RequestIsStable | src/anytls.rs:678-687 | A request decided either way stays decided, across both address forms. |
| Uot.PacketIsStable | src/anytls.rs:689-727 | A packet decided either way stays decided, in both modes. |
| Uot.FeedExtends | src/anytls.rs:487-517 | Feeding two bodies is feeding their concatenation. |
| Uot.FramingIsInvisible | src/anytls.rs:487-517 | Two cuts of one byte stream forward the same packets, leave the same pending bytes and state, and fail together. |
| Uot.EncodeUotPacket | src/anytls.rs:819-841 | A response is the address (unless in connect mode), the low 16 bits of the length, and the payload. |
| Uot.PacketRoundTripExact | src/anytls.rs:689-841 | The codec alone: an encoded response is parsed back, with any bytes after it, if and only if its payload has at most 65535 bytes. |
| AnyTlsSession.Session.HandleFrame | src/anytls.rs:313-343 | One frame, failing or not, moves exactly its own stream by that stream's own rule and counts its upload; the session itself answers each heartbeat, and settings once. |
| AnyTlsSession.Session.HandleSyn | src/anytls.rs:424-451 | An empty SYN is acknowledged; any other opens a stream, replacing one with that id unless opening fails. |
| AnyTlsSession.Session.HandlePsh | src/anytls.rs:375-422 | Bytes go to the open remote, or open one; the state and everything done are stated for failures too. |
| AnyTlsSession.Session.Continue | src/anytls.rs:385-405 | TCP bytes are delivered and counted; UDP datagrams before a malformed one are forwarded and counted, and then the stream is lost. |
| AnyTlsSession.Session.Open | src/anytls.rs:407-421 | The target is parsed off the front; a magic target starts UDP, any other TCP, and the rest is already payload; a malformed target changes nothing. |
| AnyTlsSession.Session.OpenUdpRemote | src/anytls.rs:408-420 | Acknowledge, forward the complete datagrams that came along, and keep the stream unless one is malformed. |
| AnyTlsSession.Session.OpenTcpRemote | src/anytls.rs:453-485 | Connect, then acknowledge, then deliver and count what came with the request. |
| AnyTlsSession.Session.ForwardDatagrams | src/anytls.rs:504-514 | Datagrams are sent on and counted one by one, in order. |
| AnyTlsSession.Session.ReadAndHandle | src/anytls.rs:297-345 | A whole connection runs the frames split from its bytes up to the first error, with everything that was done until then. |
| AnyTlsSession.SessionIsProduct | src/anytls.rs:297-517 | On every run, ending in an error or not, each stream's remote and everything done for that stream are a function of the handled frames with its own id; answers to heartbeats and settings are the session's own. |
| AnyTlsSession.StreamsDoNotInterfere | src/anytls.rs:297-517 | Two sessions, failed or not, that handled the same frames of one stream agree on all that stream did. |
| AnyTlsSession.SessionFailsWithAStream | src/anytls.rs:297-345 | The session fails if and only if one of its streams, run alone, fails, and then with the error of such a stream. |
| AnyTlsSession.UploadIsConserved | src/anytls.rs:297-517 | On every run the upload counter is the total of bytes handed to all remotes. |
| AnyTlsSession.FirstSettingsAnswered | src/anytls.rs:315-320 | The settings frame that is answered is the first one of the whole session, on whatever stream. |
| AnyTlsSession.HeartbeatsAreAnswered | src/anytls.rs:321-323 | On every run the heart responses, all on stream 0, are as many as the heart requests handled on all streams. |
| AnyTlsSession.SendResponse | src/anytls.rs:546-573 | A response is encoded and written as one frame of its stream, whole exactly when the call succeeds; one that does not fit a frame gives InvalidInput and nothing is written. |
| AnyTlsSession.ResponseArrivesExact | src/anytls.rs:689-930 | A response fits a frame, which is read back whatever follows and whose body parses to its payload, if and only if the payload has at most 65533, 65526 or 65514 bytes, by mode and address family. |
| Dialer.HappyEyeballsOrder | src/dns.rs:374-418 | The family split and the turn-taking loop compute the interleaved order. |
| Dialer.OrderedIsPermutation | src/dns.rs:374-418 | The order is a permutation of the input that keeps each family's own order. |
| Dialer.MergeAlternates | src/dns.rs:395-417 | While both families last, blocks of k alternate from the preferred one; afterwards one family remains. |
| Dialer.OrderedAlternates | src/dns.rs:174-180 | With turns of one the first 2*min(n4, n6) addresses alternate strictly, the preferred family first. |
| Dialer.OrderedAlternatesInBlocks | src/dns.rs:374-418 | For any interleave and any addresses the order alternates in blocks of that size from the preferred family until one runs out, and then only the other remains. |
| Dialer.ConnectSequential | src/dns.rs:182-199 | The first success, or the last error, or no address. |
| Dialer.SequentialExact | src/dns.rs:182-199 | Sequential connect succeeds if and only if some address does. |
| Dialer.SpawnTcpRaceAttempts | src/dns.rs:267-286 | Attempts begin in address order while fewer than four are outstanding, and the two counters say so. |
| Dialer.CompleteKeepsHead | src/dns.rs:249-258 | After any attempt ends: the bounds hold and one is outstanding, or a success is returned, or every address has failed. |
| Dialer.RaceIsSafe | src/dns.rs:237-265 | Over every schedule: at most four outstanding, each address started once and in order, one always outstanding, and a result that is a success if and only if some address connects. |
| Dialer.ConnectRace | src/dns.rs:237-265 | For any order of endings: a success is some address's, an attempt's error means all failed, and with time for all attempts the race succeeds if and only if sequential connect does. |
| Dialer.ConnectTcpAddrs | src/dns.rs:174-180 | Dialling succeeds if and only if some resolved address accepts, given time, and reports no address exactly for none. |
| DnsWire.SplitRoundTrip | src/dns.rs:1137 | Labels joined by dots are the host again, and no label holds a dot. |
| DnsWire.EncodeQuery | src/dns.rs:1129-1151 | A host whose labels are 1 to 63 bytes gets header, name, type and class; any other gets InvalidInput. |
| DnsWire.ReadName | src/dns.rs:1229-1275 | The loop of at most 128 steps, with jumps, computes the offset after the name, total on every input. |
| DnsWire.NameAdvances | src/dns.rs:1229-1275 | On every input a name that is read ends after it began and within the input. |
| DnsWire.NameReadExact | src/dns.rs:1229-1275 | On every input a name is read if and only if labels and jumps ending in a zero byte stand there, at most 127 together, wherever the jumps lead. |
| DnsWire.NameIsRead | src/dns.rs:1229-1275 | Reading goes on after the zero byte or after the first jump; more than 127 labels and jumps give InvalidData. |
| DnsWire.PointerToQuestion | src/dns.rs:1241-1255 | The usual answer name, a pointer to the question, is such a name, one jump longer than the question. |
| DnsWire.QuestionIsSkipped | src/dns.rs:1176-1185 | The question part of a query is skipped exactly if its name has at most 127 labels, and otherwise gives InvalidData. |
| DnsWire.ReadAnswer | src/dns.rs:1189-1224 | One record is its name, ten bytes of fields and the data they announce, with each truncation error. |
| DnsWire.ParseResponse | src/dns.rs:1153-1227 | Header checks and both loops compute the addresses or the first error, all reads in bounds. |
| DnsWire.ResponseIsRead | src/dns.rs:1153-1227 | A successful response with any records, their names written out or leading anywhere in it by pointers, and anything after it, yields exactly the class 1 addresses of the asked type and right length in order, or InvalidData if some name takes more than 127 labels and jumps. |
| ResolverCache.Resolver.CachedPositiveAddrs | src/dns.rs:828-842 | A live entry is returned; an expired one is forgotten. |
| ResolverCache.Resolver.CachedNegativeError | src/dns.rs:844-858 | The same for errors. |
| ResolverCache.Resolver.GoogleVideoFallbackAddrs | src/dns.rs:898-924 | A live fallback is offered to googlevideo hosts only, under the asked port; a stale one is dropped. |
| ResolverCache.Resolver.ResolveSocketAddrs | src/dns.rs:491-579 | A lookup changes caches and fallback and returns as the specification says, on all paths. |
| ResolverCache.Resolver.Configure | src/dns.rs:100-107 | A new configuration starts with everything empty. |
| ResolverCache.InsertIsBounded | src/dns.rs:860-883 | Purge, then evict one, then insert never exceeds the cap. |
| ResolverCache.CachesStaySound | src/dns.rs:491-579 | On every run no key is in both caches and they hold at most 8192 and 4096 entries. |
| ResolverCache.HitIsFresh | src/dns.rs:828-842 | On every run a positive hit returns what a lookup of that key returned and stored since the last reconfiguration, within its time to live. |
| ResolverCache.ErrorHitIsFresh | src/dns.rs:844-858 | On every run a negative hit returns the error a lookup of that key met since the last reconfiguration, within its time to live. |
| ResolverCache.AnswerIsRemembered | src/dns.rs:552-577 | Addresses that a lookup had to ask for, and for hosts outside googlevideo an error of the servers, are returned by later lookups until they expire, whatever is looked up in between, if no reconfiguration and no eviction of that key comes between. |
| ResolverCache.PublicKeeps | src/dns.rs:776-779 | Filtering keeps every public address as often as it occurred. |
| ResolverCache.NoPrivateAddress | src/dns.rs:766-791 | On every run, with private addresses blocked, a host that is not allow-listed never resolves to a private address from a cache, the fallback or a server, if it is not googlevideo or no googlevideo host is allow-listed. |
| ResolverCache.NeverPrivateExact | src/dns.rs:491-579 | That condition on the configuration is exact: the host is safe on every run if and only if it holds. |
| ResolverCache.GoogleVideoExact | src/dns.rs:565-577 | A guarded googlevideo host without live cache entry gets a private address if and only if its lookup failed and the live fallback holds one. |
| ResolverCache.FallbackCrossesHosts | src/dns.rs:885-924 | Under any configuration that allow-lists one googlevideo host, a lookup of it followed by a failed one of another gives the other its address. |
| Inflight.TcpConnectInflight.Guard | src/dns.rs:596-613 | A guard raises its target's count, or TimedOut is returned at 64 and nothing changes. |
| Inflight.TcpConnectInflight.DropGuard | src/dns.rs:736-749 | Dropping a guard lowers the count and removes the entry at zero. |
| Inflight.CountsAreGuards | src/dns.rs:596-749 | Over every interleaving a target's count is its number of guards, at most 64, and absent exactly when there is none. |
| Inflight.RefusedExactlyAtLimit | src/dns.rs:600-610 | A connect is refused if and only if 64 guards for its target exist. |
| Backoff.MaxEntriesPerShard | src/abuse.rs:201-209 | The cap is the least positive one with which all shards together hold the configured number of entries. |
| Backoff.ClientFailureBackoff.IsBlockedAt | src/abuse.rs:141-159 | The answer is the automaton's, and a block that is over is reset. |
| Backoff.ClientFailureBackoff.RecordFailureAt | src/abuse.rs:161-192 | A full shard is purged and, if still full, loses an arbitrary entry; then the failure is counted. |
| Backoff.ClientFailureBackoff.RecordSuccess | src/abuse.rs:93-99 | The client's entry is removed. |
| Backoff.RunIsExplained | src/abuse.rs:141-192 | After any run each entry's failures are the client's last ones since its last success, all in its window, and it is blocked exactly from the threshold on. |
| Backoff.BlockedMeansFailures | src/abuse.rs:141-192 | A blocked client has at least threshold failures since its last success inside one window, the latest younger than the block duration, with evictions and any clock. |
| Backoff.BurstIsCounted | src/abuse.rs:161-192 | In a table below its caps, failures of a client in the window of the first are all counted, and the client is blocked if and only if they reach the threshold and the block duration after the last is not over. |
| Backoff.ShardsStayBounded | src/abuse.rs:161-203 | On every run each shard holds at most its cap. |
| Backoff.ShardingIsInvisible | src/abuse.rs:194-199 | While no shard is at its cap the table holds for each client what one automaton fed only its events would. |
| Backoff.PurgeForgetsNothing | src/abuse.rs:231-244 | Under any policy an expired entry of a reachable table blocks at no later time and would not have counted the next failure. |
| Backoff.PurgeInvisibleExact | src/abuse.rs:141-192 | Under any policy no later events and times tell a purged expired entry of a reachable table from a kept one if and only if it carries no block, or the threshold is at most 1, or the window is empty. |
| Backoff.PurgeInvisibleInOrderExact | src/abuse.rs:141-192 | The same on a clock that does not run backwards, where an empty block duration hides the purge too. |
| Fragments.ChunksSplit | src/bench.rs:5228-5236 | The pieces concatenate to the payload, there are as many as announced, and each is within the size. |
| Fragments.AcceptFragment | src/bench.rs:5324-5350 | One datagram is ignored, returned, refused, stored, or completes its packet. |
| Fragments.ReadResponsePayload | src/bench.rs:5320-5351 | The loop returns at the first complete packet or the first bad datagram. |
| Fragments.DeliveryIsSafe | src/bench.rs:5316-5352 | Any order, repetition and mixture with other sessions never fails and returns only complete payloads that were sent. |
| Fragments.DeliveryCompletes | src/bench.rs:5341-5350 | Once all pieces of some packet have arrived something has been returned. |
| Fragments.ReturnedHasArrived | src/bench.rs:5341-5350 | What is returned is the payload of a packet all of whose pieces have arrived. |
| Fragments.DeliveryExact | src/bench.rs:5316-5352 | For any wire format that parses its own datagrams: over any delivery nothing fails, and a payload is returned if and only if all datagrams of some packet have arrived, and then it is that of such a packet. |
| Tuic.SkipAddress | src/bench.rs:5354-5404 | Skipping an address of any kind, on any input, moves on and stays within the input. |
| Tuic.PacketRoundTrip | src/bench.rs:5179-5314 | A fragment that is built is parsed back, with or without an address. |
| Tuic.SendUdpDatagrams | src/bench.rs:5207-5251 | All fragments leave, each within the datagram limit, when 1 to 255 pieces with 16-bit lengths suffice; otherwise InvalidInput and none leaves. |
| Tuic.DeliveryIsIdentity | src/bench.rs:5179-5404 | Over any delivery of what the sender produced, a payload is returned if and only if all datagrams of some packet have arrived, and it is the complete payload of such a packet. |
| Hysteria2.ReadVarintFrom | src/bench.rs:5717-5745 | The loop folds the tagged number of bytes, or reports truncation. |
| Hysteria2.VarintRoundTrip | src/bench.rs:5678-5745 | Every value below 2^62 is read back from anywhere, consuming exactly its bytes. |
| Hysteria2.VarintIsShortest | src/bench.rs:5678-5698 | No byte string that reads as a value is shorter than its encoding. |
| Hysteria2.DatagramRoundTrip | src/bench.rs:5511-5616 | A fragment that is built is parsed back. |
| Hysteria2.SendUdpDatagrams | src/bench.rs:5531-5575 | All fragments leave, each within the datagram limit, when 1 to 255 pieces suffice; otherwise InvalidInput and none leaves. |
| Hysteria2.DeliveryIsIdentity | src/bench.rs:5511-5654 | Over any delivery of what the sender produced, a payload is returned if and only if all datagrams of some packet have arrived, and it is the complete payload of such a packet. |
| Sni.SanitizedIdempotentExact | src/dispatcher.rs:410-421 | A sanitized name is non-empty, has no final dot and at most 253 bytes; sanitizing it again changes nothing if and only if it does not end in white space. |
| Sni.SanitizingTwiceDiffers | src/dispatcher.rs:410-421 | An em space before a final dot survives the first pass and not the second. |
| Sni.ByteCursor.ReadU8 | src/dispatcher.rs:456-460 | One byte is read and passed, or nothing happens. |
| Sni.ByteCursor.ReadWord | src/dispatcher.rs:462-466 | Two bytes are read big-endian and passed, or nothing happens. |
| Sni.ByteCursor.ReadSlice | src/dispatcher.rs:468-473 | That many bytes are read and passed, or nothing happens. |
| Sni.ParseSniExtension | src/dispatcher.rs:386-401 | The name loop returns the sanitized first host_name, and ends on every input. |
| Sni.ReadExtensions | src/dispatcher.rs:362-373 | The fixed part and four nested vectors are walked in bounds to the extension block. |
| Sni.SniffTlsSni | src/dispatcher.rs:346-384 | The cursor and its loops, total and in bounds on every input, compute the reading the two theorems below are about. |
| Sni.SniffInvertsLayout | src/dispatcher.rs:346-401 | For every well-formed ClientHello in one record, with any session id, suites, compression methods, earlier extensions, earlier other names and trailing bytes, the sanitized first host_name is returned. |
| Sni.SniffOnlyLayout | src/dispatcher.rs:346-401 | A name is returned only for a payload that is such a ClientHello. |
| ConfigRoutes.ValidateOutbounds | src/config.rs:278-290 | Accepts exactly distinct tags on outbounds that each pass. |
| ConfigRoutes.ValidateRouteRules | src/config.rs:300-328 | Accepts exactly rules whose targets pass and whose outbound is embedded with the right tag and passes, or is configured. |
| ConfigRoutes.ValidateRoutes | src/config.rs:292-298 | Accepts exactly when global and all inbound rules are accepted. |
| ConfigRoutes.Validate | src/config.rs:233-257 | Accepts exactly the configurations that meet all conditions. |
| ConfigRoutes.RuleOkIsUsable | src/config.rs:300-347 | With sound outbounds, a rule is accepted if and only if its targets pass and its resolution carries a sound outbound of its tag. |
| ConfigRoutes.RoutesOkIsUsable | src/config.rs:292-367 | With sound outbounds, the route checks pass if and only if every inbound is given routes with sound targets that are all usable. |
| ConfigRoutes.ValidatedResolves | src/config.rs:349-367 | In a validated configuration each inbound gets the global rules, then its own, in order and unchanged, each with a sound outbound of its tag where one is named. |
| ConfigRoutes.ResolvingIsIdempotent | src/config.rs:330-367 | Resolving again changes nothing. |
| ConfigRoutes.FoundIsUnique | src/config.rs:337-341 | In a validated configuration the outbound found is the only one with its tag. |
| Calendar.CivilCountsDays | src/logging.rs:62-76 | For every day count, negative ones too, the result is a real date whose day number is that count. |
| Calendar.CivilInvertsDayNumber | src/logging.rs:62-76 | Every date is the result for its own day number. |
| Calendar.CivilFollowsCalendar | src/logging.rs:62-76 | Day 0 is 1970-01-01 and one more day is the next calendar date, across months, leap years and centuries. |
| Calendar.CivilIsOrderPreserving | src/logging.rs:62-76 | Earlier days have earlier dates, and different days different dates. |
| Calendar.NarrowYearExact | src/logging.rs:75 | The 32-bit year is right if and only if the day lies in the years -2^31 to 2^31 - 1. |
| Calendar.SecondsReachFurther | src/logging.rs:53 | Unsigned 64-bit seconds reach days beyond the 32-bit years. |
| Calendar.TimestampNamesSecond | src/logging.rs:52-60 | Date, hour, minute and second are in range and determine the second. |
| Timestamps.TextOrderExact | src/logging.rs:52-60 | Sorting the text of timestamps sorts them by time for all seconds up to a last one if and only if that one lies before the year 10000. |

## Left out

- Sockets, threads, TLS, HTTP/2 and QUIC libraries and hashing: they appear only as the choices described above.
- The variants of dialling and reading on an asynchronous runtime, and the non-blocking client stream of the gRPC tunnel: the same logic with other waiting.
- Failures of the network while datagrams are sent.
- Hunk.DecodeHunkMessage: lengths are unbounded, so a declared field length near 2^64 is an ordinary truncation error here.
- AnyTlsSession.SessionIsProduct: connects, bandwidth and UDP forwarding are granted; a refused bandwidth wait drops the stream, and a blocked route hands nothing on.
- AnyTlsSession.Session.HandleFrame: which settings frame is answered is stated, not the text of the answer; UDP responses sent back are not part of the events; a host is kept as octets or name, so an address written out as a domain is a different target.
- AnyTlsSession.UploadIsConserved: the counter is unbounded, and download is not modelled.
- ResolverCache.Resolver.ResolveSocketAddrs: the clock reads within the cache lookups are one instant and those after the answer another; calls do not overlap; metrics are not counted; choosing servers and query types is part of the given answer.
- Backoff.ClientFailureBackoff.RecordFailureAt: metrics are not counted; the connect-failure backoff of the dialler is the same automaton without eviction, fed only failures other than WouldBlock, and is not repeated.
- Dialer.ConnectRace: the deadline is the number of attempts that end before it passes.
- ConfigRoutes.Validate: which error is reported first follows the source but is not part of the contract; checks of single fields are parameters.
- HTTP Host sniffing, route matching, user and traffic bookkeeping, the control server, and the other inbound protocols.
- The benchmark drivers and reports around the modelled datagram functions.
