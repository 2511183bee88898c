# Ghostbro: a verified model of the gate, the tunnel and the relay

Ghostbro hides a proxy behind single-packet authorisation (SPA). A client sends one sealed and
signed packet; the server checks it, opens a time-limited entry for the client's address in a
kernel map and in a userspace mirror, and then accepts a Noise tunnel from that address. Inside
the tunnel a client can leave jobs with Ghost Relay, which fetches, normalizes and stores
objects for later download.

The project models the six parts in which state, interleaving and failure meet, and proves what
holds over every run and every input. `dafny verify dfyconfig.toml` covers all of it.

| part | files | main results |
|---|---|---|
| Framed Noise stream | `NoiseFrames`, `NoiseStream`, `Sessions` | in-order, lossless delivery under every schedule; the poll reader against the one-shot reader; session counting |
| Single-packet authorisation | `KeyHex`, `SpaPacket`, `SpaVerifier`, `ClientCounter`, `ClientServer` | codec round trips; no replay across failed saves, crashes, restarts and re-enrolment; the client's counter in closed form; when its packets pass in spite of lost files and packets |
| Allow gate | `AllowGate`, `AllowGateHistory`, `AllowGateLive`, `AllowGateSteps`, `RunSpa` | two maps in agreement under every interleaving; every admitted connection backed by the latest accept; revoked keys gone and live entries kept; the server's loop as runs of the gate |
| Token buckets | `RateLimit`, `RateService` | bounds on admitted packets in any interval; who keeps below the limit is served |
| Ghost Relay engine | `RelayEngine`, `RelayQuota`, `RelayScan`, `RelayOvershoot`, `RelayDeletion`, `RelaySpool`, `RelaySpoolSteps`, `RelayDownload`, `PackageSpec` | no job stranded; the exact quota overshoot, attained; when a deleted job stays away; complete downloads; the package-spec round trip |
| HTML normalizer | `Text`, `NormalizeEntities`, `NormalizeNumeric`, `NormalizeStrip`, `NormalizeCuts`, `NormalizeHidden`, `NormalizeLeftover`, `NormalizeNested`, `NormalizeRender`, `NormalizeCompose`, `NormalizeMarkup`, `NormalizeBlocks`, `NormalizeWhitespace`, `NormalizeKept`, `Normalize` | size, normal form; plain text, links, headings, lists and breaks kept; when hidden text goes without a trace and when it does not |

How the parts are modelled:

- Objects the program changes in place are classes with the same fields; loops are loops with
  invariants, each proved against a function or a property. Interleavings are transition systems
  on values, and the class methods are proved to be paths of them (`VerifyStep`, `RestartStep`,
  `AllowGateSteps`, `RunSpa`, `RelaySpoolSteps`).
- A socket is two tapes of future answers: quantifying over tapes is quantifying over every
  schedule of partial reads, partial writes, `Pending`, errors and end of stream.
- Cryptography is a record of total functions with the laws used and no others: opening undoes
  sealing, lengths, and signatures that verify (section 5.1 of the Noise Protocol Framework; the
  tag length is from section 2.8 of RFC 8439).
- The disk of the SPA verifier is the table the last successful rename wrote. A save may fail,
  and the server may crash before or after the rename.

Where the code does not keep what its comments say, the model follows the code:

- `strip_element` announces that nested occurrences are removed; it cuts at the first closing
  tag. `RemovedIffFlat` gives the exact condition, `NestedLeaves` what is left over otherwise.
- Stripping is meant to drop hidden text; a removal can join the parts of an opening mark, which
  is then not looked for again. `ScriptTextShown` and `MarkArises` show the inputs, `GapSafeIff`
  the exact condition for one element, `HiddenAllGone` one for a whole document.
- A download answer is meant to fit one Noise frame; the text of a failed job is not bounded.
  `AnswerFits` gives the exact condition, `LongErrorDoesNotFit` the failing family.
- The quota comments say that concurrent jobs cannot both pass; the length is recorded after the
  lock is released. `RecordedBytesBounded` gives the bound that holds and `BoundAttained` shows
  that nothing smaller does, for every configuration whose job quota admits the jobs it takes.
- A deleted job can come back, because a worker that holds its metadata writes it again.
  `DeletedStaysIff` gives the exact condition.

## Model

| member | source | states |
|---|---|---|
| `NoiseFrames.ReadFrameOptional` | ghostbro-server/src/noise.rs:676-698 | a frame it returns, with what is left, is exactly a prefix of the stream in the length-prefixed encoding, and is no longer than 16 KiB; fewer than two octets are an end of stream |
| `NoiseFrames.ReadsBack` | ghostbro-server/src/noise.rs:676-717 | reading what `write_frame` wrote gives the frame back and leaves everything after it |
| `NoiseFrames.NoFrameWhen` | ghostbro-server/src/noise.rs:676-698 | no frame comes exactly when fewer than two octets are left, the header announces more than 16384, or more than there is, and the answer says which |
| `NoiseFrames.PrefixParse` | ghostbro-server/src/noise.rs:676-717 | the frames parsed from any prefix of an encoded stream are the first frames of that stream |
| `NoiseFrames.NothingLeftOver` | ghostbro-server/src/noise.rs:355-419 | a reader that has consumed an encoded stream and holds no whole frame has seen every frame of it |
| `NoiseFrames.OpenUndoesSeal` | ghostbro-server/src/noise.rs:479-521 | opening in order, nonces counting successes, undoes sealing in order for every list of chunks |
| `NoiseFrames.InOrderOpening` | ghostbro-server/src/noise.rs:322-568 | whatever prefix of a sealed stream has arrived, its frames open to the first chunks sent and no announced length passes the maximum |
| `NoiseFrames.LawfulCipherExists` | ghostbro-server/src/noise.rs:479-521 | the two cipher laws used everywhere are satisfiable |
| `Bytes.FromBeFirst` | ghostbro-server/src/noise.rs:680-687 | numbers on the wire have their most significant octet first |
| `NoiseStream.Socket.PollRead` | ghostbro-server/src/noise.rs:364-378 | the environment: at most the room asked for, in tape order; `Pending`, a failure or an end only where the tape has it, each noted apart |
| `NoiseStream.Socket.PollWrite` | ghostbro-server/src/noise.rs:427-438 | the environment: some prefix of the buffer reaches the peer, or nothing does; `Pending`, a failure or an empty write only where the tape has it, each noted apart |
| `NoiseStream.NoiseFramedStream.constructor` | ghostbro-server/src/noise.rs:336-349 | a new stream is valid, with the leftover handshake plaintext still to deliver |
| `NoiseStream.NoiseFramedStream.StoreHeader` | ghostbro-server/src/noise.rs:373-377 | the octets read extend the partial header at its position |
| `NoiseStream.NoiseFramedStream.StoreBody` | ghostbro-server/src/noise.rs:403-407 | the octets read extend the partial body at its position |
| `NoiseStream.NoiseFramedStream.HeaderTurn` | ghostbro-server/src/noise.rs:362-380 | one read: `Pending` is answered by `Pending`, a failure by a socket error, an end by a clean end or one inside the header, and octets go to the header |
| `NoiseStream.NoiseFramedStream.PollHeader` | ghostbro-server/src/noise.rs:361-381 | the header loop loses nothing of the input on any stop, and each stop has its own cause at the socket |
| `NoiseStream.NoiseFramedStream.SizeBody` | ghostbro-server/src/noise.rs:383-393 | a body buffer of the announced length, or rejection exactly above the maximum |
| `NoiseStream.NoiseFramedStream.BodyTurn` | ghostbro-server/src/noise.rs:396-411 | one read of the body, with the same answers |
| `NoiseStream.NoiseFramedStream.PollBody` | ghostbro-server/src/noise.rs:395-412 | the body loop loses nothing on any stop; end of stream is reported only when the body is short, and each stop has its own cause |
| `NoiseStream.NoiseFramedStream.TakeFrame` | ghostbro-server/src/noise.rs:414-418 | the completed frame is the one the one-shot reader gives on the same input, and the buffers are empty again |
| `NoiseStream.NoiseFramedStream.PollReadOuterFrame` | ghostbro-server/src/noise.rs:355-419 | under every splitting the answer is that of the one-shot reader on all remaining input; `Pending` exactly when the socket would block, a socket error exactly when it failed, and then the input is intact |
| `NoiseStream.NoiseFramedStream.PushPending` | ghostbro-server/src/noise.rs:427-438 | what the socket takes leaves the front of the pending frame; sent plus pending never changes |
| `NoiseStream.NoiseFramedStream.PollFlushPending` | ghostbro-server/src/noise.rs:421-444 | on success nothing is pending; sent plus pending stays the encoding of everything sealed; `Pending`, a socket error and a zero write are each answered as what the socket did |
| `NoiseStream.NoiseFramedStream.TakePlaintext` | ghostbro-server/src/noise.rs:460-470 | buffered plaintext is handed out in order, as much as fits |
| `NoiseStream.NoiseFramedStream.OpenFrame` | ghostbro-server/src/noise.rs:479-485 | a frame is opened under the next nonce; a bad seal leaves plaintext and nonce alone |
| `NoiseStream.NoiseFramedStream.OpenTurn` | ghostbro-server/src/noise.rs:479-485 | after opening or refusing a frame both buffer invariants hold and no input is lost |
| `NoiseStream.NoiseFramedStream.FrameTurn` | ghostbro-server/src/noise.rs:472-485 | without plaintext left, one frame is read and opened, or the stop is passed on |
| `NoiseStream.NoiseFramedStream.ReadTurn` | ghostbro-server/src/noise.rs:459-486 | one turn either answers the caller or opens a frame and consumes input |
| `NoiseStream.NoiseFramedStream.ReadLoop` | ghostbro-server/src/noise.rs:459-486 | the loop ends, with an answer that accounts for every octet delivered |
| `NoiseStream.NoiseFramedStream.ReadAfter` | ghostbro-server/src/noise.rs:453-486 | nothing is read while a frame is pending |
| `NoiseStream.NoiseFramedStream.PollRead` | ghostbro-server/src/noise.rs:447-488 | every octet handed out is accounted for in order; an empty answer to a caller with room means the stream ended between frames; it waits only for a socket that would block, and each error has its own cause: a failure, a zero write, an end inside a header or a body, a length or a seal |
| `NoiseStream.NoiseFramedStream.SealChunk` | ghostbro-server/src/noise.rs:506-521 | one chunk becomes one frame under the next nonce and the pending frame |
| `NoiseStream.NoiseFramedStream.PollWrite` | ghostbro-server/src/noise.rs:491-531 | exactly the first min(length, 16368) octets are accepted per call, none on `Pending`, which comes only from a socket that would block; errors are the socket's own |
| `NoiseStream.NoiseFramedStream.PollFlush` | ghostbro-server/src/noise.rs:533-552 | the socket's own flush or shutdown is reached only when no frame is pending, and then its answer is passed on |
| `NoiseStream.NoiseFramedStream.PollWriteVectored` | ghostbro-server/src/noise.rs:554-563 | exactly the first non-empty buffer is written; all empty gives 0 |
| `NoiseStream.InOrderDelivery` | ghostbro-server/src/noise.rs:322-568 | for two ends joined by an in-order pipe, delivered octets are a prefix of the initial plaintext followed by the accepted octets, and no frame is refused for length or nonce order |
| `NoiseStream.AllDelivered` | ghostbro-server/src/noise.rs:322-568 | once nothing is pending, in flight or buffered, everything accepted has been delivered: nothing is lost |
| `NoiseStream.PerformWrite` | ghostbro-server/src/noise.rs:491-563 | any call of the writing half keeps its invariant, fails only with an I/O error, and over a socket that only stalls not at all |
| `NoiseStream.Perform` | ghostbro-server/src/noise.rs:447-563 | any call keeps a stream valid, a length or seal error is visible in its state, and over a socket that only stalls there is no other |
| `NoiseStream.Drive` | ghostbro-server/src/noise.rs:322-568 | every sequence of read, write, vectored write and flush calls on two ends, under every schedule, up to the first error: both directions deliver in order and neither end rejects a frame; over sockets that only stall there is no error but one the socket's own flush gives |
| `NoiseStream.PollFrames` | ghostbro-server/src/noise.rs:355-419 | polling under any splitting gives the frames and the end of `read_frame_optional` on every stream, except that one left-over header octet is an error for the poll form and an end for the other; every poll without a frame or an end was a stall of the socket |
| `Sessions.SessionCounts.Acquire` | ghostbro-server/src/noise.rs:44-61 | granted exactly below the limit (0 or none is unlimited); the count map stays exactly the live slots per key |
| `Sessions.SessionCounts.Drop` | ghostbro-server/src/noise.rs:27-40 | one live slot less, its key leaving the map with its last slot |
| `Sessions.RunSlots` | ghostbro-server/src/noise.rs:27-61 | after any interleaving of acquires and drops the map holds exactly the keys with live slots, each at its number |
| `Sessions.NeverOverLimit` | ghostbro-server/src/noise.rs:44-61 | with a fixed positive limit no key ever has more live sessions than the limit |
| `KeyHex.DecodeKeyId` | ghostbro-common/src/keys.rs:104-115 | the loop gives the parse of all pairs, or nothing when any pair is bad or the length is wrong |
| `KeyHex.HexRoundTrip` | ghostbro-common/src/keys.rs:100-115 | decoding the text of a key gives that key, so distinct keys have distinct texts |
| `KeyHex.CanonicalHex` | ghostbro-common/src/keys.rs:100-115 | of the texts that decode, exactly the lower-case ones are what the key is written as (capitals and plus signs also decode) |
| `KeyHex.KeyTexts` | ghostbro-common/src/keys.rs:104-115 | exactly which texts are keys, capitals and plus signs included, and which key each is |
| `SpaPacket.Open` | ghostbro-common/src/spa.rs:169-206 | reading the record field by field gives the parse by position, with the errors in the source's order |
| `SpaPacket.OpenRefuses` | ghostbro-common/src/spa.rs:169-206 | which payloads are refused and why, in order, and that the others open to the fields of their record |
| `SpaPacket.RegionLayout` | ghostbro-common/src/spa.rs:136-151 | where each field of the signed region stands, and what the two flag bits are |
| `SpaPacket.BuildWithPadding` | ghostbro-common/src/spa.rs:123-164 | opening what was built gives exactly the built fields for any padding up to 33 octets, and a length error above |
| `SpaPacket.ParseUndoesEncode` | ghostbro-common/src/spa.rs:136-206 | parsing an encoded record gives every field back |
| `SpaPacket.OpensToRecord` | ghostbro-common/src/spa.rs:123-206 | a sealed record opens to its fields, whatever the padding |
| `SpaPacket.PaddingIgnored` | ghostbro-common/src/spa.rs:169-175 | padding never changes what a sealed core opens to |
| `SpaPacket.FlagsReadBack` | ghostbro-common/src/spa.rs:232-239 | the flag octets accepted are exactly those the fields encode |
| `SpaPacket.ReencodesReceived` | ghostbro-common/src/spa.rs:180-221 | for every record that opens, re-encoding the parsed fields gives octet for octet the signed region received |
| `SpaPacket.Verify` | ghostbro-common/src/spa.rs:210-230 | the signature is checked over the rebuilt region, the ephemeral key and the server key |
| `SpaPacket.VerifyChecksReceived` | ghostbro-common/src/spa.rs:210-230 | so what `verify` checks is the octets that were received |
| `SpaPacket.BuiltVerifies` | ghostbro-common/src/spa.rs:123-230 | a built packet verifies under its sender's key at its server |
| `SpaPacket.SignedMessageInjective` | ghostbro-common/src/spa.rs:246-257 | the signed message determines every field, the ephemeral key and the server key |
| `SpaPacket.LawfulCryptoExists` | ghostbro-common/src/spa.rs:123-230 | the laws used of sealing and signatures can all be met together |
| `SpaVerifier.Examine` | ghostbro-server/src/spa.rs:149-184 | passes exactly the packets that open, are signed by an enrolled full-tier client, are in the time window and from the right source, and have a counter above the high-water mark |
| `SpaVerifier.RefusalsNeedSignature` | ghostbro-server/src/spa.rs:149-184 | every refusal after the parse and key errors implies a valid signature of the named client, the tier answer goes to exactly the other tiers, and the replay answer goes to exactly the packets that only their counter keeps out |
| `SpaVerifier.ReasonGiven` | ghostbro-server/src/spa.rs:149-184 | each refusal names the first reason that applies: seal or layout, key, signature, tier, time, source |
| `SpaVerifier.SaveFile` | ghostbro-server/src/spa.rs:244-253 | the table holds every counter under its key's text, and nothing else |
| `SpaVerifier.LoadCounterState` | ghostbro-server/src/spa.rs:231-241 | loading fails exactly when some key text is bad; else every entry is taken from the table |
| `SpaVerifier.SaveLoadRoundTrip` | ghostbro-server/src/spa.rs:212-280 | loading a saved file gives exactly the saved counters and no other result |
| `SpaVerifier.ByKeyEnrols` | ghostbro-server/src/spa.rs:115-118 | the client table has exactly the keys of the list, each with the last client that has it |
| `SpaVerifier.Verifier.constructor` | ghostbro-server/src/spa.rs:108-128 | the table of the list's clients, the later of two with one key winning, and the counters given |
| `SpaVerifier.Verifier.Load` | ghostbro-server/src/spa.rs:90-106 | a missing file stops the start unless a first run was asked for, a bad one always does; else exactly the clients of the list are enrolled, with the counters of the file |
| `SpaVerifier.Verifier.ReloadClients` | ghostbro-server/src/spa.rs:130-141 | exactly the clients of the list are enrolled then; the keys reported are those enrolled before that the list does not have, each once; counters untouched |
| `SpaVerifier.Verifier.Verify` | ghostbro-server/src/spa.rs:143-210 | the counter moves only for a packet that passes every check; it is granted only after the file is written; a failed save denies and leaves the file |
| `SpaVerifier.ListedIsFresh` | ghostbro-server/src/spa.rs:149-184 | a packet of a client of the list, for this server, source and time, with a counter above the mark, passes |
| `SpaVerifier.StartAndVerify` | ghostbro-server/src/spa.rs:90-201 | a server started with a key file and a state file grants every such packet whose counter is above what the file holds for its key, and says so with the client's data |
| `SpaVerifier.VerifyStep` | ghostbro-server/src/spa.rs:143-210 | a call is a step of the world of memory, disk and log, and grants exactly when the step logs |
| `SpaVerifier.RestartStep` | ghostbro-server/src/spa.rs:90-106 | a start from the file is a restart step of that world |
| `SpaVerifier.NextOrdered` | ghostbro-server/src/spa.rs:130-280 | every step keeps last accepted <= on disk <= in memory for each key, and the log increasing per key |
| `SpaVerifier.NextGenuine` | ghostbro-server/src/spa.rs:143-201 | every logged accept stays what its payload opens to |
| `SpaVerifier.RunOrdered` | ghostbro-server/src/spa.rs:130-280 | so both hold in every run of verify, reload, failed save, crash at any point and restart |
| `SpaVerifier.NoReplay` | ghostbro-server/src/spa.rs:130-280 | in every run accepted counters strictly increase per key and no packet is accepted twice, even re-padded, even after its key was removed and enrolled again |
| `ClientCounter.NextCounter` | ghostbro-client/src/main.rs:2569-2586 | the next counter is above the stored one and not below the clock, saturating; every error path and what it leaves in the file |
| `ClientCounter.ClosedForm` | ghostbro-client/src/main.rs:2569-2586 | after n sends the counter is min(u64::MAX, max(c0+n, max_i(f_i + n-i))) |
| `ClientCounter.PassIffIncreasing` | ghostbro-server/src/spa.rs:177-189 | packets in an order all pass the server's check iff their counters increase above its mark |
| `ClientCounter.IssuedIncreasing` | ghostbro-client/src/main.rs:2569-2586 | issued counters increase strictly exactly while the one before the last is below u64::MAX |
| `ClientCounter.AnySubsequencePasses` | ghostbro-client/src/main.rs:2569-2586 | below u64::MAX, any packets of one client arriving in issue order pass, however many are lost |
| `ClientCounter.SurvivesLossesIff` | ghostbro-client/src/main.rs:2561-2586 | counters increase under every pattern of lost and restored state files iff each clock reading is above the counter a lossless client would have issued |
| `ClientCounter.LossNeedsLead` | ghostbro-client/src/main.rs:2561-2586 | where the clock does not lead, one lost file there repeats or undercuts a counter |
| `ClientCounter.AdvancingClockLeads` | ghostbro-client/src/main.rs:2561-2586 | a clock that strictly advances from above the stored counter always leads, so any number of losses is survived |
| `ClientCounter.ChosenPass` | ghostbro-server/src/spa.rs:177-189 | of increasing counters above the server's mark, any chosen in issue order pass its check |
| `ClientCounter.PassesDespiteLossesIff` | ghostbro-client/src/main.rs:2561-2586 | whatever files are lost or restored from a backup and whatever packets are lost, those that arrive pass the server's check at any mark h, iff each clock reading is above the counter a lossless client would have issued and a first send without state is above h |
| `ClientCounter.AdvancingClockPasses` | ghostbro-client/src/main.rs:2561-2586 | with a clock that strictly advances from above the stored counter and the server's mark, any packets in issue order pass, whatever is lost or restored, also where the stored counter is behind the mark |
| `ClientServer.OneAccepted` | ghostbro-server/src/spa.rs:143-189 | a packet entitled on arrival is accepted by `verify` iff its counter is above its key's mark |
| `ClientServer.AcceptedIffPass` | ghostbro-server/src/spa.rs:143-210 | entitled packets of one key are all accepted, each moving the mark, iff their counters pass in that order |
| `ClientServer.AdvancingClientAccepted` | ghostbro-server/src/spa.rs:143-210 | so `verify` accepts every entitled packet that arrives from a client with such a clock, whatever files and packets are lost or restored |
| `AllowGate.Expiry` | ghostbro-server/src/ebpf.rs:233-234 | now plus the lifetime where that fits 64 bits, u64::MAX where it does not |
| `AllowGate.EbpfRuntime.constructor` | ghostbro-server/src/ebpf.rs:49-99 | both maps start empty |
| `AllowGate.EbpfRuntime.AllowSource` | ghostbro-server/src/ebpf.rs:227-266 | both maps get the same entry, stamped with the accept's key, client and expiry; a refused kernel write changes neither |
| `AllowGate.EbpfRuntime.RemoveAll` | ghostbro-server/src/ebpf.rs:285-298 | both maps lose the same addresses; it succeeds iff the kernel still had every one |
| `AllowGate.EbpfRuntime.PurgeKeyId` | ghostbro-server/src/ebpf.rs:268-301 | only addresses whose entry is of the key go, from both maps alike; it succeeds iff none of the key is left, iff the kernel still had every one |
| `AllowGate.EbpfRuntime.ReapExpiredSources` | ghostbro-server/src/ebpf.rs:303-341 | only addresses whose entry has run out go, from both maps alike; it succeeds iff no such entry is left, iff the kernel still had every one |
| `AllowGate.EbpfRuntime.IsAllowed` | ghostbro-ebpf/src/main.rs:171-183 | allowed iff an unexpired entry exists, which the mirror then has too; an expired one is dropped |
| `AllowGate.EbpfRuntime.AdmitPeer` | ghostbro-server/src/noise.rs:141-153 | admitted iff the mirror has an unexpired entry, which is copied; an expired one is dropped |
| `AllowGate.NextAgreement` | ghostbro-server/src/ebpf.rs:227-341 | every step of every interleaving keeps the two maps in agreement, outside the gap of one accept |
| `AllowGate.NextMirrorBacked` | ghostbro-server/src/ebpf.rs:227-266 | every step keeps each mirror entry exactly what the latest accept for its address wrote |
| `AllowGate.NextConnsBacked` | ghostbro-server/src/noise.rs:141-183 | every step keeps each admitted connection backed by the accept that was latest then |
| `AllowGate.NextEnrolled` | ghostbro-server/src/ebpf.rs:149-213 | every step keeps each mirror entry of an enrolled key, or due for removal |
| `AllowGate.RunKeeps` | ghostbro-server/src/ebpf.rs:149-341 | all four hold in every run |
| `AllowGate.MapsAgree` | ghostbro-server/src/ebpf.rs:227-341 | in every run, under accept, lazy expiry, eviction, proxy expiry, purge and reap (also failing midway), an unexpired kernel entry equals the mirror's, except between the two writes of one accept |
| `AllowGate.RevokedKeysGone` | ghostbro-server/src/ebpf.rs:203-213 | at every loop head of a running `run_spa`, every mirror entry belongs to an enrolled key |
| `AllowGateLive.NextDue` | ghostbro-server/src/ebpf.rs:268-341 | every step keeps: what is still to be removed has run out or is of a key that is not enrolled |
| `AllowGateLive.MirrorKept` | ghostbro-server/src/ebpf.rs:227-341 | in every run, whatever is reaped, purged, checked or evicted, an unexpired mirror entry of an enrolled client stays as it is until a newer accept for its address |
| `AllowGateLive.KernelKept` | ghostbro-server/src/ebpf.rs:227-341 | and so does its kernel entry, unless the kernel evicts it |
| `AllowGateHistory.PhasesTraced` | ghostbro-server/src/ebpf.rs:149-266 | an accept in progress comes from a verified packet of a client enrolled at that moment, and its stamp from the clock then |
| `AllowGateHistory.LatestIsTraced` | ghostbro-server/src/ebpf.rs:227-266 | the latest accept of an address was completed at some step of the run, and none for it since |
| `AllowGateHistory.ConnectionsBacked` | ghostbro-server/src/noise.rs:141-183 | in every run a connection past the expiry and static-key checks has steps k < s < m < q: a verified packet from its address for a client enrolled at k, stamped at s with gs[s].now <= t < gs[s].now + ttl, completed at m, no other accept for the address completed before the check at q, and the key and Noise key are that client's |
| `AllowGateSteps.LoopPath` | ghostbro-server/src/ebpf.rs:285-330 | the removal loop, completed or failed, is a path of the gate's steps |
| `AllowGateSteps.PurgeSteps` | ghostbro-server/src/ebpf.rs:268-301 | the object's purge is such a path, ending in the next purge, the loop head or the end of `run_spa` |
| `AllowGateSteps.ReapSteps` | ghostbro-server/src/ebpf.rs:303-333 | likewise the reap |
| `AllowGateSteps.AllowSteps` | ghostbro-server/src/ebpf.rs:227-266 | likewise the accept: stamp, kernel write, mirror write |
| `AllowGateSteps.KernelCheckSteps` | ghostbro-ebpf/src/main.rs:171-183 | likewise the kernel's check |
| `AllowGateSteps.ProxyCheckSteps` | ghostbro-server/src/noise.rs:141-153 | likewise the proxy's check, recording a connection exactly when it admits |
| `RunSpa.OnPacket` | ghostbro-server/src/ebpf.rs:149-201 | verifying a datagram against the address it came from and letting that address in is a path of the gate, ending at the loop head or with the end of the loop |
| `RunSpa.OnKeysChanged` | ghostbro-server/src/ebpf.rs:203-213 | likewise a key reload and the purges it brings |
| `RunSpa.OnReap` | ghostbro-server/src/ebpf.rs:214-221 | likewise a turn of the reaper |
| `RunSpa.RunLoop` | ghostbro-server/src/ebpf.rs:101-225 | any sequence of datagrams, reloads, reaps, kernel and proxy checks and evictions on fresh objects extends one run of the gate, so the two maps of the object agree, while the loop runs every mirror entry is of an enrolled key, and every accept of the run is one of the datagrams, entitled when it came from the address it let in |
| `RunSpa.ConnectionsEarned` | ghostbro-server/src/noise.rs:141-183 | so a connection past the expiry and static-key checks goes back to a datagram from its own address, signed by a client enrolled when it came, whose Noise key it has |
| `RateLimit.RateMaps.constructor` | ghostbro-ebpf/src/main.rs:44-52 | no address has a bucket and the global slot is zero |
| `RateLimit.RateMaps.RateLimitAllows` | ghostbro-ebpf/src/main.rs:185-211 | one draw from the address's bucket; no other bucket changes |
| `RateLimit.RateMaps.GlobalRateLimitAllows` | ghostbro-ebpf/src/main.rs:220-253 | one draw from the global bucket, where a zero time means never used |
| `RateLimit.RateMaps.AdmitsCandidate` | ghostbro-ebpf/src/main.rs:157-162 | length, then address, then global, each drawn only when the one before admits, each bucket at its own reading of the clock |
| `RateLimit.RateMaps.EvictAddress` | ghostbro-ebpf/src/main.rs:42-43 | the kernel may drop an address's bucket at any time |
| `RateLimit.TokensAndRefills` | ghostbro-ebpf/src/main.rs:185-253 | an existing bucket admits at most its tokens plus a full bucket per later period |
| `RateLimit.BucketBound` | ghostbro-ebpf/src/main.rs:185-253 | any interval [a, b] admits at most limit * (floor((b-a)/60 s) + 2) draws |
| `RateLimit.EmittedIsGlobalDraws` | ghostbro-ebpf/src/main.rs:157-253 | what is emitted is what the global bucket admits of the candidates its own bucket let through |
| `RateLimit.GlobalBound` | ghostbro-ebpf/src/main.rs:220-253 | for every sequence of addresses and evictions the ring gets at most min(256*limit, 1000000) * (floor((b-a)/60 s) + 2) packets in [a, b] |
| `RateLimit.PerAddressBound` | ghostbro-ebpf/src/main.rs:185-211 | the same bound with its own limit for an address not evicted in the interval |
| `RateService.RefusedIff` | ghostbro-ebpf/src/main.rs:185-253 | an attempt is refused exactly when the bucket was filled less than 60 s before and has admitted its limit since |
| `RateService.NoneRefused` | ghostbro-ebpf/src/main.rs:185-253 | where no 60 s see more attempts than the limit, none is refused |
| `RateService.AddressServed` | ghostbro-ebpf/src/main.rs:185-211 | from power-on, whatever others send and whatever is evicted, an address with at most its limit of candidates in every 60 s has all of them admitted |
| `RateService.CandidateEmitted` | ghostbro-ebpf/src/main.rs:157-253 | and if all together send at most min(256*limit, 1000000) in every 60 s, every one reaches the ring |
| `RelayEngine.ClientUsage` | ghostbro-server/src/relay.rs:755-778 | the loop, in any order, counts exactly the unexpired records and sums their bytes |
| `RelayEngine.UsageOf` | ghostbro-server/src/relay.rs:755-778 | that sum: nothing for no records, and each unexpired record adds the length of its body and of its markdown |
| `RelayEngine.LiveJobsOf` | ghostbro-server/src/relay.rs:755-778 | that count: each unexpired record adds one |
| `RelayEngine.NextKeepsJobs` | ghostbro-server/src/relay.rs:260-327 | every step of submit, worker, delete, reap, crash and recovery keeps each pending job with somebody responsible for it |
| `RelayEngine.NoJobStranded` | ghostbro-server/src/relay.rs:260-327 | in every run a job marked queued or running is in the queue, held by a worker, being submitted, or ahead of the recovery scan |
| `RelayQuota.StepCovered` | ghostbro-server/src/relay.rs:489-536 | every step but a passed check only moves, lowers or forgets what held metadata could still write |
| `RelayQuota.PassedWithin` | ghostbro-server/src/relay.rs:494-523 | a passed check leaves at most one object per other worker and one normalized artifact per worker above the quota |
| `RelayQuota.NextWithin` | ghostbro-server/src/relay.rs:489-536 | so every step keeps the bound on recorded and still recordable bytes |
| `RelayQuota.RunWithin` | ghostbro-server/src/relay.rs:489-536 | and it holds in every run |
| `RelayQuota.RecordedBytesBounded` | ghostbro-server/src/relay.rs:489-536 | recorded bytes never pass quota + (W-1)*maxObject + W*N; with one worker and no normalization, never the quota |
| `RelayScan.NextFine` | ghostbro-server/src/relay.rs:260-327 | while no job is claimed more than twice since a start (its submission, and a recovery that runs beside it), every step keeps bytes out of reach of all but one further claim, and what a failing worker writes back out of reach of all |
| `RelayScan.NextHolds` | ghostbro-server/src/relay.rs:449-544 | while a worker scans record by record under the lock, each record with bytes is still to be read, read at no less, or of a job that another worker had when the scan started, and so is all a worker can still write unchecked |
| `RelayScan.ScanPassedWithin` | ghostbro-server/src/relay.rs:494-523 | a check passed on what such a scan read leaves the same room as one in a single step |
| `RelayScan.ScannedBytesBounded` | ghostbro-server/src/relay.rs:489-536 | so in every such run with checks record by record, interleaved with writes, removals, expiry, crashes and recovery, recorded bytes never pass quota + (W-1)*maxObject + W*N |
| `RelayOvershoot.BoundAttained` | ghostbro-server/src/relay.rs:494-536 | for every configuration whose job quota lets the store be filled, every W and N, a run reaches the bound exactly; it is above the quota iff W >= 2 or N >= 1 |
| `RelayOvershoot.DefaultsPassed` | ghostbro-server/src/relay.rs:72-88 | with the shipped limits and 4 workers a run records 448 MiB + 4N where the quota is 256 MiB |
| `RelayDeletion.StepKeepsAway` | ghostbro-server/src/relay.rs:429-544 | without a record and without a worker holding its metadata, every step but a new submission keeps a job away |
| `RelayDeletion.HeldComesBack` | ghostbro-server/src/relay.rs:449-544 | any worker holding the metadata can bring a job back |
| `RelayDeletion.DeletedStaysIff` | ghostbro-server/src/relay.rs:429-544 | an absent job stays away in every continuation without a new submission iff no worker holds its metadata |
| `RelayDeletion.RemovedStaysIff` | ghostbro-server/src/relay.rs:429-445 | the same right after a deletion, asked of the workers before it |
| `RelaySpool.Finished` | ghostbro-server/src/relay.rs:494-538 | a job ends complete iff its fetch succeeded and its body fits the quota and the size limit, with the lengths fetched; else failed, with its lengths as they were; its expiry stays |
| `RelaySpool.Engine.constructor` | ghostbro-server/src/relay.rs:129-160 | the spool as found, an empty queue |
| `RelaySpool.Engine.Enqueue` | ghostbro-server/src/relay.rs:260-327 | accepted iff below both quotas; then the queued record and its queue entry are there, and nothing else changed |
| `RelaySpool.Engine.ReapExpired` | ghostbro-server/src/relay.rs:682-715 | exactly the expired records go, counted right, and quota usage is unchanged |
| `RelaySpool.Engine.RecoverPending` | ghostbro-server/src/relay.rs:717-752 | every job with status queued or running is sent exactly once, and nothing else |
| `RelaySpool.Engine.ProcessJob` | ghostbro-server/src/relay.rs:449-544 | the head of the queue is skipped when deleted or complete, else it ends complete or failed as it should |
| `RelaySpool.Engine.WorkOff` | ghostbro-server/src/relay.rs:449-544 | where every queued or running job is in the queue, working it off leaves every record complete or failed and loses none |
| `RelaySpool.Restart` | ghostbro-server/src/relay.rs:171-179 | a start on the records a crash left: after recovery and the work it finds, every record is complete or failed, and what was so before is untouched |
| `RelaySpoolSteps.EnqueueSteps` | ghostbro-server/src/relay.rs:260-327 | a submission is a path of the interleaved engine |
| `RelaySpoolSteps.DeleteSteps` | ghostbro-server/src/relay.rs:429-445 | likewise a deletion |
| `RelaySpoolSteps.ReapSteps` | ghostbro-server/src/relay.rs:682-715 | likewise a reap, as removals one by one |
| `RelaySpoolSteps.RecoverSteps` | ghostbro-server/src/relay.rs:717-752 | likewise recovery, which ends with every pending job in the queue |
| `RelaySpoolSteps.ProcessSteps` | ghostbro-server/src/relay.rs:449-544 | likewise a worker taking the next job |
| `RelayDownload.RelayCursor.constructor` | ghostbro-server/src/relay.rs:1350-1352 | the cursor starts at the first octet |
| `RelayDownload.RelayCursor.ReadExact` | ghostbro-server/src/relay.rs:1382-1389 | the next octets, or a failure that leaves the position alone |
| `RelayDownload.RelayCursor.ReadBe` | ghostbro-server/src/relay.rs:1354-1362 | the next big-endian number, or a failure |
| `RelayDownload.RelayCursor.ReadOptionalU8` | ghostbro-server/src/relay.rs:1364-1371 | the next octet if there is one |
| `RelayDownload.RelayCursor.ReadString` | ghostbro-server/src/relay.rs:1373-1380 | a length-prefixed string within its bound, or a failure |
| `RelayDownload.Download` | ghostbro-server/src/relay.rs:364-427 | reading with the cursor gives the answer defined on the request as a whole, for every request, well-formed or not |
| `RelayDownload.ReadQuery` | ghostbro-server/src/relay.rs:364-371 | reading the fields one after the other gives the parse by position |
| `RelayDownload.AbsentLearnt` | ghostbro-server/src/relay.rs:373-388 | the client reads from the answer that the job is not there, or has expired |
| `RelayDownload.UndoneLearnt` | ghostbro-server/src/relay.rs:389-404 | that it is not ready, or why it failed |
| `RelayDownload.MissingLearnt` | ghostbro-server/src/relay.rs:406-418 | that it has no such artifact, or that the file is gone |
| `RelayDownload.StoredLearnt` | ghostbro-server/src/relay.rs:406-426 | or exactly the octets asked for, the total, and whether they are the last |
| `RelayDownload.BadRequestRefused` | ghostbro-server/src/relay.rs:186-222 | a request with a bad header is refused as invalid, and one that cannot be read otherwise as an internal error |
| `RelayDownload.JobIdIs` | ghostbro-server/src/relay.rs:1179-1188 | a job identifier is one or more hexadecimal digits and dashes |
| `RelayDownload.AnswerFits` | ghostbro-server/src/relay.rs:364-427 | an answer fits one 16 KiB frame with its tag iff the job is not an unexpired failed one with an error text above 16361 octets |
| `RelayDownload.LongErrorDoesNotFit` | ghostbro-server/src/relay.rs:364-427 | such answers exist, for any job and any such text: nothing bounds the text a worker records |
| `RelayDownload.BuildRequest` | ghostbro-client/src/main.rs:1534-1538 | the request the client builds is read by the server as the query meant |
| `RelayDownload.QueryReadsBack` | ghostbro-server/src/relay.rs:364-372 | the server's parse undoes the client's encoding of a query |
| `RelayDownload.ChunkReadsBack` | ghostbro-client/src/main.rs:1654-1682 | the client reads from a chunk exactly the slice the server cut, its total, and whether it is the last |
| `RelayDownload.FetchChunk` | ghostbro-client/src/main.rs:1533-1550 | one turn of the client's loop gets exactly the next 8192 octets or the rest |
| `RelayDownload.FetchObject` | ghostbro-client/src/main.rs:1531-1558 | the loop ends after max(1, ceil(n/8192)) requests with exactly the stored octets, for every object below 2^32 octets |
| `PackageSpec.ParseAccepts` | ghostbro-server/src/relay.rs:852-872 | exactly which specifications are accepted, under all five names of the ecosystems, and what they are read as |
| `PackageSpec.NamesAccepted` | ghostbro-server/src/relay.rs:1190-1204 | exactly which names are valid |
| `PackageSpec.VersionsAccepted` | ghostbro-server/src/relay.rs:1206-1217 | exactly which versions are |
| `PackageSpec.AcceptedShape` | ghostbro-server/src/relay.rs:852-872 | what `parse` accepts has a valid name, a valid non-empty version if any, and a version for crates |
| `PackageSpec.DecodeVersioned` | ghostbro-server/src/relay.rs:874-896 | a spec with a version always survives encode and decode |
| `PackageSpec.DecodeUnversioned` | ghostbro-server/src/relay.rs:874-896 | one without survives iff its name has no @ after the first position |
| `PackageSpec.SpecRoundTrip` | ghostbro-server/src/relay.rs:852-896 | together: decode(encode(spec)) is spec iff it has a version or no later @ in its name |
| `PackageSpec.ReadsAsAnother` | ghostbro-server/src/relay.rs:874-896 | a name ending in @version is read back as the package with that version |
| `NormalizeEntities.DecodeWith` | ghostbro-server/src/relay/normalize.rs:229-256 | the decoding loop, for any table of entities, computes the one-pass decoding |
| `NormalizeEntities.DecodeEntities` | ghostbro-server/src/relay/normalize.rs:229-279 | the same with the entities the source knows, numeric ones included |
| `NormalizeEntities.DecodeUndoesEscape` | ghostbro-server/src/relay/normalize.rs:229-279 | decoding undoes writing & and < as entities on every text, so one pass neither loses nor decodes twice |
| `NormalizeEntities.DecodeUndoesEscapeAttr` | ghostbro-server/src/relay/normalize.rs:229-279 | also where quotes and closing brackets are written as entities |
| `NormalizeNumeric.DecodeUndoesNumeric` | ghostbro-server/src/relay/normalize.rs:264-279 | every text written by the numbers of its characters, in decimal or in hexadecimal with either letter, is decoded to itself |
| `NormalizeNumeric.NamedDecoded` | ghostbro-server/src/relay/normalize.rs:258-270 | each of the ten names is decoded to its character |
| `NormalizeNumeric.OnlyNames` | ghostbro-server/src/relay/normalize.rs:258-270 | there are no other names |
| `NormalizeNumeric.UnknownKept` | ghostbro-server/src/relay/normalize.rs:229-256 | what is no entity stays as it is written |
| `NormalizeNumeric.LoneAmpersand` | ghostbro-server/src/relay/normalize.rs:229-256 | an ampersand without a semicolon within 10 octets stands for itself |
| `NormalizeNumeric.MeasuredInOctets` | ghostbro-server/src/relay/normalize.rs:238-240 | the distance to the semicolon is counted in UTF-8 octets |
| `NormalizeStrip.RemovePieces` | ghostbro-server/src/relay/normalize.rs:26-78 | the copy-and-skip loop keeps exactly what its cuts keep |
| `NormalizeStrip.StripSpans` | ghostbro-server/src/relay/normalize.rs:26-78 | the loop by positions equals the removal defined on what is left of the text |
| `NormalizeStrip.StripComments` | ghostbro-server/src/relay/normalize.rs:26-41 | comments go up to the next closing mark, an unclosed one swallows the rest |
| `NormalizeStrip.StripElement` | ghostbro-server/src/relay/normalize.rs:45-78 | elements of one tag go in any letter case; longer names are kept |
| `NormalizeStrip.StripElements` | ghostbro-server/src/relay/normalize.rs:20-23 | one tag after another |
| `NormalizeStrip.StripNoiseBlocks` | ghostbro-server/src/relay/normalize.rs:18-24 | comments, then the five hidden elements |
| `NormalizeStrip.StripKeepsPlainText` | ghostbro-server/src/relay/normalize.rs:18-78 | text without < is left alone |
| `NormalizeHidden.CommentHidden` | ghostbro-server/src/relay/normalize.rs:26-41 | a comment goes with all it holds, whatever is before and after it, and both sides are treated on their own |
| `NormalizeHidden.ElementHidden` | ghostbro-server/src/relay/normalize.rs:45-78 | an element goes with all it holds, in any letter case, after any text that does not end in the bare opening mark and before any text |
| `NormalizeHidden.CommentNeverShown` | ghostbro-server/src/relay/normalize.rs:18-41 | in any document whose earlier comments are closed, the document with a comment is stripped as the one without, where closing the gap makes no new comment |
| `NormalizeHidden.NoiseNeverShown` | ghostbro-server/src/relay/normalize.rs:18-78 | the same for each of the five hidden elements, holding anything but its closing mark, a comment and the tags removed before it |
| `NormalizeHidden.BareMarkKept` | ghostbro-server/src/relay/normalize.rs:45-78 | after a bare opening mark, exactly the mark stays: the element behind it still goes |
| `NormalizeHidden.CommentsApart` | ghostbro-server/src/relay/normalize.rs:26-41 | two parts of a text are freed of comments on their own, where no comment is open at the break and none straddles it |
| `NormalizeHidden.ElementsApart` | ghostbro-server/src/relay/normalize.rs:45-78 | likewise of elements |
| `NormalizeHidden.StrippedApart` | ghostbro-server/src/relay/normalize.rs:18-78 | likewise through comments and all five tags |
| `NormalizeHidden.MarkupKept` | ghostbro-server/src/relay/normalize.rs:18-78 | markup of no hidden kind reaches the renderer as it is, anywhere in a document with nothing hidden open before it |
| `NormalizeHidden.MarkFreeApart` | ghostbro-server/src/relay/normalize.rs:18-78 | markup without hidden marks that ends a tag is apart from whatever follows |
| `NormalizeHidden.WrittenElement` | ghostbro-server/src/relay/normalize.rs:45-78 | an opening tag with attributes, any text without the closing tag, and the closing tag are one element |
| `NormalizeHidden.AnyCaseIsTag` | ghostbro-server/src/relay/normalize.rs:45-55 | the names that count as a tag are exactly its spellings in capital and small letters |
| `NormalizeHidden.OtherNameKept` | ghostbro-server/src/relay/normalize.rs:45-78 | a mark that goes on with anything but a bracket, a slash or white space is kept as another name |
| `NormalizeCuts.Distributes` | ghostbro-server/src/relay/normalize.rs:26-78 | removal of spans between any two marks distributes over two parts, where no span is open at the break and no mark straddles it |
| `NormalizeCuts.SpanVanishes` | ghostbro-server/src/relay/normalize.rs:26-78 | a whole span behind any text vanishes, also when an earlier opening mark reaches into it |
| `NormalizeLeftover.NoOpeningLeft` | ghostbro-server/src/relay/normalize.rs:45-78 | no opening of a tag is left by its removal where no cut follows a part of its mark |
| `NormalizeLeftover.NoOpeningArises` | ghostbro-server/src/relay/normalize.rs:45-78 | nor does the removal of one tag bring about an opening of another |
| `NormalizeLeftover.HiddenAllGone` | ghostbro-server/src/relay/normalize.rs:18-78 | in every document where no stage cuts behind a part of its own or an earlier mark, no hidden element opens in what is left |
| `NormalizeLeftover.SafeCutIff` | ghostbro-server/src/relay/normalize.rs:45-78 | closing a gap behind a text brings no opening about, whatever follows, iff the text does not end in a part of the mark |
| `NormalizeLeftover.GapSafeIff` | ghostbro-server/src/relay/normalize.rs:18-78 | removing an element anywhere in a document leaves no opening of a hidden tag at its stage, whatever follows, iff what is kept before it does not end in a part of that mark |
| `NormalizeLeftover.MarkArises` | ghostbro-server/src/relay/normalize.rs:18-78 | for every split of a hidden mark and every hidden element of the same or a later tag put there, the mark is whole in what is left |
| `NormalizeNested.NestedLeaves` | ghostbro-server/src/relay/normalize.rs:43-78 | wherever an element lies inside another of its kind, a closing tag is left over |
| `NormalizeNested.RemovedIffFlat` | ghostbro-server/src/relay/normalize.rs:43-78 | for every document of elements and text, brackets such as in 1 < 2 included: removing a tag from its text is removing its elements from its tree iff none of them lies inside another |
| `NormalizeRender.HeadingLevel` | ghostbro-server/src/relay/normalize.rs:160-171 | level d exactly for the name h followed by the digit d, from 1 to 6 |
| `NormalizeRender.SearchValue` | ghostbro-server/src/relay/normalize.rs:189-210 | the search loop finds the first occurrence that has a value |
| `NormalizeRender.AttrValue` | ghostbro-server/src/relay/normalize.rs:189-210 | the same for an attribute of a tag, skipping occurrences inside other names |
| `NormalizeRender.RenderMarker` | ghostbro-server/src/relay/normalize.rs:117-136 | the marker of a structural tag, with one hash mark per heading level |
| `NormalizeRender.RenderTag` | ghostbro-server/src/relay/normalize.rs:115-154 | a tag's output and the anchor state after it |
| `NormalizeRender.RenderPiece` | ghostbro-server/src/relay/normalize.rs:88-154 | one turn of the walk |
| `NormalizeRender.RenderTokens` | ghostbro-server/src/relay/normalize.rs:82-157 | the walk pushes the effect of each piece in order, carrying the anchor state |
| `NormalizeRender.TagPays` | ghostbro-server/src/relay/normalize.rs:115-154 | a tag's output and the address it leaves pending are paid for by three times its characters and the address pending before |
| `NormalizeRender.RenderAtMostTriples` | ghostbro-server/src/relay/normalize.rs:82-157 | rendering gives at most three times the characters, for every text |
| `NormalizeRender.RenderedPlain` | ghostbro-server/src/relay/normalize.rs:82-157 | text without tags is one run, decoded |
| `NormalizeMarkup.HeadingRendered` | ghostbro-server/src/relay/normalize.rs:117-127 | anywhere in a document, a heading of level d becomes d hash marks and its decoded text on lines of its own |
| `NormalizeMarkup.TagNameRead` | ghostbro-server/src/relay/normalize.rs:174-186 | for every tag: the name is the run of letters and digits after white space and an optional slash, lower-cased, and the slash says that it closes |
| `NormalizeMarkup.QuotedRead` | ghostbro-server/src/relay/normalize.rs:212-226 | a value in either quotes is what is between them, decoded; an unclosed quote runs to the end |
| `NormalizeMarkup.BareRead` | ghostbro-server/src/relay/normalize.rs:212-226 | a bare value ends at white space or a bracket, decoded |
| `NormalizeMarkup.HrefRead` | ghostbro-server/src/relay/normalize.rs:189-226 | in any letter case, with white space around the equals sign, whatever stands before the first `href` and behind its value, the value of href is the one parsed behind it |
| `NormalizeMarkup.NoHref` | ghostbro-server/src/relay/normalize.rs:189-210 | where `href` is only part of another name or has no equals sign behind it, there is no address |
| `NormalizeMarkup.LinkRendered` | ghostbro-server/src/relay/normalize.rs:137-152 | anywhere in a document, a link becomes [text](address), both decoded, and just its text when it has no address |
| `NormalizeBlocks.BlockRendered` | ghostbro-server/src/relay/normalize.rs:134-136 | anywhere in a document, each of the twelve block tags is a paragraph break |
| `NormalizeBlocks.BreakRendered` | ghostbro-server/src/relay/normalize.rs:133-133 | a break tag is a line break |
| `NormalizeBlocks.ItemRendered` | ghostbro-server/src/relay/normalize.rs:132-132 | a list item is its decoded text behind a dash on a line of its own |
| `NormalizeBlocks.OtherRendered` | ghostbro-server/src/relay/normalize.rs:115-154 | any other tag leaves nothing |
| `NormalizeBlocks.StrayCloseRendered` | ghostbro-server/src/relay/normalize.rs:137-145 | nor does a closing anchor tag where none is open |
| `NormalizeBlocks.UnclosedRendered` | ghostbro-server/src/relay/normalize.rs:100-114 | a tag that is not closed runs to the end |
| `NormalizeCompose.RenderedParts` | ghostbro-server/src/relay/normalize.rs:82-157 | rendering two parts of a document is rendering each, the anchor state carried over, at every tag boundary |
| `NormalizeCompose.RenderedApart` | ghostbro-server/src/relay/normalize.rs:82-157 | with no anchor open at the boundary, rendering distributes over concatenation |
| `NormalizeWhitespace.CollapseInlineSpaces` | ghostbro-server/src/relay/normalize.rs:304-319 | the loop computes the trimmed, single-spaced line |
| `NormalizeWhitespace.InlineIsNormal` | ghostbro-server/src/relay/normalize.rs:304-319 | its result is always trimmed and single-spaced |
| `NormalizeWhitespace.KeepLines` | ghostbro-server/src/relay/normalize.rs:284-297 | the first loop keeps the collapsed lines and single blank ones between them |
| `NormalizeWhitespace.DropTrailingBlank` | ghostbro-server/src/relay/normalize.rs:298-300 | the second drops blank lines at the end |
| `NormalizeWhitespace.CollapseWhitespace` | ghostbro-server/src/relay/normalize.rs:283-302 | the whole function, lines split, collapsed, kept, trimmed and joined |
| `NormalizeWhitespace.CollapsedIsTidy` | ghostbro-server/src/relay/normalize.rs:283-319 | for every text: trimmed single-spaced lines, no two adjacent blank ones, none first or last |
| `NormalizeWhitespace.CollapseIdempotent` | ghostbro-server/src/relay/normalize.rs:283-319 | collapsing twice is collapsing once |
| `NormalizeWhitespace.FixedIffTidy` | ghostbro-server/src/relay/normalize.rs:283-319 | the texts left alone are exactly the tidy ones |
| `NormalizeWhitespace.CollapseKeepsText` | ghostbro-server/src/relay/normalize.rs:283-319 | every character that is not white space is kept, in order |
| `NormalizeWhitespace.CollapseShrinks` | ghostbro-server/src/relay/normalize.rs:283-319 | the result is never longer |
| `NormalizeKept.CollapsedLine` | ghostbro-server/src/relay/normalize.rs:304-319 | by position: the characters that are not white space, and one space for each run of white space between two of them |
| `NormalizeKept.CollapsedLines` | ghostbro-server/src/relay/normalize.rs:283-302 | by position: the collapsed lines that are not blank, and one blank line for each run of blank ones between two that are not |
| `Normalize.HtmlToMarkdown` | ghostbro-server/src/relay/normalize.rs:10-14 | strip, render, collapse |
| `Normalize.MarkdownSize` | ghostbro-server/src/relay/normalize.rs:10-319 | at most three times the characters of the document, for every document |
| `Normalize.MarkdownIsTidy` | ghostbro-server/src/relay/normalize.rs:10-319 | always tidy, and stable under another collapsing |
| `Normalize.EscapedTextSurvives` | ghostbro-server/src/relay/normalize.rs:10-319 | for every text s, the pipeline on s with & and < escaped gives exactly collapse_whitespace(s), and the same visible characters |
| `Normalize.NoiseLeavesNoTrace` | ghostbro-server/src/relay/normalize.rs:10-78 | in any document with nothing hidden open before it, a hidden element changes nothing in the result, where closing the gap makes no new mark |
| `Normalize.WrittenNoiseLeavesNoTrace` | ghostbro-server/src/relay/normalize.rs:10-78 | in particular a script or style sheet with attributes, in any letter case, holding text like 1 < 2, after any markup without hidden tags and before anything |
| `Normalize.HiddenText` | ghostbro-server/src/relay/normalize.rs:10-78 | text in a script, style, head, noscript or svg element, in any letter case, is never shown |
| `Normalize.ScriptTextShown` | ghostbro-server/src/relay/normalize.rs:10-78 | the text of a script is shown when a style element splits its opening tag, for every text |
| `Normalize.CommentLeavesNoTrace` | ghostbro-server/src/relay/normalize.rs:10-41 | in any document whose earlier comments are closed, a comment changes nothing in the result, where closing the gap makes no new one |
| `Normalize.LinkSurvives` | ghostbro-server/src/relay/normalize.rs:10-226 | any link text and any non-empty address, quotes and brackets included, come through the whole pipeline as a markdown link, anywhere in a document with nothing hidden open and no tag unfinished before it |
| `Normalize.HeadingSurvives` | ghostbro-server/src/relay/normalize.rs:10-171 | any heading comes through likewise, with its level and text |
| `Normalize.ItemSurvives` | ghostbro-server/src/relay/normalize.rs:10-154 | and so does any list item |

## Left out

- Real cryptography: X25519, Ed25519, ChaCha20-Poly1305, SHA-2, Argon2 and the Noise handshake itself appear only through the laws above; a connection enters the gate's record with whatever static key its handshake produced, and running out of nonces is not modelled.
- Fetching: HTTP, DNS guarding, redirects, registry answers and git are an arbitrary outcome of a job.
- The decoy web server, TLS, SOCKS5, command line, key files, configuration and logging.
- XDP header parsing and the ring-buffer layout: the gate starts from a source address, a payload length and a time.
- Failover between servers and the client's clock-drift warning: candidates are ordered by a library sort or shuffle on configured priority or measured latency, and the drift is one subtraction against a threshold; neither keeps state that the parts modelled here read.
- TOML syntax: the counter file is a table from text to number. The hexadecimal conversion of its keys is modelled in full.
- Races of several processors on one BPF bucket, failed bucket inserts, and the kernel's eviction policy: bucket updates are single steps and eviction is an arbitrary removal.
- Backward clocks: the gate's, the buckets' and the relay's clocks do not go back, and a submission reads the relay's clock once.
- File-system failures inside the relay and worker panics: the stranding and quota results are for runs without them.
- Other clients of the relay: the engine is seen from one client, for whom a worker busy with another client's job is a free one.
- RelayQuota.RecordedBytesBounded: the usage scan is one step there. `RelayScan.ScannedBytesBounded` has it record by record, for runs in which no job is claimed more than twice since the last start. A submission and the recovery beside it make two claims; a third needs one source submitted again within one millisecond, for which `relay_job_id` gives the same identifier. The check of a submission is one step in both.
- AllowGate.EbpfRuntime.PurgeKeyId: the methods of this class run without interference; the interleavings are those of the `Next` steps in the same module, where the accept that counts as latest is the one whose mirror write is complete.
- RelaySpool.Engine.ProcessJob: runs without interference, like the other methods of this class; the interleavings are those of `RelayEngine.Next`. The objects written beside the records are not part of the spool there.
- RelayDownload.FetchObject: the object is complete, unexpired and unchanged during the download, as a caller can arrange; the transport between client and server is the call itself.
- RelayDownload.Download: a request string that is not UTF-8 is not told apart from one with other invalid characters; the answer is the same.
- NormalizeLeftover.HiddenAllGone: the condition on a whole document is sufficient; it is exact for one element and all continuations (`GapSafeIff`).
- NormalizeNested.RemovedIffFlat: text in such a document holds neither mark of the tag and does not end in a part of one, and names are letters and digits; what happens to other text is said by `ElementHidden` and `BareMarkKept`.
- RunSpa.RunLoop: kernel checks, proxy checks and evictions come between the turns of the loop there; inside a turn they are interleaved by the gate's own steps, to which `MapsAgree` and `ConnectionsBacked` apply.
- NoiseStream.Drive: octets of a chunk whose flush failed count as accepted in the record kept for the proof, so after a write error it is open whether they were sent.
- PackageSpec.SpecRoundTrip: the kinds of validation error are not told apart, and lengths are counted in characters, which are octets for every name and version that is accepted.
- SpaVerifier.NoReplay: the state file is never changed from outside, and a server without one (used by the source's own tests) keeps no disk.
