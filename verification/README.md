# Netom in Dafny

A model of the parts of Netom, a collector of BGP and BMP routing data, whose
correctness is hardest to see from the code, and proofs of what those parts
promise. `dafny verify dfyconfig.toml` checks the whole project.

| area | modules | main results |
|---|---|---|
| durable spool | `SpoolLog`, `SpoolFormat`, `SpoolRecovery`, `SpoolWriter`, `SpoolSegment`, `SpoolOpen` | what the reader accepts, recovery after every cut, confluence of interrupted recovery, what failed and retried appends leave and exactly when it is refused, permanence of the stream binding |
| HTTP client | `HttpText`, `HttpBody`, `HttpChunked`, `HttpHead` | the decoder on every cut of every chunked body, every buffer and every short read |
| row encoder | `RowBinary`, `PathAttributes`, `EventRow` | unique decodability of whole batches, the attribute walker as a fold over the serialised list |
| ingress register | `IngressRegister`, `IngressTable` | no ABA in retirement, exclusive claims, generations and revisions, over every interleaving |
| identity cache | `IdentityCache` | when an identity found by its key is the one the register gives now |
| counters | `PeerStats`, `MapSum` | aggregate gauge equal to the sum of the families, aliases |
| interner | `Interner`, `InternerTable` | one blob per content, refinement to a plain map, sweeps are invisible |
| shared map | `FrimMap` | linearisability of the retry loop, frozen guards |
| gates | `Gate`, `GateProcess` | the clone registry, in-order delivery, role assertions, termination after the root |
| manager | `StartUp`, `Reconcile` | the two-phase barrier, reconciliation with a new configuration |
| output filter | `LineFilter` | output independent of how the input is split |

Protocols are state machines over atomic steps, and their theorems range over
every run. Code that updates fields or loops over variables is written as
classes and methods, each proved against a function or a step of the state
machine that the theorems are about. A method that models a failing system call
takes the failure as a parameter.

What is not visible is a parameter with the weakest law that is needed: SHA-256
is any function to 32 bytes, LZ4 any pair where decompressing a compressed block
to its length gives it back within the length bound that the reader checks, UTF-8
decoding any function that is the identity on ASCII, lower-casing any function.

## Where the code does less than its documentation says

- `HttpChunked`: truncation is detected exactly when no chunk size is cut within
  its leading zeros. `01` cut to `0` looks like the last chunk, so a body with a
  zero-padded size can be cut without being reported. `ReportedCompleteExactlyWhen`
  gives the condition and `LeadingZeroHidesACut` the input.
- `Segment::append` writes a frame and only then finds that the row total no
  longer fits 32 bits. The segment is then refused by both modes of the reader
  exactly once that frame is wholly on disk, whatever follows:
  `OverflowIsFatalExactlyOnceWhole`. Rows stored before are lost with it, and the
  next open fails: `RefusedFileStopsTheNextOpen`.
- The exporter keeps a segment and retries `append` after any error, also when the
  roll-back failed. The retried frame then stands behind a part of the first one,
  or, when only the seek failed, behind a hole of zeros: `RetriedAppendLeaves`. A
  hole of eight bytes or more reads as a footer out of place and the segment is lost:
  `RetryBehindAHoleLosesTheSegment`. Behind a part with a whole header it is lost
  unless the mixed block happens to have the checksum of the first payload:
  `MixedFrameIsRefusedExactlyWhen`.
- `FrimMap::remove` documents that it returns the removed value. Under contention a
  retried removal also returns a value that somebody else removed:
  `BothRemoversReturnIt`. `RemoveReturnsWhatItRemovedExactlyWhen` gives the
  condition over a whole call, and `UncontendedRemoveReturnsIt` the caller's case.
- `| count` prints "Number of lines which match" and counts all lines. What it
  prints is right exactly when every line matches: `CountIsRightExactlyWhen`,
  `CountIsWrong`.
- `retire_path_child` does not see a touch from before an entry was removed and
  registered again: `ReinsertionIsNotSeen`.
- The session claim hands out an entry that is already connected:
  `SessionClaimIsNotExclusive`. `ClaimedAgainExactlyWhen` says that this is the only
  way for an id to be claimed twice without a release between.
- The exporter's identity cache gives an unknown session and a session just
  registered the same key, and so do a session removed and registered again, so the
  identity rendered before is found again: `UnknownPeerIsRemembered`,
  `ReregisteredPeerIsRemembered`. `EqualKeysEqualIdentities` says exactly when equal
  keys of a session that was not removed stand for equal identities.
- The aggregate Adj-RIB-In gauge saturates while the family map wraps, so they part
  exactly when a total does not fit 64 bits: `OperationKeepsAgreement`.
- A Trigger reaching a root gate with a registered clone panics, because the command
  cannot be cloned: `TriggerPanicsExactlyWhen`.
- A unit and a target that share a name and are both started make the start-up
  coordinator panic: `SpawnInternal` returns false exactly then, `SharedNamePanics`
  shows such a configuration and `DisjointNamesNeverClash` the usual way to avoid it.

## Model

| member | source | states |
|---|---|---|
| SpoolLog.SealedIsExactlyWhatScanAccepts | src/targets/clickhouse/spool.rs:202-267 | A byte string is accepted as sealed, in either mode, exactly when it is preamble, valid frames and the matching footer with nothing after, and then with exactly that token and those frames |
| SpoolLog.SealedIsUnique | src/targets/clickhouse/spool.rs:202-267 | Two decompositions of one sealed segment are equal |
| SpoolLog.RecoveryAcceptsATornTail | src/targets/clickhouse/spool.rs:200-267 | Recovery mode accepts an unsealed file exactly when whole frames are followed by a tail too short for its header or block |
| SpoolLog.ScanFile | src/targets/clickhouse/spool.rs:202-267 | The reader reports the token, the row total, the end of the last whole frame, the running hash exactly for a torn file, and hands out the payloads in order; every error case is the specified one |
| SpoolLog.ScanFrames | src/targets/clickhouse/spool.rs:216-267 | The loop over frames computes the outcome of the recursive specification from its running hash, row count and offset |
| SpoolLog.ScanEnd | src/targets/clickhouse/spool.rs:218-239 | The rounds that end the loop: torn tail, malformed frame, footer mismatch, bytes after the footer |
| SpoolFormat.SpoolWireIsLawful | src/targets/clickhouse/spool.rs:156-267 | The concrete frame and footer layout satisfies every law that the log theory needs: read back whatever follows, cut frames are torn, what is read was written |
| SpoolFormat.FrameIsRead | src/targets/clickhouse/spool.rs:156-167 | A written frame is read back as itself whatever follows it |
| SpoolFormat.CutFrameIsTorn | src/targets/clickhouse/spool.rs:217-246 | Every proper prefix of a frame is a torn tail, never another item |
| SpoolFormat.FooterIsRead | src/targets/clickhouse/spool.rs:187-191 | A footer is read back as a footer, never as a frame |
| SpoolRecovery.CutSegmentRecovers | src/targets/clickhouse/spool.rs:156-305 | For every frame list and every cut, footer included, recovery leaves the sealed segment of exactly the frames wholly inside the cut under the same token, or removes a file under 24 bytes |
| SpoolRecovery.RecoveredSegmentReplays | src/targets/clickhouse/spool.rs:156-305 | Replaying the recovered segment emits the payloads of exactly those frames in order |
| SpoolRecovery.WholeWithinIsMaximal | src/targets/clickhouse/spool.rs:280-305 | The frames kept are the longest prefix that fits inside the cut |
| SpoolRecovery.AttemptKeepsFinal | src/targets/clickhouse/spool.rs:187-198 | One recovery interrupted anywhere does not change where an uninterrupted one ends |
| SpoolRecovery.InterruptedRecoveryIsConfluent | src/targets/clickhouse/spool.rs:280-305 | Any number of interrupted recoveries followed by a complete one leave byte for byte the file of a single uninterrupted recovery, and fail exactly when it fails |
| SpoolRecovery.OverflowedSegmentIsLost | src/targets/clickhouse/spool.rs:175-181 | A frame that takes the row total past 32 bits makes the file unreadable in both modes whatever follows |
| SpoolRecovery.RefusedExactlyWhen | src/targets/clickhouse/spool.rs:280-305 | Recovery reports an error exactly on files of 24 bytes or more that are neither a sealed segment nor whole frames followed by a torn one |
| SpoolRecovery.NextItemDecides | src/targets/clickhouse/spool.rs:216-267 | What stands behind the whole frames decides: a torn item is cut off, a malformed one, a footer with another row total or one that is not the end rejects the file in both modes |
| SpoolWriter.OrderlyWriterIsClean | src/targets/clickhouse/spool.rs:156-182 | After any appends that were stored or rolled back, file, position, hash, rows and raw bytes are exactly those of the stored frames: failures left no trace |
| SpoolWriter.OverflowIsFatalExactlyOnceWhole | src/targets/clickhouse/spool.rs:175-181 | A file with an overflowing append, continued and sealed in any way and cut anywhere, is refused exactly once that frame is whole, and otherwise recovers to the frames inside the cut |
| SpoolWriter.UnfinishedWriteRecovers | src/targets/clickhouse/spool.rs:168-174 | A failed write that nothing was appended after recovers like any other cut, rolled back or not |
| SpoolWriter.RetriedAppendLeaves | src/targets/clickhouse/target.rs:391-398 | An append after a failed roll-back stands behind a part of the failed frame, or behind a hole as long as that part |
| SpoolWriter.MixedFrameIsRefusedExactlyWhen | src/targets/clickhouse/spool.rs:241-257 | A frame completed by other bytes is refused exactly when the mixed block does not unpack to the announced length and checksum |
| SpoolWriter.PartIsRefused | src/targets/clickhouse/spool.rs:241-257 | A segment with such a mixture behind its whole frames is rejected in both modes |
| SpoolWriter.SpoolHolesReadAsFooters | src/targets/clickhouse/spool.rs:225-239 | Eight zero bytes and the rest of a header read as a footer |
| SpoolWriter.RetryBehindAHoleLosesTheSegment | src/targets/clickhouse/target.rs:499-505 | A segment whose writer retried after a seek that failed over eight bytes or more is rejected in both modes and cannot be recovered |
| SpoolSegment.Segment.constructor | src/targets/clickhouse/spool.rs:127-154 | A new segment is the preamble with the token, an empty frame list, and no other file changes |
| SpoolSegment.Segment.Append | src/targets/clickhouse/spool.rs:156-182 | From any state of the writer: the answer and the whole new state of file, position, hash, rows and raw bytes; an orderly writer stays one when the frame is stored or the failure undone |
| SpoolSegment.Segment.FailedWrite | src/targets/clickhouse/spool.rs:168-174 | The file and the position after a write that stopped early, for each outcome of truncation and seek |
| SpoolSegment.Segment.StoreFrame | src/targets/clickhouse/spool.rs:175-182 | The file, hash and position after a write that succeeded; rows and raw bytes move exactly when the row total fits |
| SpoolSegment.Segment.Seal | src/targets/clickhouse/spool.rs:187-198 | Success, and a directory sync that fails after the rename, move the file completed by its footer to the ready name; an earlier failure leaves it open with all or a part of the footer; an orderly segment becomes the sealed one |
| SpoolSegment.RecoverSegment | src/targets/clickhouse/spool.rs:280-305 | An uninterrupted recovery does what the specification says, replacing a ready file of the same name; an interrupted one leaves one of the states the confluence theorem is about; no other file changes |
| SpoolSegment.Validate | src/targets/clickhouse/spool.rs:269-272 | Succeeds exactly on sealed segments and returns their token and row total |
| SpoolSegment.Replay | src/targets/clickhouse/spool.rs:273-278 | Succeeds exactly on sealed segments and emits the original blobs |
| SpoolSegment.SpoolPacks | src/targets/clickhouse/spool.rs:156-165 | Every payload that append accepts becomes a frame the reader accepts |
| SpoolOpen.StepKeepsInv | src/targets/clickhouse/spool.rs:28-84 | Every step of an open, a crash, a writer with any failed and retried appends, a seal or an upload keeps the directory invariant |
| SpoolOpen.NoSegmentWithoutManifest | src/targets/clickhouse/spool.rs:28-84 | In every history a directory with a segment has a complete manifest |
| SpoolOpen.OpensAgree | src/targets/clickhouse/spool.rs:28-84 | Any two opens that returned, whatever lies between, returned the same stream for the same destination |
| SpoolOpen.OnlyTheBoundDestinationOpens | src/targets/clickhouse/spool.rs:28-84 | After a successful open a later one passes the manifest exactly when it names the same destination |
| SpoolOpen.RecoveryFailsExactlyWhen | src/targets/clickhouse/spool.rs:28-84 | In every history a recovery step fails the open exactly on a refused file and then changes nothing; otherwise one leftover file is gone |
| SpoolOpen.RecoveryNeverFailsAfterCuts | src/targets/clickhouse/spool.rs:28-84 | While every writer so far stopped at a cut no recovery fails, whatever crashes and interrupted recoveries lie between |
| SpoolOpen.OrderlyLeavesACut | src/targets/clickhouse/spool.rs:156-198 | A writer that stored or undid every append left a cut wherever it stopped |
| SpoolOpen.UnfinishedFrameIsACut | src/targets/clickhouse/spool.rs:156-182 | So did one whose last frame failed or overflowed, as long as that frame is not whole |
| SpoolOpen.RefusedFileStopsTheNextOpen | src/targets/clickhouse/spool.rs:28-84 | A history in which a writer left any refused file and the next open fails |
| SpoolOpen.OverflowIsRefused | src/targets/clickhouse/spool.rs:175-181 | A file that starts with an overflowing frame, cut anywhere, is refused exactly once that frame is whole |
| SpoolOpen.RetryBehindAHoleIsRefused | src/targets/clickhouse/target.rs:391-398 | An append retried behind a hole leaves a refused file |
| HttpText.ChunkSizeOf | src/bin/netom-cli/http.rs:228-235 | The size of a line of hexadecimal digits followed by white space or an extension is the value of the digits |
| HttpText.HexCut | src/bin/netom-cli/http.rs:228-235 | A prefix of a number without leading zero is positive and no larger than the number |
| HttpBody.Response.Read | src/bin/netom-cli/http.rs:258-289 | A read delivers the next part of what is pending for any buffer and any short read; an empty result marks the end and says whether it was a cut |
| HttpBody.Response.NextChunk | src/bin/netom-cli/http.rs:204-250 | Reaching the next chunk keeps what is pending, ends the body, or finds it cut or malformed |
| HttpBody.Response.ReadCounted | src/bin/netom-cli/http.rs:204-289 | Counted data is delivered in order, and missing data marks the body as truncated |
| HttpBody.Response.ReadToEnd | src/bin/netom-cli/http.rs:194-289 | With any sequence of non-empty buffers the concatenated reads are exactly the pending data and `truncated` is set exactly on a cut |
| HttpChunked.DecodesEveryCut | src/bin/netom-cli/http.rs:204-289 | For every chunk list and every cut the decoder delivers exactly the data bytes present and ends as specified |
| HttpChunked.CutHeaderSize | src/bin/netom-cli/http.rs:228-235 | The size shown by a chunk header cut after any byte |
| HttpChunked.ReportedCompleteExactlyWhen | src/bin/netom-cli/http.rs:204-289 | A body is reported complete exactly when the last zero digit arrived or the cut fell within the leading zeros of a size |
| HttpChunked.TruncationIsDetected | src/bin/netom-cli/http.rs:194-289 | Without leading zeros, truncation is reported exactly when the cut falls before the terminal chunk's zero digit |
| HttpChunked.LeadingZeroHidesACut | src/bin/netom-cli/http.rs:228-245 | A zero-padded size whose cut goes unnoticed |
| HttpChunked.WholeBodyIsDelivered | src/bin/netom-cli/http.rs:204-289 | An uncut body is delivered whole |
| HttpChunked.DeliveredIsAPrefix | src/bin/netom-cli/http.rs:204-289 | Whatever the cut, what is delivered is a prefix of the data |
| HttpHead.ReadHead | src/bin/netom-cli/http.rs:139-176 | The header loop ends at the empty line and chooses chunked if any line says so, else the last usable length, else end of file |
| HttpHead.FramingGrows | src/bin/netom-cli/http.rs:150-172 | Revising the framing line by line computes the choice over all lines |
| RowBinary.WriteVarint | src/targets/clickhouse/event.rs:37-43 | The shifting loop appends the variable-length integer |
| RowBinary.VarintRoundTrip | src/targets/clickhouse/event.rs:37-43 | The integer is read back exactly whatever follows |
| RowBinary.VarintIsPrefixFree | src/targets/clickhouse/event.rs:37-43 | No encoding of a length is the beginning of another |
| RowBinary.FieldRoundTrip | src/targets/clickhouse/event.rs:37-59 | Every kind of field is read back by its column type alone whatever follows |
| RowBinary.RowRoundTrip | src/targets/clickhouse/event.rs:61-106 | A row is read back by its schema alone whatever follows |
| RowBinary.RowWriter.WriteText | src/targets/clickhouse/event.rs:44-47 | Appends one length-prefixed string to the row |
| RowBinary.RowWriter.WriteOptional | src/targets/clickhouse/event.rs:48-53 | Appends one nullable field to the row |
| RowBinary.RowWriter.WriteList | src/targets/clickhouse/event.rs:54-59 | The loop over items appends one length-prefixed array to the row |
| PathAttributes.UnframeIsInverse | src/targets/clickhouse/event.rs:131-144 | A byte string is well framed, with short or extended lengths, exactly when it is the serialisation of a list of attributes, and of that list only |
| PathAttributes.ReadPath | src/targets/clickhouse/event.rs:205-223 | The segment loop computes the path of the specification |
| PathAttributes.PathIsRead | src/targets/clickhouse/event.rs:205-223 | A serialised path of any segments is read as the concatenation of their AS numbers |
| PathAttributes.ReadIsPath | src/targets/clickhouse/event.rs:205-223 | Whatever is read as a path is the serialisation of one |
| PathAttributes.Parse | src/targets/clickhouse/event.rs:124-204 | The walker's single pass equals undoing the framing and folding the effects, failures included |
| PathAttributes.ParseOfSerialised | src/targets/clickhouse/event.rs:124-204 | On the serialisation of any attribute list the walker is the fold of the per-attribute effects |
| PathAttributes.ParseFailsExactlyWhen | src/targets/clickhouse/event.rs:124-204 | It fails exactly on malformed framing or on a value that is not what its type asks for |
| PathAttributes.MalformedExactlyWhen | src/targets/clickhouse/event.rs:145-200 | A value is malformed exactly when a path is no serialised path, a number or list has the wrong length, or an announcement of the own family ends before its next hop does |
| PathAttributes.UnknownAttributesAreInvisible | src/targets/clickhouse/event.rs:198-200 | A well-framed attribute of an uninspected type anywhere changes nothing |
| PathAttributes.LastAttributeWins | src/targets/clickhouse/event.rs:145-178 | Each derived column but the next hop is read off the last attribute of its own type |
| PathAttributes.NextHopOfMpReach | src/targets/clickhouse/event.rs:179-197 | The next hop of a multiprotocol announcement of the route's own family, by address family and length |
| PathAttributes.LastHopWins | src/targets/clickhouse/event.rs:148-197 | The next hop is the last one that a NEXT_HOP or multiprotocol attribute gives to the route's own family |
| PathAttributes.FoldIsTyped | src/targets/clickhouse/event.rs:111-122 | The derived columns always fit the widths of their types |
| EventRow.EncodeEvent | src/targets/clickhouse/event.rs:61-106 | The encoder appends exactly the 28 columns of the event's row |
| EventRow.FieldsFollowSchema | docs/clickhouse/schema.sql:5-32 | The columns written are, in order and type, those of the table |
| EventRow.RowFromFields | src/targets/clickhouse/event.rs:61-106 | The columns give back every scalar field, the raw attributes, the identity and the derived arrays |
| EventRow.EventIsRead | src/targets/clickhouse/event.rs:61-106 | One encoded event is read back by the table's schema whatever follows it |
| EventRow.BatchIsDecoded | src/targets/clickhouse/event.rs:37-106 | One decoder recovers the rows of every batch from the concatenated encodings |
| EventRow.BatchesAreUniquelyDecodable | src/targets/clickhouse/event.rs:37-106 | Equal bytes mean equal rows |
| IngressRegister.ActivityOfRun | src/ingress/register.rs:661-702 | While an entry stays, its activity never falls, is unchanged without a touch, and shows a touch unless saturated |
| IngressRegister.RetirementSeesEveryTouch | src/ingress/register.rs:661-702 | In every interleaving, an entry that stayed since its activity was observed is retired exactly when nothing touched it since, it is a connected path child and the count is not the maximum |
| IngressRegister.ReinsertionIsNotSeen | src/ingress/register.rs:683-702 | Removed and registered again, an entry is retired in spite of a touch |
| IngressRegister.ClaimsAreExclusive | src/ingress/register.rs:786-894 | A peer, path-child or router claim returns an id that any claim returned before only after a step that disconnected or removed it |
| IngressRegister.OnlyReleasesDisconnect | src/ingress/register.rs:595-702 | No other step takes an entry out of the connected state |
| IngressRegister.SessionClaimIsNotExclusive | src/ingress/register.rs:627-645 | The session claim returns a connected entry a second time |
| IngressRegister.ClaimedAgainExactlyWhen | src/ingress/register.rs:627-894 | Between two claims of one id, of any kinds, lies a release, or the later one is a session claim that found the entry connected |
| IngressRegister.ClaimedStaysConnected | src/ingress/register.rs:608-619 | A claimed id with no release since is registered and connected, whatever garbage collections ran |
| IngressRegister.GenerationOfRun | src/ingress/register.rs:203-227 | While an entry stays its history generation never falls and rises with each claim below the maximum |
| IngressRegister.RevisionOfRun | src/ingress/register.rs:203-227 | While an entry stays its revision never falls, shows every edit unless saturated, and an entry other than a path child is unchanged without one |
| IngressRegister.ReclaimOnlyDisconnected | src/ingress/register.rs:608-619 | Garbage collection removes an entry exactly when it is disconnected at that moment and touches no other |
| IngressRegister.IdsRepeatAfterAWholeTurn | src/ingress/register.rs:440-442 | Two new ids are equal exactly when a whole turn of the 32-bit counter lies between them |
| IngressTable.Register.NewIngressId | src/ingress/register.rs:440-442 | Takes the step that hands out a new id |
| IngressTable.Register.Update | src/ingress/register.rs:203-227 | Takes the merge step: set fields replace, a reconnect raises the generation, the revision always rises |
| IngressTable.Register.RemoveDisconnected | src/ingress/register.rs:608-619 | Takes the reclaim step and reports a removal exactly when there was one |
| IngressTable.Register.Disconnect | src/ingress/register.rs:649-657 | Takes the disconnect step and reports whether the id was known |
| IngressTable.Register.RefreshPathChild | src/ingress/register.rs:661-680 | Takes the refresh step, valid exactly when type, parent and path id match |
| IngressTable.Register.RetirePathChild | src/ingress/register.rs:683-702 | Takes the retire step and reports exactly whether it retired |
| IngressTable.Register.FirstMatch | src/ingress/register.rs:786-894 | The search loop finds an eligible entry if there is one, whatever the order |
| IngressTable.Register.ClaimBgpSession | src/ingress/register.rs:627-645 | Claims an entry that matches, or none when none does |
| IngressTable.Register.ClaimIdlePeer | src/ingress/register.rs:786-808 | Claims an unconnected entry of the same peer, or none when there is none |
| IngressTable.Register.ClaimPathChild | src/ingress/register.rs:819-843 | Claims an unconnected path child and records activity, or none when there is none |
| IngressTable.Register.ClaimBmpRouter | src/ingress/register.rs:864-894 | Claims an unconnected router entry, or none when there is none |
| IdentityCache.EqualKeysEqualIdentities | src/targets/clickhouse/target.rs:162-187 | At any two times of any interleaving between which session and router are not removed, equal cache keys of an unsaturated session stand for the same identity exactly when session and router were known at both times or at neither |
| IdentityCache.UnknownPeerIsRemembered | src/targets/clickhouse/target.rs:168-175 | A lookup before registration and one after it share a key and differ in identity |
| IdentityCache.ReregisteredPeerIsRemembered | src/targets/clickhouse/target.rs:168-175 | A session removed and registered again has its old key and another identity |
| IdentityCache.AnswersAreCurrent | src/targets/clickhouse/target.rs:162-187 | The answer about a session that was known at each of its lookups and not removed since is what the register would give at that moment, whatever was evicted and whatever other entries were removed |
| IdentityCache.Cache.Find | src/targets/clickhouse/target.rs:162-187 | Answers from the cache or renders; evicts and stores exactly as the limits of 65536 entries, 16 MiB and 256 KiB say; the byte count is that of the entries and both limits always hold |
| PeerStats.OperationKeepsAgreement | src/ingress/peer_stats.rs:84-130 | Aggregate and family sum stay equal exactly when the total fits 64 bits, and the aggregate subtraction never saturates |
| PeerStats.RunKeepsAgreement | src/ingress/peer_stats.rs:84-130 | One gauge agrees after any sequence of operations that fit |
| PeerStats.BgpPeerStats.AddAdjRibIn | src/ingress/peer_stats.rs:84-96 | Adds to family and aggregate; the two agree afterwards exactly when the total fits |
| PeerStats.BgpPeerStats.SubAdjRibIn | src/ingress/peer_stats.rs:100-112 | Takes what the family has from both, so they go on agreeing and the aggregate falls by just that |
| PeerStats.BgpPeerStats.ResetAdjRibIn | src/ingress/peer_stats.rs:116-120 | Clears both |
| PeerStats.BgpPeerStats.ResetAdjRibInFamily | src/ingress/peer_stats.rs:124-130 | Drops one family and exactly its routes from the aggregate |
| PeerStats.Registry.GetOrCreate | src/ingress/peer_stats.rs:240-252 | Idempotent; a new session gets gauges of its own, and all gauges go on agreeing |
| PeerStats.Registry.AliasTo | src/ingress/peer_stats.rs:280-288 | A child shares its parent's gauges, and is refused when the parent is unknown; all gauges go on agreeing |
| PeerStats.Registry.RemoveEntry | src/ingress/peer_stats.rs:290-294 | Removes one entry and keeps the others and their agreement |
| PeerStats.Registry.Operate | src/ingress/peer_stats.rs:84-130 | An operation through a session or any alias lands on that session's gauges only, and all gauges of the registry go on agreeing whenever it fits |
| PeerStats.Registry.SnapshotAll | src/ingress/peer_stats.rs:300-310 | Lists each session once with its own gauges, and no alias |
| Interner.StepKeepsInv | src/payload.rs:262-341 | Every step of interning, dropping and sweeping by any threads keeps the table invariant |
| Interner.PruneKeepsInv | src/payload.rs:262-286 | Taking out a dead slot in the loop loses no live slot and keeps what the search knows |
| Interner.SearchesEnd | src/payload.rs:262-286 | A search makes at most as many rounds as its bucket had slots, whatever is dropped, swept or interned meanwhile |
| Interner.LiveHandlesAreCanonical | src/payload.rs:262-341 | In every state of every run two live handles with equal bytes are the same blob |
| Interner.StepRefines | src/payload.rs:262-286 | Each step ends a call as the plain specification says or leaves the blobs alone |
| Interner.RunRefines | src/payload.rs:262-341 | Every run, seen through its events, is a history of a plain map from content to live blob |
| Interner.AnswersAreDetermined | src/payload.rs:262-286 | In that specification equal requests get equal answers |
| Interner.SweepsChangeNothing | src/payload.rs:308-341 | Two runs with the same requests, however sweeps and interleavings differ, give the same answers and blobs |
| InternerTable.PathAttributeInterner.Intern | src/payload.rs:262-286 | Returns the live blob with these bytes or a new one, and counts the handle |
| InternerTable.PathAttributeInterner.Look | src/payload.rs:262-286 | The pruning search loop finds the live blob if there is one |
| InternerTable.PathAttributeInterner.SweepShard | src/payload.rs:308-341 | Removes exactly the dead slots and the buckets they emptied, and returns their numbers |
| InternerTable.SweepAccounts | src/payload.rs:308-341 | Slots before are slots after plus dead ones, buckets before are buckets after plus emptied ones |
| InternerTable.PathAttributeInterner.Stats | src/payload.rs:355-369 | The numbers of buckets, of slots with dead ones, and of blobs in use, each counted once |
| FrimMap.UpdateRefines | src/common/frim.rs:212-258 | Each computed contents keeps keys distinct and stands for the updated plain map |
| FrimMap.GetIsLookup | src/common/frim.rs:186-192 | A lookup finds what the plain map holds |
| FrimMap.ContentsAreTheReplayedLog | src/common/frim.rs:175-258 | In every interleaving the contents are the committed updates applied in commit order to a plain map, with distinct keys |
| FrimMap.EachCallCommitsOnce | src/common/frim.rs:212-258 | A call loaded at one step and ended at another put its operation at a place of the log that no other commit takes and where every later state has it |
| FrimMap.LogCountsCommits | src/common/frim.rs:212-258 | The log holds one operation for each ended call and each store, and nothing else |
| FrimMap.GuardsAreFrozen | src/common/frim.rs:175-180 | What a guard shows never changes |
| FrimMap.RemoveReturnsWhatItRemovedExactlyWhen | src/common/frim.rs:247-258 | Over a whole call, the returned value is the removed one exactly when the key is there at the commit or no retry had loaded contents that held it |
| FrimMap.UncontendedRemoveReturnsIt | src/common/frim.rs:247-258 | A removal with no commit since its load commits at once and returns what it removed |
| FrimMap.BothRemoversReturnIt | src/common/frim.rs:247-258 | A run from the empty map in which two ended removals return one value |
| Gate.StepKeepsInv | src/comms.rs:318-537 | Every step keeps the registry and queue invariant, and only forwarding a Trigger to a clone panics |
| Gate.EveryLiveCloneIsRegistered | src/comms.rs:800-847 | In every run the root's sender map is exactly the live clones that have not detached, clones of clones included, and no queue exceeds sixteen |
| Gate.DeliveredInOrder | src/comms.rs:480-537 | Between notifications, a live clone that stayed registered has taken or queued exactly the commands forwarded since it was made, in order, unless a full queue dropped one |
| Gate.SweepFindsNothing | src/comms.rs:480-537 | The removal of closed senders never removes a clone that did not remove itself |
| Gate.NoAssertionFails | src/comms.rs:318-478 | No role assertion fails and no uncloneable command is met in any run that processes no Trigger with a clone registered |
| Gate.TriggerPanicsExactlyWhen | src/comms.rs:1657-1680 | A Trigger panics exactly when a clone is registered |
| Gate.ClonesTerminateAfterRoot | src/comms.rs:189-203 | After the root is dropped no clone ever waits: it takes at most its queued commands, at most sixteen, and then finds its channel closed; a clone made later finds it closed at once |
| GateProcess.CloneGate.Process | src/comms.rs:318-478 | One call consumes commands in order up to the first that makes it return, and no role assertion fails |
| GateProcess.CloneGate.ProcessToTermination | src/comms.rs:318-478 | Repeated calls without a sender end in Terminated after the commands up to the first Terminate or the whole queue |
| StartUp.StepKeepsInv | src/manager.rs:1371-1475 | Every step keeps each component within one arrival of the barrier and the arrivals accounted for |
| StartUp.NobodyPassesEarly | src/manager.rs:1371-1475 | Nobody passes ready, or running, before every tracked component has reached it |
| StartUp.OpensExactlyWhenAllArrived | src/manager.rs:1431-1475 | A phase opens exactly when every tracked component has reached it and the coordinator has made its own arrivals |
| StartUp.ArrivalsPerPhase | src/manager.rs:1403-1475 | Each opened phase took exactly `max + 1` arrivals, and there are two phases |
| StartUp.NeverStuck | src/manager.rs:1431-1475 | Until everybody is through both phases somebody can take a step |
| StartUp.StartUpIsBounded | src/manager.rs:1371-1475 | Tracking apart, no start-up takes more than four steps for each component, two for each unused place and three more |
| StartUp.StartUpEnds | src/manager.rs:1431-1475 | A start-up that can go no further has its coordinator done and every component running |
| StartUp.StartUpPanicsExactlyWhen | src/manager.rs:1416-1429 | Tracking panics exactly on a repeated name or on more names than announced |
| Reconcile.Manager.SpawnInternal | src/manager.rs:943-1088 | For every running set, configuration and drain order each component gets exactly what is owed to it in order and the running sets and pending gates become the planned ones; it panics exactly when a unit and a target of one name are both started |
| Reconcile.Manager.AlignTargets | src/manager.rs:951-996 | The target loop settles exactly the configured targets |
| Reconcile.Manager.AlignUnits | src/manager.rs:998-1073 | The unit loop settles exactly the configured units |
| Reconcile.Manager.OneTarget | src/manager.rs:951-996 | One target is reconfigured, replaced or started |
| Reconcile.Manager.OneUnit | src/manager.rs:999-1073 | One unit is reconfigured, replaced, started, or stopped as unused |
| Reconcile.Manager.Stop | src/manager.rs:1075-1085 | What is no longer configured is terminated once |
| Reconcile.OneCommandEach | src/manager.rs:951-1085 | Every old component gets exactly one of reconfigure and terminate, before any spawn |
| Reconcile.SpawnsExactlyTheNew | src/manager.rs:951-1073 | A component is spawned once exactly when it is configured, usable, and not running with that type |
| Reconcile.RunningIsConfigured | src/manager.rs:1087-1088 | Afterwards the running targets are the configured ones and the running units the configured ones that had a pending gate |
| Reconcile.CoordinatorIsLargeEnough | src/manager.rs:946-948 | The coordinator announces enough components for everything that is started |
| Reconcile.DisjointNamesNeverClash | src/manager.rs:1416-1429 | Disjoint unit and target names never panic |
| Reconcile.SharedNamePanics | src/manager.rs:1416-1429 | A configuration that does |
| LineFilter.FilterAll | src/bin/netom-cli/pipe.rs:39-101 | Every split of the input into writes gives the specified output of the whole input |
| LineFilter.Filter.Write | src/bin/netom-cli/pipe.rs:86-96 | Byte by byte, the buffer is the unterminated line and every ended line has been dealt with |
| LineFilter.Filter.Finish | src/bin/netom-cli/pipe.rs:68-82 | The output is a function of everything written, an unterminated last line included |
| LineFilter.Filter.Keep | src/bin/netom-cli/pipe.rs:39-56 | A line passes by its content, or for begin by any line up to it |
| LineFilter.LinesAreTheInput | src/bin/netom-cli/pipe.rs:86-96 | The lines rejoined are the input and none holds a line feed |
| LineFilter.CountIsRightExactlyWhen | src/bin/netom-cli/pipe.rs:51-82 | The count printed is the number of matching lines exactly when every line matches |
| LineFilter.CountIsWrong | src/bin/netom-cli/pipe.rs:51-82 | A line without the pattern that is announced as a match |

## Left out

- The file system, locks, fsync, sockets, timeouts, task scheduling, HTTP servers, TLS, MQTT and the web interface: only the steps named above are modelled, with failures as parameters.
- SHA-256, LZ4 and UTF-8: no detection of corruption is claimed beyond equality of hashes.
- SpoolLog.ScanFile: does not model an error raised by the caller's own callback, which would end the reader early.
- SpoolOpen: a crash may cut or lose files and undo an unsynced rename; edits by others and bit rot are not modelled.
- SpoolWriter.RetryBehindAHoleLosesTheSegment: a hole of fewer than eight bytes is not decided, because what is read there depends on the next frame, SHA-256 and LZ4.
- Interner, FrimMap, Gate and StartUp: the concurrent protocols are steps of one state value, so aliasing of the shared objects is expressed by ids rather than by references.
- Gate: the maps of update senders and the status derived from their sizes, and a `process` call cancelled between taking a Reconfigure command and installing its queue.
- GateProcess.CloneGate.Process: whether the status changed is a parameter, since the shared maps decide it.
- StartUp: a component that calls `ready` more than once before `running`, and the slow-component alarm.
- Reconcile.Manager.SpawnInternal: the settings of a component are one opaque value, and what the state is after the panic is not stated.
- RowBinary.RowWriter.WriteList: lengths are unbounded naturals rather than 64-bit ones.
- IngressRegister: generation is not raised by `refresh_path_child`, which reconnects without it; that a parent has one child per path id, since children are minted elsewhere.
- IdentityCache.Cache.Find: the identity passed inline with a bulk withdrawal, the hash that names the peer and the JSON text are not modelled.
- IngressTable.Register.Update: optional fields that no method reads are entries of one map.
- LineFilter.Filter.Write: errors of the underlying writer.
- Parsing of status lines, choice of an endpoint, rendering of metrics, logging, the tracer, query filters, configuration validation and the redaction of secrets: each computes its result directly from its arguments, with no state kept between calls.
