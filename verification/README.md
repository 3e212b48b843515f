# Verified model of the SV2 applications

A Dafny model of the hardest parts of the Stratum V2 mining applications, with proofs over every
input, every run or every interleaving. `dafny verify dfyconfig.toml` checks all of it.

- **Fallback coordination** (`Coordinator.dfy`, `CoordinatorHistory.dfy`, `IoTasks.dfy`,
  `IoHistory.dfy`). The counter, the cancel token, the one-permit notification and the handlers are a
  system of atomic steps that interleave freely. The reader and writer tasks of every connection are
  composed with it, their exit paths kept as lists of operations of which one is performed at a time. A
  socket write is a state of its own, which only the environment ends. The two history files tell what
  a run leaves from its actions alone.
- **Upstream failover** (`Failover.dfy`, `Translator.dfy`, `JdClient.dfy`). The table of flagged
  entries, the nested retry loops and the main loops around them. The answers of the network and the
  events of the main loop are arbitrary.
- **CPU miner** (`Sha256.dfy`, `FastHasher.dfy`, `HeaderBytes.dfy`, `Target.dfy`, `NonceSearch.dfy`,
  `Miner.dfy`, `Device.dfy`). The midstate hasher with its reused buffers, the word-wise target
  comparison, the batched nonce search and its split across workers, and the activation of jobs. The
  compression function of SHA-256 is a parameter; initial state, padding, block layout and byte order
  are concrete.
- **Monitoring** (`Gauges.dfy`, `SnapshotCache.dfy`). Labelled gauges kept up to date incrementally.
  Every state of a gauge is logged, and the states in between are held against what the
  snapshots allow.
- **Frame reassembly** (`NoiseStream.dfy`). Buffer and cursor between a socket that delivers any
  number of bytes and a decoder that wants exact blocks.
- **Cached shares** (`ShareCache.dfy`, `ShareReplay.dfy`). The bounded cache of best shares and their
  replay under sequence numbers.
- **Payout and identity** (`Payout.dfy`, `Identity.dfy`, `Utf8.dfy`). The builder and the verifier of
  coinbase outputs, the parser of user identities, and the truncation of user names.

`Prelude.dfy` holds the value types they share.

What stands for code outside these files is a parameter: the compression function, the decoder, the
socket, the validation of a share, the conversion of an address into a script, the order on share
hashes, the clock. The hypotheses on them are in the contracts: the decoder wants a positive number of
bytes (`Positive`), the order is total (`TotalOrder`), no address contains a slash (`RejectsSlashes`).

Where the code is not what its comments or a first reading say:

- A registration that comes after the count went from one to zero can make the trigger return early
  (`LateRegisterReturnsEarly`). Tasks register inside their own body, so this can happen.
  `EarlyReturnExactly` gives the exact states.
- A peer that stops reading keeps a writer inside `write_frame`, which has no timeout and polls no
  token, and with it the trigger: once no wake-up is outstanding, nothing any other component does brings
  it back (`StalledWrite`, `StalledReturnsExactly`). Where nothing else is left to do, this and a handler dropped without
  `done` are all that keeps the trigger waiting (`RestsExactly`).
- A batch reports one hit per window and skips the rest of the window, so hits can be lost
  (`BatchCanLoseHits`); `BatchedRefinesSimple` and `NoLossExactly` give the exact conditions for losing
  none.
- Seeding writes a zero over a rejection count before the count is written again, so a scrape can see
  the series drop; it never disappears. `ZeroShowsExactly` says which series drop: those of current
  channels whose code is a seeded one.
- A server channel that stops reporting a hashrate keeps its last value in the gauge (`StaleHashrate`);
  `HashrateIsRebuildExactly` gives the exact condition.
- Coinbase outputs whose sums, or whose total times the percentage, exceed 64 bits can pass the check
  without honouring the payout mode (`WrapDefeatsSolo`, `WrapDefeatsLegacy`). `ValidatesModulo` says
  exactly what is accepted; `SoloMeetsExactly`, `LegacyMeetsExactly` and `DonateMeetsExactly` say
  exactly when that is what the documentation promises.
- A worker name with a slash after `sri/donate/` is read as a percentage and an address
  (`FullDonationExactly`).
- The comment of `hash_with_nonce_time` puts the time at bytes 0..4 and speaks of a reversal at the
  end (mod.rs:783-805). The code writes bytes 4..8 and does not reverse, and that is what is correct.
- `read_frame` is documented as not cancellation-safe (noise_stream.rs:236). Given up at an await
  point it leaves nothing behind that a later call does not pick up: `ReadFrame` keeps `Reassembled`.

## Model

The first 36 rows are the main results; the others lead to them, file by file.

| member | source | states |
|---|---|---|
| `Coordinator.EarlyReturnExactly` | stratum-apps/src/fallback_coordinator.rs:48-104 | exact condition: an early return is possible from a reachable state if and only if handlers are pending while a permit, a wake-up or an unfinished decrement-to-zero is outstanding |
| `Coordinator.SafeReturn` | stratum-apps/src/fallback_coordinator.rs:64-104 | in every run without a registration after the count went from one to zero, the trigger returns only when every registered handler has decremented |
| `Coordinator.PanickedReturnsExactly` | stratum-apps/src/fallback_coordinator.rs:84-113 | exact condition: with a handler dropped without `done`, a reachable state whose trigger is not back has a continuation in which it comes back if and only if a wake source is outstanding |
| `CoordinatorHistory.NotifiesExactly` | stratum-apps/src/fallback_coordinator.rs:91-104 | the last test of `done` leads to a notification if and only if a cancellation came before it and the handler's own decrement took registrations minus decrements from one to zero |
| `CoordinatorHistory.TriggerExactly` | stratum-apps/src/fallback_coordinator.rs:64-83 | where the trigger stands after any run, from the actions: back if and only if its load found the count balanced, its poll found a permit, or it resumed; parked or woken if its poll found none, and no notification or one has come since |
| `IoTasks.CleanBeforeReturn` | miner-apps/jd-client/src/lib/io_task.rs:81-184 | over whole runs without a late registration: when the trigger returns, every connection with a registered task has its inbound channel closed and its outbound channel closed and empty |
| `IoTasks.RestsExactly` | miner-apps/jd-client/src/lib/io_task.rs:81-184 | liveness of the composition, exactly: where no protocol step, no operation of an exit path and no exit on the fallback signal is left and no handler was dropped without `done`, a handler is finished if and only if no writer is in the middle of a write with it; the trigger is back, every handler finished and every registered connection clean if and only if there is no such writer |
| `IoTasks.StalledReturnsExactly` | miner-apps/jd-client/src/lib/io_task.rs:156-168 | exact condition: from a reachable state with a registered writer in the middle of a write, some continuation that does not end the write brings the trigger back if and only if a wake source is outstanding |
| `IoTasks.RunsAreBounded` | miner-apps/jd-client/src/lib/io_task.rs:81-184 | a run has no more steps of exit paths, drains, writers and protocol than the initial rank plus what was added from outside: nothing in the composition spins |
| `IoHistory.ChannelsAreFifo` | miner-apps/translator/src/lib/io_task.rs:58-134 | in every run, for both channels of every connection: what was received, written or drained, and then what is still queued, is exactly what was sent, in order |
| `Failover.FailoverIsBounded` | miner-apps/translator/src/lib/mod.rs:207-306 | over any number of calls: successes plus entries left never exceed the entries there were, and no entry sees a fourth attempt |
| `Translator.TranslatorSv2.Start` | miner-apps/translator/src/lib/mod.rs:207-306 | the main loop handles at most as many fallbacks as there are upstreams and then ends, whatever the events and answers; every event but the last was a fallback that went through, and a connected end has a shutdown, an interrupt or a monitoring failure as its reason |
| `JdClient.JobDeclaratorClient.Start` | miner-apps/jd-client/src/lib/mod.rs:286-512 | over any events: one initializer call per fallback, no more connections than upstreams, no more than three attempts on each, and an early end only for a stated reason; fallbacks into solo mode may go on |
| `FastHasher.FastSha256d.HashWithNonceTime` | integration-tests/lib/mining_device/mod.rs:782-811 | every call, after any sequence of calls on the same object, returns the plain double SHA-256 of the header with that time and nonce, and changes only bytes 4..8, 12..16 and 0..32 of the two buffers |
| `HeaderBytes.SerializeLayout` | integration-tests/lib/mining_device/mod.rs:743 | the 80 bytes of a header read back field by field: version, previous block, merkle root, time, bits, nonce, integers little-endian |
| `Target.HashMeetsTarget` | integration-tests/lib/mining_device/mod.rs:835-863 | for all 32-byte arrays the word-wise loop returns true if and only if the little-endian number of the hash is at most that of the target |
| `NonceSearch.BatchedRefinesSimple` | integration-tests/lib/mining_device/mod.rs:1028-1064 | for all batch sizes, every batched report is a hit of the one-by-one search; the two report the same if and only if no window holds two hits |
| `NonceSearch.WorkersSend` | integration-tests/lib/mining_device/mod.rs:949-965 | which hits are sent once every worker is through its range: never more than there are, and all of them if and only if no window of any worker held two |
| `Miner.Miner.Mine` | integration-tests/lib/mining_device/mod.rs:971-1085 | over any run of the loop up to the kill, and any changes of batch size, the shares sent are exactly the batched reports from the start nonce, all naming the job in force, and only the nonce of the header has moved |
| `Device.JobActivation` | integration-tests/lib/mining_device/mod.rs:528-576 | over every sequence of messages that does not panic: once a job is active the first stored job is the one the miner holds, later ones are future jobs, the header joins a received job with a received previous hash, and lags behind the latest one only if that matched no future job |
| `Device.JobsExactly` | integration-tests/lib/mining_device/mod.rs:528-576 | from the messages alone, over every run that does not panic: as long as no message made a job active the stored jobs are the future jobs received, in order; after that they are the latest active job and the future jobs received since, the header being the join at that message, with its clock reading |
| `Gauges.IncrementalIsRebuild` | stratum-apps/src/monitoring/snapshot_cache.rs:197-567 | after every history of refreshes and swaps to new metrics that ends in a refresh, accepted and rejected gauges equal the rebuild from the last snapshot, and the hashrate gauge has every reported rate and no label that is not current |
| `SnapshotCache.SnapshotCache.Refresh` | stratum-apps/src/monitoring/snapshot_cache.rs:218-567 | a refresh with metrics shows, on the snapshot's own fields, the extended and then the standard channels of the server and of client after client (if there is a clients summary), with exactly their labels and the values of the last channel of each; it writes both sides before it removes on either, with no gap and no foreign value in any state in between, and exactly the current series of known codes drop to zero; without metrics it leaves gauges and labels alone |
| `NoiseStream.ReadHalf.ReadFrame` | stratum-apps/src/network_helpers/noise_stream.rs:237-275 | after any mix of short reads, missing-byte answers and interruptions at an await point, decoder and buffer are where exact reads of the consumed bytes are; exactly the frame returned is added, and it stops without one only at a pending or failed read or at the end of the stream |
| `NoiseStream.ChunkingDoesNotMatter` | stratum-apps/src/network_helpers/noise_stream.rs:237-316 | two readers of one stream, with any chunking and any mix of calls: blocks and frames of the one that consumed less are a prefix of the other's, and equal consumption means equal state |
| `ShareCache.BestShares.AddShareToCache` | miner-apps/jd-client/src/lib/utils.rs:423-456 | after any insertions over any total order the cache holds the min(n, 100) smallest of all hashes inserted; at full size an entry comes in only for a greatest one that it is strictly below |
| `ShareReplay.SubmitsAreTheAccepted` | miner-apps/jd-client/src/lib/utils.rs:317-375 | for any shares and any validation: the submits are exactly the accepted shares, in order, numbered consecutively from the counter modulo 2^32 |
| `ShareReplay.SolutionBeforeSubmit` | miner-apps/jd-client/src/lib/utils.rs:337-354 | every pushed solution belongs to a share that found a block and stands directly before its submit; field by field, its extranonce is the prefix of the channel after judging followed by that of the share, time, nonce and version are those of the submit, bits and previous hash those of the tip |
| `Payout.ValidatesModulo` | stratum-apps/src/payout.rs:112-168 | the exact condition for all outputs, whatever their sums: solo is accepted if and only if the total is not 0 and the others are 0 modulo 2^64, donate if the others equal the pool share of the total so taken, legacy if a hundred times the miner's sum reaches the wrapped product |
| `Payout.SoloMeetsExactly` | stratum-apps/src/payout.rs:108-167 | exactly where the solo check departs from its documentation: the miner alone gets a positive multiple of 2^64, or the others do while the total is none |
| `Payout.LegacyMeetsExactly` | stratum-apps/src/payout.rs:108-167 | exactly where the legacy check departs from its documentation: where the total fits, a hundred times the miner's sum lies between the wrapped and the true product by 90; where it does not, the two are compared outright |
| `Payout.DonateMeetsExactly` | stratum-apps/src/payout.rs:108-167 | exactly where the donate check departs from its documentation: where the total fits, the product by the percentage wraps and the others get the true share or the one of the wrapped product; where it does not, the two are compared outright |
| `Payout.BuilderAndCheckAgree` | stratum-apps/src/payout.rs:59-168 | received outputs with the built spendable ones in any order, and any OP_RETURN outputs added, pass the check if and only if the mode is full donation, or the total is positive and the pool is not itself the miner of a nonzero donation |
| `Identity.FormatsRoundTrip` | stratum-apps/src/payout.rs:21-27 | every documented format gives back mode, address and percentage for every worker string |
| `Identity.ErrorsExactly` | stratum-apps/src/payout.rs:233-285 | for every identity and every error, the error is given if and only if the identity deserves it: no `sri/` and no address, an unknown form under `sri/`, the part in the place of the address being none, or the percentage being no 8-bit number (reported as written) or out of range (reported in decimal) |
| `Utf8.TlvCompatibleUsername` | miner-apps/translator/src/lib/utils.rs:272-290 | the result is the longest valid prefix of at most 32 bytes, the text itself if it fits, and at least 29 bytes long if it was cut |
| `Coordinator.InvStep` | stratum-apps/src/fallback_coordinator.rs:48-113 | every atomic step of every component (register, each step of `done`, drop, cancel, each step of the trigger) keeps the protocol invariant: exact count, done flag set first, and a wake source whenever the trigger waits at count zero |
| `Coordinator.InvRun` | stratum-apps/src/fallback_coordinator.rs:48-113 | the invariant holds after every run from a state where it holds |
| `Coordinator.PendingIsExact` | stratum-apps/src/fallback_coordinator.rs:48-98 | in every reachable state the count equals the handlers registered and not yet decremented, it is zero if and only if all have decremented, and no `done` can take it below zero |
| `Coordinator.NoLostWakeup` | stratum-apps/src/fallback_coordinator.rs:64-104 | in every interleaving, a parked trigger at count zero has a handler that took the count from one to zero and has not notified yet; a waiting one has that or a stored permit |
| `Coordinator.DoneNeverPanics` | stratum-apps/src/fallback_coordinator.rs:91-113 | the drop that ends `done` finds the flag set in every run, so only a handler dropped without `done` panics |
| `Coordinator.RankStep` | stratum-apps/src/fallback_coordinator.rs:48-113 | every protocol step lowers a rank, a registration raises it by five, a cancellation leaves it |
| `Coordinator.RunsAreBounded` | stratum-apps/src/fallback_coordinator.rs:48-113 | a run has no more protocol steps than the initial rank plus five per registration: nothing spins |
| `Coordinator.NeverStuck` | stratum-apps/src/fallback_coordinator.rs:64-104 | where no protocol step is left and no handler was dropped without `done`, the trigger has returned and every handler is finished |
| `Coordinator.PanickedHandlerBlocks` | stratum-apps/src/fallback_coordinator.rs:84-113 | a handler dropped without `done` blocks the trigger in every continuation, whatever registers or cancels, once no wake source is outstanding |
| `CoordinatorHistory.CancelledExactly` | stratum-apps/src/fallback_coordinator.rs:48-70 | after any run the token is cancelled if and only if the run contains a cancellation of it, by anybody or by the trigger |
| `CoordinatorHistory.CountExactly` | stratum-apps/src/fallback_coordinator.rs:48-98 | after any run there are as many handlers as registrations, and the count is registrations minus decrements |
| `CoordinatorHistory.QuietUntilCancelled` | stratum-apps/src/fallback_coordinator.rs:91-104 | in every run without a cancellation, whatever handlers came and went: no permit, no trigger woken, no handler about to notify |
| `CoordinatorHistory.PermitExactly` | stratum-apps/src/fallback_coordinator.rs:64-104 | after any run a permit is stored if and only if a notification found nobody parked and no poll has come since |
| `CoordinatorHistory.ProgramOrder` | stratum-apps/src/fallback_coordinator.rs:91-113 | what any handler does in any run is a prefix of the body of `done` followed by the drop, with the notification or without, or the drop alone |
| `CoordinatorHistory.DroppedExactly` | stratum-apps/src/fallback_coordinator.rs:91-113 | a handler panicked if and only if it was dropped with nothing done, is finished if and only if it went through all of `done` and the drop, and has its flag set if and only if `done` began |
| `CoordinatorHistory.AlwaysPossible` | stratum-apps/src/fallback_coordinator.rs:48-113 | after every run anybody may register and cancel, and a handler that has done nothing may start `done` or be dropped, which panics |
| `Coordinator.SettledStep` | stratum-apps/src/fallback_coordinator.rs:64-104 | with no registration after the count went from one to zero, whatever wakes the trigger saw the final zero, step by step |
| `Coordinator.LateRegisterReturnsEarly` | stratum-apps/src/fallback_coordinator.rs:48-104 | the hypothesis is needed: a run in which a second handler registers after the decrement to zero and before its late test, and the trigger returns with one handler pending |
| `Coordinator.StaleWakeReturnsEarly` | stratum-apps/src/fallback_coordinator.rs:64-104 | any reachable state with handlers pending and a wake source outstanding can be driven to an early return without further registrations |
| `Coordinator.NoStaleWakeIsSafe` | stratum-apps/src/fallback_coordinator.rs:64-104 | without an outstanding wake source no continuation without registrations returns early |
| `IoTasks.ExitPathGuarantees` | miner-apps/translator/src/lib/io_task.rs:44-151 | every way out of the reader or writer loop closes the inbound channel, closes the outbound channel before any drain of it, drains it, and acknowledges once, last |
| `IoTasks.StepKeepsConnection` | miner-apps/jd-client/src/lib/io_task.rs:81-184 | every task, peer and drain step keeps the guarantees of both tasks of its connection |
| `IoTasks.OwnedOnceStep` | miner-apps/jd-client/src/lib/io_task.rs:20-49 | no two tasks ever hold the same handler, so `done` is called once per registration |
| `IoTasks.InvStep` | miner-apps/jd-client/src/lib/io_task.rs:81-184 | every system step keeps the composed invariant of coordinator, tasks and channels |
| `IoTasks.RankStep` | miner-apps/translator/src/lib/io_task.rs:44-151 | every operation of an exit path, every frame drained or taken to be written and every protocol step lowers a rank of the composed system; only spawns, registrations and sends raise it, by a constant, and the end of a write leaves it no higher |
| `IoTasks.StalledWriteBlocks` | stratum-apps/src/network_helpers/noise_stream.rs:190-197 | a write that does not end, with its handler registered, keeps the trigger from returning in every continuation, whatever registers, cancels, closes or sends, once no wake source is outstanding |
| `IoTasks.StalledWrite` | miner-apps/translator/src/lib/io_task.rs:126-134 | such a run exists: nothing is left to do, no handler was dropped without `done`, one writer has not finished its write, and the trigger is parked for good |
| `IoTasks.ExitPathIsBounded` | stratum-apps/src/channel_utils.rs:8-17 | whatever everybody else does, an exit path takes at most as many steps as it has operations and frames queued, plus one per frame sent meanwhile, of which there is none once the channel is closed |
| `IoHistory.NothingAfterClose` | stratum-apps/src/channel_utils.rs:8-17 | once a channel is closed no continuation sends into it |
| `IoHistory.ClosedExactly` | miner-apps/translator/src/lib/io_task.rs:44-151 | a channel is closed after a run if and only if a peer or an operation of an exit path closed that very channel |
| `IoHistory.LeavesForAReason` | miner-apps/jd-client/src/lib/io_task.rs:86-171 | a task leaves for a fallback only if it registered and somebody cancelled the token, for a closed outbound channel only once all that was ever sent is taken out, for a failed forward only once the inbound channel is closed, for a failed write exactly in the middle of one |
| `IoHistory.ExitOrder` | miner-apps/translator/src/lib/io_task.rs:44-151 | the order of the exit paths: each drain directly after its close and each such close before a drain; readers and cancelled writers refuse inbound frames first; the acknowledgement last, after the drain of a reader and the inbound close of a writer |
| `IoHistory.EveryBranchHappens` | miner-apps/jd-client/src/lib/io_task.rs:81-171 | for every branch of the two select loops there is a run in which a registered task takes it |
| `IoHistory.WriterLoops` | miner-apps/translator/src/lib/io_task.rs:126-134 | a writer that takes a frame and finishes the write is back in its loop with the same handler and the rest of the queue |
| `IoHistory.ReaderForwards` | miner-apps/translator/src/lib/io_task.rs:58-77 | a reader in its loop forwards a frame into an open channel, whose receiver gets that frame |
| `Sha256.HashOfHeader` | integration-tests/lib/mining_device/mod.rs:746-765 | an 80-byte message hashes through exactly two blocks, the second being its last 16 bytes with the padding of FIPS 180-4 section 5.1.1 |
| `Sha256.HashOfDigest` | integration-tests/lib/mining_device/mod.rs:767-771 | a 32-byte digest and its padding fill exactly one block |
| `HeaderBytes.ByteOrders` | integration-tests/lib/mining_device/mod.rs:787-799 | the little-endian and the big-endian bytes of a word both stand for it, and one is the other reversed |
| `HeaderBytes.SerializeIsInjective` | integration-tests/lib/mining_device/mod.rs:743 | no two headers are hashed from the same bytes |
| `HeaderBytes.PaddingMeans` | integration-tests/lib/mining_device/mod.rs:757-771 | the padding of any message: 0x80, zeros to eight bytes short of a block, and the number of bits big-endian (section 5.1.1 of FIPS 180-4) |
| `HeaderBytes.OutputWords` | integration-tests/lib/mining_device/mod.rs:797-808 | bytes 4i to 4i + 4 of a digest are word i of the state, big-endian |
| `HeaderBytes.InitialWords` | integration-tests/lib/mining_device/mod.rs:814-820 | the initial state words are the first 32 bits of the fractional parts of the square roots of the first eight primes (section 5.3.3 of FIPS 180-4) |
| `FastHasher.RewriteSecondChunk` | integration-tests/lib/mining_device/mod.rs:783-788 | overwriting bytes 4..8 and 12..16 turns the block of any earlier attempt into the block of the next |
| `FastHasher.StoreState` | integration-tests/lib/mining_device/mod.rs:797-799 | the word loop writes the state big-endian over the first 32 bytes and leaves the rest |
| `FastHasher.FastSha256d.constructor` | integration-tests/lib/mining_device/mod.rs:739-778 | establishes the invariant the attempts rely on: midstate of the first chunk, template of the second, constant padding of the second hash |
| `FastHasher.FastSha256d.Clone` | integration-tests/lib/mining_device/mod.rs:726-736 | a clone has buffers of its own and is prepared for the same header |
| `Target.AboveSplits` | integration-tests/lib/mining_device/mod.rs:839-847 | a little-endian number is its word at an index plus 2^32 times the words above |
| `Target.TopDecides` | integration-tests/lib/mining_device/mod.rs:848-859 | a difference in the higher words decides the whole comparison, which justifies the early exit |
| `Target.BytesRoundTrip` | integration-tests/lib/mining_device/mod.rs:669 | a number below 256^n survives its n little-endian bytes |
| `Target.ValueFits` | integration-tests/lib/mining_device/mod.rs:618 | any number of bytes survive the number they stand for, and the number fits |
| `Target.FromLittleEndian` | integration-tests/lib/mining_device/mod.rs:611-619 | up to 32 received bytes become the number they stand for, more are refused |
| `Target.ToLittleEndian` | integration-tests/lib/mining_device/mod.rs:985 | the bytes compared against stand for the stored number |
| `NonceSearch.WrapIsModulo` | integration-tests/lib/mining_device/mod.rs:1044 | the nonce at a position is the position modulo 2^32 |
| `NonceSearch.WrapWrap` | integration-tests/lib/mining_device/mod.rs:1044-1064 | wrapping additions compose, so windows that follow each other tile the positions |
| `NonceSearch.HitsTile` | integration-tests/lib/mining_device/mod.rs:1038-1064 | searching a nonces and then b more finds exactly what searching a + b finds |
| `NonceSearch.ScanFinds` | integration-tests/lib/mining_device/mod.rs:1041-1050 | an early-exit scan finds the first hit the one-by-one loop would report in that window |
| `NonceSearch.SearchedStep` | integration-tests/lib/mining_device/mod.rs:1036-1064 | one more window of any size extends the batched reports by its first hit and moves the nonce past the whole window |
| `NonceSearch.NoLossExactly` | integration-tests/lib/mining_device/mod.rs:1028-1064 | the condition a caller can check: nothing is lost for any placing of the hits if and only if no batch is larger than one |
| `NonceSearch.WorkersFit` | integration-tests/lib/mining_device/mod.rs:949-960 | for any worker count every range ends inside the 32-bit space, starts do not overflow, and between one and p nonces at the top belong to nobody |
| `NonceSearch.WorkersCover` | integration-tests/lib/mining_device/mod.rs:949-960 | every nonce below p * unit belongs to exactly one worker |
| `NonceSearch.WorkersTogether` | integration-tests/lib/mining_device/mod.rs:949-965 | the workers' ranges hold together exactly the hits of one search over all of them |
| `NonceSearch.NoNonceTwice` | integration-tests/lib/mining_device/mod.rs:949-965 | workers that keep to their ranges never report a nonce twice, neither one of them nor two, whatever their batch sizes |
| `Miner.Miner.NewTarget` | integration-tests/lib/mining_device/mod.rs:611-619 | the target becomes the number its little-endian bytes stand for; more than 32 bytes panic and leave it |
| `Miner.Miner.NewHeader` | integration-tests/lib/mining_device/mod.rs:626-655 | field by field: previous block and bits from the previous hash, version and merkle root from the job, the time given, nonce zero; the hasher is prepared for exactly that header, and the target stays |
| `Miner.Miner.Next` | integration-tests/lib/mining_device/mod.rs:656-720 | a single attempt is a valid share if and only if the plain double hash of the header is numerically at most the target; the two missing-data outcomes are exact |
| `Miner.Scan` | integration-tests/lib/mining_device/mod.rs:1041-1050 | the inner loop stops at the first nonce that meets the target by the plain definition, or after the batch |
| `Miner.Miner.MineBatch` | integration-tests/lib/mining_device/mod.rs:1036-1064 | a batch yields the share of the first hit of its window, with job, version and time, and none if there is no hit; the nonce moves past the window |
| `Miner.Miner.MineOnce` | integration-tests/lib/mining_device/mod.rs:1028-1082 | one iteration, batched or single, keeps the record: shares sent so far are the batched reports over the windows done |
| `Miner.BatchCanLoseHits` | integration-tests/lib/mining_device/mod.rs:1041-1064 | the loss is real for every header: with the greatest target every hash is a hit, and a batch of two sends one share where the one-by-one search has two |
| `Miner.Miner.Clone` | integration-tests/lib/mining_device/mod.rs:588 | a clone holds the same header, target and job, with a hasher of its own |
| `Miner.StartMiningThreads` | integration-tests/lib/mining_device/mod.rs:940-969 | p clones started at i * (u32::MAX / p), each over any batches: every worker sends exactly the batched reports from its start, all naming the job in force, and as long as each keeps to its range no nonce is sent twice |
| `Device.MatchingFound` | integration-tests/lib/mining_device/mod.rs:557-561 | what the filter keeps are jobs of that id that are future jobs, and it is empty only if there is none |
| `Device.FirstNamedIsActive` | integration-tests/lib/mining_device/mod.rs:551-571 | the first previous hash that names exactly one of the future jobs received so far makes that job active under it |
| `Device.HandleExactly` | integration-tests/lib/mining_device/mod.rs:528-576 | one message on any state, by counting the stored jobs it names: none, exactly one, or several |
| `Device.PanicsExactly` | integration-tests/lib/mining_device/mod.rs:536-575 | a message panics if and only if it is a non-future job before any previous hash, or two stored future jobs share the requested id |
| `Device.TwoMatches` | integration-tests/lib/mining_device/mod.rs:557-574 | the panicking arm is reached if and only if two stored future jobs have that id |
| `Device.MiningDevice.HandleNewMiningJob` | integration-tests/lib/mining_device/mod.rs:528-549 | the method on fields and miner takes the state the specification gives, keeps the hasher consistent with the header, and signals the mining threads exactly when a job becomes active |
| `Device.MiningDevice.FilterJobs` | integration-tests/lib/mining_device/mod.rs:557-561 | the filter loop yields the matching future jobs in order |
| `Device.MiningDevice.HandleSetNewPrevHash` | integration-tests/lib/mining_device/mod.rs:551-576 | likewise for SetNewPrevHash, in its three arms |
| `Gauges.LayIsOverlay` | stratum-apps/src/monitoring/snapshot_cache.rs:273-353 | writing channel after channel over a gauge is laying the rebuilt gauge over it |
| `Gauges.RefreshIsRebuildExactly` | stratum-apps/src/monitoring/snapshot_cache.rs:272-567 | a refresh equals clearing and rebuilding if and only if every leftover series was current before and is not any more |
| `Gauges.RefreshRebuilds` | stratum-apps/src/monitoring/snapshot_cache.rs:253-567 | one refresh makes the accepted and rejected gauges those of a rebuild and keeps the remembered labels complete |
| `Gauges.HashrateIsRebuildExactly` | stratum-apps/src/monitoring/snapshot_cache.rs:304-310 | the hashrate gauge is the rebuild if and only if no channel that had a series there is still listed without a hashrate, which the client side always meets |
| `Gauges.StaleHashrate` | stratum-apps/src/monitoring/snapshot_cache.rs:304-352 | the exception is real, as a history from the start: attach, a refresh with a hashrate, a refresh without, and the old value is still there |
| `Gauges.RebuiltShows` | stratum-apps/src/monitoring/snapshot_cache.rs:273-353 | what can be read off a rebuilt family, label by label: accepted and rejected gauges have exactly the labels (and codes) of the channels, with the values of the last channel of each label, zero for a known code without a count; the hashrate gauge likewise for reported rates |
| `Gauges.LastWriteWins` | stratum-apps/src/monitoring/snapshot_cache.rs:273-353 | a rebuild has exactly the keys written, each with the value of its last write |
| `Gauges.PresentExactly` | stratum-apps/src/monitoring/snapshot_cache.rs:197-200 | after any history the gauges present are those of the latest attachment |
| `Gauges.SeedsNeverHide` | stratum-apps/src/monitoring/snapshot_cache.rs:282-302 | seeding known rejection codes with zero never hides a count: a series is the channel's own count, or zero for a known code without one, and there are no others |
| `Gauges.AcceptedKeys` | stratum-apps/src/monitoring/snapshot_cache.rs:273-353 | the rebuilt accepted gauge has a series for exactly the labels of the snapshot |
| `Gauges.HashrateKeys` | stratum-apps/src/monitoring/snapshot_cache.rs:304-311 | the rebuilt hashrate gauge has a series for exactly the labels with a hashrate, all of them current |
| `SnapshotCache.SeedZeros` | stratum-apps/src/monitoring/snapshot_cache.rs:283-293 | the seeding loop writes zero for every known code and reports those labels: each of these series is at zero at some moment, whatever its count |
| `SnapshotCache.WriteCounts` | stratum-apps/src/monitoring/snapshot_cache.rs:294-302 | the counts loop writes every count of the channel, in whatever order the map yields them, and no other value |
| `SnapshotCache.LabelIndex.WriteChannel` | stratum-apps/src/monitoring/snapshot_cache.rs:273-312 | the writes of one channel on all gauges present, with the labels collected only where a gauge exists; every seeded rejection series passes through zero |
| `SnapshotCache.LabelIndex.Write` | stratum-apps/src/monitoring/snapshot_cache.rs:273-353 | the write loop lays every channel over the gauges in order and removes no series; the series of every channel and known code is seen at zero on the way, whatever its count |
| `SnapshotCache.LabelIndex.RemoveStale` | stratum-apps/src/monitoring/snapshot_cache.rs:499-566 | only labels that were current before and are not any more are removed, then the current labels are remembered |
| `SnapshotCache.ZeroShowsExactly` | stratum-apps/src/monitoring/snapshot_cache.rs:282-302 | exact condition of the drop: a series with no count of zero before or in the new snapshot shows a zero in some state of an update if and only if its channel is current and its code is a seeded one |
| `SnapshotCache.LabelIndex.WriteSide` | stratum-apps/src/monitoring/snapshot_cache.rs:253-353 | the write half of `update_metrics` on one side: all writes laid, nothing removed, the old labels still remembered |
| `SnapshotCache.LabelIndex.RemoveSide` | stratum-apps/src/monitoring/snapshot_cache.rs:499-566 | the removing half on one side: the state the specification gives; in every state since the start, after every single write, each series is there that was there before and did not go stale, and shows its old value, one of the new snapshot, or a seeded zero; and exactly the series `ZeroShowsExactly` names drop to zero |
| `SnapshotCache.LabelIndex.Attach` | stratum-apps/src/monitoring/snapshot_cache.rs:197-200 | new metrics start empty while the remembered labels stay |
| `SnapshotCache.SnapshotCache.WithMetrics` | stratum-apps/src/monitoring/prometheus_metrics.rs:32-36 | each side on its own gets all of its gauges, new and empty, or none, and keeps what it remembers |
| `Failover.ConnectedConsumes` | miner-apps/translator/src/lib/mod.rs:449-525 | flags never clear, and every successful call uses up an unflagged entry |
| `Failover.FlagsStay` | miner-apps/translator/src/lib/mod.rs:451-459 | a flag set in one call is set in every later call |
| `Failover.SuccessesMoveDown` | miner-apps/translator/src/lib/mod.rs:451-525 | each success is on a later entry than all before it, and none follows an exhausted table |
| `Translator.TranslatorSv2.TryEntry` | miner-apps/translator/src/lib/mod.rs:468-520 | at most three attempts, all but the last refused, three if none connected |
| `Translator.TranslatorSv2.InitializeUpstream` | miner-apps/translator/src/lib/mod.rs:449-525 | the nested retry loops, with a connection whose follow-up fails leaving its entry unflagged, guarantee the entry-by-entry outcome for every answer of the network |
| `JdClient.JobDeclaratorClient.TryEntry` | miner-apps/jd-client/src/lib/mod.rs:710-771 | at most three attempts, all but a successful last one failed, stopped by a cancelled token before or after any of them |
| `JdClient.JobDeclaratorClient.InitializeJd` | miner-apps/jd-client/src/lib/mod.rs:669-777 | the same outcome guarantee; of all attempts made exactly the last one on the connected entry succeeded; a cancelled token is noticed at the next look, at most one attempt later, before the entry is flagged, and a token cancelled before the call leaves the table untouched |
| `NoiseStream.ExactContinues` | stratum-apps/src/network_helpers/noise_stream.rs:237-275 | exact reads of more bytes later give what exact reads of all bytes give |
| `NoiseStream.ExactKeepsBytes` | stratum-apps/src/network_helpers/noise_stream.rs:237-275 | exact reads lose and add no byte and leave less than one block |
| `NoiseStream.ReadHalf.Prepare` | stratum-apps/src/network_helpers/noise_stream.rs:239-244 | the buffer is resized only where that loses no byte, since a partly filled buffer always has the wanted length |
| `NoiseStream.ReadHalf.PollSocket` | stratum-apps/src/network_helpers/noise_stream.rs:247-257 | bytes of any number land after those already there |
| `NoiseStream.ReadHalf.Feed` | stratum-apps/src/network_helpers/noise_stream.rs:260-273 | a full buffer becomes the next block of the decoder, and its answer the next frame |
| `NoiseStream.ReadHalf.ReadBlock` | stratum-apps/src/network_helpers/noise_stream.rs:239-266 | waiting for one block adds exactly that block to the decoder, or stops where the socket made it, with all bytes kept |
| `NoiseStream.ReadHalf.TryReadFrame` | stratum-apps/src/network_helpers/noise_stream.rs:283-316 | the same for one attempt without waiting: exactly one poll, all of whose bytes are taken |
| `ShareCache.SmallestIsUnique` | miner-apps/jd-client/src/lib/utils.rs:412-422 | the k smallest of a multiset are one multiset, so keeping them is independent of arrival order |
| `ShareCache.ArrivalOrderDoesNotMatter` | miner-apps/jd-client/src/lib/utils.rs:412-456 | two caches given the same hashes in any order hold the same hashes |
| `ShareReplay.NumbersAreDistinct` | miner-apps/jd-client/src/lib/utils.rs:325-340 | two submits carry the same number if and only if they are a multiple of 2^32 apart |
| `ShareReplay.EachShareInItsPlace` | miner-apps/jd-client/src/lib/utils.rs:337-354 | a share that found a block is sent as solution then submit, a valid one as a submit alone |
| `ShareReplay.Replay.ValidateCachedShare` | miner-apps/jd-client/src/lib/utils.rs:317-375 | verdict by verdict: a valid share is sent under the number drawn, a block is preceded by its solution or panics with the number gone, a rejected one changes nothing but the channel, an unlisted error panics |
| `ShareReplay.Replay.ReplayCachedShares` | miner-apps/jd-client/src/lib/channel_manager/upstream_message_handler.rs:670-687 | the loop queues exactly the messages of the specification and stops early exactly at the first share that panics, with the counter where the draws so far left it |
| `Payout.SumsWrap` | stratum-apps/src/payout.rs:120-134 | the summed values are the true satoshis modulo 2^64, for any filter |
| `Payout.ValidatesExactly` | stratum-apps/src/payout.rs:112-168 | where nothing wraps: the check accepts if and only if there is something spendable and others get nothing (solo), floor(total * percentage / 100) (donate) or at most a tenth (legacy); the errors report the true totals |
| `Payout.WrapDefeatsSolo` | stratum-apps/src/payout.rs:120-134 | where sums wrap the documentation is not met: outputs that pay 2^64 satoshis to others pass the solo check |
| `Payout.WrapDefeatsLegacy` | stratum-apps/src/payout.rs:225-227 | sums that fit are not enough: a coinbase that pays 2^63 satoshis to others and nothing to the miner passes the legacy check |
| `Payout.SpendableExactly` | stratum-apps/src/payout.rs:115-134 | an output counts unless its script starts with the byte 0x6a, and a coinbase of one output is without spendable outputs if and only if it has no value or is such a one |
| `Payout.OrderAndOpReturnsDoNotMatter` | stratum-apps/src/payout.rs:120-134 | verdict and error depend only on which spendable outputs there are: no order, no OP_RETURN output changes them |
| `Payout.BuilderConserves` | stratum-apps/src/payout.rs:59-106 | the built outputs sum to the total for every mode and every 64-bit total |
| `Payout.BuilderPaysShares` | stratum-apps/src/payout.rs:59-106 | pool and miner each get the documented share on their own script: floor(total * percentage / 100) and the remainder, everything to the miner in solo modes, everything to the pool in full donation |
| `Payout.BuiltOutputsPass` | stratum-apps/src/payout.rs:59-168 | the built outputs pass the check if and only if the total is positive and the pool is not itself the miner of a nonzero donation |
| `Identity.ParsesDecimal` | stratum-apps/src/payout.rs:262-264 | every percentage survives its decimal form |
| `Identity.ParseU8Exactly` | stratum-apps/src/payout.rs:262-264 | the texts of a number are exactly its decimal form behind any zeros, with or without a plus sign |
| `Identity.SoloForm` | stratum-apps/src/payout.rs:247-256 | after `sri/solo/` the text before the next slash is the address, and nothing after it matters |
| `Identity.DonateForm` | stratum-apps/src/payout.rs:258-277 | after `sri/donate/` a text without slash is a worker name, otherwise percentage and address come first |
| `Identity.OtherForms` | stratum-apps/src/payout.rs:233-285 | what every remaining identity parses to, errors included |
| `Identity.SoloExactly` | stratum-apps/src/payout.rs:247-256 | solo mode for an address is parsed if and only if the identity is one of its documented forms |
| `Identity.DonateExactly` | stratum-apps/src/payout.rs:261-277 | donate mode likewise, for some text of the percentage |
| `Identity.FullDonationExactly` | stratum-apps/src/payout.rs:258-259 | full donation if and only if the identity is `sri/donate` or adds a worker name without a slash |
| `Identity.LegacyExactly` | stratum-apps/src/payout.rs:238-245 | legacy mode if and only if the identity is the address, alone or followed by a dot and anything |
| `Utf8.BoundaryEndsValidPrefix` | miner-apps/translator/src/lib/utils.rs:281 | in valid text, looking at one byte tells exactly where valid prefixes end |
| `Utf8.BoundaryWithinThree` | miner-apps/translator/src/lib/utils.rs:281-283 | a character boundary is never more than three bytes back |
| `Utf8.ValidExactly` | miner-apps/translator/src/lib/utils.rs:272-290 | a byte string is valid text if and only if it is the encoding of some sequence of character numbers without surrogates (section 3 of RFC 3629) |

## Left out

- Weak memory: the atomics are sequentially consistent steps.
- Overflow of the pending count, a second concurrent trigger, and tasks aborted from outside.
- Forwarding a received frame is one step with its reception, since inbound channels are unbounded.
- Coordinator.SafeReturn: holds under the stated hypothesis on registrations, because the code does not ensure it; the exact condition is `EarlyReturnExactly`.
- IoTasks.CleanBeforeReturn: the same hypothesis; other components that register (channel managers, servers) appear as arbitrary coordinator steps only.
- Translator.TranslatorSv2.Start: the clean-up wait before a fallback is taken to return; when it does is what `IoTasks.RestsExactly` and `IoTasks.StalledReturnsExactly` say.
- JdClient.JobDeclaratorClient.Start: over the events seen before the loop ends; the time of cancellation is one arbitrary moment.
- The compression function itself.
- The comparison inlined in `next_share` repeats `hash_meets_target_le` line by line and is modelled by the same method.
- Miner.Miner.Mine: the handicap sleep is not modelled; a kill between iterations is the end of the list of batches. The kill test between a single attempt and its send (mod.rs:1067) cannot be reached, since a single attempt is made only without header or target. The share channel is unbounded, so sending is appending as long as its receiver lives; with `single_submit` it is dropped after one share, and a later send panics.
- Miner.StartMiningThreads: the workers share nothing and run one after the other; the order in which their shares mix in the channel is left open.
- Resetting `should_send` after a notification, which the code does on a copy (mod.rs:394-407).
- Scalar totals, SV1 gauges and floating-point conversion of the metrics.
- Clones of a snapshot cache that share gauges; `RefreshIsRebuildExactly` tells what a refresh does to foreign series.
- The inside of the standard library's binary heap: a replaced entry is some greatest one.
- ShareReplay.Replay.ReplayCachedShares: the sequence counter is used by nobody else during a replay, and the hash order in which the heap yields its shares is arbitrary.
- Payout arithmetic is that of a release build, where `u64` products and sums wrap; a debug build panics instead. `ValidatesExactly` assumes that nothing wraps, `ValidatesModulo` does not.
- Payout.BuiltOutputsPass: scripts that are OP_RETURN scripts themselves are excluded.
- Decoding of `coinbase_tx_suffix`, the text of error messages, and `Display` forms.
- Identity.FormatsRoundTrip: the address oracle rejects every text with a slash, and legacy addresses contain no dot.
- TCP, the Noise handshake and codec, HTTP, configuration, logging, process start, channel managers, template receivers and the test harness.
