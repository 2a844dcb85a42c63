# Qonduit: a verified model of its ingestion, indexing and codecs

Qonduit backfills Qubic ticks from many peers at once, detects computor quorums, keeps an
ordered-key index in RocksDB, and speaks a binary protocol. This project models the parts of it
that hold protocol state or arithmetic, in Dafny, and proves what they promise. Verify it with
`dafny verify dfyconfig.toml`.

How the parts are modelled:

- **Backfill.** One connection is a state machine over arbitrary inputs: a packet of any type, dejavu
  and payload, a read error, or a timeout. `Conn.acts` records everything that happened (requested,
  completed, unavailable, skipped, …) and all accounting is stated about that history. Random dejavus
  are an input list; running out of it is a failed send. `SlidingWindow` is the imperative connection,
  proved step by step to be that machine; `BackfillSystem` runs any number of workers in any
  interleaving, each restarting its range after an error.
- **Storage.** A column family is a map from byte strings to byte strings, iterated in lexicographic
  order. Every reader is the loop of the source, including where it breaks off, and is proved to
  return a filter of the whole map. `Listed`, `TickIn` and `HasPrefix` say which keys are meant.
- **Indexer.** A run is any sequence of tick, transaction, custom-message and vote events and process
  restarts, from a fresh indexer over empty storage. A restart keeps storage and resets the counters. The `Indexer` methods are proved to be the steps of that run.
- **Quorum.** The aggregator's votes and prunes are a run of operations; the decoder object keeps the
  history of the operations it made.
- **Codecs.** Identity letters, packet headers, log events and dates are printed and parsed by the
  loops of the source, and each pair of directions is proved inverse exactly where it is. The
  KangarooTwelve hash is an arbitrary function of the key.
- **Hot cache.** A put that must evict removes some entry of least time; which one among equals is left
  open, as the source's hash-map order is.

Where the code does less than one would hope, the exact condition is proved instead, and an input that
fails is given:

| property | exactly when | fails for |
|---|---|---|
| worker ranges tile | `TilesIff`, `ShortChunkTilesIff` | `TickPhaseCanOverrun`, `LongChunkCanOverlap` |
| a connection handles each tick once | `AlwaysExactIff`, `CleanFinishIff` | `UnsafeCanFinish`, `LastTicksAreUnsafe` |
| the backfill handles each tick once | `BackfillExactIff`, `SystemExactIff` | the same |
| both vote counts are equal | `DetectorsAgree` | `TwoEpochsDisagree`, `PruneDisagrees` |
| transactions read back in order | `TxPositions` | `InterleavedTicksLose`, `RestartLoses` |
| an entity's transactions are all counted | `TransactionsAreCounted` | `InterleavedTicksUncount` |
| messages read back | `MessagesReadBack` | more than 2^32 for one tick |
| an identity encodes back | `EncodeDecodeIff` (wrapping arithmetic, as in a release build) | `OverflowIsAccepted` |
| a packet is read back | `FrameRoundTripIff` | `BigPacketIsLost` |
| the cache keeps its capacity | `CapacityIff` | `ZeroCapacityStores` |

Where comments and code disagree, the model follows the code: a reply is matched by searching the
queue for its dejavu, not by position; `TransactionEnd` replies exist but are never expected; the
caches evict by insertion time, so a read does not refresh an entry; only tick-data and unavailable
replies touch the failure streak, so a too-short tick-data packet counts as failed and leaves the
streak alone.

Files: `Bytes`, `Collections`, `OrderedKeys`, `EpochIntervals`, `WarmStorage`, `StorageLaws`, `Indexer`,
`IndexerLaws`, `EntityLaws`, `EpochStatsLaws`, `Backfill`, `BackfillLaws`, `BackfillWorkers`, `BackfillSystem`,
`BackfillReplies`, `BackfillSafety`, `BackfillExact`, `Quorum`, `QuorumLaws`, `DetectorLaws`, `Identity`, `IdentityLaws`, `Framing`, `LogEvents`, `Calendar`, `HotCache`.
A file ending in `Laws` holds theorems about the models.

## Model

| member | source | states |
|---|---|---|
| `Backfill.Position` | crates/ingestion/src/backfill.rs:745 | the reply found is the first with this dejavu, and none is reported only if no expected reply has it |
| `Backfill.SkipMovesForward` | crates/ingestion/src/backfill.rs:913-922 | a skip moves forward exactly when next + skip stays below 2^32; under the bound it lands on min(next + skip, end) |
| `BackfillLaws.SkipKeeps` | crates/ingestion/src/backfill.rs:912-923 | a skip keeps the window invariant; it moves forward, using up fuel 2*(end - next) + in flight, exactly when the u32 addition does not wrap |
| `BackfillLaws.SendKeeps` | crates/ingestion/src/backfill.rs:925-935 | a send keeps the window invariant and uses up fuel |
| `BackfillLaws.FillKeeps` | crates/ingestion/src/backfill.rs:900-939 | refilling from any state between two actions leaves the window full, drained or broken, with the whole invariant |
| `BackfillLaws.FillGrows` | crates/ingestion/src/backfill.rs:900-939 | refilling never rewrites history, and adds no fuel unless a skip wraps |
| `BackfillLaws.ReplyKeeps` | crates/ingestion/src/backfill.rs:741-859 | handling any matched reply keeps the invariant, extends the history and, unless a skip wraps, strictly uses up fuel |
| `BackfillLaws.TimeoutStepKeeps` | crates/ingestion/src/backfill.rs:869-887 | a timeout fails every pending request and keeps the invariant |
| `BackfillLaws.StepKeeps` | crates/ingestion/src/backfill.rs:732-889 | every input keeps the invariant, history only grows, and unless a skip wraps fuel falls on every matched reply |
| `BackfillLaws.ConnectionInv` | crates/ingestion/src/backfill.rs:681-893 | the invariant holds after any inputs whatsoever, for every range of u32 ticks |
| `BackfillLaws.MatchedRepliesAreBounded` | crates/ingestion/src/backfill.rs:712-939 | while no skip has wrapped, a connection has matched at most 2*(end - start) replies, less the fuel left |
| `BackfillLaws.Conservation` | crates/ingestion/src/backfill.rs:712-939 | between any two actions: sent = completed + failed + in flight, as multisets and counts; at most 20 in flight; failures + in flight at most 49; while no skip has wrapped, no tick is sent twice and the ticks below next are each requested or skipped once |
| `BackfillLaws.CleanFinish` | crates/ingestion/src/backfill.rs:889-893 | a clean return means next = end and sent = completed + failed; with no wrapped skip, completed + failed + skipped = size of the range |
| `BackfillLaws.CleanFinishIff` | crates/ingestion/src/backfill.rs:889-893 | a connection that ends cleanly has handled each tick of its range exactly once, and no other tick, if and only if none of its skips wrapped around u32 |
| `BackfillLaws.BoundedNeverWraps` | crates/ingestion/src/backfill.rs:913-922 | no skip wraps when the range ends 1000000 or more below 2^32 |
| `BackfillSafety.SafeNeverWraps` | crates/ingestion/src/backfill.rs:911-936 | on a safe range - one where, at every tick at which a k-th skip in a row can start, next + skip stays below 2^32 - no connection ever makes a skip that wraps |
| `BackfillSafety.CanFinish` | crates/ingestion/src/backfill.rs:712-893 | from any connection that is not broken, some further replies lead to a clean finish |
| `BackfillSafety.UnsafeCanFinish` | crates/ingestion/src/backfill.rs:911-936 | on every unsafe range some network makes a skip wrap and the connection still end cleanly, with a tick handled once too often |
| `BackfillSafety.ConnectionLeavesNoGap` | crates/ingestion/src/backfill.rs:911-936 | every tick between the start and the next tick was handled at least once, wrapped skips or not |
| `BackfillSafety.AlwaysExactIff` | crates/ingestion/src/backfill.rs:681-893 | whatever the network does, a clean finish has handled each tick of the range exactly once and no other, if and only if the range is safe |
| `BackfillSafety.SafeRanges` | crates/ingestion/src/backfill.rs:911-922 | ranges that end 1000000 or more below 2^32, and ranges of at most 49 ticks, are safe |
| `BackfillSafety.LastTicksAreUnsafe` | crates/ingestion/src/backfill.rs:911-922 | the 50 ticks up to 2^32 - 1 are not |
| `BackfillLaws.TimeoutAccounts` | crates/ingestion/src/backfill.rs:869-887 | after a timeout sent = completed + failed, the pending ones having been counted as failed |
| `BackfillLaws.SkipDiscipline` | crates/ingestion/src/backfill.rs:911-936 | before every skip lie at least 30 unavailable replies with no success or skip between; after k skips it spans min(10000*2^k, 1000000), added in u32 and cut at the end |
| `BackfillLaws.FewFailuresRequestAll` | crates/ingestion/src/backfill.rs:911-936 | if the streak never reaches 30, nothing is skipped and a clean finish requested every tick exactly once |
| `BackfillReplies.ConnectionSends` | crates/ingestion/src/backfill.rs:925-935 | along any connection the dejavus of the requests are, in order, the random draws used up, a draw of 0 sent as 1; the draws used up are a first part of those offered at the start and with each packet |
| `BackfillReplies.FirstWindow` | crates/ingestion/src/backfill.rs:718-730 | the first window asks for the first min(20, size) ticks, the i-th with the i-th draw |
| `BackfillReplies.ConnectionExpects` | crates/ingestion/src/backfill.rs:934-935 | every entry of the queue is a request that was sent, with its tick and dejavu |
| `BackfillReplies.ReplyAnswers` | crates/ingestion/src/backfill.rs:741-859 | the reply with the dejavu of a request: 8 bytes of tick data or more complete its tick, fewer are malformed, types 35 and 54 make it unavailable; all other requests stay in flight in order, and only requests and skips follow |
| `BackfillReplies.StrayPacket` | crates/ingestion/src/backfill.rs:797-863 | a packet that answers no request changes nothing, but a published transaction is recorded |
| `BackfillReplies.ReadErrorEnds` | crates/ingestion/src/backfill.rs:866-868 | a read error ends the connection and writes nothing off |
| `BackfillReplies.TimeoutWritesOff` | crates/ingestion/src/backfill.rs:869-887 | a timeout ends the connection and writes off every request in flight, in order |
| `BackfillReplies.WaitingWindow` | crates/ingestion/src/backfill.rs:731-739 | a waiting connection has 20 requests in flight, or fewer if nothing is left to ask for, and fewer than 30 failures in a row |
| `BackfillReplies.BackoffWindow` | crates/ingestion/src/backfill.rs:763-765 | the backoff is the number of skips since the last completed tick |
| `BackfillReplies.CountersCount` | crates/ingestion/src/backfill.rs:114-148 | the counters are the numbers of completed, failed and published ticks and of published transactions in the history |
| `BackfillWorkers.StepCounts` | crates/ingestion/src/backfill.rs:114-148 | the shared-counter increments of a step are exactly what the step records |
| `BackfillWorkers.SlidingWindow.FillPipeline` | crates/ingestion/src/backfill.rs:900-939 | the loop with its queue and counters computes the fill of the state machine |
| `BackfillWorkers.SlidingWindow.OnTickData` | crates/ingestion/src/backfill.rs:741-801 | a tick-data packet completes or fails its request and adds that to the shared counters |
| `BackfillWorkers.SlidingWindow.OnUnavailable` | crates/ingestion/src/backfill.rs:802-859 | an end-of-response or try-again packet fails its request and extends the streak |
| `BackfillWorkers.SlidingWindow.OnTimeout` | crates/ingestion/src/backfill.rs:869-887 | the pending requests are failed one by one and counted |
| `BackfillWorkers.SlidingWindow.Receive` | crates/ingestion/src/backfill.rs:732-889 | one turn of the read loop is one step of the state machine, with its counter increments |
| `BackfillWorkers.TryPeer` | crates/ingestion/src/backfill.rs:681-893 | a whole connection is the state machine over its inputs; the caller's tick moves to the end only on a clean finish; the shared counters grow by the history's counts |
| `BackfillSystem.Partition` | crates/ingestion/src/backfill.rs:297-335 | the loop yields the non-empty worker ranges in order, in 32-bit arithmetic |
| `BackfillSystem.PartitionTiles` | crates/ingestion/src/backfill.rs:379-390 | for any worker count and chunk, when no worker start wraps, each tick of [start, end) has exactly one owner and no other tick has any |
| `BackfillSystem.TilesIff` | crates/ingestion/src/backfill.rs:379-390 | for any worker count and any chunk, cut to 32 bits as the code does: the ranges tile [start, end) if and only if every worker whose start wraps is left without a range |
| `BackfillSystem.ShortChunkTilesIff` | crates/ingestion/src/backfill.rs:301-311 | for a chunk no longer than the range: they tile if and only if no start wraps |
| `BackfillSystem.LongChunkCanTile` | crates/ingestion/src/backfill.rs:379-390 | a longer chunk that wraps and still tiles |
| `BackfillSystem.LongChunkCanOverlap` | crates/ingestion/src/backfill.rs:379-390 | a longer chunk that wraps and hands a tick to two workers |
| `BackfillSystem.TickPhaseTilesIff` | crates/ingestion/src/backfill.rs:297-309 | with the tick phase's own chunk size, tiling holds exactly when the last worker's start does not wrap |
| `BackfillSystem.TickPhaseShares` | crates/ingestion/src/backfill.rs:297-309 | with no more workers than ticks each worker gets the whole part of ticks / workers, in order, and the last one also the remainder |
| `BackfillSystem.TickPhaseSingles` | crates/ingestion/src/backfill.rs:297-314 | with more workers than ticks the first ones get one tick each and the others none |
| `BackfillSystem.TickPhaseCanOverrun` | crates/ingestion/src/backfill.rs:297-309 | five workers on the two ticks before 2^32 - 1: one of them is handed tick 0 |
| `BackfillSystem.RunSystemInv` | crates/ingestion/src/backfill.rs:627-650 | under any interleaving every worker keeps its range, every connection its invariant and every finished one the skip discipline |
| `BackfillSystem.CountersAddUp` | crates/ingestion/src/backfill.rs:114-148 | under any interleaving the shared counters are the sum over all workers' connections, past and open |
| `BackfillSystem.EveryTickHandled` | crates/ingestion/src/backfill.rs:627-650 | when all workers are done and no skip wrapped, each tick of tiled ranges was requested or skipped exactly once in its owner's last connection, and no other worker touched it |
| `BackfillExact.SystemExactIff` | crates/ingestion/src/backfill.rs:627-650 | when all workers of tiled ranges are done, their last connections together handled each tick exactly once and no other, if and only if none of these connections made a skip that wrapped |
| `BackfillExact.AlwaysExactlyOnceIff` | crates/ingestion/src/backfill.rs:627-650 | for any ranges: under every schedule and every network that lets all workers finish each tick is handled exactly once, if and only if the ranges tile and each is safe |
| `BackfillExact.BackfillExactIff` | crates/ingestion/src/backfill.rs:297-335 | for any range, worker count and chunk: the backfill always handles each tick exactly once if and only if every worker whose start wraps is left without a range and every range handed out is safe |
| `BackfillExact.BackfillCovers` | crates/ingestion/src/backfill.rs:297-335 | on safe ranges that tile, once all workers are done each tick was handled exactly once by the last connection of its one owner, and no other worker ever touched it |
| `Collections.SortedListSpec` | crates/ingestion/src/decoder.rs:48-49 | the sorted list holds exactly the voters, strictly ascending |
| `Quorum.TickVoteAggregator.RecordVote` | crates/ingestion/src/decoder.rs:36-59 | a vote changes the maps as the vote operation does and returns the event that operation emits |
| `Quorum.TickVoteAggregator.Prune` | crates/ingestion/src/decoder.rs:63-69 | a prune drops exactly the keys the prune operation drops |
| `Quorum.PacketDecoder.CountVote` | crates/ingestion/src/decoder.rs:215-227 | the vote is appended to those counted, the state stays the one they lead to, and the event is that of the run |
| `Quorum.PacketDecoder.DecodeTickVote` | crates/ingestion/src/decoder.rs:192-240 | a too-short payload changes nothing; any other is one counted vote |
| `QuorumLaws.RunPublishes` | crates/ingestion/src/decoder.rs:36-69 | after any votes and prunes a key is published iff it has at least 451 voters |
| `QuorumLaws.RunCollects` | crates/ingestion/src/decoder.rs:36-69 | a key's vote set is exactly the computors that voted since it was last dropped |
| `QuorumLaws.PruneKeepsWindow` | crates/ingestion/src/decoder.rs:63-69 | a prune keeps exactly the keys whose tick is at most `keep` behind the latest, with their votes |
| `QuorumLaws.DecoderHolds` | crates/ingestion/src/decoder.rs:215-227 | after any votes the decoder holds for each key exactly the computors that voted for it with no later 10000th vote (or that one) more than 256 ticks ahead; the key is published iff these are at least 451 |
| `QuorumLaws.VoteIsRead` | crates/ingestion/src/decoder.rs:193-199 | a packet of 20 bytes or more carries computor, epoch and tick, little-endian in this order; a shorter one carries nothing |
| `QuorumLaws.EmitsIff` | crates/ingestion/src/decoder.rs:46-58 | an event is emitted, for the key voted for, exactly when a vote brings its voters from 450 to 451 |
| `QuorumLaws.EventsAreWellShaped` | crates/ingestion/src/decoder.rs:46-58 | an event lists exactly 451 distinct ascending computors, those that voted for its key |
| `QuorumLaws.EventsAreBounded` | crates/ingestion/src/decoder.rs:36-69 | 451 times the events for a key is at most the votes recorded for it |
| `QuorumLaws.EventsNeedPrune` | crates/ingestion/src/decoder.rs:45-69 | two events for one key have a prune that drops the key between them |
| `QuorumLaws.QuorumsIntersect` | crates/core/src/constants.rs:6-9 | any two events over indices below 676 share at least 226 computors |
| `DetectorLaws.StoredCount` | crates/storage/src/warm.rs:758-804 | the stored vote count of a tick is the number of distinct computors stored for it, over any run |
| `DetectorLaws.DetectorsAgree` | crates/processor/src/indexer.rs:352-378 | on the same votes in any order and multiplicity, whatever was pruned: the stored count is at least the aggregator's, and a published key has a stored quorum; the counts are equal if and only if every computor that voted for the tick, under any epoch, voted under the key since it was last dropped |
| `DetectorLaws.OneEpochAgrees` | crates/ingestion/src/decoder.rs:36-59 | with one epoch per tick and no drop of the key, the counts are equal and the key is published iff the stored count reaches 451 |
| `DetectorLaws.TwoEpochsDisagree` | crates/storage/src/warm.rs:788-804 | two votes for one tick under two epochs: two stored, one counted for each key |
| `DetectorLaws.PruneDisagrees` | crates/ingestion/src/decoder.rs:63-69 | a vote dropped by a prune stays stored |
| `DetectorLaws.VotesAreStored` | crates/storage/src/warm.rs:758-766 | each computor's last vote for a tick is stored with its payload, and nothing else |
| `OrderedKeys.LessConcat` | crates/storage/src/warm.rs:206-213 | comparing concatenated keys of equal-width fields is comparing field by field |
| `OrderedKeys.LessIsNumeric` | crates/storage/src/warm.rs:136-140 | byte order of big-endian numbers is numeric order |
| `OrderedKeys.EarlyStop` | crates/storage/src/warm.rs:149-168 | a forward scan that stops where nothing further can match finds exactly the matching keys, in order |
| `OrderedKeys.EarlyStopBackward` | crates/storage/src/warm.rs:258-289 | the same for a backward scan |
| `WarmStorage.ScanPrefix` | crates/storage/src/warm.rs:216-235 | the seek-and-break loop returns exactly the keys with the prefix, ascending |
| `WarmStorage.ScanHistory` | crates/storage/src/warm.rs:297-382 | the history loop with its skip and limit counters returns the specified page |
| `WarmStorage.WarmStorage.BatchWrite` | crates/storage/src/warm.rs:889-892 | a batch applies its puts in order |
| `WarmStorage.WarmStorage.PutCustomMessage` | crates/storage/src/warm.rs:580-588 | one slot of one column changes, nothing else |
| `WarmStorage.WarmStorage.PutTickVote` | crates/storage/src/warm.rs:758-766 | one vote entry changes, nothing else |
| `WarmStorage.WarmStorage.GetTickRange` | crates/storage/src/warm.rs:149-168 | exactly the stored ticks in [from, to] with their data, strictly ascending |
| `WarmStorage.WarmStorage.GetLatestTick` | crates/storage/src/warm.rs:171-183 | the greatest stored tick, or none iff none is stored |
| `WarmStorage.WarmStorage.GetTxHashesForTick` | crates/storage/src/warm.rs:216-235 | exactly the tick's entries in index order |
| `WarmStorage.WarmStorage.CountCustomMessagesForTick` | crates/storage/src/warm.rs:590-606 | the number of messages stored for the tick |
| `WarmStorage.WarmStorage.GetCustomMessagesForTick` | crates/storage/src/warm.rs:609-625 | exactly the tick's messages in index order |
| `WarmStorage.WarmStorage.CountVotesForTick` | crates/storage/src/warm.rs:788-804 | the number of votes stored for the tick |
| `WarmStorage.WarmStorage.CountEntityTransactions` | crates/storage/src/warm.rs:385-401 | the number of index entries of the entity |
| `WarmStorage.WarmStorage.GetTxHashesForEntity` | crates/storage/src/warm.rs:258-289 | the last n of the entity's entries, last first |
| `WarmStorage.WarmStorage.GetEntityHistory` | crates/storage/src/warm.rs:297-382 | the entity's entries restricted to the looked-up range, drop offset, fetch, take limit; nothing when the lookup fails |
| `StorageLaws.SlotKeyOrder` | crates/storage/src/warm.rs:206-213 | slot keys order by (tick, index) and are injective |
| `StorageLaws.EntryOrder` | crates/storage/src/warm.rs:241-255 | an entity's keys order by (tick, index) |
| `StorageLaws.DenseReads` | crates/storage/src/warm.rs:609-625 | a tick whose slots are filled without gaps reads back in slot order |
| `StorageLaws.SlotsAreFew` | crates/storage/src/warm.rs:590-606 | a tick has no more than 2^32 entries |
| `StorageLaws.EntriesAreOrdered` | crates/storage/src/warm.rs:297-382 | the history's entries are exactly those of the entity and range, strictly ascending by (tick, index) |
| `StorageLaws.NewestAreGreatest` | crates/storage/src/warm.rs:258-289 | the newest-first listing is strictly descending by (tick, index) |
| `StorageLaws.PageIsSlice` | crates/storage/src/warm.rs:297-382 | without dangling hashes a page is drop-then-take of the whole history |
| `StorageLaws.PageRows` | crates/storage/src/warm.rs:297-382 | a page holds, in (tick, index) order from `offset` on, the tick and stored transaction of exactly the entity's entries in the tick range |
| `StorageLaws.UnfilteredPage` | crates/storage/src/warm.rs:297-382 | without an epoch it does so for all the entity's entries, as many as the transaction count |
| `StorageLaws.PagesConcatenate` | crates/storage/src/warm.rs:297-382 | consecutive pages concatenate to the larger page |
| `StorageLaws.AllPagesConcatenate` | crates/storage/src/warm.rs:297-382 | so do the pages of every epoch filter, and of none |
| `StorageLaws.FullHistoryLength` | crates/storage/src/warm.rs:385-401 | the unfiltered full history is as long as the entity's transaction count |
| `StorageLaws.EpochPage` | crates/storage/src/warm.rs:297-382 | an epoch's page is the history between the least first and the greatest last tick of its fetched intervals, however these were listed |
| `StorageLaws.UnknownEpochPage` | crates/storage/src/warm.rs:297-382 | an epoch that was not fetched has an empty page |
| `EpochIntervals.Merge` | crates/core/src/epoch_intervals.rs:35-64 | one row per epoch, sorted, with the least first and greatest last tick of all its entries |
| `EpochIntervals.EpochTable.SetEpochRanges` | crates/core/src/epoch_intervals.rs:35-64 | the table becomes the merge of the entries |
| `EpochIntervals.EpochTable.GetEpochRange` | crates/core/src/epoch_intervals.rs:72-77 | the search returns the epoch's row if there is one |
| `EpochIntervals.LookupIsMergedRange` | crates/core/src/epoch_intervals.rs:72-77 | a lookup succeeds iff the epoch was fetched and gives min first and max last |
| `EpochIntervals.RowsCountTicks` | crates/core/src/epoch_intervals.rs:48-57 | the tick count of a row includes both ends, saturates at 2^32 - 1, and is 1 if the ends are crossed |
| `EpochIntervals.MergeIgnoresOrder` | crates/core/src/epoch_intervals.rs:35-64 | order and repetition of the fetched entries do not matter |
| `Indexer.BatchPutTxEffect` | crates/storage/src/warm.rs:907-943 | a transaction batch stores the transaction, its tick slot, and an entry for each entity given |
| `Indexer.BatchPutTickEffect` | crates/storage/src/warm.rs:946-959 | a tick batch stores the tick and makes it and its epoch current |
| `Indexer.Indexer.UpdateEpochStats` | crates/processor/src/indexer.rs:50-60 | one epoch's row is read, updated and written; nothing else changes |
| `Indexer.Indexer.IndexTick` | crates/processor/src/indexer.rs:67-143 | the method is the tick step, including rejected ticks |
| `Indexer.Indexer.IndexTransaction` | crates/processor/src/indexer.rs:150-227 | the method is the transaction step, including the counter that restarts on a new tick |
| `Indexer.Indexer.IndexCustomMessage` | crates/processor/src/indexer.rs:421-436 | the method is the message step |
| `Indexer.Indexer.IndexTickVote` | crates/processor/src/indexer.rs:352-378 | the method is the vote step, and reports the quorum iff the stored count reaches 451 |
| `Indexer.StartIndexer` | crates/processor/src/lib.rs:60 | a process start over existing storage is the restart step: storage stays, counters are zero |
| `IndexerLaws.RunHasIntegrity` | crates/storage/src/warm.rs:907-943 | after every run each index value is a 32-byte hash of a stored transaction, all keys have their column's width, no hash dangles |
| `IndexerLaws.ReachablePagesConcatenate` | crates/storage/src/warm.rs:297-382 | pages concatenate in every reachable state |
| `IndexerLaws.CurrentTickIsStored` | crates/processor/src/indexer.rs:77-125 | the current tick and epoch are those of the last accepted tick, which is stored and at most the latest tick; unset iff none was accepted |
| `IndexerLaws.TicksAreStored` | crates/processor/src/indexer.rs:67-125 | the stored ticks are exactly those accepted, epochs above 1000 being rejected, each with the payload that came last |
| `IndexerLaws.TxPositions` | crates/processor/src/indexer.rs:194-213 | after any run: reading every tick's hashes back in arrival order holds iff each tick's transactions arrived as one contiguous run, with no restart in it, and are at most 2^32 |
| `IndexerLaws.InterleavedTicksLose` | crates/processor/src/indexer.rs:194-213 | transactions of ticks 1, 2, 1: only the last one of tick 1 reads back |
| `IndexerLaws.RestartLoses` | crates/processor/src/indexer.rs:194-213 | the same when the process restarts between two transactions of a tick |
| `IndexerLaws.MessagesReadBack` | crates/processor/src/indexer.rs:421-436 | after any run: a tick's messages read back in arrival order iff they are at most 2^32; their slots are then exactly 0..count-1 |
| `IndexerLaws.MessagesNeverOverwritten` | crates/processor/src/indexer.rs:421-436 | as long as a tick has at most 2^32 messages, what is readable for it only ever grows at its end |
| `EntityLaws.EntityIndexIsExact` | crates/processor/src/indexer.rs:172-213 | when ticks arrive as contiguous runs, an entity's entries of a tick with at most 2^32 transactions are exactly those it sent or received, each at its arrival position with its hash |
| `EntityLaws.TxsAreStored` | crates/storage/src/warm.rs:907-943 | the stored transactions are those that arrived, each with the payload that came last with its hash |
| `EntityLaws.RunHistory` | crates/storage/src/warm.rs:297-382 | when ticks arrive as contiguous runs of at most 2^32, an unfiltered page lists by tick and arrival the tick and payload of exactly the transactions the entity sent or received |
| `EntityLaws.TransactionsAreCounted` | crates/storage/src/warm.rs:385-401 | after every run the entity's count is at most the number of transactions it took part in, and equal to it if and only if no two of them were given the same position of the same tick |
| `EntityLaws.EntriesArePlaced` | crates/processor/src/indexer.rs:194-213 | after every run the entity has an entry exactly at the positions its transactions were given |
| `EntityLaws.ContiguousCounts` | crates/storage/src/warm.rs:385-401 | when ticks arrive as contiguous runs of at most 2^32 the count is exact |
| `EntityLaws.InterleavedTicksUncount` | crates/processor/src/indexer.rs:194-213 | an entity with two transactions of tick 1, one of tick 2 between: fewer than two are counted |
| `EpochStatsLaws.StatsAddUp` | crates/processor/src/indexer.rs:127-139 | after every run, restarts included: summed tick counts equal the ticks accepted; summed transaction counts plus those indexed while no epoch was in force equal the transactions |
| `EpochStatsLaws.PipelineCounts` | crates/processor/src/indexer.rs:127-139 | the pipeline's tick and epoch are those of the last tick accepted since the process started, and its counters count from there |
| `EpochStatsLaws.RowsAreFolds` | crates/processor/src/indexer.rs:50-60 | each epoch's row is the fold of the run: number, least and greatest of its accepted ticks, and number of transactions that arrived while it was in force |
| `Identity.ChecksumRecoverable` | crates/core/src/identity.rs:46-63 | the checksum bits are recovered from their four letters, because 26^4 exceeds 2^18 |
| `Identity.FragmentLetters` | crates/core/src/identity.rs:107-145 | 14 letters of a 64-bit fragment give it back, with every Horner accumulator below 2^64 |
| `Identity.DecodeEncode` | crates/core/src/identity.rs:70-145 | every 32-byte key survives encoding and decoding |
| `Identity.EncodeDecodeIff` | crates/core/src/identity.rs:70-145 | an accepted identity encodes back to itself iff each 14-letter fragment is below 2^64 |
| `Identity.OverflowIsAccepted` | crates/core/src/identity.rs:117-130 | for every hash there is an accepted identity with a fragment of 2^64 or more |
| `Identity.SuffixIsUnique` | crates/core/src/identity.rs:133-144 | a 56-letter body has at most one accepted suffix |
| `IdentityLaws.KeyCharacter` | crates/core/src/identity.rs:74-92 | character 14 i + j is base-26 digit j of the i-th eight key bytes read little-endian, A for 0 |
| `IdentityLaws.SuffixCharacter` | crates/core/src/identity.rs:46-63 | character 56 + j is digit j of a + 256 b + 65536 (c mod 4), for the first hash bytes a, b, c |
| `IdentityLaws.SuffixSpellsHash` | crates/core/src/identity.rs:46-63 | the suffix gives these 18 bits back |
| `IdentityLaws.DecodeIff` | crates/core/src/identity.rs:107-145 | the decoder returns a key exactly for 60 characters whose first 56 are upper-case letters that spell it, 14 to eight bytes modulo 2^64, and whose last four spell the 18 hash bits of that key |
| `Identity.EncodeFragment` | crates/core/src/identity.rs:88-92 | the loop writes the 14 letters of a fragment in place and leaves the rest of the buffer alone |
| `Identity.ComputeChecksum` | crates/core/src/identity.rs:46-63 | the loop spells the 18 hash bits in four letters |
| `Identity.EncodeBase26` | crates/core/src/identity.rs:70-102 | the loops spell the four fragments and the checksum |
| `Identity.DecodeFragment` | crates/core/src/identity.rs:117-130 | Horner's rule modulo 2^64, or none at a non-letter |
| `Identity.DecodeBase26` | crates/core/src/identity.rs:107-145 | accepts exactly 60 characters whose first 56 are letters and whose last four are the checksum of the key they spell |
| `Framing.PayloadSizeIff` | crates/core/src/header.rs:22-66 | for every payload size, the sum wrapping at 32 bits, a header gives it back iff payload + 8 < 2^24 |
| `Framing.FrameRoundTripIff` | crates/ingestion/src/protocol.rs:85-105 | a packet of any size is read back, whatever follows, iff payload + 8 < 2^24 |
| `Framing.BigPacketIsLost` | crates/core/src/header.rs:22-28 | a payload of 2^24 - 8 bytes is not read back: its size field is zero, which reads as 2^32 - 1 |
| `Framing.FrameLayout` | crates/core/src/header.rs:58-66 | the bytes of a frame: total size modulo 2^24 in three, type, dejavu in four, then the payload |
| `Framing.UnframeReads` | crates/ingestion/src/protocol.rs:85-105 | the packet at the front of any stream, in terms of its bytes; a size below 8 means no payload, a size of 0 stands for 2^32 - 1 |
| `Framing.StreamRoundTrip` | crates/ingestion/src/protocol.rs:14-28 | reading the concatenated output gives exactly the packets, then what the rest of the stream holds |
| `Framing.Stream.SendRaw` | crates/ingestion/src/protocol.rs:14-28 | the frame is appended to what was written |
| `Framing.Stream.ReadPacket` | crates/ingestion/src/protocol.rs:85-105 | the next packet is taken off the stream, or an error if it ends too early |
| `LogEvents.ParsePrint` | crates/ingestion/src/decoders.rs:473-608 | printing any well-sized events and parsing gives them back, then what follows them |
| `LogEvents.PrintParse` | crates/ingestion/src/decoders.rs:473-608 | the parsed events printed, and the unread bytes, are the whole input; the unread bytes do not start with an event |
| `LogEvents.ParseIff` | crates/ingestion/src/decoders.rs:473-608 | the parse is the only cut into well-sized events and an unparsable rest |
| `LogEvents.PrefixParses` | crates/ingestion/src/decoders.rs:487-605 | parsing a prefix of the input gives a prefix of the events |
| `LogEvents.SlicesAreConsecutive` | crates/ingestion/src/decoders.rs:522-604 | each event's data is an in-bounds slice; slices follow each other without gap or overlap, at least 26 bytes apart |
| `LogEvents.EventFields` | crates/ingestion/src/decoders.rs:496-602 | each event holds the little-endian fields at its offset, the amount in two's complement, and the data its type calls for |
| `LogEvents.WellSizedIff` | crates/ingestion/src/decoders.rs:525-588 | the data sizes the parser accepts, type by type |
| `LogEvents.NextEvent` | crates/ingestion/src/decoders.rs:488-604 | one iteration yields the well-sized event lying at the offset, or breaks only where none parses |
| `LogEvents.DecodeLogEvents` | crates/ingestion/src/decoders.rs:473-608 | an error below 8 bytes, otherwise the events of the parse from byte 8 |
| `Calendar.QubicDateToUnix` | crates/ingestion/src/decoders.rs:122-140 | the two loops compute days and seconds; a month above 13 is past the table |
| `Calendar.UnixIsPosix` | crates/ingestion/src/decoders.rs:122-144 | on every valid date from 1970 on the result is the closed formula of section 4.16 of POSIX.1-2017 Base Definitions |
| `Calendar.UnixIsOrdered` | crates/ingestion/src/decoders.rs:122-144 | timestamps compare as dates do, and no two valid dates share one |
| `Calendar.OddDates` | crates/ingestion/src/decoders.rs:122-140 | day 0 counts as day 1, month 0 as month 1, month 13 as the next January, and years before 1970 as 1970 up to their leap day |
| `HotCache.OldestKey` | crates/storage/src/hot.rs:105-109 | the search returns a key of least time |
| `HotCache.Insert` | crates/storage/src/hot.rs:100-121 | a put evicts a key of least time iff the cache is full and the key new, then inserts |
| `HotCache.RoomKeepsAll` | crates/storage/src/hot.rs:103-113 | a put with room left, or of a cached key, keeps every other entry |
| `HotCache.FullDropsOldest` | crates/storage/src/hot.rs:103-113 | a put of a new key into a full cache drops one entry of least time and no other |
| `HotCache.StaleIff` | crates/storage/src/hot.rs:179-191 | an eviction keeps exactly the entries younger than the age, unchanged |
| `HotCache.Bounded` | crates/storage/src/hot.rs:100-154 | after any operations the size is at most max(capacity, 1) |
| `HotCache.CapacityIff` | crates/storage/src/hot.rs:100-154 | every run stays within the capacity if and only if the capacity is positive |
| `HotCache.ZeroCapacityStores` | crates/storage/src/hot.rs:100-121 | with capacity zero the last put is the one entry |
| `HotCache.HoldsLatest` | crates/storage/src/hot.rs:94-154 | every cached entry is the latest put for its key, whatever the clock |
| `HotCache.RecencyDescends` | crates/storage/src/hot.rs:100-154 | the recency list is strictly ordered by last put |
| `HotCache.HoldsMostRecent` | crates/storage/src/hot.rs:94-191 | with a strictly increasing clock the cached keys are the most recently put distinct keys, across puts, overwrites and stale evictions |
| `HotCache.PutsHoldMostRecent` | crates/storage/src/hot.rs:100-154 | a cache that only saw puts holds exactly the min(capacity, distinct keys) most recent keys |
| `HotCache.AgedIsGone` | crates/storage/src/hot.rs:179-191 | a key found too old since its last put is not cached |
| `HotCache.AbsentForAReason` | crates/storage/src/hot.rs:100-191 | a key that was put and is not cached was found too old since, or at least as many other keys as the capacity were put since |
| `HotCache.HotCache.GetTick` | crates/storage/src/hot.rs:94-97 | the cached data, which is the latest put for the tick |
| `HotCache.HotCache.GetEntity` | crates/storage/src/hot.rs:128-131 | the cached data, which is the latest put for the entity |
| `HotCache.HotCache.PutTick` | crates/storage/src/hot.rs:100-121 | the tick cache takes a put step, stays bounded and holds the tick |
| `HotCache.HotCache.PutEntity` | crates/storage/src/hot.rs:134-154 | the entity cache takes a put step, stays bounded and holds the entity |
| `HotCache.HotCache.EvictStale` | crates/storage/src/hot.rs:179-191 | in both caches exactly the entries younger than the age stay |

## Left out

- Connecting, handshakes, timers and reconnect delays: they decide which inputs a connection sees, and the model takes all of them.
- NATS publishing, consumers, REST, RPC and WebSocket queries, the cold tier and configuration: thin wrappers or code behind libraries.
- KangarooTwelve, SHA-256, hex and JSON: an arbitrary hash, hashes given in the events, payloads as byte strings; payloads that do not parse are not modelled.
- Storage errors: writes succeed.
- The transaction phase of the backfill beyond its partition, and the choice of the start and end tick: they only add sequential requests.
- Pending requests, peer scores, pipeline status and the fixed-offset decoders: they would only add easy members.
- Asset, spectrum, computor, oracle and log-event columns: the same scans again.
- Scheduling inside one turn of a worker, and between the statements of one indexer call: a worker's turn and an indexer call are single steps, since workers share only counters they add to atomically and an indexer call does not await.
- Overflow checks of a debug build: additions wrap, as in a release build.
- WarmStorage.ScanPrefix: and the readers built on it assume that all keys of the column have its width; RunHasIntegrity shows that every store the indexer writes does.
- Indexer.Indexer.UpdateEpochStats: keeps the statistics as records rather than as JSON text.
- Calendar.UnixIsPosix: leaves the 64-bit width of the sum unmodelled; 32-bit years stay far below it.
