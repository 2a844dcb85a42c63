/**
 * The indexer: every decoded event is one atomic step that writes the warm tier and
 * the pipeline counters. A run is any finite sequence of such events.
 */
module Indexer {
  import opened Bytes
  import opened OrderedKeys
  import opened WarmStorage
  import Q = Quorum

  type Key32 = b: Bytes | |b| == 32 witness seq(32, _ => 0)

  const MAX_EPOCH := 1000

  /** A message taken off a stream, with the fields the indexer reads from its payload; or the process starts again. */
  datatype Event =
    | TickEvent(tick: u32, epoch: u16, payload: Bytes)
    | TxEvent(tick: u32, hash: Key32, source: Option<Key32>, destination: Option<Key32>, payload: Bytes)
    | MessageEvent(tick: u32, payload: Bytes)
    | VoteEvent(tick: u32, computor: u16, payload: Bytes)
    | RestartEvent

  datatype Pipeline = Pipeline(indexedTick: u32, indexedEpoch: u16, ticksIndexed: nat, txsIndexed: nat)

  datatype State = State(db: Db, pipeline: Pipeline, txLastTick: u32, txCounter: u32)

  const FRESH := State(EMPTY, Pipeline(0, 0, 0, 0), 0, 0)

  // ---------------------------------------------------------------- batches

  function BatchPutTx(hash: Key32, data: Bytes, tick: u32, index: u32, source: Option<Key32>, destination: Option<Key32>): seq<Put> {
    [Put(TxColumn, hash, data), Put(TxByTickColumn, SlotKey(tick, index), hash)]
    + (if source.Some? then [Put(TxByEntityColumn, EntityKey(source.value, tick, index), hash)] else [])
    + (if destination.Some? then [Put(TxByEntityColumn, EntityKey(destination.value, tick, index), hash)] else [])
  }

  function BatchPutTick(tick: u32, epoch: u16, data: Bytes): seq<Put> {
    [Put(TickColumn, TickKey(tick), data), Put(MetaColumn, CURRENT_TICK, BE(tick, 4)), Put(MetaColumn, CURRENT_EPOCH, BE(epoch, 2))]
  }

  function EntityPut(cf: Cf, entity: Option<Key32>, tick: u32, index: u32, hash: Key32): Cf {
    if entity.Some? then cf[EntityKey(entity.value, tick, index) := hash] else cf
  }

  lemma {:induction false} BatchPutTxEffect(db: Db, hash: Key32, data: Bytes, tick: u32, index: u32, source: Option<Key32>, destination: Option<Key32>)
    ensures ApplyAll(db, BatchPutTx(hash, data, tick, index, source, destination)) ==
            db.(tx := db.tx[hash := data],
                txByTick := db.txByTick[SlotKey(tick, index) := hash],
                txByEntity := EntityPut(EntityPut(db.txByEntity, source, tick, index, hash), destination, tick, index, hash))
  {
    var a, b := Put(TxColumn, hash, data), Put(TxByTickColumn, SlotKey(tick, index), hash);
    var src := if source.Some? then [Put(TxByEntityColumn, EntityKey(source.value, tick, index), hash)] else [];
    var dst := if destination.Some? then [Put(TxByEntityColumn, EntityKey(destination.value, tick, index), hash)] else [];
    var d2 := Apply(Apply(db, a), b);
    assert [a, b] + src + dst == [a] + ([b] + (src + dst));
    ApplyCons(db, a, [b] + (src + dst));
    ApplyCons(Apply(db, a), b, src + dst);
    if source.Some? { ApplyCons(d2, src[0], dst); } else { assert src + dst == dst; }
    var d3 := if source.Some? then Apply(d2, src[0]) else d2;
    if destination.Some? {
      ApplyCons(d3, dst[0], []);
      assert dst == [dst[0]] + [];
    }
  }

  lemma {:induction false} ApplyCons(db: Db, put: Put, rest: seq<Put>)
    ensures ApplyAll(db, [put] + rest) == ApplyAll(Apply(db, put), rest)
  {
    assert ([put] + rest)[1..] == rest;
  }

  lemma {:induction false} BatchPutTickEffect(db: Db, tick: u32, epoch: u16, data: Bytes)
    ensures ApplyAll(db, BatchPutTick(tick, epoch, data)) ==
            db.(tick := db.tick[TickKey(tick) := data],
                meta := db.meta[CURRENT_TICK := BE(tick, 4)][CURRENT_EPOCH := BE(epoch, 2)])
  {
    var batch := BatchPutTick(tick, epoch, data);
    var a, b, c := batch[0], batch[1], batch[2];
    assert batch == [a] + ([b] + ([c] + []));
    ApplyCons(db, a, [b] + ([c] + []));
    ApplyCons(Apply(db, a), b, [c] + []);
    ApplyCons(Apply(Apply(db, a), b), c, []);
  }

  // ---------------------------------------------------------------- epoch statistics

  function StatsOf(db: Db, epoch: u16): EpochStats {
    if epoch in db.epochStats then db.epochStats[epoch] else EpochStats(epoch, 0, 0, None, None)
  }

  function CountTick(stats: EpochStats, tick: u32): EpochStats {
    stats.(tickCount := stats.tickCount + 1,
           firstTick := Some(Min(if stats.firstTick.Some? then stats.firstTick.value else tick, tick)),
           lastTick := Some(Max(if stats.lastTick.Some? then stats.lastTick.value else tick, tick)))
  }

  function CountTx(stats: EpochStats): EpochStats {
    stats.(txCount := stats.txCount + 1)
  }

  // ---------------------------------------------------------------- one step

  function StepTick(s: State, tick: u32, epoch: u16, payload: Bytes): State {
    if epoch > MAX_EPOCH then s
    else
      var db := ApplyAll(s.db, BatchPutTick(tick, epoch, payload));
      s.(db := db.(epochStats := db.epochStats[epoch := CountTick(StatsOf(db, epoch), tick)]),
         pipeline := Pipeline(tick, epoch, s.pipeline.ticksIndexed + 1, s.pipeline.txsIndexed))
  }

  /** The position of a transaction: the counter restarts whenever the tick changes. */
  function TxIndex(s: State, tick: u32): u32 {
    if tick == s.txLastTick then s.txCounter else 0
  }

  function StepTx(s: State, e: Event): State
    requires e.TxEvent?
  {
    var index := TxIndex(s, e.tick);
    var db := ApplyAll(s.db, BatchPutTx(e.hash, e.payload, e.tick, index, e.source, e.destination));
    var epoch := s.pipeline.indexedEpoch;
    State(
      if epoch > 0 then db.(epochStats := db.epochStats[epoch := CountTx(StatsOf(db, epoch))]) else db,
      s.pipeline.(txsIndexed := s.pipeline.txsIndexed + 1),
      e.tick,
      (index + 1) % 0x1_0000_0000)
  }

  function StepMessage(s: State, tick: u32, payload: Bytes): State {
    var index := |PrefixKeys(s.db.customMessage, TickKey(tick))| % 0x1_0000_0000;
    s.(db := s.db.(customMessage := s.db.customMessage[SlotKey(tick, index) := payload]))
  }

  function StepVote(s: State, tick: u32, computor: u16, payload: Bytes): State {
    s.(db := s.db.(tickVote := s.db.tickVote[VoteKey(tick, computor) := payload]))
  }

  function Step(s: State, e: Event): State {
    match e
    case TickEvent(tick, epoch, payload) => StepTick(s, tick, epoch, payload)
    case TxEvent(_, _, _, _, _) => StepTx(s, e)
    case MessageEvent(tick, payload) => StepMessage(s, tick, payload)
    case VoteEvent(tick, computor, payload) => StepVote(s, tick, computor, payload)
    case RestartEvent => FRESH.(db := s.db)
  }

  /** The state after a run from a fresh indexer over empty storage; storage survives a restart, counters do not. */
  function Run(events: seq<Event>): State {
    if events == [] then FRESH else Step(Run(events[..|events| - 1]), events[|events| - 1])
  }

  // ---------------------------------------------------------------- the indexer object

  class PipelineState {
    var indexedTick: u32
    var indexedEpoch: u16
    var ticksIndexed: nat
    var txsIndexed: nat

    constructor ()
      ensures indexedTick == 0 && indexedEpoch == 0 && ticksIndexed == 0 && txsIndexed == 0
    {
      indexedTick, indexedEpoch, ticksIndexed, txsIndexed := 0, 0, 0, 0;
    }

    function View(): Pipeline
      reads this
    {
      Pipeline(indexedTick, indexedEpoch, ticksIndexed, txsIndexed)
    }
  }

  /** Key lengths: what the early-stopping scans rely on. */
  ghost predicate WellFormed(db: Db) {
    && KeysOfLength(db.txByTick, 8)
    && KeysOfLength(db.txByEntity, 40)
    && KeysOfLength(db.customMessage, 8)
    && KeysOfLength(db.tickVote, 6)
  }

  class Indexer {
    const storage: WarmStorage
    const pipeline: PipelineState
    var txLastTick: u32
    var txCounter: u32

    constructor (storage: WarmStorage, pipeline: PipelineState)
      ensures this.storage == storage && this.pipeline == pipeline
      ensures txLastTick == 0 && txCounter == 0
    {
      this.storage, this.pipeline := storage, pipeline;
      txLastTick, txCounter := 0, 0;
    }

    function View(): State
      reads this, storage, pipeline
    {
      State(storage.db, pipeline.View(), txLastTick, txCounter)
    }

    method UpdateEpochStats(epoch: u16, f: EpochStats -> EpochStats)
      modifies storage
      ensures storage.db == old(storage.db).(epochStats := old(storage.db).epochStats[epoch := f(StatsOf(old(storage.db), epoch))])
    {
      var stats := StatsOf(storage.db, epoch);
      storage.db := storage.db.(epochStats := storage.db.epochStats[epoch := f(stats)]);
    }

    method IndexTick(tick: u32, epoch: u16, payload: Bytes)
      modifies storage, pipeline
      ensures View() == Step(old(View()), TickEvent(tick, epoch, payload))
    {
      if epoch > MAX_EPOCH {
        return;
      }
      storage.BatchWrite(BatchPutTick(tick, epoch, payload));
      pipeline.indexedTick := tick;
      pipeline.indexedEpoch := epoch;
      pipeline.ticksIndexed := pipeline.ticksIndexed + 1;
      UpdateEpochStats(epoch, stats => CountTick(stats, tick));
    }

    method IndexTransaction(e: Event)
      requires e.TxEvent?
      modifies this, storage, pipeline
      ensures View() == Step(old(View()), e)
    {
      if e.tick != txLastTick {
        txLastTick := e.tick;
        txCounter := 0;
      }
      var index := txCounter;
      txCounter := (txCounter + 1) % 0x1_0000_0000;
      storage.BatchWrite(BatchPutTx(e.hash, e.payload, e.tick, index, e.source, e.destination));
      pipeline.txsIndexed := pipeline.txsIndexed + 1;
      var epoch := pipeline.indexedEpoch;
      if epoch > 0 {
        UpdateEpochStats(epoch, stats => CountTx(stats));
      }
    }

    method IndexCustomMessage(tick: u32, payload: Bytes)
      requires WellFormed(storage.db)
      modifies storage
      ensures View() == Step(old(View()), MessageEvent(tick, payload))
    {
      var count := storage.CountCustomMessagesForTick(tick);
      storage.PutCustomMessage(tick, count % 0x1_0000_0000, payload);
    }

    /** Stores the vote and reports whether the stored count has reached the quorum. */
    method IndexTickVote(tick: u32, computor: u16, payload: Bytes) returns (reached: bool)
      requires WellFormed(storage.db)
      modifies storage
      ensures View() == Step(old(View()), VoteEvent(tick, computor, payload))
      ensures reached <==> |PrefixKeys(storage.db.tickVote, TickKey(tick))| >= Q.QUORUM
    {
      storage.PutTickVote(tick, computor, payload);
      var count := storage.CountVotesForTick(tick);
      reached := count >= Q.QUORUM;
    }
  }

  /** A process start over existing storage. */
  method StartIndexer(storage: WarmStorage) returns (indexer: Indexer)
    ensures fresh(indexer) && fresh(indexer.pipeline) && indexer.storage == storage
    ensures forall s: State :: s.db == storage.db ==> indexer.View() == Step(s, RestartEvent)
  {
    var pipeline := new PipelineState();
    indexer := new Indexer(storage, pipeline);
  }
}
