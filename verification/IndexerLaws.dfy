/** What holds after every run of the indexer, whatever events arrived in whatever order. */
module IndexerLaws {
  import opened Bytes
  import opened OrderedKeys
  import opened WarmStorage
  import opened StorageLaws
  import opened Indexer

  function Init(events: seq<Event>): seq<Event>
    requires events != []
  {
    events[..|events| - 1]
  }

  function Last(events: seq<Event>): Event
    requires events != []
  {
    events[|events| - 1]
  }

  // ---------------------------------------------------------------- index integrity

  ghost predicate HashesStored(cf: Cf, tx: Cf) {
    forall k :: k in cf ==> |cf[k]| == 32 && cf[k] in tx
  }

  /** Every value of the two transaction indexes is a 32-byte hash of a stored transaction. */
  ghost predicate Integrity(db: Db) {
    WellFormed(db) && HashesStored(db.txByTick, db.tx) && HashesStored(db.txByEntity, db.tx)
  }

  lemma {:induction false} EntityPutKeeps(cf: Cf, tx: Cf, entity: Option<Key32>, tick: u32, index: u32, hash: Key32)
    requires KeysOfLength(cf, 40) && HashesStored(cf, tx) && hash in tx
    ensures KeysOfLength(EntityPut(cf, entity, tick, index, hash), 40)
    ensures HashesStored(EntityPut(cf, entity, tick, index, hash), tx)
  {
    if entity.Some? { assert |EntityKey(entity.value, tick, index)| == 40; }
  }

  /** What each kind of event leaves alone. */
  lemma {:induction false} StepFrame(s: State, e: Event)
    ensures !e.TxEvent? ==>
              var s' := Step(s, e);
              && s'.db.tx == s.db.tx && s'.db.txByTick == s.db.txByTick && s'.db.txByEntity == s.db.txByEntity
              && if e.RestartEvent? then s'.txLastTick == 0 && s'.txCounter == 0
                 else s'.txLastTick == s.txLastTick && s'.txCounter == s.txCounter
    ensures !e.TickEvent? ==> Step(s, e).db.tick == s.db.tick && Step(s, e).db.meta == s.db.meta
    ensures !e.MessageEvent? ==> Step(s, e).db.customMessage == s.db.customMessage
    ensures !e.VoteEvent? ==> Step(s, e).db.tickVote == s.db.tickVote
  {
    match e
    case TickEvent(tick, epoch, payload) =>
      BatchPutTickEffect(s.db, tick, epoch, payload);
    case TxEvent(tick, hash, source, destination, payload) =>
      BatchPutTxEffect(s.db, hash, payload, tick, TxIndex(s, tick), source, destination);
    case MessageEvent(tick, payload) =>
    case VoteEvent(tick, computor, payload) =>
    case RestartEvent =>
  }

  lemma {:induction false} TxWrites(s: State, e: Event)
    requires e.TxEvent?
    ensures var db, i := Step(s, e).db, TxIndex(s, e.tick);
            && db.tx == s.db.tx[e.hash := e.payload]
            && db.txByTick == s.db.txByTick[SlotKey(e.tick, i) := e.hash]
            && db.txByEntity == EntityPut(EntityPut(s.db.txByEntity, e.source, e.tick, i, e.hash), e.destination, e.tick, i, e.hash)
  {
    BatchPutTxEffect(s.db, e.hash, e.payload, e.tick, TxIndex(s, e.tick), e.source, e.destination);
  }

  lemma {:induction false} TxKeepsIndexes(s: State, e: Event)
    requires e.TxEvent? && Integrity(s.db)
    ensures var db := Step(s, e).db;
            && KeysOfLength(db.txByTick, 8) && HashesStored(db.txByTick, db.tx)
            && KeysOfLength(db.txByEntity, 40) && HashesStored(db.txByEntity, db.tx)
  {
    TxWrites(s, e);
    var i, tx := TxIndex(s, e.tick), s.db.tx[e.hash := e.payload];
    assert |SlotKey(e.tick, i)| == 8;
    EntityPutKeeps(s.db.txByEntity, tx, e.source, e.tick, i, e.hash);
    EntityPutKeeps(EntityPut(s.db.txByEntity, e.source, e.tick, i, e.hash), tx, e.destination, e.tick, i, e.hash);
  }

  lemma {:induction false} StepKeepsIntegrity(s: State, e: Event)
    requires Integrity(s.db)
    ensures Integrity(Step(s, e).db)
  {
    StepFrame(s, e);
    if e.TxEvent? { TxKeepsIndexes(s, e); }
  }

  lemma {:induction false} RunHasIntegrity(events: seq<Event>)
    ensures Integrity(Run(events).db) && NoDangling(Run(events).db)
  {
    if events != [] {
      RunHasIntegrity(Init(events));
      StepKeepsIntegrity(Run(Init(events)), Last(events));
    }
  }

  /** In every reachable state the history pages of every entity concatenate. */
  lemma {:induction false} ReachablePagesConcatenate(events: seq<Event>, entity: Bytes, lo: u32, hi: u32, offset: nat, m: nat, n: nat)
    ensures var db := Run(events).db;
            History(db, entity, lo, hi, offset, m) + History(db, entity, lo, hi, offset + m, n) == History(db, entity, lo, hi, offset, m + n)
  {
    RunHasIntegrity(events);
    PagesConcatenate(Run(events).db, entity, lo, hi, offset, m, n);
  }

  // ---------------------------------------------------------------- the current tick

  /** The last tick event of the run that was not rejected. */
  function LastAccepted(events: seq<Event>): (e: Option<Event>)
    ensures e.Some? ==> e.value.TickEvent?
  {
    if events == [] then None
    else if Last(events).TickEvent? && Last(events).epoch <= 1000 then Some(Last(events))
    else LastAccepted(Init(events))
  }

  function CurrentTick(db: Db): Option<u32> {
    if CURRENT_TICK in db.meta && |db.meta[CURRENT_TICK]| == 4 then
      ValueBEInverse(db.meta[CURRENT_TICK]);
      assert Pow256(4) == 0x1_0000_0000;
      Some(ValueBE(db.meta[CURRENT_TICK]))
    else None
  }

  function CurrentEpoch(db: Db): Option<u16> {
    if CURRENT_EPOCH in db.meta && |db.meta[CURRENT_EPOCH]| == 2 then
      ValueBEInverse(db.meta[CURRENT_EPOCH]);
      assert Pow256(2) == 0x1_0000;
      Some(ValueBE(db.meta[CURRENT_EPOCH]))
    else None
  }

  ghost predicate ShowsTick(s: State, last: Option<Event>)
    requires last.Some? ==> last.value.TickEvent?
  {
    match last
    case None => CURRENT_TICK !in s.db.meta && CURRENT_EPOCH !in s.db.meta
    case Some(e) =>
      && CURRENT_TICK in s.db.meta && s.db.meta[CURRENT_TICK] == BE(e.tick, 4)
      && CURRENT_EPOCH in s.db.meta && s.db.meta[CURRENT_EPOCH] == BE(e.epoch, 2)
      && TickKey(e.tick) in s.db.tick && s.db.tick[TickKey(e.tick)] == e.payload
  }

  lemma {:induction false} RunShowsTick(events: seq<Event>)
    ensures ShowsTick(Run(events), LastAccepted(events))
  {
    if events != [] {
      RunShowsTick(Init(events));
      var s, e := Run(Init(events)), Last(events);
      StepFrame(s, e);
      if e.TickEvent? {
        BatchPutTickEffect(s.db, e.tick, e.epoch, e.payload);
        assert |CURRENT_TICK| != |CURRENT_EPOCH|;
      }
    }
  }

  /**
   * The stored current tick and epoch are those of one and the same event, the last one
   * accepted; its payload is stored; and the tick is at most the latest stored tick.
   */
  lemma {:induction false} CurrentTickIsStored(events: seq<Event>, latest: Option<u32>)
    requires IsLatest(Run(events).db.tick, latest)
    ensures var db := Run(events).db;
            match LastAccepted(events)
            case None => CurrentTick(db) == None && CurrentEpoch(db) == None
            case Some(e) =>
              && CurrentTick(db) == Some(e.tick) && CurrentEpoch(db) == Some(e.epoch)
              && TickKey(e.tick) in db.tick && db.tick[TickKey(e.tick)] == e.payload
              && latest.Some? && e.tick <= latest.value
  {
    RunShowsTick(events);
    var last := LastAccepted(events);
    if last.Some? {
      assert Pow256(2) == 0x1_0000 && Pow256(4) == 0x1_0000_0000;
      BEInverse(last.value.tick, 4);
      BEInverse(last.value.epoch, 2);
    }
  }

  /** The payload of the last accepted event of a tick; ticks of epochs above 1000 are rejected. */
  function TickPayload(events: seq<Event>, t: u32): Option<Bytes> {
    if events == [] then None
    else
      var e := Last(events);
      if e.TickEvent? && e.tick == t && e.epoch <= 1000 then Some(e.payload) else TickPayload(Init(events), t)
  }

  /** The stored ticks are exactly those accepted, each with the payload that came last. */
  lemma {:induction false} TicksAreStored(events: seq<Event>, t: u32)
    ensures var cf := Run(events).db.tick;
            match TickPayload(events, t)
            case None => TickKey(t) !in cf
            case Some(payload) => TickKey(t) in cf && cf[TickKey(t)] == payload
  {
    if events != [] {
      var s, e := Run(Init(events)), Last(events);
      TicksAreStored(Init(events), t);
      StepFrame(s, e);
      if e.TickEvent? {
        BatchPutTickEffect(s.db, e.tick, e.epoch, e.payload);
        TickKeyIsInjective(e.tick, t);
      }
    }
  }

  lemma {:induction false} TickKeyIsInjective(t: u32, u: u32)
    ensures TickKey(t) == TickKey(u) ==> t == u
  {
    BEInverse(t, 4);
    BEInverse(u, 4);
  }

  // ---------------------------------------------------------------- transaction positions

  /** The transactions and the restarts of a run. */
  function Log(events: seq<Event>): (log: seq<Event>)
    ensures AllTxs(log)
  {
    if events == [] then []
    else if IsMark(Last(events)) then Log(Init(events)) + [Last(events)]
    else Log(Init(events))
  }

  predicate IsMark(e: Event) {
    e.TxEvent? || e.RestartEvent?
  }

  predicate AllTxs(log: seq<Event>) {
    forall i :: 0 <= i < |log| ==> IsMark(log[i])
  }

  predicate IsTxOf(e: Event, t: u32) {
    e.TxEvent? && e.tick == t
  }

  predicate SameTick(a: Event, b: Event) {
    a.TxEvent? && b.TxEvent? && a.tick == b.tick
  }

  /** Each tick's transactions arrive as one contiguous run, without a restart in it. */
  ghost predicate Contiguous(log: seq<Event>) {
    forall i, j, k :: 0 <= i < j < k < |log| && SameTick(log[i], log[k]) ==> SameTick(log[i], log[j])
  }

  /** The hashes of a tick's transactions in arrival order. */
  function Arrivals(log: seq<Event>, t: u32): seq<Bytes> {
    if log == [] then []
    else if IsTxOf(Last(log), t) then Arrivals(Init(log), t) + [Last(log).hash]
    else Arrivals(Init(log), t)
  }

  /** The length of the block of equal ticks at the end. */
  function RunLength(log: seq<Event>): (n: nat)
    ensures n == 0 <==> log == [] || !Last(log).TxEvent?
  {
    if log == [] || !Last(log).TxEvent? then 0
    else if |log| > 1 && SameTick(Last(Init(log)), Last(log)) then RunLength(Init(log)) + 1
    else 1
  }

  /** The position the 32-bit counter gives the last transaction. */
  function Position(log: seq<Event>): u32 {
    Max(RunLength(log) - 1, 0) % 0x1_0000_0000
  }

  /** The length of the longest block of tick `t`. */
  function Longest(log: seq<Event>, t: u32): nat {
    if log == [] then 0
    else if IsTxOf(Last(log), t) then Max(Longest(Init(log), t), RunLength(log))
    else Longest(Init(log), t)
  }

  /** The tick index the log leaves behind. */
  function TickIndex(log: seq<Event>): Cf {
    if log == [] then map[]
    else if Last(log).TxEvent? then TickIndex(Init(log))[SlotKey(Last(log).tick, Position(log)) := Last(log).hash]
    else TickIndex(Init(log))
  }

  ghost predicate Tracks(s: State, log: seq<Event>) {
    && s.db.txByTick == TickIndex(log)
    && s.txCounter == RunLength(log) % 0x1_0000_0000
    && s.txLastTick == if RunLength(log) == 0 then 0 else Last(log).tick
  }

  lemma {:induction false} CounterStep(n: nat)
    ensures (n % 0x1_0000_0000 + 1) % 0x1_0000_0000 == (n + 1) % 0x1_0000_0000
  {
  }

  lemma {:induction false} PositionIsIndex(s: State, log: seq<Event>, e: Event)
    requires e.TxEvent? && Tracks(s, log)
    ensures TxIndex(s, e.tick) == Position(log + [e])
    ensures (TxIndex(s, e.tick) + 1) % 0x1_0000_0000 == RunLength(log + [e]) % 0x1_0000_0000
  {
    assert Init(log + [e]) == log && Last(log + [e]) == e;
    CounterStep(RunLength(log + [e]) - 1);
  }

  lemma {:induction false} TxStepTracks(s: State, log: seq<Event>, e: Event)
    requires e.TxEvent? && Tracks(s, log)
    ensures Tracks(Step(s, e), log + [e])
  {
    TxWrites(s, e);
    PositionIsIndex(s, log, e);
    assert Init(log + [e]) == log && Last(log + [e]) == e;
  }

  lemma {:induction false} RestartTracks(s: State, log: seq<Event>)
    requires Tracks(s, log)
    ensures Tracks(Step(s, RestartEvent), log + [RestartEvent])
  {
    assert Init(log + [RestartEvent]) == log && Last(log + [RestartEvent]) == RestartEvent;
  }

  lemma {:induction false} RunTracks(events: seq<Event>)
    ensures Tracks(Run(events), Log(events))
  {
    if events != [] {
      var init, e := Init(events), Last(events);
      RunTracks(init);
      if e.TxEvent? {
        TxStepTracks(Run(init), Log(init), e);
      } else if e.RestartEvent? {
        RestartTracks(Run(init), Log(init));
      } else {
        StepFrame(Run(init), e);
      }
    }
  }

  /** Slots `0..n` of tick `t`, as far as there are 32-bit slots, are taken and no others. */
  ghost predicate Filled(cf: Cf, t: u32, n: nat) {
    forall i: u32 :: SlotKey(t, i) in cf <==> i < n
  }

  lemma {:induction false} FilledPut(cf: Cf, t: u32, n: nat, r: nat, index: u32, value: Bytes)
    requires Filled(cf, t, n) && 1 <= r && r - 1 <= n && (r - 1 < 0x1_0000_0000 ==> index == r - 1)
    ensures Filled(cf[SlotKey(t, index) := value], t, Max(n, r))
  {
    forall i: u32 ensures SlotKey(t, i) in cf[SlotKey(t, index) := value] <==> i < Max(n, r) {
      SlotKeyOrder(t, i, t, index);
    }
  }

  lemma {:induction false} OtherTickPut(cf: Cf, t: u32, n: nat, u: u32, index: u32, value: Bytes)
    requires Filled(cf, t, n) && t != u
    ensures Filled(cf[SlotKey(u, index) := value], t, n)
  {
    forall i: u32 ensures SlotKey(t, i) in cf[SlotKey(u, index) := value] <==> i < n { SlotKeyOrder(t, i, u, index); }
  }

  lemma {:induction false} IndexIsFilled(log: seq<Event>, t: u32)
    ensures Filled(TickIndex(log), t, Longest(log, t))
    ensures KeysOfLength(TickIndex(log), 8)
  {
    if log != [] {
      var init, e := Init(log), Last(log);
      IndexIsFilled(init, t);
      if IsTxOf(e, t) {
        LongestStep(log, t);
        FilledPut(TickIndex(init), t, Longest(init, t), RunLength(log), Position(log), e.hash);
      } else if e.TxEvent? {
        OtherTickPut(TickIndex(init), t, Longest(init, t), e.tick, Position(log), e.hash);
      }
    }
  }

  /** A run only ever extends the filled part by its next slot. */
  lemma {:induction false} LongestStep(log: seq<Event>, t: u32)
    requires log != [] && IsTxOf(Last(log), t)
    ensures Longest(Init(log), t) >= RunLength(log) - 1
  {
  }

  lemma {:induction false} CountsAreBounded(log: seq<Event>, t: u32)
    ensures Longest(log, t) <= |Arrivals(log, t)|
    ensures log != [] && IsTxOf(Last(log), t) ==> RunLength(log) <= |Arrivals(log, t)|
  {
    if log != [] { CountsAreBounded(Init(log), t); }
  }

  lemma {:induction false} NoArrivals(log: seq<Event>, t: u32)
    ensures Arrivals(log, t) == [] <==> forall i :: 0 <= i < |log| ==> !IsTxOf(log[i], t)
  {
    if log != [] {
      NoArrivals(Init(log), t);
      assert forall i :: 0 <= i < |log| - 1 ==> Init(log)[i] == log[i];
    }
  }

  lemma {:induction false} InitContiguous(log: seq<Event>)
    requires log != [] && Contiguous(log)
    ensures Contiguous(Init(log))
  {
  }

  lemma {:induction false} RunCoversTick(log: seq<Event>)
    requires Contiguous(log) && log != [] && Last(log).TxEvent?
    ensures RunLength(log) == |Arrivals(log, Last(log).tick)|
  {
    var init, e := Init(log), Last(log);
    if init != [] && SameTick(Last(init), e) {
      InitContiguous(log);
      RunCoversTick(init);
    } else {
      forall i | 0 <= i < |init| ensures !IsTxOf(init[i], e.tick) {
        var x, y := log[i], log[|init| - 1];
        assert init[i] == x;
        assert i < |init| - 1 ==> (SameTick(x, e) ==> SameTick(x, y));
      }
      NoArrivals(init, e.tick);
    }
  }

  lemma {:induction false} ArrivalsGrow(log: seq<Event>, t: u32)
    requires log != []
    ensures |Arrivals(Init(log), t)| <= |Arrivals(log, t)|
  {
  }

  lemma {:induction false} NextPosition(log: seq<Event>)
    requires Contiguous(log) && log != [] && Last(log).TxEvent? && |Arrivals(log, Last(log).tick)| <= 0x1_0000_0000
    ensures Position(log) == |Arrivals(Init(log), Last(log).tick)|
  {
    RunCoversTick(log);
  }

  lemma {:induction false} ContiguousIsDense(log: seq<Event>, t: u32)
    requires Contiguous(log) && |Arrivals(log, t)| <= 0x1_0000_0000
    ensures Dense(TickIndex(log), t, Arrivals(log, t))
  {
    if log != [] {
      var init, e := Init(log), Last(log);
      InitContiguous(log);
      ArrivalsGrow(log, t);
      ContiguousIsDense(init, t);
      if e.TxEvent? {
        if e.tick == t { NextPosition(log); }
        DensePut(TickIndex(init), t, Arrivals(init, t), e.tick, Position(log), e.hash);
      }
    }
  }

  /** If no transaction of any tick was overwritten, the ticks came in contiguous runs. */
  lemma {:induction false} FullMeansContiguous(log: seq<Event>)
    requires forall t: u32 :: Longest(log, t) == |Arrivals(log, t)|
    ensures Contiguous(log)
  {
    if log != [] {
      var init, e := Init(log), Last(log);
      if e.TxEvent? {
        RunIsFull(log);
        FullMeansContiguous(init);
        RunIsWholeTick(log);
        ContiguousSnoc(log);
      } else {
        forall t: u32 ensures Longest(init, t) == |Arrivals(init, t)| { assert Longest(log, t) == |Arrivals(log, t)|; }
        FullMeansContiguous(init);
        ContiguousMark(log);
      }
    }
  }

  lemma {:induction false} RunIsFull(log: seq<Event>)
    requires log != [] && Last(log).TxEvent? && forall t: u32 :: Longest(log, t) == |Arrivals(log, t)|
    ensures RunLength(log) == |Arrivals(log, Last(log).tick)|
    ensures forall t: u32 :: Longest(Init(log), t) == |Arrivals(Init(log), t)|
  {
    var init, t0 := Init(log), Last(log).tick;
    CountsAreBounded(log, t0);
    CountsAreBounded(init, t0);
    assert Longest(log, t0) == |Arrivals(log, t0)|;
    LongestStep(log, t0);
    forall t: u32 ensures Longest(init, t) == |Arrivals(init, t)| {
      assert Longest(log, t) == |Arrivals(log, t)|;
    }
  }

  lemma {:induction false} ContiguousMark(log: seq<Event>)
    requires log != [] && !Last(log).TxEvent? && Contiguous(Init(log))
    ensures Contiguous(log)
  {
    var init := Init(log);
    forall i, j, k | 0 <= i < j < k < |log| && SameTick(log[i], log[k]) ensures SameTick(log[i], log[j]) {
      assert init[i] == log[i] && init[j] == log[j] && init[k] == log[k];
    }
  }

  lemma {:induction false} ContiguousSnoc(log: seq<Event>)
    requires log != [] && Last(log).TxEvent? && Contiguous(Init(log))
    requires forall i :: 0 <= i < |log| ==> (IsTxOf(log[i], Last(log).tick) <==> i >= |log| - RunLength(log))
    ensures Contiguous(log)
  {
    var init := Init(log);
    forall i, j, k | 0 <= i < j < k < |log| && SameTick(log[i], log[k]) ensures SameTick(log[i], log[j]) {
      assert init[i] == log[i] && init[j] == log[j];
      if k < |init| { assert init[k] == log[k]; }
    }
  }

  lemma {:induction false} RunIsWholeTick(log: seq<Event>)
    requires log != [] && Last(log).TxEvent?
    requires RunLength(log) == |Arrivals(log, Last(log).tick)|
    ensures forall i :: 0 <= i < |log| ==> (IsTxOf(log[i], Last(log).tick) <==> i >= |log| - RunLength(log))
  {
    var init, e := Init(log), Last(log);
    assert forall i :: 0 <= i < |init| ==> init[i] == log[i];
    if |log| > 1 && SameTick(Last(init), e) {
      RunIsWholeTick(init);
    } else {
      NoArrivals(init, e.tick);
    }
  }

  /** No tick has more transactions than there are 32-bit positions. */
  ghost predicate TicksFit(log: seq<Event>) {
    forall t: u32 :: |Arrivals(log, t)| <= 0x1_0000_0000
  }

  /**
   * Reading every tick gives back exactly its transactions in arrival order if and only
   * if each tick's transactions reached the indexer as one contiguous run, without a restart
   * in it, and there are no more of them than 2^32.
   */
  lemma {:induction false} TxPositions(events: seq<Event>)
    ensures (forall t: u32 :: ReadPrefix(Run(events).db.txByTick, TickKey(t)) == Arrivals(Log(events), t))
            <==> Contiguous(Log(events)) && TicksFit(Log(events))
  {
    var log := Log(events);
    var cf := TickIndex(log);
    RunTracks(events);
    if Contiguous(log) && TicksFit(log) {
      forall t: u32 ensures ReadPrefix(cf, TickKey(t)) == Arrivals(log, t) {
        assert |Arrivals(log, t)| <= 0x1_0000_0000;
        IndexIsFilled(log, t);
        ContiguousIsDense(log, t);
        DenseReads(cf, t, Arrivals(log, t));
      }
    }
    if forall t: u32 :: ReadPrefix(cf, TickKey(t)) == Arrivals(log, t) { ReadsMeanContiguous(log); }
  }

  lemma {:induction false} ReadsMeanContiguous(log: seq<Event>)
    requires forall t: u32 :: ReadPrefix(TickIndex(log), TickKey(t)) == Arrivals(log, t)
    ensures Contiguous(log) && TicksFit(log)
  {
    forall t: u32 ensures Longest(log, t) == |Arrivals(log, t)| <= 0x1_0000_0000 {
      assert ReadPrefix(TickIndex(log), TickKey(t)) == Arrivals(log, t);
      IndexIsFilled(log, t);
      CountsAreBounded(log, t);
      FilledLength(TickIndex(log), t, Longest(log, t));
    }
    FullMeansContiguous(log);
  }

  lemma {:induction false} FilledLength(cf: Cf, t: u32, n: nat)
    requires KeysOfLength(cf, 8) && Filled(cf, t, n)
    ensures |ReadPrefix(cf, TickKey(t))| == Min(n, 0x1_0000_0000)
  {
    var vals := seq(Min(n, 0x1_0000_0000), i requires 0 <= i < Min(n, 0x1_0000_0000) => assert SlotKey(t, i) in cf; cf[SlotKey(t, i)]);
    DenseReads(cf, t, vals);
  }

  /** Ticks 1, 2, 1: the second transaction of tick 1 takes the place of the first. */
  lemma {:induction false} InterleavedTicksLose(a: Event, b: Event, c: Event)
    requires IsTxOf(a, 1) && IsTxOf(b, 2) && IsTxOf(c, 1)
    ensures ReadPrefix(Run([a, b, c]).db.txByTick, TickKey(1)) == [c.hash]
    ensures Arrivals(Log([a, b, c]), 1) == [a.hash, c.hash]
  {
    LogOfThree(a, b, c);
    RunTracks([a, b, c]);
    LastTakesFirst(a, b, c);
  }

  /** The same with a restart inside the tick. */
  lemma {:induction false} RestartLoses(a: Event, c: Event)
    requires IsTxOf(a, 1) && IsTxOf(c, 1)
    ensures ReadPrefix(Run([a, RestartEvent, c]).db.txByTick, TickKey(1)) == [c.hash]
    ensures Arrivals(Log([a, RestartEvent, c]), 1) == [a.hash, c.hash]
  {
    LogOfThree(a, RestartEvent, c);
    RunTracks([a, RestartEvent, c]);
    LastTakesFirst(a, RestartEvent, c);
  }

  lemma {:induction false} LogOfThree(a: Event, b: Event, c: Event)
    requires IsMark(a) && IsMark(b) && IsMark(c)
    ensures Log([a, b, c]) == [a, b, c]
  {
    assert Init([a, b, c]) == [a, b] && Init([a, b]) == [a] && Init([a]) == [];
    assert Log([a]) == [a] && Log([a, b]) == [a, b];
  }

  lemma {:induction false} OneIsDense(a: Event)
    requires IsTxOf(a, 1)
    ensures Dense(TickIndex([a]), 1, [a.hash])
  {
    var none: Cf := map[];
    assert Init([a]) == [] && TickIndex([]) == none && Position([a]) == 0;
    DensePut(none, 1, [], 1, 0, a.hash);
    assert [] + [a.hash] == [a.hash];
  }

  lemma {:induction false} FirstIsDense(a: Event, b: Event)
    requires IsTxOf(a, 1) && IsMark(b) && !IsTxOf(b, 1)
    ensures Dense(TickIndex([a, b]), 1, [a.hash])
  {
    OneIsDense(a);
    assert Init([a, b]) == [a];
    if b.TxEvent? { DensePut(TickIndex([a]), 1, [a.hash], b.tick, Position([a, b]), b.hash); }
  }

  lemma {:induction false} SlotReplaced(cf: Cf, a: Bytes, c: Bytes)
    requires Dense(cf, 1, [a])
    ensures Dense(cf[SlotKey(1, 0) := c], 1, [c])
  {
    forall i: u32 ensures SlotKey(1, i) in cf[SlotKey(1, 0) := c] <==> i < 1 { SlotKeyOrder(1, i, 1, 0); }
  }

  lemma {:induction false} FirstAndLastArrive(a: Event, b: Event, c: Event)
    requires IsTxOf(a, 1) && IsTxOf(c, 1) && !IsTxOf(b, 1)
    ensures Arrivals([a, b, c], 1) == [a.hash, c.hash]
  {
    assert Init([a, b, c]) == [a, b] && Init([a, b]) == [a] && Init([a]) == [];
    assert Arrivals([a], 1) == [a.hash] && Arrivals([a, b], 1) == [a.hash];
  }

  lemma {:induction false} LastTakesFirst(a: Event, b: Event, c: Event)
    requires IsTxOf(a, 1) && IsTxOf(c, 1) && IsMark(b) && !IsTxOf(b, 1)
    ensures ReadPrefix(TickIndex([a, b, c]), TickKey(1)) == [c.hash]
    ensures Arrivals([a, b, c], 1) == [a.hash, c.hash]
  {
    FirstAndLastArrive(a, b, c);
    IndexIsFilled([a, b, c], 1);
    LastIsDense(a, b, c);
    DenseReads(TickIndex([a, b, c]), 1, [c.hash]);
  }

  lemma {:induction false} LastIsDense(a: Event, b: Event, c: Event)
    requires IsTxOf(a, 1) && IsTxOf(c, 1) && IsMark(b) && !IsTxOf(b, 1)
    ensures Dense(TickIndex([a, b, c]), 1, [c.hash])
  {
    assert Init([a, b, c]) == [a, b];
    assert RunLength([a, b, c]) == 1;
    FirstIsDense(a, b);
    SlotReplaced(TickIndex([a, b]), a.hash, c.hash);
  }

  // ---------------------------------------------------------------- custom messages

  function Messages(events: seq<Event>, t: u32): (m: seq<Bytes>)
    ensures |m| <= |events|
  {
    if events == [] then []
    else if Last(events).MessageEvent? && Last(events).tick == t then Messages(Init(events), t) + [Last(events).payload]
    else Messages(Init(events), t)
  }

  /** A message goes to the first free slot of its tick, because the count of a dense tick is that slot. */
  lemma {:induction false} MessageStepAppends(s: State, tick: u32, payload: Bytes, t: u32, vals: seq<Bytes>)
    requires KeysOfLength(s.db.customMessage, 8) && Dense(s.db.customMessage, t, vals)
    requires t == tick ==> |vals| < 0x1_0000_0000
    ensures Dense(StepMessage(s, tick, payload).db.customMessage, t, if tick == t then vals + [payload] else vals)
  {
    if t == tick { FirstFreeSlot(s, tick, payload, vals); }
    DensePut(s.db.customMessage, t, vals, tick, |PrefixKeys(s.db.customMessage, TickKey(tick))| % 0x1_0000_0000, payload);
  }

  lemma {:induction false} FirstFreeSlot(s: State, tick: u32, payload: Bytes, stored: seq<Bytes>)
    requires KeysOfLength(s.db.customMessage, 8) && |stored| < 0x1_0000_0000
    requires Dense(s.db.customMessage, tick, stored)
    ensures |PrefixKeys(s.db.customMessage, TickKey(tick))| == |stored|
  {
    DenseReads(s.db.customMessage, tick, stored);
    assert |Slots(tick, |stored|)| == |stored|;
  }

  lemma {:induction false} MessagesAreDense(events: seq<Event>, t: u32)
    requires |Messages(events, t)| <= 0x1_0000_0000
    ensures Dense(Run(events).db.customMessage, t, Messages(events, t))
    decreases |events|
  {
    if events != [] {
      var init, e := Init(events), Last(events);
      MessagesAreDense(init, t);
      if e.MessageEvent? {
        RunHasIntegrity(init);
        MessageStepAppends(Run(init), e.tick, e.payload, t, Messages(init, t));
      } else {
        StepFrame(Run(init), e);
      }
    }
  }

  /**
   * Messages are append-only: a read gives all messages of the tick in arrival order if and only
   * if there are no more of them than 32-bit slots; the slots are then `0..count`.
   */
  lemma {:induction false} MessagesReadBack(events: seq<Event>, t: u32)
    ensures ReadPrefix(Run(events).db.customMessage, TickKey(t)) == Messages(events, t) <==> |Messages(events, t)| <= 0x1_0000_0000
    ensures |Messages(events, t)| <= 0x1_0000_0000 ==>
              PrefixKeys(Run(events).db.customMessage, TickKey(t)) == Slots(t, |Messages(events, t)|)
  {
    RunHasIntegrity(events);
    if |Messages(events, t)| <= 0x1_0000_0000 {
      MessagesAreDense(events, t);
      DenseReads(Run(events).db.customMessage, t, Messages(events, t));
    } else {
      SlotsAreFew(Run(events).db.customMessage, t);
    }
  }

  lemma {:induction false} MessagesGrow(events: seq<Event>, n: nat, t: u32)
    requires n <= |events|
    ensures Messages(events[..n], t) <= Messages(events, t)
    decreases |events|
  {
    if n < |events| {
      MessagesGrow(Init(events), n, t);
      assert Init(events)[..n] == events[..n];
    } else {
      assert events[..n] == events;
    }
  }

  /** As long as they fit, no later event changes or removes a message once stored. */
  lemma {:induction false} MessagesNeverOverwritten(events: seq<Event>, n: nat, t: u32)
    requires n <= |events| && |Messages(events, t)| <= 0x1_0000_0000
    ensures ReadPrefix(Run(events[..n]).db.customMessage, TickKey(t)) <= ReadPrefix(Run(events).db.customMessage, TickKey(t))
  {
    MessagesGrow(events, n, t);
    MessagesReadBack(events, t);
    MessagesReadBack(events[..n], t);
  }
}
