/** Epoch statistics as a fold of the run, stated without reference to the stored rows. */
module EpochStatsLaws {
  import opened Bytes
  import opened WarmStorage
  import opened Indexer
  import opened IndexerLaws

  // ---------------------------------------------------------------- what the run did

  predicate Accepted(e: Event) {
    e.TickEvent? && e.epoch <= 1000
  }

  function AcceptedTicks(events: seq<Event>): nat {
    if events == [] then 0 else AcceptedTicks(Init(events)) + if Accepted(Last(events)) then 1 else 0
  }

  function AcceptedFor(events: seq<Event>, epoch: u16): nat {
    if events == [] then 0
    else AcceptedFor(Init(events), epoch) + if Accepted(Last(events)) && Last(events).epoch == epoch then 1 else 0
  }

  /** The epoch in force after the run: that of the last tick accepted since the start of the process, 0 before any. */
  function EpochInForce(events: seq<Event>): u16 {
    if events == [] || Last(events).RestartEvent? then 0
    else if Accepted(Last(events)) then Last(events).epoch
    else EpochInForce(Init(events))
  }

  /** The last tick accepted since the start of the process, 0 before any. */
  function TickInForce(events: seq<Event>): u32 {
    if events == [] || Last(events).RestartEvent? then 0
    else if Accepted(Last(events)) then Last(events).tick
    else TickInForce(Init(events))
  }

  /** The transactions of the run. */
  function TxCount(events: seq<Event>): nat {
    if events == [] then 0 else TxCount(Init(events)) + if Last(events).TxEvent? then 1 else 0
  }

  /** What happened since the process last started. */
  function SinceRestart(events: seq<Event>): seq<Event> {
    if events == [] || Last(events).RestartEvent? then [] else SinceRestart(Init(events)) + [Last(events)]
  }

  /** Transactions that arrived while no epoch was in force. */
  function Unattributed(events: seq<Event>): nat {
    if events == [] then 0
    else Unattributed(Init(events)) + if Last(events).TxEvent? && EpochInForce(Init(events)) == 0 then 1 else 0
  }

  /** Transactions that arrived while `epoch` was in force; epoch 0 counts as none. */
  function TxsDuring(events: seq<Event>, epoch: u16): nat {
    if events == [] then 0
    else TxsDuring(Init(events), epoch) + if Last(events).TxEvent? && epoch > 0 && EpochInForce(Init(events)) == epoch then 1 else 0
  }

  ghost predicate LeastTick(events: seq<Event>, epoch: u16, t: u32) {
    && (exists i :: 0 <= i < |events| && Accepted(events[i]) && events[i].epoch == epoch && events[i].tick == t)
    && (forall i :: 0 <= i < |events| && Accepted(events[i]) && events[i].epoch == epoch ==> t <= events[i].tick)
  }

  ghost predicate GreatestTick(events: seq<Event>, epoch: u16, t: u32) {
    && (exists i :: 0 <= i < |events| && Accepted(events[i]) && events[i].epoch == epoch && events[i].tick == t)
    && (forall i :: 0 <= i < |events| && Accepted(events[i]) && events[i].epoch == epoch ==> events[i].tick <= t)
  }

  // ---------------------------------------------------------------- sums over the rows

  function SumTicks(db: Db, n: nat): nat
    requires n <= 0x1_0000
  {
    if n == 0 then 0 else SumTicks(db, n - 1) + StatsOf(db, n - 1).tickCount
  }

  function SumTxs(db: Db, n: nat): nat
    requires n <= 0x1_0000
  {
    if n == 0 then 0 else SumTxs(db, n - 1) + StatsOf(db, n - 1).txCount
  }

  lemma {:induction false} SumsChange(a: Db, b: Db, epoch: u16, n: nat)
    requires n <= 0x1_0000
    requires forall e: u16 :: e != epoch ==> StatsOf(a, e) == StatsOf(b, e)
    ensures SumTicks(b, n) == SumTicks(a, n) + if epoch < n then StatsOf(b, epoch).tickCount - StatsOf(a, epoch).tickCount else 0
    ensures SumTxs(b, n) == SumTxs(a, n) + if epoch < n then StatsOf(b, epoch).txCount - StatsOf(a, epoch).txCount else 0
  {
    if n > 0 { SumsChange(a, b, epoch, n - 1); }
  }

  lemma {:induction false} SumsAgree(a: Db, b: Db, n: nat)
    requires n <= 0x1_0000 && a.epochStats == b.epochStats
    ensures SumTicks(a, n) == SumTicks(b, n) && SumTxs(a, n) == SumTxs(b, n)
  {
    if n > 0 { SumsAgree(a, b, n - 1); }
  }

  // ---------------------------------------------------------------- one step

  lemma {:induction false} StepStats(s: State, e: Event)
    ensures Step(s, e).db.epochStats ==
            if Accepted(e) then s.db.epochStats[e.epoch := CountTick(StatsOf(s.db, e.epoch), e.tick)]
            else if e.TxEvent? && s.pipeline.indexedEpoch > 0 then
              s.db.epochStats[s.pipeline.indexedEpoch := CountTx(StatsOf(s.db, s.pipeline.indexedEpoch))]
            else s.db.epochStats
  {
    match e
    case TickEvent(tick, epoch, payload) =>
      BatchPutTickEffect(s.db, tick, epoch, payload);
    case TxEvent(tick, hash, source, destination, payload) =>
      BatchPutTxEffect(s.db, hash, payload, tick, TxIndex(s, tick), source, destination);
    case MessageEvent(tick, payload) =>
    case VoteEvent(tick, computor, payload) =>
    case RestartEvent =>
  }

  const EPOCHS := MAX_EPOCH + 1

  /** The pipeline's epoch is the one in force, and its counters count from the start of the process. */
  lemma {:induction false} PipelineCounts(events: seq<Event>)
    ensures var p := Run(events).pipeline;
            && p.indexedEpoch == EpochInForce(events) <= 1000
            && p.indexedTick == TickInForce(events)
            && p.ticksIndexed == AcceptedTicks(SinceRestart(events))
            && p.txsIndexed == TxCount(SinceRestart(events))
  {
    if events != [] {
      PipelineCounts(Init(events));
      if !Last(events).RestartEvent? { assert Init(SinceRestart(events)) == SinceRestart(Init(events)); }
    }
  }

  /** Adding up all rows gives the accepted ticks, and the transactions less those that came while no epoch was in force. */
  lemma {:induction false} StatsAddUp(events: seq<Event>)
    ensures SumTicks(Run(events).db, EPOCHS) == AcceptedTicks(events)
    ensures SumTxs(Run(events).db, EPOCHS) + Unattributed(events) == TxCount(events)
  {
    if events == [] {
      SumsOfEmpty(EPOCHS);
    } else {
      var init, e := Init(events), Last(events);
      var s, s' := Run(init), Run(events);
      StatsAddUp(init);
      PipelineCounts(init);
      StepStats(s, e);
      if Accepted(e) {
        SumsChange(s.db, s'.db, e.epoch, EPOCHS);
      } else if e.TxEvent? && s.pipeline.indexedEpoch > 0 {
        SumsChange(s.db, s'.db, s.pipeline.indexedEpoch, EPOCHS);
      } else {
        SumsAgree(s.db, s'.db, EPOCHS);
      }
    }
  }

  lemma {:induction false} SumsOfEmpty(n: nat)
    requires n <= 0x1_0000
    ensures SumTicks(EMPTY, n) == 0 && SumTxs(EMPTY, n) == 0
  {
    if n > 0 { SumsOfEmpty(n - 1); }
  }

  ghost predicate RowIsFold(stats: EpochStats, events: seq<Event>, epoch: u16) {
    && stats.epoch == epoch
    && stats.tickCount == AcceptedFor(events, epoch)
    && stats.txCount == TxsDuring(events, epoch)
    && (if stats.tickCount == 0 then stats.firstTick == None && stats.lastTick == None
        else && stats.firstTick.Some? && LeastTick(events, epoch, stats.firstTick.value)
             && stats.lastTick.Some? && GreatestTick(events, epoch, stats.lastTick.value))
  }

  /** Each row counts the ticks accepted for its epoch and the transactions that came while it was in force, and holds the least and the greatest tick. */
  lemma {:induction false} RowsAreFolds(events: seq<Event>, epoch: u16)
    ensures RowIsFold(StatsOf(Run(events).db, epoch), events, epoch)
  {
    if events != [] {
      var init, e := Init(events), Last(events);
      RowsAreFolds(init, epoch);
      StepStats(Run(init), e);
      TxCountIsFold(events, epoch);
      assert events == init + [e];
      if Accepted(e) && e.epoch == epoch {
        CountTickFolds(StatsOf(Run(init).db, epoch), init, e);
      } else {
        FoldKept(StatsOf(Run(init).db, epoch), StatsOf(Run(events).db, epoch), init, e, epoch);
      }
    }
  }

  lemma {:induction false} TxCountIsFold(events: seq<Event>, epoch: u16)
    ensures StatsOf(Run(events).db, epoch).txCount == TxsDuring(events, epoch)
  {
    if events != [] {
      TxCountIsFold(Init(events), epoch);
      StepStats(Run(Init(events)), Last(events));
      PipelineCounts(Init(events));
    }
  }

  lemma {:induction false} NoneAccepted(events: seq<Event>, epoch: u16)
    ensures AcceptedFor(events, epoch) == 0 <==> forall i :: 0 <= i < |events| && Accepted(events[i]) ==> events[i].epoch != epoch
  {
    if events != [] {
      NoneAccepted(Init(events), epoch);
      assert forall i :: 0 <= i < |events| - 1 ==> Init(events)[i] == events[i];
    }
  }

  lemma {:induction false} FoldKept(a: EpochStats, b: EpochStats, init: seq<Event>, e: Event, epoch: u16)
    requires RowIsFold(a, init, epoch)
    requires !(Accepted(e) && e.epoch == epoch)
    requires b.txCount == TxsDuring(init + [e], epoch)
    requires b.epoch == a.epoch && b.tickCount == a.tickCount && b.firstTick == a.firstTick && b.lastTick == a.lastTick
    ensures RowIsFold(b, init + [e], epoch)
  {
    var events := init + [e];
    assert Init(events) == init && Last(events) == e;
    if a.tickCount > 0 {
      var i :| 0 <= i < |init| && Accepted(init[i]) && init[i].epoch == epoch && init[i].tick == a.firstTick.value;
      var j :| 0 <= j < |init| && Accepted(init[j]) && init[j].epoch == epoch && init[j].tick == a.lastTick.value;
      assert events[i] == init[i] && events[j] == init[j];
    }
  }

  lemma {:induction false} CountTickFolds(a: EpochStats, init: seq<Event>, e: Event)
    requires Accepted(e) && RowIsFold(a, init, e.epoch)
    ensures RowIsFold(CountTick(a, e.tick), init + [e], e.epoch)
  {
    var events, b := init + [e], CountTick(a, e.tick);
    assert Init(events) == init && Last(events) == e && events[|init|] == e;
    NoneAccepted(init, e.epoch);
    if a.tickCount > 0 {
      var i :| 0 <= i < |init| && Accepted(init[i]) && init[i].epoch == e.epoch && init[i].tick == a.firstTick.value;
      var j :| 0 <= j < |init| && Accepted(init[j]) && init[j].epoch == e.epoch && init[j].tick == a.lastTick.value;
      assert events[i] == init[i] && events[j] == init[j];
    }
    assert forall i :: 0 <= i < |init| ==> events[i] == init[i];
  }
}
