/** What the entity index holds after every run: exactly the transactions an entity took part in. */
module EntityLaws {
  import opened Bytes
  import opened OrderedKeys
  import opened WarmStorage
  import opened StorageLaws
  import opened EpochIntervals
  import opened Indexer
  import opened IndexerLaws

  predicate Involves(e: Event, entity: Bytes) {
    e.TxEvent? && ((e.source.Some? && e.source.value == entity) || (e.destination.Some? && e.destination.value == entity))
  }

  /** The transactions of a tick in arrival order. */
  function Sent(log: seq<Event>, t: u32): (sent: seq<Event>)
    ensures forall i :: 0 <= i < |sent| ==> IsTxOf(sent[i], t)
  {
    if log == [] then []
    else if IsTxOf(Last(log), t) then Sent(Init(log), t) + [Last(log)]
    else Sent(Init(log), t)
  }

  lemma {:induction false} SentIsArrivals(log: seq<Event>, t: u32)
    ensures |Sent(log, t)| == |Arrivals(log, t)|
  {
    if log != [] { SentIsArrivals(Init(log), t); }
  }

  /** The entity's entries of tick `t` are those of the transactions it took part in, at their positions. */
  ghost predicate Exact(cf: Cf, entity: Bytes, t: u32, sent: seq<Event>) {
    && (forall i: u32 :: EntityKey(entity, t, i) in cf <==> i < |sent| && Involves(sent[i], entity))
    && (forall i: u32 :: i < |sent| && Involves(sent[i], entity) ==> cf[EntityKey(entity, t, i)] == sent[i].hash)
  }

  lemma {:induction false} EntityKeyParts(entity: Bytes, t: u32, i: u32)
    requires |entity| == 32
    ensures EntityKey(entity, t, i)[..32] == entity && EntityKey(entity, t, i)[32..] == SlotKey(t, i)
    ensures entity <= EntityKey(entity, t, i) && |EntityKey(entity, t, i)| == 40
  {
  }

  lemma {:induction false} EntityKeyInjective(a: Bytes, t: u32, i: u32, b: Bytes, u: u32, j: u32)
    requires |a| == 32 && |b| == 32 && EntityKey(a, t, i) == EntityKey(b, u, j)
    ensures a == b && t == u && i == j
  {
    EntityKeyParts(a, t, i);
    EntityKeyParts(b, u, j);
    SlotKeyOrder(t, i, u, j);
  }

  /** The entries after a transaction's batch. */
  function EntityPuts(cf: Cf, e: Event, index: u32): Cf
    requires e.TxEvent?
  {
    EntityPut(EntityPut(cf, e.source, e.tick, index, e.hash), e.destination, e.tick, index, e.hash)
  }

  lemma {:induction false} PutsTouch(cf: Cf, e: Event, index: u32, entity: Bytes, t: u32, i: u32)
    requires e.TxEvent? && |entity| == 32
    ensures var k, hit := EntityKey(entity, t, i), Involves(e, entity) && t == e.tick && i == index;
            && (k in EntityPuts(cf, e, index) <==> k in cf || hit)
            && (hit ==> EntityPuts(cf, e, index)[k] == e.hash)
            && (!hit && k in cf ==> EntityPuts(cf, e, index)[k] == cf[k])
  {
    var k := EntityKey(entity, t, i);
    if e.source.Some? && EntityKey(e.source.value, e.tick, index) == k {
      EntityKeyInjective(e.source.value, e.tick, index, entity, t, i);
    }
    if e.destination.Some? && EntityKey(e.destination.value, e.tick, index) == k {
      EntityKeyInjective(e.destination.value, e.tick, index, entity, t, i);
    }
  }

  lemma {:induction false} ExactPut(cf: Cf, entity: Bytes, t: u32, sent: seq<Event>, e: Event, index: u32)
    requires e.TxEvent? && |entity| == 32 && Exact(cf, entity, t, sent)
    requires e.tick == t ==> index == |sent|
    ensures Exact(EntityPuts(cf, e, index), entity, t, if e.tick == t then sent + [e] else sent)
  {
    var cf', sent' := EntityPuts(cf, e, index), if e.tick == t then sent + [e] else sent;
    forall i: u32 ensures EntityKey(entity, t, i) in cf' <==> i < |sent'| && Involves(sent'[i], entity) {
      PutsTouch(cf, e, index, entity, t, i);
    }
    forall i: u32 | i < |sent'| && Involves(sent'[i], entity) ensures cf'[EntityKey(entity, t, i)] == sent'[i].hash {
      PutsTouch(cf, e, index, entity, t, i);
    }
  }

  /** The position a transaction is given is its place in the current run of its tick, in 32 bits. */
  lemma {:induction false} PositionInRun(events: seq<Event>)
    requires events != [] && Last(events).TxEvent?
    ensures TxIndex(Run(Init(events)), Last(events).tick) == Position(Log(events))
  {
    RunTracks(Init(events));
    PositionIsIndex(Run(Init(events)), Log(Init(events)), Last(events));
  }

  lemma {:induction false} PositionIfContiguous(events: seq<Event>)
    requires events != [] && Last(events).TxEvent? && Contiguous(Log(events))
    requires |Sent(Log(events), Last(events).tick)| <= 0x1_0000_0000
    ensures TxIndex(Run(Init(events)), Last(events).tick) == |Sent(Log(Init(events)), Last(events).tick)|
  {
    var log, t := Log(events), Last(events).tick;
    PositionInRun(events);
    RunCoversTick(log);
    SentIsArrivals(log, t);
    assert Init(log) == Log(Init(events)) && Last(log) == Last(events);
  }

  lemma {:induction false} InitStaysContiguous(events: seq<Event>)
    requires events != [] && Contiguous(Log(events))
    ensures Contiguous(Log(Init(events)))
  {
    if IsMark(Last(events)) {
      assert Log(Init(events)) == Init(Log(events));
      InitContiguous(Log(events));
    }
  }

  lemma {:induction false} SentSnoc(events: seq<Event>, t: u32)
    requires events != []
    ensures Sent(Log(events), t) == Sent(Log(Init(events)), t) + if IsTxOf(Last(events), t) then [Last(events)] else []
  {
    if IsMark(Last(events)) { assert Init(Log(events)) == Log(Init(events)) && Last(Log(events)) == Last(events); }
  }

  /**
   * If each tick's transactions arrive as one run, an entity's index entries of a tick are exactly
   * the transactions it sent or received, each at its arrival position and with its hash.
   */
  lemma {:induction false} EntityIndexIsExact(events: seq<Event>, entity: Bytes, t: u32)
    requires |entity| == 32 && Contiguous(Log(events)) && |Sent(Log(events), t)| <= 0x1_0000_0000
    ensures Exact(Run(events).db.txByEntity, entity, t, Sent(Log(events), t))
  {
    if events != [] {
      var init, e := Init(events), Last(events);
      InitStaysContiguous(events);
      SentSnoc(events, t);
      EntityIndexIsExact(init, entity, t);
      if e.TxEvent? {
        var index := TxIndex(Run(init), e.tick);
        TxWrites(Run(init), e);
        if e.tick == t { PositionIfContiguous(events); }
        ExactPut(Run(init).db.txByEntity, entity, t, Sent(Log(init), t), e, index);
      } else {
        StepFrame(Run(init), e);
      }
    }
  }

  // ---------------------------------------------------------------- counting

  /** How many transactions of a run an entity took part in. */
  function Participations(events: seq<Event>, entity: Bytes): nat {
    if events == [] then 0
    else Participations(Init(events), entity) + if Involves(Last(events), entity) then 1 else 0
  }

  function Under(cf: Cf, entity: Bytes): set<Bytes> {
    set k | k in cf && entity <= k
  }

  lemma {:induction false} CountIsUnder(cf: Cf, entity: Bytes)
    ensures |PrefixKeys(cf, entity)| == |Under(cf, entity)|
  {
    var keys := PrefixKeys(cf, entity);
    PrefixKeysSpec(cf, entity);
    SortedSize(keys);
    assert (set k | k in keys) == Under(cf, entity);
  }

  lemma {:induction false} PutUnder(cf: Cf, owner: Option<Key32>, tick: u32, index: u32, hash: Key32, entity: Bytes)
    requires |entity| == 32
    ensures Under(EntityPut(cf, owner, tick, index, hash), entity) ==
            Under(cf, entity) + if owner.Some? && owner.value == entity then {EntityKey(entity, tick, index)} else {}
  {
    if owner.Some? {
      EntityKeyParts(owner.value, tick, index);
      assert entity <= EntityKey(owner.value, tick, index) ==> EntityKey(owner.value, tick, index)[..32] == entity;
    }
  }

  lemma {:induction false} PutsUnder(cf: Cf, e: Event, index: u32, entity: Bytes)
    requires e.TxEvent? && |entity| == 32
    ensures Under(EntityPuts(cf, e, index), entity) ==
            Under(cf, entity) + if Involves(e, entity) then {EntityKey(entity, e.tick, index)} else {}
  {
    PutUnder(cf, e.source, e.tick, index, e.hash, entity);
    PutUnder(EntityPut(cf, e.source, e.tick, index, e.hash), e.destination, e.tick, index, e.hash, entity);
  }

  /** The position the event gets if it is a transaction: its place in the current run of its tick, in 32 bits. */
  function Place(events: seq<Event>, i: nat): u32
    requires i < |events|
  {
    Position(Log(events[..i + 1]))
  }

  /** Some transaction of the entity was given position `x` of tick `t`. */
  ghost predicate Placed(events: seq<Event>, entity: Bytes, t: u32, x: u32) {
    exists i :: 0 <= i < |events| && Involves(events[i], entity) && events[i].tick == t && Place(events, i) == x
  }

  lemma {:induction false} PlaceInit(events: seq<Event>, i: nat)
    requires i < |events| - 1
    ensures Place(Init(events), i) == Place(events, i)
  {
    assert Init(events)[..i + 1] == events[..i + 1];
  }

  lemma {:induction false} PlacedInit(events: seq<Event>, entity: Bytes, t: u32, x: u32)
    requires events != [] && Placed(Init(events), entity, t, x)
    ensures Placed(events, entity, t, x)
  {
    var i :| 0 <= i < |Init(events)| && Involves(Init(events)[i], entity) && Init(events)[i].tick == t && Place(Init(events), i) == x;
    PlaceInit(events, i);
    assert events[i] == Init(events)[i];
  }

  lemma {:induction false} LastPlace(events: seq<Event>)
    requires events != [] && Last(events).TxEvent?
    ensures Place(events, |events| - 1) == TxIndex(Run(Init(events)), Last(events).tick)
  {
    assert events[..|events| - 1 + 1] == events;
    PositionInRun(events);
  }

  lemma {:induction false} PlacedSnoc(events: seq<Event>, entity: Bytes, t: u32, x: u32, last: u32)
    requires events != [] && (Last(events).TxEvent? ==> Place(events, |events| - 1) == last)
    ensures Placed(events, entity, t, x) <==>
            Placed(Init(events), entity, t, x) || (Involves(Last(events), entity) && Last(events).tick == t && last == x)
  {
    var n := |events| - 1;
    if Placed(Init(events), entity, t, x) { PlacedInit(events, entity, t, x); }
    if Placed(events, entity, t, x) {
      var i :| 0 <= i < |events| && Involves(events[i], entity) && events[i].tick == t && Place(events, i) == x;
      if i < n {
        PlaceInit(events, i);
        assert Init(events)[i] == events[i];
      }
    }
    if Involves(Last(events), entity) && Last(events).tick == t && last == x {
      assert events[n] == Last(events) && Place(events, n) == x;
    }
  }

  /** After every run the entity has an entry exactly at the positions its transactions were given. */
  lemma {:induction false} EntriesArePlaced(events: seq<Event>, entity: Bytes, t: u32, x: u32)
    requires |entity| == 32
    ensures EntityKey(entity, t, x) in Run(events).db.txByEntity <==> Placed(events, entity, t, x)
  {
    if events != [] {
      var init, e := Init(events), Last(events);
      EntriesArePlaced(init, entity, t, x);
      if e.TxEvent? { LastPlace(events); }
      PlacedSnoc(events, entity, t, x, if e.TxEvent? then TxIndex(Run(init), e.tick) else 0);
      if e.TxEvent? {
        var index := TxIndex(Run(init), e.tick);
        TxWrites(Run(init), e);
        PutsTouch(Run(init).db.txByEntity, e, index, entity, t, x);
      } else {
        StepFrame(Run(init), e);
      }
    }
  }

  /** No two of the entity's transactions have the same tick and the same place in their run. */
  ghost predicate NoClash(events: seq<Event>, entity: Bytes) {
    forall i, j :: 0 <= i < j < |events| && Involves(events[i], entity) && Involves(events[j], entity) && events[i].tick == events[j].tick
                   ==> Place(events, i) != Place(events, j)
  }

  lemma {:induction false} TakenClashes(events: seq<Event>, entity: Bytes, last: u32)
    requires events != [] && Involves(Last(events), entity) && Place(events, |events| - 1) == last
    requires Placed(Init(events), entity, Last(events).tick, last)
    ensures !NoClash(events, entity)
  {
    var init, e, n := Init(events), Last(events), |events| - 1;
    var i :| 0 <= i < n && Involves(init[i], entity) && init[i].tick == e.tick && Place(init, i) == last;
    PlaceInit(events, i);
    assert Involves(events[i], entity) && Involves(events[n], entity) && Place(events, i) == Place(events, n);
  }

  lemma {:induction false} InitHasNoClash(events: seq<Event>, entity: Bytes)
    requires events != [] && NoClash(events, entity)
    ensures NoClash(Init(events), entity)
  {
    var init := Init(events);
    forall i, j | 0 <= i < j < |init| && Involves(init[i], entity) && Involves(init[j], entity) && init[i].tick == init[j].tick
      ensures Place(init, i) != Place(init, j)
    {
      PlaceInit(events, i);
      PlaceInit(events, j);
      assert events[i] == init[i] && events[j] == init[j];
    }
  }

  lemma {:induction false} FreeHasNoClash(events: seq<Event>, entity: Bytes, last: u32)
    requires events != [] && NoClash(Init(events), entity)
    requires Involves(Last(events), entity) ==>
               Place(events, |events| - 1) == last && !Placed(Init(events), entity, Last(events).tick, last)
    ensures NoClash(events, entity)
  {
    var init, n := Init(events), |events| - 1;
    forall i, j | 0 <= i < j < |events| && Involves(events[i], entity) && Involves(events[j], entity) && events[i].tick == events[j].tick
      ensures Place(events, i) != Place(events, j)
    {
      PlaceInit(events, i);
      assert events[i] == init[i];
      if j < n {
        PlaceInit(events, j);
        assert events[j] == init[j];
      }
    }
  }

  lemma {:induction false} NoClashSnoc(events: seq<Event>, entity: Bytes, last: u32)
    requires events != [] && (Last(events).TxEvent? ==> Place(events, |events| - 1) == last)
    ensures NoClash(events, entity) <==>
            NoClash(Init(events), entity) && (Involves(Last(events), entity) ==> !Placed(Init(events), entity, Last(events).tick, last))
  {
    if NoClash(events, entity) {
      InitHasNoClash(events, entity);
      if Involves(Last(events), entity) && Placed(Init(events), entity, Last(events).tick, last) { TakenClashes(events, entity, last); }
    } else if NoClash(Init(events), entity) && (Involves(Last(events), entity) ==> !Placed(Init(events), entity, Last(events).tick, last)) {
      FreeHasNoClash(events, entity, last);
    }
  }

  /** One transaction adds one entry, or none if its position was taken. */
  lemma {:induction false} CountStep(events: seq<Event>, entity: Bytes)
    requires 0 < |events| && |entity| == 32
    ensures var old', new', e := Under(Run(Init(events)).db.txByEntity, entity), Under(Run(events).db.txByEntity, entity), Last(events);
            var fresh' := Involves(e, entity) && EntityKey(entity, e.tick, TxIndex(Run(Init(events)), e.tick)) !in old';
            |new'| == |old'| + if fresh' then 1 else 0
  {
    var init, e := Init(events), Last(events);
    if e.TxEvent? {
      var index := TxIndex(Run(init), e.tick);
      TxWrites(Run(init), e);
      PutsUnder(Run(init).db.txByEntity, e, index, entity);
      AddOne(Under(Run(init).db.txByEntity, entity), EntityKey(entity, e.tick, index));
    } else {
      StepFrame(Run(init), e);
    }
  }

  lemma {:induction false} AddOne(s: set<Bytes>, k: Bytes)
    ensures |s + {k}| == |s| + if k in s then 0 else 1
  {
    if k in s { assert s + {k} == s; }
  }

  lemma {:induction false} UnderCount(events: seq<Event>, entity: Bytes)
    requires |entity| == 32
    ensures |Under(Run(events).db.txByEntity, entity)| <= Participations(events, entity)
    ensures |Under(Run(events).db.txByEntity, entity)| == Participations(events, entity) <==> NoClash(events, entity)
  {
    if events != [] {
      var init, e := Init(events), Last(events);
      UnderCount(init, entity);
      CountStep(events, entity);
      if e.TxEvent? { LastPlace(events); }
      NoClashSnoc(events, entity, if e.TxEvent? then TxIndex(Run(init), e.tick) else 0);
      if e.TxEvent? {
        var index := TxIndex(Run(init), e.tick);
        EntriesArePlaced(init, entity, e.tick, index);
        EntityKeyParts(entity, e.tick, index);
      }
    }
  }

  /**
   * `count_entity_transactions` never exceeds the number of transactions the entity took part in,
   * and equals it if and only if no two of them share a tick and a place in a run of that tick.
   */
  lemma {:induction false} TransactionsAreCounted(events: seq<Event>, entity: Bytes)
    requires |entity| == 32
    ensures |PrefixKeys(Run(events).db.txByEntity, entity)| <= Participations(events, entity)
    ensures |PrefixKeys(Run(events).db.txByEntity, entity)| == Participations(events, entity) <==> NoClash(events, entity)
  {
    CountIsUnder(Run(events).db.txByEntity, entity);
    UnderCount(events, entity);
  }

  // ---------------------------------------------------------------- contiguous ticks never clash

  lemma {:induction false} InitFits(events: seq<Event>)
    requires events != [] && TicksFit(Log(events))
    ensures TicksFit(Log(Init(events)))
  {
    forall t: u32 ensures |Arrivals(Log(Init(events)), t)| <= 0x1_0000_0000 {
      SentIsArrivals(Log(events), t);
      SentIsArrivals(Log(Init(events)), t);
      SentSnoc(events, t);
      assert |Arrivals(Log(events), t)| <= 0x1_0000_0000;
    }
  }

  /** When each tick's transactions arrive as one run and fit, every transaction of the entity is counted. */
  lemma {:induction false} ContiguousCounts(events: seq<Event>, entity: Bytes)
    requires |entity| == 32 && Contiguous(Log(events)) && TicksFit(Log(events))
    ensures |PrefixKeys(Run(events).db.txByEntity, entity)| == Participations(events, entity)
  {
    CountIsUnder(Run(events).db.txByEntity, entity);
    if events != [] {
      var init, e := Init(events), Last(events);
      InitStaysContiguous(events);
      InitFits(events);
      ContiguousCounts(init, entity);
      CountIsUnder(Run(init).db.txByEntity, entity);
      CountStep(events, entity);
      if e.TxEvent? { NewPositionIsFree(events, entity); }
    }
  }

  lemma {:induction false} NewPositionIsFree(events: seq<Event>, entity: Bytes)
    requires events != [] && Last(events).TxEvent? && |entity| == 32
    requires Contiguous(Log(events)) && TicksFit(Log(events))
    ensures var s, e := Run(Init(events)), Last(events);
            EntityKey(entity, e.tick, TxIndex(s, e.tick)) !in s.db.txByEntity
  {
    var t := Last(events).tick;
    SentIsArrivals(Log(events), t);
    assert |Arrivals(Log(events), t)| <= 0x1_0000_0000;
    SentSnoc(events, t);
    InitStaysContiguous(events);
    EntityIndexIsExact(Init(events), entity, t);
    PositionIfContiguous(events);
  }

  /** Ticks 1, 2, 1: of an entity's two transactions in tick 1 one entry is left. */
  lemma {:induction false} InterleavedTicksUncount(a: Event, b: Event, c: Event, entity: Bytes)
    requires |entity| == 32 && IsTxOf(a, 1) && IsTxOf(b, 2) && IsTxOf(c, 1)
    requires Involves(a, entity) && !Involves(b, entity) && Involves(c, entity)
    ensures Participations([a, b, c], entity) == 2
    ensures |PrefixKeys(Run([a, b, c]).db.txByEntity, entity)| < 2
  {
    var events := [a, b, c];
    assert Init(events) == [a, b] && Init([a, b]) == [a] && Init([a]) == [];
    assert Participations([a], entity) == 1 && Participations([a, b], entity) == 1;
    assert events[..1] == [a] && events[..3] == events;
    LogOfThree(a, b, c);
    assert Log([a]) == [a];
    assert RunLength([a]) == 1 && RunLength(events) == 1;
    assert Place(events, 0) == Place(events, 2);
    assert !NoClash(events, entity);
    TransactionsAreCounted(events, entity);
  }

  // ---------------------------------------------------------------- the history of a run

  /** The payload that came last with a hash. */
  function LatestPayload(events: seq<Event>, hash: Bytes): Option<Bytes> {
    if events == [] then None
    else if Last(events).TxEvent? && Last(events).hash == hash then Some(Last(events).payload)
    else LatestPayload(Init(events), hash)
  }

  /** The stored transactions are those that arrived, each with the payload that came last with its hash. */
  lemma {:induction false} TxsAreStored(events: seq<Event>, hash: Bytes)
    ensures var tx := Run(events).db.tx;
            match LatestPayload(events, hash)
            case None => hash !in tx
            case Some(payload) => hash in tx && tx[hash] == payload
  {
    if events != [] {
      TxsAreStored(Init(events), hash);
      StepFrame(Run(Init(events)), Last(events));
      if Last(events).TxEvent? { TxWrites(Run(Init(events)), Last(events)); }
    }
  }

  /** A row of the history: the tick and the payload of the transaction at a position. */
  ghost predicate ShowsTx(events: seq<Event>, at: (u32, u32), row: (u32, Bytes)) {
    var sent := Sent(Log(events), at.0);
    at.1 < |sent| && row.0 == at.0 && LatestPayload(events, sent[at.1].hash) == Some(row.1)
  }

  /**
   * When each tick's transactions arrive as one run, an unfiltered page lists, by tick and arrival,
   * the tick and payload of exactly the transactions the entity sent or received.
   */
  lemma {:induction false} RunHistory(events: seq<Event>, table: seq<EpochRange>, entity: Bytes, offset: nat, limit: nat)
    returns (pos: seq<(u32, u32)>)
    requires |entity| == 32 && Contiguous(Log(events)) && TicksFit(Log(events))
    ensures forall i, j :: 0 <= i < j < |pos| ==> PositionLess(pos[i], pos[j])
    ensures forall t: u32, x: u32 :: (t, x) in pos <==> x < |Sent(Log(events), t)| && Involves(Sent(Log(events), t)[x], entity)
    ensures |pos| == Participations(events, entity)
    ensures var page := HistoryPage(Run(events).db, table, entity, None, offset, limit);
            && |page| == Min(limit, Max(|pos| - offset, 0))
            && forall i :: 0 <= i < |page| ==> ShowsTx(events, pos[offset + i], page[i])
  {
    var db := Run(events).db;
    RunHasIntegrity(events);
    pos := UnfilteredPage(db, table, entity, offset, limit);
    ContiguousCounts(events, entity);
    forall t: u32, x: u32 ensures (t, x) in pos <==> x < |Sent(Log(events), t)| && Involves(Sent(Log(events), t)[x], entity) {
      TickIsExact(events, entity, t);
    }
    var page := HistoryPage(db, table, entity, None, offset, limit);
    forall i | 0 <= i < |page| ensures ShowsTx(events, pos[offset + i], page[i]) {
      var at := pos[offset + i];
      assert (at.0, at.1) in pos;
      assert IsRow(db, entity, at, page[i]);
      RowShowsTx(events, entity, at, page[i]);
    }
  }

  lemma {:induction false} TickIsExact(events: seq<Event>, entity: Bytes, t: u32)
    requires |entity| == 32 && Contiguous(Log(events)) && TicksFit(Log(events))
    ensures Exact(Run(events).db.txByEntity, entity, t, Sent(Log(events), t))
  {
    SentIsArrivals(Log(events), t);
    assert |Arrivals(Log(events), t)| <= 0x1_0000_0000;
    EntityIndexIsExact(events, entity, t);
  }

  lemma {:induction false} RowShowsTx(events: seq<Event>, entity: Bytes, at: (u32, u32), row: (u32, Bytes))
    requires |entity| == 32 && Contiguous(Log(events)) && TicksFit(Log(events))
    requires IsRow(Run(events).db, entity, at, row)
    ensures ShowsTx(events, at, row)
  {
    TickIsExact(events, entity, at.0);
    var sent := Sent(Log(events), at.0);
    TxsAreStored(events, sent[at.1].hash);
  }
}
