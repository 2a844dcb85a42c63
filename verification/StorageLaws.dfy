/** What the scans return, in terms of ticks, indexes and pages rather than bytes. */
module StorageLaws {
  import opened Bytes
  import opened OrderedKeys
  import opened WarmStorage
  import opened EpochIntervals

  // ---------------------------------------------------------------- slots of a tick

  lemma {:induction false} SlotKeyOrder(t: u32, i: u32, u: u32, j: u32)
    ensures Less(SlotKey(t, i), SlotKey(u, j)) <==> t < u || (t == u && i < j)
    ensures SlotKey(t, i) == SlotKey(u, j) ==> t == u && i == j
  {
    LessConcat(BE(t, 4), BE(i, 4), BE(u, 4), BE(j, 4));
    LessIsNumeric(BE(t, 4), BE(u, 4));
    LessIsNumeric(BE(i, 4), BE(j, 4));
    BEInverse(t, 4); BEInverse(u, 4); BEInverse(i, 4); BEInverse(j, 4);
    if SlotKey(t, i) == SlotKey(u, j) {
      LessIsTotal(SlotKey(t, i), SlotKey(u, j));
      SlotKeySplit(t, i);
      SlotKeySplit(u, j);
    }
  }

  lemma {:induction false} SlotKeySplit(t: u32, i: u32)
    ensures SlotKey(t, i)[..4] == BE(t, 4) && SlotKey(t, i)[4..] == BE(i, 4)
    ensures TickKey(t) <= SlotKey(t, i) && |SlotKey(t, i)| == 8
  {
  }

  /** Every 8-byte key under a tick is the slot of some index. */
  lemma {:induction false} KeyIsSlot(t: u32, k: Bytes) returns (i: u32)
    requires |k| == 8 && TickKey(t) <= k
    ensures k == SlotKey(t, i)
  {
    ValueBEInverse(k[4..]);
    assert Pow256(4) == 0x1_0000_0000;
    i := ValueBE(k[4..]);
    assert k == k[..4] + k[4..];
  }

  /** The keys of a tick climb through the slots. */
  lemma {:induction false} SlotAtLeast(cf: Cf, t: u32, j: nat) returns (i: u32)
    requires KeysOfLength(cf, 8) && j < |PrefixKeys(cf, TickKey(t))|
    ensures PrefixKeys(cf, TickKey(t))[j] == SlotKey(t, i) && j <= i
  {
    var keys := PrefixKeys(cf, TickKey(t));
    PrefixKeysSpec(cf, TickKey(t));
    assert keys[j] in keys;
    i := KeyIsSlot(t, keys[j]);
    if j > 0 {
      var below := SlotAtLeast(cf, t, j - 1);
      SlotKeyOrder(t, below, t, i);
    }
  }

  /** A tick has no more entries than there are 32-bit indexes. */
  lemma {:induction false} SlotsAreFew(cf: Cf, t: u32)
    requires KeysOfLength(cf, 8)
    ensures |PrefixKeys(cf, TickKey(t))| <= 0x1_0000_0000
  {
    var n := |PrefixKeys(cf, TickKey(t))|;
    if n > 0 { var i := SlotAtLeast(cf, t, n - 1); }
  }

  function Slots(t: u32, n: nat): seq<Bytes>
    requires n <= 0x1_0000_0000
  {
    seq(n, i requires 0 <= i < n => SlotKey(t, i))
  }

  /** The slots `0..|vals|` of tick `t` hold `vals`, and no other slot of `t` is taken. */
  ghost predicate Dense(cf: Cf, t: u32, vals: seq<Bytes>) {
    && (forall i: u32 :: SlotKey(t, i) in cf <==> i < |vals|)
    && (forall i: u32 :: i < |vals| ==> cf[SlotKey(t, i)] == vals[i])
  }

  lemma {:induction false} DensePut(cf: Cf, t: u32, vals: seq<Bytes>, u: u32, index: u32, value: Bytes)
    requires Dense(cf, t, vals)
    requires u == t ==> index == |vals|
    ensures Dense(cf[SlotKey(u, index) := value], t, if u == t then vals + [value] else vals)
  {
    forall i: u32 ensures SlotKey(t, i) == SlotKey(u, index) ==> t == u && i == index { SlotKeyOrder(t, i, u, index); }
  }

  /** A tick whose slots are filled without gaps reads back in slot order. */
  lemma {:induction false} DenseReads(cf: Cf, t: u32, vals: seq<Bytes>)
    requires KeysOfLength(cf, 8) && |vals| <= 0x1_0000_0000
    requires Dense(cf, t, vals)
    ensures PrefixKeys(cf, TickKey(t)) == Slots(t, |vals|)
    ensures ReadPrefix(cf, TickKey(t)) == vals
  {
    var keys, slots := PrefixKeys(cf, TickKey(t)), Slots(t, |vals|);
    PrefixKeysSpec(cf, TickKey(t));
    forall i, j | 0 <= i < j < |slots| ensures Less(slots[i], slots[j]) { SlotKeyOrder(t, i, t, j); }
    forall k ensures k in keys <==> k in slots {
      if k in keys {
        var i := KeyIsSlot(t, k);
        assert slots[i] == k;
      }
      if k in slots {
        var i: nat :| i < |slots| && slots[i] == k;
        SlotKeySplit(t, i);
      }
    }
    SortedIsUnique(keys, slots);
  }

  // ---------------------------------------------------------------- entries of an entity

  ghost predicate Before(a: Bytes, b: Bytes)
    requires |a| == 40 && |b| == 40
  {
    EntryTick(a) < EntryTick(b) || (EntryTick(a) == EntryTick(b) && EntryIndex(a) < EntryIndex(b))
  }

  lemma {:induction false} EntryOrder(entity: Bytes, a: Bytes, b: Bytes)
    requires |entity| == 32 && |a| == 40 && |b| == 40 && entity <= a && entity <= b
    ensures Less(a, b) <==> Before(a, b)
  {
    assert a == entity + (a[32..36] + a[36..40]) && b == entity + (b[32..36] + b[36..40]);
    LessIsTotal(entity, entity);
    LessConcat(entity, a[32..36] + a[36..40], entity, b[32..36] + b[36..40]);
    LessConcat(a[32..36], a[36..40], b[32..36], b[36..40]);
    LessIsNumeric(a[32..36], b[32..36]);
    LessIsNumeric(a[36..40], b[36..40]);
  }

  /** An entity's entries come in ascending (tick, index) order, and none in the range is missing. */
  lemma {:induction false} EntriesAreOrdered(cf: Cf, entity: Bytes, lo: u32, hi: u32)
    requires |entity| == 32
    ensures forall k :: k in EntityEntries(cf, entity, lo, hi) <==> Listed(cf, entity, lo, hi)(k)
    ensures forall k :: k in EntityEntries(cf, entity, lo, hi) ==> |k| == 40
    ensures forall i, j :: 0 <= i < j < |EntityEntries(cf, entity, lo, hi)| ==>
                             |EntityEntries(cf, entity, lo, hi)[i]| == 40 && |EntityEntries(cf, entity, lo, hi)[j]| == 40 &&
                             Before(EntityEntries(cf, entity, lo, hi)[i], EntityEntries(cf, entity, lo, hi)[j])
  {
    var p := Listed(cf, entity, lo, hi);
    FilterSpec(cf.Keys, p);
    var keys := EntityEntries(cf, entity, lo, hi);
    forall k ensures k in keys <==> p(k) {
      assert p(k) ==> k in cf.Keys;
    }
    forall i, j | 0 <= i < j < |keys| ensures |keys[i]| == 40 && |keys[j]| == 40 && Before(keys[i], keys[j]) {
      assert keys[i] in keys && keys[j] in keys;
      EntryOrder(entity, keys[i], keys[j]);
    }
  }

  /** The newest-first read is the same list of entries, reversed and cut. */
  lemma {:induction false} NewestAreGreatest(cf: Cf, entity: Bytes, i: nat, j: nat)
    requires |entity| == 32 && KeysOfLength(cf, 40)
    requires i < j < |Reverse(PrefixKeys(cf, entity))|
    ensures |Reverse(PrefixKeys(cf, entity))[i]| == 40 && |Reverse(PrefixKeys(cf, entity))[j]| == 40
    ensures Before(Reverse(PrefixKeys(cf, entity))[j], Reverse(PrefixKeys(cf, entity))[i])
  {
    PrefixKeysSpec(cf, entity);
    var keys := PrefixKeys(cf, entity);
    var a, b := keys[|keys| - 1 - j], keys[|keys| - 1 - i];
    assert a in keys && b in keys;
    EntryOrder(entity, a, b);
  }

  // ---------------------------------------------------------------- pages

  /** Every entry of the entity index points at a stored transaction. */
  ghost predicate NoDangling(db: Db) {
    forall k :: k in db.txByEntity ==> |k| == 40 && |db.txByEntity[k]| == 32 && db.txByEntity[k] in db.tx
  }

  lemma {:induction false} FetchAll(db: Db, keys: seq<Bytes>)
    requires forall k :: k in keys ==> |FetchOne(db, k)| == 1
    ensures |Fetch(db, keys)| == |keys|
  {
    if keys != [] {
      var init := keys[..|keys| - 1];
      assert keys[|keys| - 1] in keys;
      FetchAll(db, init);
    }
  }

  lemma {:induction false} EntriesPresent(db: Db, entity: Bytes, lo: u32, hi: u32)
    requires NoDangling(db)
    ensures forall k :: k in EntityEntries(db.txByEntity, entity, lo, hi) ==>
                          |FetchOne(db, k)| == 1
  {
    FilterSpec(db.txByEntity.Keys, Listed(db.txByEntity, entity, lo, hi));
  }

  /** The whole history of an entity over a tick range. */
  function Whole(db: Db, entity: Bytes, lo: u32, hi: u32): seq<(u32, Bytes)> {
    Fetch(db, EntityEntries(db.txByEntity, entity, lo, hi))
  }

  lemma {:induction false} FetchDrop(db: Db, keys: seq<Bytes>, offset: nat)
    requires forall k :: k in keys ==> |FetchOne(db, k)| == 1
    ensures Fetch(db, Drop(keys, offset)) == Drop(Fetch(db, keys), offset)
  {
    FetchAll(db, keys);
    if offset <= |keys| {
      var a, b := keys[..offset], keys[offset..];
      assert keys == a + b;
      FetchAll(db, a);
      FetchAppend(db, a, b);
    }
  }

  /** With no dangling entry, a page is the `[offset, offset + limit)` slice of the whole history. */
  lemma {:induction false} PageIsSlice(db: Db, entity: Bytes, lo: u32, hi: u32, offset: nat, limit: nat)
    requires NoDangling(db)
    ensures |Whole(db, entity, lo, hi)| == |EntityEntries(db.txByEntity, entity, lo, hi)|
    ensures History(db, entity, lo, hi, offset, limit) == Take(Drop(Whole(db, entity, lo, hi), offset), limit)
  {
    EntriesPresent(db, entity, lo, hi);
    FetchAll(db, EntityEntries(db.txByEntity, entity, lo, hi));
    FetchDrop(db, EntityEntries(db.txByEntity, entity, lo, hi), offset);
  }

  /** The part of the history that `limit` and `offset` cut out of the given entries. */
  function Cut(db: Db, keys: seq<Bytes>, offset: nat, limit: nat): seq<(u32, Bytes)> {
    Take(Fetch(db, Drop(keys, offset)), limit)
  }

  lemma {:induction false} CutsConcatenate(db: Db, keys: seq<Bytes>, offset: nat, m: nat, n: nat)
    requires forall k :: k in keys ==> |FetchOne(db, k)| == 1
    ensures Cut(db, keys, offset, m) + Cut(db, keys, offset + m, n) == Cut(db, keys, offset, m + n)
  {
    FetchDrop(db, keys, offset);
    FetchDrop(db, keys, offset + m);
    SlicesConcatenate(Fetch(db, keys), offset, m, n, Cut(db, keys, offset, m), Cut(db, keys, offset + m, n), Cut(db, keys, offset, m + n));
  }

  /** Consecutive pages concatenate to the larger page. */
  lemma {:induction false} PagesConcatenate(db: Db, entity: Bytes, lo: u32, hi: u32, offset: nat, m: nat, n: nat)
    requires NoDangling(db)
    ensures History(db, entity, lo, hi, offset, m) + History(db, entity, lo, hi, offset + m, n)
         == History(db, entity, lo, hi, offset, m + n)
  {
    EntriesPresent(db, entity, lo, hi);
    CutsConcatenate(db, EntityEntries(db.txByEntity, entity, lo, hi), offset, m, n);
  }

  ghost predicate LeastFirst(entries: seq<Interval>, epoch: u16, lo: u32) {
    && (exists i :: 0 <= i < |entries| && entries[i].epoch == epoch && entries[i].firstTick == lo)
    && (forall i :: 0 <= i < |entries| && entries[i].epoch == epoch ==> lo <= entries[i].firstTick)
  }

  ghost predicate GreatestLast(entries: seq<Interval>, epoch: u16, hi: u32) {
    && (exists i :: 0 <= i < |entries| && entries[i].epoch == epoch && entries[i].lastTick == hi)
    && (forall i :: 0 <= i < |entries| && entries[i].epoch == epoch ==> entries[i].lastTick <= hi)
  }

  /**
   * However the fetched intervals were listed, an epoch's page is that of the ticks from the least
   * first to the greatest last tick of its intervals.
   */
  lemma {:induction false} EpochPage(db: Db, table: seq<EpochRange>, entries: seq<Interval>, epoch: u16, lo: u32, hi: u32, entity: Bytes, offset: nat, limit: nat)
    requires Merges(table, entries) && LeastFirst(entries, epoch, lo) && GreatestLast(entries, epoch, hi)
    ensures HistoryPage(db, table, entity, Some(epoch), offset, limit) == History(db, entity, lo, hi, offset, limit)
  {
    LookupIsMergedRange(table, entries, epoch);
    assert Known(entries, epoch);
    var r := Lookup(table, epoch).value;
    assert r.firstTick == lo && r.lastTick == hi;
  }

  /** An epoch that was not fetched has an empty page. */
  lemma {:induction false} UnknownEpochPage(db: Db, table: seq<EpochRange>, entries: seq<Interval>, epoch: u16, entity: Bytes, offset: nat, limit: nat)
    requires Merges(table, entries) && forall i :: 0 <= i < |entries| ==> entries[i].epoch != epoch
    ensures HistoryPage(db, table, entity, Some(epoch), offset, limit) == []
  {
    LookupIsMergedRange(table, entries, epoch);
  }

  lemma {:induction false} SlicesConcatenate<T>(s: seq<T>, offset: nat, m: nat, n: nat, p: seq<T>, q: seq<T>, r: seq<T>)
    requires p == Take(Drop(s, offset), m) && q == Take(Drop(s, offset + m), n) && r == Take(Drop(s, offset), m + n)
    ensures p + q == r
  {
    var d := Drop(s, offset);
    assert Drop(s, offset + m) == Drop(d, m);
  }

  /** The unfiltered history, taken whole, has as many rows as the entity has entries. */
  lemma {:induction false} FullHistoryLength(db: Db, entity: Bytes, limit: nat)
    requires |entity| == 32 && NoDangling(db)
    requires limit >= |PrefixKeys(db.txByEntity, entity)|
    ensures |History(db, entity, 0, 0xFFFF_FFFF, 0, limit)| == |PrefixKeys(db.txByEntity, entity)|
  {
    var cf := db.txByEntity;
    var all, keys := EntityEntries(cf, entity, 0, 0xFFFF_FFFF), PrefixKeys(cf, entity);
    FilterSpec(cf.Keys, Listed(cf, entity, 0, 0xFFFF_FFFF));
    PrefixKeysSpec(cf, entity);
    forall k ensures k in all <==> k in keys {
      if k in cf { assert |k| == 40; }
    }
    SortedIsUnique(all, keys);
    PageIsSlice(db, entity, 0, 0xFFFF_FFFF, 0, limit);
  }

  // ---------------------------------------------------------------- the rows of a page

  predicate PositionLess(a: (u32, u32), b: (u32, u32)) {
    a.0 < b.0 || (a.0 == b.0 && a.1 < b.1)
  }

  /** `pos` lists, in order, exactly the (tick, index) positions with a tick in `[lo, hi]` at which the entity has an entry. */
  ghost predicate Positions(cf: Cf, entity: Bytes, lo: u32, hi: u32, pos: seq<(u32, u32)>) {
    && (forall i, j :: 0 <= i < j < |pos| ==> PositionLess(pos[i], pos[j]))
    && (forall t: u32, x: u32 :: (t, x) in pos <==> lo <= t <= hi && EntityKey(entity, t, x) in cf)
  }

  /** The tick of a position and the transaction stored for the entity's entry there. */
  ghost predicate IsRow(db: Db, entity: Bytes, at: (u32, u32), row: (u32, Bytes)) {
    var k := EntityKey(entity, at.0, at.1);
    k in db.txByEntity && db.txByEntity[k] in db.tx && row.0 == at.0 && row.1 == db.tx[db.txByEntity[k]]
  }

  /** The page holds the rows of the positions from `offset` on, as far as `limit` allows. */
  ghost predicate IsPage(db: Db, entity: Bytes, pos: seq<(u32, u32)>, offset: nat, limit: nat, page: seq<(u32, Bytes)>) {
    && |page| == Min(limit, Max(|pos| - offset, 0))
    && forall i :: 0 <= i < |page| ==> IsRow(db, entity, pos[offset + i], page[i])
  }

  lemma {:induction false} KeyIsEntry(entity: Bytes, k: Bytes)
    requires |entity| == 32 && |k| == 40 && entity <= k
    ensures k == EntityKey(entity, EntryTick(k), EntryIndex(k))
  {
    ValueBEInverse(k[32..36]);
    ValueBEInverse(k[36..40]);
    assert k == entity + k[32..36] + k[36..40];
  }

  lemma {:induction false} EntryParts(entity: Bytes, t: u32, x: u32)
    requires |entity| == 32
    ensures var k := EntityKey(entity, t, x); |k| == 40 && entity <= k && EntryTick(k) == t && EntryIndex(k) == x
  {
    var k := EntityKey(entity, t, x);
    assert k[32..36] == BE(t, 4) && k[36..40] == BE(x, 4);
    BEInverse(t, 4);
    BEInverse(x, 4);
  }

  lemma {:induction false} FetchAt(db: Db, keys: seq<Bytes>, i: nat)
    requires i < |keys| && forall k :: k in keys ==> |FetchOne(db, k)| == 1
    ensures |Fetch(db, keys)| == |keys| && [Fetch(db, keys)[i]] == FetchOne(db, keys[i])
  {
    var n := |keys| - 1;
    var init := keys[..n];
    assert keys[n] in keys;
    FetchAll(db, init);
    if i < n {
      FetchAt(db, init, i);
      assert init[i] == keys[i];
    }
  }

  function PositionOf(k: Bytes): (u32, u32) {
    if |k| == 40 then (EntryTick(k), EntryIndex(k)) else (0, 0)
  }

  lemma {:induction false} PositionListed(cf: Cf, entity: Bytes, lo: u32, hi: u32, t: u32, x: u32)
    requires |entity| == 32 && forall k :: k in cf ==> |k| == 40 && |cf[k]| == 32
    ensures EntityKey(entity, t, x) in EntityEntries(cf, entity, lo, hi) <==> lo <= t <= hi && EntityKey(entity, t, x) in cf
  {
    EntriesAreOrdered(cf, entity, lo, hi);
    EntryParts(entity, t, x);
    var k := EntityKey(entity, t, x);
    assert k in EntityEntries(cf, entity, lo, hi) <==> Listed(cf, entity, lo, hi)(k);
  }

  lemma {:induction false} PositionInList(entity: Bytes, keys: seq<Bytes>, pos: seq<(u32, u32)>, t: u32, x: u32)
    requires |entity| == 32 && |pos| == |keys|
    requires forall i :: 0 <= i < |keys| ==> pos[i] == PositionOf(keys[i]) && keys[i] == EntityKey(entity, pos[i].0, pos[i].1)
    ensures (t, x) in pos <==> EntityKey(entity, t, x) in keys
  {
    EntryParts(entity, t, x);
    if (t, x) in pos {
      var i :| 0 <= i < |pos| && pos[i] == (t, x);
      assert keys[i] == EntityKey(entity, t, x);
    }
    if EntityKey(entity, t, x) in keys {
      var i :| 0 <= i < |keys| && keys[i] == EntityKey(entity, t, x);
      assert pos[i] == (t, x);
    }
  }

  lemma {:induction false} EntriesAscend(cf: Cf, entity: Bytes, lo: u32, hi: u32, i: nat, j: nat)
    requires |entity| == 32 && i < j < |EntityEntries(cf, entity, lo, hi)|
    ensures var keys := EntityEntries(cf, entity, lo, hi); PositionLess(PositionOf(keys[i]), PositionOf(keys[j]))
  {
    EntriesAreOrdered(cf, entity, lo, hi);
    var keys := EntityEntries(cf, entity, lo, hi);
    assert Before(keys[i], keys[j]);
  }

  lemma {:induction false} EntryIsAtPosition(cf: Cf, entity: Bytes, lo: u32, hi: u32, i: nat)
    requires |entity| == 32 && i < |EntityEntries(cf, entity, lo, hi)|
    ensures var k := EntityEntries(cf, entity, lo, hi)[i]; k == EntityKey(entity, PositionOf(k).0, PositionOf(k).1)
  {
    EntriesAreOrdered(cf, entity, lo, hi);
    var k := EntityEntries(cf, entity, lo, hi)[i];
    assert k in EntityEntries(cf, entity, lo, hi);
    assert Listed(cf, entity, lo, hi)(k);
    KeyIsEntry(entity, k);
  }

  lemma {:induction false} PositionsOfEntries(cf: Cf, entity: Bytes, lo: u32, hi: u32) returns (pos: seq<(u32, u32)>)
    requires |entity| == 32 && forall k :: k in cf ==> |k| == 40 && |cf[k]| == 32
    ensures Positions(cf, entity, lo, hi, pos)
    ensures var keys := EntityEntries(cf, entity, lo, hi);
            |pos| == |keys| && forall i :: 0 <= i < |keys| ==> keys[i] == EntityKey(entity, pos[i].0, pos[i].1)
  {
    var keys := EntityEntries(cf, entity, lo, hi);
    pos := seq(|keys|, i requires 0 <= i < |keys| => PositionOf(keys[i]));
    forall i | 0 <= i < |keys| ensures keys[i] == EntityKey(entity, pos[i].0, pos[i].1) { EntryIsAtPosition(cf, entity, lo, hi, i); }
    forall i, j | 0 <= i < j < |pos| ensures PositionLess(pos[i], pos[j]) { EntriesAscend(cf, entity, lo, hi, i, j); }
    forall t: u32, x: u32 ensures (t, x) in pos <==> lo <= t <= hi && EntityKey(entity, t, x) in cf {
      PositionListed(cf, entity, lo, hi, t, x);
      PositionInList(entity, keys, pos, t, x);
    }
  }

  /** A page of the history over a tick range holds the rows of the entity's entries there, in (tick, index) order. */
  lemma {:induction false} PageRows(db: Db, entity: Bytes, lo: u32, hi: u32, offset: nat, limit: nat) returns (pos: seq<(u32, u32)>)
    requires |entity| == 32 && NoDangling(db)
    ensures Positions(db.txByEntity, entity, lo, hi, pos)
    ensures IsPage(db, entity, pos, offset, limit, History(db, entity, lo, hi, offset, limit))
  {
    pos := PositionsOfEntries(db.txByEntity, entity, lo, hi);
    var keys := EntityEntries(db.txByEntity, entity, lo, hi);
    EntriesPresent(db, entity, lo, hi);
    CutIsPage(db, entity, keys, pos, offset, limit);
  }

  lemma {:induction false} CutIsPage(db: Db, entity: Bytes, keys: seq<Bytes>, pos: seq<(u32, u32)>, offset: nat, limit: nat)
    requires |entity| == 32 && |pos| == |keys| && forall i :: 0 <= i < |keys| ==> keys[i] == EntityKey(entity, pos[i].0, pos[i].1)
    requires forall k :: k in keys ==> |FetchOne(db, k)| == 1
    ensures IsPage(db, entity, pos, offset, limit, Cut(db, keys, offset, limit))
  {
    var page := Cut(db, keys, offset, limit);
    FetchDrop(db, keys, offset);
    FetchAll(db, keys);
    forall i | 0 <= i < |page| ensures IsRow(db, entity, pos[offset + i], page[i]) {
      FetchAt(db, keys, offset + i);
      EntryParts(entity, pos[offset + i].0, pos[offset + i].1);
      assert page[i] == Fetch(db, keys)[offset + i];
    }
  }

  /** Without an epoch a page is one of all the entity's entries. */
  lemma {:induction false} UnfilteredPage(db: Db, table: seq<EpochRange>, entity: Bytes, offset: nat, limit: nat) returns (pos: seq<(u32, u32)>)
    requires |entity| == 32 && NoDangling(db)
    ensures forall i, j :: 0 <= i < j < |pos| ==> PositionLess(pos[i], pos[j])
    ensures forall t: u32, x: u32 :: (t, x) in pos <==> EntityKey(entity, t, x) in db.txByEntity
    ensures |pos| == |PrefixKeys(db.txByEntity, entity)|
    ensures IsPage(db, entity, pos, offset, limit, HistoryPage(db, table, entity, None, offset, limit))
  {
    pos := PageRows(db, entity, 0, 0xFFFF_FFFF, offset, limit);
    CountOfPositions(db, entity, pos);
  }

  lemma {:induction false} CountOfPositions(db: Db, entity: Bytes, pos: seq<(u32, u32)>)
    requires |entity| == 32 && NoDangling(db) && Positions(db.txByEntity, entity, 0, 0xFFFF_FFFF, pos)
    ensures |pos| == |PrefixKeys(db.txByEntity, entity)|
  {
    var limit := |PrefixKeys(db.txByEntity, entity)| + |pos|;
    var all := PageRows(db, entity, 0, 0xFFFF_FFFF, 0, limit);
    SamePositions(pos, all);
    FullHistoryLength(db, entity, limit);
  }

  /** An ordered list of positions is determined by what it holds. */
  lemma {:induction false} SamePositions(a: seq<(u32, u32)>, b: seq<(u32, u32)>)
    requires forall i, j :: 0 <= i < j < |a| ==> PositionLess(a[i], a[j])
    requires forall i, j :: 0 <= i < j < |b| ==> PositionLess(b[i], b[j])
    requires forall t: u32, x: u32 :: (t, x) in a <==> (t, x) in b
    ensures a == b
  {
    if a != [] { assert (a[0].0, a[0].1) in a && (a[0].0, a[0].1) in b; }
    if b != [] {
      assert (b[0].0, b[0].1) in b && (b[0].0, b[0].1) in a;
      assert a[0] == b[0];
      forall t: u32, x: u32 ensures (t, x) in a[1..] <==> (t, x) in b[1..] {
        HeadNotInTail(a, t, x);
        HeadNotInTail(b, t, x);
      }
      SamePositions(a[1..], b[1..]);
      assert a == [a[0]] + a[1..] && b == [b[0]] + b[1..];
    }
  }

  lemma {:induction false} HeadNotInTail(a: seq<(u32, u32)>, t: u32, x: u32)
    requires a != [] && forall i, j :: 0 <= i < j < |a| ==> PositionLess(a[i], a[j])
    ensures (t, x) in a[1..] <==> (t, x) in a && (t, x) != a[0]
  {
    assert a == [a[0]] + a[1..];
    forall i | 1 <= i < |a| ensures a[i] != a[0] { assert PositionLess(a[0], a[i]); }
  }

  /** Pages concatenate, with or without an epoch. */
  lemma {:induction false} AllPagesConcatenate(db: Db, table: seq<EpochRange>, entity: Bytes, epochFilter: Option<u16>, offset: nat, m: nat, n: nat)
    requires NoDangling(db)
    ensures HistoryPage(db, table, entity, epochFilter, offset, m) + HistoryPage(db, table, entity, epochFilter, offset + m, n)
         == HistoryPage(db, table, entity, epochFilter, offset, m + n)
  {
    match epochFilter
    case None => PagesConcatenate(db, entity, 0, 0xFFFF_FFFF, offset, m, n);
    case Some(epoch) =>
      match Lookup(table, epoch)
      case None =>
      case Some(range) => PagesConcatenate(db, entity, range.firstTick, range.lastTick, offset, m, n);
  }
}
