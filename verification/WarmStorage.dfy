/**
 * The warm tier: column families of byte keys and values, iterated in key order,
 * written by puts and batches and read by scans that seek and stop early.
 */
module WarmStorage {
  import opened Bytes
  import opened OrderedKeys
  import opened EpochIntervals

  type Cf = map<Bytes, Bytes>

  datatype EpochStats = EpochStats(epoch: u16, tickCount: nat, txCount: nat, firstTick: Option<u32>, lastTick: Option<u32>)

  datatype Db = Db(
    tick: Cf,
    tx: Cf,
    txByTick: Cf,
    txByEntity: Cf,
    customMessage: Cf,
    tickVote: Cf,
    meta: Cf,
    epochStats: map<u16, EpochStats>)

  const EMPTY := Db(map[], map[], map[], map[], map[], map[], map[], map[])

  // ---------------------------------------------------------------- key layouts

  function TickKey(tick: u32): Bytes { BE(tick, 4) }

  function SlotKey(tick: u32, index: u32): Bytes { BE(tick, 4) + BE(index, 4) }

  function EntityKey(entity: Bytes, tick: u32, index: u32): Bytes { entity + BE(tick, 4) + BE(index, 4) }

  function VoteKey(tick: u32, computor: u16): Bytes { BE(tick, 4) + BE(computor, 2) }

  const CURRENT_TICK: Bytes := [99, 117, 114, 114, 101, 110, 116, 95, 116, 105, 99, 107]
  const CURRENT_EPOCH: Bytes := [99, 117, 114, 114, 101, 110, 116, 95, 101, 112, 111, 99, 104]

  /** The tick field of an entity key. */
  function EntryTick(k: Bytes): (t: u32)
    requires |k| == 40
  {
    ValueBEInverse(k[32..36]);
    assert Pow256(4) == 0x1_0000_0000;
    ValueBE(k[32..36])
  }

  function EntryIndex(k: Bytes): (t: u32)
    requires |k| == 40
  {
    ValueBEInverse(k[36..40]);
    assert Pow256(4) == 0x1_0000_0000;
    ValueBE(k[36..40])
  }

  ghost predicate KeysOfLength(cf: Cf, n: nat) {
    forall k :: k in cf ==> |k| == n
  }

  // ---------------------------------------------------------------- prefix scans

  /** All keys of `cf` under a prefix, in key order: what a prefix scan has to return. */
  function PrefixKeys(cf: Cf, prefix: Bytes): seq<Bytes> {
    Filter(Ascending(cf.Keys), HasPrefix(prefix))
  }

  lemma {:induction false} PrefixKeysSpec(cf: Cf, prefix: Bytes)
    ensures Sorted(PrefixKeys(cf, prefix))
    ensures forall k :: k in PrefixKeys(cf, prefix) <==> k in cf && prefix <= k
  {
    FilterSpec(cf.Keys, HasPrefix(prefix));
  }

  lemma {:induction false} PrefixNotBefore(prefix: Bytes, k: Bytes)
    requires prefix <= k
    ensures !Less(k, prefix)
  {
    var rest := k[|prefix|..];
    LessConcat(prefix, rest, prefix, []);
    assert prefix + rest == k && prefix + [] == prefix;
    LessIsTotal(prefix, prefix);
  }

  lemma {:induction false} PrefixBlockEnds(prefix: Bytes, stop: Bytes, k: Bytes)
    requires |prefix| <= |stop| && !(prefix <= stop) && !Less(stop, prefix)
    requires k == stop || Less(stop, k)
    ensures !(prefix <= k)
  {
    var n := |prefix|;
    var head := stop[..n];
    assert head + stop[n..] == stop && prefix + [] == prefix;
    LessConcat(head, stop[n..], prefix, []);
    LessIsTotal(head, prefix);
    if prefix <= k {
      assert prefix + k[n..] == k;
      LessConcat(prefix, k[n..], head, stop[n..]);
      LessIsTotal(k, stop);
      assert false;
    }
  }

  lemma {:induction false} PrefixScanStops(cf: Cf, prefix: Bytes, width: nat, n: nat)
    requires KeysOfLength(cf, width) && |prefix| <= width
    requires n <= |Forward(cf.Keys, prefix)|
    requires forall i :: 0 <= i < n ==> prefix <= Forward(cf.Keys, prefix)[i]
    requires n < |Forward(cf.Keys, prefix)| ==> !(prefix <= Forward(cf.Keys, prefix)[n])
    ensures Forward(cf.Keys, prefix)[..n] == PrefixKeys(cf, prefix)
  {
    var it, p := Forward(cf.Keys, prefix), HasPrefix(prefix);
    ForwardMembers(cf.Keys, prefix);
    forall k | k in cf.Keys && p(k) ensures !Less(k, prefix) { PrefixNotBefore(prefix, k); }
    if n < |it| {
      assert it[n] in it;
      forall k | k in cf.Keys && (k == it[n] || Less(it[n], k)) ensures !p(k) {
        PrefixBlockEnds(prefix, it[n], k);
      }
    }
    EarlyStop(cf.Keys, prefix, n, p);
    FilterAll(it[..n], p);
  }

  /** The values under `keys`, in that order. */
  function Values(cf: Cf, keys: seq<Bytes>): seq<Bytes>
    requires forall k :: k in keys ==> k in cf
  {
    seq(|keys|, i requires 0 <= i < |keys| => assert keys[i] in keys; cf[keys[i]])
  }

  /** All values under a prefix, in key order. */
  function ReadPrefix(cf: Cf, prefix: Bytes): seq<Bytes> {
    PrefixKeysSpec(cf, prefix);
    Values(cf, PrefixKeys(cf, prefix))
  }

  /**
   * The loop shared by the per-tick and per-entity readers: seek to the prefix,
   * leave at the first key of another length or prefix.
   */
  method ScanPrefix(cf: Cf, prefix: Bytes, width: nat) returns (keys: seq<Bytes>)
    requires KeysOfLength(cf, width) && |prefix| <= width
    ensures keys == PrefixKeys(cf, prefix)
  {
    var it := Forward(cf.Keys, prefix);
    ForwardMembers(cf.Keys, prefix);
    keys := [];
    var i := 0;
    while i < |it|
      invariant i <= |it|
      invariant keys == it[..i]
      invariant forall j :: 0 <= j < i ==> prefix <= it[j]
    {
      assert it[i] in it;
      if |it[i]| != width || !(prefix <= it[i]) {
        break;
      }
      keys := keys + [it[i]];
      i := i + 1;
    }
    PrefixScanStops(cf, prefix, width, i);
  }

  method ReadAll(cf: Cf, keys: seq<Bytes>) returns (values: seq<Bytes>)
    requires forall k :: k in keys ==> k in cf
    ensures values == Values(cf, keys)
  {
    values := [];
    for i := 0 to |keys|
      invariant values == Values(cf, keys)[..i]
    {
      assert keys[i] in keys;
      values := values + [cf[keys[i]]];
    }
  }

  // ---------------------------------------------------------------- entity history

  function Listed(cf: Cf, entity: Bytes, lo: u32, hi: u32): Test {
    (k: Bytes) => k in cf && |k| == 40 && entity <= k && lo <= EntryTick(k) <= hi && |cf[k]| == 32
  }

  function ListedIn(cf: Cf, keys: seq<Bytes>, entity: Bytes, lo: u32, hi: u32): seq<Bytes> {
    Filter(keys, Listed(cf, entity, lo, hi))
  }

  /** The index entries of an entity with a tick in `[lo, hi]`, in key order. */
  function EntityEntries(cf: Cf, entity: Bytes, lo: u32, hi: u32): seq<Bytes> {
    ListedIn(cf, Ascending(cf.Keys), entity, lo, hi)
  }

  /** The stored transaction an index entry points at, if there is one. */
  function FetchOne(db: Db, k: Bytes): seq<(u32, Bytes)> {
    if |k| == 40 && k in db.txByEntity && db.txByEntity[k] in db.tx
    then [(EntryTick(k), db.tx[db.txByEntity[k]])]
    else []
  }

  /** The stored transactions of the given entries; entries whose hash is not stored are passed over. */
  function Fetch(db: Db, keys: seq<Bytes>): seq<(u32, Bytes)> {
    if keys == [] then [] else Fetch(db, keys[..|keys| - 1]) + FetchOne(db, keys[|keys| - 1])
  }

  /** A page of the history: restrict, drop, fetch, take. */
  function History(db: Db, entity: Bytes, lo: u32, hi: u32, offset: nat, limit: nat): seq<(u32, Bytes)> {
    var keys := EntityEntries(db.txByEntity, entity, lo, hi);
    Take(Fetch(db, Drop(keys, offset)), limit)
  }

  /** The page asked for: of the whole history, or of the looked-up range of one epoch. */
  function HistoryPage(db: Db, table: seq<EpochRange>, entity: Bytes, epochFilter: Option<u16>, offset: nat, limit: nat): seq<(u32, Bytes)> {
    match epochFilter
    case None => History(db, entity, 0, 0xFFFF_FFFF, offset, limit)
    case Some(epoch) =>
      match Lookup(table, epoch)
      case None => []
      case Some(range) => History(db, entity, range.firstTick, range.lastTick, offset, limit)
  }

  function Take<T>(s: seq<T>, n: nat): seq<T> { if n <= |s| then s[..n] else s }

  function Drop<T>(s: seq<T>, n: nat): seq<T> { if n <= |s| then s[n..] else [] }

  lemma {:induction false} FetchAppend(db: Db, a: seq<Bytes>, b: seq<Bytes>)
    ensures Fetch(db, a + b) == Fetch(db, a) + Fetch(db, b)
  {
    if b == [] {
      assert a + b == a;
    } else {
      var init := b[..|b| - 1];
      assert (a + b)[..|a + b| - 1] == a + init;
      FetchAppend(db, a, init);
    }
  }

  lemma {:induction false} HistoryStartsAt(cf: Cf, entity: Bytes, lo: u32, hi: u32, k: Bytes)
    requires |entity| == 32 && Listed(cf, entity, lo, hi)(k)
    ensures !Less(k, entity)
    ensures !Less(k, EntityKey(entity, lo, 0))
  {
    PrefixNotBefore(entity, k);
    var tick, index := k[32..36], k[36..40];
    assert k == entity + (tick + index);
    assert EntityKey(entity, lo, 0) == entity + (BE(lo, 4) + BE(0, 4));
    LessConcat(entity, tick + index, entity, BE(lo, 4) + BE(0, 4));
    LessConcat(tick, index, BE(lo, 4), BE(0, 4));
    LessIsTotal(entity, entity);
    LessIsNumeric(tick, BE(lo, 4));
    BEInverse(lo, 4);
    LessIsNumeric(index, BE(0, 4));
    BEInverse(0, 4);
  }

  lemma {:induction false} HistoryEndsAt(cf: Cf, entity: Bytes, lo: u32, hi: u32, stop: Bytes, k: Bytes)
    requires |entity| == 32 && |stop| == 40 && entity <= stop && EntryTick(stop) > hi
    requires k == stop || Less(stop, k)
    ensures !Listed(cf, entity, lo, hi)(k)
  {
    if Listed(cf, entity, lo, hi)(k) {
      assert k == entity + (k[32..36] + k[36..40]);
      assert stop == entity + (stop[32..36] + stop[36..40]);
      LessIsTotal(k, stop);
      LessIsTotal(entity, entity);
      LessConcat(entity, k[32..36] + k[36..40], entity, stop[32..36] + stop[36..40]);
      LessConcat(k[32..36], k[36..40], stop[32..36], stop[36..40]);
      LessIsNumeric(k[32..36], stop[32..36]);
      assert false;
    }
  }

  lemma {:induction false} SeekedPast(entity: Bytes, lo: u32, start: Bytes, k: Bytes)
    requires |entity| == 32 && |k| == 40 && entity <= k
    requires start == EntityKey(entity, lo, 0) || (start == entity && lo == 0)
    requires !Less(k, start)
    ensures lo <= EntryTick(k)
  {
    if start != entity && EntryTick(k) < lo {
      assert k == entity + (k[32..36] + k[36..40]);
      assert start == entity + (BE(lo, 4) + BE(0, 4));
      LessConcat(entity, k[32..36] + k[36..40], entity, BE(lo, 4) + BE(0, 4));
      LessConcat(k[32..36], k[36..40], BE(lo, 4), BE(0, 4));
      LessIsNumeric(k[32..36], BE(lo, 4));
      BEInverse(lo, 4);
      assert false;
    }
  }

  /** What the history loop has computed after passing the entries `listed`. */
  ghost predicate PageSoFar(db: Db, listed: seq<Bytes>, offset: nat, limit: nat, skipped: nat, results: seq<(u32, Bytes)>) {
    && skipped == Min(offset, |listed|)
    && results == Fetch(db, Drop(listed, offset))
    && |results| <= limit
  }

  lemma {:induction false} PageStep(db: Db, listed: seq<Bytes>, k: Bytes, offset: nat, limit: nat, skipped: nat, results: seq<(u32, Bytes)>)
    requires PageSoFar(db, listed, offset, limit, skipped, results)
    ensures skipped < offset ==> PageSoFar(db, listed + [k], offset, limit, skipped + 1, results)
    ensures skipped >= offset && |results| < limit ==> PageSoFar(db, listed + [k], offset, limit, skipped, results + FetchOne(db, k))
  {
    if |listed| >= offset {
      var d := Drop(listed, offset);
      assert Drop(listed + [k], offset) == d + [k];
      assert (d + [k])[..|d|] == d;
    } else {
      assert Drop(listed, offset) == Drop(listed + [k], offset) == [];
    }
  }

  lemma {:induction false} PageFull(db: Db, a: seq<Bytes>, b: seq<Bytes>, offset: nat, limit: nat, skipped: nat, results: seq<(u32, Bytes)>)
    requires PageSoFar(db, a, offset, limit, skipped, results)
    requires skipped >= offset && |results| >= limit
    ensures results == Take(Fetch(db, Drop(a + b, offset)), limit)
  {
    assert Drop(a + b, offset) == Drop(a, offset) + b;
    FetchAppend(db, Drop(a, offset), b);
  }

  lemma {:induction false} ListedSplit(cf: Cf, entity: Bytes, lo: u32, hi: u32, start: Bytes, i: nat)
    requires |entity| == 32
    requires start == entity || start == EntityKey(entity, lo, 0)
    requires i <= |Forward(cf.Keys, start)|
    ensures var it := Forward(cf.Keys, start);
            EntityEntries(cf, entity, lo, hi) == ListedIn(cf, it[..i], entity, lo, hi) + ListedIn(cf, it[i..], entity, lo, hi)
  {
    forall k | k in cf.Keys && Listed(cf, entity, lo, hi)(k) ensures !Less(k, start) {
      HistoryStartsAt(cf, entity, lo, hi, k);
    }
    SeekSplit(cf.Keys, start, Listed(cf, entity, lo, hi), i);
  }

  lemma {:induction false} ListedStep(cf: Cf, it: seq<Bytes>, i: nat, entity: Bytes, lo: u32, hi: u32)
    requires i < |it|
    ensures ListedIn(cf, it[..i + 1], entity, lo, hi) ==
            ListedIn(cf, it[..i], entity, lo, hi) + (if Listed(cf, entity, lo, hi)(it[i]) then [it[i]] else [])
  {
    FilterStep(it, i, Listed(cf, entity, lo, hi));
  }

  lemma {:induction false} HistoryStops(cf: Cf, entity: Bytes, lo: u32, hi: u32, start: Bytes, n: nat)
    requires |entity| == 32 && KeysOfLength(cf, 40)
    requires start == entity || start == EntityKey(entity, lo, 0)
    requires n <= |Forward(cf.Keys, start)|
    requires n < |Forward(cf.Keys, start)| ==>
               var k := Forward(cf.Keys, start)[n]; !(entity <= k) || (|k| == 40 && EntryTick(k) > hi)
    ensures ListedIn(cf, Forward(cf.Keys, start)[..n], entity, lo, hi) == EntityEntries(cf, entity, lo, hi)
  {
    var it, p := Forward(cf.Keys, start), Listed(cf, entity, lo, hi);
    ForwardMembers(cf.Keys, start);
    forall k | k in cf.Keys && p(k) ensures !Less(k, start) { HistoryStartsAt(cf, entity, lo, hi, k); }
    if n < |it| {
      assert it[n] in it;
      forall k | k in cf.Keys && (k == it[n] || Less(it[n], k)) ensures !p(k) {
        if entity <= it[n] {
          HistoryEndsAt(cf, entity, lo, hi, it[n], k);
        } else {
          NotBeforeEntity(entity, lo, start, it[n]);
          PrefixBlockEnds(entity, it[n], k);
        }
      }
    }
    EarlyStop(cf.Keys, start, n, p);
  }

  lemma {:induction false} NotBeforeEntity(entity: Bytes, lo: u32, start: Bytes, k: Bytes)
    requires |entity| == 32 && (start == entity || start == EntityKey(entity, lo, 0))
    requires !Less(k, start)
    ensures !Less(k, entity)
  {
    if start != entity {
      assert start == entity + (BE(lo, 4) + BE(0, 4));
      assert entity <= start;
      PrefixNotBefore(entity, start);
      LessIsTotal(k, start);
      LessIsTotal(start, entity);
      if Less(k, entity) && Less(entity, start) { LessIsTransitive(k, entity, start); }
    }
  }

  // ---------------------------------------------------------------- tick scans

  function TickIn(lo: u32, hi: u32): Test {
    (k: Bytes) => |k| == 4 && lo <= ValueBE(k) <= hi
  }

  lemma {:induction false} TickAtLeast(lo: u32, k: Bytes)
    requires |k| == 4
    ensures 0 <= ValueBE(k) < 0x1_0000_0000 && TickKey(ValueBE(k)) == k
    ensures Less(k, TickKey(lo)) <==> ValueBE(k) < lo
    ensures Less(TickKey(lo), k) <==> lo < ValueBE(k)
  {
    ValueBEInverse(k);
    assert Pow256(4) == 0x1_0000_0000;
    BEInverse(lo, 4);
    LessIsNumeric(k, TickKey(lo));
    LessIsNumeric(TickKey(lo), k);
  }

  /** `r` pairs each of the tick keys with its value. */
  ghost predicate TicksOf(cf: Cf, keys: seq<Bytes>, r: seq<(u32, Bytes)>) {
    && |r| == |keys|
    && forall i :: 0 <= i < |r| ==> keys[i] == TickKey(r[i].0) && keys[i] in cf && r[i].1 == cf[keys[i]]
  }

  lemma {:induction false} TickScanStops(cf: Cf, lo: u32, hi: u32, n: nat)
    requires n <= |Forward(cf.Keys, TickKey(lo))|
    requires n < |Forward(cf.Keys, TickKey(lo))| ==>
               var k := Forward(cf.Keys, TickKey(lo))[n]; |k| == 4 && ValueBE(k) > hi
    ensures Filter(Forward(cf.Keys, TickKey(lo))[..n], TickIn(lo, hi)) == Filter(Ascending(cf.Keys), TickIn(lo, hi))
  {
    var it, p := Forward(cf.Keys, TickKey(lo)), TickIn(lo, hi);
    forall k | k in cf.Keys && p(k) ensures !Less(k, TickKey(lo)) { TickAtLeast(lo, k); }
    if n < |it| {
      forall k | k in cf.Keys && (k == it[n] || Less(it[n], k)) ensures !p(k) {
        if p(k) {
          LessIsNumeric(it[n], k);
          assert false;
        }
      }
    }
    EarlyStop(cf.Keys, TickKey(lo), n, p);
  }

  lemma {:induction false} TickRangeSpec(cf: Cf, lo: u32, hi: u32, r: seq<(u32, Bytes)>)
    requires TicksOf(cf, Filter(Ascending(cf.Keys), TickIn(lo, hi)), r)
    ensures forall i, j :: 0 <= i < j < |r| ==> r[i].0 < r[j].0
    ensures forall t: u32, v: Bytes :: (t, v) in r <==> lo <= t <= hi && TickKey(t) in cf && cf[TickKey(t)] == v
  {
    var keys := Filter(Ascending(cf.Keys), TickIn(lo, hi));
    FilterSpec(cf.Keys, TickIn(lo, hi));
    forall i, j | 0 <= i < j < |r| ensures r[i].0 < r[j].0 {
      assert Less(keys[i], keys[j]);
      TickAtLeast(r[j].0, keys[i]);
      BEInverse(r[i].0, 4);
    }
    forall t: u32, v: Bytes ensures (t, v) in r <==> lo <= t <= hi && TickKey(t) in cf && cf[TickKey(t)] == v {
      BEInverse(t, 4);
      if (t, v) in r {
        var i :| 0 <= i < |r| && r[i] == (t, v);
        assert keys[i] in keys;
      }
      if lo <= t <= hi && TickKey(t) in cf && cf[TickKey(t)] == v {
        assert TickKey(t) in keys;
        var i :| 0 <= i < |keys| && keys[i] == TickKey(t);
        BEInverse(r[i].0, 4);
        assert r[i] == (t, v);
      }
    }
  }

  // ---------------------------------------------------------------- newest entries of an entity

  const HIGHEST: Bytes := [255, 255, 255, 255, 255, 255, 255, 255]

  lemma {:induction false} InBackward(cf: Cf, upper: Bytes, i: nat)
    requires i < |Backward(cf.Keys, upper)|
    ensures Backward(cf.Keys, upper)[i] in cf && !Less(upper, Backward(cf.Keys, upper)[i])
  {
    FilterSpec(cf.Keys, AtMost(upper));
    var below := Filter(Ascending(cf.Keys), AtMost(upper));
    assert Backward(cf.Keys, upper)[i] == below[|below| - 1 - i];
    assert below[|below| - 1 - i] in below;
  }

  lemma {:induction false} NothingAboveOnes(a: Bytes, b: Bytes)
    requires |a| == |b| && forall i :: 0 <= i < |b| ==> b[i] == 255
    ensures !Less(b, a)
  {
    if a != [] { NothingAboveOnes(a[1..], b[1..]); }
  }

  lemma {:induction false} BelowBlockEnd(entity: Bytes, k: Bytes)
    requires |entity| == 32 && |k| == 40 && entity <= k
    ensures !Less(entity + HIGHEST, k)
  {
    var tail := k[32..];
    assert k == entity + tail;
    LessIsTotal(entity, entity);
    LessConcat(entity, HIGHEST, entity, tail);
    NothingAboveOnes(tail, HIGHEST);
  }

  lemma {:induction false} BlockStarts(entity: Bytes, stop: Bytes, k: Bytes)
    requires |entity| == 32 && |stop| == 40 && |k| == 40
    requires !(entity <= stop) && !Less(entity + HIGHEST, stop)
    requires k == stop || Less(k, stop)
    ensures !(entity <= k)
  {
    if entity <= k {
      var head, tail := stop[..32], stop[32..];
      assert stop == head + tail && k == entity + k[32..];
      LessConcat(entity, HIGHEST, head, tail);
      LessIsTotal(entity, head);
      LessConcat(entity, k[32..], head, tail);
      assert false;
    }
  }

  lemma {:induction false} WholeBlock(cf: Cf, entity: Bytes, n: nat)
    requires |entity| == 32 && KeysOfLength(cf, 40)
    requires n <= |Backward(cf.Keys, entity + HIGHEST)|
    requires forall i :: 0 <= i < n ==> entity <= Backward(cf.Keys, entity + HIGHEST)[i]
    requires n == |Backward(cf.Keys, entity + HIGHEST)| || !(entity <= Backward(cf.Keys, entity + HIGHEST)[n])
    ensures Backward(cf.Keys, entity + HIGHEST)[..n] == Reverse(PrefixKeys(cf, entity))
  {
    var upper, p := entity + HIGHEST, HasPrefix(entity);
    var it := Backward(cf.Keys, upper);
    forall k | k in cf.Keys && p(k) ensures !Less(upper, k) { BelowBlockEnd(entity, k); }
    if n < |it| {
      InBackward(cf, upper, n);
      forall k | k in cf.Keys && (k == it[n] || Less(k, it[n])) ensures !p(k) { BlockStarts(entity, it[n], k); }
    }
    EarlyStopBackward(cf.Keys, upper, n, p);
  }

  /** Where the limit cuts the block short, the uncut block extends the page. */
  lemma {:induction false} BlockPage(cf: Cf, entity: Bytes, n: nat)
    requires |entity| == 32 && KeysOfLength(cf, 40)
    requires n <= |Backward(cf.Keys, entity + HIGHEST)|
    requires forall i :: 0 <= i < n ==> entity <= Backward(cf.Keys, entity + HIGHEST)[i]
    ensures n <= |PrefixKeys(cf, entity)|
    ensures Backward(cf.Keys, entity + HIGHEST)[..n] == Reverse(PrefixKeys(cf, entity))[..n]
    decreases |Backward(cf.Keys, entity + HIGHEST)| - n
  {
    var it := Backward(cf.Keys, entity + HIGHEST);
    if n < |it| && entity <= it[n] {
      BlockPage(cf, entity, n + 1);
      assert it[..n] == it[..n + 1][..n];
    } else {
      WholeBlock(cf, entity, n);
    }
  }

  // ---------------------------------------------------------------- scan loops

  method ScanTicks(cf: Cf, lo: u32, hi: u32) returns (r: seq<(u32, Bytes)>)
    ensures TicksOf(cf, Filter(Ascending(cf.Keys), TickIn(lo, hi)), r)
  {
    var it, p := Forward(cf.Keys, TickKey(lo)), TickIn(lo, hi);
    ForwardMembers(cf.Keys, TickKey(lo));
    r := [];
    var i := 0;
    while i < |it|
      invariant i <= |it|
      invariant TicksOf(cf, Filter(it[..i], p), r)
    {
      assert it[i] in it;
      FilterStep(it, i, p);
      if |it[i]| == 4 {
        TickAtLeast(lo, it[i]);
        var tick := ValueBE(it[i]);
        if tick > hi {
          break;
        }
        r := r + [(tick, cf[it[i]])];
      }
      i := i + 1;
    }
    TickScanStops(cf, lo, hi, i);
  }

  /** The greatest stored tick, or nothing when no tick is stored. */
  ghost predicate IsLatest(cf: Cf, latest: Option<u32>) {
    && (latest.None? <==> forall t: u32 :: TickKey(t) !in cf)
    && (latest.Some? ==> TickKey(latest.value) in cf && forall t: u32 :: TickKey(t) in cf ==> t <= latest.value)
  }

  method ScanLatest(cf: Cf) returns (latest: Option<u32>)
    ensures IsLatest(cf, latest)
  {
    var all := Ascending(cf.Keys);
    AscendingMembers(cf.Keys);
    var i := |all|;
    while i > 0
      invariant 0 <= i <= |all|
      invariant forall j :: i <= j < |all| ==> |all[j]| != 4
    {
      i := i - 1;
      if |all[i]| == 4 {
        TickAtLeast(0, all[i]);
        assert all[i] in all;
        LatestSpec(cf, i);
        return Some(ValueBE(all[i]));
      }
    }
    forall t: u32 ensures TickKey(t) !in cf {
      assert TickKey(t) !in all;
    }
    return None;
  }

  lemma {:induction false} LatestSpec(cf: Cf, i: nat)
    requires i < |Ascending(cf.Keys)| && |Ascending(cf.Keys)[i]| == 4
    requires forall j :: i < j < |Ascending(cf.Keys)| ==> |Ascending(cf.Keys)[j]| != 4
    ensures forall t: u32 :: TickKey(t) in cf ==> t <= ValueBE(Ascending(cf.Keys)[i])
  {
    var all := Ascending(cf.Keys);
    AscendingMembers(cf.Keys);
    AscendingSorted(cf.Keys);
    forall t: u32 | TickKey(t) in cf ensures t <= ValueBE(all[i]) {
      assert TickKey(t) in all;
      var j :| 0 <= j < |all| && all[j] == TickKey(t);
      TickAtLeast(t, all[i]);
      LessIsTotal(all[i], TickKey(t));
      assert j <= i;
    }
  }

  method ScanNewest(cf: Cf, entity: Bytes, limit: nat) returns (keys: seq<Bytes>)
    requires |entity| == 32 && KeysOfLength(cf, 40)
    ensures keys == Take(Reverse(PrefixKeys(cf, entity)), limit)
  {
    var upper := entity + HIGHEST;
    var it := Backward(cf.Keys, upper);
    keys := [];
    var i := 0;
    while i < |it|
      invariant i <= |it| && i <= limit
      invariant keys == it[..i]
      invariant forall j :: 0 <= j < i ==> entity <= it[j]
    {
      InBackward(cf, upper, i);
      if |it[i]| != 40 || !(entity <= it[i]) {
        break;
      }
      if |keys| >= limit {
        break;
      }
      keys := keys + [it[i]];
      i := i + 1;
    }
    if i < limit {
      WholeBlock(cf, entity, i);
    } else {
      BlockPage(cf, entity, i);
    }
  }

  lemma {:induction false} NewestValues(cf: Cf, entity: Bytes, limit: nat)
    ensures var newest := Take(Reverse(PrefixKeys(cf, entity)), limit);
            && (forall k :: k in newest ==> k in cf)
            && Values(cf, newest) == Take(Reverse(ReadPrefix(cf, entity)), limit)
  {
    PrefixKeysSpec(cf, entity);
    TakeReversed(cf, PrefixKeys(cf, entity), limit);
  }

  lemma {:induction false} TakeReversed(cf: Cf, keys: seq<Bytes>, limit: nat)
    requires forall k :: k in keys ==> k in cf
    ensures forall k :: k in Take(Reverse(keys), limit) ==> k in cf
    ensures Values(cf, Take(Reverse(keys), limit)) == Take(Reverse(Values(cf, keys)), limit)
  {
    var newest := Take(Reverse(keys), limit);
    forall k | k in newest ensures k in cf {
      var i :| 0 <= i < |newest| && newest[i] == k;
      assert keys[|keys| - 1 - i] in keys;
    }
    forall i | 0 <= i < |newest| ensures Values(cf, newest)[i] == Take(Reverse(Values(cf, keys)), limit)[i] {
      assert newest[i] == keys[|keys| - 1 - i];
    }
  }

  /** Passing one entry extends the listed ones by it, unless its value is not a hash. */
  lemma {:induction false} HistoryTurn(cf: Cf, entity: Bytes, lo: u32, hi: u32, start: Bytes, i: nat)
    requires |entity| == 32 && i < |Forward(cf.Keys, start)|
    requires start == EntityKey(entity, lo, 0) || (start == entity && lo == 0)
    requires var k := Forward(cf.Keys, start)[i]; k in cf && |k| == 40 && entity <= k && EntryTick(k) <= hi
    ensures var it := Forward(cf.Keys, start);
            ListedIn(cf, it[..i + 1], entity, lo, hi) ==
            ListedIn(cf, it[..i], entity, lo, hi) + (if |cf[it[i]]| == 32 then [it[i]] else [])
  {
    var it := Forward(cf.Keys, start);
    ForwardMembers(cf.Keys, start);
    assert it[i] in it;
    SeekedPast(entity, lo, start, it[i]);
    ListedStep(cf, it, i, entity, lo, hi);
  }

  lemma {:induction false} HistoryFull(db: Db, entity: Bytes, lo: u32, hi: u32, start: Bytes, i: nat, offset: nat, limit: nat, skipped: nat, results: seq<(u32, Bytes)>)
    requires |entity| == 32 && (start == entity || start == EntityKey(entity, lo, 0))
    requires i <= |Forward(db.txByEntity.Keys, start)|
    requires PageSoFar(db, ListedIn(db.txByEntity, Forward(db.txByEntity.Keys, start)[..i], entity, lo, hi), offset, limit, skipped, results)
    requires skipped >= offset && |results| >= limit
    ensures results == History(db, entity, lo, hi, offset, limit)
  {
    var cf := db.txByEntity;
    var it := Forward(cf.Keys, start);
    ListedSplit(cf, entity, lo, hi, start, i);
    PageFull(db, ListedIn(cf, it[..i], entity, lo, hi), ListedIn(cf, it[i..], entity, lo, hi), offset, limit, skipped, results);
  }

  /** Skips, stops or fetches for one entry whose value is a hash. */
  method PageEntry(db: Db, ghost listed: seq<Bytes>, k: Bytes, offset: nat, limit: nat, skipped: nat, results: seq<(u32, Bytes)>)
    returns (full: bool, skipped': nat, results': seq<(u32, Bytes)>)
    requires PageSoFar(db, listed, offset, limit, skipped, results)
    requires |k| == 40 && k in db.txByEntity
    ensures full <==> skipped >= offset && |results| >= limit
    ensures full ==> skipped' == skipped && results' == results
    ensures !full ==> PageSoFar(db, listed + [k], offset, limit, skipped', results')
  {
    PageStep(db, listed, k, offset, limit, skipped, results);
    full, skipped', results' := false, skipped, results;
    if skipped < offset {
      skipped' := skipped + 1;
    } else if |results| >= limit {
      full := true;
    } else if db.txByEntity[k] in db.tx {
      results' := results + [(EntryTick(k), db.tx[db.txByEntity[k]])];
    }
  }

  method ScanHistory(db: Db, entity: Bytes, lo: u32, hi: u32, start: Bytes, offset: nat, limit: nat)
    returns (results: seq<(u32, Bytes)>)
    requires |entity| == 32 && KeysOfLength(db.txByEntity, 40)
    requires start == EntityKey(entity, lo, 0) || (start == entity && lo == 0)
    ensures results == History(db, entity, lo, hi, offset, limit)
  {
    var cf := db.txByEntity;
    var it := Forward(cf.Keys, start);
    ForwardMembers(cf.Keys, start);
    results := [];
    var skipped, i := 0, 0;
    ghost var listed: seq<Bytes> := [];
    while i < |it|
      invariant i <= |it|
      invariant listed == ListedIn(cf, it[..i], entity, lo, hi)
      invariant PageSoFar(db, listed, offset, limit, skipped, results)
    {
      var k := it[i];
      assert k in it;
      if |k| != 40 || !(entity <= k) {
        break;
      }
      if EntryTick(k) > hi {
        break;
      }
      HistoryTurn(cf, entity, lo, hi, start, i);
      if |cf[k]| == 32 {
        var full;
        full, skipped, results := PageEntry(db, listed, k, offset, limit, skipped, results);
        if full {
          HistoryFull(db, entity, lo, hi, start, i, offset, limit, skipped, results);
          return;
        }
        listed := listed + [k];
      }
      i := i + 1;
    }
    HistoryStops(cf, entity, lo, hi, start, i);
  }

  // ---------------------------------------------------------------- the storage object

  datatype Put = Put(column: Column, key: Bytes, value: Bytes)

  datatype Column = TickColumn | TxColumn | TxByTickColumn | TxByEntityColumn | MetaColumn

  function Apply(db: Db, put: Put): Db {
    match put.column
    case TickColumn => db.(tick := db.tick[put.key := put.value])
    case TxColumn => db.(tx := db.tx[put.key := put.value])
    case TxByTickColumn => db.(txByTick := db.txByTick[put.key := put.value])
    case TxByEntityColumn => db.(txByEntity := db.txByEntity[put.key := put.value])
    case MetaColumn => db.(meta := db.meta[put.key := put.value])
  }

  /** The puts of a batch take effect together, later ones over earlier ones. */
  function ApplyAll(db: Db, batch: seq<Put>): Db
    decreases batch
  {
    if batch == [] then db else ApplyAll(Apply(db, batch[0]), batch[1..])
  }

  class WarmStorage {
    var db: Db

    constructor ()
      ensures db == EMPTY
    {
      db := EMPTY;
    }

    method BatchWrite(batch: seq<Put>)
      modifies this
      ensures db == ApplyAll(old(db), batch)
    {
      for i := 0 to |batch|
        invariant ApplyAll(old(db), batch) == ApplyAll(db, batch[i..])
      {
        assert batch[i..][1..] == batch[i + 1..];
        db := Apply(db, batch[i]);
      }
    }

    method PutCustomMessage(tick: u32, index: u32, data: Bytes)
      modifies this
      ensures db == old(db).(customMessage := old(db).customMessage[SlotKey(tick, index) := data])
    {
      db := db.(customMessage := db.customMessage[SlotKey(tick, index) := data]);
    }

    method PutTickVote(tick: u32, computor: u16, data: Bytes)
      modifies this
      ensures db == old(db).(tickVote := old(db).tickVote[VoteKey(tick, computor) := data])
    {
      db := db.(tickVote := db.tickVote[VoteKey(tick, computor) := data]);
    }

    /** Exactly the stored ticks in `[lo, hi]`, ascending. Keys of another length are passed over. */
    method GetTickRange(lo: u32, hi: u32) returns (r: seq<(u32, Bytes)>)
      ensures forall i, j :: 0 <= i < j < |r| ==> r[i].0 < r[j].0
      ensures forall t: u32, v: Bytes :: (t, v) in r <==> lo <= t <= hi && TickKey(t) in db.tick && db.tick[TickKey(t)] == v
    {
      r := ScanTicks(db.tick, lo, hi);
      TickRangeSpec(db.tick, lo, hi, r);
    }

    /** The greatest stored tick, found from the end. */
    method GetLatestTick() returns (latest: Option<u32>)
      ensures IsLatest(db.tick, latest)
    {
      latest := ScanLatest(db.tick);
    }

    method GetTxHashesForTick(tick: u32) returns (hashes: seq<Bytes>)
      requires KeysOfLength(db.txByTick, 8)
      ensures hashes == ReadPrefix(db.txByTick, TickKey(tick))
    {
      var keys := ScanPrefix(db.txByTick, TickKey(tick), 8);
      PrefixKeysSpec(db.txByTick, TickKey(tick));
      hashes := ReadAll(db.txByTick, keys);
    }

    method CountCustomMessagesForTick(tick: u32) returns (count: nat)
      requires KeysOfLength(db.customMessage, 8)
      ensures count == |PrefixKeys(db.customMessage, TickKey(tick))|
    {
      var keys := ScanPrefix(db.customMessage, TickKey(tick), 8);
      count := |keys|;
    }

    method GetCustomMessagesForTick(tick: u32) returns (messages: seq<Bytes>)
      requires KeysOfLength(db.customMessage, 8)
      ensures messages == ReadPrefix(db.customMessage, TickKey(tick))
    {
      var keys := ScanPrefix(db.customMessage, TickKey(tick), 8);
      PrefixKeysSpec(db.customMessage, TickKey(tick));
      messages := ReadAll(db.customMessage, keys);
    }

    method CountVotesForTick(tick: u32) returns (count: nat)
      requires KeysOfLength(db.tickVote, 6)
      ensures count == |PrefixKeys(db.tickVote, TickKey(tick))|
    {
      var keys := ScanPrefix(db.tickVote, TickKey(tick), 6);
      count := |keys|;
    }

    method CountEntityTransactions(entity: Bytes) returns (count: nat)
      requires |entity| == 32 && KeysOfLength(db.txByEntity, 40)
      ensures count == |PrefixKeys(db.txByEntity, entity)|
    {
      var keys := ScanPrefix(db.txByEntity, entity, 40);
      count := |keys|;
    }

    /** The `limit` greatest entries of the entity, greatest first. */
    method GetTxHashesForEntity(entity: Bytes, limit: nat) returns (hashes: seq<Bytes>)
      requires |entity| == 32 && KeysOfLength(db.txByEntity, 40)
      ensures hashes == Take(Reverse(ReadPrefix(db.txByEntity, entity)), limit)
    {
      var keys := ScanNewest(db.txByEntity, entity, limit);
      NewestValues(db.txByEntity, entity, limit);
      hashes := ReadAll(db.txByEntity, keys);
    }

    /** One page of an entity's history, ascending by (tick, index). */
    method GetEntityHistory(table: seq<EpochRange>, entity: Bytes, epochFilter: Option<u16>, offset: nat, limit: nat)
      returns (results: seq<(u32, Bytes)>)
      requires |entity| == 32 && KeysOfLength(db.txByEntity, 40)
      ensures results == HistoryPage(db, table, entity, epochFilter, offset, limit)
    {
      var lo: u32, hi: u32 := 0, 0xFFFF_FFFF;
      var start := entity;
      if epochFilter.Some? {
        var range := Lookup(table, epochFilter.value);
        if range.None? {
          return [];
        }
        lo, hi := range.value.firstTick, range.value.lastTick;
        start := EntityKey(entity, lo, 0);
      }
      results := ScanHistory(db, entity, lo, hi, start, offset, limit);
    }
  }
}
