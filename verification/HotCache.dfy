/** The hot tier's caches: bounded maps whose entries carry the time they were put. */
module HotCache {
  import opened Bytes
  import opened Collections

  datatype Entry<+V> = Entry(data: V, cachedAt: nat)

  /** What happens to one cache, with the clock reading each operation took. */
  datatype Op<+K, +V> = Put(key: K, data: V, now: nat) | EvictStale(now: nat, maxAge: nat)

  // ---------------------------------------------------------------- one step

  predicate Oldest<K, V>(m: map<K, Entry<V>>, k: K) {
    k in m && forall j :: j in m ==> m[k].cachedAt <= m[j].cachedAt
  }

  function Without<K, V>(m: map<K, Entry<V>>, k: K): (r: map<K, Entry<V>>)
    ensures k in m ==> |r| == |m| - 1
  {
    var r := map j | j in m && j != k :: m[j];
    assert r.Keys == m.Keys - {k};
    r
  }

  predicate Fresh<V>(e: Entry<V>, now: nat, maxAge: nat) {
    Max(now - e.cachedAt, 0) < maxAge
  }

  function Retain<K, V>(m: map<K, Entry<V>>, now: nat, maxAge: nat): map<K, Entry<V>> {
    map k | k in m && Fresh(m[k], now, maxAge) :: m[k]
  }

  predicate MustEvict<K, V>(capacity: nat, m: map<K, Entry<V>>, k: K) {
    |m| >= capacity && k !in m && |m| > 0
  }

  /** A put evicts some entry of least time when the cache is full and the key is new; ties are broken arbitrarily. */
  ghost predicate Step<K(!new), V(!new)>(capacity: nat, m: map<K, Entry<V>>, op: Op<K, V>, m': map<K, Entry<V>>) {
    match op
    case Put(k, data, now) =>
      if MustEvict(capacity, m, k) then exists victim :: Oldest(m, victim) && m' == Without(m, victim)[k := Entry(data, now)]
      else m' == m[k := Entry(data, now)]
    case EvictStale(now, maxAge) => m' == Retain(m, now, maxAge)
  }

  /** `m` can be the cache's content after the operations `ops`, from an empty cache. */
  ghost predicate Reaches<K(!new), V(!new)>(capacity: nat, ops: seq<Op<K, V>>, m: map<K, Entry<V>>) {
    if ops == [] then m == map[]
    else
      var init, op := ops[..|ops| - 1], ops[|ops| - 1];
      exists m0 :: Reaches(capacity, init, m0) && Step(capacity, m0, op, m)
  }

  lemma {:induction false} ReachesStep<K(!new), V(!new)>(capacity: nat, ops: seq<Op<K, V>>, m: map<K, Entry<V>>, op: Op<K, V>, m': map<K, Entry<V>>)
    requires Reaches(capacity, ops, m) && Step(capacity, m, op, m')
    ensures Reaches(capacity, ops + [op], m')
  {
    assert (ops + [op])[..|ops|] == ops;
  }

  // ---------------------------------------------------------------- size

  lemma {:induction false} RetainShrinks<K(!new), V(!new)>(m: map<K, Entry<V>>, now: nat, maxAge: nat)
    ensures |Retain(m, now, maxAge)| <= |m|
  {
    SubsetSize(Retain(m, now, maxAge).Keys, m.Keys);
  }

  lemma {:induction false} InsertSize<K(!new), V(!new)>(m: map<K, Entry<V>>, k: K, e: Entry<V>)
    ensures |m[k := e]| == |m| + if k in m then 0 else 1
  {
    assert m[k := e].Keys == m.Keys + {k};
  }

  lemma {:induction false} PutSize<K(!new), V(!new)>(capacity: nat, m: map<K, Entry<V>>, op: Op<K, V>, m': map<K, Entry<V>>)
    requires op.Put? && Step(capacity, m, op, m')
    ensures |m'| == |m| + if op.key in m || MustEvict(capacity, m, op.key) then 0 else 1
  {
    if MustEvict(capacity, m, op.key) {
      var victim :| Oldest(m, victim) && m' == Without(m, victim)[op.key := Entry(op.data, op.now)];
      InsertSize(Without(m, victim), op.key, Entry(op.data, op.now));
    } else {
      InsertSize(m, op.key, Entry(op.data, op.now));
    }
  }

  /** The cache never holds more than its capacity, or one entry if the capacity is zero. */
  lemma {:induction false} Bounded<K(!new), V(!new)>(capacity: nat, ops: seq<Op<K, V>>, m: map<K, Entry<V>>)
    requires Reaches(capacity, ops, m)
    ensures |m| <= Max(capacity, 1)
  {
    if ops != [] {
      var init, op := ops[..|ops| - 1], ops[|ops| - 1];
      var m0 :| Reaches(capacity, init, m0) && Step(capacity, m0, op, m);
      Bounded(capacity, init, m0);
      if op.Put? {
        PutSize(capacity, m0, op, m);
      } else {
        RetainShrinks(m0, op.now, op.maxAge);
      }
    }
  }

  /** With capacity zero a put still stores its entry. */
  lemma {:induction false} ZeroCapacityStores<K(!new), V(!new)>(ops: seq<Op<K, V>>, m: map<K, Entry<V>>)
    requires Reaches(0, ops, m) && ops != [] && ops[|ops| - 1].Put?
    ensures |m| == 1 && m.Keys == {ops[|ops| - 1].key}
  {
    var op := ops[|ops| - 1];
    Bounded(0, ops, m);
    assert op.key in m;
    assert |m.Keys - {op.key}| == 0;
    assert m.Keys == {op.key} + (m.Keys - {op.key});
  }

  /** Every run stays within the capacity. */
  ghost predicate StaysWithin<K(!new), V(!new)>(capacity: nat) {
    forall ops: seq<Op<K, V>>, m: map<K, Entry<V>> :: Reaches(capacity, ops, m) ==> |m| <= capacity
  }

  lemma {:induction false} OnePut<K(!new), V(!new)>(capacity: nat, put: Op<K, V>)
    requires put.Put?
    ensures Reaches(capacity, [put], map[put.key := Entry(put.data, put.now)])
  {
    var empty: map<K, Entry<V>> := map[];
    ReachesStep(capacity, [], empty, put, empty[put.key := Entry(put.data, put.now)]);
    assert [] + [put] == [put];
  }

  /** The cache keeps within its capacity on every run if and only if the capacity is positive. */
  lemma {:induction false} CapacityIff<K(!new), V(!new)>(capacity: nat, k: K, v: V)
    ensures StaysWithin<K, V>(capacity) <==> capacity > 0
  {
    if capacity > 0 {
      forall ops: seq<Op<K, V>>, m: map<K, Entry<V>> | Reaches(capacity, ops, m) ensures |m| <= capacity {
        Bounded(capacity, ops, m);
      }
    } else {
      OnePut(0, Put(k, v, 0));
      ZeroCapacityStores([Put(k, v, 0)], map[k := Entry(v, 0)]);
    }
  }

  // ---------------------------------------------------------------- contents

  /** The last put of a key. */
  function Latest<K(==), V>(ops: seq<Op<K, V>>, k: K): Option<Entry<V>> {
    if ops == [] then None
    else
      var op := ops[|ops| - 1];
      if op.Put? && op.key == k then Some(Entry(op.data, op.now)) else Latest(ops[..|ops| - 1], k)
  }

  /** Every cached entry is the latest put for its key, whatever the clock readings. */
  lemma {:induction false} HoldsLatest<K(!new), V(!new)>(capacity: nat, ops: seq<Op<K, V>>, m: map<K, Entry<V>>, k: K)
    requires Reaches(capacity, ops, m) && k in m
    ensures Latest(ops, k) == Some(m[k])
  {
    if ops != [] {
      var init, op := ops[..|ops| - 1], ops[|ops| - 1];
      var m0 :| Reaches(capacity, init, m0) && Step(capacity, m0, op, m);
      if !(op.Put? && op.key == k) {
        assert k in m0 && m[k] == m0[k];
        HoldsLatest(capacity, init, m0, k);
      }
    }
  }

  // ---------------------------------------------------------------- recency

  /** Every put reads a later clock than all puts before it. */
  ghost predicate Increasing<K(!new), V(!new)>(ops: seq<Op<K, V>>) {
    forall i, j :: 0 <= i < j < |ops| && ops[i].Put? && ops[j].Put? ==> ops[i].now < ops[j].now
  }

  function Remove<K(==)>(s: seq<K>, k: K): seq<K> {
    if s == [] then [] else if s[0] == k then Remove(s[1..], k) else [s[0]] + Remove(s[1..], k)
  }

  /** The distinct keys ever put, the most recently put first. */
  function Recency<K(==), V>(ops: seq<Op<K, V>>): seq<K> {
    if ops == [] then []
    else
      var op, rest := ops[|ops| - 1], Recency(ops[..|ops| - 1]);
      if op.Put? then [op.key] + Remove(rest, op.key) else rest
  }

  /** When a key was last put; 0 if never. */
  function LastPut<K(==), V>(ops: seq<Op<K, V>>, k: K): nat {
    match Latest(ops, k)
    case Some(e) => e.cachedAt
    case None => 0
  }

  ghost predicate Descending<K(!new)>(s: seq<K>, time: K -> nat) {
    forall i, j :: 0 <= i < j < |s| ==> time(s[i]) > time(s[j])
  }

  /** A set that holds, with each of its keys, every key of the list put later. */
  ghost predicate UpClosed<K(!new)>(s: seq<K>, keys: set<K>, time: K -> nat) {
    && (forall k :: k in keys ==> k in s)
    && (forall x, y :: x in keys && y in s && time(y) > time(x) ==> y in keys)
  }

  ghost predicate SameMembers<K(!new)>(a: seq<K>, keys: set<K>) {
    forall k :: k in a <==> k in keys
  }

  lemma {:induction false} FirstIsIn<K(!new)>(s: seq<K>, keys: set<K>, time: K -> nat)
    requires Descending(s, time) && UpClosed(s, keys, time) && keys != {}
    ensures s != [] && s[0] in keys
  {
    var x :| x in keys;
    var i :| 0 <= i < |s| && s[i] == x;
    assert i > 0 ==> time(s[0]) > time(s[i]);
  }

  lemma {:induction false} TailUpClosed<K(!new)>(s: seq<K>, keys: set<K>, time: K -> nat)
    requires Descending(s, time) && UpClosed(s, keys, time) && s != []
    ensures Descending(s[1..], time) && UpClosed(s[1..], keys - {s[0]}, time)
  {
    var t := s[1..];
    forall k | k in keys - {s[0]} ensures k in t {
      assert s == [s[0]] + t;
    }
    forall x, y | x in keys - {s[0]} && y in t && time(y) > time(x) ensures y in keys - {s[0]} {
      var i :| 0 <= i < |t| && t[i] == y;
      assert s[i + 1] == y && time(s[0]) > time(s[i + 1]);
    }
  }

  lemma {:induction false} PrefixCons<K(!new)>(s: seq<K>, rest: set<K>)
    requires s != [] && s[0] !in rest && |rest| < |s| && SameMembers(s[1..][..|rest|], rest)
    ensures SameMembers(s[..|rest| + 1], rest + {s[0]})
  {
    assert s[..|rest| + 1] == [s[0]] + s[1..][..|rest|];
  }

  /** In a strictly ordered list such a set is the first part. */
  lemma {:induction false} ClosedIsPrefix<K(!new)>(s: seq<K>, keys: set<K>, time: K -> nat)
    requires Descending(s, time) && UpClosed(s, keys, time)
    ensures |keys| <= |s| && SameMembers(s[..|keys|], keys)
  {
    if keys != {} {
      FirstIsIn(s, keys, time);
      var rest := keys - {s[0]};
      TailUpClosed(s, keys, time);
      ClosedIsPrefix(s[1..], rest, time);
      PrefixCons(s, rest);
      assert keys == rest + {s[0]};
    }
  }

  lemma {:induction false} RemoveMembers<K(!new)>(s: seq<K>, k: K)
    ensures forall x :: x in Remove(s, k) <==> x in s && x != k
  {
    if s != [] {
      RemoveMembers(s[1..], k);
      assert s == [s[0]] + s[1..];
    }
  }

  lemma {:induction false} RemoveDescending<K(!new)>(s: seq<K>, k: K, time: K -> nat, later: K -> nat)
    requires Descending(s, time) && forall x :: x in s && x != k ==> later(x) == time(x)
    ensures Descending(Remove(s, k), later)
  {
    if s != [] {
      RemoveDescending(s[1..], k, time, later);
      RemoveMembers(s[1..], k);
      if s[0] != k {
        ConsDescending(s[0], Remove(s[1..], k), later);
      }
    }
  }

  lemma {:induction false} ConsDescending<K(!new)>(k: K, s: seq<K>, time: K -> nat)
    requires Descending(s, time) && forall x :: x in s ==> time(k) > time(x)
    ensures Descending([k] + s, time)
  {
  }

  lemma {:induction false} LatestWasPut<K(!new), V(!new)>(ops: seq<Op<K, V>>, k: K) returns (i: nat)
    requires Latest(ops, k).Some?
    ensures i < |ops| && ops[i] == Put(k, Latest(ops, k).value.data, LastPut(ops, k))
  {
    var op := ops[|ops| - 1];
    if op.Put? && op.key == k {
      i := |ops| - 1;
    } else {
      i := LatestWasPut(ops[..|ops| - 1], k);
    }
  }

  /** The newest put is later than every other key's last one. */
  lemma {:induction false} NewestIsLatest<K(!new), V(!new)>(ops: seq<Op<K, V>>, k: K)
    requires Increasing(ops) && ops != [] && ops[|ops| - 1].Put? && Latest(ops[..|ops| - 1], k).Some?
    ensures LastPut(ops[..|ops| - 1], k) < ops[|ops| - 1].now
  {
    var i := LatestWasPut(ops[..|ops| - 1], k);
    assert ops[i] == ops[..|ops| - 1][i];
  }

  lemma {:induction false} RecencyMembers<K(!new), V(!new)>(ops: seq<Op<K, V>>, k: K)
    ensures k in Recency(ops) <==> Latest(ops, k).Some?
  {
    if ops != [] {
      var init, op := ops[..|ops| - 1], ops[|ops| - 1];
      RecencyMembers(init, k);
      if op.Put? { RemoveMembers(Recency(init), op.key); }
    }
  }

  /** The recency list is ordered by the time of the last put, latest first; so it has no duplicates. */
  lemma {:induction false} RecencyDescends<K(!new), V(!new)>(ops: seq<Op<K, V>>)
    requires Increasing(ops)
    ensures Descending(Recency(ops), k => LastPut(ops, k))
  {
    if ops != [] {
      var init, op := ops[..|ops| - 1], ops[|ops| - 1];
      RecencyDescends(init);
      if op.Put? {
        var time := k => LastPut(init, k);
        var later := k => LastPut(ops, k);
        var r := Remove(Recency(init), op.key);
        RemoveDescending(Recency(init), op.key, time, later);
        RemoveMembers(Recency(init), op.key);
        forall x | x in r ensures later(op.key) > later(x) {
          RecencyMembers(init, x);
          NewestIsLatest(ops, x);
        }
        ConsDescending(op.key, r, later);
      } else {
        assert forall k :: LastPut(ops, k) == LastPut(init, k);
      }
    }
  }

  /** What a put keeps: nothing evicted was put later than something kept. */
  lemma {:induction false} PutKeepsLater<K(!new), V(!new)>(capacity: nat, ops: seq<Op<K, V>>, m0: map<K, Entry<V>>, m: map<K, Entry<V>>, x: K, y: K)
    requires ops != [] && ops[|ops| - 1].Put? && Increasing(ops)
    requires Reaches(capacity, ops[..|ops| - 1], m0) && Step(capacity, m0, ops[|ops| - 1], m)
    requires x in m && Latest(ops, y).Some? && LastPut(ops, y) > LastPut(ops, x)
    requires x in m0 && y != ops[|ops| - 1].key ==> y in m0
    ensures y in m
  {
    var init, op := ops[..|ops| - 1], ops[|ops| - 1];
    if y != op.key {
      if x == op.key {
        NewestIsLatest(ops, y);
        assert false;
      }
      HoldsLatest(capacity, init, m0, x);
      HoldsLatest(capacity, init, m0, y);
    }
  }

  lemma {:induction false} KeepsLater<K(!new), V(!new)>(capacity: nat, ops: seq<Op<K, V>>, m: map<K, Entry<V>>, x: K, y: K)
    requires Reaches(capacity, ops, m) && Increasing(ops)
    requires x in m && Latest(ops, y).Some? && LastPut(ops, y) > LastPut(ops, x)
    ensures y in m
  {
    var init, op := ops[..|ops| - 1], ops[|ops| - 1];
    var m0 :| Reaches(capacity, init, m0) && Step(capacity, m0, op, m);
    if op.Put? {
      if x in m0 && x != op.key && y != op.key {
        KeepsLater(capacity, init, m0, x, y);
      }
      if x == op.key && y != op.key {
        NewestIsLatest(ops, y);
      } else {
        PutKeepsLater(capacity, ops, m0, m, x, y);
      }
    } else {
      KeepsLater(capacity, init, m0, x, y);
      HoldsLatest(capacity, init, m0, x);
      HoldsLatest(capacity, init, m0, y);
    }
  }

  /**
   * With a strictly increasing clock, across any mix of puts, overwrites and evictions, the
   * cached keys are the most recently put distinct keys.
   */
  lemma {:induction false} HoldsMostRecent<K(!new), V(!new)>(capacity: nat, ops: seq<Op<K, V>>, m: map<K, Entry<V>>)
    requires Reaches(capacity, ops, m) && Increasing(ops)
    ensures |m| <= |Recency(ops)| && SameMembers(Recency(ops)[..|m|], m.Keys)
  {
    var r, time := Recency(ops), (k: K) => LastPut(ops, k);
    RecencyDescends(ops);
    forall k | k in m.Keys ensures k in r {
      HoldsLatest(capacity, ops, m, k);
      RecencyMembers(ops, k);
    }
    forall x, y | x in m.Keys && y in r && time(y) > time(x) ensures y in m.Keys {
      RecencyMembers(ops, y);
      KeepsLater(capacity, ops, m, x, y);
    }
    ClosedIsPrefix(r, m.Keys, time);
  }

  // ---------------------------------------------------------------- nothing is dropped without need

  /** A put with room left, or of a key that is cached, keeps every other entry. */
  lemma {:induction false} RoomKeepsAll<K(!new), V(!new)>(capacity: nat, m: map<K, Entry<V>>, k: K, data: V, now: nat, m': map<K, Entry<V>>)
    requires Step(capacity, m, Put(k, data, now), m')
    requires |m| < capacity || k in m || m == map[]
    ensures m' == m[k := Entry(data, now)]
  {
  }

  /** A put of a new key into a full cache drops one entry, of least time, and no other. */
  lemma {:induction false} FullDropsOldest<K(!new), V(!new)>(capacity: nat, m: map<K, Entry<V>>, k: K, data: V, now: nat, m': map<K, Entry<V>>)
    returns (victim: K)
    requires Step(capacity, m, Put(k, data, now), m')
    requires |m| >= capacity && k !in m && m != map[]
    ensures victim in m && forall j :: j in m ==> m[victim].cachedAt <= m[j].cachedAt
    ensures m'.Keys == m.Keys - {victim} + {k} && m'[k] == Entry(data, now)
    ensures forall j :: j in m && j != victim ==> m'[j] == m[j]
  {
    assert MustEvict(capacity, m, k);
    victim :| Oldest(m, victim) && m' == Without(m, victim)[k := Entry(data, now)];
  }

  /** `evict_stale` keeps exactly the entries younger than the age, unchanged; an entry from the future has age 0. */
  lemma {:induction false} StaleIff<K(!new), V(!new)>(capacity: nat, m: map<K, Entry<V>>, now: nat, maxAge: nat, m': map<K, Entry<V>>, k: K)
    requires Step(capacity, m, Op.EvictStale(now, maxAge), m')
    ensures k in m' <==> k in m && 0 < maxAge && now < m[k].cachedAt + maxAge
    ensures k in m' ==> m'[k] == m[k]
  {
  }

  ghost predicate PutsOnly<K, V>(ops: seq<Op<K, V>>) {
    forall i :: 0 <= i < |ops| ==> ops[i].Put?
  }

  lemma {:induction false} RemoveLength<K(!new)>(s: seq<K>, k: K, time: K -> nat)
    requires Descending(s, time)
    ensures |Remove(s, k)| == |s| - if k in s then 1 else 0
  {
    if s != [] {
      RemoveLength(s[1..], k, time);
      assert s == [s[0]] + s[1..];
      forall i | 1 <= i < |s| ensures s[i] != s[0] { assert time(s[0]) > time(s[i]); }
      assert s[0] !in s[1..];
    }
  }

  /** Without stale evictions the cache is as full as it can be: all distinct keys put, up to the capacity. */
  lemma {:induction false} PutsFill<K(!new), V(!new)>(capacity: nat, ops: seq<Op<K, V>>, m: map<K, Entry<V>>)
    requires Reaches(capacity, ops, m) && Increasing(ops) && PutsOnly(ops) && capacity > 0
    ensures |m| == Min(capacity, |Recency(ops)|)
  {
    if ops != [] {
      var init, op := ops[..|ops| - 1], ops[|ops| - 1];
      var m0 :| Reaches(capacity, init, m0) && Step(capacity, m0, op, m);
      PutsFill(capacity, init, m0);
      PutSize(capacity, m0, op, m);
      RecencyGrows(ops);
      HoldsMostRecent(capacity, init, m0);
      CachedIsSeen(Recency(init), m0.Keys, op.key);
    }
  }

  lemma {:induction false} RecencyGrows<K(!new), V(!new)>(ops: seq<Op<K, V>>)
    requires Increasing(ops) && ops != [] && ops[|ops| - 1].Put?
    ensures var init, k := Recency(ops[..|ops| - 1]), ops[|ops| - 1].key; |Recency(ops)| == |init| + if k in init then 0 else 1
  {
    var init := ops[..|ops| - 1];
    RecencyDescends(init);
    RemoveLength(Recency(init), ops[|ops| - 1].key, k => LastPut(init, k));
  }

  lemma {:induction false} CachedIsSeen<K(!new)>(seen: seq<K>, keys: set<K>, k: K)
    requires |keys| <= |seen| && SameMembers(seen[..|keys|], keys)
    ensures k in keys ==> k in seen
    ensures |keys| == |seen| ==> (k in keys <==> k in seen)
  {
    if k in keys { assert k in seen[..|keys|]; }
    if |keys| == |seen| { assert seen[..|keys|] == seen; }
  }

  /** With a strictly increasing clock a cache that only saw puts holds exactly the min(capacity, distinct keys) most recent keys. */
  lemma {:induction false} PutsHoldMostRecent<K(!new), V(!new)>(capacity: nat, ops: seq<Op<K, V>>, m: map<K, Entry<V>>)
    requires Reaches(capacity, ops, m) && Increasing(ops) && PutsOnly(ops) && capacity > 0
    ensures SameMembers(Recency(ops)[..Min(capacity, |Recency(ops)|)], m.Keys)
  {
    PutsFill(capacity, ops, m);
    HoldsMostRecent(capacity, ops, m);
  }

  /** The other keys put since a key was last put. */
  function PutSince<K(==), V>(ops: seq<Op<K, V>>, k: K): set<K> {
    if ops == [] then {}
    else
      var init, op := ops[..|ops| - 1], ops[|ops| - 1];
      if op.EvictStale? then PutSince(init, k) else if op.key == k then {} else PutSince(init, k) + {op.key}
  }

  /** Some eviction since found the key's last put too old. */
  predicate AgedSince<K(==), V>(ops: seq<Op<K, V>>, k: K) {
    if ops == [] then false
    else
      var init, op := ops[..|ops| - 1], ops[|ops| - 1];
      if op.Put? then op.key != k && AgedSince(init, k)
      else AgedSince(init, k) || op.maxAge == 0 || op.now >= LastPut(init, k) + op.maxAge
  }

  /** A key whose last put was found too old is gone. */
  lemma {:induction false} AgedIsGone<K(!new), V(!new)>(capacity: nat, ops: seq<Op<K, V>>, m: map<K, Entry<V>>, k: K)
    requires Reaches(capacity, ops, m) && AgedSince(ops, k)
    ensures k !in m
  {
    var init, op := ops[..|ops| - 1], ops[|ops| - 1];
    var m0 :| Reaches(capacity, init, m0) && Step(capacity, m0, op, m);
    if AgedSince(init, k) {
      AgedIsGone(capacity, init, m0, k);
    } else if k in m0 {
      HoldsLatest(capacity, init, m0, k);
    }
  }

  /** Keys cached beside `k` with a later time were put after it. */
  lemma {:induction false} LaterWasPutSince<K(!new), V(!new)>(ops: seq<Op<K, V>>, k: K, j: K)
    requires Increasing(ops) && Latest(ops, k).Some? && Latest(ops, j).Some? && j != k && LastPut(ops, j) >= LastPut(ops, k)
    ensures j in PutSince(ops, k)
  {
    var init, op := ops[..|ops| - 1], ops[|ops| - 1];
    if op.Put? && op.key == k {
      NewestIsLatest(ops, j);
      assert false;
    } else if !(op.Put? && op.key == j) {
      LaterWasPutSince(init, k, j);
    }
  }

  /** The put that drops a key finds the cache full of keys put since. */
  lemma {:induction false} VictimIsOld<K(!new), V(!new)>(capacity: nat, ops: seq<Op<K, V>>, m0: map<K, Entry<V>>, m: map<K, Entry<V>>, k: K)
    requires ops != [] && Increasing(ops) && ops[|ops| - 1].Put?
    requires Reaches(capacity, ops[..|ops| - 1], m0) && Step(capacity, m0, ops[|ops| - 1], m)
    requires k in m0 && k !in m
    ensures |PutSince(ops, k)| >= capacity
  {
    var init, op := ops[..|ops| - 1], ops[|ops| - 1];
    assert Increasing(init);
    assert MustEvict(capacity, m0, op.key) && Oldest(m0, k);
    HoldsLatest(capacity, init, m0, k);
    forall j | j in m0.Keys - {k} ensures j in PutSince(init, k) {
      HoldsLatest(capacity, init, m0, j);
      LaterWasPutSince(init, k, j);
    }
    var others := m0.Keys - {k} + {op.key};
    assert |others| == |m0|;
    SubsetSize(others, PutSince(ops, k));
  }

  /**
   * Why a key that was put is not cached: some eviction since found it too old, or at least as many
   * other keys as the capacity were put since.
   */
  lemma {:induction false} AbsentForAReason<K(!new), V(!new)>(capacity: nat, ops: seq<Op<K, V>>, m: map<K, Entry<V>>, k: K)
    requires Reaches(capacity, ops, m) && Increasing(ops) && Latest(ops, k).Some? && k !in m
    ensures AgedSince(ops, k) || |PutSince(ops, k)| >= capacity
  {
    var init, op := ops[..|ops| - 1], ops[|ops| - 1];
    var m0 :| Reaches(capacity, init, m0) && Step(capacity, m0, op, m);
    assert Increasing(init);
    if k !in m0 {
      AbsentForAReason(capacity, init, m0, k);
      if op.Put? { SubsetSize(PutSince(init, k), PutSince(ops, k)); }
    } else if op.Put? {
      VictimIsOld(capacity, ops, m0, m, k);
    } else {
      HoldsLatest(capacity, init, m0, k);
    }
  }

  // ---------------------------------------------------------------- the cache object

  /** The first key of least time in some iteration order. */
  method OldestKey<K(==, !new), V(!new)>(m: map<K, Entry<V>>) returns (oldest: K)
    requires |m| > 0
    ensures Oldest(m, oldest)
  {
    var rest := m.Keys;
    oldest :| oldest in rest;
    rest := rest - {oldest};
    while rest != {}
      invariant rest <= m.Keys && oldest in m
      invariant forall k :: k in m && k !in rest ==> m[oldest].cachedAt <= m[k].cachedAt
      decreases rest
    {
      var k :| k in rest;
      if m[k].cachedAt < m[oldest].cachedAt {
        oldest := k;
      }
      rest := rest - {k};
    }
  }

  /** The eviction and insertion of `put_tick` and `put_entity`. */
  method Insert<K(==, !new), V(!new)>(capacity: nat, m: map<K, Entry<V>>, key: K, data: V, now: nat) returns (m': map<K, Entry<V>>)
    ensures Step(capacity, m, Put(key, data, now), m')
  {
    m' := m;
    if |m| >= capacity && key !in m {
      if |m| > 0 {
        var oldest := OldestKey(m);
        m' := Without(m, oldest);
      }
    }
    m' := m'[key := Entry(data, now)];
  }

  class HotCache {
    var ticks: map<u32, Entry<Bytes>>
    var entities: map<Bytes, Entry<Bytes>>
    const maxTicks: nat
    const maxEntities: nat
    ghost var tickOps: seq<Op<u32, Bytes>>
    ghost var entityOps: seq<Op<Bytes, Bytes>>

    /** The contents are those of a run of the operations so far. */
    ghost predicate Valid() reads this {
      Reaches(maxTicks, tickOps, ticks) && Reaches(maxEntities, entityOps, entities)
    }

    constructor (maxTicks: nat, maxEntities: nat)
      ensures Valid() && tickOps == [] && entityOps == []
      ensures this.maxTicks == maxTicks && this.maxEntities == maxEntities
    {
      this.maxTicks, this.maxEntities := maxTicks, maxEntities;
      ticks, entities, tickOps, entityOps := map[], map[], [], [];
    }

    /** An answer is always the latest data put for the tick. */
    method GetTick(tick: u32) returns (data: Option<Bytes>)
      requires Valid()
      ensures data == if tick in ticks then Some(ticks[tick].data) else None
      ensures data.Some? ==> Latest(tickOps, tick).Some? && data.value == Latest(tickOps, tick).value.data
    {
      if tick in ticks {
        HoldsLatest(maxTicks, tickOps, ticks, tick);
        return Some(ticks[tick].data);
      }
      data := None;
    }

    method GetEntity(identity: Bytes) returns (data: Option<Bytes>)
      requires Valid()
      ensures data == if identity in entities then Some(entities[identity].data) else None
      ensures data.Some? ==> Latest(entityOps, identity).Some? && data.value == Latest(entityOps, identity).value.data
    {
      if identity in entities {
        HoldsLatest(maxEntities, entityOps, entities, identity);
        return Some(entities[identity].data);
      }
      data := None;
    }

    method PutTick(tick: u32, data: Bytes, now: nat)
      requires Valid()
      modifies this`ticks, this`tickOps
      ensures Valid() && tickOps == old(tickOps) + [Put(tick, data, now)]
      ensures Step(maxTicks, old(ticks), Put(tick, data, now), ticks)
      ensures tick in ticks && |ticks| <= Max(maxTicks, 1)
    {
      var next := Insert(maxTicks, ticks, tick, data, now);
      ReachesStep(maxTicks, tickOps, ticks, Put(tick, data, now), next);
      ticks, tickOps := next, tickOps + [Put(tick, data, now)];
      Bounded(maxTicks, tickOps, ticks);
    }

    method PutEntity(identity: Bytes, data: Bytes, now: nat)
      requires Valid()
      modifies this`entities, this`entityOps
      ensures Valid() && entityOps == old(entityOps) + [Put(identity, data, now)]
      ensures Step(maxEntities, old(entities), Put(identity, data, now), entities)
      ensures identity in entities && |entities| <= Max(maxEntities, 1)
    {
      var next := Insert(maxEntities, entities, identity, data, now);
      ReachesStep(maxEntities, entityOps, entities, Put(identity, data, now), next);
      entities, entityOps := next, entityOps + [Put(identity, data, now)];
      Bounded(maxEntities, entityOps, entities);
    }

    method EvictStale(now: nat, maxAge: nat)
      requires Valid()
      modifies this`ticks, this`tickOps, this`entities, this`entityOps
      ensures Valid()
      ensures tickOps == old(tickOps) + [Op.EvictStale(now, maxAge)]
      ensures entityOps == old(entityOps) + [Op.EvictStale(now, maxAge)]
      ensures forall t :: t in ticks <==> t in old(ticks) && Fresh(old(ticks)[t], now, maxAge)
      ensures forall e :: e in entities <==> e in old(entities) && Fresh(old(entities)[e], now, maxAge)
    {
      ReachesStep(maxTicks, tickOps, ticks, Op.EvictStale(now, maxAge), Retain(ticks, now, maxAge));
      ReachesStep(maxEntities, entityOps, entities, Op.EvictStale(now, maxAge), Retain(entities, now, maxAge));
      ticks, entities := Retain(ticks, now, maxAge), Retain(entities, now, maxAge);
      tickOps, entityOps := tickOps + [Op.EvictStale(now, maxAge)], entityOps + [Op.EvictStale(now, maxAge)];
    }
  }
}
