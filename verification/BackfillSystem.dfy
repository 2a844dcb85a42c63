/** The partition of the tick range, and all workers running interleaved over shared counters. */
module BackfillSystem {
  import opened Bytes
  import opened Backfill
  import opened BackfillLaws
  import opened BackfillWorkers

  // ---------------------------------------------------------------- partition

  datatype Range = Range(lo: u32, hi: u32)

  /** The range of one worker, in u32 arithmetic. */
  function WorkerRange(start: u32, end: u32, workers: nat, chunk: nat, id: nat): Range {
    Range(
      (start + id * chunk) % 0x1_0000_0000,
      if id + 1 == workers then end else Min((start + (id + 1) * chunk) % 0x1_0000_0000, end))
  }

  function Assignment(start: u32, end: u32, workers: nat, chunk: nat): nat -> Range {
    (id: nat) => WorkerRange(start, end, workers, chunk, id)
  }

  /** The non-empty ranges of the first `n` workers. */
  function NonEmpty(f: nat -> Range, n: nat): seq<Range> {
    if n == 0 then [] else NonEmpty(f, n - 1) + if f(n - 1).lo < f(n - 1).hi then [f(n - 1)] else []
  }

  /** The ranges that are handed to workers. */
  function Ranges(start: u32, end: u32, workers: nat, chunk: nat): seq<Range> {
    NonEmpty(Assignment(start, end, workers, chunk), workers)
  }

  method Partition(start: u32, end: u32, workers: nat, chunk: nat) returns (ranges: seq<Range>)
    ensures ranges == Ranges(start, end, workers, chunk)
  {
    ranges := [];
    for id := 0 to workers
      invariant ranges == NonEmpty(Assignment(start, end, workers, chunk), id)
    {
      var r := WorkerRange(start, end, workers, chunk, id);
      if r.lo < r.hi {
        ranges := ranges + [r];
      }
    }
  }

  /** The chunk of the tick phase; the transaction phase divides another count the same way. */
  function Chunk(total: nat, workers: nat): nat
    requires workers >= 1
  {
    Max(total / workers, 1)
  }

  function Owners(ranges: seq<Range>, t: u32): nat {
    if ranges == [] then 0
    else
      var r := ranges[|ranges| - 1];
      Owners(ranges[..|ranges| - 1], t) + if r.lo <= t < r.hi then 1 else 0
  }

  /** The ranges are disjoint and their union is `[start, end)`. */
  ghost predicate Tiles(ranges: seq<Range>, start: u32, end: u32) {
    forall t: u32 :: Owners(ranges, t) == if start <= t < end then 1 else 0
  }

  /** Non-empty ranges that follow on from each other, from `a` to `b`. */
  ghost predicate Chain(ranges: seq<Range>, a: int, b: int) {
    if ranges == [] then a == b
    else
      var r := ranges[|ranges| - 1];
      r.lo < r.hi == b && Chain(ranges[..|ranges| - 1], a, r.lo)
  }

  lemma {:induction false} ChainTiles(ranges: seq<Range>, a: u32, b: u32, t: u32)
    requires Chain(ranges, a, b)
    ensures a <= b
    ensures Owners(ranges, t) == if a <= t < b then 1 else 0
  {
    if ranges != [] {
      ChainTiles(ranges[..|ranges| - 1], a, ranges[|ranges| - 1].lo, t);
    }
  }

  lemma {:induction false} ChainSnoc(ranges: seq<Range>, r: Range, a: int)
    requires Chain(ranges, a, r.lo) && r.lo < r.hi
    ensures Chain(ranges + [r], a, r.hi)
  {
    assert (ranges + [r])[..|ranges|] == ranges;
  }

  lemma {:induction false} TimesMonotone(a: nat, b: nat, c: nat)
    requires a <= b
    ensures a * c <= b * c
  {
  }

  lemma {:induction false} TimesNext(a: nat, c: nat)
    ensures (a + 1) * c == a * c + c
  {
  }

  lemma {:induction false} NoWrap(x: nat)
    requires x < 0x1_0000_0000
    ensures x % 0x1_0000_0000 == x
  {
  }

  /** Within u32, a worker's range starts where the previous one's chunk ends. */
  lemma {:induction false} RangeNoWrap(start: u32, end: u32, workers: nat, chunk: nat, id: nat, offset: nat)
    requires id < workers && offset == id * chunk
    requires start + (if id + 1 < workers then offset + chunk else offset) < 0x1_0000_0000
    ensures WorkerRange(start, end, workers, chunk, id)
         == Range(start + offset, if id + 1 == workers then end else Min(start + offset + chunk, end))
  {
    NoWrap(start + offset);
    if id + 1 < workers {
      TimesNext(id, chunk);
      NoWrap(start + (id + 1) * chunk);
    }
  }

  lemma {:induction false} ChainStep(ranges: seq<Range>, start: u32, end: u32, chunk: nat, offset: nat, last: bool, r: Range)
    requires start < end && start + offset < 0x1_0000_0000
    requires Chain(ranges, start, Min(start + offset, end))
    requires r == Range(start + offset, if last then end else Min(start + offset + chunk, end))
    ensures Chain(ranges + (if r.lo < r.hi then [r] else []), start, if last then end else Min(start + offset + chunk, end))
  {
    if r.lo < r.hi {
      ChainSnoc(ranges, r, start);
    } else {
      assert ranges + [] == ranges;
    }
  }

  /** The end of the chain after `n` workers. */
  function ChainEnd(start: u32, end: u32, workers: nat, n: nat, offset: nat): int {
    if n == workers then end else Min(start + offset, end)
  }

  lemma {:induction false} PartitionStep(f: nat -> Range, start: u32, end: u32, workers: nat, chunk: nat, id: nat, offset: nat)
    requires start < end && id < workers && start + offset < 0x1_0000_0000
    requires f(id) == Range(start + offset, if id + 1 == workers then end else Min(start + offset + chunk, end))
    requires Chain(NonEmpty(f, id), start, Min(start + offset, end))
    ensures Chain(NonEmpty(f, id + 1), start, ChainEnd(start, end, workers, id + 1, offset + chunk))
  {
    ChainStep(NonEmpty(f, id), start, end, chunk, offset, id + 1 == workers, f(id));
  }

  lemma {:induction false} OffsetStep(n: nat, chunk: nat, offset: nat)
    requires n >= 1 && offset == n * chunk
    ensures offset >= chunk && offset - chunk == (n - 1) * chunk
  {
    TimesNext(n - 1, chunk);
  }

  /** As far as the arithmetic stays within u32, the first `n` ranges follow on from each other. */
  lemma {:induction false} PartitionChain(start: u32, end: u32, workers: nat, chunk: nat, n: nat, offset: nat)
    requires start < end && workers >= 1 && n <= workers && offset == n * chunk
    requires start + (if n < workers then offset else offset - chunk) < 0x1_0000_0000
    ensures Chain(NonEmpty(Assignment(start, end, workers, chunk), n), start, ChainEnd(start, end, workers, n, offset))
  {
    if n > 0 {
      OffsetStep(n, chunk, offset);
      PartitionChain(start, end, workers, chunk, n - 1, offset - chunk);
      RangeNoWrap(start, end, workers, chunk, n - 1, offset - chunk);
      PartitionStep(Assignment(start, end, workers, chunk), start, end, workers, chunk, n - 1, offset - chunk);
    }
  }

  lemma {:induction false} ChainIsTiling(ranges: seq<Range>, start: u32, end: u32)
    requires Chain(ranges, start, end)
    ensures Tiles(ranges, start, end)
  {
    forall t: u32 ensures Owners(ranges, t) == if start <= t < end then 1 else 0 {
      ChainTiles(ranges, start, end, t);
    }
  }

  /** As long as the worker starts do not wrap around u32, the ranges tile `[start, end)`. */
  lemma {:induction false} PartitionTiles(start: u32, end: u32, workers: nat, chunk: nat)
    requires start < end && workers >= 1
    requires start + (workers - 1) * chunk < 0x1_0000_0000
    ensures Tiles(Ranges(start, end, workers, chunk), start, end)
  {
    OffsetStep(workers, chunk, workers * chunk);
    PartitionChain(start, end, workers, chunk, workers, workers * chunk);
    ChainIsTiling(Ranges(start, end, workers, chunk), start, end);
  }

  /** How many of the first `n` workers are assigned tick `t`. */
  function Claims(f: nat -> Range, n: nat, t: u32): nat {
    if n == 0 then 0 else Claims(f, n - 1, t) + if f(n - 1).lo <= t < f(n - 1).hi then 1 else 0
  }

  lemma {:induction false} OwnersSnoc(rs: seq<Range>, r: Range, t: u32)
    ensures Owners(rs + [r], t) == Owners(rs, t) + if r.lo <= t < r.hi then 1 else 0
  {
    assert (rs + [r])[..|rs|] == rs;
  }

  lemma {:induction false} OwnersAreClaims(f: nat -> Range, n: nat, t: u32)
    ensures Owners(NonEmpty(f, n), t) == Claims(f, n, t)
  {
    if n > 0 {
      OwnersAreClaims(f, n - 1, t);
      OwnersSnoc(NonEmpty(f, n - 1), f(n - 1), t);
      if f(n - 1).lo >= f(n - 1).hi { assert NonEmpty(f, n) == NonEmpty(f, n - 1); }
    }
  }

  lemma {:induction false} ClaimsGrow(f: nat -> Range, n: nat, m: nat, t: u32)
    requires n <= m
    ensures Claims(f, n, t) <= Claims(f, m, t)
    decreases m
  {
    if n < m { ClaimsGrow(f, n, m - 1, t); }
  }

  // ---------------------------------------------------------------- wrap-around

  predicate Idle(r: Range) {
    r.lo >= r.hi
  }

  /** The start of worker `id`, before it is cut to 32 bits. */
  function Start64(start: u32, chunk: nat, id: nat): nat {
    start + id * chunk
  }

  /** Every worker whose start wraps around u32 gets an empty range. */
  ghost predicate WrappedAreIdle(start: u32, end: u32, workers: nat, chunk: nat) {
    forall id: nat :: id < workers && Start64(start, chunk, id) >= 0x1_0000_0000 ==> Idle(WorkerRange(start, end, workers, chunk, id))
  }

  lemma {:induction false} FirstWrap(start: u32, chunk: nat, n: nat) returns (j: nat)
    requires start + n * chunk >= 0x1_0000_0000
    ensures 0 < j <= n
    ensures start + (j - 1) * chunk < 0x1_0000_0000 <= start + j * chunk
  {
    if n == 0 || start + (n - 1) * chunk < 0x1_0000_0000 {
      j := n;
    } else {
      j := FirstWrap(start, chunk, n - 1);
    }
  }

  lemma {:induction false} CutStep(x: nat, lo: nat, chunk: nat)
    requires x % 0x1_0000_0000 == lo && chunk < 0x1_0000_0000
    ensures (x + chunk) % 0x1_0000_0000 == if lo + chunk < 0x1_0000_0000 then lo + chunk else lo + chunk - 0x1_0000_0000
  {
    var q := x / 0x1_0000_0000;
    assert x + chunk == q * 0x1_0000_0000 + (lo + chunk);
  }

  /** A worker that starts below `end` has a range, unless the next start wraps; then that one is lower. */
  lemma {:induction false} ClaimOrFall(start: u32, end: u32, workers: nat, chunk: nat, j: nat)
    requires j < workers && 1 <= chunk < 0x1_0000_0000
    requires WorkerRange(start, end, workers, chunk, j).lo < end
    ensures || !Idle(WorkerRange(start, end, workers, chunk, j))
            || (j + 1 < workers && WorkerRange(start, end, workers, chunk, j + 1).lo < WorkerRange(start, end, workers, chunk, j).lo)
  {
    NextCut(start, chunk, j);
    ClaimCases(end, chunk, (start + j * chunk) % 0x1_0000_0000, (start + (j + 1) * chunk) % 0x1_0000_0000);
  }

  lemma {:induction false} NextCut(start: u32, chunk: nat, j: nat)
    requires chunk < 0x1_0000_0000
    ensures var lo := (start + j * chunk) % 0x1_0000_0000;
            (start + (j + 1) * chunk) % 0x1_0000_0000 == if lo + chunk < 0x1_0000_0000 then lo + chunk else lo + chunk - 0x1_0000_0000
  {
    TimesNext(j, chunk);
    CutStep(start + j * chunk, (start + j * chunk) % 0x1_0000_0000, chunk);
  }

  lemma {:induction false} ClaimCases(end: u32, chunk: nat, lo: nat, next: nat)
    requires 1 <= chunk < 0x1_0000_0000 && lo < end
    requires next == if lo + chunk < 0x1_0000_0000 then lo + chunk else lo + chunk - 0x1_0000_0000
    ensures lo < Min(next, end) || next < lo
  {
  }

  /** From a wrapped start below `end` the starts fall until one worker's range is not empty. */
  lemma {:induction false} SomeWorkerClaims(f: nat -> Range, start: u32, end: u32, workers: nat, chunk: nat, j: nat) returns (k: nat)
    requires j < workers && 1 <= chunk < 0x1_0000_0000
    requires f == Assignment(start, end, workers, chunk) && f(j).lo < end
    ensures j <= k < workers && f(k).lo <= f(j).lo && !Idle(f(k))
    decreases workers - j
  {
    ClaimOrFall(start, end, workers, chunk, j);
    if !Idle(f(j)) {
      k := j;
    } else {
      k := SomeWorkerClaims(f, start, end, workers, chunk, j + 1);
    }
  }

  lemma {:induction false} ClaimsAt(f: nat -> Range, n: nat, k: nat, m: nat, t: u32)
    requires n <= k < m && f(k).lo <= t < f(k).hi
    ensures Claims(f, m, t) >= Claims(f, n, t) + 1
  {
    ClaimsGrow(f, k + 1, m, t);
    ClaimsGrow(f, n, k, t);
  }

  /** A non-empty range that starts where the first `n` workers already tile, or before them, is one too many. */
  lemma {:induction false} OverlapBreaks(f: nat -> Range, n: nat, k: nat, workers: nat, start: u32, to: u32, end: u32)
    requires n <= k < workers && !Idle(f(k)) && f(k).lo < to <= end
    requires Chain(NonEmpty(f, n), start, to)
    ensures !Tiles(NonEmpty(f, workers), start, end)
  {
    var t := f(k).lo;
    ChainTiles(NonEmpty(f, n), start, to, t);
    OwnersAreClaims(f, n, t);
    OwnersAreClaims(f, workers, t);
    ClaimsAt(f, n, k, workers, t);
  }

  lemma {:induction false} IdleAddNothing(f: nat -> Range, n: nat, m: nat)
    requires n <= m && forall id :: n <= id < m ==> Idle(f(id))
    ensures NonEmpty(f, m) == NonEmpty(f, n)
  {
    if n < m { IdleAddNothing(f, n, m - 1); }
  }

  /** The first wrapped start, and how far the workers up to the one before it have come. */
  lemma {:induction false} BeforeWrap(start: u32, end: u32, workers: nat, chunk: nat, j: nat)
    requires start < end && 0 < j < workers && 1 <= chunk < 0x1_0000_0000
    requires start + (j - 1) * chunk < 0x1_0000_0000 <= start + j * chunk
    ensures var f := Assignment(start, end, workers, chunk);
            && f(j - 1).lo == start + (j - 1) * chunk
            && f(j).lo == f(j - 1).lo + chunk - 0x1_0000_0000 < f(j - 1).lo
            && Chain(NonEmpty(f, j - 1), start, Min(f(j - 1).lo, end))
  {
    StartsAround(start, end, workers, chunk, j);
    PartitionChain(start, end, workers, chunk, j - 1, (j - 1) * chunk);
  }

  lemma {:induction false} StartsAround(start: u32, end: u32, workers: nat, chunk: nat, j: nat)
    requires 0 < j < workers && 1 <= chunk < 0x1_0000_0000
    requires start + (j - 1) * chunk < 0x1_0000_0000 <= start + j * chunk
    ensures WorkerRange(start, end, workers, chunk, j - 1).lo == start + (j - 1) * chunk
    ensures WorkerRange(start, end, workers, chunk, j).lo == start + (j - 1) * chunk + chunk - 0x1_0000_0000
  {
    TimesNext(j - 1, chunk);
    NoWrap(start + (j - 1) * chunk);
    WrapOnce(start + (j - 1) * chunk, chunk);
  }

  lemma {:induction false} WrapOnce(at: nat, chunk: nat)
    requires at < 0x1_0000_0000 <= at + chunk && chunk < 0x1_0000_0000
    ensures (at + chunk) % 0x1_0000_0000 == at + chunk - 0x1_0000_0000
  {
  }

  lemma {:induction false} StartsGrow(start: u32, chunk: nat, j: nat, id: nat)
    requires j <= id
    ensures Start64(start, chunk, j) <= Start64(start, chunk, id)
  {
    TimesMonotone(j, id, chunk);
  }

  /** A start that wraps to a tick below `end` breaks the tiling. */
  lemma {:induction false} LowWrapBreaks(start: u32, end: u32, workers: nat, chunk: nat, j: nat)
    requires start < end && 0 < j < workers && 1 <= chunk < 0x1_0000_0000
    requires start + (j - 1) * chunk < 0x1_0000_0000 <= start + j * chunk
    requires WorkerRange(start, end, workers, chunk, j).lo < end
    ensures !Tiles(Ranges(start, end, workers, chunk), start, end)
    ensures !WrappedAreIdle(start, end, workers, chunk)
  {
    var f := Assignment(start, end, workers, chunk);
    BeforeWrap(start, end, workers, chunk, j);
    var k := SomeWorkerClaims(f, start, end, workers, chunk, j);
    OverlapBreaks(f, j - 1, k, workers, start, Min(f(j - 1).lo, end), end);
    StartsGrow(start, chunk, j, k);
    assert Start64(start, chunk, k) >= 0x1_0000_0000;
  }

  lemma {:induction false} HighWrapTilesIff(start: u32, end: u32, workers: nat, chunk: nat, j: nat)
    requires start < end && 0 < j < workers && 1 <= chunk < 0x1_0000_0000
    requires start + (j - 1) * chunk < 0x1_0000_0000 <= start + j * chunk
    requires WorkerRange(start, end, workers, chunk, j).lo >= end
    ensures Tiles(Ranges(start, end, workers, chunk), start, end) <==> WrappedAreIdle(start, end, workers, chunk)
  {
    var f := Assignment(start, end, workers, chunk);
    BeforeWrap(start, end, workers, chunk, j);
    if WrappedAreIdle(start, end, workers, chunk) {
      forall id | j - 1 <= id < workers ensures Idle(f(id)) {
        if id >= j { StartsGrow(start, chunk, j, id); }
      }
      IdleAddNothing(f, j - 1, workers);
      ChainIsTiling(NonEmpty(f, workers), start, end);
    } else {
      var k: nat :| k < workers && Start64(start, chunk, k) >= 0x1_0000_0000 && !Idle(WorkerRange(start, end, workers, chunk, k));
      if k < j { StartsGrow(start, chunk, k, j - 1); }
      OverlapBreaks(f, j - 1, k, workers, start, end, end);
    }
  }

  lemma {:induction false} SmallChunkTilesIff(start: u32, end: u32, workers: nat, chunk: nat)
    requires start < end && workers >= 1 && 1 <= chunk < 0x1_0000_0000
    ensures Tiles(Ranges(start, end, workers, chunk), start, end) <==> WrappedAreIdle(start, end, workers, chunk)
  {
    if start + (workers - 1) * chunk < 0x1_0000_0000 {
      forall id: nat | id < workers ensures Start64(start, chunk, id) < 0x1_0000_0000 { StartsGrow(start, chunk, id, workers - 1); }
      PartitionTiles(start, end, workers, chunk);
    } else {
      var j := FirstWrap(start, chunk, workers - 1);
      if WorkerRange(start, end, workers, chunk, j).lo < end {
        LowWrapBreaks(start, end, workers, chunk, j);
      } else {
        HighWrapTilesIff(start, end, workers, chunk, j);
      }
    }
  }

  lemma {:induction false} DropCycles(y: nat, k: nat)
    ensures (y + k * 0x1_0000_0000) % 0x1_0000_0000 == y % 0x1_0000_0000
  {
  }

  lemma {:induction false} Distribute(id: nat, a: nat, b: nat)
    ensures id * (a + b) == id * a + id * b
  {
  }

  lemma {:induction false} ProductAssociates(id: nat, q: nat, m: nat)
    ensures id * (q * m) == (id * q) * m
  {
  }

  lemma {:induction false} CutProduct(x: nat, id: nat, chunk: nat)
    ensures (x + id * chunk) % 0x1_0000_0000 == (x + id * (chunk % 0x1_0000_0000)) % 0x1_0000_0000
  {
    var q, cut := chunk / 0x1_0000_0000, chunk % 0x1_0000_0000;
    assert chunk == q * 0x1_0000_0000 + cut;
    Distribute(id, q * 0x1_0000_0000, cut);
    ProductAssociates(id, q, 0x1_0000_0000);
    DropCycles(x + id * cut, id * q);
  }

  lemma {:induction false} SameRanges(f: nat -> Range, g: nat -> Range, n: nat)
    requires forall id: nat :: f(id) == g(id)
    ensures NonEmpty(f, n) == NonEmpty(g, n)
  {
    if n > 0 { SameRanges(f, g, n - 1); }
  }

  /** Only the low 32 bits of the chunk matter. */
  lemma {:induction false} ChunkIsCut(start: u32, end: u32, workers: nat, chunk: nat)
    ensures Ranges(start, end, workers, chunk) == Ranges(start, end, workers, chunk % 0x1_0000_0000)
  {
    var cut := chunk % 0x1_0000_0000;
    forall id: nat ensures Assignment(start, end, workers, chunk)(id) == Assignment(start, end, workers, cut)(id) {
      CutProduct(start, id, chunk);
      CutProduct(start, id + 1, chunk);
    }
    SameRanges(Assignment(start, end, workers, chunk), Assignment(start, end, workers, cut), workers);
  }

  /**
   * For any number of workers and any chunk, in the tick phase or the transaction phase: the
   * ranges are disjoint and cover exactly `[start, end)` if and only if every worker whose start
   * wraps around u32 is left without a range.
   */
  lemma {:induction false} TilesIff(start: u32, end: u32, workers: nat, chunk: nat)
    requires start < end && workers >= 1
    ensures Tiles(Ranges(start, end, workers, chunk), start, end)
            <==> WrappedAreIdle(start, end, workers, chunk % 0x1_0000_0000)
  {
    var cut := chunk % 0x1_0000_0000;
    ChunkIsCut(start, end, workers, chunk);
    if cut == 0 {
      forall id: nat ensures Start64(start, cut, id) == start { assert id * 0 == 0; }
      assert (workers - 1) * 0 == 0;
      PartitionTiles(start, end, workers, cut);
    } else {
      SmallChunkTilesIff(start, end, workers, cut);
    }
  }

  /** For a chunk no longer than the range that is when no start wraps at all. */
  lemma {:induction false} ShortChunkTilesIff(start: u32, end: u32, workers: nat, chunk: nat)
    requires start < end && workers >= 1 && 1 <= chunk <= end - start
    ensures Tiles(Ranges(start, end, workers, chunk), start, end) <==> start + (workers - 1) * chunk < 0x1_0000_0000
  {
    if start + (workers - 1) * chunk < 0x1_0000_0000 {
      PartitionTiles(start, end, workers, chunk);
    } else {
      var j := FirstWrap(start, chunk, workers - 1);
      BeforeWrap(start, end, workers, chunk, j);
      LowWrapBreaks(start, end, workers, chunk, j);
    }
  }

  /** The tick phase tiles its range if and only if no worker start wraps around u32. */
  lemma {:induction false} TickPhaseTilesIff(start: u32, end: u32, workers: nat)
    requires start < end && workers >= 1
    ensures var chunk := Chunk(end - start, workers);
            Tiles(Ranges(start, end, workers, chunk), start, end) <==> start + (workers - 1) * chunk < 0x1_0000_0000
  {
    QuotientAtMost(end - start, workers);
    ShortChunkTilesIff(start, end, workers, Chunk(end - start, workers));
  }

  lemma {:induction false} QuotientAtMost(total: nat, workers: nat)
    requires workers >= 1
    ensures total / workers <= total
  {
    var q := total / workers;
    TimesMonotone(1, workers, q);
    assert q * workers <= total;
    assert q * workers == workers * q;
  }

  /**
   * With no more workers than ticks, the tick phase gives every worker the same share, the whole
   * part of the quotient, in order; the last one also gets the remainder.
   */
  lemma {:induction false} TickPhaseShares(start: u32, end: u32, workers: nat, id: nat)
    requires start < end && 1 <= workers <= end - start && id < workers
    ensures var share, r := (end - start) / workers, WorkerRange(start, end, workers, Chunk(end - start, workers), id);
            && r.lo == start + id * share
            && (id + 1 < workers ==> r.hi == r.lo + share)
            && (id + 1 == workers ==> r.hi == end && share <= r.hi - r.lo < share + workers)
  {
    var total := end - start;
    var share := total / workers;
    ShareBounds(total, workers, id);
    RangeNoWrap(start, end, workers, share, id, id * share);
  }

  lemma {:induction false} ShareBounds(total: nat, workers: nat, id: nat)
    requires 1 <= workers <= total && id < workers
    ensures var share := total / workers;
            && share >= 1 && id * share + share <= total
            && (id + 1 == workers ==> total - id * share < share + workers)
  {
    var share, left := total / workers, total % workers;
    assert total == workers * share + left;
    TimesNext(id, share);
    TimesMonotone(id + 1, workers, share);
  }

  /** With more workers than ticks the first ones get a tick each. */
  lemma {:induction false} TickPhaseSingles(start: u32, end: u32, workers: nat, id: nat)
    requires start < end && end - start < workers && id < workers && start + workers < 0x1_0000_0000
    ensures var r := WorkerRange(start, end, workers, Chunk(end - start, workers), id);
            if id < end - start then r == Range(start + id, start + id + 1) else r.lo >= r.hi
  {
    assert (end - start) / workers == 0;
    assert id * 1 == id;
    RangeNoWrap(start, end, workers, 1, id, id);
  }

  /** A longer chunk can tile although starts wrap: the wrapped worker is left without a range. */
  lemma {:induction false} LongChunkCanTile()
    ensures Start64(0, 0xC000_0000, 2) >= 0x1_0000_0000
    ensures Tiles(Ranges(0, 10, 3, 0xC000_0000), 0, 10)
  {
    forall id: nat | id < 3 && Start64(0, 0xC000_0000, id) >= 0x1_0000_0000 ensures Idle(WorkerRange(0, 10, 3, 0xC000_0000, id)) {
      assert id == 2;
      assert WorkerRange(0, 10, 3, 0xC000_0000, 2).lo == 0x8000_0000;
    }
    TilesIff(0, 10, 3, 0xC000_0000);
  }

  /** And it can fail to tile: here the wrapped worker is handed ticks that another already owns. */
  lemma {:induction false} LongChunkCanOverlap()
    ensures !Tiles(Ranges(5, 10, 3, 0x8000_0000), 5, 10)
  {
    var r := WorkerRange(5, 10, 3, 0x8000_0000, 2);
    assert r == Range(5, 10);
    assert Start64(5, 0x8000_0000, 2) == 0x1_0000_0005;
    TilesIff(5, 10, 3, 0x8000_0000);
  }

  /** The tick phase itself, five workers on two ticks just below 2^32: the fourth one starts at 0, outside the range. */
  lemma {:induction false} TickPhaseCanOverrun()
    ensures !Tiles(Ranges(0xFFFF_FFFD, 0xFFFF_FFFF, 5, Chunk(2, 5)), 0xFFFF_FFFD, 0xFFFF_FFFF)
    ensures !Idle(WorkerRange(0xFFFF_FFFD, 0xFFFF_FFFF, 5, Chunk(2, 5), 3)) && WorkerRange(0xFFFF_FFFD, 0xFFFF_FFFF, 5, Chunk(2, 5), 3).lo == 0
  {
    assert Chunk(2, 5) == 1;
    TickPhaseTilesIff(0xFFFF_FFFD, 0xFFFF_FFFF, 5);
  }

  // ---------------------------------------------------------------- workers

  /** A worker restarts its whole range on every connection until one of them finishes. */
  datatype Worker = Worker(lo: u32, hi: u32, past: seq<seq<Act>>, conn: Option<Conn>, done: bool)

  datatype Move = Connect(draws: seq<u32>) | Receive(input: Input)

  datatype System = System(workers: seq<Worker>, shared: Tally)

  function Absorb(w: Worker, c: Conn): Worker {
    match c.phase
    case Open => w.(conn := Some(c))
    case Finished => w.(conn := None, past := w.past + [c.acts], done := true)
    case Broken => w.(conn := None, past := w.past + [c.acts])
  }

  predicate CanMove(w: Worker, move: Move) {
    !w.done && match move
      case Connect(_) => w.conn.None? && w.lo <= w.hi
      case Receive(_) => w.conn.Some? && Ready(w.conn.value, w.hi)
  }

  function MoveWorker(w: Worker, move: Move): Worker
    requires CanMove(w, move)
  {
    match move
    case Connect(draws) => Absorb(w, Fill(Start(w.lo), w.hi, draws))
    case Receive(input) => Absorb(w, Step(w.conn.value, w.hi, input))
  }

  function MoveTally(w: Worker, move: Move): Tally
    requires CanMove(w, move)
  {
    match move
    case Connect(_) => Tally(0, 0, 0, 0)
    case Receive(input) => Increment(w.conn.value, input)
  }

  /** One worker moves; the others stand still. A move that is not possible does nothing. */
  function Advance(s: System, i: nat, move: Move): System {
    if i < |s.workers| && CanMove(s.workers[i], move) then
      System(s.workers[i := MoveWorker(s.workers[i], move)], Add(s.shared, MoveTally(s.workers[i], move)))
    else s
  }

  function Launch(ranges: seq<Range>): System {
    System(seq(|ranges|, i requires 0 <= i < |ranges| => Worker(ranges[i].lo, ranges[i].hi, [], None, false)), Tally(0, 0, 0, 0))
  }

  /** Any interleaving of any moves. */
  function RunSystem(ranges: seq<Range>, schedule: seq<(nat, Move)>): System {
    if schedule == [] then Launch(ranges)
    else
      var (i, move) := schedule[|schedule| - 1];
      Advance(RunSystem(ranges, schedule[..|schedule| - 1]), i, move)
  }

  // ---------------------------------------------------------------- invariants

  ghost predicate Within(acts: seq<Act>, lo: u32, hi: u32) {
    forall t: u32 :: Handled(acts, t) <= if lo <= t < hi then 1 else 0
  }

  ghost predicate Covers(acts: seq<Act>, lo: u32, hi: u32) {
    forall t: u32 :: lo <= t < hi ==> Handled(acts, t) == 1
  }

  /**
   * Every connection of the worker keeps the skip discipline. One without a wrapped skip touches no
   * tick outside the worker's range and none twice; the last one, if it finished, touched them all.
   */
  ghost predicate WorkerInv(w: Worker) {
    && w.lo <= w.hi
    && (w.conn.Some? ==> w.conn.value.phase == Open && Inv(w.conn.value, w.lo, w.hi))
    && (forall k :: 0 <= k < |w.past| ==> Disciplined(w.past[k], w.hi) && (Unwrapped(w.past[k]) ==> Within(w.past[k], w.lo, w.hi)))
    && (w.done ==> w.conn.None? && w.past != [] && (Unwrapped(w.past[|w.past| - 1]) ==> Covers(w.past[|w.past| - 1], w.lo, w.hi)))
  }

  lemma {:induction false} AbsorbKeeps(w: Worker, c: Conn)
    requires WorkerInv(w) && !w.done && Inv(c, w.lo, w.hi)
    ensures WorkerInv(Absorb(w, c))
  {
    HandlesRange(c, w.lo, w.hi);
  }

  lemma {:induction false} HandlesRange(c: Conn, lo: u32, hi: u32)
    requires Inv(c, lo, hi)
    ensures Disciplined(c.acts, hi)
    ensures Unwrapped(c.acts) ==> Within(c.acts, lo, hi) && (c.phase == Finished ==> Covers(c.acts, lo, hi))
  {
    if Unwrapped(c.acts) { UnwrappedPassesOnce(c, lo); }
  }

  lemma {:induction false} MoveKeeps(w: Worker, move: Move)
    requires WorkerInv(w) && CanMove(w, move)
    ensures WorkerInv(MoveWorker(w, move))
    ensures MoveWorker(w, move).lo == w.lo && MoveWorker(w, move).hi == w.hi
  {
    match move
    case Connect(draws) =>
      StartKeeps(w.lo, w.hi, draws);
      AbsorbKeeps(w, Fill(Start(w.lo), w.hi, draws));
    case Receive(input) =>
      StepKeeps(w.conn.value, w.lo, w.hi, input);
      AbsorbKeeps(w, Step(w.conn.value, w.hi, input));
  }

  function PastTally(past: seq<seq<Act>>): Tally {
    if past == [] then Tally(0, 0, 0, 0) else Add(PastTally(past[..|past| - 1]), Counts(past[|past| - 1]))
  }

  /** What all connections of a worker, over and current, contributed. */
  function WorkerTally(w: Worker): Tally {
    Add(PastTally(w.past), if w.conn.Some? then Counts(w.conn.value.acts) else Tally(0, 0, 0, 0))
  }

  function SumTally(ts: seq<Tally>): Tally {
    if ts == [] then Tally(0, 0, 0, 0) else Add(SumTally(ts[..|ts| - 1]), ts[|ts| - 1])
  }

  function Map(workers: seq<Worker>, f: Worker -> Tally): (ts: seq<Tally>)
    ensures |ts| == |workers|
    ensures forall i :: 0 <= i < |ts| ==> ts[i] == f(workers[i])
  {
    seq(|workers|, i requires 0 <= i < |workers| => f(workers[i]))
  }

  lemma {:induction false} MapUpdate(workers: seq<Worker>, i: nat, w: Worker, f: Worker -> Tally)
    requires i < |workers|
    ensures Map(workers[i := w], f) == Map(workers, f)[i := f(w)]
  {
  }

  function WorkerTallies(workers: seq<Worker>): seq<Tally> {
    Map(workers, WorkerTally)
  }

  lemma {:induction false} PastSnoc(past: seq<seq<Act>>, acts: seq<Act>)
    ensures PastTally(past + [acts]) == Add(PastTally(past), Counts(acts))
  {
    assert (past + [acts])[..|past|] == past;
  }

  lemma {:induction false} AddLaws(a: Tally, b: Tally, c: Tally)
    ensures Add(a, Tally(0, 0, 0, 0)) == a && Add(Tally(0, 0, 0, 0), a) == a
    ensures Add(Add(a, b), c) == Add(a, Add(b, c)) == Add(Add(a, c), b)
  {
  }

  lemma {:induction false} AbsorbTally(w: Worker, c: Conn)
    ensures WorkerTally(Absorb(w, c)) == Add(PastTally(w.past), Counts(c.acts))
  {
    if c.phase == Open {
      assert Absorb(w, c).past == w.past && Absorb(w, c).conn == Some(c);
    } else {
      calc {
        WorkerTally(Absorb(w, c));
        Add(PastTally(w.past + [c.acts]), Tally(0, 0, 0, 0));
        { AddLaws(PastTally(w.past + [c.acts]), Tally(0, 0, 0, 0), Tally(0, 0, 0, 0)); }
        PastTally(w.past + [c.acts]);
        { PastSnoc(w.past, c.acts); }
        Add(PastTally(w.past), Counts(c.acts));
      }
    }
  }

  lemma {:induction false} ConnectAddsTally(w: Worker, draws: seq<u32>)
    requires CanMove(w, Connect(draws))
    ensures WorkerTally(MoveWorker(w, Connect(draws))) == WorkerTally(w)
  {
    var c := Fill(Start(w.lo), w.hi, draws);
    calc {
      WorkerTally(Absorb(w, c));
      { AbsorbTally(w, c); }
      Add(PastTally(w.past), Counts(c.acts));
      { FillCounts(Start(w.lo), w.hi, draws); }
      Add(PastTally(w.past), Tally(0, 0, 0, 0));
      WorkerTally(w);
    }
  }

  lemma {:induction false} ReceiveAddsTally(w: Worker, input: Input)
    requires WorkerInv(w) && CanMove(w, Receive(input))
    ensures WorkerTally(MoveWorker(w, Receive(input))) == Add(WorkerTally(w), Increment(w.conn.value, input))
  {
    var c, d := w.conn.value, Increment(w.conn.value, input);
    var c' := Step(c, w.hi, input);
    calc {
      WorkerTally(Absorb(w, c'));
      { AbsorbTally(w, c'); }
      Add(PastTally(w.past), Counts(c'.acts));
      { StepCounts(c, w.hi, input); }
      Add(PastTally(w.past), Add(Counts(c.acts), d));
      { AddLaws(PastTally(w.past), Counts(c.acts), d); }
      Add(Add(PastTally(w.past), Counts(c.acts)), d);
      Add(WorkerTally(w), d);
    }
  }

  lemma {:induction false} MoveAddsTally(w: Worker, move: Move)
    requires WorkerInv(w) && CanMove(w, move)
    ensures WorkerTally(MoveWorker(w, move)) == Add(WorkerTally(w), MoveTally(w, move))
  {
    match move
    case Connect(draws) =>
      ConnectAddsTally(w, draws);
      AddLaws(WorkerTally(w), Tally(0, 0, 0, 0), Tally(0, 0, 0, 0));
    case Receive(input) =>
      ReceiveAddsTally(w, input);
  }

  lemma {:induction false} SumUpdate(ts: seq<Tally>, i: nat, d: Tally)
    requires i < |ts|
    ensures SumTally(ts[i := Add(ts[i], d)]) == Add(SumTally(ts), d)
  {
    var n := |ts| - 1;
    var ts' := ts[i := Add(ts[i], d)];
    if i == n {
      calc {
        SumTally(ts');
        { assert ts'[..n] == ts[..n]; }
        Add(SumTally(ts[..n]), Add(ts[n], d));
        { AddLaws(SumTally(ts[..n]), ts[n], d); }
        Add(SumTally(ts), d);
      }
    } else {
      calc {
        SumTally(ts');
        { assert ts'[..n] == ts[..n][i := Add(ts[..n][i], d)]; }
        Add(SumTally(ts[..n][i := Add(ts[..n][i], d)]), ts[n]);
        { SumUpdate(ts[..n], i, d); }
        Add(Add(SumTally(ts[..n]), d), ts[n]);
        { AddLaws(SumTally(ts[..n]), d, ts[n]); }
        Add(SumTally(ts), d);
      }
    }
  }

  ghost predicate WorkersInv(workers: seq<Worker>, ranges: seq<Range>) {
    && |workers| == |ranges|
    && (forall i :: 0 <= i < |ranges| ==> workers[i].lo == ranges[i].lo && workers[i].hi == ranges[i].hi)
    && (forall i :: 0 <= i < |ranges| ==> WorkerInv(workers[i]))
  }

  lemma {:induction false} AdvanceKeeps(s: System, ranges: seq<Range>, i: nat, move: Move)
    requires WorkersInv(s.workers, ranges)
    ensures WorkersInv(Advance(s, i, move).workers, ranges)
  {
    if i < |s.workers| && CanMove(s.workers[i], move) {
      MoveKeeps(s.workers[i], move);
    }
  }

  /** When one worker's tally grows, so does the sum, whatever the tally is. */
  lemma {:induction false} SumMoves(workers: seq<Worker>, i: nat, w: Worker, d: Tally, f: Worker -> Tally)
    requires i < |workers| && f(w) == Add(f(workers[i]), d)
    ensures SumTally(Map(workers[i := w], f)) == Add(SumTally(Map(workers, f)), d)
  {
    MapUpdate(workers, i, w, f);
    SumUpdate(Map(workers, f), i, d);
  }

  lemma {:induction false} SumOfNothing(ts: seq<Tally>)
    requires forall i :: 0 <= i < |ts| ==> ts[i] == Tally(0, 0, 0, 0)
    ensures SumTally(ts) == Tally(0, 0, 0, 0)
  {
    if ts != [] {
      var init, last := ts[..|ts| - 1], ts[|ts| - 1];
      assert last == Tally(0, 0, 0, 0);
      SumOfNothing(init);
      calc {
        SumTally(ts);
        Add(SumTally(init), last);
        Add(Tally(0, 0, 0, 0), Tally(0, 0, 0, 0));
        Tally(0, 0, 0, 0);
      }
    }
  }

  ghost predicate Startable(ranges: seq<Range>) {
    forall i :: 0 <= i < |ranges| ==> ranges[i].lo <= ranges[i].hi
  }

  lemma {:induction false} RunSystemInv(ranges: seq<Range>, schedule: seq<(nat, Move)>)
    requires Startable(ranges)
    ensures WorkersInv(RunSystem(ranges, schedule).workers, ranges)
  {
    if schedule != [] {
      var init, last := schedule[..|schedule| - 1], schedule[|schedule| - 1];
      RunSystemInv(ranges, init);
      AdvanceKeeps(RunSystem(ranges, init), ranges, last.0, last.1);
    }
  }

  /** One move adds to the worker's tally what the move counts. */
  ghost predicate CountsMove(f: Worker -> Tally, w: Worker, move: Move) {
    WorkerInv(w) && CanMove(w, move) ==> f(MoveWorker(w, move)) == Add(f(w), MoveTally(w, move))
  }

  /** A tally that starts at nothing and grows by what each move counts. */
  ghost predicate Measures(f: Worker -> Tally) {
    && (forall lo: u32, hi: u32 :: f(Worker(lo, hi, [], None, false)) == Tally(0, 0, 0, 0))
    && (forall w: Worker, move: Move :: CountsMove(f, w, move))
  }

  lemma {:induction false} AdvanceAddsUp(s: System, i: nat, move: Move, f: Worker -> Tally)
    requires Measures(f) && (i < |s.workers| ==> WorkerInv(s.workers[i]))
    requires s.shared == SumTally(Map(s.workers, f))
    ensures Advance(s, i, move).shared == SumTally(Map(Advance(s, i, move).workers, f))
  {
    if i < |s.workers| && CanMove(s.workers[i], move) {
      assert CountsMove(f, s.workers[i], move);
      SumMoves(s.workers, i, MoveWorker(s.workers[i], move), MoveTally(s.workers[i], move), f);
    }
  }

  lemma {:induction false} RunAddsUp(ranges: seq<Range>, schedule: seq<(nat, Move)>, f: Worker -> Tally)
    requires Startable(ranges) && Measures(f)
    ensures RunSystem(ranges, schedule).shared == SumTally(Map(RunSystem(ranges, schedule).workers, f))
  {
    if schedule == [] {
      SumOfNothing(Map(Launch(ranges).workers, f));
    } else {
      var init, last := schedule[..|schedule| - 1], schedule[|schedule| - 1];
      RunAddsUp(ranges, init, f);
      RunSystemInv(ranges, init);
      AdvanceAddsUp(RunSystem(ranges, init), last.0, last.1, f);
    }
  }

  lemma {:induction false} FreshTally(lo: u32, hi: u32)
    ensures WorkerTally(Worker(lo, hi, [], None, false)) == Tally(0, 0, 0, 0)
  {
    assert PastTally([]) == Tally(0, 0, 0, 0);
    AddLaws(Tally(0, 0, 0, 0), Tally(0, 0, 0, 0), Tally(0, 0, 0, 0));
  }

  lemma {:induction false} TallyCountsMove(w: Worker, move: Move)
    ensures CountsMove(WorkerTally, w, move)
  {
    if WorkerInv(w) && CanMove(w, move) { MoveAddsTally(w, move); }
  }

  lemma {:induction false} WorkerTallyMeasures()
    ensures Measures(WorkerTally)
  {
    forall lo: u32, hi: u32 ensures WorkerTally(Worker(lo, hi, [], None, false)) == Tally(0, 0, 0, 0) { FreshTally(lo, hi); }
    forall w: Worker, move: Move ensures CountsMove(WorkerTally, w, move) { TallyCountsMove(w, move); }
  }

  /** Under any interleaving the shared counters are the sum over all connections of all workers. */
  lemma {:induction false} CountersAddUp(ranges: seq<Range>, schedule: seq<(nat, Move)>)
    requires Startable(ranges)
    ensures RunSystem(ranges, schedule).shared == SumTally(WorkerTallies(RunSystem(ranges, schedule).workers))
  {
    WorkerTallyMeasures();
    RunAddsUp(ranges, schedule, WorkerTally);
  }

  // ---------------------------------------------------------------- coverage

  lemma {:induction false} OwnerExists(ranges: seq<Range>, t: u32) returns (i: nat)
    requires Owners(ranges, t) == 1
    ensures i < |ranges| && ranges[i].lo <= t < ranges[i].hi
    ensures forall j :: 0 <= j < |ranges| && ranges[j].lo <= t < ranges[j].hi ==> j == i
  {
    var n := |ranges| - 1;
    var init := ranges[..n];
    assert forall j :: 0 <= j < n ==> init[j] == ranges[j];
    if ranges[n].lo <= t < ranges[n].hi {
      i := n;
      NoOwner(init, t);
    } else {
      i := OwnerExists(init, t);
    }
  }

  lemma {:induction false} NoOwner(ranges: seq<Range>, t: u32)
    requires Owners(ranges, t) == 0
    ensures forall j :: 0 <= j < |ranges| ==> !(ranges[j].lo <= t < ranges[j].hi)
  {
    if ranges != [] {
      var init := ranges[..|ranges| - 1];
      NoOwner(init, t);
      assert forall j :: 0 <= j < |init| ==> init[j] == ranges[j];
    }
  }

  /** A worker's connections never touch the tick. */
  ghost predicate NeverTouches(w: Worker, t: u32) {
    forall k :: 0 <= k < |w.past| ==> Handled(w.past[k], t) == 0
  }

  /** No connection that is over skipped past 2^32. */
  ghost predicate NoneWrapped(workers: seq<Worker>) {
    forall i, k :: 0 <= i < |workers| && 0 <= k < |workers[i].past| ==> Unwrapped(workers[i].past[k])
  }

  /**
   * When every worker has finished and no skip wrapped, each tick of the range has one owner, whose last connection
   * requested it or passed over it exactly once, and no other worker ever touched it.
   */
  lemma {:induction false} EveryTickHandled(ranges: seq<Range>, schedule: seq<(nat, Move)>, start: u32, end: u32, t: u32)
    returns (owner: nat)
    requires Startable(ranges) && Tiles(ranges, start, end) && start <= t < end
    requires forall i :: 0 <= i < |ranges| ==> i < |RunSystem(ranges, schedule).workers| && RunSystem(ranges, schedule).workers[i].done
    requires NoneWrapped(RunSystem(ranges, schedule).workers)
    ensures var ws := RunSystem(ranges, schedule).workers;
            && owner < |ws| == |ranges| && ws[owner].past != []
            && Handled(ws[owner].past[|ws[owner].past| - 1], t) == 1
            && forall i :: 0 <= i < |ws| && i != owner ==> NeverTouches(ws[i], t)
  {
    RunSystemInv(ranges, schedule);
    assert Owners(ranges, t) == 1;
    owner := OwnerExists(ranges, t);
    var ws := RunSystem(ranges, schedule).workers;
    assert WorkerInv(ws[owner]) && ws[owner].done;
    forall i | 0 <= i < |ws| && i != owner ensures NeverTouches(ws[i], t) {
      assert WorkerInv(ws[i]) && ws[i].lo == ranges[i].lo && ws[i].hi == ranges[i].hi;
      forall k | 0 <= k < |ws[i].past| ensures Handled(ws[i].past[k], t) == 0 {
        assert Within(ws[i].past[k], ws[i].lo, ws[i].hi);
      }
    }
  }

  lemma {:induction false} NonEmptyRanges(f: nat -> Range, n: nat, end: u32)
    requires forall id: nat :: f(id).hi <= end
    ensures forall i :: 0 <= i < |NonEmpty(f, n)| ==> NonEmpty(f, n)[i].lo < NonEmpty(f, n)[i].hi <= end
  {
    if n > 0 { NonEmptyRanges(f, n - 1, end); }
  }
}
