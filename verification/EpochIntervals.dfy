/** Tick ranges per epoch, merged from the intervals fetched from the network. */
module EpochIntervals {
  import opened Bytes
  import opened Collections

  datatype Interval = Interval(epoch: u16, firstTick: u32, lastTick: u32)

  datatype EpochRange = EpochRange(epoch: u16, firstTick: u32, lastTick: u32, tickCount: u32)

  function TickCount(first: u32, last: u32): u32 {
    Min(Max(last - first, 0) + 1, 0xFFFF_FFFF)
  }

  /** `r` is the range of the intervals of its epoch: the least first and the greatest last tick. */
  ghost predicate Spans(r: EpochRange, entries: seq<Interval>) {
    && (forall i :: 0 <= i < |entries| && entries[i].epoch == r.epoch ==>
                      r.firstTick <= entries[i].firstTick && entries[i].lastTick <= r.lastTick)
    && (exists i :: 0 <= i < |entries| && entries[i].epoch == r.epoch && entries[i].firstTick == r.firstTick)
    && (exists i :: 0 <= i < |entries| && entries[i].epoch == r.epoch && entries[i].lastTick == r.lastTick)
  }

  ghost predicate RangeOf(r: EpochRange, epoch: u16, entries: seq<Interval>) {
    r.epoch == epoch && Spans(r, entries) && r.tickCount == TickCount(r.firstTick, r.lastTick)
  }

  ghost predicate Known(entries: seq<Interval>, epoch: u16) {
    exists i :: 0 <= i < |entries| && entries[i].epoch == epoch
  }

  /** The table is sorted by epoch and has exactly one row, the merged range, for each known epoch. */
  ghost predicate Merges(table: seq<EpochRange>, entries: seq<Interval>) {
    && (forall i, j :: 0 <= i < j < |table| ==> table[i].epoch < table[j].epoch)
    && (forall r :: r in table ==> Spans(r, entries) && r.tickCount == TickCount(r.firstTick, r.lastTick))
    && (forall i :: 0 <= i < |entries| ==> HasRow(table, entries[i].epoch))
  }

  ghost predicate HasRow(table: seq<EpochRange>, epoch: u16) {
    exists j :: 0 <= j < |table| && table[j].epoch == epoch
  }

  type Bounds = map<u16, (u32, u32)>

  ghost predicate Collects(m: Bounds, entries: seq<Interval>) {
    && (forall e :: e in m ==> Spans(EpochRange(e, m[e].0, m[e].1, 0), entries))
    && (forall i :: 0 <= i < |entries| ==> entries[i].epoch in m)
  }

  function Collect1(m: Bounds, entry: Interval): Bounds {
    if entry.epoch in m then
      m[entry.epoch := (Min(m[entry.epoch].0, entry.firstTick), Max(m[entry.epoch].1, entry.lastTick))]
    else
      m[entry.epoch := (entry.firstTick, entry.lastTick)]
  }

  lemma {:induction false} CollectStep(m: Bounds, entries: seq<Interval>, entry: Interval)
    requires Collects(m, entries)
    ensures Collects(Collect1(m, entry), entries + [entry])
  {
    var all, m' := entries + [entry], Collect1(m, entry);
    forall e | e in m' ensures Spans(EpochRange(e, m'[e].0, m'[e].1, 0), all) {
      if e == entry.epoch {
        SpansNew(m, entries, entry);
      } else {
        SpansKept(EpochRange(e, m[e].0, m[e].1, 0), entries, entry);
      }
    }
    forall i | 0 <= i < |all| ensures all[i].epoch in m' {
      assert i < |entries| ==> all[i] == entries[i];
    }
  }

  lemma {:induction false} SpansKept(r: EpochRange, entries: seq<Interval>, entry: Interval)
    requires Spans(r, entries)
    requires entry.epoch == r.epoch ==> r.firstTick <= entry.firstTick && entry.lastTick <= r.lastTick
    ensures Spans(r, entries + [entry])
  {
    var all := entries + [entry];
    var i :| 0 <= i < |entries| && entries[i].epoch == r.epoch && entries[i].firstTick == r.firstTick;
    var j :| 0 <= j < |entries| && entries[j].epoch == r.epoch && entries[j].lastTick == r.lastTick;
    assert all[i] == entries[i] && all[j] == entries[j];
  }

  lemma {:induction false} SpansNew(m: Bounds, entries: seq<Interval>, entry: Interval)
    requires Collects(m, entries)
    ensures var b := Collect1(m, entry)[entry.epoch]; Spans(EpochRange(entry.epoch, b.0, b.1, 0), entries + [entry])
  {
    var all, b, e := entries + [entry], Collect1(m, entry)[entry.epoch], entry.epoch;
    assert all[|entries|] == entry;
    if e in m {
      var r := EpochRange(e, m[e].0, m[e].1, 0);
      assert Spans(r, entries);
      var i :| 0 <= i < |entries| && entries[i].epoch == e && entries[i].firstTick == r.firstTick;
      var j :| 0 <= j < |entries| && entries[j].epoch == e && entries[j].lastTick == r.lastTick;
      assert all[i] == entries[i] && all[j] == entries[j];
    }
  }

  lemma {:induction false} RowsMerge(m: Bounds, entries: seq<Interval>, epochs: seq<u16>, table: seq<EpochRange>)
    requires Collects(m, entries)
    requires forall i, j :: 0 <= i < j < |epochs| ==> epochs[i] < epochs[j]
    requires forall e :: e in epochs <==> e in m
    requires |table| == |epochs|
    requires forall i :: 0 <= i < |epochs| ==> epochs[i] in m && table[i] == Row(m, epochs[i])
    ensures Merges(table, entries)
  {
    forall r | r in table ensures Spans(r, entries) && r.tickCount == TickCount(r.firstTick, r.lastTick) {
      var e := r.epoch;
      assert Spans(EpochRange(e, m[e].0, m[e].1, 0), entries);
    }
    forall i | 0 <= i < |entries| ensures HasRow(table, entries[i].epoch) {
      assert entries[i].epoch in epochs;
      var j :| 0 <= j < |epochs| && epochs[j] == entries[i].epoch;
      assert table[j].epoch == entries[i].epoch;
    }
  }

  function CollectAll(entries: seq<Interval>): Bounds {
    if entries == [] then map[] else Collect1(CollectAll(entries[..|entries| - 1]), entries[|entries| - 1])
  }

  lemma {:induction false} CollectAllSpec(entries: seq<Interval>)
    ensures Collects(CollectAll(entries), entries)
  {
    if entries != [] {
      var init, last := entries[..|entries| - 1], entries[|entries| - 1];
      CollectAllSpec(init);
      CollectStep(CollectAll(init), init, last);
      assert entries == init + [last];
    }
  }

  /** The bounds of each epoch, entry by entry. */
  method CollectBounds(entries: seq<Interval>) returns (m: Bounds)
    ensures m == CollectAll(entries)
  {
    m := map[];
    for i := 0 to |entries|
      invariant m == CollectAll(entries[..i])
    {
      m := Collect1(m, entries[i]);
      assert entries[..i + 1][..i] == entries[..i];
    }
    assert entries[..|entries|] == entries;
  }

  /** Collects the bounds of each epoch, then lists them sorted by epoch. */
  method Merge(entries: seq<Interval>) returns (table: seq<EpochRange>)
    ensures Merges(table, entries)
  {
    var m := CollectBounds(entries);
    CollectAllSpec(entries);
    var epochs := SortedList(m.Keys);
    SortedListSpec(m.Keys);
    table := Rows(m, epochs);
    RowsMerge(m, entries, epochs, table);
  }

  /** The process-wide table behind `EPOCH_RANGES`. */
  class EpochTable {
    var ranges: seq<EpochRange>

    constructor ()
      ensures ranges == []
    {
      ranges := [];
    }

    /** Replaces the table by the merged ranges of `entries`, in whatever order they came. */
    method SetEpochRanges(entries: seq<Interval>)
      modifies this
      ensures Merges(ranges, entries)
    {
      ranges := Merge(entries);
    }

    method GetEpochRange(epoch: u16) returns (r: Option<EpochRange>)
      ensures r == Lookup(ranges, epoch)
    {
      for i := 0 to |ranges|
        invariant forall j :: 0 <= j < i ==> ranges[j].epoch != epoch
        invariant Lookup(ranges, epoch) == Lookup(ranges[i..], epoch)
      {
        assert ranges[i..][1..] == ranges[i + 1..];
        if ranges[i].epoch == epoch {
          return Some(ranges[i]);
        }
      }
      return None;
    }
  }

  function Row(m: Bounds, e: u16): EpochRange
    requires e in m
  {
    EpochRange(e, m[e].0, m[e].1, TickCount(m[e].0, m[e].1))
  }

  function Rows(m: Bounds, epochs: seq<u16>): (table: seq<EpochRange>)
    requires forall i :: 0 <= i < |epochs| ==> epochs[i] in m
    ensures |table| == |epochs|
    ensures forall i :: 0 <= i < |epochs| ==> table[i] == Row(m, epochs[i])
  {
    seq(|epochs|, i requires 0 <= i < |epochs| => Row(m, epochs[i]))
  }

  function Lookup(ranges: seq<EpochRange>, epoch: u16): Option<EpochRange> {
    if ranges == [] then None
    else if ranges[0].epoch == epoch then Some(ranges[0])
    else Lookup(ranges[1..], epoch)
  }

  lemma {:induction false} LookupSpec(ranges: seq<EpochRange>, epoch: u16)
    ensures match Lookup(ranges, epoch)
            case Some(r) => r in ranges && r.epoch == epoch
            case None => forall r :: r in ranges ==> r.epoch != epoch
  {
    if ranges != [] { LookupSpec(ranges[1..], epoch); }
  }

  /**
   * For a merged table, a lookup succeeds exactly for the known epochs and gives the
   * least first tick and greatest last tick of all that epoch's intervals.
   */
  lemma {:induction false} LookupIsMergedRange(table: seq<EpochRange>, entries: seq<Interval>, epoch: u16)
    requires Merges(table, entries)
    ensures Lookup(table, epoch).Some? <==> Known(entries, epoch)
    ensures Lookup(table, epoch).Some? ==> RangeOf(Lookup(table, epoch).value, epoch, entries)
  {
    LookupSpec(table, epoch);
    if Known(entries, epoch) {
      var i :| 0 <= i < |entries| && entries[i].epoch == epoch;
      assert HasRow(table, epoch);
      var j :| 0 <= j < |table| && table[j].epoch == epoch;
      assert table[j] in table;
    }
  }

  lemma {:induction false} SpansBounds(r: EpochRange, s: EpochRange, xs: seq<Interval>, ys: seq<Interval>)
    requires Spans(r, xs) && Spans(s, ys) && r.epoch == s.epoch
    requires forall x :: x in xs ==> x in ys
    ensures s.firstTick <= r.firstTick && r.lastTick <= s.lastTick
  {
    var i :| 0 <= i < |xs| && xs[i].epoch == r.epoch && xs[i].firstTick == r.firstTick;
    var j :| 0 <= j < |xs| && xs[j].epoch == r.epoch && xs[j].lastTick == r.lastTick;
    assert xs[i] in ys && xs[j] in ys;
  }

  lemma {:induction false} SameRange(r: EpochRange, s: EpochRange, epoch: u16, xs: seq<Interval>, ys: seq<Interval>)
    requires RangeOf(r, epoch, xs) && RangeOf(s, epoch, ys)
    requires forall x :: x in xs <==> x in ys
    ensures r == s
  {
    SpansBounds(r, s, xs, ys);
    SpansBounds(s, r, ys, xs);
  }

  lemma {:induction false} KnownMonotone(xs: seq<Interval>, ys: seq<Interval>, epoch: u16)
    requires forall x :: x in xs ==> x in ys
    requires Known(xs, epoch)
    ensures Known(ys, epoch)
  {
    var i :| 0 <= i < |xs| && xs[i].epoch == epoch;
    assert xs[i] in ys;
  }

  /** The order in which the network lists the intervals, and repeats of them, do not matter. */
  lemma {:induction false} MergeIgnoresOrder(a: seq<EpochRange>, b: seq<EpochRange>, xs: seq<Interval>, ys: seq<Interval>, epoch: u16)
    requires Merges(a, xs) && Merges(b, ys)
    requires forall x :: x in xs <==> x in ys
    ensures Lookup(a, epoch) == Lookup(b, epoch)
  {
    LookupIsMergedRange(a, xs, epoch);
    LookupIsMergedRange(b, ys, epoch);
    if Known(xs, epoch) || Known(ys, epoch) {
      if Known(xs, epoch) { KnownMonotone(xs, ys, epoch); } else { KnownMonotone(ys, xs, epoch); }
      SameRange(Lookup(a, epoch).value, Lookup(b, epoch).value, epoch, xs, ys);
    }
  }

  /** The tick count of a row: both ends included, at most 2^32 - 1, and 1 if the ends are crossed. */
  lemma {:induction false} RowsCountTicks(table: seq<EpochRange>, entries: seq<Interval>, r: EpochRange)
    requires Merges(table, entries) && r in table
    ensures r.tickCount == if r.firstTick > r.lastTick then 1 else if r.lastTick - r.firstTick == 0xFFFF_FFFF then 0xFFFF_FFFF else r.lastTick - r.firstTick + 1
  {
  }
}
