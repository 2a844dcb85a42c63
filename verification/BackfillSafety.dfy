/** Which ranges a connection can always finish without a wrapped skip, and what happens on the others. */
module BackfillSafety {
  import opened Bytes
  import opened Backfill
  import opened BackfillLaws

  /** The fewest ticks a connection passes while it makes `k` skips without a success between them. */
  function Gaps(k: nat): nat {
    if k == 0 then 0 else Gaps(k - 1) + SkipSizeAfter(k - 1) + MAX_CONSECUTIVE_FAILURES
  }

  /** Wherever in the range a connection can be when it skips for the `k`-th time, the addition stays within u32. */
  ghost predicate Safe(lo: u32, end: u32) {
    forall k: nat :: lo + Gaps(k) + 49 < end ==> end - 1 + SkipSizeAfter(k) < 0x1_0000_0000
  }

  /** Whatever the network does, a clean finish has handled every tick of the range once and no other. */
  ghost predicate AlwaysExact(lo: u32, end: u32)
    requires lo <= end
  {
    forall draws: seq<u32>, inputs: seq<Input> :: Connection(lo, end, draws, inputs).phase == Finished ==>
      forall t: u32 :: Handled(Connection(lo, end, draws, inputs).acts, t) == Due(lo, end, t)
  }

  // ---------------------------------------------------------------- safe ranges never wrap

  /** How far the window must be after the skips since the last success, the failures since and the requests in flight. */
  ghost predicate Spaced(c: Conn, lo: u32, end: u32) {
    && Unwrapped(c.acts)
    && (c.next == end || c.next >= lo + Gaps(Backoff(c.acts)) + c.failures + |c.expected|)
    && (c.next < end && c.failures >= MAX_CONSECUTIVE_FAILURES ==> |c.expected| >= PIPELINE_DEPTH - 1)
  }

  lemma {:induction false} SendSpaced(c: Conn, lo: u32, end: u32, draw: u32)
    requires FillInv(c, lo, end) && Spaced(c, lo, end) && c.next < end && c.failures < MAX_CONSECUTIVE_FAILURES
    ensures Spaced(Send(c, draw), lo, end)
  {
    RequestedSnoc(c.acts, c.next, Max(draw, 1), lo, end);
  }

  lemma {:induction false} SkipRoom(c: Conn, lo: u32, end: u32)
    requires FillInv(c, lo, end) && Spaced(c, lo, end) && Safe(lo, end)
    requires c.next < end && c.failures >= MAX_CONSECUTIVE_FAILURES && |c.expected| < PIPELINE_DEPTH
    ensures var c', k := SkipAhead(c, end), Backoff(c.acts);
            c.next < c'.next && (c'.next == end || c'.next >= lo + Gaps(k + 1) + |c.expected|)
  {
    var k := Backoff(c.acts);
    assert lo + Gaps(k) + 49 < end;
    SkipMovesForward(c.next, c.skipSize, end);
    assert Gaps(k + 1) == Gaps(k) + c.skipSize + 30;
  }

  lemma {:induction false} SkipSpaced(c: Conn, lo: u32, end: u32)
    requires FillInv(c, lo, end) && Spaced(c, lo, end) && Safe(lo, end)
    requires c.next < end && c.failures >= MAX_CONSECUTIVE_FAILURES && |c.expected| < PIPELINE_DEPTH
    ensures Spaced(SkipAhead(c, end), lo, end)
  {
    SkipRoom(c, lo, end);
    Snoc(c.acts, SkipAhead(c, end).acts[|c.acts|]);
  }

  lemma {:induction false} FillSpaced(c: Conn, lo: u32, end: u32, draws: seq<u32>)
    requires FillInv(c, lo, end) && Spaced(c, lo, end) && Safe(lo, end) && c.phase == Open
    ensures Spaced(Fill(c, end, draws), lo, end)
    decreases |draws|, c.failures
  {
    if c.next < end && |c.expected| < PIPELINE_DEPTH {
      if c.failures >= MAX_CONSECUTIVE_FAILURES {
        SkipKeeps(c, lo, end);
        SkipSpaced(c, lo, end);
        FillSpaced(SkipAhead(c, end), lo, end, draws);
      } else if draws != [] {
        SendKeeps(c, lo, end, draws[0]);
        SendSpaced(c, lo, end, draws[0]);
        FillSpaced(Send(c, draws[0]), lo, end, draws[1..]);
      }
    }
  }

  lemma {:induction false} RecordSpaced(c: Conn, lo: u32, end: u32, i: nat, input: Input)
    requires Inv(c, lo, end) && Spaced(c, lo, end) && c.phase == Open && i < |c.expected|
    requires input.Packet? && input.msgType in {8, 35, 54}
    ensures Spaced(Record(c, i, input), lo, end)
  {
    Snoc(c.acts, Record(c, i, input).acts[|c.acts|]);
    assert Gaps(0) == 0;
  }

  lemma {:induction false} MatchSpaced(c: Conn, lo: u32, end: u32, input: Input)
    requires Inv(c, lo, end) && Spaced(c, lo, end) && Safe(lo, end) && Matches(c, input)
    ensures Spaced(Step(c, end, input), lo, end)
  {
    var i := Position(c.expected, input.dejavu).value;
    assert c.expected[i].TickData?;
    RecordKeeps(c, lo, end, i, input);
    RecordSpaced(c, lo, end, i, input);
    FillSpaced(Record(c, i, input), lo, end, input.draws);
  }

  lemma {:induction false} TimeoutSpaced(c: Conn, lo: u32, end: u32)
    requires Inv(c, lo, end) && Spaced(c, lo, end) && c.phase == Open
    ensures Spaced(Step(c, end, Timeout), lo, end)
  {
    TimeoutKeeps(c.acts, c.expected, lo, end);
  }

  lemma {:induction false} TransactionSpaced(c: Conn, lo: u32, end: u32)
    requires Spaced(c, lo, end)
    ensures Spaced(c.(acts := c.acts + [Transaction]), lo, end)
  {
    Snoc(c.acts, Transaction);
  }

  lemma {:induction false} StepSpaced(c: Conn, lo: u32, end: u32, input: Input)
    requires Inv(c, lo, end) && Spaced(c, lo, end) && Safe(lo, end)
    ensures Spaced(Step(c, end, input), lo, end)
  {
    if c.phase == Open {
      if Matches(c, input) {
        MatchSpaced(c, lo, end, input);
      } else if input.Packet? {
        TransactionSpaced(c, lo, end);
      } else if input.Timeout? {
        TimeoutSpaced(c, lo, end);
      }
    }
  }

  lemma {:induction false} StartSpaced(lo: u32, end: u32, draws: seq<u32>)
    requires lo <= end && Safe(lo, end)
    ensures Spaced(Fill(Start(lo), end, draws), lo, end)
  {
    assert Pow2(0) == 1 && Gaps(0) == 0;
    FillSpaced(Start(lo), lo, end, draws);
  }

  /** On a safe range no skip ever wraps. */
  lemma {:induction false} SafeNeverWraps(lo: u32, end: u32, draws: seq<u32>, inputs: seq<Input>)
    requires lo <= end && Safe(lo, end)
    ensures Spaced(Connection(lo, end, draws, inputs), lo, end)
  {
    if inputs == [] {
      StartSpaced(lo, end, draws);
    } else {
      var init := inputs[..|inputs| - 1];
      ConnectionInv(lo, end, draws, init);
      SafeNeverWraps(lo, end, draws, init);
      StepSpaced(Connection(lo, end, draws, init), lo, end, inputs[|inputs| - 1]);
    }
  }

  // ---------------------------------------------------------------- driving a connection

  /** A full window of tick requests, all with dejavu 1. */
  ghost predicate Loaded(c: Conn, next: nat, failures: nat, skips: nat) {
    && c.phase == Open && c.next == next && c.failures == failures && c.skipSize == SkipSizeAfter(skips)
    && |c.expected| == PIPELINE_DEPTH && Ones(c.expected)
  }

  ghost predicate Ones(expected: seq<Expected>) {
    forall i :: 0 <= i < |expected| ==> expected[i].TickData? && expected[i].dejavu == 1
  }

  lemma {:induction false} FillOnes(c: Conn, end: u32, draws: seq<u32>, skips: nat)
    requires Ready(c, end) && c.phase == Open && c.failures < MAX_CONSECUTIVE_FAILURES && c.skipSize == SkipSizeAfter(skips)
    requires |c.expected| + |draws| == PIPELINE_DEPTH && c.next + |draws| <= end && Ones(c.expected)
    requires forall i :: 0 <= i < |draws| ==> draws[i] == 1
    ensures Loaded(Fill(c, end, draws), c.next + |draws|, c.failures, skips)
    decreases |draws|
  {
    if draws != [] { FillOnes(Send(c, draws[0]), end, draws[1..], skips); }
  }

  const ONES := seq(PIPELINE_DEPTH, (i: nat) => 1)

  const UNAVAILABLE := Packet(35, 1, [], false, [1])

  const SERVED := Packet(8, 1, [0, 0, 0, 0, 0, 0, 0, 0], true, [1])

  /** Which request a reply with dejavu 1 answers does not matter. */
  lemma {:induction false} OneMatches(c: Conn, end: u32, input: Input) returns (i: nat)
    requires Ready(c, end) && c.phase == Open && c.expected != [] && Ones(c.expected)
    requires input.Packet? && input.msgType in {8, 35, 54} && input.dejavu == 1
    ensures i < |c.expected| && Step(c, end, input) == Fill(Record(c, i, input), end, input.draws)
    ensures Ones(Record(c, i, input).expected)
  {
    assert c.expected[0].dejavu == 1;
    i := Position(c.expected, 1).value;
    assert c.expected[i].TickData?;
  }

  lemma {:induction false} ServeStep(c: Conn, end: u32, next: nat, failures: nat, skips: nat)
    requires Ready(c, end) && Loaded(c, next, failures, skips) && next + 1 <= end
    ensures Loaded(Step(c, end, SERVED), next + 1, 0, 0)
  {
    var i := OneMatches(c, end, SERVED);
    assert Pow2(0) == 1;
    FillOnes(Record(c, i, SERVED), end, [1], 0);
  }

  lemma {:induction false} FailStep(c: Conn, end: u32, next: nat, failures: nat, skips: nat)
    requires Ready(c, end) && Loaded(c, next, failures, skips) && next + 1 <= end && failures + 1 < MAX_CONSECUTIVE_FAILURES
    ensures Loaded(Step(c, end, UNAVAILABLE), next + 1, failures + 1, skips)
  {
    var i := OneMatches(c, end, UNAVAILABLE);
    FillOnes(Record(c, i, UNAVAILABLE), end, [1], skips);
  }

  /** The thirtieth failure in a row skips ahead. */
  lemma {:induction false} SkipStep(c: Conn, end: u32, next: nat, skips: nat)
    requires Ready(c, end) && Loaded(c, next, 29, skips) && next + SkipSizeAfter(skips) + 1 <= end
    ensures Loaded(Step(c, end, UNAVAILABLE), next + SkipSizeAfter(skips) + 1, 0, skips + 1)
  {
    var i := OneMatches(c, end, UNAVAILABLE);
    var c' := Record(c, i, UNAVAILABLE);
    SkipMovesForward(c'.next, c'.skipSize, end);
    SkipSizeDoubles(skips);
    FillOnes(SkipAhead(c', end), end, [1], skips + 1);
  }

  /** Where the addition wraps, it leaves a wrapped skip in the history of a connection that goes on. */
  lemma {:induction false} WrapStep(c: Conn, end: u32, next: nat, skips: nat)
    requires Ready(c, end) && Loaded(c, next, 29, skips) && next < end && next + SkipSizeAfter(skips) >= 0x1_0000_0000
    ensures Step(c, end, UNAVAILABLE).phase == Open && !Unwrapped(Step(c, end, UNAVAILABLE).acts)
  {
    var i := OneMatches(c, end, UNAVAILABLE);
    var c' := Record(c, i, UNAVAILABLE);
    SkipMovesForward(c'.next, c'.skipSize, end);
    SkipSizeDoubles(skips);
    FillOnes(SkipAhead(c', end), end, [1], skips + 1);
    FillExtends(SkipAhead(c', end), end, [1]);
    WrapStays(c', end, Step(c, end, UNAVAILABLE).acts);
  }

  lemma {:induction false} WrapStays(c: Conn, end: u32, all: seq<Act>)
    requires SkipAhead(c, end).acts <= all && SkipAhead(c, end).next <= c.next
    ensures !Unwrapped(all)
  {
    Snoc(c.acts, SkipAhead(c, end).acts[|c.acts|]);
    if Unwrapped(all) { UnwrappedPrefix(SkipAhead(c, end).acts, all); }
  }

  lemma {:induction false} OneMore(lo: u32, end: u32, draws: seq<u32>, inputs: seq<Input>, input: Input)
    requires lo <= end
    ensures Connection(lo, end, draws, inputs + [input]) == Step(Connection(lo, end, draws, inputs), end, input)
  {
    assert (inputs + [input])[..|inputs|] == inputs;
  }

  /** `x` replies with data, the first of them after the first fill. */
  lemma {:induction false} ServeMany(lo: u32, end: u32, x: nat) returns (inputs: seq<Input>)
    requires lo + PIPELINE_DEPTH + x <= end
    ensures Loaded(Connection(lo, end, ONES, inputs), lo + PIPELINE_DEPTH + x, 0, 0)
  {
    if x == 0 {
      inputs := [];
      assert Pow2(0) == 1;
      FillOnes(Start(lo), end, ONES, 0);
    } else {
      inputs := ServeMany(lo, end, x - 1);
      ServeStep(Connection(lo, end, ONES, inputs), end, lo + PIPELINE_DEPTH + x - 1, 0, 0);
      OneMore(lo, end, ONES, inputs, SERVED);
      inputs := inputs + [SERVED];
    }
  }

  lemma {:induction false} FailMany(lo: u32, end: u32, before: seq<Input>, next: nat, skips: nat, f: nat) returns (inputs: seq<Input>)
    requires lo <= end && Loaded(Connection(lo, end, ONES, before), next, 0, skips) && f < MAX_CONSECUTIVE_FAILURES && next + f <= end
    ensures Loaded(Connection(lo, end, ONES, inputs), next + f, f, skips)
  {
    if f == 0 {
      inputs := before;
    } else {
      inputs := FailMany(lo, end, before, next, skips, f - 1);
      FailStep(Connection(lo, end, ONES, inputs), end, next + f - 1, f - 1, skips);
      OneMore(lo, end, ONES, inputs, UNAVAILABLE);
      inputs := inputs + [UNAVAILABLE];
    }
  }

  /** `x` replies with data, then `k` skips in a row. */
  lemma {:induction false} SkipMany(lo: u32, end: u32, x: nat, k: nat) returns (inputs: seq<Input>)
    requires lo + PIPELINE_DEPTH + x + Gaps(k) <= end
    ensures Loaded(Connection(lo, end, ONES, inputs), lo + PIPELINE_DEPTH + x + Gaps(k), 0, k)
  {
    if k == 0 {
      inputs := ServeMany(lo, end, x);
    } else {
      var next := lo + PIPELINE_DEPTH + x + Gaps(k - 1);
      inputs := SkipMany(lo, end, x, k - 1);
      inputs := FailMany(lo, end, inputs, next, k - 1, 29);
      SkipStep(Connection(lo, end, ONES, inputs), end, next + 29, k - 1);
      OneMore(lo, end, ONES, inputs, UNAVAILABLE);
      inputs := inputs + [UNAVAILABLE];
    }
  }

  /** On an unsafe range some network makes a skip wrap. */
  lemma {:induction false} UnsafeCanWrap(lo: u32, end: u32, k: nat) returns (inputs: seq<Input>)
    requires lo + Gaps(k) + 49 < end && end - 1 + SkipSizeAfter(k) >= 0x1_0000_0000
    ensures Connection(lo, end, ONES, inputs).phase == Open && !Unwrapped(Connection(lo, end, ONES, inputs).acts)
  {
    var x := end - 50 - lo - Gaps(k);
    inputs := SkipMany(lo, end, x, k);
    inputs := FailMany(lo, end, inputs, lo + PIPELINE_DEPTH + x + Gaps(k), k, 29);
    WrapStep(Connection(lo, end, ONES, inputs), end, end - 1, k);
    OneMore(lo, end, ONES, inputs, UNAVAILABLE);
    inputs := inputs + [UNAVAILABLE];
  }

  // ---------------------------------------------------------------- every open connection can finish

  /** The reply that serves the first request in flight. */
  function Serve(c: Conn): Input
    requires c.expected != []
  {
    Packet(8, c.expected[0].dejavu, [0, 0, 0, 0, 0, 0, 0, 0], true, [1])
  }

  lemma {:induction false} ServeShrinks(c: Conn, lo: u32, end: u32)
    requires Inv(c, lo, end) && c.phase == Open
    ensures var c' := Step(c, end, Serve(c));
            && c'.phase != Broken && Fuel(c', end) < Fuel(c, end) && c.acts <= c'.acts
            && (Unwrapped(c.acts) ==> Unwrapped(c'.acts))
  {
    var input := Serve(c);
    var i := Position(c.expected, input.dejavu).value;
    assert c.expected[i].TickData?;
    var c' := Record(c, i, input);
    StepKeeps(c, lo, end, input);
    if Unwrapped(c.acts) { AnswerUnwrapped(c, i, input); }
    if c'.next < end {
      Snoc(c'.acts, Requested(c'.next, 1));
      assert Fill(c', end, [1]) == Fill(Send(c', 1), end, []);
    }
  }

  /** From any open connection on, replies with data lead to a clean finish. */
  lemma {:induction false} CanFinish(lo: u32, end: u32, draws: seq<u32>, inputs: seq<Input>) returns (all: seq<Input>)
    requires lo <= end && Connection(lo, end, draws, inputs).phase != Broken
    ensures Connection(lo, end, draws, all).phase == Finished
    ensures Connection(lo, end, draws, inputs).acts <= Connection(lo, end, draws, all).acts
    ensures Unwrapped(Connection(lo, end, draws, inputs).acts) ==> Unwrapped(Connection(lo, end, draws, all).acts)
    decreases Fuel(Connection(lo, end, draws, inputs), end)
  {
    var c := Connection(lo, end, draws, inputs);
    if c.phase == Finished {
      all := inputs;
    } else {
      ConnectionInv(lo, end, draws, inputs);
      ServeShrinks(c, lo, end);
      OneMore(lo, end, draws, inputs, Serve(c));
      all := CanFinish(lo, end, draws, inputs + [Serve(c)]);
    }
  }

  lemma {:induction false} FirstFill(c: Conn, end: u32, draws: seq<u32>)
    requires Ready(c, end) && c.phase == Open && c.failures == 0 && |c.expected| + |draws| >= PIPELINE_DEPTH && Unwrapped(c.acts)
    ensures Fill(c, end, draws).phase != Broken && Unwrapped(Fill(c, end, draws).acts)
    decreases |draws|
  {
    if c.next < end && |c.expected| < PIPELINE_DEPTH {
      Snoc(c.acts, Requested(c.next, Max(draws[0], 1)));
      FirstFill(Send(c, draws[0]), end, draws[1..]);
    }
  }

  /** A network that serves every request finishes every range without a skip. */
  lemma {:induction false} ServedFinishes(lo: u32, end: u32) returns (inputs: seq<Input>)
    requires lo <= end
    ensures Connection(lo, end, ONES, inputs).phase == Finished && Unwrapped(Connection(lo, end, ONES, inputs).acts)
  {
    FirstFill(Start(lo), end, ONES);
    inputs := CanFinish(lo, end, ONES, []);
  }

  // ---------------------------------------------------------------- nothing is left out

  /** Every tick passed so far was handled, wrapped skips or not. */
  ghost predicate LeavesNoGap(c: Conn, lo: u32) {
    forall t: u32 :: lo <= t < c.next ==> Handled(c.acts, t) >= 1
  }

  lemma {:induction false} GapStep(c: Conn, lo: u32, a: Act, next: u32)
    requires LeavesNoGap(c, lo)
    requires || (a.Requested? && a.tick == c.next && next == c.next + 1)
             || (a.Skipped? && a.from == c.next && a.to == next)
    ensures LeavesNoGap(c.(acts := c.acts + [a], next := next), lo)
  {
    Snoc(c.acts, a);
    forall t: u32 | lo <= t < next ensures Handled(c.acts + [a], t) >= 1 {
      assert t < c.next ==> Handled(c.acts, t) >= 1;
    }
  }

  lemma {:induction false} FillLeavesNoGap(c: Conn, lo: u32, end: u32, draws: seq<u32>)
    requires Ready(c, end) && LeavesNoGap(c, lo)
    ensures LeavesNoGap(Fill(c, end, draws), lo)
    decreases |draws|, c.failures
  {
    if c.next < end && |c.expected| < PIPELINE_DEPTH {
      if c.failures >= MAX_CONSECUTIVE_FAILURES {
        var to := SkipTarget(c.next, c.skipSize, end);
        GapStep(c, lo, Skipped(c.next, to), to);
        FillLeavesNoGap(SkipAhead(c, end), lo, end, draws);
      } else if draws != [] {
        GapStep(c, lo, Requested(c.next, Max(draws[0], 1)), c.next + 1);
        FillLeavesNoGap(Send(c, draws[0]), lo, end, draws[1..]);
      }
    }
  }

  lemma {:induction false} GrowthLeavesNoGap(c: Conn, c': Conn, lo: u32)
    requires LeavesNoGap(c, lo) && c.acts <= c'.acts && c'.next == c.next
    ensures LeavesNoGap(c', lo)
  {
    forall t: u32 | lo <= t < c'.next ensures Handled(c'.acts, t) >= 1 { HandledGrows(c.acts, c'.acts, t); }
  }

  lemma {:induction false} StepLeavesNoGap(c: Conn, lo: u32, end: u32, input: Input)
    requires Inv(c, lo, end) && LeavesNoGap(c, lo)
    ensures LeavesNoGap(Step(c, end, input), lo)
  {
    if Matches(c, input) {
      var i := Position(c.expected, input.dejavu).value;
      assert c.expected[i].TickData?;
      RecordKeeps(c, lo, end, i, input);
      GrowthLeavesNoGap(c, Record(c, i, input), lo);
      FillLeavesNoGap(Record(c, i, input), lo, end, input.draws);
    } else {
      StepKeeps(c, lo, end, input);
      GrowthLeavesNoGap(c, Step(c, end, input), lo);
    }
  }

  lemma {:induction false} ConnectionLeavesNoGap(lo: u32, end: u32, draws: seq<u32>, inputs: seq<Input>)
    requires lo <= end
    ensures LeavesNoGap(Connection(lo, end, draws, inputs), lo)
  {
    if inputs == [] {
      FillLeavesNoGap(Start(lo), lo, end, draws);
    } else {
      var init := inputs[..|inputs| - 1];
      ConnectionInv(lo, end, draws, init);
      ConnectionLeavesNoGap(lo, end, draws, init);
      StepLeavesNoGap(Connection(lo, end, draws, init), lo, end, inputs[|inputs| - 1]);
    }
  }

  /** On an unsafe range a connection can wrap and still end cleanly, having handled some tick once too often. */
  lemma {:induction false} UnsafeCanFinish(lo: u32, end: u32) returns (inputs: seq<Input>)
    requires lo <= end && !Safe(lo, end)
    ensures Connection(lo, end, ONES, inputs).phase == Finished
    ensures !Unwrapped(Connection(lo, end, ONES, inputs).acts) && Over(Connection(lo, end, ONES, inputs).acts, lo, end)
  {
    var k: nat :| lo + Gaps(k) + 49 < end && end - 1 + SkipSizeAfter(k) >= 0x1_0000_0000;
    var wrapped := UnsafeCanWrap(lo, end, k);
    inputs := CanFinish(lo, end, ONES, wrapped);
    if Unwrapped(Connection(lo, end, ONES, inputs).acts) {
      UnwrappedPrefix(Connection(lo, end, ONES, wrapped).acts, Connection(lo, end, ONES, inputs).acts);
    }
    ConnectionWrapShows(lo, end, ONES, inputs);
  }

  /**
   * A clean finish always means that every tick of the range was handled exactly once, and no other
   * tick at all, if and only if the range is safe.
   */
  lemma {:induction false} AlwaysExactIff(lo: u32, end: u32)
    requires lo <= end
    ensures AlwaysExact(lo, end) <==> Safe(lo, end)
  {
    if Safe(lo, end) {
      forall draws: seq<u32>, inputs: seq<Input> | Connection(lo, end, draws, inputs).phase == Finished
        ensures forall t: u32 :: Handled(Connection(lo, end, draws, inputs).acts, t) == Due(lo, end, t)
      {
        SafeNeverWraps(lo, end, draws, inputs);
        CleanFinishIff(lo, end, draws, inputs);
      }
    } else {
      var inputs := UnsafeCanFinish(lo, end);
      var t: u32 :| Handled(Connection(lo, end, ONES, inputs).acts, t) > Due(lo, end, t);
    }
  }

  /** Ranges that end 1000000 ticks or more below 2^32 are safe, and so are ranges of at most 49 ticks. */
  lemma {:induction false} SafeRanges(lo: u32, end: u32)
    requires Bounded(end) || end <= lo + 49
    ensures Safe(lo, end)
  {
    forall k: nat | lo + Gaps(k) + 49 < end ensures end - 1 + SkipSizeAfter(k) < 0x1_0000_0000 { SkipSizeDoubles(k); }
  }

  /** The last 50 ticks before 2^32 are not. */
  lemma {:induction false} LastTicksAreUnsafe()
    ensures !Safe(0xFFFF_FFCD, 0xFFFF_FFFF)
  {
    assert Gaps(0) == 0 && Pow2(0) == 1;
    assert SkipSizeAfter(0) == 10_000;
  }
}
