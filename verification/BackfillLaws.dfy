/** What every step of a backfill connection keeps, and what follows for whole connections. */
module BackfillLaws {
  import opened Bytes
  import opened Backfill

  // ---------------------------------------------------------------- histories grow by one act

  lemma {:induction false} Snoc(acts: seq<Act>, a: Act)
    ensures (acts + [a])[..|acts + [a]| - 1] == acts
  {
  }

  lemma {:induction false} DisciplinedSnoc(acts: seq<Act>, a: Act, end: u32)
    requires Disciplined(acts, end)
    requires a.Skipped? ==>
               && Streak(acts) >= MAX_CONSECUTIVE_FAILURES
               && a.from < end && a.to == SkipTarget(a.from, SkipSizeAfter(Backoff(acts)), end)
    ensures Disciplined(acts + [a], end)
  {
    var all := acts + [a];
    forall i | 0 <= i < |all| && all[i].Skipped?
      ensures Streak(all[..i]) >= MAX_CONSECUTIVE_FAILURES
      ensures all[i].from < end && all[i].to == SkipTarget(all[i].from, SkipSizeAfter(Backoff(all[..i])), end)
    {
      assert all[..i] == acts[..i];
      if i == |acts| { assert acts[..i] == acts; } else { assert all[i] == acts[i]; }
    }
  }

  lemma {:induction false} SkipSizeDoubles(k: nat)
    ensures 1 <= SkipSizeAfter(k) <= FAILURE_SKIP_MAX
    ensures SkipSizeAfter(k + 1) == Min(SkipSizeAfter(k) * 2, FAILURE_SKIP_MAX)
    ensures Pow2(k) >= 1
  {
    if k > 0 { SkipSizeDoubles(k - 1); }
  }

  lemma {:induction false} InFlightAppend(a: seq<Expected>, b: seq<Expected>)
    ensures InFlight(a + b) == InFlight(a) + InFlight(b)
  {
    if b == [] {
      assert a + b == a;
    } else {
      assert (a + b)[..|a + b| - 1] == a + b[..|b| - 1];
      InFlightAppend(a, b[..|b| - 1]);
    }
  }

  lemma {:induction false} InFlightWithout(expected: seq<Expected>, i: nat)
    requires i < |expected|
    ensures InFlight(expected) == InFlight(Without(expected, i)) + multiset{expected[i].tick}
  {
    var one := [expected[i]];
    assert expected == (expected[..i] + one) + expected[i + 1..];
    InFlightAppend(expected[..i] + one, expected[i + 1..]);
    InFlightAppend(expected[..i], one);
    InFlightAppend(expected[..i], expected[i + 1..]);
    assert one[..0] == [];
  }

  // ---------------------------------------------------------------- the fill loop

  lemma {:induction false} SkipKeeps(c: Conn, lo: u32, end: u32)
    requires FillInv(c, lo, end) && c.next < end && c.failures >= MAX_CONSECUTIVE_FAILURES
    ensures FillInv(SkipAhead(c, end), lo, end)
    ensures c.next < SkipAhead(c, end).next <==> c.next + c.skipSize < 0x1_0000_0000
    ensures c.next < SkipAhead(c, end).next ==> Fuel(SkipAhead(c, end), end) < Fuel(c, end)
  {
    SkipMovesForward(c.next, c.skipSize, end);
    var a := Skipped(c.next, SkipTarget(c.next, c.skipSize, end));
    Snoc(c.acts, a);
    SkipSizeDoubles(Backoff(c.acts));
    DisciplinedSnoc(c.acts, a, end);
  }

  lemma {:induction false} RequestedSnoc(acts: seq<Act>, tick: u32, dejavu: u32, lo: u32, end: u32)
    requires Disciplined(acts, end) && Walk(lo, acts) == (if Unwrapped(acts) then tick else -1)
    ensures var all := acts + [Requested(tick, dejavu)];
            && Unwrapped(all) == Unwrapped(acts)
            && Walk(lo, all) == (if Unwrapped(all) then tick + 1 else -1)
            && Requests(all) == Requests(acts) + multiset{tick}
            && Answers(all) == Answers(acts)
            && Streak(all) == Streak(acts) && Backoff(all) == Backoff(acts)
            && Disciplined(all, end)
  {
    Snoc(acts, Requested(tick, dejavu));
    DisciplinedSnoc(acts, Requested(tick, dejavu), end);
  }

  lemma {:induction false} InFlightSnoc(expected: seq<Expected>, e: Expected)
    ensures InFlight(expected + [e]) == InFlight(expected) + multiset{e.tick}
  {
    assert (expected + [e])[..|expected|] == expected;
  }

  lemma {:induction false} UnionAssociates(sent: multiset<u32>, answered: multiset<u32>, open: multiset<u32>, one: multiset<u32>)
    requires sent == answered + open
    ensures sent + one == answered + (open + one)
  {
  }

  /** The part of the history invariant that relates requests, answers and the queue. */
  ghost predicate Balanced(acts: seq<Act>, expected: seq<Expected>) {
    Requests(acts) == Answers(acts) + InFlight(expected) && forall i :: 0 <= i < |expected| ==> expected[i].TickData?
  }

  lemma {:induction false} RequestGrows(acts: seq<Act>, tick: u32, dejavu: u32)
    ensures Requests(acts + [Requested(tick, dejavu)]) == Requests(acts) + multiset{tick}
    ensures Answers(acts + [Requested(tick, dejavu)]) == Answers(acts)
  {
    Snoc(acts, Requested(tick, dejavu));
  }

  lemma {:induction false} BalancedSend(acts: seq<Act>, expected: seq<Expected>, tick: u32, dejavu: u32)
    requires Balanced(acts, expected)
    ensures Balanced(acts + [Requested(tick, dejavu)], expected + [TickData(tick, dejavu)])
  {
    var e := TickData(tick, dejavu);
    RequestGrows(acts, tick, dejavu);
    InFlightSnoc(expected, e);
    UnionAssociates(Requests(acts), Answers(acts), InFlight(expected), multiset{tick});
  }

  lemma {:induction false} SendHistory(c: Conn, lo: u32, end: u32, draw: u32)
    requires HistoryInv(c, lo, end) && c.next + 1 < 0x1_0000_0000
    ensures HistoryInv(Send(c, draw), lo, end)
  {
    assert Balanced(c.acts, c.expected);
    RequestedSnoc(c.acts, c.next, Max(draw, 1), lo, end);
    BalancedSend(c.acts, c.expected, c.next, Max(draw, 1));
  }

  lemma {:induction false} SendKeeps(c: Conn, lo: u32, end: u32, draw: u32)
    requires FillInv(c, lo, end) && c.next < end && c.failures < MAX_CONSECUTIVE_FAILURES && |c.expected| < PIPELINE_DEPTH
    ensures FillInv(Send(c, draw), lo, end)
    ensures Fuel(Send(c, draw), end) < Fuel(c, end)
  {
    SendHistory(c, lo, end, draw);
  }

  lemma {:induction false} SettleKeeps(c: Conn, lo: u32, end: u32)
    requires FillInv(c, lo, end) && c.phase == Open
    requires c.next == end || |c.expected| == PIPELINE_DEPTH
    ensures Inv(Settle(c), lo, end)
  {
  }

  lemma {:induction false} FillKeeps(c: Conn, lo: u32, end: u32, draws: seq<u32>)
    requires FillInv(c, lo, end) && c.phase == Open
    ensures Inv(Fill(c, end, draws), lo, end)
    decreases |draws|, c.failures
  {
    if c.next < end && |c.expected| < PIPELINE_DEPTH {
      if c.failures >= MAX_CONSECUTIVE_FAILURES {
        SkipKeeps(c, lo, end);
        FillKeeps(SkipAhead(c, end), lo, end, draws);
      } else if draws != [] {
        SendKeeps(c, lo, end, draws[0]);
        FillKeeps(Send(c, draws[0]), lo, end, draws[1..]);
      }
    } else {
      SettleKeeps(c, lo, end);
    }
  }

  lemma {:induction false} FillExtends(c: Conn, end: u32, draws: seq<u32>)
    requires Ready(c, end)
    ensures c.acts <= Fill(c, end, draws).acts
    decreases |draws|, c.failures
  {
    if c.next < end && |c.expected| < PIPELINE_DEPTH {
      if c.failures >= MAX_CONSECUTIVE_FAILURES {
        FillExtends(SkipAhead(c, end), end, draws);
      } else if draws != [] {
        FillExtends(Send(c, draws[0]), end, draws[1..]);
      }
    }
  }

  lemma {:induction false} UnwrappedPrefix(a: seq<Act>, b: seq<Act>)
    requires a <= b && Unwrapped(b)
    ensures Unwrapped(a)
  {
    if a != b {
      assert a <= b[..|b| - 1];
      UnwrappedPrefix(a, b[..|b| - 1]);
    }
  }

  lemma {:induction false} UnwrappedSkip(c: Conn, end: u32)
    requires Unwrapped(SkipAhead(c, end).acts)
    ensures c.next < SkipAhead(c, end).next
  {
    Snoc(c.acts, SkipAhead(c, end).acts[|c.acts|]);
  }

  /** Refilling never rewrites history, and never adds fuel unless a skip wraps. */
  lemma {:induction false} FillGrows(c: Conn, end: u32, draws: seq<u32>)
    requires Ready(c, end)
    ensures c.acts <= Fill(c, end, draws).acts
    ensures Unwrapped(Fill(c, end, draws).acts) ==> Fuel(Fill(c, end, draws), end) <= Fuel(c, end)
    decreases |draws|, c.failures
  {
    FillExtends(c, end, draws);
    if c.next < end && |c.expected| < PIPELINE_DEPTH {
      if c.failures >= MAX_CONSECUTIVE_FAILURES {
        FillGrows(SkipAhead(c, end), end, draws);
        if Unwrapped(Fill(c, end, draws).acts) {
          UnwrappedPrefix(SkipAhead(c, end).acts, Fill(c, end, draws).acts);
          UnwrappedSkip(c, end);
        }
      } else if draws != [] {
        FillGrows(Send(c, draws[0]), end, draws[1..]);
      }
    }
  }

  // ---------------------------------------------------------------- the read loop

  /** The state a matched reply hands to the fill loop. */
  lemma {:induction false} AnswerKeeps(c: Conn, lo: u32, end: u32, i: nat, a: Act, failures: nat, skipSize: nat)
    requires Inv(c, lo, end) && c.phase == Open && i < |c.expected|
    requires IsAnswer(a) && a.tick == c.expected[i].tick && !a.TimedOut?
    requires failures == Streak(c.acts + [a]) && skipSize == SkipSizeAfter(Backoff(c.acts + [a]))
    ensures var c' := c.(expected := Without(c.expected, i), failures := failures, skipSize := skipSize, acts := c.acts + [a]);
            FillInv(c', lo, end) && Fuel(c', end) < Fuel(c, end)
  {
    Snoc(c.acts, a);
    DisciplinedSnoc(c.acts, a, end);
    InFlightWithout(c.expected, i);
    SkipSizeDoubles(Backoff(c.acts + [a]));
  }

  lemma {:induction false} RecordKeeps(c: Conn, lo: u32, end: u32, i: nat, input: Input)
    requires Inv(c, lo, end) && c.phase == Open && i < |c.expected|
    requires input.Packet? && input.msgType in {8, 35, 54}
    ensures FillInv(Record(c, i, input), lo, end)
    ensures Fuel(Record(c, i, input), end) < Fuel(c, end)
    ensures c.acts < Record(c, i, input).acts
  {
    var c' := Record(c, i, input);
    RecordHistory(c, i, input);
    AnswerKeeps(c, lo, end, i, c'.acts[|c.acts|], c'.failures, c'.skipSize);
  }

  lemma {:induction false} RecordHistory(c: Conn, i: nat, input: Input)
    requires i < |c.expected| && input.Packet? && input.msgType in {8, 35, 54}
    requires c.failures == Streak(c.acts) && c.skipSize == SkipSizeAfter(Backoff(c.acts))
    ensures var c' := Record(c, i, input);
            && |c'.acts| == |c.acts| + 1
            && var a := c'.acts[|c.acts|];
            && c' == c.(expected := Without(c.expected, i), failures := c'.failures, skipSize := c'.skipSize, acts := c.acts + [a])
            && IsAnswer(a) && a.tick == c.expected[i].tick && !a.TimedOut?
            && c'.failures == Streak(c.acts + [a]) && c'.skipSize == SkipSizeAfter(Backoff(c.acts + [a]))
  {
    Snoc(c.acts, Record(c, i, input).acts[|c.acts|]);
    assert Pow2(0) == 1;
  }

  lemma {:induction false} ReplyKeeps(c: Conn, lo: u32, end: u32, i: nat, input: Input)
    requires Inv(c, lo, end) && c.phase == Open && i < |c.expected|
    requires input.Packet? && input.msgType in {8, 35, 54}
    ensures Inv(Reply(c, end, i, input), lo, end)
    ensures Unwrapped(Reply(c, end, i, input).acts) ==> Fuel(Reply(c, end, i, input), end) < Fuel(c, end)
    ensures c.acts < Reply(c, end, i, input).acts
  {
    assert c.expected[i].TickData?;
    RecordKeeps(c, lo, end, i, input);
    var c' := Record(c, i, input);
    assert Reply(c, end, i, input) == Fill(c', end, input.draws);
    FillKeeps(c', lo, end, input.draws);
    FillGrows(c', end, input.draws);
  }

  /** `all` extends `acts` by timeouts of the ticks in `lost`, which move neither the window nor the backoff. */
  ghost predicate TimesOut(acts: seq<Act>, all: seq<Act>, lo: u32, end: u32, lost: multiset<u32>) {
    && Walk(lo, all) == Walk(lo, acts) && Unwrapped(all) == Unwrapped(acts)
    && Requests(all) == Requests(acts)
    && Answers(all) == Answers(acts) + lost
    && Streak(all) == Streak(acts) && Backoff(all) == Backoff(acts)
    && Counts(all).completed == Counts(acts).completed
    && Disciplined(all, end)
  }

  lemma {:induction false} TimesOutOne(acts: seq<Act>, all: seq<Act>, lo: u32, end: u32, lost: multiset<u32>, tick: u32)
    requires TimesOut(acts, all, lo, end, lost)
    ensures TimesOut(acts, all + [TimedOut(tick)], lo, end, lost + multiset{tick})
  {
    Snoc(all, TimedOut(tick));
    DisciplinedSnoc(all, TimedOut(tick), end);
  }

  lemma {:induction false} TimeoutActsSnoc(acts: seq<Act>, expected: seq<Expected>)
    requires expected != [] && expected[|expected| - 1].TickData?
    ensures var init, e := expected[..|expected| - 1], expected[|expected| - 1];
            && acts + TimeoutActs(expected) == (acts + TimeoutActs(init)) + [TimedOut(e.tick)]
            && InFlight(expected) == InFlight(init) + multiset{e.tick}
  {
  }

  lemma {:induction false} TimesOutNone(acts: seq<Act>, lo: u32, end: u32)
    requires Disciplined(acts, end)
    ensures TimesOut(acts, acts + TimeoutActs([]), lo, end, multiset{})
  {
    assert acts + TimeoutActs([]) == acts;
  }

  lemma {:induction false} TimeoutKeeps(acts: seq<Act>, expected: seq<Expected>, lo: u32, end: u32)
    requires forall i :: 0 <= i < |expected| ==> expected[i].TickData?
    requires Disciplined(acts, end)
    ensures TimesOut(acts, acts + TimeoutActs(expected), lo, end, InFlight(expected))
  {
    if expected == [] {
      TimesOutNone(acts, lo, end);
    } else {
      var init, e := expected[..|expected| - 1], expected[|expected| - 1];
      TimeoutKeeps(acts, init, lo, end);
      TimeoutActsSnoc(acts, expected);
      TimesOutOne(acts, acts + TimeoutActs(init), lo, end, InFlight(init), e.tick);
    }
  }

  lemma {:induction false} TimeoutStepKeeps(c: Conn, lo: u32, end: u32)
    requires Inv(c, lo, end) && c.phase == Open
    ensures Inv(Step(c, end, Timeout), lo, end)
  {
    TimeoutKeeps(c.acts, c.expected, lo, end);
  }

  lemma {:induction false} TransactionKeeps(c: Conn, lo: u32, end: u32)
    requires Inv(c, lo, end)
    ensures Inv(c.(acts := c.acts + [Transaction]), lo, end)
  {
    Snoc(c.acts, Transaction);
    DisciplinedSnoc(c.acts, Transaction, end);
  }

  /** A packet that answers one of the requests in flight. */
  predicate Matches(c: Conn, input: Input) {
    c.phase == Open && input.Packet? && input.msgType in {8, 35, 54} && Position(c.expected, input.dejavu).Some?
  }

  lemma {:induction false} StepKeeps(c: Conn, lo: u32, end: u32, input: Input)
    requires Inv(c, lo, end)
    ensures Inv(Step(c, end, input), lo, end)
    ensures c.acts <= Step(c, end, input).acts
    ensures Unwrapped(Step(c, end, input).acts) && Matches(c, input) ==> Fuel(Step(c, end, input), end) < Fuel(c, end)
    ensures !Matches(c, input) ==> Fuel(Step(c, end, input), end) <= Fuel(c, end)
  {
    if c.phase == Open {
      if Matches(c, input) {
        ReplyKeeps(c, lo, end, Position(c.expected, input.dejavu).value, input);
      } else if input.Packet? {
        TransactionKeeps(c, lo, end);
      } else if input.Timeout? {
        TimeoutStepKeeps(c, lo, end);
      }
    }
  }

  // ---------------------------------------------------------------- whole connections

  /** Every connection, over every input, satisfies the invariant. */
  lemma {:induction false} ConnectionInv(lo: u32, end: u32, draws: seq<u32>, inputs: seq<Input>)
    requires lo <= end
    ensures Inv(Connection(lo, end, draws, inputs), lo, end)
  {
    if inputs == [] {
      StartKeeps(lo, end, draws);
    } else {
      var init := inputs[..|inputs| - 1];
      ConnectionInv(lo, end, draws, init);
      StepKeeps(Connection(lo, end, draws, init), lo, end, inputs[|inputs| - 1]);
    }
  }

  /** The number of packets of a connection that answered a request. */
  function MatchedReplies(lo: u32, end: u32, draws: seq<u32>, inputs: seq<Input>): nat
    requires lo <= end
    decreases |inputs|
  {
    if inputs == [] then 0
    else
      var init := inputs[..|inputs| - 1];
      MatchedReplies(lo, end, draws, init) + if Matches(Connection(lo, end, draws, init), inputs[|inputs| - 1]) then 1 else 0
  }

  /** However long the network talks, as long as no skip wraps, only `2 * (end - lo)` packets can ever make a difference. */
  lemma {:induction false} MatchedRepliesAreBounded(lo: u32, end: u32, draws: seq<u32>, inputs: seq<Input>)
    requires lo <= end
    requires Unwrapped(Connection(lo, end, draws, inputs).acts)
    ensures MatchedReplies(lo, end, draws, inputs) + Fuel(Connection(lo, end, draws, inputs), end) <= 2 * (end - lo)
    ensures 0 <= Fuel(Connection(lo, end, draws, inputs), end)
  {
    if inputs == [] {
      StartKeeps(lo, end, draws);
    } else {
      var init := inputs[..|inputs| - 1];
      ConnectionInv(lo, end, draws, init);
      StepKeeps(Connection(lo, end, draws, init), lo, end, inputs[|inputs| - 1]);
      UnwrappedPrefix(Connection(lo, end, draws, init).acts, Connection(lo, end, draws, inputs).acts);
      MatchedRepliesAreBounded(lo, end, draws, init);
    }
  }

  lemma {:induction false} StartKeeps(lo: u32, end: u32, draws: seq<u32>)
    requires lo <= end
    ensures Inv(Fill(Start(lo), end, draws), lo, end)
    ensures Unwrapped(Fill(Start(lo), end, draws).acts) ==> Fuel(Fill(Start(lo), end, draws), end) <= 2 * (end - lo)
  {
    assert Pow2(0) == 1;
    FillKeeps(Start(lo), lo, end, draws);
    FillGrows(Start(lo), end, draws);
  }

  // ---------------------------------------------------------------- what the invariant means

  lemma {:induction false} WalkCovers(lo: u32, acts: seq<Act>, t: u32)
    requires Walk(lo, acts) >= 0
    ensures lo <= Walk(lo, acts)
    ensures Handled(acts, t) == if lo <= t < Walk(lo, acts) then 1 else 0
    ensures Requests(acts)[t] <= Handled(acts, t)
    ensures |Requests(acts)| + SkippedTicks(acts) == Walk(lo, acts) - lo
  {
    if acts != [] { WalkCovers(lo, acts[..|acts| - 1], t); }
  }

  lemma {:induction false} AnswersAreCounted(acts: seq<Act>)
    ensures |Answers(acts)| == Counts(acts).completed + Counts(acts).failed
    ensures Counts(acts).discovered <= Counts(acts).completed
  {
    if acts != [] { AnswersAreCounted(acts[..|acts| - 1]); }
  }

  lemma {:induction false} InFlightSize(expected: seq<Expected>)
    ensures |InFlight(expected)| == |expected|
  {
    if expected != [] { InFlightSize(expected[..|expected| - 1]); }
  }

  /**
   * Conservation on one connection, between any two actions and for every network: requests sent
   * are completed, failed or in flight, tick by tick; at most 20 are in flight. As long as no skip
   * wraps, no tick is requested twice, and requests plus skipped ticks make up the ticks passed.
   */
  lemma {:induction false} Conservation(c: Conn, lo: u32, end: u32)
    requires FillInv(c, lo, end)
    ensures Requests(c.acts) == Answers(c.acts) + InFlight(c.expected)
    ensures |Requests(c.acts)| == Counts(c.acts).completed + Counts(c.acts).failed + |c.expected|
    ensures |c.expected| <= 20 && c.failures + |c.expected| <= 49
    ensures Unwrapped(c.acts) ==> PassedOnce(c, lo)
  {
    AnswersAreCounted(c.acts);
    InFlightSize(c.expected);
    if Unwrapped(c.acts) { UnwrappedPassesOnce(c, lo); }
  }

  /** The ticks from `lo` to the next one are those handled, each once. */
  ghost predicate PassedOnce(c: Conn, lo: u32) {
    && lo <= c.next
    && (forall t: u32 :: Requests(c.acts)[t] <= 1)
    && (forall t: u32 :: Handled(c.acts, t) == if lo <= t < c.next then 1 else 0)
    && |Requests(c.acts)| + SkippedTicks(c.acts) == c.next - lo
  }

  lemma {:induction false} UnwrappedPassesOnce(c: Conn, lo: u32)
    requires Walk(lo, c.acts) == c.next
    ensures PassedOnce(c, lo)
  {
    WalkCovers(lo, c.acts, lo);
    forall t: u32 ensures Requests(c.acts)[t] <= 1 && Handled(c.acts, t) == if lo <= t < c.next then 1 else 0 {
      WalkCovers(lo, c.acts, t);
    }
  }

  /** Far enough below 2^32 no skip wraps. */
  lemma {:induction false} BoundedNeverWraps(acts: seq<Act>, end: u32)
    requires Bounded(end) && Disciplined(acts, end)
    ensures Unwrapped(acts)
  {
    if acts != [] {
      var init, a := acts[..|acts| - 1], acts[|acts| - 1];
      forall i | 0 <= i < |init| && init[i].Skipped?
        ensures Streak(init[..i]) >= MAX_CONSECUTIVE_FAILURES
        ensures init[i].from < end && init[i].to == SkipTarget(init[i].from, SkipSizeAfter(Backoff(init[..i])), end)
      {
        assert init[..i] == acts[..i] && init[i] == acts[i];
      }
      BoundedNeverWraps(init, end);
      if a.Skipped? {
        SkipSizeDoubles(Backoff(init));
        SkipMovesForward(a.from, SkipSizeAfter(Backoff(init)), end);
      }
    }
  }

  // ---------------------------------------------------------------- what a wrapped skip costs

  /** How often each tick should be handled. */
  function Due(lo: u32, end: u32, t: u32): nat {
    if lo <= t < end then 1 else 0
  }

  /** Some tick was handled once too often. */
  ghost predicate Over(acts: seq<Act>, lo: u32, end: u32) {
    exists t: u32 :: Handled(acts, t) > Due(lo, end, t)
  }

  /** The next request will be one too many. */
  predicate AboutToRepeat(c: Conn, lo: u32, end: u32) {
    c.next < end && |c.expected| < PIPELINE_DEPTH && c.failures < MAX_CONSECUTIVE_FAILURES && Handled(c.acts, c.next) >= Due(lo, end, c.next)
  }

  lemma {:induction false} HandledGrows(a: seq<Act>, b: seq<Act>, t: u32)
    requires a <= b
    ensures Handled(a, t) <= Handled(b, t)
  {
    if a != b {
      assert a <= b[..|b| - 1];
      HandledGrows(a, b[..|b| - 1], t);
    }
  }

  lemma {:induction false} OverGrows(a: seq<Act>, b: seq<Act>, lo: u32, end: u32)
    requires a <= b && Over(a, lo, end)
    ensures Over(b, lo, end)
  {
    var t: u32 :| Handled(a, t) > Due(lo, end, t);
    HandledGrows(a, b, t);
  }

  lemma {:induction false} WrapRepeats(c: Conn, lo: u32, end: u32)
    requires FillInv(c, lo, end) && c.next < end && c.failures >= MAX_CONSECUTIVE_FAILURES && |c.expected| < PIPELINE_DEPTH
    requires Unwrapped(c.acts)
    ensures var c' := SkipAhead(c, end); Unwrapped(c'.acts) || AboutToRepeat(c', lo, end)
  {
    var c' := SkipAhead(c, end);
    Snoc(c.acts, c'.acts[|c.acts|]);
    SkipMovesForward(c.next, c.skipSize, end);
    WalkCovers(lo, c.acts, c'.next);
  }

  lemma {:induction false} RepeatIsOver(c: Conn, lo: u32, end: u32, draw: u32)
    requires AboutToRepeat(c, lo, end)
    ensures Over(Send(c, draw).acts, lo, end)
  {
    Snoc(c.acts, Requested(c.next, Max(draw, 1)));
    assert Handled(Send(c, draw).acts, c.next) > Due(lo, end, c.next);
  }

  /** Once a skip has wrapped, the fill loop either breaks off or handles some tick once too often. */
  lemma {:induction false} FillRepeats(c: Conn, lo: u32, end: u32, draws: seq<u32>)
    requires FillInv(c, lo, end) && c.phase == Open
    requires Unwrapped(c.acts) || Over(c.acts, lo, end) || AboutToRepeat(c, lo, end)
    ensures var r := Fill(c, end, draws); r.phase != Broken ==> Unwrapped(r.acts) || Over(r.acts, lo, end)
    decreases |draws|, c.failures
  {
    if Over(c.acts, lo, end) {
      FillExtends(c, end, draws);
      OverGrows(c.acts, Fill(c, end, draws).acts, lo, end);
    } else if c.next < end && |c.expected| < PIPELINE_DEPTH {
      if c.failures >= MAX_CONSECUTIVE_FAILURES {
        SkipKeeps(c, lo, end);
        WrapRepeats(c, lo, end);
        FillRepeats(SkipAhead(c, end), lo, end, draws);
      } else if draws != [] {
        SendKeeps(c, lo, end, draws[0]);
        RequestedSnoc(c.acts, c.next, Max(draws[0], 1), lo, end);
        if AboutToRepeat(c, lo, end) { RepeatIsOver(c, lo, end, draws[0]); }
        FillRepeats(Send(c, draws[0]), lo, end, draws[1..]);
      }
    }
  }

  /** What a connection that is not broken keeps about wrapped skips. */
  ghost predicate WrapShows(c: Conn, lo: u32, end: u32) {
    c.phase != Broken ==> Unwrapped(c.acts) || Over(c.acts, lo, end)
  }

  lemma {:induction false} AnswerUnwrapped(c: Conn, i: nat, input: Input)
    requires i < |c.expected| && input.Packet? && input.msgType in {8, 35, 54} && Unwrapped(c.acts)
    ensures Unwrapped(Record(c, i, input).acts)
  {
    Snoc(c.acts, Record(c, i, input).acts[|c.acts|]);
  }

  lemma {:induction false} StepWrapShows(c: Conn, lo: u32, end: u32, input: Input)
    requires Inv(c, lo, end) && WrapShows(c, lo, end)
    ensures WrapShows(Step(c, end, input), lo, end)
  {
    if c.phase == Open {
      StepKeeps(c, lo, end, input);
      if Over(c.acts, lo, end) {
        OverGrows(c.acts, Step(c, end, input).acts, lo, end);
      } else if Matches(c, input) {
        var i := Position(c.expected, input.dejavu).value;
        assert c.expected[i].TickData?;
        RecordKeeps(c, lo, end, i, input);
        AnswerUnwrapped(c, i, input);
        FillRepeats(Record(c, i, input), lo, end, input.draws);
      } else if input.Packet? {
        Snoc(c.acts, Transaction);
      }
    }
  }

  lemma {:induction false} ConnectionWrapShows(lo: u32, end: u32, draws: seq<u32>, inputs: seq<Input>)
    requires lo <= end
    ensures WrapShows(Connection(lo, end, draws, inputs), lo, end)
  {
    if inputs == [] {
      assert Pow2(0) == 1;
      FillRepeats(Start(lo), lo, end, draws);
    } else {
      var init := inputs[..|inputs| - 1];
      ConnectionInv(lo, end, draws, init);
      ConnectionWrapShows(lo, end, draws, init);
      StepWrapShows(Connection(lo, end, draws, init), lo, end, inputs[|inputs| - 1]);
    }
  }

  /**
   * A connection that ends cleanly is at the end of its range. It has handled every tick of the
   * range exactly once and no other tick if and only if none of its skips wrapped around u32.
   */
  lemma {:induction false} CleanFinishIff(lo: u32, end: u32, draws: seq<u32>, inputs: seq<Input>)
    requires lo <= end && Connection(lo, end, draws, inputs).phase == Finished
    ensures var c := Connection(lo, end, draws, inputs);
            && c.next == end && c.expected == []
            && ((forall t: u32 :: Handled(c.acts, t) == Due(lo, end, t)) <==> Unwrapped(c.acts))
  {
    var c := Connection(lo, end, draws, inputs);
    ConnectionInv(lo, end, draws, inputs);
    ConnectionWrapShows(lo, end, draws, inputs);
    Conservation(c, lo, end);
    if !Unwrapped(c.acts) {
      var t: u32 :| Handled(c.acts, t) > Due(lo, end, t);
    }
  }

  /** A connection that ends cleanly, with no wrapped skip, has accounted for its whole range. */
  lemma {:induction false} CleanFinish(c: Conn, lo: u32, end: u32)
    requires Inv(c, lo, end) && c.phase == Finished
    ensures c.next == end
    ensures |Requests(c.acts)| == Counts(c.acts).completed + Counts(c.acts).failed
    ensures Unwrapped(c.acts) ==>
              && Counts(c.acts).completed + Counts(c.acts).failed + SkippedTicks(c.acts) == end - lo
              && forall t: u32 :: Handled(c.acts, t) == Due(lo, end, t)
  {
    Conservation(c, lo, end);
  }

  /** A timeout writes off everything in flight, so nothing sent stays unaccounted for. */
  lemma {:induction false} TimeoutAccounts(c: Conn, lo: u32, end: u32)
    requires Inv(c, lo, end) && c.phase == Open
    ensures var c' := Step(c, end, Timeout);
            && c'.phase == Broken && c'.next == c.next
            && |Requests(c'.acts)| == |Requests(c.acts)|
            && |Requests(c'.acts)| == Counts(c'.acts).completed + Counts(c'.acts).failed
            && Counts(c'.acts).failed == Counts(c.acts).failed + |c.expected|
  {
    var c' := Step(c, end, Timeout);
    StepKeeps(c, lo, end, Timeout);
    TimeoutKeeps(c.acts, c.expected, lo, end);
    Conservation(c, lo, end);
    Conservation(c', lo, end);
  }

  /** The acts of a window that end or begin a streak. */
  predicate Quiet(acts: seq<Act>) {
    forall i :: 0 <= i < |acts| ==> !acts[i].Completed? && !acts[i].Skipped?
  }

  function Unavailables(acts: seq<Act>): nat {
    if acts == [] then 0 else Unavailables(acts[..|acts| - 1]) + if acts[|acts| - 1].Unavailable? then 1 else 0
  }

  /** A streak is what it says: that many unavailable replies with no success and no skip among them. */
  lemma {:induction false} StreakWindow(acts: seq<Act>) returns (j: nat)
    ensures j <= |acts| && Quiet(acts[j..]) && Unavailables(acts[j..]) == Streak(acts)
    ensures j > 0 ==> acts[j - 1].Completed? || acts[j - 1].Skipped?
  {
    if acts == [] {
      j := 0;
    } else {
      var init, a := acts[..|acts| - 1], acts[|acts| - 1];
      if a.Completed? || a.Skipped? {
        j := |acts|;
      } else {
        j := StreakWindow(init);
        assert acts[j..] == init[j..] + [a];
        assert acts[j..][..|acts[j..]| - 1] == init[j..];
        assert j > 0 ==> init[j - 1] == acts[j - 1];
      }
    }
  }

  /**
   * The skip discipline: every skip follows at least 30 unavailable replies with no success
   * and no other skip among them, and the k-th skip since the last success covers
   * min(10000 * 2^k, 1000000) ticks in u32, cut at the end of the range.
   */
  lemma {:induction false} SkipDiscipline(c: Conn, lo: u32, end: u32, i: nat) returns (j: nat)
    requires Inv(c, lo, end) && i < |c.acts| && c.acts[i].Skipped?
    ensures j <= i && Quiet(c.acts[j..i]) && Unavailables(c.acts[j..i]) >= 30
    ensures c.acts[i].to == Min((c.acts[i].from + Min(10_000 * Pow2(Backoff(c.acts[..i])), 1_000_000)) % 0x1_0000_0000, end)
  {
    j := StreakWindow(c.acts[..i]);
    assert c.acts[..i][j..] == c.acts[j..i];
  }

  lemma {:induction false} NoSkips(acts: seq<Act>)
    requires forall i :: 0 <= i < |acts| ==> !acts[i].Skipped?
    ensures forall t: u32 :: Handled(acts, t) == Requests(acts)[t]
    ensures SkippedTicks(acts) == 0 && Unwrapped(acts)
  {
    if acts != [] {
      var init := acts[..|acts| - 1];
      assert forall i :: 0 <= i < |init| ==> init[i] == acts[i];
      NoSkips(init);
    }
  }

  /** If failures never come 30 in a row, a clean run requests every tick of the range exactly once. */
  lemma {:induction false} FewFailuresRequestAll(c: Conn, lo: u32, end: u32)
    requires Inv(c, lo, end) && c.phase == Finished
    requires forall i :: 0 <= i <= |c.acts| ==> Streak(c.acts[..i]) < 30
    ensures SkippedTicks(c.acts) == 0
    ensures forall t: u32 :: Requests(c.acts)[t] == if lo <= t < end then 1 else 0
  {
    forall i | 0 <= i < |c.acts| ensures !c.acts[i].Skipped? {
      assert Streak(c.acts[..i]) < 30;
    }
    NoSkips(c.acts);
    Conservation(c, lo, end);
  }
}
