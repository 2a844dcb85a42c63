/** The imperative connection and the counters it shares with the others. */
module BackfillWorkers {
  import opened Bytes
  import opened Backfill
  import opened BackfillLaws

  // ---------------------------------------------------------------- counters

  /** What one input adds to the shared counters. */
  function Increment(c: Conn, input: Input): Tally {
    if c.phase != Open then Tally(0, 0, 0, 0)
    else match input
      case Packet(msgType, dejavu, payload, published, _) =>
        if msgType == 24 then Tally(0, 0, 0, if published then 1 else 0)
        else if msgType !in {8, 35, 54} || Position(c.expected, dejavu).None? then Tally(0, 0, 0, 0)
        else if msgType == 8 && |payload| >= 8 then Tally(1, 0, if published then 1 else 0, 0)
        else Tally(0, 1, 0, 0)
      case ReadError => Tally(0, 0, 0, 0)
      case Timeout => Tally(0, |c.expected|, 0, 0)
  }

  lemma {:induction false} FillCounts(c: Conn, end: u32, draws: seq<u32>)
    requires Ready(c, end)
    ensures Counts(Fill(c, end, draws).acts) == Counts(c.acts)
    decreases |draws|, c.failures
  {
    if c.next < end && |c.expected| < PIPELINE_DEPTH {
      if c.failures >= MAX_CONSECUTIVE_FAILURES {
        Snoc(c.acts, Skipped(c.next, SkipTarget(c.next, c.skipSize, end)));
        FillCounts(SkipAhead(c, end), end, draws);
      } else if draws != [] {
        Snoc(c.acts, Requested(c.next, Max(draws[0], 1)));
        FillCounts(Send(c, draws[0]), end, draws[1..]);
      }
    }
  }

  lemma {:induction false} TimeoutCounts(acts: seq<Act>, expected: seq<Expected>)
    requires forall i :: 0 <= i < |expected| ==> expected[i].TickData?
    ensures Counts(acts + TimeoutActs(expected)) == Add(Counts(acts), Tally(0, |expected|, 0, 0))
  {
    if expected == [] {
      assert acts + TimeoutActs(expected) == acts;
    } else {
      var init, e := expected[..|expected| - 1], expected[|expected| - 1];
      TimeoutCounts(acts, init);
      TimeoutActsSnoc(acts, expected);
      Snoc(acts + TimeoutActs(init), TimedOut(e.tick));
    }
  }

  lemma {:induction false} RecordedAct(c: Conn, i: nat, input: Input) returns (a: Act)
    requires i < |c.expected| && input.Packet? && input.msgType in {8, 35, 54}
    ensures Record(c, i, input).acts == c.acts + [a]
    ensures TallyOf(a) == if input.msgType == 8 && |input.payload| >= 8 then Tally(1, 0, if input.published then 1 else 0, 0) else Tally(0, 1, 0, 0)
  {
    a := Record(c, i, input).acts[|c.acts|];
  }

  lemma {:induction false} MatchedStep(c: Conn, end: u32, input: Input)
    requires Ready(c, end) && forall i :: 0 <= i < |c.expected| ==> c.expected[i].TickData?
    requires Matches(c, input)
    ensures var i := Position(c.expected, input.dejavu).value;
            Step(c, end, input) == Fill(Record(c, i, input), end, input.draws)
    ensures Increment(c, input) ==
              if input.msgType == 8 && |input.payload| >= 8 then Tally(1, 0, if input.published then 1 else 0, 0) else Tally(0, 1, 0, 0)
  {
    var i := Position(c.expected, input.dejavu).value;
    assert c.expected[i].TickData?;
  }

  lemma {:induction false} UnmatchedStep(c: Conn, end: u32, input: Input)
    requires Ready(c, end) && !Matches(c, input) && (input.Timeout? ==> c.phase != Open)
    ensures || (Step(c, end, input).acts == c.acts && Increment(c, input) == Tally(0, 0, 0, 0))
            || (Step(c, end, input).acts == c.acts + [Transaction] && Increment(c, input) == Tally(0, 0, 0, 1))
  {
  }

  lemma {:induction false} CountsSnoc(acts: seq<Act>, a: Act)
    ensures Counts(acts + [a]) == Add(Counts(acts), TallyOf(a))
  {
    Snoc(acts, a);
  }

  /** The increments are exactly what the history records. */
  lemma {:induction false} StepCounts(c: Conn, end: u32, input: Input)
    requires Ready(c, end) && forall i :: 0 <= i < |c.expected| ==> c.expected[i].TickData?
    ensures Counts(Step(c, end, input).acts) == Add(Counts(c.acts), Increment(c, input))
  {
    if Matches(c, input) {
      var i := Position(c.expected, input.dejavu).value;
      MatchedStep(c, end, input);
      var a := RecordedAct(c, i, input);
      CountsSnoc(c.acts, a);
      FillCounts(Record(c, i, input), end, input.draws);
    } else if c.phase == Open && input.Timeout? {
      TimeoutCounts(c.acts, c.expected);
    } else {
      UnmatchedStep(c, end, input);
      CountsSnoc(c.acts, Transaction);
    }
  }

  /** What the read loop relies on before each turn. */
  ghost predicate Readable(c: Conn, end: u32) {
    Ready(c, end) && forall i :: 0 <= i < |c.expected| ==> c.expected[i].TickData?
  }

  lemma {:induction false} ConnectionReadable(lo: u32, end: u32, draws: seq<u32>, inputs: seq<Input>)
    requires lo <= end
    ensures Readable(Connection(lo, end, draws, inputs), end)
  {
    ConnectionInv(lo, end, draws, inputs);
  }

  lemma {:induction false} ConnectionSnoc(lo: u32, end: u32, draws: seq<u32>, inputs: seq<Input>, i: nat)
    requires lo <= end && i < |inputs|
    ensures Connection(lo, end, draws, inputs[..i + 1]) == Step(Connection(lo, end, draws, inputs[..i]), end, inputs[i])
  {
    assert inputs[..i + 1][..i] == inputs[..i];
  }

  lemma {:induction false} AddAssociates(x: Tally, y: Tally, z: Tally)
    ensures Add(Add(x, y), z) == Add(x, Add(y, z))
  {
  }

  // ---------------------------------------------------------------- the connection object

  class BackfillShared {
    var ticksCompleted: nat
    var ticksFailed: nat
    var ticksDiscovered: nat
    var txsDiscovered: nat

    constructor ()
      ensures View() == Tally(0, 0, 0, 0)
    {
      ticksCompleted, ticksFailed, ticksDiscovered, txsDiscovered := 0, 0, 0, 0;
    }

    function View(): Tally
      reads this
    {
      Tally(ticksCompleted, ticksFailed, ticksDiscovered, txsDiscovered)
    }
  }

  class SlidingWindow {
    const shared: BackfillShared
    const end: u32
    var phase: Phase
    var expected: seq<Expected>
    var next: u32
    var failures: nat
    var skipSize: nat
    ghost var acts: seq<Act>

    ghost function View(): Conn
      reads this
    {
      Conn(phase, expected, next, failures, skipSize, acts)
    }

    constructor (shared: BackfillShared, currentTick: u32, end: u32)
      ensures this.shared == shared && this.end == end
      ensures View() == Start(currentTick)
    {
      this.shared, this.end := shared, end;
      phase, expected, next, failures, skipSize := Open, [], currentTick, 0, FAILURE_SKIP_INITIAL;
      acts := [];
    }

    method FillPipeline(draws: seq<u32>)
      requires Ready(View(), end)
      modifies this
      ensures View() == Fill(old(View()), end, draws)
    {
      var k := 0;
      while next < end && |expected| < PIPELINE_DEPTH
        invariant k <= |draws|
        invariant Ready(View(), end)
        invariant Fill(old(View()), end, draws) == Fill(View(), end, draws[k..])
        decreases |draws| - k, failures
      {
        ghost var before := View();
        if failures >= MAX_CONSECUTIVE_FAILURES {
          var to := Min((next + skipSize) % 0x1_0000_0000, end);
          acts := acts + [Skipped(next, to)];
          next := to;
          failures := 0;
          skipSize := Min(skipSize * 2, FAILURE_SKIP_MAX);
          assert View() == SkipAhead(before, end);
        } else {
          if k == |draws| {
            phase := Broken;
            return;
          }
          var dejavu := Max(draws[k], 1);
          expected := expected + [TickData(next, dejavu)];
          acts := acts + [Requested(next, dejavu)];
          next := next + 1;
          assert View() == Send(before, draws[k]);
          assert draws[k..][1..] == draws[k + 1..];
          k := k + 1;
        }
      }
      if expected == [] {
        phase := Finished;
      }
    }

    /** A tick-data packet: completes the matching request, or fails it if the payload is too short. */
    method OnTickData(i: nat, payload: Bytes, published: bool)
      requires i < |expected|
      modifies this, shared
      ensures forall input: Input :: input.Packet? && input.msgType == 8 && input.payload == payload && input.published == published
                ==> View() == Record(old(View()), i, input)
      ensures shared.View() == Add(old(shared.View()),
                if |payload| >= 8 then Tally(1, 0, if published then 1 else 0, 0) else Tally(0, 1, 0, 0))
    {
      var tick := expected[i].tick;
      expected := expected[..i] + expected[i + 1..];
      if |payload| < 8 {
        shared.ticksFailed := shared.ticksFailed + 1;
        acts := acts + [Malformed(tick)];
      } else {
        failures := 0;
        skipSize := FAILURE_SKIP_INITIAL;
        if published {
          shared.ticksDiscovered := shared.ticksDiscovered + 1;
        }
        shared.ticksCompleted := shared.ticksCompleted + 1;
        acts := acts + [Completed(tick, published)];
      }
    }

    /** An end-of-response or try-again packet for a tick request. */
    method OnUnavailable(i: nat)
      requires i < |expected|
      modifies this, shared
      ensures forall input: Input :: input.Packet? && input.msgType in {35, 54} ==> View() == Record(old(View()), i, input)
      ensures shared.View() == Add(old(shared.View()), Tally(0, 1, 0, 0))
    {
      acts := acts + [Unavailable(expected[i].tick)];
      expected := expected[..i] + expected[i + 1..];
      failures := failures + 1;
      shared.ticksFailed := shared.ticksFailed + 1;
    }

    /** Counts every pending tick request as failed. */
    method OnTimeout()
      requires forall i :: 0 <= i < |expected| ==> expected[i].TickData?
      modifies this, shared
      ensures View() == old(View()).(phase := Broken, expected := [], acts := old(acts) + TimeoutActs(old(expected)))
      ensures shared.View() == Add(old(shared.View()), Tally(0, |old(expected)|, 0, 0))
    {
      for i := 0 to |expected|
        invariant expected == old(expected) && View() == old(View())
        invariant shared.View() == Add(old(shared.View()), Tally(0, i, 0, 0))
      {
        if expected[i].TickData? {
          shared.ticksFailed := shared.ticksFailed + 1;
        }
      }
      acts := acts + TimeoutActs(expected);
      expected := [];
      phase := Broken;
    }

    /** One turn of the read loop. */
    method Receive(input: Input)
      requires Readable(View(), end) && phase == Open
      modifies this, shared
      ensures View() == Step(old(View()), end, input)
      ensures shared.View() == Add(old(shared.View()), Increment(old(View()), input))
    {
      match input
      case Packet(msgType, dejavu, payload, published, draws) =>
        if msgType == 24 {
          if published {
            shared.txsDiscovered := shared.txsDiscovered + 1;
            acts := acts + [Transaction];
          }
        } else if msgType in {8, 35, 54} {
          var position := Position(expected, dejavu);
          if position.Some? {
            assert expected[position.value].TickData?;
            if msgType == 8 {
              OnTickData(position.value, payload, published);
            } else {
              OnUnavailable(position.value);
            }
            assert View() == Record(old(View()), position.value, input);
            FillPipeline(draws);
          }
        }
      case ReadError =>
        phase := Broken;
      case Timeout =>
        OnTimeout();
    }
  }

  /** The read loop turns once, unless the connection is over. */
  method Turn(window: SlidingWindow, input: Input, ghost counted: Tally)
    requires Readable(window.View(), window.end)
    requires window.shared.View() == Add(counted, Counts(window.acts))
    modifies window, window.shared
    ensures window.View() == Step(old(window.View()), window.end, input)
    ensures window.shared.View() == Add(counted, Counts(window.acts))
  {
    ghost var c := window.View();
    StepCounts(c, window.end, input);
    AddAssociates(counted, Counts(c.acts), Increment(c, input));
    if window.phase == Open {
      window.Receive(input);
    } else {
      assert Step(c, window.end, input) == c;
    }
  }

  /**
   * A whole connection over the inputs the network offers: `ok` when the window drained
   * cleanly, and only then does the caller's tick move, to the end of the range.
   */
  method TryPeer(shared: BackfillShared, currentTick: u32, end: u32, draws: seq<u32>, inputs: seq<Input>)
    returns (ok: bool, reached: u32, ghost c: Conn)
    requires currentTick <= end
    modifies shared
    ensures c == Connection(currentTick, end, draws, inputs) && Inv(c, currentTick, end)
    ensures ok <==> c.phase == Finished
    ensures reached == if ok then end else currentTick
    ensures shared.View() == Add(old(shared.View()), Counts(c.acts))
  {
    ghost var counted := shared.View();
    var window := new SlidingWindow(shared, currentTick, end);
    window.FillPipeline(draws);
    FillCounts(Start(currentTick), end, draws);
    var i := 0;
    while i < |inputs|
      invariant i <= |inputs| && window.shared == shared && window.end == end && fresh(window)
      invariant window.View() == Connection(currentTick, end, draws, inputs[..i])
      invariant shared.View() == Add(counted, Counts(window.acts))
    {
      ConnectionReadable(currentTick, end, draws, inputs[..i]);
      ConnectionSnoc(currentTick, end, draws, inputs, i);
      Turn(window, inputs[i], counted);
      i := i + 1;
    }
    assert inputs[..|inputs|] == inputs;
    c := window.View();
    ConnectionInv(currentTick, end, draws, inputs);
    ok := window.phase == Finished;
    reached := if ok then window.next else currentTick;
  }
}
