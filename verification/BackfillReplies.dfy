/** What each request carries, what each reply does to which request, and what the counters count. */
module BackfillReplies {
  import opened Bytes
  import opened Backfill
  import opened BackfillLaws

  // ---------------------------------------------------------------- dejavus are the draws

  /** The dejavus of the requests sent, in order. */
  function SentDejavus(acts: seq<Act>): seq<u32> {
    if acts == [] then []
    else
      var a := acts[|acts| - 1];
      SentDejavus(acts[..|acts| - 1]) + if a.Requested? then [a.dejavu] else []
  }

  /** A draw of 0 is sent as 1. */
  function Nonzero(draws: seq<u32>): (ds: seq<u32>)
    ensures |ds| == |draws| && forall i :: 0 <= i < |ds| ==> ds[i] == if draws[i] == 0 then 1 else draws[i]
  {
    seq(|draws|, i requires 0 <= i < |draws| => if draws[i] == 0 then 1 else draws[i])
  }

  /** From `a` to `b` the history grew by requests that carry, in order, the first `k` draws. */
  ghost predicate Sends(a: seq<Act>, b: seq<Act>, draws: seq<u32>, k: nat) {
    k <= |draws| && SentDejavus(b) == SentDejavus(a) + Nonzero(draws[..k])
  }

  lemma {:induction false} SendsFirst(a: seq<Act>, tick: u32, b: seq<Act>, draws: seq<u32>, k: nat)
    requires draws != [] && Sends(a + [Requested(tick, Max(draws[0], 1))], b, draws[1..], k)
    ensures Sends(a, b, draws, k + 1)
  {
    Snoc(a, Requested(tick, Max(draws[0], 1)));
    assert draws[..k + 1] == [draws[0]] + draws[1..][..k];
    assert Nonzero(draws[..k + 1]) == [Max(draws[0], 1)] + Nonzero(draws[1..][..k]);
  }

  lemma {:induction false} FillSends(c: Conn, end: u32, draws: seq<u32>) returns (k: nat)
    requires Ready(c, end)
    ensures Sends(c.acts, Fill(c, end, draws).acts, draws, k)
    decreases |draws|, c.failures
  {
    k := 0;
    assert draws[..0] == [] && SentDejavus(c.acts) + [] == SentDejavus(c.acts);
    if c.next < end && |c.expected| < PIPELINE_DEPTH {
      if c.failures >= MAX_CONSECUTIVE_FAILURES {
        var a := SkipAhead(c, end).acts[|c.acts|];
        Snoc(c.acts, a);
        k := FillSends(SkipAhead(c, end), end, draws);
      } else if draws != [] {
        k := FillSends(Send(c, draws[0]), end, draws[1..]);
        assert Send(c, draws[0]).acts == c.acts + [Requested(c.next, Max(draws[0], 1))];
        SendsFirst(c.acts, c.next, Fill(Send(c, draws[0]), end, draws[1..]).acts, draws, k);
        k := k + 1;
      }
    }
  }

  lemma {:induction false} NothingSent(a: seq<Act>, act: Act)
    requires !act.Requested?
    ensures SentDejavus(a + [act]) == SentDejavus(a)
  {
    Snoc(a, act);
  }

  lemma {:induction false} TimeoutsSendNothing(acts: seq<Act>, expected: seq<Expected>)
    ensures SentDejavus(acts + TimeoutActs(expected)) == SentDejavus(acts)
  {
    if expected == [] {
      assert acts + TimeoutActs(expected) == acts;
    } else {
      var init, e := expected[..|expected| - 1], expected[|expected| - 1];
      TimeoutsSendNothing(acts, init);
      if e.TickData? {
        assert acts + TimeoutActs(expected) == (acts + TimeoutActs(init)) + [TimedOut(e.tick)];
        NothingSent(acts + TimeoutActs(init), TimedOut(e.tick));
      } else {
        assert TimeoutActs(expected) == TimeoutActs(init);
      }
    }
  }

  /** The draws an input offers. */
  function DrawsOf(input: Input): seq<u32> {
    if input.Packet? then input.draws else []
  }

  /** The requests a turn sends carry the first draws offered with the packet, in order. */
  lemma {:induction false} StepSends(c: Conn, lo: u32, end: u32, input: Input) returns (k: nat)
    requires Inv(c, lo, end)
    ensures Sends(c.acts, Step(c, end, input).acts, DrawsOf(input), k)
    ensures k > 0 ==> Matches(c, input)
  {
    k := 0;
    assert DrawsOf(input)[..0] == [] && SentDejavus(c.acts) + [] == SentDejavus(c.acts);
    if Matches(c, input) {
      var i := Position(c.expected, input.dejavu).value;
      assert c.expected[i].TickData?;
      var c' := Record(c, i, input);
      NothingSent(c.acts, c'.acts[|c.acts|]);
      k := FillSends(c', end, input.draws);
    } else if c.phase == Open && input.Packet? {
      NothingSent(c.acts, Transaction);
    } else if c.phase == Open && input.Timeout? {
      TimeoutsSendNothing(c.acts, c.expected);
    }
  }

  /** The draws a connection uses up: a first part of those offered at its start and with each packet. */
  ghost predicate UsesUp(used: seq<u32>, draws: seq<u32>, inputs: seq<Input>)
    decreases |inputs|
  {
    if inputs == [] then used <= draws
    else exists k: nat :: k <= |used| && UsesUp(used[..k], draws, inputs[..|inputs| - 1]) && used[k..] <= DrawsOf(inputs[|inputs| - 1])
  }

  lemma {:induction false} NonzeroAppend(a: seq<u32>, b: seq<u32>)
    ensures Nonzero(a + b) == Nonzero(a) + Nonzero(b)
  {
  }

  /** Along any connection the dejavus of the requests are, in order, the draws used up, with 1 for 0. */
  lemma {:induction false} ConnectionSends(lo: u32, end: u32, draws: seq<u32>, inputs: seq<Input>) returns (used: seq<u32>)
    requires lo <= end
    ensures UsesUp(used, draws, inputs)
    ensures SentDejavus(Connection(lo, end, draws, inputs).acts) == Nonzero(used)
  {
    if inputs == [] {
      var k := FillSends(Start(lo), end, draws);
      used := draws[..k];
      assert [] + Nonzero(used) == Nonzero(used);
    } else {
      var init, input := inputs[..|inputs| - 1], inputs[|inputs| - 1];
      var before := ConnectionSends(lo, end, draws, init);
      ConnectionInv(lo, end, draws, init);
      var k := StepSends(Connection(lo, end, draws, init), lo, end, input);
      var more := DrawsOf(input)[..k];
      used := before + more;
      NonzeroAppend(before, more);
      assert used[..|before|] == before && used[|before|..] == more;
    }
  }

  // ---------------------------------------------------------------- what is in flight

  lemma {:induction false} FillFirst(c: Conn, lo: u32, end: u32, draws: seq<u32>, n: nat)
    requires Ready(c, end) && c.failures == 0 && c.phase == Open
    requires n == Min(20, end - lo) && |c.expected| <= n && c.next == lo + |c.expected| && n <= |c.expected| + |draws|
    ensures var r := Fill(c, end, draws);
            && r.next == lo + n && |r.expected| == n && r.expected[..|c.expected|] == c.expected
            && forall i :: |c.expected| <= i < n ==>
                 r.expected[i] == TickData(lo + i, if draws[i - |c.expected|] == 0 then 1 else draws[i - |c.expected|])
    decreases |draws|
  {
    if |c.expected| < n {
      var c', m := Send(c, draws[0]), |c.expected|;
      FillFirst(c', lo, end, draws[1..], n);
      var r := Fill(c, end, draws);
      assert r.expected[m] == r.expected[..m + 1][m];
      assert r.expected[..m] == r.expected[..m + 1][..m];
      forall i | m < i < n ensures r.expected[i] == TickData(lo + i, if draws[i - m] == 0 then 1 else draws[i - m]) {
        assert draws[1..][i - (m + 1)] == draws[i - m];
      }
    }
  }

  /** With enough draws the first window asks for the first min(20, size) ticks, each with its own draw. */
  lemma {:induction false} FirstWindow(lo: u32, end: u32, draws: seq<u32>, i: nat)
    requires lo <= end && Min(20, end - lo) <= |draws| && i < Min(20, end - lo)
    ensures var c := Connection(lo, end, draws, []);
            && c.next == lo + Min(20, end - lo) && |c.expected| == Min(20, end - lo)
            && c.expected[i] == TickData(lo + i, if draws[i] == 0 then 1 else draws[i])
  {
    var n := Min(20, end - lo);
    FillFirst(Start(lo), lo, end, draws, n);
    var c := Fill(Start(lo), end, draws);
    assert Connection(lo, end, draws, []) == c && Start(lo).expected == [];
    assert c.expected[i] == TickData(lo + i, if draws[i - 0] == 0 then 1 else draws[i - 0]);
  }

  /** Every request in flight was sent, with the dejavu that is expected back. */
  ghost predicate ExpectsWhatWasSent(c: Conn) {
    forall i :: 0 <= i < |c.expected| ==> Requested(c.expected[i].tick, c.expected[i].dejavu) in c.acts
  }

  lemma {:induction false} FillExpects(c: Conn, end: u32, draws: seq<u32>)
    requires Ready(c, end) && ExpectsWhatWasSent(c)
    ensures ExpectsWhatWasSent(Fill(c, end, draws))
    decreases |draws|, c.failures
  {
    if c.next < end && |c.expected| < PIPELINE_DEPTH {
      if c.failures >= MAX_CONSECUTIVE_FAILURES {
        FillExpects(SkipAhead(c, end), end, draws);
      } else if draws != [] {
        FillExpects(Send(c, draws[0]), end, draws[1..]);
      }
    }
  }

  lemma {:induction false} StepExpects(c: Conn, lo: u32, end: u32, input: Input)
    requires Inv(c, lo, end) && ExpectsWhatWasSent(c)
    ensures ExpectsWhatWasSent(Step(c, end, input))
  {
    if Matches(c, input) {
      var i := Position(c.expected, input.dejavu).value;
      assert c.expected[i].TickData?;
      var c' := Record(c, i, input);
      forall j | 0 <= j < |c'.expected| ensures Requested(c'.expected[j].tick, c'.expected[j].dejavu) in c'.acts {
        assert c'.expected[j] == c.expected[if j < i then j else j + 1];
      }
      FillExpects(c', end, input.draws);
    }
  }

  /** Along any connection. */
  lemma {:induction false} ConnectionExpects(lo: u32, end: u32, draws: seq<u32>, inputs: seq<Input>)
    requires lo <= end
    ensures ExpectsWhatWasSent(Connection(lo, end, draws, inputs))
  {
    if inputs == [] {
      FillExpects(Start(lo), end, draws);
    } else {
      var init := inputs[..|inputs| - 1];
      ConnectionInv(lo, end, draws, init);
      ConnectionExpects(lo, end, draws, init);
      StepExpects(Connection(lo, end, draws, init), lo, end, inputs[|inputs| - 1]);
    }
  }

  // ---------------------------------------------------------------- what an input does

  /** After the act at `n` a turn only sends and skips; what was in flight stays at the front of the queue. */
  ghost predicate Refills(c': Conn, n: nat, kept: seq<Expected>) {
    && kept <= c'.expected && n < |c'.acts|
    && forall m :: n < m < |c'.acts| ==> c'.acts[m].Requested? || c'.acts[m].Skipped?
  }

  lemma {:induction false} FillRefills(c: Conn, end: u32, draws: seq<u32>, n: nat, kept: seq<Expected>)
    requires Ready(c, end) && Refills(c, n, kept)
    ensures Refills(Fill(c, end, draws), n, kept)
    decreases |draws|, c.failures
  {
    if c.next < end && |c.expected| < PIPELINE_DEPTH {
      if c.failures >= MAX_CONSECUTIVE_FAILURES {
        FillRefills(SkipAhead(c, end), end, draws, n, kept);
      } else if draws != [] {
        FillRefills(Send(c, draws[0]), end, draws[1..], n, kept);
      }
    }
  }

  /**
   * The reply to the request at position `i`, the first with its dejavu: tick data of 8 bytes or more
   * complete the tick, shorter ones are malformed, types 35 and 54 say that it is unavailable. Every
   * other request stays in flight, in order; then only requests and skips follow.
   */
  lemma {:induction false} ReplyAnswers(c: Conn, lo: u32, end: u32, i: nat, input: Input)
    requires Inv(c, lo, end) && c.phase == Open && i < |c.expected|
    requires input.Packet? && input.msgType in {8, 35, 54} && input.dejavu == c.expected[i].dejavu
    requires forall j :: 0 <= j < i ==> c.expected[j].dejavu != c.expected[i].dejavu
    ensures var c', n, tick := Step(c, end, input), |c.acts|, c.expected[i].tick;
            && Refills(c', n, c.expected[..i] + c.expected[i + 1..])
            && c.acts <= c'.acts
            && c'.acts[n] == if input.msgType != 8 then Unavailable(tick)
                             else if |input.payload| < 8 then Malformed(tick)
                             else Completed(tick, input.published)
  {
    assert Position(c.expected, input.dejavu) == Some(i);
    assert c.expected[i].TickData?;
    var c' := Record(c, i, input);
    FillRefills(c', end, input.draws, |c.acts|, c.expected[..i] + c.expected[i + 1..]);
    FillExtends(c', end, input.draws);
  }

  /** A packet that answers no request in flight changes nothing, except that a published transaction is recorded. */
  lemma {:induction false} StrayPacket(c: Conn, end: u32, input: Input)
    requires Ready(c, end) && c.phase == Open && input.Packet?
    requires input.msgType in {8, 35, 54} ==> forall i :: 0 <= i < |c.expected| ==> c.expected[i].dejavu != input.dejavu
    ensures Step(c, end, input) == if input.msgType == 24 && input.published then c.(acts := c.acts + [Transaction]) else c
  {
  }

  /** A read error ends the connection and writes nothing off. */
  lemma {:induction false} ReadErrorEnds(c: Conn, end: u32)
    requires Ready(c, end) && c.phase == Open
    ensures Step(c, end, ReadError) == c.(phase := Broken)
  {
  }

  /** A timeout ends the connection and writes every request in flight off, in order. */
  lemma {:induction false} TimeoutWritesOff(c: Conn, lo: u32, end: u32)
    requires Inv(c, lo, end) && c.phase == Open
    ensures var c' := Step(c, end, Timeout);
            && c'.phase == Broken && c'.expected == []
            && c'.acts == c.acts + seq(|c.expected|, i requires 0 <= i < |c.expected| => TimedOut(c.expected[i].tick))
  {
    TimeoutActsAre(c.expected);
  }

  lemma {:induction false} TimeoutActsAre(expected: seq<Expected>)
    requires forall i :: 0 <= i < |expected| ==> expected[i].TickData?
    ensures TimeoutActs(expected) == seq(|expected|, i requires 0 <= i < |expected| => TimedOut(expected[i].tick))
  {
    if expected != [] {
      var init := expected[..|expected| - 1];
      TimeoutActsAre(init);
    }
  }

  /** Whenever a connection waits, its window is full or there is nothing left to ask for; and fewer than 30 failed in a row. */
  lemma {:induction false} WaitingWindow(lo: u32, end: u32, draws: seq<u32>, inputs: seq<Input>)
    requires lo <= end
    ensures var c := Connection(lo, end, draws, inputs);
            && |c.expected| <= 20
            && (c.phase == Open ==> c.expected != [] && (c.next < end ==> |c.expected| == 20 && Streak(c.acts) < 30))
            && (c.phase == Finished ==> c.expected == [] && c.next == end)
  {
    ConnectionInv(lo, end, draws, inputs);
  }

  // ---------------------------------------------------------------- what the counters count

  function CountIf(acts: seq<Act>, p: Act -> bool): nat {
    if acts == [] then 0 else (if p(acts[0]) then 1 else 0) + CountIf(acts[1..], p)
  }

  lemma {:induction false} CountIfSnoc(acts: seq<Act>, a: Act, p: Act -> bool)
    ensures CountIf(acts + [a], p) == CountIf(acts, p) + if p(a) then 1 else 0
  {
    if acts == [] {
      assert [a][1..] == [];
    } else {
      CountIfSnoc(acts[1..], a, p);
      assert (acts + [a])[1..] == acts[1..] + [a];
    }
  }

  const IsCompleted := (a: Act) => a.Completed?
  const IsFailed := (a: Act) => a.Unavailable? || a.Malformed? || a.TimedOut?
  const IsDiscovered := (a: Act) => a.Completed? && a.discovered
  const IsTransaction := (a: Act) => a.Transaction?

  lemma {:induction false} AddsOne(t: Tally, a: Act)
    ensures var r := Add(t, TallyOf(a));
            && r.completed == t.completed + (if IsCompleted(a) then 1 else 0)
            && r.failed == t.failed + (if IsFailed(a) then 1 else 0)
            && r.discovered == t.discovered + (if IsDiscovered(a) then 1 else 0)
            && r.txs == t.txs + (if IsTransaction(a) then 1 else 0)
  {
  }

  /** A measure of histories that starts at 0 and grows by one with each act of the kind is their number. */
  lemma {:induction false} MeasureIsCount(acts: seq<Act>, f: seq<Act> -> nat, p: Act -> bool)
    requires f([]) == 0
    requires forall h: seq<Act>, a: Act :: f(h + [a]) == f(h) + if p(a) then 1 else 0
    ensures f(acts) == CountIf(acts, p)
  {
    if acts != [] {
      var init, a := acts[..|acts| - 1], acts[|acts| - 1];
      MeasureIsCount(init, f, p);
      CountIfSnoc(init, a, p);
      assert acts == init + [a];
    }
  }

  lemma {:induction false} CountsSnoc(h: seq<Act>, a: Act)
    ensures Counts(h + [a]) == Add(Counts(h), TallyOf(a))
  {
    Snoc(h, a);
  }

  lemma {:induction false} CompletedCount(acts: seq<Act>)
    ensures Counts(acts).completed == CountIf(acts, IsCompleted)
  {
    var f := (h: seq<Act>) => Counts(h).completed;
    forall h: seq<Act>, a: Act ensures f(h + [a]) == f(h) + if IsCompleted(a) then 1 else 0 {
      CountsSnoc(h, a);
      AddsOne(Counts(h), a);
    }
    MeasureIsCount(acts, f, IsCompleted);
  }

  lemma {:induction false} FailedCount(acts: seq<Act>)
    ensures Counts(acts).failed == CountIf(acts, IsFailed)
  {
    var f := (h: seq<Act>) => Counts(h).failed;
    forall h: seq<Act>, a: Act ensures f(h + [a]) == f(h) + if IsFailed(a) then 1 else 0 {
      CountsSnoc(h, a);
      AddsOne(Counts(h), a);
    }
    MeasureIsCount(acts, f, IsFailed);
  }

  lemma {:induction false} DiscoveredCount(acts: seq<Act>)
    ensures Counts(acts).discovered == CountIf(acts, IsDiscovered)
  {
    var f := (h: seq<Act>) => Counts(h).discovered;
    forall h: seq<Act>, a: Act ensures f(h + [a]) == f(h) + if IsDiscovered(a) then 1 else 0 {
      CountsSnoc(h, a);
      AddsOne(Counts(h), a);
    }
    MeasureIsCount(acts, f, IsDiscovered);
  }

  lemma {:induction false} TransactionsCount(acts: seq<Act>)
    ensures Counts(acts).txs == CountIf(acts, IsTransaction)
  {
    var f := (h: seq<Act>) => Counts(h).txs;
    forall h: seq<Act>, a: Act ensures f(h + [a]) == f(h) + if IsTransaction(a) then 1 else 0 {
      CountsSnoc(h, a);
      AddsOne(Counts(h), a);
    }
    MeasureIsCount(acts, f, IsTransaction);
  }

  /** The counters: ticks completed, ticks failed in any of the three ways, ticks published, transactions published. */
  lemma {:induction false} CountersCount(acts: seq<Act>)
    ensures Counts(acts) == Tally(CountIf(acts, IsCompleted), CountIf(acts, IsFailed), CountIf(acts, IsDiscovered), CountIf(acts, IsTransaction))
  {
    CompletedCount(acts);
    FailedCount(acts);
    DiscoveredCount(acts);
    TransactionsCount(acts);
  }

  function Skips(acts: seq<Act>): nat {
    CountIf(acts, (a: Act) => a.Skipped?)
  }

  /** The backoff is what it says: the skips since the last completed tick. */
  lemma {:induction false} BackoffWindow(acts: seq<Act>) returns (j: nat)
    ensures j <= |acts| && Skips(acts[j..]) == Backoff(acts)
    ensures forall i :: j <= i < |acts| ==> !acts[i].Completed?
    ensures j > 0 ==> acts[j - 1].Completed?
  {
    if acts == [] {
      j := 0;
    } else {
      var init, a := acts[..|acts| - 1], acts[|acts| - 1];
      if a.Completed? {
        j := |acts|;
      } else {
        j := BackoffWindow(init);
        assert acts[j..] == init[j..] + [a];
        CountIfSnoc(init[j..], a, (a: Act) => a.Skipped?);
        assert j > 0 ==> init[j - 1] == acts[j - 1];
      }
    }
  }
}
