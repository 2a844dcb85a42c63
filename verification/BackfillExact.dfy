/** The backfill as a whole: exactly when every tick is handled once, whatever the workers and the network do. */
module BackfillExact {
  import opened Bytes
  import opened Backfill
  import opened BackfillLaws
  import opened BackfillWorkers
  import opened BackfillSafety
  import opened BackfillSystem

  // ---------------------------------------------------------------- workers run connections

  /** The acts are those of some connection over `[lo, hi)` in the given phase. */
  ghost predicate IsRun(lo: u32, hi: u32, acts: seq<Act>, phase: Phase) {
    lo <= hi && exists draws: seq<u32>, inputs: seq<Input> ::
      Connection(lo, hi, draws, inputs).acts == acts && Connection(lo, hi, draws, inputs).phase == phase
  }

  ghost predicate IsConnection(lo: u32, hi: u32, c: Conn) {
    lo <= hi && exists draws: seq<u32>, inputs: seq<Input> :: Connection(lo, hi, draws, inputs) == c
  }

  /** What a worker did is what its connections did; a finished worker's last connection finished. */
  ghost predicate Traced(w: Worker) {
    && w.lo <= w.hi
    && (w.conn.Some? ==> IsConnection(w.lo, w.hi, w.conn.value))
    && (forall k :: 0 <= k < |w.past| ==> IsRun(w.lo, w.hi, w.past[k], Broken) || IsRun(w.lo, w.hi, w.past[k], Finished))
    && (w.done ==> w.past != [] && IsRun(w.lo, w.hi, w.past[|w.past| - 1], Finished))
  }

  lemma {:induction false} AbsorbTraced(w: Worker, c: Conn)
    requires Traced(w) && !w.done && IsConnection(w.lo, w.hi, c)
    ensures Traced(Absorb(w, c))
  {
    var draws: seq<u32>, inputs: seq<Input> :| Connection(w.lo, w.hi, draws, inputs) == c;
    if c.phase != Open { assert IsRun(w.lo, w.hi, c.acts, c.phase); }
  }

  lemma {:induction false} MoveTraced(w: Worker, move: Move)
    requires Traced(w) && CanMove(w, move)
    ensures Traced(MoveWorker(w, move))
    ensures MoveWorker(w, move).lo == w.lo && MoveWorker(w, move).hi == w.hi
  {
    match move
    case Connect(draws) =>
      assert Connection(w.lo, w.hi, draws, []) == Fill(Start(w.lo), w.hi, draws);
      AbsorbTraced(w, Fill(Start(w.lo), w.hi, draws));
    case Receive(input) =>
      var draws: seq<u32>, inputs: seq<Input> :| Connection(w.lo, w.hi, draws, inputs) == w.conn.value;
      OneMore(w.lo, w.hi, draws, inputs, input);
      AbsorbTraced(w, Step(w.conn.value, w.hi, input));
  }

  ghost predicate AllTraced(workers: seq<Worker>, ranges: seq<Range>) {
    && |workers| == |ranges|
    && (forall i :: 0 <= i < |ranges| ==> workers[i].lo == ranges[i].lo && workers[i].hi == ranges[i].hi)
    && (forall i :: 0 <= i < |ranges| ==> Traced(workers[i]))
  }

  lemma {:induction false} RunTraced(ranges: seq<Range>, schedule: seq<(nat, Move)>)
    requires Startable(ranges)
    ensures AllTraced(RunSystem(ranges, schedule).workers, ranges)
  {
    if schedule != [] {
      var init := schedule[..|schedule| - 1];
      var (i, move) := schedule[|schedule| - 1];
      RunTraced(ranges, init);
      var ws := RunSystem(ranges, init).workers;
      if i < |ws| && CanMove(ws[i], move) { MoveTraced(ws[i], move); }
    }
  }

  // ---------------------------------------------------------------- adding up the workers

  ghost predicate AllDone(workers: seq<Worker>) {
    forall i :: 0 <= i < |workers| ==> workers[i].done && workers[i].past != []
  }

  /** What a worker's last connection did. */
  function LastActs(w: Worker): seq<Act> {
    if w.past == [] then [] else w.past[|w.past| - 1]
  }

  function Sum(s: seq<nat>): nat {
    if s == [] then 0 else Sum(s[..|s| - 1]) + s[|s| - 1]
  }

  /** How often each worker's last connection handled a tick. */
  function HandledByEach(workers: seq<Worker>, t: u32): (h: seq<nat>)
    ensures |h| == |workers| && forall i :: 0 <= i < |h| ==> h[i] == Handled(LastActs(workers[i]), t)
  {
    seq(|workers|, i requires 0 <= i < |workers| => Handled(LastActs(workers[i]), t))
  }

  function HandledByAll(workers: seq<Worker>, t: u32): nat {
    Sum(HandledByEach(workers, t))
  }

  function DueOfEach(ranges: seq<Range>, t: u32): (d: seq<nat>)
    ensures |d| == |ranges| && forall i :: 0 <= i < |d| ==> d[i] == Due(ranges[i].lo, ranges[i].hi, t)
  {
    seq(|ranges|, i requires 0 <= i < |ranges| => Due(ranges[i].lo, ranges[i].hi, t))
  }

  lemma {:induction false} OwnersAreDue(ranges: seq<Range>, t: u32)
    ensures Owners(ranges, t) == Sum(DueOfEach(ranges, t))
  {
    if ranges != [] {
      var init := ranges[..|ranges| - 1];
      OwnersAreDue(init, t);
      assert DueOfEach(ranges, t)[..|init|] == DueOfEach(init, t);
    }
  }

  lemma {:induction false} SumGrows(a: seq<nat>, b: seq<nat>)
    requires |a| == |b| && forall i :: 0 <= i < |a| ==> a[i] >= b[i]
    ensures Sum(a) >= Sum(b)
    ensures (exists i :: 0 <= i < |a| && a[i] > b[i]) ==> Sum(a) > Sum(b)
  {
    if a != [] {
      var n := |a| - 1;
      SumGrows(a[..n], b[..n]);
      if i :| 0 <= i < |a| && a[i] > b[i] {
        assert i < n ==> a[..n][i] > b[..n][i];
      }
    }
  }

  /** Every tick of `[start, end)` was handled once, and no other tick. */
  ghost predicate ExactlyOnce(workers: seq<Worker>, start: u32, end: u32) {
    forall t: u32 :: HandledByAll(workers, t) == Due(start, end, t)
  }

  ghost predicate LastUnwrapped(workers: seq<Worker>) {
    forall i :: 0 <= i < |workers| ==> Unwrapped(LastActs(workers[i]))
  }

  /** A finished worker handled every tick of its range, and exactly its range unless a skip wrapped. */
  lemma {:induction false} DoneHandles(w: Worker)
    requires Traced(w) && w.done
    ensures forall t: u32 :: Handled(LastActs(w), t) >= Due(w.lo, w.hi, t)
    ensures Unwrapped(LastActs(w)) ==> forall t: u32 :: Handled(LastActs(w), t) == Due(w.lo, w.hi, t)
    ensures !Unwrapped(LastActs(w)) ==> Over(LastActs(w), w.lo, w.hi)
  {
    var draws: seq<u32>, inputs: seq<Input> :|
      Connection(w.lo, w.hi, draws, inputs).acts == LastActs(w) && Connection(w.lo, w.hi, draws, inputs).phase == Finished;
    CleanFinishIff(w.lo, w.hi, draws, inputs);
    ConnectionLeavesNoGap(w.lo, w.hi, draws, inputs);
    ConnectionWrapShows(w.lo, w.hi, draws, inputs);
  }

  lemma {:induction false} ExactlyOwners(workers: seq<Worker>, ranges: seq<Range>, t: u32)
    requires AllTraced(workers, ranges) && AllDone(workers) && LastUnwrapped(workers)
    ensures HandledByAll(workers, t) == Owners(ranges, t)
  {
    var h, d := HandledByEach(workers, t), DueOfEach(ranges, t);
    forall i | 0 <= i < |workers| ensures h[i] == d[i] { DoneHandles(workers[i]); }
    assert h == d;
    OwnersAreDue(ranges, t);
  }

  lemma {:induction false} OneTooMany(workers: seq<Worker>, ranges: seq<Range>, i: nat, t: u32)
    requires AllTraced(workers, ranges) && AllDone(workers) && i < |workers|
    requires Handled(LastActs(workers[i]), t) > Due(workers[i].lo, workers[i].hi, t)
    ensures HandledByAll(workers, t) > Owners(ranges, t)
  {
    var h, d := HandledByEach(workers, t), DueOfEach(ranges, t);
    forall j | 0 <= j < |workers| ensures h[j] >= d[j] { DoneHandles(workers[j]); }
    assert h[i] > d[i];
    SumGrows(h, d);
    OwnersAreDue(ranges, t);
  }

  /**
   * When all workers of a tiled range are done: every tick was handled once, and no other, by their
   * last connections together, if and only if none of these connections made a skip that wrapped.
   */
  lemma {:induction false} SystemExactIff(ranges: seq<Range>, schedule: seq<(nat, Move)>, start: u32, end: u32)
    requires Startable(ranges) && Tiles(ranges, start, end) && AllDone(RunSystem(ranges, schedule).workers)
    ensures var ws := RunSystem(ranges, schedule).workers; ExactlyOnce(ws, start, end) <==> LastUnwrapped(ws)
  {
    var ws := RunSystem(ranges, schedule).workers;
    RunTraced(ranges, schedule);
    if LastUnwrapped(ws) {
      forall t: u32 ensures HandledByAll(ws, t) == Due(start, end, t) {
        ExactlyOwners(ws, ranges, t);
        assert Owners(ranges, t) == Due(start, end, t);
      }
    } else {
      var i :| 0 <= i < |ws| && !Unwrapped(LastActs(ws[i]));
      DoneHandles(ws[i]);
      var t: u32 :| Handled(LastActs(ws[i]), t) > Due(ws[i].lo, ws[i].hi, t);
      OneTooMany(ws, ranges, i, t);
      assert Owners(ranges, t) == Due(start, end, t);
    }
  }

  // ---------------------------------------------------------------- schedules that finish

  lemma {:induction false} RunOn(ranges: seq<Range>, schedule: seq<(nat, Move)>, i: nat, move: Move)
    ensures RunSystem(ranges, schedule + [(i, move)]) == Advance(RunSystem(ranges, schedule), i, move)
  {
    var all := schedule + [(i, move)];
    assert all[..|all| - 1] == schedule && all[|all| - 1] == (i, move);
  }

  /** Scheduling one fresh worker through a whole connection. */
  lemma {:induction false} RunWorker(ranges: seq<Range>, before: seq<(nat, Move)>, i: nat, draws: seq<u32>, inputs: seq<Input>)
    returns (schedule: seq<(nat, Move)>)
    requires i < |RunSystem(ranges, before).workers|
    requires var w := RunSystem(ranges, before).workers[i]; w.lo <= w.hi && w == Worker(w.lo, w.hi, [], None, false)
    ensures var ws := RunSystem(ranges, before).workers;
            RunSystem(ranges, schedule).workers == ws[i := Absorb(ws[i], Connection(ws[i].lo, ws[i].hi, draws, inputs))]
  {
    var ws := RunSystem(ranges, before).workers;
    var w := ws[i];
    if inputs == [] {
      schedule := before + [(i, Connect(draws))];
      RunOn(ranges, before, i, Connect(draws));
    } else {
      var n := |inputs| - 1;
      var most := RunWorker(ranges, before, i, draws, inputs[..n]);
      var c := Connection(w.lo, w.hi, draws, inputs[..n]);
      schedule := most + [(i, Move.Receive(inputs[n]))];
      RunOn(ranges, most, i, Move.Receive(inputs[n]));
      AbsorbStep(w, c, inputs[n]);
    }
  }

  /** Receiving on what a fresh worker made of a connection is what it makes of the connection's next step. */
  lemma {:induction false} AbsorbStep(w: Worker, c: Conn, input: Input)
    requires w == Worker(w.lo, w.hi, [], None, false) && Ready(c, w.hi)
    ensures var w', move := Absorb(w, c), Move.Receive(input);
            Absorb(w, Step(c, w.hi, input)) == if CanMove(w', move) then MoveWorker(w', move) else w'
  {
  }

  /** A worker that is done after one connection. */
  ghost predicate DoneOnce(w: Worker, acts: seq<Act>) {
    w.done && w.past == [acts]
  }

  /** Some network takes the first `n` workers to the end: all without a skip, but `bad` with a wrapped one. */
  lemma {:induction false} FinishAll(ranges: seq<Range>, n: nat, bad: nat) returns (schedule: seq<(nat, Move)>)
    requires Startable(ranges) && n <= |ranges|
    requires bad < |ranges| ==> !Safe(ranges[bad].lo, ranges[bad].hi)
    ensures |RunSystem(ranges, schedule).workers| == |ranges|
    ensures forall i :: 0 <= i < n ==> var w := RunSystem(ranges, schedule).workers[i];
              w.done && w.past != [] && (Unwrapped(LastActs(w)) <==> i != bad)
    ensures forall i :: n <= i < |ranges| ==> RunSystem(ranges, schedule).workers[i] == Worker(ranges[i].lo, ranges[i].hi, [], None, false)
  {
    if n == 0 {
      schedule := [];
    } else {
      var i := n - 1;
      var before := FinishAll(ranges, i, bad);
      var inputs: seq<Input>;
      if i == bad {
        inputs := UnsafeCanFinish(ranges[i].lo, ranges[i].hi);
      } else {
        inputs := ServedFinishes(ranges[i].lo, ranges[i].hi);
      }
      schedule := RunWorker(ranges, before, i, ONES, inputs);
    }
  }

  // ---------------------------------------------------------------- the exact condition

  /** Under every schedule and every network, once all workers are done every tick was handled exactly once. */
  ghost predicate AlwaysExactlyOnce(ranges: seq<Range>, start: u32, end: u32) {
    forall schedule: seq<(nat, Move)> :: AllDone(RunSystem(ranges, schedule).workers) ==>
      ExactlyOnce(RunSystem(ranges, schedule).workers, start, end)
  }

  ghost predicate AllSafe(ranges: seq<Range>) {
    forall i :: 0 <= i < |ranges| ==> Safe(ranges[i].lo, ranges[i].hi)
  }

  /** On safe ranges no connection of any worker ever makes a skip that wraps. */
  lemma {:induction false} SafeNoneWrapped(ranges: seq<Range>, schedule: seq<(nat, Move)>)
    requires Startable(ranges) && AllSafe(ranges)
    ensures NoneWrapped(RunSystem(ranges, schedule).workers)
  {
    RunTraced(ranges, schedule);
    var ws := RunSystem(ranges, schedule).workers;
    forall i, k | 0 <= i < |ws| && 0 <= k < |ws[i].past| ensures Unwrapped(ws[i].past[k]) {
      assert Traced(ws[i]) && Safe(ws[i].lo, ws[i].hi);
      SafePastUnwrapped(ws[i], k);
    }
  }

  lemma {:induction false} SafePastUnwrapped(w: Worker, k: nat)
    requires Traced(w) && Safe(w.lo, w.hi) && k < |w.past|
    ensures Unwrapped(w.past[k])
  {
    var draws: seq<u32>, inputs: seq<Input> :| Connection(w.lo, w.hi, draws, inputs).acts == w.past[k];
    SafeNeverWraps(w.lo, w.hi, draws, inputs);
  }

  lemma {:induction false} SafeIsExact(ranges: seq<Range>, start: u32, end: u32)
    requires Startable(ranges) && Tiles(ranges, start, end) && AllSafe(ranges)
    ensures AlwaysExactlyOnce(ranges, start, end)
  {
    forall schedule: seq<(nat, Move)> | AllDone(RunSystem(ranges, schedule).workers)
      ensures ExactlyOnce(RunSystem(ranges, schedule).workers, start, end)
    {
      SafeNoneWrapped(ranges, schedule);
      SystemExactIff(ranges, schedule, start, end);
    }
  }

  /** If it is always exact then it is so when nothing is skipped, and then each tick has its one owner. */
  lemma {:induction false} ExactMeansTiles(ranges: seq<Range>, start: u32, end: u32)
    requires Startable(ranges) && AlwaysExactlyOnce(ranges, start, end)
    ensures Tiles(ranges, start, end)
  {
    var schedule := FinishAll(ranges, |ranges|, |ranges|);
    var ws := RunSystem(ranges, schedule).workers;
    RunTraced(ranges, schedule);
    assert ExactlyOnce(ws, start, end);
    forall t: u32 ensures Owners(ranges, t) == if start <= t < end then 1 else 0 {
      ExactlyOwners(ws, ranges, t);
      assert HandledByAll(ws, t) == Due(start, end, t);
    }
  }

  lemma {:induction false} ExactMeansSafe(ranges: seq<Range>, start: u32, end: u32, bad: nat)
    requires Startable(ranges) && Tiles(ranges, start, end) && bad < |ranges| && !Safe(ranges[bad].lo, ranges[bad].hi)
    ensures !AlwaysExactlyOnce(ranges, start, end)
  {
    var schedule := FinishAll(ranges, |ranges|, bad);
    SystemExactIff(ranges, schedule, start, end);
    assert !Unwrapped(LastActs(RunSystem(ranges, schedule).workers[bad]));
  }

  /**
   * For any ranges: the workers handle every tick of `[start, end)` exactly once, and no other,
   * under every schedule and every network that lets them all finish, if and only if the ranges
   * tile `[start, end)` and each of them is safe.
   */
  lemma {:induction false} AlwaysExactlyOnceIff(ranges: seq<Range>, start: u32, end: u32)
    requires Startable(ranges)
    ensures AlwaysExactlyOnce(ranges, start, end) <==> Tiles(ranges, start, end) && AllSafe(ranges)
  {
    if Tiles(ranges, start, end) && AllSafe(ranges) { SafeIsExact(ranges, start, end); }
    if AlwaysExactlyOnce(ranges, start, end) {
      ExactMeansTiles(ranges, start, end);
      forall i | 0 <= i < |ranges| ensures Safe(ranges[i].lo, ranges[i].hi) {
        if !Safe(ranges[i].lo, ranges[i].hi) { ExactMeansSafe(ranges, start, end, i); }
      }
    }
  }

  lemma {:induction false} RangesStart(start: u32, end: u32, workers: nat, chunk: nat)
    requires start < end
    ensures Startable(Ranges(start, end, workers, chunk))
  {
    NonEmptyRanges(Assignment(start, end, workers, chunk), workers, end);
  }

  /**
   * The backfill as a whole, for any range, any number of workers and any chunk: it always handles
   * every tick exactly once if and only if every worker whose start wraps is left without a range
   * and every range handed out is safe.
   */
  lemma {:induction false} BackfillExactIff(start: u32, end: u32, workers: nat, chunk: nat)
    requires start < end && workers >= 1
    ensures AlwaysExactlyOnce(Ranges(start, end, workers, chunk), start, end) <==>
            WrappedAreIdle(start, end, workers, chunk % 0x1_0000_0000) && AllSafe(Ranges(start, end, workers, chunk))
  {
    RangesStart(start, end, workers, chunk);
    TilesIff(start, end, workers, chunk);
    AlwaysExactlyOnceIff(Ranges(start, end, workers, chunk), start, end);
  }

  /**
   * Under that condition, once all workers are done every tick was handled exactly once by the last
   * connection of its one owner, and no connection of another worker ever touched it.
   */
  lemma {:induction false} BackfillCovers(start: u32, end: u32, workers: nat, chunk: nat, schedule: seq<(nat, Move)>, t: u32)
    returns (owner: nat)
    requires start <= t < end && workers >= 1
    requires WrappedAreIdle(start, end, workers, chunk % 0x1_0000_0000) && AllSafe(Ranges(start, end, workers, chunk))
    requires forall w :: w in RunSystem(Ranges(start, end, workers, chunk), schedule).workers ==> w.done
    ensures var ws := RunSystem(Ranges(start, end, workers, chunk), schedule).workers;
            && owner < |ws| && ws[owner].past != []
            && Handled(ws[owner].past[|ws[owner].past| - 1], t) == 1
            && forall i :: 0 <= i < |ws| && i != owner ==> NeverTouches(ws[i], t)
  {
    var ranges := Ranges(start, end, workers, chunk);
    TilesIff(start, end, workers, chunk);
    RangesStart(start, end, workers, chunk);
    RunSystemInv(ranges, schedule);
    SafeNoneWrapped(ranges, schedule);
    owner := EveryTickHandled(ranges, schedule, start, end, t);
  }
}
