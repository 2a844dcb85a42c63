/**
 * One backfill connection: a sliding window of tick requests over `[lo, end)`, replies
 * matched by dejavu in any order, and skip-ahead after repeated failures.
 */
module Backfill {
  import opened Bytes

  const MAX_CONSECUTIVE_FAILURES := 30
  const PIPELINE_DEPTH := 20
  const FAILURE_SKIP_INITIAL := 10_000
  const FAILURE_SKIP_MAX := 1_000_000

  datatype Expected = TickData(tick: u32, dejavu: u32) | TransactionEnd(tick: u32, dejavu: u32)

  /** What a connection did, in order. The history is a specification device; the code keeps no such list. */
  datatype Act =
    | Requested(tick: u32, dejavu: u32)
    | Completed(tick: u32, discovered: bool)
    | Unavailable(tick: u32)
    | Malformed(tick: u32)
    | TimedOut(tick: u32)
    | Skipped(from: u32, to: u32)
    | Transaction

  datatype Phase = Open | Finished | Broken

  datatype Conn = Conn(phase: Phase, expected: seq<Expected>, next: u32, failures: nat, skipSize: nat, acts: seq<Act>)

  /**
   * What the network does next. The dejavus of the requests that the reply lets out are
   * drawn from `draws`; a send with no draw left is a send that failed.
   */
  datatype Input =
    | Packet(msgType: byte, dejavu: u32, payload: Bytes, published: bool, draws: seq<u32>)
    | ReadError
    | Timeout

  /** Far enough below 2^32 that the u32 addition of a skip cannot wrap. */
  predicate Bounded(end: u32) {
    end + FAILURE_SKIP_MAX <= 0x1_0000_0000
  }

  predicate Ready(c: Conn, end: u32) {
    c.next <= end && 1 <= c.skipSize <= FAILURE_SKIP_MAX
  }

  /** Where a skip lands, with u32 addition. */
  function SkipTarget(next: u32, skipSize: nat, end: u32): u32 {
    Min((next + skipSize) % 0x1_0000_0000, end)
  }

  function SkipAhead(c: Conn, end: u32): Conn {
    var to := SkipTarget(c.next, c.skipSize, end);
    c.(next := to, failures := 0, skipSize := Min(c.skipSize * 2, FAILURE_SKIP_MAX), acts := c.acts + [Skipped(c.next, to)])
  }

  function Send(c: Conn, draw: u32): Conn
    requires c.next + 1 < 0x1_0000_0000
  {
    c.(expected := c.expected + [TickData(c.next, Max(draw, 1))], next := c.next + 1, acts := c.acts + [Requested(c.next, Max(draw, 1))])
  }

  /** A skip moves forward exactly when the addition does not wrap. */
  lemma {:induction false} SkipMovesForward(next: u32, skipSize: nat, end: u32)
    requires next < end && 1 <= skipSize <= FAILURE_SKIP_MAX
    ensures next < SkipTarget(next, skipSize, end) <==> next + skipSize < 0x1_0000_0000
    ensures Bounded(end) ==> SkipTarget(next, skipSize, end) == Min(next + skipSize, end)
  {
  }

  /** `fill_pipeline`, then the loop test of `try_peer`. */
  function Fill(c: Conn, end: u32, draws: seq<u32>): (r: Conn)
    requires Ready(c, end)
    ensures Ready(r, end)
    decreases |draws|, c.failures
  {
    if c.next < end && |c.expected| < PIPELINE_DEPTH then
      if c.failures >= MAX_CONSECUTIVE_FAILURES then Fill(SkipAhead(c, end), end, draws)
      else if draws == [] then c.(phase := Broken)
      else Fill(Send(c, draws[0]), end, draws[1..])
    else Settle(c)
  }

  function Settle(c: Conn): Conn {
    if c.expected == [] then c.(phase := Finished) else c
  }

  /** The first expected reply with this dejavu. */
  function Position(expected: seq<Expected>, dejavu: u32): (i: Option<nat>)
    ensures i.Some? ==> i.value < |expected| && expected[i.value].dejavu == dejavu
    ensures i.Some? ==> forall j :: 0 <= j < i.value ==> expected[j].dejavu != dejavu
    ensures i.None? ==> forall j :: 0 <= j < |expected| ==> expected[j].dejavu != dejavu
  {
    if expected == [] then None
    else if expected[0].dejavu == dejavu then Some(0)
    else
      match Position(expected[1..], dejavu)
      case None => None
      case Some(i) => Some(i + 1)
  }

  function Without(expected: seq<Expected>, i: nat): seq<Expected>
    requires i < |expected|
  {
    expected[..i] + expected[i + 1..]
  }

  function TimeoutActs(expected: seq<Expected>): seq<Act> {
    if expected == [] then []
    else
      var e := expected[|expected| - 1];
      TimeoutActs(expected[..|expected| - 1]) + if e.TickData? then [TimedOut(e.tick)] else []
  }

  /** How a reply of type 8, 35 or 54 to the tick request at position `i` is recorded. */
  function Record(c: Conn, i: nat, input: Input): Conn
    requires i < |c.expected| && input.Packet? && input.msgType in {8, 35, 54}
  {
    var c', tick := c.(expected := Without(c.expected, i)), c.expected[i].tick;
    if input.msgType != 8 then
      c'.(failures := c.failures + 1, acts := c.acts + [Unavailable(tick)])
    else if |input.payload| < 8 then
      c'.(acts := c.acts + [Malformed(tick)])
    else
      c'.(failures := 0, skipSize := FAILURE_SKIP_INITIAL, acts := c.acts + [Completed(tick, input.published)])
  }

  /** An end-of-response for a transaction list only leaves the queue; every other reply refills it. */
  function Reply(c: Conn, end: u32, i: nat, input: Input): (r: Conn)
    requires Ready(c, end) && i < |c.expected| && input.Packet? && input.msgType in {8, 35, 54}
    ensures Ready(r, end)
  {
    if input.msgType != 8 && c.expected[i].TransactionEnd? then Settle(c.(expected := Without(c.expected, i)))
    else Fill(Record(c, i, input), end, input.draws)
  }

  /** One turn of the read loop. Packets that match no request change nothing. */
  function Step(c: Conn, end: u32, input: Input): (r: Conn)
    requires Ready(c, end)
    ensures Ready(r, end)
  {
    if c.phase != Open then c
    else match input
      case Packet(msgType, dejavu, payload, published, draws) =>
        if msgType in {8, 35, 54} then
          match Position(c.expected, dejavu)
          case None => c
          case Some(i) => Reply(c, end, i, input)
        else if msgType == 24 && published then c.(acts := c.acts + [Transaction])
        else c
      case ReadError => c.(phase := Broken)
      case Timeout => c.(phase := Broken, expected := [], acts := c.acts + TimeoutActs(c.expected))
  }

  function Start(lo: u32): Conn {
    Conn(Open, [], lo, 0, FAILURE_SKIP_INITIAL, [])
  }

  /** A connection from its first fill over any inputs. */
  function Connection(lo: u32, end: u32, draws: seq<u32>, inputs: seq<Input>): (c: Conn)
    requires lo <= end
    ensures Ready(c, end)
    decreases |inputs|
  {
    if inputs == [] then Fill(Start(lo), end, draws)
    else Step(Connection(lo, end, draws, inputs[..|inputs| - 1]), end, inputs[|inputs| - 1])
  }

  // ---------------------------------------------------------------- reading a history

  /** Where the requests and skips lead from `lo`, or -1 if they do not follow on from each other. */
  function Walk(lo: u32, acts: seq<Act>): int {
    if acts == [] then lo
    else
      var p := Walk(lo, acts[..|acts| - 1]);
      match acts[|acts| - 1]
      case Requested(tick, _) => if p == tick then tick + 1 else -1
      case Skipped(from, to) => if p == from && from < to then to else -1
      case _ => p
  }

  /** No skip of the history wrapped around u32: each one moved forward. */
  predicate Unwrapped(acts: seq<Act>) {
    acts == [] || (Unwrapped(acts[..|acts| - 1]) && (acts[|acts| - 1].Skipped? ==> acts[|acts| - 1].from < acts[|acts| - 1].to))
  }

  function Requests(acts: seq<Act>): multiset<u32> {
    if acts == [] then multiset{}
    else
      var a := acts[|acts| - 1];
      Requests(acts[..|acts| - 1]) + if a.Requested? then multiset{a.tick} else multiset{}
  }

  predicate IsAnswer(a: Act) {
    a.Completed? || a.Unavailable? || a.Malformed? || a.TimedOut?
  }

  function Answers(acts: seq<Act>): multiset<u32> {
    if acts == [] then multiset{}
    else
      var a := acts[|acts| - 1];
      Answers(acts[..|acts| - 1]) + if IsAnswer(a) then multiset{a.tick} else multiset{}
  }

  function InFlight(expected: seq<Expected>): multiset<u32> {
    if expected == [] then multiset{}
    else InFlight(expected[..|expected| - 1]) + multiset{expected[|expected| - 1].tick}
  }

  /** How often a tick was requested or passed over by a skip. */
  function Handled(acts: seq<Act>, t: u32): nat {
    if acts == [] then 0
    else
      Handled(acts[..|acts| - 1], t) +
      match acts[|acts| - 1]
      case Requested(tick, _) => if tick == t then 1 else 0
      case Skipped(from, to) => if from <= t < to then 1 else 0
      case _ => 0
  }

  function SkippedTicks(acts: seq<Act>): int {
    if acts == [] then 0
    else
      SkippedTicks(acts[..|acts| - 1]) +
      match acts[|acts| - 1]
      case Skipped(from, to) => to - from
      case _ => 0
  }

  /** Unavailable replies since the last completed tick or skip. */
  function Streak(acts: seq<Act>): nat {
    if acts == [] then 0
    else
      match acts[|acts| - 1]
      case Unavailable(_) => Streak(acts[..|acts| - 1]) + 1
      case Completed(_, _) => 0
      case Skipped(_, _) => 0
      case _ => Streak(acts[..|acts| - 1])
  }

  /** Skips since the last completed tick. */
  function Backoff(acts: seq<Act>): nat {
    if acts == [] then 0
    else
      match acts[|acts| - 1]
      case Skipped(_, _) => Backoff(acts[..|acts| - 1]) + 1
      case Completed(_, _) => 0
      case _ => Backoff(acts[..|acts| - 1])
  }

  function Pow2(k: nat): nat { if k == 0 then 1 else 2 * Pow2(k - 1) }

  function SkipSizeAfter(k: nat): nat {
    Min(FAILURE_SKIP_INITIAL * Pow2(k), FAILURE_SKIP_MAX)
  }

  /** Every skip came after 30 failures in a row, from a tick of the range, and had the size its backoff calls for. */
  ghost predicate Disciplined(acts: seq<Act>, end: u32) {
    forall i :: 0 <= i < |acts| && acts[i].Skipped? ==>
                  && Streak(acts[..i]) >= MAX_CONSECUTIVE_FAILURES
                  && acts[i].from < end && acts[i].to == SkipTarget(acts[i].from, SkipSizeAfter(Backoff(acts[..i])), end)
  }

  datatype Tally = Tally(completed: nat, failed: nat, discovered: nat, txs: nat)

  function Add(a: Tally, b: Tally): Tally {
    Tally(a.completed + b.completed, a.failed + b.failed, a.discovered + b.discovered, a.txs + b.txs)
  }

  function TallyOf(a: Act): Tally {
    match a
    case Completed(_, discovered) => Tally(1, 0, if discovered then 1 else 0, 0)
    case Unavailable(_) => Tally(0, 1, 0, 0)
    case Malformed(_) => Tally(0, 1, 0, 0)
    case TimedOut(_) => Tally(0, 1, 0, 0)
    case Transaction => Tally(0, 0, 0, 1)
    case _ => Tally(0, 0, 0, 0)
  }

  /** What the history adds to the shared counters. */
  function Counts(acts: seq<Act>): Tally {
    if acts == [] then Tally(0, 0, 0, 0) else Add(Counts(acts[..|acts| - 1]), TallyOf(acts[|acts| - 1]))
  }

  // ---------------------------------------------------------------- the invariant

  ghost predicate HistoryInv(c: Conn, lo: u32, end: u32) {
    && Walk(lo, c.acts) == (if Unwrapped(c.acts) then c.next else -1)
    && Requests(c.acts) == Answers(c.acts) + InFlight(c.expected)
    && c.failures == Streak(c.acts)
    && c.skipSize == SkipSizeAfter(Backoff(c.acts))
    && Disciplined(c.acts, end)
    && forall i :: 0 <= i < |c.expected| ==> c.expected[i].TickData?
  }

  /** Holds between any two actions of the fill loop. */
  ghost predicate FillInv(c: Conn, lo: u32, end: u32) {
    && lo <= end && Ready(c, end)
    && |c.expected| <= PIPELINE_DEPTH
    && c.failures + |c.expected| <= 49
    && (c.next < end ==> c.failures <= MAX_CONSECUTIVE_FAILURES)
    && HistoryInv(c, lo, end)
  }

  /** Holds whenever the connection waits for the network or has ended. */
  ghost predicate Inv(c: Conn, lo: u32, end: u32) {
    && FillInv(c, lo, end)
    && (c.phase == Open ==> c.expected != [] && (c.next < end ==> |c.expected| == PIPELINE_DEPTH && c.failures < MAX_CONSECUTIVE_FAILURES))
    && (c.phase == Finished ==> c.expected == [] && c.next == end)
  }

  function Fuel(c: Conn, end: u32): int {
    2 * (end - c.next) + |c.expected|
  }
}
