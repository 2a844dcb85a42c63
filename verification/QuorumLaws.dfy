/** What holds of the aggregator after every run of votes and prunes. */
module QuorumLaws {
  import opened Bytes
  import opened Collections
  import opened Quorum

  // ---------------------------------------------------------------- published means quorum

  /** A key is published exactly when its vote set has reached the quorum. */
  ghost predicate PublishedIffQuorum(a: Aggregator) {
    forall k :: k in a.published <==> |VotesFor(a, k)| >= QUORUM
  }

  lemma {:induction false} GrowsByOne(s: set<u16>, c: u16)
    ensures |s| <= |s + {c}| <= |s| + 1
  {
    if c in s { assert s + {c} == s; }
  }

  lemma {:induction false} ApplyKeeps(a: Aggregator, op: Op)
    requires PublishedIffQuorum(a)
    ensures PublishedIffQuorum(Apply(a, op))
  {
    var a' := Apply(a, op);
    forall k ensures k in a'.published <==> |VotesFor(a', k)| >= QUORUM {
      assert k in a.published <==> |VotesFor(a, k)| >= QUORUM;
      if op.Vote? {
        GrowsByOne(VotesFor(a, op.key), op.computor);
        assert op.key in a.published <==> |VotesFor(a, op.key)| >= QUORUM;
      }
    }
  }

  lemma {:induction false} RunPublishes(ops: seq<Op>)
    ensures PublishedIffQuorum(Run(ops))
  {
    if ops != [] {
      RunPublishes(ops[..|ops| - 1]);
      ApplyKeeps(Run(ops[..|ops| - 1]), ops[|ops| - 1]);
    }
  }

  // ---------------------------------------------------------------- what the vote sets are

  /** The computors that voted for a key since it was last dropped. */
  function VotersSince(ops: seq<Op>, k: Key): set<u16> {
    if ops == [] then {}
    else
      var before := VotersSince(ops[..|ops| - 1], k);
      match ops[|ops| - 1]
      case Vote(key, c) => if key == k then before + {c} else before
      case PruneAt(latest, keep) => if Drops(latest, keep, k) then {} else before
  }

  lemma {:induction false} RunCollects(ops: seq<Op>, k: Key)
    ensures VotesFor(Run(ops), k) == VotersSince(ops, k)
  {
    if ops != [] { RunCollects(ops[..|ops| - 1], k); }
  }

  // ---------------------------------------------------------------- events

  /** An event lists exactly 451 distinct computors in ascending order, those that voted for its key. */
  ghost predicate WellShaped(e: QuorumTick, voters: set<u16>) {
    && |e.votedComputors| == QUORUM == NUMBER_OF_COMPUTORS * 2 / 3 + 1 && e.voteCount == 451
    && Increasing(e.votedComputors)
    && forall c :: c in e.votedComputors <==> c in voters
  }

  lemma {:induction false} VoteEventShape(a: Aggregator, k: Key, c: u16)
    requires PublishedIffQuorum(a) && Publishes(a, k, c)
    ensures VoteEvent(a, k, c).Some? && WellShaped(VoteEvent(a, k, c).value, VotesFor(a, k) + {c})
  {
    GrowsByOne(VotesFor(a, k), c);
    SortedListSpec(VotesFor(a, k) + {c});
  }

  lemma {:induction false} EventsAreWellShaped(ops: seq<Op>)
    requires ops != [] && Emits(ops).Some?
    ensures var e := Emits(ops).value; WellShaped(e, VotersSince(ops, Key(e.epoch, e.tick)))
  {
    var init, op := ops[..|ops| - 1], ops[|ops| - 1];
    RunPublishes(init);
    RunCollects(init, op.key);
    VoteEventShape(Run(init), op.key, op.computor);
  }

  predicate IsEventFor(ops: seq<Op>, k: Key)
    requires ops != []
  {
    Emits(ops).Some? && Emits(ops).value.epoch == k.epoch && Emits(ops).value.tick == k.tick
  }

  function EventCount(ops: seq<Op>, k: Key): nat {
    if ops == [] then 0 else EventCount(ops[..|ops| - 1], k) + if IsEventFor(ops, k) then 1 else 0
  }

  function VoteCount(ops: seq<Op>, k: Key): nat {
    if ops == [] then 0
    else VoteCount(ops[..|ops| - 1], k) + if ops[|ops| - 1].Vote? && ops[|ops| - 1].key == k then 1 else 0
  }

  /** Votes that no event has used up yet. */
  function Unspent(a: Aggregator, k: Key): int {
    if k in a.published then |VotesFor(a, k)| - QUORUM else |VotesFor(a, k)|
  }

  lemma {:induction false} VotePays(a: Aggregator, k: Key, c: u16)
    requires PublishedIffQuorum(a)
    ensures Unspent(RecordVote(a, k, c), k) + (if Publishes(a, k, c) then QUORUM else 0) <= Unspent(a, k) + 1
  {
    GrowsByOne(VotesFor(a, k), c);
  }

  lemma {:induction false} OthersUnchanged(a: Aggregator, op: Op, k: Key)
    requires PublishedIffQuorum(a) && !(op.Vote? && op.key == k)
    ensures Unspent(Apply(a, op), k) <= Unspent(a, k)
  {
  }

  lemma {:induction false} EventForKey(ops: seq<Op>, k: Key)
    requires ops != []
    ensures var op := ops[|ops| - 1];
            IsEventFor(ops, k) <==> op.Vote? && op.key == k && Publishes(Run(ops[..|ops| - 1]), k, op.computor)
  {
  }

  lemma {:induction false} VotesPayForEvents(ops: seq<Op>, k: Key)
    ensures QUORUM * EventCount(ops, k) + Unspent(Run(ops), k) <= VoteCount(ops, k)
  {
    if ops != [] {
      var init, op := ops[..|ops| - 1], ops[|ops| - 1];
      VotesPayForEvents(init, k);
      RunPublishes(init);
      EventForKey(ops, k);
      if op.Vote? && op.key == k {
        VotePays(Run(init), k, op.computor);
      } else {
        OthersUnchanged(Run(init), op, k);
      }
    }
  }

  /** Each event for a key is paid for by 451 votes of its own. */
  lemma {:induction false} EventsAreBounded(ops: seq<Op>, k: Key)
    ensures 451 * EventCount(ops, k) <= VoteCount(ops, k)
  {
    VotesPayForEvents(ops, k);
    RunPublishes(ops);
    assert k in Run(ops).published <==> |VotesFor(Run(ops), k)| >= QUORUM;
  }

  /** Between two events for the same key there was a prune that dropped it. */
  lemma {:induction false} EventsNeedPrune(ops: seq<Op>, i: nat, j: nat, k: Key) returns (p: nat)
    requires i < j < |ops|
    requires IsEventFor(ops[..i + 1], k) && IsEventFor(ops[..j + 1], k)
    ensures i < p < j && ops[p].PruneAt? && Drops(ops[p].latest, ops[p].keep, k)
  {
    PublishedAround(ops, i, k);
    PublishedAround(ops, j, k);
    p := DroppedBetween(ops, i + 1, j, k);
  }

  /** An event publishes its key, which was not published before. */
  lemma {:induction false} PublishedAround(ops: seq<Op>, i: nat, k: Key)
    requires i < |ops| && IsEventFor(ops[..i + 1], k)
    ensures k !in Run(ops[..i]).published && k in Run(ops[..i + 1]).published
  {
    EventForKey(ops[..i + 1], k);
    assert ops[..i + 1][..i] == ops[..i];
  }

  lemma {:induction false} DroppedBetween(ops: seq<Op>, i: nat, j: nat, k: Key) returns (p: nat)
    requires i <= j <= |ops| && k in Run(ops[..i]).published && k !in Run(ops[..j]).published
    ensures i <= p < j && ops[p].PruneAt? && Drops(ops[p].latest, ops[p].keep, k)
    decreases j
  {
    var o := ops[..j];
    assert o[..|o| - 1] == ops[..j - 1] && o[|o| - 1] == ops[j - 1];
    if k in Run(ops[..j - 1]).published {
      p := j - 1;
    } else {
      p := DroppedBetween(ops, i, j - 1, k);
    }
  }

  // ---------------------------------------------------------------- intersection

  function Elements(s: seq<u16>): set<u16> {
    set c | c in s
  }

  lemma {:induction false} ElementsSnoc(s: seq<u16>)
    requires s != [] && Increasing(s)
    ensures Elements(s) == Elements(s[..|s| - 1]) + {s[|s| - 1]}
    ensures s[|s| - 1] !in Elements(s[..|s| - 1])
  {
    var init, last := s[..|s| - 1], s[|s| - 1];
    assert s == init + [last];
    forall i | 0 <= i < |init| ensures init[i] < last { assert s[i] == init[i]; }
  }

  lemma {:induction false} DistinctSize(s: seq<u16>)
    requires Increasing(s)
    ensures |Elements(s)| == |s|
  {
    if s != [] {
      DistinctSize(s[..|s| - 1]);
      ElementsSnoc(s);
    }
  }

  lemma {:induction false} BelowSize(s: set<u16>, n: nat)
    requires forall c :: c in s ==> c < n
    ensures |s| <= n
    decreases n
  {
    if n == 0 {
      assert s == {} by { if c :| c in s { assert false; } }
    } else if n - 1 < 0x1_0000 {
      var top: u16 := n - 1;
      BelowSize(s - {top}, n - 1);
      assert |s| <= |s - {top}| + 1 by {
        if top in s { assert s == (s - {top}) + {top}; } else { assert s - {top} == s; }
      }
    } else {
      BelowSize(s, n - 1);
    }
  }

  /** Any two quorum events of real computors share at least 226 of them. */
  lemma {:induction false} QuorumsIntersect(opsA: seq<Op>, opsB: seq<Op>, a: QuorumTick, b: QuorumTick)
    requires opsA != [] && opsB != [] && Emits(opsA) == Some(a) && Emits(opsB) == Some(b)
    requires forall c :: c in a.votedComputors + b.votedComputors ==> c < NUMBER_OF_COMPUTORS
    ensures |Elements(a.votedComputors) * Elements(b.votedComputors)| >= 226
  {
    var x, y := Elements(a.votedComputors), Elements(b.votedComputors);
    EventsAreWellShaped(opsA);
    EventsAreWellShaped(opsB);
    DistinctSize(a.votedComputors);
    DistinctSize(b.votedComputors);
    assert forall c :: c in x + y ==> c in a.votedComputors + b.votedComputors;
    BelowSize(x + y, NUMBER_OF_COMPUTORS);
    assert |x + y| + |x * y| == |x| + |y|;
  }

  // ---------------------------------------------------------------- which events, and which keys survive

  /** An event is emitted exactly when a vote brings the voters of its key from 450 to 451. */
  lemma {:induction false} EmitsIff(ops: seq<Op>)
    requires ops != []
    ensures var init, op := ops[..|ops| - 1], ops[|ops| - 1];
            Emits(ops).Some? <==> op.Vote? && op.computor !in VotersSince(init, op.key) && |VotersSince(init, op.key)| == 450
    ensures Emits(ops).Some? ==> Emits(ops).value.epoch == ops[|ops| - 1].key.epoch && Emits(ops).value.tick == ops[|ops| - 1].key.tick
  {
    var init, op := ops[..|ops| - 1], ops[|ops| - 1];
    if op.Vote? {
      RunPublishes(init);
      RunCollects(init, op.key);
      GrowsByOne(VotesFor(Run(init), op.key), op.computor);
      assert op.key in Run(init).published <==> |VotesFor(Run(init), op.key)| >= QUORUM;
      var s := VotersSince(init, op.key);
      if op.computor in s { assert s + {op.computor} == s; } else { assert |s + {op.computor}| == |s| + 1; }
    }
  }

  /** A prune keeps exactly the ticks that are at most `keep` behind the latest, with their votes. */
  lemma {:induction false} PruneKeepsWindow(a: Aggregator, latest: u32, keep: u32, k: Key)
    ensures var a' := Apply(a, PruneAt(latest, keep));
            && (k in a'.votes <==> k in a.votes && (latest <= keep || latest <= k.tick + keep))
            && (k in a'.votes ==> a'.votes[k] == a.votes[k])
            && (k in a'.published <==> k in a.published && (latest <= keep || latest <= k.tick + keep))
  {
  }

  /** The `i`-th counted vote prunes `k` away: every 10000th does, if its tick is more than 256 ahead. */
  predicate PrunesAway(votes: seq<(Key, u16)>, i: nat, k: Key)
    requires i < |votes|
  {
    (i + 1) % 10_000 == 0 && votes[i].0.tick > k.tick + 256
  }

  /** The vote at `j` is for `k`, and neither it nor a later one prunes `k` away. */
  ghost predicate Survives(votes: seq<(Key, u16)>, j: nat, k: Key) {
    j < |votes| && votes[j].0 == k && forall i :: j <= i < |votes| ==> !PrunesAway(votes, i, k)
  }

  ghost predicate VotedAndSurvived(votes: seq<(Key, u16)>, k: Key, c: u16) {
    exists j :: 0 <= j < |votes| && votes[j].1 == c && Survives(votes, j, k)
  }

  lemma {:induction false} SurvivesInit(votes: seq<(Key, u16)>, j: nat, k: Key)
    requires j + 1 < |votes|
    ensures Survives(votes, j, k) <==> Survives(votes[..|votes| - 1], j, k) && !PrunesAway(votes, |votes| - 1, k)
  {
    var init := votes[..|votes| - 1];
    assert forall i :: 0 <= i < |init| ==> (PrunesAway(init, i, k) <==> PrunesAway(votes, i, k));
  }

  lemma {:induction false} SurvivorsSnoc(votes: seq<(Key, u16)>, k: Key, c: u16)
    requires votes != []
    ensures var n := |votes| - 1;
            VotedAndSurvived(votes, k, c) <==>
            !PrunesAway(votes, n, k) && (VotedAndSurvived(votes[..n], k, c) || (votes[n].0 == k && votes[n].1 == c))
  {
    var n := |votes| - 1;
    if VotedAndSurvived(votes, k, c) {
      var j :| 0 <= j < |votes| && votes[j].1 == c && Survives(votes, j, k);
      assert !PrunesAway(votes, n, k);
      if j < n {
        SurvivesInit(votes, j, k);
        assert votes[..n][j] == votes[j];
      }
    }
    if !PrunesAway(votes, n, k) {
      if VotedAndSurvived(votes[..n], k, c) {
        var j :| 0 <= j < n && votes[..n][j].1 == c && Survives(votes[..n], j, k);
        SurvivesInit(votes, j, k);
        assert votes[j].1 == c;
      } else if votes[n].0 == k && votes[n].1 == c {
        assert Survives(votes, n, k);
      }
    }
  }

  lemma {:induction false} DecoderVotersStep(votes: seq<(Key, u16)>, k: Key)
    requires votes != []
    ensures var n := |votes| - 1;
            VotersSince(DecoderRun(votes), k) ==
            if PrunesAway(votes, n, k) then {}
            else VotersSince(DecoderRun(votes[..n]), k) + if votes[n].0 == k then {votes[n].1} else {}
  {
    var n := |votes| - 1;
    var (key, c) := votes[n];
    var ops, vote, prune := DecoderRun(votes[..n]), Vote(key, c), PruneAt(key.tick, KEEP_TICKS);
    assert (ops + [vote])[..|ops|] == ops;
    if (n + 1) % 10_000 == 0 {
      assert DecoderRun(votes) == ops + [vote] + [prune];
      assert (ops + [vote] + [prune])[..|ops| + 1] == ops + [vote];
    } else {
      assert DecoderRun(votes) == ops + [vote];
    }
  }

  /**
   * After any votes the decoder holds, for each key, exactly the computors that voted for it and were
   * not pruned away since: the votes at or before a 10000th one whose tick is more than 256 ahead.
   * The key is published if and only if these are at least 451.
   */
  lemma {:induction false} DecoderHolds(votes: seq<(Key, u16)>, k: Key)
    ensures forall c: u16 :: c in VotesFor(Run(DecoderRun(votes)), k) <==> VotedAndSurvived(votes, k, c)
    ensures k in Run(DecoderRun(votes)).published <==> |VotesFor(Run(DecoderRun(votes)), k)| >= 451
  {
    RunPublishes(DecoderRun(votes));
    assert k in Run(DecoderRun(votes)).published <==> |VotesFor(Run(DecoderRun(votes)), k)| >= QUORUM;
    RunCollects(DecoderRun(votes), k);
    DecoderVoters(votes, k);
  }

  lemma {:induction false} DecoderVoters(votes: seq<(Key, u16)>, k: Key)
    ensures forall c: u16 :: c in VotersSince(DecoderRun(votes), k) <==> VotedAndSurvived(votes, k, c)
  {
    if votes != [] {
      DecoderVoters(votes[..|votes| - 1], k);
      DecoderVotersStep(votes, k);
      forall c: u16 ensures c in VotersSince(DecoderRun(votes), k) <==> VotedAndSurvived(votes, k, c) { SurvivorsSnoc(votes, k, c); }
    }
  }

  /** The vote a packet of at least 20 bytes carries: computor, epoch and tick, little-endian, in this order. */
  lemma {:induction false} VoteIsRead(computor: u16, epoch: u16, tick: u32, rest: Bytes)
    ensures Pow256(2) == 0x1_0000 && Pow256(4) == 0x1_0000_0000
    ensures ParseVote(LE(computor, 2) + LE(epoch, 2) + LE(tick, 4) + rest) ==
            if |rest| >= 12 then Some((Key(epoch, tick), computor)) else None
  {
    assert Pow256(2) == 0x1_0000 && Pow256(4) == 0x1_0000_0000;
    var payload := LE(computor, 2) + LE(epoch, 2) + LE(tick, 4) + rest;
    if |rest| >= 12 {
      assert payload[0..2] == LE(computor, 2) && payload[2..4] == LE(epoch, 2) && payload[4..8] == LE(tick, 4);
      LEInverse(computor, 2);
      LEInverse(epoch, 2);
      LEInverse(tick, 4);
    }
  }
}
