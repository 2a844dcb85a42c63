/** The tick-vote aggregator: votes per (epoch, tick), quorum events, pruning. */
module Quorum {
  import opened Bytes
  import opened Collections

  const NUMBER_OF_COMPUTORS := 676
  /** Two thirds of the computors, plus one. */
  const QUORUM := 451
  const PRUNE_INTERVAL := 10_000
  const KEEP_TICKS: u32 := 256

  datatype Key = Key(epoch: u16, tick: u32)

  datatype QuorumTick = QuorumTick(epoch: u16, tick: u32, voteCount: u16, votedComputors: seq<u16>)

  datatype Aggregator = Aggregator(votes: map<Key, set<u16>>, published: set<Key>)

  const EMPTY := Aggregator(map[], {})

  // ---------------------------------------------------------------- steps

  function VotesFor(a: Aggregator, k: Key): set<u16> {
    if k in a.votes then a.votes[k] else {}
  }

  /** Whether this vote makes the aggregator publish a quorum event. */
  predicate Publishes(a: Aggregator, k: Key, computor: u16) {
    |VotesFor(a, k) + {computor}| >= QUORUM && k !in a.published
  }

  function RecordVote(a: Aggregator, k: Key, computor: u16): Aggregator {
    Aggregator(
      a.votes[k := VotesFor(a, k) + {computor}],
      if Publishes(a, k, computor) then a.published + {k} else a.published)
  }

  function VoteEvent(a: Aggregator, k: Key, computor: u16): Option<QuorumTick> {
    var voted := VotesFor(a, k) + {computor};
    if Publishes(a, k, computor) then Some(QuorumTick(k.epoch, k.tick, |voted| % 0x1_0000, SortedList(voted))) else None
  }

  /** Whether pruning at `latest` drops the tick. */
  predicate Drops(latest: u32, keep: u32, k: Key) {
    latest > keep && k.tick < latest - keep
  }

  function Prune(a: Aggregator, latest: u32, keep: u32): Aggregator {
    Aggregator(
      map k | k in a.votes && !Drops(latest, keep, k) :: a.votes[k],
      set k | k in a.published && !Drops(latest, keep, k))
  }

  datatype Op = Vote(key: Key, computor: u16) | PruneAt(latest: u32, keep: u32)

  function Apply(a: Aggregator, op: Op): Aggregator {
    match op
    case Vote(k, c) => RecordVote(a, k, c)
    case PruneAt(latest, keep) => Prune(a, latest, keep)
  }

  /** Any votes and prunes in any order. */
  function Run(ops: seq<Op>): Aggregator {
    if ops == [] then EMPTY else Apply(Run(ops[..|ops| - 1]), ops[|ops| - 1])
  }

  lemma {:induction false} RunSnoc(ops: seq<Op>, op: Op)
    ensures Run(ops + [op]) == Apply(Run(ops), op)
  {
    assert (ops + [op])[..|ops|] == ops;
  }

  /** The event the last operation of a run emits. */
  function Emits(ops: seq<Op>): Option<QuorumTick>
    requires ops != []
  {
    match ops[|ops| - 1]
    case Vote(k, c) => VoteEvent(Run(ops[..|ops| - 1]), k, c)
    case PruneAt(_, _) => None
  }

  // ---------------------------------------------------------------- the objects

  class TickVoteAggregator {
    var votes: map<Key, set<u16>>
    var quorumPublished: set<Key>

    function View(): Aggregator
      reads this
    {
      Aggregator(votes, quorumPublished)
    }

    constructor ()
      ensures View() == EMPTY
    {
      votes, quorumPublished := map[], {};
    }

    method RecordVote(epoch: u16, tick: u32, computor: u16) returns (event: Option<QuorumTick>)
      modifies this
      ensures View() == Apply(old(View()), Vote(Key(epoch, tick), computor))
      ensures event == VoteEvent(old(View()), Key(epoch, tick), computor)
    {
      var key := Key(epoch, tick);
      var voted := (if key in votes then votes[key] else {}) + {computor};
      votes := votes[key := voted];
      if |voted| >= QUORUM && key !in quorumPublished {
        quorumPublished := quorumPublished + {key};
        event := Some(QuorumTick(epoch, tick, |voted| % 0x1_0000, SortedList(voted)));
      } else {
        event := None;
      }
    }

    method Prune(latest: u32, keep: u32)
      modifies this
      ensures View() == Apply(old(View()), PruneAt(latest, keep))
    {
      if latest > keep {
        var cutoff := latest - keep;
        votes := map k | k in votes && k.tick >= cutoff :: votes[k];
        quorumPublished := set k | k in quorumPublished && k.tick >= cutoff;
      } else {
        assert votes == map k | k in votes && !Drops(latest, keep, k) :: votes[k];
        assert quorumPublished == set k | k in quorumPublished && !Drops(latest, keep, k);
      }
    }
  }

  /** The operations one counted vote causes: the vote, and every 10000th time a prune. */
  function VoteOps(count: nat, k: Key, computor: u16): seq<Op> {
    [Vote(k, computor)] + if (count + 1) % PRUNE_INTERVAL == 0 then [PruneAt(k.tick, KEEP_TICKS)] else []
  }

  /** The operations of a decoder that has counted these votes, one after the other. */
  function DecoderRun(votes: seq<(Key, u16)>): seq<Op> {
    if votes == [] then []
    else
      var n := |votes| - 1;
      DecoderRun(votes[..n]) + VoteOps(n, votes[n].0, votes[n].1)
  }

  lemma {:induction false} DecoderSnoc(votes: seq<(Key, u16)>, key: Key, computor: u16)
    ensures DecoderRun(votes + [(key, computor)]) == DecoderRun(votes) + VoteOps(|votes|, key, computor)
  {
    assert (votes + [(key, computor)])[..|votes|] == votes;
  }

  /** The vote a packet carries; one that is too short carries none. */
  function ParseVote(payload: Bytes): Option<(Key, u16)> {
    if |payload| < 20 then None else Some((Key(U16At(payload, 2), U32At(payload, 4)), U16At(payload, 0)))
  }

  function U16At(payload: Bytes, i: nat): u16
    requires i + 2 <= |payload|
  {
    ValueLEInverse(payload[i..i + 2]);
    assert Pow256(2) == 0x1_0000;
    ValueLE(payload[i..i + 2])
  }

  function U32At(payload: Bytes, i: nat): u32
    requires i + 4 <= |payload|
  {
    ValueLEInverse(payload[i..i + 4]);
    assert Pow256(4) == 0x1_0000_0000;
    ValueLE(payload[i..i + 4])
  }

  class PacketDecoder {
    const aggregator: TickVoteAggregator
    var voteCount: nat
    ghost var votes: seq<(Key, u16)>

    /** The aggregator is in the state that the votes counted so far lead to. */
    ghost predicate Valid()
      reads this, aggregator
    {
      voteCount == |votes| && aggregator.View() == Run(DecoderRun(votes))
    }

    constructor ()
      ensures Valid() && fresh(aggregator) && votes == []
    {
      aggregator := new TickVoteAggregator();
      voteCount := 0;
      votes := [];
    }

    method CountVote(key: Key, computor: u16) returns (event: Option<QuorumTick>)
      requires Valid()
      modifies this, aggregator
      ensures Valid() && votes == old(votes) + [(key, computor)]
      ensures event == Emits(DecoderRun(old(votes)) + [Vote(key, computor)])
    {
      ghost var ops := DecoderRun(votes);
      EmitsSnoc(ops, key, computor);
      event := aggregator.RecordVote(key.epoch, key.tick, computor);
      RunSnoc(ops, Vote(key, computor));
      DecoderSnoc(votes, key, computor);
      votes := votes + [(key, computor)];
      voteCount := voteCount + 1;
      if voteCount % PRUNE_INTERVAL == 0 {
        RunSnoc(ops + [Vote(key, computor)], PruneAt(key.tick, KEEP_TICKS));
        aggregator.Prune(key.tick, KEEP_TICKS);
        assert DecoderRun(votes) == ops + [Vote(key, computor)] + [PruneAt(key.tick, KEEP_TICKS)];
      } else {
        assert DecoderRun(votes) == ops + [Vote(key, computor)];
      }
    }

    /** A vote packet; one that is too short is ignored. */
    method DecodeTickVote(payload: Bytes) returns (event: Option<QuorumTick>)
      requires Valid()
      modifies this, aggregator
      ensures Valid()
      ensures match ParseVote(payload)
              case None => votes == old(votes) && event == None
              case Some((key, computor)) =>
                votes == old(votes) + [(key, computor)] && event == Emits(DecoderRun(old(votes)) + [Vote(key, computor)])
    {
      var vote := ParseVote(payload);
      if vote.None? {
        return None;
      }
      event := CountVote(vote.value.0, vote.value.1);
    }
  }

  lemma {:induction false} EmitsSnoc(ops: seq<Op>, k: Key, c: u16)
    ensures Emits(ops + [Vote(k, c)]) == VoteEvent(Run(ops), k, c)
  {
    assert (ops + [Vote(k, c)])[..|ops|] == ops;
  }
}
