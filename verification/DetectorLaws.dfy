/** The aggregator and the indexer's stored vote count detect the same quorums. */
module DetectorLaws {
  import opened Bytes
  import opened Collections
  import opened OrderedKeys
  import W = WarmStorage
  import I = Indexer
  import L = IndexerLaws
  import Q = Quorum
  import QL = QuorumLaws

  // ---------------------------------------------------------------- the stored votes

  /** The computors whose votes for a tick the indexer has stored. */
  function StoredVoters(events: seq<I.Event>, t: u32): set<u16> {
    set e | e in events && e.VoteEvent? && e.tick == t :: e.computor
  }

  function VoteKeys(t: u32, voters: set<u16>): set<Bytes> {
    set c | c in voters :: W.VoteKey(t, c)
  }

  lemma {:induction false} VoteKeyIsInjective(t: u32, c: u16, u: u32, d: u16)
    requires W.VoteKey(t, c) == W.VoteKey(u, d)
    ensures t == u && c == d
  {
    assert W.VoteKey(t, c)[..4] == BE(t, 4) && W.VoteKey(t, c)[4..] == BE(c, 2);
    assert W.VoteKey(u, d)[..4] == BE(u, 4) && W.VoteKey(u, d)[4..] == BE(d, 2);
    assert Pow256(2) == 0x1_0000 && Pow256(4) == 0x1_0000_0000;
    BEInverse(t, 4); BEInverse(u, 4); BEInverse(c, 2); BEInverse(d, 2);
  }

  lemma {:induction false} VoteKeyUnder(t: u32, u: u32, d: u16)
    ensures W.TickKey(t) <= W.VoteKey(u, d) <==> t == u
  {
    assert W.VoteKey(u, d)[..4] == BE(u, 4);
    if W.TickKey(t) <= W.VoteKey(u, d) {
      assert BE(t, 4) == BE(u, 4);
      BEInverse(t, 4); BEInverse(u, 4);
    }
  }

  lemma {:induction false} VoteKeysSize(t: u32, voters: set<u16>)
    ensures |VoteKeys(t, voters)| == |voters|
  {
    if voters != {} {
      var c :| c in voters;
      var rest := voters - {c};
      VoteKeysSize(t, rest);
      assert VoteKeys(t, voters) == VoteKeys(t, rest) + {W.VoteKey(t, c)};
      assert W.VoteKey(t, c) !in VoteKeys(t, rest) by {
        forall d | d in rest ensures W.VoteKey(t, d) != W.VoteKey(t, c) {
          if W.VoteKey(t, d) == W.VoteKey(t, c) { VoteKeyIsInjective(t, d, t, c); }
        }
      }
    }
  }

  /** Exactly the votes that arrived are stored, under the tick they were cast for. */
  lemma {:induction false} StoredVotes(events: seq<I.Event>, t: u32)
    ensures forall k :: k in I.Run(events).db.tickVote && W.TickKey(t) <= k <==> k in VoteKeys(t, StoredVoters(events, t))
  {
    if events != [] {
      var init, e := L.Init(events), L.Last(events);
      StoredVotes(init, t);
      L.StepFrame(I.Run(init), e);
      VotersSnoc(events, t);
      if e.VoteEvent? {
        VoteKeyUnder(t, e.tick, e.computor);
        assert I.Run(events).db.tickVote == I.Run(init).db.tickVote[W.VoteKey(e.tick, e.computor) := e.payload];
      }
    }
  }

  lemma {:induction false} VotersSnoc(events: seq<I.Event>, t: u32)
    requires events != []
    ensures var init, e := L.Init(events), L.Last(events);
            var more := if e.VoteEvent? && e.tick == t then {e.computor} else {};
            && StoredVoters(events, t) == StoredVoters(init, t) + more
            && VoteKeys(t, StoredVoters(events, t)) == VoteKeys(t, StoredVoters(init, t)) + (set c | c in more :: W.VoteKey(t, c))
  {
    assert events == L.Init(events) + [L.Last(events)];
  }

  /** `count_votes_for_tick` is the number of distinct computors that voted for the tick. */
  lemma {:induction false} StoredCount(events: seq<I.Event>, t: u32)
    ensures |W.PrefixKeys(I.Run(events).db.tickVote, W.TickKey(t))| == |StoredVoters(events, t)|
  {
    var cf := I.Run(events).db.tickVote;
    var keys := W.PrefixKeys(cf, W.TickKey(t));
    W.PrefixKeysSpec(cf, W.TickKey(t));
    SortedSize(keys);
    StoredVotes(events, t);
    VoteKeysSize(t, StoredVoters(events, t));
    assert (set k | k in keys) == VoteKeys(t, StoredVoters(events, t));
  }

  // ---------------------------------------------------------------- the aggregated votes

  /** The computors that voted for a tick, under any epoch. */
  function CastForTick(ops: seq<Q.Op>, t: u32): set<u16> {
    set op | op in ops && op.Vote? && op.key.tick == t :: op.computor
  }

  lemma {:induction false} CastSnoc(ops: seq<Q.Op>, t: u32)
    requires ops != []
    ensures var init, op := ops[..|ops| - 1], ops[|ops| - 1];
            CastForTick(ops, t) == CastForTick(init, t) + if op.Vote? && op.key.tick == t then {op.computor} else {}
  {
    assert ops == ops[..|ops| - 1] + [ops[|ops| - 1]];
  }

  lemma {:induction false} VotersWereCast(ops: seq<Q.Op>, k: Q.Key)
    ensures QL.VotersSince(ops, k) <= CastForTick(ops, k.tick)
  {
    if ops != [] {
      VotersWereCast(ops[..|ops| - 1], k);
      CastSnoc(ops, k.tick);
    }
  }

  /**
   * However the votes reached the indexer — reordered, repeated, with other events between — and
   * whatever was pruned: on the same votes the stored count is never below the aggregator's, and a
   * key is published only if its tick has a stored quorum. The counts are equal exactly when every
   * computor that voted for the tick, under any epoch, voted under this key since it was last dropped.
   */
  lemma {:induction false} DetectorsAgree(ops: seq<Q.Op>, events: seq<I.Event>, k: Q.Key)
    requires StoredVoters(events, k.tick) == CastForTick(ops, k.tick)
    ensures var stored, counted := |W.PrefixKeys(I.Run(events).db.tickVote, W.TickKey(k.tick))|, |Q.VotesFor(Q.Run(ops), k)|;
            && counted <= stored
            && (counted == stored <==> CastForTick(ops, k.tick) <= QL.VotersSince(ops, k))
            && (k in Q.Run(ops).published ==> stored >= Q.QUORUM)
            && (counted == stored ==> (k in Q.Run(ops).published <==> stored >= Q.QUORUM))
  {
    StoredCount(events, k.tick);
    QL.RunCollects(ops, k);
    VotersWereCast(ops, k);
    SubsetSize(QL.VotersSince(ops, k), CastForTick(ops, k.tick));
    QL.RunPublishes(ops);
    assert k in Q.Run(ops).published <==> |Q.VotesFor(Q.Run(ops), k)| >= Q.QUORUM;
  }

  // ---------------------------------------------------------------- when they agree, and when not

  ghost predicate NeverDropped(ops: seq<Q.Op>, k: Q.Key) {
    forall i :: 0 <= i < |ops| && ops[i].PruneAt? ==> !Q.Drops(ops[i].latest, ops[i].keep, k)
  }

  /** Every vote cast for the tick carries the epoch of `k`. */
  ghost predicate OneEpoch(ops: seq<Q.Op>, k: Q.Key) {
    forall i :: 0 <= i < |ops| && ops[i].Vote? && ops[i].key.tick == k.tick ==> ops[i].key == k
  }

  lemma {:induction false} AllVotersCounted(ops: seq<Q.Op>, k: Q.Key)
    requires NeverDropped(ops, k) && OneEpoch(ops, k)
    ensures CastForTick(ops, k.tick) <= QL.VotersSince(ops, k)
  {
    if ops != [] {
      var init, op := ops[..|ops| - 1], ops[|ops| - 1];
      assert forall i :: 0 <= i < |init| ==> init[i] == ops[i];
      assert op == ops[|ops| - 1];
      AllVotersCounted(init, k);
      CastSnoc(ops, k.tick);
    }
  }

  /** With one epoch per tick and no drop of the key, both detectors see the quorum on the same vote sets. */
  lemma {:induction false} OneEpochAgrees(ops: seq<Q.Op>, events: seq<I.Event>, k: Q.Key)
    requires StoredVoters(events, k.tick) == CastForTick(ops, k.tick)
    requires NeverDropped(ops, k) && OneEpoch(ops, k)
    ensures var stored := |W.PrefixKeys(I.Run(events).db.tickVote, W.TickKey(k.tick))|;
            |Q.VotesFor(Q.Run(ops), k)| == stored && (k in Q.Run(ops).published <==> stored >= Q.QUORUM)
  {
    AllVotersCounted(ops, k);
    DetectorsAgree(ops, events, k);
  }

  /** Computors 7 and 8 vote for tick 5 under two epochs: two votes are stored, each key counts one. */
  lemma {:induction false} TwoEpochsDisagree(payload: Bytes)
    ensures var ops := [Q.Vote(Q.Key(1, 5), 7), Q.Vote(Q.Key(2, 5), 8)];
            var events := [I.VoteEvent(5, 7, payload), I.VoteEvent(5, 8, payload)];
            && StoredVoters(events, 5) == CastForTick(ops, 5)
            && |Q.VotesFor(Q.Run(ops), Q.Key(1, 5))| == 1
            && |W.PrefixKeys(I.Run(events).db.tickVote, W.TickKey(5))| == 2
  {
    TwoVotersCounted();
    TwoVotersStored(payload);
  }

  lemma {:induction false} TwoVotersCounted()
    ensures var ops := [Q.Vote(Q.Key(1, 5), 7), Q.Vote(Q.Key(2, 5), 8)];
            CastForTick(ops, 5) == {7, 8} && |Q.VotesFor(Q.Run(ops), Q.Key(1, 5))| == 1
  {
    var a, b := Q.Vote(Q.Key(1, 5), 7), Q.Vote(Q.Key(2, 5), 8);
    OnlyVoter(a, b);
    assert a in [a, b] && b in [a, b];
    assert CastForTick([a, b], 5) == {7, 8};
  }

  lemma {:induction false} OnlyVoter(a: Q.Op, b: Q.Op)
    requires a.Vote? && b.Vote? && a.key != b.key
    ensures Q.VotesFor(Q.Run([a, b]), a.key) == {a.computor}
  {
    QL.RunCollects([a, b], a.key);
    assert [a, b][..1] == [a] && [a][..0] == [];
    assert QL.VotersSince([], a.key) == {};
    assert QL.VotersSince([a], a.key) == {} + {a.computor};
  }

  lemma {:induction false} TwoVotersStored(payload: Bytes)
    ensures var events := [I.VoteEvent(5, 7, payload), I.VoteEvent(5, 8, payload)];
            StoredVoters(events, 5) == {7, 8} && |W.PrefixKeys(I.Run(events).db.tickVote, W.TickKey(5))| == 2
  {
    var events := [I.VoteEvent(5, 7, payload), I.VoteEvent(5, 8, payload)];
    assert events[0] in events && events[1] in events;
    assert StoredVoters(events, 5) == {7, 8};
    StoredCount(events, 5);
  }

  /** One vote for tick 5, then a prune that drops it: it stays stored and is no longer counted. */
  lemma {:induction false} PruneDisagrees(payload: Bytes)
    ensures var ops := [Q.Vote(Q.Key(1, 5), 7), Q.PruneAt(1000, 256)];
            var events := [I.VoteEvent(5, 7, payload)];
            && StoredVoters(events, 5) == CastForTick(ops, 5)
            && |Q.VotesFor(Q.Run(ops), Q.Key(1, 5))| == 0
            && |W.PrefixKeys(I.Run(events).db.tickVote, W.TickKey(5))| == 1
  {
    var ops := [Q.Vote(Q.Key(1, 5), 7), Q.PruneAt(1000, 256)];
    var events := [I.VoteEvent(5, 7, payload)];
    QL.RunCollects(ops, Q.Key(1, 5));
    assert QL.VotersSince(ops, Q.Key(1, 5)) == {};
    assert events[0] in events && ops[0] in ops;
    assert StoredVoters(events, 5) == {7};
    assert CastForTick(ops, 5) == {7};
    StoredCount(events, 5);
  }

  // ---------------------------------------------------------------- what is stored

  /** The payload of the last vote of a computor for a tick. */
  function VotePayload(events: seq<I.Event>, t: u32, c: u16): Option<Bytes> {
    if events == [] then None
    else
      var e := L.Last(events);
      if e.VoteEvent? && e.tick == t && e.computor == c then Some(e.payload) else VotePayload(L.Init(events), t, c)
  }

  /** Each computor's last vote for a tick is stored under its key. */
  lemma {:induction false} VotesAreStored(events: seq<I.Event>, t: u32, c: u16)
    ensures var cf := I.Run(events).db.tickVote;
            match VotePayload(events, t, c)
            case None => W.VoteKey(t, c) !in cf
            case Some(payload) => W.VoteKey(t, c) in cf && cf[W.VoteKey(t, c)] == payload
  {
    if events != [] {
      var e := L.Last(events);
      VotesAreStored(L.Init(events), t, c);
      L.StepFrame(I.Run(L.Init(events)), e);
      if e.VoteEvent? && W.VoteKey(e.tick, e.computor) == W.VoteKey(t, c) { VoteKeyIsInjective(e.tick, e.computor, t, c); }
    }
  }
}
