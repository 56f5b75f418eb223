/** What fork resolution keeps and where repeated resolution ends (chain/fork.go). */
module ForkTheorems {
  import opened Records
  import opened Chains
  import opened ChainTheorems
  import opened Forks
  import opened Ledgers
  import Merkle

  // ---------- the merged pool ----------

  /** p is obtained from q by leaving elements out. */
  predicate IsSubsequence(p: seq<Transaction>, q: seq<Transaction>) {
    if p == [] then true
    else if q == [] then false
    else
      || (p[|p| - 1] == q[|q| - 1] && IsSubsequence(p[..|p| - 1], q[..|q| - 1]))
      || IsSubsequence(p, q[..|q| - 1])
  }

  ghost predicate DistinctIdentifiers(lib: Library, txs: seq<Transaction>) {
    forall i, j :: 0 <= i < j < |txs| ==> Merkle.TransactionHash(lib, txs[i]) != Merkle.TransactionHash(lib, txs[j])
  }

  ghost predicate AllSeen(lib: Library, m: Merge) {
    forall tx :: tx in m.chain.pending ==> Merkle.TransactionHash(lib, tx) in m.seen
  }

  /** The merged pool is a duplicate-free, order-preserving selection of the transactions offered that
    replays on the target's blocks; kept and dropped account for all of them. */
  lemma {:induction false} MergedPoolIsSound(lib: Library, target: ChainState, txs: seq<Transaction>)
    requires target.pending == [] && Replays(lib, AllTransactions(target.blocks))
    ensures var m := MergeAll(lib, target, txs);
            && m.chain == target.(pending := m.chain.pending)
            && Replays(lib, m.chain.History())
            && IsSubsequence(m.chain.pending, txs)
            && DistinctIdentifiers(lib, m.chain.pending)
            && AllSeen(lib, m)
            && m.kept == |m.chain.pending|
            && m.kept + m.dropped == |txs|
    decreases |txs|
  {
    hide Merkle.TransactionHash, Replays, AllTransactions;
    if txs == [] {
      assert target.History() == AllTransactions(target.blocks);
    } else {
      var n := |txs| - 1;
      var before := MergeAll(lib, target, txs[..n]);
      MergedPoolIsSound(lib, target, txs[..n]);
      MergeOneSound(lib, before, txs[n]);
      var m := MergeAll(lib, target, txs);
      if m.chain != before.chain {
        assert m.chain.pending[..|m.chain.pending| - 1] == before.chain.pending;
      }
    }
  }

  lemma MergeOneSound(lib: Library, m: Merge, tx: Transaction)
    requires Replays(lib, m.chain.History()) && DistinctIdentifiers(lib, m.chain.pending) && AllSeen(lib, m)
    ensures var m' := MergeOne(lib, m, tx);
            Replays(lib, m'.chain.History()) && DistinctIdentifiers(lib, m'.chain.pending) && AllSeen(lib, m')
  {
    hide Merkle.TransactionHash, Replays, AllTransactions;
    var m' := MergeOne(lib, m, tx);
    if m'.chain != m.chain {
      assert m'.chain.History() == m.chain.History() + [tx];
      assert forall i :: 0 <= i < |m.chain.pending| ==> m.chain.pending[i] in m.chain.pending;
    }
  }

  lemma {:induction false} MergeGrows(lib: Library, target: ChainState, a: seq<Transaction>, b: seq<Transaction>)
    ensures MergeAll(lib, target, a).chain.pending <= MergeAll(lib, target, a + b).chain.pending
    decreases |b|
  {
    hide Merkle.TransactionHash, Replays;
    if b == [] {
      assert a + b == a;
    } else {
      MergeGrows(lib, target, a, b[..|b| - 1]);
      assert (a + b)[..|a + b| - 1] == a + b[..|b| - 1];
    }
  }

  /** A pool that replays and holds no duplicates is kept whole. */
  lemma {:induction false} CleanPoolKept(lib: Library, target: ChainState, txs: seq<Transaction>)
    requires target.pending == [] && Replays(lib, AllTransactions(target.blocks) + txs)
    requires DistinctIdentifiers(lib, txs)
    ensures MergeAll(lib, target, txs).chain.pending == txs
    ensures forall id :: id in MergeAll(lib, target, txs).seen ==>
              exists tx :: tx in txs && Merkle.TransactionHash(lib, tx) == id
    decreases |txs|
  {
    hide Merkle.TransactionHash, Replays, AllTransactions;
    if txs != [] {
      var n := |txs| - 1;
      var history := AllTransactions(target.blocks);
      assert txs == txs[..n] + [txs[n]];
      assert history + txs == history + txs[..n] + [txs[n]];
      ReplayPrefix(lib, history + txs[..n], [txs[n]]);
      CleanPoolKept(lib, target, txs[..n]);
      MergeKeepsBlocks(lib, target, txs[..n]);
      var before := MergeAll(lib, target, txs[..n]);
      assert Merkle.TransactionHash(lib, txs[n]) !in before.seen;
      forall id | id in before.seen + {Merkle.TransactionHash(lib, txs[n])}
        ensures exists tx :: tx in txs && Merkle.TransactionHash(lib, tx) == id
      {
        if id in before.seen {
          var tx :| tx in txs[..n] && Merkle.TransactionHash(lib, tx) == id;
          assert tx in txs;
        } else {
          assert txs[n] in txs;
        }
      }
    }
  }

  /** So a candidate's own clean pool survives whole, at the front of the new one. */
  lemma CandidatePoolSurvives(lib: Library, c: ChainState, candidate: ChainState)
    requires Refusal(lib, c, candidate).None?
    requires Replays(lib, candidate.History()) && DistinctIdentifiers(lib, candidate.pending)
    ensures candidate.pending <= AfterFork(lib, c, candidate).pending
  {
    hide Merkle.TransactionHash, Replays, AllTransactions, ValidChain, MergeOne;
    CleanPoolKept(lib, candidate.(pending := []), candidate.pending);
    MergeGrows(lib, candidate.(pending := []), candidate.pending, c.pending);
  }

  // ---------- what an adoption keeps ----------

  lemma {:induction false} DistinctMultiplicity(rules: seq<DifficultyRule>, r: DifficultyRule)
    requires DistinctHeights(rules)
    ensures multiset(rules)[r] <= 1
  {
    if rules != [] {
      var n := |rules| - 1;
      assert rules == rules[..n] + [rules[n]];
      DistinctMultiplicity(rules[..n], r);
      if rules[n] == r {
        assert r !in rules[..n];
      }
    }
  }

  lemma TwiceInMultiset(rules: seq<DifficultyRule>, i: nat, j: nat)
    requires i < j < |rules| && rules[i] == rules[j]
    ensures multiset(rules)[rules[i]] >= 2
  {
    assert rules == rules[..j] + [rules[j]] + rules[j + 1..];
    assert rules[i] in rules[..j];
    assert multiset(rules[..j])[rules[i]] >= 1;
  }

  /** A permutation of rules with distinct heights has distinct heights. */
  lemma PermutedDistinct(a: seq<DifficultyRule>, b: seq<DifficultyRule>)
    requires DistinctHeights(a) && multiset(a) == multiset(b)
    ensures DistinctHeights(b)
    ensures forall r: DifficultyRule :: r in b <==> r in a
  {
    forall r: DifficultyRule ensures r in b <==> r in a {
      assert r in b <==> r in multiset(b);
      assert r in a <==> r in multiset(a);
    }
    forall i, j | 0 <= i < j < |b| ensures b[i].startHeight != b[j].startHeight {
      DistinctIsConsistent(a);
      assert b[i] in a && b[j] in a;
      if b[i] == b[j] {
        TwiceInMultiset(b, i, j);
        DistinctMultiplicity(a, b[i]);
      }
    }
  }

  lemma PolicyCarriesOver(lib: Library, c: ChainState, candidate: ChainState)
    requires SoundPolicy(c) && SamePolicy(lib, c, candidate)
    ensures SoundPolicy(candidate)
  {
    assert multiset(lib.sortRules(c.schedule)) == multiset(c.schedule);
    assert multiset(lib.sortRules(candidate.schedule)) == multiset(candidate.schedule);
    PermutedDistinct(c.schedule, candidate.schedule);
    var base: DifficultyRule :| base in c.schedule && base.startHeight == 0;
    assert base in candidate.schedule;
  }

  /** Whatever chain is offered, the invariant survives; a rejection changes nothing, and an adoption
    takes the candidate's blocks and strictly more work. */
  lemma ResolveForkKeeps(lib: Library, c: ChainState, candidate: ChainState)
    requires ChainInv(lib, c)
    ensures ChainInv(lib, AfterFork(lib, c, candidate))
    ensures Refusal(lib, c, candidate).Some? ==> AfterFork(lib, c, candidate) == c
    ensures Refusal(lib, c, candidate).None? ==>
              && AfterFork(lib, c, candidate).blocks == candidate.blocks
              && WorkOf(AfterFork(lib, c, candidate).blocks) > WorkOf(c.blocks)
  {
    hide BlockOk, Replays, AllTransactions, WorkOf, SoundPolicy, SamePolicy, IsSubsequence, DistinctIdentifiers;
    if Refusal(lib, c, candidate).None? {
      var after := AfterFork(lib, c, candidate);
      MergedPoolIsSound(lib, candidate.(pending := []), candidate.pending + c.pending);
      ValidFramed(lib, candidate, after);
      PolicyCarriesOver(lib, c, after) by { SamePolicyFramed(lib, c, candidate, after); }
    }
  }

  lemma SamePolicyFramed(lib: Library, c: ChainState, candidate: ChainState, after: ChainState)
    requires SamePolicy(lib, c, candidate)
    requires after == candidate.(pending := after.pending)
    ensures SamePolicy(lib, c, after)
  {}

  // ---------- convergence ----------

  /** A candidate of the same network: it validates, shares genesis and uses the same policy. */
  ghost predicate Eligible(lib: Library, c: ChainState, candidate: ChainState) {
    && c.blocks != []
    && ValidChain(lib, candidate)
    && c.blocks[0].hash == candidate.blocks[0].hash
    && SamePolicy(lib, c, candidate)
  }

  /** Offering the candidates one after another. */
  ghost function AfterForks(lib: Library, c: ChainState, candidates: seq<ChainState>): ChainState
    decreases |candidates|
  {
    if candidates == [] then c else AfterForks(lib, AfterFork(lib, c, candidates[0]), candidates[1..])
  }

  lemma OneFork(lib: Library, c: ChainState, x: ChainState)
    requires ValidChain(lib, c)
    ensures var after := AfterFork(lib, c, x);
            && ValidChain(lib, after)
            && after.blocks[0].hash == c.blocks[0].hash
            && SamePolicy(lib, c, after)
            && (forall y :: Eligible(lib, after, y) <==> Eligible(lib, c, y))
            && after.blocks
               == (if Eligible(lib, c, x) && WorkOf(x.blocks) > WorkOf(c.blocks) then x.blocks else c.blocks)
  {
    hide BlockOk, Replays, AllTransactions, WorkOf, IsSubsequence, DistinctIdentifiers;
    if Refusal(lib, c, x).None? {
      MergeKeepsBlocks(lib, x.(pending := []), x.pending + c.pending);
      ValidFramed(lib, x, AfterFork(lib, c, x));
    }
  }

  /** The end of any list of candidates, eligible or not: the greatest work among the start and the
    eligible candidates, held by the blocks of one of them. */
  lemma {:induction false} ForksEndAtMaximum(lib: Library, c: ChainState, candidates: seq<ChainState>)
    requires ValidChain(lib, c)
    ensures var final := AfterForks(lib, c, candidates);
            && ValidChain(lib, final)
            && WorkOf(c.blocks) <= WorkOf(final.blocks)
            && (forall x :: x in candidates && Eligible(lib, c, x) ==> WorkOf(x.blocks) <= WorkOf(final.blocks))
            && (|| final.blocks == c.blocks
                || exists x :: x in candidates && Eligible(lib, c, x) && final.blocks == x.blocks)
    decreases |candidates|
  {
    hide ValidChain, Eligible, AfterFork, WorkOf;
    if candidates != [] {
      var x, rest := candidates[0], candidates[1..];
      var after := AfterFork(lib, c, x);
      OneFork(lib, c, x);
      ForksEndAtMaximum(lib, after, rest);
      assert candidates == [x] + rest;
      var final := AfterForks(lib, after, rest);
      if final.blocks != after.blocks {
        var y :| y in rest && Eligible(lib, after, y) && final.blocks == y.blocks;
        assert y in candidates && Eligible(lib, c, y);
      } else if final.blocks != c.blocks {
        assert x in candidates && Eligible(lib, c, x) && final.blocks == x.blocks;
      }
    }
  }

  /** b is the only block list of maximum work among the start and the eligible candidates. */
  ghost predicate UniqueMaximum(lib: Library, c: ChainState, candidates: seq<ChainState>, b: seq<Block>) {
    && (WorkOf(c.blocks) >= WorkOf(b) ==> c.blocks == b)
    && (forall x :: x in candidates && Eligible(lib, c, x) && WorkOf(x.blocks) >= WorkOf(b) ==> x.blocks == b)
    && (c.blocks == b || exists x :: x in candidates && Eligible(lib, c, x) && x.blocks == b)
  }

  /** When that block list is unique, every order of the candidates ends with it. */
  lemma ForksConverge(lib: Library, c: ChainState, one: seq<ChainState>, other: seq<ChainState>, b: seq<Block>)
    requires ValidChain(lib, c)
    requires forall x :: x in one <==> x in other
    requires UniqueMaximum(lib, c, one, b)
    ensures AfterForks(lib, c, one).blocks == b
    ensures AfterForks(lib, c, other).blocks == b
  {
    hide Eligible, WorkOf, AfterForks, BlockOk, Replays;
    ForksEndAtMaximum(lib, c, one);
    ForksEndAtMaximum(lib, c, other);
    assert WorkOf(AfterForks(lib, c, one).blocks) >= WorkOf(b);
    assert WorkOf(AfterForks(lib, c, other).blocks) >= WorkOf(b);
  }
}
