/** What work is and how it decides forks (chain/fork.go). */
module WorkTheorems {
  import opened Records
  import opened ChainTheorems
  import opened Chains
  import opened ForkTheorems
  import opened Forks
  import opened Integers
  import opened Ledgers

  // ---------- the work of a block ----------

  lemma {:induction false} PowerSum(base: nat, a: nat, b: nat)
    ensures Power(base, a) * Power(base, b) == Power(base, a + b)
  {
    if a == 0 {
      assert Power(base, 0) == 1;
    } else {
      PowerSum(base, a - 1, b);
      var x, y := Power(base, a - 1), Power(base, b);
      assert (base * x) * y == base * (x * y);
    }
  }

  lemma {:induction false} SixteenIsFourTwos(k: nat)
    ensures Power(16, k) == Power(2, 4 * k)
  {
    if k > 0 {
      SixteenIsFourTwos(k - 1);
      FourMore(4 * (k - 1));
    }
  }

  lemma FourMore(m: nat)
    ensures Power(2, m + 4) == 16 * Power(2, m)
  {
    assert Power(2, m + 1) == 2 * Power(2, m);
    assert Power(2, m + 2) == 2 * Power(2, m + 1);
    assert Power(2, m + 3) == 2 * Power(2, m + 2);
  }

  /** The work of a block is the number of digests for each one small enough: of 2^256 digests, those
    below 16^(64 - d) meet difficulty d. */
  lemma WorkTimesThreshold(b: Block)
    requires 0 <= b.difficulty <= 64
    ensures BlockWork(b) * Power(16, 64 - b.difficulty) == Power(2, 256)
  {
    PowerSum(16, b.difficulty, 64 - b.difficulty);
    SixteenIsFourTwos(64);
  }

  /** One step of difficulty is a factor of sixteen. */
  lemma OneStepHarder(easy: Block, hard: Block)
    requires 0 <= easy.difficulty && hard.difficulty == easy.difficulty + 1
    ensures BlockWork(hard) == 16 * BlockWork(easy)
  {}

  // ---------- the work of a chain ----------

  function Difficulties(blocks: seq<Block>): (ds: seq<int>)
    ensures |ds| == |blocks|
  {
    seq(|blocks|, i requires 0 <= i < |blocks| => blocks[i].difficulty)
  }

  /** The sum of 16^d over a list of difficulties, none for a negative one. */
  function WorkOfDifficulties(ds: seq<int>): nat {
    if ds == [] then 0 else (if ds[0] < 0 then 0 else Power(16, ds[0])) + WorkOfDifficulties(ds[1..])
  }

  lemma {:induction false} WorkAdds(a: seq<Block>, b: seq<Block>)
    ensures WorkOf(a + b) == WorkOf(a) + WorkOf(b)
    decreases |b|
  {
    if b == [] {
      assert a + b == a;
    } else {
      WorkAdds(a, b[..|b| - 1]);
      assert (a + b)[..|a + b| - 1] == a + b[..|b| - 1];
    }
  }

  lemma {:induction false} WorkIsSum(blocks: seq<Block>)
    ensures WorkOf(blocks) == WorkOfDifficulties(Difficulties(blocks))
  {
    if blocks != [] {
      hide Power;
      WorkIsSum(blocks[1..]);
      assert Difficulties(blocks)[1..] == Difficulties(blocks[1..]);
      WorkAdds([blocks[0]], blocks[1..]);
      assert [blocks[0]] + blocks[1..] == blocks;
      assert [blocks[0]][..0] == [];
    }
  }

  /** Between valid chains of one network the sum of 16^difficulty decides and nothing else: not the
    number of blocks, and at equal work the chain at hand stays. */
  lemma WorkDecides(lib: Library, c: ChainState, candidate: ChainState)
    requires ValidChain(lib, c) && ValidChain(lib, candidate)
    requires c.blocks[0].hash == candidate.blocks[0].hash && SamePolicy(lib, c, candidate)
    ensures var heavier := WorkOfDifficulties(Difficulties(candidate.blocks))
                           > WorkOfDifficulties(Difficulties(c.blocks));
            && (Refusal(lib, c, candidate).None? <==> heavier)
            && AfterFork(lib, c, candidate).blocks == (if heavier then candidate.blocks else c.blocks)
            && (!heavier ==> AfterFork(lib, c, candidate) == c)
  {
    hide ValidChain, SamePolicy, WorkOfDifficulties, WorkOf;
    WorkIsSum(c.blocks);
    WorkIsSum(candidate.blocks);
    MergeKeepsBlocks(lib, candidate.(pending := []), candidate.pending + c.pending);
  }

  /** Why a candidate is refused: each reason exactly on its own condition, in this order. */
  lemma RefusedExactly(lib: Library, c: ChainState, candidate: ChainState)
    ensures var r := Refusal(lib, c, candidate);
            && (r == Some(CurrentInvalid) <==> !ValidChain(lib, c))
            && (r == Some(CandidateInvalid) <==> ValidChain(lib, c) && !ValidChain(lib, candidate))
            && (ValidChain(lib, c) && ValidChain(lib, candidate) ==>
                var sameGenesis := c.blocks[0].hash == candidate.blocks[0].hash;
                var samePolicy := && c.retarget == candidate.retarget
                                  && c.maxTxPerBlock == candidate.maxTxPerBlock
                                  && lib.sortRules(c.schedule) == lib.sortRules(candidate.schedule);
                var heavier := WorkOfDifficulties(Difficulties(candidate.blocks))
                               > WorkOfDifficulties(Difficulties(c.blocks));
                && (r == Some(DifferentGenesis) <==> !sameGenesis)
                && (r == Some(IncompatibleConsensus) <==> sameGenesis && !samePolicy)
                && (r == Some(CandidateNotStronger) <==> sameGenesis && samePolicy && !heavier)
                && (r.None? <==> sameGenesis && samePolicy && heavier))
  {
    hide BlockOk, Replays, AllTransactions, WorkOf, WorkOfDifficulties;
    WorkIsSum(c.blocks);
    WorkIsSum(candidate.blocks);
  }

  /** What an adoption reports. */
  lemma ReportIsRight(lib: Library, c: ChainState, candidate: ChainState)
    requires Refusal(lib, c, candidate).None?
    ensures ForkOutcome(lib, c, candidate).Adopted?
    ensures var report, kept := ForkOutcome(lib, c, candidate).report, |AfterFork(lib, c, candidate).pending|;
            && report.oldHeight == |c.blocks| - 1 && report.newHeight == |candidate.blocks| - 1
            && report.oldWork == WorkOfDifficulties(Difficulties(c.blocks))
            && report.newWork == WorkOfDifficulties(Difficulties(candidate.blocks))
            && report.commonAncestor == AncestorHeight(c.blocks, candidate.blocks)
            && report.pendingKept == kept
            && report.pendingDropped == |c.pending| + |candidate.pending| - kept
  {
    hide BlockOk, Replays, AllTransactions, WorkOf, WorkOfDifficulties, SamePolicy, AncestorHeight;
    hide IsSubsequence, DistinctIdentifiers, AllSeen;
    WorkIsSum(c.blocks);
    WorkIsSum(candidate.blocks);
    AcceptedDifficulty(lib, c, |c.blocks| - 1);
    AcceptedDifficulty(lib, candidate, |candidate.blocks| - 1);
    MergedPoolIsSound(lib, candidate.(pending := []), candidate.pending + c.pending);
  }

  /** So a few harder blocks beat many easy ones: with m more blocks of one difficulty here and n of the
    next higher one there after a common part, the candidate is adopted exactly if 16 * n > m. */
  lemma FewHarderBlocksWin(lib: Library, c: ChainState, candidate: ChainState, k: nat, d: nat)
    requires ValidChain(lib, c) && ValidChain(lib, candidate)
    requires c.blocks[0].hash == candidate.blocks[0].hash && SamePolicy(lib, c, candidate)
    requires k <= |c.blocks| && k <= |candidate.blocks|
    requires Difficulties(c.blocks[..k]) == Difficulties(candidate.blocks[..k])
    requires forall i :: k <= i < |c.blocks| ==> c.blocks[i].difficulty == d
    requires forall i :: k <= i < |candidate.blocks| ==> candidate.blocks[i].difficulty == d + 1
    ensures Refusal(lib, c, candidate).None? <==> 16 * (|candidate.blocks| - k) > |c.blocks| - k
  {
    hide ValidChain, SamePolicy, WorkOf;
    var m, n := |c.blocks| - k, |candidate.blocks| - k;
    WorkIsSum(c.blocks[..k]);
    WorkIsSum(candidate.blocks[..k]);
    WorkAdds(c.blocks[..k], c.blocks[k..]);
    WorkAdds(candidate.blocks[..k], candidate.blocks[k..]);
    assert c.blocks[..k] + c.blocks[k..] == c.blocks;
    assert candidate.blocks[..k] + candidate.blocks[k..] == candidate.blocks;
    EqualBlocks(c.blocks[k..], d);
    EqualBlocks(candidate.blocks[k..], d + 1);
    assert n * (16 * Power(16, d)) == (16 * n) * Power(16, d);
    Heavier(16 * n, m, Power(16, d));
  }

  lemma {:induction false} EqualBlocks(blocks: seq<Block>, d: nat)
    requires forall i :: 0 <= i < |blocks| ==> blocks[i].difficulty == d
    ensures WorkOf(blocks) == |blocks| * Power(16, d)
    ensures Power(16, d) > 0
  {
    if blocks != [] {
      EqualBlocks(blocks[..|blocks| - 1], d);
      assert |blocks| * Power(16, d) == (|blocks| - 1) * Power(16, d) + Power(16, d);
    } else {
      PowerPositive(16, d);
    }
  }

  lemma {:induction false} PowerPositive(base: nat, e: nat)
    requires base > 0
    ensures Power(base, e) > 0
  {
    if e > 0 {
      PowerPositive(base, e - 1);
    }
  }

  lemma Heavier(x: int, y: int, p: nat)
    requires p > 0
    ensures x * p > y * p <==> x > y
  {
    if x > y {
      assert (x - y) * p >= p by { Multiple(p, x - y); }
    } else {
      assert (y - x) * p >= 0;
    }
  }
}
