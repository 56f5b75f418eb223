/** What every operation on a chain keeps (chain/chain.go, chain/retarget.go). */
module ChainTheorems {
  import opened Records
  import opened Blocks
  import opened Chains
  import opened Difficulty
  import opened Ledgers
  import opened Mining
  import opened MiningOutcomes
  import opened MiningTheorems
  import opened ProofOfWork
  import Merkle

  // ---------- the invariant ----------

  ghost predicate DistinctHeights(rules: seq<DifficultyRule>) {
    forall i, j :: 0 <= i < j < |rules| ==> rules[i].startHeight != rules[j].startHeight
  }

  /** A policy as the operations build it: one rule per height, exactly one at or below 0. */
  ghost predicate SoundPolicy(cs: ChainState) {
    && cs.retarget.Valid()
    && cs.maxTxPerBlock >= 1
    && DistinctHeights(cs.schedule)
    && RulesInRange(cs.schedule)
    && (forall r: DifficultyRule :: r in cs.schedule ==> r.startHeight >= 0)
    && (exists r: DifficultyRule :: r in cs.schedule && r.startHeight == 0)
  }

  /** The invariant of a chain in use: it validates and its pending pool replays on top of it. */
  ghost predicate ChainInv(lib: Library, cs: ChainState) {
    ValidChain(lib, cs) && Replays(lib, cs.History()) && SoundPolicy(cs)
  }

  lemma DistinctIsConsistent(rules: seq<DifficultyRule>)
    requires DistinctHeights(rules)
    ensures Consistent(rules)
  {}

  /** Validity does not look at the pending pool or the block size. */
  lemma ValidFramed(lib: Library, cs: ChainState, other: ChainState)
    requires other.blocks == cs.blocks && other.schedule == cs.schedule && other.retarget == cs.retarget
    ensures ValidChain(lib, other) == ValidChain(lib, cs)
  {
    hide DifficultyAt, ComputeHash, MeetsDifficulty, Replays, AllTransactions, Merkle.MerkleRoot;
    if cs.retarget.Usable() {
      forall i | 0 <= i < |cs.blocks| ensures BlockOk(lib, other, i) == BlockOk(lib, cs, i) {}
    }
  }

  // ---------- prefixes ----------

  /** Every non-empty prefix of a valid chain is valid under the same policy. */
  lemma PrefixClosed(lib: Library, cs: ChainState, k: nat)
    requires ValidChain(lib, cs) && 0 < k <= |cs.blocks|
    ensures ValidChain(lib, cs.Upto(k))
  {
    hide BlockOk, Replays, AllTransactions;
    HistoryPrefix(lib, cs.blocks, k);
    PrefixValid(lib, cs, k);
  }

  /** Every accepted difficulty lies in 0..64 and every block sits at its height. */
  lemma AcceptedDifficulty(lib: Library, cs: ChainState, i: nat)
    requires ValidChain(lib, cs) && i < |cs.blocks|
    ensures cs.blocks[i].height == i && 0 <= cs.blocks[i].difficulty <= 64
  {
    hide ComputeHash, DifficultyAt, Replays, AllTransactions, Merkle.MerkleRoot;
    assert BlockOk(lib, cs, i);
  }

  /** The block is worked at the difficulty of the policy, sits at its height, holds the root of its
    transactions and the hash of the block before, and is not older than that one. */
  ghost predicate Acceptable(lib: Library, cs: ChainState, i: nat)
    requires i < |cs.blocks| && cs.retarget.Usable()
  {
    var b := cs.blocks[i];
    && IsWorked(lib, b)
    && b.difficulty == ExpectedAt(lib, cs, i)
    && b.height == i
    && b.merkleRoot == Merkle.MerkleRoot(lib, b.transactions)
    && b.prevHash == (if i == 0 then GENESIS_PREV_HASH else cs.blocks[i - 1].hash)
    && (i > 0 ==> cs.blocks[i - 1].timestamp <= b.timestamp)
  }

  lemma BlockOkExactly(lib: Library, cs: ChainState, i: nat)
    requires i < |cs.blocks| && cs.retarget.Usable()
    ensures BlockOk(lib, cs, i) <==> Acceptable(lib, cs, i)
  {
    hide ComputeHash, MeetsDifficulty, ExpectedAt, Merkle.MerkleRoot, IsWorked;
    WorkedExactly(lib, cs.blocks[i]);
  }

  /** What acceptance of a chain means, down to the numbers that the digests are. */
  lemma ValidExactly(lib: Library, cs: ChainState)
    ensures ValidChain(lib, cs) <==>
            && cs.blocks != [] && cs.schedule != []
            && cs.retarget.interval >= 2 && cs.retarget.targetBlockSeconds > 0
            && 0 <= cs.retarget.minDifficulty <= cs.retarget.maxDifficulty <= 64
            && (forall i :: 0 <= i < |cs.blocks| ==> Acceptable(lib, cs, i))
            && Replays(lib, AllTransactions(cs.blocks))
  {
    hide BlockOk, Acceptable, Replays, AllTransactions;
    if cs.retarget.Usable() {
      forall i | 0 <= i < |cs.blocks| ensures BlockOk(lib, cs, i) <==> Acceptable(lib, cs, i) {
        BlockOkExactly(lib, cs, i);
      }
    }
  }

  // ---------- SetDifficulty ----------

  lemma {:induction false} WithRuleMembers(rules: seq<DifficultyRule>, rule: DifficultyRule)
    requires DistinctHeights(rules)
    ensures forall r: DifficultyRule ::
              r in WithRule(rules, rule) <==> r == rule || (r in rules && r.startHeight != rule.startHeight)
  {
    if rules != [] {
      assert rules == [rules[0]] + rules[1..];
      if rules[0].startHeight != rule.startHeight {
        WithRuleMembers(rules[1..], rule);
      }
    }
  }

  lemma {:induction false} WithRuleDistinct(rules: seq<DifficultyRule>, rule: DifficultyRule)
    requires DistinctHeights(rules)
    ensures DistinctHeights(WithRule(rules, rule))
  {
    if rules != [] && rules[0].startHeight != rule.startHeight {
      var rest := WithRule(rules[1..], rule);
      WithRuleDistinct(rules[1..], rule);
      WithRuleMembers(rules[1..], rule);
      forall j | 0 <= j < |rest| ensures rest[j].startHeight != rules[0].startHeight {
        assert rest[j] in rest;
      }
    }
  }

  /** SetDifficulty changes no height up to the tip and makes the next height exactly the new value. */
  lemma SetDifficultyIsSafe(lib: Library, cs: ChainState, difficulty: int, h: nat)
    requires ValidChain(lib, cs) && SoundPolicy(cs) && 0 <= difficulty <= 64
    requires h <= |cs.blocks|
    ensures var after := AfterSetDifficulty(cs, difficulty);
            ExpectedAt(lib, after, h) == if h < |cs.blocks| then ExpectedAt(lib, cs, h) else difficulty
  {
    hide BlockOk, Replays, AllTransactions;
    var after := AfterSetDifficulty(cs, difficulty);
    var rule := DifficultyRule(|cs.blocks|, difficulty);
    AcceptedDifficulty(lib, cs, |cs.blocks| - 1);
    WithRuleMembers(cs.schedule, rule);
    WithRuleDistinct(cs.schedule, rule);
    DistinctIsConsistent(cs.schedule);
    DistinctIsConsistent(after.schedule);
    SortingIsIrrelevant(lib, cs.schedule, cs.blocks, cs.retarget, h);
    SortingIsIrrelevant(lib, after.schedule, cs.blocks, cs.retarget, h);
    if h < |cs.blocks| {
      DifficultyIsLocal(cs.schedule, after.schedule, cs.blocks, cs.blocks, cs.retarget, h);
    } else {
      assert rule in after.schedule;
      assert RuleAt(after.schedule, h) == Some(rule);
    }
  }

  lemma SetDifficultyKeeps(lib: Library, cs: ChainState, difficulty: int)
    requires ChainInv(lib, cs)
    ensures ChainInv(lib, AfterSetDifficulty(cs, difficulty))
  {
    hide Replays, AllTransactions, ExpectedAt, DifficultyAt, ComputeHash, MeetsDifficulty, Merkle.MerkleRoot, WithRule;
    if 0 <= difficulty <= 64 {
      var after := AfterSetDifficulty(cs, difficulty);
      var rule := DifficultyRule(|cs.blocks|, difficulty);
      AcceptedDifficulty(lib, cs, |cs.blocks| - 1);
      WithRuleMembers(cs.schedule, rule);
      WithRuleDistinct(cs.schedule, rule);
      assert rule in after.schedule;
      forall i | 0 <= i < |cs.blocks| ensures BlockOk(lib, after, i) {
        assert BlockOk(lib, cs, i);
        SetDifficultyIsSafe(lib, cs, difficulty, i);
      }
      var base: DifficultyRule :| base in cs.schedule && base.startHeight == 0;
      assert base in after.schedule;
    }
  }

  // ---------- AddTransaction and ConfigureRetarget ----------

  lemma AddTransactionKeeps(lib: Library, cs: ChainState, tx: Transaction)
    requires ChainInv(lib, cs)
    ensures ChainInv(lib, AfterAddTransaction(lib, cs, tx))
  {
    hide ValidChain, Replays, AllTransactions;
    var after := AfterAddTransaction(lib, cs, tx);
    ValidFramed(lib, cs, after);
    if after != cs {
      assert after.History() == cs.History() + [tx];
    }
  }

  lemma ConfigureKeeps(lib: Library, cs: ChainState, config: RetargetConfig)
    requires ChainInv(lib, cs)
    ensures ChainInv(lib, AfterConfigure(cs, config))
  {
    hide Replays, AllTransactions, ComputeHash, MeetsDifficulty, Merkle.MerkleRoot;
    var after := AfterConfigure(cs, config);
    if after != cs {
      assert BlockOk(lib, cs, 0);
      assert BlockOk(lib, after, 0);
    }
  }

  // ---------- MineBlock ----------

  /** A mined block is the given block with a nonce whose hash it stores and which meets its difficulty. */
  ghost predicate MinedFrom(lib: Library, b: Block, mined: Block) {
    && mined == b.(nonce := mined.nonce, hash := mined.hash)
    && mined.hash == ComputeHash(lib, mined)
    && MeetsDifficulty(mined.hash, b.difficulty)
  }

  lemma MineCallMines(lib: Library, b: Block, input: MiningInput)
    requires RunsToEnd(lib, b, input) && MineCall(lib, b, input).Mined?
    ensures MinedFrom(lib, b, MineCall(lib, b, input).block)
  {
    hide ComputeHash, MeetsDifficulty, IsRun, Execute;
    SuccessIsMined(CallFor(lib, b, input), input.parent, input.run);
  }

  /** Success or failure, MineBlock leaves the history as it was. */
  lemma MineBlockKeepsHistory(lib: Library, cs: ChainState, input: MiningInput)
    requires MayMine(lib, cs, input)
    ensures AfterMineBlock(lib, cs, input).History() == cs.History()
    ensures MineBlockReport(lib, cs, input).NotMined? ==> AfterMineBlock(lib, cs, input) == cs
    ensures MineBlockReport(lib, cs, input).Mined? ==>
              MineBlockReport(lib, cs, input).block.transactions == cs.pending[..BatchSize(cs)]
  {
    hide ComputeHash, MeetsDifficulty, ExpectedAt, Merkle.MerkleRoot, MineCall, RunsToEnd;
    var report := MineBlockReport(lib, cs, input);
    if report.Mined? {
      var k := BatchSize(cs);
      MineCallMines(lib, NextBlock(lib, cs, input.now), input);
      AllTransactionsNext(cs.blocks + [report.block], |cs.blocks|);
      assert (cs.blocks + [report.block])[..|cs.blocks|] == cs.blocks;
      assert (cs.blocks + [report.block])[..|cs.blocks| + 1] == cs.blocks + [report.block];
      assert cs.pending == cs.pending[..k] + cs.pending[k..];
    }
  }

  /** What a success appends: the next block of the clock's time, holding the first transactions of the
    pool, as many as fit a block, worked at the difficulty of the policy. They leave the pool. */
  lemma MinedBlockIs(lib: Library, cs: ChainState, input: MiningInput)
    requires MayMine(lib, cs, input)
    ensures MineBlockReport(lib, cs, input) == NotMined(NoPending) <==> cs.pending == []
    ensures MineBlockReport(lib, cs, input).Mined? ==>
              var b := MineBlockReport(lib, cs, input).block;
              var n := if |cs.pending| < cs.maxTxPerBlock then |cs.pending| else cs.maxTxPerBlock;
              && b.height == cs.Latest().height + 1
              && b.timestamp == input.now
              && b.transactions == cs.pending[..n]
              && b.merkleRoot == Merkle.MerkleRoot(lib, cs.pending[..n])
              && b.prevHash == cs.Latest().hash
              && b.difficulty == ExpectedAt(lib, cs, cs.Latest().height + 1)
              && IsWorked(lib, b)
              && AfterMineBlock(lib, cs, input) == cs.(blocks := cs.blocks + [b], pending := cs.pending[n..])
  {
    hide ComputeHash, MeetsDifficulty, ExpectedAt, Merkle.MerkleRoot, RunsToEnd, IsWorked, Execute, IsRun;
    var report := MineBlockReport(lib, cs, input);
    if report.Mined? {
      MineCallMines(lib, NextBlock(lib, cs, input.now), input);
      WorkedExactly(lib, report.block);
    }
  }

  /** Appending a block changes the expected difficulty of no height up to the new one. */
  lemma AppendIsSafe(lib: Library, cs: ChainState, b: Block, h: nat)
    requires cs.retarget.Usable() && h <= |cs.blocks|
    ensures ExpectedAt(lib, cs.(blocks := cs.blocks + [b]), h) == ExpectedAt(lib, cs, h)
  {
    hide DifficultyAt;
    var sorted := lib.sortRules(cs.schedule);
    DifficultyIsLocal(sorted, sorted, cs.blocks + [b], cs.blocks, cs.retarget, h);
  }

  /** The new block joins the chain exactly when its clock is not behind the tip. */
  lemma AppendedBlock(lib: Library, cs: ChainState, now: int, mined: Block)
    requires ValidChain(lib, cs) && cs.maxTxPerBlock >= 0
    requires MinedFrom(lib, NextBlock(lib, cs, now), mined)
    ensures BlockOk(lib, cs.(blocks := cs.blocks + [mined]), |cs.blocks|) <==> now >= cs.Latest().timestamp
  {
    hide ComputeHash, MeetsDifficulty, ExpectedAt, Merkle.MerkleRoot, Replays, AllTransactions;
    AcceptedDifficulty(lib, cs, |cs.blocks| - 1);
    AppendIsSafe(lib, cs, mined, |cs.blocks|);
  }

  /** After a success the chain validates exactly when the clock did not run backwards. */
  lemma MinedChainValid(lib: Library, cs: ChainState, input: MiningInput)
    requires ChainInv(lib, cs) && MayMine(lib, cs, input)
    requires MineBlockReport(lib, cs, input).Mined?
    ensures ValidChain(lib, AfterMineBlock(lib, cs, input)) <==> input.now >= cs.Latest().timestamp
  {
    hide BlockOk, NextBlock, MineCall, RunsToEnd, Replays, AllTransactions, SoundPolicy;
    var mined := MineBlockReport(lib, cs, input).block;
    var grown := cs.(blocks := cs.blocks + [mined]);
    var n := |cs.blocks|;
    MineCallMines(lib, NextBlock(lib, cs, input.now), input);
    AppendedBlock(lib, cs, input.now, mined);
    ValidFramed(lib, grown, AfterMineBlock(lib, cs, input));
    ValidAt(lib, grown, n);
    MineBlockKeepsHistory(lib, cs, input);
    var after := AfterMineBlock(lib, cs, input);
    ReplayPrefix(lib, AllTransactions(after.blocks), after.pending);
    if BlockOk(lib, grown, n) {
      forall i | 0 <= i < |grown.blocks| ensures BlockOk(lib, grown, i) {
        if i < n {
          assert BlockOk(lib, cs, i);
          assert grown.Upto(n) == cs;
          BlockOkInPrefix(lib, grown, n, i);
        }
      }
    }
  }

  lemma MineBlockKeeps(lib: Library, cs: ChainState, input: MiningInput)
    requires ChainInv(lib, cs) && MayMine(lib, cs, input)
    requires input.now >= cs.Latest().timestamp
    ensures ChainInv(lib, AfterMineBlock(lib, cs, input))
  {
    hide ValidChain, Replays, AllTransactions, MineCall, RunsToEnd;
    MineBlockKeepsHistory(lib, cs, input);
    if MineBlockReport(lib, cs, input).Mined? {
      MinedChainValid(lib, cs, input);
    }
  }

  // ---------- a new chain ----------

  lemma StartedIsValid(lib: Library, difficulty: int, maxTxPerBlock: int, retarget: RetargetConfig, input: MiningInput)
    requires RunsToEnd(lib, GenesisBlock(lib, StartDifficulty(difficulty)), GenesisInput(input))
    requires Started(lib, difficulty, maxTxPerBlock, retarget, input).Some?
    ensures ChainInv(lib, Started(lib, difficulty, maxTxPerBlock, retarget, input).value)
  {
    hide ComputeHash, MeetsDifficulty, Merkle.MerkleRoot, RunsToEnd, MineCall;
    var cs := Started(lib, difficulty, maxTxPerBlock, retarget, input).value;
    var rule := DifficultyRule(0, StartDifficulty(difficulty));
    MineCallMines(lib, GenesisBlock(lib, rule.difficulty), GenesisInput(input));
    SortingIsIrrelevant(lib, cs.schedule, cs.blocks, cs.retarget, 0);
    assert rule in cs.schedule && BaseRule(cs.schedule) == Some(rule);
    assert BlockOk(lib, cs, 0);
    assert AllTransactions(cs.blocks) == [] by {
      AllTransactionsNext(cs.blocks, 0);
      assert cs.blocks[..1] == cs.blocks;
    }
    ReplayNothing(lib, EMPTY);
  }

  /** A new chain is a worked genesis block of a fixed form under one rule; a negative difficulty stands
    for 4 and a block size below 1 for 10. */
  lemma StartedIs(lib: Library, difficulty: int, maxTxPerBlock: int, retarget: RetargetConfig, input: MiningInput)
    requires RunsToEnd(lib, GenesisBlock(lib, StartDifficulty(difficulty)), GenesisInput(input))
    requires Started(lib, difficulty, maxTxPerBlock, retarget, input).Some?
    ensures var cs := Started(lib, difficulty, maxTxPerBlock, retarget, input).value;
            var d := if difficulty < 0 then 4 else difficulty;
            && |cs.blocks| == 1 && IsWorked(lib, cs.blocks[0])
            && cs.blocks[0].height == 0 && cs.blocks[0].timestamp == 0 && cs.blocks[0].transactions == []
            && cs.blocks[0].prevHash == GENESIS_PREV_HASH && cs.blocks[0].difficulty == d
            && cs.pending == [] && cs.schedule == [DifficultyRule(0, d)] && cs.retarget == retarget
            && cs.maxTxPerBlock == (if maxTxPerBlock < 1 then 10 else maxTxPerBlock)
            && retarget.minDifficulty <= d <= retarget.maxDifficulty
  {
    hide ComputeHash, MeetsDifficulty, Merkle.MerkleRoot, RunsToEnd, MineCall, IsWorked;
    var genesis := GenesisBlock(lib, StartDifficulty(difficulty));
    MineCallMines(lib, genesis, GenesisInput(input));
    WorkedExactly(lib, MineCall(lib, genesis, GenesisInput(input)).block);
  }

  /** Under a parent that stays open, a chain starts exactly when the difficulty lies within the bounds
    and some nonce within both limits is a hit for genesis, whatever the schedule. */
  lemma StartsExactlyWhen(lib: Library, difficulty: int, maxTxPerBlock: int, retarget: RetargetConfig,
                          input: MiningInput)
    requires RunsToEnd(lib, GenesisBlock(lib, StartDifficulty(difficulty)), GenesisInput(input))
    requires var cfg := CallFor(lib, GenesisBlock(lib, StartDifficulty(difficulty)), GenesisInput(input));
             cfg.Valid() ==> Execute(cfg, Init(cfg, input.parent), input.run).parent.None?
    ensures var cfg := CallFor(lib, GenesisBlock(lib, StartDifficulty(difficulty)), GenesisInput(input));
            Started(lib, difficulty, maxTxPerBlock, retarget, input).Some? <==>
              && StartAllowed(StartDifficulty(difficulty), retarget)
              && exists m: uint64 ::
                   m <= cfg.LastNonce() && (cfg.limits.maxAttempts > 0 ==> m < cfg.limits.maxAttempts) && cfg.Hit(m)
  {
    hide Merkle.MerkleRoot, IsRun, Execute, Init, ComputeHash, MeetsDifficulty;
    var cfg := CallFor(lib, GenesisBlock(lib, StartDifficulty(difficulty)), GenesisInput(input));
    if StartAllowed(StartDifficulty(difficulty), retarget) {
      OneWorkerSucceedsWhen(cfg, input.parent, input.run);
    }
  }

  /** Any two new chains of one difficulty share their genesis block, whatever else differs between
    the machines that made them. */
  lemma StartedChainsShareGenesis(lib: Library, difficulty: int,
                                  maxA: int, retargetA: RetargetConfig, a: MiningInput,
                                  maxB: int, retargetB: RetargetConfig, b: MiningInput)
    requires RunsToEnd(lib, GenesisBlock(lib, StartDifficulty(difficulty)), GenesisInput(a))
    requires RunsToEnd(lib, GenesisBlock(lib, StartDifficulty(difficulty)), GenesisInput(b))
    requires Started(lib, difficulty, maxA, retargetA, a).Some? && Started(lib, difficulty, maxB, retargetB, b).Some?
    ensures Started(lib, difficulty, maxA, retargetA, a).value.blocks
            == Started(lib, difficulty, maxB, retargetB, b).value.blocks
  {
    hide ComputeHash, MeetsDifficulty, Merkle.MerkleRoot, IsRun, Execute;
    var genesis := GenesisBlock(lib, StartDifficulty(difficulty));
    var x, y := GenesisInput(a), GenesisInput(b);
    GenesisDeterministic(CallFor(lib, genesis, x), x.parent, x.run, CallFor(lib, genesis, y), y.parent, y.run);
  }
}
