/** The chain: its policy, its pending pool and its validation (chain/chain.go). */
module Chains {
  import opened Records
  import opened Blocks
  import opened Difficulty
  import opened Ledgers
  import opened Mining
  import DifficultyTheorems
  import Merkle

  const DEFAULT_MAX_TX_PER_BLOCK: int := 10

  datatype ChainState = ChainState(
    blocks: seq<Block>,
    pending: seq<Transaction>,
    schedule: seq<DifficultyRule>,
    retarget: RetargetConfig,
    maxTxPerBlock: int)
  {
    function Latest(): Block
      requires blocks != []
    {
      blocks[|blocks| - 1]
    }

    /** The transactions of all blocks, then the pending ones. */
    function History(): seq<Transaction> {
      AllTransactions(blocks) + pending
    }

    /** The first k blocks under the same policy. */
    function Upto(k: nat): ChainState
      requires k <= |blocks|
    {
      this.(blocks := blocks[..k])
    }
  }

  function ExpectedAt(lib: Library, cs: ChainState, height: int): int
    requires cs.retarget.Usable()
  {
    if height < 0 then DEFAULT_DIFFICULTY else DifficultyAt(lib.sortRules(cs.schedule), cs.blocks, cs.retarget, height)
  }

  // ---------- validity ----------

  /** What a block at index i of a valid chain has to satisfy, apart from its transactions. */
  ghost predicate BlockOk(lib: Library, cs: ChainState, i: nat)
    requires i < |cs.blocks| && cs.retarget.Usable()
  {
    var b := cs.blocks[i];
    && b.height == i
    && b.difficulty == ExpectedAt(lib, cs, i)
    && b.merkleRoot == Merkle.MerkleRoot(lib, b.transactions)
    && b.hash == ComputeHash(lib, b)
    && MeetsDifficulty(b.hash, b.difficulty)
    && (if i == 0 then b.prevHash == GENESIS_PREV_HASH
        else b.prevHash == cs.blocks[i - 1].hash && cs.blocks[i - 1].timestamp <= b.timestamp)
  }

  ghost predicate ValidChain(lib: Library, cs: ChainState) {
    && cs.blocks != []
    && cs.schedule != []
    && cs.retarget.Valid()
    && (forall i :: 0 <= i < |cs.blocks| ==> BlockOk(lib, cs, i))
    && Replays(lib, AllTransactions(cs.blocks))
  }

  datatype Fault =
    | ChainEmpty
    | ScheduleEmpty
    | BadRetarget
    | WrongDifficulty
    | WrongMerkleRoot
    | WrongHash
    | WeakHash
    | GenesisHeight
    | GenesisPrevHash
    | HeightSequence
    | TimestampOrder
    | BrokenLink
    | BadTransactions

  datatype ValidationError = ValidationError(blockHeight: int, reason: Fault)

  /** The first check that the header of block i fails, in the order in which the program checks. */
  function HeaderFault(lib: Library, cs: ChainState, i: nat): Option<Fault>
    requires i < |cs.blocks| && cs.retarget.Usable()
  {
    var b, expected := cs.blocks[i], ExpectedAt(lib, cs, cs.blocks[i].height);
    if b.difficulty != expected then Some(WrongDifficulty)
    else if b.merkleRoot != Merkle.MerkleRoot(lib, b.transactions) then Some(WrongMerkleRoot)
    else if ComputeHash(lib, b) != b.hash then Some(WrongHash)
    else if !MeetsDifficulty(b.hash, expected) then Some(WeakHash)
    else if i == 0 then
      if b.height != 0 then Some(GenesisHeight)
      else if b.prevHash != GENESIS_PREV_HASH then Some(GenesisPrevHash)
      else None
    else
      var previous := cs.blocks[i - 1];
      if b.height != previous.height + 1 then Some(HeightSequence)
      else if b.timestamp < previous.timestamp then Some(TimestampOrder)
      else if b.prevHash != previous.hash then Some(BrokenLink)
      else None
  }

  /** After valid blocks, the checks of the program are the conditions of `BlockOk`. */
  lemma HeaderChecks(lib: Library, cs: ChainState, i: nat)
    requires i < |cs.blocks| && cs.retarget.Usable()
    requires i > 0 ==> cs.blocks[i - 1].height == i - 1
    ensures HeaderFault(lib, cs, i).None? <==> BlockOk(lib, cs, i)
  {
    hide ComputeHash, MeetsDifficulty, ExpectedAt, Merkle.MerkleRoot;
  }

  /** Block j is judged alike in the whole chain and in any prefix that contains it. */
  lemma BlockOkInPrefix(lib: Library, cs: ChainState, k: nat, j: nat)
    requires j < k <= |cs.blocks| && cs.retarget.Usable()
    ensures BlockOk(lib, cs.Upto(k), j) <==> BlockOk(lib, cs, j)
  {
    hide ComputeHash, MeetsDifficulty, Merkle.MerkleRoot, DifficultyAt;
    var sorted := lib.sortRules(cs.schedule);
    DifficultyIsLocal(sorted, sorted, cs.blocks[..k], cs.blocks, cs.retarget, j);
  }

  /** The block at index i is the first offender, for the given reason. */
  ghost predicate FirstOffender(lib: Library, cs: ChainState, i: nat, reason: Fault)
    requires i < |cs.blocks| && cs.retarget.Usable()
  {
    && (i > 0 ==> ValidChain(lib, cs.Upto(i)))
    && !ValidChain(lib, cs.Upto(i + 1))
    && HeaderFault(lib, cs, i) == (if reason.BadTransactions? then None else Some(reason))
  }

  lemma PrefixValid(lib: Library, cs: ChainState, k: nat)
    requires 0 < k <= |cs.blocks| && cs.schedule != [] && cs.retarget.Valid()
    requires forall j :: 0 <= j < k ==> BlockOk(lib, cs, j)
    requires Replays(lib, AllTransactions(cs.blocks[..k]))
    ensures ValidChain(lib, cs.Upto(k))
  {
    hide BlockOk;
    forall j | 0 <= j < k ensures BlockOk(lib, cs.Upto(k), j) {
      BlockOkInPrefix(lib, cs, k, j);
    }
  }

  lemma OffendingBlock(lib: Library, cs: ChainState, i: nat, reason: Fault)
    requires i < |cs.blocks| && cs.schedule != [] && cs.retarget.Valid()
    requires forall j :: 0 <= j < i ==> BlockOk(lib, cs, j)
    requires Replays(lib, AllTransactions(cs.blocks[..i]))
    requires HeaderFault(lib, cs, i) == if reason.BadTransactions? then None else Some(reason)
    requires reason.BadTransactions? ==> !Replays(lib, AllTransactions(cs.blocks[..i + 1]))
    ensures FirstOffender(lib, cs, i, reason)
    ensures !ValidChain(lib, cs)
  {
    hide HeaderFault, Replays, AllTransactions;
    if i > 0 {
      PrefixValid(lib, cs, i);
      PreviousHeight(lib, cs, i - 1);
    }
    HeaderChecks(lib, cs, i);
    BlockOkInPrefix(lib, cs, i + 1, i);
    ValidAt(lib, cs.Upto(i + 1), i);
    ValidAt(lib, cs, i);
    assert cs.blocks[..i + 1][..i + 1] == cs.blocks[..i + 1];
  }

  /** Validity is validity of each block and each prefix of the history. */
  lemma ValidAt(lib: Library, cs: ChainState, i: nat)
    requires i < |cs.blocks| && cs.retarget.Usable()
    ensures ValidChain(lib, cs) ==> BlockOk(lib, cs, i)
    ensures ValidChain(lib, cs) ==> Replays(lib, AllTransactions(cs.blocks[..i + 1]))
  {
    hide BlockOk, Replays, AllTransactions;
    if ValidChain(lib, cs) {
      HistoryPrefix(lib, cs.blocks, i + 1);
    }
  }

  lemma PreviousHeight(lib: Library, cs: ChainState, j: nat)
    requires j < |cs.blocks| && cs.retarget.Usable() && BlockOk(lib, cs, j)
    ensures cs.blocks[j].height == j
  {}

  lemma HistoryPrefix(lib: Library, blocks: seq<Block>, k: nat)
    requires k <= |blocks| && Replays(lib, AllTransactions(blocks))
    ensures Replays(lib, AllTransactions(blocks[..k]))
  {
    hide Replays;
    assert blocks == blocks[..k] + blocks[k..];
    AllTransactionsConcat(blocks[..k], blocks[k..]);
    ReplayPrefix(lib, AllTransactions(blocks[..k]), AllTransactions(blocks[k..]));
  }

  // ---------- the effect of the operations ----------

  /** Replaces the first rule that starts at a height, or adds one at the end. */
  function WithRule(rules: seq<DifficultyRule>, rule: DifficultyRule): seq<DifficultyRule> {
    if rules == [] then [rule]
    else if rules[0].startHeight == rule.startHeight then [rule] + rules[1..]
    else [rules[0]] + WithRule(rules[1..], rule)
  }

  /** The first rule of the given height is the one replaced. */
  lemma {:induction false} WithRuleAt(rules: seq<DifficultyRule>, rule: DifficultyRule, k: nat)
    requires k <= |rules|
    requires forall i :: 0 <= i < k ==> rules[i].startHeight != rule.startHeight
    ensures k == |rules| ==> WithRule(rules, rule) == rules + [rule]
    ensures k < |rules| && rules[k].startHeight == rule.startHeight ==> WithRule(rules, rule) == rules[k := rule]
  {
    if k > 0 {
      WithRuleAt(rules[1..], rule, k - 1);
      assert rules == [rules[0]] + rules[1..];
    }
  }

  function AfterSetDifficulty(cs: ChainState, difficulty: int): ChainState
    requires cs.blocks != []
  {
    if 0 <= difficulty <= 64
    then cs.(schedule := WithRule(cs.schedule, DifficultyRule(cs.Latest().height + 1, difficulty)))
    else cs
  }

  function AfterAddTransaction(lib: Library, cs: ChainState, tx: Transaction): ChainState {
    if Replays(lib, cs.History() + [tx]) then cs.(pending := cs.pending + [tx]) else cs
  }

  function AfterConfigure(cs: ChainState, config: RetargetConfig): ChainState {
    if |cs.blocks| == 1 && cs.blocks[0].height == 0 && config.Valid() then cs.(retarget := config) else cs
  }

  function BatchSize(cs: ChainState): (n: nat)
    requires cs.maxTxPerBlock >= 0
    ensures n <= |cs.pending|
  {
    if |cs.pending| > cs.maxTxPerBlock then cs.maxTxPerBlock else |cs.pending|
  }

  /** The next block before mining; `now` is the clock. */
  function NextBlock(lib: Library, cs: ChainState, now: int): Block
    requires cs.blocks != [] && cs.maxTxPerBlock >= 0 && cs.retarget.Usable()
  {
    var batch, height := cs.pending[..BatchSize(cs)], cs.Latest().height + 1;
    Block(height, now, batch, Merkle.MerkleRoot(lib, batch), cs.Latest().hash, 0, ExpectedAt(lib, cs, height), "")
  }

  /** The inputs of one call of MineBlock: the clock, the limits, the number of processors, the state
    of the parent context and the schedule of the mining threads. */
  datatype MiningInput = MiningInput(
    now: int,
    limits: Limits,
    cpus: int64,
    parent: Option<ContextError>,
    run: seq<Action>)

  function CallFor(lib: Library, b: Block, input: MiningInput): Config {
    Config(lib, b, input.limits, ResolveWorkers(input.limits, input.cpus))
  }

  datatype MineFailure = NoPending | InvalidDifficulty | Failed(outcome: Outcome)

  datatype MineReport = Mined(block: Block, result: Outcome) | NotMined(failure: MineFailure)

  /** The schedule runs the mining call to its end, if the call gets that far. */
  predicate RunsToEnd(lib: Library, b: Block, input: MiningInput) {
    var cfg := CallFor(lib, b, input);
    cfg.Valid() ==> IsCompleteRun(cfg, input.parent, input.run)
  }

  /** One call of Mine on block b. */
  function MineCall(lib: Library, b: Block, input: MiningInput): MineReport
    requires RunsToEnd(lib, b, input)
  {
    var cfg := CallFor(lib, b, input);
    if !cfg.Valid() then NotMined(InvalidDifficulty)
    else
      var final := Execute(cfg, Init(cfg, input.parent), input.run);
      var outcome := final.main.outcome;
      if outcome.Success? then Mined(final.block, outcome) else NotMined(Failed(outcome))
  }

  predicate MayMine(lib: Library, cs: ChainState, input: MiningInput) {
    && cs.blocks != [] && cs.maxTxPerBlock >= 0 && cs.retarget.Usable()
    && (cs.pending != [] ==> RunsToEnd(lib, NextBlock(lib, cs, input.now), input))
  }

  function MineBlockReport(lib: Library, cs: ChainState, input: MiningInput): MineReport
    requires MayMine(lib, cs, input)
  {
    if cs.pending == [] then NotMined(NoPending) else MineCall(lib, NextBlock(lib, cs, input.now), input)
  }

  function AfterMineBlock(lib: Library, cs: ChainState, input: MiningInput): ChainState
    requires MayMine(lib, cs, input)
  {
    var report := MineBlockReport(lib, cs, input);
    if report.Mined? then cs.(blocks := cs.blocks + [report.block], pending := cs.pending[BatchSize(cs)..]) else cs
  }

  function GenesisBlock(lib: Library, difficulty: int): Block {
    Block(0, 0, [], Merkle.MerkleRoot(lib, []), GENESIS_PREV_HASH, 0, difficulty, "")
  }

  /** Genesis always uses one worker. */
  function GenesisInput(input: MiningInput): MiningInput {
    input.(limits := input.limits.(workers := 1))
  }

  predicate StartAllowed(difficulty: int, retarget: RetargetConfig) {
    retarget.Valid() && retarget.minDifficulty <= difficulty <= retarget.maxDifficulty
  }

  function StartDifficulty(difficulty: int): int {
    if difficulty < 0 then DEFAULT_DIFFICULTY else difficulty
  }

  function StartMaxTx(maxTxPerBlock: int): int {
    if maxTxPerBlock <= 0 then DEFAULT_MAX_TX_PER_BLOCK else maxTxPerBlock
  }

  /** A new chain, unless the policy is refused or mining genesis fails. */
  function Started(lib: Library, difficulty: int, maxTxPerBlock: int, retarget: RetargetConfig, input: MiningInput)
    : Option<ChainState>
    requires RunsToEnd(lib, GenesisBlock(lib, StartDifficulty(difficulty)), GenesisInput(input))
  {
    var d := StartDifficulty(difficulty);
    if !StartAllowed(d, retarget) then None
    else
      var report := MineCall(lib, GenesisBlock(lib, d), GenesisInput(input));
      if report.NotMined? then None
      else Some(ChainState([report.block], [], [DifficultyRule(0, d)], retarget, StartMaxTx(maxTxPerBlock)))
  }

  // ---------- the chain object ----------

  datatype AddError = InvalidPool | Refused

  class Chain {
    const lib: Library
    var blocks: seq<Block>
    var pending: seq<Transaction>
    var schedule: seq<DifficultyRule>
    var retarget: RetargetConfig
    var maxTxPerBlock: int

    ghost function State(): ChainState
      reads this
    {
      ChainState(blocks, pending, schedule, retarget, maxTxPerBlock)
    }

    constructor (lib: Library, cs: ChainState)
      ensures this.lib == lib && State() == cs
    {
      this.lib := lib;
      blocks, pending, schedule := cs.blocks, cs.pending, cs.schedule;
      retarget, maxTxPerBlock := cs.retarget, cs.maxTxPerBlock;
    }

    function Latest(): Block
      requires blocks != []
      reads this
    {
      blocks[|blocks| - 1]
    }

    method ExpectedDifficulty(height: int) returns (difficulty: int)
      requires retarget.Usable()
      ensures difficulty == ExpectedAt(lib, State(), height)
    {
      if height < 0 {
        return DEFAULT_DIFFICULTY;
      }
      difficulty := ScanRules(lib.sortRules(schedule), blocks, retarget, height);
    }

    method SetDifficulty(difficulty: int) returns (ok: bool)
      requires blocks != []
      modifies this`schedule
      ensures ok <==> 0 <= difficulty <= 64
      ensures ok ==> DifficultyRule(Latest().height + 1, difficulty) in schedule
      ensures State() == AfterSetDifficulty(old(State()), difficulty)
    {
      if difficulty < 0 || difficulty > 64 {
        return false;
      }
      hide WithRule;
      var rule := DifficultyRule(Latest().height + 1, difficulty);
      for index := 0 to |schedule|
        invariant schedule == old(schedule)
        invariant forall i :: 0 <= i < index ==> schedule[i].startHeight != rule.startHeight
      {
        if schedule[index].startHeight == rule.startHeight {
          WithRuleAt(schedule, rule, index);
          schedule := schedule[index := rule];
          assert schedule[index] == rule;
          return true;
        }
      }
      WithRuleAt(schedule, rule, |schedule|);
      schedule := schedule + [rule];
      return true;
    }

    function NextRetargetHeight(): (height: int)
      requires blocks != [] && retarget.Usable()
      reads this
    {
      DifficultyTheorems.NextRetargetHeight(retarget, Latest().height)
    }

    method ConfigureRetarget(config: RetargetConfig) returns (ok: bool)
      modifies this`retarget
      ensures ok <==> |blocks| == 1 && blocks[0].height == 0 && config.Valid()
      ensures retarget == if ok then config else old(retarget)
      ensures State() == AfterConfigure(old(State()), config)
    {
      if |blocks| != 1 || blocks[0].height != 0 || !config.Valid() {
        return false;
      }
      retarget := config;
      return true;
    }

    method AddTransaction(tx: Transaction) returns (error: Option<AddError>)
      modifies this`pending
      ensures error.None? <==> Replays(lib, old(State()).History() + [tx])
      ensures error == Some(InvalidPool) <==> !Replays(lib, old(State()).History())
      ensures pending == old(pending) + if error.None? then [tx] else []
      ensures State() == AfterAddTransaction(lib, old(State()), tx)
    {
      hide Replay, Rejects, Transferred;
      var ledger := Rebuild(lib, blocks);
      ghost var confirmed := AllTransactions(blocks);
      ghost var history := confirmed + pending;
      if ledger.None? {
        NotReplayed(lib, confirmed, pending);
        NotReplayed(lib, confirmed, pending + [tx]);
        assert confirmed + (pending + [tx]) == history + [tx];
        return Some(InvalidPool);
      }
      var current := ledger.value;
      assert confirmed + pending[..0] == confirmed;
      for i := 0 to |pending|
        invariant fresh(current) && current.lib == lib
        invariant pending == old(pending)
        invariant Replay(lib, Int64, EMPTY, confirmed + pending[..i]) == Some(current.State())
      {
        ReplayOneMore(lib, confirmed + pending[..i], pending[i]);
        assert confirmed + pending[..i] + [pending[i]] == confirmed + pending[..i + 1];
        var refused := current.Apply(pending[i]);
        if refused.Some? {
          NotReplayed(lib, confirmed + pending[..i + 1], pending[i + 1..]);
          assert confirmed + pending[..i + 1] + pending[i + 1..] == history;
          NotReplayed(lib, confirmed + pending[..i + 1], pending[i + 1..] + [tx]);
          assert confirmed + pending[..i + 1] + (pending[i + 1..] + [tx]) == history + [tx];
          return Some(InvalidPool);
        }
      }
      assert pending[..|pending|] == pending;
      ReplayOneMore(lib, history, tx);
      var refused := current.ValidateTransaction(tx);
      if refused.Some? {
        return Some(Refused);
      }
      pending := pending + [tx];
      return None;
    }

    method MineBlock(input: MiningInput) returns (report: MineReport)
      requires MayMine(lib, State(), input)
      modifies this`blocks, this`pending
      ensures report == MineBlockReport(lib, old(State()), input)
      ensures blocks == old(blocks) + if report.Mined? then [report.block] else []
      ensures report.NotMined? ==> pending == old(pending)
      ensures State() == AfterMineBlock(lib, old(State()), input)
    {
      hide Merkle.MerkleRoot, IsCompleteRun, Execute, DifficultyAt;
      if |pending| == 0 {
        return NotMined(NoPending);
      }
      var transactionCount := |pending|;
      if transactionCount > maxTxPerBlock {
        transactionCount := maxTxPerBlock;
      }
      var batch := pending[..transactionCount];
      var newHeight := Latest().height + 1;
      var expectedDifficulty := ExpectedDifficulty(newHeight);
      var root := Merkle.CalculateMerkleRoot(lib, batch);
      var newBlock := Block(newHeight, input.now, batch, root, Latest().hash, 0, expectedDifficulty, "");
      assert newBlock == NextBlock(lib, State(), input.now);
      report := MineCall(lib, newBlock, input);
      if report.NotMined? {
        return;
      }
      blocks := blocks + [report.block];
      pending := pending[transactionCount..];
    }

    /** Accepts exactly the valid chains; otherwise the error names the chain-wide condition that fails
      first, or the first offending block, before which the chain is valid. */
    method Validate() returns (error: Option<ValidationError>)
      ensures error.None? <==> ValidChain(lib, State())
      ensures error == Some(ValidationError(-1, ChainEmpty)) <==> blocks == []
      ensures error == Some(ValidationError(-1, ScheduleEmpty)) <==> blocks != [] && schedule == []
      ensures error == Some(ValidationError(-1, BadRetarget)) <==>
                blocks != [] && schedule != [] && !retarget.Valid()
      ensures error.Some? && blocks != [] && schedule != [] && retarget.Valid() ==>
                exists i ::
                  && 0 <= i < |blocks|
                  && error.value.blockHeight == blocks[i].height
                  && FirstOffender(lib, State(), i, error.value.reason)
    {
      hide BlockOk, Replays, FirstOffender;
      if |blocks| == 0 {
        return Some(ValidationError(-1, ChainEmpty));
      }
      if |schedule| == 0 {
        return Some(ValidationError(-1, ScheduleEmpty));
      }
      if !retarget.Valid() {
        return Some(ValidationError(-1, BadRetarget));
      }
      var index, fault := CheckBlocks();
      if fault.Some? {
        return Some(ValidationError(blocks[index].height, fault.value));
      }
      return None;
    }

    /** Walks over the blocks with a ledger and stops at the first fault. */
    method CheckBlocks() returns (index: nat, fault: Option<Fault>)
      requires schedule != [] && retarget.Valid()
      ensures fault.None? ==>
                && (forall j :: 0 <= j < |blocks| ==> BlockOk(lib, State(), j))
                && Replays(lib, AllTransactions(blocks))
      ensures fault.Some? ==>
                && index < |blocks|
                && fault.value !in {ChainEmpty, ScheduleEmpty, BadRetarget}
                && FirstOffender(lib, State(), index, fault.value)
                && !ValidChain(lib, State())
    {
      hide Replay, BlockOk, HeaderFault, Rejects, FirstOffender, ValidChain, AllTransactions;
      var currentLedger := new Ledger(lib);
      ReplayNothing(lib, EMPTY);
      NoTransactions(blocks);
      index := 0;
      while index < |blocks|
        invariant index <= |blocks|
        invariant fresh(currentLedger) && currentLedger.lib == lib
        invariant forall j :: 0 <= j < index ==> BlockOk(lib, State(), j)
        invariant Replay(lib, Int64, EMPTY, AllTransactions(blocks[..index])) == Some(currentLedger.State())
      {
        AllTransactionsNext(blocks, index);
        if index > 0 {
          PreviousHeight(lib, State(), index - 1);
        }
        HeaderChecks(lib, State(), index);
        fault := CheckHeader(index);
        if fault.Some? {
          OffendingBlock(lib, State(), index, fault.value);
          return;
        }
        ReplayConcat(lib, Int64, EMPTY, AllTransactions(blocks[..index]), blocks[index].transactions);
        var refused := currentLedger.ApplyBlock(blocks[index]);
        if refused.Some? {
          OffendingBlock(lib, State(), index, BadTransactions);
          return index, Some(BadTransactions);
        }
        index := index + 1;
      }
      assert blocks[..|blocks|] == blocks;
      fault := None;
    }

    /** The checks on one header, in the program's order. */
    method CheckHeader(index: nat) returns (fault: Option<Fault>)
      requires index < |blocks| && retarget.Usable()
      ensures fault == HeaderFault(lib, State(), index)
      ensures fault.Some? ==> fault.value !in {ChainEmpty, ScheduleEmpty, BadRetarget, BadTransactions}
    {
      hide ComputeHash, MeetsDifficulty, ExpectedAt, Merkle.MerkleRoot;
      var currentBlock := blocks[index];
      var expectedDifficulty := ExpectedDifficulty(currentBlock.height);
      if currentBlock.difficulty != expectedDifficulty {
        return Some(WrongDifficulty);
      }
      var expectedMerkleRoot := Merkle.CalculateMerkleRoot(lib, currentBlock.transactions);
      if currentBlock.merkleRoot != expectedMerkleRoot {
        return Some(WrongMerkleRoot);
      }
      if ComputeHash(lib, currentBlock) != currentBlock.hash {
        return Some(WrongHash);
      }
      if !MeetsDifficulty(currentBlock.hash, expectedDifficulty) {
        return Some(WeakHash);
      }
      if index == 0 {
        if currentBlock.height != 0 {
          return Some(GenesisHeight);
        }
        if currentBlock.prevHash != GENESIS_PREV_HASH {
          return Some(GenesisPrevHash);
        }
        return None;
      }
      var previousBlock := blocks[index - 1];
      if currentBlock.height != previousBlock.height + 1 {
        return Some(HeightSequence);
      }
      if currentBlock.timestamp < previousBlock.timestamp {
        return Some(TimestampOrder);
      }
      if currentBlock.prevHash != previousBlock.hash {
        return Some(BrokenLink);
      }
      return None;
    }
  }

  datatype StartError = BadPolicy | BelowMinimum | AboveMaximum | GenesisNotMined(failure: MineFailure)

  /** Starts a chain, or says why not: exactly one of the two results is present. */
  method NewWithRetarget(lib: Library, difficulty: int, maxTxPerBlock: int, retarget: RetargetConfig,
                         input: MiningInput)
    returns (chain: Option<Chain>, error: Option<StartError>)
    requires RunsToEnd(lib, GenesisBlock(lib, StartDifficulty(difficulty)), GenesisInput(input))
    ensures chain.Some? <==> error.None?
    ensures chain.Some? <==> Started(lib, difficulty, maxTxPerBlock, retarget, input).Some?
    ensures chain.Some? ==>
              && fresh(chain.value)
              && chain.value.lib == lib
              && Started(lib, difficulty, maxTxPerBlock, retarget, input) == Some(chain.value.State())
    ensures error == Some(BadPolicy) <==> !retarget.Valid()
    ensures error == Some(BelowMinimum) <==>
              retarget.Valid() && StartDifficulty(difficulty) < retarget.minDifficulty
    ensures error == Some(AboveMaximum) <==>
              retarget.Valid() && StartDifficulty(difficulty) > retarget.maxDifficulty
    ensures error.Some? && StartAllowed(StartDifficulty(difficulty), retarget) ==>
              error == Some(GenesisNotMined(
                MineCall(lib, GenesisBlock(lib, StartDifficulty(difficulty)), GenesisInput(input)).failure))
  {
    hide Merkle.MerkleRoot, IsCompleteRun, Execute;
    var d := difficulty;
    if d < 0 {
      d := DEFAULT_DIFFICULTY;
    }
    var maxTx := maxTxPerBlock;
    if maxTx <= 0 {
      maxTx := DEFAULT_MAX_TX_PER_BLOCK;
    }
    if !retarget.Valid() {
      return None, Some(BadPolicy);
    }
    if d < retarget.minDifficulty {
      return None, Some(BelowMinimum);
    }
    if d > retarget.maxDifficulty {
      return None, Some(AboveMaximum);
    }
    var report := MineCall(lib, GenesisBlock(lib, d), GenesisInput(input));
    if report.NotMined? {
      return None, Some(GenesisNotMined(report.failure));
    }
    var created := new Chain(lib, ChainState([report.block], [], [DifficultyRule(0, d)], retarget, maxTx));
    return Some(created), None;
  }

  lemma NoTransactions(blocks: seq<Block>)
    ensures AllTransactions(blocks[..0]) == []
  {}

  lemma AllTransactionsNext(blocks: seq<Block>, i: nat)
    requires i < |blocks|
    ensures AllTransactions(blocks[..i + 1]) == AllTransactions(blocks[..i]) + blocks[i].transactions
  {
    assert blocks[..i + 1][..i] == blocks[..i];
  }

  lemma NotReplayed(lib: Library, a: seq<Transaction>, b: seq<Transaction>)
    requires !Replays(lib, a)
    ensures !Replays(lib, a + b)
  {
    hide Replays;
    if Replays(lib, a + b) {
      ReplayPrefix(lib, a, b);
    }
  }

  lemma ReplayOneMore(lib: Library, txs: seq<Transaction>, tx: Transaction)
    requires Replays(lib, txs)
    ensures var l := Replay(lib, Int64, EMPTY, txs).value;
            Replay(lib, Int64, EMPTY, txs + [tx])
            == if Rejects(lib, l, tx).None? then Some(Transferred(Int64, l, tx)) else None
  {
    hide Rejects, Transferred;
    assert (txs + [tx])[..|txs|] == txs;
  }
}
