/** Whole runs: any sequence of operations on a chain made by `NewWithRetarget`. */
module Runs {
  import opened Records
  import opened Blocks
  import opened Chains
  import opened ChainTheorems
  import opened Difficulty
  import opened Forks
  import opened ForkTheorems
  import opened Ledgers
  import opened LedgerTheorems
  import Merkle

  datatype Operation =
    | AddTransaction(tx: Transaction)
    | SetDifficulty(difficulty: int)
    | ConfigureRetarget(config: RetargetConfig)
    | MineBlock(input: MiningInput)
    | ResolveFork(candidate: ChainState)

  /** A mining call is given a schedule that runs to its end; nothing else is asked of the environment. */
  ghost predicate Runnable(lib: Library, cs: ChainState, op: Operation) {
    op.MineBlock? ==> MayMine(lib, cs, op.input)
  }

  /** The state each method of the chain object leaves. */
  ghost function After(lib: Library, cs: ChainState, op: Operation): ChainState
    requires cs.blocks != [] && Runnable(lib, cs, op)
  {
    match op
    case AddTransaction(tx) => AfterAddTransaction(lib, cs, tx)
    case SetDifficulty(difficulty) => AfterSetDifficulty(cs, difficulty)
    case ConfigureRetarget(config) => AfterConfigure(cs, config)
    case MineBlock(input) => AfterMineBlock(lib, cs, input)
    case ResolveFork(candidate) => AfterFork(lib, cs, candidate)
  }

  ghost predicate IsUse(lib: Library, cs: ChainState, ops: seq<Operation>)
    decreases |ops|
  {
    || ops == []
    || (cs.blocks != [] && Runnable(lib, cs, ops[0]) && IsUse(lib, After(lib, cs, ops[0]), ops[1..]))
  }

  ghost function AfterAll(lib: Library, cs: ChainState, ops: seq<Operation>): ChainState
    requires IsUse(lib, cs, ops)
    decreases |ops|
  {
    if ops == [] then cs else AfterAll(lib, After(lib, cs, ops[0]), ops[1..])
  }

  // ---------- time ----------

  /** If the operation mines a block, its clock is not behind the tip. */
  ghost predicate Timely(lib: Library, cs: ChainState, op: Operation)
    requires cs.blocks != [] && Runnable(lib, cs, op)
  {
    op.MineBlock? && MineBlockReport(lib, cs, op.input).Mined? ==> op.input.now >= cs.Latest().timestamp
  }

  /** Every block of the run was mined on time. */
  ghost predicate OnTime(lib: Library, cs: ChainState, ops: seq<Operation>)
    requires IsUse(lib, cs, ops)
    decreases |ops|
  {
    ops == [] || (Timely(lib, cs, ops[0]) && OnTime(lib, After(lib, cs, ops[0]), ops[1..]))
  }

  /** The chain validates before the run and after each of its operations. */
  ghost predicate StaysValid(lib: Library, cs: ChainState, ops: seq<Operation>)
    requires IsUse(lib, cs, ops)
    decreases |ops|
  {
    ValidChain(lib, cs) && (ops == [] || StaysValid(lib, After(lib, cs, ops[0]), ops[1..]))
  }

  lemma OperationKeeps(lib: Library, cs: ChainState, op: Operation)
    requires ChainInv(lib, cs) && Runnable(lib, cs, op)
    ensures cs.blocks != []
    ensures Timely(lib, cs, op) ==> ChainInv(lib, After(lib, cs, op))
    ensures !Timely(lib, cs, op) ==> !ValidChain(lib, After(lib, cs, op))
  {
    hide Replays, AllTransactions, SoundPolicy, BlockOk, MayMine, MineBlockReport;
    hide AfterMineBlock, AfterFork, AfterSetDifficulty, AfterConfigure, AfterAddTransaction;
    match op
    case AddTransaction(tx) => AddTransactionKeeps(lib, cs, tx);
    case SetDifficulty(difficulty) => SetDifficultyKeeps(lib, cs, difficulty);
    case ConfigureRetarget(config) => ConfigureKeeps(lib, cs, config);
    case MineBlock(input) => MiningKeeps(lib, cs, input);
    case ResolveFork(candidate) => ResolveForkKeeps(lib, cs, candidate);
  }

  lemma MiningKeeps(lib: Library, cs: ChainState, input: MiningInput)
    requires ChainInv(lib, cs) && MayMine(lib, cs, input)
    ensures Timely(lib, cs, MineBlock(input)) ==> ChainInv(lib, AfterMineBlock(lib, cs, input))
    ensures !Timely(lib, cs, MineBlock(input)) ==> !ValidChain(lib, AfterMineBlock(lib, cs, input))
  {
    hide BlockOk, Replays, AllTransactions, SoundPolicy, MayMine, MineBlockReport, AfterMineBlock;
    MineBlockKeepsHistory(lib, cs, input);
    if MineBlockReport(lib, cs, input).Mined? {
      MinedChainValid(lib, cs, input);
      if input.now >= cs.Latest().timestamp {
        MineBlockKeeps(lib, cs, input);
      }
    }
  }

  /** Some block is older than the one before it. */
  ghost predicate OutOfOrder(blocks: seq<Block>) {
    exists i :: 0 <= i < |blocks| - 1 && blocks[i + 1].timestamp < blocks[i].timestamp
  }

  lemma OutOfOrderIsInvalid(lib: Library, cs: ChainState)
    requires OutOfOrder(cs.blocks)
    ensures !ValidChain(lib, cs)
  {
    hide ExpectedAt, Replays, AllTransactions, Merkle.MerkleRoot;
    var i :| 0 <= i < |cs.blocks| - 1 && cs.blocks[i + 1].timestamp < cs.blocks[i].timestamp;
    assert ValidChain(lib, cs) ==> BlockOk(lib, cs, i + 1);
  }

  lemma PrefixOutOfOrder(a: seq<Block>, b: seq<Block>)
    requires OutOfOrder(a) && a <= b
    ensures OutOfOrder(b)
  {
    var i :| 0 <= i < |a| - 1 && a[i + 1].timestamp < a[i].timestamp;
    assert b[i] == a[i] && b[i + 1] == a[i + 1];
  }

  lemma UntimelyIsOutOfOrder(lib: Library, cs: ChainState, op: Operation)
    requires cs.blocks != [] && Runnable(lib, cs, op) && !Timely(lib, cs, op)
    ensures OutOfOrder(After(lib, cs, op).blocks)
  {
    hide MineCall, RunsToEnd, ExpectedAt, Merkle.MerkleRoot, ComputeHash, MeetsDifficulty;
    MineCallMines(lib, NextBlock(lib, cs, op.input.now), op.input);
    var blocks, n := After(lib, cs, op).blocks, |cs.blocks|;
    assert blocks[n - 1] == cs.Latest() && blocks[n].timestamp == op.input.now;
    assert blocks[(n - 1) + 1].timestamp < blocks[n - 1].timestamp;
  }

  lemma OperationRepairsNothing(lib: Library, cs: ChainState, op: Operation)
    requires cs.blocks != [] && Runnable(lib, cs, op) && OutOfOrder(cs.blocks)
    ensures OutOfOrder(After(lib, cs, op).blocks)
  {
    hide ValidChain, OutOfOrder, AfterMineBlock, AfterSetDifficulty, AfterConfigure, AfterAddTransaction, MayMine;
    if op.ResolveFork? {
      OutOfOrderIsInvalid(lib, cs);
    } else {
      OperationAppends(lib, cs, op);
      PrefixOutOfOrder(cs.blocks, After(lib, cs, op).blocks);
    }
  }

  /** No operation repairs a chain with a block mined behind the tip: it is only ever extended, and fork
    resolution refuses it. */
  lemma {:induction false} NeverRepaired(lib: Library, cs: ChainState, ops: seq<Operation>)
    requires IsUse(lib, cs, ops) && OutOfOrder(cs.blocks)
    ensures OutOfOrder(AfterAll(lib, cs, ops).blocks)
    decreases |ops|
  {
    hide Runnable, After, OutOfOrder;
    if ops != [] {
      OperationRepairsNothing(lib, cs, ops[0]);
      NeverRepaired(lib, After(lib, cs, ops[0]), ops[1..]);
    }
  }

  /** A run keeps the chain valid throughout, and ends with a valid chain, exactly if every block of it
    was mined on time. */
  lemma {:induction false} UseKeeps(lib: Library, cs: ChainState, ops: seq<Operation>)
    requires ChainInv(lib, cs) && IsUse(lib, cs, ops)
    ensures OnTime(lib, cs, ops) <==> StaysValid(lib, cs, ops)
    ensures OnTime(lib, cs, ops) <==> ValidChain(lib, AfterAll(lib, cs, ops))
    ensures OnTime(lib, cs, ops) ==> ChainInv(lib, AfterAll(lib, cs, ops))
    decreases |ops|
  {
    hide Replays, SoundPolicy, BlockOk, AllTransactions, Runnable, After, Timely, OutOfOrder;
    if ops != [] {
      OperationKeeps(lib, cs, ops[0]);
      if Timely(lib, cs, ops[0]) {
        UseKeeps(lib, After(lib, cs, ops[0]), ops[1..]);
      } else {
        UntimelyIsOutOfOrder(lib, cs, ops[0]);
        NeverRepaired(lib, After(lib, cs, ops[0]), ops[1..]);
        OutOfOrderIsInvalid(lib, AfterAll(lib, cs, ops));
      }
    }
  }

  /** From a new chain, every run with timely blocks validates throughout and ends with a pool that
    replays on top of the blocks. A block mined behind the tip makes the chain invalid for good, so the
    validity of the last state alone decides. */
  lemma ReachableChainIsSafe(lib: Library, difficulty: int, maxTxPerBlock: int, retarget: RetargetConfig,
                             genesis: MiningInput, ops: seq<Operation>)
    requires RunsToEnd(lib, GenesisBlock(lib, StartDifficulty(difficulty)), GenesisInput(genesis))
    requires Started(lib, difficulty, maxTxPerBlock, retarget, genesis).Some?
    requires IsUse(lib, Started(lib, difficulty, maxTxPerBlock, retarget, genesis).value, ops)
    ensures var start := Started(lib, difficulty, maxTxPerBlock, retarget, genesis).value;
            && (OnTime(lib, start, ops) <==> StaysValid(lib, start, ops))
            && (OnTime(lib, start, ops) <==> ValidChain(lib, AfterAll(lib, start, ops)))
            && (OnTime(lib, start, ops) ==> Replays(lib, AfterAll(lib, start, ops).History()))
  {
    hide ValidChain, Replays, RunsToEnd, Started, SoundPolicy, IsUse, OnTime, StaysValid, AfterAll;
    StartedIsValid(lib, difficulty, maxTxPerBlock, retarget, genesis);
    UseKeeps(lib, Started(lib, difficulty, maxTxPerBlock, retarget, genesis).value, ops);
  }

  /** The clocks of the mining calls never fall below a time, nor below one another in their order. */
  predicate ClockFrom(time: int, ops: seq<Operation>)
    decreases |ops|
  {
    || ops == []
    || (if ops[0].MineBlock? then ops[0].input.now >= time && ClockFrom(ops[0].input.now, ops[1..])
        else ClockFrom(time, ops[1..]))
  }

  /** Without forks, a clock that starts at or after the tip and does not run back keeps a run on time.
    After a fork it may not: the adopted tip can be ahead of this clock. */
  lemma {:induction false} MonotoneClockSuffices(lib: Library, cs: ChainState, ops: seq<Operation>, time: int)
    requires IsUse(lib, cs, ops) && (forall op :: op in ops ==> !op.ResolveFork?)
    requires cs.blocks != [] && cs.Latest().timestamp <= time && ClockFrom(time, ops)
    ensures OnTime(lib, cs, ops)
    decreases |ops|
  {
    hide Runnable, After;
    if ops != [] {
      var op := ops[0];
      assert ops == [op] + ops[1..];
      TipFollowsClock(lib, cs, op);
      MonotoneClockSuffices(lib, After(lib, cs, op), ops[1..], if op.MineBlock? then op.input.now else time);
    }
  }

  lemma TipFollowsClock(lib: Library, cs: ChainState, op: Operation)
    requires cs.blocks != [] && Runnable(lib, cs, op) && !op.ResolveFork?
    ensures var after := After(lib, cs, op);
            && after.blocks != []
            && (after.Latest() == cs.Latest() || (op.MineBlock? && after.Latest().timestamp == op.input.now))
  {
    hide Replays, AllTransactions, MineCall, RunsToEnd, WithRule, ExpectedAt, Merkle.MerkleRoot;
    match op
    case AddTransaction(_) =>
    case SetDifficulty(_) =>
    case ConfigureRetarget(_) =>
    case MineBlock(input) =>
      if MineBlockReport(lib, cs, input).Mined? {
        MineCallMines(lib, NextBlock(lib, cs, input.now), input);
      }
    case ResolveFork(_) =>
  }

  // ---------- histories ----------

  /** Over blocks and pool of a chain in use, the i-th signed transaction of a sender has nonce i. */
  lemma ReachableNonceIsRank(lib: Library, cs: ChainState, ops: seq<Operation>, i: nat)
    requires ChainInv(lib, cs) && IsUse(lib, cs, ops) && OnTime(lib, cs, ops)
    requires i < |AfterAll(lib, cs, ops).History()|
    ensures var history := AfterAll(lib, cs, ops).History();
            history[i].sender != FAUCET_ACCOUNT ==> history[i].nonce == Sends(history[..i], history[i].sender) + 1
  {
    hide ValidChain, Replays, SoundPolicy, IsUse, OnTime, StaysValid, AfterAll, Sends;
    UseKeeps(lib, cs, ops);
    var history := AfterAll(lib, cs, ops).History();
    if history[i].sender != FAUCET_ACCOUNT {
      NonceIsRank(lib, history, i);
    }
  }

  /** And no (sender, nonce) pair occurs twice: nonces of one sender increase. */
  lemma ReachableHistoryHasNoReplay(lib: Library, cs: ChainState, ops: seq<Operation>, i: nat, j: nat)
    requires ChainInv(lib, cs) && IsUse(lib, cs, ops) && OnTime(lib, cs, ops)
    requires i < j < |AfterAll(lib, cs, ops).History()|
    ensures var history := AfterAll(lib, cs, ops).History();
            history[i].sender == history[j].sender != FAUCET_ACCOUNT ==> history[i].nonce < history[j].nonce
  {
    hide ValidChain, Replays, SoundPolicy, IsUse, OnTime, StaysValid, AfterAll;
    UseKeeps(lib, cs, ops);
    var history := AfterAll(lib, cs, ops).History();
    if history[i].sender == history[j].sender != FAUCET_ACCOUNT {
      NoReplay(lib, history, i, j);
    }
  }

  /** Without forks, blocks and history only grow: nothing confirmed or accepted is lost or reordered. */
  lemma {:induction false} HistoryOnlyGrows(lib: Library, cs: ChainState, ops: seq<Operation>)
    requires IsUse(lib, cs, ops)
    requires forall op :: op in ops ==> !op.ResolveFork?
    ensures cs.blocks <= AfterAll(lib, cs, ops).blocks
    ensures cs.History() <= AfterAll(lib, cs, ops).History()
    decreases |ops|
  {
    hide Runnable, After, ChainState.History;
    if ops != [] {
      assert ops == [ops[0]] + ops[1..];
      OperationAppends(lib, cs, ops[0]);
      HistoryOnlyGrows(lib, After(lib, cs, ops[0]), ops[1..]);
    }
  }

  lemma OperationAppends(lib: Library, cs: ChainState, op: Operation)
    requires cs.blocks != [] && Runnable(lib, cs, op) && !op.ResolveFork?
    ensures cs.blocks <= After(lib, cs, op).blocks
    ensures cs.History() <= After(lib, cs, op).History()
  {
    hide Replays, MineBlockReport, AllTransactions, MayMine, WithRule;
    match op
    case AddTransaction(tx) =>
      if Replays(lib, cs.History() + [tx]) {
        assert After(lib, cs, op).History() == cs.History() + [tx];
      }
    case SetDifficulty(_) =>
    case ConfigureRetarget(_) =>
    case MineBlock(input) => MineBlockKeepsHistory(lib, cs, input);
    case ResolveFork(_) =>
  }
}
