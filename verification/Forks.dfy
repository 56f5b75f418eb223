/** Fork resolution (chain/fork.go). */
module Forks {
  import opened Records
  import opened Chains
  import opened Integers
  import opened Ledgers
  import Merkle

  // ---------- work ----------

  /** The expected work of one block; a negative difficulty counts for nothing. */
  function BlockWork(b: Block): nat {
    if b.difficulty < 0 then 0 else Power(16, b.difficulty)
  }

  function WorkOf(blocks: seq<Block>): nat {
    if blocks == [] then 0 else WorkOf(blocks[..|blocks| - 1]) + BlockWork(blocks[|blocks| - 1])
  }

  method TotalWork(c: Chain) returns (total: nat)
    ensures total == WorkOf(c.blocks)
  {
    total := 0;
    for i := 0 to |c.blocks|
      invariant total == WorkOf(c.blocks[..i])
    {
      assert c.blocks[..i + 1][..i] == c.blocks[..i];
      if c.blocks[i].difficulty >= 0 {
        total := total + Power(16, c.blocks[i].difficulty);
      }
    }
    assert c.blocks[..|c.blocks|] == c.blocks;
  }

  // ---------- common ancestor ----------

  /** The number of leading blocks with pairwise equal hashes. */
  function AgreedPrefix(a: seq<Block>, b: seq<Block>): (k: nat)
    ensures k <= |a| && k <= |b|
    ensures forall i :: 0 <= i < k ==> a[i].hash == b[i].hash
    ensures k < |a| && k < |b| ==> a[k].hash != b[k].hash
  {
    if a == [] || b == [] || a[0].hash != b[0].hash then 0 else 1 + AgreedPrefix(a[1..], b[1..])
  }

  lemma {:induction false} AgreedPrefixUnique(a: seq<Block>, b: seq<Block>, k: nat)
    requires k <= |a| && k <= |b|
    requires forall i :: 0 <= i < k ==> a[i].hash == b[i].hash
    requires k == |a| || k == |b| || a[k].hash != b[k].hash
    ensures AgreedPrefix(a, b) == k
  {
    if k > 0 {
      assert a[0].hash == b[0].hash;
      AgreedPrefixUnique(a[1..], b[1..], k - 1);
    }
  }

  function AncestorHeight(a: seq<Block>, b: seq<Block>): int {
    var k := AgreedPrefix(a, b);
    if k == 0 then -1 else a[k - 1].height
  }

  method CommonAncestorHeight(c: Chain, candidate: Chain) returns (ancestor: int)
    ensures ancestor == AncestorHeight(c.blocks, candidate.blocks)
  {
    var limit := |c.blocks|;
    if |candidate.blocks| < limit {
      limit := |candidate.blocks|;
    }
    ancestor := -1;
    var index := 0;
    while index < limit
      invariant 0 <= index <= limit
      invariant forall i :: 0 <= i < index ==> c.blocks[i].hash == candidate.blocks[i].hash
      invariant ancestor == if index == 0 then -1 else c.blocks[index - 1].height
    {
      if c.blocks[index].hash != candidate.blocks[index].hash {
        break;
      }
      ancestor := c.blocks[index].height;
      index := index + 1;
    }
    AgreedPrefixUnique(c.blocks, candidate.blocks, index);
  }

  // ---------- the merged pool ----------

  /** The pool built so far, the identifiers met and the two counts. */
  datatype Merge = Merge(chain: ChainState, seen: set<string>, kept: nat, dropped: nat)

  function MergeOne(lib: Library, m: Merge, tx: Transaction): Merge {
    var id := Merkle.TransactionHash(lib, tx);
    if id in m.seen then m.(dropped := m.dropped + 1)
    else if Replays(lib, m.chain.History() + [tx]) then
      Merge(m.chain.(pending := m.chain.pending + [tx]), m.seen + {id}, m.kept + 1, m.dropped)
    else Merge(m.chain, m.seen + {id}, m.kept, m.dropped + 1)
  }

  function MergeAll(lib: Library, target: ChainState, txs: seq<Transaction>): Merge {
    if txs == [] then Merge(target, {}, 0, 0)
    else MergeOne(lib, MergeAll(lib, target, txs[..|txs| - 1]), txs[|txs| - 1])
  }

  method RevalidatePending(target: Chain, transactions: seq<Transaction>) returns (kept: nat, dropped: nat)
    modifies target`pending
    ensures var m := MergeAll(target.lib, old(target.State()), transactions);
            target.State() == m.chain && kept == m.kept && dropped == m.dropped
  {
    hide Merkle.TransactionHash, Replays, AllTransactions;
    var seen: set<string> := {};
    kept, dropped := 0, 0;
    ghost var start := target.State();
    for i := 0 to |transactions|
      invariant MergeAll(target.lib, start, transactions[..i]) == Merge(target.State(), seen, kept, dropped)
    {
      assert transactions[..i + 1][..i] == transactions[..i];
      var identifier := Merkle.TransactionHash(target.lib, transactions[i]);
      if identifier in seen {
        dropped := dropped + 1;
        continue;
      }
      seen := seen + {identifier};
      var error := target.AddTransaction(transactions[i]);
      if error.Some? {
        dropped := dropped + 1;
        continue;
      }
      kept := kept + 1;
    }
    assert transactions[..|transactions|] == transactions;
  }

  // ---------- resolution ----------

  datatype ForkError =
    | CurrentInvalid
    | CandidateInvalid
    | DifferentGenesis
    | IncompatibleConsensus
    | CandidateNotStronger

  predicate SamePolicy(lib: Library, a: ChainState, b: ChainState) {
    && a.retarget == b.retarget
    && a.maxTxPerBlock == b.maxTxPerBlock
    && lib.sortRules(a.schedule) == lib.sortRules(b.schedule)
  }

  /** The first reason to refuse a candidate. */
  ghost function Refusal(lib: Library, c: ChainState, candidate: ChainState): Option<ForkError> {
    if !ValidChain(lib, c) then Some(CurrentInvalid)
    else if !ValidChain(lib, candidate) then Some(CandidateInvalid)
    else if c.blocks[0].hash != candidate.blocks[0].hash then Some(DifferentGenesis)
    else if !SamePolicy(lib, c, candidate) then Some(IncompatibleConsensus)
    else if WorkOf(candidate.blocks) <= WorkOf(c.blocks) then Some(CandidateNotStronger)
    else None
  }

  /** The candidate with the merged pool: its own pending transactions first. */
  function MergedPool(lib: Library, c: ChainState, candidate: ChainState): Merge {
    MergeAll(lib, candidate.(pending := []), candidate.pending + c.pending)
  }

  ghost function AfterFork(lib: Library, c: ChainState, candidate: ChainState): ChainState {
    if Refusal(lib, c, candidate).Some? then c else MergedPool(lib, c, candidate).chain
  }

  datatype ForkReport = ForkReport(
    oldHeight: int,
    newHeight: int,
    commonAncestor: int,
    oldWork: nat,
    newWork: nat,
    pendingKept: nat,
    pendingDropped: nat)

  datatype ForkResult = Adopted(report: ForkReport) | Rejected(error: ForkError)

  ghost function ForkOutcome(lib: Library, c: ChainState, candidate: ChainState): ForkResult {
    var refusal := Refusal(lib, c, candidate);
    if refusal.Some? then Rejected(refusal.value)
    else
      var m := MergedPool(lib, c, candidate);
      Adopted(ForkReport(c.Latest().height, candidate.Latest().height, AncestorHeight(c.blocks, candidate.blocks),
                         WorkOf(c.blocks), WorkOf(candidate.blocks), m.kept, m.dropped))
  }

  method SameDifficultySchedule(lib: Library, left: seq<DifficultyRule>, right: seq<DifficultyRule>)
    returns (same: bool)
    ensures same <==> lib.sortRules(left) == lib.sortRules(right)
  {
    var leftCopy := lib.sortRules(left);
    var rightCopy := lib.sortRules(right);
    if |leftCopy| != |rightCopy| {
      return false;
    }
    for index := 0 to |leftCopy|
      invariant leftCopy[..index] == rightCopy[..index]
    {
      if leftCopy[index] != rightCopy[index] {
        return false;
      }
    }
    return true;
  }

  lemma {:induction false} MergeKeepsBlocks(lib: Library, target: ChainState, txs: seq<Transaction>)
    ensures var m := MergeAll(lib, target, txs); m.chain == target.(pending := m.chain.pending)
    decreases |txs|
  {
    hide Replays, Merkle.TransactionHash;
    if txs != [] {
      MergeKeepsBlocks(lib, target, txs[..|txs| - 1]);
    }
  }

  method ResolveFork(c: Chain, candidate: Chain) returns (result: ForkResult)
    requires c.lib == candidate.lib
    modifies c
    ensures result == ForkOutcome(c.lib, old(c.State()), old(candidate.State()))
    ensures c.State() == AfterFork(c.lib, old(c.State()), old(candidate.State()))
  {
    hide ValidChain, WorkOf, AncestorHeight, MergeAll, Chains.FirstOffender;
    ghost var cs, other := c.State(), candidate.State();
    var currentError := c.Validate();
    if currentError.Some? {
      return Rejected(CurrentInvalid);
    }
    var candidateError := candidate.Validate();
    if candidateError.Some? {
      return Rejected(CandidateInvalid);
    }
    ValidIsNonEmpty(c.lib, cs);
    ValidIsNonEmpty(c.lib, other);
    if c.blocks[0].hash != candidate.blocks[0].hash {
      return Rejected(DifferentGenesis);
    }
    var same := SameDifficultySchedule(c.lib, c.schedule, candidate.schedule);
    if c.retarget != candidate.retarget || c.maxTxPerBlock != candidate.maxTxPerBlock || !same {
      return Rejected(IncompatibleConsensus);
    }
    var oldWork := TotalWork(c);
    var newWork := TotalWork(candidate);
    if newWork <= oldWork {
      return Rejected(CandidateNotStronger);
    }
    var commonAncestor := CommonAncestorHeight(c, candidate);
    var oldHeight := c.Latest().height;
    var copied :=
      ChainState(candidate.blocks, [], candidate.schedule, candidate.retarget, candidate.maxTxPerBlock);
    var copy := new Chain(c.lib, copied);
    assert copy.State() == other.(pending := []);
    var kept, dropped := RevalidatePending(copy, candidate.pending + c.pending);
    MergeKeepsBlocks(c.lib, other.(pending := []), other.pending + cs.pending);
    c.blocks := copy.blocks;
    c.pending := copy.pending;
    c.schedule := copy.schedule;
    c.retarget := copy.retarget;
    c.maxTxPerBlock := copy.maxTxPerBlock;
    return Adopted(ForkReport(oldHeight, c.Latest().height, commonAncestor, oldWork, newWork, kept, dropped));
  }

  lemma ValidIsNonEmpty(lib: Library, cs: ChainState)
    requires ValidChain(lib, cs)
    ensures cs.blocks != []
  {}
}
