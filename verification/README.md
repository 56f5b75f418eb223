# Toy blockchain: a Dafny model of mining, chain, ledger and Merkle trees

This project models the four linked parts of the toy blockchain and proves what they promise.

* **Mining** (`Mining`, `MiningProofs`, `MiningTheorems`, `MiningOutcomes`, `MiningRaces`). One call of `Block.Mine` is a transition
  system over values: workers with program counters, the shared attempt counter, the
  maximum-reached flag, the cancel flag, the one-slot result channel, the goroutine that closes
  `workersDone`, the caller with its nondeterministic `select`, and a parent context that may end at
  any time. The context check, the counter increment, the copy of the block, the hash, the send and
  the cancel are separate steps; the caller's two writes to the block are separate too, and the copy
  a worker takes may see any value in those two fields. A schedule is a sequence of enabled actions
  and every result holds for all of them.
* **Chain and forks** (`Difficulty`, `Chains`, `Forks` and their theorem modules). `Chain` is a class
  whose methods update its fields. Each method is proved against a function on the abstract value
  `ChainState`; the theorems are about those functions (`WorkTheorems` on what work is and how it decides
  forks), and `Runs` puts them together over arbitrary sequences of operations.
* **Ledger** (`Ledgers`, `LedgerTheorems`, `HoldingsTheorems`, `SignatureTheorems`). A class with
  two maps, proved against `Replay`. Balances are int64 and wrap as in the program; the next nonce is a
  uint64 and wraps too.
* **Merkle trees** (`Merkle`, `MerkleTopDown`, `MerkleTheorems`, `MerkleBinding`, `MerkleLengths`). The
  two level loops are proved against one recursive tree in which a missing right child is its left
  sibling.

SHA-256, JSON marshalling, Ed25519 verification and `sort.Slice` are function-valued fields of
`Library`, so each result holds for every such routine. The only facts used about them are the
32-byte digest, that sorting gives a sorted permutation, and, where a lemma asks for it, that
marshalling is injective (strings are valid UTF-8). Nothing assumes that SHA-256 has no collisions:
a binding result concludes "equal, or two different strings among those hashed here share a digest",
and the set of strings hashed is always a finite set named in the statement. The clock, the number of
processors, the state of the parent context and the thread schedule are inputs.

What the parts compute is also stated without naming the functions that compute it: the proof of work as
a bound on the digest read as a number (`MeetsDifficultyExactly`, `ValidExactly`), the work of a chain as
a sum over its difficulties (`WorkDecides`), balances as sums over the transactions (`HoldingsExactly`),
retargeting on the timestamps (`DifficultyFollowsPolicy`), the Merkle root by halves of the list
(`RootFromTheTop`), acceptance of a transaction through keys and signatures (`WellFormedExactly`).

Nine promises of the repository hold only under a condition. The model proves that they can fail and
exactly when they hold.

* **The reported attempt count is exact** (README of the repository, concurrent mining). It is for
  every schedule if and only if there is one worker or no schedule can succeed at all
  (`ReportsExactlyWhen`): with several workers any hit that can be delivered has a schedule that reports
  one attempt more than the hashes made (`ReportExceeds`). What the counter holds in general is
  `AttemptsAreExact`.
* **Mining succeeds when a hit exists.** Under a parent that stays open, every schedule succeeds if and
  only if a hit lies within the nonce cap and the attempt cap exceeds the number of nonces that can be
  hashed in vain (`AlwaysSucceedsWhen`); some schedule succeeds if and only if a hit lies within both
  caps (`CanSucceedExactly`); with one worker both come to the same (`OneWorkerSucceedsWhen`).
* **`ErrMaxNonce` means a complete search** if the parent context never ends. When it ends, before or
  during the call, both `ctx.Done()` and `workersDone` can be ready and the `select` may take either, so
  every call has a schedule that returns `ErrMaxNonce` without hashing anything
  (`EndedParentMayReportMaxNonce`).
* **A changed transaction is caught.** Chains with one tip hash have equal headers, but a block may
  differ by repeating grants it already holds at its end, because the tree repeats the last hash of an
  odd level and a grant carries no nonce. `RepeatedGrantGoesUnnoticed` gives the family,
  `TransactionAlternatives` says which other transactions a valid chain can hold under the same headers,
  in any block, `TipAlternatives` which at the tip, and `TipFixesTransactions` that nothing else
  changes, in particular nothing where no grant occurs twice.
* **An accepted inclusion proof shows inclusion.** The verifier checks neither the number of steps nor the
  length of the value or of a sibling. Wherever a string hashed for the tree is cut in two, the part is
  accepted as a value with the rest as its first sibling (`CutAccepted`): 64-byte pairs of digests give
  values of 0 to 64 bytes with up to depth steps, so even the empty text is accepted at exactly the
  depth, and transaction texts give values of any length up to their own, 32 bytes among them, with one
  step more. With at most depth + 1 steps, acceptance shows inclusion if and only if there are exactly
  depth steps and 32 bytes, or the value is too long to be cut from anything hashed at that level
  (`InclusionExactly`; the necessity is for lists whose hashed strings have distinct digests, with no
  text hashed inside the tree or beginning with a leaf hash). Nothing else is
  accepted: each of the last depth + 1 steps hashes the string of a node (`AcceptedStepIsHashedAt`), so
  the value is one end of such a string (`AcceptedValueEnds`), and in a still longer proof a digest is
  one end of a transaction's text (`LongProofDigestEnds`).
* **Mining is race-free.** A worker copies the block while the caller may write its nonce and hash. That
  race is reachable if and only if there are several workers and the attempt cap leaves room for one
  more attempt than some deliverable hit needs (`RacesExactlyWhen`); never for genesis
  (`OneWorkerNeverRaces`). It is harmless to what is hashed (`CopyHashesAlike`).
* **Merged pools hold nothing the adopted blocks confirm.** True of sends; a confirmed grant that either
  pool still offers is kept and would be minted again (`ConfirmedIsKeptExactly`,
  `ConfirmedGrantIsMintedAgain`).
* **Balances are conserved and never negative.** Grants are unlimited and a credit can wrap in int64.
  Value is conserved, balances stay non-negative and int64 is exact if and only if every accepted credit
  fits (`ConservationExactly`, `NegativeExactly`, `Int64IsExact`); each one that does not costs 2^64
  (`Int64LosesOnlyWraps`).
* **A mined chain validates.** `MineBlock` stamps the block with the clock and never compares it with
  the previous timestamp. A run of operations keeps the chain valid throughout if and only if no block
  is mined with a clock behind the tip, and the validity of the last state alone tells, because no
  operation repairs such a chain (`ReachableChainIsSafe`, `NeverRepaired`). A clock that does not run
  back is enough without forks (`MonotoneClockSuffices`); an adopted fork can put the tip ahead of it.

The repository's README calls the Merkle tree the standard binary pattern; the model follows the code,
where an odd level repeats its last hash. `RootsAgreeExactly` says which lists of equal tree depth share
a root, `DepthsDiffer` and `EmptyRoot` what it takes at different depths, which only a transaction with a
text of exactly 64 bytes (or none) can supply (`TextInsideLength`), and `RootFixesList` puts them
together. A proof k steps short shows an inner node of level k (`InnerNodeAccepted`,
`AcceptedValueIsNode`).

## Model

| member | source | states |
|---|---|---|
| MiningProofs.CopyHashesAlike | block/block.go:380-385 | What a worker hashes does not depend on the nonce and hash its copy of the block happened to see. |
| MiningProofs.StepKept | block/block.go:353-468 | Every step of every thread keeps the protocol invariant: which nonces are hashed, the attempt accounting, the fate of every result, the reasons for every cancellation. |
| MiningTheorems.MaxNonceMeansComplete | block/block.go:353-408 | If the call returns `ErrMaxNonce` and the parent never ended, every nonce up to the cap (all of uint64 without one) was hashed and none is a hit. |
| MiningTheorems.HitMeansSuccess | block/block.go:387-402 | No result is lost: once a hit is hashed the call succeeds, or its parent has ended and it reports that; it never reports exhausted limits. |
| ProofOfWork.MeetsDifficultyExactly | block/block.go:250-260 | A 32-byte digest meets difficulty d, exactly if d is in 0..64 and the digest, its bytes read as one big-endian number, is below 16^(64-d). |
| MiningTheorems.HitExactly | block/block.go:380-390 | A nonce is a hit, exactly if the digest of the header with that nonce, as a number, is below 16^(64-difficulty). |
| MiningTheorems.SuccessIsMined | block/block.go:417-468 | A success changes only nonce and hash; the hash is the hexadecimal digest of the header, which as a number is below 16^(64-difficulty), the nonce respects the cap and is the least hit in its residue class. |
| MiningOutcomes.AlwaysSucceedsWhen | block/block.go:353-408 | Under a parent that stays open every schedule succeeds, if and only if some admitted nonce is a hit and the attempt cap, if any, exceeds the number of nonces that lie before all hits of their stripes. |
| MiningOutcomes.CanSucceedExactly | block/block.go:359-402 | Some schedule succeeds, if and only if the first hit of some stripe lies within the nonce cap and within the attempt cap counted in rounds. |
| MiningOutcomes.SucceedsExactlyWhenPossible | block/block.go:309-469 | Without an attempt cap, or with one above the greatest admitted nonce, and with a parent that stays open, each schedule succeeds if and only if some admitted nonce is a hit. |
| MiningOutcomes.OneWorkerSucceedsWhen | block/block.go:490-496 | One worker under an open parent succeeds, in any schedule, if and only if a hit lies within both caps. |
| MiningTheorems.EndedParentMayReportMaxNonce | block/block.go:432-466 | Whether the parent ends before the call or during it, every call has a complete schedule that returns `ErrMaxNonce` with nothing hashed. |
| MiningTheorems.ParentIsReported | block/block.go:432-440 | `ErrMiningTimeout` is returned only if the parent's deadline passed, `ErrMiningCancelled` only if it was cancelled; an ended parent keeps its error. |
| MiningTheorems.AttemptsAreExact | block/block.go:371-378 | In every reachable state no nonce was hashed twice and the counter is the hashes made plus those in flight plus at most one increment per worker over the cap. |
| MiningTheorems.MaxAttemptsIsExact | block/block.go:373-378 | `ErrMaxAttempts` means exactly MaxAttempts distinct nonces were hashed and none is a hit, whatever the parent does. |
| MiningTheorems.SingleWorkerFindsLeast | block/block.go:359-408 | One worker returns the least hit of all nonces after exactly nonce + 1 attempts, which are exactly the hashes made. |
| MiningTheorems.GenesisDeterministic | block/block.go:490-496 | Two successful one-worker calls on one block agree on block and report, whatever the limits, parents and schedules. |
| MiningOutcomes.ReportExceeds | block/block.go:371-426 | With several workers, any hit that some schedule can deliver has a schedule that returns it and reports one attempt more than the hashes made. |
| MiningOutcomes.ReportsExactlyWhen | block/block.go:371-426 | Every successful schedule reports exactly the hashes made, if and only if there is one worker or no schedule succeeds. |
| MiningRaces.RacesExactlyWhen | block/block.go:380-421 | A state in which a worker is about to copy the block and the caller about to write to it is reachable, if and only if there are several workers and the attempt cap leaves room for one attempt more than some deliverable hit needs. |
| MiningRaces.OneWorkerNeverRaces | block/block.go:490-496 | With one worker no reachable state has such a race. |
| MiningTheorems.EndingsCancel | block/block.go:373-402 | A delivered result, an exhausted cap and a return all leave the shared context cancelled. |
| MiningTheorems.CancelStopsPromptly | block/block.go:359-364 | Once the context is cancelled, each worker hashes at most one more nonce. |
| MiningTheorems.NoDeadlock | block/block.go:417-468 | A call that has not returned always has an enabled step. |
| MiningTheorems.EveryRunEnds | block/block.go:359-408 | Every schedule is finite, bounded by the admitted nonces and the worker count. |
| MiningTheorems.CappedRunEnds | block/block.go:371-378 | With an attempt cap every schedule is bounded by the cap and the worker count alone. |
| MiningTheorems.EveryRunCanComplete | block/block.go:412-468 | From every reachable state some continuation lets the call return. |
| Blocks.SameHashSameHeader | block/block.go:227-248 | Equal block hashes mean equal height, timestamp, Merkle root, previous hash, nonce and difficulty, or the two header texts are a collision. |
| Hex.DecodesExactly | block/merkle_proof.go:107-132 | Decoding hexadecimal text reads exactly what encoding writes, in either letter case. |
| Merkle.CalculateMerkleRoot | block/merkle.go:38-101 | The level loop with duplication computes the root of the recursive tree. |
| MerkleTopDown.RootFromTheTop | block/merkle.go:38-101 | The root equals a second definition that halves the list from the top at the least sufficient depth, an empty right half repeating the left; the empty list has the digest of the empty string. |
| Merkle.GenerateMerkleProof | block/merkle_proof.go:25-96 | The second loop records the siblings on the path through the same tree, and refuses an index out of range. |
| Merkle.VerifyMerkleProof | block/merkle_proof.go:102-133 | Accepts exactly when replaying the proof from the decoded leaf gives the root; undecodable text is refused. |
| MerkleTheorems.ProofCompleteness | block/merkle_proof.go:48-95 | Every generated proof is accepted, and its length is the least k with 2^k at least the number of transactions. |
| MerkleTheorems.AcceptedValueIsNode | block/merkle_proof.go:102-133 | A proof of at most the depth accepted for a 32-byte hash shows it to be the node its turns lead to, as many levels up as the proof is short, or a collision. |
| MerkleTheorems.ProofSoundness | block/merkle_proof.go:102-133 | With exactly the depth and a value of 32 bytes, the value is the hash of the transaction the turns lead to, or a collision. |
| MerkleTheorems.IncludedTransaction | block/merkle_proof.go:98-133 | A transaction whose hash is accepted with such a proof is in the list, or a collision. |
| MerkleTheorems.InnerNodeAccepted | block/merkle_proof.go:107-132 | The length matters: every ancestor of a leaf, at every level up to the root, is accepted with the rest of the path of that leaf. |
| MerkleLengths.CutAccepted | block/merkle_proof.go:102-133 | No length is checked: the string hashed at any node or leaf, cut anywhere and from either side, gives an accepted value, with the rest as first sibling and the path from there; only strings of the tree are hashed on the way. |
| MerkleLengths.AcceptedStepIsHashedAt | block/merkle_proof.go:107-132 | Each of the last depth + 1 steps of an accepted proof, for values and siblings of any length, hashes exactly the string the tree hashes at the node its later turns lead to, or a collision. |
| MerkleLengths.AcceptedValueEnds | block/merkle_proof.go:107-132 | With 1 to depth + 1 steps the accepted value is the beginning (the end, for a left sibling) of the string hashed at that node; with depth + 1, of a transaction's text; or a collision. |
| MerkleLengths.LongProofDigestEnds | block/merkle_proof.go:107-132 | With more than depth + 1 steps a digest computed on the way begins or ends a transaction's text, or a collision. |
| MerkleLengths.InclusionExactly | block/merkle_proof.go:98-133 | For at most depth + 1 steps: acceptance shows inclusion, if and only if there are exactly depth steps and 32 bytes or the value is longer than every string hashed at that level; sufficiency for every list, necessity where no two hashed strings share a digest and no text coincides with an inner string or begins with a leaf hash. |
| MerkleBinding.RootsAgreeExactly | block/merkle.go:63-98 | For trees of equal depth, roots are equal exactly when every path from the root leads to the same leaf hash, collisions aside. |
| MerkleBinding.DepthsDiffer | block/merkle.go:63-98 | Trees of different depth share a root only if the text of the first transaction of the shallower list is hashed as two digests inside the deeper tree, or a collision. |
| MerkleBinding.EmptyRoot | block/merkle.go:38-42 | The empty list shares its root only with one transaction of empty text, or a collision. |
| MerkleBinding.TextInsideLength | block/merkle.go:74-98 | A transaction text can be one of the strings hashed inside a tree only if it is exactly 64 bytes long (empty, against the empty list). |
| MerkleBinding.RootFixesList | block/merkle.go:38-101 | Of two lists with one root the longer is the shorter followed by transactions it already holds, apart from the two cases above and collisions. |
| MerkleBinding.Binding | block/merkle.go:63-98 | Lists of equal length with one root are equal, or a collision. |
| MerkleBinding.RepeatedLastKeepsRoot | block/merkle.go:64-72 | Repeating the last transaction of a list of odd length at least 3 keeps the root. |
| Ledgers.Ledger.ValidateTransaction | ledger/ledger.go:59-89 | Refuses for the first failing reason in the program's order; what acceptance means is `AcceptedExactly`. |
| LedgerTheorems.AcceptedExactly | ledger/ledger.go:59-89 | Accepted exactly: a well-formed grant, or a well-formed send the sender can pay, numbered one above its last; a wrapped nonce counter accepts nothing. |
| SignatureTheorems.WellFormedExactly | block/block.go:99-199 | A transaction is well formed, exactly if it is a grant without nonce, key and signature, or carries a key whose address is the sender and that key's signature over sender, recipient, amount and nonce, with the stated field conditions. |
| SignatureTheorems.SendsAreSigned | ledger/ledger.go:59-89 | In an accepted history every send is signed by the key its account is named after. |
| SignatureTheorems.OneKeyPerAccount | block/block.go:62-67 | One account is spent from with one key, unless two keys share the first 20 bytes of their digests. |
| Ledgers.Ledger.Apply | ledger/ledger.go:92-105 | An accepted transaction moves its amount in int64 and records its nonce; a refused one changes nothing. |
| Ledgers.Ledger.ApplyBlock | ledger/ledger.go:108-121 | Applies the whole block exactly when it replays; otherwise stops at the first refused transaction with the ones before it applied. |
| Ledgers.Rebuild | ledger/ledger.go:124-134 | Succeeds exactly when the concatenated history replays from the empty ledger, and gives that ledger. |
| LedgerTheorems.Conservation | ledger/ledger.go:92-105 | In unbounded arithmetic the balances sum to the faucet amounts and none is negative. |
| LedgerTheorems.Int64IsExact | ledger/ledger.go:97-102 | For any sequence: the wrapping ledger and the unbounded one accept the same prefixes with the same balances, if and only if every accepted credit fits in int64. |
| LedgerTheorems.ConservationExactly | ledger/ledger.go:92-105 | For an accepted history the program's balances sum to the grants, if and only if every credit fits. |
| LedgerTheorems.NegativeExactly | ledger/ledger.go:97-102 | No accepted prefix shows a negative balance, if and only if every accepted credit fits. |
| HoldingsTheorems.HoldingsExactly | ledger/ledger.go:92-105 | After an accepted history each account holds what it received less what it sent, both summed over the transactions alone, modulo 2^64; exactly that, if and only if int64 can hold the difference. |
| HoldingsTheorems.FittingHoldings | ledger/ledger.go:92-105 | Where every credit fits each account holds exactly what it received less what it sent, and never less than nothing. |
| HoldingsTheorems.SendMoves | ledger/ledger.go:97-102 | An accepted send that fits takes its amount from the sender, gives it to the recipient and touches nobody else. |
| LedgerTheorems.BoundedConservation | ledger/ledger.go:92-105 | A total of at most 2^63-1 granted is sufficient: every credit fits, balances sum to the grants and none is negative. |
| LedgerTheorems.Int64LosesOnlyWraps | ledger/ledger.go:97-102 | With no bound at all, the int64 balances sum to the grants less 2^64 for every credit that does not fit. |
| LedgerTheorems.OverflowedGrantGoesNegative | ledger/ledger.go:102-102 | A credit that does not fit is accepted: two grants leave a balance of -2^63. |
| LedgerTheorems.LastNonceCounts | ledger/ledger.go:37-39 | The last nonce of an account is the number of its accepted sends, and the next nonce is one more. |
| LedgerTheorems.NonceIsRank | ledger/ledger.go:68-77 | In an accepted history the i-th signed transaction of a sender has nonce i. |
| LedgerTheorems.NoReplay | ledger/ledger.go:64-105 | No (sender, nonce) pair occurs twice; a sender's nonces increase. |
| Difficulty.ScanRules | chain/chain.go:132-156 | The pass over the sorted rules with a moving index computes the recurrence: rule at the height, else retarget, else previous value. |
| Difficulty.ComputeRetarget | chain/retarget.go:96-130 | One retarget in the program's steps; what the value is in terms of the timestamps is `RetargetFollowsPace`. |
| Difficulty.SortingIsIrrelevant | chain/chain.go:123-130 | For rules with distinct heights the order in the schedule does not matter. |
| Difficulty.DifficultyIsLocal | chain/chain.go:140-154 | A height's difficulty depends only on the rules up to it and the timestamps below it. |
| Difficulty.DifficultyInRange | chain/chain.go:118-157 | With rules and bounds in 0..64 every height's difficulty is in 0..64. |
| DifficultyTheorems.WindowsPartition | chain/retarget.go:86-107 | Each block from height 1 on lies in the window of exactly one retarget height; genesis in none. |
| DifficultyTheorems.RetargetBounded | chain/retarget.go:96-130 | A computed retarget lands in the bounds and moves by at most one from inside them. |
| DifficultyTheorems.RetargetFollowsPace | chain/retarget.go:106-130 | With t the time from the first to the last block of the window and E = (interval-1) * target: one up if 2(t+1) <= E, one down if t > 2E, else unchanged, then clamped into the bounds, whatever the difficulty before. |
| DifficultyTheorems.DifficultyFollowsPolicy | chain/chain.go:139-156 | At every height above 0 a rule for it decides; else an enabled policy applies that correction at multiples of the interval plus one, from the second window on, if the window exists; else the difficulty stays. |
| DifficultyTheorems.DisabledFollowsRules | chain/chain.go:118-157 | With retargeting off the last rule in force decides, whatever the blocks; 4 before the first rule. |
| DifficultyTheorems.KeptPaceMoves | chain/retarget.go:106-130 | k windows that all took under half (over twice) their target time, by their timestamps, without manual rules take d to min(Max, d+k) (max(Min, d-k)). |
| DifficultyTheorems.NextRetargetHeight | chain/retarget.go:63-82 | The least height above the tip at which the program retargets; -1 when retargeting is off. |
| Chains.Chain.ExpectedDifficulty | chain/chain.go:118-157 | Sorting and scanning give the policy's value at any height; what that value is, is `DifficultyFollowsPolicy`. |
| Chains.Chain.SetDifficulty | chain/chain.go:159-187 | Replaces the rule at the next height or adds one; refuses values outside 0..64. |
| Chains.Chain.AddTransaction | chain/chain.go:189-220 | Accepts a transaction exactly when blocks, pool and the transaction replay together; otherwise changes nothing. |
| Chains.Chain.MineBlock | chain/chain.go:222-265 | Runs one mining call on the next block; on success appends it and removes its batch from the pool, otherwise changes nothing. |
| Chains.Chain.ConfigureRetarget | chain/retarget.go:50-59 | Changes the policy only while genesis is the only block. |
| Chains.Chain.Validate | chain/chain.go:280-419 | Accepts exactly the valid chains; each chain-wide error is returned exactly on its own condition; a per-block error names the first offender and its first failing check, the blocks before it being a valid chain. |
| Chains.HeaderChecks | chain/chain.go:305-406 | The ordered checks on a header fail exactly when the declarative conditions on the block do. |
| ChainTheorems.ValidExactly | chain/chain.go:280-419 | A chain is accepted, exactly if the policy is usable, every block is worked at the policy's difficulty as a number, sits at its height, holds its root and the hash before and is not older than the block before, and the history replays. |
| Chains.NewWithRetarget | chain/chain.go:52-108 | Applies the defaults, mines genesis with one worker, and returns either the chain or the reason: a bad policy, a difficulty below or above the bounds, or the failure of mining. |
| ChainTheorems.PrefixClosed | chain/chain.go:305-416 | Every non-empty prefix of a valid chain is valid under the same policy. |
| ChainTheorems.AcceptedDifficulty | chain/chain.go:349-385 | Accepted difficulties lie in 0..64 and blocks sit at their heights. |
| ChainTheorems.SetDifficultyIsSafe | chain/chain.go:166-184 | SetDifficulty changes no height up to the tip and makes the next height exactly the new value. |
| ChainTheorems.AppendIsSafe | chain/retarget.go:96-105 | Appending a block changes the expected difficulty of no height up to the new one. |
| ChainTheorems.MineBlockKeepsHistory | chain/chain.go:232-262 | MineBlock leaves the sequence of block transactions followed by the pool unchanged. |
| ChainTheorems.MinedBlockIs | chain/chain.go:232-262 | The appended block has the next height, the clock's time, the tip's hash, the policy's difficulty and the first min(pool, cap) pending transactions with their root, which leave the pool; an empty pool is the only reason for `no pending`. |
| ChainTheorems.MinedChainValid | chain/chain.go:243-261 | After a success the chain validates if and only if the clock was not behind the tip. |
| ChainTheorems.StartsExactlyWhen | chain/chain.go:64-94 | Under an open parent a chain starts, in any schedule, if and only if the difficulty is within the bounds and a hit for genesis lies within both caps. |
| ChainTheorems.StartedIs | chain/chain.go:52-108 | A new chain is one worked genesis block at height and time 0 without transactions, an empty pool and one rule; negative difficulty means 4, block size below 1 means 10. |
| ChainTheorems.StartedChainsShareGenesis | chain/chain.go:87-94 | New chains of one difficulty share their genesis block, whatever else differs. |
| Forks.TotalWork | chain/fork.go:37-56 | The loop over the blocks computes the work that `WorkIsSum` states. |
| WorkTheorems.WorkIsSum | chain/fork.go:37-56 | The work of a chain is the sum of 16^difficulty over its difficulties alone, nothing for a negative one. |
| WorkTheorems.WorkTimesThreshold | chain/fork.go:39-42 | The work of a block of difficulty d times the bound 16^(64-d) on its digest is 2^256. |
| WorkTheorems.WorkDecides | chain/fork.go:115-119 | Between valid chains of one network the candidate is adopted, exactly if its sum of 16^difficulty is greater; not the number of blocks decides, and a tie changes nothing. |
| WorkTheorems.FewHarderBlocksWin | chain/fork.go:86-119 | After a common part, n blocks of difficulty d+1 beat m of difficulty d, exactly if 16n > m. |
| WorkTheorems.RefusedExactly | chain/fork.go:100-119 | Each reason of refusal on its own condition, in the program's order. |
| WorkTheorems.ReportIsRight | chain/fork.go:121-156 | An adoption reports both heights and works, the ancestor, the size of the new pool as kept and the rest of the offered as dropped. |
| Forks.CommonAncestorHeight | chain/fork.go:60-84 | The height of the last block of the longest prefix with equal hashes, -1 if there is none. |
| Forks.RevalidatePending | chain/fork.go:197-219 | Keeps, in order, each first occurrence that still replays, and counts kept and dropped. |
| Forks.ResolveFork | chain/fork.go:92-157 | Refuses for the first applicable reason and changes nothing, or adopts the candidate with the merged pool and reports it. |
| HistoryTheorems.TipFixesHeaders | chain/chain.go:338-405 | Valid chains with one tip hash have equal length and, at every height, equal height, timestamp, Merkle root, previous hash, nonce and difficulty, or a header collision. |
| HistoryTheorems.TipFixesTransactions | chain/chain.go:323-336 | Under one tip hash two versions of a block differ at most by repeating, at the end, grants the block holds, and not at all where no grant occurs twice; apart from collisions and a transaction text hashed inside the other tree. |
| HistoryTheorems.TransactionAlternatives | chain/chain.go:305-416 | Under the same headers other transactions, in any blocks, are valid if and only if every root stays and the whole history replays; each block then differs at most by repeated grants, collisions and confused texts aside. |
| HistoryTheorems.TipAlternatives | chain/chain.go:323-416 | Other transactions for the tip keep the tip hash; with one root and only repeated grants the chain stays valid, and when it stays valid that is the only difference, collisions and confused texts aside. |
| HistoryTheorems.RepeatedGrantGoesUnnoticed | block/merkle.go:64-72 | Tamper evidence fails for grants: the last grant of a tip with an odd number of at least three transactions can be given again; the chain validates with the same tip hash and more minted. |
| HistoryTheorems.AncestorIsHighest | chain/fork.go:58-84 | The first-mismatch loop finds the highest height with equal hashes, and all headers up to it agree, or a header collision. |
| HistoryTheorems.AdoptionForks | chain/fork.go:107-126 | On every adoption the ancestor is at least genesis and strictly below the new height, or a header collision. |
| ForkTheorems.MergedPoolIsSound | chain/fork.go:133-146 | The new pool is a duplicate-free, order-preserving selection that replays; kept is its length, and kept and dropped account for everything. |
| PoolTheorems.OfferedIsKeptExactly | chain/fork.go:197-219 | Each offered transaction in turn is kept, exactly if no earlier one has its identifier and it replays after the blocks and the pool as it then is. |
| ForkTheorems.CandidatePoolSurvives | chain/fork.go:133-140 | A candidate pool that replays and has no duplicates is kept whole at the front. |
| PoolTheorems.ConfirmedIsKeptExactly | chain/fork.go:133-146 | Of the offered transactions that the adopted blocks already confirm, exactly the grants enter the new pool, collisions of identifiers aside. |
| PoolTheorems.ConfirmedGrantIsMintedAgain | chain/fork.go:197-219 | A grant confirmed in the candidate and alone in the local pool stays pending on top of the blocks that hold it, and the history then mints it again. |
| ForkTheorems.ResolveForkKeeps | chain/fork.go:100-146 | Any candidate leaves a valid chain with a replayable pool; a rejection changes nothing; an adoption strictly increases work. |
| ForkTheorems.ForksEndAtMaximum | chain/fork.go:92-157 | Any list of candidates ends at the greatest work among the start and the eligible ones. |
| ForkTheorems.ForksConverge | chain/fork.go:86-91 | When the block list of greatest work is unique, every order of the candidates ends with it. |
| Runs.ReachableChainIsSafe | chain/chain.go:51-265 | Every sequence of operations from a new chain keeps it valid throughout, and ends with a valid chain, if and only if no block is mined with a clock behind the tip; then the pool replays on top of the blocks. |
| Runs.NeverRepaired | chain/fork.go:100-106 | A chain with a block older than the one before it keeps it through every sequence of operations, forks included. |
| Runs.MonotoneClockSuffices | chain/chain.go:243-247 | Without forks, a clock that starts at or after the tip and does not run back meets that condition. |
| Runs.ReachableNonceIsRank | ledger/ledger.go:68-77 | Over blocks and pool of a chain in use, every signed transaction carries its rank among those of its sender as nonce. |
| Runs.ReachableHistoryHasNoReplay | chain/chain.go:200-217 | Over blocks and pool of a chain in use, the nonces of a sender increase, so no send is replayed. |
| Runs.HistoryOnlyGrows | chain/chain.go:159-265 | Without forks, blocks and history only grow: nothing accepted is lost or reordered. |

## Left out

- MiningTheorems.MaxNonceMeansComplete: assumes the parent context never ends; without that the claim is false, as `EndedParentMayReportMaxNonce` shows for every call.
- MiningOutcomes.SucceedsExactlyWhenPossible: assumes an attempt cap that cannot bind; what every cap allows and forces is `CanSucceedExactly` and `AlwaysSucceedsWhen`.
- Runs.ReachableNonceIsRank: assumes blocks mined on time; otherwise the chain is invalid for good and every fork resolution refuses it.
- Runs.ReachableHistoryHasNoReplay: assumes blocks mined on time, for the same reason.
- MerkleLengths.InclusionExactly: proves the necessity for plain lists, and stops at depth + 1 steps; whether a longer proof is accepted at all depends on digests that begin or end a text, as `LongProofDigestEnds` says.
- LedgerTheorems.BoundedConservation: a sufficient bound only; the exact conditions are `ConservationExactly` and `NegativeExactly`.
- Block is a value: a mined block is never changed in place by the chain code, so chains share no mutable block in the model, and the JSON round trip of `cloneChain` is a copy of values. Nil block pointers are not modelled.
- `Mine` is a transition system over values and not a method on a block object, because its threads interleave; data races are modelled only in the block copy.
- Overflow of the attempts counter and of the seconds computed for retargeting: mathematical integers.
- Configurations with retargeting on and an interval below 1, and a negative block size: the program panics there, and the methods require their absence.
- `Save`, `Load`, the file lock, the command line, wallets and `Block.String`: files, processes and display.
- `Transaction.Sign`, key generation and the internals of SHA-256 and Ed25519.
- Elapsed time in the mining report, and error texts: errors are enumerated values.
