/** Merkle roots and inclusion proofs (block/merkle.go, block/merkle_proof.go).

  The program computes roots and proofs with two separate bottom-up loops. Both are proved
  against one tree: `Node(leaves, k, j)` is the digest at position j of level k, and a missing
  right child is its left sibling again. */
module Merkle {
  import opened Integers
  import opened Records
  import Hex

  datatype ProofStep = ProofStep(hash: string, left: bool)

  function LeafHash(lib: Library, tx: Transaction): Digest {
    lib.sha256(lib.marshalTransaction(tx))
  }

  function TransactionHash(lib: Library, tx: Transaction): string {
    Hex.Encode(LeafHash(lib, tx))
  }

  function Leaves(lib: Library, txs: seq<Transaction>): (leaves: seq<Digest>)
    ensures |leaves| == |txs|
    ensures forall i :: 0 <= i < |txs| ==> leaves[i] == LeafHash(lib, txs[i])
  {
    seq(|txs|, i requires 0 <= i < |txs| => LeafHash(lib, txs[i]))
  }

  function Join(left: Bytes, right: Bytes): Bytes { left + right }

  // ---------- the tree ----------

  /** The number of nodes at level k above n leaves. */
  function Width(n: nat, k: nat): (w: nat)
    ensures n > 0 ==> w > 0
  {
    if k == 0 then n else (Width(n, k - 1) + 1) / 2
  }

  function Depth(n: nat): nat {
    if n <= 1 then 0 else 1 + Depth((n + 1) / 2)
  }

  /** The right child of node j in a level of w children: the left child again when the level is odd. */
  function RightChild(w: nat, j: nat): nat {
    if 2 * j + 1 < w then 2 * j + 1 else 2 * j
  }

  function Node(lib: Library, leaves: seq<Digest>, k: nat, j: nat): Digest
    requires j < Width(|leaves|, k)
    decreases k, 1
  {
    if k == 0 then leaves[j] else lib.sha256(Preimage(lib, leaves, k, j))
  }

  /** The 64 bytes hashed to obtain node j of level k. */
  function Preimage(lib: Library, leaves: seq<Digest>, k: nat, j: nat): (b: Bytes)
    requires k > 0 && j < Width(|leaves|, k)
    ensures |b| == 64
    decreases k, 0
  {
    Join(Node(lib, leaves, k - 1, 2 * j), Node(lib, leaves, k - 1, RightChild(Width(|leaves|, k - 1), j)))
  }

  function Row(lib: Library, leaves: seq<Digest>, k: nat): (row: seq<Digest>)
    ensures |row| == Width(|leaves|, k)
    ensures forall j :: 0 <= j < |row| ==> row[j] == Node(lib, leaves, k, j)
  {
    seq(Width(|leaves|, k), j requires 0 <= j < Width(|leaves|, k) => Node(lib, leaves, k, j))
  }

  lemma LeavesAreRow(lib: Library, leaves: seq<Digest>)
    ensures Row(lib, leaves, 0) == leaves
  {
    assert |Row(lib, leaves, 0)| == |leaves|;
  }

  lemma {:induction false} DepthSplits(n: nat, k: nat)
    requires n > 0
    requires k <= Depth(n)
    ensures Depth(n) == k + Depth(Width(n, k))
  {
    if k > 0 {
      DepthSplits(n, k - 1);
    }
  }

  lemma RootWidth(n: nat)
    requires n > 0
    ensures Width(n, Depth(n)) == 1
  {
    DepthSplits(n, Depth(n));
  }

  function TreeRoot(lib: Library, leaves: seq<Digest>): Digest
    requires leaves != []
  {
    RootWidth(|leaves|);
    Node(lib, leaves, Depth(|leaves|), 0)
  }

  function MerkleRoot(lib: Library, txs: seq<Transaction>): string {
    if txs == [] then Hex.Encode(lib.sha256([])) else Hex.Encode(TreeRoot(lib, Leaves(lib, txs)))
  }

  /** A proof has the least number k of steps with 2^k >= n. */
  lemma {:induction false} DepthIsCeilLog(n: nat)
    requires n > 0
    ensures n <= Power(2, Depth(n))
    ensures forall k: nat :: n <= Power(2, k) ==> Depth(n) <= k
  {
    if n > 1 {
      var half := (n + 1) / 2;
      DepthIsCeilLog(half);
      forall k: nat | n <= Power(2, k) ensures Depth(n) <= k {
        if k > 0 {
          assert half <= Power(2, k - 1);
        }
      }
    }
  }

  // ---------- the root loop ----------

  function Padded(level: seq<Digest>): seq<Digest>
    requires level != []
  {
    if |level| % 2 != 0 then level + [level[|level| - 1]] else level
  }

  ghost predicate PairsHashed(lib: Library, level: seq<Digest>, next: seq<Digest>) {
    && 2 * |next| == |level|
    && forall j :: 0 <= j < |next| ==> next[j] == lib.sha256(Join(level[2 * j], level[2 * j + 1]))
  }

  /** Hashing the neighbouring pairs of a padded level gives the next level of the tree. */
  lemma NextRow(lib: Library, leaves: seq<Digest>, k: nat, next: seq<Digest>)
    requires leaves != []
    requires PairsHashed(lib, Padded(Row(lib, leaves, k)), next)
    ensures next == Row(lib, leaves, k + 1)
  {
    var row := Row(lib, leaves, k);
    var padded := Padded(row);
    forall j | 0 <= j < |next| ensures next[j] == Node(lib, leaves, k + 1, j) {
      assert padded[2 * j] == row[2 * j];
      assert padded[2 * j + 1] == row[RightChild(|row|, j)];
    }
  }

  method HashPairs(lib: Library, level: seq<Digest>) returns (next: seq<Digest>)
    requires |level| % 2 == 0
    ensures PairsHashed(lib, level, next)
  {
    next := [];
    var index := 0;
    while index < |level|
      invariant index == 2 * |next| <= |level|
      invariant forall j :: 0 <= j < |next| ==> next[j] == lib.sha256(Join(level[2 * j], level[2 * j + 1]))
    {
      next := next + [lib.sha256(Join(level[index], level[index + 1]))];
      index := index + 2;
    }
  }

  method CalculateMerkleRoot(lib: Library, transactions: seq<Transaction>) returns (root: string)
    ensures root == MerkleRoot(lib, transactions)
  {
    hide Hex.Encode, Node;
    if |transactions| == 0 {
      return Hex.Encode(lib.sha256([]));
    }
    var level: seq<Digest> := [];
    for i := 0 to |transactions|
      invariant level == Leaves(lib, transactions)[..i]
    {
      level := level + [lib.sha256(lib.marshalTransaction(transactions[i]))];
    }
    ghost var leaves := Leaves(lib, transactions);
    ghost var k := 0;
    LeavesAreRow(lib, leaves);
    while |level| > 1
      invariant level == Row(lib, leaves, k)
      invariant Depth(|leaves|) == k + Depth(|level|)
      decreases |level|
    {
      if |level| % 2 != 0 {
        level := level + [level[|level| - 1]];
      }
      level := HashPairs(lib, level);
      NextRow(lib, leaves, k, level);
      k := k + 1;
    }
    root := Hex.Encode(level[0]);
  }

  // ---------- inclusion proofs ----------

  /** The ancestor of leaf i at level k. */
  function Position(i: nat, k: nat): nat {
    if k == 0 then i else Position(i, k - 1) / 2
  }

  lemma {:induction false} PositionInRange(n: nat, i: nat, k: nat)
    requires i < n
    ensures Position(i, k) < Width(n, k)
  {
    if k > 0 {
      PositionInRange(n, i, k - 1);
    }
  }

  function Sibling(w: nat, p: nat): nat {
    if p % 2 == 1 then p - 1 else if p + 1 < w then p + 1 else p
  }

  function PathStep(lib: Library, leaves: seq<Digest>, i: nat, k: nat): ProofStep
    requires i < |leaves|
  {
    PositionInRange(|leaves|, i, k);
    var p := Position(i, k);
    ProofStep(Hex.Encode(Node(lib, leaves, k, Sibling(Width(|leaves|, k), p))), p % 2 == 1)
  }

  /** The first k steps of the proof for leaf i. */
  function PathUpTo(lib: Library, leaves: seq<Digest>, i: nat, k: nat): (proof: seq<ProofStep>)
    requires i < |leaves|
    ensures |proof| == k
  {
    if k == 0 then [] else PathUpTo(lib, leaves, i, k - 1) + [PathStep(lib, leaves, i, k - 1)]
  }

  function Path(lib: Library, leaves: seq<Digest>, i: nat): seq<ProofStep>
    requires i < |leaves|
  {
    PathUpTo(lib, leaves, i, Depth(|leaves|))
  }

  lemma SiblingInPadded(level: seq<Digest>, p: nat)
    requires p < |level|
    ensures var s := if p % 2 == 0 then p + 1 else p - 1;
            Sibling(|level|, p) < |level| &&
            s < |Padded(level)| && Padded(level)[s] == level[Sibling(|level|, p)]
  {}

  lemma RecordedStep(lib: Library, leaves: seq<Digest>, i: nat, k: nat, level: seq<Digest>)
    requires i < |leaves|
    requires level == Row(lib, leaves, k)
    ensures Position(i, k) < |level|
    ensures var p := Position(i, k);
            var s := if p % 2 == 0 then p + 1 else p - 1;
            s < |Padded(level)| && PathStep(lib, leaves, i, k) == ProofStep(Hex.Encode(Padded(level)[s]), p % 2 == 1)
  {
    PositionInRange(|leaves|, i, k);
    SiblingInPadded(level, Position(i, k));
  }

  method DecodedLeaves(lib: Library, transactions: seq<Transaction>) returns (level: Option<seq<Digest>>)
    ensures level == Some(Leaves(lib, transactions))
  {
    var digests: seq<Digest> := [];
    for i := 0 to |transactions|
      invariant digests == Leaves(lib, transactions)[..i]
    {
      var hashBytes := Hex.Decode(TransactionHash(lib, transactions[i]));
      Hex.DecodeEncode(LeafHash(lib, transactions[i]));
      if hashBytes.None? {
        return None;
      }
      digests := digests + [hashBytes.value];
    }
    assert digests == Leaves(lib, transactions);
    level := Some(digests);
  }

  method GenerateMerkleProof(lib: Library, transactions: seq<Transaction>, index: int)
    returns (proof: Option<seq<ProofStep>>)
    ensures proof ==
            if 0 <= index < |transactions| then Some(Path(lib, Leaves(lib, transactions), index)) else None
  {
    hide Hex.Encode, Hex.Decode, Node, PathStep;
    if index < 0 || index >= |transactions| {
      return None;
    }
    ghost var leaves := Leaves(lib, transactions);
    var decoded := DecodedLeaves(lib, transactions);
    if decoded.None? {
      return None;
    }
    var level := decoded.value;
    var steps: seq<ProofStep> := [];
    var position: nat := index;
    ghost var k := 0;
    LeavesAreRow(lib, leaves);
    while |level| > 1
      invariant level == Row(lib, leaves, k)
      invariant Depth(|leaves|) == k + Depth(|level|)
      invariant position == Position(index, k)
      invariant steps == PathUpTo(lib, leaves, index, k)
      decreases |level|
    {
      RecordedStep(lib, leaves, index, k, level);
      if |level| % 2 != 0 {
        level := level + [level[|level| - 1]];
      }
      var siblingIndex, siblingIsLeft;
      if position % 2 == 0 {
        siblingIndex, siblingIsLeft := position + 1, false;
      } else {
        siblingIndex, siblingIsLeft := position - 1, true;
      }
      var step := ProofStep(Hex.Encode(level[siblingIndex]), siblingIsLeft);
      steps := steps + [step];
      level := HashPairs(lib, level);
      NextRow(lib, leaves, k, level);
      position := position / 2;
      k := k + 1;
    }
    proof := Some(steps);
  }

  /** The bytes hashed when one proof step is replayed. */
  function Joined(current: Bytes, step: ProofStep): Option<Bytes> {
    var sibling := Hex.Decode(step.hash);
    if sibling.None? then None
    else Some(if step.left then Join(sibling.value, current) else Join(current, sibling.value))
  }

  /** The value reached from a leaf after replaying a whole proof. */
  function Fold(lib: Library, leaf: Bytes, proof: seq<ProofStep>): Option<Bytes> {
    if proof == [] then Some(leaf)
    else
      var below := Fold(lib, leaf, proof[..|proof| - 1]);
      if below.None? then None
      else
        var joined := Joined(below.value, proof[|proof| - 1]);
        if joined.None? then None else Some(lib.sha256(joined.value))
  }

  predicate Accepts(lib: Library, transactionHash: string, proof: seq<ProofStep>, root: string) {
    var leaf := Hex.Decode(transactionHash);
    leaf.Some? &&
    var top := Fold(lib, leaf.value, proof);
    top.Some? && Hex.Encode(top.value) == root
  }

  lemma {:induction false} FoldPrefixFails(lib: Library, leaf: Bytes, proof: seq<ProofStep>, i: nat)
    requires i <= |proof|
    requires Fold(lib, leaf, proof[..i]).None?
    ensures Fold(lib, leaf, proof).None?
    decreases |proof| - i
  {
    if i < |proof| {
      assert proof[..i + 1][..i] == proof[..i];
      FoldPrefixFails(lib, leaf, proof, i + 1);
    } else {
      assert proof[..i] == proof;
    }
  }

  method VerifyMerkleProof(lib: Library, transactionHash: string, proof: seq<ProofStep>, root: string)
    returns (ok: bool)
    ensures ok == Accepts(lib, transactionHash, proof, root)
  {
    var leaf := Hex.Decode(transactionHash);
    if leaf.None? {
      return false;
    }
    var current := leaf.value;
    for i := 0 to |proof|
      invariant Fold(lib, leaf.value, proof[..i]) == Some(current)
    {
      assert proof[..i + 1][..i] == proof[..i];
      var sibling := Hex.Decode(proof[i].hash);
      if sibling.None? {
        FoldPrefixFails(lib, leaf.value, proof, i + 1);
        return false;
      }
      var combined := if proof[i].left then Join(sibling.value, current) else Join(current, sibling.value);
      current := lib.sha256(combined);
    }
    assert proof[..|proof|] == proof;
    ok := Hex.Encode(current) == root;
  }
}
