/** What Merkle roots and inclusion proofs guarantee. Binding results name the byte strings that
  were hashed: either the conclusion holds or two different ones among them share a digest. */
module MerkleTheorems {
  import opened Integers
  import opened Records
  import opened Merkle
  import Hex

  // ---------- completeness ----------

  lemma StepClimbs(lib: Library, leaves: seq<Digest>, i: nat, k: nat)
    requires i < |leaves|
    ensures Position(i, k) < Width(|leaves|, k) && Position(i, k + 1) < Width(|leaves|, k + 1)
    ensures Joined(Node(lib, leaves, k, Position(i, k)), PathStep(lib, leaves, i, k))
            == Some(Preimage(lib, leaves, k + 1, Position(i, k + 1)))
  {
    PositionInRange(|leaves|, i, k);
    PositionInRange(|leaves|, i, k + 1);
    var p, w := Position(i, k), Width(|leaves|, k);
    Hex.DecodeEncode(Node(lib, leaves, k, Sibling(w, p)));
    if p % 2 == 1 {
      assert Sibling(w, p) == 2 * (p / 2) && RightChild(w, p / 2) == p;
    } else {
      assert Sibling(w, p) == RightChild(w, p / 2) && 2 * (p / 2) == p;
    }
  }

  lemma FoldOneMore(lib: Library, leaf: Bytes, proof: seq<ProofStep>, step: ProofStep)
    requires Fold(lib, leaf, proof).Some?
    requires Joined(Fold(lib, leaf, proof).value, step).Some?
    ensures Fold(lib, leaf, proof + [step]) == Some(lib.sha256(Joined(Fold(lib, leaf, proof).value, step).value))
  {
    assert (proof + [step])[..|proof|] == proof;
  }

  /** From any ancestor of leaf i, the rest of its path climbs to the ancestors above. */
  lemma {:induction false} PathFolds(lib: Library, leaves: seq<Digest>, i: nat, k: nat, m: nat)
    requires i < |leaves| && k <= m
    ensures Position(i, k) < Width(|leaves|, k) && Position(i, m) < Width(|leaves|, m)
    ensures Fold(lib, Node(lib, leaves, k, Position(i, k)), PathUpTo(lib, leaves, i, m)[k..])
            == Some(Node(lib, leaves, m, Position(i, m)))
    decreases m
  {
    hide Hex.Encode, Hex.Decode, Width, Joined, PathStep;
    PositionInRange(|leaves|, i, k);
    PositionInRange(|leaves|, i, m);
    if k < m {
      PathFolds(lib, leaves, i, k, m - 1);
      StepClimbs(lib, leaves, i, m - 1);
      var before, step := PathUpTo(lib, leaves, i, m - 1), PathStep(lib, leaves, i, m - 1);
      assert (before + [step])[k..] == before[k..] + [step];
      FoldOneMore(lib, Node(lib, leaves, k, Position(i, k)), before[k..], step);
    }
  }

  /** Every ancestor of a leaf is accepted with the rest of the leaf's path: a proof that is k steps
    short shows a node of level k, not a transaction. */
  lemma InnerNodeAccepted(lib: Library, txs: seq<Transaction>, i: nat, k: nat)
    requires i < |txs| && k <= Depth(|txs|)
    ensures Position(i, k) < Width(|txs|, k)
    ensures Accepts(lib, Hex.Encode(Node(lib, Leaves(lib, txs), k, Position(i, k))),
                    Path(lib, Leaves(lib, txs), i)[k..], MerkleRoot(lib, txs))
  {
    hide Hex.Encode, Hex.Decode, Position, Fold, Node, Depth, Width, PathUpTo;
    var leaves := Leaves(lib, txs);
    PositionInRange(|leaves|, i, k);
    Hex.DecodeEncode(Node(lib, leaves, k, Position(i, k)));
    RootWidth(|leaves|);
    PathFolds(lib, leaves, i, k, Depth(|leaves|));
  }

  /** Every generated proof is accepted against the root of the same list, and its length is the
    least k with 2^k at least the number of transactions. */
  lemma ProofCompleteness(lib: Library, txs: seq<Transaction>, i: nat)
    requires i < |txs|
    ensures var proof := Path(lib, Leaves(lib, txs), i);
            && Accepts(lib, TransactionHash(lib, txs[i]), proof, MerkleRoot(lib, txs))
            && |txs| <= Power(2, |proof|)
            && (forall k: nat :: |txs| <= Power(2, k) ==> |proof| <= k)
  {
    hide Hex.Encode, Hex.Decode;
    var proof := Path(lib, Leaves(lib, txs), i);
    InnerNodeAccepted(lib, txs, i, 0);
    assert proof[0..] == proof;
    DepthIsCeilLog(|txs|);
  }

  // ---------- the node a list of turns leads to ----------

  /** The node that one turn leads to. */
  function Child(n: nat, k: nat, right: bool, j: nat): (child: nat)
    requires j < Width(n, k + 1)
    ensures child < Width(n, k)
  {
    if right then RightChild(Width(n, k), j) else 2 * j
  }

  /** Descends from node j of level base + |turns| to level base, the last turn first; true is a right
    turn. A turn towards a duplicated node continues at its original. */
  function NodeOf(n: nat, base: nat, turns: seq<bool>, j: nat): (node: nat)
    requires j < Width(n, base + |turns|)
    ensures node < Width(n, base)
    decreases |turns|
  {
    if turns == [] then j
    else
      var k := |turns| - 1;
      NodeOf(n, base, turns[..k], Child(n, base + k, turns[k], j))
  }

  /** The leaf below node j of level |turns|. */
  function LeafOf(n: nat, turns: seq<bool>, j: nat): (leaf: nat)
    requires j < Width(n, |turns|)
    ensures leaf < n
  {
    NodeOf(n, 0, turns, j)
  }

  function Turns(proof: seq<ProofStep>): seq<bool> {
    seq(|proof|, i requires 0 <= i < |proof| => proof[i].left)
  }

  function TurnsTo(i: nat, k: nat): seq<bool> {
    seq(k, m requires 0 <= m => Position(i, m) % 2 == 1)
  }

  lemma {:induction false} EveryLeafReached(n: nat, i: nat, k: nat)
    requires i < n
    ensures Position(i, k) < Width(n, k)
    ensures LeafOf(n, TurnsTo(i, k), Position(i, k)) == i
  {
    PositionInRange(n, i, k);
    if k > 0 {
      EveryLeafReached(n, i, k - 1);
      assert TurnsTo(i, k)[..k - 1] == TurnsTo(i, k - 1);
    }
  }

  // ---------- hashed strings ----------

  ghost function RowInputs(lib: Library, leaves: seq<Digest>, k: nat): set<Bytes>
    requires k > 0
  {
    set j | 0 <= j < Width(|leaves|, k) :: Preimage(lib, leaves, k, j)
  }

  /** Every string hashed above the leaves up to level k. */
  ghost function TreeInputs(lib: Library, leaves: seq<Digest>, k: nat): set<Bytes> {
    if k == 0 then {} else TreeInputs(lib, leaves, k - 1) + RowInputs(lib, leaves, k)
  }

  /** Every string hashed to compute the root of a list of transactions. */
  ghost function RootInputs(lib: Library, txs: seq<Transaction>): set<Bytes> {
    InnerInputs(lib, txs) + (set i | 0 <= i < |txs| :: lib.marshalTransaction(txs[i]))
  }

  /** The strings among them that are not transactions; the empty list hashes the empty string. */
  ghost function InnerInputs(lib: Library, txs: seq<Transaction>): set<Bytes> {
    if txs == [] then {[]} else TreeInputs(lib, Leaves(lib, txs), Depth(|txs|))
  }

  /** Every string hashed to replay a proof. */
  ghost function ProofInputs(lib: Library, leaf: Bytes, proof: seq<ProofStep>): set<Bytes> {
    if proof == [] then {}
    else
      var k := |proof| - 1;
      var below := Fold(lib, leaf, proof[..k]);
      ProofInputs(lib, leaf, proof[..k]) +
      if below.Some? && Joined(below.value, proof[k]).Some? then {Joined(below.value, proof[k]).value} else {}
  }

  lemma CollidesMonotone(lib: Library, a: set<Bytes>, b: set<Bytes>, c: set<Bytes>, d: set<Bytes>)
    requires a <= c && b <= d
    requires Collides(lib, a, b)
    ensures Collides(lib, c, d)
  {
    var x, y :| x in a && y in b && x != y && lib.sha256(x) == lib.sha256(y);
    assert x in c && y in d;
  }

  lemma JoinSplits(a: Bytes, b: Bytes, c: Bytes, d: Bytes)
    requires |a| == |c| && Join(a, b) == Join(c, d)
    ensures a == c && b == d
  {
    assert Join(a, b)[..|a|] == a && Join(c, d)[..|a|] == c;
    assert Join(a, b)[|a|..] == b && Join(c, d)[|a|..] == d;
  }

  // ---------- soundness ----------

  /** The last step of a proof that climbs to a node of the tree came from a child of that node. */
  lemma LastStepSound(lib: Library, leaves: seq<Digest>, level: nat, value: Bytes, proof: seq<ProofStep>, j: nat)
    requires |value| == 32 && proof != []
    requires j < Width(|leaves|, level + 1)
    requires Fold(lib, value, proof) == Some(Node(lib, leaves, level + 1, j))
    ensures var k := |proof| - 1;
            || Fold(lib, value, proof[..k]) == Some(Node(lib, leaves, level, Child(|leaves|, level, proof[k].left, j)))
            || Collides(lib, ProofInputs(lib, value, proof), TreeInputs(lib, leaves, level + 1))
  {
    hide Width, Joined, RightChild;
    var k := |proof| - 1;
    var below := Fold(lib, value, proof[..k]).value;
    var joined, preimage := Joined(below, proof[k]).value, Preimage(lib, leaves, level + 1, j);
    assert joined in ProofInputs(lib, value, proof);
    assert preimage in RowInputs(lib, leaves, level + 1);
    if joined == preimage {
      BelowIsChild(lib, leaves, below, proof[k], level, j);
    }
  }

  /** A proof that climbs from a 32-byte value to a node of the tree starts at the node its turns lead to. */
  lemma {:induction false} FoldSound(lib: Library, leaves: seq<Digest>, base: nat, value: Bytes,
                                     proof: seq<ProofStep>, j: nat)
    requires |value| == 32
    requires j < Width(|leaves|, base + |proof|)
    requires Fold(lib, value, proof) == Some(Node(lib, leaves, base + |proof|, j))
    ensures value == Node(lib, leaves, base, NodeOf(|leaves|, base, Turns(proof), j))
         || Collides(lib, ProofInputs(lib, value, proof), TreeInputs(lib, leaves, base + |proof|))
    decreases |proof|
  {
    hide Width, Joined, Node, Child, Collides, RowInputs;
    if proof != [] {
      var k := |proof| - 1;
      LastStepSound(lib, leaves, base + k, value, proof, j);
      var child := Child(|leaves|, base + k, proof[k].left, j);
      if Fold(lib, value, proof[..k]) == Some(Node(lib, leaves, base + k, child)) {
        assert Turns(proof)[..k] == Turns(proof[..k]);
        FoldSound(lib, leaves, base, value, proof[..k], child);
        if Collides(lib, ProofInputs(lib, value, proof[..k]), TreeInputs(lib, leaves, base + k)) {
          CollidesMonotone(lib, ProofInputs(lib, value, proof[..k]), TreeInputs(lib, leaves, base + k),
                           ProofInputs(lib, value, proof), TreeInputs(lib, leaves, base + k + 1));
        }
      }
    }
  }

  lemma BelowIsChild(lib: Library, leaves: seq<Digest>, below: Bytes, step: ProofStep, k: nat, j: nat)
    requires j < Width(|leaves|, k + 1)
    requires |below| == 32
    requires Joined(below, step) == Some(Preimage(lib, leaves, k + 1, j))
    ensures below == Node(lib, leaves, k, Child(|leaves|, k, step.left, j))
  {
    hide Hex.Decode;
    var l := Node(lib, leaves, k, 2 * j);
    var r := Node(lib, leaves, k, RightChild(Width(|leaves|, k), j));
    var sibling := Hex.Decode(step.hash).value;
    if step.left {
      assert |Join(sibling, below)| == |sibling| + 32;
      JoinSplits(sibling, below, l, r);
    } else {
      JoinSplits(below, sibling, l, r);
    }
  }

  lemma AcceptedFold(lib: Library, txs: seq<Transaction>, hashText: string, value: Bytes, proof: seq<ProofStep>)
    requires txs != []
    requires Hex.Decode(hashText) == Some(value)
    requires Accepts(lib, hashText, proof, MerkleRoot(lib, txs))
    ensures Fold(lib, value, proof) == Some(TreeRoot(lib, Leaves(lib, txs)))
  {
    hide Hex.Encode, Hex.Decode, Fold, TreeRoot;
    Hex.EncodeInjective(Fold(lib, value, proof).value, TreeRoot(lib, Leaves(lib, txs)));
  }

  /** A proof of at most the depth of the tree that is accepted for a 32-byte hash shows that hash to
    be the node its turns lead to, as many levels above the leaves as the proof is short. */
  lemma AcceptedValueIsNode(lib: Library, txs: seq<Transaction>, hashText: string, value: Bytes, proof: seq<ProofStep>)
    requires txs != []
    requires |proof| <= Depth(|txs|)
    requires Hex.Decode(hashText) == Some(value) && |value| == 32
    requires Accepts(lib, hashText, proof, MerkleRoot(lib, txs))
    ensures Width(|txs|, Depth(|txs|)) == 1
    ensures var base := Depth(|txs|) - |proof|;
            || value == Node(lib, Leaves(lib, txs), base, NodeOf(|txs|, base, Turns(proof), 0))
            || Collides(lib, ProofInputs(lib, value, proof), InnerInputs(lib, txs))
  {
    hide Hex.Encode, Hex.Decode, Width, Depth, Fold, ProofInputs, TreeInputs;
    hide NodeOf, Node, Collides, Accepts, MerkleRoot;
    var leaves := Leaves(lib, txs);
    RootWidth(|txs|);
    AcceptedFold(lib, txs, hashText, value, proof);
    FoldSound(lib, leaves, Depth(|txs|) - |proof|, value, proof, 0);
  }

  /** With exactly the depth of the tree, the hash is that of the transaction the turns lead to. */
  lemma ProofSoundness(lib: Library, txs: seq<Transaction>, hashText: string, value: Bytes, proof: seq<ProofStep>)
    requires txs != []
    requires |proof| == Depth(|txs|)
    requires Hex.Decode(hashText) == Some(value) && |value| == 32
    requires Accepts(lib, hashText, proof, MerkleRoot(lib, txs))
    ensures Width(|txs|, |proof|) == 1
    ensures value == LeafHash(lib, txs[LeafOf(|txs|, Turns(proof), 0)])
         || Collides(lib, ProofInputs(lib, value, proof), RootInputs(lib, txs))
  {
    hide Hex.Encode, Hex.Decode, Width;
    AcceptedValueIsNode(lib, txs, hashText, value, proof);
    if Collides(lib, ProofInputs(lib, value, proof), InnerInputs(lib, txs)) {
      CollidesMonotone(lib, ProofInputs(lib, value, proof), InnerInputs(lib, txs),
                       ProofInputs(lib, value, proof), RootInputs(lib, txs));
    }
  }

  /** The transaction itself is in the list when its hash is accepted. */
  lemma IncludedTransaction(lib: Library, txs: seq<Transaction>, tx: Transaction, proof: seq<ProofStep>)
    requires MarshalInjective(lib)
    requires txs != [] && |proof| == Depth(|txs|)
    requires Accepts(lib, TransactionHash(lib, tx), proof, MerkleRoot(lib, txs))
    ensures tx in txs
         || Collides(lib, ProofInputs(lib, LeafHash(lib, tx), proof) + {lib.marshalTransaction(tx)},
                     RootInputs(lib, txs))
  {
    hide Hex.Encode, Hex.Decode, Width;
    Hex.DecodeEncode(LeafHash(lib, tx));
    ProofSoundness(lib, txs, TransactionHash(lib, tx), LeafHash(lib, tx), proof);
    var left := ProofInputs(lib, LeafHash(lib, tx), proof);
    if Collides(lib, left, RootInputs(lib, txs)) {
      CollidesMonotone(lib, left, RootInputs(lib, txs), left + {lib.marshalTransaction(tx)}, RootInputs(lib, txs));
    } else {
      var i := LeafOf(|txs|, Turns(proof), 0);
      assert lib.marshalTransaction(txs[i]) in RootInputs(lib, txs);
      assert lib.marshalTransaction(tx) in left + {lib.marshalTransaction(tx)};
      assert lib.sha256(lib.marshalTransaction(tx)) == lib.sha256(lib.marshalTransaction(txs[i]));
    }
  }
}
