/** What an accepted proof shows, for every length of the proof and of the value (block/merkle_proof.go).
  The program checks neither: it takes hexadecimal text of any length for the value and the siblings. */
module MerkleLengths {
  import opened Records
  import opened Merkle
  import opened MerkleTheorems
  import Hex

  // ---------- joining and cutting proofs ----------

  lemma {:induction false} FoldConcat(lib: Library, leaf: Bytes, a: seq<ProofStep>, b: seq<ProofStep>)
    ensures var mid := Fold(lib, leaf, a);
            && Fold(lib, leaf, a + b) == (if mid.None? then None else Fold(lib, mid.value, b))
            && (mid.Some? ==>
                ProofInputs(lib, leaf, a + b) == ProofInputs(lib, leaf, a) + ProofInputs(lib, mid.value, b))
    decreases |b|
  {
    hide Joined;
    if b == [] {
      assert a + b == a;
    } else {
      FoldConcat(lib, leaf, a, b[..|b| - 1]);
      assert (a + b)[..|a + b| - 1] == a + b[..|b| - 1];
    }
  }

  /** The string hashed for node j of level k; the strings of level 0 are the transactions' texts. */
  function HashedAt(lib: Library, txs: seq<Transaction>, k: nat, j: nat): Bytes
    requires j < Width(|txs|, k)
  {
    if k == 0 then lib.marshalTransaction(txs[j]) else Preimage(lib, Leaves(lib, txs), k, j)
  }

  lemma {:induction false} TreeInputsGrow(lib: Library, leaves: seq<Digest>, k: nat, m: nat)
    requires k <= m
    ensures TreeInputs(lib, leaves, k) <= TreeInputs(lib, leaves, m)
    decreases m
  {
    hide RowInputs;
    if k < m {
      TreeInputsGrow(lib, leaves, k, m - 1);
    }
  }

  lemma HashedForRoot(lib: Library, txs: seq<Transaction>, k: nat, j: nat)
    requires txs != [] && k <= Depth(|txs|) && j < Width(|txs|, k)
    ensures lib.sha256(HashedAt(lib, txs, k, j)) == Node(lib, Leaves(lib, txs), k, j)
    ensures HashedAt(lib, txs, k, j) in RootInputs(lib, txs)
    ensures k > 0 ==> HashedAt(lib, txs, k, j) in InnerInputs(lib, txs)
  {
    hide Depth, Preimage;
    if k > 0 {
      assert HashedAt(lib, txs, k, j) in RowInputs(lib, Leaves(lib, txs), k);
      TreeInputsGrow(lib, Leaves(lib, txs), k, Depth(|txs|));
    }
  }

  // ---------- every step of an accepted proof ----------

  lemma AcceptedSuffix(lib: Library, txs: seq<Transaction>, value: Bytes, proof: seq<ProofStep>, m: nat)
    requires txs != [] && m < |proof| <= m + 1 + Depth(|txs|)
    requires Fold(lib, value, proof) == Some(TreeRoot(lib, Leaves(lib, txs)))
    ensures Width(|txs|, Depth(|txs|)) == 1
    ensures Fold(lib, value, proof[..m + 1]).Some? && |Fold(lib, value, proof[..m + 1]).value| == 32
    ensures var k := Depth(|txs|) + 1 + m - |proof|;
            var node := Node(lib, Leaves(lib, txs), k, NodeOf(|txs|, k, Turns(proof[m + 1..]), 0));
            || Fold(lib, value, proof[..m + 1]).value == node
            || Collides(lib, ProofInputs(lib, value, proof), RootInputs(lib, txs))
  {
    hide Width, Depth, Joined, ProofInputs, TreeInputs, NodeOf, Node, Collides;
    var head, tail, leaves := proof[..m + 1], proof[m + 1..], Leaves(lib, txs);
    assert head + tail == proof;
    RootWidth(|txs|);
    FoldConcat(lib, value, head, tail);
    var middle := Fold(lib, value, head).value;
    hide Fold;
    FoldSound(lib, leaves, Depth(|txs|) + 1 + m - |proof|, middle, tail, 0);
    if Collides(lib, ProofInputs(lib, middle, tail), InnerInputs(lib, txs)) {
      CollidesMonotone(lib, ProofInputs(lib, middle, tail), InnerInputs(lib, txs),
                       ProofInputs(lib, value, proof), RootInputs(lib, txs));
    }
  }

  lemma StepHashed(lib: Library, value: Bytes, proof: seq<ProofStep>, m: nat)
    requires m < |proof| && Fold(lib, value, proof[..m + 1]).Some?
    ensures Fold(lib, value, proof[..m]).Some?
    ensures var joined := Joined(Fold(lib, value, proof[..m]).value, proof[m]);
            && joined.Some?
            && Fold(lib, value, proof[..m + 1]).value == lib.sha256(joined.value)
            && (Fold(lib, value, proof).Some? ==> joined.value in ProofInputs(lib, value, proof))
  {
    hide Joined;
    assert proof[..m + 1][..m] == proof[..m];
    assert proof[..m + 1] + proof[m + 1..] == proof;
    FoldConcat(lib, value, proof[..m + 1], proof[m + 1..]);
  }

  /** Counted from the root, each of the last depth + 1 steps of an accepted proof hashes the very string
    that the tree hashes at the node the later turns lead to, or there is a collision. The value and
    the siblings may have any length. */
  lemma AcceptedStepIsHashedAt(lib: Library, txs: seq<Transaction>, hashText: string, value: Bytes,
                               proof: seq<ProofStep>, m: nat)
    requires txs != [] && m < |proof| <= m + 1 + Depth(|txs|)
    requires Hex.Decode(hashText) == Some(value)
    requires Accepts(lib, hashText, proof, MerkleRoot(lib, txs))
    ensures Width(|txs|, Depth(|txs|)) == 1
    ensures Fold(lib, value, proof[..m]).Some?
    ensures var k := Depth(|txs|) + 1 + m - |proof|;
            var hashed := HashedAt(lib, txs, k, NodeOf(|txs|, k, Turns(proof[m + 1..]), 0));
            || Joined(Fold(lib, value, proof[..m]).value, proof[m]) == Some(hashed)
            || Collides(lib, ProofInputs(lib, value, proof), RootInputs(lib, txs))
  {
    hide Hex.Encode, Hex.Decode, Width, Depth, Joined, Fold, ProofInputs, RootInputs, NodeOf, Node, HashedAt;
    hide Accepts, MerkleRoot;
    AcceptedFold(lib, txs, hashText, value, proof);
    AcceptedSuffix(lib, txs, value, proof, m);
    StepHashed(lib, value, proof, m);
    var k := Depth(|txs|) + 1 + m - |proof|;
    HashedForRoot(lib, txs, k, NodeOf(|txs|, k, Turns(proof[m + 1..]), 0));
  }

  /** The part begins the whole, or ends it when the sibling of the step stands on the left. */
  predicate EndOf(part: Bytes, step: ProofStep, whole: Bytes) {
    |part| <= |whole| &&
    if step.left then part == whole[|whole| - |part|..] else part == whole[..|part|]
  }

  lemma JoinedEnds(part: Bytes, step: ProofStep, whole: Bytes)
    requires Joined(part, step) == Some(whole)
    ensures EndOf(part, step, whole)
  {
    hide Hex.Decode;
    var sibling := Hex.Decode(step.hash).value;
    if step.left {
      assert whole == sibling + part;
    } else {
      assert whole == part + sibling;
    }
  }

  /** A proof of 1 to depth + 1 steps accepted for a value of any length shows that value to be one end
    of the string hashed at a node, which is at the level at which the proof starts. */
  lemma AcceptedValueEnds(lib: Library, txs: seq<Transaction>, hashText: string, value: Bytes,
                          proof: seq<ProofStep>)
    requires txs != [] && 1 <= |proof| <= Depth(|txs|) + 1
    requires Hex.Decode(hashText) == Some(value)
    requires Accepts(lib, hashText, proof, MerkleRoot(lib, txs))
    ensures Width(|txs|, Depth(|txs|)) == 1
    ensures var k := Depth(|txs|) + 1 - |proof|;
            || EndOf(value, proof[0], HashedAt(lib, txs, k, NodeOf(|txs|, k, Turns(proof[1..]), 0)))
            || Collides(lib, ProofInputs(lib, value, proof), RootInputs(lib, txs))
  {
    hide Hex.Encode, Hex.Decode, Width, Depth, Joined, ProofInputs, RootInputs, NodeOf, HashedAt, EndOf, Collides;
    hide Accepts, MerkleRoot;
    AcceptedStepIsHashedAt(lib, txs, hashText, value, proof, 0);
    assert proof[..0] == [];
    assert Fold(lib, value, []) == Some(value);
    var k := Depth(|txs|) + 1 - |proof|;
    var hashed := HashedAt(lib, txs, k, NodeOf(|txs|, k, Turns(proof[1..]), 0));
    if Joined(value, proof[0]) == Some(hashed) {
      JoinedEnds(value, proof[0], hashed);
    }
  }

  /** In a still longer accepted proof a digest is one end of the text of a transaction of the list. */
  lemma LongProofDigestEnds(lib: Library, txs: seq<Transaction>, hashText: string, value: Bytes,
                            proof: seq<ProofStep>)
    returns (i: nat, digest: Digest)
    requires txs != [] && |proof| > Depth(|txs|) + 1
    requires Hex.Decode(hashText) == Some(value)
    requires Accepts(lib, hashText, proof, MerkleRoot(lib, txs))
    ensures i < |txs|
    ensures exists b :: b in ProofInputs(lib, value, proof) && digest == lib.sha256(b)
    ensures var m := |proof| - Depth(|txs|) - 1;
            || EndOf(digest, proof[m], lib.marshalTransaction(txs[i]))
            || Collides(lib, ProofInputs(lib, value, proof), RootInputs(lib, txs))
  {
    hide Hex.Encode, Hex.Decode, Depth, Joined, ProofInputs, RootInputs, NodeOf, EndOf, Collides, Fold;
    hide Accepts, MerkleRoot;
    var m := |proof| - Depth(|txs|) - 1;
    AcceptedStepIsHashedAt(lib, txs, hashText, value, proof, m);
    AcceptedFold(lib, txs, hashText, value, proof);
    StepHashed(lib, value, proof, m - 1);
    digest := Fold(lib, value, proof[..m]).value;
    i := NodeOf(|txs|, 0, Turns(proof[m + 1..]), 0);
    if Joined(digest, proof[m]) == Some(lib.marshalTransaction(txs[i])) {
      JoinedEnds(digest, proof[m], lib.marshalTransaction(txs[i]));
    }
  }

  // ---------- accepted values of every length ----------

  /** Cuts a string in two: a value, and the step that puts the rest back. */
  function CutValue(whole: Bytes, n: nat, left: bool): (value: Bytes)
    requires n <= |whole|
    ensures |value| == n
  {
    if left then whole[|whole| - n..] else whole[..n]
  }

  function CutStep(whole: Bytes, n: nat, left: bool): ProofStep
    requires n <= |whole|
  {
    ProofStep(Hex.Encode(if left then whole[..|whole| - n] else whole[n..]), left)
  }

  lemma CutJoins(whole: Bytes, n: nat, left: bool)
    requires n <= |whole|
    ensures Joined(CutValue(whole, n, left), CutStep(whole, n, left)) == Some(whole)
  {
    hide Hex.Encode, Hex.Decode;
    var rest := if left then whole[..|whole| - n] else whole[n..];
    Hex.DecodeEncode(rest);
    assert (if left then Join(rest, CutValue(whole, n, left)) else Join(CutValue(whole, n, left), rest)) == whole;
  }

  /** The cut of the string hashed at the ancestor of leaf i at level k, with the path from there. */
  function CutProof(lib: Library, txs: seq<Transaction>, i: nat, k: nat, n: nat, left: bool): (proof: seq<ProofStep>)
    requires i < |txs| && k <= Depth(|txs|)
    requires Position(i, k) < Width(|txs|, k) && n <= |HashedAt(lib, txs, k, Position(i, k))|
    ensures |proof| == Depth(|txs|) + 1 - k
  {
    [CutStep(HashedAt(lib, txs, k, Position(i, k)), n, left)] + Path(lib, Leaves(lib, txs), i)[k..]
  }

  lemma {:induction false} PathInputs(lib: Library, leaves: seq<Digest>, i: nat, k: nat, m: nat)
    requires i < |leaves| && k <= m
    requires Position(i, k) < Width(|leaves|, k)
    ensures ProofInputs(lib, Node(lib, leaves, k, Position(i, k)), PathUpTo(lib, leaves, i, m)[k..])
            <= TreeInputs(lib, leaves, m)
    decreases m
  {
    hide Width, Joined, PathStep, Fold, Preimage, Node, Position, ProofInputs;
    var start := Node(lib, leaves, k, Position(i, k));
    if k < m {
      PathInputs(lib, leaves, i, k, m - 1);
      PathFolds(lib, leaves, i, k, m - 1);
      StepClimbs(lib, leaves, i, m - 1);
      var before, step := PathUpTo(lib, leaves, i, m - 1), PathStep(lib, leaves, i, m - 1);
      assert (before + [step])[k..] == before[k..] + [step];
      InputsOneMore(lib, start, before[k..], step);
      assert Preimage(lib, leaves, m, Position(i, m)) in RowInputs(lib, leaves, m);
    } else {
      assert PathUpTo(lib, leaves, i, m)[k..] == [];
      NoInputs(lib, start);
    }
  }

  lemma NoInputs(lib: Library, value: Bytes)
    ensures ProofInputs(lib, value, []) == {}
  {}

  lemma InputsOneMore(lib: Library, value: Bytes, proof: seq<ProofStep>, step: ProofStep)
    requires Fold(lib, value, proof).Some? && Joined(Fold(lib, value, proof).value, step).Some?
    ensures ProofInputs(lib, value, proof + [step])
            == ProofInputs(lib, value, proof) + {Joined(Fold(lib, value, proof).value, step).value}
  {
    hide Joined, Fold;
    assert (proof + [step])[..|proof|] == proof;
  }

  lemma OneStepFold(lib: Library, value: Bytes, step: ProofStep)
    requires Joined(value, step).Some?
    ensures Fold(lib, value, [step]) == Some(lib.sha256(Joined(value, step).value))
    ensures ProofInputs(lib, value, [step]) == {Joined(value, step).value}
  {
    hide Joined;
    assert [step][..0] == [];
    assert Fold(lib, value, []) == Some(value);
    assert ProofInputs(lib, value, []) == {};
  }

  /** No length of the value is checked: wherever the string hashed at a node is cut, from either side,
    the part is accepted as a value, with the other part as its first sibling and the path from that
    node. All strings hashed on the way are strings of the tree. */
  lemma CutAccepted(lib: Library, txs: seq<Transaction>, i: nat, k: nat, n: nat, left: bool)
    requires i < |txs| && k <= Depth(|txs|)
    requires Position(i, k) < Width(|txs|, k) && n <= |HashedAt(lib, txs, k, Position(i, k))|
    ensures var value := CutValue(HashedAt(lib, txs, k, Position(i, k)), n, left);
            var proof := CutProof(lib, txs, i, k, n, left);
            && Accepts(lib, Hex.Encode(value), proof, MerkleRoot(lib, txs))
            && ProofInputs(lib, value, proof) <= RootInputs(lib, txs)
  {
    hide Hex.Encode, Hex.Decode, Width, Joined, Fold, ProofInputs, PathUpTo, HashedAt, Node, Position;
    hide CutStep, CutValue;
    var leaves, hashed := Leaves(lib, txs), HashedAt(lib, txs, k, Position(i, k));
    var value, step, rest := CutValue(hashed, n, left), CutStep(hashed, n, left), Path(lib, leaves, i)[k..];
    CutJoins(hashed, n, left);
    OneStepFold(lib, value, step);
    HashedForRoot(lib, txs, k, Position(i, k));
    FoldConcat(lib, value, [step], rest);
    PathFolds(lib, leaves, i, k, Depth(|txs|));
    PathInputs(lib, leaves, i, k, Depth(|txs|));
    RootPosition(|txs|, i);
    Hex.DecodeEncode(value);
  }

  lemma RootPosition(n: nat, i: nat)
    requires i < n
    ensures Position(i, Depth(n)) == 0
  {
    RootWidth(n);
    PositionInRange(n, i, Depth(n));
  }

  // ---------- when acceptance shows inclusion ----------

  ghost predicate IsLeafHash(lib: Library, txs: seq<Transaction>, value: Bytes) {
    exists i :: 0 <= i < |txs| && value == LeafHash(lib, txs[i])
  }

  /** Each value of the given length accepted with the given number of steps is the hash of a transaction
    of the list, collisions aside. */
  ghost predicate ShowsInclusion(lib: Library, txs: seq<Transaction>, steps: nat, bytes: nat) {
    forall hashText, proof :: Accepts(lib, hashText, proof, MerkleRoot(lib, txs)) ==>
      var value := Hex.Decode(hashText).value;
      |proof| == steps && |value| == bytes ==>
        IsLeafHash(lib, txs, value) || Collides(lib, ProofInputs(lib, value, proof), RootInputs(lib, txs))
  }

  /** A string hashed where proofs of this many steps start is long enough to be cut to this length. */
  ghost predicate CanBeCut(lib: Library, txs: seq<Transaction>, steps: nat, bytes: nat) {
    if steps == 0 then bytes == 32
    else if steps <= Depth(|txs|) then bytes <= 64
    else exists i :: 0 <= i < |txs| && bytes <= |lib.marshalTransaction(txs[i])|
  }

  /** What can be checked on a list: the strings hashed for its root have distinct digests, no text is
    hashed inside the tree, and no text begins with the hash of a transaction. */
  ghost predicate Plain(lib: Library, txs: seq<Transaction>) {
    && !Collides(lib, RootInputs(lib, txs), RootInputs(lib, txs))
    && (forall tx :: tx in txs ==> lib.marshalTransaction(tx) !in InnerInputs(lib, txs))
    && (forall s, t :: s in txs && t in txs ==> !(LeafHash(lib, s) <= lib.marshalTransaction(t)))
  }

  /** Inner nodes are not leaf hashes. */
  lemma NodeIsNoLeaf(lib: Library, txs: seq<Transaction>, k: nat, j: nat)
    requires txs != [] && Plain(lib, txs) && 0 < k <= Depth(|txs|) && j < Width(|txs|, k)
    ensures !IsLeafHash(lib, txs, Node(lib, Leaves(lib, txs), k, j))
  {
    hide Depth, Width, Node, HashedAt, InnerInputs;
    var value := Node(lib, Leaves(lib, txs), k, j);
    HashedForRoot(lib, txs, k, j);
    forall i | 0 <= i < |txs| ensures value != LeafHash(lib, txs[i]) {
      assert txs[i] in txs && lib.marshalTransaction(txs[i]) in RootInputs(lib, txs);
    }
  }

  /** An accepted value of another length, or cut at another level, that is no leaf hash. */
  lemma CutIsNoLeaf(lib: Library, txs: seq<Transaction>, i: nat, k: nat, bytes: nat)
    requires Plain(lib, txs) && i < |txs| && k <= Depth(|txs|)
    requires Position(i, k) < Width(|txs|, k) && bytes <= |HashedAt(lib, txs, k, Position(i, k))|
    requires bytes == 32 ==> k != 1
    ensures !IsLeafHash(lib, txs, CutValue(HashedAt(lib, txs, k, Position(i, k)), bytes, false))
  {
    hide Depth, Node, Collides, RootInputs, InnerInputs;
    var hashed := HashedAt(lib, txs, k, Position(i, k));
    if bytes == 32 && k > 1 {
      assert hashed[..32] == Node(lib, Leaves(lib, txs), k - 1, 2 * Position(i, k));
      NodeIsNoLeaf(lib, txs, k - 1, 2 * Position(i, k));
    } else if bytes == 32 {
      forall t | 0 <= t < |txs| ensures hashed[..32] != LeafHash(lib, txs[t]) {
        assert txs[t] in txs && txs[i] in txs;
        assert hashed[..32] <= hashed;
      }
    }
  }

  /** A place where the cut is possible. */
  lemma CutPlace(lib: Library, txs: seq<Transaction>, steps: nat, bytes: nat) returns (i: nat)
    requires txs != [] && 0 < steps <= Depth(|txs|) + 1 && CanBeCut(lib, txs, steps, bytes)
    ensures var k := Depth(|txs|) + 1 - steps;
            && i < |txs| && Position(i, k) < Width(|txs|, k)
            && bytes <= |HashedAt(lib, txs, k, Position(i, k))|
  {
    hide Depth, Width, HashedAt;
    var k := Depth(|txs|) + 1 - steps;
    i := 0;
    if k == 0 {
      i :| 0 <= i < |txs| && bytes <= |lib.marshalTransaction(txs[i])|;
    }
    PositionInRange(|txs|, i, k);
    HashedLength(lib, txs, k, Position(i, k));
  }

  lemma CutRefutesAt(lib: Library, txs: seq<Transaction>, i: nat, k: nat, bytes: nat)
    requires Plain(lib, txs) && i < |txs| && k <= Depth(|txs|)
    requires Position(i, k) < Width(|txs|, k) && bytes <= |HashedAt(lib, txs, k, Position(i, k))|
    requires bytes == 32 ==> k != 1
    ensures !ShowsInclusion(lib, txs, Depth(|txs|) + 1 - k, bytes)
  {
    hide Hex.Encode, Hex.Decode, Depth, Width, Position, HashedAt, RootInputs, ProofInputs, Plain, Collides;
    hide Accepts, MerkleRoot, IsLeafHash, CutValue, CutProof;
    CutAccepted(lib, txs, i, k, bytes, false);
    CutIsNoLeaf(lib, txs, i, k, bytes);
    var value := CutValue(HashedAt(lib, txs, k, Position(i, k)), bytes, false);
    var proof := CutProof(lib, txs, i, k, bytes, false);
    Hex.DecodeEncode(value);
    InsideIsClean(lib, txs, ProofInputs(lib, value, proof));
    assert Accepts(lib, Hex.Encode(value), proof, MerkleRoot(lib, txs));
  }

  /** Where a string can be cut into anything but a leaf hash, acceptance does not show inclusion. */
  lemma CutRefutes(lib: Library, txs: seq<Transaction>, steps: nat, bytes: nat)
    requires txs != [] && Plain(lib, txs) && steps <= Depth(|txs|) + 1 && CanBeCut(lib, txs, steps, bytes)
    requires steps != Depth(|txs|) || bytes != 32
    ensures !ShowsInclusion(lib, txs, steps, bytes)
  {
    hide Depth, Width, Position, HashedAt, Plain, ShowsInclusion;
    if steps == 0 {
      RootRefutes(lib, txs);
    } else {
      var i := CutPlace(lib, txs, steps, bytes);
      CutRefutesAt(lib, txs, i, Depth(|txs|) + 1 - steps, bytes);
    }
  }

  lemma InsideIsClean(lib: Library, txs: seq<Transaction>, inputs: set<Bytes>)
    requires Plain(lib, txs) && inputs <= RootInputs(lib, txs)
    ensures !Collides(lib, inputs, RootInputs(lib, txs))
  {
    hide RootInputs, InnerInputs;
  }

  lemma RootRefutes(lib: Library, txs: seq<Transaction>)
    requires txs != [] && Plain(lib, txs) && Depth(|txs|) > 0
    ensures !ShowsInclusion(lib, txs, 0, 32)
  {
    hide Hex.Encode, Hex.Decode, Depth, Width, Node, Position, InnerInputs, PathUpTo, IsLeafHash, MerkleRoot, Accepts;
    var d, leaves := Depth(|txs|), Leaves(lib, txs);
    InnerNodeAccepted(lib, txs, 0, d);
    var value, proof := Node(lib, leaves, d, Position(0, d)), Path(lib, leaves, 0)[d..];
    Hex.DecodeEncode(value);
    NodeIsNoLeaf(lib, txs, d, Position(0, d));
    assert Accepts(lib, Hex.Encode(value), proof, MerkleRoot(lib, txs)) && |proof| == 0;
    assert ProofInputs(lib, value, proof) == {};
  }

  /** Accepted values are no longer than the strings hashed where their proof starts, collisions aside. */
  lemma AcceptedCanBeCut(lib: Library, txs: seq<Transaction>, hashText: string, value: Bytes, proof: seq<ProofStep>)
    requires txs != [] && |proof| <= Depth(|txs|) + 1
    requires Hex.Decode(hashText) == Some(value)
    requires Accepts(lib, hashText, proof, MerkleRoot(lib, txs))
    ensures CanBeCut(lib, txs, |proof|, |value|) || Collides(lib, ProofInputs(lib, value, proof), RootInputs(lib, txs))
  {
    hide Hex.Encode, Hex.Decode, Depth, Width, Accepts, MerkleRoot, NodeOf, Collides, RootInputs, ProofInputs;
    hide HashedAt, Node;
    if proof == [] {
      AcceptedFold(lib, txs, hashText, value, proof);
    } else {
      AcceptedValueEnds(lib, txs, hashText, value, proof);
      var k := Depth(|txs|) + 1 - |proof|;
      HashedLength(lib, txs, k, NodeOf(|txs|, k, Turns(proof[1..]), 0));
    }
  }

  lemma HashedLength(lib: Library, txs: seq<Transaction>, k: nat, j: nat)
    requires j < Width(|txs|, k)
    ensures k > 0 ==> |HashedAt(lib, txs, k, j)| == 64
    ensures k == 0 ==> j < |txs| && |HashedAt(lib, txs, k, j)| == |lib.marshalTransaction(txs[j])|
  {
    hide Preimage;
  }

  lemma OutOfReach(lib: Library, txs: seq<Transaction>, steps: nat, bytes: nat)
    requires txs != [] && steps <= Depth(|txs|) + 1 && !CanBeCut(lib, txs, steps, bytes)
    ensures ShowsInclusion(lib, txs, steps, bytes)
  {
    hide Hex.Encode, Hex.Decode, Depth, Accepts, MerkleRoot, IsLeafHash, Collides, RootInputs, ProofInputs, CanBeCut;
    forall hashText, proof | Accepts(lib, hashText, proof, MerkleRoot(lib, txs))
      ensures Hex.Decode(hashText).Some?
      ensures |proof| == steps && |Hex.Decode(hashText).value| == bytes ==>
              Collides(lib, ProofInputs(lib, Hex.Decode(hashText).value, proof), RootInputs(lib, txs))
    {
      AcceptedDecodes(lib, txs, hashText, proof);
      if |proof| == steps {
        AcceptedCanBeCut(lib, txs, hashText, Hex.Decode(hashText).value, proof);
      }
    }
  }

  lemma AcceptedDecodes(lib: Library, txs: seq<Transaction>, hashText: string, proof: seq<ProofStep>)
    requires Accepts(lib, hashText, proof, MerkleRoot(lib, txs))
    ensures Hex.Decode(hashText).Some?
  {
    hide Hex.Decode, Hex.Encode, Fold;
  }

  /** The exact condition on both lengths: acceptance with at most depth + 1 steps shows inclusion if and
    only if there are exactly as many steps as the tree is deep and the value has 32 bytes, or the
    value is longer than anything that is hashed at that level. Only the necessity asks for a plain list. */
  lemma InclusionExactly(lib: Library, txs: seq<Transaction>, steps: nat, bytes: nat)
    requires txs != [] && steps <= Depth(|txs|) + 1
    ensures (steps == Depth(|txs|) && bytes == 32) || !CanBeCut(lib, txs, steps, bytes) ==>
            ShowsInclusion(lib, txs, steps, bytes)
    ensures Plain(lib, txs) && ShowsInclusion(lib, txs, steps, bytes) ==>
            (steps == Depth(|txs|) && bytes == 32) || !CanBeCut(lib, txs, steps, bytes)
  {
    hide Hex.Encode, Hex.Decode, Depth, Width, CanBeCut, Accepts, MerkleRoot, Plain, Collides, RootInputs, LeafOf;
    if !CanBeCut(lib, txs, steps, bytes) {
      OutOfReach(lib, txs, steps, bytes);
    } else if steps == Depth(|txs|) && bytes == 32 {
      forall hashText, proof | Accepts(lib, hashText, proof, MerkleRoot(lib, txs)) && |proof| == steps
        ensures Hex.Decode(hashText).Some?
        ensures var value := Hex.Decode(hashText).value;
                |value| == 32 ==>
                  IsLeafHash(lib, txs, value) || Collides(lib, ProofInputs(lib, value, proof), RootInputs(lib, txs))
      {
        AcceptedDecodes(lib, txs, hashText, proof);
        var value := Hex.Decode(hashText).value;
        if |value| == 32 {
          ProofSoundness(lib, txs, hashText, value, proof);
        }
      }
    } else if Plain(lib, txs) {
      CutRefutes(lib, txs, steps, bytes);
    }
  }
}
