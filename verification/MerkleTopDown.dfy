/** The Merkle root read from the top: another definition of the tree, by halves of the list instead of
  levels (block/merkle.go). */
module MerkleTopDown {
  import opened Integers
  import opened Merkle
  import opened Records
  import Hex

  /** The root over at most 2^depth leaves: the first half of the places goes left and the rest right; if
    nothing is left for the right, the left stands on both sides. */
  function TopDown(lib: Library, leaves: seq<Digest>, depth: nat): Digest
    requires 0 < |leaves| <= Power(2, depth)
    decreases depth
  {
    if depth == 0 then leaves[0]
    else
      var half := Power(2, depth - 1);
      if |leaves| <= half then
        var child := TopDown(lib, leaves, depth - 1);
        lib.sha256(child + child)
      else
        lib.sha256(TopDown(lib, leaves[..half], depth - 1) + TopDown(lib, leaves[half..], depth - 1))
  }

  /** A level has a node j exactly if the leaves reach its places. */
  lemma {:induction false} NodeExists(n: nat, k: nat, j: nat)
    ensures j < Width(n, k) <==> j * Power(2, k) < n
  {
    if k == 0 {
      assert Power(2, 0) == 1;
    } else {
      NodeExists(n, k - 1, 2 * j);
      Doubled(j, k);
    }
  }

  lemma Doubled(j: nat, k: nat)
    requires k > 0
    ensures (2 * j) * Power(2, k - 1) == j * Power(2, k)
    ensures (2 * j + 1) * Power(2, k - 1) == j * Power(2, k) + Power(2, k - 1)
  {
    var p := Power(2, k - 1);
    assert Power(2, k) == 2 * p;
    assert (2 * j) * p == j * (2 * p);
    assert (2 * j + 1) * p == (2 * j) * p + p;
  }

  /** The leaves at `size` places from `low` on, as far as there are any. */
  function Places(leaves: seq<Digest>, low: nat, size: nat): (part: seq<Digest>)
    requires low < |leaves| && size > 0
    ensures 0 < |part| <= size
  {
    leaves[low..if low + size < |leaves| then low + size else |leaves|]
  }

  lemma PlacesHalve(leaves: seq<Digest>, low: nat, half: nat)
    requires low < |leaves| && half > 0
    ensures var whole := Places(leaves, low, 2 * half);
            if low + half < |leaves| then
              && |whole| > half
              && whole[..half] == Places(leaves, low, half)
              && whole[half..] == Places(leaves, low + half, half)
            else |whole| <= half && whole == Places(leaves, low, half)
  {}

  lemma {:induction false} TwoPower(k: nat)
    ensures Power(2, k) > 0
    ensures k > 0 ==> Power(2, k) == 2 * Power(2, k - 1)
  {
    if k > 0 {
      TwoPower(k - 1);
    }
  }

  /** Node j of level k covers 2^k places from j * 2^k on. */
  lemma {:induction false} NodeIsTopDown(lib: Library, leaves: seq<Digest>, k: nat, j: nat, low: nat)
    requires j < Width(|leaves|, k) && low == j * Power(2, k)
    ensures low < |leaves| && Power(2, k) > 0
    ensures Node(lib, leaves, k, j) == TopDown(lib, Places(leaves, low, Power(2, k)), k)
    decreases k, j, 1
  {
    NodeExists(|leaves|, k, j);
    TwoPower(k);
    if k == 0 {
      assert Power(2, 0) == 1 && low == j;
    } else {
      hide Power, Places;
      var half := Power(2, k - 1);
      Doubled(j, k);
      NodeExists(|leaves|, k - 1, 2 * j + 1);
      TwoPower(k - 1);
      PlacesHalve(leaves, low, half);
      ChildPlaces(lib, leaves, k, j, low);
    }
  }

  /** The step from level k - 1, once its nodes are known. */
  lemma {:induction false} ChildPlaces(lib: Library, leaves: seq<Digest>, k: nat, j: nat, low: nat)
    requires k > 0 && j < Width(|leaves|, k) && low == j * Power(2, k) < |leaves|
    requires Power(2, k) == 2 * Power(2, k - 1) && Power(2, k - 1) > 0
    requires 2 * j + 1 < Width(|leaves|, k - 1) <==> low + Power(2, k - 1) < |leaves|
    ensures Node(lib, leaves, k, j) == TopDown(lib, Places(leaves, low, Power(2, k)), k)
    decreases k, j, 0
  {
    hide Power, Places;
    var half := Power(2, k - 1);
    Doubled(j, k);
    PlacesHalve(leaves, low, half);
    NodeIsTopDown(lib, leaves, k - 1, 2 * j, low);
    if 2 * j + 1 < Width(|leaves|, k - 1) {
      NodeIsTopDown(lib, leaves, k - 1, 2 * j + 1, low + half);
    }
  }

  /** The root of a list is the hexadecimal text of its tree read from the top, at the least depth whose
    places hold the list; the empty list has the digest of the empty string. */
  lemma RootFromTheTop(lib: Library, txs: seq<Transaction>, depth: nat)
    requires |txs| <= Power(2, depth) && (forall d: nat :: |txs| <= Power(2, d) ==> depth <= d)
    ensures MerkleRoot(lib, txs)
            == Hex.Encode(if txs == [] then lib.sha256([]) else TopDown(lib, Leaves(lib, txs), depth))
  {
    if txs != [] {
      hide Hex.Encode, Node, TopDown;
      DepthIsCeilLog(|txs|);
      assert depth == Depth(|txs|);
      RootWidth(|txs|);
      NodeIsTopDown(lib, Leaves(lib, txs), depth, 0, 0);
      assert Places(Leaves(lib, txs), 0, Power(2, depth)) == Leaves(lib, txs);
    }
  }
}
