/** Which lists of transactions share a Merkle root (block/merkle.go). */
module MerkleBinding {
  import opened Records
  import opened Merkle
  import opened MerkleTheorems
  import Hex

  // ---------- binding ----------

  /** Node i over s and node j over t, both of level k, have the same leaves below them. */
  ghost predicate SameLeavesBelow(s: seq<Digest>, t: seq<Digest>, k: nat, i: nat, j: nat)
    requires i < Width(|s|, k) && j < Width(|t|, k)
  {
    forall turns: seq<bool> :: |turns| == k ==> s[LeafOf(|s|, turns, i)] == t[LeafOf(|t|, turns, j)]
  }

  lemma BelowChildren(s: seq<Digest>, t: seq<Digest>, k: nat, i: nat, j: nat, right: bool)
    requires i < Width(|s|, k + 1) && j < Width(|t|, k + 1) && SameLeavesBelow(s, t, k + 1, i, j)
    ensures SameLeavesBelow(s, t, k, Child(|s|, k, right, i), Child(|t|, k, right, j))
  {
    hide Width, Child;
    var x, y := Child(|s|, k, right, i), Child(|t|, k, right, j);
    forall turns: seq<bool> | |turns| == k ensures s[LeafOf(|s|, turns, x)] == t[LeafOf(|t|, turns, y)] {
      var longer := turns + [right];
      assert longer[..k] == turns && longer[k] == right;
      assert s[LeafOf(|s|, longer, i)] == t[LeafOf(|t|, longer, j)];
    }
  }

  lemma BelowParent(s: seq<Digest>, t: seq<Digest>, k: nat, i: nat, j: nat)
    requires i < Width(|s|, k + 1) && j < Width(|t|, k + 1)
    requires forall right: bool :: SameLeavesBelow(s, t, k, Child(|s|, k, right, i), Child(|t|, k, right, j))
    ensures SameLeavesBelow(s, t, k + 1, i, j)
  {
    hide Width, Child;
    forall turns: seq<bool> | |turns| == k + 1 ensures s[LeafOf(|s|, turns, i)] == t[LeafOf(|t|, turns, j)] {
      assert |turns[..k]| == k;
      assert SameLeavesBelow(s, t, k, Child(|s|, k, turns[k], i), Child(|t|, k, turns[k], j));
    }
  }

  lemma ChildrenSplit(s: seq<Digest>, t: seq<Digest>, k: nat, i: nat, j: nat)
    requires k > 0 && i < Width(|s|, k) && j < Width(|t|, k)
    ensures SameLeavesBelow(s, t, k, i, j) <==>
            SameLeavesBelow(s, t, k - 1, 2 * i, 2 * j) &&
            SameLeavesBelow(s, t, k - 1, RightChild(Width(|s|, k - 1), i), RightChild(Width(|t|, k - 1), j))
  {
    hide SameLeavesBelow;
    if SameLeavesBelow(s, t, k, i, j) {
      BelowChildren(s, t, k - 1, i, j, false);
      BelowChildren(s, t, k - 1, i, j, true);
    }
    if SameLeavesBelow(s, t, k - 1, 2 * i, 2 * j) &&
       SameLeavesBelow(s, t, k - 1, RightChild(Width(|s|, k - 1), i), RightChild(Width(|t|, k - 1), j)) {
      BelowParent(s, t, k - 1, i, j);
    }
  }

  /** Two nodes of one level are equal exactly when the leaves below them are, collisions aside. */
  lemma {:induction false} NodesAgree(lib: Library, s: seq<Digest>, t: seq<Digest>, k: nat, i: nat, j: nat)
    requires i < Width(|s|, k) && j < Width(|t|, k)
    ensures SameLeavesBelow(s, t, k, i, j) ==> Node(lib, s, k, i) == Node(lib, t, k, j)
    ensures Node(lib, s, k, i) == Node(lib, t, k, j) ==>
            SameLeavesBelow(s, t, k, i, j) || Collides(lib, TreeInputs(lib, s, k), TreeInputs(lib, t, k))
  {
    if k == 0 {
      assert LeafOf(|s|, [], i) == i && LeafOf(|t|, [], j) == j;
    } else {
      var ir, jr := RightChild(Width(|s|, k - 1), i), RightChild(Width(|t|, k - 1), j);
      NodesAgree(lib, s, t, k - 1, 2 * i, 2 * j);
      NodesAgree(lib, s, t, k - 1, ir, jr);
      ChildrenSplit(s, t, k, i, j);
      var p, q := Preimage(lib, s, k, i), Preimage(lib, t, k, j);
      assert p in RowInputs(lib, s, k) && q in RowInputs(lib, t, k);
      if p == q {
        JoinSplits(Node(lib, s, k - 1, 2 * i), Node(lib, s, k - 1, ir),
                   Node(lib, t, k - 1, 2 * j), Node(lib, t, k - 1, jr));
        if Collides(lib, TreeInputs(lib, s, k - 1), TreeInputs(lib, t, k - 1)) {
          CollidesMonotone(lib, TreeInputs(lib, s, k - 1), TreeInputs(lib, t, k - 1),
                           TreeInputs(lib, s, k), TreeInputs(lib, t, k));
        }
      }
    }
  }

  /** Which lists share a root: for trees of equal depth, exactly those that lead to the same leaf
    hash along every path from the root. */
  lemma RootsAgreeExactly(lib: Library, s: seq<Transaction>, t: seq<Transaction>)
    requires s != [] && t != [] && Depth(|s|) == Depth(|t|)
    ensures Width(|s|, Depth(|s|)) == 1 && Width(|t|, Depth(|s|)) == 1
    ensures SameLeavesBelow(Leaves(lib, s), Leaves(lib, t), Depth(|s|), 0, 0) ==>
            MerkleRoot(lib, s) == MerkleRoot(lib, t)
    ensures MerkleRoot(lib, s) == MerkleRoot(lib, t) ==>
            SameLeavesBelow(Leaves(lib, s), Leaves(lib, t), Depth(|s|), 0, 0)
            || Collides(lib, RootInputs(lib, s), RootInputs(lib, t))
  {
    var a, b, d := Leaves(lib, s), Leaves(lib, t), Depth(|s|);
    RootWidth(|s|);
    RootWidth(|t|);
    NodesAgree(lib, a, b, d, 0, 0);
    if MerkleRoot(lib, s) == MerkleRoot(lib, t) {
      Hex.EncodeInjective(TreeRoot(lib, a), TreeRoot(lib, b));
      if Collides(lib, TreeInputs(lib, a, d), TreeInputs(lib, b, d)) {
        CollidesMonotone(lib, TreeInputs(lib, a, d), TreeInputs(lib, b, d), RootInputs(lib, s), RootInputs(lib, t));
      }
    }
  }

  // ---------- trees of different depth ----------

  /** The text of the first transaction of s is one of the strings hashed above the leaves of t. */
  ghost predicate TextInside(lib: Library, s: seq<Transaction>, t: seq<Transaction>) {
    s != [] && lib.marshalTransaction(s[0]) in InnerInputs(lib, t)
  }

  /** Only a text of 64 bytes, or an empty one against the empty list, can be such a string. */
  lemma TextInsideLength(lib: Library, s: seq<Transaction>, t: seq<Transaction>)
    requires TextInside(lib, s, t)
    ensures |lib.marshalTransaction(s[0])| == if t == [] then 0 else 64
  {
    hide Preimage;
    if t != [] {
      TreeInputLength(lib, Leaves(lib, t), Depth(|t|));
    }
  }

  lemma {:induction false} TreeInputLength(lib: Library, leaves: seq<Digest>, k: nat)
    ensures forall b: Bytes :: b in TreeInputs(lib, leaves, k) ==> |b| == 64
  {
    if k > 0 {
      TreeInputLength(lib, leaves, k - 1);
    }
  }

  /** Two equal nodes above the leaves hash the same string, or two that collide. */
  lemma SamePreimage(lib: Library, a: seq<Digest>, k: nat, b: seq<Digest>, m: nat)
    requires a != [] && b != [] && k > 0 && m > 0
    requires Node(lib, a, k, 0) == Node(lib, b, m, 0)
    ensures Preimage(lib, a, k, 0) == Preimage(lib, b, m, 0)
         || Collides(lib, TreeInputs(lib, a, k), TreeInputs(lib, b, m))
  {
    hide Preimage, Width;
    assert Preimage(lib, a, k, 0) in RowInputs(lib, a, k);
    assert Preimage(lib, b, m, 0) in RowInputs(lib, b, m);
  }

  lemma LeafIsNode(lib: Library, s: seq<Transaction>, b: seq<Digest>, m: nat)
    requires s != [] && b != [] && m > 0
    requires LeafHash(lib, s[0]) == Node(lib, b, m, 0)
    ensures var text := lib.marshalTransaction(s[0]);
            text in TreeInputs(lib, b, m) || Collides(lib, {text}, TreeInputs(lib, b, m))
  {
    hide Preimage, Width;
    assert Preimage(lib, b, m, 0) in RowInputs(lib, b, m);
  }

  /** Equal leftmost nodes of different levels: following both down to the leaves of s meets an inner
    node of t. */
  lemma {:induction false} LeftmostMeets(lib: Library, s: seq<Transaction>, t: seq<Transaction>, k: nat, up: nat)
    requires s != [] && t != [] && up > 0
    requires Node(lib, Leaves(lib, s), k, 0) == Node(lib, Leaves(lib, t), k + up, 0)
    ensures var inputs := TreeInputs(lib, Leaves(lib, t), k + up);
            || lib.marshalTransaction(s[0]) in inputs
            || Collides(lib, TreeInputs(lib, Leaves(lib, s), k) + {lib.marshalTransaction(s[0])}, inputs)
    decreases k
  {
    hide Preimage, Width, RowInputs, Collides;
    var a, b := Leaves(lib, s), Leaves(lib, t);
    var text, inputs := lib.marshalTransaction(s[0]), TreeInputs(lib, b, k + up);
    var left := TreeInputs(lib, a, k) + {text};
    if k == 0 {
      assert left == {text};
      LeafIsNode(lib, s, b, up);
    } else {
      SamePreimage(lib, a, k, b, k + up);
      if Collides(lib, TreeInputs(lib, a, k), inputs) {
        CollidesMonotone(lib, TreeInputs(lib, a, k), inputs, left, inputs);
      } else {
        LeftHalves(lib, a, k, b, k + up);
        LeftmostMeets(lib, s, t, k - 1, up);
        var lower, inner := TreeInputs(lib, a, k - 1) + {text}, TreeInputs(lib, b, k + up - 1);
        if Collides(lib, lower, inner) {
          CollidesMonotone(lib, lower, inner, left, inputs);
        }
      }
    }
  }

  lemma LeftHalves(lib: Library, a: seq<Digest>, k: nat, b: seq<Digest>, m: nat)
    requires a != [] && b != [] && k > 0 && m > 0
    requires Preimage(lib, a, k, 0) == Preimage(lib, b, m, 0)
    ensures Node(lib, a, k - 1, 0) == Node(lib, b, m - 1, 0)
  {
    JoinSplits(Node(lib, a, k - 1, 0), Node(lib, a, k - 1, RightChild(Width(|a|, k - 1), 0)),
               Node(lib, b, m - 1, 0), Node(lib, b, m - 1, RightChild(Width(|b|, m - 1), 0)));
  }

  /** Trees of different depth share a root only if the text of the first transaction of the
    shallower list is hashed as two digests inside the deeper tree, collisions aside. */
  lemma DepthsDiffer(lib: Library, s: seq<Transaction>, t: seq<Transaction>)
    requires s != [] && Depth(|s|) < Depth(|t|)
    requires MerkleRoot(lib, s) == MerkleRoot(lib, t)
    ensures TextInside(lib, s, t) || Collides(lib, RootInputs(lib, s), RootInputs(lib, t))
  {
    hide Hex.Encode, Node, TreeInputs;
    var a, b := Leaves(lib, s), Leaves(lib, t);
    RootWidth(|s|);
    RootWidth(|t|);
    Hex.EncodeInjective(TreeRoot(lib, a), TreeRoot(lib, b));
    LeftmostMeets(lib, s, t, Depth(|s|), Depth(|t|) - Depth(|s|));
    var left := TreeInputs(lib, a, Depth(|s|)) + {lib.marshalTransaction(s[0])};
    if Collides(lib, left, TreeInputs(lib, b, Depth(|t|))) {
      CollidesMonotone(lib, left, TreeInputs(lib, b, Depth(|t|)), RootInputs(lib, s), RootInputs(lib, t));
    }
  }

  /** The empty list shares its root with another only if that one is a single transaction with an
    empty text, collisions aside. */
  lemma EmptyRoot(lib: Library, t: seq<Transaction>)
    requires t != [] && MerkleRoot(lib, []) == MerkleRoot(lib, t)
    ensures (|t| == 1 && TextInside(lib, t, [])) || Collides(lib, RootInputs(lib, []), RootInputs(lib, t))
  {
    hide Hex.Encode;
    var b, d := Leaves(lib, t), Depth(|t|);
    RootWidth(|t|);
    Hex.EncodeInjective(lib.sha256([]), TreeRoot(lib, b));
    assert [] in RootInputs(lib, []);
    if d == 0 {
      assert lib.marshalTransaction(t[0]) in RootInputs(lib, t);
      assert lib.sha256([]) == lib.sha256(lib.marshalTransaction(t[0]));
    } else {
      var top := Preimage(lib, b, d, 0);
      assert top in RowInputs(lib, b, d);
      assert top in RootInputs(lib, t) && lib.sha256([]) == lib.sha256(top);
    }
  }

  // ---------- what a root fixes ----------

  /** t is s followed by repetitions of transactions of s. */
  ghost predicate ExtendedByRepeats(s: seq<Transaction>, t: seq<Transaction>) {
    s <= t && forall k :: |s| <= k < |t| ==> t[k] in s
  }

  /** A root fixes its list up to repeated transactions at the end: of two lists with one root, the
    longer is the shorter one followed by transactions it already holds. Collisions aside, and aside
    from a transaction whose text is a string hashed inside the other tree. */
  lemma RootFixesList(lib: Library, s: seq<Transaction>, t: seq<Transaction>)
    requires MarshalInjective(lib)
    requires |s| <= |t| && MerkleRoot(lib, s) == MerkleRoot(lib, t)
    ensures ExtendedByRepeats(s, t) || TextInside(lib, s, t) || TextInside(lib, t, s)
         || Collides(lib, RootInputs(lib, s), RootInputs(lib, t))
  {
    hide Hex.Encode, Node, RootInputs, InnerInputs, Collides, Width;
    if s == [] {
      if t != [] {
        EmptyRoot(lib, t);
      }
    } else {
      DepthGrows(|s|, |t|);
      if Depth(|s|) < Depth(|t|) {
        DepthsDiffer(lib, s, t);
      } else if !Collides(lib, RootInputs(lib, s), RootInputs(lib, t)) {
        RootsAgreeExactly(lib, s, t);
        forall k | 0 <= k < |t| ensures k < |s| ==> t[k] == s[k] ensures t[k] in s {
          var i := LeafOver(lib, s, t, k);
          SameLeafAt(lib, s, i, t, k);
        }
      }
    }
  }

  lemma {:induction false} DepthGrows(m: nat, n: nat)
    requires m <= n
    ensures Depth(m) <= Depth(n)
  {
    if m > 1 {
      DepthGrows((m + 1) / 2, (n + 1) / 2);
    }
  }

  /** Leaf k of t carries the hash of the leaf of s at the end of the same path: leaf k of s if there is one. */
  lemma LeafOver(lib: Library, s: seq<Transaction>, t: seq<Transaction>, k: nat) returns (i: nat)
    requires s != [] && k < |t| && Depth(|s|) == Depth(|t|)
    requires Width(|s|, Depth(|s|)) == 1 && Width(|t|, Depth(|s|)) == 1
    requires SameLeavesBelow(Leaves(lib, s), Leaves(lib, t), Depth(|s|), 0, 0)
    ensures i < |s| && (k < |s| ==> i == k)
    ensures LeafHash(lib, s[i]) == LeafHash(lib, t[k])
  {
    hide Depth, LeafOf, Width;
    var d := Depth(|s|);
    var turns := TurnsTo(k, d);
    assert |turns| == d;
    EveryLeafReached(|t|, k, d);
    if k < |s| {
      EveryLeafReached(|s|, k, d);
    }
    i := LeafOf(|s|, turns, 0);
    assert Leaves(lib, s)[i] == Leaves(lib, t)[LeafOf(|t|, turns, 0)];
  }

  lemma SameLeafAt(lib: Library, s: seq<Transaction>, i: nat, t: seq<Transaction>, k: nat)
    requires MarshalInjective(lib)
    requires i < |s| && k < |t|
    requires LeafHash(lib, s[i]) == LeafHash(lib, t[k])
    requires !Collides(lib, RootInputs(lib, s), RootInputs(lib, t))
    ensures s[i] == t[k]
  {
    hide InnerInputs;
    assert lib.marshalTransaction(s[i]) in RootInputs(lib, s);
    assert lib.marshalTransaction(t[k]) in RootInputs(lib, t);
  }

  /** Lists of equal length with one root are equal, collisions aside. */
  lemma Binding(lib: Library, s: seq<Transaction>, t: seq<Transaction>)
    requires MarshalInjective(lib)
    requires |s| == |t| && MerkleRoot(lib, s) == MerkleRoot(lib, t)
    ensures s == t || Collides(lib, RootInputs(lib, s), RootInputs(lib, t))
  {
    hide Hex.Encode, Node, RootInputs, InnerInputs, Collides, Width;
    if s != [] && !Collides(lib, RootInputs(lib, s), RootInputs(lib, t)) {
      RootsAgreeExactly(lib, s, t);
      forall k | 0 <= k < |s| ensures s[k] == t[k] {
        var i := LeafOver(lib, s, t, k);
        SameLeafAt(lib, s, i, t, k);
      }
    }
  }

  /** Repetitions at the end do occur: repeating the last transaction of a list of odd length at least 3
    keeps the root. */
  lemma RepeatedLastKeepsRoot(lib: Library, txs: seq<Transaction>)
    requires |txs| >= 3 && |txs| % 2 == 1
    ensures MerkleRoot(lib, txs + [txs[|txs| - 1]]) == MerkleRoot(lib, txs)
  {
    var more := txs + [txs[|txs| - 1]];
    var a, b, d := Leaves(lib, txs), Leaves(lib, more), Depth(|txs|);
    assert Depth(|more|) == d;
    RootWidth(|txs|);
    RootWidth(|more|);
    SameAboveLeaves(lib, a, b, d, 0);
  }

  lemma {:induction false} SameAboveLeaves(lib: Library, a: seq<Digest>, b: seq<Digest>, k: nat, j: nat)
    requires |a| % 2 == 1 && b == a + [a[|a| - 1]]
    requires k > 0 && j < Width(|a|, k)
    ensures Width(|b|, k) == Width(|a|, k)
    ensures Node(lib, b, k, j) == Node(lib, a, k, j)
    decreases k
  {
    if k > 1 {
      SameAboveLeaves(lib, a, b, k - 1, 2 * j);
      SameAboveLeaves(lib, a, b, k - 1, RightChild(Width(|a|, k - 1), j));
    } else {
      assert b[2 * j] == a[2 * j];
      assert b[RightChild(|b|, j)] == a[RightChild(|a|, j)];
    }
  }
}
