/** Hash links: a tip hash fixes the whole chain below it, and agreeing hashes a common history. */
module HistoryTheorems {
  import opened Records
  import opened Blocks
  import opened Chains
  import opened ChainTheorems
  import opened Difficulty
  import opened Forks
  import opened LedgerTheorems
  import opened Ledgers
  import opened MerkleBinding
  import opened MerkleTheorems
  import opened SignatureTheorems
  import Merkle

  /** Two chains hold a pair of different headers with one hash. */
  ghost predicate HeadersCollide(lib: Library, a: seq<Block>, b: seq<Block>) {
    exists i, j :: 0 <= i < |a| && 0 <= j < |b| && HeaderCollision(lib, a[i], b[j])
  }

  /** Headers and hashes agree up to height h. */
  ghost predicate SameUpTo(a: seq<Block>, b: seq<Block>, h: nat) {
    && h < |a| && h < |b|
    && forall i :: 0 <= i <= h ==> SameHeader(a[i], b[i]) && a[i].hash == b[i].hash
  }

  lemma HeaderAt(lib: Library, a: ChainState, i: nat, b: ChainState, j: nat)
    requires MarshalInjective(lib) && ValidChain(lib, a) && ValidChain(lib, b)
    requires i < |a.blocks| && j < |b.blocks| && a.blocks[i].hash == b.blocks[j].hash
    ensures HeadersCollide(lib, a.blocks, b.blocks)
         || (SameHeader(a.blocks[i], b.blocks[j]) && i == j
             && (i > 0 ==> a.blocks[i - 1].hash == b.blocks[j - 1].hash))
  {
    hide ComputeHash, MeetsDifficulty, ExpectedAt, Replays, AllTransactions, Merkle.MerkleRoot, HeaderCollision;
    assert BlockOk(lib, a, i) && BlockOk(lib, b, j);
    SameHashSameHeader(lib, a.blocks[i], b.blocks[j]);
  }

  /** In valid chains, equal hashes at one height mean equal headers at and below it. */
  lemma {:induction false} AgreementIsDownwardClosed(lib: Library, a: ChainState, b: ChainState, h: nat)
    requires MarshalInjective(lib) && ValidChain(lib, a) && ValidChain(lib, b)
    requires h < |a.blocks| && h < |b.blocks| && a.blocks[h].hash == b.blocks[h].hash
    ensures SameUpTo(a.blocks, b.blocks, h) || HeadersCollide(lib, a.blocks, b.blocks)
    decreases h
  {
    hide ValidChain;
    HeaderAt(lib, a, h, b, h);
    if h > 0 && !HeadersCollide(lib, a.blocks, b.blocks) {
      AgreementIsDownwardClosed(lib, a, b, h - 1);
    }
  }

  /** Tamper evidence: valid chains with one tip hash have equal length and equal headers at every
    height; policies and pending pools may differ. */
  lemma TipFixesHeaders(lib: Library, a: ChainState, b: ChainState)
    requires MarshalInjective(lib) && ValidChain(lib, a) && ValidChain(lib, b)
    requires a.Latest().hash == b.Latest().hash
    ensures HeadersCollide(lib, a.blocks, b.blocks)
         || (|a.blocks| == |b.blocks| && SameUpTo(a.blocks, b.blocks, |a.blocks| - 1))
  {
    hide BlockOk, Replays, AllTransactions;
    HeaderAt(lib, a, |a.blocks| - 1, b, |b.blocks| - 1);
    if !HeadersCollide(lib, a.blocks, b.blocks) {
      AgreementIsDownwardClosed(lib, a, b, |a.blocks| - 1);
    }
  }

  // ---------- transactions ----------

  /** t is s followed by grants that s already holds. */
  ghost predicate GrantsRepeated(s: seq<Transaction>, t: seq<Transaction>) {
    && ExtendedByRepeats(s, t)
    && forall k :: |s| <= k < |t| ==> t[k].sender == FAUCET_ACCOUNT
  }

  /** No grant occurs twice: something a caller can check on one block. */
  predicate DistinctGrants(txs: seq<Transaction>) {
    forall i, j :: 0 <= i < j < |txs| && txs[i].sender == FAUCET_ACCOUNT ==> txs[i] != txs[j]
  }

  /** In an accepted history a signed transaction cannot occur twice, so only grants are repeated. */
  lemma OnlyGrantsRepeat(lib: Library, before: seq<Transaction>, s: seq<Transaction>, t: seq<Transaction>)
    requires Replays(lib, before + t) && ExtendedByRepeats(s, t)
    ensures GrantsRepeated(s, t)
    ensures DistinctGrants(t) ==> s == t
  {
    hide Replays;
    forall k | |s| <= k < |t| ensures t[k].sender == FAUCET_ACCOUNT {
      var j :| 0 <= j < |s| && s[j] == t[k];
      var all, n := before + t, |before|;
      assert all[n + j] == t[j] == s[j] && all[n + k] == t[k];
      if t[k].sender != FAUCET_ACCOUNT {
        NoReplay(lib, all, n + j, n + k);
      }
    }
    if |s| < |t| {
      var j :| 0 <= j < |s| && s[j] == t[|s|];
      assert t[j] == t[|s|];
    }
  }

  lemma BlockReplays(lib: Library, a: ChainState, i: nat)
    requires ValidChain(lib, a) && i < |a.blocks|
    ensures Replays(lib, AllTransactions(a.blocks[..i]) + a.blocks[i].transactions)
  {
    hide BlockOk, Replays, AllTransactions;
    ValidAt(lib, a, i);
    AllTransactionsNext(a.blocks, i);
  }

  /** Blocks of valid chains with one root hold the same transactions up to repeated grants. */
  ghost predicate SameUpToGrants(lib: Library, s: seq<Transaction>, t: seq<Transaction>) {
    || (GrantsRepeated(s, t) && (DistinctGrants(t) ==> s == t))
    || (GrantsRepeated(t, s) && (DistinctGrants(s) ==> s == t))
    || TextInside(lib, s, t)
    || TextInside(lib, t, s)
    || Collides(lib, RootInputs(lib, s), RootInputs(lib, t))
    || Collides(lib, RootInputs(lib, t), RootInputs(lib, s))
  }

  lemma RootFixesTransactions(lib: Library, a: ChainState, b: ChainState, i: nat)
    requires MarshalInjective(lib) && ValidChain(lib, a) && ValidChain(lib, b)
    requires i < |a.blocks| && i < |b.blocks|
    requires Merkle.MerkleRoot(lib, a.blocks[i].transactions) == Merkle.MerkleRoot(lib, b.blocks[i].transactions)
    ensures SameUpToGrants(lib, a.blocks[i].transactions, b.blocks[i].transactions)
  {
    hide ValidChain, Replays, AllTransactions, Merkle.MerkleRoot, RootInputs, Collides, TextInside;
    hide ExtendedByRepeats, GrantsRepeated, DistinctGrants;
    var s, t := a.blocks[i].transactions, b.blocks[i].transactions;
    BlockReplays(lib, a, i);
    BlockReplays(lib, b, i);
    if |s| <= |t| {
      RootFixesList(lib, s, t);
      if ExtendedByRepeats(s, t) {
        OnlyGrantsRepeat(lib, AllTransactions(b.blocks[..i]), s, t);
      }
    } else {
      RootFixesList(lib, t, s);
      if ExtendedByRepeats(t, s) {
        OnlyGrantsRepeat(lib, AllTransactions(a.blocks[..i]), t, s);
      }
    }
  }

  /** Tamper evidence for transactions: under one tip hash, two versions of a block differ at most by
    repeating a grant it holds at its end, and not at all where no grant occurs twice. */
  lemma TipFixesTransactions(lib: Library, a: ChainState, b: ChainState, i: nat)
    requires MarshalInjective(lib) && ValidChain(lib, a) && ValidChain(lib, b)
    requires a.Latest().hash == b.Latest().hash
    requires i < |a.blocks| && i < |b.blocks|
    ensures HeadersCollide(lib, a.blocks, b.blocks)
         || SameUpToGrants(lib, a.blocks[i].transactions, b.blocks[i].transactions)
  {
    hide ComputeHash, MeetsDifficulty, ExpectedAt, Replays, AllTransactions, Merkle.MerkleRoot, SameUpToGrants;
    TipFixesHeaders(lib, a, b);
    if !HeadersCollide(lib, a.blocks, b.blocks) {
      assert BlockOk(lib, a, i) && BlockOk(lib, b, i);
      assert SameHeader(a.blocks[i], b.blocks[i]);
      RootFixesTransactions(lib, a, b, i);
    }
  }

  /** The chain with other transactions in its tip block and every header as it was. */
  function WithTipTransactions(a: ChainState, txs: seq<Transaction>): ChainState
    requires a.blocks != []
  {
    var n := |a.blocks| - 1;
    a.(blocks := a.blocks[..n] + [a.blocks[n].(transactions := txs)])
  }

  /** A grant that was accepted once is accepted again, as often as it comes. */
  lemma {:induction false} RepeatedGrantsReplay(lib: Library, before: seq<Transaction>, s: seq<Transaction>,
                                                t: seq<Transaction>)
    requires Replays(lib, before + s) && GrantsRepeated(s, t)
    ensures Replays(lib, before + t)
    decreases |t|
  {
    hide Replays, TransactionFault, Transferred;
    if |s| == |t| {
      assert s == t;
    } else {
      var n := |t| - 1;
      RepeatedGrantsReplay(lib, before, s, t[..n]);
      var j :| 0 <= j < |s| && s[j] == t[n];
      AcceptedIsWellFormed(lib, before + s, |before| + j);
      assert before + t[..n] + [t[n]] == before + t;
      GrantReplays(lib, before + t[..n], t[n]);
    }
  }

  lemma GrantReplays(lib: Library, txs: seq<Transaction>, tx: Transaction)
    requires Replays(lib, txs) && TransactionFault(lib, tx).None? && tx.sender == FAUCET_ACCOUNT
    ensures Replays(lib, txs + [tx])
  {
    hide Replay, TransactionFault, Transferred;
    ReplayOneMore(lib, txs, tx);
  }

  lemma TipHistory(a: ChainState, txs: seq<Transaction>)
    requires a.blocks != []
    ensures AllTransactions(WithTipTransactions(a, txs).blocks)
            == AllTransactions(a.blocks[..|a.blocks| - 1]) + txs
  {
    var blocks := WithTipTransactions(a, txs).blocks;
    assert blocks[..|blocks| - 1] == a.blocks[..|a.blocks| - 1];
  }

  lemma SamePayloadSameHash(lib: Library, x: Block, y: Block)
    requires x.Payload() == y.Payload()
    ensures ComputeHash(lib, x) == ComputeHash(lib, y)
  {}

  lemma GrantIsPositive(lib: Library, tx: Transaction)
    requires TransactionFault(lib, tx).None?
    ensures tx.amount > 0
  {}

  /** b is a with other transactions in its blocks; the policy and every header are as they were. */
  ghost predicate SameHeaders(a: ChainState, b: ChainState) {
    && b.schedule == a.schedule && b.retarget == a.retarget
    && |b.blocks| == |a.blocks|
    && forall i :: 0 <= i < |a.blocks| ==> b.blocks[i] == a.blocks[i].(transactions := b.blocks[i].transactions)
  }

  ghost predicate SameRoot(lib: Library, x: Block, y: Block) {
    Merkle.MerkleRoot(lib, x.transactions) == Merkle.MerkleRoot(lib, y.transactions)
  }

  /** The header checks see only the root. */
  lemma HeaderSeesRoot(lib: Library, a: ChainState, b: ChainState, i: nat)
    requires ValidChain(lib, a) && SameHeaders(a, b) && i < |a.blocks|
    ensures BlockOk(lib, b, i) <==> SameRoot(lib, a.blocks[i], b.blocks[i])
  {
    hide ComputeHash, MeetsDifficulty, Merkle.MerkleRoot, DifficultyAt, Replays, AllTransactions;
    var sorted := lib.sortRules(a.schedule);
    assert BlockOk(lib, a, i);
    DifficultyIsLocal(sorted, sorted, b.blocks, a.blocks, a.retarget, i);
    SamePayloadSameHash(lib, a.blocks[i], b.blocks[i]);
  }

  /** Which other transactions a valid chain can hold, in any of its blocks, under the same headers:
    exactly those with the same roots whose history replays; and each block then differs at most by
    repeated grants, collisions and confused texts aside. */
  lemma TransactionAlternatives(lib: Library, a: ChainState, b: ChainState)
    requires ValidChain(lib, a) && SameHeaders(a, b)
    ensures ValidChain(lib, b) <==>
            && (forall i :: 0 <= i < |a.blocks| ==> SameRoot(lib, a.blocks[i], b.blocks[i]))
            && Replays(lib, AllTransactions(b.blocks))
    ensures ValidChain(lib, b) && MarshalInjective(lib) ==>
              forall i :: 0 <= i < |a.blocks| ==>
                SameUpToGrants(lib, a.blocks[i].transactions, b.blocks[i].transactions)
  {
    hide BlockOk, Replays, AllTransactions, SameUpToGrants, SameRoot, SameHeaders;
    assert |b.blocks| == |a.blocks| && b.schedule == a.schedule && b.retarget == a.retarget by {
      SameShape(a, b);
    }
    forall i | 0 <= i < |a.blocks|
      ensures BlockOk(lib, b, i) <==> SameRoot(lib, a.blocks[i], b.blocks[i])
      ensures ValidChain(lib, b) && MarshalInjective(lib) ==>
                SameUpToGrants(lib, a.blocks[i].transactions, b.blocks[i].transactions)
    {
      HeaderSeesRoot(lib, a, b, i);
      if ValidChain(lib, b) && MarshalInjective(lib) {
        RootAt(lib, a, b, i);
        RootFixesTransactions(lib, a, b, i);
      }
    }
  }

  lemma SameShape(a: ChainState, b: ChainState)
    requires SameHeaders(a, b)
    ensures |b.blocks| == |a.blocks| && b.schedule == a.schedule && b.retarget == a.retarget
  {}

  lemma RootAt(lib: Library, a: ChainState, b: ChainState, i: nat)
    requires ValidChain(lib, a) && ValidChain(lib, b) && SameHeaders(a, b) && i < |a.blocks| && i < |b.blocks|
    ensures Merkle.MerkleRoot(lib, a.blocks[i].transactions) == Merkle.MerkleRoot(lib, b.blocks[i].transactions)
  {
    hide Merkle.MerkleRoot, BlockOk, Replays, AllTransactions;
    HeaderSeesRoot(lib, a, b, i);
  }

  /** At the tip the replaying lists are known: with the same root, exactly the repeated grants go
    unnoticed. A valid chain stays valid under other tip transactions when one of the lists repeats
    grants of the other, and otherwise only through a collision or a confused text. */
  lemma TipAlternatives(lib: Library, a: ChainState, txs: seq<Transaction>)
    requires ValidChain(lib, a)
    ensures WithTipTransactions(a, txs).Latest().hash == a.Latest().hash
    ensures Merkle.MerkleRoot(lib, a.Latest().transactions) == Merkle.MerkleRoot(lib, txs) ==>
            GrantsRepeated(a.Latest().transactions, txs) || GrantsRepeated(txs, a.Latest().transactions) ==>
            ValidChain(lib, WithTipTransactions(a, txs))
    ensures MarshalInjective(lib) && ValidChain(lib, WithTipTransactions(a, txs)) ==>
            && Merkle.MerkleRoot(lib, a.Latest().transactions) == Merkle.MerkleRoot(lib, txs)
            && SameUpToGrants(lib, a.Latest().transactions, txs)
  {
    hide BlockOk, Replays, AllTransactions, SameUpToGrants, GrantsRepeated, Merkle.MerkleRoot;
    var b, s, n := WithTipTransactions(a, txs), a.Latest().transactions, |a.blocks| - 1;
    var before := AllTransactions(a.blocks[..n]);
    TipHistory(a, txs);
    BlockReplays(lib, a, n);
    if GrantsRepeated(s, txs) {
      RepeatedGrantsReplay(lib, before, s, txs);
    }
    if GrantsRepeated(txs, s) {
      FewerReplay(lib, before, txs, s);
    }
    TransactionAlternatives(lib, a, b);
    assert SameRoot(lib, a.blocks[n], b.blocks[n]) <==> Merkle.MerkleRoot(lib, s) == Merkle.MerkleRoot(lib, txs);
  }

  lemma FewerReplay(lib: Library, before: seq<Transaction>, s: seq<Transaction>, t: seq<Transaction>)
    requires Replays(lib, before + t) && GrantsRepeated(s, t)
    ensures Replays(lib, before + s)
  {
    hide Replays;
    assert before + t == (before + s) + t[|s|..];
    ReplayPrefix(lib, before + s, t[|s|..]);
  }

  /** So tamper evidence fails for grants: the last grant of a tip with an odd number of at least three
    transactions can be given again. The chain still validates, the tip hash is the same and more has
    been minted. */
  lemma RepeatedGrantGoesUnnoticed(lib: Library, a: ChainState)
    requires ValidChain(lib, a)
    requires var s := a.Latest().transactions;
             |s| >= 3 && |s| % 2 == 1 && s[|s| - 1].sender == FAUCET_ACCOUNT
    ensures var s := a.Latest().transactions;
            var b := WithTipTransactions(a, s + [s[|s| - 1]]);
            && ValidChain(lib, b)
            && b.Latest().hash == a.Latest().hash
            && Minted(AllTransactions(b.blocks)) > Minted(AllTransactions(a.blocks))
  {
    hide BlockOk, Merkle.MerkleRoot, Replays, TransactionFault, AllTransactions, SameUpToGrants;
    var s, n := a.Latest().transactions, |a.blocks| - 1;
    var last := s[|s| - 1];
    RepeatedLastKeepsRoot(lib, s);
    assert GrantsRepeated(s, s + [last]);
    TipAlternatives(lib, a, s + [last]);
    TipHistory(a, s + [last]);
    TipHistory(a, s);
    var history := AllTransactions(a.blocks[..n]) + s;
    assert WithTipTransactions(a, s) == a;
    assert AllTransactions(a.blocks[..n]) + (s + [last]) == history + [last];
    assert (history + [last])[..|history|] == history;
    BlockReplays(lib, a, n);
    AcceptedIsWellFormed(lib, history, |history| - 1);
    GrantIsPositive(lib, last);
  }

  /** The ancestor found by stopping at the first mismatch is the highest height with equal hashes,
    and all headers up to it agree. */
  lemma AncestorIsHighest(lib: Library, a: ChainState, b: ChainState)
    requires MarshalInjective(lib) && ValidChain(lib, a) && ValidChain(lib, b)
    ensures var r := AncestorHeight(a.blocks, b.blocks);
            || HeadersCollide(lib, a.blocks, b.blocks)
            || (&& -1 <= r < |a.blocks| && r < |b.blocks|
                && (r >= 0 ==> SameUpTo(a.blocks, b.blocks, r))
                && forall h :: r < h < |a.blocks| && h < |b.blocks| ==> a.blocks[h].hash != b.blocks[h].hash)
  {
    hide ValidChain;
    if !HeadersCollide(lib, a.blocks, b.blocks) {
      var k := AgreedPrefix(a.blocks, b.blocks);
      if k > 0 {
        AcceptedDifficulty(lib, a, k - 1);
        AgreementIsDownwardClosed(lib, a, b, k - 1);
      }
      forall h | k <= h < |a.blocks| && h < |b.blocks| ensures a.blocks[h].hash != b.blocks[h].hash {
        if a.blocks[h].hash == b.blocks[h].hash {
          AgreementIsDownwardClosed(lib, a, b, h);
        }
      }
    }
  }

  lemma {:induction false} SameHeadersSameWork(a: seq<Block>, b: seq<Block>, k: nat)
    requires k <= |a| && k <= |b|
    requires forall i :: 0 <= i < k ==> SameHeader(a[i], b[i])
    ensures WorkOf(a[..k]) == WorkOf(b[..k])
    decreases k
  {
    if k > 0 {
      SameHeadersSameWork(a, b, k - 1);
      assert a[..k][..k - 1] == a[..k - 1] && b[..k][..k - 1] == b[..k - 1];
      assert SameHeader(a[k - 1], b[k - 1]);
    }
  }

  lemma {:induction false} PrefixHasNoMoreWork(a: seq<Block>, k: nat)
    requires k <= |a|
    ensures WorkOf(a[..k]) <= WorkOf(a)
    decreases |a|
  {
    if k < |a| {
      PrefixHasNoMoreWork(a[..|a| - 1], k);
      assert a[..|a| - 1][..k] == a[..k];
    } else {
      assert a[..k] == a;
    }
  }

  /** On every adoption the chains share genesis and part strictly below the new tip. */
  lemma AdoptionForks(lib: Library, c: ChainState, candidate: ChainState)
    requires MarshalInjective(lib)
    requires Refusal(lib, c, candidate).None?
    ensures HeadersCollide(lib, c.blocks, candidate.blocks)
         || 0 <= AncestorHeight(c.blocks, candidate.blocks) < candidate.Latest().height
  {
    hide BlockOk, Replays, AllTransactions, SamePolicy;
    var n := |candidate.blocks|;
    AncestorIsHighest(lib, c, candidate);
    AcceptedDifficulty(lib, candidate, n - 1);
    var r := AncestorHeight(c.blocks, candidate.blocks);
    if !HeadersCollide(lib, c.blocks, candidate.blocks) && r == n - 1 {
      assert candidate.blocks[..n] == candidate.blocks;
      PrefixHasNoMoreWork(c.blocks, n);
      SameHeadersSameWork(c.blocks, candidate.blocks, n);
    }
  }
}
