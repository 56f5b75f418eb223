/** Conservation of value and the absence of replays, over whole histories. */
module LedgerTheorems {
  import opened Records
  import opened Blocks
  import opened Ledgers

  // ---------- conservation ----------

  /** The sum of all balances. */
  ghost function Total(m: map<string, int>): int
    decreases |m|
  {
    if m == map[] then 0
    else
      var k :| k in m;
      m[k] + Total(m - {k})
  }

  lemma {:induction false} TotalRemove(m: map<string, int>, k: string)
    requires k in m
    ensures Total(m) == m[k] + Total(m - {k})
    decreases |m|
  {
    var j :| j in m && Total(m) == m[j] + Total(m - {j});
    if j != k {
      TotalRemove(m - {j}, k);
      TotalRemove(m - {k}, j);
      assert m - {j} - {k} == m - {k} - {j};
    }
  }

  lemma TotalUpdate(m: map<string, int>, k: string, v: int)
    ensures Total(m[k := v]) == Total(m) - Get(m, k) + v
  {
    var m' := m[k := v];
    TotalRemove(m', k);
    if k in m {
      TotalRemove(m, k);
      assert m' - {k} == m - {k};
    } else {
      assert m' - {k} == m;
    }
  }

  lemma {:induction false} EachAtMostTotal(m: map<string, int>, k: string)
    requires forall a :: a in m ==> m[a] >= 0
    ensures 0 <= Get(m, k) <= Total(m)
    decreases |m|
  {
    if k in m {
      TotalRemove(m, k);
      TotalNonNegative(m - {k});
    } else {
      TotalNonNegative(m);
    }
  }

  lemma {:induction false} TotalNonNegative(m: map<string, int>)
    requires forall a :: a in m ==> m[a] >= 0
    ensures Total(m) >= 0
    decreases |m|
  {
    if m != map[] {
      var k :| k in m && Total(m) == m[k] + Total(m - {k});
      TotalNonNegative(m - {k});
    }
  }

  /** The sum of the amounts of the faucet transactions. */
  function Minted(txs: seq<Transaction>): int {
    if txs == [] then 0
    else
      var tx := txs[|txs| - 1];
      Minted(txs[..|txs| - 1]) + if tx.sender == FAUCET_ACCOUNT then tx.amount else 0
  }

  /** In unbounded arithmetic no value appears or vanishes and no account is overdrawn. */
  lemma {:induction false} Conservation(lib: Library, txs: seq<Transaction>)
    requires Replay(lib, Unbounded, EMPTY, txs).Some?
    ensures var l := Replay(lib, Unbounded, EMPTY, txs).value;
            && Total(l.balances) == Minted(txs)
            && forall a :: a in l.balances ==> l.balances[a] >= 0
    decreases |txs|
  {
    if txs != [] {
      var n := |txs| - 1;
      var l, tx := Replay(lib, Unbounded, EMPTY, txs[..n]).value, txs[n];
      Conservation(lib, txs[..n]);
      TransferConserves(lib, l, tx);
    }
  }

  lemma TransferConserves(lib: Library, l: LedgerState, tx: Transaction)
    requires Rejects(lib, l, tx).None?
    requires forall a :: a in l.balances ==> l.balances[a] >= 0
    ensures var l' := Transferred(Unbounded, l, tx);
            && Total(l'.balances) == Total(l.balances) + (if tx.sender == FAUCET_ACCOUNT then tx.amount else 0)
            && forall a :: a in l'.balances ==> l'.balances[a] >= 0
  {
    hide SignatureFault, IsBlank, NextNonceOf;
    assert tx.amount > 0;
    var debited := l.balances;
    if tx.sender != FAUCET_ACCOUNT {
      TotalUpdate(debited, tx.sender, Get(debited, tx.sender) - tx.amount);
      debited := debited[tx.sender := Get(debited, tx.sender) - tx.amount];
    }
    TotalUpdate(debited, tx.recipient, Get(debited, tx.recipient) + tx.amount);
  }

  // ---------- int64 ----------

  ghost predicate InInt64(m: map<string, int>) {
    forall a :: a in m ==> -0x8000_0000_0000_0000 <= m[a] <= MAX_INT64
  }

  ghost predicate NonNegative(m: map<string, int>) {
    forall a :: a in m ==> m[a] >= 0
  }

  /** If transaction k is reached and accepted, int64 can hold the balance of its recipient after it. */
  ghost predicate Fits(lib: Library, txs: seq<Transaction>, k: nat)
    requires k < |txs|
  {
    var before := Replay(lib, Int64, EMPTY, txs[..k]);
    before.Some? && Rejects(lib, before.value, txs[k]).None? ==> Credited(Int64, before.value, txs[k]) <= MAX_INT64
  }

  ghost predicate AllFit(lib: Library, txs: seq<Transaction>) {
    forall k :: 0 <= k < |txs| ==> Fits(lib, txs, k)
  }

  /** The number of accepted credits that do not fit. */
  ghost function Wraps(lib: Library, txs: seq<Transaction>): nat {
    if txs == [] then 0
    else Wraps(lib, txs[..|txs| - 1]) + if Fits(lib, txs, |txs| - 1) then 0 else 1
  }

  lemma FitsInPrefix(lib: Library, txs: seq<Transaction>, n: nat, k: nat)
    requires k < n <= |txs|
    ensures Fits(lib, txs[..n], k) == Fits(lib, txs, k)
  {
    hide Replay, Credited, Rejects;
    assert txs[..n][..k] == txs[..k];
  }

  lemma AllFitNext(lib: Library, txs: seq<Transaction>)
    requires txs != []
    ensures AllFit(lib, txs) <==> AllFit(lib, txs[..|txs| - 1]) && Fits(lib, txs, |txs| - 1)
  {
    hide Fits;
    var n := |txs| - 1;
    forall k | 0 <= k < n ensures Fits(lib, txs[..n], k) == Fits(lib, txs, k) {
      FitsInPrefix(lib, txs, n, k);
    }
  }

  lemma {:induction false} WrapsNone(lib: Library, txs: seq<Transaction>)
    ensures Wraps(lib, txs) == 0 <==> AllFit(lib, txs)
    decreases |txs|
  {
    hide Fits;
    if txs != [] {
      WrapsNone(lib, txs[..|txs| - 1]);
      AllFitNext(lib, txs);
    }
  }

  lemma WrapInRange(x: int)
    requires -0x8000_0000_0000_0000 <= x <= MAX_INT64
    ensures Wrap64(x) == x
  {}

  /** A credit that does not fit leaves its recipient below zero. */
  lemma WrapsOnce(x: int)
    requires MAX_INT64 < x <= 2 * MAX_INT64
    ensures Wrap64(x) == x - 0x1_0000_0000_0000_0000 < 0
  {}

  lemma TransferWraps(lib: Library, l: LedgerState, tx: Transaction)
    requires Rejects(lib, l, tx).None? && InInt64(l.balances)
    ensures var l', credited := Transferred(Int64, l, tx), Credited(Int64, l, tx);
            && InInt64(l'.balances)
            && Total(l'.balances) == Total(l.balances) + (if tx.sender == FAUCET_ACCOUNT then tx.amount else 0)
                                     - (if credited <= MAX_INT64 then 0 else 0x1_0000_0000_0000_0000)
            && (credited <= MAX_INT64 ==> Store(Int64, credited) == credited)
            && (credited > MAX_INT64 ==> Get(l'.balances, tx.recipient) < 0)
            && (credited <= MAX_INT64 && NonNegative(l.balances) ==> NonNegative(l'.balances))
            && Debited(Int64, l, tx) == Debited(Unbounded, l, tx)
  {
    hide Wrap64, SignatureFault, IsBlank, NextNonceOf;
    assert tx.amount > 0;
    var debited := l.balances;
    if tx.sender != FAUCET_ACCOUNT {
      var left := Get(debited, tx.sender) - tx.amount;
      WrapInRange(left);
      TotalUpdate(debited, tx.sender, left);
      debited := debited[tx.sender := left];
    }
    var credited := Get(debited, tx.recipient) + tx.amount;
    if credited <= MAX_INT64 {
      WrapInRange(credited);
    } else {
      WrapsOnce(credited);
    }
    TotalUpdate(debited, tx.recipient, Wrap64(credited));
  }

  /** The program's balances sum to the amounts granted, less 2^64 for every credit that did not fit. */
  lemma {:induction false} Int64LosesOnlyWraps(lib: Library, txs: seq<Transaction>)
    requires Replays(lib, txs)
    ensures var l := Replay(lib, Int64, EMPTY, txs).value;
            InInt64(l.balances) && Total(l.balances) == Minted(txs) - 0x1_0000_0000_0000_0000 * Wraps(lib, txs)
    decreases |txs|
  {
    if txs != [] {
      hide Transferred, Credited, Debited, Rejects;
      var n := |txs| - 1;
      Int64LosesOnlyWraps(lib, txs[..n]);
      TransferWraps(lib, Replay(lib, Int64, EMPTY, txs[..n]).value, txs[n]);
    }
  }

  /** After every accepted prefix all balances are at least zero. */
  ghost predicate NeverNegative(lib: Library, txs: seq<Transaction>) {
    forall k :: 0 <= k <= |txs| && Replays(lib, txs[..k]) ==>
      NonNegative(Replay(lib, Int64, EMPTY, txs[..k]).value.balances)
  }

  lemma NeverNegativeNext(lib: Library, txs: seq<Transaction>)
    requires txs != []
    ensures NeverNegative(lib, txs) <==>
            NeverNegative(lib, txs[..|txs| - 1]) &&
            (Replays(lib, txs) ==> NonNegative(Replay(lib, Int64, EMPTY, txs).value.balances))
  {
    hide Replay, NonNegative;
    var n := |txs| - 1;
    assert txs[..|txs|] == txs;
    forall k | 0 <= k <= n ensures txs[..n][..k] == txs[..k] {}
    if NeverNegative(lib, txs) {
      forall k | 0 <= k <= n && Replays(lib, txs[..n][..k])
        ensures NonNegative(Replay(lib, Int64, EMPTY, txs[..n][..k]).value.balances)
      {
        assert Replays(lib, txs[..k]);
      }
    }
  }

  lemma NonNegativeBefore(lib: Library, txs: seq<Transaction>)
    requires NeverNegative(lib, txs) && Replays(lib, txs)
    ensures NonNegative(Replay(lib, Int64, EMPTY, txs).value.balances)
  {
    hide Replay, NonNegative;
    assert txs[..|txs|] == txs;
  }

  /** What the last transaction of an accepted sequence does, by whether it fits. */
  lemma LastStep(lib: Library, txs: seq<Transaction>)
    requires txs != [] && Replays(lib, txs)
    ensures Replays(lib, txs[..|txs| - 1])
    ensures var before := Replay(lib, Int64, EMPTY, txs[..|txs| - 1]).value.balances;
            var after := Replay(lib, Int64, EMPTY, txs).value.balances;
            if Fits(lib, txs, |txs| - 1) then NonNegative(before) ==> NonNegative(after) else !NonNegative(after)
  {
    hide Transferred, Credited, Debited, Rejects, InInt64;
    var n := |txs| - 1;
    Int64LosesOnlyWraps(lib, txs[..n]);
    TransferWraps(lib, Replay(lib, Int64, EMPTY, txs[..n]).value, txs[n]);
  }

  lemma RefusedFits(lib: Library, txs: seq<Transaction>)
    requires txs != [] && !Replays(lib, txs)
    ensures Fits(lib, txs, |txs| - 1)
  {
    hide Transferred, Credited, Rejects;
  }

  /** The program never shows a negative balance exactly when every credit fits. */
  lemma {:induction false} NegativeExactly(lib: Library, txs: seq<Transaction>)
    ensures NeverNegative(lib, txs) <==> AllFit(lib, txs)
    decreases |txs|
  {
    if txs == [] {
      assert txs[..0] == [];
    } else {
      hide Replay, Fits, AllFit, NeverNegative, NonNegative;
      NegativeExactly(lib, txs[..|txs| - 1]);
      NeverNegativeNext(lib, txs);
      AllFitNext(lib, txs);
      if !Replays(lib, txs) {
        RefusedFits(lib, txs);
      } else {
        LastStep(lib, txs);
        if NeverNegative(lib, txs[..|txs| - 1]) {
          NonNegativeBefore(lib, txs[..|txs| - 1]);
        }
      }
    }
  }

  /** What the program conserves: for an accepted history, no value is lost or made exactly when every
    credit fits. */
  lemma ConservationExactly(lib: Library, txs: seq<Transaction>)
    requires Replays(lib, txs)
    ensures Total(Replay(lib, Int64, EMPTY, txs).value.balances) == Minted(txs) <==> AllFit(lib, txs)
  {
    hide Replay, AllFit;
    Int64LosesOnlyWraps(lib, txs);
    WrapsNone(lib, txs);
  }

  /** The program's ledger and the unbounded one accept the same prefixes of a sequence and hold the
    same balances after each. */
  ghost predicate LedgersAgree(lib: Library, txs: seq<Transaction>) {
    forall k :: 0 <= k <= |txs| ==> Replay(lib, Int64, EMPTY, txs[..k]) == Replay(lib, Unbounded, EMPTY, txs[..k])
  }

  lemma LedgersAgreeNext(lib: Library, txs: seq<Transaction>)
    requires txs != []
    ensures LedgersAgree(lib, txs) <==>
            LedgersAgree(lib, txs[..|txs| - 1]) && Replay(lib, Int64, EMPTY, txs) == Replay(lib, Unbounded, EMPTY, txs)
  {
    hide Replay;
    var n := |txs| - 1;
    assert txs[..|txs|] == txs;
    forall k | 0 <= k <= n ensures txs[..n][..k] == txs[..k] {}
    if LedgersAgree(lib, txs) {
      forall k | 0 <= k <= n
        ensures Replay(lib, Int64, EMPTY, txs[..n][..k]) == Replay(lib, Unbounded, EMPTY, txs[..n][..k])
      {
        assert Replay(lib, Int64, EMPTY, txs[..k]) == Replay(lib, Unbounded, EMPTY, txs[..k]);
      }
    }
  }

  lemma AgreeBefore(lib: Library, txs: seq<Transaction>)
    requires LedgersAgree(lib, txs)
    ensures Replay(lib, Int64, EMPTY, txs) == Replay(lib, Unbounded, EMPTY, txs)
  {
    hide Replay;
    assert txs[..|txs|] == txs;
  }

  lemma TransfersAgreeExactly(lib: Library, l: LedgerState, tx: Transaction)
    requires Rejects(lib, l, tx).None? && InInt64(l.balances)
    ensures Transferred(Int64, l, tx) == Transferred(Unbounded, l, tx) <==> Credited(Int64, l, tx) <= MAX_INT64
  {
    hide Rejects, Wrap64;
    TransferWraps(lib, l, tx);
    var r, credited := tx.recipient, Credited(Int64, l, tx);
    assert Transferred(Int64, l, tx).balances[r] == Store(Int64, credited);
    assert Transferred(Unbounded, l, tx).balances[r] == credited;
  }

  /** From agreeing ledgers, the last transaction keeps them in agreement exactly if it fits. */
  lemma LastAgrees(lib: Library, txs: seq<Transaction>)
    requires txs != []
    requires Replay(lib, Int64, EMPTY, txs[..|txs| - 1]) == Replay(lib, Unbounded, EMPTY, txs[..|txs| - 1])
    ensures Replay(lib, Int64, EMPTY, txs) == Replay(lib, Unbounded, EMPTY, txs) <==> Fits(lib, txs, |txs| - 1)
  {
    hide Transferred, Credited, Debited, Rejects, InInt64;
    var n := |txs| - 1;
    var before := Replay(lib, Int64, EMPTY, txs[..n]);
    if before.Some? && Rejects(lib, before.value, txs[n]).None? {
      Int64LosesOnlyWraps(lib, txs[..n]);
      TransfersAgreeExactly(lib, before.value, txs[n]);
    }
  }

  /** Any sequence, accepted or not: int64 is exact if and only if every accepted credit fits. */
  lemma {:induction false} Int64IsExact(lib: Library, txs: seq<Transaction>)
    ensures LedgersAgree(lib, txs) <==> AllFit(lib, txs)
    decreases |txs|
  {
    if txs == [] {
      assert txs[..0] == [];
    } else {
      hide Replay, Fits, AllFit, LedgersAgree;
      Int64IsExact(lib, txs[..|txs| - 1]);
      LedgersAgreeNext(lib, txs);
      AllFitNext(lib, txs);
      if LedgersAgree(lib, txs[..|txs| - 1]) {
        AgreeBefore(lib, txs[..|txs| - 1]);
        LastAgrees(lib, txs);
      }
    }
  }

  lemma {:induction false} MintedGrows(lib: Library, txs: seq<Transaction>, k: nat)
    requires Replays(lib, txs) && k <= |txs|
    ensures Minted(txs[..k]) <= Minted(txs)
    decreases |txs|
  {
    hide Store, SignatureFault, IsBlank;
    if k < |txs| {
      var n := |txs| - 1;
      MintedGrows(lib, txs[..n], k);
      assert txs[..n][..k] == txs[..k];
    } else {
      assert txs[..k] == txs;
    }
  }

  /** A sufficient bound: every credit fits while at most 2^63-1 has been granted. */
  lemma {:induction false} BoundedGrantsFit(lib: Library, txs: seq<Transaction>)
    requires Replays(lib, txs) && Minted(txs) <= MAX_INT64
    ensures AllFit(lib, txs)
    decreases |txs|
  {
    if txs != [] {
      hide Transferred, Credited, Debited, Rejects, AllFit, InInt64;
      var n := |txs| - 1;
      MintedGrows(lib, txs, n);
      BoundedGrantsFit(lib, txs[..n]);
      AllFitNext(lib, txs);
      NegativeExactly(lib, txs[..n]);
      ConservationExactly(lib, txs[..n]);
      NonNegativeBefore(lib, txs[..n]);
      CreditAtMostTotal(lib, Replay(lib, Int64, EMPTY, txs[..n]).value, txs[n]);
    }
  }

  lemma CreditAtMostTotal(lib: Library, l: LedgerState, tx: Transaction)
    requires Rejects(lib, l, tx).None? && NonNegative(l.balances) && Total(l.balances) <= MAX_INT64
    ensures Credited(Int64, l, tx) <= Total(l.balances) + (if tx.sender == FAUCET_ACCOUNT then tx.amount else 0)
  {
    hide Wrap64, SignatureFault, IsBlank, NextNonceOf;
    TransferConserves(lib, l, tx);
    EachAtMostTotal(l.balances, tx.sender);
    EachAtMostTotal(Transferred(Unbounded, l, tx).balances, tx.recipient);
    WrapInRange(Get(l.balances, tx.sender) - tx.amount);
  }

  /** So under that bound the program conserves value and shows no negative balance. */
  lemma BoundedConservation(lib: Library, txs: seq<Transaction>)
    requires Replays(lib, txs) && Minted(txs) <= MAX_INT64
    ensures AllFit(lib, txs)
    ensures var l := Replay(lib, Int64, EMPTY, txs).value;
            NonNegative(l.balances) && Total(l.balances) == Minted(txs)
  {
    hide Replay, AllFit, NonNegative, NeverNegative;
    BoundedGrantsFit(lib, txs);
    NegativeExactly(lib, txs);
    ConservationExactly(lib, txs);
    NonNegativeBefore(lib, txs);
  }

  function Grant(amount: int64): Transaction { Transaction(FAUCET_ACCOUNT, "a", amount, 0, "", "") }

  lemma GrantAccepted(lib: Library, l: LedgerState, amount: int64)
    requires amount > 0
    ensures Rejects(lib, l, Grant(amount)).None?
  {
    assert !IsBlank("a") by { assert !IsSpace("a"[0]); }
    assert !IsBlank(FAUCET_ACCOUNT) by { assert !IsSpace(FAUCET_ACCOUNT[0]); }
  }

  /** A credit that does not fit is accepted: two grants leave a balance of -2^63. */
  lemma OverflowedGrantGoesNegative(lib: Library)
    ensures var l := Replay(lib, Int64, EMPTY, [Grant(MAX_INT64), Grant(1)]);
            l.Some? && Get(l.value.balances, "a") == -MAX_INT64 - 1
  {
    hide Rejects;
    var big, one := Grant(MAX_INT64), Grant(1);
    assert [big, one][..1] == [big] && [big][..0] == [];
    GrantAccepted(lib, EMPTY, MAX_INT64);
    var l := Transferred(Int64, EMPTY, big);
    assert Replay(lib, Int64, EMPTY, []) == Some(EMPTY);
    assert Replay(lib, Int64, EMPTY, [big]) == Some(l);
    GrantAccepted(lib, l, 1);
    assert Get(l.balances, "a") == MAX_INT64;
    assert Get(Transferred(Int64, l, one).balances, "a") == Wrap64(MAX_INT64 + 1);
  }

  // ---------- no replay ----------

  /** The number of signed transactions of one sender. */
  function Sends(txs: seq<Transaction>, account: string): nat {
    if txs == [] then 0
    else Sends(txs[..|txs| - 1], account) + if txs[|txs| - 1].sender == account then 1 else 0
  }

  /** The last accepted nonce of an account is the number of its transactions; the next is one more. */
  lemma {:induction false} LastNonceCounts(lib: Library, arithmetic: Arithmetic, txs: seq<Transaction>, account: string)
    requires account != FAUCET_ACCOUNT
    requires Replay(lib, arithmetic, EMPTY, txs).Some?
    ensures LastNonceOf(Replay(lib, arithmetic, EMPTY, txs).value, account) == Sends(txs, account)
    ensures Sends(txs, account) < MAX_UINT64 ==>
              NextNonceOf(Replay(lib, arithmetic, EMPTY, txs).value, account) == Sends(txs, account) + 1
    decreases |txs|
  {
    hide Rejects, Store;
    if txs != [] {
      var n := |txs| - 1;
      LastNonceCounts(lib, arithmetic, txs[..n], account);
      if txs[n].sender == account {
        AcceptedExactly(lib, Replay(lib, arithmetic, EMPTY, txs[..n]).value, txs[n]);
      }
    }
  }

  /** What acceptance means: a well-formed grant, or a well-formed send that the sender can pay and that
    carries the number after its last one. A wrapped nonce counter would demand nonce 0, which no
    well-formed send carries. */
  lemma AcceptedExactly(lib: Library, l: LedgerState, tx: Transaction)
    ensures Rejects(lib, l, tx).None? <==>
            && TransactionFault(lib, tx).None?
            && (|| tx.sender == FAUCET_ACCOUNT
                || (tx.nonce == LastNonceOf(l, tx.sender) + 1 && tx.amount <= Get(l.balances, tx.sender)))
  {
    hide SignatureFault, IsBlank;
  }

  /** The i-th signed transaction of each sender carries nonce i. */
  lemma NonceIsRank(lib: Library, txs: seq<Transaction>, i: nat)
    requires Replays(lib, txs)
    requires i < |txs| && txs[i].sender != FAUCET_ACCOUNT
    ensures txs[i].nonce == Sends(txs[..i], txs[i].sender) + 1
  {
    assert txs == txs[..i + 1] + txs[i + 1..];
    ReplayPrefix(lib, txs[..i + 1], txs[i + 1..]);
    assert txs[..i + 1][..i] == txs[..i];
    var before := Replay(lib, Int64, EMPTY, txs[..i]).value;
    LastNonceCounts(lib, Int64, txs[..i], txs[i].sender);
    AcceptedExactly(lib, before, txs[i]);
  }

  lemma {:induction false} SendsGrow(txs: seq<Transaction>, i: nat, j: nat, account: string)
    requires i < j <= |txs|
    ensures Sends(txs[..i], account) + (if txs[i].sender == account then 1 else 0) <= Sends(txs[..j], account)
    decreases j
  {
    assert txs[..j][..j - 1] == txs[..j - 1];
    if i < j - 1 {
      SendsGrow(txs, i, j - 1, account);
    }
  }

  /** No (sender, nonce) pair occurs twice in an accepted history; nonces of a sender increase. */
  lemma NoReplay(lib: Library, txs: seq<Transaction>, i: nat, j: nat)
    requires Replays(lib, txs)
    requires i < j < |txs| && txs[i].sender == txs[j].sender != FAUCET_ACCOUNT
    ensures txs[i].nonce < txs[j].nonce
  {
    NonceIsRank(lib, txs, i);
    NonceIsRank(lib, txs, j);
    SendsGrow(txs, i, j, txs[i].sender);
  }
}
