/** Who holds what: balances as sums over the transactions alone (ledger/ledger.go). */
module HoldingsTheorems {
  import opened Records
  import opened Blocks
  import opened Integers
  import opened Ledgers
  import opened LedgerTheorems

  /** The sum of the amounts an account was given, by the faucet or by others. */
  function Received(txs: seq<Transaction>, account: string): int {
    if txs == [] then 0
    else
      var tx := txs[|txs| - 1];
      Received(txs[..|txs| - 1], account) + if tx.recipient == account then tx.amount else 0
  }

  /** The sum of the amounts an account has sent; grants are sent by nobody. */
  function Sent(txs: seq<Transaction>, account: string): int {
    if txs == [] then 0
    else
      var tx := txs[|txs| - 1];
      Sent(txs[..|txs| - 1], account)
      + if tx.sender == account && account != FAUCET_ACCOUNT then tx.amount else 0
  }

  lemma WrapAgain(x: int, y: int)
    ensures Wrap64(Wrap64(x) + y) == Wrap64(x + y)
  {
    var n, half := 0x1_0000_0000_0000_0000, 0x8000_0000_0000_0000;
    var q := (x + half) / n;
    assert Wrap64(x) == x - n * q;
    assert x + y + half == n * ((x + y + half) / n) + (x + y + half) % n;
    Quotient(x - n * q + y + half, n, (x + y + half) / n - q, (x + y + half) % n);
  }

  lemma StoreAgain(arithmetic: Arithmetic, x: int, y: int)
    ensures Store(arithmetic, Store(arithmetic, x) + y) == Store(arithmetic, x + y)
  {
    hide Wrap64;
    WrapAgain(x, y);
  }

  lemma StoreZero(arithmetic: Arithmetic)
    ensures Store(arithmetic, 0) == 0
  {}

  /** One accepted transaction: the recipient gains the amount, a sender other than the faucet loses it,
    and nobody else is touched. */
  lemma TransferMoves(lib: Library, arithmetic: Arithmetic, l: LedgerState, tx: Transaction, account: string, x: int)
    requires Rejects(lib, l, tx).None?
    requires Get(l.balances, account) == Store(arithmetic, x)
    ensures Get(Transferred(arithmetic, l, tx).balances, account) ==
            Store(arithmetic, x + (if tx.recipient == account then tx.amount else 0)
                                - (if tx.sender == account && account != FAUCET_ACCOUNT then tx.amount else 0))
  {
    hide Wrap64, SignatureFault, IsBlank, NextNonceOf;
    StoreAgain(arithmetic, x, tx.amount);
    StoreAgain(arithmetic, x, -tx.amount);
  }

  lemma {:induction false} HoldingsFollow(lib: Library, arithmetic: Arithmetic, txs: seq<Transaction>, account: string)
    requires Replay(lib, arithmetic, EMPTY, txs).Some?
    ensures Get(Replay(lib, arithmetic, EMPTY, txs).value.balances, account)
            == Store(arithmetic, Received(txs, account) - Sent(txs, account))
    decreases |txs|
  {
    hide Rejects, Transferred, Store, Wrap64;
    if txs == [] {
      StoreZero(arithmetic);
    } else {
      var n := |txs| - 1;
      HoldingsFollow(lib, arithmetic, txs[..n], account);
      TransferMoves(lib, arithmetic, Replay(lib, arithmetic, EMPTY, txs[..n]).value, txs[n], account,
                    Received(txs[..n], account) - Sent(txs[..n], account));
    }
  }

  /** After any accepted history an account holds what it received less what it sent, modulo 2^64; and
    exactly that if and only if int64 can hold the difference. */
  lemma HoldingsExactly(lib: Library, txs: seq<Transaction>, account: string)
    requires Replays(lib, txs)
    ensures var held := Get(Replay(lib, Int64, EMPTY, txs).value.balances, account);
            var due := Received(txs, account) - Sent(txs, account);
            && (held - due) % 0x1_0000_0000_0000_0000 == 0
            && (held == due <==> -0x8000_0000_0000_0000 <= due <= MAX_INT64)
  {
    hide Replay;
    HoldingsFollow(lib, Int64, txs, account);
    WrapMeans(Received(txs, account) - Sent(txs, account));
  }

  lemma WrapMeans(x: int)
    ensures (Wrap64(x) - x) % 0x1_0000_0000_0000_0000 == 0
    ensures Wrap64(x) == x <==> -0x8000_0000_0000_0000 <= x <= MAX_INT64
  {
    var n, half := 0x1_0000_0000_0000_0000, 0x8000_0000_0000_0000;
    var q := (x + half) / n;
    assert Wrap64(x) - x == n * (-q);
    Quotient(n * (-q), n, -q, 0);
  }

  /** Where every credit fits, each account holds what it received less what it sent, never less than
    nothing. */
  lemma FittingHoldings(lib: Library, txs: seq<Transaction>, account: string)
    requires Replays(lib, txs) && AllFit(lib, txs)
    ensures Get(Replay(lib, Int64, EMPTY, txs).value.balances, account)
            == Received(txs, account) - Sent(txs, account)
    ensures Received(txs, account) >= Sent(txs, account)
  {
    hide Replay, AllFit, LedgersAgree, NeverNegative;
    Int64IsExact(lib, txs);
    AgreeBefore(lib, txs);
    HoldingsFollow(lib, Unbounded, txs, account);
    NegativeExactly(lib, txs);
    NonNegativeBefore(lib, txs);
  }

  /** So an accepted send of an amount that fits moves exactly that amount. */
  lemma SendMoves(lib: Library, txs: seq<Transaction>, tx: Transaction, account: string)
    requires Replays(lib, txs + [tx]) && AllFit(lib, txs + [tx]) && tx.sender != FAUCET_ACCOUNT
    ensures Replays(lib, txs)
    ensures var before := Get(Replay(lib, Int64, EMPTY, txs).value.balances, account);
            var after := Get(Replay(lib, Int64, EMPTY, txs + [tx]).value.balances, account);
            after == before + (if account == tx.recipient then tx.amount else 0)
                            - (if account == tx.sender then tx.amount else 0)
  {
    hide Replay, AllFit;
    ReplayPrefix(lib, txs, [tx]);
    assert (txs + [tx])[..|txs|] == txs;
    AllFitNext(lib, txs + [tx]);
    FittingHoldings(lib, txs, account);
    FittingHoldings(lib, txs + [tx], account);
  }
}
