/** Balances and nonces derived by replaying transactions (ledger/ledger.go).

  The program keeps balances in int64, where a credit can wrap. `Replay` is the specification of
  replaying; its `arithmetic` argument selects the program's int64 or unbounded integers. */
module Ledgers {
  import opened Records
  import opened Blocks

  datatype LedgerState = LedgerState(balances: map<string, int>, nonces: map<string, uint64>)

  const EMPTY: LedgerState := LedgerState(map[], map[])

  datatype Arithmetic = Int64 | Unbounded

  datatype Rejection = BadTransaction(error: TransactionError) | WrongNonce | InsufficientBalance

  function Wrap64(x: int): int64 {
    (x + 0x8000_0000_0000_0000) % 0x1_0000_0000_0000_0000 - 0x8000_0000_0000_0000
  }

  function Store(arithmetic: Arithmetic, x: int): int {
    if arithmetic.Int64? then Wrap64(x) else x
  }

  function Get(m: map<string, int>, account: string): int {
    if account in m then m[account] else 0
  }

  function LastNonceOf(l: LedgerState, account: string): uint64 {
    if account in l.nonces then l.nonces[account] else 0
  }

  /** uint64 addition. */
  function NextNonceOf(l: LedgerState, account: string): uint64 {
    (LastNonceOf(l, account) + 1) % 0x1_0000_0000_0000_0000
  }

  function Rejects(lib: Library, l: LedgerState, tx: Transaction): Option<Rejection> {
    var fault := TransactionFault(lib, tx);
    if fault.Some? then Some(BadTransaction(fault.value))
    else if tx.sender == FAUCET_ACCOUNT then None
    else if tx.nonce != NextNonceOf(l, tx.sender) then Some(WrongNonce)
    else if Get(l.balances, tx.sender) < tx.amount then Some(InsufficientBalance)
    else None
  }

  /** The sender pays and its nonce is recorded; grants cost nobody anything. */
  function Debited(arithmetic: Arithmetic, l: LedgerState, tx: Transaction): LedgerState {
    if tx.sender == FAUCET_ACCOUNT then l
    else LedgerState(l.balances[tx.sender := Store(arithmetic, Get(l.balances, tx.sender) - tx.amount)],
                     l.nonces[tx.sender := tx.nonce])
  }

  /** What the recipient would hold after an accepted transaction if integers had no bound. */
  function Credited(arithmetic: Arithmetic, l: LedgerState, tx: Transaction): int {
    Get(Debited(arithmetic, l, tx).balances, tx.recipient) + tx.amount
  }

  /** The ledger after an accepted transaction. */
  function Transferred(arithmetic: Arithmetic, l: LedgerState, tx: Transaction): LedgerState {
    var debited := Debited(arithmetic, l, tx);
    debited.(balances := debited.balances[tx.recipient := Store(arithmetic, Credited(arithmetic, l, tx))])
  }

  /** The ledger after a whole sequence, if every transaction in it is accepted in turn. */
  function Replay(lib: Library, arithmetic: Arithmetic, l: LedgerState, txs: seq<Transaction>): Option<LedgerState> {
    if txs == [] then Some(l)
    else
      var n := |txs| - 1;
      var before := Replay(lib, arithmetic, l, txs[..n]);
      if before.Some? && Rejects(lib, before.value, txs[n]).None?
      then Some(Transferred(arithmetic, before.value, txs[n]))
      else None
  }

  /** The program accepts the sequence as a history. */
  predicate Replays(lib: Library, txs: seq<Transaction>) {
    Replay(lib, Int64, EMPTY, txs).Some?
  }

  function AllTransactions(blocks: seq<Block>): seq<Transaction> {
    if blocks == [] then []
    else AllTransactions(blocks[..|blocks| - 1]) + blocks[|blocks| - 1].transactions
  }

  lemma {:induction false} ReplayConcat(lib: Library, arithmetic: Arithmetic, l: LedgerState,
                                        a: seq<Transaction>, b: seq<Transaction>)
    ensures Replay(lib, arithmetic, l, a + b) ==
            var mid := Replay(lib, arithmetic, l, a);
            if mid.Some? then Replay(lib, arithmetic, mid.value, b) else None
    decreases |b|
  {
    if b == [] {
      assert a + b == a;
    } else {
      hide Rejects, Transferred;
      var n := |b| - 1;
      ReplayConcat(lib, arithmetic, l, a, b[..n]);
      assert (a + b)[..|a + b| - 1] == a + b[..n];
    }
  }

  lemma ReplayPrefix(lib: Library, a: seq<Transaction>, b: seq<Transaction>)
    requires Replays(lib, a + b)
    ensures Replays(lib, a)
  {
    ReplayConcat(lib, Int64, EMPTY, a, b);
  }

  lemma {:induction false} AllTransactionsConcat(a: seq<Block>, b: seq<Block>)
    ensures AllTransactions(a + b) == AllTransactions(a) + AllTransactions(b)
    decreases |b|
  {
    if b == [] {
      assert a + b == a;
    } else {
      AllTransactionsConcat(a, b[..|b| - 1]);
      assert (a + b)[..|a + b| - 1] == a + b[..|b| - 1];
    }
  }

  class Ledger {
    const lib: Library
    var balances: map<string, int64>
    var nonces: map<string, uint64>

    ghost function State(): LedgerState
      reads this
    {
      LedgerState(balances, nonces)
    }

    constructor (lib: Library)
      ensures State() == EMPTY && this.lib == lib
    {
      this.lib := lib;
      balances := map[];
      nonces := map[];
    }

    function Balance(account: string): (b: int64)
      reads this
      ensures b == Get(State().balances, account)
    {
      if account in balances then balances[account] else 0
    }

    function NextNonce(account: string): (n: uint64)
      reads this
      ensures n == NextNonceOf(State(), account)
    {
      var last: int := if account in nonces then nonces[account] else 0;
      (last + 1) % 0x1_0000_0000_0000_0000
    }

    method ValidateTransaction(tx: Transaction) returns (error: Option<Rejection>)
      ensures error == Rejects(lib, State(), tx)
    {
      hide TransactionFault, NextNonceOf;
      var fault := TransactionFault(lib, tx);
      if fault.Some? {
        return Some(BadTransaction(fault.value));
      }
      if tx.sender == FAUCET_ACCOUNT {
        return None;
      }
      var expectedNonce := NextNonce(tx.sender);
      if tx.nonce != expectedNonce {
        return Some(WrongNonce);
      }
      if Balance(tx.sender) < tx.amount {
        return Some(InsufficientBalance);
      }
      return None;
    }

    method Apply(tx: Transaction) returns (error: Option<Rejection>)
      modifies this
      ensures error == Rejects(lib, old(State()), tx)
      ensures State() == if error.None? then Transferred(Int64, old(State()), tx) else old(State())
    {
      hide Rejects, Wrap64;
      error := ValidateTransaction(tx);
      if error.Some? {
        return;
      }
      if tx.sender != FAUCET_ACCOUNT {
        balances := balances[tx.sender := Wrap64(Balance(tx.sender) - tx.amount)];
        nonces := nonces[tx.sender := tx.nonce];
      }
      balances := balances[tx.recipient := Wrap64(Balance(tx.recipient) + tx.amount)];
    }

    /** Stops at the first rejected transaction, after applying the ones before it. */
    method ApplyBlock(b: Block) returns (error: Option<Rejection>)
      modifies this
      ensures error.None? <==> Replay(lib, Int64, old(State()), b.transactions).Some?
      ensures error.None? ==> Replay(lib, Int64, old(State()), b.transactions) == Some(State())
      ensures error.Some? ==>
                exists k ::
                  && 0 <= k < |b.transactions|
                  && Replay(lib, Int64, old(State()), b.transactions[..k]) == Some(State())
                  && Rejects(lib, State(), b.transactions[k]) == error
    {
      hide Rejects, Transferred;
      error := None;
      for i := 0 to |b.transactions|
        invariant error.None?
        invariant Replay(lib, Int64, old(State()), b.transactions[..i]) == Some(State())
      {
        assert b.transactions[..i + 1][..i] == b.transactions[..i];
        error := Apply(b.transactions[i]);
        if error.Some? {
          assert b.transactions == b.transactions[..i + 1] + b.transactions[i + 1..];
          ReplayConcat(lib, Int64, old(State()), b.transactions[..i + 1], b.transactions[i + 1..]);
          return;
        }
      }
      assert b.transactions[..|b.transactions|] == b.transactions;
    }
  }

  method Rebuild(lib: Library, blocks: seq<Block>) returns (result: Option<Ledger>)
    ensures result.Some? <==> Replays(lib, AllTransactions(blocks))
    ensures result.Some? ==>
              && fresh(result.value)
              && result.value.lib == lib
              && Replay(lib, Int64, EMPTY, AllTransactions(blocks)) == Some(result.value.State())
  {
    hide Replay;
    var ledger := new Ledger(lib);
    ReplayNothing(lib, EMPTY);
    for i := 0 to |blocks|
      invariant fresh(ledger) && ledger.lib == lib
      invariant Replay(lib, Int64, EMPTY, AllTransactions(blocks[..i])) == Some(ledger.State())
    {
      assert blocks[..i + 1][..i] == blocks[..i];
      ReplayConcat(lib, Int64, EMPTY, AllTransactions(blocks[..i]), blocks[i].transactions);
      var error := ledger.ApplyBlock(blocks[i]);
      if error.Some? {
        assert blocks == blocks[..i + 1] + blocks[i + 1..];
        AllTransactionsConcat(blocks[..i + 1], blocks[i + 1..]);
        ReplayConcat(lib, Int64, EMPTY, AllTransactions(blocks[..i + 1]), AllTransactions(blocks[i + 1..]));
        return None;
      }
    }
    assert blocks[..|blocks|] == blocks;
    return Some(ledger);
  }

  lemma ReplayNothing(lib: Library, l: LedgerState)
    ensures Replay(lib, Int64, l, []) == Some(l)
  {}
}
