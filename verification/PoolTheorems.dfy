/** What a merged pool takes over from transactions that the adopted blocks already confirm
  (chain/fork.go). Only grants carry no nonce, and they are taken over again. */
module PoolTheorems {
  import opened Records
  import opened Blocks
  import opened Chains
  import opened ChainTheorems
  import opened Forks
  import opened ForkTheorems
  import opened HistoryTheorems
  import opened Ledgers
  import opened LedgerTheorems
  import opened SignatureTheorems
  import Hex
  import Merkle

  /** A transaction that is both confirmed and pending in a chain in use is a grant. */
  lemma ConfirmedAndPendingIsGrant(lib: Library, cs: ChainState, tx: Transaction)
    requires Replays(lib, cs.History())
    requires tx in AllTransactions(cs.blocks) && tx in cs.pending
    ensures tx.sender == FAUCET_ACCOUNT
  {
    hide Replays, AllTransactions;
    var confirmed, history := AllTransactions(cs.blocks), cs.History();
    var i :| 0 <= i < |confirmed| && confirmed[i] == tx;
    var j :| 0 <= j < |cs.pending| && cs.pending[j] == tx;
    assert history[i] == tx && history[|confirmed| + j] == tx;
    if tx.sender != FAUCET_ACCOUNT {
      NoReplay(lib, history, i, |confirmed| + j);
    }
  }

  /** The strings hashed for the identifiers of a list of transactions. */
  function Texts(lib: Library, txs: seq<Transaction>): set<Bytes> {
    set tx | tx in txs :: lib.marshalTransaction(tx)
  }

  lemma SameIdentifier(lib: Library, txs: seq<Transaction>, s: Transaction, t: Transaction)
    requires MarshalInjective(lib) && s in txs && t in txs
    requires Merkle.TransactionHash(lib, s) == Merkle.TransactionHash(lib, t)
    ensures s == t || Collides(lib, Texts(lib, txs), Texts(lib, txs))
  {
    hide Hex.Encode;
    Hex.EncodeInjective(lib.sha256(lib.marshalTransaction(s)), lib.sha256(lib.marshalTransaction(t)));
    assert lib.marshalTransaction(s) in Texts(lib, txs) && lib.marshalTransaction(t) in Texts(lib, txs);
  }

  lemma {:induction false} SeenAreOffered(lib: Library, target: ChainState, txs: seq<Transaction>, id: string)
    requires id in MergeAll(lib, target, txs).seen
    ensures exists tx :: tx in txs && Merkle.TransactionHash(lib, tx) == id
    decreases |txs|
  {
    hide Merkle.TransactionHash, Replays;
    var n := |txs| - 1;
    assert txs == txs[..n] + [txs[n]];
    if id in MergeAll(lib, target, txs[..n]).seen {
      SeenAreOffered(lib, target, txs[..n], id);
      var tx :| tx in txs[..n] && Merkle.TransactionHash(lib, tx) == id;
      assert tx in txs;
    } else {
      assert txs[n] in txs;
    }
  }

  lemma {:induction false} OfferedAreSeen(lib: Library, target: ChainState, txs: seq<Transaction>, k: nat)
    requires k < |txs|
    ensures Merkle.TransactionHash(lib, txs[k]) in MergeAll(lib, target, txs).seen
    decreases |txs|
  {
    hide Merkle.TransactionHash, Replays;
    if k < |txs| - 1 {
      OfferedAreSeen(lib, target, txs[..|txs| - 1], k);
    }
  }

  /** Each offered transaction in turn enters the pool if and only if none offered before has its
    identifier and it replays after the blocks and the pool as it then is. */
  lemma OfferedIsKeptExactly(lib: Library, target: ChainState, txs: seq<Transaction>, k: nat)
    requires target.pending == [] && Replays(lib, AllTransactions(target.blocks)) && k < |txs|
    ensures var pool := MergeAll(lib, target, txs[..k]).chain.pending;
            var next := MergeAll(lib, target, txs[..k + 1]).chain.pending;
            var isNew := forall j :: 0 <= j < k ==>
                           Merkle.TransactionHash(lib, txs[j]) != Merkle.TransactionHash(lib, txs[k]);
            && (isNew && Replays(lib, AllTransactions(target.blocks) + pool + [txs[k]]) ==> next == pool + [txs[k]])
            && (!(isNew && Replays(lib, AllTransactions(target.blocks) + pool + [txs[k]])) ==> next == pool)
            && next <= MergeAll(lib, target, txs).chain.pending
  {
    hide Merkle.TransactionHash, Replays, AllTransactions;
    var id := Merkle.TransactionHash(lib, txs[k]);
    assert txs[..k + 1][..k] == txs[..k];
    assert txs[..k + 1] + txs[k + 1..] == txs;
    MergeGrows(lib, target, txs[..k + 1], txs[k + 1..]);
    MergeKeepsBlocks(lib, target, txs[..k]);
    if j :| 0 <= j < k && Merkle.TransactionHash(lib, txs[j]) == id {
      OfferedAreSeen(lib, target, txs[..k], j);
    }
    if id in MergeAll(lib, target, txs[..k]).seen {
      SeenAreOffered(lib, target, txs[..k], id);
      var tx :| tx in txs[..k] && Merkle.TransactionHash(lib, tx) == id;
      var j :| 0 <= j < k && txs[j] == tx;
    }
  }

  lemma UnseenGrantEnters(lib: Library, m: Merge, tx: Transaction)
    requires Replays(lib, m.chain.History()) && Merkle.TransactionHash(lib, tx) !in m.seen
    requires tx.sender == FAUCET_ACCOUNT && TransactionFault(lib, tx).None?
    ensures tx in MergeOne(lib, m, tx).chain.pending
  {
    hide Merkle.TransactionHash, Replays, TransactionFault, ChainState.History;
    GrantReplays(lib, m.chain.History(), tx);
  }

  /** What the first k transactions brought into the pool stays there. */
  lemma StaysPending(lib: Library, target: ChainState, txs: seq<Transaction>, k: nat, tx: Transaction)
    requires k <= |txs| && tx in MergeAll(lib, target, txs[..k]).chain.pending
    ensures tx in MergeAll(lib, target, txs).chain.pending
  {
    hide MergeAll;
    assert txs[..k] + txs[k..] == txs;
    MergeGrows(lib, target, txs[..k], txs[k..]);
  }

  lemma {:induction false} GrantsAreKept(lib: Library, target: ChainState, txs: seq<Transaction>, k: nat)
    requires MarshalInjective(lib) && target.pending == [] && Replays(lib, AllTransactions(target.blocks))
    requires k < |txs| && txs[k].sender == FAUCET_ACCOUNT && TransactionFault(lib, txs[k]).None?
    ensures txs[k] in MergeAll(lib, target, txs).chain.pending || Collides(lib, Texts(lib, txs), Texts(lib, txs))
    decreases k
  {
    hide Merkle.TransactionHash, Replays, AllTransactions, TransactionFault, Texts, Collides, MarshalInjective;
    hide MergeOne, IsSubsequence, DistinctIdentifiers, AllSeen, ChainState.History;
    var before, id := MergeAll(lib, target, txs[..k]), Merkle.TransactionHash(lib, txs[k]);
    if id in before.seen {
      SeenAreOffered(lib, target, txs[..k], id);
      var j :| 0 <= j < k && Merkle.TransactionHash(lib, txs[j]) == id;
      SameIdentifier(lib, txs, txs[j], txs[k]);
      if txs[j] == txs[k] {
        GrantsAreKept(lib, target, txs, j);
      }
    } else {
      MergedPoolIsSound(lib, target, txs[..k]);
      UnseenGrantEnters(lib, before, txs[k]);
      assert txs[..k + 1][..k] == txs[..k];
      StaysPending(lib, target, txs, k + 1, txs[k]);
    }
  }

  /** Of the transactions offered to an adopted chain that its blocks already confirm, exactly the grants
    enter the new pool. */
  lemma ConfirmedIsKeptExactly(lib: Library, c: ChainState, candidate: ChainState, tx: Transaction)
    requires MarshalInjective(lib) && Refusal(lib, c, candidate).None?
    requires tx in candidate.pending + c.pending && tx in AllTransactions(candidate.blocks)
    ensures tx in AfterFork(lib, c, candidate).pending ==> tx.sender == FAUCET_ACCOUNT
    ensures tx.sender == FAUCET_ACCOUNT ==>
              || tx in AfterFork(lib, c, candidate).pending
              || Collides(lib, Texts(lib, candidate.pending + c.pending), Texts(lib, candidate.pending + c.pending))
  {
    hide Replays, AllTransactions, BlockOk, SamePolicy, WorkOf, MergeAll, Texts, Collides, MarshalInjective;
    hide TransactionFault, IsSubsequence, DistinctIdentifiers, AllSeen;
    var target, offered := candidate.(pending := []), candidate.pending + c.pending;
    var confirmed := AllTransactions(candidate.blocks);
    MergedPoolIsSound(lib, target, offered);
    if tx in AfterFork(lib, c, candidate).pending {
      ConfirmedAndPendingIsGrant(lib, AfterFork(lib, c, candidate), tx);
    }
    if tx.sender == FAUCET_ACCOUNT {
      var i :| 0 <= i < |confirmed| && confirmed[i] == tx;
      AcceptedIsWellFormed(lib, confirmed, i);
      var k :| 0 <= k < |offered| && offered[k] == tx;
      GrantsAreKept(lib, target, offered, k);
    }
  }

  /** So a grant that both chains know of, confirmed in the candidate and still pending here, is minted
    a second time: resolving the fork leaves it in the pool on top of the blocks that hold it. */
  lemma ConfirmedGrantIsMintedAgain(lib: Library, c: ChainState, candidate: ChainState, grant: Transaction)
    requires Refusal(lib, c, candidate).None?
    requires grant.sender == FAUCET_ACCOUNT && grant in AllTransactions(candidate.blocks)
    requires candidate.pending == [] && c.pending == [grant]
    ensures var after := AfterFork(lib, c, candidate);
            && after.blocks == candidate.blocks && after.pending == [grant]
            && Replays(lib, after.History())
            && Minted(after.History()) == Minted(AllTransactions(candidate.blocks)) + grant.amount
            && grant.amount > 0
  {
    hide Replays, AllTransactions, BlockOk, SamePolicy, WorkOf, TransactionFault, Merkle.TransactionHash;
    var confirmed := AllTransactions(candidate.blocks);
    var i :| 0 <= i < |confirmed| && confirmed[i] == grant;
    AcceptedIsWellFormed(lib, confirmed, i);
    GrantIsPositive(lib, grant);
    GrantReplays(lib, confirmed, grant);
    OnePending(lib, candidate, grant);
    assert candidate.pending + c.pending == [grant];
    assert (confirmed + [grant])[..|confirmed|] == confirmed;
  }

  lemma OnePending(lib: Library, candidate: ChainState, tx: Transaction)
    requires Replays(lib, AllTransactions(candidate.blocks) + [tx])
    ensures MergeAll(lib, candidate.(pending := []), [tx]).chain == candidate.(pending := [tx])
  {
    hide Replays, AllTransactions, Merkle.TransactionHash;
    var target := candidate.(pending := []);
    assert target.History() + [tx] == AllTransactions(candidate.blocks) + [tx];
    assert [tx][..0] == [];
    assert MergeAll(lib, target, []) == Merge(target, {}, 0, 0);
  }
}
