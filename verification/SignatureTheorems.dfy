/** Who may spend: acceptance of a transaction in terms of keys, signatures and fields (block/block.go). */
module SignatureTheorems {
  import opened Records
  import opened Blocks
  import opened Ledgers
  import opened LedgerTheorems
  import Hex

  /** The transaction carries a 32-byte key whose address is the sender, and that key's 64-byte signature
    over sender, recipient, amount and nonce. */
  predicate OwnerSigned(lib: Library, tx: Transaction) {
    var key, signature := Hex.Decode(tx.publicKey), Hex.Decode(tx.signature);
    && key.Some? && |key.value| == 32
    && signature.Some? && |signature.value| == 64
    && tx.sender == Hex.Encode(lib.sha256(key.value)[..20])
    && lib.ed25519Verify(key.value,
                         lib.marshalSigning(SigningPayload(tx.sender, tx.recipient, tx.amount, tx.nonce)),
                         signature.value)
  }

  /** Only the key's owner can issue a send; only the faucet issues without a key, and it carries neither
    nonce nor signature. */
  lemma WellFormedExactly(lib: Library, tx: Transaction)
    ensures TransactionFault(lib, tx).None? <==>
            && tx.amount > 0
            && !IsBlank(tx.sender) && !IsBlank(tx.recipient) && tx.sender != tx.recipient
            && if tx.sender == "FAUCET" then tx.nonce == 0 && tx.publicKey == "" && tx.signature == ""
               else tx.nonce > 0 && OwnerSigned(lib, tx)
  {
    hide Hex.Decode, Hex.Encode, IsBlank;
  }

  lemma {:induction false} AcceptedIsWellFormed(lib: Library, txs: seq<Transaction>, i: nat)
    requires Replays(lib, txs) && i < |txs|
    ensures TransactionFault(lib, txs[i]).None?
    decreases |txs|
  {
    hide TransactionFault, NextNonceOf, Transferred;
    if i < |txs| - 1 {
      AcceptedIsWellFormed(lib, txs[..|txs| - 1], i);
    }
  }

  /** In an accepted history every send is signed by the key its account is named after. */
  lemma SendsAreSigned(lib: Library, txs: seq<Transaction>, i: nat)
    requires Replays(lib, txs) && i < |txs| && txs[i].sender != FAUCET_ACCOUNT
    ensures OwnerSigned(lib, txs[i])
  {
    hide Replays, TransactionFault, OwnerSigned;
    AcceptedIsWellFormed(lib, txs, i);
    WellFormedExactly(lib, txs[i]);
  }

  /** So one account is spent from with one key, unless two keys share the first 20 bytes of their
    digests. */
  lemma OneKeyPerAccount(lib: Library, txs: seq<Transaction>, i: nat, j: nat)
    requires Replays(lib, txs) && i < |txs| && j < |txs|
    requires txs[i].sender == txs[j].sender != FAUCET_ACCOUNT
    ensures Hex.Decode(txs[i].publicKey).Some? && Hex.Decode(txs[j].publicKey).Some?
    ensures var k, l := Hex.Decode(txs[i].publicKey).value, Hex.Decode(txs[j].publicKey).value;
            k == l || (k != l && lib.sha256(k)[..20] == lib.sha256(l)[..20])
  {
    hide Replays, Hex.Decode, Hex.Encode;
    SendsAreSigned(lib, txs, i);
    SendsAreSigned(lib, txs, j);
    var k, l := Hex.Decode(txs[i].publicKey).value, Hex.Decode(txs[j].publicKey).value;
    Hex.EncodeInjective(lib.sha256(k)[..20], lib.sha256(l)[..20]);
  }
}
