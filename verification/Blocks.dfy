/** Block hashes, the difficulty test and transaction validity (block/block.go). */
module Blocks {
  import opened Records
  import Hex

  function ComputeHash(lib: Library, b: Block): string {
    Hex.Encode(lib.sha256(lib.marshalPayload(b.Payload())))
  }

  /** A hash meets difficulty d when it starts with d zero digits; d is at most 64. */
  predicate MeetsDifficulty(hash: string, difficulty: int) {
    && 0 <= difficulty <= 64
    && difficulty <= |hash|
    && forall i :: 0 <= i < difficulty ==> hash[i] == '0'
  }

  /** The text whose digest is the hash of a block. */
  function HeaderText(lib: Library, b: Block): Bytes {
    lib.marshalPayload(HashPayload(b.height, b.timestamp, b.merkleRoot, b.prevHash, b.nonce, b.difficulty))
  }

  /** All that the hash of a block has to fix. */
  predicate SameHeader(a: Block, b: Block) {
    && a.height == b.height
    && a.timestamp == b.timestamp
    && a.merkleRoot == b.merkleRoot
    && a.prevHash == b.prevHash
    && a.nonce == b.nonce
    && a.difficulty == b.difficulty
  }

  /** Two headers that hash alike although their texts differ. */
  ghost predicate HeaderCollision(lib: Library, a: Block, b: Block) {
    HeaderText(lib, a) != HeaderText(lib, b) && lib.sha256(HeaderText(lib, a)) == lib.sha256(HeaderText(lib, b))
  }

  lemma HashOfHeader(lib: Library, b: Block)
    ensures ComputeHash(lib, b) == Hex.Encode(lib.sha256(HeaderText(lib, b)))
  {}

  /** Equal hashes fix every field of the header, or the two headers collide. */
  lemma SameHashSameHeader(lib: Library, a: Block, b: Block)
    requires MarshalInjective(lib)
    requires ComputeHash(lib, a) == ComputeHash(lib, b)
    ensures SameHeader(a, b) || HeaderCollision(lib, a, b)
  {
    HashOfHeader(lib, a);
    HashOfHeader(lib, b);
    Hex.EncodeInjective(lib.sha256(HeaderText(lib, a)), lib.sha256(HeaderText(lib, b)));
  }

  // ---------- transactions ----------

  datatype TransactionError =
    | AmountNotPositive
    | EmptySender
    | EmptyRecipient
    | SelfTransfer
    | FaucetNonce
    | MissingNonce
    | SignedFaucet
    | BadPublicKey
    | BadSignatureEncoding
    | WrongOwner
    | BadSignature

  predicate IsSpace(c: char) {
    || c in {' ', '\t', '\n', '\r', '\U{B}', '\U{C}', '\U{85}', '\U{A0}', '\U{1680}'}
    || '\U{2000}' <= c <= '\U{200A}'
    || c in {'\U{2028}', '\U{2029}', '\U{202F}', '\U{205F}', '\U{3000}'}
  }

  predicate IsBlank(text: string) {
    forall i :: 0 <= i < |text| ==> IsSpace(text[i])
  }

  function AddressFromPublicKey(lib: Library, publicKey: Bytes): string {
    Hex.Encode(lib.sha256(publicKey)[..20])
  }

  function SignatureFault(lib: Library, tx: Transaction): Option<TransactionError> {
    if tx.sender == FAUCET_ACCOUNT then
      if tx.publicKey != "" || tx.signature != "" then Some(SignedFaucet) else None
    else
      var publicKey, signature := Hex.Decode(tx.publicKey), Hex.Decode(tx.signature);
      if publicKey.None? || |publicKey.value| != 32 then Some(BadPublicKey)
      else if signature.None? || |signature.value| != 64 then Some(BadSignatureEncoding)
      else if AddressFromPublicKey(lib, publicKey.value) != tx.sender then Some(WrongOwner)
      else
        var message := lib.marshalSigning(SigningPayload(tx.sender, tx.recipient, tx.amount, tx.nonce));
        if !lib.ed25519Verify(publicKey.value, message, signature.value) then Some(BadSignature) else None
  }

  function TransactionFault(lib: Library, tx: Transaction): Option<TransactionError> {
    if tx.amount <= 0 then Some(AmountNotPositive)
    else if IsBlank(tx.sender) then Some(EmptySender)
    else if IsBlank(tx.recipient) then Some(EmptyRecipient)
    else if tx.sender == tx.recipient then Some(SelfTransfer)
    else if tx.sender == FAUCET_ACCOUNT && tx.nonce != 0 then Some(FaucetNonce)
    else if tx.sender != FAUCET_ACCOUNT && tx.nonce == 0 then Some(MissingNonce)
    else SignatureFault(lib, tx)
  }
}
