/** The plain records of the program and the library calls it makes.

  A library routine whose code is not part of the program (SHA-256, JSON marshalling,
  Ed25519, sort.Slice) is a function-valued field of `Library`; every definition that needs
  one takes the library as a parameter, so each result holds for all such routines. */
module Records {

  datatype Option<+T> = None | Some(value: T)

  type byte = x: int | 0 <= x < 256
  type Bytes = seq<byte>
  type Digest = d: Bytes | |d| == 32 witness seq(32, _ => 0)

  const MAX_UINT64: int := 0xFFFF_FFFF_FFFF_FFFF
  const MAX_INT64: int := 0x7FFF_FFFF_FFFF_FFFF

  type uint64 = x: int | 0 <= x <= 0xFFFF_FFFF_FFFF_FFFF
  type int64 = x: int | -0x8000_0000_0000_0000 <= x <= 0x7FFF_FFFF_FFFF_FFFF

  const FAUCET_ACCOUNT: string := "FAUCET"
  const GENESIS_PREV_HASH: string := "0000000000000000000000000000000000000000000000000000000000000000"

  datatype Transaction = Transaction(
    sender: string,
    recipient: string,
    amount: int64,
    nonce: uint64,
    publicKey: string,
    signature: string)

  /** The fields a transaction signature protects. */
  datatype SigningPayload = SigningPayload(sender: string, recipient: string, amount: int64, nonce: uint64)

  /** The fields a block hash covers; the transactions enter through their Merkle root. */
  datatype HashPayload = HashPayload(
    height: int,
    timestamp: int,
    merkleRoot: string,
    prevHash: string,
    nonce: uint64,
    difficulty: int)

  datatype Block = Block(
    height: int,
    timestamp: int,
    transactions: seq<Transaction>,
    merkleRoot: string,
    prevHash: string,
    nonce: uint64,
    difficulty: int,
    hash: string)
  {
    function Payload(): HashPayload {
      HashPayload(height, timestamp, merkleRoot, prevHash, nonce, difficulty)
    }
  }

  datatype DifficultyRule = DifficultyRule(startHeight: int, difficulty: int)

  ghost predicate SortedByHeight(rules: seq<DifficultyRule>) {
    forall i, j :: 0 <= i < j < |rules| ==> rules[i].startHeight <= rules[j].startHeight
  }

  /** What sort.Slice promises for a comparison of start heights: a sorted permutation.
    The order of rules with equal heights is left to the routine. */
  ghost predicate IsHeightSort(f: seq<DifficultyRule> -> seq<DifficultyRule>) {
    forall rules :: SortedByHeight(f(rules)) && multiset(f(rules)) == multiset(rules)
  }

  type HeightSort = f: seq<DifficultyRule> -> seq<DifficultyRule> | IsHeightSort(f)
    witness (rules => InsertionSort(rules))

  /** One routine that keeps the promise. */
  function InsertionSort(rules: seq<DifficultyRule>): (sorted: seq<DifficultyRule>)
    ensures SortedByHeight(sorted)
    ensures multiset(sorted) == multiset(rules)
  {
    if rules == [] then []
    else
      assert rules == rules[..|rules| - 1] + [rules[|rules| - 1]];
      Insert(InsertionSort(rules[..|rules| - 1]), rules[|rules| - 1])
  }

  function Insert(sorted: seq<DifficultyRule>, rule: DifficultyRule): (r: seq<DifficultyRule>)
    requires SortedByHeight(sorted)
    ensures SortedByHeight(r)
    ensures multiset(r) == multiset(sorted) + multiset{rule}
  {
    var k := InsertionPoint(sorted, rule.startHeight);
    assert sorted == sorted[..k] + sorted[k..];
    sorted[..k] + [rule] + sorted[k..]
  }

  function InsertionPoint(sorted: seq<DifficultyRule>, height: int): (k: nat)
    requires SortedByHeight(sorted)
    ensures k <= |sorted|
    ensures forall i :: 0 <= i < k ==> sorted[i].startHeight <= height
    ensures forall i :: k <= i < |sorted| ==> height < sorted[i].startHeight
  {
    if sorted == [] then 0
    else if sorted[|sorted| - 1].startHeight <= height then |sorted|
    else InsertionPoint(sorted[..|sorted| - 1], height)
  }

  datatype Library = Library(
    sha256: Bytes -> Digest,
    marshalTransaction: Transaction -> Bytes,
    marshalPayload: HashPayload -> Bytes,
    marshalSigning: SigningPayload -> Bytes,
    ed25519Verify: (Bytes, Bytes, Bytes) -> bool,
    sortRules: HeightSort)

  /** JSON marshalling keeps distinct records apart (strings are valid UTF-8). */
  ghost predicate MarshalInjective(lib: Library) {
    && (forall s, t :: lib.marshalTransaction(s) == lib.marshalTransaction(t) ==> s == t)
    && (forall p, q :: lib.marshalPayload(p) == lib.marshalPayload(q) ==> p == q)
  }

  /** Two distinct byte strings, one from each set, with the same digest. Both sets are always
    the finite sets of strings that the computations under discussion really hash. */
  ghost predicate Collides(lib: Library, left: set<Bytes>, right: set<Bytes>) {
    exists x, y :: x in left && y in right && x != y && lib.sha256(x) == lib.sha256(y)
  }
}
