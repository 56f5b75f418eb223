/** What the difficulty test says about the digest itself (block/block.go): a hash meets difficulty d
  exactly when the digest, read as a number, is below 16^(64 - d). */
module ProofOfWork {
  import opened Records
  import opened Blocks
  import opened Integers
  import Hex

  /** The bytes as one number, the first byte weighing most. */
  function BigEndian(bytes: Bytes): nat {
    if bytes == [] then 0 else 256 * BigEndian(bytes[..|bytes| - 1]) + bytes[|bytes| - 1]
  }

  const HEX_DIGITS: string := "0123456789abcdef"

  /** Two lower-case digits for each byte, the more significant first. */
  lemma {:induction false} EncodedDigits(bytes: Bytes, i: nat)
    requires i < |bytes|
    ensures Hex.Encode(bytes)[2 * i] == HEX_DIGITS[bytes[i] / 16]
    ensures Hex.Encode(bytes)[2 * i + 1] == HEX_DIGITS[bytes[i] % 16]
  {
    DigitIs(bytes[0] / 16);
    DigitIs(bytes[0] % 16);
    if i > 0 {
      EncodedDigits(bytes[1..], i - 1);
      assert bytes[1..][i - 1] == bytes[i];
    }
  }

  lemma DigitIs(v: int)
    requires 0 <= v < 16
    ensures Hex.Digit(v) == HEX_DIGITS[v]
    ensures HEX_DIGITS[v] == '0' <==> v == 0
  {}

  predicate LeadingZeros(text: string, d: nat) {
    d <= |text| && forall i :: 0 <= i < d ==> text[i] == '0'
  }

  lemma EncodePrefix(bytes: Bytes, d: nat)
    requires bytes != [] && d <= 2 * |bytes| - 2
    ensures LeadingZeros(Hex.Encode(bytes), d) <==> LeadingZeros(Hex.Encode(bytes[..|bytes| - 1]), d)
  {
    hide Hex.Encode;
    var front := bytes[..|bytes| - 1];
    forall i | 0 <= i < d ensures Hex.Encode(bytes)[i] == Hex.Encode(front)[i] {
      EncodedDigits(bytes, i / 2);
      EncodedDigits(front, i / 2);
      assert front[i / 2] == bytes[i / 2];
    }
  }

  /** The last digits are zero as well: the last byte has a zero half, or is zero. */
  lemma EncodeEnd(bytes: Bytes, d: nat)
    requires bytes != [] && 2 * |bytes| - 2 < d <= 2 * |bytes|
    ensures LeadingZeros(Hex.Encode(bytes), d) <==>
            && LeadingZeros(Hex.Encode(bytes), 2 * |bytes| - 2)
            && bytes[|bytes| - 1] < (if d == 2 * |bytes| then 1 else 16)
  {
    hide Hex.Encode;
    var n := |bytes| - 1;
    EncodedDigits(bytes, n);
    DigitIs(bytes[n] / 16);
    DigitIs(bytes[n] % 16);
  }

  lemma PowerTwoMore(k: nat)
    ensures Power(16, k + 2) == 256 * Power(16, k)
  {
    assert Power(16, k + 1) == 16 * Power(16, k);
  }

  lemma {:induction false} ZerosAreSmall(bytes: Bytes, d: nat)
    requires d <= 2 * |bytes|
    ensures LeadingZeros(Hex.Encode(bytes), d) <==> BigEndian(bytes) < Power(16, 2 * |bytes| - d)
    decreases |bytes|
  {
    if bytes != [] {
      hide LeadingZeros, Hex.Encode, Power;
      var n, front := |bytes| - 1, bytes[..|bytes| - 1];
      if d <= 2 * n {
        ZerosAreSmall(front, d);
        EncodePrefix(bytes, d);
        PowerTwoMore(2 * n - d);
      } else {
        ZerosAreSmall(front, 2 * n);
        EncodePrefix(bytes, 2 * n);
        EncodeEnd(bytes, d);
        SmallPowers();
      }
    } else {
      assert Power(16, 0) == 1;
    }
  }

  lemma SmallPowers()
    ensures Power(16, 0) == 1 && Power(16, 1) == 16
  {}

  /** The proof of work in numbers. */
  lemma MeetsDifficultyExactly(digest: Digest, difficulty: int)
    ensures MeetsDifficulty(Hex.Encode(digest), difficulty) <==>
            0 <= difficulty <= 64 && BigEndian(digest) < Power(16, 64 - difficulty)
  {
    hide Hex.Encode, Power, BigEndian;
    if 0 <= difficulty <= 64 {
      ZerosAreSmall(digest, difficulty);
    }
  }

  /** The block stores the digest of its header in hexadecimal, and the digest is as small as its
    difficulty asks. */
  ghost predicate IsWorked(lib: Library, b: Block) {
    var digest := lib.sha256(HeaderText(lib, b));
    && 0 <= b.difficulty <= 64
    && b.hash == Hex.Encode(digest)
    && BigEndian(digest) < Power(16, 64 - b.difficulty)
  }

  lemma WorkedExactly(lib: Library, b: Block)
    ensures IsWorked(lib, b) <==> b.hash == ComputeHash(lib, b) && MeetsDifficulty(b.hash, b.difficulty)
  {
    hide MeetsDifficulty, ComputeHash, BigEndian, Power;
    HashOfHeader(lib, b);
    MeetsDifficultyExactly(lib.sha256(HeaderText(lib, b)), b.difficulty);
  }
}
