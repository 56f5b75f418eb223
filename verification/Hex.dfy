/** Hexadecimal text as encoding/hex writes and reads it. */
module Hex {
  import opened Records

  function Digit(v: int): char
    requires 0 <= v < 16
  {
    if v < 10 then '0' + v as char else 'a' + (v - 10) as char
  }

  function Encode(bytes: Bytes): (text: string)
    ensures |text| == 2 * |bytes|
  {
    if bytes == [] then ""
    else [Digit(bytes[0] / 16), Digit(bytes[0] % 16)] + Encode(bytes[1..])
  }

  /** The value of one digit; both letter cases are read. */
  function DigitValue(c: char): (v: Option<int>)
    ensures v.Some? ==> 0 <= v.value < 16
  {
    if '0' <= c <= '9' then Some(c as int - '0' as int)
    else if 'a' <= c <= 'f' then Some(c as int - 'a' as int + 10)
    else if 'A' <= c <= 'F' then Some(c as int - 'A' as int + 10)
    else None
  }

  function Decode(text: string): (bytes: Option<Bytes>)
    ensures bytes.Some? ==> 2 * |bytes.value| == |text|
  {
    if text == "" then Some([])
    else if |text| == 1 then None
    else
      var high, low, rest := DigitValue(text[0]), DigitValue(text[1]), Decode(text[2..]);
      if high.Some? && low.Some? && rest.Some? then
        Some([16 * high.value + low.value] + rest.value)
      else None
  }

  lemma DigitRoundTrip(v: int)
    requires 0 <= v < 16
    ensures DigitValue(Digit(v)) == Some(v)
  {}

  lemma {:induction false} DecodeEncode(bytes: Bytes)
    ensures Decode(Encode(bytes)) == Some(bytes)
  {
    if bytes != [] {
      var first, rest := bytes[0], bytes[1..];
      var text := Encode(bytes);
      assert text[2..] == Encode(rest);
      assert text[0] == Digit(first / 16) && text[1] == Digit(first % 16);
      DecodeEncode(rest);
      DigitRoundTrip(first / 16);
      DigitRoundTrip(first % 16);
      assert [first] + rest == bytes;
    }
  }

  lemma EncodeInjective(a: Bytes, b: Bytes)
    requires Encode(a) == Encode(b)
    ensures a == b
  {
    DecodeEncode(a);
    DecodeEncode(b);
  }

  function LowerDigit(c: char): char {
    if 'A' <= c <= 'F' then c - 'A' + 'a' else c
  }

  function Lower(text: string): (lower: string)
    ensures |lower| == |text|
  {
    if text == "" then "" else [LowerDigit(text[0])] + Lower(text[1..])
  }

  lemma LowerTwo(text: string)
    requires |text| >= 2
    ensures Lower(text) == [LowerDigit(text[0]), LowerDigit(text[1])] + Lower(text[2..])
  {
    assert text[1..][1..] == text[2..];
  }

  lemma DigitRead(c: char)
    ensures DigitValue(LowerDigit(c)) == DigitValue(c)
    ensures DigitValue(c).Some? ==> Digit(DigitValue(c).value) == LowerDigit(c)
  {}

  lemma {:induction false} DecodeIgnoresCase(text: string)
    ensures Decode(Lower(text)) == Decode(text)
    decreases |text|
  {
    if |text| >= 2 {
      hide DigitValue, LowerDigit;
      LowerTwo(text);
      DigitRead(text[0]);
      DigitRead(text[1]);
      DecodeIgnoresCase(text[2..]);
      assert Lower(text)[2..] == Lower(text[2..]);
    }
  }

  lemma EncodeFirst(high: int, low: int, rest: Bytes)
    requires 0 <= high < 16 && 0 <= low < 16
    ensures Encode([16 * high + low] + rest) == [Digit(high), Digit(low)] + Encode(rest)
  {
    assert ([16 * high + low] + rest)[1..] == rest;
  }

  lemma {:induction false} EncodeDecode(text: string)
    requires Decode(text).Some?
    ensures Encode(Decode(text).value) == Lower(text)
    decreases |text|
  {
    if text != "" {
      hide DigitValue, LowerDigit, Digit, Encode, Lower;
      LowerTwo(text);
      DigitRead(text[0]);
      DigitRead(text[1]);
      EncodeDecode(text[2..]);
      EncodeFirst(DigitValue(text[0]).value, DigitValue(text[1]).value, Decode(text[2..]).value);
    } else {
      assert Decode(text).value == [];
    }
  }

  /** Decoding reads exactly what encoding writes, in either letter case, and nothing else. */
  lemma DecodesExactly(text: string, bytes: Bytes)
    ensures Decode(text) == Some(bytes) <==> Lower(text) == Encode(bytes)
  {
    hide Decode, Encode, Lower;
    if Decode(text).Some? {
      EncodeDecode(text);
    }
    if Lower(text) == Encode(bytes) {
      DecodeEncode(bytes);
      DecodeIgnoresCase(text);
    }
  }
}
