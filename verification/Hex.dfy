/** The hexadecimal text forms of the `hex` crate. */
module Hex {
  import opened Wrappers
  import opened Words
  import Ascii

  function Digit(n: int): char
    requires 0 <= n < 16
  {
    if n < 10 then ('0' as int + n) as char else ('a' as int + n - 10) as char
  }

  function Encode(b: Bytes): string {
    if b == [] then [] else [Digit(b[0] / 16), Digit(b[0] % 16)] + Encode(b[1..])
  }

  /** Decoding accepts both letter cases. */
  function DigitValue(c: char): (v: Option<int>)
    ensures v.Some? ==> 0 <= v.value < 16
  {
    if '0' <= c <= '9' then Some(c as int - '0' as int)
    else if 'a' <= c <= 'f' then Some(c as int - 'a' as int + 10)
    else if 'A' <= c <= 'F' then Some(c as int - 'A' as int + 10)
    else None
  }

  function Decode(s: string): Option<Bytes> {
    if s == [] then Some([])
    else if |s| == 1 then None
    else
      match (DigitValue(s[0]), DigitValue(s[1]), Decode(s[2..]))
      case (Some(hi), Some(lo), Some(rest)) => Some([16 * hi + lo] + rest)
      case _ => None
  }

  predicate IsLowerDigit(c: char) {
    '0' <= c <= '9' || 'a' <= c <= 'f'
  }

  predicate IsLower(s: string) {
    forall i :: 0 <= i < |s| ==> IsLowerDigit(s[i])
  }

  lemma {:induction false} EncodeForm(b: Bytes)
    ensures |Encode(b)| == 2 * |b| && IsLower(Encode(b))
  {
    if b != [] {
      EncodeForm(b[1..]);
    }
  }

  lemma DigitRoundTrip(n: int, c: char)
    requires 0 <= n < 16
    ensures DigitValue(Digit(n)) == Some(n)
    ensures IsLowerDigit(c) ==> DigitValue(c).Some? && Digit(DigitValue(c).value) == c
  {
  }

  /** One pair of digits in front of an encoded rest. */
  lemma DecodePair(hi: char, lo: char, rest: string)
    ensures Decode([hi, lo] + rest) ==
            match (DigitValue(hi), DigitValue(lo), Decode(rest))
            case (Some(h), Some(l), Some(b)) => Some([16 * h + l] + b)
            case _ => None
  {
    assert ([hi, lo] + rest)[2..] == rest;
  }

  lemma {:induction false} DecodeEncode(b: Bytes)
    ensures Decode(Encode(b)) == Some(b)
  {
    if b != [] {
      DecodeEncode(b[1..]);
      DigitRoundTrip(b[0] / 16, '0');
      DigitRoundTrip(b[0] % 16, '0');
      DecodePair(Digit(b[0] / 16), Digit(b[0] % 16), Encode(b[1..]));
      assert b == [b[0]] + b[1..];
    }
  }

  lemma EncodePair(hi: int, lo: int, rest: Bytes)
    requires 0 <= hi < 16 && 0 <= lo < 16
    ensures Encode([16 * hi + lo] + rest) == [Digit(hi), Digit(lo)] + Encode(rest)
  {
    var b := [16 * hi + lo] + rest;
    assert b[1..] == rest && b[0] / 16 == hi && b[0] % 16 == lo;
  }

  /** Lower-case text of even length is exactly the image of `Encode`. */
  lemma {:induction false} EncodeDecode(s: string)
    requires IsLower(s) && |s| % 2 == 0
    ensures Decode(s).Some? && Encode(Decode(s).value) == s
    ensures 2 * |Decode(s).value| == |s|
  {
    if s != [] {
      EncodeDecode(s[2..]);
      DigitRoundTrip(0, s[0]);
      DigitRoundTrip(0, s[1]);
      DecodePair(s[0], s[1], s[2..]);
      assert s == [s[0], s[1]] + s[2..];
      EncodePair(DigitValue(s[0]).value, DigitValue(s[1]).value, Decode(s[2..]).value);
    }
  }

  lemma EncodeInjective(a: Bytes, b: Bytes)
    requires Encode(a) == Encode(b)
    ensures a == b
  {
    DecodeEncode(a);
    DecodeEncode(b);
  }

  const DIGITS := "0123456789abcdef"

  lemma DigitWritten(n: int)
    requires 0 <= n < 16
    ensures |DIGITS| == 16 && Digit(n) == DIGITS[n]
  {
  }

  /** Byte `i` is written as two digits, the high one first. */
  lemma {:induction false} EncodeAt(b: Bytes, i: nat)
    requires i < |b|
    ensures |DIGITS| == 16 && |Encode(b)| == 2 * |b|
    ensures Encode(b)[2 * i] == DIGITS[b[i] / 16] && Encode(b)[2 * i + 1] == DIGITS[b[i] % 16]
  {
    EncodeForm(b[1..]);
    if i == 0 {
      DigitWritten(b[0] / 16);
      DigitWritten(b[0] % 16);
    } else {
      EncodeAt(b[1..], i - 1);
    }
  }

  lemma LowerDigit(c: char)
    ensures DigitValue(c) == DigitValue(Ascii.LowerChar(c))
    ensures DigitValue(c).Some? <==> IsLowerDigit(Ascii.LowerChar(c))
  {
  }

  lemma {:induction false} DecodeLower(s: string)
    ensures Decode(s) == Decode(Ascii.Lower(s))
    ensures Decode(s).Some? ==> IsLower(Ascii.Lower(s)) && |s| % 2 == 0
  {
    if |s| > 1 {
      LowerDigit(s[0]);
      LowerDigit(s[1]);
      DecodeLower(s[2..]);
      assert Ascii.Lower(s)[2..] == Ascii.Lower(s[2..]);
      assert Ascii.Lower(s) == [Ascii.LowerChar(s[0]), Ascii.LowerChar(s[1])] + Ascii.Lower(s[2..]);
    } else {
      assert s == [] ==> Ascii.Lower(s) == [];
    }
  }

  /** A text decodes exactly when it is the encoding, up to letter case. */
  lemma DecodesIffEncoded(s: string, b: Bytes)
    ensures Decode(s) == Some(b) <==> Ascii.Lower(s) == Encode(b)
  {
    DecodeLower(s);
    if Decode(s) == Some(b) {
      EncodeDecode(Ascii.Lower(s));
    }
    DecodeEncode(b);
  }
}
