/**
  The standard base64 engine: RFC 4648 section 4 with mandatory padding, and
  the canonical trailing bits of section 3.5.
*/
module Base64 {
  import opened Wrappers
  import opened Words
  import Ascii

  function Symbol(n: int): char
    requires 0 <= n < 64
  {
    if n < 26 then ('A' as int + n) as char
    else if n < 52 then ('a' as int + n - 26) as char
    else if n < 62 then ('0' as int + n - 52) as char
    else if n == 62 then '+'
    else '/'
  }

  function Sextet(c: char): (v: Option<int>)
    ensures v.Some? ==> 0 <= v.value < 64
  {
    if 'A' <= c <= 'Z' then Some(c as int - 'A' as int)
    else if 'a' <= c <= 'z' then Some(c as int - 'a' as int + 26)
    else if '0' <= c <= '9' then Some(c as int - '0' as int + 52)
    else if c == '+' then Some(62)
    else if c == '/' then Some(63)
    else None
  }

  /** One group of one to three bytes; short groups are padded. */
  function EncodeGroup(b: Bytes): (s: string)
    requires 1 <= |b| <= 3
    ensures |s| == 4
  {
    if |b| == 1 then [Symbol(b[0] / 4), Symbol(b[0] % 4 * 16), '=', '=']
    else if |b| == 2 then
      [Symbol(b[0] / 4), Symbol(b[0] % 4 * 16 + b[1] / 16), Symbol(b[1] % 16 * 4), '=']
    else
      [Symbol(b[0] / 4), Symbol(b[0] % 4 * 16 + b[1] / 16),
       Symbol(b[1] % 16 * 4 + b[2] / 64), Symbol(b[2] % 64)]
  }

  function Encode(b: Bytes): string {
    if b == [] then []
    else if |b| < 3 then EncodeGroup(b)
    else EncodeGroup(b[..3]) + Encode(b[3..])
  }

  /** One group of four symbols; only the last group may carry padding. */
  function DecodeGroup(s: string, last: bool): Option<Bytes>
    requires |s| == 4
  {
    match (Sextet(s[0]), Sextet(s[1]), Sextet(s[2]), Sextet(s[3]))
    case (Some(a), Some(b), Some(c), Some(d)) =>
      Some([4 * a + b / 16, b % 16 * 16 + c / 4, c % 4 * 64 + d])
    case (Some(a), Some(b), Some(c), None) =>
      if last && s[3] == '=' && c % 4 == 0
      then Some([4 * a + b / 16, b % 16 * 16 + c / 4]) else None
    case (Some(a), Some(b), None, None) =>
      if last && s[2] == '=' && s[3] == '=' && b % 16 == 0
      then Some([4 * a + b / 16]) else None
    case _ => None
  }

  function Decode(s: string): Option<Bytes> {
    if s == [] then Some([])
    else if |s| < 4 then None
    else
      match (DecodeGroup(s[..4], |s| == 4), Decode(s[4..]))
      case (Some(group), Some(rest)) => Some(group + rest)
      case _ => None
  }

  lemma SymbolRoundTrip(n: int, c: char)
    requires 0 <= n < 64
    ensures Sextet(Symbol(n)) == Some(n)
    ensures Sextet(c).Some? ==> Symbol(Sextet(c).value) == c
  {
  }

  /** Three bytes are recovered from the four sextets they unpack into. */
  lemma Ungroup(x: byte, y: byte, z: byte)
    ensures var a, b, c, d := x / 4, x % 4 * 16 + y / 16, y % 16 * 4 + z / 64, z % 64;
            4 * a + b / 16 == x && b % 16 * 16 + c / 4 == y && c % 4 * 64 + d == z
  {
    assert (x % 4 * 16 + y / 16) / 16 == x % 4 && (x % 4 * 16 + y / 16) % 16 == y / 16;
    assert (y % 16 * 4 + z / 64) / 4 == y % 16 && (y % 16 * 4 + z / 64) % 4 == z / 64;
  }

  /** A full group of symbols decodes to the bytes packed from its sextets. */
  lemma DecodeSymbols(a: int, b: int, c: int, d: int, last: bool)
    requires 0 <= a < 64 && 0 <= b < 64 && 0 <= c < 64 && 0 <= d < 64
    ensures DecodeGroup([Symbol(a), Symbol(b), Symbol(c), Symbol(d)], last) ==
            Some([4 * a + b / 16, b % 16 * 16 + c / 4, c % 4 * 64 + d])
  {
    SymbolRoundTrip(a, '=');
    SymbolRoundTrip(b, '=');
    SymbolRoundTrip(c, '=');
    SymbolRoundTrip(d, '=');
  }

  lemma DecodePadded(a: int, b: int, c: int)
    requires 0 <= a < 64 && 0 <= b < 64 && 0 <= c < 64
    ensures c % 4 == 0 ==> DecodeGroup([Symbol(a), Symbol(b), Symbol(c), '='], true) ==
                           Some([4 * a + b / 16, b % 16 * 16 + c / 4])
    ensures b % 16 == 0 ==> DecodeGroup([Symbol(a), Symbol(b), '=', '='], true) == Some([4 * a + b / 16])
  {
    SymbolRoundTrip(a, '=');
    SymbolRoundTrip(b, '=');
    SymbolRoundTrip(c, '=');
  }

  lemma DecodeEncodeShort(x: byte, y: byte)
    ensures DecodeGroup(EncodeGroup([x]), true) == Some([x])
    ensures DecodeGroup(EncodeGroup([x, y]), true) == Some([x, y])
  {
    var a, b, b', c := x / 4, x % 4 * 16, x % 4 * 16 + y / 16, y % 16 * 4;
    assert EncodeGroup([x]) == [Symbol(a), Symbol(b), '=', '='];
    assert EncodeGroup([x, y]) == [Symbol(a), Symbol(b'), Symbol(c), '='];
    assert 4 * a + b / 16 == x && b % 16 == 0 by { Ungroup(x, 0, 0); }
    assert 4 * a + b' / 16 == x && b' % 16 * 16 + c / 4 == y && c % 4 == 0 by { Ungroup(x, y, 0); }
    DecodePadded(a, b, 0);
    DecodePadded(a, b', c);
  }

  lemma DecodeEncodeFull(x: byte, y: byte, z: byte, last: bool)
    ensures DecodeGroup(EncodeGroup([x, y, z]), last) == Some([x, y, z])
  {
    var a, b, c, d := x / 4, x % 4 * 16 + y / 16, y % 16 * 4 + z / 64, z % 64;
    assert EncodeGroup([x, y, z]) == [Symbol(a), Symbol(b), Symbol(c), Symbol(d)];
    assert 4 * a + b / 16 == x && b % 16 * 16 + c / 4 == y && c % 4 * 64 + d == z by {
      Ungroup(x, y, z);
    }
    DecodeSymbols(a, b, c, d, last);
  }

  lemma DecodeEncodeGroup(b: Bytes, last: bool)
    requires 1 <= |b| <= 3 && (|b| < 3 ==> last)
    ensures DecodeGroup(EncodeGroup(b), last) == Some(b)
  {
    if |b| == 3 {
      DecodeEncodeFull(b[0], b[1], b[2], last);
      assert b == [b[0], b[1], b[2]];
    } else {
      DecodeEncodeShort(b[0], b[|b| - 1]);
      assert b == if |b| == 1 then [b[0]] else [b[0], b[1]];
    }
  }

  /** Four sextets are recovered from the three bytes they pack into. */
  lemma Regroup(a: int, b: int, c: int, d: int)
    requires 0 <= a < 64 && 0 <= b < 64 && 0 <= c < 64 && 0 <= d < 64
    ensures var x, y, z := 4 * a + b / 16, b % 16 * 16 + c / 4, c % 4 * 64 + d;
            x / 4 == a && x % 4 * 16 + y / 16 == b && y % 16 * 4 + z / 64 == c && z % 64 == d
  {
    assert (4 * a + b / 16) / 4 == a && (4 * a + b / 16) % 4 == b / 16;
    assert (b % 16 * 16 + c / 4) / 16 == b % 16 && (b % 16 * 16 + c / 4) % 16 == c / 4;
    assert (c % 4 * 64 + d) / 64 == c % 4 && (c % 4 * 64 + d) % 64 == d;
  }

  lemma EncodeDecodeGroup(s: string, last: bool)
    requires |s| == 4 && DecodeGroup(s, last).Some?
    ensures var b := DecodeGroup(s, last).value;
            1 <= |b| <= 3 && (|b| < 3 ==> last) && EncodeGroup(b) == s
  {
    var a, b := Sextet(s[0]).value, Sextet(s[1]).value;
    var c := if Sextet(s[2]).Some? then Sextet(s[2]).value else 0;
    var d := if Sextet(s[3]).Some? then Sextet(s[3]).value else 0;
    Regroup(a, b, c, d);
    SymbolRoundTrip(0, s[0]);
    SymbolRoundTrip(0, s[1]);
    SymbolRoundTrip(0, s[2]);
    SymbolRoundTrip(0, s[3]);
    var x, y, z := 4 * a + b / 16, b % 16 * 16 + c / 4, c % 4 * 64 + d;
    if Sextet(s[3]).Some? {
      assert DecodeGroup(s, last) == Some([x, y, z]);
      assert EncodeGroup([x, y, z]) == [Symbol(a), Symbol(b), Symbol(c), Symbol(d)];
    } else if Sextet(s[2]).Some? {
      assert DecodeGroup(s, last) == Some([x, y]);
      assert EncodeGroup([x, y]) == [Symbol(a), Symbol(b), Symbol(c), '='];
    } else {
      assert DecodeGroup(s, last) == Some([x]);
      assert EncodeGroup([x]) == [Symbol(a), Symbol(b), '=', '='];
    }
  }

  /** Only a group of three bytes can be followed by more text. */
  lemma EncodeSplit(b: Bytes, rest: Bytes)
    requires |b| == 3 || (1 <= |b| < 3 && rest == [])
    ensures Encode(b + rest) == EncodeGroup(b) + Encode(rest)
  {
    if |b| == 3 {
      assert (b + rest)[..3] == b && (b + rest)[3..] == rest;
    } else {
      assert b + rest == b;
    }
  }

  lemma EncodeEmpty(b: Bytes)
    ensures Encode(b) == [] <==> b == []
  {
  }

  lemma {:induction false} DecodeEncode(b: Bytes)
    ensures Decode(Encode(b)) == Some(b)
  {
    if b != [] {
      var k := if |b| < 3 then |b| else 3;
      var group, rest := b[..k], b[k..];
      assert b == group + rest;
      EncodeSplit(group, rest);
      EncodeEmpty(rest);
      var s := Encode(b);
      assert s[..4] == EncodeGroup(group) && s[4..] == Encode(rest);
      DecodeEncodeGroup(group, |s| == 4);
      DecodeEncode(rest);
    }
  }

  lemma {:induction false} EncodeDecode(s: string)
    requires Decode(s).Some?
    ensures Encode(Decode(s).value) == s
  {
    if s != [] {
      var group, rest := DecodeGroup(s[..4], |s| == 4).value, Decode(s[4..]).value;
      EncodeDecodeGroup(s[..4], |s| == 4);
      EncodeDecode(s[4..]);
      EncodeSplit(group, rest);
      assert s == s[..4] + s[4..];
    }
  }

  /** Strict decoding accepts a text exactly when it is the canonical encoding. */
  lemma DecodesIffEncoded(s: string, b: Bytes)
    ensures Decode(s) == Some(b) <==> s == Encode(b)
  {
    DecodeEncode(b);
    if Decode(s) == Some(b) {
      EncodeDecode(s);
    }
  }

  lemma {:induction false} NoColon(b: Bytes)
    ensures ':' !in Encode(b)
  {
    if |b| >= 3 {
      NoColon(b[3..]);
    }
  }

  // ----- The encoding in full

  const DIGITS := "0123456789"
  const ALPHABET := Ascii.UPPER_LETTERS + Ascii.LOWER_LETTERS + DIGITS + "+/"

  lemma SymbolWritten(n: int)
    requires 0 <= n < 64
    ensures |ALPHABET| == 64 && Symbol(n) == ALPHABET[n]
  {
    if n < 26 {
      Ascii.LetterAt(n);
    } else if n < 52 {
      Ascii.LetterAt(n - 26);
    } else if n < 62 {
      assert DIGITS[n - 52] as int == '0' as int + n - 52;
    }
  }

  /** The bits of a group, filled up with zeros to three bytes. */
  function Bits(b: Bytes): int
    requires 1 <= |b| <= 3
  {
    BitsOf(b[0], if |b| > 1 then b[1] else 0, if |b| > 2 then b[2] else 0)
  }

  function BitsOf(x: int, y: int, z: int): int {
    0x10000 * x + 0x100 * y + z
  }

  lemma BitsSplit(x: byte, y: byte, z: byte)
    ensures var n := BitsOf(x, y, z);
            && n / 0x40000 == x / 4
            && n / 0x1000 % 64 == x % 4 * 16 + y / 16
            && n / 0x40 % 64 == y % 16 * 4 + z / 64
            && n % 64 == z % 64
  {
    var n := BitsOf(x, y, z);
    assert n / 0x1000 == 16 * x + y / 16;
    assert n / 0x40 == 0x400 * x + 4 * y + z / 64;
    assert n / 0x40 % 64 == (4 * y + z / 64) % 64;
  }

  /** The four symbols that three bytes unpack into, by the bits they stand for. */
  lemma SymbolsWritten(x: byte, y: byte, z: byte)
    ensures var n := BitsOf(x, y, z);
            && |ALPHABET| == 64 && 0 <= n / 0x40000 < 64
            && Symbol(x / 4) == ALPHABET[n / 0x40000]
            && Symbol(x % 4 * 16 + y / 16) == ALPHABET[n / 0x1000 % 64]
            && Symbol(y % 16 * 4 + z / 64) == ALPHABET[n / 0x40 % 64]
            && Symbol(z % 64) == ALPHABET[n % 64]
  {
    BitsSplit(x, y, z);
    SymbolWritten(x / 4);
    SymbolWritten(x % 4 * 16 + y / 16);
    SymbolWritten(y % 16 * 4 + z / 64);
    SymbolWritten(z % 64);
  }

  lemma GroupSymbols(b: Bytes, x: byte, y: byte, z: byte)
    requires 1 <= |b| <= 3 && b == [x, y, z][..|b|]
    requires (|b| < 2 ==> y == 0) && (|b| < 3 ==> z == 0)
    ensures var s := EncodeGroup(b);
            && s[0] == Symbol(x / 4)
            && s[1] == Symbol(x % 4 * 16 + y / 16)
            && s[2] == (if |b| > 1 then Symbol(y % 16 * 4 + z / 64) else '=')
            && s[3] == (if |b| > 2 then Symbol(z % 64) else '=')
  {
    assert b[0] == x && (|b| > 1 ==> b[1] == y) && (|b| > 2 ==> b[2] == z);
  }

  /** The symbols of a group are its bits, six at a time; what no byte reaches is padding. */
  lemma GroupWritten(b: Bytes)
    requires 1 <= |b| <= 3
    ensures var n, s := Bits(b), EncodeGroup(b);
            && |ALPHABET| == 64 && 0 <= n / 0x40000 < 64
            && s[0] == ALPHABET[n / 0x40000]
            && s[1] == ALPHABET[n / 0x1000 % 64]
            && s[2] == (if |b| > 1 then ALPHABET[n / 0x40 % 64] else '=')
            && s[3] == (if |b| > 2 then ALPHABET[n % 64] else '=')
  {
    var x, y, z := b[0], if |b| > 1 then b[1] else 0, if |b| > 2 then b[2] else 0;
    GroupSymbols(b, x, y, z);
    SymbolsWritten(x, y, z);
  }
}
