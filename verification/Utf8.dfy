/** UTF-8 (RFC 3629) and UTF-16 encodings of strings of Unicode scalar values. */
module Utf8 {
  import opened Words

  function EncodeChar(c: char): (b: Bytes)
    ensures 1 <= |b| <= 4
  {
    var n := c as int;
    if n < 0x80 then [n]
    else if n < 0x800 then [0xC0 + n / 0x40, 0x80 + n % 0x40]
    else if n < 0x10000 then [0xE0 + n / 0x1000, 0x80 + n / 0x40 % 0x40, 0x80 + n % 0x40]
    else [0xF0 + n / 0x40000, 0x80 + n / 0x1000 % 0x40, 0x80 + n / 0x40 % 0x40, 0x80 + n % 0x40]
  }

  function Encode(s: string): Bytes {
    if s == [] then [] else EncodeChar(s[0]) + Encode(s[1..])
  }

  /** No character's encoding is the beginning of another's. */
  lemma CharPrefixFree(c: char, x: Bytes, d: char, y: Bytes)
    requires EncodeChar(c) + x == EncodeChar(d) + y
    ensures c == d && x == y
  {
    var e, f := EncodeChar(c), EncodeChar(d);
    assert (e + x)[0] == e[0] && (f + y)[0] == f[0];
    assert |e| == |f|;
    assert e == (e + x)[..|e|] && f == (f + y)[..|f|];
    assert x == (e + x)[|e|..] && y == (f + y)[|f|..];
    SameCode(c as int, d as int);
    assert c as int == d as int;
  }

  lemma SameCode(m: int, n: int)
    requires 0 <= m < 0x110000 && 0 <= n < 0x110000
    ensures m / 0x40 == n / 0x40 && m % 0x40 == n % 0x40 ==> m == n
    ensures m / 0x1000 == n / 0x1000 && m / 0x40 % 0x40 == n / 0x40 % 0x40 ==> m / 0x40 == n / 0x40
    ensures m / 0x40000 == n / 0x40000 && m / 0x1000 % 0x40 == n / 0x1000 % 0x40
            ==> m / 0x1000 == n / 0x1000
  {
    assert m / 0x1000 == m / 0x40 / 0x40 && n / 0x1000 == n / 0x40 / 0x40;
    assert m / 0x40000 == m / 0x1000 / 0x40 && n / 0x40000 == n / 0x1000 / 0x40;
  }

  lemma {:induction false} EncodeInjective(s: string, t: string)
    requires Encode(s) == Encode(t)
    ensures s == t
  {
    if s != [] && t != [] {
      CharPrefixFree(s[0], Encode(s[1..]), t[0], Encode(t[1..]));
      EncodeInjective(s[1..], t[1..]);
      assert s == [s[0]] + s[1..] && t == [t[0]] + t[1..];
    }
  }

  /** UTF-16 code units, the sort key of section 3.2.3 of RFC 8785. */
  function Utf16(s: string): seq<int> {
    if s == [] then []
    else
      var n := s[0] as int;
      (if n < 0x10000 then [n]
       else [0xD800 + (n - 0x10000) / 0x400, 0xDC00 + (n - 0x10000) % 0x400]) + Utf16(s[1..])
  }

  lemma {:induction false} Utf16Injective(s: string, t: string)
    requires Utf16(s) == Utf16(t)
    ensures s == t
  {
    if s != [] && t != [] {
      var m, n := s[0] as int, t[0] as int;
      var u, v := Utf16(s), Utf16(t);
      assert u[0] == v[0];
      if m < 0x10000 {
        assert n == m;
        assert u[1..] == Utf16(s[1..]) && v[1..] == Utf16(t[1..]);
      } else {
        assert n >= 0x10000;
        assert u[1] == v[1];
        assert m == n;
        assert u[2..] == Utf16(s[1..]) && v[2..] == Utf16(t[1..]);
      }
      Utf16Injective(s[1..], t[1..]);
      assert s == [s[0]] + s[1..] && t == [t[0]] + t[1..];
    }
  }

  // ----- The encodings in full

  predicate IsContinuation(b: byte) {
    0x80 <= b < 0xC0
  }

  /** The table of section 3 of RFC 3629, read from the bytes to the character. */
  predicate Spells(b: Bytes, n: int) {
    || (|b| == 1 && n == b[0] < 0x80)
    || (&& |b| == 2 && 0xC0 <= b[0] < 0xE0 && IsContinuation(b[1])
        && 0x80 <= n < 0x800 && n == 0x40 * (b[0] as int - 0xC0) + (b[1] as int - 0x80))
    || (&& |b| == 3 && 0xE0 <= b[0] < 0xF0 && IsContinuation(b[1]) && IsContinuation(b[2])
        && 0x800 <= n < 0x10000
        && n == 0x1000 * (b[0] as int - 0xE0) + 0x40 * (b[1] as int - 0x80) + (b[2] as int - 0x80))
    || (&& |b| == 4 && 0xF0 <= b[0] < 0xF8 && IsContinuation(b[1]) && IsContinuation(b[2]) && IsContinuation(b[3])
        && 0x10000 <= n
        && n == 0x40000 * (b[0] as int - 0xF0) + 0x1000 * (b[1] as int - 0x80)
                + 0x40 * (b[2] as int - 0x80) + (b[3] as int - 0x80))
  }

  lemma CharSpelled(c: char)
    ensures Spells(EncodeChar(c), c as int)
  {
    var n := c as int;
    assert n / 0x1000 == n / 0x40 / 0x40 && n / 0x40000 == n / 0x1000 / 0x40;
  }

  /** Text is encoded character by character. */
  lemma {:induction false} EncodeAppend(s: string, t: string)
    ensures Encode(s + t) == Encode(s) + Encode(t)
  {
    if s == [] {
      assert s + t == t;
    } else {
      assert (s + t)[1..] == s[1..] + t;
      EncodeAppend(s[1..], t);
    }
  }

  /** Section 2.1 of RFC 2781, read from the code units to the character. */
  predicate SpellsUnits(u: seq<int>, n: int) {
    || (|u| == 1 && n == u[0] < 0x10000)
    || (&& |u| == 2 && 0xD800 <= u[0] < 0xDC00 && 0xDC00 <= u[1] < 0xE000
        && n == 0x10000 + 0x400 * (u[0] - 0xD800) + (u[1] - 0xDC00))
  }

  lemma CharUnits(c: char)
    ensures SpellsUnits(Utf16([c]), c as int)
  {
  }

  lemma {:induction false} Utf16Append(s: string, t: string)
    ensures Utf16(s + t) == Utf16(s) + Utf16(t)
  {
    if s == [] {
      assert s + t == t;
    } else {
      assert (s + t)[1..] == s[1..] + t;
      Utf16Append(s[1..], t);
    }
  }
}
