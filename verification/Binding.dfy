/**
  Request binding: what an invoice's description hash commits to
  (src/x402/binding.rs).
*/
module Binding {
  import opened Wrappers
  import opened Words
  import opened Json
  import Ascii
  import Lex
  import Utf8

  const HTTP_PROFILE := "http:1"

  // ----- Binding parameters

  predicate IsTokenChar(c: char) {
    'a' <= c <= 'z' || '0' <= c <= '9' || c in "!#$%&'*+-.^_`|~"
  }

  /** RFC 9110 `token` without upper-case letters. */
  predicate IsLowercaseToken(name: string) {
    name != [] && forall i :: 0 <= i < |name| ==> IsTokenChar(name[i])
  }

  predicate IsBindableName(name: string) {
    IsLowercaseToken(name) && name != "payment-signature"
  }

  /** Names are compared as bytes. */
  function NameUnits(name: string): seq<int> {
    Utf8.Encode(name)
  }

  /** Legal names only, each above every earlier one. */
  predicate CanonicalNames(names: seq<string>) {
    && (forall i :: 0 <= i < |names| ==> IsBindableName(names[i]))
    && Lex.Ascending(NameUnits, names)
  }

  /** The delimiters of section 5.6.2 of RFC 9110. */
  const DELIMITERS := "\"(),/:;<=>?@[\\]{}"

  /** A visible ASCII character that is no delimiter and no upper-case letter. */
  predicate IsLowerTokenText(name: string) {
    forall i :: 0 <= i < |name| ==>
      '!' <= name[i] <= '~' && !('A' <= name[i] <= 'Z') && name[i] !in DELIMITERS
  }

  lemma NameMeaning(name: string)
    ensures IsBindableName(name) <==> name != "" && name != "payment-signature" && IsLowerTokenText(name)
  {
    forall c: char
      ensures IsTokenChar(c) <==> '!' <= c <= '~' && !('A' <= c <= 'Z') && c !in DELIMITERS
    {
      TokenChar(c);
    }
  }

  lemma TokenChar(c: char)
    ensures IsTokenChar(c) <==> '!' <= c <= '~' && !('A' <= c <= 'Z') && c !in DELIMITERS
  {
  }

  /** The bytes of `a` come before those of `b`. */
  ghost predicate Before(a: string, b: string) {
    exists k: nat :: Lex.FirstAt(Utf8.Encode(a), Utf8.Encode(b), k)
  }

  lemma BeforeMeaning(a: string, b: string)
    ensures Before(a, b) <==> Lex.Less(NameUnits(a), NameUnits(b))
  {
    Lex.LessMeaning(NameUnits(a), NameUnits(b));
    assert NameUnits(a) == Utf8.Encode(a) && NameUnits(b) == Utf8.Encode(b);
  }

  /** What makes a list canonical, byte by byte. */
  lemma CanonicalNamesMeaning(names: seq<string>)
    ensures CanonicalNames(names) <==>
            && (forall i :: 0 <= i < |names| ==>
                  names[i] != "" && names[i] != "payment-signature" && IsLowerTokenText(names[i]))
            && (forall i, j :: 0 <= i < j < |names| ==> Before(names[i], names[j]))
  {
    forall i | 0 <= i < |names|
      ensures IsBindableName(names[i]) <==>
              names[i] != "" && names[i] != "payment-signature" && IsLowerTokenText(names[i])
    {
      NameMeaning(names[i]);
    }
    forall i, j | 0 <= i < j < |names|
      ensures Lex.Less(NameUnits(names[i]), NameUnits(names[j])) <==> Before(names[i], names[j])
    {
      BeforeMeaning(names[i], names[j]);
    }
  }

  function Texts(names: seq<string>): (items: seq<Value>)
    ensures |items| == |names| && forall i :: 0 <= i < |names| ==> items[i] == String(names[i])
  {
    seq(|names|, i requires 0 <= i < |names| => String(names[i]))
  }

  /** `requestBindingParams` of the `http:1` profile. */
  function HttpParams(names: seq<string>): Value {
    Object(map["headers" := Array(Texts(names))])
  }

  function TextsOf(items: seq<Value>): (names: seq<string>)
    requires forall i :: 0 <= i < |items| ==> items[i].String?
    ensures |names| == |items| && forall i :: 0 <= i < |items| ==> items[i] == String(names[i])
  {
    seq(|items|, i requires 0 <= i < |items| => items[i].text)
  }

  /** The texts of a canonical list of names. */
  predicate CanonicalList(items: seq<Value>) {
    && (forall i :: 0 <= i < |items| ==> items[i].String?)
    && CanonicalNames(TextsOf(items))
  }

  /** The parameter objects the `http:1` profile allows. */
  predicate CanonicalParams(params: Value) {
    && params.Object?
    && params.fields.Keys == {"headers"}
    && params.fields["headers"].Array?
    && CanonicalList(params.fields["headers"].items)
  }

  /** They are exactly the parameters of canonical name lists. */
  lemma CanonicalParamsForm(params: Value)
    ensures CanonicalParams(params) <==> exists names :: CanonicalNames(names) && params == HttpParams(names)
  {
    if CanonicalParams(params) {
      var items := params.fields["headers"].items;
      var names := TextsOf(items);
      assert items == Texts(names);
      assert params.fields == HttpParams(names).fields;
      assert CanonicalNames(names);
    }
  }

  method IsValidHttpParams(params: Value) returns (valid: bool)
    ensures valid <==> CanonicalParams(params)
  {
    if !params.Object? {
      return false;
    }
    if !("headers" in params.fields && params.fields["headers"].Array?) {
      return false;
    }
    OnlyKey(params.fields, "headers");
    if |params.fields| != 1 {
      return false;
    }
    valid := IsValidNameList(params.fields["headers"].items);
  }

  /** The loop of the check: each name is only compared with the one before it. */
  method IsValidNameList(headers: seq<Value>) returns (valid: bool)
    ensures valid <==> CanonicalList(headers)
  {
    var previous: Option<string> := None;
    ghost var names: seq<string> := [];
    for i := 0 to |headers|
      invariant |names| == i && Accepted(headers, names)
      invariant previous == if i == 0 then None else Some(names[i - 1])
    {
      if !headers[i].String? {
        RejectsElement(headers, i);
        return false;
      }
      var name := headers[i].text;
      if !IsLowercaseToken(name) || name == "payment-signature" {
        RejectsElement(headers, i);
        return false;
      }
      if previous.Some? && !Lex.Less(NameUnits(previous.value), NameUnits(name)) {
        RejectsElement(headers, i);
        return false;
      }
      AcceptsNext(headers, names, name);
      previous := Some(name);
      names := names + [name];
    }
    AcceptsNames(headers, names);
    return true;
  }

  /** The first elements of `items` are a canonical list of names. */
  ghost predicate Accepted(items: seq<Value>, names: seq<string>) {
    && |names| <= |items|
    && (forall k :: 0 <= k < |names| ==> items[k] == String(names[k]))
    && CanonicalNames(names)
  }

  lemma AcceptsNext(items: seq<Value>, names: seq<string>, name: string)
    requires Accepted(items, names) && |names| < |items| && items[|names|] == String(name)
    requires IsBindableName(name)
    requires names != [] ==> Lex.Less(NameUnits(names[|names| - 1]), NameUnits(name))
    ensures Accepted(items, names + [name])
  {
    Lex.AscendingSnoc(NameUnits, names, name);
  }

  lemma OnlyKey(fields: map<string, Value>, key: string)
    requires key in fields
    ensures |fields| == 1 <==> fields.Keys == {key}
  {
    var keys := fields.Keys;
    assert |keys - {key}| == |keys| - 1;
    assert |keys| == 1 ==> keys - {key} == {};
  }

  lemma AcceptsNames(items: seq<Value>, names: seq<string>)
    requires Accepted(items, names) && |names| == |items|
    ensures CanonicalList(items)
  {
    assert TextsOf(items) == names;
  }

  /** A list with an illegal element, or one not above its predecessor, is not canonical. */
  lemma RejectsElement(items: seq<Value>, i: nat)
    requires i < |items|
    requires || !items[i].String?
             || !IsBindableName(items[i].text)
             || (i > 0 && items[i - 1].String? && !Lex.Less(NameUnits(items[i - 1].text), NameUnits(items[i].text)))
    ensures !CanonicalList(items)
  {
  }

  /** A canonical list is determined by the set of its names. */
  lemma CanonicalNamesUnique(a: seq<string>, b: seq<string>)
    requires CanonicalNames(a) && CanonicalNames(b)
    requires forall name :: name in a <==> name in b
    ensures a == b
  {
    Lex.AscendingUnique(NameUnits, a, b);
  }

  /** On canonical parameters, comparing values is comparing canonical bytes. */
  lemma ParamsEquality(v: Value, w: Value)
    requires CanonicalParams(v) && CanonicalParams(w)
    ensures Plain(v) && Plain(w)
    ensures v == w <==> CanonicalBytes(v) == CanonicalBytes(w)
  {
    CanonicalInjective(v, w);
  }

  // ----- Header values

  /** Header lines in order of arrival, by lower-case name. */
  type HeaderMap = map<string, seq<Bytes>>

  /** Lookup ignores the case of ASCII letters. */
  function Lines(headers: HeaderMap, name: string): seq<Bytes> {
    if Ascii.Lower(name) in headers then headers[Ascii.Lower(name)] else []
  }

  /** Names that can be bound are looked up as they are written. */
  lemma BindableIsLower(name: string)
    requires IsBindableName(name)
    ensures Ascii.Lower(name) == name
  {
    assert forall i :: 0 <= i < |name| ==> IsTokenChar(name[i]);
  }

  predicate IsBlank(b: byte) {
    b == 32 || b == 9
  }

  /** Visible ASCII or a tab: what a header value may hold to be read as text. */
  predicate IsReadable(line: Bytes) {
    forall i :: 0 <= i < |line| ==> 32 <= line[i] < 127 || line[i] == 9
  }

  function TrimStart(s: Bytes): Bytes {
    if s != [] && IsBlank(s[0]) then TrimStart(s[1..]) else s
  }

  function TrimEnd(s: Bytes): Bytes {
    if s != [] && IsBlank(s[|s| - 1]) then TrimEnd(s[..|s| - 1]) else s
  }

  function Trim(s: Bytes): Bytes {
    TrimEnd(TrimStart(s))
  }

  function Trimmed(lines: seq<Bytes>): (values: seq<Bytes>)
    ensures |values| == |lines| && forall i :: 0 <= i < |lines| ==> values[i] == Trim(lines[i])
  {
    seq(|lines|, i requires 0 <= i < |lines| => Trim(lines[i]))
  }

  const SEPARATOR: Bytes := [44, 32]

  function JoinRest(values: seq<Bytes>): Bytes {
    if values == [] then [] else SEPARATOR + values[0] + JoinRest(values[1..])
  }

  function Join(values: seq<Bytes>): Bytes {
    if values == [] then [] else values[0] + JoinRest(values[1..])
  }

  /** Section 2.1 of RFC 9421. */
  function Combined(lines: seq<Bytes>): Bytes {
    Join(Trimmed(lines))
  }

  predicate AllReadable(lines: seq<Bytes>) {
    forall line :: line in lines ==> IsReadable(line)
  }

  /** The bytes hashed for a header: a tag for absence or presence, then the combined value. */
  function HeaderInput(lines: seq<Bytes>): Option<Bytes> {
    if lines == [] then Some([0])
    else if AllReadable(lines) then Some([1] + Combined(lines))
    else None
  }

  /** The tags, and what a readable header is, byte by byte. */
  lemma HeaderInputMeaning(lines: seq<Bytes>)
    ensures lines == [] ==> HeaderInput(lines) == Some([0x00])
    ensures HeaderInput(lines).None? <==>
            exists line, i :: line in lines && 0 <= i < |line| && !(line[i] == 0x09 || 0x20 <= line[i] <= 0x7E)
    ensures lines != [] && HeaderInput(lines).Some? ==> HeaderInput(lines) == Some([0x01] + Combined(lines))
  {
    assert AllReadable(lines) <==>
           !exists line, i :: line in lines && 0 <= i < |line| && !(line[i] == 0x09 || 0x20 <= line[i] <= 0x7E);
  }

  method HeaderValueHash(sha256: Bytes -> Hash32, headers: HeaderMap, name: string)
    returns (hash: Option<Hash32>)
    ensures hash == match HeaderInput(Lines(headers, name))
                    case Some(input) => Some(sha256(input))
                    case None => None
  {
    var lines := Lines(headers, name);
    if lines == [] {
      return Some(sha256([0]));
    }
    var values: seq<Bytes> := [];
    for i := 0 to |lines|
      invariant AllReadable(lines[..i]) && values == Trimmed(lines[..i])
    {
      if !IsReadable(lines[i]) {
        return None;
      }
      values := values + [Trim(lines[i])];
    }
    assert lines[..|lines|] == lines;
    var hashed: Bytes := [];
    hashed := hashed + [1];
    hashed := hashed + Join(values);
    assert hashed == [1] + Combined(lines);
    hash := Some(sha256(hashed));
  }

  /** No blank at either end. */
  predicate IsTight(s: Bytes) {
    s == [] || (!IsBlank(s[0]) && !IsBlank(s[|s| - 1]))
  }

  lemma {:induction false} TrimEndFacts(s: Bytes)
    ensures |TrimEnd(s)| <= |s| && (TrimEnd(s) != [] ==> s != [] && TrimEnd(s)[0] == s[0])
    ensures TrimEnd(s) != [] ==> !IsBlank(TrimEnd(s)[|TrimEnd(s)| - 1])
    ensures TrimEnd(s) == s <==> s == [] || !IsBlank(s[|s| - 1])
  {
    if s != [] && IsBlank(s[|s| - 1]) {
      TrimEndFacts(s[..|s| - 1]);
    }
  }

  lemma {:induction false} TrimStartFacts(s: Bytes)
    ensures |TrimStart(s)| <= |s| && (TrimStart(s) != [] ==> !IsBlank(TrimStart(s)[0]))
    ensures TrimStart(s) == s <==> s == [] || !IsBlank(s[0])
  {
    if s != [] && IsBlank(s[0]) {
      TrimStartFacts(s[1..]);
    }
  }

  lemma TrimFacts(s: Bytes)
    ensures IsTight(Trim(s)) && Trim(Trim(s)) == Trim(s)
    ensures |Trim(s)| <= |s| && (IsTight(s) <==> Trim(s) == s)
  {
    TrimStartFacts(s);
    TrimEndFacts(TrimStart(s));
    var t := Trim(s);
    TrimStartFacts(t);
    TrimEndFacts(t);
    if s != [] && IsBlank(s[0]) {
      assert |TrimStart(s)| < |s| by { TrimStartFacts(s[1..]); }
    }
  }

  ghost predicate AllBlank(s: Bytes) {
    forall i :: 0 <= i < |s| ==> s[i] == 0x20 || s[i] == 0x09
  }

  lemma {:induction false} TrimStartSplit(s: Bytes) returns (p: Bytes)
    ensures s == p + TrimStart(s) && AllBlank(p)
  {
    p := [];
    if s != [] && IsBlank(s[0]) {
      var rest := TrimStartSplit(s[1..]);
      p := [s[0]] + rest;
      assert s == [s[0]] + s[1..];
    }
  }

  lemma {:induction false} TrimEndSplit(s: Bytes) returns (q: Bytes)
    ensures s == TrimEnd(s) + q && AllBlank(q)
  {
    q := [];
    if s != [] && IsBlank(s[|s| - 1]) {
      var rest := TrimEndSplit(s[..|s| - 1]);
      q := rest + [s[|s| - 1]];
      assert s == s[..|s| - 1] + [s[|s| - 1]];
    }
  }

  /** Trimming removes blanks from the ends, all of them, and nothing else. */
  lemma TrimMeaning(s: Bytes)
    ensures var t := Trim(s); t != [] ==> t[0] !in {0x20, 0x09} && t[|t| - 1] !in {0x20, 0x09}
    ensures exists p, q :: s == p + Trim(s) + q && AllBlank(p) && AllBlank(q)
  {
    TrimFacts(s);
    var p := TrimStartSplit(s);
    var q := TrimEndSplit(TrimStart(s));
    assert s == p + Trim(s) + q;
  }

  function Prefix(values: seq<Bytes>): Bytes {
    if values == [] then [] else values[0] + SEPARATOR + Prefix(values[1..])
  }

  lemma {:induction false} JoinRestAppend(p: seq<Bytes>, q: seq<Bytes>)
    ensures JoinRest(p + q) == JoinRest(p) + JoinRest(q)
  {
    if p == [] {
      assert p + q == q;
    } else {
      assert (p + q)[1..] == p[1..] + q;
      JoinRestAppend(p[1..], q);
    }
  }

  lemma JoinAppend(x: seq<Bytes>, y: seq<Bytes>)
    requires x != [] && y != []
    ensures Join(x + y) == Join(x) + [0x2C, 0x20] + Join(y)
  {
    assert (x + y)[1..] == x[1..] + y;
    JoinRestAppend(x[1..], y);
    assert JoinRest(y) == [0x2C, 0x20] + Join(y);
  }

  /** One line is combined by trimming it, more lines by putting a comma and a blank between them. */
  lemma CombinedAppend(a: seq<Bytes>, b: seq<Bytes>)
    ensures |a| == 1 ==> Combined(a) == Trim(a[0])
    ensures a != [] && b != [] ==> Combined(a + b) == Combined(a) + [0x2C, 0x20] + Combined(b)
  {
    if |a| == 1 {
      assert Trimmed(a) == [Trim(a[0])];
    }
    if a != [] && b != [] {
      assert Trimmed(a + b) == Trimmed(a) + Trimmed(b);
      JoinAppend(Trimmed(a), Trimmed(b));
    }
  }

  /** Joining commutes with joining a non-empty group first. */
  lemma {:induction false} JoinGroup(p: seq<Bytes>, g: seq<Bytes>, q: seq<Bytes>)
    requires g != []
    ensures Join(p + g + q) == Prefix(p) + Join(g) + JoinRest(q)
  {
    if p == [] {
      assert p + g + q == g + q;
      assert (g + q)[1..] == g[1..] + q;
      JoinRestAppend(g[1..], q);
    } else {
      var rest := p[1..] + g + q;
      assert (p + g + q)[1..] == rest;
      JoinGroup(p[1..], g, q);
      assert rest != [] && JoinRest(rest) == SEPARATOR + Join(rest);
      var mid := Prefix(p[1..]) + Join(g) + JoinRest(q);
      assert Join(p + g + q) == p[0] + (SEPARATOR + mid);
      assert Prefix(p) + Join(g) + JoinRest(q) == p[0] + SEPARATOR + mid;
    }
  }

  /** Trimming a combined value only changes it when its last line was blank. */
  lemma TrimCombined(g: seq<Bytes>)
    requires g != []
    ensures Trim(Combined(g)) == Combined(g) <==> |g| == 1 || Trim(g[|g| - 1]) != []
  {
    TrimFacts(g[0]);
    TrimFacts(g[|g| - 1]);
    TrimFacts(Combined(g));
    if |g| == 1 {
      assert Trimmed(g) == [Trim(g[0])];
    } else {
      JoinEnds(Trimmed(g));
    }
  }

  /** The first and the last byte of two or more joined values. */
  lemma JoinEnds(values: seq<Bytes>)
    requires |values| > 1
    ensures var c, last := Join(values), values[|values| - 1];
            && c != []
            && c[0] == (if values[0] == [] then 44 else values[0][0])
            && c[|c| - 1] == (if last == [] then 32 else last[|last| - 1])
  {
    var init, last := values[..|values| - 1], values[|values| - 1];
    assert values == init + [last] + [];
    JoinGroup(init, [last], []);
    assert Join(values) == Prefix(init) + last;
    PrefixEnd(init);
  }

  lemma {:induction false} PrefixEnd(values: seq<Bytes>)
    requires values != []
    ensures Prefix(values) != [] && Prefix(values)[|Prefix(values)| - 1] == 32
  {
    if |values| > 1 {
      PrefixEnd(values[1..]);
    }
  }

  lemma TrimmedGroup(a: seq<Bytes>, g: seq<Bytes>, b: seq<Bytes>)
    requires g != []
    ensures Combined(a + g + b) == Prefix(Trimmed(a)) + Combined(g) + JoinRest(Trimmed(b))
  {
    assert Trimmed(a + g + b) == Trimmed(a) + Trimmed(g) + Trimmed(b);
    JoinGroup(Trimmed(a), Trimmed(g), Trimmed(b));
  }

  lemma MergedValue(a: seq<Bytes>, g: seq<Bytes>, b: seq<Bytes>)
    requires g != []
    ensures Combined(a + [Combined(g)] + b) == Combined(a + g + b)
            <==> |g| == 1 || Trim(g[|g| - 1]) != []
  {
    TrimmedGroup(a, g, b);
    TrimmedGroup(a, [Combined(g)], b);
    assert Combined([Combined(g)]) == Trim(Combined(g)) by {
      assert Trimmed([Combined(g)]) == [Trim(Combined(g))];
    }
    TrimCombined(g);
    SameMiddle(Prefix(Trimmed(a)), Trim(Combined(g)), Combined(g), JoinRest(Trimmed(b)));
  }

  lemma MergedReadable(a: seq<Bytes>, g: seq<Bytes>, b: seq<Bytes>)
    requires AllReadable(a + g + b)
    ensures AllReadable(a + [Combined(g)] + b)
  {
    forall line | line in a || line in g || line in b
      ensures IsReadable(line)
    {
      assert line in a + g + b;
    }
    CombinedReadable(g);
  }

  /**
    A group of adjacent lines can be sent as the single line of its combined
    value exactly when it had one line or does not end in a blank one.
  */
  lemma MergeAdjacentLines(a: seq<Bytes>, g: seq<Bytes>, b: seq<Bytes>)
    requires g != [] && AllReadable(a + g + b)
    ensures HeaderInput(a + [Combined(g)] + b) == HeaderInput(a + g + b)
            <==> |g| == 1 || Trim(g[|g| - 1]) != []
  {
    MergedReadable(a, g, b);
    MergedValue(a, g, b);
    var x, y := Combined(a + [Combined(g)] + b), Combined(a + g + b);
    assert x == ([1] + x)[1..] && y == ([1] + y)[1..];
  }

  lemma SameMiddle(p: Bytes, x: Bytes, y: Bytes, q: Bytes)
    ensures p + x + q == p + y + q <==> x == y
  {
    if p + x + q == p + y + q {
      assert |x| == |y|;
      assert x == (p + x + q)[|p|..|p| + |x|] && y == (p + y + q)[|p|..|p| + |y|];
    }
  }

  lemma TrimReadable(line: Bytes)
    requires IsReadable(line)
    ensures IsReadable(Trim(line))
  {
    TrimStartReadable(line);
    TrimEndReadable(TrimStart(line));
  }

  lemma {:induction false} TrimStartReadable(line: Bytes)
    requires IsReadable(line)
    ensures IsReadable(TrimStart(line))
  {
    if line != [] && IsBlank(line[0]) {
      TrimStartReadable(line[1..]);
    }
  }

  lemma {:induction false} TrimEndReadable(line: Bytes)
    requires IsReadable(line)
    ensures IsReadable(TrimEnd(line))
  {
    if line != [] && IsBlank(line[|line| - 1]) {
      TrimEndReadable(line[..|line| - 1]);
    }
  }

  lemma {:induction false} CombinedReadable(lines: seq<Bytes>)
    requires AllReadable(lines)
    ensures IsReadable(Combined(lines)) && IsReadable(JoinRest(Trimmed(lines)))
  {
    if lines != [] {
      assert lines[0] in lines && AllReadable(lines[1..]);
      TrimReadable(lines[0]);
      CombinedReadable(lines[1..]);
      assert Trimmed(lines)[1..] == Trimmed(lines[1..]);
    }
  }

  /** Sending the combined value as one line: the special case of the whole list. */
  lemma SendAsOneLine(lines: seq<Bytes>)
    requires lines != [] && AllReadable(lines)
    ensures HeaderInput([Combined(lines)]) == HeaderInput(lines)
            <==> |lines| == 1 || Trim(lines[|lines| - 1]) != []
  {
    assert [] + lines + [] == lines && [] + [Combined(lines)] + [] == [Combined(lines)];
    MergeAdjacentLines([], lines, []);
  }
}
