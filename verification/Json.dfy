/** JSON values as the server holds them, and their canonical serialization. */
module Json {
  import opened Wrappers
  import Ascii
  import Hex
  import Lex
  import Utf8
  import Words

  /** Numbers only occur in untrusted input and are never interpreted. */
  datatype Value =
    | Null
    | Bool(bool)
    | Number(literal: string)
    | String(text: string)
    | Array(items: seq<Value>)
    | Object(fields: map<string, Value>)

  /** The fragment request bindings use: objects, arrays and strings. */
  ghost predicate Plain(v: Value) {
    match v
    case String(_) => true
    case Array(items) => forall i :: 0 <= i < |items| ==> Plain(items[i])
    case Object(fields) => forall k :: k in fields ==> Plain(fields[k])
    case _ => false
  }

  // ----- Member order (RFC 8785 section 3.2.3)

  function KeyUnits(key: string): seq<int> {
    Utf8.Utf16(key)
  }

  lemma KeysOrdered(a: string, b: string)
    ensures a == b || Lex.Less(KeyUnits(a), KeyUnits(b)) || Lex.Less(KeyUnits(b), KeyUnits(a))
  {
    Lex.Total(KeyUnits(a), KeyUnits(b));
    if KeyUnits(a) == KeyUnits(b) {
      Utf8.Utf16Injective(a, b);
    }
  }

  predicate IsLeast(k: string, keys: set<string>) {
    k in keys && forall other :: other in keys && other != k ==> Lex.Less(KeyUnits(k), KeyUnits(other))
  }

  lemma {:induction false} LeastKeyExists(keys: set<string>)
    requires keys != {}
    ensures exists k :: IsLeast(k, keys)
  {
    var k :| k in keys;
    var rest := keys - {k};
    if rest == {} {
      assert forall other :: other in keys ==> other == k || other in rest;
      assert IsLeast(k, keys);
    } else {
      LeastKeyExists(rest);
      var m :| IsLeast(m, rest);
      KeysOrdered(k, m);
      var least := if Lex.Less(KeyUnits(k), KeyUnits(m)) then k else m;
      forall other | other in keys && other != least
        ensures Lex.Less(KeyUnits(least), KeyUnits(other))
      {
        if least == k && other != m {
          Lex.Transitive(KeyUnits(k), KeyUnits(m), KeyUnits(other));
        }
      }
      assert IsLeast(least, keys);
    }
  }

  lemma LeastKeyUnique(keys: set<string>)
    ensures forall a, b :: IsLeast(a, keys) && IsLeast(b, keys) ==> a == b
  {
    forall a, b | IsLeast(a, keys) && IsLeast(b, keys)
      ensures a == b
    {
      if a != b {
        Lex.Transitive(KeyUnits(a), KeyUnits(b), KeyUnits(a));
        Lex.Irreflexive(KeyUnits(a));
      }
    }
  }

  /** The ascending enumeration of `keys`; `Lex.AscendingUnique` makes it the only one. */
  function SortedKeys(keys: set<string>): (sorted: seq<string>)
    ensures forall k :: k in sorted <==> k in keys
    ensures Lex.Ascending(KeyUnits, sorted)
  {
    if keys == {} then []
    else
      LeastKeyExists(keys);
      LeastKeyUnique(keys);
      var least :| least in keys && IsLeast(least, keys);
      [least] + SortedKeys(keys - {least})
  }

  // ----- Serialization (RFC 8785 section 3.2.2)

  /** String escapes of section 3.2.2.2. */
  function EscapeChar(c: char): (s: string)
    ensures s != []
  {
    var n := c as int;
    if c == '"' then "\\\""
    else if c == '\\' then "\\\\"
    else if n == 8 then "\\b"
    else if n == 9 then "\\t"
    else if n == 10 then "\\n"
    else if n == 12 then "\\f"
    else if n == 13 then "\\r"
    else if n < 32 then ['\\', 'u', '0', '0', Hex.Digit(n / 16), Hex.Digit(n % 16)]
    else [c]
  }

  /** The body of a string literal, up to and including its closing quote. */
  function EscapeRest(s: string): string {
    if s == [] then "\"" else EscapeChar(s[0]) + EscapeRest(s[1..])
  }

  function Quote(s: string): string {
    "\"" + EscapeRest(s)
  }

  function Serialize(v: Value): string
    requires Plain(v)
    decreases v, 1, 0
  {
    match v
    case String(text) => Quote(text)
    case Array(items) => "[" + Items(v, 0)
    case Object(fields) => "{" + Members(v, SortedKeys(fields.Keys), true)
  }

  /** Array elements from index `i`, up to and including the closing bracket. */
  function Items(v: Value, i: nat): string
    requires v.Array? && Plain(v) && i <= |v.items|
    decreases v, 0, |v.items| - i
  {
    if i == |v.items| then "]"
    else (if i == 0 then "" else ",") + Serialize(v.items[i]) + Items(v, i + 1)
  }

  /** Object members for `keys`, up to and including the closing brace. */
  function Members(v: Value, keys: seq<string>, first: bool): string
    requires v.Object? && Plain(v) && forall k :: k in keys ==> k in v.fields
    decreases v, 0, |keys|
  {
    if keys == [] then "}"
    else
      (if first then "" else ",") + Quote(keys[0]) + ":" + Serialize(v.fields[keys[0]])
      + Members(v, keys[1..], false)
  }

  /** Texts from index `i`, with commas between them. */
  function Commas(texts: seq<string>, i: nat): string
    requires i <= |texts|
    decreases |texts| - i
  {
    if i == |texts| then "" else (if i == 0 then "" else ",") + texts[i] + Commas(texts, i + 1)
  }

  /** `texts` are the serialized items of an array. */
  ghost predicate ItemTexts(v: Value, texts: seq<string>)
    requires v.Array? && Plain(v)
  {
    |texts| == |v.items| && forall i :: 0 <= i < |texts| ==> Serialize(v.items[i]) == texts[i]
  }

  lemma {:induction false} ItemsText(v: Value, texts: seq<string>, i: nat)
    requires v.Array? && Plain(v) && ItemTexts(v, texts) && i <= |texts|
    ensures Items(v, i) == Commas(texts, i) + "]"
    decreases |texts| - i
  {
    if i < |texts| {
      ItemsText(v, texts, i + 1);
      Reassociate((if i == 0 then "" else ",") + texts[i], Commas(texts, i + 1), "]");
    }
  }

  /** An array is written as its items in brackets, with commas between them. */
  lemma ArrayText(v: Value, texts: seq<string>)
    requires v.Array? && Plain(v) && ItemTexts(v, texts)
    ensures Serialize(v) == "[" + Commas(texts, 0) + "]"
  {
    ItemsText(v, texts, 0);
    Reassociate("[", Commas(texts, 0), "]");
  }

  // ----- Reading (RFC 8259, the fragment of `Plain` values, without white space)

  /** One character of a string literal, and how many characters of text it takes. */
  function ReadChar(t: string): (r: Option<(char, nat)>)
    ensures r.Some? ==> 1 <= r.value.1 <= |t|
  {
    if t == [] || t[0] == '"' || (t[0] as int) < 0x20 then None
    else if t[0] != '\\' then Some((t[0], 1))
    else if |t| < 2 then None
    else
      match t[1]
      case '"' => Some(('"', 2))
      case '\\' => Some(('\\', 2))
      case '/' => Some(('/', 2))
      case 'b' => Some(('\U{08}', 2))
      case 'f' => Some(('\U{0C}', 2))
      case 'n' => Some(('\U{0A}', 2))
      case 'r' => Some(('\U{0D}', 2))
      case 't' => Some(('\U{09}', 2))
      case 'u' => ReadCode(t)
      case _ => None
  }

  /** A four-digit escape; surrogates stand for no character of their own. */
  function ReadCode(t: string): (r: Option<(char, nat)>)
    requires |t| >= 2
    ensures r.Some? ==> r.value.1 == 6 <= |t|
  {
    if |t| < 6 then None
    else
      match (Hex.DigitValue(t[2]), Hex.DigitValue(t[3]), Hex.DigitValue(t[4]), Hex.DigitValue(t[5]))
      case (Some(a), Some(b), Some(c), Some(d)) =>
        var code := 0x1000 * a + 0x100 * b + 0x10 * c + d;
        if 0xD800 <= code < 0xE000 then None else Some((code as char, 6))
      case _ => None
  }

  /** The rest of a string literal, its closing quote included, and the text after it. */
  function ReadString(t: string): (r: Option<(string, string)>)
    ensures r.Some? ==> |r.value.1| < |t|
    decreases |t|
  {
    if t == [] then None
    else if t[0] == '"' then Some(("", t[1..]))
    else
      match ReadChar(t)
      case None => None
      case Some((c, n)) =>
        match ReadString(t[n..])
        case None => None
        case Some((s, rest)) => Some(([c] + s, rest))
  }

  function ReadValue(t: string): (r: Option<(Value, string)>)
    ensures r.Some? ==> |r.value.1| < |t|
    decreases |t|, 0
  {
    if t == [] then None
    else if t[0] == '"' then
      match ReadString(t[1..])
      case None => None
      case Some((s, rest)) => Some((String(s), rest))
    else if t[0] == '[' then
      match ReadItems(t[1..], true)
      case None => None
      case Some((items, rest)) => Some((Array(items), rest))
    else if t[0] == '{' then
      match ReadMembers(t[1..], true)
      case None => None
      case Some((fields, rest)) => Some((Object(fields), rest))
    else None
  }

  /** What remains when an element that is not the first has its comma. */
  function SkipComma(t: string, first: bool): (r: Option<string>)
    ensures r.Some? ==> |r.value| <= |t|
  {
    if first then Some(t) else if t != [] && t[0] == ',' then Some(t[1..]) else None
  }

  function ReadItems(t: string, first: bool): (r: Option<(seq<Value>, string)>)
    ensures r.Some? ==> |r.value.1| < |t|
    decreases |t|, 1
  {
    if t != [] && t[0] == ']' then Some(([], t[1..]))
    else
      match SkipComma(t, first)
      case None => None
      case Some(item) =>
        match ReadValue(item)
        case None => None
        case Some((v, rest)) =>
          match ReadItems(rest, false)
          case None => None
          case Some((vs, end)) => Some(([v] + vs, end))
  }

  /** Names must be distinct. */
  function ReadMembers(t: string, first: bool): (r: Option<(map<string, Value>, string)>)
    ensures r.Some? ==> |r.value.1| < |t|
    decreases |t|, 1
  {
    if t != [] && t[0] == '}' then Some((map[], t[1..]))
    else
      match SkipComma(t, first)
      case None => None
      case Some(member) =>
        if member == [] || member[0] != '"' then None
        else
          match ReadString(member[1..])
          case None => None
          case Some((key, value)) =>
            if value == [] || value[0] != ':' then None
            else
              match ReadValue(value[1..])
              case None => None
              case Some((v, rest)) =>
                match ReadMembers(rest, false)
                case None => None
                case Some((fields, end)) => if key in fields then None else Some((fields[key := v], end))
  }

  // ----- Reading what was serialized

  lemma ReadCharBack(c: char, x: string)
    ensures ReadChar(EscapeChar(c) + x) == Some((c, |EscapeChar(c)|))
  {
    var n, t := c as int, EscapeChar(c) + x;
    if n < 32 && |EscapeChar(c)| == 6 {
      Hex.DigitRoundTrip(n / 16, '0');
      Hex.DigitRoundTrip(n % 16, '0');
      Hex.DigitRoundTrip(0, '0');
      assert t[4] == Hex.Digit(n / 16) && t[5] == Hex.Digit(n % 16);
      assert (16 * (n / 16) + n % 16) as char == c;
    }
  }

  lemma Reassociate(a: string, b: string, c: string)
    ensures (a + b) + c == a + (b + c)
  {
  }

  /**
    Of the texts that read as `c`, its escape is the shortest, and the only one
    of its length up to the case of hex digits, which are lower-case in it.
  */
  lemma EscapeShortest(c: char, e: string)
    requires ReadChar(e) == Some((c, |e|))
    ensures |EscapeChar(c)| <= |e|
    ensures |EscapeChar(c)| == |e| ==> EscapeChar(c) == e || (|e| == 6 && EscapeChar(c) == Ascii.Lower(e))
    ensures |EscapeChar(c)| == 6 ==> Ascii.Lower(EscapeChar(c)) == EscapeChar(c)
  {
    var f := EscapeChar(c);
    if |f| == 6 {
      DigitsLower(c as int);
      if |e| == 6 {
        EscapeCode(c, e);
      }
    }
  }

  lemma DigitsLower(n: int)
    requires 0 <= n < 32
    ensures Hex.IsLowerDigit(Hex.Digit(n / 16)) && Hex.IsLowerDigit(Hex.Digit(n % 16))
  {
  }

  lemma EscapeCode(c: char, e: string)
    requires |EscapeChar(c)| == 6 == |e| && ReadChar(e) == Some((c, 6))
    ensures EscapeChar(c) == Ascii.Lower(e)
  {
    assert e[0] == '\\' && e[1] == 'u';
    var n := c as int;
    assert Hex.DigitValue(e[2]) == Some(0) && Hex.DigitValue(e[3]) == Some(0);
    assert Hex.DigitValue(e[4]) == Some(n / 16) && Hex.DigitValue(e[5]) == Some(n % 16);
    forall i | 2 <= i < 6
      ensures Hex.Digit(Hex.DigitValue(e[i]).value) == Ascii.LowerChar(e[i])
    {
      Hex.LowerDigit(e[i]);
      Hex.DigitRoundTrip(0, Ascii.LowerChar(e[i]));
    }
  }

  /** Splits a string body, followed by any text, after its first character. */
  lemma EscapeRestForm(s: string, x: string)
    requires s != []
    ensures EscapeRest(s) + x == EscapeChar(s[0]) + (EscapeRest(s[1..]) + x)
  {
    Reassociate(EscapeChar(s[0]), EscapeRest(s[1..]), x);
  }

  /** A quoted string reads as itself, whatever follows. */
  lemma {:induction false} ReadStringBack(s: string, x: string)
    ensures ReadString(EscapeRest(s) + x) == Some((s, x))
  {
    var t := EscapeRest(s) + x;
    if s == [] {
      assert t[1..] == x;
    } else {
      var rest := EscapeRest(s[1..]) + x;
      EscapeRestForm(s, x);
      ReadCharBack(s[0], rest);
      assert t[|EscapeChar(s[0])|..] == rest;
      ReadStringBack(s[1..], x);
      assert t[0] != '"';
      assert s == [s[0]] + s[1..];
    }
  }

  function Opening(v: Value): char {
    match v
    case Array(_) => '['
    case Object(_) => '{'
    case _ => '"'
  }

  function Body(v: Value): string
    requires Plain(v)
  {
    match v
    case String(text) => EscapeRest(text)
    case Array(_) => Items(v, 0)
    case Object(fields) => Members(v, SortedKeys(fields.Keys), true)
  }

  // Each form splits a serialization, followed by any text `x`, at its first token.

  lemma SerializeForm(v: Value, x: string)
    requires Plain(v)
    ensures Serialize(v) + x == [Opening(v)] + (Body(v) + x)
  {
    assert Serialize(v) == [Opening(v)] + Body(v);
  }

  lemma ItemsForm(v: Value, i: nat, x: string)
    requires v.Array? && Plain(v) && i <= |v.items|
    ensures Items(v, i) + x ==
            if i == |v.items| then [']'] + x
            else (if i == 0 then [] else [',']) + (Serialize(v.items[i]) + (Items(v, i + 1) + x))
  {
    if i < |v.items| {
      var comma := if i == 0 then "" else ",";
      assert Items(v, i) == comma + Serialize(v.items[i]) + Items(v, i + 1);
    }
  }

  lemma MembersForm(v: Value, ks: seq<string>, first: bool, x: string)
    requires v.Object? && Plain(v) && forall k :: k in ks ==> k in v.fields
    ensures Members(v, ks, first) + x ==
            if ks == [] then ['}'] + x
            else (if first then "\"" else ",\"")
                 + (EscapeRest(ks[0])
                    + (":" + (Serialize(v.fields[ks[0]]) + (Members(v, ks[1..], false) + x))))
  {
    if ks != [] {
      var comma := if first then "" else ",";
      var a, b, c := EscapeRest(ks[0]), Serialize(v.fields[ks[0]]), Members(v, ks[1..], false);
      assert Members(v, ks, first) == comma + ("\"" + a) + ":" + b + c;
      MemberText(comma, a, b, c, x);
      assert comma + "\"" == if first then "\"" else ",\"";
    }
  }

  lemma MemberText(comma: string, a: string, b: string, c: string, x: string)
    ensures comma + ("\"" + a) + ":" + b + c + x == (comma + "\"") + (a + (":" + (b + (c + x))))
  {
  }

  lemma ReadOpened(v: Value, t: string, x: string)
    requires match v
             case String(s) => ReadString(t) == Some((s, x))
             case Array(items) => ReadItems(t, true) == Some((items, x))
             case Object(fields) => ReadMembers(t, true) == Some((fields, x))
             case _ => false
    ensures ReadValue([Opening(v)] + t) == Some((v, x))
  {
    After(Opening(v), t);
  }

  /** A serialized value reads as itself, whatever follows. */
  lemma {:induction false} ReadBack(v: Value, x: string)
    requires Plain(v)
    ensures ReadValue(Serialize(v) + x) == Some((v, x))
    decreases v, 1, 0
  {
    SerializeForm(v, x);
    match v
    case String(s) =>
      ReadStringBack(s, x);
      ReadOpened(v, EscapeRest(s) + x, x);
    case Array(items) =>
      ReadItemsBack(v, 0, x);
      assert items == items[0..];
      ReadOpened(v, Items(v, 0) + x, x);
    case Object(fields) =>
      var keys := SortedKeys(fields.Keys);
      Lex.AscendingDistinct(KeyUnits, keys);
      ReadMembersBack(v, keys, true, x);
      AllFields(v);
      ReadOpened(v, Members(v, keys, true) + x, x);
  }

  lemma AllFields(v: Value)
    requires v.Object?
    ensures Restricted(v, SortedKeys(v.fields.Keys)) == v.fields
  {
  }

  lemma After(c: char, x: string)
    ensures ([c] + x)[0] == c && ([c] + x)[1..] == x
  {
  }

  /** Where the next element starts. */
  lemma ItemsStart(v: Value, i: nat, x: string)
    requires v.Array? && Plain(v) && i < |v.items|
    ensures var t := Items(v, i) + x;
            && t != [] && t[0] != ']'
            && SkipComma(t, i == 0) == Some(Serialize(v.items[i]) + (Items(v, i + 1) + x))
  {
    var rest := Items(v, i + 1) + x;
    ItemsForm(v, i, x);
    SerializeForm(v.items[i], rest);
    DropComma(Serialize(v.items[i]) + rest);
    assert [] + (Serialize(v.items[i]) + rest) == Serialize(v.items[i]) + rest;
  }

  lemma DropComma(t: string)
    ensures SkipComma([','] + t, false) == Some(t)
  {
    assert ([','] + t)[1..] == t;
  }

  lemma NextItem(t: string, first: bool, v: Value, item: string, rest: string, vs: seq<Value>, x: string)
    requires t != [] && t[0] != ']' && SkipComma(t, first) == Some(item)
    requires ReadValue(item) == Some((v, rest)) && ReadItems(rest, false) == Some((vs, x))
    ensures ReadItems(t, first) == Some(([v] + vs, x))
  {
  }

  lemma ItemBack(v: Value, i: nat, others: seq<Value>, x: string)
    requires v.Array? && Plain(v) && i < |v.items|
    requires var rest := Items(v, i + 1) + x;
             && ReadValue(Serialize(v.items[i]) + rest) == Some((v.items[i], rest))
             && ReadItems(rest, false) == Some((others, x))
    ensures ReadItems(Items(v, i) + x, i == 0) == Some(([v.items[i]] + others, x))
  {
    var item, rest := v.items[i], Items(v, i + 1) + x;
    ItemsStart(v, i, x);
    NextItem(Items(v, i) + x, i == 0, item, Serialize(item) + rest, rest, others, x);
  }

  lemma LastItem(v: Value, x: string)
    requires v.Array? && Plain(v)
    ensures ReadItems(Items(v, |v.items|) + x, |v.items| == 0) == Some(([], x))
  {
    ItemsForm(v, |v.items|, x);
    After(']', x);
  }

  lemma {:induction false} ReadItemsBack(v: Value, i: nat, x: string)
    requires v.Array? && Plain(v) && i <= |v.items|
    ensures ReadItems(Items(v, i) + x, i == 0) == Some((v.items[i..], x))
    decreases v, 0, |v.items| - i
  {
    if i == |v.items| {
      LastItem(v, x);
      assert v.items[i..] == [];
    } else {
      ReadBack(v.items[i], Items(v, i + 1) + x);
      ReadItemsBack(v, i + 1, x);
      ItemBack(v, i, v.items[i + 1..], x);
      SplitAt(v.items, i);
    }
  }

  lemma SplitAt<T>(s: seq<T>, i: nat)
    requires i < |s|
    ensures s[i..] == [s[i]] + s[i + 1..]
  {
  }

  function Restricted(v: Value, keys: seq<string>): map<string, Value>
    requires v.Object? && forall k :: k in keys ==> k in v.fields
  {
    map k | k in keys :: v.fields[k]
  }

  /** Where the next member starts. */
  lemma MembersStart(v: Value, ks: seq<string>, first: bool, x: string)
    requires v.Object? && Plain(v) && ks != [] && forall k :: k in ks ==> k in v.fields
    ensures var t, rest := Members(v, ks, first) + x, Members(v, ks[1..], false) + x;
            && t != [] && t[0] != '}'
            && SkipComma(t, first) ==
               Some("\"" + (EscapeRest(ks[0]) + (":" + (Serialize(v.fields[ks[0]]) + rest))))
  {
    MembersForm(v, ks, first, x);
    NameStart(first, EscapeRest(ks[0]) + (":" + (Serialize(v.fields[ks[0]]) + (Members(v, ks[1..], false) + x))));
  }

  lemma NameStart(first: bool, body: string)
    ensures var t := (if first then "\"" else ",\"") + body;
            t != [] && t[0] != '}' && SkipComma(t, first) == Some("\"" + body)
  {
    if !first {
      assert ",\"" + body == [','] + ("\"" + body);
      DropComma("\"" + body);
    }
  }

  lemma NextMember(t: string, first: bool, k: string, text: string, v: Value, value: string, rest: string,
                   fields: map<string, Value>, x: string)
    requires t != [] && t[0] != '}' && SkipComma(t, first) == Some("\"" + text)
    requires ReadString(text) == Some((k, ":" + value))
    requires ReadValue(value) == Some((v, rest)) && ReadMembers(rest, false) == Some((fields, x)) && k !in fields
    ensures ReadMembers(t, first) == Some((fields[k := v], x))
  {
    assert ("\"" + text)[1..] == text && (":" + value)[1..] == value;
  }

  lemma {:induction false} ReadMembersBack(v: Value, ks: seq<string>, first: bool, x: string)
    requires v.Object? && Plain(v) && (forall k :: k in ks ==> k in v.fields) && Lex.Distinct(ks)
    ensures ReadMembers(Members(v, ks, first) + x, first) == Some((Restricted(v, ks), x))
    decreases v, 0, |ks|
  {
    if ks == [] {
      MembersForm(v, ks, first, x);
      After('}', x);
    } else {
      var rest := Members(v, ks[1..], false) + x;
      var value := Serialize(v.fields[ks[0]]) + rest;
      MembersStart(v, ks, first, x);
      ReadStringBack(ks[0], ":" + value);
      ReadBack(v.fields[ks[0]], rest);
      ReadMembersBack(v, ks[1..], false, x);
      NextMember(Members(v, ks, first) + x, first, ks[0], EscapeRest(ks[0]) + (":" + value),
                 v.fields[ks[0]], value, rest, Restricted(v, ks[1..]), x);
      RestrictedCons(v, ks);
    }
  }

  lemma RestrictedCons(v: Value, ks: seq<string>)
    requires v.Object? && ks != [] && forall k :: k in ks ==> k in v.fields
    ensures Restricted(v, ks) == Restricted(v, ks[1..])[ks[0] := v.fields[ks[0]]]
  {
    assert ks == [ks[0]] + ks[1..];
  }

  /** A serialized value can be told apart from any text after it. */
  lemma SerializePrefixFree(v: Value, x: string, w: Value, y: string)
    requires Plain(v) && Plain(w)
    requires Serialize(v) + x == Serialize(w) + y
    ensures v == w && x == y
  {
    ReadBack(v, x);
    ReadBack(w, y);
  }

  /** The bytes that are hashed: the canonical form in UTF-8. */
  function CanonicalBytes(v: Value): Words.Bytes
    requires Plain(v)
  {
    Utf8.Encode(Serialize(v))
  }

  /** Equal canonical bytes mean equal values. */
  lemma CanonicalInjective(v: Value, w: Value)
    requires Plain(v) && Plain(w)
    ensures CanonicalBytes(v) == CanonicalBytes(w) <==> v == w
  {
    if CanonicalBytes(v) == CanonicalBytes(w) {
      Utf8.EncodeInjective(Serialize(v), Serialize(w));
      SerializePrefixFree(v, "", w, "");
    }
  }
}
