/** The request hash and what it commits to (src/x402/binding.rs). */
module RequestHash {
  import opened Wrappers
  import opened Words
  import opened Json
  import opened Binding
  import Hex
  import Lex
  import Utf8

  const DOMAIN := "x402:exact:lnbtc:bolt11:" + HTTP_PROFILE

  /** A bound header and the bytes hashed for its value. */
  datatype BoundHeader = BoundHeader(name: string, input: Bytes)

  /** Everything about a request that its hash depends on. */
  datatype Commitment = Commitment(verb: string, url: string, body: Bytes, headers: seq<BoundHeader>)

  /** The bound headers in list order; fails if one has an unreadable value. */
  function BindHeaders(bound: seq<string>, headers: HeaderMap): (r: Option<seq<BoundHeader>>)
    ensures r.Some? ==> |r.value| == |bound|
  {
    if bound == [] then Some([])
    else
      match (HeaderInput(Lines(headers, bound[0])), BindHeaders(bound[1..], headers))
      case (Some(input), Some(rest)) => Some([BoundHeader(bound[0], input)] + rest)
      case _ => None
  }

  /** One entry per bound name, in list order, with that header's own input. */
  lemma {:induction false} BindHeadersMeaning(bound: seq<string>, headers: HeaderMap, hs: seq<BoundHeader>)
    ensures BindHeaders(bound, headers) == Some(hs) <==>
            && |hs| == |bound|
            && forall i :: 0 <= i < |bound| ==>
                 hs[i].name == bound[i] && HeaderInput(Lines(headers, bound[i])) == Some(hs[i].input)
  {
    if bound != [] && hs != [] {
      BindHeadersMeaning(bound[1..], headers, hs[1..]);
      assert hs == [hs[0]] + hs[1..];
      assert forall i :: 0 < i < |bound| ==> bound[i] == bound[1..][i - 1];
      assert forall i :: 0 < i < |hs| ==> hs[i] == hs[1..][i - 1];
      if BindHeaders(bound, headers) == Some(hs) {
        assert hs[1..] == BindHeaders(bound[1..], headers).value;
      }
    }
  }

  function Commit(verb: string, url: string, body: Bytes, bound: seq<string>, headers: HeaderMap): Option<Commitment> {
    match BindHeaders(bound, headers)
    case Some(pairs) => Some(Commitment(verb, url, body, pairs))
    case None => None
  }

  function HeaderValue(sha256: Bytes -> Hash32, h: BoundHeader): (v: Value)
    ensures Plain(v)
  {
    Object(map["name" := String(h.name), "valueHash" := String(Hex.Encode(sha256(h.input)))])
  }

  function HeaderValues(sha256: Bytes -> Hash32, hs: seq<BoundHeader>): (vs: seq<Value>)
    ensures |vs| == |hs| && forall i :: 0 <= i < |hs| ==> vs[i] == HeaderValue(sha256, hs[i])
    ensures Plain(Array(vs))
  {
    seq(|hs|, i requires 0 <= i < |hs| => HeaderValue(sha256, hs[i]))
  }

  /** The JSON document that is hashed. */
  function Document(sha256: Bytes -> Hash32, c: Commitment): (v: Value)
    ensures Plain(v)
  {
    Object(map[
      "domain" := String(DOMAIN),
      "method" := String(c.verb),
      "url" := String(c.url),
      "bodyHash" := String(Hex.Encode(sha256(c.body))),
      "headers" := Array(HeaderValues(sha256, c.headers))
    ])
  }

  function HashOf(sha256: Bytes -> Hash32, c: Commitment): Hash32 {
    sha256(CanonicalBytes(Document(sha256, c)))
  }

  /** `http_request_hash`. */
  function HttpRequestHash(sha256: Bytes -> Hash32, verb: string, url: string, body: Bytes,
                           bound: seq<string>, headers: HeaderMap): Option<Hash32> {
    match Commit(verb, url, body, bound, headers)
    case Some(c) => Some(HashOf(sha256, c))
    case None => None
  }

  // ----- Member order

  lemma InitialsOrder(a: string, b: string)
    requires a != [] && b != [] && a[0] < b[0] < 0x80 as char
    ensures Lex.Less(KeyUnits(a), KeyUnits(b))
  {
    assert KeyUnits(a)[0] == a[0] as int && KeyUnits(b)[0] == b[0] as int;
  }

  /** RFC 8785 section 3.2.3 sorts the document's members like this. */
  lemma DocumentMemberOrder(sha256: Bytes -> Hash32, c: Commitment)
    ensures SortedKeys(Document(sha256, c).fields.Keys) == ["bodyHash", "domain", "headers", "method", "url"]
  {
    var keys := ["bodyHash", "domain", "headers", "method", "url"];
    var initials := "bdhmu";
    forall i, j | 0 <= i < j < 5
      ensures Lex.Less(KeyUnits(keys[i]), KeyUnits(keys[j]))
    {
      assert keys[i][0] == initials[i] && keys[j][0] == initials[j];
      InitialsOrder(keys[i], keys[j]);
    }
    var sorted := SortedKeys(Document(sha256, c).fields.Keys);
    assert Lex.Ascending(KeyUnits, sorted) && Lex.Ascending(KeyUnits, keys);
    Lex.AscendingUnique(KeyUnits, sorted, keys);
  }

  /** Text without quotes, backslashes and control characters is written as it is. */
  lemma {:induction false} PlainText(s: string)
    requires forall i :: 0 <= i < |s| ==> s[i] != '"' && s[i] != '\\' && s[i] >= ' '
    ensures EscapeRest(s) == s + "\""
  {
    if s != [] {
      PlainText(s[1..]);
      assert s == [s[0]] + s[1..];
    }
  }

  /** One member of an object as text: a name that needs no escapes, and a serialized value. */
  function Member(name: string, value: string): string {
    "\"" + name + "\":" + value
  }

  predicate IsWord(s: string) {
    forall i :: 0 <= i < |s| ==> 'a' <= s[i] <= 'z' || 'A' <= s[i] <= 'Z'
  }

  lemma MemberText(v: Value, keys: seq<string>, first: bool)
    requires v.Object? && Plain(v) && keys != [] && IsWord(keys[0]) && forall k :: k in keys ==> k in v.fields
    ensures Members(v, keys, first) ==
            (if first then "" else ",") + Member(keys[0], Serialize(v.fields[keys[0]])) + Members(v, keys[1..], false)
  {
    MemberForm(keys[0], Serialize(v.fields[keys[0]]));
    Joined(if first then "" else ",", Quote(keys[0]), ":", Serialize(v.fields[keys[0]]), Members(v, keys[1..], false));
  }

  lemma MemberForm(name: string, value: string)
    requires IsWord(name)
    ensures Quote(name) + ":" + value == Member(name, value)
  {
    PlainText(name);
  }

  lemma Joined(comma: string, name: string, colon: string, value: string, rest: string)
    ensures comma + name + colon + value + rest == comma + (name + colon + value) + rest
  {
  }

  /** Named texts, each after the first behind a comma, up to the closing brace. */
  function MembersText(members: seq<(string, string)>, first: bool): string {
    if members == [] then "}"
    else (if first then "" else ",") + Member(members[0].0, members[0].1) + MembersText(members[1..], false)
  }

  ghost predicate Spells(v: Value, keys: seq<string>, members: seq<(string, string)>)
    requires Plain(v)
  {
    && v.Object? && |members| == |keys|
    && forall i :: 0 <= i < |keys| ==>
         IsWord(keys[i]) && keys[i] in v.fields && members[i] == (keys[i], Serialize(v.fields[keys[i]]))
  }

  lemma {:induction false} MembersSpelled(v: Value, keys: seq<string>, members: seq<(string, string)>, first: bool)
    requires Plain(v) && Spells(v, keys, members)
    ensures Members(v, keys, first) == MembersText(members, first)
  {
    if keys != [] {
      MemberText(v, keys, first);
      MembersSpelled(v, keys[1..], members[1..], false);
    }
  }

  /** What a request's document says, name by name. */
  function DocumentMembers(sha256: Bytes -> Hash32, c: Commitment): seq<(string, string)> {
    [
      ("bodyHash", Quote(Hex.Encode(sha256(c.body)))),
      ("domain", Quote(DOMAIN)),
      ("headers", Serialize(Array(HeaderValues(sha256, c.headers)))),
      ("method", Quote(c.verb)),
      ("url", Quote(c.url))
    ]
  }

  lemma StringText(s: string)
    ensures Plain(String(s)) && Serialize(String(s)) == Quote(s)
  {
  }

  lemma DocumentFields(sha256: Bytes -> Hash32, c: Commitment)
    ensures var fields := Document(sha256, c).fields;
            && fields.Keys == {"bodyHash", "domain", "headers", "method", "url"}
            && fields["bodyHash"] == String(Hex.Encode(sha256(c.body)))
            && fields["domain"] == String(DOMAIN)
            && fields["headers"] == Array(HeaderValues(sha256, c.headers))
            && fields["method"] == String(c.verb)
            && fields["url"] == String(c.url)
  {
  }

  lemma DocumentSpelled(sha256: Bytes -> Hash32, c: Commitment)
    ensures Spells(Document(sha256, c), ["bodyHash", "domain", "headers", "method", "url"], DocumentMembers(sha256, c))
  {
    DocumentFields(sha256, c);
    StringText(Hex.Encode(sha256(c.body)));
    StringText(DOMAIN);
    StringText(c.verb);
    StringText(c.url);
  }

  lemma DocumentListed(sha256: Bytes -> Hash32, c: Commitment)
    ensures Serialize(Document(sha256, c)) == "{" + MembersText(DocumentMembers(sha256, c), true)
  {
    DocumentMemberOrder(sha256, c);
    DocumentSpelled(sha256, c);
    var v := Document(sha256, c);
    MembersSpelled(v, SortedKeys(v.fields.Keys), DocumentMembers(sha256, c), true);
  }

  // ----- The text in full

  /** A string that needs no escapes, in quotes. */
  function Quoted(s: string): string {
    "\"" + s + "\""
  }

  function EntryText(sha256: Bytes -> Hash32, h: BoundHeader): string {
    "{\"name\":" + Quote(h.name) + ",\"valueHash\":" + Quoted(Hex.Encode(sha256(h.input))) + "}"
  }

  /** The entries of the bound headers, with commas between them. */
  function EntriesText(sha256: Bytes -> Hash32, hs: seq<BoundHeader>): string {
    Commas(seq(|hs|, i requires 0 <= i < |hs| => EntryText(sha256, hs[i])), 0)
  }

  lemma HexText(b: Bytes)
    ensures Quote(Hex.Encode(b)) == Quoted(Hex.Encode(b))
  {
    var s := Hex.Encode(b);
    Hex.EncodeForm(b);
    forall i | 0 <= i < |s|
      ensures s[i] != '"' && s[i] != '\\' && s[i] >= ' '
    {
      assert Hex.IsLowerDigit(s[i]);
    }
    PlainText(s);
  }

  lemma AddMember(start: string, name: string, value: string, rest: string)
    ensures start + ("," + Member(name, value) + rest) == start + (",\"" + name + "\":") + value + rest
  {
  }

  lemma TwoMembers(a: string, b: string)
    ensures "{" + MembersText([("name", a), ("valueHash", b)], true) == "{\"name\":" + a + ",\"valueHash\":" + b + "}"
  {
    assert [("name", a), ("valueHash", b)][1..] == [("valueHash", b)];
    assert MembersText([("valueHash", b)], false) == "," + Member("valueHash", b) + "}";
    AddMember("{\"name\":" + a, "valueHash", b, "}");
    assert ",\"" + "valueHash" + "\":" == ",\"valueHash\":";
    FirstMember("name", a, "," + Member("valueHash", b) + "}");
    assert "{\"" + "name" + "\":" == "{\"name\":";
  }

  lemma FirstMember(name: string, value: string, rest: string)
    ensures "{" + ("" + Member(name, value) + rest) == ("{\"" + name + "\":") + value + rest
  {
  }

  lemma EntryOrder(sha256: Bytes -> Hash32, h: BoundHeader)
    ensures SortedKeys(HeaderValue(sha256, h).fields.Keys) == ["name", "valueHash"]
  {
    InitialsOrder("name", "valueHash");
    Lex.AscendingUnique(KeyUnits, SortedKeys(HeaderValue(sha256, h).fields.Keys), ["name", "valueHash"]);
  }

  lemma EntrySpelled(sha256: Bytes -> Hash32, h: BoundHeader)
    ensures Spells(HeaderValue(sha256, h), ["name", "valueHash"],
                   [("name", Quote(h.name)), ("valueHash", Quote(Hex.Encode(sha256(h.input))))])
  {
    StringText(h.name);
    StringText(Hex.Encode(sha256(h.input)));
  }

  lemma EntryListed(sha256: Bytes -> Hash32, h: BoundHeader)
    ensures Serialize(HeaderValue(sha256, h)) ==
            "{" + MembersText([("name", Quote(h.name)), ("valueHash", Quote(Hex.Encode(sha256(h.input))))], true)
  {
    var v := HeaderValue(sha256, h);
    EntryOrder(sha256, h);
    EntrySpelled(sha256, h);
    MembersSpelled(v, SortedKeys(v.fields.Keys),
                   [("name", Quote(h.name)), ("valueHash", Quote(Hex.Encode(sha256(h.input))))], true);
  }

  lemma EntryWritten(sha256: Bytes -> Hash32, h: BoundHeader)
    ensures Serialize(HeaderValue(sha256, h)) == EntryText(sha256, h)
  {
    EntryListed(sha256, h);
    TwoMembers(Quote(h.name), Quote(Hex.Encode(sha256(h.input))));
    HexText(sha256(h.input));
  }

  lemma HeadersWritten(sha256: Bytes -> Hash32, hs: seq<BoundHeader>)
    ensures Serialize(Array(HeaderValues(sha256, hs))) == "[" + EntriesText(sha256, hs) + "]"
  {
    var texts := seq(|hs|, i requires 0 <= i < |hs| => EntryText(sha256, hs[i]));
    forall i | 0 <= i < |hs|
      ensures Serialize(HeaderValues(sha256, hs)[i]) == texts[i]
    {
      EntryWritten(sha256, hs[i]);
    }
    ArrayText(Array(HeaderValues(sha256, hs)), texts);
  }

  lemma FiveMembers(a: string, b: string, c: string, d: string, e: string)
    ensures "{" + MembersText([("bodyHash", a), ("domain", b), ("headers", c), ("method", d), ("url", e)], true) ==
            "{\"bodyHash\":" + a + ",\"domain\":" + b + ",\"headers\":" + c + ",\"method\":" + d + ",\"url\":" + e + "}"
  {
    var last := "," + Member("url", e) + "}";
    var method_ := "," + Member("method", d) + last;
    var headers := "," + Member("headers", c) + method_;
    var domain := "," + Member("domain", b) + headers;
    FiveMembersText(a, b, c, d, e);
    FirstMember("bodyHash", a, domain);
    assert "{\"" + "bodyHash" + "\":" == "{\"bodyHash\":";
    var t := "{\"bodyHash\":" + a;
    AddMember(t, "domain", b, headers);
    assert ",\"" + "domain" + "\":" == ",\"domain\":";
    t := t + ",\"domain\":" + b;
    AddMember(t, "headers", c, method_);
    assert ",\"" + "headers" + "\":" == ",\"headers\":";
    t := t + ",\"headers\":" + c;
    AddMember(t, "method", d, last);
    assert ",\"" + "method" + "\":" == ",\"method\":";
    t := t + ",\"method\":" + d;
    AddMember(t, "url", e, "}");
    assert ",\"" + "url" + "\":" == ",\"url\":";
  }

  lemma MembersCons(m: seq<(string, string)>, i: nat)
    requires i < |m|
    ensures MembersText(m[i..], false) == "," + Member(m[i].0, m[i].1) + MembersText(m[i + 1..], false)
  {
    assert m[i..][1..] == m[i + 1..];
  }

  lemma FiveMembersText(a: string, b: string, c: string, d: string, e: string)
    ensures MembersText([("bodyHash", a), ("domain", b), ("headers", c), ("method", d), ("url", e)], true) ==
            "" + Member("bodyHash", a) + ("," + Member("domain", b) + ("," + Member("headers", c)
            + ("," + Member("method", d) + ("," + Member("url", e) + "}"))))
  {
    var m := [("bodyHash", a), ("domain", b), ("headers", c), ("method", d), ("url", e)];
    assert MembersText(m[5..], false) == "}";
    MembersCons(m, 4);
    MembersCons(m, 3);
    MembersCons(m, 2);
    MembersCons(m, 1);
  }

  /** The exact text that is hashed, character by character. */
  lemma DocumentText(sha256: Bytes -> Hash32, c: Commitment)
    ensures Serialize(Document(sha256, c)) ==
            "{\"bodyHash\":" + Quoted(Hex.Encode(sha256(c.body)))
            + ",\"domain\":" + Quoted("x402:exact:lnbtc:bolt11:http:1")
            + ",\"headers\":" + ("[" + EntriesText(sha256, c.headers) + "]")
            + ",\"method\":" + Quote(c.verb)
            + ",\"url\":" + Quote(c.url) + "}"
    ensures HashOf(sha256, c) == sha256(Utf8.Encode(Serialize(Document(sha256, c))))
  {
    DocumentListed(sha256, c);
    HeadersWritten(sha256, c.headers);
    HexText(sha256(c.body));
    DomainText();
    FiveMembers(Quote(Hex.Encode(sha256(c.body))), Quote(DOMAIN), Serialize(Array(HeaderValues(sha256, c.headers))),
                Quote(c.verb), Quote(c.url));
  }

  lemma DomainText()
    ensures Quote(DOMAIN) == Quoted("x402:exact:lnbtc:bolt11:http:1")
  {
    DomainPlain();
    PlainText(DOMAIN);
    assert DOMAIN == "x402:exact:lnbtc:bolt11:http:1";
    Reassociate("\"", DOMAIN, "\"");
  }

  lemma DomainPlain()
    ensures forall i :: 0 <= i < |DOMAIN| ==> '0' <= DOMAIN[i] <= ':' || 'a' <= DOMAIN[i] <= 'z'
  {
  }

  lemma NamesText(names: seq<string>)
    ensures Serialize(Array(Texts(names))) ==
            "[" + Commas(seq(|names|, i requires 0 <= i < |names| => Quote(names[i])), 0) + "]"
  {
    ArrayText(Array(Texts(names)), seq(|names|, i requires 0 <= i < |names| => Quote(names[i])));
  }

  lemma OneMember(v: Value, key: string)
    requires v.Object? && Plain(v) && v.fields.Keys == {key} && IsWord(key)
    ensures Serialize(v) == "{" + (Member(key, Serialize(v.fields[key])) + "}")
  {
    Lex.AscendingUnique(KeyUnits, SortedKeys(v.fields.Keys), [key]);
    MemberText(v, [key], true);
    assert [key][1..] == [];
  }

  lemma HeadersMember(value: string)
    ensures Member("headers", value) == "\"headers\":" + value
  {
    assert "\"" + "headers" + "\":" == "\"headers\":";
  }

  /** The canonical text of binding parameters. */
  lemma ParamsText(names: seq<string>)
    ensures Plain(HttpParams(names))
    ensures Serialize(HttpParams(names)) ==
            "{" + ("\"headers\":"
                   + ("[" + Commas(seq(|names|, i requires 0 <= i < |names| => Quote(names[i])), 0) + "]") + "}")
  {
    NamesText(names);
    OneMember(HttpParams(names), "headers");
    HeadersMember(Serialize(Array(Texts(names))));
  }

  // ----- What equal hashes mean

  /** The byte strings hashed on the way to a request hash. */
  ghost function HashInputs(sha256: Bytes -> Hash32, c: Commitment): set<Bytes> {
    {CanonicalBytes(Document(sha256, c)), c.body} + (set h | h in c.headers :: h.input)
  }

  lemma HeaderValuesInjective(sha256: Bytes -> Hash32, a: seq<BoundHeader>, b: seq<BoundHeader>)
    requires HeaderValues(sha256, a) == HeaderValues(sha256, b)
    ensures |a| == |b|
    ensures forall i :: 0 <= i < |a| ==> a[i].name == b[i].name && sha256(a[i].input) == sha256(b[i].input)
  {
    var vs, ws := HeaderValues(sha256, a), HeaderValues(sha256, b);
    forall i | 0 <= i < |a|
      ensures a[i].name == b[i].name && sha256(a[i].input) == sha256(b[i].input)
    {
      assert vs[i] == ws[i];
      assert vs[i].fields["name"] == ws[i].fields["name"];
      assert vs[i].fields["valueHash"] == ws[i].fields["valueHash"];
      Hex.EncodeInjective(sha256(a[i].input), sha256(b[i].input));
    }
  }

  /** The canonical bytes determine every component up to its hash. */
  lemma DocumentInjective(sha256: Bytes -> Hash32, c: Commitment, d: Commitment)
    requires CanonicalBytes(Document(sha256, c)) == CanonicalBytes(Document(sha256, d))
    ensures c.verb == d.verb && c.url == d.url && sha256(c.body) == sha256(d.body)
    ensures |c.headers| == |d.headers|
    ensures forall i :: 0 <= i < |c.headers| ==>
              && c.headers[i].name == d.headers[i].name
              && sha256(c.headers[i].input) == sha256(d.headers[i].input)
  {
    var v, w := Document(sha256, c), Document(sha256, d);
    CanonicalInjective(v, w);
    assert v.fields["method"] == w.fields["method"] && v.fields["url"] == w.fields["url"];
    assert v.fields["bodyHash"] == w.fields["bodyHash"];
    Hex.EncodeInjective(sha256(c.body), sha256(d.body));
    assert v.fields["headers"] == w.fields["headers"];
    HeaderValuesInjective(sha256, c.headers, d.headers);
  }

  /** Without a hash collision among the inputs used, equal request hashes mean equal commitments. */
  lemma HashBinds(sha256: Bytes -> Hash32, c: Commitment, d: Commitment)
    requires InjectiveOn(sha256, HashInputs(sha256, c) + HashInputs(sha256, d))
    requires HashOf(sha256, c) == HashOf(sha256, d)
    ensures c == d
  {
    DocumentInjective(sha256, c, d);
    forall i | 0 <= i < |c.headers|
      ensures c.headers[i] == d.headers[i]
    {
      assert c.headers[i] in c.headers && d.headers[i] in d.headers;
    }
  }

  /**
    Equal commitments under one list of bound headers: every bound header is
    absent from both requests or present in both with one combined value.
  */
  lemma {:induction false} EqualHeaders(bound: seq<string>, headers: HeaderMap, others: HeaderMap)
    requires BindHeaders(bound, headers).Some?
    ensures BindHeaders(bound, headers) == BindHeaders(bound, others) <==>
            forall name :: name in bound ==>
              && (Lines(headers, name) == [] <==> Lines(others, name) == [])
              && AllReadable(Lines(others, name))
              && Combined(Lines(headers, name)) == Combined(Lines(others, name))
  {
    if bound != [] {
      var rest := bound[1..];
      EqualHeaders(rest, headers, others);
      EqualInputs(Lines(headers, bound[0]), Lines(others, bound[0]));
      assert forall name :: name in bound <==> name == bound[0] || name in rest;
      if BindHeaders(bound, others).Some? {
        var a, b := BindHeaders(bound, headers).value, BindHeaders(bound, others).value;
        assert a[1..] == BindHeaders(rest, headers).value && b[1..] == BindHeaders(rest, others).value;
        assert a[0] == b[0] && a[1..] == b[1..] <==> a == b by {
          assert a == [a[0]] + a[1..] && b == [b[0]] + b[1..];
        }
      }
    }
  }

  /** An absent header never hashes the bytes of a present one. */
  lemma EqualInputs(lines: seq<Bytes>, others: seq<Bytes>)
    requires HeaderInput(lines).Some?
    ensures HeaderInput(lines) == HeaderInput(others) <==>
            && (lines == [] <==> others == [])
            && AllReadable(others)
            && Combined(lines) == Combined(others)
  {
    var x, y := Combined(lines), Combined(others);
    assert x == ([1] + x)[1..] && y == ([1] + y)[1..];
    assert lines != [] && others == [] ==> ([1] + x)[0] == 1;
    assert lines == [] && others != [] ==> ([1] + y)[0] == 1;
  }

  /**
    Two requests hashed under one list of bound headers, without a collision
    among the inputs used: the hashes agree exactly when method, URL, body and
    every bound header do.
  */
  lemma EqualHashes(sha256: Bytes -> Hash32, bound: seq<string>,
                    verb: string, url: string, body: Bytes, headers: HeaderMap,
                    verb': string, url': string, body': Bytes, headers': HeaderMap)
    requires BindHeaders(bound, headers).Some? && BindHeaders(bound, headers').Some?
    requires InjectiveOn(sha256, HashInputs(sha256, Commit(verb, url, body, bound, headers).value)
                                 + HashInputs(sha256, Commit(verb', url', body', bound, headers').value))
    ensures HttpRequestHash(sha256, verb, url, body, bound, headers)
            == HttpRequestHash(sha256, verb', url', body', bound, headers')
            <==>
            && verb == verb' && url == url' && body == body'
            && forall name :: name in bound ==>
                 && (Lines(headers, name) == [] <==> Lines(headers', name) == [])
                 && Combined(Lines(headers, name)) == Combined(Lines(headers', name))
  {
    var c, d := Commit(verb, url, body, bound, headers).value, Commit(verb', url', body', bound, headers').value;
    if HashOf(sha256, c) == HashOf(sha256, d) {
      HashBinds(sha256, c, d);
    }
    EqualHeaders(bound, headers, headers');
    BoundReadable(bound, headers');
  }

  lemma {:induction false} BoundReadable(bound: seq<string>, headers: HeaderMap)
    requires BindHeaders(bound, headers).Some?
    ensures forall name :: name in bound ==> AllReadable(Lines(headers, name))
  {
    if bound != [] {
      BoundReadable(bound[1..], headers);
      assert forall name :: name in bound <==> name == bound[0] || name in bound[1..];
    }
  }
}
