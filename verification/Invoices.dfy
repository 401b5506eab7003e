/** Reading BOLT11 invoices (src/x402/lnbtc.rs, `Invoice::decode`). */
module Invoices {
  import opened Wrappers
  import opened Words

  /** The reasons a payment or an invoice is refused. */
  datatype ErrorReason =
    | UnsupportedScheme | NetworkMismatch | AssetMismatch | AmountMismatch | PayToMismatch
    | MaxTimeoutMismatch | RequestBinding | RequestMismatch | AssetTransferMethod | PaymentFlow
    | InvoiceMissing | InvoiceDecodeFailed | InvoiceDescription | InvoiceRequestMismatch
    | InvoicePayeeMismatch | InvoiceCurrencyMismatch | InvoiceAmountMismatch
    | InvoiceExpiryMismatch | InvoiceCreatedInFuture | DuplicateSettlement | PreimageMissing
    | PreimageMalformed | PreimageLength | PreimageHashMismatch | InvoiceExpired

  datatype Currency = Bitcoin | BitcoinTestnet | Regtest | Simnet | Signet

  datatype Field =
    | PaymentHash(hash: Hash32)
    | Description(text: string)
    | DescriptionHash(hash: Hash32)
    | PayeePubKey(key: PublicKey)
    | ExpiryTime(secs: U64)
    | Other(tag: int)

  /**
    What the BOLT11 parser hands over: the known tagged fields in order, the
    amount (present or not, and in pico-BTC when that fits), the verdict on
    the signature and the key recovered from it.
  */
  datatype RawInvoice = RawInvoice(
    currency: Currency,
    signatureValid: bool,
    hasAmount: bool,
    picoBtc: Option<U64>,
    timestamp: U64,
    fields: seq<Field>,
    recoveredKey: Option<PublicKey>)

  datatype Invoice = Invoice(
    currency: Currency,
    amountMsat: Option<U64>,
    paymentHash: Hash32,
    descriptionHash: Option<Hash32>,
    payee: PublicKey,
    created: U64,
    expiry: U64)

  const DEFAULT_INVOICE_EXPIRY_SECS: U64 := 3600

  // ----- Specification

  /** What `pick` finds in the fields, in order. */
  function Select<T>(pick: Field -> Option<T>, fields: seq<Field>): seq<T> {
    if fields == [] then []
    else
      var found := Select(pick, fields[..|fields| - 1]);
      match pick(fields[|fields| - 1])
      case Some(x) => found + [x]
      case None => found
  }

  function PaymentHashOf(f: Field): Option<Hash32> {
    if f.PaymentHash? then Some(f.hash) else None
  }

  function DescriptionHashOf(f: Field): Option<Hash32> {
    if f.DescriptionHash? then Some(f.hash) else None
  }

  function DescriptionOf(f: Field): Option<string> {
    if f.Description? then Some(f.text) else None
  }

  /** The parser's accessors answer with the first field of a kind. */
  function First<T>(pick: Field -> Option<T>, fields: seq<Field>): Option<T> {
    if fields == [] then None
    else if pick(fields[0]).Some? then pick(fields[0])
    else First(pick, fields[1..])
  }

  function PayeeOf(f: Field): Option<PublicKey> {
    if f.PayeePubKey? then Some(f.key) else None
  }

  function ExpiryOf(f: Field): Option<U64> {
    if f.ExpiryTime? then Some(f.secs) else None
  }

  function OnlyPaymentHash(fields: seq<Field>): Option<Hash32> {
    var hashes := Select(PaymentHashOf, fields);
    if |hashes| == 1 then Some(hashes[0]) else None
  }

  function CommittedHash(fields: seq<Field>): Option<Hash32> {
    var hashes := Select(DescriptionHashOf, fields);
    if |hashes| == 1 && Select(DescriptionOf, fields) == [] then Some(hashes[0]) else None
  }

  /** Integral millisatoshis are whole multiples of 10 pico-BTC. */
  function AmountMsat(raw: RawInvoice): Result<Option<U64>, ErrorReason> {
    if !raw.hasAmount then Ok(None)
    else if raw.picoBtc.Some? && raw.picoBtc.value % 10 == 0 then Ok(Some(raw.picoBtc.value / 10))
    else Err(InvoiceDecodeFailed)
  }

  function Payee(raw: RawInvoice): Option<PublicKey> {
    if First(PayeeOf, raw.fields).Some? then First(PayeeOf, raw.fields) else raw.recoveredKey
  }

  function Expiry(raw: RawInvoice): U64 {
    match First<U64>(ExpiryOf, raw.fields)
    case Some(secs) => secs
    case None => DEFAULT_INVOICE_EXPIRY_SECS
  }

  function Decode(parse: string -> Option<RawInvoice>, text: string): Result<Invoice, ErrorReason> {
    match parse(text)
    case None => Err(InvoiceDecodeFailed)
    case Some(raw) =>
      match (raw.signatureValid, OnlyPaymentHash(raw.fields), AmountMsat(raw), Payee(raw))
      case (true, Some(hash), Ok(amount), Some(payee)) =>
        Ok(Invoice(
             raw.currency, amount, hash, CommittedHash(raw.fields), payee, raw.timestamp, Expiry(raw)))
      case _ => Err(InvoiceDecodeFailed)
  }

  // ----- The decoding loop

  method DecodeInvoice(parse: string -> Option<RawInvoice>, text: string)
    returns (r: Result<Invoice, ErrorReason>)
    ensures r == Decode(parse, text)
  {
    var parsed := parse(text);
    if parsed.None? {
      return Err(InvoiceDecodeFailed);
    }
    var raw := parsed.value;
    if !raw.signatureValid {
      return Err(InvoiceDecodeFailed);
    }

    var paymentHashes: seq<Hash32> := [];
    var inlineDescriptions := 0;
    var descriptionHashes: seq<Hash32> := [];
    for i := 0 to |raw.fields|
      invariant paymentHashes == Select(PaymentHashOf, raw.fields[..i])
      invariant inlineDescriptions == |Select(DescriptionOf, raw.fields[..i])|
      invariant descriptionHashes == Select(DescriptionHashOf, raw.fields[..i])
    {
      assert raw.fields[..i + 1][..i] == raw.fields[..i];
      match raw.fields[i]
      case PaymentHash(hash) => paymentHashes := paymentHashes + [hash];
      case Description(_) => inlineDescriptions := inlineDescriptions + 1;
      case DescriptionHash(hash) => descriptionHashes := descriptionHashes + [hash];
      case _ =>
    }
    assert raw.fields[..|raw.fields|] == raw.fields;

    if |paymentHashes| != 1 {
      return Err(InvoiceDecodeFailed);
    }
    var descriptionHash :=
      if |descriptionHashes| == 1 && inlineDescriptions == 0 then Some(descriptionHashes[0]) else None;

    var amountMsat: Option<U64> := None;
    if raw.hasAmount {
      if raw.picoBtc.None? || raw.picoBtc.value % 10 != 0 {
        return Err(InvoiceDecodeFailed);
      }
      amountMsat := Some(raw.picoBtc.value / 10);
    }

    var payee := First(PayeeOf, raw.fields);
    if payee.None? {
      if raw.recoveredKey.None? {
        return Err(InvoiceDecodeFailed);
      }
      payee := raw.recoveredKey;
    }

    var expiry := First<U64>(ExpiryOf, raw.fields);
    return Ok(Invoice(raw.currency, amountMsat, paymentHashes[0], descriptionHash, payee.value, raw.timestamp,
                      if expiry.Some? then expiry.value else DEFAULT_INVOICE_EXPIRY_SECS));
  }

  // ----- What the loop finds

  lemma {:induction false} SelectAppend<T>(pick: Field -> Option<T>, a: seq<Field>, b: seq<Field>)
    ensures Select(pick, a + b) == Select(pick, a) + Select(pick, b)
  {
    if b == [] {
      assert a + b == a;
    } else {
      assert (a + b)[..|a + b| - 1] == a + b[..|b| - 1];
      SelectAppend(pick, a, b[..|b| - 1]);
    }
  }

  /** The last field of `a` sits somewhere in a permutation of it; the others are permuted around it. */
  lemma PermutationSplit(a: seq<Field>, b: seq<Field>) returns (p: seq<Field>, q: seq<Field>)
    requires a != [] && multiset(a) == multiset(b)
    ensures b == p + [a[|a| - 1]] + q
    ensures multiset(a[..|a| - 1]) == multiset(p + q)
  {
    var init, last := a[..|a| - 1], a[|a| - 1];
    assert a == init + [last];
    assert last in multiset(b);
    var k :| 0 <= k < |b| && b[k] == last;
    p, q := b[..k], b[k + 1..];
    assert b == p + [last] + q;
    assert multiset(p + q) == multiset(b) - multiset{last};
    assert multiset(init) == multiset(a) - multiset{last};
  }

  lemma SelectAround<T>(pick: Field -> Option<T>, p: seq<Field>, f: Field, q: seq<Field>)
    ensures multiset(Select(pick, p + [f] + q)) == multiset(Select(pick, p + q)) + multiset(Select(pick, [f]))
  {
    SelectAppend(pick, p + [f], q);
    SelectAppend(pick, p, [f]);
    SelectAppend(pick, p, q);
  }

  lemma {:induction false} SelectPermutation<T>(pick: Field -> Option<T>, a: seq<Field>, b: seq<Field>)
    requires multiset(a) == multiset(b)
    ensures multiset(Select(pick, a)) == multiset(Select(pick, b))
  {
    if a == [] {
      assert |multiset(b)| == 0;
    } else {
      var init, last := a[..|a| - 1], a[|a| - 1];
      var p, q := PermutationSplit(a, b);
      SelectPermutation(pick, init, p + q);
      SelectAround(pick, p, last, q);
      SelectAppend(pick, init, [last]);
      assert a == init + [last];
    }
  }

  lemma SameSingleton<T>(a: seq<T>, b: seq<T>)
    requires multiset(a) == multiset(b)
    ensures |a| == |b| && (|a| == 1 ==> a[0] == b[0])
  {
    assert |a| == |multiset(a)| && |b| == |multiset(b)|;
    if |a| == 1 {
      assert a[0] in multiset(b);
    }
  }

  /** The hashes an invoice yields do not depend on the order of its fields. */
  lemma OrderIndependent(fields: seq<Field>, others: seq<Field>)
    requires multiset(fields) == multiset(others)
    ensures OnlyPaymentHash(fields) == OnlyPaymentHash(others)
    ensures CommittedHash(fields) == CommittedHash(others)
  {
    SelectPermutation(PaymentHashOf, fields, others);
    SelectPermutation(DescriptionHashOf, fields, others);
    SelectPermutation(DescriptionOf, fields, others);
    SameSingleton(Select(PaymentHashOf, fields), Select(PaymentHashOf, others));
    SameSingleton(Select(DescriptionHashOf, fields), Select(DescriptionHashOf, others));
    SameSingleton(Select(DescriptionOf, fields), Select(DescriptionOf, others));
  }

  /** Field `i` yields `x`, and no other field yields anything. */
  ghost predicate OnlyAt<T>(pick: Field -> Option<T>, fields: seq<Field>, i: nat, x: T) {
    && i < |fields|
    && pick(fields[i]) == Some(x)
    && forall j :: 0 <= j < |fields| && j != i ==> pick(fields[j]).None?
  }

  ghost predicate Nowhere<T>(pick: Field -> Option<T>, fields: seq<Field>) {
    forall j :: 0 <= j < |fields| ==> pick(fields[j]).None?
  }

  lemma {:induction false} SelectNothing<T>(pick: Field -> Option<T>, fields: seq<Field>)
    ensures Select(pick, fields) == [] <==> Nowhere(pick, fields)
  {
    if fields != [] {
      SelectNothing(pick, fields[..|fields| - 1]);
    }
  }

  lemma SnocSingleton<T>(s: seq<T>, y: T, x: T)
    ensures s + [y] == [x] <==> s == [] && y == x
  {
    if s + [y] == [x] {
      assert |s| == 0 && (s + [y])[0] == y;
    }
  }

  lemma {:induction false} SelectOne<T>(pick: Field -> Option<T>, fields: seq<Field>, x: T)
    ensures Select(pick, fields) == [x] <==> exists i: nat :: OnlyAt(pick, fields, i, x)
  {
    if fields != [] {
      var n := |fields| - 1;
      var init := fields[..n];
      SelectNothing(pick, init);
      SelectOne(pick, init, x);
      if pick(fields[n]).Some? {
        SnocSingleton(Select(pick, init), pick(fields[n]).value, x);
        assert OnlyAt(pick, fields, n, x) <==> pick(fields[n]) == Some(x) && Nowhere(pick, init);
        assert forall i: nat :: OnlyAt(pick, fields, i, x) ==> i == n;
      } else {
        assert forall i: nat :: OnlyAt(pick, fields, i, x) <==> OnlyAt(pick, init, i, x);
      }
    }
  }

  /** A payment hash is read exactly when one field, and no other, carries one. */
  lemma PaymentHashMeaning(fields: seq<Field>, h: Hash32)
    ensures OnlyPaymentHash(fields) == Some(h) <==> exists i: nat :: OnlyAt(PaymentHashOf, fields, i, h)
  {
    SelectOne(PaymentHashOf, fields, h);
  }

  /** A description hash needs to be the only one and to stand without an inline description. */
  lemma CommittedHashMeaning(fields: seq<Field>, h: Hash32)
    ensures CommittedHash(fields) == Some(h) <==>
            && (exists i: nat :: OnlyAt(DescriptionHashOf, fields, i, h))
            && forall j :: 0 <= j < |fields| ==> !fields[j].Description?
  {
    SelectOne(DescriptionHashOf, fields, h);
    SelectNothing(DescriptionOf, fields);
    assert Nowhere(DescriptionOf, fields) <==> forall j :: 0 <= j < |fields| ==> !fields[j].Description?;
  }

  /** Field `i` yields `x`, and no earlier field yields anything. */
  ghost predicate FirstAt<T>(pick: Field -> Option<T>, fields: seq<Field>, i: nat, x: T) {
    && i < |fields|
    && pick(fields[i]) == Some(x)
    && forall j :: 0 <= j < i ==> pick(fields[j]).None?
  }

  lemma {:induction false} FirstMeaning<T>(pick: Field -> Option<T>, fields: seq<Field>, x: T)
    ensures First(pick, fields) == Some(x) <==> exists i: nat :: FirstAt(pick, fields, i, x)
    ensures First(pick, fields) == None <==> Nowhere(pick, fields)
  {
    if fields != [] {
      var rest := fields[1..];
      FirstMeaning(pick, rest, x);
      if pick(fields[0]).Some? {
        assert pick(fields[0]) == Some(x) ==> FirstAt(pick, fields, 0, x);
      } else {
        if First(pick, rest) == Some(x) {
          var i: nat :| FirstAt(pick, rest, i, x);
          assert FirstAt(pick, fields, i + 1, x);
        }
        forall i: nat | FirstAt(pick, fields, i, x)
          ensures FirstAt(pick, rest, i - 1, x)
        {
        }
      }
    }
  }

  /** What a decoded invoice says about the parsed one, without reference to how it is read. */
  ghost predicate Reads(raw: RawInvoice, invoice: Invoice) {
    && raw.signatureValid
    && invoice.currency == raw.currency
    && invoice.created == raw.timestamp
    && (if raw.hasAmount
        then invoice.amountMsat.Some? && raw.picoBtc == Some(10 * invoice.amountMsat.value)
        else invoice.amountMsat.None?)
    && (exists i: nat :: OnlyAt(PaymentHashOf, raw.fields, i, invoice.paymentHash))
    && (invoice.descriptionHash.Some? <==>
          && (exists i: nat, h :: OnlyAt(DescriptionHashOf, raw.fields, i, h))
          && Nowhere(DescriptionOf, raw.fields))
    && (invoice.descriptionHash.Some? ==>
          exists i: nat :: OnlyAt(DescriptionHashOf, raw.fields, i, invoice.descriptionHash.value))
    && ((exists i: nat :: FirstAt(PayeeOf, raw.fields, i, invoice.payee))
        || (Nowhere(PayeeOf, raw.fields) && raw.recoveredKey == Some(invoice.payee)))
    && ((exists i: nat :: FirstAt(ExpiryOf, raw.fields, i, invoice.expiry))
        || (Nowhere(ExpiryOf, raw.fields) && invoice.expiry == 3600))
  }

  lemma CommittedHashSome(fields: seq<Field>)
    ensures CommittedHash(fields).Some? <==>
            (exists i: nat, h :: OnlyAt(DescriptionHashOf, fields, i, h)) && Nowhere(DescriptionOf, fields)
  {
    SelectNothing(DescriptionOf, fields);
    var found := Select(DescriptionHashOf, fields);
    if |found| == 1 {
      assert found == [found[0]];
      SelectOne(DescriptionHashOf, fields, found[0]);
    }
    forall i: nat, h | OnlyAt(DescriptionHashOf, fields, i, h)
      ensures |found| == 1
    {
      SelectOne(DescriptionHashOf, fields, h);
    }
  }

  lemma HashesRead(fields: seq<Field>, invoice: Invoice)
    ensures OnlyPaymentHash(fields) == Some(invoice.paymentHash) && CommittedHash(fields) == invoice.descriptionHash
            <==>
            && (exists i: nat :: OnlyAt(PaymentHashOf, fields, i, invoice.paymentHash))
            && (invoice.descriptionHash.Some? <==>
                  (exists i: nat, h :: OnlyAt(DescriptionHashOf, fields, i, h)) && Nowhere(DescriptionOf, fields))
            && (invoice.descriptionHash.Some? ==>
                  exists i: nat :: OnlyAt(DescriptionHashOf, fields, i, invoice.descriptionHash.value))
  {
    PaymentHashMeaning(fields, invoice.paymentHash);
    CommittedHashSome(fields);
    if invoice.descriptionHash.Some? {
      CommittedHashMeaning(fields, invoice.descriptionHash.value);
      assert Nowhere(DescriptionOf, fields) <==> forall j :: 0 <= j < |fields| ==> !fields[j].Description?;
    }
  }

  lemma AmountReads(raw: RawInvoice, amount: Option<U64>)
    ensures AmountMsat(raw) == Ok(amount) <==>
            if raw.hasAmount then amount.Some? && raw.picoBtc == Some(10 * amount.value) else amount.None?
  {
  }

  lemma FirstsRead(raw: RawInvoice, invoice: Invoice)
    ensures Payee(raw) == Some(invoice.payee) <==>
            (exists i: nat :: FirstAt(PayeeOf, raw.fields, i, invoice.payee))
            || (Nowhere(PayeeOf, raw.fields) && raw.recoveredKey == Some(invoice.payee))
    ensures Expiry(raw) == invoice.expiry <==>
            (exists i: nat :: FirstAt(ExpiryOf, raw.fields, i, invoice.expiry))
            || (Nowhere(ExpiryOf, raw.fields) && invoice.expiry == 3600)
  {
    FirstMeaning(PayeeOf, raw.fields, invoice.payee);
    FirstMeaning<U64>(ExpiryOf, raw.fields, invoice.expiry);
  }

  /** Decoding succeeds with `invoice` exactly when the parsed invoice reads as it. */
  lemma DecodesExactly(parse: string -> Option<RawInvoice>, text: string, invoice: Invoice)
    ensures Decode(parse, text) == Ok(invoice) <==> parse(text).Some? && Reads(parse(text).value, invoice)
  {
    if parse(text).Some? {
      var raw := parse(text).value;
      HashesRead(raw.fields, invoice);
      AmountReads(raw, invoice.amountMsat);
      FirstsRead(raw, invoice);
      DecodesParts(parse, text, invoice);
    }
  }

  lemma DecodesParts(parse: string -> Option<RawInvoice>, text: string, invoice: Invoice)
    requires parse(text).Some?
    ensures var raw := parse(text).value;
            Decode(parse, text) == Ok(invoice) <==>
            && raw.signatureValid && invoice.currency == raw.currency && invoice.created == raw.timestamp
            && OnlyPaymentHash(raw.fields) == Some(invoice.paymentHash)
            && CommittedHash(raw.fields) == invoice.descriptionHash
            && AmountMsat(raw) == Ok(invoice.amountMsat)
            && Payee(raw) == Some(invoice.payee) && Expiry(raw) == invoice.expiry
  {
  }

  lemma PlainHashes(fields: seq<Field>, h: Hash32, d: Hash32)
    requires |fields| == 3 && fields[0] == PaymentHash(h) && fields[1] == DescriptionHash(d) && fields[2].ExpiryTime?
    ensures OnlyAt(PaymentHashOf, fields, 0, h) && OnlyAt(DescriptionHashOf, fields, 1, d)
  {
  }

  lemma PlainOthers(fields: seq<Field>, secs: U64)
    requires |fields| == 3 && fields[0].PaymentHash? && fields[1].DescriptionHash? && fields[2] == ExpiryTime(secs)
    ensures Nowhere(DescriptionOf, fields) && Nowhere(PayeeOf, fields) && FirstAt(ExpiryOf, fields, 2, secs)
  {
  }

  /** How an invoice with just a payment hash, a description hash and an expiry reads. */
  lemma PlainInvoice(parse: string -> Option<RawInvoice>, text: string, raw: RawInvoice, invoice: Invoice)
    requires parse(text) == Some(raw) && raw.signatureValid && raw.hasAmount
    requires invoice.amountMsat.Some? && raw.picoBtc == Some(10 * invoice.amountMsat.value)
    requires invoice.descriptionHash.Some?
    requires raw.fields == [PaymentHash(invoice.paymentHash), DescriptionHash(invoice.descriptionHash.value),
                            ExpiryTime(invoice.expiry)]
    requires raw.currency == invoice.currency && raw.timestamp == invoice.created
    requires raw.recoveredKey == Some(invoice.payee)
    ensures Decode(parse, text) == Ok(invoice)
  {
    PlainHashes(raw.fields, invoice.paymentHash, invoice.descriptionHash.value);
    PlainOthers(raw.fields, invoice.expiry);
    DecodesExactly(parse, text, invoice);
  }
}
