/** What `Verify` accepts, why it refuses, and when a challenge can be redeemed. */
module Acceptance {
  import opened Wrappers
  import opened Words
  import opened Json
  import opened Invoices
  import opened Replay
  import opened Lnbtc
  import Binding
  import Decimal
  import Hex

  // ----- Faithful strings

  lemma Caip2Injective(m: Network, n: Network)
    ensures |Caip2(m)| == 38 && (Caip2(m) == Caip2(n) <==> m == n)
  {
    assert Caip2(Mainnet)[15] == '0' && Caip2(Testnet)[15] == '9' && Caip2(Network.Signet)[15] == '1';
  }

  /** Replay keys agree exactly when network and payment hash do. */
  lemma ReplayKeyInjective(m: Network, a: Hash32, n: Network, b: Hash32)
    ensures ReplayKey(m, a) == ReplayKey(n, b) <==> m == n && a == b
  {
    Caip2Injective(m, n);
    Caip2Injective(n, m);
    if ReplayKey(m, a) == ReplayKey(n, b) {
      var x, y := ReplayKey(m, a), ReplayKey(n, b);
      assert x[..38] == Caip2(m) && y[..38] == Caip2(n);
      assert x[39..] == Hex.Encode(a) && y[39..] == Hex.Encode(b);
      Hex.EncodeInjective(a, b);
    }
  }

  /** Accepted 64-digit texts are exactly the encodings of 32-byte values. */
  lemma HashTexts(s: string)
    ensures |s| == 64 && Hex.IsLower(s) <==> exists h: Hash32 :: s == Hex.Encode(h)
    ensures |s| == 64 && Hex.IsLower(s) ==>
              Hex.Decode(s).Some? && |Hex.Decode(s).value| == 32 && s == Hex.Encode(Hex.Decode(s).value)
  {
    if |s| == 64 && Hex.IsLower(s) {
      Hex.EncodeDecode(s);
      var h: Hash32 := Hex.Decode(s).value;
      assert s == Hex.Encode(h);
    }
    forall h: Hash32
      ensures |Hex.Encode(h)| == 64 && Hex.IsLower(Hex.Encode(h))
    {
      Hex.EncodeForm(h);
    }
  }

  // ----- The acceptance window

  /** In unbounded integers: from one skew before creation to one skew past expiry. */
  predicate InWindow(invoice: Invoice, skew: U64, now: U64) {
    invoice.created - skew <= now <= invoice.created + invoice.expiry + skew
  }

  /** Saturation never moves either end of the window. */
  lemma WindowIsExact(invoice: Invoice, skew: U64, now: U64)
    ensures InWindow(invoice, skew, now) <==>
            && invoice.created <= SatAdd(now, skew)
            && now <= LastValid(invoice.created, invoice.expiry, skew)
  {
  }

  // ----- Accepted payloads

  /**
    The client's copy says what the server's own requirements for the invoice
    `text` say. Extra members are ignored and the transfer method may be left out.
  */
  ghost predicate Echoes(accepted: PaymentRequirements, terms: Terms, text: string) {
    var own := Requirements(terms, text);
    && accepted.(extra := map[]) == own.(extra := map[])
    && (forall key :: key in own.extra && key != "assetTransferMethod" ==> Has(accepted.extra, key, own.extra[key]))
    && ("assetTransferMethod" in accepted.extra ==>
          accepted.extra["assetTransferMethod"] == own.extra["assetTransferMethod"])
  }

  /** The invoice is the one the terms ask for. */
  ghost predicate Matches(invoice: Invoice, terms: Terms) {
    && invoice.descriptionHash == Some(terms.requestHash)
    && invoice.payee == terms.payTo
    && invoice.currency == NetworkCurrency(terms.network)
    && invoice.amountMsat == Some(terms.amountMsat)
    && invoice.expiry == terms.maxTimeoutSecs
  }

  /** `payload` redeems the invoice written `text` with `preimage`. */
  ghost predicate Redeems(ext: Externals, payload: PaymentPayload, terms: Terms, now: U64,
                          text: string, invoice: Invoice, preimage: Hash32) {
    && Echoes(payload.accepted, terms, text)
    && text != ""
    && Decode(ext.parseInvoice, text) == Ok(invoice)
    && Matches(invoice, terms)
    && Has(payload.payload, "preimage", String(Hex.Encode(preimage)))
    && ext.sha256(preimage) == invoice.paymentHash
    && InWindow(invoice, terms.clockSkewSecs, now)
  }

  lemma CoreEchoes(accepted: PaymentRequirements, terms: Terms, text: string)
    ensures CheckCore(accepted, terms).Ok? <==> accepted.(extra := map[]) == Requirements(terms, text).(extra := map[])
  {
  }

  lemma ExtraEchoes(extra: map<string, Value>, terms: Terms, text: string)
    requires Has(extra, "invoice", String(text))
    ensures CheckExtra(extra, terms).Ok? <==>
            && Binding.CanonicalParams(terms.bindingParams)
            && ("assetTransferMethod" in extra ==> extra["assetTransferMethod"] == String(ASSET_TRANSFER_METHOD))
            && Has(extra, "paymentFlow", String(PAYMENT_FLOW))
            && Has(extra, "requestHash", String(Hex.Encode(terms.requestHash)))
            && Has(extra, "requestBindingProfile", String(Binding.HTTP_PROFILE))
            && Has(extra, "requestBindingParams", terms.bindingParams)
  {
    Hex.EncodeForm(terms.requestHash);
  }

  lemma CheckExtraEchoes(accepted: PaymentRequirements, terms: Terms, text: string)
    requires Has(accepted.extra, "invoice", String(text))
    ensures CheckCore(accepted, terms).Ok? && CheckExtra(accepted.extra, terms).Ok? <==>
            Binding.CanonicalParams(terms.bindingParams) && Echoes(accepted, terms, text)
  {
    CoreEchoes(accepted, terms, text);
    ExtraEchoes(accepted.extra, terms, text);
    OwnExtra(terms, text);
  }

  lemma OwnExtra(terms: Terms, text: string)
    ensures var own := Requirements(terms, text).extra;
            && own.Keys == {"assetTransferMethod", "paymentFlow", "requestHash", "requestBindingProfile",
                            "requestBindingParams", "invoice"}
            && own["assetTransferMethod"] == String(ASSET_TRANSFER_METHOD)
            && own["paymentFlow"] == String(PAYMENT_FLOW)
            && own["requestHash"] == String(Hex.Encode(terms.requestHash))
            && own["requestBindingProfile"] == String(Binding.HTTP_PROFILE)
            && own["requestBindingParams"] == terms.bindingParams
            && own["invoice"] == String(text)
  {
  }

  lemma InvoiceMatches(invoice: Invoice, terms: Terms, now: U64)
    ensures CheckInvoice(invoice, terms, now).Ok? <==>
            Matches(invoice, terms) && invoice.created <= now + terms.clockSkewSecs
  {
  }

  /** An invoice passes the check before it goes out exactly when it matches, is not from the future and not expired. */
  lemma IssuedExactly(ext: Externals, text: string, terms: Terms, now: U64)
    ensures CheckIssued(ext, text, terms, now).Ok? <==>
            && Decode(ext.parseInvoice, text).Ok?
            && var invoice := Decode(ext.parseInvoice, text).value;
               && Matches(invoice, terms)
               && invoice.created - terms.clockSkewSecs <= now <= invoice.created + invoice.expiry
  {
    if Decode(ext.parseInvoice, text).Ok? {
      InvoiceMatches(Decode(ext.parseInvoice, text).value, terms, now);
    }
  }

  /** The times at which an invoice may go out, and everything up to one skew later, lie in the window. */
  lemma IssueTimesInWindow(ext: Externals, text: string, terms: Terms, issuedAt: U64, delay: nat)
    requires CheckIssued(ext, text, terms, issuedAt).Ok?
    requires delay <= terms.clockSkewSecs && issuedAt + delay <= U64_MAX
    ensures InWindow(Decode(ext.parseInvoice, text).value, terms.clockSkewSecs, issuedAt + delay)
  {
    IssuedExactly(ext, text, terms, issuedAt);
  }

  lemma PreimageMatches(ext: Externals, payload: map<string, Value>, hash: Hash32)
    ensures CheckPreimage(ext, payload, hash).Ok? <==>
            exists x: Hash32 :: Has(payload, "preimage", String(Hex.Encode(x))) && ext.sha256(x) == hash
  {
    if HasText(payload, "preimage") {
      var s := payload["preimage"].text;
      HashTexts(s);
      if CheckPreimage(ext, payload, hash).Ok? {
        var x: Hash32 := Hex.Decode(s).value;
        assert Has(payload, "preimage", String(Hex.Encode(x)));
      }
      forall x: Hash32 | Has(payload, "preimage", String(Hex.Encode(x))) && ext.sha256(x) == hash
        ensures CheckPreimage(ext, payload, hash).Ok?
      {
        Hex.DecodeEncode(x);
      }
    }
  }

  /** What a redemption makes `Verify` answer. */
  lemma RedemptionAccepted(ext: Externals, payload: PaymentPayload, terms: Terms, now: U64,
                           text: string, invoice: Invoice, preimage: Hash32)
    requires Binding.CanonicalParams(terms.bindingParams)
    requires Redeems(ext, payload, terms, now, text, invoice, preimage)
    ensures Verify(ext, payload, terms, now) ==
            Ok(Proof(invoice.paymentHash, RetainUntil(invoice.created, invoice.expiry, terms.clockSkewSecs)))
  {
    var own := Requirements(terms, text).extra;
    assert "invoice" in own && own["invoice"] == String(text);
    CheckExtraEchoes(payload.accepted, terms, text);
    InvoiceMatches(invoice, terms, now);
    PreimageMatches(ext, payload.payload, invoice.paymentHash);
  }

  /** An accepted payload is a redemption, and yields that invoice's proof. */
  lemma AcceptedRedeems(ext: Externals, payload: PaymentPayload, terms: Terms, now: U64)
    returns (text: string, invoice: Invoice, preimage: Hash32)
    requires Verify(ext, payload, terms, now).Ok?
    ensures Binding.CanonicalParams(terms.bindingParams)
    ensures Redeems(ext, payload, terms, now, text, invoice, preimage)
    ensures Verify(ext, payload, terms, now).value ==
            Proof(invoice.paymentHash, RetainUntil(invoice.created, invoice.expiry, terms.clockSkewSecs))
  {
    text := payload.accepted.extra["invoice"].text;
    CheckExtraEchoes(payload.accepted, terms, text);
    invoice := Decode(ext.parseInvoice, text).value;
    InvoiceMatches(invoice, terms, now);
    PreimageMatches(ext, payload.payload, invoice.paymentHash);
    preimage :| Has(payload.payload, "preimage", String(Hex.Encode(preimage)))
                && ext.sha256(preimage) == invoice.paymentHash;
  }

  /** `Verify` accepts exactly the redemptions. */
  lemma AcceptsExactlyRedemptions(ext: Externals, payload: PaymentPayload, terms: Terms, now: U64)
    ensures Verify(ext, payload, terms, now).Ok? <==>
            && Binding.CanonicalParams(terms.bindingParams)
            && exists text, invoice, preimage :: Redeems(ext, payload, terms, now, text, invoice, preimage)
  {
    if Verify(ext, payload, terms, now).Ok? {
      var text, invoice, preimage := AcceptedRedeems(ext, payload, terms, now);
    }
    forall text, invoice, preimage: Hash32 |
      Binding.CanonicalParams(terms.bindingParams) && Redeems(ext, payload, terms, now, text, invoice, preimage)
      ensures Verify(ext, payload, terms, now).Ok?
    {
      RedemptionAccepted(ext, payload, terms, now, text, invoice, preimage);
    }
  }

  // ----- Challenges can be redeemed

  /** A client's answer to a challenge: the offer echoed, and the preimage in hex. */
  function Answer(offer: PaymentRequirements, preimage: Hash32): PaymentPayload {
    PaymentPayload(2, offer, map["preimage" := String(Hex.Encode(preimage))])
  }

  /**
    An invoice that passed the check at `issuedAt` can be redeemed with its
    preimage at exactly the times of its window; the window contains
    `issuedAt` and reaches `clockSkewSecs` past expiry.
  */
  lemma ChallengeRedeemable(ext: Externals, terms: Terms, text: string, issuedAt: U64, preimage: Hash32, now: U64)
    requires Binding.CanonicalParams(terms.bindingParams) && text != ""
    requires CheckIssued(ext, text, terms, issuedAt).Ok?
    requires ext.sha256(preimage) == Decode(ext.parseInvoice, text).value.paymentHash
    ensures var invoice := Decode(ext.parseInvoice, text).value;
            && (Verify(ext, Answer(Requirements(terms, text), preimage), terms, now) ==
                if InWindow(invoice, terms.clockSkewSecs, now)
                then Ok(Proof(invoice.paymentHash, RetainUntil(invoice.created, invoice.expiry, terms.clockSkewSecs)))
                else if now < invoice.created then Err(InvoiceCreatedInFuture)
                else Err(InvoiceExpired))
            && InWindow(invoice, terms.clockSkewSecs, issuedAt)
            && (issuedAt <= now <= invoice.created + invoice.expiry + terms.clockSkewSecs
                ==> InWindow(invoice, terms.clockSkewSecs, now))
  {
    var invoice := Decode(ext.parseInvoice, text).value;
    var payload := Answer(Requirements(terms, text), preimage);
    InvoiceMatches(invoice, terms, issuedAt);
    InvoiceMatches(invoice, terms, now);
    CheckExtraEchoes(payload.accepted, terms, text);
    PreimageMatches(ext, payload.payload, invoice.paymentHash);
    if InWindow(invoice, terms.clockSkewSecs, now) {
      assert Redeems(ext, payload, terms, now, text, invoice, preimage);
      RedemptionAccepted(ext, payload, terms, now, text, invoice, preimage);
    }
  }

  /** The empty text is never redeemable, whatever the parser makes of it. */
  lemma EmptyTextRefused(ext: Externals, terms: Terms, preimage: Hash32, now: U64)
    requires Binding.CanonicalParams(terms.bindingParams)
    ensures Verify(ext, Answer(Requirements(terms, ""), preimage), terms, now) == Err(InvoiceMissing)
  {
    CheckExtraEchoes(Requirements(terms, ""), terms, "");
  }

  // ----- Rejection reasons

  datatype Rule = Rule(reason: ErrorReason, holds: bool)

  ghost predicate FirstBroken(rules: seq<Rule>, k: nat, reason: ErrorReason) {
    && k < |rules| && !rules[k].holds && rules[k].reason == reason
    && forall j :: 0 <= j < k ==> rules[j].holds
  }

  /** The verdict follows the rules: acceptance if all hold, else the first broken rule's reason. */
  ghost predicate Follows<T>(r: Result<T, ErrorReason>, rules: seq<Rule>) {
    match r
    case Ok(_) => forall k :: 0 <= k < |rules| ==> rules[k].holds
    case Err(reason) => exists k: nat :: FirstBroken(rules, k, reason)
  }

  /** The identifier of each network: `lnbtc:` and the first 32 digits of its genesis block hash. */
  ghost predicate NamesNetwork(text: string, n: Network) {
    match n
    case Mainnet => text == "lnbtc:000000000019d6689c085ae165831e93"
    case Testnet => text == "lnbtc:000000000933ea01ad0ee984209779ba"
    case Signet => text == "lnbtc:00000008819873e925422c1ff0f99f7c"
  }

  /** The BOLT11 currency of each network. */
  ghost predicate PaysOn(currency: Currency, n: Network) {
    match n
    case Mainnet => currency == Bitcoin
    case Testnet => currency == BitcoinTestnet
    case Signet => currency == Currency.Signet
  }

  /** What an accepted payment says and pays in, written out. */
  lemma AcceptedNames(ext: Externals, payload: PaymentPayload, terms: Terms, now: U64)
    requires Verify(ext, payload, terms, now).Ok?
    ensures var accepted := payload.accepted;
            && accepted.scheme == "exact" && accepted.asset == "BTC"
            && NamesNetwork(accepted.network, terms.network)
            && Has(accepted.extra, "paymentFlow", String("upfront"))
            && Has(accepted.extra, "requestBindingProfile", String("http:1"))
            && HasText(accepted.extra, "invoice")
            && Decode(ext.parseInvoice, accepted.extra["invoice"].text).Ok?
            && PaysOn(Decode(ext.parseInvoice, accepted.extra["invoice"].text).value.currency, terms.network)
  {
  }

  /** Before a challenge goes out, its invoice is in the network's currency. */
  lemma IssuedNames(ext: Externals, text: string, terms: Terms, now: U64)
    requires CheckIssued(ext, text, terms, now).Ok?
    ensures PaysOn(Decode(ext.parseInvoice, text).value.currency, terms.network)
  {
  }

  ghost function CoreRules(accepted: PaymentRequirements, terms: Terms): seq<Rule> {
    [
      Rule(UnsupportedScheme, accepted.scheme == "exact"),
      Rule(NetworkMismatch, NamesNetwork(accepted.network, terms.network)),
      Rule(AmountMismatch, accepted.amount == Decimal.ToText(terms.amountMsat)),
      Rule(AssetMismatch, accepted.asset == "BTC"),
      Rule(PayToMismatch, accepted.payTo == Hex.Encode(terms.payTo)),
      Rule(MaxTimeoutMismatch, accepted.maxTimeoutSeconds == terms.maxTimeoutSecs)
    ]
  }

  /** The member is the hex form of some 32-byte value. */
  ghost predicate HoldsHash(extra: map<string, Value>, key: string) {
    exists h: Hash32 :: Has(extra, key, String(Hex.Encode(h)))
  }

  /** The member is the parameter object of some canonical list of names. */
  ghost predicate HoldsParams(extra: map<string, Value>, key: string) {
    exists names :: Binding.CanonicalNames(names) && Has(extra, key, Binding.HttpParams(names))
  }

  /** The preimage of `hash` is presented, in hex. */
  ghost predicate HoldsPreimage(ext: Externals, payload: map<string, Value>, hash: Hash32) {
    exists x: Hash32 :: Has(payload, "preimage", String(Hex.Encode(x))) && ext.sha256(x) == hash
  }

  ghost function ExtraRules(extra: map<string, Value>, terms: Terms): seq<Rule> {
    [
      Rule(AssetTransferMethod, "assetTransferMethod" in extra ==> extra["assetTransferMethod"] == String("bolt11")),
      Rule(PaymentFlow, Has(extra, "paymentFlow", String("upfront"))),
      Rule(RequestBinding, HoldsHash(extra, "requestHash")),
      Rule(RequestBinding, Has(extra, "requestBindingProfile", String("http:1"))),
      Rule(RequestBinding, HoldsParams(extra, "requestBindingParams")),
      Rule(RequestMismatch, Has(extra, "requestHash", String(Hex.Encode(terms.requestHash)))
                            && Has(extra, "requestBindingParams", terms.bindingParams))
    ]
  }

  ghost function PresentedInvoice(ext: Externals, extra: map<string, Value>): Option<Invoice> {
    if HasText(extra, "invoice") && Decode(ext.parseInvoice, extra["invoice"].text).Ok?
    then Some(Decode(ext.parseInvoice, extra["invoice"].text).value) else None
  }

  ghost function InvoiceRules(ext: Externals, extra: map<string, Value>, terms: Terms, now: U64): seq<Rule> {
    var i := PresentedInvoice(ext, extra);
    [
      Rule(InvoiceMissing, HasText(extra, "invoice") && extra["invoice"].text != ""),
      Rule(InvoiceDecodeFailed, i.Some?),
      Rule(InvoiceDescription, i.Some? && i.value.descriptionHash.Some?),
      Rule(InvoiceRequestMismatch, i.Some? && i.value.descriptionHash == Some(terms.requestHash)),
      Rule(InvoicePayeeMismatch, i.Some? && i.value.payee == terms.payTo),
      Rule(InvoiceCurrencyMismatch, i.Some? && PaysOn(i.value.currency, terms.network)),
      Rule(InvoiceAmountMismatch, i.Some? && i.value.amountMsat == Some(terms.amountMsat)),
      Rule(InvoiceExpiryMismatch, i.Some? && i.value.expiry == terms.maxTimeoutSecs),
      Rule(InvoiceCreatedInFuture, i.Some? && i.value.created <= now + terms.clockSkewSecs)
    ]
  }

  ghost function PreimageRules(ext: Externals, payload: PaymentPayload, terms: Terms, now: U64): seq<Rule> {
    var i, p := PresentedInvoice(ext, payload.accepted.extra), payload.payload;
    [
      Rule(PreimageMissing, "preimage" in p),
      Rule(PreimageMalformed, HasText(p, "preimage") && Hex.IsLower(p["preimage"].text)),
      Rule(PreimageLength, HasText(p, "preimage") && |p["preimage"].text| == 64),
      Rule(PreimageHashMismatch, i.Some? && HoldsPreimage(ext, p, i.value.paymentHash)),
      Rule(InvoiceExpired, i.Some? && now <= i.value.created + i.value.expiry + terms.clockSkewSecs)
    ]
  }

  /** Every rule a payment must meet, in the order in which they are reported. */
  ghost function Rules(ext: Externals, payload: PaymentPayload, terms: Terms, now: U64): seq<Rule> {
    CoreRules(payload.accepted, terms)
    + ExtraRules(payload.accepted.extra, terms)
    + InvoiceRules(ext, payload.accepted.extra, terms, now)
    + PreimageRules(ext, payload, terms, now)
  }

  /** The rules before a failing one are met, so its verdict stands for the longer list. */
  lemma FollowsPrefix<S, T>(r: Result<S, ErrorReason>, rules: seq<Rule>, rest: seq<Rule>, full: Result<T, ErrorReason>)
    requires Follows(r, rules) && r.Err? && full.Err? && full.error == r.error
    ensures Follows(full, rules + rest)
  {
    var k: nat :| FirstBroken(rules, k, r.error);
    assert FirstBroken(rules + rest, k, r.error);
  }

  lemma FollowsSuffix<S, T>(r: Result<S, ErrorReason>, rules: seq<Rule>, rest: seq<Rule>, full: Result<T, ErrorReason>)
    requires Follows(r, rules) && r.Ok? && Follows(full, rest)
    ensures Follows(full, rules + rest)
  {
    if full.Err? {
      var k: nat :| FirstBroken(rest, k, full.error);
      assert FirstBroken(rules + rest, |rules| + k, full.error);
    }
  }

  lemma CoreFollows(accepted: PaymentRequirements, terms: Terms)
    ensures Follows(CheckCore(accepted, terms), CoreRules(accepted, terms))
  {
    var r, rules := CheckCore(accepted, terms), CoreRules(accepted, terms);
    SixInTurn(rules, r);
  }

  lemma HashMember(extra: map<string, Value>, key: string)
    ensures HoldsHash(extra, key) <==>
            HasText(extra, key) && |extra[key].text| == 64 && Hex.IsLower(extra[key].text)
  {
    if HoldsHash(extra, key) {
      var h: Hash32 :| Has(extra, key, String(Hex.Encode(h)));
      Hex.EncodeForm(h);
    }
    if HasText(extra, key) && |extra[key].text| == 64 && Hex.IsLower(extra[key].text) {
      HashTexts(extra[key].text);
      var h: Hash32 := Hex.Decode(extra[key].text).value;
      assert Has(extra, key, String(Hex.Encode(h)));
    }
  }

  /** A check that reports its six conditions in turn follows them as rules. */
  lemma SixInTurn<T>(rules: seq<Rule>, r: Result<T, ErrorReason>)
    requires |rules| == 6
    requires r.Err? ==>
               r.error == if !rules[0].holds then rules[0].reason else if !rules[1].holds then rules[1].reason
                          else if !rules[2].holds then rules[2].reason else if !rules[3].holds then rules[3].reason
                          else if !rules[4].holds then rules[4].reason else rules[5].reason
    requires r.Ok? <==>
             && rules[0].holds && rules[1].holds && rules[2].holds
             && rules[3].holds && rules[4].holds && rules[5].holds
    ensures Follows(r, rules)
  {
    if r.Err? {
      var k := if !rules[0].holds then 0 else if !rules[1].holds then 1 else if !rules[2].holds then 2
               else if !rules[3].holds then 3 else if !rules[4].holds then 4 else 5;
      assert FirstBroken(rules, k, r.error);
    }
  }

  lemma NamesMember(extra: map<string, Value>, key: string)
    ensures HoldsParams(extra, key) <==>
            key in extra && Binding.CanonicalParams(extra[key])
  {
    if key in extra {
      Binding.CanonicalParamsForm(extra[key]);
    }
  }

  lemma ExtraFollows(extra: map<string, Value>, terms: Terms)
    ensures Follows(CheckExtra(extra, terms), ExtraRules(extra, terms))
  {
    HashMember(extra, "requestHash");
    NamesMember(extra, "requestBindingParams");
    SixInTurn(ExtraRules(extra, terms), CheckExtra(extra, terms));
  }

  /** The middle part of `Verify`. */
  function InvoiceVerdict(ext: Externals, extra: map<string, Value>, terms: Terms, now: U64)
    : Result<Invoice, ErrorReason>
  {
    if !(HasText(extra, "invoice") && extra["invoice"].text != "") then Err(InvoiceMissing)
    else
      match Decode(ext.parseInvoice, extra["invoice"].text)
      case Err(e) => Err(e)
      case Ok(invoice) =>
        match CheckInvoice(invoice, terms, now)
        case Err(e) => Err(e)
        case Ok(_) => Ok(invoice)
  }

  lemma InvoiceFollows(ext: Externals, extra: map<string, Value>, terms: Terms, now: U64)
    ensures Follows(InvoiceVerdict(ext, extra, terms, now), InvoiceRules(ext, extra, terms, now))
  {
    var r, rules := InvoiceVerdict(ext, extra, terms, now), InvoiceRules(ext, extra, terms, now);
    DecodeReason(ext, if HasText(extra, "invoice") then extra["invoice"].text else "");
    if r.Err? {
      if !rules[0].holds || !rules[1].holds {
        assert FirstBroken(rules, if !rules[0].holds then 0 else 1, r.error);
      } else {
        CheckInvoiceFollows(PresentedInvoice(ext, extra).value, terms, now, rules, r.error);
      }
    }
  }

  lemma CheckInvoiceFollows(i: Invoice, terms: Terms, now: U64, rules: seq<Rule>, reason: ErrorReason)
    requires |rules| == 9 && rules[0].holds && rules[1].holds
    requires rules[2..] == [
      Rule(InvoiceDescription, i.descriptionHash.Some?),
      Rule(InvoiceRequestMismatch, i.descriptionHash == Some(terms.requestHash)),
      Rule(InvoicePayeeMismatch, i.payee == terms.payTo),
      Rule(InvoiceCurrencyMismatch, PaysOn(i.currency, terms.network)),
      Rule(InvoiceAmountMismatch, i.amountMsat == Some(terms.amountMsat)),
      Rule(InvoiceExpiryMismatch, i.expiry == terms.maxTimeoutSecs),
      Rule(InvoiceCreatedInFuture, i.created <= now + terms.clockSkewSecs)
    ]
    requires CheckInvoice(i, terms, now) == Err(reason)
    ensures exists k: nat :: FirstBroken(rules, k, reason)
  {
    var checks := rules[2..];
    assert forall k :: 2 <= k < 9 ==> rules[k] == checks[k - 2];
    var k := if !checks[0].holds then 2 else if !checks[1].holds then 3 else if !checks[2].holds then 4
             else if !checks[3].holds then 5 else if !checks[4].holds then 6 else if !checks[5].holds then 7 else 8;
    assert FirstBroken(rules, k, reason);
  }

  lemma DecodeReason(ext: Externals, text: string)
    ensures Decode(ext.parseInvoice, text).Err? ==> Decode(ext.parseInvoice, text).error == InvoiceDecodeFailed
  {
  }

  /** The last part of `Verify`. */
  function PreimageVerdict(ext: Externals, payload: PaymentPayload, terms: Terms, now: U64, invoice: Invoice)
    : Result<(), ErrorReason>
  {
    match CheckPreimage(ext, payload.payload, invoice.paymentHash)
    case Err(e) => Err(e)
    case Ok(_) =>
      if now > LastValid(invoice.created, invoice.expiry, terms.clockSkewSecs) then Err(InvoiceExpired) else Ok(())
  }

  lemma PreimageFollows(ext: Externals, payload: PaymentPayload, terms: Terms, now: U64, invoice: Invoice)
    requires PresentedInvoice(ext, payload.accepted.extra) == Some(invoice)
    ensures Follows(PreimageVerdict(ext, payload, terms, now, invoice), PreimageRules(ext, payload, terms, now))
  {
    var r, rules := PreimageVerdict(ext, payload, terms, now, invoice), PreimageRules(ext, payload, terms, now);
    PreimageMatches(ext, payload.payload, invoice.paymentHash);
    if HasText(payload.payload, "preimage") {
      HashTexts(payload.payload["preimage"].text);
    }
    if r.Err? {
      var k := if !rules[0].holds then 0 else if !rules[1].holds then 1 else if !rules[2].holds then 2
               else if !rules[3].holds then 3 else 4;
      assert FirstBroken(rules, k, r.error);
    }
  }

  /** Once the core and extra fields pass, the invoice and the preimage decide. */
  lemma ProofFollows(ext: Externals, payload: PaymentPayload, terms: Terms, now: U64)
    requires CheckCore(payload.accepted, terms).Ok? && CheckExtra(payload.accepted.extra, terms).Ok?
    ensures Follows(Verify(ext, payload, terms, now),
                    InvoiceRules(ext, payload.accepted.extra, terms, now) + PreimageRules(ext, payload, terms, now))
  {
    var r := Verify(ext, payload, terms, now);
    var i := InvoiceVerdict(ext, payload.accepted.extra, terms, now);
    var invoiceRules := InvoiceRules(ext, payload.accepted.extra, terms, now);
    var preimageRules := PreimageRules(ext, payload, terms, now);
    InvoiceFollows(ext, payload.accepted.extra, terms, now);
    if i.Err? {
      FollowsPrefix(i, invoiceRules, preimageRules, r);
    } else {
      PreimageFollows(ext, payload, terms, now, i.value);
      FollowsResult(PreimageVerdict(ext, payload, terms, now, i.value), r, preimageRules);
      FollowsSuffix(i, invoiceRules, preimageRules, r);
    }
  }

  lemma FieldsFollow(accepted: PaymentRequirements, terms: Terms, rest: seq<Rule>, r: Result<Proof, ErrorReason>)
    requires CheckCore(accepted, terms).Err? ==> r.Err? && r.error == CheckCore(accepted, terms).error
    requires CheckCore(accepted, terms).Ok? && CheckExtra(accepted.extra, terms).Err?
             ==> r.Err? && r.error == CheckExtra(accepted.extra, terms).error
    requires CheckCore(accepted, terms).Ok? && CheckExtra(accepted.extra, terms).Ok? ==> Follows(r, rest)
    ensures Follows(r, CoreRules(accepted, terms) + (ExtraRules(accepted.extra, terms) + rest))
  {
    var core, extra := CoreRules(accepted, terms), ExtraRules(accepted.extra, terms);
    CoreFollows(accepted, terms);
    ExtraFollows(accepted.extra, terms);
    if CheckCore(accepted, terms).Err? {
      FollowsPrefix(CheckCore(accepted, terms), core, extra + rest, r);
    } else {
      if CheckExtra(accepted.extra, terms).Err? {
        FollowsPrefix(CheckExtra(accepted.extra, terms), extra, rest, r);
      } else {
        FollowsSuffix(CheckExtra(accepted.extra, terms), extra, rest, r);
      }
      FollowsSuffix(CheckCore(accepted, terms), core, extra + rest, r);
    }
  }

  /** `Verify` answers with the reason of the first broken rule, and accepts when there is none. */
  lemma VerifyFollowsRules(ext: Externals, payload: PaymentPayload, terms: Terms, now: U64)
    ensures Follows(Verify(ext, payload, terms, now), Rules(ext, payload, terms, now))
  {
    var accepted, r := payload.accepted, Verify(ext, payload, terms, now);
    var rest := InvoiceRules(ext, accepted.extra, terms, now) + PreimageRules(ext, payload, terms, now);
    if CheckCore(accepted, terms).Ok? && CheckExtra(accepted.extra, terms).Ok? {
      ProofFollows(ext, payload, terms, now);
    }
    FieldsFollow(accepted, terms, rest, r);
    assert Rules(ext, payload, terms, now) == CoreRules(accepted, terms) + (ExtraRules(accepted.extra, terms) + rest);
  }

  lemma FollowsResult<S, T>(r: Result<S, ErrorReason>, s: Result<T, ErrorReason>, rules: seq<Rule>)
    requires Follows(r, rules) && (r.Ok? <==> s.Ok?) && (r.Err? ==> r.error == s.error)
    ensures Follows(s, rules)
  {
  }

  /** Only one rule is the first broken one. */
  lemma FirstBrokenUnique(rules: seq<Rule>, k: nat, reason: ErrorReason, l: nat, other: ErrorReason)
    requires FirstBroken(rules, k, reason) && FirstBroken(rules, l, other)
    ensures k == l && reason == other
  {
  }

  /** The first broken rule has this reason. */
  ghost predicate Breaks(ext: Externals, payload: PaymentPayload, terms: Terms, now: U64, reason: ErrorReason) {
    exists k: nat :: FirstBroken(Rules(ext, payload, terms, now), k, reason)
  }

  /** So the reason is determined by the rules. */
  lemma RefusedExactly(ext: Externals, payload: PaymentPayload, terms: Terms, now: U64, reason: ErrorReason)
    ensures Verify(ext, payload, terms, now) == Err(reason) <==> Breaks(ext, payload, terms, now, reason)
  {
    var rules, r := Rules(ext, payload, terms, now), Verify(ext, payload, terms, now);
    VerifyFollowsRules(ext, payload, terms, now);
    if r.Err? {
      BreaksOnce(rules, r.error, reason);
    } else {
      assert Follows(r, rules);
    }
  }

  lemma BreaksOnce(rules: seq<Rule>, actual: ErrorReason, reason: ErrorReason)
    requires exists k: nat :: FirstBroken(rules, k, actual)
    ensures (exists k: nat :: FirstBroken(rules, k, reason)) <==> actual == reason
  {
    var k: nat :| FirstBroken(rules, k, actual);
    forall l: nat | FirstBroken(rules, l, reason)
      ensures actual == reason
    {
      FirstBrokenUnique(rules, k, actual, l, reason);
    }
  }
}
