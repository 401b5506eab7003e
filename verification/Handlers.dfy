/** The two HTTP handlers (src/x402/handler.rs, src/handlers.rs), effect by effect. */
module Handlers {
  import opened Wrappers
  import opened Words
  import opened Invoices
  import opened Replay
  import opened Lnbtc
  import opened Server
  import Acceptance
  import Base64
  import Binding
  import Decimal
  import Hex
  import Json
  import L402
  import RequestHash
  import Tokens

  // ----- /x402

  /** The `PAYMENT-SIGNATURE` header after decoding. */
  datatype Signature = NoSignature | Undecodable | Signed(payload: PaymentPayload)

  /** What the node answers to a request for an invoice (amount, description hash, expiry). */
  type Issuer = (U64, Hash32, U64) -> Option<string>

  datatype Response =
    | BadRequest
    | ServerError
    | PaymentRequired(offer: PaymentRequirements, failure: Option<ErrorReason>)
    | Fortune(transaction: string)

  /** Amounts and expiries must fit the node's signed fields. */
  function Issue(issuer: Issuer, amountMsat: U64, descriptionHash: Hash32, expirySecs: U64): Option<string> {
    if amountMsat > I64_MAX || expirySecs > I64_MAX then None else issuer(amountMsat, descriptionHash, expirySecs)
  }

  const X402_VERSION: nat := 2

  /** The node answers a request for an invoice on these terms with `text`, and it passes the check. */
  ghost predicate Offers(ext: Externals, issuer: Issuer, terms: Terms, now: U64, text: string) {
    && terms.amountMsat <= 0x7FFF_FFFF_FFFF_FFFF && terms.maxTimeoutSecs <= 0x7FFF_FFFF_FFFF_FFFF
    && issuer(terms.amountMsat, terms.requestHash, terms.maxTimeoutSecs) == Some(text)
    && CheckIssued(ext, text, terms, now).Ok?
  }

  /** `r` offers the requirements of that very invoice, or is an error if there is none. */
  ghost predicate IsChallenge(ext: Externals, issuer: Issuer, terms: Terms, now: U64, failure: Option<ErrorReason>,
                              r: Response) {
    && (forall text :: Offers(ext, issuer, terms, now, text) ==>
          r == PaymentRequired(Requirements(terms, text), failure))
    && ((forall text :: !Offers(ext, issuer, terms, now, text)) ==> r == ServerError)
  }

  /** A challenge offers a freshly issued invoice that passed the check, or nothing goes out. */
  method SendChallenge(ext: Externals, issuer: Issuer, terms: Terms, failure: Option<ErrorReason>, now: U64)
    returns (r: Response)
    ensures IsChallenge(ext, issuer, terms, now, failure, r)
    ensures r.PaymentRequired? || r.ServerError?
  {
    var issued := Issue(issuer, terms.amountMsat, terms.requestHash, terms.maxTimeoutSecs);
    if issued.None? {
      return ServerError;
    }
    var check := CheckIssued(ext, issued.value, terms, now);
    if check.Err? {
      return ServerError;
    }
    assert Offers(ext, issuer, terms, now, issued.value);
    return PaymentRequired(Requirements(terms, issued.value), failure);
  }

  /** What an offer says, field by field. */
  lemma OfferSays(ext: Externals, config: Config, c: RequestHash.Commitment, text: string)
    ensures var offer := Requirements(TermsFor(ext, config, c), text);
            && offer.scheme == "exact" && offer.asset == "BTC"
            && Acceptance.NamesNetwork(offer.network, config.network)
            && Decimal.Value(offer.amount) == config.amountMsat
            && offer.payTo == Hex.Encode(config.payTo)
            && offer.maxTimeoutSeconds == config.maxTimeoutSecs
            && offer.extra == map[
                 "assetTransferMethod" := Json.String("bolt11"),
                 "paymentFlow" := Json.String("upfront"),
                 "requestHash" := Json.String(Hex.Encode(RequestHash.HashOf(ext.sha256, c))),
                 "requestBindingProfile" := Json.String("http:1"),
                 "requestBindingParams" := Binding.HttpParams(config.boundHeaders),
                 "invoice" := Json.String(text)]
  {
    Decimal.ReadBack(config.amountMsat);
  }

  /** `payload` redeems some invoice under the server's own terms, with a key that is not in the table. */
  ghost predicate Buys(ext: Externals, terms: Terms, table: Table, payload: PaymentPayload, now: U64) {
    exists text, invoice, preimage ::
      && Acceptance.Redeems(ext, payload, terms, now, text, invoice, preimage)
      && ReplayKey(terms.network, invoice.paymentHash) !in table
  }

  lemma BuysMeans(ext: Externals, terms: Terms, table: Table, payload: PaymentPayload, now: U64)
    requires Binding.CanonicalParams(terms.bindingParams)
    ensures Buys(ext, terms, table, payload, now) <==>
            && Verify(ext, payload, terms, now).Ok?
            && ReplayKey(terms.network, Verify(ext, payload, terms, now).value.paymentHash) !in table
  {
    if Verify(ext, payload, terms, now).Ok? {
      var text, invoice, preimage := Acceptance.AcceptedRedeems(ext, payload, terms, now);
    }
    forall text, invoice, preimage: Hash32 | Acceptance.Redeems(ext, payload, terms, now, text, invoice, preimage)
      ensures Verify(ext, payload, terms, now).Ok?
      ensures Verify(ext, payload, terms, now).value.paymentHash == invoice.paymentHash
    {
      Acceptance.RedemptionAccepted(ext, payload, terms, now, text, invoice, preimage);
    }
  }

  /** `payload` redeems some invoice under the server's own terms, new or not. */
  ghost predicate Pays(ext: Externals, terms: Terms, payload: PaymentPayload, now: U64) {
    exists text, invoice, preimage :: Acceptance.Redeems(ext, payload, terms, now, text, invoice, preimage)
  }

  /** The sale names the payment hash of the redeemed invoice, and adds its key, with its retention, to the table. */
  ghost predicate IsSale(ext: Externals, terms: Terms, payload: PaymentPayload, now: U64, transaction: string,
                         before: Table, after: Table) {
    exists text, invoice, preimage ::
      && Acceptance.Redeems(ext, payload, terms, now, text, invoice, preimage)
      && transaction == Hex.Encode(invoice.paymentHash)
      && var key := Caip2(terms.network) + ":" + transaction;
         && key !in before
         && after == before[key := SqlTime(RetainUntil(invoice.created, invoice.expiry, terms.clockSkewSecs))]
  }

  lemma SaleMeans(ext: Externals, terms: Terms, payload: PaymentPayload, now: U64, before: Table, after: Table)
    requires Verify(ext, payload, terms, now).Ok?
    requires var proof := Verify(ext, payload, terms, now).value;
             var key := ReplayKey(terms.network, proof.paymentHash);
             key !in before && after == before[key := SqlTime(proof.retainUntil)]
    ensures var proof := Verify(ext, payload, terms, now).value;
            IsSale(ext, terms, payload, now, Hex.Encode(proof.paymentHash), before, after)
  {
    var text, invoice, preimage := Acceptance.AcceptedRedeems(ext, payload, terms, now);
    assert Acceptance.Redeems(ext, payload, terms, now, text, invoice, preimage);
  }

  /** Which payments do not go through, and what they are answered. */
  ghost predicate IsRefusal(ext: Externals, issuer: Issuer, terms: Terms, table: Table, payload: PaymentPayload,
                            settleNow: U64, issueNow: U64, available: bool, r: Response) {
    && (forall reason :: Acceptance.Breaks(ext, payload, terms, settleNow, reason) ==>
          IsChallenge(ext, issuer, terms, issueNow, Some(reason), r))
    && (Pays(ext, terms, payload, settleNow) && !available ==> r == ServerError)
    && (Pays(ext, terms, payload, settleNow) && available && !Buys(ext, terms, table, payload, settleNow) ==>
          IsChallenge(ext, issuer, terms, issueNow, Some(DuplicateSettlement), r))
  }

  lemma PaysMeans(ext: Externals, terms: Terms, payload: PaymentPayload, now: U64)
    requires Binding.CanonicalParams(terms.bindingParams)
    ensures Pays(ext, terms, payload, now) <==> Verify(ext, payload, terms, now).Ok?
    ensures forall reason :: Acceptance.Breaks(ext, payload, terms, now, reason) <==>
              Verify(ext, payload, terms, now) == Err(reason)
  {
    Acceptance.AcceptsExactlyRedemptions(ext, payload, terms, now);
    forall reason
      ensures Acceptance.Breaks(ext, payload, terms, now, reason) <==> Verify(ext, payload, terms, now) == Err(reason)
    {
      Acceptance.RefusedExactly(ext, payload, terms, now, reason);
    }
  }

  /** The paid branch: a fortune if the payload buys one and the store answers, else a new challenge or an error. */
  method SettleRequest(ext: Externals, issuer: Issuer, terms: Terms, store: ReplayStore, payload: PaymentPayload,
                       settleNow: U64, issueNow: U64, available: bool)
    returns (r: Response)
    requires store.Valid() && Binding.CanonicalParams(terms.bindingParams)
    modifies store
    ensures store.Valid() && !r.BadRequest?
    ensures r.Fortune? <==> available && Buys(ext, terms, old(store.consumed), payload, settleNow)
    ensures r.Fortune? ==> IsSale(ext, terms, payload, settleNow, r.transaction, old(store.consumed), store.consumed)
    ensures !r.Fortune? ==> store.consumed == old(store.consumed)
    ensures IsRefusal(ext, issuer, terms, old(store.consumed), payload, settleNow, issueNow, available, r)
  {
    BuysMeans(ext, terms, store.consumed, payload, settleNow);
    PaysMeans(ext, terms, payload, settleNow);
    var settled := Settle(ext, store, payload, terms, settleNow, available);
    match settled
    case Ok(transaction) =>
      SaleMeans(ext, terms, payload, settleNow, old(store.consumed), store.consumed);
      r := Fortune(transaction);
    case Err(Rejected(reason)) => r := SendChallenge(ext, issuer, terms, Some(reason), issueNow);
    case Err(StoreFailure) => r := ServerError;
  }

  /** The request reaches payment: bindable, with a decodable payload of the right version. */
  predicate IsPayment(config: Config, request: Request, signature: Signature) {
    CommitmentOf(config, request).Some? && signature.Signed? && signature.payload.x402Version == 2
  }

  /**
    `GET /x402`. A fortune goes out exactly when the request carries a payment
    that buys it and the store answers; then, and only then, one key is
    consumed. Every other answer is determined as well.
  */
  method GetX402Fortune(ext: Externals, issuer: Issuer, config: Config, store: ReplayStore, request: Request,
                        signature: Signature, settleNow: U64, issueNow: U64, available: bool)
    returns (r: Response)
    requires store.Valid() && Binding.CanonicalNames(config.boundHeaders)
    modifies store
    ensures store.Valid()
    ensures r.Fortune? <==>
            && IsPayment(config, request, signature) && available
            && Buys(ext, TermsFor(ext, config, CommitmentOf(config, request).value), old(store.consumed),
                    signature.payload, settleNow)
    ensures r.Fortune? ==>
              var terms := TermsFor(ext, config, CommitmentOf(config, request).value);
              IsSale(ext, terms, signature.payload, settleNow, r.transaction, old(store.consumed), store.consumed)
    ensures !r.Fortune? ==> store.consumed == old(store.consumed)
    ensures CommitmentOf(config, request).Some? && signature.NoSignature? ==>
              var terms := TermsFor(ext, config, CommitmentOf(config, request).value);
              IsChallenge(ext, issuer, terms, issueNow, None, r)
    ensures IsPayment(config, request, signature) ==>
              var terms := TermsFor(ext, config, CommitmentOf(config, request).value);
              IsRefusal(ext, issuer, terms, old(store.consumed), signature.payload, settleNow, issueNow, available, r)
    ensures r.BadRequest? <==>
            CommitmentOf(config, request).None? || (!signature.NoSignature? && !IsPayment(config, request, signature))
  {
    var c := CommitmentOf(config, request);
    if c.None? {
      return BadRequest;
    }
    var terms := TermsFor(ext, config, c.value);
    Binding.CanonicalParamsForm(terms.bindingParams);
    if signature.NoSignature? {
      r := SendChallenge(ext, issuer, terms, None, issueNow);
    } else if signature.Undecodable? || signature.payload.x402Version != X402_VERSION {
      r := BadRequest;
    } else {
      r := SettleRequest(ext, issuer, terms, store, signature.payload, settleNow, issueNow, available);
    }
  }

  // ----- /fortune

  datatype Authorization = NoHeader | Unreadable | Text(value: string)

  datatype L402Response =
    | Unauthorized
    | Failed
    | Dispensed
    | Challenged(tokenText: string, invoice: string)

  /** A token for `hash`: the hash and its MAC in base64. */
  function MintedText(ext: Externals, rootKey: Hash32, hash: Hash32): string {
    Base64.Encode(hash + ext.hmac(rootKey, hash))
  }

  /** The header authorizes: scheme, a token minted for the preimage's hash, and that preimage. */
  ghost predicate Authorizes(ext: Externals, rootKey: Hash32, header: string) {
    exists preimage: Hash32, hex: string ::
      && Hex.Decode(hex) == Some(preimage)
      && header == "L402 " + MintedText(ext, rootKey, ext.sha256(preimage)) + [':'] + hex
  }

  lemma AuthorizesMeans(ext: Externals, rootKey: Hash32, header: string)
    ensures Authorizes(ext, rootKey, header) <==>
            && L402.ParseAuthorization(header).Ok?
            && var c := L402.ParseAuthorization(header).value;
               L402.VerifyL402(ext.sha256, ext.hmac, rootKey, c.tokenText, c.preimage).Ok?
  {
    if L402.ParseAuthorization(header).Ok? {
      var c := L402.ParseAuthorization(header).value;
      L402.ParsesExactly(header, c);
      L402.AcceptsExactlyMinted(ext.sha256, ext.hmac, rootKey, c.tokenText, c.preimage);
    }
    forall preimage: Hash32, hex: string |
      && Hex.Decode(hex) == Some(preimage)
      && header == "L402 " + MintedText(ext, rootKey, ext.sha256(preimage)) + [':'] + hex
      ensures L402.ParseAuthorization(header).Ok?
      ensures var c := L402.ParseAuthorization(header).value;
              L402.VerifyL402(ext.sha256, ext.hmac, rootKey, c.tokenText, c.preimage).Ok?
    {
      var token := Tokens.Mint(ext.hmac, rootKey, ext.sha256(preimage));
      L402.MintedHeader(header, token, preimage, hex);
      L402.AcceptsExactlyMinted(ext.sha256, ext.hmac, rootKey, Tokens.WireForm(token), preimage);
    }
  }

  /** A request without an L402 header: it gets a challenge. */
  predicate AsksForChallenge(authorization: Authorization) {
    authorization.NoHeader? || (authorization.Text? && !("L402 " <= authorization.value))
  }

  /**
    `GET /fortune`. `invoice` is the node's answer: the payment hash and the
    payment request. Any header that is not an L402 one gets a challenge.
  */
  method GetL402Fortune(ext: Externals, rootKey: Hash32, authorization: Authorization, invoice: Option<(Bytes, string)>)
    returns (r: L402Response)
    ensures r.Dispensed? <==> authorization.Text? && Authorizes(ext, rootKey, authorization.value)
    ensures r.Unauthorized? <==>
            || authorization.Unreadable?
            || (&& authorization.Text? && "L402 " <= authorization.value
                && !Authorizes(ext, rootKey, authorization.value))
    ensures r.Challenged? <==> AsksForChallenge(authorization) && invoice.Some? && |invoice.value.0| == 32
    ensures r.Challenged? ==>
              r.invoice == invoice.value.1 && r.tokenText == MintedText(ext, rootKey, invoice.value.0)
    ensures r.Failed? <==> AsksForChallenge(authorization) && (invoice.None? || |invoice.value.0| != 32)
  {
    if authorization.Unreadable? {
      return Unauthorized;
    }
    if authorization.Text? {
      AuthorizesMeans(ext, rootKey, authorization.value);
      if L402.PREFIX <= authorization.value {
        var parsed := L402.ParseAuthorization(authorization.value);
        if parsed.Err? {
          return Unauthorized;
        }
        var verified := L402.VerifyL402(ext.sha256, ext.hmac, rootKey, parsed.value.tokenText, parsed.value.preimage);
        if verified.Err? {
          return Unauthorized;
        }
        return Dispensed;
      }
    }
    if invoice.None? || |invoice.value.0| != 32 {
      return Failed;
    }
    var token := Tokens.Mint(ext.hmac, rootKey, invoice.value.0);
    var tokenText := Tokens.Serialize(token);
    Tokens.WireFormBijection(tokenText, token);
    return Challenged(tokenText, invoice.value.1);
  }
}
