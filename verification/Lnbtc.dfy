/**
  The `exact` scheme on Lightning (src/x402/lnbtc.rs): what the server asks
  for, and how it checks a proof of payment.
*/
module Lnbtc {
  import opened Wrappers
  import opened Words
  import opened Json
  import opened Invoices
  import opened Replay
  import Binding
  import Decimal
  import Hex

  /** Code the model does not look into: the hash function, the MAC and the invoice parser. */
  datatype Externals = Externals(
    sha256: Bytes -> Hash32,
    hmac: (Hash32, Hash32) -> Hash32,
    parseInvoice: string -> Option<RawInvoice>)

  datatype Network = Mainnet | Testnet | Signet

  function Caip2(n: Network): string {
    match n
    case Mainnet => "lnbtc:000000000019d6689c085ae165831e93"
    case Testnet => "lnbtc:000000000933ea01ad0ee984209779ba"
    case Signet => "lnbtc:00000008819873e925422c1ff0f99f7c"
  }

  function NetworkCurrency(n: Network): Currency {
    match n
    case Mainnet => Bitcoin
    case Testnet => BitcoinTestnet
    case Signet => Currency.Signet
  }

  const SCHEME := "exact"
  const ASSET := "BTC"
  const ASSET_TRANSFER_METHOD := "bolt11"
  const PAYMENT_FLOW := "upfront"

  /** What the server charges for one request, from its own configuration. */
  datatype Terms = Terms(
    network: Network,
    payTo: PublicKey,
    amountMsat: U64,
    maxTimeoutSecs: U64,
    requestHash: Hash32,
    bindingParams: Value,
    clockSkewSecs: U64)

  datatype PaymentRequirements = PaymentRequirements(
    scheme: string,
    network: string,
    amount: string,
    asset: string,
    payTo: string,
    maxTimeoutSeconds: U64,
    extra: map<string, Value>)

  /** What a client sends; nothing in it is trusted. */
  datatype PaymentPayload = PaymentPayload(
    x402Version: nat,
    accepted: PaymentRequirements,
    payload: map<string, Value>)

  function Requirements(terms: Terms, invoice: string): PaymentRequirements {
    PaymentRequirements(
      SCHEME, Caip2(terms.network), Decimal.ToText(terms.amountMsat), ASSET,
      Hex.Encode(terms.payTo), terms.maxTimeoutSecs,
      map[
        "assetTransferMethod" := String(ASSET_TRANSFER_METHOD),
        "paymentFlow" := String(PAYMENT_FLOW),
        "requestHash" := String(Hex.Encode(terms.requestHash)),
        "requestBindingProfile" := String(Binding.HTTP_PROFILE),
        "requestBindingParams" := terms.bindingParams,
        "invoice" := String(invoice)
      ])
  }

  datatype Proof = Proof(paymentHash: Hash32, retainUntil: U64)

  /** `Invoice::check`: everything but expiry. */
  function CheckInvoice(invoice: Invoice, terms: Terms, now: U64): Result<(), ErrorReason> {
    if invoice.descriptionHash.None? then Err(InvoiceDescription)
    else if invoice.descriptionHash.value != terms.requestHash then Err(InvoiceRequestMismatch)
    else if invoice.payee != terms.payTo then Err(InvoicePayeeMismatch)
    else if invoice.currency != NetworkCurrency(terms.network) then Err(InvoiceCurrencyMismatch)
    else if invoice.amountMsat != Some(terms.amountMsat) then Err(InvoiceAmountMismatch)
    else if invoice.expiry != terms.maxTimeoutSecs then Err(InvoiceExpiryMismatch)
    else if invoice.created > SatAdd(now, terms.clockSkewSecs) then Err(InvoiceCreatedInFuture)
    else Ok(())
  }

  /** The check before a challenge goes out. */
  function CheckIssued(ext: Externals, text: string, terms: Terms, now: U64): Result<(), ErrorReason> {
    match Decode(ext.parseInvoice, text)
    case Err(e) => Err(e)
    case Ok(invoice) =>
      match CheckInvoice(invoice, terms, now)
      case Err(e) => Err(e)
      case Ok(_) =>
        if now > InvoiceEnd(invoice.created, invoice.expiry) then Err(InvoiceExpired) else Ok(())
  }

  function CheckCore(accepted: PaymentRequirements, terms: Terms): Result<(), ErrorReason> {
    if accepted.scheme != SCHEME then Err(UnsupportedScheme)
    else if accepted.network != Caip2(terms.network) then Err(NetworkMismatch)
    else if accepted.amount != Decimal.ToText(terms.amountMsat) then Err(AmountMismatch)
    else if accepted.asset != ASSET then Err(AssetMismatch)
    else if accepted.payTo != Hex.Encode(terms.payTo) then Err(PayToMismatch)
    else if accepted.maxTimeoutSeconds != terms.maxTimeoutSecs then Err(MaxTimeoutMismatch)
    else Ok(())
  }

  predicate Has(extra: map<string, Value>, key: string, value: Value) {
    key in extra && extra[key] == value
  }

  predicate HasText(extra: map<string, Value>, key: string) {
    key in extra && extra[key].String?
  }

  function CheckExtra(extra: map<string, Value>, terms: Terms): Result<(), ErrorReason> {
    if "assetTransferMethod" in extra && extra["assetTransferMethod"] != String(ASSET_TRANSFER_METHOD)
    then Err(AssetTransferMethod)
    else if !Has(extra, "paymentFlow", String(PAYMENT_FLOW)) then Err(PaymentFlow)
    else if !(&& HasText(extra, "requestHash")
              && |extra["requestHash"].text| == 64 && Hex.IsLower(extra["requestHash"].text))
    then Err(RequestBinding)
    else if !Has(extra, "requestBindingProfile", String(Binding.HTTP_PROFILE)) then Err(RequestBinding)
    else if !("requestBindingParams" in extra && Binding.CanonicalParams(extra["requestBindingParams"]))
    then Err(RequestBinding)
    else if extra["requestHash"].text != Hex.Encode(terms.requestHash)
            || extra["requestBindingParams"] != terms.bindingParams
    then Err(RequestMismatch)
    else Ok(())
  }

  function CheckPreimage(ext: Externals, payload: map<string, Value>, paymentHash: Hash32): Result<(), ErrorReason> {
    if "preimage" !in payload then Err(PreimageMissing)
    else if !payload["preimage"].String? then Err(PreimageMalformed)
    else
      var preimage := payload["preimage"].text;
      if !Hex.IsLower(preimage) then Err(PreimageMalformed)
      else if |preimage| != 64 then Err(PreimageLength)
      else
        match Hex.Decode(preimage)
        case None => Err(PreimageMalformed)
        case Some(bytes) => if ext.sha256(bytes) != paymentHash then Err(PreimageHashMismatch) else Ok(())
  }

  /** `/settle` validation. */
  function Verify(ext: Externals, payload: PaymentPayload, terms: Terms, now: U64): Result<Proof, ErrorReason> {
    var extra := payload.accepted.extra;
    match CheckCore(payload.accepted, terms)
    case Err(e) => Err(e)
    case Ok(_) =>
      match CheckExtra(extra, terms)
      case Err(e) => Err(e)
      case Ok(_) =>
        if !(HasText(extra, "invoice") && extra["invoice"].text != "") then Err(InvoiceMissing)
        else
          match Decode(ext.parseInvoice, extra["invoice"].text)
          case Err(e) => Err(e)
          case Ok(invoice) =>
            match CheckInvoice(invoice, terms, now)
            case Err(e) => Err(e)
            case Ok(_) =>
              match CheckPreimage(ext, payload.payload, invoice.paymentHash)
              case Err(e) => Err(e)
              case Ok(_) =>
                var lastValid := LastValid(invoice.created, invoice.expiry, terms.clockSkewSecs);
                if now > lastValid then Err(InvoiceExpired)
                else Ok(Proof(invoice.paymentHash, SatAdd(lastValid, REPLAY_RETENTION_SECS)))
  }

  function ReplayKey(n: Network, paymentHash: Hash32): string {
    Caip2(n) + ":" + Hex.Encode(paymentHash)
  }

  datatype SettleError = Rejected(reason: ErrorReason) | StoreFailure

  /** What `settle` answers, given the verdict on the payload and the table of consumed keys. */
  function SettleAnswer(table: Table, n: Network, verdict: Result<Proof, ErrorReason>, available: bool)
    : Result<string, SettleError>
  {
    match verdict
    case Err(reason) => Err(Rejected(reason))
    case Ok(proof) =>
      if !available then Err(StoreFailure)
      else if ReplayKey(n, proof.paymentHash) in table then Err(Rejected(DuplicateSettlement))
      else Ok(Hex.Encode(proof.paymentHash))
  }

  /** Validates `payload` and consumes its payment hash; no refusal changes the store. */
  method Settle(ext: Externals, store: ReplayStore, payload: PaymentPayload, terms: Terms, now: U64, available: bool)
    returns (r: Result<string, SettleError>)
    requires store.Valid()
    modifies store
    ensures store.Valid()
    ensures r == SettleAnswer(old(store.consumed), terms.network, Verify(ext, payload, terms, now), available)
    ensures r.Err? ==> store.consumed == old(store.consumed) && store.everConsumed == old(store.everConsumed)
    ensures r.Ok? ==>
              var proof := Verify(ext, payload, terms, now).value;
              var key := ReplayKey(terms.network, proof.paymentHash);
              && key !in old(store.consumed)
              && store.consumed == old(store.consumed)[key := SqlTime(proof.retainUntil)]
              && store.everConsumed == old(store.everConsumed) + {key}
  {
    var verdict := Verify(ext, payload, terms, now);
    if verdict.Err? {
      return Err(Rejected(verdict.error));
    }
    r := ConsumeProof(store, terms.network, verdict.value, available);
  }

  /** The second half of `settle`: the atomic consumption of a validated proof. */
  method ConsumeProof(store: ReplayStore, n: Network, proof: Proof, available: bool)
    returns (r: Result<string, SettleError>)
    requires store.Valid()
    modifies store
    ensures store.Valid()
    ensures r == SettleAnswer(old(store.consumed), n, Ok(proof), available)
    ensures r.Err? ==> store.consumed == old(store.consumed) && store.everConsumed == old(store.everConsumed)
    ensures r.Ok? ==>
              var key := ReplayKey(n, proof.paymentHash);
              && key !in old(store.consumed)
              && store.consumed == old(store.consumed)[key := SqlTime(proof.retainUntil)]
              && store.everConsumed == old(store.everConsumed) + {key}
  {
    var paymentHash := Hex.Encode(proof.paymentHash);
    var key := Caip2(n) + ":" + paymentHash;
    var inserted := store.Consume(key, proof.retainUntil, available);
    if inserted.None? {
      return Err(StoreFailure);
    }
    if inserted.value {
      return Ok(paymentHash);
    } else {
      assert old(store.everConsumed) + {key} == old(store.everConsumed);
      return Err(Rejected(DuplicateSettlement));
    }
  }
}
