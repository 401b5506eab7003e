/** The two routes do not mix, and a payment only buys the request it was made for. */
module Isolation {
  import opened Wrappers
  import opened Words
  import opened Invoices
  import opened Lnbtc
  import opened RequestHash
  import opened Server
  import opened Safety
  import Acceptance
  import Binding
  import Json
  import L402

  /** Each route only ever deals in invoices of its own. */
  ghost predicate RoutesApart(s: State) {
    && (forall h :: h in s.node.minted ==> h in s.node.issued && s.node.issued[h].origin.ForL402?)
    && (forall i :: 0 <= i < |s.ledger.settled| ==>
          s.ledger.settled[i].hash in s.node.issued && s.node.issued[s.ledger.settled[i].hash].origin.ForX402?)
    && (forall j :: 0 <= j < |s.ledger.l402Served| ==> s.ledger.l402Served[j] in s.node.minted)
    && (forall i, j :: 0 <= i < |s.ledger.settled| && 0 <= j < |s.ledger.l402Served| ==>
          s.ledger.settled[i].hash != s.ledger.l402Served[j])
  }

  lemma InvApart(ext: Externals, s: State)
    requires Inv(ext, s)
    ensures RoutesApart(s)
  {
    forall i | 0 <= i < |s.ledger.settled|
      ensures s.ledger.settled[i].hash in s.node.issued && s.node.issued[s.ledger.settled[i].hash].origin.ForX402?
    {
      assert SettledInv(ext, s, s.ledger.settled[i]);
    }
  }

  /** In every reachable state. */
  lemma RoutesIsolated(ext: Externals, config: Config, steps: seq<Step>)
    requires Binding.CanonicalNames(config.boundHeaders) && Legal(ext, Init(config), steps)
    ensures RoutesApart(Exec(ext, Init(config), steps))
  {
    InitInv(ext, config);
    RunInv(ext, Init(config), steps);
    InvApart(ext, Exec(ext, Init(config), steps));
  }

  /** An invoice with an inline memo never settles on `/x402`, for any request and by any payload. */
  lemma MemoInvoiceRefused(ext: Externals, payload: PaymentPayload, terms: Terms, text: string, now: U64)
    requires Binding.CanonicalParams(terms.bindingParams)
    requires Has(payload.accepted.extra, "invoice", Json.String(text)) && HasMemo(ext, text)
    ensures Verify(ext, payload, terms, now).Err?
    ensures text != "" && Decode(ext.parseInvoice, text).Ok? && Acceptance.Echoes(payload.accepted, terms, text)
            ==> Verify(ext, payload, terms, now) == Err(InvoiceDescription)
  {
    if Decode(ext.parseInvoice, text).Ok? {
      MemoCommitsToNothing(ext, text);
    }
    Acceptance.CheckExtraEchoes(payload.accepted, terms, text);
  }

  /** Nor does any text that reads as an invoice issued on `/fortune`: it commits to no request. */
  lemma L402InvoiceRefused(ext: Externals, s: State, c: Commitment, payload: PaymentPayload, text: string,
                           invoice: Invoice, now: U64)
    requires NodeInv(ext, s) && Binding.CanonicalNames(s.process.config.boundHeaders)
    requires Has(payload.accepted.extra, "invoice", Json.String(text))
    requires Decode(ext.parseInvoice, text) == Ok(invoice)
    requires invoice.paymentHash in s.node.issued
    requires s.node.issued[invoice.paymentHash].invoice == invoice
    requires s.node.issued[invoice.paymentHash].origin == ForL402
    ensures var terms := TermsFor(ext, s.process.config, c);
            && Verify(ext, payload, terms, now).Err?
            && (text != "" && Acceptance.Echoes(payload.accepted, terms, text)
                ==> Verify(ext, payload, terms, now) == Err(InvoiceDescription))
  {
    var terms := TermsFor(ext, s.process.config, c);
    Binding.CanonicalParamsForm(terms.bindingParams);
    Acceptance.CheckExtraEchoes(payload.accepted, terms, text);
  }

  /** A preimage bought on `/x402` never passes on `/fortune`: no token was minted for its hash. */
  lemma X402PreimageRefused(ext: Externals, s: State, c: L402.Credentials)
    requires NodeInv(ext, s) && TokenInv(s) && PresentsMinted(ext, s, c)
    requires ext.sha256(c.preimage) in s.node.issued && s.node.issued[ext.sha256(c.preimage)].origin.ForX402?
    ensures L402.VerifyL402(ext.sha256, ext.hmac, s.process.config.rootKey, c.tokenText, c.preimage).Err?
  {
  }

  /** Every settlement is for the request its invoice was issued for, unless the hash collides on them. */
  ghost predicate BoundToRequest(ext: Externals, s: State, x: Settlement) {
    && x.hash in s.node.issued
    && s.node.issued[x.hash].origin.ForX402?
    && var asked := s.node.issued[x.hash].origin.commitment;
       InjectiveOn(ext.sha256, HashInputs(ext.sha256, asked) + HashInputs(ext.sha256, x.commitment))
       ==> asked == x.commitment
  }

  lemma SettlementBound(ext: Externals, s: State, x: Settlement)
    requires NodeInv(ext, s) && SettledInv(ext, s, x)
    ensures BoundToRequest(ext, s, x)
  {
    var asked := s.node.issued[x.hash].origin.commitment;
    if InjectiveOn(ext.sha256, HashInputs(ext.sha256, asked) + HashInputs(ext.sha256, x.commitment)) {
      HashBinds(ext.sha256, asked, x.commitment);
    }
  }

  /** Over every run, whatever the clocks: a payment buys only the request it was made for. */
  lemma PaymentsBoundToRequests(ext: Externals, config: Config, steps: seq<Step>)
    requires Binding.CanonicalNames(config.boundHeaders) && Legal(ext, Init(config), steps)
    ensures var s := Exec(ext, Init(config), steps);
            forall i :: 0 <= i < |s.ledger.settled| ==> BoundToRequest(ext, s, s.ledger.settled[i])
  {
    InitInv(ext, config);
    RunInv(ext, Init(config), steps);
    var s := Exec(ext, Init(config), steps);
    forall i | 0 <= i < |s.ledger.settled|
      ensures BoundToRequest(ext, s, s.ledger.settled[i])
    {
      SettlementBound(ext, s, s.ledger.settled[i]);
    }
  }

  /** What a request commits to: its own method, public URL and body, and every bound header. */
  lemma CommitmentSays(config: Config, request: Request)
    requires CommitmentOf(config, request).Some?
    ensures var c := CommitmentOf(config, request).value;
            && c.verb == request.verb && c.url == config.publicUrl + request.path && c.body == request.body
            && |c.headers| == |config.boundHeaders|
            && forall i :: 0 <= i < |c.headers| ==>
                 && c.headers[i].name == config.boundHeaders[i]
                 && Binding.HeaderInput(Binding.Lines(request.headers, config.boundHeaders[i])) ==
                    Some(c.headers[i].input)
  {
    var c := CommitmentOf(config, request).value;
    BindHeadersMeaning(config.boundHeaders, request.headers, c.headers);
  }

  /**
    Two requests served under the same configuration from one payment hash's
    invoice agree in method, path, body and in every bound header.
  */
  lemma SameRequest(config: Config, a: Request, b: Request)
    requires CommitmentOf(config, a).Some? && CommitmentOf(config, a) == CommitmentOf(config, b)
    ensures a.verb == b.verb && a.path == b.path && a.body == b.body
    ensures forall name :: name in config.boundHeaders ==>
              && (Binding.Lines(a.headers, name) == [] <==> Binding.Lines(b.headers, name) == [])
              && Binding.Combined(Binding.Lines(a.headers, name)) == Binding.Combined(Binding.Lines(b.headers, name))
  {
    EqualHeaders(config.boundHeaders, a.headers, b.headers);
    assert a.path == (config.publicUrl + a.path)[|config.publicUrl|..];
    assert b.path == (config.publicUrl + b.path)[|config.publicUrl|..];
  }
}
