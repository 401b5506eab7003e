/** Whatever the server offers can be redeemed, in any reachable state. */
module Redemption {
  import opened Wrappers
  import opened Words
  import opened Invoices
  import opened Replay
  import opened Lnbtc
  import opened RequestHash
  import opened Server
  import opened Safety
  import Acceptance
  import Binding
  import Hex

  // ----- Composing runs

  /** The first step of a run and the rest of it. */
  lemma LegalCons(ext: Externals, s: State, a: seq<Step>, b: seq<Step>)
    requires a != [] && Enabled(ext, s, a[0])
    ensures var t := Next(ext, s, a[0], true);
            && (Legal(ext, s, a + b) <==> Legal(ext, t, a[1..] + b))
            && (Legal(ext, s, a + b) ==> Exec(ext, s, a + b) == Exec(ext, t, a[1..] + b))
  {
    assert (a + b)[0] == a[0] && (a + b)[1..] == a[1..] + b;
  }

  lemma {:induction false} LegalAppend(ext: Externals, s: State, a: seq<Step>, b: seq<Step>)
    requires Legal(ext, s, a)
    ensures Legal(ext, s, a + b) <==> Legal(ext, Exec(ext, s, a), b)
    ensures Legal(ext, s, a + b) ==> Exec(ext, s, a + b) == Exec(ext, Exec(ext, s, a), b)
    decreases |a|
  {
    if a == [] {
      assert a + b == b;
    } else {
      LegalCons(ext, s, a, b);
      LegalAppend(ext, Next(ext, s, a[0], true), a[1..], b);
    }
  }

  lemma TimelyCons(ext: Externals, s: State, a: seq<Step>, b: seq<Step>, margin: int)
    requires a != [] && Enabled(ext, s, a[0])
    ensures Timely(ext, s, a + b, margin) <==>
            TimelyStep(s, a[0], margin) && Timely(ext, Next(ext, s, a[0], true), a[1..] + b, margin)
  {
    assert (a + b)[0] == a[0] && (a + b)[1..] == a[1..] + b;
  }

  lemma {:induction false} TimelyAppend(ext: Externals, s: State, a: seq<Step>, b: seq<Step>, margin: int)
    requires Legal(ext, s, a)
    ensures Timely(ext, s, a + b, margin) <==>
            Timely(ext, s, a, margin) && Timely(ext, Exec(ext, s, a), b, margin)
    decreases |a|
  {
    if a == [] {
      assert a + b == b;
    } else {
      TimelyCons(ext, s, a, b, margin);
      TimelyAppend(ext, Next(ext, s, a[0], true), a[1..], b, margin);
    }
  }

  lemma OneStep(ext: Externals, s: State, step: Step, margin: int)
    requires Enabled(ext, s, step)
    ensures Legal(ext, s, [step]) && Exec(ext, s, [step]) == Next(ext, s, step, true)
    ensures Timely(ext, s, [step], margin) <==> TimelyStep(s, step, margin)
  {
    assert [step][1..] == [];
    assert Legal(ext, Next(ext, s, step, true), []);
  }

  lemma TwoSteps(ext: Externals, s: State, first: Step, second: Step, margin: int)
    requires Enabled(ext, s, first) && Enabled(ext, Next(ext, s, first, true), second)
    ensures Legal(ext, s, [first, second])
    ensures Exec(ext, s, [first, second]) == Next(ext, Next(ext, s, first, true), second, true)
    ensures Timely(ext, s, [first, second], margin) <==>
            TimelyStep(s, first, margin) && TimelyStep(Next(ext, s, first, true), second, margin)
  {
    OneStep(ext, Next(ext, s, first, true), second, margin);
    assert [first, second][1..] == [second];
  }

  // ----- Redeeming an invoice

  /** Everything a client needs to redeem the invoice `text` for the request `c` in state `s`. */
  ghost predicate CanRedeem(ext: Externals, s: State, request: Request, c: Commitment,
                            text: string, invoice: Invoice, preimage: Hash32) {
    && CommitmentOf(s.process.config, request) == Some(c)
    && Binding.CanonicalNames(s.process.config.boundHeaders)
    && text != ""
    && Decode(ext.parseInvoice, text) == Ok(invoice)
    && Acceptance.Matches(invoice, TermsFor(ext, s.process.config, c))
    && ext.sha256(preimage) == invoice.paymentHash
    && preimage in s.node.known
    && invoice.paymentHash in s.node.issued
    && s.node.issued[invoice.paymentHash].invoice == invoice
  }

  function RedeemSteps(request: Request, terms: Terms, text: string, preimage: Hash32, now: U64, id: nat): seq<Step> {
    [VerifyRead(request, Acceptance.Answer(Requirements(terms, text), preimage), now), Consume(id)]
  }

  /** The request under way: what verification leaves behind. */
  ghost function InFlight(ext: Externals, s: State, c: Commitment, invoice: Invoice, now: U64): Pending {
    var terms := TermsFor(ext, s.process.config, c);
    var retainUntil := RetainUntil(invoice.created, invoice.expiry, terms.clockSkewSecs);
    Pending(c, terms, Proof(invoice.paymentHash, retainUntil), now)
  }

  lemma RedeemEnabled(ext: Externals, s: State, request: Request, c: Commitment, text: string, invoice: Invoice,
                      preimage: Hash32, now: U64)
    requires CanRedeem(ext, s, request, c, text, invoice, preimage)
    ensures Enabled(ext, s, RedeemSteps(request, TermsFor(ext, s.process.config, c), text, preimage, now, 0)[0])
  {
    Acceptance.OwnExtra(TermsFor(ext, s.process.config, c), text);
    Hex.DecodeEncode(preimage);
  }

  lemma RedeemVerdict(ext: Externals, s: State, request: Request, c: Commitment, text: string, invoice: Invoice,
                      preimage: Hash32, now: U64)
    requires CanRedeem(ext, s, request, c, text, invoice, preimage)
    requires Acceptance.InWindow(invoice, s.process.config.clockSkewSecs, now)
    ensures var terms := TermsFor(ext, s.process.config, c);
            Verify(ext, Acceptance.Answer(Requirements(terms, text), preimage), terms, now) ==
            Ok(InFlight(ext, s, c, invoice, now).proof)
  {
    var terms := TermsFor(ext, s.process.config, c);
    var payload := Acceptance.Answer(Requirements(terms, text), preimage);
    Binding.CanonicalParamsForm(terms.bindingParams);
    assert Acceptance.Redeems(ext, payload, terms, now, text, invoice, preimage);
    Acceptance.RedemptionAccepted(ext, payload, terms, now, text, invoice, preimage);
  }

  lemma NextVerify(ext: Externals, s: State, request: Request, c: Commitment, payload: PaymentPayload, now: U64,
                   verdict: Result<Proof, ErrorReason>)
    requires Enabled(ext, s, VerifyRead(request, payload, now)) && CommitmentOf(s.process.config, request) == Some(c)
    requires Verify(ext, payload, TermsFor(ext, s.process.config, c), now) == verdict
    ensures Next(ext, s, VerifyRead(request, payload, now), true) ==
            AfterVerify(s, c, TermsFor(ext, s.process.config, c), now, verdict)
  {
  }

  lemma Verified(ext: Externals, s: State, request: Request, c: Commitment, text: string, invoice: Invoice,
                 preimage: Hash32, now: U64)
    requires CanRedeem(ext, s, request, c, text, invoice, preimage)
    requires Acceptance.InWindow(invoice, s.process.config.clockSkewSecs, now)
    ensures var step := RedeemSteps(request, TermsFor(ext, s.process.config, c), text, preimage, now, 0)[0];
            && Enabled(ext, s, step)
            && Next(ext, s, step, true) ==
               s.(process := s.process.(
                    pending := s.process.pending[s.process.nextId := InFlight(ext, s, c, invoice, now)],
                    nextId := s.process.nextId + 1))
  {
    RedeemEnabled(ext, s, request, c, text, invoice, preimage, now);
    RedeemVerdict(ext, s, request, c, text, invoice, preimage, now);
    var terms := TermsFor(ext, s.process.config, c);
    var p := InFlight(ext, s, c, invoice, now);
    NextVerify(ext, s, request, c, Acceptance.Answer(Requirements(terms, text), preimage), now, Ok(p.proof));
  }

  /** Verification and consumption, one after the other: a sale unless the key is in the table. */
  lemma RedeemRun(ext: Externals, s: State, request: Request, c: Commitment, text: string, invoice: Invoice,
                  preimage: Hash32, now: U64, margin: int)
    requires CanRedeem(ext, s, request, c, text, invoice, preimage)
    requires Acceptance.InWindow(invoice, s.process.config.clockSkewSecs, now)
    ensures var terms := TermsFor(ext, s.process.config, c);
            var id, p := s.process.nextId, InFlight(ext, s, c, invoice, now);
            var steps := RedeemSteps(request, terms, text, preimage, now, id);
            var flying := s.(process := s.process.(pending := s.process.pending[id := p], nextId := id + 1));
            && Legal(ext, s, steps)
            && Exec(ext, s, steps) == Consumed(flying, id)
            && (Timely(ext, s, steps, margin) <==> TimelyStep(flying, Consume(id), margin))
  {
    Verified(ext, s, request, c, text, invoice, preimage, now);
    var steps := RedeemSteps(request, TermsFor(ext, s.process.config, c), text, preimage, now, s.process.nextId);
    TwoSteps(ext, s, steps[0], steps[1], margin);
    assert steps == [steps[0], steps[1]];
  }

  /**
    `offer` is answered for its request, its invoice paid, while the server's
    terms are still those of the offer, at a time in the window.
  */
  ghost predicate Answered(ext: Externals, s: State, offer: Offer, request: Request, c: Commitment,
                           invoice: Invoice, now: U64) {
    && offer in s.node.offers && offer.text != ""
    && CommitmentOf(s.process.config, request) == Some(c)
    && TermsFor(ext, s.process.config, c) == offer.terms
    && Decode(ext.parseInvoice, offer.text) == Ok(invoice)
    && Paid(s, invoice.paymentHash)
    && Acceptance.InWindow(invoice, offer.terms.clockSkewSecs, now)
  }

  ghost predicate Unsold(s: State, hash: Hash32) {
    forall i :: 0 <= i < |s.ledger.settled| ==> s.ledger.settled[i].hash != hash
  }

  /** Redeeming can go ahead, and sells unless the key is in the table, where unsold hashes never are. */
  ghost predicate Redeemable(ext: Externals, s: State, offer: Offer, request: Request, c: Commitment,
                             hash: Hash32, now: U64) {
    && hash in s.node.issued
    && var steps := RedeemSteps(request, offer.terms, offer.text, s.node.issued[hash].preimage, now, s.process.nextId);
       var key := ReplayKey(offer.terms.network, hash);
       && Legal(ext, s, steps)
       && (Unsold(s, hash) ==> key !in s.store.table)
       && Exec(ext, s, steps).ledger ==
          if key in s.store.table then s.ledger.(log := s.ledger.log + [Duplicate(key)])
          else s.ledger.(settled := s.ledger.settled + [Settlement(c, offer.terms, hash)],
                         log := s.ledger.log + [Sold(key)])
  }

  /** In every reachable state, every offer can be redeemed. */
  lemma OfferRedeemable(ext: Externals, config: Config, steps: seq<Step>, offer: Offer, request: Request,
                        c: Commitment, invoice: Invoice, now: U64)
    requires Binding.CanonicalNames(config.boundHeaders) && Legal(ext, Init(config), steps)
    requires Answered(ext, Exec(ext, Init(config), steps), offer, request, c, invoice, now)
    ensures Redeemable(ext, Exec(ext, Init(config), steps), offer, request, c, invoice.paymentHash, now)
  {
    InitInv(ext, config);
    RunInv(ext, Init(config), steps);
    RedeemOffer(ext, Exec(ext, Init(config), steps), offer, request, c, invoice, now);
  }

  lemma OfferCanRedeem(ext: Externals, s: State, offer: Offer, request: Request, c: Commitment,
                       invoice: Invoice, now: U64)
    requires Inv(ext, s) && Answered(ext, s, offer, request, c, invoice, now)
    ensures invoice.paymentHash in s.node.issued
    ensures CanRedeem(ext, s, request, c, offer.text, invoice, s.node.issued[invoice.paymentHash].preimage)
  {
    assert OfferSound(ext, s, offer);
    var at: U64 :| CheckIssued(ext, offer.text, offer.terms, at).Ok?;
    Acceptance.InvoiceMatches(invoice, offer.terms, at);
  }

  lemma RedeemOffer(ext: Externals, s: State, offer: Offer, request: Request, c: Commitment, invoice: Invoice, now: U64)
    requires Inv(ext, s) && Answered(ext, s, offer, request, c, invoice, now)
    ensures Redeemable(ext, s, offer, request, c, invoice.paymentHash, now)
  {
    OfferCanRedeem(ext, s, offer, request, c, invoice, now);
    RedeemRun(ext, s, request, c, offer.text, invoice, s.node.issued[invoice.paymentHash].preimage, now, 0);
    UnsoldKey(s, offer.terms.network, invoice.paymentHash);
  }

  lemma UnsoldKey(s: State, n: Network, hash: Hash32)
    requires StoreInv(s) && HistoryInv(s)
    ensures Unsold(s, hash) ==> ReplayKey(n, hash) !in s.store.table
  {
    var key := ReplayKey(n, hash);
    if key in s.store.history {
      assert KeyInv(s, key) && SettledKey(s, key);
      var ins := s.store.history[key];
      var m :| NetworkCurrency(m) == s.node.issued[ins.hash].invoice.currency && key == ReplayKey(m, ins.hash);
      Acceptance.ReplayKeyInjective(m, ins.hash, n, hash);
    }
  }
}
