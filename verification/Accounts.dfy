/**
  What a run leaves behind, read off its steps: every payment, request, token
  and fortune is accounted for, none is dropped and none made up.
*/
module Accounts {
  import opened Wrappers
  import opened Words
  import opened Invoices
  import opened Lnbtc
  import opened Replay
  import opened RequestHash
  import opened Server
  import opened Safety
  import Acceptance
  import Binding
  import Handlers
  import Interleaving
  import L402
  import Redemption
  import Tokens

  // ----- Fortunes

  function Responses(steps: seq<Step>): nat {
    if steps == [] then 0 else (if steps[0].Respond? then 1 else 0) + Responses(steps[1..])
  }

  /** The sales whose response a restart cuts off. */
  ghost function LostBy(s: State, step: Step): set<nat> {
    if step.Restart? then s.process.responding else {}
  }

  ghost function Lost(ext: Externals, s: State, steps: seq<Step>): set<nat>
    requires Legal(ext, s, steps)
    decreases |steps|
  {
    if steps == [] then {} else LostBy(s, steps[0]) + Lost(ext, Next(ext, s, steps[0], true), steps[1..])
  }

  /** The first `n` numbers are divided among the three sets. */
  ghost predicate Divided(n: nat, a: set<nat>, b: set<nat>, c: set<nat>) {
    (forall i: nat :: i < n <==> i in a || i in b || i in c) && a !! b && a !! c && b !! c
  }

  lemma DividedMore(n: nat, a: set<nat>, b: set<nat>, c: set<nat>)
    requires Divided(n, a, b, c)
    ensures Divided(n + 1, a + {n}, b, c)
  {
    assert n !in a && n !in b && n !in c;
  }

  lemma DividedMoved(n: nat, a: set<nat>, b: set<nat>, c: set<nat>, i: nat)
    requires Divided(n, a, b, c) && i in a
    ensures Divided(n, a - {i}, b + {i}, c) && |b + {i}| == |b| + 1
  {
    assert i !in b;
  }

  /** Every sale is either on its way, handed out or lost, and only one of them. */
  ghost predicate Partition(s: State, lost: set<nat>) {
    Divided(|s.ledger.settled|, s.process.responding, s.ledger.dispensed, lost)
  }

  lemma SaleKept(s: State, id: nat, lost: set<nat>)
    requires id in s.process.pending && Partition(s, lost)
    ensures Partition(Consumed(s, id), lost)
    ensures Consumed(s, id).ledger.dispensed == s.ledger.dispensed
  {
    DividedMore(|s.ledger.settled|, s.process.responding, s.ledger.dispensed, lost);
  }

  lemma PartitionKept(ext: Externals, s: State, step: Step, lost: set<nat>)
    requires Enabled(ext, s, step) && Partition(s, lost)
    ensures Partition(Next(ext, s, step, true), lost + LostBy(s, step))
    ensures |Next(ext, s, step, true).ledger.dispensed| == |s.ledger.dispensed| + (if step.Respond? then 1 else 0)
  {
    if step.Consume? {
      SaleKept(s, step.id, lost);
    } else if step.Respond? {
      DividedMoved(|s.ledger.settled|, s.process.responding, s.ledger.dispensed, lost, step.index);
    } else {
      OtherStep(ext, s, step);
    }
    assert !step.Restart? ==> lost + LostBy(s, step) == lost;
  }

  lemma OtherStep(ext: Externals, s: State, step: Step)
    requires Enabled(ext, s, step) && !step.Consume? && !step.Respond?
    ensures var t := Next(ext, s, step, true);
            && t.ledger.settled == s.ledger.settled && t.ledger.dispensed == s.ledger.dispensed
            && t.process.responding == s.process.responding - LostBy(s, step)
  {
  }

  lemma {:induction false} RunPartition(ext: Externals, s: State, steps: seq<Step>, lost: set<nat>)
    requires Legal(ext, s, steps) && Partition(s, lost)
    ensures Partition(Exec(ext, s, steps), lost + Lost(ext, s, steps))
    ensures |Exec(ext, s, steps).ledger.dispensed| == |s.ledger.dispensed| + Responses(steps)
    decreases |steps|
  {
    if steps == [] {
      assert lost + {} == lost;
    } else {
      var t, now := Next(ext, s, steps[0], true), LostBy(s, steps[0]);
      PartitionKept(ext, s, steps[0], lost);
      RunPartition(ext, t, steps[1..], lost + now);
      assert lost + now + Lost(ext, t, steps[1..]) == lost + (now + Lost(ext, t, steps[1..]));
    }
  }

  /**
    Over every run: as many fortunes were handed out as responses left the
    server, and every sale is on its way, handed out, or was cut off by a restart.
  */
  lemma FortunesAccountedFor(ext: Externals, config: Config, steps: seq<Step>)
    requires Legal(ext, Init(config), steps)
    ensures var s := Exec(ext, Init(config), steps);
            && |s.ledger.dispensed| == Responses(steps)
            && Partition(s, Lost(ext, Init(config), steps))
  {
    RunPartition(ext, Init(config), steps, {});
    assert {} + Lost(ext, Init(config), steps) == Lost(ext, Init(config), steps);
  }

  // ----- Payments

  function PaymentsIn(steps: seq<Step>): seq<Payment> {
    if steps == [] then []
    else (if steps[0].Pay? then [Payment(steps[0].hash, steps[0].msat)] else []) + PaymentsIn(steps[1..])
  }

  lemma PaymentStep(ext: Externals, s: State, step: Step)
    requires Enabled(ext, s, step)
    ensures Next(ext, s, step, true).node.payments ==
            s.node.payments + (if step.Pay? then [Payment(step.hash, step.msat)] else [])
  {
    Untouched(ext, s, step);
  }

  /** The payments on record are those of the run, in order and with their amounts. */
  lemma {:induction false} PaymentsRecorded(ext: Externals, s: State, steps: seq<Step>)
    requires Legal(ext, s, steps)
    ensures Exec(ext, s, steps).node.payments == s.node.payments + PaymentsIn(steps)
    decreases |steps|
  {
    if steps != [] {
      PaymentStep(ext, s, steps[0]);
      PaymentsRecorded(ext, Next(ext, s, steps[0], true), steps[1..]);
      PaymentsCons(s.node.payments, steps);
    }
  }

  lemma PaymentsCons(payments: seq<Payment>, steps: seq<Step>)
    requires steps != []
    ensures var now := if steps[0].Pay? then [Payment(steps[0].hash, steps[0].msat)] else [];
            payments + now + PaymentsIn(steps[1..]) == payments + PaymentsIn(steps)
  {
  }

  // ----- Requests

  function Requests(steps: seq<Step>): nat {
    if steps == [] then 0 else (if steps[0].VerifyRead? then 1 else 0) + Requests(steps[1..])
  }

  /** Verified requests that end without an outcome: the store failed, or a restart came in between. */
  ghost function DroppedBy(s: State, step: Step): nat {
    match step
    case StoreError(_) => 1
    case Restart(_) => |s.process.pending|
    case _ => 0
  }

  ghost function Dropped(ext: Externals, s: State, steps: seq<Step>): nat
    requires Legal(ext, s, steps)
    decreases |steps|
  {
    if steps == [] then 0 else DroppedBy(s, steps[0]) + Dropped(ext, Next(ext, s, steps[0], true), steps[1..])
  }

  function Sales(log: seq<Outcome>): nat {
    if log == [] then 0 else Sales(log[..|log| - 1]) + (if log[|log| - 1].Sold? then 1 else 0)
  }

  lemma WithoutSize(pending: map<nat, Pending>, id: nat)
    requires id in pending
    ensures |Without(pending, id)| == |pending| - 1
  {
    assert Without(pending, id).Keys == pending.Keys - {id};
    assert |pending.Keys - {id}| == |pending.Keys| - 1;
  }

  lemma SalesSnoc(log: seq<Outcome>, x: Outcome)
    ensures Sales(log + [x]) == Sales(log) + (if x.Sold? then 1 else 0)
  {
    assert (log + [x])[..|log|] == log;
  }

  /** Outcomes and sales so far, and the requests still under way, after one step. */
  ghost predicate Answers(s: State, t: State, arrived: nat, dropped: nat) {
    && |s.process.pending| + |s.ledger.log| + arrived == |t.process.pending| + |t.ledger.log| + dropped
    && Sales(t.ledger.log) + |s.ledger.settled| == Sales(s.ledger.log) + |t.ledger.settled|
  }

  lemma ConsumeAnswers(s: State, id: nat)
    requires id in s.process.pending
    ensures Answers(s, Consumed(s, id), 0, 0)
  {
    var key := KeyOf(s.process.pending[id]);
    WithoutSize(s.process.pending, id);
    SalesSnoc(s.ledger.log, if key in s.store.table then Duplicate(key) else Sold(key));
  }

  lemma VerifyAnswers(s: State, c: Commitment, terms: Terms, now: U64, verdict: Result<Proof, ErrorReason>)
    requires Interleaving.FreshIds(s)
    ensures Answers(s, AfterVerify(s, c, terms, now, verdict), 1, 0)
  {
    match verdict
    case Ok(_) => assert s.process.nextId !in s.process.pending;
    case Err(reason) => SalesSnoc(s.ledger.log, Refused(reason));
  }

  lemma StepAnswers(ext: Externals, s: State, step: Step)
    requires Enabled(ext, s, step) && Interleaving.FreshIds(s)
    ensures Answers(s, Next(ext, s, step, true), if step.VerifyRead? then 1 else 0, DroppedBy(s, step))
    ensures Interleaving.FreshIds(Next(ext, s, step, true))
  {
    Interleaving.NextFreshIds(ext, s, step);
    if step.Consume? {
      ConsumeAnswers(s, step.id);
    } else if step.VerifyRead? {
      var c := CommitmentOf(s.process.config, step.request).value;
      var terms := TermsFor(ext, s.process.config, c);
      VerifyAnswers(s, c, terms, step.now, Verify(ext, step.payload, terms, step.now));
    } else if step.StoreError? {
      WithoutSize(s.process.pending, step.id);
    }
  }

  lemma AnswersTrans(s: State, t: State, u: State, a: nat, b: nat, m: nat, n: nat)
    requires Answers(s, t, a, m) && Answers(t, u, b, n)
    ensures Answers(s, u, a + b, m + n)
  {
  }

  lemma {:induction false} RunAnswers(ext: Externals, s: State, steps: seq<Step>)
    requires Legal(ext, s, steps) && Interleaving.FreshIds(s)
    ensures Answers(s, Exec(ext, s, steps), Requests(steps), Dropped(ext, s, steps))
    decreases |steps|
  {
    if steps != [] {
      var t, rest := Next(ext, s, steps[0], true), steps[1..];
      StepAnswers(ext, s, steps[0]);
      RunAnswers(ext, t, rest);
      AnswersTrans(s, t, Exec(ext, t, rest), if steps[0].VerifyRead? then 1 else 0, Requests(rest),
                   DroppedBy(s, steps[0]), Dropped(ext, t, rest));
    }
  }

  /**
    Over every run: each paid request has exactly one outcome on the log, is
    still under way, or was dropped by a store failure or a restart; and the
    sales on the log are the settlements.
  */
  lemma RequestsAccountedFor(ext: Externals, config: Config, steps: seq<Step>)
    requires Legal(ext, Init(config), steps)
    ensures var s := Exec(ext, Init(config), steps);
            && Requests(steps) == |s.ledger.log| + |s.process.pending| + Dropped(ext, Init(config), steps)
            && Sales(s.ledger.log) == |s.ledger.settled|
  {
    RunAnswers(ext, Init(config), steps);
  }

  // ----- Invoices, offers, tokens and preimages

  /** What one step adds to the node's records and to what clients know. */
  datatype Gains = Gains(issued: set<Hash32>, minted: set<Hash32>, offers: set<Offer>, known: set<Bytes>)

  ghost function GainsOf(ext: Externals, s: State, step: Step): Gains
    requires Enabled(ext, s, step)
  {
    match step
    case Challenge(request, text, preimage, now) =>
      var terms := TermsFor(ext, s.process.config, CommitmentOf(s.process.config, request).value);
      Gains({ext.sha256(preimage)}, {}, if CheckIssued(ext, text, terms, now).Ok? then {Offer(terms, text)} else {}, {})
    case MintToken(_, preimage) => Gains({ext.sha256(preimage)}, {ext.sha256(preimage)}, {}, {})
    case Pay(hash, _) => Gains({}, {}, {}, {s.node.issued[hash].preimage})
    case Learn(bytes) => Gains({}, {}, {}, {bytes})
    case _ => Gains({}, {}, {}, {})
  }

  function Plus(a: Gains, b: Gains): Gains {
    Gains(a.issued + b.issued, a.minted + b.minted, a.offers + b.offers, a.known + b.known)
  }

  ghost function GainsIn(ext: Externals, s: State, steps: seq<Step>): Gains
    requires Legal(ext, s, steps)
    decreases |steps|
  {
    if steps == [] then Gains({}, {}, {}, {})
    else Plus(GainsOf(ext, s, steps[0]), GainsIn(ext, Next(ext, s, steps[0], true), steps[1..]))
  }

  /** What the node and the clients have. */
  function Holdings(node: Node): Gains {
    Gains(node.issued.Keys, node.minted, node.offers, node.known)
  }

  lemma StepGains(ext: Externals, s: State, step: Step)
    requires Enabled(ext, s, step)
    ensures Holdings(Next(ext, s, step, true).node) == Plus(Holdings(s.node), GainsOf(ext, s, step))
  {
    Untouched(ext, s, step);
  }

  lemma PlusAssociative(a: Gains, b: Gains, c: Gains)
    ensures Plus(Plus(a, b), c) == Plus(a, Plus(b, c))
  {
  }

  /**
    Over every run: the invoices on record, the tokens' hashes, the offers and
    the preimages known to clients are those its steps brought, and no others.
  */
  lemma {:induction false} HoldingsAccountedFor(ext: Externals, s: State, steps: seq<Step>)
    requires Legal(ext, s, steps)
    ensures Holdings(Exec(ext, s, steps).node) == Plus(Holdings(s.node), GainsIn(ext, s, steps))
    decreases |steps|
  {
    if steps != [] {
      var t, rest := Next(ext, s, steps[0], true), steps[1..];
      StepGains(ext, s, steps[0]);
      HoldingsAccountedFor(ext, t, rest);
      PlusAssociative(Holdings(s.node), GainsOf(ext, s, steps[0]), GainsIn(ext, t, rest));
    }
  }

  // ----- Requests that succeed

  /** A verified request waits with its own terms, reading and proof; a refused one leaves only its reason. */
  lemma VerifyEffect(ext: Externals, s: State, step: Step)
    requires Enabled(ext, s, step) && step.VerifyRead?
    ensures var c := CommitmentOf(s.process.config, step.request).value;
            var terms := TermsFor(ext, s.process.config, c);
            var t, verdict := Next(ext, s, step, true), Verify(ext, step.payload, terms, step.now);
            && t.node == s.node && t.store == s.store
            && (verdict.Ok? ==>
                  && t.process.pending ==
                     s.process.pending[s.process.nextId := Pending(c, terms, verdict.value, step.now)]
                  && t.process.nextId == s.process.nextId + 1 && t.ledger == s.ledger)
            && (forall reason :: Acceptance.Breaks(ext, step.payload, terms, step.now, reason) ==>
                  t == s.(ledger := s.ledger.(log := s.ledger.log + [Refused(reason)])))
  {
    var terms := TermsFor(ext, s.process.config, CommitmentOf(s.process.config, step.request).value);
    forall reason | Acceptance.Breaks(ext, step.payload, terms, step.now, reason)
      ensures Verify(ext, step.payload, terms, step.now) == Err(reason)
    {
      Acceptance.RefusedExactly(ext, step.payload, terms, step.now, reason);
    }
  }

  /** The pruner's reading lasts until its deletion or failure; a restart drops everything but table and node. */
  lemma ProcessEffect(ext: Externals, s: State, step: Step)
    requires Enabled(ext, s, step)
    ensures var t := Next(ext, s, step, true);
            && (step.PruneRead? ==> t == s.(process := s.process.(pruneReading := Some(step.now))))
            && (step.PruneError? ==> t == s.(process := s.process.(pruneReading := None)))
            && (step.PruneDelete? ==>
                  && t.process == s.process.(pruneReading := None) && t.node == s.node && t.ledger == s.ledger
                  && t.store.table == Pruned(s.store.table, s.process.pruneReading.value))
            && (step.StoreError? ==>
                  && t.process.pending.Keys == s.process.pending.Keys - {step.id}
                  && t == s.(process := s.process.(pending := t.process.pending)))
            && (step.Restart? ==>
                  && t.process == Process(step.config, map[], s.process.nextId, None, {})
                  && t.node == s.node && t.store == s.store && t.ledger == s.ledger)
  {
  }

  /** After the two steps of an unsold offer its fortune can leave, and leaves as that sale's. */
  ghost predicate Deliverable(ext: Externals, s: State, offer: Offer, request: Request, c: Commitment,
                              hash: Hash32, now: U64) {
    && hash in s.node.issued
    && var preimage, sale := s.node.issued[hash].preimage, |s.ledger.settled|;
       var redeem := Redemption.RedeemSteps(request, offer.terms, offer.text, preimage, now, s.process.nextId);
       && Legal(ext, s, redeem)
       && var t := Exec(ext, s, redeem);
          && t.ledger.settled == s.ledger.settled + [Settlement(c, offer.terms, hash)]
          && Enabled(ext, t, Respond(sale))
          && Next(ext, t, Respond(sale), true).ledger == t.ledger.(dispensed := s.ledger.dispensed + {sale})
  }

  lemma RespondToSale(ext: Externals, s: State, id: nat)
    requires id in s.process.pending && KeyOf(s.process.pending[id]) !in s.store.table
    ensures var p, t, sale := s.process.pending[id], Consumed(s, id), |s.ledger.settled|;
            && t.ledger.settled == s.ledger.settled + [Settlement(p.commitment, p.terms, p.proof.paymentHash)]
            && Enabled(ext, t, Respond(sale))
            && Next(ext, t, Respond(sale), true).ledger == t.ledger.(dispensed := s.ledger.dispensed + {sale})
  {
  }

  lemma DeliverOffer(ext: Externals, s: State, offer: Offer, request: Request, c: Commitment,
                     invoice: Invoice, now: U64)
    requires Inv(ext, s) && Redemption.Answered(ext, s, offer, request, c, invoice, now)
    requires Redemption.Unsold(s, invoice.paymentHash)
    ensures Deliverable(ext, s, offer, request, c, invoice.paymentHash, now)
  {
    Redemption.OfferCanRedeem(ext, s, offer, request, c, invoice, now);
    var id, preimage := s.process.nextId, s.node.issued[invoice.paymentHash].preimage;
    Redemption.RedeemRun(ext, s, request, c, offer.text, invoice, preimage, now, 0);
    Redemption.UnsoldKey(s, offer.terms.network, invoice.paymentHash);
    var p := Redemption.InFlight(ext, s, c, invoice, now);
    RespondToSale(ext, s.(process := s.process.(pending := s.process.pending[id := p], nextId := id + 1)), id);
  }

  /** In every reachable state, every paid offer that was not sold yet gets its fortune. */
  lemma OfferDelivered(ext: Externals, config: Config, steps: seq<Step>, offer: Offer, request: Request,
                       c: Commitment, invoice: Invoice, now: U64)
    requires Binding.CanonicalNames(config.boundHeaders) && Legal(ext, Init(config), steps)
    requires Redemption.Answered(ext, Exec(ext, Init(config), steps), offer, request, c, invoice, now)
    requires Redemption.Unsold(Exec(ext, Init(config), steps), invoice.paymentHash)
    ensures Deliverable(ext, Exec(ext, Init(config), steps), offer, request, c, invoice.paymentHash, now)
  {
    InitInv(ext, config);
    RunInv(ext, Init(config), steps);
    DeliverOffer(ext, Exec(ext, Init(config), steps), offer, request, c, invoice, now);
  }

  /** Showing the token for `hash` and the preimage on `/fortune` is answered with a fortune. */
  ghost predicate Served(ext: Externals, s: State, hash: Hash32) {
    && hash in s.node.issued
    && var token := Tokens.Mint(ext.hmac, s.process.config.rootKey, hash);
       var step := Redeem(L402.Authorization(token, s.node.issued[hash].preimage));
       && Enabled(ext, s, step)
       && Next(ext, s, step, true) == s.(ledger := s.ledger.(l402Served := s.ledger.l402Served + [hash]))
  }

  /** In every reachable state, every paid invoice of `/fortune` gets a fortune, as often as its token is shown. */
  lemma TokenServed(ext: Externals, config: Config, steps: seq<Step>, hash: Hash32)
    requires Binding.CanonicalNames(config.boundHeaders) && Legal(ext, Init(config), steps)
    requires hash in Exec(ext, Init(config), steps).node.minted && Paid(Exec(ext, Init(config), steps), hash)
    ensures Served(ext, Exec(ext, Init(config), steps), hash)
  {
    InitInv(ext, config);
    RunInv(ext, Init(config), steps);
    ServeToken(ext, Exec(ext, Init(config), steps), hash);
  }

  lemma ServeToken(ext: Externals, s: State, hash: Hash32)
    requires Inv(ext, s) && hash in s.node.minted && Paid(s, hash)
    ensures Served(ext, s, hash)
  {
    var rootKey, preimage := s.process.config.rootKey, s.node.issued[hash].preimage;
    var token := Tokens.Mint(ext.hmac, rootKey, hash);
    L402.RoundTrip(ext.sha256, ext.hmac, rootKey, preimage);
    Tokens.WireFormBijection(Tokens.WireForm(token), token);
    ShowToken(ext, s, L402.Authorization(token, preimage), L402.Credentials(Tokens.WireForm(token), preimage));
  }

  lemma ShowToken(ext: Externals, s: State, header: string, c: L402.Credentials)
    requires L402.ParseAuthorization(header) == Ok(c) && c.preimage in s.node.known
    requires Tokens.Parsed(c.tokenText).Ok? && Tokens.Parsed(c.tokenText).value.paymentHash in s.node.minted
    requires L402.VerifyL402(ext.sha256, ext.hmac, s.process.config.rootKey, c.tokenText, c.preimage).Ok?
    ensures Enabled(ext, s, Redeem(header))
    ensures Next(ext, s, Redeem(header), true) ==
            s.(ledger := s.ledger.(l402Served := s.ledger.l402Served + [ext.sha256(c.preimage)]))
  {
  }

  /** A redemption on `/fortune` is served exactly when its header authorizes it, and changes nothing else. */
  lemma RedeemEffect(ext: Externals, s: State, header: string)
    requires Enabled(ext, s, Redeem(header))
    ensures var preimage := L402.ParseAuthorization(header).value.preimage;
            Next(ext, s, Redeem(header), true) ==
            if Handlers.Authorizes(ext, s.process.config.rootKey, header)
            then s.(ledger := s.ledger.(l402Served := s.ledger.l402Served + [ext.sha256(preimage)])) else s
  {
    Handlers.AuthorizesMeans(ext, s.process.config.rootKey, header);
  }

  /** Buying on `/fortune`: any invoice with a memo can be issued and paid there, and then its token is served. */
  lemma TokenBought(ext: Externals, config: Config, text: string, invoice: Invoice, preimage: Hash32, msat: nat)
    requires Binding.CanonicalNames(config.boundHeaders)
    requires HasMemo(ext, text) && Decode(ext.parseInvoice, text) == Ok(invoice)
    requires ext.sha256(preimage) == invoice.paymentHash
    requires invoice.amountMsat.Some? ==> invoice.amountMsat.value <= msat
    ensures exists steps ::
              && Legal(ext, Init(config), steps)
              && Served(ext, Exec(ext, Init(config), steps), invoice.paymentHash)
  {
    var mint, pay := MintToken(text, preimage), Pay(invoice.paymentHash, msat);
    assert Enabled(ext, Init(config), mint);
    var s := Next(ext, Init(config), mint, true);
    assert Enabled(ext, s, pay);
    Redemption.TwoSteps(ext, Init(config), mint, pay, 0);
    var t := Next(ext, s, pay, true);
    assert t.node.payments[0].hash == invoice.paymentHash;
    InitInv(ext, config);
    InvKept(ext, Init(config), mint);
    InvKept(ext, s, pay);
    ServeToken(ext, t, invoice.paymentHash);
  }
}
