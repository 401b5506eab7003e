/** Invariants of every run of the server, and what follows from them. */
module Safety {
  import opened Wrappers
  import opened Words
  import opened Invoices
  import opened Replay
  import opened Lnbtc
  import opened RequestHash
  import opened Server
  import Acceptance
  import Binding
  import Hex
  import L402

  // ----- Invariants

  /** The node's records, and who can know what. */
  ghost predicate NodeInv(ext: Externals, s: State) {
    && (forall h :: h in s.node.issued ==>
          s.node.issued[h].invoice.paymentHash == h && ext.sha256(s.node.issued[h].preimage) == h)
    && (forall h :: h in s.node.issued ==>
          s.node.issued[h].invoice.descriptionHash ==
            match s.node.issued[h].origin
            case ForX402(c) => Some(HashOf(ext.sha256, c))
            case ForL402 => None)
    && (forall x :: x in s.node.known && ext.sha256(x) in s.node.issued ==> Paid(s, ext.sha256(x)))
  }

  ghost predicate PaymentInv(s: State) {
    && (forall i :: 0 <= i < |s.node.payments| ==>
          && s.node.payments[i].hash in s.node.issued
          && (s.node.issued[s.node.payments[i].hash].invoice.amountMsat.Some? ==>
                s.node.issued[s.node.payments[i].hash].invoice.amountMsat.value <= s.node.payments[i].msat))
    && (forall i, j :: 0 <= i < j < |s.node.payments| ==> s.node.payments[i].hash != s.node.payments[j].hash)
  }

  ghost predicate TokenInv(s: State) {
    && (forall h :: h in s.node.minted ==> h in s.node.issued && s.node.issued[h].origin.ForL402?)
    && (forall i :: 0 <= i < |s.ledger.l402Served| ==>
          s.ledger.l402Served[i] in s.node.minted && Paid(s, s.ledger.l402Served[i]))
  }

  /** `hash` belongs to a paid invoice that is what `terms` ask for the request `c`. */
  ghost predicate Backed(ext: Externals, s: State, c: Commitment, terms: Terms, hash: Hash32) {
    && hash in s.node.issued
    && Paid(s, hash)
    && Acceptance.Matches(s.node.issued[hash].invoice, terms)
    && terms.requestHash == HashOf(ext.sha256, c)
  }

  ghost predicate PendingInv(ext: Externals, s: State, p: Pending) {
    && Backed(ext, s, p.commitment, p.terms, p.proof.paymentHash)
    && var invoice := s.node.issued[p.proof.paymentHash].invoice;
       && p.proof.retainUntil == RetainUntil(invoice.created, invoice.expiry, p.terms.clockSkewSecs)
       && Acceptance.InWindow(invoice, p.terms.clockSkewSecs, p.now)
  }

  ghost predicate FlightInv(ext: Externals, s: State) {
    forall id :: id in s.process.pending ==> PendingInv(ext, s, s.process.pending[id])
  }

  /** The true end of a key's retention, in unbounded integers. */
  function RetentionEnd(invoice: Invoice, skew: U64): int {
    invoice.created + invoice.expiry + skew + REPLAY_RETENTION_SECS
  }

  /** Some prune since the insertion removed the key. */
  predicate Forgotten(invoice: Invoice, ins: Insertion) {
    && ins.latestPrune.Some?
    && RetentionEnd(invoice, ins.skew) < ins.latestPrune.value
    && RetentionEnd(invoice, ins.skew) < I64_MAX
  }

  ghost predicate KeyInv(s: State, key: string) {
    && key in s.store.history
    && var ins := s.store.history[key];
       && ins.hash in s.node.issued
       && var invoice := s.node.issued[ins.hash].invoice;
          && (exists n :: NetworkCurrency(n) == invoice.currency && key == ReplayKey(n, ins.hash))
          && (key in s.store.table <==> !Forgotten(invoice, ins))
          && (key in s.store.table ==>
                s.store.table[key] == SqlTime(RetainUntil(invoice.created, invoice.expiry, ins.skew)))
  }

  /** Every key ever consumed: which of them are gone from the table, and what the others hold. */
  ghost predicate StoreInv(s: State) {
    && (forall key :: key in s.store.table ==> key in s.store.history)
    && (forall key :: key in s.store.history ==> KeyInv(s, key))
  }

  ghost predicate SettledInv(ext: Externals, s: State, x: Settlement) {
    && Backed(ext, s, x.commitment, x.terms, x.hash)
    && ReplayKey(x.terms.network, x.hash) in s.store.history
  }

  ghost predicate LogInv(ext: Externals, s: State) {
    && (forall i :: 0 <= i < |s.ledger.settled| ==> SettledInv(ext, s, s.ledger.settled[i]))
    && (forall i :: i in s.process.responding || i in s.ledger.dispensed ==> 0 <= i < |s.ledger.settled|)
    && s.process.responding !! s.ledger.dispensed
  }

  /** Every key ever inserted stands for a settlement. */
  ghost predicate HistoryInv(s: State) {
    forall key :: key in s.store.history ==> SettledKey(s, key)
  }

  ghost predicate SettledKey(s: State, key: string)
    requires key in s.store.history
  {
    exists i :: 0 <= i < |s.ledger.settled| && s.ledger.settled[i].hash == s.store.history[key].hash
  }

  /** Offers are for invoices on record that passed the check, and payers know what they paid for. */
  ghost predicate OfferInv(ext: Externals, s: State) {
    && (forall o :: o in s.node.offers ==> OfferSound(ext, s, o))
    && (forall h :: h in s.node.issued && Paid(s, h) ==> s.node.issued[h].preimage in s.node.known)
  }

  ghost predicate OfferSound(ext: Externals, s: State, o: Offer) {
    && (exists at: U64 :: CheckIssued(ext, o.text, o.terms, at).Ok?)
    && Decode(ext.parseInvoice, o.text).Ok?
    && var invoice := Decode(ext.parseInvoice, o.text).value;
       invoice.paymentHash in s.node.issued && s.node.issued[invoice.paymentHash].invoice == invoice
  }

  ghost predicate Inv(ext: Externals, s: State) {
    && Binding.CanonicalNames(s.process.config.boundHeaders)
    && NodeInv(ext, s) && PaymentInv(s) && TokenInv(s) && OfferInv(ext, s)
    && FlightInv(ext, s) && StoreInv(s) && HistoryInv(s) && LogInv(ext, s)
  }

  /** No payment hash has bought twice. */
  ghost predicate SoldOnce(s: State) {
    forall i, j :: 0 <= i < j < |s.ledger.settled| ==> s.ledger.settled[i].hash != s.ledger.settled[j].hash
  }

  // ----- Each step keeps them

  /** The node never forgets an invoice or a payment. */
  ghost predicate Extends(s: State, t: State) {
    && (forall h :: h in s.node.issued ==> h in t.node.issued && t.node.issued[h] == s.node.issued[h])
    && s.node.payments <= t.node.payments
  }

  lemma PaidExtends(s: State, t: State, hash: Hash32)
    requires Extends(s, t) && Paid(s, hash)
    ensures Paid(t, hash)
  {
    var i :| 0 <= i < |s.node.payments| && s.node.payments[i].hash == hash;
    assert t.node.payments[i].hash == hash;
  }

  lemma BackedExtends(ext: Externals, s: State, t: State, c: Commitment, terms: Terms, hash: Hash32)
    requires Extends(s, t) && Backed(ext, s, c, terms, hash)
    ensures Backed(ext, t, c, terms, hash)
  {
    PaidExtends(s, t, hash);
  }

  /** Which steps touch which parts of the state. */
  lemma Untouched(ext: Externals, s: State, step: Step)
    requires Enabled(ext, s, step)
    ensures var t := Next(ext, s, step, true);
            && (!step.Challenge? && !step.MintToken? && !step.Pay? && !step.Learn? ==> t.node == s.node)
            && (!step.Consume? && !step.PruneDelete? ==> t.store == s.store)
            && (!step.Consume? && !step.Respond? && !step.VerifyRead? && !step.Redeem? ==> t.ledger == s.ledger)
            && (step.Challenge? || step.MintToken? || step.Pay? || step.Learn? || step.Redeem?
                ==> t.process == s.process)
  {
  }

  lemma NextExtends(ext: Externals, s: State, step: Step)
    requires Enabled(ext, s, step)
    ensures Extends(s, Next(ext, s, step, true))
  {
    Untouched(ext, s, step);
  }

  // The node: what issuing, paying and learning do to its invariant.

  lemma NodeInvFrame(ext: Externals, s: State, t: State)
    requires NodeInv(ext, s) && t.node.issued == s.node.issued
    requires t.node.known == s.node.known && t.node.payments == s.node.payments
    ensures NodeInv(ext, t)
  {
    forall x | x in t.node.known && ext.sha256(x) in t.node.issued
      ensures Paid(t, ext.sha256(x))
    {
      PaidExtends(s, t, ext.sha256(x));
    }
  }

  lemma NodeInvIssue(ext: Externals, s: State, t: State, record: Issued)
    requires NodeInv(ext, s) && Fresh(ext, s, record.preimage)
    requires record.invoice.paymentHash == ext.sha256(record.preimage)
    requires record.invoice.descriptionHash ==
             match record.origin case ForX402(c) => Some(HashOf(ext.sha256, c)) case ForL402 => None
    requires t.node.issued == s.node.issued[record.invoice.paymentHash := record]
    requires t.node.known == s.node.known && t.node.payments == s.node.payments
    ensures NodeInv(ext, t)
  {
    forall x | x in t.node.known && ext.sha256(x) in t.node.issued
      ensures Paid(t, ext.sha256(x))
    {
      PaidExtends(s, t, ext.sha256(x));
    }
  }

  lemma NodeInvPay(ext: Externals, s: State, t: State, hash: Hash32, msat: nat)
    requires NodeInv(ext, s) && hash in s.node.issued && t.node.issued == s.node.issued
    requires t.node.payments == s.node.payments + [Payment(hash, msat)]
    requires t.node.known == s.node.known + {s.node.issued[hash].preimage}
    ensures NodeInv(ext, t)
  {
    assert t.node.payments[|s.node.payments|].hash == hash;
    forall x | x in t.node.known && ext.sha256(x) in t.node.issued
      ensures Paid(t, ext.sha256(x))
    {
      if x in s.node.known {
        PaidExtends(s, t, ext.sha256(x));
      }
    }
  }

  /** An invoice with an inline description has no committed hash, whatever its other fields. */
  lemma MemoCommitsToNothing(ext: Externals, text: string)
    requires HasMemo(ext, text) && Decode(ext.parseInvoice, text).Ok?
    ensures Decode(ext.parseInvoice, text).value.descriptionHash == None
  {
    var fields := ext.parseInvoice(text).value.fields;
    var committed := CommittedHash(fields);
    if committed.Some? {
      CommittedHashMeaning(fields, committed.value);
    }
  }

  lemma NodeInvKept(ext: Externals, s: State, step: Step)
    requires Enabled(ext, s, step) && NodeInv(ext, s)
    ensures NodeInv(ext, Next(ext, s, step, true))
  {
    var t := Next(ext, s, step, true);
    Untouched(ext, s, step);
    if step.Challenge? {
      var invoice := Decode(ext.parseInvoice, step.text).value;
      var c := CommitmentOf(s.process.config, step.request).value;
      NodeInvIssue(ext, s, t, Issued(invoice, step.preimage, ForX402(c)));
    } else if step.MintToken? {
      MemoCommitsToNothing(ext, step.text);
      NodeInvIssue(ext, s, t, Issued(Decode(ext.parseInvoice, step.text).value, step.preimage, ForL402));
    } else if step.Pay? {
      NodeInvPay(ext, s, t, step.hash, step.msat);
    } else if step.Learn? {
      forall x | x in t.node.known && ext.sha256(x) in t.node.issued
        ensures Paid(t, ext.sha256(x))
      {
        PaidExtends(s, t, ext.sha256(x));
      }
    } else {
      NodeInvFrame(ext, s, t);
    }
  }

  lemma PaymentInvPay(s: State, t: State, hash: Hash32, msat: nat)
    requires PaymentInv(s) && Payable(s, hash, msat)
    requires t.node.issued == s.node.issued && t.node.payments == s.node.payments + [Payment(hash, msat)]
    ensures PaymentInv(t)
  {
    assert forall i :: 0 <= i < |s.node.payments| ==>
                         t.node.payments[i] == s.node.payments[i] && s.node.payments[i].hash != hash;
  }

  lemma PaymentInvFrame(s: State, t: State)
    requires PaymentInv(s) && Extends(s, t) && t.node.payments == s.node.payments
    ensures PaymentInv(t)
  {
  }

  lemma PaymentInvKept(ext: Externals, s: State, step: Step)
    requires Enabled(ext, s, step) && PaymentInv(s)
    ensures PaymentInv(Next(ext, s, step, true))
  {
    var t := Next(ext, s, step, true);
    Untouched(ext, s, step);
    NextExtends(ext, s, step);
    if step.Pay? {
      PaymentInvPay(s, t, step.hash, step.msat);
    } else {
      PaymentInvFrame(s, t);
    }
  }

  lemma TokenInvFrame(s: State, t: State)
    requires TokenInv(s) && Extends(s, t)
    requires s.node.minted <= t.node.minted && t.ledger.l402Served == s.ledger.l402Served
    requires forall h :: h in t.node.minted - s.node.minted ==> h in t.node.issued && t.node.issued[h].origin.ForL402?
    ensures TokenInv(t)
  {
    forall i | 0 <= i < |t.ledger.l402Served|
      ensures t.ledger.l402Served[i] in t.node.minted && Paid(t, t.ledger.l402Served[i])
    {
      PaidExtends(s, t, s.ledger.l402Served[i]);
    }
  }

  /** What `/fortune` accepts is a minted token whose invoice was paid. */
  lemma RedeemedIsPaid(ext: Externals, s: State, c: L402.Credentials)
    requires NodeInv(ext, s) && TokenInv(s) && c.preimage in s.node.known && PresentsMinted(ext, s, c)
    requires L402.VerifyL402(ext.sha256, ext.hmac, s.process.config.rootKey, c.tokenText, c.preimage).Ok?
    ensures ext.sha256(c.preimage) in s.node.minted && Paid(s, ext.sha256(c.preimage))
  {
  }

  lemma TokenInvKept(ext: Externals, s: State, step: Step)
    requires Enabled(ext, s, step) && NodeInv(ext, s) && TokenInv(s)
    ensures TokenInv(Next(ext, s, step, true))
  {
    var t := Next(ext, s, step, true);
    Untouched(ext, s, step);
    NextExtends(ext, s, step);
    if step.Redeem? {
      var c := L402.ParseAuthorization(step.header).value;
      if t.ledger.l402Served != s.ledger.l402Served {
        RedeemedIsPaid(ext, s, c);
        assert TokenInv(t.(ledger := s.ledger)) by {
          TokenInvFrame(s, t.(ledger := s.ledger));
        }
        PaidExtends(s, t, ext.sha256(c.preimage));
        assert forall h :: Paid(t.(ledger := s.ledger), h) ==> Paid(t, h);
      }
    } else {
      TokenInvFrame(s, t);
    }
  }

  // Verified requests.

  lemma FlightInvFrame(ext: Externals, s: State, t: State)
    requires FlightInv(ext, s) && Extends(s, t)
    requires forall id :: id in t.process.pending ==>
               || (id in s.process.pending && t.process.pending[id] == s.process.pending[id])
               || PendingInv(ext, s, t.process.pending[id])
    ensures FlightInv(ext, t)
  {
    forall id | id in t.process.pending
      ensures PendingInv(ext, t, t.process.pending[id])
    {
      var p := t.process.pending[id];
      BackedExtends(ext, s, t, p.commitment, p.terms, p.proof.paymentHash);
    }
  }

  /** Verification accepts only proofs of paid invoices of the node. */
  lemma VerifiedIsBacked(ext: Externals, s: State, c: Commitment, payload: PaymentPayload, now: U64)
    requires NodeInv(ext, s) && PresentsKnown(s, payload) && PresentsOwn(ext, s, payload)
    requires Verify(ext, payload, TermsFor(ext, s.process.config, c), now).Ok?
    ensures var terms := TermsFor(ext, s.process.config, c);
            PendingInv(ext, s, Pending(c, terms, Verify(ext, payload, terms, now).value, now))
  {
    var terms := TermsFor(ext, s.process.config, c);
    var text, invoice, preimage := Acceptance.AcceptedRedeems(ext, payload, terms, now);
    Acceptance.OwnExtra(terms, text);
    Hex.DecodeEncode(preimage);
    assert invoice == s.node.issued[invoice.paymentHash].invoice;
    assert preimage in s.node.known;
  }

  lemma FlightInvKept(ext: Externals, s: State, step: Step)
    requires Enabled(ext, s, step) && NodeInv(ext, s) && FlightInv(ext, s)
    ensures FlightInv(ext, Next(ext, s, step, true))
  {
    var t := Next(ext, s, step, true);
    Untouched(ext, s, step);
    NextExtends(ext, s, step);
    if step.VerifyRead? {
      var c := CommitmentOf(s.process.config, step.request).value;
      if Verify(ext, step.payload, TermsFor(ext, s.process.config, c), step.now).Ok? {
        VerifiedIsBacked(ext, s, c, step.payload, step.now);
      }
    }
    FlightInvFrame(ext, s, t);
  }

  // The replay store.

  lemma KeyInvFrame(s: State, t: State, key: string)
    requires KeyInv(s, key) && Extends(s, t)
    requires key in t.store.history && t.store.history[key] == s.store.history[key]
    requires key in t.store.table <==> key in s.store.table
    requires key in s.store.table ==> t.store.table[key] == s.store.table[key]
    ensures KeyInv(t, key)
  {
    var ins := s.store.history[key];
    var n :| NetworkCurrency(n) == s.node.issued[ins.hash].invoice.currency && key == ReplayKey(n, ins.hash);
    assert NetworkCurrency(n) == t.node.issued[ins.hash].invoice.currency && key == ReplayKey(n, ins.hash);
  }

  lemma StoreInvFrame(s: State, t: State)
    requires StoreInv(s) && Extends(s, t) && t.store.table == s.store.table && t.store.history == s.store.history
    ensures StoreInv(t)
  {
    forall key | key in t.store.history
      ensures KeyInv(t, key)
    {
      KeyInvFrame(s, t, key);
    }
  }

  lemma StoreInvInsert(ext: Externals, s: State, t: State, p: Pending)
    requires StoreInv(s) && PendingInv(ext, s, p) && KeyOf(p) !in s.store.table
    requires t.node.issued == s.node.issued && t.node.payments == s.node.payments
    requires t.store.table == Inserted(s.store.table, KeyOf(p), p.proof.retainUntil)
    requires t.store.history == s.store.history[KeyOf(p) := Insertion(p.proof.paymentHash, p.terms.clockSkewSecs, None)]
    ensures StoreInv(t)
  {
    forall key | key in t.store.history
      ensures KeyInv(t, key)
    {
      if key == KeyOf(p) {
        assert NetworkCurrency(p.terms.network) == t.node.issued[p.proof.paymentHash].invoice.currency
               && key == ReplayKey(p.terms.network, p.proof.paymentHash);
      } else {
        KeyInvFrame(s, t, key);
      }
    }
  }

  /** A prune forgets a key exactly when its retention ended before the reading. */
  lemma KeyInvPrune(s: State, t: State, key: string, now: U64)
    requires KeyInv(s, key) && t.node == s.node
    requires t.store.table == Pruned(s.store.table, now) && t.store.history == WithPrune(s.store.history, now)
    ensures KeyInv(t, key)
  {
    var ins := s.store.history[key];
    var invoice := s.node.issued[ins.hash].invoice;
    var n :| NetworkCurrency(n) == invoice.currency && key == ReplayKey(n, ins.hash);
    assert NetworkCurrency(n) == t.node.issued[ins.hash].invoice.currency && key == ReplayKey(n, ins.hash);
    if key in s.store.table {
      RowRemoved(s.store.table, key, invoice.created, invoice.expiry, ins.skew, now);
    }
  }

  lemma StoreInvPrune(s: State, t: State, now: U64)
    requires StoreInv(s) && t.node == s.node
    requires t.store.table == Pruned(s.store.table, now) && t.store.history == WithPrune(s.store.history, now)
    ensures StoreInv(t)
  {
    forall key | key in t.store.history
      ensures KeyInv(t, key)
    {
      KeyInvPrune(s, t, key, now);
    }
  }

  ghost predicate Sells(s: State, step: Step) {
    step.Consume? && step.id in s.process.pending && KeyOf(s.process.pending[step.id]) !in s.store.table
  }

  lemma StoreUntouched(ext: Externals, s: State, step: Step)
    requires Enabled(ext, s, step) && !Sells(s, step) && !step.PruneDelete?
    ensures Next(ext, s, step, true).store == s.store
  {
  }

  lemma StoreInvKept(ext: Externals, s: State, step: Step)
    requires Enabled(ext, s, step) && FlightInv(ext, s) && StoreInv(s)
    ensures StoreInv(Next(ext, s, step, true))
  {
    var t := Next(ext, s, step, true);
    if Sells(s, step) {
      StoreInvInsert(ext, s, t, s.process.pending[step.id]);
    } else if step.PruneDelete? {
      StoreInvPrune(s, t, s.process.pruneReading.value);
    } else {
      StoreUntouched(ext, s, step);
      NextExtends(ext, s, step);
      StoreInvFrame(s, t);
    }
  }

  // Settlements.

  lemma LogInvFrame(ext: Externals, s: State, t: State)
    requires LogInv(ext, s) && Extends(s, t) && t.ledger.settled == s.ledger.settled
    requires t.store.history.Keys == s.store.history.Keys
    requires t.process.responding + t.ledger.dispensed <= s.process.responding + s.ledger.dispensed
    requires t.process.responding !! t.ledger.dispensed
    ensures LogInv(ext, t)
  {
    forall i | 0 <= i < |t.ledger.settled|
      ensures SettledInv(ext, t, t.ledger.settled[i])
    {
      var x := s.ledger.settled[i];
      BackedExtends(ext, s, t, x.commitment, x.terms, x.hash);
    }
    assert forall i :: i in t.process.responding || i in t.ledger.dispensed ==>
                         i in s.process.responding + s.ledger.dispensed;
  }

  lemma LogInvSettle(ext: Externals, s: State, t: State, p: Pending)
    requires LogInv(ext, s) && PendingInv(ext, s, p)
    requires t.node.issued == s.node.issued && t.node.payments == s.node.payments
    requires t.store.history.Keys == s.store.history.Keys + {KeyOf(p)}
    requires t.ledger.settled == s.ledger.settled + [Settlement(p.commitment, p.terms, p.proof.paymentHash)]
    requires t.process.responding == s.process.responding + {|s.ledger.settled|}
    requires t.ledger.dispensed == s.ledger.dispensed
    ensures LogInv(ext, t)
  {
    forall i | 0 <= i < |t.ledger.settled|
      ensures SettledInv(ext, t, t.ledger.settled[i])
    {
      if i < |s.ledger.settled| {
        var x := s.ledger.settled[i];
        BackedExtends(ext, s, t, x.commitment, x.terms, x.hash);
      } else {
        BackedExtends(ext, s, t, p.commitment, p.terms, p.proof.paymentHash);
      }
    }
  }

  /** Steps that sell nothing leave settlements and keys as they are. */
  lemma SellsNothing(ext: Externals, s: State, step: Step)
    requires Enabled(ext, s, step) && !Sells(s, step)
    ensures var t := Next(ext, s, step, true);
            && t.ledger.settled == s.ledger.settled
            && t.store.history.Keys == s.store.history.Keys
            && (forall key :: key in s.store.history ==> t.store.history[key].hash == s.store.history[key].hash)
            && t.process.responding + t.ledger.dispensed <= s.process.responding + s.ledger.dispensed
            && (s.process.responding !! s.ledger.dispensed ==> t.process.responding !! t.ledger.dispensed)
  {
  }

  lemma LogInvKept(ext: Externals, s: State, step: Step)
    requires Enabled(ext, s, step) && FlightInv(ext, s) && LogInv(ext, s)
    ensures LogInv(ext, Next(ext, s, step, true))
  {
    var t := Next(ext, s, step, true);
    NextExtends(ext, s, step);
    if Sells(s, step) {
      LogInvSettle(ext, s, t, s.process.pending[step.id]);
    } else {
      SellsNothing(ext, s, step);
      LogInvFrame(ext, s, t);
    }
  }

  lemma HistoryInvKept(ext: Externals, s: State, step: Step)
    requires Enabled(ext, s, step) && HistoryInv(s)
    ensures HistoryInv(Next(ext, s, step, true))
  {
    var t := Next(ext, s, step, true);
    if Sells(s, step) {
      var n := |s.ledger.settled|;
      assert t.ledger.settled[n].hash == s.process.pending[step.id].proof.paymentHash;
      assert forall i :: 0 <= i < n ==> t.ledger.settled[i] == s.ledger.settled[i];
    } else {
      SellsNothing(ext, s, step);
    }
    forall key | key in t.store.history
      ensures SettledKey(t, key)
    {
      if key in s.store.history && t.store.history[key].hash == s.store.history[key].hash {
        var i :| 0 <= i < |s.ledger.settled| && s.ledger.settled[i].hash == s.store.history[key].hash;
        assert t.ledger.settled[i].hash == t.store.history[key].hash;
      }
    }
  }

  // Offers.

  lemma OfferSoundExtends(ext: Externals, s: State, t: State, o: Offer)
    requires OfferSound(ext, s, o) && Extends(s, t)
    ensures OfferSound(ext, t, o)
  {
  }

  lemma OfferInvFrame(ext: Externals, s: State, t: State)
    requires OfferInv(ext, s) && Extends(s, t)
    requires forall o :: o in t.node.offers ==> o in s.node.offers || OfferSound(ext, t, o)
    requires s.node.known <= t.node.known
    requires forall h :: h in t.node.issued && Paid(t, h) ==>
               (h in s.node.issued && Paid(s, h)) || t.node.issued[h].preimage in t.node.known
    ensures OfferInv(ext, t)
  {
    forall o | o in t.node.offers
      ensures OfferSound(ext, t, o)
    {
      if o in s.node.offers {
        OfferSoundExtends(ext, s, t, o);
      }
    }
  }

  lemma OfferInvKept(ext: Externals, s: State, step: Step)
    requires Enabled(ext, s, step) && PaymentInv(s) && OfferInv(ext, s)
    ensures OfferInv(ext, Next(ext, s, step, true))
  {
    var t := Next(ext, s, step, true);
    Untouched(ext, s, step);
    NextExtends(ext, s, step);
    forall h | h in t.node.issued && Paid(t, h)
      ensures (h in s.node.issued && Paid(s, h)) || t.node.issued[h].preimage in t.node.known
    {
      var i :| 0 <= i < |t.node.payments| && t.node.payments[i].hash == h;
      if i < |s.node.payments| {
        assert s.node.payments[i].hash == h;
      }
    }
    OfferInvFrame(ext, s, t);
  }

  lemma InvKept(ext: Externals, s: State, step: Step)
    requires Enabled(ext, s, step) && Inv(ext, s)
    ensures Inv(ext, Next(ext, s, step, true))
  {
    Untouched(ext, s, step);
    NodeInvKept(ext, s, step);
    PaymentInvKept(ext, s, step);
    TokenInvKept(ext, s, step);
    FlightInvKept(ext, s, step);
    OfferInvKept(ext, s, step);
    StoreInvKept(ext, s, step);
    HistoryInvKept(ext, s, step);
    LogInvKept(ext, s, step);
  }

  /** Every state of every run satisfies the invariant, whatever the clocks do. */
  lemma {:induction false} RunInv(ext: Externals, s: State, steps: seq<Step>)
    requires Inv(ext, s) && Legal(ext, s, steps)
    ensures Inv(ext, Exec(ext, s, steps))
    decreases |steps|
  {
    if steps != [] {
      InvKept(ext, s, steps[0]);
      RunInv(ext, Next(ext, s, steps[0], true), steps[1..]);
    }
  }

  lemma InitInv(ext: Externals, config: Config)
    requires Binding.CanonicalNames(config.boundHeaders)
    ensures Inv(ext, Init(config)) && SoldOnce(Init(config))
  {
  }
}
