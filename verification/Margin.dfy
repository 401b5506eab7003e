/**
  The retention margin is exactly right: 3600 seconds of lag between a
  prune's reading and a later request's reading are safe, and one more is not.
*/
module Margin {
  import opened Wrappers
  import opened Words
  import opened Invoices
  import opened Replay
  import opened Lnbtc
  import opened RequestHash
  import opened Server
  import opened Safety
  import opened Redemption
  import Acceptance
  import Binding
  import Forgetting
  import Json
  import Utf8

  // ----- One second more: a run with two sales

  /** An invoice that the server could issue for a request under `config`. */
  ghost predicate Issuable(ext: Externals, config: Config, request: Request, c: Commitment,
                           text: string, invoice: Invoice, preimage: Hash32) {
    && CommitmentOf(config, request) == Some(c)
    && Binding.CanonicalNames(config.boundHeaders)
    && text != ""
    && Decode(ext.parseInvoice, text) == Ok(invoice)
    && Acceptance.Matches(invoice, TermsFor(ext, config, c))
    && ext.sha256(preimage) == invoice.paymentHash
  }

  function BuySteps(request: Request, text: string, invoice: Invoice, preimage: Hash32): seq<Step> {
    [Challenge(request, text, preimage, invoice.created),
     Pay(invoice.paymentHash, if invoice.amountMsat.Some? then invoice.amountMsat.value else 0)]
  }

  lemma Bought(ext: Externals, config: Config, request: Request, c: Commitment,
               text: string, invoice: Invoice, preimage: Hash32)
    requires Issuable(ext, config, request, c, text, invoice, preimage)
    ensures var steps := BuySteps(request, text, invoice, preimage);
            && Legal(ext, Init(config), steps) && Timely(ext, Init(config), steps, 3601)
            && var s := Exec(ext, Init(config), steps);
               && CanRedeem(ext, s, request, c, text, invoice, preimage)
               && s.store == Store(map[], map[]) && s.process == Init(config).process && s.ledger == Init(config).ledger
  {
    var s, steps := Init(config), BuySteps(request, text, invoice, preimage);
    assert Enabled(ext, s, steps[0]);
    var bought := Next(ext, s, steps[0], true);
    assert bought.node.issued == map[invoice.paymentHash := Issued(invoice, preimage, ForX402(c))];
    assert Enabled(ext, bought, steps[1]);
    TwoSteps(ext, s, steps[0], steps[1], 3601);
    assert steps == [steps[0], steps[1]];
  }

  function ForgetSteps(reading: U64, config: Config): seq<Step> {
    [PruneRead(reading)] + [PruneDelete, Restart(config)]
  }

  lemma ForgetRun(ext: Externals, s: State, reading: U64, config: Config)
    requires s.process.pruneReading.None? && Binding.CanonicalNames(config.boundHeaders)
    ensures var steps := ForgetSteps(reading, config);
            && Legal(ext, s, steps) && Timely(ext, s, steps, 3601)
            && Exec(ext, s, steps) ==
               State(s.node, Store(Pruned(s.store.table, reading), WithPrune(s.store.history, reading)),
                     Process(config, map[], s.process.nextId, None, {}), s.ledger)
  {
    OneStep(ext, s, PruneRead(reading), 3601);
    var t := Next(ext, s, PruneRead(reading), true);
    TwoSteps(ext, t, PruneDelete, Restart(config), 3601);
    LegalAppend(ext, s, [PruneRead(reading)], [PruneDelete, Restart(config)]);
    TimelyAppend(ext, s, [PruneRead(reading)], [PruneDelete, Restart(config)], 3601);
  }

  /** The state after the first sale: the key is in the table, with its retention. */
  ghost predicate AfterFirstSale(ext: Externals, s: State, config: Config, request: Request, c: Commitment,
                                 text: string, invoice: Invoice, preimage: Hash32) {
    var key, skew := ReplayKey(config.network, invoice.paymentHash), config.clockSkewSecs;
    && CanRedeem(ext, s, request, c, text, invoice, preimage)
    && s.process.config == config && s.process.pruneReading.None? && s.process.nextId == 1
    && s.ledger.settled == [Settlement(c, TermsFor(ext, config, c), invoice.paymentHash)]
    && s.store.table == map[key := SqlTime(RetainUntil(invoice.created, invoice.expiry, skew))]
    && s.store.history == map[key := Insertion(invoice.paymentHash, skew, None)]
  }

  lemma FirstSale(ext: Externals, s: State, config: Config, request: Request, c: Commitment,
                  text: string, invoice: Invoice, preimage: Hash32)
    requires CanRedeem(ext, s, request, c, text, invoice, preimage)
    requires s.store == Store(map[], map[]) && s.process == Init(config).process && s.ledger == Init(config).ledger
    ensures var steps := RedeemSteps(request, TermsFor(ext, config, c), text, preimage, invoice.created, 0);
            && Legal(ext, s, steps) && Timely(ext, s, steps, 3601)
            && AfterFirstSale(ext, Exec(ext, s, steps), config, request, c, text, invoice, preimage)
  {
    RedeemRun(ext, s, request, c, text, invoice, preimage, invoice.created, 3601);
  }

  /** Buy the invoice and redeem it. */
  lemma FirstHalf(ext: Externals, config: Config, request: Request, c: Commitment,
                  text: string, invoice: Invoice, preimage: Hash32)
    returns (steps: seq<Step>)
    requires Issuable(ext, config, request, c, text, invoice, preimage)
    ensures Legal(ext, Init(config), steps) && Timely(ext, Init(config), steps, 3601)
    ensures AfterFirstSale(ext, Exec(ext, Init(config), steps), config, request, c, text, invoice, preimage)
  {
    var buy := BuySteps(request, text, invoice, preimage);
    var redeem := RedeemSteps(request, TermsFor(ext, config, c), text, preimage, invoice.created, 0);
    Bought(ext, config, request, c, text, invoice, preimage);
    FirstSale(ext, Exec(ext, Init(config), buy), config, request, c, text, invoice, preimage);
    steps := buy + redeem;
    Chain(ext, Init(config), buy, redeem, 3601);
  }

  /** The second sale: the key is gone, and the clock is exactly one second too far behind. */
  lemma SecondSale(ext: Externals, s: State, request: Request, c: Commitment, text: string, invoice: Invoice,
                   preimage: Hash32, now: U64, skew: U64, prune: U64)
    requires CanRedeem(ext, s, request, c, text, invoice, preimage)
    requires Acceptance.InWindow(invoice, s.process.config.clockSkewSecs, now)
    requires var key := ReplayKey(s.process.config.network, invoice.paymentHash);
             && s.store.table == map[]
             && s.store.history == map[key := Insertion(invoice.paymentHash, skew, Some(prune))]
             && prune - now == 3601 - (s.process.config.clockSkewSecs - skew)
    ensures var terms := TermsFor(ext, s.process.config, c);
            var steps := RedeemSteps(request, terms, text, preimage, now, s.process.nextId);
            && Legal(ext, s, steps) && Timely(ext, s, steps, 3601)
            && Exec(ext, s, steps).ledger.settled == s.ledger.settled + [Settlement(c, terms, invoice.paymentHash)]
  {
    RedeemRun(ext, s, request, c, text, invoice, preimage, now, 3601);
  }

  /** Prune one second after retention, restart with another skew, redeem again at the last moment. */
  lemma SecondHalf(ext: Externals, s: State, config: Config, newSkew: U64, request: Request, c: Commitment,
                   text: string, invoice: Invoice, preimage: Hash32)
    returns (steps: seq<Step>)
    requires AfterFirstSale(ext, s, config, request, c, text, invoice, preimage)
    requires invoice.created + invoice.expiry + config.clockSkewSecs + 3600 < I64_MAX
    requires invoice.created + invoice.expiry + newSkew <= U64_MAX
    ensures Legal(ext, s, steps) && Timely(ext, s, steps, 3601)
    ensures var again := Settlement(c, TermsFor(ext, config.(clockSkewSecs := newSkew), c), invoice.paymentHash);
            Exec(ext, s, steps).ledger.settled == s.ledger.settled + [again]
  {
    var later := config.(clockSkewSecs := newSkew);
    var prune := invoice.created + invoice.expiry + config.clockSkewSecs + 3601;
    var last := invoice.created + invoice.expiry + newSkew;
    var forget := ForgetSteps(prune, later);
    var redeem := RedeemSteps(request, TermsFor(ext, later, c), text, preimage, last, 1);
    ForgetRun(ext, s, prune, later);
    var t := Exec(ext, s, forget);
    KeyGone(s, t, config.network, invoice, config.clockSkewSecs, prune);
    SecondSale(ext, t, request, c, text, invoice, preimage, last, config.clockSkewSecs, prune);
    steps := forget + redeem;
    Chain(ext, s, forget, redeem, 3601);
  }

  /** A legal run within the lag `margin` after which some payment hash was sold more than once. */
  ghost predicate SellsTwice(ext: Externals, config: Config, steps: seq<Step>, margin: int) {
    && Legal(ext, Init(config), steps)
    && Timely(ext, Init(config), steps, margin)
    && !SoldOnce(Exec(ext, Init(config), steps))
  }

  lemma TwoHalves(ext: Externals, config: Config, first: seq<Step>, second: seq<Step>, a: Settlement, b: Settlement)
    requires Legal(ext, Init(config), first) && Timely(ext, Init(config), first, 3601)
    requires Legal(ext, Exec(ext, Init(config), first), second)
    requires Timely(ext, Exec(ext, Init(config), first), second, 3601)
    requires Exec(ext, Exec(ext, Init(config), first), second).ledger.settled == [a] + [b] && a.hash == b.hash
    ensures SellsTwice(ext, config, first + second, 3601)
  {
    Chain(ext, Init(config), first, second, 3601);
    var s := Exec(ext, Init(config), first + second);
    assert s.ledger.settled[0] == a && s.ledger.settled[1] == b;
  }

  /**
    For every invoice and every pair of skew settings whose retention is not
    clamped: a legal run that exceeds the safe lag by one second and sells twice.
  */
  lemma OneSecondTooLate(ext: Externals, config: Config, newSkew: U64, request: Request, c: Commitment,
                         text: string, invoice: Invoice, preimage: Hash32)
    requires Issuable(ext, config, request, c, text, invoice, preimage)
    requires invoice.created + invoice.expiry + config.clockSkewSecs + 3600 < I64_MAX
    requires invoice.created + invoice.expiry + newSkew <= U64_MAX
    ensures exists steps :: SellsTwice(ext, config, steps, 3601)
  {
    var first := FirstHalf(ext, config, request, c, text, invoice, preimage);
    var second := SecondHalf(ext, Exec(ext, Init(config), first), config, newSkew, request, c, text, invoice, preimage);
    TwoHalves(ext, config, first, second, Settlement(c, TermsFor(ext, config, c), invoice.paymentHash),
              Settlement(c, TermsFor(ext, config.(clockSkewSecs := newSkew), c), invoice.paymentHash));
  }

  lemma Chain(ext: Externals, s: State, a: seq<Step>, b: seq<Step>, margin: int)
    requires Legal(ext, s, a) && Timely(ext, s, a, margin)
    requires Legal(ext, Exec(ext, s, a), b) && Timely(ext, Exec(ext, s, a), b, margin)
    ensures Legal(ext, s, a + b) && Timely(ext, s, a + b, margin)
    ensures Exec(ext, s, a + b) == Exec(ext, Exec(ext, s, a), b)
  {
    LegalAppend(ext, s, a, b);
    TimelyAppend(ext, s, a, b, margin);
  }

  lemma KeyGone(s: State, t: State, n: Network, invoice: Invoice, skew: U64, prune: U64)
    requires var key := ReplayKey(n, invoice.paymentHash);
             && s.store.table == map[key := SqlTime(RetainUntil(invoice.created, invoice.expiry, skew))]
             && s.store.history == map[key := Insertion(invoice.paymentHash, skew, None)]
    requires t.store == Store(Pruned(s.store.table, prune), WithPrune(s.store.history, prune))
    requires prune == invoice.created + invoice.expiry + skew + 3601 <= I64_MAX
    ensures t.store.table == map[]
    ensures t.store.history ==
            map[ReplayKey(n, invoice.paymentHash) := Insertion(invoice.paymentHash, skew, Some(prune))]
  {
    var key := ReplayKey(n, invoice.paymentHash);
    RowRemoved(s.store.table, key, invoice.created, invoice.expiry, skew, prune);
    assert t.store.table.Keys == {};
  }

  // ----- The exact margin

  lemma {:induction false} TimelyMonotone(ext: Externals, s: State, steps: seq<Step>, margin: int, wider: int)
    requires Timely(ext, s, steps, margin) && margin <= wider
    ensures Timely(ext, s, steps, wider)
    decreases |steps|
  {
    if steps != [] {
      TimelyMonotone(ext, Next(ext, s, steps[0], true), steps[1..], margin, wider);
    }
  }

  /** The first 32 bytes, filled up with zeros. */
  function Truncated(b: Bytes): Hash32 {
    if |b| >= 32 then b[..32] else b + seq(32 - |b|, _ => 0)
  }

  /** One concrete server: truncation as the hash, and a parser that reads one invoice. */
  function Example(): (Externals, Config, Request, Commitment, string, Invoice, Hash32) {
    var preimage: Hash32 := seq(32, _ => 7);
    var key: PublicKey := seq(33, _ => 2);
    var c := Commitment("GET", "https://fortune.example.com" + "/x402", [], []);
    var requestHash := HashOf(Truncated, c);
    var raw := RawInvoice(Bitcoin, true, true, Some(10_000), 1_700_000_000,
                          [PaymentHash(preimage), DescriptionHash(requestHash), ExpiryTime(300)], Some(key));
    (Externals(Truncated, (k: Hash32, h: Hash32) => h, (text: string) => if text == "lnbc" then Some(raw) else None),
     Config(Mainnet, key, 1000, 300, 60, "https://fortune.example.com", [], preimage),
     Request("GET", "/x402", [], map[]),
     c,
     "lnbc",
     Invoice(Bitcoin, Some(1000), preimage, Some(requestHash), key, 1_700_000_000, 300),
     preimage)
  }

  lemma DocumentStart(sha256: Bytes -> Hash32, c: Commitment)
    ensures var doc := Json.CanonicalBytes(Document(sha256, c)); doc != [] && doc[0] == 123
  {
    var text := Json.Serialize(Document(sha256, c));
    DocumentText(sha256, c);
    assert text[0] == '{';
    assert Utf8.Encode(text) == Utf8.EncodeChar('{') + Utf8.Encode(text[1..]);
  }

  lemma CollisionFree(sha256: Bytes -> Hash32, c: Commitment)
    requires c.body == [] && c.headers == []
    requires sha256(Json.CanonicalBytes(Document(sha256, c))) != sha256([])
    ensures InjectiveOn(sha256, HashInputs(sha256, c))
  {
    assert HashInputs(sha256, c) == {Json.CanonicalBytes(Document(sha256, c)), []};
  }

  /** The server can issue its invoice, and its hash has no collision on what it hashes for the request. */
  lemma ExampleIssuable()
    ensures var (ext, config, request, c, text, invoice, preimage) := Example();
            && Issuable(ext, config, request, c, text, invoice, preimage)
            && InjectiveOn(ext.sha256, HashInputs(ext.sha256, c))
            && invoice.created + invoice.expiry + config.clockSkewSecs + 3600 < I64_MAX
  {
    var (ext, config, request, c, text, invoice, preimage) := Example();
    PlainInvoice(ext.parseInvoice, text, ext.parseInvoice(text).value, invoice);
    TruncatedStart(c);
    CollisionFree(Truncated, c);
  }

  lemma TruncatedStart(c: Commitment)
    ensures Truncated(Json.CanonicalBytes(Document(Truncated, c))) != Truncated([])
  {
    DocumentStart(Truncated, c);
    StartKept(Json.CanonicalBytes(Document(Truncated, c)));
    assert Truncated([])[0] == 0;
  }

  lemma StartKept(b: Bytes)
    requires b != []
    ensures Truncated(b)[0] == b[0]
  {
  }

  /**
    Of every server that can issue some invoice whose retention is not
    clamped: exactly the margins up to 3600 seconds make all its timely runs safe.
  */
  lemma MarginIsExact(ext: Externals, config: Config, request: Request, c: Commitment, text: string,
                      invoice: Invoice, preimage: Hash32, margin: int)
    requires Issuable(ext, config, request, c, text, invoice, preimage)
    requires invoice.created + invoice.expiry + config.clockSkewSecs + 3600 < I64_MAX
    ensures (forall steps :: !SellsTwice(ext, config, steps, margin)) <==> margin <= 3600
  {
    if margin <= 3600 {
      forall steps
        ensures !SellsTwice(ext, config, steps, margin)
      {
        if Legal(ext, Init(config), steps) && Timely(ext, Init(config), steps, margin) {
          InitInv(ext, config);
          Forgetting.TimelySafe(ext, Init(config), steps, margin);
          Forgetting.SoldOnceExactly(ext, config, steps);
        }
      }
    } else {
      OneSecondTooLate(ext, config, config.clockSkewSecs, request, c, text, invoice, preimage);
      var steps :| SellsTwice(ext, config, steps, 3601);
      TimelyMonotone(ext, Init(config), steps, 3601, margin);
      assert SellsTwice(ext, config, steps, margin);
    }
  }
}
