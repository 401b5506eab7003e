/**
  The server as a state machine: both routes, the receiving node, its payers,
  the replay store and its pruner. Requests interleave freely; verification
  and consumption are separate steps, and every clock reading is arbitrary.
*/
module Server {
  import opened Wrappers
  import opened Words
  import opened Invoices
  import opened Replay
  import opened Lnbtc
  import opened RequestHash
  import Binding
  import Hex
  import L402
  import Tokens

  datatype Config = Config(
    network: Network,
    payTo: PublicKey,
    amountMsat: U64,
    maxTimeoutSecs: U64,
    clockSkewSecs: U64,
    publicUrl: string,
    boundHeaders: seq<string>,
    rootKey: Hash32)

  datatype Request = Request(verb: string, path: string, body: Bytes, headers: Binding.HeaderMap)

  function CommitmentOf(config: Config, request: Request): Option<Commitment> {
    Commit(request.verb, config.publicUrl + request.path, request.body, config.boundHeaders, request.headers)
  }

  function TermsFor(ext: Externals, config: Config, c: Commitment): Terms {
    Terms(config.network, config.payTo, config.amountMsat, config.maxTimeoutSecs, HashOf(ext.sha256, c),
          Binding.HttpParams(config.boundHeaders), config.clockSkewSecs)
  }

  // ----- State

  /** Why the node issued an invoice. */
  datatype Origin = ForX402(commitment: Commitment) | ForL402

  datatype Issued = Issued(invoice: Invoice, preimage: Hash32, origin: Origin)

  datatype Payment = Payment(hash: Hash32, msat: nat)

  /** An invoice sent out in a challenge. */
  datatype Offer = Offer(terms: Terms, text: string)

  /** A verified request that has not been consumed yet. */
  datatype Pending = Pending(commitment: Commitment, terms: Terms, proof: Proof, now: U64)

  /** History of a key: its latest insertion, and the latest pruner reading since. */
  datatype Insertion = Insertion(hash: Hash32, skew: U64, latestPrune: Option<U64>)

  datatype Settlement = Settlement(commitment: Commitment, terms: Terms, hash: Hash32)

  datatype Outcome = Refused(reason: ErrorReason) | Sold(key: string) | Duplicate(key: string)

  /** The receiving node and the people who pay it. */
  datatype Node = Node(
    issued: map<Hash32, Issued>,
    payments: seq<Payment>,
    known: set<Bytes>,
    offers: set<Offer>,
    minted: set<Hash32>)

  /** The replay table, and what was ever inserted into it. */
  datatype Store = Store(table: Table, history: map<string, Insertion>)

  /** What a restart loses or changes. */
  datatype Process = Process(
    config: Config,
    pending: map<nat, Pending>,
    nextId: nat,
    pruneReading: Option<U64>,
    responding: set<nat>)

  /** What has been sold and handed out. */
  datatype Ledger = Ledger(
    settled: seq<Settlement>,
    dispensed: set<nat>,
    log: seq<Outcome>,
    l402Served: seq<Hash32>)

  datatype State = State(node: Node, store: Store, process: Process, ledger: Ledger)

  function Init(config: Config): State {
    State(Node(map[], [], {}, {}, {}), Store(map[], map[]), Process(config, map[], 0, None, {}), Ledger([], {}, [], []))
  }

  ghost predicate Paid(s: State, hash: Hash32) {
    exists i :: 0 <= i < |s.node.payments| && s.node.payments[i].hash == hash
  }

  // ----- Steps

  datatype Step =
    /** An unpaid `/x402` request: the node issues `text` and it is checked before it goes out. */
    | Challenge(request: Request, text: string, preimage: Hash32, now: U64)
    /** An unpaid `/fortune` request: an invoice with an inline memo, and a token for it. */
    | MintToken(text: string, preimage: Hash32)
    /** Someone pays an invoice and learns its preimage. */
    | Pay(hash: Hash32, msat: nat)
    /** Clients come up with bytes of their own. */
    | Learn(bytes: Bytes)
    /** A paid `/x402` request is verified with the clock reading `now`. */
    | VerifyRead(request: Request, payload: PaymentPayload, now: U64)
    /** A verified request consumes its key. */
    | Consume(id: nat)
    | StoreError(id: nat)
    /** The fortune of settlement `index` leaves the server. */
    | Respond(index: nat)
    | PruneRead(now: U64)
    | PruneDelete
    | PruneError
    /** A `/fortune` request with an authorization header. */
    | Redeem(header: string)
    /** The process stops at any point and starts again; table and node stay. */
    | Restart(config: Config)

  /** The node picks a preimage nobody knows, for a hash it never used. */
  ghost predicate Fresh(ext: Externals, s: State, preimage: Hash32) {
    && ext.sha256(preimage) !in s.node.issued
    && forall x :: x in s.node.known ==> ext.sha256(x) != ext.sha256(preimage)
  }

  /** Clients present only preimages they know. */
  ghost predicate PresentsKnown(s: State, payload: PaymentPayload) {
    HasText(payload.payload, "preimage") ==>
      match Hex.Decode(payload.payload["preimage"].text)
      case Some(x) => x in s.node.known
      case None => true
  }

  /** Only the server has invoices issued by the node, so one signed with its key is on record. */
  ghost predicate PresentsOwn(ext: Externals, s: State, payload: PaymentPayload) {
    HasText(payload.accepted.extra, "invoice") ==>
      match Decode(ext.parseInvoice, payload.accepted.extra["invoice"].text)
      case Ok(invoice) =>
        invoice.payee == s.process.config.payTo ==>
          invoice.paymentHash in s.node.issued && s.node.issued[invoice.paymentHash].invoice == invoice
      case Err(_) => true
  }

  /** Only the server can make tokens that pass under its root key. */
  ghost predicate PresentsMinted(ext: Externals, s: State, c: L402.Credentials) {
    match Tokens.Parsed(c.tokenText)
    case Ok(token) => Tokens.Authentic(ext.hmac, s.process.config.rootKey, token) ==> token.paymentHash in s.node.minted
    case Err(_) => true
  }

  /** Each invoice settles once, for at least its amount. */
  ghost predicate Payable(s: State, hash: Hash32, msat: nat) {
    && hash in s.node.issued
    && !Paid(s, hash)
    && (s.node.issued[hash].invoice.amountMsat.Some? ==> s.node.issued[hash].invoice.amountMsat.value <= msat)
  }

  /** The node answers with an invoice for a preimage it just picked. */
  ghost predicate IssuesFresh(ext: Externals, s: State, text: string, preimage: Hash32) {
    && Fresh(ext, s, preimage)
    && Decode(ext.parseInvoice, text).Ok?
    && Decode(ext.parseInvoice, text).value.paymentHash == ext.sha256(preimage)
  }

  /** The invoice carries an inline description, as the node writes a memo. */
  ghost predicate HasMemo(ext: Externals, text: string) {
    && ext.parseInvoice(text).Some?
    && exists f :: f in ext.parseInvoice(text).value.fields && f.Description?
  }

  /** What can happen in a state, with the assumptions about node, payers and cryptography. */
  ghost predicate Enabled(ext: Externals, s: State, step: Step) {
    match step
    case Challenge(request, text, preimage, _) =>
      && CommitmentOf(s.process.config, request).Some?
      && IssuesFresh(ext, s, text, preimage)
      && Decode(ext.parseInvoice, text).value.descriptionHash ==
           Some(HashOf(ext.sha256, CommitmentOf(s.process.config, request).value))
    case MintToken(text, preimage) => IssuesFresh(ext, s, text, preimage) && HasMemo(ext, text)
    case Pay(hash, msat) => Payable(s, hash, msat)
    case Learn(bytes) => ext.sha256(bytes) !in s.node.issued
    case VerifyRead(request, payload, _) =>
      && CommitmentOf(s.process.config, request).Some?
      && payload.x402Version == 2
      && PresentsKnown(s, payload)
      && PresentsOwn(ext, s, payload)
    case Consume(id) => id in s.process.pending
    case StoreError(id) => id in s.process.pending
    case Respond(index) => index in s.process.responding
    case PruneRead(_) => s.process.pruneReading.None?
    case PruneDelete => s.process.pruneReading.Some?
    case PruneError => s.process.pruneReading.Some?
    case Redeem(header) =>
      && L402.ParseAuthorization(header).Ok?
      && L402.ParseAuthorization(header).value.preimage in s.node.known
      && PresentsMinted(ext, s, L402.ParseAuthorization(header).value)
    case Restart(config) => Binding.CanonicalNames(config.boundHeaders)
  }

  function KeyOf(p: Pending): string {
    ReplayKey(p.terms.network, p.proof.paymentHash)
  }

  function Without(pending: map<nat, Pending>, id: nat): map<nat, Pending> {
    map k | k in pending && k != id :: pending[k]
  }

  function WithPrune(history: map<string, Insertion>, now: U64): map<string, Insertion> {
    map k | k in history ::
      history[k].(latestPrune := Some(if history[k].latestPrune.Some? && history[k].latestPrune.value > now
                                      then history[k].latestPrune.value else now))
  }

  function Consumed(s: State, id: nat): State
    requires id in s.process.pending
  {
    var p := s.process.pending[id];
    var key := KeyOf(p);
    var done := s.process.(pending := Without(s.process.pending, id));
    if key in s.store.table then s.(process := done, ledger := s.ledger.(log := s.ledger.log + [Duplicate(key)]))
    else
      State(
        s.node,
        Store(Inserted(s.store.table, key, p.proof.retainUntil),
              s.store.history[key := Insertion(p.proof.paymentHash, p.terms.clockSkewSecs, None)]),
        done.(responding := done.responding + {|s.ledger.settled|}),
        s.ledger.(settled := s.ledger.settled + [Settlement(p.commitment, p.terms, p.proof.paymentHash)],
                  log := s.ledger.log + [Sold(key)]))
  }

  function AfterIssue(node: Node, invoice: Invoice, preimage: Hash32, origin: Origin): Node {
    node.(issued := node.issued[invoice.paymentHash := Issued(invoice, preimage, origin)])
  }

  function AfterVerify(s: State, c: Commitment, terms: Terms, now: U64, verdict: Result<Proof, ErrorReason>): State {
    match verdict
    case Ok(proof) =>
      s.(process := s.process.(pending := s.process.pending[s.process.nextId := Pending(c, terms, proof, now)],
                               nextId := s.process.nextId + 1))
    case Err(reason) => s.(ledger := s.ledger.(log := s.ledger.log + [Refused(reason)]))
  }

  /** The effect of a step. With `forgets` false the pruner's deletion leaves the table alone. */
  ghost function Next(ext: Externals, s: State, step: Step, forgets: bool): State
    requires Enabled(ext, s, step)
  {
    match step
    case Challenge(request, text, preimage, now) =>
      var c := CommitmentOf(s.process.config, request).value;
      var terms := TermsFor(ext, s.process.config, c);
      var node := AfterIssue(s.node, Decode(ext.parseInvoice, text).value, preimage, ForX402(c));
      s.(node := if CheckIssued(ext, text, terms, now).Ok? then node.(offers := node.offers + {Offer(terms, text)})
                 else node)
    case MintToken(text, preimage) =>
      var invoice := Decode(ext.parseInvoice, text).value;
      s.(node := AfterIssue(s.node, invoice, preimage, ForL402).(minted := s.node.minted + {invoice.paymentHash}))
    case Pay(hash, msat) =>
      s.(node := s.node.(payments := s.node.payments + [Payment(hash, msat)],
                         known := s.node.known + {s.node.issued[hash].preimage}))
    case Learn(bytes) => s.(node := s.node.(known := s.node.known + {bytes}))
    case VerifyRead(request, payload, now) =>
      var c := CommitmentOf(s.process.config, request).value;
      var terms := TermsFor(ext, s.process.config, c);
      AfterVerify(s, c, terms, now, Verify(ext, payload, terms, now))
    case Consume(id) => Consumed(s, id)
    case StoreError(id) => s.(process := s.process.(pending := Without(s.process.pending, id)))
    case Respond(index) =>
      s.(process := s.process.(responding := s.process.responding - {index}),
         ledger := s.ledger.(dispensed := s.ledger.dispensed + {index}))
    case PruneRead(now) => s.(process := s.process.(pruneReading := Some(now)))
    case PruneDelete =>
      var now := s.process.pruneReading.value;
      s.(store := Store(if forgets then Pruned(s.store.table, now) else s.store.table, WithPrune(s.store.history, now)),
         process := s.process.(pruneReading := None))
    case PruneError => s.(process := s.process.(pruneReading := None))
    case Redeem(header) =>
      var c := L402.ParseAuthorization(header).value;
      if L402.VerifyL402(ext.sha256, ext.hmac, s.process.config.rootKey, c.tokenText, c.preimage).Ok?
      then s.(ledger := s.ledger.(l402Served := s.ledger.l402Served + [ext.sha256(c.preimage)])) else s
    case Restart(config) => s.(process := Process(config, map[], s.process.nextId, None, {}))
  }

  /**
    The two steps of a request together are `settle` on the table: same answer,
    same table. The request no longer waits; a sale is on record, with its
    response on the way, and a duplicate changes nothing else.
  */
  lemma ConsumeIsSettle(s: State, id: nat)
    requires id in s.process.pending
    ensures var p := s.process.pending[id];
            var t, sale := Consumed(s, id), |s.ledger.settled|;
            && t.node == s.node && t.process.pending.Keys == s.process.pending.Keys - {id}
            && t.process == s.process.(pending := t.process.pending, responding := t.process.responding)
            && match SettleAnswer(s.store.table, p.terms.network, Ok(p.proof), true)
               case Ok(transaction) =>
                 && transaction == Hex.Encode(p.proof.paymentHash)
                 && t.store.table == s.store.table[KeyOf(p) := SqlTime(p.proof.retainUntil)]
                 && t.process.responding == s.process.responding + {sale}
                 && t.ledger == s.ledger.(
                      settled := s.ledger.settled + [Settlement(p.commitment, p.terms, p.proof.paymentHash)],
                      log := s.ledger.log + [Sold(KeyOf(p))])
               case Err(e) =>
                 && e == Rejected(DuplicateSettlement)
                 && t.store == s.store && t.process.responding == s.process.responding
                 && t.ledger == s.ledger.(log := s.ledger.log + [Duplicate(KeyOf(p))])
  {
  }

  // ----- Runs

  /** The steps can be taken one after the other. */
  ghost predicate Legal(ext: Externals, s: State, steps: seq<Step>, forgets: bool := true)
    decreases |steps|
  {
    steps == [] || (Enabled(ext, s, steps[0]) && Legal(ext, Next(ext, s, steps[0], forgets), steps[1..], forgets))
  }

  ghost function Exec(ext: Externals, s: State, steps: seq<Step>, forgets: bool := true): State
    requires Legal(ext, s, steps, forgets)
    decreases |steps|
  {
    if steps == [] then s else Exec(ext, Next(ext, s, steps[0], forgets), steps[1..], forgets)
  }

  /**
    The clock discipline for one consumption: no prune since the key was
    inserted used a reading that is ahead of the request's own reading by more
    than `margin`, less the growth of the skew setting since the insertion.
  */
  ghost predicate TimelyStep(s: State, step: Step, margin: int) {
    step.Consume? && step.id in s.process.pending && KeyOf(s.process.pending[step.id]) in s.store.history ==>
      var p := s.process.pending[step.id];
      var earlier := s.store.history[KeyOf(p)];
      earlier.latestPrune.Some? ==>
        earlier.latestPrune.value - p.now <= margin - (p.terms.clockSkewSecs - earlier.skew)
  }

  ghost predicate Timely(ext: Externals, s: State, steps: seq<Step>, margin: int)
    decreases |steps|
  {
    steps == [] || (&& Enabled(ext, s, steps[0])
                    && TimelyStep(s, steps[0], margin)
                    && Timely(ext, Next(ext, s, steps[0], true), steps[1..], margin))
  }
}
