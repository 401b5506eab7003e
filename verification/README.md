# Verified model of fortune-402

fortune-402 sells fortunes for Lightning payments on two routes: `/x402`, where a
payment is bound to one request and is spent by using it, and `/fortune`, where
it buys a reusable L402 token. This project models the payment logic of the
server in Dafny and proves what it is for: one payment buys one fortune, of the
request it was made for, on the route it was made for, and every challenge that
goes out can be redeemed. `dafny verify dfyconfig.toml` checks the project.

## Layout

| files | content |
|---|---|
| `Words`, `Wrappers`, `Ascii`, `Lex`, `Decimal`, `Hex`, `Base64`, `Utf8` | machine integers and text encodings |
| `Json` | JSON values, their canonical serialization (RFC 8785), and a reader of it (RFC 8259) |
| `Binding`, `RequestHash` | binding parameters, combined header values, the request hash |
| `Invoices`, `Lnbtc`, `Acceptance` | reading invoices, checking payments, what is accepted and when |
| `Replay` | the replay store, its pruner and the retention arithmetic |
| `Tokens`, `L402` | L402 tokens and the authorization header |
| `Handlers` | the two HTTP handlers, effect by effect |
| `Server` | the whole server as a state machine |
| `Safety` | the invariants of every run |
| `Forgetting`, `Margin`, `Clocks` | exactly when the store's forgetting can be observed, how far clocks may be apart, and ordinary operation |
| `Redemption`, `Conservation`, `Interleaving`, `Isolation`, `Accounts` | theorems over runs |

What the program does by changing things in place is written as methods over
classes, arrays and loops (`ReplayStore`, `RunPruner`, `Settle`, `DecodeInvoice`,
`IsValidNameList`, `HeaderValueHash`, the handlers, the token buffers); each is
proved against a function or a declarative description. What it computes by
expressions is written as functions.

## The state machine

`Server.State` has four parts: the receiving node with its payers, the replay
store, the process (lost at a restart) and the ledger of what was sold and
handed out. The steps are: a challenge, minting an L402 token, a payment, a
client inventing bytes, verification of a payment, consumption of its key, a
store error, a response leaving, the pruner reading its clock, its deletion, its
failure, an L402 redemption, and a restart with any new configuration.
Verification and consumption are separate steps, any number of requests can be
between them, and a restart can fall anywhere.

A run is a list of steps. Every clock reading is a free parameter of its step:
clocks may run in any order, also backwards. The theorems divide as follows.

- Exactly which runs are safe. A request *meets a forgotten key* when it
  consumes a key that was consumed before and that some prune since then removed:
  one with a reading past created + expiry + skew + 3600, a sum that fits the
  signed column. `Forgetting.SoldOnceExactly` proves that a run sells every
  payment hash at most once iff no request of it meets a forgotten key, and
  `Forgetting.UnobservedExactly` that the same runs are those that cannot tell the
  pruned table from one that never forgets.
- A clock discipline that is enough. In a `Timely` run, when a request consumes a
  key that was consumed before, no prune since that insertion had a reading ahead
  of the request's own by more than the margin (3600 s), less the growth of the
  skew setting since the insertion. `Forgetting.TimelySafe` proves that such runs
  are safe. As a bound on the lag alone it cannot be relaxed: for every server that
  can issue some invoice whose retention is not clamped, `Margin.MarginIsExact`
  proves that a margin makes all its timely runs safe iff it is at most 3600.
- Ordinary operation. `Clocks.OrderlyIsTimely` proves that a run is timely if
  readings do not go back from one request or prune to the next, restarts do not
  raise the skew setting, and no prune reads its clock while a request verified
  more than an hour before is still waiting to be consumed.

The documentation of the store (src/replay.rs:9-11) says that keys are only
removed once their invoice can no longer pass validation. The code compares a
key's retention with the pruner's reading, not with the one a later request will
be validated with, so this is false in general: `Margin.OneSecondTooLate`
constructs, for every invoice whose retention is not clamped, a run that sells it
twice with a lag of 3601 seconds. What the code does promise is the equivalence
above.

## Assumptions

They are the preconditions `Server.Enabled` puts on steps, or explicit
preconditions of lemmas; nothing is assumed of the functions in
`Lnbtc.Externals` (SHA-256, HMAC, the BOLT11 parser), which are parameters.

- The node issues invoices only for this server, so an invoice that decodes with
  the server's own key as payee is on record as issued (README.md:78-80).
- The node picks a preimage nobody knows, with a hash it never used
  (src/lnd.rs:79-100); the invoice it returns decodes and has that payment hash.
- An invoice for `/x402` has the description hash it was asked for; an invoice for
  `/fortune` carries its memo as an inline description (src/lnd.rs:33-54).
- A client presents a preimage only if it knows it: by paying its invoice, or as
  bytes of its own, which do not hash to the payment hash of an issued invoice.
- An invoice is paid at most once, for at least its amount.
- A token that passes under the root key was minted by the server.
- The configured bound headers form a canonical list. The list is otherwise
  arbitrary, although it is empty today (src/x402/binding.rs:15).
- Where equal hashes have to mean equal inputs, SHA-256 is injective on an
  explicit finite set: the strings hashed for the two requests being compared.

## Model

| member | source | states |
|---|---|---|
| Forgetting.SoldOnceExactly | src/x402/lnbtc.rs:433-455 | Exactly which runs are safe: over every run, each payment hash settles at most once iff no request meets a forgotten key |
| Forgetting.UnobservedExactly | src/replay.rs:35-50 | Over every run: on a store that never forgets the same run is legal with the same outcomes iff no request meets a forgotten key |
| Forgetting.TimelySafe | src/x402/lnbtc.rs:369-379 | In a run within the clock discipline no request meets a forgotten key |
| Forgetting.MeetsMeaning | src/replay.rs:43-60 | A request meets a forgotten key, described by prune readings and invoice times, iff its key was consumed and is not in the table |
| Clocks.OrderlyIsTimely | src/x402/handler.rs:131-143 | Readings that never go back, no raised skew setting, and no prune while a request has been waiting for over an hour imply the clock discipline |
| Clocks.OrderlySellsOnce | src/x402/lnbtc.rs:433-455 | So in ordinary operation each payment hash settles at most once |
| Forgetting.PruningUnobservable | src/x402/lnbtc.rs:369-379 | Over every timely run with restarts, the server with the pruned table gives every request the same outcome, and ends in the same state, as the same run on a store that never forgets |
| Forgetting.AtMostOneSettlement | src/x402/lnbtc.rs:433-455 | Over every timely run, with any number of concurrent requests, prunes and restarts, each payment hash settles at most once |
| Forgetting.ForgottenExactly | src/replay.rs:43-60 | In every reachable state, whatever the clocks do, a key consumed before is missing from the table iff some prune since its insertion read a time past created + expiry + skew + 3600 and that sum, in unbounded integers, is below the clamp |
| Forgetting.TimelyFindsKey | src/x402/lnbtc.rs:369-379 | A timely request finds its key in the table iff the key was ever consumed |
| Forgetting.RunUnobserved | src/replay.rs:35-50 | The simulation behind it: from an invariant state and one that differs only in holding the forgotten keys, a run that meets none of them keeps it that way |
| Margin.MarginIsExact | src/x402/lnbtc.rs:29-31 | For every server and every invoice it can issue without clamping: all runs within a lag of `margin` sell each payment hash at most once iff `margin <= 3600` |
| Margin.OneSecondTooLate | src/x402/lnbtc.rs:369-379 | For every issuable invoice and every two skew settings that do not saturate or clamp, a run with a lag of 3601 seconds sells one payment hash twice |
| Margin.ExampleIssuable | src/x402/lnbtc.rs:298-305 | The premises of both are satisfiable: a concrete server, request and invoice, with no hash collision on what is hashed for the request |
| Accounts.FortunesAccountedFor | src/x402/handler.rs:202-218 | Over every run: exactly as many fortunes were handed out as responses left, and every sale is on its way, handed out or cut off by a restart, and only one of these |
| Accounts.RequestsAccountedFor | src/x402/lnbtc.rs:435-455 | Over every run: every paid request has exactly one outcome on the log, is under way, or was dropped by a store failure or restart; the sales on the log are the settlements |
| Accounts.PaymentsRecorded | README.md:45-46 | The payments on record are those of the run's steps, in order and with their amounts |
| Accounts.HoldingsAccountedFor | src/x402/handler.rs:250-281 | Over every run: the invoices on record, minted hashes, offers and known preimages are exactly those its steps brought; a challenge brings an offer iff its invoice passes the check |
| Accounts.OfferDelivered | src/x402/handler.rs:202-218 | In every reachable state, every paid unsold offer can be verified and consumed in its window, and then exactly that sale's fortune can leave |
| Accounts.TokenServed | src/handlers.rs:30-40 | In every reachable state, the token of a paid `/fortune` invoice with its preimage is served, as often as it is shown |
| Accounts.TokenBought | src/handlers.rs:43-75 | Any invoice with a memo can be issued and paid on `/fortune`, after which its token is served |
| Accounts.VerifyEffect | src/x402/lnbtc.rs:317-380 | Verification leaves a request waiting with its own terms and proof, or only the reason of the first broken rule |
| Accounts.ProcessEffect | src/x402/handler.rs:131-143 | The exact effect of prunes, store failures and restarts on the whole state |
| Accounts.RedeemEffect | src/handlers.rs:30-40 | A redemption is served iff its header authorizes it, and changes nothing else |
| Conservation.FortunesArePaidFor | src/x402/handler.rs:202-218 | Over every run in which no request meets a forgotten key, as in every timely one, across price changes: the fortunes handed out for a request hash never outnumber the paid invoices committing to it, and their prices never add up to more than was received |
| Conservation.InvBalanced | src/x402/lnbtc.rs:271-294 | The same from the state invariant: an injection of handed-out fortunes into payments that dominates amounts |
| Conservation.Dominated | src/x402/lnbtc.rs:433-455 | Items with distinct keys, each matched by key to an item of at least its weight, weigh no more in total |
| Interleaving.ExactlyOneIsServed | src/x402/lnbtc.rs:445-454 | With no crash, store failure or prune, n verified requests holding one fresh proof give, in every interleaving, exactly one sale and n - 1 duplicates |
| Interleaving.RunCounts | src/replay.rs:33-41 | Along every undisturbed run: what is waiting plus what was answered for a key is what was admitted, and at most the first answer is a sale |
| Isolation.RoutesIsolated | src/handlers.rs:43-60 | In every reachable state, tokens are minted only for L402 invoices, settlements are only of x402 invoices, and no payment hash is served on both routes |
| Isolation.MemoInvoiceRefused | src/x402/lnbtc.rs:227-230 | An invoice that carries an inline description never verifies on `/x402`, whatever else it carries; with everything else in order the reason is its description |
| Safety.MemoCommitsToNothing | src/handlers.rs:43-49 | The memo is why: with an inline description an invoice yields no description hash, even if it has one |
| Isolation.L402InvoiceRefused | src/x402/lnbtc.rs:272-274 | An invoice issued on `/fortune` never verifies on `/x402`; with everything else in order the reason is its description |
| Isolation.X402PreimageRefused | src/l402.rs:44-54 | A preimage paid for on `/x402` passes with no token on `/fortune` |
| Isolation.PaymentsBoundToRequests | src/x402/binding.rs:3-5 | Over every run, whatever the clocks: each settlement is for the method, URL, body and bound headers its invoice was issued for, unless the hash collides on their inputs |
| Isolation.CommitmentSays | src/x402/handler.rs:170-182 | A request commits to its own method, public URL, body and bound header values |
| Isolation.SameRequest | src/x402/handler.rs:170-182 | Requests with equal commitments agree in method, path, body and in every bound header |
| Redemption.OfferRedeemable | src/x402/handler.rs:250-280 | In every reachable state, every paid offer can be answered for its request at any time in its window; the answer is a sale unless the key is in the table, where the key of an unsold hash never is |
| Redemption.RedeemRun | src/x402/lnbtc.rs:435-455 | The state after verification and consumption of such an answer, and when that run is timely |
| Safety.RunInv | src/x402/handler.rs:163-233 | Every state of every run satisfies the invariant over node, tokens, requests in flight, table, history and settlements |
| Safety.InvKept | src/x402/handler.rs:163-233 | Every single step keeps it |
| Safety.VerifiedIsBacked | src/x402/lnbtc.rs:317-380 | Whatever verification accepts is the proof of an invoice the node issued, that was paid, and that is what the terms ask for |
| Safety.StoreInvKept | src/x402/handler.rs:131-143 | Every step keeps: which keys of the history are gone from the table, and the exact retention of the others |
| Safety.KeyInvPrune | src/replay.rs:44-50 | A prune keeps it, and forgets exactly the keys whose true retention end is before its reading |
| Server.ConsumeIsSettle | src/x402/lnbtc.rs:441-454 | The machine's consumption step gives the answer and the table of `settle`; it removes the request, records a sale with its response on the way, and changes nothing else |
| Acceptance.AcceptsExactlyRedemptions | src/x402/lnbtc.rs:317-380 | `verify` accepts iff the payload echoes the server's own requirements for an invoice that matches the terms, with the preimage of its hash, at a time in its window |
| Acceptance.AcceptedRedeems | src/x402/lnbtc.rs:317-380 | From an accepted payload: the invoice and preimage it redeems, and the proof with its retention time |
| Acceptance.RedemptionAccepted | src/x402/lnbtc.rs:317-380 | Every redemption is accepted, with that proof |
| Acceptance.VerifyFollowsRules | src/x402/lnbtc.rs:317-415 | `verify` accepts iff each of 26 declarative rules, with names and currencies written out, holds, and otherwise answers the reason of the first broken one |
| Acceptance.RefusedExactly | src/x402/lnbtc.rs:317-415 | A reason is answered iff the first broken rule has it |
| Acceptance.AcceptedNames | src/x402/lnbtc.rs:21-24 | What an accepted payment says, written out: scheme, asset, network identifier, flow, profile, and the BOLT11 currency of the network |
| Acceptance.IssuedNames | src/x402/lnbtc.rs:67-73 | An invoice that may go out is in the BOLT11 currency of the network, written out |
| Acceptance.WindowIsExact | src/x402/lnbtc.rs:265-305 | The two saturating comparisons are the one interval [created - skew, created + expiry + skew] of unbounded integers |
| Acceptance.IssuedExactly | src/x402/lnbtc.rs:298-305 | The check before a challenge passes iff the text decodes to an invoice that matches the terms, at a time in [created - skew, created + expiry] |
| Acceptance.IssueTimesInWindow | src/x402/lnbtc.rs:298-305 | That interval holds every time at which the invoice could be sent out, and everything up to one skew later |
| Acceptance.ChallengeRedeemable | src/x402/lnbtc.rs:160-181 | The echo of the requirements of an invoice that passed the check, with its preimage, is accepted exactly in the window, which holds the time of issue; outside it the reason says on which side |
| Acceptance.EmptyTextRefused | src/x402/lnbtc.rs:345-348 | The one exception: the empty text is refused as a missing invoice, whatever the parser makes of it |
| Acceptance.ReplayKeyInjective | src/x402/lnbtc.rs:442-443 | Replay keys are equal iff network and payment hash are |
| Acceptance.Caip2Injective | src/x402/lnbtc.rs:59-65 | The network identifiers have one length and are distinct |
| Acceptance.HashTexts | src/x402/lnbtc.rs:358-364 | Texts of 64 lower-case hex digits are exactly the encodings of 32-byte values, so decoding one cannot fail |
| Lnbtc.Settle | src/x402/lnbtc.rs:435-455 | The answer of `settle`; success inserts exactly the proof's key with its retention, and a refusal or store failure leaves the store as it was |
| Lnbtc.ConsumeProof | src/x402/lnbtc.rs:442-454 | The same for the consuming half alone |
| Invoices.DecodeInvoice | src/x402/lnbtc.rs:203-262 | The loop over tagged fields computes the specification `Decode` |
| Invoices.DecodesExactly | src/x402/lnbtc.rs:203-262 | Decoding succeeds with an invoice iff it reads as such: exactly one payment hash, a description hash iff exactly one and no inline description, whole millisatoshis, the named or recovered payee, the first expiry or 3600 |
| Invoices.OrderIndependent | src/x402/lnbtc.rs:211-230 | The hashes extracted from the fields are the same for every permutation of them |
| Invoices.PaymentHashMeaning | src/x402/lnbtc.rs:224-226 | A payment hash is read iff one field and no other carries one |
| Invoices.CommittedHashMeaning | src/x402/lnbtc.rs:227-230 | A description hash is read iff it is the only one and there is no inline description |
| Replay.ReplayStore.Consume | src/replay.rs:35-41 | Atomic insert-if-absent: whether the key was new, and the whole new table; a failure changes nothing |
| Replay.ReplayStore.Prune | src/replay.rs:44-50 | The whole new table, and the number of rows deleted; a failure changes nothing |
| Replay.RowRemoved | src/replay.rs:43-60 | In unbounded integers, despite the saturating additions and the clamp: a row is removed iff created + expiry + skew + 3600 is before the reading and below the clamp |
| Replay.RunPruner | src/x402/handler.rs:131-143 | For any clock readings and failing turns: a key is gone iff some successful turn read a time above its retention, and every other row is unchanged |
| Words.SatAddMeaning | src/x402/lnbtc.rs:265-267 | 64-bit saturating addition, with the bound written out |
| Replay.LatestReadingCounts | src/x402/handler.rs:131-143 | Whatever the clock order, the turns remove what one prune with the latest successful reading removes |
| Replay.PruneMonotone | src/replay.rs:44-50 | Earlier readings remove less, and prunes absorb each other in either order |
| RequestHash.EqualHashes | src/x402/binding.rs:65-89 | Without a collision among the inputs used, two request hashes agree iff method, URL, body and, for each bound header, absence or presence and combined value agree |
| RequestHash.HashBinds | src/x402/binding.rs:65-89 | The same for commitments: equal hashes mean equal commitments |
| RequestHash.DocumentInjective | src/x402/binding.rs:80-87 | Equal canonical bytes of the hashed document mean equal components |
| RequestHash.DocumentText | src/x402/binding.rs:80-88 | The exact text that is hashed, in full characters: the domain, the body's hash, the entries of the bound headers in brackets, method and URL; the request hash is the hash of its UTF-8 bytes |
| RequestHash.HeadersWritten | src/x402/binding.rs:72-78 | The header entries in full characters, in list order |
| RequestHash.ParamsText | src/x402/binding.rs:17-20 | The canonical text of binding parameters in full |
| RequestHash.DocumentMemberOrder | src/x402/binding.rs:80-87 | Canonical form orders the document's members as section 3.2.3 of RFC 8785 requires |
| RequestHash.BindHeadersMeaning | src/x402/binding.rs:72-78 | One entry per bound name, in list order, each of that header's own value; fails iff one value is unreadable |
| RequestHash.EqualInputs | src/x402/binding.rs:91-98 | An absent header never hashes the bytes of a present one; present ones agree iff their combined values do |
| Json.CanonicalInjective | src/x402/binding.rs:87 | Canonical bytes of objects, arrays and strings are equal iff the values are |
| Json.ReadBack | src/x402/binding.rs:87 | A reader of JSON text, written apart from the serializer, reads every serialized value back, whatever follows |
| Json.EscapeShortest | src/x402/binding.rs:87 | Of the texts that read as a character, its escape is the shortest and the only one of its length, with lower-case digits (section 3.2.2.2 of RFC 8785) |
| Json.SerializePrefixFree | src/x402/binding.rs:87 | A serialized value can be told apart from any text after it: unique decodability |
| Json.ReadMembersBack | src/x402/binding.rs:80-87 | The same for the members of an object: the reader recovers the names, their values and the rest of the text |
| Json.ReadStringBack | src/x402/binding.rs:87 | The same for every escaped string |
| Binding.IsValidHttpParams | src/x402/binding.rs:25-50 | Answers whether the parameters are exactly one canonical list of names |
| Binding.IsValidNameList | src/x402/binding.rs:36-49 | The loop that compares neighbours only accepts iff every name is legal and above every earlier one |
| Binding.CanonicalNamesMeaning | src/x402/binding.rs:36-58 | A list is canonical iff every name is non-empty, not `payment-signature`, of visible ASCII without upper-case letters and the delimiters of RFC 9110, and the names ascend bytewise |
| Binding.CanonicalNamesUnique | src/x402/binding.rs:22-24 | Two canonical lists with the same names are equal |
| Binding.CanonicalParamsForm | src/x402/binding.rs:17-24 | Canonical parameters are exactly what the server itself builds from canonical name lists |
| Binding.ParamsEquality | src/x402/lnbtc.rs:410-413 | On canonical parameters, value equality is equality of canonical bytes |
| Binding.HeaderValueHash | src/x402/binding.rs:94-113 | The hash of the absence tag or of the presence tag and combined value; fails iff a line is unreadable; lookup ignores case |
| Binding.BindableIsLower | src/x402/binding.rs:52-58 | A name that can be bound is its own lower-case form, so lookup finds it as written |
| Binding.HeaderInputMeaning | src/x402/binding.rs:91-113 | The tag bytes 0x00 and 0x01, and which header bytes can be read as text |
| Binding.CombinedAppend | src/x402/binding.rs:109-111 | One line is trimmed, more lines are joined by a comma and a blank |
| Binding.TrimMeaning | src/x402/binding.rs:101-105 | Trimming removes blanks from both ends, all of them, and nothing else |
| Binding.MergeAdjacentLines | src/x402/binding.rs:91-113 | Sending adjacent header lines as one line of their combined value hashes the same bytes iff there was one line or the last one is not blank (section 2.1 of RFC 9421) |
| Binding.SendAsOneLine | src/x402/binding.rs:91-113 | The same for the whole header |
| Tokens.Serialize | src/token.rs:36-41 | The filled buffer encodes to the specified wire form |
| Tokens.Deserialize | src/token.rs:43-61 | The parse of any text, with its errors |
| Tokens.WireFormBijection | src/token.rs:36-61 | Over all strings: a text parses to a token iff it is the wire form of that token |
| Tokens.ParseErrors | src/token.rs:43-50 | Which error refuses a text: no canonical base64, or that of another number of bytes |
| Base64.GroupWritten | src/token.rs:36-41 | The symbols of a group are its bits six at a time in the standard alphabet, then padding |
| Base64.DecodesIffEncoded | src/token.rs:43-46 | Strict decoding yields bytes iff the text is their canonical encoding (sections 3.5 and 4 of RFC 4648) |
| L402.ParsesExactly | src/l402.rs:20-39 | A header parses to a token text and preimage iff it is the scheme, that text without a colon, a colon, and hex of those 32 bytes |
| L402.ParseErrors | src/l402.rs:20-27 | A header is refused for its scheme or separator iff it does not start with the scheme, or has no colon after it |
| L402.PartsDecide | src/l402.rs:25-38 | Any other header is decided by what stands after its first colon |
| L402.RefusedToken | src/l402.rs:44-54 | A well-formed token is refused for its signature first, then for its preimage |
| L402.AcceptsExactlyMinted | src/l402.rs:44-54 | A preimage is accepted with exactly one token text: base64 of its hash and that hash's MAC |
| L402.RoundTrip | src/l402.rs:20-54 | For every root key and preimage: the header built from the minted token parses to its parts and is accepted |
| Handlers.GetX402Fortune | src/x402/handler.rs:163-233 | Every answer: a fortune iff the request carries a payment that buys it and the store answers, with the exact row added; the challenge of an unsigned request; the answer to every refused payment; the bad requests |
| Handlers.SettleRequest | src/x402/handler.rs:202-232 | The paid branch: a sale and its row, or a challenge with the reason of the first broken rule or the duplicate, or an error if the store fails |
| Handlers.SendChallenge | src/x402/handler.rs:250-281 | If the node answers with an invoice that passes the check, the requirements of that very invoice go out, otherwise an error |
| Handlers.OfferSays | src/x402/lnbtc.rs:160-181 | What an offer says, field by field in full, under the server's configuration |
| Handlers.BuysMeans | src/x402/lnbtc.rs:435-455 | "Buys" in these contracts, said without the verifier's branches, is what `settle` tests |
| Handlers.GetL402Fortune | src/handlers.rs:20-75 | Every answer: a fortune iff the header authorizes; a refusal iff it is unreadable or an L402 one that does not; a challenge iff it is neither and the node answers with a 32-byte hash, with the token of that hash |
| Handlers.AuthorizesMeans | src/l402.rs:20-54 | That description of the header is what parsing and verification test |
| Hex.EncodeAt | src/x402/lnbtc.rs:164 | Each byte is written as its two digits, the high one first |
| Hex.DecodesIffEncoded | src/l402.rs:29 | A text decodes to bytes iff it is their encoding up to letter case |
| Lex.LessMeaning | src/x402/binding.rs:44 | The order of names and keys: a proper prefix first, otherwise the first difference decides |
| Utf8.CharSpelled | src/x402/binding.rs:87-88 | A character's bytes spell it by the table of section 3 of RFC 3629 |
| Decimal.ReadBack | src/x402/lnbtc.rs:172 | An amount's text, read by place value, is the amount, without leading zeros |
| Decimal.Injective | src/x402/lnbtc.rs:328-330 | Amount texts match iff the amounts do |

## Left out

- BOLT11 bech32 parsing, signature checks and key recovery: the parser is a parameter that hands over the fields it found, the amount in pico-BTC if it fits, the signature verdict and the recovered key.
- SHA-256 and HMAC: parameters; nothing is assumed about them beyond the section on assumptions.
- The node's gRPC interface, axum routing, CORS, the async runtime and SQLite: only their step semantics are kept (atomic insert-if-absent, atomic deletion below a bound, a table that survives restarts).
- Base64 and JSON decoding of the payment header: a payload is a datatype of untrusted strings and JSON values; a header that does not decode is one case of `Handlers.Signature`.
- JSON numbers, booleans and null in canonical form: request bindings hold objects, arrays and strings only.
- Environment parsing and the arithmetic guards of `from_app`: configuration values are arbitrary unsigned 64-bit integers, more than the guards let through.
- Fortune selection, HTML index, health probe, watchdog, logging and the mapping from errors to status codes.
- The text of the `www-authenticate` header: `Handlers` models the token and invoice it carries.
- Exactly-once delivery: consumption precedes the response, so a crash between them loses a fortune; only at-most-once is claimed, and only for `/x402`, since L402 tokens are reusable by design.
- Requests that are answered without touching any state (bad requests, challenges whose invoice the node refuses to issue) are modelled in `Handlers`, not as steps of `Server`.
- Two server processes working on one database at the same time.
