/** Over whole runs: what is handed out never exceeds what was paid for. */
module Conservation {
  import opened Wrappers
  import opened Words
  import opened Lnbtc
  import opened Server
  import opened Safety
  import Binding
  import Forgetting

  // ----- Sums

  function Sum<T>(weight: T -> nat, xs: seq<T>): nat {
    if xs == [] then 0 else weight(xs[0]) + Sum(weight, xs[1..])
  }

  lemma {:induction false} SumRemove<T>(weight: T -> nat, xs: seq<T>, k: nat)
    requires k < |xs|
    ensures Sum(weight, xs) == weight(xs[k]) + Sum(weight, xs[..k] + xs[k + 1..])
  {
    if k == 0 {
      assert xs[..0] + xs[1..] == xs[1..];
    } else {
      SumRemove(weight, xs[1..], k - 1);
      var rest := xs[..k] + xs[k + 1..];
      assert rest[0] == xs[0] && rest[1..] == xs[1..][..k - 1] + xs[1..][k..];
    }
  }

  /** `b` has, for the key of `x`, an element of at least its weight. */
  ghost predicate Covers<A, B>(x: A, b: seq<B>, keyA: A -> Hash32, keyB: B -> Hash32,
                               weightA: A -> nat, weightB: B -> nat) {
    exists j :: 0 <= j < |b| && keyB(b[j]) == keyA(x) && weightA(x) <= weightB(b[j])
  }

  ghost predicate DistinctKeys<A>(a: seq<A>, keyA: A -> Hash32) {
    forall i, j :: 0 <= i < j < |a| ==> keyA(a[i]) != keyA(a[j])
  }

  /** Elements with distinct keys, each covered by an element of `b`, weigh no more than `b`. */
  lemma {:induction false} Dominated<A, B>(a: seq<A>, b: seq<B>, keyA: A -> Hash32, keyB: B -> Hash32,
                                           weightA: A -> nat, weightB: B -> nat)
    requires DistinctKeys(a, keyA)
    requires forall i :: 0 <= i < |a| ==> Covers(a[i], b, keyA, keyB, weightA, weightB)
    ensures Sum(weightA, a) <= Sum(weightB, b)
  {
    if a != [] {
      assert Covers(a[0], b, keyA, keyB, weightA, weightB);
      var k :| 0 <= k < |b| && keyB(b[k]) == keyA(a[0]) && weightA(a[0]) <= weightB(b[k]);
      var rest := b[..k] + b[k + 1..];
      forall i | 0 <= i < |a[1..]|
        ensures Covers(a[1..][i], rest, keyA, keyB, weightA, weightB)
      {
        var x := a[1..][i];
        assert x == a[i + 1] && Covers(a[i + 1], b, keyA, keyB, weightA, weightB);
        var j :| 0 <= j < |b| && keyB(b[j]) == keyA(x) && weightA(x) <= weightB(b[j]);
        assert j != k;
        var at := if j < k then j else j - 1;
        assert rest[at] == b[j];
      }
      Dominated(a[1..], rest, keyA, keyB, weightA, weightB);
      SumRemove(weightB, b, k);
    }
  }

  // ----- Fortunes and payments

  /** The settlements whose fortunes left the server. */
  function Fortunes(settled: seq<Settlement>, dispensed: set<nat>): seq<Settlement> {
    if settled == [] then []
    else
      var n := |settled| - 1;
      Fortunes(settled[..n], dispensed) + (if n in dispensed then [settled[n]] else [])
  }

  /** Each dispensed index stands for one fortune. */
  lemma {:induction false} FortuneCount(settled: seq<Settlement>, dispensed: set<nat>)
    requires forall i :: i in dispensed ==> i < |settled|
    ensures |Fortunes(settled, dispensed)| == |dispensed|
  {
    if settled == [] {
      assert dispensed == {};
    } else {
      var n := |settled| - 1;
      FortuneCount(settled[..n], dispensed - {n});
      SameFortunes(settled[..n], dispensed, n);
      if n in dispensed {
        assert |dispensed| == |dispensed - {n}| + 1;
      } else {
        assert dispensed - {n} == dispensed;
      }
    }
  }

  lemma {:induction false} SameFortunes(settled: seq<Settlement>, dispensed: set<nat>, n: nat)
    requires |settled| <= n
    ensures Fortunes(settled, dispensed - {n}) == Fortunes(settled, dispensed)
  {
    if settled != [] {
      SameFortunes(settled[..|settled| - 1], dispensed, n);
    }
  }

  /** Selecting keeps the hashes distinct and adds no settlement. */
  lemma {:induction false} FortunesSelect(settled: seq<Settlement>, dispensed: set<nat>)
    requires DistinctKeys(settled, SettlementHash)
    ensures DistinctKeys(Fortunes(settled, dispensed), SettlementHash)
    ensures forall x :: x in Fortunes(settled, dispensed) ==> x in settled
  {
    if settled != [] {
      var n := |settled| - 1;
      FortunesSelect(settled[..n], dispensed);
      var rest := Fortunes(settled[..n], dispensed);
      forall i | 0 <= i < |rest|
        ensures SettlementHash(rest[i]) != SettlementHash(settled[n])
      {
        assert rest[i] in settled[..n];
      }
    }
  }

  function SettlementHash(x: Settlement): Hash32 {
    x.hash
  }

  function PaymentHashOf(p: Payment): Hash32 {
    p.hash
  }

  function Price(x: Settlement): nat {
    x.terms.amountMsat
  }

  function Amount(p: Payment): nat {
    p.msat
  }

  function IsFor(h: Hash32): Settlement -> nat {
    (x: Settlement) => if x.terms.requestHash == h then 1 else 0
  }

  function CommitsTo(issued: map<Hash32, Issued>, h: Hash32): Payment -> nat {
    (p: Payment) => if p.hash in issued && issued[p.hash].invoice.descriptionHash == Some(h) then 1 else 0
  }

  function Revenue(fortunes: seq<Settlement>): nat {
    Sum(Price, fortunes)
  }

  function Received(payments: seq<Payment>): nat {
    Sum(Amount, payments)
  }

  function SoldFor(fortunes: seq<Settlement>, h: Hash32): nat {
    Sum(IsFor(h), fortunes)
  }

  function PaidFor(issued: map<Hash32, Issued>, payments: seq<Payment>, h: Hash32): nat {
    Sum(CommitsTo(issued, h), payments)
  }

  /** Every settlement has its own payment: of an invoice for its request, and of at least its price. */
  lemma SettlementCovered(ext: Externals, s: State, x: Settlement, h: Hash32)
    requires PaymentInv(s) && SettledInv(ext, s, x)
    ensures Covers(x, s.node.payments, SettlementHash, PaymentHashOf, IsFor(h), CommitsTo(s.node.issued, h))
    ensures Covers(x, s.node.payments, SettlementHash, PaymentHashOf, Price, Amount)
  {
    var j :| 0 <= j < |s.node.payments| && s.node.payments[j].hash == x.hash;
    assert PaymentHashOf(s.node.payments[j]) == SettlementHash(x);
    assert IsFor(h)(x) <= CommitsTo(s.node.issued, h)(s.node.payments[j]);
    assert Price(x) <= Amount(s.node.payments[j]);
  }

  lemma AllCovered(ext: Externals, s: State, fortunes: seq<Settlement>, h: Hash32)
    requires PaymentInv(s) && LogInv(ext, s) && forall x :: x in fortunes ==> x in s.ledger.settled
    ensures forall i :: 0 <= i < |fortunes| ==>
              Covers(fortunes[i], s.node.payments, SettlementHash, PaymentHashOf, IsFor(h), CommitsTo(s.node.issued, h))
    ensures forall i :: 0 <= i < |fortunes| ==>
              Covers(fortunes[i], s.node.payments, SettlementHash, PaymentHashOf, Price, Amount)
  {
    forall i | 0 <= i < |fortunes|
      ensures Covers(fortunes[i], s.node.payments, SettlementHash, PaymentHashOf, IsFor(h), CommitsTo(s.node.issued, h))
              && Covers(fortunes[i], s.node.payments, SettlementHash, PaymentHashOf, Price, Amount)
    {
      assert fortunes[i] in s.ledger.settled;
      SettlementCovered(ext, s, fortunes[i], h);
    }
  }

  /** The balance of a state: per request and in total, for the fortunes handed out. */
  ghost predicate Balanced(s: State) {
    var fortunes := Fortunes(s.ledger.settled, s.ledger.dispensed);
    && |fortunes| == |s.ledger.dispensed|
    && (forall h: Hash32 :: SoldFor(fortunes, h) <= PaidFor(s.node.issued, s.node.payments, h))
    && Revenue(fortunes) <= Received(s.node.payments)
  }

  lemma InvBalanced(ext: Externals, s: State)
    requires Inv(ext, s) && SoldOnce(s)
    ensures Balanced(s)
  {
    var settled, payments := s.ledger.settled, s.node.payments;
    var fortunes := Fortunes(settled, s.ledger.dispensed);
    FortuneCount(settled, s.ledger.dispensed);
    assert DistinctKeys(settled, SettlementHash);
    FortunesSelect(settled, s.ledger.dispensed);
    forall h: Hash32
      ensures SoldFor(fortunes, h) <= PaidFor(s.node.issued, payments, h) && Revenue(fortunes) <= Received(payments)
    {
      AllCovered(ext, s, fortunes, h);
      Dominated(fortunes, payments, SettlementHash, PaymentHashOf, IsFor(h), CommitsTo(s.node.issued, h));
      Dominated(fortunes, payments, SettlementHash, PaymentHashOf, Price, Amount);
    }
    assert Revenue(fortunes) <= Received(payments) by {
      assert SoldFor(fortunes, seq(32, _ => 0)) <= PaidFor(s.node.issued, payments, seq(32, _ => 0));
    }
  }

  /**
    Over every run in which no request meets a forgotten key, as in every timely
    one, and across price changes and restarts: the fortunes handed out for a
    request never outnumber the paid invoices committing to it, and their
    prices never add up to more than was received.
  */
  lemma FortunesArePaidFor(ext: Externals, config: Config, steps: seq<Step>)
    requires Binding.CanonicalNames(config.boundHeaders) && Legal(ext, Init(config), steps)
    requires Forgetting.NeverMeetsForgotten(ext, Init(config), steps) || Timely(ext, Init(config), steps, 3600)
    ensures Balanced(Exec(ext, Init(config), steps))
  {
    InitInv(ext, config);
    RunInv(ext, Init(config), steps);
    if Timely(ext, Init(config), steps, 3600) {
      Forgetting.TimelySafe(ext, Init(config), steps, 3600);
    }
    Forgetting.SoldOnceExactly(ext, config, steps);
    InvBalanced(ext, Exec(ext, Init(config), steps));
  }
}
