/**
  The replay store forgets, and when that cannot be observed: the clock
  discipline under which one payment buys one fortune.
*/
module Forgetting {
  import opened Replay
  import opened Server
  import opened Safety
  import opened Lnbtc
  import Acceptance
  import Binding

  /**
    A consumed key is missing exactly when some prune since its insertion had
    a reading past the true end of retention, in unbounded integers, and that
    end fits the signed column.
  */
  ghost predicate ForgetsExactly(s: State) {
    forall key :: key in s.store.history ==>
      && s.store.history[key].hash in s.node.issued
      && (key !in s.store.table <==> Forgotten(s.node.issued[s.store.history[key].hash].invoice, s.store.history[key]))
  }

  /** In every reachable state, with no assumption about clocks. */
  lemma ForgottenExactly(ext: Externals, config: Config, steps: seq<Step>)
    requires Binding.CanonicalNames(config.boundHeaders) && Legal(ext, Init(config), steps)
    ensures ForgetsExactly(Exec(ext, Init(config), steps))
  {
    InitInv(ext, config);
    RunInv(ext, Init(config), steps);
    StoreInvMeaning(Exec(ext, Init(config), steps));
  }

  lemma StoreInvMeaning(s: State)
    requires StoreInv(s)
    ensures ForgetsExactly(s)
  {
    forall key | key in s.store.history
      ensures s.store.history[key].hash in s.node.issued
      ensures key !in s.store.table <==>
              Forgotten(s.node.issued[s.store.history[key].hash].invoice, s.store.history[key])
    {
      assert KeyInv(s, key);
    }
  }

  // ----- Requests that meet a forgotten key

  /**
    The step consumes a key that was consumed before, and that some prune since
    then removed: one with a reading past the end of its retention, in
    unbounded integers, where that end fits the signed column.
  */
  ghost predicate MeetsForgotten(s: State, step: Step) {
    && step.Consume? && step.id in s.process.pending
    && var key := KeyOf(s.process.pending[step.id]);
       && key in s.store.history && s.store.history[key].hash in s.node.issued
       && Forgotten(s.node.issued[s.store.history[key].hash].invoice, s.store.history[key])
  }

  /** No request of the run does. */
  ghost predicate NeverMeetsForgotten(ext: Externals, s: State, steps: seq<Step>)
    decreases |steps|
  {
    steps == [] || (&& Enabled(ext, s, steps[0])
                    && !MeetsForgotten(s, steps[0])
                    && NeverMeetsForgotten(ext, Next(ext, s, steps[0], true), steps[1..]))
  }

  /** A request meets a forgotten key exactly when its key was consumed and is not in the table. */
  lemma MeetsMeaning(s: State, id: nat)
    requires StoreInv(s) && id in s.process.pending
    ensures var key := KeyOf(s.process.pending[id]);
            MeetsForgotten(s, Consume(id)) <==> key in s.store.history && key !in s.store.table
  {
    var key := KeyOf(s.process.pending[id]);
    if key in s.store.history {
      assert KeyInv(s, key);
    }
  }

  /** What a key on record stands for: the payment hash of the request that holds it. */
  lemma KeyHash(s: State, p: Pending)
    requires StoreInv(s) && KeyOf(p) in s.store.history
    ensures s.store.history[KeyOf(p)].hash == p.proof.paymentHash
  {
    assert KeyInv(s, KeyOf(p));
    var ins := s.store.history[KeyOf(p)];
    var n :| NetworkCurrency(n) == s.node.issued[ins.hash].invoice.currency && KeyOf(p) == ReplayKey(n, ins.hash);
    Acceptance.ReplayKeyInjective(n, ins.hash, p.terms.network, p.proof.paymentHash);
  }

  /** A timely request does not: its own reading is still in the window, so retention has not ended. */
  lemma TimelyStepSafe(ext: Externals, s: State, step: Step, margin: int)
    requires StoreInv(s) && FlightInv(ext, s) && Enabled(ext, s, step)
    requires margin <= REPLAY_RETENTION_SECS && TimelyStep(s, step, margin)
    ensures !MeetsForgotten(s, step)
  {
    if step.Consume? && KeyOf(s.process.pending[step.id]) in s.store.history {
      var p := s.process.pending[step.id];
      assert PendingInv(ext, s, p);
      KeyHash(s, p);
    }
  }

  /** The clock discipline keeps every request from meeting a forgotten key. */
  lemma {:induction false} TimelySafe(ext: Externals, s: State, steps: seq<Step>, margin: int)
    requires Inv(ext, s) && margin <= REPLAY_RETENTION_SECS && Timely(ext, s, steps, margin)
    ensures NeverMeetsForgotten(ext, s, steps)
    decreases |steps|
  {
    if steps != [] {
      TimelyStepSafe(ext, s, steps[0], margin);
      InvKept(ext, s, steps[0]);
      TimelySafe(ext, Next(ext, s, steps[0], true), steps[1..], margin);
    }
  }

  /** A timely request still finds the key if it was ever consumed. */
  lemma TimelyFindsKey(ext: Externals, s: State, id: nat, margin: int)
    requires Inv(ext, s) && id in s.process.pending
    requires margin <= REPLAY_RETENTION_SECS && TimelyStep(s, Consume(id), margin)
    ensures KeyOf(s.process.pending[id]) in s.store.table <==> KeyOf(s.process.pending[id]) in s.store.history
  {
    TimelyStepSafe(ext, s, Consume(id), margin);
    MeetsMeaning(s, id);
  }

  // ----- Ledgers only grow

  ghost predicate Grows(s: State, t: State) {
    s.ledger.settled <= t.ledger.settled && s.ledger.log <= t.ledger.log
  }

  lemma NextGrows(ext: Externals, s: State, step: Step, forgets: bool)
    requires Enabled(ext, s, step)
    ensures Grows(s, Next(ext, s, step, forgets))
  {
  }

  lemma {:induction false} RunGrows(ext: Externals, s: State, steps: seq<Step>, forgets: bool)
    requires Legal(ext, s, steps, forgets)
    ensures Grows(s, Exec(ext, s, steps, forgets))
    decreases |steps|
  {
    if steps != [] {
      NextGrows(ext, s, steps[0], forgets);
      RunGrows(ext, Next(ext, s, steps[0], forgets), steps[1..], forgets);
    }
  }

  // ----- Pruning cannot be observed

  /** The two machines differ in nothing but their tables; the second one's holds every key ever consumed. */
  ghost predicate Unforgetful(s: State, t: State) {
    && t == s.(store := s.store.(table := t.store.table))
    && t.store.table.Keys == s.store.history.Keys
  }

  lemma SameEnabled(ext: Externals, s: State, t: State, step: Step)
    requires t.node == s.node && t.process == s.process
    ensures Enabled(ext, s, step) <==> Enabled(ext, t, step)
  {
    assert forall h :: Paid(s, h) <==> Paid(t, h);
  }

  lemma ConsumeUnobserved(ext: Externals, s: State, t: State, id: nat)
    requires StoreInv(s) && Unforgetful(s, t) && id in s.process.pending && !MeetsForgotten(s, Consume(id))
    ensures Unforgetful(Consumed(s, id), Consumed(t, id))
  {
    MeetsMeaning(s, id);
    var key := KeyOf(s.process.pending[id]);
    var u := Consumed(t, id);
    if key !in s.store.table {
      assert u.store.table.Keys == t.store.table.Keys + {key};
      assert Consumed(s, id).store.history.Keys == s.store.history.Keys + {key};
    }
  }

  /** A request that meets a forgotten key is a sale here and a duplicate there. */
  lemma ConsumeObserved(s: State, t: State, id: nat)
    requires StoreInv(s) && Unforgetful(s, t) && MeetsForgotten(s, Consume(id))
    ensures var key := KeyOf(s.process.pending[id]);
            && Consumed(s, id).ledger.log == s.ledger.log + [Sold(key)]
            && Consumed(t, id).ledger.log == s.ledger.log + [Duplicate(key)]
  {
    MeetsMeaning(s, id);
  }

  /** Outside the store, a step does not depend on the table unless it consumes. */
  lemma SameEffects(ext: Externals, s: State, t: State, step: Step)
    requires t.node == s.node && t.process == s.process && t.ledger == s.ledger
    requires Enabled(ext, s, step) && Enabled(ext, t, step) && !step.Consume?
    ensures var s', t' := Next(ext, s, step, true), Next(ext, t, step, false);
            t'.node == s'.node && t'.process == s'.process && t'.ledger == s'.ledger
  {
  }

  lemma SameStores(ext: Externals, s: State, t: State, step: Step)
    requires t.process == s.process && t.store.history == s.store.history
    requires Enabled(ext, s, step) && Enabled(ext, t, step) && !step.Consume?
    ensures var s', t' := Next(ext, s, step, true), Next(ext, t, step, false);
            && t'.store.history == s'.store.history && t'.store.table == t.store.table
            && s'.store.history.Keys == s.store.history.Keys
  {
  }

  lemma StepUnobserved(ext: Externals, s: State, t: State, step: Step)
    requires StoreInv(s) && Unforgetful(s, t) && Enabled(ext, s, step) && !MeetsForgotten(s, step)
    ensures Enabled(ext, t, step)
    ensures Unforgetful(Next(ext, s, step, true), Next(ext, t, step, false))
  {
    SameEnabled(ext, s, t, step);
    if step.Consume? {
      ConsumeUnobserved(ext, s, t, step.id);
    } else {
      SameEffects(ext, s, t, step);
      SameStores(ext, s, t, step);
    }
  }

  lemma {:induction false} RunUnobserved(ext: Externals, s: State, t: State, steps: seq<Step>)
    requires Inv(ext, s) && Unforgetful(s, t) && Legal(ext, s, steps) && NeverMeetsForgotten(ext, s, steps)
    ensures Legal(ext, t, steps, false)
    ensures Unforgetful(Exec(ext, s, steps), Exec(ext, t, steps, false))
    decreases |steps|
  {
    if steps != [] {
      InvKept(ext, s, steps[0]);
      StepUnobserved(ext, s, t, steps[0]);
      RunUnobserved(ext, Next(ext, s, steps[0], true), Next(ext, t, steps[0], false), steps[1..]);
    }
  }

  /** The logs part at the first request that meets a forgotten key, and never agree again. */
  lemma {:induction false} RunObserved(ext: Externals, s: State, t: State, steps: seq<Step>)
    requires Inv(ext, s) && Unforgetful(s, t) && Legal(ext, s, steps) && Legal(ext, t, steps, false)
    requires !NeverMeetsForgotten(ext, s, steps)
    ensures Exec(ext, s, steps).ledger.log != Exec(ext, t, steps, false).ledger.log
    decreases |steps|
  {
    var s', t', rest := Next(ext, s, steps[0], true), Next(ext, t, steps[0], false), steps[1..];
    if MeetsForgotten(s, steps[0]) {
      ConsumeObserved(s, t, steps[0].id);
      RunGrows(ext, s', rest, true);
      RunGrows(ext, t', rest, false);
      LogsPart(s', t', Exec(ext, s', rest), Exec(ext, t', rest, false), |s.ledger.log|);
    } else {
      InvKept(ext, s, steps[0]);
      StepUnobserved(ext, s, t, steps[0]);
      RunObserved(ext, s', t', rest);
    }
  }

  lemma LogsPart(s: State, t: State, s': State, t': State, n: nat)
    requires Grows(s, s') && Grows(t, t')
    requires n < |s.ledger.log| && n < |t.ledger.log| && s.ledger.log[n] != t.ledger.log[n]
    ensures s'.ledger.log != t'.ledger.log
  {
    assert s'.ledger.log[n] == s.ledger.log[n] && t'.ledger.log[n] == t.ledger.log[n];
  }

  /** The same run on a store that never forgets is legal and gives every request the same outcome. */
  ghost predicate Unobserved(ext: Externals, s: State, steps: seq<Step>)
    requires Legal(ext, s, steps)
  {
    Legal(ext, s, steps, false) && Exec(ext, s, steps, false).ledger == Exec(ext, s, steps).ledger
  }

  /**
    Exactly which runs cannot tell a pruned table from one that never forgets:
    those in which no request meets a forgotten key.
  */
  lemma UnobservedExactly(ext: Externals, config: Config, steps: seq<Step>)
    requires Binding.CanonicalNames(config.boundHeaders) && Legal(ext, Init(config), steps)
    ensures Unobserved(ext, Init(config), steps) <==> NeverMeetsForgotten(ext, Init(config), steps)
  {
    InitInv(ext, config);
    if NeverMeetsForgotten(ext, Init(config), steps) {
      RunUnobserved(ext, Init(config), Init(config), steps);
    } else if Legal(ext, Init(config), steps, false) {
      RunObserved(ext, Init(config), Init(config), steps);
    }
  }

  /**
    Under the clock discipline, the same run on a store that never forgets
    gives every request the same outcome and ends in the same state, except
    that its table still holds every key.
  */
  lemma PruningUnobservable(ext: Externals, config: Config, steps: seq<Step>)
    requires Binding.CanonicalNames(config.boundHeaders)
    requires Legal(ext, Init(config), steps) && Timely(ext, Init(config), steps, 3600)
    ensures Legal(ext, Init(config), steps, false)
    ensures var s, t := Exec(ext, Init(config), steps), Exec(ext, Init(config), steps, false);
            && t.ledger == s.ledger && t.process == s.process && t.node == s.node
            && t.store.history == s.store.history && t.store.table.Keys == s.store.history.Keys
  {
    InitInv(ext, config);
    TimelySafe(ext, Init(config), steps, 3600);
    RunUnobserved(ext, Init(config), Init(config), steps);
  }

  // ----- One payment, one sale

  /** A settled hash has its key on record, so a key not on record is of an unsold hash. */
  lemma HashUnsold(ext: Externals, s: State, p: Pending, i: nat)
    requires LogInv(ext, s) && PendingInv(ext, s, p)
    requires i < |s.ledger.settled| && KeyOf(p) !in s.store.history
    ensures s.ledger.settled[i].hash != p.proof.paymentHash
  {
    assert SettledInv(ext, s, s.ledger.settled[i]);
  }

  lemma SoldOnceKept(ext: Externals, s: State, step: Step)
    requires Enabled(ext, s, step) && Inv(ext, s) && SoldOnce(s) && !MeetsForgotten(s, step)
    ensures SoldOnce(Next(ext, s, step, true))
  {
    if Sells(s, step) {
      MeetsMeaning(s, step.id);
      SoldOnceAppend(ext, s, s.process.pending[step.id], Next(ext, s, step, true));
    } else {
      SellsNothing(ext, s, step);
    }
  }

  lemma SoldOnceAppend(ext: Externals, s: State, p: Pending, t: State)
    requires LogInv(ext, s) && PendingInv(ext, s, p) && SoldOnce(s) && KeyOf(p) !in s.store.history
    requires t.ledger.settled == s.ledger.settled + [Settlement(p.commitment, p.terms, p.proof.paymentHash)]
    ensures SoldOnce(t)
  {
    forall i | 0 <= i < |s.ledger.settled|
      ensures t.ledger.settled[i] == s.ledger.settled[i] && s.ledger.settled[i].hash != p.proof.paymentHash
    {
      HashUnsold(ext, s, p, i);
    }
  }

  lemma {:induction false} RunSoldOnce(ext: Externals, s: State, steps: seq<Step>)
    requires Inv(ext, s) && SoldOnce(s) && Legal(ext, s, steps) && NeverMeetsForgotten(ext, s, steps)
    ensures SoldOnce(Exec(ext, s, steps))
    decreases |steps|
  {
    if steps != [] {
      SoldOnceKept(ext, s, steps[0]);
      InvKept(ext, s, steps[0]);
      RunSoldOnce(ext, Next(ext, s, steps[0], true), steps[1..]);
    }
  }

  /** A request that meets a forgotten key buys with a payment hash that was sold before. */
  lemma SoldAgain(ext: Externals, s: State, id: nat)
    requires Inv(ext, s) && MeetsForgotten(s, Consume(id))
    ensures !SoldOnce(Consumed(s, id))
  {
    var p := s.process.pending[id];
    MeetsMeaning(s, id);
    KeyHash(s, p);
    assert SettledKey(s, KeyOf(p));
    var i :| 0 <= i < |s.ledger.settled| && s.ledger.settled[i].hash == p.proof.paymentHash;
    var settled := Consumed(s, id).ledger.settled;
    assert settled[i] == s.ledger.settled[i] && settled[|s.ledger.settled|].hash == p.proof.paymentHash;
  }

  /** What was sold twice stays sold twice. */
  lemma SoldOnceBefore(s: State, t: State)
    requires Grows(s, t) && SoldOnce(t)
    ensures SoldOnce(s)
  {
    assert forall i :: 0 <= i < |s.ledger.settled| ==> s.ledger.settled[i] == t.ledger.settled[i];
  }

  lemma {:induction false} RunSoldTwice(ext: Externals, s: State, steps: seq<Step>)
    requires Inv(ext, s) && Legal(ext, s, steps) && !NeverMeetsForgotten(ext, s, steps)
    ensures !SoldOnce(Exec(ext, s, steps))
    decreases |steps|
  {
    var t := Next(ext, s, steps[0], true);
    if MeetsForgotten(s, steps[0]) {
      SoldAgain(ext, s, steps[0].id);
      RunGrows(ext, t, steps[1..], true);
      if SoldOnce(Exec(ext, s, steps)) {
        SoldOnceBefore(t, Exec(ext, t, steps[1..]));
      }
    } else {
      InvKept(ext, s, steps[0]);
      RunSoldTwice(ext, t, steps[1..]);
    }
  }

  /**
    Exactly which runs sell every payment hash at most once: those in which no
    request meets a forgotten key.
  */
  lemma SoldOnceExactly(ext: Externals, config: Config, steps: seq<Step>)
    requires Binding.CanonicalNames(config.boundHeaders) && Legal(ext, Init(config), steps)
    ensures SoldOnce(Exec(ext, Init(config), steps)) <==> NeverMeetsForgotten(ext, Init(config), steps)
  {
    InitInv(ext, config);
    if NeverMeetsForgotten(ext, Init(config), steps) {
      RunSoldOnce(ext, Init(config), steps);
    } else {
      RunSoldTwice(ext, Init(config), steps);
    }
  }

  /** Over every timely run, a payment hash settles at most once. */
  lemma AtMostOneSettlement(ext: Externals, config: Config, steps: seq<Step>)
    requires Binding.CanonicalNames(config.boundHeaders)
    requires Legal(ext, Init(config), steps) && Timely(ext, Init(config), steps, 3600)
    ensures SoldOnce(Exec(ext, Init(config), steps))
  {
    InitInv(ext, config);
    TimelySafe(ext, Init(config), steps, 3600);
    SoldOnceExactly(ext, config, steps);
  }
}
