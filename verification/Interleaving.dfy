/** Concurrent requests with one proof: exactly one is served, in every interleaving. */
module Interleaving {
  import opened Lnbtc
  import opened Server

  /** No crash, no store failure, no prune. */
  predicate Undisturbed(step: Step) {
    !step.Restart? && !step.StoreError? && !step.PruneDelete?
  }

  /** The verified requests waiting with `key`. */
  function Waiting(s: State, key: string): set<nat> {
    set id | id in s.process.pending && KeyOf(s.process.pending[id]) == key
  }

  function Sales(log: seq<Outcome>, key: string): nat {
    if log == [] then 0
    else Sales(log[..|log| - 1], key) + (if log[|log| - 1] == Sold(key) then 1 else 0)
  }

  function Duplicates(log: seq<Outcome>, key: string): nat {
    if log == [] then 0
    else Duplicates(log[..|log| - 1], key) + (if log[|log| - 1] == Duplicate(key) then 1 else 0)
  }

  /** Whether a step lets in a request with `key`. */
  ghost function AdmittedBy(ext: Externals, s: State, step: Step, key: string): nat
    requires Enabled(ext, s, step)
  {
    var t := Next(ext, s, step, true);
    if step.VerifyRead? && t.process.nextId > s.process.nextId && KeyOf(t.process.pending[s.process.nextId]) == key
    then 1 else 0
  }

  /** How many requests pass verification with `key` along a run. */
  ghost function Admitted(ext: Externals, s: State, steps: seq<Step>, key: string): nat
    requires Legal(ext, s, steps)
    decreases |steps|
  {
    if steps == [] then 0
    else AdmittedBy(ext, s, steps[0], key) + Admitted(ext, Next(ext, s, steps[0], true), steps[1..], key)
  }

  /** Request numbers are never reused. */
  predicate FreshIds(s: State) {
    forall id :: id in s.process.pending ==> id < s.process.nextId
  }

  lemma NextFreshIds(ext: Externals, s: State, step: Step)
    requires FreshIds(s) && Enabled(ext, s, step)
    ensures FreshIds(Next(ext, s, step, true))
  {
  }

  lemma {:induction false} RunFreshIds(ext: Externals, s: State, steps: seq<Step>)
    requires FreshIds(s) && Legal(ext, s, steps)
    ensures FreshIds(Exec(ext, s, steps))
    decreases |steps|
  {
    if steps != [] {
      NextFreshIds(ext, s, steps[0]);
      RunFreshIds(ext, Next(ext, s, steps[0], true), steps[1..]);
    }
  }

  /** What one log entry adds to the counts. */
  lemma CountsSnoc(log: seq<Outcome>, x: Outcome, key: string)
    ensures Sales(log + [x], key) == Sales(log, key) + (if x == Sold(key) then 1 else 0)
    ensures Duplicates(log + [x], key) == Duplicates(log, key) + (if x == Duplicate(key) then 1 else 0)
  {
    assert (log + [x])[..|log|] == log;
  }

  /** A consumption answers one waiting request: a sale if the key was not in the table, else a duplicate. */
  lemma ConsumeCounts(s: State, id: nat, key: string)
    requires id in s.process.pending
    ensures var t := Consumed(s, id);
            var mine := if KeyOf(s.process.pending[id]) == key then 1 else 0;
            && |Waiting(t, key)| == |Waiting(s, key)| - mine
            && Sales(t.ledger.log, key) == Sales(s.ledger.log, key) + (if key in s.store.table then 0 else mine)
            && Duplicates(t.ledger.log, key)
               == Duplicates(s.ledger.log, key) + (if key in s.store.table then mine else 0)
            && (key in t.store.table <==> key in s.store.table || mine == 1)
  {
    var p := s.process.pending[id];
    CountsSnoc(s.ledger.log, if KeyOf(p) in s.store.table then Duplicate(KeyOf(p)) else Sold(KeyOf(p)), key);
    WaitingWithout(s, Consumed(s, id), id, key);
  }

  lemma WaitingWithout(s: State, t: State, id: nat, key: string)
    requires id in s.process.pending && t.process.pending == Without(s.process.pending, id)
    ensures |Waiting(t, key)| == |Waiting(s, key)| - (if KeyOf(s.process.pending[id]) == key then 1 else 0)
  {
    assert Waiting(t, key) == Waiting(s, key) - {id};
    assert id in Waiting(s, key) <==> KeyOf(s.process.pending[id]) == key;
  }

  /** Verification adds at most one waiting request and answers none of those that passed. */
  lemma VerifyCounts(s: State, t: State, key: string, p: Pending)
    requires FreshIds(s) && t.store == s.store
    requires || (t.process.nextId == s.process.nextId + 1 && t.ledger == s.ledger
                 && t.process.pending == s.process.pending[s.process.nextId := p])
             || (t.process == s.process && exists e :: t.ledger.log == s.ledger.log + [Refused(e)])
    ensures |Waiting(t, key)|
            == |Waiting(s, key)| + (if t.process.nextId > s.process.nextId && KeyOf(p) == key then 1 else 0)
    ensures Sales(t.ledger.log, key) == Sales(s.ledger.log, key)
    ensures Duplicates(t.ledger.log, key) == Duplicates(s.ledger.log, key)
  {
    if t.process == s.process {
      var e :| t.ledger.log == s.ledger.log + [Refused(e)];
      CountsSnoc(s.ledger.log, Refused(e), key);
      assert Waiting(t, key) == Waiting(s, key);
    } else if KeyOf(p) == key {
      assert Waiting(t, key) == Waiting(s, key) + {s.process.nextId};
    } else {
      assert Waiting(t, key) == Waiting(s, key);
    }
  }

  /** The effect of one undisturbed step on the counts for `key`; `admitted` is 1 if it lets in a request. */
  ghost predicate Counted(s: State, t: State, key: string, admitted: nat, answered: nat) {
    && Sales(t.ledger.log, key) + Duplicates(t.ledger.log, key)
       == Sales(s.ledger.log, key) + Duplicates(s.ledger.log, key) + answered
    && |Waiting(t, key)| + answered == |Waiting(s, key)| + admitted
    && Sales(t.ledger.log, key) == Sales(s.ledger.log, key) + (if key !in s.store.table && answered > 0 then 1 else 0)
    && (key in t.store.table <==> key in s.store.table || answered > 0)
  }

  lemma QuietStep(ext: Externals, s: State, step: Step)
    requires Enabled(ext, s, step) && Undisturbed(step) && !step.Consume? && !step.VerifyRead?
    ensures var t := Next(ext, s, step, true);
            t.ledger.log == s.ledger.log && t.process.pending == s.process.pending && t.store == s.store
  {
  }

  lemma VerifyStepCounts(ext: Externals, s: State, step: Step, key: string)
    requires Enabled(ext, s, step) && step.VerifyRead? && FreshIds(s)
    ensures Counted(s, Next(ext, s, step, true), key, AdmittedBy(ext, s, step, key), 0)
  {
    var c := CommitmentOf(s.process.config, step.request).value;
    var terms := TermsFor(ext, s.process.config, c);
    var verdict := Verify(ext, step.payload, terms, step.now);
    var p := Pending(c, terms, if verdict.Ok? then verdict.value else Proof(terms.requestHash, 0), step.now);
    VerifyCounts(s, AfterVerify(s, c, terms, step.now, verdict), key, p);
  }

  lemma StepCounts(ext: Externals, s: State, step: Step, key: string) returns (answered: nat)
    requires Enabled(ext, s, step) && Undisturbed(step) && FreshIds(s)
    ensures Counted(s, Next(ext, s, step, true), key, AdmittedBy(ext, s, step, key), answered)
  {
    answered := 0;
    if step.Consume? {
      ConsumeCounts(s, step.id, key);
      answered := if KeyOf(s.process.pending[step.id]) == key then 1 else 0;
    } else if step.VerifyRead? {
      VerifyStepCounts(ext, s, step, key);
    } else {
      QuietStep(ext, s, step);
      assert Waiting(Next(ext, s, step, true), key) == Waiting(s, key);
    }
  }

  lemma CountedTrans(s: State, t: State, u: State, key: string, a: nat, b: nat, m: nat, n: nat)
    requires Counted(s, t, key, a, m) && Counted(t, u, key, b, n)
    ensures Counted(s, u, key, a + b, m + n)
  {
  }

  lemma {:induction false} RunCounts(ext: Externals, s: State, steps: seq<Step>, key: string) returns (answered: nat)
    requires FreshIds(s) && Legal(ext, s, steps) && forall i :: 0 <= i < |steps| ==> Undisturbed(steps[i])
    ensures Counted(s, Exec(ext, s, steps), key, Admitted(ext, s, steps, key), answered)
    decreases |steps|
  {
    if steps == [] {
      answered := 0;
    } else {
      var t := Next(ext, s, steps[0], true);
      var now := StepCounts(ext, s, steps[0], key);
      NextFreshIds(ext, s, steps[0]);
      var rest := steps[1..];
      var later := RunCounts(ext, t, rest, key);
      var first, others := AdmittedBy(ext, s, steps[0], key), Admitted(ext, t, rest, key);
      CountedTrans(s, t, Exec(ext, t, rest), key, first, others, now, later);
      answered := now + later;
    }
  }

  /**
    From any reachable state: if `n` requests with one fresh proof are waiting
    or come in during an undisturbed run and all of them are answered, exactly
    one is sold and the other `n - 1` are duplicates, whatever the interleaving.
  */
  lemma ExactlyOneIsServed(ext: Externals, s: State, steps: seq<Step>, key: string, n: nat)
    requires FreshIds(s) && Legal(ext, s, steps) && forall i :: 0 <= i < |steps| ==> Undisturbed(steps[i])
    requires key !in s.store.table
    requires n == |Waiting(s, key)| + Admitted(ext, s, steps, key) && n > 0
    requires Waiting(Exec(ext, s, steps), key) == {}
    ensures var before, after := s.ledger.log, Exec(ext, s, steps).ledger.log;
            && Sales(after, key) == Sales(before, key) + 1
            && Duplicates(after, key) == Duplicates(before, key) + n - 1
  {
    var answered := RunCounts(ext, s, steps, key);
    assert |Waiting(Exec(ext, s, steps), key)| == 0;
  }
}
