/** Ordinary operation meets the clock discipline. */
module Clocks {
  import opened Words
  import opened Lnbtc
  import opened Server
  import Binding
  import Forgetting
  import Safety

  // ----- Ordinary operation

  /** The latest reading of a request or a prune, after `step`. */
  function ClockAfter(clock: U64, step: Step): U64 {
    match step
    case VerifyRead(_, _, now) => now
    case PruneRead(now) => now
    case _ => clock
  }

  /** No verified request has been waiting for more than an hour at `now`. */
  ghost predicate Prompt(s: State, now: U64) {
    forall id :: id in s.process.pending ==> now - s.process.pending[id].now <= 3600
  }

  /** The clock does not go back, the pruner finds no stale request, and restarts do not raise the skew setting. */
  ghost predicate OrderlyStep(s: State, step: Step, clock: U64) {
    match step
    case VerifyRead(_, _, now) => clock <= now
    case PruneRead(now) => clock <= now && Prompt(s, now)
    case Restart(config) => config.clockSkewSecs <= s.process.config.clockSkewSecs
    case _ => true
  }

  ghost predicate Orderly(ext: Externals, s: State, steps: seq<Step>, clock: U64)
    decreases |steps|
  {
    steps == [] || (&& Enabled(ext, s, steps[0])
                    && OrderlyStep(s, steps[0], clock)
                    && Orderly(ext, Next(ext, s, steps[0], true), steps[1..], ClockAfter(clock, steps[0])))
  }

  // ----- What it keeps

  /** No prune, done or under way, has a reading past `limit`. */
  ghost predicate PrunesUpTo(s: State, limit: int) {
    && (s.process.pruneReading.Some? ==> s.process.pruneReading.value <= limit)
    && (forall key :: key in s.store.history && s.store.history[key].latestPrune.Some? ==>
          s.store.history[key].latestPrune.value <= limit)
  }

  /** Requests in flight carry the current skew, keys on record at least that. */
  ghost predicate SkewsFall(s: State) {
    && (forall key :: key in s.store.history ==> s.process.config.clockSkewSecs <= s.store.history[key].skew)
    && (forall id :: id in s.process.pending ==>
          s.process.pending[id].terms.clockSkewSecs == s.process.config.clockSkewSecs)
  }

  ghost predicate ClockInv(s: State, clock: U64) {
    && PrunesUpTo(s, clock)
    && SkewsFall(s)
    && forall id :: id in s.process.pending ==> PrunesUpTo(s, s.process.pending[id].now + 3600)
  }

  lemma PrunesKept(ext: Externals, s: State, step: Step, limit: int)
    requires Enabled(ext, s, step) && PrunesUpTo(s, limit)
    requires step.PruneRead? ==> step.now <= limit
    ensures PrunesUpTo(Next(ext, s, step, true), limit)
  {
  }

  lemma SkewsKept(ext: Externals, s: State, step: Step, clock: U64)
    requires Enabled(ext, s, step) && SkewsFall(s) && OrderlyStep(s, step, clock)
    ensures SkewsFall(Next(ext, s, step, true))
  {
  }

  /** A request in flight after a step was so before, or was just verified with that step's reading. */
  lemma PendingAfter(ext: Externals, s: State, step: Step, id: nat)
    requires Enabled(ext, s, step) && id in Next(ext, s, step, true).process.pending
    ensures var p := Next(ext, s, step, true).process.pending[id];
            || (id in s.process.pending && p == s.process.pending[id])
            || (step.VerifyRead? && p.now == step.now)
  {
  }

  lemma ClockInvKept(ext: Externals, s: State, step: Step, clock: U64)
    requires Enabled(ext, s, step) && ClockInv(s, clock) && OrderlyStep(s, step, clock)
    ensures ClockInv(Next(ext, s, step, true), ClockAfter(clock, step))
  {
    var t := Next(ext, s, step, true);
    PrunesKept(ext, s, step, ClockAfter(clock, step));
    SkewsKept(ext, s, step, clock);
    forall id | id in t.process.pending
      ensures PrunesUpTo(t, t.process.pending[id].now + 3600)
    {
      PendingAfter(ext, s, step, id);
      PrunesKept(ext, s, step, t.process.pending[id].now + 3600);
    }
  }

  lemma {:induction false} OrderlyRun(ext: Externals, s: State, steps: seq<Step>, clock: U64)
    requires ClockInv(s, clock) && Orderly(ext, s, steps, clock)
    ensures Timely(ext, s, steps, 3600)
    decreases |steps|
  {
    if steps != [] {
      ClockInvKept(ext, s, steps[0], clock);
      OrderlyRun(ext, Next(ext, s, steps[0], true), steps[1..], ClockAfter(clock, steps[0]));
    }
  }

  /**
    If readings never go back from one request or prune to the next, restarts
    never raise the skew setting, and no prune reads its clock while a request
    verified more than an hour before is waiting, the run is timely.
  */
  lemma OrderlyIsTimely(ext: Externals, config: Config, steps: seq<Step>)
    requires Orderly(ext, Init(config), steps, 0)
    ensures Timely(ext, Init(config), steps, 3600)
  {
    OrderlyRun(ext, Init(config), steps, 0);
  }

  /** So in ordinary operation one payment buys one fortune. */
  lemma OrderlySellsOnce(ext: Externals, config: Config, steps: seq<Step>)
    requires Binding.CanonicalNames(config.boundHeaders)
    requires Legal(ext, Init(config), steps) && Orderly(ext, Init(config), steps, 0)
    ensures Safety.SoldOnce(Exec(ext, Init(config), steps))
  {
    OrderlyIsTimely(ext, config, steps);
    Forgetting.AtMostOneSettlement(ext, config, steps);
  }
}
