/** The durable record of consumed payment proofs (src/replay.rs). */
module Replay {
  import opened Wrappers
  import opened Words

  /** Key to retention time, as stored in the signed column. */
  type Table = map<string, int>

  /** Clamps a time to the signed column. */
  function SqlTime(secs: U64): int {
    if secs <= I64_MAX then secs else I64_MAX
  }

  function Inserted(table: Table, key: string, retainUntil: U64): Table {
    if key in table then table else table[key := SqlTime(retainUntil)]
  }

  function Pruned(table: Table, now: U64): Table {
    map key | key in table && table[key] >= SqlTime(now) :: table[key]
  }

  class ReplayStore {
    var consumed: Table
    /** Every key ever recorded: what a store that never forgets would hold. */
    ghost var everConsumed: set<string>

    ghost predicate Valid()
      reads this
    {
      consumed.Keys <= everConsumed
    }

    constructor ()
      ensures Valid() && consumed == map[] && everConsumed == {}
    {
      consumed := map[];
      everConsumed := {};
    }

    /** Records `key` unless it is already there; `false` means it was. `None` is a database failure. */
    method Consume(key: string, retainUntil: U64, available: bool) returns (inserted: Option<bool>)
      requires Valid()
      modifies this
      ensures Valid()
      ensures inserted == if available then Some(key !in old(consumed)) else None
      ensures consumed ==
              if available && key !in old(consumed) then old(consumed)[key := SqlTime(retainUntil)] else old(consumed)
      ensures everConsumed == if available then old(everConsumed) + {key} else old(everConsumed)
    {
      if !available {
        return None;
      }
      inserted := Some(key !in consumed);
      if key !in consumed {
        consumed := consumed[key := SqlTime(retainUntil)];
      }
      everConsumed := everConsumed + {key};
    }

    /** Deletes the keys whose retention ended before `now` and counts them. `None` is a database failure. */
    method Prune(now: U64, available: bool) returns (deleted: Option<nat>)
      requires Valid()
      modifies this`consumed
      ensures Valid()
      ensures consumed == if available then Pruned(old(consumed), now) else old(consumed)
      ensures forall key :: key in consumed <==>
                key in old(consumed) && !(available && old(consumed)[key] < SqlTime(now))
      ensures forall key :: key in consumed ==> consumed[key] == old(consumed)[key]
      ensures deleted.Some? <==> available
      ensures available ==>
                && deleted.value == |old(consumed)| - |consumed|
                && deleted.value == |set key | key in old(consumed) && old(consumed)[key] < SqlTime(now)|
    {
      if !available {
        return None;
      }
      ghost var before := consumed;
      ghost var gone := set key | key in consumed && consumed[key] < SqlTime(now);
      var size := |consumed|;
      consumed := map key | key in consumed && consumed[key] >= SqlTime(now) :: consumed[key];
      assert consumed.Keys == before.Keys - gone;
      assert |before.Keys| == |consumed.Keys| + |gone|;
      deleted := Some(size - |consumed|);
    }
  }

  // ----- Retention arithmetic

  const REPLAY_RETENTION_SECS: U64 := 3600

  function InvoiceEnd(created: U64, expiry: U64): U64 {
    SatAdd(created, expiry)
  }

  function LastValid(created: U64, expiry: U64, skew: U64): U64 {
    SatAdd(InvoiceEnd(created, expiry), skew)
  }

  function RetainUntil(created: U64, expiry: U64, skew: U64): U64 {
    SatAdd(LastValid(created, expiry, skew), REPLAY_RETENTION_SECS)
  }

  /**
    When a row is removed, in unbounded integers: despite two saturating
    additions and the clamp, `Pruned` drops it exactly when the pruner's
    reading is past the true end of retention, and never once that end does
    not fit the signed column.
  */
  lemma RowRemoved(table: Table, key: string, created: U64, expiry: U64, skew: U64, now: U64)
    requires key in table && table[key] == SqlTime(RetainUntil(created, expiry, skew))
    ensures var end := created + expiry + skew + 3600;
            key !in Pruned(table, now) <==> end < now && end < 0x7FFF_FFFF_FFFF_FFFF
  {
  }

  /** Pruning neither adds nor changes rows, and keeps doing less the smaller its reading. */
  lemma PruneMonotone(table: Table, early: U64, late: U64)
    requires early <= late
    ensures Pruned(table, late).Keys <= Pruned(table, early).Keys <= table.Keys
    ensures Pruned(Pruned(table, early), late) == Pruned(table, late)
    ensures Pruned(Pruned(table, late), early) == Pruned(table, late)
  {
  }

  // ----- The pruner

  /** One turn of the pruner: its clock reading, and whether the database answers. */
  datatype Tick = Tick(now: U64, available: bool)

  /** Some turn that succeeds removes a row with this retention time. */
  ghost predicate RemovedBy(ticks: seq<Tick>, retainUntil: int) {
    exists tick :: tick in ticks && tick.available && retainUntil < SqlTime(tick.now)
  }

  /** The pruner's loop, for any clock readings and failures at successive ticks. */
  method RunPruner(store: ReplayStore, ticks: seq<Tick>)
    requires store.Valid()
    modifies store`consumed
    ensures store.Valid()
    ensures forall key :: key in store.consumed <==>
              key in old(store.consumed) && !RemovedBy(ticks, old(store.consumed)[key])
    ensures forall key :: key in store.consumed ==> store.consumed[key] == old(store.consumed)[key]
  {
    for i := 0 to |ticks|
      invariant store.Valid()
      invariant forall key :: key in store.consumed <==>
                  key in old(store.consumed) && !RemovedBy(ticks[..i], old(store.consumed)[key])
      invariant forall key :: key in store.consumed ==> store.consumed[key] == old(store.consumed)[key]
    {
      var deleted := store.Prune(ticks[i].now, ticks[i].available);
      forall retainUntil: int
        ensures RemovedBy(ticks[..i + 1], retainUntil) <==>
                RemovedBy(ticks[..i], retainUntil) || (ticks[i].available && retainUntil < SqlTime(ticks[i].now))
      {
        RemovedSnoc(ticks[..i], ticks[i], retainUntil);
        assert ticks[..i + 1] == ticks[..i] + [ticks[i]];
      }
    }
    assert ticks[..|ticks|] == ticks;
  }

  lemma RemovedSnoc(ticks: seq<Tick>, tick: Tick, retainUntil: int)
    ensures RemovedBy(ticks + [tick], retainUntil) <==>
            RemovedBy(ticks, retainUntil) || (tick.available && retainUntil < SqlTime(tick.now))
  {
    assert tick in ticks + [tick];
    assert forall t :: t in ticks + [tick] <==> t in ticks || t == tick;
  }

  /** Any number of turns, in any order of their readings, remove what the latest successful reading removes. */
  lemma LatestReadingCounts(table: Table, ticks: seq<Tick>, latest: U64)
    requires Tick(latest, true) in ticks
    requires forall tick :: tick in ticks && tick.available ==> tick.now <= latest
    ensures forall key :: key in table ==> (RemovedBy(ticks, table[key]) <==> key !in Pruned(table, latest))
  {
    assert Tick(latest, true).available;
  }
}
