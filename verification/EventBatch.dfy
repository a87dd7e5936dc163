// record_events_batch of src/core/state.rs: a whole read of a watcher in one transaction. It looks
// each source's cycle up once, and leaves the marks and the observation times to the end.
module EventBatch {
  import opened Wrappers
  import opened StateDb
  import opened StateInvariant
  import opened State
  import opened StateRuns

  datatype Change = Change(source: string, path: Option<string>, rescan: bool)

  // What it is to be equal to: the changes recorded one by one.
  function RecordAll(db: Db, batch: seq<Change>, at: int): Db {
    if batch == [] then db
    else
      var c := batch[|batch| - 1];
      StateDb.RecordEvent(RecordAll(db, batch[..|batch| - 1], at), c.source, c.path, c.rescan, at)
  }

  // ---------------------------------------------------------------- what is still owed

  // The cycles but for marks not yet made.
  ghost predicate Unmarked(cycles: seq<Cycle>, marked: seq<Cycle>, owed: set<nat>) {
    && |cycles| == |marked|
    && forall i :: 0 <= i < |cycles| ==>
         marked[i] == if cycles[i].id in owed then cycles[i].(needsRescan := true) else cycles[i]
  }

  function Later(observed: map<string, int>, s: string, at: int): int {
    if s in observed && observed[s] > at then observed[s] else at
  }

  // The observation times but for sources not yet noted.
  ghost predicate Unnoted(observed: map<string, int>, noted: map<string, int>, owed: set<string>, at: int) {
    && noted.Keys == observed.Keys + owed
    && forall s :: s in noted ==> noted[s] == if s in owed then Later(observed, s, at) else observed[s]
  }

  // The cache of open cycles is right, and every id has been given out.
  ghost predicate CacheOk(cycles: seq<Cycle>, last: nat, ids: map<string, nat>) {
    && (forall s :: s in ids ==> OpenCycle(cycles, s).Some? && OpenCycle(cycles, s).value.id == ids[s])
    && forall i :: 0 <= i < |cycles| ==> cycles[i].id <= last
  }

  ghost predicate Owing(db: Db, full: Db, ids: map<string, nat>, owed: set<nat>, at: int) {
    && full.lastCycle == db.lastCycle && full.rows == db.rows && full.events == db.events
      && full.lastEvent == db.lastEvent
    && Unmarked(db.cycles, full.cycles, owed) && Unnoted(db.observed, full.observed, ids.Keys, at)
    && CacheOk(db.cycles, db.lastCycle, ids) && owed <= ids.Values
  }

  lemma {:induction false} OpenSame(cycles: seq<Cycle>, marked: seq<Cycle>, owed: set<nat>, s: string)
    requires Unmarked(cycles, marked, owed)
    ensures OpenCycle(cycles, s).Some? <==> OpenCycle(marked, s).Some?
    ensures OpenCycle(cycles, s).Some? ==> OpenCycle(cycles, s).value.id == OpenCycle(marked, s).value.id
  {
    if cycles != [] {
      OpenSame(cycles[..|cycles| - 1], marked[..|marked| - 1], owed, s);
    }
  }

  lemma OpenBehind(cycles: seq<Cycle>, c: Cycle, s: string)
    ensures OpenCycle(cycles + [c], s) == if c.source == s && c.status == Open then Some(c) else OpenCycle(cycles, s)
  {
    assert (cycles + [c])[..|cycles|] == cycles;
  }

  // Opening a cycle does not disturb what is owed: its id is new.
  lemma EnsureKeeps(db: Db, full: Db, ids: map<string, nat>, owed: set<nat>, s: string, at: int)
    requires Owing(db, full, ids, owed, at)
    ensures var (after, also) := (EnsureOpen(db, s, at), EnsureOpen(full, s, at));
      && OpenCycle(after.cycles, s).Some? && OpenIn(after, s) == OpenIn(also, s)
      && Unmarked(after.cycles, also.cycles, owed) && CacheOk(after.cycles, after.lastCycle, ids)
        && also.lastCycle == after.lastCycle
  {
    hide OpenCycle;
    OpenSame(db.cycles, full.cycles, owed, s);
    var after, also := EnsureOpen(db, s, at), EnsureOpen(full, s, at);
    if OpenCycle(db.cycles, s).None? {
      var c := Cycle(db.lastCycle + 1, s, at, Open, false, false);
      OpenBehind(db.cycles, c, s);
      forall id | id in owed ensures id <= db.lastCycle {
        var t :| t in ids && ids[t] == id;
        OpenCycleFound(db.cycles, t);
        var i :| 0 <= i < |db.cycles| && db.cycles[i] == OpenCycle(db.cycles, t).value;
      }
      forall t | t in ids ensures OpenCycle(after.cycles, t).Some? && OpenCycle(after.cycles, t).value.id == ids[t] {
        OpenBehind(db.cycles, c, t);
      }
    }
    OpenSame(after.cycles, also.cycles, owed, s);
  }

  // The batch's share of one change; `db` already has the source's cycle open.
  function Append(db: Db, c: Change, cycle: nat): Db {
    db.(events := db.events + [Event(db.lastEvent + 1, c.source, cycle, c.path, c.rescan)],
      lastEvent := db.lastEvent + 1)
  }

  lemma MarkAdded(cycles: seq<Cycle>, marked: seq<Cycle>, owed: set<nat>, id: nat)
    requires Unmarked(cycles, marked, owed)
    ensures Unmarked(cycles, SetRescan(marked, id), owed + {id})
  {}

  lemma NoteAdded(observed: map<string, int>, noted: map<string, int>, owed: set<string>, s: string, at: int)
    requires Unnoted(observed, noted, owed, at)
    ensures Unnoted(observed, noted[s := Later(noted, s, at)], owed + {s}, at)
  {}

  lemma CacheAdded(db: Db, ids: map<string, nat>, s: string, id: nat)
    requires CacheOk(db.cycles, db.lastCycle, ids) && OpenCycle(db.cycles, s).Some?
    requires OpenCycle(db.cycles, s).value.id == id
    ensures CacheOk(db.cycles, db.lastCycle, ids[s := id]) && (s in ids ==> ids[s] == id)
  {}

  lemma OwedAdded(ids: map<string, nat>, owed: set<nat>, s: string, id: nat)
    requires owed <= ids.Values && (s in ids ==> ids[s] == id)
    ensures ids[s := id].Keys == ids.Keys + {s} && owed + {id} <= ids[s := id].Values
  {
    var after := ids[s := id];
    assert s in after && id in after.Values;
    forall x | x in owed ensures x in after.Values {
      var t :| t in ids && ids[t] == x;
      assert t in after && after[t] == x;
    }
  }

  lemma OpenedInCache(db: Db, ids: map<string, nat>, s: string, at: int)
    requires CacheOk(db.cycles, db.lastCycle, ids) && s in ids
    ensures EnsureOpen(db, s, at) == db && OpenIn(db, s) == ids[s]
  {
    hide OpenCycle;
  }

  lemma AppendKeeps(db: Db, full: Db, ids: map<string, nat>, owed: set<nat>, c: Change, at: int)
    requires Owing(db, full, ids, owed, at)
    ensures var ready := EnsureOpen(db, c.source, at);
      var id := OpenIn(ready, c.source);
      && (c.source in ids ==> ready == db && id == ids[c.source])
      && Owing(Append(ready, c, id), StateDb.RecordEvent(full, c.source, c.path, c.rescan, at),
               ids[c.source := id], if c.rescan then owed + {id} else owed, at)
  {
    hide OpenCycle, Unmarked, Unnoted, CacheOk, SetRescan;
    var s, ready, also := c.source, EnsureOpen(db, c.source, at), EnsureOpen(full, c.source, at);
    EnsureKeeps(db, full, ids, owed, s, at);
    var id := OpenIn(ready, s);
    CacheAdded(ready, ids, s, id);
    OwedAdded(ids, owed, s, id);
    NoteAdded(db.observed, full.observed, ids.Keys, s, at);
    MarkAdded(ready.cycles, also.cycles, owed, id);
    if s in ids { OpenedInCache(db, ids, s, at); }
  }

  // ---------------------------------------------------------------- the method

  // One transaction that ends where the single records would: the cache, the marks and the
  // observation times made up for at the end change nothing.
  method RecordEventsBatch(state: State, batch: seq<Change>, at: int)
    requires Valid(state.View())
    modifies state
    ensures state.View() == RecordAll(old(state.View()), batch, at)
  {
    if batch == [] {
      return;
    }
    hide OpenCycle, Unmarked, Unnoted, CacheOk, Valid, EnsureOpen, OpenIn, StateDb.RecordEvent, RecordAll;
    hide Owing, Extends, IdsOf;
    var rescanSources: set<string> := {};
    var cycles: map<string, nat> := map[];
    ghost var full, owed := state.View(), {};
    NothingOwed(full, at);
    NoneRecorded(full, batch, at);
    for i := 0 to |batch|
      invariant full == RecordAll(old(state.View()), batch[..i], at)
      invariant Owing(state.View(), full, cycles, owed, at)
      invariant rescanSources <= cycles.Keys && owed == IdsOf(rescanSources, cycles)
    {
      OneMoreRecorded(old(state.View()), batch, i, at);
      ghost var before := cycles;
      cycles := RecordOne(state, batch[i], cycles, full, owed, at);
      full := StateDb.RecordEvent(full, batch[i].source, batch[i].path, batch[i].rescan, at);
      SameIds(rescanSources, before, cycles, batch[i].source);
      if batch[i].rescan {
        rescanSources := rescanSources + {batch[i].source};
        owed := owed + {cycles[batch[i].source]};
      }
    }
    assert batch[..|batch|] == batch;
    Settle(state, rescanSources, cycles, full, owed, at);
  }

  // Makes up for what is owed.
  method Settle(state: State, sources: set<string>, cycles: map<string, nat>, ghost full: Db, ghost owed: set<nat>,
      at: int)
    requires Owing(state.View(), full, cycles, owed, at)
    requires sources <= cycles.Keys && owed == IdsOf(sources, cycles)
    modifies state`cycles, state`lastCycle, state`observed
    ensures state.View() == full
  {
    hide Owing, Unmarked, Unnoted, CacheOk;
    StillOwed(state.View(), full, cycles, owed, at);
    NoteObserved(state, cycles.Keys, full, at);
    MarkRescans(state, sources, cycles, owed, full, at);
  }

  // The ids of the cycles that are to be marked.
  ghost function IdsOf(sources: set<string>, cycles: map<string, nat>): set<nat>
    requires sources <= cycles.Keys
  {
    set s | s in sources :: cycles[s]
  }

  ghost predicate Extends(before: map<string, nat>, after: map<string, nat>) {
    forall s :: s in before ==> s in after && after[s] == before[s]
  }

  lemma SameIds(sources: set<string>, before: map<string, nat>, after: map<string, nat>, s: string)
    requires sources <= before.Keys && Extends(before, after) && s in after
    ensures sources <= after.Keys && IdsOf(sources, after) == IdsOf(sources, before)
    ensures IdsOf(sources + {s}, after) == IdsOf(sources, before) + {after[s]}
  {
    assert forall t :: t in sources ==> after[t] == before[t];
  }

  lemma NoneRecorded(db: Db, batch: seq<Change>, at: int)
    ensures RecordAll(db, batch[..0], at) == db && IdsOf({}, map[]) == {}
  {}

  lemma OneMoreRecorded(db: Db, batch: seq<Change>, i: nat, at: int)
    requires i < |batch|
    ensures RecordAll(db, batch[..i + 1], at)
         == StateDb.RecordEvent(RecordAll(db, batch[..i], at), batch[i].source, batch[i].path, batch[i].rescan, at)
  {
    assert batch[..i + 1][..i] == batch[..i];
  }

  // One event, in the cached cycle of its source or in the one looked up now.
  method RecordOne(state: State, c: Change, cycles0: map<string, nat>, ghost full: Db, ghost owed: set<nat>, at: int)
    returns (cycles: map<string, nat>)
    requires Owing(state.View(), full, cycles0, owed, at)
    modifies state`cycles, state`lastCycle, state`events, state`lastEvent
    ensures Extends(cycles0, cycles) && c.source in cycles
    ensures Owing(state.View(), StateDb.RecordEvent(full, c.source, c.path, c.rescan, at), cycles,
                  if c.rescan then owed + {cycles[c.source]} else owed, at)
  {
    hide Owing, EnsureOpen, OpenIn, StateDb.RecordEvent, OpenCycle;
    AppendKeeps(state.View(), full, cycles0, owed, c, at);
    cycles := cycles0;
    if c.source !in cycles {
      var id := EnsuredIn(state, c.source, at);
      cycles := cycles[c.source := id];
    } else {
      assert cycles0[c.source := cycles0[c.source]] == cycles0;
    }
    state.lastEvent := state.lastEvent + 1;
    state.events := state.events + [Event(state.lastEvent, c.source, cycles[c.source], c.path, c.rescan)];
  }

  lemma StillOwed(db: Db, full: Db, ids: map<string, nat>, owed: set<nat>, at: int)
    requires Owing(db, full, ids, owed, at)
    ensures full.lastCycle == db.lastCycle && full.rows == db.rows && full.events == db.events
    ensures full.lastEvent == db.lastEvent
    ensures Unmarked(db.cycles, full.cycles, owed) && Unnoted(db.observed, full.observed, ids.Keys, at)
    ensures CacheOk(db.cycles, db.lastCycle, ids)
  {
    hide Unmarked, Unnoted, OpenCycle;
  }

  lemma NothingOwed(db: Db, at: int)
    requires Valid(db)
    ensures Owing(db, db, map[], {}, at)
  {}

  method EnsuredIn(state: State, s: string, at: int) returns (id: nat)
    modifies state`cycles, state`lastCycle
    ensures state.View() == EnsureOpen(old(state.View()), s, at) && id == OpenIn(state.View(), s)
  {
    id := state.EnsureOpenCycle(s, at);
  }

  method NoteObserved(state: State, sources: set<string>, ghost full: Db, at: int)
    requires Unnoted(state.observed, full.observed, sources, at)
    modifies state`observed
    ensures state.observed == full.observed
  {
    var left := sources;
    while left != {}
      invariant Unnoted(state.observed, full.observed, left, at)
      decreases left
    {
      var s :| s in left;
      state.observed := state.observed[s := Later(state.observed, s, at)];
      left := left - {s};
    }
  }

  method MarkRescans(state: State, sources: set<string>, cycles: map<string, nat>, ghost owed: set<nat>,
      ghost full: Db, at: int)
    requires sources <= cycles.Keys && owed == IdsOf(sources, cycles)
    requires CacheOk(state.cycles, state.lastCycle, cycles) && Unmarked(state.cycles, full.cycles, owed)
    modifies state`cycles, state`lastCycle
    ensures state.cycles == full.cycles && state.lastCycle == old(state.lastCycle)
  {
    hide OpenCycle, CacheOk;
    var left := sources;
    while left != {}
      invariant left <= sources && CacheOk(state.cycles, state.lastCycle, cycles)
        && state.lastCycle == old(state.lastCycle)
      invariant Unmarked(state.cycles, full.cycles, IdsOf(left, cycles))
      decreases left
    {
      var s :| s in left;
      OpenedInCache(state.View(), cycles, s, at);
      var id := EnsuredIn(state, s, at);
      assert id == cycles[s];
      MarkKeeps(state.View(), cycles, id);
      state.cycles := SetRescan(state.cycles, id);
      left := left - {s};
    }
  }

  lemma MarkKeeps(db: Db, ids: map<string, nat>, id: nat)
    requires CacheOk(db.cycles, db.lastCycle, ids)
    ensures CacheOk(SetRescan(db.cycles, id), db.lastCycle, ids)
  {
    hide OpenCycle;
    var after := SetRescan(db.cycles, id);
    assert Unmarked(db.cycles, after, {id});
    forall s | s in ids ensures OpenCycle(after, s).Some? && OpenCycle(after, s).value.id == ids[s] {
      OpenSame(db.cycles, after, {id}, s);
    }
  }

  // ---------------------------------------------------------------- in a run

  function Steps(batch: seq<Change>, at: int): (steps: seq<Step>)
    ensures |steps| == |batch|
  {
    seq(|batch|, i requires 0 <= i < |batch| => RecordStep(batch[i].source, batch[i].path, batch[i].rescan, at))
  }

  // A batch is a run of single records, so what holds over every run holds over batches.
  lemma {:induction false} BatchIsRun(tr: Trace, batch: seq<Change>, at: int)
    ensures Run(tr, Steps(batch, at)).db == RecordAll(tr.db, batch, at) && AllowedRun(tr, Steps(batch, at))
  {
    hide StateDb.RecordEvent;
    if batch != [] {
      var steps, front := Steps(batch, at), batch[..|batch| - 1];
      BatchIsRun(tr, front, at);
      assert steps[..|steps| - 1] == Steps(front, at);
    }
  }
}
