// What a scheduler tick and a manual request do in any state that a run can reach, said in terms of
// the configuration, the calendar and what was recorded.
module DueRuns {
  import opened Wrappers
  import opened Calendar
  import opened StateDb
  import opened StateInvariant
  import opened StateRuns
  import opened StateTargets
  import opened StateOffsets
  import opened TargetRuns
  import opened HistoryRuns

  // ---------------------------------------------------------------- what a tick prepares

  lemma {:induction false} EnsureRowsOnly(db: Db, s: string, ds: seq<DestinationConfig>)
    ensures EnsureRows(db, s, ds) == db.(rows := EnsureRows(db, s, ds).rows)
  {
    if ds != [] {
      EnsureRowsOnly(db, s, ds[..|ds| - 1]);
    }
  }

  lemma {:induction false} EnsureConfigOnly(db: Db, cfg: seq<SourceConfig>)
    ensures EnsureConfig(db, cfg) == db.(rows := EnsureConfig(db, cfg).rows)
  {
    if cfg != [] {
      var last := cfg[|cfg| - 1];
      EnsureConfigOnly(db, cfg[..|cfg| - 1]);
      EnsureRowsOnly(EnsureConfig(db, cfg[..|cfg| - 1]), last.id, last.destinations);
    }
  }

  predicate Enabled(cfg: seq<SourceConfig>, s: string) {
    exists i :: 0 <= i < |cfg| && cfg[i].id == s && cfg[i].enabled
  }

  // A cycle opened just now: nothing has been asked of it, and its id is new.
  predicate IsNew(db: Db, c: Cycle, s: string, at: int) {
    c.id > db.lastCycle && c == Cycle(c.id, s, at, Open, false, false)
  }

  // After ensure_open_cycles every enabled source has an open cycle: the one it had, or a new one.
  // The other sources have what they had.
  lemma {:induction false} EnsuredCycles(db: Db, cfg: seq<SourceConfig>, at: int, s: string)
    requires Valid(db)
    ensures var before, after := OpenCycle(db.cycles, s), OpenCycle(EnsureOpenCycles(db, cfg, at).cycles, s);
      if before.Some? || !Enabled(cfg, s) then after == before
      else after.Some? && IsNew(db, after.value, s, at)
  {
    if cfg != [] {
      hide Valid, Evolves, EnsureOpen, OpenCycle;
      var n := |cfg| - 1;
      var front, last := cfg[..n], cfg[n];
      var before := EnsureOpenCycles(db, front, at);
      EnsuredCycles(db, front, at, s);
      EnsureOpenCyclesEvolves(db, front, at);
      EvolvesCycles(db, before);
      assert Enabled(cfg, s) <==> Enabled(front, s) || (last.id == s && last.enabled) by { EnabledMore(cfg, s); }
      if last.enabled {
        OpenedCycle(before, last.id, at, s);
      }
    }
  }

  lemma EnabledMore(cfg: seq<SourceConfig>, s: string)
    requires cfg != []
    ensures var front, last := cfg[..|cfg| - 1], cfg[|cfg| - 1];
      Enabled(cfg, s) <==> Enabled(front, s) || (last.id == s && last.enabled)
  {
    var front := cfg[..|cfg| - 1];
    if i :| 0 <= i < |cfg| && cfg[i].id == s && cfg[i].enabled {
      assert i < |front| ==> front[i] == cfg[i];
    }
    if j :| 0 <= j < |front| && front[j].id == s && front[j].enabled {
      assert cfg[j] == front[j];
    }
  }

  lemma OpenedCycle(db: Db, s: string, at: int, other: string)
    ensures var before, after := OpenCycle(db.cycles, other), OpenCycle(EnsureOpen(db, s, at).cycles, other);
      if before.Some? || other != s then after == before
      else after.Some? && IsNew(db, after.value, s, at)
  {
    if other != s {
      EnsureOpenLocal(db, s, at, other);
    } else if OpenCycle(db.cycles, s).None? {
      var c := Cycle(db.lastCycle + 1, s, at, Open, false, false);
      assert OpenCycle(db.cycles + [c], s) == Some(c);
    }
  }

  lemma Prepared(db: Db, cfg: seq<SourceConfig>, at: int, s: string)
    requires Valid(db)
    ensures var before, after := OpenCycle(db.cycles, s), OpenCycle(Prepare(db, cfg, at).cycles, s);
      if before.Some? || !Enabled(cfg, s) then after == before
      else after.Some? && IsNew(db, after.value, s, at)
    ensures Evolves(db, Prepare(db, cfg, at)) && Valid(Prepare(db, cfg, at))
  {
    hide Valid, Evolves, EnsureConfig, EnsureOpenCycles, OpenCycle;
    var configured := EnsureConfig(db, cfg);
    EnsureConfigOnly(db, cfg);
    EnsureConfigEvolves(db, cfg);
    EvolvesValid(db, configured);
    EnsuredCycles(configured, cfg, at, s);
    PrepareEvolves(db, cfg, at);
    EvolvesValid(db, Prepare(db, cfg, at));
  }

  // ---------------------------------------------------------------- who is due

  // The source's open cycle, if it has one.
  ghost predicate IsCurrent(db: Db, s: string, open: Option<Cycle>) {
    match open
    case Some(c) => c in db.cycles && c.source == s && c.status == Open
    case None => forall c :: c in db.cycles && c.source == s ==> c.status != Open
  }

  lemma CurrentIsFound(db: Db, s: string, open: Option<Cycle>)
    requires Valid(db) && IsCurrent(db, s, open)
    ensures OpenCycle(db.cycles, s) == open
  {
    OpenCycleFound(db.cycles, s);
    if open.Some? {
      var i :| 0 <= i < |db.cycles| && db.cycles[i] == open.value;
      OpenIsNewest(db, s, i);
    }
  }

  // The schedule asks for the cycle's events to be synced: at once when something was recorded in
  // it, at a time of day or week that has passed since it began, or after a day.
  ghost predicate WantsSync(tr: Trace, s: string, c: Cycle, schedule: Schedule, now: int) {
    if schedule.Realtime? then ChangedIn(tr, s, c.id) else Asks(schedule, c.startsAt, now)
  }

  // Never targeted and never verified.
  predicate NeverSynced(row: Row) {
    row.target.None? && row.verified.None?
  }

  // The target lies beyond what was verified.
  predicate IsBehind(row: Row) {
    row.target.Some? && (row.verified.None? || row.verified.value < row.target.value)
  }

  // The destination is configured, not paused, and it is time for it.
  ghost predicate TimeFor(tr: Trace, src: SourceConfig, d: string, open: Option<Cycle>, now: int) {
    exists j ::
      && 0 <= j < |src.destinations| && src.destinations[j].id == d
      && src.destinations[j].enabled && !src.destinations[j].paused
      && (NeverSynced(tr.db.RowOf((src.id, d)))
          || (open.Some? && WantsSync(tr, src.id, open.value, src.destinations[j].schedule, now)))
  }

  lemma NewCycleIsQuiet(tr: Trace, ready: Db, s: string, c: Cycle, at: int)
    requires Inv(tr) && ready.events == tr.db.events && IsNew(tr.db, c, s, at)
    ensures !HasActionable(ready, s, c.id)
    ensures forall schedule: Schedule :: schedule.Valid() && !schedule.Realtime? ==> !schedule.Due(c.startsAt, at)
  {
    hide LogIsUnpruned, FloorsOk, HistoryOk;
    forall i | 0 <= i < |ready.events| ensures !IsActionableIn(ready.events[i], s, c.id) {
      assert HasCycle(tr.db.cycles, ready.events[i].source, ready.events[i].cycle);
    }
  }

  lemma WantsSyncIff(tr: Trace, ready: Db, s: string, open: Option<Cycle>, schedule: Schedule, at: int)
    requires Inv(tr) && Evolves(tr.db, ready) && IsCurrent(tr.db, s, open) && schedule.Valid()
    requires OpenCycle(ready.cycles, s).Some?
    requires var c := OpenCycle(ready.cycles, s).value; if open.Some? then c == open.value else IsNew(tr.db, c, s, at)
    ensures var c := OpenCycle(ready.cycles, s).value;
      (if schedule.Realtime? then HasActionable(ready, s, c.id) else schedule.Due(c.startsAt, at)) <==>
      open.Some? && WantsSync(tr, s, open.value, schedule, at)
  {
    hide Inv, Valid, OpenCycle, HasActionable, ChangedIn, Asks, CyclesAdvance, MarksKept, RowEvolves;
    var c := OpenCycle(ready.cycles, s).value;
    if open.Some? {
      var i :| 0 <= i < |tr.db.cycles| && tr.db.cycles[i] == c;
      OpenCycleIsLogged(tr, s, i);
      SameActionable(tr.db, ready, s, c.id);
      DueIff(schedule, c.startsAt, at);
    } else {
      NewCycleIsQuiet(tr, ready, s, c, at);
    }
  }

  lemma SameActionable(db: Db, ready: Db, s: string, id: nat)
    requires ready.events == db.events
    ensures HasActionable(ready, s, id) == HasActionable(db, s, id)
  {}

  lemma TargetedIff(tr: Trace, ready: Db, src: SourceConfig, d: string, open: Option<Cycle>, at: int)
    requires Inv(tr) && Evolves(tr.db, ready) && IsCurrent(tr.db, src.id, open)
    requires ready.RowOf((src.id, d)) == tr.db.RowOf((src.id, d))
    requires forall j :: 0 <= j < |src.destinations| ==> src.destinations[j].schedule.Valid()
    requires OpenCycle(ready.cycles, src.id).Some?
    requires var c := OpenCycle(ready.cycles, src.id).value;
      if open.Some? then c == open.value else IsNew(tr.db, c, src.id, at)
    ensures Targeted(ready, src, d, at) <==> !IsBehind(tr.db.RowOf((src.id, d))) && TimeFor(tr, src, d, open, at)
  {
    hide Inv, Evolves, OpenCycle, HasActionable, WantsSync, IsNew, IsCurrent, Schedule.Valid, Schedule.Due;
    var c := OpenCycle(ready.cycles, src.id).value;
    forall j | 0 <= j < |src.destinations|
      ensures var schedule := src.destinations[j].schedule;
        (if schedule.Realtime? then HasActionable(ready, src.id, c.id) else schedule.Due(c.startsAt, at)) <==>
        open.Some? && WantsSync(tr, src.id, open.value, schedule, at)
    {
      WantsSyncIff(tr, ready, src.id, open, src.destinations[j].schedule, at);
    }
  }

  lemma TargetChanges(tr: Trace, k: Key, after: Db, c: nat)
    requires Inv(tr) && after.RowOf(k) == tr.db.RowOf(k).(target := Some(c)) && forall g :: g in tr.Given(k) ==> g < c
    ensures after.RowOf(k).target != tr.db.RowOf(k).target
  {
    assert HistoryOk(tr, k);
  }

  ghost predicate SchedulesValid(cfg: seq<SourceConfig>) {
    forall i, j :: 0 <= i < |cfg| && 0 <= j < |cfg[i].destinations| ==> cfg[i].destinations[j].schedule.Valid()
  }

  // A tick in any run: a destination gets another target exactly when its source is enabled, it is
  // configured, enabled, not paused and not behind, and it is its first time or its schedule asks
  // for it.
  lemma TickTargetsExactly(steps: seq<Step>, cfg: seq<SourceConfig>, i: nat, d: string, at: int, open: Option<Cycle>)
    requires AllowedRun(START, steps) && DistinctSources(cfg) && SchedulesValid(cfg) && i < |cfg|
    requires IsCurrent(Run(START, steps).db, cfg[i].id, open)
    ensures var tr, k := Run(START, steps), (cfg[i].id, d);
      Next(tr, AdvanceStep(cfg, at)).db.RowOf(k).target != tr.db.RowOf(k).target <==>
        cfg[i].enabled && !IsBehind(tr.db.RowOf(k)) && TimeFor(tr, cfg[i], d, open, at)
  {
    hide *;
    var tr, k := Run(START, steps), (cfg[i].id, d);
    var ready := Prepare(tr.db, cfg, at);
    RunKeeps(steps, k);
    InvValid(tr);
    Prepared(tr.db, cfg, at, k.0);
    CurrentIsFound(tr.db, k.0, open);
    PrepareKeeps(tr.db, cfg, at, k);
    TickDiscipline(steps, cfg, i, d, at);
    if cfg[i].enabled {
      assert Enabled(cfg, k.0) by { EnabledAt(cfg, i); }
      assert forall j :: 0 <= j < |cfg[i].destinations| ==> cfg[i].destinations[j].schedule.Valid() by {
        ValidAt(cfg, i);
      }
      TargetedIff(tr, ready, cfg[i], d, open, at);
      if Targeted(ready, cfg[i], d, at) {
        TargetChanges(tr, k, Next(tr, AdvanceStep(cfg, at)).db, OpenCycle(ready.cycles, k.0).value.id);
      }
    }
  }

  lemma EnabledAt(cfg: seq<SourceConfig>, i: nat)
    requires i < |cfg| && cfg[i].enabled
    ensures Enabled(cfg, cfg[i].id)
  {}

  lemma ValidAt(cfg: seq<SourceConfig>, i: nat)
    requires SchedulesValid(cfg) && i < |cfg|
    ensures forall j :: 0 <= j < |cfg[i].destinations| ==> cfg[i].destinations[j].schedule.Valid()
  {}

  // ---------------------------------------------------------------- which cycles a tick closes

  lemma {:induction false} SameDue(db: Db, other: Db, s: string, ds: seq<DestinationConfig>, at: int, events: bool,
      now: int)
    requires forall d :: other.RowOf((s, d)) == db.RowOf((s, d))
    ensures DueDestinations(other, s, ds, at, events, now) == DueDestinations(db, s, ds, at, events, now)
  {
    if ds != [] {
      SameDue(db, other, s, ds[..|ds| - 1], at, events, now);
    }
  }

  lemma SameCloses(db: Db, other: Db, src: SourceConfig, now: int)
    requires OpenCycle(other.cycles, src.id) == OpenCycle(db.cycles, src.id) && other.events == db.events
    requires other.observed == db.observed && forall d :: other.RowOf((src.id, d)) == db.RowOf((src.id, d))
    ensures TickCloses(other, src, now) == TickCloses(db, src, now)
  {
    var open := OpenCycle(db.cycles, src.id);
    if open.Some? {
      SameActionable(db, other, src.id, open.value.id);
      SameDue(db, other, src.id, src.destinations, open.value.startsAt,
        HasActionable(db, src.id, open.value.id), now);
    }
  }

  // What a tick closes for one source, decided on the tables it began with.
  lemma {:induction false} SourceAfterTick(db: Db, cfg: seq<SourceConfig>, i: nat, now: int)
    requires Valid(db) && DistinctSources(cfg) && i < |cfg|
    ensures JustClosed(db, AdvanceSources(db, cfg, now), cfg[i].id)
         == if cfg[i].enabled then TickCloses(db, cfg[i], now) else None
    decreases |cfg|
  {
    hide Valid, Evolves, OpenCycle, AdvanceSource, TickCloses, JustClosed;
    var n := |cfg| - 1;
    var before, after := AdvanceSources(db, cfg[..n], now), AdvanceSources(db, cfg, now);
    AdvanceSourcesEvolves(db, cfg[..n], now);
    EvolvesValid(db, before);
    assert before.observed == db.observed by { EvolvesObserved(db, before); }
    JustClosedSame(db, before, after, before, cfg[i].id);
    if i == n {
      AdvanceSourcesLocal(db, cfg[..n], now, cfg[i].id);
      TickTellsWhatItClosed(before, cfg[i], now);
      SameCloses(db, before, cfg[i], now);
      JustClosedSelf(db, before, cfg[i].id);
    } else {
      SourceAfterTick(db, cfg[..n], i, now);
      if cfg[n].enabled { AdvanceSourceLocal(before, cfg[n], now, cfg[i].id); }
    }
  }

  lemma EvolvesObserved(before: Db, after: Db)
    requires Evolves(before, after)
    ensures after.observed == before.observed && after.events == before.events
  {}

  lemma JustClosedSelf(db: Db, same: Db, s: string)
    requires OpenCycle(same.cycles, s) == OpenCycle(db.cycles, s)
    ensures JustClosed(db, same, s) == None
  {
    hide OpenCycle;
  }

  lemma ClosedIffDone(db: Db, after: Db, s: string)
    requires Valid(db) && Valid(after) && CyclesAdvance(db, after) && OpenCycle(db.cycles, s).Some?
    ensures JustClosed(db, after, s).Some? <==> IsDone(after.cycles, s, OpenCycle(db.cycles, s).value.id)
  {
    hide RowsOk, EventsOk;
    OpenCycleFound(db.cycles, s);
    OpenCycleFound(after.cycles, s);
    var c := OpenCycle(db.cycles, s).value;
    var i :| 0 <= i < |db.cycles| && db.cycles[i] == c;
    assert after.cycles[i].id == c.id && after.cycles[i].source == s;
    if after.cycles[i].status == Open {
      OpenIsNewest(after, s, i);
    }
  }

  // Whether something of the source's is due.
  lemma SomeoneIsDue(db: Db, src: SourceConfig, now: int)
    requires OpenCycle(db.cycles, src.id).Some?
    ensures var c := OpenCycle(db.cycles, src.id).value;
      DueDestinations(db, src.id, src.destinations, c.startsAt, HasActionable(db, src.id, c.id), now) != [] <==>
      exists d :: Targeted(db, src, d, now)
  {
    hide OpenCycle, DueDestinations, HasActionable, Targeted;
    var c := OpenCycle(db.cycles, src.id).value;
    var due := DueDestinations(db, src.id, src.destinations, c.startsAt, HasActionable(db, src.id, c.id), now);
    forall d ensures d in due <==> Targeted(db, src, d, now) {
      DueAreTargeted(db, src, now, d);
    }
    if due != [] { assert due[0] in due; }
  }

  // A tick in any run closes an enabled source's cycle exactly when some destination is given a
  // target, or when something was recorded in the cycle and nothing for the source in the last ten
  // seconds.
  lemma TickClosesExactly(steps: seq<Step>, cfg: seq<SourceConfig>, i: nat, at: int, c: Cycle)
    requires AllowedRun(START, steps) && DistinctSources(cfg) && SchedulesValid(cfg)
    requires i < |cfg| && cfg[i].enabled && IsCurrent(Run(START, steps).db, cfg[i].id, Some(c))
    ensures var tr, s := Run(START, steps), cfg[i].id;
      IsDone(Next(tr, AdvanceStep(cfg, at)).db.cycles, s, c.id) <==>
      || (exists d :: !IsBehind(tr.db.RowOf((s, d))) && TimeFor(tr, cfg[i], d, Some(c), at))
      || (ChangedIn(tr, s, c.id) && forall seen :: RecordedAt(steps, s, seen) ==> at - seen >= 10)
  {
    hide *;
    var tr, s := Run(START, steps), cfg[i].id;
    var ready, after := Prepare(tr.db, cfg, at), Next(tr, AdvanceStep(cfg, at)).db;
    RunKeeps(steps, ("", ""));
    InvValid(tr);
    Prepared(tr.db, cfg, at, s);
    CurrentIsFound(tr.db, s, Some(c));
    assert after == AdvanceSources(ready, cfg, at) by { TickIs(tr, cfg, at); }
    AdvanceSourcesEvolves(ready, cfg, at);
    EvolvesValid(ready, after);
    EvolvesCycles(ready, after);
    EvolvesObserved(tr.db, ready);
    ClosedIffDone(ready, after, s);
    SourceAfterTick(ready, cfg, i, at);
    SomeoneIsDue(ready, cfg[i], at);
    TickClosesIs(ready, cfg[i], at);
    forall d ensures Targeted(ready, cfg[i], d, at) <==>
      !IsBehind(tr.db.RowOf((s, d))) && TimeFor(tr, cfg[i], d, Some(c), at)
    {
      PrepareKeeps(tr.db, cfg, at, (s, d));
      ValidAt(cfg, i);
      TargetedIff(tr, ready, cfg[i], d, Some(c), at);
    }
    OpenIsLogged(tr, s, c);
    SameActionable(tr.db, ready, s, c.id);
    QuiescedIff(steps, s, at);
    assert Quiesced(ready, s, at) <==> Quiesced(tr.db, s, at) by { SameQuiet(tr.db, ready, s, at); }
  }

  lemma SameQuiet(db: Db, ready: Db, s: string, at: int)
    requires ready.observed == db.observed
    ensures Quiesced(ready, s, at) <==> Quiesced(db, s, at)
  {}

  lemma OpenIsLogged(tr: Trace, s: string, c: Cycle)
    requires Inv(tr) && IsCurrent(tr.db, s, Some(c))
    ensures HasActionable(tr.db, s, c.id) <==> ChangedIn(tr, s, c.id)
  {
    hide Inv, HasActionable, ChangedIn;
    var n :| 0 <= n < |tr.db.cycles| && tr.db.cycles[n] == c;
    OpenCycleIsLogged(tr, s, n);
  }

  lemma TickIs(tr: Trace, cfg: seq<SourceConfig>, at: int)
    ensures Next(tr, AdvanceStep(cfg, at)).db == AdvanceSources(Prepare(tr.db, cfg, at), cfg, at)
  {
    hide Note, Prepare, AdvanceSources;
  }

  lemma TickClosesIs(db: Db, src: SourceConfig, now: int)
    requires OpenCycle(db.cycles, src.id).Some?
    ensures var c := OpenCycle(db.cycles, src.id).value;
      var hasEvents := HasActionable(db, src.id, c.id);
      TickCloses(db, src, now).Some? <==>
      || DueDestinations(db, src.id, src.destinations, c.startsAt, hasEvents, now) != []
      || (hasEvents && Quiesced(db, src.id, now))
  {
    hide OpenCycle, HasActionable, DueDestinations, Quiesced;
  }

  // ---------------------------------------------------------------- manual requests

  lemma {:induction false} ForceableAre(ds: seq<DestinationConfig>, d: string)
    ensures d in Forceable(ds) <==> exists j :: 0 <= j < |ds| && ds[j].id == d && ds[j].enabled && !ds[j].paused
  {
    if ds != [] {
      var front := ds[..|ds| - 1];
      ForceableAre(front, d);
      if j :| 0 <= j < |ds| && ds[j].id == d && ds[j].enabled && !ds[j].paused {
        assert j < |front| ==> front[j] == ds[j];
      }
      if j :| 0 <= j < |front| && front[j].id == d && front[j].enabled && !front[j].paused {
        assert ds[j] == front[j];
      }
    }
  }

  lemma CloseAndTargetRows(db: Db, s: string, ids: seq<string>, at: int, k: Key)
    ensures CloseAndTarget(db, s, ids, at).RowOf(k) ==
      if OpenCycle(db.cycles, s).Some? && k.0 == s && k.1 in ids then
        db.RowOf(k).(target := Some(OpenCycle(db.cycles, s).value.id))
      else db.RowOf(k)
  {
    hide OpenCycle, CloseCurrent, SetTargets;
    if OpenCycle(db.cycles, s).Some? {
      CloseCurrentRows(db, s, at);
      SetTargetsRows(CloseCurrent(db, s, at), s, ids, OpenCycle(db.cycles, s).value.id, k);
    }
  }

  // Enabled and not paused, whichever entry of the configuration says so.
  predicate MayBeForced(src: SourceConfig, d: string) {
    exists j ::
      && 0 <= j < |src.destinations| && src.destinations[j].id == d
      && src.destinations[j].enabled && !src.destinations[j].paused
  }

  lemma {:induction false} ForceSourcesTargets(db: Db, cfg: seq<SourceConfig>, i: nat, d: string, at: int)
    requires Valid(db) && DistinctSources(cfg) && i < |cfg|
    ensures var k := (cfg[i].id, d);
      ForceSources(db, cfg, at).RowOf(k) ==
      if OpenCycle(db.cycles, k.0).Some? && cfg[i].enabled && MayBeForced(cfg[i], d) then
        db.RowOf(k).(target := Some(OpenCycle(db.cycles, k.0).value.id))
      else db.RowOf(k)
    decreases |cfg|
  {
    hide Valid, Evolves, OpenCycle, CloseAndTarget, Forceable;
    var n, k := |cfg| - 1, (cfg[i].id, d);
    var before := ForceSources(db, cfg[..n], at);
    ForceSourcesEvolves(db, cfg[..n], at);
    EvolvesValid(db, before);
    CloseAndTargetRows(before, cfg[n].id, Forceable(cfg[n].destinations), at, k);
    ForceableAre(cfg[n].destinations, d);
    if i == n {
      ForceSourcesLocal(db, cfg[..n], at, k.0);
      ForceSourcesSpare(db, cfg[..n], at, k);
    } else {
      ForceSourcesTargets(db, cfg[..n], i, d, at);
    }
  }

  lemma {:induction false} ForceSourcesSpare(db: Db, cfg: seq<SourceConfig>, at: int, k: Key)
    requires forall i :: 0 <= i < |cfg| ==> cfg[i].id != k.0
    ensures ForceSources(db, cfg, at).RowOf(k) == db.RowOf(k)
  {
    hide CloseAndTarget, Forceable;
    if cfg != [] {
      var n := |cfg| - 1;
      ForceSourcesSpare(db, cfg[..n], at, k);
      CloseAndTargetRows(ForceSources(db, cfg[..n], at), cfg[n].id, Forceable(cfg[n].destinations), at, k);
    }
  }

  lemma {:induction false} FoundSource(cfg: seq<SourceConfig>, s: string)
    ensures FindSource(cfg, s).Some? ==> FindSource(cfg, s).value in cfg
    ensures FindSource(cfg, s).None? ==> !Enabled(cfg, s)
  {
    if cfg != [] {
      FoundSource(cfg[1..], s);
      if FindSource(cfg, s).None? {
        forall i | 0 <= i < |cfg| && cfg[i].id == s ensures !cfg[i].enabled {
          if i > 0 { assert cfg[1..][i - 1] == cfg[i]; }
        }
      }
    }
  }

  lemma TheSource(cfg: seq<SourceConfig>, i: nat)
    requires DistinctSources(cfg) && i < |cfg|
    ensures FindSource(cfg, cfg[i].id) == if cfg[i].enabled then Some(cfg[i]) else None
  {
    FoundSource(cfg, cfg[i].id);
    if cfg[i].enabled { EnabledAt(cfg, i); }
    if FindSource(cfg, cfg[i].id).Some? {
      var n :| 0 <= n < |cfg| && cfg[n] == FindSource(cfg, cfg[i].id).value;
      assert n == i;
    }
  }

  // A request in any run gives out a new target exactly to: for all sources, the destinations that
  // are enabled and not paused; for one source, those of its; for one destination, it alone, paused
  // or not. Its source has to be enabled; whether the destination is behind does not matter.
  lemma RequestsTargetExactly(steps: seq<Step>, cfg: seq<SourceConfig>, i: nat, d: string, s: string, e: string,
      at: int)
    requires AllowedRun(START, steps) && DistinctSources(cfg) && i < |cfg|
    ensures var tr, k := Run(START, steps), (cfg[i].id, d);
      && (Next(tr, ForceAllStep(cfg, at)).db.RowOf(k).target != tr.db.RowOf(k).target <==>
           cfg[i].enabled && MayBeForced(cfg[i], d))
      && (Next(tr, ForceSourceStep(cfg, s, at)).db.RowOf(k).target != tr.db.RowOf(k).target <==>
           cfg[i].enabled && MayBeForced(cfg[i], d) && s == cfg[i].id)
      && (Next(tr, ForceDestinationStep(cfg, s, e, at)).db.RowOf(k).target != tr.db.RowOf(k).target <==>
           && cfg[i].enabled && (s, e) == k
           && exists j :: 0 <= j < |cfg[i].destinations| && cfg[i].destinations[j].id == d
                       && cfg[i].destinations[j].enabled)
  {
    hide *;
    var tr, k := Run(START, steps), (cfg[i].id, d);
    var ready := Prepare(tr.db, cfg, at);
    RunKeeps(steps, k);
    InvValid(tr);
    Prepared(tr.db, cfg, at, k.0);
    PrepareKeeps(tr.db, cfg, at, k);
    if cfg[i].enabled {
      EnabledAt(cfg, i);
      OpenIsAboveHistory(tr, ready, k.0, k);
    }
    RequestRows(tr, cfg, i, d, s, e, at);
    HasEnabledIs(cfg[i], d);
    if cfg[i].enabled {
      var c := OpenCycle(ready.cycles, k.0).value.id;
      NewTargetDiffers(tr, k, c);
    }
  }

  lemma HasEnabledIs(src: SourceConfig, d: string)
    ensures HasEnabled(src, d) <==>
      exists j :: 0 <= j < |src.destinations| && src.destinations[j].id == d && src.destinations[j].enabled
  {}

  lemma NewTargetDiffers(tr: Trace, k: Key, c: nat)
    requires Inv(tr) && forall g :: g in tr.Given(k) ==> g < c
    ensures tr.db.RowOf(k).target != Some(c)
  {
    assert HistoryOk(tr, k);
  }

  lemma RequestRows(tr: Trace, cfg: seq<SourceConfig>, i: nat, d: string, s: string, e: string, at: int)
    requires Valid(tr.db) && Valid(Prepare(tr.db, cfg, at)) && DistinctSources(cfg) && i < |cfg|
    requires Prepare(tr.db, cfg, at).RowOf((cfg[i].id, d)) == tr.db.RowOf((cfg[i].id, d))
    requires cfg[i].enabled ==> OpenCycle(Prepare(tr.db, cfg, at).cycles, cfg[i].id).Some?
    ensures var k, ready := (cfg[i].id, d), Prepare(tr.db, cfg, at);
      var target := if cfg[i].enabled then Some(OpenCycle(ready.cycles, k.0).value.id) else None;
      && Next(tr, ForceAllStep(cfg, at)).db.RowOf(k).target
         == (if cfg[i].enabled && MayBeForced(cfg[i], d) then target else tr.db.RowOf(k).target)
      && Next(tr, ForceSourceStep(cfg, s, at)).db.RowOf(k).target
         == (if cfg[i].enabled && MayBeForced(cfg[i], d) && s == k.0 then target else tr.db.RowOf(k).target)
      && Next(tr, ForceDestinationStep(cfg, s, e, at)).db.RowOf(k).target
         == (if cfg[i].enabled && (s, e) == k && HasEnabled(cfg[i], d) then target else tr.db.RowOf(k).target)
  {
    hide Prepare, CloseAndTarget, ForceSources, Forceable, FindSource, OpenCycle, Valid, DistinctSources, Note;
    var k, ready := (cfg[i].id, d), Prepare(tr.db, cfg, at);
    ForceSourcesTargets(ready, cfg, i, d, at);
    TheSource(cfg, i);
    ForceableAre(cfg[i].destinations, d);
    match FindSource(cfg, s)
    case None =>
    case Some(src) =>
      CloseAndTargetRows(ready, s, Forceable(src.destinations), at, k);
      CloseAndTargetRows(ready, s, [e], at, k);
  }
}
