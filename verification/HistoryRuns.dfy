// What the tables say about a run, measured against its steps: the log is what was recorded, a
// backlog is what was recorded in its range, and no demand for a rescan is forgotten.
module HistoryRuns {
  import opened Wrappers
  import opened Calendar
  import opened StateDb
  import opened StateInvariant
  import opened StateRuns

  // ---------------------------------------------------------------- the log and the steps

  // What the recording steps said, in order: source, path, demand for a rescan.
  function Changes(steps: seq<Step>): seq<(string, Option<string>, bool)> {
    if steps == [] then []
    else
      var last := steps[|steps| - 1];
      Changes(steps[..|steps| - 1]) + if last.RecordStep? then [(last.source, last.path, last.rescan)] else []
  }

  // One event more, with what the step said, in the source's open cycle; that cycle is marked when
  // a rescan is asked for.
  ghost predicate AppendsOne(tr: Trace, step: Step, after: Trace, i: nat)
    requires step.RecordStep?
  {
    && i < |after.db.cycles| && after.db.cycles[i].source == step.source && after.db.cycles[i].status == Open
    && after.recorded
       == tr.recorded + [Event(tr.db.lastEvent + 1, step.source, after.db.cycles[i].id, step.path, step.rescan)]
    && (step.rescan ==> after.db.cycles[i].needsRescan)
  }

  lemma RecordAppends(tr: Trace, step: Step) returns (i: nat)
    requires Inv(tr) && step.RecordStep?
    ensures AppendsOne(tr, step, Next(tr, step), i)
    ensures CyclesAdvance(tr.db, Next(tr, step).db) && MarksKept(tr.db, Next(tr, step).db)
  {
    hide Valid, CyclesAdvance, MarksKept, OpenCycle;
    InvValid(tr);
    var marked;
    marked, i := RecordOpens(tr.db, step.source, step.rescan, step.at);
    var ready := EnsureOpen(tr.db, step.source, step.at);
    assert ready.lastEvent == tr.db.lastEvent && ready.events == tr.db.events;
    AdvanceDependsOnCycles(tr.db, marked, Next(tr, step).db);
  }

  lemma AdvanceDependsOnCycles(before: Db, marked: Db, after: Db)
    requires Evolves(before, marked) && after.cycles == marked.cycles && after.lastCycle == marked.lastCycle
    ensures CyclesAdvance(before, after) && MarksKept(before, after)
  {}

  lemma {:induction false} RecordedIsTheRun(steps: seq<Step>)
    requires AllowedRun(START, steps)
    ensures var recorded := Run(START, steps).recorded;
      |recorded| == |Changes(steps)|
        && forall i :: 0 <= i < |recorded| ==>
             Changes(steps)[i] == (recorded[i].source, recorded[i].path, recorded[i].rescan)
  {
    if steps != [] {
      hide Next, Inv, AllowedRun;
      var n := |steps| - 1;
      var before, last := Run(START, steps[..n]), steps[n];
      FrontIsAllowed(steps);
      RecordedIsTheRun(steps[..n]);
      if last.RecordStep? {
        RunKeeps(steps[..n], ("", ""));
        var i := RecordAppends(before, last);
      } else {
        OnlyRecordingRecords(before, last);
      }
    }
  }

  lemma FrontIsAllowed(steps: seq<Step>)
    requires steps != [] && AllowedRun(START, steps)
    ensures AllowedRun(START, steps[..|steps| - 1]) && Allowed(Run(START, steps[..|steps| - 1]), steps[|steps| - 1])
  {}

  lemma OnlyRecordingRecords(tr: Trace, step: Step)
    requires !step.RecordStep?
    ensures Next(tr, step).recorded == tr.recorded
  {
    hide QuietDb, Note;
  }

  // ---------------------------------------------------------------- when the source was last seen to change

  // The times at which a source was recorded to change.
  ghost predicate RecordedAt(steps: seq<Step>, s: string, at: int) {
    exists i :: 0 <= i < |steps| && steps[i].RecordStep? && steps[i].source == s && steps[i].at == at
  }

  lemma RecordedAtMore(steps: seq<Step>, s: string, at: int)
    requires steps != []
    ensures var last := steps[|steps| - 1];
      RecordedAt(steps, s, at) <==>
      RecordedAt(steps[..|steps| - 1], s, at) || (last.RecordStep? && last.source == s && last.at == at)
  {
    var front := steps[..|steps| - 1];
    if i :| 0 <= i < |steps| && steps[i].RecordStep? && steps[i].source == s && steps[i].at == at {
      assert i < |front| ==> front[i] == steps[i];
    }
    if j :| 0 <= j < |front| && front[j].RecordStep? && front[j].source == s && front[j].at == at {
      assert steps[j] == front[j];
    }
  }

  lemma OnlyRecordingObserves(tr: Trace, step: Step)
    requires Inv(tr) && Allowed(tr, step) && !step.RecordStep?
    ensures Next(tr, step).db.observed == tr.db.observed
  {
    hide Valid, LogIsUnpruned, FloorsOk, HistoryOk, CyclesAdvance, MarksKept, RowEvolves, QuietDb;
    if !step.VerifyStep? && !step.PruneStep? {
      QuietEvolves(tr.db, step);
    }
  }

  lemma RecordObserves(db: Db, s: string, path: Option<string>, rescan: bool, at: int, other: string)
    ensures var after := RecordEvent(db, s, path, rescan, at);
      && (other in after.observed <==> other in db.observed || other == s)
      && (other in db.observed && other != s ==> after.observed[other] == db.observed[other])
      && after.observed[s] >= at && (s in db.observed ==> after.observed[s] >= db.observed[s])
      && (after.observed[s] == at || (s in db.observed && after.observed[s] == db.observed[s]))
  {
    hide EnsureOpen, OpenIn;
    assert EnsureOpen(db, s, at).observed == db.observed by { EnsureOpenObserves(db, s, at); }
  }

  lemma EnsureOpenObserves(db: Db, s: string, at: int)
    ensures EnsureOpen(db, s, at).observed == db.observed
  {}

  // source_meta holds the latest of those times.
  lemma {:induction false} LatestIsObserved(steps: seq<Step>, s: string)
    requires AllowedRun(START, steps)
    ensures var observed := Run(START, steps).db.observed;
      && (forall at :: RecordedAt(steps, s, at) ==> s in observed && at <= observed[s])
      && (s in observed ==> RecordedAt(steps, s, observed[s]))
  {
    if steps != [] {
      hide Inv, Allowed, RecordedAt, RecordEvent, AllowedRun, QuietDb, Note;
      var front, last := steps[..|steps| - 1], steps[|steps| - 1];
      var before := Run(START, front);
      FrontIsAllowed(steps);
      LatestIsObserved(front, s);
      forall at { RecordedAtMore(steps, s, at); }
      if last.RecordStep? {
        RecordObserves(before.db, last.source, last.path, last.rescan, last.at, s);
      } else {
        RunKeeps(front, ("", ""));
        OnlyRecordingObserves(before, last);
      }
    }
  }

  // source_events_quiesced: nothing was recorded for the source in the last ten seconds.
  lemma QuiescedIff(steps: seq<Step>, s: string, now: int)
    requires AllowedRun(START, steps)
    ensures Quiesced(Run(START, steps).db, s, now) <==> forall at :: RecordedAt(steps, s, at) ==> now - at >= 10
  {
    hide RecordedAt;
    LatestIsObserved(steps, s);
  }

  // ---------------------------------------------------------------- backlogs and plans

  // A backlog, in every run that protects its destination: the events recorded for the source after
  // the verified cycle, up to and including the target, all of them and in the order recorded.
  lemma BacklogExactly(steps: seq<Step>, k: Key, through: nat, e: Event)
    requires AllowedRun(START, steps) && forall i :: 0 <= i < |steps| ==> Protects(steps[i], k)
    requires Run(START, steps).db.RowOf(k).verified.Some?
    ensures var tr := Run(START, steps);
      var v := tr.db.RowOf(k).verified.value;
      var backlog := EventsBetween(tr.db, k.0, v, through);
      && (e in backlog <==> e in tr.recorded && e.source == k.0 && v < e.cycle <= through)
      && forall i, j :: 0 <= i < j < |backlog| ==> backlog[i].id < backlog[j].id
  {
    hide Valid, FloorsOk, HistoryOk, Filter;
    var tr := Run(START, steps);
    var v := tr.db.RowOf(k).verified.value;
    NoNeededEventIsPruned(steps, k, through);
    RunKeeps(steps, k);
    FilterMembers(tr.recorded, InBacklog(k.0, v, through));
    FilterIncreasing(tr.recorded, InBacklog(k.0, v, through));
  }

  // Recorded for the source since cycle `v`, up to and including cycle `t`.
  ghost predicate Since(tr: Trace, s: string, v: nat, t: nat, e: Event) {
    e in tr.recorded && e.source == s && v < e.cycle <= t
  }

  // A pass over one destination is incremental exactly when neither its cycle nor any event since
  // the verified one asks for a rescan and there is a verified one; it then takes exactly the paths
  // of those events. Otherwise it compares everything.
  lemma PlanExactly(steps: seq<Step>, k: Key, cycle: Cycle)
    requires AllowedRun(START, steps) && forall i :: 0 <= i < |steps| ==> Protects(steps[i], k)
    ensures var tr := Run(START, steps);
      var plan, verified := PlanFor(tr.db, k.0, cycle, k.1), tr.db.RowOf(k).verified;
      && (plan.Incremental? <==>
           && !cycle.manualRescan && !cycle.needsRescan && verified.Some?
           && forall e :: Since(tr, k.0, verified.value, cycle.id, e) ==> !e.rescan)
      && (plan.Incremental? ==> forall p :: p in plan.paths <==>
           exists e :: Since(tr, k.0, verified.value, cycle.id, e) && e.path == Some(p))
      && (plan.Incremental? || plan.FullPass?)
  {
    hide Run, AllowedRun, Protects, Filter, PathsOf;
    var tr := Run(START, steps);
    IncrementalPlanIsComplete(steps, k, cycle);
    if tr.db.RowOf(k).verified.Some? {
      var v := tr.db.RowOf(k).verified.value;
      var backlog := EventsBetween(tr.db, k.0, v, cycle.id);
      forall e ensures e in backlog <==> Since(tr, k.0, v, cycle.id, e) {
        BacklogExactly(steps, k, cycle.id, e);
      }
      PathsAre(backlog);
      if e :| Since(tr, k.0, v, cycle.id, e) && e.rescan {
        var i :| 0 <= i < |backlog| && backlog[i] == e;
        assert backlog[i].rescan;
      }
    }
  }

  lemma PathsAre(events: seq<Event>)
    ensures forall p :: p in PathsOf(events) <==> exists e :: e in events && e.path == Some(p)
  {
    forall p | exists e :: e in events && e.path == Some(p) ensures p in PathsOf(events) {
      var e :| e in events && e.path == Some(p);
      var i :| 0 <= i < |events| && events[i] == e;
      assert events[i].path.Some? && events[i].path.value == p;
    }
  }

  // ---------------------------------------------------------------- what is displayed

  // The displayed cycle, in every run, is the source's greatest that is done or in which a path or
  // a demand for a rescan was recorded.
  ghost predicate WorthShowing(tr: Trace, s: string, id: nat) {
    exists i :: 0 <= i < |tr.db.cycles| && tr.db.cycles[i].source == s && tr.db.cycles[i].id == id
             && (tr.db.cycles[i].status != Open || ChangedIn(tr, s, id))
  }

  ghost predicate ChangedIn(tr: Trace, s: string, id: nat) {
    exists e :: e in tr.recorded && e.source == s && e.cycle == id && (e.path.Some? || e.rescan)
  }

  // Nothing of an open cycle has been pruned: what the log holds of it is what was recorded.
  lemma OpenCycleIsLogged(tr: Trace, s: string, i: nat)
    requires Inv(tr) && i < |tr.db.cycles| && tr.db.cycles[i].source == s && tr.db.cycles[i].status == Open
    ensures HasActionable(tr.db, s, tr.db.cycles[i].id) <==> ChangedIn(tr, s, tr.db.cycles[i].id)
  {
    hide Valid, HistoryOk, Filter;
    var id := tr.db.cycles[i].id;
    assert FloorOk(tr, s);
    FilterMembers(tr.recorded, tr.AboveFloor());
    if HasActionable(tr.db, s, id) {
      var n :| 0 <= n < |tr.db.events| && IsActionableIn(tr.db.events[n], s, id);
      assert tr.db.events[n] in tr.recorded;
    }
    if ChangedIn(tr, s, id) {
      var e :| e in tr.recorded && e.source == s && e.cycle == id && (e.path.Some? || e.rescan);
      assert e in tr.db.events;
      var n :| 0 <= n < |tr.db.events| && tr.db.events[n] == e;
      assert IsActionableIn(tr.db.events[n], s, id);
    }
  }

  lemma ShowableIff(tr: Trace, s: string, id: nat)
    requires Inv(tr)
    ensures Showable(tr.db, s, id) <==> WorthShowing(tr, s, id)
  {
    hide Inv, HasActionable, ChangedIn, Valid;
    if WorthShowing(tr, s, id) {
      var i :| 0 <= i < |tr.db.cycles| && tr.db.cycles[i].source == s && tr.db.cycles[i].id == id
            && (tr.db.cycles[i].status != Open || ChangedIn(tr, s, id));
      if tr.db.cycles[i].status == Open { OpenCycleIsLogged(tr, s, i); }
    }
    if Showable(tr.db, s, id) && !IsDone(tr.db.cycles, s, id) {
      var i :| 0 <= i < |tr.db.cycles| && tr.db.cycles[i].source == s && tr.db.cycles[i].id == id;
      OpenCycleIsLogged(tr, s, i);
    }
  }

  lemma DisplayedInRun(steps: seq<Step>, s: string)
    requires AllowedRun(START, steps)
    ensures var tr := Run(START, steps);
      && (Display(tr.db, s).Some? ==> WorthShowing(tr, s, Display(tr.db, s).value))
      && forall id: nat :: WorthShowing(tr, s, id) ==> Display(tr.db, s).Some? && id <= Display(tr.db, s).value
  {
    hide Inv, Showable, WorthShowing, Display;
    var tr := Run(START, steps);
    RunKeeps(steps, ("", ""));
    InvValid(tr);
    DisplayIsGreatest(tr.db, s);
    forall id: nat { ShowableIff(tr, s, id); }
  }

  // ---------------------------------------------------------------- demands for a rescan

  ghost predicate Forward(before: Db, after: Db) {
    CyclesAdvance(before, after) && MarksKept(before, after)
  }

  lemma StepForward(tr: Trace, step: Step)
    requires Inv(tr) && Allowed(tr, step)
    ensures Forward(tr.db, Next(tr, step).db)
  {
    hide Inv, Valid, Evolves, CyclesAdvance, MarksKept, QuietDb, Note, RecordEvent;
    InvValid(tr);
    ForwardSelf(tr.db, Next(tr, step).db);
    if step.RecordStep? {
      var i := RecordAppends(tr, step);
    } else if !step.VerifyStep? && !step.PruneStep? {
      QuietEvolves(tr.db, step);
      AdvanceDependsOnCycles(tr.db, QuietDb(tr.db, step), Next(tr, step).db);
    }
  }

  lemma ForwardSelf(db: Db, after: Db)
    ensures after.cycles == db.cycles && after.lastCycle == db.lastCycle ==> Forward(db, after)
  {}

  ghost predicate Marked(db: Db, s: string, id: nat) {
    exists i :: 0 <= i < |db.cycles| && db.cycles[i].source == s && db.cycles[i].id == id && db.cycles[i].needsRescan
  }

  lemma MarkedStays(before: Db, after: Db, s: string, id: nat)
    requires Forward(before, after) && Marked(before, s, id)
    ensures Marked(after, s, id)
  {
    var i :| 0 <= i < |before.cycles| && before.cycles[i].source == s && before.cycles[i].id == id
          && before.cycles[i].needsRescan;
    assert after.cycles[i].source == s && after.cycles[i].id == id && after.cycles[i].needsRescan;
  }

  ghost predicate DemandsMarked(tr: Trace) {
    forall e :: e in tr.recorded && e.rescan ==> Marked(tr.db, e.source, e.cycle)
  }

  lemma StepRemembers(tr: Trace, step: Step)
    requires Inv(tr) && Allowed(tr, step) && DemandsMarked(tr)
    ensures DemandsMarked(Next(tr, step))
  {
    hide Next, Inv, Allowed, Marked, Forward;
    var after := Next(tr, step);
    StepForward(tr, step);
    forall e | e in tr.recorded && e.rescan ensures Marked(after.db, e.source, e.cycle) {
      MarkedStays(tr.db, after.db, e.source, e.cycle);
    }
    if step.RecordStep? {
      var i := RecordAppends(tr, step);
      if step.rescan { MarkedAt(after.db, i); }
    } else {
      OnlyRecordingRecords(tr, step);
    }
  }

  // In every run: a cycle in which a rescan was ever asked for is marked, for good.
  lemma {:induction false} RescansAreRemembered(steps: seq<Step>)
    requires AllowedRun(START, steps)
    ensures var tr := Run(START, steps); forall e :: e in tr.recorded && e.rescan ==> Marked(tr.db, e.source, e.cycle)
  {
    hide Next, Inv, Allowed, Marked, AllowedRun;
    if steps != [] {
      var front := steps[..|steps| - 1];
      FrontIsAllowed(steps);
      RescansAreRemembered(front);
      RunKeeps(front, ("", ""));
      StepRemembers(Run(START, front), steps[|steps| - 1]);
    }
  }

  lemma MarkedAt(db: Db, i: nat)
    requires i < |db.cycles| && db.cycles[i].needsRescan
    ensures Marked(db, db.cycles[i].source, db.cycles[i].id)
  {}

  // So whoever syncs a cycle in which one was asked for compares everything.
  lemma RescanForcesFullPass(steps: seq<Step>, e: Event, i: nat, d: string)
    requires AllowedRun(START, steps) && e in Run(START, steps).recorded && e.rescan
    requires i < |Run(START, steps).db.cycles| && Run(START, steps).db.cycles[i].id == e.cycle
    ensures var db := Run(START, steps).db; PlanFor(db, e.source, db.cycles[i], d) == FullPass
  {
    hide Next;
    var db := Run(START, steps).db;
    RescansAreRemembered(steps);
    RunKeeps(steps, ("", ""));
    InvValid(Run(START, steps));
    var j :| 0 <= j < |db.cycles| && db.cycles[j].source == e.source && db.cycles[j].id == e.cycle
          && db.cycles[j].needsRescan;
    assert i == j;
  }

  lemma {:induction false} RunForward(steps: seq<Step>, more: seq<Step>)
    requires AllowedRun(START, steps + more)
    ensures AllowedRun(START, steps) && Forward(Run(START, steps).db, Run(START, steps + more).db)
    decreases |more|
  {
    hide Next, Allowed, Forward;
    if more == [] {
      assert steps + more == steps;
      ForwardSelf(Run(START, steps).db, Run(START, steps).db);
    } else {
      var all, fewer := steps + more, more[..|more| - 1];
      assert all[..|all| - 1] == steps + fewer;
      RunForward(steps, fewer);
      RunKeeps(steps + fewer, ("", ""));
      StepForward(Run(START, steps + fewer), all[|all| - 1]);
      ForwardTwice(Run(START, steps).db, Run(START, steps + fewer).db, Run(START, all).db);
    }
  }

  lemma ForwardTwice(a: Db, b: Db, c: Db)
    requires Forward(a, b) && Forward(b, c)
    ensures Forward(a, c)
  {
    forall i | |a.cycles| <= i < |c.cycles|
      ensures c.cycles[i].id > a.lastCycle
    {
      if i < |b.cycles| {
        assert c.cycles[i].id == b.cycles[i].id;
      }
    }
  }

  // A full pass asked for by hand is not forgotten, whatever happens afterwards.
  lemma ManualRequestsStay(steps: seq<Step>, more: seq<Step>, i: nat, s: string, d: string)
    requires i < |Run(START, steps).db.cycles|
    requires AllowedRun(START, steps + [ManualStep(Run(START, steps).db.cycles[i].id)] + more)
    ensures var asked, id := ManualStep(Run(START, steps).db.cycles[i].id), Run(START, steps).db.cycles[i].id;
      var db := Run(START, steps + [asked] + more).db;
      && i < |db.cycles| && db.cycles[i].id == id && db.cycles[i].manualRescan && db.cycles[i].needsRescan
      && PlanFor(db, s, db.cycles[i], d) == FullPass
  {
    var asked := steps + [ManualStep(Run(START, steps).db.cycles[i].id)];
    assert asked[..|asked| - 1] == steps;
    RunForward(asked, more);
  }

  // Clearing a mark spares the cycles for which a full pass was asked for by hand, even when it was
  // asked for after whoever clears it had looked.
  lemma ClearingSparesManual(cycles: seq<Cycle>, id: nat)
    ensures ClearRescan(MarkManual(cycles, id), id) == MarkManual(cycles, id)
    ensures forall i :: 0 <= i < |cycles| && cycles[i].manualRescan ==> ClearRescan(cycles, id)[i] == cycles[i]
    ensures forall i :: 0 <= i < |cycles| && !cycles[i].manualRescan && cycles[i].id == id ==>
      !ClearRescan(cycles, id)[i].needsRescan
  {
    assert forall i :: 0 <= i < |cycles| ==> ClearRescan(MarkManual(cycles, id), id)[i] == MarkManual(cycles, id)[i];
  }
}
