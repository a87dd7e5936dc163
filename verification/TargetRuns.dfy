// Target discipline over runs: what a scheduler tick does in any state that a run can reach,
// measured against all the run has given out, passed and recorded.
module TargetRuns {
  import opened Wrappers
  import opened Calendar
  import opened StateDb
  import opened StateInvariant
  import opened StateRuns
  import opened StateTargets

  lemma {:induction false} EnsureRowsKeeps(db: Db, s: string, ds: seq<DestinationConfig>, k: Key)
    ensures EnsureRows(db, s, ds).RowOf(k) == db.RowOf(k)
  {
    if ds != [] {
      EnsureRowsKeeps(db, s, ds[..|ds| - 1], k);
      var d := (s, ds[|ds| - 1].id);
      if d != k { EnsureRowsKeeps(db, s, ds[..|ds| - 1], d); }
    }
  }

  lemma {:induction false} EnsureConfigKeeps(db: Db, cfg: seq<SourceConfig>, k: Key)
    ensures EnsureConfig(db, cfg).RowOf(k) == db.RowOf(k)
  {
    if cfg != [] {
      var last := cfg[|cfg| - 1];
      EnsureConfigKeeps(db, cfg[..|cfg| - 1], k);
      EnsureRowsKeeps(EnsureConfig(db, cfg[..|cfg| - 1]), last.id, last.destinations, k);
    }
  }

  // ensure_config leaves a row for every destination of the config, and makes no other.
  ghost predicate Configured(cfg: seq<SourceConfig>, k: Key) {
    exists i, j :: 0 <= i < |cfg| && 0 <= j < |cfg[i].destinations| && k == (cfg[i].id, cfg[i].destinations[j].id)
  }

  lemma {:induction false} EnsureRowsMakes(db: Db, s: string, ds: seq<DestinationConfig>, k: Key)
    ensures k in EnsureRows(db, s, ds).rows <==>
      k in db.rows || exists j :: 0 <= j < |ds| && k == (s, ds[j].id)
  {
    if ds != [] {
      var front := ds[..|ds| - 1];
      EnsureRowsMakes(db, s, front, k);
      assert forall j :: 0 <= j < |front| ==> front[j] == ds[j];
    }
  }

  lemma {:induction false} EnsureConfigMakes(db: Db, cfg: seq<SourceConfig>, k: Key)
    ensures k in EnsureConfig(db, cfg).rows <==> k in db.rows || Configured(cfg, k)
  {
    if cfg != [] {
      var front, last := cfg[..|cfg| - 1], cfg[|cfg| - 1];
      EnsureConfigMakes(db, front, k);
      EnsureRowsMakes(EnsureConfig(db, front), last.id, last.destinations, k);
      if i, j :| 0 <= i < |cfg| && 0 <= j < |cfg[i].destinations| && k == (cfg[i].id, cfg[i].destinations[j].id) {
        assert i < |front| ==> front[i] == cfg[i];
      }
      if Configured(front, k) {
        var i, j :| 0 <= i < |front| && 0 <= j < |front[i].destinations| && k == (front[i].id,
          front[i].destinations[j].id);
        assert cfg[i] == front[i];
      }
    }
  }

  lemma {:induction false} EnsureOpenCyclesKeeps(db: Db, cfg: seq<SourceConfig>, at: int)
    ensures EnsureOpenCycles(db, cfg, at).rows == db.rows
  {
    if cfg != [] {
      EnsureOpenCyclesKeeps(db, cfg[..|cfg| - 1], at);
    }
  }

  // Rows for new destinations and cycles for new sources change no offset.
  lemma PrepareKeeps(db: Db, cfg: seq<SourceConfig>, at: int, k: Key)
    ensures Prepare(db, cfg, at).RowOf(k) == db.RowOf(k)
  {
    hide EnsureConfig, EnsureOpenCycles;
    EnsureConfigKeeps(db, cfg, k);
    EnsureOpenCyclesKeeps(EnsureConfig(db, cfg), cfg, at);
  }

  // The open cycle lies above everything a run has given out or verified for its source, and not
  // below anything it has recorded.
  lemma OpenIsAboveHistory(tr: Trace, ready: Db, s: string, k: Key)
    requires Inv(tr) && Evolves(tr.db, ready) && k.0 == s && OpenCycle(ready.cycles, s).Some?
    ensures var c := OpenCycle(ready.cycles, s).value.id;
      && (forall g :: g in tr.Given(k) ==> g < c)
      && (k in tr.passed ==> tr.passed[k] < c)
      && (forall e :: e in tr.recorded && e.source == s ==> e.cycle <= c)
  {
    hide Valid, FloorsOk;
    OpenCycleFound(ready.cycles, s);
    var i :| 0 <= i < |ready.cycles| && ready.cycles[i] == OpenCycle(ready.cycles, s).value;
    EvolvesValid(tr.db, ready);
    OpenIsNewest(ready, s, i);
    EvolvesCycles(tr.db, ready);
    DoneStays(tr.db, ready);
    assert HistoryOk(tr, k);
  }

  // A tick in any run, in front of it the rows and cycles the config asks for. A destination that
  // is due gets the cycle that was open: it is closed now, above every target the destination was
  // ever given and every cycle it ever verified, even ones cleared or reset since, and no event
  // ever recorded for the source lies beyond it. The destination was not behind a target, and what
  // it verified stays. Every other destination keeps its offset.
  lemma TickDiscipline(steps: seq<Step>, cfg: seq<SourceConfig>, i: nat, d: string, at: int)
    requires AllowedRun(START, steps) && DistinctSources(cfg) && i < |cfg|
    ensures var tr := Run(START, steps);
      var after, ready := Next(tr, AdvanceStep(cfg, at)), Prepare(tr.db, cfg, at);
      var s, k := cfg[i].id, (cfg[i].id, d);
      if cfg[i].enabled && Targeted(ready, cfg[i], d, at) then
        var c := OpenCycle(ready.cycles, s).value.id;
        && after.db.RowOf(k) == tr.db.RowOf(k).(target := Some(c)) && !tr.db.RowOf(k).Pending()
        && IsDone(after.db.cycles, s, c)
        && (forall g :: g in tr.Given(k) ==> g < c)
        && (k in tr.passed ==> tr.passed[k] < c)
        && (forall e :: e in tr.recorded && e.source == s ==> e.cycle <= c)
      else
        after.db.RowOf(k) == tr.db.RowOf(k)
  {
    hide Prepare, AdvanceSources, Valid, Evolves, OpenCycle, Inv, DueIn, Note, Trace.Given;
    var tr, k := Run(START, steps), (cfg[i].id, d);
    var ready := Prepare(tr.db, cfg, at);
    RunKeeps(steps, k);
    InvValid(tr);
    PrepareEvolves(tr.db, cfg, at);
    EvolvesValid(tr.db, ready);
    PrepareKeeps(tr.db, cfg, at, k);
    TickTargets(ready, cfg, i, d, at);
    if cfg[i].enabled && Targeted(ready, cfg[i], d, at) {
      OpenIsAboveHistory(tr, ready, cfg[i].id, k);
      TargetedAreIdle(ready, cfg[i], d, at);
      AdvanceDueEvolves(tr.db, cfg, at);
      EvolvesValid(tr.db, AdvanceDue(tr.db, cfg, at));
      RowTargetsDone(AdvanceDue(tr.db, cfg, at), k);
    }
  }

  // Sources the config does not name keep their offsets.
  lemma TickSparesOthers(tr: Trace, cfg: seq<SourceConfig>, k: Key, at: int)
    requires Inv(tr) && forall i :: 0 <= i < |cfg| ==> cfg[i].id != k.0
    ensures Next(tr, AdvanceStep(cfg, at)).db.RowOf(k) == tr.db.RowOf(k)
  {
    hide Prepare, AdvanceSources, Valid, Evolves, Inv, Note;
    InvValid(tr);
    PrepareEvolves(tr.db, cfg, at);
    EvolvesValid(tr.db, Prepare(tr.db, cfg, at));
    PrepareKeeps(tr.db, cfg, at, k);
    AdvanceSourcesLocal(Prepare(tr.db, cfg, at), cfg, at, k.0);
  }

  // ---------------------------------------------------------------- prunes, whoever is enabled

  // After any run, disabled destinations or not: a destination's backlog is complete exactly when
  // none of it was recorded below the highest cycle its source was pruned to.
  lemma BacklogIsCompleteIff(steps: seq<Step>, k: Key, v: nat)
    requires AllowedRun(START, steps)
    ensures var tr := Run(START, steps);
      (forall e :: e in tr.recorded && e.source == k.0 && v < e.cycle ==> e in tr.db.events) <==>
      !exists e :: e in tr.recorded && e.source == k.0 && v < e.cycle < tr.Floor(k.0)
  {
    hide Valid, FloorsOk, HistoryOk;
    var tr := Run(START, steps);
    RunKeeps(steps, k);
    FilterMembers(tr.recorded, tr.AboveFloor());
  }
}
