// event_incremental_plan of src/core/sync/mod.rs: whether one pass can apply the recorded events to
// all destinations that are ready, or has to compare everything.
module PassPlan {
  import opened Wrappers
  import opened StateDb
  import opened StateInvariant
  import opened StateRuns
  import opened HistoryRuns
  import opened State

  datatype PassPlan = Everything | NoPath | Apply(plans: seq<(string, set<string>)>)

  datatype PathError = InvalidPath

  // The paths in normal form; one that has none spoils the plan.
  function Normalised(paths: set<string>, normalize: string -> Option<string>): Result<set<string>, PathError> {
    if exists p :: p in paths && normalize(p).None? then Err(InvalidPath)
    else Ok(set p | p in paths :: normalize(p).value)
  }

  // One destination more: the first that stands in the way decides.
  function Extend(front: Result<PassPlan, PathError>, d: string, plan: Plan, normalize: string -> Option<string>):
    Result<PassPlan, PathError>
  {
    if front.Err? || !front.value.Apply? then front
    else
      match plan
      case FullPass => Ok(Everything)
      case Unusable => Ok(NoPath)
      case Incremental(paths) =>
        match Normalised(paths, normalize)
        case Err(e) => Err(e)
        case Ok(normal) => Ok(Apply(front.value.plans + [(d, normal)]))
  }

  function PlansFor(db: Db, s: string, cycle: Cycle, ds: seq<string>, normalize: string -> Option<string>):
    Result<PassPlan, PathError>
  {
    if ds == [] then Ok(Apply([]))
    else
      var d := ds[|ds| - 1];
      Extend(PlansFor(db, s, cycle, ds[..|ds| - 1], normalize), d, PlanFor(db, s, cycle, d), normalize)
  }

  method EventIncrementalPlan(state: State, s: string, cycle: Cycle, ready: seq<string>,
      normalize: string -> Option<string>)
    returns (r: Result<PassPlan, PathError>)
    ensures r == if ready == [] then Ok(Everything) else PlansFor(state.View(), s, cycle, ready, normalize)
  {
    if ready == [] {
      return Ok(Everything);
    }
    hide Normalised, PlanFor;
    var plans: seq<(string, set<string>)> := [];
    for i := 0 to |ready|
      invariant PlansFor(state.View(), s, cycle, ready[..i], normalize) == Ok(Apply(plans))
    {
      assert ready[..i + 1][..i] == ready[..i];
      var plan := state.EventIncrementalPlan(s, cycle, ready[i]);
      if plan.FullPass? {
        StaysDecided(state.View(), s, cycle, ready, i + 1, normalize);
        return Ok(Everything);
      }
      if plan.Unusable? {
        return Ok(NoPath);
      }
      var normal := Normalised(plan.paths, normalize);
      if normal.Err? {
        StaysDecided(state.View(), s, cycle, ready, i + 1, normalize);
        return Err(normal.error);
      }
      plans := plans + [(ready[i], normal.value)];
    }
    assert ready[..|ready|] == ready;
    r := Ok(Apply(plans));
  }

  // The first destination that stands in the way decides.
  lemma {:induction false} StaysDecided(db: Db, s: string, cycle: Cycle, ds: seq<string>, n: nat,
      normalize: string -> Option<string>)
    requires n <= |ds|
    requires var r := PlansFor(db, s, cycle, ds[..n], normalize); r.Err? || !r.value.Apply?
    ensures PlansFor(db, s, cycle, ds, normalize) == PlansFor(db, s, cycle, ds[..n], normalize)
  {
    hide PlanFor, Normalised;
    if n == |ds| {
      assert ds[..n] == ds;
    } else {
      var front := ds[..|ds| - 1];
      assert front[..n] == ds[..n];
      StaysDecided(db, s, cycle, front, n, normalize);
    }
  }

  // ---------------------------------------------------------------- what a pass does

  // Everything has to be compared: the destination never verified, or a rescan was asked for since.
  ghost predicate Compares(tr: Trace, s: string, cycle: Cycle, d: string) {
    var verified := tr.db.RowOf((s, d)).verified;
    verified.None? || exists e :: Since(tr, s, verified.value, cycle.id, e) && e.rescan
  }

  // Not so, but a path that changed since has no normal form.
  ghost predicate Spoils(tr: Trace, s: string, cycle: Cycle, d: string, normalize: string -> Option<string>) {
    && !Compares(tr, s, cycle, d)
    && exists e ::
         && Since(tr, s, tr.db.RowOf((s, d)).verified.value, cycle.id, e)
         && e.path.Some? && normalize(e.path.value).None?
  }

  // The normal forms of exactly the paths that changed since the destination verified.
  ghost predicate TakesExactly(tr: Trace, s: string, cycle: Cycle, plan: (string, set<string>),
      normalize: string -> Option<string>) {
    && tr.db.RowOf((s, plan.0)).verified.Some?
    && forall q :: q in plan.1 <==>
         exists e ::
           && Since(tr, s, tr.db.RowOf((s, plan.0)).verified.value, cycle.id, e)
           && e.path.Some? && normalize(e.path.value) == Some(q)
  }

  // The j-th destination stands in the way, and none before it.
  ghost predicate FirstInTheWay(tr: Trace, s: string, cycle: Cycle, ds: seq<string>, j: nat,
      normalize: string -> Option<string>) {
    && j < |ds| && (Compares(tr, s, cycle, ds[j]) || Spoils(tr, s, cycle, ds[j], normalize))
    && forall i :: 0 <= i < j ==> !Compares(tr, s, cycle, ds[i]) && !Spoils(tr, s, cycle, ds[i], normalize)
  }

  ghost predicate Decided(tr: Trace, s: string, cycle: Cycle, ds: seq<string>, r: Result<PassPlan, PathError>,
      normalize: string -> Option<string>) {
    match r
    case Ok(Apply(plans)) =>
      && |plans| == |ds|
      && forall i :: 0 <= i < |ds| ==>
           && !Compares(tr, s, cycle, ds[i]) && !Spoils(tr, s, cycle, ds[i], normalize)
           && plans[i].0 == ds[i] && TakesExactly(tr, s, cycle, plans[i], normalize)
    case Ok(Everything) =>
      exists j: nat :: FirstInTheWay(tr, s, cycle, ds, j, normalize) && Compares(tr, s, cycle, ds[j])
    case Err(_) => exists j: nat :: FirstInTheWay(tr, s, cycle, ds, j, normalize) && !Compares(tr, s, cycle, ds[j])
    case Ok(NoPath) => false
  }

  lemma NormalisedPaths(tr: Trace, s: string, cycle: Cycle, d: string, paths: set<string>,
      normalize: string -> Option<string>)
    requires !Compares(tr, s, cycle, d)
    requires forall p :: p in paths <==>
      exists e :: Since(tr, s, tr.db.RowOf((s, d)).verified.value, cycle.id, e) && e.path == Some(p)
    ensures var normal := Normalised(paths, normalize);
      && (normal.Err? <==> Spoils(tr, s, cycle, d, normalize))
      && (normal.Ok? ==> TakesExactly(tr, s, cycle, (d, normal.value), normalize))
  {
    hide Since, Compares;
    var normal, v := Normalised(paths, normalize), tr.db.RowOf((s, d)).verified;
    assert v.Some? by { VerifiedWhenApplied(tr, s, cycle, d); }
    if normal.Ok? {
      forall q ensures q in normal.value <==> exists e ::
        Since(tr, s, v.value, cycle.id, e) && e.path.Some? && normalize(e.path.value) == Some(q)
      {
        if q in normal.value {
          var p :| p in paths && normalize(p).value == q;
          var e :| Since(tr, s, v.value, cycle.id, e) && e.path == Some(p);
          assert normalize(e.path.value) == Some(q);
        }
        if e :| Since(tr, s, v.value, cycle.id, e) && e.path.Some? && normalize(e.path.value) == Some(q) {
          assert e.path.value in paths;
        }
      }
    } else {
      var p :| p in paths && normalize(p).None?;
      var e :| Since(tr, s, v.value, cycle.id, e) && e.path == Some(p);
      assert normalize(e.path.value).None?;
    }
  }

  lemma VerifiedWhenApplied(tr: Trace, s: string, cycle: Cycle, d: string)
    requires !Compares(tr, s, cycle, d)
    ensures tr.db.RowOf((s, d)).verified.Some?
  {}

  // One destination's share.
  lemma OnePlan(steps: seq<Step>, s: string, cycle: Cycle, d: string, normalize: string -> Option<string>)
    requires AllowedRun(START, steps) && forall i :: 0 <= i < |steps| ==> Protects(steps[i], (s, d))
    requires !cycle.needsRescan && !cycle.manualRescan
    ensures var tr := Run(START, steps);
      var plan := PlanFor(tr.db, s, cycle, d);
      && (Compares(tr, s, cycle, d) <==> plan == FullPass) && (!Compares(tr, s, cycle, d) <==> plan.Incremental?)
      && (plan.Incremental? ==>
           var normal := Normalised(plan.paths, normalize);
           && (normal.Err? <==> Spoils(tr, s, cycle, d, normalize))
           && (normal.Ok? ==> TakesExactly(tr, s, cycle, (d, normal.value), normalize)))
  {
    hide PlanFor, Normalised, Run, Protects, Since, Spoils, TakesExactly;
    PlanExactly(steps, (s, d), cycle);
    var tr := Run(START, steps);
    if !Compares(tr, s, cycle, d) {
      NormalisedPaths(tr, s, cycle, d, PlanFor(tr.db, s, cycle, d).paths, normalize);
    }
  }

  lemma ExtendDecides(tr: Trace, s: string, cycle: Cycle, ds: seq<string>, front: Result<PassPlan, PathError>,
      plan: Plan, normalize: string -> Option<string>)
    requires ds != [] && Decided(tr, s, cycle, ds[..|ds| - 1], front, normalize)
    requires var d := ds[|ds| - 1];
      && (Compares(tr, s, cycle, d) <==> plan == FullPass) && (!Compares(tr, s, cycle, d) <==> plan.Incremental?)
      && (plan.Incremental? ==>
           var normal := Normalised(plan.paths, normalize);
           && (normal.Err? <==> Spoils(tr, s, cycle, d, normalize))
           && (normal.Ok? ==> TakesExactly(tr, s, cycle, (d, normal.value), normalize)))
    ensures Decided(tr, s, cycle, ds, Extend(front, ds[|ds| - 1], plan, normalize), normalize)
  {
    hide Compares, Spoils, TakesExactly, Normalised;
    SpoilsIfApplied(tr, s, cycle, ds[|ds| - 1], normalize);
    var n, before := |ds| - 1, ds[..|ds| - 1];
    if front.Ok? && front.value.Apply? {
      assert forall i :: 0 <= i < n ==> ds[i] == before[i];
      if plan == FullPass || Normalised(plan.paths, normalize).Err? {
        assert FirstInTheWay(tr, s, cycle, ds, n, normalize);
      }
    } else {
      var j: nat :| FirstInTheWay(tr, s, cycle, before, j, normalize) &&
        (front.Ok? <==> Compares(tr, s, cycle, before[j]));
      assert FirstInTheWay(tr, s, cycle, ds, j, normalize);
    }
  }

  lemma SpoilsIfApplied(tr: Trace, s: string, cycle: Cycle, d: string, normalize: string -> Option<string>)
    ensures Spoils(tr, s, cycle, d, normalize) ==> !Compares(tr, s, cycle, d)
  {}

  lemma {:induction false} PlansAreDecided(steps: seq<Step>, s: string, cycle: Cycle, ds: seq<string>,
      normalize: string -> Option<string>)
    requires AllowedRun(START, steps) && !cycle.needsRescan && !cycle.manualRescan
    requires forall i, j :: 0 <= i < |steps| && 0 <= j < |ds| ==> Protects(steps[i], (s, ds[j]))
    ensures Decided(Run(START, steps), s, cycle, ds, PlansFor(Run(START, steps).db, s, cycle, ds, normalize), normalize)
  {
    hide PlanFor, Run, Protects, AllowedRun, Extend, Compares, Spoils, TakesExactly, FirstInTheWay, Normalised;
    if ds != [] {
      var tr, front, d := Run(START, steps), ds[..|ds| - 1], ds[|ds| - 1];
      assert forall j :: 0 <= j < |front| ==> front[j] == ds[j];
      PlansAreDecided(steps, s, cycle, front, normalize);
      OnePlan(steps, s, cycle, d, normalize);
      ExtendDecides(tr, s, cycle, ds, PlansFor(tr.db, s, cycle, front, normalize), PlanFor(tr.db, s, cycle, d),
        normalize);
    }
  }

  // What a pass over the destinations that are ready does, in every run in which each of them was
  // enabled whenever the source was pruned. It applies events instead of comparing exactly when no
  // rescan is asked for, by its cycle or since a destination verified, and every path that changed
  // since has a normal form; each destination then gets the normal forms of exactly those paths.
  // Otherwise the first destination in the way decides between comparing and failing.
  lemma PassPlanIsComplete(steps: seq<Step>, s: string, cycle: Cycle, ready: seq<string>,
      normalize: string -> Option<string>, tr: Trace, r: Result<PassPlan, PathError>)
    requires AllowedRun(START, steps) && tr == Run(START, steps) && ready != []
    requires forall i, j :: 0 <= i < |steps| && 0 <= j < |ready| ==> Protects(steps[i], (s, ready[j]))
    requires r == PlansFor(tr.db, s, cycle, ready, normalize)
    ensures r.Ok? && r.value.Apply? <==>
      && !cycle.needsRescan && !cycle.manualRescan
      && forall j :: 0 <= j < |ready| ==>
           !Compares(tr, s, cycle, ready[j]) && !Spoils(tr, s, cycle, ready[j], normalize)
    ensures r.Ok? && r.value.Apply? ==>
      && |r.value.plans| == |ready|
      && forall i :: 0 <= i < |ready| ==>
           r.value.plans[i].0 == ready[i] && TakesExactly(tr, s, cycle, r.value.plans[i], normalize)
    ensures r == Ok(Everything) <==>
      || cycle.needsRescan || cycle.manualRescan
      || exists j: nat :: FirstInTheWay(tr, s, cycle, ready, j, normalize) && Compares(tr, s, cycle, ready[j])
    ensures r.Err? <==>
      && !cycle.needsRescan && !cycle.manualRescan
      && exists j: nat :: FirstInTheWay(tr, s, cycle, ready, j, normalize) && !Compares(tr, s, cycle, ready[j])
  {
    hide *;
    if cycle.needsRescan || cycle.manualRescan {
      AskedIsEverything(tr.db, s, cycle, ready, normalize);
    } else {
      PlansAreDecided(steps, s, cycle, ready, normalize);
      DecidedMeans(tr, s, cycle, ready, r, normalize);
    }
  }

  lemma DecidedMeans(tr: Trace, s: string, cycle: Cycle, ds: seq<string>, r: Result<PassPlan, PathError>,
      normalize: string -> Option<string>)
    requires Decided(tr, s, cycle, ds, r, normalize)
    ensures r.Ok? && r.value.Apply? <==> forall j :: 0 <= j < |ds| ==>
      !Compares(tr, s, cycle, ds[j]) && !Spoils(tr, s, cycle, ds[j], normalize)
    ensures r.Ok? && r.value.Apply? ==>
      && |r.value.plans| == |ds|
      && forall i :: 0 <= i < |ds| ==>
           r.value.plans[i].0 == ds[i] && TakesExactly(tr, s, cycle, r.value.plans[i], normalize)
    ensures r == Ok(Everything) <==>
      exists j: nat :: FirstInTheWay(tr, s, cycle, ds, j, normalize) && Compares(tr, s, cycle, ds[j])
    ensures r.Err? <==>
      exists j: nat :: FirstInTheWay(tr, s, cycle, ds, j, normalize) && !Compares(tr, s, cycle, ds[j])
  {
    hide Compares, Spoils, TakesExactly;
    forall i: nat, j: nat |
        FirstInTheWay(tr, s, cycle, ds, i, normalize) && FirstInTheWay(tr, s, cycle, ds, j, normalize)
      ensures i == j
    {}
  }

  lemma {:induction false} AskedIsEverything(db: Db, s: string, cycle: Cycle, ds: seq<string>,
      normalize: string -> Option<string>)
    requires ds != [] && (cycle.needsRescan || cycle.manualRescan)
    ensures PlansFor(db, s, cycle, ds, normalize) == Ok(Everything)
  {
    var front := ds[..|ds| - 1];
    if front != [] {
      AskedIsEverything(db, s, cycle, front, normalize);
    }
  }
}
