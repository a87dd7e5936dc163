// What the small changes to one destination's offset and to one cycle's status mean for everything
// that reads them: ticks, passes, pruning and the displayed cycle.
module StateOffsets {
  import opened Wrappers
  import opened Calendar
  import opened StateDb
  import opened StateInvariant
  import opened StateTargets

  // The two tables differ at most in one destination's target.
  ghost predicate SameButTarget(before: Db, after: Db, k: Key) {
    && after == before.(rows := after.rows)
    && forall j :: after.RowOf(j).verified == before.RowOf(j).verified && (j != k ==> after.RowOf(j) == before.RowOf(j))
  }

  lemma {:induction false} SameLeast(before: Db, after: Db, s: string, ds: seq<DestinationConfig>)
    requires forall j :: after.RowOf(j).verified == before.RowOf(j).verified
    ensures LeastVerified(after, s, ds) == LeastVerified(before, s, ds)
  {
    if ds != [] {
      SameLeast(before, after, s, ds[..|ds| - 1]);
    }
  }

  // A target says nothing about what was verified: plans, pruning and display stay as they were.
  lemma TargetsAreForTicks(before: Db, after: Db, k: Key, cycle: Cycle, src: SourceConfig)
    requires SameButTarget(before, after, k)
    ensures forall j: Key :: PlanFor(after, j.0, cycle, j.1) == PlanFor(before, j.0, cycle, j.1)
    ensures PruneKeep(after, src.id, src.destinations) == PruneKeep(before, src.id, src.destinations)
    ensures forall s :: Display(after, s) == Display(before, s)
  {
    hide Filter;
    SameLeast(before, after, src.id, src.destinations);
    forall s, c ensures HasActionable(after, s, c) == HasActionable(before, s, c) {}
    assert AnyUnverified(after, src.id, src.destinations) == AnyUnverified(before, src.id, src.destinations);
  }

  // set_destination_target: from then on the destination is behind, unless it has already verified
  // that cycle; and while it is behind no tick gives it another target.
  lemma TargetPends(db: Db, k: Key, cycle: nat)
    requires Valid(db) && IsDone(db.cycles, k.0, cycle)
    ensures var after := SetTarget(db, k, cycle);
      && Valid(after) && SameButTarget(db, after, k) && after.RowOf(k).target == Some(cycle)
      && (after.RowOf(k).Pending() <==> db.RowOf(k).verified.None? || db.RowOf(k).verified.value < cycle)
      && (after.RowOf(k).Pending() ==> forall src: SourceConfig, now :: src.id == k.0 ==>
           !Targeted(after, src, k.1, now))
  {
    hide IsDone;
    var after := SetTarget(db, k, cycle);
    if after.RowOf(k).Pending() {
      forall src: SourceConfig, now | src.id == k.0 ensures !Targeted(after, src, k.1, now) {
        if Targeted(after, src, k.1, now) { TargetedAreIdle(after, src, k.1, now); }
      }
    }
  }

  // clear_destination_target: the destination is no longer behind, but keeps what it verified; and
  // clearing undoes setting, whatever was set.
  lemma ClearReleases(db: Db, k: Key, cycle: nat)
    requires Valid(db)
    ensures var after := ClearTarget(db, k);
      && Valid(after) && SameButTarget(db, after, k) && !after.RowOf(k).Pending() && after.rows.Keys == db.rows.Keys
      && ClearTarget(SetTarget(db, k, cycle), k).RowOf(k) == after.RowOf(k)
  {
    hide IsDone;
  }

  // upsert_destination_status: a pass that verified the target, or went beyond it, leaves the
  // destination not behind; one that reports no cycle leaves every destination as it was.
  lemma VerifyingSettles(db: Db, k: Key, cycle: nat)
    requires Valid(db) && IsDone(db.cycles, k.0, cycle)
    ensures var after := UpsertVerified(db, k, Some(cycle));
      && Valid(after)
      && (after.RowOf(k).Pending() <==> db.RowOf(k).target.Some? && cycle < db.RowOf(k).target.value)
    ensures forall j :: UpsertVerified(db, k, None).RowOf(j) == db.RowOf(j)
  {
    hide IsDone;
  }

  // reset_destination_offset: the destination starts over. It is due at the next look whatever its
  // schedule, its first pass is a full one for every cycle, and its source is not pruned before
  // that has been verified.
  lemma ResetStartsOver(db: Db, k: Key, d: DestinationConfig, cycle: Cycle, startsAt: int, events: bool, now: int)
    requires Valid(db) && d.id == k.1
    ensures var after := ResetRow(db, k);
      && Valid(after) && !after.RowOf(k).Pending()
      && (DueNow(after, k.0, d, startsAt, events, now) <==> d.enabled && !d.paused)
      && PlanFor(after, k.0, cycle, k.1) == FullPass
      && forall src: SourceConfig :: src.id == k.0 && HasEnabled(src, k.1) ==> PruneVerified(after, src) == after
  {
    hide IsDone;
    var after := ResetRow(db, k);
    forall src: SourceConfig | src.id == k.0 && HasEnabled(src, k.1) ensures PruneVerified(after, src) == after {
      var i :| 0 <= i < |src.destinations| && src.destinations[i].id == k.1 && src.destinations[i].enabled;
      assert AnyUnverified(after, src.id, src.destinations);
    }
  }

  // mark_cycle_status, to anything but 'open': no cycle is reopened or lost, and no source's
  // displayed cycle goes back. A source is left without an open cycle exactly when it was its open
  // cycle that was marked.
  lemma MarkingHidesNothing(db: Db, id: nat, status: Status, s: string)
    requires Valid(db) && status != Open
    ensures var after := db.(cycles := MarkById(db.cycles, id, status));
      && Evolves(db, after) && (forall c :: c in after.cycles && c.id == id ==> c.status == status)
      && (Display(db, s).Some? ==> Display(after, s).Some? && Display(db, s).value <= Display(after, s).value)
      && OpenCycle(after.cycles, s) == match OpenCycle(db.cycles, s)
                                       case None => None
                                       case Some(c) => if c.id == id then None else Some(c)
  {
    hide Display, Evolves, Valid;
    var after := db.(cycles := MarkById(db.cycles, id, status));
    RewriteEvolves(db, MarkById(db.cycles, id, status));
    EvolvesValid(db, after);
    EvolvesStaysShown(db, after);
    DisplayNeverDrops(db, after, s);
    assert CyclesOk(db.cycles, db.lastCycle) by { ValidCycles(db); }
    MarkedOpen(db.cycles, id, status, s);
  }

  lemma ValidCycles(db: Db)
    requires Valid(db)
    ensures CyclesOk(db.cycles, db.lastCycle)
  {}

  lemma {:induction false} MarkedOpen(cycles: seq<Cycle>, id: nat, status: Status, s: string)
    requires status != Open
    requires forall i, j :: 0 <= i < j < |cycles| && cycles[i].source == cycles[j].source ==> cycles[i].status != Open
    ensures OpenCycle(MarkById(cycles, id, status), s) == match OpenCycle(cycles, s)
                                                          case None => None
                                                          case Some(c) => if c.id == id then None else Some(c)
  {
    if cycles != [] {
      var n := |cycles| - 1;
      var front := cycles[..n];
      assert MarkById(cycles, id, status)[..n] == MarkById(front, id, status);
      MarkedOpen(front, id, status, s);
      OpenCycleFound(front, s);
    }
  }

  // ---------------------------------------------------------------- what the callers are told

  // The source's cycle that was open and no longer is.
  function JustClosed(before: Db, after: Db, s: string): Option<Cycle> {
    match OpenCycle(before.cycles, s)
    case None => None
    case Some(c) =>
      if OpenCycle(after.cycles, s).Some? && OpenCycle(after.cycles, s).value.id == c.id then None
      else Some(c.(status := Closed))
  }

  lemma CloseReplaces(db: Db, s: string, at: int)
    requires Valid(db) && OpenCycle(db.cycles, s).Some?
    ensures var after := CloseCurrent(db, s, at);
      OpenCycle(after.cycles, s).Some? && OpenCycle(after.cycles, s).value.id > OpenCycle(db.cycles, s).value.id
  {
    hide EventsOk, RowsOk, LatestClosed;
    OpenCycleFound(db.cycles, s);
    var c := OpenCycle(db.cycles, s).value;
    var closed := CloseById(db.cycles, c.id);
    assert closed == MarkById(db.cycles, c.id, Closed) by {
      var j :| 0 <= j < |db.cycles| && db.cycles[j] == c;
      assert forall i :: 0 <= i < |db.cycles| && db.cycles[i].id == c.id ==> i == j;
    }
    MarkedOpen(db.cycles, c.id, Closed, s);
    var next := Cycle(db.lastCycle + 1, s, at, Open, false, false);
    assert (closed + [next])[..|closed|] == closed;
    assert OpenCycle(closed + [next], s) == Some(next);
  }

  // In the table: its row alone is changed, to 'closed', and one new cycle begins behind the rest.
  lemma ClosingExactly(db: Db, s: string, at: int) returns (i: nat)
    requires Valid(db) && OpenCycle(db.cycles, s).Some?
    ensures i < |db.cycles| && db.cycles[i] == OpenCycle(db.cycles, s).value
    ensures CloseCurrent(db, s, at).cycles
         == db.cycles[i := db.cycles[i].(status := Closed)]
            + [Cycle(db.lastCycle + 1, s, at, Open, false, false)]
  {
    hide EventsOk, RowsOk;
    OpenCycleFound(db.cycles, s);
    CloseReplaces(db, s, at);
    var c := OpenCycle(db.cycles, s).value;
    i :| 0 <= i < |db.cycles| && db.cycles[i] == c;
    assert forall j :: 0 <= j < |db.cycles| && db.cycles[j].id == c.id ==> i == j;
    assert CloseById(db.cycles, c.id) == db.cycles[i := c.(status := Closed)];
    ClosedHasNone(db, s, c.id);
  }

  lemma ClosedHasNone(db: Db, s: string, id: nat)
    requires Valid(db) && OpenCycle(db.cycles, s).Some? && id == OpenCycle(db.cycles, s).value.id
    ensures OpenCycle(CloseById(db.cycles, id), s).None?
  {
    var closed := CloseById(db.cycles, id);
    OpenCycleFound(closed, s);
    OpenCycleFound(db.cycles, s);
    if OpenCycle(closed, s).Some? {
      var j :| 0 <= j < |closed| && closed[j] == OpenCycle(closed, s).value;
      OpenIsNewest(db, s, j);
      assert false;
    }
  }

  lemma {:induction false} SameOpenIds(xs: seq<Cycle>, ys: seq<Cycle>, s: string)
    requires |xs| == |ys|
    requires forall i :: 0 <= i < |xs| ==>
      ys[i].id == xs[i].id && ys[i].source == xs[i].source && ys[i].status == xs[i].status
    ensures OpenCycle(xs, s).Some? <==> OpenCycle(ys, s).Some?
    ensures OpenCycle(xs, s).Some? ==> OpenCycle(ys, s).value.id == OpenCycle(xs, s).value.id
  {
    if xs != [] {
      SameOpenIds(xs[..|xs| - 1], ys[..|ys| - 1], s);
    }
  }

  // The cycle a tick or a manual request hands back for a source is the one it closed, if any.
  lemma TickTellsWhatItClosed(db: Db, src: SourceConfig, now: int)
    requires Valid(db)
    ensures TickCloses(db, src, now) == JustClosed(db, AdvanceSource(db, src, now), src.id)
  {
    hide Valid, OpenCycle, HasActionable, DueDestinations, CloseCurrent, SetTargets, AllRealtime;
    var open := OpenCycle(db.cycles, src.id);
    if open.Some? {
      var c, closed := open.value, CloseCurrent(db, src.id, now);
      var due := DueDestinations(db, src.id, src.destinations, c.startsAt, HasActionable(db, src.id, c.id), now);
      CloseReplaces(db, src.id, now);
      SameOpenIds(closed.cycles, ClearRescan(closed.cycles, c.id), src.id);
      SetTargetsTables(closed, src.id, due, c.id);
      SetTargetsTables(closed.(cycles := ClearRescan(closed.cycles, c.id)), src.id, due, c.id);
    }
  }

  lemma ForceTellsWhatItClosed(db: Db, s: string, ids: seq<string>, at: int)
    requires Valid(db)
    ensures ForceCloses(db, s) == JustClosed(db, CloseAndTarget(db, s, ids, at), s)
  {
    hide Valid, OpenCycle, CloseCurrent, SetTargets;
    if OpenCycle(db.cycles, s).Some? {
      CloseReplaces(db, s, at);
      SetTargetsTables(CloseCurrent(db, s, at), s, ids, OpenCycle(db.cycles, s).value.id);
    }
  }

  ghost predicate ClosedIn(db: Db, after: Db, cfg: seq<SourceConfig>, c: Cycle) {
    exists i :: 0 <= i < |cfg| && cfg[i].enabled && JustClosed(db, after, cfg[i].id) == Some(c)
  }

  lemma ClosedInAppend(db: Db, before: Db, after: Db, cfg: seq<SourceConfig>, c: Cycle)
    requires cfg != []
    requires forall i :: 0 <= i < |cfg| - 1 ==> JustClosed(db, after, cfg[i].id) == JustClosed(db, before, cfg[i].id)
    ensures var last := cfg[|cfg| - 1];
      ClosedIn(db, after, cfg, c) <==>
      ClosedIn(db, before, cfg[..|cfg| - 1], c) || (last.enabled && JustClosed(db, after, last.id) == Some(c))
  {
    hide JustClosed;
    var n := |cfg| - 1;
    var front := cfg[..n];
    if ClosedIn(db, before, front, c) {
      var i :| 0 <= i < n && front[i].enabled && JustClosed(db, before, front[i].id) == Some(c);
      assert cfg[i] == front[i];
    }
    if ClosedIn(db, after, cfg, c) {
      var i :| 0 <= i <= n && cfg[i].enabled && JustClosed(db, after, cfg[i].id) == Some(c);
      assert i < n ==> front[i] == cfg[i];
    }
  }

  lemma JustClosedSame(db: Db, before: Db, after: Db, other: Db, s: string)
    ensures OpenCycle(before.cycles, s) == OpenCycle(db.cycles, s) ==>
      JustClosed(before, after, s) == JustClosed(db, after, s)
    ensures OpenCycle(after.cycles, s) == OpenCycle(other.cycles, s) ==>
      JustClosed(db, after, s) == JustClosed(db, other, s)
  {
    hide OpenCycle;
  }

  // The list a tick hands back: exactly the cycles that were open when it began, of enabled
  // sources, and are no longer.
  lemma {:induction false} TickTellsAll(db: Db, cfg: seq<SourceConfig>, now: int, c: Cycle)
    requires Valid(db) && DistinctSources(cfg)
    ensures c in TickClosesAll(db, cfg, now) <==> ClosedIn(db, AdvanceSources(db, cfg, now), cfg, c)
  {
    if cfg != [] {
      hide Valid, OpenCycle, AdvanceSource, TickCloses, JustClosed, ClosedIn, Evolves;
      var n := |cfg| - 1;
      var front, last := cfg[..n], cfg[n];
      var before, after := AdvanceSources(db, front, now), AdvanceSources(db, cfg, now);
      TickTellsAll(db, front, now, c);
      AdvanceSourcesEvolves(db, front, now);
      EvolvesValid(db, before);
      AdvanceSourcesLocal(db, front, now, last.id);
      TickTellsWhatItClosed(before, last, now);
      JustClosedSame(db, before, after, after, last.id);
      forall i | 0 <= i < n ensures JustClosed(db, after, cfg[i].id) == JustClosed(db, before, cfg[i].id) {
        if last.enabled { AdvanceSourceLocal(before, last, now, cfg[i].id); }
        JustClosedSame(db, before, after, before, cfg[i].id);
      }
      ClosedInAppend(db, before, after, cfg, c);
    }
  }

  // And so does the list of a request for every source.
  lemma {:induction false} ForceTellsAll(db: Db, cfg: seq<SourceConfig>, at: int, c: Cycle)
    requires Valid(db) && DistinctSources(cfg)
    ensures c in ForceClosesAll(db, cfg, at) <==> ClosedIn(db, ForceSources(db, cfg, at), cfg, c)
  {
    if cfg != [] {
      hide Valid, OpenCycle, CloseAndTarget, ForceCloses, Forceable, JustClosed, ClosedIn, Evolves;
      var n := |cfg| - 1;
      var front, last := cfg[..n], cfg[n];
      var before, after := ForceSources(db, front, at), ForceSources(db, cfg, at);
      ForceTellsAll(db, front, at, c);
      ForceSourcesEvolves(db, front, at);
      EvolvesValid(db, before);
      ForceSourcesLocal(db, front, at, last.id);
      ForceTellsWhatItClosed(before, last.id, Forceable(last.destinations), at);
      JustClosedSame(db, before, after, after, last.id);
      forall i | 0 <= i < n ensures JustClosed(db, after, cfg[i].id) == JustClosed(db, before, cfg[i].id) {
        if last.enabled { CloseAndTargetLocal(before, last.id, Forceable(last.destinations), at, cfg[i].id); }
        JustClosedSame(db, before, after, before, cfg[i].id);
      }
      ClosedInAppend(db, before, after, cfg, c);
    }
  }

  lemma CloseAndTargetLocal(db: Db, s: string, ids: seq<string>, at: int, other: string)
    requires Valid(db) && other != s
    ensures OpenCycle(CloseAndTarget(db, s, ids, at).cycles, other) == OpenCycle(db.cycles, other)
  {
    hide Valid, OpenCycle, CloseCurrent, SetTargets;
    if OpenCycle(db.cycles, s).Some? {
      CloseCurrentLocal(db, s, at, other);
      SetTargetsTables(CloseCurrent(db, s, at), s, ids, OpenCycle(db.cycles, s).value.id);
    }
  }

  lemma {:induction false} ForceSourcesLocal(db: Db, cfg: seq<SourceConfig>, at: int, other: string)
    requires Valid(db) && forall i :: 0 <= i < |cfg| ==> cfg[i].id != other
    ensures OpenCycle(ForceSources(db, cfg, at).cycles, other) == OpenCycle(db.cycles, other)
  {
    if cfg != [] {
      hide Valid, OpenCycle, CloseAndTarget, Forceable;
      var before, last := ForceSources(db, cfg[..|cfg| - 1], at), cfg[|cfg| - 1];
      ForceSourcesLocal(db, cfg[..|cfg| - 1], at, other);
      ForceSourcesEvolves(db, cfg[..|cfg| - 1], at);
      EvolvesValid(db, before);
      CloseAndTargetLocal(before, last.id, Forceable(last.destinations), at, other);
    }
  }
}
