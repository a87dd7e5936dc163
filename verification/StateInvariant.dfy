// What every State method keeps, one method at a time: the tables stay consistent, cycles only
// ever move forward, and a new target is always a freshly closed cycle.
module StateInvariant {
  import opened Wrappers
  import opened Calendar
  import opened StateDb

  // ---------------------------------------------------------------- consistency

  ghost predicate HasCycle(cycles: seq<Cycle>, s: string, id: nat) {
    exists i :: 0 <= i < |cycles| && cycles[i].source == s && cycles[i].id == id
  }

  // A cycle of the source that is no longer open.
  ghost predicate IsDone(cycles: seq<Cycle>, s: string, id: nat) {
    exists i :: 0 <= i < |cycles| && cycles[i].source == s && cycles[i].id == id && cycles[i].status != Open
  }

  // Ids increase; only a source's newest cycle can be open.
  ghost predicate CyclesOk(cycles: seq<Cycle>, last: nat) {
    && (forall i :: 0 <= i < |cycles| ==> 1 <= cycles[i].id <= last)
    && (forall i, j :: 0 <= i < j < |cycles| ==> cycles[i].id < cycles[j].id)
    && (forall i, j :: 0 <= i < j < |cycles| && cycles[i].source == cycles[j].source ==> cycles[i].status != Open)
  }

  ghost predicate RowsOk(db: Db) {
    forall k :: k in db.rows ==>
      && (db.rows[k].target.Some? ==> IsDone(db.cycles, k.0, db.rows[k].target.value))
      && (db.rows[k].verified.Some? ==> IsDone(db.cycles, k.0, db.rows[k].verified.value))
  }

  ghost predicate EventsOk(db: Db) {
    && (forall i :: 0 <= i < |db.events| ==>
         db.events[i].id <= db.lastEvent && HasCycle(db.cycles, db.events[i].source, db.events[i].cycle))
    && (forall i, j :: 0 <= i < j < |db.events| ==> db.events[i].id < db.events[j].id)
  }

  ghost predicate Valid(db: Db) {
    CyclesOk(db.cycles, db.lastCycle) && RowsOk(db) && EventsOk(db)
  }

  // At most one cycle of a source is open, and it has the source's highest id.
  lemma OpenIsNewest(db: Db, s: string, i: nat)
    requires Valid(db) && i < |db.cycles| && db.cycles[i].source == s && db.cycles[i].status == Open
    ensures OpenCycle(db.cycles, s) == Some(db.cycles[i])
    ensures forall id: nat :: HasCycle(db.cycles, s, id) ==> id <= db.cycles[i].id
    ensures forall id: nat :: IsDone(db.cycles, s, id) ==> id < db.cycles[i].id
  {
    OpenCycleFound(db.cycles, s);
    var found := OpenCycle(db.cycles, s).value;
    var j :| 0 <= j < |db.cycles| && db.cycles[j] == found;
    assert i == j;
  }

  lemma {:induction false} OpenCycleFound(cycles: seq<Cycle>, s: string)
    ensures OpenCycle(cycles, s).Some? ==>
      OpenCycle(cycles, s).value in cycles && OpenCycle(cycles, s).value.source == s
        && OpenCycle(cycles, s).value.status == Open
    ensures OpenCycle(cycles, s).None? ==>
      forall i :: 0 <= i < |cycles| && cycles[i].source == s ==> cycles[i].status != Open
  {
    if cycles != [] {
      OpenCycleFound(cycles[..|cycles| - 1], s);
    }
  }

  // ---------------------------------------------------------------- evolution

  // The cycle table only grows at the end; a cycle that is done stays done.
  ghost predicate CyclesAdvance(before: Db, after: Db) {
    && |before.cycles| <= |after.cycles| && before.lastCycle <= after.lastCycle
    && (forall i :: 0 <= i < |before.cycles| ==>
         && after.cycles[i].id == before.cycles[i].id && after.cycles[i].source == before.cycles[i].source
         && (before.cycles[i].status != Open ==> after.cycles[i].status != Open))
    && (forall i :: |before.cycles| <= i < |after.cycles| ==> after.cycles[i].id > before.lastCycle)
  }

  // What is known about a cycle is not forgotten: when it began, and that it wants a rescan.
  ghost predicate MarksKept(before: Db, after: Db) {
    && |before.cycles| <= |after.cycles|
    && forall i :: 0 <= i < |before.cycles| ==>
         && after.cycles[i].startsAt == before.cycles[i].startsAt
         && (before.cycles[i].needsRescan ==> after.cycles[i].needsRescan)
         && (before.cycles[i].manualRescan ==> after.cycles[i].manualRescan)
  }

  // A cycle closed since `before`: above everything that was done then.
  ghost predicate Fresh(before: Db, after: Db, s: string, id: nat) {
    IsDone(after.cycles, s, id) && forall old_: nat :: IsDone(before.cycles, s, old_) ==> old_ < id
  }

  ghost predicate RowEvolves(before: Db, after: Db, k: Key) {
    var old_, new_ := before.RowOf(k), after.RowOf(k);
    && (new_.verified == old_.verified || new_.verified == None)
    && (new_.target == old_.target || new_.target == None || Fresh(before, after, k.0, new_.target.value))
  }

  // What a method that neither records, verifies nor prunes may do.
  ghost predicate Evolves(before: Db, after: Db) {
    && Valid(after)
    && CyclesAdvance(before, after) && MarksKept(before, after)
    && after.events == before.events && after.lastEvent == before.lastEvent && after.observed == before.observed
    && forall k :: RowEvolves(before, after, k)
  }

  lemma DoneStays(before: Db, after: Db)
    requires CyclesAdvance(before, after)
    ensures forall s, id: nat :: IsDone(before.cycles, s, id) ==> IsDone(after.cycles, s, id)
    ensures forall s, id: nat :: HasCycle(before.cycles, s, id) ==> HasCycle(after.cycles, s, id)
  {
    forall s, id: nat | IsDone(before.cycles, s, id)
      ensures IsDone(after.cycles, s, id)
    {
      var i :| 0 <= i < |before.cycles| && before.cycles[i].source == s && before.cycles[i].id == id
        && before.cycles[i].status != Open;
      assert after.cycles[i].id == id;
    }
    forall s, id: nat | HasCycle(before.cycles, s, id)
      ensures HasCycle(after.cycles, s, id)
    {
      var i :| 0 <= i < |before.cycles| && before.cycles[i].source == s && before.cycles[i].id == id;
      assert after.cycles[i].id == id;
    }
  }

  lemma EvolvesSelf(db: Db)
    requires Valid(db)
    ensures Evolves(db, db)
  {}

  lemma EvolvesChain(a: Db, b: Db, c: Db)
    requires Valid(a) && Evolves(a, b) && Evolves(b, c)
    ensures Evolves(a, c)
  {
    DoneStays(a, b);
    DoneStays(b, c);
    forall i | |a.cycles| <= i < |c.cycles|
      ensures c.cycles[i].id > a.lastCycle
    {
      if i < |b.cycles| {
        assert c.cycles[i].id == b.cycles[i].id;
      }
    }
    assert CyclesAdvance(a, c);
    forall k
      ensures RowEvolves(a, c, k)
    {
      assert RowEvolves(a, b, k) && RowEvolves(b, c, k);
    }
  }

  // ---------------------------------------------------------------- each statement

  lemma KeepsTables(before: Db, after: Db)
    requires Valid(before) && CyclesAdvance(before, after) && MarksKept(before, after)
    requires after == before.(cycles := after.cycles, lastCycle := after.lastCycle)
    requires CyclesOk(after.cycles, after.lastCycle)
    ensures Evolves(before, after)
  {
    DoneStays(before, after);
  }

  lemma EnsureOpenEvolves(db: Db, s: string, at: int)
    requires Valid(db)
    ensures Evolves(db, EnsureOpen(db, s, at))
    ensures OpenCycle(EnsureOpen(db, s, at).cycles, s).Some?
  {
    hide RowsOk, EventsOk;
    OpenCycleFound(db.cycles, s);
    if OpenCycle(db.cycles, s).None? {
      hide OpenCycle;
      var fresh_ := Cycle(db.lastCycle + 1, s, at, Open, false, false);
      OpenedLast(db.cycles, fresh_);
      KeepsTables(db, db.(cycles := db.cycles + [fresh_], lastCycle := fresh_.id));
    } else {
      EvolvesSelf(db);
    }
  }

  lemma OpenedLast(cycles: seq<Cycle>, c: Cycle)
    requires c.status == Open
    ensures OpenCycle(cycles + [c], c.source) == Some(c)
  {}

  // Any rewriting of the cycle rows in place that keeps ids, sources and marks and reopens nothing.
  lemma RewriteEvolves(db: Db, cycles: seq<Cycle>)
    requires Valid(db) && |cycles| == |db.cycles| && MarksKept(db, db.(cycles := cycles))
    requires forall i :: 0 <= i < |cycles| ==>
      && cycles[i].id == db.cycles[i].id && cycles[i].source == db.cycles[i].source
      && (cycles[i].status == db.cycles[i].status || cycles[i].status != Open)
    ensures Evolves(db, db.(cycles := cycles))
  {
    KeepsTables(db, db.(cycles := cycles));
  }

  // Closing: the cycle that was open is done, and above everything done before.
  lemma CloseCurrentEvolves(db: Db, s: string, at: int)
    requires Valid(db)
    ensures Evolves(db, CloseCurrent(db, s, at))
    ensures OpenCycle(db.cycles, s).Some? ==> Fresh(db, CloseCurrent(db, s, at), s, OpenCycle(db.cycles, s).value.id)
  {
    match OpenCycle(db.cycles, s)
    case None => EvolvesSelf(db);
    case Some(c) =>
      OpenCycleFound(db.cycles, s);
      var i :| 0 <= i < |db.cycles| && db.cycles[i] == c;
      OpenIsNewest(db, s, i);
      var closed := db.(cycles := CloseById(db.cycles, c.id));
      RewriteEvolves(db, closed.cycles);
      EnsureOpenEvolves(closed, s, at);
      var after := EnsureOpen(closed, s, at);
      EvolvesChain(db, closed, after);
      assert closed.cycles[i].status != Open && closed.cycles[i].id == c.id;
      assert IsDone(closed.cycles, s, c.id);
      DoneStays(closed, after);
  }

  // Changing one row: relative to where the method started.
  lemma RowUpdateEvolves(start: Db, db: Db, k: Key, row: Row)
    requires Valid(start) && Evolves(start, db)
    requires row.verified == db.RowOf(k).verified || row.verified == None
    requires row.target == db.RowOf(k).target || row.target == None || Fresh(start, db, k.0, row.target.value)
    ensures Evolves(start, db.(rows := db.rows[k := row]))
  {
    var after := db.(rows := db.rows[k := row]);
    assert RowEvolves(start, db, k);
    assert RowsOk(after);
    forall k' | k' != k
      ensures RowEvolves(start, after, k')
    {
      assert RowEvolves(start, db, k');
    }
  }

  lemma ForgetRowEvolves(db: Db, k: Key)
    requires Valid(db)
    ensures Evolves(db, ForgetRow(db, k))
  {}

  lemma {:induction false} SetTargetsEvolves(start: Db, db: Db, s: string, ids: seq<string>, cycle: nat)
    requires Valid(start) && Evolves(start, db) && Fresh(start, db, s, cycle)
    ensures Evolves(start, SetTargets(db, s, ids, cycle))
    ensures SetTargets(db, s, ids, cycle).cycles == db.cycles
  {
    if ids != [] {
      var before := SetTargets(db, s, ids[..|ids| - 1], cycle);
      SetTargetsEvolves(start, db, s, ids[..|ids| - 1], cycle);
      var k := (s, ids[|ids| - 1]);
      RowUpdateEvolves(start, before, k, before.RowOf(k).(target := Some(cycle)));
    }
  }

  lemma {:induction false} EnsureRowsEvolves(db: Db, s: string, ds: seq<DestinationConfig>)
    requires Valid(db)
    ensures Evolves(db, EnsureRows(db, s, ds))
  {
    if ds == [] {
      EvolvesSelf(db);
    } else {
      var before, k := EnsureRows(db, s, ds[..|ds| - 1]), (s, ds[|ds| - 1].id);
      EnsureRowsEvolves(db, s, ds[..|ds| - 1]);
      RowUpdateEvolves(db, before, k, before.RowOf(k));
    }
  }

  lemma {:induction false} EnsureConfigEvolves(db: Db, cfg: seq<SourceConfig>)
    requires Valid(db)
    ensures Evolves(db, EnsureConfig(db, cfg))
  {
    if cfg == [] {
      EvolvesSelf(db);
    } else {
      var before, last := EnsureConfig(db, cfg[..|cfg| - 1]), cfg[|cfg| - 1];
      EnsureConfigEvolves(db, cfg[..|cfg| - 1]);
      EnsureRowsEvolves(before, last.id, last.destinations);
      EvolvesChain(db, before, EnsureConfig(db, cfg));
    }
  }

  lemma {:induction false} EnsureOpenCyclesEvolves(db: Db, cfg: seq<SourceConfig>, at: int)
    requires Valid(db)
    ensures Evolves(db, EnsureOpenCycles(db, cfg, at))
  {
    if cfg == [] {
      EvolvesSelf(db);
    } else {
      var before, last := EnsureOpenCycles(db, cfg[..|cfg| - 1], at), cfg[|cfg| - 1];
      EnsureOpenCyclesEvolves(db, cfg[..|cfg| - 1], at);
      if last.enabled {
        EnsureOpenEvolves(before, last.id, at);
        EvolvesChain(db, before, EnsureOpenCycles(db, cfg, at));
      }
    }
  }

  lemma PrepareEvolves(db: Db, cfg: seq<SourceConfig>, at: int)
    requires Valid(db)
    ensures Evolves(db, Prepare(db, cfg, at))
  {
    EnsureConfigEvolves(db, cfg);
    EnsureOpenCyclesEvolves(EnsureConfig(db, cfg), cfg, at);
    EvolvesChain(db, EnsureConfig(db, cfg), Prepare(db, cfg, at));
  }

  lemma CloseAndTargetEvolves(db: Db, s: string, ids: seq<string>, at: int)
    requires Valid(db)
    ensures Evolves(db, CloseAndTarget(db, s, ids, at))
  {
    CloseCurrentEvolves(db, s, at);
    match OpenCycle(db.cycles, s)
    case None => EvolvesSelf(db);
    case Some(c) => SetTargetsEvolves(db, CloseCurrent(db, s, at), s, ids, c.id);
  }

  lemma AdvanceSourceEvolves(db: Db, src: SourceConfig, now: int)
    requires Valid(db)
    ensures Evolves(db, AdvanceSource(db, src, now))
  {
    hide Valid, CyclesAdvance, RowEvolves, Fresh, DueDestinations, HasActionable, AllRealtime, SetTargets;
    hide CloseCurrent, ClearRescan, MarksKept, NoRescanOn;
    CloseCurrentEvolves(db, src.id, now);
    EvolvesSelf(db);
    match OpenCycle(db.cycles, src.id)
    case None =>
    case Some(c) =>
      var hasEvents := HasActionable(db, src.id, c.id);
      var due := DueDestinations(db, src.id, src.destinations, c.startsAt, hasEvents, now);
      var closed := CloseCurrent(db, src.id, now);
      SetTargetsEvolves(db, closed, src.id, due, c.id);
      if !c.needsRescan {
        ClosedIsUnmarked(db, src.id, now);
        ClearRescanEvolves(db, closed, src.id, c.id);
        SetTargetsEvolves(db, closed.(cycles := ClearRescan(closed.cycles, c.id)), src.id, due, c.id);
      }
  }

  ghost predicate NoRescanOn(cycles: seq<Cycle>, id: nat) {
    forall i :: 0 <= i < |cycles| && cycles[i].id == id ==> !cycles[i].needsRescan
  }

  // The cycle that was open is marked once closed only if it was before.
  lemma ClosedIsUnmarked(db: Db, s: string, at: int)
    requires Valid(db) && OpenCycle(db.cycles, s).Some? && !OpenCycle(db.cycles, s).value.needsRescan
    ensures NoRescanOn(CloseCurrent(db, s, at).cycles, OpenCycle(db.cycles, s).value.id)
  {
    hide EventsOk, RowsOk;
    OpenCycleFound(db.cycles, s);
    var c := OpenCycle(db.cycles, s).value;
    var j :| 0 <= j < |db.cycles| && db.cycles[j] == c;
    assert forall i :: 0 <= i < |db.cycles| && db.cycles[i].id == c.id ==> i == j;
  }

  lemma ClearRescanEvolves(start: Db, db: Db, s: string, id: nat)
    requires Valid(start) && Evolves(start, db) && Fresh(start, db, s, id) && NoRescanOn(db.cycles, id)
    ensures var after := db.(cycles := ClearRescan(db.cycles, id));
      Evolves(start, after) && Fresh(start, after, s, id)
  {
    var after := db.(cycles := ClearRescan(db.cycles, id));
    RewriteEvolves(db, after.cycles);
    EvolvesChain(start, db, after);
    DoneStays(db, after);
  }

  lemma {:induction false} AdvanceSourcesEvolves(db: Db, cfg: seq<SourceConfig>, now: int)
    requires Valid(db)
    ensures Evolves(db, AdvanceSources(db, cfg, now))
  {
    if cfg == [] {
      EvolvesSelf(db);
    } else {
      var before, last := AdvanceSources(db, cfg[..|cfg| - 1], now), cfg[|cfg| - 1];
      AdvanceSourcesEvolves(db, cfg[..|cfg| - 1], now);
      if last.enabled {
        AdvanceSourceEvolves(before, last, now);
        EvolvesChain(db, before, AdvanceSource(before, last, now));
      }
    }
  }

  lemma AdvanceDueEvolves(db: Db, cfg: seq<SourceConfig>, now: int)
    requires Valid(db)
    ensures Evolves(db, AdvanceDue(db, cfg, now))
  {
    PrepareEvolves(db, cfg, now);
    AdvanceSourcesEvolves(Prepare(db, cfg, now), cfg, now);
    EvolvesChain(db, Prepare(db, cfg, now), AdvanceDue(db, cfg, now));
  }

  lemma {:induction false} ForceSourcesEvolves(db: Db, cfg: seq<SourceConfig>, at: int)
    requires Valid(db)
    ensures Evolves(db, ForceSources(db, cfg, at))
  {
    if cfg == [] {
      EvolvesSelf(db);
    } else {
      var before, last := ForceSources(db, cfg[..|cfg| - 1], at), cfg[|cfg| - 1];
      ForceSourcesEvolves(db, cfg[..|cfg| - 1], at);
      if last.enabled {
        CloseAndTargetEvolves(before, last.id, Forceable(last.destinations), at);
        EvolvesChain(db, before, ForceSources(db, cfg, at));
      }
    }
  }

  lemma ForcesEvolve(db: Db, cfg: seq<SourceConfig>, s: string, d: string, at: int)
    requires Valid(db)
    ensures Evolves(db, ForceAll(db, cfg, at))
    ensures Evolves(db, ForceSource(db, cfg, s, at))
    ensures Evolves(db, ForceDestination(db, cfg, s, d, at))
  {
    hide Valid, Evolves, CloseAndTarget, ForceSources, Forceable, Prepare;
    var ready := Prepare(db, cfg, at);
    PrepareEvolves(db, cfg, at);
    assert Valid(ready) by { EvolvesValid(db, ready); }
    ForceSourcesEvolves(ready, cfg, at);
    EvolvesChain(db, ready, ForceSources(ready, cfg, at));
    match FindSource(cfg, s)
    case None =>
    case Some(src) =>
      CloseAndTargetEvolves(ready, s, Forceable(src.destinations), at);
      EvolvesChain(db, ready, CloseAndTarget(ready, s, Forceable(src.destinations), at));
      CloseAndTargetEvolves(ready, s, [d], at);
      EvolvesChain(db, ready, CloseAndTarget(ready, s, [d], at));
  }

  lemma EvolvesValid(before: Db, after: Db)
    requires Evolves(before, after)
    ensures Valid(after)
  {}

  // ---------------------------------------------------------------- the displayed cycle

  // A cycle the UI may show: done, or holding actionable events already.
  ghost predicate Showable(db: Db, s: string, id: nat) {
    IsDone(db.cycles, s, id) || (HasCycle(db.cycles, s, id) && HasActionable(db, s, id))
  }

  lemma {:induction false} LatestClosedIsMax(cycles: seq<Cycle>, s: string)
    ensures LatestClosed(cycles, s).Some? ==> IsDone(cycles, s, LatestClosed(cycles, s).value)
    ensures forall id: nat :: IsDone(cycles, s, id) ==>
      LatestClosed(cycles, s).Some? && id <= LatestClosed(cycles, s).value
  {
    if cycles != [] {
      var n := |cycles| - 1;
      var rest := cycles[..n];
      LatestClosedIsMax(rest, s);
      forall id: nat | IsDone(cycles, s, id)
        ensures LatestClosed(cycles, s).Some? && id <= LatestClosed(cycles, s).value
      {
        var i :| 0 <= i < |cycles| && cycles[i].source == s && cycles[i].id == id && cycles[i].status != Open;
        assert i < n ==> rest[i] == cycles[i] && IsDone(rest, s, id);
      }
    }
  }

  // The displayed number is the greatest showable cycle.
  lemma DisplayIsGreatest(db: Db, s: string)
    requires Valid(db)
    ensures Display(db, s).Some? ==> Showable(db, s, Display(db, s).value)
    ensures forall id: nat :: Showable(db, s, id) ==> Display(db, s).Some? && id <= Display(db, s).value
  {
    LatestClosedIsMax(db.cycles, s);
    OpenCycleFound(db.cycles, s);
    match OpenCycle(db.cycles, s)
    case None =>
      forall id: nat | HasCycle(db.cycles, s, id)
        ensures IsDone(db.cycles, s, id)
      {
        var i :| 0 <= i < |db.cycles| && db.cycles[i].source == s && db.cycles[i].id == id;
      }
    case Some(open) =>
      var o :| 0 <= o < |db.cycles| && db.cycles[o] == open;
      OpenIsNewest(db, s, o);
      forall id: nat | HasCycle(db.cycles, s, id) && id != open.id
        ensures IsDone(db.cycles, s, id)
      {
        var i :| 0 <= i < |db.cycles| && db.cycles[i].source == s && db.cycles[i].id == id;
        assert i != o;
      }
  }

  // Everything showable stays so.
  ghost predicate StaysShown(before: Db, after: Db) {
    forall s, id: nat :: Showable(before, s, id) ==> Showable(after, s, id)
  }

  lemma DisplayNeverDrops(before: Db, after: Db, s: string)
    requires Valid(before) && Valid(after) && StaysShown(before, after)
    ensures Display(before, s).Some? ==> Display(after, s).Some? && Display(before, s).value <= Display(after, s).value
  {
    DisplayIsGreatest(before, s);
    DisplayIsGreatest(after, s);
  }

  lemma EvolvesStaysShown(before: Db, after: Db)
    requires Evolves(before, after)
    ensures StaysShown(before, after)
  {
    DoneStays(before, after);
  }
}
