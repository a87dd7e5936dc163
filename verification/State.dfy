// The State object of src/core/state.rs: its tables, and its methods as they change them. Each
// method is one atomic step, as the write lock and SQLite's transactions make it.
module State {
  import opened Wrappers
  import opened Calendar
  import opened StateDb

  lemma EnsureOpenIsOpen(db: Db, s: string, at: int)
    ensures OpenCycle(EnsureOpen(db, s, at).cycles, s).Some?
  {
    var after := EnsureOpen(db, s, at);
    if OpenCycle(db.cycles, s).None? {
      assert after.cycles[|after.cycles| - 1].source == s;
    }
  }

  // ---------------------------------------------------------------- chunked deletion

  const EVENT_PRUNE_CHUNK := 20000

  // DELETE ... WHERE source_id = s AND cycle_id < keep ... LIMIT n: what is left, and how many
  // rows went.
  function DeleteChunk(events: seq<Event>, s: string, keep: nat, n: nat): (r: (seq<Event>, nat))
    ensures r.1 <= n && |r.0| + r.1 == |events|
  {
    if events == [] then ([], 0)
    else
      var (rest, gone) := DeleteChunk(events[..|events| - 1], s, keep, n);
      var e := events[|events| - 1];
      if !Survives(s, keep)(e) && gone < n then (rest, gone + 1) else (rest + [e], gone)
  }

  lemma {:induction false} DeleteChunkKeepsSurvivors(events: seq<Event>, s: string, keep: nat, n: nat)
    ensures Filter(DeleteChunk(events, s, keep, n).0, Survives(s, keep)) == Filter(events, Survives(s, keep))
    ensures DeleteChunk(events, s, keep, n).1 < n ==>
      DeleteChunk(events, s, keep, n).0 == Filter(events, Survives(s, keep))
  {
    if events != [] {
      var m := |events| - 1;
      DeleteChunkKeepsSurvivors(events[..m], s, keep, n);
      var rest := DeleteChunk(events[..m], s, keep, n).0;
      assert (rest + [events[m]])[..|rest|] == rest;
    }
  }

  class State {
    var cycles: seq<Cycle>
    var lastCycle: nat
    var rows: map<Key, Row>
    var events: seq<Event>
    var lastEvent: nat
    var observed: map<string, int>

    function View(): Db
      reads this
    {
      Db(cycles, lastCycle, rows, events, lastEvent, observed)
    }

    constructor ()
      ensures View() == EMPTY
    {
      cycles, lastCycle, rows, events, lastEvent, observed := [], 0, map[], [], 0, map[];
    }

    // ---------------------------------------------------------------- cycles

    method EnsureOpenCycle(s: string, at: int) returns (id: nat)
      modifies this`cycles, this`lastCycle
      ensures View() == EnsureOpen(old(View()), s, at)
      ensures OpenCycle(cycles, s).Some? && id == OpenCycle(cycles, s).value.id
    {
      EnsureOpenIsOpen(View(), s, at);
      var found := OpenCycle(cycles, s);
      if found.Some? {
        return found.value.id;
      }
      lastCycle := lastCycle + 1;
      cycles := cycles + [Cycle(lastCycle, s, at, Open, false, false)];
      assert View() == EnsureOpen(old(View()), s, at);
      id := OpenCycle(cycles, s).value.id;
    }

    // Returns the cycle that was closed.
    method CloseCurrentCycleForSource(s: string, at: int) returns (closed: Option<Cycle>)
      modifies this`cycles, this`lastCycle
      ensures View() == CloseCurrent(old(View()), s, at)
      ensures match OpenCycle(old(cycles),
        s) case None => closed == None case Some(c) => closed == Some(c.(status := Closed))
    {
      var found := OpenCycle(cycles, s);
      if found.None? {
        return None;
      }
      cycles := CloseById(cycles, found.value.id);
      var _ := EnsureOpenCycle(s, at);
      closed := Some(found.value.(status := Closed));
    }

    method MarkCycleStatus(id: nat, status: Status)
      modifies this`cycles
      ensures View() == old(View()).(cycles := MarkById(old(cycles), id, status))
    {
      cycles := MarkById(cycles, id, status);
    }

    method MarkCycleManualFullRescan(id: nat)
      modifies this`cycles
      ensures View() == old(View()).(cycles := MarkManual(old(cycles), id))
    {
      cycles := MarkManual(cycles, id);
    }

    // ---------------------------------------------------------------- events

    method RecordEvent(s: string, path: Option<string>, rescan: bool, at: int) returns (eventId: nat)
      modifies this`cycles, this`lastCycle, this`events, this`lastEvent, this`observed
      ensures View() == StateDb.RecordEvent(old(View()), s, path, rescan, at)
      ensures eventId == lastEvent
    {
      var cycle := EnsureOpenCycle(s, at);
      lastEvent := lastEvent + 1;
      eventId := lastEvent;
      events := events + [Event(eventId, s, cycle, path, rescan)];
      observed := observed[s := if s in observed && observed[s] > at then observed[s] else at];
      if rescan {
        var open := EnsureOpenCycle(s, at);
        cycles := SetRescan(cycles, open);
      }
    }

    // Deletes chunk by chunk until a chunk comes back short.
    method PruneEventLog(s: string, keep: nat) returns (total: nat)
      modifies this`events
      ensures View() == PruneEvents(old(View()), s, keep)
      ensures total == |old(events)| - |events|
    {
      total := 0;
      while true
        invariant Filter(events, Survives(s, keep)) == Filter(old(events), Survives(s, keep))
        invariant View() == old(View()).(events := events)
        invariant total + |events| == |old(events)|
        decreases |events|
      {
        DeleteChunkKeepsSurvivors(events, s, keep, EVENT_PRUNE_CHUNK);
        var (left, removed) := DeleteChunk(events, s, keep, EVENT_PRUNE_CHUNK);
        events := left;
        total := total + removed;
        if removed < EVENT_PRUNE_CHUNK {
          return;
        }
      }
    }

    method PruneVerifiedCycleEvents(src: SourceConfig)
      modifies this`events
      ensures View() == PruneVerified(old(View()), src)
    {
      var ds := src.destinations;
      var least: Option<nat> := None;
      for i := 0 to |ds|
        invariant events == old(events) && !AnyUnverified(View(), src.id, ds[..i])
        invariant least == LeastVerified(View(), src.id, ds[..i])
      {
        assert ds[..i + 1][..i] == ds[..i];
        if ds[i].enabled {
          var v := View().RowOf((src.id, ds[i].id)).verified;
          if v.None? {
            assert AnyUnverified(View(), src.id, ds);
            return;
          }
          if least.None? || v.value < least.value {
            least := v;
          }
        }
      }
      assert ds[..|ds|] == ds;
      if least.Some? {
        var _ := PruneEventLog(src.id, least.value);
      }
    }

    // ---------------------------------------------------------------- destination offsets

    method SetDestinationTarget(k: Key, cycle: nat)
      modifies this`rows
      ensures View() == SetTarget(old(View()), k, cycle)
    {
      rows := rows[k := if k in rows then rows[k].(target := Some(cycle)) else Row(Some(cycle), None)];
    }

    method ClearDestinationTarget(k: Key)
      modifies this`rows
      ensures View() == ClearTarget(old(View()), k)
    {
      if k in rows {
        rows := rows[k := rows[k].(target := None)];
      }
    }

    method ResetDestinationOffset(k: Key)
      modifies this`rows
      ensures View() == ResetRow(old(View()), k)
    {
      rows := rows[k := Row(None, None)];
    }

    method UpsertDestinationStatus(k: Key, verified: Option<nat>)
      modifies this`rows
      ensures View() == UpsertVerified(old(View()), k, verified)
    {
      if k !in rows {
        rows := rows[k := Row(None, verified)];
      } else if verified.Some? {
        rows := rows[k := rows[k].(verified := verified)];
      } else {
        rows := rows[k := rows[k]];
      }
    }

    // ---------------------------------------------------------------- the scheduler's tick

    method ApplyConfig(cfg: seq<SourceConfig>)
      modifies this`rows
      ensures View() == EnsureConfig(old(View()), cfg)
    {
      for i := 0 to |cfg|
        invariant View() == EnsureConfig(old(View()), cfg[..i])
      {
        var s, ds := cfg[i].id, cfg[i].destinations;
        ghost var before := View();
        for j := 0 to |ds|
          invariant View() == EnsureRows(before, s, ds[..j])
        {
          assert ds[..j + 1][..j] == ds[..j];
          if (s, ds[j].id) !in rows {
            rows := rows[(s, ds[j].id) := Row(None, None)];
          }
          assert rows == EnsureRows(before, s, ds[..j + 1]).rows;
        }
        assert ds[..|ds|] == ds && cfg[..i + 1][..i] == cfg[..i];
      }
      assert cfg[..|cfg|] == cfg;
    }

    method PrepareTick(cfg: seq<SourceConfig>, now: int)
      modifies this`cycles, this`lastCycle, this`rows
      ensures View() == Prepare(old(View()), cfg, now)
    {
      ApplyConfig(cfg);
      ghost var configured := View();
      for i := 0 to |cfg|
        invariant View() == EnsureOpenCycles(configured, cfg[..i], now)
      {
        assert cfg[..i + 1][..i] == cfg[..i];
        if cfg[i].enabled {
          var _ := EnsureOpenCycle(cfg[i].id, now);
        }
      }
      assert cfg[..|cfg|] == cfg;
    }

    // The destinations of one source that are due.
    method CollectDue(s: string, ds: seq<DestinationConfig>, startsAt: int, openHasEvents: bool, now: int)
      returns (due: seq<string>)
      requires forall i :: 0 <= i < |ds| ==> ds[i].schedule.Valid()
      ensures due == DueDestinations(View(), s, ds, startsAt, openHasEvents, now)
    {
      due := [];
      for i := 0 to |ds|
        invariant due == DueDestinations(View(), s, ds[..i], startsAt, openHasEvents, now)
      {
        assert ds[..i + 1][..i] == ds[..i];
        var d := ds[i];
        if d.enabled && !d.paused {
          var row := View().RowOf((s, d.id));
          if !row.Pending() {
            var isDue := true;
            if row.target.Some? || row.verified.Some? {
              if d.schedule.Realtime? {
                isDue := openHasEvents;
              } else {
                isDue := CycleIsDue(startsAt, now, d.schedule);
              }
            }
            if isDue {
              due := due + [d.id];
            }
          }
        }
      }
      assert ds[..|ds|] == ds;
    }

    method TargetAll(s: string, ids: seq<string>, cycle: nat)
      modifies this`rows
      ensures View() == SetTargets(old(View()), s, ids, cycle)
    {
      for i := 0 to |ids|
        invariant View() == SetTargets(old(View()), s, ids[..i], cycle)
      {
        assert ids[..i + 1][..i] == ids[..i];
        SetDestinationTarget((s, ids[i]), cycle);
      }
      assert ids[..|ids|] == ids;
    }

    method AdvanceOneSource(src: SourceConfig, now: int) returns (closed: Option<Cycle>)
      requires forall i :: 0 <= i < |src.destinations| ==> src.destinations[i].schedule.Valid()
      modifies this`cycles, this`lastCycle, this`rows
      ensures View() == AdvanceSource(old(View()), src, now) && closed == TickCloses(old(View()), src, now)
    {
      var open := OpenCycle(cycles, src.id);
      if open.None? {
        return None;
      }
      var cycle := open.value;
      var openHasEvents := HasActionable(View(), src.id, cycle.id);
      var due := CollectDue(src.id, src.destinations, cycle.startsAt, openHasEvents, now);
      if |due| == 0 {
        closed := None;
        if openHasEvents && Quiesced(View(), src.id, now) {
          closed := CloseCurrentCycleForSource(src.id, now);
        }
        return;
      }
      closed := CloseCurrentCycleForSource(src.id, now);
      if !closed.value.needsRescan && AllRealtime(src.destinations, due) {
        cycles := ClearRescan(cycles, closed.value.id);
      }
      TargetAll(src.id, due, closed.value.id);
    }

    method AdvanceDueDestinationTargets(cfg: seq<SourceConfig>, now: int) returns (closed: seq<Cycle>)
      requires forall i, j :: 0 <= i < |cfg| && 0 <= j < |cfg[i].destinations| ==>
        cfg[i].destinations[j].schedule.Valid()
      modifies this`cycles, this`lastCycle, this`rows
      ensures View() == AdvanceDue(old(View()), cfg, now)
      ensures closed == TickClosesAll(Prepare(old(View()), cfg, now), cfg, now)
    {
      closed := [];
      PrepareTick(cfg, now);
      ghost var ready := View();
      for i := 0 to |cfg|
        invariant View() == AdvanceSources(ready, cfg[..i], now) && closed == TickClosesAll(ready, cfg[..i], now)
      {
        assert cfg[..i + 1][..i] == cfg[..i];
        if cfg[i].enabled {
          var one := AdvanceOneSource(cfg[i], now);
          if one.Some? {
            closed := closed + [one.value];
          }
        }
      }
      assert cfg[..|cfg|] == cfg;
    }

    // ---------------------------------------------------------------- manual requests

    method CloseAndTargetAll(s: string, ids: seq<string>, at: int) returns (closed: Option<Cycle>)
      modifies this`cycles, this`lastCycle, this`rows
      ensures View() == CloseAndTarget(old(View()), s, ids, at) && closed == ForceCloses(old(View()), s)
    {
      closed := CloseCurrentCycleForSource(s, at);
      if closed.Some? {
        TargetAll(s, ids, closed.value.id);
      }
    }

    method CollectForceable(ds: seq<DestinationConfig>) returns (ids: seq<string>)
      ensures ids == Forceable(ds)
    {
      ids := [];
      for i := 0 to |ds|
        invariant ids == Forceable(ds[..i])
      {
        assert ds[..i + 1][..i] == ds[..i];
        if ds[i].enabled && !ds[i].paused {
          ids := ids + [ds[i].id];
        }
      }
      assert ds[..|ds|] == ds;
    }

    method ForceTargetAllDestinations(cfg: seq<SourceConfig>, at: int) returns (closed: seq<Cycle>)
      modifies this`cycles, this`lastCycle, this`rows
      ensures View() == ForceAll(old(View()), cfg, at)
      ensures closed == ForceClosesAll(Prepare(old(View()), cfg, at), cfg, at)
    {
      closed := [];
      PrepareTick(cfg, at);
      ghost var ready := View();
      for i := 0 to |cfg|
        invariant View() == ForceSources(ready, cfg[..i], at) && closed == ForceClosesAll(ready, cfg[..i], at)
      {
        assert cfg[..i + 1][..i] == cfg[..i];
        if cfg[i].enabled {
          var ids := CollectForceable(cfg[i].destinations);
          var one := CloseAndTargetAll(cfg[i].id, ids, at);
          if one.Some? {
            closed := closed + [one.value];
          }
        }
      }
      assert cfg[..|cfg|] == cfg;
    }

    method ForceTargetSource(cfg: seq<SourceConfig>, s: string, at: int) returns (closed: Option<Cycle>)
      modifies this`cycles, this`lastCycle, this`rows
      ensures View() == ForceSource(old(View()), cfg, s, at)
      ensures closed == if FindSource(cfg, s).None? then None else ForceCloses(Prepare(old(View()), cfg, at), s)
    {
      PrepareTick(cfg, at);
      var src := FindSource(cfg, s);
      if src.None? {
        return None;
      }
      var ids := CollectForceable(src.value.destinations);
      closed := CloseAndTargetAll(s, ids, at);
    }

    method ForceTargetDestination(cfg: seq<SourceConfig>, s: string, d: string, at: int) returns (closed: Option<Cycle>)
      modifies this`cycles, this`lastCycle, this`rows
      ensures View() == ForceDestination(old(View()), cfg, s, d, at)
      ensures closed == if MayForce(cfg, s, d) then ForceCloses(Prepare(old(View()), cfg, at), s) else None
    {
      PrepareTick(cfg, at);
      var src := FindSource(cfg, s);
      if src.None? {
        return None;
      }
      if !HasEnabled(src.value, d) {
        return None;
      }
      closed := CloseAndTargetAll(s, [d], at);
      assert [d][..0] == [];
    }

    // ---------------------------------------------------------------- readers

    method LatestCycleIdForDisplay(s: string) returns (r: Option<nat>)
      ensures r == Display(View(), s)
    {
      var closed := LatestClosed(cycles, s);
      var open := OpenCycle(cycles, s);
      if open.Some? && HasActionable(View(), s, open.value.id) {
        if closed.Some? {
          return Some(if closed.value > open.value.id then closed.value else open.value.id);
        }
        return Some(open.value.id);
      }
      r := closed;
    }

    method EventIncrementalPlan(s: string, cycle: Cycle, d: string) returns (plan: Plan)
      ensures plan == PlanFor(View(), s, cycle, d)
    {
      if cycle.manualRescan || cycle.needsRescan {
        return FullPass;
      }
      var verified := View().RowOf((s, d)).verified;
      if verified.None? {
        return FullPass;
      }
      var backlog := EventsBetween(View(), s, verified.value, cycle.id);
      if exists i :: 0 <= i < |backlog| && backlog[i].rescan {
        return FullPass;
      }
      var paths := {};
      for i := 0 to |backlog|
        invariant paths == PathsOf(backlog[..i])
        invariant forall j :: 0 <= j < i && backlog[j].Actionable() ==> backlog[j].path.Some?
      {
        if backlog[i].Actionable() {
          if backlog[i].path.None? {
            return Unusable;
          }
          paths := paths + {backlog[i].path.value};
        }
        PathsOfNext(backlog, i);
      }
      assert backlog[..|backlog|] == backlog;
      plan := Incremental(paths);
    }
  }

  lemma PathsOfNext(events: seq<Event>, i: nat)
    requires i < |events|
    ensures PathsOf(events[..i + 1])
         == PathsOf(events[..i]) + if events[i].path.Some? then {events[i].path.value} else {}
  {
    var xs, ys := events[..i], events[..i + 1];
    forall p | p in PathsOf(xs)
      ensures p in PathsOf(ys)
    {
      var j :| 0 <= j < |xs| && xs[j].path.Some? && xs[j].path.value == p;
      assert ys[j] == xs[j];
    }
    forall p | p in PathsOf(ys)
      ensures p in PathsOf(xs) || (events[i].path.Some? && p == events[i].path.value)
    {
      var j :| 0 <= j < |ys| && ys[j].path.Some? && ys[j].path.value == p;
      assert j < i ==> xs[j] == ys[j];
    }
    assert events[i].path.Some? ==> ys[i].path.Some?;
  }
}
