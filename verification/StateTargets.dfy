// Target discipline: which destinations a scheduler tick targets, and with which cycle; and a
// run in which a disabled destination loses events.
module StateTargets {
  import opened Wrappers
  import opened Calendar
  import opened StateDb
  import opened StateInvariant
  import opened StateRuns

  // Some configured destination of that id is due when the source's open cycle is looked at.
  ghost predicate Targeted(db: Db, src: SourceConfig, d: string, now: int) {
    var open := OpenCycle(db.cycles, src.id);
    open.Some? && DueIn(db, src, d, open.value.startsAt, HasActionable(db, src.id, open.value.id), now)
  }

  ghost predicate DueIn(db: Db, src: SourceConfig, d: string, startsAt: int, openHasEvents: bool, now: int) {
    exists i ::
      0 <= i < |src.destinations| && src.destinations[i].id == d
        && DueNow(db, src.id, src.destinations[i], startsAt, openHasEvents, now)
  }

  lemma {:induction false} DueDestinationsAre(db: Db, s: string, ds: seq<DestinationConfig>, at: int, events: bool,
      now: int, d: string)
    ensures d in DueDestinations(db, s, ds, at, events, now) <==>
      exists i :: 0 <= i < |ds| && ds[i].id == d && DueNow(db, s, ds[i], at, events, now)
  {
    hide DueNow;
    if ds != [] {
      var n := |ds| - 1;
      DueDestinationsAre(db, s, ds[..n], at, events, now, d);
      if exists i :: 0 <= i < n && ds[..n][i].id == d && DueNow(db, s, ds[..n][i], at, events, now) {
        var i :| 0 <= i < n && ds[..n][i].id == d && DueNow(db, s, ds[..n][i], at, events, now);
        assert ds[i].id == d && DueNow(db, s, ds[i], at, events, now);
      }
      if exists i :: 0 <= i < n && ds[i].id == d && DueNow(db, s, ds[i], at, events, now) {
        var i :| 0 <= i < n && ds[i].id == d && DueNow(db, s, ds[i], at, events, now);
        assert ds[..n][i].id == d && DueNow(db, s, ds[..n][i], at, events, now);
      }
    }
  }

  lemma {:induction false} SetTargetsRows(db: Db, s: string, ids: seq<string>, cycle: nat, k: Key)
    ensures SetTargets(db, s, ids, cycle).RowOf(k)
         == if k.0 == s && k.1 in ids then db.RowOf(k).(target := Some(cycle)) else db.RowOf(k)
  {
    if ids != [] {
      SetTargetsRows(db, s, ids[..|ids| - 1], cycle, k);
      assert ids == ids[..|ids| - 1] + [ids[|ids| - 1]];
    }
  }

  lemma {:induction false} SetTargetsTables(db: Db, s: string, ids: seq<string>, cycle: nat)
    ensures SetTargets(db, s, ids, cycle) == db.(rows := SetTargets(db, s, ids, cycle).rows)
  {
    if ids != [] {
      SetTargetsTables(db, s, ids[..|ids| - 1], cycle);
    }
  }

  lemma CloseCurrentRows(db: Db, s: string, at: int)
    ensures CloseCurrent(db, s, at).rows == db.rows
  {}

  // One source in one tick. Exactly the due destinations get a target; it is the same cycle for
  // all of them, the one just closed; it lies above the target they had and the cycle they
  // verified, and no event of the source still in the log lies beyond it.
  lemma AdvanceSourceTargets(db: Db, src: SourceConfig, now: int, k: Key)
    requires Valid(db)
    ensures var after := AdvanceSource(db, src, now);
      if k.0 == src.id && Targeted(db, src, k.1, now) then
        var c := OpenCycle(db.cycles, src.id).value.id;
        && after.RowOf(k) == db.RowOf(k).(target := Some(c))
        && IsDone(after.cycles, src.id, c)
        && !db.RowOf(k).Pending()
        && (db.RowOf(k).target.Some? ==> db.RowOf(k).target.value < c)
        && (db.RowOf(k).verified.Some? ==> db.RowOf(k).verified.value < c)
        && forall i :: 0 <= i < |after.events| && after.events[i].source == src.id ==> after.events[i].cycle <= c
      else
        after.RowOf(k) == db.RowOf(k)
  {
    hide Valid, Evolves, DueDestinations, CloseCurrent, HasActionable, AllRealtime, Fresh, IsDone, DueIn, SetTargets;
    CloseCurrentRows(db, src.id, now);
    CloseCurrentEvolves(db, src.id, now);
    match OpenCycle(db.cycles, src.id)
    case None =>
    case Some(c) =>
      var events := HasActionable(db, src.id, c.id);
      var due := DueDestinations(db, src.id, src.destinations, c.startsAt, events, now);
      DueAreTargeted(db, src, now, k.1);
      if due != [] {
        var closed := CloseCurrent(db, src.id, now);
        var settled :=
          if !c.needsRescan && AllRealtime(src.destinations, due) then closed.(cycles := ClearRescan(closed.cycles,
            c.id))
          else closed;
        SetTargetsRows(settled, src.id, due, c.id, k);
        SetTargetsTables(settled, src.id, due, c.id);
        CloseCurrentEvents(db, src.id, now);
        if k.0 == src.id && k.1 in due {
          NewTargetIsAbove(db, src.id, k);
          DoneInSettled(db, closed, src.id, c.id, settled);
          TargetedAreIdle(db, src, k.1, now);
        }
      }
  }

  lemma DueAreTargeted(db: Db, src: SourceConfig, now: int, d: string)
    requires OpenCycle(db.cycles, src.id).Some?
    ensures var c := OpenCycle(db.cycles, src.id).value;
      var events := HasActionable(db, src.id, c.id);
      d in DueDestinations(db, src.id, src.destinations, c.startsAt, events, now) <==> Targeted(db, src, d, now)
  {
    var c := OpenCycle(db.cycles, src.id).value;
    DueDestinationsAre(db, src.id, src.destinations, c.startsAt, HasActionable(db, src.id, c.id), now, d);
  }

  lemma CloseCurrentEvents(db: Db, s: string, at: int)
    ensures CloseCurrent(db, s, at).events == db.events
  {}

  lemma DoneInSettled(db: Db, closed: Db, s: string, id: nat, settled: Db)
    requires Fresh(db, closed, s, id)
    requires settled.cycles == closed.cycles || settled.cycles == ClearRescan(closed.cycles, id)
    ensures IsDone(settled.cycles, s, id)
  {
    var i :| 0 <= i < |closed.cycles| && closed.cycles[i].source == s && closed.cycles[i].id == id
      && closed.cycles[i].status != Open;
    assert settled.cycles[i].id == id && settled.cycles[i].source == s && settled.cycles[i].status != Open;
  }

  lemma NewTargetIsAbove(db: Db, s: string, k: Key)
    requires Valid(db) && OpenCycle(db.cycles, s).Some? && k.0 == s
    ensures var c := OpenCycle(db.cycles, s).value.id;
      && (db.RowOf(k).target.Some? ==> db.RowOf(k).target.value < c)
      && (db.RowOf(k).verified.Some? ==> db.RowOf(k).verified.value < c)
      && forall i :: 0 <= i < |db.events| && db.events[i].source == s ==> db.events[i].cycle <= c
  {
    OpenCycleFound(db.cycles, s);
    var i :| 0 <= i < |db.cycles| && db.cycles[i] == OpenCycle(db.cycles, s).value;
    OpenIsNewest(db, s, i);
  }

  // A due destination is enabled, not paused, and not behind a target it already has.
  lemma TargetedAreIdle(db: Db, src: SourceConfig, d: string, now: int)
    requires Targeted(db, src, d, now)
    ensures !db.RowOf((src.id, d)).Pending()
    ensures exists i ::
      0 <= i < |src.destinations| && src.destinations[i].id == d && src.destinations[i].enabled
        && !src.destinations[i].paused
  {
    var open := OpenCycle(db.cycles, src.id).value;
    var i :| 0 <= i < |src.destinations| && src.destinations[i].id == d &&
      DueNow(db, src.id, src.destinations[i], open.startsAt, HasActionable(db, src.id, open.id), now);
    assert src.destinations[i].enabled && !src.destinations[i].paused;
  }

  // ---------------------------------------------------------------- a tick over every source

  lemma {:induction false} OpenCycleSame(xs: seq<Cycle>, ys: seq<Cycle>, s: string)
    requires |xs| == |ys|
    requires forall i :: 0 <= i < |xs| ==> ys[i].source == xs[i].source && (xs[i].source == s ==> ys[i] == xs[i])
    ensures OpenCycle(xs, s) == OpenCycle(ys, s)
  {
    if xs != [] {
      OpenCycleSame(xs[..|xs| - 1], ys[..|ys| - 1], s);
    }
  }

  lemma EnsureOpenLocal(db: Db, s: string, at: int, other: string)
    requires other != s
    ensures OpenCycle(EnsureOpen(db, s, at).cycles, other) == OpenCycle(db.cycles, other)
    ensures EnsureOpen(db, s, at).events == db.events
  {
    var after := EnsureOpen(db, s, at);
    if OpenCycle(db.cycles, s).None? {
      assert after.cycles[..|db.cycles|] == db.cycles;
    }
  }

  lemma CloseCurrentLocal(db: Db, s: string, at: int, other: string)
    requires Valid(db) && other != s
    ensures OpenCycle(CloseCurrent(db, s, at).cycles, other) == OpenCycle(db.cycles, other)
    ensures CloseCurrent(db, s, at).events == db.events
  {
    match OpenCycle(db.cycles, s)
    case None =>
    case Some(c) =>
      OpenCycleFound(db.cycles, s);
      OpenCycleSame(db.cycles, CloseById(db.cycles, c.id), other);
      EnsureOpenLocal(db.(cycles := CloseById(db.cycles, c.id)), s, at, other);
  }

  // Advancing one source leaves every other source as it was.
  lemma AdvanceSourceLocal(db: Db, src: SourceConfig, now: int, other: string)
    requires Valid(db) && other != src.id
    ensures var after := AdvanceSource(db, src, now);
      && OpenCycle(after.cycles, other) == OpenCycle(db.cycles, other) && after.events == db.events
      && forall d :: after.RowOf((other, d)) == db.RowOf((other, d))
  {
    forall d {
      AdvanceSourceTargets(db, src, now, (other, d));
    }
    match OpenCycle(db.cycles, src.id)
    case None =>
    case Some(c) =>
      var due := DueDestinations(db, src.id, src.destinations, c.startsAt, HasActionable(db, src.id, c.id), now);
      var closed := CloseCurrent(db, src.id, now);
      CloseCurrentLocal(db, src.id, now, other);
      CloseCurrentEvolves(db, src.id, now);
      ClearRescanLocal(db, closed, src.id, c.id, other);
      hide Valid, Evolves, DueDestinations, CloseCurrent, HasActionable, AllRealtime, OpenCycle;
      if due != [] {
        SetTargetsTables(closed, src.id, due, c.id);
        SetTargetsTables(closed.(cycles := ClearRescan(closed.cycles, c.id)), src.id, due, c.id);
      }
  }

  lemma ClearRescanLocal(db: Db, closed: Db, s: string, id: nat, other: string)
    requires Fresh(db, closed, s, id) && Valid(closed) && other != s
    ensures OpenCycle(ClearRescan(closed.cycles, id), other) == OpenCycle(closed.cycles, other)
  {
    OpenCycleSame(closed.cycles, ClearRescan(closed.cycles, id), other);
  }

  ghost predicate DistinctSources(cfg: seq<SourceConfig>) {
    forall i, j :: 0 <= i < j < |cfg| ==> cfg[i].id != cfg[j].id
  }

  lemma {:induction false} AdvanceSourcesLocal(db: Db, cfg: seq<SourceConfig>, now: int, other: string)
    requires Valid(db) && forall i :: 0 <= i < |cfg| ==> cfg[i].id != other
    ensures var after := AdvanceSources(db, cfg, now);
      && OpenCycle(after.cycles, other) == OpenCycle(db.cycles, other) && after.events == db.events
      && forall d :: after.RowOf((other, d)) == db.RowOf((other, d))
  {
    if cfg != [] {
      var before, last := AdvanceSources(db, cfg[..|cfg| - 1], now), cfg[|cfg| - 1];
      AdvanceSourcesLocal(db, cfg[..|cfg| - 1], now, other);
      AdvanceSourcesEvolves(db, cfg[..|cfg| - 1], now);
      AdvanceSourceLocal(before, last, now, other);
    }
  }

  // A whole tick: for the i-th source, decided on the tables the tick began with.
  lemma {:induction false} TickTargets(db: Db, cfg: seq<SourceConfig>, i: nat, d: string, now: int)
    requires Valid(db) && DistinctSources(cfg) && i < |cfg|
    ensures var k := (cfg[i].id, d);
      AdvanceSources(db, cfg, now).RowOf(k) ==
      if cfg[i].enabled && Targeted(db, cfg[i], d, now) then
        db.RowOf(k).(target := Some(OpenCycle(db.cycles, cfg[i].id).value.id))
      else db.RowOf(k)
    decreases |cfg|
  {
    hide Valid, Evolves, Targeted, AdvanceSource, OpenCycle;
    var n := |cfg| - 1;
    var before, k := AdvanceSources(db, cfg[..n], now), (cfg[i].id, d);
    AdvanceSourcesEvolves(db, cfg[..n], now);
    EvolvesValid(db, before);
    if i == n {
      AdvanceSourcesLocal(db, cfg[..n], now, cfg[i].id);
      AdvanceSourceTargets(before, cfg[i], now, k);
      SameTargets(db, before, cfg[i], d, now);
    } else {
      TickTargets(db, cfg[..n], i, d, now);
      AdvanceSourceTargets(before, cfg[n], now, k);
    }
  }

  lemma SameTargets(db: Db, before: Db, src: SourceConfig, d: string, now: int)
    requires OpenCycle(before.cycles, src.id) == OpenCycle(db.cycles, src.id) && before.events == db.events
    requires forall d :: before.RowOf((src.id, d)) == db.RowOf((src.id, d))
    ensures Targeted(before, src, d, now) <==> Targeted(db, src, d, now)
  {
    var open := OpenCycle(db.cycles, src.id);
    if open.Some? {
      assert HasActionable(before, src.id, open.value.id) == HasActionable(db, src.id, open.value.id);
    }
  }

  // ---------------------------------------------------------------- a disabled destination

  function BothEnabled(): SourceConfig {
    SourceConfig("s", true, [DestinationConfig("a", true, false, Realtime), DestinationConfig("b", true, false,
      Realtime)])
  }

  function OneDisabled(): SourceConfig {
    SourceConfig("s", true, [DestinationConfig("a", true, false, Realtime), DestinationConfig("b", false, false,
      Realtime)])
  }

  // Tables of one source with `n` cycles, the last of them open.
  function Cycles(n: nat): (r: seq<Cycle>)
    ensures |r| == n
  {
    seq(n, i requires 0 <= i < n => Cycle(i + 1, "s", 0, if i == n - 1 then Open else Closed, false, false))
  }

  function Shape(n: nat, a: Row, b: Row, events: seq<Event>): Db {
    Db(Cycles(n), n, map[("s", "a") := a, ("s", "b") := b], events, |events|,
      if events == [] then map[] else map["s" := 0])
  }

  lemma ConfigureShape(n: nat, a: Row, b: Row, events: seq<Event>, src: SourceConfig)
    requires n >= 1 && (src == BothEnabled() || src == OneDisabled())
    ensures Prepare(Shape(n, a, b, events), [src], 0) == Shape(n, a, b, events)
    ensures Prepare(EMPTY, [src], 0) == Shape(1, NO_ROW, NO_ROW, [])
  {
    var db, ds := Shape(n, a, b, events), src.destinations;
    assert [src][..0] == [] && ds[..1] == [ds[0]] && ds[..1][..0] == [];
    assert EnsureRows(db, "s", ds[..0]) == db && EnsureRows(db, "s", ds[..1]) == db;
    assert EnsureRows(EMPTY, "s", ds[..1]) == EMPTY.(rows := map[("s", "a") := NO_ROW]);
    assert EnsureConfig(db, [src]) == db;
    assert EnsureConfig(EMPTY, [src]).rows == map[("s", "a") := NO_ROW, ("s", "b") := NO_ROW];
    assert OpenCycle(db.cycles, "s") == Some(db.cycles[n - 1]);
    assert EnsureOpenCycles(db, [src][..0], 0) == db;
    var empty := EnsureConfig(EMPTY, [src]);
    assert EnsureConfig(EMPTY, [src][..0]) == EMPTY;
    assert EnsureRows(EMPTY, "s", ds) == EMPTY.(rows := map[("s", "a") := NO_ROW, ("s", "b") := NO_ROW]);
    assert empty == EMPTY.(rows := empty.rows);
    assert OpenCycle(empty.cycles, "s") == None;
    assert EnsureOpenCycles(empty, [src][..0], 0) == empty;
    assert EnsureOpen(empty, "s", 0).cycles == [Cycle(1, "s", 0, Open, false, false)] == Cycles(1);
  }

  lemma ForceShape(n: nat, a: Row, b: Row, events: seq<Event>, d: string, db: Db, src: SourceConfig)
    requires n >= 1 && Prepare(db, [src], 0) == Shape(n, a, b, events)
    requires src == BothEnabled() || src == OneDisabled()
    requires d == "a" || (src.destinations[1].enabled && d == "b")
    ensures ForceDestination(db, [src], "s", d, 0)
         == if d == "a" then Shape(n + 1, a.(target := Some(n)), b, events) else Shape(n + 1, a,
           b.(target := Some(n)), events)
  {
    hide Prepare;
    var ready := Shape(n, a, b, events);
    assert OpenCycle(ready.cycles, "s") == Some(ready.cycles[n - 1]);
    CloseShape(n, a, b, events);
    TargetShape(n, a, b, events, d);
    assert FindSource([src], "s") == Some(src);
    assert src.destinations[if d == "a" then 0 else 1].id == d;
  }

  lemma CloseShape(n: nat, a: Row, b: Row, events: seq<Event>)
    requires n >= 1
    ensures CloseCurrent(Shape(n, a, b, events), "s", 0) == Shape(n + 1, a, b, events)
  {
    var ready := Shape(n, a, b, events);
    assert OpenCycle(ready.cycles, "s") == Some(ready.cycles[n - 1]);
    var closed := CloseById(ready.cycles, n);
    AllClosed(closed, "s");
    assert closed + [Cycle(n + 1, "s", 0, Open, false, false)] == Cycles(n + 1);
  }

  lemma TargetShape(n: nat, a: Row, b: Row, events: seq<Event>, d: string)
    requires d == "a" || d == "b"
    ensures SetTargets(Shape(n + 1, a, b, events), "s", [d], n)
         == if d == "a" then Shape(n + 1, a.(target := Some(n)), b, events) else Shape(n + 1, a,
           b.(target := Some(n)), events)
  {
    var db := Shape(n + 1, a, b, events);
    assert [d][..0] == [];
    assert SetTargets(db, "s", [d], n) == SetTarget(db, ("s", d), n);
    assert SetTarget(db, ("s", d), n).rows
        == if d == "a" then map[("s", "a") := a.(target := Some(n)), ("s", "b") := b]
           else map[("s", "a") := a, ("s", "b") := b.(target := Some(n))];
  }

  lemma {:induction false} AllClosed(cycles: seq<Cycle>, s: string)
    requires forall i :: 0 <= i < |cycles| ==> cycles[i].status != Open
    ensures OpenCycle(cycles, s) == None
  {
    if cycles != [] {
      AllClosed(cycles[..|cycles| - 1], s);
    }
  }

  // Both destinations verify, b is disabled, a file changes, a goes on verifying, the log is
  // pruned.
  function LosingRun(): seq<Step> {
    [ForceDestinationStep([BothEnabled()], "s", "a", 0), ForceDestinationStep([BothEnabled()], "s", "b", 0),
     VerifyStep(("s", "a"), 1), VerifyStep(("s", "b"), 2),
     RecordStep("s", Some("changed"), false, 0),
     ForceDestinationStep([OneDisabled()], "s", "a", 0), ForceDestinationStep([OneDisabled()], "s", "a", 0),
     VerifyStep(("s", "a"), 4), PruneStep(OneDisabled())]
  }

  // The change is recorded behind b's verified cycle and gone from the log: once b is enabled
  // again its next incremental pass would not hear of it.
  lemma DisabledDestinationLosesEvents()
    ensures AllowedRun(START, LosingRun())
    ensures var tr := Run(START, LosingRun());
      && tr.db.RowOf(("s", "b")).verified == Some(2)
      && tr.recorded == [Event(1, "s", 3, Some("changed"), false)]
      && tr.db.events == []
  {
    hide Next, Allowed, ForceDestination, Prepare;
    var run := LosingRun();
    var t1, t2 := FirstTargets();
    var t3, t4 := BothVerify(t2);
    var t5, t6, t7 := ChangeThenForce(t4);
    var t8, t9 := VerifyThenPrune(t7);
    RunUnfolds(run, START, t1, t2, t3, t4, t5, t6, t7, t8, t9);
  }

  lemma FirstTargets() returns (t1: Trace, t2: Trace)
    ensures t1 == Next(START, LosingRun()[0]) && t2 == Next(t1, LosingRun()[1])
    ensures Allowed(START, LosingRun()[0]) && Allowed(t1, LosingRun()[1])
    ensures t2.db == Shape(3, Row(Some(1), None), Row(Some(2), None), []) && t2.recorded == []
    ensures t2.Given(("s", "a")) == {1} && t2.Given(("s", "b")) == {2} && t2.passed == map[]
  {
    hide ForceDestination, Prepare, Note, Cycles;
    var run := LosingRun();
    ConfigureShape(1, NO_ROW, NO_ROW, [], BothEnabled());
    ForceShape(1, NO_ROW, NO_ROW, [], "a", EMPTY, BothEnabled());
    t1 := Next(START, run[0]);
    ConfigureShape(2, Row(Some(1), None), NO_ROW, [], BothEnabled());
    ForceShape(2, Row(Some(1), None), NO_ROW, [], "b", t1.db, BothEnabled());
    t2 := Next(t1, run[1]);
    NoteAssigns(START, t1.db, ("s", "a"));
    NoteAssigns(START, t1.db, ("s", "b"));
    NoteAssigns(t1, t2.db, ("s", "a"));
    NoteAssigns(t1, t2.db, ("s", "b"));
  }

  lemma BothVerify(t2: Trace) returns (t3: Trace, t4: Trace)
    requires t2.db == Shape(3, Row(Some(1), None), Row(Some(2), None), []) && t2.recorded == []
    requires t2.Given(("s", "a")) == {1} && t2.Given(("s", "b")) == {2} && t2.passed == map[]
    ensures t3 == Next(t2, LosingRun()[2]) && t4 == Next(t3, LosingRun()[3])
    ensures Allowed(t2, LosingRun()[2]) && Allowed(t3, LosingRun()[3])
    ensures t4.db == Shape(3, Row(Some(1), Some(1)), Row(Some(2), Some(2)), []) && t4.recorded == []
    ensures t4.PassedUpTo(("s", "a"), 1)
  {
    hide Cycles;
    t3 := Next(t2, LosingRun()[2]);
    assert t3.db == Shape(3, Row(Some(1), Some(1)), Row(Some(2), None), []);
    t4 := Next(t3, LosingRun()[3]);
    assert t4.db == Shape(3, Row(Some(1), Some(1)), Row(Some(2), Some(2)), []);
  }

  lemma ChangeThenForce(t4: Trace) returns (t5: Trace, t6: Trace, t7: Trace)
    requires t4.db == Shape(3, Row(Some(1), Some(1)), Row(Some(2), Some(2)), []) && t4.recorded == []
    requires t4.PassedUpTo(("s", "a"), 1)
    ensures t5 == Next(t4, LosingRun()[4]) && t6 == Next(t5, LosingRun()[5]) && t7 == Next(t6, LosingRun()[6])
    ensures Allowed(t4, LosingRun()[4]) && Allowed(t5, LosingRun()[5]) && Allowed(t6, LosingRun()[6])
    ensures var e := Event(1, "s", 3, Some("changed"), false);
      t7.db == Shape(5, Row(Some(4), Some(1)), Row(Some(2), Some(2)), [e]) && t7.recorded == [e]
    ensures 4 in t7.Given(("s", "a")) && t7.PassedUpTo(("s", "a"), 4)
  {
    hide ForceDestination, Prepare, RecordEvent, Cycles, Note;
    var e, b := Event(1, "s", 3, Some("changed"), false), Row(Some(2), Some(2));
    RecordShape(Row(Some(1), Some(1)), b);
    t5 := Next(t4, LosingRun()[4]);
    ConfigureShape(3, Row(Some(1), Some(1)), b, [e], OneDisabled());
    ForceShape(3, Row(Some(1), Some(1)), b, [e], "a", t5.db, OneDisabled());
    t6 := Next(t5, LosingRun()[5]);
    ConfigureShape(4, Row(Some(3), Some(1)), b, [e], OneDisabled());
    ForceShape(4, Row(Some(3), Some(1)), b, [e], "a", t6.db, OneDisabled());
    t7 := Next(t6, LosingRun()[6]);
    NoteAssigns(t6, t7.db, ("s", "a"));
  }

  lemma VerifyThenPrune(t7: Trace) returns (t8: Trace, t9: Trace)
    requires var e := Event(1, "s", 3, Some("changed"), false);
      t7.db == Shape(5, Row(Some(4), Some(1)), Row(Some(2), Some(2)), [e]) && t7.recorded == [e]
    requires 4 in t7.Given(("s", "a")) && t7.PassedUpTo(("s", "a"), 4)
    ensures t8 == Next(t7, LosingRun()[7]) && t9 == Next(t8, LosingRun()[8])
    ensures Allowed(t7, LosingRun()[7]) && Allowed(t8, LosingRun()[8])
    ensures t9.db.RowOf(("s", "b")).verified == Some(2) && t9.recorded == t7.recorded && t9.db.events == []
  {
    hide *;
    t8 := VerifyFour(t7);
    t9 := PruneBelowFour(t8);
  }

  lemma VerifyFour(t7: Trace) returns (t8: Trace)
    requires var e := Event(1, "s", 3, Some("changed"), false);
      t7.db == Shape(5, Row(Some(4), Some(1)), Row(Some(2), Some(2)), [e]) && t7.recorded == [e]
    requires 4 in t7.Given(("s", "a")) && t7.PassedUpTo(("s", "a"), 4)
    ensures t8 == Next(t7, LosingRun()[7]) && Allowed(t7, LosingRun()[7]) && t8.recorded == t7.recorded
    ensures t8.db == Shape(5, Row(Some(4), Some(4)), Row(Some(2), Some(2)), [Event(1, "s", 3, Some("changed"), false)])
  {
    hide Cycles, Filter, PruneKeep;
    t8 := Next(t7, LosingRun()[7]);
  }

  lemma PruneBelowFour(t8: Trace) returns (t9: Trace)
    requires t8.db == Shape(5, Row(Some(4), Some(4)), Row(Some(2), Some(2)), [Event(1, "s", 3, Some("changed"), false)])
    ensures t9 == Next(t8, LosingRun()[8]) && Allowed(t8, LosingRun()[8])
    ensures t9.db.RowOf(("s", "b")).verified == Some(2) && t9.recorded == t8.recorded && t9.db.events == []
  {
    hide Cycles, Filter, PruneKeep;
    KeepIsFour(t8.db);
    OldEventIsPruned(Event(1, "s", 3, Some("changed"), false));
    t9 := Next(t8, LosingRun()[8]);
  }

  lemma OldEventIsPruned(e: Event)
    requires e.source == "s" && e.cycle == 3
    ensures Filter([e], Survives("s", 4)) == []
  {
    assert [e][..0] == [];
  }

  lemma KeepIsFour(db: Db)
    requires db.rows == map[("s", "a") := Row(Some(4), Some(4)), ("s", "b") := Row(Some(2), Some(2))]
    ensures PruneKeep(db, "s", OneDisabled().destinations) == Some(4)
  {
    var ds := OneDisabled().destinations;
    assert ds[..1] == [ds[0]] && ds[..1][..0] == [];
    assert LeastVerified(db, "s", ds[..1]) == Some(4);
  }

  lemma RecordShape(a: Row, b: Row)
    ensures RecordEvent(Shape(3, a, b, []), "s", Some("changed"), false, 0)
         == Shape(3, a, b, [Event(1, "s", 3, Some("changed"), false)])
  {
    assert OpenCycle(Cycles(3), "s") == Some(Cycles(3)[2]);
  }

  lemma RunUnfolds(run: seq<Step>, t0: Trace, t1: Trace, t2: Trace, t3: Trace, t4: Trace, t5: Trace, t6: Trace,
      t7: Trace, t8: Trace, t9: Trace)
    requires |run| == 9
    requires Allowed(t0, run[0]) && t1 == Next(t0, run[0]) && Allowed(t1, run[1]) && t2 == Next(t1, run[1])
    requires Allowed(t2, run[2]) && t3 == Next(t2, run[2]) && Allowed(t3, run[3]) && t4 == Next(t3, run[3])
    requires Allowed(t4, run[4]) && t5 == Next(t4, run[4]) && Allowed(t5, run[5]) && t6 == Next(t5, run[5])
    requires Allowed(t6, run[6]) && t7 == Next(t6, run[6]) && Allowed(t7, run[7]) && t8 == Next(t7, run[7])
    requires Allowed(t8, run[8]) && t9 == Next(t8, run[8])
    ensures AllowedRun(t0, run) && Run(t0, run) == t9
  {
    hide Next, Allowed;
    RunPrefix(t0, run, 0);
    RunPrefix(t0, run, 1);
    RunPrefix(t0, run, 2);
    RunPrefix(t0, run, 3);
    RunPrefix(t0, run, 4);
    RunPrefix(t0, run, 5);
    RunPrefix(t0, run, 6);
    RunPrefix(t0, run, 7);
    RunPrefix(t0, run, 8);
    assert run[..0] == [] && run[..9] == run;
  }

  lemma RunPrefix(tr: Trace, run: seq<Step>, n: nat)
    requires n < |run|
    ensures Run(tr, run[..n + 1]) == Next(Run(tr, run[..n]), run[n])
    ensures AllowedRun(tr, run[..n + 1]) <==> AllowedRun(tr, run[..n]) && Allowed(Run(tr, run[..n]), run[n])
  {
    assert run[..n + 1][..n] == run[..n];
  }
}
