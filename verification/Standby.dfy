// The cold-backup standby gate and manager of src/core/standby.rs, and the busy predicate the
// daemon feeds it (src/bin/auto_sync.rs).
module Standby {
  import opened Wrappers
  import opened Calendar

  // A path as its components; `starts_with` compares whole components.
  type Path = seq<string>

  datatype Pool = Pool(name: string, enabled: bool, mountRoots: seq<Path>, wake: Wake)
  {
    predicate Covers(path: Path) {
      exists i :: 0 <= i < |mountRoots| && mountRoots[i] <= path
    }

    predicate Touches(src: Path, dst: Path) {
      Covers(src) || Covers(dst)
    }
  }

  // ---------------------------------------------------------------- the gate

  datatype Gate = Asleep(pool: string, until: Option<int>) | NotMounted(pool: string)

  datatype GateError = BadSchedule(pool: string)

  predicate DestinationOnStandby(pools: seq<Pool>, dst: Path) {
    exists i :: 0 <= i < |pools| && pools[i].enabled && pools[i].Covers(dst)
  }

  // The destination's pools gate when there are any; otherwise the source's do.
  predicate Gates(pools: seq<Pool>, pool: Pool, src: Path, dst: Path) {
    pool.enabled && if DestinationOnStandby(pools, dst) then pool.Covers(dst) else pool.Covers(src)
  }

  ghost predicate ValidPools(pools: seq<Pool>) {
    forall i :: 0 <= i < |pools| ==> pools[i].wake.Valid()
  }

  // Every gating pool is inside its window and every touched pool is mounted.
  ghost predicate Passes(pools: seq<Pool>, src: Path, dst: Path, now: int, mounted: Pool -> bool) {
    forall i :: 0 <= i < |pools| && pools[i].enabled ==>
      && (Gates(pools, pools[i], src, dst) ==> pools[i].wake.Open(now))
      && (pools[i].Touches(src, dst) ==> mounted(pools[i]))
  }

  // All gating pools before `n` are open.
  ghost predicate GatesOpen(pools: seq<Pool>, n: nat, src: Path, dst: Path, now: int)
    requires n <= |pools|
  {
    forall i :: 0 <= i < n && Gates(pools, pools[i], src, dst) ==> pools[i].wake.Open(now)
  }

  // `pool` is the first gating pool found closed, and `until` the exact end of its sleep.
  ghost predicate ClosedGate(pools: seq<Pool>, i: nat, src: Path, dst: Path, now: int, until: Option<int>)
    requires i < |pools|
  {
    && GatesOpen(pools, i, src, dst, now)
    && Gates(pools, pools[i], src, dst) && pools[i].wake.Wake? && !pools[i].wake.Open(now)
    && until.Some? && now < until.value && pools[i].wake.Open(until.value)
    && forall t :: now <= t < until.value ==> !pools[i].wake.Open(t)
  }

  // `mounted` is the outcome of the device-id test on the pool's roots.
  method GateForSync(pools: seq<Pool>, src: Path, dst: Path, now: int, mounted: Pool -> bool)
    returns (r: Result<Option<Gate>, GateError>)
    requires ValidPools(pools)
    ensures r == Ok(None) <==> Passes(pools, src, dst, now, mounted)
    ensures r.Ok? && r.value.Some? && r.value.value.Asleep? ==>
      exists i :: 0 <= i < |pools| && pools[i].name == r.value.value.pool
               && ClosedGate(pools, i, src, dst, now, r.value.value.until)
    ensures r.Ok? && r.value.Some? && r.value.value.NotMounted? ==>
      && GatesOpen(pools, |pools|, src, dst, now)
      && exists i :: 0 <= i < |pools| && pools[i].name == r.value.value.pool
                  && pools[i].enabled && pools[i].Touches(src, dst) && !mounted(pools[i])
    ensures r.Err? ==>
      exists i :: 0 <= i < |pools| && Gates(pools, pools[i], src, dst) && pools[i].wake.BadWake?
               && GatesOpen(pools, i, src, dst, now)
  {
    var onStandby := DestinationOnStandby(pools, dst);
    for i := 0 to |pools|
      invariant GatesOpen(pools, i, src, dst, now)
    {
      var pool := pools[i];
      var gates := pool.enabled && if onStandby then pool.Covers(dst) else pool.Covers(src);
      if gates {
        assert Gates(pools, pools[i], src, dst);
        var inside := IsWithinWakeWindow(now, pool.wake);
        if inside.None? {
          return Err(BadSchedule(pool.name));
        }
        if !inside.value {
          var next := NextWakeStartAfter(now, pool.wake);
          StandbyUntilIsExact(pool.wake, now, next.value);
          assert ClosedGate(pools, i, src, dst, now, next);
          return Ok(Some(Asleep(pool.name, next)));
        }
      }
    }
    for i := 0 to |pools|
      invariant forall j :: 0 <= j < i && pools[j].enabled && pools[j].Touches(src, dst) ==> mounted(pools[j])
    {
      var pool := pools[i];
      if pool.enabled && pool.Touches(src, dst) && !mounted(pool) {
        return Ok(Some(NotMounted(pool.name)));
      }
    }
    r := Ok(None);
  }

  // ---------------------------------------------------------------- the gate, in terms of paths

  // The path is one of the pool's mount points or lies below it, component by component.
  ghost predicate LiesOn(pool: Pool, path: Path) {
    exists r ::
      && 0 <= r < |pool.mountRoots| && |pool.mountRoots[r]| <= |path|
      && forall c :: 0 <= c < |pool.mountRoots[r]| ==> path[c] == pool.mountRoots[r][c]
  }

  lemma CoversIff(pool: Pool, path: Path)
    ensures pool.Covers(path) <==> LiesOn(pool, path)
  {
    if i :| 0 <= i < |pool.mountRoots| && pool.mountRoots[i] <= path {
      assert forall c :: 0 <= c < |pool.mountRoots[i]| ==> path[c] == pool.mountRoots[i][c];
    }
    if r :| && 0 <= r < |pool.mountRoots| && |pool.mountRoots[r]| <= |path|
            && forall c :: 0 <= c < |pool.mountRoots[r]| ==> path[c] == pool.mountRoots[r][c] {
      assert path[..|pool.mountRoots[r]|] == pool.mountRoots[r];
    }
  }

  // Which pools gate: those of the destination if it lies on an enabled one, else those of the
  // source; a source on a pool of its own does not wait for that pool's window.
  lemma GatesIff(pools: seq<Pool>, pool: Pool, src: Path, dst: Path)
    ensures Gates(pools, pool, src, dst) <==>
      && pool.enabled
      && if exists p :: 0 <= p < |pools| && pools[p].enabled && LiesOn(pools[p], dst) then LiesOn(pool, dst)
         else LiesOn(pool, src)
  {
    hide LiesOn;
    forall p: Pool, path: Path { CoversIff(p, path); }
  }

  // A sync may run exactly when each pool that gates it is inside a window and each pool that holds
  // its source or its destination is mounted.
  lemma PassesIff(pools: seq<Pool>, src: Path, dst: Path, now: int, mounted: Pool -> bool)
    ensures Passes(pools, src, dst, now, mounted) <==>
      && (forall i :: 0 <= i < |pools| && Gates(pools, pools[i], src, dst) ==> pools[i].wake.Open(now))
      && forall i :: 0 <= i < |pools| && pools[i].enabled && (LiesOn(pools[i], src) || LiesOn(pools[i], dst)) ==>
           mounted(pools[i])
  {
    hide LiesOn;
    forall p: Pool, path: Path { CoversIff(p, path); }
  }

  // ---------------------------------------------------------------- the busy predicate

  datatype Offset = Offset(target: Option<int>, verified: Option<int>)
  {
    // A target ahead of the last verified cycle; no verified cycle is behind every target.
    predicate Pending() {
      target.Some? && (verified.None? || verified.value < target.value)
    }
  }

  datatype Destination = Destination(id: string, enabled: bool, paused: bool, path: Path)

  datatype Source = Source(id: string, enabled: bool, src: Path, destinations: seq<Destination>)

  // What one scheduler tick sees. An offset that cannot be read is None.
  datatype World = World(
    pools: seq<Pool>, sources: seq<Source>, syncing: bool, now: int,
    mounted: Pool -> bool, offset: (string, string) -> Option<Offset>)
  {
    // `pool` has runnable work for this pair.
    ghost predicate Runnable(pool: Pool, s: Source, d: Destination) {
      && s.enabled && d.enabled && !d.paused && pool.Touches(s.src, d.path)
      && Passes(pools, s.src, d.path, now, mounted)
      && (offset(s.id, d.id).None? || offset(s.id, d.id).value.Pending())
    }

    ghost predicate Busy(name: string) {
      syncing ||
      exists p, i, j ::
        && 0 <= p < |pools| && pools[p].name == name && (forall q :: 0 <= q < p ==> pools[q].name != name)
        && 0 <= i < |sources| && 0 <= j < |sources[i].destinations|
        && Runnable(pools[p], sources[i], sources[i].destinations[j])
    }
  }

  // Work the pool is kept awake for: the pair is enabled and not paused, touches the pool, may run,
  // and is behind its target, or nobody can tell.
  ghost predicate HasWork(w: World, pool: Pool, s: Source, d: Destination) {
    && s.enabled && d.enabled && !d.paused && (LiesOn(pool, s.src) || LiesOn(pool, d.path))
    && Passes(w.pools, s.src, d.path, w.now, w.mounted)
    && match w.offset(s.id, d.id)
       case None => true
       case Some(Offset(None, _)) => false
       case Some(Offset(Some(target), None)) => true
       case Some(Offset(Some(target), Some(verified))) => verified < target
  }

  lemma RunnableIff(w: World, pool: Pool, s: Source, d: Destination)
    ensures w.Runnable(pool, s, d) <==> HasWork(w, pool, s, d)
  {
    hide LiesOn, Passes;
    CoversIff(pool, s.src);
    CoversIff(pool, d.path);
  }

  method FindPool(pools: seq<Pool>, name: string) returns (p: nat)
    ensures p <= |pools| && (p < |pools| ==> pools[p].name == name)
    ensures forall q :: 0 <= q < p ==> pools[q].name != name
  {
    p := 0;
    while p < |pools| && pools[p].name != name
      invariant p <= |pools| && forall q :: 0 <= q < p ==> pools[q].name != name
    {
      p := p + 1;
    }
  }

  method IsBusy(w: World, name: string) returns (busy: bool)
    requires ValidPools(w.pools)
    ensures busy == w.Busy(name)
    ensures busy <==>
      || w.syncing
      || exists p, i, j ::
           && 0 <= p < |w.pools| && w.pools[p].name == name && (forall q :: 0 <= q < p ==> w.pools[q].name != name)
           && 0 <= i < |w.sources| && 0 <= j < |w.sources[i].destinations|
           && HasWork(w, w.pools[p], w.sources[i], w.sources[i].destinations[j])
  {
    hide HasWork;
    forall p: Pool, s: Source, d: Destination { RunnableIff(w, p, s, d); }
    if w.syncing {
      return true;
    }
    var p := FindPool(w.pools, name);
    if p == |w.pools| {
      return false;
    }
    var pool := w.pools[p];
    for i := 0 to |w.sources|
      invariant forall i', j :: 0 <= i' < i && 0 <= j < |w.sources[i'].destinations| ==>
        !w.Runnable(pool, w.sources[i'], w.sources[i'].destinations[j])
    {
      var s := w.sources[i];
      if s.enabled {
        for j := 0 to |s.destinations|
          invariant forall j' :: 0 <= j' < j ==> !w.Runnable(pool, s, s.destinations[j'])
        {
          var d := s.destinations[j];
          if d.enabled && !d.paused && pool.Touches(s.src, d.path) {
            var gate := GateForSync(w.pools, s.src, d.path, w.now, w.mounted);
            if gate == Ok(None) {
              var offset := w.offset(s.id, d.id);
              if offset.None? || offset.value.Pending() {
                assert w.Runnable(w.pools[p], w.sources[i], w.sources[i].destinations[j]);
                return true;
              }
            }
          }
        }
      }
    }
    busy := false;
  }

  // ---------------------------------------------------------------- one pool, visit by visit

  const PARK_IDLE_GRACE := 90

  datatype PoolState = PoolState(awake: Option<bool>, idleSince: Option<int>)

  // The daemon has just started.
  const FRESH := PoolState(None, None)

  // One tick as one enabled pool sees it.
  datatype Visit = Visit(now: int, busy: bool, open: bool)

  // The pool's next state, and whether its disks are spun down.
  function VisitPool(ps: PoolState, v: Visit): (PoolState, bool) {
    if v.busy then (PoolState(Some(true), None), false)
    else
      var start := if ps.idleSince.Some? then ps.idleSince.value else v.now;
      var park := (!v.open || v.now - start >= PARK_IDLE_GRACE) && ps.awake != Some(false);
      (PoolState(if park then Some(false) else ps.awake, Some(start)), park)
  }

  function After(ps: PoolState, vs: seq<Visit>): PoolState {
    if vs == [] then ps else VisitPool(After(ps, vs[..|vs| - 1]), vs[|vs| - 1]).0
  }

  // The k-th visit spins the disks down.
  predicate SpunAt(ps: PoolState, vs: seq<Visit>, k: nat)
    requires k < |vs|
  {
    VisitPool(After(ps, vs[..k]), vs[k]).1
  }

  lemma {:induction false} AfterConcat(ps: PoolState, xs: seq<Visit>, ys: seq<Visit>)
    ensures After(After(ps, xs), ys) == After(ps, xs + ys)
  {
    if ys == [] {
      assert xs + ys == xs;
    } else {
      var all := xs + ys;
      AfterConcat(ps, xs, ys[..|ys| - 1]);
      assert all[..|all| - 1] == xs + ys[..|ys| - 1];
    }
  }

  lemma SpunAtConcat(ps: PoolState, xs: seq<Visit>, ys: seq<Visit>, k: nat)
    requires k < |ys|
    ensures SpunAt(After(ps, xs), ys, k) == SpunAt(ps, xs + ys, |xs| + k)
  {
    AfterConcat(ps, xs, ys[..k]);
    assert (xs + ys)[..|xs| + k] == xs + ys[..k];
  }

  // ---------------------------------------------------------------- the manager

  // The visits one tick pays to the enabled pools called `name`.
  ghost function VisitsOf(pools: seq<Pool>, now: int, busy: string -> bool, name: string): (vs: seq<Visit>)
    ensures forall v :: v in vs ==> v.now == now && v.busy == busy(name)
  {
    if pools == [] then []
    else
      var pool := pools[|pools| - 1];
      VisitsOf(pools[..|pools| - 1], now, busy, name) +
      if pool.enabled && pool.name == name then [Visit(now, busy(name), pool.wake.Open(now))] else []
  }

  ghost predicate SpunIn(ps: PoolState, vs: seq<Visit>) {
    exists k :: 0 <= k < |vs| && SpunAt(ps, vs, k)
  }

  lemma SpunInExtended(ps: PoolState, vs: seq<Visit>, v: Visit)
    ensures SpunIn(ps, vs + [v]) <==> SpunIn(ps, vs) || VisitPool(After(ps, vs), v).1
  {
    var all := vs + [v];
    assert forall k :: 0 <= k < |vs| ==> all[..k] == vs[..k];
    assert all[..|vs|] == vs;
    if VisitPool(After(ps, vs), v).1 {
      assert SpunAt(ps, all, |vs|);
    }
    if SpunIn(ps, vs) {
      var k :| 0 <= k < |vs| && SpunAt(ps, vs, k);
      assert SpunAt(ps, all, k);
    }
    if SpunIn(ps, all) {
      var k :| 0 <= k < |all| && SpunAt(ps, all, k);
      assert k < |vs| ==> SpunAt(ps, vs, k);
    }
  }

  lemma VisitsOfNext(ps: PoolState, pools: seq<Pool>, i: nat, now: int, busy: string -> bool, name: string)
    requires i < |pools|
    ensures var before, after := VisitsOf(pools[..i], now, busy, name), VisitsOf(pools[..i + 1], now, busy, name);
      if pools[i].enabled && pools[i].name == name then
        var visited := VisitPool(After(ps, before), Visit(now, busy(name), pools[i].wake.Open(now)));
        After(ps, after) == visited.0 && (SpunIn(ps, after) <==> SpunIn(ps, before) || visited.1)
      else
        after == before
  {
    hide VisitPool, SpunIn;
    var before := VisitsOf(pools[..i], now, busy, name);
    assert pools[..i + 1][..i] == pools[..i];
    if pools[i].enabled && pools[i].name == name {
      var visit := Visit(now, busy(name), pools[i].wake.Open(now));
      var after := before + [visit];
      assert VisitsOf(pools[..i + 1], now, busy, name) == after;
      assert after[..|after| - 1] == before;
      SpunInExtended(ps, before, visit);
    }
  }

  lemma NoVisits(pools: seq<Pool>, now: int, busy: string -> bool)
    ensures forall ps: PoolState, name ::
      After(ps, VisitsOf(pools[..0], now, busy, name)) == ps && !SpunIn(ps, VisitsOf(pools[..0], now, busy, name))
  {}

  lemma PoolIsValid(pools: seq<Pool>, i: nat)
    requires ValidPools(pools) && i < |pools|
    ensures pools[i].wake.Valid()
  {}

  // A schedule that does not parse reads as a closed window.
  lemma BadWakeNeverOpen(wake: Wake, now: int)
    ensures wake.BadWake? ==> !wake.Open(now)
  {}

  class StandbyManager {
    var awake: map<string, bool>
    var idleSince: map<string, int>

    function StateOf(name: string): PoolState
      reads this
    {
      PoolState(if name in awake then Some(awake[name]) else None,
                if name in idleSince then Some(idleSince[name]) else None)
    }

    constructor ()
      ensures forall name :: StateOf(name) == FRESH
    {
      awake, idleSince := map[], map[];
    }

    // One tick over all pools; returns the pools it spun down.
    method Step(pools: seq<Pool>, now: int, busy: string -> bool) returns (parked: set<string>)
      requires ValidPools(pools)
      modifies this
      ensures forall name :: StateOf(name) == After(old(StateOf(name)), VisitsOf(pools, now, busy, name))
      ensures forall name :: name in parked <==> SpunIn(old(StateOf(name)), VisitsOf(pools, now, busy, name))
    {
      hide *;
      parked := {};
      NoVisits(pools, now, busy);
      for i := 0 to |pools|
        invariant forall name :: StateOf(name) == After(old(StateOf(name)), VisitsOf(pools[..i], now, busy, name))
        invariant forall name :: name in parked <==> SpunIn(old(StateOf(name)), VisitsOf(pools[..i], now, busy, name))
      {
        var pool := pools[i];
        label Before:
        ghost var parkedBefore := parked;
        if pool.enabled {
          assert pool.wake.Valid() by {
            PoolIsValid(pools, i);
          }
          var inside := IsWithinWakeWindow(now, pool.wake);
          var open := inside == Some(true);
          assert open == pool.wake.Open(now) by {
            BadWakeNeverOpen(pool.wake, now);
          }
          var spun := VisitOne(pool.name, now, busy(pool.name), open);
          if spun {
            parked := parked + {pool.name};
          }
        }
        forall name
          ensures StateOf(name) == After(old(StateOf(name)), VisitsOf(pools[..i + 1], now, busy, name))
          ensures name in parked <==> SpunIn(old(StateOf(name)), VisitsOf(pools[..i + 1], now, busy, name))
        {
          VisitsOfNext(old(StateOf(name)), pools, i, now, busy, name);
          assert old@Before(StateOf(name)) == After(old(StateOf(name)), VisitsOf(pools[..i], now, busy, name));
          assert name in parkedBefore <==> SpunIn(old(StateOf(name)), VisitsOf(pools[..i], now, busy, name));
        }
      }
      assert pools[..|pools|] == pools;
    }

    // The body of the loop for one enabled pool.
    method VisitOne(name: string, now: int, busy: bool, open: bool) returns (spun: bool)
      modifies this
      ensures (StateOf(name), spun) == VisitPool(old(StateOf(name)), Visit(now, busy, open))
      ensures forall other :: other != name ==> StateOf(other) == old(StateOf(other))
    {
      spun := false;
      var prev := if name in awake then Some(awake[name]) else None;
      if busy {
        idleSince := idleSince - {name};
        if prev != Some(true) {
          awake := awake[name := true];
        }
        return;
      }
      if name !in idleSince {
        idleSince := idleSince[name := now];
      }
      var idleEnough := now - idleSince[name] >= PARK_IDLE_GRACE;
      if (!open || idleEnough) && prev != Some(false) {
        spun := true;
        awake := awake[name := false];
      }
    }
  }

  // ---------------------------------------------------------------- whole runs

  datatype Tick = Tick(pools: seq<Pool>, now: int, busy: string -> bool)

  ghost function History(ticks: seq<Tick>, name: string): seq<Visit> {
    if ticks == [] then []
    else
      var last := ticks[|ticks| - 1];
      History(ticks[..|ticks| - 1], name) + VisitsOf(last.pools, last.now, last.busy, name)
  }

  // Tick `t` spun `name` down: one of the visits it paid did.
  ghost predicate SpunDuring(ticks: seq<Tick>, t: nat, name: string)
    requires t < |ticks|
  {
    SpunIn(After(FRESH, History(ticks[..t], name)), VisitsOf(ticks[t].pools, ticks[t].now, ticks[t].busy, name))
  }

  // In terms of the visits of the whole run.
  lemma SpunDuringVisit(ticks: seq<Tick>, t: nat, name: string) returns (k: nat)
    requires t < |ticks| && SpunDuring(ticks, t, name)
    ensures |History(ticks[..t], name)| <= k < |History(ticks[..t + 1], name)|
    ensures SpunAt(FRESH, History(ticks[..t + 1], name), k)
  {
    var past, vs := History(ticks[..t], name), VisitsOf(ticks[t].pools, ticks[t].now, ticks[t].busy, name);
    assert ticks[..t + 1][..t] == ticks[..t];
    var i :| 0 <= i < |vs| && SpunAt(After(FRESH, past), vs, i);
    SpunAtConcat(FRESH, past, vs, i);
    k := |past| + i;
  }

  lemma NothingYet(ticks: seq<Tick>)
    ensures forall name :: After(FRESH, History(ticks[..0], name)) == FRESH
  {}

  // The daemon's run: a fresh manager driven by every tick in turn.
  method Drive(ticks: seq<Tick>) returns (m: StandbyManager, log: seq<set<string>>)
    requires forall t :: 0 <= t < |ticks| ==> ValidPools(ticks[t].pools)
    ensures forall name :: m.StateOf(name) == After(FRESH, History(ticks, name))
    ensures |log| == |ticks|
    ensures forall t, name :: 0 <= t < |log| ==> (name in log[t] <==> SpunDuring(ticks, t, name))
  {
    m := new StandbyManager();
    log := [];
    hide After, VisitsOf, SpunIn;
    assert forall name :: m.StateOf(name) == After(FRESH, History(ticks[..0], name)) by {
      NothingYet(ticks);
    }
    for t := 0 to |ticks|
      invariant fresh(m) && |log| == t
      invariant forall name :: m.StateOf(name) == After(FRESH, History(ticks[..t], name))
      invariant forall u, name :: 0 <= u < t ==> (name in log[u] <==> SpunDuring(ticks, u, name))
    {
      var parked := m.Step(ticks[t].pools, ticks[t].now, ticks[t].busy);
      forall name
        ensures m.StateOf(name) == After(FRESH, History(ticks[..t + 1], name))
      {
        AfterConcat(FRESH, History(ticks[..t], name), VisitsOf(ticks[t].pools, ticks[t].now, ticks[t].busy, name));
        assert ticks[..t + 1][..t] == ticks[..t];
      }
      log := log + [parked];
    }
    assert ticks[..|ticks|] == ticks;
  }

  // ---------------------------------------------------------------- what a run can do

  // The first visit of the idle stretch that visit `k` belongs to.
  function IdleStart(vs: seq<Visit>, k: nat): (j: nat)
    requires k < |vs| && !vs[k].busy
    ensures j <= k
    ensures forall i :: j <= i <= k ==> !vs[i].busy
    ensures j == 0 || vs[j - 1].busy
  {
    if k == 0 || vs[k - 1].busy then k else IdleStart(vs, k - 1)
  }

  predicate ParkDue(vs: seq<Visit>, k: nat)
    requires k < |vs| && !vs[k].busy
  {
    !vs[k].open || vs[k].now - vs[IdleStart(vs, k)].now >= 90
  }

  lemma {:induction false} StateAfterVisit(vs: seq<Visit>, k: nat)
    requires k < |vs|
    ensures vs[k].busy ==> After(FRESH, vs[..k + 1]) == PoolState(Some(true), None)
    ensures !vs[k].busy ==>
      && After(FRESH, vs[..k + 1]).idleSince == Some(vs[IdleStart(vs, k)].now)
      && (After(FRESH, vs[..k + 1]).awake == Some(false) <==>
          exists i :: IdleStart(vs, k) <= i <= k && ParkDue(vs, i))
  {
    assert vs[..k + 1][..k] == vs[..k];
    if k > 0 {
      StateAfterVisit(vs, k - 1);
    }
    if !vs[k].busy {
      var j := IdleStart(vs, k);
      var ps := After(FRESH, vs[..k]);
      assert After(FRESH, vs[..k + 1]) == VisitPool(ps, vs[k]).0;
      if j < k {
        assert IdleStart(vs, k - 1) == j;
        assert (exists i :: j <= i <= k && ParkDue(vs, i)) <==>
               ParkDue(vs, k) || exists i :: j <= i <= k - 1 && ParkDue(vs, i);
      } else {
        assert ps.awake != Some(false) && ps.idleSince == None;
        assert (exists i :: j <= i <= k && ParkDue(vs, i)) <==> ParkDue(vs, k);
      }
    }
  }

  // Exactly when a visit spins the disks down, over every run and any clock: it is the first
  // visit of its idle stretch at which parking is due.
  lemma SpinDownExactly(vs: seq<Visit>, k: nat)
    requires k < |vs|
    ensures SpunAt(FRESH, vs, k) <==>
      && !vs[k].busy && ParkDue(vs, k)
      && forall i :: IdleStart(vs, k) <= i < k ==> !ParkDue(vs, i)
  {
    hide After, IdleStart;
    if !vs[k].busy {
      BeforeVisit(vs, k);
    }
  }

  // What a visit finds.
  lemma BeforeVisit(vs: seq<Visit>, k: nat)
    requires k < |vs| && !vs[k].busy
    ensures var ps, j := After(FRESH, vs[..k]), IdleStart(vs, k);
      && (if j == k then ps.idleSince == None && ps.awake != Some(false)
          else
            && ps.idleSince == Some(vs[j].now)
            && (ps.awake == Some(false) <==> exists i :: j <= i < k && ParkDue(vs, i)))
  {
    if k > 0 {
      StateAfterVisit(vs, k - 1);
    }
  }

  // `j` is the first idle visit after the last busy one, and the pool stays idle up to `k`.
  predicate IdleFrom(vs: seq<Visit>, j: nat, k: nat)
    requires j <= k < |vs|
  {
    (j == 0 || vs[j - 1].busy) && forall i :: j <= i <= k ==> !vs[i].busy
  }

  // Inside the window a disk is stopped only after 90 idle seconds with no busy tick between.
  lemma ParkedInWindowOnlyAfterGrace(vs: seq<Visit>, k: nat)
    requires k < |vs| && SpunAt(FRESH, vs, k) && vs[k].open
    ensures exists j :: 0 <= j <= k && IdleFrom(vs, j, k) && vs[k].now - vs[j].now >= 90
  {
    SpinDownExactly(vs, k);
    assert IdleFrom(vs, IdleStart(vs, k), k);
  }

  lemma {:induction false} SameStretch(vs: seq<Visit>, first: nat, second: nat)
    requires first <= second < |vs| && !vs[second].busy && IdleStart(vs, second) <= first
    ensures !vs[first].busy && IdleStart(vs, first) == IdleStart(vs, second)
  {
    if first < second {
      SameStretch(vs, first, second - 1);
    }
  }

  // A parked pool is not stopped again, even outside its window, before it has been busy.
  lemma BusyBetweenSpinDowns(vs: seq<Visit>, first: nat, second: nat)
    requires first < second < |vs| && SpunAt(FRESH, vs, first) && SpunAt(FRESH, vs, second)
    ensures exists i :: first < i < second && vs[i].busy
  {
    SpinDownExactly(vs, first);
    SpinDownExactly(vs, second);
    var j := IdleStart(vs, second);
    assert j > first by {
      if j <= first {
        SameStretch(vs, first, second);
      }
    }
    assert vs[j - 1].busy;
  }

  // An idle tick outside the window leaves the pool marked parked.
  lemma IdleOutsideWindowIsParked(vs: seq<Visit>)
    requires vs != [] && !vs[|vs| - 1].busy && !vs[|vs| - 1].open
    ensures After(FRESH, vs).awake == Some(false)
  {
    var k := |vs| - 1;
    StateAfterVisit(vs, k);
    assert vs[..k + 1] == vs;
    assert ParkDue(vs, k);
  }

  // The ticks of a daemon whose busy predicate is the one it builds from its own state.
  ghost predicate DrivenBy(ticks: seq<Tick>, worlds: seq<World>) {
    |ticks| == |worlds| && forall t :: 0 <= t < |ticks| ==> Sees(ticks[t], worlds[t])
  }

  ghost predicate Sees(tick: Tick, w: World) {
    tick.pools == w.pools && tick.now == w.now && forall name :: tick.busy(name) == w.Busy(name)
  }

  // No disk is stopped while a sync runs, or while a pair on it could run and is behind its
  // target or cannot be read.
  lemma NeverParkedWithRunnableWork(ticks: seq<Tick>, worlds: seq<World>, t: nat, name: string, p: nat)
    requires DrivenBy(ticks, worlds) && t < |ticks| && SpunDuring(ticks, t, name)
    requires p < |worlds[t].pools| && worlds[t].pools[p].name == name
    requires forall q :: 0 <= q < p ==> worlds[t].pools[q].name != name
    ensures !worlds[t].syncing
    ensures forall i, j :: 0 <= i < |worlds[t].sources| && 0 <= j < |worlds[t].sources[i].destinations| ==>
      !HasWork(worlds[t], worlds[t].pools[p], worlds[t].sources[i], worlds[t].sources[i].destinations[j])
  {
    hide HasWork;
    forall p: Pool, s: Source, d: Destination { RunnableIff(worlds[t], p, s, d); }
    assert Sees(ticks[t], worlds[t]);
    var past, tick := After(FRESH, History(ticks[..t], name)), ticks[t];
    var vs := VisitsOf(tick.pools, tick.now, tick.busy, name);
    var k :| 0 <= k < |vs| && SpunAt(past, vs, k);
    assert vs[k] in vs;
    assert !worlds[t].Busy(name);
  }
}
