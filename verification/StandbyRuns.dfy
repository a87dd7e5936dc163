// What the log of the standby manager can hold over a run of ticks: the rules about single visits
// brought back to the ticks that paid them.
module StandbyRuns {
  import opened Wrappers
  import opened Calendar
  import opened Standby

  ghost function Paid(tick: Tick, name: string): (vs: seq<Visit>)
    ensures forall v :: v in vs ==> v.now == tick.now && v.busy == tick.busy(name)
  {
    VisitsOf(tick.pools, tick.now, tick.busy, name)
  }

  // The pool is configured and enabled.
  ghost predicate Visited(tick: Tick, name: string) {
    Paid(tick, name) != []
  }

  lemma {:induction false} VisitsAre(pools: seq<Pool>, now: int, busy: string -> bool, name: string)
    ensures forall v :: v in VisitsOf(pools, now, busy, name) <==>
      exists i :: 0 <= i < |pools| && pools[i].enabled && pools[i].name == name
               && v == Visit(now, busy(name), pools[i].wake.Open(now))
  {
    hide Wake.Open;
    if pools != [] {
      var front, last := pools[..|pools| - 1], pools[|pools| - 1];
      VisitsAre(front, now, busy, name);
      assert forall i :: 0 <= i < |front| ==> front[i] == pools[i];
    }
  }

  // In terms of the configuration: a pool is visited when it is enabled; it counts as inside its
  // window, or outside, as its schedules have it.
  lemma VisitedIff(tick: Tick, name: string)
    ensures Visited(tick, name) <==> exists i ::
      0 <= i < |tick.pools| && tick.pools[i].enabled && tick.pools[i].name == name
    ensures InWindow(tick, name) <==> forall i ::
      0 <= i < |tick.pools| && tick.pools[i].enabled && tick.pools[i].name == name ==>
      tick.pools[i].wake.Open(tick.now)
    ensures IdleOutside(tick, name) <==> Visited(tick, name) && !tick.busy(name) && forall i ::
      0 <= i < |tick.pools| && tick.pools[i].enabled && tick.pools[i].name == name ==>
      !tick.pools[i].wake.Open(tick.now)
  {
    hide VisitsOf, Wake.Open;
    VisitsAre(tick.pools, tick.now, tick.busy, name);
    var vs := Paid(tick, name);
    if vs != [] { assert vs[0] in vs; }
    forall i | 0 <= i < |tick.pools| && tick.pools[i].enabled && tick.pools[i].name == name
      ensures Visit(tick.now, tick.busy(name), tick.pools[i].wake.Open(tick.now)) in vs
    {}
  }

  ghost predicate BusyTick(tick: Tick, name: string) {
    Visited(tick, name) && tick.busy(name)
  }

  // Inside every window the pool has; or idle, and outside each of them.
  ghost predicate InWindow(tick: Tick, name: string) {
    forall v :: v in Paid(tick, name) ==> v.open
  }

  ghost predicate IdleOutside(tick: Tick, name: string) {
    Visited(tick, name) && !tick.busy(name) && forall v :: v in Paid(tick, name) ==> !v.open
  }

  // ---------------------------------------------------------------- visits and their ticks

  lemma HistoryStep(ticks: seq<Tick>, name: string, t: nat)
    requires t < |ticks|
    ensures History(ticks[..t + 1], name) == History(ticks[..t], name) + Paid(ticks[t], name)
  {
    hide VisitsOf;
    assert ticks[..t + 1][..t] == ticks[..t];
  }

  lemma {:induction false} HistoryGrows(ticks: seq<Tick>, name: string, t: nat, u: nat)
    requires t <= u <= |ticks|
    ensures History(ticks[..t], name) <= History(ticks[..u], name)
    decreases u - t
  {
    hide History, Paid;
    if t < u {
      HistoryGrows(ticks, name, t, u - 1);
      HistoryStep(ticks, name, u - 1);
    }
  }

  // The tick a visit belongs to.
  ghost predicate PaidBy(ticks: seq<Tick>, name: string, i: nat, t: nat) {
    && t < |ticks| && |History(ticks[..t], name)| <= i < |History(ticks[..t + 1], name)|
    && i < |History(ticks, name)| && History(ticks, name)[i] in Paid(ticks[t], name)
  }

  lemma InTick(ticks: seq<Tick>, name: string, i: nat, t: nat)
    requires t < |ticks| && |History(ticks[..t], name)| <= i < |History(ticks[..t + 1], name)|
    ensures PaidBy(ticks, name, i, t)
  {
    hide History, Paid;
    HistoryStep(ticks, name, t);
    HistoryGrows(ticks, name, t + 1, |ticks|);
    assert ticks[..|ticks|] == ticks;
    assert History(ticks, name)[i] == Paid(ticks[t], name)[i - |History(ticks[..t], name)|];
  }

  lemma TickOf(ticks: seq<Tick>, name: string, i: nat) returns (t: nat)
    requires i < |History(ticks, name)|
    ensures PaidBy(ticks, name, i, t)
  {
    hide Paid, PaidBy;
    t := |ticks|;
    assert ticks[..t] == ticks && ticks[..0] == [];
    while |History(ticks[..t], name)| > i
      invariant t <= |ticks|
      invariant t < |ticks| ==> i < |History(ticks[..t + 1], name)|
      invariant t == |ticks| ==> i < |History(ticks[..t], name)|
      decreases t
    {
      t := t - 1;
    }
    InTick(ticks, name, i, t);
  }

  lemma TicksInOrder(ticks: seq<Tick>, name: string, i: nat, t: nat, j: nat, u: nat)
    requires PaidBy(ticks, name, i, t) && PaidBy(ticks, name, j, u) && i <= j
    ensures t <= u
  {
    hide History, Paid;
    if u < t {
      HistoryGrows(ticks, name, u + 1, t);
    }
  }

  lemma FirstVisit(ticks: seq<Tick>, name: string, t: nat) returns (i: nat)
    requires t < |ticks| && Visited(ticks[t], name)
    ensures PaidBy(ticks, name, i, t)
  {
    hide History, Paid;
    HistoryStep(ticks, name, t);
    i := |History(ticks[..t], name)|;
    InTick(ticks, name, i, t);
  }

  lemma SpunAtPrefix(xs: seq<Visit>, ys: seq<Visit>, k: nat)
    requires xs <= ys && k < |xs|
    ensures SpunAt(FRESH, xs, k) == SpunAt(FRESH, ys, k)
  {
    assert xs[..k] == ys[..k];
  }

  // A stop in the log is a visit of that tick.
  lemma StopVisit(ticks: seq<Tick>, name: string, t: nat) returns (k: nat)
    requires t < |ticks| && SpunDuring(ticks, t, name)
    ensures PaidBy(ticks, name, k, t) && SpunAt(FRESH, History(ticks, name), k)
  {
    hide History, Paid, PaidBy, SpunAt;
    k := SpunDuringVisit(ticks, t, name);
    InTick(ticks, name, k, t);
    HistoryGrows(ticks, name, t + 1, |ticks|);
    assert ticks[..|ticks|] == ticks;
    SpunAtPrefix(History(ticks[..t + 1], name), History(ticks, name), k);
  }

  lemma StopIsIdle(vs: seq<Visit>, k: nat)
    requires k < |vs| && SpunAt(FRESH, vs, k)
    ensures !vs[k].busy
  {}

  // ---------------------------------------------------------------- the rules, tick by tick

  // Between two ticks that stop a pool lies a tick that saw it busy.
  lemma BusyTickBetweenStops(ticks: seq<Tick>, name: string, t: nat, u: nat)
    requires t < u < |ticks| && SpunDuring(ticks, t, name) && SpunDuring(ticks, u, name)
    ensures exists v :: t < v < u && BusyTick(ticks[v], name)
  {
    hide History, SpunAt, SpunDuring;
    var k := StopVisit(ticks, name, t);
    var l := StopVisit(ticks, name, u);
    if l <= k { TicksInOrder(ticks, name, l, u, k, t); }
    var vs := History(ticks, name);
    StopIsIdle(vs, k);
    StopIsIdle(vs, l);
    BusyBetweenSpinDowns(vs, k, l);
    var i :| k < i < l && vs[i].busy;
    var v := TickOf(ticks, name, i);
    TicksInOrder(ticks, name, k, t, i, v);
    TicksInOrder(ticks, name, i, v, l, u);
    assert BusyTick(ticks[v], name);
  }

  // `s` is the first idle tick after the last busy one, and no tick up to `t` saw the pool busy.
  ghost predicate IdleTicks(ticks: seq<Tick>, name: string, s: nat, t: nat) {
    && s <= t < |ticks| && Visited(ticks[s], name)
    && (forall v :: s <= v <= t ==> !BusyTick(ticks[v], name))
    && (forall v :: 0 <= v < s && Visited(ticks[v], name) ==> exists w :: v <= w < s && BusyTick(ticks[w], name))
  }

  ghost predicate GraceOver(ticks: seq<Tick>, name: string, s: nat, t: nat) {
    IdleTicks(ticks, name, s, t) && ticks[t].now - ticks[s].now >= 90
  }

  // Inside its window a pool is stopped only at least 90 seconds into such a stretch.
  lemma StoppedInWindowAfterGrace(ticks: seq<Tick>, name: string, t: nat)
    requires t < |ticks| && SpunDuring(ticks, t, name) && InWindow(ticks[t], name)
    ensures exists s: nat :: GraceOver(ticks, name, s, t)
  {
    hide History, SpunAt, SpunDuring, IdleTicks;
    var k := StopVisit(ticks, name, t);
    var vs := History(ticks, name);
    ParkedInWindowOnlyAfterGrace(vs, k);
    var j :| 0 <= j <= k && IdleFrom(vs, j, k) && vs[k].now - vs[j].now >= 90;
    var s := TickOf(ticks, name, j);
    IdleVisitsAreTicks(ticks, name, j, s, k, t);
    assert GraceOver(ticks, name, s, t);
  }

  lemma IdleVisitsAreTicks(ticks: seq<Tick>, name: string, j: nat, s: nat, k: nat, t: nat)
    requires PaidBy(ticks, name, j, s) && PaidBy(ticks, name, k, t) && j <= k && IdleFrom(History(ticks, name), j, k)
    ensures IdleTicks(ticks, name, s, t)
  {
    hide History, Paid, IdleFrom;
    TicksInOrder(ticks, name, j, s, k, t);
    forall v | s <= v <= t ensures !BusyTick(ticks[v], name) {
      if Visited(ticks[v], name) {
        NotBusyBetween(ticks, name, j, s, k, t, v);
      }
    }
    forall v | 0 <= v < s && Visited(ticks[v], name) ensures exists w :: v <= w < s && BusyTick(ticks[w], name) {
      var w := BusyBefore(ticks, name, j, s, k, v);
    }
  }

  lemma NotBusyBetween(ticks: seq<Tick>, name: string, j: nat, s: nat, k: nat, t: nat, v: nat)
    requires PaidBy(ticks, name, j, s) && PaidBy(ticks, name, k, t) && j <= k && IdleFrom(History(ticks, name), j, k)
    requires s <= v <= t && Visited(ticks[v], name)
    ensures !ticks[v].busy(name)
  {
    hide History, Paid;
    var i := FirstVisit(ticks, name, v);
    if i < j { TicksInOrder(ticks, name, i, v, j, s); }
    if k < i { TicksInOrder(ticks, name, k, t, i, v); }
  }

  lemma BusyBefore(ticks: seq<Tick>, name: string, j: nat, s: nat, k: nat, v: nat) returns (w: nat)
    requires PaidBy(ticks, name, j, s) && j <= k < |History(ticks, name)| && IdleFrom(History(ticks, name), j, k)
    requires v < s && Visited(ticks[v], name)
    ensures v <= w < s && BusyTick(ticks[w], name)
  {
    hide History, Paid;
    var i := FirstVisit(ticks, name, v);
    if j <= i { TicksInOrder(ticks, name, j, s, i, v); }
    w := TickOf(ticks, name, j - 1);
    TicksInOrder(ticks, name, i, v, j - 1, w);
    TicksInOrder(ticks, name, j - 1, w, j, s);
  }

  // After an idle tick outside its window a pool is marked parked.
  lemma ParkedAfterIdleTick(ticks: seq<Tick>, name: string)
    requires ticks != [] && IdleOutside(ticks[|ticks| - 1], name)
    ensures After(FRESH, History(ticks, name)).awake == Some(false)
  {
    hide After;
    var last, vs := ticks[|ticks| - 1], History(ticks, name);
    var paid := Paid(last, name);
    assert vs == History(ticks[..|ticks| - 1], name) + paid;
    assert vs[|vs| - 1] == paid[|paid| - 1] && paid[|paid| - 1] in paid;
    IdleOutsideWindowIsParked(vs);
  }

  // The daemon's run, and what its log of stops and its last marks can be.
  method DriveSafely(ticks: seq<Tick>) returns (m: StandbyManager, log: seq<set<string>>)
    requires forall t :: 0 <= t < |ticks| ==> ValidPools(ticks[t].pools)
    ensures |log| == |ticks|
    ensures forall t, u, name :: 0 <= t < u < |log| && name in log[t] && name in log[u] ==>
      exists v :: t < v < u && BusyTick(ticks[v], name)
    ensures forall t: nat, name :: t < |log| && name in log[t] && InWindow(ticks[t], name) ==>
      exists s: nat :: GraceOver(ticks, name, s, t)
    ensures ticks != [] ==>
      forall name :: IdleOutside(ticks[|ticks| - 1], name) ==> m.StateOf(name).awake == Some(false)
  {
    hide History, SpunDuring, After, GraceOver, BusyTick, Visited, InWindow, IdleOutside, Paid;
    m, log := Drive(ticks);
    forall t, u, name | 0 <= t < u < |log| && name in log[t] && name in log[u]
      ensures exists v :: t < v < u && BusyTick(ticks[v], name)
    {
      BusyTickBetweenStops(ticks, name, t, u);
    }
    forall t: nat, name | t < |log| && name in log[t] && InWindow(ticks[t], name)
      ensures exists s: nat :: GraceOver(ticks, name, s, t)
    {
      StoppedInWindowAfterGrace(ticks, name, t);
    }
    if ticks != [] {
      var last := ticks[|ticks| - 1];
      forall name | IdleOutside(last, name)
        ensures m.StateOf(name).awake == Some(false)
      {
        ParkedAfterIdleTick(ticks, name);
      }
    }
  }
}
