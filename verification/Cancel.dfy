// Cooperative cancellation (src/core/cancel.rs): a registry of running operations, a token on
// every thread that works for one, and requests that hit operations by kind and destination.
module Cancel {
  import opened Wrappers

  type Thread = nat

  // ---------------------------------------------------------------- what has happened

  datatype Call =
    | Begin(thread: Thread, kind: string, targets: seq<string>)
    | Enter(thread: Thread, held: Option<nat>)
    | Drop(thread: Thread)   // of the guard taken last on that thread
    | Request(onlyKind: Option<string>, onlyTarget: Option<string>)

  // A guard alive on a thread, with the operation its token stands for.
  datatype Frame = OpFrame(id: nat) | TokenFrame(held: Option<nat>)
  {
    function Token(): Option<nat> {
      if OpFrame? then Some(id) else held
    }
  }

  // Operations are numbered from 1 in the order they begin.
  function Begun(trace: seq<Call>): seq<Call> {
    if trace == [] then []
    else Begun(trace[..|trace| - 1]) + if trace[|trace| - 1].Begin? then [trace[|trace| - 1]] else []
  }

  function Frames(trace: seq<Call>, t: Thread): seq<Frame> {
    if trace == [] then []
    else Next(Frames(trace[..|trace| - 1], t), trace[|trace| - 1], t, |Begun(trace[..|trace| - 1])| + 1)
  }

  // What a call does to a thread's guards; `id` is the next operation's number.
  function Next(frames: seq<Frame>, c: Call, t: Thread, id: nat): seq<Frame> {
    if c.Request? || c.thread != t then frames
    else if c.Begin? then frames + [OpFrame(id)]
    else if c.Enter? then frames + [TokenFrame(c.held)]
    else if frames == [] then frames
    else frames[..|frames| - 1]
  }

  // The token of the innermost guard.
  function Installed(trace: seq<Call>, t: Thread): Option<nat> {
    Top(Frames(trace, t))
  }

  function Top(frames: seq<Frame>): Option<nat> {
    if frames == [] then None else frames[|frames| - 1].Token()
  }

  // An operation runs while its guard is alive.
  ghost predicate Running(trace: seq<Call>, id: nat) {
    exists t: Thread :: OpFrame(id) in Frames(trace, t)
  }

  predicate Matches(request: Call, kind: string, targets: seq<string>)
    requires request.Request?
  {
    && (request.onlyKind.None? || request.onlyKind.value == kind)
    && (request.onlyTarget.None? || request.onlyTarget.value in targets)
  }

  predicate Aimed(request: Call, trace: seq<Call>, id: nat)
    requires request.Request?
  {
    var begun := Begun(trace);
    0 < id <= |begun| && begun[id - 1].Begin? && Matches(request, begun[id - 1].kind, begun[id - 1].targets)
  }

  // Some request that matches the operation came while it was running.
  ghost predicate Hit(trace: seq<Call>, id: nat) {
    trace != [] &&
    var before, last := trace[..|trace| - 1], trace[|trace| - 1];
    Hit(before, id) || (last.Request? && Running(before, id) && Aimed(last, before, id))
  }

  // ---------------------------------------------------------------- in terms of the calls

  // The b-th call begins operation `id`.
  predicate BeginsOp(trace: seq<Call>, b: nat, id: nat) {
    b < |trace| && trace[b].Begin? && |Begun(trace[..b])| + 1 == id
  }

  // Every number given out is that of one call.
  lemma {:induction false} BegunBy(trace: seq<Call>, id: nat)
    ensures 0 < id <= |Begun(trace)| <==> exists b: nat :: BeginsOp(trace, b, id)
    ensures forall b: nat :: BeginsOp(trace, b, id) ==> id <= |Begun(trace)| && Begun(trace)[id - 1] == trace[b]
  {
    if trace != [] {
      var n := |trace| - 1;
      var before := trace[..n];
      BegunBy(before, id);
      forall b: nat | b < n ensures BeginsOp(trace, b, id) <==> BeginsOp(before, b, id) {
        assert trace[..b] == before[..b];
      }
      assert BeginsOp(trace, n, id) <==> trace[n].Begin? && |Begun(before)| + 1 == id;
      if 0 < id <= |Begun(trace)| {
        if id <= |Begun(before)| {
          var b: nat :| BeginsOp(before, b, id);
          assert BeginsOp(trace, b, id);
        } else {
          assert BeginsOp(trace, n, id);
        }
      }
    }
  }

  // The request names the operation's kind, or none, and one of its destinations, or none.
  lemma AimedIff(c: Call, trace: seq<Call>, id: nat)
    requires c.Request?
    ensures Aimed(c, trace, id) <==> exists b: nat ::
      && BeginsOp(trace, b, id)
      && (c.onlyKind == None || c.onlyKind == Some(trace[b].kind))
      && (c.onlyTarget == None || exists n :: 0 <= n < |trace[b].targets| && c.onlyTarget == Some(trace[b].targets[n]))
  {
    hide Begun, BeginsOp;
    BegunBy(trace, id);
    BeginIsBegin(trace, id);
  }

  lemma BeginIsBegin(trace: seq<Call>, id: nat)
    ensures forall b: nat :: BeginsOp(trace, b, id) ==> b < |trace| && trace[b].Begin? && id > 0
  {}

  // An operation has been hit exactly when some request came while it was running that named its
  // kind, or none, and one of its destinations, or none: no request before or after counts, and
  // none for a destination hits an operation without destinations.
  lemma {:induction false} HitIff(trace: seq<Call>, id: nat)
    ensures Hit(trace, id) <==> exists n ::
      0 <= n < |trace| && trace[n].Request? && Running(trace[..n], id) && Aimed(trace[n], trace[..n], id)
  {
    hide Running, Aimed;
    if trace != [] {
      var n := |trace| - 1;
      HitIff(trace[..n], id);
      forall m | 0 <= m < n ensures trace[..n][..m] == trace[..m] {}
    }
  }

  // ---------------------------------------------------------------- the registry and its guards

  datatype ActiveOp = ActiveOp(id: nat, kind: string, targets: seq<string>)

  datatype Guard = OpGuard(id: nat, previous: Option<nat>) | TokenGuard(previous: Option<nat>)

  ghost predicate GuardsMatch(guards: seq<Guard>, frames: seq<Frame>) {
    && |guards| == |frames|
    && forall i :: 0 <= i < |guards| ==>
         && guards[i].previous == Top(frames[..i])
         && (guards[i].OpGuard? <==> frames[i].OpFrame?)
         && (guards[i].OpGuard? ==> guards[i].id == frames[i].id)
  }

  // What a thread holds: the innermost guard's token is installed, and every guard remembers the
  // one that was installed before it.
  ghost predicate ThreadOk(installed: Option<nat>, guards: seq<Guard>, frames: seq<Frame>) {
    installed == Top(frames) && GuardsMatch(guards, frames)
  }

  function GuardOf(f: Frame, previous: Option<nat>): Guard {
    if f.OpFrame? then OpGuard(f.id, previous) else TokenGuard(previous)
  }

  lemma Pushed(installed: Option<nat>, guards: seq<Guard>, frames: seq<Frame>, f: Frame)
    requires ThreadOk(installed, guards, frames)
    ensures ThreadOk(f.Token(), guards + [GuardOf(f, installed)], frames + [f])
  {
    var g, fs := guards + [GuardOf(f, installed)], frames + [f];
    assert fs[..|frames|] == frames;
    forall i | 0 <= i < |g|
      ensures g[i].previous == Top(fs[..i])
      ensures (g[i].OpGuard? <==> fs[i].OpFrame?) && (g[i].OpGuard? ==> g[i].id == fs[i].id)
    {
      if i < |guards| { assert g[i] == guards[i] && fs[i] == frames[i] && fs[..i] == frames[..i]; }
    }
  }

  lemma Popped(installed: Option<nat>, guards: seq<Guard>, frames: seq<Frame>)
    requires ThreadOk(installed, guards, frames) && guards != []
    ensures frames != []
    ensures ThreadOk(guards[|guards| - 1].previous, guards[..|guards| - 1], frames[..|frames| - 1])
    ensures var g, f := guards[|guards| - 1], frames[|frames| - 1];
      (g.OpGuard? <==> f.OpFrame?) && (g.OpGuard? ==> g.id == f.id)
  {
    var fs := frames[..|frames| - 1];
    forall i | 0 <= i < |fs| ensures fs[..i] == frames[..i] {}
  }

  // The registry lists the running operations, each once.
  ghost predicate Lists(registry: seq<ActiveOp>, trace: seq<Call>) {
    && (forall id :: Running(trace, id) <==> exists i :: 0 <= i < |registry| && registry[i].id == id)
    && Distinct(registry)
    && (forall i :: 0 <= i < |registry| ==> IsOp(registry[i], trace))
  }

  ghost predicate Distinct(registry: seq<ActiveOp>) {
    forall i, j :: 0 <= i < j < |registry| ==> registry[i].id != registry[j].id
  }

  ghost predicate IsOp(op: ActiveOp, trace: seq<Call>) {
    var begun := Begun(trace);
    0 < op.id <= |begun| && begun[op.id - 1].Begin? && begun[op.id - 1].kind == op.kind
      && begun[op.id - 1].targets == op.targets
  }

  // Every running operation's guard is on one thread, once.
  ghost predicate OneGuardEach(trace: seq<Call>) {
    && (forall t: Thread, i, j :: 0 <= i < j < |Frames(trace, t)| && Frames(trace, t)[i].OpFrame? ==>
          Frames(trace, t)[i] != Frames(trace, t)[j])
    && (forall t: Thread, u: Thread, f :: f in Frames(trace, t) && f in Frames(trace, u) && f.OpFrame? ==> t == u)
    && (forall t: Thread, f :: f in Frames(trace, t) && f.OpFrame? ==> 0 < f.id <= |Begun(trace)|)
  }

  lemma Appended(trace: seq<Call>, c: Call)
    ensures (trace + [c])[..|trace|] == trace && (trace + [c])[|trace|] == c
  {}

  lemma FramesAfter(trace: seq<Call>, c: Call, t: Thread)
    ensures Begun(trace + [c]) == Begun(trace) + if c.Begin? then [c] else []
    ensures Frames(trace + [c], t) == Next(Frames(trace, t), c, t, |Begun(trace)| + 1)
  {
    Appended(trace, c);
  }

  lemma HitAfter(trace: seq<Call>, c: Call, id: nat)
    ensures Hit(trace + [c], id) <==> Hit(trace, id) || (c.Request? && Running(trace, id) && Aimed(c, trace, id))
  {
    hide Running, Aimed;
    Appended(trace, c);
  }

  // ---------------------------------------------------------------- what each call does to the running operations

  lemma BeginRuns(trace: seq<Call>, c: Call)
    requires c.Begin? && OneGuardEach(trace)
    ensures OneGuardEach(trace + [c])
    ensures forall id :: Running(trace + [c], id) <==> Running(trace, id) || id == |Begun(trace)| + 1
  {
    hide Begun, Frames;
    var after, id := trace + [c], |Begun(trace)| + 1;
    forall t: Thread ensures Frames(after, t) == Frames(trace, t) + if t == c.thread then [OpFrame(id)] else [] {
      FramesAfter(trace, c, t);
    }
    FramesAfter(trace, c, c.thread);
    assert OpFrame(id) in Frames(after, c.thread);
    forall x | Running(trace, x) ensures Running(after, x) {
      var t: Thread :| OpFrame(x) in Frames(trace, t);
      assert OpFrame(x) in Frames(after, t);
    }
  }

  lemma EnterOrRequestRuns(trace: seq<Call>, c: Call)
    requires (c.Enter? || c.Request?) && OneGuardEach(trace)
    ensures OneGuardEach(trace + [c])
    ensures forall id :: Running(trace + [c], id) <==> Running(trace, id)
  {
    hide Begun, Frames;
    var after := trace + [c];
    var more := if c.Enter? then [TokenFrame(c.held)] else [];
    forall t: Thread ensures Frames(after, t) == Frames(trace, t) + if c.Enter? && t == c.thread then more else [] {
      FramesAfter(trace, c, t);
    }
    FramesAfter(trace, c, 0);
    forall x | Running(trace, x) ensures Running(after, x) {
      var t: Thread :| OpFrame(x) in Frames(trace, t);
      assert OpFrame(x) in Frames(after, t);
    }
    forall x | Running(after, x) ensures Running(trace, x) {
      var t: Thread :| OpFrame(x) in Frames(after, t);
      assert OpFrame(x) in Frames(trace, t);
    }
  }

  lemma DropFrames(trace: seq<Call>, c: Call)
    requires c.Drop? && Frames(trace, c.thread) != []
    ensures forall t: Thread ::
      Frames(trace + [c], t) == if t == c.thread then Frames(trace, t)[..|Frames(trace, t)| - 1] else Frames(trace, t)
    ensures Begun(trace + [c]) == Begun(trace)
    ensures Frames(trace, c.thread) == Frames(trace + [c], c.thread) + [LastFrame(trace, c.thread)]
  {
    hide Begun, Frames;
    forall t: Thread
      ensures Frames(trace + [c], t)
           == if t == c.thread then Frames(trace, t)[..|Frames(trace, t)| - 1] else Frames(trace, t)
    {
      FramesAfter(trace, c, t);
    }
    FramesAfter(trace, c, c.thread);
  }

  lemma DropKeepsGuards(trace: seq<Call>, c: Call)
    requires c.Drop? && OneGuardEach(trace) && Frames(trace, c.thread) != []
    ensures OneGuardEach(trace + [c])
  {
    hide Begun, Frames;
    DropFrames(trace, c);
  }

  lemma DropRuns(trace: seq<Call>, c: Call)
    requires c.Drop? && OneGuardEach(trace) && Frames(trace, c.thread) != []
    ensures OneGuardEach(trace + [c])
    ensures forall id :: Running(trace + [c], id) <==> Running(trace, id) && LastFrame(trace, c.thread) != OpFrame(id)
  {
    hide Begun, Frames;
    var after, last := trace + [c], LastFrame(trace, c.thread);
    DropKeepsGuards(trace, c);
    DropFrames(trace, c);
    forall id ensures Running(after, id) <==> Running(trace, id) && last != OpFrame(id) {
      DroppedRuns(trace, c, id);
    }
  }

  lemma DroppedRuns(trace: seq<Call>, c: Call, id: nat)
    requires c.Drop? && OneGuardEach(trace) && Frames(trace, c.thread) != []
    ensures Running(trace + [c], id) <==> Running(trace, id) && LastFrame(trace, c.thread) != OpFrame(id)
  {
    hide Begun, Frames;
    var after, last := trace + [c], LastFrame(trace, c.thread);
    DropFrames(trace, c);
    if t: Thread :| OpFrame(id) in Frames(trace, t) && last != OpFrame(id) {
      assert OpFrame(id) in Frames(after, t);
    }
    if t: Thread :| OpFrame(id) in Frames(after, t) {
      assert OpFrame(id) in Frames(trace, t);
    }
  }

  function LastFrame(trace: seq<Call>, t: Thread): Frame
    requires Frames(trace, t) != []
  {
    Frames(trace, t)[|Frames(trace, t)| - 1]
  }

  // ---------------------------------------------------------------- the module's state

  class Canceller {
    var nextOpId: nat
    var registry: seq<ActiveOp>
    var raised: set<nat>                     // operations whose flag is set
    var current: map<Thread, Option<nat>>    // the token installed on each thread
    var guards: map<Thread, seq<Guard>>      // the guards alive on each thread
    ghost var trace: seq<Call>

    function CurrentOf(t: Thread): Option<nat>
      reads this
    {
      if t in current then current[t] else None
    }

    function GuardsOf(t: Thread): seq<Guard>
      reads this
    {
      if t in guards then guards[t] else []
    }

    ghost predicate Valid()
      reads this
    {
      && nextOpId == |Begun(trace)| + 1 && OneGuardEach(trace) && Lists(registry, trace)
      && (forall id :: id in raised <==> Hit(trace, id))
      && (forall t: Thread :: ThreadOk(CurrentOf(t), GuardsOf(t), Frames(trace, t)))
    }

    constructor ()
      ensures Valid() && trace == []
    {
      nextOpId, registry, raised, current, guards, trace := 1, [], {}, map[], map[], [];
    }

    // Polls on behalf of the thread's operation.
    method Check(t: Thread) returns (cancelled: bool)
      requires Valid()
      ensures cancelled <==> Installed(trace, t).Some? && Hit(trace, Installed(trace, t).value)
    {
      hide Frames, Hit, Lists, OneGuardEach, GuardsMatch;
      assert ThreadOk(CurrentOf(t), GuardsOf(t), Frames(trace, t));
      var installed := CurrentOf(t);
      cancelled := installed.Some? && installed.value in raised;
    }

    method BeginTargets(t: Thread, kind: string, targets: seq<string>)
      requires Valid()
      modifies this
      ensures Valid() && trace == old(trace) + [Begin(t, kind, targets)]
      ensures OpFrame(old(nextOpId)) in Frames(trace, t)
    {
      hide Frames, Begun, Hit, Running, Lists, OneGuardEach, ThreadOk, Installed;
      ghost var before, c := trace, Begin(t, kind, targets);
      var id := nextOpId;
      nextOpId := nextOpId + 1;
      registry := registry + [ActiveOp(id, kind, targets)];
      guards := guards[t := GuardsOf(t) + [OpGuard(id, CurrentOf(t))]];
      current := current[t := Some(id)];
      trace := trace + [c];
      BeginRuns(before, c);
      ListsMore(old(registry), before, c, id);
      forall u: Thread
        ensures ThreadOk(CurrentOf(u), GuardsOf(u), Frames(trace, u))
      {
        FramesAfter(before, c, u);
        assert ThreadOk(old(CurrentOf(u)), old(GuardsOf(u)), Frames(before, u));
        if u == t { Pushed(old(CurrentOf(t)), old(GuardsOf(t)), Frames(before, t), OpFrame(id)); }
      }
      FramesAfter(before, c, t);
      forall x ensures x in raised <==> Hit(trace, x) {
        HitAfter(before, c, x);
      }
    }

    // Installs a token captured elsewhere.
    method EnterToken(t: Thread, held: Option<nat>)
      requires Valid()
      modifies this
      ensures Valid() && trace == old(trace) + [Enter(t, held)]
    {
      hide Frames, Begun, Hit, Running, Lists, OneGuardEach, ThreadOk, Installed;
      ghost var before, c := trace, Enter(t, held);
      guards := guards[t := GuardsOf(t) + [TokenGuard(CurrentOf(t))]];
      current := current[t := held];
      trace := trace + [c];
      EnterOrRequestRuns(before, c);
      ListsSame(registry, before, c);
      forall u: Thread
        ensures ThreadOk(CurrentOf(u), GuardsOf(u), Frames(trace, u))
      {
        FramesAfter(before, c, u);
        assert ThreadOk(old(CurrentOf(u)), old(GuardsOf(u)), Frames(before, u));
        if u == t { Pushed(old(CurrentOf(t)), old(GuardsOf(t)), Frames(before, t), TokenFrame(held)); }
      }
      FramesAfter(before, c, t);
      forall x ensures x in raised <==> Hit(trace, x) {
        HitAfter(before, c, x);
      }
    }

    // The guard taken last on a thread goes out of scope.
    method DropGuard(t: Thread)
      requires Valid() && GuardsOf(t) != []
      modifies this
      ensures Valid() && trace == old(trace) + [Drop(t)]
    {
      hide Frames, Begun, Hit, Running, Lists, OneGuardEach, ThreadOk, Distinct;
      ghost var before, c := trace, Drop(t);
      var mine := GuardsOf(t);
      Popped(CurrentOf(t), mine, Frames(before, t));
      var guard := mine[|mine| - 1];
      if guard.OpGuard? {
        registry := Without(registry, guard.id);
      }
      current := current[t := guard.previous];
      guards := guards[t := mine[..|mine| - 1]];
      trace := trace + [c];
      DropRuns(before, c);
      ListsLess(old(registry), registry, before, c, guard);
      forall u: Thread ensures ThreadOk(CurrentOf(u), GuardsOf(u), Frames(trace, u)) {
        FramesAfter(before, c, u);
        assert ThreadOk(old(CurrentOf(u)), old(GuardsOf(u)), Frames(before, u));
      }
      FramesAfter(before, c, t);
      forall x ensures x in raised <==> Hit(trace, x) {
        HitAfter(before, c, x);
      }
    }

    // Signals every operation that matches, and no other; how many there were.
    method RequestCancel(kind: Option<string>, target: Option<string>) returns (signalled: nat, ghost hits: set<nat>)
      requires Valid()
      modifies this
      ensures Valid() && trace == old(trace) + [Request(kind, target)]
      ensures forall id :: id in hits <==> Running(old(trace), id) && Aimed(Request(kind, target), old(trace), id)
      ensures signalled == |hits| && raised == old(raised) + hits
    {
      hide Frames, Begun, Hit, Running, OneGuardEach, ThreadOk, Aimed, Matches, Lists;
      ghost var before, c := trace, Request(kind, target);
      ListsDistinct(registry, before);
      signalled, hits := Signal(kind, target);
      forall id ensures id in hits <==> Running(before, id) && Aimed(c, before, id) {
        ListedIsAimed(registry, before, c, id);
      }
      trace := trace + [c];
      EnterOrRequestRuns(before, c);
      ListsSame(registry, before, c);
      forall u: Thread ensures ThreadOk(CurrentOf(u), GuardsOf(u), Frames(trace, u)) {
        FramesAfter(before, c, u);
        assert ThreadOk(old(CurrentOf(u)), old(GuardsOf(u)), Frames(before, u));
      }
      FramesAfter(before, c, 0);
      forall x ensures x in raised <==> Hit(trace, x) {
        HitAfter(before, c, x);
      }
    }

    // Sets the flags, entry by entry.
    method Signal(kind: Option<string>, target: Option<string>) returns (signalled: nat, ghost hits: set<nat>)
      requires Distinct(registry)
      modifies this`raised
      ensures forall id :: id in hits <==> Listed(registry, |registry|, Request(kind, target), id)
      ensures signalled == |hits| && raised == old(raised) + hits
    {
      hide Matches;
      signalled, hits := 0, {};
      for i := 0 to |registry|
        invariant forall id :: id in hits <==> Listed(registry, i, Request(kind, target), id)
        invariant signalled == |hits| && raised == old(raised) + hits
      {
        var op := registry[i];
        if Matches(Request(kind, target), op.kind, op.targets) {
          assert op.id !in hits;
          raised := raised + {op.id};
          signalled := signalled + 1;
          hits := hits + {op.id};
        }
      }
    }

    // Whether some operation of a kind is running for a destination.
    method KindTargetActive(kind: string, target: string) returns (active: bool)
      requires Valid()
      ensures active <==> exists id :: Running(trace, id) && Aimed(Request(Some(kind), Some(target)), trace, id)
    {
      hide Frames, Begun, Running, OneGuardEach, ThreadOk, Aimed, Matches, Hit, Lists;
      ghost var c := Request(Some(kind), Some(target));
      active := false;
      for i := 0 to |registry|
        invariant active <==> exists j :: 0 <= j < i && Matches(c, registry[j].kind, registry[j].targets)
      {
        if Matches(Request(Some(kind), Some(target)), registry[i].kind, registry[i].targets) {
          active := true;
        }
      }
      forall id ensures Listed(registry, |registry|, c, id) <==> Running(trace, id) && Aimed(c, trace, id) {
        ListedIsAimed(registry, trace, c, id);
      }
      if active {
        ghost var j :| 0 <= j < |registry| && Matches(c, registry[j].kind, registry[j].targets);
        assert Listed(registry, |registry|, c, registry[j].id);
      }
    }
  }

  function Without(registry: seq<ActiveOp>, id: nat): (r: seq<ActiveOp>)
    ensures forall op :: op in r <==> op in registry && op.id != id
    ensures Distinct(registry) ==> Distinct(r)
  {
    if registry == [] then []
    else
      var rest := Without(registry[1..], id);
      if registry[0].id == id then rest else [registry[0]] + rest
  }

  // An operation among the first `n` of the registry that a request matches.
  ghost predicate Listed(registry: seq<ActiveOp>, n: nat, c: Call, id: nat)
    requires n <= |registry| && c.Request?
  {
    exists j :: 0 <= j < n && registry[j].id == id && Matches(c, registry[j].kind, registry[j].targets)
  }

  lemma ListedIsAimed(registry: seq<ActiveOp>, trace: seq<Call>, c: Call, id: nat)
    requires c.Request? && Lists(registry, trace)
    ensures Listed(registry, |registry|, c, id) <==> Running(trace, id) && Aimed(c, trace, id)
  {
    hide Running, Begun, Matches;
    if Running(trace, id) {
      var j :| 0 <= j < |registry| && registry[j].id == id;
      assert IsOp(registry[j], trace);
    }
  }

  lemma ListsMore(registry: seq<ActiveOp>, trace: seq<Call>, c: Call, id: nat)
    requires c.Begin? && Lists(registry, trace) && id == |Begun(trace)| + 1
    requires forall x :: Running(trace + [c], x) <==> Running(trace, x) || x == id
    ensures Lists(registry + [ActiveOp(id, c.kind, c.targets)], trace + [c])
  {
    hide Running, Begun, Frames, IsOp;
    FramesAfter(trace, c, 0);
    var op := ActiveOp(id, c.kind, c.targets);
    var more, after := registry + [op], trace + [c];
    assert more[|registry|] == op;
    NewIsOp(trace, c, op);
    forall i | 0 <= i < |registry| ensures IsOp(more[i], after) && more[i].id < id {
      OldIsOp(trace, c, registry[i]);
    }
    forall x ensures Running(after, x) <==> exists i :: 0 <= i < |more| && more[i].id == x {
      if Running(trace, x) {
        var i :| 0 <= i < |registry| && registry[i].id == x;
        assert more[i].id == x;
      }
      if i :| 0 <= i < |more| && more[i].id == x && i < |registry| {
        assert registry[i].id == x;
      }
    }
  }

  lemma NewIsOp(trace: seq<Call>, c: Call, op: ActiveOp)
    requires c.Begin? && op == ActiveOp(|Begun(trace)| + 1, c.kind, c.targets)
    ensures IsOp(op, trace + [c])
  {
    FramesAfter(trace, c, 0);
  }

  lemma OldIsOp(trace: seq<Call>, c: Call, op: ActiveOp)
    requires IsOp(op, trace)
    ensures IsOp(op, trace + [c]) && op.id <= |Begun(trace)|
  {
    FramesAfter(trace, c, 0);
  }

  lemma ListsDistinct(registry: seq<ActiveOp>, trace: seq<Call>)
    requires Lists(registry, trace)
    ensures Distinct(registry)
  {}

  lemma ListsSame(registry: seq<ActiveOp>, trace: seq<Call>, c: Call)
    requires !c.Begin? && Lists(registry, trace) && forall x :: Running(trace + [c], x) <==> Running(trace, x)
    ensures Lists(registry, trace + [c])
  {
    hide Running, Begun, Frames;
    FramesAfter(trace, c, 0);
    assert Begun(trace + [c]) == Begun(trace);
    assert forall i :: 0 <= i < |registry| ==> IsOp(registry[i], trace);
  }

  lemma ListsLess(registry: seq<ActiveOp>, less: seq<ActiveOp>, trace: seq<Call>, c: Call, guard: Guard)
    requires c.Drop? && Lists(registry, trace) && Frames(trace, c.thread) != []
    requires less == if guard.OpGuard? then Without(registry, guard.id) else registry
    requires var last := LastFrame(trace, c.thread);
      (guard.OpGuard? <==> last.OpFrame?) && (guard.OpGuard? ==> guard.id == last.id)
    requires forall x :: Running(trace + [c], x) <==> Running(trace, x) && LastFrame(trace, c.thread) != OpFrame(x)
    ensures Lists(less, trace + [c])
  {
    hide Running, Begun, Frames, Without, Distinct;
    FramesAfter(trace, c, 0);
    assert Begun(trace + [c]) == Begun(trace);
    forall i | 0 <= i < |less| ensures IsOp(less[i], trace + [c]) && Running(trace + [c], less[i].id) {
      assert less[i] in less && less[i] in registry;
      var j :| 0 <= j < |registry| && registry[j] == less[i];
      assert IsOp(registry[j], trace) && Running(trace, registry[j].id);
    }
    forall x | Running(trace + [c], x) ensures exists i :: 0 <= i < |less| && less[i].id == x {
      var j :| 0 <= j < |registry| && registry[j].id == x;
      assert registry[j] in registry && registry[j] in less;
      var i :| 0 <= i < |less| && less[i] == registry[j];
    }
  }
}
