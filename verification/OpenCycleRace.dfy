// The open-cycle protocol of src/core/state.rs at statement level: scheduler, watcher and web
// connections interleave single SQL statements and may stop anywhere.
module OpenCycleRace {
  import opened Wrappers
  import opened StateDb
  import opened StateInvariant

  // What a connection sets out to do.
  datatype Program = Ensure(s: string) | Close(s: string) | Mark(id: nat, status: Status) | Record(s: string)

  // The statement a connection will execute next. `recording` says that an event insert
  // follows; `closed` is the cycle a closer will report.
  datatype Pc =
    | SelectOpen(s: string, recording: bool, closed: Option<nat>)
    | InsertIfNone(s: string, recording: bool, closed: Option<nat>)
    | Reread(s: string, recording: bool, closed: Option<nat>)
    | SelectToClose(s: string)
    | UpdateClosed(s: string, id: nat)
    | UpdateStatus(id: nat, status: Status)
    | InsertEvent(s: string, id: nat)
    | Ensured(s: string, id: nat)
    | Reported(s: string, closed: Option<nat>)
    | Recorded(s: string, id: nat)
    | NotCreated
    | Idle

  datatype World = World(cycles: seq<Cycle>, last: nat, threads: map<nat, Pc>)
  {
    function PcOf(t: nat): Pc {
      if t in threads then threads[t] else Idle
    }

    function At(t: nat, pc: Pc): World {
      this.(threads := threads[t := pc])
    }
  }

  // A connection starts a program, or executes its next statement.
  datatype Action = Start(t: nat, program: Program) | Run(t: nat)

  function First(p: Program): Pc {
    match p
    case Ensure(s) => SelectOpen(s, false, None)
    case Close(s) => SelectToClose(s)
    case Mark(id, status) => UpdateStatus(id, status)
    case Record(s) => SelectOpen(s, true, None)
  }

  // Once the open cycle is known.
  function Known(s: string, id: nat, recording: bool, closed: Option<nat>): Pc {
    if recording then InsertEvent(s, id) else if closed.Some? then Reported(s, closed) else Ensured(s, id)
  }

  // The cycle table after the statement at `pc`.
  function TableAfter(cycles: seq<Cycle>, last: nat, pc: Pc): (seq<Cycle>, nat) {
    match pc
    case InsertIfNone(s, _, _) =>
      if OpenCycle(cycles, s).Some? then (cycles, last)
      else (cycles + [Cycle(last + 1, s, 0, Open, false, false)], last + 1)
    case UpdateClosed(_, id) => (CloseById(cycles, id), last)
    case UpdateStatus(id, status) => (MarkById(cycles, id, status), last)
    case _ => (cycles, last)
  }

  // Where the connection goes, given the table its statement read.
  function PcAfter(cycles: seq<Cycle>, pc: Pc): Pc {
    match pc
    case SelectOpen(s, recording, closed) =>
      (match OpenCycle(cycles, s)
       case Some(c) => Known(s, c.id, recording, closed)
       case None => InsertIfNone(s, recording, closed))
    case InsertIfNone(s, recording, closed) => Reread(s, recording, closed)
    case Reread(s, recording, closed) =>
      (match OpenCycle(cycles, s)
       case Some(c) => Known(s, c.id, recording, closed)
       case None => NotCreated)
    case SelectToClose(s) =>
      (match OpenCycle(cycles, s)
       case Some(c) => UpdateClosed(s, c.id)
       case None => Reported(s, None))
    case UpdateClosed(s, id) => SelectOpen(s, false, Some(id))
    case UpdateStatus(_, _) => Idle
    case InsertEvent(s, id) => Recorded(s, id)
    case _ => pc
  }

  function Execute(w: World, a: Action): World {
    match a
    case Start(t, p) => w.At(t, First(p))
    case Run(t) =>
      var (cycles, last) := TableAfter(w.cycles, w.last, w.PcOf(t));
      World(cycles, last, w.threads[t := PcAfter(w.cycles, w.PcOf(t))])
  }

  function ExecuteAll(w: World, actions: seq<Action>): World {
    if actions == [] then w
    else Execute(ExecuteAll(w, actions[..|actions| - 1]), actions[|actions| - 1])
  }

  // No caller marks a cycle 'open'.
  predicate Sensible(a: Action) {
    a.Start? && a.program.Mark? ==> a.program.status != Open
  }

  // ids are given out by AUTOINCREMENT: at most one open cycle per source, and it is the newest.
  ghost predicate TableOk(w: World) {
    CyclesOk(w.cycles, w.last)
  }

  // What each connection remembers was once true of the table, and stays true.
  ghost predicate PcOk(w: World, pc: Pc) {
    match pc
    case UpdateClosed(s, id) => HasCycle(w.cycles, s, id)
    case UpdateStatus(_, status) => status != Open
    case SelectOpen(s, _, closed) => closed.Some? ==> IsDone(w.cycles, s, closed.value)
    case InsertIfNone(s, _, closed) => closed.Some? ==> IsDone(w.cycles, s, closed.value)
    case Reread(s, _, closed) => closed.Some? ==> IsDone(w.cycles, s, closed.value)
    case Reported(s, closed) => closed.Some? ==> IsDone(w.cycles, s, closed.value)
    case InsertEvent(s, id) => HasCycle(w.cycles, s, id)
    case Ensured(s, id) => HasCycle(w.cycles, s, id)
    case Recorded(s, id) => HasCycle(w.cycles, s, id)
    case _ => true
  }

  ghost predicate Inv(w: World) {
    TableOk(w) && forall t :: t in w.threads ==> PcOk(w, w.threads[t])
  }

  // Ids and sources stay, and a cycle that is no longer open stays so.
  ghost predicate Forward(before: World, after: World) {
    && |before.cycles| <= |after.cycles|
    && forall i :: 0 <= i < |before.cycles| ==>
         && after.cycles[i].id == before.cycles[i].id && after.cycles[i].source == before.cycles[i].source
         && (before.cycles[i].status != Open ==> after.cycles[i].status != Open)
  }

  lemma ForwardKeeps(before: World, after: World)
    requires Forward(before, after)
    ensures forall s, id: nat :: HasCycle(before.cycles, s, id) ==> HasCycle(after.cycles, s, id)
    ensures forall s, id: nat :: IsDone(before.cycles, s, id) ==> IsDone(after.cycles, s, id)
  {
    forall s, id: nat | HasCycle(before.cycles, s, id)
      ensures HasCycle(after.cycles, s, id)
    {
      var i :| 0 <= i < |before.cycles| && before.cycles[i].source == s && before.cycles[i].id == id;
      assert after.cycles[i].id == id;
    }
    forall s, id: nat | IsDone(before.cycles, s, id)
      ensures IsDone(after.cycles, s, id)
    {
      var i :| 0 <= i < |before.cycles| && before.cycles[i].source == s && before.cycles[i].id == id
        && before.cycles[i].status != Open;
      assert after.cycles[i].id == id;
    }
  }

  lemma FoundIsThere(cycles: seq<Cycle>, s: string)
    ensures OpenCycle(cycles, s).Some? ==> HasCycle(cycles, s, OpenCycle(cycles, s).value.id)
  {
    OpenCycleFound(cycles, s);
    if OpenCycle(cycles, s).Some? {
      var i :| 0 <= i < |cycles| && cycles[i] == OpenCycle(cycles, s).value;
    }
  }

  lemma OneStatement(w: World, a: Action)
    requires Inv(w) && Sensible(a)
    ensures Inv(Execute(w, a)) && Forward(w, Execute(w, a))
  {
    hide PcOk, CyclesOk, HasCycle, IsDone, OpenCycle, CloseById, MarkById, PcAfter, TableAfter;
    var after := Execute(w, a);
    TableStaysOk(w, a);
    assert PcOk(w, w.PcOf(a.t)) by { IdleIsOk(w); }
    PcStaysOk(w, a);
    forall t | t in after.threads
      ensures PcOk(after, after.threads[t])
    {
      if t != a.t {
        PcOkCarries(w, after, w.threads[t]);
      }
    }
  }

  lemma IdleIsOk(w: World)
    ensures PcOk(w, Idle)
  {}

  lemma PcOkCarries(w: World, after: World, pc: Pc)
    requires PcOk(w, pc) && Forward(w, after)
    ensures PcOk(after, pc)
  {
    hide HasCycle, IsDone;
    ForwardKeeps(w, after);
  }

  lemma TableStaysOk(w: World, a: Action)
    requires Inv(w) && Sensible(a)
    ensures TableOk(Execute(w, a)) && Forward(w, Execute(w, a))
  {
    hide HasCycle, IsDone;
    if a.Run? {
      var pc := w.PcOf(a.t);
      assert PcOk(w, pc);
      StatementKeepsTable(w.cycles, w.last, pc);
    }
  }

  lemma StatementKeepsTable(cycles: seq<Cycle>, last: nat, pc: Pc)
    requires CyclesOk(cycles, last) && (pc.UpdateStatus? ==> pc.status != Open)
    ensures var (after, last') := TableAfter(cycles, last, pc);
      CyclesOk(after, last') && Forward(World(cycles, last, map[]), World(after, last', map[]))
  {
    match pc
    case InsertIfNone(s, _, _) => InsertKeepsTable(cycles, last, s);
    case UpdateClosed(_, id) => RewriteKeepsTable(cycles, CloseById(cycles, id), last);
    case UpdateStatus(id, status) => RewriteKeepsTable(cycles, MarkById(cycles, id, status), last);
    case _ =>
  }

  lemma InsertKeepsTable(cycles: seq<Cycle>, last: nat, s: string)
    requires CyclesOk(cycles, last)
    ensures OpenCycle(cycles, s).None? ==> CyclesOk(cycles + [Cycle(last + 1, s, 0, Open, false, false)], last + 1)
  {
    OpenCycleFound(cycles, s);
  }

  lemma RewriteKeepsTable(cycles: seq<Cycle>, after: seq<Cycle>, last: nat)
    requires CyclesOk(cycles, last) && |after| == |cycles|
    requires forall i :: 0 <= i < |cycles| ==>
      && after[i].id == cycles[i].id && after[i].source == cycles[i].source
      && (after[i].status == Open ==> cycles[i].status == Open)
    ensures CyclesOk(after, last)
  {}

  lemma PcStaysOk(w: World, a: Action)
    requires Inv(w) && Sensible(a) && PcOk(w, w.PcOf(a.t)) && Forward(w, Execute(w, a))
    ensures PcOk(Execute(w, a), Execute(w, a).PcOf(a.t))
  {
    var after, pc := Execute(w, a), w.PcOf(a.t);
    ForwardKeeps(w, after);
    hide OpenCycle, CyclesOk;
    if a.Run? {
      match pc
      case SelectOpen(s, _, _) => FoundIsThere(w.cycles, s);
      case Reread(s, _, _) => FoundIsThere(w.cycles, s);
      case SelectToClose(s) => FoundIsThere(w.cycles, s);
      case UpdateClosed(s, id) =>
        var i :| 0 <= i < |w.cycles| && w.cycles[i].source == s && w.cycles[i].id == id;
        assert after.cycles[i].id == id && after.cycles[i].source == s && after.cycles[i].status != Open;
      case _ =>
    }
  }

  const EMPTY_WORLD := World([], 0, map[])

  // Any number of connections, any interleaving, stopped at any statement.
  lemma {:induction false} EveryInterleaving(actions: seq<Action>)
    requires forall i :: 0 <= i < |actions| ==> Sensible(actions[i])
    ensures Inv(ExecuteAll(EMPTY_WORLD, actions))
  {
    if actions != [] {
      EveryInterleaving(actions[..|actions| - 1]);
      OneStatement(ExecuteAll(EMPTY_WORLD, actions[..|actions| - 1]), actions[|actions| - 1]);
    }
  }

  // At most one open cycle per source; it has the source's highest id.
  lemma OpenCycleIsUnique(actions: seq<Action>, i: nat, j: nat)
    requires forall n :: 0 <= n < |actions| ==> Sensible(actions[n])
    requires i < |ExecuteAll(EMPTY_WORLD, actions).cycles| && j < |ExecuteAll(EMPTY_WORLD, actions).cycles|
    ensures var cycles := ExecuteAll(EMPTY_WORLD, actions).cycles;
      cycles[i].source == cycles[j].source && cycles[i].status == Open ==>
      cycles[j].id <= cycles[i].id && (cycles[j].status == Open ==> i == j)
  {
    EveryInterleaving(actions);
  }

  // A closed cycle never opens again, whatever runs afterwards.
  lemma {:induction false} ClosedStaysClosed(actions: seq<Action>, more: seq<Action>)
    requires forall i :: 0 <= i < |actions + more| ==> Sensible((actions + more)[i])
    ensures Forward(ExecuteAll(EMPTY_WORLD, actions), ExecuteAll(EMPTY_WORLD, actions + more))
  {
    var all := actions + more;
    if more == [] {
      assert all == actions;
    } else {
      var fewer := more[..|more| - 1];
      assert all[..|all| - 1] == actions + fewer;
      forall i | 0 <= i < |actions + fewer|
        ensures Sensible((actions + fewer)[i])
      {
        assert (actions + fewer)[i] == all[i];
      }
      ClosedStaysClosed(actions, fewer);
      EveryInterleaving(actions + fewer);
      OneStatement(ExecuteAll(EMPTY_WORLD, actions + fewer), all[|all| - 1]);
    }
  }

  // This statement closes the cycle `id`.
  predicate Closes(w: World, a: Action, id: nat) {
    a.Run? && match w.PcOf(a.t)
              case UpdateClosed(_, closed) => closed == id
              case UpdateStatus(marked, _) => marked == id
              case _ => false
  }

  predicate NoneCloses(w: World, actions: seq<Action>, id: nat) {
    forall i :: 0 <= i < |actions| ==> !Closes(ExecuteAll(w, actions[..i]), actions[i], id)
  }

  // The row of cycle `id` is open.
  ghost predicate IsOpen(w: World, s: string, id: nat) {
    exists i :: 0 <= i < |w.cycles| && w.cycles[i].source == s && w.cycles[i].id == id && w.cycles[i].status == Open
  }

  lemma OpenAfter(w: World, a: Action, s: string, id: nat)
    requires Inv(w) && Sensible(a) && HasCycle(w.cycles, s, id)
    ensures IsOpen(Execute(w, a), s, id) <==> IsOpen(w, s, id) && !Closes(w, a, id)
  {
    var after := Execute(w, a);
    TableStaysOk(w, a);
    var i :| 0 <= i < |w.cycles| && w.cycles[i].source == s && w.cycles[i].id == id;
    assert PcOk(w, w.PcOf(a.t)) && after.cycles[i].source == s && after.cycles[i].id == id;
    RowStatusAfter(w, a, i);
    OneRow(w, i);
    OneRow(after, i);
  }

  lemma OneRow(w: World, i: nat)
    requires TableOk(w) && i < |w.cycles|
    ensures IsOpen(w, w.cycles[i].source, w.cycles[i].id) <==> w.cycles[i].status == Open
  {}

  lemma RowStatusAfter(w: World, a: Action, i: nat)
    requires PcOk(w, w.PcOf(a.t)) && i < |w.cycles|
    ensures i < |Execute(w, a).cycles|
    ensures Execute(w, a).cycles[i].status == Open <==> w.cycles[i].status == Open && !Closes(w, a, w.cycles[i].id)
  {
    hide OpenCycle, PcAfter, HasCycle, IsDone;
  }

  // Between a connection's read of the open cycle and its use: the cycle is still open exactly
  // when no statement executed since closed it.
  lemma {:induction false} StaysOpenIff(w: World, actions: seq<Action>, s: string, id: nat)
    requires Inv(w) && IsOpen(w, s, id) && forall i :: 0 <= i < |actions| ==> Sensible(actions[i])
    ensures Inv(ExecuteAll(w, actions)) && HasCycle(ExecuteAll(w, actions).cycles, s, id)
    ensures IsOpen(ExecuteAll(w, actions), s, id) <==> NoneCloses(w, actions, id)
  {
    if actions == [] {
      OpenIsThere(w, s, id);
    } else {
      hide Inv, IsOpen, HasCycle, NoneCloses, Closes, Forward, Execute, Sensible;
      var n := |actions| - 1;
      var before := actions[..n];
      StaysOpenIff(w, before, s, id);
      OneStatement(ExecuteAll(w, before), actions[n]);
      ForwardKeeps(ExecuteAll(w, before), ExecuteAll(w, actions));
      OpenAfter(ExecuteAll(w, before), actions[n], s, id);
      NoneClosesAppend(w, actions, id);
    }
  }

  lemma OpenIsThere(w: World, s: string, id: nat)
    requires IsOpen(w, s, id)
    ensures HasCycle(w.cycles, s, id) && NoneCloses(w, [], id)
  {}

  lemma NoneClosesAppend(w: World, actions: seq<Action>, id: nat)
    requires actions != []
    ensures var n := |actions| - 1;
      NoneCloses(w, actions, id) <==>
        NoneCloses(w, actions[..n], id) && !Closes(ExecuteAll(w, actions[..n]), actions[n], id)
  {
    hide Closes, ExecuteAll;
    var n := |actions| - 1;
    assert forall i :: 0 <= i < n ==> actions[..n][..i] == actions[..i];
  }

  // ---------------------------------------------------------------- when ensure_open_cycle fails

  ghost predicate HasOpen(w: World, s: string) {
    exists id: nat :: IsOpen(w, s, id)
  }

  lemma OpenIsFound(w: World, s: string)
    ensures OpenCycle(w.cycles, s).Some? <==> HasOpen(w, s)
    ensures OpenCycle(w.cycles, s).Some? ==> IsOpen(w, s, OpenCycle(w.cycles, s).value.id)
  {
    OpenCycleFound(w.cycles, s);
    if OpenCycle(w.cycles, s).Some? {
      var i :| 0 <= i < |w.cycles| && w.cycles[i] == OpenCycle(w.cycles, s).value;
      assert IsOpen(w, s, w.cycles[i].id);
    }
  }

  // The last SELECT of ensure_open_cycle comes back empty exactly when the source has no open
  // cycle at that moment, whatever became of the one that was inserted.
  lemma RereadFailsIff(w: World, t: nat)
    requires w.PcOf(t).Reread?
    ensures Execute(w, Run(t)).PcOf(t) == NotCreated <==> !HasOpen(w, w.PcOf(t).s)
  {
    hide OpenCycle, IsOpen, HasOpen;
    OpenIsFound(w, w.PcOf(t).s);
  }

  // This statement gives the source an open cycle, or takes its open cycle away.
  predicate Opens(w: World, a: Action, s: string) {
    a.Run? && w.PcOf(a.t).InsertIfNone? && w.PcOf(a.t).s == s
  }

  ghost predicate ClosesOpen(w: World, a: Action, s: string) {
    exists id: nat :: IsOpen(w, s, id) && Closes(w, a, id)
  }

  // Whether the last of a source's openings and closings was an opening.
  ghost predicate LastIsOpening(w: World, actions: seq<Action>, s: string) {
    if actions == [] then HasOpen(w, s)
    else
      var n := |actions| - 1;
      var before := ExecuteAll(w, actions[..n]);
      if Opens(before, actions[n], s) then true
      else if ClosesOpen(before, actions[n], s) then false
      else LastIsOpening(w, actions[..n], s)
  }

  lemma OnlyOneOpen(w: World, s: string, x: nat, y: nat)
    requires TableOk(w) && IsOpen(w, s, x) && IsOpen(w, s, y)
    ensures x == y
  {}

  // A statement changes whether a source has an open cycle exactly by opening or closing one.
  lemma HasOpenAfter(w: World, a: Action, s: string)
    requires Inv(w) && Sensible(a)
    ensures HasOpen(Execute(w, a), s) <==> Opens(w, a, s) || (HasOpen(w, s) && !ClosesOpen(w, a, s))
  {
    hide IsOpen, Closes, Inv, HasCycle, CyclesOk, PcOk;
    var after := Execute(w, a);
    OneStatement(w, a);
    ForwardKeeps(w, after);
    assert TableOk(w) && TableOk(after) by { InvTable(w); InvTable(after); }
    forall id: nat | IsOpen(w, s, id) ensures IsOpen(after, s, id) <==> !Closes(w, a, id) {
      OpenIsThere(w, s, id);
      OpenAfter(w, a, s, id);
      forall x: nat | IsOpen(w, s, x) ensures x == id {
        OnlyOneOpen(w, s, x, id);
      }
    }
    if Opens(w, a, s) {
      InsertLeavesOpen(w, a, s);
    } else if HasOpen(after, s) {
      var id: nat :| IsOpen(after, s, id);
      NothingElseOpens(w, a, s, id);
      forall x: nat | IsOpen(w, s, x) ensures x == id {
        OnlyOneOpen(w, s, x, id);
      }
    }
  }

  lemma InvTable(w: World)
    requires Inv(w)
    ensures TableOk(w)
  {}

  lemma InsertLeavesOpen(w: World, a: Action, s: string)
    requires Opens(w, a, s)
    ensures HasOpen(Execute(w, a), s)
  {
    hide IsOpen, HasOpen;
    var after := Execute(w, a);
    OpenIsFound(after, s);
    if OpenCycle(w.cycles, s).None? {
      assert after.cycles[|after.cycles| - 1].source == s;
    }
  }

  lemma NothingElseOpens(w: World, a: Action, s: string, id: nat)
    requires Inv(w) && Sensible(a) && !Opens(w, a, s) && IsOpen(Execute(w, a), s, id)
    ensures IsOpen(w, s, id) && !Closes(w, a, id)
  {
    hide OpenCycle, PcAfter, HasCycle, IsDone, CyclesOk;
    var after := Execute(w, a);
    var i :| 0 <= i < |after.cycles| && after.cycles[i].source == s && after.cycles[i].id == id
      && after.cycles[i].status == Open;
    assert a.Run? ==> PcOk(w, w.PcOf(a.t)) by { IdleIsOk(w); }
    if i < |w.cycles| {
      if a.Run? { RowStatusAfter(w, a, i); }
      assert w.cycles[i].source == s && w.cycles[i].id == id;
    }
  }

  // From any moment on, whatever the connections do: the source has an open cycle exactly when
  // the last thing that happened to it in this respect was an opening.
  lemma {:induction false} HasOpenIff(w: World, actions: seq<Action>, s: string)
    requires Inv(w) && forall i :: 0 <= i < |actions| ==> Sensible(actions[i])
    ensures Inv(ExecuteAll(w, actions))
    ensures HasOpen(ExecuteAll(w, actions), s) <==> LastIsOpening(w, actions, s)
  {
    if actions != [] {
      hide Inv, HasOpen, Opens, ClosesOpen, Execute, Sensible;
      var n := |actions| - 1;
      HasOpenIff(w, actions[..n], s);
      OneStatement(ExecuteAll(w, actions[..n]), actions[n]);
      HasOpenAfter(ExecuteAll(w, actions[..n]), actions[n], s);
    }
  }

  ghost predicate NoneClosesOpen(w: World, actions: seq<Action>, s: string) {
    forall i :: 0 <= i < |actions| ==> !ClosesOpen(ExecuteAll(w, actions[..i]), actions[i], s)
  }

  lemma {:induction false} UnclosedIsOpening(w: World, actions: seq<Action>, s: string)
    requires HasOpen(w, s) && NoneClosesOpen(w, actions, s)
    ensures LastIsOpening(w, actions, s)
  {
    hide HasOpen, Opens, ClosesOpen, ExecuteAll;
    if actions != [] {
      var n := |actions| - 1;
      assert forall i :: 0 <= i < n ==> actions[..n][..i] == actions[..i];
      UnclosedIsOpening(w, actions[..n], s);
    }
  }

  lemma {:induction false} Undisturbed(w: World, actions: seq<Action>, t: nat)
    requires forall i :: 0 <= i < |actions| ==> actions[i].t != t
    ensures ExecuteAll(w, actions).PcOf(t) == w.PcOf(t)
  {
    hide TableAfter, PcAfter;
    if actions != [] {
      Undisturbed(w, actions[..|actions| - 1], t);
    }
  }

  // ensure_open_cycle from its INSERT on, with anything going on between that and the last SELECT:
  // it fails exactly when, since the INSERT, the source's last opening or closing was a closing. So
  // it succeeds if no statement between closed a cycle of the source.
  lemma EnsureFailsIff(w: World, t: nat, between: seq<Action>)
    requires Inv(w) && w.PcOf(t).InsertIfNone?
    requires forall i :: 0 <= i < |between| ==> Sensible(between[i]) && between[i].t != t
    ensures var inserted, s := Execute(w, Run(t)), w.PcOf(t).s;
      var pc := Execute(ExecuteAll(inserted, between), Run(t)).PcOf(t);
      && (pc == NotCreated <==> !LastIsOpening(inserted, between, s))
      && (NoneClosesOpen(inserted, between, s) ==> pc != NotCreated)
  {
    hide Inv, HasOpen, LastIsOpening, NoneClosesOpen, Execute, ExecuteAll, Sensible;
    var inserted, s := Execute(w, Run(t)), w.PcOf(t).s;
    OneStatement(w, Run(t)) by { assert Sensible(Run(t)) by { SensibleRun(t); } }
    InsertLeavesOpen(w, Run(t), s);
    InsertThenReread(w, t);
    Undisturbed(inserted, between, t) by { assert forall i :: 0 <= i < |between| ==> between[i].t != t; }
    HasOpenIff(inserted, between, s);
    RereadFailsIff(ExecuteAll(inserted, between), t);
    if NoneClosesOpen(inserted, between, s) {
      UnclosedIsOpening(inserted, between, s);
    }
  }

  lemma SensibleRun(t: nat)
    ensures Sensible(Run(t))
  {}

  lemma InsertThenReread(w: World, t: nat)
    requires w.PcOf(t).InsertIfNone?
    ensures Execute(w, Run(t)).PcOf(t).Reread? && Execute(w, Run(t)).PcOf(t).s == w.PcOf(t).s
  {}

  // ---------------------------------------------------------------- left alone

  // The tables as the methods of State see them; the time does not matter here.
  function Tables(w: World): Db {
    EMPTY.(cycles := w.cycles, lastCycle := w.last)
  }

  // A connection starts a program and executes `n` statements, with no other in between.
  function Solo(w: World, t: nat, p: Program, n: nat): World {
    if n == 0 then Execute(w, Start(t, p)) else Execute(Solo(w, t, p, n - 1), Run(t))
  }

  lemma AloneStep(w: World, t: nat, p: Program, n: nat)
    ensures var before, after := Solo(w, t, p, n), Solo(w, t, p, n + 1);
      && (after.cycles, after.last) == TableAfter(before.cycles, before.last, before.PcOf(t))
      && after.PcOf(t) == PcAfter(before.cycles, before.PcOf(t))
    ensures Solo(w, t, p, 0).PcOf(t) == First(p) && Solo(w, t, p, 0).cycles == w.cycles
    ensures Solo(w, t, p, 0).last == w.last
  {
    hide TableAfter, PcAfter;
  }

  lemma OpensAlone(w: World, s: string)
    ensures var after := EnsureOpen(Tables(w), s, 0); OpenCycle(after.cycles, s).Some?
  {
    var after := EnsureOpen(Tables(w), s, 0);
    if OpenCycle(w.cycles, s).None? {
      assert after.cycles[|after.cycles| - 1].source == s;
    }
  }

  // Statement by statement, a connection that is left alone does what State's method does in one
  // step: ensure_open_cycle, and the recording of an event,
  lemma AloneIsAtomic(w: World, t: nat, s: string, recording: bool)
    ensures var after := Solo(w, t, if recording then Record(s) else Ensure(s), if recording then 4 else 3);
      var ensured := EnsureOpen(Tables(w), s, 0);
      && after.cycles == ensured.cycles && after.last == ensured.lastCycle
      && after.PcOf(t) == if recording then Recorded(s, OpenIn(ensured, s)) else Ensured(s, OpenIn(ensured, s))
  {
    var p := if recording then Record(s) else Ensure(s);
    hide OpenCycle, Solo;
    OpensAlone(w, s);
    AloneStep(w, t, p, 0);
    AloneStep(w, t, p, 1);
    AloneStep(w, t, p, 2);
    AloneStep(w, t, p, 3);
  }

  // and the closing of a source's cycle.
  lemma ClosingAloneIsAtomic(w: World, t: nat, s: string)
    requires TableOk(w)
    ensures var after, closed := Solo(w, t, Close(s), 5), CloseCurrent(Tables(w), s, 0);
      && after.cycles == closed.cycles && after.last == closed.lastCycle
      && after.PcOf(t) == Reported(s, match OpenCycle(w.cycles, s) case None => None case Some(c) => Some(c.id))
  {
    hide OpenCycle, Solo, CloseById, CyclesOk;
    AloneStep(w, t, Close(s), 0);
    AloneStep(w, t, Close(s), 1);
    AloneStep(w, t, Close(s), 2);
    AloneStep(w, t, Close(s), 3);
    AloneStep(w, t, Close(s), 4);
    if OpenCycle(w.cycles, s).Some? {
      var closed := w.(cycles := CloseById(w.cycles, OpenCycle(w.cycles, s).value.id));
      OpensAlone(closed, s);
    }
  }

  // ---------------------------------------------------------------- what does not hold

  // Two connections and their statements.
  function Two(cycles: seq<Cycle>, last: nat, p0: Pc, p1: Pc): World {
    World(cycles, last, map[0 := p0, 1 := p1])
  }

  lemma RunTwo(cycles: seq<Cycle>, last: nat, p0: Pc, p1: Pc)
    ensures var (after, last') := TableAfter(cycles, last, p0);
      Execute(Two(cycles, last, p0, p1), Run(0)) == Two(after, last', PcAfter(cycles, p0), p1)
    ensures var (after, last') := TableAfter(cycles, last, p1);
      Execute(Two(cycles, last, p0, p1), Run(1)) == Two(after, last', p0, PcAfter(cycles, p1))
  {
    hide TableAfter, PcAfter;
  }

  // A reader finds no cycle and creates one, rereads it or not, and a closer closes it.
  function Schedule(p: Program, last: nat): seq<Action> {
    [Start(0, p), Start(1, Close("s")), Run(0), Run(0), Run(last), Run(1), Run(if last == 0 then 1 else 0)]
  }

  // ensure_open_cycle's last SELECT can come back empty: another connection closes the new
  // cycle first and has not opened the next one yet. A watcher that has read the open cycle
  // can insert its event after that cycle was closed.
  lemma RacesThatHappen()
    ensures ExecuteAll(EMPTY_WORLD, Schedule(Ensure("s"), 1)).PcOf(0) == NotCreated
    ensures var w := ExecuteAll(EMPTY_WORLD, Schedule(Record("s"), 0));
      w.PcOf(0) == InsertEvent("s", 1) && IsDone(w.cycles, "s", 1)
  {
    var c := Cycle(1, "s", 0, Open, false, false);
    Alone(c);
    hide *;
    Races(c, false);
    Races(c, true);
    ClosedRow(c);
  }

  // The one-row tables of the two schedules.
  lemma Alone(c: Cycle)
    requires c == Cycle(1, "s", 0, Open, false, false)
    ensures OpenCycle([], "s") == None && OpenCycle([c], "s") == Some(c)
    ensures OpenCycle([c.(status := Closed)], "s") == None
    ensures CloseById([c], 1) == [c.(status := Closed)]
  {
    assert [c.(status := Closed)][..0] == [];
  }

  lemma ClosedRow(c: Cycle)
    requires c == Cycle(1, "s", 0, Open, false, false)
    ensures IsDone([c.(status := Closed)], "s", 1)
  {
    assert [c.(status := Closed)][0].id == 1;
  }

  // What the statements of the two schedules do, one by one.
  lemma Statements(c: Cycle, recording: bool)
    requires c == Cycle(1, "s", 0, Open, false, false)
    ensures var insert, reread := InsertIfNone("s", recording, None), Reread("s", recording, None);
      var close, update := SelectToClose("s"), UpdateClosed("s", 1);
      && TableAfter([], 0, SelectOpen("s", recording, None)) == ([], 0)
        && PcAfter([], SelectOpen("s", recording, None)) == insert
      && TableAfter([], 0, insert) == ([c], 1) && PcAfter([], insert) == reread
      && TableAfter([c], 1, close) == ([c], 1) && PcAfter([c], close) == update
      && TableAfter([c], 1, update) == ([c.(status := Closed)], 1)
        && PcAfter([c], update) == SelectOpen("s", false, Some(1))
      && TableAfter([c], 1, reread) == ([c], 1) && PcAfter([c], reread) == Known("s", 1, recording, None)
      && TableAfter([c.(status := Closed)], 1, reread) == ([c.(status := Closed)], 1)
      && PcAfter([c.(status := Closed)], reread) == NotCreated
  {
    Alone(c);
    hide OpenCycle, CloseById;
    var none: seq<Cycle> := [];
    assert none + [c] == [c];
  }

  lemma Races(c: Cycle, recording: bool)
    requires c == Cycle(1, "s", 0, Open, false, false)
    ensures ExecuteAll(EMPTY_WORLD, if recording then Schedule(Record("s"), 0) else Schedule(Ensure("s"), 1))
         == Two([c.(status := Closed)], 1, if recording then InsertEvent("s", 1) else NotCreated, SelectOpen("s",
           false, Some(1)))
  {
    hide OpenCycle, CloseById, ExecuteAll, Execute, TableAfter, PcAfter, EMPTY_WORLD, Two;
    var actions := if recording then Schedule(Record("s"), 0) else Schedule(Ensure("s"), 1);
    var closed := [c.(status := Closed)];
    var p0, p1 := SelectOpen("s", recording, None), SelectToClose("s");
    var reread, update := Reread("s", recording, None), UpdateClosed("s", 1);
    Statements(c, recording);
    StartBoth(if recording then Record("s") else Ensure("s"));
    Unfold7(actions);
    RunTwo([], 0, p0, p1);
    RunTwo([], 0, InsertIfNone("s", recording, None), p1);
    if recording {
      RunTwo([c], 1, reread, p1);
      RunTwo([c], 1, InsertEvent("s", 1), p1);
      RunTwo([c], 1, InsertEvent("s", 1), update);
    } else {
      RunTwo([c], 1, reread, p1);
      RunTwo([c], 1, reread, update);
      RunTwo(closed, 1, reread, SelectOpen("s", false, Some(1)));
    }
  }

  lemma StartBoth(p: Program)
    ensures Execute(Execute(EMPTY_WORLD, Start(0, p)), Start(1, Close("s"))) == Two([], 0, First(p), SelectToClose("s"))
  {
    assert map[][0 := First(p)][1 := SelectToClose("s")] == map[0 := First(p), 1 := SelectToClose("s")];
  }

  lemma Unfold7(actions: seq<Action>)
    requires |actions| == 7
    ensures ExecuteAll(EMPTY_WORLD, actions)
         == Execute(Execute(Execute(Execute(Execute(Execute(Execute(EMPTY_WORLD,
              actions[0]), actions[1]), actions[2]), actions[3]), actions[4]), actions[5]), actions[6])
  {
    hide Execute;
    assert actions[..0] == [];
    forall n | 0 <= n < 7
      ensures ExecuteAll(EMPTY_WORLD, actions[..n + 1]) == Execute(ExecuteAll(EMPTY_WORLD, actions[..n]), actions[n])
    {
      assert actions[..n + 1][..n] == actions[..n];
    }
    assert actions[..7] == actions;
  }
}
