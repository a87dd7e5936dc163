// Runs of State methods: no event a destination still needs is ever pruned, targets are
// disciplined, and the displayed cycle never goes back.
module StateRuns {
  import opened Wrappers
  import opened Calendar
  import opened StateDb
  import opened StateInvariant

  // ---------------------------------------------------------------- filtering

  lemma {:induction false} FilterTwice(events: seq<Event>, p: Event -> bool, q: Event -> bool, both: Event -> bool)
    requires forall e :: e in events ==> (both(e) <==> p(e) && q(e))
    ensures Filter(Filter(events, p), q) == Filter(events, both)
  {
    if events != [] {
      var n := |events| - 1;
      var rest := Filter(events[..n], p);
      FilterTwice(events[..n], p, q, both);
      assert events[n] in events;
      if p(events[n]) {
        assert (rest + [events[n]])[..|rest|] == rest;
      } else {
        assert rest + [] == rest;
      }
    }
  }

  lemma {:induction false} FilterSame(events: seq<Event>, p: Event -> bool, q: Event -> bool)
    requires forall e :: e in events ==> (p(e) <==> q(e))
    ensures Filter(events, p) == Filter(events, q)
  {
    if events != [] {
      FilterSame(events[..|events| - 1], p, q);
      assert events[|events| - 1] in events;
    }
  }

  lemma {:induction false} FilterAll(events: seq<Event>, p: Event -> bool)
    requires forall e :: e in events ==> p(e)
    ensures Filter(events, p) == events
  {
    if events != [] {
      FilterAll(events[..|events| - 1], p);
      assert events[|events| - 1] in events;
    }
  }

  lemma {:induction false} FilterMembers(events: seq<Event>, p: Event -> bool)
    ensures forall e :: e in Filter(events, p) <==> e in events && p(e)
  {
    if events != [] {
      FilterMembers(events[..|events| - 1], p);
      assert events == events[..|events| - 1] + [events[|events| - 1]];
    }
  }

  lemma {:induction false} FilterIncreasing(events: seq<Event>, p: Event -> bool)
    requires forall i, j :: 0 <= i < j < |events| ==> events[i].id < events[j].id
    ensures forall i, j :: 0 <= i < j < |Filter(events, p)| ==> Filter(events, p)[i].id < Filter(events, p)[j].id
  {
    if events != [] {
      var n := |events| - 1;
      FilterIncreasing(events[..n], p);
      FilterMembers(events[..n], p);
      forall i | 0 <= i < |Filter(events[..n], p)|
        ensures Filter(events[..n], p)[i].id < events[n].id
      {
        assert Filter(events[..n], p)[i] in events[..n];
      }
    }
  }

  // ---------------------------------------------------------------- traces

  // The tables, and what a reader of the whole history knows: every event ever recorded, the
  // highest cycle each source was pruned up to, every target each destination was ever given,
  // and the cycle its last successful pass reached.
  datatype Trace = Trace(
    db: Db, recorded: seq<Event>, floor: map<string, nat>, given: map<Key, set<nat>>, passed: map<Key, nat>)
  {
    function Floor(s: string): nat {
      if s in floor then floor[s] else 0
    }

    function Given(k: Key): set<nat> {
      if k in given then given[k] else {}
    }

    // Not beyond `c`; a destination that never passed is not beyond anything.
    predicate PassedUpTo(k: Key, c: nat) {
      k in passed ==> passed[k] <= c
    }

    function AboveFloor(): Event -> bool {
      (e: Event) => Floor(e.source) <= e.cycle
    }
  }

  const START := Trace(EMPTY, [], map[], map[], map[])

  datatype Step =
    | OpenStep(source: string, at: int)
    | CloseStep(source: string, at: int)
    | MarkStep(cycle: nat, status: Status)
    | ManualStep(cycle: nat)  // a full pass is asked for by hand
    | ConfigStep(cfg: seq<SourceConfig>)
    | AdvanceStep(cfg: seq<SourceConfig>, at: int)
    | ForceAllStep(cfg: seq<SourceConfig>, at: int)
    | ForceSourceStep(cfg: seq<SourceConfig>, source: string, at: int)
    | ForceDestinationStep(cfg: seq<SourceConfig>, source: string, destination: string, at: int)
    | ReportStep(key: Key)  // a status without a verified cycle
    | ClearStep(key: Key)
    | ResetStep(key: Key)
    | ForgetStep(key: Key)  // the destination left the config
    | RecordStep(source: string, path: Option<string>, rescan: bool, at: int)
    | VerifyStep(key: Key, cycle: nat)  // a sync pass succeeded
    | PruneStep(src: SourceConfig)

  // The steps that neither record, verify nor prune.
  ghost function QuietDb(db: Db, step: Step): Db {
    match step
    case OpenStep(s, at) => EnsureOpen(db, s, at)
    case CloseStep(s, at) => CloseCurrent(db, s, at)
    case MarkStep(cycle, status) => db.(cycles := MarkById(db.cycles, cycle, status))
    case ManualStep(cycle) => db.(cycles := MarkManual(db.cycles, cycle))
    case ConfigStep(cfg) => EnsureConfig(db, cfg)
    case AdvanceStep(cfg, at) => AdvanceDue(db, cfg, at)
    case ForceAllStep(cfg, at) => ForceAll(db, cfg, at)
    case ForceSourceStep(cfg, s, at) => ForceSource(db, cfg, s, at)
    case ForceDestinationStep(cfg, s, d, at) => ForceDestination(db, cfg, s, d, at)
    case ReportStep(k) => UpsertVerified(db, k, None)
    case ClearStep(k) => ClearTarget(db, k)
    case ResetStep(k) => ResetRow(db, k)
    case ForgetStep(k) => ForgetRow(db, k)
    case _ => db
  }

  // The targets now standing are remembered as given.
  function Note(tr: Trace, db: Db): map<Key, set<nat>> {
    map k | k in tr.given.Keys + db.rows.Keys ::
      tr.Given(k) + if db.RowOf(k).target.Some? then {db.RowOf(k).target.value} else {}
  }

  ghost function Next(tr: Trace, step: Step): Trace {
    match step
    case RecordStep(s, path, rescan, at) =>
      var db := RecordEvent(tr.db, s, path, rescan, at);
      tr.(db := db, recorded := tr.recorded + [db.events[|db.events| - 1]])
    case VerifyStep(k, cycle) =>
      tr.(db := UpsertVerified(tr.db, k, Some(cycle)), passed := tr.passed[k := cycle])
    case PruneStep(src) =>
      (match PruneKeep(tr.db, src.id, src.destinations)
       case None => tr
       case Some(keep) =>
         tr.(db := PruneEvents(tr.db, src.id, keep),
             floor := tr.floor[src.id := if keep > tr.Floor(src.id) then keep else tr.Floor(src.id)]))
    case _ =>
      var db := QuietDb(tr.db, step);
      tr.(db := db, given := Note(tr, db))
  }

  // A pass reaches a cycle its destination was given, and never one behind an earlier pass. No
  // caller marks a cycle 'open'.
  ghost predicate Allowed(tr: Trace, step: Step) {
    match step
    case VerifyStep(k, cycle) => cycle in tr.Given(k) && tr.PassedUpTo(k, cycle)
    case MarkStep(_, status) => status != Open
    case _ => true
  }

  ghost function Run(tr: Trace, steps: seq<Step>): Trace {
    if steps == [] then tr else Next(Run(tr, steps[..|steps| - 1]), steps[|steps| - 1])
  }

  ghost predicate AllowedRun(tr: Trace, steps: seq<Step>) {
    steps == [] || (AllowedRun(tr, steps[..|steps| - 1]) && Allowed(Run(tr, steps[..|steps| - 1]), steps[|steps| - 1]))
  }

  // ---------------------------------------------------------------- the invariant

  ghost predicate LogIsUnpruned(tr: Trace) {
    && tr.db.events == Filter(tr.recorded, tr.AboveFloor())
    && (forall e :: e in tr.recorded ==> HasCycle(tr.db.cycles, e.source, e.cycle) && e.id <= tr.db.lastEvent)
    && (forall i, j :: 0 <= i < j < |tr.recorded| ==> tr.recorded[i].id < tr.recorded[j].id)
  }

  // Pruning never reaches a cycle that is still open.
  ghost predicate FloorsOk(tr: Trace) {
    forall s :: FloorOk(tr, s)
  }

  ghost predicate FloorOk(tr: Trace, s: string) {
    tr.Floor(s) <= tr.db.lastCycle
    && forall i :: 0 <= i < |tr.db.cycles| && tr.db.cycles[i].source == s && tr.db.cycles[i].status == Open ==>
         tr.Floor(s) < tr.db.cycles[i].id
  }

  ghost predicate HistoryOk(tr: Trace, k: Key) {
    var row := tr.db.RowOf(k);
    && (forall c :: c in tr.Given(k) ==> IsDone(tr.db.cycles, k.0, c))
    && (k in tr.passed ==> tr.passed[k] in tr.Given(k))
    && (row.verified.Some? ==> k in tr.passed && tr.passed[k] == row.verified.value)
    && (row.target.Some? ==> row.target.value in tr.Given(k) && forall c :: c in tr.Given(k) ==> c <= row.target.value)
  }

  ghost predicate Inv(tr: Trace) {
    Valid(tr.db) && LogIsUnpruned(tr) && FloorsOk(tr) && forall k :: HistoryOk(tr, k)
  }

  // What this destination can still verify lies above the pruned cycles.
  ghost predicate Guarded(tr: Trace, k: Key) {
    forall c :: c in tr.Given(k) && tr.PassedUpTo(k, c) ==> tr.Floor(k.0) <= c
  }

  // The destination is enabled whenever its source is pruned.
  ghost predicate Protects(step: Step, k: Key) {
    step.PruneStep? && step.src.id == k.0 ==>
      exists i :: 0 <= i < |step.src.destinations| && step.src.destinations[i].id == k.1
        && step.src.destinations[i].enabled
  }

  lemma StartInv()
    ensures Inv(START) && forall k :: Guarded(START, k)
  {}

  lemma QuietEvolves(db: Db, step: Step)
    requires Valid(db) && !step.RecordStep? && !step.VerifyStep? && !step.PruneStep?
    requires step.MarkStep? ==> step.status != Open
    ensures Evolves(db, QuietDb(db, step))
  {
    hide Valid, CyclesAdvance, AdvanceDue, ForceAll, ForceSource, ForceDestination;
    EvolvesSelf(db);
    match step
    case OpenStep(s, at) => EnsureOpenEvolves(db, s, at);
    case CloseStep(s, at) => CloseCurrentEvolves(db, s, at);
    case MarkStep(cycle, status) => RewriteEvolves(db, MarkById(db.cycles, cycle, status));
    case ManualStep(cycle) => RewriteEvolves(db, MarkManual(db.cycles, cycle));
    case ConfigStep(cfg) => EnsureConfigEvolves(db, cfg);
    case AdvanceStep(cfg, at) => AdvanceDueEvolves(db, cfg, at);
    case ForceAllStep(cfg, at) => ForcesEvolve(db, cfg, "", "", at);
    case ForceSourceStep(cfg, s, at) => ForcesEvolve(db, cfg, s, "", at);
    case ForceDestinationStep(cfg, s, d, at) => ForcesEvolve(db, cfg, s, d, at);
    case ReportStep(k) => RowUpdateEvolves(db, db, k, db.RowOf(k));
    case ClearStep(k) => RowUpdateEvolves(db, db, k, db.RowOf(k).(target := None));
    case ResetStep(k) => RowUpdateEvolves(db, db, k, NO_ROW);
    case ForgetStep(k) => ForgetRowEvolves(db, k);
    case _ =>
  }

  lemma NoteAssigns(tr: Trace, db: Db, k: Key)
    ensures tr.(db := db, given := Note(tr, db)).Given(k)
         == tr.Given(k) + if db.RowOf(k).target.Some? then {db.RowOf(k).target.value} else {}
  {}

  lemma QuietHistory(tr: Trace, db: Db, k: Key)
    requires Inv(tr) && Evolves(tr.db, db)
    ensures HistoryOk(tr.(db := db, given := Note(tr, db)), k)
  {
    hide Valid, CyclesAdvance, LogIsUnpruned, FloorsOk;
    DoneStaysFor(tr.db, db);
    NoteAssigns(tr, db, k);
    assert HistoryOk(tr, k) && RowEvolves(tr.db, db, k);
    assert Valid(db);
    RowTargetsDone(db, k);
  }

  lemma DoneStaysFor(before: Db, after: Db)
    requires Evolves(before, after)
    ensures forall s, id: nat :: IsDone(before.cycles, s, id) ==> IsDone(after.cycles, s, id)
  {
    DoneStays(before, after);
  }

  lemma RowTargetsDone(db: Db, k: Key)
    requires Valid(db)
    ensures db.RowOf(k).target.Some? ==> IsDone(db.cycles, k.0, db.RowOf(k).target.value)
  {}

  lemma QuietFloors(tr: Trace, db: Db, s: string)
    requires FloorOk(tr, s) && CyclesAdvance(tr.db, db)
    ensures FloorOk(tr.(db := db, given := Note(tr, db)), s)
  {
    var after := tr.(db := db, given := Note(tr, db));
    forall i | 0 <= i < |db.cycles| && db.cycles[i].source == s && db.cycles[i].status == Open
      ensures after.Floor(s) < db.cycles[i].id
    {
      if i < |tr.db.cycles| {
        assert tr.db.cycles[i].source == s && tr.db.cycles[i].status == Open;
      }
    }
  }

  lemma QuietStep(tr: Trace, db: Db)
    requires Inv(tr) && Evolves(tr.db, db)
    ensures var after := tr.(db := db, given := Note(tr, db));
      Inv(after) && StaysShown(tr.db, db) && forall k :: Guarded(tr, k) ==> Guarded(after, k)
  {
    var after := tr.(db := db, given := Note(tr, db));
    EvolvesStaysShown(tr.db, db);
    forall k
      ensures HistoryOk(after, k)
    {
      QuietHistory(tr, db, k);
    }
    forall s
      ensures FloorOk(after, s)
    {
      assert FloorOk(tr, s);
      QuietFloors(tr, db, s);
    }
    assert LogIsUnpruned(after) by {
      DoneStays(tr.db, db);
      FilterSame(tr.recorded, tr.AboveFloor(), after.AboveFloor());
    }
    forall k | Guarded(tr, k)
      ensures Guarded(after, k)
    {
      QuietGuard(tr, db, k);
    }
  }

  lemma QuietGuard(tr: Trace, db: Db, k: Key)
    requires Inv(tr) && Evolves(tr.db, db) && Guarded(tr, k)
    ensures Guarded(tr.(db := db, given := Note(tr, db)), k)
  {
    hide Valid, LogIsUnpruned;
    var after := tr.(db := db, given := Note(tr, db));
    NoteAssigns(tr, db, k);
    assert HistoryOk(tr, k) && RowEvolves(tr.db, db, k) && FloorOk(tr, k.0);
    if db.RowOf(k).target.Some? {
      var t := db.RowOf(k).target.value;
      if db.RowOf(k).target != tr.db.RowOf(k).target {
        FreshAboveFloor(tr, db, k.0, t);
      }
    }
  }

  // A freshly closed cycle lies above everything pruned.
  lemma FreshAboveFloor(tr: Trace, db: Db, s: string, t: nat)
    requires FloorOk(tr, s) && CyclesAdvance(tr.db, db) && Fresh(tr.db, db, s, t)
    ensures tr.Floor(s) <= t
  {
    var i :| 0 <= i < |db.cycles| && db.cycles[i].source == s && db.cycles[i].id == t && db.cycles[i].status != Open;
    if i < |tr.db.cycles| {
      assert tr.db.cycles[i].source == s && tr.db.cycles[i].id == t;
      assert tr.db.cycles[i].status != Open ==> IsDone(tr.db.cycles, s, t);
    }
  }

  // What recording does before it appends: the source's open cycle is there to record in.
  lemma RecordOpens(db: Db, s: string, rescan: bool, at: int) returns (marked: Db, i: nat)
    requires Valid(db)
    ensures marked == Reopened(db, s, rescan, at)
    ensures Evolves(db, marked) && marked.rows == db.rows
    ensures i < |marked.cycles| && marked.cycles[i].source == s && marked.cycles[i].status == Open
    ensures marked.cycles[i].id == OpenIn(EnsureOpen(db, s, at), s)
  {
    hide Valid, CyclesAdvance, RowEvolves, OpenCycle;
    var ready := EnsureOpen(db, s, at);
    EnsureOpenEvolves(db, s, at);
    marked := Reopened(db, s, rescan, at);
    RewriteEvolves(ready, marked.cycles);
    EvolvesChain(db, ready, marked);
    OpenCycleFound(ready.cycles, s);
    i :| 0 <= i < |ready.cycles| && ready.cycles[i] == OpenCycle(ready.cycles, s).value;
  }

  function Reopened(db: Db, s: string, rescan: bool, at: int): Db {
    var ready := EnsureOpen(db, s, at);
    ready.(cycles := if rescan then SetRescan(ready.cycles, OpenIn(ready, s)) else ready.cycles)
  }

  lemma RecordKeeps(tr: Trace, s: string, path: Option<string>, rescan: bool, at: int)
    requires Inv(tr)
    ensures var after := Next(tr, RecordStep(s, path, rescan, at));
      Inv(after) && StaysShown(tr.db, after.db) && forall k :: Guarded(tr, k) ==> Guarded(after, k)
  {
    hide Valid, Evolves, EnsureOpen, LogIsUnpruned, OpenIn, HistoryOk;
    var after := Next(tr, RecordStep(s, path, rescan, at));
    var db, i := RecordOpens(tr.db, s, rescan, at);
    var e := Event(db.lastEvent + 1, s, db.cycles[i].id, path, rescan);
    assert tr.Floor(s) <= e.cycle by {
      EvolvesCycles(tr.db, db);
      assert FloorOk(tr, s);
      QuietFloors(tr, db, s);
    }
    assert HasCycle(db.cycles, s, e.cycle);
    assert after.db.events[|after.db.events| - 1] == e;
    AppendLog(tr, db, after, e);
    AppendHistory(tr, db, after);
    AppendShows(tr.db, db, after.db, e);
  }

  lemma EvolvesCycles(before: Db, after: Db)
    requires Evolves(before, after)
    ensures CyclesAdvance(before, after)
  {}

  lemma AppendLog(tr: Trace, db: Db, after: Trace, e: Event)
    requires Inv(tr) && Evolves(tr.db, db)
    requires HasCycle(db.cycles, e.source, e.cycle) && e.id == db.lastEvent + 1 && tr.Floor(e.source) <= e.cycle
    requires after == tr.(db := after.db, recorded := tr.recorded + [e])
    requires after.db == db.(events := db.events + [e], lastEvent := e.id, observed := after.db.observed)
    ensures Valid(after.db) && LogIsUnpruned(after)
  {
    hide RowEvolves, FloorOk, HistoryOk;
    assert Valid(after.db) by {
      hide LogIsUnpruned;
      assert Valid(db);
      assert EventsOk(after.db);
    }
    assert LogIsUnpruned(after) by {
      hide Valid;
      EvolvesCycles(tr.db, db);
      DoneStays(tr.db, db);
      LogGrows(tr, after, e);
    }
  }

  lemma LogGrows(tr: Trace, after: Trace, e: Event)
    requires LogIsUnpruned(tr) && after.recorded == tr.recorded + [e] && after.floor == tr.floor
    requires after.db.events == tr.db.events + [e] && tr.db.lastEvent < e.id == after.db.lastEvent
    requires forall s, id: nat :: HasCycle(tr.db.cycles, s, id) ==> HasCycle(after.db.cycles, s, id)
    requires HasCycle(after.db.cycles, e.source, e.cycle) && tr.Floor(e.source) <= e.cycle
    ensures LogIsUnpruned(after)
  {
    hide HasCycle;
    FilterSame(tr.recorded, tr.AboveFloor(), after.AboveFloor());
    assert after.recorded[..|tr.recorded|] == tr.recorded;
    assert forall i :: 0 <= i < |tr.recorded| ==> tr.recorded[i] in tr.recorded;
  }

  lemma AppendHistory(tr: Trace, db: Db, after: Trace)
    requires Inv(tr) && Evolves(tr.db, db) && db.rows == tr.db.rows
    requires after == tr.(db := after.db, recorded := after.recorded)
    requires after.db.cycles == db.cycles && after.db.lastCycle == db.lastCycle && after.db.rows == db.rows
    ensures FloorsOk(after) && forall k :: HistoryOk(after, k)
    ensures forall k :: Guarded(tr, k) ==> Guarded(after, k)
  {
    hide Valid, LogIsUnpruned;
    forall s
      ensures FloorOk(after, s)
    {
      assert FloorOk(tr, s);
      QuietFloors(tr, db, s);
    }
    DoneStaysFor(tr.db, db);
    forall k
      ensures HistoryOk(after, k)
      ensures Guarded(tr, k) ==> Guarded(after, k)
    {
      assert HistoryOk(tr, k);
      if Guarded(tr, k) {
        GuardCarries(tr, after, k);
      }
    }
  }

  lemma AppendShows(before: Db, db: Db, after: Db, e: Event)
    requires Evolves(before, db) && after.cycles == db.cycles && after.events == db.events + [e]
    ensures StaysShown(before, after)
  {
    EvolvesStaysShown(before, db);
    forall s, id: nat | Showable(before, s, id)
      ensures Showable(after, s, id)
    {
      assert Showable(db, s, id);
      if HasActionable(db, s, id) {
        var i :| 0 <= i < |db.events| && IsActionableIn(db.events[i], s, id);
        assert IsActionableIn(after.events[i], s, id);
      }
    }
  }

  lemma GuardCarries(tr: Trace, after: Trace, k: Key)
    requires Guarded(tr, k) && after.given == tr.given
    requires forall c: nat :: after.PassedUpTo(k, c) ==> tr.PassedUpTo(k, c)
    requires after.Floor(k.0) <= tr.Floor(k.0) || forall c: nat :: after.PassedUpTo(k, c) ==> after.Floor(k.0) <= c
    ensures Guarded(after, k)
  {
    forall c | c in after.Given(k) && after.PassedUpTo(k, c)
      ensures after.Floor(k.0) <= c
    {
      assert c in tr.Given(k) && tr.PassedUpTo(k, c);
    }
  }

  lemma VerifyKeeps(tr: Trace, k: Key, cycle: nat)
    requires Inv(tr) && Allowed(tr, VerifyStep(k, cycle))
    ensures var after := Next(tr, VerifyStep(k, cycle));
      Inv(after) && StaysShown(tr.db, after.db) && forall k' :: Guarded(tr, k') ==> Guarded(after, k')
  {
    hide CyclesOk, EventsOk, HasCycle;
    var after := Next(tr, VerifyStep(k, cycle));
    assert HistoryOk(tr, k);
    assert LogIsUnpruned(after) by {
      FilterSame(tr.recorded, tr.AboveFloor(), after.AboveFloor());
    }
    assert EventsOk(after.db) by {
      EventsDependOnly(tr.db, after.db);
    }
    forall s
      ensures FloorOk(after, s)
    {
      assert FloorOk(tr, s);
    }
    forall k'
      ensures HistoryOk(after, k')
      ensures Guarded(tr, k') ==> Guarded(after, k')
    {
      assert HistoryOk(tr, k');
      if Guarded(tr, k') {
        GuardCarries(tr, after, k');
      }
    }
  }

  lemma EventsDependOnly(before: Db, after: Db)
    requires EventsOk(before) && after.events == before.events && after.cycles == before.cycles
    requires after.lastEvent == before.lastEvent
    ensures EventsOk(after)
  {}

  // ---------------------------------------------------------------- pruning

  predicate HasVerified(db: Db, s: string, d: DestinationConfig, v: Option<nat>) {
    d.enabled && db.RowOf((s, d.id)).verified == v
  }

  lemma {:induction false} LeastVerifiedIs(db: Db, s: string, ds: seq<DestinationConfig>)
    ensures LeastVerified(db, s, ds).Some? ==>
      exists i :: 0 <= i < |ds| && HasVerified(db, s, ds[i], LeastVerified(db, s, ds))
    ensures forall i :: 0 <= i < |ds| && ds[i].enabled && db.RowOf((s, ds[i].id)).verified.Some? ==>
      LeastVerified(db, s, ds).Some? && LeastVerified(db, s, ds).value <= db.RowOf((s, ds[i].id)).verified.value
  {
    if ds != [] {
      LeastVerifiedIs(db, s, ds[..|ds| - 1]);
    }
  }

  // Pruning goes by the least cycle that the enabled destinations verified; it waits until there
  // is one and none of them is without.
  lemma PruneKeepIff(db: Db, s: string, ds: seq<DestinationConfig>, keep: nat)
    ensures PruneKeep(db, s, ds) == Some(keep) <==>
      && (exists i :: 0 <= i < |ds| && HasVerified(db, s, ds[i], Some(keep)))
      && forall i :: 0 <= i < |ds| && ds[i].enabled ==>
           var verified := db.RowOf((s, ds[i].id)).verified; verified.Some? && keep <= verified.value
  {
    LeastVerifiedIs(db, s, ds);
  }

  // The pruned cycles were verified by every enabled destination, and the open cycle was not
  // among them.
  lemma PruneKeepBounds(db: Db, s: string, ds: seq<DestinationConfig>, keep: nat)
    requires Valid(db) && PruneKeep(db, s, ds) == Some(keep)
    ensures IsDone(db.cycles, s, keep)
    ensures forall i :: 0 <= i < |ds| && ds[i].enabled ==>
      db.RowOf((s, ds[i].id)).verified.Some? && keep <= db.RowOf((s, ds[i].id)).verified.value
  {
    LeastVerifiedIs(db, s, ds);
  }

  lemma PruneKeeps(tr: Trace, src: SourceConfig, k: Key)
    requires Inv(tr)
    ensures var after := Next(tr, PruneStep(src));
      && Inv(after) && StaysShown(tr.db, after.db)
      && (Protects(PruneStep(src), k) && Guarded(tr, k) ==> Guarded(after, k))
  {
    hide Valid, LogIsUnpruned, FloorOk, StaysShown, PruneKeep;
    var after := Next(tr, PruneStep(src));
    match PruneKeep(tr.db, src.id, src.destinations)
    case None => StaysSame(tr.db);
    case Some(keep) =>
      PruneKeepBounds(tr.db, src.id, src.destinations, keep);
      PruneLog(tr, src.id, keep, after);
      PruneFloors(tr, src.id, keep, after);
      PruneShows(tr.db, src.id, keep);
      forall k'
        ensures HistoryOk(after, k')
      {
        assert HistoryOk(tr, k');
      }
      if Protects(PruneStep(src), k) && Guarded(tr, k) {
        PruneGuards(tr, src, keep, after, k);
      }
  }

  lemma StaysSame(db: Db)
    ensures StaysShown(db, db)
  {}

  lemma PruneGuards(tr: Trace, src: SourceConfig, keep: nat, after: Trace, k: Key)
    requires Inv(tr) && Guarded(tr, k) && Protects(PruneStep(src), k)
    requires after == tr.(db := after.db, floor := after.floor)
    requires after.floor == tr.floor[src.id := if keep > tr.Floor(src.id) then keep else tr.Floor(src.id)]
    requires forall i :: 0 <= i < |src.destinations| && src.destinations[i].enabled ==>
      var row := tr.db.RowOf((src.id, src.destinations[i].id)); row.verified.Some? && keep <= row.verified.value
    ensures Guarded(after, k)
  {
    hide Valid, LogIsUnpruned, FloorOk;
    if k.0 == src.id {
      assert HistoryOk(tr, k);
      var i :| 0 <= i < |src.destinations| && src.destinations[i].id == k.1 && src.destinations[i].enabled;
      assert keep <= tr.db.RowOf((src.id, src.destinations[i].id)).verified.value == tr.passed[k];
      if keep > tr.Floor(src.id) {
        GuardCarries(tr, after, k);
      } else {
        GuardCarries(tr, after, k);
      }
    } else {
      GuardCarries(tr, after, k);
    }
  }

  lemma PruneLog(tr: Trace, s: string, keep: nat, after: Trace)
    requires Inv(tr)
    requires after == tr.(db := PruneEvents(tr.db, s, keep),
                          floor := tr.floor[s := if keep > tr.Floor(s) then keep else tr.Floor(s)])
    ensures Valid(after.db) && LogIsUnpruned(after)
  {
    hide HistoryOk, FloorOk, Valid;
    PruneValid(tr.db, s, keep);
    FilterTwice(tr.recorded, tr.AboveFloor(), Survives(s, keep), after.AboveFloor());
  }

  lemma PruneValid(db: Db, s: string, keep: nat)
    requires Valid(db)
    ensures Valid(PruneEvents(db, s, keep))
  {
    hide CyclesOk, HasCycle, IsDone, Filter;
    var after := PruneEvents(db, s, keep);
    FilterMembers(db.events, Survives(s, keep));
    FilterIncreasing(db.events, Survives(s, keep));
    assert RowsOk(after);
    forall i | 0 <= i < |after.events|
      ensures after.events[i].id <= after.lastEvent
      ensures HasCycle(after.cycles, after.events[i].source, after.events[i].cycle)
    {
      assert after.events[i] in db.events;
    }
  }

  lemma PruneFloors(tr: Trace, s: string, keep: nat, after: Trace)
    requires Inv(tr) && IsDone(tr.db.cycles, s, keep)
    requires after == tr.(db := PruneEvents(tr.db, s, keep),
                          floor := tr.floor[s := if keep > tr.Floor(s) then keep else tr.Floor(s)])
    ensures FloorsOk(after)
  {
    DoneBelowOpen(tr.db, s, keep);
    hide Valid, LogIsUnpruned, HistoryOk;
    forall s'
      ensures FloorOk(after, s')
    {
      assert FloorOk(tr, s');
    }
  }

  lemma DoneBelowOpen(db: Db, s: string, id: nat)
    requires Valid(db) && IsDone(db.cycles, s, id)
    ensures id <= db.lastCycle
    ensures forall i :: 0 <= i < |db.cycles| && db.cycles[i].source == s && db.cycles[i].status == Open ==>
      id < db.cycles[i].id
  {
    forall i | 0 <= i < |db.cycles| && db.cycles[i].source == s && db.cycles[i].status == Open
      ensures id < db.cycles[i].id
    {
      OpenIsNewest(db, s, i);
    }
  }

  lemma PruneShows(db: Db, s: string, keep: nat)
    requires Valid(db) && IsDone(db.cycles, s, keep)
    ensures StaysShown(db, PruneEvents(db, s, keep))
  {
    var after := PruneEvents(db, s, keep);
    FilterMembers(db.events, Survives(s, keep));
    forall s', id: nat | Showable(db, s', id) && !IsDone(db.cycles, s', id)
      ensures Showable(after, s', id)
    {
      var c :| 0 <= c < |db.cycles| && db.cycles[c].source == s' && db.cycles[c].id == id;
      OpenIsNewest(db, s', c);
      var i :| 0 <= i < |db.events| && IsActionableIn(db.events[i], s', id);
      assert db.events[i] in after.events;
      var j :| 0 <= j < |after.events| && after.events[j] == db.events[i];
      assert IsActionableIn(after.events[j], s', id);
    }
  }

  // ---------------------------------------------------------------- every step, every run

  lemma StepKeeps(tr: Trace, step: Step, k: Key)
    requires Inv(tr) && Allowed(tr, step)
    ensures Inv(Next(tr, step)) && StaysShown(tr.db, Next(tr, step).db)
    ensures Protects(step, k) && Guarded(tr, k) ==> Guarded(Next(tr, step), k)
  {
    hide Inv, Guarded, Protects, StaysShown;
    match step
    case RecordStep(s, path, rescan, at) => RecordKeeps(tr, s, path, rescan, at);
    case VerifyStep(key, cycle) => VerifyKeeps(tr, key, cycle);
    case PruneStep(src) => PruneKeeps(tr, src, k);
    case _ =>
      InvValid(tr);
      QuietEvolves(tr.db, step);
      QuietStep(tr, QuietDb(tr.db, step));
  }

  lemma InvValid(tr: Trace)
    requires Inv(tr)
    ensures Valid(tr.db)
  {}

  lemma {:induction false} RunKeeps(steps: seq<Step>, k: Key)
    requires AllowedRun(START, steps)
    ensures Inv(Run(START, steps))
    ensures (forall i :: 0 <= i < |steps| ==> Protects(steps[i], k)) ==> Guarded(Run(START, steps), k)
  {
    if steps == [] {
      StartInv();
    } else {
      var before := steps[..|steps| - 1];
      RunKeeps(before, k);
      StepKeeps(Run(START, before), steps[|steps| - 1], k);
    }
  }

  // In every run, for every destination that was enabled at each prune of its source: every
  // event ever recorded after its verified cycle is still in the log, and the backlog query
  // returns exactly the recorded events of its range, in order.
  lemma NoNeededEventIsPruned(steps: seq<Step>, k: Key, through: nat)
    requires AllowedRun(START, steps) && forall i :: 0 <= i < |steps| ==> Protects(steps[i], k)
    requires Run(START, steps).db.RowOf(k).verified.Some?
    ensures var tr := Run(START, steps);
      var v := tr.db.RowOf(k).verified.value;
      && (forall e :: e in tr.recorded && e.source == k.0 && e.cycle > v ==> e in tr.db.events)
      && EventsBetween(tr.db, k.0, v, through) == Filter(tr.recorded, InBacklog(k.0, v, through))
  {
    var tr := Run(START, steps);
    var v := tr.db.RowOf(k).verified.value;
    RunKeeps(steps, k);
    assert HistoryOk(tr, k);
    assert tr.Floor(k.0) <= v;
    FilterMembers(tr.recorded, tr.AboveFloor());
    FilterTwice(tr.recorded, tr.AboveFloor(), InBacklog(k.0, v, through), InBacklog(k.0, v, through));
  }

  // The displayed cycle never goes back, over every run and its continuation.
  lemma {:induction false} DisplayedCycleNeverGoesBack(steps: seq<Step>, more: seq<Step>, s: string)
    requires AllowedRun(START, steps + more)
    ensures AllowedRun(START, steps)
    ensures var before, after := Display(Run(START, steps).db, s), Display(Run(START, steps + more).db, s);
      before.Some? ==> after.Some? && before.value <= after.value
    decreases |more|
  {
    if more == [] {
      assert steps + more == steps;
    } else {
      var all := steps + more;
      var fewer := more[..|more| - 1];
      assert all[..|all| - 1] == steps + fewer;
      DisplayedCycleNeverGoesBack(steps, fewer, s);
      RunKeeps(steps + fewer, ("", ""));
      StepKeeps(Run(START, steps + fewer), all[|all| - 1], ("", ""));
      DisplayNeverDrops(Run(START, steps + fewer).db, Run(START, all).db, s);
    }
  }

  // A destination never stands beyond its target.
  lemma VerifiedNeverPassesTarget(steps: seq<Step>, k: Key)
    requires AllowedRun(START, steps)
    ensures var row := Run(START, steps).db.RowOf(k);
      row.target.Some? && row.verified.Some? ==> row.verified.value <= row.target.value
  {
    RunKeeps(steps, k);
    assert HistoryOk(Run(START, steps), k);
  }

  // What a pass applies without a full comparison: exactly the paths recorded since the
  // destination last verified, none of which asked for a rescan.
  lemma IncrementalPlanIsComplete(steps: seq<Step>, k: Key, cycle: Cycle)
    requires AllowedRun(START, steps) && forall i :: 0 <= i < |steps| ==> Protects(steps[i], k)
    ensures var tr := Run(START, steps);
      var plan := PlanFor(tr.db, k.0, cycle, k.1);
      && !plan.Unusable?
      && (plan.Incremental? ==>
           && tr.db.RowOf(k).verified.Some?
           && var due := Filter(tr.recorded, InBacklog(k.0, tr.db.RowOf(k).verified.value, cycle.id));
              plan.paths == PathsOf(due) && forall e :: e in due ==> !e.rescan)
  {
    var tr := Run(START, steps);
    if tr.db.RowOf(k).verified.Some? {
      NoNeededEventIsPruned(steps, k, cycle.id);
    }
  }

  // Pruning on behalf of the enabled destinations only: a destination that is disabled at that
  // moment keeps its whole backlog exactly when nothing was recorded for it below the others.
  lemma PruneLosesExactly(tr: Trace, src: SourceConfig, d: string, v: nat, keep: nat)
    requires Inv(tr) && tr.db.RowOf((src.id, d)).verified == Some(v)
    requires PruneKeep(tr.db, src.id, src.destinations) == Some(keep)
    ensures var after := Next(tr, PruneStep(src));
      (forall e :: e in tr.db.events && e.source == src.id && v < e.cycle ==> e in after.db.events) <==>
      !exists e :: e in tr.db.events && e.source == src.id && v < e.cycle < keep
    ensures HasEnabled(src, d) ==> keep <= v
  {
    hide Valid, LogIsUnpruned, FloorOk, HistoryOk, Filter, PruneKeep;
    FilterMembers(tr.db.events, Survives(src.id, keep));
    PruneKeepBounds(tr.db, src.id, src.destinations, keep);
  }
}
