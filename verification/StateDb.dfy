// The tables of src/core/state.rs as a value, and what each State method does to them.
module StateDb {
  import opened Wrappers
  import opened Calendar

  datatype Status = Open | Closed | Planning | Syncing | Failed | Verified

  datatype Cycle = Cycle(
    id: nat, source: string, startsAt: int, status: Status, needsRescan: bool, manualRescan: bool)

  datatype Event = Event(id: nat, source: string, cycle: nat, path: Option<string>, rescan: bool)
  {
    predicate Actionable() { path.Some? || rescan }
  }

  // (source id, destination id)
  type Key = (string, string)

  // A destination_offset row.
  datatype Row = Row(target: Option<nat>, verified: Option<nat>)
  {
    // The target is still ahead of the last verified cycle; NULL is behind every target.
    predicate Pending() {
      target.Some? && (verified.None? || verified.value < target.value)
    }
  }

  const NO_ROW := Row(None, None)

  // `lastCycle` and `lastEvent` are the AUTOINCREMENT counters; `observed` is source_meta.
  datatype Db = Db(
    cycles: seq<Cycle>, lastCycle: nat, rows: map<Key, Row>,
    events: seq<Event>, lastEvent: nat, observed: map<string, int>)
  {
    function RowOf(k: Key): Row {
      if k in rows then rows[k] else NO_ROW
    }
  }

  const EMPTY := Db([], 0, map[], [], 0, map[])

  datatype DestinationConfig = DestinationConfig(id: string, enabled: bool, paused: bool, schedule: Schedule)

  datatype SourceConfig = SourceConfig(id: string, enabled: bool, destinations: seq<DestinationConfig>)

  // ---------------------------------------------------------------- cycles

  // SELECT ... WHERE source_id = s AND status = 'open' ORDER BY id DESC LIMIT 1
  function OpenCycle(cycles: seq<Cycle>, s: string): Option<Cycle> {
    if cycles == [] then None
    else
      var last := cycles[|cycles| - 1];
      if last.source == s && last.status == Open then Some(last) else OpenCycle(cycles[..|cycles| - 1], s)
  }

  // SELECT MAX(id) ... WHERE source_id = s AND status <> 'open'
  function LatestClosed(cycles: seq<Cycle>, s: string): Option<nat> {
    if cycles == [] then None
    else
      var last, rest := cycles[|cycles| - 1], LatestClosed(cycles[..|cycles| - 1], s);
      if last.source == s && last.status != Open && (rest.None? || rest.value < last.id) then Some(last.id) else rest
  }

  function EnsureOpen(db: Db, s: string, at: int): Db {
    if OpenCycle(db.cycles, s).Some? then db
    else db.(cycles := db.cycles + [Cycle(db.lastCycle + 1, s, at, Open, false, false)], lastCycle := db.lastCycle + 1)
  }

  // UPDATE ... SET status = 'closed' WHERE id = id AND status = 'open'
  function CloseById(cycles: seq<Cycle>, id: nat): seq<Cycle> {
    seq(|cycles|, i requires 0 <= i < |cycles| =>
      if cycles[i].id == id && cycles[i].status == Open then cycles[i].(status := Closed) else cycles[i])
  }

  function MarkById(cycles: seq<Cycle>, id: nat, status: Status): seq<Cycle> {
    seq(|cycles|, i requires 0 <= i < |cycles| =>
      if cycles[i].id == id then cycles[i].(status := status) else cycles[i])
  }

  function SetRescan(cycles: seq<Cycle>, id: nat): seq<Cycle> {
    seq(|cycles|, i requires 0 <= i < |cycles| =>
      if cycles[i].id == id then cycles[i].(needsRescan := true) else cycles[i])
  }

  // A full pass asked for by hand.
  function MarkManual(cycles: seq<Cycle>, id: nat): seq<Cycle> {
    seq(|cycles|, i requires 0 <= i < |cycles| =>
      if cycles[i].id == id then cycles[i].(needsRescan := true, manualRescan := true) else cycles[i])
  }

  // A pending manual request keeps the flag.
  function ClearRescan(cycles: seq<Cycle>, id: nat): seq<Cycle> {
    seq(|cycles|, i requires 0 <= i < |cycles| =>
      if cycles[i].id == id && !cycles[i].manualRescan then cycles[i].(needsRescan := false) else cycles[i])
  }

  // Closes the open cycle, if any, and opens its successor.
  function CloseCurrent(db: Db, s: string, at: int): Db {
    match OpenCycle(db.cycles, s)
    case None => db
    case Some(c) => EnsureOpen(db.(cycles := CloseById(db.cycles, c.id)), s, at)
  }

  // ---------------------------------------------------------------- destination offsets

  function SetTarget(db: Db, k: Key, cycle: nat): Db {
    db.(rows := db.rows[k := db.RowOf(k).(target := Some(cycle))])
  }

  // No effect when there is no row.
  function ClearTarget(db: Db, k: Key): Db {
    if k in db.rows then db.(rows := db.rows[k := db.rows[k].(target := None)]) else db
  }

  function ResetRow(db: Db, k: Key): Db {
    db.(rows := db.rows[k := NO_ROW])
  }

  function ForgetRow(db: Db, k: Key): Db {
    db.(rows := db.rows - {k})
  }

  // COALESCE keeps the verified cycle when none is given.
  function UpsertVerified(db: Db, k: Key, verified: Option<nat>): Db {
    var row := db.RowOf(k);
    db.(rows := db.rows[k := if verified.Some? then row.(verified := verified) else row])
  }

  function EnsureRows(db: Db, s: string, ds: seq<DestinationConfig>): Db {
    if ds == [] then db
    else
      var before := EnsureRows(db, s, ds[..|ds| - 1]);
      var k := (s, ds[|ds| - 1].id);
      before.(rows := before.rows[k := before.RowOf(k)])
  }

  function EnsureConfig(db: Db, cfg: seq<SourceConfig>): Db {
    if cfg == [] then db
    else
      var last := cfg[|cfg| - 1];
      EnsureRows(EnsureConfig(db, cfg[..|cfg| - 1]), last.id, last.destinations)
  }

  function EnsureOpenCycles(db: Db, cfg: seq<SourceConfig>, at: int): Db {
    if cfg == [] then db
    else
      var before, last := EnsureOpenCycles(db, cfg[..|cfg| - 1], at), cfg[|cfg| - 1];
      if last.enabled then EnsureOpen(before, last.id, at) else before
  }

  // ---------------------------------------------------------------- events

  function RecordEvent(db: Db, s: string, path: Option<string>, rescan: bool, at: int): Db {
    var ready := EnsureOpen(db, s, at);
    var c := OpenIn(ready, s);
    var seen := if s in ready.observed && ready.observed[s] > at then ready.observed[s] else at;
    ready.(
      cycles := if rescan then SetRescan(ready.cycles, c) else ready.cycles,
      events := ready.events + [Event(ready.lastEvent + 1, s, c, path, rescan)],
      lastEvent := ready.lastEvent + 1,
      observed := ready.observed[s := seen])
  }

  // The id of the open cycle, which the callers have just ensured.
  function OpenIn(db: Db, s: string): nat {
    match OpenCycle(db.cycles, s)
    case Some(c) => c.id
    case None => 0
  }

  function Filter(events: seq<Event>, keep: Event -> bool): seq<Event> {
    if events == [] then []
    else Filter(events[..|events| - 1], keep) + if keep(events[|events| - 1]) then [events[|events| - 1]] else []
  }

  // WHERE source_id = s AND cycle_id > after AND cycle_id <= through
  function InBacklog(s: string, after: nat, through: nat): Event -> bool {
    (e: Event) => e.source == s && after < e.cycle <= through
  }

  function EventsBetween(db: Db, s: string, after: nat, through: nat): seq<Event> {
    Filter(db.events, InBacklog(s, after, through))
  }

  predicate HasActionable(db: Db, s: string, cycle: nat) {
    exists i :: 0 <= i < |db.events| && IsActionableIn(db.events[i], s, cycle)
  }

  predicate IsActionableIn(e: Event, s: string, cycle: nat) {
    e.source == s && e.cycle == cycle && e.Actionable()
  }

  // What survives DELETE ... WHERE source_id = s AND cycle_id < keep.
  function Survives(s: string, keep: nat): Event -> bool {
    (e: Event) => !(e.source == s && e.cycle < keep)
  }

  function PruneEvents(db: Db, s: string, keep: nat): Db {
    db.(events := Filter(db.events, Survives(s, keep)))
  }

  // The least verified cycle of the enabled destinations; nothing to prune when one of them
  // has never verified, or when there is none.
  function PruneKeep(db: Db, s: string, ds: seq<DestinationConfig>): Option<nat> {
    if AnyUnverified(db, s, ds) then None else LeastVerified(db, s, ds)
  }

  predicate AnyUnverified(db: Db, s: string, ds: seq<DestinationConfig>) {
    exists i :: 0 <= i < |ds| && ds[i].enabled && db.RowOf((s, ds[i].id)).verified.None?
  }

  function LeastVerified(db: Db, s: string, ds: seq<DestinationConfig>): Option<nat> {
    if ds == [] then None
    else
      var d, rest := ds[|ds| - 1], LeastVerified(db, s, ds[..|ds| - 1]);
      var v := db.RowOf((s, d.id)).verified;
      if !d.enabled || v.None? then rest
      else if rest.None? || v.value < rest.value then v else rest
  }

  function PruneVerified(db: Db, src: SourceConfig): Db {
    match PruneKeep(db, src.id, src.destinations)
    case None => db
    case Some(keep) => PruneEvents(db, src.id, keep)
  }

  // ---------------------------------------------------------------- targets

  const QUIESCENCE := 10

  predicate Quiesced(db: Db, s: string, now: int) {
    s !in db.observed || now - db.observed[s] >= QUIESCENCE
  }

  // Whether this destination is given a target when the cycle begun at `startsAt` is looked at.
  ghost predicate DueNow(db: Db, s: string, d: DestinationConfig, startsAt: int, openHasEvents: bool, now: int) {
    var row := db.RowOf((s, d.id));
    && d.enabled && !d.paused && !row.Pending()
    && if row == NO_ROW then true
       else if d.schedule.Realtime? then openHasEvents
       else d.schedule.Due(startsAt, now)
  }

  ghost function DueDestinations(db: Db, s: string, ds: seq<DestinationConfig>, startsAt: int, openHasEvents: bool,
      now: int): seq<string> {
    if ds == [] then []
    else
      var d := ds[|ds| - 1];
      DueDestinations(db, s, ds[..|ds| - 1], startsAt, openHasEvents, now) +
      if DueNow(db, s, d, startsAt, openHasEvents, now) then [d.id] else []
  }

  predicate AllRealtime(ds: seq<DestinationConfig>, ids: seq<string>) {
    forall i :: 0 <= i < |ids| ==> exists j :: 0 <= j < |ds| && ds[j].id == ids[i] && ds[j].schedule.Realtime?
  }

  function SetTargets(db: Db, s: string, ids: seq<string>, cycle: nat): Db {
    if ids == [] then db
    else SetTarget(SetTargets(db, s, ids[..|ids| - 1], cycle), (s, ids[|ids| - 1]), cycle)
  }

  ghost function AdvanceSource(db: Db, src: SourceConfig, now: int): Db {
    match OpenCycle(db.cycles, src.id)
    case None => db
    case Some(c) =>
      var hasEvents := HasActionable(db, src.id, c.id);
      var due := DueDestinations(db, src.id, src.destinations, c.startsAt, hasEvents, now);
      if due == [] then
        if hasEvents && Quiesced(db, src.id, now) then CloseCurrent(db, src.id, now) else db
      else
        var closed := CloseCurrent(db, src.id, now);
        var settled :=
          if !c.needsRescan && AllRealtime(src.destinations, due) then closed.(cycles := ClearRescan(closed.cycles,
            c.id))
          else closed;
        SetTargets(settled, src.id, due, c.id)
  }

  // The cycle a tick closes for a source, as the caller gets it.
  ghost function TickCloses(db: Db, src: SourceConfig, now: int): Option<Cycle> {
    match OpenCycle(db.cycles, src.id)
    case None => None
    case Some(c) =>
      var hasEvents := HasActionable(db, src.id, c.id);
      if DueDestinations(db, src.id, src.destinations, c.startsAt, hasEvents, now) != []
         || (hasEvents && Quiesced(db, src.id, now))
      then Some(c.(status := Closed)) else None
  }

  ghost function TickClosesAll(db: Db, cfg: seq<SourceConfig>, now: int): seq<Cycle> {
    if cfg == [] then []
    else
      var front, last := cfg[..|cfg| - 1], cfg[|cfg| - 1];
      TickClosesAll(db, front, now) +
      if last.enabled then Listed(TickCloses(AdvanceSources(db, front, now), last, now)) else []
  }

  function Listed(c: Option<Cycle>): seq<Cycle> {
    if c.Some? then [c.value] else []
  }

  ghost function AdvanceSources(db: Db, cfg: seq<SourceConfig>, now: int): Db {
    if cfg == [] then db
    else
      var before, last := AdvanceSources(db, cfg[..|cfg| - 1], now), cfg[|cfg| - 1];
      if last.enabled then AdvanceSource(before, last, now) else before
  }

  function Prepare(db: Db, cfg: seq<SourceConfig>, now: int): Db {
    EnsureOpenCycles(EnsureConfig(db, cfg), cfg, now)
  }

  ghost function AdvanceDue(db: Db, cfg: seq<SourceConfig>, now: int): Db {
    AdvanceSources(Prepare(db, cfg, now), cfg, now)
  }

  // Paused destinations are left alone.
  function Forceable(ds: seq<DestinationConfig>): seq<string> {
    if ds == [] then []
    else
      var d := ds[|ds| - 1];
      Forceable(ds[..|ds| - 1]) + if d.enabled && !d.paused then [d.id] else []
  }

  // Closes the open cycle and gives it as a target to `ids`.
  function CloseAndTarget(db: Db, s: string, ids: seq<string>, at: int): Db {
    match OpenCycle(db.cycles, s)
    case None => db
    case Some(c) => SetTargets(CloseCurrent(db, s, at), s, ids, c.id)
  }

  function ForceCloses(db: Db, s: string): Option<Cycle> {
    match OpenCycle(db.cycles, s)
    case None => None
    case Some(c) => Some(c.(status := Closed))
  }

  function ForceClosesAll(db: Db, cfg: seq<SourceConfig>, at: int): seq<Cycle> {
    if cfg == [] then []
    else
      var front, last := cfg[..|cfg| - 1], cfg[|cfg| - 1];
      ForceClosesAll(db, front, at) +
      if last.enabled then Listed(ForceCloses(ForceSources(db, front, at), last.id)) else []
  }

  function ForceSources(db: Db, cfg: seq<SourceConfig>, at: int): Db {
    if cfg == [] then db
    else
      var before, last := ForceSources(db, cfg[..|cfg| - 1], at), cfg[|cfg| - 1];
      if last.enabled then CloseAndTarget(before, last.id, Forceable(last.destinations), at) else before
  }

  function ForceAll(db: Db, cfg: seq<SourceConfig>, at: int): Db {
    ForceSources(Prepare(db, cfg, at), cfg, at)
  }

  // The first enabled source of that name.
  function FindSource(cfg: seq<SourceConfig>, s: string): (r: Option<SourceConfig>)
    ensures r.Some? ==> r.value.id == s && r.value.enabled
  {
    if cfg == [] then None
    else if cfg[0].id == s && cfg[0].enabled then Some(cfg[0])
    else FindSource(cfg[1..], s)
  }

  function ForceSource(db: Db, cfg: seq<SourceConfig>, s: string, at: int): Db {
    var ready := Prepare(db, cfg, at);
    match FindSource(cfg, s)
    case None => ready
    case Some(src) => CloseAndTarget(ready, s, Forceable(src.destinations), at)
  }

  // A paused destination may be forced by name.
  function ForceDestination(db: Db, cfg: seq<SourceConfig>, s: string, d: string, at: int): Db {
    var ready := Prepare(db, cfg, at);
    match FindSource(cfg, s)
    case None => ready
    case Some(src) => if HasEnabled(src, d) then CloseAndTarget(ready, s, [d], at) else ready
  }

  predicate HasEnabled(src: SourceConfig, d: string) {
    exists i :: 0 <= i < |src.destinations| && src.destinations[i].id == d && src.destinations[i].enabled
  }

  predicate MayForce(cfg: seq<SourceConfig>, s: string, d: string) {
    FindSource(cfg, s).Some? && HasEnabled(FindSource(cfg, s).value, d)
  }

  // ---------------------------------------------------------------- what readers see

  function Display(db: Db, s: string): Option<nat> {
    var closed := LatestClosed(db.cycles, s);
    match OpenCycle(db.cycles, s)
    case None => closed
    case Some(open) =>
      if HasActionable(db, s, open.id) then
        if closed.Some? && closed.value > open.id then closed else Some(open.id)
      else closed
  }

  // How a sync pass treats one destination: everything, or exactly these paths.
  datatype Plan = FullPass | Unusable | Incremental(paths: set<string>)

  function PathsOf(events: seq<Event>): set<string> {
    set i | 0 <= i < |events| && events[i].path.Some? :: events[i].path.value
  }

  function PlanFor(db: Db, s: string, cycle: Cycle, d: string): Plan {
    if cycle.manualRescan || cycle.needsRescan then FullPass
    else
      match db.RowOf((s, d)).verified
      case None => FullPass
      case Some(v) =>
        var events := EventsBetween(db, s, v, cycle.id);
        if exists i :: 0 <= i < |events| && events[i].rescan then FullPass
        else if exists i :: 0 <= i < |events| && events[i].Actionable() && events[i].path.None? then Unusable
        else Incremental(PathsOf(events))
  }
}
