// How the fanotify watcher (src/core/watcher/fanotify.rs) turns what one read brings into event
// rows, and keeps a failed write from going unnoticed.
module Fanotify {
  import opened Wrappers

  datatype WatcherEvent = WatcherEvent(source: string, mask: nat, kind: string, rel: Option<string>, rescan: bool)
  {
    function Key(): (string, string, Option<string>) {
      (source, kind, rel)
    }
  }

  // What the kernel's records amount to once resolved.
  datatype Observed =
    | QueueOverflow(mask: nat)
    | Unresolved(mask: nat)                                            // a descriptor without a path
    | Changed(mask: nat, source: string, rel: string, unmarked: bool)  // a new directory may stay unmarked

  // One marker for every source.
  function ForAll(sources: seq<string>, mask: nat, kind: string): (r: seq<WatcherEvent>)
    ensures forall s :: s in sources ==> WatcherEvent(s, mask, kind, None, true) in r
    ensures forall e :: e in r ==> e.rel.None? && e.rescan && e.kind == kind && e.source in sources
  {
    if sources == [] then []
    else [WatcherEvent(sources[0], mask, kind, None, true)] + ForAll(sources[1..], mask, kind)
  }

  function EventsOf(sources: seq<string>, kindOf: nat -> string, o: Observed): seq<WatcherEvent> {
    match o
    case QueueOverflow(mask) => ForAll(sources, mask, "queue_overflow")
    case Unresolved(mask) => ForAll(sources, mask, kindOf(mask))
    case Changed(mask, source, rel, unmarked) =>
      [WatcherEvent(source, mask, kindOf(mask), Some(rel), false)]
      + if unmarked then [WatcherEvent(source, 0, "watch_mark_failed", None, true)] else []
  }

  function AllEvents(sources: seq<string>, kindOf: nat -> string, items: seq<Observed>): seq<WatcherEvent> {
    if items == [] then []
    else AllEvents(sources, kindOf, items[..|items| - 1]) + EventsOf(sources, kindOf, items[|items| - 1])
  }

  // Everywhere events are made, those without a path are the markers and those with one are not.
  predicate MarkersArePathless(batch: seq<WatcherEvent>) {
    forall i :: 0 <= i < |batch| ==> (batch[i].rel.None? <==> batch[i].rescan)
  }

  lemma {:induction false} EventsArePathless(sources: seq<string>, kindOf: nat -> string, items: seq<Observed>)
    ensures MarkersArePathless(AllEvents(sources, kindOf, items))
  {
    if items != [] {
      EventsArePathless(sources, kindOf, items[..|items| - 1]);
      var last := EventsOf(sources, kindOf, items[|items| - 1]);
      forall i | 0 <= i < |last| ensures last[i].rel.None? <==> last[i].rescan {
        assert last[i] in last;
      }
    }
  }

  // ---------------------------------------------------------------- one row per key

  predicate Has(batch: seq<WatcherEvent>, key: (string, string, Option<string>)) {
    exists i :: 0 <= i < |batch| && batch[i].Key() == key
  }

  function Dedup(batch: seq<WatcherEvent>): seq<WatcherEvent> {
    if batch == [] then []
    else
      var front, last := Dedup(batch[..|batch| - 1]), batch[|batch| - 1];
      if Has(batch[..|batch| - 1], last.Key()) then front else front + [last]
  }

  method Retain(batch: seq<WatcherEvent>) returns (kept: seq<WatcherEvent>)
    ensures kept == Dedup(batch)
  {
    var seen: set<(string, string, Option<string>)> := {};
    kept := [];
    for i := 0 to |batch|
      invariant kept == Dedup(batch[..i])
      invariant forall key :: key in seen <==> Has(batch[..i], key)
    {
      var before, upto := batch[..i], batch[..i + 1];
      assert upto[..|upto| - 1] == before && upto[|upto| - 1] == batch[i];
      forall key ensures Has(upto, key) <==> Has(before, key) || key == batch[i].Key() {
        HasAppend(before, batch[i], key);
        assert upto == before + [batch[i]];
      }
      if batch[i].Key() !in seen {
        kept := kept + [batch[i]];
      }
      seen := seen + {batch[i].Key()};
    }
    assert batch[..|batch|] == batch;
  }

  lemma HasAppend(batch: seq<WatcherEvent>, e: WatcherEvent, key: (string, string, Option<string>))
    ensures Has(batch + [e], key) <==> Has(batch, key) || key == e.Key()
  {
    var all := batch + [e];
    if Has(batch, key) {
      var i :| 0 <= i < |batch| && batch[i].Key() == key;
      assert all[i].Key() == key;
    }
    assert all[|batch|] == e;
  }

  // What is kept, exactly: of every source, kind and path the first event, and none twice.
  lemma {:induction false} DedupExactly(batch: seq<WatcherEvent>)
    ensures forall e :: e in Dedup(batch) <==> exists i :: 0 <= i < |batch| && batch[i] == e && FirstOfKey(batch, i)
    ensures forall i, j :: 0 <= i < j < |Dedup(batch)| ==>
      var x, y := Dedup(batch)[i], Dedup(batch)[j];
      !(x.source == y.source && x.kind == y.kind && x.rel == y.rel)
  {
    if batch != [] {
      var n, front := |batch| - 1, batch[..|batch| - 1];
      DedupExactly(front);
      forall i | 0 <= i < n ensures FirstOfKey(batch, i) <==> FirstOfKey(front, i) {
        assert forall h :: 0 <= h < i ==> batch[h] == front[h];
      }
      assert FirstOfKey(batch, n) <==> !Has(front, batch[n].Key());
      forall i | 0 <= i < |Dedup(front)| ensures Has(front, Dedup(front)[i].Key()) {
        assert Dedup(front)[i] in Dedup(front);
        var h :| 0 <= h < n && front[h] == Dedup(front)[i];
      }
    }
  }

  ghost predicate FirstOfKey(batch: seq<WatcherEvent>, i: nat)
    requires i < |batch|
  {
    forall h :: 0 <= h < i ==>
      batch[h].source != batch[i].source || batch[h].kind != batch[i].kind || batch[h].rel != batch[i].rel
  }

  // An event that says the same to whoever plans a sync: same source, kind and path, same demand.
  ghost predicate Stands(e: WatcherEvent, batch: seq<WatcherEvent>) {
    exists i :: 0 <= i < |batch| && batch[i].Key() == e.Key() && batch[i].rescan == e.rescan
  }

  // Although the flag is not part of the key, dropping duplicates loses no demand for a rescan:
  // events of one key agree on it, because of where they are made.
  lemma {:induction false} DedupLosesNothing(batch: seq<WatcherEvent>)
    requires MarkersArePathless(batch)
    ensures forall e :: e in batch ==> Stands(e, Dedup(batch))
    ensures forall e :: e in Dedup(batch) ==> e in batch
    ensures batch != [] ==> Dedup(batch) != []
  {
    hide Has;
    if batch != [] {
      var front, last := batch[..|batch| - 1], batch[|batch| - 1];
      DedupLosesNothing(front);
      var kept := Dedup(batch);
      forall e | e in batch ensures Stands(e, kept) {
        if e in front {
          var i :| 0 <= i < |Dedup(front)| && Dedup(front)[i].Key() == e.Key() && Dedup(front)[i].rescan == e.rescan;
          assert kept[i] == Dedup(front)[i];
        } else if Has(front, last.Key()) {
          var twin := FirstWith(front, last.Key());
          assert twin in batch && twin.rescan == last.rescan;
          assert Stands(twin, Dedup(front));
        } else {
          assert kept[|kept| - 1] == last;
        }
      }
      assert Stands(last, kept);
    }
  }

  lemma FirstWith(batch: seq<WatcherEvent>, key: (string, string, Option<string>)) returns (e: WatcherEvent)
    requires Has(batch, key)
    ensures e in batch && e.Key() == key
  {
    var i :| 0 <= i < |batch| && batch[i].Key() == key;
    e := batch[i];
  }

  // Were a marker and a plain event ever made with one key, the marker could be dropped.
  lemma DedupNeedsTheRule()
    ensures var plain, marker := WatcherEvent("s", 0, "k", None, false), WatcherEvent("s", 0, "k", None, true);
      Dedup([plain, marker]) == [plain] && !Stands(marker, Dedup([plain, marker]))
  {
    var plain, marker := WatcherEvent("s", 0, "k", None, false), WatcherEvent("s", 0, "k", None, true);
    var batch := [plain, marker];
    assert batch[..1] == [plain] && [plain][..0] == [];
    assert [plain][0].Key() == marker.Key();
    assert Dedup([plain]) == [plain];
  }

  // ---------------------------------------------------------------- the watcher

  // What became of one read's events.
  datatype Read = Read(observed: seq<WatcherEvent>, batch: seq<WatcherEvent>, persisted: bool)
  {
    ghost predicate Kept() {
      forall e :: e in observed ==> Stands(e, batch)
    }

    // Nothing in the batch but what was observed, and markers.
    ghost predicate AddsOnlyMarkers(sources: seq<string>) {
      forall e :: e in batch ==> e in observed || IsGapMarker(sources, e)
    }

    ghost predicate Logged(log: seq<WatcherEvent>) {
      persisted ==> forall e :: e in batch ==> e in log
    }
  }

  // One of the markers put in front of a batch.
  predicate IsGapMarker(sources: seq<string>, e: WatcherEvent) {
    e.source in sources && e.kind == "event_persist_gap" && e.rel.None? && e.rescan
  }

  ghost predicate MarksAll(sources: seq<string>, batch: seq<WatcherEvent>) {
    forall s :: s in sources ==> exists i :: 0 <= i < |batch| && batch[i].source == s && batch[i].rescan
  }

  // A later read was persisted with a marker for every source.
  ghost predicate MadeGood(sources: seq<string>, history: seq<Read>, i: nat) {
    exists j :: i < j < |history| && history[j].persisted && MarksAll(sources, history[j].batch)
  }

  ghost predicate LossesMadeGood(sources: seq<string>, history: seq<Read>) {
    forall i :: 0 <= i < |history| && !history[i].persisted ==> MadeGood(sources, history, i)
  }

  ghost predicate InSome(history: seq<Read>, e: WatcherEvent) {
    exists i :: 0 <= i < |history| && e in history[i].batch
  }

  class Watcher {
    const sources: seq<string>
    const kindOf: nat -> string
    var stickyRescan: bool
    var log: seq<WatcherEvent>   // the rows of the event log
    ghost var history: seq<Read>

    // No loss is silent: while the flag is down, every batch that was lost has been made good.
    ghost predicate Valid()
      reads this
    {
      && (!stickyRescan ==> LossesMadeGood(sources, history))
      && (forall i :: 0 <= i < |history| ==> history[i].Kept())
      && (forall i :: 0 <= i < |history| ==> history[i].Logged(log))
      && (forall i :: 0 <= i < |history| ==> history[i].AddsOnlyMarkers(sources))
      && forall e :: e in log ==> InSome(history, e)
    }

    constructor (sources: seq<string>, kindOf: nat -> string)
      ensures Valid() && !stickyRescan && log == [] && this.sources == sources
    {
      this.sources, this.kindOf, stickyRescan, log, history := sources, kindOf, false, [], [];
    }

    // One transaction; whatever it reports when it fails, the rows may be there.
    method RecordEventsBatch(batch: seq<WatcherEvent>) returns (ok: bool)
      modifies this`log
      ensures ok ==> log == old(log) + batch
      ensures log == old(log) || log == old(log) + batch
    {
      var stored: bool := *;
      ok := *;
      if ok || stored {
        log := log + batch;
      }
    }

    method ParseEvents(items: seq<Observed>)
      requires Valid()
      modifies this
      ensures Valid() && old(log) <= log
      ensures |history| == |old(history)| + 1 && history[..|old(history)|] == old(history)
      ensures history[|old(history)|].observed == AllEvents(sources, kindOf, items)
      ensures old(stickyRescan) && !stickyRescan ==>
        MarksAll(sources, history[|old(history)|].batch) && history[|old(history)|].persisted
      ensures !history[|old(history)|].persisted ==> stickyRescan
    {
      hide LossesMadeGood, Read.Kept, Read.Logged, Stands, MarksAll, MadeGood, Dedup, AllEvents;
      hide Read.AddsOnlyMarkers, InSome, IsGapMarker;
      var batch := Collect(items);
      ghost var observed := batch;
      DedupStands(sources, kindOf, items);
      batch := Retain(batch);
      ghost var kept := batch;
      if stickyRescan && batch != [] {
        batch := InsertMarkers(batch);
      }
      ghost var before := history;
      var ok := RecordEventsBatch(batch);
      ghost var read := Read(observed, batch, ok);
      NextRead(observed, kept, read, log);
      OnlyMarkers(sources, kept, read);
      StillInSome(before, read, old(log), log);
      LogGrows(before, old(log), log);
      history := history + [read];
      Settled(sources, before, read, stickyRescan);
      if ok {
        if batch != [] {
          stickyRescan := false;
        }
      } else {
        stickyRescan := true;
      }
    }

    method Collect(items: seq<Observed>) returns (batch: seq<WatcherEvent>)
      ensures batch == AllEvents(sources, kindOf, items)
    {
      hide EventsOf;
      batch := [];
      for i := 0 to |items|
        invariant batch == AllEvents(sources, kindOf, items[..i])
      {
        assert items[..i + 1][..i] == items[..i];
        batch := batch + EventsOf(sources, kindOf, items[i]);
      }
      assert items[..|items|] == items;
    }

    // A marker for every source in front of the batch.
    method InsertMarkers(batch0: seq<WatcherEvent>) returns (batch: seq<WatcherEvent>)
      ensures MarksAll(sources, batch)
      ensures |batch| >= |batch0| && batch[|batch| - |batch0|..] == batch0
      ensures forall i :: 0 <= i < |batch| - |batch0| ==> IsGapMarker(sources, batch[i])
    {
      batch := batch0;
      for i := 0 to |sources|
        invariant |batch| == |batch0| + i && batch[i..] == batch0
        invariant forall k :: 0 <= k < i ==> batch[i - 1 - k].source == sources[k] && batch[i - 1 - k].rescan
        invariant forall k :: 0 <= k < i ==> IsGapMarker(sources, batch[k])
      {
        batch := [WatcherEvent(sources[i], 0, "event_persist_gap", None, true)] + batch;
      }
      forall s | s in sources ensures exists i :: 0 <= i < |batch| && batch[i].source == s && batch[i].rescan {
        var k :| 0 <= k < |sources| && sources[k] == s;
        assert batch[|sources| - 1 - k].source == s;
      }
    }

    // A run of reads: each is in the history with all it observed, and while the flag is down
    // everything observed is in the log, or a rescan of its source was logged later. In terms of
    // what the kernel said: no lost event, unresolved descriptor or unmarked directory is silent.
    method Run(all: seq<seq<Observed>>)
      requires Valid()
      modifies this
      ensures Valid() && old(log) <= log
      ensures |history| == |old(history)| + |all| && old(history) <= history
      ensures forall k :: 0 <= k < |all| ==> history[|old(history)| + k].observed == AllEvents(sources, kindOf, all[k])
      ensures !stickyRescan ==>
        forall k, e :: 0 <= k < |all| && e in AllEvents(sources, kindOf, all[k]) && e.source in sources ==>
          AccountedFor(|old(history)| + k, e)
      ensures !stickyRescan ==>
        forall k, n :: 0 <= k < |all| && 0 <= n < |all[k]| ==> Reported(|old(history)| + k, all[k][n])
      ensures forall e :: e in log ==>
        IsGapMarker(sources, e) || exists i :: 0 <= i < |history| && e in history[i].observed
    {
      hide Valid, AllEvents, Stands, MarksAll, LossesMadeGood, Read.Kept, Read.Logged, Reported, IsGapMarker;
      for i := 0 to |all|
        invariant Valid() && old(log) <= log
        invariant |history| == |old(history)| + i && old(history) <= history
        invariant forall k :: 0 <= k < i ==> history[|old(history)| + k].observed == AllEvents(sources, kindOf, all[k])
      {
        ParseEvents(all[i]);
      }
      if !stickyRescan {
        forall k, e | 0 <= k < |all| && e in AllEvents(sources, kindOf, all[k]) && e.source in sources
          ensures AccountedFor(|old(history)| + k, e)
        {
          EverythingIsAccountedFor(|old(history)| + k, e);
        }
        forall k, n | 0 <= k < |all| && 0 <= n < |all[k]|
          ensures Reported(|old(history)| + k, all[k][n])
        {
          EverythingIsReported(|old(history)| + k, all[k], n);
        }
      }
      forall e | e in log
        ensures IsGapMarker(sources, e) || exists i :: 0 <= i < |history| && e in history[i].observed
      {
        NothingIsInvented(e);
      }
    }

    // Its read was persisted and the row is logged, or a rescan of the source was logged later.
    ghost predicate RowOrRescan(i: nat, source: string, kind: string, rel: Option<string>, rescan: bool)
      requires i < |history|
      reads this
    {
      || (history[i].persisted && exists e ::
            && e in history[i].batch && e in log
            && e.source == source && e.kind == kind && e.rel == rel && e.rescan == rescan)
      || exists j, e :: LaterMarker(i, j, e, source)
    }

    // What has to become of one thing the kernel said: a marker for every source when it cannot say
    // what it was about, the path otherwise, and a marker too when a directory stays unmarked.
    ghost predicate Reported(i: nat, o: Observed)
      requires i < |history|
      reads this
    {
      match o
      case QueueOverflow(_) => forall s :: s in sources ==> RowOrRescan(i, s, "queue_overflow", None, true)
      case Unresolved(mask) => forall s :: s in sources ==> RowOrRescan(i, s, kindOf(mask), None, true)
      case Changed(mask, s, rel, unmarked) =>
        s in sources ==>
          && RowOrRescan(i, s, kindOf(mask), Some(rel), false)
          && (unmarked ==> RowOrRescan(i, s, "watch_mark_failed", None, true))
    }

    lemma EverythingIsReported(i: nat, items: seq<Observed>, n: nat)
      requires Valid() && !stickyRescan && i < |history| && n < |items|
      requires history[i].observed == AllEvents(sources, kindOf, items)
      ensures Reported(i, items[n])
    {
      hide Valid, EventsOf, RowOrRescan, AllEvents;
      ItemEvents(sources, kindOf, items[n]);
      forall e | e in EventsOf(sources, kindOf, items[n]) && e.source in sources
        ensures RowOrRescan(i, e.source, e.kind, e.rel, e.rescan)
      {
        EventOfItem(sources, kindOf, items, n, e);
        ObservedIsLogged(i, e);
      }
      match items[n]
      case QueueOverflow(mask) =>
        forall s | s in sources ensures RowOrRescan(i, s, "queue_overflow", None, true) {
          assert WatcherEvent(s, mask, "queue_overflow", None, true) in EventsOf(sources, kindOf, items[n]);
        }
      case Unresolved(mask) =>
        forall s | s in sources ensures RowOrRescan(i, s, kindOf(mask), None, true) {
          assert WatcherEvent(s, mask, kindOf(mask), None, true) in EventsOf(sources, kindOf, items[n]);
        }
      case Changed(mask, s, rel, unmarked) =>
    }

    lemma ObservedIsLogged(i: nat, e: WatcherEvent)
      requires Valid() && !stickyRescan && i < |history| && e in history[i].observed && e.source in sources
      ensures RowOrRescan(i, e.source, e.kind, e.rel, e.rescan)
    {
      if history[i].persisted {
        var k :| 0 <= k < |history[i].batch| && history[i].batch[k].Key() == e.Key()
          && history[i].batch[k].rescan == e.rescan;
        assert history[i].batch[k] in history[i].batch;
      } else {
        EverythingIsAccountedFor(i, e);
      }
    }

    // And nothing else is logged.
    lemma NothingIsInvented(e: WatcherEvent)
      requires Valid() && e in log
      ensures IsGapMarker(sources, e) || exists i :: 0 <= i < |history| && e in history[i].observed
    {
      assert InSome(history, e);
      var i :| 0 <= i < |history| && e in history[i].batch;
      assert history[i].AddsOnlyMarkers(sources);
    }

    lemma EverythingIsAccountedFor(i: nat, e: WatcherEvent)
      requires Valid() && !stickyRescan && i < |history| && e in history[i].observed && e.source in sources
      ensures AccountedFor(i, e)
    {
      if history[i].persisted {
        var k :| 0 <= k < |history[i].batch| && history[i].batch[k].Key() == e.Key()
          && history[i].batch[k].rescan == e.rescan;
        var f := history[i].batch[k];
        assert f in log;
        var n :| 0 <= n < |log| && log[n] == f;
        assert log[n].Key() == e.Key();
      } else {
        var j :| i < j < |history| && history[j].persisted && MarksAll(sources, history[j].batch);
        var n :| 0 <= n < |history[j].batch| && history[j].batch[n].source == e.source && history[j].batch[n].rescan;
        assert LaterMarker(i, j, history[j].batch[n], e.source);
      }
    }

    // The read was persisted and the event stands in the log, or a later read left a marker.
    ghost predicate AccountedFor(i: nat, e: WatcherEvent)
      requires i < |history|
      reads this
    {
      (history[i].persisted && Stands(e, log)) || exists j, f :: LaterMarker(i, j, f, e.source)
    }

    ghost predicate LaterMarker(i: nat, j: nat, f: WatcherEvent, source: string)
      reads this
    {
      i < j < |history| && history[j].persisted && f in history[j].batch && f in log && f.source == source && f.rescan
    }
  }

  lemma StandsBehind(e: WatcherEvent, kept: seq<WatcherEvent>, batch: seq<WatcherEvent>)
    requires Stands(e, kept) && |batch| >= |kept| && batch[|batch| - |kept|..] == kept
    ensures Stands(e, batch)
  {
    var i :| 0 <= i < |kept| && kept[i].Key() == e.Key() && kept[i].rescan == e.rescan;
    assert batch[|batch| - |kept| + i] == kept[i];
  }

  lemma DedupStands(sources: seq<string>, kindOf: nat -> string, items: seq<Observed>)
    ensures var batch := AllEvents(sources, kindOf, items);
      && (forall e :: e in batch ==> Stands(e, Dedup(batch))) && (batch != [] ==> Dedup(batch) != [])
      && forall e :: e in Dedup(batch) ==> e in batch
  {
    EventsArePathless(sources, kindOf, items);
    DedupLosesNothing(AllEvents(sources, kindOf, items));
  }

  lemma NextRead(observed: seq<WatcherEvent>, kept: seq<WatcherEvent>, read: Read, log: seq<WatcherEvent>)
    requires read.observed == observed && forall e :: e in observed ==> Stands(e, kept)
    requires |read.batch| >= |kept| && read.batch[|read.batch| - |kept|..] == kept
    requires read.persisted ==> forall e :: e in read.batch ==> e in log
    ensures read.Kept() && read.Logged(log)
  {
    hide Stands;
    forall e | e in observed ensures Stands(e, read.batch) {
      StandsBehind(e, kept, read.batch);
    }
  }

  // What one thing the kernel said makes at least.
  lemma ItemEvents(sources: seq<string>, kindOf: nat -> string, o: Observed)
    ensures var events := EventsOf(sources, kindOf, o);
      match o
      case QueueOverflow(mask) =>
        forall s :: s in sources ==> WatcherEvent(s, mask, "queue_overflow", None, true) in events
      case Unresolved(mask) => forall s :: s in sources ==> WatcherEvent(s, mask, kindOf(mask), None, true) in events
      case Changed(mask, s, rel, unmarked) =>
        && WatcherEvent(s, mask, kindOf(mask), Some(rel), false) in events
        && (unmarked ==> WatcherEvent(s, 0, "watch_mark_failed", None, true) in events)
  {
    match o
    case Changed(mask, s, rel, unmarked) =>
      var events := EventsOf(sources, kindOf, o);
      assert events[0] in events && (unmarked ==> events[1] in events);
    case _ =>
  }

  lemma {:induction false} EventOfItem(sources: seq<string>, kindOf: nat -> string, items: seq<Observed>, n: nat,
      e: WatcherEvent)
    requires n < |items| && e in EventsOf(sources, kindOf, items[n])
    ensures e in AllEvents(sources, kindOf, items)
  {
    hide EventsOf;
    if n < |items| - 1 {
      EventOfItem(sources, kindOf, items[..|items| - 1], n, e);
    }
  }

  lemma OnlyMarkers(sources: seq<string>, kept: seq<WatcherEvent>, read: Read)
    requires |read.batch| >= |kept| && read.batch[|read.batch| - |kept|..] == kept
    requires forall e :: e in kept ==> e in read.observed
    requires forall i :: 0 <= i < |read.batch| - |kept| ==> IsGapMarker(sources, read.batch[i])
    ensures read.AddsOnlyMarkers(sources)
  {
    hide IsGapMarker;
    var m := |read.batch| - |kept|;
    forall i | 0 <= i < |read.batch| ensures read.batch[i] in read.observed || IsGapMarker(sources, read.batch[i]) {
      if i >= m { assert read.batch[i] == kept[i - m]; }
    }
  }

  lemma StillInSome(before: seq<Read>, read: Read, log: seq<WatcherEvent>, longer: seq<WatcherEvent>)
    requires longer == log || longer == log + read.batch
    requires forall e :: e in log ==> InSome(before, e)
    ensures forall e :: e in longer ==> InSome(before + [read], e)
  {
    var after := before + [read];
    assert after[|before|] == read;
    forall e | e in longer ensures InSome(after, e) {
      if e in log {
        var i :| 0 <= i < |before| && e in before[i].batch;
        assert after[i] == before[i];
      }
    }
  }

  lemma LogGrows(history: seq<Read>, log: seq<WatcherEvent>, longer: seq<WatcherEvent>)
    requires log <= longer && forall i :: 0 <= i < |history| ==> history[i].Logged(log)
    ensures forall i :: 0 <= i < |history| ==> history[i].Logged(longer)
  {
    forall i | 0 <= i < |history| ensures history[i].Logged(longer) {
      assert history[i].Logged(log);
      assert forall e :: e in log ==> e in longer;
    }
  }

  // The flag goes down only over a read that makes good every loss before it.
  lemma Settled(sources: seq<string>, before: seq<Read>, read: Read, sticky: bool)
    requires !sticky ==> LossesMadeGood(sources, before)
    requires sticky && read.batch != [] ==> MarksAll(sources, read.batch)
    ensures read.persisted && (read.batch != [] || !sticky) ==> LossesMadeGood(sources, before + [read])
  {
    hide MarksAll;
    var after := before + [read];
    if read.persisted && (read.batch != [] || !sticky) {
      forall i | 0 <= i < |after| && !after[i].persisted ensures MadeGood(sources, after, i) {
        if sticky {
          assert after[|before|] == read;
        } else {
          MadeGoodStays(sources, before, after, i);
        }
      }
    }
  }

  lemma MadeGoodStays(sources: seq<string>, before: seq<Read>, after: seq<Read>, i: nat)
    requires before <= after && MadeGood(sources, before, i)
    ensures MadeGood(sources, after, i)
  {
    hide MarksAll;
    var j :| i < j < |before| && before[j].persisted && MarksAll(sources, before[j].batch);
    assert after[j] == before[j];
  }
}
