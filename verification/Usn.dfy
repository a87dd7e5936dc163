// The cursor protocol of the Windows journal watcher (src/core/watcher/windows_usn.rs), with a
// failure or a crash possible between any two statements, and the file system busy all along.
module Usn {
  import opened Wrappers

  // A record's place: the journal it was written to, and its number there. A volume's journals
  // follow one another; the code only asks whether two journal ids are equal.
  datatype Record = Record(journal: nat, usn: nat)
  {
    predicate Before(journal: nat, next: nat) {
      this.journal < journal || (this.journal == journal && usn < next)
    }
  }

  datatype Event = Event(kind: string, rescan: bool)

  datatype Cursor = Cursor(journal: nat, next: nat)

  datatype World = World(
    journal: nat, lowest: nat, next: nat,  // the journal there is, and what it still holds
    written: map<Record, nat>,             // every record ever, and how many events preceded it
    cursor: Option<Cursor>, events: seq<Event>,
    offered: set<Record>)                  // handed to persist_matching_record, which succeeded
  {
    predicate Valid() {
      && (forall r :: r in written ==> r.Before(journal, next) && written[r] <= |events|)
      && offered <= written.Keys && lowest <= next
    }

    // A rescan was asked for after the record had been written.
    ghost predicate Rescanned(r: Record)
      requires r in written
    {
      exists k :: written[r] <= k < |events| && events[k].rescan
    }

    ghost predicate Handled(r: Record)
      requires r in written
    {
      r in offered || Rescanned(r)
    }
  }

  // Behind the end of the journal there is.
  predicate Behind(c: Cursor, w: World) {
    c.journal < w.journal || (c.journal == w.journal && c.next <= w.next)
  }

  // Everything before a position has been handled, or skipped by a gap.
  ghost predicate Cleared(w: World, skipped: set<Record>, c: Cursor) {
    Behind(c, w) && forall r :: r in w.written && r.Before(c.journal, c.next) ==> w.Handled(r) || r in skipped
  }

  // The stored cursor is never ahead of what has been handled.
  ghost predicate Safe(w: World, skipped: set<Record>) {
    w.cursor.Some? ==> Cleared(w, skipped, w.cursor.value)
  }

  // The world moves on: records are written at the end, events and offers stay.
  predicate MovesOn(w: World, v: World) {
    && v.Valid() && Behind(Cursor(w.journal, w.next), v)
    && w.events <= v.events && w.offered <= v.offered
    && (forall r :: r in w.written ==> r in v.written && v.written[r] == w.written[r])
    && (forall r :: r in v.written && r !in w.written ==> !r.Before(w.journal, w.next))
  }

  // What the rest of the system may do: write records at the end of the journal, drop its start,
  // or replace it.
  predicate Evolves(w: World, v: World) {
    && MovesOn(w, v) && v.cursor == w.cursor && v.events == w.events && v.offered == w.offered
    && (w.journal == v.journal ==> w.lowest <= v.lowest)
    && forall r :: r in v.written && r !in w.written ==> v.written[r] == |w.events|
  }

  lemma MovesOnTwice(u: World, v: World, w: World)
    requires MovesOn(u, v) && MovesOn(v, w)
    ensures MovesOn(u, w)
  {}

  lemma ClearedStays(w: World, v: World, skipped: set<Record>, c: Cursor)
    requires MovesOn(w, v) && Cleared(w, skipped, c)
    ensures Cleared(v, skipped, c)
  {
    forall r | r in v.written && r.Before(c.journal, c.next) ensures v.Handled(r) || r in skipped {
      assert r in w.written;
      if w.Rescanned(r) {
        var k :| w.written[r] <= k < |w.events| && w.events[k].rescan;
        assert v.events[k] == w.events[k];
      }
    }
  }

  lemma SafeStays(w: World, v: World, skipped: set<Record>)
    requires MovesOn(w, v) && Safe(w, skipped) && v.cursor == w.cursor
    ensures Safe(v, skipped)
  {
    if w.cursor.Some? {
      ClearedStays(w, v, skipped, w.cursor.value);
    }
  }

  // A rescan asked for now covers every record written so far.
  lemma RescanClears(w: World, e: Event, skipped: set<Record>, c: Cursor)
    requires w.Valid() && e.rescan && Behind(c, w)
    ensures Cleared(w.(events := w.events + [e]), skipped, c)
  {
    var v := w.(events := w.events + [e]);
    forall r | r in v.written ensures v.Rescanned(r) {
      assert v.events[|w.events|] == e;
    }
  }

  // Once every record of a stretch has been offered, the position may move past it.
  lemma OffersClear(u: World, w: World, skipped: set<Record>, c: Cursor, next: nat, records: seq<Record>)
    requires MovesOn(u, w) && Cleared(w, skipped, c) && u.journal == c.journal && next <= u.next
    requires forall q :: q in records <==> q in u.written && q.journal == c.journal && c.next <= q.usn < next
    requires forall q :: q in records ==> q in w.offered
    ensures c.next <= next ==> Cleared(w, skipped, Cursor(c.journal, next))
  {}

  // Every record of a stretch of the journal was handed to persist_matching_record.
  ghost predicate AllOffered(w: World, journal: nat, from: nat, to: nat) {
    forall q :: q in w.written && q.journal == journal && from <= q.usn < to ==> q in w.offered
  }

  lemma NothingToOffer(w: World, journal: nat, at: nat)
    ensures AllOffered(w, journal, at, at)
  {}

  lemma StretchOffered(u: World, w: World, c: Cursor, next: nat, records: seq<Record>)
    requires MovesOn(u, w) && u.journal == c.journal && next <= u.next
    requires forall q :: q in records <==> q in u.written && q.journal == c.journal && c.next <= q.usn < next
    requires forall q :: q in records ==> q in w.offered
    ensures AllOffered(w, c.journal, c.next, next)
  {}

  // What lies before a position that has been reached is not written any more.
  lemma OfferedStays(u: World, w: World, c: Cursor, skipped: set<Record>, from: nat)
    requires MovesOn(u, w) && Cleared(u, skipped, c) && AllOffered(u, c.journal, from, c.next)
    ensures AllOffered(w, c.journal, from, c.next)
  {
    hide World.Handled;
  }

  lemma MoreOffered(u: World, w: World, c: Cursor, skipped: set<Record>, from: nat, to: nat)
    requires MovesOn(u, w) && Cleared(u, skipped, c) && AllOffered(u, c.journal, from, c.next)
    requires AllOffered(w, c.journal, c.next, to)
    ensures AllOffered(w, c.journal, from, to)
  {
    hide World.Handled;
    OfferedStays(u, w, c, skipped, from);
  }

  // Before a position, yet neither offered nor rescanned.
  ghost function Unhandled(w: World, c: Cursor): set<Record> {
    set r | r in w.written && r.Before(c.journal, c.next) && !w.Handled(r)
  }

  datatype Journal = Journal(id: nat, lowest: nat, next: nat)
  {
    function End(): Cursor {
      Cursor(id, next)
    }
  }

  datatype Outcome = Batch(next: nat, records: seq<Record>) | Gap(kind: string) | Failed

  class Watcher {
    var w: World
    ghost var mark: Cursor            // how far this session has come
    ghost var seen: Cursor            // the end of the journal when it was last queried
    ghost var skipped: set<Record>    // passed over in a gap, without a rescan
    ghost var gaps: nat
    ghost var polled: nat             // how often the journal was read
    ghost var last: Outcome           // and what the last read brought

    // What holds after every statement, and so after every crash.
    ghost predicate Valid()
      reads this
    {
      w.Valid() && Safe(w, skipped) && Cleared(w, skipped, mark) && Behind(seen, w)
    }

    constructor (w: World)
      requires w.Valid() && w.cursor.None?
      ensures Valid() && this.w == w && skipped == {} && gaps == 0
    {
      this.w, skipped, gaps, mark, seen := w, {}, 0, Cursor(0, 0), Cursor(0, 0);
      polled, last := 0, Failed;
    }

    // ---------------------------------------------------------------- the world, between statements

    method Become(v: World)
      requires Valid() && MovesOn(w, v) && v.cursor == w.cursor
      modifies this`w
      ensures Valid() && w == v
    {
      hide World.Handled;
      SafeStays(w, v, skipped);
      ClearedStays(w, v, skipped, mark);
      w := v;
    }

    method Churn()
      requires Valid()
      modifies this`w
      ensures Valid() && Evolves(old(w), w)
    {
      assert Evolves(w, w);
      var v: World :| Evolves(w, v);
      assert Evolves(w, v);
      Become(v);
    }

    // ---------------------------------------------------------------- statements that may fail

    method QueryJournal() returns (r: Result<Journal, ()>)
      requires Valid()
      modifies this`w, this`seen
      ensures Valid() && Evolves(old(w), w)
      ensures r.Ok? ==> r.value.End() == seen == Cursor(w.journal, w.next) && r.value.lowest <= r.value.next
    {
      hide World.Handled, Safe, Cleared;
      Churn();
      if * {
        return Err(());
      }
      seen := Cursor(w.journal, w.next);
      r := Ok(Journal(w.journal, w.lowest, w.next));
    }

    // Even when it fails, the event may have been stored. `before` is the world it is stored in.
    method RecordEvent(e: Event) returns (ok: bool, ghost before: World)
      requires Valid()
      modifies this`w
      ensures Valid() && MovesOn(old(w), w)
      ensures before.Valid() && Evolves(old(w), before) && (ok ==> w == before.(events := before.events + [e]))
      ensures ok && e.rescan ==> Cleared(w, skipped, seen)
    {
      hide World.Handled, Safe, Cleared;
      Churn();
      before := w;
      var stored: bool := *;
      ok := *;
      if ok || stored {
        if e.rescan { RescanClears(w, e, skipped, seen); }
        Become(w.(events := w.events + [e]));
      }
      MovesOnTwice(old(w), before, w);
    }

    method SetCursor(journal: nat, next: nat) returns (ok: bool)
      requires Valid() && Cursor(journal, next) == mark
      modifies this`w
      ensures Valid() && MovesOn(old(w), w)
      ensures ok ==> w.cursor == Some(mark)
    {
      hide World.Handled, Safe, Cleared;
      Churn();
      var stored: bool := *;
      ok := *;
      if ok || stored {
        CursorMayMove(w, skipped, mark);
        w := w.(cursor := Some(Cursor(journal, next)));
      }
    }

    method CursorOf() returns (r: Result<Option<Cursor>, ()>)
      requires Valid()
      modifies this`w
      ensures Valid() && MovesOn(old(w), w) && (r.Ok? ==> r.value == w.cursor)
    {
      hide World.Handled, Safe, Cleared;
      Churn();
      if * {
        return Err(());
      }
      r := Ok(w.cursor);
    }

    // The records of a stretch of the journal from `start` on; a gap where it has been dropped.
    method ReadBatch(journal: nat, start: nat) returns (r: Outcome)
      requires Valid()
      modifies this`w, this`polled, this`last
      ensures Valid() && MovesOn(old(w), w) && polled == old(polled) + 1 && last == r
      ensures r.Batch? ==> r.next <= w.next && w.journal == journal
      ensures r.Batch? ==> forall q :: q in r.records <==>
        q in w.written && q.journal == journal && start <= q.usn < r.next
    {
      hide World.Handled, Safe, Cleared;
      r := ReadUsnBatch(journal, start);
      polled, last := polled + 1, r;
    }

    method ReadUsnBatch(journal: nat, start: nat) returns (r: Outcome)
      requires Valid()
      modifies this`w
      ensures Valid() && MovesOn(old(w), w)
      ensures r.Batch? ==> r.next <= w.next && w.journal == journal
      ensures r.Batch? ==> forall q :: q in r.records <==>
        q in w.written && q.journal == journal && start <= q.usn < r.next
    {
      hide World.Handled, Safe, Cleared;
      Churn();
      if * {
        return Failed;
      }
      if w.journal != journal {
        return Failed;
      }
      if start < w.lowest {
        return Gap("usn_gap");
      }
      if * {
        return Gap("usn_journal_unavailable");
      }
      var next: nat :| next <= w.next;
      var records := InSomeOrder(set q | q in w.written && q.journal == journal && start <= q.usn < next);
      r := Batch(next, records);
    }

    // Looks the record up, and stores an event if it is of interest.
    method PersistMatchingRecord(q: Record) returns (r: Result<bool, ()>)
      requires Valid() && q in w.written
      modifies this`w
      ensures Valid() && MovesOn(old(w), w) && (r.Ok? ==> q in w.offered)
    {
      hide World.Handled, Safe, Cleared;
      Churn();
      ghost var before := w;
      var v := w;
      if * {
        var rescan: bool := *;
        v := v.(events := v.events + [Event("change", rescan)]);
      }
      if * {
        v := v.(offered := v.offered + {q});
        var rebuild: bool := *;
        r := Ok(rebuild);
      } else {
        r := Err(());
      }
      Become(v);
      MovesOnTwice(old(w), before, w);
    }

    // ---------------------------------------------------------------- the session

    // A jump to the journal's end, for which a rescan has been asked.
    ghost method Jump()
      requires Valid() && Cleared(w, skipped, seen)
      modifies this`mark
      ensures Valid() && mark == seen
    {
      mark := seen;
    }

    // The one jump without a rescan: what is unhandled before it is passed over.
    ghost method Skip()
      requires Valid()
      modifies this`mark, this`skipped, this`gaps
      ensures Valid() && mark == seen && gaps == old(gaps) + 1
      ensures skipped == old(skipped) + Unhandled(w, seen)
    {
      skipped := skipped + Unhandled(w, seen);
      gaps := gaps + 1;
      mark := seen;
    }

    method InitialNextUsn(journal: Journal) returns (r: Result<nat, ()>)
      requires Valid() && journal.End() == seen && journal.lowest <= journal.next
      modifies this`w, this`mark
      ensures Valid() && MovesOn(old(w), w)
      ensures r.Ok? ==> mark == Cursor(journal.id, r.value) && journal.lowest <= r.value
    {
      hide World.Handled, Safe, Cleared, MovesOn;
      ghost var start := w;
      var read := CursorOf();
      if read.Err? {
        return Err(());
      }
      if read.value.None? || read.value.value.journal != journal.id || read.value.value.next < journal.lowest {
        var kind := if read.value.None? then "usn_initial_reconcile" else "usn_cursor_reconcile";
        ghost var before := w;
        var ok, _ := RecordEvent(Event(kind, true));
        MovesOnTwice(start, before, w);
        if !ok {
          return Err(());
        }
        Jump();
        ghost var recorded := w;
        ok := SetCursor(journal.id, journal.next);
        MovesOnTwice(start, recorded, w);
        return if ok then Ok(journal.next) else Err(());
      }
      StartAtCursor(w, skipped);
      mark := w.cursor.value;
      r := Ok(read.value.value.next);
    }

    // Offers every record of a batch; whether the directory index is to be rebuilt.
    method PersistBatch(batch: Outcome) returns (r: Result<bool, ()>)
      requires Valid() && batch.Batch? && w.journal == mark.journal && batch.next <= w.next
      requires forall q :: q in batch.records <==>
        q in w.written && q.journal == mark.journal && mark.next <= q.usn < batch.next
      modifies this`w, this`mark
      ensures Valid() && MovesOn(old(w), w)
      ensures r.Ok? ==> mark == Cursor(old(mark).journal,
        if batch.next > old(mark).next then batch.next else old(mark).next)
      ensures r.Ok? ==> AllOffered(w, mark.journal, old(mark).next, mark.next)
    {
      hide World.Handled, Safe, Cleared;
      var rebuild := false;
      for i := 0 to |batch.records|
        invariant Valid() && MovesOn(old(w), w) && mark == old(mark)
        invariant forall j :: 0 <= j < i ==> batch.records[j] in w.offered
      {
        ghost var before := w;
        assert batch.records[i] in old(w).written;
        var done := PersistMatchingRecord(batch.records[i]);
        MovesOnTwice(old(w), before, w);
        if done.Err? {
          return Err(());
        }
        rebuild := rebuild || done.value;
      }
      StretchOffered(old(w), w, mark, batch.next, batch.records);
      if batch.next > mark.next {
        OffersClear(old(w), w, skipped, mark, batch.next, batch.records);
        mark := Cursor(mark.journal, batch.next);
      }
      r := Ok(rebuild);
    }

    // Walks the tree for its directories.
    method RebuildDirectoryIndex() returns (ok: bool)
      requires Valid()
      modifies this`w
      ensures Valid() && MovesOn(old(w), w)
    {
      hide World.Handled, Safe, Cleared;
      Churn();
      ok := *;
    }

    // One session, up to a failure or to shutdown after any number of polls. Valid() holds after
    // every statement of it: wherever it stops, the stored cursor is behind what was handled.
    method RunSourceWatcherSession(polls: nat) returns (r: Result<(), ()>)
      requires Valid()
      modifies this
      ensures Valid() && gaps >= old(gaps) && (gaps == old(gaps) ==> skipped == old(skipped))
      ensures r.Ok? ==> polled >= old(polled) + polls && (polls > 0 ==> w.cursor == Some(mark))
    {
      hide World.Handled, Safe, Cleared, MovesOn, AllOffered;
      mark := Cursor(0, 0);
      StartOfTime(w, skipped);
      var queried := QueryJournal();
      if queried.Err? {
        return Err(());
      }
      var watched := queried.value.id;
      var initial := InitialNextUsn(queried.value);
      if initial.Err? {
        return Err(());
      }
      var next: nat := initial.value;
      for poll := 0 to polls
        invariant Valid() && mark == Cursor(watched, next)
        invariant gaps >= old(gaps) && (gaps == old(gaps) ==> skipped == old(skipped))
        invariant polled >= old(polled) + poll && (poll > 0 ==> w.cursor == Some(mark))
      {
        queried := QueryJournal();
        if queried.Err? {
          return Err(());
        }
        var journal := queried.value;
        if journal.id != watched || next < journal.lowest {
          var ok := JumpToEnd(if journal.id != watched then "usn_journal_changed" else "usn_gap", journal);
          if !ok {
            return Err(());
          }
          watched, next := journal.id, journal.next;
        }
        var caught;
        ghost var stopped;
        caught, watched, next, stopped := CatchUp(watched, next, journal);
        if !caught {
          return Err(());
        }
        var stored := SetCursor(watched, next);
        if !stored {
          return Err(());
        }
      }
      r := Ok(());
    }

    // The journal was replaced, or dropped what comes next: ask for a rescan, then jump.
    method JumpToEnd(kind: string, journal: Journal) returns (ok: bool)
      requires Valid() && journal.End() == seen
      modifies this`w, this`mark
      ensures Valid() && (ok ==> mark == journal.End())
    {
      hide World.Handled, Safe, Cleared, MovesOn;
      ghost var stored;
      ok, stored := RecordEvent(Event(kind, true));
      if !ok {
        return;
      }
      Jump();
      ok := RebuildDirectoryIndex();
      if ok {
        ok := SetCursor(journal.id, journal.next);
      }
    }

    // Reads and persists up to the end of the journal as it was queried, or until a read brings
    // nothing or a shutdown is asked for; a gap ends it elsewhere. Without one, each record that the
    // position moved past has been offered. It begins where the journal, as queried, still holds
    // what comes next: the caller has looked.
    method CatchUp(watched0: nat, next0: nat, journal: Journal)
      returns (ok: bool, watched: nat, next: nat, ghost stopped: bool)
      requires Valid() && mark == Cursor(watched0, next0) && watched0 == journal.id && journal.lowest <= next0
      modifies this
      ensures Valid() && (ok ==> mark == Cursor(watched, next))
      ensures gaps >= old(gaps) && (gaps == old(gaps) ==> skipped == old(skipped))
      ensures ok ==> polled > old(polled) && (last.Gap? || last.Batch?)
      ensures ok && last.Batch? ==>
        watched == watched0 && next >= next0 && AllOffered(w, watched, next0, next)
      ensures ok && last.Batch? && !stopped ==> last.records == [] || next >= journal.next
    {
      hide World.Handled, Safe, Cleared, MovesOn, AllOffered;
      watched, next, stopped := watched0, next0, false;
      NothingToOffer(w, watched, next);
      while true
        invariant Valid() && mark == Cursor(watched, next)
        invariant gaps == old(gaps) && skipped == old(skipped) && polled >= old(polled) && !stopped
        invariant watched == watched0 && next >= next0 && AllOffered(w, watched, next0, next)
        decreases if next < journal.next then journal.next - next else 0
      {
        ghost var earlier := w;
        var outcome := ReadBatch(watched, next);
        match outcome
        case Failed =>
          return false, watched, next, stopped;
        case Gap(kind) =>
          ghost var before, grown;
          ok, watched, next, before, grown := PassGap(kind, watched, next);
          return;
        case Batch(batchNext, records) =>
          ghost var between, from := w, next;
          var persisted := PersistBatch(outcome);
          if persisted.Err? {
            return false, watched, next, stopped;
          }
          MovesOnTwice(earlier, between, w);
          if batchNext > next {
            next := batchNext;
          }
          MoreOffered(earlier, w, Cursor(watched, from), skipped, next0, next);
          if records == [] {
            break;
          }
          assert records[0] in records;
          if persisted.value {
            ghost var offered := w;
            var rebuilt := RebuildDirectoryIndex();
            if !rebuilt {
              return false, watched, next, stopped;
            }
            OfferedStays(offered, w, Cursor(watched, next), skipped, next0);
          }
          var shutdown: bool := *;
          stopped := shutdown;
          if next >= journal.next || shutdown {
            break;
          }
      }
      ok := true;
    }

    // The read itself met a gap. The event that is stored asks for no rescan, and the journal is
    // queried only afterwards: exactly those records are passed over that were unhandled in the
    // world the event was stored in, or were written between it and the query.
    method PassGap(kind: string, watched0: nat, next0: nat)
      returns (ok: bool, watched: nat, next: nat, ghost before: World, ghost grown: World)
      requires Valid()
      modifies this
      ensures Valid() && gaps >= old(gaps) && (gaps == old(gaps) ==> skipped == old(skipped))
      ensures polled == old(polled) && last == old(last)
      ensures ok ==>
        && mark == Cursor(watched, next) == Cursor(grown.journal, grown.next)
        && Evolves(old(w), before) && Evolves(before.(events := before.events + [Event(kind, false)]), grown)
        && skipped == old(skipped) + Lost(before, grown)
    {
      hide World.Handled, Safe, Cleared, MovesOn, Unhandled, Lost;
      watched, next, grown := watched0, next0, w;
      ok, before := RecordEvent(Event(kind, false));
      if !ok {
        return;
      }
      ghost var logged := w;
      var queried := QueryJournal();
      if queried.Err? {
        return false, watched, next, before, grown;
      }
      grown := w;
      GapLosesExactly(before, Event(kind, false), logged, grown);
      Skip();
      watched, next := queried.value.id, queried.value.next;
      ok := RebuildDirectoryIndex();
      if ok {
        ok := SetCursor(watched, next);
      }
    }

    // Sessions follow one another for ever. As long as no read meets a gap, every record before
    // the stored cursor has been offered, or a rescan was asked for after it was written. With
    // gaps that is so exactly when it is for what the gaps passed over.
    method RunResilientSourceWatcher(sessions: seq<nat>)
      requires Valid() && gaps == 0 && skipped == {}
      modifies this
      ensures Valid() && (gaps == 0 ==> skipped == {} && Safe(w, {}))
      ensures Safe(w, {}) <==> TrustedSince(w, skipped)
    {
      hide World.Handled, Safe, Cleared, MovesOn, TrustedSince;
      for i := 0 to |sessions|
        invariant Valid() && (gaps == 0 ==> skipped == {})
      {
        var done := RunSourceWatcherSession(sessions[i]);
        Churn();
      }
      TrustAfterGaps(w, skipped);
    }
  }

  // What was passed over before the stored cursor has been handled since.
  ghost predicate TrustedSince(w: World, skipped: set<Record>) {
    w.cursor.Some? ==>
      forall r :: r in skipped && r in w.written && r.Before(w.cursor.value.journal, w.cursor.value.next) ==>
        w.Handled(r)
  }

  lemma TrustAfterGaps(w: World, skipped: set<Record>)
    requires Safe(w, skipped)
    ensures Safe(w, {}) <==> TrustedSince(w, skipped)
  {
    hide World.Handled;
  }

  lemma StartOfTime(w: World, skipped: set<Record>)
    ensures Cleared(w, skipped, Cursor(0, 0))
  {}

  // The records a gap passes over, given the world its event was stored in.
  ghost function Lost(before: World, grown: World): set<Record> {
    set r | r in grown.written && !(r in before.written && before.Handled(r))
  }

  // What a gap met by a read costs: an event that asks for no rescan handles nothing, wherever it
  // stands. A record is handled after the gap exactly when it was before.
  lemma GapLosesExactly(before: World, e: Event, logged: World, grown: World)
    requires before.Valid() && !e.rescan && logged == before.(events := before.events + [e]) && Evolves(logged, grown)
    ensures forall r :: r in grown.written ==> (grown.Handled(r) <==> r in before.written && before.Handled(r))
    ensures Unhandled(grown, Cursor(grown.journal, grown.next)) == Lost(before, grown)
  {
    forall r | r in grown.written ensures grown.Handled(r) <==> r in before.written && before.Handled(r) {
      if r in before.written {
        assert before.written[r] == grown.written[r];
        assert forall k :: 0 <= k < |before.events| ==> grown.events[k] == before.events[k];
        if before.Rescanned(r) {
          var k :| before.written[r] <= k < |before.events| && before.events[k].rescan;
          assert grown.events[k].rescan;
        }
      }
    }
  }

  // So the cursor the gap stores can be trusted exactly when everything written by then had been
  // handled before the gap was met.
  lemma GapIsSafeIff(before: World, e: Event, logged: World, grown: World)
    requires before.Valid() && !e.rescan && logged == before.(events := before.events + [e]) && Evolves(logged, grown)
    ensures Safe(grown.(cursor := Some(Cursor(grown.journal, grown.next))), {}) <==>
      forall r :: r in grown.written ==> r in before.written && before.Handled(r)
  {
    GapLosesExactly(before, e, logged, grown);
    var after := grown.(cursor := Some(Cursor(grown.journal, grown.next)));
    assert forall r :: r in grown.written ==> (after.Handled(r) <==> grown.Handled(r));
  }

  // Nothing need happen in between: a record the journal dropped unread is lost.
  lemma GapLosesRecord() returns (before: World, after: World, r: Record)
    ensures before.Valid() && Safe(before, {}) && before.cursor == Some(Cursor(1, 3)) && before.lowest == 5
    ensures after == before.(events := before.events + [Event("usn_gap", false)], cursor := Some(Cursor(1,
      before.next)))
    ensures r in before.written && r.usn < before.lowest && !after.Handled(r) && !Safe(after, {})
  {
    r := Record(1, 4);
    before := World(1, 5, 10, map[r := 0], Some(Cursor(1, 3)), [], {});
    after := before.(events := before.events + [Event("usn_gap", false)], cursor := Some(Cursor(1, 10)));
    assert after.events == [Event("usn_gap", false)];
  }

  lemma CursorMayMove(w: World, skipped: set<Record>, c: Cursor)
    requires w.Valid() && Cleared(w, skipped, c)
    ensures Safe(w.(cursor := Some(c)), skipped)
    ensures forall d :: Cleared(w.(cursor := Some(c)), skipped, d) <==> Cleared(w, skipped, d)
  {}

  lemma StartAtCursor(w: World, skipped: set<Record>)
    requires Safe(w, skipped) && w.cursor.Some?
    ensures Cleared(w, skipped, w.cursor.value)
  {}

  method InSomeOrder(records: set<Record>) returns (s: seq<Record>)
    ensures forall q :: q in s <==> q in records
  {
    s := [];
    var left := records;
    while left != {}
      invariant forall q :: q in records <==> q in s || q in left
      decreases left
    {
      var q :| q in left;
      s, left := s + [q], left - {q};
    }
  }
}
