// The calendar scans of src/core/scheduler.rs and src/core/standby.rs. Local time is a number
// of seconds at a fixed offset; days are numbered from 1970-01-01.
module Calendar {
  import opened Wrappers

  const DAY := 86400

  // Days from Monday; day 0 is a Thursday.
  function Weekday(day: int): int { (day + 3) % 7 }

  function DateOf(t: int): int { t / DAY }

  datatype Cadence = Cadence(everyWeeks: nat, weekday: int, anchor: int, time: int)
  {
    ghost predicate Valid() {
      0 <= weekday < 7 && 0 <= time < DAY
    }

    function Every(): (n: nat)
      ensures n >= 1
    {
      if everyWeeks < 1 then 1 else everyWeeks
    }

    predicate Scheduled(day: int) {
      Weekday(day) == weekday && OnCadence(anchor, day, Every())
    }

    function Start(day: int): int { day * DAY + time }

    // `t` is a scheduled instant of the calendar, however far away.
    ghost predicate IsStart(t: int) {
      exists day: int :: Scheduled(day) && t == Start(day)
    }

    // `t` is the first scheduled instant after `after`.
    ghost predicate IsNextStart(after: int, t: int) {
      && IsStart(t) && after < t
      && forall u: int :: IsStart(u) && after < u ==> t <= u
    }
  }

  // Weeks are counted from the anchor, with floor division for dates before it.
  predicate OnCadence(anchor: int, day: int, every: nat)
    requires every >= 1
  {
    (day - anchor) / 7 % every == 0
  }

  // The scheduler's copy of the test short-cuts the weekly case; it is the same test.
  predicate OnCadenceShortcut(anchor: int, day: int, every: nat)
    requires every >= 1
  {
    every <= 1 || (day - anchor) / 7 % every == 0
  }

  lemma CadenceTestsAgree(anchor: int, day: int, every: nat)
    requires every >= 1
    ensures OnCadenceShortcut(anchor, day, every) == OnCadence(anchor, day, every)
  {}

  lemma WeekIndex(anchor: int, week: int, r: int)
    requires 0 <= r < 7
    ensures (anchor + 7 * week + r - anchor) / 7 == week
  {}

  lemma WeekdayOfShift(day: int, weeks: int)
    ensures Weekday(day + 7 * weeks) == Weekday(day)
  {}

  lemma CadenceOfPeriod(week: int, every: nat, q: int)
    requires every >= 1 && week % every == 0
    ensures (week + q * every) % every == 0
  {
    assert week == (week / every) * every;
    assert week + q * every == (week / every + q) * every;
    MultipleModulo(week / every + q, every);
  }

  lemma MultipleModulo(k: int, every: nat)
    requires every >= 1
    ensures k * every % every == 0
  {
    var q, r := k * every / every, k * every % every;
    assert k * every == q * every + r;
    assert (k - q) * every == r;
    MultipleBounds(k - q, every);
  }

  lemma MultipleBounds(m: int, n: nat)
    ensures m >= 1 ==> m * n >= n
    ensures m <= -1 ==> m * n + n <= 0
  {
    if m >= 1 {
      assert m * n == (m - 1) * n + n;
    } else if m <= -1 {
      assert m * n == (m + 1) * n - n;
    }
  }

  // Two scheduled days are at least `every` weeks apart.
  lemma ScheduledDaysApart(c: Cadence, d: int, e: int)
    requires c.Valid() && c.Scheduled(d) && c.Scheduled(e) && d < e
    ensures e - d >= 7 * c.Every()
  {
    var w, v := (d - c.anchor) / 7, (e - c.anchor) / 7;
    SameWeekday(c.anchor, d, e);
    PeriodGap(w, v, c.Every());
  }

  lemma SameWeekday(anchor: int, d: int, e: int)
    requires Weekday(d) == Weekday(e)
    ensures e - d == 7 * ((e - anchor) / 7 - (d - anchor) / 7)
  {
    var k := (e + 3) / 7 - (d + 3) / 7;
    assert e - d == 7 * k;
    assert (d - anchor + 7 * k) / 7 == (d - anchor) / 7 + k;
  }

  lemma PeriodGap(w: int, v: int, every: nat)
    requires every >= 1 && w % every == 0 == v % every && w < v
    ensures v - w >= every
  {
    var p, q := w / every, v / every;
    assert w == p * every && v == q * every;
    assert v - w == (q - p) * every;
    MultipleBounds(q - p, every);
  }

  // And one lies in every half-open stretch of that length.
  lemma ScheduledDayIn(c: Cadence, last: int) returns (day: int)
    requires c.Valid()
    ensures c.Scheduled(day) && last - 7 * c.Every() < day <= last
  {
    hide *;
    var every := c.Every();
    var week := (last - c.anchor) / 7;
    var base := LastCadenceWeek(week, every);
    day := ScheduledDayOfWeek(c, base);
    if day > last {
      CadenceOfPeriod(base, every, -1);
      assert base + -1 * every == base - every;
      day := ScheduledDayOfWeek(c, base - every);
    }
  }

  lemma LastCadenceWeek(week: int, every: nat) returns (base: int)
    requires every >= 1
    ensures base % every == 0 && week - every < base <= week
  {
    base := (week / every) * every;
    assert week == base + week % every;
    MultipleModulo(week / every, every);
  }

  lemma ScheduledDayOfWeek(c: Cadence, week: int) returns (day: int)
    requires c.Valid() && week % c.Every() == 0
    ensures c.Scheduled(day) && day == c.anchor + (c.weekday - Weekday(c.anchor)) % 7 + 7 * week
  {
    var offset := (c.weekday - Weekday(c.anchor)) % 7;
    assert Weekday(c.anchor + offset) == c.weekday;
    day := c.anchor + offset + 7 * week;
    WeekIndex(c.anchor, week, offset);
    WeekdayOfShift(c.anchor + offset, week);
    assert day == c.anchor + 7 * week + offset;
  }

  lemma StartsOrdered(c: Cadence, d: int, e: int)
    ensures d < e <==> c.Start(d) < c.Start(e)
  {}

  lemma DateBounds(t: int)
    ensures DateOf(t) * DAY <= t < DateOf(t) * DAY + DAY
  {}

  // ---------------------------------------------------------------- forward scan

  // The scan shared by next_wake_start_after and the weekly arm of next_boundary_after:
  // the final `bail!` of both is never reached.
  method NextStartAfter(after: int, c: Cadence) returns (r: Option<int>)
    requires c.Valid()
    ensures r.Some? && c.IsNextStart(after, r.value)
  {
    var today := DateOf(after);
    DateBounds(after);
    var every := c.Every();
    ghost var reached := ScheduledDayIn(c, today + 7 * every);
    var date := today;
    var tries := 0;
    while tries < every * 7 + 8
      invariant 0 <= tries <= every * 7 + 8 && date == today + tries
      invariant date <= reached  // a scheduled day inside the horizon is still ahead
      invariant forall day :: day < date && c.Scheduled(day) ==> c.Start(day) <= after
    {
      if Weekday(date) == c.weekday && OnCadence(c.anchor, date, every) {
        var start := c.Start(date);
        if start > after {
          assert c.Scheduled(date);
          forall u | c.IsStart(u) && after < u
            ensures start <= u
          {
            var day :| c.Scheduled(day) && u == c.Start(day);
            StartsOrdered(c, day, date);
          }
          return Some(start);
        }
      }
      date := date + 1;
      tries := tries + 1;
    }
    assert false;
  }

  // ---------------------------------------------------------------- wake windows

  datatype Wake = Wake(cadence: Cadence, maxWindowMinutes: nat) | BadWake
  {
    ghost predicate Valid() {
      Wake? ==> cadence.Valid()
    }

    function Window(): (w: int)
      requires Wake?
      ensures w >= 60
    {
      60 * (if maxWindowMinutes < 1 then 1 else maxWindowMinutes)
    }

    // Some scheduled start, anywhere on the calendar, opened a window still running at `now`.
    ghost predicate Open(now: int) {
      Wake? && exists day: int :: cadence.Scheduled(day) && cadence.Start(day) <= now < cadence.Start(day) + Window()
    }
  }

  method NextWakeStartAfter(after: int, wake: Wake) returns (r: Option<int>)
    requires wake.Valid()
    ensures r.Some? <==> wake.Wake?
    ensures r.Some? ==> wake.cadence.IsNextStart(after, r.value)
  {
    if wake.BadWake? {
      return None;
    }
    r := NextStartAfter(after, wake.cadence);
  }

  // The bounded backward scan decides the unbounded question: the first scheduled start at or
  // before `now` settles it, and the horizon always reaches one.
  method IsWithinWakeWindow(now: int, wake: Wake) returns (r: Option<bool>)
    requires wake.Valid()
    ensures r == if wake.BadWake? then None else Some(wake.Open(now))
  {
    if wake.BadWake? {
      return None;
    }
    var c, window := wake.cadence, wake.Window();
    var today := DateOf(now);
    DateBounds(now);
    var every := c.Every();
    ghost var reached := ScheduledDayIn(c, today - 1);
    var date := today;
    var tries := 0;
    while tries < every * 7 + 8
      invariant 0 <= tries <= every * 7 + 8 && date == today - tries
      invariant date >= reached  // a scheduled day inside the horizon is still ahead
      invariant forall day :: day > date && c.Scheduled(day) ==> c.Start(day) > now
    {
      if Weekday(date) == c.weekday && OnCadence(c.anchor, date, every) {
        var start := c.Start(date);
        assert c.Scheduled(date);
        if start <= now && now < start + window {
          return Some(true);
        }
        if start <= now {
          forall day | c.Scheduled(day)
            ensures !(c.Start(day) <= now < c.Start(day) + window)
          {
            StartsOrdered(c, day, date);
            StartsOrdered(c, date, day);
          }
          return Some(false);
        }
      }
      date := date - 1;
      tries := tries + 1;
    }
    assert false;
  }

  // "In standby until": from a closed moment the window stays closed up to the next start,
  // and is open at that start.
  lemma StandbyUntilIsExact(wake: Wake, now: int, until: int)
    requires wake.Wake? && wake.Valid() && !wake.Open(now) && wake.cadence.IsNextStart(now, until)
    ensures forall t :: now <= t < until ==> !wake.Open(t)
    ensures wake.Open(until)
  {
    var c := wake.cadence;
    forall t | now <= t < until
      ensures !wake.Open(t)
    {
      if wake.Open(t) {
        var day :| c.Scheduled(day) && c.Start(day) <= t < c.Start(day) + wake.Window();
        assert c.IsStart(c.Start(day));
        assert false;
      }
    }
  }

  // ---------------------------------------------------------------- sync schedules

  datatype Schedule = Realtime | Daily(time: int) | Weekly(cadence: Cadence) | Unparseable
  {
    ghost predicate Valid() {
      match this
      case Daily(time) => 0 <= time < DAY
      case Weekly(cadence) => cadence.Valid()
      case _ => true
    }

    ghost predicate IsBoundary(t: int) {
      match this
      case Daily(time) => exists day: int :: t == DailySlot(day, time)
      case Weekly(cadence) => cadence.IsStart(t)
      case _ => false
    }

    // A cycle begun at `startsAt` is due: some boundary has passed since.
    ghost predicate Due(startsAt: int, now: int) {
      match this
      case Realtime => startsAt <= now
      case Unparseable => now - startsAt >= DAY
      case _ => exists t: int :: IsBoundary(t) && startsAt < t <= now
    }
  }

  function DailySlot(day: int, time: int): int { day * DAY + time }

  method NextBoundaryAfter(startsAt: int, s: Schedule) returns (r: Option<int>)
    requires s.Valid()
    ensures r.None? <==> s.Unparseable?
    ensures s.Realtime? ==> r == Some(startsAt)
    ensures s.Daily? || s.Weekly? ==>
      && startsAt < r.value && s.IsBoundary(r.value)
      && forall t: int :: s.IsBoundary(t) && startsAt < t ==> r.value <= t
  {
    match s
    case Realtime => r := Some(startsAt);
    case Unparseable => r := None;
    case Daily(time) =>
      var date := DateOf(startsAt);
      DateBounds(startsAt);
      while DailySlot(date, time) <= startsAt
        invariant forall day: int :: day < date ==> DailySlot(day, time) <= startsAt
        decreases DateOf(startsAt) + 2 - date
      {
        date := date + 1;
      }
      var slot := DailySlot(date, time);
      forall t | s.IsBoundary(t) && startsAt < t
        ensures slot <= t
      {
        var day :| t == DailySlot(day, time);
      }
      r := Some(slot);
    case Weekly(cadence) =>
      r := NextStartAfter(startsAt, cadence);
  }

  method CycleIsDue(startsAt: int, now: int, s: Schedule) returns (due: bool)
    requires s.Valid()
    ensures due == s.Due(startsAt, now)
  {
    var boundary := NextBoundaryAfter(startsAt, s);
    match boundary
    case Some(t) => due := now >= t;
    case None => due := now - startsAt >= DAY;
  }

  // ---------------------------------------------------------------- in numbers

  // Weekdays follow one another from a Thursday, 1970-01-01.
  lemma WeekdaysRun(day: int)
    ensures Weekday(0) == 3 && Weekday(day + 1) == (Weekday(day) + 1) % 7
  {}

  // The instant is at this time of a day, the day is the weekday wanted, and its week is a whole
  // number of periods from the anchor's; a period of no weeks counts as one.
  ghost predicate WeeklyAt(c: Cadence, t: int) {
    && t % 86400 == c.time && (t / 86400 + 3) % 7 == c.weekday
    && (t / 86400 - c.anchor) / 7 % (if c.everyWeeks == 0 then 1 else c.everyWeeks) == 0
  }

  ghost predicate DailyAt(time: int, t: int) {
    t % 86400 == time
  }

  lemma SplitInstant(day: int, time: int)
    requires 0 <= time < 86400
    ensures (day * 86400 + time) % 86400 == time && (day * 86400 + time) / 86400 == day
  {}

  lemma StartIff(c: Cadence, t: int)
    requires c.Valid()
    ensures c.IsStart(t) <==> WeeklyAt(c, t)
  {
    hide Weekday, OnCadence;
    forall day: int | c.Scheduled(day) && t == c.Start(day)
      ensures WeeklyAt(c, t)
    {
      SplitInstant(day, c.time);
      DayIff(c, day);
    }
    if WeeklyAt(c, t) {
      DayIff(c, t / 86400);
      assert c.Scheduled(t / 86400) && t == c.Start(t / 86400);
    }
  }

  lemma DayIff(c: Cadence, day: int)
    ensures c.Scheduled(day) <==>
      && (day + 3) % 7 == c.weekday
      && (day - c.anchor) / 7 % (if c.everyWeeks == 0 then 1 else c.everyWeeks) == 0
  {}

  // A window is open from each such instant on, for its number of minutes, at least one.
  lemma OpenIff(wake: Wake, now: int)
    requires wake.Wake? && wake.Valid()
    ensures wake.Open(now) <==>
      exists t: int :: WeeklyAt(wake.cadence, t)
        && t <= now < t + 60 * (if wake.maxWindowMinutes == 0 then 1 else wake.maxWindowMinutes)
  {
    hide WeeklyAt, Cadence.Scheduled;
    var c := wake.cadence;
    if wake.Open(now) {
      var day: int :| c.Scheduled(day) && c.Start(day) <= now < c.Start(day) + wake.Window();
      assert c.IsStart(c.Start(day));
      StartIff(c, c.Start(day));
    }
    forall t: int | WeeklyAt(c, t) ensures c.IsStart(t) {
      StartIff(c, t);
    }
  }

  // What each schedule asks for.
  ghost predicate Asks(s: Schedule, startsAt: int, now: int) {
    match s
    case Realtime => startsAt <= now
    case Daily(time) => exists t: int :: DailyAt(time, t) && startsAt < t <= now
    case Weekly(cadence) => exists t: int :: WeeklyAt(cadence, t) && startsAt < t <= now
    case Unparseable => now - startsAt >= 86400
  }

  lemma DueIff(s: Schedule, startsAt: int, now: int)
    requires s.Valid()
    ensures s.Due(startsAt, now) <==> Asks(s, startsAt, now)
  {
    hide WeeklyAt, Cadence.IsStart;
    match s
    case Daily(time) =>
      forall t: int ensures s.IsBoundary(t) <==> DailyAt(time, t) {
        DailyIff(time, t);
      }
    case Weekly(cadence) =>
      forall t: int ensures s.IsBoundary(t) <==> WeeklyAt(cadence, t) {
        StartIff(cadence, t);
      }
    case _ =>
  }

  lemma DailyIff(time: int, t: int)
    requires 0 <= time < 86400
    ensures Daily(time).IsBoundary(t) <==> DailyAt(time, t)
  {
    forall day: int | t == DailySlot(day, time) ensures DailyAt(time, t) {
      SplitInstant(day, time);
    }
    if DailyAt(time, t) {
      assert t == DailySlot(t / 86400, time);
    }
  }
}
