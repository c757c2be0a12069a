/** What each rule of src/bilinc/core/time_intent.py means on the calendar, and which rule decides. */
module TimeWindows {
  import opened Wrappers
  import opened TimeIntent

  // ---------------------------------------------------------------- the calendar, day by day

  lemma NextDate(n: int)
    requires n >= 1
    ensures var d := DateOf(n);
      DateOf(n + 1) == if d.day < MonthLength(d.year, d.month) then Date(d.year, d.month, d.day + 1)
                       else if d.month < 12 then Date(d.year, d.month + 1, 1) else Date(d.year + 1, 1, 1)
  {
    hide Jan1, YearOf, DateOf, MonthLength, Ordinal, DaysBefore;
    var d := DateOf(n);
    var next := if d.day < MonthLength(d.year, d.month) then Date(d.year, d.month, d.day + 1)
                else if d.month < 12 then Date(d.year, d.month + 1, 1) else Date(d.year + 1, 1, 1);
    NextOrdinal(d, next);
    MonthsHaveDays(next.year, next.month);
    DateRoundTrip(next);
  }

  lemma MonthsHaveDays(y: int, m: int)
    ensures MonthLength(y, m) >= 1
  {
    hide IsLeap;
  }

  lemma FirstDate()
    ensures DateOf(1) == Date(1, 1, 1)
  {
    hide Jan1, YearOf, DateOf, DaysBefore, IsLeap;
    FirstDay();
    NoDaysBefore(1);
    DateRoundTrip(Date(1, 1, 1));
  }

  /** Day 1 is 1 January of year 1, and the days follow one another through the Gregorian months; `last` is the length of
      the month of day n. */
  lemma DatesAdvance(n: int, d: Date, last: int)
    requires n >= 1 && DateOf(n) == d
    requires last == if d.month == 2 then (if d.year % 4 == 0 && (d.year % 100 != 0 || d.year % 400 == 0) then 29 else 28)
                     else if d.month == 4 || d.month == 6 || d.month == 9 || d.month == 11 then 30 else 31
    ensures DateOf(1) == Date(1, 1, 1)
    ensures DateOf(n + 1) == if d.day < last then Date(d.year, d.month, d.day + 1)
                             else if d.month < 12 then Date(d.year, d.month + 1, 1) else Date(d.year + 1, 1, 1)
  {
    hide DateOf, MonthLength, Jan1, YearOf, IsLeap, Ordinal, DaysBefore, LeapDays;
    FirstDate();
    NextDate(n);
    MonthLengthIs(d.year, d.month);
  }

  lemma MonthLengthIs(y: int, m: int)
    ensures MonthLength(y, m) ==
      if m == 2 then (if y % 4 == 0 && (y % 100 != 0 || y % 400 == 0) then 29 else 28)
      else if m == 4 || m == 6 || m == 9 || m == 11 then 30 else 31
  {
  }

  /** Day 1 is a Monday, and after Sunday comes Monday. */
  lemma WeekdaysAdvance(n: int)
    ensures Weekday(1) == 0 && Weekday(n + 1) == if Weekday(n) == 6 then 0 else Weekday(n) + 1
  {
  }

  lemma NextOrdinal(d: Date, next: Date)
    requires d.year >= 1 && 1 <= d.month <= 12 && 1 <= d.day <= MonthLength(d.year, d.month)
    requires next == if d.day < MonthLength(d.year, d.month) then d.(day := d.day + 1)
                     else if d.month < 12 then Date(d.year, d.month + 1, 1) else Date(d.year + 1, 1, 1)
    ensures Ordinal(next) == Ordinal(d) + 1
  {
    hide Jan1, MonthLength;
    WholeYear(d.year);
    YearsAdjoin(d.year);
    NoDaysBefore(d.year + 1);
  }

  // ---------------------------------------------------------------- elapsed time

  lemma DaysEarlier(wall: int, k: int, earlier: int)
    requires earlier == wall - k * DAY
    ensures ReadingAt(earlier) == Local(ReadingAt(wall).day - k, ReadingAt(wall).time)
  {
  }

  /** "Last n days": from the same time of day, n calendar days earlier; an error only when those days run off year 1. */
  lemma LastDays(n: int, now: Moment, zone: Zone, offset: int)
    requires InCalendar(now.wall) && forall m :: zone(m) == offset
    requires 1 <= n <= 366
    ensures var b := Build(LastN(n, Days), now, Utc(now, zone));
      var shown := ReadingAt(now.wall);
      if ReadingAt(Utc(now, zone)).day - n < 1 then b == Overflow
      else b.Elapsed? && b.until == Utc(now, zone) && ReadingAt(b.since + offset) == Local(shown.day - n, shown.time)
  {
    hide ReadingAt;
    var instant := Utc(now, zone);
    DaysEarlier(now.wall, n, now.wall - n * DAY);
    DaysEarlier(instant, n, instant - n * DAY);
    FromDayOne(instant - n * DAY);
    assert Build(LastN(n, Days), now, instant) == Back(n * DAY, instant);
  }

  lemma FromDayOne(wall: int)
    ensures ReadingAt(wall).day < 1 <==> wall < DAY
  {
  }

  /** "Last n weeks": from the same time of day, 7 * n calendar days earlier. */
  lemma LastWeeks(n: int, now: Moment, zone: Zone, offset: int)
    requires InCalendar(now.wall) && forall m :: zone(m) == offset
    requires 1 <= n <= 366
    ensures var b := Build(LastN(n, Weeks), now, Utc(now, zone));
      var shown := ReadingAt(now.wall);
      if ReadingAt(Utc(now, zone)).day - 7 * n < 1 then b == Overflow
      else b.Elapsed? && b.until == Utc(now, zone) && ReadingAt(b.since + offset) == Local(shown.day - 7 * n, shown.time)
  {
    hide ReadingAt;
    var instant := Utc(now, zone);
    assert n * (7 * DAY) == (7 * n) * DAY;
    DaysEarlier(now.wall, 7 * n, now.wall - (7 * n) * DAY);
    DaysEarlier(instant, 7 * n, instant - (7 * n) * DAY);
    FromDayOne(instant - (7 * n) * DAY);
    assert Build(LastN(n, Weeks), now, instant) == Back(n * (7 * DAY), instant);
  }

  /** "Last n hours" counts hours of 3.6 thousand million microseconds, 24 of them to the day; a bare "lately" is the last
      day; and only counts from 1 to 366 are a window. */
  lemma LastHours(n: int, now: Moment, instant: int)
    requires InCalendar(now.wall)
    ensures 1 <= n <= 366 && instant - n * 3_600_000_000 >= DAY ==>
      Build(LastN(n, Hours), now, instant) == Elapsed(instant - n * 3_600_000_000, instant)
    ensures 1 <= 24 * n <= 366 ==> Build(LastN(24 * n, Hours), now, instant) == Build(LastN(n, Days), now, instant)
    ensures Build(Implicit, now, instant) == Build(LastN(1, Days), now, instant)
    ensures forall unit :: Build(LastN(n, unit), now, instant).NoWindow? <==> n < 1 || n > 366
  {
    hide ReadingAt;
  }

  // ---------------------------------------------------------------- days, weeks and months

  /** Today runs from its midnight to now; yesterday from the midnight before to this one. */
  lemma DayRules(now: Moment, instant: int, day: int)
    requires InCalendar(now.wall) && day == ReadingAt(now.wall).day
    ensures Build(Today, now, instant) == Clock(Moment(day * DAY, now.fold), now)
    ensures Build(Yesterday, now, instant) ==
            if day == 1 then Overflow else Clock(Moment((day - 1) * DAY, false), Moment(day * DAY, now.fold))
    ensures Build(SinceYesterday, now, instant) == if day == 1 then Overflow else Clock(Moment((day - 1) * DAY, false), now)
  {
    hide ReadingAt;
    InCalendarMeans(now.wall);
  }

  /** The week runs from its Monday, the last seven days up to today; the week before it ends there. */
  lemma WeekRules(now: Moment, instant: int, day: int, monday: int)
    requires InCalendar(now.wall) && day == ReadingAt(now.wall).day
    requires Weekday(monday) == 0 && monday <= day < monday + 7
    ensures Build(ThisWeek, now, instant) == Build(SinceThisWeek, now, instant) == Clock(Moment(monday * DAY, false), now)
    ensures Build(LastWeek, now, instant) ==
            if monday == 1 then Overflow else Clock(Moment((monday - 7) * DAY, false), Moment(monday * DAY, false))
    ensures Build(SinceLastWeek, now, instant) ==
            if monday == 1 then Overflow else Clock(Moment((monday - 7) * DAY, false), now)
  {
    hide ReadingAt, Weekday;
    InCalendarMeans(now.wall);
    LastSuchDay(day, 0, monday);
    FirstMonday(monday, day);
  }

  lemma LastSuchDay(day: int, weekday: int, from: int)
    requires 0 <= weekday < 7 && Weekday(from) == weekday && from <= day < from + 7
    ensures LastWeekday(day, weekday) == from && (weekday == 0 ==> Monday(day) == from)
  {
  }

  lemma FirstMonday(monday: int, day: int)
    requires Weekday(monday) == 0 && 1 <= day < monday + 7
    ensures monday == 1 || monday >= 8
  {
  }

  /** "Since Friday" starts at the last such day's midnight, today's if it is one. */
  lemma WeekdayRule(now: Moment, instant: int, day: int, weekday: int, from: int)
    requires InCalendar(now.wall) && day == ReadingAt(now.wall).day
    requires 0 <= weekday < 7 && Weekday(from) == weekday && from <= day < from + 7
    ensures Build(SinceWeekday(weekday), now, instant) ==
            if from < 1 then Overflow else Clock(Moment(from * DAY, false), now)
  {
    hide ReadingAt, Weekday, LastWeekday;
    LastSuchDay(day, weekday, from);
  }

  /** The month runs from the midnight of its 1st, the month before from its own 1st to there. */
  lemma MonthRules(now: Moment, instant: int, day: int, first: int, before: int)
    requires InCalendar(now.wall) && day == ReadingAt(now.wall).day
    requires day >= 1 && first >= 1 && DateOf(first) == Date(DateOf(day).year, DateOf(day).month, 1)
    requires first == 1 || before >= 1
    requires first == 1 || DateOf(before) == if DateOf(day).month == 1 then Date(DateOf(day).year - 1, 12, 1)
                                             else Date(DateOf(day).year, DateOf(day).month - 1, 1)
    ensures Build(ThisMonth, now, instant) == Build(SinceThisMonth, now, instant) == Clock(Moment(first * DAY, now.fold), now)
    ensures Build(LastMonth, now, instant) ==
            if first == 1 then Overflow else Clock(Moment(before * DAY, false), Moment(first * DAY, now.fold))
    ensures Build(SinceLastMonth, now, instant) == if first == 1 then Overflow else Clock(Moment(before * DAY, false), now)
  {
    hide ReadingAt, MonthStart, PrevMonthStart, DateOf, YearOf, Ordinal, Jan1;
    InCalendarMeans(now.wall);
    CalendarStarts(day);
    SameDay(first, MonthStart(day));
    if first > 1 {
      SameDay(before, PrevMonthStart(day));
    }
  }

  lemma SameDay(n: int, m: int)
    requires n >= 1 && m >= 1 && DateOf(n) == DateOf(m)
    ensures n == m
  {
    hide YearOf, Jan1, DaysBefore;
  }

  // ---------------------------------------------------------------- dates

  /** "Since 2024-02-29": from the midnight of that date when there is one and it is not to come. */
  lemma IsoRule(now: Moment, instant: int, d: Date)
    requires InCalendar(now.wall)
    ensures Build(SinceIso(d.year, d.month, d.day), now, instant) ==
      if 1 <= d.year <= 9999 && 1 <= d.month <= 12 && 1 <= d.day <= MonthLength(d.year, d.month) && Ordinal(d) * DAY <= now.wall
      then Clock(Moment(Ordinal(d) * DAY, false), now) else NoWindow
  {
    hide Build, MonthLength, Ordinal;
    BuildIso(d, now, instant);
  }

  /** "Since 29 February": this year's date, or last year's when this year's is still to come. */
  lemma DayMonthRule(now: Moment, instant: int, wanted: Date, earlier: Date)
    requires InCalendar(now.wall)
    requires ReadingAt(now.wall).day >= 1 && wanted.year == DateOf(ReadingAt(now.wall).day).year
    requires earlier == Date(wanted.year - 1, wanted.month, wanted.day)
    ensures Build(SinceDayMonth(wanted.month, wanted.day), now, instant) ==
      if wanted.year > 9999 || wanted.month < 1 || wanted.month > 12 || wanted.day < 1 || wanted.day > MonthLength(wanted.year, wanted.month)
      then NoWindow
      else if Ordinal(wanted) * DAY <= now.wall then Clock(Moment(Ordinal(wanted) * DAY, false), now)
      else if earlier.year < 1 || earlier.day > MonthLength(earlier.year, earlier.month) then NoWindow
      else Clock(Moment(Ordinal(earlier) * DAY, false), now)
  {
    hide Build, MonthLength, Ordinal, YearOf, DateOf, ReadingAt;
    BuildDayMonth(wanted.month, wanted.day, now, instant);
    InCalendarMeans(now.wall);
    assert Date(wanted.year, wanted.month, wanted.day) == wanted;
    assert wanted.(year := wanted.year - 1) == earlier;
  }

  // ---------------------------------------------------------------- which match decides

  lemma {:induction false} FirstPickIs(matches: seq<Match>, n: nat, implicit: bool, now: Moment, instant: int, i: int)
    requires n <= |matches| && InCalendar(now.wall) && YieldsFirst(matches, n, implicit, now, instant, i)
    ensures FirstPick(matches, n, implicit, now, instant) ==
            Some(Pick(Build(matches[i].rule, now, instant), matches[i].tag, implicit))
  {
    hide Build, InCalendar;
    if i < n - 1 {
      FirstPickIs(matches, n - 1, implicit, now, instant, i);
    } else {
      PicksWhenSomeMatchYields(matches, n - 1, implicit, now, instant);
    }
  }

  /** An explicit match decides when it yields a window and no explicit one before it does; nothing else matters but that no
      match runs off the calendar. The window is the one built, the wall clock's turned into UTC; leaving the calendar there
      is an error. */
  lemma ExplicitMatchDecides(matches: seq<Match>, cumulative: bool, now: Moment, zone: Zone, i: nat)
    requires DAY <= now.wall < END && i < |matches| && !matches[i].rule.Implicit?
    requires forall j :: 0 <= j < |matches| ==> !Build(matches[j].rule, now, now.wall - zone(now)).Overflow?
    requires !Build(matches[i].rule, now, now.wall - zone(now)).NoWindow?
    requires forall j :: 0 <= j < i && !matches[j].rule.Implicit? ==> Build(matches[j].rule, now, now.wall - zone(now)).NoWindow?
    ensures var outcome, m := Parsed(matches, false, cumulative, now, zone), matches[i];
      match Build(m.rule, now, now.wall - zone(now))
      case Elapsed(since, until) => outcome == Found(Intent(Window(since, until), m.tag, false))
      case Clock(start, end) =>
        var from, to := start.wall - zone(start), end.wall - zone(end);
        outcome == (if DAY <= from < END && DAY <= to < END then Found(Intent(Window(from, to), m.tag, false)) else Raised)
      case _ => false
  {
    hide Build, FirstPick;
    FirstPickIs(matches, |matches|, false, now, now.wall - zone(now), i);
  }

  /** An implicit match decides when no explicit one yields, the text is not cumulative, and no implicit one before it
      yields. */
  lemma ImplicitMatchDecides(matches: seq<Match>, now: Moment, zone: Zone, i: nat)
    requires DAY <= now.wall < END && i < |matches| && matches[i].rule.Implicit?
    requires forall j :: 0 <= j < |matches| ==> !Build(matches[j].rule, now, now.wall - zone(now)).Overflow?
    requires !Build(matches[i].rule, now, now.wall - zone(now)).NoWindow?
    requires forall j :: 0 <= j < |matches| && (j < i || !matches[j].rule.Implicit?) ==>
               Build(matches[j].rule, now, now.wall - zone(now)).NoWindow?
    ensures var outcome, m := Parsed(matches, false, false, now, zone), matches[i];
      match Build(m.rule, now, now.wall - zone(now))
      case Elapsed(since, until) => outcome == Found(Intent(Window(since, until), m.tag, true))
      case Clock(start, end) =>
        var from, to := start.wall - zone(start), end.wall - zone(end);
        outcome == (if DAY <= from < END && DAY <= to < END then Found(Intent(Window(from, to), m.tag, true)) else Raised)
      case _ => false
  {
    hide Build, FirstPick;
    PicksWhenSomeMatchYields(matches, |matches|, false, now, now.wall - zone(now));
    FirstPickIs(matches, |matches|, true, now, now.wall - zone(now), i);
  }

  /** Otherwise there is no answer: the text is guarded, or no explicit match yields and no implicit one does or may. */
  lemma NothingDecides(matches: seq<Match>, vetoed: bool, cumulative: bool, now: Moment, zone: Zone)
    requires DAY <= now.wall < END
    requires vetoed || forall j :: 0 <= j < |matches| ==> !Build(matches[j].rule, now, now.wall - zone(now)).Overflow?
    requires vetoed || forall j :: 0 <= j < |matches| && (!cumulative || !matches[j].rule.Implicit?) ==>
               Build(matches[j].rule, now, now.wall - zone(now)).NoWindow?
    ensures Parsed(matches, vetoed, cumulative, now, zone) == Nothing
  {
    hide Build, FirstPick;
    PicksWhenSomeMatchYields(matches, |matches|, false, now, now.wall - zone(now));
    PicksWhenSomeMatchYields(matches, |matches|, true, now, now.wall - zone(now));
  }

  /** And it raises, whatever else matches, when the clock or one match's builder leaves the calendar. */
  lemma AnyOverflowRaises(matches: seq<Match>, cumulative: bool, now: Moment, zone: Zone, i: nat)
    requires now.wall < DAY || now.wall >= END || (i < |matches| && Build(matches[i].rule, now, now.wall - zone(now)).Overflow?)
    ensures Parsed(matches, false, cumulative, now, zone) == Raised
  {
    hide Build, FirstPick;
  }
}
