/** Time windows of src/bilinc/core/time_intent.py and the UTC+14 pre-check of src/bilinc/cloud/runtime.py. */
module TimeIntent {
  import opened Wrappers

  // ---------------------------------------------------------------- the proleptic Gregorian calendar

  predicate IsLeap(y: int) {
    y % 4 == 0 && (y % 100 != 0 || y % 400 == 0)
  }

  // Leap days up to the end of year y.
  function LeapDays(y: int): int {
    y / 4 - y / 100 + y / 400
  }

  // Ordinal of 1 January; 1 January of year 1 is day 1, a Monday.
  function Jan1(y: int): int {
    365 * (y - 1) + LeapDays(y - 1) + 1
  }

  function YearLength(y: int): int {
    if IsLeap(y) then 366 else 365
  }

  lemma YearsAdjoin(y: int)
    ensures Jan1(y + 1) == Jan1(y) + YearLength(y)
  {
    hide LeapDays, IsLeap;
    NextLeapDay(y);
  }

  lemma NextLeapDay(y: int)
    ensures LeapDays(y) == LeapDays(y - 1) + (if IsLeap(y) then 1 else 0)
  {
    StepOfQuotient(y, 4);
    StepOfQuotient(y, 100);
    StepOfQuotient(y, 400);
    Multiples(y);
  }

  lemma Multiples(y: int)
    ensures y % 400 == 0 ==> y % 100 == 0
    ensures y % 100 == 0 ==> y % 4 == 0
  {
    if y % 100 == 0 {
      FourDivides(y, y / 100);
    }
    if y % 400 == 0 {
      HundredDivides(y, y / 400);
    }
  }

  lemma FourDivides(y: int, q: int)
    requires y == 100 * q
    ensures y % 4 == 0
  {
    var k := 25 * q;
    assert y == 4 * k;
  }

  lemma HundredDivides(y: int, q: int)
    requires y == 400 * q
    ensures y % 100 == 0
  {
    var k := 4 * q;
    assert y == 100 * k;
  }

  lemma StepOfQuotient(y: int, n: int)
    requires n == 4 || n == 100 || n == 400
    ensures y / n == (y - 1) / n + (if y % n == 0 then 1 else 0)
  {
  }

  lemma {:induction false} YearsGrow(y: int, z: int)
    requires y <= z
    ensures Jan1(y) + 365 * (z - y) <= Jan1(z)
    decreases z - y
  {
    hide Jan1;
    if y < z {
      YearsGrow(y, z - 1);
      YearsAdjoin(z - 1);
    }
  }

  // The year of a day, counting up from year y.
  function YearFrom(n: int, y: int): (r: int)
    requires n >= Jan1(y)
    ensures r >= y && Jan1(r) <= n < Jan1(r + 1)
    decreases n - Jan1(y)
  {
    YearsAdjoin(y);
    if n < Jan1(y + 1) then y else YearFrom(n, y + 1)
  }

  function YearOf(n: int): (y: int)
    requires n >= 1
    ensures y >= 1 && Jan1(y) <= n < Jan1(y + 1)
  {
    YearFrom(n, 1)
  }

  lemma YearIsUnique(n: int, y: int)
    requires n >= 1 && Jan1(y) <= n < Jan1(y + 1)
    ensures YearOf(n) == y
  {
    hide Jan1;
    var r := YearOf(n);
    if r < y {
      YearsGrow(r + 1, y);
    } else if y < r {
      YearsGrow(y + 1, r);
    }
  }

  function MonthLength(y: int, m: int): int {
    if m == 2 then (if IsLeap(y) then 29 else 28) else if m == 4 || m == 6 || m == 9 || m == 11 then 30 else 31
  }

  // Days of the year before month m.
  function DaysBefore(y: int, m: nat): int
    requires 1 <= m <= 13
  {
    if m == 1 then 0 else DaysBefore(y, m - 1) + MonthLength(y, m - 1)
  }

  lemma NoDaysBefore(y: int)
    ensures DaysBefore(y, 1) == 0
  {
  }

  lemma FirstDay()
    ensures Jan1(1) == 1
  {
  }

  lemma AfterLastDay()
    ensures Jan1(10000) == 3_652_060
  {
  }

  lemma WholeYear(y: int)
    ensures DaysBefore(y, 13) == YearLength(y)
  {
    var feb := MonthLength(y, 2);
    assert DaysBefore(y, 2) == 31;
    assert DaysBefore(y, 3) == 31 + feb;
    assert DaysBefore(y, 4) == 62 + feb;
    assert DaysBefore(y, 5) == 92 + feb;
    assert DaysBefore(y, 6) == 123 + feb;
    assert DaysBefore(y, 7) == 153 + feb;
    assert DaysBefore(y, 8) == 184 + feb;
    assert DaysBefore(y, 9) == 215 + feb;
    assert DaysBefore(y, 10) == 245 + feb;
    assert DaysBefore(y, 11) == 276 + feb;
    assert DaysBefore(y, 12) == 306 + feb;
  }

  // The month a day of the year falls in, counting up from month m.
  function MonthFrom(y: int, k: int, m: nat): (r: nat)
    requires 1 <= m <= 12 && DaysBefore(y, m) <= k < DaysBefore(y, 13)
    ensures 1 <= r <= 12 && DaysBefore(y, r) <= k < DaysBefore(y, r + 1)
    decreases 13 - m
  {
    if k < DaysBefore(y, m + 1) then m else MonthFrom(y, k, m + 1)
  }

  datatype Date = Date(year: int, month: int, day: int)

  predicate IsValid(d: Date) {
    1 <= d.year <= 9999 && 1 <= d.month <= 12 && 1 <= d.day <= MonthLength(d.year, d.month)
  }

  function Ordinal(d: Date): int
    requires 1 <= d.month <= 12
  {
    Jan1(d.year) + DaysBefore(d.year, d.month) + d.day - 1
  }

  /** The calendar date of a day number. */
  function DateOf(n: int): (d: Date)
    requires n >= 1
    ensures 1 <= d.month <= 12 && 1 <= d.day <= MonthLength(d.year, d.month) && Ordinal(d) == n && d.year == YearOf(n)
  {
    var y := YearOf(n);
    YearsAdjoin(y);
    WholeYear(y);
    var m := MonthFrom(y, n - Jan1(y), 1);
    Date(y, m, n - Jan1(y) - DaysBefore(y, m) + 1)
  }

  lemma {:induction false} MonthsGrow(y: int, a: nat, b: nat)
    requires 1 <= a <= b <= 13
    ensures DaysBefore(y, a) <= DaysBefore(y, b) && (a < b ==> DaysBefore(y, a) + 28 <= DaysBefore(y, b))
    decreases b - a
  {
    if a < b {
      MonthsGrow(y, a, b - 1);
    }
  }

  lemma MonthIsUnique(y: int, k: int, m: nat)
    requires 1 <= m <= 12 && 0 <= k && DaysBefore(y, m) <= k < DaysBefore(y, m + 1)
    ensures k < DaysBefore(y, 13) && MonthFrom(y, k, 1) == m
  {
    hide DaysBefore, MonthLength;
    NoDaysBefore(y);
    MonthsGrow(y, m + 1, 13);
    var r := MonthFrom(y, k, 1);
    if r < m {
      MonthsGrow(y, r + 1, m);
    } else if m < r {
      MonthsGrow(y, m + 1, r);
    }
  }

  lemma OrdinalInYear(d: Date)
    requires d.year >= 1 && 1 <= d.month <= 12 && 1 <= d.day <= MonthLength(d.year, d.month)
    ensures Ordinal(d) >= 1 && Jan1(d.year) <= Ordinal(d) < Jan1(d.year + 1)
    ensures var k := Ordinal(d) - Jan1(d.year); DaysBefore(d.year, d.month) <= k < DaysBefore(d.year, d.month + 1)
  {
    hide Jan1, MonthLength;
    YearsGrow(1, d.year);
    FirstDay();
    MonthsGrow(d.year, 1, d.month);
    MonthsGrow(d.year, d.month + 1, 13);
    WholeYear(d.year);
    YearsAdjoin(d.year);
  }

  /** Day numbers and calendar dates are in bijection: every date comes back from its number. */
  lemma DateRoundTrip(d: Date)
    requires d.year >= 1 && 1 <= d.month <= 12 && 1 <= d.day <= MonthLength(d.year, d.month)
    ensures Ordinal(d) >= 1 && DateOf(Ordinal(d)) == d
  {
    hide Jan1, MonthLength, DaysBefore, YearOf;
    OrdinalInYear(d);
    YearIsUnique(Ordinal(d), d.year);
    MonthIsUnique(d.year, Ordinal(d) - Jan1(d.year), d.month);
  }

  /** Later days have later dates. */
  lemma YearsMonotone(n: int, m: int)
    requires 1 <= n <= m
    ensures YearOf(n) <= YearOf(m)
  {
    hide Jan1;
    if YearOf(m) < YearOf(n) {
      YearsGrow(YearOf(m) + 1, YearOf(n));
    }
  }

  // ---------------------------------------------------------------- local times and windows

  const HOUR := 3_600_000_000
  const DAY := 24 * HOUR

  /** A wall clock reading: the day it shows and the microseconds since its midnight. */
  datatype Local = Local(day: int, time: int)

  // Instants and wall clocks as microseconds since the same midnight.
  function Wall(l: Local): int {
    l.day * DAY + l.time
  }

  function ReadingAt(wall: int): (l: Local)
    ensures Wall(l) == wall && 0 <= l.time < DAY
  {
    Local(wall / DAY, wall % DAY)
  }

  // Midnight after 31 December 9999.
  const END := 3_652_060 * DAY

  /** What a datetime can hold: years 1 to 9999. */
  predicate InCalendar(wall: int) {
    DAY <= wall < END
  }

  lemma InCalendarMeans(wall: int)
    requires InCalendar(wall)
    ensures ReadingAt(wall).day >= 1 && 1 <= YearOf(ReadingAt(wall).day) <= 9999
  {
    hide Jan1;
    AfterLastDay();
    var day := ReadingAt(wall).day;
    assert day < 3_652_060;
    var y := YearOf(day);
    if y >= 10000 {
      YearsGrow(10000, y);
    }
  }

  datatype Window = Window(start: int, end: int)

  datatype Unit = Hours | Days | Weeks

  /** What a rule's match asks for. Day and month names and digits are already read. */
  datatype Rule =
    | Today | Yesterday | ThisWeek | LastWeek | ThisMonth | LastMonth
    | LastN(n: int, unit: Unit)
    | SinceWeekday(weekday: int)
    | SinceYesterday | SinceThisWeek | SinceLastWeek | SinceThisMonth | SinceLastMonth
    | SinceIso(year: int, month: int, day: int)
    | SinceDayMonth(month: int, day: int)
    | Implicit

  function UnitLength(unit: Unit): int {
    match unit case Hours => HOUR case Days => DAY case Weeks => 7 * DAY
  }

  // Monday is 0.
  function Weekday(day: int): int {
    (day + 6) % 7
  }

  function Monday(day: int): int {
    day - Weekday(day)
  }

  // The last day with this weekday, today included.
  function LastWeekday(day: int, weekday: int): int {
    day - (Weekday(day) - weekday) % 7
  }

  function MonthStart(day: int): (first: int)
    requires day >= 1
    ensures 1 <= first <= day
  {
    FirstOfMonthExists(DateOf(day));
    day - (DateOf(day).day - 1)
  }

  lemma FirstOfMonthExists(d: Date)
    requires d.year >= 1 && 1 <= d.month <= 12
    ensures Ordinal(d.(day := 1)) >= 1
  {
    hide Jan1;
    YearsGrow(1, d.year);
    FirstDay();
    MonthsGrow(d.year, 1, d.month);
  }

  // The first day of the month before; there must be one.
  function PrevMonthStart(day: int): (first: int)
    requires day >= 1 && MonthStart(day) > 1
    ensures 1 <= first < MonthStart(day)
  {
    MonthStart(MonthStart(day) - 1)
  }

  function Midnight(d: Date): Option<int> {
    if IsValid(d) then Some(Ordinal(d) * DAY) else None
  }

  // A day and month without a year: this year's, or last year's when this year's is still to come.
  function SinceDate(now: int, d: Date): Option<int> {
    match Midnight(d)
    case None => None
    case Some(start) => if start > now then Midnight(d.(year := d.year - 1)) else Some(start)
  }

  /** A reading of the wall clock, as Python keeps it: `fold` marks the second pass through a repeated hour. */
  datatype Moment = Moment(wall: int, fold: bool)

  // A midnight reached by counting days, which is always its first pass.
  function DayStart(day: int): Moment {
    Moment(day * DAY, false)
  }

  // A midnight set on a reading, which keeps its pass.
  function MidnightOf(day: int, now: Moment): Moment {
    Moment(day * DAY, now.fold)
  }

  /** What a rule's builder returns: no window, one on the wall clock, or one of elapsed time in UTC. `Overflow` is the
      error of a datetime that would lie before year 1. */
  datatype Built = NoWindow | Clock(start: Moment, end: Moment) | Elapsed(since: int, until: int) | Overflow {
    predicate Yields() {
      Clock? || Elapsed?
    }
  }

  function FromDay(day: int, end: Moment): Built {
    if day < 1 then Overflow else Clock(DayStart(day), end)
  }

  function Back(length: int, instant: int): Built {
    if instant - length < DAY then Overflow else Elapsed(instant - length, instant)
  }

  function FromMonthBefore(day: int, end: Moment): Built
    requires day >= 1
  {
    if MonthStart(day) == 1 then Overflow else FromDay(PrevMonthStart(day), end)
  }

  /** The rule's builder at an instant that a wall clock shows as `now`. */
  function Build(rule: Rule, now: Moment, instant: int): Built
    requires InCalendar(now.wall)
  {
    InCalendarMeans(now.wall);
    var day := ReadingAt(now.wall).day;
    match rule
    case Today => Clock(MidnightOf(day, now), now)
    case Yesterday => FromDay(day - 1, MidnightOf(day, now))
    case ThisWeek => FromDay(Monday(day), now)
    case LastWeek => FromDay(Monday(day) - 7, DayStart(Monday(day)))
    case ThisMonth => Clock(MidnightOf(MonthStart(day), now), now)
    case LastMonth => FromMonthBefore(day, MidnightOf(MonthStart(day), now))
    case LastN(n, unit) => if n <= 0 || n > 366 then NoWindow else Back(n * UnitLength(unit), instant)
    case SinceWeekday(weekday) => FromDay(LastWeekday(day, weekday), now)
    case SinceYesterday => FromDay(day - 1, now)
    case SinceThisWeek => FromDay(Monday(day), now)
    case SinceLastWeek => FromDay(Monday(day) - 7, now)
    case SinceThisMonth => Clock(MidnightOf(MonthStart(day), now), now)
    case SinceLastMonth => FromMonthBefore(day, now)
    case SinceIso(y, m, d) =>
      (match Midnight(Date(y, m, d))
       case Some(start) => if start <= now.wall then Clock(Moment(start, false), now) else NoWindow
       case None => NoWindow)
    case SinceDayMonth(m, d) =>
      (match SinceDate(now.wall, Date(YearOf(day), m, d)) case Some(start) => Clock(Moment(start, false), now) case None => NoWindow)
    case Implicit => Back(24 * HOUR, instant)
  }

  // What the two builders of dates return.
  lemma BuildIso(d: Date, now: Moment, instant: int)
    requires InCalendar(now.wall)
    ensures Build(SinceIso(d.year, d.month, d.day), now, instant) ==
      match Midnight(d)
      case Some(start) => if start <= now.wall then Clock(Moment(start, false), now) else NoWindow
      case None => NoWindow
  {
    hide Midnight, SinceDate, MonthStart, PrevMonthStart, Monday, LastWeekday, ReadingAt, YearOf, FromDay, FromMonthBefore;
    assert Date(d.year, d.month, d.day) == d;
  }

  lemma BuildDayMonth(m: int, d: int, now: Moment, instant: int)
    requires InCalendar(now.wall) && ReadingAt(now.wall).day >= 1
    ensures Build(SinceDayMonth(m, d), now, instant) ==
      match SinceDate(now.wall, Date(YearOf(ReadingAt(now.wall).day), m, d))
      case Some(start) => Clock(Moment(start, false), now)
      case None => NoWindow
  {
    hide Midnight, SinceDate, MonthStart, PrevMonthStart, Monday, LastWeekday, YearOf, FromDay, FromMonthBefore;
  }

  // ---------------------------------------------------------------- what the windows are

  lemma DaysOrder(a: int, b: int)
    requires a <= b
    ensures a * DAY <= b * DAY
  {
  }

  lemma SinceDateIsPast(now: int, d: Date)
    requires InCalendar(now) && SinceDate(now, d).Some? && d.year == YearOf(ReadingAt(now).day)
    ensures SinceDate(now, d).value <= now && exists n :: n >= 1 && SinceDate(now, d).value == n * DAY
  {
    hide Jan1, YearOf, DaysBefore;
    InCalendarMeans(now);
    OrdinalInYear(d);
    if Midnight(d).value > now {
      var earlier := d.(year := d.year - 1);
      OrdinalInYear(earlier);
      YearsAdjoin(earlier.year);
      assert Ordinal(earlier) < Jan1(d.year) <= ReadingAt(now).day;
      assert SinceDate(now, d).value == Ordinal(earlier) * DAY;
    } else {
      assert SinceDate(now, d).value == Ordinal(d) * DAY;
    }
  }

  // A midnight of the calendar that the clock has shown: the first of its passes, or in the pass of now, today's or that of
  // the month's first day.
  ghost predicate IsPastMidnight(t: Moment, now: Moment)
    requires InCalendar(now.wall)
  {
    InCalendarMeans(now.wall);
    var day := ReadingAt(now.wall).day;
    && t.wall <= now.wall
    && (exists n :: n >= 1 && t.wall == n * DAY)
    && (!t.fold || t == MidnightOf(day, now) || t == MidnightOf(MonthStart(day), now))
  }

  lemma DayIsPastMidnight(n: int, now: Moment)
    requires InCalendar(now.wall) && 1 <= n <= ReadingAt(now.wall).day
    ensures n * DAY <= now.wall && IsPastMidnight(DayStart(n), now)
    ensures n == ReadingAt(now.wall).day || n == MonthStart(ReadingAt(now.wall).day) ==> IsPastMidnight(MidnightOf(n, now), now)
  {
    hide MonthStart;
    InCalendarMeans(now.wall);
    DaysOrder(n, ReadingAt(now.wall).day);
  }

  lemma WallWindowIsPast(rule: Rule, now: Moment, instant: int)
    requires InCalendar(now.wall) && Build(rule, now, instant).Clock?
    ensures var w := Build(rule, now, instant);
      IsPastMidnight(w.start, now) && w.start.wall <= w.end.wall && (w.end == now || IsPastMidnight(w.end, now))
  {
    hide Jan1, YearOf, DateOf, MonthStart, PrevMonthStart, SinceDate, IsPastMidnight, Midnight, Monday, LastWeekday;
    InCalendarMeans(now.wall);
    var day := ReadingAt(now.wall).day;
    WeekStarts(day);
    match rule
    case Today => DayIsPastMidnight(day, now);
    case Yesterday => DaysArePast(day - 1, day, now);
    case ThisWeek => DayIsPastMidnight(Monday(day), now);
    case LastWeek => DaysArePast(Monday(day) - 7, Monday(day), now);
    case ThisMonth => DayIsPastMidnight(MonthStart(day), now);
    case LastMonth => DaysArePast(PrevMonthStart(day), MonthStart(day), now);
    case SinceWeekday(weekday) => LastWeekdayIsPast(day, weekday); DayIsPastMidnight(LastWeekday(day, weekday), now);
    case SinceYesterday => DayIsPastMidnight(day - 1, now);
    case SinceThisWeek => DayIsPastMidnight(Monday(day), now);
    case SinceLastWeek => DayIsPastMidnight(Monday(day) - 7, now);
    case SinceThisMonth => DayIsPastMidnight(MonthStart(day), now);
    case SinceLastMonth => DayIsPastMidnight(PrevMonthStart(day), now);
    case SinceIso(y, m, d) => IsoIsPast(Date(y, m, d), now);
    case SinceDayMonth(m, d) => DayMonthIsPast(now, Date(YearOf(day), m, d));
  }

  lemma DaysArePast(from: int, to: int, now: Moment)
    requires InCalendar(now.wall) && 1 <= from <= to <= ReadingAt(now.wall).day
    ensures from * DAY <= to * DAY && IsPastMidnight(DayStart(from), now) && IsPastMidnight(DayStart(to), now)
    ensures to == ReadingAt(now.wall).day || to == MonthStart(ReadingAt(now.wall).day) ==> IsPastMidnight(MidnightOf(to, now), now)
  {
    hide IsPastMidnight, MonthStart, ReadingAt;
    InCalendarMeans(now.wall);
    DayIsPastMidnight(from, now);
    DayIsPastMidnight(to, now);
    DaysOrder(from, to);
  }

  // Mondays of year 1 start on its first day.
  lemma WeekStarts(day: int)
    requires day >= 1
    ensures 1 <= Monday(day) <= day
  {
  }

  lemma LastWeekdayIsPast(day: int, weekday: int)
    ensures LastWeekday(day, weekday) <= day
  {
  }

  lemma IsoIsPast(d: Date, now: Moment)
    requires InCalendar(now.wall) && Midnight(d).Some? && Midnight(d).value <= now.wall
    ensures IsPastMidnight(Moment(Midnight(d).value, false), now)
  {
    hide Jan1, DaysBefore, MonthStart;
    OrdinalInYear(d);
    assert Midnight(d).value == Ordinal(d) * DAY;
  }

  lemma DayMonthIsPast(now: Moment, d: Date)
    requires InCalendar(now.wall) && SinceDate(now.wall, d).Some? && d.year == YearOf(ReadingAt(now.wall).day)
    ensures SinceDate(now.wall, d).value <= now.wall && IsPastMidnight(Moment(SinceDate(now.wall, d).value, false), now)
  {
    hide SinceDate, MonthStart;
    SinceDateIsPast(now.wall, d);
  }

  /** Weeks start on the last Monday, months on the 1st of the same month, and the month before on its own 1st. */
  lemma CalendarStarts(day: int)
    requires day >= 1
    ensures Weekday(Monday(day)) == 0 && Monday(day) <= day < Monday(day) + 7
    ensures DateOf(MonthStart(day)) == DateOf(day).(day := 1)
    ensures MonthStart(day) == 1 <==> DateOf(day).year == 1 && DateOf(day).month == 1
    ensures MonthStart(day) > 1 ==>
      var before := DateOf(PrevMonthStart(day));
      var d := DateOf(day);
      before.day == 1 && (if d.month == 1 then before.month == 12 && before.year == d.year - 1
                          else before.month == d.month - 1 && before.year == d.year)
  {
    hide Jan1, YearOf, MonthLength, DaysBefore, DateOf, MonthStart, Ordinal;
    StartOfItsMonth(day);
    MonthStartIs(day);
    if MonthStart(day) > 1 {
      StartOfItsMonth(MonthStart(day) - 1);
      DayBeforeMonth(DateOf(day));
    }
  }

  lemma MonthStartIs(day: int)
    requires day >= 1
    ensures MonthStart(day) == Ordinal(DateOf(day).(day := 1))
    ensures MonthStart(day) == 1 <==> DateOf(day).year == 1 && DateOf(day).month == 1
  {
    hide Jan1, YearOf, DateOf, MonthLength;
    var d := DateOf(day);
    FirstOfMonthExists(d);
    FirstDay();
    NoDaysBefore(1);
    YearsGrow(1, d.year);
    MonthsGrow(d.year, 1, d.month);
  }

  // Replacing the day by 1 gives a day of the same month.
  lemma StartOfItsMonth(day: int)
    requires day >= 1
    ensures DateOf(MonthStart(day)) == DateOf(day).(day := 1)
  {
    hide Jan1, DaysBefore, YearOf, DateOf, MonthLength;
    var first := DateOf(day).(day := 1);
    FirstOfMonthExists(DateOf(day));
    assert MonthStart(day) == Ordinal(first);
    DateRoundTrip(first);
  }

  // The day before the 1st of a month is in the month before.
  lemma DayBeforeMonth(d: Date)
    requires d.year >= 1 && 1 <= d.month <= 12 && !(d.year == 1 && d.month == 1)
    ensures var n := Ordinal(d.(day := 1)) - 1;
      n >= 1 && var b := DateOf(n);
      if d.month == 1 then b.month == 12 && b.year == d.year - 1 else b.month == d.month - 1 && b.year == d.year
  {
    hide Jan1, YearOf;
    var before := if d.month == 1 then Date(d.year - 1, 12, 31) else Date(d.year, d.month - 1, MonthLength(d.year, d.month - 1));
    OrdinalInYear(before);
    WholeYear(d.year - 1);
    YearsAdjoin(d.year - 1);
    assert d.month == 1 ==> DaysBefore(d.year - 1, 13) == DaysBefore(d.year - 1, 12) + 31;
    assert Ordinal(before) == Ordinal(d.(day := 1)) - 1;
    DateRoundTrip(before);
  }

  // ---------------------------------------------------------------- every window ends by now

  /** A zone: how far ahead of UTC each reading of its wall clock is. */
  type Zone = Moment -> int

  function Utc(m: Moment, zone: Zone): int {
    m.wall - zone(m)
  }

  // Built on the wall clock, the window runs forwards in time and ends by now.
  predicate RunsToNow(b: Built, now: Moment, zone: Zone) {
    match b
    case Clock(start, end) => Utc(start, zone) <= Utc(end, zone) <= Utc(now, zone)
    case Elapsed(since, until) => since <= until <= Utc(now, zone)
    case NoWindow => true
    case Overflow => true
  }

  ghost predicate PastMidnightsPass(now: Moment, zone: Zone)
    requires InCalendar(now.wall)
  {
    InCalendarMeans(now.wall);
    var day := ReadingAt(now.wall).day;
    && (forall n :: 1 <= n && n * DAY <= now.wall ==> Utc(DayStart(n), zone) <= Utc(now, zone))
    && Utc(MidnightOf(day, now), zone) <= Utc(now, zone)
    && Utc(MidnightOf(MonthStart(day), now), zone) <= Utc(now, zone)
  }

  predicate InOrder(from: int, to: Moment, zone: Zone) {
    1 <= from ==> Utc(DayStart(from), zone) <= Utc(to, zone)
  }

  /** No past midnight of the zone falls after now, and yesterday, last week and last month start before they end. */
  ghost predicate KeepsOrder(now: Moment, zone: Zone)
    requires InCalendar(now.wall)
  {
    InCalendarMeans(now.wall);
    var day := ReadingAt(now.wall).day;
    && PastMidnightsPass(now, zone)
    && InOrder(day - 1, MidnightOf(day, now), zone)
    && InOrder(Monday(day) - 7, DayStart(Monday(day)), zone)
    && (MonthStart(day) > 1 ==> InOrder(PrevMonthStart(day), MidnightOf(MonthStart(day), now), zone))
  }

  lemma RunsToNowWhenOrdered(rule: Rule, now: Moment, zone: Zone)
    requires InCalendar(now.wall) && KeepsOrder(now, zone)
    ensures RunsToNow(Build(rule, now, Utc(now, zone)), now, zone)
  {
    hide Jan1, YearOf, DateOf, MonthStart, PrevMonthStart, SinceDate, Midnight, Utc, PastMidnightsPass, IsPastMidnight;
    InCalendarMeans(now.wall);
    var b := Build(rule, now, Utc(now, zone));
    if b.Clock? {
      WallWindowIsPast(rule, now, Utc(now, zone));
      PastMidnightsConvert(b.start, now, zone);
      if b.end != now {
        PastMidnightsConvert(b.end, now, zone);
      }
    } else if b.Elapsed? && rule.LastN? {
      assert rule.n * UnitLength(rule.unit) >= 0;
    }
  }

  lemma PastMidnightsConvert(t: Moment, now: Moment, zone: Zone)
    requires InCalendar(now.wall) && PastMidnightsPass(now, zone) && IsPastMidnight(t, now)
    ensures Utc(t, zone) <= Utc(now, zone)
  {
    hide MonthStart;
    if !t.fold {
      var n :| n >= 1 && t.wall == n * DAY;
      assert t == DayStart(n);
    }
  }

  /** Every window runs forwards and ends by now exactly when the zone keeps its midnights in order. */
  lemma WindowsEndByNowExactly(now: Moment, zone: Zone)
    requires InCalendar(now.wall)
    ensures (forall rule :: RunsToNow(Build(rule, now, Utc(now, zone)), now, zone)) <==> KeepsOrder(now, zone)
  {
    hide Jan1, YearOf, DateOf, MonthStart, PrevMonthStart, SinceDate, Utc, RunsToNow, KeepsOrder, Build;
    if KeepsOrder(now, zone) {
      forall rule
        ensures RunsToNow(Build(rule, now, Utc(now, zone)), now, zone)
      {
        RunsToNowWhenOrdered(rule, now, zone);
      }
    }
    if forall rule :: RunsToNow(Build(rule, now, Utc(now, zone)), now, zone) {
      forall n | 1 <= n && n * DAY <= now.wall
        ensures Utc(DayStart(n), zone) <= Utc(now, zone)
      {
        var d := SinceThatDay(n, now, Utc(now, zone));
        assert RunsToNow(Build(SinceIso(d.year, d.month, d.day), now, Utc(now, zone)), now, zone);
        ClockRunsToNow(DayStart(n), now, now, zone);
      }
      assert RunsToNow(Build(Today, now, Utc(now, zone)), now, zone);
      assert RunsToNow(Build(ThisMonth, now, Utc(now, zone)), now, zone);
      assert RunsToNow(Build(Yesterday, now, Utc(now, zone)), now, zone);
      assert RunsToNow(Build(LastWeek, now, Utc(now, zone)), now, zone);
      assert RunsToNow(Build(LastMonth, now, Utc(now, zone)), now, zone);
      PairsInOrder(now, zone);
    }
  }

  lemma ClockRunsToNow(start: Moment, end: Moment, now: Moment, zone: Zone)
    requires RunsToNow(Clock(start, end), now, zone)
    ensures Utc(start, zone) <= Utc(end, zone) <= Utc(now, zone)
  {
  }

  // "Since" any past date starts at its midnight.
  lemma SinceThatDay(n: int, now: Moment, instant: int) returns (d: Date)
    requires InCalendar(now.wall) && 1 <= n && n * DAY <= now.wall
    ensures Build(SinceIso(d.year, d.month, d.day), now, instant) == Clock(DayStart(n), now)
  {
    hide Jan1, YearOf, DaysBefore, Build, DateOf, Midnight, MonthLength, Ordinal;
    InCalendarMeans(now.wall);
    YearsMonotone(n, ReadingAt(now.wall).day);
    d := DateOf(n);
    ThatMidnight(n, d);
    BuildIso(d, now, instant);
  }

  lemma ThatMidnight(n: int, d: Date)
    requires n >= 1 && d == DateOf(n) && 1 <= YearOf(n) <= 9999
    ensures Midnight(d) == Some(n * DAY)
  {
    hide Jan1, YearOf, DaysBefore, MonthLength;
  }

  lemma PairsInOrder(now: Moment, zone: Zone)
    requires InCalendar(now.wall)
    requires forall n :: 1 <= n && n * DAY <= now.wall ==> Utc(DayStart(n), zone) <= Utc(now, zone)
    requires RunsToNow(Build(Today, now, Utc(now, zone)), now, zone)
    requires RunsToNow(Build(ThisMonth, now, Utc(now, zone)), now, zone)
    requires RunsToNow(Build(Yesterday, now, Utc(now, zone)), now, zone)
    requires RunsToNow(Build(LastWeek, now, Utc(now, zone)), now, zone)
    requires RunsToNow(Build(LastMonth, now, Utc(now, zone)), now, zone)
    ensures KeepsOrder(now, zone)
  {
    hide Jan1, YearOf, DateOf, MonthStart, PrevMonthStart, Utc;
    InCalendarMeans(now.wall);
  }

  /** A zone that is a fixed time ahead keeps everything in order. */
  lemma FixedZonesKeepOrder(now: Moment, zone: Zone, offset: int)
    requires InCalendar(now.wall) && forall m :: zone(m) == offset
    ensures KeepsOrder(now, zone)
  {
    hide Jan1, YearOf, DateOf, MonthStart, PrevMonthStart;
    InCalendarMeans(now.wall);
    var day := ReadingAt(now.wall).day;
    DaysOrder(Monday(day) - 7, Monday(day));
    DaysOrder(day - 1, day);
    DaysOrder(MonthStart(day), day);
    if MonthStart(day) > 1 {
      DaysOrder(PrevMonthStart(day), MonthStart(day));
    }
  }

  const MINUTE := 60_000_000

  // Clocks that go from 23:30 to 00:30 of this day. A reading they skip has the offset from before, in its second pass the
  // one from after.
  function SkippedMidnight(day: int, offset: int, m: Moment): int {
    if m.wall < day * DAY - 30 * MINUTE || (m.wall < day * DAY + 30 * MINUTE && !m.fold) then offset - HOUR else offset
  }

  /** Where a midnight is skipped, as in Toronto on 31 March 1919, the window of "today" asked ten minutes later starts
      twenty minutes after it ends. */
  lemma SkippedMidnightBreaksOrder(day: int, offset: int)
    requires 1 <= day < 3_652_060
    ensures var zone := m => SkippedMidnight(day, offset, m);
      var now := Moment(day * DAY + 40 * MINUTE, false);
      var today := Build(Today, now, Utc(now, zone));
      && today == Clock(DayStart(day), now) && Utc(today.start, zone) == Utc(today.end, zone) + 20 * MINUTE
      && !RunsToNow(today, now, zone) && !KeepsOrder(now, zone)
  {
    hide Jan1, YearOf, DateOf, MonthStart, PrevMonthStart, KeepsOrder;
    var zone := m => SkippedMidnight(day, offset, m);
    var now := Moment(day * DAY + 40 * MINUTE, false);
    assert ReadingAt(now.wall).day == day;
    WindowsEndByNowExactly(now, zone);
  }

  // ---------------------------------------------------------------- choosing a window

  /** A rule whose pattern was found, in rule order. */
  datatype Match = Match(rule: Rule, tag: string)

  datatype Intent = Intent(window: Window, tag: string, implicit: bool)

  datatype Pick = Pick(built: Built, tag: string, implicit: bool)

  /** `Raised` is Python's OverflowError: a datetime outside years 1 to 9999. */
  datatype Outcome = Nothing | Found(intent: Intent) | Raised

  /** The first explicit (or implicit) match among the first n that yields a window. */
  function FirstPick(matches: seq<Match>, n: nat, implicit: bool, now: Moment, instant: int): Option<Pick>
    requires n <= |matches| && InCalendar(now.wall)
  {
    if n == 0 then None else
      var earlier := FirstPick(matches, n - 1, implicit, now, instant);
      var m := matches[n - 1];
      if earlier.Some? || m.rule.Implicit? != implicit || !Build(m.rule, now, instant).Yields() then earlier
      else Some(Pick(Build(m.rule, now, instant), m.tag, implicit))
  }

  ghost predicate SomeOverflows(matches: seq<Match>, n: nat, now: Moment, instant: int)
    requires n <= |matches| && InCalendar(now.wall)
  {
    exists i :: 0 <= i < n && Build(matches[i].rule, now, instant).Overflow?
  }

  // The match that decides: explicit before implicit, and no implicit one in a cumulative question.
  function Chosen(matches: seq<Match>, cumulative: bool, now: Moment, instant: int): Option<Pick>
    requires InCalendar(now.wall)
  {
    var explicit := FirstPick(matches, |matches|, false, now, instant);
    if explicit.Some? || cumulative then explicit else FirstPick(matches, |matches|, true, now, instant)
  }

  // Wall times become UTC; elapsed ones are in UTC already.
  function InUtc(p: Pick, zone: Zone): Outcome {
    match p.built
    case Clock(start, end) =>
      if InCalendar(Utc(start, zone)) && InCalendar(Utc(end, zone))
      then Found(Intent(Window(Utc(start, zone), Utc(end, zone)), p.tag, p.implicit)) else Raised
    case Elapsed(since, until) => Found(Intent(Window(since, until), p.tag, p.implicit))
    case _ => Nothing
  }

  /** `parse_time_intent`: `vetoed` says the text is blank or guarded, `cumulative` that only an explicit period counts;
      `now` is what the zone's clock shows. */
  ghost function Parsed(matches: seq<Match>, vetoed: bool, cumulative: bool, now: Moment, zone: Zone): Outcome {
    if vetoed then Nothing
    else if !InCalendar(now.wall) || SomeOverflows(matches, |matches|, now, Utc(now, zone)) then Raised
    else match Chosen(matches, cumulative, now, Utc(now, zone)) case None => Nothing case Some(p) => InUtc(p, zone)
  }

  method ParseTimeIntent(matches: seq<Match>, vetoed: bool, cumulative: bool, now: Moment, zone: Zone) returns (outcome: Outcome)
    ensures outcome == Parsed(matches, vetoed, cumulative, now, zone)
  {
    hide Build, InCalendar;
    if vetoed {
      return Nothing;
    }
    if !InCalendar(now.wall) {
      return Raised;
    }
    var instant := Utc(now, zone);
    var explicit: Option<Pick> := None;
    var implicit: Option<Pick> := None;
    for n := 0 to |matches|
      invariant explicit == FirstPick(matches, n, false, now, instant)
      invariant implicit == FirstPick(matches, n, true, now, instant)
      invariant !SomeOverflows(matches, n, now, instant)
    {
      var window := Build(matches[n].rule, now, instant);
      if window.Overflow? {
        return Raised;
      }
      if window.NoWindow? {
        continue;
      }
      if matches[n].rule.Implicit? {
        implicit := if implicit.Some? then implicit else Some(Pick(window, matches[n].tag, true));
      } else if explicit.None? {
        explicit := Some(Pick(window, matches[n].tag, false));
      }
    }
    if explicit.None? && cumulative {
      return Nothing;
    }
    var chosen := if explicit.Some? then explicit else implicit;
    outcome := if chosen.None? then Nothing else InUtc(chosen.value, zone);
  }

  lemma {:induction false} PicksWhenSomeMatchYields(matches: seq<Match>, n: nat, implicit: bool, now: Moment, instant: int)
    requires n <= |matches| && InCalendar(now.wall)
    ensures FirstPick(matches, n, implicit, now, instant).Some? <==>
      exists i :: 0 <= i < n && matches[i].rule.Implicit? == implicit && Build(matches[i].rule, now, instant).Yields()
    ensures var p := FirstPick(matches, n, implicit, now, instant);
      p.Some? ==> exists i :: 0 <= i < n && p.value.built == Build(matches[i].rule, now, instant) && p.value.built.Yields()
  {
    hide Build, InCalendar;
    if n > 0 {
      PicksWhenSomeMatchYields(matches, n - 1, implicit, now, instant);
    }
  }

  // Match i is the first of its kind to yield.
  ghost predicate YieldsFirst(matches: seq<Match>, n: nat, implicit: bool, now: Moment, instant: int, i: int)
    requires n <= |matches| && InCalendar(now.wall)
  {
    && 0 <= i < n && matches[i].rule.Implicit? == implicit && Build(matches[i].rule, now, instant).Yields()
    && forall j :: 0 <= j < i && matches[j].rule.Implicit? == implicit ==> !Build(matches[j].rule, now, instant).Yields()
  }

  lemma {:induction false} PicksFirst(matches: seq<Match>, n: nat, implicit: bool, now: Moment, instant: int)
    requires n <= |matches| && InCalendar(now.wall)
    ensures var p := FirstPick(matches, n, implicit, now, instant);
      p.Some? ==> exists i :: YieldsFirst(matches, n, implicit, now, instant, i) && p.value.built == Build(matches[i].rule, now, instant)
  {
    hide Build, InCalendar;
    if n > 0 {
      PicksFirst(matches, n - 1, implicit, now, instant);
      PicksWhenSomeMatchYields(matches, n - 1, implicit, now, instant);
      var earlier := FirstPick(matches, n - 1, implicit, now, instant);
      if earlier.Some? {
        var i :| YieldsFirst(matches, n - 1, implicit, now, instant, i) && earlier.value.built == Build(matches[i].rule, now, instant);
        assert YieldsFirst(matches, n, implicit, now, instant, i);
      } else if FirstPick(matches, n, implicit, now, instant).Some? {
        assert YieldsFirst(matches, n, implicit, now, instant, n - 1);
      }
    }
  }

  // There is but one first match.
  lemma FirstYieldsIs(matches: seq<Match>, n: nat, implicit: bool, now: Moment, instant: int, i: int)
    requires n <= |matches| && InCalendar(now.wall) && YieldsFirst(matches, n, implicit, now, instant, i)
    ensures forall j :: YieldsFirst(matches, n, implicit, now, instant, j) ==> j == i
  {
    hide Build;
  }

  lemma ChosenIsBuilt(matches: seq<Match>, cumulative: bool, now: Moment, instant: int)
    requires InCalendar(now.wall)
    ensures var p := Chosen(matches, cumulative, now, instant);
      p.Some? ==> exists i :: 0 <= i < |matches| && p.value.built == Build(matches[i].rule, now, instant) && p.value.built.Yields()
  {
    hide Build, InCalendar, FirstPick;
    PicksWhenSomeMatchYields(matches, |matches|, false, now, instant);
    PicksWhenSomeMatchYields(matches, |matches|, true, now, instant);
  }

  /** The answer's window runs forwards and ends by now. */
  lemma WindowsEndByNow(matches: seq<Match>, vetoed: bool, cumulative: bool, now: Moment, zone: Zone)
    requires InCalendar(now.wall) && KeepsOrder(now, zone) && Parsed(matches, vetoed, cumulative, now, zone).Found?
    ensures var w := Parsed(matches, vetoed, cumulative, now, zone).intent.window;
      w.start <= w.end <= Utc(now, zone)
  {
    hide Build, InCalendar, KeepsOrder, Chosen;
    ChosenIsBuilt(matches, cumulative, now, Utc(now, zone));
    WindowsEndByNowExactly(now, zone);
  }

  // ---------------------------------------------------------------- the UTC+14 pre-check

  const EARLIEST := 14 * HOUR

  function EarliestZone(m: Moment): int {
    EARLIEST
  }

  // What the clock in UTC+14 shows.
  function AheadAt(instant: int): Moment {
    Moment(instant + EARLIEST, false)
  }

  /** The pre-check: the same question at the same instant in UTC+14. */
  ghost function PreChecked(matches: seq<Match>, vetoed: bool, cumulative: bool, instant: int): Outcome {
    Parsed(matches, vetoed, cumulative, AheadAt(instant), EarliestZone)
  }

  /** "Since 29 February" asked in a leap year when UTC+14 has already left it. */
  predicate LostLeapDay(rule: Rule, now: Moment, ahead: Moment)
    requires InCalendar(now.wall) && InCalendar(ahead.wall)
  {
    InCalendarMeans(now.wall);
    InCalendarMeans(ahead.wall);
    var year := YearOf(ReadingAt(now.wall).day);
    rule == SinceDayMonth(2, 29) && IsLeap(year) && YearOf(ReadingAt(ahead.wall).day) != year
  }

  lemma DaysApart(a: int, b: int)
    requires a <= b < a + 2 * DAY
    ensures ReadingAt(a).day <= ReadingAt(b).day <= ReadingAt(a).day + 2
  {
  }

  lemma YearsApart(n: int, m: int)
    requires 1 <= n <= m <= n + 2
    ensures YearOf(n) <= YearOf(m) <= YearOf(n) + 1
    ensures YearOf(m) != YearOf(n) ==> n >= Jan1(YearOf(n) + 1) - 2
  {
    hide Jan1;
    YearsMonotone(n, m);
    var y := YearOf(n);
    YearsAdjoin(y + 1);
    if YearOf(m) > y + 1 {
      YearsGrow(y + 2, YearOf(m));
    }
  }

  // A day and month other than 29 February exists in every year or in none.
  lemma SameEveryYear(y: int, z: int, m: int, d: int)
    requires 1 <= y <= 9999 && 1 <= z <= 9999 && !(m == 2 && d == 29)
    ensures IsValid(Date(y, m, d)) <==> IsValid(Date(z, m, d))
  {
  }

  lemma SinceDateYields(now: int, y: int, m: int, d: int)
    requires 1 <= y <= 9999
    ensures !(m == 2 && d == 29) ==>
      (SinceDate(now, Date(y, m, d)).Some? <==> IsValid(Date(y, m, d)) && (y > 1 || Ordinal(Date(y, m, d)) * DAY <= now))
    ensures m == 2 && d == 29 ==>
      (SinceDate(now, Date(y, m, d)).Some? <==> IsLeap(y) && Ordinal(Date(y, 2, 29)) * DAY <= now)
  {
    hide Jan1, DaysBefore;
    if m == 2 && d == 29 {
      assert IsLeap(y) ==> !IsLeap(y - 1);
    } else if y > 1 {
      SameEveryYear(y, y - 1, m, d);
    }
  }

  lemma LeapDayIsBehind(y: int, day: int)
    requires y >= 1 && day >= Jan1(y + 1) - 2
    ensures Ordinal(Date(y, 2, 29)) <= day
  {
    hide Jan1;
    YearsAdjoin(y);
    assert DaysBefore(y, 2) == 31;
  }

  lemma SinceDayMonthAhead(wall: int, ahead: int, m: int, d: int)
    requires InCalendar(wall) && InCalendar(ahead) && wall <= ahead < wall + 2 * DAY
    requires ReadingAt(wall).day >= 1 && ReadingAt(ahead).day >= 1
    ensures var y, z := YearOf(ReadingAt(wall).day), YearOf(ReadingAt(ahead).day);
      SinceDate(wall, Date(y, m, d)).Some? && SinceDate(ahead, Date(z, m, d)).None? <==>
      m == 2 && d == 29 && IsLeap(y) && z != y
  {
    hide InCalendar, Jan1, SinceDate, YearOf, Midnight, Ordinal;
    InCalendarMeans(wall);
    InCalendarMeans(ahead);
    DaysApart(wall, ahead);
    YearsApart(ReadingAt(wall).day, ReadingAt(ahead).day);
    var y, z := YearOf(ReadingAt(wall).day), YearOf(ReadingAt(ahead).day);
    SinceDateYields(wall, y, m, d);
    SinceDateYields(ahead, z, m, d);
    if m == 2 && d == 29 {
      assert IsLeap(y) && z != y ==> !IsLeap(z);
      if z != y {
        LeapDayIsBehind(y, ReadingAt(wall).day);
        DaysOrder(Ordinal(Date(y, 2, 29)), ReadingAt(wall).day);
      }
    } else {
      SameEveryYear(y, z, m, d);
    }
  }

  // The second clock is ahead of the first, by less than two days.
  predicate IsAhead(now: Moment, ahead: Moment) {
    now.wall <= ahead.wall < now.wall + 2 * DAY
  }

  /** For one rule: what yields in a zone yields in UTC+14, except a leap day that is lost there, which always is. */
  lemma YieldsInEarliestZone(rule: Rule, now: Moment, ahead: Moment, instant: int)
    requires InCalendar(now.wall) && InCalendar(ahead.wall) && IsAhead(now, ahead)
    ensures Build(rule, now, instant).Yields() && !Build(rule, ahead, instant).Yields() <==> LostLeapDay(rule, now, ahead)
  {
    hide InCalendar, Jan1, IsLeap, DateOf, YearOf, MonthStart, PrevMonthStart, SinceDate, Midnight, ReadingAt;
    InCalendarMeans(now.wall);
    InCalendarMeans(ahead.wall);
    OverflowIsEarly(rule, now, ahead, instant);
    if rule.SinceDayMonth? {
      SinceDayMonthAhead(now.wall, ahead.wall, rule.month, rule.day);
    }
  }

  // A builder that runs off the start of the calendar does so on every earlier clock too.
  lemma OverflowIsEarly(rule: Rule, now: Moment, ahead: Moment, instant: int)
    requires InCalendar(now.wall) && InCalendar(ahead.wall) && now.wall <= ahead.wall
    ensures Build(rule, ahead, instant).Overflow? ==> Build(rule, now, instant).Overflow?
  {
    hide Jan1, YearOf, DateOf, MonthStart, PrevMonthStart, SinceDate, Midnight, Weekday, Monday, LastWeekday;
    InCalendarMeans(now.wall);
    InCalendarMeans(ahead.wall);
    var day, later := ReadingAt(now.wall).day, ReadingAt(ahead.wall).day;
    assert day <= later;
    WeekdaysAscend(day, later, 0);
    WeekdaysAscend(later, later, 0);
    if rule.SinceWeekday? {
      WeekdaysAscend(day, later, rule.weekday);
    }
    if MonthStart(later) == 1 {
      FirstMonth(day, later);
    }
  }

  lemma WeekdaysAscend(day: int, later: int, weekday: int)
    requires day <= later
    ensures LastWeekday(day, weekday) <= LastWeekday(later, weekday) && LastWeekday(day, 0) == Monday(day)
  {
  }

  lemma FirstMonth(day: int, later: int)
    requires 1 <= day <= later && MonthStart(later) == 1
    ensures MonthStart(day) == 1
  {
    hide Jan1, YearOf, DateOf;
    MonthStartIs(later);
    MonthStartIs(day);
    FirstMonthIs(day);
    FirstMonthIs(later);
  }

  // January of year 1 is days 1 to 31.
  lemma FirstMonthIs(day: int)
    requires day >= 1
    ensures DateOf(day).year == 1 && DateOf(day).month == 1 <==> day <= 31
  {
    hide YearOf;
    if day <= 31 {
      DateRoundTrip(Date(1, 1, day));
    }
  }

  /** A lost leap day is the question's only explicit period in UTC+14, and no implicit match stands in. */
  ghost predicate LosesLeapDay(matches: seq<Match>, cumulative: bool, now: Moment, ahead: Moment, instant: int)
    requires InCalendar(now.wall) && InCalendar(ahead.wall)
  {
    && (exists i :: 0 <= i < |matches| && LostLeapDay(matches[i].rule, now, ahead))
    && (forall i :: 0 <= i < |matches| && !matches[i].rule.Implicit? ==> !Build(matches[i].rule, ahead, instant).Yields())
    && (cumulative || forall i :: 0 <= i < |matches| ==> !matches[i].rule.Implicit?)
  }

  /** The first explicit match that yields in UTC+14 starts on 1 January of year 1, so its start has no UTC time there. */
  ghost predicate StartsOnFirstDay(matches: seq<Match>, ahead: Moment, instant: int)
    requires InCalendar(ahead.wall)
  {
    exists i :: YieldsFirst(matches, |matches|, false, ahead, instant, i) && Build(matches[i].rule, ahead, instant).Clock? &&
                Build(matches[i].rule, ahead, instant).start.wall == DAY
  }

  lemma PickedIffNoLeapDayLost(matches: seq<Match>, cumulative: bool, now: Moment, ahead: Moment, instant: int)
    requires InCalendar(now.wall) && InCalendar(ahead.wall) && IsAhead(now, ahead)
    requires !SomeOverflows(matches, |matches|, now, instant)
    requires Chosen(matches, cumulative, now, instant).Some?
    ensures Chosen(matches, cumulative, ahead, instant).None? <==> LosesLeapDay(matches, cumulative, now, ahead, instant)
  {
    hide Build, InCalendar, LostLeapDay, FirstPick, IsAhead;
    var n := |matches|;
    PicksWhenSomeMatchYields(matches, n, false, now, instant);
    PicksWhenSomeMatchYields(matches, n, true, now, instant);
    PicksWhenSomeMatchYields(matches, n, false, ahead, instant);
    PicksWhenSomeMatchYields(matches, n, true, ahead, instant);
    forall i | 0 <= i < n
      ensures Build(matches[i].rule, now, instant).Yields() && !Build(matches[i].rule, ahead, instant).Yields() <==>
              LostLeapDay(matches[i].rule, now, ahead)
      ensures matches[i].rule.Implicit? ==> Build(matches[i].rule, ahead, instant).Yields()
      ensures LostLeapDay(matches[i].rule, now, ahead) ==> !matches[i].rule.Implicit?
    {
      YieldsInEarliestZone(matches[i].rule, now, ahead, instant);
      ImplicitYields(matches[i].rule, now, ahead, instant);
    }
  }

  lemma ImplicitYields(rule: Rule, now: Moment, ahead: Moment, instant: int)
    requires InCalendar(now.wall) && InCalendar(ahead.wall)
    ensures rule.Implicit? && !Build(rule, now, instant).Overflow? ==> Build(rule, ahead, instant).Yields()
    ensures LostLeapDay(rule, now, ahead) ==> !rule.Implicit?
  {
  }

  lemma NoOverflowAhead(matches: seq<Match>, now: Moment, ahead: Moment, instant: int)
    requires InCalendar(now.wall) && InCalendar(ahead.wall) && now.wall <= ahead.wall
    requires !SomeOverflows(matches, |matches|, now, instant)
    ensures !SomeOverflows(matches, |matches|, ahead, instant)
  {
    hide Build, InCalendar;
    forall i | 0 <= i < |matches|
      ensures !Build(matches[i].rule, ahead, instant).Overflow?
    {
      OverflowIsEarly(matches[i].rule, now, ahead, instant);
    }
  }

  // The chosen period has a UTC time in UTC+14 unless it starts on the first day.
  lemma PickInUtc(matches: seq<Match>, cumulative: bool, instant: int)
    requires InCalendar(AheadAt(instant).wall) && InCalendar(instant)
    requires Chosen(matches, cumulative, AheadAt(instant), instant).Some?
    ensures InUtc(Chosen(matches, cumulative, AheadAt(instant), instant).value, EarliestZone).Found? <==>
            !StartsOnFirstDay(matches, AheadAt(instant), instant)
  {
    hide Build, FirstPick;
    var ahead := AheadAt(instant);
    var n := |matches|;
    PicksFirst(matches, n, false, ahead, instant);
    PicksWhenSomeMatchYields(matches, n, false, ahead, instant);
    PicksWhenSomeMatchYields(matches, n, true, ahead, instant);
    var explicit := FirstPick(matches, n, false, ahead, instant);
    if explicit.Some? {
      var i :| YieldsFirst(matches, n, false, ahead, instant, i) && explicit.value.built == Build(matches[i].rule, ahead, instant);
      FirstYieldsIs(matches, n, false, ahead, instant, i);
      ClockInUtc(matches[i].rule, instant);
    } else {
      var p := Chosen(matches, cumulative, ahead, instant).value;
      ImplicitPick(matches, n, ahead, instant);
    }
  }

  // In UTC+14 a clock window has a UTC time unless it starts on the first day.
  lemma ClockInUtc(rule: Rule, instant: int)
    requires InCalendar(AheadAt(instant).wall) && InCalendar(instant)
    ensures var b := Build(rule, AheadAt(instant), instant);
      b.Clock? ==> (InCalendar(Utc(b.start, EarliestZone)) && InCalendar(Utc(b.end, EarliestZone)) <==> b.start.wall != DAY)
  {
    hide Build, MonthStart;
    if Build(rule, AheadAt(instant), instant).Clock? {
      WallWindowIsPast(rule, AheadAt(instant), instant);
    }
  }

  lemma ImplicitPick(matches: seq<Match>, n: nat, now: Moment, instant: int)
    requires n <= |matches| && InCalendar(now.wall)
    ensures var p := FirstPick(matches, n, true, now, instant); p.Some? ==> p.value.built.Elapsed?
  {
    if n > 0 {
      ImplicitPick(matches, n - 1, now, instant);
    }
  }

  /** The pre-check fails a question that the zone answers exactly when UTC+14's clock has left the calendar, or a lost
      leap day is all the question asks for, or the period that decides there starts on 1 January of year 1. */
  lemma PreCheckDropsExactly(matches: seq<Match>, vetoed: bool, cumulative: bool, now: Moment, zone: Zone)
    requires -DAY < zone(now) <= EARLIEST && InCalendar(Utc(now, zone))
    requires Parsed(matches, vetoed, cumulative, now, zone).Found?
    ensures var instant := Utc(now, zone);
      var ahead := AheadAt(instant);
      !PreChecked(matches, vetoed, cumulative, instant).Found? <==>
        || !InCalendar(ahead.wall)
        || LosesLeapDay(matches, cumulative, now, ahead, instant)
        || StartsOnFirstDay(matches, ahead, instant)
  {
    hide Chosen, SomeOverflows, LosesLeapDay, StartsOnFirstDay, InUtc;
    var instant := Utc(now, zone);
    var ahead := AheadAt(instant);
    assert Utc(ahead, EarliestZone) == instant && IsAhead(now, ahead);
    if InCalendar(ahead.wall) {
      NoOverflowAhead(matches, now, ahead, instant);
      PickedIffNoLeapDayLost(matches, cumulative, now, ahead, instant);
      if Chosen(matches, cumulative, ahead, instant).Some? {
        PickInUtc(matches, cumulative, instant);
      }
    }
  }

  // ---------------------------------------------------------------- from year 3 on

  /** "Since 0001-01-01" comes before every other explicit match that yields in UTC+14. */
  ghost predicate AsksForFirstDay(matches: seq<Match>, ahead: Moment, instant: int)
    requires InCalendar(ahead.wall)
  {
    exists i :: 0 <= i < |matches| && matches[i].rule == SinceIso(1, 1, 1) &&
      forall j :: 0 <= j < i && !matches[j].rule.Implicit? ==> !Build(matches[j].rule, ahead, instant).Yields()
  }

  lemma FirstDayIffAsked(matches: seq<Match>, ahead: Moment, instant: int)
    requires InCalendar(ahead.wall) && ahead.wall >= Jan1(3) * DAY
    ensures StartsOnFirstDay(matches, ahead, instant) <==> AsksForFirstDay(matches, ahead, instant)
  {
    hide Build, Jan1;
    if StartsOnFirstDay(matches, ahead, instant) {
      var i :| YieldsFirst(matches, |matches|, false, ahead, instant, i) && Build(matches[i].rule, ahead, instant).Clock? &&
               Build(matches[i].rule, ahead, instant).start.wall == DAY;
      FirstDayMustBeAsked(matches[i].rule, ahead, instant);
    }
    if AsksForFirstDay(matches, ahead, instant) {
      var i :| 0 <= i < |matches| && matches[i].rule == SinceIso(1, 1, 1) &&
        forall j :: 0 <= j < i && !matches[j].rule.Implicit? ==> !Build(matches[j].rule, ahead, instant).Yields();
      FirstDayYields(ahead, instant);
      assert YieldsFirst(matches, |matches|, false, ahead, instant, i);
    }
  }

  lemma FirstDayYields(now: Moment, instant: int)
    requires InCalendar(now.wall)
    ensures Build(SinceIso(1, 1, 1), now, instant) == Clock(DayStart(1), now)
  {
    hide Jan1, DaysBefore, Build;
    FirstDay();
    NoDaysBefore(1);
    assert Midnight(Date(1, 1, 1)) == Some(DAY);
    BuildIso(Date(1, 1, 1), now, instant);
  }

  /** From year 3 on only "since 0001-01-01" starts on that day. */
  lemma FirstDayMustBeAsked(rule: Rule, now: Moment, instant: int)
    requires InCalendar(now.wall) && now.wall >= Jan1(3) * DAY
    requires Build(rule, now, instant).Clock? && Build(rule, now, instant).start.wall == DAY
    ensures rule == SinceIso(1, 1, 1)
  {
    hide YearOf, DateOf, MonthStart, PrevMonthStart, SinceDate, Midnight, Jan1;
    InCalendarMeans(now.wall);
    var day := ReadingAt(now.wall).day;
    ThirdYear(day);
    if rule.SinceIso? {
      FirstDayIso(Date(rule.year, rule.month, rule.day));
    } else if rule.SinceDayMonth? {
      SinceDateIsRecent(now.wall, Date(YearOf(day), rule.month, rule.day));
    }
  }

  lemma ThirdYear(day: int)
    requires day >= Jan1(3)
    ensures day >= 731 && YearOf(day) >= 3 && MonthStart(day) > 31 && PrevMonthStart(day) > 1
  {
    hide YearOf;
    assert Jan1(3) == 731;
    YearIsUnique(731, 3);
    YearsMonotone(731, day);
    var d := DateOf(day);
    var before := DateOf(MonthStart(day) - 1);
    assert d.day <= 31 && before.day <= 31;
  }

  lemma FirstDayIso(d: Date)
    requires Midnight(d) == Some(DAY)
    ensures d == Date(1, 1, 1)
  {
    hide Jan1, DaysBefore, YearOf, DateOf;
    DateRoundTrip(d);
    DateRoundTrip(Date(1, 1, 1));
    FirstDay();
    NoDaysBefore(1);
  }

  lemma SinceDateIsRecent(now: int, d: Date)
    requires SinceDate(now, d).Some? && d.year >= 3
    ensures SinceDate(now, d).value > DAY
  {
    hide Jan1, DaysBefore;
    YearsGrow(2, d.year - 1);
    assert Jan1(2) == 366 by { SecondYear(); }
    OrdinalInYear(d);
    OrdinalInYear(if SinceDate(now, d) == Midnight(d) then d else d.(year := d.year - 1));
    YearsGrow(d.year - 1, d.year);
  }

  lemma SecondYear()
    ensures Jan1(2) == 366
  {
  }

  /** From year 3 on: the pre-check fails a question that the zone answers exactly when UTC+14's clock has left the
      calendar, or the question asks for a lost leap day and nothing else that yields there, or it asks for 0001-01-01 and
      nothing that yields there comes before. */
  lemma PreCheckDropsFromYear3(matches: seq<Match>, vetoed: bool, cumulative: bool, now: Moment, zone: Zone)
    requires -DAY < zone(now) <= EARLIEST && InCalendar(Utc(now, zone)) && now.wall >= Jan1(3) * DAY
    requires Parsed(matches, vetoed, cumulative, now, zone).Found?
    ensures var instant := Utc(now, zone);
      var ahead := AheadAt(instant);
      !PreChecked(matches, vetoed, cumulative, instant).Found? <==>
        || !InCalendar(ahead.wall)
        || LosesLeapDay(matches, cumulative, now, ahead, instant)
        || AsksForFirstDay(matches, ahead, instant)
  {
    hide Parsed, PreChecked, LosesLeapDay, StartsOnFirstDay, AsksForFirstDay, Jan1;
    var instant := Utc(now, zone);
    PreCheckDropsExactly(matches, vetoed, cumulative, now, zone);
    if InCalendar(AheadAt(instant).wall) {
      FirstDayIffAsked(matches, AheadAt(instant), instant);
    }
  }

  /** From year 3 until UTC+14 leaves the calendar: a question that asks neither for 29 February nor for 0001-01-01 and
      that the zone answers passes the pre-check. */
  lemma PreCheckNeverDrops(matches: seq<Match>, vetoed: bool, cumulative: bool, now: Moment, zone: Zone)
    requires -DAY < zone(now) <= EARLIEST && Jan1(3) * DAY <= now.wall
    requires InCalendar(Utc(now, zone)) && InCalendar(AheadAt(Utc(now, zone)).wall)
    requires forall i :: 0 <= i < |matches| ==> matches[i].rule != SinceDayMonth(2, 29) && matches[i].rule != SinceIso(1, 1, 1)
    ensures Parsed(matches, vetoed, cumulative, now, zone).Found? ==>
            PreChecked(matches, vetoed, cumulative, Utc(now, zone)).Found?
  {
    hide Parsed, Build, PreChecked, Jan1;
    if Parsed(matches, vetoed, cumulative, now, zone).Found? {
      PreCheckDropsFromYear3(matches, vetoed, cumulative, now, zone);
    }
  }

  // ---------------------------------------------------------------- questions the pre-check fails

  function UtcZone(m: Moment): int {
    0
  }

  // A question with one match.
  lemma OneMatch(m: Match, now: Moment, zone: Zone)
    requires InCalendar(now.wall) && !m.rule.Implicit?
    ensures var b := Build(m.rule, now, Utc(now, zone));
      Parsed([m], false, false, now, zone) ==
      if b.Overflow? then Raised else if b.NoWindow? then Nothing else InUtc(Pick(b, m.tag, false), zone)
  {
    hide Build, InCalendar;
    var instant := Utc(now, zone);
    assert [m][0] == m;
    assert FirstPick([m], 0, false, now, instant).None? && FirstPick([m], 0, true, now, instant).None?;
    assert SomeOverflows([m], 1, now, instant) <==> Build([m][0].rule, now, instant).Overflow?;
  }

  lemma InYear(y: int, wall: int)
    requires 1 <= y < 9999 && Jan1(y) * DAY <= wall < Jan1(y + 1) * DAY
    ensures InCalendar(wall) && YearOf(ReadingAt(wall).day) == y
  {
    hide Jan1;
    YearsGrow(1, y);
    FirstDay();
    YearsGrow(y + 1, 10000);
    AfterLastDay();
    assert Jan1(y) <= ReadingAt(wall).day < Jan1(y + 1);
    YearIsUnique(ReadingAt(wall).day, y);
  }

  /** In the last fourteen hours of every leap year, "since 29 February" is answered in UTC and finds nothing in UTC+14. */
  lemma LeapDayIsLost(y: int, instant: int, tag: string)
    requires 4 <= y < 9998 && IsLeap(y) && Jan1(y + 1) * DAY - 14 * HOUR <= instant < Jan1(y + 1) * DAY
    ensures var asked := [Match(SinceDayMonth(2, 29), tag)];
      && Parsed(asked, false, false, Moment(instant, false), UtcZone) == Found(Intent(Window(Ordinal(Date(y, 2, 29)) * DAY, instant), tag, false))
      && PreChecked(asked, false, false, instant) == Nothing
  {
    hide Jan1, YearOf, DaysBefore, Parsed, Build, SinceDate;
    var m := Match(SinceDayMonth(2, 29), tag);
    YearsAdjoin(y);
    YearsAdjoin(y + 1);
    InYear(y, instant);
    InYear(y + 1, instant + EARLIEST);
    LeapDayMidnights(y, instant);
    BuildDayMonth(2, 29, Moment(instant, false), instant);
    BuildDayMonth(2, 29, AheadAt(instant), instant);
    OneMatch(m, Moment(instant, false), UtcZone);
    OneMatch(m, AheadAt(instant), EarliestZone);
  }

  // 29 February of a leap year that is ending, and of the year after.
  lemma LeapDayMidnights(y: int, instant: int)
    requires 4 <= y < 9998 && IsLeap(y) && Jan1(y) * DAY <= instant && Jan1(y + 1) * DAY - EARLIEST <= instant
    ensures InCalendar(Ordinal(Date(y, 2, 29)) * DAY)
    ensures SinceDate(instant, Date(y, 2, 29)) == Some(Ordinal(Date(y, 2, 29)) * DAY)
    ensures SinceDate(instant + EARLIEST, Date(y + 1, 2, 29)) == None
  {
    hide Jan1, DaysBefore;
    LeapDayIsBehind(y, ReadingAt(instant).day);
    DaysOrder(Ordinal(Date(y, 2, 29)), ReadingAt(instant).day);
    OrdinalInYear(Date(y, 2, 29));
    InYear(y, Ordinal(Date(y, 2, 29)) * DAY);
    assert Midnight(Date(y, 2, 29)) == Some(Ordinal(Date(y, 2, 29)) * DAY);
    assert Midnight(Date(y + 1, 2, 29)) == None;
  }

  /** Such as at noon of 31 December 2024. */
  lemma LeapDayIsLostIn2024(tag: string)
    ensures var instant := (Jan1(2025) - 1) * DAY + 12 * HOUR;
      && Parsed([Match(SinceDayMonth(2, 29), tag)], false, false, Moment(instant, false), UtcZone).Found?
      && PreChecked([Match(SinceDayMonth(2, 29), tag)], false, false, instant) == Nothing
  {
    LeapDayIsLost(2024, (Jan1(2025) - 1) * DAY + 12 * HOUR, tag);
  }

  /** At any time "since 0001-01-01" is answered in UTC, and the pre-check raises. */
  lemma FirstDayRaises(instant: int, tag: string)
    requires InCalendar(instant) && InCalendar(instant + EARLIEST)
    ensures var asked := [Match(SinceIso(1, 1, 1), tag)];
      && Parsed(asked, false, false, Moment(instant, false), UtcZone) == Found(Intent(Window(DAY, instant), tag, false))
      && PreChecked(asked, false, false, instant) == Raised
  {
    hide Jan1, YearOf, MonthStart, DaysBefore, Parsed;
    var m := Match(SinceIso(1, 1, 1), tag);
    OneMatch(m, Moment(instant, false), UtcZone);
    OneMatch(m, AheadAt(instant), EarliestZone);
    FirstDayYields(Moment(instant, false), instant);
    FirstDayYields(AheadAt(instant), instant);
  }
}
