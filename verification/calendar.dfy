/** Proleptic Gregorian calendar arithmetic, and the way a JavaScript
    `Date` is built from explicit local fields (`new Date(year, monthIndex, day)`),
    which is how `criarDataLocal` in src/FormData.tsx creates every date. */
module Calendar {
  import opened Wrappers

  /** A calendar day: `month` is one-based (1 = January). */
  datatype Date = Date(year: int, month: int, day: int)

  predicate IsLeapYear(year: int) {
    year % 4 == 0 && (year % 100 != 0 || year % 400 == 0)
  }

  function DaysInMonth(year: int, month: int): (n: int)
    requires 1 <= month <= 12
    ensures 28 <= n <= 31
    ensures n == 29 <==> month == 2 && IsLeapYear(year)
  {
    if month == 2 then (if IsLeapYear(year) then 29 else 28)
    else if month == 4 || month == 6 || month == 9 || month == 11 then 30
    else 31
  }

  function DaysInYear(year: int): int {
    if IsLeapYear(year) then 366 else 365
  }

  /** A real calendar day: the month exists and the day exists in it. */
  predicate Valid(d: Date) {
    1 <= d.month <= 12 && 1 <= d.day <= DaysInMonth(d.year, d.month)
  }

  /** The month after `(year, month)`; December rolls into January of the next year. */
  function NextMonth(year: int, month: int): (r: (int, int))
    requires 1 <= month <= 12
    ensures 1 <= r.1 <= 12
  {
    if month == 12 then (year + 1, 1) else (year, month + 1)
  }

  /** The month before `(year, month)`; January wraps to December of the previous year. */
  function PrevMonth(year: int, month: int): (r: (int, int))
    requires 1 <= month <= 12
    ensures 1 <= r.1 <= 12
    ensures NextMonth(r.0, r.1) == (year, month)
    ensures month == 1 ==> r == (year - 1, 12)
    ensures month > 1 ==> r == (year, month - 1)
  {
    if month == 1 then (year - 1, 12) else (year, month - 1)
  }

  /** Days in the years before `year`, counted from 1 January of year 1.
      Dafny's `/` rounds down for a positive divisor, so this is also right
      for years before year 1. */
  function DaysBeforeYear(year: int): int {
    var y := year - 1;
    365 * y + y / 4 - y / 100 + y / 400
  }

  /** Days in the months of `year` before `month`. */
  function DaysBeforeMonth(year: int, month: int): (n: int)
    requires 1 <= month <= 12
    ensures 0 <= n <= 335
  {
    var leap := if IsLeapYear(year) && month > 2 then 1 else 0;
    leap +
    (if month == 1 then 0 else if month == 2 then 31 else if month == 3 then 59
     else if month == 4 then 90 else if month == 5 then 120 else if month == 6 then 151
     else if month == 7 then 181 else if month == 8 then 212 else if month == 9 then 243
     else if month == 10 then 273 else if month == 11 then 304 else 334)
  }

  /** The absolute day number of `day` counted within `(year, month)`; `day`
      may lie outside the month, so this also numbers the not yet normalised
      field triples a `Date` constructor receives. */
  function DayNumberOf(year: int, month: int, day: int): int
    requires 1 <= month <= 12
  {
    DaysBeforeYear(year) + DaysBeforeMonth(year, month) + day
  }

  function DayNumber(d: Date): int
    requires 1 <= d.month <= 12
  {
    DayNumberOf(d.year, d.month, d.day)
  }

  /** Lexicographic (year, month, day) order: `a` is an earlier calendar day than `b`. */
  predicate LexBefore(a: Date, b: Date) {
    a.year < b.year
    || (a.year == b.year && a.month < b.month)
    || (a.year == b.year && a.month == b.month && a.day < b.day)
  }

  /** Stepping from `year - 1` to `year` adds one multiple of 4, 100 or 400
      exactly when that number divides `year`. */
  lemma FloorDivSteps(year: int)
    ensures year / 4 - (year - 1) / 4 == if year % 4 == 0 then 1 else 0
    ensures year / 100 - (year - 1) / 100 == if year % 100 == 0 then 1 else 0
    ensures year / 400 - (year - 1) / 400 == if year % 400 == 0 then 1 else 0
  {
  }

  /** Multiples of 400 are multiples of 100, which are multiples of 4. */
  lemma DivisorChain(year: int)
    ensures year % 400 == 0 ==> year % 100 == 0
    ensures year % 100 == 0 ==> year % 4 == 0
  {
  }

  lemma {:induction false} YearLength(year: int)
    ensures DaysBeforeYear(year + 1) == DaysBeforeYear(year) + DaysInYear(year)
  {
    FloorDivSteps(year);
    DivisorChain(year);
  }

  /** Moving into the next month and counting `day` there is the same day as
      counting `day + DaysInMonth` in the current month. */
  lemma {:induction false} NextMonthShift(year: int, month: int, day: int)
    requires 1 <= month <= 12
    ensures DayNumberOf(NextMonth(year, month).0, NextMonth(year, month).1, day)
         == DayNumberOf(year, month, day + DaysInMonth(year, month))
  {
    if month == 12 {
      YearLength(year);
    }
  }

  /** Normalise the fields of a day in `(year, month)`: a day past the end of
      the month rolls into the following months, a day below 1 rolls back into
      the preceding months, exactly as a `Date` built from fields does. */
  function RollDays(year: int, month: int, day: int): (r: Date)
    requires 1 <= month <= 12
    ensures Valid(r)
    decreases if day < 1 then 1 - day else 0, if day < 1 then 0 else day
  {
    if day < 1 then
      var p := PrevMonth(year, month);
      RollDays(p.0, p.1, day + DaysInMonth(p.0, p.1))
    else if day <= DaysInMonth(year, month) then
      Date(year, month, day)
    else
      var n := NextMonth(year, month);
      RollDays(n.0, n.1, day - DaysInMonth(year, month))
  }

  /** Rolling changes the fields, never the day: the result has the absolute
      day number of the unnormalised (year, month, day). */
  lemma {:induction false} RollDaysKeepsDay(year: int, month: int, day: int)
    requires 1 <= month <= 12
    ensures DayNumber(RollDays(year, month, day)) == DayNumberOf(year, month, day)
    decreases if day < 1 then 1 - day else 0, if day < 1 then 0 else day
  {
    if day < 1 {
      var p := PrevMonth(year, month);
      NextMonthShift(p.0, p.1, day);
      RollDaysKeepsDay(p.0, p.1, day + DaysInMonth(p.0, p.1));
    } else if day > DaysInMonth(year, month) {
      var n := NextMonth(year, month);
      NextMonthShift(year, month, day - DaysInMonth(year, month));
      RollDaysKeepsDay(n.0, n.1, day - DaysInMonth(year, month));
    }
  }

  lemma {:induction false} DaysBeforeYearMonotone(y1: int, y2: int)
    requires y1 <= y2
    ensures DaysBeforeYear(y1) <= DaysBeforeYear(y2)
    decreases y2 - y1
  {
    if y1 < y2 {
      YearLength(y1);
      DaysBeforeYearMonotone(y1 + 1, y2);
    }
  }

  /** A valid day lies within its own year's span of day numbers. */
  lemma DayWithinYear(d: Date)
    requires Valid(d)
    ensures DaysBeforeYear(d.year) < DayNumber(d) <= DaysBeforeYear(d.year) + DaysInYear(d.year)
  {
  }

  /** The day numbering of valid dates follows calendar order: it is strictly
      increasing in (year, month, day). */
  lemma {:induction false} DayNumberMonotone(a: Date, b: Date)
    requires Valid(a) && Valid(b) && LexBefore(a, b)
    ensures DayNumber(a) < DayNumber(b)
  {
    if a.year < b.year {
      DayWithinYear(a);
      DayWithinYear(b);
      YearLength(a.year);
      DaysBeforeYearMonotone(a.year + 1, b.year);
    }
  }

  /** Comparing day numbers of real dates is exactly calendar comparison. */
  lemma {:induction false} DayNumberOrder(a: Date, b: Date)
    requires Valid(a) && Valid(b)
    ensures DayNumber(a) < DayNumber(b) <==> LexBefore(a, b)
    ensures DayNumber(a) == DayNumber(b) <==> a == b
  {
    if LexBefore(a, b) {
      DayNumberMonotone(a, b);
    } else if LexBefore(b, a) {
      DayNumberMonotone(b, a);
    } else {
      assert a == b;
    }
  }

  /** `new Date(year, monthIndex, day)` with a zero-based month: months outside
      0..11 carry into the year, then the day rolls over the month ends. No range
      check; see `CreateLocal`. */
  function Normalise(year: int, monthIndex: int, day: int): (r: Date)
    ensures Valid(r)
  {
    RollDays(year + monthIndex / 12, monthIndex % 12 + 1, day)
  }

  /** The constructor names the day the fields count to once whole years of
      months are carried: `monthIndex` 12 is January of the next year and -1
      December of the previous one. */
  lemma NormaliseKeepsDay(year: int, monthIndex: int, day: int)
    ensures DayNumber(Normalise(year, monthIndex, day))
         == DayNumberOf(year + monthIndex / 12, monthIndex % 12 + 1, day)
  {
    RollDaysKeepsDay(year + monthIndex / 12, monthIndex % 12 + 1, day);
  }

  /** Milliseconds in a day, and the largest magnitude of an ECMAScript time value
      (the TimeClip bound, 100 000 000 days either side of the Unix epoch). */
  const MsPerDay: int := 86_400_000
  const MaxTimeValue: int := 8_640_000_000_000_000

  /** The day number of 1 January 1970, the Unix epoch. */
  const UnixEpochDayNumber: int := 719_163

  lemma UnixEpochDayNumberIsRight()
    ensures DayNumber(Date(1970, 1, 1)) == UnixEpochDayNumber
  {
  }

  /** The first and last days whose local midnight TimeClip accepts:
      100 000 000 days before and after the Unix epoch. */
  const FirstRepresentable: Date := Date(-271821, 4, 20)
  const LastRepresentable: Date := Date(275760, 9, 13)

  /** The time value, in milliseconds since the Unix epoch, of local midnight
      on a valid day, with the local time-zone offset taken as zero. */
  function TimeValue(d: Date): int
    requires Valid(d)
  {
    (DayNumber(d) - UnixEpochDayNumber) * MsPerDay
  }

  /** A `Date` whose time value TimeClip accepts; any other is an invalid
      `Date`. Stated as a calendar range; `InRangeIsTimeClip` ties it to the
      time value. */
  predicate InRange(d: Date) {
    !LexBefore(d, FirstRepresentable) && !LexBefore(LastRepresentable, d)
  }

  /** The calendar range is exactly the set of real days whose time value lies
      within TimeClip's bound. */
  lemma InRangeIsTimeClip(d: Date)
    requires Valid(d)
    ensures InRange(d) <==> -MaxTimeValue <= TimeValue(d) <= MaxTimeValue
  {
    assert DayNumber(FirstRepresentable) - UnixEpochDayNumber == -100_000_000;
    assert DayNumber(LastRepresentable) - UnixEpochDayNumber == 100_000_000;
    DayNumberOrder(d, FirstRepresentable);
    DayNumberOrder(LastRepresentable, d);
  }

  /** Comparing two `Date` objects with `>` compares their time values, which
      for local midnights is calendar order. */
  lemma TimeValueOrder(a: Date, b: Date)
    requires Valid(a) && Valid(b)
    ensures TimeValue(a) > TimeValue(b) <==> LexBefore(b, a)
  {
    DayNumberOrder(b, a);
  }

  /** `criarDataLocal(year, monthIndex, day)`: the local date the fields
      normalise to, or `None` for an invalid `Date` (time value out of range).
      A result is the normalised date, whose day number `CreateLocalKeepsDay`
      pins. */
  function CreateLocal(year: int, monthIndex: int, day: int): (r: Option<Date>)
    ensures r.Some? ==> Valid(r.value) && InRange(r.value)
    ensures r.None? <==> !InRange(Normalise(year, monthIndex, day))
    ensures r.Some? ==> r.value == Normalise(year, monthIndex, day)
  {
    var d := Normalise(year, monthIndex, day);
    if InRange(d) then Some(d) else None
  }

  /** A built date is the day MakeDay counts from the month-carried fields;
      by `DayNumberOrder` it is the only real date with that day number. */
  lemma CreateLocalKeepsDay(year: int, monthIndex: int, day: int)
    ensures CreateLocal(year, monthIndex, day).Some? ==>
      DayNumber(CreateLocal(year, monthIndex, day).value)
      == DayNumberOf(year + monthIndex / 12, monthIndex % 12 + 1, day)
  {
    NormaliseKeepsDay(year, monthIndex, day);
  }

  /** A one-based month turned zero-based does not carry into the year. */
  lemma MonthIndexInYear(month: int)
    requires 1 <= month <= 12
    ensures (month - 1) / 12 == 0 && (month - 1) % 12 + 1 == month
  {
  }

  /** With a month index in 0..11 the constructor only rolls the day. */
  lemma NormaliseWithinYear(year: int, month: int, day: int)
    requires 1 <= month <= 12
    ensures Normalise(year, month - 1, day) == RollDays(year, month, day)
  {
    MonthIndexInYear(month);
  }

  /** Day 0 of a month rolls back to the last day of the month before. */
  lemma DayZero(year: int, month: int)
    requires 1 <= month <= 12
    ensures var p := PrevMonth(year, month);
      RollDays(year, month, 0) == Date(p.0, p.1, DaysInMonth(p.0, p.1))
  {
    var p := PrevMonth(year, month);
    assert RollDays(year, month, 0) == RollDays(p.0, p.1, DaysInMonth(p.0, p.1));
  }

  /** `criarDataLocal(d.getFullYear(), d.getMonth(), d.getDate())`: rebuilding
      a date from its own fields gives the same date back. */
  function Recreate(d: Date): (r: Date)
    requires Valid(d)
    ensures r == d
  {
    NormaliseWithinYear(d.year, d.month, d.day);
    Normalise(d.year, d.month - 1, d.day)
  }

  /** `new Date(d.getFullYear(), d.getMonth(), 0).getDate()`: day 0 of `d`'s
      month is the last day of the month before it, so this is that month's
      length, January wrapping to December of the previous year. */
  function LastDayOfPreviousMonth(d: Date): (n: int)
    requires Valid(d)
    ensures var p := PrevMonth(d.year, d.month); n == DaysInMonth(p.0, p.1)
  {
    NormaliseWithinYear(d.year, d.month, 0);
    DayZero(d.year, d.month);
    Normalise(d.year, d.month - 1, 0).day
  }

  /** The day after `d`: the following day of the month, or the 1st of the next month. */
  function NextDay(d: Date): (r: Date)
    requires Valid(d)
    ensures Valid(r)
    ensures DayNumber(r) == DayNumber(d) + 1
  {
    if d.day < DaysInMonth(d.year, d.month) then Date(d.year, d.month, d.day + 1)
    else
      var n := NextMonth(d.year, d.month);
      NextMonthShift(d.year, d.month, 1);
      Date(n.0, n.1, 1)
  }
}
