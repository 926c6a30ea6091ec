/** `calcularIdadeDetalhada` in src/FormData.tsx: field-wise subtraction of
    two calendar days with one day borrow and one month borrow. */
module AgeCalc {
  import opened Calendar

  /** `IdadeDetalhada`: years (`anos`), months (`meses`), days (`dias`). */
  datatype Age = Age(years: int, months: int, days: int)

  /** Whole months from `birth`'s month to `today`'s, less one when `today`'s
      day of the month has not yet reached `birth`'s. */
  function MonthsElapsed(birth: Date, today: Date): int {
    (today.year * 12 + today.month) - (birth.year * 12 + birth.month)
    - (if today.day < birth.day then 1 else 0)
  }

  /** The length of the month just before `today`'s month: the day borrow's source. */
  function BorrowMonthLength(today: Date): int
    requires Valid(today)
  {
    var p := PrevMonth(today.year, today.month);
    DaysInMonth(p.0, p.1)
  }

  /** The subtraction of `calcularIdadeDetalhada` on already rebuilt dates: subtract field by field, borrow
      `prevLength` days when the day difference is negative, then borrow twelve
      months when the month difference is negative. */
  function Subtract(birth: Date, today: Date, prevLength: int): (r: Age)
    requires Valid(birth) && Valid(today)
    ensures 0 <= r.months <= 11
    ensures r.years * 12 + r.months == MonthsElapsed(birth, today)
    ensures today.day >= birth.day ==> r.days == today.day - birth.day
    ensures today.day < birth.day ==> r.days == prevLength - birth.day + today.day
  {
    var years := today.year - birth.year;
    var months := today.month - birth.month;
    var days := today.day - birth.day;
    var (months', days') :=
      if days < 0 then (months - 1, prevLength - birth.day + today.day) else (months, days);
    if months' < 0 then Age(years - 1, months' + 12, days') else Age(years, months', days')
  }

  /** The breakdown of the time from `birth` to `today`. Both dates are
      rebuilt from their fields first and the borrowed day count is read from
      day 0 of `today`'s month, as `calcularIdadeDetalhada` does; `days` is not clamped. */
  function Breakdown(birth: Date, today: Date): (r: Age)
    requires Valid(birth) && Valid(today)
    ensures 0 <= r.months <= 11
    ensures r.years * 12 + r.months == MonthsElapsed(birth, today)
    ensures today.day >= birth.day ==> r.days == today.day - birth.day
    ensures today.day < birth.day ==> r.days == BorrowMonthLength(today) - birth.day + today.day
  {
    var todayLocal := Recreate(today);
    var birthLocal := Recreate(birth);
    Subtract(birthLocal, todayLocal, LastDayOfPreviousMonth(todayLocal))
  }

  /** Lexicographic order on breakdowns: `a` is a strictly younger age than `b`. */
  predicate YoungerThan(a: Age, b: Age) {
    a.years < b.years
    || (a.years == b.years && a.months < b.months)
    || (a.years == b.years && a.months == b.months && a.days < b.days)
  }

  /** `new Date(birth's year + years, birth's month + months, birth's day + days)`
      is `today`: the age added back field by field, with the constructor's rollover. */
  predicate AddsUpTo(birth: Date, r: Age, today: Date) {
    Normalise(birth.year + r.years, birth.month - 1 + r.months, birth.day + r.days) == today
  }

  /** The breakdown added back to `birth` gives `today` again, also when
      `days` is negative. */
  lemma Reconstruct(birth: Date, today: Date)
    requires Valid(birth) && Valid(today)
    ensures AddsUpTo(birth, Breakdown(birth, today), today)
  {
    ReconstructFrom(birth, today, Breakdown(birth, today));
  }

  /** Any age meeting `Breakdown`'s contract, added back to `birth`, lands on `today`. */
  lemma ReconstructFrom(birth: Date, today: Date, r: Age)
    requires Valid(birth) && Valid(today)
    requires 0 <= r.months <= 11 && r.years * 12 + r.months == MonthsElapsed(birth, today)
    requires today.day >= birth.day ==> r.days == today.day - birth.day
    requires today.day < birth.day ==> r.days == BorrowMonthLength(today) - birth.day + today.day
    ensures AddsUpTo(birth, r, today)
  {
    var year, monthIndex, day := birth.year + r.years, birth.month - 1 + r.months, birth.day + r.days;
    if today.day >= birth.day {
      CarryMonths(year, monthIndex, today.year, today.month);
      SameFields(year + monthIndex / 12, monthIndex % 12 + 1, day, today.year, today.month, today.day);
    } else {
      var p := PrevMonth(today.year, today.month);
      CarryMonths(year, monthIndex, p.0, p.1);
      NextMonthShift(p.0, p.1, today.day);
      SameFields(year + monthIndex / 12, monthIndex % 12 + 1, day, p.0, p.1, DaysInMonth(p.0, p.1) + today.day);
    }
    LandsOn(year, monthIndex, day, today);
  }

  /** Equal fields count to the same day number. */
  lemma SameFields(year: int, month: int, day: int, year': int, month': int, day': int)
    requires 1 <= month <= 12 && year == year' && month == month' && day == day'
    ensures DayNumberOf(year, month, day) == DayNumberOf(year', month', day')
  {
  }

  /** Fields whose MakeDay count is `today`'s day number normalise to `today`. */
  lemma LandsOn(year: int, monthIndex: int, day: int, today: Date)
    requires Valid(today)
    requires DayNumberOf(year + monthIndex / 12, monthIndex % 12 + 1, day) == DayNumber(today)
    ensures Normalise(year, monthIndex, day) == today
  {
    NormaliseKeepsDay(year, monthIndex, day);
    DayNumberOrder(Normalise(year, monthIndex, day), today);
  }

  /** A month index counted from `year` that lands `year * 12 + monthIndex`
      on month `month` of `target` carries into exactly that year and month. */
  lemma CarryMonths(year: int, monthIndex: int, target: int, month: int)
    requires 1 <= month <= 12 && year * 12 + monthIndex == target * 12 + month - 1
    ensures year + monthIndex / 12 == target && monthIndex % 12 + 1 == month
  {
    QuotientByTwelve(target - year, month - 1, monthIndex);
  }

  /** Born today: no borrow fires and the age is zero. */
  lemma SameDayIsZero(d: Date)
    requires Valid(d)
    ensures Breakdown(d, d) == Age(0, 0, 0)
  {
  }

  /** Years and months are the quotient and remainder of the whole months elapsed. */
  lemma YearsAndMonths(birth: Date, today: Date)
    requires Valid(birth) && Valid(today)
    ensures Breakdown(birth, today).years == MonthsElapsed(birth, today) / 12
    ensures Breakdown(birth, today).months == MonthsElapsed(birth, today) % 12
  {
    var r := Breakdown(birth, today);
    QuotientByTwelve(r.years, r.months, MonthsElapsed(birth, today));
  }

  lemma QuotientByTwelve(q: int, rem: int, total: int)
    requires 0 <= rem < 12 && q * 12 + rem == total
    ensures total / 12 == q && total % 12 == rem
  {
  }

  /** The age has non-negative years exactly when `birth` is not after
      `today`, which is what validation guarantees before any breakdown. */
  lemma YearsNonNegativeIff(birth: Date, today: Date)
    requires Valid(birth) && Valid(today)
    ensures Breakdown(birth, today).years >= 0 <==> !LexBefore(today, birth)
  {
    var r := Breakdown(birth, today);
    assert r.years >= 0 <==> MonthsElapsed(birth, today) >= 0;
  }

  /** `days` never exceeds 30 and never drops below -2; it is negative exactly
      when `birth`'s day is later than the borrowed month's length plus
      `today`'s day, which a 31st, 30th or 29th birthday can be just after a
      short month. */
  lemma DaysBounds(birth: Date, today: Date)
    requires Valid(birth) && Valid(today)
    ensures -2 <= Breakdown(birth, today).days <= 30
    ensures Breakdown(birth, today).days < 0 <==> birth.day > BorrowMonthLength(today) + today.day
  {
  }

  /** A 29 February birthday, seen on 28 February of the following
      (non-leap) year, borrows January's 31 days: 0 years, 11 months, 30 days
      (so 2020-02-29 to 2021-02-28). */
  lemma LeapDayBirthday(year: int)
    requires IsLeapYear(year)
    ensures Breakdown(Date(year, 2, 29), Date(year + 1, 2, 28)) == Age(0, 11, 30)
  {
  }

  /** Born on 31 January, seen on 1 March: the borrow reads February's length
      while the birth day is the 31st, so `calcularIdadeDetalhada` reports a negative day
      count (2000-01-31 to 2000-03-01 gives 0 years, 1 month, -1 days). */
  lemma MonthEndGivesNegativeDays(year: int)
    ensures Breakdown(Date(year, 1, 31), Date(year, 3, 1))
         == Age(0, 1, if IsLeapYear(year) then -1 else -2)
  {
  }

  /** On the same day of the same month, `years` later, the breakdown is
      exactly that many whole years (1990-06-15 to 2024-06-15 is 34 years). */
  lemma Anniversary(birth: Date, years: nat)
    requires Valid(birth) && Valid(Date(birth.year + years, birth.month, birth.day))
    ensures Breakdown(birth, Date(birth.year + years, birth.month, birth.day)) == Age(years, 0, 0)
  {
  }

  /** Seen on the day after birth, the breakdown is one day, also when that
      day is the 1st of the next month (the borrow then gives back exactly one). */
  lemma OneDayOld(birth: Date)
    requires Valid(birth)
    ensures Breakdown(birth, NextDay(birth)) == Age(0, 0, 1)
  {
    var tomorrow := NextDay(birth);
    if birth.day < DaysInMonth(birth.year, birth.month) {
      assert tomorrow == Date(birth.year, birth.month, birth.day + 1);
    } else {
      var n := NextMonth(birth.year, birth.month);
      assert tomorrow == Date(n.0, n.1, 1);
      assert PrevMonth(tomorrow.year, tomorrow.month) == (birth.year, birth.month);
      assert tomorrow.year * 12 + tomorrow.month == birth.year * 12 + birth.month + 1;
    }
    assert MonthsElapsed(birth, tomorrow) == 0;
    var r := Breakdown(birth, tomorrow);
    QuotientByTwelve(r.years, r.months, 0);
  }

  /** As `today` advances by one day the breakdown strictly increases: either
      whole months go up, or months stay and days go up by exactly one. */
  lemma {:induction false} AgeAdvancesDaily(birth: Date, today: Date)
    requires Valid(birth) && Valid(today)
    ensures YoungerThan(Breakdown(birth, today), Breakdown(birth, NextDay(today)))
  {
    var tomorrow := NextDay(today);
    if today.day < DaysInMonth(today.year, today.month) {
      assert tomorrow == Date(today.year, today.month, today.day + 1);
      AdvanceWithinMonth(birth, today, tomorrow);
    } else {
      var n := NextMonth(today.year, today.month);
      assert tomorrow == Date(n.0, n.1, 1);
      AdvanceIntoNextMonth(birth, today, tomorrow);
    }
  }

  lemma AdvanceWithinMonth(birth: Date, today: Date, tomorrow: Date)
    requires Valid(birth) && Valid(today) && today.day < DaysInMonth(today.year, today.month)
    requires tomorrow == Date(today.year, today.month, today.day + 1)
    ensures YoungerThan(Breakdown(birth, today), Breakdown(birth, tomorrow))
  {
    assert BorrowMonthLength(tomorrow) == BorrowMonthLength(today);
    OrderFromElapsed(Breakdown(birth, today), Breakdown(birth, tomorrow),
      MonthsElapsed(birth, today), MonthsElapsed(birth, tomorrow));
  }

  lemma AdvanceIntoNextMonth(birth: Date, today: Date, tomorrow: Date)
    requires Valid(birth) && Valid(today) && today.day == DaysInMonth(today.year, today.month)
    requires tomorrow == Date(NextMonth(today.year, today.month).0, NextMonth(today.year, today.month).1, 1)
    ensures YoungerThan(Breakdown(birth, today), Breakdown(birth, tomorrow))
  {
    assert PrevMonth(tomorrow.year, tomorrow.month) == (today.year, today.month);
    assert BorrowMonthLength(tomorrow) == today.day;
    assert tomorrow.year * 12 + tomorrow.month == today.year * 12 + today.month + 1;
    OrderFromElapsed(Breakdown(birth, today), Breakdown(birth, tomorrow),
      MonthsElapsed(birth, today), MonthsElapsed(birth, tomorrow));
  }

  /** Breakdowns with months in 0..11 are ordered by their whole-month totals first. */
  lemma OrderFromElapsed(a: Age, b: Age, ea: int, eb: int)
    requires 0 <= a.months <= 11 && 0 <= b.months <= 11
    requires a.years * 12 + a.months == ea && b.years * 12 + b.months == eb
    requires ea < eb || (ea == eb && a.days < b.days)
    ensures YoungerThan(a, b)
  {
  }
}
