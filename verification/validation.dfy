/** `validarDataNascimento` in src/FormData.tsx: an ordered decision on the
    raw input string against the local date "today". */
module Validation {
  import opened Wrappers
  import opened Calendar
  import opened DateParsing
  import opened AgeCalc

  datatype ValidationError = Required | InvalidDate | FutureDate

  /** The message the form shows for each failure. */
  function Message(e: ValidationError): (text: string)
    ensures text != []
  {
    match e
    case Required => "A data de nascimento é obrigatória"
    case InvalidDate => "Data inválida"
    case FutureDate => "A data de nascimento não pode ser no futuro"
  }

  /** Each failure has its own text, so the message tells the user which
      check rejected the input. */
  lemma MessagesDistinct(a: ValidationError, b: ValidationError)
    ensures Message(a) == Message(b) <==> a == b
  {
    if a != b {
      assert Message(a)[0] != Message(b)[0] || |Message(a)| != |Message(b)|;
    }
  }

  /** Empty input is required, then an invalid `Date` is rejected, then a
      date whose time value exceeds today's local midnight is in the future;
      anything else passes, including today itself. `today` is the clock's
      local date, taken as a parameter. */
  function Validate(value: string, today: Date): (r: Outcome<ValidationError>)
    requires Valid(today)
    ensures r == Fail(Required) <==> value == []
    ensures r == Fail(InvalidDate) <==> value != [] && ParseDate(value).None?
    ensures r == Fail(FutureDate) <==>
      value != [] && ParseDate(value).Some? && LexBefore(today, ParseDate(value).value)
    ensures r == Pass <==>
      value != [] && ParseDate(value).Some? && !LexBefore(today, ParseDate(value).value)
  {
    if value == [] then Fail(Required)
    else
      var birth := ParseDate(value);
      var todayLocal := Recreate(today);
      if birth.None? then Fail(InvalidDate)
      else
        TimeValueOrder(birth.value, todayLocal);
        if TimeValue(birth.value) > TimeValue(todayLocal) then Fail(FutureDate)
        else Pass
  }

  /** Input that passes validation yields a breakdown with non-negative
      years and months in 0..11. */
  lemma AcceptedAgeIsNonNegative(value: string, today: Date)
    requires Valid(today)
    ensures Validate(value, today) == Pass ==>
      var age := Breakdown(ParseDate(value).value, today);
      age.years >= 0 && 0 <= age.months <= 11
  {
    if Validate(value, today) == Pass {
      YearsNonNegativeIff(ParseDate(value).value, today);
    }
  }

  /** A birth date of today passes. */
  lemma TodayPasses(today: Date)
    requires Valid(today) && today.year >= 0 && InRange(today)
    ensures Validate(FormatIso(today), today) == Pass
  {
    ParseFormatRoundTrip(today);
    assert FormatIso(today) != [];
  }

  /** Empty input fails as required; input whose first component is not a
      number (such as `not-a-date`) fails as an invalid date. */
  lemma MalformedInputs(first: string, rest: string, today: Date)
    requires Valid(today) && Separator !in first && !AllDigits(first)
    ensures Validate("", today) == Fail(Required)
    ensures Validate(first + rest, today) == Fail(InvalidDate)
  {
    NonNumericFirstComponent(first, rest);
  }

  /** Month 13 is not an invalid date: `2024-13-01` rolls over to 1 January
      2025 and, once that day has been reached, passes. */
  lemma RolledOverMonthPasses(year: nat, today: Date)
    requires Valid(today) && InRange(Date(year + 1, 1, 1))
    requires !LexBefore(today, Date(year + 1, 1, 1))
    ensures Validate(FormatFields(year, 13, 1), today) == Pass
  {
    MonthThirteenRollsOver(year);
  }
}
