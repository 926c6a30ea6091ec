/** `stringParaDataLocal` in src/FormData.tsx: a `YYYY-MM-DD` string is split
    on '-', each component goes through `Number`, and the date is built from
    the fields with the month made zero-based. */
module DateParsing {
  import opened Wrappers
  import opened Calendar

  const Separator: char := '-'

  /** `parts.join(sep)`: the inverse of `Split`. */
  function Join(parts: seq<string>, sep: char): string
    requires |parts| >= 1
  {
    if |parts| == 1 then parts[0] else parts[0] + [sep] + Join(parts[1..], sep)
  }

  /** `s.split(sep)`: the maximal separator-free pieces, in order; an empty
      string gives one empty piece and a trailing separator an empty last piece.
      `SplitThenJoin` states what the pieces are. */
  function Split(s: string, sep: char): (parts: seq<string>)
    ensures |parts| >= 1
  {
    if s == [] then [[]]
    else
      var rest := Split(s[1..], sep);
      if s[0] == sep then [[]] + rest
      else [[s[0]] + rest[0]] + rest[1..]
  }

  /** No piece holds the separator. */
  lemma {:induction false} SplitPiecesSeparatorFree(s: string, sep: char)
    ensures forall i :: 0 <= i < |Split(s, sep)| ==> sep !in Split(s, sep)[i]
    decreases |s|
  {
    if s != [] {
      var rest := Split(s[1..], sep);
      SplitPiecesSeparatorFree(s[1..], sep);
      var parts := Split(s, sep);
      if s[0] == sep {
        assert forall i :: 1 <= i < |parts| ==> parts[i] == rest[i - 1];
      } else {
        assert parts[0] == [s[0]] + rest[0];
        assert forall i :: 1 <= i < |parts| ==> parts[i] == rest[i];
      }
    }
  }

  /** Joining the pieces with the separator gives the input back. */
  lemma {:induction false} SplitThenJoin(s: string, sep: char)
    ensures Join(Split(s, sep), sep) == s
    decreases |s|
  {
    if s != [] {
      var rest := Split(s[1..], sep);
      SplitThenJoin(s[1..], sep);
      if s[0] == sep {
        assert Split(s, sep) == [[]] + rest;
        JoinEmptyFirst(rest, sep);
      } else {
        assert Split(s, sep) == [[s[0]] + rest[0]] + rest[1..];
        JoinExtendFirst(s[0], rest, sep);
      }
      assert s == [s[0]] + s[1..];
    }
  }

  /** An empty first piece contributes only its separator. */
  lemma JoinEmptyFirst(rest: seq<string>, sep: char)
    requires |rest| >= 1
    ensures Join([[]] + rest, sep) == [sep] + Join(rest, sep)
  {
    assert ([[]] + rest)[1..] == rest;
  }

  /** A character put in front of the first piece ends up in front of the join. */
  lemma JoinExtendFirst(c: char, rest: seq<string>, sep: char)
    requires |rest| >= 1
    ensures Join([[c] + rest[0]] + rest[1..], sep) == [c] + Join(rest, sep)
  {
    var parts := [[c] + rest[0]] + rest[1..];
    if |rest| > 1 {
      assert parts[1..] == rest[1..];
      assert ([c] + rest[0]) + [sep] + Join(rest[1..], sep)
          == [c] + (rest[0] + [sep] + Join(rest[1..], sep));
    }
  }

  /** A separator-free prefix simply extends the first piece. */
  lemma {:induction false} SplitPrefix(p: string, t: string, sep: char)
    requires sep !in p
    ensures Split(p + t, sep) == [p + Split(t, sep)[0]] + Split(t, sep)[1..]
    decreases |p|
  {
    if p == [] {
      assert p + t == t;
      var parts := Split(t, sep);
      assert p + parts[0] == parts[0];
      assert parts == [parts[0]] + parts[1..];
    } else {
      assert p[0] != sep;
      assert p + t == [p[0]] + (p[1..] + t);
      assert (p + t)[1..] == p[1..] + t;
      SplitPrefix(p[1..], t, sep);
      var x := Split(t, sep)[0];
      assert [p[0]] + (p[1..] + x) == p + x;
    }
  }

  /** Splitting a join of separator-free pieces gives the pieces back. */
  lemma {:induction false} SplitJoin(parts: seq<string>, sep: char)
    requires |parts| >= 1
    requires forall i :: 0 <= i < |parts| ==> sep !in parts[i]
    ensures Split(Join(parts, sep), sep) == parts
    decreases |parts|
  {
    SplitPrefix(parts[0], [], sep);
    assert parts[0] + [] == parts[0];
    if |parts| > 1 {
      var rest := Join(parts[1..], sep);
      assert parts[0] + [sep] + rest == parts[0] + ([sep] + rest);
      SplitPrefix(parts[0], [sep] + rest, sep);
      assert ([sep] + rest)[1..] == rest;
      SplitJoin(parts[1..], sep);
      assert parts == [parts[0]] + parts[1..];
    }
  }

  predicate IsDigit(c: char) {
    '0' <= c <= '9'
  }

  predicate AllDigits(s: string) {
    forall i :: 0 <= i < |s| ==> IsDigit(s[i])
  }

  function DigitValue(c: char): nat
    requires IsDigit(c)
  {
    c as int - '0' as int
  }

  function DigitChar(n: nat): (c: char)
    requires n < 10
    ensures IsDigit(c) && DigitValue(c) == n
  {
    ('0' as int + n) as char
  }

  /** The decimal value of a digit string, read left to right. */
  function DigitsValue(s: string): nat
    requires AllDigits(s)
  {
    if s == [] then 0 else DigitsValue(s[..|s| - 1]) * 10 + DigitValue(s[|s| - 1])
  }

  /** `Number(s)` for the strings this model admits: the empty string is 0,
      a string of ASCII digits is its decimal value, anything else is `NaN`. */
  function ToNumber(s: string): (r: Option<int>)
    ensures r.Some? <==> AllDigits(s)
    ensures r.Some? ==> r.value >= 0
    ensures s == [] ==> r == Some(0)
  {
    if AllDigits(s) then Some(DigitsValue(s)) else None
  }

  /** The shortest decimal spelling of `n`. */
  function ToDigits(n: nat): (s: string)
    ensures |s| >= 1 && AllDigits(s)
    ensures DigitsValue(s) == n
  {
    if n < 10 then [DigitChar(n)]
    else
      var s := ToDigits(n / 10) + [DigitChar(n % 10)];
      assert s[..|s| - 1] == ToDigits(n / 10);
      s
  }

  function Zeros(k: nat): (z: string)
    ensures |z| == k && AllDigits(z)
    ensures forall i :: 0 <= i < k ==> z[i] == '0'
  {
    if k == 0 then [] else ['0'] + Zeros(k - 1)
  }

  /** Leading zeros do not change the value `Number` reads. */
  lemma {:induction false} LeadingZeros(k: nat, s: string)
    requires AllDigits(s)
    ensures AllDigits(Zeros(k) + s)
    ensures DigitsValue(Zeros(k) + s) == DigitsValue(s)
    decreases |s|, k
  {
    var z := Zeros(k) + s;
    if s == [] {
      assert z == Zeros(k);
      if k > 0 {
        assert z[..|z| - 1] == Zeros(k - 1) + [];
        LeadingZeros(k - 1, []);
      }
    } else {
      assert z[..|z| - 1] == Zeros(k) + s[..|s| - 1];
      LeadingZeros(k, s[..|s| - 1]);
    }
  }

  /** `s` left-padded with zeros to at least `width` characters. */
  function PadLeft(s: string, width: nat): string {
    if |s| >= width then s else Zeros(width - |s|) + s
  }

  /** The `YYYY-MM-DD` text of three non-negative fields (values of a date input). */
  function FormatFields(year: nat, month: nat, day: nat): string {
    PadLeft(ToDigits(year), 4) + [Separator] + PadLeft(ToDigits(month), 2) + [Separator] + PadLeft(ToDigits(day), 2)
  }

  lemma PaddedNumber(n: nat, width: nat)
    ensures Separator !in PadLeft(ToDigits(n), width)
    ensures ToNumber(PadLeft(ToDigits(n), width)) == Some(n)
  {
    var s := ToDigits(n);
    if |s| < width {
      LeadingZeros(width - |s|, s);
    }
    var p := PadLeft(s, width);
    assert AllDigits(p);
    assert forall i :: 0 <= i < |p| ==> p[i] != Separator;
  }

  /** `stringParaDataLocal`: `None` stands for an invalid `Date` (a `NaN`
      component, a missing component, or a time value out of range). */
  function ParseDate(s: string): (r: Option<Date>)
    ensures r.Some? ==> Valid(r.value) && InRange(r.value)
  {
    FromParts(Split(s, Separator))
  }

  /** The destructuring `[ano, mes, dia]`: a missing component is `undefined`,
      which the constructor reads as `NaN`; components past the third are ignored. */
  function FromParts(parts: seq<string>): (r: Option<Date>)
    ensures |parts| < 3 ==> r.None?
    ensures r.Some? ==> Valid(r.value) && InRange(r.value)
    ensures r.Some? ==> |parts| >= 3 && AllDigits(parts[0]) && AllDigits(parts[1]) && AllDigits(parts[2])
    ensures |parts| >= 3 && AllDigits(parts[0]) && AllDigits(parts[1]) && AllDigits(parts[2]) ==>
      r == CreateLocal(DigitsValue(parts[0]), DigitsValue(parts[1]) - 1, DigitsValue(parts[2]))
  {
    if |parts| < 3 then None
    else FromFields(ToNumber(parts[0]), ToNumber(parts[1]), ToNumber(parts[2]))
  }

  /** `criarDataLocal(ano, mes - 1, dia)`; any `NaN` field gives an invalid `Date`. */
  function FromFields(year: Option<int>, month: Option<int>, day: Option<int>): (r: Option<Date>)
    ensures year.None? || month.None? || day.None? ==> r.None?
    ensures r.Some? ==> year.Some? && month.Some? && day.Some?
    ensures r.Some? ==> r.value == Normalise(year.value, month.value - 1, day.value)
    ensures r.None? <==>
      (year.None? || month.None? || day.None? || !InRange(Normalise(year.value, month.value - 1, day.value)))
  {
    if year.Some? && month.Some? && day.Some?
    then CreateLocal(year.value, month.value - 1, day.value)
    else None
  }

  /** Pieces after the third play no part. */
  lemma ExtraPiecesIgnored(parts: seq<string>)
    requires |parts| >= 3
    ensures FromParts(parts) == FromParts(parts[..3])
  {
  }

  /** Any three digit strings joined by '-' (unpadded, or with extra leading
      zeros) parse as the date built from their values, month made zero-based. */
  lemma ParseDigitFields(a: string, b: string, c: string)
    requires AllDigits(a) && AllDigits(b) && AllDigits(c)
    ensures ParseDate(a + [Separator] + b + [Separator] + c)
         == CreateLocal(DigitsValue(a), DigitsValue(b) - 1, DigitsValue(c))
  {
    var text := a + [Separator] + b + [Separator] + c;
    DigitPiecesSplit(a, b, c);
    assert FromParts([a, b, c]) == FromFields(Some(DigitsValue(a)), Some(DigitsValue(b)), Some(DigitsValue(c)));
    ParseOfPieces(text, [a, b, c], DigitsValue(a), DigitsValue(b), DigitsValue(c));
  }

  lemma DigitPiecesSplit(a: string, b: string, c: string)
    requires AllDigits(a) && AllDigits(b) && AllDigits(c)
    ensures Split(a + [Separator] + b + [Separator] + c, Separator) == [a, b, c]
  {
    var parts := [a, b, c];
    assert Separator !in a && Separator !in b && Separator !in c by {
      assert !IsDigit(Separator);
    }
    assert parts[1..] == [b, c];
    assert [b, c][1..] == [c];
    assert Join([b, c], Separator) == b + [Separator] + c;
    assert Join(parts, Separator) == a + [Separator] + (b + [Separator] + c);
    assert a + [Separator] + (b + [Separator] + c) == a + [Separator] + b + [Separator] + c;
    SplitJoin(parts, Separator);
  }

  /** Parsing digit fields is exactly building the date from those fields,
      month made zero-based: out-of-range fields roll over rather than fail. */
  lemma {:induction false} ParseFields(year: nat, month: nat, day: nat)
    ensures ParseDate(FormatFields(year, month, day)) == CreateLocal(year, month - 1, day)
  {
    FormatFieldsSplits(year, month, day);
    FieldPiecesAreNumbers(year, month, day);
    ParseOfPieces(FormatFields(year, month, day), FieldPieces(year, month, day), year, month, day);
  }

  lemma ParseOfPieces(text: string, parts: seq<string>, year: int, month: int, day: int)
    requires Split(text, Separator) == parts
    requires FromParts(parts) == FromFields(Some(year), Some(month), Some(day))
    ensures ParseDate(text) == CreateLocal(year, month - 1, day)
  {
  }

  lemma FieldPiecesAreNumbers(year: nat, month: nat, day: nat)
    ensures FromParts(FieldPieces(year, month, day)) == FromFields(Some(year), Some(month), Some(day))
  {
    PaddedNumber(year, 4);
    PaddedNumber(month, 2);
    PaddedNumber(day, 2);
  }

  /** The three padded fields of `FormatFields`. */
  function FieldPieces(year: nat, month: nat, day: nat): seq<string> {
    [PadLeft(ToDigits(year), 4), PadLeft(ToDigits(month), 2), PadLeft(ToDigits(day), 2)]
  }

  lemma FormatFieldsSplits(year: nat, month: nat, day: nat)
    ensures Split(FormatFields(year, month, day), Separator) == FieldPieces(year, month, day)
  {
    var parts := FieldPieces(year, month, day);
    var y, m, d := parts[0], parts[1], parts[2];
    PaddedNumber(year, 4);
    PaddedNumber(month, 2);
    PaddedNumber(day, 2);
    assert parts[1..] == [m, d];
    assert [m, d][1..] == [d];
    assert Join([m, d], Separator) == m + [Separator] + d;
    assert Join(parts, Separator) == y + [Separator] + (m + [Separator] + d);
    assert y + [Separator] + (m + [Separator] + d) == FormatFields(year, month, day);
    assert forall i :: 0 <= i < |parts| ==> Separator !in parts[i];
    SplitJoin(parts, Separator);
  }

  /** `YYYY-MM-DD` text of a date with a non-negative year. */
  function FormatIso(d: Date): string
    requires d.year >= 0 && Valid(d)
  {
    FormatFields(d.year, d.month, d.day)
  }

  /** Every real, representable date with a non-negative year survives
      being written as `YYYY-MM-DD` and parsed back. */
  lemma ParseFormatRoundTrip(d: Date)
    requires d.year >= 0 && Valid(d) && InRange(d)
    ensures ParseDate(FormatIso(d)) == Some(d)
  {
    assert CreateLocal(d.year, d.month - 1, d.day) == Some(d) by {
      assert Recreate(d) == d;
    }
    ParseFields(d.year, d.month, d.day);
  }

  /** Month 13 is not rejected: it rolls over into January of the next year
      (`2024-13-01` parses to 1 January 2025). */
  lemma MonthThirteenRollsOver(year: nat)
    requires InRange(Date(year + 1, 1, 1))
    ensures ParseDate(FormatFields(year, 13, 1)) == Some(Date(year + 1, 1, 1))
  {
    ParseFields(year, 13, 1);
    assert Normalise(year, 12, 1) == RollDays(year + 1, 1, 1);
  }

  /** Text whose first '-'-separated component is not a number is an invalid
      date, whatever follows (`not-a-date` is one). */
  lemma NonNumericFirstComponent(first: string, rest: string)
    requires Separator !in first && !AllDigits(first)
    ensures ParseDate(first + rest) == None
  {
    SplitPrefix(first, rest, Separator);
    var parts := Split(first + rest, Separator);
    assert parts[0] == first + Split(rest, Separator)[0];
    assert !AllDigits(parts[0]) by {
      var i :| 0 <= i < |first| && !IsDigit(first[i]);
      assert parts[0][i] == first[i];
    }
  }
}
