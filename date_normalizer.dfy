/**
 * `convertDateString`: "<day> <MonthName> <year>" to the ISO 8601 text that
 * `new Date(Date.UTC(year, month, day)).toISOString()` gives (ECMA-262,
 * section 21.4, Date Objects), the input itself when that throws, and null
 * for a falsy input.
 */
module DateNormalizer {
  import opened JsonValues

  /** A proleptic Gregorian calendar date; month and day count from 1. */
  datatype CivilDate = CivilDate(year: int, month: nat, day: nat)

  /** What `convertDateString` returns. */
  datatype DateResult =
    | Null                       // falsy input
    | Unchanged(original: Value) // the input, returned by the early exit or the catch
    | Iso(date: CivilDate)       // toISOString of midnight UTC on that date

  // ---------------------------------------------------------------------
  // String.prototype.split with a one-character separator

  /** Number of occurrences of `c` in `s`. */
  function Occurrences(s: string, c: char): nat
  {
    if s == [] then 0 else (if s[0] == c then 1 else 0) + Occurrences(s[1..], c)
  }

  /** `s.split(sep)`: the pieces between separators, empty ones included. */
  function Split(s: string, sep: char): (parts: seq<string>)
    ensures |parts| == Occurrences(s, sep) + 1
    ensures forall i | 0 <= i < |parts| :: sep !in parts[i]
  {
    if s == [] then [[]]
    else
      var rest := Split(s[1..], sep);
      if s[0] == sep then [[]] + rest
      else [[s[0]] + rest[0]] + rest[1..]
  }

  /** `parts.join(sep)`, the inverse of `Split`. */
  function Join(parts: seq<string>, sep: char): string
    requires |parts| >= 1
  {
    if |parts| == 1 then parts[0] else parts[0] + [sep] + Join(parts[1..], sep)
  }

  lemma {:induction false} SplitJoin(s: string, sep: char)
    ensures Join(Split(s, sep), sep) == s
  {
    if s != [] {
      var rest := Split(s[1..], sep);
      SplitJoin(s[1..], sep);
      if s[0] == sep {
        assert ([[]] + rest)[1..] == rest;
      } else if |rest| == 1 {
        assert Join(Split(s, sep), sep) == [s[0]] + rest[0];
      } else {
        var parts := [[s[0]] + rest[0]] + rest[1..];
        assert parts[1..] == rest[1..];
        assert Join(rest, sep) == rest[0] + [sep] + Join(rest[1..], sep);
      }
    }
  }

  /** Splitting a separator-free piece followed by the separator peels that piece off. */
  lemma {:induction false} SplitCons(a: string, sep: char, rest: string)
    requires sep !in a
    ensures Split(a + [sep] + rest, sep) == [a] + Split(rest, sep)
  {
    if a == [] {
      assert ([] + [sep] + rest)[1..] == rest;
    } else {
      assert (a + [sep] + rest)[1..] == a[1..] + [sep] + rest;
      SplitCons(a[1..], sep, rest);
      assert [a[0]] + a[1..] == a;
    }
  }

  lemma {:induction false} SplitNoSeparator(a: string, sep: char)
    requires sep !in a
    ensures Split(a, sep) == [a]
  {
    if a != [] {
      SplitNoSeparator(a[1..], sep);
      assert [a[0]] + a[1..] == a;
    }
  }

  /** Three space-free tokens joined by single spaces split back into those three tokens. */
  lemma SplitThree(a: string, b: string, c: string)
    requires ' ' !in a && ' ' !in b && ' ' !in c
    ensures Split(a + " " + b + " " + c, ' ') == [a, b, c]
  {
    SplitNoSeparator(c, ' ');
    SplitCons(b, ' ', c);
    assert a + " " + b + " " + c == a + [' '] + (b + [' '] + c);
    SplitCons(a, ' ', b + [' '] + c);
  }

  // ---------------------------------------------------------------------
  // parseInt(string) with no radix argument (ECMA-262, section 19.2.5)

  /** WhiteSpace and LineTerminator code points, which parseInt skips at the start. */
  predicate IsJsWhiteSpace(c: char)
  {
    c == '\U{0009}' || c == '\U{000B}' || c == '\U{000C}' || c == '\U{0020}' ||
    c == '\U{00A0}' || c == '\U{FEFF}' || c == '\U{1680}' ||
    ('\U{2000}' <= c <= '\U{200A}') || c == '\U{202F}' || c == '\U{205F}' ||
    c == '\U{3000}' || c == '\U{000A}' || c == '\U{000D}' || c == '\U{2028}' ||
    c == '\U{2029}'
  }

  /** `s` without its leading white space. */
  function TrimStart(s: string): (t: string)
    ensures |t| <= |s| && t == s[|s| - |t|..]
    ensures forall i | 0 <= i < |s| - |t| :: IsJsWhiteSpace(s[i])
    ensures t == [] || !IsJsWhiteSpace(t[0])
  {
    if s != [] && IsJsWhiteSpace(s[0]) then TrimStart(s[1..]) else s
  }

  /** Value of a digit in radices up to 36; 36 for a character that is no digit at all. */
  function DigitValue(c: char): nat
  {
    if '0' <= c <= '9' then c as nat - '0' as nat
    else if 'a' <= c <= 'z' then c as nat - 'a' as nat + 10
    else if 'A' <= c <= 'Z' then c as nat - 'A' as nat + 10
    else 36
  }

  predicate IsDigit(c: char, radix: nat)
  {
    DigitValue(c) < radix
  }

  predicate AllDigits(s: string, radix: nat)
  {
    forall i | 0 <= i < |s| :: IsDigit(s[i], radix)
  }

  /** The number a string of digits denotes in the given radix. */
  function NumeralValue(s: string, radix: nat): nat
  {
    if s == [] then 0 else NumeralValue(s[..|s| - 1], radix) * radix + DigitValue(s[|s| - 1])
  }

  /** The longest prefix of `s` made of digits of the radix. */
  function DigitPrefix(s: string, radix: nat): (p: string)
    ensures |p| <= |s| && p == s[..|p|] && AllDigits(p, radix)
    ensures |p| == |s| || !IsDigit(s[|p|], radix)
  {
    if s != [] && IsDigit(s[0], radix) then [s[0]] + DigitPrefix(s[1..], radix) else []
  }

  /** `parseInt(s)`; `None` is NaN. */
  function ParseInt(s: string): Option<int>
  {
    var t := TrimStart(s);
    var negative := t != [] && t[0] == '-';
    var u := if t != [] && (t[0] == '-' || t[0] == '+') then t[1..] else t;
    var hex := |u| >= 2 && u[0] == '0' && (u[1] == 'x' || u[1] == 'X');
    var radix := if hex then 16 else 10;
    var digits := DigitPrefix(if hex then u[2..] else u, radix);
    var magnitude: int := NumeralValue(digits, radix);
    if digits == [] then None
    else if negative then Some(-magnitude)
    else Some(magnitude)
  }

  /** A token that does not start with white space, a sign or a decimal digit (such as "abc") gives NaN. */
  lemma NoLeadingDigit(s: string)
    requires s == [] || (!IsJsWhiteSpace(s[0]) && s[0] != '-' && s[0] != '+' && !IsDigit(s[0], 10))
    ensures ParseInt(s).None?
  {
    assert TrimStart(s) == s;
  }

  lemma {:induction false} DigitPrefixOf(a: string, b: string, radix: nat)
    requires AllDigits(a, radix)
    requires b == [] || !IsDigit(b[0], radix)
    ensures DigitPrefix(a + b, radix) == a
  {
    if a != [] {
      assert (a + b)[1..] == a[1..] + b;
      DigitPrefixOf(a[1..], b, radix);
      assert [a[0]] + a[1..] == a;
    } else {
      assert a + b == b;
    }
  }

  /**
   * parseInt reads the leading run of decimal digits and ignores what follows
   * it ("14th" gives 14), provided what follows cannot turn a leading "0"
   * into the hexadecimal prefix "0x".
   */
  lemma ParseIntDecimalPrefix(ds: string, rest: string)
    requires ds != [] && AllDigits(ds, 10)
    requires rest == [] || (!IsDigit(rest[0], 10) && rest[0] != 'x' && rest[0] != 'X')
    ensures ParseInt(ds + rest) == Some(NumeralValue(ds, 10))
  {
    var s := ds + rest;
    assert s[0] == ds[0] && IsDigit(s[0], 10);
    assert TrimStart(s) == s;
    assert |s| >= 2 ==> s[1] != 'x' && s[1] != 'X' by {
      if |s| >= 2 && |ds| == 1 {
        assert s[1] == rest[0];
      }
    }
    DigitPrefixOf(ds, rest, 10);
  }

  // ---------------------------------------------------------------------
  // The month table and Date.UTC

  /** The `months` object literal: English full month names to month indices, case-sensitive. */
  const Months: map<string, nat> := map[
    "January" := 0, "February" := 1, "March" := 2, "April" := 3,
    "May" := 4, "June" := 5, "July" := 6, "August" := 7,
    "September" := 8, "October" := 9, "November" := 10, "December" := 11]

  /**
   * `months[name]` converted by ToNumber inside Date.UTC. Any other name,
   * an inherited property name such as "toString" included, yields NaN.
   */
  function MonthIndex(name: string): (r: Option<nat>)
    ensures r.Some? <==> name in Months
    ensures r.Some? ==> r.value < 12 && Months[name] == r.value
  {
    if name in Months then Some(Months[name]) else None
  }

  lemma MonthIndicesBelowTwelve(name: string)
    requires name in Months
    ensures Months[name] < 12
  {
  }

  predicate IsLeapYear(y: int)
  {
    y % 4 == 0 && (y % 100 != 0 || y % 400 == 0)
  }

  function DaysInMonth(y: int, m: int): (n: nat)
    requires 1 <= m <= 12
    ensures 28 <= n <= 31
  {
    if m == 2 then (if IsLeapYear(y) then 29 else 28)
    else if m == 4 || m == 6 || m == 9 || m == 11 then 30
    else 31
  }

  predicate IsValidDate(c: CivilDate)
  {
    1 <= c.month <= 12 && 1 <= c.day <= DaysInMonth(c.year, c.month)
  }

  /** The calendar day after a valid date. */
  function NextDay(c: CivilDate): CivilDate
    requires IsValidDate(c)
  {
    if c.day < DaysInMonth(c.year, c.month) then CivilDate(c.year, c.month, c.day + 1)
    else if c.month < 12 then CivilDate(c.year, c.month + 1, 1)
    else CivilDate(c.year + 1, 1, 1)
  }

  /**
   * MakeDay for a whole-number day: the date `d - 1` days after the first of
   * month `m` of year `y`. A day past the end of the month rolls into the
   * following months, a day below 1 into the preceding ones.
   */
  function MakeDay(y: int, m: int, d: int): (c: CivilDate)
    requires 1 <= m <= 12
    ensures IsValidDate(c)
    decreases (if d < 1 then 1 - d else 0), (if d < 1 then 0 else d)
  {
    if d < 1 then
      var py := if m == 1 then y - 1 else y;
      var pm := if m == 1 then 12 else m - 1;
      MakeDay(py, pm, d + DaysInMonth(py, pm))
    else if d > DaysInMonth(y, m) then
      var ny := if m == 12 then y + 1 else y;
      var nm := if m == 12 then 1 else m + 1;
      MakeDay(ny, nm, d - DaysInMonth(y, m))
    else
      CivilDate(y, m, d)
  }

  /** A day that exists in its month is taken as it is. */
  lemma MakeDayOfValidDate(y: int, m: int, d: int)
    requires 1 <= m <= 12 && 1 <= d <= DaysInMonth(y, m)
    ensures MakeDay(y, m, d) == CivilDate(y, m, d)
  {
  }

  /** One more day argument gives the next calendar day: MakeDay counts days. */
  lemma {:induction false} MakeDaySucc(y: int, m: int, d: int)
    requires 1 <= m <= 12
    ensures MakeDay(y, m, d + 1) == NextDay(MakeDay(y, m, d))
    decreases (if d < 1 then 1 - d else 0), (if d < 1 then 0 else d)
  {
    if d < 0 {
      var py := if m == 1 then y - 1 else y;
      var pm := if m == 1 then 12 else m - 1;
      MakeDaySucc(py, pm, d + DaysInMonth(py, pm));
      assert d + 1 + DaysInMonth(py, pm) == d + DaysInMonth(py, pm) + 1;
    } else if d == 0 {
      var py := if m == 1 then y - 1 else y;
      var pm := if m == 1 then 12 else m - 1;
      assert MakeDay(y, m, 0) == CivilDate(py, pm, DaysInMonth(py, pm));
    } else if d > DaysInMonth(y, m) {
      var ny := if m == 12 then y + 1 else y;
      var nm := if m == 12 then 1 else m + 1;
      MakeDaySucc(ny, nm, d - DaysInMonth(y, m));
      assert d + 1 - DaysInMonth(y, m) == d - DaysInMonth(y, m) + 1;
    }
  }

  /** The dates whose midnight lies within the ±8.64e15 ms a time value may hold (TimeClip). */
  const EarliestDate := CivilDate(-271821, 4, 20)
  const LatestDate := CivilDate(275760, 9, 13)

  predicate NotAfter(a: CivilDate, b: CivilDate)
  {
    a.year < b.year || (a.year == b.year && (a.month < b.month || (a.month == b.month && a.day <= b.day)))
  }

  predicate InTimeRange(c: CivilDate)
  {
    NotAfter(EarliestDate, c) && NotAfter(c, LatestDate)
  }

  /**
   * `new Date(Date.UTC(year, monthIndex, day))` for whole-number arguments;
   * `None` for NaN (a NaN argument or a time value out of range).
   */
  function DateUtc(year: Option<int>, monthIndex: Option<nat>, day: Option<int>): (r: Option<CivilDate>)
    ensures r.Some? ==> IsValidDate(r.value) && InTimeRange(r.value)
    ensures r.Some? ==> year.Some? && monthIndex.Some? && day.Some?
    ensures year.Some? && monthIndex.Some? && day.Some? && 100 <= year.value <= 9999
            && monthIndex.value < 12 && 1 <= day.value <= DaysInMonth(year.value, monthIndex.value + 1)
            ==> r == Some(CivilDate(year.value, monthIndex.value + 1, day.value))
  {
    if year.None? || monthIndex.None? || day.None? then None
    else
      var y := if 0 <= year.value <= 99 then 1900 + year.value else year.value;
      var c := MakeDay(y + monthIndex.value / 12, monthIndex.value % 12 + 1, day.value);
      if InTimeRange(c) then Some(c) else None
  }

  lemma DateUtcFourDigitYear(y: int, m: nat, d: int)
    requires 100 <= y <= 9999 && m < 12 && 1 <= d <= DaysInMonth(y, m + 1)
    ensures DateUtc(Some(y), Some(m), Some(d)) == Some(CivilDate(y, m + 1, d))
  {
  }

  lemma DateUtcTwoDigitYear(y: int, m: nat, d: int)
    requires 0 <= y <= 99 && m < 12 && 1 <= d <= DaysInMonth(1900 + y, m + 1)
    ensures DateUtc(Some(y), Some(m), Some(d)) == Some(CivilDate(1900 + y, m + 1, d))
  {
    assert m / 12 == 0 && m % 12 == m;
    MakeDayOfValidDate(1900 + y, m + 1, d);
  }

  /** A valid date after 13 September 275760 lies past TimeClip's bound, so `Date.UTC` gives NaN. */
  lemma DateUtcBeyondRange(y: int, m: nat, d: int)
    requires m < 12 && 1 <= d <= DaysInMonth(y, m + 1)
    requires !NotAfter(CivilDate(y, m + 1, d), LatestDate)
    ensures DateUtc(Some(y), Some(m), Some(d)).None?
  {
    assert m / 12 == 0 && m % 12 == m;
    assert y >= 275760;
    MakeDayOfValidDate(y, m + 1, d);
  }

  /** 14 September 275760, the day after the last date a time value can hold, is NaN. */
  lemma DayAfterLatestDate()
    ensures DateUtc(Some(275760), Some(8), Some(14)).None?
  {
    DateUtcBeyondRange(275760, 8, 14);
  }

  // ---------------------------------------------------------------------
  // toISOString: the Date Time String Format

  function DigitChar(k: nat): (c: char)
    requires k < 10
    ensures IsDigit(c, 10) && DigitValue(c) == k
  {
    ('0' as nat + k) as char
  }

  /** `n` in decimal, zero-padded (and truncated) to `width` digits. */
  function Pad(n: nat, width: nat): (s: string)
    ensures |s| == width && AllDigits(s, 10)
  {
    if width == 0 then [] else Pad(n / 10, width - 1) + [DigitChar(n % 10)]
  }

  function Pow10(k: nat): (p: nat)
    ensures p >= 1
  {
    if k == 0 then 1 else 10 * Pow10(k - 1)
  }

  lemma {:induction false} PadRoundTrip(n: nat, width: nat)
    requires n < Pow10(width)
    ensures NumeralValue(Pad(n, width), 10) == n
  {
    if width > 0 {
      assert n / 10 < Pow10(width - 1);
      PadRoundTrip(n / 10, width - 1);
      var s := Pad(n, width);
      assert s[..|s| - 1] == Pad(n / 10, width - 1);
      assert DigitValue(s[|s| - 1]) == n % 10;
      assert NumeralValue(s, 10) == 10 * NumeralValue(Pad(n / 10, width - 1), 10) + n % 10;
    }
  }

  /** YYYY for the years 0 to 9999, otherwise a sign and six digits. */
  function YearText(y: int): (s: string)
  {
    if 0 <= y <= 9999 then Pad(y, 4)
    else if y < 0 then "-" + Pad(-y, 6)
    else "+" + Pad(y, 6)
  }

  const MidnightUtc := "T00:00:00.000Z"

  /** `toISOString()` of midnight UTC on the date. */
  function IsoText(c: CivilDate): string
  {
    YearText(c.year) + "-" + Pad(c.month, 2) + "-" + Pad(c.day, 2) + MidnightUtc
  }

  /** The year element of the format: four digits, or a sign and six digits ("-000000" is not allowed). */
  function ParseYear(p: string): Option<int>
  {
    if |p| == 4 && AllDigits(p, 10) then Some(NumeralValue(p, 10))
    else if |p| == 7 && (p[0] == '+' || p[0] == '-') && AllDigits(p[1..], 10) then
      var n: int := NumeralValue(p[1..], 10);
      if p[0] == '+' then Some(n) else if n == 0 then None else Some(-n)
    else None
  }

  /** Reads back a date-only UTC timestamp in the Date Time String Format. */
  function ParseIso(s: string): (r: Option<CivilDate>)
    ensures r.Some? ==> IsValidDate(r.value)
  {
    if |s| < 20 then None
    else
      var year := ParseYear(s[..|s| - 20]);
      var t := s[|s| - 20..];
      if year.None? || t[0] != '-' || t[3] != '-' || t[6..] != MidnightUtc
         || !AllDigits(t[1..3], 10) || !AllDigits(t[4..6], 10) then None
      else
        var c := CivilDate(year.value, NumeralValue(t[1..3], 10), NumeralValue(t[4..6], 10));
        if IsValidDate(c) then Some(c) else None
  }

  lemma ParseYearText(y: int)
    requires -1000000 < y < 1000000
    ensures ParseYear(YearText(y)) == Some(y)
  {
    var p := YearText(y);
    if 0 <= y <= 9999 {
      PadRoundTrip(y, 4);
    } else if y < 0 {
      PadRoundTrip(-y, 6);
      assert p[1..] == Pad(-y, 6);
    } else {
      PadRoundTrip(y, 6);
      assert p[1..] == Pad(y, 6);
    }
  }

  /** Every text the normaliser produces reads back as the date it was made from. */
  lemma IsoRoundTrip(c: CivilDate)
    requires IsValidDate(c) && InTimeRange(c)
    ensures ParseIso(IsoText(c)) == Some(c)
  {
    var t := "-" + Pad(c.month, 2) + "-" + Pad(c.day, 2) + MidnightUtc;
    assert IsoText(c) == YearText(c.year) + t;
    ParseYearText(c.year);
    ParseDateFields(YearText(c.year), c);
  }

  /** Any year field that reads back as the year, followed by the month, day and time fields, reads back as the date. */
  lemma ParseDateFields(y: string, c: CivilDate)
    requires ParseYear(y) == Some(c.year) && IsValidDate(c)
    ensures ParseIso(y + ("-" + Pad(c.month, 2) + "-" + Pad(c.day, 2) + MidnightUtc)) == Some(c)
  {
    var t := "-" + Pad(c.month, 2) + "-" + Pad(c.day, 2) + MidnightUtc;
    var s := y + t;
    assert |t| == 20;
    assert s[..|s| - 20] == y;
    assert s[|s| - 20..] == t;
    assert t[1..3] == Pad(c.month, 2);
    assert t[4..6] == Pad(c.day, 2);
    assert t[6..] == MidnightUtc;
    PadRoundTrip(c.month, 2);
    PadRoundTrip(c.day, 2);
  }

  lemma IsoTextHasNoSpace(c: CivilDate)
    ensures ' ' !in IsoText(c) && IsoText(c) != []
  {
    assert forall k | 0 <= k < 2 :: Pad(c.month, 2)[k] != ' ';
    assert ' ' !in Pad(c.month, 2);
    assert ' ' !in Pad(c.day, 2);
    var y := YearText(c.year);
    if 0 <= c.year <= 9999 {
      assert ' ' !in Pad(c.year, 4);
    } else if c.year < 0 {
      assert ' ' !in Pad(-c.year, 6);
    } else {
      assert ' ' !in Pad(c.year, 6);
    }
    assert ' ' !in y;
  }

  // ---------------------------------------------------------------------
  // convertDateString

  /** The value `convertDateString` hands back to JavaScript. */
  function DateValue(r: DateResult): Value
  {
    match r
    case Null => JNull
    case Unchanged(v) => v
    case Iso(c) => JString(IsoText(c))
  }

  /** The body of the `try` for a string input. */
  function ConvertString(s: string): (r: DateResult)
    ensures !r.Null?
    ensures r.Unchanged? ==> r.original == JString(s)
    ensures r.Iso? ==> IsValidDate(r.date) && InTimeRange(r.date)
  {
    var parts := Split(s, ' ');
    if |parts| != 3 then Unchanged(JString(s)) else FromTokens(parts[0], parts[1], parts[2], s)
  }

  /** `parseInt` the day and year, look the month up, and build the date; the original string when it is invalid. */
  function FromTokens(day: string, month: string, year: string, s: string): (r: DateResult)
    ensures !r.Null?
    ensures r.Unchanged? ==> r.original == JString(s)
    ensures r.Unchanged? <==> DateUtc(ParseInt(year), MonthIndex(month), ParseInt(day)).None?
    ensures r.Iso? ==> IsValidDate(r.date) && InTimeRange(r.date)
  {
    match DateUtc(ParseInt(year), MonthIndex(month), ParseInt(day))
    case None => Unchanged(JString(s))
    case Some(c) => Iso(c)
  }

  /**
   * `convertDateString(dateStr)`. A truthy value that is not a string makes
   * `dateStr.split` throw; the catch returns it unchanged, as it does when
   * toISOString throws on an invalid date. No exception escapes.
   */
  function ConvertDateString(v: Option<Value>): (r: DateResult)
    ensures r.Null? <==> !Truthy(v)
    ensures r.Unchanged? ==> v == Some(r.original)
    ensures r.Iso? ==> IsValidDate(r.date) && InTimeRange(r.date) && v.Some? && v.value.JString?
  {
    if !Truthy(v) then Null
    else
      var x := v.value;
      match x
      case JString(s) => ConvertString(s)
      case _ => Unchanged(x)
  }

  /** A string made of three space-free tokens is converted from what parseInt and the month table make of them. */
  lemma ThreeTokens(day: string, month: string, year: string)
    requires ' ' !in day && ' ' !in month && ' ' !in year
    ensures ConvertDateString(Some(JString(day + " " + month + " " + year)))
            == FromTokens(day, month, year, day + " " + month + " " + year)
  {
    var s := day + " " + month + " " + year;
    SplitThree(day, month, year);
    assert s != [];
    assert ConvertDateString(Some(JString(s))) == ConvertString(s);
  }

  /** A non-empty string without exactly two spaces is not split into three tokens and comes back as it is. */
  lemma NotThreeTokens(s: string)
    requires s != [] && Occurrences(s, ' ') != 2
    ensures ConvertDateString(Some(JString(s))) == Unchanged(JString(s))
  {
  }

  /** Three tokens whose middle one is not a month name give an invalid date, caught and returned as it was. */
  lemma UnknownMonth(day: string, month: string, year: string)
    requires ' ' !in day && ' ' !in month && ' ' !in year
    requires month !in Months
    ensures ConvertDateString(Some(JString(day + " " + month + " " + year)))
            == Unchanged(JString(day + " " + month + " " + year))
  {
    var s := day + " " + month + " " + year;
    SplitThree(day, month, year);
    assert s != [];
    assert ConvertDateString(Some(JString(s))) == ConvertString(s);
  }

  /** Three tokens that `Date.UTC` cannot make a date of give an invalid date, caught and returned as it was. */
  lemma InvalidDate(day: string, month: string, year: string)
    requires ' ' !in day && ' ' !in month && ' ' !in year
    requires DateUtc(ParseInt(year), MonthIndex(month), ParseInt(day)).None?
    ensures ConvertDateString(Some(JString(day + " " + month + " " + year)))
            == Unchanged(JString(day + " " + month + " " + year))
  {
    ThreeTokens(day, month, year);
  }

  /** A day or year token without a leading number makes `parseInt` give NaN, and the string comes back as it was. */
  lemma NotANumber(day: string, month: string, year: string)
    requires ' ' !in day && ' ' !in month && ' ' !in year
    requires ParseInt(day).None? || ParseInt(year).None?
    ensures ConvertDateString(Some(JString(day + " " + month + " " + year)))
            == Unchanged(JString(day + " " + month + " " + year))
  {
    InvalidDate(day, month, year);
  }

  /**
   * "D Month YYYY" with a day that exists in that month and a year from 100
   * to 9999 becomes midnight UTC of that very date, in the four-digit-year
   * form of the Date Time String Format.
   */
  lemma WellFormedDate(day: string, month: string, year: string)
    requires day != [] && AllDigits(day, 10)
    requires year != [] && AllDigits(year, 10)
    requires month in Months
    requires 100 <= NumeralValue(year, 10) <= 9999
    requires 1 <= NumeralValue(day, 10) <= DaysInMonth(NumeralValue(year, 10), Months[month] + 1)
    ensures ConvertDateString(Some(JString(day + " " + month + " " + year)))
            == Iso(CivilDate(NumeralValue(year, 10), Months[month] + 1, NumeralValue(day, 10)))
    ensures DateValue(ConvertDateString(Some(JString(day + " " + month + " " + year))))
            == JString(Pad(NumeralValue(year, 10), 4) + "-" + Pad(Months[month] + 1, 2) + "-"
                       + Pad(NumeralValue(day, 10), 2) + "T00:00:00.000Z")
  {
    MonthIndicesBelowTwelve(month);
    DecimalFourDigitYear(day, month, year, NumeralValue(year, 10), Months[month], NumeralValue(day, 10));
    FourDigitIsoText(CivilDate(NumeralValue(year, 10), Months[month] + 1, NumeralValue(day, 10)));
  }

  lemma DecimalFourDigitYear(day: string, month: string, year: string, y: int, m: nat, d: int)
    requires day != [] && AllDigits(day, 10)
    requires year != [] && AllDigits(year, 10)
    requires month in Months && Months[month] == m
    requires NumeralValue(year, 10) == y && NumeralValue(day, 10) == d
    requires 100 <= y <= 9999 && m < 12 && 1 <= d <= DaysInMonth(y, m + 1)
    ensures ConvertDateString(Some(JString(day + " " + month + " " + year))) == Iso(CivilDate(y, m + 1, d))
  {
    DateUtcFourDigitYear(y, m, d);
    DecimalDate(day, month, year, m, CivilDate(y, m + 1, d));
  }

  /** A date with a year from 0 to 9999 is written with four year digits and no sign. */
  lemma FourDigitIsoText(c: CivilDate)
    requires 0 <= c.year <= 9999
    ensures DateValue(Iso(c))
            == JString(Pad(c.year, 4) + "-" + Pad(c.month, 2) + "-" + Pad(c.day, 2) + "T00:00:00.000Z")
  {
    assert YearText(c.year) == Pad(c.year, 4);
  }

  /** A year from 0 to 99 is read as 1900 plus that year. */
  lemma TwoDigitYear(day: string, month: string, year: string)
    requires day != [] && AllDigits(day, 10)
    requires year != [] && AllDigits(year, 10)
    requires month in Months
    requires NumeralValue(year, 10) <= 99
    requires 1 <= NumeralValue(day, 10) <= DaysInMonth(1900 + NumeralValue(year, 10), Months[month] + 1)
    ensures ConvertDateString(Some(JString(day + " " + month + " " + year)))
            == Iso(CivilDate(1900 + NumeralValue(year, 10), Months[month] + 1, NumeralValue(day, 10)))
  {
    var y, m, d := NumeralValue(year, 10), Months[month], NumeralValue(day, 10);
    assert ConvertDateString(Some(JString(day + " " + month + " " + year))) == Iso(CivilDate(1900 + y, m + 1, d)) by {
      MonthIndicesBelowTwelve(month);
      DecimalTwoDigitYear(day, month, year, y, m, d);
    }
  }

  lemma DecimalTwoDigitYear(day: string, month: string, year: string, y: int, m: nat, d: int)
    requires day != [] && AllDigits(day, 10)
    requires year != [] && AllDigits(year, 10)
    requires month in Months && Months[month] == m
    requires NumeralValue(year, 10) == y && NumeralValue(day, 10) == d
    requires 0 <= y <= 99 && m < 12 && 1 <= d <= DaysInMonth(1900 + y, m + 1)
    ensures ConvertDateString(Some(JString(day + " " + month + " " + year))) == Iso(CivilDate(1900 + y, m + 1, d))
  {
    DateUtcTwoDigitYear(y, m, d);
    DecimalDate(day, month, year, m, CivilDate(1900 + y, m + 1, d));
  }

  /** Decimal tokens and a month name give whatever date the date arithmetic makes of their values. */
  lemma DecimalDate(day: string, month: string, year: string, m: nat, c: CivilDate)
    requires day != [] && AllDigits(day, 10)
    requires year != [] && AllDigits(year, 10)
    requires month in Months && Months[month] == m
    requires DateUtc(Some(NumeralValue(year, 10)), Some(m), Some(NumeralValue(day, 10))) == Some(c)
    ensures ConvertDateString(Some(JString(day + " " + month + " " + year))) == Iso(c)
  {
    DecimalTokens(day, month, year);
  }

  /** A decimal day, a month name and a decimal year reach the date arithmetic as their values. */
  lemma DecimalTokens(day: string, month: string, year: string)
    requires day != [] && AllDigits(day, 10)
    requires year != [] && AllDigits(year, 10)
    requires month in Months
    ensures ConvertDateString(Some(JString(day + " " + month + " " + year)))
            == FromTokens(day, month, year, day + " " + month + " " + year)
    ensures ParseInt(day) == Some(NumeralValue(day, 10)) && ParseInt(year) == Some(NumeralValue(year, 10))
    ensures MonthIndex(month) == Some(Months[month]) && Months[month] < 12
  {
    MonthIndicesBelowTwelve(month);
    DecimalHasNoSpace(day);
    DecimalHasNoSpace(year);
    ThreeTokens(day, month, year);
    ParseIntDecimal(day);
    ParseIntDecimal(year);
  }

  /** "D Month Y" with a year past 275760 is outside the time-value range, and the string comes back as it was. */
  lemma YearBeyondTimeRange(day: string, month: string, year: string)
    requires day != [] && AllDigits(day, 10)
    requires year != [] && AllDigits(year, 10)
    requires month in Months
    requires 275760 < NumeralValue(year, 10)
    requires 1 <= NumeralValue(day, 10) <= DaysInMonth(NumeralValue(year, 10), Months[month] + 1)
    ensures ConvertDateString(Some(JString(day + " " + month + " " + year)))
            == Unchanged(JString(day + " " + month + " " + year))
  {
    MonthIndicesBelowTwelve(month);
    DecimalBeyondRange(day, month, year, NumeralValue(year, 10), Months[month], NumeralValue(day, 10));
  }

  lemma DecimalBeyondRange(day: string, month: string, year: string, y: int, m: nat, d: int)
    requires day != [] && AllDigits(day, 10)
    requires year != [] && AllDigits(year, 10)
    requires month in Months && Months[month] == m
    requires NumeralValue(year, 10) == y && NumeralValue(day, 10) == d
    requires 275760 < y && m < 12 && 1 <= d <= DaysInMonth(y, m + 1)
    ensures ConvertDateString(Some(JString(day + " " + month + " " + year)))
            == Unchanged(JString(day + " " + month + " " + year))
  {
    DateUtcBeyondRange(y, m, d);
    DecimalTokens(day, month, year);
  }

  lemma DecimalHasNoSpace(ds: string)
    requires AllDigits(ds, 10)
    ensures ' ' !in ds
  {
    assert !IsDigit(' ', 10);
  }

  lemma ParseIntDecimal(ds: string)
    requires ds != [] && AllDigits(ds, 10)
    ensures ParseInt(ds) == Some(NumeralValue(ds, 10))
  {
    ParseIntDecimalPrefix(ds, []);
    assert ds + [] == ds;
  }

  /** Converting a converted value again changes nothing: the output has no spaces, so it is one token. */
  lemma ConvertIdempotent(v: Option<Value>)
    ensures DateValue(ConvertDateString(Some(DateValue(ConvertDateString(v)))))
            == DateValue(ConvertDateString(v))
  {
    match ConvertDateString(v)
    case Null =>
    case Unchanged(x) =>
    case Iso(c) =>
      IsoTextHasNoSpace(c);
      SplitNoSeparator(IsoText(c), ' ');
  }
}
