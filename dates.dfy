/**
 * `format_date`: `datetime.strptime(s, "%d-%b-%Y")` followed by
 * `strftime("%Y-%m-%d")`, in the C locale.
 *
 * For ASCII digits, the parser accepts exactly what CPython's `_strptime`
 * regular expression accepts for this format: a day written `01`..`31`,
 * `1`..`9` or ` 1`..` 9`; a three-letter English month abbreviation in any
 * ASCII letter case; a year of exactly four digits. Folding ASCII case alone
 * is exact: the letters outside ASCII that Python's case-insensitive match
 * also folds (the long s, the Kelvin sign, the dotless and the dotted i)
 * never lower-case into an abbreviation, so `strptime` rejects them too. The
 * parsed date must then exist in the proleptic Gregorian calendar with a year
 * from 1 to 9999, as the `datetime` constructor demands.
 */
module Dates {
  import opened Wrappers
  import opened Text

  datatype Date = Date(year: int, month: int, day: int)

  /** Month abbreviations of the C locale, January first. */
  const MonthAbbreviations: seq<string> :=
    ["Jan", "Feb", "Mar", "Apr", "May", "Jun", "Jul", "Aug", "Sep", "Oct", "Nov", "Dec"]

  /** The same abbreviations lower-cased, as `_strptime` looks them up. */
  const MonthKeys: seq<string> :=
    ["jan", "feb", "mar", "apr", "may", "jun", "jul", "aug", "sep", "oct", "nov", "dec"]

  // ---------------------------------------------------------------------------
  // Decimal digits

  predicate IsDigit(c: char) { '0' <= c <= '9' }

  predicate AllDigits(s: string) { forall i :: 0 <= i < |s| ==> IsDigit(s[i]) }

  function DigitChar(n: nat): char
    requires n < 10
  {
    ('0' as int + n) as char
  }

  function Pow10(w: nat): nat
  {
    if w == 0 then 1 else 10 * Pow10(w - 1)
  }

  /** The value of a string of decimal digits, as `int()` reads it. */
  function DigitsValue(s: string): (n: nat)
    requires AllDigits(s)
    ensures n < Pow10(|s|)
  {
    if |s| == 0 then 0
    else 10 * DigitsValue(s[..|s| - 1]) + (s[|s| - 1] as int - '0' as int)
  }

  /** `n` written with exactly `width` digits, zero-padded on the left (`%04d`, `%02d`). */
  function Pad(n: nat, width: nat): (s: string)
    ensures |s| == width
  {
    if width == 0 then "" else Pad(n / 10, width - 1) + [DigitChar(n % 10)]
  }

  lemma {:induction false} PadAllDigits(n: nat, width: nat)
    ensures AllDigits(Pad(n, width))
  {
    if width > 0 {
      PadAllDigits(n / 10, width - 1);
    }
  }

  /** Reading back a zero-padded number gives the number. */
  lemma {:induction false} PadDigitsValue(n: nat, width: nat)
    requires n < Pow10(width)
    ensures AllDigits(Pad(n, width)) && DigitsValue(Pad(n, width)) == n
  {
    PadAllDigits(n, width);
    if width > 0 {
      var s := Pad(n, width);
      assert s[..width - 1] == Pad(n / 10, width - 1);
      PadDigitsValue(n / 10, width - 1);
    }
  }

  /** Writing back the value of a digit string, at its own width, gives the string. */
  lemma {:induction false} DigitsValuePad(s: string)
    requires AllDigits(s)
    ensures Pad(DigitsValue(s), |s|) == s
  {
    if |s| > 0 {
      var init := s[..|s| - 1];
      var v := DigitsValue(s);
      assert v / 10 == DigitsValue(init) && v % 10 == s[|s| - 1] as int - '0' as int;
      DigitsValuePad(init);
      assert init + [s[|s| - 1]] == s;
    }
  }

  // ---------------------------------------------------------------------------
  // The fields of "%d-%b-%Y"

  lemma MonthKeysAreLowered(k: int)
    requires 0 <= k < 12
    ensures Lower(MonthAbbreviations[k]) == MonthKeys[k]
  {
  }

  lemma MonthKeysDistinct(i: int, j: int)
    requires 0 <= i < 12 && 0 <= j < 12 && i != j
    ensures MonthKeys[i] != MonthKeys[j]
  {
  }

  /** The ways `%d` spells `day`: two digits, or one digit alone or after a space. */
  predicate DaySpelling(t: string, day: int)
  {
    || (0 <= day && t == Pad(day, 2))
    || (1 <= day <= 9 && (t == [DigitChar(day)] || t == [' ', DigitChar(day)]))
  }

  /** `%d`: one of `3[01]`, `[12]\d`, `0[1-9]`, `[1-9]`, ` [1-9]`. */
  function ParseDay(t: string): (d: Option<int>)
    ensures d.Some? ==> 1 <= d.value <= 31 && DaySpelling(t, d.value)
  {
    if |t| == 1 && '1' <= t[0] <= '9' then Some(t[0] as int - '0' as int)
    else if |t| == 2 && t[0] == ' ' && '1' <= t[1] <= '9' then Some(t[1] as int - '0' as int)
    else if |t| == 2 && AllDigits(t) && 1 <= DigitsValue(t) <= 31 then
      DigitsValuePad(t);
      Some(DigitsValue(t))
    else None
  }

  /** Conversely, every spelling of a day from 1 to 31 is read as that day. */
  lemma DaySpellingParses(t: string, day: int)
    requires 1 <= day <= 31 && DaySpelling(t, day)
    ensures ParseDay(t) == Some(day)
  {
    if t == Pad(day, 2) {
      PaddedDayParses(day);
    }
  }

  /** The number (1 to 12) of the month whose abbreviation is `t`, ignoring ASCII case. */
  function ParseMonth(t: string): (m: Option<int>)
    ensures m.Some? ==> 1 <= m.value <= 12 && Lower(t) == MonthKeys[m.value - 1]
    ensures m.None? ==> forall k :: 0 <= k < 12 ==> Lower(t) != MonthKeys[k]
  {
    MonthFrom(Lower(t), 0)
  }

  function MonthFrom(key: string, k: nat): (m: Option<int>)
    requires k <= 12
    ensures m.Some? ==> k < m.value <= 12 && key == MonthKeys[m.value - 1]
    ensures m.None? ==> forall j :: k <= j < 12 ==> key != MonthKeys[j]
    decreases 12 - k
  {
    if k == 12 then None
    else if key == MonthKeys[k] then Some(k + 1)
    else MonthFrom(key, k + 1)
  }

  /** `%Y`: exactly four digits. */
  function ParseYear(t: string): (y: Option<int>)
    ensures y.Some? <==> |t| == 4 && AllDigits(t)
    ensures y.Some? ==> 0 <= y.value <= 9999 && y.value == DigitsValue(t) && Pad(y.value, 4) == t
  {
    if |t| == 4 && AllDigits(t) then
      DigitsValuePad(t);
      Some(DigitsValue(t))
    else None
  }

  /**
   * The fields of `s` read as "%d-%b-%Y". None of the three fields can contain
   * `-`, so the day is everything before the ninth-last character.
   */
  function ParseDate(s: string): (d: Option<Date>)
    ensures d.Some? ==> 9 <= |s| && s[|s| - 9] == '-' && s[|s| - 5] == '-'
    ensures d.Some? ==> 1 <= d.value.day <= 31 && 0 <= d.value.year <= 9999
    ensures d.Some? ==> 1 <= d.value.month <= 12
    ensures d.Some? ==> Lower(s[|s| - 8..|s| - 5]) == MonthKeys[d.value.month - 1]
    ensures d.Some? ==> DaySpelling(s[..|s| - 9], d.value.day) && s[|s| - 4..] == Pad(d.value.year, 4)
  {
    if |s| < 9 || s[|s| - 9] != '-' || s[|s| - 5] != '-' then None
    else
      var day := ParseDay(s[..|s| - 9]);
      var month := ParseMonth(s[|s| - 8..|s| - 5]);
      var year := ParseYear(s[|s| - 4..]);
      if day.Some? && month.Some? && year.Some? then Some(Date(year.value, month.value, day.value))
      else None
  }

  // ---------------------------------------------------------------------------
  // The calendar

  predicate IsLeapYear(year: int)
  {
    year % 4 == 0 && (year % 100 != 0 || year % 400 == 0)
  }

  function DaysInMonth(month: int, year: int): int
    requires 1 <= month <= 12
  {
    if month == 2 then (if IsLeapYear(year) then 29 else 28)
    else if month == 4 || month == 6 || month == 9 || month == 11 then 30
    else 31
  }

  /** What the `datetime` constructor accepts. */
  predicate IsValid(d: Date)
  {
    1 <= d.year <= 9999 && 1 <= d.month <= 12 && 1 <= d.day <= DaysInMonth(d.month, d.year)
  }

  /** "%Y-%m-%d": the year, month and day, zero-padded, read back as themselves. */
  function IsoFormat(d: Date): (r: string)
    requires IsValid(d)
    ensures IsIsoShaped(r)
    ensures DigitsValue(r[..4]) == d.year && DigitsValue(r[5..7]) == d.month && DigitsValue(r[8..]) == d.day
  {
    IsoFields(Pad(d.year, 4), Pad(d.month, 2), Pad(d.day, 2));
    PadDigitsValue(d.year, 4);
    PadDigitsValue(d.month, 2);
    PadDigitsValue(d.day, 2);
    Pad(d.year, 4) + "-" + Pad(d.month, 2) + "-" + Pad(d.day, 2)
  }

  lemma IsoFields(y: string, m: string, d: string)
    requires |y| == 4 && |m| == 2 && |d| == 2
    ensures var r := y + "-" + m + "-" + d;
      |r| == 10 && r[4] == '-' && r[7] == '-' && r[..4] == y && r[5..7] == m && r[8..] == d
  {
    var r := y + "-" + m + "-" + d;
    assert r[..4] == y;
    assert r[5..7] == m;
    assert r[8..] == d;
  }

  /** The shape of every result: `dddd-dd-dd`. */
  predicate IsIsoShaped(r: string)
  {
    |r| == 10 && r[4] == '-' && r[7] == '-' &&
    AllDigits(r[..4]) && AllDigits(r[5..7]) && AllDigits(r[8..])
  }

  /**
   * `format_date(s)`: the date written "%d-%b-%Y" rewritten as "%Y-%m-%d", or
   * None where Python raises `ValueError`.
   */
  function FormatDate(s: string): (r: Option<string>)
    ensures r.Some? <==> ParseDate(s).Some? && IsValid(ParseDate(s).value)
    ensures r.Some? ==> IsIsoShaped(r.value)
    ensures r.Some? ==>
      var d := ParseDate(s).value;
      && DigitsValue(r.value[..4]) == d.year
      && DigitsValue(r.value[5..7]) == d.month
      && DigitsValue(r.value[8..]) == d.day
  {
    match ParseDate(s)
    case None => None
    case Some(d) =>
      if !IsValid(d) then None else Some(IsoFormat(d))
  }

  // ---------------------------------------------------------------------------
  // Properties

  /** The canonical spelling "dd-Mon-yyyy" of a date. */
  function Canonical(d: Date): string
    requires 1 <= d.month <= 12 && 0 <= d.day && 0 <= d.year
  {
    Pad(d.day, 2) + "-" + MonthAbbreviations[d.month - 1] + "-" + Pad(d.year, 4)
  }

  /** A two-digit day from 1 to 31 reads back as itself. */
  lemma PaddedDayParses(day: int)
    requires 1 <= day <= 31
    ensures ParseDay(Pad(day, 2)) == Some(day)
  {
    PadDigitsValue(day, 2);
  }

  /** Each abbreviation reads back as the number of its month. */
  lemma AbbreviationParses(month: int)
    requires 1 <= month <= 12
    ensures ParseMonth(MonthAbbreviations[month - 1]) == Some(month)
  {
    MonthKeysAreLowered(month - 1);
    var m := ParseMonth(MonthAbbreviations[month - 1]);
    if m.value != month {
      MonthKeysDistinct(m.value - 1, month - 1);
    }
  }

  /** A four-digit year reads back as itself. */
  lemma PaddedYearParses(year: int)
    requires 0 <= year <= 9999
    ensures ParseYear(Pad(year, 4)) == Some(year)
  {
    PadDigitsValue(year, 4);
  }

  /** A string laid out as day, month and year reads as its three fields. */
  lemma ParseDateOfFields(day: string, month: string, year: string)
    requires |month| == 3 && |year| == 4
    ensures var s := day + "-" + month + "-" + year;
      var (d, m, y) := (ParseDay(day), ParseMonth(month), ParseYear(year));
      ParseDate(s) == if d.Some? && m.Some? && y.Some? then Some(Date(y.value, m.value, d.value)) else None
  {
    var s := day + "-" + month + "-" + year;
    assert s[..|s| - 9] == day;
    assert s[|s| - 8..|s| - 5] == month;
    assert s[|s| - 4..] == year;
  }

  /**
   * Conversely, whatever `ParseDate` accepts is a spelling of the day, the
   * month's abbreviation up to ASCII case, and the year in four digits.
   */
  lemma ParsedSpelling(s: string, d: Date)
    requires ParseDate(s) == Some(d)
    ensures var day, month := s[..|s| - 9], s[|s| - 8..|s| - 5];
      && s == day + "-" + month + "-" + Pad(d.year, 4)
      && DaySpelling(day, d.day)
      && Lower(month) == Lower(MonthAbbreviations[d.month - 1])
  {
    MonthKeysAreLowered(d.month - 1);
    DateLayout(s);
  }

  lemma DateLayout(s: string)
    requires |s| >= 9 && s[|s| - 9] == '-' && s[|s| - 5] == '-'
    ensures s == s[..|s| - 9] + "-" + s[|s| - 8..|s| - 5] + "-" + s[|s| - 4..]
  {
  }

  /** Reading the canonical spelling of a date with ordinary ranges gives the date back. */
  lemma CanonicalParses(d: Date)
    requires 1 <= d.month <= 12 && 1 <= d.day <= 31 && 0 <= d.year <= 9999
    ensures ParseDate(Canonical(d)) == Some(d)
  {
    ParseDateOfFields(Pad(d.day, 2), MonthAbbreviations[d.month - 1], Pad(d.year, 4));
    PaddedDayParses(d.day);
    AbbreviationParses(d.month);
    PaddedYearParses(d.year);
  }

  /**
   * Every date that exists, written canonically, is accepted and rewritten as
   * year, month and day in that order.
   */
  lemma FormatDateAcceptsValid(d: Date)
    requires IsValid(d)
    ensures FormatDate(Canonical(d)) == Some(IsoFormat(d))
  {
    CanonicalParses(d);
  }

  /**
   * A canonically written day-month-year that does not exist (day past the
   * end of the month, or year 0) is rejected.
   */
  lemma FormatDateRejectsInvalid(d: Date)
    requires 1 <= d.month <= 12 && 1 <= d.day <= 31 && 0 <= d.year <= 9999
    requires !IsValid(d)
    ensures FormatDate(Canonical(d)) == None
  {
    CanonicalParses(d);
  }

  /** February has 29 days exactly in Gregorian leap years. */
  lemma {:induction false} LeapDay(year: int)
    requires 1 <= year <= 9999
    ensures FormatDate(Canonical(Date(year, 2, 29))).Some? <==> IsLeapYear(year)
  {
    CanonicalParses(Date(year, 2, 29));
  }

  // The spellings of the dates used in the examples below, one lemma each so
  // that each literal is computed on its own.

  lemma Pad07()
    ensures Pad(7, 2) == "07"
  {
    assert Pad(0, 1) == "0";
  }

  lemma Pad01()
    ensures Pad(1, 2) == "01"
  {
    assert Pad(0, 1) == "0";
  }

  lemma Pad02()
    ensures Pad(2, 2) == "02"
  {
    assert Pad(0, 1) == "0";
  }

  lemma Pad29()
    ensures Pad(29, 2) == "29"
  {
    assert Pad(2, 1) == "2";
  }

  lemma Pad30()
    ensures Pad(30, 2) == "30"
  {
    assert Pad(3, 1) == "3";
  }

  lemma Pad2023()
    ensures Pad(2023, 4) == "2023"
  {
    assert Pad(2, 1) == "2";
    assert Pad(20, 2) == "20";
    assert Pad(202, 3) == "202";
  }

  lemma Pad2024()
    ensures Pad(2024, 4) == "2024"
  {
    assert Pad(2, 1) == "2";
    assert Pad(20, 2) == "20";
    assert Pad(202, 3) == "202";
  }

  lemma Pad0000()
    ensures Pad(0, 4) == "0000"
  {
    assert Pad(0, 1) == "0";
    assert Pad(0, 2) == "00";
    assert Pad(0, 3) == "000";
  }

  lemma Spelling20230107()
    ensures Canonical(Date(2023, 1, 7)) == "07-Jan-2023" && IsoFormat(Date(2023, 1, 7)) == "2023-01-07"
  {
    Pad07();
    Pad01();
    Pad2023();
  }

  lemma Spelling20240229()
    ensures Canonical(Date(2024, 2, 29)) == "29-Feb-2024" && IsoFormat(Date(2024, 2, 29)) == "2024-02-29"
  {
    Pad29();
    Pad02();
    Pad2024();
  }

  lemma Spelling20230229()
    ensures Canonical(Date(2023, 2, 29)) == "29-Feb-2023"
  {
    Pad29();
    Pad2023();
  }

  lemma Spelling20230230()
    ensures Canonical(Date(2023, 2, 30)) == "30-Feb-2023"
  {
    Pad30();
    Pad2023();
  }

  lemma Spelling00000101()
    ensures Canonical(Date(0, 1, 1)) == "01-Jan-0000"
  {
    Pad01();
    Pad0000();
  }

  /** A well-formed date is rewritten year first. */
  lemma ExampleJanuary()
    ensures FormatDate("07-Jan-2023") == Some("2023-01-07")
  {
    FormatDateAcceptsValid(Date(2023, 1, 7));
    Spelling20230107();
  }

  /** 29 February exists in 2024 but not in 2023; 30 February never does. */
  lemma ExampleFebruary()
    ensures FormatDate("29-Feb-2024") == Some("2024-02-29")
    ensures FormatDate("29-Feb-2023") == None
    ensures FormatDate("30-Feb-2023") == None
  {
    FormatDateAcceptsValid(Date(2024, 2, 29));
    FormatDateRejectsInvalid(Date(2023, 2, 29));
    FormatDateRejectsInvalid(Date(2023, 2, 30));
    Spelling20240229();
    Spelling20230229();
    Spelling20230230();
  }

  /** Year 0 is outside the range `datetime` accepts. */
  lemma ExampleYearZero()
    ensures FormatDate("01-Jan-0000") == None
  {
    FormatDateRejectsInvalid(Date(0, 1, 1));
    Spelling00000101();
  }
}
