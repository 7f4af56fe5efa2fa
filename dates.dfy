/**
 * The calendar dates a Deadline holds (java.time.LocalDate restricted to
 * four-digit years), the strict ISO 8601 extended calendar-date parser
 * LocalDate.parse applies and the two renderings the program uses:
 * LocalDate.toString ("YYYY-MM-DD", section 4.1.2.2 of ISO 8601:2004) and the
 * pattern "MMM d yyyy" with English month abbreviations.
 */
module Dates {
  import opened Wrappers
  import opened JavaStrings

  datatype Date = Date(year: nat, month: nat, day: nat)

  /** The Gregorian leap-year rule, applied proleptically as java.time does. */
  predicate IsLeapYear(year: nat)
  {
    year % 4 == 0 && (year % 100 != 0 || year % 400 == 0)
  }

  function DaysInMonth(year: nat, month: nat): (n: nat)
    requires 1 <= month <= 12
    ensures 28 <= n <= 31
  {
    if month == 2 then (if IsLeapYear(year) then 29 else 28)
    else if month == 4 || month == 6 || month == 9 || month == 11 then 30
    else 31
  }

  /** A real day of the calendar, with a year of four digits at most. */
  predicate IsValid(d: Date)
  {
    d.year <= 9999 && 1 <= d.month <= 12 && 1 <= d.day <= DaysInMonth(d.year, d.month)
  }

  type ValidDate = d: Date | IsValid(d) witness Date(1970, 1, 1)

  /**
   * LocalDate.parse: exactly "YYYY-MM-DD" in ASCII digits, naming a day that
   * exists (the strict resolver refuses 2025-02-30 rather than adjusting it).
   */
  function ParseIso(s: string): (r: Option<ValidDate>)
  {
    if |s| == 10 && s[4] == '-' && s[7] == '-'
       && AllDigits(s[..4]) && AllDigits(s[5..7]) && AllDigits(s[8..])
    then
      var d := Date(DigitsValue(s[..4]), DigitsValue(s[5..7]), DigitsValue(s[8..]));
      if IsValid(d) then Some(d) else None
    else None
  }

  /** LocalDate.toString: zero-padded four-digit year, two-digit month and day. */
  function FormatIso(d: ValidDate): (s: string)
    ensures |s| == 10 && s[4] == '-' && s[7] == '-'
    ensures AllDigits(s[..4]) && AllDigits(s[5..7]) && AllDigits(s[8..])
  {
    Fixed(d.year, 4) + "-" + Fixed(d.month, 2) + "-" + Fixed(d.day, 2)
  }

  function MonthAbbreviation(month: nat): string
    requires 1 <= month <= 12
  {
    ["Jan", "Feb", "Mar", "Apr", "May", "Jun",
     "Jul", "Aug", "Sep", "Oct", "Nov", "Dec"][month - 1]
  }

  /** The "y" pattern letter prints the year of era: proleptic year 0 is year 1 BCE. */
  function YearOfEra(year: nat): nat
  {
    if year == 0 then 1 else year
  }

  /** DateTimeFormatter.ofPattern("MMM d yyyy"): the day of the month is not padded. */
  function FormatDisplay(d: ValidDate): string
  {
    MonthAbbreviation(d.month) + " " + NatToString(d.day) + " " + Fixed(YearOfEra(d.year), 4)
  }

  /** The parser reads back every date the ISO rendering writes. */
  lemma ParseFormatIso(d: ValidDate)
    ensures ParseIso(FormatIso(d)) == Some(d)
  {
    var s := FormatIso(d);
    assert s[..4] == Fixed(d.year, 4);
    assert s[5..7] == Fixed(d.month, 2);
    assert s[8..] == Fixed(d.day, 2);
    FixedValue(d.year, 4);
    FixedValue(d.month, 2);
    FixedValue(d.day, 2);
  }

  /** A string the parser accepts is already in the canonical ISO form. */
  lemma FormatParseIso(s: string)
    requires ParseIso(s).Some?
    ensures FormatIso(ParseIso(s).value) == s
  {
    var d := ParseIso(s).value;
    FixedOfDigits(s[..4]);
    FixedOfDigits(s[5..7]);
    FixedOfDigits(s[8..]);
    assert s == s[..4] + "-" + s[5..7] + "-" + s[8..];
  }

  /** Both directions at once: the parser accepts exactly the renderings of valid dates. */
  lemma ParseIsoExactly(s: string, d: ValidDate)
    ensures ParseIso(s) == Some(d) <==> s == FormatIso(d)
  {
    if ParseIso(s) == Some(d) {
      FormatParseIso(s);
    }
    if s == FormatIso(d) {
      ParseFormatIso(d);
    }
  }

  /** February 29 exists exactly in leap years. */
  lemma LeapDay(year: nat)
    requires year <= 9999
    ensures IsValid(Date(year, 2, 29)) <==> IsLeapYear(year)
  {
  }

  /** A date string that names no real day is refused, as for "2025-02-30". */
  lemma ImpossibleDateRefused()
    ensures ParseIso("2025-02-30") == None
  {
    var s := "2025-02-30";
    assert s[..4] == "2025" && s[5..7] == "02" && s[8..] == "30";
    assert DigitsValue("2") == 2;
    assert "20"[..1] == "2" && DigitsValue("20") == 20;
    assert "202"[..2] == "20" && DigitsValue("202") == 202;
    assert "2025"[..3] == "202" && DigitsValue("2025") == 2025;
    assert DigitsValue("02") == 2;
    assert DigitsValue("30") == 30;
  }

  /** "2025-01-10" is year 2025, month 1, day 10. */
  lemma ParseExample()
    ensures ParseIso("2025-01-10") == Some(Date(2025, 1, 10))
  {
    var s := "2025-01-10";
    assert s[..4] == "2025" && s[5..7] == "01" && s[8..] == "10";
    assert DigitsValue("2") == 2;
    assert "20"[..1] == "2" && DigitsValue("20") == 20;
    assert "202"[..2] == "20" && DigitsValue("202") == 202;
    assert "2025"[..3] == "202" && DigitsValue("2025") == 2025;
    assert DigitsValue("01") == 1;
    assert DigitsValue("10") == 10;
  }

  /**
   * The display rendering of a parsed date prints the year of era in four
   * digits, the day without its leading zero and the month's name. The year
   * part copies the year digits of the input exactly when the year is not 0:
   * "0000-01-01" is displayed as "Jan 1 0001".
   */
  lemma DisplayOfParsed(s: string)
    requires ParseIso(s).Some?
    ensures FormatDisplay(ParseIso(s).value)
            == MonthAbbreviation(ParseIso(s).value.month) + " "
               + NatToString(DigitsValue(s[8..])) + " "
               + Fixed(YearOfEra(ParseIso(s).value.year), 4)
    ensures Fixed(YearOfEra(ParseIso(s).value.year), 4) == s[..4]
            <==> ParseIso(s).value.year != 0
  {
    FixedOfDigits(s[..4]);
    if ParseIso(s).value.year == 0 {
      assert Pow10(4) == 10000;
      FixedValue(1, 4);
    }
  }

  /** The renderings in the program's tests: no padding of the day. */
  lemma DisplayExamples()
    ensures FormatDisplay(Date(2024, 12, 31)) == "Dec 31 2024"
    ensures FormatDisplay(Date(2025, 1, 1)) == "Jan 1 2025"
  {
  }
}
