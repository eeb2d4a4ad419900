/**
 * The observation instant `aifstime_utc`, read with the exact format `yyyyMMddHHmmss`
 * under the invariant culture (no whitespace, no separators, no sub-second part).
 */
module Timestamp {
  import opened Wrappers
  import opened Digits

  /** A calendar date and time of day at whole-second resolution. */
  datatype DateTime14 = DateTime14(year: nat, month: nat, day: nat, hour: nat, minute: nat, second: nat)

  /** Gregorian leap years. */
  predicate IsLeapYear(year: nat) {
    year % 4 == 0 && (year % 100 != 0 || year % 400 == 0)
  }

  function DaysInMonth(year: nat, month: nat): (days: nat)
    requires 1 <= month <= 12
    ensures 28 <= days <= 31
    ensures days == 29 <==> month == 2 && IsLeapYear(year)
  {
    if month == 2 then (if IsLeapYear(year) then 29 else 28)
    else if month == 4 || month == 6 || month == 9 || month == 11 then 30
    else 31
  }

  /** The instants a DateTime can hold: years 1 to 9999 and a real day of a real month. */
  predicate Valid(t: DateTime14) {
    && 1 <= t.year <= 9999
    && 1 <= t.month <= 12
    && 1 <= t.day <= DaysInMonth(t.year, t.month)
    && t.hour < 24
    && t.minute < 60
    && t.second < 60
  }

  /** The six fixed-width columns of a 14-digit string. */
  function Columns(s: string): DateTime14
    requires |s| == 14 && AllDigits(s)
  {
    DateTime14(Value(s[0..4]), Value(s[4..6]), Value(s[6..8]),
               Value(s[8..10]), Value(s[10..12]), Value(s[12..14]))
  }

  /** Exact parse with format `yyyyMMddHHmmss`; `None` is the FormatException. */
  function ParseTimestamp(s: string): (r: Option<DateTime14>)
    ensures r.Some? ==> Valid(r.value)
  {
    if |s| == 14 && AllDigits(s) && Valid(Columns(s)) then Some(Columns(s)) else None
  }

  /** Formatting with `yyyyMMddHHmmss`. */
  function FormatTimestamp(t: DateTime14): (s: string)
    ensures |s| == 14
  {
    Pad(t.year, 4) + Pad(t.month, 2) + Pad(t.day, 2) + Pad(t.hour, 2) + Pad(t.minute, 2) + Pad(t.second, 2)
  }

  /** Formatting writes every column at its own width, so the columns read back unchanged. */
  lemma ColumnsFormat(t: DateTime14)
    requires t.year < 10000 && t.month < 100 && t.day < 100
    requires t.hour < 100 && t.minute < 100 && t.second < 100
    ensures AllDigits(FormatTimestamp(t)) && Columns(FormatTimestamp(t)) == t
  {
    var yyyy, mm, dd, hh, mi, ss := Pad(t.year, 4), Pad(t.month, 2), Pad(t.day, 2), Pad(t.hour, 2), Pad(t.minute, 2), Pad(t.second, 2);
    var p2 := yyyy + mm;
    var p3 := p2 + dd;
    var p4 := p3 + hh;
    var p5 := p4 + mi;
    var s := p5 + ss;
    assert s == FormatTimestamp(t);
    PadDigits(t.year, 4); PadDigits(t.month, 2); PadDigits(t.day, 2);
    PadDigits(t.hour, 2); PadDigits(t.minute, 2); PadDigits(t.second, 2);
    ConcatDigits(yyyy, mm); ConcatDigits(p2, dd); ConcatDigits(p3, hh); ConcatDigits(p4, mi); ConcatDigits(p5, ss);
    KeepSlice(p5, ss, 0, 12); KeepSlice(p4, mi, 0, 10); KeepSlice(p3, hh, 0, 8); KeepSlice(p2, dd, 0, 6); KeepSlice(yyyy, mm, 0, 4);
    KeepSlice(p5, ss, 4, 6); KeepSlice(p4, mi, 4, 6); KeepSlice(p3, hh, 4, 6); KeepSlice(p2, dd, 4, 6);
    KeepSlice(p5, ss, 6, 8); KeepSlice(p4, mi, 6, 8); KeepSlice(p3, hh, 6, 8);
    KeepSlice(p5, ss, 8, 10); KeepSlice(p4, mi, 8, 10);
    KeepSlice(p5, ss, 10, 12);
    assert s[0..4] == yyyy;
    assert s[4..6] == mm;
    assert s[6..8] == dd;
    assert s[8..10] == hh;
    assert s[10..12] == mi;
    assert s[12..14] == ss;
    PadValue(t.year, 4);
    PadValue(t.month, 2);
    PadValue(t.day, 2);
    PadValue(t.hour, 2);
    PadValue(t.minute, 2);
    PadValue(t.second, 2);
  }

  /** Appending text leaves a slice of what was already written unchanged. */
  lemma KeepSlice(x: string, y: string, i: nat, j: nat)
    requires i <= j <= |x|
    ensures (x + y)[i..j] == x[i..j]
  {
  }

  /** Every valid instant, once formatted, is parsed back to itself. */
  lemma ParseFormat(t: DateTime14)
    requires Valid(t)
    ensures ParseTimestamp(FormatTimestamp(t)) == Some(t)
  {
    ColumnsFormat(t);
  }

  /** A parsed timestamp formats back to exactly the text it came from. */
  lemma FormatParse(s: string)
    requires ParseTimestamp(s).Some?
    ensures FormatTimestamp(ParseTimestamp(s).value) == s
  {
    PadOfValue(s[0..4]);
    PadOfValue(s[4..6]);
    PadOfValue(s[6..8]);
    PadOfValue(s[8..10]);
    PadOfValue(s[10..12]);
    PadOfValue(s[12..14]);
    SplitColumns(s);
  }

  lemma SplitColumns(s: string)
    requires |s| == 14
    ensures s == s[0..4] + s[4..6] + s[6..8] + s[8..10] + s[10..12] + s[12..14]
  {
    assert s[0..4] + s[4..6] == s[0..6];
    assert s[0..6] + s[6..8] == s[0..8];
    assert s[0..8] + s[8..10] == s[0..10];
    assert s[0..10] + s[10..12] == s[0..12];
    assert s[0..12] + s[12..14] == s;
  }

  /**
   * The accepted strings are exactly the formatted valid instants: anything of another
   * length, with a non-digit, or naming an impossible date or time is rejected.
   */
  lemma ParseTimestampExactly(s: string, t: DateTime14)
    ensures ParseTimestamp(s) == Some(t) <==> Valid(t) && FormatTimestamp(t) == s
  {
    if ParseTimestamp(s) == Some(t) {
      FormatParse(s);
    }
    if Valid(t) && FormatTimestamp(t) == s {
      ParseFormat(t);
    }
  }

  /** A column set that is in range for its width but not a valid instant is rejected. */
  lemma RejectsInvalid(t: DateTime14)
    requires t.year < 10000 && t.month < 100 && t.day < 100
    requires t.hour < 100 && t.minute < 100 && t.second < 100
    requires !Valid(t)
    ensures ParseTimestamp(FormatTimestamp(t)) == None
  {
    ColumnsFormat(t);
  }
  /** The year columns used by the worked cases below. */
  lemma Year2024()
    ensures Pad(2024, 4) == "2024"
  {
    PadTwo(20);
    assert Pad(202, 3) == Pad(20, 2) + [DigitChar(2)];
    assert Pad(2024, 4) == Pad(202, 3) + [DigitChar(4)];
  }

  lemma Year1900()
    ensures Pad(1900, 4) == "1900"
  {
    PadTwo(19);
    assert Pad(190, 3) == Pad(19, 2) + [DigitChar(0)];
    assert Pad(1900, 4) == Pad(190, 3) + [DigitChar(0)];
  }

  /** Formatting is the concatenation of the padded columns. */
  lemma FormatColumns(t: DateTime14, year: string, month: string, day: string, hour: string, minute: string, second: string)
    requires Pad(t.year, 4) == year && Pad(t.month, 2) == month && Pad(t.day, 2) == day
    requires Pad(t.hour, 2) == hour && Pad(t.minute, 2) == minute && Pad(t.second, 2) == second
    ensures FormatTimestamp(t) == year + month + day + hour + minute + second
  {
  }

  /** A well-formed instant parses to its calendar fields. */
  lemma TimestampExampleValid()
    ensures ParseTimestamp("20240115063000") == Some(DateTime14(2024, 1, 15, 6, 30, 0))
  {
    Year2024();
    PadTwo(1); PadTwo(15); PadTwo(6); PadTwo(30); PadTwo(0);
    FormatColumns(DateTime14(2024, 1, 15, 6, 30, 0), "2024", "01", "15", "06", "30", "00");
    assert "2024" + "01" + "15" + "06" + "30" + "00" == "20240115063000";
    ParseFormat(DateTime14(2024, 1, 15, 6, 30, 0));
  }

  /** A truncated string is rejected rather than read as some other date. */
  lemma TimestampExampleTruncated()
    ensures ParseTimestamp("2024011") == None
  {
  }

  /** 29 February exists in 2024, a leap year. */
  lemma TimestampExampleLeapDay()
    ensures ParseTimestamp("20240229120000") == Some(DateTime14(2024, 2, 29, 12, 0, 0))
  {
    Year2024();
    PadTwo(2); PadTwo(29); PadTwo(12); PadTwo(0);
    FormatColumns(DateTime14(2024, 2, 29, 12, 0, 0), "2024", "02", "29", "12", "00", "00");
    assert "2024" + "02" + "29" + "12" + "00" + "00" == "20240229120000";
    ParseFormat(DateTime14(2024, 2, 29, 12, 0, 0));
  }

  /** 29 February does not exist in 1900, a century year not divisible by 400. */
  lemma TimestampExampleCenturyYear()
    ensures ParseTimestamp("19000229000000") == None
  {
    Year1900();
    PadTwo(2); PadTwo(29); PadTwo(0);
    FormatColumns(DateTime14(1900, 2, 29, 0, 0, 0), "1900", "02", "29", "00", "00", "00");
    assert "1900" + "02" + "29" + "00" + "00" + "00" == "19000229000000";
    RejectsInvalid(DateTime14(1900, 2, 29, 0, 0, 0));
  }

  /** Hour 24 is out of range. */
  lemma TimestampExampleHour24()
    ensures ParseTimestamp("20240115240000") == None
  {
    Year2024();
    PadTwo(1); PadTwo(15); PadTwo(24); PadTwo(0);
    FormatColumns(DateTime14(2024, 1, 15, 24, 0, 0), "2024", "01", "15", "24", "00", "00");
    assert "2024" + "01" + "15" + "24" + "00" + "00" == "20240115240000";
    RejectsInvalid(DateTime14(2024, 1, 15, 24, 0, 0));
  }

}
