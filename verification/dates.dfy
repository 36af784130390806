/** Naive date-times as the handlers exchange them: the intake handler stores
    `datetime.now().isoformat()`, the query handler reads the text back with
    `datetime.fromisoformat` and shows it with `strftime('%d.%m.%Y at %H:%M')`. */
module Dates {
  import opened Strings
  import opened Effects

  datatype DateTime = DateTime(year: nat, month: nat, day: nat,
                               hour: nat, minute: nat, second: nat, microsecond: nat)

  predicate IsLeapYear(year: nat)
  {
    year % 4 == 0 && (year % 100 != 0 || year % 400 == 0)
  }

  function DaysInMonth(year: nat, month: nat): nat
    requires 1 <= month <= 12
  {
    if month == 2 then (if IsLeapYear(year) then 29 else 28)
    else if month == 4 || month == 6 || month == 9 || month == 11 then 30
    else 31
  }

  /** The fields a `datetime` object can hold. */
  predicate Valid(d: DateTime)
  {
    && 1 <= d.year <= 9999
    && 1 <= d.month <= 12
    && 1 <= d.day <= DaysInMonth(d.year, d.month)
    && d.hour < 24 && d.minute < 60 && d.second < 60 && d.microsecond < 1000000
  }

  /** Every field fits the width `isoformat` writes it in. */
  predicate Writable(d: DateTime)
  {
    && d.year < 10000 && d.month < 100 && d.day < 100
    && d.hour < 100 && d.minute < 100 && d.second < 100 && d.microsecond < 1000000
  }

  // ---------------------------------------------------------------------------
  // isoformat()

  function IsoDate(d: DateTime): string
    requires Writable(d)
  {
    PadDigits(d.year, 4) + "-" + PadDigits(d.month, 2) + "-" + PadDigits(d.day, 2)
  }

  /** The fraction is written, as six digits, only when it is not zero. */
  function IsoTime(d: DateTime): string
    requires Writable(d)
  {
    PadDigits(d.hour, 2) + ":" + PadDigits(d.minute, 2) + ":" + PadDigits(d.second, 2)
    + (if d.microsecond == 0 then "" else "." + PadDigits(d.microsecond, 6))
  }

  /** `datetime.isoformat()` of a naive date-time. */
  function IsoFormat(d: DateTime): string
    requires Writable(d)
  {
    IsoDate(d) + "T" + IsoTime(d)
  }

  // ---------------------------------------------------------------------------
  // fromisoformat()

  predicate DigitsAt(s: string, i: nat, j: nat)
  {
    i <= j <= |s| && AllDigits(s[i..j])
  }

  /** `YYYY-MM-DD` at the start of `s`. */
  predicate IsDateText(s: string)
  {
    && |s| >= 10
    && DigitsAt(s, 0, 4) && s[4] == '-' && DigitsAt(s, 5, 7) && s[7] == '-' && DigitsAt(s, 8, 10)
  }

  /** `HH:MM`, `HH:MM:SS`, or `HH:MM:SS` followed by `.` or `,` and one to six
      fraction digits. */
  predicate IsTimeText(t: string)
  {
    && |t| >= 5 && DigitsAt(t, 0, 2) && t[2] == ':' && DigitsAt(t, 3, 5)
    && (|t| == 5 ||
        (&& |t| >= 8 && t[5] == ':' && DigitsAt(t, 6, 8)
         && (|t| == 8 || (10 <= |t| <= 15 && (t[8] == '.' || t[8] == ',') && DigitsAt(t, 9, |t|)))))
  }

  /** A date, or a date, any one separator character and a time. */
  predicate IsIsoText(s: string)
  {
    IsDateText(s) && (|s| == 10 || IsTimeText(s[11..]))
  }

  function TimeFields(t: string): (r: (nat, nat, nat, nat))
    requires IsTimeText(t)
    ensures r.3 < 1000000
  {
    var second := if |t| == 5 then 0 else DigitsValue(t[6..8]);
    var fraction := if |t| <= 8 then 0 else FractionValue(t[9..]);
    (DigitsValue(t[0..2]), DigitsValue(t[3..5]), second, fraction)
  }

  /** Microseconds denoted by one to six fraction digits: the digits padded on
      the right with zeros to six places. */
  function FractionValue(f: string): (us: nat)
    requires 1 <= |f| <= 6 && AllDigits(f)
    ensures us < 1000000
  {
    var micros := f + seq(6 - |f|, _ => '0');
    assert AllDigits(micros);
    PadDigitsRoundTrip(micros);
    DigitsValue(micros)
  }

  /** The numbers written in well-formed text; a date alone is midnight. */
  function FieldsOf(s: string): DateTime
    requires IsIsoText(s)
  {
    var time := if |s| == 10 then (0, 0, 0, 0) else TimeFields(s[11..]);
    DateTime(DigitsValue(s[0..4]), DigitsValue(s[5..7]), DigitsValue(s[8..10]),
             time.0, time.1, time.2, time.3)
  }

  function InvalidIsoFormat(s: string): string
  {
    "Invalid isoformat string: '" + s + "'"
  }

  /** The range checks of the `datetime` constructor, in its order. */
  function CheckRanges(d: DateTime): (r: Result<DateTime>)
    ensures r.Success? <==> Valid(d)
    ensures r.Success? ==> r.value == d
  {
    if !(1 <= d.year <= 9999) then Failure("year " + NatToString(d.year) + " is out of range")
    else if !(1 <= d.month <= 12) then Failure("month must be in 1..12")
    else if !(1 <= d.day <= DaysInMonth(d.year, d.month)) then Failure("day is out of range for month")
    else if d.hour >= 24 then Failure("hour must be in 0..23")
    else if d.minute >= 60 then Failure("minute must be in 0..59")
    else if d.second >= 60 then Failure("second must be in 0..59")
    else if d.microsecond >= 1000000 then Failure("microsecond must be in 0..999999")
    else Success(d)
  }

  /** `datetime.fromisoformat(s)` for the text forms described above; the
      error is the text of the `ValueError` raised. */
  function FromIsoFormat(s: string): (r: Result<DateTime>)
    ensures r.Success? ==> Valid(r.value)
    ensures r.Success? <==> IsIsoText(s) && Valid(FieldsOf(s))
  {
    if !IsIsoText(s) then Failure(InvalidIsoFormat(s)) else CheckRanges(FieldsOf(s))
  }

  // ---------------------------------------------------------------------------
  // strftime('%d.%m.%Y at %H:%M')

  function DisplayDate(d: DateTime): string
    requires Valid(d)
  {
    PadDigits(d.day, 2) + "." + PadDigits(d.month, 2) + "." + PadDigits(d.year, 4)
    + " at " + PadDigits(d.hour, 2) + ":" + PadDigits(d.minute, 2)
  }

  // ---------------------------------------------------------------------------
  // Properties

  lemma IsoDateParts(d: DateTime)
    requires Writable(d)
    ensures var s := IsoDate(d);
      && |s| == 10 && IsDateText(s)
      && s[0..4] == PadDigits(d.year, 4) && s[5..7] == PadDigits(d.month, 2) && s[8..10] == PadDigits(d.day, 2)
  {
  }

  lemma IsoTimeParts(d: DateTime)
    requires Writable(d)
    ensures var t := IsoTime(d);
      && IsTimeText(t)
      && TimeFields(t) == (d.hour, d.minute, d.second, d.microsecond)
  {
    var t := IsoTime(d);
    var h, m, sec := PadDigits(d.hour, 2), PadDigits(d.minute, 2), PadDigits(d.second, 2);
    var frac := if d.microsecond == 0 then "" else "." + PadDigits(d.microsecond, 6);
    ClockFaceParts(h, m, sec, frac);
    PadDigitsValue(d.hour, 2);
    PadDigitsValue(d.minute, 2);
    PadDigitsValue(d.second, 2);
    if d.microsecond != 0 {
      FractionOfIsoTime(d.microsecond);
      assert t[9..] == frac[1..];
    }
  }

  /** Where the pieces of `HH:MM:SS` followed by a fraction sit. */
  lemma ClockFaceParts(h: string, m: string, sec: string, frac: string)
    requires |h| == 2 && |m| == 2 && |sec| == 2
    ensures var t := h + ":" + m + ":" + sec + frac;
      && |t| == 8 + |frac| && t[2] == ':' && t[5] == ':'
      && t[0..2] == h && t[3..5] == m && t[6..8] == sec && t[8..] == frac
  {
    var hm := h + ":" + m;
    var hms := hm + ":" + sec;
    assert hm[0..2] == h && hm[3..5] == m;
    assert hms[0..5] == hm && hms[6..8] == sec;
    var t := hms + frac;
    assert t[0..8] == hms && t[8..] == frac;
    assert t[0..2] == hms[0..5][0..2];
    assert t[3..5] == hms[0..5][3..5];
  }

  /** Six written fraction digits read back as the microseconds. */
  lemma FractionOfIsoTime(us: nat)
    requires us < 1000000
    ensures var f := PadDigits(us, 6); FractionValue(f) == us
  {
    var f := PadDigits(us, 6);
    assert f + seq(0, _ => '0') == f;
    PadDigitsValue(us, 6);
  }

  /** The text `isoformat` writes is read back field by field, so
      `fromisoformat` succeeds on it exactly when the fields are in range. */
  lemma IsoFormatReadBack(d: DateTime)
    requires Writable(d)
    ensures IsIsoText(IsoFormat(d)) && FieldsOf(IsoFormat(d)) == d
    ensures FromIsoFormat(IsoFormat(d)) == CheckRanges(d)
  {
    var s := IsoFormat(d);
    IsoFormatShape(d);
    IsoTimeParts(d);
    PadDigitsValue(d.year, 4);
    PadDigitsValue(d.month, 2);
    PadDigitsValue(d.day, 2);
  }

  /** Where the date fields and the time part sit in `isoformat` text. */
  lemma IsoFormatShape(d: DateTime)
    requires Writable(d)
    ensures var s := IsoFormat(d);
      && IsDateText(s) && |s| > 10 && s[11..] == IsoTime(d)
      && s[0..4] == PadDigits(d.year, 4) && s[5..7] == PadDigits(d.month, 2) && s[8..10] == PadDigits(d.day, 2)
  {
    var date, rest := IsoDate(d), "T" + IsoTime(d);
    IsoDateParts(d);
    assert IsoFormat(d) == date + rest;
    DateThenRest(date, rest);
  }

  /** Text after a date leaves the date's fields where they were. */
  lemma DateThenRest(date: string, rest: string)
    requires |date| == 10 && IsDateText(date)
    ensures var s := date + rest;
      && IsDateText(s)
      && s[0..4] == date[0..4] && s[5..7] == date[5..7] && s[8..10] == date[8..10]
      && s[10..] == rest
  {
    var s := date + rest;
    assert s[0..4] == date[0..4] && s[5..7] == date[5..7] && s[8..10] == date[8..10];
  }

  /** What `isoformat` writes, `fromisoformat` reads back unchanged. */
  lemma IsoFormatRoundTrip(d: DateTime)
    requires Valid(d)
    ensures FromIsoFormat(IsoFormat(d)) == Success(d)
  {
    IsoFormatReadBack(d);
  }

  /** The displayed date is the parsed text rearranged: day, month and year
      from the date part, then hour and minute from the time part (`00:00`
      when the text has no time). */
  lemma DisplayRearrangesText(s: string)
    requires FromIsoFormat(s).Success?
    ensures DisplayDate(FromIsoFormat(s).value)
         == s[8..10] + "." + s[5..7] + "." + s[0..4] + " at "
            + (if |s| == 10 then "00:00" else s[11..13] + ":" + s[14..16])
  {
    DisplayedDayMonthYear(s);
    DisplayedHourMinute(s);
  }

  /** Day, month and year are displayed as written in the date part. */
  lemma DisplayedDayMonthYear(s: string)
    requires FromIsoFormat(s).Success?
    ensures var d := FieldsOf(s);
      && PadDigits(d.day, 2) == s[8..10] && PadDigits(d.month, 2) == s[5..7]
      && PadDigits(d.year, 4) == s[0..4]
  {
    PadDigitsRoundTrip(s[0..4]);
    PadDigitsRoundTrip(s[5..7]);
    PadDigitsRoundTrip(s[8..10]);
  }

  /** Hour and minute are displayed as written in the time part, or as
      `00:00` for a date alone. */
  lemma DisplayedHourMinute(s: string)
    requires FromIsoFormat(s).Success?
    ensures var d := FieldsOf(s);
      PadDigits(d.hour, 2) + ":" + PadDigits(d.minute, 2)
      == if |s| == 10 then "00:00" else s[11..13] + ":" + s[14..16]
  {
    if |s| > 10 {
      var t := s[11..];
      assert t[0..2] == s[11..13] && t[3..5] == s[14..16];
      PadDigitsRoundTrip(t[0..2]);
      PadDigitsRoundTrip(t[3..5]);
    } else {
      assert PadDigits(0, 2) == "00";
    }
  }

  /** Text in the display form is not ISO text. */
  lemma DisplayFormIsNotIsoText()
    ensures FromIsoFormat("05.03.2024") == Failure("Invalid isoformat string: '05.03.2024'")
  {
    assert "05.03.2024"[4] != '-';
  }
}
