/** java.time's LocalDate, LocalTime and LocalDateTime as plain values, and
    the ISO_LOCAL_DATE_TIME formatter: the extended calendar date and time of
    day of ISO 8601 (section 4.3.2), `YYYY-MM-DDThh:mm:ss` with an optional
    decimal fraction of the second (section 4.2.2.4). */
module IsoDateTime {
  import opened Wrappers
  import opened Decimal

  datatype LocalDate = LocalDate(year: int, month: int, day: int)

  datatype LocalTime = LocalTime(hour: int, minute: int, second: int, nano: int)

  datatype LocalDateTime = LocalDateTime(date: LocalDate, time: LocalTime)

  /** The proleptic Gregorian leap-year rule of IsoChronology. */
  predicate IsLeapYear(year: int)
  {
    year % 4 == 0 && (year % 100 != 0 || year % 400 == 0)
  }

  function DaysInMonth(year: int, month: int): (n: int)
    requires 1 <= month <= 12
    ensures 28 <= n <= 31
  {
    if month == 2 then (if IsLeapYear(year) then 29 else 28)
    else if month == 4 || month == 6 || month == 9 || month == 11 then 30
    else 31
  }

  /** A calendar date whose year has the unsigned four-digit form. */
  predicate ValidDate(d: LocalDate)
  {
    0 <= d.year <= 9999 && 1 <= d.month <= 12 && 1 <= d.day <= DaysInMonth(d.year, d.month)
  }

  predicate ValidTime(t: LocalTime)
  {
    0 <= t.hour < 24 && 0 <= t.minute < 60 && 0 <= t.second < 60 && 0 <= t.nano < 1_000_000_000
  }

  predicate ValidDateTime(dt: LocalDateTime)
  {
    ValidDate(dt.date) && ValidTime(dt.time)
  }

  /** The texts the formatter writes: a date, an upper-case 'T', a time with
      its seconds, and either no fraction or a point and digits that do not
      end in '0'. */
  predicate CanonicalText(s: string)
  {
    |s| >= 19 && s[10] == 'T' &&
    (|s| == 19 || (|s| >= 21 && s[19] == '.' && s[|s| - 1] != '0'))
  }

  // ---------------------------------------------------------------- format

  function FormatDate(d: LocalDate): (s: string)
    requires ValidDate(d)
    ensures |s| == 10 && s[4] == '-' && s[7] == '-'
  {
    Padded(d.year, 4) + "-" + Padded(d.month, 2) + "-" + Padded(d.day, 2)
  }

  /** appendFraction(NANO_OF_SECOND, 0, 9, true): nothing for a whole
      second, otherwise a point and the fewest digits that state the
      fraction exactly. */
  function Fraction(nano: nat): (r: string)
    requires nano < 1_000_000_000
    ensures (r == "") == (nano == 0)
    ensures r != "" ==> 2 <= |r| <= 10 && r[0] == '.' && AllDigits(r[1..]) && r[|r| - 1] != '0'
  {
    if nano == 0 then ""
    else
      assert Pow10(9) == 1_000_000_000;
      PaddedValue(nano, 9);
      TrimZerosValue(Padded(nano, 9));
      "." + TrimZeros(Padded(nano, 9))
  }

  /** ISO_LOCAL_TIME prints the seconds of a LocalTime always, the
      fraction only when it is not zero. */
  function FormatTime(t: LocalTime): (r: string)
    requires ValidTime(t)
    ensures |r| >= 8 && r[2] == ':' && r[5] == ':'
    ensures |r| == 8 || (|r| >= 10 && r[8] == '.' && r[|r| - 1] != '0')
  {
    Padded(t.hour, 2) + ":" + Padded(t.minute, 2) + ":" + Padded(t.second, 2) + Fraction(t.nano)
  }

  /** formatter.format(dateTime) with ISO_LOCAL_DATE_TIME. */
  function Format(dt: LocalDateTime): (r: string)
    requires ValidDateTime(dt)
    ensures CanonicalText(r)
  {
    FormatDate(dt.date) + "T" + FormatTime(dt.time)
  }

  // ----------------------------------------------------------------- parse

  /** The w-digit field starting at index i, if s has one there. */
  function Field(s: string, i: nat, w: nat): (r: Option<nat>)
    ensures r.Some? <==> i + w <= |s| && AllDigits(s[i..i + w])
    ensures r.Some? ==> r.value == Value(s[i..i + w]) && r.value < Pow10(w)
  {
    if i + w <= |s| && AllDigits(s[i..i + w]) then
      ValueBound(s[i..i + w]);
      Some(Value(s[i..i + w]))
    else None
  }

  /** YYYY-MM-DD: four, two and two digits separated by '-'. */
  predicate DateShape(s: string)
  {
    |s| == 10 && s[4] == '-' && s[7] == '-' &&
    AllDigits(s[0..4]) && AllDigits(s[5..7]) && AllDigits(s[8..10])
  }

  /** The date whose year, month and day are the digits of a YYYY-MM-DD text. */
  function DateDigits(s: string): LocalDate
    requires DateShape(s)
  {
    LocalDate(Value(s[0..4]), Value(s[5..7]), Value(s[8..10]))
  }

  /** ISO_LOCAL_DATE on a ten-character text, with the STRICT resolver's
      calendar check. */
  function ParseDate(s: string): (r: Option<LocalDate>)
    ensures r.Some? <==> DateShape(s) && ValidDate(DateDigits(s))
    ensures r.Some? ==> r.value == DateDigits(s)
  {
    if |s| != 10 || s[4] != '-' || s[7] != '-' then None
    else
      var year, month, day := Field(s, 0, 4), Field(s, 5, 2), Field(s, 8, 2);
      if year.None? || month.None? || day.None? then None
      else if !(1 <= month.value <= 12) then None
      else if !(1 <= day.value <= DaysInMonth(year.value, month.value)) then None
      else Some(LocalDate(year.value, month.value, day.value))
  }

  lemma {:induction false} Pow10Add(a: nat, b: nat)
    ensures Pow10(a + b) == Pow10(a) * Pow10(b)
  {
    if a > 0 {
      Pow10Add(a - 1, b);
    }
  }

  /** A fraction of k <= 9 digits, scaled to nanoseconds, stays below one second. */
  lemma ScaledFractionBound(v: nat, k: nat)
    requires k <= 9 && v < Pow10(k)
    ensures v * Pow10(9 - k) < 1_000_000_000
  {
    Pow10Add(k, 9 - k);
  }

  /** The optional fraction after the seconds: a '.' and at most nine digits,
      read as the leading digits of the nanosecond count (a lone '.' reads
      as zero). */
  function ParseFraction(s: string): (r: Option<nat>)
    ensures r.Some? <==> s == [] || (s[0] == '.' && |s| <= 10 && AllDigits(s[1..]))
    ensures s == [] ==> r == Some(0)
    ensures r.Some? && s != [] ==> r.value == Value(s[1..]) * Pow10(10 - |s|)
    ensures r.Some? ==> r.value < 1_000_000_000
  {
    if s == [] then Some(0)
    else if s[0] != '.' || |s| - 1 > 9 || !AllDigits(s[1..]) then None
    else
      ValueBound(s[1..]);
      ScaledFractionBound(Value(s[1..]), |s| - 1);
      Some(Value(s[1..]) * Pow10(9 - (|s| - 1)))
  }

  /** ISO_LOCAL_TIME: `hh:mm`, then optionally `:ss`, then (only after the
      seconds) the optional fraction; the hour, minute and second are the
      digits read, range checked as the STRICT resolver does. */
  function ParseTime(s: string): (r: Option<LocalTime>)
    ensures r.Some? ==> ValidTime(r.value)
    ensures r.Some? ==>
              |s| >= 5 && s[2] == ':' && AllDigits(s[0..2]) && AllDigits(s[3..5]) &&
              r.value.hour == Value(s[0..2]) && r.value.minute == Value(s[3..5])
    ensures r.Some? && |s| == 5 ==> r.value.second == 0 && r.value.nano == 0
    ensures r.Some? && |s| > 5 ==>
              |s| >= 8 && s[5] == ':' && AllDigits(s[6..8]) &&
              r.value.second == Value(s[6..8]) && ParseFraction(s[8..]) == Some(r.value.nano)
    ensures (|s| >= 5 && s[2] == ':' && AllDigits(s[0..2]) && AllDigits(s[3..5]) &&
             Value(s[0..2]) < 24 && Value(s[3..5]) < 60 &&
             (|s| == 5 ||
              (|s| >= 8 && s[5] == ':' && AllDigits(s[6..8]) && Value(s[6..8]) < 60 &&
               ParseFraction(s[8..]).Some?))) ==> r.Some?
  {
    if |s| < 5 || s[2] != ':' then None
    else
      var hour, minute := Field(s, 0, 2), Field(s, 3, 2);
      if hour.None? || minute.None? || hour.value > 23 || minute.value > 59 then None
      else if |s| == 5 then Some(LocalTime(hour.value, minute.value, 0, 0))
      else if |s| < 8 || s[5] != ':' then None
      else
        var second := Field(s, 6, 2);
        if second.None? || second.value > 59 then None
        else
          var nano := ParseFraction(s[8..]);
          if nano.None? then None
          else Some(LocalTime(hour.value, minute.value, second.value, nano.value))
  }

  /** ISO_LOCAL_DATE_TIME's parse: the date, a 'T' (any case), the time,
      and nothing after it. */
  function Parse(s: string): (r: Option<LocalDateTime>)
    ensures r.Some? ==> ValidDateTime(r.value)
    ensures r.Some? <==>
              |s| >= 11 && (s[10] == 'T' || s[10] == 't') &&
              ParseDate(s[..10]).Some? && ParseTime(s[11..]).Some?
    ensures r.Some? ==> r.value == LocalDateTime(ParseDate(s[..10]).value, ParseTime(s[11..]).value)
  {
    if |s| < 11 || (s[10] != 'T' && s[10] != 't') then None
    else
      var date, time := ParseDate(s[..10]), ParseTime(s[11..]);
      if date.None? || time.None? then None
      else Some(LocalDateTime(date.value, time.value))
  }

  // ------------------------------------------------------------ round trip

  lemma ParseFormatDate(d: LocalDate)
    requires ValidDate(d)
    ensures ParseDate(FormatDate(d)) == Some(d)
  {
    var s := FormatDate(d);
    var y, m, dd := Padded(d.year, 4), Padded(d.month, 2), Padded(d.day, 2);
    assert s[0..4] == y && s[5..7] == m && s[8..10] == dd;
    assert Pow10(4) == 10000 && Pow10(2) == 100;
    PaddedValue(d.year, 4);
    PaddedValue(d.month, 2);
    PaddedValue(d.day, 2);
  }

  lemma ParseFormatFraction(nano: nat)
    requires nano < 1_000_000_000
    ensures ParseFraction(Fraction(nano)) == Some(nano)
  {
    if nano != 0 {
      var p := Padded(nano, 9);
      var t := TrimZeros(p);
      assert Pow10(9) == 1_000_000_000;
      PaddedValue(nano, 9);
      TrimZerosValue(p);
      assert Fraction(nano)[1..] == t;
    }
  }

  lemma ParseFormatTime(t: LocalTime)
    requires ValidTime(t)
    ensures ParseTime(FormatTime(t)) == Some(t)
  {
    var s := FormatTime(t);
    var h, m, sec := Padded(t.hour, 2), Padded(t.minute, 2), Padded(t.second, 2);
    var frac := Fraction(t.nano);
    assert s[0..2] == h && s[3..5] == m;
    var rest := s[5..];
    assert rest == ":" + sec + frac;
    assert rest[1..3] == sec && rest[3..] == frac;
    assert Pow10(2) == 100;
    PaddedValue(t.hour, 2);
    PaddedValue(t.minute, 2);
    PaddedValue(t.second, 2);
    ParseFormatFraction(t.nano);
  }

  /** Parsing what the formatter writes gives back the same date-time. */
  lemma ParseFormat(dt: LocalDateTime)
    requires ValidDateTime(dt)
    ensures Parse(Format(dt)) == Some(dt)
  {
    var s := Format(dt);
    assert s[..10] == FormatDate(dt.date) && s[11..] == FormatTime(dt.time);
    ParseFormatDate(dt.date);
    ParseFormatTime(dt.time);
  }

  /** Two date-times that format to the same text are equal. */
  lemma FormatInjective(a: LocalDateTime, b: LocalDateTime)
    requires ValidDateTime(a) && ValidDateTime(b) && Format(a) == Format(b)
    ensures a == b
  {
    ParseFormat(a);
    ParseFormat(b);
  }

  // ----------------------------------------------- timestamp exactness

  /** An accepted date text is the formatter's text for the date read. */
  lemma FormatParseDate(s: string)
    requires ParseDate(s).Some?
    ensures FormatDate(ParseDate(s).value) == s
  {
    ValuePadded(s[0..4]);
    ValuePadded(s[5..7]);
    ValuePadded(s[8..10]);
    assert s == s[0..4] + "-" + s[5..7] + "-" + s[8..10];
  }

  /** An accepted fraction with at least one digit and no trailing '0' is
      the formatter's text for the nanoseconds read. */
  lemma FormatParseFraction(f: string)
    requires ParseFraction(f).Some?
    requires f == [] || (|f| >= 2 && f[|f| - 1] != '0')
    ensures Fraction(ParseFraction(f).value) == f
  {
    if f != [] {
      var ds := f[1..];
      var k := |ds|;
      var v := Value(ds);
      var n := ParseFraction(f).value;
      assert n == v * Pow10(9 - k);
      NonZeroValue(ds);
      assert n != 0;
      PaddedShift(v, k, 9 - k);
      ValuePadded(ds);
      assert Padded(n, 9) == ds + Zeros(9 - k);
      TrimZerosPadding(ds, 9 - k);
      assert f == "." + ds;
    }
  }

  /** An accepted time text with its seconds, and with a fraction that has
      digits and no trailing '0' if it has one at all, is the formatter's
      text for the time read. */
  lemma FormatParseTime(t: string)
    requires ParseTime(t).Some?
    requires |t| == 8 || (|t| >= 10 && t[|t| - 1] != '0')
    ensures FormatTime(ParseTime(t).value) == t
  {
    var lt := ParseTime(t).value;
    ValuePadded(t[0..2]);
    ValuePadded(t[3..5]);
    ValuePadded(t[6..8]);
    var f := t[8..];
    assert f == [] || f[|f| - 1] == t[|t| - 1];
    FormatParseFraction(f);
    assert t == t[0..2] + ":" + t[3..5] + ":" + t[6..8] + f;
  }

  /** The parse-then-format direction: every canonical text the parser
      accepts is exactly what the formatter writes for the date-time read. */
  lemma FormatParse(s: string)
    requires Parse(s).Some? && CanonicalText(s)
    ensures Format(Parse(s).value) == s
  {
    var t := s[11..];
    assert |t| == |s| - 11;
    assert |t| > 8 ==> t[|t| - 1] == s[|s| - 1];
    FormatParseDate(s[..10]);
    FormatParseTime(t);
    assert s == s[..10] + "T" + t;
  }

  /** Padding one digit wider appends the last digit (used by the examples). */
  lemma PaddedStep(n: nat, w: nat, s: string)
    requires w > 0 && Padded(n / 10, w - 1) == s
    ensures Padded(n, w) == s + [DigitChar(n % 10)]
  {
  }

  /** Trimming drops a trailing '0' and goes on (used by the examples). */
  lemma TrimStep(s: string, t: string)
    requires s != [] && s[|s| - 1] == '0' && TrimZeros(s[..|s| - 1]) == t
    ensures TrimZeros(s) == t
  {
  }

  /** 123 milliseconds: the fraction keeps its significant digits only. */
  lemma FractionExample()
    ensures Fraction(123_000_000) == ".123"
  {
    PaddedStep(0, 1, []);
    PaddedStep(1, 2, "0");
    PaddedStep(12, 2, "1");
    PaddedStep(123, 3, "12");
    PaddedStep(1230, 4, "123");
    PaddedStep(12300, 5, "1230");
    PaddedStep(123000, 6, "12300");
    PaddedStep(1230000, 7, "123000");
    PaddedStep(12300000, 8, "1230000");
    PaddedStep(123000000, 9, "12300000");
    assert TrimZeros("123") == "123";
    assert "1230"[..3] == "123";
    TrimStep("1230", "123");
    assert "12300"[..4] == "1230";
    TrimStep("12300", "123");
    assert "123000"[..5] == "12300";
    TrimStep("123000", "123");
    assert "1230000"[..6] == "123000";
    TrimStep("1230000", "123");
    assert "12300000"[..7] == "1230000";
    TrimStep("12300000", "123");
    assert "123000000"[..8] == "12300000";
    TrimStep("123000000", "123");
  }

  /** 15 January 2025 is written 2025-01-15. */
  lemma FormatDateExample()
    ensures FormatDate(LocalDate(2025, 1, 15)) == "2025-01-15"
  {
    PaddedStep(2, 1, []);
    PaddedStep(20, 2, "2");
    PaddedStep(202, 3, "20");
    PaddedStep(2025, 4, "202");
    PaddedStep(0, 1, []);
    PaddedStep(1, 2, "0");
    PaddedStep(1, 1, []);
    PaddedStep(15, 2, "1");
  }

  lemma ClockDigitsExample()
    ensures Padded(14, 2) + ":" + Padded(32, 2) + ":" + Padded(7, 2) == "14:32:07"
  {
    PaddedStep(0, 1, []);
    PaddedStep(1, 1, []);
    PaddedStep(14, 2, "1");
    PaddedStep(3, 1, []);
    PaddedStep(32, 2, "3");
    PaddedStep(7, 2, "0");
  }

  /** 14:32:07.123 is written with its seconds and the three significant
      digits of its fraction. */
  lemma FormatTimeExample(t: LocalTime)
    requires t == LocalTime(14, 32, 7, 123_000_000)
    ensures FormatTime(t) == "14:32:07.123"
  {
    ClockDigitsExample();
    FractionExample();
    assert FormatTime(t) == Padded(t.hour, 2) + ":" + Padded(t.minute, 2) + ":" + Padded(t.second, 2) + Fraction(t.nano);
  }

  /** The text 14:32:07.123 reads back as the time it was written from. */
  lemma TimeExample()
    ensures ParseTime("14:32:07.123") == Some(LocalTime(14, 32, 7, 123_000_000))
  {
    FormatTimeExample(LocalTime(14, 32, 7, 123_000_000));
    ParseFormatTime(LocalTime(14, 32, 7, 123_000_000));
  }
}
