/**
 * The two `java.time` parses the validators rely on:
 * `LocalTime.parse(text, DateTimeFormatter.ofPattern("H:mm"))` and
 * `LocalDate.parse(text, DateTimeFormatter.ofPattern("yyyy-M-d"))`, both with
 * the formatter's default SMART resolver. A parse that throws is `None`.
 */
module Calendar {
  import opened Errors
  import opened Text

  /** A `LocalTime` at minute resolution (the patterns carry no seconds). */
  datatype LocalTime = LocalTime(hour: int, minute: int) {

    predicate Valid() {
      0 <= hour <= 23 && 0 <= minute <= 59
    }

    /** Minutes since midnight, the quantity `isAfter` compares. */
    function MinuteOfDay(): (m: int)
      ensures Valid() ==> 0 <= m <= 1439
    {
      hour * 60 + minute
    }

    predicate IsAfter(other: LocalTime) {
      MinuteOfDay() > other.MinuteOfDay()
    }
  }

  /** A proleptic-Gregorian `LocalDate`. */
  datatype LocalDate = LocalDate(year: int, month: int, day: int) {

    predicate Valid() {
      1 <= month <= 12 && 1 <= day <= MonthLength(year, month)
    }
  }

  predicate IsLeapYear(y: int) {
    y % 4 == 0 && (y % 100 != 0 || y % 400 == 0)
  }

  function MonthLength(y: int, m: int): (n: int)
    requires 1 <= m <= 12
    ensures 28 <= n <= 31
  {
    if m == 2 then (if IsLeapYear(y) then 29 else 28)
    else if m == 4 || m == 6 || m == 9 || m == 11 then 30
    else 31
  }

  // ---------------------------------------------------------------------------
  // "H:mm"

  /**
   * SMART resolution of a parsed hour and minute: the minute must be 0..59,
   * the hour 0..23, and 24:00 is read as the midnight that ends the day.
   */
  function ResolveTime(h: nat, m: nat): (r: Option<LocalTime>)
    ensures r.Some? <==> m <= 59 && (h <= 23 || (h == 24 && m == 0))
    ensures r.Some? ==> r.value.Valid()
    ensures r.Some? && h <= 23 ==> r.value == LocalTime(h, m)
    ensures r.Some? && h == 24 ==> r.value == LocalTime(0, 0)
  {
    if m > 59 then None
    else if h == 24 && m == 0 then Some(LocalTime(0, 0))
    else if h <= 23 then Some(LocalTime(h, m))
    else None
  }

  /**
   * Text the "H:mm" printer-parser consumes completely: `H` takes one to
   * nineteen digits up to the colon, `mm` exactly two digits after it.
   */
  predicate TimeShaped(s: string) {
    && 4 <= |s| <= 22
    && s[|s| - 3] == ':'
    && AllDigits(s[..|s| - 3])
    && AllDigits(s[|s| - 2..])
  }

  function ParseTime(s: string): (r: Option<LocalTime>)
    ensures r.Some? ==> TimeShaped(s) && r.value.Valid()
  {
    if TimeShaped(s) then ResolveTime(DigitsValue(s[..|s| - 3]), DigitsValue(s[|s| - 2..]))
    else None
  }

  /**
   * The grammar read from the other side: an hour of 1..19 digits, a colon
   * and two minute digits parse to what the resolver makes of their values.
   */
  lemma ParseTimeOfParts(hs: string, ms: string)
    requires 1 <= |hs| <= 19 && AllDigits(hs)
    requires |ms| == 2 && AllDigits(ms)
    ensures ParseTime(hs + ":" + ms) == ResolveTime(DigitsValue(hs), DigitsValue(ms))
  {
    var s := hs + ":" + ms;
    assert s[..|s| - 3] == hs;
    assert s[|s| - 2..] == ms;
  }

  // ---------------------------------------------------------------------------
  // "yyyy-M-d"

  /**
   * SMART resolution of a parsed year-of-era, month and day: the year must be
   * at least 1, the month 1..12 and the day 1..31; a day past the end of the
   * month becomes the month's last day.
   */
  function ResolveDate(y: nat, m: nat, d: nat): (r: Option<LocalDate>)
    ensures r.Some? <==> 1 <= y && 1 <= m <= 12 && 1 <= d <= 31
    ensures r.Some? ==> r.value.Valid()
    ensures r.Some? ==> r.value.year == y && r.value.month == m
    ensures r.Some? && d <= MonthLength(y, m) ==> r.value.day == d
    ensures r.Some? && d > MonthLength(y, m) ==> r.value.day == MonthLength(y, m)
  {
    if y < 1 || m < 1 || m > 12 || d < 1 || d > 31 then None
    else if d > MonthLength(y, m) then Some(LocalDate(y, m, MonthLength(y, m)))
    else Some(LocalDate(y, m, d))
  }

  /** A valid date of a positive year resolves to itself. */
  lemma ResolveValidDate(d: LocalDate)
    requires d.Valid() && 1 <= d.year
    ensures ResolveDate(d.year, d.month, d.day) == Some(d)
  {
    assert d.day <= MonthLength(d.year, d.month);
  }

  /** A run of one to nineteen digits, what `M` and `d` accept. */
  predicate Numeral(s: string) {
    1 <= |s| <= 19 && AllDigits(s)
  }

  /**
   * The pieces "yyyy-M-d" consumes: four year digits (an unsigned year may not
   * exceed the pad width of four), a dash, the month, a dash, the day.
   */
  function DateParts(s: string): (r: Option<(string, string, string)>)
    ensures r.Some? ==> |r.value.0| == 4 && AllDigits(r.value.0)
    ensures r.Some? ==> Numeral(r.value.1) && Numeral(r.value.2)
    ensures r.Some? ==> s == r.value.0 + "-" + r.value.1 + "-" + r.value.2
  {
    if |s| < 8 || !AllDigits(s[..4]) || s[4] != '-' then None
    else
      var rest := s[5..];
      match IndexOfChar(rest, '-')
      case None => None
      case Some(i) =>
        var ms := rest[..i];
        var ds := rest[i + 1..];
        if Numeral(ms) && Numeral(ds) then
          assert rest == ms + "-" + ds;
          assert s == s[..4] + "-" + rest;
          Some((s[..4], ms, ds))
        else None
  }

  function ParseDate(s: string): (r: Option<LocalDate>)
    ensures r.Some? ==> DateParts(s).Some? && r.value.Valid()
    ensures r.Some? ==> 1 <= r.value.year <= 9999
  {
    match DateParts(s)
    case None => None
    case Some((ys, ms, ds)) =>
      DigitsValueBound(ys);
      assert Pow10(4) == 10000;
      ResolveDate(DigitsValue(ys), DigitsValue(ms), DigitsValue(ds))
  }

  /**
   * The grammar read from the other side: four year digits, a month and a day
   * numeral joined by dashes parse to what the resolver makes of their values.
   */
  lemma ParseDateOfParts(ys: string, ms: string, ds: string)
    requires |ys| == 4 && AllDigits(ys)
    requires Numeral(ms) && Numeral(ds)
    ensures ParseDate(ys + "-" + ms + "-" + ds)
         == ResolveDate(DigitsValue(ys), DigitsValue(ms), DigitsValue(ds))
  {
    var rest := ms + "-" + ds;
    var s := ys + "-" + rest;
    assert s == ys + "-" + ms + "-" + ds;
    assert s[..4] == ys && s[4] == '-' && s[5..] == rest;
    assert '-' !in ms;
    IndexOfCharAfter(ms, '-', ds);
    assert rest[..|ms|] == ms;
    assert rest[|ms| + 1..] == ds;
    assert DateParts(s) == Some((ys, ms, ds));
  }
}
