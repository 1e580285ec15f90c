/**
 * `ValidationUtils`: the form-input checks. Each validator first rejects blank
 * input with "<field> is required", then parses; a thrown
 * IllegalArgumentException is an `Err(IllegalArgument(message))`.
 */
module Validation {
  import opened Errors
  import opened Text
  import opened Calendar

  function IsRequired(fieldName: string): Failure {
    IllegalArgument(fieldName + " is required")
  }

  /** `validateDate`: a "yyyy-M-d" date. */
  function ValidateDate(date: string, fieldName: string := "Date"): (r: Result<LocalDate>)
    ensures IsBlank(date) ==> r == Err(IsRequired(fieldName))
    ensures !IsBlank(date) && r.Err? ==> r.failure == IllegalArgument(fieldName + " must be in YYYY-MM-DD format")
    ensures r.Ok? ==> r.value.Valid() && DateParts(date).Some? && 1 <= r.value.year <= 9999
  {
    if IsBlank(date) then Err(IsRequired(fieldName))
    else
      match ParseDate(date)
      case Some(d) => Ok(d)
      case None => Err(IllegalArgument(fieldName + " must be in YYYY-MM-DD format"))
  }

  /** `validateTime`: an "H:mm" time of day. */
  function ValidateTime(time: string, fieldName: string := "Time"): (r: Result<LocalTime>)
    ensures IsBlank(time) ==> r == Err(IsRequired(fieldName))
    ensures !IsBlank(time) && r.Err? ==> r.failure == IllegalArgument(fieldName + " must be in HH:MM format")
    ensures r.Ok? ==> r.value.Valid() && TimeShaped(time)
  {
    if IsBlank(time) then Err(IsRequired(fieldName))
    else
      match ParseTime(time)
      case Some(t) => Ok(t)
      case None => Err(IllegalArgument(fieldName + " must be in HH:MM format"))
  }

  /**
   * `validateTimeRange`: both times valid, the start checked first, and the
   * end strictly later in the day than the start.
   */
  function ValidateTimeRange(startTime: string, endTime: string): (r: Result<()>)
    ensures ValidateTime(startTime, "Start time").Err? ==> r == Err(ValidateTime(startTime, "Start time").failure)
    ensures (ValidateTime(startTime, "Start time").Ok? && ValidateTime(endTime, "End time").Err?)
              ==> r == Err(ValidateTime(endTime, "End time").failure)
    ensures r.Ok? <==>
              && ValidateTime(startTime, "Start time").Ok?
              && ValidateTime(endTime, "End time").Ok?
              && ValidateTime(startTime, "Start time").value.MinuteOfDay()
                 < ValidateTime(endTime, "End time").value.MinuteOfDay()
    ensures (ValidateTime(startTime, "Start time").Ok? && ValidateTime(endTime, "End time").Ok? && r.Err?)
              ==> r == Err(IllegalArgument("End time must be after start time"))
  {
    var start :- ValidateTime(startTime, "Start time");
    var end :- ValidateTime(endTime, "End time");
    if !end.IsAfter(start) then Err(IllegalArgument("End time must be after start time"))
    else Ok(())
  }

  /** `validatePositiveInt`: `null`, blank, non-number and non-positive input are each refused. */
  function ValidatePositiveInt(value: Option<string>, fieldName: string := "Value"): (r: Result<int>)
    ensures value.None? || IsBlank(value.value) ==> r == Err(IsRequired(fieldName))
    ensures (value.Some? && !IsBlank(value.value) && ParseInt(value.value).None?)
              ==> r == Err(IllegalArgument(fieldName + " must be a number"))
    ensures (value.Some? && ParseInt(value.value).Some? && ParseInt(value.value).value <= 0)
              ==> r == Err(IllegalArgument(fieldName + " must be positive"))
    ensures r.Ok? ==> value.Some? && ParseInt(value.value) == Some(r.value) && 0 < r.value <= MaxInt
  {
    if value.None? || IsBlank(value.value) then Err(IsRequired(fieldName))
    else
      match ParseInt(value.value)
      case None => Err(IllegalArgument(fieldName + " must be a number"))
      case Some(n) => if n <= 0 then Err(IllegalArgument(fieldName + " must be positive")) else Ok(n)
  }

  /** `validateEmail`: non-blank and containing both an '@' and a '.', anywhere. */
  function ValidateEmail(email: string, fieldName: string := "Email"): (r: Result<string>)
    ensures r.Ok? <==> !IsBlank(email) && '@' in email && '.' in email
    ensures r.Ok? ==> r.value == email
    ensures IsBlank(email) ==> r == Err(IsRequired(fieldName))
    ensures !IsBlank(email) && r.Err? ==> r == Err(IllegalArgument(fieldName + " is not valid"))
  {
    if IsBlank(email) then Err(IsRequired(fieldName))
    else if '@' !in email || '.' !in email then Err(IllegalArgument(fieldName + " is not valid"))
    else Ok(email)
  }

  /** `validateRequired`: the trimmed text of a non-null, non-blank input. */
  function ValidateRequired(value: Option<string>, fieldName: string := "Field"): (r: Result<string>)
    ensures r.Ok? <==> value.Some? && !IsBlank(value.value)
    ensures r.Err? ==> r.failure == IsRequired(fieldName)
    ensures r.Ok? ==> r.value != [] && !IsWhitespace(r.value[0]) && !IsWhitespace(r.value[|r.value| - 1])
    ensures r.Ok? ==>
              var s, a := value.value, BlankRunEnd(value.value, 0);
              && a + |r.value| <= |s|
              && s[a..a + |r.value|] == r.value
              && BlankBetween(s, 0, a)
              && BlankBetween(s, a + |r.value|, |s|)
  {
    if value.None? || IsBlank(value.value) then Err(IsRequired(fieldName))
    else Ok(Trim(value.value))
  }

  /** Text already trimmed passes `validateRequired` unchanged. */
  lemma ValidateRequiredIdempotent(value: Option<string>, fieldName: string)
    requires ValidateRequired(value, fieldName).Ok?
    ensures ValidateRequired(Some(ValidateRequired(value, fieldName).value), fieldName)
         == ValidateRequired(value, fieldName)
  {
    var t := ValidateRequired(value, fieldName).value;
    assert BlankRunEnd(t, 0) == 0;
    assert BlankRunStart(t, 0, |t|) == |t|;
    assert t[0..|t|] == t;
  }

  /** Whatever the validator, blank input is answered with "<field> is required". */
  lemma BlankIsRequired(s: string, fieldName: string)
    requires IsBlank(s)
    ensures ValidateDate(s, fieldName) == Err(IsRequired(fieldName))
    ensures ValidateTime(s, fieldName) == Err(IsRequired(fieldName))
    ensures ValidatePositiveInt(Some(s), fieldName) == Err(IsRequired(fieldName))
    ensures ValidatePositiveInt(None, fieldName) == Err(IsRequired(fieldName))
    ensures ValidateEmail(s, fieldName) == Err(IsRequired(fieldName))
    ensures ValidateRequired(Some(s), fieldName) == Err(IsRequired(fieldName))
    ensures ValidateRequired(None, fieldName) == Err(IsRequired(fieldName))
  {
  }

  /** Every `Int` above zero, written by `toString`, is accepted as itself. */
  lemma ValidatePositiveIntRoundTrip(n: int, fieldName: string)
    requires 0 < n <= MaxInt
    ensures ValidatePositiveInt(Some(IntToString(n)), fieldName) == Ok(n)
  {
    ParseIntToString(n);
    assert !IsWhitespace(IntToString(n)[0]);
  }

  /** Every `Int` at or below zero, written by `toString`, is refused as not positive. */
  lemma ValidatePositiveIntRejectsNonPositive(n: int, fieldName: string)
    requires MinInt <= n <= 0
    ensures ValidatePositiveInt(Some(IntToString(n)), fieldName)
         == Err(IllegalArgument(fieldName + " must be positive"))
  {
    ParseIntToString(n);
    assert !IsWhitespace(IntToString(n)[|IntToString(n)| - 1]);
  }

  /**
   * A numeral beyond `Int.MAX_VALUE` is not a number to `toIntOrNull`, so it
   * is refused as not a number rather than read as some wrapped value.
   */
  lemma ValidatePositiveIntRejectsOverflow(n: nat, fieldName: string)
    requires n > MaxInt
    ensures ValidatePositiveInt(Some(NatToString(n)), fieldName)
         == Err(IllegalArgument(fieldName + " must be a number"))
  {
    ParseIntRefusesOverflow(n);
    DigitNotBlank(NatToString(n), 0);
  }

  /** An `HH:MM` time is never after itself, so an empty range is always refused. */
  lemma EmptyRangeRejected(t: string)
    ensures ValidateTimeRange(t, t).Err?
  {
  }

  // ---------------------------------------------------------------------------
  // formatTime / formatDate

  /** `padStart(2, '0')` of a value below 100. */
  function TwoDigits(n: nat): (r: string)
    requires n < 100
    ensures |r| == 2 && AllDigits(r) && DigitsValue(r) == n
  {
    var a, b := DigitChar(n / 10), DigitChar(n % 10);
    PadTwoDigits(n);
    TwoDigitValue(a, b);
    assert DigitValue(a) * 10 + DigitValue(b) == n;
    PadStart(NatToString(n), 2, '0')
  }

  lemma TwoDigitValue(a: char, b: char)
    requires IsDigit(a) && IsDigit(b)
    ensures AllDigits([a, b]) && DigitsValue([a, b]) == DigitValue(a) * 10 + DigitValue(b)
  {
    assert [a, b][..1] == [a];
    assert [a][..0] == [];
    assert DigitsValue([a]) == DigitValue(a);
    assert DigitsValue([a, b]) == DigitsValue([a]) * 10 + DigitValue(b);
  }

  /** The two digits of a value below 100, as a text. */
  predicate TwoDigitText(s: string) {
    |s| == 2 && IsDigit(s[0]) && IsDigit(s[1])
  }

  /** The `HH:MM` text `formatTime` prints for a time of day. */
  function TimeText(t: LocalTime): (r: string)
    requires t.Valid()
    ensures |r| == 5 && r[2] == ':' && TwoDigitText(r[..2]) && TwoDigitText(r[3..])
    ensures AllDigits(r[..2]) && DigitsValue(r[..2]) == t.hour
    ensures AllDigits(r[3..]) && DigitsValue(r[3..]) == t.minute
  {
    var hh, mm := TwoDigits(t.hour), TwoDigits(t.minute);
    ColonHalves(hh, mm);
    [hh[0], hh[1], ':', mm[0], mm[1]]
  }

  lemma ColonHalves(a: string, b: string)
    requires |a| == 2 && |b| == 2
    ensures [a[0], a[1], ':', b[0], b[1]][..2] == a && [a[0], a[1], ':', b[0], b[1]][3..] == b
  {
  }

  /** The "HH:mm" text of a time parses back to that time under "H:mm". */
  lemma TimeTextParses(t: LocalTime)
    requires t.Valid()
    ensures ParseTime(TimeText(t)) == Some(t)
  {
    TimeTextPieces(t);
    ParseTimeOfParts(TwoDigits(t.hour), TwoDigits(t.minute));
  }

  lemma TimeTextPieces(t: LocalTime)
    requires t.Valid()
    ensures TimeText(t) == TwoDigits(t.hour) + ":" + TwoDigits(t.minute)
  {
    ColonJoin(TwoDigits(t.hour), TwoDigits(t.minute));
  }

  lemma ColonJoin(a: string, b: string)
    requires |a| == 2 && |b| == 2
    ensures [a[0], a[1], ':', b[0], b[1]] == a + ":" + b
  {
  }

  /** `formatTime` of a text that validates prints the time it names. */
  lemma FormatTimeOf(time: string, t: LocalTime)
    requires ValidateTime(time) == Ok(t)
    ensures FormatTime(time) == Ok(TimeText(t))
  {
  }

  /**
   * `formatTime`: validates with the default field name and prints the time
   * zero-padded; the printed text denotes the same time as the input.
   */
  function FormatTime(time: string): (r: Result<string>)
    ensures r.Err? <==> ValidateTime(time).Err?
    ensures r.Err? ==> r.failure == ValidateTime(time).failure
    ensures r.Ok? ==> |r.value| == 5 && r.value[2] == ':' && TwoDigitText(r.value[..2]) && TwoDigitText(r.value[3..])
    ensures r.Ok? ==> AllDigits(r.value[..2]) && DigitsValue(r.value[..2]) == ValidateTime(time).value.hour
    ensures r.Ok? ==> AllDigits(r.value[3..]) && DigitsValue(r.value[3..]) == ValidateTime(time).value.minute
    ensures r.Ok? ==> ValidateTime(r.value) == ValidateTime(time)
  {
    match ValidateTime(time)
    case Err(f) => Err(f)
    case Ok(parsed) =>
      TimeTextValidates(parsed, "Time");
      Ok(TimeText(parsed))
  }

  lemma TimeTextValidates(t: LocalTime, fieldName: string)
    requires t.Valid()
    ensures ValidateTime(TimeText(t), fieldName) == Ok(t)
  {
    var text := TimeText(t);
    assert text[0] == text[..2][0];
    DigitNotBlank(text, 0);
    TimeTextParses(t);
  }

  /** Formatting a formatted time changes nothing. */
  lemma FormatTimeIdempotent(time: string)
    requires FormatTime(time).Ok?
    ensures FormatTime(FormatTime(time).value) == FormatTime(time)
  {
  }

  /** Year, month and day texts joined by dashes. */
  function DashJoin(y: string, m: string, d: string): (r: string)
    ensures |r| == |y| + |m| + |d| + 2
    ensures r[|y|] == '-' && r[|y| + 1 + |m|] == '-'
    ensures |y| > 0 ==> r[0] == y[0]
    ensures r[..|y|] == y && r[|y| + 1..|y| + 1 + |m|] == m && r[|y| + 2 + |m|..] == d
  {
    var ym := y + "-" + m;
    assert ym[|y|] == '-' && (|y| > 0 ==> ym[0] == y[0]);
    assert ym[..|y|] == y && ym[|y| + 1..] == m;
    var r := ym + "-" + d;
    assert r[..|ym|] == ym;
    assert r[|y| + 1..|y| + 1 + |m|] == ym[|y| + 1..];
    r
  }

  /** The `YYYY-MM-DD` text of a date: the year padded to four places. */
  function DateText(d: LocalDate): (r: string)
    requires d.Valid() && 1 <= d.year <= 9999
    ensures |r| == 10 && r[4] == '-' && r[7] == '-' && IsDigit(r[0])
    ensures AllDigits(r[..4]) && DigitsValue(r[..4]) == d.year
    ensures AllDigits(r[5..7]) && DigitsValue(r[5..7]) == d.month
    ensures AllDigits(r[8..]) && DigitsValue(r[8..]) == d.day
  {
    assert d.month < 100 && d.day <= 31;
    DashJoin(FourDigits(d.year), TwoDigits(d.month), TwoDigits(d.day))
  }

  /** The "yyyy-MM-dd" text of a date parses back to that date. */
  lemma DateTextParses(d: LocalDate)
    requires d.Valid() && 1 <= d.year <= 9999
    ensures ParseDate(DateText(d)) == Some(d)
  {
    assert d.month < 100 && d.day <= 31;
    var ys, ms, ds := FourDigits(d.year), TwoDigits(d.month), TwoDigits(d.day);
    assert DateText(d) == DashJoin(ys, ms, ds);
    ParseDateOfParts(ys, ms, ds);
    ResolveValidDate(d);
  }

  /** `padStart(4, '0')` of a value below 10000. */
  function FourDigits(n: nat): (r: string)
    requires n < 10000
    ensures |r| == 4 && AllDigits(r) && DigitsValue(r) == n
  {
    var s := NatToString(n);
    NatToStringShort(n);
    var r := PadStart(s, 4, '0');
    assert r == Repeat('0', 4 - |s|) + s;
    DigitsValueZeroPrefix(Repeat('0', 4 - |s|), s);
    r
  }

  lemma NatToStringShort(n: nat)
    requires n < 10000
    ensures |NatToString(n)| <= 4
  {
    if n >= 10 {
      NatToStringShort(n / 10);
    }
  }

  /** Leading zeros do not change the value of a digit string. */
  lemma {:induction false} DigitsValueZeroPrefix(z: string, s: string)
    requires forall i | 0 <= i < |z| :: z[i] == '0'
    requires AllDigits(s)
    ensures AllDigits(z + s) && DigitsValue(z + s) == DigitsValue(s)
    decreases |z| + |s|
  {
    if s == [] {
      assert z + s == z;
      if z != [] {
        assert z[..|z| - 1] + [] == z[..|z| - 1];
        DigitsValueZeroPrefix(z[..|z| - 1], []);
      }
    } else {
      assert (z + s)[..|z + s| - 1] == z + s[..|s| - 1];
      DigitsValueZeroPrefix(z, s[..|s| - 1]);
    }
  }

  /**
   * `formatDate`, with the year padded to four places so that the result is
   * the `YYYY-MM-DD` text its comment promises (see `FormatDateAsWritten`).
   */
  function FormatDate(date: string): (r: Result<string>)
    ensures r.Err? <==> ValidateDate(date).Err?
    ensures r.Err? ==> r.failure == ValidateDate(date).failure
    ensures r.Ok? ==> |r.value| == 10 && r.value[4] == '-' && r.value[7] == '-'
    ensures r.Ok? ==> AllDigits(r.value[..4]) && DigitsValue(r.value[..4]) == ValidateDate(date).value.year
    ensures r.Ok? ==> AllDigits(r.value[5..7]) && DigitsValue(r.value[5..7]) == ValidateDate(date).value.month
    ensures r.Ok? ==> AllDigits(r.value[8..]) && DigitsValue(r.value[8..]) == ValidateDate(date).value.day
    ensures r.Ok? ==> ValidateDate(r.value) == ValidateDate(date)
  {
    match ValidateDate(date)
    case Err(f) => Err(f)
    case Ok(parsed) =>
      DateTextValidates(parsed, "Date");
      Ok(DateText(parsed))
  }

  lemma DateTextValidates(d: LocalDate, fieldName: string)
    requires d.Valid() && 1 <= d.year <= 9999
    ensures ValidateDate(DateText(d), fieldName) == Ok(d)
  {
    DateTextParses(d);
    DigitNotBlank(DateText(d), 0);
  }

  /**
   * The date `validateDate` yields for four year digits, a month numeral and
   * a day numeral: what the resolver makes of their values, or the format
   * error when it refuses them.
   */
  lemma ValidateDateOfParts(ys: string, ms: string, ds: string, fieldName: string)
    requires |ys| == 4 && AllDigits(ys)
    requires Numeral(ms) && Numeral(ds)
    ensures ValidateDate(ys + "-" + ms + "-" + ds, fieldName)
         == match ResolveDate(DigitsValue(ys), DigitsValue(ms), DigitsValue(ds))
            case Some(d) => Ok(d)
            case None => Err(IllegalArgument(fieldName + " must be in YYYY-MM-DD format"))
  {
    var s := ys + "-" + ms + "-" + ds;
    assert s[0] == ys[0];
    DigitNotBlank(s, 0);
    ParseDateOfParts(ys, ms, ds);
  }

  /** Formatting a formatted date changes nothing. */
  lemma FormatDateIdempotent(date: string)
    requires FormatDate(date).Ok?
    ensures FormatDate(FormatDate(date).value) == FormatDate(date)
  {
  }

  /** `formatDate` as the source writes it: the year printed by `toString`, unpadded. */
  function FormatDateAsWritten(date: string): (r: Result<string>)
    ensures r.Err? <==> ValidateDate(date).Err?
    ensures r.Ok? && ValidateDate(date).value.year >= 1000 ==> r == FormatDate(date)
    ensures r.Ok? && ValidateDate(date).value.year < 1000 ==> ValidateDate(r.value).Err?
    ensures r.Ok? ==>
              && FormatDate(date).Ok?
              && r.value == NatToString(ValidateDate(date).value.year) + FormatDate(date).value[4..]
  {
    match ValidateDate(date)
    case Err(f) => Err(f)
    case Ok(parsed) => Ok(UnpaddedDateText(parsed))
  }

  /** `"${date.year}-" + month + "-" + day`: the date text with the year as `toString` prints it. */
  function UnpaddedDateText(d: LocalDate): (r: string)
    requires d.Valid() && 1 <= d.year <= 9999
    ensures r == NatToString(d.year) + DateText(d)[4..]
    ensures d.year >= 1000 ==> r == DateText(d)
    ensures d.year < 1000 ==> ValidateDate(r).Err?
  {
    UnpaddedYearText(d);
    DashJoin(NatToString(d.year), TwoDigits(d.month), TwoDigits(d.day))
  }

  /**
   * The text with an unpadded year is that year followed by the padded
   * text's "-MM-DD": the padded text itself from year 1000 on, and a text
   * `validateDate` refuses below it.
   */
  lemma UnpaddedYearText(d: LocalDate)
    requires d.Valid() && 1 <= d.year <= 9999
    ensures DashJoin(NatToString(d.year), TwoDigits(d.month), TwoDigits(d.day))
         == NatToString(d.year) + DateText(d)[4..]
    ensures d.year >= 1000 ==> DashJoin(NatToString(d.year), TwoDigits(d.month), TwoDigits(d.day)) == DateText(d)
    ensures d.year < 1000 ==> ValidateDate(DashJoin(NatToString(d.year), TwoDigits(d.month), TwoDigits(d.day))).Err?
  {
    var y, m, dd := FourDigits(d.year), TwoDigits(d.month), TwoDigits(d.day);
    DashJoinTail(y, m, dd);
    DashJoinTail(NatToString(d.year), m, dd);
    if d.year >= 1000 {
      NatToStringWidth(d.year, 4);
      assert y == NatToString(d.year);
    } else {
      NatToStringBelowThousand(d.year);
      ShortYearTextRefused(NatToString(d.year), m, dd);
    }
  }

  /** A dash-joined date text is its year followed by "-", the month, "-" and the day. */
  lemma DashJoinTail(y: string, m: string, d: string)
    ensures DashJoin(y, m, d) == y + ("-" + m + "-" + d)
    ensures DashJoin(y, m, d)[|y|..] == "-" + m + "-" + d
  {
  }

  lemma NatToStringBelowThousand(n: nat)
    requires n < 1000
    ensures |NatToString(n)| <= 3
  {
    if n >= 10 {
      NatToStringBelowThousand(n / 10);
    }
  }

  /** A date text whose year has fewer than four digits is refused. */
  lemma ShortYearTextRefused(y: string, m: string, d: string)
    requires AllDigits(y) && 1 <= |y| <= 3
    ensures ValidateDate(DashJoin(y, m, d)).Err?
  {
    var text := DashJoin(y, m, d);
    assert IsDigit(text[0]);
    DigitNotBlank(text, 0);
    if |text| >= 8 {
      assert text[..4][|y|] == '-';
    }
  }

  /**
   * A year below 1000 is printed with fewer than four digits, and the text
   * `formatDate` produces is then refused by `validateDate`.
   */
  lemma FormatDateAsWrittenShortYear()
    ensures FormatDateAsWritten("0999-3-5") == Ok("999-03-05")
    ensures ValidateDate("999-03-05").Err?
  {
    ShortYearParses();
    ShortYearPrints();
    ShortYearRefused();
  }

  lemma ShortYearParses()
    ensures ValidateDate("0999-3-5") == Ok(LocalDate(999, 3, 5))
  {
    ShortYearParseDate();
    DigitNotBlank("0999-3-5", 0);
  }

  lemma ShortYearParseDate()
    ensures ParseDate("0999-3-5") == Some(LocalDate(999, 3, 5))
  {
    assert "0999-3-5" == "0999" + "-" + "3" + "-" + "5";
    ParseDateOfParts("0999", "3", "5");
    ShortYearDigits();
    assert ResolveDate(999, 3, 5) == Some(LocalDate(999, 3, 5));
  }

  lemma ShortYearDigits()
    ensures AllDigits("0999") && DigitsValue("0999") == 999
    ensures AllDigits("3") && DigitsValue("3") == 3
    ensures AllDigits("5") && DigitsValue("5") == 5
  {
    assert "0999"[..3] == "099" && "099"[..2] == "09" && "09"[..1] == "0" && "0"[..0] == "";
    assert "3"[..0] == "" && "5"[..0] == "";
  }

  lemma ShortYearPrints()
    ensures DashJoin(NatToString(999), TwoDigits(3), TwoDigits(5)) == "999-03-05"
  {
    assert NatToString(9) == "9";
    assert NatToString(99) == "99";
    assert NatToString(999) == "999";
    assert TwoDigits(3) == "03";
    assert TwoDigits(5) == "05";
  }

  lemma ShortYearRefused()
    ensures ValidateDate("999-03-05").Err?
  {
    var output := "999-03-05";
    DigitNotBlank(output, 0);
    assert !AllDigits(output[..4]) by { assert output[..4][3] == '-'; }
    assert DateParts(output).None?;
  }
}
