/**
 * `durationMinutes`, shared word for word by `Event` and `Session`: each time
 * is split on ':', its first two pieces read with `toInt()`, and the minutes
 * since midnight subtracted, all in 32-bit `Int` arithmetic.
 */
module Durations {
  import opened Errors
  import opened Text
  import opened Calendar
  import opened Validation

  /** `parts[index].toInt()`: the piece must exist, then read as an `Int`. */
  function PartToInt(parts: seq<string>, index: nat): (r: Result<int>)
    ensures index >= |parts| <==> r == Err(IndexOutOfBounds(index))
    ensures r.Ok? <==> index < |parts| && ParseInt(parts[index]).Some?
    ensures r.Ok? ==> ParseInt(parts[index]) == Some(r.value)
    ensures (index < |parts| && r.Err?) ==> r == Err(NumberFormat(parts[index]))
  {
    if index >= |parts| then Err(IndexOutOfBounds(index))
    else
      match ParseInt(parts[index])
      case None => Err(NumberFormat(parts[index]))
      case Some(n) => Ok(n)
  }

  /**
   * `parts[0].toInt() * 60 + parts[1].toInt()`, failing at the first piece
   * that throws, in evaluation order. The value is the 32-bit wrap of the
   * exact minutes: congruent to them modulo 2^32, and equal when they fit.
   */
  function PartsMinutes(parts: seq<string>): (r: Result<int>)
    ensures PartToInt(parts, 0).Err? ==> r == PartToInt(parts, 0)
    ensures PartToInt(parts, 0).Ok? && PartToInt(parts, 1).Err? ==> r == PartToInt(parts, 1)
    ensures r.Ok? <==> PartToInt(parts, 0).Ok? && PartToInt(parts, 1).Ok?
    ensures r.Ok? ==> InInt(r.value)
  {
    match PartToInt(parts, 0)
    case Err(f) => Err(f)
    case Ok(hours) =>
      match PartToInt(parts, 1)
      case Err(f) => Err(f)
      case Ok(minutes) => Ok(WrapInt(WrapInt(hours * 60) + minutes))
  }

  /**
   * The value `PartsMinutes` computes is the 32-bit wrap of the exact
   * `hours * 60 + minutes`: congruent to it modulo 2^32, and equal when it fits.
   */
  lemma PartsMinutesValue(parts: seq<string>)
    requires PartsMinutes(parts).Ok?
    ensures (PartsMinutes(parts).value - (PartToInt(parts, 0).value * 60 + PartToInt(parts, 1).value))
              % 0x1_0000_0000 == 0
    ensures InInt(PartToInt(parts, 0).value * 60 + PartToInt(parts, 1).value) ==>
              PartsMinutes(parts).value == PartToInt(parts, 0).value * 60 + PartToInt(parts, 1).value
  {
    WrapTwice(PartToInt(parts, 0).value * 60, PartToInt(parts, 1).value);
  }

  /**
   * Wrapping a product before adding a second `Int` and wrapping again gives
   * the wrap of the exact sum.
   */
  lemma WrapTwice(a: int, b: int)
    ensures (WrapInt(WrapInt(a) + b) - (a + b)) % 0x1_0000_0000 == 0
    ensures InInt(a + b) ==> WrapInt(WrapInt(a) + b) == a + b
  {
  }

  /**
   * The minutes of `time.split(":")`: the first piece's error, then the
   * second's, else the wrapped `hours * 60 + minutes` of the two pieces
   * (PartsMinutesValue).
   */
  function MinutesOf(time: string): (r: Result<int>)
    ensures PartToInt(Split(time, ':'), 0).Err? ==> r == PartToInt(Split(time, ':'), 0)
    ensures PartToInt(Split(time, ':'), 0).Ok? && PartToInt(Split(time, ':'), 1).Err? ==>
              r == PartToInt(Split(time, ':'), 1)
    ensures r.Ok? <==> PartToInt(Split(time, ':'), 0).Ok? && PartToInt(Split(time, ':'), 1).Ok?
    ensures r.Ok? ==> InInt(r.value)
  {
    PartsMinutes(Split(time, ':'))
  }

  /** `MinutesOf` reads the wrapped `hours * 60 + minutes` of the first two pieces. */
  lemma MinutesOfValue(time: string)
    requires MinutesOf(time).Ok?
    ensures (MinutesOf(time).value - (PartToInt(Split(time, ':'), 0).value * 60 + PartToInt(Split(time, ':'), 1).value))
              % 0x1_0000_0000 == 0
    ensures InInt(PartToInt(Split(time, ':'), 0).value * 60 + PartToInt(Split(time, ':'), 1).value) ==>
              MinutesOf(time).value == PartToInt(Split(time, ':'), 0).value * 60 + PartToInt(Split(time, ':'), 1).value
  {
    PartsMinutesValue(Split(time, ':'));
  }

  /** `endMinutes - startMinutes`, once both have been computed. */
  function Difference(startMinutes: Result<int>, endMinutes: Result<int>): (r: Result<int>)
    ensures startMinutes.Err? ==> r == startMinutes
    ensures startMinutes.Ok? && endMinutes.Err? ==> r == endMinutes
    ensures r.Ok? ==> InInt(r.value)
    ensures startMinutes.Ok? && endMinutes.Ok? ==>
              r.Ok? && (r.value - (endMinutes.value - startMinutes.value)) % 0x1_0000_0000 == 0
    ensures startMinutes.Ok? && endMinutes.Ok? && InInt(endMinutes.value - startMinutes.value) ==>
              r == Ok(endMinutes.value - startMinutes.value)
  {
    match startMinutes
    case Err(f) => Err(f)
    case Ok(s) =>
      match endMinutes
      case Err(f) => Err(f)
      case Ok(e) =>
        WrapIntCongruent(e - s);
        Ok(WrapInt(e - s))
  }

  /** `durationMinutes`: the start time is read first, then the end time. */
  function DurationMinutes(startTime: string, endTime: string): (r: Result<int>)
    ensures MinutesOf(startTime).Err? ==> r == MinutesOf(startTime)
    ensures MinutesOf(startTime).Ok? && MinutesOf(endTime).Err? ==> r == MinutesOf(endTime)
    ensures r.Ok? <==> MinutesOf(startTime).Ok? && MinutesOf(endTime).Ok?
    ensures r.Ok? ==> InInt(r.value)
  {
    Difference(MinutesOf(startTime), MinutesOf(endTime))
  }

  /**
   * A duration that is read is the 32-bit wrap of the end's minutes minus the
   * start's, whatever text `toInt` read them from.
   */
  lemma DurationMinutesValue(startTime: string, endTime: string)
    requires DurationMinutes(startTime, endTime).Ok?
    ensures (DurationMinutes(startTime, endTime).value - (MinutesOf(endTime).value - MinutesOf(startTime).value))
              % 0x1_0000_0000 == 0
    ensures InInt(MinutesOf(endTime).value - MinutesOf(startTime).value) ==>
              DurationMinutes(startTime, endTime).value == MinutesOf(endTime).value - MinutesOf(startTime).value
  {
  }

  /**
   * An "H:mm" text whose hour is below 24: one to nineteen hour digits, a
   * colon and two minute digits, with values in range. These are the texts
   * `validateTime` accepts, save the "24:00" java.time reads as midnight.
   */
  predicate ClockText(time: string) {
    && TimeShaped(time)
    && DigitsValue(time[..|time| - 3]) <= 23
    && DigitsValue(time[|time| - 2..]) <= 59
  }

  /** The minute of the day a clock text names. */
  function ClockMinutes(time: string): (m: int)
    requires ClockText(time)
    ensures 0 <= m <= 1439
  {
    DigitsValue(time[..|time| - 3]) * 60 + DigitsValue(time[|time| - 2..])
  }

  /** `validateTime` accepts exactly the clock texts and the hour-24 texts. */
  lemma ValidateClockText(time: string, fieldName: string)
    ensures ClockText(time) ==>
              && ValidateTime(time, fieldName).Ok?
              && ValidateTime(time, fieldName).value.MinuteOfDay() == ClockMinutes(time)
    ensures ValidateTime(time, fieldName).Ok? && !ClockText(time) ==>
              ValidateTime(time, fieldName).value == LocalTime(0, 0)
  {
    if TimeShaped(time) {
      DigitNotBlank(time, 0);
    }
  }

  /** On a clock text `split(":")` yields the hour and the minute digits. */
  lemma SplitClockText(time: string)
    requires ClockText(time)
    ensures Split(time, ':') == [time[..|time| - 3], time[|time| - 2..]]
  {
    var hs, ms := time[..|time| - 3], time[|time| - 2..];
    assert time == hs + [':'] + ms;
    assert ':' !in hs by {
      forall i | 0 <= i < |hs| ensures hs[i] != ':' {
        assert IsDigit(hs[i]);
      }
    }
    assert ':' !in ms by {
      assert IsDigit(ms[0]) && IsDigit(ms[1]);
    }
    SplitAt(hs, ':', ms);
    SplitNone(ms, ':');
  }

  /** On a clock text the split-and-`toInt` reading yields its minute of the day. */
  lemma MinutesOfClockText(time: string)
    requires ClockText(time)
    ensures MinutesOf(time) == Ok(ClockMinutes(time))
  {
    SplitClockText(time);
    var hs, ms := time[..|time| - 3], time[|time| - 2..];
    ParseDigits(hs);
    ParseDigits(ms);
  }

  /**
   * For two clock texts the duration is the difference of their minutes of
   * the day; nothing keeps it from being negative.
   */
  lemma DurationOfClockTexts(startTime: string, endTime: string)
    requires ClockText(startTime) && ClockText(endTime)
    ensures DurationMinutes(startTime, endTime) == Ok(ClockMinutes(endTime) - ClockMinutes(startTime))
  {
    MinutesOfClockText(startTime);
    MinutesOfClockText(endTime);
    DifferenceOfMinutes(ClockMinutes(startTime), ClockMinutes(endTime));
  }

  /**
   * Everything stated of `DurationMinutes`, in one place for the two classes
   * that delegate to it: the error order, the `Int` range, and the value for
   * clock texts.
   */
  lemma DurationMinutesFacts(startTime: string, endTime: string, r: Result<int>)
    requires r == DurationMinutes(startTime, endTime)
    ensures MinutesOf(startTime).Err? ==> r == MinutesOf(startTime)
    ensures MinutesOf(startTime).Ok? && MinutesOf(endTime).Err? ==> r == MinutesOf(endTime)
    ensures r.Ok? ==> InInt(r.value)
    ensures ClockText(startTime) && ClockText(endTime) ==> r == Ok(ClockMinutes(endTime) - ClockMinutes(startTime))
  {
    if ClockText(startTime) && ClockText(endTime) {
      DurationOfClockTexts(startTime, endTime);
    }
  }

  lemma DifferenceOfMinutes(a: int, b: int)
    requires InInt(a) && InInt(b) && InInt(b - a)
    ensures Difference(Ok(a), Ok(b)) == Ok(b - a)
  {
  }

  /** The value of a two-digit field. */
  function TwoDigitValueOf(a: char, b: char): nat
    requires IsDigit(a) && IsDigit(b)
  {
    DigitValue(a) * 10 + DigitValue(b)
  }

  /** A five-character "hh:mm" text with hour at most 23 and minute at most 59 is a clock text. */
  lemma TwoDigitClock(time: string)
    requires |time| == 5 && time[2] == ':'
    requires IsDigit(time[0]) && IsDigit(time[1]) && IsDigit(time[3]) && IsDigit(time[4])
    requires TwoDigitValueOf(time[0], time[1]) <= 23 && TwoDigitValueOf(time[3], time[4]) <= 59
    ensures ClockText(time)
    ensures ClockMinutes(time) == TwoDigitValueOf(time[0], time[1]) * 60 + TwoDigitValueOf(time[3], time[4])
  {
    assert time[..2] == [time[0], time[1]] && time[3..] == [time[3], time[4]];
    TwoDigitValue(time[0], time[1]);
    TwoDigitValue(time[3], time[4]);
  }

  /** A 09:00 to 11:30 event lasts 150 minutes. */
  lemma DurationExample()
    ensures DurationMinutes("09:00", "11:30") == Ok(150)
  {
    TwoDigitClock("09:00");
    TwoDigitClock("11:30");
    assert ClockMinutes("09:00") == 540;
    assert ClockMinutes("11:30") == 690;
    DurationOfClockTexts("09:00", "11:30");
  }

  /** A start time without a colon throws at `parts[1]`, before the end time is read. */
  lemma DurationMissingColon()
    ensures DurationMinutes("0930", "garbage") == Err(IndexOutOfBounds(1))
  {
    var s := "0930";
    assert ':' !in s;
    SplitNone(s, ':');
    assert DigitsValue(s) == 930 by {
      assert s[..3] == "093" && "093"[..2] == "09" && "09"[..1] == "0" && "0"[..0] == "";
    }
    ParseDigits(s);
  }

  /**
   * Times `validateTimeRange` accepts, neither of them written with hour 24,
   * give a duration of one to 1439 minutes.
   */
  lemma DurationOfValidRange(startTime: string, endTime: string)
    requires ClockText(startTime) && ClockText(endTime)
    requires ValidateTimeRange(startTime, endTime).Ok?
    ensures DurationMinutes(startTime, endTime).Ok?
    ensures 0 < DurationMinutes(startTime, endTime).value <= 1439
  {
    ValidateClockText(startTime, "Start time");
    ValidateClockText(endTime, "End time");
    DurationOfClockTexts(startTime, endTime);
  }

  /**
   * "24:00" is where the two readings part: `validateTime` accepts it as
   * midnight, while split-and-`toInt` counts 1440 minutes, so a 22:00 to
   * 24:00 slot lasts 120 minutes yet is refused as a time range.
   */
  lemma HourTwentyFour()
    ensures ValidateTime("24:00") == Ok(LocalTime(0, 0))
    ensures MinutesOf("24:00") == Ok(1440)
    ensures DurationMinutes("22:00", "24:00") == Ok(120)
    ensures ValidateTimeRange("22:00", "24:00").Err?
  {
    HourTwentyFourValidates();
    HourTwentyFourMinutes();
    HourTwentyFourDuration();
    HourTwentyFourRange();
  }

  lemma HourTwentyFourDuration()
    ensures DurationMinutes("22:00", "24:00") == Ok(120)
  {
    HourTwentyFourMinutes();
    TwentyTwoMinutes();
    DifferenceOfMinutes(1320, 1440);
  }

  lemma TwentyTwoMinutes()
    ensures MinutesOf("22:00") == Ok(1320)
  {
    TwoDigitValue('2', '2');
    TwoDigitValue('0', '0');
    assert ':' !in "22" && ':' !in "00";
    assert "22:00" == "22" + [':'] + "00";
    SplitAt("22", ':', "00");
    SplitNone("00", ':');
    ParseDigits("22");
    ParseDigits("00");
  }

  lemma HourTwentyFourRange()
    ensures ValidateTimeRange("22:00", "24:00").Err?
  {
    HourTwentyFourValidates();
    TwoDigitClock("22:00");
    ValidateClockText("22:00", "Start time");
  }

  lemma HourTwentyFourValidates()
    ensures ValidateTime("24:00") == Ok(LocalTime(0, 0))
    ensures ValidateTime("24:00", "End time") == Ok(LocalTime(0, 0))
  {
    var s := "24:00";
    TwoDigitValue('2', '4');
    TwoDigitValue('0', '0');
    assert s[..2] == "24" && s[3..] == "00";
    DigitNotBlank(s, 0);
  }

  lemma HourTwentyFourMinutes()
    ensures MinutesOf("24:00") == Ok(1440)
  {
    TwoDigitValue('2', '4');
    TwoDigitValue('0', '0');
    assert ':' !in "24" && ':' !in "00";
    assert "24:00" == "24" + [':'] + "00";
    SplitAt("24", ':', "00");
    SplitNone("00", ':');
    ParseDigits("24");
    ParseDigits("00");
  }
}
