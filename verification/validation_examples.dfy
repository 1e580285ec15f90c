/**
 * The cases the validators' unit tests check, stated about the model.
 */
module ValidationExamples {
  import opened Errors
  import opened Text
  import opened Calendar
  import opened Validation
  import Durations

  /** The value of four decimal digits. */
  lemma FourDigitValue(s: string)
    requires |s| == 4 && AllDigits(s)
    ensures DigitsValue(s)
         == DigitValue(s[0]) * 1000 + DigitValue(s[1]) * 100 + DigitValue(s[2]) * 10 + DigitValue(s[3])
  {
    var s3, s2, s1 := s[..3], s[..2], s[..1];
    assert s3[..2] == s2 && s2[..1] == s1 && s1[..0] == [];
    assert DigitsValue(s1) == DigitValue(s[0]);
    assert DigitsValue(s2) == DigitsValue(s1) * 10 + DigitValue(s[1]);
    assert DigitsValue(s3) == DigitsValue(s2) * 10 + DigitValue(s[2]);
  }

  /** "2024-03-15" is the 15th of March 2024. */
  lemma DateAccepted()
    ensures ValidateDate("2024-03-15") == Ok(LocalDate(2024, 3, 15))
  {
    DateAcceptedParses();
    DigitNotBlank("2024-03-15", 0);
  }

  lemma DateAcceptedParses()
    ensures ParseDate("2024-03-15") == Some(LocalDate(2024, 3, 15))
  {
    DateAcceptedParts();
    ParseDateOfParts("2024", "03", "15");
    ResolveValidDate(LocalDate(2024, 3, 15));
  }

  lemma DateAcceptedParts()
    ensures "2024-03-15" == "2024" + "-" + "03" + "-" + "15"
    ensures AllDigits("2024") && DigitsValue("2024") == 2024
    ensures Numeral("03") && DigitsValue("03") == 3
    ensures Numeral("15") && DigitsValue("15") == 15
  {
    FourDigitValue("2024");
    TwoDigitValue('0', '3');
    TwoDigitValue('1', '5');
    assert "03" == ['0', '3'] && "15" == ['1', '5'];
  }

  /** Day first is refused: the first four characters are not all digits. */
  lemma DateRefused()
    ensures ValidateDate("15-03-2024").Err?
  {
    var s := "15-03-2024";
    assert ParseDate(s) == None by {
      assert !AllDigits(s[..4]) by { assert s[..4][2] == '-'; }
    }
    DigitNotBlank(s, 0);
  }

  /** The empty date is missing. */
  lemma DateMissing()
    ensures ValidateDate("") == Err(IllegalArgument("Date is required"))
  {
    assert "Date" + " is required" == "Date is required";
  }

  /** "09:30" is half past nine. */
  lemma TimeAccepted()
    ensures ValidateTime("09:30") == Ok(LocalTime(9, 30))
  {
    Durations.TwoDigitClock("09:30");
    assert Durations.ClockMinutes("09:30") == 570;
    Durations.ValidateClockText("09:30", "Time");
  }

  /** A trailing " AM" and the hour 25 are both refused. */
  lemma TimeRefused()
    ensures ValidateTime("9:30 AM").Err?
    ensures ValidateTime("25:00").Err?
  {
    var am := "9:30 AM";
    assert !IsDigit(am[|am| - 2..][0]);
    DigitNotBlank(am, 0);
    var late := "25:00";
    assert late[..2] == "25" && late[3..] == "00";
    TwoDigitValue('2', '5');
    TwoDigitValue('0', '0');
    DigitNotBlank(late, 0);
  }

  /** Nine to five is a range; five to nine and nine to nine are not. */
  lemma RangeExamples()
    ensures ValidateTimeRange("09:00", "17:00") == Ok(())
    ensures ValidateTimeRange("17:00", "09:00") == Err(IllegalArgument("End time must be after start time"))
    ensures ValidateTimeRange("09:00", "09:00") == Err(IllegalArgument("End time must be after start time"))
  {
    Durations.TwoDigitClock("09:00");
    Durations.TwoDigitClock("17:00");
    assert Durations.ClockMinutes("09:00") == 540;
    assert Durations.ClockMinutes("17:00") == 1020;
    Durations.ValidateClockText("09:00", "Start time");
    Durations.ValidateClockText("09:00", "End time");
    Durations.ValidateClockText("17:00", "Start time");
    Durations.ValidateClockText("17:00", "End time");
  }

  /** "50" is accepted as fifty. */
  lemma FiftyAccepted()
    ensures ValidatePositiveInt(Some("50"), "Test") == Ok(50)
  {
    assert NatToString(5) == "5";
    assert IntToString(50) == "50";
    ValidatePositiveIntRoundTrip(50, "Test");
  }

  /** Zero and minus five are numbers but not positive. */
  lemma NonPositiveRefused()
    ensures ValidatePositiveInt(Some("0"), "Test") == Err(IllegalArgument("Test must be positive"))
    ensures ValidatePositiveInt(Some("-5"), "Test") == Err(IllegalArgument("Test must be positive"))
  {
    assert "Test" + " must be positive" == "Test must be positive";
    assert IntToString(0) == "0";
    ValidatePositiveIntRejectsNonPositive(0, "Test");
    assert NatToString(5) == "5";
    assert IntToString(-5) == "-5";
    ValidatePositiveIntRejectsNonPositive(-5, "Test");
  }

  /** Letters are not a number. */
  lemma LettersRefused()
    ensures ValidatePositiveInt(Some("abc"), "Test") == Err(IllegalArgument("Test must be a number"))
  {
    var s := "abc";
    assert !IsDigit(s[0]) && s[0] != '-' && s[0] != '+';
    assert ParseInt(s) == None;
    assert !IsWhitespace(s[0]);
    assert "Test" + " must be a number" == "Test must be a number";
  }

  /** An address with both an '@' and a '.' is returned as typed. */
  lemma EmailAccepted()
    ensures ValidateEmail("test@example.com") == Ok("test@example.com")
  {
    var ok := "test@example.com";
    assert ok[4] == '@' && ok[12] == '.' && !IsWhitespace(ok[0]);
  }

  /** An address missing either character is refused. */
  lemma EmailRefused()
    ensures ValidateEmail("testexample.com") == Err(IllegalArgument("Email is not valid"))
    ensures ValidateEmail("test@") == Err(IllegalArgument("Email is not valid"))
  {
    var noAt, noDot := "testexample.com", "test@";
    assert "Email" + " is not valid" == "Email is not valid";
    assert '@' !in noAt && !IsWhitespace(noAt[0]);
    assert '.' !in noDot && !IsWhitespace(noDot[0]);
  }

  /** A filled-in field comes back as typed; an empty or missing one is required. */
  lemma RequiredExamples()
    ensures ValidateRequired(Some("test value"), "Test") == Ok("test value")
    ensures ValidateRequired(Some(""), "Test") == Err(IllegalArgument("Test is required"))
    ensures ValidateRequired(None, "Test") == Err(IllegalArgument("Test is required"))
  {
    RequiredFilled();
    assert "Test" + " is required" == "Test is required";
  }

  lemma RequiredFilled()
    ensures ValidateRequired(Some("test value"), "Test") == Ok("test value")
  {
    var s := "test value";
    assert !IsWhitespace(s[0]) && !IsWhitespace(s[|s| - 1]);
    TrimTrimmed(s);
  }

  /** "9:00" is printed as "09:00"; "14:30" is printed unchanged. */
  lemma FormatTimeExamples()
    ensures FormatTime("9:00") == Ok("09:00")
    ensures FormatTime("14:30") == Ok("14:30")
  {
    NineOClockPrinted();
    HalfPastTwoPrinted();
  }

  lemma NineOClockPrinted()
    ensures FormatTime("9:00") == Ok("09:00")
  {
    NineOClock();
    FormatTimeOf("9:00", LocalTime(9, 0));
  }

  lemma HalfPastTwoPrinted()
    ensures FormatTime("14:30") == Ok("14:30")
  {
    HalfPastTwo();
    FormatTimeOf("14:30", LocalTime(14, 30));
  }

  lemma NineOClock()
    ensures ValidateTime("9:00") == Ok(LocalTime(9, 0))
    ensures TimeText(LocalTime(9, 0)) == "09:00"
  {
    var s := "9:00";
    assert s[..1] == "9" && s[2..] == "00";
    TwoDigitValue('0', '0');
    assert DigitsValue("9") == 9 by { assert "9"[..0] == []; }
    DigitNotBlank(s, 0);
    assert NatToString(9) == "9";
    assert NatToString(0) == "0";
    assert TwoDigits(9) == "09" && TwoDigits(0) == "00";
  }

  lemma HalfPastTwo()
    ensures ValidateTime("14:30") == Ok(LocalTime(14, 30))
    ensures TimeText(LocalTime(14, 30)) == "14:30"
  {
    Durations.TwoDigitClock("14:30");
    assert Durations.ClockMinutes("14:30") == 870;
    Durations.ValidateClockText("14:30", "Time");
    assert NatToString(1) == "1" && NatToString(14) == "14";
    assert NatToString(3) == "3" && NatToString(30) == "30";
    assert TwoDigits(14) == "14" && TwoDigits(30) == "30";
  }

  /** "2024-3-5" is printed with a two-digit month and day. */
  lemma FormatDateExample()
    ensures FormatDate("2024-3-5") == Ok("2024-03-05")
  {
    MarchFifthParses();
    DigitNotBlank("2024-3-5", 0);
    MarchFifthPrints();
  }

  lemma MarchFifthParses()
    ensures ParseDate("2024-3-5") == Some(LocalDate(2024, 3, 5))
  {
    MarchFifthParts();
    ParseDateOfParts("2024", "3", "5");
    ResolveValidDate(LocalDate(2024, 3, 5));
  }

  lemma MarchFifthParts()
    ensures "2024-3-5" == "2024" + "-" + "3" + "-" + "5"
    ensures AllDigits("2024") && DigitsValue("2024") == 2024
    ensures Numeral("3") && DigitsValue("3") == 3
    ensures Numeral("5") && DigitsValue("5") == 5
  {
    FourDigitValue("2024");
    assert "3"[..0] == [] && "5"[..0] == [];
  }

  lemma MarchFifthPrints()
    ensures DateText(LocalDate(2024, 3, 5)) == "2024-03-05"
  {
    YearPrints();
    MonthDayPrint();
    assert DashJoin("2024", "03", "05") == "2024-03-05";
  }

  lemma YearPrints()
    ensures FourDigits(2024) == "2024"
  {
    assert NatToString(2) == "2" && NatToString(20) == "20";
    assert NatToString(202) == "202" && NatToString(2024) == "2024";
  }

  lemma MonthDayPrint()
    ensures TwoDigits(3) == "03" && TwoDigits(5) == "05"
  {
    assert NatToString(3) == "3" && NatToString(5) == "5";
  }
}
