/**
 * The session form's own time check, `validateTimeFormat`, and the two form
 * actions that use it. The check is the regular expression
 * `^([01]?[0-9]|2[0-3]):[0-5][0-9]$`, matched against the whole text; the
 * actions trim every field, check both times with it, and build the session.
 */
module SessionForm {
  import opened Errors
  import opened Text
  import opened Calendar
  import opened Validation
  import Durations
  import Sessions

  /** `([01]?[0-9]|2[0-3])`: one digit, or two digits from 00 to 23. */
  predicate HourGroup(h: string) {
    || (|h| == 1 && IsDigit(h[0]))
    || (|h| == 2 && (h[0] == '0' || h[0] == '1') && IsDigit(h[1]))
    || (|h| == 2 && h[0] == '2' && '0' <= h[1] <= '3')
  }

  /** `[0-5][0-9]`: two digits from 00 to 59. */
  predicate MinuteGroup(m: string) {
    |m| == 2 && '0' <= m[0] <= '5' && IsDigit(m[1])
  }

  /** `Regex.matches`: the hour group, a colon and the minute group, and nothing else. */
  predicate MatchesTimeRegex(time: string) {
    && 4 <= |time| <= 5
    && time[|time| - 3] == ':'
    && HourGroup(time[..|time| - 3])
    && MinuteGroup(time[|time| - 2..])
  }

  /**
   * `validateTimeFormat`: only the empty text counts as missing (a text of
   * spaces reaches the pattern and fails there).
   */
  function ValidateTimeFormat(time: string, fieldName: string): (r: Result<()>)
    ensures r.Ok? <==> MatchesTimeRegex(time)
    ensures time == [] ==> r == Err(IllegalArgument(fieldName + " is required"))
    ensures time != [] && r.Err? ==> r == Err(IllegalArgument(fieldName + " must be in HH:MM format (e.g., 09:00)"))
  {
    if |time| == 0 then Err(IllegalArgument(fieldName + " is required"))
    else if !MatchesTimeRegex(time) then Err(IllegalArgument(fieldName + " must be in HH:MM format (e.g., 09:00)"))
    else Ok(())
  }

  /**
   * The pattern read as numbers: it accepts exactly the clock texts of at
   * most five characters, i.e. an hour of one or two digits up to 23 and a
   * minute of two digits up to 59.
   */
  lemma RegexIsShortClockText(time: string)
    ensures MatchesTimeRegex(time) <==> |time| <= 5 && Durations.ClockText(time)
  {
    if 4 <= |time| <= 5 && time[|time| - 3] == ':' {
      var h, m := time[..|time| - 3], time[|time| - 2..];
      if |h| == 2 && IsDigit(h[0]) && IsDigit(h[1]) {
        assert h == [h[0], h[1]];
        TwoDigitValue(h[0], h[1]);
      }
      if |h| == 1 && IsDigit(h[0]) {
        assert h[..0] == [];
      }
      if IsDigit(m[0]) && IsDigit(m[1]) {
        assert m == [m[0], m[1]];
        TwoDigitValue(m[0], m[1]);
      }
    }
  }

  /** A text the pattern accepts starts with a digit, so it is not blank. */
  lemma RegexNotBlank(time: string)
    requires MatchesTimeRegex(time)
    ensures !IsBlank(time)
  {
    var h := time[..|time| - 3];
    assert h[0] == time[0];
    assert IsDigit(time[0]);
    DigitNotBlank(time, 0);
  }

  /**
   * Every text the pattern accepts, `validateTime` accepts as well, at the
   * same minute of the day; and the split-and-`toInt` duration reading agrees.
   */
  lemma RegexAcceptedValidates(time: string, fieldName: string)
    requires MatchesTimeRegex(time)
    ensures ValidateTime(time, fieldName).Ok?
    ensures ValidateTime(time, fieldName).value.MinuteOfDay() == Durations.ClockMinutes(time)
    ensures Durations.MinutesOf(time) == Ok(Durations.ClockMinutes(time))
  {
    RegexIsShortClockText(time);
    Durations.ValidateClockText(time, fieldName);
    Durations.MinutesOfClockText(time);
  }

  /**
   * The converse fails: `validateTime` also takes "24:00" (midnight) and
   * hours of three or more digits, which the pattern refuses.
   */
  lemma ValidateTimeAcceptsMore()
    ensures ValidateTime("24:00").Ok? && !MatchesTimeRegex("24:00")
    ensures ValidateTime("009:30").Ok? && !MatchesTimeRegex("009:30")
  {
    Durations.HourTwentyFourValidates();
    var s := "009:30";
    assert s[..3] == "009" && s[4..] == "30";
    assert DigitsValue("009") == 9 by {
      assert "009"[..2] == "00" && "00"[..1] == "0" && "0"[..0] == "";
    }
    TwoDigitValue('3', '0');
    DigitNotBlank(s, 0);
  }

  /** The rejections the pattern is meant for: hour 24, a one-digit minute, trailing text. */
  lemma RegexRejects(fieldName: string)
    ensures ValidateTimeFormat("24:00", fieldName).Err?
    ensures ValidateTimeFormat("9:5", fieldName).Err?
    ensures ValidateTimeFormat("09:00 AM", fieldName).Err?
    ensures ValidateTimeFormat("", fieldName) == Err(IllegalArgument(fieldName + " is required"))
    ensures ValidateTimeFormat("  ", fieldName)
         == Err(IllegalArgument(fieldName + " must be in HH:MM format (e.g., 09:00)"))
  {
    assert "24:00"[..2] == "24";
  }

  // ---------------------------------------------------------------------------
  // The form actions

  /** The six text fields of the session form, as typed. */
  datatype Form = Form(
    title: string,
    speaker: string,
    description: string,
    startTime: string,
    endTime: string,
    room: string)

  /**
   * What every session the form builds satisfies: each field is trimmed, both
   * times match the pattern and the title is not blank.
   */
  predicate FormReady(s: Sessions.Session) {
    && Trimmed(s.title) && Trimmed(s.speaker) && Trimmed(s.description)
    && Trimmed(s.startTime) && Trimmed(s.endTime) && Trimmed(s.room)
    && MatchesTimeRegex(s.startTime) && MatchesTimeRegex(s.endTime)
    && !IsBlank(s.title)
  }

  /**
   * `addSession` once an event is selected: both trimmed times must pass the
   * pattern, then the session is built from the trimmed fields. The two times
   * are never compared with each other.
   */
  function SessionOfForm(id: string, eventId: string, form: Form): (r: Result<Sessions.Session>)
    ensures r.Ok? <==>
              && MatchesTimeRegex(Trim(form.startTime))
              && MatchesTimeRegex(Trim(form.endTime))
              && !IsBlank(form.title)
    ensures r.Ok? ==> r.value == Sessions.Session(id, eventId, Trim(form.title), Trim(form.speaker),
                                                  Trim(form.description), Trim(form.startTime),
                                                  Trim(form.endTime), Trim(form.room))
    ensures Trim(form.startTime) == [] ==> r == Err(IllegalArgument("Start time" + " is required"))
    ensures Trim(form.startTime) != [] && !MatchesTimeRegex(Trim(form.startTime)) ==>
              r == Err(IllegalArgument("Start time" + " must be in HH:MM format (e.g., 09:00)"))
    ensures MatchesTimeRegex(Trim(form.startTime)) && Trim(form.endTime) == [] ==>
              r == Err(IllegalArgument("End time" + " is required"))
    ensures MatchesTimeRegex(Trim(form.startTime)) && Trim(form.endTime) != [] && !MatchesTimeRegex(Trim(form.endTime)) ==>
              r == Err(IllegalArgument("End time" + " must be in HH:MM format (e.g., 09:00)"))
    ensures MatchesTimeRegex(Trim(form.startTime)) && MatchesTimeRegex(Trim(form.endTime)) && IsBlank(form.title) ==>
              r == Err(IllegalArgument("Session title cannot be blank"))
  {
    var start, end := Trim(form.startTime), Trim(form.endTime);
    var _ :- ValidateTimeFormat(start, "Start time");
    var _ :- ValidateTimeFormat(end, "End time");
    RegexNotBlank(start);
    RegexNotBlank(end);
    TrimBlank(form.title);
    Sessions.NewSession(id, eventId, Trim(form.title), start, end,
                        Trim(form.speaker), Trim(form.description), Trim(form.room))
  }

  /**
   * `updateSession` on a selected session: the same two checks, then `copy`
   * with the trimmed fields. `copy` runs the constructor again, with the
   * selected session's id and event id.
   */
  function UpdatedSessionOfForm(selected: Sessions.Session, form: Form): (r: Result<Sessions.Session>)
    ensures r.Ok? <==>
              && MatchesTimeRegex(Trim(form.startTime))
              && MatchesTimeRegex(Trim(form.endTime))
              && !IsBlank(form.title)
    ensures r.Ok? ==> r.value.id == selected.id && r.value.eventId == selected.eventId
  {
    var start, end := Trim(form.startTime), Trim(form.endTime);
    var _ :- ValidateTimeFormat(start, "Start time");
    var _ :- ValidateTimeFormat(end, "End time");
    RegexNotBlank(start);
    RegexNotBlank(end);
    TrimBlank(form.title);
    Sessions.NewSession(selected.id, selected.eventId, Trim(form.title), start, end,
                        Trim(form.speaker), Trim(form.description), Trim(form.room))
  }

  /** `populateForm`: the form filled in from a session. */
  function FormOf(s: Sessions.Session): Form {
    Form(s.title, s.speaker, s.description, s.startTime, s.endTime, s.room)
  }

  /**
   * Adding and updating agree: updating a session with a form yields what
   * adding that form would, under the selected session's ids.
   */
  lemma UpdateIsAddUnderSameIds(selected: Sessions.Session, form: Form)
    ensures UpdatedSessionOfForm(selected, form) == SessionOfForm(selected.id, selected.eventId, form)
  {
    var r := UpdatedSessionOfForm(selected, form);
    if r.Ok? {
      assert r.value == Sessions.Session(selected.id, selected.eventId, Trim(form.title), Trim(form.speaker),
                                         Trim(form.description), Trim(form.startTime),
                                         Trim(form.endTime), Trim(form.room));
    }
  }

  /** Every session the form builds is ready for the form again. */
  lemma FormBuildsReady(id: string, eventId: string, form: Form)
    requires SessionOfForm(id, eventId, form).Ok?
    ensures FormReady(SessionOfForm(id, eventId, form).value)
  {
    var s := SessionOfForm(id, eventId, form).value;
    assert s.title == Trim(form.title) && s.speaker == Trim(form.speaker);
    assert s.description == Trim(form.description) && s.room == Trim(form.room);
    assert s.startTime == Trim(form.startTime) && s.endTime == Trim(form.endTime);
    assert MatchesTimeRegex(s.startTime) && MatchesTimeRegex(s.endTime);
    TrimBlank(form.title);
  }

  /**
   * Selecting a session the form built and pressing update without editing
   * gives the same session back: the form's checks are stable under their
   * own output.
   */
  lemma FormRoundTrip(s: Sessions.Session)
    requires FormReady(s)
    ensures UpdatedSessionOfForm(s, FormOf(s)) == Ok(s)
  {
    TrimTrimmed(s.title);
    TrimTrimmed(s.speaker);
    TrimTrimmed(s.description);
    TrimTrimmed(s.startTime);
    TrimTrimmed(s.endTime);
    TrimTrimmed(s.room);
    UpdateIsAddUnderSameIds(s, FormOf(s));
  }

  /**
   * A session whose times pass the pattern, as every session the form builds
   * does, always has a duration: its times are clock texts, so the reading
   * cannot throw, and the result is the difference of two minutes of the day
   * (each 0 to 1439). It can be zero or negative, because the form never
   * compares the two times.
   */
  lemma FormSessionDuration(s: Sessions.Session)
    requires MatchesTimeRegex(s.startTime) && MatchesTimeRegex(s.endTime)
    ensures && Durations.ClockText(s.startTime) && Durations.ClockText(s.endTime)
            && Sessions.DurationMinutes(s)
               == Ok(Durations.ClockMinutes(s.endTime) - Durations.ClockMinutes(s.startTime))
  {
    RegexIsShortClockText(s.startTime);
    RegexIsShortClockText(s.endTime);
  }

  /**
   * The form never compares the two times: swapping them does not change
   * whether a session is built.
   */
  lemma FormIgnoresTimeOrder(id: string, eventId: string, form: Form)
    ensures SessionOfForm(id, eventId, form.(startTime := form.endTime, endTime := form.startTime)).Ok?
        <==> SessionOfForm(id, eventId, form).Ok?
  {
  }

  /** The form accepts a session that ends an hour before it starts. */
  lemma FormAcceptsBackwardsTimes()
    ensures SessionOfForm("s", "e", Form("Keynote", "", "", "10:00", "09:00", ""))
         == Ok(Sessions.Session("s", "e", "Keynote", "", "", "10:00", "09:00", ""))
    ensures Sessions.DurationMinutes(Sessions.Session("s", "e", "Keynote", "", "", "10:00", "09:00", ""))
         == Ok(-60)
  {
    BackwardsFormBuilds();
    Sessions.BackwardsSession();
  }

  /** The backwards form's fields are already trimmed, and both times pass the pattern. */
  lemma BackwardsFormBuilds()
    ensures SessionOfForm("s", "e", Form("Keynote", "", "", "10:00", "09:00", ""))
         == Sessions.NewSession("s", "e", "Keynote", "10:00", "09:00")
  {
    BackwardsFormTrimmed();
    BackwardsFormMatches();
    assert SessionOfForm("s", "e", Form("Keynote", "", "", "10:00", "09:00", "")).Ok?;
  }

  lemma BackwardsFormTrimmed()
    ensures Trim("10:00") == "10:00" && Trim("09:00") == "09:00"
    ensures Trim("Keynote") == "Keynote" && Trim("") == ""
    ensures !IsBlank("Keynote")
  {
    TrimTrimmed("10:00");
    TrimTrimmed("09:00");
    TrimTrimmed("Keynote");
    TrimTrimmed("");
    assert !IsWhitespace("Keynote"[0]);
  }

  lemma BackwardsFormMatches()
    ensures MatchesTimeRegex("10:00") && MatchesTimeRegex("09:00")
  {
    assert "10:00"[..2] == "10" && "10:00"[3..] == "00";
    assert "09:00"[..2] == "09" && "09:00"[3..] == "00";
  }
}
