/**
 * `Session`: one slot of a multi-session event, with its own "HH:MM" times.
 */
module Sessions {
  import opened Errors
  import opened Text
  import Durations

  datatype Session = Session(
    id: string,
    eventId: string,
    title: string,
    speaker: string,
    description: string,
    startTime: string,
    endTime: string,
    room: string)

  /**
   * The checks of the `init` block, in order; the first that fails names the
   * error. The times are only required to be non-blank: neither their format
   * nor their order is checked.
   */
  function NewSession(
    id: string, eventId: string, title: string, startTime: string, endTime: string,
    speaker: string := "",
    description: string := "",
    room: string := ""): (r: Result<Session>)
    ensures r.Ok? <==> !IsBlank(title) && !IsBlank(startTime) && !IsBlank(endTime)
    ensures IsBlank(title) ==> r == Err(IllegalArgument("Session title cannot be blank"))
    ensures (!IsBlank(title) && IsBlank(startTime)) ==> r == Err(IllegalArgument("Start time cannot be blank"))
    ensures (!IsBlank(title) && !IsBlank(startTime) && IsBlank(endTime))
              ==> r == Err(IllegalArgument("End time cannot be blank"))
    ensures r.Ok? ==> r.value == Session(id, eventId, title, speaker, description, startTime, endTime, room)
  {
    var _ :- Require(!IsBlank(title), "Session title cannot be blank");
    var _ :- Require(!IsBlank(startTime), "Start time cannot be blank");
    var _ :- Require(!IsBlank(endTime), "End time cannot be blank");
    Ok(Session(id, eventId, title, speaker, description, startTime, endTime, room))
  }

  /** `displayString`: "<title> (<start>-<end>)". */
  function DisplayString(s: Session): (d: string)
    ensures |d| == |s.title| + |s.startTime| + |s.endTime| + 4
    ensures d[..|s.title|] == s.title && d[|s.title|..|s.title| + 2] == " ("
    ensures d[|s.title| + 2..|s.title| + 2 + |s.startTime|] == s.startTime
    ensures d[|s.title| + 2 + |s.startTime|] == '-'
    ensures d[|d| - 1 - |s.endTime|..|d| - 1] == s.endTime && d[|d| - 1] == ')'
  {
    var d := s.title + " (" + s.startTime + "-" + s.endTime + ")";
    assert d == (s.title + " (") + s.startTime + "-" + s.endTime + ")";
    d
  }

  /**
   * The display text determines the times of a session whose title is
   * known, given the length of its start time.
   */
  lemma DisplayStringDeterminesTimes(s: Session, t: Session)
    requires s.title == t.title && |s.startTime| == |t.startTime|
    requires DisplayString(s) == DisplayString(t)
    ensures s.startTime == t.startTime && s.endTime == t.endTime
  {
    var d, a := DisplayString(s), |s.title| + 2;
    assert s.startTime == d[a..a + |s.startTime|] == t.startTime;
    assert s.endTime == d[|d| - 1 - |s.endTime|..|d| - 1] == t.endTime;
  }

  /**
   * `durationMinutes` of the session's two times, the same reading as the
   * event's: for two clock texts the end's minute of the day minus the
   * start's, with no check that the end is later.
   */
  function DurationMinutes(s: Session): (r: Result<int>)
    ensures Durations.MinutesOf(s.startTime).Err? ==> r == Durations.MinutesOf(s.startTime)
    ensures Durations.MinutesOf(s.startTime).Ok? && Durations.MinutesOf(s.endTime).Err? ==>
              r == Durations.MinutesOf(s.endTime)
    ensures r.Ok? ==> InInt(r.value)
    ensures Durations.ClockText(s.startTime) && Durations.ClockText(s.endTime) ==>
              r == Ok(Durations.ClockMinutes(s.endTime) - Durations.ClockMinutes(s.startTime))
  {
    var r := Durations.DurationMinutes(s.startTime, s.endTime);
    Durations.DurationMinutesFacts(s.startTime, s.endTime, r);
    r
  }

  /**
   * Since the constructor does not compare the times, a session may end
   * before it starts and then has a negative duration.
   */
  lemma BackwardsSession()
    ensures NewSession("s", "e", "Keynote", "10:00", "09:00").Ok?
    ensures DurationMinutes(NewSession("s", "e", "Keynote", "10:00", "09:00").value) == Ok(-60)
  {
    assert !IsWhitespace("Keynote"[0]);
    DigitNotBlank("10:00", 0);
    DigitNotBlank("09:00", 0);
    Durations.TwoDigitClock("10:00");
    Durations.TwoDigitClock("09:00");
    assert Durations.ClockMinutes("10:00") == 600;
    assert Durations.ClockMinutes("09:00") == 540;
    Durations.DurationOfClockTexts("10:00", "09:00");
  }

  /**
   * A session whose times are not numbers constructs, but asking for its
   * duration throws at the first `toInt`.
   */
  lemma MalformedTimesConstruct()
    ensures NewSession("s", "e", "Keynote", "noon", "one")
         == Ok(Session("s", "e", "Keynote", "", "", "noon", "one", ""))
    ensures DurationMinutes(Session("s", "e", "Keynote", "", "", "noon", "one", ""))
         == Err(NumberFormat("noon"))
  {
    assert !IsWhitespace("Keynote"[0]) && !IsWhitespace("noon"[0]) && !IsWhitespace("one"[0]);
    assert ':' !in "noon";
    SplitNone("noon", ':');
    assert !IsDigit("noon"[0]);
    assert ParseInt("noon") == None;
  }
}
