/**
 * `Event`: a scheduled event with a capacity and the ids of the participants
 * registered for it. The Kotlin class mutates its registration list in place;
 * here each mutating call returns the new event together with its Boolean.
 */
module Events {
  import opened Errors
  import opened Text
  import opened Seqs
  import Durations

  datatype EventType = Workshop | Conference | Seminar | Meeting | Festival | Training | Networking

  datatype EventStatus = Scheduled | InProgress | Completed | Cancelled

  datatype Event = Event(
    id: string,
    title: string,
    description: string,
    date: string,
    startTime: string,
    endTime: string,
    venueId: string,
    maxParticipants: int,
    registeredParticipantIds: seq<string>,
    eventType: EventType,
    status: EventStatus)

  /** The checks of the `init` block, in order; the first that fails names the error. */
  function NewEvent(
    id: string, title: string, date: string, startTime: string, endTime: string,
    venueId: string, maxParticipants: int,
    description: string := "",
    registeredParticipantIds: seq<string> := [],
    eventType: EventType := Workshop,
    status: EventStatus := Scheduled): (r: Result<Event>)
    ensures r.Ok? <==>
              && !IsBlank(title) && !IsBlank(date) && !IsBlank(startTime) && !IsBlank(endTime)
              && maxParticipants > 0
    ensures IsBlank(title) ==> r == Err(IllegalArgument("Event title cannot be blank"))
    ensures (!IsBlank(title) && IsBlank(date)) ==> r == Err(IllegalArgument("Event date cannot be blank"))
    ensures (!IsBlank(title) && !IsBlank(date) && IsBlank(startTime))
              ==> r == Err(IllegalArgument("Start time cannot be blank"))
    ensures (!IsBlank(title) && !IsBlank(date) && !IsBlank(startTime) && IsBlank(endTime))
              ==> r == Err(IllegalArgument("End time cannot be blank"))
    ensures (!IsBlank(title) && !IsBlank(date) && !IsBlank(startTime) && !IsBlank(endTime)
             && maxParticipants <= 0)
              ==> r == Err(IllegalArgument("Max participants must be positive"))
    ensures r.Ok? ==> r.value == Event(id, title, description, date, startTime, endTime, venueId,
                                       maxParticipants, registeredParticipantIds, eventType, status)
  {
    var _ :- Require(!IsBlank(title), "Event title cannot be blank");
    var _ :- Require(!IsBlank(date), "Event date cannot be blank");
    var _ :- Require(!IsBlank(startTime), "Start time cannot be blank");
    var _ :- Require(!IsBlank(endTime), "End time cannot be blank");
    var _ :- Require(maxParticipants > 0, "Max participants must be positive");
    Ok(Event(id, title, description, date, startTime, endTime, venueId,
             maxParticipants, registeredParticipantIds, eventType, status))
  }

  /** `availableSlots`: the capacity not yet taken. */
  function AvailableSlots(e: Event): (n: int)
    ensures n + |e.registeredParticipantIds| == e.maxParticipants
  {
    e.maxParticipants - |e.registeredParticipantIds|
  }

  /** `hasAvailableCapacity`: fewer registrations than places. */
  predicate HasAvailableCapacity(e: Event)
    ensures HasAvailableCapacity(e) <==> |e.registeredParticipantIds| < e.maxParticipants
  {
    AvailableSlots(e) > 0
  }

  predicate IsParticipantRegistered(e: Event, participantId: string) {
    participantId in e.registeredParticipantIds
  }

  /**
   * `registerParticipant`: refused when the event is full or the id is
   * already there; otherwise the id is appended and nothing else changes.
   */
  function RegisterParticipant(e: Event, participantId: string): (r: (Event, bool))
    ensures r.1 <==> HasAvailableCapacity(e) && !IsParticipantRegistered(e, participantId)
    ensures !r.1 ==> r.0 == e
    ensures r.1 ==> r.0.registeredParticipantIds == e.registeredParticipantIds + [participantId]
    ensures r.0 == e.(registeredParticipantIds := r.0.registeredParticipantIds)
  {
    if !HasAvailableCapacity(e) then (e, false)
    else if IsParticipantRegistered(e, participantId) then (e, false)
    else (e.(registeredParticipantIds := e.registeredParticipantIds + [participantId]), true)
  }

  /**
   * `unregisterParticipant`: `MutableList.remove`, true exactly when the id
   * was registered; one occurrence goes, the other ids keep their order.
   */
  function UnregisterParticipant(e: Event, participantId: string): (r: (Event, bool))
    ensures r.1 <==> IsParticipantRegistered(e, participantId)
    ensures !r.1 ==> r.0 == e
    ensures r.1 ==> |r.0.registeredParticipantIds| == |e.registeredParticipantIds| - 1
    ensures r.1 ==> exists k :: RemovedAt(e.registeredParticipantIds, participantId, k, r.0.registeredParticipantIds)
    ensures multiset(r.0.registeredParticipantIds)
         == multiset(e.registeredParticipantIds) - multiset{participantId}
    ensures r.0 == e.(registeredParticipantIds := r.0.registeredParticipantIds)
  {
    var ids := RemoveFirst(e.registeredParticipantIds, participantId);
    (e.(registeredParticipantIds := ids), participantId in e.registeredParticipantIds)
  }

  /** `displayString`: "<title> - <date> <start>-<end>". */
  function DisplayString(e: Event): (s: string)
    ensures |s| == |e.title| + |e.date| + |e.startTime| + |e.endTime| + 5
    ensures s[..|e.title|] == e.title
    ensures s[|e.title|..|e.title| + 3] == " - "
    ensures var a := |e.title| + 3;
            s[a..a + |e.date|] == e.date && s[a + |e.date|] == ' '
    ensures var b := |e.title| + |e.date| + 4;
            s[b..b + |e.startTime|] == e.startTime && s[b + |e.startTime|] == '-'
    ensures s[|s| - |e.endTime|..] == e.endTime
  {
    var s := e.title + " - " + e.date + " " + e.startTime + "-" + e.endTime;
    DisplayPieces(e.title, e.date, e.startTime, e.endTime, s);
    s
  }

  lemma DisplayPieces(title: string, date: string, start: string, end: string, s: string)
    requires s == title + " - " + date + " " + start + "-" + end
    ensures s[..|title|] == title && s[|title|..|title| + 3] == " - "
    ensures s[|title| + 3..|title| + 3 + |date|] == date && s[|title| + 3 + |date|] == ' '
    ensures var b := |title| + |date| + 4;
            s[b..b + |start|] == start && s[b + |start|] == '-'
    ensures s[|s| - |end|..] == end
  {
    var b := |title| + |date| + 4;
    assert s == (title + " - " + date + " ") + start + "-" + end;
    assert |title + " - " + date + " "| == b;
  }

  /**
   * The display text determines the times of an event whose title and date
   * are known, given the length of its start time.
   */
  lemma DisplayStringDeterminesTimes(e: Event, f: Event)
    requires e.title == f.title && e.date == f.date && |e.startTime| == |f.startTime|
    requires DisplayString(e) == DisplayString(f)
    ensures e.startTime == f.startTime && e.endTime == f.endTime
  {
    var s, b := DisplayString(e), |e.title| + |e.date| + 4;
    assert e.startTime == s[b..b + |e.startTime|] == f.startTime;
    assert e.endTime == s[|s| - |e.endTime|..] == f.endTime;
  }

  /**
   * `durationMinutes` of the event's two times: always an `Int`, and for two
   * clock texts the difference of their minutes of the day, which is zero or
   * negative when the end is not later.
   */
  function DurationMinutes(e: Event): (r: Result<int>)
    ensures Durations.MinutesOf(e.startTime).Err? ==> r == Durations.MinutesOf(e.startTime)
    ensures Durations.MinutesOf(e.startTime).Ok? && Durations.MinutesOf(e.endTime).Err? ==>
              r == Durations.MinutesOf(e.endTime)
    ensures r.Ok? ==> InInt(r.value)
    ensures Durations.ClockText(e.startTime) && Durations.ClockText(e.endTime) ==>
              r == Ok(Durations.ClockMinutes(e.endTime) - Durations.ClockMinutes(e.startTime))
  {
    var r := Durations.DurationMinutes(e.startTime, e.endTime);
    Durations.DurationMinutesFacts(e.startTime, e.endTime, r);
    r
  }

  // ---------------------------------------------------------------------------
  // Registration invariants

  /**
   * What the registration operations maintain: no id twice and no more ids
   * than places.
   */
  predicate RegistrationInvariant(e: Event) {
    NoDuplicates(e.registeredParticipantIds) && |e.registeredParticipantIds| <= e.maxParticipants
  }

  /** A newly constructed event with the default empty list has every place free. */
  lemma NewEventAllSlotsFree(
    id: string, title: string, date: string, startTime: string, endTime: string,
    venueId: string, maxParticipants: int)
    requires NewEvent(id, title, date, startTime, endTime, venueId, maxParticipants).Ok?
    ensures var e := NewEvent(id, title, date, startTime, endTime, venueId, maxParticipants).value;
            && AvailableSlots(e) == maxParticipants > 0
            && RegistrationInvariant(e)
            && e.eventType == Workshop && e.status == Scheduled
  {
  }

  /**
   * The constructor does not check a list passed in: an id listed twice, and
   * more ids than places, are both accepted.
   */
  lemma ConstructorTrustsTheList()
    ensures var r := NewEvent("e", "T", "D", "S", "E", "v", 1, "", ["p", "p"]);
            r.Ok? && !RegistrationInvariant(r.value) && AvailableSlots(r.value) == -1
  {
    assert !IsWhitespace("T"[0]) && !IsWhitespace("D"[0]) && !IsWhitespace("S"[0]) && !IsWhitespace("E"[0]);
  }

  lemma RegisterPreservesInvariant(e: Event, participantId: string)
    requires RegistrationInvariant(e)
    ensures RegistrationInvariant(RegisterParticipant(e, participantId).0)
  {
    var r := RegisterParticipant(e, participantId);
    if r.1 {
      NoDuplicatesSnoc(e.registeredParticipantIds, participantId);
    }
  }

  lemma NoDuplicatesSnoc(s: seq<string>, x: string)
    requires NoDuplicates(s) && x !in s
    ensures NoDuplicates(s + [x])
  {
    var t := s + [x];
    forall i, j | 0 <= i < j < |t|
      ensures t[i] != t[j]
    {
      assert t[i] == s[i];
      if j < |s| {
        assert t[j] == s[j];
      }
    }
  }

  lemma UnregisterPreservesInvariant(e: Event, participantId: string)
    requires RegistrationInvariant(e)
    ensures RegistrationInvariant(UnregisterParticipant(e, participantId).0)
  {
    RemoveFirstNoDuplicates(e.registeredParticipantIds, participantId);
  }

  /**
   * A successful registration takes exactly one place and leaves the id
   * registered; a refused one changes nothing.
   */
  lemma RegisterTakesOneSlot(e: Event, participantId: string)
    ensures var (e', ok) := RegisterParticipant(e, participantId);
            && (ok ==> AvailableSlots(e') == AvailableSlots(e) - 1)
            && (!ok ==> AvailableSlots(e') == AvailableSlots(e))
            && (IsParticipantRegistered(e', participantId)
                <==> ok || IsParticipantRegistered(e, participantId))
  {
  }

  /**
   * On a list without duplicates, unregistering leaves the id unregistered
   * and keeps every other id, in order.
   */
  lemma UnregisterRemovesOnlyThat(e: Event, participantId: string)
    requires NoDuplicates(e.registeredParticipantIds)
    ensures var e' := UnregisterParticipant(e, participantId).0;
            && !IsParticipantRegistered(e', participantId)
            && e'.registeredParticipantIds == Filter(e.registeredParticipantIds, id => id != participantId)
  {
    RemoveFirstNoDuplicates(e.registeredParticipantIds, participantId);
    RemoveFirstIsFilter(e.registeredParticipantIds, participantId, id => id != participantId);
  }

  /** Unregistering a participant who has just been registered restores the event. */
  lemma RegisterThenUnregister(e: Event, participantId: string)
    requires RegisterParticipant(e, participantId).1
    ensures UnregisterParticipant(RegisterParticipant(e, participantId).0, participantId) == (e, true)
  {
    RemoveFirstAppended(e.registeredParticipantIds, participantId);
  }

  /** A full event refuses everyone, however often asked. */
  lemma FullEventRefuses(e: Event, participantId: string)
    requires !HasAvailableCapacity(e)
    ensures RegisterParticipant(e, participantId) == (e, false)
  {
  }

  /** The display text of the event in the unit tests. */
  lemma DisplayStringExample()
    ensures DisplayString(Event("e", "Annual Meeting", "", "2024-03-15", "14:00", "16:00", "venue-1",
                                50, [], Workshop, Scheduled))
         == "Annual Meeting - 2024-03-15 14:00-16:00"
  {
  }

  /** The 09:00 to 11:30 workshop of the unit tests lasts 150 minutes. */
  lemma DurationExample()
    ensures DurationMinutes(Event("e", "Workshop", "", "2024-03-15", "09:00", "11:30", "venue-1",
                                  10, [], Workshop, Scheduled)) == Ok(150)
  {
    Durations.DurationExample();
  }

  /** Two places, three asks: the first two are taken and the third is refused. */
  lemma CapacityExample()
    ensures var e0 := Event("e", "Small Meeting", "", "2024-03-15", "09:00", "10:00", "venue-1",
                            2, [], Workshop, Scheduled);
            var (e1, ok1) := RegisterParticipant(e0, "participant-1");
            var (e2, ok2) := RegisterParticipant(e1, "participant-2");
            var (e3, ok3) := RegisterParticipant(e2, "participant-3");
            && ok1 && ok2 && !ok3 && !HasAvailableCapacity(e3) && AvailableSlots(e3) == 0
  {
  }
}
