/**
 * `DataStore`: the four lists of the application and the operations on them.
 * The Kotlin store mutates one `AppData` in place and writes it to a JSON
 * file after each change; here every operation maps a store value to the
 * next one, and the file is not modelled.
 */
module Store {
  import opened Errors
  import opened Seqs
  import Events
  import Venues
  import Participants
  import Sessions

  type Event = Events.Event
  type Venue = Venues.Venue
  type Participant = Participants.Participant
  type Session = Sessions.Session

  /** `AppData`: the four lists, in insertion order. */
  datatype AppData = AppData(
    events: seq<Event>,
    venues: seq<Venue>,
    participants: seq<Participant>,
    sessions: seq<Session>)

  /** `AppData()`: the store every load starts from and `clearAllData` returns to. */
  const EmptyStore: AppData := AppData([], [], [], [])

  function EventIs(id: string): Event -> bool { (e: Event) => e.id == id }
  function VenueIs(id: string): Venue -> bool { (v: Venue) => v.id == id }
  function ParticipantIs(id: string): Participant -> bool { (p: Participant) => p.id == id }
  function SessionIs(id: string): Session -> bool { (s: Session) => s.id == id }

  // ---------------------------------------------------------------------------
  // Lookups: `find { it.id == id }`, the first element with the id

  function EventById(d: AppData, id: string): (r: Option<Event>)
    ensures r.Some? ==> r.value in d.events && r.value.id == id
    ensures r.Some? ==> exists i :: IsFirst(d.events, EventIs(id), i) && d.events[i] == r.value
    ensures r.None? <==> forall j | 0 <= j < |d.events| :: d.events[j].id != id
  {
    Find(d.events, EventIs(id))
  }

  function VenueById(d: AppData, id: string): (r: Option<Venue>)
    ensures r.Some? ==> r.value in d.venues && r.value.id == id
    ensures r.Some? ==> exists i :: IsFirst(d.venues, VenueIs(id), i) && d.venues[i] == r.value
    ensures r.None? <==> forall j | 0 <= j < |d.venues| :: d.venues[j].id != id
  {
    Find(d.venues, VenueIs(id))
  }

  function ParticipantById(d: AppData, id: string): (r: Option<Participant>)
    ensures r.Some? ==> r.value in d.participants && r.value.id == id
    ensures r.Some? ==> exists i :: IsFirst(d.participants, ParticipantIs(id), i) && d.participants[i] == r.value
    ensures r.None? <==> forall j | 0 <= j < |d.participants| :: d.participants[j].id != id
  {
    Find(d.participants, ParticipantIs(id))
  }

  /** `getSessionsByEventId`: the sessions of an event, in order. */
  function SessionsByEventId(d: AppData, eventId: string): (r: seq<Session>)
    ensures forall j | 0 <= j < |r| :: r[j] in d.sessions && r[j].eventId == eventId
    ensures forall j | 0 <= j < |d.sessions| && d.sessions[j].eventId == eventId :: d.sessions[j] in r
  {
    Filter(d.sessions, (s: Session) => s.eventId == eventId)
  }

  // ---------------------------------------------------------------------------
  // Adding, updating, deleting

  /** `addEvent`: appended, even when an event with the same id is already stored. */
  function AddEvent(d: AppData, e: Event): (r: AppData)
    ensures r.events == d.events + [e]
    ensures r.(events := d.events) == d
  {
    d.(events := d.events + [e])
  }

  function AddVenue(d: AppData, v: Venue): (r: AppData)
    ensures r.venues == d.venues + [v]
    ensures r.(venues := d.venues) == d
  {
    d.(venues := d.venues + [v])
  }

  function AddParticipant(d: AppData, p: Participant): (r: AppData)
    ensures r.participants == d.participants + [p]
    ensures r.(participants := d.participants) == d
  {
    d.(participants := d.participants + [p])
  }

  function AddSession(d: AppData, s: Session): (r: AppData)
    ensures r.sessions == d.sessions + [s]
    ensures r.(sessions := d.sessions) == d
  {
    d.(sessions := d.sessions + [s])
  }

  /** `updateEvent`: the first event with the same id is replaced; without one, nothing changes. */
  function UpdateEvent(d: AppData, e: Event): (r: AppData)
    ensures |r.events| == |d.events|
    ensures forall j | 0 <= j < |d.events| :: r.events[j] == if IsFirst(d.events, EventIs(e.id), j) then e else d.events[j]
    ensures r.(events := d.events) == d
  {
    d.(events := ReplaceFirst(d.events, EventIs(e.id), e))
  }

  function UpdateVenue(d: AppData, v: Venue): (r: AppData)
    ensures |r.venues| == |d.venues|
    ensures forall j | 0 <= j < |d.venues| :: r.venues[j] == if IsFirst(d.venues, VenueIs(v.id), j) then v else d.venues[j]
    ensures r.(venues := d.venues) == d
  {
    d.(venues := ReplaceFirst(d.venues, VenueIs(v.id), v))
  }

  function UpdateParticipant(d: AppData, p: Participant): (r: AppData)
    ensures |r.participants| == |d.participants|
    ensures forall j | 0 <= j < |d.participants| :: r.participants[j] == if IsFirst(d.participants, ParticipantIs(p.id), j) then p else d.participants[j]
    ensures r.(participants := d.participants) == d
  {
    d.(participants := ReplaceFirst(d.participants, ParticipantIs(p.id), p))
  }

  function UpdateSession(d: AppData, s: Session): (r: AppData)
    ensures |r.sessions| == |d.sessions|
    ensures forall j | 0 <= j < |d.sessions| :: r.sessions[j] == if IsFirst(d.sessions, SessionIs(s.id), j) then s else d.sessions[j]
    ensures r.(sessions := d.sessions) == d
  {
    d.(sessions := ReplaceFirst(d.sessions, SessionIs(s.id), s))
  }

  /**
   * `deleteEvent`: every event with the id goes, and so does every session
   * of that event; venues and participants stay.
   */
  function DeleteEvent(d: AppData, eventId: string): (r: AppData)
    ensures forall j | 0 <= j < |r.events| :: r.events[j].id != eventId && r.events[j] in d.events
    ensures forall j | 0 <= j < |d.events| && d.events[j].id != eventId :: d.events[j] in r.events
    ensures forall j | 0 <= j < |r.sessions| :: r.sessions[j].eventId != eventId && r.sessions[j] in d.sessions
    ensures forall j | 0 <= j < |d.sessions| && d.sessions[j].eventId != eventId :: d.sessions[j] in r.sessions
    ensures r.venues == d.venues && r.participants == d.participants
  {
    d.(events := Filter(d.events, (e: Event) => e.id != eventId),
       sessions := Filter(d.sessions, (s: Session) => s.eventId != eventId))
  }

  /**
   * `deleteVenue`: every venue with the id goes. Events held there keep
   * their `venueId`, which then names no venue.
   */
  function DeleteVenue(d: AppData, venueId: string): (r: AppData)
    ensures forall j | 0 <= j < |r.venues| :: r.venues[j].id != venueId && r.venues[j] in d.venues
    ensures forall j | 0 <= j < |d.venues| && d.venues[j].id != venueId :: d.venues[j] in r.venues
    ensures r.(venues := d.venues) == d
  {
    d.(venues := Filter(d.venues, (v: Venue) => v.id != venueId))
  }

  /** `deleteSession`: every session with the id goes. */
  function DeleteSession(d: AppData, sessionId: string): (r: AppData)
    ensures forall j | 0 <= j < |r.sessions| :: r.sessions[j].id != sessionId && r.sessions[j] in d.sessions
    ensures forall j | 0 <= j < |d.sessions| && d.sessions[j].id != sessionId :: d.sessions[j] in r.sessions
    ensures r.(sessions := d.sessions) == d
  {
    d.(sessions := Filter(d.sessions, (s: Session) => s.id != sessionId))
  }

  /**
   * `deleteParticipant`: every participant with the id goes, and each
   * event's list loses one occurrence of the id (`MutableList.remove`).
   */
  function DeleteParticipant(d: AppData, participantId: string): (r: AppData)
    ensures forall j | 0 <= j < |r.participants| ::
              r.participants[j].id != participantId && r.participants[j] in d.participants
    ensures forall j | 0 <= j < |d.participants| && d.participants[j].id != participantId ::
              d.participants[j] in r.participants
    ensures |r.events| == |d.events|
    ensures forall j | 0 <= j < |d.events| ::
              r.events[j] == Events.UnregisterParticipant(d.events[j], participantId).0
    ensures r.venues == d.venues && r.sessions == d.sessions
  {
    d.(participants := Filter(d.participants, (p: Participant) => p.id != participantId),
       events := UnregisterEverywhere(d.events, participantId))
  }

  function UnregisterEverywhere(events: seq<Event>, participantId: string): (r: seq<Event>)
    ensures |r| == |events|
    ensures forall j | 0 <= j < |events| :: r[j] == Events.UnregisterParticipant(events[j], participantId).0
  {
    seq(|events|, j requires 0 <= j < |events| => Events.UnregisterParticipant(events[j], participantId).0)
  }

  /** `clearAllData`. */
  function ClearAllData(d: AppData): (r: AppData)
    ensures r.events == [] && r.venues == [] && r.participants == [] && r.sessions == []
  {
    EmptyStore
  }

  // ---------------------------------------------------------------------------
  // Registration

  /**
   * `registerParticipantForEvent`: refused when the event or the participant
   * is unknown, the event is full or the id already registered; otherwise
   * the id is appended to the first event with the event id.
   */
  function RegisterParticipantForEvent(d: AppData, participantId: string, eventId: string): (r: (AppData, bool))
    ensures r.1 <==>
              && EventById(d, eventId).Some?
              && ParticipantById(d, participantId).Some?
              && Events.HasAvailableCapacity(EventById(d, eventId).value)
              && !Events.IsParticipantRegistered(EventById(d, eventId).value, participantId)
    ensures !r.1 ==> r.0 == d
    ensures r.0.(events := d.events) == d
    ensures r.1 ==> |r.0.events| == |d.events|
    ensures r.1 ==> forall j | 0 <= j < |d.events| ::
              r.0.events[j]
              == if IsFirst(d.events, EventIs(eventId), j)
                 then Events.RegisterParticipant(d.events[j], participantId).0 else d.events[j]
  {
    FirstIndexIsFirst(d.events, EventIs(eventId));
    match FirstIndex(d.events, EventIs(eventId))
    case None => (d, false)
    case Some(i) =>
      if ParticipantById(d, participantId).None? then (d, false)
      else if !Events.HasAvailableCapacity(d.events[i]) then (d, false)
      else if Events.IsParticipantRegistered(d.events[i], participantId) then (d, false)
      else (d.(events := d.events[i := Events.RegisterParticipant(d.events[i], participantId).0]), true)
  }

  /**
   * `unregisterParticipantFromEvent`: false for an unknown event; otherwise
   * the first event with the id loses one occurrence of the participant id,
   * and the result says whether it had one.
   */
  function UnregisterParticipantFromEvent(d: AppData, participantId: string, eventId: string): (r: (AppData, bool))
    ensures r.1 <==>
              EventById(d, eventId).Some? && Events.IsParticipantRegistered(EventById(d, eventId).value, participantId)
    ensures !r.1 ==> r.0 == d
    ensures r.0.(events := d.events) == d
    ensures r.1 ==> |r.0.events| == |d.events|
    ensures r.1 ==> forall j | 0 <= j < |d.events| ::
              r.0.events[j]
              == if IsFirst(d.events, EventIs(eventId), j)
                 then Events.UnregisterParticipant(d.events[j], participantId).0 else d.events[j]
  {
    FirstIndexIsFirst(d.events, EventIs(eventId));
    match FirstIndex(d.events, EventIs(eventId))
    case None => (d, false)
    case Some(i) =>
      // `remove` reports whether the id was there; when it was not, the list is unchanged
      if Events.IsParticipantRegistered(d.events[i], participantId) then
        (d.(events := d.events[i := Events.UnregisterParticipant(d.events[i], participantId).0]), true)
      else (d, false)
  }

  /**
   * `getParticipantsForEvent`: the stored participants whose ids the event
   * lists, in registration order; ids without a participant are skipped, and
   * an unknown event gives the empty list.
   */
  function ParticipantsForEvent(d: AppData, eventId: string): (r: seq<Participant>)
    ensures EventById(d, eventId).None? ==> r == []
    ensures EventById(d, eventId).Some? ==>
              r == ParticipantsOfIds(d, EventById(d, eventId).value.registeredParticipantIds)
  {
    match EventById(d, eventId)
    case None => []
    case Some(e) => ParticipantsOfIds(d, e.registeredParticipantIds)
  }

  /**
   * `mapNotNull { getParticipantById(it) }`: the stored participant of each
   * id, in the order of the ids, skipping ids no participant has.
   */
  function ParticipantsOfIds(d: AppData, ids: seq<string>): (r: seq<Participant>)
    ensures |r| <= |ids|
  {
    MapNotNull(ids, (id: string) => ParticipantById(d, id))
  }

  /** `getEventsForParticipant`: the events that list the id, in order. */
  function EventsForParticipant(d: AppData, participantId: string): (r: seq<Event>)
    ensures forall j | 0 <= j < |r| :: r[j] in d.events && participantId in r[j].registeredParticipantIds
    ensures forall j | 0 <= j < |d.events| && participantId in d.events[j].registeredParticipantIds ::
              d.events[j] in r
  {
    Filter(d.events, (e: Event) => Events.IsParticipantRegistered(e, participantId))
  }

  // ---------------------------------------------------------------------------
  // Lookups after changes

  /**
   * After `addEvent` the id finds the new event, unless an event with that
   * id was stored before: the earlier one shadows it. Other ids are not
   * affected.
   */
  lemma AddEventThenGet(d: AppData, e: Event, id: string)
    ensures EventById(AddEvent(d, e), e.id)
         == if EventById(d, e.id).Some? then EventById(d, e.id) else Some(e)
    ensures id != e.id ==> EventById(AddEvent(d, e), id) == EventById(d, id)
  {
    FindAppend(d.events, e, EventIs(e.id));
    FindAppend(d.events, e, EventIs(id));
  }

  lemma AddVenueThenGet(d: AppData, v: Venue, id: string)
    ensures VenueById(AddVenue(d, v), v.id)
         == if VenueById(d, v.id).Some? then VenueById(d, v.id) else Some(v)
    ensures id != v.id ==> VenueById(AddVenue(d, v), id) == VenueById(d, id)
  {
    FindAppend(d.venues, v, VenueIs(v.id));
    FindAppend(d.venues, v, VenueIs(id));
  }

  lemma AddParticipantThenGet(d: AppData, p: Participant, id: string)
    ensures ParticipantById(AddParticipant(d, p), p.id)
         == if ParticipantById(d, p.id).Some? then ParticipantById(d, p.id) else Some(p)
    ensures id != p.id ==> ParticipantById(AddParticipant(d, p), id) == ParticipantById(d, id)
  {
    FindAppend(d.participants, p, ParticipantIs(p.id));
    FindAppend(d.participants, p, ParticipantIs(id));
  }

  /** An added session comes last among the sessions of its event. */
  lemma AddSessionThenList(d: AppData, s: Session)
    ensures SessionsByEventId(AddSession(d, s), s.eventId) == SessionsByEventId(d, s.eventId) + [s]
  {
    FilterAppend(d.sessions, [s], (x: Session) => x.eventId == s.eventId);
  }

  /**
   * `getSessionsByEventId` keeps the stored order: it distributes over
   * concatenation and keeps a single session exactly when it is of the event.
   */
  lemma SessionsByEventIdInOrder(d: AppData, eventId: string, a: seq<Session>, b: seq<Session>, x: Session)
    ensures SessionsByEventId(d.(sessions := a + b), eventId)
         == SessionsByEventId(d.(sessions := a), eventId) + SessionsByEventId(d.(sessions := b), eventId)
    ensures SessionsByEventId(d.(sessions := [x]), eventId) == if x.eventId == eventId then [x] else []
  {
    FilterAppend(a, b, (s: Session) => s.eventId == eventId);
  }

  /** `getEventsForParticipant` keeps the stored order in the same sense. */
  lemma EventsForParticipantInOrder(d: AppData, participantId: string, a: seq<Event>, b: seq<Event>, x: Event)
    ensures EventsForParticipant(d.(events := a + b), participantId)
         == EventsForParticipant(d.(events := a), participantId)
            + EventsForParticipant(d.(events := b), participantId)
    ensures EventsForParticipant(d.(events := [x]), participantId)
         == if participantId in x.registeredParticipantIds then [x] else []
  {
    FilterAppend(a, b, (e: Event) => Events.IsParticipantRegistered(e, participantId));
  }

  /**
   * `getParticipantsForEvent` follows the registration order: the lookup of
   * a list of ids distributes over concatenation, and a single id gives its
   * stored participant or, when it has none, nothing.
   */
  lemma ParticipantsOfIdsInOrder(d: AppData, a: seq<string>, b: seq<string>, x: string)
    ensures ParticipantsOfIds(d, a + b) == ParticipantsOfIds(d, a) + ParticipantsOfIds(d, b)
    ensures ParticipantsOfIds(d, [x])
         == if ParticipantById(d, x).Some? then [ParticipantById(d, x).value] else []
  {
    MapNotNullAppend(a, b, (id: string) => ParticipantById(d, id));
  }

  /**
   * `deleteEvent` keeps the surviving events, and the surviving sessions, in
   * their stored order: both filters distribute over concatenation and keep
   * a single record exactly when it does not belong to the event.
   */
  lemma DeleteEventInOrder(
    d: AppData, eventId: string, a: seq<Event>, b: seq<Event>, x: Event,
    sa: seq<Session>, sb: seq<Session>, y: Session)
    ensures DeleteEvent(d.(events := a + b), eventId).events
         == DeleteEvent(d.(events := a), eventId).events + DeleteEvent(d.(events := b), eventId).events
    ensures DeleteEvent(d.(events := [x]), eventId).events == if x.id == eventId then [] else [x]
    ensures DeleteEvent(d.(sessions := sa + sb), eventId).sessions
         == DeleteEvent(d.(sessions := sa), eventId).sessions + DeleteEvent(d.(sessions := sb), eventId).sessions
    ensures DeleteEvent(d.(sessions := [y]), eventId).sessions == if y.eventId == eventId then [] else [y]
  {
    FilterAppend(a, b, (e: Event) => e.id != eventId);
    FilterAppend(sa, sb, (s: Session) => s.eventId != eventId);
  }

  /** `deleteVenue` keeps the surviving venues in their stored order. */
  lemma DeleteVenueInOrder(d: AppData, venueId: string, a: seq<Venue>, b: seq<Venue>, x: Venue)
    ensures DeleteVenue(d.(venues := a + b), venueId).venues
         == DeleteVenue(d.(venues := a), venueId).venues + DeleteVenue(d.(venues := b), venueId).venues
    ensures DeleteVenue(d.(venues := [x]), venueId).venues == if x.id == venueId then [] else [x]
  {
    FilterAppend(a, b, (v: Venue) => v.id != venueId);
  }

  /** `deleteSession` keeps the surviving sessions in their stored order. */
  lemma DeleteSessionInOrder(d: AppData, sessionId: string, a: seq<Session>, b: seq<Session>, x: Session)
    ensures DeleteSession(d.(sessions := a + b), sessionId).sessions
         == DeleteSession(d.(sessions := a), sessionId).sessions
            + DeleteSession(d.(sessions := b), sessionId).sessions
    ensures DeleteSession(d.(sessions := [x]), sessionId).sessions == if x.id == sessionId then [] else [x]
  {
    FilterAppend(a, b, (s: Session) => s.id != sessionId);
  }

  /** `deleteParticipant` keeps the surviving participants in their stored order. */
  lemma DeleteParticipantInOrder(
    d: AppData, participantId: string, a: seq<Participant>, b: seq<Participant>, x: Participant)
    ensures DeleteParticipant(d.(participants := a + b), participantId).participants
         == DeleteParticipant(d.(participants := a), participantId).participants
            + DeleteParticipant(d.(participants := b), participantId).participants
    ensures DeleteParticipant(d.(participants := [x]), participantId).participants
         == if x.id == participantId then [] else [x]
  {
    FilterAppend(a, b, (p: Participant) => p.id != participantId);
  }

  /**
   * After `updateEvent` the id finds the new value if an event with the id
   * was stored; otherwise the store is unchanged.
   */
  lemma UpdateEventThenGet(d: AppData, e: Event, id: string)
    ensures EventById(d, e.id).Some? ==> EventById(UpdateEvent(d, e), e.id) == Some(e)
    ensures EventById(d, e.id).None? ==> UpdateEvent(d, e) == d
    ensures id != e.id ==> EventById(UpdateEvent(d, e), id) == EventById(d, id)
  {
    FindReplaceFirst(d.events, EventIs(e.id), e);
    if id != e.id {
      FindReplaceOther(d.events, EventIs(e.id), e, EventIs(id));
    }
  }

  lemma UpdateVenueThenGet(d: AppData, v: Venue, id: string)
    ensures VenueById(d, v.id).Some? ==> VenueById(UpdateVenue(d, v), v.id) == Some(v)
    ensures VenueById(d, v.id).None? ==> UpdateVenue(d, v) == d
    ensures id != v.id ==> VenueById(UpdateVenue(d, v), id) == VenueById(d, id)
  {
    FindReplaceFirst(d.venues, VenueIs(v.id), v);
    if id != v.id {
      FindReplaceOther(d.venues, VenueIs(v.id), v, VenueIs(id));
    }
  }

  lemma UpdateParticipantThenGet(d: AppData, p: Participant, id: string)
    ensures ParticipantById(d, p.id).Some? ==> ParticipantById(UpdateParticipant(d, p), p.id) == Some(p)
    ensures ParticipantById(d, p.id).None? ==> UpdateParticipant(d, p) == d
    ensures id != p.id ==> ParticipantById(UpdateParticipant(d, p), id) == ParticipantById(d, id)
  {
    FindReplaceFirst(d.participants, ParticipantIs(p.id), p);
    if id != p.id {
      FindReplaceOther(d.participants, ParticipantIs(p.id), p, ParticipantIs(id));
    }
  }

  /**
   * After `updateSession` the first session with the id is the new value,
   * and every other id finds the session it found before.
   */
  lemma UpdateSessionThenFind(d: AppData, s: Session, id: string)
    ensures Find(d.sessions, SessionIs(s.id)).Some? ==>
              Find(UpdateSession(d, s).sessions, SessionIs(s.id)) == Some(s)
    ensures id != s.id ==>
              Find(UpdateSession(d, s).sessions, SessionIs(id)) == Find(d.sessions, SessionIs(id))
  {
    FindReplaceFirst(d.sessions, SessionIs(s.id), s);
    if id != s.id {
      FindReplaceOther(d.sessions, SessionIs(s.id), s, SessionIs(id));
    }
  }

  /** `updateSession` with an id no session has changes nothing. */
  lemma UpdateUnknownSession(d: AppData, s: Session)
    requires forall j | 0 <= j < |d.sessions| :: d.sessions[j].id != s.id
    ensures UpdateSession(d, s) == d
  {
  }

  /**
   * After `deleteEvent` the id finds nothing and the event has no sessions;
   * every other event and the sessions of every other event are as before.
   */
  lemma DeleteEventThenGet(d: AppData, eventId: string, other: string)
    ensures EventById(DeleteEvent(d, eventId), eventId).None?
    ensures SessionsByEventId(DeleteEvent(d, eventId), eventId) == []
    ensures other != eventId ==> EventById(DeleteEvent(d, eventId), other) == EventById(d, other)
    ensures other != eventId ==>
              SessionsByEventId(DeleteEvent(d, eventId), other) == SessionsByEventId(d, other)
  {
    var r := DeleteEvent(d, eventId);
    FilterKeepsNone(r.sessions, (s: Session) => s.eventId == eventId);
    if other != eventId {
      FindFiltered(d.events, (e: Event) => e.id != eventId, EventIs(other));
      FilterFilter(d.sessions, (s: Session) => s.eventId != eventId, (s: Session) => s.eventId == other);
    }
  }

  /**
   * After `deleteVenue` the id finds nothing and other venues are as before.
   * The events are untouched, including those whose `venueId` is the id.
   */
  lemma DeleteVenueThenGet(d: AppData, venueId: string, other: string)
    ensures VenueById(DeleteVenue(d, venueId), venueId).None?
    ensures other != venueId ==> VenueById(DeleteVenue(d, venueId), other) == VenueById(d, other)
    ensures DeleteVenue(d, venueId).events == d.events
  {
    if other != venueId {
      FindFiltered(d.venues, (v: Venue) => v.id != venueId, VenueIs(other));
    }
  }

  /**
   * After `deleteSession` the sessions of an event are those it had, in the
   * same order, less the one with the id: deleting and then listing is
   * listing and then deleting.
   */
  lemma DeleteSessionThenList(d: AppData, sessionId: string, eventId: string)
    ensures SessionsByEventId(DeleteSession(d, sessionId), eventId)
         == DeleteSession(d.(sessions := SessionsByEventId(d, eventId)), sessionId).sessions
  {
    FilterCommute(d.sessions, (s: Session) => s.id != sessionId, (s: Session) => s.eventId == eventId);
  }

  /** A cleared store finds nothing and registers nobody. */
  lemma ClearedStoreIsEmpty(d: AppData, id: string, participantId: string)
    ensures EventById(ClearAllData(d), id).None?
    ensures VenueById(ClearAllData(d), id).None?
    ensures ParticipantById(ClearAllData(d), id).None?
    ensures SessionsByEventId(ClearAllData(d), id) == []
    ensures RegisterParticipantForEvent(ClearAllData(d), participantId, id) == (ClearAllData(d), false)
    ensures ParticipantsForEvent(ClearAllData(d), id) == []
  {
  }

  // ---------------------------------------------------------------------------
  // The registration invariant across the store

  /** Every stored event keeps `Events.RegistrationInvariant`. */
  predicate StoreInvariant(d: AppData) {
    forall j | 0 <= j < |d.events| :: Events.RegistrationInvariant(d.events[j])
  }

  lemma EmptyStoreInvariant()
    ensures StoreInvariant(EmptyStore)
  {
  }

  lemma AddEventPreservesInvariant(d: AppData, e: Event)
    requires StoreInvariant(d) && Events.RegistrationInvariant(e)
    ensures StoreInvariant(AddEvent(d, e))
  {
    var r := AddEvent(d, e);
    forall j | 0 <= j < |r.events| ensures Events.RegistrationInvariant(r.events[j]) {
      if j < |d.events| {
        assert r.events[j] == d.events[j];
      }
    }
  }

  lemma UpdateEventPreservesInvariant(d: AppData, e: Event)
    requires StoreInvariant(d) && Events.RegistrationInvariant(e)
    ensures StoreInvariant(UpdateEvent(d, e))
  {
  }

  lemma DeleteEventPreservesInvariant(d: AppData, eventId: string)
    requires StoreInvariant(d)
    ensures StoreInvariant(DeleteEvent(d, eventId))
  {
    var r := DeleteEvent(d, eventId);
    forall j | 0 <= j < |r.events| ensures Events.RegistrationInvariant(r.events[j]) {
      assert r.events[j] in d.events;
    }
  }

  lemma RegisterPreservesInvariant(d: AppData, participantId: string, eventId: string)
    requires StoreInvariant(d)
    ensures StoreInvariant(RegisterParticipantForEvent(d, participantId, eventId).0)
  {
    match FirstIndex(d.events, EventIs(eventId))
    case None =>
    case Some(i) =>
      Events.RegisterPreservesInvariant(d.events[i], participantId);
  }

  lemma UnregisterPreservesInvariant(d: AppData, participantId: string, eventId: string)
    requires StoreInvariant(d)
    ensures StoreInvariant(UnregisterParticipantFromEvent(d, participantId, eventId).0)
  {
    match FirstIndex(d.events, EventIs(eventId))
    case None =>
    case Some(i) =>
      Events.UnregisterPreservesInvariant(d.events[i], participantId);
      if Events.IsParticipantRegistered(d.events[i], participantId) {
        UnregisterAt(d, participantId, eventId, i);
      }
  }

  lemma DeleteParticipantPreservesInvariant(d: AppData, participantId: string)
    requires StoreInvariant(d)
    ensures StoreInvariant(DeleteParticipant(d, participantId))
  {
    var r := DeleteParticipant(d, participantId);
    forall j | 0 <= j < |r.events| ensures Events.RegistrationInvariant(r.events[j]) {
      Events.UnregisterPreservesInvariant(d.events[j], participantId);
    }
  }

  /**
   * Under the invariant, a deleted participant is registered nowhere and
   * can no longer be found.
   */
  lemma DeleteParticipantUnregisters(d: AppData, participantId: string)
    requires StoreInvariant(d)
    ensures EventsForParticipant(DeleteParticipant(d, participantId), participantId) == []
    ensures ParticipantById(DeleteParticipant(d, participantId), participantId).None?
  {
    var r := DeleteParticipant(d, participantId);
    forall j | 0 <= j < |r.events|
      ensures !Events.IsParticipantRegistered(r.events[j], participantId)
    {
      RemoveFirstNoDuplicates(d.events[j].registeredParticipantIds, participantId);
    }
    FilterKeepsNone(r.events, (e: Event) => Events.IsParticipantRegistered(e, participantId));
  }

  // ---------------------------------------------------------------------------
  // Registration through the store

  /**
   * A successful registration is visible through the store: the event the
   * id finds is the registered one, and it lists the participant.
   */
  lemma RegisterThenGet(d: AppData, participantId: string, eventId: string)
    requires RegisterParticipantForEvent(d, participantId, eventId).1
    ensures var d' := RegisterParticipantForEvent(d, participantId, eventId).0;
            && EventById(d', eventId)
               == Some(Events.RegisterParticipant(EventById(d, eventId).value, participantId).0)
            && Events.IsParticipantRegistered(EventById(d', eventId).value, participantId)
            && |EventById(d', eventId).value.registeredParticipantIds|
               == |EventById(d, eventId).value.registeredParticipantIds| + 1
  {
    var i := FirstIndex(d.events, EventIs(eventId)).value;
    FindReplacedAt(d.events, EventIs(eventId), i, Events.RegisterParticipant(d.events[i], participantId).0);
  }

  /** Unregistering a participant who has just been registered restores the store. */
  lemma RegisterThenUnregister(d: AppData, participantId: string, eventId: string)
    requires RegisterParticipantForEvent(d, participantId, eventId).1
    ensures UnregisterParticipantFromEvent(RegisterParticipantForEvent(d, participantId, eventId).0,
                                           participantId, eventId)
         == (d, true)
  {
    var i := FirstIndex(d.events, EventIs(eventId)).value;
    var e := d.events[i];
    var e' := Events.RegisterParticipant(e, participantId).0;
    var d' := d.(events := d.events[i := e']);
    RegisterAt(d, participantId, eventId, i);
    FirstIndexReplaced(d.events, EventIs(eventId), i, e');
    Events.RegisterThenUnregister(e, participantId);
    UnregisterAt(d', participantId, eventId, i);
    WriteBack(d.events, i, e');
  }

  /** A successful registration writes the registered event over the first event with the id. */
  lemma RegisterAt(d: AppData, participantId: string, eventId: string, i: nat)
    requires FirstIndex(d.events, EventIs(eventId)) == Some(i)
    requires RegisterParticipantForEvent(d, participantId, eventId).1
    ensures RegisterParticipantForEvent(d, participantId, eventId).0
         == d.(events := d.events[i := Events.RegisterParticipant(d.events[i], participantId).0])
  {
  }

  /** Unregistering from the event at the first index with the id. */
  lemma UnregisterAt(d: AppData, participantId: string, eventId: string, i: nat)
    requires FirstIndex(d.events, EventIs(eventId)) == Some(i)
    requires Events.IsParticipantRegistered(d.events[i], participantId)
    ensures UnregisterParticipantFromEvent(d, participantId, eventId)
         == (d.(events := d.events[i := Events.UnregisterParticipant(d.events[i], participantId).0]), true)
  {
  }

  /** A second registration of the same participant for the same event is refused. */
  lemma RegisterTwiceRefused(d: AppData, participantId: string, eventId: string)
    requires RegisterParticipantForEvent(d, participantId, eventId).1
    ensures var d' := RegisterParticipantForEvent(d, participantId, eventId).0;
            RegisterParticipantForEvent(d', participantId, eventId) == (d', false)
  {
    RegisterThenGet(d, participantId, eventId);
  }

  /**
   * After unregistering, the event the id finds has lost one occurrence of
   * the participant id and nothing else.
   */
  lemma UnregisterThenGet(d: AppData, participantId: string, eventId: string)
    requires UnregisterParticipantFromEvent(d, participantId, eventId).1
    ensures var d' := UnregisterParticipantFromEvent(d, participantId, eventId).0;
            EventById(d', eventId)
            == Some(Events.UnregisterParticipant(EventById(d, eventId).value, participantId).0)
  {
    var i := FirstIndex(d.events, EventIs(eventId)).value;
    FindReplacedAt(d.events, EventIs(eventId), i, Events.UnregisterParticipant(d.events[i], participantId).0);
  }

  // ---------------------------------------------------------------------------
  // Queries across lists

  /**
   * Every participant `getParticipantsForEvent` returns is stored and listed
   * by the event.
   */
  lemma ParticipantsForEventSound(d: AppData, eventId: string, p: Participant)
    requires p in ParticipantsForEvent(d, eventId)
    ensures p in d.participants
    ensures EventById(d, eventId).Some? && p.id in EventById(d, eventId).value.registeredParticipantIds
  {
    var ids := EventById(d, eventId).value.registeredParticipantIds;
    MapNotNullSources(ids, (id: string) => ParticipantById(d, id), p);
  }

  /**
   * When every listed id names a stored participant, `getParticipantsForEvent`
   * returns exactly one participant per id, in registration order.
   */
  lemma ParticipantsForEventComplete(d: AppData, eventId: string)
    requires EventById(d, eventId).Some?
    requires var ids := EventById(d, eventId).value.registeredParticipantIds;
             forall j | 0 <= j < |ids| :: ParticipantById(d, ids[j]).Some?
    ensures var ids := EventById(d, eventId).value.registeredParticipantIds;
            var r := ParticipantsForEvent(d, eventId);
            |r| == |ids| && forall j | 0 <= j < |ids| :: r[j].id == ids[j] && r[j] in d.participants
  {
    var ids := EventById(d, eventId).value.registeredParticipantIds;
    MapNotNullTotal(ids, (id: string) => ParticipantById(d, id));
  }

  /** A participant just registered is among those `getParticipantsForEvent` returns. */
  lemma RegisterThenListed(d: AppData, participantId: string, eventId: string)
    requires RegisterParticipantForEvent(d, participantId, eventId).1
    ensures var d' := RegisterParticipantForEvent(d, participantId, eventId).0;
            ParticipantById(d, participantId).value in ParticipantsForEvent(d', eventId)
            && EventById(d', eventId).value in EventsForParticipant(d', participantId)
  {
    var d' := RegisterParticipantForEvent(d, participantId, eventId).0;
    RegisterThenGet(d, participantId, eventId);
    var ids := EventById(d', eventId).value.registeredParticipantIds;
    var f := (id: string) => ParticipantById(d', id);
    assert ids == EventById(d, eventId).value.registeredParticipantIds + [participantId];
    MapNotNullAppend(EventById(d, eventId).value.registeredParticipantIds, [participantId], f);
    assert d'.participants == d.participants;
    assert f(participantId) == ParticipantById(d, participantId);
  }
}
