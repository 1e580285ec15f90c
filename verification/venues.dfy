/**
 * `Venue`: a place with a capacity where events are held.
 */
module Venues {
  import opened Errors
  import opened Text

  /** The `Double` hourly rate and its check are not modelled. */
  datatype Venue = Venue(
    id: string,
    name: string,
    capacity: int,
    location: string,
    facilities: seq<string>,
    isAvailable: bool)

  /** The checks of the `init` block, in order; the first that fails names the error. */
  function NewVenue(
    id: string, name: string, capacity: int, location: string,
    facilities: seq<string> := [],
    isAvailable: bool := true): (r: Result<Venue>)
    ensures r.Ok? <==> !IsBlank(name) && capacity > 0 && !IsBlank(location)
    ensures IsBlank(name) ==> r == Err(IllegalArgument("Venue name cannot be blank"))
    ensures (!IsBlank(name) && capacity <= 0) ==> r == Err(IllegalArgument("Venue capacity must be positive"))
    ensures (!IsBlank(name) && capacity > 0 && IsBlank(location))
              ==> r == Err(IllegalArgument("Venue location cannot be blank"))
    ensures r.Ok? ==> r.value == Venue(id, name, capacity, location, facilities, isAvailable)
  {
    var _ :- Require(!IsBlank(name), "Venue name cannot be blank");
    var _ :- Require(capacity > 0, "Venue capacity must be positive");
    var _ :- Require(!IsBlank(location), "Venue location cannot be blank");
    Ok(Venue(id, name, capacity, location, facilities, isAvailable))
  }

  /** `canAccommodate`: the head count fits within the capacity. */
  predicate CanAccommodate(v: Venue, participants: int) {
    participants <= v.capacity
  }

  /**
   * The capacity is the largest head count a venue accommodates: every
   * smaller count fits, and one more does not.
   */
  lemma CapacityIsLargestFit(v: Venue, participants: int)
    ensures CanAccommodate(v, v.capacity) && !CanAccommodate(v, v.capacity + 1)
    ensures CanAccommodate(v, participants) ==> forall n | n <= participants :: CanAccommodate(v, n)
    ensures !CanAccommodate(v, participants) ==> forall n | n >= participants :: !CanAccommodate(v, n)
  {
  }

  /** A constructed venue accommodates a single person. */
  lemma NewVenueHoldsOne(id: string, name: string, capacity: int, location: string)
    requires NewVenue(id, name, capacity, location).Ok?
    ensures CanAccommodate(NewVenue(id, name, capacity, location).value, 1)
    ensures NewVenue(id, name, capacity, location).value.isAvailable
    ensures NewVenue(id, name, capacity, location).value.facilities == []
  {
  }

  /** `displayString`: "<name> (<location>) - Capacity: <capacity>". */
  function DisplayString(v: Venue): (s: string)
    ensures |s| == |v.name| + |v.location| + |IntToString(v.capacity)| + 16
    ensures s[..|v.name| + 2] == v.name + " ("
    ensures s[|v.name| + 2..|v.name| + 2 + |v.location|] == v.location
    ensures s[|s| - |IntToString(v.capacity)| - 14..] == ") - Capacity: " + IntToString(v.capacity)
  {
    var s := v.name + " (" + v.location + ") - Capacity: " + IntToString(v.capacity);
    assert s == (v.name + " (") + v.location + (") - Capacity: " + IntToString(v.capacity));
    s
  }

  /** The capacity shown at the end of the display text reads back as the capacity. */
  lemma DisplayStringCapacity(v: Venue)
    requires InInt(v.capacity)
    ensures var s := DisplayString(v);
            ParseInt(s[|s| - |IntToString(v.capacity)|..]) == Some(v.capacity)
  {
    var s := DisplayString(v);
    assert s[|s| - |IntToString(v.capacity)|..] == IntToString(v.capacity);
    ParseIntToString(v.capacity);
  }

  /** The capacity checks of the unit tests: 30 and 50 fit a room for 50; 51 and 100 do not. */
  lemma CanAccommodateExample()
    ensures var v := NewVenue("v", "Small Room", 50, "Building A");
            && v.Ok?
            && CanAccommodate(v.value, 30) && CanAccommodate(v.value, 50)
            && !CanAccommodate(v.value, 51) && !CanAccommodate(v.value, 100)
  {
    assert !IsWhitespace("Small Room"[0]) && !IsWhitespace("Building A"[0]);
  }
}
