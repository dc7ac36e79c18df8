/**
 * The journey record (model/Journey.java).
 *
 * The source keeps a journey's fields in a map from `Journey.Fields` to
 * objects; a key that is absent reads as an empty `Optional`. Each key is
 * modelled as an optional field of its own.
 */
module Journeys {
  import opened Wrappers
  import opened Stations

  datatype Journey = Journey(
    id: Option<int>,
    returnStation: Option<Station>,
    departureStation: Option<Station>,
    distance: Option<int>,
    duration: Option<int>)

  /**
   * The constructor: its body is empty, so every argument is dropped and the
   * journey starts with no data at all.
   */
  function NewJourney(id: Option<int>, departureStation: Option<Station>, returnStation: Option<Station>,
                      distance: Option<int>, duration: Option<int>): (r: Journey)
    ensures IsNewJourney(r) && GetId(r) == None
    ensures !IsValid(r) && !IsComplete(r)
    ensures id.Some? ==> GetId(r) != id
  {
    Journey(None, None, None, None, None)
  }

  /** `isNewJourney`: no `ID` key. */
  function IsNewJourney(j: Journey): (r: bool)
    ensures r <==> GetId(j) == None
  {
    j.id.None?
  }

  /** `getId`: the value under the `ID` key, absent when there is none. */
  function GetId(j: Journey): (r: Option<int>)
    ensures r == j.id
  {
    j.id
  }

  function GetDepartureStation(j: Journey): Option<Station> {
    j.departureStation
  }

  /** `getReturnStation` reads the `DEPARTURE_STATION` key, not `RETURN_STATION`. */
  function GetReturnStation(j: Journey): (r: Option<Station>)
    ensures r == GetDepartureStation(j)
  {
    j.departureStation
  }

  function GetDistance(j: Journey): Option<int> {
    j.distance
  }

  function GetDuration(j: Journey): Option<int> {
    j.duration
  }

  /** `isValid`: departure station, distance and duration present, the last two non-negative. */
  function IsValid(j: Journey): (r: bool)
    ensures r <==> j.departureStation.Some? && j.distance.Some? && j.duration.Some?
                   && j.distance.value >= 0 && j.duration.value >= 0
  {
    GetDepartureStation(j).Some? && GetDistance(j).Some? && GetDuration(j).Some?
    && GetDistance(j).value >= 0 && GetDuration(j).value >= 0
  }

  /**
   * `isComplete`: valid and with a return station. As the return station is
   * read from the departure key, completeness is validity, and the stored
   * return station never matters.
   */
  function IsComplete(j: Journey): (r: bool)
    ensures r <==> IsValid(j)
    ensures j.returnStation.Some? && j.departureStation.None? ==> !r
  {
    IsValid(j) && GetReturnStation(j).Some?
  }
}
