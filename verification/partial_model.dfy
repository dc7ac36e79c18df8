/**
 * The default methods of the `PartialModel` interface, for its one implementer
 * in the model, `Station`. Each is derived from the two primitives `isNew` and
 * `isValid`; the contracts state them in terms of the station's own fields.
 */
module PartialModel {
  import opened Wrappers
  import opened Stations

  /** `isIncomplete`: some import-only map of the station is empty. */
  function IsIncomplete(s: Station): (r: bool)
    ensures r <==> (s.names == [] || s.address == [] || s.city == [] || s.operatorName == [])
  {
    !IsValid(s)
  }

  /** `isComplete`: the station could be created, or replace a stored one. */
  function IsComplete(s: Station): (r: bool)
    ensures r <==> (s.names != [] && s.address != [] && s.city != [] && s.operatorName != [])
  {
    IsValid(s)
  }

  /** `isExisting`: the station carries an identifier. */
  function IsExisting(s: Station): (r: bool)
    ensures r <==> s.id.Some?
  {
    !IsNew(s)
  }

  /** Every station is exactly one of complete and incomplete, and exactly one of new and existing. */
  lemma Dichotomies(s: Station)
    ensures IsComplete(s) != IsIncomplete(s)
    ensures IsExisting(s) != IsNew(s)
  {
  }

  /** Stations built by the id/name constructors are always incomplete. */
  lemma ConstructedStationsIncomplete(id: Option<int>, name: Option<string>, language: Option<string>)
    ensures IsIncomplete(NewStation(id, name, language))
    ensures IsIncomplete(NewFinnishStation(id, name))
    ensures IsExisting(NewStation(id, name, language)) <==> id.Some?
  {
  }
}
