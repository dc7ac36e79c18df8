# Station repository of the bike-journey REST service, in Dafny

This project models the in-memory station repository held by the station
controller of the bike-sharing journeys/stations service, together with the
small records around it:

- `StationStore` and `StationController`: the controller state, i.e. the
  station list plus `idIndex`, the map from a station identifier to its
  position in the list. Also identifier generation, the three branches of
  `addStation` and the batch import `addStations` with its undo log.
  Then the two modes of `update` (partial merge, full replace), `delete`
  and the copying `readAll`. Each operation is a pure function from the
  state before the call to the state after it. A thrown exception is a
  `Failure` result.
- `Stations`: the station record, with `isNew`, `isValid`, the accessors and
  the id/name/language constructors.
- `PartialModel`: the default predicates `isIncomplete`, `isComplete` and
  `isExisting`, here for stations.
- `FieldErrors`: `InvalidFieldsException` and its `FieldError` pairs.
- `Journeys`: the journey record's validity predicates.
- `PlainStations`: the plain id/name/language `Station` class declared in
  JourneyController.java.
- `AsWritten`: three places where the source does something other than
  what it evidently intends. Each is modelled as written, with an input that
  shows the difference (see Findings).

The central properties are proved for every input:

- **The index invariant.** `StationStore.Wf` says every key maps to a
  position inside the list, the record there carries that key, positions are
  distinct, and every stored record is indexed at its own position. Every
  operation keeps it.
- **All or nothing.** A batch import either appends every station in list
  order (`AppendedInOrder`), or rethrows the duplicate-identifier error with
  the state exactly as before the call.
  The source's undo closures are replaced by an undo-log datatype:
  `RemoveKey(k)`, `RemoveAt(i)`, `RestoreAt(k, previous)`.
  `ApplyAllRestorable` proves that replaying the log newest entry first
  restores the state from before the batch. `RestoreAt` carries the key
  rather than a position, because the source looks the position up through
  `idIndex` when the undo runs.

In the source, `isValid` tests the four import-only maps (names,
address, city, operator), not the name and language. `addStation` returns
`true` rather than the stored record. The source has no single-station read.

## Model

| member | source | states |
|---|---|---|
| Stations.IsNew | src/main/java/com/kautiainen/antti/solita/model/Station.java:126-129 | a station is new exactly when its identifier is absent |
| Stations.IsValid | src/main/java/com/kautiainen/antti/solita/model/Station.java:131-135 | valid exactly when names, address, city and operator name are all non-empty |
| Stations.ValidityIgnoresNameFields | src/main/java/com/kautiainen/antti/solita/model/Station.java:131-135 | validity does not depend on the identifier, the name or the language |
| Stations.SetId | src/main/java/com/kautiainen/antti/solita/model/Station.java:67-69 | the getter returns the new identifier; no other field changes |
| Stations.NameIgnoresLanguage | src/main/java/com/kautiainen/antti/solita/model/Station.java:71-77 | getName returns the name last stored, whatever language is passed to either call |
| Stations.SetName | src/main/java/com/kautiainen/antti/solita/model/Station.java:75-77 | stores the name only; the language argument is dropped and the stored language is kept |
| Stations.SetLang | src/main/java/com/kautiainen/antti/solita/model/Station.java:83-85 | the getter returns the new language; no other field changes |
| Stations.AccessorRoundTrips | src/main/java/com/kautiainen/antti/solita/model/Station.java:63-85 | id and language setters round-trip with their getters and restore the record when set back |
| Stations.NewStation | src/main/java/com/kautiainen/antti/solita/model/Station.java:113-116 | sets id and name, leaves the language unset; the result is never valid, and new iff no id |
| Stations.NewStationForLocale | src/main/java/com/kautiainen/antti/solita/model/Station.java:118-120 | same station whatever language the locale gives; never valid, language unset |
| Stations.NewFinnishStation | src/main/java/com/kautiainen/antti/solita/model/Station.java:122-124 | the three-string constructor with language "fi"; never valid |
| PartialModel.IsIncomplete | src/main/java/com/kautiainen/antti/solita/model/PartialModel.java:27-29 | incomplete exactly when one of the four import-only maps is empty |
| PartialModel.IsComplete | src/main/java/com/kautiainen/antti/solita/model/PartialModel.java:37-39 | complete exactly when all four import-only maps are non-empty |
| PartialModel.IsExisting | src/main/java/com/kautiainen/antti/solita/model/PartialModel.java:46-48 | existing exactly when an identifier is present |
| PartialModel.Dichotomies | src/main/java/com/kautiainen/antti/solita/model/PartialModel.java:27-48 | exactly one of complete/incomplete and exactly one of new/existing holds |
| PartialModel.ConstructedStationsIncomplete | src/main/java/com/kautiainen/antti/solita/model/Station.java:113-124 | stations from the id/name constructors are always incomplete |
| FieldErrors.NewFieldError | src/main/java/com/kautiainen/antti/solita/exceptions/InvalidFieldsException.java:20-43 | never throws, since both validators accept everything, and stores both values unchanged |
| FieldErrors.FieldErrorOfEntry | src/main/java/com/kautiainen/antti/solita/exceptions/InvalidFieldsException.java:33-35 | a null entry gives a null name and description; otherwise key and value are stored |
| FieldErrors.ToMapEntry | src/main/java/com/kautiainen/antti/solita/exceptions/InvalidFieldsException.java:45-47 | building an error from the entry gives back the same error |
| FieldErrors.EntryRoundTrip | src/main/java/com/kautiainen/antti/solita/exceptions/InvalidFieldsException.java:33-47 | entry to error to entry is the identity |
| FieldErrors.NewInvalidFieldsException | src/main/java/com/kautiainen/antti/solita/exceptions/InvalidFieldsException.java:52-56 | keeps the given errors in order; a null array gives none |
| FieldErrors.DescriptionsFor | src/main/java/com/kautiainen/antti/solita/exceptions/InvalidFieldsException.java:58-60 | a description is listed exactly when an error pairs it with the field name |
| FieldErrors.DescriptionsForAppend | src/main/java/com/kautiainen/antti/solita/exceptions/InvalidFieldsException.java:58-60 | the filter distributes over concatenation, so the stored order is kept |
| FieldErrors.GetErrors | src/main/java/com/kautiainen/antti/solita/exceptions/InvalidFieldsException.java:58-61 | descriptions of exactly the errors on the field; all kept iff every error is on it |
| FieldErrors.HasErrors | src/main/java/com/kautiainen/antti/solita/exceptions/InvalidFieldsException.java:63-65 | holds iff getErrors of the same field is non-empty |
| FieldErrors.GetInvalidFields | src/main/java/com/kautiainen/antti/solita/exceptions/InvalidFieldsException.java:67-79 | each field name among the errors exactly once, ordered by first occurrence |
| Journeys.NewJourney | src/main/java/com/kautiainen/antti/solita/model/Journey.java:16-19 | arguments are ignored: the journey is new, has no id, and is neither valid nor complete |
| Journeys.IsNewJourney | src/main/java/com/kautiainen/antti/solita/model/Journey.java:21-23 | new exactly when the ID key is absent |
| Journeys.GetId | src/main/java/com/kautiainen/antti/solita/model/Journey.java:25-27 | the value under the ID key, absent when there is none |
| Journeys.GetReturnStation | src/main/java/com/kautiainen/antti/solita/model/Journey.java:33-35 | returns the departure station |
| Journeys.IsValid | src/main/java/com/kautiainen/antti/solita/model/Journey.java:50-54 | departure station, distance and duration present, the last two non-negative |
| Journeys.IsComplete | src/main/java/com/kautiainen/antti/solita/model/Journey.java:61-63 | equivalent to validity; a stored return station alone never makes a journey complete |
| PlainStations.SetId | src/main/java/com/kautiainen/antti/solita/JourneyController.java:23-29 | the getter returns the stored id; name and language unchanged |
| PlainStations.SetName | src/main/java/com/kautiainen/antti/solita/JourneyController.java:31-37 | the getter returns the stored name; id and language unchanged |
| PlainStations.SetLang | src/main/java/com/kautiainen/antti/solita/JourneyController.java:39-45 | the getter returns the stored language; id and name unchanged |
| PlainStations.NewPlainStation | src/main/java/com/kautiainen/antti/solita/JourneyController.java:50-54 | id and name stored unchanged; language is the locale's, or null for a null locale |
| PlainStations.NewFinnishPlainStation | src/main/java/com/kautiainen/antti/solita/JourneyController.java:56-58 | id and name stored unchanged; language "fi" |
| StationStore.IdentifiersUnique | src/main/java/com/kautiainen/antti/solita/controllers/StationController.java:31-38 | under the index invariant no two stored stations share an id, and the keys are exactly the stored ids |
| StationStore.ApplyUndo | src/main/java/com/kautiainen/antti/solita/controllers/StationController.java:63-100 | the undo entries: dropping a key always succeeds; a positional removal succeeds iff the position is inside the list (else IndexOutOfBounds), shifting later records down; a restore succeeds iff the key is indexed inside the list (an unindexed key is the null unboxing), changing only that record |
| StationStore.Rollback | src/main/java/com/kautiainen/antti/solita/controllers/StationController.java:123-127 | the corrected newest-first replay: an empty log changes nothing; a completed replay only drops keys and shortens the list by one per positional removal |
| StationStore.RollbackAppend | src/main/java/com/kautiainen/antti/solita/controllers/StationController.java:123-127 | replaying a concatenated log newest first undoes the later part, then the earlier |
| StationController.MaxOf | src/main/java/com/kautiainen/antti/solita/controllers/StationController.java:154 | the greatest key |
| StationController.NewIdentifier | src/main/java/com/kautiainen/antti/solita/controllers/StationController.java:153-157 | max key + 1, or 1 with no keys; never an existing key, so the retry loop at lines 60-62 runs once |
| StationController.CopyOf | src/main/java/com/kautiainen/antti/solita/model/Station.java:94-107 | the copy stored for a station without an id carries every field of the original |
| StationController.AddStation | src/main/java/com/kautiainen/antti/solita/controllers/StationController.java:52-103 | the three branches: fresh-id copy appended, new id appended, indexed id overwritten or refused with IDENTIFIER/"Invalid identifier"; nothing else changes |
| StationController.AppendKeepsIndex | src/main/java/com/kautiainen/antti/solita/controllers/StationController.java:90-101 | appending under an unused id keeps the index invariant |
| StationController.ReplaceKeepsIndex | src/main/java/com/kautiainen/antti/solita/controllers/StationController.java:76-84 | overwriting an indexed record with one of the same id keeps the index invariant |
| StationController.AddStationKeepsIndex | src/main/java/com/kautiainen/antti/solita/controllers/StationController.java:52-103 | every successful add keeps the index invariant |
| StationController.AppendUndone | src/main/java/com/kautiainen/antti/solita/controllers/StationController.java:63-74 | the two undo entries of an append, replayed newest first, restore the prior state |
| StationController.AddStationUndone | src/main/java/com/kautiainen/antti/solita/controllers/StationController.java:52-103 | the undo entries of any successful add restore the prior state |
| StationController.AddOne | src/main/java/com/kautiainen/antti/solita/controllers/StationController.java:40-50 | fails exactly on an indexed id, with the duplicate error; otherwise appends the station, or its copy under a fresh id, indexes it at the old length and keeps the invariant |
| StationController.ApplyAll | src/main/java/com/kautiainen/antti/solita/controllers/StationController.java:113-122 | keeps the invariant; with no error, every station is appended in list order; on error, it stopped at a station whose id the state reached already indexes, after appending exactly the stations before it in order |
| StationController.ApplyAllRestorable | src/main/java/com/kautiainen/antti/solita/controllers/StationController.java:105-131 | the batch's log, replayed newest first, restores the pre-batch state |
| StationController.NewStationsNeverFail | src/main/java/com/kautiainen/antti/solita/controllers/StationController.java:58-75 | a batch of stations without ids never throws |
| StationController.AddStations | src/main/java/com/kautiainen/antti/solita/controllers/StationController.java:105-131 | on success, returns whether the list was non-null and non-empty, keeps the invariant and appends the stations in list order |
| StationController.AddStationsAllOrNothing | src/main/java/com/kautiainen/antti/solita/controllers/StationController.java:105-131 | a failed batch leaves the state exactly as before and rethrows the duplicate error; the duplicate flag changes nothing |
| StationController.Merge | src/main/java/com/kautiainen/antti/solita/controllers/StationController.java:211-218 | the non-null name and language of the patch overwrite the stored ones; nothing else changes |
| StationController.Update | src/main/java/com/kautiainen/antti/solita/controllers/StationController.java:200-248 | incomplete: bad request without id, not found if unindexed, else a merge in place; complete: replace in place, or (new or unindexed) CREATED with the store addStation(station) produces |
| StationController.CreateStation | src/main/java/com/kautiainen/antti/solita/controllers/StationController.java:224-245 | fails only on an indexed id, leaving the state as it was; otherwise CREATED with the store addStation(station) produces |
| StationController.UpdateKeepsIndex | src/main/java/com/kautiainen/antti/solita/controllers/StationController.java:200-248 | update never throws and keeps the index invariant |
| StationController.RemovedKeepsIndex | src/main/java/com/kautiainen/antti/solita/controllers/StationController.java:259-262 | dropping a record and its key, shifting later positions, keeps the invariant and every other record at its key |
| StationController.Delete | src/main/java/com/kautiainen/antti/solita/controllers/StationController.java:256-265 | an unindexed id changes nothing (not found); an indexed one loses its record and key, the survivors keep their order and later positions move down by one |
| StationController.ReadAll | src/main/java/com/kautiainen/antti/solita/controllers/StationController.java:183-187 | a copy of the list in insertion order; its ids are exactly the indexed keys |
| StationController.FirstStationGetsIdentifierOne | src/main/java/com/kautiainen/antti/solita/controllers/StationController.java:58-75 | the first station without an id added to an empty controller gets id 1 |
| AsWritten.RollbackOldestFirst | src/main/java/com/kautiainen/antti/solita/controllers/StationController.java:125-126 | the replay as written, oldest entry first: an empty log changes nothing; a completed replay only drops keys and never lengthens the list |
| AsWritten.NewestFirstIsReversedOldestFirst | src/main/java/com/kautiainen/antti/solita/controllers/StationController.java:123-127 | the corrected replay equals the as-written oldest-first replay of the reversed log, so the two differ only in entry order |
| AsWritten.AddStationsAsWritten | src/main/java/com/kautiainen/antti/solita/controllers/StationController.java:123-129 | rollback oldest entry first; agrees with the corrected import whenever no add throws |
| AsWritten.ImportFirstSteps | src/main/java/com/kautiainen/antti/solita/controllers/StationController.java:90-101 | the first two adds of the example import and their undo entries |
| AsWritten.ImportLogExample | src/main/java/com/kautiainen/antti/solita/controllers/StationController.java:113-122 | the undo log of the example import, stopped by the duplicate |
| AsWritten.OldestFirstExample | src/main/java/com/kautiainen/antti/solita/controllers/StationController.java:125-126 | replaying that log oldest first throws IndexOutOfBounds(1) |
| AsWritten.UndoOrderCounterexample | src/main/java/com/kautiainen/antti/solita/controllers/StationController.java:123-129 | as written the import loses the duplicate error; corrected it restores the empty state |
| AsWritten.DeleteAsWritten | src/main/java/com/kautiainen/antti/solita/controllers/StationController.java:259-262 | an indexed id loses only its key, with NO_CONTENT, while the list and every other key stay; any other id changes nothing (not found) |
| AsWritten.DeleteCounterexample | src/main/java/com/kautiainen/antti/solita/controllers/StationController.java:259-262 | deleting the only station as written breaks the invariant and re-issues its id; corrected it empties the store |
| AsWritten.CopyAsWritten | src/main/java/com/kautiainen/antti/solita/model/Station.java:94-107 | copies id and the four maps; name and language stay null |
| AsWritten.CopyCounterexample | src/main/java/com/kautiainen/antti/solita/model/Station.java:94-107 | a named station copied as written loses its name and language; the corrected copy keeps them |

## Left out

- HTTP plumbing. Request decoding, header parsing, `Integer.parseInt`,
  `BadRequestException` and response objects are not modelled. `update` and
  `delete` report their status as a `Status` value. `create` (lines
  165-181 of the controller) is adapter glue and is not modelled: it sets
  BAD_REQUEST for an invalid station and then falls through into
  `addStation`. `delete` takes the identifier as an integer;
  `Constants.Url.STATION_ID`, which it reads, does not exist.
- Concurrency. `synchronized`, `volatile` and the synchronised list are
  left out; each operation is one atomic step.
- StationController.NewIdentifier: identifiers are unbounded integers. The
  32-bit wrap-around of max + 1 at `Integer.MAX_VALUE` is not modelled.
- The uninitialised `stations` field. The source never assigns it, so the
  first add would throw a NullPointerException. The model starts from
  `EmptyStore`.
- The unset multi-valued maps. The constructors never initialise them; the
  model reads them as empty, so `setFields` does not throw. The `MultiValuedMap`
  library semantics are reduced to sequences of entries.
- Object identity and aliasing. Stored records are values. In the source the
  list holds the caller's object, a partial update mutates it in place, and
  `readAll` copies the list but shares the records.
- The one-argument name accessors. `update` calls `getName()` and
  `setName(name)`, which model/Station.java does not declare. The model reads
  and writes the single stored name.
- StationController.AddStations: only a fresh undo log is modelled. This is
  what both callers pass (the constructor passes null, which becomes a fresh
  list, and the import at Configuration.java line 62 passes a fresh list).
  With a non-empty log, the source's oldest-first replay would also consume
  the caller's earlier entries.
- StationController.AddOne: the single-add overload also replays its log
  oldest first. At its only throw the log is empty, so the model replays
  nothing.
- Station capacity, the float coordinates, `getNames` and the CSV
  annotations play no part in any modelled operation.
- FieldErrors.GetErrors and FieldErrors.HasErrors compare field names by
  value, while the source uses `==` on strings (reference equality).
- FieldErrors.GetInvalidFields: error entries are never null in the model.
  The source maps a null entry to a null field name.
- The exception's `cause` is not kept; it is null everywhere the model
  raises the exception.
- AsWritten.AddStationsAsWritten: after a faulting replay it reports the
  state from before the replay. The partly rolled-back state the source
  leaves behind (for the import 5, 6, 5: station 6 alone with an empty
  index) is not modelled.
- Not modelled at all: Configuration.java (property and file handling, CSV
  binding), Routes.java, Constants.java, controllers/JourneyController.java,
  the `JourneyController` class and the duplicate `InvalidFieldsException`
  and `Journey` classes in JourneyController.java. These are wiring, TODO
  stubs, or copies of the files modelled above.

## Findings

| source | as written | input that shows it | evidently intended | confidence | as-written member | corrected member |
|---|---|---|---|---|---|---|
| src/main/java/com/kautiainen/antti/solita/controllers/StationController.java:123-129 | undo entries are appended with `add` but replayed with `LinkedList.pop`, oldest first | import stations 5, 6, 5 into an empty controller: the replay removes position 0, then asks for position 1 of a one-element list and throws IndexOutOfBounds instead of the duplicate error | replay newest first, restoring the pre-batch state and rethrowing the duplicate error | high; not executed | AsWritten.AddStationsAsWritten | StationController.AddStations |
| src/main/java/com/kautiainen/antti/solita/controllers/StationController.java:259-262 | `stations.remove(idIndex.get(id))` resolves to `remove(Object)`, so the record stays while its key is dropped | delete 1 from a controller holding only station 1: the record stays unindexed, and the next fresh id is 1 again | remove the record and its key, shifting later positions down | high; not executed | AsWritten.DeleteAsWritten | StationController.Delete |
| src/main/java/com/kautiainen/antti/solita/model/Station.java:94-107 | the copy constructor's `setFields` copies id and the maps, never the name or language | add "Kamppi"/"fi" without an id: the stored copy has neither | copy every field | medium; not executed | AsWritten.CopyAsWritten | StationController.CopyOf |
