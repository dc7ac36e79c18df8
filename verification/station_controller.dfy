/**
 * The station controller's repository operations
 * (controllers/StationController.java): identifier generation, single and
 * batch adds with their undo logs, update, delete and read-all.
 *
 * Every operation is a function from the state before the call to the state
 * after it and the call's result; a thrown exception is a `Failure` result.
 * The source holds the controller's lock around each operation, so each is
 * atomic here. The source never assigns its `stations` field; the model
 * starts from `EmptyStore`.
 */
module StationController {
  import opened Wrappers
  import opened Stations
  import opened PartialModel
  import opened FieldErrors
  import opened StationStore

  /** What a controller operation throws. */
  datatype Error =
    | InvalidFields(exception: InvalidFieldsException)
    | UndoFailed(fault: Fault)

  /** The state after an operation, with what the operation returned or threw. */
  datatype Outcome<T> = Outcome(store: Store, result: Result<T, Error>)

  /** The response statuses `update` and `delete` set. `Ok` is the status left at its default. */
  datatype Status = Ok | Created | NoContent | BadRequest | NotFound

  // ---------------------------------------------------------------- identifiers

  /** Some element of a non-empty set. */
  lemma PickOne(keys: set<int>) returns (x: int)
    requires keys != {}
    ensures x in keys
  {
    if forall y :: y !in keys {
      assert false;
    }
    x :| x in keys;
  }

  /** A non-empty set of integers has a greatest element. */
  lemma {:induction false} MaxExists(keys: set<int>)
    requires keys != {}
    ensures exists m :: m in keys && forall k | k in keys :: k <= m
    decreases |keys|
  {
    var x := PickOne(keys);
    var rest := keys - {x};
    if rest == {} {
      forall k | k in keys
        ensures k <= x
      {
        assert k !in rest;
      }
    } else {
      MaxExists(rest);
      var m :| m in rest && forall k | k in rest :: k <= m;
      var top := if x <= m then m else x;
      forall k | k in keys
        ensures k <= top
      {
        if k != x {
          assert k in rest;
        }
      }
    }
  }

  /** The greatest element of a non-empty set. */
  function MaxOf(keys: set<int>): (m: int)
    requires keys != {}
    ensures m in keys && forall k | k in keys :: k <= m
  {
    MaxExists(keys);
    var m :| m in keys && forall k | k in keys :: k <= m;
    m
  }

  /**
   * `getNewIdentifier`: one more than the greatest indexed identifier, or 1
   * when there is none. The result is never indexed, so the retry loop in
   * `addStation` always stops after its first round.
   */
  function NewIdentifier(idIndex: map<int, nat>): (r: int)
    ensures r !in idIndex
    ensures forall k | k in idIndex :: k < r
    ensures idIndex == map[] ==> r == 1
    ensures idIndex != map[] ==> r - 1 in idIndex
  {
    if idIndex.Keys == {} then 1 else MaxOf(idIndex.Keys) + 1
  }

  // ---------------------------------------------------------------- adding one station

  /** The exception a colliding identifier raises. */
  const DuplicateIdentifier: InvalidFieldsException :=
    NewInvalidFieldsException(
      Some(FieldLabel(Identifier)),
      Some([NewFieldError(Some(FieldLabel(Identifier)), Some("Invalid identifier")).value]))

  /** The state after a successful add, with the undo entries the add recorded, oldest first. */
  datatype Added = Added(store: Store, undos: seq<Undo>)

  /**
   * `new Station(station)`: the copy taken of a station without an
   * identifier. The source's copy constructor leaves the name and language
   * behind (see `AsWritten.CopyAsWritten`); the model copies every field.
   */
  function CopyOf(station: Station): (r: Station)
    ensures r.id == station.id && r.name == station.name && r.lang == station.lang
    ensures r.names == station.names && r.address == station.address
    ensures r.city == station.city && r.operatorName == station.operatorName
  {
    station
  }

  /**
   * `addStation(station, allowDuplicateIds, undos)`.
   * - No identifier: a copy with a fresh identifier is appended and indexed.
   * - An identifier not yet indexed: the station is appended and indexed as is.
   * - An indexed identifier: the stored record is overwritten when duplicates
   *   are allowed, otherwise `InvalidFieldsException` is thrown and nothing changes.
   */
  function AddStation(s: Store, station: Station, allowDuplicateIds: bool): (r: Result<Added, InvalidFieldsException>)
    requires Wf(s)
    ensures match station.id
      case None =>
        // A copy carrying a fresh identifier is appended; earlier records and keys are kept.
        && r.Success?
        && var n, t := NewIdentifier(s.idIndex), r.value.store;
        && |t.stations| == |s.stations| + 1
        && t.stations[..|s.stations|] == s.stations
        && t.stations[|s.stations|] == SetId(station, Some(n))
        && t.idIndex.Keys == s.idIndex.Keys + {n}
        && t.idIndex[n] == |s.stations|
        && (forall k | k in s.idIndex :: t.idIndex[k] == s.idIndex[k])
      case Some(id) =>
        if id !in s.idIndex then
          // The station is appended unchanged and indexed at the old length.
          && r.Success?
          && var t := r.value.store;
          && t.stations == s.stations + [station]
          && t.idIndex.Keys == s.idIndex.Keys + {id}
          && t.idIndex[id] == |s.stations|
          && (forall k | k in s.idIndex :: t.idIndex[k] == s.idIndex[k])
        else if allowDuplicateIds then
          // The record at the identifier's position is overwritten; nothing else changes.
          && r.Success?
          && var t, p := r.value.store, s.idIndex[id];
          && t.idIndex == s.idIndex
          && |t.stations| == |s.stations|
          && t.stations[p] == station
          && (forall i | 0 <= i < |s.stations| && i != p :: t.stations[i] == s.stations[i])
        else
          // Refused: one error on the identifier field.
          && r.Failure?
          && r.error.errors == [FieldError(Some("IDENTIFIER"), Some("Invalid identifier"))]
  {
    match station.id
    case None =>
      var newId := NewIdentifier(s.idIndex);
      var size := |s.stations|;
      var added := SetId(CopyOf(station), Some(newId));
      Success(Added(Store(s.stations + [added], s.idIndex[newId := size]), [RemoveKey(newId), RemoveAt(size)]))
    case Some(id) =>
      if id in s.idIndex then
        if allowDuplicateIds then
          var position := s.idIndex[id];
          Success(Added(Store(s.stations[position := station], s.idIndex), [RestoreAt(id, s.stations[position])]))
        else
          Failure(DuplicateIdentifier)
      else
        var index := |s.stations|;
        Success(Added(Store(s.stations + [station], s.idIndex[id := index]), [RemoveKey(id), RemoveAt(index)]))
  }

  /** Appending a station under an unused identifier keeps the index invariant. */
  lemma AppendKeepsIndex(s: Store, station: Station, id: int)
    requires Wf(s) && id !in s.idIndex && station.id == Some(id)
    ensures Wf(Store(s.stations + [station], s.idIndex[id := |s.stations|]))
  {
    var t := Store(s.stations + [station], s.idIndex[id := |s.stations|]);
    forall i | 0 <= i < |t.stations|
      ensures t.stations[i].id.Some? && t.stations[i].id.value in t.idIndex && t.idIndex[t.stations[i].id.value] == i
    {
      if i < |s.stations| {
        assert t.stations[i] == s.stations[i];
      }
    }
  }

  /** Overwriting the record of an indexed identifier with one carrying that identifier keeps the index invariant. */
  lemma ReplaceKeepsIndex(s: Store, id: int, station: Station)
    requires Wf(s) && id in s.idIndex && station.id == Some(id)
    ensures Wf(Store(s.stations[s.idIndex[id] := station], s.idIndex))
  {
  }

  /** Every successful add keeps the index invariant. */
  lemma AddStationKeepsIndex(s: Store, station: Station, allowDuplicateIds: bool)
    requires Wf(s)
    ensures AddStation(s, station, allowDuplicateIds).Success? ==> Wf(AddStation(s, station, allowDuplicateIds).value.store)
  {
    match station.id
    case None =>
      AppendKeepsIndex(s, SetId(CopyOf(station), Some(NewIdentifier(s.idIndex))), NewIdentifier(s.idIndex));
    case Some(id) =>
      if id in s.idIndex {
        if allowDuplicateIds {
          ReplaceKeepsIndex(s, id, station);
        }
      } else {
        AppendKeepsIndex(s, station, id);
      }
  }

  /** Replaying an append's two undo entries, newest first, restores the state before the append. */
  lemma AppendUndone(s: Store, station: Station, id: int)
    requires id !in s.idIndex
    ensures Rollback(Store(s.stations + [station], s.idIndex[id := |s.stations|]),
                     [RemoveKey(id), RemoveAt(|s.stations|)]) == Success(s)
  {
    var size := |s.stations|;
    var appended := s.stations + [station];
    var t := Store(appended, s.idIndex[id := size]);
    var u := Store(s.stations, s.idIndex[id := size]);
    assert appended[..size] + appended[size + 1..] == s.stations by {
      assert appended[..size] == s.stations;
      assert appended[size + 1..] == [];
    }
    assert ApplyUndo(t, RemoveAt(size)) == Success(u);
    assert s.idIndex[id := size] - {id} == s.idIndex;
    assert ApplyUndo(u, RemoveKey(id)) == Success(s);
    assert Rollback(u, [RemoveKey(id)]) == Success(s) by {
      assert [RemoveKey(id)][..0] == [];
    }
    assert [RemoveKey(id), RemoveAt(size)][..1] == [RemoveKey(id)];
  }

  /** Replaying the undo entries of any successful add, newest first, restores the state before it. */
  lemma AddStationUndone(s: Store, station: Station, allowDuplicateIds: bool)
    requires Wf(s)
    requires AddStation(s, station, allowDuplicateIds).Success?
    ensures var a := AddStation(s, station, allowDuplicateIds).value;
            Rollback(a.store, a.undos) == Success(s)
  {
    match station.id
    case None =>
      AppendUndone(s, SetId(CopyOf(station), Some(NewIdentifier(s.idIndex))), NewIdentifier(s.idIndex));
    case Some(id) =>
      if id in s.idIndex {
        var p := s.idIndex[id];
        var t := Store(s.stations[p := station], s.idIndex);
        assert s.stations[p := station][p := s.stations[p]] == s.stations;
        assert ApplyUndo(t, RestoreAt(id, s.stations[p])) == Success(s);
        assert [RestoreAt(id, s.stations[p])][..0] == [];
      } else {
        AppendUndone(s, station, id);
      }
  }

  /**
   * `addStation(station)`: one add with duplicates refused. On an exception
   * the source replays the entries recorded before the throw; the only
   * throwing branch records none, so the state is untouched.
   */
  function AddOne(s: Store, station: Station): (r: Result<Store, InvalidFieldsException>)
    requires Wf(s)
    ensures r.Failure? <==> station.id.Some? && station.id.value in s.idIndex
    ensures r.Failure? ==> r.error == DuplicateIdentifier
    ensures r.Success? ==> Wf(r.value) && |r.value.stations| == |s.stations| + 1
    ensures r.Success? ==>
      // The station, or its copy under a fresh identifier, is appended and indexed at the old length.
      var added := if station.id.None? then SetId(station, Some(NewIdentifier(s.idIndex))) else station;
      r.value == Store(s.stations + [added], s.idIndex[added.id.value := |s.stations|])
  {
    AddStationKeepsIndex(s, station, false);
    match AddStation(s, station, false)
    case Success(a) => Success(a.store)
    case Failure(e) => Failure(e)
  }

  // ---------------------------------------------------------------- batch import

  /**
   * `t` is `s` with the stations of `batch` appended in list order: a station
   * with an identifier is stored as given, one without gets an identifier and
   * nothing else changes.
   */
  predicate AppendedInOrder(s: Store, batch: seq<Station>, t: Store) {
    && |t.stations| == |s.stations| + |batch|
    && t.stations[..|s.stations|] == s.stations
    && forall i | 0 <= i < |batch| ::
         && t.stations[|s.stations| + i].(id := batch[i].id) == batch[i]
         && (batch[i].id.Some? ==> t.stations[|s.stations| + i] == batch[i])
  }

  /** The station carries an identifier that `s` has already indexed. */
  predicate Indexed(s: Store, station: Station) {
    match station.id
    case Some(k) => k in s.idIndex
    case None => false
  }

  /** Appending one station and then a batch appends the station followed by the batch. */
  lemma AppendedStep(s: Store, x: Station, a: Store, rest: seq<Station>, t: Store)
    requires AppendedInOrder(s, [x], a) && AppendedInOrder(a, rest, t)
    ensures AppendedInOrder(s, [x] + rest, t)
  {
    var n := |s.stations|;
    var batch := [x] + rest;
    assert t.stations[..n] == t.stations[..n + 1][..n];
    assert t.stations[n] == t.stations[..n + 1][n] == a.stations[n];
    forall i | 0 <= i < |batch|
      ensures t.stations[n + i].(id := batch[i].id) == batch[i]
      ensures batch[i].id.Some? ==> t.stations[n + i] == batch[i]
    {
      if i > 0 {
        assert batch[i] == rest[i - 1];
        assert t.stations[n + i] == t.stations[|a.stations| + (i - 1)];
      }
    }
  }

  /** The state reached by a batch, the undo log it recorded, and the exception that stopped it, if any. */
  datatype BatchRun = BatchRun(store: Store, log: seq<Undo>, error: Option<InvalidFieldsException>)

  /**
   * The loop of `addStations`: adds the stations in order, always with
   * duplicates refused, until one throws.
   */
  function ApplyAll(s: Store, batch: seq<Station>): (r: BatchRun)
    requires Wf(s)
    ensures Wf(r.store)
    ensures r.error.None? ==> AppendedInOrder(s, batch, r.store)
    // Stopped at the first station whose identifier the state reached so far already indexes.
    ensures r.error.Some? ==>
      && r.error.value == DuplicateIdentifier
      && exists i :: 0 <= i < |batch| && AppendedInOrder(s, batch[..i], r.store) && Indexed(r.store, batch[i])
    decreases |batch|
  {
    if batch == [] then BatchRun(s, [], None)
    else
      match AddStation(s, batch[0], false)
      case Failure(e) =>
        assert AppendedInOrder(s, batch[..0], s) by {
          assert s.stations[..|s.stations|] == s.stations;
        }
        BatchRun(s, [], Some(e))
      case Success(a) =>
        AddStationKeepsIndex(s, batch[0], false);
        assert AppendedInOrder(s, [batch[0]], a.store);
        var rest := ApplyAll(a.store, batch[1..]);
        assert rest.error.Some? ==> exists i :: 0 <= i < |batch| && AppendedInOrder(s, batch[..i], rest.store) && Indexed(rest.store, batch[i]) by {
          if rest.error.Some? {
            var i :| 0 <= i < |batch[1..]| && AppendedInOrder(a.store, batch[1..][..i], rest.store) && Indexed(rest.store, batch[1..][i]);
            AppendedStep(s, batch[0], a.store, batch[1..][..i], rest.store);
            assert [batch[0]] + batch[1..][..i] == batch[..i + 1];
            assert batch[1..][i] == batch[i + 1];
          }
        }
        assert rest.error.None? ==> AppendedInOrder(s, batch, rest.store) by {
          if rest.error.None? {
            AppendedStep(s, batch[0], a.store, batch[1..], rest.store);
            assert [batch[0]] + batch[1..] == batch;
          }
        }
        BatchRun(rest.store, a.undos + rest.log, rest.error)
  }

  /** Whatever a batch does, replaying its log newest first returns the state before the batch. */
  lemma {:induction false} ApplyAllRestorable(s: Store, batch: seq<Station>)
    requires Wf(s)
    ensures Rollback(ApplyAll(s, batch).store, ApplyAll(s, batch).log) == Success(s)
    decreases |batch|
  {
    if batch != [] {
      var first := AddStation(s, batch[0], false);
      if first.Success? {
        var a := first.value;
        AddStationKeepsIndex(s, batch[0], false);
        var rest := ApplyAll(a.store, batch[1..]);
        ApplyAllRestorable(a.store, batch[1..]);
        RollbackAppend(rest.store, a.undos, rest.log, a.store);
        AddStationUndone(s, batch[0], false);
      }
    }
  }

  /** A batch of stations without identifiers never throws. */
  lemma {:induction false} NewStationsNeverFail(s: Store, batch: seq<Station>)
    requires Wf(s)
    requires forall i | 0 <= i < |batch| :: batch[i].id.None?
    ensures ApplyAll(s, batch).error.None?
  {
  }

  /**
   * `addStations(stations, allowDuplicateIds, undos)` with a fresh log, as
   * the import calls it. The duplicate flag is not passed on: every add
   * refuses duplicates. The result is the last add's, so false for a null or
   * empty list. When an add throws, the log is replayed newest entry first
   * (the source replays it oldest first; see `AsWritten`) and the exception
   * is rethrown.
   */
  function AddStations(s: Store, batch: Option<seq<Station>>, allowDuplicateIds: bool): (r: Outcome<bool>)
    requires Wf(s)
    ensures r.result.Success? ==> (r.result.value <==> batch.Some? && batch.value != [])
    ensures r.result.Success? ==> Wf(r.store) && AppendedInOrder(s, batch.GetOr([]), r.store)
  {
    var items := batch.GetOr([]);
    var run := ApplyAll(s, items);
    if run.error.None? then Outcome(run.store, Success(items != []))
    else
      match Rollback(run.store, run.log)
      case Success(restored) => Outcome(restored, Failure(InvalidFields(run.error.value)))
      case Failure(f) => Outcome(run.store, Failure(UndoFailed(f)))
  }

  /**
   * All or nothing: a batch either adds every station, or throws the
   * duplicate-identifier exception and leaves the state exactly as it was.
   * The duplicate flag makes no difference.
   */
  lemma AddStationsAllOrNothing(s: Store, batch: Option<seq<Station>>, allowDuplicateIds: bool)
    requires Wf(s)
    ensures var r := AddStations(s, batch, allowDuplicateIds);
            && Wf(r.store)
            && (r.result.Failure? ==> r.store == s && r.result.error == InvalidFields(DuplicateIdentifier))
            && r == AddStations(s, batch, !allowDuplicateIds)
  {
    ApplyAllRestorable(s, batch.GetOr([]));
  }

  // ---------------------------------------------------------------- update, delete, read

  /** The partial update: the name and language of `patch`, where given, overwrite those of `target`. */
  function Merge(target: Station, patch: Station): (r: Station)
    ensures r.name == (if patch.name.Some? then patch.name else target.name)
    ensures r.lang == (if patch.lang.Some? then patch.lang else target.lang)
    ensures r.(name := target.name, lang := target.lang) == target
  {
    var withLang := if GetLang(patch) != None then SetLang(target, GetLang(patch)) else target;
    if GetName(patch, None) != None then SetName(withLang, GetName(patch, None), None) else withLang
  }

  /**
   * `update`: an incomplete station is a partial update of an existing
   * record (refused when it has no identifier, not found when its identifier
   * is not indexed); a complete station replaces the record under its
   * identifier, or is added when it is new or its identifier is not indexed.
   */
  function Update(s: Store, station: Station): (r: Outcome<Status>)
    requires Wf(s)
    ensures IsIncomplete(station) ==> match station.id
      case None => r == Outcome(s, Success(BadRequest))
      case Some(id) =>
        if id !in s.idIndex then r == Outcome(s, Success(NotFound))
        else
          // Only the name and language of the stored record change.
          && var p := s.idIndex[id];
          && r.result == Success(Ok)
          && r.store.idIndex == s.idIndex
          && |r.store.stations| == |s.stations|
          && r.store.stations[p] == Merge(s.stations[p], station)
          && (forall i | 0 <= i < |s.stations| && i != p :: r.store.stations[i] == s.stations[i])
    ensures IsComplete(station) ==> match station.id
      // The creating branches store what `addStation(station)` stores.
      case None =>
        r.result == Success(Created) && Wf(r.store) && AddOne(s, station) == Success(r.store)
      case Some(id) =>
        if id !in s.idIndex then
          r.result == Success(Created) && Wf(r.store) && AddOne(s, station) == Success(r.store)
        else
          // The stored record is replaced in place.
          && var p := s.idIndex[id];
          && r.result == Success(Ok)
          && r.store.idIndex == s.idIndex
          && |r.store.stations| == |s.stations|
          && r.store.stations[p] == station
          && (forall i | 0 <= i < |s.stations| && i != p :: r.store.stations[i] == s.stations[i])
  {
    if IsIncomplete(station) then
      match station.id
      case None => Outcome(s, Success(BadRequest))
      case Some(id) =>
        if id in s.idIndex then
          var target := s.idIndex[id];
          Outcome(Store(s.stations[target := Merge(s.stations[target], station)], s.idIndex), Success(Ok))
        else
          Outcome(s, Success(NotFound))
    else
      match station.id
      case None => CreateStation(s, station)
      case Some(id) =>
        if id in s.idIndex then
          Outcome(Store(s.stations[s.idIndex[id] := station], s.idIndex), Success(Ok))
        else
          CreateStation(s, station)
  }

  /** The creating branches of `update`: `addStation(station)`, then the CREATED status. */
  function CreateStation(s: Store, station: Station): (r: Outcome<Status>)
    requires Wf(s)
    ensures r.result.Failure? <==> station.id.Some? && station.id.value in s.idIndex
    ensures r.result.Failure? ==> r == Outcome(s, Failure(InvalidFields(DuplicateIdentifier)))
    ensures r.result.Success? ==> r.result.value == Created && Wf(r.store) && AddOne(s, station) == Success(r.store)
  {
    match AddOne(s, station)
    case Success(t) => Outcome(t, Success(Created))
    case Failure(e) => Outcome(s, Failure(InvalidFields(e)))
  }

  /** `update` never throws, and keeps the index invariant. */
  lemma UpdateKeepsIndex(s: Store, station: Station)
    requires Wf(s)
    ensures Update(s, station).result.Success?
    ensures Wf(Update(s, station).store)
  {
    match station.id
    case None =>
    case Some(id) =>
      if id in s.idIndex {
        var p := s.idIndex[id];
        if IsIncomplete(station) {
          ReplaceKeepsIndex(s, id, Merge(s.stations[p], station));
        } else {
          ReplaceKeepsIndex(s, id, station);
        }
      }
  }

  /** A position of the list after the station at `removed` is taken out. */
  function Shift(position: nat, removed: nat): nat {
    if position > removed then position - 1 else position
  }

  /**
   * The state after deleting the indexed identifier `id`: its record leaves
   * the list, its key leaves the index, and every later position moves down by one.
   */
  function Removed(s: Store, id: int): Store
    requires id in s.idIndex && s.idIndex[id] < |s.stations|
  {
    var p := s.idIndex[id];
    Store(s.stations[..p] + s.stations[p + 1..],
          map k | k in s.idIndex && k != id :: Shift(s.idIndex[k], p))
  }

  /** Deleting an indexed identifier keeps the index invariant and every other record at its key. */
  lemma RemovedKeepsIndex(s: Store, id: int)
    requires Wf(s) && id in s.idIndex
    ensures var t := Removed(s, id);
      && Wf(t)
      && |t.stations| == |s.stations| - 1
      && t.idIndex.Keys == s.idIndex.Keys - {id}
      && (forall k | k in t.idIndex :: t.stations[t.idIndex[k]] == s.stations[s.idIndex[k]])
  {
    var p := s.idIndex[id];
    var t := Removed(s, id);
    assert |t.stations| == |s.stations| - 1;
    assert forall j | 0 <= j < |t.stations| :: t.stations[j] == s.stations[if j < p then j else j + 1];
    forall k | k in t.idIndex
      ensures t.idIndex[k] < |t.stations| && t.stations[t.idIndex[k]] == s.stations[s.idIndex[k]]
    {
      assert s.idIndex[k] != p;
    }
    forall j | 0 <= j < |t.stations|
      ensures t.stations[j].id.Some? && t.stations[j].id.value in t.idIndex && t.idIndex[t.stations[j].id.value] == j
    {
      var q := if j < p then j else j + 1;
      var v := s.stations[q].id.value;
      assert s.idIndex[v] == q;
      assert v != id;
      assert v in t.idIndex;
    }
    forall k1, k2 | k1 in t.idIndex && k2 in t.idIndex && k1 != k2
      ensures t.idIndex[k1] != t.idIndex[k2]
    {
      assert s.idIndex[k1] != p && s.idIndex[k2] != p;
    }
  }

  /**
   * `delete`: an indexed identifier loses its record and its key (NO_CONTENT);
   * any other identifier changes nothing (NOT_FOUND). The source's own removal
   * keeps the record; see `AsWritten.DeleteAsWritten`.
   */
  function Delete(s: Store, id: int): (r: Outcome<Status>)
    requires Wf(s)
    ensures Wf(r.store)
    ensures id !in s.idIndex ==> r == Outcome(s, Success(NotFound))
    ensures id in s.idIndex ==>
      && r.result == Success(NoContent)
      && |r.store.stations| == |s.stations| - 1
      && r.store.idIndex.Keys == s.idIndex.Keys - {id}
      && (forall i | 0 <= i < |r.store.stations| :: r.store.stations[i].id != Some(id))
      && (forall k | k in r.store.idIndex :: r.store.stations[r.store.idIndex[k]] == s.stations[s.idIndex[k]])
    // The survivors keep their order: later records move down by one place.
    ensures id in s.idIndex ==>
      && r.store.stations == s.stations[..s.idIndex[id]] + s.stations[s.idIndex[id] + 1..]
      && (forall k | k in r.store.idIndex :: r.store.idIndex[k] == Shift(s.idIndex[k], s.idIndex[id]))
  {
    if id in s.idIndex then
      RemovedKeepsIndex(s, id);
      Outcome(Removed(s, id), Success(NoContent))
    else
      Outcome(s, Success(NotFound))
  }

  /**
   * `readAll`: a copy of the station list in insertion order. Under the
   * invariant its identifiers are exactly the indexed ones.
   */
  function ReadAll(s: Store): (r: seq<Station>)
    ensures |r| == |s.stations| && forall i | 0 <= i < |r| :: r[i] == s.stations[i]
    ensures Wf(s) ==> forall k :: k in s.idIndex <==> exists i :: 0 <= i < |r| && r[i].id == Some(k)
  {
    var copy := s.stations[..];
    assert Wf(s) ==> forall k | k in s.idIndex :: copy[s.idIndex[k]].id == Some(k);
    copy
  }

  /** An empty controller gives its first station without an identifier the identifier 1. */
  lemma FirstStationGetsIdentifierOne(station: Station)
    requires station.id.None?
    ensures var r := AddStation(EmptyStore, station, false);
      && r.Success?
      && ReadAll(r.value.store) == [SetId(station, Some(1))]
      && r.value.store.idIndex == map[1 := 0]
  {
  }
}
