/**
 * Three places where controllers/StationController.java and
 * model/Station.java do something other than what they evidently intend,
 * modelled as written, each with an input that shows the difference. The
 * rest of the model uses the intended behaviour (`StationController`).
 */
module AsWritten {
  import opened Wrappers
  import opened Stations
  import opened FieldErrors
  import opened StationStore
  import opened StationController

  // ---------------------------------------------------------------- undo order

  /**
   * The source's rollback: `undos.pop()` takes the OLDEST entry of the
   * `LinkedList` first, while the entries were appended with `add`.
   */
  function RollbackOldestFirst(s: Store, log: seq<Undo>): (r: Result<Store, Fault>)
    ensures log == [] ==> r == Success(s)
    ensures r.Success? ==> r.value.idIndex.Keys <= s.idIndex.Keys
    ensures r.Success? ==> |r.value.stations| <= |s.stations|
    decreases |log|
  {
    if log == [] then Success(s)
    else
      match ApplyUndo(s, log[0])
      case Failure(f) => Failure(f)
      case Success(t) => RollbackOldestFirst(t, log[1..])
  }

  /** A log in reverse order: what `pop` would have met had the entries been pushed rather than added. */
  function Reversed(log: seq<Undo>): (r: seq<Undo>)
    ensures |r| == |log|
    decreases |log|
  {
    if log == [] then [] else [log[|log| - 1]] + Reversed(log[..|log| - 1])
  }

  /**
   * The corrected replay is the source's oldest-first replay of the reversed
   * log: the two differ only in the order in which the entries are met.
   */
  lemma {:induction false} NewestFirstIsReversedOldestFirst(s: Store, log: seq<Undo>)
    ensures Rollback(s, log) == RollbackOldestFirst(s, Reversed(log))
    decreases |log|
  {
    if log != [] {
      var rev := Reversed(log);
      assert rev[0] == log[|log| - 1];
      assert rev[1..] == Reversed(log[..|log| - 1]);
      match ApplyUndo(s, log[|log| - 1])
      case Failure(_) =>
      case Success(t) => NewestFirstIsReversedOldestFirst(t, log[..|log| - 1]);
    }
  }

  /** `addStations` as written: the same adds, rolled back oldest entry first. */
  function AddStationsAsWritten(s: Store, batch: Option<seq<Station>>, allowDuplicateIds: bool): (r: Outcome<bool>)
    requires Wf(s)
    ensures r.result.Success? ==> r == AddStations(s, batch, allowDuplicateIds)
  {
    var items := batch.GetOr([]);
    var run := ApplyAll(s, items);
    if run.error.None? then Outcome(run.store, Success(items != []))
    else
      match RollbackOldestFirst(run.store, run.log)
      case Success(restored) => Outcome(restored, Failure(InvalidFields(run.error.value)))
      case Failure(f) => Outcome(run.store, Failure(UndoFailed(f)))
  }

  /** A station carrying only an identifier. */
  function Bare(id: int): Station {
    NewStation(Some(id), None, None)
  }

  /** The first two adds of the example import: each appends and indexes its station. */
  lemma ImportFirstSteps()
    ensures AddStation(EmptyStore, Bare(5), false)
            == Success(Added(Store([Bare(5)], map[5 := 0]), [RemoveKey(5), RemoveAt(0)]))
    ensures Wf(Store([Bare(5)], map[5 := 0]))
    ensures AddStation(Store([Bare(5)], map[5 := 0]), Bare(6), false)
            == Success(Added(Store([Bare(5), Bare(6)], map[5 := 0, 6 := 1]), [RemoveKey(6), RemoveAt(1)]))
    ensures Wf(Store([Bare(5), Bare(6)], map[5 := 0, 6 := 1]))
  {
    assert Bare(5).id == Some(5) && Bare(6).id == Some(6);
    assert EmptyStore.stations + [Bare(5)] == [Bare(5)];
    assert EmptyStore.idIndex[5 := 0] == map[5 := 0];
    assert [Bare(5)] + [Bare(6)] == [Bare(5), Bare(6)];
    assert map[5 := 0][6 := 1] == map[5 := 0, 6 := 1];
  }

  /** The undo log of importing 5, 6 and 5 again into an empty controller: the third add is refused. */
  lemma ImportLogExample()
    ensures ApplyAll(EmptyStore, [Bare(5), Bare(6), Bare(5)])
            == BatchRun(Store([Bare(5), Bare(6)], map[5 := 0, 6 := 1]),
                        [RemoveKey(5), RemoveAt(0), RemoveKey(6), RemoveAt(1)],
                        Some(DuplicateIdentifier))
  {
    var batch := [Bare(5), Bare(6), Bare(5)];
    var s1 := Store([Bare(5)], map[5 := 0]);
    var s2 := Store([Bare(5), Bare(6)], map[5 := 0, 6 := 1]);
    ImportFirstSteps();
    assert Bare(5).id == Some(5);
    assert AddStation(s2, Bare(5), false) == Failure(DuplicateIdentifier);
    assert ApplyAll(s2, [Bare(5)]) == BatchRun(s2, [], Some(DuplicateIdentifier));
    assert [Bare(6), Bare(5)][1..] == [Bare(5)];
    assert ApplyAll(s1, [Bare(6), Bare(5)]) == BatchRun(s2, [RemoveKey(6), RemoveAt(1)], Some(DuplicateIdentifier));
    assert batch[1..] == [Bare(6), Bare(5)];
  }

  /**
   * Replaying that log oldest first: key 5 goes, position 0 goes, key 6
   * goes, and position 1 of a one-element list is asked for.
   */
  lemma OldestFirstExample()
    ensures RollbackOldestFirst(Store([Bare(5), Bare(6)], map[5 := 0, 6 := 1]),
                                [RemoveKey(5), RemoveAt(0), RemoveKey(6), RemoveAt(1)])
            == Failure(IndexOutOfBounds(1))
  {
    var log := [RemoveKey(5), RemoveAt(0), RemoveKey(6), RemoveAt(1)];
    var o1 := Store([Bare(5), Bare(6)], map[6 := 1]);
    var o2 := Store([Bare(6)], map[6 := 1]);
    var o3 := Store([Bare(6)], map[]);
    assert map[5 := 0, 6 := 1] - {5} == map[6 := 1];
    assert [Bare(5), Bare(6)][..0] + [Bare(5), Bare(6)][1..] == [Bare(6)];
    assert map[6 := 1] - {6} == map[];
    assert log[1..] == [RemoveAt(0), RemoveKey(6), RemoveAt(1)];
    assert log[2..] == [RemoveKey(6), RemoveAt(1)] && log[3..] == [RemoveAt(1)];
    assert RollbackOldestFirst(o3, [RemoveAt(1)]) == Failure(IndexOutOfBounds(1));
    assert RollbackOldestFirst(o2, log[2..]) == Failure(IndexOutOfBounds(1)) by {
      assert log[2..][1..] == log[3..];
    }
    assert RollbackOldestFirst(o1, log[1..]) == Failure(IndexOutOfBounds(1)) by {
      assert log[1..][1..] == log[2..];
    }
  }

  /**
   * Importing stations 5, 6 and 5 again into an empty controller: rolled
   * back oldest first, the replay throws and the duplicate error is lost;
   * rolled back newest first, the controller is empty again and the
   * duplicate error is rethrown.
   */
  lemma UndoOrderCounterexample()
    ensures AddStationsAsWritten(EmptyStore, Some([Bare(5), Bare(6), Bare(5)]), false).result
            == Failure(UndoFailed(IndexOutOfBounds(1)))
    ensures AddStations(EmptyStore, Some([Bare(5), Bare(6), Bare(5)]), false)
            == Outcome(EmptyStore, Failure(InvalidFields(DuplicateIdentifier)))
  {
    ImportLogExample();
    OldestFirstExample();
    AddStationsAllOrNothing(EmptyStore, Some([Bare(5), Bare(6), Bare(5)]), false);
  }

  // ---------------------------------------------------------------- delete

  /**
   * `delete` as written: `stations.remove(idIndex.get(id))` passes an
   * `Integer`, so `List.remove(Object)` is chosen; no station equals an
   * `Integer` and the list is left as it was. Only the key is dropped.
   */
  function DeleteAsWritten(s: Store, id: int): (r: Outcome<Status>)
    ensures r.store.stations == s.stations
    ensures id !in r.store.idIndex
    ensures id in s.idIndex ==> r == Outcome(Store(s.stations, s.idIndex - {id}), Success(NoContent))
    ensures id !in s.idIndex ==> r == Outcome(s, Success(NotFound))
  {
    if id in s.idIndex then Outcome(Store(s.stations, s.idIndex - {id}), Success(NoContent))
    else Outcome(s, Success(NotFound))
  }

  /**
   * Deleting the only station, 1, as written: the record stays with no key,
   * the index invariant is broken, and the next fresh identifier is 1 again,
   * the identifier of the record still stored. The intended delete empties
   * the controller.
   */
  lemma DeleteCounterexample()
    ensures var s := Store([Bare(1)], map[1 := 0]);
      && Wf(s)
      && var t := DeleteAsWritten(s, 1).store;
      && !Wf(t)
      && NewIdentifier(t.idIndex) == 1 && t.stations[0].id == Some(1)
      && Delete(s, 1) == Outcome(EmptyStore, Success(NoContent))
  {
    var s := Store([Bare(1)], map[1 := 0]);
    assert s.idIndex - {1} == map[];
    var r := Removed(s, 1);
    assert r.stations == [];
    assert r.idIndex == map[];
  }

  // ---------------------------------------------------------------- copy constructor

  /**
   * `new Station(another)` as written: `setFields` copies the identifier and
   * the four maps but never the name or the language, which stay null.
   */
  function CopyAsWritten(another: Station): (r: Station)
    ensures r.id == another.id && r.names == another.names && r.address == another.address
    ensures r.city == another.city && r.operatorName == another.operatorName
    ensures r.name == None && r.lang == None
  {
    Station(another.id, None, None, another.names, another.address, another.city, another.operatorName)
  }

  /**
   * Adding "Kamppi" in Finnish without an identifier stores it nameless when
   * copied as written; the intended copy keeps the name and language.
   */
  lemma CopyCounterexample()
    ensures var kamppi := Station(None, Some("Kamppi"), Some("fi"), [], [], [], []);
      && CopyAsWritten(kamppi).name != kamppi.name
      && CopyAsWritten(kamppi).lang != kamppi.lang
      && CopyOf(kamppi) == kamppi
  {
  }
}
