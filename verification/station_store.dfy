/**
 * The state of the station controller and the undo log its adds record
 * (controllers/StationController.java).
 *
 * The state is the station list together with `idIndex`, the map from a
 * station identifier to the station's position in the list. The source
 * records each add's inverse as a closure; here each inverse is an `Undo`
 * value, and replaying a log is a function over the state.
 */
module StationStore {
  import opened Wrappers
  import opened Stations

  datatype Store = Store(stations: seq<Station>, idIndex: map<int, nat>)

  /** The state the model starts from: no stations, no identifiers. */
  const EmptyStore: Store := Store([], map[])

  /** Every indexed identifier points at a stored station carrying that identifier. */
  predicate IndexSound(s: Store) {
    forall k {:trigger s.idIndex[k]} | k in s.idIndex :: s.idIndex[k] < |s.stations| && s.stations[s.idIndex[k]].id == Some(k)
  }

  /** No two identifiers share a position. */
  predicate PositionsDistinct(s: Store) {
    forall k1, k2 | k1 in s.idIndex && k2 in s.idIndex && k1 != k2 :: s.idIndex[k1] != s.idIndex[k2]
  }

  /** Every stored station carries an identifier, indexed at the station's own position. */
  predicate IndexComplete(s: Store) {
    forall i | 0 <= i < |s.stations| ::
      s.stations[i].id.Some? && s.stations[i].id.value in s.idIndex && s.idIndex[s.stations[i].id.value] == i
  }

  /** The index invariant every operation of the controller keeps. */
  predicate Wf(s: Store) {
    IndexSound(s) && PositionsDistinct(s) && IndexComplete(s)
  }

  /** Under the invariant, no two stored stations share an identifier, and the index is as large as the list. */
  lemma {:induction false} IdentifiersUnique(s: Store)
    requires Wf(s)
    ensures forall i, j :: 0 <= i < j < |s.stations| ==> s.stations[i].id != s.stations[j].id
    ensures s.idIndex.Keys == set i | 0 <= i < |s.stations| :: s.stations[i].id.value
  {
    forall i, j | 0 <= i < j < |s.stations|
      ensures s.stations[i].id != s.stations[j].id
    {
      assert s.idIndex[s.stations[i].id.value] == i;
      assert s.idIndex[s.stations[j].id.value] == j;
    }
    forall k | k in s.idIndex
      ensures k in set i | 0 <= i < |s.stations| :: s.stations[i].id.value
    {
      var i := s.idIndex[k];
      assert s.stations[i].id.value == k;
    }
  }

  /** The inverse of one step of an add, as recorded in the undo log. */
  datatype Undo =
    | RemoveKey(key: int)                       // `ids.remove(newId)`
    | RemoveAt(index: nat)                      // `list.remove(index)`: positional removal
    | RestoreAt(key: int, previous: Station)    // `stations.set(idIndex.get(key), previous)`

  /** The runtime exceptions replaying an undo can throw. */
  datatype Fault =
    | IndexOutOfBounds(index: int)   // `List.remove(int)` or `List.set` past the end
    | NullPosition(key: int)         // `idIndex.get(key)` is null and is unboxed

  /**
   * Runs one undo entry against the state. Dropping a key always succeeds;
   * a positional removal needs the position inside the list; a restore needs
   * the key indexed at a position inside the list.
   */
  function ApplyUndo(s: Store, u: Undo): (r: Result<Store, Fault>)
    ensures u.RemoveKey? ==> r == Success(Store(s.stations, s.idIndex - {u.key}))
    ensures u.RemoveAt? ==> (r.Success? <==> u.index < |s.stations|)
    ensures u.RemoveAt? && r.Failure? ==> r.error == IndexOutOfBounds(u.index)
    ensures u.RemoveAt? && r.Success? ==>
      // The record at the position leaves; later ones move down; the index is untouched.
      && r.value.idIndex == s.idIndex
      && |r.value.stations| == |s.stations| - 1
      && (forall i | 0 <= i < |r.value.stations| :: r.value.stations[i] == s.stations[if i < u.index then i else i + 1])
    ensures u.RestoreAt? ==> (r.Success? <==> u.key in s.idIndex && s.idIndex[u.key] < |s.stations|)
    ensures u.RestoreAt? && u.key !in s.idIndex ==> r == Failure(NullPosition(u.key))
    ensures u.RestoreAt? && r.Success? ==>
      // Only the record at the key's position changes, back to the saved one.
      && r.value.idIndex == s.idIndex
      && |r.value.stations| == |s.stations|
      && r.value.stations[s.idIndex[u.key]] == u.previous
      && (forall i | 0 <= i < |s.stations| && i != s.idIndex[u.key] :: r.value.stations[i] == s.stations[i])
  {
    match u
    case RemoveKey(k) =>
      Success(Store(s.stations, s.idIndex - {k}))
    case RemoveAt(i) =>
      if i < |s.stations| then Success(Store(s.stations[..i] + s.stations[i + 1..], s.idIndex))
      else Failure(IndexOutOfBounds(i))
    case RestoreAt(k, previous) =>
      if k !in s.idIndex then Failure(NullPosition(k))
      else if s.idIndex[k] < |s.stations| then Success(Store(s.stations[s.idIndex[k] := previous], s.idIndex))
      else Failure(IndexOutOfBounds(s.idIndex[k]))
  }

  /** The number of positional removals in a log, counted from its newest entry. */
  function Removals(log: seq<Undo>): nat
    decreases |log|
  {
    if log == [] then 0
    else Removals(log[..|log| - 1]) + (if log[|log| - 1].RemoveAt? then 1 else 0)
  }

  /**
   * Replays a log newest entry first, stopping at the first fault. A
   * completed replay only drops keys and shortens the list by one per
   * positional removal.
   */
  function Rollback(s: Store, log: seq<Undo>): (r: Result<Store, Fault>)
    ensures log == [] ==> r == Success(s)
    ensures r.Success? ==> r.value.idIndex.Keys <= s.idIndex.Keys
    ensures r.Success? ==> |r.value.stations| + Removals(log) == |s.stations|
    decreases |log|
  {
    if log == [] then Success(s)
    else
      match ApplyUndo(s, log[|log| - 1])
      case Failure(f) => Failure(f)
      case Success(t) => Rollback(t, log[..|log| - 1])
  }

  /**
   * Replaying `a + b` newest first replays `b`, then `a`: a log built in
   * steps can be undone step by step.
   */
  lemma {:induction false} RollbackAppend(s: Store, a: seq<Undo>, b: seq<Undo>, t: Store)
    requires Rollback(s, b) == Success(t)
    ensures Rollback(s, a + b) == Rollback(t, a)
    decreases |b|
  {
    if b == [] {
      assert a + b == a;
    } else {
      var ab := a + b;
      assert ab[|ab| - 1] == b[|b| - 1];
      assert ab[..|ab| - 1] == a + b[..|b| - 1];
      var u := ApplyUndo(s, b[|b| - 1]);
      RollbackAppend(u.value, a, b[..|b| - 1], t);
    }
  }
}
