/**
  The state the sync engine works on, as a value: the destination's
  records, the local index of assignments by person, and the collected
  warnings. The engine's writes (create, update, delete, split) each go to
  the destination and then to the index, as createAssignment,
  updateAssignment, deleteAssignment and splitAssignment do.
 */
module Engine {

  import opened Wrappers
  import opened Dates
  import opened Assignments
  import opened Forecast
  import opened Windows
  import opened Warnings

  datatype World = World(store: Store, index: Index, warnings: seq<Warning>)

  /**
    The index mirrors the destination: each person's list has one
    assignment per id, and every indexed assignment is filed under its own
    person and equals the destination's record with its id.
   */
  ghost predicate IndexMirrors(records: map<int, Assignment>, index: Index)
  {
    && (forall p :: p in index ==> UniqueIds(index[p]))
    && (forall p, x :: p in index && x in index[p] ==>
          x.personId == p && x.id in records && records[x.id] == x)
  }

  ghost predicate WorldValid(w: World)
  {
    && StoreValid(w.store)
    && IndexMirrors(w.store.records, w.index)
    && NoDuplicates(w.warnings)
  }

  /** updateLocalAssignments: file the assignment under its person and id. */
  function UpdateLocal(index: Index, a: Assignment): Index
  {
    index[a.personId := Upsert(Lookup(index, a.personId), a)]
  }

  /**
    The index part of deleteAssignment: the id is unset from the list
    holding it. With at most one list holding a given id, as IndexMirrors
    guarantees, this is the source's "first list that has the id".
   */
  function RemoveId(index: Index, id: int): Index
  {
    map p | p in index :: Unset(index[p], id)
  }

  function Warn(w: World, x: Warning): World
  {
    w.(warnings := AddDistinct(w.warnings, x))
  }

  /** createAssignment: post a record with a fresh id, index it, and return it. */
  function CreateW(w: World, personId: int, projectId: int, startDate: Day, endDate: Day, allocation: int): (World, Assignment)
  {
    var a := NewAssignment(w.store, personId, projectId, startDate, endDate, allocation);
    (w.(store := Post(w.store, a), index := UpdateLocal(w.index, a)), a)
  }

  /** updateAssignment: overwrite the record with the assignment's id, and index it. */
  function UpdateW(w: World, a: Assignment): World
  {
    w.(store := Put(w.store, a), index := UpdateLocal(w.index, a))
  }

  /** deleteAssignment: remove the record and its index entry. */
  function DeleteW(w: World, id: int): World
  {
    w.(store := Delete(w.store, id), index := RemoveId(w.index, id))
  }

  /**
    splitAssignment on a multi-day assignment: update it with its new
    bounds and, for a split inside it, create the assignment after the
    split day with the same person, project and allocation.
   */
  function SplitW(w: World, a: Assignment, splitOn: Day): World
  {
    var plan := SplitPieces(a, splitOn);
    var updated := UpdateW(w, plan.updated);
    match plan.tail
    case None => updated
    case Some(t) => CreateW(updated, a.personId, a.projectId, t.0, t.1, a.allocation).0
  }

  // ----- the index stays a mirror of the destination -----

  /**
    Filing an assignment whose person agrees with the record it replaces
    keeps the index a mirror of the records with that assignment stored,
    changes only that person's list, and puts the assignment in it.
   */
  lemma UpdateLocalMirrors(records: map<int, Assignment>, index: Index, a: Assignment)
    requires IndexMirrors(records, index)
    requires a.id in records ==> records[a.id].personId == a.personId
    ensures IndexMirrors(records[a.id := a], UpdateLocal(index, a))
    ensures a in Lookup(UpdateLocal(index, a), a.personId)
    ensures forall p :: p != a.personId ==> Lookup(UpdateLocal(index, a), p) == Lookup(index, p)
  {
    var s := Lookup(index, a.personId);
    var r := UpdateLocal(index, a);
    var records' := records[a.id := a];
    UpsertContents(s, a);
    assert UniqueIds(s) by {
      if a.personId !in index { assert s == []; }
    }
    forall p: int, x: Assignment | p in r && x in r[p] ensures x.personId == p && x.id in records' && records'[x.id] == x {
      if p == a.personId {
        if x != a {
          assert x in s && x.id != a.id;
          assert a.personId in index;
        }
      } else {
        assert p in index && x in index[p];
      }
    }
  }

  /** Unsetting an id keeps the index a mirror of the records without it, and only that id goes. */
  lemma RemoveIdMirrors(records: map<int, Assignment>, index: Index, id: int)
    requires IndexMirrors(records, index)
    ensures IndexMirrors(records - {id}, RemoveId(index, id))
    ensures forall p, x :: p in index && x in index[p] ==> (x in Lookup(RemoveId(index, id), p) <==> x.id != id)
  {
  }

  /**
    Unsetting an id keeps every list in its order: what findAssignmentOnDate
    finds for any person is unchanged unless it was the record with that id.
   */
  lemma RemoveIdKeepsFirstMatch(index: Index, id: int, personId: int, projectId: int, date: Day)
    requires var found := FindOnDate(Lookup(index, personId), projectId, date);
      found.None? || found.value.id != id
    ensures FindOnDate(Lookup(RemoveId(index, id), personId), projectId, date)
         == FindOnDate(Lookup(index, personId), projectId, date)
  {
    UnsetKeepsFirstMatch(Lookup(index, personId), id, projectId, date);
  }

  /** A mirrored id is held by the list of one person only: the person of its record. */
  lemma HolderIsOwner(records: map<int, Assignment>, index: Index, id: int, p: int)
    requires IndexMirrors(records, index)
    requires p in index && HasId(index[p], id)
    ensures id in records && records[id].personId == p
  {
  }

  /** Unsetting a mirrored id touches only the list of the person holding it. */
  lemma RemoveIdAt(records: map<int, Assignment>, index: Index, id: int, p: int)
    requires IndexMirrors(records, index)
    requires p in index && HasId(index[p], id)
    ensures RemoveId(index, id) == index[p := Unset(index[p], id)]
  {
    forall q | q in index && q != p ensures Unset(index[q], id) == index[q] {
      if HasId(index[q], id) {
        HolderIsOwner(records, index, id, p);
        HolderIsOwner(records, index, id, q);
      }
    }
  }

  /** Unsetting an id no list holds changes nothing. */
  lemma RemoveIdAbsent(index: Index, id: int)
    requires forall p :: p in index ==> !HasId(index[p], id)
    ensures RemoveId(index, id) == index
  {
    assert forall p :: p in index ==> RemoveId(index, id)[p] == index[p];
  }

  /** Creating posts a fresh record, files it under its person, and keeps the state valid. */
  lemma CreateWValid(w: World, personId: int, projectId: int, startDate: Day, endDate: Day, allocation: int)
    requires WorldValid(w)
    ensures var (w', a) := CreateW(w, personId, projectId, startDate, endDate, allocation);
      && WorldValid(w')
      && a.id !in w.store.records
      && w'.store.records == w.store.records[a.id := a]
      && a == Assignment(a.id, personId, projectId, startDate, endDate, allocation)
      && a in Lookup(w'.index, personId)
      && w'.warnings == w.warnings
  {
    var a := NewAssignment(w.store, personId, projectId, startDate, endDate, allocation);
    WritesKeepStoreValid(w.store, a, a.id, personId, projectId, startDate, endDate, allocation);
    UpdateLocalMirrors(w.store.records, w.index, a);
  }

  /**
    Updating a stored assignment without moving it to another person keeps
    the state valid; the record and its index entry become the assignment.
   */
  lemma UpdateWValid(w: World, a: Assignment)
    requires WorldValid(w)
    requires a.id in w.store.records && w.store.records[a.id].personId == a.personId
    ensures WorldValid(UpdateW(w, a))
    ensures UpdateW(w, a).store.records == w.store.records[a.id := a]
    ensures a in Lookup(UpdateW(w, a).index, a.personId)
  {
    WritesKeepStoreValid(w.store, a, a.id, 0, 0, 0, 0, 0);
    UpdateLocalMirrors(w.store.records, w.index, a);
  }

  /** Deleting keeps the state valid; only the record with the id is gone. */
  lemma DeleteWValid(w: World, id: int)
    requires WorldValid(w)
    ensures WorldValid(DeleteW(w, id))
    ensures DeleteW(w, id).store.records == w.store.records - {id}
  {
    WritesKeepStoreValid(w.store, Assignment(id, 0, 0, 0, 0, 0), id, 0, 0, 0, 0, 0);
    RemoveIdMirrors(w.store.records, w.index, id);
  }

  /**
    Splitting a stored assignment keeps the state valid. The record keeps
    its id with the plan's bounds, a created record (if any) holds the
    plan's tail, and every other record is unchanged.
   */
  lemma SplitWValid(w: World, a: Assignment, splitOn: Day)
    requires WorldValid(w)
    requires a.id in w.store.records && w.store.records[a.id].personId == a.personId
    ensures var w', plan := SplitW(w, a, splitOn), SplitPieces(a, splitOn);
      && WorldValid(w')
      && w'.store.records[a.id] == plan.updated
      && (forall id :: id in w.store.records && id != a.id ==>
            id in w'.store.records && w'.store.records[id] == w.store.records[id])
      && (forall id :: id in w'.store.records && id !in w.store.records ==>
            plan.tail.Some? && w'.store.records[id] ==
              Assignment(id, a.personId, a.projectId, plan.tail.value.0, plan.tail.value.1, a.allocation))
      && w'.warnings == w.warnings
  {
    var plan := SplitPieces(a, splitOn);
    UpdateWValid(w, plan.updated);
    var u := UpdateW(w, plan.updated);
    if plan.tail.Some? {
      var t := plan.tail.value;
      CreateWValid(u, a.personId, a.projectId, t.0, t.1, a.allocation);
    }
  }

  /** An assignment found in a valid index for a person is that person's stored record. */
  lemma FoundIsStored(w: World, personId: int, projectId: int, date: Day)
    requires WorldValid(w)
    ensures var found := FindOnDate(Lookup(w.index, personId), projectId, date);
      found.Some? ==>
        && found.value.id in w.store.records
        && w.store.records[found.value.id] == found.value
        && found.value.personId == personId
        && CoversDay(found.value, projectId, date)
  {
    var found := FindOnDate(Lookup(w.index, personId), projectId, date);
    if found.Some? {
      assert personId in w.index && found.value in w.index[personId];
    }
  }

  /**
    The index loadAssignments builds mirrors the destination, and holds,
    under its person, every well-formed record that meets the range.
   */
  lemma LoadedIndexMirrors(st: Store, from: Day, upTo: Day)
    requires StoreValid(st)
    ensures var index := GroupAssignmentsByUser(FetchAll(st, RangeWindows(from, upTo)));
      && IndexMirrors(st.records, index)
      && forall id :: id in st.records && Overlaps(st.records[id], from, upTo) ==>
           (st.records[id].startDate <= st.records[id].endDate ==> st.records[id] in Lookup(index, st.records[id].personId))
  {
    FetchedRange(st, from, upTo);
  }
}
