/**
  The destination system's assignment records, standing in for the calls
  the source makes to the Forecast API client: a store of records by id
  that hands out fresh ids on creation, overwrites by id on update, removes
  by id on deletion, and answers window queries.
 */
module Forecast {

  import opened Dates
  import opened Assignments

  /** The records by id, and the id the next created record receives. */
  datatype Store = Store(records: map<int, Assignment>, nextId: int)

  /** Every record is filed under its own id. */
  ghost predicate KeyedById(records: map<int, Assignment>)
  {
    forall id :: id in records ==> records[id].id == id
  }

  /** Records are filed under their ids, and every id lies in [0, counter). */
  ghost predicate StoreValid(st: Store)
  {
    && 0 <= st.nextId
    && KeyedById(st.records)
    && forall id :: id in st.records ==> 0 <= id < st.nextId
  }

  /** The record postAssignment returns: the fields sent, under the next id. */
  function NewAssignment(st: Store, personId: int, projectId: int, startDate: Day, endDate: Day, allocation: int): (a: Assignment)
    ensures StoreValid(st) ==> a.id !in st.records
  {
    Assignment(st.nextId, personId, projectId, startDate, endDate, allocation)
  }

  /** postAssignment: the new record is stored and the counter moves on. */
  function Post(st: Store, a: Assignment): Store
  {
    Store(st.records[a.id := a], st.nextId + 1)
  }

  /** putAssignment: the record with the same id is replaced. */
  function Put(st: Store, a: Assignment): Store
  {
    st.(records := st.records[a.id := a])
  }

  /** deleteAssignment: the record with the id is removed. */
  function Delete(st: Store, id: int): Store
  {
    st.(records := st.records - {id})
  }

  /** The three writes keep the store valid. */
  lemma WritesKeepStoreValid(st: Store, a: Assignment, id: int,
                             personId: int, projectId: int, startDate: Day, endDate: Day, allocation: int)
    requires StoreValid(st)
    ensures StoreValid(Post(st, NewAssignment(st, personId, projectId, startDate, endDate, allocation)))
    ensures a.id in st.records ==> StoreValid(Put(st, a))
    ensures StoreValid(Delete(st, id))
  {
  }

  /** The assignment's interval meets the window [from, to]. */
  predicate Overlaps(a: Assignment, from: Day, to: Day)
  {
    a.startDate <= to && a.endDate >= from
  }

  /** Every listed assignment is a record of the store, with an id in [lo, hi), that meets the window. */
  ghost predicate FromWindow(r: seq<Assignment>, records: map<int, Assignment>, lo: int, hi: int, from: Day, to: Day)
  {
    forall x :: x in r ==> x.id in records && records[x.id] == x && lo <= x.id < hi && Overlaps(x, from, to)
  }

  /** The records with ids in [lo, hi) that meet the window, in ascending id order. */
  function RecordsBetween(records: map<int, Assignment>, lo: int, hi: int, from: Day, to: Day): (r: seq<Assignment>)
    requires KeyedById(records)
    ensures FromWindow(r, records, lo, hi, from, to)
    ensures forall id :: lo <= id < hi && id in records && Overlaps(records[id], from, to) ==> records[id] in r
    decreases hi - lo
  {
    if lo >= hi then []
    else
      var rest := RecordsBetween(records, lo + 1, hi, from, to);
      if lo in records && Overlaps(records[lo], from, to) then [records[lo]] + rest else rest
  }

  /** getAssignments(from, to): every record whose interval meets [from, to]. */
  function Query(st: Store, from: Day, to: Day): (r: seq<Assignment>)
    requires StoreValid(st)
    ensures forall x :: x in r ==> x.id in st.records && st.records[x.id] == x && Overlaps(x, from, to)
    ensures forall id :: id in st.records && Overlaps(st.records[id], from, to) ==> st.records[id] in r
  {
    RecordsBetween(st.records, 0, st.nextId, from, to)
  }

  /** The destination's API client, as the engine sees it: one mutable store. */
  class ForecastStore {
    var records: map<int, Assignment>
    var nextId: int

    function State(): Store
      reads this
    {
      Store(records, nextId)
    }

    ghost predicate Valid()
      reads this
    {
      StoreValid(State())
    }

    constructor (initial: Store)
      requires StoreValid(initial)
      ensures Valid() && State() == initial
    {
      records, nextId := initial.records, initial.nextId;
    }

    /** postAssignment: creates a record with a fresh id and returns it as stored. */
    method PostAssignment(personId: int, projectId: int, startDate: Day, endDate: Day, allocation: int)
      returns (a: Assignment)
      requires Valid()
      modifies this
      ensures Valid()
      ensures a == NewAssignment(old(State()), personId, projectId, startDate, endDate, allocation)
      ensures State() == Post(old(State()), a)
    {
      a := Assignment(nextId, personId, projectId, startDate, endDate, allocation);
      records := records[a.id := a];
      nextId := nextId + 1;
    }

    /** putAssignment: replaces the record with the same id; the API refuses an unknown id. */
    method PutAssignment(a: Assignment) returns (stored: Assignment)
      requires Valid() && a.id in records
      modifies this
      ensures Valid()
      ensures stored == a && State() == Put(old(State()), a)
    {
      records := records[a.id := a];
      stored := a;
    }

    /** deleteAssignment: removes the record with the id. */
    method DeleteAssignment(id: int)
      requires Valid()
      modifies this
      ensures Valid()
      ensures State() == Delete(old(State()), id)
    {
      records := records - {id};
    }

    /** getAssignments: the records that meet the window [from, to]. */
    method GetAssignments(from: Day, to: Day) returns (r: seq<Assignment>)
      requires Valid()
      ensures r == Query(State(), from, to)
    {
      r := RecordsBetween(records, 0, nextId, from, to);
    }
  }
}

/**
  The windows loadAssignments queries: the range itself when it spans at
  most 180 days, otherwise 180-day windows from the start, each starting
  where the previous one ended, until one reaches the end of the range.
 */
module Windows {

  import opened Dates
  import opened Assignments
  import opened Forecast

  const WindowDays := 180

  /** `$from->diff($to)->days`: the number of days between the two dates, in either order. */
  function DaysBetween(from: Day, upTo: Day): nat
  {
    if upTo >= from then upTo - from else from - upTo
  }

  /** The cursor loop: windows [c, c + 180] until one ends on or after `upTo`. */
  function Chunks(c: Day, upTo: Day): seq<(Day, Day)>
    decreases upTo - c
  {
    if c + WindowDays >= upTo then [(c, c + WindowDays)]
    else [(c, c + WindowDays)] + Chunks(c + WindowDays, upTo)
  }

  /**
    The windows start at the cursor, each spans 180 days and starts where
    the one before ends, and the last one reaches `upTo`.
   */
  lemma {:induction false} ChunksShape(c: Day, upTo: Day)
    ensures |Chunks(c, upTo)| > 0 && Chunks(c, upTo)[0] == (c, c + WindowDays)
    ensures Chunks(c, upTo)[|Chunks(c, upTo)| - 1].1 >= upTo
    ensures forall k :: 0 <= k < |Chunks(c, upTo)| ==> Chunks(c, upTo)[k].1 == Chunks(c, upTo)[k].0 + WindowDays
    ensures forall k :: 0 < k < |Chunks(c, upTo)| ==> Chunks(c, upTo)[k].0 == Chunks(c, upTo)[k - 1].1
    decreases upTo - c
  {
    if c + WindowDays < upTo {
      ChunksShape(c + WindowDays, upTo);
      var ws, rest := Chunks(c, upTo), Chunks(c + WindowDays, upTo);
      assert ws == [(c, c + WindowDays)] + rest;
      assert ws[|ws| - 1] == rest[|rest| - 1];
      forall k | 0 <= k < |ws| ensures ws[k].1 == ws[k].0 + WindowDays {
        if k > 0 { assert ws[k] == rest[k - 1]; }
      }
      forall k | 0 < k < |ws| ensures ws[k].0 == ws[k - 1].1 {
        if k > 1 { assert ws[k] == rest[k - 1] && ws[k - 1] == rest[k - 2]; }
      }
    }
  }

  function RangeWindows(from: Day, upTo: Day): seq<(Day, Day)>
  {
    if DaysBetween(from, upTo) > WindowDays then Chunks(from, upTo) else [(from, upTo)]
  }

  /** The query results of the windows, concatenated in order (`array_merge`). */
  function FetchAll(st: Store, ws: seq<(Day, Day)>): seq<Assignment>
    requires StoreValid(st)
  {
    if ws == [] then [] else Query(st, ws[0].0, ws[0].1) + FetchAll(st, ws[1..])
  }

  lemma FetchAllAppend(st: Store, ws: seq<(Day, Day)>, w: (Day, Day))
    requires StoreValid(st)
    ensures FetchAll(st, ws + [w]) == FetchAll(st, ws) + Query(st, w.0, w.1)
  {
    if ws != [] {
      assert (ws + [w])[1..] == ws[1..] + [w];
      FetchAllAppend(st, ws[1..], w);
    }
  }

  /** A range of at most 180 days is fetched in one query, a longer one window by window. */
  lemma FetchRangeWindows(st: Store, from: Day, upTo: Day)
    requires StoreValid(st)
    ensures DaysBetween(from, upTo) <= WindowDays ==> FetchAll(st, RangeWindows(from, upTo)) == Query(st, from, upTo)
    ensures DaysBetween(from, upTo) > WindowDays ==> FetchAll(st, RangeWindows(from, upTo)) == FetchAll(st, Chunks(from, upTo))
  {
    if DaysBetween(from, upTo) <= WindowDays {
      var ws := RangeWindows(from, upTo);
      assert ws[1..] == [];
      assert Query(st, from, upTo) + [] == Query(st, from, upTo);
    }
  }

  /**
    One turn of the cursor loop: what was fetched before the cursor, the
    cursor's window, and the windows after it make up the whole.
   */
  lemma FetchChunksStep(st: Store, fetched: seq<Assignment>, c: Day, upTo: Day, total: seq<Assignment>)
    requires StoreValid(st)
    requires fetched + FetchAll(st, Chunks(c, upTo)) == total
    ensures c + WindowDays >= upTo ==> fetched + Query(st, c, c + WindowDays) == total
    ensures c + WindowDays < upTo ==> (fetched + Query(st, c, c + WindowDays)) + FetchAll(st, Chunks(c + WindowDays, upTo)) == total
  {
    var ws := Chunks(c, upTo);
    if c + WindowDays < upTo {
      assert ws[1..] == Chunks(c + WindowDays, upTo);
    }
  }

  /** Every day from `from` to `upTo` lies in one of the windows (when the range is not reversed). */
  lemma {:induction false} WindowsCoverRange(from: Day, upTo: Day, d: Day)
    requires from <= d <= upTo
    ensures exists k :: 0 <= k < |RangeWindows(from, upTo)| && (RangeWindows(from, upTo)[k].0 <= d <= RangeWindows(from, upTo)[k].1)
  {
    if DaysBetween(from, upTo) > WindowDays {
      ChunksCover(from, upTo, d);
      assert RangeWindows(from, upTo) == Chunks(from, upTo);
    } else {
      assert RangeWindows(from, upTo)[0] == (from, upTo);
    }
  }

  lemma {:induction false} ChunksCover(c: Day, upTo: Day, d: Day)
    requires c <= d <= upTo
    ensures exists k :: 0 <= k < |Chunks(c, upTo)| && (Chunks(c, upTo)[k].0 <= d <= Chunks(c, upTo)[k].1)
    decreases upTo - c
  {
    var ws := Chunks(c, upTo);
    if d <= c + WindowDays {
      assert ws[0].0 <= d <= ws[0].1;
    } else {
      ChunksCover(c + WindowDays, upTo, d);
      var rest := Chunks(c + WindowDays, upTo);
      var k :| 0 <= k < |rest| && rest[k].0 <= d <= rest[k].1;
      assert ws[k + 1] == rest[k];
    }
  }

  /** A record listed by some window is fetched; every fetched assignment is a record of the store. */
  lemma {:induction false} FetchAllContents(st: Store, ws: seq<(Day, Day)>)
    requires StoreValid(st)
    ensures forall x :: x in FetchAll(st, ws) ==> x.id in st.records && st.records[x.id] == x
    ensures forall id, k :: id in st.records && 0 <= k < |ws| && Overlaps(st.records[id], ws[k].0, ws[k].1) ==>
              st.records[id] in FetchAll(st, ws)
  {
    if ws != [] {
      FetchAllContents(st, ws[1..]);
      forall id, k | id in st.records && 0 <= k < |ws| && Overlaps(st.records[id], ws[k].0, ws[k].1)
        ensures st.records[id] in FetchAll(st, ws)
      {
        if k > 0 { assert ws[1..][k - 1] == ws[k]; }
      }
    }
  }

  /**
    What loadAssignments fetches: only records of the store, agreeing on
    every id, and every record with a well-formed interval (start no later
    than end) that meets the range.
   */
  lemma FetchedRange(st: Store, from: Day, upTo: Day)
    requires StoreValid(st)
    ensures forall x :: x in FetchAll(st, RangeWindows(from, upTo)) ==> x.id in st.records && st.records[x.id] == x
    ensures Consistent(FetchAll(st, RangeWindows(from, upTo)))
    ensures forall id :: id in st.records && Overlaps(st.records[id], from, upTo) ==>
              (st.records[id].startDate <= st.records[id].endDate ==> st.records[id] in FetchAll(st, RangeWindows(from, upTo)))
  {
    var ws := RangeWindows(from, upTo);
    FetchAllContents(st, ws);
    forall id | id in st.records && st.records[id].startDate <= st.records[id].endDate && Overlaps(st.records[id], from, upTo)
      ensures st.records[id] in FetchAll(st, ws)
    {
      var x := st.records[id];
      if from <= upTo {
        var d := if x.startDate >= from then x.startDate else from;
        WindowsCoverRange(from, upTo, d);
        var k :| 0 <= k < |ws| && ws[k].0 <= d <= ws[k].1;
        assert Overlaps(x, ws[k].0, ws[k].1);
      } else {
        // a reversed range: its one window starts at `from`, the later date
        if DaysBetween(from, upTo) > WindowDays {
          assert ws[0] == (from, from + WindowDays);
        }
        assert Overlaps(x, ws[0].0, ws[0].1);
      }
    }
  }
}
