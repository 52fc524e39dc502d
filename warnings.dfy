/**
  The "not found" messages the sync collects and returns. Each message is a
  value carrying the fields the source formats into its text, so two
  messages are the same text exactly when their fields agree.
 */
module Warnings {

  import opened Dates

  datatype Warning =
      /** A source user with no linked destination person. */
    | UserNotFound(firstName: string, lastName: string, userId: int)
      /** A source project with no linked destination project. */
    | ProjectNotFound(name: string, projectId: int)
      /** A day whose allocation falls outside [0, 24] hours. */
    | InvalidAllocation(personId: int, projectId: int, date: Day, lastName: string, seconds: int)

  /** No message appears twice. */
  ghost predicate NoDuplicates(ws: seq<Warning>)
  {
    forall i, j :: 0 <= i < j < |ws| ==> ws[i] != ws[j]
  }

  /**
    addNotFoundError: the message is appended unless already present. The
    old messages stay first, in order; the list afterwards holds exactly
    the old messages and the new one, and stays free of duplicates.
   */
  function AddDistinct(ws: seq<Warning>, w: Warning): (r: seq<Warning>)
    ensures |ws| <= |r| && r[..|ws|] == ws
    ensures forall x :: x in r <==> x in ws || x == w
    ensures w in ws ==> r == ws
    ensures NoDuplicates(ws) ==> NoDuplicates(r)
  {
    if w in ws then ws else ws + [w]
  }
}
