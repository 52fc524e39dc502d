# harvest-forecast-sync: the sync engine, modelled in Dafny

`SyncService` copies the time people log in Harvest into Forecast, a
scheduling tool that holds "assignments". An assignment is a person's
allocation of a constant number of seconds per day to one project, over an
interval of days.

For every source user linked to a destination person, and every project
linked across the two systems, the service walks the days from the start of
the range up to the project's last entry date. On each weekday it makes the
destination's assignments agree with the hours logged: it creates, extends,
merges, updates, splits or deletes an assignment. It keeps a local index of
the destination's assignments by person and by id, and it collects
"not found" messages, each message once.

This project models that engine in Dafny and proves what it promises. It
models:

- the per-day decision;
- the date helpers that skip weekends;
- splitting an interval around a day;
- the allocation arithmetic;
- the index and the destination writes that keep it in step;
- the grouping of entries by project and date;
- the two-tier linking of projects and users;
- the loading of the range's assignments in 180-day windows;
- the loops around all of this.

## Modules

- wrappers.dfy (`Wrappers`): `Option`
- dates.dfy (`Dates`): day numbers (day 0 = 1970-01-01, a Thursday), the ISO weekday, weekends, `ModifyDateString`
- entries.dfy (`Entries`): time entries in hundredths of an hour, the allocation arithmetic, grouping by project and date
- warnings.dfy (`Warnings`): the three kinds of message and `AddDistinct`
- assignments.dfy (`Assignments`): assignments, a person's id-keyed list, `FindOnDate`, `GroupAssignmentsByUser`, `SplitPieces`
- forecast.dfy (`Forecast`, `Windows`): the destination as a store with a class `ForecastStore`; the 180-day query windows
- engine.dfy (`Engine`): the engine state `World` (store, index, messages) and the write operations on it, with their invariants
- reconciler.dfy (`Reconciler`): the per-day step `SyncDay` and its properties
- linking.dfy (`Linking`): the load loops and the project and user linking
- usersync.dfy (`UserSync`): the date, project and user loops as functions, and their invariants
- service.dfy (`Service`): `class SyncService`: the service's fields and one method per source method, each proved equal to the pure model

The service's fields live in `class SyncService`:

- the loaded projects and users, and their links;
- the index `assignments`;
- the messages `notFoundErrors`;
- the destination `forecast`, a `ForecastStore` object.

Each state-changing method states its new state as a function of the old
one. `Snapshot()` is the store, index and messages as a `World` value.
`Valid()` says:

- every indexed assignment is the destination's record with its id, filed
  under its own person;
- ids are unique in each list;
- messages are distinct.

Every method that requires `Valid()` keeps it. `UpdateLocalAssignments` is the indexing step inside
`CreateAssignment` and `UpdateAssignment`, which restore it.

## Model

| member | source | states |
|---|---|---|
| Dates.IsWeekend | src/Service/SyncService.php:316-319 | `date('N') >= 6`: the ISO weekday is Saturday or Sunday; `Dates.NextWorkday` and `Dates.PrevWorkday` rest on it |
| Dates.IsoWeekday | src/Service/SyncService.php:316-319 | the weekday is 1..7, and day numbers congruent to 4 mod 7 are Mondays |
| Dates.NextWorkday | src/Service/SyncService.php:321-329 | the first weekday strictly after the date, at most three days on, with only weekend days in between |
| Dates.PrevWorkday | src/Service/SyncService.php:321-329 | the last weekday strictly before the date, at most three days back, with only weekend days in between |
| Dates.ModifyDateString | src/Service/SyncService.php:321-329 | the do-while loop returns the nearest weekday strictly after ('+1 day') or strictly before ('-1 day') the input |
| Dates.PrevOfNextWorkday | src/Service/SyncService.php:340-343 | from a weekday, stepping forward then back returns to it |
| Dates.NextOfPrevWorkday | src/Service/SyncService.php:340-343 | from a weekday, stepping back then forward returns to it |
| Entries.TotalHours | src/Service/SyncService.php:284-287 | the sum of the entries' hours, in hundredths |
| Entries.Allocation | src/Service/SyncService.php:277-299 | the seconds calculateAllocationFromEntries returns; what they are is stated by `Entries.AllocationIsNearestHalfHour` and `Entries.AllocationValidIff` |
| Entries.EmptyDayAllocatesNothing | src/Service/SyncService.php:279-281 | an empty day gives allocation 0 |
| Entries.RoundToNearestFraction | src/Service/SyncService.php:306-309 | the result is the number of 1/fraction-hour units nearest the total, with halves rounded away from zero as PHP's round does |
| Entries.TruncDiv | src/Service/SyncService.php:298 | the `(int)` cast truncates toward zero for either sign |
| Entries.CalculateAllocationFromEntries | src/Service/SyncService.php:277-299 | the summing loop returns `Allocation`: 0 for no entries, else the rounded total in seconds, with at least one unit |
| Entries.AllocationIsNearestHalfHour | src/Service/SyncService.php:277-299 | a non-empty day gets a non-zero multiple of 1800 s: 1800 s when the total rounds to zero, else within 900 s of the logged total |
| Entries.ValidAllocation | src/Service/SyncService.php:191 | the [0, 24] h test, in seconds: 0 to 86400 inclusive |
| Entries.AllocationValidIff | src/Service/SyncService.php:188-191 | a non-empty day's allocation passes the [0, 24] h test exactly when its total lies strictly between -0.25 h and 24.25 h |
| Entries.AddToGroups | src/Service/SyncService.php:518-528 | one turn of the grouping loop; stated by `Entries.AddToGroupsSpec` |
| Entries.AddToGroupsSpec | src/Service/SyncService.php:518-528 | one step adds the entry's project at the end if it is new, appends the entry under its date in that project, leaves other projects alone, and keeps groups non-empty |
| Entries.GroupEntriesByProjectAndDate | src/Service/SyncService.php:515-531 | no project group is empty |
| Entries.GroupedByProjectAndDate | src/Service/SyncService.php:515-531 | projects appear once each in order of first appearance; a project's group holds a date exactly when it has entries that day, and then exactly those entries in input order (against the reference `EntriesOn`) |
| Entries.GroupStep | src/Service/SyncService.php:518-528 | one turn of the grouping loop keeps the groups a grouping of the entries seen so far |
| Warnings.AddDistinct | src/Service/SyncService.php:158-163 | the old messages stay first and in order; afterwards there are exactly the old messages and the new one; a present message changes nothing; no duplicates appear |
| Assignments.ShouldExtendPrevAssignment | src/Service/SyncService.php:272-275 | there is a carried assignment and it has the allocation |
| Assignments.IsSingleDayAssignment | src/Service/SyncService.php:301-304 | the start date equals the end date |
| Assignments.Upsert | src/Service/SyncService.php:440 | `$list[$id] = $a` on an id-keyed list; stated by `Assignments.UpsertContents` |
| Assignments.HasId | src/Service/SyncService.php:418 | `array_key_exists`: true exactly when some assignment in the list has the id |
| Assignments.UpsertContents | src/Service/SyncService.php:440 | `$list[$id] = $a` overwrites the same id in place or appends; other ids' assignments stay where they are; ids stay unique |
| Assignments.Unset | src/Service/SyncService.php:419 | `unset`: exactly the assignments with other ids remain, and ids stay unique |
| Assignments.UnsetKeepsFirstMatch | src/Service/SyncService.php:419 | unsetting an id keeps the others in their order: the first assignment found on a date is the same afterwards unless it had that id |
| Assignments.CoversDay | src/Service/SyncService.php:452-457 | the assignment is on the project and its closed interval contains the date |
| Assignments.FindOnDate | src/Service/SyncService.php:450-462 | the result is the first assignment in list order on the project whose closed interval contains the date; none only when no assignment does |
| Assignments.GroupAssignmentsByUser | src/Service/SyncService.php:617-629 | every indexed assignment is fetched and filed under its own person with unique ids; when copies of an id agree, every fetched assignment is indexed |
| Assignments.SplitPieces | src/Service/SyncService.php:331-371 | keeps id, person, project and allocation; the split day is never covered; for a day inside the interval, every other weekday stays covered and nothing outside is; a second record is planned exactly for a split strictly inside the interval, and then it runs from after the split day to the old end while the kept record ends before it; a split not on the start keeps the start, a split on the start keeps the end |
| Assignments.SplitKeepsIntervalsWellFormed | src/Service/SyncService.php:340-356 | with weekday bounds, the updated and created intervals are well-formed |
| Assignments.SplitOfWeekendEndedAssignmentInverts | src/Service/SyncService.php:342-348 | without weekday bounds the split can invert an interval (Friday-to-Sunday split on its Friday) |
| Forecast.Post | src/Service/SyncService.php:387 | the record is stored under its id and the id counter moves past it; stated by `Forecast.WritesKeepStoreValid` |
| Forecast.Put | src/Service/SyncService.php:404 | the record replaces the one with its id; stated by `Forecast.WritesKeepStoreValid` |
| Forecast.Delete | src/Service/SyncService.php:415 | the record with the id is removed; stated by `Forecast.WritesKeepStoreValid` |
| Forecast.NewAssignment | src/Service/SyncService.php:373-393 | a created record gets an id the store does not hold |
| Forecast.WritesKeepStoreValid | src/Service/SyncService.php:387 | post, put and delete keep every record filed under its own id, below the id counter |
| Forecast.RecordsBetween | src/Service/SyncService.php:597 | lists exactly the stored records in the id range that meet the window |
| Forecast.Query | src/Service/SyncService.php:606 | `getAssignments` returns exactly the store's records meeting the window |
| Forecast.ForecastStore.PostAssignment | src/Service/SyncService.php:387-389 | the store gains the record with a fresh id, which is returned |
| Forecast.ForecastStore.PutAssignment | src/Service/SyncService.php:404-406 | the record with the id is replaced and returned as sent |
| Forecast.ForecastStore.DeleteAssignment | src/Service/SyncService.php:415 | the record with the id is gone and nothing else changes |
| Forecast.ForecastStore.GetAssignments | src/Service/SyncService.php:597 | returns the window's query result without changing the store |
| Windows.Chunks | src/Service/SyncService.php:590-604 | the cursor loop's windows; their shape is stated by `Windows.ChunksShape` |
| Windows.RangeWindows | src/Service/SyncService.php:590-607 | one window for a range of at most 180 days, else the cursor windows |
| Windows.FetchAll | src/Service/SyncService.php:597 | the concatenated queries of the windows; stated by `Windows.FetchAllContents` |
| Windows.ChunksShape | src/Service/SyncService.php:590-604 | the windows start at `from`, each spans 180 days and starts where the previous one ends, and the last reaches `to` |
| Windows.FetchRangeWindows | src/Service/SyncService.php:590-607 | at most 180 days is one query of the range; a longer range is the window loop's concatenation |
| Windows.FetchChunksStep | src/Service/SyncService.php:593-604 | one turn of the cursor loop: what was fetched, then the cursor's window, then the remaining windows make up the whole |
| Windows.ChunksCover | src/Service/SyncService.php:590-604 | every day from the cursor up to `to` lies in some window |
| Windows.WindowsCoverRange | src/Service/SyncService.php:590-607 | every day of a non-reversed range lies in one of the queried windows |
| Windows.FetchAllContents | src/Service/SyncService.php:597 | everything fetched is a store record, and every record meeting a window is fetched |
| Windows.FetchedRange | src/Service/SyncService.php:583-607 | the fetched assignments are store records and agree on every id; every well-formed record meeting the range is fetched, reversed ranges included |
| Engine.UpdateLocal | src/Service/SyncService.php:427-441 | updateLocalAssignments on the index; stated by `Engine.UpdateLocalMirrors` |
| Engine.RemoveId | src/Service/SyncService.php:417-421 | the index part of deleteAssignment; stated by `Engine.RemoveIdMirrors`, `Engine.RemoveIdAt` and `Engine.RemoveIdKeepsFirstMatch` |
| Engine.CreateW | src/Service/SyncService.php:373-393 | createAssignment on the engine state; stated by `Engine.CreateWValid` |
| Engine.UpdateW | src/Service/SyncService.php:395-410 | updateAssignment on the engine state; stated by `Engine.UpdateWValid` |
| Engine.DeleteW | src/Service/SyncService.php:412-425 | deleteAssignment on the engine state; stated by `Engine.DeleteWValid` |
| Engine.SplitW | src/Service/SyncService.php:331-371 | splitAssignment on the engine state; stated by `Engine.SplitWValid` |
| Engine.UpdateLocalMirrors | src/Service/SyncService.php:427-441 | filing an assignment keeps the index a mirror of the records; only its person's list changes, and the assignment is in it |
| Engine.RemoveIdMirrors | src/Service/SyncService.php:412-425 | unsetting an id keeps the mirror with that record gone; in each list exactly the entries with other ids remain |
| Engine.RemoveIdKeepsFirstMatch | src/Service/SyncService.php:417-421 | deleting an id keeps every person's list in order: findAssignmentOnDate finds the same assignment afterwards unless it had that id |
| Engine.RemoveIdAt | src/Service/SyncService.php:417-421 | unsetting the id in the first list holding it equals unsetting it everywhere, as only the owner's list holds it |
| Engine.RemoveIdAbsent | src/Service/SyncService.php:424 | when no list holds the id, the index is unchanged |
| Engine.HolderIsOwner | src/Service/SyncService.php:417-421 | a list holding a mirrored id belongs to the person of that record |
| Engine.CreateWValid | src/Service/SyncService.php:373-393 | creating keeps the state valid; the record with its fresh id holds the fields sent and is indexed under its person; messages are unchanged |
| Engine.UpdateWValid | src/Service/SyncService.php:395-410 | updating a stored assignment without changing its person keeps the state valid, and stores and indexes it |
| Engine.DeleteWValid | src/Service/SyncService.php:412-425 | deleting keeps the state valid, with only the record with the id gone |
| Engine.SplitWValid | src/Service/SyncService.php:331-371 | splitting keeps the state valid: the record takes the plan's bounds, a created record holds the plan's tail, other records are unchanged |
| Engine.FoundIsStored | src/Service/SyncService.php:179 | an assignment found in a valid index is the person's stored record and covers the day on the project |
| Engine.LoadedIndexMirrors | src/Service/SyncService.php:609 | the loaded index mirrors the destination, and holds every well-formed record meeting the range under its person |
| Reconciler.EntriesFor | src/Service/SyncService.php:173-176 | the entries of the date, or none when the date has no key |
| Reconciler.SyncDay | src/Service/SyncService.php:165-270 | syncUserEntriesOnDate; stated by the `Reconciler.SyncDay*` lemmas below |
| Reconciler.FillDay | src/Service/SyncService.php:197-210 | the branch for entries and no assignment; stated by `Reconciler.SyncDayFillsFreeDay` |
| Reconciler.ClearDay | src/Service/SyncService.php:212-227 | the branch for an assignment and no entries; stated by `Reconciler.SyncDayClearsEmptyDay` |
| Reconciler.ReconcileDay | src/Service/SyncService.php:229-269 | the branch for entries and an assignment; stated by `Reconciler.SyncDayCoversEntries` and `Reconciler.SyncDayInSyncIsNoOp` |
| Reconciler.SyncDayKeepsValid | src/Service/SyncService.php:165-270 | a day keeps the state valid; the carried assignment stays the person's stored record on the project; other people's and projects' records are untouched; messages are only added |
| Reconciler.FillDayKeepsValid | src/Service/SyncService.php:197-210 | filling a free day keeps the state valid and the carried assignment tracked |
| Reconciler.ClearDayKeepsValid | src/Service/SyncService.php:213-227 | clearing a day keeps the state valid and drops the carried assignment |
| Reconciler.ReconcileDayKeepsValid | src/Service/SyncService.php:229-269 | reconciling a day with an assignment keeps the state valid and the carried assignment tracked |
| Reconciler.MergeKeepsValid | src/Service/SyncService.php:235-238 | deleting the day's assignment and extending the carried one to its end keeps the state valid |
| Reconciler.SplitCreateKeepsValid | src/Service/SyncService.php:260-264 | splitting and creating the day's own assignment keeps the state valid, and the created one is tracked |
| Reconciler.SameOutsideTrans | src/Service/SyncService.php:146-154 | records untouched by two steps are untouched by both together |
| Reconciler.SyncDaySkipsWeekend | src/Service/SyncService.php:168-170 | a weekend day changes nothing, keeps the carried assignment, and reports no change |
| Reconciler.SyncDayIdleDay | src/Service/SyncService.php:181-185 | a weekday with no entries and no assignment changes nothing and drops the carried assignment |
| Reconciler.SyncDayRejectsAllocation | src/Service/SyncService.php:191-195 | an out-of-range allocation records its message (once) and changes neither the destination, the index nor the carried assignment |
| Reconciler.SyncDayFillsFreeDay | src/Service/SyncService.php:197-210 | with entries and no assignment, an equal-allocation carried assignment keeps its id and now ends on the day; otherwise a fresh [date, date] record is created; either is carried |
| Reconciler.SyncDayCoversEntries | src/Service/SyncService.php:165-270 | after a weekday with accepted entries, the carried assignment is stored and indexed, covers the day and has the day's allocation |
| Reconciler.SyncDayClearsEmptyDay | src/Service/SyncService.php:212-227 | on an empty day a single-day assignment is deleted and nothing else changes in the destination; a longer one keeps its id and takes the split's bounds; either way it stops covering the day, no record covering the day was created or changed, and the carried assignment is dropped |
| Reconciler.SyncDayInSyncIsNoOp | src/Service/SyncService.php:229-243 | a day already matching its allocation, with no other equal carried assignment, writes nothing and carries the found assignment |
| Linking.Loaded | src/Service/SyncService.php:465-491 | the load loops, keeping the first accepted record per key; stated by the `Linking.Loaded*` lemmas |
| Linking.ProjectScan | src/Service/SyncService.php:497-506 | the inner scan of linkProjects; stated by `Linking.ProjectScanPicks` |
| Linking.ProjectLink | src/Service/SyncService.php:496-511 | one project's link; stated by `Linking.ProjectLinkNone` and `Linking.ExplicitLinkWins` |
| Linking.PersonScan | src/Service/SyncService.php:560-574 | the inner scan of linkUsers; stated by `Linking.PersonScanPicks` |
| Linking.PersonLink | src/Service/SyncService.php:559-579 | one user's link; stated by `Linking.PersonLinkNone` |
| Linking.LinkProjectsInto | src/Service/SyncService.php:493-513 | the outer loop of linkProjects; stated by `Linking.LinkProjectsIntoLinks` |
| Linking.LinkUsersInto | src/Service/SyncService.php:556-581 | the outer loop of linkUsers; stated by `Linking.LinkUsersIntoLinks` |
| Linking.ActiveProject | src/Service/SyncService.php:481-485 | a destination project is loaded only when it is not archived |
| Linking.ActivePerson | src/Service/SyncService.php:550 | a destination person is loaded only when not archived |
| Linking.HasKey | src/Service/SyncService.php:470 | `array_key_exists` on a loaded list: some record has the key |
| Linking.LoadedExtends | src/Service/SyncService.php:465-491 | the load loops keep the known records first and add only accepted incoming ones |
| Linking.LoadedKeys | src/Service/SyncService.php:465-491 | a key is loaded afterwards exactly when it was before or some accepted incoming record has it |
| Linking.LoadedKeepsFirst | src/Service/SyncService.php:469-473 | the first accepted record of a new key is the one kept |
| Linking.LoadedUnique | src/Service/SyncService.php:470-472 | keys stay unique |
| Linking.ProjectScanPicks | src/Service/SyncService.php:497-506 | the scan picks the first explicitly linked candidate if any; otherwise the last name-equal one if any; otherwise the match it began with |
| Linking.ProjectLinkNone | src/Service/SyncService.php:493-513 | a project stays unlinked exactly when no candidate is explicitly linked to it or has its name |
| Linking.ExplicitLinkWins | src/Service/SyncService.php:498-502 | the first explicitly linked candidate is the link, whatever names match |
| Linking.PersonScanPicks | src/Service/SyncService.php:560-574 | as for projects, with the same e-mail or the same first and last name as the fallback |
| Linking.PersonLinkNone | src/Service/SyncService.php:556-581 | a user stays unlinked exactly when no candidate is explicitly linked to them or matches by e-mail or name |
| Linking.LinkProjectsIntoLinks | src/Service/SyncService.php:493-513 | an id is linked afterwards exactly when it was before or a project with it finds a candidate; unlisted ids keep their link; with one project per id, each project's link is the scan's pick |
| Linking.LinkUsersIntoLinks | src/Service/SyncService.php:556-581 | the same for users and people |
| Linking.LinkProjectsStep | src/Service/SyncService.php:495-512 | one more project of the outer loop records its link, if any |
| Linking.LinkUsersStep | src/Service/SyncService.php:558-580 | one more user of the outer loop records their link, if any |
| Linking.ProjectScanStep | src/Service/SyncService.php:497-506 | one candidate: an explicit link ends the scan with it; otherwise a name match replaces the remembered one |
| Linking.PersonScanStep | src/Service/SyncService.php:560-574 | one candidate of the user scan, as for projects |
| UserSync.SyncDaysKeepsValid | src/Service/SyncService.php:146-154 | over the date loop the state stays valid, only the person's records on the project change, and messages are only added |
| UserSync.SyncDays | src/Service/SyncService.php:139-154 | the date loop of syncUserEntries; stated by the `UserSync.SyncDays*` lemmas |
| UserSync.SyncDaysCoversLastDate | src/Service/SyncService.php:139-154 | when the last entry date is a weekday with accepted entries, the loop ends carrying a stored assignment that covers it with its allocation |
| UserSync.SyncDaysMergesRun | src/Service/SyncService.php:139-154 | consecutive weekdays with one accepted allocation become one assignment: with nothing carried in and nothing covering the run, the loop leaves exactly one new record, from the run's first weekday to its last, with that allocation; no other record or message changes |
| UserSync.SyncDaysExtendsRun | src/Service/SyncService.php:139-154 | a carried assignment with the run's allocation is extended to the run's last weekday and carried out; no other record or message changes |
| UserSync.SyncDaysHeldRunIsNoOp | src/Service/SyncService.php:139-154 | a run the destination already holds as one assignment found on each of its weekdays is left as it is |
| UserSync.SyncDaysRunIsIdempotent | src/Service/SyncService.php:139-154 | syncing the same run a second time changes nothing |
| UserSync.MaxKey | src/Service/SyncService.php:139 | `max(array_keys(...))`: a date of the map, and no earlier than any other |
| UserSync.MaxExists | src/Service/SyncService.php:139 | a non-empty set of dates has a maximum |
| UserSync.ExtendsTrans | src/Service/SyncService.php:158-163 | message lists only grow, transitively |
| UserSync.SameOutsidePeopleTrans | src/Service/SyncService.php:85-91 | records untouched by two steps are untouched by both |
| UserSync.SyncGroupsKeepsValid | src/Service/SyncService.php:123-155 | over the project loop the state stays valid, only the person's records change, and every unlinked project is reported |
| UserSync.SyncUserKeepsValid | src/Service/SyncService.php:96-156 | syncing a user touches only the linked person's records; an unlinked user is reported, with nothing else changed |
| UserSync.SyncUsersKeepsValid | src/Service/SyncService.php:85-91 | over the user loop the state stays valid, no unlinked person's records change, messages are only added, and every unlinked user is reported |
| UserSync.PeopleOfConcat | src/Service/SyncService.php:85 | the linked people of two user lists together are those of each |
| Linking.ProjectName | src/Service/SyncService.php:124-130 | the name of the first loaded source project with the id, used in the not-found message; empty when none is loaded |
| UserSync.SyncGroups | src/Service/SyncService.php:121-155 | the project loop of syncUserEntries; stated by `UserSync.SyncGroupsKeepsValid` |
| UserSync.SyncUser | src/Service/SyncService.php:96-156 | syncUserEntries on the engine state; stated by `UserSync.SyncUserKeepsValid` |
| UserSync.SyncUsers | src/Service/SyncService.php:85-91 | the user loop of sync; stated by `UserSync.SyncUsersKeepsValid` |
| Service.SyncService.constructor | src/Service/SyncService.php:59-63 | the service starts with nothing loaded, empty links, an empty index and no messages |
| Service.SyncService.AddNotFoundError | src/Service/SyncService.php:158-163 | the state becomes `Warn` of the old one: the message is appended unless already present |
| Service.SyncService.UpdateLocalAssignments | src/Service/SyncService.php:427-441 | the index becomes the old one with the assignment filed under its person and id |
| Service.SyncService.CreateAssignment | src/Service/SyncService.php:373-393 | the state and result are those of `CreateW`, and the state stays valid |
| Service.SyncService.UpdateAssignment | src/Service/SyncService.php:395-410 | the state is `UpdateW` of the old one, the stored assignment is returned, and the state stays valid |
| Service.SyncService.DeleteAssignment | src/Service/SyncService.php:412-425 | the state is `DeleteW` of the old one; the result is true exactly when some person's list held the id |
| Service.SyncService.FindAssignmentOnDate | src/Service/SyncService.php:443-463 | the loop returns `FindOnDate` of the person's list: none for an unknown person |
| Service.SyncService.SplitAssignment | src/Service/SyncService.php:331-371 | a single-day assignment changes nothing and gives none; otherwise the state is `SplitW` of the old one and the updated assignment is returned |
| Service.SyncService.SyncUserEntriesOnDate | src/Service/SyncService.php:165-270 | the new state, the carried assignment and the result are those of `SyncDay`; validity and tracking of the carried assignment are kept |
| Service.SyncService.FillDate | src/Service/SyncService.php:197-210 | state and carried assignment are those of `FillDay` |
| Service.SyncService.ClearDate | src/Service/SyncService.php:212-227 | state is that of `ClearDay` |
| Service.SyncService.ReconcileDate | src/Service/SyncService.php:229-269 | state, carried assignment and result are those of `ReconcileDay` |
| Service.SyncService.LastEntryDate | src/Service/SyncService.php:139 | the latest date that has entries |
| Service.SyncService.SyncProjectDates | src/Service/SyncService.php:139-154 | the date loop from `from` to the last entry date leaves the state of `SyncDays` |
| Service.SyncService.SyncUserEntries | src/Service/SyncService.php:96-156 | an unlinked user gives their message and changes nothing; a linked user's projects are synced as `SyncGroups` does |
| Service.SyncService.LoadAssignments | src/Service/SyncService.php:583-610 | the index becomes the grouping of the windows' fetch; it mirrors the destination and holds every well-formed record meeting the range |
| Service.SyncService.FetchChunks | src/Service/SyncService.php:590-604 | the cursor loop returns the concatenated queries of the 180-day windows |
| Service.SyncService.Sync | src/Service/SyncService.php:65-94 | the loads and links take their loaded values; the end state is the user loop run on the freshly loaded index; only linked people's records change; old messages stay first; every unlinked user is reported; the messages are returned |
| Service.SyncService.LoadAndLink | src/Service/SyncService.php:73-80 | the six load and link steps take their loaded values |
| Service.SyncService.LoadAndSyncUsers | src/Service/SyncService.php:82-93 | loading the range and running the user loop leaves the user loop's state on the loaded index |
| Service.SyncService.SyncAllUsers | src/Service/SyncService.php:85-91 | the user loop leaves `SyncUsers` of the old state; records of unlinked people are untouched; every unlinked user is reported |
| Service.SyncService.LoadHarvestProjects | src/Service/SyncService.php:465-474 | the loaded list becomes `Loaded` with every project accepted |
| Service.SyncService.LoadForecastProjects | src/Service/SyncService.php:476-491 | the loaded list becomes `Loaded` with archived projects skipped |
| Service.SyncService.LoadHarvestUsers | src/Service/SyncService.php:536-544 | the loaded list becomes `Loaded` with every user accepted |
| Service.SyncService.LoadForecastUsers | src/Service/SyncService.php:546-554 | the loaded list becomes `Loaded` with archived people skipped |
| Service.SyncService.LinkProjects | src/Service/SyncService.php:493-513 | the links become `LinkProjectsInto` of the old links |
| Service.SyncService.LinkProject | src/Service/SyncService.php:496-511 | the inner loop records the scan's pick for the project, if any, and nothing else |
| Service.SyncService.LinkUsers | src/Service/SyncService.php:556-581 | the links become `LinkUsersInto` of the old links |
| Service.SyncService.LinkUser | src/Service/SyncService.php:559-579 | the inner loop records the scan's pick for the user, if any, and nothing else |

## Overlapping query windows

`loadAssignments` queries a long range in 180-day windows `[c, c + 180]`.
Each window starts on the day the previous one ended. The model takes
`getAssignments` to include both of its bounds; that is an assumption about
the Forecast API, which the PHP code does not show. Under it, a record that
covers a boundary day is fetched twice. `GroupAssignmentsByUser` files both
copies under the one id, so the index holds the record once
(`Windows.FetchedRange`, `Engine.LoadedIndexMirrors`).

## Left out

- The Harvest and Forecast HTTP clients are left out. The destination is a store of records by id with a fresh-id counter, and a query returns the records meeting a window in ascending id order; the API's real order is not modelled. What the source side returns (projects, users, people, each user's entries) comes in as parameters.
- Console output (`echo`) and message wording are left out. A message is a value carrying the fields its text is built from.
- Float hours are left out. Hours are whole hundredths of an hour, so rounding to half-hours is exact integer arithmetic. With a rounding fraction of 2, PHP's `(int)` of the float product is that exact product.
- `DateTime`, `strtotime` and the 'Y-m-d'/'Ymd' formats are left out. A date is a day number, and comparing day numbers agrees with comparing 'Y-m-d' strings. `Range::thisMonth()`, the default range, needs the clock, so `Sync` takes the range as two days.
- The `InvalidArgumentException` for an assignment without an id cannot occur: typed assignments always have one.
- `Service.SyncService.SplitAssignment`: the exception for a single-day assignment is modelled as a `None` result with nothing changed.
- `Service.SyncService.UpdateAssignment` requires the id to be in the destination and the person unchanged. The destination's PUT refuses unknown ids, and the sync only updates stored assignments of the same person.
- A Forecast project's `archived === 'true'` string form is collapsed into a boolean.
- A missing source project name (`$this->harvestProjects[$id]` for a project that was never loaded) becomes the empty string.
- Splitting can invert an interval whose start or end falls on a weekend (`Assignments.SplitOfWeekendEndedAssignmentInverts`). The model keeps such intervals as written. Well-formedness is proved only for weekday bounds.
- Where the source reconciles a day whose allocation matches the found assignment, it merges that assignment into the carried one and still returns false (no change). The model returns the same.
- Idempotence over the date loop is proved for one shape: a run of weekdays with a single accepted allocation and no other assignment on them (`UserSync.SyncDaysRunIsIdempotent`). Runs that mix allocations, or sit on top of existing assignments, are covered only day by day, by `Reconciler.SyncDayInSyncIsNoOp`.
- Several methods are split into helpers so that each one verifies on its own. Each helper is named after the part of the source method it models:
  - `LoadAndLink`, `LoadAndSyncUsers` and `SyncAllUsers` for `sync`;
  - `SyncProjectDates` for the date loop of `syncUserEntries`;
  - `FillDate`, `ClearDate` and `ReconcileDate` for the branches of `syncUserEntriesOnDate`;
  - `FetchChunks` for the cursor loop of `loadAssignments`;
  - `LinkProject` and `LinkUser` for the inner loops of the linking.
- The `SyncCommand` CLI is not part of this model, nor is the configuration loading.
