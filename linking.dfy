/**
  The projects and people of both systems, how the fetched lists are
  loaded (first record per id kept, archived destination records
  skipped), and the two-tier linking of source ids to destination ids:
  an explicit link stored on the destination record wins, otherwise the
  last candidate that matches by name (or, for people, by e-mail or name).
 */
module Linking {

  import opened Wrappers

  datatype HarvestProject = HarvestProject(id: int, name: string)
  datatype ForecastProject = ForecastProject(id: int, name: string, archived: bool, harvestId: Option<int>)
  datatype HarvestUser = HarvestUser(id: int, firstName: string, lastName: string, email: string)
  datatype ForecastPerson = ForecastPerson(id: int, firstName: string, lastName: string, email: string,
                                           archived: bool, harvestUserId: Option<int>)

  function HarvestProjectKey(p: HarvestProject): int { p.id }
  function ForecastProjectKey(p: ForecastProject): int { p.id }
  function HarvestUserKey(u: HarvestUser): int { u.id }
  function ForecastPersonKey(u: ForecastPerson): int { u.id }

  predicate AnyHarvestProject(p: HarvestProject) { true }
  predicate AnyHarvestUser(u: HarvestUser) { true }
  predicate ActiveProject(p: ForecastProject) { !p.archived }
  predicate ActivePerson(u: ForecastPerson) { !u.archived }

  // ----- loading: an ordered array keyed by id -----

  /** `array_key_exists`: some record of the list has the key. */
  function HasKey<T>(s: seq<T>, k: int, key: T -> int): (b: bool)
    ensures b <==> exists x :: x in s && key(x) == k
  {
    if s == [] then false else key(s[0]) == k || HasKey(s[1..], k, key)
  }

  ghost predicate UniqueKeys<T>(s: seq<T>, key: T -> int)
  {
    forall i, j :: 0 <= i < j < |s| ==> key(s[i]) != key(s[j])
  }

  /**
    The load loops: each incoming record that `keep` accepts is appended
    unless a record with its key is already there. The known records stay
    first; a key is present afterwards exactly when it was before or some
    accepted record has it; the first accepted record of a new key is the
    one kept; and keys stay unique.
   */
  function Loaded<T>(known: seq<T>, incoming: seq<T>, key: T -> int, keep: T -> bool): seq<T>
  {
    if incoming == [] then known
    else
      var r0 := Loaded(known, incoming[..|incoming| - 1], key, keep);
      var x := incoming[|incoming| - 1];
      if keep(x) && !HasKey(r0, key(x), key) then r0 + [x] else r0
  }

  /** The known records stay first, and every added record is an accepted incoming one. */
  lemma {:induction false} LoadedExtends<T>(known: seq<T>, incoming: seq<T>, key: T -> int, keep: T -> bool)
    ensures var r := Loaded(known, incoming, key, keep);
      && |known| <= |r| && r[..|known|] == known
      && forall x :: x in r ==> x in known || (x in incoming && keep(x))
  {
    if incoming != [] {
      var prefix := incoming[..|incoming| - 1];
      LoadedExtends(known, prefix, key, keep);
      assert incoming == prefix + [incoming[|incoming| - 1]];
    }
  }

  /** A key is present afterwards exactly when it was before or some accepted incoming record has it. */
  lemma {:induction false} LoadedKeys<T>(known: seq<T>, incoming: seq<T>, key: T -> int, keep: T -> bool)
    ensures forall k :: HasKey(Loaded(known, incoming, key, keep), k, key) <==>
              HasKey(known, k, key) || exists x :: x in incoming && keep(x) && key(x) == k
  {
    if incoming != [] {
      var prefix := incoming[..|incoming| - 1];
      var x := incoming[|incoming| - 1];
      LoadedKeys(known, prefix, key, keep);
      var r0 := Loaded(known, prefix, key, keep);
      var r := Loaded(known, incoming, key, keep);
      assert forall y :: y in incoming <==> y in prefix || y == x by {
        assert incoming == prefix + [x];
      }
      forall k ensures HasKey(r, k, key) <==> HasKey(r0, k, key) || (keep(x) && key(x) == k) {
        if keep(x) && !HasKey(r0, key(x), key) {
          assert r == r0 + [x];
          assert x in r;
          assert forall y :: y in r <==> y in r0 || y == x;
        }
      }
    }
  }

  /** The first accepted incoming record of a key not known before is the one kept. */
  lemma {:induction false} LoadedKeepsFirst<T>(known: seq<T>, incoming: seq<T>, key: T -> int, keep: T -> bool)
    ensures forall i :: 0 <= i < |incoming| && keep(incoming[i]) && !HasKey(known, key(incoming[i]), key)
                        && (forall j :: 0 <= j < i && keep(incoming[j]) ==> key(incoming[j]) != key(incoming[i]))
                        ==> incoming[i] in Loaded(known, incoming, key, keep)
  {
    if incoming != [] {
      var prefix := incoming[..|incoming| - 1];
      var x := incoming[|incoming| - 1];
      LoadedKeepsFirst(known, prefix, key, keep);
      var r0 := Loaded(known, prefix, key, keep);
      var r := Loaded(known, incoming, key, keep);
      assert forall y :: y in r0 ==> y in r;
      forall i | 0 <= i < |incoming| && keep(incoming[i]) && !HasKey(known, key(incoming[i]), key)
                 && (forall j :: 0 <= j < i && keep(incoming[j]) ==> key(incoming[j]) != key(incoming[i]))
        ensures incoming[i] in r
      {
        if i < |prefix| {
          assert incoming[i] == prefix[i];
          assert forall j :: 0 <= j < i ==> incoming[j] == prefix[j];
        } else {
          LoadedKeys(known, prefix, key, keep);
          forall y | y in prefix && keep(y) ensures key(y) != key(x) {
            var j :| 0 <= j < |prefix| && prefix[j] == y;
            assert incoming[j] == y;
          }
          assert !HasKey(r0, key(x), key);
        }
      }
    }
  }

  /** Keys that were unique stay unique. */
  lemma {:induction false} LoadedUnique<T>(known: seq<T>, incoming: seq<T>, key: T -> int, keep: T -> bool)
    requires UniqueKeys(known, key)
    ensures UniqueKeys(Loaded(known, incoming, key, keep), key)
  {
    if incoming != [] {
      var prefix := incoming[..|incoming| - 1];
      var x := incoming[|incoming| - 1];
      LoadedUnique(known, prefix, key, keep);
      var r0 := Loaded(known, prefix, key, keep);
      var r := Loaded(known, incoming, key, keep);
      if keep(x) && !HasKey(r0, key(x), key) {
        forall i, j | 0 <= i < j < |r| ensures key(r[i]) != key(r[j]) {
          if j == |r0| { assert r[i] in r0; }
        }
      }
    }
  }

  // ----- linking -----

  /** `!empty($link) && $link === $id`: a stored link that is set, non-zero and equal to the id. */
  predicate LinksTo(link: Option<int>, id: int)
  {
    link.Some? && link.value != 0 && link.value == id
  }

  predicate ExplicitProject(fp: ForecastProject, id: int) { LinksTo(fp.harvestId, id) }
  predicate ExplicitPerson(fu: ForecastPerson, id: int) { LinksTo(fu.harvestUserId, id) }

  /** The fallback of linkUsers: same e-mail, or same first and last name. */
  predicate SamePerson(fu: ForecastPerson, hu: HarvestUser)
  {
    fu.email == hu.email || (fu.firstName == hu.firstName && fu.lastName == hu.lastName)
  }

  /**
    The inner loop of linkProjects from the current candidate on, given the
    name match so far: an explicit link ends the scan and wins, otherwise
    each name-equal candidate replaces the match.
   */
  function ProjectScan(hp: HarvestProject, fps: seq<ForecastProject>, nameMatch: Option<int>): Option<int>
  {
    if fps == [] then nameMatch
    else if ExplicitProject(fps[0], hp.id) then Some(fps[0].id)
    else ProjectScan(hp, fps[1..], if fps[0].name == hp.name then Some(fps[0].id) else nameMatch)
  }

  /** The link linkProjects records for the project, if any. */
  function ProjectLink(hp: HarvestProject, fps: seq<ForecastProject>): Option<int>
  {
    ProjectScan(hp, fps, None)
  }

  /**
    What the scan picks: the first explicitly linked candidate when there
    is one; otherwise the last candidate with the project's name when there
    is one; otherwise the name match it started with.
   */
  lemma {:induction false} ProjectScanPicks(hp: HarvestProject, fps: seq<ForecastProject>, nameMatch: Option<int>)
    ensures var r := ProjectScan(hp, fps, nameMatch);
      && ((exists k :: 0 <= k < |fps| && ExplicitProject(fps[k], hp.id)) ==>
            exists k :: 0 <= k < |fps| && ExplicitProject(fps[k], hp.id) && r == Some(fps[k].id)
                        && forall j :: 0 <= j < k ==> !ExplicitProject(fps[j], hp.id))
      && ((forall k :: 0 <= k < |fps| ==> !ExplicitProject(fps[k], hp.id)) && (exists k :: 0 <= k < |fps| && fps[k].name == hp.name) ==>
            exists k :: 0 <= k < |fps| && fps[k].name == hp.name && r == Some(fps[k].id)
                        && forall j :: k < j < |fps| ==> fps[j].name != hp.name)
      && ((forall k :: 0 <= k < |fps| ==> !ExplicitProject(fps[k], hp.id) && fps[k].name != hp.name) ==> r == nameMatch)
  {
    if fps != [] && !ExplicitProject(fps[0], hp.id) {
      var m := if fps[0].name == hp.name then Some(fps[0].id) else nameMatch;
      ProjectScanPicks(hp, fps[1..], m);
      assert forall k :: 0 <= k < |fps| - 1 ==> fps[1..][k] == fps[k + 1];
    }
  }

  /** A project gets no link exactly when no candidate is explicitly linked to it or has its name. */
  lemma ProjectLinkNone(hp: HarvestProject, fps: seq<ForecastProject>)
    ensures ProjectLink(hp, fps).None? <==>
              forall k :: 0 <= k < |fps| ==> !ExplicitProject(fps[k], hp.id) && fps[k].name != hp.name
  {
    ProjectScanPicks(hp, fps, None);
  }

  /** The inner loop of linkUsers, as ProjectScan with the people's fallback. */
  function PersonScan(hu: HarvestUser, fus: seq<ForecastPerson>, nameMatch: Option<int>): Option<int>
  {
    if fus == [] then nameMatch
    else if ExplicitPerson(fus[0], hu.id) then Some(fus[0].id)
    else PersonScan(hu, fus[1..], if SamePerson(fus[0], hu) then Some(fus[0].id) else nameMatch)
  }

  /** The link linkUsers records for the user, if any. */
  function PersonLink(hu: HarvestUser, fus: seq<ForecastPerson>): Option<int>
  {
    PersonScan(hu, fus, None)
  }

  /** What the people's scan picks, as ProjectScanPicks. */
  lemma {:induction false} PersonScanPicks(hu: HarvestUser, fus: seq<ForecastPerson>, nameMatch: Option<int>)
    ensures var r := PersonScan(hu, fus, nameMatch);
      && ((exists k :: 0 <= k < |fus| && ExplicitPerson(fus[k], hu.id)) ==>
            exists k :: 0 <= k < |fus| && ExplicitPerson(fus[k], hu.id) && r == Some(fus[k].id)
                        && forall j :: 0 <= j < k ==> !ExplicitPerson(fus[j], hu.id))
      && ((forall k :: 0 <= k < |fus| ==> !ExplicitPerson(fus[k], hu.id)) && (exists k :: 0 <= k < |fus| && SamePerson(fus[k], hu)) ==>
            exists k :: 0 <= k < |fus| && SamePerson(fus[k], hu) && r == Some(fus[k].id)
                        && forall j :: k < j < |fus| ==> !SamePerson(fus[j], hu))
      && ((forall k :: 0 <= k < |fus| ==> !ExplicitPerson(fus[k], hu.id) && !SamePerson(fus[k], hu)) ==> r == nameMatch)
  {
    if fus != [] && !ExplicitPerson(fus[0], hu.id) {
      var m := if SamePerson(fus[0], hu) then Some(fus[0].id) else nameMatch;
      PersonScanPicks(hu, fus[1..], m);
      assert forall k :: 0 <= k < |fus| - 1 ==> fus[1..][k] == fus[k + 1];
    }
  }

  /** A user gets no link exactly when no candidate is explicitly linked to them or is the same person. */
  lemma PersonLinkNone(hu: HarvestUser, fus: seq<ForecastPerson>)
    ensures PersonLink(hu, fus).None? <==>
              forall k :: 0 <= k < |fus| ==> !ExplicitPerson(fus[k], hu.id) && !SamePerson(fus[k], hu)
  {
    PersonScanPicks(hu, fus, None);
  }

  /** linkProjects over the projects in order: each project with a link has it recorded under its id. */
  function LinkProjectsInto(links: map<int, int>, hps: seq<HarvestProject>, fps: seq<ForecastProject>): map<int, int>
  {
    if hps == [] then links
    else RecordLink(LinkProjectsInto(links, hps[..|hps| - 1], fps), hps[|hps| - 1].id, ProjectLink(hps[|hps| - 1], fps))
  }

  /** linkUsers over the users in order, as LinkProjectsInto. */
  function LinkUsersInto(links: map<int, int>, hus: seq<HarvestUser>, fus: seq<ForecastPerson>): map<int, int>
  {
    if hus == [] then links
    else RecordLink(LinkUsersInto(links, hus[..|hus| - 1], fus), hus[|hus| - 1].id, PersonLink(hus[|hus| - 1], fus))
  }

  /** Record the link under the id when there is one. */
  function RecordLink(links: map<int, int>, id: int, link: Option<int>): map<int, int>
  {
    match link
    case Some(v) => links[id := v]
    case None => links
  }

  /** Dropping the last element of a list with unique keys leaves unique keys, none equal to the last one's. */
  lemma UniqueKeysPrefix<T>(s: seq<T>, key: T -> int)
    requires s != [] && UniqueKeys(s, key)
    ensures UniqueKeys(s[..|s| - 1], key)
    ensures forall x :: x in s[..|s| - 1] ==> key(x) != key(s[|s| - 1])
  {
    var prefix := s[..|s| - 1];
    forall x | x in prefix ensures key(x) != key(s[|s| - 1]) {
      var i :| 0 <= i < |prefix| && prefix[i] == x;
      assert s[i] == x;
    }
  }

  /**
    After linkProjects an id has a link exactly when it had one before or
    some project with that id finds a candidate; ids of no listed project
    keep their link; and, with one project per id, each project's link is
    the one ProjectLink picks.
   */
  lemma {:induction false} LinkProjectsIntoLinks(links: map<int, int>, hps: seq<HarvestProject>, fps: seq<ForecastProject>)
    ensures var r := LinkProjectsInto(links, hps, fps);
      && (forall id :: id in r <==> id in links || exists h :: h in hps && h.id == id && ProjectLink(h, fps).Some?)
      && (forall id :: id in links && (forall h :: h in hps ==> h.id != id) ==> r[id] == links[id])
      && (UniqueKeys(hps, HarvestProjectKey) ==>
            forall h :: h in hps && ProjectLink(h, fps).Some? ==> r[h.id] == ProjectLink(h, fps).value)
  {
    if hps != [] {
      var prefix := hps[..|hps| - 1];
      var h := hps[|hps| - 1];
      var r0 := LinkProjectsInto(links, prefix, fps);
      var r := RecordLink(r0, h.id, ProjectLink(h, fps));
      assert LinkProjectsInto(links, hps, fps) == r;
      LinkProjectsIntoLinks(links, prefix, fps);
      assert hps == prefix + [h];
      assert forall g :: g in hps <==> g in prefix || g == h;
      if UniqueKeys(hps, HarvestProjectKey) {
        UniqueKeysPrefix(hps, HarvestProjectKey);
        forall g | g in hps && ProjectLink(g, fps).Some? ensures r[g.id] == ProjectLink(g, fps).value {
          if g != h {
            assert g in prefix && g.id != h.id;
          }
        }
      }
    }
  }

  /** linkUsers, as LinkProjectsIntoLinks. */
  lemma {:induction false} LinkUsersIntoLinks(links: map<int, int>, hus: seq<HarvestUser>, fus: seq<ForecastPerson>)
    ensures var r := LinkUsersInto(links, hus, fus);
      && (forall id :: id in r <==> id in links || exists h :: h in hus && h.id == id && PersonLink(h, fus).Some?)
      && (forall id :: id in links && (forall h :: h in hus ==> h.id != id) ==> r[id] == links[id])
      && (UniqueKeys(hus, HarvestUserKey) ==>
            forall h :: h in hus && PersonLink(h, fus).Some? ==> r[h.id] == PersonLink(h, fus).value)
  {
    if hus != [] {
      var prefix := hus[..|hus| - 1];
      var h := hus[|hus| - 1];
      var r0 := LinkUsersInto(links, prefix, fus);
      var r := RecordLink(r0, h.id, PersonLink(h, fus));
      assert LinkUsersInto(links, hus, fus) == r;
      LinkUsersIntoLinks(links, prefix, fus);
      assert hus == prefix + [h];
      assert forall g :: g in hus <==> g in prefix || g == h;
      if UniqueKeys(hus, HarvestUserKey) {
        UniqueKeysPrefix(hus, HarvestUserKey);
        forall g | g in hus && PersonLink(g, fus).Some? ensures r[g.id] == PersonLink(g, fus).value {
          if g != h {
            assert g in prefix && g.id != h.id;
          }
        }
      }
    }
  }

  /** One more project of the outer loop of linkProjects records its link, if any. */
  lemma LinkProjectsStep(links: map<int, int>, hps: seq<HarvestProject>, fps: seq<ForecastProject>, i: int)
    requires 0 <= i < |hps|
    ensures LinkProjectsInto(links, hps[..i + 1], fps) ==
              RecordLink(LinkProjectsInto(links, hps[..i], fps), hps[i].id, ProjectLink(hps[i], fps))
  {
    assert hps[..i + 1][..i] == hps[..i];
  }

  /** One more user of the outer loop of linkUsers records its link, if any. */
  lemma LinkUsersStep(links: map<int, int>, hus: seq<HarvestUser>, fus: seq<ForecastPerson>, i: int)
    requires 0 <= i < |hus|
    ensures LinkUsersInto(links, hus[..i + 1], fus) ==
              RecordLink(LinkUsersInto(links, hus[..i], fus), hus[i].id, PersonLink(hus[i], fus))
  {
    assert hus[..i + 1][..i] == hus[..i];
  }

  /** One candidate of the inner loop of linkProjects: an explicit link ends the scan, a name match is remembered. */
  lemma ProjectScanStep(hp: HarvestProject, fps: seq<ForecastProject>, j: int, nameMatch: Option<int>)
    requires 0 <= j < |fps|
    ensures ExplicitProject(fps[j], hp.id) ==> ProjectScan(hp, fps[j..], nameMatch) == Some(fps[j].id)
    ensures !ExplicitProject(fps[j], hp.id) ==>
              ProjectScan(hp, fps[j..], nameMatch) ==
              ProjectScan(hp, fps[j + 1..], if fps[j].name == hp.name then Some(fps[j].id) else nameMatch)
  {
    assert fps[j..][0] == fps[j] && fps[j..][1..] == fps[j + 1..];
  }

  /** One candidate of the inner loop of linkUsers, as ProjectScanStep. */
  lemma PersonScanStep(hu: HarvestUser, fus: seq<ForecastPerson>, j: int, nameMatch: Option<int>)
    requires 0 <= j < |fus|
    ensures ExplicitPerson(fus[j], hu.id) ==> PersonScan(hu, fus[j..], nameMatch) == Some(fus[j].id)
    ensures !ExplicitPerson(fus[j], hu.id) ==>
              PersonScan(hu, fus[j..], nameMatch) ==
              PersonScan(hu, fus[j + 1..], if SamePerson(fus[j], hu) then Some(fus[j].id) else nameMatch)
  {
    assert fus[j..][0] == fus[j] && fus[j..][1..] == fus[j + 1..];
  }

  /** An explicit link anywhere among the candidates beats every name match. */
  lemma ExplicitLinkWins(hp: HarvestProject, fps: seq<ForecastProject>, k: int)
    requires 0 <= k < |fps| && ExplicitProject(fps[k], hp.id)
    requires forall j :: 0 <= j < k ==> !ExplicitProject(fps[j], hp.id)
    ensures ProjectLink(hp, fps) == Some(fps[k].id)
  {
    ProjectScanPicks(hp, fps, None);
  }

  /** The name of the source project with the id, empty when it was not loaded. */
  function ProjectName(hps: seq<HarvestProject>, id: int): string
  {
    if hps == [] then ""
    else if hps[0].id == id then hps[0].name
    else ProjectName(hps[1..], id)
  }
}
