/**
 The update resolver of `src/vs_mod_updater.py`. For one installed mod, it walks
 the mod's releases newest first. It picks the first release that is newer than
 the installed version and supports the running game version. It stops early at
 the first release that is not newer. It also builds the list of changelog
 entries between the installed version and the newest release.
 */
module ModUpdater {
  import opened TupleOrder
  import opened Utils
  import opened Catalog

  // ---------------------------------------------------------------------------
  // Which release is the update
  // ---------------------------------------------------------------------------

  /** A release tagged `tags` supports the running game, whose normalized
      version is `game`, when `game` is one of the tags, or when the game's
      key and the key of the release's last tag agree at index 1 (the minor
      version). The last tag is `tags[-1]`, so the release needs a tag. The
      two length guards always hold, since every key has at least two
      elements: compatibility is exact membership or equal minor versions. */
  predicate Compatible(game: string, tags: seq<string>)
    requires |tags| > 0
    ensures Compatible(game, tags)
            <==> game in tags || ParseVersion(game)[1] == ParseVersion(tags[|tags| - 1])[1]
  {
    var gameKey := ParseVersion(game);
    var latestKey := ParseVersion(tags[|tags| - 1]);
    game in tags || (|gameKey| >= 2 && |latestKey| >= 2 && gameKey[1] == latestKey[1])
  }

  /** The release is strictly newer than the installed version. */
  predicate Newer(r: Release, current: seq<int>)
  {
    Less(current, KeyOf(r))
  }

  /** The scan walks on past this release: it has a tag, it is newer, but it
      does not support the game. */
  predicate PassedOver(r: Release, current: seq<int>, game: string)
  {
    |r.tags| > 0 && Newer(r, current) && !Compatible(game, r.tags)
  }

  /** Every release at an index in `from..to` is passed over. */
  predicate AllPassedOver(releases: seq<Release>, current: seq<int>, game: string, from: nat, to: nat)
  {
    forall j :: from <= j < to ==> j < |releases| && PassedOver(releases[j], current, game)
  }

  /** Where the loop over the releases ends. */
  datatype Stop =
    | Selected(index: nat)  // newer and compatible: this release is the update
    | Reached(index: nat)   // not newer than the installed version: `return`
    | Crashed(index: nat)   // no tags: `release["tags"][-1]` raises IndexError
    | Exhausted             // every release passed over: no update

  /** What each way of ending means, starting the walk at index `from`: every
      release before the stop is passed over, and the one it stops at explains
      why it stops. */
  predicate StopsAt(releases: seq<Release>, current: seq<int>, game: string, from: nat, s: Stop)
  {
    match s
    case Selected(i) =>
      from <= i < |releases| && AllPassedOver(releases, current, game, from, i)
      && |releases[i].tags| > 0 && Newer(releases[i], current)
      && Compatible(game, releases[i].tags)
    case Reached(i) =>
      from <= i < |releases| && AllPassedOver(releases, current, game, from, i)
      && |releases[i].tags| > 0 && LessOrEqual(KeyOf(releases[i]), current)
    case Crashed(i) =>
      from <= i < |releases| && AllPassedOver(releases, current, game, from, i)
      && |releases[i].tags| == 0
    case Exhausted =>
      from <= |releases| && AllPassedOver(releases, current, game, from, |releases|)
  }

  /** The loop of `check_mod_for_update` from index `from` on. Each iteration
      first reads the last tag, then tests "newer and compatible", then tests
      "installed >= release". */
  function Scan(releases: seq<Release>, current: seq<int>, game: string, from: nat): (s: Stop)
    requires from <= |releases|
    ensures StopsAt(releases, current, game, from, s)
    decreases |releases| - from
  {
    if from == |releases| then Exhausted
    else
      var r := releases[from];
      if |r.tags| == 0 then Crashed(from)
      else if Newer(r, current) && Compatible(game, r.tags) then Selected(from)
      else if LessOrEqual(KeyOf(r), current) then Reached(from)
      else
        AtLeastIffNotLess(current, KeyOf(r));
        Scan(releases, current, game, from + 1)
  }

  /** A release cannot be both newer than the installed version and at most
      as new as it. */
  lemma NewerExcludesNotNewer(r: Release, current: seq<int>)
    ensures !(Newer(r, current) && LessOrEqual(KeyOf(r), current))
  {
    Trichotomy(current, KeyOf(r));
  }

  /** The ways of ending exclude each other: the walk has exactly one
      outcome, and it is the one `Scan` computes. */
  lemma {:induction false} ScanIsTheOnlyStop(releases: seq<Release>, current: seq<int>, game: string, from: nat)
    requires from <= |releases|
    ensures forall t :: StopsAt(releases, current, game, from, t) ==> t == Scan(releases, current, game, from)
    decreases |releases| - from
  {
    if from < |releases| {
      ScanIsTheOnlyStop(releases, current, game, from + 1);
      forall t | StopsAt(releases, current, game, from, t)
        ensures t == Scan(releases, current, game, from)
      {
        StopIsScan(releases, current, game, from, t);
      }
    }
  }

  /** One step of the uniqueness proof: a stop of the walk from `from` is the
      computed one, given that this holds for the walk from `from + 1`. */
  lemma StopIsScan(releases: seq<Release>, current: seq<int>, game: string, from: nat, t: Stop)
    requires from < |releases| && StopsAt(releases, current, game, from, t)
    requires StopsAt(releases, current, game, from + 1, t) ==> t == Scan(releases, current, game, from + 1)
    ensures t == Scan(releases, current, game, from)
  {
    if PassedOver(releases[from], current, game) {
      StopPastFirst(releases, current, game, from, t);
      ScanSkipsPassedOver(releases, current, game, from);
    } else {
      StopAtFirst(releases, current, game, from, t);
    }
  }

  /** When the first release is not passed over, every stop is at it. */
  lemma StopAtFirst(releases: seq<Release>, current: seq<int>, game: string, from: nat, t: Stop)
    requires from < |releases| && !PassedOver(releases[from], current, game)
    requires StopsAt(releases, current, game, from, t)
    ensures t == Scan(releases, current, game, from)
  {
    NewerExcludesNotNewer(releases[from], current);
    assert !t.Exhausted? && t.index == from;
  }

  /** A release that is passed over does not change where the walk stops. */
  lemma ScanSkipsPassedOver(releases: seq<Release>, current: seq<int>, game: string, from: nat)
    requires from < |releases| && PassedOver(releases[from], current, game)
    ensures Scan(releases, current, game, from) == Scan(releases, current, game, from + 1)
  {
    NewerExcludesNotNewer(releases[from], current);
  }

  /** When the first release is passed over, every stop is also a stop of
      the walk that starts after it. */
  lemma StopPastFirst(releases: seq<Release>, current: seq<int>, game: string, from: nat, t: Stop)
    requires from < |releases| && PassedOver(releases[from], current, game)
    requires StopsAt(releases, current, game, from, t)
    ensures StopsAt(releases, current, game, from + 1, t)
  {
    NewerExcludesNotNewer(releases[from], current);
  }

  // ---------------------------------------------------------------------------
  // The changelog
  // ---------------------------------------------------------------------------

  /** A release whose changelog is listed: tagged with the game version
      exactly, and newer than the installed version. Such a release is one the
      resolver could select, and neither walk stops at it: its key is neither
      equal to nor below the installed one. */
  predicate Listed(r: Release, current: seq<int>, game: string)
    ensures Listed(r, current, game)
            ==> && |r.tags| > 0
                && Compatible(game, r.tags)
                && !LessOrEqual(KeyOf(r), current)
  {
    NewerExcludesNotNewer(r, current);
    game in r.tags && Newer(r, current)
  }

  /** `generate_changelog`: the entries of the listed releases, walking newest
      first and stopping at the release whose key equals the installed key. */
  function GenerateChangelog(releases: seq<Release>, current: seq<int>, game: string): (log: seq<ChangeEntry>)
    ensures |log| <= |releases|
    ensures forall k :: 0 <= k < |log| ==> Less(current, ParseVersion(log[k].version))
  {
    if |releases| == 0 then []
    else
      var r := releases[0];
      if Listed(r, current, game) then [EntryOf(r)] + GenerateChangelog(releases[1..], current, game)
      else if KeyOf(r) == current then []
      else GenerateChangelog(releases[1..], current, game)
  }

  /** The index of the first release whose key equals the installed key, or
      the number of releases when there is none. */
  function Boundary(releases: seq<Release>, current: seq<int>): (b: nat)
    ensures b <= |releases|
    ensures forall j :: 0 <= j < b ==> KeyOf(releases[j]) != current
    ensures b < |releases| ==> KeyOf(releases[b]) == current
  {
    if |releases| == 0 then 0
    else if KeyOf(releases[0]) == current then 0
    else 1 + Boundary(releases[1..], current)
  }

  /** The entries of all listed releases, in list order. */
  function ListedEntries(releases: seq<Release>, current: seq<int>, game: string): (log: seq<ChangeEntry>)
    ensures |log| <= |releases|
  {
    if |releases| == 0 then []
    else
      (if Listed(releases[0], current, game) then [EntryOf(releases[0])] else [])
      + ListedEntries(releases[1..], current, game)
  }

  /** Every listed release has its entry among the listed entries. */
  lemma {:induction false} ListedEntryAppears(releases: seq<Release>, current: seq<int>, game: string, i: nat)
    requires i < |releases| && Listed(releases[i], current, game)
    ensures EntryOf(releases[i]) in ListedEntries(releases, current, game)
    decreases i
  {
    if i > 0 {
      ListedEntryAppears(releases[1..], current, game, i - 1);
    }
  }

  /** The changelog holds exactly the entries of the listed releases before
      the installed version's own release, in list order. The walk stops
      there even when the list is not newest first. */
  lemma {:induction false} ChangelogIsListedBeforeBoundary(releases: seq<Release>, current: seq<int>, game: string)
    ensures GenerateChangelog(releases, current, game)
            == ListedEntries(releases[..Boundary(releases, current)], current, game)
    decreases |releases|
  {
    if |releases| > 0 {
      var r := releases[0];
      var b := Boundary(releases, current);
      if KeyOf(r) == current {
        Irreflexive(current);
        assert releases[..b] == [];
      } else {
        ChangelogIsListedBeforeBoundary(releases[1..], current, game);
        assert releases[..b][0] == r;
        assert releases[..b][1..] == releases[1..][..b - 1];
      }
    }
  }

  // ---------------------------------------------------------------------------
  // check_mod_for_update
  // ---------------------------------------------------------------------------

  /** The record appended to `mod_updates`. */
  datatype Update = Update(
    modId: string,
    name: string,
    currentVersion: string,
    latestVersion: string,
    latestRelease: Release,
    changelog: seq<ChangeEntry>)

  /** What one check produces. `Failed` is the IndexError that the caller
      catches and logs; like `UpToDate`, it appends nothing. */
  datatype Outcome = Updated(update: Update) | UpToDate | Failed

  /** `check_mod_for_update` for the installed `installedVersion` of the mod,
      with the game reporting `gameVersion` and the database answering `mod`.
      The game version is normalized once, as the plugin window does when it
      opens. */
  function CheckModForUpdate(modId: string, installedVersion: string, gameVersion: string, mod: ModInfo): (o: Outcome)
    ensures var game := NormalizeVersion(gameVersion);
            var current := ParseVersion(installedVersion);
            && (o.Updated? <==> exists i :: StopsAt(mod.releases, current, game, 0, Selected(i)))
            && (o.Failed? <==> exists i :: StopsAt(mod.releases, current, game, 0, Crashed(i)))
            && (o.Updated? ==>
                  && o.update.modId == modId
                  && o.update.name == mod.name
                  && o.update.currentVersion == installedVersion
                  && (forall i: nat :: StopsAt(mod.releases, current, game, 0, Selected(i))
                                  ==> o.update.latestRelease == mod.releases[i])
                  && o.update.latestVersion == o.update.latestRelease.modversion
                  && Less(current, ParseVersion(o.update.latestVersion))
                  && |o.update.latestRelease.tags| > 0
                  && Compatible(game, o.update.latestRelease.tags)
                  && o.update.changelog == GenerateChangelog(mod.releases, current, game))
    ensures |mod.releases| == 0 ==> o == UpToDate
  {
    var game := NormalizeVersion(gameVersion);
    var current := ParseVersion(installedVersion);
    var s := Scan(mod.releases, current, game, 0);
    ScanIsTheOnlyStop(mod.releases, current, game, 0);
    match s
    case Selected(i) =>
      var r := mod.releases[i];
      Updated(Update(modId, mod.name, installedVersion, r.modversion, r,
                     GenerateChangelog(mod.releases, current, game)))
    case Crashed(_) => Failed
    case _ => UpToDate
  }

  // ---------------------------------------------------------------------------
  // Properties under the newest-first ordering
  // ---------------------------------------------------------------------------

  /** With the releases newest first, the selected release is the newest
      among those with a tag that are newer and compatible. */
  lemma SelectedIsNewestCompatible(releases: seq<Release>, current: seq<int>, game: string, i: nat)
    requires NewestFirst(releases)
    requires StopsAt(releases, current, game, 0, Selected(i))
    ensures forall j :: 0 <= j < |releases| && |releases[j].tags| > 0
                        && Newer(releases[j], current) && Compatible(game, releases[j].tags)
                        ==> i <= j && LessOrEqual(KeyOf(releases[j]), KeyOf(releases[i]))
  {
  }

  /** With the releases newest first, when the check finds no update, no
      release with a tag is both newer and compatible. */
  lemma UpToDateMeansNoCompatibleNewer(modId: string, installedVersion: string, gameVersion: string, mod: ModInfo)
    requires NewestFirst(mod.releases)
    requires CheckModForUpdate(modId, installedVersion, gameVersion, mod) == UpToDate
    ensures forall j :: 0 <= j < |mod.releases| && |mod.releases[j].tags| > 0
                        && Newer(mod.releases[j], ParseVersion(installedVersion))
                        ==> !Compatible(NormalizeVersion(gameVersion), mod.releases[j].tags)
  {
    var s := Scan(mod.releases, ParseVersion(installedVersion), NormalizeVersion(gameVersion), 0);
    assert s.Reached? || s.Exhausted?;
    NothingNewerPastReach(mod.releases, ParseVersion(installedVersion), NormalizeVersion(gameVersion));
  }

  /** With the releases newest first, a walk that stops without selecting or
      crashing has passed over every newer release: none after the stop is
      newer, since its key is at most that of the release reached. */
  lemma NothingNewerPastReach(releases: seq<Release>, current: seq<int>, game: string)
    requires NewestFirst(releases)
    requires Scan(releases, current, game, 0).Reached? || Scan(releases, current, game, 0).Exhausted?
    ensures forall j :: 0 <= j < |releases| && |releases[j].tags| > 0 && Newer(releases[j], current)
                        ==> !Compatible(game, releases[j].tags)
  {
    var s := Scan(releases, current, game, 0);
    if s.Reached? {
      var ki := KeyOf(releases[s.index]);
      NewerExcludesNotNewer(releases[s.index], current);
      forall j | s.index < j < |releases|
        ensures !Newer(releases[j], current)
      {
        LessOrEqualTransitive(KeyOf(releases[j]), ki, current);
        AtLeastIffNotLess(current, KeyOf(releases[j]));
      }
    }
  }

  /** When the selected release is tagged with the game version exactly, its
      own entry is in the changelog. */
  lemma TaggedSelectionInChangelog(releases: seq<Release>, current: seq<int>, game: string, i: nat)
    requires StopsAt(releases, current, game, 0, Selected(i))
    requires game in releases[i].tags
    ensures EntryOf(releases[i]) in GenerateChangelog(releases, current, game)
  {
    Irreflexive(current);
    var b := Boundary(releases, current);
    assert forall j :: 0 <= j <= i ==> Newer(releases[j], current);
    assert i < b;
    ChangelogIsListedBeforeBoundary(releases, current, game);
    assert releases[..b][i] == releases[i];
    ListedEntryAppears(releases[..b], current, game, i);
  }
}
