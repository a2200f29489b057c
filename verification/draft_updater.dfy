/**
 The earlier update resolver of `src/vs_updater.py`. It takes the first release
 tagged exactly with the game version. When no release is tagged, it falls
 back to the key of "0.0.0" and no release. It reports an update when the
 installed key is below that candidate. Its changelog is one string, not a
 list of entries.
 */
module DraftUpdater {
  import opened TupleOrder
  import opened Utils
  import opened Catalog
  import ModUpdater

  /** `latest_mod_release`: a release, or the empty dict `{}` when no release
      is tagged with the game version. */
  datatype Option<T> = None | Some(value: T)

  /** The index of the first release tagged exactly with the game version, or
      the number of releases when there is none. */
  function FirstTagged(releases: seq<Release>, game: string): (i: nat)
    ensures i <= |releases|
    ensures forall j :: 0 <= j < i ==> game !in releases[j].tags
    ensures i < |releases| ==> game in releases[i].tags
  {
    if |releases| == 0 then 0
    else if game in releases[0].tags then 0
    else 1 + FirstTagged(releases[1..], game)
  }

  /** `parse_version("0.0.0")`, the candidate when no release is tagged. */
  function DefaultKey(): (key: seq<int>)
  {
    ParseVersion("0.0.0")
  }

  lemma DefaultKeyValue()
    ensures DefaultKey() == [0, 0, 0, 0]
  {
    assert "0.0.0" == "0" + "." + "0" + "." + "0";
    NumericKey3("0", "0", "0");
  }

  /** The key the draft compares against: the first exactly tagged release's,
      else that of "0.0.0". */
  function Candidate(releases: seq<Release>, game: string): (c: seq<int>)
    ensures (forall j :: 0 <= j < |releases| ==> game !in releases[j].tags) ==> c == DefaultKey()
    ensures forall j ::
              && 0 <= j < |releases|
              && game in releases[j].tags
              && (forall k :: 0 <= k < j ==> game !in releases[k].tags)
              ==> c == KeyOf(releases[j])
  {
    var i := FirstTagged(releases, game);
    if i < |releases| then KeyOf(releases[i]) else DefaultKey()
  }

  /** The record appended to `mod_updates`. Both versions are stored as keys,
      not strings. */
  datatype Update = Update(
    modId: string,
    name: string,
    currentVersion: seq<int>,
    latestVersion: seq<int>,
    latestRelease: Option<Release>,
    changelog: string)

  datatype Outcome = Updated(update: Update) | UpToDate

  /** `check_mod_for_update` of the draft, with `gameVersion` normalized as
      the plugin window does. The candidate is the first exactly tagged
      release, else "0.0.0" with no release. The update is reported exactly
      when the installed key is below the candidate's key. */
  function CheckModForUpdate(modId: string, installedVersion: string, gameVersion: string, mod: ModInfo): (o: Outcome)
    ensures var game := NormalizeVersion(gameVersion);
            var current := ParseVersion(installedVersion);
            var i := FirstTagged(mod.releases, game);
            var candidate := Candidate(mod.releases, game);
            && (o.Updated? <==> Less(current, candidate))
            && (o.Updated? ==>
                  && o.update.modId == modId
                  && o.update.name == mod.name
                  && o.update.currentVersion == current
                  && o.update.latestVersion == candidate
                  && o.update.latestRelease == (if i < |mod.releases| then Some(mod.releases[i]) else None)
                  && o.update.changelog == GenerateChangelog(mod.releases, current, game))
  {
    var game := NormalizeVersion(gameVersion);
    var current := ParseVersion(installedVersion);
    var i := FirstTagged(mod.releases, game);
    var candidate := Candidate(mod.releases, game);
    var release := if i < |mod.releases| then Some(mod.releases[i]) else None;
    AtLeastIffNotLess(current, candidate);
    if LessOrEqual(candidate, current) then UpToDate
    else Updated(Update(modId, mod.name, current, candidate, release,
                        GenerateChangelog(mod.releases, current, game)))
  }

  /** `generate_changelog` of the draft: the same walk as the canonical one,
      concatenating "modversion\nchangelog\n\n" for each listed release. */
  function GenerateChangelog(releases: seq<Release>, current: seq<int>, game: string): (log: string)
    ensures log == "" <==> ModUpdater.GenerateChangelog(releases, current, game) == []
  {
    if |releases| == 0 then ""
    else
      var r := releases[0];
      if ModUpdater.Listed(r, current, game) then
        r.modversion + "\n" + r.changelog + "\n\n" + GenerateChangelog(releases[1..], current, game)
      else if KeyOf(r) == current then ""
      else GenerateChangelog(releases[1..], current, game)
  }

  /** The text of a list of changelog entries in the draft's format. */
  function Render(entries: seq<ChangeEntry>): (text: string)
    ensures |text| >= 3 * |entries|
  {
    if |entries| == 0 then ""
    else entries[0].version + "\n" + entries[0].text + "\n\n" + Render(entries[1..])
  }

  /** The draft's changelog is the canonical changelog rendered as text: the
      two walks list the same releases in the same order. */
  lemma {:induction false} ChangelogRendersCanonical(releases: seq<Release>, current: seq<int>, game: string)
    ensures GenerateChangelog(releases, current, game)
            == Render(ModUpdater.GenerateChangelog(releases, current, game))
    decreases |releases|
  {
    if |releases| > 0 {
      ChangelogRendersCanonical(releases[1..], current, game);
    }
  }

  /** With no releases, the draft reports nothing for any installed key at
      least that of "0.0.0", and its changelog is empty. */
  lemma NoReleasesNoUpdate(modId: string, installedVersion: string, gameVersion: string, name: string)
    requires LessOrEqual(DefaultKey(), ParseVersion(installedVersion))
    ensures CheckModForUpdate(modId, installedVersion, gameVersion, ModInfo(name, [])) == UpToDate
    ensures GenerateChangelog([], ParseVersion(installedVersion), NormalizeVersion(gameVersion)) == ""
  {
    AtLeastIffNotLess(ParseVersion(installedVersion), DefaultKey());
  }

  /** Exact tags and compatibility coincide on every release, and every
      release has a tag. */
  predicate ExactOnly(releases: seq<Release>, game: string)
  {
    forall j :: 0 <= j < |releases| ==>
      && |releases[j].tags| > 0
      && (ModUpdater.Compatible(game, releases[j].tags) <==> game in releases[j].tags)
  }

  /** When compatibility means an exact tag, the release the canonical walk
      selects is the first exactly tagged one. */
  lemma SelectionIsFirstTagged(releases: seq<Release>, current: seq<int>, game: string)
    requires ExactOnly(releases, game)
    requires ModUpdater.Scan(releases, current, game, 0).Selected?
    ensures FirstTagged(releases, game) == ModUpdater.Scan(releases, current, game, 0).index
  {
  }

  /** When the canonical walk selects nothing, the draft's candidate is not
      newer than the installed version either. */
  lemma NoSelectionNoCandidate(releases: seq<Release>, current: seq<int>, game: string)
    requires NewestFirst(releases) && ExactOnly(releases, game)
    requires LessOrEqual(DefaultKey(), current)
    requires !ModUpdater.Scan(releases, current, game, 0).Selected?
    ensures !Less(current, Candidate(releases, game))
  {
    var i := FirstTagged(releases, game);
    var s := ModUpdater.Scan(releases, current, game, 0);
    if s.Reached? && i < |releases| {
      var kk := KeyOf(releases[s.index]);
      var ki := KeyOf(releases[i]);
      if i > s.index {
        LessOrEqualTransitive(ki, kk, current);
      }
      AtLeastIffNotLess(current, ki);
    } else {
      assert i == |releases|;
      AtLeastIffNotLess(current, DefaultKey());
    }
  }

  /** The two resolvers agree when the releases are newest first, every
      release has a tag, the minor-version fallback never accepts a release
      without an exact tag, and the installed key is at least that of
      "0.0.0": both report an update or neither does, for the same release. */
  lemma AgreesWithCanonical(modId: string, installedVersion: string, gameVersion: string, mod: ModInfo)
    requires NewestFirst(mod.releases)
    requires ExactOnly(mod.releases, NormalizeVersion(gameVersion))
    requires LessOrEqual(DefaultKey(), ParseVersion(installedVersion))
    ensures var draft := CheckModForUpdate(modId, installedVersion, gameVersion, mod);
            var canonical := ModUpdater.CheckModForUpdate(modId, installedVersion, gameVersion, mod);
            && (draft.Updated? <==> canonical.Updated?)
            && (draft.Updated? ==> draft.update.latestRelease == Some(canonical.update.latestRelease))
  {
    var game := NormalizeVersion(gameVersion);
    var current := ParseVersion(installedVersion);
    var draft := CheckModForUpdate(modId, installedVersion, gameVersion, mod);
    var canonical := ModUpdater.CheckModForUpdate(modId, installedVersion, gameVersion, mod);
    var s := ModUpdater.Scan(mod.releases, current, game, 0);
    assert canonical.Updated? <==> s.Selected?;
    if s.Selected? {
      SelectionIsFirstTagged(mod.releases, current, game);
      assert canonical.update.latestRelease == mod.releases[s.index];
    } else {
      NoSelectionNoCandidate(mod.releases, current, game);
    }
  }
}
