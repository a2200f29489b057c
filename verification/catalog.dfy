/**
 The part of the mod database's answer that the updater reads. For one mod, the
 Vintage Story mod database returns its name and its list of releases. Each
 release carries a mod version, the game versions it is tagged for, and a
 changelog. Both updaters walk this list in the order the database gives it.
 */
module Catalog {
  import opened TupleOrder
  import opened Utils

  /** One entry of `mod["releases"]`. The updater reads `modversion`, `tags`
      and `changelog`; the two file names are only carried along into the
      update record. */
  datatype Release = Release(
    modversion: string,
    tags: seq<string>,
    changelog: string,
    filename: string,
    mainfile: string)

  /** `mod_db_info["mod"]`: the mod's display name and its releases. */
  datatype ModInfo = ModInfo(name: string, releases: seq<Release>)

  /** One `{modversion: changelog}` entry of the canonical changelog. */
  datatype ChangeEntry = ChangeEntry(version: string, text: string)

  /** The key of a release's mod version. */
  function KeyOf(r: Release): (key: seq<int>)
  {
    ParseVersion(r.modversion)
  }

  /** The changelog entry a release contributes. */
  function EntryOf(r: Release): (e: ChangeEntry)
  {
    ChangeEntry(r.modversion, r.changelog)
  }

  /** The database lists releases newest first: no release has a key above
      that of a release listed before it. Keys may repeat, since `parse_version`
      gives every unknown qualifier the same element ("1.0.0-beta" and
      "1.0.0-alpha" share a key). The updaters rely on this without checking it. */
  predicate NewestFirst(releases: seq<Release>)
  {
    forall i, j :: 0 <= i < j < |releases| ==> LessOrEqual(KeyOf(releases[j]), KeyOf(releases[i]))
  }
}
