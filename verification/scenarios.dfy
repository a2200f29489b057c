/**
 Concrete runs of both resolvers on small release lists. They show how the
 minor-version fallback, the early stop and the untagged release behave, and
 where the two resolvers part ways.
 */
module Scenarios {
  import opened TupleOrder
  import opened Text
  import opened Utils
  import opened Catalog
  import ModUpdater
  import DraftUpdater

  /** A release with no file names, which neither resolver reads. */
  function Tagged(version: string, tags: seq<string>, changelog: string): (r: Release)
  {
    Release(version, tags, changelog, "", "")
  }

  /** The two releases of the first scenarios: "1.1.0" for game 1.20.0, then
      "1.0.0" for game 1.19.0. */
  function TwoReleases(): (mod: ModInfo)
  {
    ModInfo("Example", [Tagged("1.1.0", ["1.20.0"], "fix"), Tagged("1.0.0", ["1.19.0"], "")])
  }

  lemma KeyOf100()
    ensures ParseVersion("1.0.0") == [1, 0, 0, 0]
  {
    assert DigitsValue("1") == 1 by { OneDigit('1'); }
    assert DigitsValue("0") == 0 by { OneDigit('0'); }
    assert "1.0.0" == "1" + "." + "0" + "." + "0";
    NumericKey3("1", "0", "0");
  }

  lemma KeyOf110()
    ensures ParseVersion("1.1.0") == [1, 1, 0, 0]
  {
    assert DigitsValue("1") == 1 by { OneDigit('1'); }
    assert DigitsValue("0") == 0 by { OneDigit('0'); }
    assert "1.1.0" == "1" + "." + "1" + "." + "0";
    NumericKey3("1", "1", "0");
  }

  lemma KeyOf120()
    ensures ParseVersion("1.20") == [1, 20, 0]
  {
    assert DigitsValue("1") == 1 by { OneDigit('1'); }
    assert DigitsValue("20") == 20 by { TwoDigits('2', '0'); }
    assert "1.20" == "1" + "." + "20";
    NumericKey2("1", "20");
  }

  lemma KeyOf1200()
    ensures ParseVersion("1.20.0") == [1, 20, 0, 0]
  {
    assert DigitsValue("1") == 1 by { OneDigit('1'); }
    assert DigitsValue("20") == 20 by { TwoDigits('2', '0'); }
    assert DigitsValue("0") == 0 by { OneDigit('0'); }
    assert "1.20.0" == "1" + "." + "20" + "." + "0";
    NumericKey3("1", "20", "0");
  }

  lemma KeyOf1203()
    ensures ParseVersion("1.20.3") == [1, 20, 3, 0]
  {
    assert DigitsValue("1") == 1 by { OneDigit('1'); }
    assert DigitsValue("20") == 20 by { TwoDigits('2', '0'); }
    assert DigitsValue("3") == 3 by { OneDigit('3'); }
    assert "1.20.3" == "1" + "." + "20" + "." + "3";
    NumericKey3("1", "20", "3");
  }

  lemma KeyOf00()
    ensures ParseVersion("0.0") == [0, 0, 0]
  {
    assert DigitsValue("0") == 0 by { OneDigit('0'); }
    assert "0.0" == "0" + "." + "0";
    NumericKey2("0", "0");
  }

  lemma KeyOfPre()
    ensures ParseVersion("pre") == [-2, 0]
  {
    KeyWithoutDash("pre");
    SplitWithoutSeparator("pre", '.');
    assert Codes(["pre"]) == [ParseSegment("pre")];
  }

  /** "1.20" is not the tag "1.20.0", but it has the same minor version. */
  lemma FallbackAccepts()
    ensures "1.20" !in ["1.20.0"]
    ensures ModUpdater.Compatible("1.20", ["1.20.0"])
  {
    KeyOf120();
    KeyOf1200();
    assert "1.20" != "1.20.0";
  }

  /** No release is tagged "1.20", and the walk meets the installed 1.0.0
      second. */
  lemma FallbackChangelog()
    ensures ModUpdater.GenerateChangelog(TwoReleases().releases, [1, 0, 0, 0], "1.20") == []
  {
    KeyOf100();
    var rs := TwoReleases().releases;
    assert "1.20" !in rs[0].tags && "1.20" !in rs[1].tags;
    assert ModUpdater.GenerateChangelog(rs[1..], [1, 0, 0, 0], "1.20") == [];
  }

  /** Game 1.20.0 normalizes to "1.20", which is not the tag "1.20.0". The
      release 1.1.0 is still selected through the minor-version fallback.
      Its changelog entry is not listed, because the changelog needs the exact
      tag. So the update comes with an empty changelog. */
  lemma FallbackUpdateWithEmptyChangelog()
    ensures var o := ModUpdater.CheckModForUpdate("example", "1.0.0", "1.20.0", TwoReleases());
            && o.Updated?
            && o.update.latestVersion == "1.1.0"
            && o.update.changelog == []
  {
    KeyOf100();
    KeyOf110();
    FallbackAccepts();
    FallbackChangelog();
    assert NormalizeVersion("1.20.0") == "1.20";
    var rs := TwoReleases().releases;
    assert ModUpdater.Newer(rs[0], [1, 0, 0, 0]);
    assert ModUpdater.Scan(rs, [1, 0, 0, 0], "1.20", 0) == ModUpdater.Selected(0);
  }

  /** The earlier draft knows no fallback. On the same input no release is
      tagged "1.20", so it compares against "0.0.0" and reports nothing. */
  lemma DraftMissesFallbackUpdate()
    ensures DraftUpdater.CheckModForUpdate("example", "1.0.0", "1.20.0", TwoReleases())
            == DraftUpdater.UpToDate
  {
    var rs := TwoReleases().releases;
    assert DraftUpdater.Candidate(rs, "1.20") == [0, 0, 0, 0] by {
      assert "1.20" !in rs[0].tags && "1.20" !in rs[1].tags;
      DraftUpdater.DefaultKeyValue();
    }
    assert !Less([1, 0, 0, 0], [0, 0, 0, 0]);
    KeyOf100();
    assert NormalizeVersion("1.20.0") == "1.20";
  }

  /** With 1.1.0 installed, the newest release is not newer, so the walk stops
      at it: no update. */
  lemma InstalledNewestNoUpdate()
    ensures ModUpdater.CheckModForUpdate("example", "1.1.0", "1.20.0", TwoReleases())
            == ModUpdater.UpToDate
  {
    KeyOf110();
    assert NormalizeVersion("1.20.0") == "1.20";
    var rs := TwoReleases().releases;
    assert ModUpdater.Scan(rs, [1, 1, 0, 0], "1.20", 0) == ModUpdater.Reached(0);
  }

  /** Game 1.20.5 normalizes to "1.20". The only release is tagged "1.20.3",
      which has the same minor version, so it is the update. */
  lemma MinorVersionFallback()
    ensures var mod := ModInfo("Example", [Tagged("1.1.0", ["1.20.3"], "")]);
            var o := ModUpdater.CheckModForUpdate("example", "1.0.0", "1.20.5", mod);
            o.Updated? && o.update.latestVersion == "1.1.0"
  {
    KeyOf100();
    KeyOf110();
    assert ModUpdater.Compatible("1.20", ["1.20.3"]) by {
      KeyOf120();
      KeyOf1203();
    }
    assert NormalizeVersion("1.20.5") == "1.20";
    var rs := [Tagged("1.1.0", ["1.20.3"], "")];
    assert ModUpdater.Newer(rs[0], [1, 0, 0, 0]);
    assert ModUpdater.Scan(rs, [1, 0, 0, 0], "1.20", 0) == ModUpdater.Selected(0);
  }

  /** A release without tags makes the check fail, even though it is older
      than the installed version and the walk would have stopped there. */
  lemma UntaggedReleaseFails()
    ensures var mod := ModInfo("Example", [Tagged("1.0.0", [], "")]);
            ModUpdater.CheckModForUpdate("example", "2.0.0", "1.20.0", mod) == ModUpdater.Failed
  {
    var rs := [Tagged("1.0.0", [], "")];
    assert ModUpdater.Scan(rs, ParseVersion("2.0.0"), NormalizeVersion("1.20.0"), 0)
           == ModUpdater.Crashed(0);
  }

  /** The draft reports an update to "0.0.0", with no release, for a mod with
      no releases at all when the installed key is below (0, 0, 0, 0). The
      key of "0.0" is (0, 0, 0), a proper prefix, so it is below. The
      canonical resolver reports nothing. The key of "pre" is (-2, 0), which
      is below as well. */
  lemma DraftPhantomUpdate()
    ensures var mod := ModInfo("Example", []);
            var draft := DraftUpdater.CheckModForUpdate("example", "0.0", "1.20.0", mod);
            && draft.Updated?
            && draft.update.latestRelease == DraftUpdater.None
            && draft.update.latestVersion == [0, 0, 0, 0]
            && ModUpdater.CheckModForUpdate("example", "0.0", "1.20.0", mod) == ModUpdater.UpToDate
    ensures DraftUpdater.CheckModForUpdate("example", "pre", "1.20.0", ModInfo("Example", [])).Updated?
  {
    KeyOf00();
    KeyOfPre();
    DraftUpdater.DefaultKeyValue();
  }
}
