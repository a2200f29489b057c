# Vintage Story mod updater: version keys and update resolution in Dafny

This project models the pure core of a Mod Organizer 2 plugin that finds updates for installed Vintage Story mods. It covers two parts.

**Version keys and string helpers** (`src/utils.py`):
- `parse_version` turns a version string into a key, a sequence of integers. It replaces the first `-` with `.` and splits at every `.`. Digit segments keep their value, `pre` becomes -2, `rc` becomes -1 and anything else becomes -3. A sentinel 0 is appended.
- `normalize_version` drops the last two characters of the game version.
- `fix_json_string` deletes a comma whose next non-whitespace character is `}` or `]`.
- Keys are compared like Python tuples. `TupleOrder` defines that lexicographic order on `seq<int>` and proves it is a strict total order.

**Update resolution** (`src/vs_mod_updater.py`, and the earlier `src/vs_updater.py`):
- For one mod, the canonical resolver walks the mod database's release list in the order given.
- It selects the first release that is newer than the installed version and compatible with the game version.
- It stops with no update at the first release that is not newer.
- A release without tags makes `tags[-1]` raise. The per-mod wrapper catches that and records nothing. The model reports it as the outcome `Failed`.
- The changelog lists the releases tagged with the game version exactly that are newer than the installed version. The walk stops at the release equal to the installed version.
- The earlier draft takes the first exactly tagged release, falling back to the key of "0.0.0", and renders its changelog as one string. It is modelled separately, and lemmas relate the two resolvers.

Modules, one per file:
- `TupleOrder`: the tuple order.
- `Text`: Python's `split`, `join` and `replace(…, 1)` on `seq<char>`, plus two helpers used only to state properties (`count` and deleting a character).
- `Utils`: the three helpers of `src/utils.py`.
- `Catalog`: releases and the database answer.
- `ModUpdater`: the canonical resolver.
- `DraftUpdater`: the earlier draft.
- `Scenarios`: concrete runs of both resolvers.

Behaviour of the code worth knowing:
- **Untagged release.** A release with an empty tag list raises, because `tags[-1]` (`src/vs_mod_updater.py:274`) is read before any other test. This happens even when the release is older than the installed version, so the whole check for that mod fails. See `Scenarios.UntaggedReleaseFails`.
- **Fallback update with an empty changelog.** For game 1.20.0 the normalized version is "1.20". A release tagged only "1.20.0" is therefore selected through the minor-version fallback, but the changelog leaves it out, because the changelog requires an exact tag. See `Scenarios.FallbackUpdateWithEmptyChangelog`.
- **Normalization.** The docstring of `normalize_version` (`src/utils.py:36`) says it removes a trailing ".0". The code (`src/utils.py:37`) drops the last two characters whatever they are: "1.20.5" becomes "1.20", and "1.2" becomes "1". The model follows the code. See `Utils.NormalizeVersion`.

## Model

| member | source | states |
|---|---|---|
| `TupleOrder.Less` | src/vs_mod_updater.py:279 | The empty tuple is below exactly the nonempty ones, and two tuples in the order differ |
| `TupleOrder.LessOrEqual` | src/vs_mod_updater.py:291 | Python's tuple `>=` read from the other side: `b >= a` is `a < b` or `a == b`, as also at `src/vs_updater.py:101` (its converse with `<` is `TupleOrder.AtLeastIffNotLess`) |
| `TupleOrder.PrefixOrder` | src/vs_mod_updater.py:291 | A proper prefix is below each of its extensions, and no tuple is below one of its own prefixes |
| `TupleOrder.LessIffDecidingPosition` | src/vs_mod_updater.py:279 | Tuple `<` holds exactly when the keys share a prefix and then either the first key ends or its next element is smaller |
| `TupleOrder.Irreflexive` | src/vs_mod_updater.py:279 | No key is below itself |
| `TupleOrder.Transitive` | src/vs_mod_updater.py:279 | Tuple `<` is transitive |
| `TupleOrder.Trichotomy` | src/vs_mod_updater.py:291 | Any two keys are below, equal to or above one another, and `<` is asymmetric |
| `TupleOrder.AtLeastIffNotLess` | src/vs_mod_updater.py:291 | `current >= release` is exactly the negation of `release > current` |
| `TupleOrder.LessOrEqualTransitive` | src/vs_mod_updater.py:291 | Tuple `<=` is transitive |
| `TupleOrder.CommonPrefix` | src/vs_mod_updater.py:279 | A shared prefix does not change how two keys compare |
| `Text.Count` | src/utils.py:14 | A helper the code never calls, used to state how many pieces `split` yields: the count is zero exactly when the character is absent, and at most the length |
| `Text.Without` | src/utils.py:43 | A helper the code never calls, used to state that the repair deletes only commas: deleting a character leaves none of it, and leaves a string without it unchanged |
| `Text.Split` | src/utils.py:14 | `split` always yields at least one piece |
| `Text.SplitPieces` | src/utils.py:14 | `split` yields one piece more than there are separators, no piece holds the separator, and joining the pieces restores the string |
| `Text.SplitConcat` | src/utils.py:14 | Splitting `a + sep + b` splits `a` and `b` independently |
| `Text.SplitWithoutSeparator` | src/utils.py:14 | A string without the separator splits into itself |
| `Text.SplitJoin` | src/utils.py:14 | `split` inverts `join` when no part contains the separator |
| `Text.ReplaceFirst` | src/utils.py:14 | `replace(…, 1)` of one character keeps the length |
| `Text.ReplaceFirstPointwise` | src/utils.py:14 | Only the first occurrence of the target changes, and every other character stays in place |
| `Text.ReplaceFirstAbsent` | src/utils.py:14 | A string without the target is unchanged |
| `Text.ReplaceFirstAppend` | src/utils.py:14 | Text after the replaced occurrence, or text free of the target, is untouched |
| `Text.ReplaceFirstAt` | src/utils.py:14 | In `a + "-" + b` with no dash in `a`, the dash shown is the one replaced |
| `Text.CountAfterReplaceFirst` | src/utils.py:14 | Replacing the first dash by a dot adds one dot exactly when a dash occurs |
| `Utils.IsDigits` | src/utils.py:20 | `isdigit()`: nonempty and all digits; such a segment is never "pre" or "rc", so the order of the `case` arms does not matter |
| `Utils.DigitsValue` | src/utils.py:21 | `int()` of a digit string is a natural number below 10 to the number of digits |
| `Utils.LeadingZero` | src/utils.py:21 | A leading zero does not change `int()` of a digit string |
| `Utils.ParseSegment` | src/utils.py:17-27 | A segment's element is >= 0 exactly for digit strings, -2 exactly for "pre", -1 exactly for "rc", and -3 for everything else, the empty segment included |
| `Utils.LeadingZeroSegment` | src/utils.py:20-21 | "01" and "1" give the same element |
| `Utils.DashSegmentUnknown` | src/utils.py:14-27 | A segment still holding a dash, i.e. one after the first dash, maps to -3 |
| `Utils.CodesConcat` | src/utils.py:17-27 | Classifying two segment lists one after the other is classifying their concatenation |
| `Utils.Codes` | src/utils.py:17-27 | The loop over the segments: one element per segment, in order, each the segment's `match` result (stated by `Utils.ParseVersion` and `Utils.CodesConcat`) |
| `Utils.Segments` | src/utils.py:14 | The segments: the first dash replaced by a dot, then split at dots (its properties are stated by `Text.SplitPieces`, `Utils.KeyLength` and `Utils.QualifiedSegments`) |
| `Utils.ParseVersion` | src/utils.py:4-32 | The key has one element per segment plus the sentinel 0, so it has at least two elements; each element is its segment's code, and every element is >= -3 |
| `Utils.KeyLength` | src/utils.py:14-30 | The key length is the number of dots, plus one if there is a dash, plus two |
| `Utils.KeyWithoutDash` | src/utils.py:14 | Without a dash, the version is split at its dots only |
| `Utils.OnlyFirstDashSeparates` | src/utils.py:14 | Only the first dash separates: the text before and after it is split at dots independently |
| `Utils.QualifiedSegments` | src/utils.py:14 | The segments of `v-q…` are those of `v`, then `q`, then those after `q` |
| `Utils.SplitQualifier` | src/utils.py:14 | A qualifier followed by a dotted tail splits into the qualifier and the tail's segments |
| `Utils.QualifiedKey` | src/utils.py:14-30 | The key of `v-q…` is the key of `v` with the qualifier's element and its tail inserted before the sentinel |
| `Utils.QualifierBelowRelease` | src/utils.py:18-30 | A version with a negative-coded qualifier ranks below the bare version |
| `Utils.PreBelowRc` | src/utils.py:22-25 | A "pre" qualifier ranks below an "rc" qualifier on the same version |
| `Utils.SameSegmentCodeSameKey` | src/utils.py:17-27 | Replacing a last segment by one with the same element gives the same key |
| `Utils.DigitsHaveNoSeparator` | src/utils.py:20 | A digit segment holds no dot or dash |
| `Utils.DottedKey` | src/utils.py:14-32 | Prefixing one more dotted segment adds its element in front of the key |
| `Utils.OneDigit` | src/utils.py:21 | `int()` of one digit |
| `Utils.TwoDigits` | src/utils.py:21 | `int()` of two digits |
| `Utils.NumericKey2` | src/utils.py:14-32 | "a.b" with digit segments has key (a, b, 0) |
| `Utils.NumericKey3` | src/utils.py:14-32 | "a.b.c" with digit segments has key (a, b, c, 0) |
| `Utils.ReleaseCandidateExample` | src/utils.py:24-30 | "1.20.0-rc.1" ranks below "1.20.0" |
| `Utils.PreReleaseExample` | src/utils.py:22-25 | "1.20.0-pre.1" ranks below "1.20.0-rc.1" |
| `Utils.CollapseExamples` | src/utils.py:20-27 | "1.alpha" and "1.beta" have equal keys, and so do "1.01" and "1.1" |
| `Utils.NormalizeVersion` | src/utils.py:35-37 | The result is the prefix of length max(0, n-2), and a version ending in ".0" is the result plus ".0" |
| `Utils.IsSpace` | src/utils.py:43 | The characters `\s` matches in a `str` pattern (no contract; `Utils.WhitespaceHasNoComma` states the property used) |
| `Utils.DanglingComma` | src/utils.py:43 | A comma whose next non-whitespace character is `}` or `]` (stated as a pattern match by `Utils.DanglingCommaIsPatternMatch`) |
| `Utils.DanglingCommaIsPatternMatch` | src/utils.py:43 | A position starts a match of `,(\s*[}\]])` exactly when it holds a comma followed by a whitespace run and a closer |
| `Utils.SkipSpace` | src/utils.py:43 | The whitespace run after a position ends within the string |
| `Utils.SkipSpaceSkipsWhitespace` | src/utils.py:43 | `\s*` consumes exactly the maximal run of whitespace |
| `Utils.WhitespaceHasNoComma` | src/utils.py:43 | That whitespace run holds no comma |
| `Utils.SubFrom` | src/utils.py:43 | The left-to-right substitution never lengthens its input |
| `Utils.DropDangling` | src/utils.py:43 | Deleting the dangling commas never lengthens the text |
| `Utils.DropDanglingDeletesOnlyCommas` | src/utils.py:43 | Only commas are deleted, every other character is kept in order, and comma-free text is unchanged |
| `Utils.DeleteStep` | src/utils.py:43 | The character at one position is either a deleted comma or copied, so both properties above carry over one position |
| `Utils.KeepsCommaFreeStretch` | src/utils.py:43 | A comma-free stretch of text is copied through unchanged |
| `Utils.SubFromDropsDangling` | src/utils.py:43 | The regular-expression substitution equals the per-character rule: delete a comma exactly when its next non-whitespace character is `}` or `]` |
| `Utils.ResumeAt` | src/utils.py:43 | After a match the substitution resumes past its closer, otherwise at the next character; always strictly later and within the text |
| `Utils.MatchStep` | src/utils.py:43 | At a match the output is the whitespace and the closer, without the comma |
| `Utils.CopyStep` | src/utils.py:43 | Away from a match both the substitution and the per-character rule copy the character |
| `Utils.FixJsonString` | src/utils.py:40-44 | The repaired text equals the per-character rule, is no longer than the input, differs from it only by deleted commas, and is the input itself when there is no comma |
| `Utils.FixJsonNotIdempotent` | src/utils.py:43 | `",,]"` repairs to `",]"`, which repairs further to `"]"` |
| `Catalog.KeyOf` | src/vs_mod_updater.py:273 | `parse_version(release["modversion"])`, the key every comparison of a release uses, here and at line 322 |
| `Catalog.EntryOf` | src/vs_mod_updater.py:328 | The changelog entry `{modversion: changelog}` of one release |
| `Catalog.NewestFirst` | src/vs_mod_updater.py:329 | The ordering the code assumes without checking: no release has a key above that of a release listed before it; equal keys are allowed |
| `ModUpdater.Compatible` | src/vs_mod_updater.py:279-286 | The length guards always hold, so compatibility is exact tag membership or equal element 1 of the game key and the last tag's key |
| `ModUpdater.Newer` | src/vs_mod_updater.py:279 | `release_version_parsed > current_mod_version_parsed`: the release's key is above the installed key (exclusive with "not newer" by `ModUpdater.NewerExcludesNotNewer`) |
| `ModUpdater.Scan` | src/vs_mod_updater.py:271-292 | The walk ends in a stop whose meaning holds. Selected(i): all earlier releases are tagged, newer and incompatible, and i is newer and compatible. Reached(i): the same before i, and i is tagged and not newer. Crashed(i): the same before i, and i has no tags. Exhausted: every release is passed over |
| `ModUpdater.NewerExcludesNotNewer` | src/vs_mod_updater.py:279-292 | No release is both newer and not newer than the installed version |
| `ModUpdater.ScanIsTheOnlyStop` | src/vs_mod_updater.py:271-297 | The four outcomes exclude each other: any stop that meets its meaning is the one computed |
| `ModUpdater.StopIsScan` | src/vs_mod_updater.py:271-292 | A stop that meets its meaning from one release on, and is the computed one from the next release on, is the computed one |
| `ModUpdater.ScanSkipsPassedOver` | src/vs_mod_updater.py:271-292 | A passed-over release does not change where the walk stops |
| `ModUpdater.StopAtFirst` | src/vs_mod_updater.py:271-292 | A walk whose first release is not passed over stops there |
| `ModUpdater.StopPastFirst` | src/vs_mod_updater.py:271-292 | Passing over the first release leaves the rest of the walk's outcome unchanged |
| `ModUpdater.Listed` | src/vs_mod_updater.py:323-326 | A listed release is one the resolver could select: tagged, compatible, and neither equal to nor below the installed key |
| `ModUpdater.GenerateChangelog` | src/vs_mod_updater.py:312-332 | The changelog has no more entries than there are releases, and every entry's key is above the installed key |
| `ModUpdater.Boundary` | src/vs_mod_updater.py:329-331 | The first release whose key equals the installed key, with no such release before it |
| `ModUpdater.ListedEntries` | src/vs_mod_updater.py:323-328 | Filtering the exactly tagged, newer releases yields at most one entry per release |
| `ModUpdater.ListedEntryAppears` | src/vs_mod_updater.py:323-328 | Every exactly tagged, newer release has its entry among the listed entries |
| `ModUpdater.ChangelogIsListedBeforeBoundary` | src/vs_mod_updater.py:320-332 | The changelog is, in list order, the entries of the exactly tagged, newer releases before the first release equal to the installed version |
| `ModUpdater.CheckModForUpdate` | src/vs_mod_updater.py:263-310 | An update is recorded exactly when the walk selects a release, and the check fails exactly when it reaches an untagged release. The update carries the mod id, the name, the raw installed version, the selected release and its `modversion`, and the changelog from the same installed key. The selected release is newer and compatible. With no releases there is no update |
| `ModUpdater.SelectedIsNewestCompatible` | src/vs_mod_updater.py:279-289 | With releases newest first (keys never increase along the list; equal keys allowed), the selected release is the newest tagged release that is newer and compatible |
| `ModUpdater.UpToDateMeansNoCompatibleNewer` | src/vs_mod_updater.py:291-297 | With releases newest first, "no update" means no tagged release is both newer and compatible |
| `ModUpdater.NothingNewerPastReach` | src/vs_mod_updater.py:291-297 | With releases newest first, a walk that stops without selecting or crashing leaves no tagged release that is both newer and compatible |
| `ModUpdater.TaggedSelectionInChangelog` | src/vs_mod_updater.py:323-328 | A selected release tagged with the game version exactly appears in its own changelog |
| `DraftUpdater.FirstTagged` | src/vs_updater.py:94-98 | The first release tagged exactly with the game version: no earlier release has that tag |
| `DraftUpdater.Candidate` | src/vs_updater.py:92-98 | The candidate is the key of the first release tagged exactly with the game version, or the default key when no release has that tag |
| `DraftUpdater.DefaultKey` | src/vs_updater.py:92 | `parse_version("0.0.0")`, the candidate when no release is tagged; its value is stated by `DraftUpdater.DefaultKeyValue` |
| `DraftUpdater.DefaultKeyValue` | src/vs_updater.py:92 | `parse_version("0.0.0")` is (0, 0, 0, 0) |
| `DraftUpdater.CheckModForUpdate` | src/vs_updater.py:88-115 | An update is recorded exactly when the installed key is below the candidate, which is the first exactly tagged release's key or else (0, 0, 0, 0). The update stores the keys, not the strings. Its release is the first exactly tagged one, or none when no release has the tag |
| `DraftUpdater.GenerateChangelog` | src/vs_updater.py:117-134 | The text is empty exactly when the canonical walk lists no entry |
| `DraftUpdater.Render` | src/vs_updater.py:127-130 | Each entry contributes at least its three separators |
| `DraftUpdater.ChangelogRendersCanonical` | src/vs_updater.py:117-134 | The draft's text is the canonical changelog rendered as "version\nchangelog\n\n" per entry |
| `DraftUpdater.NoReleasesNoUpdate` | src/vs_updater.py:92-102 | With no releases and an installed key at least (0, 0, 0, 0) there is no update, and the changelog is empty |
| `DraftUpdater.SelectionIsFirstTagged` | src/vs_updater.py:94-98 | When only exact tags make a release compatible, the canonical selection is the draft's first exactly tagged release |
| `DraftUpdater.NoSelectionNoCandidate` | src/vs_updater.py:92-102 | When the canonical walk selects nothing, the draft's candidate is not newer either |
| `DraftUpdater.AgreesWithCanonical` | src/vs_updater.py:88-115 | Under newest-first order, tagged releases, exact-only compatibility and an installed key at least (0, 0, 0, 0), both resolvers agree on whether there is an update and on the release |
| `Scenarios.KeyOf100` | src/utils.py:4-32 | "1.0.0" has key (1, 0, 0, 0) |
| `Scenarios.KeyOf110` | src/utils.py:4-32 | "1.1.0" has key (1, 1, 0, 0) |
| `Scenarios.KeyOf120` | src/utils.py:4-32 | "1.20" has key (1, 20, 0) |
| `Scenarios.KeyOf1200` | src/utils.py:4-32 | "1.20.0" has key (1, 20, 0, 0) |
| `Scenarios.KeyOf1203` | src/utils.py:4-32 | "1.20.3" has key (1, 20, 3, 0) |
| `Scenarios.KeyOf00` | src/utils.py:4-32 | "0.0" has key (0, 0, 0) |
| `Scenarios.KeyOfPre` | src/utils.py:22-30 | "pre" has key (-2, 0) |
| `Scenarios.FallbackAccepts` | src/vs_mod_updater.py:279-286 | "1.20" is not the tag "1.20.0" but is compatible through element 1 |
| `Scenarios.FallbackChangelog` | src/vs_mod_updater.py:320-332 | With no release tagged "1.20", the changelog is empty |
| `Scenarios.FallbackUpdateWithEmptyChangelog` | src/vs_mod_updater.py:263-332 | Installed 1.0.0 on game 1.20.0: release 1.1.0 tagged "1.20.0" is the update, with an empty changelog |
| `Scenarios.DraftMissesFallbackUpdate` | src/vs_updater.py:94-102 | On the same input the draft reports no update |
| `Scenarios.InstalledNewestNoUpdate` | src/vs_mod_updater.py:291-292 | With the newest release installed, there is no update |
| `Scenarios.MinorVersionFallback` | src/vs_mod_updater.py:279-289 | Game 1.20.5 and a release tagged only "1.20.3" give an update |
| `Scenarios.UntaggedReleaseFails` | src/vs_mod_updater.py:274 | An untagged release fails the check even though it is older than the installed version |
| `Scenarios.DraftPhantomUpdate` | src/vs_updater.py:92-104 | With no releases, the draft reports an update to (0, 0, 0, 0) with no release for installed "0.0" or "pre"; the canonical resolver reports none |

## Left out

- The Qt user interface is presentation and is not modelled: window, dialogs, tree model, checkbox counting and the rich-text delegate with its floating-point luminance test.
- Sorting the found updates by name (`src/vs_mod_updater.py:220`) is a library call on presentation data.
- The mod database request (`get_mod_info_from_api`), the game version request and the downloads are network I/O. The database answer is an input `ModInfo`. The game version is an input string, normalized as in `src/vs_mod_updater.py:20-22`.
- API failures are left out: the input `ModInfo` always has a name and a release list. In the code (`src/vs_mod_updater.py:405-415`) a 4xx or 5xx answer makes `urllib.request.urlopen` raise `HTTPError` before the status test at line 409, so it is logged and re-raised like any other failed request. Another answer with a status other than 200 (a 2xx such as 204) makes `get_mod_info_from_api` return `{}`, and the next key lookup raises `KeyError`. Either way `safe_check` (`src/vs_mod_updater.py:200-204`) logs the error and records nothing for that mod.
- Missing JSON keys in a release are left out for the same reason: a `Release` always has all fields.
- Reading `modinfo.json` from zip files and replacing mod files is filesystem I/O. The installed version is an input string.
- The thread pool running one check per mod is concurrency. The checks are independent, so one mod is modelled. The exception handler around each check becomes the outcome `Failed`.
- The plugin registration classes are host boilerplate.
- `Utils.IsDigits`: Python's `str.isdigit` also accepts non-ASCII digits, and `int()` rejects some of them. The model accepts ASCII '0'–'9' only.
- `Utils.DigitsValue`: the model returns `int()`'s value for digit strings of any length. Python's `int_max_str_digits` limit makes `int()` of a digit string longer than 4300 digits raise `ValueError`, but only on the releases that have it: 3.11 and later, 3.10.7 and later 3.10 releases, 3.9.14 and later, and 3.8.14 and later. On 3.10.0 to 3.10.6, which run the `match` at `src/utils.py:19`, `int()` returns the value as the model does. Where the limit applies, `parse_version` raises. In the canonical resolver the per-mod check then ends in the caught exception, outcome `Failed`. The draft has no such outcome: its `safe_check` (`src/vs_updater.py:71-75`) swallows the exception and records nothing.
- `Utils.FixJsonString`: repairing is not idempotent (`Utils.FixJsonNotIdempotent`), so no idempotence is claimed. Neither is `normalize_version`: "1.20.0" becomes "1.20", which becomes "1.". All three helpers are pure, so the same input always gives the same result.
- `ModUpdater.CheckModForUpdate`: `Failed` stands for the logged exception. The log message itself is not modelled.
