/**
 The version-key model and the string helpers of `src/utils.py`:
 `parse_version` turns a version string into a key (a tuple of integers
 compared lexicographically), `normalize_version` trims a game version, and
 `fix_json_string` repairs trailing commas in a mod manifest.
 */
module Utils {
  import opened Text
  import opened TupleOrder

  // ---------------------------------------------------------------------------
  // parse_version
  // ---------------------------------------------------------------------------

  /** A character from '0' to '9'. */
  predicate IsDigit(c: char)
  {
    48 <= c as int <= 57
  }

  /** Python's `part.isdigit()`: at least one character, and all of them
      digits. The guard never admits "pre" or "rc", so the order of the cases
      in the match does not matter. */
  predicate IsDigits(s: string)
    ensures IsDigits(s) ==> s != "pre" && s != "rc"
  {
    assert !IsDigit("pre"[0]) && !IsDigit("rc"[0]);
    |s| > 0 && forall i :: 0 <= i < |s| ==> IsDigit(s[i])
  }

  /** 10 to the power `n`. */
  function Pow10(n: nat): (p: nat)
  {
    if n == 0 then 1 else 10 * Pow10(n - 1)
  }

  /** Python's `int(s)` on a string of decimal digits (most significant
      first): a natural number below 10 to the number of digits. */
  function DigitsValue(s: string): (v: nat)
    requires forall i :: 0 <= i < |s| ==> IsDigit(s[i])
    ensures v < Pow10(|s|)
  {
    if |s| == 0 then 0
    else
      assert IsDigit(s[|s| - 1]);
      var high := DigitsValue(s[..|s| - 1]);
      assert high * 10 + 9 < Pow10(|s|) by {
        assert high + 1 <= Pow10(|s| - 1);
        assert (high + 1) * 10 <= Pow10(|s| - 1) * 10;
      }
      high * 10 + (s[|s| - 1] as int - 48)
  }

  /** A leading zero does not change the value of a digit string. */
  lemma {:induction false} LeadingZero(s: string)
    requires forall i :: 0 <= i < |s| ==> IsDigit(s[i])
    ensures DigitsValue(['0'] + s) == DigitsValue(s)
    decreases |s|
  {
    if |s| > 0 {
      var z := ['0'] + s;
      assert z[..|z| - 1] == ['0'] + s[..|s| - 1];
      LeadingZero(s[..|s| - 1]);
    }
  }

  /** The key element of one dot-separated segment: a digit string stands for
      its value, "pre" for -2, "rc" for -1 and anything else, the empty segment
      included, for -3. */
  function ParseSegment(part: string): (code: int)
    ensures code >= -3
    ensures code >= 0 <==> IsDigits(part)
    ensures code == -2 <==> part == "pre"
    ensures code == -1 <==> part == "rc"
    ensures code == -3 <==> !IsDigits(part) && part != "pre" && part != "rc"
  {
    if IsDigits(part) then DigitsValue(part)
    else if part == "pre" then -2
    else if part == "rc" then -1
    else -3
  }

  /** "01" and "1" give the same key element. */
  lemma LeadingZeroSegment(s: string)
    requires IsDigits(s)
    ensures ParseSegment("0" + s) == ParseSegment(s)
  {
    assert "0" + s == ['0'] + s;
    assert IsDigits("0" + s);
    LeadingZero(s);
  }

  /** A segment holding a '-' is never a number, "pre" or "rc": a '-' after
      the first one, which stays inside its segment, makes that segment -3. */
  lemma DashSegmentUnknown(part: string)
    requires '-' in part
    ensures ParseSegment(part) == -3
  {
    var k :| 0 <= k < |part| && part[k] == '-';
    assert !IsDigit(part[k]);
  }

  /** The segments `parse_version` classifies: the first '-' becomes '.', and
      the result is split at every '.'. */
  function Segments(version: string): (parts: seq<string>)
  {
    Split(ReplaceFirst(version, '-', '.'), '.')
  }

  /** The key elements of a list of segments, in order. */
  function Codes(parts: seq<string>): (codes: seq<int>)
  {
    seq(|parts|, i requires 0 <= i < |parts| => ParseSegment(parts[i]))
  }

  lemma CodesConcat(a: seq<string>, b: seq<string>)
    ensures Codes(a + b) == Codes(a) + Codes(b)
  {
  }

  /** `parse_version`: one element per segment, then the sentinel 0. */
  function ParseVersion(version: string): (key: seq<int>)
    ensures |key| == |Segments(version)| + 1
    ensures |key| >= 2 && key[|key| - 1] == 0
    ensures forall i :: 0 <= i < |key| - 1 ==> key[i] == ParseSegment(Segments(version)[i])
    ensures forall i :: 0 <= i < |key| ==> key[i] >= -3
  {
    Codes(Segments(version)) + [0]
  }

  /** The key has one element per '.', one more if there is a '-', plus the
      last segment and the sentinel. */
  lemma KeyLength(version: string)
    ensures |ParseVersion(version)| == Count(version, '.') + (if '-' in version then 1 else 0) + 2
  {
    SplitPieces(ReplaceFirst(version, '-', '.'), '.');
    CountAfterReplaceFirst(version, '-', '.');
  }

  /** A version without any '-' is split at its dots only. */
  lemma KeyWithoutDash(v: string)
    requires '-' !in v
    ensures ParseVersion(v) == Codes(Split(v, '.')) + [0]
  {
    ReplaceFirstAbsent(v, '-', '.');
  }

  /** Only the first '-' separates segments: the text before it and the text
      after it are split at '.' independently. */
  lemma OnlyFirstDashSeparates(a: string, b: string)
    requires '-' !in a
    ensures Segments(a + "-" + b) == Split(a, '.') + Split(b, '.')
  {
    assert a + "-" + b == a + ['-'] + b;
    ReplaceFirstAt(a, b, '-', '.');
    SplitConcat(a, b, '.');
  }

  /** The segments after a qualifier `q` written right after the first '-':
      none when `w` is empty, otherwise the pieces of `w` after its leading '.'. */
  function SegmentsAfter(w: string): (parts: seq<string>)
  {
    if w == "" then [] else Split(w[1..], '.')
  }

  /** The segments of `v + "-" + q + w`, where `q` is one segment and `w` is
      empty or starts a new segment: those of `v`, then `q`, then those of `w`. */
  lemma QualifiedSegments(v: string, q: string, w: string)
    requires '-' !in v && '.' !in q
    requires w == "" || w[0] == '.'
    ensures Segments(v + "-" + q + w) == Split(v, '.') + ([q] + SegmentsAfter(w))
  {
    assert v + "-" + q + w == v + ['-'] + (q + w);
    ReplaceFirstAt(v, q + w, '-', '.');
    SplitConcat(v, q + w, '.');
    SplitQualifier(q, w);
  }

  lemma SplitQualifier(q: string, w: string)
    requires '.' !in q
    requires w == "" || w[0] == '.'
    ensures Split(q + w, '.') == [q] + SegmentsAfter(w)
  {
    SplitWithoutSeparator(q, '.');
    if w != "" {
      assert q + w == q + ['.'] + w[1..];
      SplitConcat(q, w[1..], '.');
    } else {
      assert q + w == q;
    }
  }

  /** The key of `v + "-" + q + w` is the key of `v` with the element of `q`
      (and of whatever follows it) inserted before the sentinel. */
  lemma QualifiedKey(v: string, q: string, w: string)
    requires '-' !in v && '.' !in q
    requires w == "" || w[0] == '.'
    ensures ParseVersion(v + "-" + q + w)
            == Codes(Split(v, '.')) + ([ParseSegment(q)] + Codes(SegmentsAfter(w)) + [0])
  {
    QualifiedSegments(v, q, w);
    var sv := Split(v, '.');
    var tail := SegmentsAfter(w);
    CodesConcat(sv, [q] + tail);
    CodesConcat([q], tail);
    var c := ParseSegment(q);
    assert Codes([q]) == [c];
    calc {
      ParseVersion(v + "-" + q + w);
      Codes(sv + ([q] + tail)) + [0];
      Codes(sv) + ([c] + Codes(tail)) + [0];
      { assert Codes(sv) + ([c] + Codes(tail)) + [0] == Codes(sv) + ([c] + Codes(tail) + [0]); }
      Codes(sv) + ([c] + Codes(tail) + [0]);
    }
  }

  /** A qualifier (any segment that is not a number) right after the first '-'
      ranks the version below the plain release. */
  lemma QualifierBelowRelease(v: string, q: string, w: string)
    requires '-' !in v && '.' !in q
    requires w == "" || w[0] == '.'
    requires ParseSegment(q) < 0
    ensures Less(ParseVersion(v + "-" + q + w), ParseVersion(v))
  {
    QualifiedKey(v, q, w);
    KeyWithoutDash(v);
    var base := Codes(Split(v, '.'));
    var rest := [ParseSegment(q)] + Codes(SegmentsAfter(w)) + [0];
    assert Less(rest, [0]);
    CommonPrefix(base, rest, [0]);
  }

  /** A "pre" qualifier ranks below an "rc" qualifier on the same release. */
  lemma PreBelowRc(v: string, w1: string, w2: string)
    requires '-' !in v
    requires w1 == "" || w1[0] == '.'
    requires w2 == "" || w2[0] == '.'
    ensures Less(ParseVersion(v + "-pre" + w1), ParseVersion(v + "-rc" + w2))
  {
    assert v + "-pre" + w1 == v + "-" + "pre" + w1;
    assert v + "-rc" + w2 == v + "-" + "rc" + w2;
    QualifiedKey(v, "pre", w1);
    QualifiedKey(v, "rc", w2);
    var base := Codes(Split(v, '.'));
    var rest1 := [ParseSegment("pre")] + Codes(SegmentsAfter(w1)) + [0];
    var rest2 := [ParseSegment("rc")] + Codes(SegmentsAfter(w2)) + [0];
    assert Less(rest1, rest2);
    CommonPrefix(base, rest1, rest2);
  }

  /** Two last segments with the same element give the same key; in particular
      any two unrecognised tokens collapse to the same key. */
  lemma SameSegmentCodeSameKey(p: string, a: string, b: string)
    requires '.' !in a && '-' !in a
    requires '.' !in b && '-' !in b
    requires ParseSegment(a) == ParseSegment(b)
    ensures ParseVersion(p + "." + a) == ParseVersion(p + "." + b)
  {
    var rp := ReplaceFirst(p, '-', '.');
    assert p + "." + a == p + ("." + a);
    assert p + "." + b == p + ("." + b);
    ReplaceFirstAppend(p, "." + a, '-', '.');
    ReplaceFirstAppend(p, "." + b, '-', '.');
    assert rp + ("." + a) == rp + ['.'] + a;
    assert rp + ("." + b) == rp + ['.'] + b;
    SplitConcat(rp, a, '.');
    SplitConcat(rp, b, '.');
    SplitWithoutSeparator(a, '.');
    SplitWithoutSeparator(b, '.');
    CodesConcat(Split(rp, '.'), [a]);
    CodesConcat(Split(rp, '.'), [b]);
  }

  /** A digit segment holds no dot or dash. */
  lemma DigitsHaveNoSeparator(s: string)
    requires IsDigits(s)
    ensures '.' !in s && '-' !in s
  {
    assert forall k | 0 <= k < |s| :: s[k] != '.' && s[k] != '-';
  }

  /** Prefixing a dash-free version with one more dot-separated segment adds
      that segment's element in front of its key. */
  lemma DottedKey(a: string, rest: string)
    requires '-' !in a && '.' !in a && '-' !in rest
    ensures ParseVersion(a + "." + rest) == [ParseSegment(a)] + ParseVersion(rest)
  {
    var v := a + "." + rest;
    assert v == a + ['.'] + rest;
    KeyWithoutDash(v);
    KeyWithoutDash(rest);
    SplitConcat(a, rest, '.');
    SplitWithoutSeparator(a, '.');
    CodesConcat([a], Split(rest, '.'));
    assert Codes([a]) == [ParseSegment(a)];
  }

  /** The value of a one-digit string. */
  lemma OneDigit(c: char)
    requires IsDigit(c)
    ensures DigitsValue([c]) == c as int - 48
  {
    assert [c][..0] == [];
  }

  /** The value of a two-digit string. */
  lemma TwoDigits(c: char, d: char)
    requires IsDigit(c) && IsDigit(d)
    ensures DigitsValue([c, d]) == (c as int - 48) * 10 + (d as int - 48)
  {
    assert [c, d][..1] == [c];
    OneDigit(c);
  }

  /** A purely numeric version "a.b" has the key (a, b, 0). */
  lemma NumericKey2(a: string, b: string)
    requires IsDigits(a) && IsDigits(b)
    ensures ParseVersion(a + "." + b) == [DigitsValue(a), DigitsValue(b), 0]
  {
    DigitsHaveNoSeparator(a);
    DigitsHaveNoSeparator(b);
    DottedKey(a, b);
    KeyWithoutDash(b);
    SplitWithoutSeparator(b, '.');
    assert Codes([b]) == [DigitsValue(b)];
  }

  /** A purely numeric version "a.b.c" has the key (a, b, c, 0). */
  lemma NumericKey3(a: string, b: string, c: string)
    requires IsDigits(a) && IsDigits(b) && IsDigits(c)
    ensures ParseVersion(a + "." + b + "." + c)
            == [DigitsValue(a), DigitsValue(b), DigitsValue(c), 0]
  {
    var x, y, z := DigitsValue(a), DigitsValue(b), DigitsValue(c);
    assert [x] + [y, z, 0] == [x, y, z, 0];
    DigitsHaveNoSeparator(a);
    DigitsHaveNoSeparator(b);
    DigitsHaveNoSeparator(c);
    var bc := b + "." + c;
    assert a + "." + b + "." + c == a + "." + bc;
    assert '-' !in bc;
    NumericKey2(b, c);
    DottedKey(a, bc);
    assert ParseSegment(a) == x;
  }

  /** A release candidate ranks below its release. */
  lemma ReleaseCandidateExample()
    ensures Less(ParseVersion("1.20.0-rc.1"), ParseVersion("1.20.0"))
  {
    assert "1.20.0-rc.1" == "1.20.0" + "-" + "rc" + ".1";
    QualifierBelowRelease("1.20.0", "rc", ".1");
  }

  /** A pre-release ranks below a release candidate. */
  lemma PreReleaseExample()
    ensures Less(ParseVersion("1.20.0-pre.1"), ParseVersion("1.20.0-rc.1"))
  {
    assert "1.20.0-pre.1" == "1.20.0" + "-pre" + ".1";
    assert "1.20.0-rc.1" == "1.20.0" + "-rc" + ".1";
    PreBelowRc("1.20.0", ".1", ".1");
  }

  /** Unrecognised tokens are indistinguishable, and so are leading zeros. */
  lemma CollapseExamples()
    ensures ParseVersion("1.alpha") == ParseVersion("1.beta")
    ensures ParseVersion("1.01") == ParseVersion("1.1")
  {
    assert "1.alpha" == "1" + "." + "alpha";
    assert "1.beta" == "1" + "." + "beta";
    assert !IsDigit("alpha"[0]) && !IsDigit("beta"[0]);
    SameSegmentCodeSameKey("1", "alpha", "beta");
    assert "1.01" == "1" + "." + "01";
    assert "1.1" == "1" + "." + "1";
    assert "01" == "0" + "1";
    LeadingZeroSegment("1");
    SameSegmentCodeSameKey("1", "01", "1");
  }

  // ---------------------------------------------------------------------------
  // normalize_version
  // ---------------------------------------------------------------------------

  /** `version[:-2]`: drops the last two characters, whatever they are; a
      string shorter than two characters becomes empty. */
  function NormalizeVersion(version: string): (trimmed: string)
    ensures |trimmed| == if |version| >= 2 then |version| - 2 else 0
    ensures trimmed <= version
    ensures |version| >= 2 && version[|version| - 2..] == ".0" ==> trimmed + ".0" == version
  {
    if |version| >= 2 then version[..|version| - 2] else ""
  }

  // ---------------------------------------------------------------------------
  // fix_json_string
  // ---------------------------------------------------------------------------

  /** The characters `\s` matches in a Python `str` pattern (`str.isspace()`). */
  predicate IsSpace(c: char)
  {
    var n := c as int;
    || 9 <= n <= 13
    || 28 <= n <= 32
    || n == 0x85 || n == 0xA0 || n == 0x1680
    || 0x2000 <= n <= 0x200A
    || n == 0x2028 || n == 0x2029 || n == 0x202F || n == 0x205F || n == 0x3000
  }

  predicate IsCloser(c: char)
  {
    c == '}' || c == ']'
  }

  /** The first index at or after `i` that does not hold whitespace, or `|s|`. */
  function SkipSpace(s: string, i: nat): (j: nat)
    requires i <= |s|
    ensures i <= j <= |s|
    decreases |s| - i
  {
    if i == |s| || !IsSpace(s[i]) then i else SkipSpace(s, i + 1)
  }

  /** The pattern `,(\s*[}\]])` matches at `i`: a comma whose next
      non-whitespace character closes an object or an array. */
  predicate DanglingComma(s: string, i: nat)
    requires i < |s|
  {
    s[i] == ',' && SkipSpace(s, i + 1) < |s| && IsCloser(s[SkipSpace(s, i + 1)])
  }

  /** `re.sub(r",(\s*[}\]])", r"\1", s[i..])`: scanning left to right, a match
      is replaced by its group (the whitespace and the closer) and the scan
      resumes after it; elsewhere one character is copied. */
  function SubFrom(s: string, i: nat): (r: string)
    requires i <= |s|
    ensures |r| <= |s| - i
    decreases |s| - i
  {
    if i == |s| then ""
    else if DanglingComma(s, i) then
      var j := SkipSpace(s, i + 1);
      s[i + 1..j + 1] + SubFrom(s, j + 1)
    else [s[i]] + SubFrom(s, i + 1)
  }

  /** The repair rule stated character by character: every dangling comma of
      `s[i..]` is deleted, and every other character is kept, in order. */
  function DropDangling(s: string, i: nat): (r: string)
    requires i <= |s|
    ensures |r| <= |s| - i
    decreases |s| - i
  {
    if i == |s| then ""
    else if DanglingComma(s, i) then DropDangling(s, i + 1)
    else [s[i]] + DropDangling(s, i + 1)
  }

  /** Only commas are deleted: with the commas taken out, the repaired text and
      the original are the same; and comma-free text is left alone. */
  lemma {:induction false} DropDanglingDeletesOnlyCommas(s: string, i: nat)
    requires i <= |s|
    ensures Without(DropDangling(s, i), ',') == Without(s[i..], ',')
    ensures ',' !in s[i..] ==> DropDangling(s, i) == s[i..]
    decreases |s| - i
  {
    if i < |s| {
      DropDanglingDeletesOnlyCommas(s, i + 1);
      DeleteStep(s, i);
    }
  }

  /** One step of the above: the character at `i` is either a comma, which
      deleting commas removes from both sides, or copied to both sides. */
  lemma DeleteStep(s: string, i: nat)
    requires i < |s|
    ensures Without(DropDangling(s, i), ',') == Without(s[i..], ',')
            <== Without(DropDangling(s, i + 1), ',') == Without(s[i + 1..], ',')
    ensures DropDangling(s, i) == s[i..] <== s[i] != ',' && DropDangling(s, i + 1) == s[i + 1..]
  {
    var t := s[i..];
    assert t[0] == s[i] && t[1..] == s[i + 1..];
    if !DanglingComma(s, i) {
      var u := [s[i]] + DropDangling(s, i + 1);
      assert u[0] == s[i] && u[1..] == DropDangling(s, i + 1);
    }
  }

  lemma {:induction false} KeepsCommaFreeStretch(s: string, a: nat, b: nat)
    requires a <= b <= |s|
    requires forall k :: a <= k < b ==> s[k] != ','
    ensures DropDangling(s, a) == s[a..b] + DropDangling(s, b)
    decreases b - a
  {
    if a < b {
      assert !DanglingComma(s, a);
      assert DropDangling(s, a) == [s[a]] + DropDangling(s, a + 1);
      KeepsCommaFreeStretch(s, a + 1, b);
      assert s[a..b] == [s[a]] + s[a + 1..b];
    } else {
      assert s[a..b] == [];
    }
  }

  /** Everything `SkipSpace` skips is whitespace, and it stops at the first
      character that is not. */
  lemma {:induction false} SkipSpaceSkipsWhitespace(s: string, i: nat)
    requires i <= |s|
    ensures forall k :: i <= k < SkipSpace(s, i) ==> IsSpace(s[k])
    ensures SkipSpace(s, i) < |s| ==> !IsSpace(s[SkipSpace(s, i)])
    decreases |s| - i
  {
    if i < |s| && IsSpace(s[i]) {
      SkipSpaceSkipsWhitespace(s, i + 1);
    }
  }

  /** `DanglingComma` is the pattern `,(\s*[}\]])` read literally: a comma,
      then a run of whitespace, then '}' or ']'. */
  lemma DanglingCommaIsPatternMatch(s: string, i: nat)
    requires i < |s|
    ensures DanglingComma(s, i)
            <==> && s[i] == ','
                 && exists j :: i < j < |s| && IsCloser(s[j]) && forall k :: i < k < j ==> IsSpace(s[k])
  {
    SkipSpaceSkipsWhitespace(s, i + 1);
  }

  /** The whitespace after a comma holds no comma. */
  lemma {:induction false} WhitespaceHasNoComma(s: string, i: nat)
    requires i <= |s|
    ensures forall k :: i <= k < SkipSpace(s, i) ==> s[k] != ','
    decreases |s| - i
  {
    if i < |s| && IsSpace(s[i]) {
      WhitespaceHasNoComma(s, i + 1);
    }
  }

  /** The regex substitution deletes exactly the dangling commas. */
  lemma {:induction false} SubFromDropsDangling(s: string, i: nat)
    requires i <= |s|
    ensures SubFrom(s, i) == DropDangling(s, i)
    decreases |s| - i
  {
    if i < |s| {
      if DanglingComma(s, i) {
        assert SubFrom(s, i) == s[i + 1..ResumeAt(s, i)] + SubFrom(s, ResumeAt(s, i));
        MatchStep(s, i);
      } else {
        CopyStep(s, i);
      }
      SubFromDropsDangling(s, ResumeAt(s, i));
    }
  }

  /** Where the substitution resumes after position `i`: after the closer of
      a match, else at the next character. */
  function ResumeAt(s: string, i: nat): (k: nat)
    requires i < |s|
    ensures i < k <= |s|
  {
    if DanglingComma(s, i) then SkipSpace(s, i + 1) + 1 else i + 1
  }

  /** At a match, the per-character rule, like the substitution, emits the
      whitespace and the closer without the comma. */
  lemma MatchStep(s: string, i: nat)
    requires i < |s| && DanglingComma(s, i)
    ensures DropDangling(s, i) == s[i + 1..ResumeAt(s, i)] + DropDangling(s, ResumeAt(s, i))
  {
    var j := SkipSpace(s, i + 1);
    WhitespaceHasNoComma(s, i + 1);
    KeepsCommaFreeStretch(s, i + 1, j + 1);
  }

  /** Elsewhere both copy the character. */
  lemma CopyStep(s: string, i: nat)
    requires i < |s| && !DanglingComma(s, i)
    ensures SubFrom(s, i) == [s[i]] + SubFrom(s, i + 1)
    ensures DropDangling(s, i) == [s[i]] + DropDangling(s, i + 1)
  {
  }

  /** `fix_json_string`: the trailing commas before '}' or ']' are removed;
      the whitespace after them, the closer and every other character stay. */
  function FixJsonString(json: string): (fixed: string)
    ensures fixed == DropDangling(json, 0)
    ensures |fixed| <= |json|
    ensures Without(fixed, ',') == Without(json, ',')
    ensures ',' !in json ==> fixed == json
  {
    SubFromDropsDangling(json, 0);
    DropDanglingDeletesOnlyCommas(json, 0);
    assert json[0..] == json;
    SubFrom(json, 0)
  }

  /** One pass is not idempotent: the comma uncovered by a deletion stays. */
  lemma FixJsonNotIdempotent()
    ensures FixJsonString(",,]") == ",]"
    ensures FixJsonString(",]") == "]"
  {
    var s := ",,]";
    assert SkipSpace(s, 1) == 1;
    assert !DanglingComma(s, 0);
    assert SkipSpace(s, 2) == 2;
    assert DanglingComma(s, 1);
    var t := ",]";
    assert SkipSpace(t, 1) == 1;
    assert DanglingComma(t, 0);
  }
}
