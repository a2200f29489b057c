/**
 The two Python string built-ins that `parse_version` calls, on strings as
 `seq<char>`: `s.split(sep)` for a one-character separator (with its inverse
 `sep.join(parts)`), and `s.replace(target, replacement, 1)` for one character.
 Two helpers that the code never calls serve to state properties: `s.count(c)`,
 which counts the separators a split meets, and `Without`, which deletes every
 occurrence of a character.
 */
module Text {

  /** `s.count(c)`: how many times `c` occurs in `s`. */
  function Count(s: string, c: char): (n: nat)
    ensures n == 0 <==> c !in s
    ensures n <= |s|
  {
    if |s| == 0 then 0
    else (if s[0] == c then 1 else 0) + Count(s[1..], c)
  }

  /** `s` with every occurrence of `c` deleted, the rest in order. */
  function Without(s: string, c: char): (r: string)
    ensures c !in r
    ensures c !in s ==> r == s
  {
    if |s| == 0 then ""
    else if s[0] == c then Without(s[1..], c)
    else [s[0]] + Without(s[1..], c)
  }

  /** `sep.join(parts)`: the parts with one `sep` between neighbours. */
  function Join(parts: seq<string>, sep: char): (s: string)
    requires |parts| > 0
  {
    if |parts| == 1 then parts[0]
    else parts[0] + [sep] + Join(parts[1..], sep)
  }

  /** `s.split(sep)`: the maximal `sep`-free pieces between separators, empty
      ones included. */
  function Split(s: string, sep: char): (parts: seq<string>)
    ensures |parts| > 0
  {
    if |s| == 0 then [""]
    else
      var rest := Split(s[1..], sep);
      if s[0] == sep then [""] + rest
      else [[s[0]] + rest[0]] + rest[1..]
  }

  /** `split` returns one piece more than there are separators, no piece holds
      the separator, and joining the pieces gives back the string. */
  lemma {:induction false} SplitPieces(s: string, sep: char)
    ensures |Split(s, sep)| == Count(s, sep) + 1
    ensures forall i :: 0 <= i < |Split(s, sep)| ==> sep !in Split(s, sep)[i]
    ensures Join(Split(s, sep), sep) == s
    decreases |s|
  {
    if |s| > 0 {
      SplitPieces(s[1..], sep);
      var rest := Split(s[1..], sep);
      var parts := Split(s, sep);
      if s[0] == sep {
        assert parts[1..] == rest;
      } else {
        assert parts[1..] == rest[1..];
        if |rest| > 1 {
          assert Join(rest, sep) == rest[0] + [sep] + Join(rest[1..], sep);
        }
        assert Join(parts, sep) == [s[0]] + Join(rest, sep);
        assert forall i :: 1 <= i < |parts| ==> parts[i] == rest[i];
      }
      assert s == [s[0]] + s[1..];
    }
  }

  /** Splitting a string at one separator splits its two sides independently. */
  lemma {:induction false} SplitConcat(a: string, b: string, sep: char)
    ensures Split(a + [sep] + b, sep) == Split(a, sep) + Split(b, sep)
    decreases |a|
  {
    if |a| == 0 {
      assert a + [sep] + b == [sep] + b;
      assert ([sep] + b)[1..] == b;
    } else {
      assert (a + [sep] + b)[1..] == a[1..] + [sep] + b;
      assert (a + [sep] + b)[0] == a[0];
      SplitConcat(a[1..], b, sep);
    }
  }

  /** A string without the separator splits into itself alone. */
  lemma {:induction false} SplitWithoutSeparator(s: string, sep: char)
    requires sep !in s
    ensures Split(s, sep) == [s]
    decreases |s|
  {
    if |s| > 0 {
      SplitWithoutSeparator(s[1..], sep);
      assert s == [s[0]] + s[1..];
    }
  }

  /** `split` inverts `join` whenever no part contains the separator. */
  lemma {:induction false} SplitJoin(parts: seq<string>, sep: char)
    requires |parts| > 0
    requires forall i :: 0 <= i < |parts| ==> sep !in parts[i]
    ensures Split(Join(parts, sep), sep) == parts
    decreases |parts|
  {
    SplitWithoutSeparator(parts[0], sep);
    if |parts| > 1 {
      SplitJoin(parts[1..], sep);
      SplitConcat(parts[0], Join(parts[1..], sep), sep);
      assert parts == [parts[0]] + parts[1..];
    }
  }

  /** `s.replace(target, replacement, 1)`. */
  function ReplaceFirst(s: string, target: char, replacement: char): (r: string)
    ensures |r| == |s|
  {
    if |s| == 0 then s
    else if s[0] == target then [replacement] + s[1..]
    else [s[0]] + ReplaceFirst(s[1..], target, replacement)
  }

  /** Only the first occurrence of `target` changes; every other character
      stays where it is. */
  lemma {:induction false} ReplaceFirstPointwise(s: string, target: char, replacement: char)
    ensures forall k :: 0 <= k < |s| ==>
              ReplaceFirst(s, target, replacement)[k]
              == (if s[k] == target && target !in s[..k] then replacement else s[k])
    decreases |s|
  {
    if |s| > 0 && s[0] != target {
      ReplaceFirstPointwise(s[1..], target, replacement);
      assert forall k :: 1 <= k <= |s| ==> s[..k] == [s[0]] + s[1..][..k - 1];
    }
  }

  /** A string without the target is left alone. */
  lemma {:induction false} ReplaceFirstAbsent(s: string, target: char, replacement: char)
    requires target !in s
    ensures ReplaceFirst(s, target, replacement) == s
    decreases |s|
  {
    if |s| > 0 {
      ReplaceFirstAbsent(s[1..], target, replacement);
    }
  }

  /** Text appended after a string is untouched when the replacement happens
      before it, or when it holds no target at all. */
  lemma {:induction false} ReplaceFirstAppend(a: string, b: string, target: char, replacement: char)
    requires target !in b || target in a
    ensures ReplaceFirst(a + b, target, replacement) == ReplaceFirst(a, target, replacement) + b
    decreases |a|
  {
    if |a| == 0 {
      assert a + b == b;
      ReplaceFirstAbsent(b, target, replacement);
    } else {
      assert (a + b)[0] == a[0];
      assert (a + b)[1..] == a[1..] + b;
      if a[0] != target {
        assert target in a ==> target in a[1..];
        ReplaceFirstAppend(a[1..], b, target, replacement);
      }
    }
  }

  /** The first occurrence is the one that is replaced. */
  lemma {:induction false} ReplaceFirstAt(a: string, b: string, target: char, replacement: char)
    requires target !in a
    ensures ReplaceFirst(a + [target] + b, target, replacement) == a + [replacement] + b
    decreases |a|
  {
    var s := a + [target] + b;
    if |a| == 0 {
      assert s == [target] + b;
    } else {
      assert s[0] == a[0];
      assert s[1..] == a[1..] + [target] + b;
      ReplaceFirstAt(a[1..], b, target, replacement);
    }
  }

  /** Replacing the first `target` by `replacement` adds exactly one
      occurrence of `replacement` when `target` occurs at all. */
  lemma {:induction false} CountAfterReplaceFirst(s: string, target: char, replacement: char)
    requires target != replacement
    ensures Count(ReplaceFirst(s, target, replacement), replacement)
            == Count(s, replacement) + (if target in s then 1 else 0)
    decreases |s|
  {
    if |s| > 0 {
      var r := ReplaceFirst(s, target, replacement);
      assert r[0] == (if s[0] == target then replacement else s[0]);
      if s[0] == target {
        assert r[1..] == s[1..];
      } else {
        assert r[1..] == ReplaceFirst(s[1..], target, replacement);
        assert target in s <==> target in s[1..];
        CountAfterReplaceFirst(s[1..], target, replacement);
      }
    }
  }
}
