/**
 The order the updater uses to compare version keys. Keys are Python tuples of
 integers, and Python compares tuples lexicographically: the first position at
 which the two differ decides, and when one is a proper prefix of the other the
 shorter one is smaller. This module defines that order on `seq<int>` and proves
 that it is a strict total order.
 */
module TupleOrder {

  /** Python's `a < b` on two tuples of integers. The empty tuple is below
      exactly the nonempty ones, and two tuples in this order differ. */
  predicate Less(a: seq<int>, b: seq<int>)
    ensures |a| == 0 ==> (Less(a, b) <==> |b| > 0)
    ensures Less(a, b) ==> a != b
    decreases |a|
  {
    if |b| == 0 then false
    else if |a| == 0 then true
    else if a[0] != b[0] then a[0] < b[0]
    else Less(a[1..], b[1..])
  }

  /** Python's `a <= b` on two tuples of integers (so `b >= a`). */
  predicate LessOrEqual(a: seq<int>, b: seq<int>)
  {
    Less(a, b) || a == b
  }

  /** The first `k` elements agree and position `k` decides: either `a` ends
      there while `b` goes on, or both go on and `a[k] < b[k]`. */
  predicate DecidedAt(a: seq<int>, b: seq<int>, k: nat)
  {
    && k <= |a|
    && k <= |b|
    && a[..k] == b[..k]
    && (if k == |a| then k < |b| else k < |b| && a[k] < b[k])
  }

  lemma {:induction false} LessHasDecidingPosition(a: seq<int>, b: seq<int>)
    requires Less(a, b)
    ensures exists k: nat :: DecidedAt(a, b, k)
    decreases |a|
  {
    if |a| == 0 || a[0] != b[0] {
      assert DecidedAt(a, b, 0);
    } else {
      LessHasDecidingPosition(a[1..], b[1..]);
      var k: nat :| DecidedAt(a[1..], b[1..], k);
      assert a[..k + 1] == [a[0]] + a[1..][..k];
      assert b[..k + 1] == [b[0]] + b[1..][..k];
      assert DecidedAt(a, b, k + 1);
    }
  }

  lemma {:induction false} DecidingPositionGivesLess(a: seq<int>, b: seq<int>, k: nat)
    requires DecidedAt(a, b, k)
    ensures Less(a, b)
    decreases k
  {
    if k > 0 {
      assert a[0] == a[..k][0] && b[0] == b[..k][0];
      assert a[1..][..k - 1] == a[..k][1..];
      assert b[1..][..k - 1] == b[..k][1..];
      DecidingPositionGivesLess(a[1..], b[1..], k - 1);
    }
  }

  /** The recursive definition agrees with the textbook definition of the
      lexicographic order (common prefix, then a deciding position). */
  lemma LessIffDecidingPosition(a: seq<int>, b: seq<int>)
    ensures Less(a, b) <==> exists k: nat :: DecidedAt(a, b, k)
  {
    if Less(a, b) {
      LessHasDecidingPosition(a, b);
    }
    if exists k: nat :: DecidedAt(a, b, k) {
      var k: nat :| DecidedAt(a, b, k);
      DecidingPositionGivesLess(a, b, k);
    }
  }

  lemma {:induction false} Irreflexive(a: seq<int>)
    ensures !Less(a, a)
    decreases |a|
  {
    if |a| > 0 {
      Irreflexive(a[1..]);
    }
  }

  /** A proper prefix is below every extension of it, and no tuple is below
      one of its own prefixes: (0, 0, 0) < (0, 0, 0, 0). */
  lemma {:induction false} PrefixOrder(a: seq<int>, b: seq<int>)
    ensures |a| < |b| && a == b[..|a|] ==> Less(a, b)
    ensures |b| <= |a| && b == a[..|b|] ==> !Less(a, b)
    decreases |a|
  {
    if |a| > 0 && |b| > 0 && a[0] == b[0] {
      PrefixOrder(a[1..], b[1..]);
      assert |a| <= |b| && a == b[..|a|] ==> a[1..] == b[1..][..|a| - 1];
      assert |b| <= |a| && b == a[..|b|] ==> b[1..] == a[1..][..|b| - 1];
    }
  }

  lemma {:induction false} Transitive(a: seq<int>, b: seq<int>, c: seq<int>)
    requires Less(a, b) && Less(b, c)
    ensures Less(a, c)
    decreases |a|
  {
    if |a| > 0 && a[0] == b[0] && b[0] == c[0] {
      Transitive(a[1..], b[1..], c[1..]);
    }
  }

  /** Any two keys are comparable, and at most one of the three relations holds. */
  lemma {:induction false} Trichotomy(a: seq<int>, b: seq<int>)
    ensures Less(a, b) || a == b || Less(b, a)
    ensures !(Less(a, b) && Less(b, a))
    ensures Less(a, b) ==> a != b
    decreases |a|
  {
    if |a| > 0 && |b| > 0 && a[0] == b[0] {
      Trichotomy(a[1..], b[1..]);
      if a[1..] == b[1..] {
        assert a == [a[0]] + a[1..] && b == [b[0]] + b[1..];
      }
    }
    if Less(a, b) {
      Irreflexive(a);
    }
  }

  /** Python's `a >= b` is exactly "not `a < b`". */
  lemma AtLeastIffNotLess(a: seq<int>, b: seq<int>)
    ensures LessOrEqual(b, a) <==> !Less(a, b)
  {
    Trichotomy(a, b);
  }

  lemma LessOrEqualTransitive(a: seq<int>, b: seq<int>, c: seq<int>)
    requires LessOrEqual(a, b) && LessOrEqual(b, c)
    ensures LessOrEqual(a, c)
  {
    if Less(a, b) && Less(b, c) {
      Transitive(a, b, c);
    }
  }

  /** A shared prefix does not change how two keys compare. */
  lemma {:induction false} CommonPrefix(p: seq<int>, a: seq<int>, b: seq<int>)
    ensures Less(p + a, p + b) <==> Less(a, b)
    decreases |p|
  {
    if |p| > 0 {
      assert (p + a)[1..] == p[1..] + a;
      assert (p + b)[1..] == p[1..] + b;
      CommonPrefix(p[1..], a, b);
    } else {
      assert p + a == a && p + b == b;
    }
  }
}
