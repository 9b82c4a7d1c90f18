/** Character-level string operations the application relies on: Python's
    `str.lower`, the code-point ordering `sorted` uses on strings, and
    `sorted(set(...))` of a list of strings. */
module Text {

  /** Lower-cases one character; only the ASCII letters 'A'..'Z' change. */
  function LowerChar(c: char): char {
    if 'A' <= c <= 'Z' then (c as int + 32) as char else c
  }

  /** A string with no ASCII upper-case letter. */
  predicate IsLowerCase(s: string) {
    forall i :: 0 <= i < |s| ==> !('A' <= s[i] <= 'Z')
  }

  /** Python's `s.lower()`, restricted to ASCII letters: the result has the
      same length, is lower-case, and agrees with `s` on every position up to case. */
  function Lower(s: string): (r: string)
    ensures |r| == |s|
    ensures IsLowerCase(r)
    ensures forall i :: 0 <= i < |s| ==> r[i] == LowerChar(s[i])
  {
    if |s| == 0 then "" else [LowerChar(s[0])] + Lower(s[1..])
  }

  /** Lower-casing leaves a lower-case string unchanged. */
  lemma LowerOfLowerCase(s: string)
    requires IsLowerCase(s)
    ensures Lower(s) == s
  {
  }

  /** Lower-casing twice is lower-casing once. */
  lemma LowerIdempotent(s: string)
    ensures Lower(Lower(s)) == Lower(s)
  {
    LowerOfLowerCase(Lower(s));
  }

  /** Python's `a < b` on strings: lexicographic by code point, a proper prefix
      being smaller. */
  predicate Less(a: string, b: string)
    decreases |a|
  {
    if |a| == 0 then |b| > 0
    else if |b| == 0 then false
    else if a[0] < b[0] then true
    else a[0] == b[0] && Less(a[1..], b[1..])
  }

  lemma {:induction false} LessIrreflexive(a: string)
    ensures !Less(a, a)
    decreases |a|
  {
    if |a| > 0 {
      LessIrreflexive(a[1..]);
    }
  }

  lemma {:induction false} LessTransitive(a: string, b: string, c: string)
    requires Less(a, b) && Less(b, c)
    ensures Less(a, c)
    decreases |a|
  {
    if |a| > 0 && a[0] == b[0] && b[0] == c[0] {
      LessTransitive(a[1..], b[1..], c[1..]);
    }
  }

  /** Two different strings are always ordered one way or the other. */
  lemma {:induction false} LessTotal(a: string, b: string)
    requires a != b
    ensures Less(a, b) || Less(b, a)
    decreases |a|
  {
    if |a| > 0 && |b| > 0 && a[0] == b[0] {
      assert a == [a[0]] + a[1..] && b == [b[0]] + b[1..];
      LessTotal(a[1..], b[1..]);
    }
  }

  lemma {:induction false} LessAsymmetric(a: string, b: string)
    requires Less(a, b)
    ensures !Less(b, a)
    decreases |a|
  {
    if |a| > 0 && |b| > 0 && a[0] == b[0] {
      LessAsymmetric(a[1..], b[1..]);
    }
  }

  /** Strictly increasing under `Less`: sorted and free of duplicates. */
  predicate StrictlySorted(xs: seq<string>) {
    forall i, j :: 0 <= i < j < |xs| ==> Less(xs[i], xs[j])
  }

  /** A strictly sorted list holds every string at most once. */
  lemma StrictlySortedDistinct(xs: seq<string>)
    requires StrictlySorted(xs)
    ensures forall i, j :: 0 <= i < |xs| && 0 <= j < |xs| && i != j ==> xs[i] != xs[j]
  {
    forall i, j | 0 <= i < |xs| && 0 <= j < |xs| && i != j
      ensures xs[i] != xs[j]
    {
      LessIrreflexive(xs[i]);
    }
  }

  /** Adds `x` at its place in a strictly sorted list, unless it is already there. */
  function Insert(xs: seq<string>, x: string): (r: seq<string>)
    requires StrictlySorted(xs)
    ensures StrictlySorted(r)
    ensures forall y :: y in r <==> y in xs || y == x
  {
    if |xs| == 0 then [x]
    else if x == xs[0] then xs
    else if Less(x, xs[0]) then
      InsertFrontSorted(xs, x);
      [x] + xs
    else
      LessTotal(x, xs[0]);
      var tail := Insert(xs[1..], x);
      assert forall k :: 0 <= k < |tail| ==> Less(xs[0], tail[k]) by {
        forall k | 0 <= k < |tail| ensures Less(xs[0], tail[k]) {
          assert tail[k] in tail;
        }
      }
      [xs[0]] + tail
  }

  lemma InsertFrontSorted(xs: seq<string>, x: string)
    requires StrictlySorted(xs) && |xs| > 0 && Less(x, xs[0])
    ensures StrictlySorted([x] + xs)
  {
    var r := [x] + xs;
    forall i, j | 0 <= i < j < |r| ensures Less(r[i], r[j]) {
      if i == 0 && j > 1 {
        LessTransitive(x, xs[0], xs[j - 1]);
      }
    }
  }

  /** Python's `sorted(set(xs))`: the distinct strings of `xs` in increasing order. */
  function SortedSet(xs: seq<string>): (r: seq<string>)
    ensures StrictlySorted(r)
    ensures forall y :: y in r <==> y in xs
  {
    if |xs| == 0 then []
    else
      var rest := SortedSet(xs[..|xs| - 1]);
      assert xs == xs[..|xs| - 1] + [xs[|xs| - 1]];
      Insert(rest, xs[|xs| - 1])
  }

  /** A strictly sorted list is determined by its elements, so `SortedSet(xs)`
      is the only strictly sorted list holding exactly the strings of `xs`. */
  lemma {:induction false} StrictlySortedUnique(a: seq<string>, b: seq<string>)
    requires StrictlySorted(a) && StrictlySorted(b)
    requires forall y :: y in a <==> y in b
    ensures a == b
    decreases |a|
  {
    if |a| > 0 {
      assert a[0] in b;
    }
    if |b| > 0 {
      assert b[0] in a;
    }
    if |a| > 0 && |b| > 0 {
      // The least element of each list is the least of the other.
      assert a[0] in b;
      assert b[0] in a;
      if a[0] != b[0] {
        var i :| 0 <= i < |b| && b[i] == a[0];
        var j :| 0 <= j < |a| && a[j] == b[0];
        assert i > 0 && j > 0;
        LessAsymmetric(b[0], a[0]);
        assert false;
      }
      forall y ensures y in a[1..] <==> y in b[1..] {
        if y in a[1..] {
          var k :| 1 <= k < |a| && a[k] == y;
          LessIrreflexive(a[0]);
          assert y in b && y != b[0];
        }
        if y in b[1..] {
          var k :| 1 <= k < |b| && b[k] == y;
          LessIrreflexive(b[0]);
          assert y in a && y != a[0];
        }
      }
      StrictlySortedUnique(a[1..], b[1..]);
      assert a == [a[0]] + a[1..] && b == [b[0]] + b[1..];
    }
  }

  /** Two strings that agree up to position `i` and differ there are ordered
      by their characters at `i`. */
  lemma {:induction false} LessAtFirstDifference(a: string, b: string, i: nat)
    requires i < |a| && i < |b|
    requires a[..i] == b[..i] && a[i] < b[i]
    ensures Less(a, b)
    decreases i
  {
    if i > 0 {
      assert a[0] == a[..i][0] == b[..i][0] == b[0];
      assert a[1..][..i - 1] == a[..i][1..] == b[..i][1..] == b[1..][..i - 1];
      LessAtFirstDifference(a[1..], b[1..], i - 1);
    }
  }

  /** A list whose neighbours are strictly increasing is strictly sorted. */
  lemma {:induction false} ChainSorted(xs: seq<string>)
    requires forall k :: 0 <= k < |xs| - 1 ==> Less(xs[k], xs[k + 1])
    ensures StrictlySorted(xs)
    decreases |xs|
  {
    if |xs| > 1 {
      var tail := xs[1..];
      assert forall k :: 0 <= k < |tail| ==> tail[k] == xs[k + 1];
      ChainSorted(tail);
      forall i, j | 0 <= i < j < |xs| ensures Less(xs[i], xs[j]) {
        if i == 0 && j > 1 {
          assert xs[1] == tail[0] && xs[j] == tail[j - 1];
          LessTransitive(xs[0], xs[1], xs[j]);
        } else if i > 0 {
          assert xs[i] == tail[i - 1] && xs[j] == tail[j - 1];
        }
      }
    }
  }
}
