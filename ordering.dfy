/**
 * JavaScript's `<` on strings and the default `Array.prototype.sort`, which
 * orders strings the same way. Both the generator (file listings, tag
 * names, entry dates) and the tag indexer rely on this order.
 */
module Ordering {

  /** `a < b` on strings: lexicographic on characters, a proper prefix first. */
  predicate Less(a: string, b: string)
    decreases |a|
  {
    |b| > 0 && (|a| == 0 || a[0] < b[0] || (a[0] == b[0] && Less(a[1..], b[1..])))
  }

  lemma {:induction false} LessIrreflexive(a: string)
    ensures !Less(a, a)
  {
    if |a| > 0 {
      LessIrreflexive(a[1..]);
    }
  }

  lemma {:induction false} LessTransitive(a: string, b: string, c: string)
    requires Less(a, b) && Less(b, c)
    ensures Less(a, c)
  {
    if |a| > 0 && a[0] == b[0] && b[0] == c[0] {
      LessTransitive(a[1..], b[1..], c[1..]);
    }
  }

  lemma LessAsymmetric(a: string, b: string)
    requires Less(a, b)
    ensures !Less(b, a)
  {
    if Less(b, a) {
      LessTransitive(a, b, a);
      LessIrreflexive(a);
    }
  }

  /** Any two strings are equal or ordered one way or the other. */
  lemma {:induction false} LessTotal(a: string, b: string)
    ensures a == b || Less(a, b) || Less(b, a)
  {
    if |a| > 0 && |b| > 0 && a[0] == b[0] {
      LessTotal(a[1..], b[1..]);
      assert a == [a[0]] + a[1..] && b == [b[0]] + b[1..];
    }
  }

  /** "Not after" is transitive. */
  lemma NotLessTransitive(a: string, b: string, c: string)
    requires !Less(a, b) && !Less(b, c)
    ensures !Less(a, c)
  {
    LessTotal(a, b);
    LessTotal(b, c);
    if Less(a, c) && a != b && b != c {
      LessTransitive(c, b, a);
      LessAsymmetric(a, c);
    }
  }

  /** Sorted in ascending order under `Less`. */
  ghost predicate Ascending(s: seq<string>) {
    forall i, j | 0 <= i < j < |s| :: !Less(s[j], s[i])
  }

  /** Sorted in descending order under `Less`. */
  ghost predicate Descending(s: seq<string>) {
    forall i, j | 0 <= i < j < |s| :: !Less(s[i], s[j])
  }

  /** An element that sorts after none of an ascending sequence keeps it ascending in front of it. */
  lemma AscendingCons(y: string, r: seq<string>)
    requires Ascending(r) && forall z | z in r :: !Less(z, y)
    ensures Ascending([y] + r)
  {
    forall i, j | 0 <= i < j < |[y] + r|
      ensures !Less(([y] + r)[j], ([y] + r)[i])
    {
      assert ([y] + r)[j] == r[j - 1];
    }
  }

  /** What `Insert` places after the head of `s` never sorts before that head. */
  lemma HeadBeforeRest(x: string, s: seq<string>, rest: seq<string>)
    requires |s| > 0 && Ascending(s) && Less(s[0], x)
    requires multiset(rest) == multiset(s[1..]) + multiset{x}
    ensures forall y | y in rest :: !Less(y, s[0])
  {
    forall y | y in rest
      ensures !Less(y, s[0])
    {
      assert y in multiset(rest);
      if y == x {
        LessAsymmetric(s[0], x);
      } else {
        assert y in multiset(s[1..]);
        var k :| 0 <= k < |s[1..]| && s[1..][k] == y;
        assert s[k + 1] == y;
      }
    }
  }

  /** When the head of an ascending `s` does not sort before `x`, nothing in `s` does. */
  lemma NoneBefore(x: string, s: seq<string>)
    requires |s| > 0 && Ascending(s) && !Less(s[0], x)
    ensures forall y | y in s :: !Less(y, x)
  {
    LessTotal(x, s[0]);
    forall k | 0 <= k < |s|
      ensures !Less(s[k], x)
    {
      if k > 0 && Less(s[k], x) && x != s[0] {
        LessTransitive(s[k], x, s[0]);
      }
    }
  }

  /** Inserts `x` into the ascending sequence `s` after every element that sorts before it. */
  function Insert(x: string, s: seq<string>): (r: seq<string>)
    requires Ascending(s)
    ensures Ascending(r)
    ensures multiset(r) == multiset(s) + multiset{x}
  {
    if s == [] then [x]
    else if Less(s[0], x) then
      var rest := Insert(x, s[1..]);
      HeadBeforeRest(x, s, rest);
      AscendingCons(s[0], rest);
      assert s == [s[0]] + s[1..];
      [s[0]] + rest
    else
      NoneBefore(x, s);
      AscendingCons(x, s);
      [x] + s
  }

  /** `s.slice().sort()`: the strings of `s` in ascending order. */
  function Sort(s: seq<string>): (r: seq<string>)
    ensures Ascending(r)
    ensures multiset(r) == multiset(s)
  {
    if s == [] then []
    else
      assert s == [s[0]] + s[1..];
      Insert(s[0], Sort(s[1..]))
  }

  /** The head of an ascending sequence sorts before none of its elements. */
  lemma AscendingHead(a: seq<string>, x: string)
    requires Ascending(a) && x in multiset(a)
    ensures !Less(x, a[0])
  {
    var i :| 0 <= i < |a| && a[i] == x;
    if i == 0 {
      LessIrreflexive(x);
    }
  }

  /** Dropping the head keeps a sequence ascending. */
  lemma AscendingTail(a: seq<string>)
    requires Ascending(a) && a != []
    ensures Ascending(a[1..])
  {
    forall i, j | 0 <= i < j < |a| - 1
      ensures !Less(a[1..][j], a[1..][i])
    {
      assert a[1..][j] == a[j + 1] && a[1..][i] == a[i + 1];
    }
  }

  /** Dropping the head of a non-empty sequence removes one copy of it. */
  lemma MultisetTail(a: seq<string>)
    requires a != []
    ensures multiset(a[1..]) == multiset(a) - multiset{a[0]}
  {
    assert a == [a[0]] + a[1..];
  }

  /** Two ascending permutations of each other start with the same element. */
  lemma AscendingSameHead(a: seq<string>, b: seq<string>)
    requires Ascending(a) && Ascending(b) && a != []
    requires multiset(a) == multiset(b)
    ensures b != [] && a[0] == b[0]
  {
    assert a[0] in multiset(a);
    assert b != [];
    assert b[0] in multiset(b);
    AscendingHead(a, b[0]);
    AscendingHead(b, a[0]);
    LessTotal(a[0], b[0]);
  }

  /**
   * An ascending permutation is unique, so `Sort` gives the same order as
   * any correct sorting algorithm, whatever its tie-breaking.
   */
  lemma {:induction false} AscendingPermutationUnique(a: seq<string>, b: seq<string>)
    requires Ascending(a) && Ascending(b)
    requires multiset(a) == multiset(b)
    ensures a == b
  {
    if a != [] {
      AscendingSameHead(a, b);
      MultisetTail(a);
      MultisetTail(b);
      AscendingTail(a);
      AscendingTail(b);
      AscendingPermutationUnique(a[1..], b[1..]);
      assert a == [a[0]] + a[1..] && b == [b[0]] + b[1..];
    } else {
      assert |b| == |multiset(b)| == 0;
    }
  }

  /** `s.reverse()`. */
  function Reverse<T>(s: seq<T>): (r: seq<T>)
    ensures |r| == |s|
    ensures forall i | 0 <= i < |s| :: r[i] == s[|s| - 1 - i]
  {
    if s == [] then [] else Reverse(s[1..]) + [s[0]]
  }

  /** Reversing keeps the elements. */
  lemma {:induction false} ReverseMultiset<T>(s: seq<T>)
    ensures multiset(Reverse(s)) == multiset(s)
  {
    if s != [] {
      ReverseMultiset(s[1..]);
      assert s == [s[0]] + s[1..];
    }
  }

  /** `listing.sort().reverse()` lists the names in descending order. */
  lemma ReverseSortDescending(s: seq<string>)
    ensures Descending(Reverse(Sort(s)))
    ensures multiset(Reverse(Sort(s))) == multiset(s)
  {
    ReverseMultiset(Sort(s));
  }
}
