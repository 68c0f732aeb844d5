/**
 * The string operations the generator and the client script use, with the
 * meaning JavaScript gives them: `indexOf`, `replace` with a string pattern
 * (first occurrence only), `split` and `join` with a string separator, the
 * decimal rendering of a number (`'' + n`) and `Number(s)` on digit strings.
 */
module Strings {
  import opened Wrappers

  /** `pat` occurs in `s` at index `i`. */
  predicate OccursAt(s: string, pat: string, i: int) {
    0 <= i && i + |pat| <= |s| && s[i..i + |pat|] == pat
  }

  /** `i` is the first index at which `pat` occurs in `s`. */
  predicate FirstOccurrence(s: string, pat: string, i: int) {
    OccursAt(s, pat, i) && forall j | 0 <= j < i :: !OccursAt(s, pat, j)
  }

  /** `pat` occurs nowhere in `s`. */
  ghost predicate Absent(s: string, pat: string) {
    forall j :: !OccursAt(s, pat, j)
  }

  /** `s.indexOf(pat)`: the first index at which `pat` occurs, or -1. */
  function IndexOf(s: string, pat: string): (r: int)
    ensures r == -1 || FirstOccurrence(s, pat, r)
    ensures r == -1 <==> Absent(s, pat)
  {
    IndexFrom(s, pat, 0)
  }

  /** The search behind `IndexOf`, resumed at `from` once no earlier index matches. */
  function IndexFrom(s: string, pat: string, from: nat): (r: int)
    requires forall j | 0 <= j < from :: !OccursAt(s, pat, j)
    ensures r == -1 || (from <= r && FirstOccurrence(s, pat, r))
    ensures r == -1 <==> Absent(s, pat)
    decreases |s| - from
  {
    if |s| < from + |pat| then -1
    else if s[from..from + |pat|] == pat then from
    else IndexFrom(s, pat, from + 1)
  }

  /** `s.indexOf(pat) !== -1`. */
  predicate Contains(s: string, pat: string) {
    IndexOf(s, pat) != -1
  }

  /** There is at most one first occurrence. */
  lemma FirstOccurrenceUnique(s: string, pat: string, i: int, j: int)
    requires FirstOccurrence(s, pat, i) && FirstOccurrence(s, pat, j)
    ensures i == j
  {
  }

  /** Nothing before the first occurrence contains the pattern. */
  lemma AbsentBeforeFirst(s: string, pat: string, i: int)
    requires |pat| > 0 && FirstOccurrence(s, pat, i)
    ensures Absent(s[..i], pat)
  {
    forall j | 0 <= j && j + |pat| <= i
      ensures !OccursAt(s[..i], pat, j)
    {
      assert !OccursAt(s, pat, j);
      assert s[..i][j..j + |pat|] == s[j..j + |pat|];
    }
  }

  /** A pattern of one character occurs exactly where that character does. */
  lemma AbsentChar(s: string, c: char)
    requires c !in s
    ensures Absent(s, [c])
  {
    forall j | 0 <= j < |s|
      ensures !OccursAt(s, [c], j)
    {
      assert s[j..j + 1][0] == s[j];
    }
  }

  /** `s.replace(pat, rep)` with a string pattern: only the first occurrence is replaced. */
  function ReplaceFirst(s: string, pat: string, rep: string): string {
    var i := IndexOf(s, pat);
    if i < 0 then s else s[..i] + rep + s[i + |pat|..]
  }

  /** The replacement happens at the first occurrence, and only there. */
  lemma ReplaceFirstAt(s: string, pat: string, rep: string, i: int)
    requires FirstOccurrence(s, pat, i)
    ensures ReplaceFirst(s, pat, rep) == s[..i] + rep + s[i + |pat|..]
  {
    FirstOccurrenceUnique(s, pat, i, IndexOf(s, pat));
  }

  /** Without an occurrence nothing is replaced. */
  lemma ReplaceFirstAbsent(s: string, pat: string, rep: string)
    requires Absent(s, pat)
    ensures ReplaceFirst(s, pat, rep) == s
  {
  }

  /** `parts.join(sep)`. */
  function Join(parts: seq<string>, sep: string): string {
    if |parts| == 0 then ""
    else if |parts| == 1 then parts[0]
    else parts[0] + sep + Join(parts[1..], sep)
  }

  /**
   * `s.split(sep)` for a non-empty separator: the pieces between the
   * occurrences of `sep`, which `Join` puts back together.
   */
  function Split(s: string, sep: string): (parts: seq<string>)
    requires |sep| > 0
    ensures |parts| >= 1
    ensures Join(parts, sep) == s
    ensures forall i | FirstOccurrence(s, sep, i) :: parts[0] == s[..i]
    decreases |s|
  {
    var i := IndexOf(s, sep);
    if i < 0 then [s]
    else
      var rest := Split(s[i + |sep|..], sep);
      var parts := [s[..i]] + rest;
      assert Join(parts, sep) == s by {
        assert parts[1..] == rest;
        assert s[i..i + |sep|] == sep;
        assert s == s[..i] + s[i..i + |sep|] + s[i + |sep|..];
      }
      assert forall j | FirstOccurrence(s, sep, j) :: j == i by {
        forall j | FirstOccurrence(s, sep, j)
          ensures j == i
        {
          FirstOccurrenceUnique(s, sep, i, j);
        }
      }
      parts
  }

  /** A string without the separator splits into itself alone. */
  lemma SplitWhole(s: string, sep: string)
    requires |sep| > 0 && Absent(s, sep)
    ensures Split(s, sep) == [s]
  {
  }

  /** No piece of a split contains the separator. */
  lemma {:induction false} SplitPiecesAbsent(s: string, sep: string)
    requires |sep| > 0
    ensures forall k | 0 <= k < |Split(s, sep)| :: Absent(Split(s, sep)[k], sep)
    decreases |s|
  {
    var i := IndexOf(s, sep);
    if i >= 0 {
      AbsentBeforeFirst(s, sep, i);
      SplitPiecesAbsent(s[i + |sep|..], sep);
      var parts := Split(s, sep);
      assert parts[0] == s[..i];
      assert parts[1..] == Split(s[i + |sep|..], sep);
    }
  }

  /** Splitting at a one-character separator undoes joining with it. */
  lemma {:induction false} SplitJoin(parts: seq<string>, c: char)
    requires |parts| >= 1
    requires forall k | 0 <= k < |parts| :: c !in parts[k]
    ensures Split(Join(parts, [c]), [c]) == parts
  {
    if |parts| == 1 {
      AbsentChar(parts[0], c);
      SplitWhole(parts[0], [c]);
    } else {
      var s := Join(parts, [c]);
      var head := parts[0];
      assert s == head + [c] + Join(parts[1..], [c]);
      assert OccursAt(s, [c], |head|) by {
        assert s[|head|..|head| + 1] == [c];
      }
      forall j | 0 <= j < |head|
        ensures !OccursAt(s, [c], j)
      {
        assert s[j] == head[j];
        assert s[j..j + 1][0] == s[j];
      }
      assert FirstOccurrence(s, [c], |head|);
      FirstOccurrenceUnique(s, [c], |head|, IndexOf(s, [c]));
      assert s[|head| + 1..] == Join(parts[1..], [c]);
      SplitJoin(parts[1..], c);
    }
  }

  /** Past its first character, a pattern occurs in `[x] + t` where it occurs in `t`, one index later. */
  lemma OccursAtCons(x: char, t: string, pat: string, k: int)
    requires k > 0
    ensures OccursAt([x] + t, pat, k) <==> OccursAt(t, pat, k - 1)
  {
    if k + |pat| <= |t| + 1 {
      assert ([x] + t)[k..k + |pat|] == t[k - 1..k - 1 + |pat|];
    }
  }

  /** Searching a string whose first index holds no occurrence: the search of its tail, one index later. */
  lemma IndexOfCons(x: char, t: string, pat: string)
    requires !OccursAt([x] + t, pat, 0)
    ensures IndexOf([x] + t, pat) == if IndexOf(t, pat) == -1 then -1 else IndexOf(t, pat) + 1
  {
    var s := [x] + t;
    var i := IndexOf(t, pat);
    if i == -1 {
      forall j | j > 0
        ensures !OccursAt(s, pat, j)
      {
        OccursAtCons(x, t, pat, j);
      }
      assert Absent(s, pat);
    } else {
      OccursAtCons(x, t, pat, i + 1);
      forall j | 0 < j < i + 1
        ensures !OccursAt(s, pat, j)
      {
        OccursAtCons(x, t, pat, j);
      }
      assert FirstOccurrence(s, pat, i + 1);
      FirstOccurrenceUnique(s, pat, i + 1, IndexOf(s, pat));
    }
  }

  /** `[x] + t` splits like `t`, with `x` in front of the first piece, when its first index holds no separator. */
  lemma SplitCons(x: char, t: string, sep: string)
    requires |sep| > 0 && !OccursAt([x] + t, sep, 0)
    ensures Split([x] + t, sep) == [[x] + Split(t, sep)[0]] + Split(t, sep)[1..]
  {
    IndexOfCons(x, t, sep);
    var i := IndexOf(t, sep);
    if i >= 0 {
      assert ([x] + t)[..i + 1] == [x] + t[..i];
      assert ([x] + t)[i + 1 + |sep|..] == t[i + |sep|..];
    }
  }

  /** A string starting with the separator splits into an empty piece and the pieces of the rest. */
  lemma SplitHere(s: string, sep: string)
    requires |sep| > 0 && OccursAt(s, sep, 0)
    ensures Split(s, sep) == [""] + Split(s[|sep|..], sep)
  {
    assert FirstOccurrence(s, sep, 0);
    FirstOccurrenceUnique(s, sep, 0, IndexOf(s, sep));
  }

  /** A line terminator: a character the regular-expression `.` does not match. */
  predicate IsLineTerminator(c: char) {
    c == '\n' || c == '\r' || c == '\U{2028}' || c == '\U{2029}'
  }

  /** Splitting at the first occurrence of the separator: the text before it, then the pieces of the rest. */
  lemma SplitAt(a: string, sep: string, b: string)
    requires |sep| > 0 && FirstOccurrence(a + sep + b, sep, |a|)
    ensures Split(a + sep + b, sep) == [a] + Split(b, sep)
  {
    var s := a + sep + b;
    FirstOccurrenceUnique(s, sep, |a|, IndexOf(s, sep));
    assert s[..|a|] == a && s[|a| + |sep|..] == b;
  }

  /** A separator whose first character does not occur before it is found first where it is placed. */
  lemma FirstOccurrenceAfterClean(a: string, sep: string, b: string)
    requires |sep| > 0 && sep[0] !in a
    ensures FirstOccurrence(a + sep + b, sep, |a|)
  {
    var s := a + sep + b;
    assert s[|a|..|a| + |sep|] == sep;
    forall j | 0 <= j < |a|
      ensures !OccursAt(s, sep, j)
    {
      if j + |sep| <= |s| {
        assert s[j..j + |sep|][0] == a[j];
      }
    }
  }

  predicate IsDigit(c: char) {
    '0' <= c <= '9'
  }

  predicate AllDigits(s: string) {
    forall k | 0 <= k < |s| :: IsDigit(s[k])
  }

  function DigitValue(c: char): nat
    requires IsDigit(c)
  {
    c as int - '0' as int
  }

  function DigitChar(d: nat): (c: char)
    requires d < 10
    ensures IsDigit(c) && DigitValue(c) == d
  {
    (d + '0' as int) as char
  }

  /** `'' + n` for a natural number: its decimal digits, most significant first. */
  function NatToString(n: nat): (r: string)
    ensures |r| >= 1 && AllDigits(r)
    ensures |r| > 1 ==> r[0] != '0'
  {
    if n < 10 then [DigitChar(n)] else NatToString(n / 10) + [DigitChar(n % 10)]
  }

  /** The value of a string of decimal digits (0 for the empty string). */
  function DigitsValue(s: string): nat
    requires AllDigits(s)
  {
    if s == [] then 0 else 10 * DigitsValue(s[..|s| - 1]) + DigitValue(s[|s| - 1])
  }

  /**
   * `Number(s)` where it yields a natural number: a string of decimal digits
   * (the empty string gives 0, as in JavaScript); `None` stands for NaN.
   */
  function ToNumber(s: string): (r: Option<nat>)
    ensures r.Some? <==> AllDigits(s)
  {
    if AllDigits(s) then Some(DigitsValue(s)) else None
  }

  /** Reading back the decimal rendering of a number gives the number. */
  lemma {:induction false} NatToStringRoundTrip(n: nat)
    ensures ToNumber(NatToString(n)) == Some(n)
  {
    if n >= 10 {
      NatToStringRoundTrip(n / 10);
      var s := NatToString(n);
      assert s[..|s| - 1] == NatToString(n / 10);
      assert DigitsValue(s) == 10 * (n / 10) + n % 10;
    }
  }
}
