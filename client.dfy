/**
 * The selection rules of the site's client script (src/js/main.js): the
 * responsive-image breakpoint matcher, the header background size and the
 * navigation menu's class names. The page is given by objects holding the
 * attributes and properties the script reads and writes.
 */
module ClientScript {
  import opened Wrappers
  import opened Strings

  // ---------------------------------------------------------------------
  // Responsive images
  // ---------------------------------------------------------------------

  /** An `img` element: its attributes, which the script only reads, and its `src`. */
  class Image {
    const attributes: map<string, string>
    var src: string

    constructor (attributes: map<string, string>, src: string)
      ensures this.attributes == attributes && this.src == src
    {
      this.attributes := attributes;
      this.src := src;
    }
  }

  /**
   * The script's `pixelRatio`: set when the device pixel ratio, given here
   * in hundredths (0 when the browser reports none), is at least 1.2.
   */
  predicate HighDensity(ratioPercent: nat) {
    ratioPercent >= 120
  }

  /** The attribute the breakpoint list is read from: the 2x list only on a dense screen that has one. */
  function ListAttribute(attributes: map<string, string>, highDensity: bool): (name: string)
    ensures name == "data-src2x" <==> highDensity && "data-src2x" in attributes
    ensures name != "data-src2x" ==> name == "data-src"
  {
    if highDensity && "data-src2x" in attributes then "data-src2x" else "data-src"
  }

  /** The attribute the URL base is read from: the 2x base only on a dense screen that has one. */
  function BaseAttribute(attributes: map<string, string>, highDensity: bool): (name: string)
    ensures name == "data-src-base2x" <==> highDensity && "data-src-base2x" in attributes
    ensures name != "data-src-base2x" ==> name == "data-src-base"
  {
    if highDensity && "data-src-base2x" in attributes then "data-src-base2x" else "data-src-base"
  }

  /** `s.replace(":", "||")`: the first colon becomes `||`. */
  function ReplaceColon(s: string): (r: string)
    ensures |r| >= |s|
  {
    if s == [] then []
    else if s[0] == ':' then "||" + s[1..]
    else [s[0]] + ReplaceColon(s[1..])
  }

  /** `s.split(c)` for a separator of one character. */
  function Pieces(s: string, c: char): (parts: seq<string>)
    ensures |parts| >= 1
  {
    if s == [] then [""]
    else if s[0] == c then [""] + Pieces(s[1..], c)
    else
      var rest := Pieces(s[1..], c);
      [[s[0]] + rest[0]] + rest[1..]
  }

  /** `s.split("||")`. */
  function BarPieces(s: string): (parts: seq<string>)
    ensures |parts| >= 1
  {
    if |s| < 2 then [s]
    else if s[0] == '|' && s[1] == '|' then [""] + BarPieces(s[2..])
    else
      var rest := BarPieces(s[1..]);
      [[s[0]] + rest[0]] + rest[1..]
  }

  /** `entry.replace(":", "||").split("||")`: the condition of an entry and, when there is one, its URL. */
  function Halves(entry: string): (string, Option<string>) {
    var h := BarPieces(ReplaceColon(entry));
    (h[0], if |h| > 1 then Some(h[1]) else None)
  }

  /**
   * `s.split(c)[1]` as a number: `None` stands for NaN, which is also what
   * comparing with an absent piece gives.
   */
  function BoundAfter(s: string, c: char): Option<nat> {
    var v := Pieces(s, c);
    if |v| > 1 then ToNumber(v[1]) else None
  }

  /** A colon at `j` that the regular expression `:(.+)` matches: some character of the same line follows it. */
  predicate ColonMatchAt(s: string, j: int) {
    0 <= j && j + 1 < |s| && s[j] == ':' && !IsLineTerminator(s[j + 1])
  }

  /** `s.split(/:(.+)/)[0]`: the text before the first colon that has a character after it on its line. */
  function RegexHead(s: string): (h: string)
    ensures |h| <= |s|
  {
    if |s| < 2 then s
    else if s[0] == ':' && !IsLineTerminator(s[1]) then []
    else [s[0]] + RegexHead(s[1..])
  }

  /** Text without a colon is left as it is. */
  lemma {:induction false} ReplaceColonNone(s: string)
    requires ':' !in s
    ensures ReplaceColon(s) == s
  {
    if s != [] {
      ReplaceColonNone(s[1..]);
      assert s == [s[0]] + s[1..];
    }
  }

  /** The first colon of a text is where the replacement puts its bars. */
  lemma {:induction false} ReplaceColonClean(a: string, t: string)
    requires ':' !in a
    ensures ReplaceColon(a + ":" + t) == a + "||" + t
  {
    if a != [] {
      assert (a + ":" + t)[1..] == a[1..] + ":" + t;
      ReplaceColonClean(a[1..], t);
    }
  }

  /** The replacement scan is `s.replace(":", "||")`. */
  lemma ReplaceColonAsWritten(s: string)
    ensures ReplaceColon(s) == ReplaceFirst(s, ":", "||")
  {
    ContainsChar(s, ':');
    var i := IndexOf(s, ":");
    if i == -1 {
      ReplaceFirstAbsent(s, ":", "||");
      ReplaceColonNone(s);
    } else {
      ReplaceFirstAt(s, ":", "||", i);
      var a := s[..i];
      forall j | 0 <= j < i
        ensures a[j] != ':'
      {
        assert !OccursAt(s, ":", j);
        assert s[j..j + 1] == [a[j]];
      }
      assert s[i..i + 1] == ":";
      assert s == a + ":" + s[i + 1..];
      ReplaceColonClean(a, s[i + 1..]);
    }
  }

  /** The one-character split scan is `s.split(c)`. */
  lemma {:induction false} PiecesAsWritten(s: string, c: char)
    ensures Pieces(s, c) == Split(s, [c])
  {
    if s == [] {
      assert IndexOf(s, [c]) == -1;
    } else if s[0] == c {
      assert s[0..1] == [c];
      SplitHere(s, [c]);
      PiecesAsWritten(s[1..], c);
    } else {
      assert s == [s[0]] + s[1..];
      assert !OccursAt(s, [c], 0) by {
        assert s[0..1][0] == s[0];
      }
      SplitCons(s[0], s[1..], [c]);
      PiecesAsWritten(s[1..], c);
    }
  }

  /** The bar split scan is `s.split("||")`. */
  lemma {:induction false} BarPiecesAsWritten(s: string)
    ensures BarPieces(s) == Split(s, "||")
  {
    if |s| < 2 {
      assert IndexOf(s, "||") == -1;
    } else if s[0] == '|' && s[1] == '|' {
      assert s[0..2] == "||";
      SplitHere(s, "||");
      BarPiecesAsWritten(s[2..]);
    } else {
      assert s == [s[0]] + s[1..];
      assert !OccursAt(s, "||", 0) by {
        assert s[0..2][0] == s[0] && s[0..2][1] == s[1];
      }
      SplitCons(s[0], s[1..], "||");
      BarPiecesAsWritten(s[1..]);
    }
  }

  /** `Halves` is the script's `entry.replace(":", "||").split("||")` read at indices 0 and 1. */
  lemma HalvesAsWritten(entry: string)
    ensures var h := Split(ReplaceFirst(entry, ":", "||"), "||");
      Halves(entry) == (h[0], if |h| > 1 then Some(h[1]) else None)
  {
    ReplaceColonAsWritten(entry);
    BarPiecesAsWritten(ReplaceColon(entry));
  }

  /** `BoundAfter` reads the script's `s.split(c)[1]`. */
  lemma BoundAfterAsWritten(s: string, c: char)
    ensures var v := Split(s, [c]);
      BoundAfter(s, c) == if |v| > 1 then ToNumber(v[1]) else None
  {
    PiecesAsWritten(s, c);
  }

  /** `p.indexOf(c) !== -1` for a one-character pattern: `c` occurs in `p`. */
  lemma ContainsChar(p: string, c: char)
    ensures Contains(p, [c]) <==> c in p
  {
    if c in p {
      var k :| 0 <= k < |p| && p[k] == c;
      assert p[k..k + 1] == [c];
      assert OccursAt(p, [c], k);
    } else {
      AbsentChar(p, c);
    }
  }

  /** The double-slash scan is `d.indexOf("//") !== -1`. */
  lemma {:induction false} DoubleSlashAsWritten(d: string)
    ensures HasDoubleSlash(d) <==> Contains(d, "//")
  {
    if |d| < 2 {
      assert IndexOf(d, "//") == -1;
    } else if d[0] == '/' && d[1] == '/' {
      assert d[0..2] == "//";
      assert OccursAt(d, "//", 0);
    } else {
      assert d == [d[0]] + d[1..];
      assert !OccursAt(d, "//", 0) by {
        assert d[0..2][0] == d[0] && d[0..2][1] == d[1];
      }
      IndexOfCons(d[0], d[1..], "//");
      DoubleSlashAsWritten(d[1..]);
    }
  }

  /**
   * The regular-expression head is the text before the first colon that
   * `:(.+)` matches: no colon before it matches, and unless it is the whole
   * text, the colon right after it does.
   */
  lemma {:induction false} RegexHeadFirstColon(s: string)
    ensures var h := RegexHead(s);
      && h == s[..|h|]
      && (forall j | 0 <= j < |h| :: !ColonMatchAt(s, j))
      && (|h| < |s| ==> ColonMatchAt(s, |h|))
  {
    if |s| >= 2 && !(s[0] == ':' && !IsLineTerminator(s[1])) {
      var t := s[1..];
      RegexHeadFirstColon(t);
      var h := RegexHead(s);
      assert h == [s[0]] + RegexHead(t);
      forall j | 1 <= j < |h|
        ensures !ColonMatchAt(s, j)
      {
        assert !ColonMatchAt(t, j - 1);
        assert s[j] == t[j - 1];
      }
      if |h| < |s| {
        assert ColonMatchAt(t, |h| - 1);
        assert s[|h|] == t[|h| - 1];
      }
    }
  }

  /** `width <= bound`, false against NaN. */
  predicate AtMost(width: int, bound: Option<nat>) {
    bound.Some? && width <= bound.value
  }

  /** `width > bound`, false against NaN. */
  predicate Over(width: int, bound: Option<nat>) {
    bound.Some? && width > bound.value
  }

  /** `width >= bound`, false against NaN. */
  predicate AtLeast(width: int, bound: Option<nat>) {
    bound.Some? && width >= bound.value
  }

  /** `width < bound`, false against NaN. */
  predicate Under(width: int, bound: Option<nat>) {
    bound.Some? && width < bound.value
  }

  /** The entry before `c`; before the first there is none, which the script reads as falsy like `""`. */
  function Before(list: seq<string>, c: nat): (prev: string)
    requires c < |list|
    ensures c > 0 ==> prev == list[c - 1]
    ensures c == 0 ==> prev == ""
  {
    if c > 0 then list[c - 1] else ""
  }

  /** The entry after `c`; after the last there is none, which the script reads as falsy like `""`. */
  function After(list: seq<string>, c: nat): (next: string)
    requires c < |list|
    ensures c + 1 < |list| ==> next == list[c + 1]
    ensures c + 1 == |list| ==> next == ""
  {
    if c + 1 < |list| then list[c + 1] else ""
  }

  /**
   * The script's `m` for an entry between `prev` and `next`: a `<N` entry
   * matches up to N, and above the `<` bound of a non-empty entry before it;
   * any other entry matches from its `>` bound, and below the `>` bound of a
   * non-empty entry after it.
   */
  predicate EntryMatches(entry: string, prev: string, next: string, width: int) {
    var p := Halves(entry).0;
    if '<' in p then
      var upper := BoundAfter(p, '<');
      if prev != "" then AtMost(width, upper) && Over(width, BoundAfter(RegexHead(prev), '<'))
      else AtMost(width, upper)
    else
      var lower := BoundAfter(p, '>');
      if next != "" then AtLeast(width, lower) && Under(width, BoundAfter(RegexHead(next), '>'))
      else AtLeast(width, lower)
  }

  /** Entry `c` of the list matches the screen width. */
  predicate Matches(list: seq<string>, c: nat, width: int)
    requires c < |list|
  {
    EntryMatches(list[c], Before(list, c), After(list, c), width)
  }

  /** `[f(from), f(from + 1), ..., f(to - 1)]`. */
  function MapRange<B>(f: nat -> B, from: nat, to: nat): (ys: seq<B>)
    requires from <= to
    ensures |ys| == to - from
    decreases (to as int) - (from as int)
  {
    if from == to then [] else [f(from)] + MapRange(f, from + 1, to)
  }

  /** Each element of `MapRange(f, from, to)` is `f` of its index. */
  lemma {:induction false} MapRangeAt<B>(f: nat -> B, from: nat, to: nat, k: nat)
    requires from <= k < to
    ensures MapRange(f, from, to)[k - from] == f(k)
    decreases k - from
  {
    if k > from {
      MapRangeAt(f, from + 1, to, k);
    }
  }

  /** The script's `m` for each entry of the list. */
  function Verdicts(list: seq<string>, width: int): (ms: seq<bool>)
    ensures |ms| == |list|
  {
    MapRange((k: nat) => k < |list| && Matches(list, k, width), 0, |list|)
  }

  /** Each verdict is that entry's own. */
  lemma VerdictAt(list: seq<string>, width: int, k: nat)
    requires k < |list|
    ensures Verdicts(list, width)[k] == Matches(list, k, width)
  {
    MapRangeAt((k: nat) => k < |list| && Matches(list, k, width), 0, |list|, k);
  }

  /** The first `true` at or after `from`. */
  function FirstTrue(ms: seq<bool>, from: nat): (r: Option<nat>)
    requires from <= |ms|
    ensures r.Some? ==> from <= r.value < |ms|
    decreases |ms| - from
  {
    if from == |ms| then None
    else if ms[from] then Some(from)
    else FirstTrue(ms, from + 1)
  }

  /** The first `true` is `true`, none before it is, and without one there is none at all. */
  lemma {:induction false} FirstTrueIsFirst(ms: seq<bool>, from: nat)
    requires from <= |ms|
    ensures var r := FirstTrue(ms, from);
      && (r.Some? ==> ms[r.value])
      && (r.Some? ==> forall c | from <= c < r.value :: !ms[c])
      && (r.None? ==> forall c | from <= c < |ms| :: !ms[c])
    decreases |ms| - from
  {
    if from < |ms| && !ms[from] {
      FirstTrueIsFirst(ms, from + 1);
    }
  }

  /** Two sequences that agree up to the first `true` of one have the same first `true`. */
  lemma {:induction false} FirstTrueAgree(ms: seq<bool>, ns: seq<bool>, from: nat)
    requires from <= |ms| && from <= |ns|
    requires FirstTrue(ms, from).Some?
    requires forall c | from <= c <= FirstTrue(ms, from).value :: c < |ns| && ns[c] == ms[c]
    ensures FirstTrue(ns, from) == FirstTrue(ms, from)
    decreases |ms| - from
  {
    if !ms[from] {
      FirstTrueAgree(ms, ns, from + 1);
    }
  }

  /** The index of the first entry that matches. */
  function FirstMatch(list: seq<string>, width: int): (r: Option<nat>)
    ensures r.Some? ==> r.value < |list|
  {
    FirstTrue(Verdicts(list, width), 0)
  }

  /** The first match matches, no entry before it does, and without one no entry matches at all. */
  lemma FirstMatchIsFirst(list: seq<string>, width: int)
    ensures var r := FirstMatch(list, width);
      && (r.Some? ==> Matches(list, r.value, width))
      && (r.Some? ==> forall c | 0 <= c < r.value :: !Matches(list, c, width))
      && (r.None? ==> forall c | 0 <= c < |list| :: !Matches(list, c, width))
  {
    var ms := Verdicts(list, width);
    FirstTrueIsFirst(ms, 0);
    forall c | 0 <= c < |list|
      ensures ms[c] == Matches(list, c, width)
    {
      VerdictAt(list, width, c);
    }
  }

  /** What the breakpoint list does to an image's `src`. */
  datatype Choice =
    | Unchanged          // no entry matches
    | Chosen(url: string) // the matching entry's URL
    | Thrown             // the matching entry has no URL part: reading it throws

  /** `d.indexOf("//") !== -1`: the text holds two slashes in a row. */
  predicate HasDoubleSlash(d: string) {
    |d| >= 2 && ((d[0] == '/' && d[1] == '/') || HasDoubleSlash(d[1..]))
  }

  /** The URL of a matched entry: used as it is when it holds `//`, after the base otherwise. */
  function Resolve(base: string, d: string): string {
    if HasDoubleSlash(d) then d else base + d
  }

  /** The choice the first matching entry makes; later entries are not looked at. */
  function Selection(list: seq<string>, width: int, base: string): Choice {
    match FirstMatch(list, width)
    case None => Unchanged
    case Some(c) =>
      match Halves(list[c]).1
      case None => Thrown
      case Some(d) => Chosen(Resolve(base, d))
  }

  /** The loop over the entries of one image, stopping at the first match. */
  method SelectSource(list: seq<string>, width: int, base: string) returns (choice: Choice)
    ensures choice == Selection(list, width, base)
  {
    ghost var ms := Verdicts(list, width);
    var c := 0;
    while c < |list|
      invariant c <= |list|
      invariant FirstMatch(list, width) == FirstTrue(ms, c)
    {
      VerdictAt(list, width, c);
      if Matches(list, c, width) {
        var d := Halves(list[c]).1;
        if d.None? {
          return Thrown;
        }
        return Chosen(Resolve(base, d.value));
      }
      c := c + 1;
    }
    return Unchanged;
  }

  /** Whether an entry matches depends on it and its two neighbours only. */
  lemma MatchesPrefix(list: seq<string>, extra: seq<string>, width: int, k: nat)
    requires k + 1 < |list|
    ensures Matches(list + extra, k, width) == Matches(list, k, width)
  {
    var all := list + extra;
    assert all[k] == list[k];
    assert Before(all, k) == Before(list, k);
    assert After(all, k) == After(list, k);
  }

  /** Entries after the one after the first match do not change the choice. */
  lemma SelectionIgnoresLater(list: seq<string>, extra: seq<string>, width: int, base: string)
    requires FirstMatch(list, width).Some? && FirstMatch(list, width).value + 1 < |list|
    ensures Selection(list + extra, width, base) == Selection(list, width, base)
  {
    var all := list + extra;
    var c := FirstMatch(list, width).value;
    forall k | 0 <= k <= c
      ensures Verdicts(all, width)[k] == Verdicts(list, width)[k]
    {
      VerdictAt(all, width, k);
      VerdictAt(list, width, k);
      MatchesPrefix(list, extra, width, k);
    }
    FirstTrueAgree(Verdicts(list, width), Verdicts(all, width), 0);
    assert all[c] == list[c];
  }

  /**
   * What an image's breakpoint list selects: nothing when the image has no
   * list, otherwise the choice of its first matching entry, with the base
   * read from the base attribute (the empty string when the image has
   * none).
   */
  function ImageChoice(attributes: map<string, string>, width: int, highDensity: bool): (r: Choice)
    ensures ListAttribute(attributes, highDensity) !in attributes ==> r == Unchanged
  {
    var listName := ListAttribute(attributes, highDensity);
    if listName !in attributes then Unchanged
    else
      var baseName := BaseAttribute(attributes, highDensity);
      var base := if baseName in attributes then attributes[baseName] else "";
      Selection(Pieces(attributes[listName], ','), width, base)
  }

  /** The `src` an image ends with when it gets `choice`. */
  function Applied(choice: Choice, src: string): (r: string)
    ensures choice.Chosen? ==> r == choice.url
    ensures !choice.Chosen? ==> r == src
  {
    if choice.Chosen? then choice.url else src
  }

  /** The attributes of each image, in document order. */
  function AttributesOf(images: seq<Image>): (attributes: seq<map<string, string>>)
    ensures |attributes| == |images| && forall k | 0 <= k < |images| :: attributes[k] == images[k].attributes
  {
    seq(|images|, k requires 0 <= k < |images| => images[k].attributes)
  }

  /** The choice of the `k`th image, as a function of `k`. */
  ghost function ChoiceOf(attributes: seq<map<string, string>>, width: int, highDensity: bool): nat -> Choice {
    (k: nat) => if k < |attributes| then ImageChoice(attributes[k], width, highDensity) else Unchanged
  }

  /** The choices of a sequence of images, in document order. */
  ghost function Choices(attributes: seq<map<string, string>>, width: int, highDensity: bool): (choices: seq<Choice>)
    ensures |choices| == |attributes|
  {
    MapRange(ChoiceOf(attributes, width, highDensity), 0, |attributes|)
  }

  /** Each of the choices is that image's own. */
  lemma ChoicesAt(attributes: seq<map<string, string>>, width: int, highDensity: bool, k: nat)
    requires k < |attributes|
    ensures Choices(attributes, width, highDensity)[k] == ImageChoice(attributes[k], width, highDensity)
  {
    MapRangeAt(ChoiceOf(attributes, width, highDensity), 0, |attributes|, k);
  }

  /** Some choice up to and including the `k`th throws. */
  predicate ThrownBy(choices: seq<Choice>, k: int)
    requires k < |choices|
  {
    exists j | 0 <= j <= k :: choices[j].Thrown?
  }

  /** One image of the pass. */
  method RespondImage(img: Image, width: int, highDensity: bool) returns (thrown: bool)
    modifies img
    ensures thrown == ImageChoice(img.attributes, width, highDensity).Thrown?
    ensures img.src == Applied(ImageChoice(img.attributes, width, highDensity), old(img.src))
  {
    var listName := ListAttribute(img.attributes, highDensity);
    var baseName := BaseAttribute(img.attributes, highDensity);
    if listName !in img.attributes {
      return false;
    }
    var base := if baseName in img.attributes then img.attributes[baseName] else "";
    var choice := SelectSource(Pieces(img.attributes[listName], ','), width, base);
    match choice
    case Unchanged =>
      return false;
    case Thrown =>
      return true;
    case Chosen(url) =>
      if img.src != url {
        img.src := url;
      }
      return false;
  }

  /** The `i`th image takes its own choice from the whole page's. */
  method RespondAt(images: seq<Image>, i: nat, width: int, highDensity: bool, ghost choices: seq<Choice>)
    returns (thrown: bool)
    requires i < |images| && choices == Choices(AttributesOf(images), width, highDensity)
    modifies images[i]
    ensures thrown == choices[i].Thrown?
    ensures images[i].src == Applied(choices[i], old(images[i].src))
  {
    thrown := RespondImage(images[i], width, highDensity);
    ChoicesAt(AttributesOf(images), width, highDensity, i);
  }

  /**
   * `makeImagesResponsive`: every image, in document order, gets the URL its
   * breakpoint list selects for the screen width, until an image throws;
   * that image and the ones after it keep their `src`.
   */
  method MakeImagesResponsive(images: seq<Image>, width: int, ratioPercent: nat) returns (thrown: bool)
    requires forall i, j | 0 <= i < j < |images| :: images[i] != images[j]
    modifies images
    ensures var choices := Choices(AttributesOf(images), width, HighDensity(ratioPercent));
      thrown <==> exists k | 0 <= k < |images| :: choices[k].Thrown?
    ensures var choices := Choices(AttributesOf(images), width, HighDensity(ratioPercent));
      forall k | 0 <= k < |images| ::
        images[k].src == if ThrownBy(choices, k) then old(images[k].src) else Applied(choices[k], old(images[k].src))
  {
    var highDensity := HighDensity(ratioPercent);
    ghost var choices := Choices(AttributesOf(images), width, highDensity);
    thrown := false;
    var i := 0;
    while i < |images|
      invariant i <= |images| && !thrown
      invariant forall k | 0 <= k < i :: !choices[k].Thrown?
      invariant forall k | 0 <= k < i :: images[k].src == Applied(choices[k], old(images[k].src))
      invariant forall k | i <= k < |images| :: images[k].src == old(images[k].src)
    {
      thrown := RespondAt(images, i, width, highDensity, choices);
      if thrown {
        ThrownFrom(choices, i);
        return;
      }
      i := i + 1;
    }
    ThrownFrom(choices, |images|);
  }

  /**
   * When choice `i` is the first that throws (or `i` is past the end and
   * none does), the choices before `i` have not thrown and those from `i`
   * on have.
   */
  lemma ThrownFrom(choices: seq<Choice>, i: nat)
    requires i <= |choices| && forall k | 0 <= k < i :: !choices[k].Thrown?
    requires i < |choices| ==> choices[i].Thrown?
    ensures forall k | 0 <= k < i :: !ThrownBy(choices, k)
    ensures forall k | i <= k < |choices| :: ThrownBy(choices, k)
  {
    forall k | i <= k < |choices|
      ensures ThrownBy(choices, k)
    {
      assert choices[i].Thrown?;
    }
  }

  // ---------------------------------------------------------------------
  // Breakpoint lists written out
  // ---------------------------------------------------------------------

  /** A breakpoint as a page author writes it: `<N:url` or `>N:url`. */
  datatype Breakpoint = UpTo(bound: nat, url: string) | From(bound: nat, url: string)

  /** The condition part of an entry. */
  function Condition(b: Breakpoint): string {
    (if b.UpTo? then "<" else ">") + NatToString(b.bound)
  }

  /** The text of an entry. */
  function Entry(b: Breakpoint): string {
    Condition(b) + ":" + b.url
  }

  /** The text of a list of entries. */
  function Entries(bps: seq<Breakpoint>): (list: seq<string>)
    ensures |list| == |bps| && forall k | 0 <= k < |bps| :: list[k] == Entry(bps[k])
  {
    seq(|bps|, k requires 0 <= k < |bps| => Entry(bps[k]))
  }

  /** No two bars in a row. */
  predicate NoBars(s: string) {
    forall j | 0 <= j < |s| - 1 :: !(s[j] == '|' && s[j + 1] == '|')
  }

  /** A URL that reads back as itself: not empty, no comma, no `||`, not starting a new line. */
  predicate PlainUrl(url: string) {
    url != [] && ',' !in url && NoBars(url) && !IsLineTerminator(url[0])
  }

  /**
   * The meaning of the list: an `UpTo` entry covers widths up to its bound
   * and above the bound of an `UpTo` entry before it (an entry of the other
   * kind there never lets it match); a `From` entry covers widths from its
   * bound and below the bound of a `From` entry after it.
   */
  predicate Covers(bps: seq<Breakpoint>, c: nat, width: int)
    requires c < |bps|
  {
    match bps[c]
    case UpTo(n, _) => width <= n && (c == 0 || (bps[c - 1].UpTo? && width > bps[c - 1].bound))
    case From(n, _) => width >= n && (c + 1 == |bps| || (bps[c + 1].From? && width < bps[c + 1].bound))
  }

  /** The condition part holds no digit-breaking character: no colon, no comma, no bar, no `<`/`>` after the first. */
  lemma ConditionChars(b: Breakpoint)
    ensures |Condition(b)| >= 2
    ensures ':' !in Condition(b) && ',' !in Condition(b) && '|' !in Condition(b)
    ensures Condition(b) == [if b.UpTo? then '<' else '>'] + NatToString(b.bound)
    ensures '<' !in NatToString(b.bound) && '>' !in NatToString(b.bound)
  {
    var digits := NatToString(b.bound);
    forall k | 0 <= k < |digits|
      ensures digits[k] != ':' && digits[k] != ',' && digits[k] != '|' && digits[k] != '<' && digits[k] != '>'
    {
      assert IsDigit(digits[k]);
    }
  }

  /** Text without bars ends at the first `||`. */
  lemma {:induction false} BarPiecesClean(a: string, t: string)
    requires '|' !in a
    ensures BarPieces(a + "||" + t) == [a] + BarPieces(t)
  {
    var s := a + "||" + t;
    if a == [] {
      assert s[2..] == t;
    } else {
      assert s[1..] == a[1..] + "||" + t;
      BarPiecesClean(a[1..], t);
      assert a == [a[0]] + a[1..];
    }
  }

  /** Text without two bars in a row is one piece. */
  lemma {:induction false} BarPiecesNone(s: string)
    requires NoBars(s)
    ensures BarPieces(s) == [s]
  {
    if |s| >= 2 {
      assert !(s[0] == '|' && s[1] == '|');
      assert NoBars(s[1..]) by {
        forall j | 0 <= j < |s[1..]| - 1
          ensures !(s[1..][j] == '|' && s[1..][j + 1] == '|')
        {
          assert s[1..][j] == s[j + 1] && s[1..][j + 1] == s[j + 2];
        }
      }
      BarPiecesNone(s[1..]);
      assert s == [s[0]] + s[1..];
    }
  }

  /** Text without the separator is one piece. */
  lemma {:induction false} PiecesNone(s: string, c: char)
    requires c !in s
    ensures Pieces(s, c) == [s]
  {
    if s != [] {
      PiecesNone(s[1..], c);
      assert s == [s[0]] + s[1..];
    }
  }

  /** The head stops at a colon that has a character after it, when no colon comes before. */
  lemma {:induction false} RegexHeadClean(a: string, rest: string)
    requires ':' !in a && ColonMatchAt(rest, 0)
    ensures RegexHead(a + rest) == a
  {
    if a != [] {
      assert (a + rest)[1..] == a[1..] + rest;
      RegexHeadClean(a[1..], rest);
    }
  }

  /** An entry splits into its condition and its URL. */
  lemma EntryHalves(b: Breakpoint)
    requires PlainUrl(b.url)
    ensures Halves(Entry(b)) == (Condition(b), Some(b.url))
  {
    ConditionChars(b);
    ReplaceColonClean(Condition(b), b.url);
    BarPiecesClean(Condition(b), b.url);
    BarPiecesNone(b.url);
  }

  /** The head the neighbour test reads from an entry is its condition. */
  lemma EntryRegexHead(b: Breakpoint)
    requires PlainUrl(b.url)
    ensures RegexHead(Entry(b)) == Condition(b)
  {
    ConditionChars(b);
    assert Entry(b) == Condition(b) + (":" + b.url);
    RegexHeadClean(Condition(b), ":" + b.url);
  }

  /** The bound of a condition, read at its own sign and at the other one. */
  lemma ConditionBounds(b: Breakpoint)
    ensures BoundAfter(Condition(b), '<') == if b.UpTo? then Some(b.bound) else None
    ensures BoundAfter(Condition(b), '>') == if b.From? then Some(b.bound) else None
  {
    var digits := NatToString(b.bound);
    ConditionChars(b);
    NatToStringRoundTrip(b.bound);
    var own := if b.UpTo? then '<' else '>';
    var other := if b.UpTo? then '>' else '<';
    PiecesNone(digits, own);
    assert Pieces(Condition(b), own) == ["", digits];
    PiecesNone(Condition(b), other);
  }

  /**
   * Reading a written-out list back: the script's match test for each entry
   * is exactly what the list means, and the URL it picks is the entry's own.
   */
  lemma ReadBack(bps: seq<Breakpoint>, c: nat, width: int)
    requires c < |bps| && forall k | 0 <= k < |bps| :: PlainUrl(bps[k].url)
    ensures Matches(Entries(bps), c, width) == Covers(bps, c, width)
    ensures Halves(Entries(bps)[c]).1 == Some(bps[c].url)
  {
    var list := Entries(bps);
    EntryHalves(bps[c]);
    ConditionChars(bps[c]);
    ConditionBounds(bps[c]);
    if c > 0 {
      EntryRegexHead(bps[c - 1]);
      ConditionBounds(bps[c - 1]);
      assert list[c - 1] != "";
    }
    if c + 1 < |bps| {
      EntryRegexHead(bps[c + 1]);
      ConditionBounds(bps[c + 1]);
      assert list[c + 1] != "";
    }
  }

  /** The attribute value of a written-out list splits back into its entries. */
  lemma SplitEntries(bps: seq<Breakpoint>)
    requires |bps| >= 1 && forall k | 0 <= k < |bps| :: PlainUrl(bps[k].url)
    ensures Pieces(Join(Entries(bps), ","), ',') == Entries(bps)
  {
    var list := Entries(bps);
    forall k | 0 <= k < |list|
      ensures ',' !in list[k]
    {
      ConditionChars(bps[k]);
      assert list[k] == Condition(bps[k]) + ":" + bps[k].url;
    }
    SplitJoin(list, ',');
    PiecesAsWritten(Join(list, ","), ',');
  }

  // ---------------------------------------------------------------------
  // Header background
  // ---------------------------------------------------------------------

  /** An image size of the header background. */
  datatype Size = Size(w: nat, h: nat)

  /** The sizes tried, smallest first. */
  const Sizes := [Size(360, 150), Size(720, 300), Size(1440, 600)]

  /** The size used when none of `Sizes` is large enough. */
  const LargestSize := "1920x800"

  /** A size covers the header in both dimensions. */
  predicate Fits(s: Size, width: int, height: int) {
    width <= s.w && height <= s.h
  }

  /** `'' + w + 'x' + h`. */
  function SizeName(s: Size): string {
    NatToString(s.w) + "x" + NatToString(s.h)
  }

  /** The first of `Sizes` at or after `from` that fits the header. */
  function FirstFit(width: int, height: int, from: nat): (r: Option<nat>)
    requires from <= |Sizes|
    ensures r.Some? ==> from <= r.value < |Sizes| && Fits(Sizes[r.value], width, height)
    ensures r.Some? ==> forall k | from <= k < r.value :: !Fits(Sizes[k], width, height)
    ensures r.None? ==> forall k | from <= k < |Sizes| :: !Fits(Sizes[k], width, height)
    decreases |Sizes| - from
  {
    if from == |Sizes| then None
    else if Fits(Sizes[from], width, height) then Some(from)
    else FirstFit(width, height, from + 1)
  }

  /** The name of the size the header gets. */
  function SizeFor(width: int, height: int): string {
    match FirstFit(width, height, 0)
    case None => LargestSize
    case Some(k) => SizeName(Sizes[k])
  }

  /**
   * The size picked is the smallest that fits: no larger in either
   * dimension than any size that fits; when none fits, the default is used.
   */
  lemma SmallestFit(width: int, height: int)
    ensures FirstFit(width, height, 0).None? ==>
      && SizeFor(width, height) == LargestSize
      && forall k | 0 <= k < |Sizes| :: !Fits(Sizes[k], width, height)
    ensures FirstFit(width, height, 0).Some? ==>
      var s := Sizes[FirstFit(width, height, 0).value];
      && Fits(s, width, height)
      && forall k | 0 <= k < |Sizes| && Fits(Sizes[k], width, height) :: s.w <= Sizes[k].w && s.h <= Sizes[k].h
  {
    var r := FirstFit(width, height, 0);
    if r.Some? {
      forall k | 0 <= k < |Sizes| && Fits(Sizes[k], width, height)
        ensures Sizes[r.value].w <= Sizes[k].w && Sizes[r.value].h <= Sizes[k].h
      {
        assert r.value <= k;
      }
    }
  }

  /**
   * The text `'url(' + imgName + ...` makes of the header's `data-background`:
   * the attribute's value, or `undefined` when the header has none.
   */
  function BackgroundName(background: Option<string>): string {
    if background.Some? then background.value else "undefined"
  }

  /** The background image of a header with that `data-background` and size. */
  function BackgroundImage(background: Option<string>, width: int, height: int): string {
    "url(" + BackgroundName(background) + "-" + SizeFor(width, height) + ".jpg)"
  }

  /** The page header (`#masthead`): its `data-background` if present, its measured size and its background. */
  class Header {
    const background: Option<string>
    const width: int
    const height: int
    var backgroundImage: string

    constructor (background: Option<string>, width: int, height: int)
      ensures this.background == background && this.width == width && this.height == height
      ensures backgroundImage == ""
    {
      this.background := background;
      this.width := width;
      this.height := height;
      backgroundImage := "";
    }

    /** The size loop of `headerBackground`: the first size that fits, or the default. */
    method PickSize() returns (size: string)
      ensures size == SizeFor(width, height)
    {
      size := LargestSize;
      var i := 0;
      while i < |Sizes|
        invariant i <= |Sizes|
        invariant FirstFit(width, height, 0) == FirstFit(width, height, i)
      {
        var s := Sizes[i];
        if width <= s.w && height <= s.h {
          size := SizeName(s);
          return;
        }
        i := i + 1;
      }
    }

    /** The last two statements of `headerBackground`: the background is the image of the picked size. */
    method PaintBackground()
      modifies this
      ensures backgroundImage == BackgroundImage(background, width, height)
    {
      var size := PickSize();
      backgroundImage := "url(" + BackgroundName(background) + "-" + size + ".jpg)";
    }
  }

  /**
   * `headerBackground`: without a `#masthead` element, reading its dataset
   * throws; otherwise the header gets the background of its size.
   */
  method HeaderBackground(header: Header?) returns (thrown: bool)
    modifies header
    ensures thrown <==> header == null
    ensures header != null ==> header.backgroundImage == BackgroundImage(header.background, header.width, header.height)
  {
    if header == null {
      return true;
    }
    header.PaintBackground();
    return false;
  }

  // ---------------------------------------------------------------------
  // Navigation
  // ---------------------------------------------------------------------

  /** An element of the navigation: its class name and whether it is hidden. */
  class Element {
    var className: string
    var hidden: bool

    constructor (className: string)
      ensures this.className == className && !hidden
    {
      this.className := className;
      hidden := false;
    }

    /** The click handler on the navigation container: toggles its `toggled` class. */
    method Toggle()
      modifies this
      ensures className == Toggled(old(className))
      ensures hidden == old(hidden)
    {
      if IndexOf(className, "toggled") != -1 {
        className := ReplaceFirst(className, " toggled", "");
      } else {
        className := className + " toggled";
      }
    }
  }

  /** The menu's class name once `nav-menu` is ensured. */
  function WithNavMenu(className: string): string {
    if IndexOf(className, "nav-menu") == -1 then className + " nav-menu" else className
  }

  /** After the first application the menu has `nav-menu`, and applying it again changes nothing. */
  lemma NavMenuIdempotent(className: string)
    ensures Contains(WithNavMenu(className), "nav-menu")
    ensures WithNavMenu(WithNavMenu(className)) == WithNavMenu(className)
    ensures Contains(className, "nav-menu") ==> WithNavMenu(className) == className
  {
    if !Contains(className, "nav-menu") {
      var s := className + " nav-menu";
      assert OccursAt(s, "nav-menu", |className| + 1);
    }
  }

  /** The container's class name after a click. */
  function Toggled(className: string): string {
    if IndexOf(className, "toggled") != -1 then ReplaceFirst(className, " toggled", "") else className + " toggled"
  }

  /** A click on a container without `toggled` adds it. */
  lemma ToggleAdds(className: string)
    requires !Contains(className, "toggled")
    ensures Toggled(className) == className + " toggled"
    ensures Contains(Toggled(className), "toggled")
  {
    assert OccursAt(className + " toggled", "toggled", |className| + 1);
  }

  /** The `toggled` a click added is the first ` toggled` of the class name. */
  lemma AddedToggleFirst(className: string)
    requires !Contains(className, "toggled")
    ensures FirstOccurrence(className + " toggled", " toggled", |className|)
  {
    var s := className + " toggled";
    assert s[|className|..] == " toggled";
    forall j | 0 <= j < |className|
      ensures !OccursAt(s, " toggled", j)
    {
      if j + 8 <= |className| {
        assert !OccursAt(className, "toggled", j + 1);
        assert s[j..j + 8][1..] == className[j + 1..j + 8];
      } else if j + 8 <= |s| {
        var m := |className| - j;
        assert s[j + m] == ' ';
        assert s[j..j + 8][m] == s[j + m];
        assert " toggled"[m] != ' ';
      }
    }
  }

  /** Clicking twice on a container without `toggled` restores its class name. */
  lemma ToggleTwiceRestores(className: string)
    requires !Contains(className, "toggled")
    ensures Toggled(Toggled(className)) == className
  {
    ToggleAdds(className);
    AddedToggleFirst(className);
    var s := className + " toggled";
    assert s[..|className|] == className && s[|className| + 8..] == "";
  }

  /**
   * `navigation`: without a container or a heading there is nothing to do;
   * without a menu the heading is hidden; otherwise the menu gets
   * `nav-menu` and the heading becomes a toggle for the container.
   */
  method Navigation(container: Element?, button: Element?, menu: Element?) returns (clickable: bool)
    modifies button, menu
    ensures clickable <==> container != null && button != null && menu != null
    ensures container != null && button != null && menu == null ==> button.hidden && button.className == old(button.className)
    ensures container == null || button == null ==> (button != null ==> unchanged(button)) && (menu != null ==> unchanged(menu))
    ensures clickable ==> menu.className == WithNavMenu(old(menu.className))
    ensures clickable ==> button.hidden == old(button.hidden) && menu.hidden == old(menu.hidden)
    ensures clickable && button != menu ==> button.className == old(button.className)
  {
    if container == null || button == null {
      return false;
    }
    if menu == null {
      button.hidden := true;
      return false;
    }
    if IndexOf(menu.className, "nav-menu") == -1 {
      menu.className := menu.className + " nav-menu";
    }
    return true;
  }

  // ---------------------------------------------------------------------
  // Start-up
  // ---------------------------------------------------------------------

  /**
   * The first two calls of `onLoad`: the header background, then the images,
   * which do not run when the header throws.
   */
  method PaintPage(header: Header?, images: seq<Image>, width: int, ratioPercent: nat) returns (thrown: bool)
    requires forall i, j | 0 <= i < j < |images| :: images[i] != images[j]
    modifies header, images
    ensures header == null ==> thrown && forall k | 0 <= k < |images| :: images[k].src == old(images[k].src)
    ensures header != null ==> header.backgroundImage == BackgroundImage(header.background, header.width, header.height)
    ensures var choices := Choices(AttributesOf(images), width, HighDensity(ratioPercent));
      header != null ==>
        && (thrown <==> exists k | 0 <= k < |images| :: choices[k].Thrown?)
        && forall k | 0 <= k < |images| ::
          images[k].src == if ThrownBy(choices, k) then old(images[k].src) else Applied(choices[k], old(images[k].src))
  {
    thrown := HeaderBackground(header);
    if thrown {
      return;
    }
    thrown := MakeImagesResponsive(images, width, ratioPercent);
  }

  /**
   * The first three calls of `onLoad`: the header background, the images,
   * then the navigation. A call that throws ends `onLoad`, so the calls
   * after it do not run.
   */
  method OnLoad(header: Header?, images: seq<Image>, width: int, ratioPercent: nat,
                container: Element?, button: Element?, menu: Element?) returns (thrown: bool, clickable: bool)
    requires forall i, j | 0 <= i < j < |images| :: images[i] != images[j]
    modifies header, images, button, menu
    ensures header == null ==> thrown && forall k | 0 <= k < |images| :: images[k].src == old(images[k].src)
    ensures header != null ==> header.backgroundImage == BackgroundImage(header.background, header.width, header.height)
    ensures var choices := Choices(AttributesOf(images), width, HighDensity(ratioPercent));
      header != null ==>
        && (thrown <==> exists k | 0 <= k < |images| :: choices[k].Thrown?)
        && forall k | 0 <= k < |images| ::
          images[k].src == if ThrownBy(choices, k) then old(images[k].src) else Applied(choices[k], old(images[k].src))
    ensures thrown ==> !clickable && (button != null ==> unchanged(button)) && (menu != null ==> unchanged(menu))
    ensures !thrown ==> (clickable <==> container != null && button != null && menu != null)
    ensures !thrown && container != null && button != null && menu == null ==>
      button.hidden && button.className == old(button.className)
    ensures !thrown && (container == null || button == null) ==>
      (button != null ==> unchanged(button)) && (menu != null ==> unchanged(menu))
    ensures clickable ==> menu.className == WithNavMenu(old(menu.className))
    ensures clickable ==> button.hidden == old(button.hidden) && menu.hidden == old(menu.hidden)
    ensures clickable && button != menu ==> button.className == old(button.className)
  {
    // Images, the header and elements are objects of different classes.
    assert forall k | 0 <= k < |images| :: images[k] as object? != button && images[k] as object? != menu;
    assert header as object? != button || header == null;
    assert header as object? != menu || header == null;
    clickable := false;
    thrown := PaintPage(header, images, width, ratioPercent);
    if thrown {
      return;
    }
    clickable := Navigation(container, button, menu);
  }
}
