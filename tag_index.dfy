/**
 * The tag indexer of the wiki (build.ts): every note of the wiki directory
 * is read, the notes are grouped by the tags of their front matter, and the
 * part of the README after the tags marker is replaced by one collapsible
 * section per tag, in tag-name order.
 */
module TagIndex {
  import opened Wrappers
  import opened Strings
  import opened Ordering

  /** The marker the tag sections follow in the README. */
  const Marker := "\n## Tags:\n\n"

  /** The marker without its last character: a kept text ending in it runs into the marker written after it. */
  const PartialMarker := "\n## Tags:\n"

  /** What stands for the README when it cannot be read. */
  const DefaultReadme := "# Readme\n"

  /**
   * The `tags` front-matter attribute of a wiki file: absent or falsy, so
   * that `attributes.tags || []` gives no tags; a list of tags; or a truthy
   * value that is not a list (`tags: css` parses to a string), which the
   * note keeps and on which the reduce's `note.tags.forEach` throws.
   */
  datatype Tags = NoTags | TagList(tags: seq<string>) | NotAList

  /** A file of the wiki directory: its name, its `tags` front-matter attribute and its body. */
  datatype WikiFile = WikiFile(filepath: string, tags: Tags, body: string)

  /** Every file's `tags` attribute is absent, falsy or a list, so the reduce does not throw. */
  predicate AllListed(files: seq<WikiFile>) {
    forall k | 0 <= k < |files| :: !files[k].tags.NotAList?
  }

  /** A note as the indexer keeps it. */
  datatype Note = Note(tags: seq<string>, title: string, filepath: string)

  // ---------------------------------------------------------------------
  // Titles
  // ---------------------------------------------------------------------

  /** A character of the regular-expression class `\s`. */
  predicate IsSpace(c: char) {
    c == '\t' || c == '\n' || c == '\U{000B}' || c == '\U{000C}' || c == '\r' || c == ' ' ||
    c == '\U{00A0}' || c == '\U{1680}' || ('\U{2000}' <= c <= '\U{200A}') || c == '\U{2028}' ||
    c == '\U{2029}' || c == '\U{202F}' || c == '\U{205F}' || c == '\U{3000}' || c == '\U{FEFF}'
  }

  /** `/#\s/` matches at index `i`. */
  predicate HeadingAt(s: string, i: int) {
    0 <= i && i + 1 < |s| && s[i] == '#' && IsSpace(s[i + 1])
  }

  /** `i` is the first index where `/#\s/` matches: where the heading pattern of the title match begins. */
  predicate FirstHeadingAt(s: string, i: int) {
    HeadingAt(s, i) && forall j | 0 <= j < i :: !HeadingAt(s, j)
  }

  /** `line` is what `.*` matches at index `k` of `s`: the characters up to the next line terminator. */
  predicate LineAt(s: string, k: int, line: string) {
    0 <= k && k + |line| <= |s| && s[k..k + |line|] == line &&
    (forall j | 0 <= j < |line| :: !IsLineTerminator(line[j])) &&
    (k + |line| == |s| || IsLineTerminator(s[k + |line|]))
  }

  /** The first index at or after `from` where `/#\s/` matches. */
  function HeadingFrom(s: string, from: nat): (r: Option<nat>)
    requires forall j | 0 <= j < from :: !HeadingAt(s, j)
    ensures r.None? ==> forall j :: !HeadingAt(s, j)
    ensures r.Some? ==> FirstHeadingAt(s, r.value)
    decreases |s| - from
  {
    if from + 1 >= |s| then None
    else if HeadingAt(s, from) then Some(from)
    else HeadingFrom(s, from + 1)
  }

  /** The length of the line of `s` that starts at `k`. */
  function LineLength(s: string, k: nat): (n: nat)
    requires k <= |s|
    ensures k + n <= |s|
    ensures LineAt(s, k, s[k..k + n])
    decreases |s| - k
  {
    if k == |s| || IsLineTerminator(s[k]) then 0
    else
      var n := LineLength(s, k + 1);
      assert s[k..k + 1 + n] == [s[k]] + s[k + 1..k + 1 + n];
      1 + n
  }

  /**
   * The title of a note: the rest of the line after the first `#` and
   * whitespace character of the body, or the file name when the body has
   * no such heading or that line is empty.
   */
  function ExtractTitle(body: string, filepath: string): (title: string)
    ensures (forall i :: !HeadingAt(body, i)) ==> title == filepath
    ensures forall i | FirstHeadingAt(body, i) ::
      if LineAt(body, i + 2, "") then title == filepath else LineAt(body, i + 2, title)
  {
    match HeadingFrom(body, 0)
    case None => filepath
    case Some(i) =>
      var n := LineLength(body, i + 2);
      var line := body[i + 2..i + 2 + n];
      assert forall j | FirstHeadingAt(body, j) :: j == i;
      if line == "" then filepath else line
  }

  /** A title taken from a heading is one line; only a file name with a newline in it makes a title with one. */
  lemma TitleOneLine(body: string, filepath: string)
    requires '\n' !in filepath
    ensures '\n' !in ExtractTitle(body, filepath)
  {
    var title := ExtractTitle(body, filepath);
    match HeadingFrom(body, 0)
    case None =>
    case Some(i) =>
      if title != filepath {
        assert LineAt(body, i + 2, title);
        assert forall j | 0 <= j < |title| :: title[j] != '\n';
      }
  }

  /**
   * The note of a wiki file whose `tags` is not a non-list value (the run
   * fails on those, see `BuildReadme`); a file without tags has none.
   */
  function ToNote(f: WikiFile): (note: Note)
    requires !f.tags.NotAList?
    ensures note.filepath == f.filepath
    ensures f.tags.NoTags? ==> note.tags == []
    ensures f.tags.TagList? ==> note.tags == f.tags.tags
  {
    Note(if f.tags.TagList? then f.tags.tags else [], ExtractTitle(f.body, f.filepath), f.filepath)
  }

  /** The notes of the listed files, in listing order. */
  function Notes(files: seq<WikiFile>): (notes: seq<Note>)
    requires AllListed(files)
    ensures |notes| == |files|
    ensures forall k | 0 <= k < |files| :: notes[k] == ToNote(files[k])
  {
    seq(|files|, k requires 0 <= k < |files| => ToNote(files[k]))
  }

  // ---------------------------------------------------------------------
  // Grouping by tag
  // ---------------------------------------------------------------------

  /** The tags of all notes, in listing order, repeats included. */
  function AllTags(notes: seq<Note>): seq<string>
    decreases |notes|
  {
    if notes == [] then [] else AllTags(notes[..|notes| - 1]) + notes[|notes| - 1].tags
  }

  /** A tag occurs in the tags of all notes exactly when some note has it. */
  lemma {:induction false} AllTagsHas(notes: seq<Note>, t: string)
    ensures t in AllTags(notes) <==> exists k | 0 <= k < |notes| :: t in notes[k].tags
    decreases |notes|
  {
    if notes != [] {
      var init := notes[..|notes| - 1];
      AllTagsHas(init, t);
      assert forall k | 0 <= k < |init| :: init[k] == notes[k];
    }
  }

  /** The distinct elements of `s`, in order of first appearance. */
  function Distinct(s: seq<string>): (d: seq<string>)
    ensures forall x :: x in d <==> x in s
    ensures forall i, j | 0 <= i < j < |d| :: d[i] != d[j]
    decreases |s|
  {
    if s == [] then []
    else
      var init := s[..|s| - 1];
      assert s == init + [s[|s| - 1]];
      var d := Distinct(init);
      if s[|s| - 1] in d then d else d + [s[|s| - 1]]
  }

  /** How many times `t` occurs in `tags`. */
  function Count(tags: seq<string>, t: string): nat
    decreases |tags|
  {
    if tags == [] then 0 else Count(tags[..|tags| - 1], t) + (if tags[|tags| - 1] == t then 1 else 0)
  }

  /** `t` is counted exactly when it occurs. */
  lemma {:induction false} CountPositive(tags: seq<string>, t: string)
    ensures Count(tags, t) > 0 <==> t in tags
    decreases |tags|
  {
    if tags != [] {
      CountPositive(tags[..|tags| - 1], t);
      assert tags == tags[..|tags| - 1] + [tags[|tags| - 1]];
    }
  }

  /** `n` copies of a note. */
  function Copies(note: Note, n: nat): (r: seq<Note>)
    ensures |r| == n && forall k | 0 <= k < n :: r[k] == note
  {
    seq(n, _ => note)
  }

  /**
   * What the reduce leaves under tag `t`: every note whose tags contain
   * `t`, once per occurrence of `t`, in listing order.
   */
  function Tagged(notes: seq<Note>, t: string): seq<Note>
    decreases |notes|
  {
    if notes == [] then []
    else Tagged(notes[..|notes| - 1], t) + Copies(notes[|notes| - 1], Count(notes[|notes| - 1].tags, t))
  }

  /** Exactly the notes that carry `t` are listed under it. */
  lemma {:induction false} TaggedMembers(notes: seq<Note>, t: string)
    ensures forall n :: n in Tagged(notes, t) <==> n in notes && t in n.tags
    decreases |notes|
  {
    if notes != [] {
      var init := notes[..|notes| - 1];
      var last := notes[|notes| - 1];
      TaggedMembers(init, t);
      CountPositive(last.tags, t);
      assert notes == init + [last];
      var copies := Copies(last, Count(last.tags, t));
      assert forall n :: n in copies <==> n == last && t in last.tags by {
        if t in last.tags {
          assert copies[0] == last;
        }
      }
    }
  }

  /** A tag no note has lists nothing. */
  lemma {:induction false} TaggedAbsent(notes: seq<Note>, t: string)
    requires t !in AllTags(notes)
    ensures Tagged(notes, t) == []
    decreases |notes|
  {
    if notes != [] {
      var last := notes[|notes| - 1];
      TaggedAbsent(notes[..|notes| - 1], t);
      CountPositive(last.tags, t);
    }
  }

  /** `tagMap` as the reduce leaves it: one key per tag that occurs, holding the notes that carry it. */
  function TagMap(notes: seq<Note>): map<string, seq<Note>> {
    map t | t in AllTags(notes) :: Tagged(notes, t)
  }

  /** The keys of the reduce after the tags of `note` up to `j`: those seen so far, in order of first appearance. */
  ghost predicate KeysSeen(notes: seq<Note>, note: Note, j: nat, tagMap: map<string, seq<Note>>, keys: seq<string>)
    requires j <= |note.tags|
  {
    && keys == Distinct(AllTags(notes) + note.tags[..j])
    && (forall t :: t in tagMap <==> t in AllTags(notes) + note.tags[..j])
  }

  /** The lists of the reduce after the tags of `note` up to `j`: `note` follows the earlier notes once per occurrence so far. */
  ghost predicate ListsSeen(notes: seq<Note>, note: Note, j: nat, tagMap: map<string, seq<Note>>)
    requires j <= |note.tags|
  {
    forall t | t in tagMap :: tagMap[t] == Tagged(notes, t) + Copies(note, Count(note.tags[..j], t))
  }

  /** Counting over one more tag. */
  lemma CountSnoc(tags: seq<string>, j: nat, t: string)
    requires j < |tags|
    ensures Count(tags[..j + 1], t) == Count(tags[..j], t) + (if tags[j] == t then 1 else 0)
  {
    assert tags[..j + 1][..j] == tags[..j];
  }

  /** One more element adds itself to the distinct elements when it is new. */
  lemma DistinctSnoc(s: seq<string>, x: string)
    ensures Distinct(s + [x]) == if x in s then Distinct(s) else Distinct(s) + [x]
  {
    assert (s + [x])[..|s|] == s;
  }

  /** One `forEach` step of the reduce: a new tag becomes the last key, a seen one changes nothing about the keys. */
  lemma KeysStep(notes: seq<Note>, note: Note, j: nat, tagMap: map<string, seq<Note>>, keys: seq<string>,
                 list: seq<Note>)
    requires j < |note.tags| && KeysSeen(notes, note, j, tagMap, keys)
    ensures var tag := note.tags[j];
      KeysSeen(notes, note, j + 1, tagMap[tag := list], if tag in tagMap then keys else keys + [tag])
  {
    var tag := note.tags[j];
    var seen := AllTags(notes) + note.tags[..j];
    assert AllTags(notes) + note.tags[..j + 1] == seen + [tag] by {
      assert note.tags[..j + 1] == note.tags[..j] + [tag];
    }
    DistinctSnoc(seen, tag);
    assert tag in tagMap <==> tag in seen;
    forall t
      ensures t in tagMap[tag := list] <==> t in seen + [tag]
    {
      assert t in tagMap <==> t in seen;
    }
  }

  /** One `forEach` step of the reduce on a tag already in the map: `note` joins the end of its list. */
  lemma ListsStepSeen(notes: seq<Note>, note: Note, j: nat, tagMap: map<string, seq<Note>>)
    requires j < |note.tags| && ListsSeen(notes, note, j, tagMap) && note.tags[j] in tagMap
    ensures ListsSeen(notes, note, j + 1, tagMap[note.tags[j] := tagMap[note.tags[j]] + [note]])
  {
    var tag := note.tags[j];
    var m := tagMap[tag := tagMap[tag] + [note]];
    forall t | t in m
      ensures m[t] == Tagged(notes, t) + Copies(note, Count(note.tags[..j + 1], t))
    {
      CountSnoc(note.tags, j, t);
      if t == tag {
        var n := Count(note.tags[..j], t);
        assert Copies(note, n + 1) == Copies(note, n) + [note];
      }
    }
  }

  /** One `forEach` step of the reduce on a tag not yet in the map: its list is `note` alone. */
  lemma ListsStepNew(notes: seq<Note>, note: Note, j: nat, tagMap: map<string, seq<Note>>, keys: seq<string>)
    requires j < |note.tags| && KeysSeen(notes, note, j, tagMap, keys) && ListsSeen(notes, note, j, tagMap)
    requires note.tags[j] !in tagMap
    ensures ListsSeen(notes, note, j + 1, tagMap[note.tags[j] := [note]])
  {
    var tag := note.tags[j];
    var m := tagMap[tag := [note]];
    forall t | t in m
      ensures m[t] == Tagged(notes, t) + Copies(note, Count(note.tags[..j + 1], t))
    {
      CountSnoc(note.tags, j, t);
      if t == tag {
        TaggedAbsent(notes, tag);
        CountPositive(note.tags[..j], tag);
        assert Copies(note, 1) == [note];
      }
    }
  }

  /** One note of the reduce: after all its tags, the map is that of the notes up to and including it. */
  lemma GroupNote(notes: seq<Note>, i: nat, tagMap: map<string, seq<Note>>, keys: seq<string>)
    requires i < |notes|
    requires KeysSeen(notes[..i], notes[i], |notes[i].tags|, tagMap, keys)
    requires ListsSeen(notes[..i], notes[i], |notes[i].tags|, tagMap)
    ensures keys == Distinct(AllTags(notes[..i + 1]))
    ensures forall t :: t in tagMap <==> t in AllTags(notes[..i + 1])
    ensures forall t | t in tagMap :: tagMap[t] == Tagged(notes[..i + 1], t)
  {
    assert notes[..i + 1][..i] == notes[..i];
    assert notes[i].tags[..|notes[i].tags|] == notes[i].tags;
  }

  /**
   * The `tagMap` reduce. The keys come out as the distinct tags in order of
   * first appearance; `Object.keys` may list them in another order (it puts
   * integer-like keys first), which does not matter because the sections
   * are sorted by name (`DetailsIgnoreKeyOrder`).
   */
  method GroupByTag(notes: seq<Note>) returns (tagMap: map<string, seq<Note>>, keys: seq<string>)
    ensures tagMap == TagMap(notes)
    ensures keys == Distinct(AllTags(notes))
  {
    tagMap := map[];
    keys := [];
    for i := 0 to |notes|
      invariant keys == Distinct(AllTags(notes[..i]))
      invariant forall t :: t in tagMap <==> t in AllTags(notes[..i])
      invariant forall t | t in tagMap :: tagMap[t] == Tagged(notes[..i], t)
    {
      tagMap, keys := ReduceNote(notes, i, tagMap, keys);
    }
    assert notes[..|notes|] == notes;
  }

  /**
   * One call of the reduce callback: the `forEach` over the tags of note
   * `i` turns the map of the notes before it into that of the notes up to
   * and including it.
   */
  method ReduceNote(notes: seq<Note>, i: nat, tagMap: map<string, seq<Note>>, keys: seq<string>)
    returns (tagMap': map<string, seq<Note>>, keys': seq<string>)
    requires i < |notes|
    requires keys == Distinct(AllTags(notes[..i]))
    requires forall t :: t in tagMap <==> t in AllTags(notes[..i])
    requires forall t | t in tagMap :: tagMap[t] == Tagged(notes[..i], t)
    ensures keys' == Distinct(AllTags(notes[..i + 1]))
    ensures forall t :: t in tagMap' <==> t in AllTags(notes[..i + 1])
    ensures forall t | t in tagMap' :: tagMap'[t] == Tagged(notes[..i + 1], t)
  {
    tagMap', keys' := tagMap, keys;
    var note := notes[i];
    assert note.tags[..0] == [] && AllTags(notes[..i]) + [] == AllTags(notes[..i]);
    for j := 0 to |note.tags|
      invariant KeysSeen(notes[..i], note, j, tagMap', keys')
      invariant ListsSeen(notes[..i], note, j, tagMap')
    {
      var tag := note.tags[j];
      if tag in tagMap' {
        KeysStep(notes[..i], note, j, tagMap', keys', tagMap'[tag] + [note]);
        ListsStepSeen(notes[..i], note, j, tagMap');
        tagMap' := tagMap'[tag := tagMap'[tag] + [note]];
      } else {
        KeysStep(notes[..i], note, j, tagMap', keys', [note]);
        ListsStepNew(notes[..i], note, j, tagMap', keys');
        tagMap' := tagMap'[tag := [note]];
        keys' := keys' + [tag];
      }
    }
    GroupNote(notes, i, tagMap', keys');
  }

  /** The sections are those of the tags some note has. */
  lemma SectionNames(notes: seq<Note>)
    ensures var names := Sort(Distinct(AllTags(notes)));
      forall t :: t in names <==> exists k | 0 <= k < |notes| :: t in notes[k].tags
  {
    var keys := Distinct(AllTags(notes));
    var names := Sort(keys);
    forall t
      ensures t in names <==> exists k | 0 <= k < |notes| :: t in notes[k].tags
    {
      AllTagsHas(notes, t);
      assert t in names <==> t in multiset(names);
      assert t in keys <==> t in multiset(keys);
    }
  }

  /**
   * The sections come in strictly ascending tag order: sorting the keys
   * leaves each of them once.
   */
  lemma SectionOrder(notes: seq<Note>)
    ensures var names := Sort(Distinct(AllTags(notes)));
      forall i, j | 0 <= i < j < |names| :: Less(names[i], names[j])
  {
    var keys := Distinct(AllTags(notes));
    var names := Sort(keys);
    forall i, j | 0 <= i < j < |names|
      ensures Less(names[i], names[j])
    {
      DistinctOnce(keys, names[i]);
      if names[i] != names[j] {
        LessTotal(names[i], names[j]);
      } else {
        TwoCopies(names, i, j);
      }
    }
  }

  /** Two equal elements at different places are two copies. */
  lemma TwoCopies(s: seq<string>, i: nat, j: nat)
    requires i < j < |s|
    ensures multiset(s)[s[i]] >= 2 || s[i] != s[j]
  {
    if s[i] == s[j] {
      assert s == s[..j] + s[j..];
      assert s[i] in multiset(s[..j]);
      assert s[j..][0] == s[j];
      assert s[j] in multiset(s[j..]);
    }
  }

  /** An element of a sequence without repeats occurs once in it. */
  lemma {:induction false} DistinctOnce(s: seq<string>, x: string)
    requires forall i, j | 0 <= i < j < |s| :: s[i] != s[j]
    ensures multiset(s)[x] <= 1
    decreases |s|
  {
    if s != [] {
      var init := s[..|s| - 1];
      DistinctOnce(init, x);
      assert s == init + [s[|s| - 1]];
      assert s[|s| - 1] !in init by {
        assert forall k | 0 <= k < |init| :: init[k] == s[k];
      }
    }
  }

  // ---------------------------------------------------------------------
  // Rendering the sections
  // ---------------------------------------------------------------------

  /** The list item of a note: a link to its file in the wiki directory, labelled with its title. */
  function Item(wikiDir: string, note: Note): string {
    "<li><a href=\"" + wikiDir + "/" + note.filepath + "\">" + note.title + "</a></li>"
  }

  /** The list items of the notes under a tag, in their order. */
  function Items(wikiDir: string, notes: seq<Note>): (items: seq<string>)
    ensures |items| == |notes|
    ensures forall k | 0 <= k < |notes| :: items[k] == Item(wikiDir, notes[k])
  {
    seq(|notes|, k requires 0 <= k < |notes| => Item(wikiDir, notes[k]))
  }

  /** The summary line of a section: the tag and the number of its notes. */
  function Summary(tag: string, count: nat): string {
    "<details><summary>" + tag + " (" + NatToString(count) + ")</summary>"
  }

  /** The collapsible section of a tag. */
  function Section(wikiDir: string, tag: string, notes: seq<Note>): string {
    Join([Summary(tag, |notes|), "<ul>", Join(Items(wikiDir, notes), "\n"), "</ul>", "</details>"], "\n")
  }

  /** The rendered sections: one per key, in ascending tag order, separated by a blank line. */
  function Details(wikiDir: string, tagMap: map<string, seq<Note>>, keys: seq<string>): string
    requires forall k | 0 <= k < |keys| :: keys[k] in tagMap
  {
    var names := Sort(keys);
    assert forall k | 0 <= k < |names| :: names[k] in tagMap by {
      forall k | 0 <= k < |names|
        ensures names[k] in tagMap
      {
        assert names[k] in multiset(keys);
      }
    }
    Join(seq(|names|, k requires 0 <= k < |names| => Section(wikiDir, names[k], tagMap[names[k]])), "\n\n")
  }

  /** The sections do not depend on the order the keys are listed in, only on which keys there are. */
  lemma DetailsIgnoreKeyOrder(wikiDir: string, tagMap: map<string, seq<Note>>, keys: seq<string>, other: seq<string>)
    requires forall k | 0 <= k < |keys| :: keys[k] in tagMap
    requires forall k | 0 <= k < |other| :: other[k] in tagMap
    requires multiset(other) == multiset(keys)
    ensures Details(wikiDir, tagMap, other) == Details(wikiDir, tagMap, keys)
  {
    AscendingPermutationUnique(Sort(other), Sort(keys));
  }

  /** A line that is a list item. */
  predicate IsItemLine(line: string) {
    |line| >= 4 && line[..4] == "<li>"
  }

  /** The number of list-item lines. */
  function ItemCount(lines: seq<string>): nat
    decreases |lines|
  {
    if lines == [] then 0
    else ItemCount(lines[..|lines| - 1]) + (if IsItemLine(lines[|lines| - 1]) then 1 else 0)
  }

  /** Counting list items over two runs of lines. */
  lemma {:induction false} ItemCountAppend(a: seq<string>, b: seq<string>)
    ensures ItemCount(a + b) == ItemCount(a) + ItemCount(b)
    decreases |b|
  {
    if b != [] {
      var init := b[..|b| - 1];
      ItemCountAppend(a, init);
      assert (a + b)[..|a + b| - 1] == a + init;
      assert (a + b)[|a + b| - 1] == b[|b| - 1];
    } else {
      assert a + b == a;
    }
  }

  /** Every item of a section is a list-item line. */
  lemma {:induction false} ItemsCount(wikiDir: string, notes: seq<Note>)
    ensures ItemCount(Items(wikiDir, notes)) == |notes|
    decreases |notes|
  {
    if notes != [] {
      var init := notes[..|notes| - 1];
      ItemsCount(wikiDir, init);
      assert Items(wikiDir, notes)[..|notes| - 1] == Items(wikiDir, init);
      assert Item(wikiDir, notes[|notes| - 1])[..4] == "<li>";
    }
  }

  /** Joining two non-empty runs joins their joins. */
  lemma {:induction false} JoinAppend(a: seq<string>, b: seq<string>, sep: string)
    requires |a| >= 1 && |b| >= 1
    ensures Join(a + b, sep) == Join(a, sep) + sep + Join(b, sep)
    decreases |a|
  {
    assert (a + b)[1..] == a[1..] + b;
    if |a| > 1 {
      JoinAppend(a[1..], b, sep);
    }
  }

  /** The lines of a section, one per element. */
  function SectionLines(wikiDir: string, tag: string, notes: seq<Note>): seq<string> {
    [Summary(tag, |notes|), "<ul>"] + Items(wikiDir, notes) + ["</ul>", "</details>"]
  }

  /** No line of a section holds a newline when the names and titles do not. */
  lemma SectionLinesOneLine(wikiDir: string, tag: string, notes: seq<Note>)
    requires '\n' !in wikiDir && '\n' !in tag
    requires forall k | 0 <= k < |notes| :: '\n' !in notes[k].filepath && '\n' !in notes[k].title
    ensures forall k | 0 <= k < |SectionLines(wikiDir, tag, notes)| :: '\n' !in SectionLines(wikiDir, tag, notes)[k]
  {
    var digits := NatToString(|notes|);
    assert '\n' !in digits by {
      forall k | 0 <= k < |digits|
        ensures digits[k] != '\n'
      {
        assert IsDigit(digits[k]);
      }
    }
  }

  /** A section is its lines joined by newlines. */
  lemma SectionJoin(wikiDir: string, tag: string, notes: seq<Note>)
    requires |notes| >= 1
    ensures Section(wikiDir, tag, notes) == Join(SectionLines(wikiDir, tag, notes), "\n")
  {
    var head := [Summary(tag, |notes|), "<ul>"];
    var items := Items(wikiDir, notes);
    var tail := ["</ul>", "</details>"];
    assert [Summary(tag, |notes|), "<ul>", Join(items, "\n"), "</ul>", "</details>"] ==
      head + ([Join(items, "\n")] + tail);
    JoinAppend(head, [Join(items, "\n")] + tail, "\n");
    assert ([Join(items, "\n")] + tail)[1..] == tail;
    JoinAppend(items, tail, "\n");
    assert head + items + tail == head + (items + tail);
    JoinAppend(head, items + tail, "\n");
  }

  /** Two lines neither of which is a list item hold no list items. */
  lemma NoItemsIn(first: string, second: string)
    requires !IsItemLine(first) && !IsItemLine(second)
    ensures ItemCount([first, second]) == 0
  {
    assert ItemCount([first]) == 0 by {
      assert [first][..0] == [];
    }
    assert [first, second][..1] == [first];
  }

  /** Lines around a run that hold no list items add none to its count. */
  lemma CountAround(head: seq<string>, lines: seq<string>, tail: seq<string>)
    requires ItemCount(head) == 0 && ItemCount(tail) == 0
    ensures ItemCount(head + lines + tail) == ItemCount(lines)
  {
    ItemCountAppend(head + lines, tail);
    ItemCountAppend(head, lines);
  }

  /** A section has one list-item line per note. */
  lemma SectionItemCount(wikiDir: string, tag: string, notes: seq<Note>)
    ensures ItemCount(SectionLines(wikiDir, tag, notes)) == |notes|
  {
    var summary := Summary(tag, |notes|);
    assert summary[..4] == "<det";
    assert "<ul>"[..4][1] == 'u';
    NoItemsIn(summary, "<ul>");
    NoItemsIn("</ul>", "</details>");
    CountAround([summary, "<ul>"], Items(wikiDir, notes), ["</ul>", "</details>"]);
    ItemsCount(wikiDir, notes);
  }

  /**
   * The count a section's summary shows is the number of list items below
   * it: split into lines, the section is its summary, the list opening,
   * one item per note and the closing lines.
   */
  lemma SectionCount(wikiDir: string, tag: string, notes: seq<Note>)
    requires |notes| >= 1
    requires '\n' !in wikiDir && '\n' !in tag
    requires forall k | 0 <= k < |notes| :: '\n' !in notes[k].filepath && '\n' !in notes[k].title
    ensures Split(Section(wikiDir, tag, notes), "\n") == SectionLines(wikiDir, tag, notes)
    ensures SectionLines(wikiDir, tag, notes)[0] == Summary(tag, ItemCount(SectionLines(wikiDir, tag, notes)))
  {
    SectionJoin(wikiDir, tag, notes);
    SectionLinesOneLine(wikiDir, tag, notes);
    SplitJoin(SectionLines(wikiDir, tag, notes), '\n');
    SectionItemCount(wikiDir, tag, notes);
  }

  // ---------------------------------------------------------------------
  // The README splice
  // ---------------------------------------------------------------------

  /** The README's text, or the default when it cannot be read. */
  function ReadmeText(readme: Option<string>): (text: string)
    ensures readme.None? ==> text == DefaultReadme
  {
    if readme.Some? then readme.value else DefaultReadme
  }

  /** `split(prefix)[0]`: the text before the first marker, or all of it when there is none. */
  function Kept(text: string): (kept: string)
    ensures |kept| <= |text| && text[..|kept|] == kept
  {
    var parts := Split(text, Marker);
    assert |parts| > 1 ==> text == parts[0] + Marker + Join(parts[1..], Marker);
    parts[0]
  }

  /** With a marker in the text, the kept text is what comes before the first one. */
  lemma KeptAt(text: string, i: int)
    requires FirstOccurrence(text, Marker, i)
    ensures Kept(text) == text[..i]
  {
  }

  /** Without a marker in the text, all of it is kept. */
  lemma KeptWhole(text: string)
    requires Absent(text, Marker)
    ensures Kept(text) == text
  {
    SplitWhole(text, Marker);
  }

  /** The kept text holds no marker. */
  lemma KeptClean(text: string)
    ensures Absent(Kept(text), Marker)
  {
    SplitPiecesAbsent(text, Marker);
  }

  /** The new README: the kept text, the marker, then the sections. */
  function Splice(text: string, details: string): string {
    Kept(text) + Marker + details
  }

  /** The new README starts with the old one up to its first marker, then holds the marker and the sections. */
  lemma SpliceKeepsPrefix(text: string, details: string)
    ensures var r := Splice(text, details);
      && |r| == |Kept(text)| + |Marker| + |details|
      && r[..|Kept(text)|] == text[..|Kept(text)|]
      && r[|Kept(text)|..] == Marker + details
  {
    var kept := Kept(text);
    var r := Splice(text, details);
    assert r[..|kept|] == kept;
    assert r[|kept|..] == Marker + details;
  }

  /** `s` ends with `suffix`. */
  predicate EndsWith(s: string, suffix: string) {
    |suffix| <= |s| && s[|s| - |suffix|..] == suffix
  }

  /** The marker overlaps itself only by its final newline. */
  lemma MarkerOverlap(m: nat)
    requires 0 < m < |Marker| - 1
    ensures Marker[m..] != Marker[..|Marker| - m]
  {
    if m < 9 {
      assert Marker[m..][0] != Marker[..|Marker| - m][0];
    } else {
      assert Marker[m..][1] != Marker[..|Marker| - m][1];
    }
  }

  /** A marker cannot start in the kept text and end inside the marker written after it. */
  lemma NoShortOverlap(kept: string, details: string, j: nat)
    requires j < |kept| && |kept| - j < |Marker| - 1
    ensures !OccursAt(kept + Marker + details, Marker, j)
  {
    var s := kept + Marker + details;
    var m := |kept| - j;
    MarkerOverlap(m);
    assert s[j..j + |Marker|][m..] == s[|kept|..|kept| + |Marker| - m];
    assert s[|kept|..|kept| + |Marker| - m] == Marker[..|Marker| - m];
  }

  /** A marker starting where the kept text's last `|Marker| - 1` characters do needs them to be a partial marker. */
  lemma NoLongOverlap(kept: string, details: string, j: nat)
    requires j < |kept| && |kept| - j == |Marker| - 1 && !EndsWith(kept, PartialMarker)
    ensures !OccursAt(kept + Marker + details, Marker, j)
  {
    var s := kept + Marker + details;
    var m := |kept| - j;
    assert s[j..j + |Marker|][..m] == s[j..|kept|];
    assert s[j..|kept|] == kept[|kept| - |PartialMarker|..];
    assert Marker[..m] == PartialMarker;
  }

  /** In the text the splice writes, the first marker is the one it wrote, unless the kept text ends in a partial marker. */
  lemma SplicedMarker(kept: string, details: string)
    requires Absent(kept, Marker) && !EndsWith(kept, PartialMarker)
    ensures FirstOccurrence(kept + Marker + details, Marker, |kept|)
  {
    var s := kept + Marker + details;
    assert s[|kept|..|kept| + |Marker|] == Marker;
    forall j | 0 <= j < |kept|
      ensures !OccursAt(s, Marker, j)
    {
      if j + |Marker| <= |kept| {
        assert s[j..j + |Marker|] == kept[j..j + |Marker|];
        assert !OccursAt(kept, Marker, j);
      } else if |kept| - j < |Marker| - 1 {
        NoShortOverlap(kept, details, j);
      } else {
        NoLongOverlap(kept, details, j);
      }
    }
  }

  /** A kept text ending in a partial marker, followed by the marker, holds a marker where that ending starts. */
  lemma PartialMarkerOccurs(kept: string, details: string)
    requires EndsWith(kept, PartialMarker)
    ensures OccursAt(kept + Marker + details, Marker, |kept| - |PartialMarker|)
  {
    var s := kept + Marker + details;
    var j := |kept| - |PartialMarker|;
    assert s[j..|kept|] == kept[j..];
    assert s[|kept|..j + |Marker|] == "\n";
    assert s[j..j + |Marker|] == s[j..|kept|] + s[|kept|..j + |Marker|];
  }

  /** When the kept text ends in a partial marker, the second run keeps less of it. */
  lemma SpliceShrinks(text: string, details: string)
    requires EndsWith(Kept(text), PartialMarker)
    ensures |Splice(Splice(text, details), details)| < |Splice(text, details)|
  {
    var kept := Kept(text);
    var s := Splice(text, details);
    assert s == kept + Marker + details;
    PartialMarkerOccurs(kept, details);
    var i := IndexOf(s, Marker);
    assert FirstOccurrence(s, Marker, i) && i <= |kept| - |PartialMarker|;
    KeptAt(s, i);
  }

  /**
   * Splicing the same sections into a spliced README changes nothing
   * exactly when the kept text does not end in `\n## Tags:\n`; when it
   * does, that ending and the marker written after it form an earlier
   * marker, and the second run drops the ending.
   */
  lemma SpliceIdempotent(text: string, details: string)
    ensures Splice(Splice(text, details), details) == Splice(text, details)
      <==> !EndsWith(Kept(text), PartialMarker)
  {
    var kept := Kept(text);
    if !EndsWith(kept, PartialMarker) {
      KeptClean(text);
      SplicedMarker(kept, details);
      assert Splice(text, details) == kept + Marker + details;
    } else {
      SpliceShrinks(text, details);
    }
  }

  /** A README without a marker is kept whole, with the marker and the sections after it. */
  lemma SpliceWithoutMarker(text: string, details: string)
    requires Absent(text, Marker)
    ensures Splice(text, details) == text + Marker + details
  {
    KeptWhole(text);
  }

  /**
   * The README a run writes, given the wiki files in listing order and the
   * old README if it could be read; `None` when the run throws and writes
   * nothing.
   */
  function Readme(files: seq<WikiFile>, readme: Option<string>, wikiDir: string): Option<string> {
    if !AllListed(files) then None
    else
      var notes := Notes(files);
      Some(Splice(ReadmeText(readme), Details(wikiDir, TagMap(notes), Distinct(AllTags(notes)))))
  }

  /**
   * A whole run of the indexer: it writes nothing exactly when some file's
   * `tags` is a non-list value, on which the reduce throws.
   */
  method BuildReadme(files: seq<WikiFile>, readme: Option<string>, wikiDir: string) returns (content: Option<string>)
    ensures content.None? <==> exists k | 0 <= k < |files| :: files[k].tags.NotAList?
    ensures content == Readme(files, readme, wikiDir)
  {
    if !AllListed(files) {
      return None;
    }
    var notes := Notes(files);
    var tagMap, keys := GroupByTag(notes);
    content := Some(Splice(ReadmeText(readme), Details(wikiDir, tagMap, keys)));
  }

  /**
   * Running the indexer again over the same notes reproduces the README it
   * wrote, provided the text it kept does not end in a partial marker.
   */
  lemma RerunIdempotent(files: seq<WikiFile>, readme: Option<string>, wikiDir: string)
    requires !EndsWith(Kept(ReadmeText(readme)), PartialMarker)
    ensures Readme(files, readme, wikiDir).Some? ==>
      Readme(files, Readme(files, readme, wikiDir), wikiDir) == Readme(files, readme, wikiDir)
  {
    if !AllListed(files) {
      return;
    }
    var notes := Notes(files);
    SpliceIdempotent(ReadmeText(readme), Details(wikiDir, TagMap(notes), Distinct(AllTags(notes))));
  }

  /** The smallest README the second run changes: one that is just the partial marker. */
  lemma PartialMarkerNotIdempotent(details: string)
    ensures Splice(Splice(PartialMarker, details), details) != Splice(PartialMarker, details)
  {
    assert Absent(PartialMarker, Marker);
    KeptWhole(PartialMarker);
    SpliceIdempotent(PartialMarker, details);
  }
}
