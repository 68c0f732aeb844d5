/**
 * The build of the site (the `main` routine of scripts/build-site.ts): one
 * pass over the posts, one over the wiki notes, then the home page. The
 * generator's state — the set of pages that load the highlighter, the files
 * written so far and the two entry lists — is a `Site` object whose methods
 * update it step by step, as the script does.
 *
 * The directory listings and the parsed files are parameters: a listing is
 * the sequence of file names, and a map from file name to `Doc` gives what
 * the front-matter parser and the Markdown lexer make of each readable
 * file. The slug function, the Markdown renderer and the `git log` date of
 * a wiki note are parameters too.
 */
module SiteBuild {
  import opened Wrappers
  import opened Strings
  import opened Ordering
  import opened SiteRender

  const SrcPosts := "posts"
  const SrcWiki := "wiki"
  const DistPosts := "dist/post"
  const DistWiki := "dist/wiki"
  const IndexPath := "dist/index.html"

  /** A file of directory `dir`. */
  function SourcePath(dir: string, name: string): (p: string)
    ensures |p| == |dir| + 1 + |name| && p[|dir|] == '/'
  {
    dir + "/" + name
  }

  /** Two files of one directory have the same path only when they have the same name. */
  lemma SourcePathInjective(dir: string, a: string, b: string)
    requires SourcePath(dir, a) == SourcePath(dir, b)
    ensures a == b
  {
    assert a == SourcePath(dir, a)[|dir| + 1..];
  }

  /** A parsed Markdown file: its front matter and the lexer's tokens for its body. */
  datatype Doc = Doc(data: PostMeta, tokens: seq<Token>)

  /**
   * A file written by the generator. Every file it writes is a page of the
   * template, so the file holds the choices the template is filled in with;
   * its text is `Contents`.
   */
  datatype OutputFile = OutputFile(path: string, page: Page)

  /** The text of a written file: `surroundWithHtml` applied to the page's choices. */
  function Contents(f: OutputFile): string {
    RenderPage(SiteTexts, f.page)
  }

  /** Why the build stops: a file it could not read, or a failed front-matter assertion. */
  datatype BuildError =
    | ReadFailed(path: string)
    | PostMissingTitle(post: string)
    | PostMissingExcerpt(post: string)
    | PostMissingDate(post: string)
    | WikiMissingTitle(wiki: string)

  /**
   * The three assertions on a post, in the order they run. The date the post
   * is listed under comes from its file name only: the `date ?? data.date`
   * fallback is never reached, because a post without a dated name has
   * already stopped the build.
   */
  function CheckPost(name: string, data: PostMeta): (r: Result<string, BuildError>)
    ensures r.Ok? <==> Truthy(data.title) && Truthy(data.excerpt) && HasDatePrefix(name)
    ensures r.Ok? ==> r.value == name[..10]
    ensures !Truthy(data.title) ==> r == Err(PostMissingTitle(name))
    ensures Truthy(data.title) && !Truthy(data.excerpt) ==> r == Err(PostMissingExcerpt(name))
    ensures Truthy(data.title) && Truthy(data.excerpt) && !HasDatePrefix(name) ==> r == Err(PostMissingDate(name))
  {
    if !Truthy(data.title) then Err(PostMissingTitle(name))
    else if !Truthy(data.excerpt) then Err(PostMissingExcerpt(name))
    else match PostDate(name)
      case None => Err(PostMissingDate(name))
      case Some(date) => Ok(date)
  }

  /** The one assertion on a wiki note: a truthy title (the excerpt is not checked). */
  function CheckWiki(name: string, data: PostMeta): (r: Outcome<BuildError>)
    ensures r.Pass? <==> Truthy(data.title)
    ensures r.Fail? ==> r.error == WikiMissingTitle(name)
  {
    if Truthy(data.title) then Pass else Fail(WikiMissingTitle(name))
  }

  /** How the build of one post ends. */
  function PostVerdict(name: string, files: map<string, Doc>): Outcome<BuildError> {
    if name !in files then Fail(ReadFailed(SourcePath(SrcPosts, name)))
    else match CheckPost(name, files[name].data)
      case Ok(_) => Pass
      case Err(e) => Fail(e)
  }

  /** How the build of one wiki note ends. */
  function WikiVerdict(name: string, files: map<string, Doc>): Outcome<BuildError> {
    if name !in files then Fail(ReadFailed(SourcePath(SrcWiki, name))) else CheckWiki(name, files[name].data)
  }

  /** The HTML of a document's body: lexed, passed through the token hook, rendered. */
  function Html(doc: Doc, slug: string -> string, render: seq<Token> -> string): string {
    render(ProcessTokens(doc.tokens, slug))
  }

  /** The page written for file `name` of `srcDir` into `distDir`, given the highlighter set at that moment. */
  function PageFile(srcDir: string, distDir: string, name: string, doc: Doc,
                    slug: string -> string, render: seq<Token> -> string, prismFiles: set<string>): OutputFile
  {
    OutputFile(SourcePath(distDir, OutputName(name)),
      PageFor(Html(doc, slug, render), doc.data, SourcePath(srcDir, name), prismFiles))
  }

  /** The home-page entry of a post that passed its checks. */
  function PostEntry(name: string, doc: Doc, slug: string -> string, render: seq<Token> -> string): (e: ItemEntry)
    requires CheckPost(name, doc.data).Ok?
    ensures e.href == "/post/" + OutputName(name)
    ensures e.title == doc.data.title.value && e.title != ""
    ensures e.date == name[..10] && HasDatePrefix(name)
    ensures e.excerpt == doc.data.excerpt && Truthy(e.excerpt)
  {
    ItemEntry("/post/" + OutputName(name), doc.data.title.value, doc.data.excerpt, name[..10], Html(doc, slug, render))
  }

  /** The home-page entry of a wiki note that passed its check, dated by the date its file was added. */
  function WikiEntry(name: string, doc: Doc, slug: string -> string, render: seq<Token> -> string,
                     gitDate: string -> string): (e: ItemEntry)
    requires CheckWiki(name, doc.data).Pass?
    ensures e.href == "/wiki/" + OutputName(name)
    ensures e.title == doc.data.title.value && e.title != ""
    ensures e.date == gitDate(SourcePath(SrcWiki, name))
    ensures e.excerpt == doc.data.excerpt
  {
    ItemEntry("/wiki/" + OutputName(name), doc.data.title.value, doc.data.excerpt,
      gitDate(SourcePath(SrcWiki, name)), Html(doc, slug, render))
  }

  /** The paths of those of `names` (files of `dir`) whose rewritten tokens need the highlighter. */
  ghost function PrismPaths(dir: string, names: seq<string>, files: map<string, Doc>, slug: string -> string): set<string> {
    set k | 0 <= k < |names| && names[k] in files && NeedsPrism(ProcessTokens(files[names[k]].tokens, slug))
      :: SourcePath(dir, names[k])
  }

  /** What one more file adds to the highlighter paths. */
  lemma PrismPathsSnoc(dir: string, names: seq<string>, name: string, files: map<string, Doc>, slug: string -> string)
    ensures PrismPaths(dir, names + [name], files, slug) == PrismPaths(dir, names, files, slug) +
      (if name in files && NeedsPrism(ProcessTokens(files[name].tokens, slug)) then {SourcePath(dir, name)} else {})
  {
    var all := names + [name];
    assert forall k | 0 <= k < |names| :: all[k] == names[k];
    assert all[|names|] == name;
  }

  /** `PrismPaths` of a non-empty run, from that of all but its last file. */
  lemma PrismPathsLast(dir: string, names: seq<string>, files: map<string, Doc>, slug: string -> string)
    requires |names| > 0
    ensures var name := names[|names| - 1];
      PrismPaths(dir, names, files, slug) == PrismPaths(dir, names[..|names| - 1], files, slug) +
        (if name in files && NeedsPrism(ProcessTokens(files[name].tokens, slug)) then {SourcePath(dir, name)} else {})
  {
    PrismPathsSnoc(dir, names[..|names| - 1], names[|names| - 1], files, slug);
    assert names[..|names| - 1] + [names[|names| - 1]] == names;
  }

  /**
   * With distinct file names and no path of `dir` in the set beforehand, the
   * highlighter set a page is rendered with (that of the files up to and
   * including its own) holds its path exactly when its own code needs it: the
   * pages before it cannot switch the highlighter on for it.
   */
  lemma OwnPrismFlag(dir: string, names: seq<string>, k: int, before: set<string>,
                     files: map<string, Doc>, slug: string -> string)
    requires 0 <= k < |names| && names[k] in files
    requires forall i, j | 0 <= i < j < |names| :: names[i] != names[j]
    requires SourcePath(dir, names[k]) !in before
    ensures SourcePath(dir, names[k]) in before + PrismPaths(dir, names[..k + 1], files, slug)
      <==> NeedsPrism(ProcessTokens(files[names[k]].tokens, slug))
  {
    var prefix := names[..k + 1];
    var p := SourcePath(dir, names[k]);
    if p in PrismPaths(dir, prefix, files, slug) {
      var i :| 0 <= i < |prefix| && prefix[i] in files && NeedsPrism(ProcessTokens(files[prefix[i]].tokens, slug))
        && SourcePath(dir, prefix[i]) == p;
      SourcePathInjective(dir, prefix[i], names[k]);
    }
    if NeedsPrism(ProcessTokens(files[names[k]].tokens, slug)) {
      assert prefix[k] == names[k];
    }
  }

  /** The order the post loop visits the listing in: sorted, then reversed (latest date first). */
  function PostOrder(listing: seq<string>): (order: seq<string>)
    ensures |order| == |listing|
  {
    ReverseSortDescending(listing);
    var order := Reverse(Sort(listing));
    assert |order| == |multiset(order)| == |multiset(listing)| == |listing|;
    order
  }

  /** The post loop visits every listed file, latest date (in name order) first. */
  lemma PostOrderIsDescending(listing: seq<string>)
    ensures multiset(PostOrder(listing)) == multiset(listing)
    ensures Descending(PostOrder(listing))
  {
    ReverseSortDescending(listing);
  }

  /** The order the wiki loop visits the listing in: sorted. */
  function WikiOrder(listing: seq<string>): (order: seq<string>)
    ensures |order| == |listing|
  {
    var order := Sort(listing);
    assert |order| == |multiset(order)| == |multiset(listing)| == |listing|;
    order
  }

  // ---------------------------------------------------------------------
  // The two content loops, as a specification

  /** The two content folders: posts, and wiki notes dated by when their file was added. */
  datatype Section = Posts | Wiki(gitDate: string -> string)

  function SrcDir(sec: Section): string {
    if sec.Posts? then SrcPosts else SrcWiki
  }

  function DistDir(sec: Section): string {
    if sec.Posts? then DistPosts else DistWiki
  }

  /** How the build of one file of the section ends. */
  function Verdict(sec: Section, name: string, files: map<string, Doc>): (r: Outcome<BuildError>)
    ensures r.Pass? ==> name in files
  {
    if sec.Posts? then PostVerdict(name, files) else WikiVerdict(name, files)
  }

  /** The home-page entry of a file of the section that passed its checks. */
  function Entry(sec: Section, name: string, files: map<string, Doc>, slug: string -> string,
                 render: seq<Token> -> string): ItemEntry
    requires Verdict(sec, name, files).Pass?
  {
    match sec
    case Posts => PostEntry(name, files[name], slug, render)
    case Wiki(gitDate) => WikiEntry(name, files[name], slug, render, gitDate)
  }

  /** Every one of the files passes its checks. */
  predicate AllPass(sec: Section, names: seq<string>, files: map<string, Doc>) {
    forall k | 0 <= k < |names| :: Verdict(sec, names[k], files).Pass?
  }

  /** The home-page entries of a run of files, in the order they were built. */
  function Entries(sec: Section, names: seq<string>, files: map<string, Doc>, slug: string -> string,
                   render: seq<Token> -> string): (entries: seq<ItemEntry>)
    requires AllPass(sec, names, files)
    ensures |entries| == |names|
    decreases |names|
  {
    if |names| == 0 then []
    else
      var init := names[..|names| - 1];
      assert AllPass(sec, init, files) by {
        assert forall k | 0 <= k < |init| :: init[k] == names[k];
      }
      Entries(sec, init, files, slug, render) + [Entry(sec, names[|names| - 1], files, slug, render)]
  }

  /**
   * The pages written for a run of files, in order. Each is rendered with
   * the highlighter set as it stands once its own tokens went through the
   * hook: the initial set plus the files up to and including it.
   */
  ghost function Pages(sec: Section, names: seq<string>, files: map<string, Doc>,
                       slug: string -> string, render: seq<Token> -> string, before: set<string>): (pages: seq<OutputFile>)
    requires forall k | 0 <= k < |names| :: names[k] in files
    ensures |pages| == |names|
    decreases |names|
  {
    if |names| == 0 then []
    else
      var init := names[..|names| - 1];
      assert forall k | 0 <= k < |init| :: init[k] == names[k];
      Pages(sec, init, files, slug, render, before)
        + [PageFile(SrcDir(sec), DistDir(sec), names[|names| - 1], files[names[|names| - 1]], slug, render,
             before + PrismPaths(SrcDir(sec), names, files, slug))]
  }

  /** The generator's state: the highlighter set, the files written and the two entry lists. */
  datatype BuildState = BuildState(
    prismFiles: set<string>,
    written: seq<OutputFile>,
    postEntries: seq<ItemEntry>,
    wikiEntries: seq<ItemEntry>)

  /** The entry list of the section. */
  function Listed(sec: Section, s: BuildState): seq<ItemEntry> {
    if sec.Posts? then s.postEntries else s.wikiEntries
  }

  /** The state once file `name` went through the token hook: it joins the highlighter set when its code needs it. */
  ghost function Rendered(sec: Section, name: string, files: map<string, Doc>, slug: string -> string,
                          s: BuildState): BuildState
    requires name in files
  {
    s.(prismFiles := s.prismFiles +
      (if NeedsPrism(ProcessTokens(files[name].tokens, slug)) then {SourcePath(SrcDir(sec), name)} else {}))
  }

  /** The state once a file that passed its checks has been written and listed. */
  ghost function Recorded(sec: Section, name: string, files: map<string, Doc>, slug: string -> string,
                          render: seq<Token> -> string, s: BuildState): BuildState
    requires Verdict(sec, name, files).Pass?
  {
    var written := s.written + [PageFile(SrcDir(sec), DistDir(sec), name, files[name], slug, render, s.prismFiles)];
    var entry := Entry(sec, name, files, slug, render);
    if sec.Posts? then BuildState(s.prismFiles, written, s.postEntries + [entry], s.wikiEntries)
    else BuildState(s.prismFiles, written, s.postEntries, s.wikiEntries + [entry])
  }

  /**
   * One pass of a content loop. The file is read and rendered, which may add
   * it to the highlighter set, before its front matter is checked; only a
   * file that passes is written and listed.
   */
  ghost function Step(sec: Section, name: string, files: map<string, Doc>, slug: string -> string,
                      render: seq<Token> -> string, s: BuildState): (Outcome<BuildError>, BuildState)
  {
    if name !in files then (Verdict(sec, name, files), s)
    else if Verdict(sec, name, files).Fail? then (Verdict(sec, name, files), Rendered(sec, name, files, slug, s))
    else (Pass, Recorded(sec, name, files, slug, render, Rendered(sec, name, files, slug, s)))
  }

  /** A content loop over `names`: one step per file, stopping at the first failure. */
  ghost function Run(sec: Section, names: seq<string>, files: map<string, Doc>, slug: string -> string,
                     render: seq<Token> -> string, s: BuildState): (Outcome<BuildError>, BuildState)
    decreases |names|
  {
    if |names| == 0 then (Pass, s)
    else
      var before := Run(sec, names[..|names| - 1], files, slug, render, s);
      if before.0.Fail? then before else Step(sec, names[|names| - 1], files, slug, render, before.1)
  }

  /** The loop over the first `n + 1` files: that over the first `n`, then (unless it failed) file `n`. */
  lemma RunNext(sec: Section, names: seq<string>, n: nat, files: map<string, Doc>,
                slug: string -> string, render: seq<Token> -> string, s: BuildState)
    requires n < |names|
    ensures var before := Run(sec, names[..n], files, slug, render, s);
      Run(sec, names[..n + 1], files, slug, render, s) ==
        if before.0.Fail? then before else Step(sec, names[n], files, slug, render, before.1)
  {
    assert names[..n + 1][..n] == names[..n];
  }

  /** Once a prefix of the loop has failed, the files after it change nothing. */
  lemma {:induction false} RunStopsAtFailure(sec: Section, names: seq<string>, k: nat, files: map<string, Doc>,
                                             slug: string -> string, render: seq<Token> -> string, s: BuildState)
    requires k <= |names| && Run(sec, names[..k], files, slug, render, s).0.Fail?
    ensures Run(sec, names, files, slug, render, s) == Run(sec, names[..k], files, slug, render, s)
    decreases |names|
  {
    if k < |names| {
      var init := names[..|names| - 1];
      assert init[..k] == names[..k];
      RunStopsAtFailure(sec, init, k, files, slug, render, s);
    } else {
      assert names[..k] == names;
    }
  }

  /** Appending one element to a sequence that extends `start` by `added`. */
  lemma AppendStep<T>(start: seq<T>, current: seq<T>, added: seq<T>, x: T)
    requires current == start + added
    ensures current + [x] == start + (added + [x])
  {
  }

  /** A step ends as the file's own checks say. */
  lemma StepOutcome(sec: Section, name: string, files: map<string, Doc>, slug: string -> string,
                    render: seq<Token> -> string, s: BuildState)
    ensures Step(sec, name, files, slug, render, s).0 == Verdict(sec, name, files)
  {
  }

  /** All of `names` pass exactly when all but the last do and the last does too. */
  lemma AllPassSnoc(sec: Section, names: seq<string>, files: map<string, Doc>)
    requires |names| > 0
    ensures AllPass(sec, names, files) <==>
      AllPass(sec, names[..|names| - 1], files) && Verdict(sec, names[|names| - 1], files).Pass?
  {
    var init := names[..|names| - 1];
    assert forall k | 0 <= k < |init| :: init[k] == names[k];
    if !AllPass(sec, init, files) {
      var k :| 0 <= k < |init| && !Verdict(sec, init[k], files).Pass?;
      assert !Verdict(sec, names[k], files).Pass?;
    }
  }

  /** Whether the whole loop passes: exactly when every file passes its checks. */
  lemma {:induction false} RunPassesIff(sec: Section, names: seq<string>, files: map<string, Doc>,
                                        slug: string -> string, render: seq<Token> -> string, s: BuildState)
    ensures Run(sec, names, files, slug, render, s).0.Pass? <==> AllPass(sec, names, files)
    decreases |names|
  {
    if |names| > 0 {
      var last := |names| - 1;
      var init := names[..last];
      RunPassesIff(sec, init, files, slug, render, s);
      AllPassSnoc(sec, names, files);
      var before := Run(sec, init, files, slug, render, s);
      if before.0.Pass? {
        StepOutcome(sec, names[last], files, slug, render, before.1);
      }
    }
  }

  /**
   * The last step of a loop whose files all pass: the state before it is
   * that of the loop over all but the last file, which it renders and records.
   */
  lemma RunPassLast(sec: Section, names: seq<string>, files: map<string, Doc>,
                    slug: string -> string, render: seq<Token> -> string, s: BuildState)
    requires |names| > 0 && AllPass(sec, names, files)
    ensures AllPass(sec, names[..|names| - 1], files)
    ensures var name := names[|names| - 1];
      var before := Run(sec, names[..|names| - 1], files, slug, render, s).1;
      Run(sec, names, files, slug, render, s) ==
        (Pass, Recorded(sec, name, files, slug, render, Rendered(sec, name, files, slug, before)))
  {
    AllPassSnoc(sec, names, files);
    RunPassesIff(sec, names[..|names| - 1], files, slug, render, s);
  }

  /** A loop whose files all pass adds to the highlighter set exactly the files whose code needs it. */
  lemma {:induction false} RunPassPrism(sec: Section, names: seq<string>, files: map<string, Doc>,
                                        slug: string -> string, render: seq<Token> -> string, s: BuildState)
    requires AllPass(sec, names, files)
    ensures Run(sec, names, files, slug, render, s).1.prismFiles ==
      s.prismFiles + PrismPaths(SrcDir(sec), names, files, slug)
    decreases |names|
  {
    if |names| > 0 {
      var init := names[..|names| - 1];
      var name := names[|names| - 1];
      RunPassLast(sec, names, files, slug, render, s);
      RunPassPrism(sec, init, files, slug, render, s);
      var before := Run(sec, init, files, slug, render, s).1;
      var rendered := Rendered(sec, name, files, slug, before);
      assert Run(sec, names, files, slug, render, s).1.prismFiles == rendered.prismFiles;
      PrismPathsLast(SrcDir(sec), names, files, slug);
    }
  }

  /** A loop whose files all pass writes one page per file, in order. */
  lemma {:induction false} RunPassWritten(sec: Section, names: seq<string>, files: map<string, Doc>,
                                          slug: string -> string, render: seq<Token> -> string, s: BuildState)
    requires AllPass(sec, names, files)
    ensures Run(sec, names, files, slug, render, s).1.written ==
      s.written + Pages(sec, names, files, slug, render, s.prismFiles)
    decreases |names|
  {
    if |names| > 0 {
      var init := names[..|names| - 1];
      var name := names[|names| - 1];
      RunPassLast(sec, names, files, slug, render, s);
      RunPassWritten(sec, init, files, slug, render, s);
      RunPassPrism(sec, names, files, slug, render, s);
      var before := Run(sec, init, files, slug, render, s).1;
      var rendered := Rendered(sec, name, files, slug, before);
      var page := PageFile(SrcDir(sec), DistDir(sec), name, files[name], slug, render, rendered.prismFiles);
      AppendStep(s.written, before.written, Pages(sec, init, files, slug, render, s.prismFiles), page);
    }
  }

  /** A loop whose files all pass lists each of them in its own section, in order, and leaves the other list alone. */
  lemma {:induction false} RunPassListed(sec: Section, names: seq<string>, files: map<string, Doc>,
                                         slug: string -> string, render: seq<Token> -> string, s: BuildState)
    requires AllPass(sec, names, files)
    ensures var t := Run(sec, names, files, slug, render, s).1;
      && Listed(sec, t) == Listed(sec, s) + Entries(sec, names, files, slug, render)
      && (sec.Posts? ==> t.wikiEntries == s.wikiEntries)
      && (sec.Wiki? ==> t.postEntries == s.postEntries)
    decreases |names|
  {
    if |names| > 0 {
      var init := names[..|names| - 1];
      var name := names[|names| - 1];
      RunPassLast(sec, names, files, slug, render, s);
      RunPassListed(sec, init, files, slug, render, s);
      var before := Run(sec, init, files, slug, render, s).1;
      var entry := Entry(sec, name, files, slug, render);
      AppendStep(Listed(sec, s), Listed(sec, before), Entries(sec, init, files, slug, render), entry);
    }
  }

  /**
   * A loop whose files all pass lists each of them, writes a page for each,
   * and adds to the highlighter set exactly the files whose code needs it.
   */
  lemma RunPassState(sec: Section, names: seq<string>, files: map<string, Doc>,
                     slug: string -> string, render: seq<Token> -> string, s: BuildState)
    requires AllPass(sec, names, files)
    ensures Run(sec, names, files, slug, render, s).0 == Pass
    ensures var t := Run(sec, names, files, slug, render, s).1;
      && t.prismFiles == s.prismFiles + PrismPaths(SrcDir(sec), names, files, slug)
      && t.written == s.written + Pages(sec, names, files, slug, render, s.prismFiles)
      && Listed(sec, t) == Listed(sec, s) + Entries(sec, names, files, slug, render)
      && (sec.Posts? ==> t.wikiEntries == s.wikiEntries)
      && (sec.Wiki? ==> t.postEntries == s.postEntries)
  {
    RunPassesIff(sec, names, files, slug, render, s);
    RunPassPrism(sec, names, files, slug, render, s);
    RunPassWritten(sec, names, files, slug, render, s);
    RunPassListed(sec, names, files, slug, render, s);
  }

  /**
   * A loop that fails at file `k`: the files before it were built and
   * listed, the error is that of file `k`, and file `k` itself went through
   * the token hook (so may have joined the highlighter set) but was neither
   * written nor listed.
   */
  lemma RunFailState(sec: Section, names: seq<string>, k: nat, files: map<string, Doc>,
                     slug: string -> string, render: seq<Token> -> string, s: BuildState)
    requires k < |names| && AllPass(sec, names[..k], files) && Verdict(sec, names[k], files).Fail?
    ensures var (r, t) := Run(sec, names, files, slug, render, s);
      && r == Verdict(sec, names[k], files)
      && t.prismFiles == s.prismFiles + PrismPaths(SrcDir(sec), names[..k + 1], files, slug)
      && t.written == s.written + Pages(sec, names[..k], files, slug, render, s.prismFiles)
      && Listed(sec, t) == Listed(sec, s) + Entries(sec, names[..k], files, slug, render)
      && (sec.Posts? ==> t.wikiEntries == s.wikiEntries)
      && (sec.Wiki? ==> t.postEntries == s.postEntries)
  {
    RunFailPrism(sec, names, k, files, slug, render, s);
    RunFailRecords(sec, names, k, files, slug, render, s);
  }

  /** The failing file went through the token hook, so it may have joined the highlighter set. */
  lemma RunFailPrism(sec: Section, names: seq<string>, k: nat, files: map<string, Doc>,
                     slug: string -> string, render: seq<Token> -> string, s: BuildState)
    requires k < |names| && AllPass(sec, names[..k], files) && Verdict(sec, names[k], files).Fail?
    ensures Run(sec, names, files, slug, render, s).0 == Verdict(sec, names[k], files)
    ensures Run(sec, names, files, slug, render, s).1.prismFiles ==
      s.prismFiles + PrismPaths(SrcDir(sec), names[..k + 1], files, slug)
  {
    RunPassesIff(sec, names[..k], files, slug, render, s);
    RunPassPrism(sec, names[..k], files, slug, render, s);
    RunFailAt(sec, names, k, files, slug, render, s);
    PrismPathsLast(SrcDir(sec), names[..k + 1], files, slug);
    assert names[..k + 1][..k] == names[..k];
  }

  /** The failing file was neither written nor listed. */
  lemma RunFailRecords(sec: Section, names: seq<string>, k: nat, files: map<string, Doc>,
                       slug: string -> string, render: seq<Token> -> string, s: BuildState)
    requires k < |names| && AllPass(sec, names[..k], files) && Verdict(sec, names[k], files).Fail?
    ensures var t := Run(sec, names, files, slug, render, s).1;
      && t.written == s.written + Pages(sec, names[..k], files, slug, render, s.prismFiles)
      && Listed(sec, t) == Listed(sec, s) + Entries(sec, names[..k], files, slug, render)
      && (sec.Posts? ==> t.wikiEntries == s.wikiEntries)
      && (sec.Wiki? ==> t.postEntries == s.postEntries)
  {
    RunPassesIff(sec, names[..k], files, slug, render, s);
    RunPassWritten(sec, names[..k], files, slug, render, s);
    RunPassListed(sec, names[..k], files, slug, render, s);
    RunFailAt(sec, names, k, files, slug, render, s);
  }

  /** A loop that fails at file `k` ends in the state that file's step leaves. */
  lemma RunFailAt(sec: Section, names: seq<string>, k: nat, files: map<string, Doc>,
                  slug: string -> string, render: seq<Token> -> string, s: BuildState)
    requires k < |names| && Run(sec, names[..k], files, slug, render, s).0.Pass?
    requires Verdict(sec, names[k], files).Fail?
    ensures var before := Run(sec, names[..k], files, slug, render, s).1;
      Run(sec, names, files, slug, render, s) ==
        (Verdict(sec, names[k], files),
         if names[k] in files then Rendered(sec, names[k], files, slug, before) else before)
  {
    var prefix := names[..k + 1];
    assert prefix[..k] == names[..k] && prefix[k] == names[k];
    RunStopsAtFailure(sec, names, k + 1, files, slug, render, s);
  }

  /** Sorted by date, latest first, under JavaScript string comparison. */
  ghost predicate ByDateDescending(s: seq<ItemEntry>) {
    forall i, j | 0 <= i < j < |s| :: !Less(s[i].date, s[j].date)
  }

  /** The list items of the entries, in their order. */
  function EntryLines(entries: seq<ItemEntry>): (lines: seq<string>)
    ensures |lines| == |entries|
    ensures forall k | 0 <= k < |entries| :: lines[k] == EntryLine(entries[k])
  {
    seq(|entries|, k requires 0 <= k < |entries| => EntryLine(entries[k]))
  }

  /** The front matter the home page is rendered with. */
  const HomeMeta := PostMeta(
    Some("Web dev and stuff"),
    None,
    Some("A collection of posts and wiki entries about web development and other stuff."),
    Some("home"))

  /** The body of the home page: the two lists, each under its heading. */
  function IndexContent(posts: seq<ItemEntry>, wikis: seq<ItemEntry>): string {
    Join(["<h2>Posts</h2>", "<ul>"] + EntryLines(posts) + ["</ul>", "<h2>Wiki</h2>", "<ul>"] + EntryLines(wikis) + ["</ul>"], "")
  }

  /**
   * The state of the insertion of `s[i]` into the ordered prefix: it has
   * moved down to `j`, `s[..j]` and `s[j..i + 1]` are each latest first, and
   * nothing before `j` is earlier than anything after it.
   */
  ghost predicate Inserting(s: seq<ItemEntry>, i: int, j: int)
    requires 0 <= j <= i < |s|
  {
    && (forall k, m | 0 <= k < m < j :: !Less(s[k].date, s[m].date))
    && (forall k, m | j <= k < m <= i :: !Less(s[k].date, s[m].date))
    && (forall k, m | 0 <= k < j < m <= i :: !Less(s[k].date, s[m].date))
  }

  lemma InsertingStart(s: seq<ItemEntry>, i: int)
    requires 0 <= i < |s| && ByDateDescending(s[..i])
    ensures Inserting(s, i, i)
  {
    assert forall k | 0 <= k < i :: s[..i][k] == s[k];
  }

  /** Swapping the inserted entry with an earlier-dated predecessor keeps the insertion state. */
  lemma InsertingSwap(s: seq<ItemEntry>, i: int, j: int)
    requires 0 < j <= i < |s| && Inserting(s, i, j) && Less(s[j - 1].date, s[j].date)
    ensures Inserting(s[j - 1 := s[j]][j := s[j - 1]], i, j - 1)
    ensures multiset(s[j - 1 := s[j]][j := s[j - 1]]) == multiset(s)
  {
    LessAsymmetric(s[j - 1].date, s[j].date);
  }

  /** Once the inserted entry is not later than its predecessor, `s[..i + 1]` is latest first. */
  lemma InsertingDone(s: seq<ItemEntry>, i: int, j: int)
    requires 0 <= j <= i < |s| && Inserting(s, i, j)
    requires j == 0 || !Less(s[j - 1].date, s[j].date)
    ensures ByDateDescending(s[..i + 1])
  {
    forall k, m | 0 <= k < m <= i
      ensures !Less(s[k].date, s[m].date)
    {
      if k < j - 1 && m == j {
        NotLessTransitive(s[k].date, s[j - 1].date, s[j].date);
      }
    }
  }

  /** One pass of the inner loop: entry `i` moves left past the entries dated earlier than it. */
  method InsertEntry(a: array<ItemEntry>, i: int)
    requires 0 <= i < a.Length && ByDateDescending(a[..i])
    modifies a
    ensures ByDateDescending(a[..i + 1])
    ensures multiset(a[..]) == multiset(old(a[..]))
  {
    InsertingStart(a[..], i);
    var j := i;
    while j > 0 && Less(a[j - 1].date, a[j].date)
      invariant 0 <= j <= i
      invariant Inserting(a[..], i, j)
      invariant multiset(a[..]) == multiset(old(a[..]))
    {
      ghost var s := a[..];
      InsertingSwap(s, i, j);
      a[j - 1], a[j] := a[j], a[j - 1];
      assert a[..] == s[j - 1 := s[j]][j := s[j - 1]];
      j := j - 1;
    }
    InsertingDone(a[..], i, j);
  }

  /**
   * The in-place sort of `printEntrys`: the entries end up latest first and
   * nothing is added or lost.
   */
  method SortByDateDescending(a: array<ItemEntry>)
    modifies a
    ensures ByDateDescending(a[..])
    ensures multiset(a[..]) == multiset(old(a[..]))
  {
    var i := 0;
    while i < a.Length
      invariant 0 <= i <= a.Length
      invariant ByDateDescending(a[..i])
      invariant multiset(a[..]) == multiset(old(a[..]))
    {
      InsertEntry(a, i);
      i := i + 1;
    }
    assert a[..] == a[..a.Length];
  }

  /** `printEntrys`: sorts the array in place, latest first, and renders one list item per entry. */
  method PrintEntries(a: array<ItemEntry>) returns (lines: seq<string>)
    modifies a
    ensures ByDateDescending(a[..])
    ensures multiset(a[..]) == multiset(old(a[..]))
    ensures lines == EntryLines(a[..])
  {
    SortByDateDescending(a);
    lines := EntryLines(a[..]);
  }

  /** The state of one run of the generator. */
  class Site {
    /** The source paths of the pages whose code needs the highlighter (`prismJsSet`). */
    var prismFiles: set<string>
    /** The files written so far, in the order they were written. */
    var written: seq<OutputFile>
    var postEntries: seq<ItemEntry>
    var wikiEntries: seq<ItemEntry>

    function State(): BuildState
      reads this
    {
      BuildState(prismFiles, written, postEntries, wikiEntries)
    }

    constructor ()
      ensures State() == BuildState({}, [], [], [])
    {
      prismFiles := {};
      written := [];
      postEntries := [];
      wikiEntries := [];
    }

    /**
     * The `processAllTokens` hook for the file at `filepath`: each top-level
     * token is rewritten, and the file joins the highlighter set as soon as
     * one of the rewritten code blocks is JavaScript or TypeScript.
     */
    method ProcessAllTokens(filepath: string, tokens: seq<Token>, slug: string -> string) returns (out: seq<Token>)
      modifies this`prismFiles
      ensures out == ProcessTokens(tokens, slug)
      ensures prismFiles == old(prismFiles) + (if NeedsPrism(out) then {filepath} else {})
    {
      out := [];
      var i := 0;
      while i < |tokens|
        invariant 0 <= i <= |tokens|
        invariant out == ProcessTokens(tokens[..i], slug)
        invariant prismFiles == old(prismFiles) + (if NeedsPrism(out) then {filepath} else {})
      {
        var t := tokens[i];
        match t {
          case Code(raw, lang, text) =>
            if lang == "ts" {
              t := Code(raw, "typescript", text);
            }
            if t.lang == "javascript" || t.lang == "typescript" {
              prismFiles := prismFiles + {filepath};
            }
          case Heading(_, _, _, children) =>
            if |children| == 1 && children[0].Text? {
              t := SelfLinked(t, slug);
            }
          case _ =>
        }
        assert t == RewriteToken(tokens[i], slug);
        assert NeedsPrism(out + [t]) <==> NeedsPrism(out) || UsesPrism(t) by {
          var next := out + [t];
          assert next[|out|] == t;
          assert forall k | 0 <= k < |out| :: next[k] == out[k];
        }
        assert ProcessTokens(tokens[..i + 1], slug) == ProcessTokens(tokens[..i], slug) + [t];
        out := out + [t];
        i := i + 1;
      }
      assert tokens[..i] == tokens;
    }

    /** `marked(content, getMarkedOpts(filepath))`: the tokens go through the hook, then the renderer. */
    method Marked(filepath: string, doc: Doc, slug: string -> string, render: seq<Token> -> string) returns (html: string)
      modifies this`prismFiles
      ensures html == Html(doc, slug, render)
      ensures prismFiles == old(prismFiles) +
        (if NeedsPrism(ProcessTokens(doc.tokens, slug)) then {filepath} else {})
    {
      var tokens := ProcessAllTokens(filepath, doc.tokens, slug);
      html := render(tokens);
    }

    /** One pass of the post loop: read, render, the three assertions, write the page, list the post. */
    method BuildPost(name: string, files: map<string, Doc>, slug: string -> string, render: seq<Token> -> string)
      returns (r: Outcome<BuildError>)
      modifies this
      ensures (r, State()) == Step(Posts, name, files, slug, render, old(State()))
    {
      var filepath := SourcePath(SrcPosts, name);
      if name !in files {
        return Fail(ReadFailed(filepath));
      }
      var doc := files[name];
      var html := Marked(filepath, doc, slug, render);
      assert State() == Rendered(Posts, name, files, slug, old(State()));
      match CheckPost(name, doc.data) {
        case Err(e) =>
          return Fail(e);
        case Ok(date) =>
          written := written + [OutputFile(SourcePath(DistPosts, OutputName(name)),
            PageFor(html, doc.data, filepath, prismFiles))];
          postEntries := postEntries + [ItemEntry("/post/" + OutputName(name), doc.data.title.value,
            doc.data.excerpt, date, html)];
          assert State() == Recorded(Posts, name, files, slug, render, Rendered(Posts, name, files, slug, old(State())));
          return Pass;
      }
    }

    /** The post loop: the listing latest first, one post after the other, stopping at the first failure. */
    method BuildPosts(listing: seq<string>, files: map<string, Doc>, slug: string -> string,
                      render: seq<Token> -> string) returns (r: Outcome<BuildError>)
      modifies this
      ensures (r, State()) == Run(Posts, PostOrder(listing), files, slug, render, old(State()))
    {
      var order := PostOrder(listing);
      ghost var s0 := State();
      var n := 0;
      r := Pass;
      while n < |order|
        invariant n <= |order|
        invariant (r, State()) == Run(Posts, order[..n], files, slug, render, s0)
        invariant r.Pass?
      {
        RunNext(Posts, order, n, files, slug, render, s0);
        r := BuildPost(order[n], files, slug, render);
        if r.Fail? {
          RunStopsAtFailure(Posts, order, n + 1, files, slug, render, s0);
          return;
        }
        n := n + 1;
      }
      assert order[..n] == order;
    }

    /**
     * One pass of the wiki loop: read, render, check the title, write the
     * page, then list it under the date its file was added.
     */
    method BuildWikiNote(name: string, files: map<string, Doc>, slug: string -> string,
                         render: seq<Token> -> string, gitDate: string -> string) returns (r: Outcome<BuildError>)
      modifies this
      ensures (r, State()) == Step(Wiki(gitDate), name, files, slug, render, old(State()))
    {
      var filepath := SourcePath(SrcWiki, name);
      if name !in files {
        return Fail(ReadFailed(filepath));
      }
      var doc := files[name];
      var html := Marked(filepath, doc, slug, render);
      assert State() == Rendered(Wiki(gitDate), name, files, slug, old(State()));
      r := CheckWiki(name, doc.data);
      if r.Fail? {
        return;
      }
      written := written + [OutputFile(SourcePath(DistWiki, OutputName(name)),
        PageFor(html, doc.data, filepath, prismFiles))];
      var date := gitDate(filepath);
      wikiEntries := wikiEntries + [ItemEntry("/wiki/" + OutputName(name), doc.data.title.value,
        doc.data.excerpt, date, html)];
      assert State() == Recorded(Wiki(gitDate), name, files, slug, render, Rendered(Wiki(gitDate), name, files, slug, old(State())));
    }

    /** The wiki loop: the listing in sorted order, stopping at the first failure. */
    method BuildWiki(listing: seq<string>, files: map<string, Doc>, slug: string -> string,
                     render: seq<Token> -> string, gitDate: string -> string) returns (r: Outcome<BuildError>)
      modifies this
      ensures (r, State()) == Run(Wiki(gitDate), WikiOrder(listing), files, slug, render, old(State()))
    {
      var order := WikiOrder(listing);
      ghost var s0 := State();
      var n := 0;
      r := Pass;
      while n < |order|
        invariant n <= |order|
        invariant (r, State()) == Run(Wiki(gitDate), order[..n], files, slug, render, s0)
        invariant r.Pass?
      {
        RunNext(Wiki(gitDate), order, n, files, slug, render, s0);
        r := BuildWikiNote(order[n], files, slug, render, gitDate);
        if r.Fail? {
          RunStopsAtFailure(Wiki(gitDate), order, n + 1, files, slug, render, s0);
          return;
        }
        n := n + 1;
      }
      assert order[..n] == order;
    }

    /**
     * The home page: both entry lists are sorted in place, latest first, and
     * the page lists them under their headings.
     */
    method WriteIndex()
      modifies this
      ensures ByDateDescending(postEntries) && multiset(postEntries) == multiset(old(postEntries))
      ensures ByDateDescending(wikiEntries) && multiset(wikiEntries) == multiset(old(wikiEntries))
      ensures prismFiles == old(prismFiles)
      ensures written == old(written) +
        [OutputFile(IndexPath, PageFor(IndexContent(postEntries, wikiEntries), HomeMeta, "index.html", prismFiles))]
    {
      var posts := new ItemEntry[|postEntries|](k requires 0 <= k < |postEntries| reads this => postEntries[k]);
      assert posts[..] == postEntries;
      var postLines := PrintEntries(posts);
      postEntries := posts[..];
      var wikis := new ItemEntry[|wikiEntries|](k requires 0 <= k < |wikiEntries| reads this => wikiEntries[k]);
      assert wikis[..] == wikiEntries;
      var wikiLines := PrintEntries(wikis);
      wikiEntries := wikis[..];
      var content := Join(["<h2>Posts</h2>", "<ul>"] + postLines + ["</ul>", "<h2>Wiki</h2>", "<ul>"] + wikiLines + ["</ul>"], "");
      written := written + [OutputFile(IndexPath, PageFor(content, HomeMeta, "index.html", prismFiles))];
    }
  }

  /** The home page never loads the highlighter: no content file's path is `index.html`. */
  lemma IndexWithoutPrism(dir: string, names: seq<string>, files: map<string, Doc>, slug: string -> string)
    ensures "index.html" !in PrismPaths(dir, names, files, slug)
  {
    forall k | 0 <= k < |names|
      ensures SourcePath(dir, names[k]) != "index.html"
    {
      assert '/' in SourcePath(dir, names[k]);
    }
  }

  /**
   * A whole run: the posts, then (if they all passed) the wiki notes, then
   * (if those passed too) the home page.
   */
  method BuildSite(posts: seq<string>, postFiles: map<string, Doc>, wikis: seq<string>, wikiFiles: map<string, Doc>,
                   slug: string -> string, render: seq<Token> -> string, gitDate: string -> string)
    returns (site: Site, r: Outcome<BuildError>)
    ensures fresh(site)
    ensures r.Pass? <==> AllPass(Posts, PostOrder(posts), postFiles) && AllPass(Wiki(gitDate), WikiOrder(wikis), wikiFiles)
    ensures r.Pass? ==> |site.written| == |posts| + |wikis| + 1 && site.written[|site.written| - 1].path == IndexPath
    ensures r.Pass? ==> multiset(site.postEntries) == multiset(Entries(Posts, PostOrder(posts), postFiles, slug, render))
    ensures r.Pass? ==> multiset(site.wikiEntries) == multiset(Entries(Wiki(gitDate), WikiOrder(wikis), wikiFiles, slug, render))
    ensures r.Pass? ==> ByDateDescending(site.postEntries) && ByDateDescending(site.wikiEntries)
    ensures r.Pass? ==>
      site.written[|site.written| - 1].page ==
      PageFor(IndexContent(site.postEntries, site.wikiEntries), HomeMeta, "index.html", site.prismFiles)
    ensures r.Pass? ==> !site.written[|site.written| - 1].page.prism
  {
    site := new Site();
    ghost var s0 := site.State();
    r := site.BuildPosts(posts, postFiles, slug, render);
    RunPassesIff(Posts, PostOrder(posts), postFiles, slug, render, s0);
    if r.Fail? {
      return;
    }
    RunPassState(Posts, PostOrder(posts), postFiles, slug, render, s0);
    ghost var s1 := site.State();
    assert s1.postEntries == Entries(Posts, PostOrder(posts), postFiles, slug, render);
    assert |s1.written| == |posts|;
    r := site.BuildWiki(wikis, wikiFiles, slug, render, gitDate);
    RunPassesIff(Wiki(gitDate), WikiOrder(wikis), wikiFiles, slug, render, s1);
    if r.Fail? {
      return;
    }
    RunPassState(Wiki(gitDate), WikiOrder(wikis), wikiFiles, slug, render, s1);
    ghost var s2 := site.State();
    assert s2.postEntries == s1.postEntries;
    assert s2.wikiEntries == Entries(Wiki(gitDate), WikiOrder(wikis), wikiFiles, slug, render);
    assert |s2.written| == |posts| + |wikis|;
    IndexWithoutPrism(SrcPosts, PostOrder(posts), postFiles, slug);
    IndexWithoutPrism(SrcWiki, WikiOrder(wikis), wikiFiles, slug);
    assert "index.html" !in s2.prismFiles;
    site.WriteIndex();
  }
}
