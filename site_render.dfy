/**
 * The pure rules of the site generator (scripts/build-site.ts): the token
 * hook given to the Markdown renderer, the post file-name rules, the
 * front-matter checks, the page wrapper and the index list items.
 */
module SiteRender {
  import opened Wrappers
  import opened Strings

  /**
   * The tokens of the Markdown lexer that the token hook tells apart. Any
   * other kind of token (paragraph, list, table, ...) is `Other` and the hook
   * passes it through.
   */
  datatype Token =
    | Code(raw: string, lang: string, text: string)
    | Heading(raw: string, depth: nat, text: string, tokens: seq<Token>)
    | Text(raw: string, text: string)
    | Link(raw: string, href: string, text: string, tokens: seq<Token>)
    | Other(kind: string, raw: string)

  /** A heading whose inline content is exactly one plain-text run. */
  predicate IsPlainHeading(t: Token) {
    t.Heading? && |t.tokens| == 1 && t.tokens[0].Text?
  }

  /** The language a code block ends up with: `ts` is renamed `typescript`. */
  function CodeLanguage(lang: string): (r: string)
    ensures r == "typescript" <==> lang == "ts" || lang == "typescript"
    ensures lang != "ts" ==> r == lang
  {
    if lang == "ts" then "typescript" else lang
  }

  /** A code block whose language makes its page load the Prism highlighter. */
  predicate UsesPrism(t: Token) {
    t.Code? && (t.lang == "javascript" || t.lang == "typescript")
  }

  /** Some token of the list is a code block that needs the highlighter. */
  ghost predicate NeedsPrism(tokens: seq<Token>) {
    exists k | 0 <= k < |tokens| :: UsesPrism(tokens[k])
  }

  /** The `raw` text of the anchor that replaces a plain heading's content. */
  function AnchorRaw(id: string, text: string): string {
    "<a href=\"#" + id + "\">" + text + "</a>"
  }

  /** A plain heading whose content is replaced by one anchor to `#` and its slug, wrapping the text run. */
  function SelfLinked(t: Token, slug: string -> string): (r: Token)
    requires IsPlainHeading(t)
    ensures r.Heading? && r.raw == t.raw && r.depth == t.depth && r.text == t.text
    ensures |r.tokens| == 1 && r.tokens[0].Link?
    ensures r.tokens[0].href == "#" + slug(t.text) && r.tokens[0].text == t.text
    ensures r.tokens[0].tokens == t.tokens
  {
    var id := slug(t.text);
    Heading(t.raw, t.depth, t.text, [Link(AnchorRaw(id, t.text), "#" + id, t.text, [t.tokens[0]])])
  }

  /** What the hook makes of one top-level token. */
  function RewriteToken(t: Token, slug: string -> string): (r: Token)
    ensures t.Code? ==> r.Code? && r.raw == t.raw && r.text == t.text && r.lang == CodeLanguage(t.lang)
    ensures IsPlainHeading(t) ==> r == SelfLinked(t, slug)
    ensures !t.Code? && !IsPlainHeading(t) ==> r == t
  {
    match t
    case Code(_, lang, _) => t.(lang := CodeLanguage(lang))
    case Heading(_, _, _, _) => if IsPlainHeading(t) then SelfLinked(t, slug) else t
    case _ => t
  }

  /** The token list after the hook: each top-level token rewritten in place. */
  function ProcessTokens(tokens: seq<Token>, slug: string -> string): seq<Token> {
    seq(|tokens|, k requires 0 <= k < |tokens| => RewriteToken(tokens[k], slug))
  }

  /** The hook keeps the list's length and changes only code blocks and plain headings. */
  lemma ProcessTokensShape(tokens: seq<Token>, slug: string -> string)
    ensures |ProcessTokens(tokens, slug)| == |tokens|
    ensures forall k | 0 <= k < |tokens| && !tokens[k].Code? && !IsPlainHeading(tokens[k]) ::
      ProcessTokens(tokens, slug)[k] == tokens[k]
  {
  }

  /** Running the hook a second time changes nothing. */
  lemma ProcessTokensIdempotent(tokens: seq<Token>, slug: string -> string)
    ensures ProcessTokens(ProcessTokens(tokens, slug), slug) == ProcessTokens(tokens, slug)
  {
    var once := ProcessTokens(tokens, slug);
    forall k | 0 <= k < |tokens|
      ensures RewriteToken(once[k], slug) == once[k]
    {
      if tokens[k].Heading? && IsPlainHeading(tokens[k]) {
        assert !IsPlainHeading(once[k]);
      }
    }
  }

  /**
   * A page needs the highlighter exactly when one of its top-level code
   * blocks is written in `javascript`, `typescript` or `ts`.
   */
  lemma NeedsPrismIff(tokens: seq<Token>, slug: string -> string)
    ensures NeedsPrism(ProcessTokens(tokens, slug)) <==>
      exists k | 0 <= k < |tokens| :: tokens[k].Code? && tokens[k].lang in ["ts", "javascript", "typescript"]
  {
    var out := ProcessTokens(tokens, slug);
    if NeedsPrism(out) {
      var k :| 0 <= k < |out| && UsesPrism(out[k]);
      assert tokens[k].Code? && tokens[k].lang in ["ts", "javascript", "typescript"];
    }
    if exists k | 0 <= k < |tokens| :: tokens[k].Code? && tokens[k].lang in ["ts", "javascript", "typescript"] {
      var k :| 0 <= k < |tokens| && tokens[k].Code? && tokens[k].lang in ["ts", "javascript", "typescript"];
      assert UsesPrism(out[k]);
    }
  }

  // ---------------------------------------------------------------------
  // Post file names

  /** The file name starts with `YYYY-MM-DD-` (ASCII digits). */
  predicate HasDatePrefix(name: string) {
    && |name| >= 11
    && IsDigit(name[0]) && IsDigit(name[1]) && IsDigit(name[2]) && IsDigit(name[3])
    && name[4] == '-'
    && IsDigit(name[5]) && IsDigit(name[6])
    && name[7] == '-'
    && IsDigit(name[8]) && IsDigit(name[9])
    && name[10] == '-'
  }

  /** The anchored pattern `^\d\d\d\d-\d\d-\d\d-`, one character per position ('d' stands for a digit). */
  const DatePattern := "dddd-dd-dd-"

  /** `s` starts with a match of `pattern`, where 'd' matches any digit and every other character itself. */
  predicate MatchesPattern(s: string, pattern: string) {
    && |pattern| <= |s|
    && forall k | 0 <= k < |pattern| ::
         if pattern[k] == 'd' then IsDigit(s[k]) else s[k] == pattern[k]
  }

  /** The date a post takes from its file name: the first ten characters, when the prefix matches. */
  function PostDate(name: string): (date: Option<string>)
    ensures date.Some? <==> HasDatePrefix(name)
    ensures date.Some? ==> date.value == name[..10] && |date.value| == 10
  {
    assert MatchesPattern(name, DatePattern) <==> HasDatePrefix(name) by {
      if HasDatePrefix(name) {
        forall k | 0 <= k < |DatePattern|
          ensures if DatePattern[k] == 'd' then IsDigit(name[k]) else name[k] == DatePattern[k]
        {
          assert k in {0, 1, 2, 3, 4, 5, 6, 7, 8, 9, 10};
        }
      }
      if MatchesPattern(name, DatePattern) {
        assert DatePattern[0] == 'd' && DatePattern[4] == '-' && DatePattern[10] == '-';
      }
    }
    if MatchesPattern(name, DatePattern) then Some(name[..10]) else None
  }

  /** `name.replace('.md', '.html')`: the first `.md` becomes `.html`. */
  function OutputName(name: string): string {
    ReplaceFirst(name, ".md", ".html")
  }

  /** A Markdown file name whose stem holds no `.md` gets the stem plus `.html`. */
  lemma OutputNameOfMarkdown(stem: string)
    requires Absent(stem, ".md")
    ensures OutputName(stem + ".md") == stem + ".html"
  {
    var s := stem + ".md";
    assert OccursAt(s, ".md", |stem|) by {
      assert s[|stem|..|stem| + 3] == ".md";
    }
    forall j | 0 <= j < |stem|
      ensures !OccursAt(s, ".md", j)
    {
      if j + 3 <= |stem| {
        assert s[j..j + 3] == stem[j..j + 3];
        assert !OccursAt(stem, ".md", j);
      } else {
        // The occurrence would have to run into the appended ".md", whose
        // '.' is not one of "md".
        assert s[|stem|] == '.';
      }
    }
    assert FirstOccurrence(s, ".md", |stem|);
    assert s[..|stem|] == stem;
  }

  // ---------------------------------------------------------------------
  // Front matter and the page wrapper

  /** The front-matter fields the generator reads; a missing key is `None`. */
  datatype PostMeta = PostMeta(title: Option<string>, date: Option<string>, excerpt: Option<string>, kind: Option<string>)

  /** JavaScript truthiness of an optional string: present and non-empty. */
  predicate Truthy(v: Option<string>) {
    v.Some? && v.value != ""
  }

  /** `v ?? fallback`: only a missing value falls back (an empty string does not). */
  function OrElse(v: Option<string>, fallback: string): (r: string)
    ensures v.Some? ==> r == v.value
    ensures v.None? ==> r == fallback
  {
    match v
    case Some(s) => s
    case None => fallback
  }

  predicate IsHome(data: PostMeta) {
    data.kind == Some("home")
  }

  /** The choices the page template makes. */
  datatype Page = Page(
    title: string,
    description: Option<string>,
    prism: bool,
    wrapper: string,
    preamble: Option<string>,
    content: string)

  /** What `surroundWithHtml` decides from the front matter, the file path and the highlighter set. */
  function PageFor(content: string, data: PostMeta, filepath: string, prismFiles: set<string>): (p: Page)
    ensures p.title == OrElse(data.title, "no-title")
    ensures p.description.Some? <==> Truthy(data.excerpt)
    ensures p.description.Some? ==> p.description.value == data.excerpt.value
    ensures p.prism <==> filepath in prismFiles
    ensures p.wrapper == "main" <==> IsHome(data)
    ensures p.wrapper in {"main", "article"}
    ensures p.preamble.Some? <==> IsHome(data)
    ensures p.preamble.Some? ==> p.preamble.value == OrElse(data.excerpt, "no exerpt")
    ensures p.content == content
  {
    var home := data.kind == Some("home");
    Page(
      OrElse(data.title, "no-title"),
      if Truthy(data.excerpt) then Some(data.excerpt.value) else None,
      filepath in prismFiles,
      if home then "main" else "article",
      if home then Some(OrElse(data.excerpt, "no exerpt")) else None,
      content)
  }

  /** The fixed markup of the page template, between the parts a page chooses. */
  datatype Texts = Texts(
    documentStart: string,
    markdownCss: string,
    pageStyles: string,
    prismAssets: string,
    siteHeader: string,
    documentEnd: string)

  /** The markup of this site's template. */
  const SiteTexts := Texts(
    // everything of the document before the title text
    "<!DOCTYPE html>\n<html lang=\"en\">\n<head>\n    <meta charset=\"UTF-8\">\n    <meta name=\"viewport\" content=\"width=device-width, initial-scale=1\">\n    <title>",
    "<link rel=\"stylesheet\" href=\"https://cdnjs.cloudflare.com/ajax/libs/github-markdown-css/5.6.1/github-markdown.min.css\">",
    // stand-in for the inline style sheet, which no rule depends on
    "<style>/* layout, colour scheme and heading-link rules */</style>",
    "<link rel=\"stylesheet\" href=\"https://cdnjs.cloudflare.com/ajax/libs/prism/1.29.0/themes/prism-tomorrow.min.css\">\n<script src=\"https://cdnjs.cloudflare.com/ajax/libs/prism/1.29.0/prism.min.js\"></script>\n<script src=\"https://cdnjs.cloudflare.com/ajax/libs/prism/1.29.0/components/prism-javascript.min.js\"></script>\n<script src=\"https://cdnjs.cloudflare.com/ajax/libs/prism/1.29.0/components/prism-typescript.min.js\"></script>",
    "<header>\n        <a href=\"/webdevandstuff\">Web dev and stuff</a>\n        <a href=\"https://github.com/antonk52\" target=\"_blank\">GitHub</a>\n        <a href=\"https://twitter.com/antonk52\" target=\"_blank\">Twitter</a>\n    </header>",
    // the closing of the document after the wrapper element's name
    ">\n</body>\n</html>\n")

  /** The description meta tag: present when the excerpt is truthy. */
  function DescriptionTag(description: Option<string>): string {
    match description
    case Some(excerpt) => "<meta name=\"description\" content=\"" + excerpt + "\">"
    case None => ""
  }

  /** The excerpt paragraph of the home page. */
  function PreambleTag(preamble: Option<string>): string {
    match preamble
    case Some(text) => "<p>" + text + "</p>"
    case None => ""
  }

  /** The document after its `<title>` element, up to the opening tag of the wrapper element. */
  function HeadRest(t: Texts, p: Page): string {
    "\n    " + DescriptionTag(p.description) + "\n    " + t.markdownCss + "\n    " + t.pageStyles + "\n    " +
    (if p.prism then t.prismAssets else "") + "\n</head>\n\n<body>\n    " + t.siteHeader + "\n\n    "
  }

  /** The opening tag of the wrapper element and the page's `<h1>` heading. */
  function WrapperOpening(p: Page): string {
    "<" + p.wrapper + " class=\"markdown-body\">\n        <h1>" + p.title + "</h1>"
  }

  /** The rest of the wrapper element: the home page's preamble and the content. */
  function ArticleRest(p: Page): string {
    "\n        " + PreambleTag(p.preamble) + "\n        " + p.content + "\n    "
  }

  /** The document up to the end of its `<title>` element. */
  function PageOpening(t: Texts, p: Page): string {
    t.documentStart + p.title + "</title>"
  }

  /** The closing tag of the wrapper element and the end of the document. */
  function PageClosing(t: Texts, p: Page): string {
    "</" + p.wrapper + t.documentEnd
  }

  /** The document template filled in with the page's choices. */
  function RenderPage(t: Texts, p: Page): string {
    (PageOpening(t, p) + HeadRest(t, p)) + WrapperOpening(p) + (ArticleRest(p) + PageClosing(t, p))
  }

  /** `surroundWithHtml(content, data, filepath)`, given the highlighter set as it is at that moment. */
  function SurroundWithHtml(content: string, data: PostMeta, filepath: string, prismFiles: set<string>): string {
    RenderPage(SiteTexts, PageFor(content, data, filepath, prismFiles))
  }

  /** Where the five parts of a rendered page sit in it. */
  lemma PageParts(opening: string, head: string, wrapper: string, rest: string, closing: string)
    ensures var s := (opening + head) + wrapper + (rest + closing);
      && s[..|opening|] == opening
      && s[|s| - |closing|..] == closing
      && OccursAt(s, wrapper, |opening| + |head|)
      && |opening| + |head| + |wrapper| <= |s| - |closing|
  {
    var s := (opening + head) + wrapper + (rest + closing);
    assert s[|opening| + |head|..|opening| + |head| + |wrapper|] == wrapper;
  }

  /** A page opens with the document head up to its `<title>` element, which holds the page's title. */
  lemma RenderOpens(t: Texts, p: Page)
    ensures var opening := t.documentStart + p.title + "</title>";
      |opening| <= |RenderPage(t, p)| && RenderPage(t, p)[..|opening|] == opening
  {
    PageParts(PageOpening(t, p), HeadRest(t, p), WrapperOpening(p), ArticleRest(p), PageClosing(t, p));
  }

  /** A page ends by closing its wrapper element, then the body and the document. */
  lemma RenderCloses(t: Texts, p: Page)
    ensures var closing := "</" + p.wrapper + t.documentEnd;
      |closing| <= |RenderPage(t, p)| && RenderPage(t, p)[|RenderPage(t, p)| - |closing|..] == closing
  {
    PageParts(PageOpening(t, p), HeadRest(t, p), WrapperOpening(p), ArticleRest(p), PageClosing(t, p));
  }

  /**
   * Between its head and its closing tag, a page opens its wrapper element
   * (`main` or `article`), which starts with the page's title as its `<h1>`
   * heading.
   */
  lemma RenderWrapper(t: Texts, p: Page)
    ensures var at := |PageOpening(t, p)| + |HeadRest(t, p)|;
      && OccursAt(RenderPage(t, p), WrapperOpening(p), at)
      && at + |WrapperOpening(p)| <= |RenderPage(t, p)| - |PageClosing(t, p)|
  {
    PageParts(PageOpening(t, p), HeadRest(t, p), WrapperOpening(p), ArticleRest(p), PageClosing(t, p));
  }

  /** The page depends on the highlighter set only through whether the file is in it. */
  lemma SurroundDependsOnMembership(content: string, data: PostMeta, filepath: string, s1: set<string>, s2: set<string>)
    requires filepath in s1 <==> filepath in s2
    ensures PageFor(content, data, filepath, s1) == PageFor(content, data, filepath, s2)
  {
  }

  // ---------------------------------------------------------------------
  // Index entries

  /** The summary of a post or wiki note listed on the home page. */
  datatype ItemEntry = ItemEntry(href: string, title: string, excerpt: Option<string>, date: string, html: string)

  /** The `<li>` line `printEntrys` renders for one entry. */
  function EntryLine(e: ItemEntry): string {
    "<li><a href=\"." + e.href + "\">" + e.title + "</a>" + (if e.date != "" then " - " + e.date else "") + "</li>"
  }

  /** A line ends in ` - ` and the date exactly when the date is non-empty. */
  lemma EntryLineShowsDate(e: ItemEntry)
    ensures var line := EntryLine(e);
      var tail := " - " + e.date + "</li>";
      e.date != "" <==> |tail| <= |line| && line[|line| - |tail|..] == tail
  {
    var line := EntryLine(e);
    var tail := " - " + e.date + "</li>";
    if e.date == "" {
      assert line == "<li><a href=\"." + e.href + "\">" + e.title + "</a></li>";
      assert line[|line| - |tail|] == '/';
    }
  }
}
