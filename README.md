# webdevandstuff: a verified model of the site build, the wiki tag index and the client script

This project models, in Dafny, the three programs at the heart of the
"Web dev and stuff" blog.

- **The static-site generator** (`scripts/build-site.ts`) does four things:
  - It runs a token hook on every Markdown file. The hook renames `ts` code blocks to `typescript`, marks the page as needing the Prism highlighter when a block is JavaScript or TypeScript, and turns every plain heading into a self-link.
  - It builds the posts (latest file name first) and then the wiki notes (in name order). It checks the front matter of each file and stops at the first failed assertion. Each file is wrapped in the page template and written, and an entry is pushed onto the home-page list.
  - It sorts both entry lists in place, latest date first.
  - It writes the home page.
- **The wiki tag indexer** (`build.ts`) works in four steps:
  - It reads a title and the tags of every note.
  - It groups the notes by tag, like the `reduce` into `tagMap`.
  - It renders one collapsible `<details>` section per tag, in tag-name order.
  - It replaces everything after the `\n## Tags:\n\n` marker of the README with those sections.
- **The client script** (`src/js/main.js`) does three things:
  - It picks each image's source from its breakpoint list (`<N:url` / `>N:url` entries), using the screen width and pixel density.
  - It picks the header background size.
  - It wires up the navigation toggle.

Modules:

- `Wrappers` holds `Option`, `Result` and `Outcome`.
- `Strings` holds JavaScript's `indexOf`, `replace` with a string pattern, `split`, `join`, `'' + n` and `Number(s)`.
- `Ordering` holds JavaScript `<` on strings and `sort`.
- `SiteRender` holds the pure rules of the generator: the token hook, post names, front-matter defaults and the page template.
- `SiteBuild` holds the generator's loops. The generator's mutable state is a class `Site`:
  - `prismFiles` (the script's `prismJsSet`);
  - the files written so far;
  - the two entry lists.

  Its methods are proved against the functional specification `Step`/`Run`. `printEntrys` is an in-place insertion sort on an array.
- `TagIndex` models `build.ts`.
- `ClientScript` models `src/js/main.js`. Images, the header and navigation elements are classes whose fields the script assigns.

The client script's library calls are modelled two ways: as a short recursive scan and as a general definition. Each of `replace(":", "||")`, `split(",")`, `split("||")` and `indexOf("//")` is a scan that a lemma proves equal to the general `Strings` operation (`ReplaceColonAsWritten`, `PiecesAsWritten`, `BarPiecesAsWritten`, `DoubleSlashAsWritten`). The regex head `split(/:(.+)/)[0]` has no `Strings` counterpart: `RegexHeadFirstColon` describes its scan directly, as the text before the first colon that has a character other than a line terminator after it.

Two facts about the code that a reader might not expect:

- **Post date.** A post's date comes only from its `YYYY-MM-DD-` file-name prefix. A post without that prefix fails its assertion even when its front matter has a `date`. The `?? parsed.data.date` fallback of scripts/build-site.ts:121 can never be reached.
- **Note title.** A note's title comes from the first match of `/#\s.*/`. That match can start anywhere in the body, not only at a first-level heading at the start of a line. Its `\s` may even be a newline, in which case the title is the line after it.

## Model

| member | source | states |
|---|---|---|
| Strings.IndexOf | src/js/main.js:110 | `indexOf`: the result is the first index where the pattern occurs, and it is -1 exactly when the pattern occurs nowhere |
| Strings.ReplaceFirstAt | src/js/main.js:115 | `replace` with a string pattern, when the first occurrence is at `i`: the text before `i`, then the replacement, then the text after that occurrence |
| Strings.ReplaceFirstAbsent | src/js/main.js:115 | `replace` leaves a text without the pattern unchanged |
| Strings.Split | build.ts:78-82 | `split` gives at least one piece; joining the pieces with the separator gives back the text; the first piece is everything before the first separator |
| Strings.SplitPiecesAbsent | build.ts:82 | no piece of a split contains the separator |
| Strings.SplitJoin | src/js/main.js:34 | splitting at a one-character separator undoes joining pieces that do not contain it |
| Strings.SplitAt | build.ts:82 | with the first separator placed after `a`, the split is `a` followed by the split of the rest |
| Strings.NatToString | build.ts:69 | `'' + n` is a non-empty string of decimal digits without a leading zero |
| Strings.ToNumber | src/js/main.js:48 | `Number(s)` is a number exactly when `s` is a digit string (NaN otherwise) |
| Strings.NatToStringRoundTrip | src/js/main.js:48 | `Number('' + n)` is `n` |
| Ordering.LessTotal | build.ts:55 | string `<` is total: of two different strings, one sorts before the other |
| Ordering.LessTransitive | build.ts:55 | string `<` is transitive |
| Ordering.Insert | build.ts:55 | inserting into an ascending sequence keeps it ascending and adds exactly the new element |
| Ordering.Sort | build.ts:55 | `sort()` returns an ascending permutation of its input |
| Ordering.AscendingPermutationUnique | build.ts:55 | two ascending permutations of the same strings are equal, so the order does not depend on the sorting algorithm |
| Ordering.ReverseSortDescending | scripts/build-site.ts:95 | `sort().reverse()` lists the same names in descending order |
| SiteRender.CodeLanguage | scripts/build-site.ts:50-52 | a code block's language becomes `typescript` exactly when it was `ts` or `typescript`; every other language is kept |
| SiteRender.SelfLinked | scripts/build-site.ts:56-70 | a plain heading keeps its raw text, depth and text, and gets one link token to `#` plus the slug of its text, wrapping the original text token |
| SiteRender.RewriteToken | scripts/build-site.ts:47-75 | code blocks only change language; plain headings become self-links; every other token is returned as it is |
| SiteRender.ProcessTokensShape | scripts/build-site.ts:47 | the hook keeps the number of tokens and leaves every token that is neither code nor a plain heading in place |
| SiteRender.ProcessTokensIdempotent | scripts/build-site.ts:46-77 | running the hook twice gives what running it once gives |
| SiteRender.NeedsPrismIff | scripts/build-site.ts:53 | a page is added to the highlighter set exactly when one of its code blocks is `ts`, `javascript` or `typescript` |
| SiteRender.PostDate | scripts/build-site.ts:108-111 | a post has a date exactly when its name starts with `YYYY-MM-DD-`; the date is the first ten characters |
| SiteRender.OutputNameOfMarkdown | scripts/build-site.ts:115 | `name.replace('.md', '.html')` turns `stem.md` into `stem.html` when the stem holds no `.md` |
| SiteRender.OrElse | scripts/build-site.ts:212 | `??` falls back only on a missing value |
| SiteRender.PageFor | scripts/build-site.ts:205-282 | the page title is the front-matter title or `no-title`; there is a description exactly when the excerpt is truthy; Prism is loaded exactly when the file is in the highlighter set; the wrapper is `main` with a preamble exactly for the home page, `article` otherwise; the content is kept |
| SiteRender.RenderOpens | scripts/build-site.ts:207-212 | every page starts with the document head up to a `<title>` holding the page title |
| SiteRender.RenderCloses | scripts/build-site.ts:278-282 | every page ends by closing its wrapper element, then the body and the document |
| SiteRender.RenderWrapper | scripts/build-site.ts:274-278 | after the head, and before the closing tag at the end, the page opens the same wrapper element with the page title as its `<h1>` |
| SiteRender.SurroundDependsOnMembership | scripts/build-site.ts:264 | the page depends on the highlighter set only through whether its own path is in it |
| SiteRender.EntryLineShowsDate | scripts/build-site.ts:195 | an index line ends in ` - date</li>` exactly when the date is non-empty |
| SiteBuild.SourcePathInjective | scripts/build-site.ts:100 | two files of one directory share a path only when they share a name |
| SiteBuild.CheckPost | scripts/build-site.ts:106-112 | a post passes exactly when title and excerpt are truthy and the name has a date prefix; the first failing assertion gives the error; a pass yields the date |
| SiteBuild.CheckWiki | scripts/build-site.ts:139 | a wiki note passes exactly when its title is truthy |
| SiteBuild.PostEntry | scripts/build-site.ts:118-124 | a post's entry links to `/post/` and its `.html` name, and carries its title, its file-name date and its excerpt |
| SiteBuild.WikiEntry | scripts/build-site.ts:147-157 | a wiki entry links to `/wiki/` and its `.html` name, and is dated by the date its file was added |
| SiteBuild.OwnPrismFlag | scripts/build-site.ts:53 | a page the hook flags is in the highlighter set by the time its own page is wrapped |
| SiteBuild.PostOrderIsDescending | scripts/build-site.ts:95 | the post loop visits every listed file once, in descending name order |
| SiteBuild.WikiOrder | scripts/build-site.ts:128 | the wiki loop visits the files in ascending name order |
| SiteBuild.RunNext | scripts/build-site.ts:99-125 | the loop over `n + 1` files is the loop over `n`, then file `n` unless the loop already failed |
| SiteBuild.RunStopsAtFailure | scripts/build-site.ts:106-112 | once a file fails, the files after it change nothing |
| SiteBuild.RunPassesIff | scripts/build-site.ts:99-158 | a content loop passes exactly when every file passes its checks |
| SiteBuild.RunPassState | scripts/build-site.ts:99-158 | a passing loop writes one page per file in order, lists every file in its own section in order, leaves the other list alone, and adds exactly the flagged files to the highlighter set |
| SiteBuild.RunFailState | scripts/build-site.ts:99-158 | a loop failing at file `k` reports file `k`'s error; the files before it are written and listed; file `k` is flagged if its code needs it but is neither written nor listed |
| SiteBuild.EntryLines | scripts/build-site.ts:195 | one `<li>` line per entry, in order |
| SiteBuild.InsertingSwap | scripts/build-site.ts:194 | swapping the inserted entry past an earlier-dated neighbour keeps the insertion state and the multiset of entries |
| SiteBuild.InsertingDone | scripts/build-site.ts:194 | once the inserted entry is no later than its neighbour, the prefix is latest first |
| SiteBuild.InsertEntry | scripts/build-site.ts:194 | one insertion pass extends the latest-first prefix by one entry and permutes the array |
| SiteBuild.SortByDateDescending | scripts/build-site.ts:194 | the array is sorted in place, latest date first under string `<`, and is a permutation of what it was |
| SiteBuild.PrintEntries | scripts/build-site.ts:192-196 | `printEntrys` sorts its array in place, latest first, and returns one line per entry of the sorted array |
| SiteBuild.Site.constructor | scripts/build-site.ts:38 | a run starts with an empty highlighter set, nothing written and empty entry lists |
| SiteBuild.Site.ProcessAllTokens | scripts/build-site.ts:46-77 | the hook's map returns the rewritten tokens and adds the file to the highlighter set exactly when they need it |
| SiteBuild.Site.Marked | scripts/build-site.ts:104 | rendering a file passes its tokens through the hook and flags it when its code needs the highlighter |
| SiteBuild.Site.BuildPost | scripts/build-site.ts:99-125 | one post: the outcome and the new state are those of `Step` |
| SiteBuild.Site.BuildPosts | scripts/build-site.ts:95-125 | the post loop ends with the outcome and the state of `Run` over the names, latest first |
| SiteBuild.Site.BuildWikiNote | scripts/build-site.ts:132-158 | one wiki note: the outcome and the new state are those of `Step` |
| SiteBuild.Site.BuildWiki | scripts/build-site.ts:128-158 | the wiki loop ends with the outcome and the state of `Run` over the names in order |
| SiteBuild.Site.WriteIndex | scripts/build-site.ts:160-184 | both entry lists are sorted in place, latest first, as permutations; the home page with both lists under their headings is written last; the highlighter set is unchanged |
| SiteBuild.IndexWithoutPrism | scripts/build-site.ts:181 | the home page never loads the highlighter |
| SiteBuild.BuildSite | scripts/build-site.ts:83-184 | a build passes exactly when every post and every wiki note passes. A passing build writes one page per file and the home page last, with each entry list a latest-first permutation of its files' entries. The home page lists the sorted entries under their headings and never loads the highlighter |
| TagIndex.HeadingFrom | build.ts:32 | the search finds the first place where `#` and whitespace occur, or reports that there is none |
| TagIndex.LineLength | build.ts:32 | `.*` matches up to the next line terminator |
| TagIndex.ExtractTitle | build.ts:31-32 | the title is the rest of the line after the first `#` and whitespace; the file name is used when there is no such match or that rest is empty |
| TagIndex.TitleOneLine | build.ts:31-32 | a title taken from the body never holds a newline |
| TagIndex.ToNote | build.ts:34-38 | a note keeps its file path and its list of tags; a file without `tags`, or with a falsy value, has none |
| TagIndex.Notes | build.ts:25-42 | `Promise.all` keeps the listing order: note `k` is file `k`'s |
| TagIndex.AllTagsHas | build.ts:44 | a tag is seen exactly when some note has it |
| TagIndex.Distinct | build.ts:54 | the keys are the tags seen, each once |
| TagIndex.TaggedMembers | build.ts:43-52 | the notes under a tag are exactly the notes that carry it |
| TagIndex.TaggedAbsent | build.ts:43-52 | a tag no note has lists nothing |
| TagIndex.GroupNote | build.ts:43-52 | after all tags of note `i`, the map is that of the first `i + 1` notes |
| TagIndex.GroupByTag | build.ts:43-52 | the reduce yields, for every tag some note has, the notes carrying it in listing order (once per occurrence), and the keys are exactly the distinct tags |
| TagIndex.ReduceNote | build.ts:44-51 | one step of the reduce: from the map of the notes before this one, it builds the map of the notes up to and including it. Its keys are exactly their tags, in order of first appearance, and each tag lists the notes carrying it in listing order |
| TagIndex.DetailsIgnoreKeyOrder | build.ts:54-55 | the rendered sections depend only on which keys there are, not on the order they are listed in, since they are sorted first |
| TagIndex.SectionNames | build.ts:54-56 | there is a section for exactly the tags some note has |
| TagIndex.SectionOrder | build.ts:54-55 | the sections come in strictly ascending tag order |
| TagIndex.DistinctOnce | build.ts:54 | a key occurs once among the keys |
| TagIndex.Items | build.ts:58-66 | one list item per note, in order |
| TagIndex.ItemsCount | build.ts:58-66 | every item of a section is a list-item line |
| TagIndex.SectionJoin | build.ts:68-74 | a section is its summary, list opening, items and closings joined by newlines |
| TagIndex.SectionItemCount | build.ts:68-74 | a section has one list-item line per note |
| TagIndex.SectionCount | build.ts:68-74 | split into lines, a section's summary shows the number of list-item lines under it |
| TagIndex.ReadmeText | build.ts:79 | an unreadable README counts as `# Readme\n` |
| TagIndex.Kept | build.ts:78-84 | the kept text is a prefix of the README |
| TagIndex.KeptAt | build.ts:82-84 | with a marker in the README, the kept text is everything before the first one |
| TagIndex.KeptWhole | build.ts:82-84 | without a marker, the whole README is kept |
| TagIndex.KeptClean | build.ts:82-84 | the kept text holds no marker |
| TagIndex.SpliceKeepsPrefix | build.ts:84 | the new README is the old one up to its first marker, then the marker and the sections |
| TagIndex.SpliceWithoutMarker | build.ts:84 | a README without a marker is kept whole, followed by the marker and the sections |
| TagIndex.SplicedMarker | build.ts:84 | in the written README the first marker is the one written, unless the kept text ends in `\n## Tags:\n` |
| TagIndex.SpliceIdempotent | build.ts:78-86 | splicing the same sections again changes nothing exactly when the kept text does not end in `\n## Tags:\n` |
| TagIndex.SpliceShrinks | build.ts:78-86 | when the kept text does end that way, a second run makes the README shorter |
| TagIndex.PartialMarkerNotIdempotent | build.ts:10 | a README that is just `\n## Tags:\n` changes on the second run |
| TagIndex.BuildReadme | build.ts:22-87 | a run writes nothing exactly when some file's `tags` is a truthy value that is not a list, on which `note.tags.forEach` throws; otherwise it writes the README of the notes in listing order: the kept text, the marker and the sorted tag sections |
| TagIndex.RerunIdempotent | build.ts:22-87 | after a run that writes, rerunning the indexer on the same notes and the README it wrote reproduces that README, unless the kept text ends in `\n## Tags:\n` |
| ClientScript.Image.constructor | src/js/main.js:23 | an image has the attributes and `src` it is created with |
| ClientScript.ListAttribute | src/js/main.js:24 | the list comes from `data-src2x` exactly on a dense screen whose image has one, otherwise from `data-src` |
| ClientScript.BaseAttribute | src/js/main.js:25 | the base comes from `data-src-base2x` exactly on a dense screen whose image has one, otherwise from `data-src-base` |
| ClientScript.ReplaceColonAsWritten | src/js/main.js:37 | the colon scan is `replace` of the first colon by two bars |
| ClientScript.PiecesAsWritten | src/js/main.js:34 | the comma scan is `split(",")` |
| ClientScript.BarPiecesAsWritten | src/js/main.js:37 | the bar scan is `split` at every pair of bars |
| ClientScript.HalvesAsWritten | src/js/main.js:37-39 | an entry's condition and URL are the first two pieces of the replace-then-split |
| ClientScript.BoundAfterAsWritten | src/js/main.js:43-48 | a bound is `Number` of the second piece of splitting the condition at the sign |
| ClientScript.ContainsChar | src/js/main.js:42 | `p.indexOf("<") !== -1` holds exactly when `p` has a `<` |
| ClientScript.DoubleSlashAsWritten | src/js/main.js:62 | the double-slash scan is `d.indexOf("//") !== -1` |
| ClientScript.RegexHeadFirstColon | src/js/main.js:46 | `split(/:(.+)/)[0]` is everything before the first colon that has a character after it |
| ClientScript.FirstTrueIsFirst | src/js/main.js:36-67 | the loop stops at the first entry that matches |
| ClientScript.FirstMatchIsFirst | src/js/main.js:36-67 | the selected entry matches, no entry before it does, and without a selection no entry matches at all |
| ClientScript.SelectSource | src/js/main.js:36-67 | the entry loop returns the choice of the first matching entry: its URL, resolved against the base unless it holds `//`; a matched entry without a URL throws |
| ClientScript.MatchesPrefix | src/js/main.js:45-58 | whether an entry matches depends only on it and its two neighbours |
| ClientScript.SelectionIgnoresLater | src/js/main.js:66 | entries beyond the neighbour of the first match do not change the choice |
| ClientScript.ImageChoice | src/js/main.js:31 | an image without the list attribute is left alone |
| ClientScript.Applied | src/js/main.js:65 | `src` is set only when an entry was chosen |
| ClientScript.RespondImage | src/js/main.js:23-68 | one image: its `src` becomes the chosen URL, and the pass throws exactly when the matched entry has no URL |
| ClientScript.MakeImagesResponsive | src/js/main.js:4-70 | every image up to the first that throws gets its chosen `src`; that image and the ones after it keep theirs; the call throws exactly when some image's choice throws |
| ClientScript.ConditionBounds | src/js/main.js:43-58 | a written condition reads back its bound at its own sign and no bound at the other |
| ClientScript.EntryHalves | src/js/main.js:37-39 | a written entry splits back into its condition and its URL |
| ClientScript.EntryRegexHead | src/js/main.js:46 | the neighbour test reads a written entry's condition back |
| ClientScript.ReadBack | src/js/main.js:36-67 | for a written-out list, the script's test on each entry is exactly what the list means, and the URL it picks is that entry's own |
| ClientScript.SplitEntries | src/js/main.js:34 | the attribute value of a written-out list splits back into its entries |
| ClientScript.FirstFit | src/js/main.js:80-86 | the size loop finds the first size that fits the header, with none before it fitting |
| ClientScript.SmallestFit | src/js/main.js:72-89 | the picked size fits and is no larger in either dimension than any size that fits; when none fits, `1920x800` is used |
| ClientScript.Header.PickSize | src/js/main.js:78-86 | the loop returns the name of the first fitting size, or the default |
| ClientScript.Header.PaintBackground | src/js/main.js:87-88 | the background becomes the image of the picked size, named after `data-background` (`undefined` when the header has none) |
| ClientScript.HeaderBackground | src/js/main.js:72-89 | the call throws exactly when there is no `#masthead` header; otherwise the header gets the background of its size |
| ClientScript.Element.Toggle | src/js/main.js:113-118 | a click gives the container the toggled class name and leaves its visibility alone |
| ClientScript.NavMenuIdempotent | src/js/main.js:110-111 | after the first application the menu has `nav-menu`; applying it again, or to a menu that already had it, changes nothing |
| ClientScript.ToggleAdds | src/js/main.js:116-117 | a click on a container without `toggled` appends ` toggled` |
| ClientScript.AddedToggleFirst | src/js/main.js:115 | the ` toggled` a click added is the first one in the class name |
| ClientScript.ToggleTwiceRestores | src/js/main.js:113-118 | two clicks on a container without `toggled` restore its class name |
| ClientScript.Navigation | src/js/main.js:91-119 | the function changes nothing without a container or a heading; without a menu it hides the heading and changes nothing else on it; otherwise it ensures `nav-menu` on the menu, keeps both elements' visibility and the heading's class name, and makes the heading clickable |
| ClientScript.PaintPage | src/js/main.js:175-177 | the header background, then the images: without a header the call throws and every image keeps its `src`; otherwise the header gets its background, and the images get their chosen `src` up to the first that throws |
| ClientScript.OnLoad | src/js/main.js:175-178 | the header background is set first; without a header the call throws and no image or menu changes. Otherwise every image gets its chosen `src` up to the first that throws. The navigation runs only when nothing threw, and then with all of `Navigation`'s outcomes, what it leaves unchanged included |

## Left out

- Reading directories and files, creating folders, `cp -a` of the images and writing files: the listings and parsed files are parameters, and writes are recorded in order as `(path, page)` pairs.
- The front-matter parsers (`gray-matter`, `front-matter`), the Markdown lexer and renderer (`marked`, `gfmHeadingId`) and `github-slugger`: the parsed front matter and tokens are inputs, and the renderer and slug function are parameters.
- The `git log` command that dates a wiki note: a parameter from the note's path to the date string it prints.
- Absolute paths: `path.resolve` and `path.join` are modelled as relative constants (`posts`, `wiki`, `dist/post`, ...) joined with `/`.
- The CSS, the Prism asset tags and the rest of the page template's fixed markup: one constant record of strings whose contents are not modelled.
- The console logging of the generator.
- `async`/`await` and `Promise.all`: modelled as a sequential, order-preserving map. The order in which files are actually read does not matter to the outputs.
- The order `sort` gives entries with equal dates, which depends on the engine's algorithm and on a comparator that never returns 0. The model proves only "latest first" and "same entries".
- Ordering.Less: compares Unicode characters, while JavaScript compares UTF-16 code units. The two agree on the Basic Multilingual Plane.
- Strings.ToNumber: handles only decimal digit strings. `Number` also accepts surrounding whitespace, a decimal point, a sign, an exponent and hexadecimal; the model reads those strings as NaN.
- Floating point: the screen width and header size are integers, and the device pixel ratio is in hundredths (1.2 is 120).
- The order in which `Object.keys` lists the tags (integer-like keys first, in numeric order): the model keeps the keys in order of first appearance. `DetailsIgnoreKeyOrder` shows that the order does not reach the README.
- TagIndex.ToNote: takes only files whose `tags` is absent, falsy or a list. The source also builds a note from a non-list value, but the reduce throws on it before anything is written, so `BuildReadme` fails on such a file without building notes. The outcome is the same: nothing is written.
- `tags` lists whose elements are not strings (`tags: [2024]`): the model's tags are strings.
- The prototype of the object the tag reduce starts from (`tag in {}` holds for names like `constructor`): the model treats the map as empty.
- The `img.onload` opacity handler, the `hasAttribute` fallback for old browsers and the browser's URL resolution of `img.src`: `src` is modelled as the string the script sets.
- An image whose list attribute is not a string.
- The DOM lookups of the client script (`getElementById`, `getElementsByTagName`): the elements they find are parameters, a missing element is `null`, and the images are a sequence. A missing `#masthead` makes `headerBackground` throw, which `HeaderBackground` and `OnLoad` model.
- The click event plumbing (`onclick`): the handler is `Element.Toggle`.
- The project-info reveal of `src/js/main.js`, its `resize` listener and the `readyState` test that schedules `onLoad` are not part of this model.
- ClientScript.Navigation: when the heading and the menu are one element, the contract does not state the heading's class name.
