# md: the directive preprocessor, modelled and verified in Dafny

`md` turns a tree of Markdown files into one HTML page. Its core is a preprocessor that reads a
file line by line and acts on directive lines:

- `:include:path` splices in another file, whose own paths resolve against its own directory.
- `:include*:dir|regex` splices in every matching `*.md` file of a directory, in natural order.
- `:css:path` collects a stylesheet path.
- `:title:text` sets the page title.
- `:id:`, `:class:` and `:style:` collect attributes for the next heading.

The repository has two independent variants of this preprocessor:

- **`MarkDown`** (md/md.go, configured by md/options.go) stores the lines together with their
  pending attribute maps. Its own heading pass then renders a `#` heading that starts the text or
  follows a blank line as an `<hN>` tag with `id`, `class` and `style` attributes.
- **`processor`** (md/processor.go) deduplicates stylesheets through `cssMap`, supports
  `:include*:`, and hands the collected text to a Markdown renderer.

Both wrap the result in the same fixed page: doctype and head, the escaped title, one stylesheet
link per entry, the body, and the closing tags.

Each variant is modelled in two layers:

- **Specification functions.** `MdResolve`, `MdRender` and `MdOptions` cover md.go and options.go;
  `ProcResolve` covers processor.go. They work over a value that mirrors the struct's fields.
  Every property is proved about these functions.
- **Classes.** `MdMarkDown.MarkDown` and `MdProcessor.Processor` update those fields in place with
  the loops of the source. Each method's `ensures` ties its new state, or its output, to the
  specification functions.

Shared modules:

- `Strings`: prefix tests, `IndexByte`, `TrimSpace`, `ToLower`, `Itoa`.
- `Lines`: the `\n`/`\r` line split, and the `bufio.Scanner` line scan.
- `Paths`: `filepath.Join` and `filepath.Dir`.
- `Html`: `html.EscapeString` and the page skeleton.
- `Sorting`: the natural sort, over a comparator given as a parameter.

Interfaces with the outside world are parameters:

- **Include provider.** A map from path to content. A path it lacks fails to open.
- **`processor` file system.** A value `Fs` holding file contents, directory listings, whether a
  pattern compiles, whether a pattern matches a name, and the strict natural-order comparison.

Four behaviours of the code that the model keeps:

- `reset` (md/md.go:128-134) does not clear `title`. A `MarkDown` value reused for a second
  conversion starts from the previous title. Its `:title:` lines at the top level still
  overwrite it. `Start`, `Reset`, `ConvertTwice` and `StaleTitle` state this.
- The heading text is `strings.TrimSpace` of the rest of the line after the `#` run (md/md.go:97).
- `:css:` in md.go appends on every occurrence (md/md.go:149-150). Only processor.go
  deduplicates (md/processor.go:87-90).
- Neither variant escapes a css path inside `href="..."` (md/md.go:206, md/processor.go:182-184).
  A path containing a double quote ends the attribute early, so the lemmas that read the links
  back from a page hold for paths without one. The same holds for heading attributes:
  `emitHTMLAttribute` writes the value unescaped (md/md.go:228-235), so `HeadingRoundTrip`
  reads them back for values without a double quote.

## Model

| member | source | states |
|---|---|---|
| Strings.IndexByte | md/processor.go:58 | the index of the first occurrence of the byte, or -1 exactly when it does not occur |
| Strings.TrimSpace | md/md.go:97 | the result is a slice of the input with only whitespace cut off either end, and it neither starts nor ends with whitespace |
| Strings.TrimSpaceEmpty | md/md.go:169 | a line trims to "" exactly when it is all whitespace, which is the blank-line test |
| Strings.SpaceAround | md/md.go:169 | helper: a slice with only whitespace around it, not starting with whitespace, is empty exactly when the whole string is whitespace |
| Strings.ToLower | md/processor.go:121 | same length, each character lower-cased |
| Strings.Itoa | md/md.go:98 | the decimal digits of the heading level, without a leading zero |
| Strings.ItoaRoundTrip | md/md.go:98 | the printed level reads back as the level |
| Lines.SplitLines | md/processor.go:56-67 | definition: the lines the loop of `include` cuts off, each at '\n' with one trailing '\r' dropped |
| Lines.LineCount | md/processor.go:56-67 | one line per '\n', plus one for an unterminated last line; a final '\n' adds no empty line and empty input has no lines |
| Lines.SplitRoundTrip | md/processor.go:56-67 | writing each split line back with '\n' gives the input with every CRLF turned into LF, a CR at the very end turned into LF, and a final LF added when the input does not end with one |
| Lines.NormalizeAt | md/processor.go:58-67 | helper: normalizing text splits at its first '\n': the line before it minus a trailing '\r', then the rest normalized |
| Lines.CountAt | md/processor.go:58-60 | helper: cutting at the first '\n' removes exactly one '\n' from the count |
| Lines.ScanLines | md/md.go:138-141 | definition: the tokens `bufio.Scanner` delivers with a buffer of `lineBufferSize`, and whether it stopped on a line too long |
| Lines.ScanIsSplitPrefix | md/md.go:138-141 | the scanner delivers a prefix of the split lines, each shorter than the buffer; it delivers all of them unless it stops on one that does not fit |
| Lines.ScanAgreesStep | md/md.go:138-141 | helper: a line that fits the buffer is delivered as the split line, and scanning continues after its '\n' |
| Lines.ScanAgreesTooLong | md/md.go:138-141 | a line that reaches the buffer size stops the scan with an error |
| Paths.Join | md/md.go:145 | definition: `filepath.Join` without path cleaning: the name alone for an empty or `.` directory, otherwise directory, '/', name |
| Paths.Dir | md/md.go:191 | definition: `filepath.Dir` without path cleaning: everything before the last '/', `/` for a root path, `.` when there is no '/' |
| Paths.DirOfJoin | md/md.go:185-191 | the directory of a file joined onto a directory is that directory, so an included file's paths resolve against its own directory |
| Html.EscapeChar | md/md.go:201-202 | definition: the entity `html.EscapeString` writes for each of `<`, `>`, `&`, `'`, `"`, and any other character unchanged |
| Html.EscapeString | md/md.go:201-202 | the escaped title contains no character that could end the title or open a tag |
| Html.EscapeCons | md/md.go:201-202 | helper: escaping works character by character: the first character's escape followed by the escaped rest |
| Html.UnescapeEntity | md/md.go:201-202 | each of the five escaped characters reads back from its entity, whatever follows |
| Html.EscapeRoundTrip | md/md.go:201-202 | escaping loses nothing: unescaping gives the title back |
| Html.EscapeExample | md/md.go:201-202 | the title `A & B` is written as `A &amp; B` |
| Html.LinksSnoc | md/md.go:205-210 | one more css entry adds exactly one more link at the end |
| Html.LinksPrefixSnoc | md/md.go:205-210 | helper: the links of the first i+1 entries are those of the first i, then the link of entry i |
| Html.Prefix | md/md.go:194-217 | definition: the head, the escaped title, one stylesheet link per css entry, and `<body>` |
| Html.Page | md/processor.go:171-191 | definition: the prefix, the body, then the closing tags |
| Html.PrefixAssembled | md/md.go:194-217 | head, escaped title, links and `</head>` written in sequence make up the page prefix |
| Html.PageTitleRoundTrip | md/processor.go:172-180 | the `<title>` of every page reads back as exactly the title |
| Html.LinksRoundTrip | md/processor.go:181-185 | for css paths without a double quote, the links read back as the css list, in order |
| Html.PageLinksRoundTrip | md/processor.go:172-190 | for css paths without a double quote, the text after the title in a whole page reads back as the css list |
| Sorting.Insert | md/processor.go:126 | inserting keeps the multiset and, for an asymmetric comparison, keeps every element not less than the one before it |
| Sorting.InsertBehind | md/processor.go:126 | helper: an element that is not placed before the head goes behind it, with the same two guarantees |
| Sorting.SortStringsNaturalAscending | md/processor.go:126 | the sorted names are a permutation of the input, and for an asymmetric comparison no name is less than the one before it |
| Sorting.StrictOrderAsymmetric | md/processor.go:126 | every strict order, such as the natural-order comparison, is asymmetric, so the sortedness above applies to it |
| Sorting.SortedAll | md/processor.go:126 | for a strict weak order, a sorted list has no name less than any name before it |
| MdResolve.Step | md/md.go:142-177 | definition: the directive switch for one line, in the order `:include:`, `:css:`, `:title:`, `:id:`, `:style:`, `:class:`, blank, content |
| MdResolve.ProcessLines | md/md.go:140-178 | definition: the scan loop over the delivered lines, stopping at the first error |
| MdResolve.ProcessIntoLines | md/md.go:136-183 | definition: the scan loop, then the scanner's error for an over-long line |
| MdResolve.Include | md/md.go:185-192 | definition: open the path through the provider, or fail, and process it against its directory |
| MdResolve.StepKeeps | md/md.go:142-177 | one line keeps `lines` and `lineDirectives` in lock-step, with blank lines stored as "" with no map and content lines verbatim with a map, and only appends |
| MdResolve.ProcessLinesKeeps | md/md.go:140-178 | the scan loop keeps the same invariant and only appends |
| MdResolve.ProcessIntoLinesKeeps | md/md.go:136-183 | `processIntoLines` keeps the invariant, on success and on failure |
| MdResolve.IncludeKeeps | md/md.go:185-192 | an include, at any depth, keeps the invariant and only appends |
| MdResolve.ExtendsTrans | md/md.go:170-176 | helper: append-only growth composes |
| MdResolve.StepDepth | md/md.go:143-148 | after a successful line, `depth` is back where it was |
| MdResolve.ProcessLinesDepth | md/md.go:140-178 | a successful scan loop leaves `depth` unchanged |
| MdResolve.ProcessIntoLinesDepth | md/md.go:136-183 | a successful `processIntoLines` leaves `depth` unchanged |
| MdResolve.IncludeDepth | md/md.go:143-148 | a successful `:include:` leaves `depth` where it found it, at every nesting level |
| MdResolve.StepTitleKept | md/md.go:151-154 | below the top level, a set title is not replaced by a line |
| MdResolve.LocalTitleKept | md/md.go:149-176 | below the top level, no line other than `:include:` changes a set title |
| MdResolve.ProcessLinesTitleKept | md/md.go:151-154 | below the top level, a set title survives a whole file |
| MdResolve.ProcessIntoLinesTitleKept | md/md.go:151-154 | below the top level, a set title survives `processIntoLines` |
| MdResolve.IncludeTitleKept | md/md.go:151-154 | an included file cannot replace a title that is already set |
| MdResolve.TopLevelTitleKept | md/md.go:151-154 | at the top level a set title changes only at a top-level `:title:` line |
| MdResolve.ProcessLinesAppend | md/md.go:140-178 | processing `a + b` is processing `a`, then `b` from where `a` ended, stopping at an error |
| MdResolve.LastTopLevelTitleWins | md/md.go:151-154 | the root file's last `:title:` line, when its value is non-empty, is the final title, whatever the included files set |
| MdResolve.IdOverwrites | md/md.go:155-156 | `:id:` replaces the pending id and changes nothing else |
| MdResolve.StyleJoins | md/md.go:157-162 | `:style:` joins onto a pending style with "; ", or starts one, and changes nothing else |
| MdResolve.ClassJoins | md/md.go:163-168 | `:class:` joins onto a pending class with " ", or starts one, and changes nothing else |
| MdResolve.NonDirectiveStored | md/md.go:169-176 | a blank line is stored as "" with no map, a content line verbatim with the pending map, and either way the pending map is emptied |
| MdResolve.ContentStored | md/md.go:173-176 | a content line is stored verbatim with the pending map, which is then emptied, and nothing else changes |
| MdResolve.ContentKeeps | md/md.go:169-176 | a stored line keeps the lock-step invariant and only appends |
| MdResolve.DirectiveStoresNothing | md/md.go:149-168 | a directive other than `:include:` stores no line, never fails, keeps `depth`, only grows `css`, and pends only attribute keys |
| MdResolve.CssAppends | md/md.go:149-150 | `:css:` appends the joined path on every occurrence and changes nothing else |
| MdResolve.TitleSets | md/md.go:151-154 | `:title:` sets the title at the top level or when none is set, and otherwise changes nothing |
| MdResolve.BlankLineResets | md/md.go:169-176 | attributes pending before a blank line do not reach the content line after it |
| MdResolve.StepTitleFree | md/md.go:142-177 | a line's effect other than on the title, and whether it fails, does not depend on the title |
| MdResolve.LocalTitleFree | md/md.go:149-176 | the same for every line except `:include:` |
| MdResolve.ProcessLinesTitleFree | md/md.go:140-178 | the same for a whole scan loop |
| MdResolve.ProcessIntoLinesTitleFree | md/md.go:136-183 | the same for `processIntoLines` |
| MdResolve.IncludeTitleFree | md/md.go:185-192 | what an include resolves, and whether it fails, does not depend on the title |
| MdResolve.StepTitleShape | md/md.go:151-154 | at the top level a line either sets the title to a fixed value or leaves it alone |
| MdResolve.LinesTitleCons | md/md.go:140-178 | helper: the title effect of a file is that of its first line followed by that of the rest |
| MdResolve.LinesTitleShape | md/md.go:151-154 | at the top level a whole file either sets the title to a fixed value or leaves it alone |
| MdResolve.TitleIdempotent | md/md.go:151-154 | processing the same top-level lines again from the title they produced gives that title back |
| MdResolve.PendingCrossesInclude | md/md.go:143-148 | attributes pending before an `:include:` land on the included file's first scanned line when that line is content (a directive or blank line in between is not covered) |
| MdResolve.IncludeFirst | md/md.go:185-192 | an included file whose first line is content stores it with the pending map |
| MdResolve.IncludeState | md/md.go:185-192 | helper: an include's state is that of processing the scanned lines of the provided file, against the file's directory |
| MdResolve.ProcessLinesFirst | md/md.go:173-176 | a first line that is content is stored with the pending map, whatever follows it |
| MdResolve.IncludeFuelMono | md/md.go:185-192 | a successful include is the same with any larger bound on the include depth |
| MdResolve.ProcessIntoLinesFuelMono | md/md.go:136-183 | the same for `processIntoLines` |
| MdResolve.ProcessLinesFuelMono | md/md.go:140-178 | the same for the scan loop |
| MdResolve.StepFuelMono | md/md.go:142-177 | the same for one line |
| MdRender.Attribute | md/md.go:228-235 | definition: ` name="value"` for a non-empty value, nothing for an empty one |
| MdRender.Heading | md/md.go:93-112 | definition: `<hN` with id, class and style attributes, `>`, the trimmed text, `</hN>` and '\n' |
| MdRender.RenderLine | md/md.go:91-117 | definition: a heading line that starts the text or follows a blank line as `Heading`, any other line as itself and '\n' |
| MdRender.RenderBody | md/md.go:90-118 | definition: the rendered lines in order |
| MdRender.LeadingHashes | md/md.go:93-96 | the counting loop's result: a run of `#` that is maximal within the line |
| MdRender.HeaderPrefixIsRegex | md/md.go:30 | the heading test on the whole `#` run agrees with `^#+\s` |
| MdRender.Carried | md/md.go:101-109 | definition: the attributes a heading should carry, namely the non-empty `:id:`, `:class:` and `:style:` values in that order |
| MdRender.CarriedIff | md/md.go:101-109 | each of id, class and style is carried with exactly its directive's value, and only when that value is non-empty |
| MdRender.ParseAttributes | md/md.go:228-235 | definition: an independent reader of ` name="value"` attributes |
| MdRender.ParseAttribute | md/md.go:228-235 | one written attribute reads back as its name and value, then whatever follows (values without a double quote) |
| MdRender.ParseCarry | md/md.go:228-235 | helper: an attribute, written or skipped for an empty value, reads back as what it carries |
| MdRender.ParseAttributeText | md/md.go:101-109 | the id, class and style attributes written in that order read back as `Carried` |
| MdRender.HeadingLayout | md/md.go:98-112 | helper: the tag is its opening, its attributes, then the text and the close tag |
| MdRender.HeadingRoundTrip | md/md.go:93-112 | for every heading line, the tag opens with `<h` and a level that reads back as the number of leading `#`; its attributes read back as exactly the non-empty id, class and style values, in that order (values without a double quote); it ends with the trimmed text and the matching close tag |
| MdRender.PassThrough | md/md.go:113-116 | without heading lines, the body is the stored lines each followed by "\n" |
| MdRender.RenderSingleHeading | md/md.go:92-112 | helper: a lone heading line is rendered by the heading template |
| MdRender.AttributeInjectionExample | md/md.go:92-112 | `:id:intro`, `:class:big`, `# Hello` render as `<h1 id="intro" class="big">Hello</h1>` |
| MdRender.IntroBigResolved | md/md.go:155-176 | `:id:intro`, `:class:big`, `# Hello` store one line with the map id=intro, class=big |
| MdRender.IntroBigRendered | md/md.go:92-112 | helper: that line and map render as `<h1 id="intro" class="big">Hello</h1>` |
| MdRender.HelloStored | md/md.go:173-176 | helper: `# Hello` is stored as content with the pending map |
| MdRender.BlankLineResetExample | md/md.go:169-172 | `:id:intro`, a blank line, `# Hello` render as a blank line and `<h1>Hello</h1>` |
| MdRender.HeadingLineIsContent | md/md.go:173-176 | helper: a `#` heading line is content, not a directive or a blank line |
| MdRender.HelloHeading | md/md.go:97-112 | helper: the heading template for level 1 and text `Hello`, with the attribute order id, class, style |
| MdOptions.Defaults | md/md.go:47-50 | definition: the file system as provider and a 65536-byte line buffer |
| MdOptions.ApplyAll | md/md.go:51-55 | definition: the options applied in order, failing at the first rejected one |
| MdOptions.ApplyOption | md/options.go:14-33 | a rejected option changes nothing; `MaxLineSize(n)` with n >= 2 sets only the buffer size; a non-nil `IncludeProvider` sets only the provider |
| MdOptions.ApplyAllFails | md/md.go:51-55 | `New` fails exactly when some option is rejected |
| MdOptions.LastSizeCons | md/md.go:51-55 | helper: the last `MaxLineSize` is found by scanning the options in order |
| MdOptions.LastProviderCons | md/md.go:51-55 | helper: the last non-nil `IncludeProvider` is found by scanning the options in order |
| MdOptions.LastOptionWins | md/md.go:46-57 | when `New` succeeds, each field holds the value of the last option that set it, or its default |
| MdMarkDown.Convert | md/md.go:80-126 | definition: `processIntoLines` from the kept title, then on success the page of the resolved title, css and rendered lines |
| MdMarkDown.ConvertFuelMono | md/md.go:80-85 | a successful conversion is the same with any larger bound on the include depth |
| MdMarkDown.ConvertTitle | md/md.go:80-85 | the title after a conversion is what top-level processing of the scanned lines leaves from the old title |
| MdMarkDown.ConvertTwice | md/md.go:128-134 | converting the same input again from the resulting title gives the same result |
| MdMarkDown.ConvertedPageTitle | md/md.go:87-89 | a converted page's `<title>` reads back as the title field |
| MdMarkDown.StaleTitle | md/md.go:128-134 | a document without `:title:` lines keeps the title of the previous conversion, because `reset` does not clear it |
| MdMarkDown.LastTitleNamesPage | md/md.go:151-154 | the last top-level `:title:` line, when its value is non-empty, names the converted page |
| MdMarkDown.MarkDown.constructor | md/md.go:47-50 | defaults: the file system as provider, a 65536-byte buffer, nothing resolved |
| MdMarkDown.MarkDown.Apply | md/options.go:14-33 | running an option closure: accepted exactly when its guard holds, and the configuration becomes `ApplyOption` of the old one |
| MdMarkDown.MarkDown.New | md/md.go:46-57 | no processor when an option fails, otherwise a fresh one configured by `ApplyAll` |
| MdMarkDown.MarkDown.Reset | md/md.go:128-134 | depth 0, no lines, no pending attributes, no css; title and configuration unchanged |
| MdMarkDown.MarkDown.Include | md/md.go:185-192 | the new state and the outcome are those of `MdResolve.Include` |
| MdMarkDown.MarkDown.ProcessIntoLines | md/md.go:136-183 | the new state and the outcome are those of `MdResolve.ProcessIntoLines` |
| MdMarkDown.MarkDown.ProcessLine | md/md.go:142-177 | one pass of the directive switch, as `MdResolve.Step` |
| MdMarkDown.MarkDown.WriteHTMLPrefix | md/md.go:194-217 | writes the page prefix for the title and css list |
| MdMarkDown.MarkDown.WriteLines | md/md.go:90-118 | writes the rendered body for the stored lines and their attribute maps |
| MdMarkDown.MarkDown.WriteLine | md/md.go:91-117 | writes one stored line: the heading template for a heading that starts the text or follows a blank line, otherwise the line and "\n" |
| MdMarkDown.MarkDown.HeadingTag | md/md.go:93-112 | writes the heading template for the line and its attribute map |
| MdMarkDown.MarkDown.CountHashes | md/md.go:93-96 | the counting loop stops at the length of the leading `#` run |
| MdMarkDown.MarkDown.ConvertToHTML | md/md.go:80-126 | outcome and page as `Convert`, and afterwards the state `reset` leaves |
| ProcResolve.Step | md/processor.go:68-98 | definition: the directive switch for one line, in the order `:include:`, `:include*:`, `:css:`, `:title:`, other |
| ProcResolve.IncludeLineStep | md/processor.go:69-74 | definition: the `:include:` case, one level deeper, failing when the include fails |
| ProcResolve.RegexLineStep | md/processor.go:75-84 | definition: the `:include*:` case, one level deeper, failing without a '|' or when `includeRegex` fails |
| ProcResolve.IncludeLines | md/processor.go:56-99 | definition: the line loop of `include`, stopping at the first error |
| ProcResolve.Include | md/processor.go:50-55 | definition: read the file, or fail, and process its lines against its directory |
| ProcResolve.Matching | md/processor.go:117-125 | definition: the names the filter loop collects, in listing order |
| ProcResolve.RegexNames | md/processor.go:117-126 | definition: the collected names, naturally sorted |
| ProcResolve.IncludeEach | md/processor.go:127-131 | definition: the include loop over the sorted names, stopping at the first error |
| ProcResolve.IncludeRegex | md/processor.go:103-133 | definition: fail when the pattern does not compile or the directory cannot be listed, otherwise include each sorted name |
| ProcResolve.Convert | md/processor.go:32-40 | definition: a fresh processor includes the file, then the page around the rendered text, or failure |
| ProcResolve.SplitPipe | md/processor.go:77-80 | no `|` means an error; otherwise the directory is the text before the first `|` and the pattern all of the rest |
| ProcResolve.SplitPipeRoundTrip | md/processor.go:77-81 | a directory without `|` and any pattern split back into themselves |
| ProcResolve.CssStep | md/processor.go:85-90 | a css path is appended only if not yet recorded, keeping the css invariant |
| ProcResolve.CssShape | md/processor.go:85-90 | a `:css:` line records the joined path in `cssMap` and `css` unless already recorded, and changes nothing else |
| ProcResolve.TitleShape | md/processor.go:91-94 | a `:title:` line sets the title at the top level or when none is set, and otherwise changes nothing |
| ProcResolve.DataShape | md/processor.go:95-97 | any other line is appended to `data` with "\n", and nothing else changes |
| ProcResolve.StepCss | md/processor.go:68-98 | one line keeps `css` free of duplicates with `cssMap` mapping exactly its entries to true, and only appends to `css` and `data` |
| ProcResolve.IncludeLineCss | md/processor.go:69-74 | an `:include:` line keeps the css invariant and only appends |
| ProcResolve.IncludeRegexLineCss | md/processor.go:75-84 | an `:include*:` line keeps the css invariant and only appends |
| ProcResolve.LocalLineCss | md/processor.go:85-97 | every other line keeps the css invariant and only appends |
| ProcResolve.IncludeLinesCss | md/processor.go:56-99 | the line loop keeps the css invariant and only appends |
| ProcResolve.IncludeEachCss | md/processor.go:127-131 | including the sorted names keeps the css invariant and only appends |
| ProcResolve.IncludeRegexCss | md/processor.go:103-133 | `includeRegex` keeps the css invariant and only appends |
| ProcResolve.IncludeCss | md/processor.go:50-101 | an include at any depth keeps `css` duplicate-free in first-occurrence order, with `cssMap` matching it |
| ProcResolve.CssDirectiveRecorded | md/processor.go:85-90 | a `:css:` line records its path, and changes nothing when the path is already recorded |
| ProcResolve.GrowsTrans | md/processor.go:89-97 | helper: append-only growth composes |
| ProcResolve.StepDepth | md/processor.go:69-84 | after a successful line, `depth` is back where it was |
| ProcResolve.IncludeLinesDepth | md/processor.go:56-99 | a successful line loop leaves `depth` unchanged |
| ProcResolve.IncludeEachDepth | md/processor.go:127-131 | including the sorted names leaves `depth` unchanged |
| ProcResolve.IncludeRegexDepth | md/processor.go:75-84 | a successful `:include*:` leaves `depth` where it found it |
| ProcResolve.RegexLineDepth | md/processor.go:75-84 | after a successful `:include*:` line, `depth` is back where it was |
| ProcResolve.IncludeDepth | md/processor.go:69-74 | a successful `:include:` leaves `depth` where it found it |
| ProcResolve.StepTitleKept | md/processor.go:91-94 | below the top level, a set title is not replaced by a line |
| ProcResolve.IncludeLineTitleKept | md/processor.go:69-74 | below the top level, an `:include:` line cannot replace a set title |
| ProcResolve.IncludeRegexLineTitleKept | md/processor.go:75-84 | below the top level, an `:include*:` line cannot replace a set title |
| ProcResolve.IncludeLinesTitleKept | md/processor.go:91-94 | below the top level, a set title survives a whole file |
| ProcResolve.IncludeEachTitleKept | md/processor.go:91-94 | a set title survives the files of an `:include*:` |
| ProcResolve.IncludeRegexTitleKept | md/processor.go:91-94 | a set title survives `includeRegex` |
| ProcResolve.IncludeTitleKept | md/processor.go:91-94 | an included file cannot replace a title that is already set |
| ProcResolve.TopLevelTitleKept | md/processor.go:91-94 | at the top level a set title changes only at a top-level `:title:` line |
| ProcResolve.IncludeLinesCons | md/processor.go:56-99 | helper: the line loop handles the first line, then the rest from the state it left, stopping at an error |
| ProcResolve.IncludeLinesAppend | md/processor.go:56-99 | processing `a + b` is processing `a`, then `b` from where `a` ended, stopping at an error |
| ProcResolve.LastTopLevelTitleWins | md/processor.go:91-94 | the root file's last `:title:` line, when its value is non-empty, is the final title, whatever the included files set |
| ProcResolve.RootTitle | md/processor.go:91-94 | including the root file from a fresh processor ends with the value of its last top-level `:title:` line when that value is non-empty |
| ProcResolve.PlainLines | md/processor.go:95-97 | lines without directives reach `data` in order, each followed by "\n" |
| ProcResolve.PlainFile | md/processor.go:50-67 | including a file without directives appends the file itself, with every CRLF turned into LF, a CR at the very end turned into LF, and a final LF added when the file does not end with one |
| ProcResolve.IncludePlainFile | md/processor.go:69-74 | an `:include:` of a file without directives appends that file, normalized |
| ProcResolve.SpliceInPlace | md/processor.go:69-97 | the included text lands between the lines before and after the directive, in order |
| ProcResolve.MatchingMembers | md/processor.go:117-125 | a name is collected exactly when a listed entry with that name is a non-directory, named `*.md` in any case, and matched by the pattern |
| ProcResolve.MatchingNoDup | md/processor.go:117-125 | from a listing of distinct names no name is collected twice |
| ProcResolve.NoDupCount | md/processor.go:126 | helper: in a duplicate-free list each name occurs at most once |
| ProcResolve.CountNoDup | md/processor.go:126 | helper: a list in which each name occurs at most once is duplicate-free |
| ProcResolve.RegexNamesSpec | md/processor.go:117-131 | `:include*:` includes exactly the qualifying entries, each once; for an asymmetric comparison no name is less than the one before it, and for a strict weak order none is less than any before it |
| ProcResolve.ConvertTitle | md/processor.go:32-40 | the page's `<title>` reads back as the title resolution settled on |
| ProcResolve.ConvertLinks | md/processor.go:32-40 | the page links no stylesheet twice, and, for css paths without a double quote, its links read back as the css list in order of first mention |
| ProcResolve.ConvertTitleFromRoot | md/processor.go:91-94 | the root file's last `:title:` line, when its value is non-empty, names the page |
| ProcResolve.IncludeFuelMono | md/processor.go:50-55 | a successful include is the same with any larger bound on the include depth |
| ProcResolve.IncludeLinesFuelMono | md/processor.go:56-99 | the same for the line loop |
| ProcResolve.StepFuelMono | md/processor.go:68-98 | the same for one line |
| ProcResolve.IncludeLineFuelMono | md/processor.go:69-74 | the same for an `:include:` line |
| ProcResolve.RegexLineFuelMono | md/processor.go:75-84 | the same for an `:include*:` line |
| ProcResolve.IncludeRegexFuelMono | md/processor.go:103-133 | the same for `includeRegex` |
| ProcResolve.IncludeEachFuelMono | md/processor.go:127-131 | the same for the include loop over the sorted names |
| ProcResolve.ConvertFuelMono | md/processor.go:32-40 | a page produced with some bound on the include depth is the page produced with any larger bound |
| MdProcessor.Processor.constructor | md/processor.go:33-35 | a fresh processor: nothing collected, depth 0 |
| MdProcessor.Processor.Include | md/processor.go:50-101 | outcome and, on success, new state as `ProcResolve.Include` |
| MdProcessor.Processor.IncludeContent | md/processor.go:56-99 | the line loop: outcome and, on success, new state as `ProcResolve.IncludeLines` over the split lines |
| MdProcessor.Processor.NextLine | md/processor.go:57-67 | cutting one line off the data, with a trailing '\r' dropped, walks exactly the lines of `SplitLines` |
| MdProcessor.Processor.Step | md/processor.go:68-98 | one pass of the directive switch, as `ProcResolve.Step` |
| MdProcessor.Processor.IncludeLine | md/processor.go:69-74 | the `:include:` case, as `ProcResolve.Step` |
| MdProcessor.Processor.IncludeRegexLine | md/processor.go:75-84 | the `:include*:` case, as `ProcResolve.Step` |
| MdProcessor.Processor.IncludeRegex | md/processor.go:103-133 | outcome and, on success, new state as `ProcResolve.IncludeRegex`; the filter loop collects `Matching` |
| MdProcessor.Processor.MarkdownToHTML | md/processor.go:171-191 | the page around the rendered text, or failure when the renderer fails |
| MdProcessor.MarkdownToHTML | md/processor.go:32-40 | the result is `ProcResolve.Convert` |

## Left out

- Markdown rendering by goldmark and its extensions (md/processor.go:136-170). It is a parameter
  `render` that may fail.
- File access: `os.Open`, `ioutil.ReadFile`, `Readdir`, `os.Create` and `ConvertFileToHTML`
  (md/md.go:59-77). Files and listings are maps; a missing entry is a read error.
- `filepath.Join` and `filepath.Dir` do not clean paths (`..`, `.`, repeated separators) in this
  model.
- `regexp`: whether a pattern compiles, and whether it matches a name, are parameters.
- `txt.NaturalLess` is a parameter. The sort is proved for any asymmetric comparison, which every
  strict order is, and its tie-breaking among names that compare equal is not modelled.
- `bufio.Scanner` boundary. A line whose raw length before '\n' reaches `lineBufferSize` is
  treated as too long. The exact boundary of the real scanner is not modelled.
- Error values (`errs.Wrap`, `errs.Recovery`) collapse to a single failure.
- Writer errors of `bufio.Writer` are not modelled. Writes to the output always succeed.
- MdProcessor.Processor.Include: on failure the state of the processor is left unspecified,
  because `MarkdownToHTML` discards it.
- Include nesting depth is bounded by a `fuel` argument. Each nested `:include:` level, and in
  processor.go each level of `:include*:` files, takes one unit; sibling lines and files share
  the same bound. Any include chain nested deeper than `fuel` fails, cyclic or not, where the
  source succeeds on an acyclic chain and recurses without end on a cycle. Once a run succeeds,
  more fuel gives the same result (`IncludeFuelMono`, `ConvertFuelMono` in both variants).
- Bytes are characters. `strings.ToLower` lowers ASCII letters only.
- `IsSpace` covers the Unicode white-space characters that `strings.TrimSpace` recognises, but on
  characters, not UTF-8 bytes.
- main.go (flag parsing, logging, writing the `.html` file) is not part of this model.
