/**
 * The directive resolver of md/processor.go (`processor.include` and `includeRegex`) as
 * functions over a value `PState` that mirrors the fields of the `processor` struct.
 *
 * The file system is a value `Fs`: file contents by path, directory listings by path, and
 * the regular-expression library as two parameters (whether a pattern compiles, whether a
 * compiled pattern matches a name). A missing file or directory is a read error. `fuel`
 * bounds the include nesting depth: each nested `:include:` or `:include*:` level takes one
 * unit and sibling lines and files share it, so a chain nested deeper than `fuel` fails,
 * cyclic or not; a successful run does not change with more fuel (`IncludeFuelMono`). On any
 * error the processor is discarded, so a failing call yields `None`.
 */
module ProcResolve {
  import opened Wrappers
  import opened Strings
  import opened Lines
  import opened Paths
  import opened Sorting
  import opened Html

  const IncludeDirective: string := ":include:"
  const IncludeRegexDirective: string := ":include*:"
  const CssDirective: string := ":css:"
  const TitleDirective: string := ":title:"

  /** One entry of a directory listing. */
  datatype DirEntry = DirEntry(name: string, isDir: bool)

  /**
   * What `ioutil.ReadFile`, `os.Open`/`Readdir`, `regexp` and the natural sort see;
   * `naturalLess` is the strict comparison `txt.NaturalLess`.
   */
  datatype Fs = Fs(
    files: map<string, string>,
    listings: map<string, seq<DirEntry>>,
    compiles: string -> bool,
    matches: (string, string) -> bool,
    naturalLess: (string, string) -> bool)

  /** The fields of `processor`. */
  datatype PState = PState(css: seq<string>, cssMap: map<string, bool>, title: string, data: string, depth: int)

  /** The processor `MarkdownToHTML` creates: an empty css map and nothing else. */
  const Empty: PState := PState([], map[], "", "", 0)

  /**
   * `strings.SplitN(arg, "|", 2)` when it yields two parts: the text before the first '|'
   * and the rest; without a '|' there is one part, which `include` rejects.
   */
  function SplitPipe(arg: string): (r: Option<(string, string)>)
    ensures r.None? <==> '|' !in arg
    ensures r.Some? ==> '|' !in r.value.0 && arg == r.value.0 + "|" + r.value.1
  {
    var i := IndexByte(arg, '|');
    if i < 0 then None
    else
      assert arg == arg[..i] + "|" + arg[i + 1..];
      Some((arg[..i], arg[i + 1..]))
  }

  /** Joining a directory without '|' to any pattern and splitting again gives both back. */
  lemma SplitPipeRoundTrip(dir: string, pattern: string)
    requires '|' !in dir
    ensures SplitPipe(dir + "|" + pattern) == Some((dir, pattern))
  {
    FirstOccurrence(dir, "|" + pattern, '|');
    assert dir + "|" + pattern == dir + ("|" + pattern);
    assert (dir + ("|" + pattern))[|dir| + 1..] == pattern;
  }

  /** The filter of `includeRegex`: a file, named `*.md` in any case, that the pattern matches. */
  predicate Qualifies(fs: Fs, pattern: string, e: DirEntry) {
    !e.isDir && HasSuffix(ToLower(e.name), ".md") && fs.matches(pattern, e.name)
  }

  /** The names the filter loop of `includeRegex` collects, in listing order. */
  function Matching(fs: Fs, pattern: string, entries: seq<DirEntry>): seq<string> {
    if entries == [] then []
    else
      var last := entries[|entries| - 1];
      Matching(fs, pattern, entries[..|entries| - 1]) + (if Qualifies(fs, pattern, last) then [last.name] else [])
  }

  /** The names `includeRegex` includes, in order. */
  function RegexNames(fs: Fs, dir: string, pattern: string): seq<string>
    requires dir in fs.listings
  {
    SortStringsNaturalAscending(fs.naturalLess, Matching(fs, pattern, fs.listings[dir]))
  }

  /** One line of `include`: the `switch` on the directive prefixes. */
  function Step(fs: Fs, p: PState, dir: string, line: string, fuel: nat): Option<PState>
    decreases fuel, 3, 1
  {
    if HasPrefix(line, IncludeDirective) then IncludeLineStep(fs, p, dir, line, fuel)
    else if HasPrefix(line, IncludeRegexDirective) then RegexLineStep(fs, p, dir, line, fuel)
    else if HasPrefix(line, CssDirective) then
      var css := Join(dir, line[|CssDirective|..]);
      if css in p.cssMap && p.cssMap[css] then Some(p)
      else Some(p.(cssMap := p.cssMap[css := true], css := p.css + [css]))
    else if HasPrefix(line, TitleDirective) then
      Some(if p.depth == 0 || p.title == "" then p.(title := line[|TitleDirective|..]) else p)
    else
      Some(p.(data := p.data + line + "\n"))
  }

  /** The `:include:` case: the named file, relative to `dir`, one level deeper. */
  function IncludeLineStep(fs: Fs, p: PState, dir: string, line: string, fuel: nat): Option<PState>
    requires HasPrefix(line, IncludeDirective)
    decreases fuel, 3, 0
  {
    match Include(fs, p.(depth := p.depth + 1), Join(dir, line[|IncludeDirective|..]), fuel)
    case None => None
    case Some(q) => Some(q.(depth := q.depth - 1))
  }

  /** The `:include*:` case: `dir|pattern`, an error without the '|', one level deeper. */
  function RegexLineStep(fs: Fs, p: PState, dir: string, line: string, fuel: nat): Option<PState>
    requires HasPrefix(line, IncludeRegexDirective)
    decreases fuel, 3, 0
  {
    match SplitPipe(line[|IncludeRegexDirective|..])
    case None => None
    case Some((d, pattern)) =>
      match IncludeRegex(fs, p.(depth := p.depth + 1), Join(dir, d), pattern, fuel)
      case None => None
      case Some(q) => Some(q.(depth := q.depth - 1))
  }

  /** The loop of `include` over the lines of one file, stopping at the first error. */
  function IncludeLines(fs: Fs, p: PState, dir: string, lines: seq<string>, fuel: nat): Option<PState>
    decreases fuel, 4, |lines|
  {
    if lines == [] then Some(p)
    else
      match Step(fs, p, dir, lines[0], fuel)
      case None => None
      case Some(q) => IncludeLines(fs, q, dir, lines[1..], fuel)
  }

  /** Unfolds `IncludeLines` at its first line. */
  lemma IncludeLinesCons(fs: Fs, p: PState, dir: string, line: string, lines: seq<string>, fuel: nat)
    ensures IncludeLines(fs, p, dir, [line] + lines, fuel)
         == match Step(fs, p, dir, line, fuel)
            case None => None
            case Some(q) => IncludeLines(fs, q, dir, lines, fuel)
  {
    assert ([line] + lines)[0] == line && ([line] + lines)[1..] == lines;
  }

  /** The loop of `includeRegex` over the sorted names. */
  function IncludeEach(fs: Fs, p: PState, dir: string, names: seq<string>, fuel: nat): Option<PState>
    decreases fuel, 1, |names|
  {
    if names == [] then Some(p)
    else
      match Include(fs, p, Join(dir, names[0]), fuel)
      case None => None
      case Some(q) => IncludeEach(fs, q, dir, names[1..], fuel)
  }

  /** `includeRegex(dir, pattern)`: compile, list, filter, sort, include each. */
  function IncludeRegex(fs: Fs, p: PState, dir: string, pattern: string, fuel: nat): Option<PState>
    decreases fuel, 2, 0
  {
    if !fs.compiles(pattern) || dir !in fs.listings then None
    else IncludeEach(fs, p, dir, RegexNames(fs, dir, pattern), fuel)
  }

  /** `include(path)`: read the file, then process its lines relative to its directory. */
  function Include(fs: Fs, p: PState, path: string, fuel: nat): Option<PState>
    decreases fuel, 0, 0
  {
    if fuel == 0 || path !in fs.files then None
    else IncludeLines(fs, p, Dir(path), SplitLines(fs.files[path]), fuel - 1)
  }

  // ---------------------------------------------------------------------------------------
  // The css list and map; append-only growth

  predicate NoDup(s: seq<string>) {
    forall i, j :: 0 <= i < j < |s| ==> s[i] != s[j]
  }

  /** `css` has no duplicates, and the keys of `cssMap`, all mapped to true, are exactly its entries. */
  predicate CssOk(p: PState) {
    && NoDup(p.css)
    && (forall c :: c in p.cssMap ==> p.cssMap[c])
    && (forall c :: c in p.cssMap ==> c in p.css)
    && (forall c :: c in p.css ==> c in p.cssMap)
  }

  /** Resolution only appends to `css` and to `data`. */
  predicate Grows(p: PState, q: PState) {
    p.css <= q.css && p.data <= q.data
  }

  lemma GrowsTrans(a: PState, b: PState, c: PState)
    requires Grows(a, b) && Grows(b, c)
    ensures Grows(a, c)
  {
    assert a.css == b.css[..|a.css|] && b.css == c.css[..|b.css|];
    assert a.css == c.css[..|a.css|];
    assert a.data == b.data[..|a.data|] && b.data == c.data[..|b.data|];
    assert a.data == c.data[..|a.data|];
  }

  lemma CssStep(p: PState, css: string)
    requires CssOk(p)
    ensures var q := if css in p.cssMap && p.cssMap[css] then p
                     else p.(cssMap := p.cssMap[css := true], css := p.css + [css]);
            CssOk(q) && Grows(p, q) && css in q.css
  {
    if !(css in p.cssMap && p.cssMap[css]) {
      assert css !in p.css;
      var q := p.(cssMap := p.cssMap[css := true], css := p.css + [css]);
      assert forall c :: c in q.css <==> c in p.css || c == css;
    }
  }

  lemma {:induction false} StepCss(fs: Fs, p: PState, dir: string, line: string, fuel: nat)
    requires CssOk(p)
    ensures var r := Step(fs, p, dir, line, fuel); r.Some? ==> CssOk(r.value) && Grows(p, r.value)
    decreases fuel, 3, 1
  {
    if HasPrefix(line, IncludeDirective) {
      IncludeLineCss(fs, p, dir, line, fuel);
    } else if HasPrefix(line, IncludeRegexDirective) {
      IncludeRegexLineCss(fs, p, dir, line, fuel);
    } else {
      LocalLineCss(fs, p, dir, line, fuel);
    }
  }

  lemma {:induction false} IncludeLineCss(fs: Fs, p: PState, dir: string, line: string, fuel: nat)
    requires CssOk(p) && HasPrefix(line, IncludeDirective)
    ensures var r := Step(fs, p, dir, line, fuel); r.Some? ==> CssOk(r.value) && Grows(p, r.value)
    decreases fuel, 3, 0
  {
    IncludeCss(fs, p.(depth := p.depth + 1), Join(dir, line[|IncludeDirective|..]), fuel);
  }

  lemma {:induction false} IncludeRegexLineCss(fs: Fs, p: PState, dir: string, line: string, fuel: nat)
    requires CssOk(p) && HasPrefix(line, IncludeRegexDirective)
    ensures var r := Step(fs, p, dir, line, fuel); r.Some? ==> CssOk(r.value) && Grows(p, r.value)
    decreases fuel, 3, 0
  {
    PrefixesDiffer(line, IncludeRegexDirective, IncludeDirective, 8);
    match SplitPipe(line[|IncludeRegexDirective|..])
    case None =>
    case Some((d, pattern)) =>
      IncludeRegexCss(fs, p.(depth := p.depth + 1), Join(dir, d), pattern, fuel);
  }

  /** The `:css:` and `:title:` cases and plain lines keep the css invariant without recursion. */
  lemma LocalLineCss(fs: Fs, p: PState, dir: string, line: string, fuel: nat)
    requires CssOk(p) && !HasPrefix(line, IncludeDirective) && !HasPrefix(line, IncludeRegexDirective)
    ensures var r := Step(fs, p, dir, line, fuel); r.Some? ==> CssOk(r.value) && Grows(p, r.value)
  {
    var r := Step(fs, p, dir, line, fuel);
    if HasPrefix(line, CssDirective) {
      assert r.Some? ==> CssOk(r.value) && Grows(p, r.value) by {
        CssShape(fs, p, dir, line, fuel);
        CssStep(p, Join(dir, line[|CssDirective|..]));
      }
    } else if HasPrefix(line, TitleDirective) {
      assert r.Some? ==> CssOk(r.value) && Grows(p, r.value) by {
        TitleShape(fs, p, dir, line, fuel);
      }
    } else {
      assert r.Some? ==> CssOk(r.value) && Grows(p, r.value) by {
        DataShape(fs, p, dir, line, fuel);
        assert (p.data + line + "\n")[..|p.data|] == p.data;
      }
    }
  }

  /** A `:css:` line adds its path to `css` and `cssMap` unless `cssMap` already has it. */
  lemma CssShape(fs: Fs, p: PState, dir: string, line: string, fuel: nat)
    requires HasPrefix(line, CssDirective)
    ensures var css := Join(dir, line[|CssDirective|..]);
            Step(fs, p, dir, line, fuel)
            == Some(if css in p.cssMap && p.cssMap[css] then p
                    else p.(cssMap := p.cssMap[css := true], css := p.css + [css]))
  {
    PrefixesDiffer(line, CssDirective, IncludeDirective, 1);
    PrefixesDiffer(line, CssDirective, IncludeRegexDirective, 1);
  }

  /** A `:title:` line sets the title at the top level or when none is set, and changes nothing else. */
  lemma TitleShape(fs: Fs, p: PState, dir: string, line: string, fuel: nat)
    requires HasPrefix(line, TitleDirective)
    ensures Step(fs, p, dir, line, fuel)
         == Some(if p.depth == 0 || p.title == "" then p.(title := line[|TitleDirective|..]) else p)
  {
    PrefixesDiffer(line, TitleDirective, IncludeDirective, 1);
    PrefixesDiffer(line, TitleDirective, IncludeRegexDirective, 1);
    PrefixesDiffer(line, TitleDirective, CssDirective, 1);
  }

  /** Any other line is appended to `data` with a newline, and nothing else changes. */
  lemma DataShape(fs: Fs, p: PState, dir: string, line: string, fuel: nat)
    requires !IsDirective(line)
    ensures Step(fs, p, dir, line, fuel) == Some(p.(data := p.data + line + "\n"))
  {
  }

  lemma {:induction false} IncludeLinesCss(fs: Fs, p: PState, dir: string, lines: seq<string>, fuel: nat)
    requires CssOk(p)
    ensures var r := IncludeLines(fs, p, dir, lines, fuel); r.Some? ==> CssOk(r.value) && Grows(p, r.value)
    decreases fuel, 4, |lines|
  {
    if lines != [] {
      StepCss(fs, p, dir, lines[0], fuel);
      match Step(fs, p, dir, lines[0], fuel)
      case None =>
      case Some(q) =>
        IncludeLinesCss(fs, q, dir, lines[1..], fuel);
        var r := IncludeLines(fs, q, dir, lines[1..], fuel);
        if r.Some? {
          GrowsTrans(p, q, r.value);
        }
    }
  }

  lemma {:induction false} IncludeEachCss(fs: Fs, p: PState, dir: string, names: seq<string>, fuel: nat)
    requires CssOk(p)
    ensures var r := IncludeEach(fs, p, dir, names, fuel); r.Some? ==> CssOk(r.value) && Grows(p, r.value)
    decreases fuel, 1, |names|
  {
    if names != [] {
      IncludeCss(fs, p, Join(dir, names[0]), fuel);
      match Include(fs, p, Join(dir, names[0]), fuel)
      case None =>
      case Some(q) =>
        IncludeEachCss(fs, q, dir, names[1..], fuel);
        var r := IncludeEach(fs, q, dir, names[1..], fuel);
        if r.Some? {
          GrowsTrans(p, q, r.value);
        }
    }
  }

  lemma {:induction false} IncludeRegexCss(fs: Fs, p: PState, dir: string, pattern: string, fuel: nat)
    requires CssOk(p)
    ensures var r := IncludeRegex(fs, p, dir, pattern, fuel); r.Some? ==> CssOk(r.value) && Grows(p, r.value)
    decreases fuel, 2, 0
  {
    if fs.compiles(pattern) && dir in fs.listings {
      IncludeEachCss(fs, p, dir, RegexNames(fs, dir, pattern), fuel);
    }
  }

  /**
   * Across the whole recursive expansion `css` never holds a path twice, `cssMap` maps
   * exactly its entries to true, and `css` and `data` are only appended to, so every path
   * stays at the position of its first occurrence.
   */
  lemma {:induction false} IncludeCss(fs: Fs, p: PState, path: string, fuel: nat)
    requires CssOk(p)
    ensures var r := Include(fs, p, path, fuel); r.Some? ==> CssOk(r.value) && Grows(p, r.value)
    decreases fuel, 0, 0
  {
    if fuel > 0 && path in fs.files {
      IncludeLinesCss(fs, p, Dir(path), SplitLines(fs.files[path]), fuel - 1);
    }
  }

  // ---------------------------------------------------------------------------------------
  // Depth bookkeeping

  lemma {:induction false} StepDepth(fs: Fs, p: PState, dir: string, line: string, fuel: nat)
    ensures var r := Step(fs, p, dir, line, fuel); r.Some? ==> r.value.depth == p.depth
    decreases fuel, 3, 1
  {
    if HasPrefix(line, IncludeDirective) {
      IncludeDepth(fs, p.(depth := p.depth + 1), Join(dir, line[|IncludeDirective|..]), fuel);
    } else if HasPrefix(line, IncludeRegexDirective) {
      RegexLineDepth(fs, p, dir, line, fuel);
    } else if HasPrefix(line, CssDirective) {
      CssShape(fs, p, dir, line, fuel);
    } else if HasPrefix(line, TitleDirective) {
      TitleShape(fs, p, dir, line, fuel);
    } else {
      DataShape(fs, p, dir, line, fuel);
    }
  }

  lemma {:induction false} RegexLineDepth(fs: Fs, p: PState, dir: string, line: string, fuel: nat)
    requires HasPrefix(line, IncludeRegexDirective)
    ensures var r := Step(fs, p, dir, line, fuel); r.Some? ==> r.value.depth == p.depth
    decreases fuel, 3, 0
  {
    RegexShape(fs, p, dir, line, fuel);
    match SplitPipe(line[|IncludeRegexDirective|..])
    case None =>
    case Some((d, pattern)) =>
      IncludeRegexDepth(fs, p.(depth := p.depth + 1), Join(dir, d), pattern, fuel);
  }

  lemma {:induction false} IncludeLinesDepth(fs: Fs, p: PState, dir: string, lines: seq<string>, fuel: nat)
    ensures var r := IncludeLines(fs, p, dir, lines, fuel); r.Some? ==> r.value.depth == p.depth
    decreases fuel, 4, |lines|
  {
    if lines != [] {
      StepDepth(fs, p, dir, lines[0], fuel);
      match Step(fs, p, dir, lines[0], fuel)
      case None =>
      case Some(q) => IncludeLinesDepth(fs, q, dir, lines[1..], fuel);
    }
  }

  lemma {:induction false} IncludeEachDepth(fs: Fs, p: PState, dir: string, names: seq<string>, fuel: nat)
    ensures var r := IncludeEach(fs, p, dir, names, fuel); r.Some? ==> r.value.depth == p.depth
    decreases fuel, 1, |names|
  {
    if names != [] {
      IncludeDepth(fs, p, Join(dir, names[0]), fuel);
      match Include(fs, p, Join(dir, names[0]), fuel)
      case None =>
      case Some(q) => IncludeEachDepth(fs, q, dir, names[1..], fuel);
    }
  }

  /** A successful `:include*:` leaves `depth` where it found it. */
  lemma {:induction false} IncludeRegexDepth(fs: Fs, p: PState, dir: string, pattern: string, fuel: nat)
    ensures var r := IncludeRegex(fs, p, dir, pattern, fuel); r.Some? ==> r.value.depth == p.depth
    decreases fuel, 2, 0
  {
    if fs.compiles(pattern) && dir in fs.listings {
      IncludeEachDepth(fs, p, dir, RegexNames(fs, dir, pattern), fuel);
    }
  }

  /** A successful `:include:` leaves `depth` where it found it. */
  lemma {:induction false} IncludeDepth(fs: Fs, p: PState, path: string, fuel: nat)
    ensures var r := Include(fs, p, path, fuel); r.Some? ==> r.value.depth == p.depth
    decreases fuel, 0, 0
  {
    if fuel > 0 && path in fs.files {
      IncludeLinesDepth(fs, p, Dir(path), SplitLines(fs.files[path]), fuel - 1);
    }
  }

  // ---------------------------------------------------------------------------------------
  // Title precedence

  lemma {:induction false} StepTitleKept(fs: Fs, p: PState, dir: string, line: string, fuel: nat)
    requires p.depth > 0 && p.title != ""
    ensures var r := Step(fs, p, dir, line, fuel); r.Some? ==> r.value.title == p.title
    decreases fuel, 3, 1
  {
    if HasPrefix(line, IncludeDirective) {
      IncludeLineTitleKept(fs, p, dir, line, fuel);
    } else if HasPrefix(line, IncludeRegexDirective) {
      IncludeRegexLineTitleKept(fs, p, dir, line, fuel);
    } else if HasPrefix(line, CssDirective) {
      CssShape(fs, p, dir, line, fuel);
    } else if HasPrefix(line, TitleDirective) {
      TitleShape(fs, p, dir, line, fuel);
    } else {
      DataShape(fs, p, dir, line, fuel);
    }
  }

  lemma {:induction false} IncludeLineTitleKept(fs: Fs, p: PState, dir: string, line: string, fuel: nat)
    requires p.depth > 0 && p.title != "" && HasPrefix(line, IncludeDirective)
    ensures var r := Step(fs, p, dir, line, fuel); r.Some? ==> r.value.title == p.title
    decreases fuel, 3, 0
  {
    IncludeTitleKept(fs, p.(depth := p.depth + 1), Join(dir, line[|IncludeDirective|..]), fuel);
  }

  lemma {:induction false} IncludeRegexLineTitleKept(fs: Fs, p: PState, dir: string, line: string, fuel: nat)
    requires p.depth > 0 && p.title != "" && HasPrefix(line, IncludeRegexDirective)
    ensures var r := Step(fs, p, dir, line, fuel); r.Some? ==> r.value.title == p.title
    decreases fuel, 3, 0
  {
    var r := Step(fs, p, dir, line, fuel);
    match SplitPipe(line[|IncludeRegexDirective|..])
    case None =>
      assert r.None? by { RegexShape(fs, p, dir, line, fuel); }
    case Some((d, pattern)) =>
      var q := IncludeRegex(fs, p.(depth := p.depth + 1), Join(dir, d), pattern, fuel);
      assert r.Some? ==> q.Some? && r.value == q.value.(depth := q.value.depth - 1) by {
        RegexShape(fs, p, dir, line, fuel);
      }
      IncludeRegexTitleKept(fs, p.(depth := p.depth + 1), Join(dir, d), pattern, fuel);
  }

  /** An `:include*:` line is handled by the `:include*:` case alone. */
  lemma RegexShape(fs: Fs, p: PState, dir: string, line: string, fuel: nat)
    requires HasPrefix(line, IncludeRegexDirective)
    ensures Step(fs, p, dir, line, fuel) == RegexLineStep(fs, p, dir, line, fuel)
  {
    RegexNotInclude(line);
  }

  lemma RegexNotInclude(line: string)
    requires HasPrefix(line, IncludeRegexDirective)
    ensures !HasPrefix(line, IncludeDirective)
  {
    PrefixesDiffer(line, IncludeRegexDirective, IncludeDirective, 8);
  }

  lemma {:induction false} IncludeLinesTitleKept(fs: Fs, p: PState, dir: string, lines: seq<string>, fuel: nat)
    requires p.depth > 0 && p.title != ""
    ensures var r := IncludeLines(fs, p, dir, lines, fuel); r.Some? ==> r.value.title == p.title
    decreases fuel, 4, |lines|
  {
    if lines != [] {
      StepTitleKept(fs, p, dir, lines[0], fuel);
      StepDepth(fs, p, dir, lines[0], fuel);
      match Step(fs, p, dir, lines[0], fuel)
      case None =>
      case Some(q) => IncludeLinesTitleKept(fs, q, dir, lines[1..], fuel);
    }
  }

  lemma {:induction false} IncludeEachTitleKept(fs: Fs, p: PState, dir: string, names: seq<string>, fuel: nat)
    requires p.depth > 0 && p.title != ""
    ensures var r := IncludeEach(fs, p, dir, names, fuel); r.Some? ==> r.value.title == p.title
    decreases fuel, 1, |names|
  {
    if names != [] {
      IncludeTitleKept(fs, p, Join(dir, names[0]), fuel);
      IncludeDepth(fs, p, Join(dir, names[0]), fuel);
      match Include(fs, p, Join(dir, names[0]), fuel)
      case None =>
      case Some(q) => IncludeEachTitleKept(fs, q, dir, names[1..], fuel);
    }
  }

  lemma {:induction false} IncludeRegexTitleKept(fs: Fs, p: PState, dir: string, pattern: string, fuel: nat)
    requires p.depth > 0 && p.title != ""
    ensures var r := IncludeRegex(fs, p, dir, pattern, fuel); r.Some? ==> r.value.title == p.title
    decreases fuel, 2, 0
  {
    if fs.compiles(pattern) && dir in fs.listings {
      IncludeEachTitleKept(fs, p, dir, RegexNames(fs, dir, pattern), fuel);
    }
  }

  /** Below the top level, a title already set is never replaced. */
  lemma {:induction false} IncludeTitleKept(fs: Fs, p: PState, path: string, fuel: nat)
    requires p.depth > 0 && p.title != ""
    ensures var r := Include(fs, p, path, fuel); r.Some? ==> r.value.title == p.title
    decreases fuel, 0, 0
  {
    if fuel > 0 && path in fs.files {
      IncludeLinesTitleKept(fs, p, Dir(path), SplitLines(fs.files[path]), fuel - 1);
    }
  }

  /** At the top level, once a title is set only a further top-level `:title:` line replaces it. */
  lemma {:induction false} TopLevelTitleKept(fs: Fs, p: PState, dir: string, lines: seq<string>, fuel: nat)
    requires p.depth == 0 && p.title != ""
    requires forall j :: 0 <= j < |lines| ==> !HasPrefix(lines[j], TitleDirective)
    ensures var r := IncludeLines(fs, p, dir, lines, fuel); r.Some? ==> r.value.title == p.title
    decreases |lines|
  {
    if lines != [] {
      var line := lines[0];
      if HasPrefix(line, IncludeDirective) {
        IncludeTitleKept(fs, p.(depth := 1), Join(dir, line[|IncludeDirective|..]), fuel);
      } else if HasPrefix(line, IncludeRegexDirective) {
        match SplitPipe(line[|IncludeRegexDirective|..])
        case None =>
        case Some((d, pattern)) =>
          IncludeRegexTitleKept(fs, p.(depth := 1), Join(dir, d), pattern, fuel);
      }
      StepDepth(fs, p, dir, line, fuel);
      match Step(fs, p, dir, line, fuel)
      case None =>
      case Some(q) => TopLevelTitleKept(fs, q, dir, lines[1..], fuel);
    }
  }

  /** Processing `a + b` is processing `a`, then, if that succeeded, `b` from where `a` ended. */
  lemma {:induction false} IncludeLinesAppend(fs: Fs, p: PState, dir: string, a: seq<string>, b: seq<string>, fuel: nat)
    ensures IncludeLines(fs, p, dir, a + b, fuel)
         == match IncludeLines(fs, p, dir, a, fuel)
            case None => None
            case Some(q) => IncludeLines(fs, q, dir, b, fuel)
    decreases |a|
  {
    if a == [] {
      assert a + b == b;
    } else {
      assert (a + b)[0] == a[0] && (a + b)[1..] == a[1..] + b;
      match Step(fs, p, dir, a[0], fuel)
      case None =>
      case Some(q) => IncludeLinesAppend(fs, q, dir, a[1..], b, fuel);
    }
  }

  /**
   * The title of a successful resolution is the value of the root file's last `:title:`
   * line when that value is non-empty, whatever titles the included files carry.
   */
  lemma LastTopLevelTitleWins(fs: Fs, p: PState, dir: string, lines: seq<string>, k: nat, fuel: nat)
    requires p.depth == 0 && k < |lines|
    requires HasPrefix(lines[k], TitleDirective) && lines[k][|TitleDirective|..] != ""
    requires forall j :: k < j < |lines| ==> !HasPrefix(lines[j], TitleDirective)
    ensures var r := IncludeLines(fs, p, dir, lines, fuel);
            r.Some? ==> r.value.title == lines[k][|TitleDirective|..]
  {
    assert lines == lines[..k] + lines[k..];
    IncludeLinesAppend(fs, p, dir, lines[..k], lines[k..], fuel);
    match IncludeLines(fs, p, dir, lines[..k], fuel)
    case None =>
    case Some(q) =>
      IncludeLinesDepth(fs, p, dir, lines[..k], fuel);
      var line := lines[k];
      PrefixesDiffer(line, TitleDirective, IncludeDirective, 1);
      PrefixesDiffer(line, TitleDirective, IncludeRegexDirective, 1);
      PrefixesDiffer(line, TitleDirective, CssDirective, 1);
      var q2 := q.(title := line[|TitleDirective|..]);
      assert Step(fs, q, dir, line, fuel) == Some(q2);
      var rest := lines[k..][1..];
      assert forall j :: 0 <= j < |rest| ==> rest[j] == lines[k + 1 + j];
      TopLevelTitleKept(fs, q2, dir, rest, fuel);
  }

  // ---------------------------------------------------------------------------------------
  // Files without directives

  predicate IsDirective(line: string) {
    || HasPrefix(line, IncludeDirective) || HasPrefix(line, IncludeRegexDirective)
    || HasPrefix(line, CssDirective) || HasPrefix(line, TitleDirective)
  }

  /** Lines without directives are appended to `data` in order, each followed by a newline. */
  lemma {:induction false} PlainLines(fs: Fs, p: PState, dir: string, lines: seq<string>, fuel: nat)
    requires forall j :: 0 <= j < |lines| ==> !IsDirective(lines[j])
    ensures IncludeLines(fs, p, dir, lines, fuel) == Some(p.(data := p.data + Terminated(lines)))
    decreases |lines|
  {
    if lines == [] {
      assert p.data + Terminated(lines) == p.data;
    } else {
      var q := p.(data := p.data + lines[0] + "\n");
      assert Step(fs, p, dir, lines[0], fuel) == Some(q);
      PlainLines(fs, q, dir, lines[1..], fuel);
      TerminatedCons(lines[0], lines[1..]);
      assert lines == [lines[0]] + lines[1..];
      Assoc(p.data + lines[0], "\n", Terminated(lines[1..]));
      Assoc(p.data, lines[0], "\n" + Terminated(lines[1..]));
      Assoc(lines[0], "\n", Terminated(lines[1..]));
    }
  }

  /**
   * Including a file without directive lines appends the file itself to `data`, with each
   * CRLF turned into LF, a CR at the very end turned into LF, and a final LF added when the
   * file does not end with one.
   */
  lemma PlainFile(fs: Fs, p: PState, path: string, fuel: nat)
    requires fuel > 0 && path in fs.files
    requires forall line :: line in SplitLines(fs.files[path]) ==> !IsDirective(line)
    ensures Include(fs, p, path, fuel) == Some(p.(data := p.data + Normalize(fs.files[path])))
  {
    var lines := SplitLines(fs.files[path]);
    assert forall j :: 0 <= j < |lines| ==> !IsDirective(lines[j]);
    PlainLines(fs, p, Dir(path), lines, fuel - 1);
    SplitRoundTrip(fs.files[path]);
  }

  /** An `:include:` of a file without directives appends that file, normalized, to `data`. */
  lemma IncludePlainFile(fs: Fs, p: PState, dir: string, line: string, fuel: nat)
    requires HasPrefix(line, IncludeDirective)
    requires var path := Join(dir, line[|IncludeDirective|..]);
             && fuel > 0 && path in fs.files
             && forall l :: l in SplitLines(fs.files[path]) ==> !IsDirective(l)
    ensures var path := Join(dir, line[|IncludeDirective|..]);
            Step(fs, p, dir, line, fuel) == Some(p.(data := p.data + Normalize(fs.files[path])))
  {
    var path := Join(dir, line[|IncludeDirective|..]);
    PlainFile(fs, p.(depth := p.depth + 1), path, fuel);
  }

  /**
   * Included content is spliced in place of its directive: lines before it, the included file,
   * and lines after it reach `data` in that order.
   */
  lemma SpliceInPlace(fs: Fs, p: PState, dir: string, before: seq<string>, line: string, after: seq<string>, fuel: nat)
    requires forall j :: 0 <= j < |before| ==> !IsDirective(before[j])
    requires forall j :: 0 <= j < |after| ==> !IsDirective(after[j])
    requires HasPrefix(line, IncludeDirective)
    requires var path := Join(dir, line[|IncludeDirective|..]);
             && fuel > 0 && path in fs.files
             && forall l :: l in SplitLines(fs.files[path]) ==> !IsDirective(l)
    ensures var path := Join(dir, line[|IncludeDirective|..]);
            IncludeLines(fs, p, dir, before + [line] + after, fuel)
            == Some(p.(data := p.data + Terminated(before) + Normalize(fs.files[path]) + Terminated(after)))
  {
    var path := Join(dir, line[|IncludeDirective|..]);
    IncludeLinesAppend(fs, p, dir, before, [line] + after, fuel);
    assert before + [line] + after == before + ([line] + after);
    PlainLines(fs, p, dir, before, fuel);
    var q := p.(data := p.data + Terminated(before));
    IncludeLinesCons(fs, q, dir, line, after, fuel);
    IncludePlainFile(fs, q, dir, line, fuel);
    var q2 := q.(data := q.data + Normalize(fs.files[path]));
    PlainLines(fs, q2, dir, after, fuel);
  }

  // ---------------------------------------------------------------------------------------
  // The files `:include*:` includes

  /** A name is collected exactly when some listed entry with that name qualifies. */
  lemma {:induction false} MatchingMembers(fs: Fs, pattern: string, entries: seq<DirEntry>, name: string)
    ensures name in Matching(fs, pattern, entries)
        <==> exists k :: 0 <= k < |entries| && entries[k].name == name && Qualifies(fs, pattern, entries[k])
    decreases |entries|
  {
    if entries != [] {
      var n := |entries| - 1;
      MatchingMembers(fs, pattern, entries[..n], name);
      MatchingSnoc(fs, pattern, entries, name);
      ListedSnoc(fs, pattern, entries, name);
    }
  }

  /** The last entry's name is collected after those of the entries before it. */
  lemma MatchingSnoc(fs: Fs, pattern: string, entries: seq<DirEntry>, name: string)
    requires entries != []
    ensures var n := |entries| - 1;
            name in Matching(fs, pattern, entries)
            <==> name in Matching(fs, pattern, entries[..n]) || (entries[n].name == name && Qualifies(fs, pattern, entries[n]))
  {
  }

  /** A qualifying entry of that name is in the listing exactly when it is among the first ones or is the last. */
  lemma ListedSnoc(fs: Fs, pattern: string, entries: seq<DirEntry>, name: string)
    requires entries != []
    ensures var n := |entries| - 1;
            (exists k :: 0 <= k < |entries| && entries[k].name == name && Qualifies(fs, pattern, entries[k]))
            <==> (exists k :: 0 <= k < n && entries[..n][k].name == name && Qualifies(fs, pattern, entries[..n][k]))
                 || (entries[n].name == name && Qualifies(fs, pattern, entries[n]))
  {
    var n := |entries| - 1;
    var front := entries[..n];
    if exists k :: 0 <= k < n && front[k].name == name && Qualifies(fs, pattern, front[k]) {
      var k :| 0 <= k < n && front[k].name == name && Qualifies(fs, pattern, front[k]);
      assert entries[k] == front[k];
    }
    if exists k :: 0 <= k < |entries| && entries[k].name == name && Qualifies(fs, pattern, entries[k]) {
      var k :| 0 <= k < |entries| && entries[k].name == name && Qualifies(fs, pattern, entries[k]);
      if k < n {
        assert front[k] == entries[k];
      }
    }
  }

  /** Listing entries have pairwise different names. */
  predicate DistinctNames(entries: seq<DirEntry>) {
    forall i, j :: 0 <= i < j < |entries| ==> entries[i].name != entries[j].name
  }

  /** From a listing with distinct names, no name is collected twice. */
  lemma {:induction false} MatchingNoDup(fs: Fs, pattern: string, entries: seq<DirEntry>)
    requires DistinctNames(entries)
    ensures NoDup(Matching(fs, pattern, entries))
    decreases |entries|
  {
    if entries != [] {
      var n := |entries| - 1;
      var front := entries[..n];
      assert DistinctNames(front);
      MatchingNoDup(fs, pattern, front);
      if Qualifies(fs, pattern, entries[n]) {
        var name := entries[n].name;
        MatchingMembers(fs, pattern, front, name);
        assert name !in Matching(fs, pattern, front);
      }
    }
  }

  /** Count of `x` in a sequence without duplicates is at most one. */
  lemma NoDupCount(s: seq<string>, x: string)
    requires NoDup(s)
    ensures multiset(s)[x] <= 1
    decreases |s|
  {
    if s != [] {
      assert s == [s[0]] + s[1..];
      assert NoDup(s[1..]);
      NoDupCount(s[1..], x);
      if s[0] == x {
        assert x !in s[1..];
      }
    }
  }

  /** A sequence in which every element occurs at most once has no duplicates. */
  lemma CountNoDup(s: seq<string>)
    requires forall x :: multiset(s)[x] <= 1
    ensures NoDup(s)
  {
    forall i, j | 0 <= i < j < |s|
      ensures s[i] != s[j]
    {
      assert s == s[..j] + [s[j]] + s[j + 1..];
      assert s[i] in s[..j];
      assert multiset(s)[s[j]] >= multiset(s[..j])[s[j]] + 1;
    }
  }

  /**
   * `:include*:` includes the qualifying entries of the listing and nothing else; no name
   * comes right after one it is less than when the comparison is asymmetric, and none comes
   * anywhere after one it is less than when the comparison is a strict weak order; and, the
   * names of a directory being distinct, it includes each of them once.
   */
  lemma RegexNamesSpec(fs: Fs, dir: string, pattern: string)
    requires dir in fs.listings
    ensures var names := RegexNames(fs, dir, pattern);
            && (forall name :: name in names
                  <==> exists k :: 0 <= k < |fs.listings[dir]| && fs.listings[dir][k].name == name
                                   && Qualifies(fs, pattern, fs.listings[dir][k]))
            && (Asymmetric(fs.naturalLess) ==> SortedBy(fs.naturalLess, names))
            && (Asymmetric(fs.naturalLess) && NotLessTransitive(fs.naturalLess) ==>
                  forall i, j :: 0 <= i < j < |names| ==> !fs.naturalLess(names[j], names[i]))
            && (DistinctNames(fs.listings[dir]) ==> NoDup(names))
  {
    var entries := fs.listings[dir];
    var m := Matching(fs, pattern, entries);
    var names := RegexNames(fs, dir, pattern);
    assert multiset(names) == multiset(m);
    forall name ensures name in names <==> exists k :: 0 <= k < |entries| && entries[k].name == name && Qualifies(fs, pattern, entries[k])
    {
      assert name in names <==> name in multiset(names);
      assert name in m <==> name in multiset(m);
      MatchingMembers(fs, pattern, entries, name);
    }
    if DistinctNames(entries) {
      MatchingNoDup(fs, pattern, entries);
      forall x ensures multiset(names)[x] <= 1 {
        NoDupCount(m, x);
      }
      CountNoDup(names);
    }
    if Asymmetric(fs.naturalLess) && NotLessTransitive(fs.naturalLess) {
      forall i, j | 0 <= i < j < |names| ensures !fs.naturalLess(names[j], names[i]) {
        SortedAll(fs.naturalLess, names, i, j);
      }
    }
  }

  /** A `:css:` line records its path, unless the path is already recorded, in which case nothing changes. */
  lemma CssDirectiveRecorded(fs: Fs, p: PState, dir: string, line: string, fuel: nat)
    requires CssOk(p) && HasPrefix(line, CssDirective)
    ensures var path := Join(dir, line[|CssDirective|..]);
            && Step(fs, p, dir, line, fuel).Some?
            && path in Step(fs, p, dir, line, fuel).value.css
            && (path in p.css ==> Step(fs, p, dir, line, fuel) == Some(p))
  {
    PrefixesDiffer(line, CssDirective, IncludeDirective, 1);
    PrefixesDiffer(line, CssDirective, IncludeRegexDirective, 1);
    CssStep(p, Join(dir, line[|CssDirective|..]));
  }

  // ---------------------------------------------------------------------------------------
  // The page

  /**
   * `MarkdownToHTML(file)`: resolve the directives of `file` from an empty processor, then
   * wrap the Markdown rendering of the collected text in the page head and tail. The Markdown
   * renderer is a parameter `render`, which may fail.
   */
  function Convert(fs: Fs, file: string, fuel: nat, render: string -> Option<string>): Option<string> {
    match Include(fs, Empty, file, fuel)
    case None => None
    case Some(p) =>
      match render(p.data)
      case None => None
      case Some(body) => Some(Page(p.title, p.css, body))
  }

  /** A page produced with some bound on the include depth is the page produced with any larger bound. */
  lemma ConvertFuelMono(fs: Fs, file: string, fuel: nat, fuel': nat, render: string -> Option<string>)
    requires fuel <= fuel'
    ensures Convert(fs, file, fuel, render).Some? ==> Convert(fs, file, fuel', render) == Convert(fs, file, fuel, render)
  {
    IncludeFuelMono(fs, Empty, file, fuel, fuel');
  }

  /** A converted page names in its `<title>` the title the resolution settled on. */
  lemma ConvertTitle(fs: Fs, file: string, fuel: nat, render: string -> Option<string>)
    ensures var r := Convert(fs, file, fuel, render);
            r.Some? ==> Include(fs, Empty, file, fuel).Some?
                        && ExtractTitle(r.value) == Include(fs, Empty, file, fuel).value.title
  {
    match Include(fs, Empty, file, fuel)
    case None =>
    case Some(p) =>
      match render(p.data)
      case None =>
      case Some(body) => PageTitleRoundTrip(p.title, p.css, body);
  }

  /**
   * A converted page links no stylesheet twice, and its links, read back, are the css list
   * in order of first mention (for paths without a double quote: the source writes css
   * paths into `href` unescaped).
   */
  lemma ConvertLinks(fs: Fs, file: string, fuel: nat, render: string -> Option<string>)
    ensures var r := Convert(fs, file, fuel, render);
            r.Some? ==>
              && Include(fs, Empty, file, fuel).Some?
              && var p := Include(fs, Empty, file, fuel).value;
              && NoDup(p.css)
              && ((forall k :: 0 <= k < |p.css| ==> '"' !in p.css[k]) ==>
                    var start := |HeadOpen + (EscapeString(p.title) + TitleClose)|;
                    start <= |r.value| && ParseLinks(r.value[start..]) == p.css)
  {
    IncludeCss(fs, Empty, file, fuel);
    match Include(fs, Empty, file, fuel)
    case None =>
    case Some(p) =>
      match render(p.data)
      case None =>
      case Some(body) =>
        if forall k :: 0 <= k < |p.css| ==> '"' !in p.css[k] {
          PageLinksRoundTrip(p.title, p.css, body);
        }
  }

  /**
   * The page title is the value of the root file's last `:title:` line when that value is
   * non-empty; titles in included files do not override it.
   */
  lemma ConvertTitleFromRoot(fs: Fs, file: string, fuel: nat, render: string -> Option<string>, k: nat)
    requires fuel > 0 && file in fs.files
    requires var lines := SplitLines(fs.files[file]);
             && k < |lines| && HasPrefix(lines[k], TitleDirective) && lines[k][|TitleDirective|..] != ""
             && forall j :: k < j < |lines| ==> !HasPrefix(lines[j], TitleDirective)
    ensures var r := Convert(fs, file, fuel, render);
            r.Some? ==> ExtractTitle(r.value) == SplitLines(fs.files[file])[k][|TitleDirective|..]
  {
    RootTitle(fs, file, fuel, k);
    ConvertTitle(fs, file, fuel, render);
  }

  /** The title resolution settles on for a root file whose last `:title:` line is `k`. */
  lemma RootTitle(fs: Fs, file: string, fuel: nat, k: nat)
    requires fuel > 0 && file in fs.files
    requires var lines := SplitLines(fs.files[file]);
             && k < |lines| && HasPrefix(lines[k], TitleDirective) && lines[k][|TitleDirective|..] != ""
             && forall j :: k < j < |lines| ==> !HasPrefix(lines[j], TitleDirective)
    ensures var q := Include(fs, Empty, file, fuel);
            q.Some? ==> q.value.title == SplitLines(fs.files[file])[k][|TitleDirective|..]
  {
    var lines := SplitLines(fs.files[file]);
    assert Include(fs, Empty, file, fuel) == IncludeLines(fs, Empty, Dir(file), lines, fuel - 1);
    LastTopLevelTitleWins(fs, Empty, Dir(file), lines, k, fuel - 1);
  }

  // ---------------------------------------------------------------------------------------
  // Fuel bounds only the include nesting depth: once a run succeeds, more fuel changes nothing

  /** A successful include comes out the same with any larger bound on the nesting depth. */
  lemma {:induction false} IncludeFuelMono(fs: Fs, p: PState, path: string, fuel: nat, fuel': nat)
    requires fuel <= fuel'
    ensures Include(fs, p, path, fuel).Some? ==> Include(fs, p, path, fuel') == Include(fs, p, path, fuel)
    decreases fuel, 0, 0
  {
    if fuel > 0 && path in fs.files {
      IncludeLinesFuelMono(fs, p, Dir(path), SplitLines(fs.files[path]), fuel - 1, fuel' - 1);
    }
  }

  lemma {:induction false} IncludeEachFuelMono(fs: Fs, p: PState, dir: string, names: seq<string>, fuel: nat, fuel': nat)
    requires fuel <= fuel'
    ensures IncludeEach(fs, p, dir, names, fuel).Some?
            ==> IncludeEach(fs, p, dir, names, fuel') == IncludeEach(fs, p, dir, names, fuel)
    decreases fuel, 1, |names|
  {
    if names != [] {
      IncludeFuelMono(fs, p, Join(dir, names[0]), fuel, fuel');
      match Include(fs, p, Join(dir, names[0]), fuel)
      case None =>
      case Some(q) => IncludeEachFuelMono(fs, q, dir, names[1..], fuel, fuel');
    }
  }

  lemma {:induction false} IncludeRegexFuelMono(fs: Fs, p: PState, dir: string, pattern: string, fuel: nat, fuel': nat)
    requires fuel <= fuel'
    ensures IncludeRegex(fs, p, dir, pattern, fuel).Some?
            ==> IncludeRegex(fs, p, dir, pattern, fuel') == IncludeRegex(fs, p, dir, pattern, fuel)
    decreases fuel, 2, 0
  {
    if fs.compiles(pattern) && dir in fs.listings {
      IncludeEachFuelMono(fs, p, dir, RegexNames(fs, dir, pattern), fuel, fuel');
    }
  }

  lemma {:induction false} IncludeLineFuelMono(fs: Fs, p: PState, dir: string, line: string, fuel: nat, fuel': nat)
    requires fuel <= fuel' && HasPrefix(line, IncludeDirective)
    ensures IncludeLineStep(fs, p, dir, line, fuel).Some?
            ==> IncludeLineStep(fs, p, dir, line, fuel') == IncludeLineStep(fs, p, dir, line, fuel)
    decreases fuel, 3, 0
  {
    IncludeFuelMono(fs, p.(depth := p.depth + 1), Join(dir, line[|IncludeDirective|..]), fuel, fuel');
  }

  lemma {:induction false} RegexLineFuelMono(fs: Fs, p: PState, dir: string, line: string, fuel: nat, fuel': nat)
    requires fuel <= fuel' && HasPrefix(line, IncludeRegexDirective)
    ensures RegexLineStep(fs, p, dir, line, fuel).Some?
            ==> RegexLineStep(fs, p, dir, line, fuel') == RegexLineStep(fs, p, dir, line, fuel)
    decreases fuel, 3, 0
  {
    match SplitPipe(line[|IncludeRegexDirective|..])
    case None =>
    case Some((d, pattern)) => IncludeRegexFuelMono(fs, p.(depth := p.depth + 1), Join(dir, d), pattern, fuel, fuel');
  }

  lemma {:induction false} StepFuelMono(fs: Fs, p: PState, dir: string, line: string, fuel: nat, fuel': nat)
    requires fuel <= fuel'
    ensures Step(fs, p, dir, line, fuel).Some? ==> Step(fs, p, dir, line, fuel') == Step(fs, p, dir, line, fuel)
    decreases fuel, 3, 1
  {
    if HasPrefix(line, IncludeDirective) {
      IncludeLineFuelMono(fs, p, dir, line, fuel, fuel');
    } else if HasPrefix(line, IncludeRegexDirective) {
      RegexLineFuelMono(fs, p, dir, line, fuel, fuel');
    }
  }

  lemma {:induction false} IncludeLinesFuelMono(fs: Fs, p: PState, dir: string, lines: seq<string>, fuel: nat, fuel': nat)
    requires fuel <= fuel'
    ensures IncludeLines(fs, p, dir, lines, fuel).Some?
            ==> IncludeLines(fs, p, dir, lines, fuel') == IncludeLines(fs, p, dir, lines, fuel)
    decreases fuel, 4, |lines|
  {
    if lines != [] {
      StepFuelMono(fs, p, dir, lines[0], fuel, fuel');
      match Step(fs, p, dir, lines[0], fuel)
      case None =>
      case Some(q) => IncludeLinesFuelMono(fs, q, dir, lines[1..], fuel, fuel');
    }
  }
}
