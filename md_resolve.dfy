/**
 * The directive resolver of md/md.go (`MarkDown.processIntoLines` and `MarkDown.include`),
 * as functions over a value `State` that mirrors the fields of the `MarkDown` struct.
 * The `MarkDown` class is proved against these functions.
 *
 * Files come from the include provider, a map from path to content (a path outside the
 * map fails to open). `fuel` bounds the include nesting depth: each nested `:include:` takes
 * one unit and sibling lines share it, so a chain nested deeper than `fuel` fails, cyclic or
 * not, where the source succeeds on an acyclic chain and recurses forever on a cycle. A
 * successful run does not change with more fuel (`IncludeFuelMono`).
 */
module MdResolve {
  import opened Wrappers
  import opened Strings
  import opened Lines
  import opened Paths

  const IncludeDirective: string := ":include:"
  const CssDirective: string := ":css:"
  const TitleDirective: string := ":title:"
  const IdDirective: string := ":id:"
  const StyleDirective: string := ":style:"
  const ClassDirective: string := ":class:"

  /** The keys a pending attribute map can hold: the directives themselves, as in the source. */
  const AttrKeys: set<string> := {IdDirective, StyleDirective, ClassDirective}

  /** Pending attributes of one line, keyed by the directive that set them. */
  type Attrs = map<string, string>

  /** What `includeProvider` can open: the content of each path; other paths fail. */
  type Provider = map<string, string>

  /** The configuration fields of `MarkDown` that resolution reads. */
  datatype Env = Env(includeProvider: Provider, lineBufferSize: int)

  /** The fields of `MarkDown` that resolution updates. */
  datatype State = State(
    depth: int,
    lines: seq<string>,
    lineDirectives: seq<Option<Attrs>>,
    lineDirective: Attrs,
    css: seq<string>,
    title: string)

  /** The state reached and whether no error occurred; after an error, the state at that point. */
  datatype Run = Run(st: State, ok: bool)

  /** Joins a value onto the pending one for `key` with `sep`, or starts it. */
  function Append(pending: Attrs, key: string, sep: string, value: string): Attrs {
    pending[key := if key in pending then pending[key] + sep + value else value]
  }

  /** One line of `processIntoLines`: the `switch` on the directive prefixes. */
  function Step(env: Env, st: State, dir: string, line: string, fuel: nat): Run
    decreases fuel, 1, 0
  {
    if HasPrefix(line, IncludeDirective) then
      var r := Include(env, st.(depth := st.depth + 1), Join(dir, line[|IncludeDirective|..]), fuel);
      if r.ok then Run(r.st.(depth := r.st.depth - 1), true) else r
    else if HasPrefix(line, CssDirective) then
      Run(st.(css := st.css + [Join(dir, line[|CssDirective|..])]), true)
    else if HasPrefix(line, TitleDirective) then
      Run(if st.depth == 0 || st.title == "" then st.(title := line[|TitleDirective|..]) else st, true)
    else if HasPrefix(line, IdDirective) then
      Run(st.(lineDirective := st.lineDirective[IdDirective := line[|IdDirective|..]]), true)
    else if HasPrefix(line, StyleDirective) then
      Run(st.(lineDirective := Append(st.lineDirective, StyleDirective, "; ", line[|StyleDirective|..])), true)
    else if HasPrefix(line, ClassDirective) then
      Run(st.(lineDirective := Append(st.lineDirective, ClassDirective, " ", line[|ClassDirective|..])), true)
    else if TrimSpace(line) == "" then
      Run(st.(lines := st.lines + [""], lineDirectives := st.lineDirectives + [None], lineDirective := map[]), true)
    else
      Run(st.(lines := st.lines + [line], lineDirectives := st.lineDirectives + [Some(st.lineDirective)],
              lineDirective := map[]), true)
  }

  /** The scanner loop of `processIntoLines` over the lines it delivers, stopping at the first error. */
  function ProcessLines(env: Env, st: State, dir: string, lines: seq<string>, fuel: nat): Run
    decreases fuel, 2, |lines|
  {
    if lines == [] then Run(st, true)
    else
      var r := Step(env, st, dir, lines[0], fuel);
      if r.ok then ProcessLines(env, r.st, dir, lines[1..], fuel) else r
  }

  /** `processIntoLines(dir, in)`: the delivered lines, then the scanner's error for an over-long line. */
  function ProcessIntoLines(env: Env, st: State, dir: string, content: string, fuel: nat): Run
    decreases fuel, 3, 0
  {
    var sc := ScanLines(content, env.lineBufferSize);
    var r := ProcessLines(env, st, dir, sc.tokens, fuel);
    if r.ok && sc.tooLong then Run(r.st, false) else r
  }

  /** `include(path)`: open the path through the provider and process it relative to its directory. */
  function Include(env: Env, st: State, path: string, fuel: nat): Run
    decreases fuel, 0, 0
  {
    if fuel == 0 || path !in env.includeProvider then Run(st, false)
    else ProcessIntoLines(env, st, Dir(path), env.includeProvider[path], fuel - 1)
  }

  // ---------------------------------------------------------------------------------------
  // Stored lines: lock-step lists, blank and content lines, append-only growth

  predicate IsDirective(line: string) {
    || HasPrefix(line, IncludeDirective) || HasPrefix(line, CssDirective) || HasPrefix(line, TitleDirective)
    || HasPrefix(line, IdDirective) || HasPrefix(line, StyleDirective) || HasPrefix(line, ClassDirective)
  }

  /**
   * How an entry is stored: a blank line as "" with a nil map; a content line verbatim
   * (never "", never white space only, never a directive) with the attribute map it was given.
   */
  predicate StoredEntry(line: string, d: Option<Attrs>) {
    || (line == "" && d.None?)
    || (line != "" && !AllSpace(line) && !IsDirective(line) && d.Some? && d.value.Keys <= AttrKeys)
  }

  /** `lines` and `lineDirectives` have equal length and every entry is stored as above. */
  predicate Valid(st: State) {
    && |st.lines| == |st.lineDirectives|
    && (forall k :: 0 <= k < |st.lines| ==> StoredEntry(st.lines[k], st.lineDirectives[k]))
    && st.lineDirective.Keys <= AttrKeys
  }

  /** Resolution only appends to `lines`, `lineDirectives` and `css`. */
  predicate Extends(st: State, st': State) {
    && st.lines <= st'.lines
    && st.lineDirectives <= st'.lineDirectives
    && st.css <= st'.css
  }

  lemma ExtendsTrans(a: State, b: State, c: State)
    requires Extends(a, b) && Extends(b, c)
    ensures Extends(a, c)
  {
    assert a.lines == b.lines[..|a.lines|] && b.lines == c.lines[..|b.lines|];
    assert a.lines == c.lines[..|a.lines|];
    assert a.lineDirectives == c.lineDirectives[..|a.lineDirectives|];
    assert a.css == c.css[..|a.css|];
  }

  lemma {:induction false} StepKeeps(env: Env, st: State, dir: string, line: string, fuel: nat)
    requires Valid(st)
    ensures Valid(Step(env, st, dir, line, fuel).st) && Extends(st, Step(env, st, dir, line, fuel).st)
    decreases fuel, 1, 0
  {
    var st' := Step(env, st, dir, line, fuel).st;
    if HasPrefix(line, IncludeDirective) {
      IncludeKeeps(env, st.(depth := st.depth + 1), Join(dir, line[|IncludeDirective|..]), fuel);
    } else if IsDirective(line) {
      DirectiveStoresNothing(env, st, dir, line, fuel);
    } else {
      ContentKeeps(env, st, dir, line, fuel);
    }
  }

  /** A blank or content line appends one entry stored as `StoredEntry` says. */
  lemma ContentKeeps(env: Env, st: State, dir: string, line: string, fuel: nat)
    requires Valid(st) && !IsDirective(line)
    ensures Valid(Step(env, st, dir, line, fuel).st) && Extends(st, Step(env, st, dir, line, fuel).st)
  {
    NonDirectiveStored(env, st, dir, line, fuel);
    var st' := Step(env, st, dir, line, fuel).st;
    if AllSpace(line) {
      StoredSnoc(st, st', "", None);
    } else {
      StoredSnoc(st, st', line, Some(st.lineDirective));
    }
  }

  /** Appending one well-stored entry to both lists keeps `Valid` and only extends. */
  lemma StoredSnoc(st: State, st': State, line: string, d: Option<Attrs>)
    requires Valid(st) && StoredEntry(line, d)
    requires st'.lines == st.lines + [line] && st'.lineDirectives == st.lineDirectives + [d]
    requires st'.css == st.css && st'.lineDirective == map[]
    ensures Valid(st') && Extends(st, st')
  {
    assert forall k :: 0 <= k < |st.lines| ==> st'.lines[k] == st.lines[k] && st'.lineDirectives[k] == st.lineDirectives[k];
  }

  lemma {:induction false} ProcessLinesKeeps(env: Env, st: State, dir: string, lines: seq<string>, fuel: nat)
    requires Valid(st)
    ensures Valid(ProcessLines(env, st, dir, lines, fuel).st) && Extends(st, ProcessLines(env, st, dir, lines, fuel).st)
    decreases fuel, 2, |lines|
  {
    if lines != [] {
      StepKeeps(env, st, dir, lines[0], fuel);
      var r := Step(env, st, dir, lines[0], fuel);
      if r.ok {
        ProcessLinesKeeps(env, r.st, dir, lines[1..], fuel);
        ExtendsTrans(st, r.st, ProcessLines(env, r.st, dir, lines[1..], fuel).st);
      }
    }
  }

  lemma {:induction false} ProcessIntoLinesKeeps(env: Env, st: State, dir: string, content: string, fuel: nat)
    requires Valid(st)
    ensures Valid(ProcessIntoLines(env, st, dir, content, fuel).st)
    ensures Extends(st, ProcessIntoLines(env, st, dir, content, fuel).st)
    decreases fuel, 3, 0
  {
    ProcessLinesKeeps(env, st, dir, ScanLines(content, env.lineBufferSize).tokens, fuel);
  }

  /**
   * Whatever the included files contain, and whether or not resolution fails part-way,
   * `lines` and `lineDirectives` stay in lock-step, blank and content lines are stored as
   * `StoredEntry` says, and the lists only grow at their ends.
   */
  lemma {:induction false} IncludeKeeps(env: Env, st: State, path: string, fuel: nat)
    requires Valid(st)
    ensures Valid(Include(env, st, path, fuel).st) && Extends(st, Include(env, st, path, fuel).st)
    decreases fuel, 0, 0
  {
    if fuel > 0 && path in env.includeProvider {
      ProcessIntoLinesKeeps(env, st, Dir(path), env.includeProvider[path], fuel - 1);
    }
  }

  // ---------------------------------------------------------------------------------------
  // Depth bookkeeping

  lemma {:induction false} StepDepth(env: Env, st: State, dir: string, line: string, fuel: nat)
    ensures Step(env, st, dir, line, fuel).ok ==> Step(env, st, dir, line, fuel).st.depth == st.depth
    decreases fuel, 1, 0
  {
    if HasPrefix(line, IncludeDirective) {
      IncludeDepth(env, st.(depth := st.depth + 1), Join(dir, line[|IncludeDirective|..]), fuel);
    }
  }

  lemma {:induction false} ProcessLinesDepth(env: Env, st: State, dir: string, lines: seq<string>, fuel: nat)
    ensures ProcessLines(env, st, dir, lines, fuel).ok ==> ProcessLines(env, st, dir, lines, fuel).st.depth == st.depth
    decreases fuel, 2, |lines|
  {
    if lines != [] {
      StepDepth(env, st, dir, lines[0], fuel);
      var r := Step(env, st, dir, lines[0], fuel);
      if r.ok {
        ProcessLinesDepth(env, r.st, dir, lines[1..], fuel);
      }
    }
  }

  lemma {:induction false} ProcessIntoLinesDepth(env: Env, st: State, dir: string, content: string, fuel: nat)
    ensures ProcessIntoLines(env, st, dir, content, fuel).ok ==> ProcessIntoLines(env, st, dir, content, fuel).st.depth == st.depth
    decreases fuel, 3, 0
  {
    ProcessLinesDepth(env, st, dir, ScanLines(content, env.lineBufferSize).tokens, fuel);
  }

  /** A successful include leaves `depth` where it found it, at every nesting level. */
  lemma {:induction false} IncludeDepth(env: Env, st: State, path: string, fuel: nat)
    ensures Include(env, st, path, fuel).ok ==> Include(env, st, path, fuel).st.depth == st.depth
    decreases fuel, 0, 0
  {
    if fuel > 0 && path in env.includeProvider {
      ProcessIntoLinesDepth(env, st, Dir(path), env.includeProvider[path], fuel - 1);
    }
  }

  // ---------------------------------------------------------------------------------------
  // Title precedence

  /** Below the top level, a title already set is never replaced. */
  lemma {:induction false} StepTitleKept(env: Env, st: State, dir: string, line: string, fuel: nat)
    requires st.depth > 0 && st.title != ""
    ensures Step(env, st, dir, line, fuel).st.title == st.title
    decreases fuel, 1, 0
  {
    if HasPrefix(line, IncludeDirective) {
      IncludeTitleKept(env, st.(depth := st.depth + 1), Join(dir, line[|IncludeDirective|..]), fuel);
    } else {
      LocalTitleKept(env, st, dir, line, fuel);
    }
  }

  /** Below the top level, no line other than `:include:` touches a title that is set. */
  lemma LocalTitleKept(env: Env, st: State, dir: string, line: string, fuel: nat)
    requires st.depth > 0 && st.title != "" && !HasPrefix(line, IncludeDirective)
    ensures Step(env, st, dir, line, fuel).st.title == st.title
  {
    var r := Step(env, st, dir, line, fuel);
    if HasPrefix(line, CssDirective) {
      assert r.st.title == st.title by { CssAppends(env, st, dir, line, fuel); }
    } else if HasPrefix(line, TitleDirective) {
      assert r.st.title == st.title by { TitleSets(env, st, dir, line, fuel); }
    } else if HasPrefix(line, IdDirective) {
      assert r.st.title == st.title by { IdOverwrites(env, st, dir, line, fuel); }
    } else if HasPrefix(line, StyleDirective) {
      assert r.st.title == st.title by { StyleJoins(env, st, dir, line, fuel); }
    } else if HasPrefix(line, ClassDirective) {
      assert r.st.title == st.title by { ClassJoins(env, st, dir, line, fuel); }
    } else {
      assert r.st.title == st.title by { NonDirectiveStored(env, st, dir, line, fuel); }
    }
  }

  lemma {:induction false} ProcessLinesTitleKept(env: Env, st: State, dir: string, lines: seq<string>, fuel: nat)
    requires st.depth > 0 && st.title != ""
    ensures ProcessLines(env, st, dir, lines, fuel).st.title == st.title
    decreases fuel, 2, |lines|
  {
    if lines != [] {
      StepTitleKept(env, st, dir, lines[0], fuel);
      StepDepth(env, st, dir, lines[0], fuel);
      var r := Step(env, st, dir, lines[0], fuel);
      if r.ok {
        ProcessLinesTitleKept(env, r.st, dir, lines[1..], fuel);
      }
    }
  }

  lemma {:induction false} ProcessIntoLinesTitleKept(env: Env, st: State, dir: string, content: string, fuel: nat)
    requires st.depth > 0 && st.title != ""
    ensures ProcessIntoLines(env, st, dir, content, fuel).st.title == st.title
    decreases fuel, 3, 0
  {
    ProcessLinesTitleKept(env, st, dir, ScanLines(content, env.lineBufferSize).tokens, fuel);
  }

  /** An included file cannot replace a title that is already set. */
  lemma {:induction false} IncludeTitleKept(env: Env, st: State, path: string, fuel: nat)
    requires st.depth > 0 && st.title != ""
    ensures Include(env, st, path, fuel).st.title == st.title
    decreases fuel, 0, 0
  {
    if fuel > 0 && path in env.includeProvider {
      ProcessIntoLinesTitleKept(env, st, Dir(path), env.includeProvider[path], fuel - 1);
    }
  }

  /** At the top level, once a title is set only a further top-level `:title:` line replaces it. */
  lemma {:induction false} TopLevelTitleKept(env: Env, st: State, dir: string, lines: seq<string>, fuel: nat)
    requires st.depth == 0 && st.title != ""
    requires forall j :: 0 <= j < |lines| ==> !HasPrefix(lines[j], TitleDirective)
    ensures ProcessLines(env, st, dir, lines, fuel).st.title == st.title
    decreases |lines|
  {
    if lines != [] {
      var line := lines[0];
      if HasPrefix(line, IncludeDirective) {
        IncludeTitleKept(env, st.(depth := 1), Join(dir, line[|IncludeDirective|..]), fuel);
      }
      StepDepth(env, st, dir, line, fuel);
      var r := Step(env, st, dir, line, fuel);
      if r.ok {
        TopLevelTitleKept(env, r.st, dir, lines[1..], fuel);
      }
    }
  }

  /** Processing `a + b` is processing `a`, then, if that succeeded, `b` from where `a` ended. */
  lemma {:induction false} ProcessLinesAppend(env: Env, st: State, dir: string, a: seq<string>, b: seq<string>, fuel: nat)
    ensures ProcessLines(env, st, dir, a + b, fuel)
         == (var r := ProcessLines(env, st, dir, a, fuel); if r.ok then ProcessLines(env, r.st, dir, b, fuel) else r)
    decreases |a|
  {
    if a == [] {
      assert a + b == b;
    } else {
      assert (a + b)[0] == a[0] && (a + b)[1..] == a[1..] + b;
      var r := Step(env, st, dir, a[0], fuel);
      if r.ok {
        ProcessLinesAppend(env, r.st, dir, a[1..], b, fuel);
      }
    }
  }

  /**
   * The title of a successful top-level resolution is the value of the last top-level
   * `:title:` line when that value is non-empty, whatever titles the included files carry.
   * (An empty last `:title:` clears the title, and a later include may then set it.)
   */
  lemma {:induction false} LastTopLevelTitleWins(env: Env, st: State, dir: string, lines: seq<string>, k: nat, fuel: nat)
    requires st.depth == 0 && k < |lines|
    requires HasPrefix(lines[k], TitleDirective) && lines[k][|TitleDirective|..] != ""
    requires forall j :: k < j < |lines| ==> !HasPrefix(lines[j], TitleDirective)
    ensures var r := ProcessLines(env, st, dir, lines, fuel);
            r.ok ==> r.st.title == lines[k][|TitleDirective|..]
  {
    assert lines == lines[..k] + lines[k..];
    ProcessLinesAppend(env, st, dir, lines[..k], lines[k..], fuel);
    var r1 := ProcessLines(env, st, dir, lines[..k], fuel);
    if r1.ok {
      ProcessLinesDepth(env, st, dir, lines[..k], fuel);
      var line := lines[k];
      PrefixesDiffer(line, TitleDirective, IncludeDirective, 1);
      PrefixesDiffer(line, TitleDirective, CssDirective, 1);
      var r2 := Step(env, r1.st, dir, line, fuel);
      assert r2.ok && r2.st == r1.st.(title := line[|TitleDirective|..]);
      var rest := lines[k..][1..];
      assert forall j :: 0 <= j < |rest| ==> rest[j] == lines[k + 1 + j];
      TopLevelTitleKept(env, r2.st, dir, rest, fuel);
    }
  }

  // ---------------------------------------------------------------------------------------
  // Pending attributes

  /** `:css:` appends the joined path, even one already listed, and touches nothing else. */
  lemma CssAppends(env: Env, st: State, dir: string, line: string, fuel: nat)
    requires HasPrefix(line, CssDirective)
    ensures Step(env, st, dir, line, fuel) == Run(st.(css := st.css + [Join(dir, line[|CssDirective|..])]), true)
  {
    PrefixesDiffer(line, CssDirective, IncludeDirective, 1);
  }

  /** `:title:` sets the title at the top level or when none is set, and touches nothing else. */
  lemma TitleSets(env: Env, st: State, dir: string, line: string, fuel: nat)
    requires HasPrefix(line, TitleDirective)
    ensures Step(env, st, dir, line, fuel)
         == Run(if st.depth == 0 || st.title == "" then st.(title := line[|TitleDirective|..]) else st, true)
  {
    PrefixesDiffer(line, TitleDirective, IncludeDirective, 1);
    PrefixesDiffer(line, TitleDirective, CssDirective, 1);
  }

  /**
   * A directive other than `:include:` stores no line, keeps `depth`, only appends to `css`,
   * and puts no key but a directive into the pending map.
   */
  lemma DirectiveStoresNothing(env: Env, st: State, dir: string, line: string, fuel: nat)
    requires IsDirective(line) && !HasPrefix(line, IncludeDirective)
    ensures var r := Step(env, st, dir, line, fuel);
            && r.ok && r.st.lines == st.lines && r.st.lineDirectives == st.lineDirectives
            && st.css <= r.st.css && r.st.depth == st.depth
            && r.st.lineDirective.Keys <= st.lineDirective.Keys + AttrKeys
  {
    if HasPrefix(line, CssDirective) {
      CssAppends(env, st, dir, line, fuel);
    } else if HasPrefix(line, TitleDirective) {
      TitleSets(env, st, dir, line, fuel);
    } else if HasPrefix(line, IdDirective) {
      IdOverwrites(env, st, dir, line, fuel);
    } else if HasPrefix(line, StyleDirective) {
      StyleJoins(env, st, dir, line, fuel);
    } else {
      ClassJoins(env, st, dir, line, fuel);
    }
  }

  /** `:id:` replaces any pending id and touches nothing else. */
  lemma IdOverwrites(env: Env, st: State, dir: string, line: string, fuel: nat)
    requires HasPrefix(line, IdDirective)
    ensures var r := Step(env, st, dir, line, fuel);
            && r.ok && r.st == st.(lineDirective := st.lineDirective[IdDirective := line[|IdDirective|..]])
  {
    PrefixesDiffer(line, IdDirective, IncludeDirective, 2);
    PrefixesDiffer(line, IdDirective, CssDirective, 1);
    PrefixesDiffer(line, IdDirective, TitleDirective, 1);
  }

  /** `:style:` joins its value onto a pending style with "; ", or starts one. */
  lemma StyleJoins(env: Env, st: State, dir: string, line: string, fuel: nat)
    requires HasPrefix(line, StyleDirective)
    ensures var r := Step(env, st, dir, line, fuel);
            && r.ok
            && r.st == st.(lineDirective := st.lineDirective[StyleDirective :=
                 (if StyleDirective in st.lineDirective then st.lineDirective[StyleDirective] + "; " else "") + line[|StyleDirective|..]])
  {
    PrefixesDiffer(line, StyleDirective, IncludeDirective, 1);
    PrefixesDiffer(line, StyleDirective, CssDirective, 1);
    PrefixesDiffer(line, StyleDirective, TitleDirective, 1);
    PrefixesDiffer(line, StyleDirective, IdDirective, 1);
    assert "" + line[|StyleDirective|..] == line[|StyleDirective|..];
  }

  /** `:class:` joins its value onto a pending class with a space, or starts one. */
  lemma ClassJoins(env: Env, st: State, dir: string, line: string, fuel: nat)
    requires HasPrefix(line, ClassDirective)
    ensures var r := Step(env, st, dir, line, fuel);
            && r.ok
            && r.st == st.(lineDirective := st.lineDirective[ClassDirective :=
                 (if ClassDirective in st.lineDirective then st.lineDirective[ClassDirective] + " " else "") + line[|ClassDirective|..]])
  {
    PrefixesDiffer(line, ClassDirective, IncludeDirective, 1);
    PrefixesDiffer(line, ClassDirective, CssDirective, 2);
    PrefixesDiffer(line, ClassDirective, TitleDirective, 1);
    PrefixesDiffer(line, ClassDirective, IdDirective, 1);
    PrefixesDiffer(line, ClassDirective, StyleDirective, 1);
    assert "" + line[|ClassDirective|..] == line[|ClassDirective|..];
  }

  /**
   * A line that is not a directive is stored as one entry: "" with no map when it is white
   * space only, otherwise verbatim with the pending map; either way the pending map is emptied.
   */
  lemma NonDirectiveStored(env: Env, st: State, dir: string, line: string, fuel: nat)
    requires !IsDirective(line)
    ensures Step(env, st, dir, line, fuel)
         == Run(st.(lines := st.lines + [if AllSpace(line) then "" else line],
                    lineDirectives := st.lineDirectives + [if AllSpace(line) then None else Some(st.lineDirective)],
                    lineDirective := map[]), true)
  {
    TrimSpaceEmpty(line);
  }

  /** One successful step, then the rest of the lines. */
  lemma ProcessLinesCons(env: Env, st: State, dir: string, lines: seq<string>, fuel: nat)
    requires lines != [] && Step(env, st, dir, lines[0], fuel).ok
    ensures ProcessLines(env, st, dir, lines, fuel) == ProcessLines(env, Step(env, st, dir, lines[0], fuel).st, dir, lines[1..], fuel)
  {
  }

  /** A content line is stored verbatim with the pending map, which is then emptied. */
  lemma ContentStored(env: Env, st: State, dir: string, line: string, fuel: nat)
    requires !IsDirective(line) && !AllSpace(line)
    ensures Step(env, st, dir, line, fuel)
         == Run(st.(lines := st.lines + [line], lineDirectives := st.lineDirectives + [Some(st.lineDirective)],
                    lineDirective := map[]), true)
  {
    NonDirectiveStored(env, st, dir, line, fuel);
  }

  lemma SnocTwice<T>(s: seq<T>, x: T, y: T)
    ensures s + [x] + [y] == s + [x, y]
  {
  }

  /**
   * A blank line between attribute directives and a content line cuts them off: the
   * content line is stored with an empty map, whatever was pending before the blank.
   */
  lemma BlankLineResets(env: Env, st: State, dir: string, blank: string, content: string, fuel: nat)
    requires !IsDirective(blank) && AllSpace(blank) && !IsDirective(content) && !AllSpace(content)
    ensures var r := ProcessLines(env, st, dir, [blank, content], fuel);
            && r.ok && r.st.lines == st.lines + ["", content]
            && r.st.lineDirectives == st.lineDirectives + [None, Some(map[])]
            && r.st.lineDirective == map[]
  {
    var lines := [blank, content];
    var s1 := st.(lines := st.lines + [""], lineDirectives := st.lineDirectives + [None], lineDirective := map[]);
    var s2 := s1.(lines := s1.lines + [content], lineDirectives := s1.lineDirectives + [Some(map[])], lineDirective := map[]);
    assert Step(env, st, dir, blank, fuel) == Run(s1, true) by {
      NonDirectiveStored(env, st, dir, blank, fuel);
    }
    assert Step(env, s1, dir, content, fuel) == Run(s2, true) by {
      NonDirectiveStored(env, s1, dir, content, fuel);
    }
    assert lines[1..] == [content] && lines[1..][1..] == [];
    assert ProcessLines(env, st, dir, lines, fuel) == ProcessLines(env, s1, dir, [content], fuel) by {
      ProcessLinesCons(env, st, dir, lines, fuel);
    }
    assert ProcessLines(env, s1, dir, [content], fuel) == Run(s2, true) by {
      ProcessLinesCons(env, s1, dir, [content], fuel);
    }
    assert s2.lines == st.lines + ["", content] by {
      SnocTwice(st.lines, "", content);
    }
    assert s2.lineDirectives == st.lineDirectives + [None, Some(map[])] by {
      SnocTwice(st.lineDirectives, None, Some(map[]));
    }
  }

  // ---------------------------------------------------------------------------------------
  // The title field only influences the title

  /** Two runs that agree on success and on every field but the title. */
  predicate SameButTitle(a: Run, b: Run) {
    a.ok == b.ok && a.st.(title := "") == b.st.(title := "")
  }

  lemma {:induction false} StepTitleFree(env: Env, st: State, dir: string, line: string, fuel: nat, t: string)
    ensures SameButTitle(Step(env, st, dir, line, fuel), Step(env, st.(title := t), dir, line, fuel))
    decreases fuel, 1, 0
  {
    if HasPrefix(line, IncludeDirective) {
      assert st.(title := t).(depth := st.depth + 1) == st.(depth := st.depth + 1).(title := t);
      IncludeTitleFree(env, st.(depth := st.depth + 1), Join(dir, line[|IncludeDirective|..]), fuel, t);
    } else {
      LocalTitleFree(env, st, dir, line, fuel, t);
    }
  }

  /** Every case but `:include:` treats the title as a field it at most overwrites. */
  lemma LocalTitleFree(env: Env, st: State, dir: string, line: string, fuel: nat, t: string)
    requires !HasPrefix(line, IncludeDirective)
    ensures SameButTitle(Step(env, st, dir, line, fuel), Step(env, st.(title := t), dir, line, fuel))
  {
    var st' := st.(title := t);
    var a := Step(env, st, dir, line, fuel);
    var b := Step(env, st', dir, line, fuel);
    if HasPrefix(line, CssDirective) {
      assert SameButTitle(a, b) by {
        CssAppends(env, st, dir, line, fuel);
        CssAppends(env, st', dir, line, fuel);
      }
    } else if HasPrefix(line, TitleDirective) {
      assert SameButTitle(a, b) by {
        TitleSets(env, st, dir, line, fuel);
        TitleSets(env, st', dir, line, fuel);
      }
    } else if HasPrefix(line, IdDirective) {
      assert SameButTitle(a, b) by {
        IdOverwrites(env, st, dir, line, fuel);
        IdOverwrites(env, st', dir, line, fuel);
      }
    } else if HasPrefix(line, StyleDirective) {
      assert SameButTitle(a, b) by {
        StyleJoins(env, st, dir, line, fuel);
        StyleJoins(env, st', dir, line, fuel);
      }
    } else if HasPrefix(line, ClassDirective) {
      assert SameButTitle(a, b) by {
        ClassJoins(env, st, dir, line, fuel);
        ClassJoins(env, st', dir, line, fuel);
      }
    } else {
      assert SameButTitle(a, b) by {
        NonDirectiveStored(env, st, dir, line, fuel);
        NonDirectiveStored(env, st', dir, line, fuel);
      }
    }
  }

  lemma {:induction false} ProcessLinesTitleFree(env: Env, st: State, dir: string, lines: seq<string>, fuel: nat, t: string)
    ensures SameButTitle(ProcessLines(env, st, dir, lines, fuel), ProcessLines(env, st.(title := t), dir, lines, fuel))
    decreases fuel, 2, |lines|
  {
    if lines != [] {
      StepTitleFree(env, st, dir, lines[0], fuel, t);
      var a := Step(env, st, dir, lines[0], fuel);
      var b := Step(env, st.(title := t), dir, lines[0], fuel);
      if a.ok {
        assert b.st == a.st.(title := b.st.title);
        ProcessLinesTitleFree(env, a.st, dir, lines[1..], fuel, b.st.title);
      }
    }
  }

  lemma {:induction false} ProcessIntoLinesTitleFree(env: Env, st: State, dir: string, content: string, fuel: nat, t: string)
    ensures SameButTitle(ProcessIntoLines(env, st, dir, content, fuel), ProcessIntoLines(env, st.(title := t), dir, content, fuel))
    decreases fuel, 3, 0
  {
    ProcessLinesTitleFree(env, st, dir, ScanLines(content, env.lineBufferSize).tokens, fuel, t);
  }

  /** What is resolved, and whether resolution fails, does not depend on the title field. */
  lemma {:induction false} IncludeTitleFree(env: Env, st: State, path: string, fuel: nat, t: string)
    ensures SameButTitle(Include(env, st, path, fuel), Include(env, st.(title := t), path, fuel))
    decreases fuel, 0, 0
  {
    if fuel > 0 && path in env.includeProvider {
      ProcessIntoLinesTitleFree(env, st, Dir(path), env.includeProvider[path], fuel - 1, t);
    }
  }

  /** The title a top-level step leaves, as a function of the title it starts with. */
  ghost function StepTitle(env: Env, st: State, dir: string, line: string, fuel: nat, t: string): string {
    Step(env, st.(title := t), dir, line, fuel).st.title
  }

  /** The title top-level processing leaves, as a function of the title it starts with. */
  ghost function LinesTitle(env: Env, st: State, dir: string, lines: seq<string>, fuel: nat, t: string): string {
    ProcessLines(env, st.(title := t), dir, lines, fuel).st.title
  }

  /**
   * A title effect either ignores the starting title (a top-level `:title:` overwrote it)
   * or keeps every non-empty starting title (only an empty one can be filled in).
   */
  ghost predicate TitleEffect(f: string -> string) {
    (forall t :: f(t) == f("")) || (forall t :: t != "" ==> f(t) == t)
  }

  lemma StepTitleShape(env: Env, st: State, dir: string, line: string, fuel: nat)
    requires st.depth == 0
    ensures TitleEffect(t => StepTitle(env, st, dir, line, fuel, t))
  {
    if HasPrefix(line, TitleDirective) {
      PrefixesDiffer(line, TitleDirective, IncludeDirective, 1);
      PrefixesDiffer(line, TitleDirective, CssDirective, 1);
      assert forall t :: StepTitle(env, st, dir, line, fuel, t) == line[|TitleDirective|..];
    } else {
      forall t | t != ""
        ensures StepTitle(env, st, dir, line, fuel, t) == t
      {
        if HasPrefix(line, IncludeDirective) {
          IncludeTitleKept(env, st.(title := t).(depth := 1), Join(dir, line[|IncludeDirective|..]), fuel);
        }
      }
    }
  }

  /** Composing a step's title effect with the effect of the lines after it. */
  lemma LinesTitleCons(env: Env, st: State, dir: string, lines: seq<string>, fuel: nat, t: string)
    requires lines != []
    ensures var b := Step(env, st, dir, lines[0], fuel);
            LinesTitle(env, st, dir, lines, fuel, t)
            == if b.ok then LinesTitle(env, b.st, dir, lines[1..], fuel, StepTitle(env, st, dir, lines[0], fuel, t))
               else StepTitle(env, st, dir, lines[0], fuel, t)
  {
    StepTitleFree(env, st, dir, lines[0], fuel, t);
    var b := Step(env, st, dir, lines[0], fuel);
    var a := Step(env, st.(title := t), dir, lines[0], fuel);
    assert a.st == b.st.(title := a.st.title);
  }

  lemma {:induction false} LinesTitleShape(env: Env, st: State, dir: string, lines: seq<string>, fuel: nat)
    requires st.depth == 0
    ensures TitleEffect(t => LinesTitle(env, st, dir, lines, fuel, t))
    decreases |lines|
  {
    var f := t => LinesTitle(env, st, dir, lines, fuel, t);
    if lines == [] {
      assert forall t :: f(t) == t;
    } else {
      var h := t => StepTitle(env, st, dir, lines[0], fuel, t);
      StepTitleShape(env, st, dir, lines[0], fuel);
      var b := Step(env, st, dir, lines[0], fuel);
      forall t ensures f(t) == (if b.ok then LinesTitle(env, b.st, dir, lines[1..], fuel, h(t)) else h(t)) {
        LinesTitleCons(env, st, dir, lines, fuel, t);
      }
      if b.ok {
        StepDepth(env, st, dir, lines[0], fuel);
        LinesTitleShape(env, b.st, dir, lines[1..], fuel);
        var g := t => LinesTitle(env, b.st, dir, lines[1..], fuel, t);
        assert forall t :: f(t) == g(h(t));
        if forall t :: g(t) == g("") {
          assert forall t :: f(t) == f("");
        } else if forall t :: h(t) == h("") {
          assert forall t :: f(t) == f("");
        } else {
          assert forall t :: t != "" ==> f(t) == t;
        }
      } else {
        assert forall t :: f(t) == h(t);
      }
    }
  }

  /** Processing the same top-level lines again from the title they produced gives that title back. */
  lemma TitleIdempotent(env: Env, st: State, dir: string, lines: seq<string>, fuel: nat, t: string)
    requires st.depth == 0
    ensures var t1 := LinesTitle(env, st, dir, lines, fuel, t);
            LinesTitle(env, st, dir, lines, fuel, t1) == t1
  {
    LinesTitleShape(env, st, dir, lines, fuel);
    var f := t => LinesTitle(env, st, dir, lines, fuel, t);
    assert f(t) == LinesTitle(env, st, dir, lines, fuel, t);
    assert f(f(t)) == LinesTitle(env, st, dir, lines, fuel, f(t));
  }

  // ---------------------------------------------------------------------------------------
  // Pending attributes and includes

  /** `st'` holds, at the first new position, `line` stored with the map that was pending in `st`. */
  predicate StoredFirst(st: State, st': State, line: string) {
    && |st.lines| < |st'.lines| && |st.lineDirectives| < |st'.lineDirectives|
    && st'.lines[|st.lines|] == line
    && st'.lineDirectives[|st.lineDirectives|] == Some(st.lineDirective)
  }

  /**
   * The pending map is shared with included files: attributes set just before an `:include:`
   * line land on the first line of the included file when that is a content line, even if
   * the included file fails later on.
   */
  lemma PendingCrossesInclude(env: Env, st: State, dir: string, line: string, fuel: nat)
    requires Valid(st) && HasPrefix(line, IncludeDirective)
    requires var path := Join(dir, line[|IncludeDirective|..]);
             && fuel > 0 && path in env.includeProvider
             && var tokens := ScanLines(env.includeProvider[path], env.lineBufferSize).tokens;
                tokens != [] && !IsDirective(tokens[0]) && !AllSpace(tokens[0])
    ensures var path := Join(dir, line[|IncludeDirective|..]);
            StoredFirst(st, Step(env, st, dir, line, fuel).st, ScanLines(env.includeProvider[path], env.lineBufferSize).tokens[0])
  {
    var path := Join(dir, line[|IncludeDirective|..]);
    var inner := st.(depth := st.depth + 1);
    IncludeFirst(env, inner, path, fuel);
    var r := Include(env, inner, path, fuel);
    var r' := Step(env, st, dir, line, fuel);
    assert r'.st.lines == r.st.lines && r'.st.lineDirectives == r.st.lineDirectives;
  }

  lemma IncludeFirst(env: Env, st: State, path: string, fuel: nat)
    requires Valid(st) && fuel > 0 && path in env.includeProvider
    requires var tokens := ScanLines(env.includeProvider[path], env.lineBufferSize).tokens;
             tokens != [] && !IsDirective(tokens[0]) && !AllSpace(tokens[0])
    ensures StoredFirst(st, Include(env, st, path, fuel).st, ScanLines(env.includeProvider[path], env.lineBufferSize).tokens[0])
  {
    var tokens := ScanLines(env.includeProvider[path], env.lineBufferSize).tokens;
    var q := ProcessLines(env, st, Dir(path), tokens, fuel - 1).st;
    assert StoredFirst(st, q, tokens[0]) by {
      ProcessLinesFirst(env, st, Dir(path), tokens, fuel - 1);
    }
    assert Include(env, st, path, fuel).st == q by {
      IncludeState(env, st, path, fuel);
    }
  }

  /** Success aside, an include leaves the state its scanned lines leave. */
  lemma IncludeState(env: Env, st: State, path: string, fuel: nat)
    requires fuel > 0 && path in env.includeProvider
    ensures Include(env, st, path, fuel).st
         == ProcessLines(env, st, Dir(path), ScanLines(env.includeProvider[path], env.lineBufferSize).tokens, fuel - 1).st
  {
  }

  /** A first line that is content is stored with the pending map, whatever follows it. */
  lemma ProcessLinesFirst(env: Env, st: State, dir: string, lines: seq<string>, fuel: nat)
    requires Valid(st) && lines != [] && !IsDirective(lines[0]) && !AllSpace(lines[0])
    ensures StoredFirst(st, ProcessLines(env, st, dir, lines, fuel).st, lines[0])
  {
    NonDirectiveStored(env, st, dir, lines[0], fuel);
    StepKeeps(env, st, dir, lines[0], fuel);
    var s1 := Step(env, st, dir, lines[0], fuel).st;
    ProcessLinesKeeps(env, s1, dir, lines[1..], fuel);
    var r := ProcessLines(env, s1, dir, lines[1..], fuel);
    assert r.st.lines[|st.lines|] == s1.lines[|st.lines|];
    assert r.st.lineDirectives[|st.lineDirectives|] == s1.lineDirectives[|st.lineDirectives|];
  }

  // ---------------------------------------------------------------------------------------
  // Fuel bounds only the include nesting depth: once a run succeeds, more fuel changes nothing

  /** A successful include comes out the same with any larger bound on the nesting depth. */
  lemma {:induction false} IncludeFuelMono(env: Env, st: State, path: string, fuel: nat, fuel': nat)
    requires fuel <= fuel'
    ensures Include(env, st, path, fuel).ok ==> Include(env, st, path, fuel') == Include(env, st, path, fuel)
    decreases fuel, 0, 0
  {
    if fuel > 0 && path in env.includeProvider {
      ProcessIntoLinesFuelMono(env, st, Dir(path), env.includeProvider[path], fuel - 1, fuel' - 1);
    }
  }

  lemma {:induction false} ProcessIntoLinesFuelMono(env: Env, st: State, dir: string, content: string, fuel: nat, fuel': nat)
    requires fuel <= fuel'
    ensures ProcessIntoLines(env, st, dir, content, fuel).ok
            ==> ProcessIntoLines(env, st, dir, content, fuel') == ProcessIntoLines(env, st, dir, content, fuel)
    decreases fuel, 3, 0
  {
    ProcessLinesFuelMono(env, st, dir, ScanLines(content, env.lineBufferSize).tokens, fuel, fuel');
  }

  lemma {:induction false} ProcessLinesFuelMono(env: Env, st: State, dir: string, lines: seq<string>, fuel: nat, fuel': nat)
    requires fuel <= fuel'
    ensures ProcessLines(env, st, dir, lines, fuel).ok
            ==> ProcessLines(env, st, dir, lines, fuel') == ProcessLines(env, st, dir, lines, fuel)
    decreases fuel, 2, |lines|
  {
    if lines != [] {
      StepFuelMono(env, st, dir, lines[0], fuel, fuel');
      var r := Step(env, st, dir, lines[0], fuel);
      if r.ok {
        ProcessLinesFuelMono(env, r.st, dir, lines[1..], fuel, fuel');
      }
    }
  }

  lemma {:induction false} StepFuelMono(env: Env, st: State, dir: string, line: string, fuel: nat, fuel': nat)
    requires fuel <= fuel'
    ensures Step(env, st, dir, line, fuel).ok ==> Step(env, st, dir, line, fuel') == Step(env, st, dir, line, fuel)
    decreases fuel, 1, 0
  {
    if HasPrefix(line, IncludeDirective) {
      IncludeFuelMono(env, st.(depth := st.depth + 1), Join(dir, line[|IncludeDirective|..]), fuel, fuel');
    }
  }
}
