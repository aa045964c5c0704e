/**
 * The `MarkDown` processor of md/md.go as a class: its fields, the option closures of
 * md/options.go applied to it, `reset`, `processIntoLines`/`include`, and `ConvertToHTML`.
 * Every method is proved against the functions of `MdResolve`, `MdRender`, `MdOptions`
 * and `Html`.
 */
module MdMarkDown {
  import opened Wrappers
  import opened Strings
  import opened Lines
  import opened Paths
  import opened Html
  import opened MdResolve
  import opened MdRender
  import MdOptions

  /** The state `reset` leaves: nothing resolved yet, and the title of the previous run kept. */
  function Start(title: string): State {
    State(0, [], [], map[], [], title)
  }

  /** The outcome of `ConvertToHTML`: success, the title field afterwards, and the bytes written. */
  datatype Conversion = Conversion(ok: bool, title: string, html: string)

  /**
   * `ConvertToHTML(dir, in, w)` on a processor whose title field is `title`: resolve from a
   * reset state, then, if that succeeded, the page around the rendered lines. Nothing is
   * written on failure; the title field keeps whatever resolution left in it.
   */
  function Convert(env: Env, title: string, dir: string, content: string, fuel: nat): Conversion {
    var r := ProcessIntoLines(env, Start(title), dir, content, fuel);
    ProcessIntoLinesKeeps(env, Start(title), dir, content, fuel);
    if r.ok then
      Conversion(true, r.st.title, Page(r.st.title, r.st.css, RenderBody(r.st.lines, r.st.lineDirectives, |r.st.lines|)))
    else
      Conversion(false, r.st.title, "")
  }

  /** A successful conversion with some bound on the include depth is the conversion with any larger bound. */
  lemma ConvertFuelMono(env: Env, title: string, dir: string, content: string, fuel: nat, fuel': nat)
    requires fuel <= fuel'
    ensures Convert(env, title, dir, content, fuel).ok
            ==> Convert(env, title, dir, content, fuel') == Convert(env, title, dir, content, fuel)
  {
    ProcessIntoLinesFuelMono(env, Start(title), dir, content, fuel, fuel');
  }

  /** The title field after a conversion is the one top-level processing of the scanned lines leaves. */
  lemma ConvertTitle(env: Env, title: string, dir: string, content: string, fuel: nat)
    ensures Convert(env, title, dir, content, fuel).title
         == LinesTitle(env, Start(""), dir, ScanLines(content, env.lineBufferSize).tokens, fuel, title)
  {
    assert Start(title) == Start("").(title := title);
  }

  /**
   * Converting the same input twice with the same processor writes the same bytes and
   * leaves the same title, although the title field survives `reset` between the two.
   */
  lemma ConvertTwice(env: Env, title: string, dir: string, content: string, fuel: nat)
    ensures var c := Convert(env, title, dir, content, fuel);
            Convert(env, c.title, dir, content, fuel) == c
  {
    var c := Convert(env, title, dir, content, fuel);
    var tokens := ScanLines(content, env.lineBufferSize).tokens;
    ConvertTitle(env, title, dir, content, fuel);
    ConvertTitle(env, c.title, dir, content, fuel);
    TitleIdempotent(env, Start(""), dir, tokens, fuel, title);
    ProcessIntoLinesTitleFree(env, Start(title), dir, content, fuel, c.title);
    assert Start(title).(title := c.title) == Start(c.title);
    var r1 := ProcessIntoLines(env, Start(title), dir, content, fuel);
    var r2 := ProcessIntoLines(env, Start(c.title), dir, content, fuel);
    assert r2.st == r1.st.(title := r2.st.title);
  }

  /** The `<title>` of a converted page holds the title field, escaped. */
  lemma ConvertedPageTitle(env: Env, title: string, dir: string, content: string, fuel: nat)
    ensures var c := Convert(env, title, dir, content, fuel);
            c.ok ==> ExtractTitle(c.html) == c.title
  {
    var r := ProcessIntoLines(env, Start(title), dir, content, fuel);
    ProcessIntoLinesKeeps(env, Start(title), dir, content, fuel);
    PageTitleRoundTrip(r.st.title, r.st.css, RenderBody(r.st.lines, r.st.lineDirectives, |r.st.lines|));
  }

  /**
   * `reset` does not clear the title: a document without a top-level `:title:` line is
   * given the title of the previous conversion, whatever its included files say.
   */
  lemma StaleTitle(env: Env, title: string, dir: string, content: string, fuel: nat)
    requires title != ""
    requires forall line :: line in ScanLines(content, env.lineBufferSize).tokens ==> !HasPrefix(line, TitleDirective)
    ensures Convert(env, title, dir, content, fuel).title == title
  {
    var tokens := ScanLines(content, env.lineBufferSize).tokens;
    assert forall j :: 0 <= j < |tokens| ==> !HasPrefix(tokens[j], TitleDirective);
    TopLevelTitleKept(env, Start(title), dir, tokens, fuel);
  }

  /** The last top-level `:title:` line names a converted page when its value is non-empty. */
  lemma LastTitleNamesPage(env: Env, title: string, dir: string, content: string, fuel: nat, k: nat)
    requires var tokens := ScanLines(content, env.lineBufferSize).tokens;
             && k < |tokens| && HasPrefix(tokens[k], TitleDirective) && tokens[k][|TitleDirective|..] != ""
             && forall j :: k < j < |tokens| ==> !HasPrefix(tokens[j], TitleDirective)
    ensures var c := Convert(env, title, dir, content, fuel);
            c.ok ==> c.title == ScanLines(content, env.lineBufferSize).tokens[k][|TitleDirective|..]
  {
    LastTopLevelTitleWins(env, Start(title), dir, ScanLines(content, env.lineBufferSize).tokens, k, fuel);
  }

  class MarkDown {
    var includeProvider: Provider
    var lineBufferSize: int
    var depth: int
    var lines: seq<string>
    var lineDirectives: seq<Option<Attrs>>
    var lineDirective: Attrs
    var css: seq<string>
    var title: string

    function Config(): MdOptions.Config
      reads this
    {
      MdOptions.Config(includeProvider, lineBufferSize)
    }

    function Env(): MdResolve.Env
      reads this
    {
      MdResolve.Env(includeProvider, lineBufferSize)
    }

    function State(): MdResolve.State
      reads this
    {
      MdResolve.State(depth, lines, lineDirectives, lineDirective, css, title)
    }

    /** The struct literal in `New`: the file system as provider, the default buffer size. */
    constructor (fileSystem: Provider)
      ensures Config() == MdOptions.Defaults(fileSystem) && State() == Start("")
    {
      includeProvider := fileSystem;
      lineBufferSize := MdOptions.DefaultLineBufferSize;
      depth := 0;
      lines := [];
      lineDirectives := [];
      lineDirective := map[];
      css := [];
      title := "";
    }

    /** Running one option closure on this processor. */
    method Apply(o: MdOptions.Option) returns (ok: bool)
      modifies this
      ensures ok == MdOptions.Accepts(o)
      ensures Config() == MdOptions.ApplyOption(old(Config()), o) && State() == old(State())
    {
      match o {
        case MaxLineSize(size) =>
          if size < 2 {
            return false;
          }
          lineBufferSize := size;
        case IncludeProvider(f) =>
          if f.Nil? {
            return false;
          }
          includeProvider := f.files;
      }
      ok := true;
    }

    /** `New(options...)`: defaults, then each option in order; no processor if one fails. */
    static method New(options: seq<MdOptions.Option>, fileSystem: Provider) returns (m: MarkDown?)
      ensures var c := MdOptions.ApplyAll(MdOptions.Defaults(fileSystem), options);
              && (m == null <==> c.None?)
              && (m != null ==> fresh(m) && m.Config() == c.value && m.State() == Start(""))
    {
      var p := new MarkDown(fileSystem);
      var i := 0;
      while i < |options|
        invariant 0 <= i <= |options| && fresh(p) && p.State() == Start("")
        invariant MdOptions.ApplyAll(MdOptions.Defaults(fileSystem), options)
               == MdOptions.ApplyAll(p.Config(), options[i..])
      {
        var ok := p.Apply(options[i]);
        if !ok {
          return null;
        }
        assert options[i..][1..] == options[i + 1..];
        i := i + 1;
      }
      m := p;
    }

    /** `reset`: back to depth 0 with nothing resolved; the title is left as it is. */
    method Reset()
      modifies this
      ensures Config() == old(Config()) && State() == Start(old(title))
    {
      depth := 0;
      lines := [];
      lineDirectives := [];
      lineDirective := map[];
      css := [];
    }

    /** `include(path)`: open the path through the provider and process it from its directory. */
    method Include(path: string, fuel: nat) returns (ok: bool)
      modifies this
      ensures Config() == old(Config())
      ensures var r := MdResolve.Include(old(Env()), old(State()), path, fuel); ok == r.ok && State() == r.st
      decreases fuel, 0
    {
      if fuel == 0 || path !in includeProvider {
        return false;
      }
      ok := ProcessIntoLines(Dir(path), includeProvider[path], fuel - 1);
    }

    /** `processIntoLines(dir, in)`: the directive switch over every scanned line, then the scanner's error. */
    method ProcessIntoLines(dir: string, content: string, fuel: nat) returns (ok: bool)
      modifies this
      ensures Config() == old(Config())
      ensures var r := MdResolve.ProcessIntoLines(old(Env()), old(State()), dir, content, fuel);
              ok == r.ok && State() == r.st
      decreases fuel, 2
    {
      ghost var env := Env();
      ghost var st0 := State();
      var scan := ScanLines(content, lineBufferSize);
      var i := 0;
      while i < |scan.tokens|
        invariant 0 <= i <= |scan.tokens| && Env() == env
        invariant ProcessLines(env, st0, dir, scan.tokens, fuel) == ProcessLines(env, State(), dir, scan.tokens[i..], fuel)
      {
        ok := ProcessLine(dir, scan.tokens[i], fuel);
        if !ok {
          return;
        }
        assert scan.tokens[i..][1..] == scan.tokens[i + 1..];
        i := i + 1;
      }
      ok := !scan.tooLong;
    }

    /** The `switch` in `processIntoLines` for one scanned line. */
    method ProcessLine(dir: string, line: string, fuel: nat) returns (ok: bool)
      modifies this
      ensures Config() == old(Config())
      ensures Step(old(Env()), old(State()), dir, line, fuel) == Run(State(), ok)
      decreases fuel, 1
    {
      ok := true;
      if HasPrefix(line, IncludeDirective) {
        depth := depth + 1;
        ok := Include(Join(dir, line[|IncludeDirective|..]), fuel);
        if ok {
          depth := depth - 1;
        }
      } else if HasPrefix(line, CssDirective) {
        css := css + [Join(dir, line[|CssDirective|..])];
      } else if HasPrefix(line, TitleDirective) {
        if depth == 0 || title == "" {
          title := line[|TitleDirective|..];
        }
      } else if HasPrefix(line, IdDirective) {
        lineDirective := lineDirective[IdDirective := line[|IdDirective|..]];
      } else if HasPrefix(line, StyleDirective) {
        if StyleDirective in lineDirective {
          lineDirective := lineDirective[StyleDirective := lineDirective[StyleDirective] + "; " + line[|StyleDirective|..]];
        } else {
          lineDirective := lineDirective[StyleDirective := line[|StyleDirective|..]];
        }
      } else if HasPrefix(line, ClassDirective) {
        if ClassDirective in lineDirective {
          lineDirective := lineDirective[ClassDirective := lineDirective[ClassDirective] + " " + line[|ClassDirective|..]];
        } else {
          lineDirective := lineDirective[ClassDirective := line[|ClassDirective|..]];
        }
      } else if TrimSpace(line) == "" {
        lines := lines + [""];
        lineDirectives := lineDirectives + [None];
        lineDirective := map[];
      } else {
        lines := lines + [line];
        lineDirectives := lineDirectives + [Some(lineDirective)];
        lineDirective := map[];
      }
    }

    /** `writeHTMLPrefix`: the head with the escaped title and one link per css entry, in order. */
    method WriteHTMLPrefix() returns (s: string)
      ensures s == Prefix(title, css)
    {
      s := HeadOpen + EscapeString(title) + TitleClose;
      ghost var head := s;
      var i := 0;
      while i < |css|
        invariant 0 <= i <= |css| && s == head + Links(css[..i])
      {
        assert s + StylesheetLink(css[i]) == head + Links(css[..i + 1]) by {
          LinksPrefixSnoc(css, i);
          Assoc(head, Links(css[..i]), StylesheetLink(css[i]));
        }
        s := s + StylesheetLink(css[i]);
        i := i + 1;
      }
      assert css[..i] == css;
      s := s + BodyOpen;
      assert s == Prefix(title, css) by { PrefixAssembled(title, css); }
    }

    /** The loop over the stored lines in `ConvertToHTML`: heading tags, other lines verbatim. */
    method WriteLines() returns (s: string)
      requires |lines| == |lineDirectives|
      ensures s == RenderBody(lines, lineDirectives, |lines|)
    {
      s := "";
      var k := 0;
      while k < |lines|
        invariant 0 <= k <= |lines| && s == RenderBody(lines, lineDirectives, k)
      {
        var piece := WriteLine(k);
        assert s + piece == RenderBody(lines, lineDirectives, k + 1) by {
          RenderBodySnoc(lines, lineDirectives, k);
        }
        s := s + piece;
        k := k + 1;
      }
    }

    /** One pass of the loop in `writeLines`: a heading tag, or the line and a newline. */
    method WriteLine(k: nat) returns (piece: string)
      requires |lines| == |lineDirectives| && k < |lines|
      ensures piece == RenderLine(lines, lineDirectives, k)
    {
      var line := lines[k];
      if HeaderPrefix(line) && (k == 0 || lines[k - 1] == "") {
        piece := HeadingTag(line, lineDirectives[k]);
      } else {
        piece := line + "\n";
      }
    }

    /** The heading level: the length of the `#` run at the start of a heading line. */
    static method CountHashes(line: string) returns (i: nat)
      requires HeaderPrefix(line)
      ensures i == LeadingHashes(line)
    {
      i := 1;
      while line[i] == '#'
        invariant 1 <= i <= LeadingHashes(line)
        decreases |line| - i
      {
        i := i + 1;
      }
    }

    /** The heading branch of `writeLines`: count the `#` run, then write the tag with the line's attributes. */
    static method HeadingTag(line: string, d: Option<Attrs>) returns (tag: string)
      requires HeaderPrefix(line)
      ensures tag == Heading(line, d)
    {
      var i := CountHashes(line);
      tag := "<h" + Itoa(i);
      tag := tag + Attribute(IdAttribute, Lookup(d, IdDirective));
      tag := tag + Attribute(ClassAttribute, Lookup(d, ClassDirective));
      tag := tag + Attribute(StyleAttribute, Lookup(d, StyleDirective));
      tag := tag + ">" + TrimSpace(line[i..]) + "</h" + Itoa(i) + ">\n";
    }

    /** `ConvertToHTML(dir, in, w)`: reset, resolve, write the page, reset again. */
    method ConvertToHTML(dir: string, content: string, fuel: nat) returns (ok: bool, html: string)
      modifies this
      ensures var c := Convert(old(Env()), old(title), dir, content, fuel);
              ok == c.ok && html == c.html && State() == Start(c.title)
      ensures Config() == old(Config())
    {
      Reset();
      ok := ProcessIntoLines(dir, content, fuel);
      if !ok {
        html := "";
        Reset();
        return;
      }
      ProcessIntoLinesKeeps(Env(), Start(old(title)), dir, content, fuel);
      var prefix := WriteHTMLPrefix();
      var body := WriteLines();
      html := prefix + (body + Postfix);
      Reset();
    }
  }
}
