/**
 * The `processor` of md/processor.go as a class whose fields the directive loop updates in
 * place. Each method is proved against the functions of `ProcResolve`: on success the new
 * state is the one those functions compute; on failure the processor is abandoned, as
 * `MarkdownToHTML` abandons it, and nothing is promised about its fields.
 */
module MdProcessor {
  import opened Wrappers
  import opened Strings
  import opened Lines
  import opened Paths
  import opened Sorting
  import opened Html
  import opened ProcResolve

  class Processor {
    const fs: Fs
    var css: seq<string>
    var cssMap: map<string, bool>
    var title: string
    var data: string
    var depth: int

    /** The fields as a value. */
    function PState(): ProcResolve.PState
      reads this
    {
      ProcResolve.PState(css, cssMap, title, data, depth)
    }

    /** `&processor{cssMap: make(map[string]bool)}`. */
    constructor(fs: Fs)
      ensures this.fs == fs && PState() == Empty
    {
      this.fs := fs;
      css := [];
      cssMap := map[];
      title := "";
      data := "";
      depth := 0;
    }

    /** `p.include(path)`: read the file, then handle its lines. */
    method Include(path: string, fuel: nat) returns (ok: bool)
      modifies this
      ensures var r := ProcResolve.Include(fs, old(PState()), path, fuel);
              ok == r.Some? && (ok ==> PState() == r.value)
      decreases fuel, 0
    {
      if fuel == 0 || path !in fs.files {
        return false;
      }
      ok := IncludeContent(Dir(path), fs.files[path], fuel - 1);
    }

    /** The loop of `include`: split off one line at a time and handle it, stopping at the first error. */
    method IncludeContent(dir: string, data: string, fuel: nat) returns (ok: bool)
      modifies this
      ensures var r := IncludeLines(fs, old(PState()), dir, SplitLines(data), fuel);
              ok == r.Some? && (ok ==> PState() == r.value)
      decreases fuel, 4
    {
      var rest := data;
      ghost var goal := IncludeLines(fs, PState(), dir, SplitLines(rest), fuel);
      while |rest| > 0
        invariant goal == IncludeLines(fs, PState(), dir, SplitLines(rest), fuel)
        decreases |rest|
      {
        var line;
        line, rest := NextLine(rest);
        IncludeLinesCons(fs, PState(), dir, line, SplitLines(rest), fuel);
        ok := Step(dir, line, fuel);
        if !ok {
          return;
        }
      }
      ok := true;
    }

    /**
     * The head of the loop in `include`: cut the first line at '\n' (or take all that is
     * left) and drop one trailing '\r'. The lines so produced are exactly `SplitLines`.
     */
    static method NextLine(data: string) returns (line: string, rest: string)
      requires |data| > 0
      ensures SplitLines(data) == [line] + SplitLines(rest) && |rest| < |data|
      ensures '\n' !in line
    {
      var i := IndexByte(data, '\n');
      if i >= 0 {
        SplitLinesCons(data, i);
        line := data[..i];
        rest := data[i + 1..];
      } else {
        SplitLinesLast(data);
        line := data;
        rest := [];
      }
      if |line| > 0 && line[|line| - 1] == '\r' {
        line := line[..|line| - 1];
      }
    }

    /** One pass of the `switch` in `include`. */
    method Step(dir: string, line: string, fuel: nat) returns (ok: bool)
      modifies this
      ensures var r := ProcResolve.Step(fs, old(PState()), dir, line, fuel);
              ok == r.Some? && (ok ==> PState() == r.value)
      decreases fuel, 3
    {
      if HasPrefix(line, IncludeDirective) {
        ok := IncludeLine(dir, line, fuel);
      } else if HasPrefix(line, IncludeRegexDirective) {
        ok := IncludeRegexLine(dir, line, fuel);
      } else if HasPrefix(line, CssDirective) {
        var path := Join(dir, line[|CssDirective|..]);
        if !(path in cssMap && cssMap[path]) {
          cssMap := cssMap[path := true];
          css := css + [path];
        }
        ok := true;
      } else if HasPrefix(line, TitleDirective) {
        if depth == 0 || title == "" {
          title := line[|TitleDirective|..];
        }
        ok := true;
      } else {
        data := data + line + "\n";
        ok := true;
      }
    }

    /** The `:include:` case: one level deeper for the nested file. */
    method IncludeLine(dir: string, line: string, fuel: nat) returns (ok: bool)
      requires HasPrefix(line, IncludeDirective)
      modifies this
      ensures var r := ProcResolve.Step(fs, old(PState()), dir, line, fuel);
              ok == r.Some? && (ok ==> PState() == r.value)
      decreases fuel, 2
    {
      depth := depth + 1;
      ok := Include(Join(dir, line[|IncludeDirective|..]), fuel);
      if !ok {
        return;
      }
      depth := depth - 1;
    }

    /** The `:include*:` case: `dir|pattern`, one level deeper for the included files. */
    method IncludeRegexLine(dir: string, line: string, fuel: nat) returns (ok: bool)
      requires HasPrefix(line, IncludeRegexDirective)
      modifies this
      ensures var r := ProcResolve.Step(fs, old(PState()), dir, line, fuel);
              ok == r.Some? && (ok ==> PState() == r.value)
      decreases fuel, 2
    {
      PrefixesDiffer(line, IncludeRegexDirective, IncludeDirective, 8);
      depth := depth + 1;
      var parts := SplitPipe(line[|IncludeRegexDirective|..]);
      if parts.None? {
        return false;
      }
      ok := IncludeRegex(Join(dir, parts.value.0), parts.value.1, fuel);
      if !ok {
        return;
      }
      depth := depth - 1;
    }

    /** `p.includeRegex(dir, pattern)`: compile, list, filter, sort, then include each name. */
    method IncludeRegex(dir: string, pattern: string, fuel: nat) returns (ok: bool)
      modifies this
      ensures var r := ProcResolve.IncludeRegex(fs, old(PState()), dir, pattern, fuel);
              ok == r.Some? && (ok ==> PState() == r.value)
      decreases fuel, 1
    {
      if !fs.compiles(pattern) || dir !in fs.listings {
        return false;
      }
      var fis := fs.listings[dir];
      var names: seq<string> := [];
      var i := 0;
      while i < |fis|
        invariant 0 <= i <= |fis| && names == Matching(fs, pattern, fis[..i])
      {
        assert fis[..i + 1][..i] == fis[..i];
        if !fis[i].isDir {
          var name := fis[i].name;
          if HasSuffix(ToLower(name), ".md") && fs.matches(pattern, name) {
            names := names + [name];
          }
        }
        i := i + 1;
      }
      assert fis[..i] == fis;
      names := SortStringsNaturalAscending(fs.naturalLess, names);
      ghost var goal := IncludeEach(fs, PState(), dir, names, fuel);
      var j := 0;
      while j < |names|
        invariant 0 <= j <= |names|
        invariant goal == IncludeEach(fs, PState(), dir, names[j..], fuel)
      {
        assert names[j..][1..] == names[j + 1..];
        ok := Include(Join(dir, names[j]), fuel);
        if !ok {
          return;
        }
        j := j + 1;
      }
      ok := true;
    }

    /** `p.markdownToHTML()`: the page head, the rendered text, the page tail. */
    method MarkdownToHTML(render: string -> Option<string>) returns (r: Option<string>)
      ensures r == match render(data)
                   case None => None
                   case Some(body) => Some(Page(title, css, body))
    {
      var buffer := HeadOpen + EscapeString(title) + TitleClose;
      ghost var head := buffer;
      var i := 0;
      while i < |css|
        invariant 0 <= i <= |css| && buffer == head + Links(css[..i])
      {
        assert buffer + StylesheetLink(css[i]) == head + Links(css[..i + 1]) by {
          LinksPrefixSnoc(css, i);
          Assoc(head, Links(css[..i]), StylesheetLink(css[i]));
        }
        buffer := buffer + StylesheetLink(css[i]);
        i := i + 1;
      }
      assert css[..i] == css;
      buffer := buffer + BodyOpen;
      assert buffer == Prefix(title, css) by { PrefixAssembled(title, css); }
      match render(data)
      case None =>
        r := None;
      case Some(body) =>
        r := Some(buffer + (body + Postfix));
    }
  }

  /** `MarkdownToHTML(file)`: a fresh processor includes `file`, then writes the page. */
  method MarkdownToHTML(fs: Fs, file: string, fuel: nat, render: string -> Option<string>) returns (r: Option<string>)
    ensures r == Convert(fs, file, fuel, render)
  {
    var doc := new Processor(fs);
    var ok := doc.Include(file, fuel);
    if !ok {
      return None;
    }
    r := doc.MarkdownToHTML(render);
  }
}
