/**
 * The heading pass of `MarkDown.ConvertToHTML` (md/md.go): which stored lines become
 * explicit `<hN>` tags, what those tags carry, and how every other line is written.
 */
module MdRender {
  import opened Wrappers
  import opened Strings
  import opened Lines
  import opened MdResolve

  const IdAttribute: string := "id"
  const StyleAttribute: string := "style"
  const ClassAttribute: string := "class"

  /** The characters RE2's `\s` matches: tab, newline, form feed, carriage return and space. */
  predicate IsRegexSpace(c: char) {
    c == '\t' || c == '\n' || c == '\U{000C}' || c == '\r' || c == ' '
  }

  /** The length of the run of `#` that starts `s`. */
  function LeadingHashes(s: string): (n: nat)
    ensures n <= |s|
    ensures forall i :: 0 <= i < n ==> s[i] == '#'
    ensures n < |s| ==> s[n] != '#'
  {
    if s != [] && s[0] == '#' then 1 + LeadingHashes(s[1..]) else 0
  }

  /** `headerPrefix` as the regular expression `^#+\s` reads: some `#`s, then a `\s` character. */
  ghost predicate MatchesHeaderRegex(s: string) {
    exists k :: 1 <= k < |s| && (forall i :: 0 <= i < k ==> s[i] == '#') && IsRegexSpace(s[k])
  }

  /** `headerPrefix.MatchString`, decided on the whole `#` run. */
  predicate HeaderPrefix(s: string) {
    var n := LeadingHashes(s);
    1 <= n < |s| && IsRegexSpace(s[n])
  }

  /** The `#` run can only end at the `\s` the regular expression asks for, so the two agree. */
  lemma HeaderPrefixIsRegex(s: string)
    ensures HeaderPrefix(s) <==> MatchesHeaderRegex(s)
  {
    var n := LeadingHashes(s);
    if MatchesHeaderRegex(s) {
      var k :| 1 <= k < |s| && (forall i :: 0 <= i < k ==> s[i] == '#') && IsRegexSpace(s[k]);
      assert k == n;
    }
    if HeaderPrefix(s) {
      assert IsRegexSpace(s[n]);
    }
  }

  /** `emitHTMLAttribute`: ` name="value"`, or nothing for an empty value. */
  function Attribute(name: string, value: string): string {
    if value == "" then "" else " " + name + "=\"" + value + "\""
  }

  /** A value of a line's attribute map; a nil map and a missing key both read as "". */
  function Lookup(d: Option<Attrs>, key: string): string {
    if d.Some? && key in d.value then d.value[key] else ""
  }

  /** The tag that replaces a heading line: level, attributes in the order id, class, style, then the trimmed text. */
  function Heading(line: string, d: Option<Attrs>): string
    requires HeaderPrefix(line)
  {
    var n := LeadingHashes(line);
    "<h" + Itoa(n)
      + Attribute(IdAttribute, Lookup(d, IdDirective))
      + Attribute(ClassAttribute, Lookup(d, ClassDirective))
      + Attribute(StyleAttribute, Lookup(d, StyleDirective))
      + ">" + TrimSpace(line[n..]) + "</h" + Itoa(n) + ">\n"
  }

  /** The attribute a heading carries for a value: none when the value is empty. */
  function Carry(name: string, value: string): seq<(string, string)> {
    if value == "" then [] else [(name, value)]
  }

  /**
   * The attributes the tag of a heading line should carry: the non-empty values of its
   * `:id:`, `:class:` and `:style:` directives, in that order.
   */
  function Carried(d: Option<Attrs>): seq<(string, string)> {
    Carry(IdAttribute, Lookup(d, IdDirective)) + Carry(ClassAttribute, Lookup(d, ClassDirective))
      + Carry(StyleAttribute, Lookup(d, StyleDirective))
  }

  /** Each attribute is carried with exactly its directive's value, and only when that is non-empty. */
  lemma CarriedIff(d: Option<Attrs>, v: string)
    ensures (IdAttribute, v) in Carried(d) <==> v != "" && v == Lookup(d, IdDirective)
    ensures (ClassAttribute, v) in Carried(d) <==> v != "" && v == Lookup(d, ClassDirective)
    ensures (StyleAttribute, v) in Carried(d) <==> v != "" && v == Lookup(d, StyleDirective)
  {
    assert IdAttribute != ClassAttribute && IdAttribute != StyleAttribute;
    assert ClassAttribute[0] != StyleAttribute[0];
  }

  /** Reads ` name="value"` attributes back from the start of `s`, up to the first text that is not one. */
  function ParseAttributes(s: string): seq<(string, string)>
    decreases |s|
  {
    if s == [] || s[0] != ' ' then []
    else
      var rest := s[1..];
      var e := IndexByte(rest, '=');
      if e < 0 || !HasPrefix(rest[e + 1..], "\"") then []
      else
        var after := rest[e + 2..];
        var q := IndexByte(after, '"');
        if q < 0 then [] else [(rest[..e], after[..q])] + ParseAttributes(after[q + 1..])
  }

  /** The name and value up to the closing quote, read from the text after the leading space. */
  lemma ParseAttributeRest(name: string, value: string, tail: string, rest: string)
    requires '=' !in name && '"' !in value
    requires rest == name + ("=\"" + (value + ("\"" + tail)))
    ensures var e := IndexByte(rest, '=');
      && e == |name| && rest[..e] == name && HasPrefix(rest[e + 1..], "\"")
      && rest[e + 2..] == value + ("\"" + tail)
  {
    var eq := "=\"" + (value + ("\"" + tail));
    FirstOccurrence(name, eq, '=');
    DropAfter(name, eq, 1);
    DropAfter(name, eq, 2);
    assert eq[1..][0] == '"';
  }

  /** One step of `ParseAttributes` over text whose name, quote and value have been located. */
  lemma ParseAttributesStep(rest: string, name: string, value: string, tail: string)
    requires IndexByte(rest, '=') == |name| && rest[..|name|] == name && HasPrefix(rest[|name| + 1..], "\"")
    requires var after := rest[|name| + 2..];
      && IndexByte(after, '"') == |value| && after[..|value|] == value && after[|value| + 1..] == tail
    ensures ParseAttributes(" " + rest) == [(name, value)] + ParseAttributes(tail)
  {
    var s := " " + rest;
    assert s[1..] == rest;
    var after := rest[|name| + 2..];
    assert ParseAttributes(s) == [(rest[..|name|], after[..|value|])] + ParseAttributes(after[|value| + 1..]);
  }

  /** An attribute with a value, followed by `tail`, grouped from its leading space. */
  lemma AttributeSplit(name: string, value: string, tail: string)
    requires value != ""
    ensures Attribute(name, value) + tail == " " + (name + ("=\"" + (value + ("\"" + tail))))
  {
    Assoc3(" ", name, "=\"", value);
    assert Attribute(name, value) + tail == " " + name + "=\"" + value + ("\"" + tail);
  }

  /** One non-empty attribute reads back as its name and value, then whatever follows. */
  lemma ParseAttribute(name: string, value: string, tail: string)
    requires '=' !in name && '"' !in value && value != ""
    ensures ParseAttributes(Attribute(name, value) + tail) == [(name, value)] + ParseAttributes(tail)
  {
    var after := value + ("\"" + tail);
    var rest := name + ("=\"" + after);
    assert Attribute(name, value) + tail == " " + rest by { AttributeSplit(name, value, tail); }
    assert ParseAttributes(" " + rest) == [(name, value)] + ParseAttributes(tail) by {
      ParseAttributeRest(name, value, tail, rest);
      FirstOccurrence(value, "\"" + tail, '"');
      DropAfter(value, "\"" + tail, 1);
      ParseAttributesStep(rest, name, value, tail);
    }
  }

  /** Any attribute, written or not, reads back as what it carries. */
  lemma ParseCarry(name: string, value: string, tail: string)
    requires '=' !in name && '"' !in value
    ensures ParseAttributes(Attribute(name, value) + tail) == Carry(name, value) + ParseAttributes(tail)
  {
    if value != "" {
      ParseAttribute(name, value, tail);
    } else {
      assert Attribute(name, value) + tail == tail;
    }
  }

  /** The attributes of a tag, in the order id, class, style. */
  function AttributeText(d: Option<Attrs>): string {
    Attribute(IdAttribute, Lookup(d, IdDirective)) + (Attribute(ClassAttribute, Lookup(d, ClassDirective))
      + Attribute(StyleAttribute, Lookup(d, StyleDirective)))
  }

  /** The attributes read back as the directives they carry, then whatever follows. */
  lemma ParseAttributeText(d: Option<Attrs>, tail: string)
    requires '"' !in Lookup(d, IdDirective) && '"' !in Lookup(d, ClassDirective) && '"' !in Lookup(d, StyleDirective)
    ensures ParseAttributes(AttributeText(d) + tail) == Carried(d) + ParseAttributes(tail)
  {
    var a1 := Attribute(IdAttribute, Lookup(d, IdDirective));
    var a2 := Attribute(ClassAttribute, Lookup(d, ClassDirective));
    var a3 := Attribute(StyleAttribute, Lookup(d, StyleDirective));
    assert AttributeText(d) + tail == a1 + (a2 + (a3 + tail)) by {
      Assoc(a1, a2 + a3, tail);
      Assoc(a2, a3, tail);
    }
    var c1 := Carry(IdAttribute, Lookup(d, IdDirective));
    var c2 := Carry(ClassAttribute, Lookup(d, ClassDirective));
    var c3 := Carry(StyleAttribute, Lookup(d, StyleDirective));
    var p := ParseAttributes(tail);
    assert ParseAttributes(a3 + tail) == c3 + p by {
      assert '=' !in StyleAttribute;
      ParseCarry(StyleAttribute, Lookup(d, StyleDirective), tail);
    }
    assert ParseAttributes(a2 + (a3 + tail)) == c2 + (c3 + p) by {
      assert '=' !in ClassAttribute;
      ParseCarry(ClassAttribute, Lookup(d, ClassDirective), a3 + tail);
    }
    assert ParseAttributes(a1 + (a2 + (a3 + tail))) == c1 + (c2 + (c3 + p)) by {
      assert '=' !in IdAttribute;
      ParseCarry(IdAttribute, Lookup(d, IdDirective), a2 + (a3 + tail));
    }
    assert Carried(d) == c1 + c2 + c3;
    AppendAssoc(c1, c2, c3, p);
  }

  lemma AppendAssoc<T>(a: seq<T>, b: seq<T>, c: seq<T>, e: seq<T>)
    ensures a + (b + (c + e)) == a + b + c + e
  {
  }

  /** The layout of a heading tag: the opening, the attributes, then the text and the close tag. */
  lemma HeadingLayout(line: string, d: Option<Attrs>)
    requires HeaderPrefix(line)
    ensures var n := LeadingHashes(line);
      Heading(line, d) == ("<h" + Itoa(n)) + (AttributeText(d) + (">" + TrimSpace(line[n..]) + "</h" + Itoa(n) + ">\n"))
  {
    var n := LeadingHashes(line);
    var open := "<h" + Itoa(n);
    var a1 := Attribute(IdAttribute, Lookup(d, IdDirective));
    var a2 := Attribute(ClassAttribute, Lookup(d, ClassDirective));
    var a3 := Attribute(StyleAttribute, Lookup(d, StyleDirective));
    var close := ">" + TrimSpace(line[n..]) + "</h" + Itoa(n) + ">\n";
    assert Heading(line, d) == open + a1 + a2 + a3 + close;
    Assoc3(open, a1, a2, a3 + close);
    Assoc(open + a1 + a2, a3, close);
    Assoc(a1, a2 + a3, close);
    Assoc(a2, a3, close);
  }

  /**
   * The tag of any heading line opens with `<h` and its level, which reads back as the number
   * of leading `#`; then its attributes read back as the directives it carries (for values
   * without a double quote: the source writes them into the tag unescaped); and it ends with
   * the trimmed text and the matching close tag.
   */
  lemma HeadingRoundTrip(line: string, d: Option<Attrs>)
    requires HeaderPrefix(line)
    requires '"' !in Lookup(d, IdDirective) && '"' !in Lookup(d, ClassDirective) && '"' !in Lookup(d, StyleDirective)
    ensures var h, n := Heading(line, d), LeadingHashes(line);
      var open := "<h" + Itoa(n);
      && HasPrefix(h, open) && ParseNat(Itoa(n)) == n
      && ParseAttributes(h[|open|..]) == Carried(d)
      && HasSuffix(h, ">" + TrimSpace(line[n..]) + "</h" + Itoa(n) + ">\n")
  {
    var n := LeadingHashes(line);
    var open := "<h" + Itoa(n);
    var close := ">" + TrimSpace(line[n..]) + "</h" + Itoa(n) + ">\n";
    var h := Heading(line, d);
    assert h == open + (AttributeText(d) + close) by { HeadingLayout(line, d); }
    assert HasPrefix(h, open) && h[|open|..] == AttributeText(d) + close by {
      PrefixOfConcat(open, AttributeText(d) + close);
    }
    assert HasSuffix(h, close) by {
      Assoc(open, AttributeText(d), close);
      assert h[|h| - |close|..] == close;
    }
    ItoaRoundTrip(n);
    assert ParseAttributes(close) == [] by { assert close[0] == '>'; }
    ParseAttributeText(d, close);
  }

  /** A stored line is a heading when it matches `^#+\s` and is the first line or follows a blank one. */
  predicate IsHeadingAt(lines: seq<string>, k: nat)
    requires k < |lines|
  {
    HeaderPrefix(lines[k]) && (k == 0 || lines[k - 1] == "")
  }

  /** The output for stored line `k`: its heading tag, or the line verbatim with a newline. */
  function RenderLine(lines: seq<string>, dirs: seq<Option<Attrs>>, k: nat): string
    requires |dirs| == |lines| && k < |lines|
  {
    if IsHeadingAt(lines, k) then Heading(lines[k], dirs[k]) else lines[k] + "\n"
  }

  /** The output for the first `n` stored lines. */
  function RenderBody(lines: seq<string>, dirs: seq<Option<Attrs>>, n: nat): string
    requires |dirs| == |lines| && n <= |lines|
  {
    if n == 0 then "" else RenderBody(lines, dirs, n - 1) + RenderLine(lines, dirs, n - 1)
  }

  /** The body of the first `n + 1` lines is that of the first `n`, then line `n`. */
  lemma RenderBodySnoc(lines: seq<string>, dirs: seq<Option<Attrs>>, n: nat)
    requires |dirs| == |lines| && n < |lines|
    ensures RenderBody(lines, dirs, n + 1) == RenderBody(lines, dirs, n) + RenderLine(lines, dirs, n)
  {
  }

  /** Without headings the body is the stored lines, each followed by a newline, unchanged. */
  lemma {:induction false} PassThrough(lines: seq<string>, dirs: seq<Option<Attrs>>, n: nat)
    requires |dirs| == |lines| && n <= |lines|
    requires forall k :: 0 <= k < n ==> !IsHeadingAt(lines, k)
    ensures RenderBody(lines, dirs, n) == Terminated(lines[..n])
  {
    if n > 0 {
      PassThrough(lines, dirs, n - 1);
      assert lines[..n] == lines[..n - 1] + [lines[n - 1]];
      TerminatedAppend(lines[..n - 1], [lines[n - 1]]);
      assert Terminated([lines[n - 1]]) == lines[n - 1] + "\n";
    }
  }

  /** The body rendered for a single stored line that is a heading. */
  lemma RenderSingleHeading(lines: seq<string>, dirs: seq<Option<Attrs>>)
    requires |lines| == |dirs| == 1 && HeaderPrefix(lines[0])
    ensures RenderBody(lines, dirs, 1) == Heading(lines[0], dirs[0])
  {
    assert RenderBody(lines, dirs, 0) == "";
  }

  /**
   * Rendering the body of `:id:intro`, `:class:big`, `# Hello`: the heading carries the
   * pending id and class, id first.
   */
  lemma AttributeInjectionExample(env: Env, st: State, dir: string, fuel: nat)
    requires st.lines == [] && st.lineDirectives == [] && st.lineDirective == map[]
    ensures var r := ProcessLines(env, st, dir, [":id:intro", ":class:big", "# Hello"], fuel);
            && r.ok && r.st.lines == ["# Hello"] && |r.st.lineDirectives| == 1
            && RenderBody(r.st.lines, r.st.lineDirectives, 1) == "<h1 id=\"intro\" class=\"big\">Hello</h1>\n"
  {
    var m2 := IntroBig();
    var s3 := st.(lines := ["# Hello"], lineDirectives := [Some(m2)], lineDirective := map[]);
    assert ProcessLines(env, st, dir, [":id:intro", ":class:big", "# Hello"], fuel) == Run(s3, true) by {
      IntroBigResolved(env, st, dir, fuel);
    }
    assert RenderBody(s3.lines, s3.lineDirectives, 1) == "<h1 id=\"intro\" class=\"big\">Hello</h1>\n" by {
      IntroBigRendered(s3.lines, s3.lineDirectives);
    }
  }

  /** The pending map after `:id:intro` and `:class:big`. */
  function IntroBig(): Attrs {
    map[IdDirective := "intro", ClassDirective := "big"]
  }

  lemma IntroBigResolved(env: Env, st: State, dir: string, fuel: nat)
    requires st.lines == [] && st.lineDirectives == [] && st.lineDirective == map[]
    ensures ProcessLines(env, st, dir, [":id:intro", ":class:big", "# Hello"], fuel)
         == Run(st.(lines := ["# Hello"], lineDirectives := [Some(IntroBig())], lineDirective := map[]), true)
  {
    var lines := [":id:intro", ":class:big", "# Hello"];
    var rest1, rest2 := [":class:big", "# Hello"], ["# Hello"];
    assert lines[1..] == rest1 && rest1[1..] == rest2 && rest2[1..] == [];
    var m1 := map[IdDirective := "intro"];
    var m2 := IntroBig();
    var s1 := st.(lineDirective := m1);
    var s2 := s1.(lineDirective := m2);
    var s3 := s2.(lines := ["# Hello"], lineDirectives := [Some(m2)], lineDirective := map[]);
    assert Step(env, st, dir, lines[0], fuel) == Run(s1, true) by {
      IdOverwrites(env, st, dir, lines[0], fuel);
      assert lines[0][|IdDirective|..] == "intro";
    }
    assert Step(env, s1, dir, rest1[0], fuel) == Run(s2, true) by {
      ClassJoins(env, s1, dir, rest1[0], fuel);
      assert rest1[0][|ClassDirective|..] == "big";
      assert |ClassDirective| != |IdDirective|;
      assert ClassDirective !in m1;
      assert "" + "big" == "big";
    }
    assert Step(env, s2, dir, rest2[0], fuel) == Run(s3, true) by {
      HelloStored(env, s2, dir, fuel);
      assert s2.lines + ["# Hello"] == ["# Hello"];
      assert s2.lineDirectives + [Some(m2)] == [Some(m2)];
    }
    assert ProcessLines(env, st, dir, lines, fuel) == ProcessLines(env, s1, dir, rest1, fuel) by {
      ProcessLinesCons(env, st, dir, lines, fuel);
    }
    assert ProcessLines(env, s1, dir, rest1, fuel) == ProcessLines(env, s2, dir, rest2, fuel) by {
      ProcessLinesCons(env, s1, dir, rest1, fuel);
    }
    assert ProcessLines(env, s2, dir, rest2, fuel) == Run(s3, true) by {
      ProcessLinesCons(env, s2, dir, rest2, fuel);
    }
  }

  /** `# Hello` is a content line. */
  lemma HelloStored(env: Env, st: State, dir: string, fuel: nat)
    ensures Step(env, st, dir, "# Hello", fuel)
         == Run(st.(lines := st.lines + ["# Hello"], lineDirectives := st.lineDirectives + [Some(st.lineDirective)],
                    lineDirective := map[]), true)
  {
    HeadingLineIsContent();
    ContentStored(env, st, dir, "# Hello", fuel);
  }

  lemma IntroBigRendered(lines: seq<string>, dirs: seq<Option<Attrs>>)
    requires lines == ["# Hello"] && dirs == [Some(IntroBig())]
    ensures RenderBody(lines, dirs, 1) == "<h1 id=\"intro\" class=\"big\">Hello</h1>\n"
  {
    IntroBigMap(IntroBig());
    HelloHeading(dirs[0], "intro", "big");
    RenderSingleHeading(lines, dirs);
    IntroBigLiteral();
  }

  lemma IntroBigMap(m: Attrs)
    requires m == IntroBig()
    ensures Lookup(Some(m), IdDirective) == "intro" && Lookup(Some(m), ClassDirective) == "big"
    ensures Lookup(Some(m), StyleDirective) == ""
  {
  }
  lemma IntroBigLiteral()
    ensures "<h1" + Attribute(IdAttribute, "intro") + Attribute(ClassAttribute, "big") + ">Hello</h1>\n"
         == "<h1 id=\"intro\" class=\"big\">Hello</h1>\n"
  {
    var id := Attribute(IdAttribute, "intro");
    var cls := Attribute(ClassAttribute, "big");
    assert id == " id=\"intro\"";
    assert cls == " class=\"big\"";
    assert "<h1" + id == "<h1 id=\"intro\"";
    assert "<h1 id=\"intro\"" + cls == "<h1 id=\"intro\" class=\"big\"";
  }

  /**
   * Rendering the body of `:id:intro`, an empty line, `# Hello`: the blank line drops the
   * pending id, and the heading has no attributes.
   */
  lemma BlankLineResetExample(env: Env, st: State, dir: string, fuel: nat)
    requires st.lines == [] && st.lineDirectives == [] && st.lineDirective == map[]
    ensures var r := ProcessLines(env, st, dir, [":id:intro", "", "# Hello"], fuel);
            && r.ok && r.st.lines == ["", "# Hello"] && |r.st.lineDirectives| == 2
            && RenderBody(r.st.lines, r.st.lineDirectives, 2) == "\n<h1>Hello</h1>\n"
  {
    BlankLineResolved(env, st, dir, fuel);
    var r := ProcessLines(env, st, dir, [":id:intro", "", "# Hello"], fuel);
    assert r.st.lines[0] == "" && r.st.lines[1] == "# Hello";
    BlankThenHeading(r.st.lines, r.st.lineDirectives);
  }

  lemma BlankLineResolved(env: Env, st: State, dir: string, fuel: nat)
    requires st.lines == [] && st.lineDirectives == [] && st.lineDirective == map[]
    ensures var r := ProcessLines(env, st, dir, [":id:intro", "", "# Hello"], fuel);
            && r.ok && r.st.lines == ["", "# Hello"] && r.st.lineDirectives == [None, Some(map[])]
  {
    var lines := [":id:intro", "", "# Hello"];
    assert lines[1..] == ["", "# Hello"];
    IdOverwrites(env, st, dir, lines[0], fuel);
    ProcessLinesCons(env, st, dir, lines, fuel);
    var s1 := Step(env, st, dir, lines[0], fuel).st;
    assert !IsDirective("") && AllSpace("");
    HeadingLineIsContent();
    BlankLineResets(env, s1, dir, "", "# Hello", fuel);
  }

  lemma BlankThenHeading(lines: seq<string>, dirs: seq<Option<Attrs>>)
    requires |lines| == |dirs| == 2 && lines[0] == "" && lines[1] == "# Hello" && dirs[1] == Some(map[])
    ensures RenderBody(lines, dirs, 2) == "\n<h1>Hello</h1>\n"
  {
    BlankFirst(lines, dirs);
    HelloSecond(lines, dirs);
    BareHello(dirs[1]);
    var x, y := RenderBody(lines, dirs, 1), RenderLine(lines, dirs, 1);
    assert RenderBody(lines, dirs, 2) == x + y;
    assert x == "\n" && y == "<h1>Hello</h1>\n";
    NewlineThen(x, y);
  }

  lemma NewlineThen(x: string, y: string)
    requires x == "\n" && y == "<h1>Hello</h1>\n"
    ensures x + y == "\n<h1>Hello</h1>\n"
  {
  }

  lemma BlankFirst(lines: seq<string>, dirs: seq<Option<Attrs>>)
    requires |lines| == |dirs| == 2 && lines[0] == ""
    ensures RenderBody(lines, dirs, 1) == "\n"
  {
    assert !IsHeadingAt(lines, 0) by { assert LeadingHashes(lines[0]) == 0; }
  }

  lemma HelloSecond(lines: seq<string>, dirs: seq<Option<Attrs>>)
    requires |lines| == |dirs| == 2 && lines[0] == "" && lines[1] == "# Hello"
    ensures HeaderPrefix("# Hello") && RenderLine(lines, dirs, 1) == Heading("# Hello", dirs[1])
  {
    HelloLevel();
    assert IsHeadingAt(lines, 1);
  }

  lemma BareHello(d: Option<Attrs>)
    requires d == Some(map[])
    ensures HeaderPrefix("# Hello") && Heading("# Hello", d) == "<h1>Hello</h1>\n"
  {
    HelloHeading(d, "", "");
    BareLiteral();
  }

  lemma BareLiteral()
    ensures "<h1" + Attribute(IdAttribute, "") + Attribute(ClassAttribute, "") + ">Hello</h1>\n" == "<h1>Hello</h1>\n"
  {
  }

  lemma HeadingLineIsContent()
    ensures !IsDirective("# Hello") && !AllSpace("# Hello")
  {
    var h := "# Hello";
    NotPrefix(h, IncludeDirective);
    NotPrefix(h, CssDirective);
    NotPrefix(h, TitleDirective);
    NotPrefix(h, IdDirective);
    NotPrefix(h, StyleDirective);
    NotPrefix(h, ClassDirective);
    assert !IsSpace(h[0]);
  }

  lemma HelloLevel()
    ensures LeadingHashes("# Hello") == 1 && HeaderPrefix("# Hello")
  {
    var h := "# Hello";
    assert h[0] == '#' && h[1] == ' ';
    assert LeadingHashes(h[1..]) == 0;
  }

  lemma HelloText()
    ensures TrimSpace("# Hello"[1..]) == "Hello"
  {
    var t := "# Hello"[1..];
    assert TrimLeft(t) == "Hello" by { HelloTrimLeft(t); }
    assert TrimRight("Hello") == "Hello" by { HelloTrimRight(); }
  }

  lemma HelloTrimLeft(t: string)
    requires t == "# Hello"[1..]
    ensures TrimLeft(t) == "Hello"
  {
    assert t[0] == ' ' && t[1] == 'H';
    assert TrimLeft(t) == t[1..] by { TrimLeftOne(t); }
    assert t[1..] == "Hello";
  }

  lemma HelloTrimRight()
    ensures TrimRight("Hello") == "Hello"
  {
    var l := "Hello";
    assert !IsSpace(l[|l| - 1]);
    TrimRightStop(l);
  }

  lemma HelloHeading(d: Option<Attrs>, id: string, cls: string)
    requires Lookup(d, IdDirective) == id && Lookup(d, ClassDirective) == cls && Lookup(d, StyleDirective) == ""
    ensures HeaderPrefix("# Hello")
    ensures Heading("# Hello", d)
         == "<h1" + Attribute(IdAttribute, id) + Attribute(ClassAttribute, cls) + ">Hello</h1>\n"
  {
    HelloLevel();
    HelloText();
    var a := Attribute(IdAttribute, id);
    var b := Attribute(ClassAttribute, cls);
    var one, txt := Itoa(1), TrimSpace("# Hello"[1..]);
    assert Heading("# Hello", d) == "<h" + one + a + b + Attribute(StyleAttribute, "") + ">" + txt + "</h" + one + ">\n";
    assert one == "1";
    HeadingLiteral(a, b, one, txt);
  }

  lemma HeadingLiteral(a: string, b: string, one: string, txt: string)
    requires one == "1" && txt == "Hello"
    ensures "<h" + one + a + b + "" + ">" + txt + "</h" + one + ">\n" == "<h1" + a + b + ">Hello</h1>\n"
  {
    assert "<h" + one == "<h1";
    assert ">" + txt + "</h" + one + ">\n" == ">Hello</h1>\n";
  }
}
