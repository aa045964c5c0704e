/**
 * `html.EscapeString` and the fixed HTML page around the converted body. Both
 * `MarkDown.writeHTMLPrefix`/`writeHTMLPostfix` and `processor.markdownToHTML` write exactly
 * these bytes: doctype and head with the escaped title, one stylesheet link per css entry,
 * then the body, then the closing tags.
 */
module Html {
  import opened Strings

  function EscapeChar(c: char): string {
    match c
    case '&' => "&amp;"
    case '\'' => "&#39;"
    case '<' => "&lt;"
    case '>' => "&gt;"
    case '"' => "&#34;"
    case _ => [c]
  }

  /** No character that could open or close a tag or an attribute value. */
  predicate NoMarkup(s: string) {
    forall i :: 0 <= i < |s| ==> s[i] != '<' && s[i] != '>' && s[i] != '"' && s[i] != '\''
  }

  /** `html.EscapeString`: the five special characters become entities, so no markup survives. */
  function EscapeString(s: string): (r: string)
    ensures NoMarkup(r)
  {
    if s == [] then "" else EscapeChar(s[0]) + EscapeString(s[1..])
  }

  /** The inverse of `EscapeString` on the five entities it produces. */
  function UnescapeString(s: string): string
    decreases |s|
  {
    if s == [] then ""
    else if s[0] != '&' then [s[0]] + UnescapeString(s[1..])
    else if |s| >= 5 && s[1] == 'a' && s[2] == 'm' && s[3] == 'p' && s[4] == ';' then "&" + UnescapeString(s[5..])
    else if |s| >= 5 && s[1] == '#' && s[2] == '3' && s[3] == '9' && s[4] == ';' then "'" + UnescapeString(s[5..])
    else if |s| >= 4 && s[1] == 'l' && s[2] == 't' && s[3] == ';' then "<" + UnescapeString(s[4..])
    else if |s| >= 4 && s[1] == 'g' && s[2] == 't' && s[3] == ';' then ">" + UnescapeString(s[4..])
    else if |s| >= 5 && s[1] == '#' && s[2] == '3' && s[3] == '4' && s[4] == ';' then "\"" + UnescapeString(s[5..])
    else "&" + UnescapeString(s[1..])
  }

  lemma UnescapeEscapeChar(c: char, rest: string)
    ensures UnescapeString(EscapeChar(c) + rest) == [c] + UnescapeString(rest)
  {
    var e := EscapeChar(c);
    var s := e + rest;
    assert s[|e|..] == rest;
    if c == '&' || c == '\'' || c == '<' || c == '>' || c == '"' {
      UnescapeEntity(c, rest);
    } else {
      assert s[0] == c;
    }
  }

  /** Each of the five entities is read back as the character it stands for. */
  lemma UnescapeEntity(c: char, rest: string)
    requires c == '&' || c == '\'' || c == '<' || c == '>' || c == '"'
    ensures UnescapeString(EscapeChar(c) + rest) == [c] + UnescapeString(rest)
  {
    var e := EscapeChar(c);
    var s := e + rest;
    assert s[|e|..] == rest;
    assert s[0] == '&' && s[1] == e[1] && s[2] == e[2] && s[3] == e[3];
    if |e| == 5 {
      assert s[4] == e[4];
    }
  }

  /** Escaping loses nothing: the title can be recovered from the escaped text. */
  lemma {:induction false} EscapeRoundTrip(s: string)
    ensures UnescapeString(EscapeString(s)) == s
  {
    if s != [] {
      EscapeRoundTrip(s[1..]);
      UnescapeEscapeChar(s[0], EscapeString(s[1..]));
    }
  }

  const HeadOpen: string :=
    "<!doctype html>\n<html lang=\"en\">\n<head>\n"
    + "\t<meta charset=\"utf-8\">\n"
    + "\t<meta http-equiv=\"x-ua-compatible\" content=\"ie=edge\">\n"
    + "\t<meta name=\"viewport\" content=\"width=device-width, initial-scale=1.0\">\n"
    + "\t<title>"
  const TitleClose: string := "</title>\n"
  const LinkOpen: string := "\t" + "<link rel=\"stylesheet\" type=\"text/css\" href=\""
  const LinkClose: string := "\">\n"
  const BodyOpen: string := "</head>\n<body>\n"
  const Postfix: string := "</body>\n</html>\n"

  function StylesheetLink(css: string): string {
    LinkOpen + (css + LinkClose)
  }

  /** One stylesheet link per entry, in list order. */
  function Links(css: seq<string>): string {
    if css == [] then "" else StylesheetLink(css[0]) + Links(css[1..])
  }

  lemma {:induction false} LinksSnoc(css: seq<string>, c: string)
    ensures Links(css + [c]) == Links(css) + StylesheetLink(c)
  {
    if css == [] {
      assert css + [c] == [c] && [c][1..] == [];
    } else {
      assert (css + [c])[1..] == css[1..] + [c];
      LinksSnoc(css[1..], c);
    }
  }

  /** The links of one more entry of `css`: the links so far, then that entry's link. */
  lemma LinksPrefixSnoc(css: seq<string>, i: nat)
    requires i < |css|
    ensures Links(css[..i + 1]) == Links(css[..i]) + StylesheetLink(css[i])
  {
    assert css[..i + 1] == css[..i] + [css[i]];
    LinksSnoc(css[..i], css[i]);
  }

  /** Everything after the escaped title and before the converted body. */
  function HeadTail(css: seq<string>): string {
    TitleClose + (Links(css) + BodyOpen)
  }

  /** Everything before the converted body. */
  function Prefix(title: string, css: seq<string>): string {
    HeadOpen + (EscapeString(title) + HeadTail(css))
  }

  /** The prefix as written piece by piece: head, escaped title, the links in order, then `</head>`. */
  lemma PrefixAssembled(title: string, css: seq<string>)
    ensures HeadOpen + EscapeString(title) + TitleClose + Links(css) + BodyOpen == Prefix(title, css)
  {
    var e := EscapeString(title);
    Assoc(TitleClose, Links(css), BodyOpen);
    Assoc(HeadOpen + e + TitleClose, Links(css), BodyOpen);
    Assoc(HeadOpen + e, TitleClose, Links(css) + BodyOpen);
    Assoc(HeadOpen, e, HeadTail(css));
  }

  /** A title of `A & B` appears in the page as `A &amp; B`. */
  lemma EscapeExample()
    ensures EscapeString("A & B") == "A &amp; B"
  {
    var b := EscapeString("B");
    assert b == "B" by { EscapeCons('B', ""); }
    var sb := EscapeString(" B");
    assert sb == " B" by { EscapeCons(' ', "B"); }
    var asb := EscapeString("& B");
    assert asb == "&amp; B" by { EscapeCons('&', " B"); }
    var sasb := EscapeString(" & B");
    assert sasb == " &amp; B" by { EscapeCons(' ', "& B"); }
    assert EscapeString("A & B") == "A &amp; B" by { EscapeCons('A', " & B"); }
  }

  lemma EscapeCons(c: char, rest: string)
    ensures EscapeString([c] + rest) == EscapeChar(c) + EscapeString(rest)
  {
    assert ([c] + rest)[0] == c && ([c] + rest)[1..] == rest;
  }

  /** The whole page around a converted body. */
  function Page(title: string, css: seq<string>, body: string): string {
    Prefix(title, css) + (body + Postfix)
  }

  /** Reads the title back out of a page: the text up to the next '<', unescaped. */
  function ExtractTitle(page: string): string {
    if !HasPrefix(page, HeadOpen) then ""
    else
      var rest := page[|HeadOpen|..];
      var k := IndexByte(rest, '<');
      UnescapeString(if k < 0 then rest else rest[..k])
  }

  lemma ExtractAfterHead(e: string, after: string)
    requires '<' !in e && after != [] && after[0] == '<'
    ensures ExtractTitle(HeadOpen + (e + after)) == UnescapeString(e)
  {
    PrefixOfConcat(HeadOpen, e + after);
    FirstOccurrence(e, after, '<');
  }

  /** The `<title>` of every page carries exactly the title, escaped so that it cannot end early. */
  lemma PageTitleRoundTrip(title: string, css: seq<string>, body: string)
    ensures ExtractTitle(Page(title, css, body)) == title
  {
    var e := EscapeString(title);
    var rest := body + Postfix;
    var after := HeadTail(css) + rest;
    Assoc(HeadOpen, e + HeadTail(css), rest);
    Assoc(e, HeadTail(css), rest);
    assert Page(title, css, body) == HeadOpen + (e + after);
    Assoc(TitleClose, Links(css) + BodyOpen, rest);
    assert after[0] == TitleClose[0] == '<';
    ExtractAfterHead(e, after);
    EscapeRoundTrip(title);
  }

  /** Reads the stylesheet links back from the start of `s`. */
  function ParseLinks(s: string): seq<string>
    decreases |s|
  {
    if !HasPrefix(s, LinkOpen) then []
    else
      var rest := s[|LinkOpen|..];
      var q := IndexByte(rest, '"');
      if q < 0 || !HasPrefix(rest[q..], LinkClose) then []
      else [rest[..q]] + ParseLinks(rest[q + |LinkClose|..])
  }

  lemma ParseLinksStep(rest: string, c: string, tail: string)
    requires '"' !in c && rest == c + (LinkClose + tail)
    ensures IndexByte(rest, '"') == |c|
    ensures HasPrefix(rest[|c|..], LinkClose) && rest[|c| + |LinkClose|..] == tail
  {
    var after := LinkClose + tail;
    assert after[0] == LinkClose[0] == '"';
    FirstOccurrence(c, after, '"');
    PrefixOfConcat(c, after);
    PrefixOfConcat(LinkClose, tail);
    DropAfter(c, after, |LinkClose|);
  }

  lemma ParseLink(c: string, tail: string)
    requires '"' !in c
    ensures ParseLinks(StylesheetLink(c) + tail) == [c] + ParseLinks(tail)
  {
    var rest := c + (LinkClose + tail);
    Assoc(LinkOpen, c + LinkClose, tail);
    Assoc(c, LinkClose, tail);
    assert StylesheetLink(c) + tail == LinkOpen + rest;
    PrefixOfConcat(LinkOpen, rest);
    ParseLinksStep(rest, c, tail);
  }

  lemma ParseLinksNone(t: string)
    requires t == [] || t[0] != '\t'
    ensures ParseLinks(t) == []
  {
    assert LinkOpen[0] == '\t';
    NotPrefix(t, LinkOpen);
  }

  /**
   * The head holds one link per css entry, in list order: the entries can be read back from
   * the links (for paths without a double quote, which would end the attribute early).
   */
  lemma {:induction false} LinksRoundTrip(css: seq<string>, tail: string)
    requires forall k :: 0 <= k < |css| ==> '"' !in css[k]
    requires tail == [] || tail[0] != '\t'
    ensures ParseLinks(Links(css) + tail) == css
  {
    if css == [] {
      assert Links(css) + tail == tail;
      ParseLinksNone(tail);
    } else {
      var more := Links(css[1..]) + tail;
      assert ParseLinks(more) == css[1..] by {
        assert forall k :: 0 <= k < |css[1..]| ==> css[1..][k] == css[k + 1];
        LinksRoundTrip(css[1..], tail);
      }
      assert Links(css) + tail == StylesheetLink(css[0]) + more by {
        Assoc(StylesheetLink(css[0]), Links(css[1..]), tail);
      }
      assert ParseLinks(StylesheetLink(css[0]) + more) == [css[0]] + ParseLinks(more) by {
        ParseLink(css[0], more);
      }
      assert css == [css[0]] + css[1..];
    }
  }

  /** In a page the css entries can be read back from the text that follows the title. */
  lemma PageLinksRoundTrip(title: string, css: seq<string>, body: string)
    requires forall k :: 0 <= k < |css| ==> '"' !in css[k]
    ensures var page := Page(title, css, body);
      var start := |HeadOpen + (EscapeString(title) + TitleClose)|;
      start <= |page| && ParseLinks(page[start..]) == css
  {
    var page := Page(title, css, body);
    var front := HeadOpen + (EscapeString(title) + TitleClose);
    var tail := BodyOpen + (body + Postfix);
    Assoc(HeadOpen, EscapeString(title) + HeadTail(css), body + Postfix);
    Assoc(EscapeString(title), HeadTail(css), body + Postfix);
    Assoc(TitleClose, Links(css) + BodyOpen, body + Postfix);
    Assoc(Links(css), BodyOpen, body + Postfix);
    Assoc(EscapeString(title), TitleClose, Links(css) + tail);
    Assoc(HeadOpen, EscapeString(title) + TitleClose, Links(css) + tail);
    assert page == front + (Links(css) + tail);
    PrefixOfConcat(front, Links(css) + tail);
    assert BodyOpen[0] == '<';
    LinksRoundTrip(css, tail);
  }
}
