/**
 * Line splitting shared by both preprocessors: the byte loop of `processor.include`
 * (split at '\n', drop one trailing '\r') and `bufio.Scanner` with `bufio.ScanLines`,
 * which splits the same way but fails on a line longer than its buffer.
 */
module Lines {
  import opened Strings

  /** Drops one trailing carriage return. */
  function DropCR(line: string): string {
    if |line| > 0 && line[|line| - 1] == '\r' then line[..|line| - 1] else line
  }

  /** The lines of `s`: split at each '\n', one trailing '\r' dropped per line, no line for a final '\n'. */
  function SplitLines(s: string): seq<string>
    decreases |s|
  {
    if s == [] then []
    else
      var i := IndexByte(s, '\n');
      if i >= 0 then [DropCR(s[..i])] + SplitLines(s[i + 1..]) else [DropCR(s)]
  }

  function CountChar(s: string, c: char): nat {
    if s == [] then 0 else (if s[0] == c then 1 else 0) + CountChar(s[1..], c)
  }

  lemma {:induction false} CountCharAppend(a: string, b: string, c: char)
    ensures CountChar(a + b, c) == CountChar(a, c) + CountChar(b, c)
  {
    if a == [] {
      assert a + b == b;
    } else {
      assert (a + b)[1..] == a[1..] + b;
      CountCharAppend(a[1..], b, c);
    }
  }

  lemma {:induction false} CountCharAbsent(a: string, c: char)
    requires c !in a
    ensures CountChar(a, c) == 0
  {
    if a != [] {
      CountCharAbsent(a[1..], c);
    }
  }

  /** The first '\n' of `s` is counted once; the rest are counted in what follows it. */
  lemma CountAt(s: string, i: int)
    requires 0 <= i < |s| && s[i] == '\n' && '\n' !in s[..i]
    ensures CountChar(s, '\n') == 1 + CountChar(s[i + 1..], '\n')
  {
    var rest := s[i + 1..];
    assert s == s[..i] + ([s[i]] + rest);
    CountCharAppend(s[..i], [s[i]] + rest, '\n');
    CountCharAppend([s[i]], rest, '\n');
    CountCharAbsent(s[..i], '\n');
    assert CountChar([s[i]], '\n') == 1;
  }

  /**
   * One line per '\n', plus one for a last line that has no '\n': a final '\n' yields
   * no extra empty line, and empty input yields no lines.
   */
  lemma {:induction false} LineCount(s: string)
    ensures |SplitLines(s)| == CountChar(s, '\n') + (if s != [] && s[|s| - 1] != '\n' then 1 else 0)
    decreases |s|
  {
    if s != [] {
      var i := IndexByte(s, '\n');
      if i >= 0 {
        LineCount(s[i + 1..]);
        LineCountCut(s, i);
      } else {
        LineCountWhole(s);
      }
    }
  }

  /** Cutting the first line off adds one line and one '\n' to those of the rest. */
  lemma LineCountCut(s: string, i: int)
    requires 0 <= i < |s| && i == IndexByte(s, '\n')
    requires var rest := s[i + 1..];
             |SplitLines(rest)| == CountChar(rest, '\n') + (if rest != [] && rest[|rest| - 1] != '\n' then 1 else 0)
    ensures |SplitLines(s)| == CountChar(s, '\n') + (if s[|s| - 1] != '\n' then 1 else 0)
  {
    var rest := s[i + 1..];
    assert |SplitLines(s)| == 1 + |SplitLines(rest)| by { SplitLinesCons(s, i); }
    assert CountChar(s, '\n') == 1 + CountChar(rest, '\n') by { CountAt(s, i); }
    assert rest != [] ==> s[|s| - 1] == rest[|rest| - 1];
  }

  /** Text without a '\n' is one unterminated line. */
  lemma LineCountWhole(s: string)
    requires s != [] && IndexByte(s, '\n') < 0
    ensures |SplitLines(s)| == CountChar(s, '\n') + (if s[|s| - 1] != '\n' then 1 else 0)
  {
    CountCharAbsent(s, '\n');
  }

  /**
   * An independent, character-by-character description of what the preprocessor writes
   * for a directive-free file: every CRLF becomes LF, a CR at the very end becomes LF,
   * and a final LF is added when the input does not end with one.
   */
  function Normalize(s: string): string
    decreases |s|
  {
    if s == [] then []
    else if s == "\r" then "\n"
    else if |s| >= 2 && s[0] == '\r' && s[1] == '\n' then "\n" + Normalize(s[2..])
    else if s[0] == '\n' then "\n" + Normalize(s[1..])
    else if |s| == 1 then s + "\n"
    else [s[0]] + Normalize(s[1..])
  }

  /** Each line followed by '\n', as `p.data.Write(line); p.data.WriteByte('\n')` does. */
  function Terminated(lines: seq<string>): string {
    if lines == [] then "" else lines[0] + "\n" + Terminated(lines[1..])
  }

  lemma {:induction false} TerminatedAppend(a: seq<string>, b: seq<string>)
    ensures Terminated(a + b) == Terminated(a) + Terminated(b)
  {
    if a == [] {
      assert a + b == b;
    } else {
      assert (a + b)[1..] == a[1..] + b;
      TerminatedAppend(a[1..], b);
    }
  }

  lemma {:induction false} SegmentNormalize(seg: string, rest: string)
    requires '\n' !in seg
    ensures Normalize(seg + "\n" + rest) == DropCR(seg) + "\n" + Normalize(rest)
    decreases |seg|
  {
    var s := seg + "\n" + rest;
    if seg == [] {
      assert s == "\n" + rest && s[1..] == rest;
    } else if seg == "\r" {
      assert s[2..] == rest;
    } else {
      var tail := seg[1..];
      assert Normalize(tail + "\n" + rest) == DropCR(tail) + "\n" + Normalize(rest) by {
        SegmentNormalize(tail, rest);
      }
      SegmentStep(seg, rest);
    }
  }

  /** The inductive step of `SegmentNormalize`: a first character that starts no line break is copied. */
  lemma SegmentStep(seg: string, rest: string)
    requires '\n' !in seg && seg != [] && seg != "\r"
    requires Normalize(seg[1..] + "\n" + rest) == DropCR(seg[1..]) + "\n" + Normalize(rest)
    ensures Normalize(seg + "\n" + rest) == DropCR(seg) + "\n" + Normalize(rest)
  {
    var s := seg + "\n" + rest;
    var tail := seg[1..];
    var n := Normalize(rest);
    calc {
      Normalize(s);
    == { NormalizeHead(seg, rest); }
      [seg[0]] + Normalize(s[1..]);
    == { assert s[1..] == tail + "\n" + rest; }
      [seg[0]] + (DropCR(tail) + "\n" + n);
    == { Assoc(DropCR(tail), "\n", n); Assoc3([seg[0]], DropCR(tail), "\n", n); }
      [seg[0]] + DropCR(tail) + "\n" + n;
    == { DropCRHead(seg); }
      DropCR(seg) + "\n" + n;
    }
  }

  lemma NormalizeHead(seg: string, rest: string)
    requires '\n' !in seg && seg != [] && seg != "\r"
    ensures var s := seg + "\n" + rest; Normalize(s) == [seg[0]] + Normalize(s[1..])
  {
    var s := seg + "\n" + rest;
    assert s[0] == seg[0] != '\n' && |s| >= 2;
    if seg[0] == '\r' {
      assert |seg| >= 2 && s[1] == seg[1];
    }
  }

  lemma DropCRHead(seg: string)
    requires seg != [] && seg != "\r"
    ensures DropCR(seg) == [seg[0]] + DropCR(seg[1..])
  {
    var tail := seg[1..];
    if tail == [] {
      assert seg == [seg[0]] && seg[0] != '\r';
    } else {
      assert seg[|seg| - 1] == tail[|tail| - 1];
      assert seg[..|seg| - 1] == [seg[0]] + tail[..|tail| - 1];
    }
  }

  lemma {:induction false} LastSegmentNormalize(seg: string)
    requires '\n' !in seg && seg != []
    ensures Normalize(seg) == DropCR(seg) + "\n"
    decreases |seg|
  {
    if |seg| >= 2 {
      var tail := seg[1..];
      LastSegmentNormalize(tail);
      assert seg[1] == tail[0] && tail[0] != '\n';
      assert DropCR(seg) == [seg[0]] + DropCR(tail);
    }
  }

  /** Round trip: writing the split lines back, each with '\n', gives the normalized input. */
  lemma {:induction false} SplitRoundTrip(s: string)
    ensures Terminated(SplitLines(s)) == Normalize(s)
    decreases |s|
  {
    if s != [] {
      var i := IndexByte(s, '\n');
      if i >= 0 {
        SplitRoundTrip(s[i + 1..]);
        TerminatedSplitAt(s, i);
        NormalizeAt(s, i);
      } else {
        LastLineRoundTrip(s);
      }
    }
  }

  /** Unfolds `SplitLines` at its first '\n'. */
  lemma SplitLinesCons(s: string, i: int)
    requires 0 <= i < |s| && i == IndexByte(s, '\n')
    ensures SplitLines(s) == [DropCR(s[..i])] + SplitLines(s[i + 1..])
  {
  }

  lemma TerminatedCons(line: string, lines: seq<string>)
    ensures Terminated([line] + lines) == line + "\n" + Terminated(lines)
  {
    assert ([line] + lines)[1..] == lines;
  }

  lemma TerminatedSplitAt(s: string, i: int)
    requires 0 <= i < |s| && i == IndexByte(s, '\n')
    ensures Terminated(SplitLines(s)) == DropCR(s[..i]) + "\n" + Terminated(SplitLines(s[i + 1..]))
  {
    SplitLinesCons(s, i);
    TerminatedCons(DropCR(s[..i]), SplitLines(s[i + 1..]));
  }

  lemma NormalizeAt(s: string, i: int)
    requires 0 <= i < |s| && s[i] == '\n' && '\n' !in s[..i]
    ensures Normalize(s) == DropCR(s[..i]) + "\n" + Normalize(s[i + 1..])
  {
    var seg, rest := s[..i], s[i + 1..];
    assert s == seg + "\n" + rest by { SplitAround(s, i); }
    assert Normalize(seg + "\n" + rest) == DropCR(seg) + "\n" + Normalize(rest) by {
      SegmentNormalize(seg, rest);
    }
  }

  lemma SplitAround(s: string, i: int)
    requires 0 <= i < |s| && s[i] == '\n'
    ensures s[..i] + "\n" + s[i + 1..] == s
  {
  }

  lemma LastLineRoundTrip(s: string)
    requires s != [] && '\n' !in s
    ensures Terminated(SplitLines(s)) == Normalize(s)
  {
    assert SplitLines(s) == [DropCR(s)];
    assert [DropCR(s)][1..] == [];
    LastSegmentNormalize(s);
  }

  /** What a `bufio.Scanner` delivers: the tokens before the first over-long line, and whether it stopped on one. */
  datatype Scan = Scan(tokens: seq<string>, tooLong: bool)

  /**
   * `bufio.Scanner` with `ScanLines` and a buffer of `max` bytes: the lines of `SplitLines`,
   * except that a line whose raw length (before its '\n') reaches `max` ends the scan with
   * an error, after the lines before it were delivered.
   */
  function ScanLines(s: string, max: int): Scan
    decreases |s|
  {
    if s == [] then Scan([], false)
    else
      var i := IndexByte(s, '\n');
      var raw := if i >= 0 then s[..i] else s;
      if |raw| >= max then Scan([], true)
      else if i >= 0 then
        var r := ScanLines(s[i + 1..], max);
        Scan([DropCR(raw)] + r.tokens, r.tooLong)
      else Scan([DropCR(raw)], false)
  }

  lemma DropCRLength(line: string)
    ensures |line| - 1 <= |DropCR(line)| <= |line|
  {
  }

  lemma ScanLinesCons(s: string, max: int, i: int)
    requires 0 <= i < |s| && i == IndexByte(s, '\n') && i < max
    ensures ScanLines(s, max).tokens == [DropCR(s[..i])] + ScanLines(s[i + 1..], max).tokens
    ensures ScanLines(s, max).tooLong == ScanLines(s[i + 1..], max).tooLong
  {
  }

  lemma SplitLinesLast(s: string)
    requires s != [] && IndexByte(s, '\n') < 0
    ensures SplitLines(s) == [DropCR(s)]
  {
  }

  lemma ScanLinesLast(s: string, max: int)
    requires s != [] && IndexByte(s, '\n') < 0
    ensures ScanLines(s, max) == if |s| >= max then Scan([], true) else Scan([DropCR(s)], false)
  {
  }

  /** Whether a scan result is consistent with the split lines of its input. */
  predicate ScanAgrees(r: Scan, lines: seq<string>, max: int) {
    && |r.tokens| <= |lines| && r.tokens == lines[..|r.tokens|]
    && (!r.tooLong ==> r.tokens == lines)
    && (r.tooLong ==> |r.tokens| < |lines| && |lines[|r.tokens|]| + 1 >= max)
    && (forall k :: 0 <= k < |r.tokens| ==> |r.tokens[k]| < max)
  }

  lemma ScanAgreesCons(d: string, r: Scan, lines: seq<string>, max: int)
    requires ScanAgrees(r, lines, max) && |d| < max
    ensures ScanAgrees(Scan([d] + r.tokens, r.tooLong), [d] + lines, max)
  {
    var t := [d] + r.tokens;
    assert t == ([d] + lines)[..|t|];
    forall k | 0 <= k < |t| ensures |t[k]| < max {
      if k > 0 { assert t[k] == r.tokens[k - 1]; }
    }
    if r.tooLong {
      assert ([d] + lines)[|t|] == lines[|r.tokens|];
    }
  }

  /**
   * The scanner delivers a prefix of the split lines, all of them shorter than the buffer;
   * it delivers all of them unless it stops on a line that does not fit.
   */
  lemma {:induction false} ScanIsSplitPrefix(s: string, max: int)
    ensures ScanAgrees(ScanLines(s, max), SplitLines(s), max)
    decreases |s|
  {
    if s != [] {
      var i := IndexByte(s, '\n');
      if i < 0 {
        ScanAgreesLast(s, max);
      } else if i < max {
        ScanIsSplitPrefix(s[i + 1..], max);
        ScanAgreesStep(s, max, i);
      } else {
        ScanAgreesTooLong(s, max, i);
      }
    }
  }

  lemma ScanAgreesLast(s: string, max: int)
    requires s != [] && IndexByte(s, '\n') < 0
    ensures ScanAgrees(ScanLines(s, max), SplitLines(s), max)
  {
    DropCRLength(s);
    SplitLinesLast(s);
    ScanLinesLast(s, max);
  }

  lemma ScanAgreesTooLong(s: string, max: int, i: int)
    requires 0 <= i < |s| && i == IndexByte(s, '\n') && i >= max
    ensures ScanAgrees(ScanLines(s, max), SplitLines(s), max)
  {
    DropCRLength(s[..i]);
    SplitLinesCons(s, i);
    assert ScanLines(s, max) == Scan([], true);
  }

  lemma ScanAgreesStep(s: string, max: int, i: int)
    requires 0 <= i < |s| && i == IndexByte(s, '\n') && i < max
    requires ScanAgrees(ScanLines(s[i + 1..], max), SplitLines(s[i + 1..]), max)
    ensures ScanAgrees(ScanLines(s, max), SplitLines(s), max)
  {
    var rest := s[i + 1..];
    DropCRLength(s[..i]);
    SplitLinesCons(s, i);
    ScanLinesCons(s, max, i);
    ScanAgreesCons(DropCR(s[..i]), ScanLines(rest, max), SplitLines(rest), max);
  }
}
