/** What the lexer makes of quoted strings and text blocks, and which sources they come from. */
module SieveLexTheorems {
  import opened Prelude
  import opened SieveGrammar
  import opened SieveLexical

  lemma {:induction false} SpanOf(a: string, b: string, p: char -> bool)
    requires All(a, p)
    requires b == "" || !p(b[0])
    ensures Span(a + b, p) == |a|
  {
    if a == "" {
      assert a + b == b;
    } else {
      SpanOf(a[1..], b, p);
      assert (a + b)[1..] == a[1..] + b;
    }
  }

  lemma PrefixOf(a: string, b: string)
    ensures (a + b)[..|a|] == a && (a + b)[|a|..] == b
  {}

  // ----- Quoted strings -----

  /** A character of a quoted string, plain or after a backslash. */
  datatype Quoted = Plain(c: char) | Escaped(c: char)

  predicate Special(c: char) {
    c == '"' || c == '\\'
  }

  /** What may stand between quotes. */
  predicate ValidQuote(chars: seq<Quoted>) {
    forall i :: 0 <= i < |chars| && chars[i].Plain? ==> !Special(chars[i].c)
  }

  function CharText(q: Quoted): string {
    match q case Plain(c) => [c] case Escaped(c) => ['\\', c]
  }

  /** Only a quote or a backslash loses the backslash before it. */
  function CharValue(q: Quoted): string {
    match q case Plain(c) => [c] case Escaped(c) => if Special(c) then [c] else ['\\', c]
  }

  function QuoteText(chars: seq<Quoted>): string {
    if chars == [] then "" else CharText(chars[0]) + QuoteText(chars[1..])
  }

  function QuoteValue(chars: seq<Quoted>): string {
    if chars == [] then "" else CharValue(chars[0]) + QuoteValue(chars[1..])
  }

  lemma QuoteStep(q: Quoted, tail: string)
    requires q.Plain? ==> !Special(q.c)
    ensures QuotedString(CharText(q) + tail) == Prepend(CharValue(q), QuotedString(tail))
  {
    var s := CharText(q) + tail;
    assert s[|CharText(q)|..] == tail;
  }

  /** Everything that may stand between quotes is read, up to the closing quote. */
  lemma {:induction false} QuoteReads(chars: seq<Quoted>, rest: string)
    requires ValidQuote(chars)
    ensures QuotedString(QuoteText(chars) + ("\"" + rest)) == Done(QuoteValue(chars), rest)
  {
    if chars == [] {
      assert QuoteText(chars) + ("\"" + rest) == "\"" + rest;
      assert ("\"" + rest)[1..] == rest;
    } else {
      var tail := QuoteText(chars[1..]) + ("\"" + rest);
      assert QuoteText(chars) + ("\"" + rest) == CharText(chars[0]) + tail;
      QuoteReads(chars[1..], rest);
      QuoteStep(chars[0], tail);
    }
  }

  /** And nothing else is: a string the lexer accepts is such a list of characters. */
  lemma {:induction false} QuoteParses(s: string) returns (chars: seq<Quoted>)
    requires QuotedString(s).Done?
    ensures ValidQuote(chars) && s == QuoteText(chars) + ("\"" + QuotedString(s).rest)
    ensures QuotedString(s).value == QuoteValue(chars)
    decreases |s|
  {
    if s[0] == '"' {
      chars := [];
      assert s == "" + ("\"" + s[1..]);
    } else {
      var q := if s[0] == '\\' then Escaped(s[1]) else Plain(s[0]);
      var tail := s[|CharText(q)|..];
      assert s == CharText(q) + tail;
      QuoteStep(q, tail);
      var more := QuoteParses(tail);
      chars := [q] + more;
      assert chars[1..] == more;
      QuoteCons(q, more, "\"" + QuotedString(s).rest);
    }
  }

  lemma QuoteCons(q: Quoted, more: seq<Quoted>, end: string)
    ensures QuoteText([q] + more) + end == CharText(q) + (QuoteText(more) + end)
  {
    assert ([q] + more)[1..] == more;
  }

  /** Escapes only the quote and the backslash. */
  function Escape(s: string): seq<Quoted> {
    if s == "" then [] else [if Special(s[0]) then Escaped(s[0]) else Plain(s[0])] + Escape(s[1..])
  }

  /** Every string, escaped, reads back as itself. */
  lemma {:induction false} QuoteReadsBack(s: string, rest: string)
    ensures ValidQuote(Escape(s)) && QuoteValue(Escape(s)) == s
    ensures QuotedString(QuoteText(Escape(s)) + ("\"" + rest)) == Done(s, rest)
  {
    if s != "" {
      QuoteReadsBack(s[1..], rest);
      assert Escape(s)[1..] == Escape(s[1..]);
      assert s == [s[0]] + s[1..];
    }
    QuoteReads(Escape(s), rest);
  }

  // ----- Escapes in section 2.4.2 of RFC 5228 -----

  /** The standard's reading: a backslash before any character is dropped. */
  function StandardString(s: string): (r: Parse<char, string>)
    ensures r.Done? ==> |r.rest| < |s|
  {
    if s == "" then Fail
    else if s[0] == '"' then Done("", s[1..])
    else if s[0] != '\\' then Prepend([s[0]], StandardString(s[1..]))
    else if |s| == 1 then Fail
    else Prepend([s[1]], StandardString(s[2..]))
  }

  /** How many backslashes, up to the closing quote, escape neither a quote nor a backslash. */
  function UndefinedEscapes(s: string): nat {
    if s == "" || s[0] == '"' then 0
    else if s[0] != '\\' then UndefinedEscapes(s[1..])
    else if |s| == 1 then 0
    else (if Special(s[1]) then 0 else 1) + UndefinedEscapes(s[2..])
  }

  /** Both readings end at the same place; the lexer's keeps one more character for each of those. */
  lemma {:induction false} EscapesCompare(s: string)
    ensures QuotedString(s).Done? <==> StandardString(s).Done?
    ensures QuotedString(s).Done? ==>
              && QuotedString(s).rest == StandardString(s).rest
              && |QuotedString(s).value| == |StandardString(s).value| + UndefinedEscapes(s)
              && (UndefinedEscapes(s) == 0 ==> QuotedString(s).value == StandardString(s).value)
    decreases |s|
  {
    if s != "" && s[0] != '"' {
      if s[0] != '\\' {
        EscapesCompare(s[1..]);
      } else if |s| > 1 {
        EscapesCompare(s[2..]);
      }
    }
  }

  /** The lexer reads a terminated string as the standard does exactly when all its escapes are defined. */
  lemma EscapesAgreeIff(s: string)
    requires QuotedString(s).Done?
    ensures QuotedString(s) == StandardString(s) <==> UndefinedEscapes(s) == 0
  {
    EscapesCompare(s);
  }

  lemma UnknownEscapeKept()
    ensures QuotedString("\\a\"") == Done("\\a", "") && StandardString("\\a\"") == Done("a", "")
  {
    var s := "\\a\"";
    assert s[0] == '\\' && s[1] == 'a' && s[2..] == "\"" && "\""[1..] == "";
    assert QuotedString("\"") == Done("", "") && StandardString("\"") == Done("", "");
    assert [s[0], s[1]] + "" == "\\a" && [s[1]] + "" == "a";
  }

  // ----- Text blocks -----

  predicate IsLine(line: string) {
    All(line, InLine)
  }

  predicate AllInLine(lines: seq<string>) {
    forall i :: 0 <= i < |lines| ==> IsLine(lines[i])
  }

  /** Lines as they stand in the source, none of them the terminating one. */
  predicate ValidLines(raws: seq<string>) {
    forall i :: 0 <= i < |raws| ==> IsLine(raws[i]) && StripCr(raws[i]) != "."
  }

  predicate IsDot(dot: string) {
    dot == "." || dot == ".\r"
  }

  function RawText(raws: seq<string>): string {
    if raws == [] then "" else raws[0] + ("\n" + RawText(raws[1..]))
  }

  /** What a line says: without its carriage return and its stuffed dot. */
  function Bare(raw: string): string {
    Unstuff(StripCr(raw))
  }

  /** In words: one CR at the end goes, and of two dots at the start one. */
  lemma BareIs(line: string)
    requires line == "" || line[|line| - 1] != '\r'
    ensures Bare(line + "\r") == Bare(line)
    ensures !(|line| >= 2 && line[0] == '.' && line[1] == '.') ==> Bare(line) == line
    ensures |line| >= 2 && line[0] == '.' && line[1] == '.' ==> "." + Bare(line) == line
  {
    assert (line + "\r")[..|line|] == line;
  }

  function Bares(raws: seq<string>): (lines: seq<string>)
    ensures |lines| == |raws|
  {
    if raws == [] then [] else [Bare(raws[0])] + Bares(raws[1..])
  }

  /** Lines, each after a newline. */
  function Glue(lines: seq<string>): string {
    if lines == [] then "" else "\n" + (lines[0] + Glue(lines[1..]))
  }

  /** The lines joined, from the first that is not empty. */
  function Joined(lines: seq<string>): string {
    if lines == [] then ""
    else if lines[0] == "" then Joined(lines[1..])
    else lines[0] + Glue(lines[1..])
  }

  /** The text the lexer has after `lines`, having collected `content` before. */
  function Collected(lines: seq<string>, content: string): string {
    if content == "" then Joined(lines) else content + Glue(lines)
  }

  lemma Assoc(a: string, b: string, c: string)
    ensures a + b + c == a + (b + c)
  {}

  lemma CollectStep(line: string, lines: seq<string>, content: string)
    ensures Collected([line] + lines, content) == Collected(lines, AddLine(content, line))
  {
    assert ([line] + lines)[1..] == lines;
    if content != "" {
      Assoc(content, "\n", line + Glue(lines));
      Assoc(content + "\n", line, Glue(lines));
    }
  }

  lemma FirstLineOf(raw: string, tail: string)
    requires IsLine(raw)
    ensures FirstLine(raw + ("\n" + tail)) == raw && AfterLine(raw + ("\n" + tail)) == tail
    ensures FirstLine(raw) == raw && AfterLine(raw) == ""
  {
    SpanOf(raw, "\n" + tail, InLine);
    PrefixOf(raw, "\n" + tail);
    assert (raw + ("\n" + tail))[|raw| + 1..] == tail;
    assert raw + "" == raw;
    SpanOf(raw, "", InLine);
    assert raw[..|raw|] == raw;
  }

  /** One line of a text block. */
  lemma TextLine(raw: string, tail: string, content: string)
    requires IsLine(raw) && StripCr(raw) != "."
    ensures TextLines(raw + ("\n" + tail), content) == TextLines(tail, AddLine(content, Bare(raw)))
  {
    FirstLineOf(raw, tail);
  }

  lemma StripCrIsDot(line: string)
    ensures StripCr(line) == "." <==> IsDot(line)
  {
    if StripCr(line) == "." && line != "." {
      assert line == line[..|line| - 1] + [line[|line| - 1]];
    }
    assert ".\r"[..1] == ".";
  }

  lemma TextEnd(dot: string, rest: string, content: string)
    requires IsDot(dot)
    ensures TextLines(dot + ("\n" + rest), content) == Done(content, rest)
    ensures TextLines(dot, content) == Done(content, "")
  {
    StripCrIsDot(dot);
    FirstLineOf(dot, rest);
  }

  /** The end of a text block: the terminating line, with a newline unless it ends the source. */
  function TextTail(dot: string, eol: bool, rest: string): string {
    if eol then dot + ("\n" + rest) else dot
  }

  lemma RawCons(raw: string, raws: seq<string>, end: string)
    ensures RawText([raw] + raws) + end == raw + ("\n" + (RawText(raws) + end))
  {
    assert ([raw] + raws)[1..] == raws;
    Assoc(raw, "\n" + RawText(raws), end);
    Assoc("\n", RawText(raws), end);
  }

  /** A text block gives its lines joined. */
  lemma {:induction false} TextCollects(raws: seq<string>, dot: string, eol: bool, rest: string, content: string)
    requires ValidLines(raws) && IsDot(dot) && (eol || rest == "")
    ensures TextLines(RawText(raws) + TextTail(dot, eol, rest), content) == Done(Collected(Bares(raws), content), rest)
    decreases raws
  {
    var end := TextTail(dot, eol, rest);
    if raws == [] {
      assert RawText(raws) + end == end;
      TextEnd(dot, rest, content);
      assert content + "" == content;
    } else {
      var raw, more := raws[0], raws[1..];
      assert raws == [raw] + more;
      RawCons(raw, more, end);
      TextLine(raw, RawText(more) + end, content);
      TextCollects(more, dot, eol, rest, AddLine(content, Bare(raw)));
      CollectStep(Bare(raw), Bares(more), content);
    }
  }

  lemma CutString(s: string, n: nat)
    requires n <= |s|
    ensures if n < |s| then s == s[..n] + ([s[n]] + s[n + 1..]) else s[..n] == s
  {}

  /** The first line of a text, its newline if it has one, and what follows. */
  lemma CutAtNewline(s: string)
    ensures var n := Span(s, InLine);
            IsLine(s[..n]) && if n < |s| then s == s[..n] + ("\n" + s[n + 1..]) else s[..n] == s
  {
    SpanIs(s, InLine);
    CutString(s, Span(s, InLine));
  }

  /** A text is its first line, or goes on after a newline. */
  lemma FirstLineCut(s: string) returns (more: bool)
    ensures IsLine(FirstLine(s))
    ensures if more then s == FirstLine(s) + ("\n" + AfterLine(s)) else s == FirstLine(s) && AfterLine(s) == ""
  {
    CutAtNewline(s);
    more := Span(s, InLine) < |s|;
  }

  /** And only such blocks are read. */
  lemma {:induction false} TextParses(s: string, content: string)
    returns (raws: seq<string>, dot: string, eol: bool)
    requires TextLines(s, content).Done?
    ensures ValidLines(raws) && IsDot(dot) && (eol || TextLines(s, content).rest == "")
    ensures s == RawText(raws) + TextTail(dot, eol, TextLines(s, content).rest)
    ensures TextLines(s, content).value == Collected(Bares(raws), content)
    decreases |s|
  {
    var raw := FirstLine(s);
    var goesOn := FirstLineCut(s);
    StripCrIsDot(raw);
    if IsDot(raw) {
      raws, dot, eol := [], raw, goesOn;
      assert content + "" == content;
      assert "" + s == s;
    } else {
      var more;
      more, dot, eol := TextParses(AfterLine(s), AddLine(content, Bare(raw)));
      raws := [raw] + more;
      RawCons(raw, more, TextTail(dot, eol, TextLines(s, content).rest));
      CollectStep(Bare(raw), Bares(more), content);
      assert raws[1..] == more;
    }
  }

  /** The header line of a text block, after its colon. */
  function Eol(crlf: bool): string {
    if crlf then "\r\n" else "\n"
  }

  lemma TextHeader(crlf: bool, body: string)
    ensures TextBlock(Eol(crlf) + body) == TextLines(body, "")
  {
    var src := Eol(crlf) + body;
    if crlf {
      assert src[1..] == "\n" + body;
      assert ("\n" + body)[1..] == body;
    } else {
      assert src[1..] == body;
    }
  }

  lemma TwoChars(s: string)
    requires |s| >= 2
    ensures s == [s[0], s[1]] + s[1..][1..] && s[1..][0] == s[1]
  {}

  lemma HeaderParses(s: string) returns (crlf: bool, body: string)
    requires TextBlock(s).Done?
    ensures s == Eol(crlf) + body && TextBlock(s) == TextLines(body, "")
  {
    crlf := s[0] == '\r';
    if crlf {
      body := s[1..][1..];
      TwoChars(s);
    } else {
      body := s[1..];
      assert s == ['\n'] + body;
    }
  }

  // ----- Which strings a text block can carry -----

  function Stuff(line: string): string {
    if line != "" && line[0] == '.' then "." + line else line
  }

  /** The pieces of `s` between newlines. */
  function SplitLines(s: string): (lines: seq<string>)
    ensures lines != [] && AllInLine(lines)
    decreases |s|
  {
    var n := Span(s, InLine);
    SpanIs(s, InLine);
    [s[..n]] + if n < |s| then SplitLines(s[n + 1..]) else []
  }

  /** The line as it is written, before its newline. */
  function Wired(line: string, crlf: bool): string {
    Stuff(line) + if crlf then "\r" else ""
  }

  function Wires(lines: seq<string>, crlf: bool): seq<string> {
    if lines == [] then [] else [Wired(lines[0], crlf)] + Wires(lines[1..], crlf)
  }

  /** `s` as a text block: its lines, dot-stuffed, and the terminating line. */
  function StuffedLines(s: string, crlf: bool, rest: string): string {
    RawText(Wires(SplitLines(s), crlf)) + TextTail(if crlf then ".\r" else ".", true, rest)
  }

  /** The carriage return at `i` ends a line of `s`. */
  predicate CrEndsLine(s: string, i: nat)
    requires i < |s|
  {
    s[i] == '\r' && (i + 1 < |s| ==> s[i + 1] == '\n')
  }

  predicate NoLineEndsInCr(s: string) {
    forall i :: 0 <= i < |s| ==> !CrEndsLine(s, i)
  }

  /** The strings a `text:` block can carry. */
  predicate FitsText(s: string, crlf: bool) {
    (s == "" || s[0] != '\n') && (crlf || NoLineEndsInCr(s))
  }

  /** What is left of a line once the lexer has stripped the carriage return before its newline. */
  function Kept(line: string, crlf: bool): string {
    if crlf then line else StripCr(line)
  }

  function Kepts(lines: seq<string>, crlf: bool): seq<string> {
    if lines == [] then [] else [Kept(lines[0], crlf)] + Kepts(lines[1..], crlf)
  }

  lemma StripAdded(line: string)
    ensures StripCr(line + "\r") == line
  {
    assert (line + "\r")[..|line|] == line;
  }

  lemma StripStuffed(line: string)
    ensures StripCr(Stuff(line)) == Stuff(StripCr(line))
  {
    if line != "" && line[0] == '.' && line[|line| - 1] == '\r' {
      assert ("." + line)[..|line|] == "." + line[..|line| - 1];
    }
  }

  lemma StuffedIsNoTerminator(line: string)
    ensures Stuff(line) != "." && Unstuff(Stuff(line)) == line
  {}

  lemma WiredReads(line: string, crlf: bool)
    requires IsLine(line)
    ensures IsLine(Wired(line, crlf)) && StripCr(Wired(line, crlf)) != "." && Bare(Wired(line, crlf)) == Kept(line, crlf)
  {
    StuffedIsNoTerminator(Kept(line, crlf));
    if crlf {
      StripAdded(Stuff(line));
    } else {
      assert Stuff(line) + "" == Stuff(line);
      StripStuffed(line);
    }
  }

  lemma {:induction false} WiresRead(lines: seq<string>, crlf: bool)
    requires AllInLine(lines)
    ensures ValidLines(Wires(lines, crlf)) && Bares(Wires(lines, crlf)) == Kepts(lines, crlf)
  {
    if lines != [] {
      WiredReads(lines[0], crlf);
      WiresRead(lines[1..], crlf);
      assert Wires(lines, crlf)[1..] == Wires(lines[1..], crlf);
    }
  }

  lemma KeptLength(line: string, crlf: bool)
    ensures |Kept(line, crlf)| <= |line|
    ensures |Kept(line, crlf)| == |line| <==> Kept(line, crlf) == line
    ensures Kept(line, crlf) == line <==> crlf || line == "" || line[|line| - 1] != '\r'
  {}

  lemma GlueCons(line: string, lines: seq<string>)
    ensures Glue([line] + lines) == "\n" + (line + Glue(lines))
    ensures Joined([line] + lines) == if line == "" then Joined(lines) else line + Glue(lines)
  {
    assert ([line] + lines)[1..] == lines;
  }

  lemma {:induction false} KeptsLength(lines: seq<string>, crlf: bool)
    ensures |Glue(Kepts(lines, crlf))| <= |Glue(lines)|
    ensures |Glue(Kepts(lines, crlf))| == |Glue(lines)| <==> Kepts(lines, crlf) == lines
  {
    if lines != [] {
      var line, more := lines[0], lines[1..];
      assert lines == [line] + more;
      KeptsLength(more, crlf);
      KeptLength(line, crlf);
      GlueCons(Kept(line, crlf), Kepts(more, crlf));
      assert Kepts(lines, crlf) == lines <==> Kept(line, crlf) == line && Kepts(more, crlf) == more by {
        ConsEqual(Kept(line, crlf), line, Kepts(more, crlf), more);
      }
    }
  }

  lemma ConsEqual(a: string, b: string, tailA: seq<string>, tailB: seq<string>)
    ensures [a] + tailA == [b] + tailB <==> a == b && tailA == tailB
  {
    if [a] + tailA == [b] + tailB {
      assert ([a] + tailA)[0] == a && ([a] + tailA)[1..] == tailA;
      assert ([b] + tailB)[0] == b && ([b] + tailB)[1..] == tailB;
    }
  }

  /** What comes back from lines is shorter than the lines with a newline before each. */
  lemma {:induction false} JoinedIsShorter(lines: seq<string>, crlf: bool)
    requires lines != []
    ensures |Joined(Kepts(lines, crlf))| < |Glue(lines)|
    decreases lines
  {
    var line, more := lines[0], lines[1..];
    GlueCons(Kept(line, crlf), Kepts(more, crlf));
    KeptLength(line, crlf);
    KeptsLength(more, crlf);
    if more != [] { JoinedIsShorter(more, crlf); }
  }

  lemma LinesReadBackIff(line: string, lines: seq<string>, crlf: bool)
    ensures Joined([Kept(line, crlf)] + Kepts(lines, crlf)) == line + Glue(lines)
       <==> (line != "" || lines == []) && Kept(line, crlf) == line && Kepts(lines, crlf) == lines
  {
    GlueCons(Kept(line, crlf), Kepts(lines, crlf));
    KeptLength(line, crlf);
    KeptsLength(lines, crlf);
    if lines != [] { JoinedIsShorter(lines, crlf); }
  }

  lemma {:induction false} SplitLinesJoin(s: string)
    ensures var lines := SplitLines(s); s == lines[0] + Glue(lines[1..])
    decreases |s|
  {
    var n := Span(s, InLine);
    var lines := SplitLines(s);
    CutAtNewline(s);
    if n < |s| {
      var more := SplitLines(s[n + 1..]);
      SplitLinesJoin(s[n + 1..]);
      assert lines[1..] == more && more == [more[0]] + more[1..];
      GlueCons(more[0], more[1..]);
    } else {
      assert lines[1..] == [] && s + "" == s;
    }
  }

  lemma CrInRest(s: string, n: nat, i: nat)
    requires n < |s| && i < |s| - n - 1
    ensures CrEndsLine(s[n + 1..], i) == CrEndsLine(s, n + 1 + i)
  {}

  lemma CrInLine(s: string, n: nat, i: nat)
    requires i < n <= |s| && IsLine(s[..n]) && (n < |s| ==> s[n] == '\n')
    ensures CrEndsLine(s, i) <==> i == n - 1 && s[i] == '\r'
  {
    if i < n - 1 { assert InLine(s[..n][i + 1]); }
  }

  /** Line by line. */
  lemma NoLineEndsInCrSplit(s: string)
    ensures var n := Span(s, InLine);
            NoLineEndsInCr(s) <==> (n == 0 || s[n - 1] != '\r') && (n < |s| ==> NoLineEndsInCr(s[n + 1..]))
  {
    var n := Span(s, InLine);
    SpanIs(s, InLine);
    forall i | 0 <= i < n ensures CrEndsLine(s, i) <==> i == n - 1 && s[i] == '\r' {
      CrInLine(s, n, i);
    }
    if n < |s| {
      var rest := s[n + 1..];
      forall i | 0 <= i < |rest| ensures CrEndsLine(rest, i) == CrEndsLine(s, n + 1 + i) {
        CrInRest(s, n, i);
      }
      if NoLineEndsInCr(rest) {
        forall i | n < i < |s| ensures !CrEndsLine(s, i) {
          assert !CrEndsLine(rest, i - n - 1);
        }
      }
      assert !CrEndsLine(s, n);
    }
    assert n > 0 ==> (CrEndsLine(s, n - 1) <==> s[n - 1] == '\r');
  }

  lemma KeptsCons(line: string, lines: seq<string>, crlf: bool)
    ensures Kepts([line] + lines, crlf) == [line] + lines <==> Kept(line, crlf) == line && Kepts(lines, crlf) == lines
  {
    assert ([line] + lines)[1..] == lines;
    ConsEqual(Kept(line, crlf), line, Kepts(lines, crlf), lines);
  }

  lemma LastOfLine(s: string, n: nat, crlf: bool)
    requires n <= |s|
    ensures Kept(s[..n], crlf) == s[..n] <==> crlf || n == 0 || s[n - 1] != '\r'
  {
    KeptLength(s[..n], crlf);
  }

  lemma {:induction false} KeptsIff(s: string, crlf: bool)
    ensures Kepts(SplitLines(s), crlf) == SplitLines(s) <==> crlf || NoLineEndsInCr(s)
    decreases |s|
  {
    var n := Span(s, InLine);
    var more := if n < |s| then SplitLines(s[n + 1..]) else [];
    if n < |s| { KeptsIff(s[n + 1..], crlf); }
    KeptsCons(s[..n], more, crlf);
    LastOfLine(s, n, crlf);
    NoLineEndsInCrSplit(s);
  }

  lemma FirstLineEmpty(s: string)
    ensures var lines := SplitLines(s); lines[0] != "" || lines[1..] == [] <==> s == "" || s[0] != '\n'
  {
    var n := Span(s, InLine);
    assert n < |s| ==> SplitLines(s)[1..] == SplitLines(s[n + 1..]);
  }

  lemma JoinedIff(s: string, crlf: bool)
    ensures Joined(Kepts(SplitLines(s), crlf)) == s <==> FitsText(s, crlf)
  {
    var lines := SplitLines(s);
    var line, more := lines[0], lines[1..];
    assert lines == [line] + more;
    SplitLinesJoin(s);
    LinesReadBackIff(line, more, crlf);
    ConsEqual(Kept(line, crlf), line, Kepts(more, crlf), more);
    KeptsIff(s, crlf);
    FirstLineEmpty(s);
  }

  /**
   A dot-stuffed `text:` block reads back as the string it was written from exactly when the
   string does not start with a newline and, with bare newlines, no line of it ends in CR.
   */
  lemma TextReadsBackIff(s: string, crlf: bool, rest: string)
    ensures TextBlock(Eol(crlf) + StuffedLines(s, crlf, rest)) == Done(s, rest) <==> FitsText(s, crlf)
  {
    TextHeader(crlf, StuffedLines(s, crlf, rest));
    WiresRead(SplitLines(s), crlf);
    TextCollects(Wires(SplitLines(s), crlf), if crlf then ".\r" else ".", true, rest, "");
    JoinedIff(s, crlf);
  }
}
