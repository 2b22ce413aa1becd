/** The tokenizer as written: loops that consume characters and push onto strings and token lists. */
module SieveTokenizer {
  import opened Prelude
  import opened SieveGrammar
  import opened Decimals
  import opened SieveLexical

  lemma Slice(src: string, start: nat, end: nat)
    requires start <= end <= |src|
    ensures src[start..][..end - start] == src[start..end] && src[start..][end - start..] == src[end..]
    ensures end < |src| ==> src[start..][end - start] == src[end] && src[start..][end - start + 1..] == src[end + 1..]
  {}

  lemma SpanStep(src: string, end: nat, p: char -> bool)
    requires end <= |src|
    ensures Span(src[end..], p) == if end < |src| && p(src[end]) then 1 + Span(src[end + 1..], p) else 0
  {
    if end < |src| { Drop(src, end); }
  }

  method ScanWhile(src: string, start: nat, p: char -> bool) returns (taken: string, end: nat)
    requires start <= |src|
    ensures end == start + Span(src[start..], p) && end <= |src|
    ensures taken == src[start..end] == src[start..][..end - start] && src[end..] == src[start..][end - start..]
  {
    taken, end := "", start;
    while end < |src| && p(src[end])
      invariant start <= end <= |src| && |taken| == end - start
      invariant forall i :: 0 <= i < |taken| ==> taken[i] == src[start + i]
      invariant Span(src[start..], p) == end - start + Span(src[end..], p)
    {
      SpanStep(src, end, p);
      taken, end := taken + [src[end]], end + 1;
    }
    SpanStep(src, end, p);
    Slice(src, start, end);
  }

  method SkipLineComment(src: string, pos: nat) returns (end: nat)
    requires pos < |src|
    ensures end <= |src| && src[end..] == AfterLineComment(src[pos..])
  {
    Drop(src, pos);
    var skipped;
    skipped, end := ScanWhile(src, pos + 1, InLine);
  }

  method SkipBlockComment(src: string, start: nat) returns (r: Option<((), nat)>)
    requires start <= |src|
    ensures Returns(r, BlockComment(src[start..]), src)
  {
    var pos := start;
    while pos < |src|
      invariant start <= pos <= |src|
      invariant BlockComment(src[start..]) == BlockComment(src[pos..])
    {
      Drop(src, pos);
      if src[pos] == '*' {
        pos := pos + 1;
        if pos < |src| && src[pos] == '/' {
          return Some(((), pos + 1));
        }
      } else {
        pos := pos + 1;
      }
    }
    r := None;
  }

  /** Having collected `s`, the string from `start` goes on at `pos`. */
  ghost predicate InString(src: string, start: nat, s: string, pos: nat) {
    start <= pos <= |src| && QuotedString(src[start..]) == Prepend(s, QuotedString(src[pos..]))
  }

  lemma PlainStep(src: string, start: nat, s: string, pos: nat)
    requires InString(src, start, s, pos) && pos < |src| && src[pos] != '"' && src[pos] != '\\'
    ensures InString(src, start, s + [src[pos]], pos + 1)
  {
    Drop(src, pos);
    PrependPrepend(s, [src[pos]], QuotedString(src[pos + 1..]));
  }

  lemma EscapeStep(src: string, start: nat, s: string, pos: nat)
    requires InString(src, start, s, pos) && pos + 1 < |src| && src[pos] == '\\'
    ensures var c := src[pos + 1]; InString(src, start, s + (if c == '"' || c == '\\' then [c] else ['\\', c]), pos + 2)
  {
    Drop(src, pos);
    var c := src[pos + 1];
    PrependPrepend(s, if c == '"' || c == '\\' then [c] else ['\\', c], QuotedString(src[pos + 2..]));
  }

  /** The string ends at its closing quote, or the source ends too early. */
  lemma StringEnds(src: string, start: nat, s: string, pos: nat)
    requires InString(src, start, s, pos)
    requires pos == |src| || src[pos] == '"' || (src[pos] == '\\' && pos + 1 == |src|)
    ensures Returns(if pos < |src| && src[pos] == '"' then Some((s, pos + 1)) else None, QuotedString(src[start..]), src)
  {
    if pos < |src| { Drop(src, pos); }
  }

  method ReadQuoted(src: string, start: nat) returns (r: Option<(string, nat)>)
    requires start <= |src|
    ensures Returns(r, QuotedString(src[start..]), src)
  {
    var s, pos := "", start;
    while pos < |src|
      invariant InString(src, start, s, pos)
    {
      if src[pos] == '"' {
        StringEnds(src, start, s, pos);
        return Some((s, pos + 1));
      } else if src[pos] == '\\' {
        if pos + 1 == |src| {
          StringEnds(src, start, s, pos);
          return None;
        }
        EscapeStep(src, start, s, pos);
        var c := src[pos + 1];
        s, pos := s + (if c == '"' || c == '\\' then [c] else ['\\', c]), pos + 2;
      } else {
        PlainStep(src, start, s, pos);
        s, pos := s + [src[pos]], pos + 1;
      }
    }
    StringEnds(src, start, s, pos);
    r := None;
  }

  /** What one line of a text block does to the text collected so far. */
  lemma LineStep(src: string, pos: nat, end: nat, content: string)
    requires pos < |src| && end == pos + Span(src[pos..], InLine)
    ensures var line := StripCr(src[pos..end]);
            var next := if end < |src| then end + 1 else end;
            TextLines(src[pos..], content)
            == if line == "." then Done(content, src[next..]) else TextLines(src[next..], AddLine(content, Unstuff(line)))
  {
    var s := src[pos..];
    assert s[..end - pos] == src[pos..end];
    assert if end < |src| then s[end - pos + 1..] == src[end + 1..] else src[end..] == "";
  }

  method ReadLines(src: string, start: nat) returns (r: Option<(string, nat)>)
    requires start <= |src|
    ensures Returns(r, TextLines(src[start..], ""), src)
  {
    var content, pos := "", start;
    while pos < |src|
      invariant start <= pos <= |src|
      invariant TextLines(src[start..], "") == TextLines(src[pos..], content)
    {
      var lineBuf, end := ScanWhile(src, pos, InLine);
      LineStep(src, pos, end, content);
      var next := if end < |src| then end + 1 else end;
      var line := StripCr(lineBuf);
      if line == "." {
        return Some((content, next));
      }
      content := if content == "" then Unstuff(line) else content + "\n" + Unstuff(line);
      pos := next;
    }
    r := None;
  }

  method ReadTextBlock(src: string, start: nat) returns (r: Option<(string, nat)>)
    requires start <= |src|
    ensures Returns(r, TextBlock(src[start..]), src)
  {
    var pos := start;
    if pos < |src| {
      Drop(src, pos);
      if src[pos] == '\r' {
        pos := pos + 1;
      }
    }
    if pos == |src| || src[pos] != '\n' {
      return None;
    }
    Drop(src, pos);
    r := ReadLines(src, pos + 1);
  }

  method ReadNumber(src: string, start: nat) returns (r: Option<(u64, nat)>)
    requires start < |src| && IsDigit(src[start])
    ensures Returns(r, NumberLit(src[start..]), src)
  {
    var digits, pos := ScanWhile(src, start, IsDigit);
    Slice(src, start, pos);
    SpanIs(src[start..], IsDigit);
    var base := Numeral(digits);
    if base > U64_MAX { return None; }
    if pos < |src| && IsUnit(src[pos]) {
      var value := Scaled(base, src[pos]);
      if value > U64_MAX { return None; }
      return Some((value, pos + 1));
    }
    r := Some((base, pos));
  }

  method ReadWord(src: string, start: nat) returns (r: Option<(Token, nat)>)
    requires start < |src| && IsIdentStart(src[start])
    ensures Returns(r, WordOrText(src[start..]), src)
  {
    var word, pos := ScanWhile(src, start, IsIdent);
    Slice(src, start, pos);
    if word == "text" && pos < |src| && src[pos] == ':' {
      var text := ReadTextBlock(src, pos + 1);
      r := if text.None? then None else Some((StringLit(text.value.0), text.value.1));
    } else {
      r := Some((Token.Word(word), pos));
    }
  }

  method ReadTag(src: string, pos: nat) returns (r: Option<(Token, nat)>)
    requires pos < |src|
    ensures Returns(r, TagLit(src[pos..]), src)
  {
    Drop(src, pos);
    if pos + 1 == |src| || !IsIdentStart(src[pos + 1]) { return None; }
    var ident, end := ScanWhile(src, pos + 1, IsIdent);
    r := Some((Token.Tag(ident), end));
  }

  method ReadToken(src: string, pos: nat) returns (r: Option<(Token, nat)>)
    requires pos < |src|
    ensures Returns(r, LexToken(src[pos..]), src)
  {
    Drop(src, pos);
    var c := src[pos];
    if Punctuation(c).Some? {
      r := Some((Punctuation(c).value, pos + 1));
    } else if c == ':' {
      r := ReadTag(src, pos);
    } else if IsDigit(c) {
      var number := ReadNumber(src, pos);
      r := if number.None? then None else Some((Number(number.value.0), number.value.1));
    } else if IsIdentStart(c) {
      r := ReadWord(src, pos);
    } else if c == '"' {
      var text := ReadQuoted(src, pos + 1);
      r := if text.None? then None else Some((StringLit(text.value.0), text.value.1));
    } else {
      r := None;
    }
  }

  /** One round of the main loop. */
  method ReadOne(src: string, pos: nat) returns (r: Option<(Option<Token>, nat)>)
    requires pos < |src|
    ensures Returns(r, LexOne(src[pos..]), src)
  {
    Drop(src, pos);
    var c := src[pos];
    if IsSpace(c) {
      r := Some((None, pos + 1));
    } else if c == '#' {
      var end := SkipLineComment(src, pos);
      r := Some((None, end));
    } else if c == '/' {
      if pos + 1 == |src| || src[pos + 1] != '*' { return None; }
      var skipped := SkipBlockComment(src, pos + 2);
      r := if skipped.None? then None else Some((None, skipped.value.1));
    } else {
      var token := ReadToken(src, pos);
      r := if token.None? then None else Some((Some(token.value.0), token.value.1));
    }
  }

  /** `tokenize` computes the token list the lexical rules define, for every source text. */
  method Tokenize(src: string) returns (r: Option<seq<Token>>)
    ensures r == Tokens(src)
  {
    var tokens: seq<Token> := [];
    var pos := 0;
    assert src[0..] == src && forall ts: seq<Token> :: [] + ts == ts;
    while pos < |src|
      invariant 0 <= pos <= |src|
      invariant match Tokens(src[pos..]) case None => Tokens(src) == None case Some(ts) => Tokens(src) == Some(tokens + ts)
    {
      var next := ReadOne(src, pos);
      if next.None? { return None; }
      if next.value.0.Some? {
        var t := next.value.0.value;
        assert Tokens(src[next.value.1..]).Some? ==>
            tokens + ([t] + Tokens(src[next.value.1..]).value) == (tokens + [t]) + Tokens(src[next.value.1..]).value;
        tokens := tokens + [t];
      }
      pos := next.value.1;
    }
    assert tokens + [] == tokens;
    r := Some(tokens);
  }
}
