/** The characters and lexical rules of crates/sieve-native/src/lexer.rs. */
module SieveLexical {
  import opened Prelude
  import opened SieveGrammar
  import opened Decimals

  predicate IsSpace(c: char) {
    c == ' ' || c == '\t' || c == '\n' || c == '\r' || c == '\U{0C}'
  }

  predicate IsIdentStart(c: char) {
    'a' <= c <= 'z' || 'A' <= c <= 'Z' || c == '_'
  }

  predicate IsIdent(c: char) {
    IsIdentStart(c) || IsDigit(c)
  }

  predicate InLine(c: char) {
    c != '\n'
  }

  predicate IsIdentifier(s: string) {
    s != "" && IsIdentStart(s[0]) && All(s, IsIdent)
  }

  /** How many leading characters of `s` satisfy `p`. */
  function Span(s: string, p: char -> bool): (n: nat)
    ensures n <= |s| && (s != "" && p(s[0]) ==> n > 0)
  {
    if s != "" && p(s[0]) then 1 + Span(s[1..], p) else 0
  }

  predicate All(s: string, p: char -> bool) {
    forall i :: 0 <= i < |s| ==> p(s[i])
  }

  lemma {:induction false} SpanIs(s: string, p: char -> bool)
    ensures var n := Span(s, p); All(s[..n], p) && (n < |s| ==> !p(s[n]))
  {
    if s != "" && p(s[0]) {
      SpanIs(s[1..], p);
      assert s[..Span(s, p)] == [s[0]] + s[1..][..Span(s[1..], p)];
    }
  }

  predicate IsUnit(c: char) {
    c in "KkMmGg"
  }

  /** A number with the size multiplier K, M or G applied. */
  function Scaled(base: nat, unit: char): nat
    requires IsUnit(unit)
  {
    if unit == 'K' || unit == 'k' then base * 0x400
    else if unit == 'M' || unit == 'm' then base * 0x10_0000
    else base * 0x4000_0000
  }

  function Punctuation(c: char): Option<Token> {
    match c
    case '[' => Some(LBracket)
    case ']' => Some(RBracket)
    case '(' => Some(LParen)
    case ')' => Some(RParen)
    case '{' => Some(LBrace)
    case '}' => Some(RBrace)
    case ';' => Some(Semicolon)
    case ',' => Some(Comma)
    case _ => None
  }

  /** After the opening of a block comment: what follows its first closing mark. */
  function BlockComment(s: string): (r: Parse<char, ()>)
    ensures r.Done? ==> |r.rest| < |s|
  {
    if s == "" then Fail
    else if |s| > 1 && s[0] == '*' && s[1] == '/' then Done((), s[2..])
    else BlockComment(s[1..])
  }

  /** After the opening quote. A backslash before anything but a quote or a backslash is kept. */
  function QuotedString(s: string): (r: Parse<char, string>)
    ensures r.Done? ==> |r.rest| < |s|
  {
    if s == "" then Fail
    else if s[0] == '"' then Done("", s[1..])
    else if s[0] != '\\' then Prepend([s[0]], QuotedString(s[1..]))
    else if |s| == 1 then Fail
    else if s[1] == '"' || s[1] == '\\' then Prepend([s[1]], QuotedString(s[2..]))
    else Prepend([s[0], s[1]], QuotedString(s[2..]))
  }

  function StripCr(line: string): string {
    if line != "" && line[|line| - 1] == '\r' then line[..|line| - 1] else line
  }

  function Unstuff(line: string): string {
    if |line| >= 2 && line[0] == '.' && line[1] == '.' then line[1..] else line
  }

  /** Appends a line to the text collected so far; leading empty lines leave no trace. */
  function AddLine(content: string, line: string): string {
    if content == "" then line else content + "\n" + line
  }

  function FirstLine(s: string): string {
    s[..Span(s, InLine)]
  }

  /** What follows the first newline. */
  function AfterLine(s: string): (rest: string)
    ensures s != "" ==> |rest| < |s|
  {
    var n := Span(s, InLine);
    if n < |s| then s[n + 1..] else ""
  }

  /** After the `text:` header: the lines up to one that is a lone dot. */
  function TextLines(s: string, content: string): (r: Parse<char, string>)
    ensures r.Done? ==> |r.rest| < |s|
    decreases |s|
  {
    if s == "" then Fail else
    var line := StripCr(FirstLine(s));
    if line == "." then Done(content, AfterLine(s))
    else TextLines(AfterLine(s), AddLine(content, Unstuff(line)))
  }

  /** After `text:`, whose header line must end at once. */
  function TextBlock(s: string): (r: Parse<char, string>)
    ensures r.Done? ==> |r.rest| < |s|
  {
    var body := if s != "" && s[0] == '\r' then s[1..] else s;
    if body != "" && body[0] == '\n' then TextLines(body[1..], "") else Fail
  }

  function NumberLit(s: string): (r: Parse<char, u64>)
    requires s != "" && IsDigit(s[0])
    ensures r.Done? ==> |r.rest| < |s|
  {
    var n := Span(s, IsDigit);
    SpanIs(s, IsDigit);
    var base := Numeral(s[..n]);
    if base > U64_MAX then Fail
    else if n == |s| || !IsUnit(s[n]) then Done(base, s[n..])
    else if Scaled(base, s[n]) > U64_MAX then Fail
    else Done(Scaled(base, s[n]), s[n + 1..])
  }

  function WordOrText(s: string): (r: Parse<char, Token>)
    requires s != "" && IsIdentStart(s[0])
    ensures r.Done? ==> |r.rest| < |s|
  {
    var n := Span(s, IsIdent);
    if s[..n] == "text" && n < |s| && s[n] == ':' then
      match TextBlock(s[n + 1..]) case Fail => Fail case Done(text, rest) => Done(StringLit(text), rest)
    else Done(Token.Word(s[..n]), s[n..])
  }

  /** A tag's colon must be followed by an identifier. */
  function TagLit(s: string): (r: Parse<char, Token>)
    requires s != ""
    ensures r.Done? ==> |r.rest| < |s|
  {
    if |s| == 1 || !IsIdentStart(s[1]) then Fail
    else var n := Span(s[1..], IsIdent); Done(Token.Tag(s[1..][..n]), s[1..][n..])
  }

  /** A token, from a character that starts neither blanks nor a comment. */
  function LexToken(s: string): (r: Parse<char, Token>)
    requires s != ""
    ensures r.Done? ==> |r.rest| < |s|
  {
    var c := s[0];
    if Punctuation(c).Some? then Done(Punctuation(c).value, s[1..])
    else if c == ':' then TagLit(s)
    else if IsDigit(c) then (match NumberLit(s) case Fail => Fail case Done(n, rest) => Done(Number(n), rest))
    else if IsIdentStart(c) then WordOrText(s)
    else if c == '"' then (match QuotedString(s[1..]) case Fail => Fail case Done(text, rest) => Done(StringLit(text), rest))
    else Fail
  }

  /** What follows a line comment, from its `#`. */
  function AfterLineComment(s: string): (rest: string)
    requires s != ""
    ensures |rest| < |s|
  {
    s[1..][Span(s[1..], InLine)..]
  }

  /** One round of the main loop: a token, or nothing when blanks or a comment were skipped. */
  function LexOne(s: string): (r: Parse<char, Option<Token>>)
    requires s != ""
    ensures r.Done? ==> |r.rest| < |s|
  {
    if IsSpace(s[0]) then Done(None, s[1..])
    else if s[0] == '#' then Done(None, AfterLineComment(s))
    else if s[0] == '/' then
      if |s| == 1 || s[1] != '*' then Fail
      else (match BlockComment(s[2..]) case Fail => Fail case Done(_, rest) => Done(None, rest))
    else (match LexToken(s) case Fail => Fail case Done(t, rest) => Done(Some(t), rest))
  }

  function Push(t: Option<Token>, ts: Option<seq<Token>>): Option<seq<Token>> {
    if ts.None? then None else if t.None? then ts else Some([t.value] + ts.value)
  }

  function Tokens(s: string): Option<seq<Token>>
    decreases |s|
  {
    if s == "" then Some([])
    else match LexOne(s) case Fail => None case Done(t, rest) => Push(t, Tokens(rest))
  }
}
