/**
 Source text as a list of pieces: the lexer accepts exactly the texts that are such lists, and reads
 each as what its pieces mean. Scripts survive being written out.
 */
module SieveLexRoundTrip {
  import opened Prelude
  import opened SieveGrammar
  import opened Decimals
  import opened SieveForms
  import opened SieveLayouts
  import opened SieveFormTheorems
  import opened SieveLexical
  import opened SieveLexTheorems

  // ----- Pieces of source -----

  datatype Piece =
    | Identifier(name: string)
    | TagName(name: string)
    | Digits(digits: string, unit: Option<char>)
    | Quote(chars: seq<Quoted>)
    | Text(crlf: bool, raws: seq<string>, dot: string, eol: bool)
    | Mark(token: Token)
    | Space(c: char)
    | LineComment(text: string)
    | BlockNote(text: string)

  function Suffix(unit: Option<char>): string {
    match unit case None => "" case Some(c) => [c]
  }

  // The characters of each class, by their codes.

  predicate NameStart(c: char) {
    65 <= c as int <= 90 || 97 <= c as int <= 122 || c as int == 95
  }

  predicate NameChar(c: char) {
    NameStart(c) || 48 <= c as int <= 57
  }

  predicate IsName(s: string) {
    s != "" && NameStart(s[0]) && forall i :: 0 <= i < |s| ==> NameChar(s[i])
  }

  predicate IsBlank(c: char) {
    c as int == 32 || c as int == 9 || c as int == 10 || c as int == 12 || c as int == 13
  }

  predicate IsDecimal(s: string) {
    s != "" && forall i :: 0 <= i < |s| ==> 48 <= s[i] as int <= 57
  }

  /** K, M and G, in either case, stand for powers of 1024. */
  function UnitPower(c: char): nat {
    if c == 'K' || c == 'k' then 1 else if c == 'M' || c == 'm' then 2 else if c == 'G' || c == 'g' then 3 else 0
  }

  function Power1024(n: nat): nat {
    if n == 0 then 1 else 1024 * Power1024(n - 1)
  }

  lemma NameIff(s: string)
    ensures IsName(s) <==> IsIdentifier(s)
  {
    forall c: char ensures NameStart(c) <==> IsIdentStart(c) {}
    forall c: char ensures NameChar(c) <==> IsIdent(c) {}
    if IsName(s) { forall i | 0 <= i < |s| ensures IsIdent(s[i]) { assert NameChar(s[i]); } }
    if IsIdentifier(s) { forall i | 0 <= i < |s| ensures NameChar(s[i]) { assert IsIdent(s[i]); } }
  }

  lemma BlankIff(c: char)
    ensures IsBlank(c) <==> IsSpace(c)
  {}

  lemma UnitIff(c: char)
    ensures UnitPower(c) > 0 <==> IsUnit(c)
  {}

  lemma ScaledIs(n: nat, c: char)
    requires IsUnit(c)
    ensures Scaled(n, c) == n * Power1024(UnitPower(c))
  {
    assert Power1024(1) == 1024 && Power1024(2) == 1024 * 1024 && Power1024(3) == 1024 * 1024 * 1024;
  }

  function NumberValue(digits: string, unit: Option<char>): nat
    requires IsDecimal(digits)
  {
    match unit case None => Numeral(digits) case Some(c) => Numeral(digits) * Power1024(UnitPower(c))
  }

  function MarkOf(t: Token): (c: char)
    requires IsMark(t)
    ensures Punctuation(c) == Some(t)
  {
    match t
    case LBracket => '['
    case RBracket => ']'
    case LParen => '('
    case RParen => ')'
    case LBrace => '{'
    case RBrace => '}'
    case Semicolon => ';'
    case Comma => ','
  }

  predicate IsMark(t: Token) {
    !t.Word? && !t.Tag? && !t.StringLit? && !t.Number?
  }

  predicate NoCloser(text: string) {
    forall i :: 0 <= i < |text| - 1 ==> !(text[i] == '*' && text[i + 1] == '/')
  }

  predicate Valid(p: Piece) {
    match p
    case Identifier(name) => IsName(name)
    case TagName(name) => IsName(name)
    case Digits(digits, unit) => IsDecimal(digits) && (unit.Some? ==> UnitPower(unit.value) > 0) && NumberValue(digits, unit) < 0x1_0000_0000_0000_0000
    case Quote(chars) => ValidQuote(chars)
    case Text(_, raws, dot, _) => ValidLines(raws) && IsDot(dot)
    case Mark(t) => IsMark(t)
    case Space(c) => IsBlank(c)
    case LineComment(text) => '\n' !in text
    case BlockNote(text) => NoCloser(text)
  }

  function Spelling(p: Piece): string {
    match p
    case Identifier(name) => name
    case TagName(name) => ":" + name
    case Digits(digits, unit) => digits + Suffix(unit)
    case Quote(chars) => "\"" + (QuoteText(chars) + "\"")
    case Text(crlf, raws, dot, eol) => "text:" + (Eol(crlf) + (RawText(raws) + TextTail(dot, eol, "")))
    case Mark(t) => if IsMark(t) then [MarkOf(t)] else []
    case Space(c) => [c]
    case LineComment(text) => "#" + text
    case BlockNote(text) => "/*" + (text + "*/")
  }

  /** The token a piece stands for; blanks and comments stand for none. */
  function Meaning(p: Piece): Option<Token>
    requires Valid(p)
  {
    match p
    case Identifier(name) => Some(Token.Word(name))
    case TagName(name) => Some(Token.Tag(name))
    case Digits(digits, unit) => Some(Number(NumberValue(digits, unit)))
    case Quote(chars) => Some(StringLit(QuoteValue(chars)))
    case Text(_, raws, _, _) => Some(StringLit(Joined(Bares(raws))))
    case Mark(t) => Some(t)
    case Space(_) => None
    case LineComment(_) => None
    case BlockNote(_) => None
  }

  /** `rest` cannot be taken for a continuation of `p`. */
  predicate Ends(p: Piece, rest: string) {
    rest == "" ||
    match p
    case Identifier(name) => !NameChar(rest[0]) && !(name == "text" && rest[0] == ':')
    case TagName(_) => !NameChar(rest[0])
    case Digits(_, None) => !(48 <= rest[0] as int <= 57) && UnitPower(rest[0]) == 0
    case Text(_, _, _, eol) => eol
    case LineComment(_) => rest[0] == '\n'
    case _ => true
  }

  /** The lexer finds what `p` means and stops where its spelling ends. */
  predicate Lexes(p: Piece, rest: string)
    requires Valid(p)
  {
    var s := Spelling(p) + rest;
    s != "" && LexOne(s) == Done(Meaning(p), rest)
  }

  // ----- Every piece is read -----

  /** Identifiers, including one spelled `text` that no colon follows. */
  lemma IdentifierLexes(name: string, rest: string)
    requires Valid(Identifier(name)) && Ends(Identifier(name), rest)
    ensures Lexes(Identifier(name), rest)
  {
    NameIff(name);
    SpanOf(name, rest, IsIdent);
    PrefixOf(name, rest);
    assert (name + rest)[0] == name[0];
    assert |name| < |name + rest| ==> (name + rest)[|name|] == rest[0];
  }

  lemma TagLexes(name: string, rest: string)
    requires Valid(TagName(name)) && Ends(TagName(name), rest)
    ensures Lexes(TagName(name), rest)
  {
    NameIff(name);
    var s := ":" + name + rest;
    assert s[1..] == name + rest;
    SpanOf(name, rest, IsIdent);
    PrefixOf(name, rest);
    assert s[0] == ':' && s[1] == name[0];
    assert TagLit(s) == Done(Token.Tag(name), rest);
    assert LexToken(s) == TagLit(s);
  }

  /** A number whose digits end at `n`. */
  lemma NumberEnds(s: string, n: nat)
    requires s != "" && IsDigit(s[0]) && n == Span(s, IsDigit) && AllDigits(s[..n])
    ensures n > 0 && (n == |s| || !IsUnit(s[n])) && Numeral(s[..n]) <= U64_MAX ==> NumberLit(s) == Done(Numeral(s[..n]), s[n..])
    ensures n < |s| && IsUnit(s[n]) && Scaled(Numeral(s[..n]), s[n]) <= U64_MAX ==>
              NumberLit(s) == Done(Scaled(Numeral(s[..n]), s[n]), s[n + 1..])
  {}

  lemma NumberReads(digits: string, unit: Option<char>, rest: string)
    requires Valid(Digits(digits, unit)) && Ends(Digits(digits, unit), rest)
    ensures var s := digits + (Suffix(unit) + rest);
            s != "" && IsDigit(s[0]) && NumberLit(s) == Done(NumberValue(digits, unit), rest)
  {
    var tail := Suffix(unit) + rest;
    var s := digits + tail;
    if unit.Some? {
      UnitIff(unit.value);
      ScaledIs(Numeral(digits), unit.value);
    } else if rest != "" {
      UnitIff(rest[0]);
    }
    assert tail == "" || !IsDigit(tail[0]) by { assert unit.None? ==> tail == rest; }
    SpanOf(digits, tail, IsDigit);
    PrefixOf(digits, tail);
    assert s[0] == digits[0] && IsDigit(digits[0]);
    NumberEnds(s, |digits|);
    if unit.None? {
      assert tail == rest;
    } else {
      assert s[|digits|] == unit.value && s[|digits| + 1..] == tail[1..] == rest;
    }
  }

  /** What starts a number starts nothing else. */
  lemma DigitStartsOnly(c: char)
    requires IsDigit(c)
    ensures !IsSpace(c) && c != '#' && c != '/' && c != ':' && Punctuation(c).None?
  {}

  lemma NumberLexes(s: string)
    requires s != "" && IsDigit(s[0]) && NumberLit(s).Done?
    ensures LexOne(s) == Done(Some(Number(NumberLit(s).value)), NumberLit(s).rest)
  {
    DigitStartsOnly(s[0]);
    assert LexToken(s) == Done(Number(NumberLit(s).value), NumberLit(s).rest);
  }

  lemma DigitsLex(digits: string, unit: Option<char>, rest: string)
    requires Valid(Digits(digits, unit)) && Ends(Digits(digits, unit), rest)
    ensures Lexes(Digits(digits, unit), rest)
  {
    NumberReads(digits, unit, rest);
    Assoc(digits, Suffix(unit), rest);
    NumberLexes(digits + (Suffix(unit) + rest));
  }

  lemma QuoteLexes(chars: seq<Quoted>, rest: string)
    requires ValidQuote(chars)
    ensures Lexes(Quote(chars), rest)
  {
    var s := Spelling(Quote(chars)) + rest;
    var inner := QuoteText(chars) + ("\"" + rest);
    assert s == "\"" + inner by {
      Assoc("\"", QuoteText(chars) + "\"", rest);
      Assoc(QuoteText(chars), "\"", rest);
    }
    assert s[1..] == inner;
    QuoteReads(chars, rest);
  }

  /** What starts an identifier starts nothing else. */
  lemma IdentStartsOnly(c: char)
    requires IsIdentStart(c)
    ensures !IsSpace(c) && c != '#' && c != '/' && c != ':' && !IsDigit(c) && Punctuation(c).None?
  {}

  lemma WordLexes(s: string)
    requires s != "" && IsIdentStart(s[0]) && WordOrText(s).Done?
    ensures LexOne(s) == Done(Some(WordOrText(s).value), WordOrText(s).rest)
  {
    IdentStartsOnly(s[0]);
    assert LexToken(s) == WordOrText(s);
  }

  /** The word `text` with a colon after it starts a text block. */
  lemma TextWord(body: string)
    ensures var s := "text:" + body;
            WordOrText(s) == match TextBlock(body) case Fail => Fail case Done(text, rest) => Done(StringLit(text), rest)
  {
    var s := "text:" + body;
    assert s == "text" + (":" + body);
    SpanOf("text", ":" + body, IsIdent);
    PrefixOf("text", ":" + body);
    assert s[4] == ':' && s[5..] == body;
  }

  lemma TailAssoc(dot: string, eol: bool, rest: string)
    requires eol || rest == ""
    ensures TextTail(dot, eol, "") + rest == TextTail(dot, eol, rest)
  {
    if eol {
      Assoc(dot, "\n" + "", rest);
      Assoc("\n", "", rest);
      assert "" + rest == rest;
    } else {
      assert dot + "" == dot;
    }
  }

  lemma TextSpelling(crlf: bool, raws: seq<string>, dot: string, eol: bool, rest: string)
    requires eol || rest == ""
    ensures Spelling(Text(crlf, raws, dot, eol)) + rest == "text:" + (Eol(crlf) + (RawText(raws) + TextTail(dot, eol, rest)))
  {
    var end := TextTail(dot, eol, "");
    Assoc("text:", Eol(crlf) + (RawText(raws) + end), rest);
    Assoc(Eol(crlf), RawText(raws) + end, rest);
    Assoc(RawText(raws), end, rest);
    TailAssoc(dot, eol, rest);
  }

  lemma TextLexes(crlf: bool, raws: seq<string>, dot: string, eol: bool, rest: string)
    requires Valid(Text(crlf, raws, dot, eol)) && Ends(Text(crlf, raws, dot, eol), rest)
    ensures Lexes(Text(crlf, raws, dot, eol), rest)
  {
    var body := RawText(raws) + TextTail(dot, eol, rest);
    TextSpelling(crlf, raws, dot, eol, rest);
    TextWord(Eol(crlf) + body);
    TextHeader(crlf, body);
    TextCollects(raws, dot, eol, rest, "");
    WordLexes("text:" + (Eol(crlf) + body));
  }

  lemma LineCommentLexes(text: string, rest: string)
    requires Valid(LineComment(text)) && Ends(LineComment(text), rest)
    ensures Lexes(LineComment(text), rest)
  {
    var s := "#" + text + rest;
    assert s[1..] == text + rest;
    SpanOf(text, rest, InLine);
    PrefixOf(text, rest);
  }

  lemma {:induction false} BlockNoteEnds(text: string, rest: string)
    requires NoCloser(text)
    ensures BlockComment(text + ("*/" + rest)) == Done((), rest)
  {
    var s := text + ("*/" + rest);
    if text == "" {
      assert s == "*/" + rest;
    } else {
      assert s[1..] == text[1..] + ("*/" + rest);
      assert s[0] == text[0] && (|text| > 1 ==> s[1] == text[1]) && (|text| == 1 ==> s[1] == '*');
      assert forall i :: 0 <= i < |text| - 2 ==> text[1..][i] == text[i + 1];
      BlockNoteEnds(text[1..], rest);
    }
  }

  lemma BlockNoteLexes(text: string, rest: string)
    requires NoCloser(text)
    ensures Lexes(BlockNote(text), rest)
  {
    var s := Spelling(BlockNote(text)) + rest;
    assert s == "/*" + (text + ("*/" + rest)) by {
      Assoc("/*", text + "*/", rest);
      Assoc(text, "*/", rest);
    }
    assert s[2..] == text + ("*/" + rest);
    BlockNoteEnds(text, rest);
  }

  lemma OneCharLexes(p: Piece, rest: string)
    requires (p.Mark? || p.Space?) && Valid(p)
    ensures Lexes(p, rest)
  {
    if p.Space? { BlankIff(p.c); } else { MarkStartsOnly(MarkOf(p.token)); }
    assert (Spelling(p) + rest)[1..] == rest;
  }

  /** What is punctuation starts nothing else. */
  lemma MarkStartsOnly(c: char)
    requires Punctuation(c).Some?
    ensures !IsSpace(c) && c != '#' && c != '/'
  {}

  /** However a piece is spelled, the lexer finds what it means and stops where the spelling ends. */
  lemma PieceLexes(p: Piece, rest: string)
    requires Valid(p) && Ends(p, rest)
    ensures Lexes(p, rest)
  {
    match p
    case Identifier(name) => IdentifierLexes(name, rest);
    case TagName(name) => TagLexes(name, rest);
    case Digits(digits, unit) => DigitsLex(digits, unit, rest);
    case Quote(chars) => QuoteLexes(chars, rest);
    case Text(crlf, raws, dot, eol) => TextLexes(crlf, raws, dot, eol, rest);
    case Mark(_) => OneCharLexes(p, rest);
    case Space(_) => OneCharLexes(p, rest);
    case LineComment(text) => LineCommentLexes(text, rest);
    case BlockNote(text) => BlockNoteLexes(text, rest);
  }

  // ----- And nothing else is -----

  /** `p` is what the lexer read at the start of `s`. */
  predicate IsPiece(p: Piece, s: string)
    requires s != ""
  {
    && Valid(p) && LexOne(s).Done? && Ends(p, LexOne(s).rest)
    && s == Spelling(p) + LexOne(s).rest && LexOne(s).value == Meaning(p)
  }

  lemma CutSpan(s: string, p: char -> bool)
    ensures var n := Span(s, p); s == s[..n] + s[n..] && (s[n..] == "" || !p(s[n..][0])) && All(s[..n], p)
  {
    SpanIs(s, p);
  }

  lemma TextParse(s: string) returns (p: Piece)
    requires TextBlock(s).Done?
    ensures p.Text? && Valid(p) && Ends(p, TextBlock(s).rest)
    ensures "text:" + s == Spelling(p) + TextBlock(s).rest && Meaning(p) == Some(StringLit(TextBlock(s).value))
  {
    var crlf, body := HeaderParses(s);
    var raws, dot, eol := TextParses(body, "");
    p := Text(crlf, raws, dot, eol);
    TextSpelling(crlf, raws, dot, eol, TextBlock(s).rest);
  }

  lemma WordPiece(s: string) returns (p: Piece)
    requires s != "" && IsIdentStart(s[0]) && WordOrText(s).Done?
    ensures IsPiece(p, s)
  {
    var n := Span(s, IsIdent);
    CutSpan(s, IsIdent);
    WordLexes(s);
    assert n > 0;
    if s[..n] == "text" && n < |s| && s[n] == ':' {
      var body := s[n + 1..];
      assert s == "text:" + body;
      p := TextParse(body);
    } else {
      p := Identifier(s[..n]);
      assert s[..n][0] == s[0];
      NameIff(s[..n]);
    }
  }

  /** A tag is a colon and the name that starts after it. */
  lemma TagParse(s: string) returns (name: string)
    requires s != "" && s[0] == ':' && TagLit(s).Done?
    ensures IsName(name) && s == ":" + name + TagLit(s).rest && TagLit(s).value == Token.Tag(name)
    ensures TagLit(s).rest == "" || !IsIdent(TagLit(s).rest[0])
  {
    var after := s[1..];
    CutSpan(after, IsIdent);
    name := after[..Span(after, IsIdent)];
    NameIff(name);
    assert s == ":" + after;
    Assoc(":", name, TagLit(s).rest);
  }

  lemma TagPiece(s: string) returns (p: Piece)
    requires s != "" && s[0] == ':' && TagLit(s).Done?
    ensures IsPiece(p, s)
  {
    var name := TagParse(s);
    p := TagName(name);
  }

  lemma DigitsPiece(s: string) returns (p: Piece)
    requires s != "" && IsDigit(s[0]) && NumberLit(s).Done?
    ensures IsPiece(p, s)
  {
    var n := Span(s, IsDigit);
    CutSpan(s, IsDigit);
    NumberLexes(s);
    assert n > 0;
    if n == |s| || !IsUnit(s[n]) {
      p := Digits(s[..n], None);
      if n < |s| { UnitIff(s[n]); }
      assert s[..n] + "" == s[..n];
    } else {
      p := Digits(s[..n], Some(s[n]));
      UnitIff(s[n]);
      ScaledIs(Numeral(s[..n]), s[n]);
      CutString(s, n);
      Assoc(s[..n], [s[n]], s[n + 1..]);
    }
  }

  lemma QuotePiece(s: string) returns (p: Piece)
    requires s != "" && s[0] == '"' && LexOne(s).Done?
    ensures IsPiece(p, s)
  {
    var chars := QuoteParses(s[1..]);
    p := Quote(chars);
    var rest := LexOne(s).rest;
    assert s == "\"" + s[1..];
    Assoc("\"", QuoteText(chars) + "\"", rest);
    Assoc(QuoteText(chars), "\"", rest);
  }

  lemma {:induction false} BlockNoteParses(s: string) returns (text: string)
    requires BlockComment(s).Done?
    ensures NoCloser(text) && s == text + ("*/" + BlockComment(s).rest)
    decreases |s|
  {
    if |s| > 1 && s[0] == '*' && s[1] == '/' {
      text := "";
      assert s == "" + ("*/" + s[2..]);
    } else {
      var more := BlockNoteParses(s[1..]);
      text := [s[0]] + more;
      var end := "*/" + BlockComment(s).rest;
      Assoc([s[0]], more, end);
      assert s == [s[0]] + s[1..];
      assert more != "" ==> more[0] == s[1];
      forall i | 0 <= i < |text| - 1 ensures !(text[i] == '*' && text[i + 1] == '/') {
        assert i > 0 ==> text[i] == more[i - 1] && text[i + 1] == more[i];
      }
    }
  }

  lemma CommentPiece(s: string) returns (p: Piece)
    requires s != "" && (s[0] == '#' || s[0] == '/') && LexOne(s).Done?
    ensures IsPiece(p, s)
  {
    var rest := LexOne(s).rest;
    if s[0] == '#' {
      var n := Span(s[1..], InLine);
      CutSpan(s[1..], InLine);
      p := LineComment(s[1..][..n]);
      assert s == "#" + s[1..];
      Assoc("#", s[1..][..n], rest);
    } else {
      var text := BlockNoteParses(s[2..]);
      p := BlockNote(text);
      assert s == "/*" + s[2..];
      Assoc("/*", text + "*/", rest);
      Assoc(text, "*/", rest);
    }
  }

  lemma PunctuationIsMark(c: char)
    requires Punctuation(c).Some?
    ensures IsMark(Punctuation(c).value) && MarkOf(Punctuation(c).value) == c
  {}

  lemma OneCharPiece(s: string) returns (p: Piece)
    requires s != "" && (IsSpace(s[0]) || Punctuation(s[0]).Some?)
    ensures IsPiece(p, s)
  {
    BlankIff(s[0]);
    if !IsSpace(s[0]) { PunctuationIsMark(s[0]); }
    p := if IsSpace(s[0]) then Space(s[0]) else Mark(Punctuation(s[0]).value);
    assert s == [s[0]] + s[1..];
  }

  /** Whatever the lexer reads at the start of a text is a piece. */
  lemma PieceRead(s: string) returns (p: Piece)
    requires s != "" && LexOne(s).Done?
    ensures IsPiece(p, s)
  {
    var c := s[0];
    if IsSpace(c) || Punctuation(c).Some? {
      p := OneCharPiece(s);
    } else if c == '#' || c == '/' {
      p := CommentPiece(s);
    } else if c == ':' {
      p := TagPiece(s);
    } else if IsDigit(c) {
      p := DigitsPiece(s);
    } else if IsIdentStart(c) {
      p := WordPiece(s);
    } else {
      p := QuotePiece(s);
    }
  }

  // ----- Sources -----

  function Source(pieces: seq<Piece>): string {
    if pieces == [] then "" else Spelling(pieces[0]) + Source(pieces[1..])
  }

  /** Valid pieces, none of which runs into what follows it. */
  predicate Rendering(pieces: seq<Piece>) {
    pieces == [] || (Valid(pieces[0]) && Ends(pieces[0], Source(pieces[1..])) && Rendering(pieces[1..]))
  }

  /** The token a piece gives, if it gives one. */
  function Given(p: Piece): seq<Token>
    requires Valid(p)
  {
    match Meaning(p) case None => [] case Some(t) => [t]
  }

  function Meanings(pieces: seq<Piece>): seq<Token>
    requires Rendering(pieces)
  {
    if pieces == [] then [] else
    Given(pieces[0]) + Meanings(pieces[1..])
  }

  /** The lexer inverts every rendering of a token list. */
  lemma {:induction false} RenderingTokenizes(pieces: seq<Piece>)
    requires Rendering(pieces)
    ensures Tokens(Source(pieces)) == Some(Meanings(pieces))
  {
    if pieces != [] {
      PieceLexes(pieces[0], Source(pieces[1..]));
      RenderingTokenizes(pieces[1..]);
      assert [] + Meanings(pieces[1..]) == Meanings(pieces[1..]);
    }
  }

  /** Every text the lexer accepts is a rendering of the tokens it gives. */
  lemma {:induction false} AcceptedIsRendering(s: string) returns (pieces: seq<Piece>)
    requires Tokens(s).Some?
    ensures Rendering(pieces) && Source(pieces) == s && Meanings(pieces) == Tokens(s).value
    decreases |s|
  {
    if s == "" {
      pieces := [];
    } else {
      var p := PieceRead(s);
      var more := AcceptedIsRendering(LexOne(s).rest);
      pieces := [p] + more;
      assert pieces[1..] == more;
    }
  }

  /** So the lexer gives a token list for exactly the renderings of that list. */
  lemma TokenizesIff(s: string, ts: seq<Token>)
    ensures Tokens(s) == Some(ts)
       <==> exists pieces :: Rendering(pieces) && Source(pieces) == s && Meanings(pieces) == ts
  {
    if Tokens(s) == Some(ts) {
      var pieces := AcceptedIsRendering(s);
    }
    forall pieces | Rendering(pieces) && Source(pieces) == s && Meanings(pieces) == ts ensures Tokens(s) == Some(ts) {
      RenderingTokenizes(pieces);
    }
  }

  /** Any blank separates any two pieces. */
  lemma BlankSeparates(p: Piece, c: char, rest: string)
    requires IsBlank(c) && !p.LineComment? && !(p.Text? && !p.eol)
    ensures Ends(p, [c] + rest)
  {}

  // ----- The token lists the lexer produces are exactly those that can be written down -----

  predicate Spellable(t: Token) {
    (t.Word? || t.Tag?) ==> IsName(t.text)
  }

  predicate AllSpellable(ts: seq<Token>) {
    forall i :: 0 <= i < |ts| ==> Spellable(ts[i])
  }

  function Write(t: Token): Piece {
    match t
    case Word(s) => Identifier(s)
    case Tag(s) => TagName(s)
    case StringLit(s) => Quote(Escape(s))
    case Number(n) => Digits(Decimal(n), None)
    case _ => Mark(t)
  }

  lemma WriteMeans(t: Token)
    requires Spellable(t)
    ensures var p := Write(t); Valid(p) && !p.LineComment? && !p.Text? && Meaning(p) == Some(t)
  {
    match t
    case StringLit(s) => QuoteReadsBack(s, "");
    case Number(n) => NumeralOfDecimal(n);
    case _ =>
  }

  lemma SpellableTail(ts: seq<Token>)
    requires ts != [] && AllSpellable(ts)
    ensures Spellable(ts[0]) && AllSpellable(ts[1..])
  {
    assert ts == [ts[0]] + ts[1..];
    SpellableCons([ts[0]], ts[1..]);
  }

  /** The tokens, each with a blank after it. */
  function WriteAll(ts: seq<Token>): seq<Piece> {
    if ts == [] then [] else [Write(ts[0]), Space(' ')] + WriteAll(ts[1..])
  }

  /** One more piece in front. */
  lemma RenderCons(p: Piece, more: seq<Piece>)
    requires Valid(p) && Ends(p, Source(more)) && Rendering(more)
    ensures Rendering([p] + more) && Source([p] + more) == Spelling(p) + Source(more)
    ensures Meanings([p] + more) == Given(p) + Meanings(more)
  {
    assert ([p] + more)[1..] == more;
  }

  lemma PieceAndBlank(p: Piece, t: Token, more: seq<Piece>)
    requires Valid(p) && !p.LineComment? && !p.Text? && Meaning(p) == Some(t) && Rendering(more)
    ensures Rendering([p, Space(' ')] + more) && Meanings([p, Space(' ')] + more) == [t] + Meanings(more)
  {
    var blank := [Space(' ')] + more;
    RenderCons(Space(' '), more);
    assert [] + Meanings(more) == Meanings(more);
    BlankSeparates(p, ' ', Source(more));
    RenderCons(p, blank);
    assert [p, Space(' ')] + more == [p] + blank;
  }

  lemma {:induction false} WriteAllMeans(ts: seq<Token>)
    requires AllSpellable(ts)
    ensures Rendering(WriteAll(ts)) && Meanings(WriteAll(ts)) == ts
  {
    if ts != [] {
      SpellableTail(ts);
      WriteAllMeans(ts[1..]);
      WriteMeans(ts[0]);
      PieceAndBlank(Write(ts[0]), ts[0], WriteAll(ts[1..]));
    }
  }

  lemma {:induction false} RenderingSpellable(pieces: seq<Piece>)
    requires Rendering(pieces)
    ensures AllSpellable(Meanings(pieces))
  {
    if pieces != [] {
      RenderingSpellable(pieces[1..]);
      SpellableCons(Given(pieces[0]), Meanings(pieces[1..]));
    }
  }

  lemma TokensSpellable(s: string)
    requires Tokens(s).Some?
    ensures AllSpellable(Tokens(s).value)
  {
    var pieces := AcceptedIsRendering(s);
    RenderingSpellable(pieces);
  }

  /** A token list comes out of the lexer exactly when its words and tags are identifiers. */
  lemma LexableIffSpellable(ts: seq<Token>)
    ensures AllSpellable(ts) <==> exists s :: Tokens(s) == Some(ts)
  {
    if AllSpellable(ts) {
      WriteAllMeans(ts);
      RenderingTokenizes(WriteAll(ts));
    }
    forall s | Tokens(s) == Some(ts) ensures AllSpellable(ts) {
      TokensSpellable(s);
    }
  }

  // ----- Scripts as source text -----

  /** What `tokenize` and `read_script` make of a source text. */
  function Compile(src: string): Option<Script> {
    match Tokens(src)
    case None => None
    case Some(ts) => match ReadScript(ts) case Fail => None case Done(script, _) => Some(script)
  }

  function Pretty(script: Script): string {
    Source(WriteAll(PrintStmts(script)))
  }

  /** A well-formed script, written out as text, compiles to itself. */
  lemma PrettyCompiles(script: Script)
    requires WellFormedStmts(script) && AllSpellable(PrintStmts(script))
    ensures Compile(Pretty(script)) == Some(script)
  {
    WriteAllMeans(PrintStmts(script));
    RenderingTokenizes(WriteAll(PrintStmts(script)));
    ScriptReadBack(script);
  }

  lemma {:induction false} LeavesDecideSpelling(ts: seq<Token>)
    ensures AllSpellable(ts) <==> AllSpellable(Leaves(ts))
  {
    if ts != [] {
      LeavesDecideSpelling(ts[1..]);
      assert Leaves(ts) == LeafOf(ts[0]) + Leaves(ts[1..]);
      assert AllSpellable(ts) <==> Spellable(ts[0]) && AllSpellable(ts[1..]) by { SpellableCons([ts[0]], ts[1..]); }
      SpellableCons(LeafOf(ts[0]), Leaves(ts[1..]));
      assert [ts[0]] + ts[1..] == ts;
    }
  }

  lemma SpellableCons(a: seq<Token>, b: seq<Token>)
    ensures AllSpellable(a + b) <==> AllSpellable(a) && AllSpellable(b)
  {
    if AllSpellable(a + b) {
      forall i | 0 <= i < |b| ensures Spellable(b[i]) { assert (a + b)[|a| + i] == b[i]; }
      forall i | 0 <= i < |a| ensures Spellable(a[i]) { assert (a + b)[i] == a[i]; }
    }
  }

  /**
   Whatever source a script was compiled from, the script can be written out as text again, and
   that text compiles to the same script: pretty-printing is a normal form for every script.
   */
  lemma CompiledScriptsAreWritable(src: string)
    requires Compile(src).Some?
    ensures AllSpellable(PrintStmts(Compile(src).value))
    ensures Compile(Pretty(Compile(src).value)) == Compile(src)
  {
    var ts := Tokens(src).value;
    var script := Compile(src).value;
    TokensSpellable(src);
    LeavesDecideSpelling(ts);
    ScriptFaithful(ts);
    ScriptReadWellFormed(ts);
    ScriptReadBack(script);
    ScriptFaithful(PrintStmts(script));
    LeavesDecideSpelling(PrintStmts(script));
    PrettyCompiles(script);
  }

  /** What compiles to what: the renderings of the layouts of a script compile to it, and nothing else does. */
  lemma CompilesIff(src: string, script: Script)
    ensures Compile(src) == Some(script)
       <==> exists pieces, es :: Rendering(pieces) && Source(pieces) == src && ValidEntries(es, [])
                                 && Meanings(pieces) == EntriesText(es) && StmtsOf(es) == script
  {
    if Compile(src) == Some(script) {
      var pieces := AcceptedIsRendering(src);
      var es := ScriptParse(Tokens(src).value);
      assert EntriesText(es) + [] == EntriesText(es);
    }
    forall pieces, es | Rendering(pieces) && Source(pieces) == src && ValidEntries(es, [])
                        && Meanings(pieces) == EntriesText(es) && StmtsOf(es) == script
      ensures Compile(src) == Some(script)
    {
      RenderingTokenizes(pieces);
      EntriesRead(es, []);
      assert EntriesText(es) + [] == EntriesText(es) && script + [] == script;
    }
  }
}
