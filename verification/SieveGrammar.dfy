/** Tokens and forms of Sieve scripts: crates/sieve-native/src/lexer.rs and form.rs. */
module SieveGrammar {
  import opened Prelude

  datatype Token =
    | Word(text: string)
    | Tag(text: string)
    | StringLit(text: string)
    | Number(value: u64)
    | LBracket | RBracket
    | LParen | RParen
    | LBrace | RBrace
    | Semicolon
    | Comma

  datatype Form =
    | Word(text: string)
    | Tag(text: string)
    | Str(text: string)
    | Num(value: u64)
    | StringList(strings: seq<string>)
    | TestList(tests: seq<Stmt>)
    | Block(stmts: seq<Stmt>)

  datatype Stmt = Stmt(forms: seq<Form>)

  type Script = seq<Stmt>

  predicate IsLeaf(t: Token) {
    t.Word? || t.Tag? || t.StringLit? || t.Number?
  }

  predicate Opens(t: Token) {
    t == LBracket || t == LParen || t == LBrace
  }

  /** The form a word, tag, string or number token makes on its own. */
  function LeafForm(t: Token): Form
    requires IsLeaf(t)
  {
    match t
    case Word(s) => Form.Word(s)
    case Tag(s) => Form.Tag(s)
    case StringLit(s) => Form.Str(s)
    case Number(n) => Form.Num(n)
  }

  /** The words that continue a statement after a block. */
  predicate ContinuesBlock(t: Token) {
    t == Token.Word("elsif") || t == Token.Word("else")
  }
}

/** The reader of crates/sieve-native/src/form.rs, as functions from a token list to what is left of it. */
module SieveForms {
  import opened Prelude
  import opened SieveGrammar

  /** Where a run of forms is being read: a command, the part of it after elsif/else, or a test. */
  datatype Mode = Command | Clause | Test

  /** One leaf or one bracketed form. */
  function ReadItem(ts: seq<Token>): (p: Parse<Token, Form>)
    requires ts != [] && (IsLeaf(ts[0]) || Opens(ts[0]))
    ensures p.Done? ==> |p.rest| < |ts|
    decreases |ts|, 0
  {
    match ts[0]
    case LBracket =>
      (match ReadStrings(ts[1..], false) case Fail => Fail case Done(strings, rest) => Done(StringList(strings), rest))
    case LParen =>
      (match ReadTests(ts[1..]) case Fail => Fail case Done(tests, rest) => Done(TestList(tests), rest))
    case LBrace =>
      (match ReadBlock(ts[1..]) case Fail => Fail case Done(stmts, rest) => Done(Block(stmts), rest))
    case _ => Done(LeafForm(ts[0]), ts[1..])
  }

  /** Ends a run of forms at a token that is neither a leaf nor an opening bracket. */
  function ReadEnd(ts: seq<Token>, mode: Mode): (p: Parse<Token, seq<Form>>)
    requires ts != []
    ensures p.Done? ==> |p.rest| <= |ts| && (mode == Command ==> |p.rest| < |ts|)
  {
    match mode
    case Command => if ts[0] == Semicolon then Done([], ts[1..]) else Fail
    case Clause => Done([], ts)
    case Test => if ts[0] == Comma || ts[0] == RParen then Done([], ts) else Fail
  }

  /**
   A block ends a test. In a command it ends the statement too, unless elsif or else follows;
   what comes after that keyword is read leniently, up to the next block or the first token that
   is not a form.
   */
  function ReadForms(ts: seq<Token>, mode: Mode, started: bool): (p: Parse<Token, seq<Form>>)
    ensures p.Done? ==> |p.rest| <= |ts|
    ensures p.Done? && mode == Command && ts != [] ==> |p.rest| < |ts|
    decreases |ts|, 1
  {
    if ts == [] then
      if started && mode != Clause then Fail else Done([], [])
    else if IsLeaf(ts[0]) || Opens(ts[0]) then
      match ReadItem(ts)
      case Fail => Fail
      case Done(item, rest) =>
        if !item.Block? then Prepend([item], ReadForms(rest, mode, true))
        else if mode != Test && rest != [] && ContinuesBlock(rest[0])
        then Prepend([item, LeafForm(rest[0])], ReadForms(rest[1..], Clause, true))
        else Done([item], rest)
    else
      ReadEnd(ts, mode)
  }

  /** After `[`. */
  function ReadStrings(ts: seq<Token>, expectComma: bool): (p: Parse<Token, seq<string>>)
    ensures p.Done? ==> |p.rest| < |ts|
    decreases |ts|
  {
    if ts == [] then Fail
    else match ts[0]
      case RBracket => Done([], ts[1..])
      case Comma => if expectComma then ReadStrings(ts[1..], false) else Fail
      case StringLit(s) => if expectComma then Fail else Prepend([s], ReadStrings(ts[1..], true))
      case _ => Fail
  }

  /** After `(`. */
  function ReadTests(ts: seq<Token>): (p: Parse<Token, seq<Stmt>>)
    ensures p.Done? ==> |p.rest| < |ts|
    decreases |ts|, 2
  {
    if ts == [] then Fail
    else if ts[0] == RParen then Done([], ts[1..])
    else match ReadForms(ts, Test, false)
      case Fail => Fail
      case Done(forms, rest) =>
        if rest == [] then Fail
        else if rest[0] == Comma then Prepend([Stmt(forms)], ReadTests(rest[1..]))
        else if rest[0] == RParen then Done([Stmt(forms)], rest[1..])
        else Fail
  }

  /** After `{`. */
  function ReadBlock(ts: seq<Token>): (p: Parse<Token, seq<Stmt>>)
    ensures p.Done? ==> |p.rest| < |ts|
    decreases |ts|, 2
  {
    if ts == [] then Fail
    else if ts[0] == RBrace then Done([], ts[1..])
    else if ts[0] == Semicolon then ReadBlock(ts[1..])
    else match ReadForms(ts, Command, false)
      case Fail => Fail
      case Done(forms, rest) => Prepend(if forms == [] then [] else [Stmt(forms)], ReadBlock(rest))
  }

  function ReadScript(ts: seq<Token>): (p: Parse<Token, Script>)
    ensures p.Done? ==> p.rest == []
    decreases |ts|
  {
    if ts == [] then Done([], [])
    else if ts[0] == Semicolon then ReadScript(ts[1..])
    else match ReadForms(ts, Command, false)
      case Fail => Fail
      case Done(forms, rest) => Prepend(if forms == [] then [] else [Stmt(forms)], ReadScript(rest))
  }
}
