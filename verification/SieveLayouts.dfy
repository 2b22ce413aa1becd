/**
 Token lists as layouts of a script: every way of writing one down, with or without the commas and
 semicolons that may be left out or added. The reader accepts exactly the layouts, and reads each
 as what it means.
 */
module SieveLayouts {
  import opened Prelude
  import opened SieveGrammar
  import opened SieveForms

  // ----- Layouts -----

  datatype Node =
    | Leaf(form: Form)
    | Strings(strings: seq<string>, comma: bool)
    | Tests(tests: seq<Case>, comma: bool)
    | Braces(entries: seq<Entry>)

  /** One test of a test list, which may be empty. */
  datatype Case = Case(nodes: seq<Node>)

  /** What stands in a script or between braces: a command, or a semicolon that ends none. */
  datatype Entry = Semi | Line(nodes: seq<Node>)

  predicate HasBraces(ns: seq<Node>) {
    ns != [] && (ns[0].Braces? || HasBraces(ns[1..]))
  }

  predicate EndsInBraces(ns: seq<Node>) {
    ns != [] && ns[|ns| - 1].Braces?
  }

  predicate IsKeyword(n: Node) {
    n == Leaf(Form.Word("elsif")) || n == Leaf(Form.Word("else"))
  }

  // ----- What a layout says -----

  function FormOf(n: Node): Form
    decreases n
  {
    match n
    case Leaf(form) => form
    case Strings(strings, _) => StringList(strings)
    case Tests(tests, _) => TestList(TestsOf(tests))
    case Braces(entries) => Block(StmtsOf(entries))
  }

  function FormsOf(ns: seq<Node>): (fs: seq<Form>)
    ensures |fs| == |ns|
    decreases ns
  {
    if ns == [] then [] else [FormOf(ns[0])] + FormsOf(ns[1..])
  }

  function TestsOf(cs: seq<Case>): seq<Stmt>
    decreases cs
  {
    if cs == [] then [] else [Stmt(FormsOf(cs[0].nodes))] + TestsOf(cs[1..])
  }

  function StmtsOf(es: seq<Entry>): seq<Stmt>
    decreases es
  {
    if es == [] then []
    else if es[0].Semi? then StmtsOf(es[1..])
    else [Stmt(FormsOf(es[0].nodes))] + StmtsOf(es[1..])
  }

  // ----- How it is spelled -----

  function LeafToken(f: Form): Token
    requires f.Word? || f.Tag? || f.Str? || f.Num?
  {
    match f
    case Word(s) => Token.Word(s)
    case Tag(s) => Token.Tag(s)
    case Str(s) => StringLit(s)
    case Num(n) => Number(n)
  }

  /** After a string: commas stand between strings, and one may follow the last. */
  function MoreStrings(strings: seq<string>, comma: bool): seq<Token> {
    if strings == [] then if comma then [Comma] else []
    else [Comma, StringLit(strings[0])] + MoreStrings(strings[1..], comma)
  }

  function StringsText(strings: seq<string>, comma: bool): seq<Token> {
    if strings == [] then [] else [StringLit(strings[0])] + MoreStrings(strings[1..], comma)
  }

  function NodeText(n: Node): seq<Token>
    decreases n
  {
    match n
    case Leaf(form) => if form.Word? || form.Tag? || form.Str? || form.Num? then [LeafToken(form)] else []
    case Strings(strings, comma) => [LBracket] + (StringsText(strings, comma) + [RBracket])
    case Tests(tests, comma) => [LParen] + (TestsText(tests, comma) + [RParen])
    case Braces(entries) => [LBrace] + (EntriesText(entries) + [RBrace])
  }

  function NodesText(ns: seq<Node>): seq<Token>
    decreases ns
  {
    if ns == [] then [] else NodeText(ns[0]) + NodesText(ns[1..])
  }

  /** After a test: commas stand between tests, and one may follow the last. */
  function MoreTests(cs: seq<Case>, comma: bool): seq<Token>
    decreases cs
  {
    if cs == [] then if comma then [Comma] else []
    else [Comma] + (NodesText(cs[0].nodes) + MoreTests(cs[1..], comma))
  }

  function TestsText(cs: seq<Case>, comma: bool): seq<Token>
    decreases cs
  {
    if cs == [] then [] else NodesText(cs[0].nodes) + MoreTests(cs[1..], comma)
  }

  /** A command with a block needs no semicolon. */
  function Trail(ns: seq<Node>): seq<Token> {
    if HasBraces(ns) then [] else [Semicolon]
  }

  function EntriesText(es: seq<Entry>): seq<Token>
    decreases es
  {
    if es == [] then []
    else if es[0].Semi? then [Semicolon] + EntriesText(es[1..])
    else NodesText(es[0].nodes) + (Trail(es[0].nodes) + EntriesText(es[1..]))
  }

  // ----- Which layouts there are -----

  /** A token that belongs to no form. */
  predicate Breaks(t: Token) {
    t == Semicolon || t == Comma || t == RBracket || t == RParen || t == RBrace
  }

  /**
   What may follow a command that has a block: after the block nothing that would continue it, and
   after a dangling elsif or else nothing that would be taken for more of it.
   */
  predicate Follows(ns: seq<Node>, end: seq<Token>) {
    end == [] || if EndsInBraces(ns) then end[0] != Token.Word("elsif") && end[0] != Token.Word("else") else Breaks(end[0])
  }

  predicate ValidNode(n: Node)
    decreases n
  {
    match n
    case Leaf(form) => form.Word? || form.Tag? || form.Str? || form.Num?
    case Strings(strings, comma) => strings == [] ==> !comma
    case Tests(tests, comma) => ValidTests(tests) && (tests == [] ==> !comma) && (tests != [] && tests[|tests| - 1].nodes == [] ==> comma)
    case Braces(entries) => ValidEntries(entries, [RBrace])
  }

  /** In a test, braces come last; in a command, elsif or else must follow those that do not. */
  predicate ValidNodes(ns: seq<Node>, test: bool)
    decreases ns
  {
    ns == [] ||
    (ValidNode(ns[0]) && (ns[0].Braces? && |ns| > 1 ==> !test && IsKeyword(ns[1])) && ValidNodes(ns[1..], test))
  }

  predicate ValidTests(cs: seq<Case>)
    decreases cs
  {
    cs == [] || (ValidNodes(cs[0].nodes, true) && ValidTests(cs[1..]))
  }

  predicate ValidEntries(es: seq<Entry>, end: seq<Token>)
    decreases es
  {
    es == [] ||
    (&& (es[0].Line? ==>
           && es[0].nodes != [] && ValidNodes(es[0].nodes, false)
           && (HasBraces(es[0].nodes) ==> Follows(es[0].nodes, EntriesText(es[1..]) + end)))
     && ValidEntries(es[1..], end))
  }

  // ----- Every layout is read -----

  lemma Nest<T>(a: seq<T>, b: seq<T>, c: seq<T>)
    ensures a + b + c == a + (b + c)
  {}

  predicate Starts(ts: seq<Token>) {
    ts != [] && (IsLeaf(ts[0]) || Opens(ts[0]))
  }

  lemma BreaksOrStarts(t: Token)
    ensures Breaks(t) <==> !Starts([t])
  {}

  /** Whether a run of forms ends before `end`, and what reading it leaves. */
  predicate Stops(ns: seq<Node>, mode: Mode, end: seq<Token>) {
    if HasBraces(ns) then (mode == Test && EndsInBraces(ns)) || (mode != Test && Follows(ns, end))
    else match mode
      case Command => end != [] && end[0] == Semicolon
      case Clause => end == [] || Breaks(end[0])
      case Test => end != [] && (end[0] == Comma || end[0] == RParen)
  }

  function Left(ns: seq<Node>, mode: Mode, end: seq<Token>): seq<Token>
    requires Stops(ns, mode, end)
  {
    if mode == Command && !HasBraces(ns) then end[1..] else end
  }

  lemma StringStep(s: string, tail: seq<Token>)
    ensures ReadStrings([StringLit(s)] + tail, false) == Prepend([s], ReadStrings(tail, true))
  {
    assert ([StringLit(s)] + tail)[1..] == tail;
  }

  lemma CommaStep(tail: seq<Token>)
    ensures ReadStrings([Comma] + tail, true) == ReadStrings(tail, false)
  {
    assert ([Comma] + tail)[1..] == tail;
  }

  lemma CloseStep(rest: seq<Token>, expectComma: bool)
    ensures ReadStrings([RBracket] + rest, expectComma) == Done([], rest)
  {
    assert ([RBracket] + rest)[1..] == rest;
  }

  lemma CommaStringStep(s: string, tail: seq<Token>)
    ensures ReadStrings([Comma, StringLit(s)] + tail, true) == Prepend([s], ReadStrings(tail, true))
  {
    assert [Comma, StringLit(s)] + tail == [Comma] + ([StringLit(s)] + tail);
    CommaStep([StringLit(s)] + tail);
    StringStep(s, tail);
  }

  lemma TrailingComma(comma: bool, rest: seq<Token>)
    ensures ReadStrings((if comma then [Comma] else []) + ([RBracket] + rest), true) == Done([], rest)
  {
    var end := [RBracket] + rest;
    CloseStep(rest, true);
    CloseStep(rest, false);
    if comma { CommaStep(end); } else { assert [] + end == end; }
  }

  lemma {:induction false} MoreStringsRead(strings: seq<string>, comma: bool, rest: seq<Token>)
    ensures ReadStrings(MoreStrings(strings, comma) + ([RBracket] + rest), true) == Done(strings, rest)
  {
    if strings == [] {
      TrailingComma(comma, rest);
    } else {
      var more, end := MoreStrings(strings[1..], comma), [RBracket] + rest;
      Nest([Comma, StringLit(strings[0])], more, end);
      CommaStringStep(strings[0], more + end);
      MoreStringsRead(strings[1..], comma, rest);
      assert strings == [strings[0]] + strings[1..];
    }
  }

  lemma StringsRead(strings: seq<string>, comma: bool, rest: seq<Token>)
    ensures ReadStrings(StringsText(strings, comma) + ([RBracket] + rest), false) == Done(strings, rest)
  {
    var end := [RBracket] + rest;
    if strings == [] {
      CloseStep(rest, false);
      assert [] + end == end;
    } else {
      Nest([StringLit(strings[0])], MoreStrings(strings[1..], comma), end);
      StringStep(strings[0], MoreStrings(strings[1..], comma) + end);
      MoreStringsRead(strings[1..], comma, rest);
      assert strings == [strings[0]] + strings[1..];
    }
  }

  lemma BracketSplit(open: Token, inner: seq<Token>, close: Token, rest: seq<Token>)
    ensures var ts := [open] + (inner + [close]) + rest; ts[0] == open && ts[1..] == inner + ([close] + rest)
  {}

  /** A bracket is read when its contents are. */
  lemma BracketThen(n: Node, ts: seq<Token>, rest: seq<Token>)
    requires ts != []
    requires n.Strings? ==> ts[0] == LBracket && ReadStrings(ts[1..], false) == Done(n.strings, rest)
    requires n.Tests? ==> ts[0] == LParen && ReadTests(ts[1..]) == Done(TestsOf(n.tests), rest)
    requires n.Braces? ==> ts[0] == LBrace && ReadBlock(ts[1..]) == Done(StmtsOf(n.entries), rest)
    ensures !n.Leaf? ==> Starts(ts) && ReadItem(ts) == Done(FormOf(n), rest)
  {}

  lemma LeafRead(f: Form, rest: seq<Token>)
    requires f.Word? || f.Tag? || f.Str? || f.Num?
    ensures Starts([LeafToken(f)] + rest) && ReadItem([LeafToken(f)] + rest) == Done(f, rest)
  {
    assert ([LeafToken(f)] + rest)[1..] == rest;
  }

  lemma {:induction false} NodeRead(n: Node, rest: seq<Token>)
    requires ValidNode(n)
    ensures Starts(NodeText(n) + rest) && ReadItem(NodeText(n) + rest) == Done(FormOf(n), rest)
    decreases n, 0
  {
    match n
    case Leaf(form) =>
      LeafRead(form, rest);
    case Strings(strings, comma) =>
      BracketSplit(LBracket, StringsText(strings, comma), RBracket, rest);
      StringsRead(strings, comma, rest);
      BracketThen(n, NodeText(n) + rest, rest);
    case Tests(tests, comma) =>
      BracketSplit(LParen, TestsText(tests, comma), RParen, rest);
      TestsRead(tests, comma, rest);
      BracketThen(n, NodeText(n) + rest, rest);
    case Braces(entries) =>
      BracketSplit(LBrace, EntriesText(entries), RBrace, rest);
      EndAnywhere(entries, RBrace, [], rest);
      assert [RBrace] + [] == [RBrace];
      BlockRead(entries, rest);
      BracketThen(n, NodeText(n) + rest, rest);
  }

  /** Reading one form, and then what follows it. */
  lemma ItemThen(f: Form, ts: seq<Token>, tail: seq<Token>, mode: Mode, started: bool)
    requires Starts(ts) && ReadItem(ts) == Done(f, tail)
    ensures !f.Block? ==> ReadForms(ts, mode, started) == Prepend([f], ReadForms(tail, mode, true))
    ensures f.Block? && !(mode != Test && tail != [] && ContinuesBlock(tail[0])) ==>
              ReadForms(ts, mode, started) == Done([f], tail)
    ensures f.Block? && mode != Test && tail != [] && ContinuesBlock(tail[0]) ==>
              ReadForms(ts, mode, started) == Prepend([f, LeafForm(tail[0])], ReadForms(tail[1..], Clause, true))
  {}

  lemma NodesTextCons(ns: seq<Node>, end: seq<Token>)
    requires ns != []
    ensures NodesText(ns) + end == NodeText(ns[0]) + (NodesText(ns[1..]) + end)
    ensures ns == [ns[0]] + ns[1..]
  {
    Nest(NodeText(ns[0]), NodesText(ns[1..]), end);
  }

  lemma TwoForms(ns: seq<Node>)
    requires |ns| > 1
    ensures FormsOf(ns) == [FormOf(ns[0]), FormOf(ns[1])] + FormsOf(ns[2..])
  {
    assert ns[1..][1..] == ns[2..];
    assert FormsOf(ns) == [FormOf(ns[0])] + ([FormOf(ns[1])] + FormsOf(ns[2..]));
  }

  lemma KeywordToken(n: Node, tail: seq<Token>)
    requires IsKeyword(n)
    ensures var ts := NodeText(n) + tail; ts != [] && ContinuesBlock(ts[0]) && LeafForm(ts[0]) == FormOf(n) && ts[1..] == tail
  {}

  /** Braces that are not last are followed by their keyword. */
  lemma KeywordText(ns: seq<Node>, end: seq<Token>)
    requires |ns| > 1 && IsKeyword(ns[1])
    ensures var tail := NodesText(ns[1..]) + end;
            && tail != [] && ContinuesBlock(tail[0]) && LeafForm(tail[0]) == FormOf(ns[1])
            && tail[1..] == NodesText(ns[2..]) + end
  {
    assert ns[1..][1..] == ns[2..];
    NodesTextCons(ns[1..], end);
    KeywordToken(ns[1], NodesText(ns[2..]) + end);
  }

  lemma StopsAfterItem(ns: seq<Node>, mode: Mode, end: seq<Token>)
    requires ns != [] && !ns[0].Braces?
    ensures Stops(ns, mode, end) == Stops(ns[1..], mode, end) && HasBraces(ns) == HasBraces(ns[1..])
  {
    assert |ns| > 1 ==> ns[1..][|ns| - 2] == ns[|ns| - 1];
  }

  lemma {:induction false} LastBraces(ns: seq<Node>)
    requires EndsInBraces(ns)
    ensures HasBraces(ns)
  {
    if |ns| > 1 { LastBraces(ns[1..]); }
  }

  lemma StopsAfterKeyword(ns: seq<Node>, mode: Mode, end: seq<Token>)
    requires |ns| > 1 && ns[0].Braces? && IsKeyword(ns[1]) && mode != Test
    ensures Stops(ns, mode, end) == Stops(ns[2..], Clause, end) && HasBraces(ns)
  {
    if |ns| > 2 {
      assert ns[2..][|ns| - 3] == ns[|ns| - 1];
      if EndsInBraces(ns) { LastBraces(ns[2..]); }
    }
  }

  lemma {:induction false} NodesRead(ns: seq<Node>, mode: Mode, started: bool, end: seq<Token>)
    requires ValidNodes(ns, mode == Test) && Stops(ns, mode, end)
    ensures ReadForms(NodesText(ns) + end, mode, started) == Done(FormsOf(ns), Left(ns, mode, end))
    decreases ns, 1
  {
    if ns == [] {
      assert NodesText(ns) + end == end;
      if end != [] { BreaksOrStarts(end[0]); }
    } else {
      var tail := NodesText(ns[1..]) + end;
      NodesTextCons(ns, end);
      NodeRead(ns[0], tail);
      ItemThen(FormOf(ns[0]), NodesText(ns) + end, tail, mode, started);
      if !ns[0].Braces? {
        StopsAfterItem(ns, mode, end);
        NodesRead(ns[1..], mode, true, end);
      } else if |ns| > 1 {
        KeywordText(ns, end);
        TwoForms(ns);
        StopsAfterKeyword(ns, mode, end);
        ValidRest(ns, mode == Test);
        NodesRead(ns[2..], Clause, true, end);
      } else {
        assert tail == end && FormsOf(ns) == [FormOf(ns[0])];
      }
    }
  }

  lemma ValidRest(ns: seq<Node>, test: bool)
    requires |ns| > 1 && ValidNodes(ns, test)
    ensures ValidNodes(ns[2..], test)
  {
    assert ns[1..][1..] == ns[2..];
  }

  /** Nonempty nodes start with a form. */
  lemma FirstOfNodes(ns: seq<Node>, end: seq<Token>)
    requires ns != [] && ValidNode(ns[0])
    ensures Starts(NodesText(ns) + end)
    decreases ns, 1
  {
    NodesTextCons(ns, end);
    NodeRead(ns[0], NodesText(ns[1..]) + end);
  }

  /** Reading one test, and then what follows it. */
  lemma TestThen(ts: seq<Token>, forms: seq<Form>, end: seq<Token>)
    requires ts != [] && ts[0] != RParen && ReadForms(ts, Test, false) == Done(forms, end) && end != []
    ensures end[0] == Comma ==> ReadTests(ts) == Prepend([Stmt(forms)], ReadTests(end[1..]))
    ensures end[0] == RParen ==> ReadTests(ts) == Done([Stmt(forms)], end[1..])
  {}

  lemma LastCase(cs: seq<Case>)
    requires |cs| > 1
    ensures cs[1..][|cs| - 2] == cs[|cs| - 1]
  {}

  lemma ConsCase(ns: seq<Node>, more: seq<Case>, comma: bool, last: seq<Token>)
    requires more != []
    ensures TestsText([Case(ns)] + more, comma) + last == NodesText(ns) + ([Comma] + (TestsText(more, comma) + last))
    ensures TestsOf([Case(ns)] + more) == [Stmt(FormsOf(ns))] + TestsOf(more)
  {
    assert ([Case(ns)] + more)[1..] == more;
    Nest(NodesText(ns), [Comma] + TestsText(more, comma), last);
    Nest([Comma], TestsText(more, comma), last);
  }

  lemma OneCase(ns: seq<Node>, comma: bool, last: seq<Token>)
    ensures TestsText([Case(ns)], comma) + last == NodesText(ns) + ((if comma then [Comma] else []) + last)
    ensures TestsOf([Case(ns)]) == [Stmt(FormsOf(ns))]
  {
    assert [Case(ns)][1..] == [];
    Nest(NodesText(ns), if comma then [Comma] else [], last);
  }

  /** The first test of a list, up to the comma or parenthesis after it. */
  lemma FirstTestRead(ns: seq<Node>, end: seq<Token>)
    requires ValidNodes(ns, true) && end != [] && (end[0] == Comma || end[0] == RParen) && (ns == [] ==> end[0] == Comma)
    ensures var ts := NodesText(ns) + end;
            && (end[0] == Comma ==> ReadTests(ts) == Prepend([Stmt(FormsOf(ns))], ReadTests(end[1..])))
            && (end[0] == RParen ==> ReadTests(ts) == Done([Stmt(FormsOf(ns))], end[1..]))
    decreases ns, 2
  {
    TestStops(ns, end);
    NodesRead(ns, Test, false, end);
    if ns != [] { FirstOfNodes(ns, end); } else { assert NodesText(ns) + end == end; }
    TestThen(NodesText(ns) + end, FormsOf(ns), end);
  }

  lemma NoTests(rest: seq<Token>)
    ensures ReadTests([RParen] + rest) == Done([], rest)
  {
    assert ([RParen] + rest)[1..] == rest;
  }

  lemma {:induction false} TestsRead(cs: seq<Case>, comma: bool, rest: seq<Token>)
    requires ValidTests(cs) && (cs == [] ==> !comma) && (cs != [] && cs[|cs| - 1].nodes == [] ==> comma)
    ensures ReadTests(TestsText(cs, comma) + ([RParen] + rest)) == Done(TestsOf(cs), rest)
    decreases cs, 3
  {
    var last := [RParen] + rest;
    NoTests(rest);
    if cs == [] {
      assert [] + last == last;
    } else if |cs| == 1 {
      var ns, end := cs[0].nodes, (if comma then [Comma] else []) + last;
      assert cs == [Case(ns)];
      OneCase(ns, comma, last);
      FirstTestRead(ns, end);
      assert comma ==> end[1..] == last;
      assert !comma ==> end == last && end[1..] == rest;
    } else {
      var ns, end := cs[0].nodes, [Comma] + (TestsText(cs[1..], comma) + last);
      assert cs == [Case(ns)] + cs[1..];
      ConsCase(ns, cs[1..], comma, last);
      FirstTestRead(ns, end);
      assert end[1..] == TestsText(cs[1..], comma) + last;
      LastCase(cs);
      TestsRead(cs[1..], comma, rest);
    }
  }

  /** A test may be followed by a comma or the closing parenthesis. */
  lemma TestStops(ns: seq<Node>, end: seq<Token>)
    requires ValidNodes(ns, true) && end != [] && (end[0] == Comma || end[0] == RParen)
    ensures Stops(ns, Test, end) && Left(ns, Test, end) == end
  {
    if HasBraces(ns) { BracesLastInTest(ns); }
  }

  lemma {:induction false} BracesLastInTest(ns: seq<Node>)
    requires ValidNodes(ns, true) && HasBraces(ns)
    ensures EndsInBraces(ns)
  {
    if !ns[0].Braces? {
      BracesLastInTest(ns[1..]);
      assert ns[1..][|ns| - 2] == ns[|ns| - 1];
    }
  }

  /** Reading one command of a block or a script, and then what follows it. */
  lemma CommandThen(ts: seq<Token>, forms: seq<Form>, more: seq<Token>)
    requires Starts(ts) && forms != [] && ReadForms(ts, Command, false) == Done(forms, more)
    ensures ReadBlock(ts) == Prepend([Stmt(forms)], ReadBlock(more))
    ensures ReadScript(ts) == Prepend([Stmt(forms)], ReadScript(more))
  {}

  lemma EntriesTextCons(es: seq<Entry>, end: seq<Token>)
    requires es != []
    ensures var more := EntriesText(es[1..]) + end;
            EntriesText(es) + end == if es[0].Semi? then [Semicolon] + more else NodesText(es[0].nodes) + (Trail(es[0].nodes) + more)
  {
    var text := EntriesText(es[1..]);
    if es[0].Semi? {
      Nest([Semicolon], text, end);
    } else {
      Nest(NodesText(es[0].nodes), Trail(es[0].nodes) + text, end);
      Nest(Trail(es[0].nodes), text, end);
    }
  }

  lemma CommandRead(ns: seq<Node>, more: seq<Token>)
    requires ns != [] && ValidNodes(ns, false) && (HasBraces(ns) ==> Follows(ns, more))
    ensures var ts := NodesText(ns) + (Trail(ns) + more);
            Starts(ts) && ReadForms(ts, Command, false) == Done(FormsOf(ns), more)
    decreases ns, 2
  {
    var end := Trail(ns) + more;
    assert HasBraces(ns) ==> end == more;
    assert !HasBraces(ns) ==> end[1..] == more;
    FirstOfNodes(ns, end);
    NodesRead(ns, Command, false, end);
  }

  /** A semicolon that ends no command is skipped. */
  lemma SemiThen(more: seq<Token>)
    ensures ReadBlock([Semicolon] + more) == ReadBlock(more) && ReadScript([Semicolon] + more) == ReadScript(more)
  {
    assert ([Semicolon] + more)[1..] == more;
  }

  lemma {:induction false} BlockRead(es: seq<Entry>, rest: seq<Token>)
    requires ValidEntries(es, [RBrace] + rest)
    ensures ReadBlock(EntriesText(es) + ([RBrace] + rest)) == Done(StmtsOf(es), rest)
    decreases es, 2
  {
    var end := [RBrace] + rest;
    assert end[1..] == rest;
    if es == [] {
      assert [] + end == end;
    } else {
      var more := EntriesText(es[1..]) + end;
      EntriesTextCons(es, end);
      BlockRead(es[1..], rest);
      if es[0].Semi? {
        SemiThen(more);
      } else {
        var ns := es[0].nodes;
        CommandRead(ns, more);
        CommandThen(NodesText(ns) + (Trail(ns) + more), FormsOf(ns), more);
      }
    }
  }

  /** Entries are read one after the other, whatever follows them, as long as it does not join the last. */
  lemma {:induction false} EntriesRead(es: seq<Entry>, rest: seq<Token>)
    requires ValidEntries(es, rest)
    ensures ReadScript(EntriesText(es) + rest) == Prepend(StmtsOf(es), ReadScript(rest))
    decreases es
  {
    if es == [] {
      assert [] + rest == rest;
    } else {
      var more := EntriesText(es[1..]) + rest;
      EntriesTextCons(es, rest);
      EntriesRead(es[1..], rest);
      if es[0].Semi? {
        SemiThen(more);
      } else {
        var ns := es[0].nodes;
        CommandRead(ns, more);
        CommandThen(NodesText(ns) + (Trail(ns) + more), FormsOf(ns), more);
        PrependPrepend([Stmt(FormsOf(ns))], StmtsOf(es[1..]), ReadScript(rest));
      }
    }
  }

  /** Only the first token after entries matters to them. */
  lemma {:induction false} EndAnywhere(es: seq<Entry>, t: Token, a: seq<Token>, b: seq<Token>)
    ensures ValidEntries(es, [t] + a) == ValidEntries(es, [t] + b)
    decreases es, 0
  {
    if es != [] {
      EndAnywhere(es[1..], t, a, b);
      var text := EntriesText(es[1..]);
      assert (text + ([t] + a))[0] == (text + ([t] + b))[0];
    }
  }

  // ----- And nothing else is -----

  /** What one round of a string list reads. */
  lemma StringsUnfold(ts: seq<Token>, expectComma: bool)
    requires ReadStrings(ts, expectComma).Done?
    ensures ts != [] && ts == [ts[0]] + ts[1..]
    ensures ts[0] == RBracket || (expectComma && ts[0] == Comma) || (!expectComma && ts[0].StringLit?)
    ensures ts[0] == RBracket ==> ReadStrings(ts, expectComma) == Done([], ts[1..])
    ensures ts[0] == Comma ==> ReadStrings(ts, expectComma) == ReadStrings(ts[1..], false)
    ensures ts[0].StringLit? ==> ReadStrings(ts, expectComma) == Prepend([ts[0].text], ReadStrings(ts[1..], true))
  {}

  lemma {:induction false} StringsParse(ts: seq<Token>, expectComma: bool) returns (strings: seq<string>, comma: bool)
    requires ReadStrings(ts, expectComma).Done?
    ensures ReadStrings(ts, expectComma).value == strings
    ensures var end := [RBracket] + ReadStrings(ts, expectComma).rest;
            ts == (if expectComma then MoreStrings(strings, comma) else StringsText(strings, comma)) + end
    ensures !expectComma && strings == [] ==> !comma
    decreases |ts|
  {
    var end := [RBracket] + ReadStrings(ts, expectComma).rest;
    StringsUnfold(ts, expectComma);
    if ts[0] == RBracket {
      strings, comma := [], false;
      assert [] + end == end;
    } else if expectComma {
      strings, comma := StringsParse(ts[1..], false);
      if strings == [] {
        comma := true;
        assert ts[1..] == end;
      } else {
        assert ts == [Comma] + ([StringLit(strings[0])] + MoreStrings(strings[1..], comma) + end);
      }
    } else {
      var more;
      more, comma := StringsParse(ts[1..], true);
      strings := [ts[0].text] + more;
      assert strings[1..] == more;
      Nest([ts[0]], MoreStrings(more, comma), end);
    }
  }

  /** The contents of a bracket, in terms of which the bracket is read. */
  lemma BracketUnfold(ts: seq<Token>)
    requires ts != [] && Opens(ts[0]) && ReadItem(ts).Done?
    ensures ts[0] == LBracket ==> var p := ReadStrings(ts[1..], false); p.Done? && ReadItem(ts) == Done(StringList(p.value), p.rest)
    ensures ts[0] == LParen ==> var p := ReadTests(ts[1..]); p.Done? && ReadItem(ts) == Done(TestList(p.value), p.rest)
    ensures ts[0] == LBrace ==> var p := ReadBlock(ts[1..]); p.Done? && ReadItem(ts) == Done(Block(p.value), p.rest)
  {}

  lemma LeafParse(ts: seq<Token>)
    requires ts != [] && IsLeaf(ts[0])
    ensures ReadItem(ts) == Done(LeafForm(ts[0]), ts[1..]) && LeafToken(LeafForm(ts[0])) == ts[0]
    ensures ts == [ts[0]] + ts[1..]
  {}

  lemma BracketJoin(ts: seq<Token>, inner: seq<Token>, close: Token, rest: seq<Token>)
    requires ts != [] && ts[1..] == inner + ([close] + rest)
    ensures ts == [ts[0]] + (inner + [close]) + rest
  {
    assert ts == [ts[0]] + ts[1..];
  }

  lemma {:induction false} NodeParse(ts: seq<Token>) returns (n: Node)
    requires Starts(ts) && ReadItem(ts).Done?
    ensures ValidNode(n) && ReadItem(ts).value == FormOf(n) && ts == NodeText(n) + ReadItem(ts).rest
    decreases |ts|, 0
  {
    var rest := ReadItem(ts).rest;
    if IsLeaf(ts[0]) {
      LeafParse(ts);
      n := Leaf(LeafForm(ts[0]));
    } else {
      BracketUnfold(ts);
      match ts[0]
      case LBracket =>
        var strings, comma := StringsParse(ts[1..], false);
        n := Strings(strings, comma);
        BracketJoin(ts, StringsText(strings, comma), RBracket, rest);
      case LParen =>
        var tests, comma := TestsParse(ts[1..]);
        n := Tests(tests, comma);
        BracketJoin(ts, TestsText(tests, comma), RParen, rest);
      case LBrace =>
        var entries := BlockParse(ts[1..]);
        n := Braces(entries);
        EndAnywhere(entries, RBrace, [], rest);
        assert [RBrace] + [] == [RBrace];
        BracketJoin(ts, EntriesText(entries), RBrace, rest);
    }
  }

  lemma OneNode(n: Node, tail: seq<Token>)
    ensures NodesText([n]) + tail == NodeText(n) + tail && FormsOf([n]) == [FormOf(n)]
  {
    assert [n][1..] == [];
    assert NodeText(n) + [] == NodeText(n);
  }

  lemma ConsNode(n: Node, ns: seq<Node>, end: seq<Token>)
    ensures NodesText([n] + ns) + end == NodeText(n) + (NodesText(ns) + end)
    ensures FormsOf([n] + ns) == [FormOf(n)] + FormsOf(ns)
  {
    assert ([n] + ns)[1..] == ns;
    Nest(NodeText(n), NodesText(ns), end);
  }

  lemma EndParse(ts: seq<Token>, mode: Mode)
    requires ts != [] && !Starts(ts) && ReadEnd(ts, mode).Done?
    ensures Stops([], mode, ts) && ReadEnd(ts, mode) == Done([], Left([], mode, ts))
  {
    BreaksOrStarts(ts[0]);
  }

  /** A run of forms is a list of nodes, up to a place where such a list stops. */
  lemma {:induction false} NodesParse(ts: seq<Token>, mode: Mode, started: bool) returns (ns: seq<Node>, end: seq<Token>)
    requires ReadForms(ts, mode, started).Done? && (ts != [] || started)
    ensures ValidNodes(ns, mode == Test) && Stops(ns, mode, end) && ts == NodesText(ns) + end
    ensures ReadForms(ts, mode, started) == Done(FormsOf(ns), Left(ns, mode, end))
    ensures ns == [] ==> end == ts
    decreases |ts|, 1
  {
    if ts == [] || !Starts(ts) {
      ns, end := [], ts;
      assert [] + ts == ts;
      if ts != [] { EndParse(ts, mode); }
    } else {
      var n := NodeParse(ts);
      var tail := ReadItem(ts).rest;
      ItemThen(FormOf(n), ts, tail, mode, started);
      if !n.Braces? {
        var more;
        more, end := NodesParse(tail, mode, true);
        ConsNode(n, more, end);
        ns := [n] + more;
        assert ns[1..] == more;
        StopsAfterItem(ns, mode, end);
      } else if mode != Test && tail != [] && ContinuesBlock(tail[0]) {
        ns, end := ClauseParse(n, tail, mode);
      } else {
        ns, end := [n], tail;
        OneNode(n, tail);
      }
    }
  }

  lemma ConsClause(n: Node, word: Node, more: seq<Node>, mode: Mode, end: seq<Token>) returns (ns: seq<Node>)
    requires n.Braces? && ValidNode(n) && IsKeyword(word) && ValidNodes(more, false) && mode != Test && Stops(more, Clause, end)
    ensures ns != [] && ValidNodes(ns, false) && Stops(ns, mode, end) && Left(ns, mode, end) == end
    ensures NodesText(ns) + end == NodeText(n) + (NodeText(word) + (NodesText(more) + end))
    ensures FormsOf(ns) == [FormOf(n), FormOf(word)] + FormsOf(more)
  {
    ConsNode(word, more, end);
    ConsNode(n, [word] + more, end);
    ns := [n] + ([word] + more);
    assert ns[1..] == [word] + more && ns[1..][1..] == more && ns[2..] == more;
    StopsAfterKeyword(ns, mode, end);
    TwoForms(ns);
  }

  lemma {:induction false} ClauseParse(n: Node, tail: seq<Token>, mode: Mode) returns (ns: seq<Node>, end: seq<Token>)
    requires n.Braces? && ValidNode(n) && mode != Test && tail != [] && ContinuesBlock(tail[0])
    requires ReadForms(tail[1..], Clause, true).Done?
    ensures ns != [] && ValidNodes(ns, false) && Stops(ns, mode, end) && NodeText(n) + tail == NodesText(ns) + end
    ensures Prepend([FormOf(n), LeafForm(tail[0])], ReadForms(tail[1..], Clause, true)) == Done(FormsOf(ns), Left(ns, mode, end))
    decreases |tail|, 1
  {
    var word := Leaf(LeafForm(tail[0]));
    LeafParse(tail);
    var more;
    more, end := NodesParse(tail[1..], Clause, true);
    ns := ConsClause(n, word, more, mode, end);
  }

  /** What one round of a test list reads. */
  lemma TestsUnfold(ts: seq<Token>)
    requires ReadTests(ts).Done? && ts[0] != RParen
    ensures var p := ReadForms(ts, Test, false);
            && p.Done? && p.rest != [] && (p.rest[0] == Comma || p.rest[0] == RParen)
            && ReadTests(ts) == if p.rest[0] == Comma then Prepend([Stmt(p.value)], ReadTests(p.rest[1..])) else Done([Stmt(p.value)], p.rest[1..])
  {}

  /** A test in front of more; a comma after the last is a trailing one. */
  lemma AddCase(ns: seq<Node>, more: seq<Case>, trailing: bool, last: seq<Token>) returns (cs: seq<Case>, comma: bool)
    requires ValidNodes(ns, true) && ValidTests(more) && (more == [] ==> !trailing)
    requires more != [] && more[|more| - 1].nodes == [] ==> trailing
    ensures cs != [] && ValidTests(cs) && (cs[|cs| - 1].nodes == [] ==> comma)
    ensures TestsText(cs, comma) + last == NodesText(ns) + ([Comma] + (TestsText(more, trailing) + last))
    ensures TestsOf(cs) == [Stmt(FormsOf(ns))] + TestsOf(more)
  {
    cs := [Case(ns)] + more;
    assert cs[1..] == more;
    if more == [] {
      comma := true;
      assert cs == [Case(ns)] && [] + last == last;
      OneCase(ns, true, last);
    } else {
      comma := trailing;
      ConsCase(ns, more, comma, last);
      LastCase(cs);
    }
  }

  /** The last test of a list, before the closing parenthesis. */
  lemma LastTest(ns: seq<Node>, end: seq<Token>)
    requires end != [] && end[0] == RParen
    ensures NodesText(ns) + end == TestsText([Case(ns)], false) + ([RParen] + end[1..]) && TestsOf([Case(ns)]) == [Stmt(FormsOf(ns))]
  {
    var last := [RParen] + end[1..];
    assert end == last && [] + last == last;
    OneCase(ns, false, last);
  }

  /** A test, a comma and more tests. */
  lemma AddTest(ts: seq<Token>, ns: seq<Node>, end: seq<Token>, more: seq<Case>, trailing: bool, last: seq<Token>)
    returns (cs: seq<Case>, comma: bool)
    requires ts == NodesText(ns) + end && end != [] && end[0] == Comma && end[1..] == TestsText(more, trailing) + last
    requires ValidNodes(ns, true) && ValidTests(more) && (more == [] ==> !trailing)
    requires more != [] && more[|more| - 1].nodes == [] ==> trailing
    ensures cs != [] && ValidTests(cs) && (cs[|cs| - 1].nodes == [] ==> comma)
    ensures ts == TestsText(cs, comma) + last && TestsOf(cs) == [Stmt(FormsOf(ns))] + TestsOf(more)
  {
    assert end == [Comma] + end[1..];
    cs, comma := AddCase(ns, more, trailing, last);
  }

  lemma {:induction false} TestsParse(ts: seq<Token>) returns (cs: seq<Case>, comma: bool)
    requires ReadTests(ts).Done?
    ensures ValidTests(cs) && (cs == [] ==> !comma) && (cs != [] && cs[|cs| - 1].nodes == [] ==> comma)
    ensures ReadTests(ts).value == TestsOf(cs) && ts == TestsText(cs, comma) + ([RParen] + ReadTests(ts).rest)
    decreases |ts|, 3
  {
    if ts[0] == RParen {
      cs, comma := [], false;
      assert [] + ts == ts && ts == [RParen] + ts[1..];
    } else {
      cs, comma := FirstTestParse(ts);
    }
  }

  lemma {:induction false} FirstTestParse(ts: seq<Token>) returns (cs: seq<Case>, comma: bool)
    requires ReadTests(ts).Done? && ts[0] != RParen
    ensures cs != [] && ValidTests(cs) && (cs[|cs| - 1].nodes == [] ==> comma)
    ensures ReadTests(ts).value == TestsOf(cs) && ts == TestsText(cs, comma) + ([RParen] + ReadTests(ts).rest)
    decreases |ts|, 2
  {
    TestsUnfold(ts);
    var ns, end := NodesParse(ts, Test, false);
    if end[0] == Comma {
      var more, trailing := TestsParse(end[1..]);
      cs, comma := AddTest(ts, ns, end, more, trailing, [RParen] + ReadTests(ts).rest);
    } else {
      cs, comma := [Case(ns)], false;
      LastTest(ns, end);
      assert cs[1..] == [];
    }
  }

  lemma ConsSemi(es: seq<Entry>, end: seq<Token>)
    ensures EntriesText([Semi] + es) + end == [Semicolon] + (EntriesText(es) + end) && StmtsOf([Semi] + es) == StmtsOf(es)
    ensures ValidEntries([Semi] + es, end) == ValidEntries(es, end)
  {
    assert ([Semi] + es)[1..] == es;
    EntriesTextCons([Semi] + es, end);
  }

  lemma ConsCommand(ns: seq<Node>, es: seq<Entry>, end: seq<Token>)
    requires ns != [] && ValidNodes(ns, false) && ValidEntries(es, end)
    requires HasBraces(ns) ==> Follows(ns, EntriesText(es) + end)
    ensures ValidEntries([Line(ns)] + es, end) && StmtsOf([Line(ns)] + es) == [Stmt(FormsOf(ns))] + StmtsOf(es)
    ensures EntriesText([Line(ns)] + es) + end == NodesText(ns) + (Trail(ns) + (EntriesText(es) + end))
  {
    var all := [Line(ns)] + es;
    assert all[1..] == es;
    EntriesTextCons(all, end);
  }

  /** A command: its nodes, and what it leaves behind its semicolon, if it has one. */
  lemma CommandParse(ts: seq<Token>) returns (ns: seq<Node>)
    requires ts != [] && ts[0] != Semicolon && ReadForms(ts, Command, false).Done?
    ensures var left := ReadForms(ts, Command, false).rest;
            && ns != [] && ValidNodes(ns, false) && (HasBraces(ns) ==> Follows(ns, left))
            && ts == NodesText(ns) + (Trail(ns) + left) && ReadForms(ts, Command, false).value == FormsOf(ns)
    decreases |ts|, 2
  {
    var end;
    ns, end := NodesParse(ts, Command, false);
    assert HasBraces(ns) ==> [] + end == end;
    assert !HasBraces(ns) ==> end == [Semicolon] + end[1..];
  }

  lemma {:induction false} BlockParse(ts: seq<Token>) returns (es: seq<Entry>)
    requires ReadBlock(ts).Done?
    ensures ValidEntries(es, [RBrace] + ReadBlock(ts).rest) && ReadBlock(ts).value == StmtsOf(es)
    ensures ts == EntriesText(es) + ([RBrace] + ReadBlock(ts).rest)
    decreases |ts|, 3
  {
    var end := [RBrace] + ReadBlock(ts).rest;
    assert ts == [ts[0]] + ts[1..];
    if ts[0] == RBrace {
      es := [];
      assert [] + ts == ts;
    } else if ts[0] == Semicolon {
      es := BlockParse(ts[1..]);
      ConsSemi(es, end);
      es := [Semi] + es;
    } else {
      var ns := CommandParse(ts);
      es := BlockParse(ReadForms(ts, Command, false).rest);
      ConsCommand(ns, es, end);
      es := [Line(ns)] + es;
    }
  }

  lemma {:induction false} ScriptParse(ts: seq<Token>) returns (es: seq<Entry>)
    requires ReadScript(ts).Done?
    ensures ValidEntries(es, []) && ReadScript(ts).value == StmtsOf(es) && ts == EntriesText(es) + []
    decreases |ts|
  {
    if ts == [] {
      es := [];
    } else if ts[0] == Semicolon {
      es := ScriptParse(ts[1..]);
      ConsSemi(es, []);
      es := [Semi] + es;
      assert ts == [ts[0]] + ts[1..];
    } else {
      var ns := CommandParse(ts);
      es := ScriptParse(ReadForms(ts, Command, false).rest);
      ConsCommand(ns, es, []);
      es := [Line(ns)] + es;
    }
  }

  /** The reader gives a script for exactly the layouts of that script. */
  lemma ReadsIff(ts: seq<Token>, script: Script)
    ensures ReadScript(ts) == Done(script, [])
       <==> exists es :: ValidEntries(es, []) && EntriesText(es) == ts && StmtsOf(es) == script
  {
    if ReadScript(ts) == Done(script, []) {
      var es := ScriptParse(ts);
      assert EntriesText(es) + [] == EntriesText(es);
    }
    forall es | ValidEntries(es, []) && EntriesText(es) == ts && StmtsOf(es) == script
      ensures ReadScript(ts) == Done(script, [])
    {
      EntriesRead(es, []);
      assert EntriesText(es) + [] == ts && script + [] == script;
    }
  }
}
