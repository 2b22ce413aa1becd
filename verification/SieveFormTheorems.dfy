/** What the form reader promises for every token list and every script. */
module SieveFormTheorems {
  import opened Prelude
  import opened SieveGrammar
  import opened SieveForms
  import opened SieveLayouts

  // ----- Reading loses no word, tag, string or number, and checks every bracket -----

  function LeafOf(t: Token): seq<Token> {
    if IsLeaf(t) then [t] else []
  }

  function Leaves(ts: seq<Token>): seq<Token> {
    if ts == [] then [] else LeafOf(ts[0]) + Leaves(ts[1..])
  }

  /** The leaves of `strings`, followed by `tail`; likewise for the other syntactic classes. */
  function StringLeaves(strings: seq<string>, tail: seq<Token>): seq<Token> {
    if strings == [] then tail else [StringLit(strings[0])] + StringLeaves(strings[1..], tail)
  }

  function FormLeaves(f: Form, tail: seq<Token>): seq<Token>
    decreases f
  {
    match f
    case Word(s) => [Token.Word(s)] + tail
    case Tag(s) => [Token.Tag(s)] + tail
    case Str(s) => [StringLit(s)] + tail
    case Num(n) => [Number(n)] + tail
    case StringList(strings) => StringLeaves(strings, tail)
    case TestList(tests) => StmtLeaves(tests, tail)
    case Block(stmts) => StmtLeaves(stmts, tail)
  }

  function FormsLeaves(fs: seq<Form>, tail: seq<Token>): seq<Token>
    decreases fs
  {
    if fs == [] then tail else FormLeaves(fs[0], FormsLeaves(fs[1..], tail))
  }

  function StmtLeaves(stmts: seq<Stmt>, tail: seq<Token>): seq<Token>
    decreases stmts
  {
    if stmts == [] then tail else FormsLeaves(stmts[0].forms, StmtLeaves(stmts[1..], tail))
  }

  function Closer(t: Token): Token
    requires Opens(t)
  {
    match t case LBracket => RBracket case LParen => RParen case LBrace => RBrace
  }

  predicate Closes(t: Token) {
    t == RBracket || t == RParen || t == RBrace
  }

  /** The closing brackets still owed, innermost first. */
  datatype Owing = Settled | Owes(closer: Token, outer: Owing) | Mismatch

  function After(owed: Owing, t: Token): Owing {
    if owed.Mismatch? || !(Opens(t) || Closes(t)) then owed
    else if Opens(t) then Owes(Closer(t), owed)
    else if owed.Owes? && owed.closer == t then owed.outer
    else Mismatch
  }

  function Owed(ts: seq<Token>, owed: Owing): Owing {
    if ts == [] then owed else Owed(ts[1..], After(owed, ts[0]))
  }

  predicate ProperlyNested(ts: seq<Token>) {
    Owed(ts, Settled).Settled?
  }

  lemma {:induction false} LeavesAppend(a: seq<Token>, b: seq<Token>)
    ensures Leaves(a + b) == Leaves(a) + Leaves(b)
  {
    if a == [] {
      assert a + b == b;
    } else {
      assert (a + b)[1..] == a[1..] + b;
      LeavesAppend(a[1..], b);
    }
  }

  lemma {:induction false} OwedAppend(a: seq<Token>, b: seq<Token>, owed: Owing)
    ensures Owed(a + b, owed) == Owed(b, Owed(a, owed))
  {
    if a == [] {
      assert a + b == b;
    } else {
      assert (a + b)[1..] == a[1..] + b;
      OwedAppend(a[1..], b, After(owed, a[0]));
    }
  }

  lemma OneToken(t: Token, owed: Owing)
    ensures Leaves([t]) == LeafOf(t) && Owed([t], owed) == After(owed, t)
  {
    assert [t][1..] == [];
  }

  /** A text that closes what it opens, and no more. */
  predicate Neutral(ts: seq<Token>, owed: Owing) {
    Owed(ts, owed) == owed
  }

  lemma JoinFaithful(a: seq<Token>, b: seq<Token>, owed: Owing)
    requires Neutral(a, owed) && Neutral(b, owed)
    ensures Neutral(a + b, owed) && Leaves(a + b) == Leaves(a) + Leaves(b)
  {
    LeavesAppend(a, b);
    OwedAppend(a, b, owed);
  }

  /** A token that is neither a leaf nor a bracket leaves no trace. */
  lemma MarkFaithful(t: Token, owed: Owing)
    requires t == Comma || t == Semicolon
    ensures Neutral([t], owed) && Leaves([t]) == []
  {
    OneToken(t, owed);
  }

  lemma BracketFaithful(open: Token, inner: seq<Token>, owed: Owing)
    requires Opens(open) && !owed.Mismatch? && Neutral(inner, Owes(Closer(open), owed))
    ensures var ts := [open] + (inner + [Closer(open)]); Neutral(ts, owed) && Leaves(ts) == Leaves(inner)
  {
    var close := Closer(open);
    OneToken(open, owed);
    OneToken(close, Owes(close, owed));
    LeavesAppend([open], inner + [close]);
    LeavesAppend(inner, [close]);
    OwedAppend([open], inner + [close], owed);
    OwedAppend(inner, [close], Owes(close, owed));
  }

  lemma CommaStringFaithful(s: string, owed: Owing)
    ensures Neutral([Comma, StringLit(s)], owed) && Leaves([Comma, StringLit(s)]) == [StringLit(s)]
  {
    MarkFaithful(Comma, owed);
    OneToken(StringLit(s), owed);
    JoinFaithful([Comma], [StringLit(s)], owed);
    assert [Comma] + [StringLit(s)] == [Comma, StringLit(s)];
  }

  lemma {:induction false} MoreStringsFaithful(strings: seq<string>, comma: bool, tail: seq<Token>, owed: Owing)
    ensures Neutral(MoreStrings(strings, comma), owed) && StringLeaves(strings, tail) == Leaves(MoreStrings(strings, comma)) + tail
  {
    if strings == [] {
      MarkFaithful(Comma, owed);
      assert [] + tail == tail;
    } else {
      var more := MoreStrings(strings[1..], comma);
      MoreStringsFaithful(strings[1..], comma, tail, owed);
      CommaStringFaithful(strings[0], owed);
      JoinFaithful([Comma, StringLit(strings[0])], more, owed);
      Nest([StringLit(strings[0])], Leaves(more), tail);
    }
  }

  lemma StringsFaithful(strings: seq<string>, comma: bool, tail: seq<Token>, owed: Owing)
    ensures Neutral(StringsText(strings, comma), owed) && StringLeaves(strings, tail) == Leaves(StringsText(strings, comma)) + tail
  {
    if strings == [] {
      assert [] + tail == tail;
    } else {
      var first, more := [StringLit(strings[0])], MoreStrings(strings[1..], comma);
      MoreStringsFaithful(strings[1..], comma, tail, owed);
      OneToken(StringLit(strings[0]), owed);
      JoinFaithful(first, more, owed);
      Nest(first, Leaves(more), tail);
    }
  }

  lemma {:induction false} NodeFaithful(n: Node, tail: seq<Token>, owed: Owing)
    requires ValidNode(n) && !owed.Mismatch?
    ensures Neutral(NodeText(n), owed) && FormLeaves(FormOf(n), tail) == Leaves(NodeText(n)) + tail
    decreases n, 0
  {
    match n
    case Leaf(form) =>
      OneToken(LeafToken(form), owed);
    case Strings(strings, comma) =>
      StringsFaithful(strings, comma, tail, Owes(RBracket, owed));
      BracketFaithful(LBracket, StringsText(strings, comma), owed);
    case Tests(tests, comma) =>
      TestsFaithful(tests, comma, tail, Owes(RParen, owed));
      BracketFaithful(LParen, TestsText(tests, comma), owed);
    case Braces(entries) =>
      EntriesFaithful(entries, [RBrace], tail, Owes(RBrace, owed));
      BracketFaithful(LBrace, EntriesText(entries), owed);
  }

  lemma {:induction false} NodesFaithful(ns: seq<Node>, test: bool, tail: seq<Token>, owed: Owing)
    requires ValidNodes(ns, test) && !owed.Mismatch?
    ensures Neutral(NodesText(ns), owed) && FormsLeaves(FormsOf(ns), tail) == Leaves(NodesText(ns)) + tail
    decreases ns, 1
  {
    if ns == [] {
      assert [] + tail == tail;
    } else {
      var more := FormsLeaves(FormsOf(ns[1..]), tail);
      NodesFaithful(ns[1..], test, tail, owed);
      NodeFaithful(ns[0], more, owed);
      JoinFaithful(NodeText(ns[0]), NodesText(ns[1..]), owed);
      assert FormsOf(ns)[1..] == FormsOf(ns[1..]);
      Nest(Leaves(NodeText(ns[0])), Leaves(NodesText(ns[1..])), tail);
    }
  }

  lemma StmtLeavesCons(forms: seq<Form>, stmts: seq<Stmt>, tail: seq<Token>)
    ensures StmtLeaves([Stmt(forms)] + stmts, tail) == FormsLeaves(forms, StmtLeaves(stmts, tail))
  {
    assert ([Stmt(forms)] + stmts)[1..] == stmts;
  }

  lemma {:induction false} MoreTestsFaithful(cs: seq<Case>, comma: bool, tail: seq<Token>, owed: Owing)
    requires ValidTests(cs) && !owed.Mismatch?
    ensures Neutral(MoreTests(cs, comma), owed) && StmtLeaves(TestsOf(cs), tail) == Leaves(MoreTests(cs, comma)) + tail
    decreases cs, 2
  {
    MarkFaithful(Comma, owed);
    if cs == [] {
      assert [] + tail == tail;
    } else {
      var text, more := NodesText(cs[0].nodes), MoreTests(cs[1..], comma);
      MoreTestsFaithful(cs[1..], comma, tail, owed);
      NodesFaithful(cs[0].nodes, true, StmtLeaves(TestsOf(cs[1..]), tail), owed);
      StmtLeavesCons(FormsOf(cs[0].nodes), TestsOf(cs[1..]), tail);
      JoinFaithful(text, more, owed);
      JoinFaithful([Comma], text + more, owed);
      Nest(Leaves(text), Leaves(more), tail);
      assert [] + (Leaves(text) + Leaves(more)) == Leaves(text) + Leaves(more);
    }
  }

  lemma {:induction false} TestsFaithful(cs: seq<Case>, comma: bool, tail: seq<Token>, owed: Owing)
    requires ValidTests(cs) && !owed.Mismatch?
    ensures Neutral(TestsText(cs, comma), owed) && StmtLeaves(TestsOf(cs), tail) == Leaves(TestsText(cs, comma)) + tail
    decreases cs, 3
  {
    if cs == [] {
      assert [] + tail == tail;
    } else {
      var text, more := NodesText(cs[0].nodes), MoreTests(cs[1..], comma);
      MoreTestsFaithful(cs[1..], comma, tail, owed);
      NodesFaithful(cs[0].nodes, true, StmtLeaves(TestsOf(cs[1..]), tail), owed);
      StmtLeavesCons(FormsOf(cs[0].nodes), TestsOf(cs[1..]), tail);
      JoinFaithful(text, more, owed);
      Nest(Leaves(text), Leaves(more), tail);
    }
  }

  lemma TrailFaithful(ns: seq<Node>, more: seq<Token>, owed: Owing)
    requires Neutral(more, owed)
    ensures Neutral(Trail(ns) + more, owed) && Leaves(Trail(ns) + more) == Leaves(more)
  {
    if HasBraces(ns) {
      assert [] + more == more;
    } else {
      MarkFaithful(Semicolon, owed);
      JoinFaithful([Semicolon], more, owed);
    }
  }

  lemma {:induction false} EntriesFaithful(es: seq<Entry>, end: seq<Token>, tail: seq<Token>, owed: Owing)
    requires ValidEntries(es, end) && !owed.Mismatch?
    ensures Neutral(EntriesText(es), owed) && StmtLeaves(StmtsOf(es), tail) == Leaves(EntriesText(es)) + tail
    decreases es, 2
  {
    if es == [] {
      assert [] + tail == tail;
    } else {
      var more := EntriesText(es[1..]);
      EntriesFaithful(es[1..], end, tail, owed);
      if es[0].Semi? {
        MarkFaithful(Semicolon, owed);
        JoinFaithful([Semicolon], more, owed);
        assert [] + Leaves(more) == Leaves(more);
      } else {
        var ns := es[0].nodes;
        NodesFaithful(ns, false, StmtLeaves(StmtsOf(es[1..]), tail), owed);
        StmtLeavesCons(FormsOf(ns), StmtsOf(es[1..]), tail);
        TrailFaithful(ns, more, owed);
        JoinFaithful(NodesText(ns), Trail(ns) + more, owed);
        Nest(Leaves(NodesText(ns)), Leaves(more), tail);
      }
    }
  }

  /** The leaves of a script are the leaves of its tokens, in order, and its brackets match. */
  lemma ScriptFaithful(ts: seq<Token>)
    requires ReadScript(ts).Done?
    ensures StmtLeaves(ReadScript(ts).value, []) == Leaves(ts)
    ensures ProperlyNested(ts)
  {
    var es := ScriptParse(ts);
    assert ts == EntriesText(es);
    EntriesFaithful(es, [], [], Settled);
    assert Leaves(ts) + [] == Leaves(ts);
  }

  // ----- Exactly the well-formed scripts can be read, and printing them reads back -----

  /** Blocks end a test; in a command, a block that is not last is followed by elsif or else. */
  predicate WellFormed(fs: seq<Form>, mode: Mode)
    decreases fs
  {
    fs == [] ||
    (&& (fs[0].Block? && |fs| > 1 ==> mode != Test && (fs[1] == Form.Word("elsif") || fs[1] == Form.Word("else")))
     && (match fs[0]
         case TestList(tests) => WellFormedTests(tests)
         case Block(stmts) => WellFormedStmts(stmts)
         case _ => true)
     && WellFormed(fs[1..], mode))
  }

  predicate WellFormedTests(tests: seq<Stmt>)
    decreases tests
  {
    tests == [] || (WellFormed(tests[0].forms, Test) && WellFormedTests(tests[1..]))
  }

  /** Commands are never empty. */
  predicate WellFormedStmts(stmts: seq<Stmt>)
    decreases stmts
  {
    stmts == [] || (stmts[0].forms != [] && WellFormed(stmts[0].forms, Command) && WellFormedStmts(stmts[1..]))
  }

  /** A form that may stand where a command or test is read. */
  predicate WellFormedItem(f: Form) {
    (f.TestList? ==> WellFormedTests(f.tests)) && (f.Block? ==> WellFormedStmts(f.stmts))
  }

  lemma {:induction false} NodeIsWellFormed(n: Node)
    requires ValidNode(n)
    ensures WellFormedItem(FormOf(n))
    decreases n, 0
  {
    match n
    case Tests(tests, _) => CasesAreWellFormed(tests);
    case Braces(entries) => EntriesAreWellFormed(entries, [RBrace]);
    case _ =>
  }

  lemma {:induction false} NodesAreWellFormed(ns: seq<Node>, mode: Mode)
    requires ValidNodes(ns, mode == Test)
    ensures WellFormed(FormsOf(ns), mode)
    decreases ns, 1
  {
    if ns != [] {
      NodeIsWellFormed(ns[0]);
      NodesAreWellFormed(ns[1..], mode);
      assert FormsOf(ns)[1..] == FormsOf(ns[1..]);
      assert |ns| > 1 ==> FormsOf(ns)[1] == FormsOf(ns[1..])[0] == FormOf(ns[1]);
    }
  }

  lemma {:induction false} CasesAreWellFormed(cs: seq<Case>)
    requires ValidTests(cs)
    ensures WellFormedTests(TestsOf(cs))
    decreases cs, 2
  {
    if cs != [] {
      NodesAreWellFormed(cs[0].nodes, Test);
      CasesAreWellFormed(cs[1..]);
      assert TestsOf(cs)[1..] == TestsOf(cs[1..]);
    }
  }

  lemma {:induction false} EntriesAreWellFormed(es: seq<Entry>, end: seq<Token>)
    requires ValidEntries(es, end)
    ensures WellFormedStmts(StmtsOf(es))
    decreases es, 2
  {
    if es != [] {
      EntriesAreWellFormed(es[1..], end);
      if es[0].Line? {
        NodesAreWellFormed(es[0].nodes, Command);
        assert StmtsOf(es)[1..] == StmtsOf(es[1..]);
        assert |FormsOf(es[0].nodes)| == |es[0].nodes|;
      }
    }
  }

  /** Every script the reader accepts is well formed. */
  lemma ScriptReadWellFormed(ts: seq<Token>)
    requires ReadScript(ts).Done?
    ensures WellFormedStmts(ReadScript(ts).value)
  {
    var es := ScriptParse(ts);
    EntriesAreWellFormed(es, []);
  }

  // ----- Printing -----

  /** The plain layout of a form: no trailing commas but after an empty test. */
  function NodeFor(f: Form): Node
    decreases f
  {
    match f
    case StringList(strings) => Strings(strings, false)
    case TestList(tests) => Tests(CasesFor(tests), tests != [] && tests[|tests| - 1].forms == [])
    case Block(stmts) => Braces(EntriesFor(stmts))
    case _ => Leaf(f)
  }

  function NodesFor(fs: seq<Form>): (ns: seq<Node>)
    ensures |ns| == |fs|
    decreases fs
  {
    if fs == [] then [] else [NodeFor(fs[0])] + NodesFor(fs[1..])
  }

  function CasesFor(tests: seq<Stmt>): (cs: seq<Case>)
    ensures |cs| == |tests|
    decreases tests
  {
    if tests == [] then [] else [Case(NodesFor(tests[0].forms))] + CasesFor(tests[1..])
  }

  /** Each statement on its own, with a semicolon after it. */
  function EntriesFor(stmts: seq<Stmt>): seq<Entry>
    decreases stmts
  {
    if stmts == [] then []
    else [Line(NodesFor(stmts[0].forms))] + ((if HasBlock(stmts[0].forms) then [Semi] else []) + EntriesFor(stmts[1..]))
  }

  predicate HasBlock(fs: seq<Form>) {
    fs != [] && (fs[0].Block? || HasBlock(fs[1..]))
  }

  /** A statement that ends in a block needs no semicolon. */
  predicate EndsInBlock(fs: seq<Form>) {
    fs != [] && fs[|fs| - 1].Block?
  }

  function PrintForms(fs: seq<Form>): seq<Token> {
    NodesText(NodesFor(fs))
  }

  function PrintStmts(stmts: seq<Stmt>): seq<Token> {
    EntriesText(EntriesFor(stmts))
  }

  lemma {:induction false} NodeForMeans(f: Form)
    ensures FormOf(NodeFor(f)) == f
    decreases f
  {
    match f
    case TestList(tests) => CasesForMean(tests);
    case Block(stmts) => EntriesForMean(stmts);
    case _ =>
  }

  lemma {:induction false} NodesForMean(fs: seq<Form>)
    ensures FormsOf(NodesFor(fs)) == fs && HasBraces(NodesFor(fs)) == HasBlock(fs) && EndsInBraces(NodesFor(fs)) == EndsInBlock(fs)
    decreases fs
  {
    if fs != [] {
      NodeForMeans(fs[0]);
      NodesForMean(fs[1..]);
      assert NodesFor(fs)[1..] == NodesFor(fs[1..]);
      assert fs == [fs[0]] + fs[1..];
      if |fs| > 1 {
        assert fs[1..][|fs| - 2] == fs[|fs| - 1] && NodesFor(fs)[|fs| - 1] == NodesFor(fs[1..])[|fs| - 2];
      }
    }
  }

  lemma TestsOfCons(ns: seq<Node>, cs: seq<Case>)
    ensures TestsOf([Case(ns)] + cs) == [Stmt(FormsOf(ns))] + TestsOf(cs)
  {
    assert ([Case(ns)] + cs)[1..] == cs;
  }

  lemma {:induction false} CasesForMean(tests: seq<Stmt>)
    ensures TestsOf(CasesFor(tests)) == tests
    decreases tests
  {
    if tests != [] {
      NodesForMean(tests[0].forms);
      CasesForMean(tests[1..]);
      TestsOfCons(NodesFor(tests[0].forms), CasesFor(tests[1..]));
      assert tests == [Stmt(tests[0].forms)] + tests[1..];
    }
  }

  lemma {:induction false} EntriesForMean(stmts: seq<Stmt>)
    ensures StmtsOf(EntriesFor(stmts)) == stmts
    decreases stmts
  {
    if stmts != [] {
      var es := EntriesFor(stmts[1..]);
      var more := (if HasBlock(stmts[0].forms) then [Semi] else []) + es;
      NodesForMean(stmts[0].forms);
      EntriesForMean(stmts[1..]);
      assert EntriesFor(stmts)[1..] == more;
      assert if HasBlock(stmts[0].forms) then more[1..] == es else more == es;
      assert stmts == [Stmt(stmts[0].forms)] + stmts[1..];
    }
  }

  lemma {:induction false} CasesForLast(tests: seq<Stmt>)
    requires tests != []
    ensures CasesFor(tests)[|tests| - 1] == Case(NodesFor(tests[|tests| - 1].forms))
    decreases |tests|
  {
    if |tests| > 1 {
      CasesForLast(tests[1..]);
      assert tests[1..][|tests| - 2] == tests[|tests| - 1];
      assert CasesFor(tests)[|tests| - 1] == CasesFor(tests[1..])[|tests| - 2];
    }
  }

  lemma {:induction false} NodeForIsValid(f: Form)
    requires WellFormedItem(f)
    ensures ValidNode(NodeFor(f))
    decreases f, 0
  {
    match f
    case TestList(tests) =>
      CasesForAreValid(tests);
      if tests != [] { CasesForLast(tests); }
    case Block(stmts) => EntriesForAreValid(stmts, [RBrace]);
    case _ =>
  }

  lemma {:induction false} NodesForAreValid(fs: seq<Form>, mode: Mode)
    requires WellFormed(fs, mode)
    ensures ValidNodes(NodesFor(fs), mode == Test)
    decreases fs, 1
  {
    if fs != [] {
      NodeForIsValid(fs[0]);
      NodesForAreValid(fs[1..], mode);
      assert NodesFor(fs)[1..] == NodesFor(fs[1..]);
      assert |fs| > 1 ==> NodesFor(fs)[1] == NodesFor(fs[1..])[0] == NodeFor(fs[1]);
    }
  }

  lemma {:induction false} CasesForAreValid(tests: seq<Stmt>)
    requires WellFormedTests(tests)
    ensures ValidTests(CasesFor(tests))
    decreases tests, 2
  {
    if tests != [] {
      NodesForAreValid(tests[0].forms, Test);
      CasesForAreValid(tests[1..]);
      assert CasesFor(tests)[1..] == CasesFor(tests[1..]);
    }
  }

  /** A semicolon may follow any command. */
  lemma SemiFollows(ns: seq<Node>, es: seq<Entry>, end: seq<Token>)
    ensures Follows(ns, EntriesText([Semi] + es) + end)
  {
    assert ([Semi] + es)[1..] == es;
    assert (EntriesText([Semi] + es) + end)[0] == Semicolon;
  }

  lemma {:induction false} EntriesForAreValid(stmts: seq<Stmt>, end: seq<Token>)
    requires WellFormedStmts(stmts)
    ensures ValidEntries(EntriesFor(stmts), end)
    decreases stmts, 2
  {
    if stmts != [] {
      var ns, es := NodesFor(stmts[0].forms), EntriesFor(stmts[1..]);
      NodesForMean(stmts[0].forms);
      NodesForAreValid(stmts[0].forms, Command);
      EntriesForAreValid(stmts[1..], end);
      if HasBlock(stmts[0].forms) {
        ConsSemi(es, end);
        SemiFollows(ns, es, end);
        ConsCommand(ns, [Semi] + es, end);
      } else {
        ConsCommand(ns, es, end);
        assert [] + es == es;
      }
    }
  }

  /** Printed statements are read one after the other, whatever follows them. */
  lemma ScriptReadsOn(stmts: Script, rest: seq<Token>)
    requires WellFormedStmts(stmts)
    ensures ReadScript(PrintStmts(stmts) + rest) == Prepend(stmts, ReadScript(rest))
  {
    EntriesForAreValid(stmts, rest);
    EntriesForMean(stmts);
    EntriesRead(EntriesFor(stmts), rest);
  }

  /** Reading what is printed for a well-formed script gives that script. */
  lemma ScriptReadBack(stmts: Script)
    requires WellFormedStmts(stmts)
    ensures ReadScript(PrintStmts(stmts)) == Done(stmts, [])
  {
    ScriptReadsOn(stmts, []);
    assert PrintStmts(stmts) + [] == PrintStmts(stmts);
  }

  /** The readable scripts are exactly the well-formed ones. */
  lemma ReadableIffWellFormed(stmts: Script)
    ensures WellFormedStmts(stmts) <==> exists ts :: ReadScript(ts) == Done(stmts, [])
  {
    if WellFormedStmts(stmts) {
      ScriptReadBack(stmts);
    }
    forall ts | ReadScript(ts) == Done(stmts, []) ensures WellFormedStmts(stmts) {
      ScriptReadWellFormed(ts);
    }
  }

  // ----- Statements whose terminator is missing -----

  /** A command without a block that is never terminated is an error. */
  lemma {:induction false} OpenCommandFails(ns: seq<Node>, started: bool)
    requires ValidNodes(ns, false) && !HasBraces(ns) && (ns != [] || started)
    ensures ReadForms(NodesText(ns) + [], Command, started).Fail?
    decreases ns
  {
    if ns == [] {
      assert NodesText(ns) + [] == [];
    } else {
      var tail := NodesText(ns[1..]) + [];
      NodesTextCons(ns, []);
      NodeRead(ns[0], tail);
      ItemThen(FormOf(ns[0]), NodesText(ns) + [], tail, Command, started);
      OpenCommandFails(ns[1..], true);
    }
  }

  /** What becomes of an input that stops without a terminator. */
  lemma UnterminatedInput(prior: Script, fs: seq<Form>)
    requires WellFormedStmts(prior) && WellFormed(fs, Command) && fs != []
    ensures ReadScript(PrintStmts(prior) + PrintForms(fs))
         == if HasBlock(fs) then Done(prior + [Stmt(fs)], []) else Fail
  {
    var ns, ts := NodesFor(fs), PrintForms(fs);
    ScriptReadsOn(prior, ts);
    NodesForMean(fs);
    NodesForAreValid(fs, Command);
    assert ts + [] == ts;
    if HasBlock(fs) {
      CommandRead(ns, []);
      assert Trail(ns) + [] == [];
      CommandThen(ts, fs, []);
      assert ReadScript([]) == Done([], []) && [Stmt(fs)] + [] == [Stmt(fs)];
    } else {
      FirstOfNodes(ns, []);
      OpenCommandFails(ns, false);
    }
  }

  /**
   Input that stops inside a statement, after neither its semicolon nor the block that ends it, is
   promised to be an error. It is one exactly when the statement holds no block at all: one that
   goes on after a block may stop anywhere.
   */
  lemma MissingTerminatorReportedIff(prior: Script, fs: seq<Form>)
    requires WellFormedStmts(prior) && WellFormed(fs, Command) && fs != [] && !EndsInBlock(fs)
    ensures ReadScript(PrintStmts(prior) + PrintForms(fs)).Fail? <==> !HasBlock(fs)
    ensures HasBlock(fs) ==> ReadScript(PrintStmts(prior) + PrintForms(fs)) == Done(prior + [Stmt(fs)], [])
  {
    UnterminatedInput(prior, fs);
  }

  lemma {:induction false} LastBlockIsBlock(fs: seq<Form>)
    requires EndsInBlock(fs)
    ensures HasBlock(fs)
  {
    if |fs| > 1 { LastBlockIsBlock(fs[1..]); }
  }

  /** A statement that ends in a block is complete without a semicolon, at the end of the input too. */
  lemma BlockEndsStatement(prior: Script, fs: seq<Form>)
    requires WellFormedStmts(prior) && WellFormed(fs, Command) && EndsInBlock(fs)
    ensures ReadScript(PrintStmts(prior) + PrintForms(fs)) == Done(prior + [Stmt(fs)], [])
  {
    LastBlockIsBlock(fs);
    UnterminatedInput(prior, fs);
  }

  /** A block, then `else`, then nothing: no error. */
  lemma DanglingElseAccepted(prior: Script)
    requires WellFormedStmts(prior)
    ensures var fs := [Block([]), Form.Word("else")];
            !EndsInBlock(fs) && ReadScript(PrintStmts(prior) + PrintForms(fs)) == Done(prior + [Stmt(fs)], [])
  {
    var fs := [Block([]), Form.Word("else")];
    assert fs[1..] == [Form.Word("else")] && fs[1..][1..] == [];
    MissingTerminatorReportedIff(prior, fs);
  }
}
