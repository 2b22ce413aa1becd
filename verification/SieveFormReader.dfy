/** The reader as written: loops that advance a position and push onto the list being built. */
module SieveFormReader {
  import opened Prelude
  import opened SieveGrammar
  import opened SieveForms

  method ReadStringList(tokens: seq<Token>, start: nat) returns (r: Option<(seq<string>, nat)>)
    requires start <= |tokens|
    ensures Returns(r, ReadStrings(tokens[start..], false), tokens)
  {
    var list: seq<string> := [];
    var pos := start;
    var expectComma := false;
    while pos < |tokens|
      invariant start <= pos <= |tokens|
      invariant ReadStrings(tokens[start..], false) == Prepend(list, ReadStrings(tokens[pos..], expectComma))
    {
      Drop(tokens, pos);
      match tokens[pos] {
        case RBracket =>
          return Some((list, pos + 1));
        case Comma =>
          if !expectComma { return None; }
          expectComma := false;
        case StringLit(s) =>
          if expectComma { return None; }
          PrependPrepend(list, [s], ReadStrings(tokens[pos + 1..], true));
          list := list + [s];
          expectComma := true;
        case _ =>
          return None;
      }
      pos := pos + 1;
    }
    r := None;
  }

  /** The cases `read_stmt`, its elsif/else loop and `read_test_stmt` have in common. */
  method ReadOne(tokens: seq<Token>, pos: nat) returns (r: Option<(Form, nat)>)
    requires pos < |tokens| && (IsLeaf(tokens[pos]) || Opens(tokens[pos]))
    ensures Returns(r, ReadItem(tokens[pos..]), tokens)
    decreases |tokens| - pos, 0
  {
    Drop(tokens, pos);
    match tokens[pos]
    case LBracket =>
      var list := ReadStringList(tokens, pos + 1);
      r := if list.None? then None else Some((StringList(list.value.0), list.value.1));
    case LParen =>
      var tests := ReadTestList(tokens, pos + 1);
      r := if tests.None? then None else Some((TestList(tests.value.0), tests.value.1));
    case LBrace =>
      var block := ReadBraced(tokens, pos + 1);
      r := if block.None? then None else Some((Block(block.value.0), block.value.1));
    case _ =>
      r := Some((LeafForm(tokens[pos]), pos + 1));
  }

  /** What follows a block that was just read: nothing, or an elsif/else clause. */
  ghost function AfterBlock(ts: seq<Token>): Parse<Token, seq<Form>> {
    if ts != [] && ContinuesBlock(ts[0]) then Prepend([LeafForm(ts[0])], ReadForms(ts[1..], Clause, true)) else Done([], ts)
  }

  lemma ItemStep(stmt: seq<Form>, ts: seq<Token>, mode: Mode, started: bool)
    requires mode != Test && ts != [] && (IsLeaf(ts[0]) || Opens(ts[0])) && ReadItem(ts).Done?
    ensures var Done(item, rest) := ReadItem(ts);
            Prepend(stmt, ReadForms(ts, mode, started))
            == Prepend(stmt + [item], if item.Block? then AfterBlock(rest) else ReadForms(rest, mode, true))
  {
    var Done(item, rest) := ReadItem(ts);
    var tail := if item.Block? then AfterBlock(rest) else ReadForms(rest, mode, true);
    PrependPrepend(stmt, [item], tail);
    if item.Block? && rest != [] && ContinuesBlock(rest[0]) {
      PrependPrepend([item], [LeafForm(rest[0])], ReadForms(rest[1..], Clause, true));
      assert [item] + [LeafForm(rest[0])] == [item, LeafForm(rest[0])];
    }
  }

  method ReadStmt(tokens: seq<Token>, start: nat) returns (r: Option<(seq<Form>, nat)>)
    requires start <= |tokens|
    ensures Returns(r, ReadForms(tokens[start..], Command, false), tokens)
    decreases |tokens| - start, 1
  {
    var stmt: seq<Form> := [];
    var pos := start;
    while pos < |tokens|
      invariant start <= pos <= |tokens|
      invariant ReadForms(tokens[start..], Command, false) == Prepend(stmt, ReadForms(tokens[pos..], Command, stmt != []))
    {
      Drop(tokens, pos);
      if tokens[pos] == Semicolon {
        return Some((stmt, pos + 1));
      }
      if !IsLeaf(tokens[pos]) && !Opens(tokens[pos]) {
        return None;
      }
      var item := ReadOne(tokens, pos);
      if item.None? { return None; }
      var next := item.value.1;
      ItemStep(stmt, tokens[pos..], Command, stmt != []);
      if item.value.0.Block? {
        r := AbsorbClauses(tokens, next, stmt + [item.value.0]);
        return;
      }
      stmt, pos := stmt + [item.value.0], next;
    }
    r := if stmt == [] then Some((stmt, pos)) else None;
  }

  /** The loop that pulls trailing elsif/else clauses into the statement. */
  method AbsorbClauses(tokens: seq<Token>, start: nat, before: seq<Form>) returns (r: Option<(seq<Form>, nat)>)
    requires start <= |tokens|
    ensures Returns(r, Prepend(before, AfterBlock(tokens[start..])), tokens)
    decreases |tokens| - start, 1
  {
    var stmt, pos := before, start;
    while pos < |tokens| && ContinuesBlock(tokens[pos])
      invariant start <= pos <= |tokens|
      invariant Prepend(before, AfterBlock(tokens[start..])) == Prepend(stmt, AfterBlock(tokens[pos..]))
    {
      Drop(tokens, pos);
      PrependPrepend(stmt, [LeafForm(tokens[pos])], ReadForms(tokens[pos + 1..], Clause, true));
      stmt, pos := stmt + [LeafForm(tokens[pos])], pos + 1;
      var blockRead := false;
      while !blockRead && pos < |tokens| && (IsLeaf(tokens[pos]) || Opens(tokens[pos]))
        invariant start <= pos <= |tokens|
        invariant !blockRead ==> Prepend(before, AfterBlock(tokens[start..])) == Prepend(stmt, ReadForms(tokens[pos..], Clause, true))
        invariant blockRead ==> Prepend(before, AfterBlock(tokens[start..])) == Prepend(stmt, AfterBlock(tokens[pos..]))
        decreases |tokens| - pos
      {
        Drop(tokens, pos);
        var item := ReadOne(tokens, pos);
        if item.None? { return None; }
        var next := item.value.1;
        blockRead := item.value.0.Block?;
        ItemStep(stmt, tokens[pos..], Clause, true);
        stmt, pos := stmt + [item.value.0], next;
      }
      if !blockRead {
        assert pos < |tokens| ==> tokens[pos..][0] == tokens[pos];
        return Some((stmt, pos));
      }
    }
    assert pos < |tokens| ==> tokens[pos..][0] == tokens[pos];
    r := Some((stmt, pos));
  }

  /** Having read `tests`, the list from `start` goes on at `pos`. */
  ghost predicate InTests(tokens: seq<Token>, start: nat, tests: seq<Stmt>, pos: nat) {
    start <= pos <= |tokens| && ReadTests(tokens[start..]) == Prepend(tests, ReadTests(tokens[pos..]))
  }

  lemma TestsEnd(tokens: seq<Token>, start: nat, tests: seq<Stmt>, pos: nat)
    requires InTests(tokens, start, tests, pos) && (pos == |tokens| || tokens[pos] == RParen)
    ensures Returns(if pos < |tokens| then Some((tests, pos + 1)) else None, ReadTests(tokens[start..]), tokens)
  {
    if pos < |tokens| { Drop(tokens, pos); }
  }

  lemma TestFails(tokens: seq<Token>, start: nat, tests: seq<Stmt>, pos: nat)
    requires InTests(tokens, start, tests, pos) && pos < |tokens| && tokens[pos] != RParen
    requires ReadForms(tokens[pos..], Test, false).Fail?
    ensures ReadTests(tokens[start..]).Fail?
  {
    Drop(tokens, pos);
  }

  /** After a test: a comma and more tests, the end of the list, or an error. */
  lemma TestStep(tokens: seq<Token>, start: nat, tests: seq<Stmt>, pos: nat, forms: seq<Form>, next: nat)
    requires InTests(tokens, start, tests, pos) && pos < |tokens| && tokens[pos] != RParen
    requires next <= |tokens| && ReadForms(tokens[pos..], Test, false) == Done(forms, tokens[next..])
    ensures pos <= next
    ensures next < |tokens| && tokens[next] == Comma ==> InTests(tokens, start, tests + [Stmt(forms)], next + 1)
    ensures next < |tokens| && tokens[next] == RParen ==>
              Returns(Some((tests + [Stmt(forms)], next + 1)), ReadTests(tokens[start..]), tokens)
    ensures next == |tokens| || (tokens[next] != Comma && tokens[next] != RParen) ==> ReadTests(tokens[start..]).Fail?
  {
    assert |tokens[next..]| <= |tokens[pos..]|;
    Drop(tokens, pos);
    if next < |tokens| {
      Drop(tokens, next);
      PrependPrepend(tests, [Stmt(forms)], ReadTests(tokens[next + 1..]));
    }
  }

  method ReadTestList(tokens: seq<Token>, start: nat) returns (r: Option<(seq<Stmt>, nat)>)
    requires start <= |tokens|
    ensures Returns(r, ReadTests(tokens[start..]), tokens)
    decreases |tokens| - start, 2
  {
    var tests: seq<Stmt> := [];
    var pos := start;
    while pos < |tokens|
      invariant InTests(tokens, start, tests, pos)
    {
      if tokens[pos] == RParen {
        TestsEnd(tokens, start, tests, pos);
        return Some((tests, pos + 1));
      }
      var test := ReadTestStmt(tokens, pos);
      if test.None? {
        TestFails(tokens, start, tests, pos);
        return None;
      }
      var next := test.value.1;
      TestStep(tokens, start, tests, pos, test.value.0, next);
      if next >= |tokens| { return None; }
      tests := tests + [Stmt(test.value.0)];
      if tokens[next] == Comma {
        pos := next + 1;
      } else if tokens[next] == RParen {
        return Some((tests, next + 1));
      } else {
        return None;
      }
    }
    TestsEnd(tokens, start, tests, pos);
    r := None;
  }

  method ReadTestStmt(tokens: seq<Token>, start: nat) returns (r: Option<(seq<Form>, nat)>)
    requires start <= |tokens|
    ensures Returns(r, ReadForms(tokens[start..], Test, false), tokens)
    decreases |tokens| - start, 1
  {
    var stmt: seq<Form> := [];
    var pos := start;
    while pos < |tokens|
      invariant start <= pos <= |tokens|
      invariant ReadForms(tokens[start..], Test, false) == Prepend(stmt, ReadForms(tokens[pos..], Test, stmt != []))
    {
      Drop(tokens, pos);
      if tokens[pos] == Comma || tokens[pos] == RParen {
        return Some((stmt, pos));
      }
      if !IsLeaf(tokens[pos]) && !Opens(tokens[pos]) {
        return None;
      }
      var item := ReadOne(tokens, pos);
      if item.None? { return None; }
      var next := item.value.1;
      if item.value.0.Block? {
        return Some((stmt + [item.value.0], next));
      }
      PrependPrepend(stmt, [item.value.0], ReadForms(tokens[next..], Test, true));
      stmt, pos := stmt + [item.value.0], next;
    }
    r := if stmt == [] then Some((stmt, pos)) else None;
  }

  method ReadBraced(tokens: seq<Token>, start: nat) returns (r: Option<(seq<Stmt>, nat)>)
    requires start <= |tokens|
    ensures Returns(r, ReadBlock(tokens[start..]), tokens)
    decreases |tokens| - start, 2
  {
    var stmts: seq<Stmt> := [];
    var pos := start;
    while pos < |tokens|
      invariant start <= pos <= |tokens|
      invariant ReadBlock(tokens[start..]) == Prepend(stmts, ReadBlock(tokens[pos..]))
    {
      Drop(tokens, pos);
      if tokens[pos] == RBrace {
        return Some((stmts, pos + 1));
      }
      if tokens[pos] == Semicolon {
        pos := pos + 1;
        continue;
      }
      var stmt := ReadStmt(tokens, pos);
      if stmt.None? { return None; }
      var more := if stmt.value.0 == [] then [] else [Stmt(stmt.value.0)];
      PrependPrepend(stmts, more, ReadBlock(tokens[stmt.value.1..]));
      stmts, pos := stmts + more, stmt.value.1;
    }
    r := None;
  }

  method ReadTokens(tokens: seq<Token>) returns (r: Option<Script>)
    ensures r == match ReadScript(tokens) case Fail => None case Done(script, _) => Some(script)
  {
    var script: Script := [];
    var pos := 0;
    assert tokens[0..] == tokens;
    while pos < |tokens|
      invariant 0 <= pos <= |tokens|
      invariant ReadScript(tokens) == Prepend(script, ReadScript(tokens[pos..]))
    {
      Drop(tokens, pos);
      if tokens[pos] == Semicolon {
        pos := pos + 1;
        continue;
      }
      var stmt := ReadStmt(tokens, pos);
      if stmt.None? { return None; }
      var more := if stmt.value.0 == [] then [] else [Stmt(stmt.value.0)];
      PrependPrepend(script, more, ReadScript(tokens[stmt.value.1..]));
      script, pos := script + more, stmt.value.1;
    }
    r := Some(script);
  }
}
