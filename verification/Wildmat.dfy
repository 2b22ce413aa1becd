/** Wildcard patterns over newsgroup names: crates/core/src/wildmat.rs. */
module Wildmat {
  import opened Prelude

  const STAR: byte := 42
  const QUERY: byte := 63
  const BANG: byte := 33

  // ----- The language of a pattern -----

  /** What one pattern byte stands for. */
  predicate Stands(p: byte, piece: seq<byte>) {
    p == STAR || (|piece| == 1 && (p == QUERY || piece[0] == p))
  }

  predicate StandsAt(text: seq<byte>, pattern: seq<byte>, cuts: seq<nat>, j: nat)
    requires j < |pattern| && |cuts| == |pattern| + 1
  {
    cuts[j] <= cuts[j + 1] <= |text| && Stands(pattern[j], text[cuts[j]..cuts[j + 1]])
  }

  /** `cuts` splits the text into one piece per pattern byte. */
  predicate Splits(text: seq<byte>, pattern: seq<byte>, cuts: seq<nat>) {
    && |cuts| == |pattern| + 1
    && cuts[0] == 0 && cuts[|pattern|] == |text|
    && forall j :: 0 <= j < |pattern| ==> StandsAt(text, pattern, cuts, j)
  }

  ghost predicate Matches(text: seq<byte>, pattern: seq<byte>) {
    exists cuts: seq<nat> :: Splits(text, pattern, cuts)
  }

  lemma MatchesNothing(text: seq<byte>)
    ensures Matches(text, []) <==> text == []
  {
    assert text == [] ==> Splits(text, [], [0]);
  }

  /** A match ends with a piece for the last pattern byte. */
  lemma MatchesLast(text: seq<byte>, pattern: seq<byte>, p: byte, k: nat)
    requires k <= |text|
    ensures Matches(text[..k], pattern) && Stands(p, text[k..]) ==> Matches(text, pattern + [p])
  {
    if Matches(text[..k], pattern) && Stands(p, text[k..]) {
      var cuts: seq<nat> :| Splits(text[..k], pattern, cuts);
      var longer: seq<nat> := cuts + [|text|];
      var n := |pattern|;
      forall j | 0 <= j < n + 1 ensures StandsAt(text, pattern + [p], longer, j) {
        if j < n {
          assert StandsAt(text[..k], pattern, cuts, j);
          assert text[..k][cuts[j]..cuts[j + 1]] == text[cuts[j]..cuts[j + 1]];
        } else {
          assert text[k..|text|] == text[k..];
        }
      }
      assert Splits(text, pattern + [p], longer);
    }
  }

  lemma MatchesUnlast(text: seq<byte>, pattern: seq<byte>, p: byte) returns (k: nat)
    requires Matches(text, pattern + [p])
    ensures k <= |text| && Matches(text[..k], pattern) && Stands(p, text[k..])
  {
    var cuts: seq<nat> :| Splits(text, pattern + [p], cuts);
    var n := |pattern|;
    k := cuts[n];
    assert StandsAt(text, pattern + [p], cuts, n) && text[k..|text|] == text[k..];
    var shorter := cuts[..n + 1];
    forall j | 0 <= j < n ensures cuts[j] <= cuts[j + 1] { assert StandsAt(text, pattern + [p], cuts, j); }
    AscendingCuts(cuts, n);
    forall j | 0 <= j < n ensures StandsAt(text[..k], pattern, shorter, j) {
      assert StandsAt(text, pattern + [p], cuts, j);
      assert text[..k][cuts[j]..cuts[j + 1]] == text[cuts[j]..cuts[j + 1]];
    }
    assert Splits(text[..k], pattern, shorter);
  }

  lemma {:induction false} AscendingCuts(cuts: seq<nat>, n: nat)
    requires n < |cuts| && forall j {:trigger cuts[j]} :: 0 <= j < n ==> cuts[j] <= cuts[j + 1]
    ensures forall j :: 0 <= j <= n ==> cuts[j] <= cuts[n]
  {
    if n > 0 { AscendingCuts(cuts, n - 1); }
  }

  /** Dropping the last byte of the text, for a pattern that ends in `*`. */
  lemma StarRecurrence(text: seq<byte>, pattern: seq<byte>)
    ensures Matches(text, pattern + [STAR])
       <==> Matches(text, pattern) || (text != [] && Matches(text[..|text| - 1], pattern + [STAR]))
  {
    assert text[..|text|] == text;
    MatchesLast(text, pattern, STAR, |text|);
    if Matches(text, pattern + [STAR]) {
      var k := MatchesUnlast(text, pattern, STAR);
      if k < |text| {
        assert text[..|text| - 1][..k] == text[..k];
        MatchesLast(text[..|text| - 1], pattern, STAR, k);
      }
    }
    if text != [] && Matches(text[..|text| - 1], pattern + [STAR]) {
      var k := MatchesUnlast(text[..|text| - 1], pattern, STAR);
      assert text[..|text| - 1][..k] == text[..k];
      MatchesLast(text, pattern, STAR, k);
    }
  }

  lemma ByteRecurrence(text: seq<byte>, pattern: seq<byte>, p: byte)
    requires p != STAR
    ensures Matches(text, pattern + [p])
       <==> text != [] && Matches(text[..|text| - 1], pattern) && (p == QUERY || text[|text| - 1] == p)
  {
    if text != [] {
      assert text[|text| - 1..] == [text[|text| - 1]];
      MatchesLast(text, pattern, p, |text| - 1);
    }
    if Matches(text, pattern + [p]) {
      var k := MatchesUnlast(text, pattern, p);
      assert |text[k..]| == 1 && k == |text| - 1;
    }
  }

  // ----- The dynamic program -----

  /** The table the two rows roll over. */
  function Cell(text: seq<byte>, pattern: seq<byte>, i: nat, j: nat): bool
    requires i <= |text| && j <= |pattern|
    decreases i + j
  {
    if j == 0 then i == 0
    else if pattern[j - 1] == STAR then Cell(text, pattern, i, j - 1) || (i > 0 && Cell(text, pattern, i - 1, j))
    else i > 0 && Cell(text, pattern, i - 1, j - 1) && (pattern[j - 1] == QUERY || text[i - 1] == pattern[j - 1])
  }

  /** A cell decides whether a prefix of the text matches a prefix of the pattern. */
  lemma {:induction false} CellDecides(text: seq<byte>, pattern: seq<byte>, i: nat, j: nat)
    requires i <= |text| && j <= |pattern|
    ensures Cell(text, pattern, i, j) <==> Matches(text[..i], pattern[..j])
    decreases i + j
  {
    if j == 0 {
      assert pattern[..0] == [];
      MatchesNothing(text[..i]);
    } else {
      var p := pattern[j - 1];
      assert pattern[..j] == pattern[..j - 1] + [p];
      assert i > 0 ==> text[..i][..i - 1] == text[..i - 1];
      if p == STAR {
        CellDecides(text, pattern, i, j - 1);
        if i > 0 { CellDecides(text, pattern, i - 1, j); }
        StarRecurrence(text[..i], pattern[..j - 1]);
      } else {
        if i > 0 { CellDecides(text, pattern, i - 1, j - 1); }
        ByteRecurrence(text[..i], pattern[..j - 1], p);
      }
    }
  }

  lemma {:induction false} FirstRowStaysFalse(text: seq<byte>, pattern: seq<byte>, j: nat, k: nat)
    requires 0 < j <= k <= |pattern| && pattern[j - 1] != STAR
    ensures !Cell(text, pattern, 0, k)
  {
    if j < k { FirstRowStaysFalse(text, pattern, j, k - 1); }
  }

  /** Two rows and a swap decide the language of the pattern. */
  method WildmatMatch(text: seq<byte>, pattern: seq<byte>) returns (r: bool)
    ensures r <==> Matches(text, pattern)
  {
    var m, n := |text|, |pattern|;
    var prev := new bool[n + 1](_ => false);
    prev[0] := true;
    var j := 1;
    while j <= n && pattern[j - 1] == STAR
      invariant 1 <= j <= n + 1
      invariant forall k :: 0 <= k < j ==> prev[k] == Cell(text, pattern, 0, k)
      invariant forall k :: j <= k <= n ==> !prev[k]
    {
      prev[j] := prev[j - 1];
      j := j + 1;
    }
    forall k | j <= k <= n ensures !Cell(text, pattern, 0, k) {
      FirstRowStaysFalse(text, pattern, j, k);
    }
    var curr := new bool[n + 1](_ => false);
    for i := 1 to m + 1
      invariant prev != curr && prev.Length == curr.Length == n + 1
      invariant fresh(prev) && fresh(curr)
      invariant forall k :: 0 <= k <= n ==> prev[k] == Cell(text, pattern, i - 1, k)
    {
      curr[0] := false;
      for q := 1 to n + 1
        invariant curr.Length == n + 1
        invariant forall k :: 0 <= k < q ==> curr[k] == Cell(text, pattern, i, k)
        invariant forall k :: 0 <= k <= n ==> prev[k] == Cell(text, pattern, i - 1, k)
      {
        var pc := pattern[q - 1];
        curr[q] :=
          if pc == STAR then curr[q - 1] || prev[q]
          else if pc == QUERY then prev[q - 1]
          else prev[q - 1] && text[i - 1] == pc;
      }
      prev, curr := curr, prev;
    }
    CellDecides(text, pattern, m, n);
    assert text[..m] == text && pattern[..n] == pattern;
    r := prev[n];
  }

  // ----- Folding and shortcuts -----

  function Lower(b: byte): byte {
    if 65 <= b <= 90 then b + 32 else b
  }

  function Fold(s: seq<byte>): seq<byte> {
    seq(|s|, i requires 0 <= i < |s| => Lower(s[i]))
  }

  predicate IsLiteral(pattern: seq<byte>) {
    STAR !in pattern && QUERY !in pattern
  }

  /** A pattern without wildcards matches itself only. */
  lemma {:induction false} LiteralMatchesItself(text: seq<byte>, pattern: seq<byte>)
    requires IsLiteral(pattern)
    ensures Matches(text, pattern) <==> text == pattern
  {
    if pattern == [] {
      MatchesNothing(text);
    } else {
      var n := |pattern| - 1;
      assert pattern == pattern[..n] + [pattern[n]] && pattern[n] in pattern;
      ByteRecurrence(text, pattern[..n], pattern[n]);
      if text != [] {
        LiteralMatchesItself(text[..|text| - 1], pattern[..n]);
        assert text == text[..|text| - 1] + [text[|text| - 1]];
      }
    }
  }

  method MatchesWildmat(name: seq<byte>, pattern: seq<byte>) returns (r: bool)
    ensures r <==> Matches(Fold(name), Fold(pattern))
  {
    if pattern == [STAR] {
      var folded := Fold(name);
      assert Fold(pattern) == [] + [STAR] && Stands(STAR, folded[0..]);
      assert folded[..0] == [] && folded[0..] == folded;
      MatchesNothing([]);
      MatchesLast(folded, [], STAR, 0);
      return true;
    }
    if IsLiteral(pattern) {
      assert IsLiteral(Fold(pattern)) by {
        forall i | 0 <= i < |pattern| ensures Fold(pattern)[i] != STAR && Fold(pattern)[i] != QUERY {
          assert pattern[i] in pattern;
        }
      }
      LiteralMatchesItself(Fold(name), Fold(pattern));
      return Fold(name) == Fold(pattern);
    }
    r := WildmatMatch(Fold(name), Fold(pattern));
  }

  /** The pattern is already folded; only the name is. */
  method MatchesPrefolded(name: seq<byte>, pattern: seq<byte>) returns (r: bool)
    ensures r <==> Matches(Fold(name), pattern)
  {
    if IsLiteral(pattern) {
      LiteralMatchesItself(Fold(name), pattern);
      return |name| == |pattern| && forall i :: 0 <= i < |name| ==> Lower(name[i]) == pattern[i];
    }
    r := WildmatMatch(Fold(name), pattern);
  }

  // ----- Patterns and filters -----

  datatype WildmatError = EmptyFilter | AllNegation | EmptyPattern | InvalidCharacter | ConsecutiveDots

  datatype Pattern = Pattern(negated: bool, bare: seq<byte>)

  predicate PatternByte(b: byte) {
    97 <= b <= 122 || 48 <= b <= 57 || b == 43 || b == 45 || b == 95 || b == DOT || b == STAR || b == QUERY
  }

  predicate AllPatternBytes(s: seq<byte>) {
    forall i :: 0 <= i < |s| ==> PatternByte(s[i])
  }

  predicate ConsecutiveDotsAt(s: seq<byte>, i: nat) {
    i + 1 < |s| && s[i] == DOT && s[i + 1] == DOT
  }

  predicate NoDoubleDots(s: seq<byte>) {
    forall i :: 0 <= i < |s| ==> !ConsecutiveDotsAt(s, i)
  }

  function Parse(s: seq<byte>): Result<Pattern, WildmatError> {
    var negated := s != [] && s[0] == BANG;
    var bare := Fold(if negated then s[1..] else s);
    if bare == [] then Err(EmptyPattern)
    else if !AllPatternBytes(bare) then Err(InvalidCharacter)
    else if !NoDoubleDots(bare) then Err(ConsecutiveDots)
    else Ok(Pattern(negated, bare))
  }

  /** A pattern as it is written in a configuration. */
  function Print(p: Pattern): seq<byte> {
    (if p.negated then [BANG] else []) + p.bare
  }

  lemma FoldedIsFixed(s: seq<byte>)
    requires AllPatternBytes(s)
    ensures Fold(s) == s
  {
    forall i | 0 <= i < |s| ensures Fold(s)[i] == s[i] {
      assert PatternByte(s[i]);
    }
  }

  lemma PrintedParses(p: Pattern)
    requires p.bare != [] && AllPatternBytes(p.bare) && NoDoubleDots(p.bare)
    ensures Parse(Print(p)) == Ok(p)
  {
    FoldedIsFixed(p.bare);
    assert PatternByte(p.bare[0]);
    assert if p.negated then Print(p)[1..] == p.bare else Print(p) == p.bare;
  }

  /**
   What parsing accepts is already folded, so matching against it is matching against what was
   written without regard to case; and it reads back from what it prints as.
   */
  lemma ParsedPatterns(s: seq<byte>)
    requires Parse(s).Ok?
    ensures var p := Parse(s).value; p.bare != [] && Fold(p.bare) == p.bare && Parse(Print(p)) == Ok(p)
    ensures Fold(s) == Print(Parse(s).value)
  {
    var p := Parse(s).value;
    FoldedIsFixed(p.bare);
    PrintedParses(p);
    assert Fold(s) == Print(p);
  }

  /** A `GroupFilter`: an ordered list of patterns. */
  type Patterns = seq<Pattern>

  /** `name` is decided by the pattern at index `i`: it matches, and none before it does. */
  ghost predicate DecidedBy(patterns: Patterns, name: seq<byte>, i: nat) {
    && i < |patterns| && Matches(Fold(name), patterns[i].bare)
    && forall j :: 0 <= j < i ==> !Matches(Fold(name), patterns[j].bare)
  }

  /** A filter decides as its first matching pattern says, and rejects what none matches. */
  ghost predicate Accepted(patterns: Patterns, name: seq<byte>) {
    name != [] && exists i: nat :: DecidedBy(patterns, name, i) && !patterns[i].negated
  }

  /** The pattern that decides a name is unique, so acceptance and rejection exclude each other. */
  lemma DecisionIsUnique(patterns: Patterns, name: seq<byte>, i: nat, k: nat)
    requires DecidedBy(patterns, name, i) && DecidedBy(patterns, name, k)
    ensures i == k
  {}

  method Accepts(patterns: Patterns, name: seq<byte>) returns (r: bool)
    ensures r <==> Accepted(patterns, name)
  {
    if name == [] {
      return false;
    }
    for i := 0 to |patterns|
      invariant forall j :: 0 <= j < i ==> !Matches(Fold(name), patterns[j].bare)
    {
      var hit := MatchesPrefolded(name, patterns[i].bare);
      if hit {
        assert DecidedBy(patterns, name, i);
        return !patterns[i].negated;
      }
    }
    r := false;
  }

  predicate ParsesAt(raw: seq<seq<byte>>, i: nat) {
    i < |raw| && Parse(raw[i]).Ok?
  }

  predicate NegatedAt(raw: seq<seq<byte>>, i: nat) {
    ParsesAt(raw, i) && Parse(raw[i]).value.negated
  }

  predicate AllParse(raw: seq<seq<byte>>) {
    forall i :: 0 <= i < |raw| ==> ParsesAt(raw, i)
  }

  predicate AllNegated(raw: seq<seq<byte>>) {
    forall i :: 0 <= i < |raw| ==> NegatedAt(raw, i)
  }

  predicate IsParsed(patterns: Patterns, raw: seq<seq<byte>>) {
    |patterns| == |raw| && forall i :: 0 <= i < |raw| ==> Parse(raw[i]) == Ok(patterns[i])
  }

  /** The first entry that does not parse, and its error. */
  predicate FirstParseError(raw: seq<seq<byte>>, i: nat, e: WildmatError) {
    i < |raw| && Parse(raw[i]) == Err(e) && forall j :: 0 <= j < i ==> ParsesAt(raw, j)
  }

  lemma ParsedSigns(patterns: Patterns, raw: seq<seq<byte>>)
    requires IsParsed(patterns, raw)
    ensures AllParse(raw) && (AllNegated(raw) <==> forall i :: 0 <= i < |patterns| ==> patterns[i].negated)
  {
    forall i | 0 <= i < |raw| ensures ParsesAt(raw, i) && (NegatedAt(raw, i) <==> patterns[i].negated) {
      assert Parse(raw[i]) == Ok(patterns[i]);
    }
  }

  /** All entries parsed, or the first error among them. */
  method ParseAll(raw: seq<seq<byte>>) returns (r: Result<Patterns, WildmatError>)
    ensures r.Ok? ==> IsParsed(r.value, raw)
    ensures r.Err? ==> exists i: nat :: FirstParseError(raw, i, r.error)
  {
    var patterns: Patterns := [];
    for i := 0 to |raw|
      invariant IsParsed(patterns, raw[..i])
    {
      var p := Parse(raw[i]);
      if p.Err? {
        forall j | 0 <= j < i ensures ParsesAt(raw, j) {
          assert Parse(raw[..i][j]) == Ok(patterns[j]);
        }
        assert FirstParseError(raw, i, p.error);
        return Err(p.error);
      }
      assert raw[..i + 1] == raw[..i] + [raw[i]];
      patterns := patterns + [p.value];
    }
    assert raw[..|raw|] == raw;
    r := Ok(patterns);
  }

  lemma ParseErrorsAreTheirOwn(raw: seq<byte>)
    ensures Parse(raw) != Err(EmptyFilter) && Parse(raw) != Err(AllNegation)
  {}

  /** The patterns of a filter, or the first error, in the order `GroupFilter::new` reports them. */
  method NewFilter(raw: seq<seq<byte>>) returns (r: Result<Patterns, WildmatError>)
    ensures r.Ok? <==> AllParse(raw) && !AllNegated(raw)
    ensures r.Ok? ==> IsParsed(r.value, raw)
    ensures r == Err(EmptyFilter) <==> raw == []
    ensures r == Err(AllNegation) <==> raw != [] && AllNegated(raw)
    ensures !AllParse(raw) ==> r.Err? && exists i: nat :: FirstParseError(raw, i, r.error)
  {
    r := ParseAll(raw);
    if r.Err? {
      ghost var i: nat :| FirstParseError(raw, i, r.error);
      ParseErrorsAreTheirOwn(raw[i]);
      assert !ParsesAt(raw, i);
      assert !NegatedAt(raw, i);
      return;
    }
    ParsedSigns(r.value, raw);
    if r.value == [] { return Err(EmptyFilter); }
    if forall i :: 0 <= i < |r.value| ==> r.value[i].negated { return Err(AllNegation); }
  }

  /** Why `GroupFilter::new` refuses a list of negations: it would accept no name at all. */
  lemma AllNegationAcceptsNothing(patterns: Patterns, name: seq<byte>)
    requires forall i :: 0 <= i < |patterns| ==> patterns[i].negated
    ensures !Accepted(patterns, name)
  {}

  /** An exception listed after the patterns it should narrow changes no decision. */
  lemma ExceptionAfterIsInert(patterns: Patterns, e: Pattern, name: seq<byte>)
    requires e.negated
    ensures Accepted(patterns + [e], name) <==> Accepted(patterns, name)
  {
    var all := patterns + [e];
    assert forall j :: 0 <= j < |patterns| ==> all[j] == patterns[j];
    forall i: nat | i < |patterns| ensures DecidedBy(all, name, i) <==> DecidedBy(patterns, name, i) {
      assert forall j :: 0 <= j < i ==> patterns[j].bare == all[j].bare;
    }
  }

  lemma DecisionShifts(patterns: Patterns, e: Pattern, name: seq<byte>, i: nat)
    requires !Matches(Fold(name), e.bare)
    ensures DecidedBy([e] + patterns, name, i + 1) <==> DecidedBy(patterns, name, i)
  {
    var all := [e] + patterns;
    assert forall j :: 0 <= j < |patterns| ==> all[j + 1].bare == patterns[j].bare;
    if DecidedBy(all, name, i + 1) {
      forall j | 0 <= j < i ensures !Matches(Fold(name), patterns[j].bare) {
        assert !Matches(Fold(name), all[j + 1].bare);
      }
    }
    if DecidedBy(patterns, name, i) {
      forall j | 0 <= j < i + 1 ensures !Matches(Fold(name), all[j].bare) {
        assert j > 0 ==> all[j] == patterns[j - 1];
      }
    }
  }

  /** Listed first, it exempts exactly the names it matches. */
  lemma ExceptionBeforeExempts(patterns: Patterns, e: Pattern, name: seq<byte>)
    requires e.negated
    ensures Accepted([e] + patterns, name) <==> Accepted(patterns, name) && !Matches(Fold(name), e.bare)
  {
    var all := [e] + patterns;
    assert all[0] == e;
    if Accepted(all, name) {
      var i: nat :| DecidedBy(all, name, i) && !all[i].negated;
      assert !Matches(Fold(name), all[0].bare);
      DecisionShifts(patterns, e, name, i - 1);
      assert DecidedBy(patterns, name, i - 1);
    }
    if Accepted(patterns, name) && !Matches(Fold(name), e.bare) {
      var i: nat :| DecidedBy(patterns, name, i) && !patterns[i].negated;
      DecisionShifts(patterns, e, name, i);
      assert DecidedBy(all, name, i + 1);
    }
  }

  // ----- The rule of section 4.2 of RFC 3977 -----

  /** `name` is decided by the pattern at index `k` under the standard's rule: none after it matches. */
  ghost predicate LastDecidedBy(patterns: Patterns, name: seq<byte>, k: nat) {
    && k < |patterns| && Matches(Fold(name), patterns[k].bare)
    && forall j :: k < j < |patterns| ==> !Matches(Fold(name), patterns[j].bare)
  }

  /** The rightmost matching pattern decides; a newsgroup name is never empty. */
  ghost predicate StandardAccepted(patterns: Patterns, name: seq<byte>) {
    name != [] && exists k: nat :: LastDecidedBy(patterns, name, k) && !patterns[k].negated
  }

  ghost predicate MatchedBy(patterns: Patterns, name: seq<byte>, i: nat) {
    i < |patterns| && Matches(Fold(name), patterns[i].bare)
  }

  lemma {:induction false} FirstMatch(patterns: Patterns, name: seq<byte>, i: nat) returns (first: nat)
    requires MatchedBy(patterns, name, i)
    ensures DecidedBy(patterns, name, first)
    decreases i
  {
    if j: nat :| j < i && MatchedBy(patterns, name, j) {
      first := FirstMatch(patterns, name, j);
    } else {
      first := i;
      forall j | 0 <= j < i ensures !Matches(Fold(name), patterns[j].bare) {
        assert !MatchedBy(patterns, name, j);
      }
    }
  }

  lemma {:induction false} LastMatch(patterns: Patterns, name: seq<byte>, i: nat) returns (last: nat)
    requires MatchedBy(patterns, name, i)
    ensures LastDecidedBy(patterns, name, last)
    decreases |patterns| - i
  {
    if j: nat :| i < j && MatchedBy(patterns, name, j) {
      last := LastMatch(patterns, name, j);
    } else {
      last := i;
      forall j | i < j < |patterns| ensures !Matches(Fold(name), patterns[j].bare) {
        assert !MatchedBy(patterns, name, j);
      }
    }
  }

  lemma LastDecisionIsUnique(patterns: Patterns, name: seq<byte>, i: nat, k: nat)
    requires LastDecidedBy(patterns, name, i) && LastDecidedBy(patterns, name, k)
    ensures i == k
  {}

  /** Each rule decides by the sign of its pattern. */
  lemma SignsDecide(patterns: Patterns, name: seq<byte>, first: nat, last: nat)
    requires name != [] && DecidedBy(patterns, name, first) && LastDecidedBy(patterns, name, last)
    ensures Accepted(patterns, name) <==> !patterns[first].negated
    ensures StandardAccepted(patterns, name) <==> !patterns[last].negated
  {
    forall i: nat | DecidedBy(patterns, name, i) ensures i == first {
      DecisionIsUnique(patterns, name, i, first);
    }
    forall k: nat | LastDecidedBy(patterns, name, k) ensures k == last {
      LastDecisionIsUnique(patterns, name, k, last);
    }
  }

  /** The first and the last pattern that match `name` have the same sign. */
  ghost predicate SameSign(patterns: Patterns, name: seq<byte>) {
    exists i: nat, k: nat :: DecidedBy(patterns, name, i) && LastDecidedBy(patterns, name, k) && patterns[i].negated == patterns[k].negated
  }

  /**
   The code lets the leftmost match decide, the standard the rightmost. They decide a name alike
   exactly when it is empty, when nothing matches it, or when both matches have the same sign.
   */
  lemma RulesAgreeIff(patterns: Patterns, name: seq<byte>)
    ensures (Accepted(patterns, name) <==> StandardAccepted(patterns, name))
       <==> name == [] || (forall i: nat :: !MatchedBy(patterns, name, i)) || SameSign(patterns, name)
  {
    if name != [] {
      if i: nat :| MatchedBy(patterns, name, i) {
        var first := FirstMatch(patterns, name, i);
        var last := LastMatch(patterns, name, i);
        SignsDecide(patterns, name, first, last);
        forall f: nat, l: nat | DecidedBy(patterns, name, f) && LastDecidedBy(patterns, name, l) ensures f == first && l == last {
          DecisionIsUnique(patterns, name, f, first);
          LastDecisionIsUnique(patterns, name, l, last);
        }
      } else {
        forall k: nat | LastDecidedBy(patterns, name, k) ensures MatchedBy(patterns, name, k) {}
        forall k: nat | DecidedBy(patterns, name, k) ensures MatchedBy(patterns, name, k) {}
      }
    }
  }

  /** A literal stem and a star match every text that starts with the stem. */
  lemma StemMatches(stem: seq<byte>, rest: seq<byte>)
    requires IsLiteral(stem)
    ensures Matches(stem + rest, stem + [STAR])
  {
    LiteralMatchesItself(stem, stem);
    assert (stem + rest)[..|stem|] == stem;
    MatchesLast(stem + rest, stem, STAR, |stem|);
  }

  /** Everything under a stem, then an exception: the code accepts the excepted name, the standard does not. */
  lemma ExceptionSecondDiffers(stem: seq<byte>, rest: seq<byte>)
    requires IsLiteral(stem + rest) && AllPatternBytes(stem + rest) && stem + rest != []
    ensures var patterns := [Pattern(false, stem + [STAR]), Pattern(true, stem + rest)];
            Accepted(patterns, stem + rest) && !StandardAccepted(patterns, stem + rest)
  {
    var name := stem + rest;
    var patterns := [Pattern(false, stem + [STAR]), Pattern(true, name)];
    assert forall i :: 0 <= i < |stem| ==> name[i] == stem[i];
    FoldedIsFixed(name);
    StemMatches(stem, rest);
    LiteralMatchesItself(name, name);
    SignsDecide(patterns, name, 0, 1);
  }

  /** "comp." and "binaries", of the list in the source's comment. */
  const COMP: seq<byte> := [99, 111, 109, 112, 46]
  const BINARIES: seq<byte> := [98, 105, 110, 97, 114, 105, 101, 115]

  /** A stem without a dot inside, and a rest without any, make a pattern. */
  lemma StemAndRest(stem: seq<byte>, rest: seq<byte>)
    requires AllPatternBytes(stem) && AllPatternBytes(rest) && NoDoubleDots(stem) && DOT !in rest
    ensures AllPatternBytes(stem + rest) && NoDoubleDots(stem + rest)
  {
    forall i | 0 <= i < |stem + rest| ensures !ConsecutiveDotsAt(stem + rest, i) {
      assert i + 1 < |stem| ==> !ConsecutiveDotsAt(stem, i);
      assert |stem| <= i + 1 < |stem + rest| ==> (stem + rest)[i + 1] in rest;
    }
  }

  lemma CommentedBytes()
    ensures AllPatternBytes(COMP) && AllPatternBytes(BINARIES) && NoDoubleDots(COMP)
    ensures DOT !in BINARIES && IsLiteral(COMP + BINARIES)
  {
    assert IsLiteral(COMP) && IsLiteral(BINARIES);
  }

  lemma CommentedListParses()
    ensures Parse(COMP + [STAR]) == Ok(Pattern(false, COMP + [STAR]))
    ensures Parse([BANG] + (COMP + BINARIES)) == Ok(Pattern(true, COMP + BINARIES))
    ensures AllPatternBytes(COMP + BINARIES)
  {
    CommentedBytes();
    StemAndRest(COMP, [STAR]);
    StemAndRest(COMP, BINARIES);
    PrintedParses(Pattern(false, COMP + [STAR]));
    PrintedParses(Pattern(true, COMP + BINARIES));
    assert [] + (COMP + [STAR]) == COMP + [STAR];
  }

  lemma CommentedListDiffers()
    ensures Parse(COMP + [STAR]).Ok? && Parse([BANG] + (COMP + BINARIES)).Ok?
    ensures var patterns := [Parse(COMP + [STAR]).value, Parse([BANG] + (COMP + BINARIES)).value];
            Accepted(patterns, COMP + BINARIES) && !StandardAccepted(patterns, COMP + BINARIES)
  {
    CommentedBytes();
    CommentedListParses();
    ExceptionSecondDiffers(COMP, BINARIES);
  }

  // ----- Without regard to case -----

  /** The same byte, or the two cases of one ASCII letter. */
  predicate SameLetter(a: byte, b: byte) {
    a == b || (65 <= a <= 90 && b == a + 32) || (65 <= b <= 90 && a == b + 32)
  }

  predicate SameButCase(x: seq<byte>, y: seq<byte>) {
    |x| == |y| && forall i :: 0 <= i < |x| ==> SameLetter(x[i], y[i])
  }

  lemma FoldedAlikeIff(x: seq<byte>, y: seq<byte>)
    ensures Fold(x) == Fold(y) <==> SameButCase(x, y)
  {
    if Fold(x) == Fold(y) {
      assert |x| == |y|;
      forall i | 0 <= i < |x| ensures SameLetter(x[i], y[i]) {
        assert Fold(x)[i] == Fold(y)[i];
      }
    }
    if SameButCase(x, y) {
      forall i | 0 <= i < |x| ensures Fold(x)[i] == Fold(y)[i] {
        assert SameLetter(x[i], y[i]);
      }
    }
  }

  lemma FoldEmptyIff(x: seq<byte>)
    ensures Fold(x) == [] <==> x == []
  {}

  /** Names that differ in case only are accepted alike by every filter. */
  lemma FilterIgnoresCase(patterns: Patterns, x: seq<byte>, y: seq<byte>)
    requires SameButCase(x, y)
    ensures Accepted(patterns, x) <==> Accepted(patterns, y)
  {
    FoldedAlikeIff(x, y);
    assert forall i: nat :: DecidedBy(patterns, x, i) <==> DecidedBy(patterns, y, i);
  }

  lemma SameTail(x: seq<byte>, y: seq<byte>)
    requires SameButCase(x, y) && x != []
    ensures SameButCase(x[1..], y[1..]) && (x[0] == BANG <==> y[0] == BANG)
  {
    assert SameLetter(x[0], y[0]);
  }

  /** And patterns that differ in case only parse alike. */
  lemma ParseIgnoresCase(s: seq<byte>, t: seq<byte>)
    requires SameButCase(s, t)
    ensures Parse(s) == Parse(t)
  {
    FoldedAlikeIff(s, t);
    if s != [] {
      SameTail(s, t);
      FoldedAlikeIff(s[1..], t[1..]);
    }
  }

  /** Nothing more: a pattern without wildcards matches exactly the names that differ from it in case only. */
  lemma LiteralMatchesIff(name: seq<byte>, pattern: seq<byte>)
    requires IsLiteral(pattern)
    ensures Matches(Fold(name), Fold(pattern)) <==> SameButCase(name, pattern)
  {
    FoldedLiteral(pattern);
    LiteralMatchesItself(Fold(name), Fold(pattern));
    FoldedAlikeIff(name, pattern);
  }

  lemma FoldedLiteral(pattern: seq<byte>)
    requires IsLiteral(pattern)
    ensures IsLiteral(Fold(pattern))
  {
    forall i | 0 <= i < |pattern| ensures Fold(pattern)[i] != STAR && Fold(pattern)[i] != QUERY {
      assert pattern[i] in pattern;
    }
  }

  /** So a filter of one such pattern accepts exactly those. */
  lemma LiteralFilterIff(s: seq<byte>, name: seq<byte>)
    requires IsLiteral(s) && Parse(s).Ok? && !Parse(s).value.negated
    ensures Accepted([Parse(s).value], name) <==> SameButCase(name, s)
  {
    var p := Parse(s).value;
    LiteralMatchesIff(name, s);
    assert p.bare == Fold(s);
    assert Matches(Fold(name), p.bare) <==> DecidedBy([p], name, 0);
  }

  // ----- What parses -----

  /** Letters of either case, digits, and + - _ . ? * */
  predicate WrittenByte(b: byte) {
    || 65 <= b <= 90 || 97 <= b <= 122 || 48 <= b <= 57
    || b == 43 || b == 45 || b == 95 || b == 46 || b == 63 || b == 42
  }

  predicate AllWritten(s: seq<byte>) {
    forall i :: 0 <= i < |s| ==> WrittenByte(s[i])
  }

  predicate TwoDots(s: seq<byte>) {
    exists i :: 0 < i < |s| && s[i - 1] == 46 && s[i] == 46
  }

  lemma WrittenIffPattern(s: seq<byte>)
    ensures AllPatternBytes(Fold(s)) <==> AllWritten(s)
  {
    forall i | 0 <= i < |s| ensures PatternByte(Fold(s)[i]) <==> WrittenByte(s[i]) {}
    if AllPatternBytes(Fold(s)) {
      forall i | 0 <= i < |s| ensures WrittenByte(s[i]) {
        assert PatternByte(Fold(s)[i]);
      }
    }
  }

  lemma TwoDotsIff(s: seq<byte>)
    ensures NoDoubleDots(Fold(s)) <==> !TwoDots(s)
  {
    forall i | 0 < i < |s| ensures ConsecutiveDotsAt(Fold(s), i - 1) <==> s[i - 1] == 46 && s[i] == 46 {}
    if NoDoubleDots(Fold(s)) {
      forall i | 0 < i < |s| ensures !(s[i - 1] == 46 && s[i] == 46) {
        assert !ConsecutiveDotsAt(Fold(s), i - 1);
      }
    }
    if !TwoDots(s) {
      forall i | 0 <= i < |s| ensures !ConsecutiveDotsAt(Fold(s), i) {
        assert i + 1 < |s| ==> !(s[i + 1 - 1] == 46 && s[i + 1] == 46);
      }
    }
  }

  /** Which entries of a configuration are patterns, and what is wrong with the others. */
  lemma ParsesIff(s: seq<byte>)
    ensures var negated := s != [] && s[0] == 33;
            var rest := if negated then s[1..] else s;
            && (Parse(s).Ok? <==> rest != [] && AllWritten(rest) && !TwoDots(rest))
            && (Parse(s).Ok? ==> Parse(s).value.negated == negated && SameButCase(Parse(s).value.bare, rest))
            && (Parse(s) == Err(EmptyPattern) <==> rest == [])
            && (Parse(s) == Err(InvalidCharacter) <==> rest != [] && !AllWritten(rest))
            && (Parse(s) == Err(ConsecutiveDots) <==> rest != [] && AllWritten(rest) && TwoDots(rest))
  {
    var rest := if s != [] && s[0] == 33 then s[1..] else s;
    FoldEmptyIff(rest);
    WrittenIffPattern(rest);
    TwoDotsIff(rest);
    FoldTwice(rest);
    FoldedAlikeIff(Fold(rest), rest);
  }

  lemma FoldTwice(s: seq<byte>)
    ensures Fold(Fold(s)) == Fold(s)
  {}
}
