/** NNTP dot-stuffing, section 3.1.1 of RFC 3977: crates/core/src/util.rs. */
module DotStuffing {
  import opened Prelude

  // ----- Lines -----

  /** The position of the first line feed, or the length. */
  function LineEnd(s: Bytes): (k: nat)
    ensures k <= |s|
  {
    if s == [] || s[0] == LF then 0 else 1 + LineEnd(s[1..])
  }

  lemma {:induction false} LineEndIsFirst(s: Bytes)
    ensures forall i :: 0 <= i < LineEnd(s) ==> s[i] != LF
    ensures LineEnd(s) < |s| ==> s[LineEnd(s)] == LF
  {
    if s != [] && s[0] != LF {
      LineEndIsFirst(s[1..]);
      forall i | 1 <= i < LineEnd(s) ensures s[i] != LF {
        assert s[i] == s[1..][i - 1];
      }
    }
  }

  function StripCr(line: Bytes): Bytes {
    if line != [] && line[|line| - 1] == CR then line[..|line| - 1] else line
  }

  /** The lines of a text: LF or CRLF ends a line, and a last line needs no ending. */
  function Lines(s: Bytes): seq<Bytes>
    decreases |s|
  {
    if s == [] then []
    else
      var k := LineEnd(s);
      if k < |s| then [StripCr(s[..k])] + Lines(s[k + 1..]) else [s]
  }

  function Stuff(line: Bytes): Bytes {
    if line != [] && line[0] == DOT then [DOT] + line else line
  }

  function WireLine(line: Bytes): Bytes {
    Stuff(line) + [CR, LF]
  }

  /** The lines as they go over the wire. */
  function Wire(lines: seq<Bytes>): Bytes {
    if lines == [] then [] else WireLine(lines[0]) + Wire(lines[1..])
  }

  lemma {:induction false} LineEndAt(a: Bytes, x: Bytes)
    requires LF !in a
    ensures LineEnd(a + ([LF] + x)) == |a|
  {
    var s := a + ([LF] + x);
    if a != [] {
      assert a[0] in a && s[1..] == a[1..] + ([LF] + x);
      LineEndAt(a[1..], x);
    }
  }

  lemma FirstLine(a: Bytes, x: Bytes)
    requires LF !in a
    ensures Lines(a + ([LF] + x)) == [StripCr(a)] + Lines(x)
  {
    var s := a + ([LF] + x);
    LineEndAt(a, x);
    assert s[..|a|] == a && s[|a| + 1..] == x;
  }

  lemma OnlyLine(s: Bytes)
    requires s != [] && LF !in s
    ensures Lines(s) == [s]
  {
    LineEndIsFirst(s);
  }

  // ----- The encoder as written -----

  method EmitLine(out: Bytes, line: Bytes) returns (r: Bytes)
    ensures r == out + WireLine(line)
  {
    r := out;
    if line != [] && line[0] == DOT {
      r := r + [DOT];
    }
    r := r + line;
    r := r + [CR, LF];
  }

  /** `start` is where the line that position `i` is in begins. */
  predicate InLine(bytes: Bytes, start: nat, i: nat) {
    && start <= i <= |bytes|
    && (forall k :: start <= k < i ==> bytes[k] != LF)
    && (start == 0 || bytes[start - 1] == LF)
  }

  lemma InLineNext(bytes: Bytes, start: nat, i: nat)
    requires i < |bytes| && InLine(bytes, start, i)
    ensures InLine(bytes, if bytes[i] == LF then i + 1 else start, i + 1)
  {}

  /** The line that ends at `i`, without its CR, is a slice that cannot start after it ends. */
  lemma LineSlice(bytes: Bytes, start: nat, i: nat)
    requires i < |bytes| && InLine(bytes, start, i) && bytes[i] == LF
    ensures var lineEnd := if i > 0 && bytes[i - 1] == CR then i - 1 else i;
            start <= lineEnd && StripCr(bytes[start..i]) == bytes[start..lineEnd]
    ensures bytes[start..] == bytes[start..i] + ([LF] + bytes[i + 1..])
  {
    assert start < i ==> bytes[start..i][i - start - 1] == bytes[i - 1];
  }

  /** What the input from `start` on stands for. */
  ghost function Remaining(bytes: Bytes, start: nat): Bytes
    requires start <= |bytes|
  {
    Wire(Lines(bytes[start..]))
  }

  lemma WireStep(bytes: Bytes, start: nat, i: nat, lineEnd: nat)
    requires i < |bytes| && InLine(bytes, start, i) && bytes[i] == LF
    requires lineEnd == if i > 0 && bytes[i - 1] == CR then i - 1 else i
    ensures start <= lineEnd && Wire(Lines(bytes[start..])) == WireLine(bytes[start..lineEnd]) + Wire(Lines(bytes[i + 1..]))
  {
    LineSlice(bytes, start, i);
    FirstLine(bytes[start..i], bytes[i + 1..]);
    var line, rest := bytes[start..lineEnd], Lines(bytes[i + 1..]);
    assert ([line] + rest)[1..] == rest;
  }

  lemma WireLast(bytes: Bytes, start: nat)
    requires InLine(bytes, start, |bytes|)
    ensures Wire(Lines(bytes[start..])) == if start < |bytes| then WireLine(bytes[start..]) else []
  {
    var rest := bytes[start..];
    if start < |bytes| {
      OnlyLine(rest);
      var none: seq<Bytes> := [rest][1..];
      assert none == [] && Wire(none) == [] && WireLine(rest) + Wire(none) == WireLine(rest);
    } else {
      assert rest == [];
    }
  }

  lemma Assoc(a: Bytes, b: Bytes, c: Bytes)
    ensures (a + b) + c == a + (b + c)
  {}

  /** What has been emitted, followed by what remains, is the whole output. */
  ghost predicate Emitted(out: Bytes, bytes: Bytes, start: nat)
    requires start <= |bytes|
  {
    out + Remaining(bytes, start) == Wire(Lines(bytes))
  }

  /** Emits the line that the line feed at `i` ends. */
  method EndLine(bytes: Bytes, start: nat, i: nat, out: Bytes) returns (r: Bytes)
    requires i < |bytes| && InLine(bytes, start, i) && bytes[i] == LF && Emitted(out, bytes, start)
    ensures Emitted(r, bytes, i + 1)
  {
    var lineEnd := if i > 0 && bytes[i - 1] == CR then i - 1 else i;
    WireStep(bytes, start, i, lineEnd);
    r := EmitLine(out, bytes[start..lineEnd]);
    Assoc(out, WireLine(bytes[start..lineEnd]), Wire(Lines(bytes[i + 1..])));
  }

  /** Emits what follows the last line feed. */
  method EndText(bytes: Bytes, start: nat, out: Bytes) returns (r: Bytes)
    requires InLine(bytes, start, |bytes|) && Emitted(out, bytes, start)
    ensures r == Wire(Lines(bytes))
  {
    WireLast(bytes, start);
    if start < |bytes| {
      r := EmitLine(out, bytes[start..]);
    } else {
      r := out;
    }
  }

  /** For every input the loop emits the lines of the input, stuffed, and all its slices are in range. */
  method NntpDotStuff(bytes: Bytes) returns (out: Bytes)
    ensures out == Wire(Lines(bytes))
  {
    out := [];
    var start, i := 0, 0;
    NothingEmitted(bytes);
    while i < |bytes|
      invariant start <= i <= |bytes| && InLine(bytes, start, i)
      invariant Emitted(out, bytes, start)
    {
      InLineNext(bytes, start, i);
      if bytes[i] == LF {
        out := EndLine(bytes, start, i, out);
        start := i + 1;
      }
      i := i + 1;
    }
    out := EndText(bytes, start, out);
  }

  lemma NothingEmitted(bytes: Bytes)
    ensures Emitted([], bytes, 0)
  {
    assert bytes[0..] == bytes;
  }

  // ----- The receiving end -----

  datatype Received = Garbled | Received(lines: seq<Bytes>, rest: Bytes)

  function Deliver(line: Bytes, r: Received): Received {
    match r case Garbled => Garbled case Received(lines, rest) => Received([line] + lines, rest)
  }

  /**
   Reads a multi-line block: CRLF ends a line, a lone dot ends the block, and a leading dot on any
   other line is dropped.
   */
  function Receive(s: Bytes): Received
    decreases |s|
  {
    var k := LineEnd(s);
    if k == |s| || k == 0 || s[k - 1] != CR then Garbled
    else
      var line := s[..k - 1];
      if line == [DOT] then Received([], s[k + 1..])
      else Deliver(if line != [] && line[0] == DOT then line[1..] else line, Receive(s[k + 1..]))
  }

  predicate NoLf(lines: seq<Bytes>) {
    forall i :: 0 <= i < |lines| ==> LF !in lines[i]
  }

  lemma FirstHasNoLf(s: Bytes)
    ensures LF !in s[..LineEnd(s)] && LF !in StripCr(s[..LineEnd(s)])
  {
    LineEndIsFirst(s);
  }

  lemma NoLfCons(line: Bytes, lines: seq<Bytes>)
    requires LF !in line && NoLf(lines)
    ensures NoLf([line] + lines)
  {}

  lemma {:induction false} LinesHaveNoLf(s: Bytes)
    ensures NoLf(Lines(s))
    decreases |s|
  {
    if s != [] {
      var k := LineEnd(s);
      FirstHasNoLf(s);
      if k < |s| {
        LinesHaveNoLf(s[k + 1..]);
        NoLfCons(StripCr(s[..k]), Lines(s[k + 1..]));
      } else {
        assert s[..k] == s;
      }
    }
  }

  lemma ReceiveLine(line: Bytes, x: Bytes)
    requires LF !in line
    ensures var s := line + [CR, LF] + x;
            Receive(s) == if line == [DOT] then Received([], x)
                          else Deliver(if line != [] && line[0] == DOT then line[1..] else line, Receive(x))
  {
    var s := line + [CR, LF] + x;
    assert s == (line + [CR]) + ([LF] + x);
    LineEndAt(line + [CR], x);
    assert s[..|line|] == line && s[|line| + 2..] == x;
  }

  /** A stuffed line is never the terminator, and dropping its first dot gives the line back. */
  lemma StuffedLine(line: Bytes)
    requires LF !in line
    ensures Stuff(line) != [DOT] && LF !in Stuff(line)
    ensures (if Stuff(line) != [] && Stuff(line)[0] == DOT then Stuff(line)[1..] else Stuff(line)) == line
  {}

  /** What one line on the wire delivers. */
  lemma WireLineDelivers(line: Bytes, x: Bytes)
    requires LF !in line
    ensures Receive(WireLine(line) + x) == Deliver(line, Receive(x))
  {
    StuffedLine(line);
    ReceiveLine(Stuff(line), x);
  }

  lemma TerminatorEnds(rest: Bytes)
    ensures Receive([DOT, CR, LF] + rest) == Received([], rest)
  {
    assert [DOT, CR, LF] + rest == [DOT] + [CR, LF] + rest;
    ReceiveLine([DOT], rest);
  }

  lemma WireDeliversMore(line: Bytes, lines: seq<Bytes>, end: Bytes)
    requires LF !in line
    ensures Receive(Wire([line] + lines) + end) == Deliver(line, Receive(Wire(lines) + end))
  {
    assert ([line] + lines)[1..] == lines;
    Assoc(WireLine(line), Wire(lines), end);
    WireLineDelivers(line, Wire(lines) + end);
  }

  lemma {:induction false} WireDelivers(lines: seq<Bytes>, rest: Bytes)
    requires NoLf(lines)
    ensures Receive(Wire(lines) + ([DOT, CR, LF] + rest)) == Received(lines, rest)
  {
    var end := [DOT, CR, LF] + rest;
    if lines == [] {
      TerminatorEnds(rest);
      assert [] + end == end;
    } else {
      assert lines == [lines[0]] + lines[1..];
      WireDeliversMore(lines[0], lines[1..], end);
      WireDelivers(lines[1..], rest);
    }
  }

  /**
   For every text and whatever follows on the connection, the receiver of the stuffed text and
   its terminating dot gets exactly the text's lines and stops exactly at its end.
   */
  lemma StuffedTextIsDelivered(bytes: Bytes, rest: Bytes)
    ensures Receive(Wire(Lines(bytes)) + ([DOT, CR, LF] + rest)) == Received(Lines(bytes), rest)
  {
    LinesHaveNoLf(bytes);
    WireDelivers(Lines(bytes), rest);
  }

  /** Lines that end in CRLF. */
  function Unlines(lines: seq<Bytes>): Bytes {
    if lines == [] then [] else lines[0] + [CR, LF] + Unlines(lines[1..])
  }

  lemma FirstOfUnlines(line: Bytes, x: Bytes)
    requires LF !in line
    ensures Lines(line + [CR, LF] + x) == [line] + Lines(x)
  {
    var s := (line + [CR]) + ([LF] + x);
    assert line + [CR, LF] + x == s;
    LineEndAt(line + [CR], x);
    assert s[..|line| + 1] == line + [CR] && s[|line| + 2..] == x;
    assert StripCr(line + [CR]) == line;
  }

  /** Splitting into lines undoes joining them, for any lines that hold no line feed. */
  lemma {:induction false} LinesOfUnlines(lines: seq<Bytes>)
    requires NoLf(lines)
    ensures Lines(Unlines(lines)) == lines
  {
    if lines != [] {
      LinesOfUnlines(lines[1..]);
      FirstOfUnlines(lines[0], Unlines(lines[1..]));
      assert lines == [lines[0]] + lines[1..];
    }
  }

  // ----- Which texts have which lines -----

  /** How a line ends: LF, CRLF, or with the text. */
  datatype Ending = Lf | CrLf | AtEnd

  function EndingBytes(e: Ending): Bytes {
    match e case Lf => [LF] case CrLf => [CR, LF] case AtEnd => []
  }

  function Written(lines: seq<Bytes>, ends: seq<Ending>): Bytes
    requires |ends| == |lines|
  {
    if lines == [] then [] else lines[0] + (EndingBytes(ends[0]) + Written(lines[1..], ends[1..]))
  }

  /** Only the last line may end with the text, and then it is not empty; a CR before an LF is part of the ending. */
  predicate ValidEndings(lines: seq<Bytes>, ends: seq<Ending>) {
    && |ends| == |lines|
    && (lines == [] ||
        (&& LF !in lines[0]
         && (ends[0] == AtEnd ==> |lines| == 1 && lines[0] != [])
         && (ends[0] == Lf && lines[0] != [] ==> lines[0][|lines[0]| - 1] != CR)
         && ValidEndings(lines[1..], ends[1..])))
  }

  lemma {:induction false} NoLineEnd(s: Bytes)
    requires LF !in s
    ensures LineEnd(s) == |s|
  {
    if s != [] {
      assert s[0] in s;
      NoLineEnd(s[1..]);
    }
  }

  lemma RawLine(raw: Bytes, x: Bytes)
    requires LF !in raw
    ensures Lines(raw + ([LF] + x)) == [StripCr(raw)] + Lines(x)
  {
    var s := raw + ([LF] + x);
    LineEndAt(raw, x);
    assert s[..|raw|] == raw && s[|raw| + 1..] == x;
  }

  /** A line that ends in LF, with or without a CR. */
  lemma EndedLine(line: Bytes, e: Ending, x: Bytes)
    requires LF !in line && e != AtEnd && (e == Lf && line != [] ==> line[|line| - 1] != CR)
    ensures Lines(line + (EndingBytes(e) + x)) == [line] + Lines(x)
  {
    if e == Lf {
      RawLine(line, x);
    } else {
      RawLine(line + [CR], x);
      assert line + ([CR, LF] + x) == (line + [CR]) + ([LF] + x);
      assert (line + [CR])[..|line|] == line;
    }
  }

  lemma {:induction false} LinesOfWritten(lines: seq<Bytes>, ends: seq<Ending>)
    requires ValidEndings(lines, ends)
    ensures Lines(Written(lines, ends)) == lines
    decreases lines
  {
    if lines != [] {
      var x := Written(lines[1..], ends[1..]);
      LinesOfWritten(lines[1..], ends[1..]);
      assert lines == [lines[0]] + lines[1..];
      if ends[0] == AtEnd {
        assert lines[0] + ([] + []) == lines[0];
        NoLineEnd(lines[0]);
      } else {
        EndedLine(lines[0], ends[0], x);
      }
    }
  }

  /** The ending of the first line of a text. */
  lemma FirstEnding(s: Bytes) returns (e: Ending)
    requires s != [] && LineEnd(s) < |s|
    ensures var k := LineEnd(s); var line := StripCr(s[..k]);
            e != AtEnd && LF !in line && (e == Lf && line != [] ==> line[|line| - 1] != CR) && s == line + (EndingBytes(e) + s[k + 1..])
  {
    var k := LineEnd(s);
    LineEndIsFirst(s);
    FirstHasNoLf(s);
    var raw := s[..k];
    assert s == raw + ([LF] + s[k + 1..]);
    if raw != [] && raw[k - 1] == CR {
      e := CrLf;
      assert raw == StripCr(raw) + [CR];
    } else {
      e := Lf;
    }
  }

  lemma {:induction false} EndingsOf(s: Bytes) returns (ends: seq<Ending>)
    ensures ValidEndings(Lines(s), ends) && Written(Lines(s), ends) == s
    decreases |s|
  {
    if s == [] {
      ends := [];
    } else if LineEnd(s) < |s| {
      var k := LineEnd(s);
      var e := FirstEnding(s);
      var more := EndingsOf(s[k + 1..]);
      ends := [e] + more;
      assert ends[1..] == more && Lines(s)[1..] == Lines(s[k + 1..]);
    } else {
      ends := [AtEnd];
      FirstHasNoLf(s);
      assert s[..LineEnd(s)] == s && Lines(s) == [s];
      assert Lines(s)[1..] == [] && ends[1..] == [] && s + ([] + []) == s;
    }
  }

  /** A text has given lines exactly when it is those lines, each with an ending of its own. */
  lemma LinesIff(s: Bytes, lines: seq<Bytes>)
    ensures Lines(s) == lines <==> exists ends :: ValidEndings(lines, ends) && Written(lines, ends) == s
  {
    if Lines(s) == lines {
      var ends := EndingsOf(s);
    }
    forall ends | ValidEndings(lines, ends) && Written(lines, ends) == s ensures Lines(s) == lines {
      LinesOfWritten(lines, ends);
    }
  }
}
