/** The byte strings that are hashed and signed: crates/core/src/canonical.rs. */
module Canonical {
  import opened Prelude
  import opened Sorting
  import opened Article

  const FROM: Bytes := [70, 114, 111, 109]
  const DATE: Bytes := [68, 97, 116, 101]
  const MESSAGE_ID: Bytes := [77, 101, 115, 115, 97, 103, 101, 45, 73, 68]
  const NEWSGROUPS: Bytes := [78, 101, 119, 115, 103, 114, 111, 117, 112, 115]
  const SUBJECT: Bytes := [83, 117, 98, 106, 101, 99, 116]
  const PATH: Bytes := [80, 97, 116, 104]

  function Line(name: Bytes, value: Bytes): Bytes {
    name + [COLON, SPACE] + value + [CR, LF]
  }

  function SortGroups(groups: seq<GroupName>): seq<Bytes> {
    Sort<Bytes>(groups, LexLeq)
  }

  function Join(parts: seq<Bytes>): Bytes {
    if parts == [] then [] else if |parts| == 1 then parts[0] else parts[0] + [COMMA] + Join(parts[1..])
  }

  function Lines(extra: seq<(Bytes, Bytes)>): Bytes {
    if extra == [] then [] else Line(extra[0].0, extra[0].1) + Lines(extra[1..])
  }

  /** What follows the fixed headers. */
  function Tail(extra: seq<(Bytes, Bytes)>, body: Bytes): Bytes {
    Lines(extra) + ([NUL, LF] + body)
  }

  /** The canonical form, nested so that each line is followed by all that comes after it. */
  function Canonical(a: Article): Bytes {
    var h := a.header;
    Line(FROM, h.from) + (Line(DATE, h.date) + (Line(MESSAGE_ID, h.messageId)
    + (Line(NEWSGROUPS, Join(SortGroups(h.newsgroups))) + (Line(SUBJECT, h.subject) + (Line(PATH, h.path)
    + Tail(Sort(h.extra, PairLeq), a.body))))))
  }

  // ----- The encoder as written -----

  method PushHeader(out: Bytes, name: Bytes, value: Bytes) returns (r: Bytes)
    ensures r == out + Line(name, value)
  {
    r := out + name;
    r := r + [COLON, SPACE];
    r := r + value;
    r := r + [CR, LF];
  }

  lemma LinesStep(extra: seq<(Bytes, Bytes)>, i: nat)
    requires i < |extra|
    ensures Lines(extra[i..]) == Line(extra[i].0, extra[i].1) + Lines(extra[i + 1..])
  {
    assert extra[i..][1..] == extra[i + 1..];
  }

  /** The loop over the extra headers. */
  method PushExtras(fixed: Bytes, extra: seq<(Bytes, Bytes)>) returns (out: Bytes)
    ensures out == fixed + Lines(extra)
  {
    out := fixed;
    for i := 0 to |extra|
      invariant out + Lines(extra[i..]) == fixed + Lines(extra)
    {
      LinesStep(extra, i);
      Assoc(out, Line(extra[i].0, extra[i].1), Lines(extra[i + 1..]));
      out := PushHeader(out, extra[i].0, extra[i].1);
    }
    assert out + [] == out;
  }

  lemma Assoc(a: Bytes, b: Bytes, c: Bytes)
    ensures a + b + c == a + (b + c)
  {}

  lemma Nest(a: Bytes, b: Bytes, c: Bytes, d: Bytes, e: Bytes, f: Bytes, t: Bytes)
    ensures [] + a + b + c + d + e + f + t == a + (b + (c + (d + (e + (f + t)))))
  {
    assert [] + a == a;
    Assoc(a + b + c + d + e, f, t);
    Assoc(a + b + c + d, e, f + t);
    Assoc(a + b + c, d, e + (f + t));
    Assoc(a + b, c, d + (e + (f + t)));
    Assoc(a, b, c + (d + (e + (f + t))));
  }

  method CanonicalBytes(a: Article) returns (out: Bytes)
    ensures out == Canonical(a)
  {
    var h := a.header;
    out := [];
    out := PushHeader(out, FROM, h.from);
    out := PushHeader(out, DATE, h.date);
    out := PushHeader(out, MESSAGE_ID, h.messageId);
    var groups := SortGroups(h.newsgroups);
    out := PushHeader(out, NEWSGROUPS, Join(groups));
    out := PushHeader(out, SUBJECT, h.subject);
    out := PushHeader(out, PATH, h.path);
    ghost var fixed := out;
    var extra := Sort(h.extra, PairLeq);
    out := PushExtras(out, extra);
    out := out + [NUL, LF];
    out := out + a.body;
    Assoc(fixed + Lines(extra), [NUL, LF], a.body);
    Assoc(fixed, Lines(extra), [NUL, LF] + a.body);
    Nest(Line(FROM, h.from), Line(DATE, h.date), Line(MESSAGE_ID, h.messageId), Line(NEWSGROUPS, Join(groups)),
         Line(SUBJECT, h.subject), Line(PATH, h.path), Tail(extra, a.body));
  }

  // ----- Framing -----

  lemma SeparatorFirst(c: byte, a: Bytes, x: Bytes)
    requires c !in a
    ensures (a + ([c] + x))[0] == c <==> a == []
  {
    assert a != [] ==> a[0] in a;
  }

  /** Text up to the first `c` is determined by the whole. */
  lemma {:induction false} Cut(c: byte, a: Bytes, x: Bytes, b: Bytes, y: Bytes)
    requires c !in a && c !in b && a + ([c] + x) == b + ([c] + y)
    ensures a == b && x == y
  {
    var s := a + ([c] + x);
    var t := b + ([c] + y);
    SeparatorFirst(c, a, x);
    SeparatorFirst(c, b, y);
    if a == [] {
      assert s[1..] == x && t[1..] == y;
    } else {
      assert s[1..] == a[1..] + ([c] + x) && t[1..] == b[1..] + ([c] + y);
      assert s[0] == a[0] && t[0] == b[0];
      Cut(c, a[1..], x, b[1..], y);
      assert a == [a[0]] + a[1..] && b == [b[0]] + b[1..];
    }
  }

  lemma Unprefix(p: Bytes, x: Bytes, y: Bytes)
    requires p + x == p + y
    ensures x == y
  {
    assert (p + x)[|p|..] == x && (p + y)[|p|..] == y;
  }

  /** One header line, for a name both sides share. */
  lemma CutLine(name: Bytes, v: Bytes, x: Bytes, w: Bytes, y: Bytes)
    requires CR !in v && CR !in w && Line(name, v) + x == Line(name, w) + y
    ensures v == w && x == y
  {
    var p := name + [COLON, SPACE];
    assert Line(name, v) + x == p + (v + ([CR] + ([LF] + x)));
    assert Line(name, w) + y == p + (w + ([CR] + ([LF] + y)));
    Unprefix(p, v + ([CR] + ([LF] + x)), w + ([CR] + ([LF] + y)));
    Cut(CR, v, [LF] + x, w, [LF] + y);
    Unprefix([LF], x, y);
  }

  /** One extra header line, whose name ends at its colon. */
  lemma CutExtra(m: Bytes, v: Bytes, x: Bytes, n: Bytes, w: Bytes, y: Bytes)
    requires COLON !in m && COLON !in n && CR !in v && CR !in w && Line(m, v) + x == Line(n, w) + y
    ensures m == n && v == w && x == y
  {
    var a := [SPACE] + v + [CR, LF] + x;
    var b := [SPACE] + w + [CR, LF] + y;
    assert Line(m, v) + x == m + ([COLON] + a) && Line(n, w) + y == n + ([COLON] + b);
    Cut(COLON, m, a, n, b);
    CutLine(m, v, x, w, y);
  }

  predicate CommaFree(parts: seq<Bytes>) {
    forall i :: 0 <= i < |parts| ==> COMMA !in parts[i]
  }

  lemma JoinComma(parts: seq<Bytes>)
    requires parts != [] && CommaFree(parts)
    ensures COMMA in Join(parts) <==> |parts| > 1
  {
    if |parts| > 1 {
      assert Join(parts)[|parts[0]|] == COMMA;
    }
  }

  lemma {:induction false} JoinInjective(a: seq<Bytes>, b: seq<Bytes>)
    requires a != [] && b != [] && CommaFree(a) && CommaFree(b) && Join(a) == Join(b)
    ensures a == b
  {
    JoinComma(a);
    JoinComma(b);
    if |a| > 1 {
      assert Join(a) == a[0] + ([COMMA] + Join(a[1..])) && Join(b) == b[0] + ([COMMA] + Join(b[1..]));
      Cut(COMMA, a[0], Join(a[1..]), b[0], Join(b[1..]));
      JoinInjective(a[1..], b[1..]);
      assert a == [a[0]] + a[1..] && b == [b[0]] + b[1..];
    }
  }

  /** The separator starts with a byte no header line starts with, so the list of lines is determined. */
  lemma {:induction false} TailInjective(e: seq<(Bytes, Bytes)>, x: Bytes, f: seq<(Bytes, Bytes)>, y: Bytes)
    requires CleanExtras(e) && CleanExtras(f) && Tail(e, x) == Tail(f, y)
    ensures e == f && x == y
  {
    FirstOfTail(e, x);
    FirstOfTail(f, y);
    if e == [] {
      assert Tail(e, x) == [NUL, LF] + x && Tail(f, y) == [NUL, LF] + y;
      Unprefix([NUL, LF], x, y);
    } else {
      assert f != [];
      assert Tail(e, x) == Line(e[0].0, e[0].1) + Tail(e[1..], x);
      assert Tail(f, y) == Line(f[0].0, f[0].1) + Tail(f[1..], y);
      CutExtra(e[0].0, e[0].1, Tail(e[1..], x), f[0].0, f[0].1, Tail(f[1..], y));
      TailInjective(e[1..], x, f[1..], y);
      assert e == [e[0]] + e[1..] && f == [f[0]] + f[1..];
    }
  }

  lemma FirstOfTail(e: seq<(Bytes, Bytes)>, x: Bytes)
    requires CleanExtras(e)
    ensures Tail(e, x) != [] && (Tail(e, x)[0] == NUL <==> e == [])
  {
    if e != [] {
      assert Tail(e, x)[0] == e[0].0[0];
      assert e[0].0[0] in e[0].0;
    }
  }

  /** The same article, up to the order of its groups and of its extra headers. */
  predicate SameArticle(a: Article, b: Article) {
    var h, k := a.header, b.header;
    && h.from == k.from && h.date == k.date && h.messageId == k.messageId && h.subject == k.subject && h.path == k.path
    && multiset(h.newsgroups) == multiset(k.newsgroups)
    && multiset(h.extra) == multiset(k.extra)
    && a.body == b.body
  }

  lemma {:induction false} JoinHasNoCr(parts: seq<Bytes>)
    requires forall i :: 0 <= i < |parts| ==> CR !in parts[i]
    ensures CR !in Join(parts)
  {
    if |parts| > 1 { JoinHasNoCr(parts[1..]); }
  }

  lemma SortedGroups(groups: seq<GroupName>)
    ensures multiset(SortGroups(groups)) == multiset(groups)
    ensures CommaFree(SortGroups(groups)) && CR !in Join(SortGroups(groups))
    ensures groups != [] ==> SortGroups(groups) != []
  {
    LexLeqIsTotalOrder();
    SortSorts<Bytes>(groups, LexLeq);
    var sorted := SortGroups(groups);
    forall i | 0 <= i < |sorted| ensures COMMA !in sorted[i] && CR !in sorted[i] {
      assert sorted[i] in multiset(groups);
      assert sorted[i] in groups;
      GroupNameBytes(sorted[i]);
    }
    JoinHasNoCr(sorted);
    assert |multiset(sorted)| == |multiset(groups)|;
  }

  lemma SortedExtrasAreClean(extra: seq<(Bytes, Bytes)>)
    requires CleanExtras(extra)
    ensures CleanExtras(Sort(extra, PairLeq))
  {
    PairLeqIsTotalOrder();
    SortSorts(extra, PairLeq);
    var sorted := Sort(extra, PairLeq);
    forall i | 0 <= i < |sorted| ensures sorted[i] in extra {
      assert sorted[i] in multiset(extra);
    }
  }

  /** Equal bytes come from equal articles. */
  lemma CanonicalDetermines(a: Article, b: Article)
    requires Framed(a) && Framed(b) && Canonical(a) == Canonical(b)
    ensures SameArticle(a, b)
  {
    var h, k := a.header, b.header;
    var ja, jb := Join(SortGroups(h.newsgroups)), Join(SortGroups(k.newsgroups));
    var ta, tb := Tail(Sort(h.extra, PairLeq), a.body), Tail(Sort(k.extra, PairLeq), b.body);
    var pa, pb := Line(PATH, h.path) + ta, Line(PATH, k.path) + tb;
    var sa, sb := Line(SUBJECT, h.subject) + pa, Line(SUBJECT, k.subject) + pb;
    var na, nb := Line(NEWSGROUPS, ja) + sa, Line(NEWSGROUPS, jb) + sb;
    var ma, mb := Line(MESSAGE_ID, h.messageId) + na, Line(MESSAGE_ID, k.messageId) + nb;
    var da, db := Line(DATE, h.date) + ma, Line(DATE, k.date) + mb;
    CutLine(FROM, h.from, da, k.from, db);
    CutLine(DATE, h.date, ma, k.date, mb);
    CutLine(MESSAGE_ID, h.messageId, na, k.messageId, nb);
    SortedGroups(h.newsgroups);
    SortedGroups(k.newsgroups);
    CutLine(NEWSGROUPS, ja, sa, jb, sb);
    CutLine(SUBJECT, h.subject, pa, k.subject, pb);
    CutLine(PATH, h.path, ta, k.path, tb);
    GroupsDetermined(h.newsgroups, k.newsgroups);
    ExtrasDetermined(h.extra, a.body, k.extra, b.body);
  }

  lemma GroupsDetermined(a: seq<GroupName>, b: seq<GroupName>)
    requires a != [] && b != [] && Join(SortGroups(a)) == Join(SortGroups(b))
    ensures multiset(a) == multiset(b)
  {
    SortedGroups(a);
    SortedGroups(b);
    JoinInjective(SortGroups(a), SortGroups(b));
  }

  lemma ExtrasDetermined(e: seq<(Bytes, Bytes)>, x: Bytes, f: seq<(Bytes, Bytes)>, y: Bytes)
    requires CleanExtras(e) && CleanExtras(f) && Tail(Sort(e, PairLeq), x) == Tail(Sort(f, PairLeq), y)
    ensures multiset(e) == multiset(f) && x == y
  {
    SortedExtrasAreClean(e);
    SortedExtrasAreClean(f);
    TailInjective(Sort(e, PairLeq), x, Sort(f, PairLeq), y);
    PairLeqIsTotalOrder();
    SortSorts(e, PairLeq);
    SortSorts(f, PairLeq);
  }

  /**
   Two articles that passed ingress validation have the same canonical bytes exactly when they
   are the same article up to the order of groups and of extra headers.
   */
  lemma CanonicalIsInjective(a: Article, b: Article, configA: Config, configB: Config)
    requires FirstError(a, configA).None? && FirstError(b, configB).None?
    ensures Canonical(a) == Canonical(b) <==> SameArticle(a, b)
  {
    AcceptedIsFramed(a, configA);
    AcceptedIsFramed(b, configB);
    if Canonical(a) == Canonical(b) {
      CanonicalDetermines(a, b);
    }
    if SameArticle(a, b) {
      LexLeqIsTotalOrder();
      PairLeqIsTotalOrder();
      SortEqualIff<Bytes>(a.header.newsgroups, b.header.newsgroups, LexLeq);
      SortEqualIff(a.header.extra, b.header.extra, PairLeq);
    }
  }

  // ----- Reading the bytes -----

  function Ascii(s: string): Bytes {
    seq(|s|, i requires 0 <= i < |s| => if s[i] as int < 0x80 then s[i] as int else 63)
  }

  datatype Fields = Fields(lines: seq<(Bytes, Bytes)>, body: Bytes)

  /** A reader of its own. One line: a name up to the first colon, a blank, a value up to the first CR, and an LF. */
  function ReadLine(s: Bytes): (p: Parse<byte, (Bytes, Bytes)>)
    ensures p.Done? ==> |p.rest| < |s|
  {
    var k := IndexOf(s, 58);
    if k + 2 > |s| || s[k + 1] != 32 then Fail else
    var value := s[k + 2..];
    var j := IndexOf(value, 13);
    if j + 2 > |value| || value[j + 1] != 10 then Fail else Done((s[..k], value[..j]), value[j + 2..])
  }

  /** Lines, until a NUL in the place of a name; what follows it and an LF is the body. */
  function ReadFields(s: Bytes): Option<Fields>
    decreases |s|
  {
    if s == [] then None
    else if s[0] == 0 then if |s| > 1 && s[1] == 10 then Some(Fields([], s[2..])) else None
    else match ReadLine(s)
      case Fail => None
      case Done(line, rest) =>
        match ReadFields(rest) case None => None case Some(f) => Some(Fields([line] + f.lines, f.body))
  }

  lemma {:induction false} IndexOfFirst(a: Bytes, b: byte, x: Bytes)
    requires b !in a
    ensures IndexOf(a + ([b] + x), b) == |a|
  {
    var s := a + ([b] + x);
    if a != [] {
      assert s[0] == a[0] && a[0] in a;
      assert s[1..] == a[1..] + ([b] + x);
      IndexOfFirst(a[1..], b, x);
    }
  }

  /** One line that a reader can read. */
  predicate Readable(e: (Bytes, Bytes)) {
    e.0 != [] && NUL !in e.0 && COLON !in e.0 && CR !in e.1
  }

  predicate AllReadable(es: seq<(Bytes, Bytes)>) {
    forall i :: 0 <= i < |es| ==> Readable(es[i])
  }

  lemma LineShape(name: Bytes, value: Bytes, x: Bytes)
    ensures Line(name, value) + x == name + ([COLON] + ([SPACE] + (value + ([CR] + ([LF] + x)))))
  {}

  lemma LineReads(e: (Bytes, Bytes), x: Bytes)
    requires Readable(e)
    ensures var s := Line(e.0, e.1) + x; s != [] && s[0] != NUL && ReadLine(s) == Done(e, x)
  {
    var value := e.1 + ([CR] + ([LF] + x));
    var s := e.0 + ([COLON] + ([SPACE] + value));
    LineShape(e.0, e.1, x);
    assert s[0] == e.0[0] && e.0[0] in e.0;
    IndexOfFirst(e.0, COLON, [SPACE] + value);
    var k := |e.0|;
    assert s[..k] == e.0 && s[k + 1] == SPACE && s[k + 2..] == value;
    IndexOfFirst(e.1, CR, [LF] + x);
    var j := |e.1|;
    assert value[..j] == e.1 && value[j + 1] == LF && value[j + 2..] == x;
  }

  lemma TailCons(e: (Bytes, Bytes), es: seq<(Bytes, Bytes)>, body: Bytes)
    ensures Tail([e] + es, body) == Line(e.0, e.1) + Tail(es, body)
  {
    assert ([e] + es)[1..] == es;
    Assoc(Line(e.0, e.1), Lines(es), [NUL, LF] + body);
  }

  lemma FieldsStep(s: Bytes, line: (Bytes, Bytes), rest: Bytes, f: Fields)
    requires s != [] && s[0] != NUL && ReadLine(s) == Done(line, rest) && ReadFields(rest) == Some(f)
    ensures ReadFields(s) == Some(Fields([line] + f.lines, f.body))
  {}

  lemma NoLinesRead(body: Bytes)
    ensures ReadFields(Tail([], body)) == Some(Fields([], body))
  {
    var s := [NUL, LF] + body;
    assert Tail([], body) == s && s[2..] == body;
  }

  lemma OneMoreRead(e: (Bytes, Bytes), es: seq<(Bytes, Bytes)>, body: Bytes)
    requires Readable(e) && ReadFields(Tail(es, body)) == Some(Fields(es, body))
    ensures ReadFields(Tail([e] + es, body)) == Some(Fields([e] + es, body))
  {
    var rest := Tail(es, body);
    LineReads(e, rest);
    FieldsStep(Line(e.0, e.1) + rest, e, rest, Fields(es, body));
    TailCons(e, es, body);
  }

  lemma {:induction false} TailReads(es: seq<(Bytes, Bytes)>, body: Bytes)
    requires AllReadable(es)
    ensures ReadFields(Tail(es, body)) == Some(Fields(es, body))
  {
    if es == [] {
      NoLinesRead(body);
    } else {
      TailReads(es[1..], body);
      OneMoreRead(es[0], es[1..], body);
      assert es == [es[0]] + es[1..];
    }
  }

  /** The headers in the order they are written, the groups and the extra headers sorted. */
  function HeaderLines(a: Article, groups: seq<Bytes>, extra: seq<(Bytes, Bytes)>): seq<(Bytes, Bytes)> {
    var h := a.header;
    [(Ascii("From"), h.from), (Ascii("Date"), h.date), (Ascii("Message-ID"), h.messageId), (Ascii("Newsgroups"), Join(groups)),
     (Ascii("Subject"), h.subject), (Ascii("Path"), h.path)] + extra
  }

  lemma NamesAreSpelled()
    ensures FROM == Ascii("From") && DATE == Ascii("Date") && MESSAGE_ID == Ascii("Message-ID")
    ensures NEWSGROUPS == Ascii("Newsgroups") && SUBJECT == Ascii("Subject") && PATH == Ascii("Path")
  {}

  lemma CanonicalIsTail(a: Article)
    ensures Canonical(a) == Tail(HeaderLines(a, SortGroups(a.header.newsgroups), Sort(a.header.extra, PairLeq)), a.body)
  {
    NamesAreSpelled();
    var h, extra := a.header, Sort(a.header.extra, PairLeq);
    var path := [(PATH, h.path)] + extra;
    var subject := [(SUBJECT, h.subject)] + path;
    var groups := [(NEWSGROUPS, Join(SortGroups(h.newsgroups)))] + subject;
    var id := [(MESSAGE_ID, h.messageId)] + groups;
    var date := [(DATE, h.date)] + id;
    TailCons((PATH, h.path), extra, a.body);
    TailCons((SUBJECT, h.subject), path, a.body);
    TailCons((NEWSGROUPS, Join(SortGroups(h.newsgroups))), subject, a.body);
    TailCons((MESSAGE_ID, h.messageId), groups, a.body);
    TailCons((DATE, h.date), id, a.body);
    TailCons((FROM, h.from), date, a.body);
    assert [(FROM, h.from)] + date == HeaderLines(a, SortGroups(h.newsgroups), extra);
  }

  /** Ascending, byte by byte. */
  predicate Ascending(parts: seq<Bytes>) {
    forall i, j :: 0 <= i < j < |parts| ==> LexLess(parts[i], parts[j]) || parts[i] == parts[j]
  }

  /** Ascending by name, and by value where names are equal. */
  predicate AscendingPairs(es: seq<(Bytes, Bytes)>) {
    forall i, j :: 0 <= i < j < |es| ==>
      LexLess(es[i].0, es[j].0) || (es[i].0 == es[j].0 && (LexLess(es[i].1, es[j].1) || es[i].1 == es[j].1))
  }

  lemma FixedNamesReadable()
    ensures NUL !in FROM && COLON !in FROM && NUL !in DATE && COLON !in DATE && NUL !in MESSAGE_ID && COLON !in MESSAGE_ID
    ensures NUL !in NEWSGROUPS && COLON !in NEWSGROUPS && NUL !in SUBJECT && COLON !in SUBJECT && NUL !in PATH && COLON !in PATH
  {}

  lemma HeaderLinesReadable(a: Article, groups: seq<Bytes>, extra: seq<(Bytes, Bytes)>)
    requires Framed(a) && CleanExtras(extra) && CR !in Join(groups)
    ensures AllReadable(HeaderLines(a, groups, extra))
  {
    NamesAreSpelled();
    FixedNamesReadable();
    var ls := HeaderLines(a, groups, extra);
    forall i | 6 <= i < |ls| ensures Readable(ls[i]) {
      assert ls[i] == extra[i - 6];
    }
  }

  lemma {:induction false} JoinSplits(parts: seq<Bytes>)
    requires parts != [] && CommaFree(parts)
    ensures Split(Join(parts), COMMA) == parts
  {
    if |parts| == 1 {
      SplitOne(parts[0], COMMA);
      assert parts == [parts[0]];
    } else {
      JoinSplits(parts[1..]);
      assert Join(parts) == parts[0] + ([COMMA] + Join(parts[1..]));
      SplitFirst(parts[0], COMMA, Join(parts[1..]));
      assert parts == [parts[0]] + parts[1..];
    }
  }

  lemma {:induction false} SplitOne(s: Bytes, sep: byte)
    requires sep !in s
    ensures Split(s, sep) == [s]
  {
    if s != [] {
      assert s[0] in s;
      SplitOne(s[1..], sep);
      assert s == [s[0]] + s[1..];
    }
  }

  lemma {:induction false} SplitFirst(a: Bytes, sep: byte, x: Bytes)
    requires sep !in a
    ensures Split(a + ([sep] + x), sep) == [a] + Split(x, sep)
  {
    var s := a + ([sep] + x);
    if a == [] {
      assert s[0] == sep && s[1..] == x;
    } else {
      assert s[0] == a[0] && a[0] in a && s[1..] == a[1..] + ([sep] + x);
      SplitFirst(a[1..], sep, x);
      assert a == [a[0]] + a[1..];
    }
  }

  /**
   What the canonical bytes of an accepted article say, to a reader that knows nothing of the
   article: the six headers by name and in order, with the groups ascending between commas, then
   the extra headers ascending by name and value, then the body.
   */
  lemma CanonicalReads(a: Article, config: Config) returns (groups: seq<Bytes>, extra: seq<(Bytes, Bytes)>)
    requires FirstError(a, config).None?
    ensures ReadFields(Canonical(a)) == Some(Fields(HeaderLines(a, groups, extra), a.body))
    ensures multiset(groups) == multiset(a.header.newsgroups) && Ascending(groups) && Split(Join(groups), 44) == groups
    ensures multiset(extra) == multiset(a.header.extra) && AscendingPairs(extra)
  {
    AcceptedIsFramed(a, config);
    groups, extra := SortGroups(a.header.newsgroups), Sort(a.header.extra, PairLeq);
    SortedGroups(a.header.newsgroups);
    SortedExtrasAreClean(a.header.extra);
    HeaderLinesReadable(a, groups, extra);
    CanonicalIsTail(a);
    TailReads(HeaderLines(a, groups, extra), a.body);
    JoinSplits(groups);
    LexLeqIsTotalOrder();
    SortSorts<Bytes>(a.header.newsgroups, LexLeq);
    PairLeqIsTotalOrder();
    SortSorts(a.header.extra, PairLeq);
  }

  // ----- Log entries -----

  type Cid = Bytes

  /** A 64-bit number, most significant byte first. */
  function BigEndian(n: nat, width: nat): (b: Bytes)
    ensures |b| == width
  {
    if width == 0 then [] else BigEndian(n / 0x100, width - 1) + [n % 0x100]
  }

  function Concat(parts: seq<Bytes>): Bytes {
    if parts == [] then [] else parts[0] + Concat(parts[1..])
  }

  /** The bytes an operator signs. */
  function SignedBytes(hlc: u64, cid: Cid, parents: seq<Cid>): Bytes {
    BigEndian(hlc, 8) + (cid + Concat(Sort(parents, LexLeq)))
  }

  /** The bytes an entry's id is derived from. */
  function EntryIdBytes(hlc: u64, cid: Cid, signature: Bytes, parents: seq<Cid>): Bytes {
    BigEndian(hlc, 8) + (cid + (signature + Concat(Sort(parents, LexLeq))))
  }

  method AppendSorted(out: Bytes, parents: seq<Cid>) returns (r: Bytes)
    ensures r == out + Concat(Sort(parents, LexLeq))
  {
    r := out;
    var sorted := Sort(parents, LexLeq);
    for i := 0 to |sorted|
      invariant r + Concat(sorted[i..]) == out + Concat(sorted)
    {
      assert sorted[i..][1..] == sorted[i + 1..];
      r := r + sorted[i];
    }
  }

  method LogEntryCanonicalBytes(hlc: u64, cid: Cid, parents: seq<Cid>) returns (out: Bytes)
    ensures out == SignedBytes(hlc, cid, parents)
  {
    out := BigEndian(hlc, 8);
    out := out + cid;
    out := AppendSorted(out, parents);
  }

  method LogEntryIdBytes(hlc: u64, cid: Cid, signature: Bytes, parents: seq<Cid>) returns (out: Bytes)
    ensures out == EntryIdBytes(hlc, cid, signature, parents)
  {
    out := BigEndian(hlc, 8);
    out := out + cid;
    out := out + signature;
    out := AppendSorted(out, parents);
  }

  function Pow256(w: nat): nat {
    if w == 0 then 1 else 0x100 * Pow256(w - 1)
  }

  lemma {:induction false} BigEndianInjective(m: nat, n: nat, width: nat)
    requires m < Pow256(width) && n < Pow256(width) && BigEndian(m, width) == BigEndian(n, width)
    ensures m == n
  {
    if width > 0 {
      var a, b := BigEndian(m / 0x100, width - 1), BigEndian(n / 0x100, width - 1);
      assert (a + [m % 0x100])[..width - 1] == a && (b + [n % 0x100])[..width - 1] == b;
      assert (a + [m % 0x100])[width - 1] == m % 0x100 && (b + [n % 0x100])[width - 1] == n % 0x100;
      BigEndianInjective(m / 0x100, n / 0x100, width - 1);
    }
  }

  lemma CutAt(a: Bytes, x: Bytes, b: Bytes, y: Bytes)
    requires |a| == |b| && a + x == b + y
    ensures a == b && x == y
  {
    assert a == (a + x)[..|a|] && b == (b + y)[..|b|];
    Unprefix(a, x, y);
  }

  predicate AllOfLength(parts: seq<Bytes>, len: nat) {
    forall i :: 0 <= i < |parts| ==> |parts[i]| == len
  }

  lemma {:induction false} ConcatInjective(a: seq<Bytes>, b: seq<Bytes>, len: nat)
    requires len > 0 && AllOfLength(a, len) && AllOfLength(b, len) && Concat(a) == Concat(b)
    ensures a == b
  {
    if a == [] || b == [] {
      assert |Concat(a)| == 0 ==> a == [];
      assert |Concat(b)| == 0 ==> b == [];
    } else {
      CutAt(a[0], Concat(a[1..]), b[0], Concat(b[1..]));
      ConcatInjective(a[1..], b[1..], len);
      assert a == [a[0]] + a[1..] && b == [b[0]] + b[1..];
    }
  }

  lemma ParentsDetermined(a: seq<Cid>, b: seq<Cid>, len: nat)
    requires len > 0 && AllOfLength(a, len) && AllOfLength(b, len)
    ensures Concat(Sort(a, LexLeq)) == Concat(Sort(b, LexLeq)) <==> multiset(a) == multiset(b)
  {
    LexLeqIsTotalOrder();
    SortSorts(a, LexLeq);
    SortSorts(b, LexLeq);
    SortEqualIff(a, b, LexLeq);
    SortKeepsLength(a, len);
    SortKeepsLength(b, len);
    if Concat(Sort(a, LexLeq)) == Concat(Sort(b, LexLeq)) {
      ConcatInjective(Sort(a, LexLeq), Sort(b, LexLeq), len);
    }
  }

  lemma SortKeepsLength(a: seq<Cid>, len: nat)
    requires AllOfLength(a, len)
    ensures AllOfLength(Sort(a, LexLeq), len)
  {
    LexLeqIsTotalOrder();
    SortSorts(a, LexLeq);
    var sorted := Sort(a, LexLeq);
    forall i | 0 <= i < |sorted| ensures |sorted[i]| == len {
      assert sorted[i] in multiset(a);
    }
  }

  /**
   With CIDs of one fixed length, what is signed determines the timestamp, the article and the
   multiset of parents, and nothing else.
   */
  lemma SignedBytesInjective(hlc: u64, cid: Cid, parents: seq<Cid>, hlc': u64, cid': Cid, parents': seq<Cid>, len: nat)
    requires len > 0 && |cid| == |cid'| == len && AllOfLength(parents, len) && AllOfLength(parents', len)
    ensures SignedBytes(hlc, cid, parents) == SignedBytes(hlc', cid', parents')
       <==> hlc == hlc' && cid == cid' && multiset(parents) == multiset(parents')
  {
    var p, q := Concat(Sort(parents, LexLeq)), Concat(Sort(parents', LexLeq));
    ParentsDetermined(parents, parents', len);
    if SignedBytes(hlc, cid, parents) == SignedBytes(hlc', cid', parents') {
      CutAt(BigEndian(hlc, 8), cid + p, BigEndian(hlc', 8), cid' + q);
      CutAt(cid, p, cid', q);
      HlcFits();
      BigEndianInjective(hlc, hlc', 8);
    }
  }

  lemma HlcFits()
    ensures Pow256(8) == 0x1_0000_0000_0000_0000
  {
    assert Pow256(4) == 0x1_0000_0000;
    assert Pow256(6) == 0x1_0000_0000_0000;
  }

  /** With signatures of one fixed length as well, an entry id also determines the signature. */
  lemma EntryIdBytesInjective(hlc: u64, cid: Cid, sig: Bytes, parents: seq<Cid>, hlc': u64, cid': Cid, sig': Bytes, parents': seq<Cid>, len: nat)
    requires len > 0 && |cid| == |cid'| == len && AllOfLength(parents, len) && AllOfLength(parents', len)
    requires |sig| == |sig'|
    ensures EntryIdBytes(hlc, cid, sig, parents) == EntryIdBytes(hlc', cid', sig', parents')
       <==> hlc == hlc' && cid == cid' && sig == sig' && multiset(parents) == multiset(parents')
  {
    var p, q := Concat(Sort(parents, LexLeq)), Concat(Sort(parents', LexLeq));
    ParentsDetermined(parents, parents', len);
    if EntryIdBytes(hlc, cid, sig, parents) == EntryIdBytes(hlc', cid', sig', parents') {
      CutAt(BigEndian(hlc, 8), cid + (sig + p), BigEndian(hlc', 8), cid' + (sig' + q));
      CutAt(cid, sig + p, cid', sig' + q);
      CutAt(sig, p, sig', q);
      HlcFits();
      BigEndianInjective(hlc, hlc', 8);
    }
  }

  /** Without that, an entry id is ambiguous: a parent can pass for the end of a signature. */
  lemma EntryIdNeedsFixedSignatures(hlc: u64, cid: Cid, sig: Bytes, parent: Cid)
    ensures EntryIdBytes(hlc, cid, sig, [parent]) == EntryIdBytes(hlc, cid, sig + parent, [])
  {
    assert Sort([parent], LexLeq) == [parent];
    assert Concat([parent]) == parent;
    assert sig + parent == (sig + parent) + [];
  }

  // ----- Reading log entries -----

  /** A number from its bytes, the first of which counts most. */
  function NumberOf(b: Bytes): nat {
    if b == [] then 0 else b[0] * Pow256(|b| - 1) + NumberOf(b[1..])
  }

  lemma {:induction false} NumberOfSnoc(b: Bytes, last: byte)
    ensures NumberOf(b + [last]) == 0x100 * NumberOf(b) + last
  {
    if b == [] {
      assert [last][1..] == [] && Pow256(0) == 1;
    } else {
      var s := b + [last];
      assert s[1..] == b[1..] + [last];
      NumberOfSnoc(b[1..], last);
      PowStep(b[0], |b| - 1);
    }
  }

  lemma PowStep(x: nat, w: nat)
    ensures x * Pow256(w + 1) == 0x100 * (x * Pow256(w))
  {
    var p := Pow256(w);
    assert Pow256(w + 1) == 0x100 * p;
    assert x * (0x100 * p) == 0x100 * (x * p);
  }

  lemma {:induction false} BigEndianReads(n: nat, width: nat)
    requires n < Pow256(width)
    ensures NumberOf(BigEndian(n, width)) == n
  {
    if width > 0 {
      BigEndianReads(n / 0x100, width - 1);
      NumberOfSnoc(BigEndian(n / 0x100, width - 1), n % 0x100);
    }
  }

  lemma EightBytes(hlc: u64)
    ensures NumberOf(BigEndian(hlc, 8)) == hlc
  {
    assert Pow256(2) == 0x1_0000 && Pow256(4) == 0x1_0000_0000;
    assert Pow256(6) == 0x1_0000_0000_0000 && Pow256(8) == 0x1_0000_0000_0000_0000;
    BigEndianReads(hlc, 8);
  }

  /** The signed bytes: eight for the time, most significant first, the article's CID, and the parents ascending. */
  lemma SignedBytesRead(hlc: u64, cid: Cid, parents: seq<Cid>) returns (sorted: seq<Cid>)
    ensures var s := SignedBytes(hlc, cid, parents);
            && |s| >= 8 + |cid| && NumberOf(s[..8]) == hlc && s[8..8 + |cid|] == cid && s[8 + |cid|..] == Concat(sorted)
    ensures multiset(sorted) == multiset(parents) && Ascending(sorted)
  {
    sorted := Sort(parents, LexLeq);
    var time, s := BigEndian(hlc, 8), SignedBytes(hlc, cid, parents);
    EightBytes(hlc);
    assert s[..8] == time && s[8..8 + |cid|] == cid && s[8 + |cid|..] == Concat(sorted);
    LexLeqIsTotalOrder();
    SortSorts(parents, LexLeq);
  }

  lemma FourParts(a: Bytes, b: Bytes, c: Bytes, d: Bytes)
    ensures var s := a + (b + (c + d)); var k := |a| + |b|;
            |s| >= k + |c| && s[..|a|] == a && s[|a|..k] == b && s[k..k + |c|] == c && s[k + |c|..] == d
  {}

  /** The id bytes: the same, with the signature before the parents. */
  lemma EntryIdBytesRead(hlc: u64, cid: Cid, sig: Bytes, parents: seq<Cid>) returns (sorted: seq<Cid>)
    ensures var s := EntryIdBytes(hlc, cid, sig, parents); var k := 8 + |cid|;
            && |s| >= k + |sig| && NumberOf(s[..8]) == hlc && s[8..k] == cid && s[k..k + |sig|] == sig && s[k + |sig|..] == Concat(sorted)
    ensures multiset(sorted) == multiset(parents) && Ascending(sorted)
  {
    sorted := Sort(parents, LexLeq);
    EightBytes(hlc);
    FourParts(BigEndian(hlc, 8), cid, sig, Concat(sorted));
    LexLeqIsTotalOrder();
    SortSorts(parents, LexLeq);
  }
}
