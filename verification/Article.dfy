/**
 Articles and their ingress validation: crates/core/src/article.rs and validation.rs. Header text is
 modelled by the bytes of its UTF-8 encoding.
 */
module Article {
  import opened Prelude
  import opened Wildmat

  const NUL: byte := 0
  const SPACE: byte := 32
  const COMMA: byte := 44
  const COLON: byte := 58
  const LT: byte := 60
  const GT: byte := 62
  const AT: byte := 64

  // ----- Group names -----

  predicate IsAlpha(b: byte) {
    65 <= b <= 90 || 97 <= b <= 122
  }

  predicate GroupByte(b: byte) {
    IsAlpha(b) || 48 <= b <= 57 || b == 45 || b == 43 || b == 95
  }

  /** The pieces of `s` between separators; the empty text is one empty piece. */
  function Split(s: Bytes, sep: byte): (pieces: seq<Bytes>)
    ensures pieces != []
  {
    if s == [] then [[]]
    else
      var rest := Split(s[1..], sep);
      if s[0] == sep then [[]] + rest else [[s[0]] + rest[0]] + rest[1..]
  }

  predicate ValidComponent(c: Bytes) {
    c != [] && IsAlpha(c[0]) && forall i :: 1 <= i < |c| ==> GroupByte(c[i])
  }

  predicate IsValidGroupName(name: Bytes) {
    name != [] && var parts := Split(name, DOT); forall i :: 0 <= i < |parts| ==> ValidComponent(parts[i])
  }

  type GroupName = s: Bytes | IsValidGroupName(s) witness [97]

  lemma {:induction false} SplitCovers(s: Bytes, sep: byte, i: nat) returns (p: nat, q: nat)
    requires i < |s| && s[i] != sep
    ensures p < |Split(s, sep)| && q < |Split(s, sep)[p]| && Split(s, sep)[p][q] == s[i]
  {
    if s[0] == sep {
      p, q := SplitCovers(s[1..], sep, i - 1);
      p := p + 1;
    } else if i == 0 {
      p, q := 0, 0;
    } else {
      p, q := SplitCovers(s[1..], sep, i - 1);
      q := if p == 0 then q + 1 else q;
    }
  }

  /** Nothing in a group name can be taken for header framing or for a list separator. */
  lemma GroupNameBytes(name: GroupName)
    ensures forall i :: 0 <= i < |name| ==> name[i] == DOT || GroupByte(name[i])
    ensures COMMA !in name && CR !in name && name != []
  {
    forall i | 0 <= i < |name| ensures name[i] == DOT || GroupByte(name[i]) {
      if name[i] != DOT {
        var p, q := SplitCovers(name, DOT, i);
        assert ValidComponent(Split(name, DOT)[p]);
      }
    }
  }

  /** Components with dots between them. */
  function Dotted(parts: seq<Bytes>): Bytes {
    if parts == [] then [] else if |parts| == 1 then parts[0] else parts[0] + [DOT] + Dotted(parts[1..])
  }

  predicate ValidComponents(parts: seq<Bytes>) {
    parts != [] && forall i :: 0 <= i < |parts| ==> ValidComponent(parts[i])
  }

  lemma {:induction false} DottedSplit(s: Bytes)
    ensures Dotted(Split(s, DOT)) == s
  {
    if s != [] {
      var rest := Split(s[1..], DOT);
      DottedSplit(s[1..]);
      if s[0] == DOT {
        assert ([[]] + rest)[1..] == rest;
        assert [] + [DOT] + s[1..] == s;
      } else {
        var first := [s[0]] + rest[0];
        var parts := [first] + rest[1..];
        assert parts[1..] == rest[1..];
        if |rest| == 1 {
          assert first == s;
        } else {
          assert first + [DOT] + Dotted(rest[1..]) == [s[0]] + (rest[0] + [DOT] + Dotted(rest[1..]));
        }
      }
    }
  }

  /** Splitting text that starts with a piece free of separators. */
  lemma {:induction false} SplitPiece(a: Bytes, x: Bytes)
    requires DOT !in a
    ensures Split(a + ([DOT] + x), DOT) == [a] + Split(x, DOT) && Split(a, DOT) == [a]
  {
    if a == [] {
      assert ([DOT] + x)[1..] == x && [] + ([DOT] + x) == [DOT] + x;
    } else {
      var s := a + ([DOT] + x);
      assert a[0] in a && s[1..] == a[1..] + ([DOT] + x);
      SplitPiece(a[1..], x);
      assert [a[0]] + a[1..] == a;
    }
  }

  lemma {:induction false} SplitDotted(parts: seq<Bytes>)
    requires ValidComponents(parts)
    ensures Split(Dotted(parts), DOT) == parts
  {
    assert ValidComponent(parts[0]) && DOT !in parts[0];
    if |parts| == 1 {
      SplitPiece(parts[0], []);
      assert parts == [parts[0]];
    } else {
      SplitDotted(parts[1..]);
      SplitPiece(parts[0], Dotted(parts[1..]));
      assert parts[0] + [DOT] + Dotted(parts[1..]) == parts[0] + ([DOT] + Dotted(parts[1..]));
      assert parts == [parts[0]] + parts[1..];
    }
  }

  /** A letter, and then letters, digits, hyphens, plus signs and underscores. */
  predicate Component(c: Bytes) {
    && c != [] && (65 <= c[0] <= 90 || 97 <= c[0] <= 122)
    && forall i :: 0 <= i < |c| ==>
         65 <= c[i] <= 90 || 97 <= c[i] <= 122 || 48 <= c[i] <= 57 || c[i] == 45 || c[i] == 43 || c[i] == 95
  }

  predicate Components(parts: seq<Bytes>) {
    parts != [] && forall i :: 0 <= i < |parts| ==> Component(parts[i])
  }

  lemma ComponentsIff(parts: seq<Bytes>)
    ensures ValidComponents(parts) <==> Components(parts)
  {
    forall i | 0 <= i < |parts| ensures ValidComponent(parts[i]) <==> Component(parts[i]) {}
  }

  /** A group name is valid exactly when it is a dotted list of such components. */
  lemma GroupNameShape(name: Bytes)
    ensures IsValidGroupName(name) <==> exists parts :: Components(parts) && name == Dotted(parts)
  {
    forall parts ensures ValidComponents(parts) <==> Components(parts) {
      ComponentsIff(parts);
    }
    if IsValidGroupName(name) {
      DottedSplit(name);
      assert ValidComponents(Split(name, DOT));
    }
    forall parts | ValidComponents(parts) && name == Dotted(parts) ensures IsValidGroupName(name) {
      SplitDotted(parts);
      assert ValidComponent(parts[0]);
    }
  }

  // ----- Articles -----

  datatype Header = Header(
    from: Bytes,
    date: Bytes,
    messageId: Bytes,
    newsgroups: seq<GroupName>,
    subject: Bytes,
    path: Bytes,
    extra: seq<(Bytes, Bytes)>)

  datatype Article = Article(header: Header, body: Bytes)

  // ----- Message ids -----

  predicate Forbidden(b: byte) {
    b <= 0x20 || b == LT || b == GT || b == 0x7F
  }

  predicate NoneForbidden(s: Bytes) {
    forall i :: 0 <= i < |s| ==> !Forbidden(s[i])
  }

  function Count(s: Bytes, b: byte): nat {
    if s == [] then 0 else (if s[0] == b then 1 else 0) + Count(s[1..], b)
  }

  function IndexOf(s: Bytes, b: byte): (k: nat)
    ensures k <= |s| && b !in s[..k] && (k < |s| ==> s[k] == b)
  {
    if s == [] || s[0] == b then 0
    else
      var k := 1 + IndexOf(s[1..], b);
      assert s[..k] == [s[0]] + s[1..][..k - 1];
      k
  }

  predicate IsValidMessageId(id: Bytes) {
    && |id| >= 2 && id[0] == LT && id[|id| - 1] == GT
    && var inner := id[1..|id| - 1];
       && Count(inner, AT) == 1
       && var k := IndexOf(inner, AT);
          var local, domain := inner[..k], if k < |inner| then inner[k + 1..] else [];
          && local != [] && domain != []
          && NoneForbidden(local) && NoneForbidden(domain)
  }

  /** One side of a message id: no controls, blanks or angle brackets, and no at sign. */
  predicate IdPart(s: Bytes) {
    s != [] && forall i :: 0 <= i < |s| ==> 0x20 < s[i] && s[i] != 0x7F && s[i] != 60 && s[i] != 62 && s[i] != 64
  }

  lemma IdPartIff(s: Bytes)
    ensures IdPart(s) <==> s != [] && AT !in s && NoneForbidden(s)
  {
    if s != [] && AT !in s && NoneForbidden(s) {
      forall i | 0 <= i < |s| ensures 0x20 < s[i] && s[i] != 0x7F && s[i] != 60 && s[i] != 62 && s[i] != 64 {
        assert !Forbidden(s[i]) && s[i] in s;
      }
    }
  }

  lemma {:induction false} CountZeroIff(s: Bytes, b: byte)
    ensures Count(s, b) == 0 <==> b !in s
  {
    if s != [] {
      CountZeroIff(s[1..], b);
      assert s == [s[0]] + s[1..];
    }
  }

  lemma {:induction false} CountSplit(s: Bytes, t: Bytes, b: byte)
    ensures Count(s + t, b) == Count(s, b) + Count(t, b)
  {
    if s == [] {
      assert s + t == t;
    } else {
      CountSplit(s[1..], t, b);
      assert (s + t)[1..] == s[1..] + t;
    }
  }

  lemma {:induction false} IndexOfSplit(a: Bytes, b: Bytes, c: byte)
    requires c !in a
    ensures IndexOf(a + [c] + b, c) == |a|
  {
    if a != [] {
      assert (a + [c] + b)[1..] == a[1..] + [c] + b;
      IndexOfSplit(a[1..], b, c);
      assert a[0] in a;
    }
  }

  lemma OneAt(local: Bytes, domain: Bytes)
    ensures Count(local + [AT] + domain, AT) == 1 <==> AT !in local && AT !in domain
  {
    CountSplit(local + [AT], domain, AT);
    CountSplit(local, [AT], AT);
    CountZeroIff(local, AT);
    CountZeroIff(domain, AT);
  }

  lemma FramedId(id: Bytes, local: Bytes, domain: Bytes)
    requires |id| >= 2 && id[0] == LT && id[|id| - 1] == GT && id[1..|id| - 1] == local + [AT] + domain
    ensures id == [LT] + local + [AT] + domain + [GT]
  {
    assert id == [LT] + id[1..|id| - 1] + [GT];
  }

  lemma CutAt(s: Bytes, k: nat)
    requires k < |s| && s[k] == AT
    ensures s == s[..k] + [AT] + s[k + 1..]
  {}

  lemma ValidIdSplits(id: Bytes) returns (local: Bytes, domain: Bytes)
    requires IsValidMessageId(id)
    ensures IdPart(local) && IdPart(domain) && id == [LT] + local + [AT] + domain + [GT]
  {
    var inner := id[1..|id| - 1];
    var k := IndexOf(inner, AT);
    local, domain := inner[..k], inner[k + 1..];
    CutAt(inner, k);
    OneAt(local, domain);
    IdPartIff(local);
    IdPartIff(domain);
    FramedId(id, local, domain);
  }

  lemma SplitIdIsValid(local: Bytes, domain: Bytes)
    requires IdPart(local) && IdPart(domain)
    ensures IsValidMessageId([LT] + local + [AT] + domain + [GT])
  {
    var id := [LT] + local + [AT] + domain + [GT];
    var inner := local + [AT] + domain;
    IdPartIff(local);
    IdPartIff(domain);
    assert id[1..|id| - 1] == inner;
    OneAt(local, domain);
    IndexOfSplit(local, domain, AT);
    assert inner[..|local|] == local && inner[|local| + 1..] == domain;
  }

  ghost predicate LocalAtDomain(id: Bytes) {
    exists local, domain :: IdPart(local) && IdPart(domain) && id == [LT] + local + [AT] + domain + [GT]
  }

  /** A message id is valid exactly when it reads `<local@domain>`. */
  lemma MessageIdShape(id: Bytes)
    ensures IsValidMessageId(id) <==> LocalAtDomain(id)
  {
    if IsValidMessageId(id) {
      var local, domain := ValidIdSplits(id);
    }
    if LocalAtDomain(id) {
      var local: Bytes, domain: Bytes :| IdPart(local) && IdPart(domain) && id == [LT] + local + [AT] + domain + [GT];
      SplitIdIsValid(local, domain);
    }
  }

  // ----- Ingress validation -----

  const MAX_NEWSGROUPS := 100
  const MAX_HEADER_VALUE := 998
  const MAX_HEADER_NAME := 76
  const MAX_MSGID_BYTES := 998

  predicate ValidateMessageId(id: Bytes) {
    |id| <= MAX_MSGID_BYTES && IsValidMessageId(id)
  }

  datatype Field = From | Date | MessageId | Subject | Path

  datatype ValidationError =
    | MissingMandatoryHeader(field: Field)
    | HeaderFieldTooLong(len: nat)
    | InvalidHeaderValue
    | InvalidMessageId
    | EmptyNewsgroups
    | TooManyNewsgroups(count: nat)
    | InvalidGroupInNewsgroups
    | ArticleTooBig(size: nat)

  datatype Config = Config(maxArticleBytes: nat, allowedGroups: Option<Patterns>)

  predicate Unframed(value: Bytes) {
    NUL !in value && CR !in value && LF !in value
  }

  function CheckMandatory(field: Field, value: Bytes): Option<ValidationError> {
    if value == [] then Some(MissingMandatoryHeader(field))
    else if |value| > MAX_HEADER_VALUE then Some(HeaderFieldTooLong(|value|))
    else if !Unframed(value) then Some(InvalidHeaderValue)
    else None
  }

  function CheckExtra(name: Bytes, value: Bytes): Option<ValidationError> {
    if name == [] then Some(InvalidHeaderValue)
    else if |name| > MAX_HEADER_NAME then Some(HeaderFieldTooLong(|name|))
    else if !Unframed(name) || COLON in name then Some(InvalidHeaderValue)
    else if |value| > MAX_HEADER_VALUE then Some(HeaderFieldTooLong(|value|))
    else if !Unframed(value) then Some(InvalidHeaderValue)
    else None
  }

  function CheckExtras(extra: seq<(Bytes, Bytes)>): Option<ValidationError> {
    if extra == [] then None
    else if CheckExtra(extra[0].0, extra[0].1).Some? then CheckExtra(extra[0].0, extra[0].1)
    else CheckExtras(extra[1..])
  }

  function Either(a: Option<ValidationError>, b: Option<ValidationError>): Option<ValidationError> {
    if a.Some? then a else b
  }

  /** The five headers that are checked in one pass. */
  function MandatoryError(h: Header): Option<ValidationError> {
    Either(CheckMandatory(From, h.from),
    Either(CheckMandatory(Date, h.date),
    Either(CheckMandatory(MessageId, h.messageId),
    Either(CheckMandatory(Subject, h.subject),
           CheckMandatory(Path, h.path)))))
  }

  ghost function GroupsError(h: Header, config: Config): Option<ValidationError> {
    if h.newsgroups == [] then Some(EmptyNewsgroups)
    else if |h.newsgroups| > MAX_NEWSGROUPS then Some(TooManyNewsgroups(|h.newsgroups|))
    else if config.allowedGroups.Some? && !AnyAccepted(config.allowedGroups.value, h.newsgroups) then Some(InvalidGroupInNewsgroups)
    else None
  }

  /** The first failing check, in the order the source makes them. */
  ghost function FirstError(a: Article, config: Config): Option<ValidationError> {
    var h := a.header;
    Either(MandatoryError(h),
    Either(if ValidateMessageId(h.messageId) then None else Some(InvalidMessageId),
    Either(GroupsError(h, config),
    Either(CheckExtras(h.extra),
    if |a.body| > config.maxArticleBytes then Some(ArticleTooBig(|a.body|)) else None))))
  }

  ghost predicate AnyAccepted(patterns: Patterns, groups: seq<GroupName>) {
    exists i :: 0 <= i < |groups| && Accepted(patterns, groups[i])
  }

  method AcceptsAny(patterns: Patterns, groups: seq<GroupName>) returns (any: bool)
    ensures any <==> AnyAccepted(patterns, groups)
  {
    any := false;
    for i := 0 to |groups|
      invariant any <==> exists j :: 0 <= j < i && Accepted(patterns, groups[j])
    {
      var accepted := Accepts(patterns, groups[i]);
      any := any || accepted;
    }
  }

  /** `validate_article_ingress`: no error for exactly the articles that pass every check. */
  method ValidateIngress(a: Article, config: Config) returns (e: Option<ValidationError>)
    ensures e == FirstError(a, config)
  {
    var h := a.header;
    e := MandatoryError(h);
    if e.Some? { return; }
    if !ValidateMessageId(h.messageId) { return Some(InvalidMessageId); }
    if h.newsgroups == [] { return Some(EmptyNewsgroups); }
    if |h.newsgroups| > MAX_NEWSGROUPS { return Some(TooManyNewsgroups(|h.newsgroups|)); }
    if config.allowedGroups.Some? {
      var any := AcceptsAny(config.allowedGroups.value, h.newsgroups);
      if !any { return Some(InvalidGroupInNewsgroups); }
    }
    e := CheckExtras(h.extra);
    if e.Some? { return; }
    if |a.body| > config.maxArticleBytes { return Some(ArticleTooBig(|a.body|)); }
    e := None;
  }

  /** What the canonical form relies on: values free of framing bytes, names free of colons too. */
  predicate CleanExtras(extra: seq<(Bytes, Bytes)>) {
    forall i :: 0 <= i < |extra| ==>
      extra[i].0 != [] && Unframed(extra[i].0) && COLON !in extra[i].0 && Unframed(extra[i].1)
  }

  predicate Framed(a: Article) {
    var h := a.header;
    && Unframed(h.from) && Unframed(h.date) && Unframed(h.messageId) && Unframed(h.subject) && Unframed(h.path)
    && h.newsgroups != []
    && CleanExtras(h.extra)
  }

  lemma {:induction false} CheckedExtrasAreClean(extra: seq<(Bytes, Bytes)>)
    requires CheckExtras(extra).None?
    ensures CleanExtras(extra)
  {
    if extra != [] {
      CheckedExtrasAreClean(extra[1..]);
      forall i | 1 <= i < |extra| ensures extra[i] == extra[1..][i - 1] {}
    }
  }

  lemma AcceptedIsFramed(a: Article, config: Config)
    requires FirstError(a, config).None?
    ensures Framed(a)
  {
    CheckedExtrasAreClean(a.header.extra);
  }

  /** A header value every mandatory field must have. */
  predicate GoodValue(value: Bytes) {
    0 < |value| <= 998 && 0 !in value && 13 !in value && 10 !in value
  }

  predicate GoodExtra(e: (Bytes, Bytes)) {
    && 0 < |e.0| <= 76 && 0 !in e.0 && 13 !in e.0 && 10 !in e.0 && 58 !in e.0
    && |e.1| <= 998 && 0 !in e.1 && 13 !in e.1 && 10 !in e.1
  }

  predicate GoodExtras(extra: seq<(Bytes, Bytes)>) {
    forall i :: 0 <= i < |extra| ==> GoodExtra(extra[i])
  }

  lemma {:induction false} ExtrasPassIff(extra: seq<(Bytes, Bytes)>)
    ensures CheckExtras(extra).None? <==> GoodExtras(extra)
  {
    if extra != [] {
      ExtrasPassIff(extra[1..]);
      assert forall i :: 1 <= i < |extra| ==> extra[i] == extra[1..][i - 1];
    }
  }

  lemma MandatoryPassIff(field: Field, value: Bytes)
    ensures CheckMandatory(field, value).None? <==> GoodValue(value)
  {}

  /** What ingress accepts: the checks, free of their order and their messages. */
  lemma AcceptedIff(a: Article, config: Config)
    ensures FirstError(a, config).None? <==>
            var h := a.header;
            && GoodValue(h.from) && GoodValue(h.date) && GoodValue(h.messageId) && GoodValue(h.subject) && GoodValue(h.path)
            && LocalAtDomain(h.messageId)
            && 1 <= |h.newsgroups| <= 100
            && (config.allowedGroups.None? || AnyAccepted(config.allowedGroups.value, h.newsgroups))
            && GoodExtras(h.extra)
            && |a.body| <= config.maxArticleBytes
  {
    var h := a.header;
    MandatoryPassIff(From, h.from);
    MandatoryPassIff(Date, h.date);
    MandatoryPassIff(MessageId, h.messageId);
    MandatoryPassIff(Subject, h.subject);
    MandatoryPassIff(Path, h.path);
    MessageIdShape(h.messageId);
    ExtrasPassIff(h.extra);
  }

  function ValueOf(h: Header, field: Field): Bytes {
    match field
    case From => h.from
    case Date => h.date
    case MessageId => h.messageId
    case Subject => h.subject
    case Path => h.path
  }

  /** The headers that are checked before `field` pass. */
  predicate GoodBefore(h: Header, field: Field) {
    && (field != From ==> GoodValue(h.from))
    && (field != From && field != Date ==> GoodValue(h.date))
    && (field == Subject || field == Path ==> GoodValue(h.messageId))
    && (field == Path ==> GoodValue(h.subject))
  }

  predicate GoodHeaders(h: Header) {
    GoodValue(h.from) && GoodValue(h.date) && GoodValue(h.messageId) && GoodValue(h.subject) && GoodValue(h.path)
  }

  lemma MandatoryErrorIff(h: Header, field: Field)
    ensures MandatoryError(h).None? <==> GoodHeaders(h)
    ensures MandatoryError(h) == Some(MissingMandatoryHeader(field)) <==> GoodBefore(h, field) && ValueOf(h, field) == []
    ensures MandatoryError(h).Some? ==>
              MandatoryError(h).value.MissingMandatoryHeader? || MandatoryError(h).value.HeaderFieldTooLong? || MandatoryError(h).value.InvalidHeaderValue?
  {
    MandatoryPassIff(From, h.from);
    MandatoryPassIff(Date, h.date);
    MandatoryPassIff(MessageId, h.messageId);
    MandatoryPassIff(Subject, h.subject);
    MandatoryPassIff(Path, h.path);
  }

  lemma {:induction false} ExtraErrorKinds(extra: seq<(Bytes, Bytes)>)
    ensures CheckExtras(extra).Some? ==> CheckExtras(extra).value.HeaderFieldTooLong? || CheckExtras(extra).value.InvalidHeaderValue?
  {
    if extra != [] { ExtraErrorKinds(extra[1..]); }
  }

  ghost predicate GoodGroups(h: Header, config: Config) {
    && 1 <= |h.newsgroups| <= 100
    && (config.allowedGroups.None? || AnyAccepted(config.allowedGroups.value, h.newsgroups))
  }

  /**
   Which error is reported: the first in the documented order, the checks before it passing. A
   header that is too long or holds a forbidden byte is reported in the same place as a missing one.
   */
  lemma ReportedIff(a: Article, config: Config, field: Field, n: nat)
    ensures var h, e := a.header, FirstError(a, config);
            && (e == Some(MissingMandatoryHeader(field)) <==> GoodBefore(h, field) && ValueOf(h, field) == [])
            && (e == Some(InvalidMessageId) <==> GoodHeaders(h) && !LocalAtDomain(h.messageId))
            && (e == Some(EmptyNewsgroups) <==> GoodHeaders(h) && LocalAtDomain(h.messageId) && h.newsgroups == [])
            && (e == Some(TooManyNewsgroups(n)) <==> GoodHeaders(h) && LocalAtDomain(h.messageId) && 100 < |h.newsgroups| == n)
            && (e == Some(InvalidGroupInNewsgroups) <==>
                  && GoodHeaders(h) && LocalAtDomain(h.messageId) && 1 <= |h.newsgroups| <= 100
                  && config.allowedGroups.Some? && !AnyAccepted(config.allowedGroups.value, h.newsgroups))
            && (e == Some(ArticleTooBig(n)) <==>
                  && GoodHeaders(h) && LocalAtDomain(h.messageId) && GoodGroups(h, config) && GoodExtras(h.extra)
                  && config.maxArticleBytes < |a.body| == n)
  {
    MandatoryErrorIff(a.header, field);
    MessageIdShape(a.header.messageId);
    ExtrasPassIff(a.header.extra);
    ExtraErrorKinds(a.header.extra);
  }
}
