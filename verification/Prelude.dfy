/** Vocabulary shared by the models: options, results, parses, bytes and machine integers. */
module Prelude {

  datatype Option<+T> = None | Some(value: T)

  datatype Result<+T, +E> = Ok(value: T) | Err(error: E)

  /** What a reader made of a prefix of its input, and the rest of it. */
  datatype Parse<+S, +T> = Fail | Done(value: T, rest: seq<S>)

  function Prepend<S, T>(head: seq<T>, p: Parse<S, seq<T>>): (r: Parse<S, seq<T>>)
    ensures head == [] ==> r == p
    ensures p.Done? && p.value == [] ==> r == Done(head, p.rest)
  {
    match p
    case Fail => Fail
    case Done(tail, rest) =>
      assert (head == [] ==> head + tail == tail) && (tail == [] ==> head + tail == head);
      Done(head + tail, rest)
  }

  lemma PrependPrepend<S, T>(a: seq<T>, b: seq<T>, p: Parse<S, seq<T>>)
    ensures Prepend(a, Prepend(b, p)) == Prepend(a + b, p)
  {
    if p.Done? {
      assert a + (b + p.value) == (a + b) + p.value;
    }
  }

  /** A reader that works by positions, started on some suffix of `input`, returned what the specification reads there. */
  ghost predicate Returns<S, T>(r: Option<(T, nat)>, p: Parse<S, T>, input: seq<S>) {
    match r
    case None => p.Fail?
    case Some((value, pos)) => pos <= |input| && p == Done(value, input[pos..])
  }

  lemma Drop<T>(s: seq<T>, pos: nat)
    requires pos < |s|
    ensures s[pos..] != [] && s[pos..][0] == s[pos] && s[pos..][1..] == s[pos + 1..]
    ensures pos + 1 < |s| ==> |s[pos..]| > 1 && s[pos..][1] == s[pos + 1] && s[pos..][2..] == s[pos + 2..]
  {}

  type byte = x: int | 0 <= x < 0x100
  type u32 = x: int | 0 <= x < 0x1_0000_0000
  type u64 = x: int | 0 <= x < 0x1_0000_0000_0000_0000

  type Bytes = seq<byte>

  const LF: byte := 10
  const CR: byte := 13
  const DOT: byte := 46
  const U64_MAX: u64 := 0xFFFF_FFFF_FFFF_FFFF

  function Max(a: int, b: int): int {
    if a < b then b else a
  }

  function Min(a: int, b: int): int {
    if a < b then a else b
  }

  /** The byte-wise lexicographic order, strict: Rust's `Ord` on `[u8]`, `[u8; 8]` and `str`. */
  predicate LexLess(a: seq<byte>, b: seq<byte>) {
    b != [] && (a == [] || a[0] < b[0] || (a[0] == b[0] && LexLess(a[1..], b[1..])))
  }

  lemma {:induction false} LexTotal(a: seq<byte>, b: seq<byte>)
    ensures LexLess(a, b) || a == b || LexLess(b, a)
  {
    if a != [] && b != [] && a[0] == b[0] {
      LexTotal(a[1..], b[1..]);
      assert a == [a[0]] + a[1..] && b == [b[0]] + b[1..];
    }
  }

  lemma {:induction false} LexAsymmetric(a: seq<byte>, b: seq<byte>)
    requires LexLess(a, b)
    ensures a != b && !LexLess(b, a)
  {
    if a != [] && a[0] == b[0] {
      LexAsymmetric(a[1..], b[1..]);
    }
  }

  lemma {:induction false} LexTransitive(a: seq<byte>, b: seq<byte>, c: seq<byte>)
    requires LexLess(a, b) && LexLess(b, c)
    ensures LexLess(a, c)
  {
    if a != [] && a[0] == b[0] == c[0] {
      LexTransitive(a[1..], b[1..], c[1..]);
    }
  }

  /** `a` and `b` agree up to `k`, where `a` ends or has the smaller byte. */
  predicate SmallerAt(a: seq<byte>, b: seq<byte>, k: nat) {
    k <= |a| && k < |b| && a[..k] == b[..k] && (k == |a| || a[k] < b[k])
  }

  lemma {:induction false} SmallerSomewhere(a: seq<byte>, b: seq<byte>) returns (k: nat)
    requires LexLess(a, b)
    ensures SmallerAt(a, b, k)
  {
    if a == [] || a[0] < b[0] {
      k := 0;
    } else {
      var j := SmallerSomewhere(a[1..], b[1..]);
      k := j + 1;
      assert a[..k] == [a[0]] + a[1..][..j] && b[..k] == [b[0]] + b[1..][..j];
    }
  }

  lemma {:induction false} SmallerIsLess(a: seq<byte>, b: seq<byte>, k: nat)
    requires SmallerAt(a, b, k)
    ensures LexLess(a, b)
  {
    if k > 0 {
      assert a[0] == a[..k][0] && b[0] == b[..k][0];
      assert a[1..][..k - 1] == a[..k][1..] && b[1..][..k - 1] == b[..k][1..];
      SmallerIsLess(a[1..], b[1..], k - 1);
    }
  }

  /** The order is decided at the first place where the two differ. */
  lemma LexLessIff(a: seq<byte>, b: seq<byte>)
    ensures LexLess(a, b) <==> exists k: nat :: SmallerAt(a, b, k)
  {
    if LexLess(a, b) {
      var k := SmallerSomewhere(a, b);
    }
    forall k: nat | SmallerAt(a, b, k) ensures LexLess(a, b) {
      SmallerIsLess(a, b, k);
    }
  }
}
