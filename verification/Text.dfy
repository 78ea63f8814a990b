/** Strings as the program compares, cuts and numbers them. */
module Text {

  datatype Option<+T> = None | Some(value: T)

  // ---- comparison ------------------------------------------------------------

  /** Strict lexicographic order, the order of `strings.Compare` and of `<` on strings. */
  predicate Less(a: string, b: string) {
    if |b| == 0 then false
    else if |a| == 0 then true
    else a[0] < b[0] || (a[0] == b[0] && Less(a[1..], b[1..]))
  }

  lemma {:induction false} LessIrreflexive(a: string)
    ensures !Less(a, a)
  {
    if |a| > 0 { LessIrreflexive(a[1..]); }
  }

  lemma {:induction false} LessTransitive(a: string, b: string, c: string)
    requires Less(a, b) && Less(b, c)
    ensures Less(a, c)
  {
    if |a| > 0 && a[0] == b[0] == c[0] { LessTransitive(a[1..], b[1..], c[1..]); }
  }

  lemma {:induction false} LessTotal(a: string, b: string)
    ensures Less(a, b) || a == b || Less(b, a)
  {
    if |a| > 0 && |b| > 0 && a[0] == b[0] {
      LessTotal(a[1..], b[1..]);
      assert a == [a[0]] + a[1..] && b == [b[0]] + b[1..];
    }
  }

  lemma LessAsymmetric(a: string, b: string)
    requires Less(a, b)
    ensures !Less(b, a) && a != b
  {
    LessIrreflexive(a);
    if Less(b, a) { LessTransitive(a, b, a); }
  }

  /** A common prefix does not take part in the comparison. */
  lemma {:induction false} LessPrefix(p: string, a: string, b: string)
    ensures Less(p + a, p + b) <==> Less(a, b)
  {
    if p == [] {
      assert p + a == a && p + b == b;
    } else {
      LessPrefix(p[1..], a, b);
      assert (p + a)[1..] == p[1..] + a && (p + b)[1..] == p[1..] + b;
    }
  }

  // ---- splitting -------------------------------------------------------------

  /** The piece before the first separator, and the rest after it if there is one. */
  function Cut(s: string, sep: char): (r: (string, Option<string>))
    ensures sep !in r.0
    ensures r.1.None? ==> s == r.0
    ensures r.1.Some? ==> s == r.0 + [sep] + r.1.value && |r.1.value| < |s|
  {
    if s == [] then ([], None)
    else if s[0] == sep then ([], Some(s[1..]))
    else
      var (h, t) := Cut(s[1..], sep);
      ([s[0]] + h, t)
  }

  /** All pieces between separators; the empty string has one empty piece. */
  function Split(s: string, sep: char): (r: seq<string>)
    ensures |r| >= 1
    decreases |s|
  {
    var (h, t) := Cut(s, sep);
    if t.None? then [h] else [h] + Split(t.value, sep)
  }

  function Join(parts: seq<string>, sep: char): string {
    if |parts| == 0 then ""
    else if |parts| == 1 then parts[0]
    else parts[0] + [sep] + Join(parts[1..], sep)
  }

  lemma {:induction false} CutAt(p: string, sep: char, r: string)
    requires sep !in p
    ensures Cut(p + [sep] + r, sep) == (p, Some(r))
  {
    var s := p + [sep] + r;
    if p == [] {
      assert s[1..] == r;
    } else {
      CutAt(p[1..], sep, r);
      assert s[1..] == p[1..] + [sep] + r;
      assert [s[0]] + p[1..] == p;
    }
  }

  lemma {:induction false} CutNone(p: string, sep: char)
    requires sep !in p
    ensures Cut(p, sep) == (p, None)
  {
    if p != [] { CutNone(p[1..], sep); }
  }

  lemma SplitAt(p: string, sep: char, r: string)
    requires sep !in p
    ensures Split(p + [sep] + r, sep) == [p] + Split(r, sep)
  {
    CutAt(p, sep, r);
  }

  lemma SplitNone(p: string, sep: char)
    requires sep !in p
    ensures Split(p, sep) == [p]
  {
    CutNone(p, sep);
  }

  /** Splitting and joining are inverse, whatever the string. */
  lemma {:induction false} JoinSplit(s: string, sep: char)
    ensures Join(Split(s, sep), sep) == s
    ensures forall p :: p in Split(s, sep) ==> sep !in p
    decreases |s|
  {
    var (h, t) := Cut(s, sep);
    if t.Some? {
      JoinSplit(t.value, sep);
      assert Split(s, sep)[1..] == Split(t.value, sep);
    }
  }

  lemma {:induction false} SplitJoin(parts: seq<string>, sep: char)
    requires |parts| >= 1 && forall p :: p in parts ==> sep !in p
    ensures Split(Join(parts, sep), sep) == parts
  {
    if |parts| == 1 {
      SplitNone(parts[0], sep);
    } else {
      SplitJoin(parts[1..], sep);
      SplitAt(parts[0], sep, Join(parts[1..], sep));
    }
  }

  // ---- blanks ----------------------------------------------------------------

  /** The white space that `strings.TrimSpace` removes. */
  predicate IsSpace(c: char) {
    c in " \t\n\r" || c == '\U{0B}' || c == '\U{0C}' || c == '\U{85}' || c == '\U{A0}' ||
    c == '\U{1680}' || '\U{2000}' <= c <= '\U{200A}' || c == '\U{2028}' || c == '\U{2029}' ||
    c == '\U{202F}' || c == '\U{205F}' || c == '\U{3000}'
  }

  /** `strings.TrimSpace(s) == ""` */
  predicate Blank(s: string) {
    forall c :: c in s ==> IsSpace(c)
  }

  // ---- decimal numbers and generated identifiers -------------------------------

  function Digit(d: nat): char
    requires d < 10
  {
    '0' + d as char
  }

  function Dec(n: nat): string {
    if n < 10 then [Digit(n)] else Dec(n / 10) + [Digit(n % 10)]
  }

  predicate IsDigit(c: char) { '0' <= c <= '9' }

  function DigitValue(c: char): nat
    requires IsDigit(c)
  {
    c as int - '0' as int
  }

  /** The number a run of digits denotes, most significant first, continuing from `acc`. */
  function Value(s: string, acc: nat): nat
    requires forall c :: c in s ==> IsDigit(c)
  {
    if s == [] then acc else Value(s[1..], 10 * acc + DigitValue(s[0]))
  }

  function Zeros(k: nat): string {
    if k == 0 then [] else ['0'] + Zeros(k - 1)
  }

  /** `%0wd` */
  function Pad(n: nat, width: nat): string {
    var d := Dec(n);
    if |d| < width then Zeros(width - |d|) + d else d
  }

  /** `fmt.Sprintf("%s-%04d", prefix, n)` */
  function IdOf(prefix: string, n: nat): string {
    prefix + "-" + Pad(n, 4)
  }

  lemma {:induction false} DecDigits(n: nat)
    ensures forall c :: c in Dec(n) ==> IsDigit(c)
    ensures |Dec(n)| >= 1
  {
    if n >= 10 { DecDigits(n / 10); }
  }

  lemma {:induction false} ValueAppend(s: string, c: char, acc: nat)
    requires (forall d :: d in s ==> IsDigit(d)) && IsDigit(c)
    ensures Value(s + [c], acc) == 10 * Value(s, acc) + DigitValue(c)
  {
    if s != [] {
      assert (s + [c])[1..] == s[1..] + [c];
      ValueAppend(s[1..], c, 10 * acc + DigitValue(s[0]));
    }
  }

  lemma {:induction false} ValueDec(n: nat)
    ensures (forall c :: c in Dec(n) ==> IsDigit(c)) && Value(Dec(n), 0) == n
  {
    DecDigits(n);
    if n >= 10 {
      DecDigits(n / 10);
      ValueDec(n / 10);
      ValueAppend(Dec(n / 10), Digit(n % 10), 0);
    }
  }

  lemma {:induction false} ValueZeros(k: nat, s: string)
    requires forall c :: c in s ==> IsDigit(c)
    ensures (forall c :: c in Zeros(k) + s ==> IsDigit(c)) && Value(Zeros(k) + s, 0) == Value(s, 0)
  {
    if k == 0 {
      assert Zeros(k) + s == s;
    } else {
      ValueZeros(k - 1, s);
      assert (Zeros(k) + s)[1..] == Zeros(k - 1) + s;
    }
  }

  /** A padded number reads back as itself. */
  lemma ValuePad(n: nat, width: nat)
    ensures (forall c :: c in Pad(n, width) ==> IsDigit(c)) && Value(Pad(n, width), 0) == n
    ensures |Pad(n, width)| >= 1
  {
    ValueDec(n);
    var d := Dec(n);
    if |d| < width { ValueZeros(width - |d|, d); }
    DecDigits(n);
  }

  lemma IdOfInjective(prefix: string, m: nat, n: nat)
    requires IdOf(prefix, m) == IdOf(prefix, n)
    ensures m == n
  {
    var p := prefix + "-";
    assert IdOf(prefix, m)[|p|..] == Pad(m, 4) && IdOf(prefix, n)[|p|..] == Pad(n, 4);
    ValuePad(m, 4);
    ValuePad(n, 4);
  }

  // ---- sorting strings ---------------------------------------------------------

  predicate Sorted(s: seq<string>) {
    forall i, j :: 0 <= i < j < |s| ==> !Less(s[j], s[i])
  }

  predicate StrictlySorted(s: seq<string>) {
    forall i, j :: 0 <= i < j < |s| ==> Less(s[i], s[j])
  }

  predicate Distinct<T(==)>(s: seq<T>) {
    forall i, j :: 0 <= i < j < |s| ==> s[i] != s[j]
  }
}
