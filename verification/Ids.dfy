/**
 * How generated identifiers sort as text. (tmh-next/internal/mock/backend.go)
 */
module Ids {
  import opened Text

  /** Digit strings of one length compare as the numbers they denote. */
  lemma {:induction false} DigitsCompare(a: string, b: string, acc: nat, bcc: nat)
    requires |a| == |b| && (forall c :: c in a ==> IsDigit(c)) && (forall c :: c in b ==> IsDigit(c))
    ensures acc < bcc ==> Value(a, acc) < Value(b, bcc)
    ensures acc == bcc ==> (Less(a, b) <==> Value(a, acc) < Value(b, bcc))
    decreases |a|
  {
    if a != [] {
      DigitsCompare(a[1..], b[1..], 10 * acc + DigitValue(a[0]), 10 * bcc + DigitValue(b[0]));
      if acc == bcc && a[0] > b[0] {
        DigitsCompare(b[1..], a[1..], 10 * bcc + DigitValue(b[0]), 10 * acc + DigitValue(a[0]));
      }
    }
  }

  /** Generated ids of one length are ordered by number. */
  lemma IdsCompare(prefix: string, m: nat, n: nat)
    requires |Pad(m, 4)| == |Pad(n, 4)|
    ensures Less(IdOf(prefix, m), IdOf(prefix, n)) <==> m < n
  {
    hide Pad, Less, Value;
    ValuePad(m, 4);
    ValuePad(n, 4);
    LessPrefix(prefix + "-", Pad(m, 4), Pad(n, 4));
    DigitsCompare(Pad(m, 4), Pad(n, 4), 0, 0);
  }

  /** The number without its last `d` digits. */
  function Leading(n: nat, d: nat): nat {
    if d == 0 then n else Leading(n / 10, d - 1)
  }

  /** How generated ids compare: a shorter number against as many leading digits of the longer one. */
  predicate IdBefore(m: nat, n: nat) {
    var a, b := |Pad(m, 4)|, |Pad(n, 4)|;
    if a == b then m < n
    else if a < b then m <= Leading(n, b - a)
    else Leading(m, a - b) < n
  }

  lemma {:induction false} LessShorter(a: string, b: string)
    requires |a| < |b|
    ensures Less(a, b) <==> !Less(b[..|a|], a)
    ensures Less(b, a) <==> Less(b[..|a|], a)
    decreases |a|
  {
    if a == [] {
      assert b[..0] == [];
    } else {
      var c := b[..|a|];
      assert c[0] == b[0] && c[1..] == b[1..][..|a| - 1];
      LessShorter(a[1..], b[1..]);
    }
  }

  lemma {:induction false} DecLeading(n: nat, d: nat)
    requires d < |Dec(n)|
    ensures Dec(n)[..|Dec(n)| - d] == Dec(Leading(n, d))
    decreases d
  {
    hide Digit;
    var s := Dec(n);
    if d == 0 {
      assert s[..|s|] == s;
    } else {
      var t := Dec(n / 10);
      assert n >= 10 && s[..|t|] == t && |s| == |t| + 1;
      DecLeading(n / 10, d - 1);
      assert s[..|s| - d] == t[..|t| - (d - 1)];
    }
  }

  lemma PadLong(n: nat)
    requires |Pad(n, 4)| > 4
    ensures Pad(n, 4) == Dec(n)
  {
    ZerosLength(4 - |Dec(n)|);
  }

  lemma {:induction false} ZerosLength(k: int)
    ensures k >= 0 ==> |Zeros(k)| == k
  {
    if k > 0 { ZerosLength(k - 1); }
  }

  lemma PadAtLeast(n: nat)
    ensures |Pad(n, 4)| >= 4
  {
    ZerosLength(4 - |Dec(n)|);
  }

  /** The leading digits of a long id, against a shorter one. */
  lemma AgainstLeading(m: nat, n: nat)
    requires |Pad(m, 4)| < |Pad(n, 4)|
    ensures Less(Pad(m, 4), Pad(n, 4)) <==> m <= Leading(n, |Pad(n, 4)| - |Pad(m, 4)|)
    ensures Less(Pad(n, 4), Pad(m, 4)) <==> Leading(n, |Pad(n, 4)| - |Pad(m, 4)|) < m
  {
    hide Pad, Less, Value, Dec, Leading;
    var a, b := Pad(m, 4), Pad(n, 4);
    var d := |b| - |a|;
    PadAtLeast(m);
    PadLong(n);
    DecLeading(n, d);
    var c := b[..|a|];
    ValueDec(Leading(n, d));
    ValuePad(m, 4);
    LessShorter(a, b);
    DigitsCompare(c, a, 0, 0);
  }

  /** Exactly how two generated ids sort; where both have as many digits, by number. */
  lemma IdsOrder(prefix: string, m: nat, n: nat)
    ensures Less(IdOf(prefix, m), IdOf(prefix, n)) <==> IdBefore(m, n)
  {
    hide Pad, Less, Value, Dec, Leading;
    LessPrefix(prefix + "-", Pad(m, 4), Pad(n, 4));
    if |Pad(m, 4)| == |Pad(n, 4)| {
      IdsCompare(prefix, m, n);
    } else if |Pad(m, 4)| < |Pad(n, 4)| {
      AgainstLeading(m, n);
    } else {
      AgainstLeading(n, m);
    }
  }

  /** But plan 10000 sorts before plan 9999: applied later, it is not the plan undo looks at. */
  lemma FiveDigitsSortFirst()
    ensures Less(IdOf("plan", 10000), IdOf("plan", 9999))
  {
    LessPrefix("plan" + "-", Pad(10000, 4), Pad(9999, 4));
    assert Dec(1) == "1" && Dec(10) == "10" && Dec(100) == "100" && Dec(1000) == "1000";
    assert Dec(9) == "9" && Dec(99) == "99" && Dec(999) == "999";
    assert Pad(10000, 4) == "10000" && Pad(9999, 4) == "9999";
  }
}
