/**
 * Sets of strings in order, and the in-place insertion sort both programs use for it.
 * (tmh-next/internal/mock/backend.go, internal/config/resolver.go)
 */
module Sorting {
  import opened Text

  // ---- sorted keys -------------------------------------------------------------------

  predicate IsLeast(s: set<string>, m: string) {
    m in s && forall y :: y in s && y != m ==> Less(m, y)
  }

  lemma {:induction false} LeastExists(s: set<string>)
    requires s != {}
    ensures exists m :: IsLeast(s, m)
  {
    hide Less;
    var m :| m in s;
    var t := s - {m};
    if t == {} {
      assert s == {m} by { assert t + {m} == s; }
      assert IsLeast(s, m);
    } else {
      LeastExists(t);
      var n :| IsLeast(t, n);
      LessTotal(m, n);
      if Less(m, n) {
        forall y | y in t ensures Less(m, y) {
          if y != n { LessTransitive(m, n, y); }
        }
        assert IsLeast(s, m);
      } else {
        assert IsLeast(s, n);
      }
    }
  }

  lemma LeastUnique(s: set<string>, m: string, n: string)
    requires IsLeast(s, m) && IsLeast(s, n)
    ensures m == n
  {
    if m != n { LessAsymmetric(m, n); }
  }

  function Least(s: set<string>): (m: string)
    requires s != {}
    ensures IsLeast(s, m)
  {
    LeastExists(s);
    assert forall a, b :: IsLeast(s, a) && IsLeast(s, b) ==> a == b by {
      forall a, b | IsLeast(s, a) && IsLeast(s, b) ensures a == b { LeastUnique(s, a, b); }
    }
    var m :| m in s && IsLeast(s, m);
    m
  }

  function SortedKeys(s: set<string>): seq<string> {
    if s == {} then [] else var m := Least(s); [m] + SortedKeys(s - {m})
  }

  lemma {:induction false} SortedKeysSpec(s: set<string>)
    ensures StrictlySorted(SortedKeys(s))
    ensures forall k :: k in SortedKeys(s) <==> k in s
  {
    hide Less, IsLeast, StrictlySorted;
    if s == {} {
      NoneSorted();
    } else {
      var m := Least(s);
      SortedKeysSpec(s - {m});
      LeastFirst(s, m);
      PrependSorted(m, SortedKeys(s - {m}));
    }
  }

  lemma NoneSorted()
    ensures StrictlySorted([])
  {
  }

  lemma LeastFirst(s: set<string>, m: string)
    requires IsLeast(s, m)
    ensures m in s && forall k :: k in s - {m} ==> Less(m, k)
  {
  }

  lemma PrependSorted(m: string, t: seq<string>)
    requires StrictlySorted(t) && forall k :: k in t ==> Less(m, k)
    ensures StrictlySorted([m] + t)
  {
    hide Less;
    forall i, j | 0 <= i < j < |[m] + t| ensures Less(([m] + t)[i], ([m] + t)[j]) {
      assert ([m] + t)[j] == t[j - 1] && t[j - 1] in t;
      assert i > 0 ==> ([m] + t)[i] == t[i - 1];
    }
  }

  /** Two strictly sorted sequences with the same elements are equal. */
  lemma {:induction false} SortedUnique(a: seq<string>, b: seq<string>)
    requires StrictlySorted(a) && StrictlySorted(b)
    requires forall x :: x in a <==> x in b
    ensures a == b
  {
    hide Less;
    assert b != [] ==> b[0] in a;
    if a != [] {
      assert a[0] in b && b != [];
      if a[0] != b[0] {
        var j :| 0 <= j < |b| && b[j] == a[0];
        var i :| 0 <= i < |a| && a[i] == b[0];
        LessAsymmetric(a[0], b[0]);
        assert false;
      }
      SameTail(a, b);
      SortedUnique(a[1..], b[1..]);
      assert a == [a[0]] + a[1..] && b == [b[0]] + b[1..];
    }
  }

  lemma SameTail(a: seq<string>, b: seq<string>)
    requires a != [] && b != [] && a[0] == b[0] && StrictlySorted(a) && StrictlySorted(b)
    requires forall x :: x in a <==> x in b
    ensures StrictlySorted(a[1..]) && StrictlySorted(b[1..])
    ensures forall x :: x in a[1..] <==> x in b[1..]
  {
    hide Less;
    forall x ensures x in a[1..] <==> x in a && x != a[0] { InTail(a, x); }
    forall x ensures x in b[1..] <==> x in b && x != b[0] { InTail(b, x); }
  }

  lemma InTail(a: seq<string>, x: string)
    requires a != [] && StrictlySorted(a)
    ensures x in a[1..] <==> x in a && x != a[0]
  {
    hide Less;
    assert a == [a[0]] + a[1..];
    if x in a[1..] {
      var i :| 0 <= i < |a[1..]| && a[1..][i] == x;
      assert Less(a[0], a[i + 1]);
      LessIrreflexive(x);
    }
  }

  predicate SortedUpTo(s: seq<string>, n: int) {
    forall i, j :: 0 <= i < j < n && j < |s| ==> !Less(s[j], s[i])
  }

  /** Insertion sort by swapping neighbours. */
  method SortStrings(a: array<string>)
    modifies a
    ensures Sorted(a[..]) && multiset(a[..]) == multiset(old(a[..]))
  {
    hide Less;
    for n := 0 to a.Length
      invariant SortedUpTo(a[..], n) && multiset(a[..]) == multiset(old(a[..]))
    {
      Insert(a, n);
    }
  }

  /** Sorted but for one element that is on its way down from position n. */
  predicate AllBut(s: seq<string>, n: int, j: int) {
    forall i, k :: 0 <= i < k <= n && k < |s| && i != j && k != j ==> !Less(s[k], s[i])
  }

  predicate AllAbove(s: seq<string>, n: int, j: int) {
    forall k :: 0 <= j < k <= n && k < |s| ==> !Less(s[k], s[j])
  }

  method Insert(a: array<string>, n: nat)
    requires n < a.Length && SortedUpTo(a[..], n)
    modifies a
    ensures SortedUpTo(a[..], n + 1) && multiset(a[..]) == multiset(old(a[..]))
  {
    hide Less, SortedUpTo, AllBut, AllAbove;
    var j := n;
    InsertStarts(a[..], n);
    while j > 0 && Less(a[j], a[j - 1])
      invariant 0 <= j <= n
      invariant AllBut(a[..], n, j) && AllAbove(a[..], n, j)
      invariant multiset(a[..]) == multiset(old(a[..]))
    {
      ghost var was := a[..];
      Swapped(was, j);
      InsertStep(was, n, j);
      a[j], a[j - 1] := a[j - 1], a[j];
      assert a[..] == was[j := was[j - 1]][j - 1 := was[j]];
      j := j - 1;
    }
    InsertEnds(a[..], n, j);
  }

  lemma InsertStarts(s: seq<string>, n: nat)
    requires n < |s| && SortedUpTo(s, n)
    ensures AllBut(s, n, n) && AllAbove(s, n, n)
  {
    hide Less;
  }

  lemma InsertStep(s: seq<string>, n: nat, j: nat)
    requires 0 < j <= n < |s| && AllBut(s, n, j) && AllAbove(s, n, j) && Less(s[j], s[j - 1])
    ensures var t := s[j := s[j - 1]][j - 1 := s[j]]; AllBut(t, n, j - 1) && AllAbove(t, n, j - 1)
  {
    hide Less;
    LessAsymmetric(s[j], s[j - 1]);
  }

  lemma InsertEnds(s: seq<string>, n: nat, j: nat)
    requires j <= n < |s| && AllBut(s, n, j) && AllAbove(s, n, j) && (j > 0 ==> !Less(s[j], s[j - 1]))
    ensures SortedUpTo(s, n + 1)
  {
    hide Less;
    forall i, k | 0 <= i < k < n + 1 ensures !Less(s[k], s[i]) {
      if k == j && i < j - 1 { NotLessTransitive(s[i], s[j - 1], s[j]); }
    }
  }

  lemma Swapped(s: seq<string>, j: nat)
    requires 0 < j < |s|
    ensures multiset(s[j := s[j - 1]][j - 1 := s[j]]) == multiset(s)
  {
  }

  lemma NotLessTransitive(x: string, y: string, z: string)
    requires !Less(y, x) && !Less(z, y)
    ensures !Less(z, x)
  {
    LessTotal(x, y);
    LessTotal(y, z);
    if Less(x, y) && Less(y, z) { LessTransitive(x, y, z); }
    if Less(z, x) {
      LessAsymmetric(z, x);
      if x == y || y == z { assert false; }
    }
  }

  lemma {:induction false} CountTwice(s: seq<string>, i: nat, j: nat)
    requires i < j < |s| && s[i] == s[j]
    ensures multiset(s)[s[i]] >= 2
  {
    assert s == s[..i] + [s[i]] + s[i + 1..j] + [s[j]] + s[j + 1..];
  }

  /** The keys of a map come in any order; sorting them gives the one sorted sequence there is. */
  method SortedNames(keys: set<string>) returns (names: seq<string>)
    ensures names == SortedKeys(keys)
  {
    var left, out := keys, [];
    while left != {}
      invariant left <= keys && multiset(out) + multiset(left) == multiset(keys)
      decreases |left|
    {
      var k :| k in left;
      assert multiset(left) == multiset(left - {k}) + multiset{k};
      left, out := left - {k}, out + [k];
    }
    var a := new string[|out|](i requires 0 <= i < |out| => out[i]);
    assert a[..] == out;
    SortStrings(a);
    names := a[..];
    SetSorted(names, keys);
  }

  lemma SetSorted(names: seq<string>, keys: set<string>)
    requires Sorted(names) && multiset(names) == multiset(keys)
    ensures names == SortedKeys(keys)
  {
    hide Less, SortedKeys;
    forall i, j | 0 <= i < j < |names| ensures Less(names[i], names[j]) {
      if names[i] == names[j] {
        CountTwice(names, i, j);
        assert false;
      }
      LessTotal(names[i], names[j]);
    }
    SortedKeysSpec(keys);
    forall x ensures x in names <==> x in keys { assert x in multiset(names) <==> x in multiset(keys); }
    SortedUnique(names, SortedKeys(keys));
  }
}
