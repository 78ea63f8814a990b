/**
 * The configuration document as a tree, and reading, writing, deleting and renaming at dotted
 * paths. (internal/config/path.go)
 */
module Yaml {
  import opened Text

  /** A mapping keeps its pairs in document order. */
  datatype Node = Scalar(tag: string, value: string) | Mapping(pairs: seq<(string, Node)>) | Sequence(items: seq<Node>)

  /** What a document holds, if it is not empty. */
  type Document = Option<Node>

  type Path = seq<string>

  function SplitPath(path: string): Path {
    if path == "" then [] else Split(path, '.')
  }

  function KeyIndex(pairs: seq<(string, Node)>, key: string, from: nat := 0): (i: int)
    requires from <= |pairs|
    ensures i >= 0 ==> from <= i < |pairs| && pairs[i].0 == key && forall j :: from <= j < i ==> pairs[j].0 != key
    ensures i < 0 ==> i == -1 && forall j :: from <= j < |pairs| ==> pairs[j].0 != key
    decreases |pairs| - from
  {
    if from == |pairs| then -1 else if pairs[from].0 == key then from else KeyIndex(pairs, key, from + 1)
  }

  /** The value under the first such key of a mapping. */
  function Find(n: Node, key: string): Option<Node> {
    if !n.Mapping? then None
    else
      var i := KeyIndex(n.pairs, key);
      if i < 0 then None else Some(n.pairs[i].1)
  }

  function Keys(n: Node): seq<string> {
    if n.Mapping? then seq(|n.pairs|, i requires 0 <= i < |n.pairs| => n.pairs[i].0) else []
  }

  /** Replaces the value under the key where it is, or adds the pair at the end. */
  function Put(n: Node, key: string, value: Node): Node
    requires n.Mapping?
  {
    var i := KeyIndex(n.pairs, key);
    if i < 0 then Mapping(n.pairs + [(key, value)]) else Mapping(n.pairs[i := (key, value)])
  }

  function Get(n: Node, path: Path): Option<Node>
    decreases |path|
  {
    if path == [] then Some(n)
    else
      match Find(n, path[0])
      case None => None
      case Some(child) => Get(child, path[1..])
  }

  const NO_KEYS := Mapping([])

  /** Writes a scalar, creating mappings on the way; only a scalar may be overwritten. */
  function SetAt(n: Node, path: Path, leaf: Node): Option<Node>
    requires path != []
    decreases |path|
  {
    if !n.Mapping? then None
    else
      var found := Find(n, path[0]);
      if |path| == 1 then
        if found.Some? && !found.value.Scalar? then None else Some(Put(n, path[0], leaf))
      else
        match SetAt(if found.Some? then found.value else NO_KEYS, path[1..], leaf)
        case None => None
        case Some(child) => Some(Put(n, path[0], child))
  }

  function DeleteAt(n: Node, path: Path): Option<Node>
    requires path != []
    decreases |path|
  {
    var found := Find(n, path[0]);
    if found.None? then None
    else if |path| == 1 then
      var i := KeyIndex(n.pairs, path[0]);
      Some(Mapping(n.pairs[..i] + n.pairs[i + 1..]))
    else
      match DeleteAt(found.value, path[1..])
      case None => None
      case Some(child) => Some(Put(n, path[0], child))
  }

  /** Gives a key of the mapping at `parent` another name, in its place, if that name is free. */
  function RenameAt(n: Node, parent: Path, before: string, after: string): Option<Node>
    decreases |parent|
  {
    if parent == [] then
      if !n.Mapping? || KeyIndex(n.pairs, before) < 0 || KeyIndex(n.pairs, after) >= 0 then None
      else
        var i := KeyIndex(n.pairs, before);
        Some(Mapping(n.pairs[i := (after, n.pairs[i].1)]))
    else
      match Find(n, parent[0])
      case None => None
      case Some(child) =>
        match RenameAt(child, parent[1..], before, after)
        case None => None
        case Some(renamed) => Some(Put(n, parent[0], renamed))
  }

  // ---- one mapping --------------------------------------------------------------------------

  lemma PutFind(n: Node, key: string, value: Node, other: string)
    requires n.Mapping?
    ensures Find(Put(n, key, value), other) == if other == key then Some(value) else Find(n, other)
    ensures Keys(Put(n, key, value)) == Keys(n) + (if Find(n, key).Some? then [] else [key])
  {
    var p := Put(n, key, value);
    var i, j, k := KeyIndex(n.pairs, key), KeyIndex(n.pairs, other), KeyIndex(p.pairs, other);
    assert forall m :: 0 <= m < |n.pairs| ==> p.pairs[m].0 == n.pairs[m].0;
    if i < 0 { assert p.pairs[|n.pairs|] == (key, value); }
    assert Keys(p) == Keys(n) + (if i < 0 then [key] else []);
  }

  /** Neither path leads to or through the other. */
  predicate Apart(p: Path, q: Path) {
    !(p <= q) && !(q <= p)
  }

  lemma ApartTail(p: Path, q: Path)
    requires Apart(p, q)
    ensures p != [] && q != []
    ensures p[0] == q[0] ==> |p| > 1 && |q| > 1 && Apart(p[1..], q[1..])
  {
    if p[0] == q[0] {
      assert p == [p[0]] + p[1..] && q == [q[0]] + q[1..];
    }
  }

  // ---- set --------------------------------------------------------------------------------------

  /** Reading where one has just written gives what was written. */
  lemma {:induction false} SetGet(n: Node, path: Path, leaf: Node)
    requires path != [] && SetAt(n, path, leaf).Some?
    ensures Get(SetAt(n, path, leaf).value, path) == Some(leaf)
    decreases |path|
  {
    hide Put, Find;
    var found := Find(n, path[0]);
    if |path| == 1 {
      PutFind(n, path[0], leaf, path[0]);
    } else {
      var child := if found.Some? then found.value else NO_KEYS;
      SetGet(child, path[1..], leaf);
      PutFind(n, path[0], SetAt(child, path[1..], leaf).value, path[0]);
    }
  }

  lemma NothingInside(q: Path)
    requires q != []
    ensures Get(NO_KEYS, q) == None
  {
  }

  /** Any path not on the way to the target, nor beyond it, reads the same node as before. */
  lemma {:induction false} SetOther(n: Node, path: Path, leaf: Node, q: Path)
    requires path != [] && SetAt(n, path, leaf).Some? && Apart(path, q)
    ensures Get(SetAt(n, path, leaf).value, q) == Get(n, q)
    decreases |path|
  {
    hide Put, Find;
    ApartTail(path, q);
    var found := Find(n, path[0]);
    var child := if found.Some? then found.value else NO_KEYS;
    var value := if |path| == 1 then leaf else SetAt(child, path[1..], leaf).value;
    PutFind(n, path[0], value, q[0]);
    if path[0] == q[0] {
      SetOther(child, path[1..], leaf, q[1..]);
      if found.None? { NothingInside(q[1..]); }
    }
  }

  function KeysAt(n: Node, path: Path): seq<string> {
    var found := Get(n, path);
    if found.Some? then Keys(found.value) else []
  }

  /** On the way to the target keys stay in order; at most the one that was missing is added, last. */
  lemma {:induction false} SetKeys(n: Node, path: Path, leaf: Node, k: nat)
    requires k < |path| && SetAt(n, path, leaf).Some?
    ensures Get(SetAt(n, path, leaf).value, path[..k]).Some? && Get(SetAt(n, path, leaf).value, path[..k]).value.Mapping?
    ensures KeysAt(SetAt(n, path, leaf).value, path[..k]) == KeysAt(n, path[..k]) + (if Get(n, path[..k + 1]).Some? then [] else [path[k]])
    decreases |path|
  {
    hide Put, Find, Keys;
    var found := Find(n, path[0]);
    var child := if found.Some? then found.value else NO_KEYS;
    var value := if |path| == 1 then leaf else SetAt(child, path[1..], leaf).value;
    PutFind(n, path[0], value, path[0]);
    assert path[..k + 1][0] == path[0] && path[..k + 1][1..] == path[1..][..k];
    if k == 0 {
      PutMapping(n, path[0], value);
    } else {
      assert path[..k][0] == path[0] && path[..k][1..] == path[1..][..k - 1];
      SetKeys(child, path[1..], leaf, k - 1);
      if found.None? {
        NothingInside(path[1..][..k]);
        EmptyKeys(path[1..][..k - 1]);
      }
    }
  }

  lemma PutMapping(n: Node, key: string, value: Node)
    requires n.Mapping?
    ensures Put(n, key, value).Mapping?
  {
  }

  lemma EmptyKeys(q: Path)
    ensures KeysAt(NO_KEYS, q) == []
  {
    if q != [] { NothingInside(q); }
  }

  /** What stands in the way of a write: something other than a mapping on the way, or other than a scalar at the end. */
  predicate Blocked(n: Node, path: Path) {
    || (exists k :: 0 <= k < |path| && Get(n, path[..k]).Some? && !Get(n, path[..k]).value.Mapping?)
    || (Get(n, path).Some? && !Get(n, path).value.Scalar?)
  }

  /** A write fails exactly if it is blocked. */
  lemma {:induction false} SetFails(n: Node, path: Path, leaf: Node)
    requires path != []
    ensures SetAt(n, path, leaf).None? <==> Blocked(n, path)
    decreases |path|
  {
    hide Put, Find;
    assert Get(n, path[..0]) == Some(n);
    var found := Find(n, path[0]);
    var child := if found.Some? then found.value else NO_KEYS;
    if n.Mapping? && |path| > 1 {
      SetFails(child, path[1..], leaf);
      BlockedTail(n, path);
      if found.None? { NeverBlocked(path[1..]); }
    } else if n.Mapping? {
      assert path[1..] == [];
      assert Get(n, path) == found by { assert found.Some? ==> Get(found.value, path[1..]) == found; }
      forall k | 0 <= k < |path| && Get(n, path[..k]).Some? ensures Get(n, path[..k]).value.Mapping? { }
    } else {
      NotMapping(n, path[0]);
    }
  }

  lemma NotMapping(n: Node, key: string)
    requires !n.Mapping?
    ensures Find(n, key) == None
  {
  }

  lemma NeverBlocked(path: Path)
    requires path != []
    ensures !Blocked(NO_KEYS, path)
  {
    NothingInside(path);
    forall k | 0 <= k < |path| && Get(NO_KEYS, path[..k]).Some? ensures Get(NO_KEYS, path[..k]).value.Mapping? {
      if k > 0 { NothingInside(path[..k]); }
    }
  }

  lemma BlockedTail(n: Node, path: Path)
    requires |path| > 1 && n.Mapping?
    ensures Blocked(n, path) <==> Find(n, path[0]).Some? && Blocked(Find(n, path[0]).value, path[1..])
  {
    hide Find;
    var found := Find(n, path[0]);
    forall k | 0 < k <= |path| ensures Get(n, path[..k]) == if found.None? then None else Get(found.value, path[1..][..k - 1]) {
      assert path[..k][0] == path[0] && path[..k][1..] == path[1..][..k - 1];
    }
    assert path[..|path|] == path && path[1..][..|path| - 1] == path[1..];
    if Blocked(n, path) {
      if exists k :: 0 <= k < |path| && Get(n, path[..k]).Some? && !Get(n, path[..k]).value.Mapping? {
        var k :| 0 <= k < |path| && Get(n, path[..k]).Some? && !Get(n, path[..k]).value.Mapping?;
        assert Get(n, path[..0]) == Some(n);
        assert Get(found.value, path[1..][..k - 1]) == Get(n, path[..k]);
      }
    }
    if found.Some? && Blocked(found.value, path[1..]) {
      if exists k :: 0 <= k < |path[1..]| && Get(found.value, path[1..][..k]).Some? && !Get(found.value, path[1..][..k]).value.Mapping? {
        var k :| 0 <= k < |path[1..]| && Get(found.value, path[1..][..k]).Some? && !Get(found.value, path[1..][..k]).value.Mapping?;
        assert Get(n, path[..k + 1]) == Get(found.value, path[1..][..k]);
      }
    }
  }

  // ---- unique keys -----------------------------------------------------------------------------

  /** No mapping of the tree has a key twice. */
  predicate UniqueKeys(n: Node)
    decreases n
  {
    match n
    case Scalar(_, _) => true
    case Mapping(pairs) => Distinct(Keys(n)) && forall i :: 0 <= i < |pairs| ==> UniqueKeys(pairs[i].1)
    case Sequence(items) => forall i :: 0 <= i < |items| ==> UniqueKeys(items[i])
  }

  lemma PutUnique(n: Node, key: string, value: Node)
    requires n.Mapping? && UniqueKeys(n) && UniqueKeys(value)
    ensures UniqueKeys(Put(n, key, value))
  {
    var p := Put(n, key, value);
    PutFind(n, key, value, key);
    assert Distinct(Keys(p)) by {
      forall i, j | 0 <= i < j < |Keys(p)| ensures Keys(p)[i] != Keys(p)[j] {
        assert Keys(n)[i] == n.pairs[i].0;
      }
    }
  }

  lemma FindUnique(n: Node, key: string)
    requires UniqueKeys(n) && Find(n, key).Some?
    ensures UniqueKeys(Find(n, key).value)
  {
  }

  lemma {:induction false} SetUnique(n: Node, path: Path, leaf: Node)
    requires path != [] && SetAt(n, path, leaf).Some? && UniqueKeys(n) && leaf.Scalar?
    ensures UniqueKeys(SetAt(n, path, leaf).value)
    decreases |path|
  {
    hide Put, Find;
    var found := Find(n, path[0]);
    if |path| == 1 {
      PutUnique(n, path[0], leaf);
    } else {
      var child := if found.Some? then found.value else NO_KEYS;
      if found.Some? { FindUnique(n, path[0]); }
      SetUnique(child, path[1..], leaf);
      PutUnique(n, path[0], SetAt(child, path[1..], leaf).value);
    }
  }

  // ---- delete -------------------------------------------------------------------------------------

  function Cut(n: Node, i: nat): Node
    requires n.Mapping? && i < |n.pairs|
  {
    Mapping(n.pairs[..i] + n.pairs[i + 1..])
  }

  lemma CutAt(n: Node, i: nat)
    requires n.Mapping? && i < |n.pairs|
    ensures |Cut(n, i).pairs| == |n.pairs| - 1
    ensures forall m :: 0 <= m < i ==> Cut(n, i).pairs[m] == n.pairs[m]
    ensures forall m :: i <= m < |n.pairs| - 1 ==> Cut(n, i).pairs[m] == n.pairs[m + 1]
    ensures Keys(Cut(n, i)) == Keys(n)[..i] + Keys(n)[i + 1..]
  {
    assert Keys(Cut(n, i)) == Keys(n)[..i] + Keys(n)[i + 1..];
  }

  lemma CutUnique(n: Node, i: nat)
    requires n.Mapping? && i < |n.pairs| && UniqueKeys(n)
    ensures UniqueKeys(Cut(n, i))
  {
    hide Cut;
    CutAt(n, i);
    var r := Cut(n, i);
    CutMapping(n, i);
    forall m | 0 <= m < |r.pairs| ensures UniqueKeys(r.pairs[m].1) {
      assert r.pairs[m] == n.pairs[if m < i then m else m + 1];
    }
  }

  lemma CutMapping(n: Node, i: nat)
    requires n.Mapping? && i < |n.pairs|
    ensures Cut(n, i).Mapping?
  {
  }

  lemma CutFind(n: Node, key: string, other: string)
    requires n.Mapping? && Distinct(Keys(n)) && Find(n, key).Some?
    ensures Find(Cut(n, KeyIndex(n.pairs, key)), other) == if other == key then None else Find(n, other)
  {
    hide Cut;
    var i := KeyIndex(n.pairs, key);
    CutAt(n, i);
    CutMapping(n, i);
    var r := Cut(n, i);
    forall m | 0 <= m < |n.pairs| ensures Keys(n)[m] == n.pairs[m].0 { }
    var j, k := KeyIndex(n.pairs, other), KeyIndex(r.pairs, other);
    if other != key && j >= 0 {
      assert r.pairs[if j < i then j else j - 1] == n.pairs[j];
      if k < i { assert n.pairs[k] == r.pairs[k]; } else { assert n.pairs[k + 1] == r.pairs[k]; }
      assert Keys(n)[if k < i then k else k + 1] == Keys(n)[j];
    }
  }

  /** A mapping without the pair of a key. */
  lemma CutPair(n: Node, key: string, other: string)
    requires n.Mapping? && UniqueKeys(n) && Find(n, key).Some?
    ensures var i := KeyIndex(n.pairs, key);
            var r := Mapping(n.pairs[..i] + n.pairs[i + 1..]);
            && Find(r, other) == (if other == key then None else Find(n, other))
            && Keys(r) == Keys(n)[..i] + Keys(n)[i + 1..] && Keys(n)[i] == key
            && UniqueKeys(r)
  {
    var i := KeyIndex(n.pairs, key);
    assert Distinct(Keys(n));
    assert Cut(n, i) == Mapping(n.pairs[..i] + n.pairs[i + 1..]);
    hide UniqueKeys, Cut, Distinct;
    CutAt(n, i);
    CutUnique(n, i);
    CutFind(n, key, other);
  }

  /** Deleting fails exactly if there is nothing there; what was there is gone, and only that. */
  lemma {:induction false} DeleteGet(n: Node, path: Path)
    requires path != [] && UniqueKeys(n)
    ensures DeleteAt(n, path).None? <==> Get(n, path).None?
    ensures DeleteAt(n, path).Some? ==> Get(DeleteAt(n, path).value, path) == None && UniqueKeys(DeleteAt(n, path).value)
    decreases |path|
  {
    hide Put, Find, KeyIndex;
    var found := Find(n, path[0]);
    if found.Some? {
      FoundInMapping(n, path[0]);
      FindUnique(n, path[0]);
      if |path| == 1 {
        assert path[1..] == [];
        CutPair(n, path[0], path[0]);
      } else {
        DeleteGet(found.value, path[1..]);
        var child := DeleteAt(found.value, path[1..]);
        if child.Some? {
          PutFind(n, path[0], child.value, path[0]);
          PutUnique(n, path[0], child.value);
        }
      }
    }
  }

  lemma FoundInMapping(n: Node, key: string)
    requires Find(n, key).Some?
    ensures n.Mapping?
  {
  }

  lemma {:induction false} DeleteOther(n: Node, path: Path, q: Path)
    requires path != [] && UniqueKeys(n) && DeleteAt(n, path).Some? && Apart(path, q)
    ensures Get(DeleteAt(n, path).value, q) == Get(n, q)
    decreases |path|
  {
    hide Put, Find, KeyIndex;
    ApartTail(path, q);
    var found := Find(n, path[0]);
    FoundInMapping(n, path[0]);
    FindUnique(n, path[0]);
    if |path| == 1 {
      CutPair(n, path[0], q[0]);
    } else {
      PutFind(n, path[0], DeleteAt(found.value, path[1..]).value, q[0]);
      if path[0] == q[0] { DeleteOther(found.value, path[1..], q[1..]); }
    }
  }

  /** Exactly one key leaves the parent, the others keep their order; mappings further up keep all of theirs. */
  lemma {:induction false} DeleteKeys(n: Node, path: Path, k: nat)
    requires k < |path| && UniqueKeys(n) && DeleteAt(n, path).Some?
    ensures var before, after := KeysAt(n, path[..k]), KeysAt(DeleteAt(n, path).value, path[..k]);
            if k + 1 < |path| then after == before
            else exists i :: 0 <= i < |before| && before[i] == path[k] && after == before[..i] + before[i + 1..]
    decreases |path|
  {
    hide Put, Find, Keys, KeyIndex;
    var found := Find(n, path[0]);
    FoundInMapping(n, path[0]);
    FindUnique(n, path[0]);
    if k == 0 {
      assert Get(n, path[..0]) == Some(n) && Get(DeleteAt(n, path).value, path[..0]) == Some(DeleteAt(n, path).value);
      if |path| == 1 {
        CutPair(n, path[0], path[0]);
        KeyAt(n, path[0]);
      } else {
        PutFind(n, path[0], DeleteAt(found.value, path[1..]).value, path[0]);
      }
    } else {
      assert path[..k][0] == path[0] && path[..k][1..] == path[1..][..k - 1];
      DeleteKeys(found.value, path[1..], k - 1);
      PutFind(n, path[0], DeleteAt(found.value, path[1..]).value, path[0]);
    }
  }

  lemma KeyAt(n: Node, key: string)
    requires Find(n, key).Some?
    ensures n.Mapping? && 0 <= KeyIndex(n.pairs, key) < |Keys(n)|
  {
  }

  // ---- rename ---------------------------------------------------------------------------------------

  lemma RenamePair(n: Node, before: string, after: string, other: string)
    requires n.Mapping? && UniqueKeys(n) && Find(n, before).Some? && Find(n, after).None?
    ensures var i := KeyIndex(n.pairs, before);
            var r := Mapping(n.pairs[i := (after, n.pairs[i].1)]);
            && Find(r, other) == (if other == after then Find(n, before) else if other == before then None else Find(n, other))
            && Keys(r) == Keys(n)[i := after] && Keys(n)[i] == before
            && UniqueKeys(r)
  {
    var i := KeyIndex(n.pairs, before);
    var r := Mapping(n.pairs[i := (after, n.pairs[i].1)]);
    assert Keys(r) == Keys(n)[i := after];
    assert forall m :: 0 <= m < |n.pairs| ==> Keys(n)[m] == n.pairs[m].0 && Keys(r)[m] == r.pairs[m].0;
    assert forall m :: 0 <= m < |n.pairs| && m != i ==> Keys(n)[m] != before && Keys(n)[m] != after;
    var j, k := KeyIndex(n.pairs, other), KeyIndex(r.pairs, other);
    if j >= 0 && other != before { assert r.pairs[j] == n.pairs[j]; }
    assert r.pairs[i].0 == after;
  }

  /**
   * Renaming fails exactly if the parent is no mapping, the old key is missing or the new one taken.
   * Otherwise everything under the old key reads the same under the new one, the key stays in its place and nothing else changes.
   */
  lemma {:induction false} RenameGet(n: Node, parent: Path, before: string, after: string, rest: Path)
    requires UniqueKeys(n)
    ensures RenameAt(n, parent, before, after).None? <==>
              Get(n, parent).None? || !Get(n, parent).value.Mapping? || before !in KeysAt(n, parent) || after in KeysAt(n, parent)
    ensures RenameAt(n, parent, before, after).Some? ==>
              var r := RenameAt(n, parent, before, after).value;
              && Get(r, parent + [after] + rest) == Get(n, parent + [before] + rest)
              && Get(r, parent + [before]) == None
              && (forall q :: Apart(parent + [before], q) && Apart(parent + [after], q) ==> Get(r, q) == Get(n, q))
              && |KeysAt(r, parent)| == |KeysAt(n, parent)|
              && (forall i :: 0 <= i < |KeysAt(n, parent)| ==>
                    KeysAt(r, parent)[i] == if KeysAt(n, parent)[i] == before then after else KeysAt(n, parent)[i])
              && UniqueKeys(r)
    decreases |parent|
  {
    if parent == [] {
      RenameTop(n, before, after, rest);
    } else {
      RenameBelow(n, parent, before, after, rest);
    }
  }

  lemma KeysFind(n: Node, key: string)
    ensures key in Keys(n) <==> Find(n, key).Some?
    ensures n.Mapping? ==> (Find(n, key).Some? <==> KeyIndex(n.pairs, key) >= 0)
  {
    if n.Mapping? {
      var i := KeyIndex(n.pairs, key);
      if i >= 0 { assert Keys(n)[i] == key; }
    }
  }

  lemma RenameTop(n: Node, before: string, after: string, rest: Path)
    requires UniqueKeys(n)
    ensures var r := RenameAt(n, [], before, after);
            && (r.None? <==> !n.Mapping? || before !in Keys(n) || after in Keys(n))
            && (r.Some? ==>
                  && Get(r.value, [] + [after] + rest) == Get(n, [] + [before] + rest)
                  && Get(r.value, [] + [before]) == None
                  && (forall q :: Apart([] + [before], q) && Apart([] + [after], q) ==> Get(r.value, q) == Get(n, q))
                  && |Keys(r.value)| == |Keys(n)|
                  && (forall i :: 0 <= i < |Keys(n)| ==> Keys(r.value)[i] == if Keys(n)[i] == before then after else Keys(n)[i])
                  && UniqueKeys(r.value))
  {
    hide Find, KeyIndex, UniqueKeys, Keys;
    KeysFind(n, before);
    KeysFind(n, after);
    var r := RenameAt(n, [], before, after);
    if r.Some? {
      RenamePair(n, before, after, after);
      RenamePair(n, before, after, before);
      assert ([] + [after] + rest)[0] == after && ([] + [after] + rest)[1..] == rest;
      assert ([] + [before] + rest)[0] == before && ([] + [before] + rest)[1..] == rest;
      forall q | Apart([] + [before], q) && Apart([] + [after], q) ensures Get(r.value, q) == Get(n, q) {
        ApartTail([] + [before], q);
        ApartTail([] + [after], q);
        RenamePair(n, before, after, q[0]);
      }
      OneKey(n, before);
    }
  }

  lemma OneKey(n: Node, key: string)
    requires n.Mapping? && UniqueKeys(n)
    ensures |Keys(n)| == |n.pairs| && forall i :: 0 <= i < |Keys(n)| && Keys(n)[i] == key ==> i == KeyIndex(n.pairs, key)
  {
    forall i | 0 <= i < |Keys(n)| && Keys(n)[i] == key ensures i == KeyIndex(n.pairs, key) {
      assert n.pairs[i].0 == key;
      assert Keys(n)[KeyIndex(n.pairs, key)] == key;
    }
  }

  lemma {:induction false} RenameBelow(n: Node, parent: Path, before: string, after: string, rest: Path)
    requires UniqueKeys(n) && parent != []
    ensures RenameAt(n, parent, before, after).None? <==>
              Get(n, parent).None? || !Get(n, parent).value.Mapping? || before !in KeysAt(n, parent) || after in KeysAt(n, parent)
    ensures RenameAt(n, parent, before, after).Some? ==>
              var r := RenameAt(n, parent, before, after).value;
              && Get(r, parent + [after] + rest) == Get(n, parent + [before] + rest)
              && Get(r, parent + [before]) == None
              && (forall q :: Apart(parent + [before], q) && Apart(parent + [after], q) ==> Get(r, q) == Get(n, q))
              && |KeysAt(r, parent)| == |KeysAt(n, parent)|
              && (forall i :: 0 <= i < |KeysAt(n, parent)| ==>
                    KeysAt(r, parent)[i] == if KeysAt(n, parent)[i] == before then after else KeysAt(n, parent)[i])
              && UniqueKeys(r)
    decreases |parent|, 0
  {
    hide Put, Find, Keys, UniqueKeys;
    var found := Find(n, parent[0]);
    if found.Some? {
      FoundInMapping(n, parent[0]);
      FindUnique(n, parent[0]);
      RenameGet(found.value, parent[1..], before, after, rest);
      var inner := RenameAt(found.value, parent[1..], before, after);
      if inner.Some? {
        var r := Put(n, parent[0], inner.value);
        PutUnique(n, parent[0], inner.value);
        PutFind(n, parent[0], inner.value, parent[0]);
        PathStep(parent, [after] + rest);
        PathStep(parent, [before] + rest);
        PathStep(parent, [before]);
        PathStep(parent, [after]);
        assert parent + [after] + rest == parent + ([after] + rest) && parent + [before] + rest == parent + ([before] + rest);
        assert parent[1..] + [after] + rest == parent[1..] + ([after] + rest) && parent[1..] + [before] + rest == parent[1..] + ([before] + rest);
        forall q | Apart(parent + [before], q) && Apart(parent + [after], q) ensures Get(r, q) == Get(n, q) {
          ApartTail(parent + [before], q);
          ApartTail(parent + [after], q);
          PutFind(n, parent[0], inner.value, q[0]);
        }
      }
    }
  }

  lemma PathStep(parent: Path, rest: Path)
    requires parent != []
    ensures (parent + rest)[0] == parent[0] && (parent + rest)[1..] == parent[1..] + rest
  {
  }

  // ---- documents -----------------------------------------------------------------------------------------

  function Root(d: Document): Node { if d.Some? then d.value else NO_KEYS }

  /** A dotted path written as a scalar; an empty path is refused. */
  function PathSet(d: Document, path: string, value: string): Option<Document> {
    var segments := SplitPath(path);
    if segments == [] then None
    else
      match SetAt(Root(d), segments, Scalar("!!str", value))
      case None => None
      case Some(n) => Some(Some(n))
  }
}
