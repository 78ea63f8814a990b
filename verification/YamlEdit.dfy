/**
 * The document changed in place: a cursor walks down the path, and what it creates or overwrites on the
 * way is there at once. (internal/config/path.go)
 */
module YamlEdit {
  import opened Text
  import opened Yaml

  /** The tree with another node where the path leads. */
  function Replace(n: Node, path: Path, node: Node): Node
    requires Get(n, path).Some?
    decreases |path|
  {
    if path == [] then node
    else Put(n, path[0], Replace(Find(n, path[0]).value, path[1..], node))
  }

  lemma {:induction false} ReplaceGet(n: Node, path: Path, node: Node)
    requires Get(n, path).Some?
    ensures Get(Replace(n, path, node), path) == Some(node)
    decreases |path|
  {
    hide Put, Find;
    if path != [] {
      FoundInMapping(n, path[0]);
      ReplaceGet(Find(n, path[0]).value, path[1..], node);
      PutFind(n, path[0], Replace(Find(n, path[0]).value, path[1..], node), path[0]);
    }
  }

  lemma PutTwice(n: Node, key: string, a: Node, b: Node)
    requires n.Mapping?
    ensures Put(n, key, a).Mapping? && Put(Put(n, key, a), key, b) == Put(n, key, b)
  {
    var p := Put(n, key, a);
    PutFind(n, key, a, key);
    var i := KeyIndex(n.pairs, key);
    if i < 0 {
      assert p.pairs[|n.pairs|] == (key, a);
      assert forall m :: 0 <= m < |n.pairs| ==> p.pairs[m] == n.pairs[m];
      assert KeyIndex(p.pairs, key) == |n.pairs|;
      assert p.pairs[|n.pairs| := (key, b)] == n.pairs + [(key, b)];
    } else {
      assert p.pairs == n.pairs[i := (key, a)];
      assert p.pairs[i].0 == key && forall m :: 0 <= m < i ==> p.pairs[m] == n.pairs[m];
      assert p.pairs[i := (key, b)] == n.pairs[i := (key, b)];
      assert KeyIndex(p.pairs, key) == i;
    }
  }

  lemma {:induction false} ReplaceTwice(n: Node, path: Path, a: Node, b: Node)
    requires Get(n, path).Some?
    ensures Get(Replace(n, path, a), path).Some? && Replace(Replace(n, path, a), path, b) == Replace(n, path, b)
    decreases |path|
  {
    hide Put, Find;
    ReplaceGet(n, path, a);
    if path != [] {
      FoundInMapping(n, path[0]);
      var child := Find(n, path[0]).value;
      ReplaceTwice(child, path[1..], a, b);
      PutFind(n, path[0], Replace(child, path[1..], a), path[0]);
      PutTwice(n, path[0], Replace(child, path[1..], a), Replace(child, path[1..], b));
    }
  }

  lemma {:induction false} ReplaceSame(n: Node, path: Path)
    requires Get(n, path).Some?
    ensures Replace(n, path, Get(n, path).value) == n
    decreases |path|
  {
    if path != [] {
      FoundInMapping(n, path[0]);
      ReplaceSame(Find(n, path[0]).value, path[1..]);
      var i := KeyIndex(n.pairs, path[0]);
      assert n.pairs[i := n.pairs[i]] == n.pairs;
      assert n.pairs[i] == (path[0], Find(n, path[0]).value);
    }
  }

  /** Reading further down from where a path leads. */
  lemma {:induction false} GetBelow(n: Node, path: Path, i: nat)
    requires i <= |path| && Get(n, path[..i]).Some?
    ensures Get(n, path) == Get(Get(n, path[..i]).value, path[i..])
    decreases i
  {
    hide Find;
    if i == 0 {
      assert path[0..] == path;
    } else {
      assert path[..i][0] == path[0] && path[..i][1..] == path[1..][..i - 1] && path[1..][i - 1..] == path[i..];
      GetBelow(Find(n, path[0]).value, path[1..], i - 1);
    }
  }

  /** Writing at a path is writing below any node on the way. */
  lemma {:induction false} SetBelow(n: Node, path: Path, leaf: Node, i: nat)
    requires i < |path| && Get(n, path[..i]).Some?
    ensures var below := SetAt(Get(n, path[..i]).value, path[i..], leaf);
            SetAt(n, path, leaf) == if below.None? then None else Some(Replace(n, path[..i], below.value))
    decreases i
  {
    hide Put, Find;
    if i == 0 {
      assert path[0..] == path;
    } else {
      FoundInMapping(n, path[0]);
      assert path[..i][0] == path[0] && path[..i][1..] == path[1..][..i - 1] && path[1..][i - 1..] == path[i..];
      SetBelow(Find(n, path[0]).value, path[1..], leaf, i - 1);
    }
  }

  /** Deleting at a path is deleting below any node on the way. */
  lemma {:induction false} DeleteBelow(n: Node, path: Path, i: nat)
    requires i < |path| && Get(n, path[..i]).Some?
    ensures var below := DeleteAt(Get(n, path[..i]).value, path[i..]);
            DeleteAt(n, path) == if below.None? then None else Some(Replace(n, path[..i], below.value))
    decreases i
  {
    hide Put, Find;
    if i == 0 {
      assert path[0..] == path;
    } else {
      FoundInMapping(n, path[0]);
      assert path[..i][0] == path[0] && path[..i][1..] == path[1..][..i - 1] && path[1..][i - 1..] == path[i..];
      DeleteBelow(Find(n, path[0]).value, path[1..], i - 1);
    }
  }

  lemma {:induction false} RenameBelowAt(n: Node, parent: Path, before: string, after: string)
    ensures RenameAt(n, parent, before, after)
            == match Get(n, parent)
               case None => None
               case Some(m) =>
                 match RenameAt(m, [], before, after)
                 case None => None
                 case Some(r) => Some(Replace(n, parent, r))
    decreases |parent|
  {
    hide Put;
    if parent != [] && Find(n, parent[0]).Some? { RenameBelowAt(Find(n, parent[0]).value, parent[1..], before, after); }
  }

  /** Creating an empty mapping where the write would create one does not change what the write comes to. */
  lemma CreatedOnTheWay(n: Node, path: Path, leaf: Node, i: nat)
    requires i + 1 < |path| && Get(n, path[..i]).Some? && Get(n, path[..i]).value.Mapping?
    requires Find(Get(n, path[..i]).value, path[i]).None?
    ensures var created := Replace(n, path[..i], Put(Get(n, path[..i]).value, path[i], NO_KEYS));
            && SetAt(created, path, leaf) == SetAt(n, path, leaf)
            && Get(created, path[..i + 1]) == Some(NO_KEYS)
  {
    hide Put, Find, Get, Replace;
    var cursor, key, rest := Get(n, path[..i]).value, path[i], path[i..];
    var filled := Put(cursor, key, NO_KEYS);
    var created := Replace(n, path[..i], filled);
    ReplaceGet(n, path[..i], filled);
    SetBelow(n, path, leaf, i);
    SetBelow(created, path, leaf, i);
    PutFind(cursor, key, NO_KEYS, key);
    assert rest[0] == key && |rest| > 1;
    var child := SetAt(NO_KEYS, rest[1..], leaf);
    PutTwice(cursor, key, NO_KEYS, if child.Some? then child.value else NO_KEYS);
    if child.Some? { ReplaceTwice(n, path[..i], filled, Put(cursor, key, child.value)); }
    StepDown(created, path, i);
  }

  lemma StepDown(n: Node, path: Path, i: nat)
    requires i < |path| && Get(n, path[..i]).Some?
    ensures Get(n, path[..i + 1]) == Find(Get(n, path[..i]).value, path[i])
  {
    hide Find;
    var p := path[..i + 1];
    assert p[..i] == path[..i] && p[i..] == [path[i]];
    GetBelow(n, p, i);
    OneStep(Get(n, path[..i]).value, path[i]);
  }

  lemma OneStep(n: Node, key: string)
    ensures Get(n, [key]) == Find(n, key)
  {
    assert [key][1..] == [];
  }

  class File {
    var content: Document

    /** The top node; an empty document is given an empty mapping. */
    method DocumentRoot() returns (n: Node)
      modifies this
      ensures content == Some(Root(old(content))) && n == Root(old(content))
    {
      if content.None? { content := Some(NO_KEYS); }
      return content.value;
    }

    /** Reading changes nothing, but for filling an empty document. */
    method PathGet(segments: Path) returns (r: Option<Node>)
      modifies this
      ensures content == Some(Root(old(content)))
      ensures r == Get(Root(old(content)), segments)
    {
      var cursor := DocumentRoot();
      for i := 0 to |segments|
        invariant content == Some(Root(old(content)))
        invariant Get(content.value, segments[..i]) == Some(cursor)
      {
        StepDown(content.value, segments, i);
        GetBelow(content.value, segments, i);
        if !cursor.Mapping? { return None; }
        var found := Find(cursor, segments[i]);
        if found.None? { return None; }
        cursor := found.value;
      }
      assert segments[..|segments|] == segments;
      return Some(cursor);
    }

    /**
     * Writes a scalar. Mappings missing on the way are created as the cursor goes, yet a write that fails
     * has created none: once one is created nothing is left to stand in the way.
     */
    method PathSet(segments: Path, leaf: Node) returns (ok: bool)
      modifies this
      ensures segments == [] ==> !ok && content == old(content)
      ensures segments != [] ==> (ok <==> !Blocked(Root(old(content)), segments))
      ensures ok ==> content == SetAt(Root(old(content)), segments, leaf)
      ensures !ok && segments != [] ==> content == Some(Root(old(content)))
      ensures !ok ==> content == old(content)
    {
      if segments == [] { return false; }
      ghost var n := Root(content);
      ghost var filled := content.None?;
      SetFails(n, segments, leaf);
      if content.None? { NeverBlocked(segments); }
      var cursor := DocumentRoot();
      var last := |segments| - 1;
      ghost var created := false;
      for i := 0 to last
        invariant content.Some? && Get(content.value, segments[..i]) == Some(cursor)
        invariant SetAt(content.value, segments, leaf) == SetAt(n, segments, leaf)
        invariant if created then cursor == NO_KEYS else content == Some(n)
      {
        SetBelow(content.value, segments, leaf, i);
        StepDown(content.value, segments, i);
        if !cursor.Mapping? { return false; }
        var found := Find(cursor, segments[i]);
        if found.None? {
          CreatedOnTheWay(content.value, segments, leaf, i);
          content := Some(Replace(content.value, segments[..i], Put(cursor, segments[i], NO_KEYS)));
          cursor, created := NO_KEYS, true;
          continue;
        }
        if !found.value.Mapping? { return false; }
        cursor := found.value;
      }
      SetBelow(content.value, segments, leaf, last);
      assert segments[last..] == [segments[last]];
      if !cursor.Mapping? { return false; }
      var found := Find(cursor, segments[last]);
      if found.Some? && !found.value.Scalar? { return false; }
      content := Some(Replace(content.value, segments[..last], Put(cursor, segments[last], leaf)));
      return true;
    }

    /** Cuts a pair out. */
    method PathDelete(segments: Path) returns (ok: bool)
      modifies this
      ensures segments == [] ==> !ok && content == old(content)
      ensures segments != [] ==> (ok <==> DeleteAt(Root(old(content)), segments).Some?)
      ensures ok ==> content == DeleteAt(Root(old(content)), segments)
      ensures !ok && segments != [] ==> content == Some(Root(old(content)))
    {
      if segments == [] { return false; }
      var cursor := DocumentRoot();
      ghost var n := content.value;
      var last := |segments| - 1;
      for i := 0 to last
        invariant content == Some(n) && Get(n, segments[..i]) == Some(cursor)
      {
        DeleteBelow(n, segments, i);
        StepDown(n, segments, i);
        var found := Find(cursor, segments[i]);
        if found.None? { return false; }
        if !found.value.Mapping? { return false; }
        cursor := found.value;
      }
      DeleteBelow(n, segments, last);
      assert segments[last..] == [segments[last]];
      if !cursor.Mapping? { return false; }
      var idx := KeyIndex(cursor.pairs, segments[last]);
      if idx < 0 { return false; }
      content := Some(Replace(content.value, segments[..last], Mapping(cursor.pairs[..idx] + cursor.pairs[idx + 1..])));
      return true;
    }

    /** Gives a key another name. */
    method PathRename(parent: Path, before: string, after: string) returns (ok: bool)
      modifies this
      ensures ok <==> RenameAt(Root(old(content)), parent, before, after).Some?
      ensures content == if ok then RenameAt(Root(old(content)), parent, before, after) else Some(Root(old(content)))
    {
      var found := PathGet(parent);
      RenameBelowAt(content.value, parent, before, after);
      if found.None? { return false; }
      var cursor := found.value;
      if !cursor.Mapping? { return false; }
      var idx := KeyIndex(cursor.pairs, before);
      if idx < 0 { return false; }
      if KeyIndex(cursor.pairs, after) >= 0 { return false; }
      content := Some(Replace(content.value, parent, Mapping(cursor.pairs[idx := (after, cursor.pairs[idx].1)])));
      return true;
    }
  }
}
