/**
 * What a configuration read from a document says, told by what is at the document's paths.
 * (internal/config/types.go)
 */
module Loaded {
  import opened Text
  import opened Yaml
  import opened Import
  import opened Diff
  import R = Resolver

  /** The text at a path; empty where there is none. */
  function TextAt(n: Node, path: Path): string {
    match Get(n, path)
    case Some(Scalar(_, value)) => value
    case _ => ""
  }

  function ItemsAt(n: Node, path: Path): seq<Node> {
    match Get(n, path)
    case Some(Sequence(items)) => items
    case _ => []
  }

  predicate PaneReads(n: Node, p: R.Pane) {
    p.dir == TextAt(n, ["dir"]) && p.root == TextAt(n, ["root"]) && p.path == TextAt(n, ["path"]) && p.command == TextAt(n, ["command"])
  }

  /** A window is a directory for short, or each of its fields from the key of that name. */
  predicate WindowReads(n: Node, w: R.Window) {
    if n.Scalar? then w == R.Window(n.value, "", "", "", "", "", [])
    else
      && w.dir == TextAt(n, ["dir"]) && w.root == TextAt(n, ["root"]) && w.path == TextAt(n, ["path"])
      && w.layout == TextAt(n, ["layout"]) && w.command == TextAt(n, ["command"]) && w.extends_ == TextAt(n, ["extends"])
      && |w.panes| == |ItemsAt(n, ["panes"])|
      && forall i :: 0 <= i < |w.panes| ==> PaneReads(ItemsAt(n, ["panes"])[i], w.panes[i])
  }

  /** A session's windows are those below its windows key, in the order of the document. */
  predicate SessionReads(n: Node, s: R.Session) {
    && s.root == TextAt(n, ["root"]) && s.path == TextAt(n, ["path"])
    && |s.windows| == |KeysAt(n, ["windows"])|
    && forall i :: 0 <= i < |s.windows| ==>
         && s.windows[i].0 == KeysAt(n, ["windows"])[i]
         && Get(n, ["windows", s.windows[i].0]).Some? && WindowReads(Get(n, ["windows", s.windows[i].0]).value, s.windows[i].1)
  }

  /** The configuration has the roots and the sessions of the document, each as it stands there. */
  ghost predicate ConfigReads(n: Node, c: R.Config) {
    && (forall k :: k in c.roots <==> Get(n, ["roots", k]).Some?)
    && (forall k :: k in c.roots ==> c.roots[k] == TextAt(n, ["roots", k]))
    && (forall k :: k in c.sessions <==> Get(n, ["sessions", k]).Some?)
    && (forall k :: k in c.sessions ==> SessionReads(Get(n, ["sessions", k]).value, c.sessions[k]))
  }

  lemma GetOne(n: Node, key: string)
    ensures Get(n, [key]) == Find(n, key)
    ensures Field(n, key).Some? ==> Field(n, key).value == TextAt(n, [key])
  {
    assert [key][1..] == [];
  }

  lemma GetTwo(n: Node, a: string, b: string)
    ensures Get(n, [a, b]) == match Find(n, a) case None => None case Some(m) => Find(m, b)
  {
    assert [a, b][1..] == [b];
    var found := Find(n, a);
    if found.Some? { GetOne(found.value, b); }
  }

  lemma PaneIsRead(n: Node)
    ensures LoadPane(n).Some? ==> PaneReads(n, LoadPane(n).value)
  {
    hide Field, Get;
    GetOne(n, "dir");
    GetOne(n, "root");
    GetOne(n, "path");
    GetOne(n, "command");
  }

  lemma {:induction false} PanesAreRead(items: seq<Node>)
    ensures LoadPanes(items).Some? ==>
              |LoadPanes(items).value| == |items| && forall i :: 0 <= i < |items| ==> PaneReads(items[i], LoadPanes(items).value[i])
  {
    hide LoadPane, PaneReads;
    if items != [] {
      PaneIsRead(items[0]);
      PanesAreRead(items[1..]);
    }
  }

  lemma WindowIsRead(n: Node)
    ensures LoadWindow(n).Some? ==> WindowReads(n, LoadWindow(n).value)
  {
    hide Field, Get, PaneReads, LoadPanes;
    if n.Mapping? {
      GetOne(n, "dir");
      GetOne(n, "root");
      GetOne(n, "path");
      GetOne(n, "layout");
      GetOne(n, "command");
      GetOne(n, "extends");
      GetOne(n, "panes");
      PanesAreRead(ItemsAt(n, ["panes"]));
      if Find(n, "panes").None? { NoPanes(); }
    }
  }

  lemma NoPanes()
    ensures LoadPanes([]) == Some([])
  {
  }

  lemma {:induction false} WindowsAreRead(pairs: seq<(string, Node)>)
    ensures LoadWindows(pairs).Some? ==>
              && |LoadWindows(pairs).value| == |pairs|
              && forall i :: 0 <= i < |pairs| ==> LoadWindows(pairs).value[i].0 == pairs[i].0 && WindowReads(pairs[i].1, LoadWindows(pairs).value[i].1)
  {
    hide LoadWindow, WindowReads;
    if pairs != [] {
      WindowIsRead(pairs[0].1);
      WindowsAreRead(pairs[1..]);
    }
  }

  lemma SessionIsRead(n: Node)
    requires UniqueKeys(n)
    ensures LoadSession(n).Some? ==> SessionReads(n, LoadSession(n).value)
  {
    hide Field, Get, WindowReads, LoadWindows, UniqueKeys, Keys;
    if LoadSession(n).Some? {
      var s, pairs := LoadSession(n).value, Section(n, "windows");
      GetOne(n, "root");
      GetOne(n, "path");
      GetOne(n, "windows");
      if Find(n, "windows").Some? {
        FindUnique(n, "windows");
        UniqueTop(Find(n, "windows").value);
        WindowsAreRead(pairs);
        KeysLength(pairs);
        forall i | 0 <= i < |s.windows|
          ensures s.windows[i].0 == KeysAt(n, ["windows"])[i]
          ensures Get(n, ["windows", s.windows[i].0]).Some? && WindowReads(Get(n, ["windows", s.windows[i].0]).value, s.windows[i].1)
        {
          KeyOf(pairs, i);
          PairFound(Mapping(pairs), i);
          GetTwo(n, "windows", pairs[i].0);
        }
      } else {
        NoWindows();
      }
    }
  }

  lemma UniqueTop(n: Node)
    requires UniqueKeys(n) && n.Mapping?
    ensures Distinct(Keys(n))
  {
  }

  lemma NoWindows()
    ensures LoadWindows([]) == Some([])
  {
  }

  lemma {:induction false} SessionsAreRead(pairs: seq<(string, Node)>)
    requires forall i, j :: 0 <= i < j < |pairs| ==> pairs[i].0 != pairs[j].0
    requires forall i :: 0 <= i < |pairs| ==> UniqueKeys(pairs[i].1)
    ensures LoadSessions(pairs).Some? ==>
              var r := LoadSessions(pairs).value;
              && (forall k :: k in r ==> exists i :: 0 <= i < |pairs| && pairs[i].0 == k)
              && forall i :: 0 <= i < |pairs| ==> pairs[i].0 in r && SessionReads(pairs[i].1, r[pairs[i].0])
  {
    hide LoadSession, SessionReads, UniqueKeys;
    if pairs != [] && LoadSessions(pairs).Some? {
      var t := pairs[1..];
      assert forall i :: 0 <= i < |t| ==> t[i] == pairs[i + 1];
      SessionIsRead(pairs[0].1);
      SessionsAreRead(t);
      forall k | k in LoadSessions(pairs).value ensures exists i :: 0 <= i < |pairs| && pairs[i].0 == k {
        if k == pairs[0].0 {
          assert pairs[0].0 == k;
        } else {
          var i :| 0 <= i < |t| && t[i].0 == k;
          assert pairs[i + 1].0 == k;
        }
      }
    }
  }

  lemma {:induction false} RootsAreRead(pairs: seq<(string, Node)>)
    ensures LoadRoots(pairs).Some? ==> forall i :: 0 <= i < |pairs| ==> pairs[i].1.Scalar?
  {
    if pairs != [] { RootsAreRead(pairs[1..]); }
  }

  /** A document that loads is read as it stands: roots and sessions by their keys, every field from its own. */
  lemma LoadReads(n: Node)
    requires Load(n).Some?
    ensures ConfigReads(n, Load(n).value)
  {
    hide Get, SessionReads, LoadSessions, LoadRoots, UniqueKeys, Keys;
    var c := Load(n).value;
    RootsRead(n);
    SessionsRead(n);
  }

  lemma RootsRead(n: Node)
    requires Load(n).Some?
    ensures var c := Load(n).value;
            && (forall k :: k in c.roots <==> Get(n, ["roots", k]).Some?)
            && (forall k :: k in c.roots ==> c.roots[k] == TextAt(n, ["roots", k]))
  {
    hide Get, LoadSessions, LoadRoots, UniqueKeys, Keys;
    var c, pairs := Load(n).value, Section(n, "roots");
    forall k { GetTwo(n, "roots", k); }
    if Find(n, "roots").Some? {
      FindUnique(n, "roots");
      UniqueTop(Find(n, "roots").value);
      RootsAreRead(pairs);
      forall i, j | 0 <= i < j < |pairs| ensures pairs[i].0 != pairs[j].0 {
        KeyOf(pairs, i);
        KeyOf(pairs, j);
      }
      LoadRootsSpec(pairs);
      forall i | 0 <= i < |pairs| ensures Find(Mapping(pairs), pairs[i].0) == Some(pairs[i].1) { PairFound(Mapping(pairs), i); }
      forall k ensures Find(Mapping(pairs), k).Some? ==> exists i :: 0 <= i < |pairs| && pairs[i].0 == k {
        if Find(Mapping(pairs), k).Some? { FoundPair(pairs, k); }
      }
    } else {
      NoRoots();
    }
  }

  lemma FoundPair(pairs: seq<(string, Node)>, k: string)
    requires Find(Mapping(pairs), k).Some?
    ensures exists i :: 0 <= i < |pairs| && pairs[i].0 == k
  {
    var i := KeyIndex(pairs, k);
    assert pairs[i].0 == k;
  }

  lemma NoRoots()
    ensures LoadRoots([]) == Some(map[]) && LoadSessions([]) == Some(map[])
  {
  }

  lemma SessionsRead(n: Node)
    requires Load(n).Some?
    ensures var c := Load(n).value;
            && (forall k :: k in c.sessions <==> Get(n, ["sessions", k]).Some?)
            && (forall k :: k in c.sessions ==> SessionReads(Get(n, ["sessions", k]).value, c.sessions[k]))
  {
    hide Get, SessionReads, LoadSessions, LoadRoots, UniqueKeys, Keys;
    var c, pairs := Load(n).value, Section(n, "sessions");
    forall k { GetTwo(n, "sessions", k); }
    if Find(n, "sessions").Some? {
      FindUnique(n, "sessions");
      UniqueTop(Find(n, "sessions").value);
      forall i, j | 0 <= i < j < |pairs| ensures pairs[i].0 != pairs[j].0 {
        KeyOf(pairs, i);
        KeyOf(pairs, j);
      }
      BelowUnique(pairs);
      SessionsAreRead(pairs);
      forall i | 0 <= i < |pairs| ensures Find(Mapping(pairs), pairs[i].0) == Some(pairs[i].1) { PairFound(Mapping(pairs), i); }
      forall k ensures Find(Mapping(pairs), k).Some? ==> exists i :: 0 <= i < |pairs| && pairs[i].0 == k {
        if Find(Mapping(pairs), k).Some? { FoundPair(pairs, k); }
      }
    } else {
      NoRoots();
    }
  }

  lemma BelowUnique(pairs: seq<(string, Node)>)
    requires UniqueKeys(Mapping(pairs))
    ensures forall i :: 0 <= i < |pairs| ==> UniqueKeys(pairs[i].1)
  {
  }
}
