/**
 * Writing the live windows into an empty document, path by path. (internal/actions/sync.go)
 */
module Import {
  import opened Text
  import opened Sorting
  import opened Yaml
  import opened Roots
  import R = Resolver

  // ---- what is written for one window -------------------------------------------------------

  function WindowPath(session: string, window: string): Path { ["sessions", session, "windows", window] }

  function Str(value: string): Node { Scalar("!!str", value) }

  /** A mapping with a root and a path, both strings. */
  predicate IsPlaced(n: Node, root: string, path: string) {
    Keys(n) == ["root", "path"] && Find(n, "root") == Some(Str(root)) && Find(n, "path") == Some(Str(path))
  }

  /** The k-th mapping on the way has its old keys, and the next one on the way if that was missing. */
  predicate OnTheWay(n: Node, after: Node, path: Path, k: nat)
    requires k < |path|
  {
    && Get(after, path[..k]).Some? && Get(after, path[..k]).value.Mapping?
    && KeysAt(after, path[..k]) == KeysAt(n, path[..k]) + (if Get(n, path[..k + 1]).Some? then [] else [path[k]])
  }

  /** What changed is one new node, and the mappings on the way to it. */
  ghost predicate Added(n: Node, after: Node, path: Path, node: Node)
    requires path != []
  {
    && UniqueKeys(after)
    && Get(after, path) == Some(node)
    && (forall q :: Apart(path, q) ==> Get(after, q) == Get(n, q))
    && (forall k :: 0 <= k < |path| ==> OnTheWay(n, after, path, k))
  }

  lemma SetAdds(n: Node, path: Path, value: string)
    requires path != [] && UniqueKeys(n) && SetAt(n, path, Str(value)).Some?
    ensures Added(n, SetAt(n, path, Str(value)).value, path, Str(value))
  {
    hide UniqueKeys, Get, SetAt, KeysAt, Apart;
    var leaf := Str(value);
    SetUnique(n, path, leaf);
    SetGet(n, path, leaf);
    var after := SetAt(n, path, leaf).value;
    forall q | Apart(path, q) ensures Get(after, q) == Get(n, q) { SetOther(n, path, leaf, q); }
    forall k | 0 <= k < |path| ensures OnTheWay(n, after, path, k) { SetKeys(n, path, leaf, k); }
  }

  lemma PrefixBelow(p: Path, key: string, q: Path)
    ensures p + [key] <= q ==> p <= q
    ensures q <= p + [key] ==> q <= p || p <= q
  {
    if p + [key] <= q { assert q[..|p|] == (p + [key])[..|p|]; }
    if q <= p + [key] && |q| <= |p| { assert q == (p + [key])[..|q|] == p[..|q|]; }
  }

  lemma ApartBelow(p: Path, key: string, q: Path)
    requires Apart(p, q)
    ensures Apart(p + [key], q)
  {
    PrefixBelow(p, key, q);
  }

  /** Going one element further: the key must be there. */
  lemma {:induction false} GetStep(n: Node, q: Path, key: string)
    ensures Get(n, q + [key]) == match Get(n, q) case None => None case Some(m) => Find(m, key)
    ensures Get(n, q + [key]).Some? <==> key in KeysAt(n, q)
    decreases |q|
  {
    hide Keys, Find;
    if q == [] {
      KeysFind(n, key);
      assert (q + [key])[1..] == [];
      var found := Find(n, key);
      assert found.Some? ==> Get(found.value, []) == found;
    } else {
      assert (q + [key])[0] == q[0] && (q + [key])[1..] == q[1..] + [key];
      var found := Find(n, q[0]);
      if found.Some? { GetStep(found.value, q[1..], key); }
    }
  }

  /** Nothing stands in the way of a new window: sections on the way are mappings, and it is not there yet. */
  ghost predicate Open(n: Node, path: Path) {
    Get(n, path) == None && forall k :: 0 <= k < |path| ==> Get(n, path[..k]).None? || Get(n, path[..k]).value.Mapping?
  }

  lemma OpenSets(n: Node, path: Path, leaf: Node)
    requires path != [] && Open(n, path)
    ensures SetAt(n, path, leaf).Some?
  {
    SetFails(n, path, leaf);
  }

  lemma OpenBelow(n: Node, path: Path, key: string)
    requires path != [] && Open(n, path)
    ensures Open(n, path + [key])
  {
    GetStep(n, path, key);
    forall k | 0 <= k < |path + [key]| ensures Get(n, (path + [key])[..k]).None? || Get(n, (path + [key])[..k]).value.Mapping? {
      if k < |path| { assert (path + [key])[..k] == path[..k]; } else { assert (path + [key])[..k] == path; }
    }
  }

  lemma ShapeOf(n: Node, q: Path, root: string, path: string)
    requires KeysAt(n, q) == ["root", "path"] && Get(n, q + ["root"]) == Some(Str(root)) && Get(n, q + ["path"]) == Some(Str(path))
    ensures Get(n, q).Some? && IsPlaced(Get(n, q).value, root, path)
  {
    GetStep(n, q, "root");
    GetStep(n, q, "path");
  }

  /** Writing `root` and then `path` below a new window adds one node with just these two. */
  lemma PlacedAdds(n: Node, at: Path, root: string, path: string)
    requires at != [] && UniqueKeys(n) && Open(n, at)
    ensures SetAt(n, at + ["root"], Str(root)).Some?
    ensures var n1 := SetAt(n, at + ["root"], Str(root)).value;
            && SetAt(n1, at + ["path"], Str(path)).Some?
            && var n2 := SetAt(n1, at + ["path"], Str(path)).value;
            && Get(n2, at).Some? && IsPlaced(Get(n2, at).value, root, path) && Added(n, n2, at, Get(n2, at).value)
  {
    hide UniqueKeys, Get, SetAt, KeysAt, Apart, IsPlaced;
    OpenBelow(n, at, "root");
    OpenSets(n, at + ["root"], Str(root));
    SetAdds(n, at + ["root"], root);
    var n1 := SetAt(n, at + ["root"], Str(root)).value;
    AfterRoot(n, n1, at, root);
    OpenSecond(n, n1, at);
    OpenSets(n1, at + ["path"], Str(path));
    SetAdds(n1, at + ["path"], path);
    AfterPath(n, n1, SetAt(n1, at + ["path"], Str(path)).value, at, root, path);
  }

  lemma PrefixOf(at: Path, key: string, k: nat)
    requires k <= |at|
    ensures (at + [key])[..k] == at[..k]
  {
  }

  lemma WayShort(n: Node, after: Node, at: Path, key: string, k: nat)
    requires k < |at|
    ensures OnTheWay(n, after, at + [key], k) <==> OnTheWay(n, after, at, k)
  {
    hide Get, KeysAt;
    PrefixOf(at, key, k);
    PrefixOf(at, key, k + 1);
    assert (at + [key])[k] == at[k];
  }

  /** The mapping at the end of the way itself. */
  lemma WayEnd(n: Node, after: Node, at: Path, key: string)
    requires OnTheWay(n, after, at + [key], |at|)
    ensures Get(after, at).Some? && Get(after, at).value.Mapping?
    ensures KeysAt(after, at) == KeysAt(n, at) + (if Get(n, at + [key]).Some? then [] else [key])
  {
    hide Get, KeysAt;
    var p := at + [key];
    assert p[..|at|] == at && p[|at|] == key && p[..|at| + 1] == p;
  }

  lemma AfterRoot(n: Node, n1: Node, at: Path, root: string)
    requires at != [] && Get(n, at) == None && Added(n, n1, at + ["root"], Str(root))
    ensures KeysAt(n1, at) == ["root"] && Get(n1, at).Some? && Get(n1, at).value.Mapping?
    ensures forall k :: 0 <= k < |at| ==> OnTheWay(n, n1, at, k)
  {
    hide UniqueKeys, Apart, OnTheWay;
    var p := at + ["root"];
    assert OnTheWay(n, n1, p, |at|);
    WayEnd(n, n1, at, "root");
    GetStep(n, at, "root");
    forall k | 0 <= k < |at| ensures OnTheWay(n, n1, at, k) {
      assert OnTheWay(n, n1, p, k);
      WayShort(n, n1, at, "root", k);
    }
  }

  lemma OpenSecond(n: Node, n1: Node, at: Path)
    requires at != [] && KeysAt(n1, at) == ["root"] && Get(n1, at).Some? && Get(n1, at).value.Mapping?
    requires forall k :: 0 <= k < |at| ==> OnTheWay(n, n1, at, k)
    ensures Open(n1, at + ["path"])
  {
    hide Get, KeysAt;
    GetStep(n1, at, "path");
    assert "path" !in ["root"];
    forall k | 0 <= k < |at + ["path"]| ensures Get(n1, (at + ["path"])[..k]).None? || Get(n1, (at + ["path"])[..k]).value.Mapping? {
      PrefixOf(at, "path", k);
      if k == |at| { assert at[..k] == at; } else { assert OnTheWay(n, n1, at, k); }
    }
  }

  lemma AfterPath(n: Node, n1: Node, n2: Node, at: Path, root: string, path: string)
    requires at != [] && Get(n, at) == None && Added(n, n1, at + ["root"], Str(root)) && Added(n1, n2, at + ["path"], Str(path))
    ensures Get(n2, at).Some? && IsPlaced(Get(n2, at).value, root, path) && Added(n, n2, at, Get(n2, at).value)
  {
    hide UniqueKeys, Get, KeysAt, IsPlaced, Apart, OnTheWay;
    AfterRoot(n, n1, at, root);
    var p := at + ["path"];
    assert OnTheWay(n1, n2, p, |at|);
    WayEnd(n1, n2, at, "path");
    GetStep(n1, at, "path");
    assert "path" !in ["root"];
    RootApartPath(at);
    assert KeysAt(n2, at) == ["root"] + ["path"];
    ShapeOf(n2, at, root, path);
    forall q | Apart(at, q) ensures Get(n2, q) == Get(n, q) {
      ApartBelow(at, "root", q);
      ApartBelow(at, "path", q);
    }
    forall k | 0 <= k < |at| ensures OnTheWay(n, n2, at, k) {
      assert OnTheWay(n1, n2, p, k) && OnTheWay(n, n1, at, k);
      WayShort(n1, n2, at, "path", k);
      NextThere(n, n1, at, k, root);
      WayTwice(n, n1, n2, at, k);
    }
  }

  lemma RootApartPath(at: Path)
    ensures Apart(at + ["path"], at + ["root"])
  {
    assert (at + ["path"])[|at|] != (at + ["root"])[|at|];
  }

  /** After the first write the next mapping on the way is there. */
  lemma NextThere(n: Node, n1: Node, at: Path, k: nat, root: string)
    requires k < |at| && Added(n, n1, at + ["root"], Str(root)) && Get(n1, at).Some?
    ensures Get(n1, at[..k + 1]).Some?
  {
    hide Get, KeysAt, UniqueKeys, Apart;
    if k + 1 == |at| {
      assert at[..k + 1] == at;
    } else {
      assert OnTheWay(n, n1, at + ["root"], k + 1);
      PrefixOf(at, "root", k + 1);
    }
  }

  lemma WayTwice(n: Node, n1: Node, n2: Node, at: Path, k: nat)
    requires k < |at| && OnTheWay(n, n1, at, k) && OnTheWay(n1, n2, at, k) && Get(n1, at[..k + 1]).Some?
    ensures OnTheWay(n, n2, at, k)
  {
  }

  // ---- what a partly imported document holds -------------------------------------------------

  /** The names of the windows with a directory. */
  function Named(ws: seq<LiveWindow>): seq<string> {
    if ws == [] then [] else Named(ws[..|ws| - 1]) + (if ws[|ws| - 1].dir == "" then [] else [ws[|ws| - 1].name])
  }

  /** The sessions that have such a window. */
  function Tracked(live: seq<LiveSession>): seq<string> {
    if live == [] then [] else Tracked(live[..|live| - 1]) + (if Named(live[|live| - 1].windows) == [] then [] else [live[|live| - 1].name])
  }

  /** The node leads to the directory: by itself, or as a path below a root. */
  ghost predicate Places(n: Node, roots: map<string, string>, dir: string) {
    || (n == Str(dir) && R.IsAbs(dir))
    || exists root, path :: IsPlaced(n, root, path) && root != "" && path != "" && root in roots && R.JoinClean(roots[root], path) == dir
  }

  predicate AtMapping(n: Node, path: Path) {
    var found := Get(n, path);
    found.None? || found.value.Mapping?
  }

  ghost predicate RootsHold(n: Node, roots: map<string, string>) {
    && AtMapping(n, ["roots"])
    && (forall k :: k in KeysAt(n, ["roots"]) <==> k in roots)
    && forall k :: k in roots ==> Get(n, ["roots", k]) == Some(Str(roots[k]))
  }

  ghost predicate WindowHolds(n: Node, roots: map<string, string>, session: string, w: LiveWindow) {
    w.dir != "" ==> Get(n, WindowPath(session, w.name)).Some? && Places(Get(n, WindowPath(session, w.name)).value, roots, w.dir)
  }

  ghost predicate SessionHolds(n: Node, roots: map<string, string>, s: LiveSession) {
    Named(s.windows) != [] ==>
      && KeysAt(n, ["sessions", s.name]) == ["windows"]
      && KeysAt(n, ["sessions", s.name, "windows"]) == Named(s.windows)
      && forall i :: 0 <= i < |s.windows| ==> WindowHolds(n, roots, s.name, s.windows[i])
  }

  ghost predicate Holds(n: Node, roots: map<string, string>, live: seq<LiveSession>) {
    && n.Mapping? && UniqueKeys(n)
    && RootsHold(n, roots)
    && AtMapping(n, ["sessions"]) && KeysAt(n, ["sessions"]) == Tracked(live)
    && forall i :: 0 <= i < |live| ==> SessionHolds(n, roots, live[i])
  }

  predicate DistinctSessions(live: seq<LiveSession>) {
    forall i, j :: 0 <= i < j < |live| ==> live[i].name != live[j].name
  }

  predicate DistinctWindows(ws: seq<LiveWindow>) {
    forall i, j :: 0 <= i < j < |ws| ==> ws[i].name != ws[j].name
  }

  lemma {:induction false} NamedIn(ws: seq<LiveWindow>, name: string)
    ensures name in Named(ws) ==> exists i :: 0 <= i < |ws| && ws[i].name == name
    ensures Named(ws) == [] ==> forall i :: 0 <= i < |ws| ==> ws[i].dir == ""
  {
    if ws != [] {
      var t := ws[..|ws| - 1];
      NamedIn(t, name);
      if name in Named(t) {
        var i :| 0 <= i < |t| && t[i].name == name;
        assert ws[i] == t[i];
      }
      assert Named(ws) == [] ==> forall i :: 0 <= i < |t| ==> ws[i] == t[i];
    }
  }

  lemma {:induction false} TrackedIn(live: seq<LiveSession>, name: string)
    ensures name in Tracked(live) ==> exists i :: 0 <= i < |live| && live[i].name == name
  {
    if live != [] {
      var t := live[..|live| - 1];
      TrackedIn(t, name);
      if name in Tracked(t) {
        var i :| 0 <= i < |t| && t[i].name == name;
        assert live[i] == t[i];
      }
    }
  }

  lemma TrackedLast(pre: seq<LiveSession>, s: LiveSession)
    ensures Tracked(pre + [s]) == Tracked(pre) + (if Named(s.windows) == [] then [] else [s.name])
  {
    assert (pre + [s])[..|pre|] == pre;
  }

  lemma NamedLast(ws: seq<LiveWindow>, w: LiveWindow)
    ensures Named(ws + [w]) == Named(ws) + (if w.dir == "" then [] else [w.name])
  {
    assert (ws + [w])[..|ws|] == ws;
  }

  /** The way to a new window is open. */
  lemma WindowOpen(n: Node, roots: map<string, string>, pre: seq<LiveSession>, s: LiveSession, w: LiveWindow)
    requires Holds(n, roots, pre + [s]) && DistinctSessions(pre + [s]) && DistinctWindows(s.windows + [w])
    ensures Open(n, WindowPath(s.name, w.name))
    ensures Get(n, ["sessions", s.name]).Some? <==> Named(s.windows) != []
    ensures Get(n, ["sessions", s.name, "windows"]).Some? <==> Named(s.windows) != []
  {
    hide UniqueKeys, Get, KeysAt, RootsHold, SessionHolds, Places;
    var p := WindowPath(s.name, w.name);
    TrackedLast(pre, s);
    SessionNew(pre, s);
    PathSteps(n, s.name, w.name);
    assert (pre + [s])[|pre|] == s;
    SessionKeys(n, roots, s);
    NamedIn(s.windows, w.name);
    WindowNew(s.windows, w);
    assert p[..0] == [] && p[..1] == ["sessions"] && p[..2] == ["sessions", s.name] && p[..3] == ["sessions", s.name, "windows"];
    AllTheWay(n, p, s.name);
  }

  lemma SessionNew(pre: seq<LiveSession>, s: LiveSession)
    requires DistinctSessions(pre + [s])
    ensures s.name !in Tracked(pre)
  {
    TrackedIn(pre, s.name);
    forall i | 0 <= i < |pre| ensures pre[i].name != s.name { assert (pre + [s])[i] == pre[i] && (pre + [s])[|pre|] == s; }
  }

  lemma WindowNew(ws: seq<LiveWindow>, w: LiveWindow)
    requires DistinctWindows(ws + [w])
    ensures w.name !in Named(ws)
  {
    NamedIn(ws, w.name);
    forall i | 0 <= i < |ws| ensures ws[i].name != w.name { assert (ws + [w])[i] == ws[i] && (ws + [w])[|ws|] == w; }
  }

  lemma SessionKeys(n: Node, roots: map<string, string>, s: LiveSession)
    requires SessionHolds(n, roots, s)
    ensures Named(s.windows) != [] ==>
              KeysAt(n, ["sessions", s.name]) == ["windows"] && KeysAt(n, ["sessions", s.name, "windows"]) == Named(s.windows)
  {
  }

  /** Presence of the nodes on the way, by the keys of the ones before. */
  lemma PathSteps(n: Node, s: string, w: string)
    ensures Get(n, ["sessions", s]).Some? <==> s in KeysAt(n, ["sessions"])
    ensures Get(n, ["sessions", s, "windows"]).Some? <==> "windows" in KeysAt(n, ["sessions", s])
    ensures Get(n, WindowPath(s, w)).Some? <==> w in KeysAt(n, ["sessions", s, "windows"])
    ensures Get(n, ["sessions", s]).None? ==> KeysAt(n, ["sessions", s]) == []
    ensures Get(n, ["sessions", s, "windows"]).None? ==> KeysAt(n, ["sessions", s, "windows"]) == []
  {
    hide Get;
    GetStep(n, ["sessions"], s);
    GetStep(n, ["sessions", s], "windows");
    GetStep(n, ["sessions", s, "windows"], w);
    assert ["sessions"] + [s] == ["sessions", s] && ["sessions", s] + ["windows"] == ["sessions", s, "windows"];
    assert ["sessions", s, "windows"] + [w] == WindowPath(s, w);
  }

  lemma KeysMapping(n: Node, path: Path)
    requires KeysAt(n, path) != []
    ensures Get(n, path).Some? && Get(n, path).value.Mapping?
  {
  }

  lemma AllTheWay(n: Node, p: Path, s: string)
    requires |p| == 4 && n.Mapping? && AtMapping(n, ["sessions"])
    requires p[..1] == ["sessions"] && p[..2] == ["sessions", s] && p[..3] == ["sessions", s, "windows"]
    requires Get(n, p) == None
    requires Get(n, ["sessions", s]).Some? ==> KeysAt(n, ["sessions", s]) != []
    requires Get(n, ["sessions", s, "windows"]).Some? ==> KeysAt(n, ["sessions", s, "windows"]) != []
    ensures Open(n, p)
  {
    hide Get, KeysAt;
    if Get(n, ["sessions", s]).Some? { KeysMapping(n, ["sessions", s]); }
    if Get(n, ["sessions", s, "windows"]).Some? { KeysMapping(n, ["sessions", s, "windows"]); }
    TopMapping(n);
    assert p[..0] == [];
    forall k | 0 <= k < |p| ensures Get(n, p[..k]).None? || Get(n, p[..k]).value.Mapping? {
      assert k == 0 || k == 1 || k == 2 || k == 3;
    }
  }

  lemma TopMapping(n: Node)
    ensures Get(n, []) == Some(n)
  {
  }

  // ---- one more window ------------------------------------------------------------------------

  lemma SectionApart(s: string, w: string, q: Path)
    requires q != [] && q[0] != "sessions"
    ensures Apart(WindowPath(s, w), q)
  {
  }

  lemma OtherApart(s: string, w: string, other: string, rest: Path)
    requires other != s
    ensures Apart(WindowPath(s, w), ["sessions", other] + rest)
  {
    assert (["sessions", other] + rest)[1] == other && WindowPath(s, w)[1] == s;
  }

  lemma SiblingApart(s: string, w: string, other: string)
    requires other != w
    ensures Apart(WindowPath(s, w), WindowPath(s, other))
  {
    assert WindowPath(s, w)[3] == w && WindowPath(s, other)[3] == other;
  }

  lemma RootsStay(n: Node, after: Node, roots: map<string, string>, s: string, w: string, node: Node)
    requires RootsHold(n, roots) && Added(n, after, WindowPath(s, w), node)
    ensures RootsHold(after, roots)
  {
    hide Get, UniqueKeys, Apart, OnTheWay;
    SectionApart(s, w, ["roots"]);
    assert Get(after, ["roots"]) == Get(n, ["roots"]);
    forall k | k in roots ensures Get(after, ["roots", k]) == Some(Str(roots[k])) { SectionApart(s, w, ["roots", k]); }
  }

  lemma OtherStays(n: Node, after: Node, roots: map<string, string>, s: string, w: string, node: Node, t: LiveSession)
    requires SessionHolds(n, roots, t) && t.name != s && Added(n, after, WindowPath(s, w), node)
    ensures SessionHolds(after, roots, t)
  {
    hide Get, UniqueKeys, Apart, OnTheWay, Places;
    OtherApart(s, w, t.name, []);
    OtherApart(s, w, t.name, ["windows"]);
    assert ["sessions", t.name] + [] == ["sessions", t.name] && ["sessions", t.name] + ["windows"] == ["sessions", t.name, "windows"];
    forall i | 0 <= i < |t.windows| && Named(t.windows) != [] ensures WindowHolds(after, roots, t.name, t.windows[i]) {
      assert WindowHolds(n, roots, t.name, t.windows[i]);
      OtherApart(s, w, t.name, ["windows", t.windows[i].name]);
      assert ["sessions", t.name] + ["windows", t.windows[i].name] == WindowPath(t.name, t.windows[i].name);
    }
  }

  lemma WayKeys(n: Node, after: Node, s: string, w: string, node: Node)
    requires Added(n, after, WindowPath(s, w), node)
    ensures AtMapping(after, ["sessions"]) && after.Mapping? && UniqueKeys(after)
    ensures KeysAt(after, ["sessions"]) == KeysAt(n, ["sessions"]) + (if Get(n, ["sessions", s]).Some? then [] else [s])
    ensures KeysAt(after, ["sessions", s]) == KeysAt(n, ["sessions", s]) + (if Get(n, ["sessions", s, "windows"]).Some? then [] else ["windows"])
    ensures KeysAt(after, ["sessions", s, "windows"]) == KeysAt(n, ["sessions", s, "windows"]) + (if Get(n, WindowPath(s, w)).Some? then [] else [w])
  {
    hide Get, KeysAt, UniqueKeys, Apart;
    var p := WindowPath(s, w);
    assert p[..0] == [] && p[..1] == ["sessions"] && p[..2] == ["sessions", s] && p[..3] == ["sessions", s, "windows"] && p[..4] == p;
    TopMapping(after);
    assert OnTheWay(n, after, p, 0) && OnTheWay(n, after, p, 1) && OnTheWay(n, after, p, 2) && OnTheWay(n, after, p, 3);
  }

  lemma WindowsStay(n: Node, after: Node, roots: map<string, string>, s: LiveSession, w: LiveWindow, node: Node)
    requires SessionHolds(n, roots, s) && DistinctWindows(s.windows + [w]) && w.dir != ""
    requires Added(n, after, WindowPath(s.name, w.name), node) && Places(node, roots, w.dir)
    ensures forall i :: 0 <= i < |s.windows + [w]| ==> WindowHolds(after, roots, s.name, (s.windows + [w])[i])
  {
    hide Get, UniqueKeys, Apart, OnTheWay, Places;
    var ws := s.windows + [w];
    NamedIn(s.windows, w.name);
    forall i | 0 <= i < |ws| ensures WindowHolds(after, roots, s.name, ws[i]) {
      if i < |s.windows| {
        assert ws[i] == s.windows[i] && ws[|s.windows|] == w;
        if Named(s.windows) != [] { assert WindowHolds(n, roots, s.name, s.windows[i]); }
        SiblingApart(s.name, w.name, ws[i].name);
      } else {
        assert ws[i] == w;
      }
    }
  }

  /** Adding a window's node is importing one more window of the last session. */
  lemma WindowAdded(n: Node, after: Node, roots: map<string, string>, pre: seq<LiveSession>, s: LiveSession, w: LiveWindow, node: Node)
    requires Holds(n, roots, pre + [s]) && DistinctSessions(pre + [s]) && DistinctWindows(s.windows + [w]) && w.dir != ""
    requires Added(n, after, WindowPath(s.name, w.name), node) && Places(node, roots, w.dir)
    ensures Holds(after, roots, pre + [LiveSession(s.name, s.windows + [w])])
  {
    hide Get, KeysAt, UniqueKeys, Apart, Places, Added, RootsHold, SessionHolds, Named, Tracked, Open;
    var t := LiveSession(s.name, s.windows + [w]);
    assert (pre + [s])[|pre|] == s;
    WindowOpen(n, roots, pre, s, w);
    OpenMeans(n, WindowPath(s.name, w.name));
    RootsStay(n, after, roots, s.name, w.name, node);
    WayKeys(n, after, s.name, w.name, node);
    TrackedLast(pre, s);
    TrackedLast(pre, t);
    NamedLast(s.windows, w);
    PathSteps(n, s.name, w.name);
    SessionKeys(n, roots, s);
    WindowsStay(n, after, roots, s, w, node);
    SessionMade(after, roots, t);
    forall i | 0 <= i < |pre + [t]| ensures SessionHolds(after, roots, (pre + [t])[i]) {
      if i < |pre| {
        assert (pre + [t])[i] == (pre + [s])[i] == pre[i];
        OtherStays(n, after, roots, s.name, w.name, node, pre[i]);
      }
    }
  }

  lemma OpenMeans(n: Node, path: Path)
    requires Open(n, path)
    ensures Get(n, path) == None
  {
  }

  lemma SessionMade(n: Node, roots: map<string, string>, s: LiveSession)
    requires KeysAt(n, ["sessions", s.name]) == ["windows"] && KeysAt(n, ["sessions", s.name, "windows"]) == Named(s.windows)
    requires forall i :: 0 <= i < |s.windows| ==> WindowHolds(n, roots, s.name, s.windows[i])
    ensures SessionHolds(n, roots, s)
  {
  }

  /** A window without a directory adds nothing. */
  lemma WindowSkipped(n: Node, roots: map<string, string>, pre: seq<LiveSession>, s: LiveSession, w: LiveWindow)
    requires Holds(n, roots, pre + [s]) && w.dir == ""
    ensures Holds(n, roots, pre + [LiveSession(s.name, s.windows + [w])])
  {
    hide Get, KeysAt, UniqueKeys, Places, RootsHold, Named, Tracked;
    var t := LiveSession(s.name, s.windows + [w]);
    NamedLast(s.windows, w);
    TrackedLast(pre, s);
    TrackedLast(pre, t);
    assert (pre + [s])[|pre|] == s;
    forall i | 0 <= i < |pre + [t]| ensures SessionHolds(n, roots, (pre + [t])[i]) {
      if i < |pre| { assert (pre + [t])[i] == (pre + [s])[i]; } else { WindowsWith(n, roots, s, w); }
    }
  }

  lemma WindowsWith(n: Node, roots: map<string, string>, s: LiveSession, w: LiveWindow)
    requires SessionHolds(n, roots, s) && w.dir == ""
    ensures SessionHolds(n, roots, LiveSession(s.name, s.windows + [w]))
  {
    hide Get, KeysAt, Places;
    NamedLast(s.windows, w);
  }

  // ---- dotted paths ---------------------------------------------------------------------------------

  predicate Dotless(s: string) { '.' !in s }

  lemma RootPath(name: string)
    requires Dotless(name)
    ensures SplitPath("roots." + name) == ["roots", name]
  {
    var parts := ["roots", name];
    assert parts[1..] == [name];
    assert Join(parts, '.') == "roots." + name;
    SplitJoin(parts, '.');
  }

  function DottedWindow(session: string, window: string): string { "sessions." + session + ".windows." + window }

  lemma WindowPathSplit(session: string, window: string)
    requires Dotless(session) && Dotless(window)
    ensures SplitPath(DottedWindow(session, window)) == WindowPath(session, window)
    ensures SplitPath(DottedWindow(session, window) + ".root") == WindowPath(session, window) + ["root"]
    ensures SplitPath(DottedWindow(session, window) + ".path") == WindowPath(session, window) + ["path"]
  {
    var p := WindowPath(session, window);
    assert p[1..] == [session, "windows", window] && p[1..][1..] == ["windows", window] && p[1..][1..][1..] == [window];
    assert Join([window], '.') == window;
    assert Join(["windows", window], '.') == "windows." + window;
    assert Join([session, "windows", window], '.') == session + ".windows." + window;
    assert Join(p, '.') == DottedWindow(session, window);
    SplitJoin(p, '.');
    Longer(p, "root");
    Longer(p, "path");
    assert DottedWindow(session, window) + ".root" == Join(p, '.') + "." + "root";
    assert DottedWindow(session, window) + ".path" == Join(p, '.') + "." + "path";
  }

  /** A name with a dot in it leads elsewhere: the dotted path reaches the window exactly if both names are free of dots. */
  lemma DotsMatter(session: string, window: string)
    ensures SplitPath(DottedWindow(session, window)) == WindowPath(session, window) <==> Dotless(session) && Dotless(window)
  {
    if Dotless(session) && Dotless(window) { WindowPathSplit(session, window); }
    if SplitPath(DottedWindow(session, window)) == WindowPath(session, window) {
      JoinSplit(DottedWindow(session, window), '.');
      assert WindowPath(session, window)[1] == session && WindowPath(session, window)[3] == window;
    }
  }

  lemma Longer(p: Path, key: string)
    requires p != [] && Dotless(key) && Dotless(Join([key], '.')) && forall x :: x in p ==> Dotless(x)
    ensures Split(Join(p, '.') + "." + key, '.') == p + [key] && Join(p, '.') + "." + key != ""
  {
    JoinDots(p, [key]);
    SplitJoin(p + [key], '.');
  }

  lemma {:induction false} JoinDots(a: seq<string>, b: seq<string>)
    requires a != [] && b != []
    ensures Join(a + b, '.') == Join(a, '.') + "." + Join(b, '.')
  {
    if |a| == 1 {
      assert (a + b)[1..] == b;
    } else {
      JoinDots(a[1..], b);
      assert (a + b)[1..] == a[1..] + b;
    }
  }

  // ---- the import -----------------------------------------------------------------------------------

  /** Names that can stand in a dotted path. */
  predicate Plain(roots: map<string, string>) {
    forall name :: name in roots ==> Dotless(name)
  }

  /** What the import asks of the live tree: distinct names free of dots, clean directories, and forking elements free of dots. */
  predicate Importable(live: seq<LiveSession>) {
    && DistinctSessions(live)
    && (forall i :: 0 <= i < |live| ==> Dotless(live[i].name) && DistinctWindows(live[i].windows))
    && (forall i, k :: 0 <= i < |live| && 0 <= k < |live[i].windows| ==>
          Dotless(live[i].windows[k].name) && (live[i].windows[k].dir != "" ==> CleanDir(live[i].windows[k].dir)))
    && Plain(RootsOf(Paths(live)))
  }

  ghost predicate RootsSoFar(n: Node, roots: map<string, string>, done: set<string>) {
    && n.Mapping? && UniqueKeys(n) && AtMapping(n, ["roots"]) && Get(n, ["sessions"]) == None
    && done <= roots.Keys
    && (forall k :: k in KeysAt(n, ["roots"]) <==> k in done)
    && forall k :: k in done ==> Get(n, ["roots", k]) == Some(Str(roots[k]))
  }

  lemma RootAdded(n: Node, roots: map<string, string>, done: set<string>, name: string)
    requires RootsSoFar(n, roots, done) && name in roots && name !in done
    ensures SetAt(n, ["roots", name], Str(roots[name])).Some?
    ensures RootsSoFar(SetAt(n, ["roots", name], Str(roots[name])).value, roots, done + {name})
  {
    hide UniqueKeys, Get, SetAt, KeysAt, Apart;
    var p := ["roots", name];
    assert p[..0] == [] && p[..1] == ["roots"] && p[..2] == p;
    TopMapping(n);
    GetStep(n, ["roots"], name);
    assert ["roots"] + [name] == p;
    forall k | 0 <= k < |p| ensures Get(n, p[..k]).None? || Get(n, p[..k]).value.Mapping? { assert k == 0 || k == 1; }
    OpenSets(n, p, Str(roots[name]));
    SetAdds(n, p, roots[name]);
    var after := SetAt(n, p, Str(roots[name])).value;
    TopMapping(after);
    assert OnTheWay(n, after, p, 0) && OnTheWay(n, after, p, 1);
    RootsApart(name, "sessions");
    forall k | k in done ensures Get(after, ["roots", k]) == Some(Str(roots[k])) { RootApart(name, k); }
  }

  lemma RootsApart(name: string, section: string)
    requires section != "roots"
    ensures Apart(["roots", name], [section])
  {
    assert ["roots", name][0] != [section][0];
  }

  lemma RootApart(name: string, other: string)
    requires other != name
    ensures Apart(["roots", name], ["roots", other])
  {
    assert ["roots", name][1] != ["roots", other][1];
  }

  lemma RootsDone(n: Node, roots: map<string, string>)
    requires RootsSoFar(n, roots, roots.Keys)
    ensures Holds(n, roots, [])
  {
    hide UniqueKeys;
  }

  lemma RootWritten(d: Document, roots: map<string, string>, done: set<string>, name: string)
    requires Plain(roots) && RootsSoFar(Root(d), roots, done) && name in roots && name !in done
    ensures PathSet(d, "roots." + name, roots[name]).Some?
    ensures RootsSoFar(Root(PathSet(d, "roots." + name, roots[name]).value), roots, done + {name})
  {
    hide RootsSoFar, SetAt, Split;
    RootPath(name);
    RootAdded(Root(d), roots, done, name);
  }

  /** Writes the roots in whatever order they come. */
  method WriteRoots(roots: map<string, string>) returns (doc: Option<Document>)
    ensures Plain(roots) ==> doc.Some? && Holds(Root(doc.value), roots, [])
  {
    hide RootsSoFar, PathSet, Holds, Plain;
    var d: Document := None;
    EmptyRoots(roots);
    ghost var done: set<string> := {};
    var left := roots.Keys;
    while left != {}
      invariant left <= roots.Keys && done == roots.Keys - left
      invariant Plain(roots) ==> RootsSoFar(Root(d), roots, done)
      decreases |left|
    {
      var name :| name in left;
      left := left - {name};
      var next := PathSet(d, "roots." + name, roots[name]);
      if Plain(roots) { RootWritten(d, roots, done, name); }
      if next.None? { return None; }
      d := next.value;
      done := done + {name};
    }
    if Plain(roots) { RootsDone(Root(d), roots); }
    return Some(d);
  }

  lemma EmptyRoots(roots: map<string, string>)
    ensures RootsSoFar(NO_KEYS, roots, {})
  {
  }

  datatype Report = Report(created: seq<string>, skipped: seq<string>)

  /** The window is new to the document, nameable in a path, and matched only to roots that lead back to its directory. */
  ghost predicate Fits(d: Document, roots: map<string, string>, session: string, w: LiveWindow) {
    && Dotless(session) && Dotless(w.name) && UniqueKeys(Root(d)) && Open(Root(d), WindowPath(session, w.name)) && R.IsAbs(w.dir)
    && forall name, rel :: Matched(roots, w.dir, name, rel) ==> name == "" || (name in roots && R.JoinClean(roots[name], rel) == w.dir && rel != "")
  }

  /** Writes one window: below a root where one matches, else by its directory. */
  method WriteWindow(d: Document, roots: map<string, string>, session: string, w: LiveWindow) returns (r: Option<Document>)
    requires w.dir != ""
    ensures Fits(d, roots, session, w) ==> r.Some? && exists node :: Added(Root(d), Root(r.value), WindowPath(session, w.name), node) && Places(node, roots, w.dir)
  {
    hide UniqueKeys, Get, SetAt, KeysAt, Split, Open, Added, IsPlaced, Matched;
    var name, rel := MatchRoot(roots, w.dir);
    var base := DottedWindow(session, w.name);
    ghost var fits := Fits(d, roots, session, w);
    ghost var p := WindowPath(session, w.name);
    if fits { WindowPathSplit(session, w.name); }
    if name != "" {
      var d1 := PathSet(d, base + ".root", name);
      if fits { PlacedAdds(Root(d), p, name, rel); }
      if d1.None? { return None; }
      r := PathSet(d1.value, base + ".path", rel);
      if fits {
        ghost var node := Get(Root(r.value), p).value;
        assert IsPlaced(node, name, rel);
        assert Added(Root(d), Root(r.value), p, node) && Places(node, roots, w.dir);
      }
      return;
    }
    r := PathSet(d, base, w.dir);
    if fits {
      OpenSets(Root(d), p, Str(w.dir));
      SetAdds(Root(d), p, w.dir);
      assert Added(Root(d), Root(r.value), p, Str(w.dir)) && Places(Str(w.dir), roots, w.dir);
    }
  }

  /** Imports every live session; where the live tree is importable the document holds exactly its windows. */
  method Bootstrap(live: seq<LiveSession>) returns (doc: Option<Document>, report: Report)
    ensures Importable(live) ==> doc.Some? && Holds(Root(doc.value), RootsOf(Paths(live)), live)
  {
    hide UniqueKeys, Open, Added, Matched, Paths, RootsOf, Places, CleanDir, Holds;
    var paths := Paths(live);
    var roots := InferRoots(paths);
    report := Report([], []);
    doc := WriteRoots(roots);
    if doc.None? { return; }
    for i := 0 to |live|
      invariant doc.Some? && (Importable(live) ==> Holds(Root(doc.value), roots, live[..i]))
    {
      var s := live[i];
      if Importable(live) { SessionStarts(Root(doc.value), roots, live[..i], s.name); }
      for k := 0 to |s.windows|
        invariant doc.Some? && (Importable(live) ==> Holds(Root(doc.value), roots, live[..i] + [LiveSession(s.name, s.windows[..k])]))
      {
        var w := s.windows[k];
        var entry := s.name + "/" + w.name;
        assert s.windows[..k + 1] == s.windows[..k] + [w];
        if w.dir == "" {
          report := report.(skipped := report.skipped + [entry]);
          if Importable(live) { WindowSkipped(Root(doc.value), roots, live[..i], LiveSession(s.name, s.windows[..k]), w); }
        } else {
          report := report.(created := report.created + [entry]);
          var next := WriteWindow(doc.value, roots, s.name, w);
          if Importable(live) { NextWindow(live, i, k, roots, doc.value, next); }
          doc := next;
          if doc.None? { return; }
        }
      }
      assert s.windows[..|s.windows|] == s.windows;
      assert live[..i + 1] == live[..i] + [LiveSession(s.name, s.windows)];
    }
    assert live[..|live|] == live;
  }

  lemma SessionStarts(n: Node, roots: map<string, string>, pre: seq<LiveSession>, name: string)
    requires Holds(n, roots, pre)
    ensures Holds(n, roots, pre + [LiveSession(name, [])])
  {
    hide UniqueKeys, Get, KeysAt, RootsHold;
    var s := LiveSession(name, []);
    TrackedLast(pre, s);
    forall i | 0 <= i < |pre + [s]| ensures SessionHolds(n, roots, (pre + [s])[i]) {
      if i < |pre| { assert (pre + [s])[i] == pre[i]; }
    }
  }

  lemma {:induction false} WindowPathsIn(ws: seq<LiveWindow>, k: nat)
    requires k < |ws| && R.IsAbs(ws[k].dir)
    ensures ws[k].dir in WindowPaths(ws)
  {
    if k > 0 { WindowPathsIn(ws[1..], k - 1); }
  }

  lemma {:induction false} PathsIn(live: seq<LiveSession>, i: nat, k: nat)
    requires i < |live| && k < |live[i].windows| && R.IsAbs(live[i].windows[k].dir)
    ensures live[i].windows[k].dir in Paths(live)
  {
    if i > 0 { PathsIn(live[1..], i - 1, k); } else { WindowPathsIn(live[0].windows, k); }
  }

  lemma {:induction false} WindowPathsFrom(ws: seq<LiveWindow>)
    requires forall k :: 0 <= k < |ws| ==> ws[k].dir != "" ==> CleanDir(ws[k].dir)
    ensures forall p :: p in WindowPaths(ws) ==> CleanDir(p)
  {
    hide CleanDir;
    if ws != [] { WindowPathsFrom(ws[1..]); }
  }

  lemma {:induction false} PathsFrom(live: seq<LiveSession>)
    requires forall i, k :: 0 <= i < |live| && 0 <= k < |live[i].windows| ==> live[i].windows[k].dir != "" ==> CleanDir(live[i].windows[k].dir)
    ensures forall p :: p in Paths(live) ==> CleanDir(p)
  {
    hide CleanDir;
    if live != [] {
      WindowPathsFrom(live[0].windows);
      assert forall i :: 0 <= i < |live[1..]| ==> live[1..][i] == live[i + 1];
      PathsFrom(live[1..]);
    }
  }

  /** The match found for a live directory leads back to it. */
  lemma LiveMatch(live: seq<LiveSession>, i: nat, k: nat)
    requires Importable(live) && i < |live| && k < |live[i].windows| && live[i].windows[k].dir != ""
    ensures R.IsAbs(live[i].windows[k].dir)
    ensures forall name, rel :: Matched(RootsOf(Paths(live)), live[i].windows[k].dir, name, rel) ==>
              name == "" || (name in RootsOf(Paths(live)) && R.JoinClean(RootsOf(Paths(live))[name], rel) == live[i].windows[k].dir && rel != "")
  {
    hide Matched, RootsOf, Paths;
    var dir, paths := live[i].windows[k].dir, Paths(live);
    PathsFrom(live);
    PathsIn(live, i, k);
    var j :| 0 <= j < |paths| && paths[j] == dir;
    forall name, rel | Matched(RootsOf(paths), dir, name, rel)
      ensures name == "" || (name in RootsOf(paths) && R.JoinClean(RootsOf(paths)[name], rel) == dir && rel != "")
    {
      MatchExact(paths, j, name, rel);
    }
  }

  lemma NextWindow(live: seq<LiveSession>, i: nat, k: nat, roots: map<string, string>, d: Document, next: Option<Document>)
    requires Importable(live) && i < |live| && k < |live[i].windows| && live[i].windows[k].dir != "" && roots == RootsOf(Paths(live))
    requires Holds(Root(d), roots, live[..i] + [LiveSession(live[i].name, live[i].windows[..k])])
    requires var w := live[i].windows[k];
             Fits(d, roots, live[i].name, w) ==>
               next.Some? && exists node :: Added(Root(d), Root(next.value), WindowPath(live[i].name, w.name), node) && Places(node, roots, w.dir)
    ensures next.Some? && Holds(Root(next.value), roots, live[..i] + [LiveSession(live[i].name, live[i].windows[..k + 1])])
  {
    hide Open, Added, Matched, Paths, RootsOf, Places, CleanDir, UniqueKeys;
    var s, w := LiveSession(live[i].name, live[i].windows[..k]), live[i].windows[k];
    var pre := live[..i];
    assert s.windows + [w] == live[i].windows[..k + 1];
    forall a, b | 0 <= a < b < |pre + [s]| ensures (pre + [s])[a].name != (pre + [s])[b].name {
      assert (pre + [s])[a].name == live[a].name && (pre + [s])[b].name == live[b].name;
    }
    WindowOpen(Root(d), roots, pre, s, w);
    LiveMatch(live, i, k);
    assert Fits(d, roots, s.name, w);
    var node :| Added(Root(d), Root(next.value), WindowPath(s.name, w.name), node) && Places(node, roots, w.dir);
    WindowAdded(Root(d), Root(next.value), roots, pre, s, w, node);
  }
}
