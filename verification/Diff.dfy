/**
 * Reading the configuration document back, comparing the resolved view with the live tree, and the
 * claim that a fresh import shows no drift. (internal/config/diff.go, internal/config/types.go, internal/actions/sync.go)
 */
module Diff {
  import opened Text
  import opened Sorting
  import opened Yaml
  import opened Roots
  import opened Import
  import R = Resolver

  // ---- reading the document ------------------------------------------------------------------

  /** A string field; empty if it is absent. */
  function Field(n: Node, key: string): Option<string> {
    match Find(n, key)
    case None => Some("")
    case Some(Scalar(_, value)) => Some(value)
    case Some(_) => None
  }

  function LoadPane(n: Node): Option<R.Pane> {
    var dir, root, path, command := Field(n, "dir"), Field(n, "root"), Field(n, "path"), Field(n, "command");
    if n.Mapping? && dir.Some? && root.Some? && path.Some? && command.Some? then Some(R.Pane(dir.value, root.value, path.value, command.value))
    else None
  }

  function LoadPanes(items: seq<Node>): Option<seq<R.Pane>> {
    if items == [] then Some([])
    else
      var p, rest := LoadPane(items[0]), LoadPanes(items[1..]);
      if p.Some? && rest.Some? then Some([p.value] + rest.value) else None
  }

  /** The short form of a window is its directory. */
  function LoadWindow(n: Node): Option<R.Window> {
    match n
    case Scalar(_, value) => Some(R.Window(value, "", "", "", "", "", []))
    case Sequence(_) => None
    case Mapping(_) =>
      var dir, root, path := Field(n, "dir"), Field(n, "root"), Field(n, "path");
      var layout, command, extends_ := Field(n, "layout"), Field(n, "command"), Field(n, "extends");
      var panes := match Find(n, "panes") case None => Some([]) case Some(Sequence(items)) => LoadPanes(items) case Some(_) => None;
      if dir.Some? && root.Some? && path.Some? && layout.Some? && command.Some? && extends_.Some? && panes.Some? then
        Some(R.Window(dir.value, root.value, path.value, layout.value, command.value, extends_.value, panes.value))
      else None
  }

  function LoadWindows(pairs: seq<(string, Node)>): Option<seq<(string, R.Window)>> {
    if pairs == [] then Some([])
    else
      var w, rest := LoadWindow(pairs[0].1), LoadWindows(pairs[1..]);
      if w.Some? && rest.Some? then Some([(pairs[0].0, w.value)] + rest.value) else None
  }

  function LoadSession(n: Node): Option<R.Session> {
    var root, path := Field(n, "root"), Field(n, "path");
    var windows := match Find(n, "windows") case None => Some([]) case Some(Mapping(pairs)) => LoadWindows(pairs) case Some(_) => None;
    if n.Mapping? && root.Some? && path.Some? && windows.Some? then Some(R.Session(root.value, path.value, windows.value)) else None
  }

  function LoadSessions(pairs: seq<(string, Node)>): Option<map<string, R.Session>> {
    if pairs == [] then Some(map[])
    else
      var s, rest := LoadSession(pairs[0].1), LoadSessions(pairs[1..]);
      if s.Some? && rest.Some? then Some(rest.value[pairs[0].0 := s.value]) else None
  }

  function LoadRoots(pairs: seq<(string, Node)>): Option<map<string, string>> {
    if pairs == [] then Some(map[])
    else
      var rest := LoadRoots(pairs[1..]);
      if pairs[0].1.Scalar? && rest.Some? then Some(rest.value[pairs[0].0 := pairs[0].1.value]) else None
  }

  /** The roots and sessions of a document; the other sections are as when they are absent. */
  function Load(n: Node): Option<R.Config> {
    var roots := match Find(n, "roots") case None => Some(map[]) case Some(Mapping(pairs)) => LoadRoots(pairs) case Some(_) => None;
    var sessions := match Find(n, "sessions") case None => Some(map[]) case Some(Mapping(pairs)) => LoadSessions(pairs) case Some(_) => None;
    if n.Mapping? && UniqueKeys(n) && roots.Some? && sessions.Some? then
      Some(R.Config(roots.value, map[], map[], sessions.value, "", false, None, false))
    else None
  }

  // ---- drift ------------------------------------------------------------------------------------

  datatype Status = OK | Drifted | New | Gone

  datatype Drift = Drift(status: Status, session: string, window: string, configDir: string, liveDir: string)

  /** The live session of that name; the last one if several. */
  function SessionNamed(live: seq<LiveSession>, name: string): Option<LiveSession> {
    if live == [] then None
    else if live[|live| - 1].name == name then Some(live[|live| - 1])
    else SessionNamed(live[..|live| - 1], name)
  }

  function WindowNamed(ws: seq<LiveWindow>, name: string): Option<LiveWindow> {
    if ws == [] then None
    else if ws[|ws| - 1].name == name then Some(ws[|ws| - 1])
    else WindowNamed(ws[..|ws| - 1], name)
  }

  function WindowDrift(session: string, cw: R.ResolvedWindow, live: seq<LiveWindow>): Drift {
    match WindowNamed(live, cw.name)
    case None => Drift(Gone, session, cw.name, cw.dir, "")
    case Some(lw) =>
      if cw.dir != "" && lw.dir != "" && cw.dir != lw.dir then Drift(Drifted, session, cw.name, cw.dir, lw.dir)
      else if cw.command != "" && lw.command != "" && cw.command != lw.command then Drift(Drifted, session, cw.name, cw.dir, lw.dir)
      else Drift(OK, session, cw.name, cw.dir, lw.dir)
  }

  function ConfigDrifts(session: string, ws: seq<R.ResolvedWindow>, live: seq<LiveWindow>): seq<Drift> {
    seq(|ws|, i requires 0 <= i < |ws| => WindowDrift(session, ws[i], live))
  }

  predicate Configured(ws: seq<R.ResolvedWindow>, name: string) {
    exists i :: 0 <= i < |ws| && ws[i].name == name
  }

  /** Live windows the configuration does not know. */
  function NewDrifts(session: string, ws: seq<R.ResolvedWindow>, live: seq<LiveWindow>): seq<Drift> {
    if live == [] then []
    else
      var n := |live| - 1;
      NewDrifts(session, ws, live[..n]) +
      (if Configured(ws, live[n].name) then [] else [Drift(New, session, live[n].name, "", live[n].dir)])
  }

  function GoneDrifts(s: R.ResolvedSession): seq<Drift> {
    if s.windows == [] then [Drift(Gone, s.name, "", "", "")]
    else seq(|s.windows|, i requires 0 <= i < |s.windows| => Drift(Gone, s.name, s.windows[i].name, s.windows[i].dir, ""))
  }

  function SessionDrifts(s: R.ResolvedSession, live: seq<LiveSession>): seq<Drift> {
    match SessionNamed(live, s.name)
    case None => GoneDrifts(s)
    case Some(ls) => ConfigDrifts(s.name, s.windows, ls.windows) + NewDrifts(s.name, s.windows, ls.windows)
  }

  function Drifts(resolved: seq<R.ResolvedSession>, live: seq<LiveSession>): seq<Drift> {
    if resolved == [] then [] else Drifts(resolved[..|resolved| - 1], live) + SessionDrifts(resolved[|resolved| - 1], live)
  }

  /** Indexes the live tree by name, then goes through the configured sessions and windows. */
  method Compare(resolved: seq<R.ResolvedSession>, live: seq<LiveSession>) returns (out: seq<Drift>)
    ensures out == Drifts(resolved, live)
  {
    var liveByName: map<string, LiveSession> := map[];
    for i := 0 to |live|
      invariant forall n :: n in liveByName <==> SessionNamed(live[..i], n).Some?
      invariant forall n :: n in liveByName ==> SessionNamed(live[..i], n) == Some(liveByName[n])
    {
      assert live[..i + 1][..i] == live[..i];
      liveByName := liveByName[live[i].name := live[i]];
    }
    assert live[..|live|] == live;
    out := [];
    for i := 0 to |resolved|
      invariant out == Drifts(resolved[..i], live)
    {
      var cs := resolved[i];
      assert resolved[..i + 1][..i] == resolved[..i];
      if cs.name !in liveByName {
        out := out + GoneDrifts(cs);
        continue;
      }
      var found := CompareWindows(cs, liveByName[cs.name].windows);
      out := out + found;
    }
    assert resolved[..|resolved|] == resolved;
  }

  method CompareWindows(cs: R.ResolvedSession, live: seq<LiveWindow>) returns (out: seq<Drift>)
    ensures out == ConfigDrifts(cs.name, cs.windows, live) + NewDrifts(cs.name, cs.windows, live)
  {
    var byName: map<string, LiveWindow> := map[];
    for i := 0 to |live|
      invariant forall n :: n in byName <==> WindowNamed(live[..i], n).Some?
      invariant forall n :: n in byName ==> WindowNamed(live[..i], n) == Some(byName[n])
    {
      assert live[..i + 1][..i] == live[..i];
      byName := byName[live[i].name := live[i]];
    }
    assert live[..|live|] == live;
    var known: set<string> := {};
    out := [];
    for i := 0 to |cs.windows|
      invariant |out| == i && forall j :: 0 <= j < i ==> out[j] == WindowDrift(cs.name, cs.windows[j], live)
      invariant forall n :: n in known <==> exists j :: 0 <= j < i && cs.windows[j].name == n
    {
      var cw := cs.windows[i];
      known := known + {cw.name};
      if cw.name !in byName {
        out := out + [Drift(Gone, cs.name, cw.name, cw.dir, "")];
        continue;
      }
      var lw := byName[cw.name];
      if cw.dir != "" && lw.dir != "" && cw.dir != lw.dir {
        out := out + [Drift(Drifted, cs.name, cw.name, cw.dir, lw.dir)];
        continue;
      }
      if cw.command != "" && lw.command != "" && cw.command != lw.command {
        out := out + [Drift(Drifted, cs.name, cw.name, cw.dir, lw.dir)];
        continue;
      }
      out := out + [Drift(OK, cs.name, cw.name, cw.dir, lw.dir)];
    }
    assert out == ConfigDrifts(cs.name, cs.windows, live);
    forall n ensures n in known <==> Configured(cs.windows, n) { }
    for i := 0 to |live|
      invariant out == ConfigDrifts(cs.name, cs.windows, live) + NewDrifts(cs.name, cs.windows, live[..i])
    {
      assert live[..i + 1][..i] == live[..i];
      if live[i].name !in known { out := out + [Drift(New, cs.name, live[i].name, "", live[i].dir)]; }
    }
    assert live[..|live|] == live;
  }

  // ---- loading what was imported ------------------------------------------------------------------

  lemma PairFound(m: Node, i: nat)
    requires m.Mapping? && Distinct(Keys(m)) && i < |m.pairs|
    ensures Find(m, m.pairs[i].0) == Some(m.pairs[i].1) && Keys(m)[i] == m.pairs[i].0
  {
    var j := KeyIndex(m.pairs, m.pairs[i].0);
    assert Keys(m)[i] == m.pairs[i].0 && Keys(m)[j] == m.pairs[j].0;
  }

  lemma {:induction false} LoadRootsSpec(pairs: seq<(string, Node)>)
    requires (forall i :: 0 <= i < |pairs| ==> pairs[i].1.Scalar?) && (forall i, j :: 0 <= i < j < |pairs| ==> pairs[i].0 != pairs[j].0)
    ensures LoadRoots(pairs).Some?
    ensures forall i :: 0 <= i < |pairs| ==> pairs[i].0 in LoadRoots(pairs).value && LoadRoots(pairs).value[pairs[i].0] == pairs[i].1.value
    ensures forall k :: k in LoadRoots(pairs).value ==> exists i :: 0 <= i < |pairs| && pairs[i].0 == k
  {
    if pairs != [] {
      var t := pairs[1..];
      assert forall i :: 0 <= i < |t| ==> t[i] == pairs[i + 1];
      LoadRootsSpec(t);
      forall k | k in LoadRoots(pairs).value ensures exists i :: 0 <= i < |pairs| && pairs[i].0 == k {
        if k != pairs[0].0 {
          var i :| 0 <= i < |t| && t[i].0 == k;
          assert pairs[i + 1].0 == k;
        }
      }
    }
  }

  /** The section of that name, as its pairs; none if it is absent. */
  function Section(n: Node, key: string): seq<(string, Node)> {
    var found := Find(n, key);
    if found.Some? && found.value.Mapping? then found.value.pairs else []
  }

  lemma SectionAt(n: Node, key: string)
    requires UniqueKeys(n) && AtMapping(n, [key])
    ensures Get(n, [key]) == Find(n, key)
    ensures KeysAt(n, [key]) == Keys(Mapping(Section(n, key))) && Distinct(Keys(Mapping(Section(n, key))))
    ensures forall i :: 0 <= i < |Section(n, key)| ==> Get(n, [key, Section(n, key)[i].0]) == Some(Section(n, key)[i].1)
    ensures Find(n, key).Some? ==> Find(n, key).value == Mapping(Section(n, key)) && UniqueKeys(Find(n, key).value)
  {
    hide Keys;
    GetStep(n, [], key);
    assert [] + [key] == [key];
    TopMapping(n);
    var found := Find(n, key);
    if found.Some? {
      FindUnique(n, key);
      forall i | 0 <= i < |Section(n, key)| ensures Get(n, [key, Section(n, key)[i].0]) == Some(Section(n, key)[i].1) {
        PairFound(found.value, i);
        GetStep(n, [key], Section(n, key)[i].0);
        assert [key] + [Section(n, key)[i].0] == [key, Section(n, key)[i].0];
      }
    } else {
      NoPairs();
    }
  }

  lemma NoPairs()
    ensures Keys(Mapping([])) == [] && Distinct(Keys(Mapping([])))
  {
  }

  lemma KeysLength(pairs: seq<(string, Node)>)
    ensures |Keys(Mapping(pairs))| == |pairs|
  {
  }

  lemma KeyOf(pairs: seq<(string, Node)>, i: nat)
    requires i < |pairs|
    ensures |Keys(Mapping(pairs))| == |pairs| && Keys(Mapping(pairs))[i] == pairs[i].0
  {
  }

  /** The roots read back are the roots written. */
  lemma RootsLoad(n: Node, roots: map<string, string>)
    requires UniqueKeys(n) && RootsHold(n, roots)
    ensures LoadRoots(Section(n, "roots")) == Some(roots)
  {
    hide Get, KeysAt, UniqueKeys, Keys, LoadRoots, Section;
    var pairs := Section(n, "roots");
    SectionAt(n, "roots");
    forall i | 0 <= i < |pairs| ensures pairs[i].0 in roots && pairs[i].1 == Str(roots[pairs[i].0]) {
      KeyOf(pairs, i);
      assert pairs[i].0 in KeysAt(n, ["roots"]);
    }
    forall i, j | 0 <= i < j < |pairs| ensures pairs[i].0 != pairs[j].0 {
      KeyOf(pairs, i);
      KeyOf(pairs, j);
    }
    LoadRootsSpec(pairs);
    var loaded := LoadRoots(pairs).value;
    forall k | k in roots ensures k in loaded {
      assert k in KeysAt(n, ["roots"]);
      KeyPair(pairs, k);
    }
    forall k | k in loaded ensures k in roots && loaded[k] == roots[k] {
      var i :| 0 <= i < |pairs| && pairs[i].0 == k;
    }
    assert loaded == roots;
  }

  lemma KeyPair(pairs: seq<(string, Node)>, k: string)
    requires k in Keys(Mapping(pairs))
    ensures exists i :: 0 <= i < |pairs| && pairs[i].0 == k
  {
    var i :| 0 <= i < |pairs| && Keys(Mapping(pairs))[i] == k;
    assert pairs[i].0 == k;
  }

  lemma IsField(n: Node, root: string, path: string, key: string)
    requires IsPlaced(n, root, path)
    ensures Field(n, key) == Some(if key == "root" then root else if key == "path" then path else "")
    ensures key != "root" && key != "path" ==> Find(n, key) == None
    ensures n.Mapping?
  {
    KeysFind(n, key);
  }

  /** A window written for a directory is read back as one that resolves to it. */
  lemma PlacedLoads(n: Node, roots: map<string, string>, dir: string)
    requires Places(n, roots, dir)
    ensures LoadWindow(n).Some?
    ensures var w := LoadWindow(n).value;
            R.PlaceDir(roots, w.dir, w.root, w.path, "") == Some(dir) && w.command == "" && w.extends_ == "" && w.panes == []
  {
    hide IsPlaced, Field, Find, R.JoinClean;
    if !(n == Str(dir) && R.IsAbs(dir)) {
      var root, path :| IsPlaced(n, root, path) && root != "" && path != "" && root in roots && R.JoinClean(roots[root], path) == dir;
      IsField(n, root, path, "dir");
      IsField(n, root, path, "root");
      IsField(n, root, path, "path");
      IsField(n, root, path, "layout");
      IsField(n, root, path, "command");
      IsField(n, root, path, "extends");
      IsField(n, root, path, "panes");
    }
  }

  lemma {:induction false} LoadWindowsSpec(pairs: seq<(string, Node)>)
    requires forall i :: 0 <= i < |pairs| ==> LoadWindow(pairs[i].1).Some?
    ensures LoadWindows(pairs).Some? && |LoadWindows(pairs).value| == |pairs|
    ensures forall i :: 0 <= i < |pairs| ==> LoadWindows(pairs).value[i] == (pairs[i].0, LoadWindow(pairs[i].1).value)
  {
    hide LoadWindow;
    if pairs != [] {
      var t := pairs[1..];
      assert forall i :: 0 <= i < |t| ==> t[i] == pairs[i + 1];
      LoadWindowsSpec(t);
    }
  }

  /** The session read back: no directory of its own, and its windows lead to the live directories. */
  predicate Mirrors(s: R.Session, roots: map<string, string>, live: LiveSession) {
    && s.root == "" && s.path == ""
    && |s.windows| == |Named(live.windows)|
    && forall i :: 0 <= i < |s.windows| ==> WindowMirrors(s.windows[i], roots, live, Named(live.windows)[i])
  }

  predicate WindowMirrors(named: (string, R.Window), roots: map<string, string>, live: LiveSession, name: string) {
    && named.0 == name && named.1.command == "" && named.1.extends_ == "" && named.1.panes == []
    && exists k :: 0 <= k < |live.windows| && live.windows[k].name == name && live.windows[k].dir != ""
                   && R.PlaceDir(roots, named.1.dir, named.1.root, named.1.path, "") == Some(live.windows[k].dir)
  }

  lemma {:induction false} NamedDir(ws: seq<LiveWindow>, i: nat)
    requires i < |Named(ws)|
    ensures exists k :: 0 <= k < |ws| && ws[k].name == Named(ws)[i] && ws[k].dir != ""
  {
    var n := |ws| - 1;
    var t := ws[..n];
    if i < |Named(t)| {
      NamedDir(t, i);
      var k :| 0 <= k < |t| && t[k].name == Named(t)[i] && t[k].dir != "";
      assert ws[k] == t[k];
    } else {
      assert ws[n].name == Named(ws)[i];
    }
  }

  /** Reading one imported session. */
  lemma SessionLoads(n: Node, roots: map<string, string>, s: LiveSession, m: Node)
    requires UniqueKeys(n) && UniqueKeys(m) && SessionHolds(n, roots, s) && Named(s.windows) != [] && DistinctWindows(s.windows)
    requires Get(n, ["sessions", s.name]) == Some(m)
    ensures LoadSession(m).Some? && Mirrors(LoadSession(m).value, roots, s)
  {
    hide UniqueKeys, Places, LoadWindow, LoadWindows, Named, Keys, Get;
    var q := ["sessions", s.name];
    assert Keys(m) == ["windows"];
    OnlyWindows(m);
    SessionPairs(n, m, s);
    var pairs := Section(m, "windows");
    KeysLength(pairs);
    forall i | 0 <= i < |pairs| ensures LoadWindow(pairs[i].1).Some? && WindowMirrors((pairs[i].0, LoadWindow(pairs[i].1).value), roots, s, Named(s.windows)[i]) {
      KeyOf(pairs, i);
      NamedDir(s.windows, i);
      var k :| 0 <= k < |s.windows| && s.windows[k].name == Named(s.windows)[i] && s.windows[k].dir != "";
      assert WindowHolds(n, roots, s.name, s.windows[k]);
      PlacedLoads(pairs[i].1, roots, s.windows[k].dir);
    }
    LoadWindowsSpec(pairs);
  }

  lemma OnlyWindows(m: Node)
    requires Keys(m) == ["windows"]
    ensures m.Mapping? && Find(m, "root") == None && Find(m, "path") == None && Find(m, "windows").Some?
  {
    KeysFind(m, "root");
    KeysFind(m, "path");
    KeysFind(m, "windows");
  }

  lemma SessionPairs(n: Node, m: Node, s: LiveSession)
    requires UniqueKeys(m) && Get(n, ["sessions", s.name]) == Some(m) && Find(m, "windows").Some?
    requires KeysAt(n, ["sessions", s.name, "windows"]) == Named(s.windows) != []
    ensures var pairs := Section(m, "windows");
            && Find(m, "windows").value == Mapping(pairs) && Keys(Mapping(pairs)) == Named(s.windows)
            && forall i :: 0 <= i < |pairs| ==> Get(n, WindowPath(s.name, pairs[i].0)) == Some(pairs[i].1)
  {
    hide Get, Keys, Named;
    var q := ["sessions", s.name, "windows"];
    GetStep(n, ["sessions", s.name], "windows");
    assert ["sessions", s.name] + ["windows"] == q;
    KeysMapping(n, q);
    FindUnique(m, "windows");
    var pairs := Section(m, "windows");
    forall i | 0 <= i < |pairs| ensures Get(n, WindowPath(s.name, pairs[i].0)) == Some(pairs[i].1) {
      PairFound(Mapping(pairs), i);
      GetStep(n, q, pairs[i].0);
      assert q + [pairs[i].0] == WindowPath(s.name, pairs[i].0);
    }
  }

  lemma {:induction false} LoadSessionsSpec(pairs: seq<(string, Node)>)
    requires forall i :: 0 <= i < |pairs| ==> LoadSession(pairs[i].1).Some?
    requires forall i, j :: 0 <= i < j < |pairs| ==> pairs[i].0 != pairs[j].0
    ensures LoadSessions(pairs).Some?
    ensures forall i :: 0 <= i < |pairs| ==> pairs[i].0 in LoadSessions(pairs).value && LoadSessions(pairs).value[pairs[i].0] == LoadSession(pairs[i].1).value
    ensures forall k :: k in LoadSessions(pairs).value ==> exists i :: 0 <= i < |pairs| && pairs[i].0 == k
  {
    hide LoadSession;
    if pairs != [] {
      var t := pairs[1..];
      assert forall i :: 0 <= i < |t| ==> t[i] == pairs[i + 1];
      LoadSessionsSpec(t);
      forall k | k in LoadSessions(pairs).value ensures exists i :: 0 <= i < |pairs| && pairs[i].0 == k {
        if k != pairs[0].0 {
          var i :| 0 <= i < |t| && t[i].0 == k;
          assert pairs[i + 1].0 == k;
        }
      }
    }
  }

  lemma {:induction false} TrackedSession(live: seq<LiveSession>, name: string)
    ensures name in Tracked(live) ==> exists i :: 0 <= i < |live| && live[i].name == name && Named(live[i].windows) != []
  {
    hide Named;
    if live != [] {
      var t := live[..|live| - 1];
      TrackedSession(t, name);
      if name in Tracked(t) {
        var i :| 0 <= i < |t| && t[i].name == name && Named(t[i].windows) != [];
        assert live[i] == t[i];
      }
    }
  }

  lemma {:induction false} TracksAll(live: seq<LiveSession>, i: nat)
    requires i < |live| && Named(live[i].windows) != []
    ensures live[i].name in Tracked(live)
  {
    hide Named;
    if i < |live| - 1 { TracksAll(live[..|live| - 1], i); }
  }

  /** Every configured session mirrors a live one, and every live session with a directory is configured. */
  ghost predicate Reflects(c: R.Config, roots: map<string, string>, live: seq<LiveSession>) {
    && c.roots == roots && c.templates == map[] && c.defaultLayout == ""
    && (forall name :: name in c.sessions ==> exists i :: 0 <= i < |live| && live[i].name == name && Mirrors(c.sessions[name], roots, live[i]))
    && forall i :: 0 <= i < |live| && Named(live[i].windows) != [] ==> live[i].name in c.sessions
  }

  lemma SessionsLoad(n: Node, roots: map<string, string>, live: seq<LiveSession>, i: nat)
    requires Holds(n, roots, live) && Importable(live) && i < |Section(n, "sessions")|
    ensures var p := Section(n, "sessions")[i];
            && LoadSession(p.1).Some?
            && exists k :: 0 <= k < |live| && live[k].name == p.0 && Mirrors(LoadSession(p.1).value, roots, live[k])
  {
    hide UniqueKeys, Get, KeysAt, Keys, LoadSession, Mirrors, Named, RootsHold, SessionHolds, CleanDir, RootsOf, Paths;
    SectionAt(n, "sessions");
    var pairs := Section(n, "sessions");
    KeyOf(pairs, i);
    TrackedSession(live, pairs[i].0);
    var k :| 0 <= k < |live| && live[k].name == pairs[i].0 && Named(live[k].windows) != [];
    PairUnique(n, "sessions", i);
    assert SessionHolds(n, roots, live[k]);
    SessionLoads(n, roots, live[k], pairs[i].1);
  }

  lemma PairUnique(n: Node, key: string, i: nat)
    requires UniqueKeys(n) && i < |Section(n, key)|
    ensures UniqueKeys(Section(n, key)[i].1)
  {
    FindUnique(n, key);
  }

  /** The imported document loads to a configuration that reflects the live tree. */
  lemma ImportLoads(n: Node, roots: map<string, string>, live: seq<LiveSession>)
    requires Holds(n, roots, live) && Importable(live)
    ensures Load(n).Some? && Reflects(Load(n).value, roots, live)
  {
    hide UniqueKeys, Get, KeysAt, Keys, LoadSession, Mirrors, Named, SessionHolds, CleanDir, RootsOf, Paths, Tracked, LoadRoots, LoadSessions, RootsHold;
    var pairs := Section(n, "sessions");
    RootsLoad(n, roots);
    RootsMapping(n, roots);
    SectionAt(n, "roots");
    SectionAt(n, "sessions");
    forall i | 0 <= i < |pairs|
      ensures LoadSession(pairs[i].1).Some?
      ensures exists k :: 0 <= k < |live| && live[k].name == pairs[i].0 && Mirrors(LoadSession(pairs[i].1).value, roots, live[k])
    {
      SessionsLoad(n, roots, live, i);
    }
    forall i, j | 0 <= i < j < |pairs| ensures pairs[i].0 != pairs[j].0 {
      KeyOf(pairs, i);
      KeyOf(pairs, j);
    }
    LoadSessionsSpec(pairs);
    NoSections();
    var sessions := LoadSessions(pairs).value;
    forall i | 0 <= i < |live| && Named(live[i].windows) != [] ensures live[i].name in sessions {
      TracksAll(live, i);
      KeyPair(pairs, live[i].name);
    }
    var c := Load(n).value;
    forall name | name in c.sessions ensures exists i :: 0 <= i < |live| && live[i].name == name && Mirrors(c.sessions[name], roots, live[i]) {
      var i :| 0 <= i < |pairs| && pairs[i].0 == name;
      var k :| 0 <= k < |live| && live[k].name == pairs[i].0 && Mirrors(LoadSession(pairs[i].1).value, roots, live[k]);
    }
  }

  lemma RootsMapping(n: Node, roots: map<string, string>)
    requires RootsHold(n, roots)
    ensures AtMapping(n, ["roots"])
  {
  }

  lemma NoSections()
    ensures LoadRoots([]) == Some(map[]) && LoadSessions([]) == Some(map[])
  {
  }

  // ---- resolving what was imported -----------------------------------------------------------------

  /** The resolved session shows the live session's windows at their live directories. */
  predicate Shows(s: R.ResolvedSession, live: LiveSession) {
    && s.name == live.name && |s.windows| == |Named(live.windows)|
    && forall i :: 0 <= i < |s.windows| ==> ShowsWindow(s.windows[i], live, Named(live.windows)[i])
  }

  predicate ShowsWindow(w: R.ResolvedWindow, live: LiveSession, name: string) {
    && w.name == name && w.command == ""
    && exists k :: 0 <= k < |live.windows| && live.windows[k].name == name && live.windows[k].dir != "" && w.dir == live.windows[k].dir
  }

  lemma {:induction false} WindowsShow(c: R.Config, live: LiveSession, ws: seq<(string, R.Window)>, names: seq<string>)
    requires |ws| == |names| && forall i :: 0 <= i < |ws| ==> WindowMirrors(ws[i], c.roots, live, names[i])
    ensures R.ResolveWindows(c, "", ws).Some?
    ensures var r := R.ResolveWindows(c, "", ws).value;
            |r| == |ws| && forall i :: 0 <= i < |r| ==> ShowsWindow(r[i], live, names[i])
  {
    hide R.PlaceDir;
    if ws != [] {
      var t := ws[1..];
      assert forall i :: 0 <= i < |t| ==> t[i] == ws[i + 1] && names[1..][i] == names[i + 1];
      WindowsShow(c, live, t, names[1..]);
      assert WindowMirrors(ws[0], c.roots, live, names[0]);
      assert R.ResolvePanes(c.roots, [], "") == Some([]);
    }
  }

  lemma SessionShows(c: R.Config, s: R.Session, live: LiveSession)
    requires Mirrors(s, c.roots, live)
    ensures R.ResolveSession(c, live.name, s).Some? && Shows(R.ResolveSession(c, live.name, s).value, live)
  {
    hide WindowMirrors, ShowsWindow, Named;
    WindowsShow(c, live, s.windows, Named(live.windows));
  }

  ghost predicate ShowsOne(s: R.ResolvedSession, live: seq<LiveSession>) {
    exists i :: 0 <= i < |live| && Shows(s, live[i])
  }

  lemma {:induction false} SessionsShow(c: R.Config, live: seq<LiveSession>, names: seq<string>)
    requires Reflects(c, c.roots, live) && forall n :: n in names ==> n in c.sessions
    ensures R.ResolveSessions(c, names).Some?
    ensures var r := R.ResolveSessions(c, names).value;
            |r| == |names| && forall i :: 0 <= i < |r| ==> r[i].name == names[i] && ShowsOne(r[i], live)
  {
    hide R.ResolveSession, Mirrors, Shows, Named;
    if names != [] {
      var t := names[1..];
      assert names == [names[0]] + t;
      SessionsShow(c, live, t);
      var k :| 0 <= k < |live| && live[k].name == names[0] && Mirrors(c.sessions[names[0]], c.roots, live[k]);
      SessionShows(c, c.sessions[names[0]], live[k]);
      ShowsName(R.ResolveSession(c, names[0], c.sessions[names[0]]).value, live[k]);
    }
  }

  lemma ShowsName(s: R.ResolvedSession, live: LiveSession)
    requires Shows(s, live)
    ensures s.name == live.name
  {
  }

  // ---- no drift ------------------------------------------------------------------------------------------

  lemma {:induction false} FindWindow(ws: seq<LiveWindow>, k: nat)
    requires DistinctWindows(ws) && k < |ws|
    ensures WindowNamed(ws, ws[k].name) == Some(ws[k])
  {
    if k < |ws| - 1 { FindWindow(ws[..|ws| - 1], k); }
  }

  lemma {:induction false} FindSession(live: seq<LiveSession>, k: nat)
    requires DistinctSessions(live) && k < |live|
    ensures SessionNamed(live, live[k].name) == Some(live[k])
  {
    if k < |live| - 1 { FindSession(live[..|live| - 1], k); }
  }

  lemma {:induction false} NewOnly(session: string, ws: seq<R.ResolvedWindow>, live: seq<LiveWindow>)
    requires forall k :: 0 <= k < |live| && live[k].dir != "" ==> Configured(ws, live[k].name)
    ensures forall d :: d in NewDrifts(session, ws, live) ==> d.status == New && d.liveDir == ""
  {
    hide Configured;
    if live != [] { NewOnly(session, ws, live[..|live| - 1]); }
  }

  /** A drift entry with nothing to act on: in place, or a live window that has no directory yet. */
  predicate Clean(d: Drift) { d.status == OK || (d.status == New && d.liveDir == "") }

  lemma {:induction false} NamedHas(ws: seq<LiveWindow>, k: nat)
    requires k < |ws| && ws[k].dir != ""
    ensures ws[k].name in Named(ws)
  {
    if k < |ws| - 1 { NamedHas(ws[..|ws| - 1], k); }
  }

  lemma SessionClean(s: R.ResolvedSession, live: seq<LiveSession>, i: nat)
    requires i < |live| && Shows(s, live[i]) && DistinctSessions(live) && DistinctWindows(live[i].windows)
    ensures forall d :: d in SessionDrifts(s, live) ==> Clean(d)
    ensures forall k :: 0 <= k < |live[i].windows| && live[i].windows[k].dir != "" ==>
              Drift(OK, s.name, live[i].windows[k].name, live[i].windows[k].dir, live[i].windows[k].dir) in SessionDrifts(s, live)
  {
    hide SessionNamed, NewDrifts, Named, WindowNamed;
    FindSession(live, i);
    var ls := live[i];
    forall m | 0 <= m < |s.windows|
      ensures WindowDrift(s.name, s.windows[m], ls.windows).status == OK
      ensures WindowDrift(s.name, s.windows[m], ls.windows) == Drift(OK, s.name, s.windows[m].name, s.windows[m].dir, s.windows[m].dir)
    {
      assert ShowsWindow(s.windows[m], ls, Named(ls.windows)[m]);
      var k :| 0 <= k < |ls.windows| && ls.windows[k].name == s.windows[m].name && ls.windows[k].dir != "" && s.windows[m].dir == ls.windows[k].dir;
      FindWindow(ls.windows, k);
    }
    forall k | 0 <= k < |ls.windows| && ls.windows[k].dir != ""
      ensures Configured(s.windows, ls.windows[k].name)
      ensures Drift(OK, s.name, ls.windows[k].name, ls.windows[k].dir, ls.windows[k].dir) in ConfigDrifts(s.name, s.windows, ls.windows)
    {
      NamedHas(ls.windows, k);
      var m :| 0 <= m < |Named(ls.windows)| && Named(ls.windows)[m] == ls.windows[k].name;
      assert ShowsWindow(s.windows[m], ls, Named(ls.windows)[m]);
      SameWindow(ls.windows, k, s.windows[m]);
      assert ConfigDrifts(s.name, s.windows, ls.windows)[m] == Drift(OK, s.name, ls.windows[k].name, ls.windows[k].dir, ls.windows[k].dir);
    }
    NewOnly(s.name, s.windows, ls.windows);
  }

  lemma SameWindow(ws: seq<LiveWindow>, k: nat, w: R.ResolvedWindow)
    requires DistinctWindows(ws) && k < |ws| && w.name == ws[k].name
    requires exists j :: 0 <= j < |ws| && ws[j].name == w.name && ws[j].dir != "" && w.dir == ws[j].dir
    ensures w.dir == ws[k].dir
  {
  }

  lemma {:induction false} DriftsIn(resolved: seq<R.ResolvedSession>, live: seq<LiveSession>, d: Drift)
    ensures d in Drifts(resolved, live) <==> exists i :: 0 <= i < |resolved| && d in SessionDrifts(resolved[i], live)
  {
    hide SessionDrifts;
    if resolved != [] {
      var t := resolved[..|resolved| - 1];
      DriftsIn(t, live, d);
      if exists i :: 0 <= i < |t| && d in SessionDrifts(t[i], live) {
        var i :| 0 <= i < |t| && d in SessionDrifts(t[i], live);
        assert resolved[i] == t[i];
      }
      if exists i :: 0 <= i < |resolved| && d in SessionDrifts(resolved[i], live) {
        var i :| 0 <= i < |resolved| && d in SessionDrifts(resolved[i], live);
        if i < |t| { assert t[i] == resolved[i]; }
      }
    }
  }

  /**
   * Importing the live tree, reading the document back, resolving it and comparing it with the same tree
   * shows nothing to act on, and every window with a directory in place at exactly that directory.
   */
  lemma ImportClean(n: Node, live: seq<LiveSession>)
    requires Importable(live) && Holds(n, RootsOf(Paths(live)), live)
    ensures Load(n).Some? && R.Resolve(Load(n).value).Some?
    ensures var ds := Drifts(R.Resolve(Load(n).value).value, live);
            && (forall d :: d in ds ==> Clean(d))
            && forall i, k :: 0 <= i < |live| && 0 <= k < |live[i].windows| && live[i].windows[k].dir != "" ==>
                 Drift(OK, live[i].name, live[i].windows[k].name, live[i].windows[k].dir, live[i].windows[k].dir) in ds
  {
    hide Holds, Load, Drifts, SessionDrifts, Shows, CleanDir, RootsOf, Paths, Mirrors, R.ResolveSessions, SortedKeys, DistinctWindows, DistinctSessions, Named;
    ImportLoads(n, RootsOf(Paths(live)), live);
    var c := Load(n).value;
    SortedKeysSpec(c.sessions.Keys);
    var names := SortedKeys(c.sessions.Keys);
    SessionsShow(c, live, names);
    var resolved := R.Resolve(c).value;
    var ds := Drifts(resolved, live);
    forall d | d in ds ensures Clean(d) {
      DriftsIn(resolved, live, d);
      var m :| 0 <= m < |resolved| && d in SessionDrifts(resolved[m], live);
      assert ShowsOne(resolved[m], live);
      var i :| 0 <= i < |live| && Shows(resolved[m], live[i]);
      SessionClean(resolved[m], live, i);
    }
    forall i, k | 0 <= i < |live| && 0 <= k < |live[i].windows| && live[i].windows[k].dir != ""
      ensures Drift(OK, live[i].name, live[i].windows[k].name, live[i].windows[k].dir, live[i].windows[k].dir) in ds
    {
      NamedHas(live[i].windows, k);
      assert live[i].name in c.sessions;
      assert live[i].name in names;
      var m :| 0 <= m < |names| && names[m] == live[i].name;
      assert ShowsOne(resolved[m], live);
      var j :| 0 <= j < |live| && Shows(resolved[m], live[j]);
      ShowsName(resolved[m], live[j]);
      SameSession(live, i, j);
      SessionClean(resolved[m], live, i);
      DriftsIn(resolved, live, Drift(OK, live[i].name, live[i].windows[k].name, live[i].windows[k].dir, live[i].windows[k].dir));
    }
  }

  lemma SameSession(live: seq<LiveSession>, i: nat, j: nat)
    requires DistinctSessions(live) && i < |live| && j < |live| && live[i].name == live[j].name
    ensures i == j
  {
  }

  /** The whole way from an importable live tree to a clean comparison. */
  method ImportAndCompare(live: seq<LiveSession>) returns (drifts: seq<Drift>)
    requires Importable(live)
    ensures forall i :: 0 <= i < |drifts| ==> Clean(drifts[i])
    ensures forall i, k :: 0 <= i < |live| && 0 <= k < |live[i].windows| && live[i].windows[k].dir != "" ==>
              Drift(OK, live[i].name, live[i].windows[k].name, live[i].windows[k].dir, live[i].windows[k].dir) in drifts
  {
    hide Holds, Load, Drifts, SessionDrifts, RootsOf, Paths, Importable, Clean;
    var doc, report := Bootstrap(live);
    ImportClean(Root(doc.value), live);
    drifts := Compare(R.Resolve(Load(Root(doc.value)).value).value, live);
  }
}
