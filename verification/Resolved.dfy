/**
 * What a resolved session, window and pane is, told from the configuration alone; exactly when a configuration
 * resolves, and exactly what validation finds. (internal/config/resolver.go, internal/config/validate.go)
 */
module Resolved {
  import opened Text
  import opened Sorting
  import opened Resolver

  // ---- fields a window takes over ------------------------------------------------------------------

  /** The template a window extends; one without any fields if it extends none. */
  function Base(c: Config, w: Window): Window {
    if w.extends_ != "" && w.extends_ in c.templates then c.templates[w.extends_] else Window("", "", "", "", "", "", [])
  }

  /** An own value stands; only where there is none the other one counts. */
  predicate Taken(result: string, own: string, inherited: string) {
    (own != "" ==> result == own) && (own == "" ==> result == inherited)
  }

  /** The directory named by these fields: absolute, below a root, or below the enclosing directory. */
  predicate Located(roots: map<string, string>, dir: string, root: string, path: string, enclosing: string, result: string) {
    && (dir != "" && dir[0] == '/' ==> result == dir)
    && (!(dir != "" && dir[0] == '/') && root != "" ==>
          root in roots && result == JoinClean(roots[root], if path != "" then path else dir))
    && (!(dir != "" && dir[0] == '/') && root == "" && enclosing != "" ==> result == JoinClean(enclosing, dir))
    && (!(dir != "" && dir[0] == '/') && root == "" && enclosing == "" ==> result == dir)
  }

  predicate PaneMeans(c: Config, enclosing: string, p: Pane, r: ResolvedPane) {
    Located(c.roots, p.dir, p.root, p.path, enclosing, r.dir) && r.command == p.command
  }

  /** The resolved window, field by field. */
  predicate WindowMeans(c: Config, sessionDir: string, name: string, w: Window, r: ResolvedWindow) {
    var t := Base(c, w);
    var panes := if w.panes != [] then w.panes else t.panes;
    && r.name == name
    && Taken(r.command, w.command, t.command)
    && Taken(r.layout, w.layout, if t.layout != "" then t.layout else c.defaultLayout)
    && Located(c.roots, if w.dir != "" then w.dir else t.dir, if w.root != "" then w.root else t.root,
               if w.path != "" then w.path else t.path, sessionDir, r.dir)
    && |r.panes| == |panes| && forall i :: 0 <= i < |panes| ==> PaneMeans(c, r.dir, panes[i], r.panes[i])
  }

  predicate SessionMeans(c: Config, name: string, s: Session, r: ResolvedSession) {
    && r.name == name
    && (if s.root == "" then r.dir == s.path else s.root in c.roots && r.dir == JoinClean(c.roots[s.root], s.path))
    && |r.windows| == |s.windows|
    && forall i :: 0 <= i < |s.windows| ==> WindowMeans(c, r.dir, s.windows[i].0, s.windows[i].1, r.windows[i])
  }

  // ---- what resolving gives ---------------------------------------------------------------------------

  lemma PlaceMeans(roots: map<string, string>, dir: string, root: string, path: string, enclosing: string)
    ensures PlaceDir(roots, dir, root, path, enclosing).Some? <==> IsAbs(dir) || root == "" || root in roots
    ensures PlaceDir(roots, dir, root, path, enclosing).Some? ==>
              Located(roots, dir, root, path, enclosing, PlaceDir(roots, dir, root, path, enclosing).value)
  {
    hide JoinClean;
  }

  lemma {:induction false} PanesMean(c: Config, panes: seq<Pane>, dir: string)
    ensures ResolvePanes(c.roots, panes, dir).Some? ==>
              var r := ResolvePanes(c.roots, panes, dir).value;
              |r| == |panes| && forall i :: 0 <= i < |panes| ==> PaneMeans(c, dir, panes[i], r[i])
  {
    hide PlaceDir, Located;
    if panes != [] {
      PlaceMeans(c.roots, panes[0].dir, panes[0].root, panes[0].path, dir);
      PanesMean(c, panes[1..], dir);
      assert forall i :: 0 < i < |panes| ==> panes[1..][i - 1] == panes[i];
    }
  }

  lemma WindowIsMeant(c: Config, dir: string, name: string, w: Window)
    ensures ResolveWindow(c, dir, name, w).Some? ==> WindowMeans(c, dir, name, w, ResolveWindow(c, dir, name, w).value)
  {
    hide PlaceDir, Located, ResolvePanes, PaneMeans;
    if ResolveWindow(c, dir, name, w).Some? {
      var full := if w.extends_ != "" then ApplyTemplate(c.templates[w.extends_], w) else w;
      PlaceMeans(c.roots, full.dir, full.root, full.path, dir);
      PanesMean(c, full.panes, PlaceDir(c.roots, full.dir, full.root, full.path, dir).value);
    }
  }

  lemma {:induction false} WindowsMean(c: Config, dir: string, ws: seq<(string, Window)>)
    ensures ResolveWindows(c, dir, ws).Some? ==>
              var r := ResolveWindows(c, dir, ws).value;
              |r| == |ws| && forall i :: 0 <= i < |ws| ==> WindowMeans(c, dir, ws[i].0, ws[i].1, r[i])
  {
    hide ResolveWindow, WindowMeans;
    if ws != [] {
      WindowIsMeant(c, dir, ws[0].0, ws[0].1);
      WindowsMean(c, dir, ws[1..]);
      assert forall i :: 0 < i < |ws| ==> ws[1..][i - 1] == ws[i];
    }
  }

  lemma {:induction false} SessionsMean(c: Config, names: seq<string>)
    requires forall n :: n in names ==> n in c.sessions
    ensures ResolveSessions(c, names).Some? ==>
              var r := ResolveSessions(c, names).value;
              |r| == |names| && forall i :: 0 <= i < |names| ==> SessionMeans(c, names[i], c.sessions[names[i]], r[i])
  {
    hide ResolveWindows, WindowMeans, JoinClean;
    if names != [] {
      var s := c.sessions[names[0]];
      if SessionDir(c.roots, s).Some? { WindowsMean(c, SessionDir(c.roots, s).value, s.windows); }
      SessionsMean(c, names[1..]);
      assert forall i :: 0 < i < |names| ==> names[1..][i - 1] == names[i];
    }
  }

  /**
   * A resolved configuration: every session once, by name; in it the windows as declared; of each window and pane
   * every field from the configuration, its own before its template's.
   */
  lemma ResolveMeans(c: Config)
    requires Resolve(c).Some?
    ensures var r := Resolve(c).value;
            && (forall i, j :: 0 <= i < j < |r| ==> Less(r[i].name, r[j].name))
            && (forall n :: n in c.sessions <==> exists i :: 0 <= i < |r| && r[i].name == n)
            && forall i :: 0 <= i < |r| ==> r[i].name in c.sessions && SessionMeans(c, r[i].name, c.sessions[r[i].name], r[i])
  {
    hide Less, WindowMeans, JoinClean, ResolveSessions;
    var names, r := SortedKeys(c.sessions.Keys), Resolve(c).value;
    SortedKeysSpec(c.sessions.Keys);
    SessionsMean(c, names);
    forall i | 0 <= i < |r| ensures r[i].name == names[i] && names[i] in names { assert SessionMeans(c, names[i], c.sessions[names[i]], r[i]); }
    forall n | n in c.sessions ensures exists i :: 0 <= i < |r| && r[i].name == n {
      assert n in names;
      var i :| 0 <= i < |names| && names[i] == n;
      assert r[i].name == n;
    }
  }

  /** An absolute directory of its own is where a window is, whatever its template says. */
  lemma OwnDirWins(c: Config, dir: string, name: string, w: Window, r: ResolvedWindow)
    requires ResolveWindow(c, dir, name, w) == Some(r) && IsAbs(w.dir)
    ensures r.dir == w.dir
  {
    hide ResolveWindow;
    WindowIsMeant(c, dir, name, w);
  }

  /** A pane without directory and root is where its window is. */
  lemma BarePane(c: Config, dir: string, name: string, w: Window, r: ResolvedWindow, i: nat)
    requires ResolveWindow(c, dir, name, w) == Some(r) && i < |r.panes|
    requires var panes := if w.panes != [] then w.panes else Base(c, w).panes; i < |panes| && panes[i].dir == "" && panes[i].root == ""
    ensures r.panes[i].dir == if r.dir == "" then "" else Clean(r.dir)
  {
    hide ResolveWindow, Clean;
    WindowIsMeant(c, dir, name, w);
    assert PaneMeans(c, r.dir, (if w.panes != [] then w.panes else Base(c, w).panes)[i], r.panes[i]);
  }

  /** But an absolute directory of the template wins over a root of the window's own. */
  lemma TemplateDirWins(c: Config, dir: string, name: string, w: Window, r: ResolvedWindow)
    requires ResolveWindow(c, dir, name, w) == Some(r) && w.dir == "" && IsAbs(Base(c, w).dir)
    ensures r.dir == Base(c, w).dir
  {
    hide ResolveWindow;
    WindowIsMeant(c, dir, name, w);
  }

  // ---- exactly when a configuration resolves ------------------------------------------------------------

  /** The template is there and extends nothing itself; window and panes are absolute or name declared roots. */
  predicate Fits(c: Config, w: Window) {
    var t := Base(c, w);
    && (w.extends_ != "" ==> w.extends_ in c.templates && c.templates[w.extends_].extends_ == "")
    && (IsAbs(if w.dir != "" then w.dir else t.dir) || RootOk(c, if w.root != "" then w.root else t.root))
    && PanesPlaced(c, if w.panes != [] then w.panes else t.panes)
  }

  predicate SessionFits(c: Config, s: Session) {
    RootOk(c, s.root) && forall i :: 0 <= i < |s.windows| ==> Fits(c, s.windows[i].1)
  }

  lemma WindowFits(c: Config, dir: string, name: string, w: Window)
    ensures ResolveWindow(c, dir, name, w).Some? <==> Fits(c, w)
  {
    hide PlaceDir, Located, ResolvePanes, PanesPlaced;
    if w.extends_ != "" ==> w.extends_ in c.templates && c.templates[w.extends_].extends_ == "" {
      var full := if w.extends_ != "" then ApplyTemplate(c.templates[w.extends_], w) else w;
      var placed := PlaceDir(c.roots, full.dir, full.root, full.path, dir);
      PlaceMeans(c.roots, full.dir, full.root, full.path, dir);
      if placed.Some? { PanesResolve(c, full.panes, placed.value); }
    }
  }

  lemma {:induction false} WindowsFit(c: Config, dir: string, ws: seq<(string, Window)>)
    ensures ResolveWindows(c, dir, ws).Some? <==> forall i :: 0 <= i < |ws| ==> Fits(c, ws[i].1)
  {
    hide ResolveWindow, Fits;
    if ws != [] {
      WindowFits(c, dir, ws[0].0, ws[0].1);
      WindowsFit(c, dir, ws[1..]);
      assert forall i :: 0 <= i < |ws[1..]| ==> ws[1..][i] == ws[i + 1];
    }
  }

  lemma {:induction false} SessionsFit(c: Config, names: seq<string>)
    requires forall n :: n in names ==> n in c.sessions
    ensures ResolveSessions(c, names).Some? <==> forall n :: n in names ==> SessionFits(c, c.sessions[n])
  {
    hide ResolveWindows, Fits, JoinClean;
    if names != [] {
      var s := c.sessions[names[0]];
      if RootOk(c, s.root) { WindowsFit(c, SessionDir(c.roots, s).value, s.windows); }
      SessionsFit(c, names[1..]);
      assert names == [names[0]] + names[1..];
    }
  }

  /** Any configuration, valid or not, resolves under the empty profile exactly if every session in it fits. */
  lemma ResolvesExactly(c: Config)
    ensures Resolve(c).Some? <==> forall n :: n in c.sessions ==> SessionFits(c, c.sessions[n])
  {
    hide SessionFits;
    SortedKeysSpec(c.sessions.Keys);
    SessionsFit(c, SortedKeys(c.sessions.Keys));
  }
}
