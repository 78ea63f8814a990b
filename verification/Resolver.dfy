/**
 * File paths, and the configuration resolved to absolute directories.
 * (internal/config/resolver.go, internal/config/types.go, internal/config/validate.go)
 */
module Resolver {
  import opened Text
  import opened Sorting

  // ---- file paths -----------------------------------------------------------------------

  predicate IsAbs(p: string) { p != "" && p[0] == '/' }

  /** An element that names something: not empty, not `.`, not `..`. */
  predicate Proper(segment: string) { segment != "" && segment != "." && segment != ".." }

  /** The elements left once empty and dot elements are dropped and double dots taken back. */
  function CleanSegments(segments: seq<string>, stack: seq<string>, rooted: bool): seq<string>
    decreases |segments|
  {
    if segments == [] then stack
    else if segments[0] == "" || segments[0] == "." then CleanSegments(segments[1..], stack, rooted)
    else if segments[0] == ".." then
      if stack != [] && stack[|stack| - 1] != ".." then CleanSegments(segments[1..], stack[..|stack| - 1], rooted)
      else CleanSegments(segments[1..], if rooted then stack else stack + [".."], rooted)
    else CleanSegments(segments[1..], stack + [segments[0]], rooted)
  }

  /** The shortest path equivalent by lexical processing alone. */
  function Clean(p: string): string {
    if p == "" then "."
    else
      var parts := CleanSegments(Split(p, '/'), [], IsAbs(p));
      if IsAbs(p) then "/" + Join(parts, '/') else if parts == [] then "." else Join(parts, '/')
  }

  function JoinPath(a: string, b: string): string {
    if a == "" && b == "" then "" else if a == "" then Clean(b) else if b == "" then Clean(a) else Clean(a + "/" + b)
  }

  function JoinClean(a: string, b: string): string {
    if b == "" || b == "." then Clean(a) else Clean(JoinPath(a, b))
  }

  predicate CleanAbsolute(p: string) { IsAbs(p) && Clean(p) == p }

  predicate AllProper(segments: seq<string>) {
    forall i :: 0 <= i < |segments| ==> Proper(segments[i]) && '/' !in segments[i]
  }

  lemma {:induction false} CleanProper(segments: seq<string>, stack: seq<string>)
    requires AllProper(stack) && forall i :: 0 <= i < |segments| ==> '/' !in segments[i]
    ensures AllProper(CleanSegments(segments, stack, true))
    ensures AllProper(segments) ==> CleanSegments(segments, stack, true) == stack + segments
    decreases |segments|
  {
    if segments != [] {
      if segments[0] == "" || segments[0] == "." {
        CleanProper(segments[1..], stack);
      } else if segments[0] == ".." {
        if stack != [] && stack[|stack| - 1] != ".." { CleanProper(segments[1..], stack[..|stack| - 1]); } else { CleanProper(segments[1..], stack); }
      } else {
        CleanProper(segments[1..], stack + [segments[0]]);
        assert stack + segments == (stack + [segments[0]]) + segments[1..];
      }
    }
  }

  /** The path with these elements below the root. */
  function Rooted(parts: seq<string>): string { "/" + Join(parts, '/') }

  lemma JoinCons(parts: seq<string>)
    requires parts != []
    ensures Rooted(parts) == Join([""] + parts, '/')
  {
    assert ([""] + parts)[1..] == parts;
    assert [] + ['/'] + Join(parts, '/') == "/" + Join(parts, '/');
  }

  /** A clean absolute path is the root, or a root followed by proper elements. */
  lemma CleanShape(p: string)
    requires CleanAbsolute(p)
    ensures p == "/" || (|Split(p, '/')| >= 2 && Split(p, '/')[0] == "" && AllProper(Split(p, '/')[1..]) && p == Rooted(Split(p, '/')[1..]))
  {
    var segments := Split(p, '/');
    JoinSplit(p, '/');
    forall i | 0 <= i < |segments| ensures '/' !in segments[i] { assert segments[i] in segments; }
    var parts := CleanSegments(segments, [], true);
    CleanProper(segments, []);
    if parts == [] {
      assert p == "/";
    } else {
      JoinCons(parts);
      assert forall x :: x in [""] + parts ==> '/' !in x;
      SplitJoin([""] + parts, '/');
      assert ([""] + parts)[1..] == parts;
    }
  }

  lemma RootedClean(parts: seq<string>)
    requires parts != [] && AllProper(parts)
    ensures CleanAbsolute(Rooted(parts)) && Split(Rooted(parts), '/') == [""] + parts
  {
    JoinCons(parts);
    assert forall x :: x in [""] + parts ==> '/' !in x;
    SplitJoin([""] + parts, '/');
    var segments := [""] + parts;
    assert segments[1..] == parts;
    CleanProper(parts, []);
    assert CleanSegments(segments, [], true) == CleanSegments(parts, [], true);
    assert [] + parts == parts;
  }

  lemma {:induction false} JoinAppend(a: seq<string>, b: seq<string>)
    requires a != [] && b != []
    ensures Join(a + b, '/') == Join(a, '/') + "/" + Join(b, '/')
  {
    if |a| == 1 {
      assert (a + b)[1..] == b;
    } else {
      JoinAppend(a[1..], b);
      assert (a + b)[1..] == a[1..] + b;
    }
  }

  /** A clean path put together again from a clean beginning and the rest. */
  lemma JoinBack(base: seq<string>, rest: seq<string>)
    requires base != [] && AllProper(base) && AllProper(rest)
    ensures JoinClean(Rooted(base), if rest == [] then "." else Join(rest, '/')) == Rooted(base + rest)
  {
    hide Clean, Join, Split;
    RootedClean(base);
    if rest == [] {
      assert base + rest == base;
    } else {
      AllProperAppend(base, rest);
      RootedClean(base + rest);
      JoinAppend(base, rest);
      assert Rooted(base) + "/" + Join(rest, '/') == Rooted(base + rest);
      NotDot(rest);
    }
  }

  lemma AllProperAppend(a: seq<string>, b: seq<string>)
    requires AllProper(a) && AllProper(b)
    ensures AllProper(a + b)
  {
  }

  lemma NotDot(rest: seq<string>)
    requires rest != [] && AllProper(rest)
    ensures Join(rest, '/') != "" && Join(rest, '/') != "."
  {
    if |rest| > 1 { assert Join(rest, '/')[|rest[0]|] == '/'; }
  }

  // ---- the configuration --------------------------------------------------------------------

  datatype Pane = Pane(dir: string, root: string, path: string, command: string)

  datatype Window = Window(dir: string, root: string, path: string, layout: string, command: string, extends_: string, panes: seq<Pane>)

  /** Windows in declaration order. */
  datatype Session = Session(root: string, path: string, windows: seq<(string, Window)>)

  datatype Config = Config(
    roots: map<string, string>, templates: map<string, Window>, layouts: map<string, string>, sessions: map<string, Session>,
    defaultLayout: string, activeEnabled: bool, ttl: Option<int>, ttlMalformed: bool)

  datatype ResolvedPane = ResolvedPane(dir: string, command: string)

  datatype ResolvedWindow = ResolvedWindow(name: string, dir: string, layout: string, command: string, panes: seq<ResolvedPane>)

  datatype ResolvedSession = ResolvedSession(name: string, dir: string, windows: seq<ResolvedWindow>)

  // ---- resolving -------------------------------------------------------------------------------

  function OrElse(a: string, b: string): string { if a == "" then b else a }

  /** The window's own fields win over its template's. */
  function ApplyTemplate(tmpl: Window, w: Window): Window {
    w.(dir := OrElse(w.dir, tmpl.dir), root := OrElse(w.root, tmpl.root), path := OrElse(w.path, tmpl.path),
       layout := OrElse(w.layout, tmpl.layout), command := OrElse(w.command, tmpl.command),
       panes := if w.panes == [] then tmpl.panes else w.panes)
  }

  /** An absolute dir, else a path below a declared root, else below the enclosing directory. */
  function PlaceDir(roots: map<string, string>, dir: string, root: string, path: string, enclosing: string): Option<string> {
    if IsAbs(dir) then Some(dir)
    else if root != "" then
      if root !in roots then None else Some(JoinClean(roots[root], OrElse(path, dir)))
    else if enclosing != "" then Some(JoinClean(enclosing, dir))
    else Some(dir)
  }

  function ResolvePanes(roots: map<string, string>, panes: seq<Pane>, dir: string): Option<seq<ResolvedPane>> {
    if panes == [] then Some([])
    else
      match PlaceDir(roots, panes[0].dir, panes[0].root, panes[0].path, dir)
      case None => None
      case Some(d) =>
        match ResolvePanes(roots, panes[1..], dir)
        case None => None
        case Some(rest) => Some([ResolvedPane(d, panes[0].command)] + rest)
  }

  function ResolveWindow(c: Config, sessionDir: string, name: string, w: Window): Option<ResolvedWindow> {
    if w.extends_ != "" && (w.extends_ !in c.templates || c.templates[w.extends_].extends_ != "") then None
    else
      var full := if w.extends_ != "" then ApplyTemplate(c.templates[w.extends_], w) else w;
      match PlaceDir(c.roots, full.dir, full.root, full.path, sessionDir)
      case None => None
      case Some(dir) =>
        match ResolvePanes(c.roots, full.panes, dir)
        case None => None
        case Some(panes) => Some(ResolvedWindow(name, dir, OrElse(full.layout, c.defaultLayout), full.command, panes))
  }

  function ResolveWindows(c: Config, sessionDir: string, ws: seq<(string, Window)>): Option<seq<ResolvedWindow>> {
    if ws == [] then Some([])
    else
      match ResolveWindow(c, sessionDir, ws[0].0, ws[0].1)
      case None => None
      case Some(w) =>
        match ResolveWindows(c, sessionDir, ws[1..])
        case None => None
        case Some(rest) => Some([w] + rest)
  }

  function SessionDir(roots: map<string, string>, s: Session): Option<string> {
    if s.root == "" then Some(s.path) else if s.root !in roots then None else Some(JoinClean(roots[s.root], s.path))
  }

  function ResolveSession(c: Config, name: string, s: Session): Option<ResolvedSession> {
    match SessionDir(c.roots, s)
    case None => None
    case Some(dir) =>
      match ResolveWindows(c, dir, s.windows)
      case None => None
      case Some(ws) => Some(ResolvedSession(name, dir, ws))
  }

  function ResolveSessions(c: Config, names: seq<string>): Option<seq<ResolvedSession>>
    requires forall n :: n in names ==> n in c.sessions
  {
    if names == [] then Some([])
    else
      match ResolveSession(c, names[0], c.sessions[names[0]])
      case None => None
      case Some(s) =>
        match ResolveSessions(c, names[1..])
        case None => None
        case Some(rest) => Some([s] + rest)
  }

  /** Every session under the empty profile, in the order of their names. */
  function Resolve(c: Config): Option<seq<ResolvedSession>> {
    SortedKeysSpec(c.sessions.Keys);
    ResolveSessions(c, SortedKeys(c.sessions.Keys))
  }

  // ---- validating ---------------------------------------------------------------------------------

  const BUILTIN_LAYOUTS: map<string, nat> := map["1-pane" := 1, "2-pane" := 2, "3-pane" := 3]

  const MAX_TTL := 720 * 3600

  predicate RootOk(c: Config, root: string) { root == "" || root in c.roots }

  predicate ValidWindow(c: Config, w: Window) {
    && RootOk(c, w.root)
    && (w.extends_ != "" ==> w.extends_ in c.templates)
    && (w.layout != "" ==> w.layout in BUILTIN_LAYOUTS || w.layout in c.layouts)
    && (w.panes != [] && w.layout in BUILTIN_LAYOUTS ==> |w.panes| == BUILTIN_LAYOUTS[w.layout])
    && forall i :: 0 <= i < |w.panes| ==> RootOk(c, w.panes[i].root)
  }

  predicate ValidSession(c: Config, s: Session) {
    RootOk(c, s.root) && forall i :: 0 <= i < |s.windows| ==> ValidWindow(c, s.windows[i].1)
  }

  /** No violation is found. */
  predicate Valid(c: Config) {
    && (forall t :: t in c.templates ==> c.templates[t].extends_ == "" && RootOk(c, c.templates[t].root))
    && (forall n :: n in c.sessions ==> ValidSession(c, c.sessions[n]))
    && !c.ttlMalformed && (c.ttl.Some? ==> 0 < c.ttl.value <= MAX_TTL)
    && (c.activeEnabled ==> "active" !in c.sessions)
  }

  // ---- a valid configuration resolves ------------------------------------------------------------------

  predicate PanePlaced(c: Config, p: Pane) { IsAbs(p.dir) || RootOk(c, p.root) }

  predicate PanesPlaced(c: Config, panes: seq<Pane>) {
    forall i :: 0 <= i < |panes| ==> PanePlaced(c, panes[i])
  }

  /** The panes the window takes over from its template name only declared roots, or are absolute. */
  predicate Inherits(c: Config, w: Window) {
    w.extends_ != "" && w.extends_ in c.templates && w.panes == [] ==> PanesPlaced(c, c.templates[w.extends_].panes)
  }

  lemma {:induction false} PanesResolve(c: Config, panes: seq<Pane>, dir: string)
    ensures ResolvePanes(c.roots, panes, dir).Some? <==> PanesPlaced(c, panes)
  {
    hide JoinClean;
    if panes != [] {
      PanesResolve(c, panes[1..], dir);
      assert PanesPlaced(c, panes) ==> PanePlaced(c, panes[0]);
      assert forall i :: 0 <= i < |panes[1..]| ==> panes[1..][i] == panes[i + 1];
    }
  }

  lemma WindowResolves(c: Config, dir: string, name: string, w: Window)
    requires ValidWindow(c, w) && (forall t :: t in c.templates ==> c.templates[t].extends_ == "" && RootOk(c, c.templates[t].root))
    ensures ResolveWindow(c, dir, name, w).Some? <==> Inherits(c, w)
  {
    hide JoinClean;
    var full := if w.extends_ != "" then ApplyTemplate(c.templates[w.extends_], w) else w;
    var placed := PlaceDir(c.roots, full.dir, full.root, full.path, dir);
    assert placed.Some?;
    PanesResolve(c, full.panes, placed.value);
  }

  lemma {:induction false} WindowsResolve(c: Config, dir: string, ws: seq<(string, Window)>)
    requires forall i :: 0 <= i < |ws| ==> ValidWindow(c, ws[i].1)
    requires forall t :: t in c.templates ==> c.templates[t].extends_ == "" && RootOk(c, c.templates[t].root)
    ensures ResolveWindows(c, dir, ws).Some? <==> forall i :: 0 <= i < |ws| ==> Inherits(c, ws[i].1)
  {
    hide ResolveWindow, ValidWindow, Inherits;
    if ws != [] {
      WindowResolves(c, dir, ws[0].0, ws[0].1);
      WindowsResolve(c, dir, ws[1..]);
      assert forall i :: 0 <= i < |ws[1..]| ==> ws[1..][i] == ws[i + 1];
    }
  }

  predicate SessionInherits(c: Config, s: Session) {
    forall i :: 0 <= i < |s.windows| ==> Inherits(c, s.windows[i].1)
  }

  lemma {:induction false} SessionsResolve(c: Config, names: seq<string>)
    requires Valid(c) && forall n :: n in names ==> n in c.sessions
    ensures ResolveSessions(c, names).Some? <==> forall n :: n in names ==> SessionInherits(c, c.sessions[n])
  {
    hide ValidWindow, JoinClean, Inherits;
    if names != [] {
      var s := c.sessions[names[0]];
      assert ValidSession(c, s);
      WindowsResolve(c, SessionDir(c.roots, s).value, s.windows);
      SessionsResolve(c, names[1..]);
      assert names == [names[0]] + names[1..];
    }
  }

  /**
   * A configuration that validates resolves under the empty profile exactly if every pane a window takes over
   * from a template is absolute or names a declared root: template panes are what validation does not look at.
   */
  lemma ValidResolves(c: Config)
    requires Valid(c)
    ensures Resolve(c).Some? <==> forall n :: n in c.sessions ==> SessionInherits(c, c.sessions[n])
  {
    hide Valid, SessionInherits;
    SortedKeysSpec(c.sessions.Keys);
    SessionsResolve(c, SortedKeys(c.sessions.Keys));
  }
}
