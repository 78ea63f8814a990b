/**
 * Bringing the live sessions up to the configuration: what is missing is created, what is there is left alone.
 * (internal/actions/sync.go, internal/actions/create.go, internal/tmux/tmuxtest/mock_runner.go)
 */
module Sync {
  import opened Text
  import opened Sorting
  import opened Roots
  import opened Diff
  import R = Resolver

  // ---- the live tree -----------------------------------------------------------------------

  datatype Pane = Pane(dir: string, command: string)

  datatype Win = Win(name: string, index: nat, layout: string, panes: seq<Pane>)

  /** Sessions by name, and their order of creation. */
  datatype Tree = Tree(sessions: map<string, seq<Win>>, order: seq<string>)

  ghost predicate ValidTree(t: Tree) {
    Distinct(t.order) && forall n :: n in t.order <==> n in t.sessions
  }

  predicate IsNumber(s: string) {
    s != "" && forall c :: c in s ==> IsDigit(c)
  }

  /** The first window with that index, else -1. */
  function ByIndex(ws: seq<Win>, index: nat): (i: int)
    ensures -1 <= i < |ws|
    ensures i >= 0 ==> ws[i].index == index
    ensures forall k :: 0 <= k < |ws| && (i < 0 || k < i) ==> ws[k].index != index
  {
    if ws == [] then -1
    else if ws[0].index == index then 0
    else
      var i := ByIndex(ws[1..], index);
      if i < 0 then -1 else i + 1
  }

  function ByName(ws: seq<Win>, name: string): (i: int)
    ensures -1 <= i < |ws|
    ensures i >= 0 ==> ws[i].name == name
  {
    if ws == [] then -1
    else if ws[0].name == name then 0
    else
      var i := ByName(ws[1..], name);
      if i < 0 then -1 else i + 1
  }

  /** The window a target `session:window[.pane]` names, by its index or else by its name. */
  function Found(t: Tree, target: string): (r: Option<(string, nat)>)
    ensures r.Some? ==> r.value.0 in t.sessions && r.value.1 < |t.sessions[r.value.0]|
  {
    var (name, rest) := Cut(target, ':');
    if rest.None? || name == "" || name !in t.sessions then None
    else
      var ws, suffix := t.sessions[name], Cut(rest.value, '.').0;
      var i := if IsNumber(suffix) then ByIndex(ws, Value(suffix, 0)) else -1;
      if i >= 0 then Some((name, i))
      else
        var j := ByName(ws, suffix);
        if j >= 0 then Some((name, j)) else None
  }

  function TargetOf(name: string, index: nat): string { name + ":" + Dec(index) }

  /**
   * A window's own target leads to its session exactly if the session's name is non-empty and without a
   * colon; it then names the first window of that index.
   */
  lemma TargetReaches(t: Tree, name: string, index: nat)
    requires name in t.sessions && ByIndex(t.sessions[name], index) >= 0
    ensures var found := Found(t, TargetOf(name, index));
            && (found.Some? && found.value.0 == name <==> name != "" && ':' !in name)
            && (name != "" && ':' !in name ==> found == Some((name, ByIndex(t.sessions[name], index))))
  {
    var target, digits := TargetOf(name, index), Dec(index);
    ValueDec(index);
    DecDigits(index);
    if ':' !in name {
      assert target == name + [':'] + digits;
      CutAt(name, ':', digits);
      CutNone(digits, '.');
    }
  }

  // ---- what is created ------------------------------------------------------------------------

  const BUILTIN: set<string> := {"", "1-pane", "2-pane", "3-pane"}

  predicate LayoutKnown(layout: string, layouts: map<string, string>) {
    layout in BUILTIN || layout in layouts
  }

  /** How many panes are split off the first. */
  function Splits(cw: R.ResolvedWindow): nat {
    if cw.layout == "" || cw.layout == "1-pane" then 0
    else if cw.layout == "2-pane" then 1
    else if cw.layout == "3-pane" then 2
    else if |cw.panes| > 1 then |cw.panes| - 1 else 0
  }

  /** The window with its panes split off, laid out and named. */
  function Laid(w: Win, cw: R.ResolvedWindow, layouts: map<string, string>): Win
    requires w.panes != []
  {
    var extra := Pane(R.OrElse(cw.dir, w.panes[0].dir), "");
    var layout := if cw.layout == "3-pane" then "main-vertical"
                  else if cw.layout in BUILTIN || cw.layout !in layouts then w.layout
                  else layouts[cw.layout];
    Win(cw.name, w.index, layout, w.panes + seq(Splits(cw), _ => extra))
  }

  function Fresh(name: string, dir: string, index: nat): Win { Win(name, index, "", [Pane(dir, "")]) }

  function NextIndex(ws: seq<Win>): (n: nat)
    ensures n >= 1
    ensures forall k :: 0 <= k < |ws| ==> ws[k].index < n
  {
    if ws == [] then 1
    else
      var n := NextIndex(ws[..|ws| - 1]);
      if ws[|ws| - 1].index >= n then ws[|ws| - 1].index + 1 else n
  }

  /** The configured windows after those already there, each at the next free index. */
  function Added(ws: seq<Win>, cws: seq<R.ResolvedWindow>, enclosing: string, layouts: map<string, string>): seq<Win> {
    if cws == [] then ws
    else
      var before, cw := Added(ws, cws[..|cws| - 1], enclosing, layouts), cws[|cws| - 1];
      before + [Laid(Fresh(cw.name, R.OrElse(cw.dir, enclosing), NextIndex(before)), cw, layouts)]
  }

  predicate HasWindow(ws: seq<Win>, name: string) {
    exists i :: 0 <= i < |ws| && ws[i].name == name
  }

  /** The configured windows of which none of that name is there. */
  function Missing(cws: seq<R.ResolvedWindow>, ws: seq<Win>): seq<R.ResolvedWindow> {
    if cws == [] then []
    else
      var n := |cws| - 1;
      Missing(cws[..n], ws) + (if HasWindow(ws, cws[n].name) then [] else [cws[n]])
  }

  function AllWindows(t: Tree, order: seq<string>): seq<Win> {
    if order == [] then []
    else
      var n := |order| - 1;
      AllWindows(t, order[..n]) + (if order[n] in t.sessions then t.sessions[order[n]] else [])
  }

  /** The windows listed for a session; asked for the empty name the server lists all there are. */
  function Listed(t: Tree, name: string): seq<Win>
    requires name in t.sessions
  {
    if name == "" then AllWindows(t, t.order) else t.sessions[name]
  }

  function Built(s: R.ResolvedSession, layouts: map<string, string>): seq<Win> {
    if s.windows == [] then [Fresh(s.name, s.dir, 1)] else Added([], s.windows, s.dir, layouts)
  }

  function AfterSession(t: Tree, s: R.ResolvedSession, layouts: map<string, string>): Tree {
    if s.name in t.sessions then
      t.(sessions := t.sessions[s.name := Added(t.sessions[s.name], Missing(s.windows, Listed(t, s.name)), "", layouts)])
    else Tree(t.sessions[s.name := Built(s, layouts)], t.order + [s.name])
  }

  /** The tree a push is to reach. */
  function After(t: Tree, resolved: seq<R.ResolvedSession>, layouts: map<string, string>): Tree {
    if resolved == [] then t
    else AfterSession(After(t, resolved[..|resolved| - 1], layouts), resolved[|resolved| - 1], layouts)
  }

  function Entries(session: string, cws: seq<R.ResolvedWindow>): seq<string> {
    seq(|cws|, i requires 0 <= i < |cws| => session + "/" + cws[i].name)
  }

  function PlannedFor(t: Tree, s: R.ResolvedSession): seq<string> {
    if s.name !in t.sessions then [s.name] else Entries(s.name, Missing(s.windows, Listed(t, s.name)))
  }

  /** What a push of these sessions is to report as created. */
  function Planned(t: Tree, resolved: seq<R.ResolvedSession>): seq<string> {
    if resolved == [] then [] else Planned(t, resolved[..|resolved| - 1]) + PlannedFor(t, resolved[|resolved| - 1])
  }

  /** Nothing stands in the way of creating what this session misses. */
  predicate Creatable(t: Tree, running: bool, s: R.ResolvedSession, layouts: map<string, string>) {
    if s.name in t.sessions then
      var missing := Missing(s.windows, Listed(t, s.name));
      missing == [] || (s.name != "" && forall i :: 0 <= i < |missing| ==> LayoutKnown(missing[i].layout, layouts))
    else running && s.name != "" && forall i :: 0 <= i < |s.windows| ==> LayoutKnown(s.windows[i].layout, layouts)
  }

  /** No session and no window that was there has gone or changed. */
  ghost predicate Keeps(t: Tree, u: Tree) {
    t.order <= u.order && forall n :: n in t.sessions ==> n in u.sessions && t.sessions[n] <= u.sessions[n]
  }

  /** Session names are distinct and fit for targets. */
  predicate Plain(resolved: seq<R.ResolvedSession>) {
    && (forall i :: 0 <= i < |resolved| ==> resolved[i].name != "" && ':' !in resolved[i].name)
    && (forall i, j :: 0 <= i < j < |resolved| ==> resolved[i].name != resolved[j].name)
  }

  // ---- the server -------------------------------------------------------------------------------

  function WithWindow(t: Tree, name: string, i: nat, w: Win): Tree
    requires name in t.sessions && i < |t.sessions[name]|
  {
    t.(sessions := t.sessions[name := t.sessions[name][i := w]])
  }

  class Multiplexer {
    const running: bool
    var sessions: map<string, seq<Win>>
    var order: seq<string>

    ghost function Contents(): Tree
      reads this
    {
      Tree(sessions, order)
    }

    method NewSession(name: string, dir: string, windowName: string) returns (ok: bool)
      modifies this
      ensures ok <==> running && name !in old(sessions)
      ensures Contents() == if ok then Tree(old(sessions)[name := [Fresh(R.OrElse(windowName, name), dir, 1)]], old(order) + [name])
                            else old(Contents())
    {
      if !running { return false; }
      if name in sessions { return false; }
      var first := windowName;
      if first == "" { first := name; }
      sessions := sessions[name := [Fresh(first, dir, 1)]];
      order := order + [name];
      return true;
    }

    method ListWindows(session: string) returns (ws: seq<Win>)
      requires session in sessions
      ensures ws == Listed(Contents(), session)
    {
      if session != "" { return sessions[session]; }
      ws := [];
      for k := 0 to |order|
        invariant ws == AllWindows(Contents(), order[..k])
      {
        assert order[..k + 1][..k] == order[..k];
        if order[k] in sessions { ws := ws + sessions[order[k]]; }
      }
      assert order[..|order|] == order;
    }

    method NewWindow(name: string, windowName: string, dir: string) returns (index: Option<nat>)
      modifies this
      ensures index == if name in old(sessions) then Some(NextIndex(old(sessions)[name])) else None
      ensures Contents() == if name in old(sessions) then
                              old(Contents()).(sessions := old(sessions)[name := old(sessions)[name] + [Fresh(windowName, dir, NextIndex(old(sessions)[name]))]])
                            else old(Contents())
    {
      if name !in sessions { return None; }
      var ws := sessions[name];
      var idx := 1;
      for k := 0 to |ws|
        invariant idx == NextIndex(ws[..k])
      {
        assert ws[..k + 1][..k] == ws[..k];
        if ws[k].index >= idx { idx := ws[k].index + 1; }
      }
      assert ws[..|ws|] == ws;
      sessions := sessions[name := ws + [Fresh(windowName, dir, idx)]];
      return Some(idx);
    }

    method SplitWindow(target: string, dir: string) returns (ok: bool)
      modifies this
      ensures var found := Found(old(Contents()), target);
              && (ok <==> found.Some?)
              && (ok ==>
                    var w := old(sessions)[found.value.0][found.value.1];
                    var path := if dir == "" && w.panes != [] then w.panes[0].dir else dir;
                    Contents() == WithWindow(old(Contents()), found.value.0, found.value.1, w.(panes := w.panes + [Pane(path, "")])))
      ensures !ok ==> Contents() == old(Contents())
    {
      var found := Found(Tree(sessions, order), target);
      if found.None? { return false; }
      var (name, i) := found.value;
      var w := sessions[name][i];
      var path := dir;
      if path == "" && |w.panes| > 0 { path := w.panes[0].dir; }
      sessions := sessions[name := sessions[name][i := w.(panes := w.panes + [Pane(path, "")])]];
      return true;
    }

    method SelectLayout(target: string, layout: string) returns (ok: bool)
      modifies this
      ensures var found := Found(old(Contents()), target);
              && (ok <==> found.Some?)
              && (ok ==> Contents() == WithWindow(old(Contents()), found.value.0, found.value.1,
                                                  old(sessions)[found.value.0][found.value.1].(layout := layout)))
      ensures !ok ==> Contents() == old(Contents())
    {
      var found := Found(Tree(sessions, order), target);
      if found.None? { return false; }
      var (name, i) := found.value;
      sessions := sessions[name := sessions[name][i := sessions[name][i].(layout := layout)]];
      return true;
    }

    method RenameWindow(target: string, newName: string) returns (ok: bool)
      modifies this
      ensures var found := Found(old(Contents()), target);
              && (ok <==> found.Some?)
              && (ok ==> Contents() == WithWindow(old(Contents()), found.value.0, found.value.1,
                                                  old(sessions)[found.value.0][found.value.1].(name := newName)))
      ensures !ok ==> Contents() == old(Contents())
    {
      var found := Found(Tree(sessions, order), target);
      if found.None? { return false; }
      var (name, i) := found.value;
      sessions := sessions[name := sessions[name][i := sessions[name][i].(name := newName)]];
      return true;
    }
  }

  // ---- one window -----------------------------------------------------------------------------------

  /** The target is that of window `i` of the session, and leads to it. */
  predicate Points(t: Tree, target: string, name: string, i: nat) {
    && name in t.sessions && i < |t.sessions[name]| && name != "" && ':' !in name
    && target == TargetOf(name, t.sessions[name][i].index) && ByIndex(t.sessions[name], t.sessions[name][i].index) == i
  }

  lemma PointsStays(t: Tree, target: string, name: string, i: nat, w: Win)
    requires Points(t, target, name, i) && w.index == t.sessions[name][i].index
    ensures Found(t, target) == Some((name, i))
    ensures Points(WithWindow(t, name, i, w), target, name, i)
  {
    TargetReaches(t, name, w.index);
    var ws := t.sessions[name][i := w];
    forall k | 0 <= k < i ensures ws[k].index != w.index { assert ws[k] == t.sessions[name][k]; }
    assert ws[i].index == w.index;
  }

  lemma Unchanged(t: Tree, name: string, i: nat)
    requires name in t.sessions && i < |t.sessions[name]|
    ensures WithWindow(t, name, i, t.sessions[name][i]) == t
  {
    assert t.sessions[name][i := t.sessions[name][i]] == t.sessions[name];
    assert WithWindow(t, name, i, t.sessions[name][i]).sessions == t.sessions;
  }

  lemma Overwritten(t: Tree, name: string, i: nat, v: Win, w: Win)
    requires name in t.sessions && i < |t.sessions[name]|
    ensures WithWindow(WithWindow(t, name, i, v), name, i, w) == WithWindow(t, name, i, w)
  {
    assert t.sessions[name][i := v][i := w] == t.sessions[name][i := w];
    assert t.sessions[name := t.sessions[name][i := v]][name := t.sessions[name][i := w]] == t.sessions[name := t.sessions[name][i := w]];
  }

  /** The window `w` after `n` splits. */
  function Splitted(w: Win, dir: string, n: nat): Win
    requires w.panes != []
  {
    w.(panes := w.panes + seq(n, _ => Pane(R.OrElse(dir, w.panes[0].dir), "")))
  }

  method SplitTimes(m: Multiplexer, target: string, dir: string, n: nat, ghost name: string, ghost i: nat) returns (ok: bool)
    modifies m
    ensures var t := old(m.Contents());
            Points(t, target, name, i) && t.sessions[name][i].panes != [] ==>
              ok && m.Contents() == WithWindow(t, name, i, Splitted(t.sessions[name][i], dir, n))
    ensures Found(old(m.Contents()), target).None? ==> m.Contents() == old(m.Contents())
  {
    ghost var t := m.Contents();
    ghost var points := Points(t, target, name, i) && t.sessions[name][i].panes != [];
    ghost var w := if points then t.sessions[name][i] else Fresh("", "", 0);
    if points {
      assert Splitted(w, dir, 0) == w;
      Unchanged(t, name, i);
    }
    for k := 0 to n
      invariant points ==> m.Contents() == WithWindow(t, name, i, Splitted(w, dir, k))
      invariant Found(t, target).None? ==> m.Contents() == t
    {
      ghost var u := m.Contents();
      if points { StillPoints(t, u, target, name, i, Splitted(w, dir, k)); }
      ok := m.SplitWindow(target, dir);
      if !ok { return false; }
      if points {
        assert Splitted(w, dir, k + 1).panes == Splitted(w, dir, k).panes + [Pane(R.OrElse(dir, w.panes[0].dir), "")];
        Overwritten(t, name, i, Splitted(w, dir, k), Splitted(w, dir, k + 1));
      }
    }
    ok := true;
  }

  /** Splits a window just created into its panes; an unknown layout fails before anything is changed. */
  method ApplyWindowLayout(m: Multiplexer, target: string, cw: R.ResolvedWindow, layouts: map<string, string>, ghost name: string, ghost i: nat)
    returns (ok: bool)
    modifies m
    ensures var t := old(m.Contents());
            Points(t, target, name, i) && t.sessions[name][i].panes != [] ==>
              && (ok <==> LayoutKnown(cw.layout, layouts))
              && m.Contents() == WithWindow(t, name, i, if ok then Laid(t.sessions[name][i], cw, layouts) else t.sessions[name][i])
    ensures Found(old(m.Contents()), target).None? ==> !ok && m.Contents() == old(m.Contents())
  {
    ghost var t := m.Contents();
    ghost var points := Points(t, target, name, i) && t.sessions[name][i].panes != [];
    ghost var w := if points then t.sessions[name][i] else Fresh("", "", 0);
    if points {
      assert Splitted(w, cw.dir, 0) == w;
      Unchanged(t, name, i);
    }
    var layout := cw.layout;
    if layout == "" { layout := "1-pane"; }
    match layout {
      case "1-pane" =>
      case "2-pane" =>
        ok := SplitTimes(m, target, cw.dir, 1, name, i);
        if !ok { return; }
      case "3-pane" =>
        ok := SplitTimes(m, target, cw.dir, 2, name, i);
        if !ok { return; }
        if points { StillPoints(t, m.Contents(), target, name, i, Splitted(w, cw.dir, 2)); }
        ok := m.SelectLayout(target, "main-vertical");
        if points { Overwritten(t, name, i, Splitted(w, cw.dir, 2), Splitted(w, cw.dir, 2).(layout := "main-vertical")); }
        if !ok { return; }
      case _ =>
        if layout !in layouts { return false; }
        ok := SplitTimes(m, target, cw.dir, if |cw.panes| > 1 then |cw.panes| - 1 else 0, name, i);
        if !ok { return; }
        if points { StillPoints(t, m.Contents(), target, name, i, Splitted(w, cw.dir, Splits(cw))); }
        ok := m.SelectLayout(target, layouts[layout]);
        if points { Overwritten(t, name, i, Splitted(w, cw.dir, Splits(cw)), Splitted(w, cw.dir, Splits(cw)).(layout := layouts[layout])); }
        if !ok { return; }
    }
    ghost var laid := Splitted(w, cw.dir, Splits(cw)).(layout := Laid(w, cw, layouts).layout);
    if points { StillPoints(t, m.Contents(), target, name, i, laid); }
    ok := m.RenameWindow(target, cw.name);
    if points { Overwritten(t, name, i, laid, Laid(w, cw, layouts)); }
  }

  lemma StillPoints(t: Tree, u: Tree, target: string, name: string, i: nat, w: Win)
    requires Points(t, target, name, i) && w.index == t.sessions[name][i].index && u == WithWindow(t, name, i, w)
    ensures Found(u, target) == Some((name, i)) && u.sessions[name][i] == w
  {
    PointsStays(t, target, name, i, w);
    PointsStays(u, target, name, i, w);
  }

  // ---- one session ------------------------------------------------------------------------------------

  /** The tree with one more window at the end of a session. */
  function Appended(t: Tree, name: string, w: Win): Tree
    requires name in t.sessions
  {
    t.(sessions := t.sessions[name := t.sessions[name] + [w]])
  }

  lemma LastPoints(t: Tree, name: string, w: Win)
    requires name in t.sessions && name != "" && ':' !in name && w.index == NextIndex(t.sessions[name])
    ensures Points(Appended(t, name, w), TargetOf(name, w.index), name, |t.sessions[name]|)
  {
    var ws := t.sessions[name] + [w];
    forall k | 0 <= k < |t.sessions[name]| ensures ws[k].index != w.index { assert ws[k] == t.sessions[name][k]; }
    assert ws[|t.sessions[name]|] == w;
  }

  lemma AppendedWith(t: Tree, name: string, v: Win, w: Win)
    requires name in t.sessions
    ensures WithWindow(Appended(t, name, v), name, |t.sessions[name]|, w) == Appended(t, name, w)
  {
    assert (t.sessions[name] + [v])[|t.sessions[name]| := w] == t.sessions[name] + [w];
    assert WithWindow(Appended(t, name, v), name, |t.sessions[name]|, w).sessions == Appended(t, name, w).sessions;
  }

  lemma NamelessTarget(t: Tree, index: nat)
    ensures Found(t, TargetOf("", index)).None?
  {
    CutAt("", ':', Dec(index));
    assert TargetOf("", index) == "" + [':'] + Dec(index);
  }

  /** Creates one window in a session that is there, and lays it out. */
  method AddWindow(m: Multiplexer, name: string, cw: R.ResolvedWindow, dir: string, layouts: map<string, string>) returns (ok: bool)
    modifies m
    ensures name in old(m.sessions) && ':' !in name ==>
              var t, w := old(m.Contents()), Fresh(cw.name, dir, NextIndex(old(m.sessions)[name]));
              && (ok <==> name != "" && LayoutKnown(cw.layout, layouts))
              && m.Contents() == Appended(t, name, if ok then Laid(w, cw, layouts) else w)
  {
    ghost var t := m.Contents();
    var index := m.NewWindow(name, cw.name, dir);
    if index.None? { return false; }
    ghost var w := Fresh(cw.name, dir, index.value);
    ghost var i := |t.sessions[name]|;
    if ':' !in name {
      if name == "" { NamelessTarget(m.Contents(), index.value); }
      else { LastPoints(t, name, w); }
    }
    ok := ApplyWindowLayout(m, TargetOf(name, index.value), cw, layouts, name, i);
    if ':' !in name && name != "" { AppendedWith(t, name, w, if ok then Laid(w, cw, layouts) else w); }
  }

  lemma {:induction false} AddedPrefix(ws: seq<Win>, cws: seq<R.ResolvedWindow>, enclosing: string, layouts: map<string, string>)
    ensures ws <= Added(ws, cws, enclosing, layouts)
    decreases |cws|
  {
    if cws != [] { AddedPrefix(ws, cws[..|cws| - 1], enclosing, layouts); }
  }

  /** The tree with a session of these windows, after the others. */
  function Opened(t: Tree, name: string, ws: seq<Win>): Tree {
    Tree(t.sessions[name := ws], t.order + [name])
  }

  /** Creates the session with its first window. */
  method OpenSession(m: Multiplexer, s: R.ResolvedSession, layouts: map<string, string>) returns (ok: bool)
    requires s.windows != []
    modifies m
    ensures s.name != "" && ':' !in s.name && s.name !in old(m.sessions) ==>
              && (ok <==> m.running && LayoutKnown(s.windows[0].layout, layouts))
              && (ok ==> m.Contents() == Opened(old(m.Contents()), s.name, Added([], s.windows[..1], s.dir, layouts)))
              && Keeps(old(m.Contents()), m.Contents())
  {
    hide Laid;
    ghost var t := m.Contents();
    var first := s.windows[0];
    var dir := R.OrElse(first.dir, s.dir);
    ok := m.NewSession(s.name, dir, first.name);
    if !ok { return; }
    ghost var plain := s.name != "" && ':' !in s.name;
    ghost var u := m.Contents();
    ghost var w := u.sessions[s.name][0];
    if plain {
      assert Points(u, TargetOf(s.name, 1), s.name, 0);
      Unchanged(u, s.name, 0);
    }
    ok := ApplyWindowLayout(m, TargetOf(s.name, 1), first, layouts, s.name, 0);
    if ok && plain {
      FirstAdded(s, layouts);
      FirstLaid(R.OrElse(first.name, s.name), dir, first, layouts);
      assert m.sessions[s.name] == [Laid(w, first, layouts)];
      Rewritten(t, s.name, u.sessions[s.name], m.sessions[s.name]);
    }
  }

  /** Whatever name the window starts with, laying it out gives it its own. */
  lemma FirstLaid(name: string, dir: string, cw: R.ResolvedWindow, layouts: map<string, string>)
    ensures Laid(Fresh(name, dir, 1), cw, layouts) == Laid(Fresh(cw.name, dir, 1), cw, layouts)
  {
  }

  lemma KeepsSelf(t: Tree)
    ensures Keeps(t, t)
  {
  }

  lemma OpenedKeeps(t: Tree, name: string, ws: seq<Win>)
    ensures name !in t.sessions ==> Keeps(t, Opened(t, name, ws))
  {
  }

  method CreateSession(m: Multiplexer, s: R.ResolvedSession, layouts: map<string, string>) returns (ok: bool)
    modifies m
    ensures s.name != "" && s.name in old(m.sessions) ==> ok && m.Contents() == old(m.Contents())
    ensures s.name !in old(m.sessions) && ':' !in s.name ==>
              && (ok <==> Creatable(old(m.Contents()), m.running, s, layouts))
              && (ok ==> m.Contents() == AfterSession(old(m.Contents()), s, layouts))
              && Keeps(old(m.Contents()), m.Contents())
  {
    hide Laid, NextIndex, LayoutKnown, Added, Keeps;
    ghost var t := m.Contents();
    KeepsSelf(t);
    if s.name == "" { return false; }
    if s.name in m.sessions { return true; }
    if |s.windows| == 0 {
      ok := m.NewSession(s.name, s.dir, "");
      OpenedKeeps(t, s.name, [Fresh(s.name, s.dir, 1)]);
      return;
    }
    ok := OpenSession(m, s, layouts);
    if !ok { return; }
    for k := 1 to |s.windows|
      invariant ':' !in s.name ==> m.running
      invariant ':' !in s.name ==> m.Contents() == Opened(t, s.name, Added([], s.windows[..k], s.dir, layouts))
      invariant ':' !in s.name ==> forall j :: 0 <= j < k ==> LayoutKnown(s.windows[j].layout, layouts)
    {
      var cw := s.windows[k];
      ok := AddWindow(m, s.name, cw, R.OrElse(cw.dir, s.dir), layouts);
      if !ok {
        if ':' !in s.name {
          Rewritten(t, s.name, Added([], s.windows[..k], s.dir, layouts), m.sessions[s.name]);
          OpenedKeeps(t, s.name, m.sessions[s.name]);
        }
        return;
      }
      if ':' !in s.name { OpenedOne(t, s, k, layouts); }
    }
    assert s.windows[..|s.windows|] == s.windows;
    OpenedKeeps(t, s.name, Added([], s.windows, s.dir, layouts));
    ok := true;
  }

  lemma OpenedOne(t: Tree, s: R.ResolvedSession, k: nat, layouts: map<string, string>)
    requires k < |s.windows|
    ensures var before, cw := Added([], s.windows[..k], s.dir, layouts), s.windows[k];
            var w := Laid(Fresh(cw.name, R.OrElse(cw.dir, s.dir), NextIndex(before)), cw, layouts);
            Appended(Opened(t, s.name, before), s.name, w) == Opened(t, s.name, Added([], s.windows[..k + 1], s.dir, layouts))
  {
    hide Laid, NextIndex;
    assert s.windows[..k + 1][..k] == s.windows[..k];
    Rewritten(t, s.name, Added([], s.windows[..k], s.dir, layouts), Added([], s.windows[..k + 1], s.dir, layouts));
  }

  lemma Rewritten(t: Tree, name: string, v: seq<Win>, w: seq<Win>)
    ensures t.sessions[name := v][name := w] == t.sessions[name := w]
  {
  }

  lemma FirstAdded(s: R.ResolvedSession, layouts: map<string, string>)
    requires s.windows != []
    ensures var cw := s.windows[0];
            Added([], s.windows[..1], s.dir, layouts) == [Laid(Fresh(cw.name, R.OrElse(cw.dir, s.dir), 1), cw, layouts)]
  {
    assert s.windows[..1][..0] == [];
    assert s.windows[..1][0] == s.windows[0];
    assert Added([], [], s.dir, layouts) == [];
  }

  lemma AddedOne(t: Tree, name: string, cws: seq<R.ResolvedWindow>, cw: R.ResolvedWindow, layouts: map<string, string>)
    requires name in t.sessions
    ensures var before := Added(t.sessions[name], cws, "", layouts);
            var w := Laid(Fresh(cw.name, cw.dir, NextIndex(before)), cw, layouts);
            Appended(t.(sessions := t.sessions[name := before]), name, w)
            == t.(sessions := t.sessions[name := Added(t.sessions[name], cws + [cw], "", layouts)])
  {
    assert (cws + [cw])[..|cws|] == cws;
    Rewritten(t, name, Added(t.sessions[name], cws, "", layouts), Added(t.sessions[name], cws + [cw], "", layouts));
  }

  // ---- the push ---------------------------------------------------------------------------------------------

  /** The tree with the session's windows replaced. */
  function Filled(t: Tree, name: string, ws: seq<Win>): Tree {
    t.(sessions := t.sessions[name := ws])
  }

  /** Goes through the configured windows of a session that is there, and creates those it lacks. */
  method AddMissing(m: Multiplexer, s: R.ResolvedSession, ws: seq<Win>, layouts: map<string, string>, dryRun: bool) returns (created: seq<string>, ok: bool)
    requires s.name in m.sessions && ws == Listed(m.Contents(), s.name)
    modifies m
    ensures dryRun ==> ok && m.Contents() == old(m.Contents()) && created == Entries(s.name, Missing(s.windows, ws))
    ensures !dryRun && ':' !in s.name ==>
              && (ok <==> Creatable(old(m.Contents()), m.running, s, layouts))
              && (ok ==> m.Contents() == AfterSession(old(m.Contents()), s, layouts) && created == Entries(s.name, Missing(s.windows, ws)))
              && Keeps(old(m.Contents()), m.Contents()) && created <= Entries(s.name, Missing(s.windows, ws))
  {
    hide Laid, NextIndex, LayoutKnown, Added, Entries, Missing, HasWindow;
    ghost var t, plain, here := m.Contents(), !dryRun && ':' !in s.name, m.sessions[s.name];
    MissingNone(s, here, layouts);
    var byName: set<string> := {};
    for k := 0 to |ws|
      invariant m.Contents() == t
      invariant forall n :: n in byName <==> exists i :: 0 <= i < k && ws[i].name == n
    {
      byName := byName + {ws[k].name};
    }
    Names(ws, byName);
    created, ok := [], true;
    MissingNone(s, ws, layouts);
    for k := 0 to |s.windows|
      invariant ok && created == Entries(s.name, Missing(s.windows[..k], ws))
      invariant dryRun ==> m.Contents() == t
      invariant plain ==> m.Contents() == Filled(t, s.name, Added(here, Missing(s.windows[..k], ws), "", layouts))
      invariant plain ==> PartCreatable(s, ws, k, layouts)
    {
      var cw := s.windows[k];
      MissingOne(s, ws, k, layouts);
      if cw.name in byName { continue; }
      created := created + [s.name + "/" + cw.name];
      if dryRun { continue; }
      ok := AddWindow(m, s.name, cw, cw.dir, layouts);
      if !ok {
        assert s.windows[..|s.windows|] == s.windows;
        MissingRest(s, ws, k + 1, layouts);
        AddedPrefix(here, Missing(s.windows[..k], ws), "", layouts);
        return;
      }
      if plain { AddedOne(t, s.name, Missing(s.windows[..k], ws), cw, layouts); }
    }
    assert s.windows[..|s.windows|] == s.windows;
    AddedPrefix(here, Missing(s.windows, ws), "", layouts);
  }

  predicate PartCreatable(s: R.ResolvedSession, ws: seq<Win>, k: nat, layouts: map<string, string>)
    requires k <= |s.windows|
  {
    var missing := Missing(s.windows[..k], ws);
    missing == [] || (s.name != "" && forall i :: 0 <= i < |missing| ==> LayoutKnown(missing[i].layout, layouts))
  }

  lemma Names(ws: seq<Win>, names: set<string>)
    requires forall n :: n in names <==> exists i :: 0 <= i < |ws| && ws[i].name == n
    ensures forall n :: n in names <==> HasWindow(ws, n)
  {
  }

  lemma MissingNone(s: R.ResolvedSession, ws: seq<Win>, layouts: map<string, string>)
    ensures Missing(s.windows[..0], ws) == [] && Entries(s.name, []) == [] && Added(ws, [], "", layouts) == ws
    ensures PartCreatable(s, ws, 0, layouts)
  {
  }

  lemma MissingNext(cws: seq<R.ResolvedWindow>, ws: seq<Win>, k: nat)
    requires k < |cws|
    ensures Missing(cws[..k + 1], ws) == Missing(cws[..k], ws) + if HasWindow(ws, cws[k].name) then [] else [cws[k]]
  {
    hide HasWindow;
    assert cws[..k + 1][..k] == cws[..k];
  }

  lemma EntriesNext(session: string, cws: seq<R.ResolvedWindow>, cw: R.ResolvedWindow)
    ensures Entries(session, cws + [cw]) == Entries(session, cws) + [session + "/" + cw.name]
  {
  }

  /** Going one window on: it joins the missing ones, or all stays. */
  lemma MissingOne(s: R.ResolvedSession, ws: seq<Win>, k: nat, layouts: map<string, string>)
    requires k < |s.windows|
    ensures var here, next, cw := Missing(s.windows[..k], ws), Missing(s.windows[..k + 1], ws), s.windows[k];
            && next == (if HasWindow(ws, cw.name) then here else here + [cw])
            && Entries(s.name, next) == (if HasWindow(ws, cw.name) then Entries(s.name, here) else Entries(s.name, here) + [s.name + "/" + cw.name])
    ensures PartCreatable(s, ws, k + 1, layouts) <==>
              PartCreatable(s, ws, k, layouts) && (HasWindow(ws, s.windows[k].name) || (s.name != "" && LayoutKnown(s.windows[k].layout, layouts)))
  {
    hide LayoutKnown, HasWindow, Missing, Entries;
    var here, cw := Missing(s.windows[..k], ws), s.windows[k];
    MissingNext(s.windows, ws, k);
    EntriesNext(s.name, here, cw);
    if !HasWindow(ws, cw.name) {
      assert forall i :: 0 <= i < |here| ==> (here + [cw])[i] == here[i];
      assert (here + [cw])[|here|] == cw;
    }
  }

  /** What is missing further on comes after what is missing so far. */
  lemma {:induction false} MissingRest(s: R.ResolvedSession, ws: seq<Win>, k: nat, layouts: map<string, string>)
    requires k <= |s.windows|
    ensures Entries(s.name, Missing(s.windows[..k], ws)) <= Entries(s.name, Missing(s.windows, ws))
    ensures PartCreatable(s, ws, |s.windows|, layouts) ==> PartCreatable(s, ws, k, layouts)
    decreases |s.windows| - k
  {
    hide Missing, Entries, PartCreatable, HasWindow;
    if k == |s.windows| {
      assert s.windows[..k] == s.windows;
    } else {
      MissingRest(s, ws, k + 1, layouts);
      MissingOne(s, ws, k, layouts);
    }
  }

  method PushSession(m: Multiplexer, s: R.ResolvedSession, layouts: map<string, string>, dryRun: bool) returns (created: seq<string>, ok: bool)
    modifies m
    ensures dryRun ==> ok && m.Contents() == old(m.Contents()) && created == PlannedFor(old(m.Contents()), s)
    ensures !dryRun && ':' !in s.name ==>
              && (ok <==> Creatable(old(m.Contents()), m.running, s, layouts))
              && (ok ==> m.Contents() == AfterSession(old(m.Contents()), s, layouts) && created == PlannedFor(old(m.Contents()), s))
              && Keeps(old(m.Contents()), m.Contents()) && created <= PlannedFor(old(m.Contents()), s)
  {
    hide Creatable, AfterSession, Entries, Missing, Keeps;
    if s.name !in m.sessions {
      created, ok := [s.name], true;
      if dryRun { return; }
      ok := CreateSession(m, s, layouts);
    } else {
      var ws := m.ListWindows(s.name);
      created, ok := AddMissing(m, s, ws, layouts, dryRun);
    }
  }

  lemma {:induction false} AfterOthers(t: Tree, resolved: seq<R.ResolvedSession>, layouts: map<string, string>, name: string)
    requires forall i :: 0 <= i < |resolved| ==> resolved[i].name != name
    ensures var u := After(t, resolved, layouts);
            (name in u.sessions <==> name in t.sessions) && (name in t.sessions ==> u.sessions[name] == t.sessions[name])
    decreases |resolved|
  {
    hide Built, Added, Missing;
    if resolved != [] { AfterOthers(t, resolved[..|resolved| - 1], layouts, name); }
  }

  lemma KeepsOn(t: Tree, u: Tree, v: Tree)
    requires Keeps(t, u) && Keeps(u, v)
    ensures Keeps(t, v)
  {
    forall n | n in t.sessions ensures n in v.sessions && t.sessions[n] <= v.sessions[n] { }
  }

  /** Creates every configured session and window that is missing; a dry run only lists them. */
  method PushResolved(m: Multiplexer, resolved: seq<R.ResolvedSession>, layouts: map<string, string>, dryRun: bool) returns (created: seq<string>, ok: bool)
    modifies m
    ensures dryRun ==> ok && m.Contents() == old(m.Contents()) && created == Planned(old(m.Contents()), resolved)
    ensures !dryRun && Plain(resolved) ==>
              var t := old(m.Contents());
              && (ok <==> forall i :: 0 <= i < |resolved| ==> Creatable(t, m.running, resolved[i], layouts))
              && (ok ==> m.Contents() == After(t, resolved, layouts) && created == Planned(t, resolved))
              && Keeps(t, m.Contents()) && created <= Planned(t, resolved)
  {
    hide Creatable, AfterSession, PlannedFor;
    ghost var t, plain := m.Contents(), !dryRun && Plain(resolved);
    created, ok := [], true;
    for i := 0 to |resolved|
      invariant ok && (dryRun || plain ==> created == Planned(t, resolved[..i]))
      invariant dryRun ==> m.Contents() == t
      invariant plain ==> m.Contents() == After(t, resolved[..i], layouts) && Keeps(t, m.Contents())
      invariant plain ==> forall j :: 0 <= j < i ==> Creatable(t, m.running, resolved[j], layouts)
    {
      ghost var u := m.Contents();
      var s := resolved[i];
      assert resolved[..i + 1][..i] == resolved[..i];
      if plain {
        AfterOthers(t, resolved[..i], layouts, s.name);
        SameHere(t, u, s, m.running, layouts);
      }
      var made;
      made, ok := PushSession(m, s, layouts, dryRun);
      created := created + made;
      if plain { KeepsOn(t, u, m.Contents()); }
      if !ok {
        PlannedPrefix(t, resolved, i + 1);
        return;
      }
    }
    assert resolved[..|resolved|] == resolved;
  }

  lemma SameHere(t: Tree, u: Tree, s: R.ResolvedSession, running: bool, layouts: map<string, string>)
    requires s.name != "" && (s.name in u.sessions <==> s.name in t.sessions) && (s.name in t.sessions ==> u.sessions[s.name] == t.sessions[s.name])
    ensures Creatable(u, running, s, layouts) == Creatable(t, running, s, layouts) && PlannedFor(u, s) == PlannedFor(t, s)
  {
  }

  lemma {:induction false} PlannedPrefix(t: Tree, resolved: seq<R.ResolvedSession>, i: nat)
    requires i <= |resolved|
    ensures Planned(t, resolved[..i]) <= Planned(t, resolved)
    decreases |resolved|
  {
    hide PlannedFor;
    if i == |resolved| {
      assert resolved[..i] == resolved;
    } else {
      assert resolved[..|resolved| - 1][..i] == resolved[..i];
      PlannedPrefix(t, resolved[..|resolved| - 1], i);
    }
  }

  lemma {:induction false} ResolvedNames(c: R.Config, names: seq<string>)
    requires (forall n :: n in names ==> n in c.sessions) && R.ResolveSessions(c, names).Some?
    ensures var r := R.ResolveSessions(c, names).value;
            |r| == |names| && forall i :: 0 <= i < |r| ==> r[i].name == names[i]
  {
    hide R.ResolveWindows, R.SessionDir;
    if names != [] { ResolvedNames(c, names[1..]); }
  }

  /** What a configuration resolves to is plain exactly if none of its session names is empty or holds a colon. */
  lemma ResolvedPlain(c: R.Config)
    requires R.Resolve(c).Some?
    ensures Plain(R.Resolve(c).value) <==> forall n :: n in c.sessions ==> n != "" && ':' !in n
  {
    hide R.ResolveSessions, SortedKeys, StrictlySorted;
    SortedKeysSpec(c.sessions.Keys);
    var names, r := SortedKeys(c.sessions.Keys), R.Resolve(c).value;
    ResolvedNames(c, names);
    SortedApart(names);
    forall n | n in c.sessions ensures exists i :: 0 <= i < |r| && r[i].name == n {
      assert n in names;
      var i :| 0 <= i < |names| && names[i] == n;
      assert r[i].name == n;
    }
    forall i | 0 <= i < |r| ensures r[i].name in c.sessions { assert names[i] in names; }
    if Plain(r) {
      forall n | n in c.sessions ensures n != "" && ':' !in n {
        var i :| 0 <= i < |r| && r[i].name == n;
      }
    }
  }

  lemma SortedApart(names: seq<string>)
    requires StrictlySorted(names)
    ensures forall i, j :: 0 <= i < j < |names| ==> names[i] != names[j]
  {
    hide Less;
    forall i, j | 0 <= i < j < |names| ensures names[i] != names[j] { LessIrreflexive(names[i]); }
  }

  method Push(m: Multiplexer, c: R.Config, dryRun: bool) returns (created: seq<string>, ok: bool)
    modifies m
    ensures R.Resolve(c).None? ==> !ok && created == [] && m.Contents() == old(m.Contents())
    ensures R.Resolve(c).Some? && dryRun ==> ok && m.Contents() == old(m.Contents()) && created == Planned(old(m.Contents()), R.Resolve(c).value)
    ensures R.Resolve(c).Some? && !dryRun && (forall n :: n in c.sessions ==> n != "" && ':' !in n) ==>
              var t, resolved := old(m.Contents()), R.Resolve(c).value;
              && (ok <==> forall i :: 0 <= i < |resolved| ==> Creatable(t, m.running, resolved[i], c.layouts))
              && (ok ==> m.Contents() == After(t, resolved, c.layouts) && created == Planned(t, resolved))
              && Keeps(t, m.Contents()) && created <= Planned(t, resolved)
  {
    hide R.Resolve, Creatable, After, Planned, Plain, Keeps;
    var resolved := R.Resolve(c);
    if resolved.None? { return [], false; }
    ResolvedPlain(c);
    created, ok := PushResolved(m, resolved.value, c.layouts, dryRun);
  }

  // ---- what a push achieves ---------------------------------------------------------------------------------

  lemma {:induction false} AddedLength(ws: seq<Win>, cws: seq<R.ResolvedWindow>, enclosing: string, layouts: map<string, string>)
    ensures |Added(ws, cws, enclosing, layouts)| == |ws| + |cws|
    decreases |cws|
  {
    hide Laid, NextIndex;
    if cws != [] { AddedLength(ws, cws[..|cws| - 1], enclosing, layouts); }
  }

  lemma {:induction false} AddedName(ws: seq<Win>, cws: seq<R.ResolvedWindow>, enclosing: string, layouts: map<string, string>, k: nat)
    requires k < |cws|
    ensures |Added(ws, cws, enclosing, layouts)| == |ws| + |cws| && Added(ws, cws, enclosing, layouts)[|ws| + k].name == cws[k].name
    decreases |cws|
  {
    hide NextIndex, Laid;
    var before, cw := Added(ws, cws[..|cws| - 1], enclosing, layouts), cws[|cws| - 1];
    LaidShows(cw, R.OrElse(cw.dir, enclosing), NextIndex(before), layouts);
    AddedLength(ws, cws, enclosing, layouts);
    AddedLength(ws, cws[..|cws| - 1], enclosing, layouts);
    if k < |cws| - 1 { AddedName(ws, cws[..|cws| - 1], enclosing, layouts, k); }
  }

  lemma {:induction false} MissingSpec(cws: seq<R.ResolvedWindow>, ws: seq<Win>)
    ensures forall i :: 0 <= i < |cws| ==> (cws[i] in Missing(cws, ws) <==> !HasWindow(ws, cws[i].name))
    ensures (forall i :: 0 <= i < |cws| ==> HasWindow(ws, cws[i].name)) ==> Missing(cws, ws) == []
    ensures forall w :: w in Missing(cws, ws) ==> !HasWindow(ws, w.name) && exists i :: 0 <= i < |cws| && cws[i] == w
    decreases |cws|
  {
    hide HasWindow;
    if cws != [] {
      var n := |cws| - 1;
      MissingSpec(cws[..n], ws);
      forall i | 0 <= i < |cws| ensures cws[i] in Missing(cws, ws) <==> !HasWindow(ws, cws[i].name) {
        if i < n { assert cws[i] == cws[..n][i]; }
        if cws[i] in Missing(cws[..n], ws) {
          var j :| 0 <= j < n && cws[..n][j] == cws[i];
        }
      }
    }
  }

  /** No window of a session is missing once it has been pushed. */
  lemma SessionComplete(t: Tree, s: R.ResolvedSession, layouts: map<string, string>)
    requires s.name != ""
    ensures PlannedFor(AfterSession(t, s, layouts), s) == []
  {
    hide Missing, Added, HasWindow;
    var ws := AfterSession(t, s, layouts).sessions[s.name];
    forall k | 0 <= k < |s.windows| ensures HasWindow(ws, s.windows[k].name) { PushedHas(t, s, layouts, k); }
    MissingSpec(s.windows, ws);
  }

  lemma PushedHas(t: Tree, s: R.ResolvedSession, layouts: map<string, string>, k: nat)
    requires k < |s.windows| && s.name != ""
    ensures HasWindow(AfterSession(t, s, layouts).sessions[s.name], s.windows[k].name)
  {
    hide Added, Missing;
    var cw := s.windows[k];
    var ws := AfterSession(t, s, layouts).sessions[s.name];
    if s.name !in t.sessions {
      AddedName([], s.windows, s.dir, layouts, k);
      assert ws[k].name == cw.name;
    } else {
      var was := t.sessions[s.name];
      MissingSpec(s.windows, was);
      AddedPrefix(was, Missing(s.windows, was), "", layouts);
      if HasWindow(was, cw.name) {
        var i :| 0 <= i < |was| && was[i].name == cw.name;
        assert ws[i].name == cw.name;
      } else {
        var j :| 0 <= j < |Missing(s.windows, was)| && Missing(s.windows, was)[j] == cw;
        AddedName(was, Missing(s.windows, was), "", layouts, j);
        assert ws[|was| + j].name == cw.name;
      }
    }
  }

  /** In the tree after a push every pushed session is as its own push left it. */
  lemma {:induction false} AfterAt(t: Tree, resolved: seq<R.ResolvedSession>, layouts: map<string, string>, i: nat)
    requires Plain(resolved) && i < |resolved|
    ensures var u, v, n := After(t, resolved, layouts), AfterSession(t, resolved[i], layouts), resolved[i].name;
            n in u.sessions && n in v.sessions && u.sessions[n] == v.sessions[n]
    decreases |resolved|
  {
    hide Built, Added, Missing;
    var n := |resolved| - 1;
    if i < n {
      assert resolved[..n][i] == resolved[i];
      AfterAt(t, resolved[..n], layouts, i);
    } else {
      AfterOthers(t, resolved[..n], layouts, resolved[n].name);
    }
  }

  /** A second push finds nothing to create, and a dry run after the first says so. */
  lemma PushTwice(t: Tree, resolved: seq<R.ResolvedSession>, layouts: map<string, string>)
    requires Plain(resolved)
    ensures var u := After(t, resolved, layouts); Planned(u, resolved) == [] && After(u, resolved, layouts) == u
  {
    hide After, AfterSession, PlannedFor;
    var u := After(t, resolved, layouts);
    forall i | 0 <= i < |resolved| ensures PlannedFor(u, resolved[i]) == [] && resolved[i].name in u.sessions {
      AfterAt(t, resolved, layouts, i);
      SessionComplete(t, resolved[i], layouts);
      PlannedSame(u, AfterSession(t, resolved[i], layouts), resolved[i]);
    }
    NothingToDo(u, resolved, layouts);
  }

  lemma PlannedSame(t: Tree, u: Tree, s: R.ResolvedSession)
    requires s.name != "" && s.name in t.sessions && s.name in u.sessions && t.sessions[s.name] == u.sessions[s.name]
    ensures PlannedFor(t, s) == PlannedFor(u, s)
  {
  }

  lemma {:induction false} NothingToDo(t: Tree, resolved: seq<R.ResolvedSession>, layouts: map<string, string>)
    requires forall i :: 0 <= i < |resolved| ==> PlannedFor(t, resolved[i]) == [] && resolved[i].name in t.sessions && resolved[i].name != ""
    ensures Planned(t, resolved) == [] && After(t, resolved, layouts) == t
    decreases |resolved|
  {
    hide PlannedFor, AfterSession;
    if resolved != [] {
      var n := |resolved| - 1;
      NothingToDo(t, resolved[..n], layouts);
      NothingMissing(t, resolved[n], layouts);
    }
  }

  lemma NothingMissing(t: Tree, s: R.ResolvedSession, layouts: map<string, string>)
    requires PlannedFor(t, s) == [] && s.name in t.sessions && s.name != ""
    ensures AfterSession(t, s, layouts) == t
  {
    hide Missing;
    var missing := Missing(s.windows, t.sessions[s.name]);
    assert |Entries(s.name, missing)| == |missing|;
    assert t.sessions[s.name := t.sessions[s.name]] == t.sessions;
  }

  // ---- the drift after a push ------------------------------------------------------------------------------------

  /** The first pane listed for a window index. */
  function FirstPane(ws: seq<Win>, index: nat): Pane {
    if ws == [] then Pane("", "")
    else if ws[0].index == index && ws[0].panes != [] then ws[0].panes[0]
    else FirstPane(ws[1..], index)
  }

  function LiveOf(ws: seq<Win>, w: Win): LiveWindow {
    LiveWindow(w.name, FirstPane(ws, w.index).dir, FirstPane(ws, w.index).command)
  }

  function LiveWindows(ws: seq<Win>): seq<LiveWindow> {
    seq(|ws|, i requires 0 <= i < |ws| => LiveOf(ws, ws[i]))
  }

  /** The live tree as it is compared with the configuration. */
  function Snapshot(t: Tree): seq<LiveSession>
    requires ValidTree(t)
  {
    seq(|t.order|, i requires 0 <= i < |t.order| => assert t.order[i] in t.order; LiveSession(t.order[i], LiveWindows(t.sessions[t.order[i]])))
  }

  lemma {:induction false} FirstPaneAppended(ws: seq<Win>, w: Win, index: nat)
    ensures w.index != index ==> FirstPane(ws + [w], index) == FirstPane(ws, index)
    ensures w.index == index && w.panes != [] && (forall k :: 0 <= k < |ws| ==> ws[k].index != index) ==> FirstPane(ws + [w], index) == w.panes[0]
    decreases |ws|
  {
    if ws == [] {
      assert ws + [w] == [w];
      assert [w][1..] == [];
    } else {
      assert (ws + [w])[1..] == ws[1..] + [w];
      FirstPaneAppended(ws[1..], w, index);
    }
  }

  function Makes(cw: R.ResolvedWindow, enclosing: string): LiveWindow { LiveWindow(cw.name, R.OrElse(cw.dir, enclosing), "") }

  function MakesAll(cws: seq<R.ResolvedWindow>, enclosing: string): seq<LiveWindow> {
    seq(|cws|, k requires 0 <= k < |cws| => Makes(cws[k], enclosing))
  }

  lemma MakesNext(cws: seq<R.ResolvedWindow>, enclosing: string)
    ensures cws == [] ==> MakesAll(cws, enclosing) == []
    ensures cws != [] ==> MakesAll(cws, enclosing) == MakesAll(cws[..|cws| - 1], enclosing) + [Makes(cws[|cws| - 1], enclosing)]
  {
  }

  lemma LaidShows(cw: R.ResolvedWindow, dir: string, index: nat, layouts: map<string, string>)
    ensures var w := Laid(Fresh(cw.name, dir, index), cw, layouts);
            w.name == cw.name && w.index == index && w.panes != [] && w.panes[0] == Pane(dir, "")
  {
  }

  /** Windows that are added show in the snapshot with their configured directory; the others show as before. */
  lemma {:induction false} LiveAdded(ws: seq<Win>, cws: seq<R.ResolvedWindow>, enclosing: string, layouts: map<string, string>)
    ensures LiveWindows(Added(ws, cws, enclosing, layouts)) == LiveWindows(ws) + MakesAll(cws, enclosing)
    decreases |cws|
  {
    hide NextIndex, Laid, LiveWindows, LiveOf, MakesAll;
    MakesNext(cws, enclosing);
    if cws == [] {
      assert MakesAll(cws, enclosing) == [];
    } else {
      var n := |cws| - 1;
      var before := Added(ws, cws[..n], enclosing, layouts);
      var w := Laid(Fresh(cws[n].name, R.OrElse(cws[n].dir, enclosing), NextIndex(before)), cws[n], layouts);
      LaidShows(cws[n], R.OrElse(cws[n].dir, enclosing), NextIndex(before), layouts);
      LiveAdded(ws, cws[..n], enclosing, layouts);
      LiveAppended(before, w);
    }
  }

  lemma LiveAppended(ws: seq<Win>, w: Win)
    requires w.panes != [] && forall k :: 0 <= k < |ws| ==> ws[k].index != w.index
    ensures LiveWindows(ws + [w]) == LiveWindows(ws) + [LiveWindow(w.name, w.panes[0].dir, w.panes[0].command)]
  {
    forall i | 0 <= i < |ws| ensures LiveOf(ws + [w], ws[i]) == LiveOf(ws, ws[i]) { FirstPaneAppended(ws, w, ws[i].index); }
    FirstPaneAppended(ws, w, w.index);
  }

  lemma {:induction false} NamedInBoth(a: seq<LiveWindow>, b: seq<LiveWindow>, name: string)
    ensures WindowNamed(a + b, name) == if WindowNamed(b, name).Some? then WindowNamed(b, name) else WindowNamed(a, name)
    decreases |b|
  {
    if b == [] {
      assert a + b == a;
    } else {
      assert (a + b)[..|a + b| - 1] == a + b[..|b| - 1];
      NamedInBoth(a, b[..|b| - 1], name);
    }
  }

  lemma {:induction false} NamedIn(b: seq<LiveWindow>, name: string)
    ensures WindowNamed(b, name).Some? <==> exists i :: 0 <= i < |b| && b[i].name == name
    ensures WindowNamed(b, name).Some? ==> exists i :: 0 <= i < |b| && b[i].name == name && b[i] == WindowNamed(b, name).value
    decreases |b|
  {
    if b != [] {
      var n := |b| - 1;
      NamedIn(b[..n], name);
      if b[n].name != name && WindowNamed(b[..n], name).Some? {
        var i :| 0 <= i < n && b[..n][i].name == name && b[..n][i] == WindowNamed(b[..n], name).value;
        assert b[i].name == name;
      }
    }
  }

  lemma {:induction false} NewInBoth(session: string, cws: seq<R.ResolvedWindow>, a: seq<LiveWindow>, b: seq<LiveWindow>)
    requires forall i :: 0 <= i < |b| ==> Configured(cws, b[i].name)
    ensures NewDrifts(session, cws, a + b) == NewDrifts(session, cws, a)
    decreases |b|
  {
    hide Configured;
    if b == [] {
      assert a + b == a;
    } else {
      assert (a + b)[..|a + b| - 1] == a + b[..|b| - 1];
      NewInBoth(session, cws, a, b[..|b| - 1]);
    }
  }

  /** A window name that is configured twice stands for the same window both times: a repeated key of the mapping. */
  predicate OneMeaning(cws: seq<R.ResolvedWindow>) {
    forall i, j :: 0 <= i < j < |cws| && cws[i].name == cws[j].name ==> cws[i] == cws[j]
  }

  /** The window found under a configured name: the one that was there, else the one made. */
  lemma NamedAfter(cws: seq<R.ResolvedWindow>, ws: seq<Win>, missing: seq<R.ResolvedWindow>, enclosing: string, k: nat)
    requires OneMeaning(cws) && k < |cws|
    requires cws[k] in missing <==> !HasWindow(ws, cws[k].name)
    requires forall w :: w in missing ==> !HasWindow(ws, w.name) && exists i :: 0 <= i < |cws| && cws[i] == w
    ensures WindowNamed(LiveWindows(ws) + MakesAll(missing, enclosing), cws[k].name)
            == if HasWindow(ws, cws[k].name) then WindowNamed(LiveWindows(ws), cws[k].name) else Some(Makes(cws[k], enclosing))
  {
    hide HasWindow, LiveWindows, WindowNamed;
    var cw, made := cws[k], MakesAll(missing, enclosing);
    NamedInBoth(LiveWindows(ws), made, cw.name);
    NamedIn(made, cw.name);
    if !HasWindow(ws, cw.name) {
      var i :| 0 <= i < |missing| && missing[i] == cw;
      assert made[i].name == cw.name;
    }
    if WindowNamed(made, cw.name).Some? {
      var i :| 0 <= i < |made| && made[i].name == cw.name && made[i] == WindowNamed(made, cw.name).value;
      assert missing[i] in missing;
      var j :| 0 <= j < |cws| && cws[j] == missing[i];
      assert cws[j] == cw;
    }
  }

  /** A window that is missing is made as configured, one that is there is left as it is. */
  lemma WindowAfter(session: string, cws: seq<R.ResolvedWindow>, ws: seq<Win>, missing: seq<R.ResolvedWindow>, enclosing: string, k: nat)
    requires OneMeaning(cws) && k < |cws|
    requires forall i :: 0 <= i < |cws| ==> (cws[i] in missing <==> !HasWindow(ws, cws[i].name))
    requires forall w :: w in missing ==> !HasWindow(ws, w.name) && exists i :: 0 <= i < |cws| && cws[i] == w
    ensures var live := LiveWindows(ws) + MakesAll(missing, enclosing);
            WindowDrift(session, cws[k], live) == if HasWindow(ws, cws[k].name) then WindowDrift(session, cws[k], LiveWindows(ws))
                                                  else Drift(OK, session, cws[k].name, cws[k].dir, R.OrElse(cws[k].dir, enclosing))
  {
    hide HasWindow, LiveWindows, MakesAll, WindowNamed;
    NamedAfter(cws, ws, missing, enclosing, k);
  }

  /** The drift of one session after it was pushed. */
  lemma PushedDrift(t: Tree, s: R.ResolvedSession, layouts: map<string, string>)
    requires OneMeaning(s.windows) && s.name != ""
    ensures var was := if s.name in t.sessions then t.sessions[s.name] else [];
            var enclosing := if s.name in t.sessions then "" else s.dir;
            var live := LiveWindows(AfterSession(t, s, layouts).sessions[s.name]);
            && (forall k :: 0 <= k < |s.windows| ==>
                  WindowDrift(s.name, s.windows[k], live) ==
                    if HasWindow(was, s.windows[k].name) then WindowDrift(s.name, s.windows[k], LiveWindows(was))
                    else Drift(OK, s.name, s.windows[k].name, s.windows[k].dir, R.OrElse(s.windows[k].dir, enclosing)))
            && NewDrifts(s.name, s.windows, live) ==
                 if s.name in t.sessions || s.windows != [] then NewDrifts(s.name, s.windows, LiveWindows(was))
                 else [Drift(New, s.name, s.name, "", s.dir)]
  {
    hide Added, Missing, WindowDrift, HasWindow;
    if s.name !in t.sessions && s.windows == [] {
      EmptySession(s);
    } else {
      var was := if s.name in t.sessions then t.sessions[s.name] else [];
      var enclosing := if s.name in t.sessions then "" else s.dir;
      var missing := Missing(s.windows, was);
      if s.name !in t.sessions { AllMissing(s.windows); }
      assert AfterSession(t, s, layouts).sessions[s.name] == Added(was, missing, enclosing, layouts);
      LiveAdded(was, missing, enclosing, layouts);
      MissingSpec(s.windows, was);
      forall k | 0 <= k < |s.windows| { WindowAfter(s.name, s.windows, was, missing, enclosing, k); }
      var made := MakesAll(missing, enclosing);
      forall i | 0 <= i < |made| ensures Configured(s.windows, made[i].name) {
        assert missing[i] in missing;
        var j :| 0 <= j < |s.windows| && s.windows[j] == missing[i];
      }
      NewInBoth(s.name, s.windows, LiveWindows(was), made);
    }
  }

  lemma EmptySession(s: R.ResolvedSession)
    requires s.windows == []
    ensures NewDrifts(s.name, s.windows, LiveWindows([Fresh(s.name, s.dir, 1)])) == [Drift(New, s.name, s.name, "", s.dir)]
  {
    var live := LiveWindows([Fresh(s.name, s.dir, 1)]);
    assert |live| == 1 && live[0] == LiveWindow(s.name, s.dir, "");
    assert live[..0] == [];
  }

  lemma {:induction false} AllMissing(cws: seq<R.ResolvedWindow>)
    ensures Missing(cws, []) == cws
    decreases |cws|
  {
    if cws != [] { AllMissing(cws[..|cws| - 1]); }
  }

  lemma {:induction false} AfterValid(t: Tree, resolved: seq<R.ResolvedSession>, layouts: map<string, string>)
    requires ValidTree(t)
    ensures ValidTree(After(t, resolved, layouts))
    decreases |resolved|
  {
    hide Built, Added, Missing;
    if resolved != [] {
      var u, s := After(t, resolved[..|resolved| - 1], layouts), resolved[|resolved| - 1];
      AfterValid(t, resolved[..|resolved| - 1], layouts);
      var v := AfterSession(u, s, layouts);
      forall n ensures n in v.order <==> n in v.sessions {
        if s.name !in u.sessions { assert n in v.order <==> n in u.order || n == s.name; }
      }
    }
  }

  lemma {:induction false} NamedInSnapshot(live: seq<LiveSession>, name: string)
    ensures SessionNamed(live, name).Some? <==> exists i :: 0 <= i < |live| && live[i].name == name
    ensures SessionNamed(live, name).Some? ==> exists i :: 0 <= i < |live| && live[i].name == name && live[i] == SessionNamed(live, name).value
    decreases |live|
  {
    if live != [] {
      var n := |live| - 1;
      NamedInSnapshot(live[..n], name);
      if live[n].name != name && SessionNamed(live[..n], name).Some? {
        var i :| 0 <= i < n && live[..n][i].name == name && live[..n][i] == SessionNamed(live[..n], name).value;
        assert live[i].name == name;
      }
    }
  }

  lemma SnapshotNamed(t: Tree, name: string)
    requires ValidTree(t)
    ensures SessionNamed(Snapshot(t), name) == if name in t.sessions then Some(LiveSession(name, LiveWindows(t.sessions[name]))) else None
  {
    hide LiveWindows;
    var live := Snapshot(t);
    NamedInSnapshot(live, name);
    if name in t.sessions {
      assert name in t.order;
      var i :| 0 <= i < |t.order| && t.order[i] == name;
      assert live[i].name == name;
    }
    if SessionNamed(live, name).Some? {
      var i :| 0 <= i < |live| && live[i].name == name && live[i] == SessionNamed(live, name).value;
      assert t.order[i] in t.order;
    }
  }

  predicate EmptyEntry(resolved: seq<R.ResolvedSession>, d: Drift) {
    exists i :: 0 <= i < |resolved| && resolved[i].windows == [] && d == Drift(New, resolved[i].name, resolved[i].name, "", resolved[i].dir)
  }

  /**
   * After a push nothing configured is gone. Every entry of the comparison is fine, or was already reported
   * before, or is the window a session configured without windows was given.
   */
  lemma PushLeavesNoGone(t: Tree, resolved: seq<R.ResolvedSession>, layouts: map<string, string>, d: Drift)
    requires ValidTree(t) && Plain(resolved) && forall i :: 0 <= i < |resolved| ==> OneMeaning(resolved[i].windows)
    requires ValidTree(After(t, resolved, layouts)) && d in Drifts(resolved, Snapshot(After(t, resolved, layouts)))
    ensures d.status != Gone
    ensures d.status == OK || d in Drifts(resolved, Snapshot(t)) || EmptyEntry(resolved, d)
  {
    hide After, AfterSession, Snapshot, SessionDrifts, Drifts, OneMeaning;
    var u := After(t, resolved, layouts);
    DriftsIn(resolved, Snapshot(u), d);
    var i :| 0 <= i < |resolved| && d in SessionDrifts(resolved[i], Snapshot(u));
    AfterAt(t, resolved, layouts, i);
    SessionEntry(t, u, resolved[i], layouts, d);
    if d in SessionDrifts(resolved[i], Snapshot(t)) { DriftsIn(resolved, Snapshot(t), d); }
  }

  /** A session that is shown is compared window by window; one that is not has none to compare. */
  lemma EntriesOf(t: Tree, s: R.ResolvedSession, d: Drift)
    requires ValidTree(t) && s.name in t.sessions
    ensures var live := LiveWindows(t.sessions[s.name]);
            d in SessionDrifts(s, Snapshot(t)) <==>
              d in NewDrifts(s.name, s.windows, live)
              || exists k :: 0 <= k < |s.windows| && d == WindowDrift(s.name, s.windows[k], live)
  {
    hide Snapshot, LiveWindows, NewDrifts, WindowDrift;
    SnapshotNamed(t, s.name);
    var config := ConfigDrifts(s.name, s.windows, LiveWindows(t.sessions[s.name]));
    if k :| 0 <= k < |s.windows| && d == WindowDrift(s.name, s.windows[k], LiveWindows(t.sessions[s.name])) { assert config[k] == d; }
  }

  lemma SessionEntry(t: Tree, u: Tree, s: R.ResolvedSession, layouts: map<string, string>, d: Drift)
    requires ValidTree(t) && ValidTree(u) && OneMeaning(s.windows) && s.name != ""
    requires s.name in u.sessions && s.name in AfterSession(t, s, layouts).sessions
    requires u.sessions[s.name] == AfterSession(t, s, layouts).sessions[s.name] && d in SessionDrifts(s, Snapshot(u))
    ensures d.status != Gone
    ensures d.status == OK || d in SessionDrifts(s, Snapshot(t))
            || (s.windows == [] && d == Drift(New, s.name, s.name, "", s.dir))
  {
    hide AfterSession, Snapshot, LiveWindows, OneMeaning, SessionDrifts, NewDrifts, HasWindow;
    var was := if s.name in t.sessions then t.sessions[s.name] else [];
    PushedDrift(t, s, layouts);
    EntriesOf(u, s, d);
    if s.name in t.sessions { EntriesOf(t, s, d); } else { NoneLive(s); }
    var live := LiveWindows(u.sessions[s.name]);
    if d in NewDrifts(s.name, s.windows, live) {
      NewOnly(s.name, s.windows, live, d);
    } else {
      var k :| 0 <= k < |s.windows| && d == WindowDrift(s.name, s.windows[k], live);
      if HasWindow(was, s.windows[k].name) { StillThere(was, s.windows[k].name); }
    }
  }

  lemma StillThere(ws: seq<Win>, name: string)
    requires HasWindow(ws, name)
    ensures WindowNamed(LiveWindows(ws), name).Some?
  {
    var i :| 0 <= i < |ws| && ws[i].name == name;
    assert LiveWindows(ws)[i].name == name;
    NamedIn(LiveWindows(ws), name);
  }

  lemma NoneLive(s: R.ResolvedSession)
    ensures LiveWindows([]) == [] && NewDrifts(s.name, s.windows, []) == []
    ensures forall name :: !HasWindow([], name)
  {
  }

  lemma {:induction false} NewOnly(session: string, cws: seq<R.ResolvedWindow>, live: seq<LiveWindow>, d: Drift)
    requires d in NewDrifts(session, cws, live)
    ensures d.status == New
    decreases |live|
  {
    hide Configured;
    if d in NewDrifts(session, cws, live[..|live| - 1]) { NewOnly(session, cws, live[..|live| - 1], d); }
  }
}
