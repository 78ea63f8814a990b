/**
 * What a push makes of a session, told from the configuration alone.
 * (internal/actions/create.go, internal/actions/sync.go)
 */
module Created {
  import opened Text
  import opened Sync
  import R = Resolver

  /** How many panes a layout has: as its name says, or as many as are configured for a layout of one's own. */
  function PaneCount(cw: R.ResolvedWindow): nat {
    match cw.layout
    case "" => 1
    case "1-pane" => 1
    case "2-pane" => 2
    case "3-pane" => 3
    case _ => if |cw.panes| < 2 then 1 else |cw.panes|
  }

  /** The window as configured: name, directory of every pane, number of panes and layout. */
  predicate AsConfigured(cw: R.ResolvedWindow, enclosing: string, layouts: map<string, string>, w: Win) {
    && w.name == cw.name && |w.panes| == PaneCount(cw)
    && (forall i :: 0 <= i < |w.panes| ==> w.panes[i].dir == (if cw.dir != "" then cw.dir else enclosing) && w.panes[i].command == "")
    && (cw.layout in {"", "1-pane", "2-pane"} ==> w.layout == "") && (cw.layout == "3-pane" ==> w.layout == "main-vertical")
    && (cw.layout !in {"", "1-pane", "2-pane", "3-pane"} && cw.layout in layouts ==> w.layout == layouts[cw.layout])
  }

  lemma LaidAsConfigured(cw: R.ResolvedWindow, enclosing: string, index: nat, layouts: map<string, string>)
    ensures AsConfigured(cw, enclosing, layouts, Laid(Fresh(cw.name, R.OrElse(cw.dir, enclosing), index), cw, layouts))
    ensures Laid(Fresh(cw.name, R.OrElse(cw.dir, enclosing), index), cw, layouts).index == index
  {
  }

  /** The indexes go on from the greatest there is, one by one. */
  predicate NumberedOn(ws: seq<Win>, r: seq<Win>) {
    && (forall i :: |ws| <= i < |r| ==> forall j :: 0 <= j < i ==> r[j].index < r[i].index)
    && (forall i :: |ws| < i < |r| ==> r[i].index == r[i - 1].index + 1)
    && (ws == [] && r != [] ==> r[0].index == 1)
  }

  lemma {:induction false} NextAfter(ws: seq<Win>)
    ensures ws == [] ==> NextIndex(ws) == 1
    ensures NextIndex(ws) == 1 || exists j :: 0 <= j < |ws| && NextIndex(ws) <= ws[j].index + 1
  {
    if ws != [] {
      var n := |ws| - 1;
      NextAfter(ws[..n]);
      if ws[n].index < NextIndex(ws[..n]) && n > 0 {
        if NextIndex(ws[..n]) != 1 {
          var j :| 0 <= j < n && NextIndex(ws[..n]) <= ws[..n][j].index + 1;
          assert ws[j] == ws[..n][j];
        }
      }
      assert NextIndex(ws) <= ws[n].index + 1 || NextIndex(ws) == NextIndex(ws[..n]);
    }
  }

  /** The windows there stay in front, and each window to be added follows in order, as configured. */
  lemma {:induction false} AddedAsConfigured(ws: seq<Win>, cws: seq<R.ResolvedWindow>, enclosing: string, layouts: map<string, string>)
    ensures var r := Added(ws, cws, enclosing, layouts);
            && |r| == |ws| + |cws| && ws <= r && NumberedOn(ws, r)
            && forall i :: 0 <= i < |cws| ==> AsConfigured(cws[i], enclosing, layouts, r[|ws| + i])
    decreases |cws|
  {
    hide AsConfigured, Laid, NumberedOn, NextIndex;
    if cws == [] {
      NothingMore(ws);
    } else {
      var n := |cws| - 1;
      var before := Added(ws, cws[..n], enclosing, layouts);
      var w := Laid(Fresh(cws[n].name, R.OrElse(cws[n].dir, enclosing), NextIndex(before)), cws[n], layouts);
      AddedAsConfigured(ws, cws[..n], enclosing, layouts);
      LaidAsConfigured(cws[n], enclosing, NextIndex(before), layouts);
      OneMore(ws, before, w);
      forall i | 0 <= i < |cws| ensures AsConfigured(cws[i], enclosing, layouts, (before + [w])[|ws| + i]) {
        if i < n { assert cws[..n][i] == cws[i]; }
      }
    }
  }

  lemma NothingMore(ws: seq<Win>)
    ensures NumberedOn(ws, ws)
  {
  }

  lemma OneMore(ws: seq<Win>, before: seq<Win>, w: Win)
    requires NumberedOn(ws, before) && ws <= before && w.index == NextIndex(before)
    ensures NumberedOn(ws, before + [w])
  {
    hide NextIndex;
    NextAfter(before);
    if |before| > |ws| { Highest(ws, before); }
  }

  lemma Highest(ws: seq<Win>, r: seq<Win>)
    requires NumberedOn(ws, r) && |ws| < |r|
    ensures NextIndex(r) == r[|r| - 1].index + 1
  {
    var n := |r| - 1;
    NextAfter(r);
    assert r[n].index < NextIndex(r);
  }

  /** What is missing: the configured windows, in order, of which none of that name is there. */
  lemma {:induction false} MissingSplit(a: seq<R.ResolvedWindow>, b: seq<R.ResolvedWindow>, ws: seq<Win>)
    ensures Missing(a + b, ws) == Missing(a, ws) + Missing(b, ws)
    decreases |b|
  {
    hide HasWindow;
    if b == [] {
      assert a + b == a;
    } else {
      var n := |b| - 1;
      assert (a + b)[..|a + b| - 1] == a + b[..n];
      MissingSplit(a, b[..n], ws);
    }
  }

  /**
   * A pushed session: if it was not there it has its configured windows in order, or one of its own name if there are
   * none; if it was, its windows stay and the missing ones follow. Each of them is as configured and numbered on.
   */
  lemma SessionAsConfigured(t: Tree, resolved: seq<R.ResolvedSession>, layouts: map<string, string>, i: nat)
    requires Plain(resolved) && i < |resolved|
    ensures var s := resolved[i];
            var u := After(t, resolved, layouts);
            && s.name in u.sessions
            && var was := if s.name in t.sessions then t.sessions[s.name] else [];
               var wanted := Missing(s.windows, was);
               var r := u.sessions[s.name];
               && (s.name !in t.sessions ==> wanted == s.windows)
               && was <= r && NumberedOn(was, r)
               && (if s.name !in t.sessions && s.windows == [] then r == [Win(s.name, 1, "", [Pane(s.dir, "")])]
                   else |r| == |was| + |wanted|
                        && forall k :: 0 <= k < |wanted| ==> AsConfigured(wanted[k], if s.name in t.sessions then "" else s.dir, layouts, r[|was| + k]))
  {
    hide Added, Missing, AsConfigured, After;
    var s := resolved[i];
    AfterAt(t, resolved, layouts, i);
    if s.name in t.sessions {
      AddedAsConfigured(t.sessions[s.name], Missing(s.windows, t.sessions[s.name]), "", layouts);
    } else {
      AllMissing(s.windows);
      AddedAsConfigured([], s.windows, s.dir, layouts);
    }
  }
}
