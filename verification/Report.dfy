/**
 * What the comparison of a configuration with the live tree reports, told entry by entry.
 * (internal/config/diff.go)
 */
module Report {
  import opened Text
  import opened Roots
  import R = Resolver
  import opened Diff

  // ---- what there is to compare --------------------------------------------------------------------

  /** Of several live sessions of one name the last counts. */
  predicate LastSession(live: seq<LiveSession>, k: int, name: string) {
    0 <= k < |live| && live[k].name == name && forall m :: k < m < |live| ==> live[m].name != name
  }

  predicate LastWindow(ws: seq<LiveWindow>, k: int, name: string) {
    0 <= k < |ws| && ws[k].name == name && forall m :: k < m < |ws| ==> ws[m].name != name
  }

  predicate Running(live: seq<LiveSession>, session: string) {
    exists k :: 0 <= k < |live| && live[k].name == session
  }

  /** The live window of that name in the live session of that name. */
  ghost predicate Shows(live: seq<LiveSession>, session: string, window: string, lw: LiveWindow) {
    exists k, m :: LastSession(live, k, session) && LastWindow(live[k].windows, m, window) && live[k].windows[m] == lw
  }

  predicate Wanted(resolved: seq<R.ResolvedSession>, session: string, cw: R.ResolvedWindow) {
    exists i :: 0 <= i < |resolved| && resolved[i].name == session && cw in resolved[i].windows
  }

  /** Both directories are known and differ, or both commands are. */
  predicate Disagree(cw: R.ResolvedWindow, lw: LiveWindow) {
    (cw.dir != "" && lw.dir != "" && cw.dir != lw.dir) || (cw.command != "" && lw.command != "" && cw.command != lw.command)
  }

  /** The live window is in a configured session that does not configure it. */
  ghost predicate Unknown(resolved: seq<R.ResolvedSession>, live: seq<LiveSession>, session: string, lw: LiveWindow) {
    exists i, k :: 0 <= i < |resolved| && resolved[i].name == session && LastSession(live, k, session)
                   && lw in live[k].windows && !Configured(resolved[i].windows, lw.name)
  }

  /** An entry of the report: which windows it is about, and when it is made. */
  ghost predicate Reported(resolved: seq<R.ResolvedSession>, live: seq<LiveSession>, d: Drift) {
    match d.status
    case OK =>
      exists cw, lw :: Wanted(resolved, d.session, cw) && Shows(live, d.session, cw.name, lw) && !Disagree(cw, lw)
                       && d == Drift(OK, d.session, cw.name, cw.dir, lw.dir)
    case Drifted =>
      exists cw, lw :: Wanted(resolved, d.session, cw) && Shows(live, d.session, cw.name, lw) && Disagree(cw, lw)
                       && d == Drift(Drifted, d.session, cw.name, cw.dir, lw.dir)
    case Gone =>
      || (exists cw :: Wanted(resolved, d.session, cw) && (forall lw :: !Shows(live, d.session, cw.name, lw))
                       && d == Drift(Gone, d.session, cw.name, cw.dir, ""))
      || (!Running(live, d.session) && d == Drift(Gone, d.session, "", "", "")
          && exists i :: 0 <= i < |resolved| && resolved[i].name == d.session && resolved[i].windows == [])
    case New =>
      exists lw :: Unknown(resolved, live, d.session, lw) && d == Drift(New, d.session, lw.name, "", lw.dir)
  }

  // ---- the lookups ------------------------------------------------------------------------------------

  lemma {:induction false} SessionNamedIs(live: seq<LiveSession>, name: string)
    ensures SessionNamed(live, name).None? <==> !Running(live, name)
    ensures SessionNamed(live, name).Some? ==> exists k :: LastSession(live, k, name) && live[k] == SessionNamed(live, name).value
  {
    if live != [] {
      var n := |live| - 1;
      SessionNamedIs(live[..n], name);
      if live[n].name == name {
        assert LastSession(live, n, name);
      } else if SessionNamed(live, name).Some? {
        var k :| LastSession(live[..n], k, name) && live[..n][k] == SessionNamed(live, name).value;
        assert LastSession(live, k, name);
      } else {
        forall k | 0 <= k < |live| ensures live[k].name != name { assert k < n ==> live[..n][k].name != name; }
      }
    }
  }

  lemma {:induction false} WindowNamedIs(ws: seq<LiveWindow>, name: string)
    ensures WindowNamed(ws, name).None? <==> forall k :: 0 <= k < |ws| ==> ws[k].name != name
    ensures WindowNamed(ws, name).Some? ==> exists k :: LastWindow(ws, k, name) && ws[k] == WindowNamed(ws, name).value
  {
    if ws != [] {
      var n := |ws| - 1;
      WindowNamedIs(ws[..n], name);
      if ws[n].name == name {
        assert LastWindow(ws, n, name);
      } else if WindowNamed(ws, name).Some? {
        var k :| LastWindow(ws[..n], k, name) && ws[..n][k] == WindowNamed(ws, name).value;
        assert LastWindow(ws, k, name);
      } else {
        forall k | 0 <= k < |ws| ensures ws[k].name != name { assert k < n ==> ws[..n][k].name != name; }
      }
    }
  }

  lemma OneLast(live: seq<LiveSession>, j: int, k: int, name: string)
    requires LastSession(live, j, name) && LastSession(live, k, name)
    ensures j == k
  {
  }

  /** The lookup by session and then by window finds exactly the window shown. */
  lemma ShowsIs(live: seq<LiveSession>, session: string, window: string, lw: LiveWindow)
    ensures Shows(live, session, window, lw)
            <==> SessionNamed(live, session).Some? && WindowNamed(SessionNamed(live, session).value.windows, window) == Some(lw)
  {
    hide SessionNamed, WindowNamed;
    SessionNamedIs(live, session);
    ShowsRuns(live, session, window, lw);
    if SessionNamed(live, session).Some? {
      var k :| LastSession(live, k, session) && live[k] == SessionNamed(live, session).value;
      WindowNamedIs(live[k].windows, window);
      if Shows(live, session, window, lw) {
        var j, m :| LastSession(live, j, session) && LastWindow(live[j].windows, m, window) && live[j].windows[m] == lw;
        OneLast(live, j, k, session);
        var n :| LastWindow(live[k].windows, n, window) && live[k].windows[n] == WindowNamed(live[k].windows, window).value;
      }
      if WindowNamed(live[k].windows, window) == Some(lw) {
        var n :| LastWindow(live[k].windows, n, window) && live[k].windows[n] == lw;
        assert LastSession(live, k, session) && LastWindow(live[k].windows, n, window);
      }
    }
  }

  lemma ShowsRuns(live: seq<LiveSession>, session: string, window: string, lw: LiveWindow)
    ensures Shows(live, session, window, lw) ==> Running(live, session)
  {
  }

  // ---- one session -----------------------------------------------------------------------------------------

  /** An entry about a configured window; `gone` without a live one, else by whether they disagree. */
  predicate EntryFor(session: string, cw: R.ResolvedWindow, found: Option<LiveWindow>, d: Drift) {
    match found
    case None => d == Drift(Gone, session, cw.name, cw.dir, "")
    case Some(lw) => d == Drift(if Disagree(cw, lw) then Drifted else OK, session, cw.name, cw.dir, lw.dir)
  }

  lemma WindowDriftIs(session: string, cw: R.ResolvedWindow, live: seq<LiveWindow>, d: Drift)
    ensures d == WindowDrift(session, cw, live) <==> EntryFor(session, cw, WindowNamed(live, cw.name), d)
  {
    hide WindowNamed;
  }

  lemma {:induction false} NewDriftsIs(session: string, ws: seq<R.ResolvedWindow>, live: seq<LiveWindow>, d: Drift)
    ensures d in NewDrifts(session, ws, live) <==> exists lw :: lw in live && !Configured(ws, lw.name) && d == Drift(New, session, lw.name, "", lw.dir)
  {
    hide Configured;
    if live != [] {
      var n := |live| - 1;
      NewDriftsIs(session, ws, live[..n], d);
      assert live == live[..n] + [live[n]];
    }
  }

  /** The entries of one configured session. */
  ghost predicate SessionReported(s: R.ResolvedSession, live: seq<LiveSession>, d: Drift) {
    match SessionNamed(live, s.name)
    case None =>
      || (exists cw :: cw in s.windows && d == Drift(Gone, s.name, cw.name, cw.dir, ""))
      || (s.windows == [] && d == Drift(Gone, s.name, "", "", ""))
    case Some(ls) =>
      || (exists cw :: cw in s.windows && EntryFor(s.name, cw, WindowNamed(ls.windows, cw.name), d))
      || (exists lw :: lw in ls.windows && !Configured(s.windows, lw.name) && d == Drift(New, s.name, lw.name, "", lw.dir))
  }

  lemma SessionDriftsIs(s: R.ResolvedSession, live: seq<LiveSession>, d: Drift)
    ensures d in SessionDrifts(s, live) <==> SessionReported(s, live, d)
  {
    hide SessionNamed, WindowNamed, WindowDrift, NewDrifts, Configured, EntryFor;
    var found := SessionNamed(live, s.name);
    if found.None? {
      var all := GoneDrifts(s);
      if s.windows != [] {
        assert forall i :: 0 <= i < |all| ==> s.windows[i] in s.windows && all[i] == Drift(Gone, s.name, s.windows[i].name, s.windows[i].dir, "");
        if cw :| cw in s.windows && d == Drift(Gone, s.name, cw.name, cw.dir, "") {
          var i :| 0 <= i < |s.windows| && s.windows[i] == cw;
          assert all[i] == d;
        }
      }
    } else {
      var ws := found.value.windows;
      var all := ConfigDrifts(s.name, s.windows, ws);
      NewDriftsIs(s.name, s.windows, ws, d);
      forall cw ensures d == WindowDrift(s.name, cw, ws) <==> EntryFor(s.name, cw, WindowNamed(ws, cw.name), d) { WindowDriftIs(s.name, cw, ws, d); }
      if d in all {
        var i :| 0 <= i < |all| && all[i] == d;
        assert s.windows[i] in s.windows && d == WindowDrift(s.name, s.windows[i], ws);
      }
      if cw :| cw in s.windows && EntryFor(s.name, cw, WindowNamed(ws, cw.name), d) {
        var i :| 0 <= i < |s.windows| && s.windows[i] == cw;
        assert all[i] == WindowDrift(s.name, cw, ws) == d;
      }
    }
  }

  lemma {:induction false} DriftsIs(resolved: seq<R.ResolvedSession>, live: seq<LiveSession>, d: Drift)
    ensures d in Drifts(resolved, live) <==> exists s :: s in resolved && SessionReported(s, live, d)
  {
    hide SessionDrifts, SessionReported;
    if resolved != [] {
      var n := |resolved| - 1;
      DriftsIs(resolved[..n], live, d);
      SessionDriftsIs(resolved[n], live, d);
      assert resolved == resolved[..n] + [resolved[n]];
    }
  }

  // ---- the whole report ---------------------------------------------------------------------------------

  lemma FoundShows(live: seq<LiveSession>, session: string, window: string)
    ensures var found := SessionNamed(live, session);
            var w := if found.None? then None else WindowNamed(found.value.windows, window);
            && (forall lw :: Shows(live, session, window, lw) <==> w == Some(lw))
            && (found.None? <==> !Running(live, session))
  {
    hide SessionNamed, WindowNamed, Shows, Running;
    SessionNamedIs(live, session);
    forall lw ensures Shows(live, session, window, lw)
                      <==> SessionNamed(live, session).Some? && WindowNamed(SessionNamed(live, session).value.windows, window) == Some(lw)
    {
      ShowsIs(live, session, window, lw);
    }
  }

  lemma SessionEntries(resolved: seq<R.ResolvedSession>, live: seq<LiveSession>, s: R.ResolvedSession, d: Drift)
    requires s in resolved && SessionReported(s, live, d)
    ensures Reported(resolved, live, d)
  {
    hide SessionNamed, WindowNamed, Shows, Running, Configured, Disagree;
    var i :| 0 <= i < |resolved| && resolved[i] == s;
    SessionNamedIs(live, s.name);
    forall cw: R.ResolvedWindow | cw in s.windows ensures Wanted(resolved, s.name, cw) { assert resolved[i].name == s.name; }
    if SessionNamed(live, s.name).None? {
      if cw :| cw in s.windows && d == Drift(Gone, s.name, cw.name, cw.dir, "") {
        FoundShows(live, s.name, cw.name);
        assert Wanted(resolved, d.session, cw);
      }
    } else {
      var ls := SessionNamed(live, s.name).value;
      if cw :| cw in s.windows && EntryFor(s.name, cw, WindowNamed(ls.windows, cw.name), d) {
        FoundShows(live, s.name, cw.name);
        assert Wanted(resolved, d.session, cw);
        if WindowNamed(ls.windows, cw.name).Some? {
          var lw := WindowNamed(ls.windows, cw.name).value;
          assert Shows(live, d.session, cw.name, lw);
        }
      } else {
        var lw :| lw in ls.windows && !Configured(s.windows, lw.name) && d == Drift(New, s.name, lw.name, "", lw.dir);
        var k :| LastSession(live, k, s.name) && live[k] == ls;
        assert Unknown(resolved, live, d.session, lw);
      }
    }
  }

  lemma EntriesOfSession(resolved: seq<R.ResolvedSession>, live: seq<LiveSession>, d: Drift)
    requires Reported(resolved, live, d)
    ensures exists s :: s in resolved && SessionReported(s, live, d)
  {
    hide SessionNamed, WindowNamed, Shows, Running, Configured, Disagree;
    SessionNamedIs(live, d.session);
    match d.status
    case New =>
      var lw :| Unknown(resolved, live, d.session, lw) && d == Drift(New, d.session, lw.name, "", lw.dir);
      var i, k :| 0 <= i < |resolved| && resolved[i].name == d.session && LastSession(live, k, d.session)
                  && lw in live[k].windows && !Configured(resolved[i].windows, lw.name);
      LastRuns(live, k, d.session);
      assert resolved[i] in resolved && SessionReported(resolved[i], live, d);
    case Gone =>
      if cw :| Wanted(resolved, d.session, cw) && (forall lw :: !Shows(live, d.session, cw.name, lw)) && d == Drift(Gone, d.session, cw.name, cw.dir, "") {
        FoundShows(live, d.session, cw.name);
        WantedIn(resolved, live, cw, d);
      } else {
        var i :| 0 <= i < |resolved| && resolved[i].name == d.session && resolved[i].windows == [];
        assert resolved[i] in resolved && SessionReported(resolved[i], live, d);
      }
    case _ =>
      var cw, lw :| Wanted(resolved, d.session, cw) && Shows(live, d.session, cw.name, lw) && (Disagree(cw, lw) <==> d.status == Drifted)
                    && d == Drift(d.status, d.session, cw.name, cw.dir, lw.dir);
      FoundShows(live, d.session, cw.name);
      WantedIn(resolved, live, cw, d);
  }

  lemma LastRuns(live: seq<LiveSession>, k: int, name: string)
    requires LastSession(live, k, name)
    ensures SessionNamed(live, name) == Some(live[k])
  {
    hide SessionNamed;
    SessionNamedIs(live, name);
    assert Running(live, name);
    var j :| LastSession(live, j, name) && live[j] == SessionNamed(live, name).value;
    OneLast(live, j, k, name);
  }

  /** An entry the lookup makes for a configured window is reported for its session. */
  lemma WantedIn(resolved: seq<R.ResolvedSession>, live: seq<LiveSession>, cw: R.ResolvedWindow, d: Drift)
    requires Wanted(resolved, d.session, cw)
    requires var found := SessionNamed(live, d.session);
             EntryFor(d.session, cw, if found.None? then None else WindowNamed(found.value.windows, cw.name), d)
    ensures exists s :: s in resolved && SessionReported(s, live, d)
  {
    hide SessionNamed, WindowNamed, Disagree;
    var i :| 0 <= i < |resolved| && resolved[i].name == d.session && cw in resolved[i].windows;
    assert resolved[i] in resolved && SessionReported(resolved[i], live, d);
  }

  /**
   * Exactly what is reported. A configured window is gone if nothing of its name is live, drifted if it is live and
   * both directories, or both commands, are known and differ, and ok otherwise; a live window of a configured session
   * is new if it is not configured; a configured session without windows is gone if it is not running. Sessions that
   * are not configured are not reported.
   */
  lemma CompareMeans(resolved: seq<R.ResolvedSession>, live: seq<LiveSession>, d: Drift)
    ensures d in Drifts(resolved, live) <==> Reported(resolved, live, d)
  {
    hide Drifts, SessionReported, Reported;
    DriftsIs(resolved, live, d);
    if s :| s in resolved && SessionReported(s, live, d) { SessionEntries(resolved, live, s, d); }
    if Reported(resolved, live, d) { EntriesOfSession(resolved, live, d); }
  }

  predicate InOrder(ws: seq<R.ResolvedWindow>, ds: seq<Drift>) {
    && |ds| >= |ws|
    && (forall i :: 0 <= i < |ws| ==> ds[i].window == ws[i].name && ds[i].status != New)
    && (forall i :: |ws| <= i < |ds| ==> ds[i].status == New)
  }

  /** The entries come session by session; of a running session first its configured windows in order, then the new ones. */
  lemma ReportOrder(resolved: seq<R.ResolvedSession>, s: R.ResolvedSession, live: seq<LiveSession>)
    ensures Drifts(resolved + [s], live) == Drifts(resolved, live) + SessionDrifts(s, live)
    ensures forall i :: 0 <= i < |SessionDrifts(s, live)| ==> SessionDrifts(s, live)[i].session == s.name
    ensures s.windows != [] || Running(live, s.name) ==> InOrder(s.windows, SessionDrifts(s, live))
  {
    hide SessionNamed, WindowNamed;
    assert (resolved + [s])[..|resolved|] == resolved;
    SessionNamedIs(live, s.name);
    if SessionNamed(live, s.name).Some? { OnlyNew(s.name, s.windows, SessionNamed(live, s.name).value.windows); }
  }

  lemma {:induction false} OnlyNew(session: string, ws: seq<R.ResolvedWindow>, live: seq<LiveWindow>)
    ensures forall i :: 0 <= i < |NewDrifts(session, ws, live)| ==> NewDrifts(session, ws, live)[i].status == New && NewDrifts(session, ws, live)[i].session == session
  {
    hide Configured;
    if live != [] { OnlyNew(session, ws, live[..|live| - 1]); }
  }
}
