/**
 * Views of the link table the active-window protocol reads, and what pruning does to links and
 * rows. (internal/actions/active.go, internal/actions/active_classify.go, internal/actions/active_sweep.go)
 */
module Active {
  import opened Text
  import opened Tmux
  import opened Rows

  // ---- one window's links ------------------------------------------------------------------

  predicate HasActive(links: Links, window: string) { Linked(links, ACTIVE, window) }

  predicate HasSource(links: Links, window: string) { LinkedElsewhere(links, ACTIVE, window) }

  datatype LinkSet = LinkSet(hasActive: bool, sources: seq<Link>)

  predicate Before(a: Link, b: Link) {
    Less(a.session, b.session) || (a.session == b.session && a.index < b.index)
  }

  function InsertSource(l: Link, sources: seq<Link>): seq<Link> {
    if sources == [] || Before(l, sources[0]) then [l] + sources else [sources[0]] + InsertSource(l, sources[1..])
  }

  /** The window's alias in the active session, and its other links by session and index. */
  function ForWindow(links: Links, window: string): LinkSet {
    if links == [] then LinkSet(false, [])
    else
      var rest := ForWindow(links[1..], window);
      if links[0].window != window then rest
      else if links[0].session == ACTIVE then rest.(hasActive := true)
      else rest.(sources := InsertSource(links[0], rest.sources))
  }

  lemma {:induction false} InsertSourceSpec(l: Link, sources: seq<Link>)
    ensures forall x :: x in InsertSource(l, sources) <==> x == l || x in sources
    ensures |InsertSource(l, sources)| == |sources| + 1
  {
    hide Before;
    if sources != [] && !Before(l, sources[0]) {
      InsertSourceSpec(l, sources[1..]);
      assert sources == [sources[0]] + sources[1..];
    }
  }

  lemma HasCons(links: Links, window: string)
    requires links != []
    ensures HasActive(links, window) <==> (links[0].session == ACTIVE && links[0].window == window) || HasActive(links[1..], window)
    ensures HasSource(links, window) <==> (links[0].session != ACTIVE && links[0].window == window) || HasSource(links[1..], window)
  {
    var t := links[1..];
    assert forall i :: 0 <= i < |t| ==> t[i] == links[i + 1];
    if i :| 0 <= i < |links| && links[i].session == ACTIVE && links[i].window == window { assert i > 0 ==> t[i - 1] == links[i]; }
    if i :| 0 <= i < |links| && links[i].session != ACTIVE && links[i].window == window { assert i > 0 ==> t[i - 1] == links[i]; }
    if i :| 0 <= i < |t| && t[i].session == ACTIVE && t[i].window == window { assert links[i + 1] == t[i]; }
    if i :| 0 <= i < |t| && t[i].session != ACTIVE && t[i].window == window { assert links[i + 1] == t[i]; }
  }

  lemma {:induction false} ForWindowSpec(links: Links, window: string)
    ensures ForWindow(links, window).hasActive <==> HasActive(links, window)
    ensures ForWindow(links, window).sources != [] <==> HasSource(links, window)
    ensures forall l :: l in ForWindow(links, window).sources <==> l in links && l.window == window && l.session != ACTIVE
  {
    hide InsertSource, HasActive, HasSource;
    if links == [] {
      NothingHas(window);
    } else {
      var t := links[1..];
      ForWindowSpec(t, window);
      HasCons(links, window);
      assert links == [links[0]] + t;
      InsertSourceSpec(links[0], ForWindow(t, window).sources);
    }
  }

  lemma NothingHas(window: string)
    ensures !HasActive([], window) && !HasSource([], window)
  {
  }

  /** The sources come by session and, within it, by index. */
  predicate Ordered(sources: seq<Link>) {
    forall i, j :: 0 <= i < j < |sources| ==> !Before(sources[j], sources[i])
  }

  lemma BeforeTotal(a: Link, b: Link, c: Link)
    ensures !(Before(a, b) && Before(b, a))
    ensures Before(a, b) && !Before(c, b) ==> !Before(c, a)
  {
    hide Less;
    LessIrreflexive(a.session);
    if Less(a.session, b.session) && Less(b.session, a.session) { LessTransitive(a.session, b.session, a.session); }
    if Less(c.session, a.session) && Less(a.session, b.session) { LessTransitive(c.session, a.session, b.session); }
  }

  lemma {:induction false} InsertOrdered(l: Link, sources: seq<Link>)
    requires Ordered(sources)
    ensures Ordered(InsertSource(l, sources))
  {
    hide Before;
    if sources != [] {
      var t, r := sources[1..], InsertSource(l, sources);
      if Before(l, sources[0]) {
        forall j | 0 < j < |r| ensures !Before(r[j], l) {
          BeforeTotal(l, sources[0], r[j]);
          if j > 1 { assert r[j] == sources[j - 1]; }
        }
      } else {
        assert forall i :: 0 <= i < |t| ==> t[i] == sources[i + 1];
        InsertOrdered(l, t);
        InsertSourceSpec(l, t);
        forall j | 0 < j < |r| ensures !Before(r[j], sources[0]) { assert r[j] in InsertSource(l, t); }
      }
    }
  }

  lemma {:induction false} ForWindowOrdered(links: Links, window: string)
    ensures Ordered(ForWindow(links, window).sources)
  {
    hide InsertSource;
    if links == [] {
      assert ForWindow(links, window).sources == [];
    } else {
      ForWindowOrdered(links[1..], window);
      InsertOrdered(links[0], ForWindow(links[1..], window).sources);
    }
  }

  /** The first source, or the first in the session asked for. */
  function SourceFor(sources: seq<Link>, session: string): Option<Link> {
    if sources == [] then None
    else if session == "" || sources[0].session == session then Some(sources[0])
    else SourceFor(sources[1..], session)
  }

  lemma {:induction false} SourceForSpec(sources: seq<Link>, session: string)
    requires Ordered(sources)
    ensures SourceFor(sources, session).None? <==> forall l :: l in sources ==> session != "" && l.session != session
    ensures SourceFor(sources, session).Some? ==>
              var x := SourceFor(sources, session).value;
              && x in sources && (session != "" ==> x.session == session)
              && forall l :: l in sources && (session != "" ==> l.session == session) ==> !Before(l, x)
  {
    hide Before;
    if sources != [] {
      var t, first := sources[1..], sources[0];
      assert forall i :: 0 <= i < |t| ==> t[i] == sources[i + 1];
      assert sources == [first] + t;
      SourceForSpec(t, session);
      if session == "" || first.session == session {
        BeforeTotal(first, first, first);
        forall l | l in sources ensures !Before(l, first) {
          var j :| 0 <= j < |sources| && sources[j] == l;
        }
        assert first in sources;
      }
    }
  }

  // ---- removing aliases ----------------------------------------------------------------------

  /** The links without the aliases of these windows. */
  function Without(links: Links, windows: set<string>): Links {
    if links == [] then []
    else if links[0].session == ACTIVE && links[0].window in windows then Without(links[1..], windows)
    else [links[0]] + Without(links[1..], windows)
  }

  lemma {:induction false} WithoutOne(links: Links, windows: set<string>, window: string)
    ensures Unlinked(Without(links, windows), ACTIVE, window) == Without(links, windows + {window})
  {
    if links != [] { WithoutOne(links[1..], windows, window); }
  }

  lemma TailActive(links: Links, window: string)
    requires links != []
    ensures HasActive(links[1..], window) ==> HasActive(links, window)
  {
    assert forall i :: 0 <= i < |links| - 1 ==> links[1..][i] == links[i + 1];
  }

  lemma {:induction false} WithoutNone(links: Links, windows: set<string>)
    requires forall w :: w in windows ==> !HasActive(links, w)
    ensures Without(links, windows) == links
  {
    if links != [] {
      var t := links[1..];
      forall w | w in windows ensures !HasActive(t, w) { TailActive(links, w); }
      WithoutNone(t, windows);
      if links[0].session == ACTIVE { assert HasActive(links, links[0].window); }
    }
  }

  lemma {:induction false} WithoutSpec(links: Links, windows: set<string>)
    ensures forall l :: l in Without(links, windows) <==> l in links && !(l.session == ACTIVE && l.window in windows)
  {
    if links != [] {
      WithoutSpec(links[1..], windows);
      assert links == [links[0]] + links[1..];
    }
  }

  lemma WithoutHas(links: Links, windows: set<string>, window: string)
    ensures HasActive(Without(links, windows), window) <==> HasActive(links, window) && window !in windows
    ensures HasSource(Without(links, windows), window) <==> HasSource(links, window)
  {
    WithoutSpec(links, windows);
    var r := Without(links, windows);
    if HasActive(links, window) && window !in windows {
      var i :| 0 <= i < |links| && links[i].session == ACTIVE && links[i].window == window;
      assert links[i] in r;
    }
    if HasActive(r, window) {
      var i :| 0 <= i < |r| && r[i].session == ACTIVE && r[i].window == window;
      assert r[i] in links;
    }
    if HasSource(links, window) {
      var i :| 0 <= i < |links| && links[i].session != ACTIVE && links[i].window == window;
      assert links[i] in r;
    }
    if HasSource(r, window) {
      var i :| 0 <= i < |r| && r[i].session != ACTIVE && r[i].window == window;
      assert r[i] in links;
    }
  }

  // ---- classification ---------------------------------------------------------------------------

  datatype Transition = Keep | ExpireSafe | ExpireOrphan | StaleRow | GoneWindow

  function Classify(row: Row, links: Links, window: string, now: int): Transition {
    if !HasActive(links, window) && HasSource(links, window) then StaleRow
    else if !HasActive(links, window) then GoneWindow
    else if row.expiresAt > now then Keep
    else if HasSource(links, window) then ExpireSafe
    else ExpireOrphan
  }

  /** What each outcome means for a window. */
  lemma ClassifySpec(row: Row, links: Links, window: string, now: int)
    ensures var t := Classify(row, links, window, now);
            && (t == Keep <==> HasActive(links, window) && row.expiresAt > now)
            && (t == ExpireSafe <==> HasActive(links, window) && row.expiresAt <= now && HasSource(links, window))
            && (t == ExpireOrphan <==> HasActive(links, window) && row.expiresAt <= now && !HasSource(links, window))
            && (t == StaleRow <==> !HasActive(links, window) && HasSource(links, window))
            && (t == GoneWindow <==> !HasActive(links, window) && !HasSource(links, window))
  {
  }

  predicate Removes(t: Transition) { t == ExpireSafe || t == StaleRow || t == GoneWindow }

  /** Of the windows looked at, those whose alias goes. */
  function Expiring(rows: Table, links: Links, epoch: string, now: int, done: set<string>): set<string> {
    set k | k in rows && k.0 == epoch && k.1 in done && Classify(rows[k], links, k.1, now) == ExpireSafe :: k.1
  }

  /** The rows once these windows have been looked at. */
  function Swept(rows: Table, links: Links, epoch: string, now: int, done: set<string>): Table {
    map k | k in rows && !(k.0 == epoch && k.1 in done && Removes(Classify(rows[k], links, k.1, now))) ::
      if k.0 == epoch && k.1 in done && Classify(rows[k], links, k.1, now) == ExpireOrphan then OrphanedRow(rows[k], now) else rows[k]
  }

  function Windows(rows: Table, epoch: string): set<string> {
    set k | k in rows && k.0 == epoch :: k.1
  }

  function PrunedLinks(rows: Table, links: Links, epoch: string, now: int): Links {
    Without(links, Expiring(rows, links, epoch, now, Windows(rows, epoch)))
  }

  function PrunedRows(rows: Table, links: Links, epoch: string, now: int): Table {
    Swept(rows, links, epoch, now, Windows(rows, epoch))
  }

  /** A tracked window whose time is up, shown and linked elsewhere as well: the one kind that loses its alias. */
  predicate Expired(rows: Table, links: Links, epoch: string, now: int, window: string) {
    (epoch, window) in rows && rows[(epoch, window)].expiresAt <= now && HasActive(links, window) && HasSource(links, window)
  }

  /** The row marked as an orphan; an earlier mark keeps its time. */
  predicate MarkedOrphan(before: Row, after: Row, now: int) {
    && after == before.(state := Orphaned, orphanedAt := after.orphanedAt)
    && after.orphanedAt == (if before.orphanedAt.Some? then before.orphanedAt else Some(now))
  }

  /**
   * Exactly what pruning leaves. Of the links only aliases of expired windows go. Of the epoch's rows those stay
   * whose window is shown and either unexpired, and then unchanged, or without a source, and then marked as orphans.
   */
  lemma PrunedSpec(rows: Table, links: Links, epoch: string, now: int, window: string)
    ensures var l, r := PrunedLinks(rows, links, epoch, now), PrunedRows(rows, links, epoch, now);
            var key := (epoch, window);
            && (key in r <==> key in rows && HasActive(links, window) && (rows[key].expiresAt > now || !HasSource(links, window)))
            && (key in r && rows[key].expiresAt > now ==> r[key] == rows[key])
            && (key in r && rows[key].expiresAt <= now ==> MarkedOrphan(rows[key], r[key], now))
            && (HasActive(l, window) <==> HasActive(links, window) && !Expired(rows, links, epoch, now, window))
            && (HasSource(l, window) <==> HasSource(links, window))
            && (forall x :: x in l <==> x in links && !(x.session == ACTIVE && Expired(rows, links, epoch, now, x.window)))
            && forall k: Key :: k.0 != epoch ==> (k in r <==> k in rows) && (k in r ==> r[k] == rows[k])
  {
    hide HasActive, HasSource, Without;
    var gone := Expiring(rows, links, epoch, now, Windows(rows, epoch));
    forall w ensures w in gone <==> Expired(rows, links, epoch, now, w) {
      if Expired(rows, links, epoch, now, w) { assert (epoch, w).1 in Windows(rows, epoch); }
    }
    WithoutHas(links, gone, window);
    WithoutSpec(links, gone);
  }

  /** A window promoted a moment ago keeps row and alias. */
  lemma UnexpiredStays(rows: Table, links: Links, epoch: string, now: int, window: string)
    requires (epoch, window) in rows && rows[(epoch, window)].expiresAt > now && HasActive(links, window)
    ensures var l, r := PrunedLinks(rows, links, epoch, now), PrunedRows(rows, links, epoch, now);
            HasActive(l, window) && (epoch, window) in r && r[(epoch, window)] == rows[(epoch, window)]
  {
    hide HasActive, HasSource, PrunedLinks, PrunedRows;
    PrunedSpec(rows, links, epoch, now, window);
  }

  /** Pruning again at the same instant changes nothing. */
  lemma PruneFixpoint(rows: Table, links: Links, epoch: string, now: int)
    ensures var l, r := PrunedLinks(rows, links, epoch, now), PrunedRows(rows, links, epoch, now);
            PrunedLinks(r, l, epoch, now) == l && PrunedRows(r, l, epoch, now) == r
  {
    hide HasActive, HasSource, Without;
    var l, r := PrunedLinks(rows, links, epoch, now), PrunedRows(rows, links, epoch, now);
    forall k | k in r && k.0 == epoch ensures Settled(r[k], l, k.1, now) {
      PrunedSpec(rows, links, epoch, now, k.1);
      assert k == (epoch, k.1);
      KeptState(rows, links, epoch, now, k);
    }
    NothingExpires(r, l, epoch, now);
    WithoutNone(l, Expiring(r, l, epoch, now, Windows(r, epoch)));
  }

  /** A row further pruning would leave as it is. */
  predicate Settled(row: Row, links: Links, window: string, now: int) {
    var t := Classify(row, links, window, now);
    t == Keep || (t == ExpireOrphan && row.state == Orphaned && row.orphanedAt.Some?)
  }

  lemma KeptState(rows: Table, links: Links, epoch: string, now: int, k: Key)
    requires k in PrunedRows(rows, links, epoch, now) && k.0 == epoch
    ensures var r, l := PrunedRows(rows, links, epoch, now), PrunedLinks(rows, links, epoch, now);
            Settled(r[k], l, k.1, now)
  {
    hide HasActive, HasSource, Without;
    WithoutHas(links, Expiring(rows, links, epoch, now, Windows(rows, epoch)), k.1);
  }

  lemma NothingExpires(r: Table, l: Links, epoch: string, now: int)
    requires forall k :: k in r && k.0 == epoch ==> Settled(r[k], l, k.1, now)
    ensures Expiring(r, l, epoch, now, Windows(r, epoch)) == {} && PrunedRows(r, l, epoch, now) == r
  {
    hide HasActive, HasSource;
    forall k | k in r ensures k in PrunedRows(r, l, epoch, now) && PrunedRows(r, l, epoch, now)[k] == r[k] {
      if k.0 == epoch { assert Settled(r[k], l, k.1, now); }
    }
  }
}
