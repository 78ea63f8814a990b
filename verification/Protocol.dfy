/**
 * The active-window protocol over tmux links and persisted rows: promote, touch, prune, remove,
 * recover, and managed session kills, with other clients acting between any two steps.
 * (internal/actions/active_*.go, internal/actions/kill.go, internal/actions/navigation_safety.go)
 */
module Protocol {
  import opened Text
  import opened Tmux
  import opened Rows
  import opened Active

  const MAX_ACTIVE_TTL := 720 * 3600
  const LINK_ATTEMPTS := 3

  datatype ActiveConfig = ActiveConfig(enabled: bool, ttl: Option<int>)

  /** The time to live in seconds, if the feature is on and the setting is sensible. */
  function Ttl(cfg: ActiveConfig): Option<int> {
    if cfg.enabled && cfg.ttl.Some? && 0 < cfg.ttl.value <= MAX_ACTIVE_TTL then cfg.ttl else None
  }

  /** What every command sequence of ours keeps: no window is destroyed but placeholders and windows named like a placeholder's id. */
  twostate predicate Harmless(t: Server)
    reads t
  {
    t.Valid() && Grown(old(t.names), t.names) && SafeDrops(old(t.dropped), t.dropped, t.names)
  }

  /** Nobody else acts and nothing fails of itself. */
  predicate Steady(t: Server, s: Store) { t.calm && t.reliable && s.calm && s.reliable }

  /** Nothing changed on the server. */
  twostate predicate Same(t: Server)
    reads t
  {
    t.sessions == old(t.sessions) && t.owners == old(t.owners) && t.links == old(t.links) && t.names == old(t.names)
  }

  // ---- ownership ----------------------------------------------------------------------------

  datatype Ownership = Absent | Owned | Collision

  function OwnershipOf(sessions: set<string>, owners: map<string, string>): Ownership {
    if ACTIVE !in sessions then Absent
    else if (if ACTIVE in owners then owners[ACTIVE] else "") == OWNER then Owned
    else Collision
  }

  lemma IdNotEmpty(window: string)
    ensures IsWindowID(window) ==> window != ""
  {
  }

  lemma OwnedThere(sessions: set<string>, owners: map<string, string>)
    ensures OwnershipOf(sessions, owners) == Owned ==> ACTIVE in sessions
  {
  }

  method InspectOwnership(t: Server) returns (r: Option<Ownership>)
    requires t.Valid()
    modifies t
    ensures Harmless(t) && t.dropped == old(t.dropped) && (t.calm ==> Same(t))
    ensures t.calm && r.Some? ==> r.value == OwnershipOf(t.sessions, t.owners)
    ensures t.reliable ==> r.Some?
  {
    var exists_ := t.HasSession(ACTIVE);
    if exists_.None? { return None; }
    if !exists_.value { return Some(Absent); }
    var marker := t.Owner(ACTIVE);
    if marker.None? { return None; }
    return Some(if marker.value == OWNER then Owned else Collision);
  }

  /** A session of that name that is not ours is an error; none at all is not. */
  method RequireOwned(t: Server) returns (r: Option<Ownership>)
    requires t.Valid()
    modifies t
    ensures Harmless(t) && t.dropped == old(t.dropped) && (t.calm ==> Same(t))
    ensures t.calm && r.Some? ==> r.value == OwnershipOf(t.sessions, t.owners) != Collision
    ensures t.calm && t.reliable ==> (r.Some? <==> OwnershipOf(t.sessions, t.owners) != Collision)
  {
    r := InspectOwnership(t);
    if r == Some(Collision) { return None; }
  }

  /** Creates the session with a placeholder window where there is none. */
  method EnsureOwned(t: Server) returns (ok: bool)
    requires t.Valid()
    modifies t
    ensures Harmless(t) && t.dropped == old(t.dropped)
    ensures t.calm && ok ==> OwnershipOf(t.sessions, t.owners) == Owned
    ensures t.calm && ok && ACTIVE in old(t.sessions) ==> Same(t)
    ensures t.calm && ok && ACTIVE !in old(t.sessions) ==>
              exists w :: w !in old(t.names) && t.names == old(t.names)[w := PLACEHOLDER] && t.links == old(t.links) + [Link(ACTIVE, w, 1)]
    ensures t.calm && !ok ==> Same(t) || exists w :: t.links == old(t.links) + [Link(ACTIVE, w, 1)]
    ensures t.calm && t.reliable ==> (ok <==> OwnershipOf(old(t.sessions), old(t.owners)) != Collision)
  {
    var o := InspectOwnership(t);
    if o.None? || o.value == Collision { return false; }
    if o.value == Owned { return true; }
    var made := t.NewSession(ACTIVE, PLACEHOLDER, OWNER);
    if made == NotCreated { return false; }
    var again := RequireOwned(t);
    return again.Some?;
  }

  method ReconcileEpoch(t: Server, s: Store) returns (epoch: Option<(string, string)>)
    requires t.Valid()
    modifies t, s
    ensures Harmless(t) && t.dropped == old(t.dropped) && (t.calm ==> Same(t))
    ensures epoch.Some? ==> epoch.value == (t.serverKey, t.epoch)
    ensures s.calm && epoch.Some? ==> s.rows == Current(old(s.rows), t.serverKey, t.epoch)
    ensures s.calm && epoch.None? ==> s.rows == old(s.rows)
    ensures t.reliable && s.reliable ==> epoch.Some?
  {
    epoch := t.Epoch();
    if epoch.None? { return; }
    var ok := s.DeleteStaleEpochs(epoch.value.0, epoch.value.1);
    if !ok { return None; }
  }

  // ---- the guarded unlink -------------------------------------------------------------------------

  /** Unlinks the alias only where the snapshot shows another link, and checks the result on fresh links. */
  method UnlinkVerified(t: Server, window: string, snap: Snapshot) returns (r: Option<Snapshot>)
    requires t.Valid()
    modifies t
    ensures Harmless(t) && t.dropped == old(t.dropped)
    ensures t.calm ==> t.sessions == old(t.sessions) && t.owners == old(t.owners) && t.names == old(t.names)
    ensures t.calm ==> t.links == old(t.links) || t.links == Unlinked(old(t.links), ACTIVE, window)
    ensures t.calm && r.Some? && snap == Snapshot(old(t.links), old(t.names)) ==>
              r.value == Snapshot(t.links, t.names) && t.links == Unlinked(old(t.links), ACTIVE, window)
    ensures r.Some? && HasActive(snap.links, window) ==> HasSource(r.value.links, window) && !HasActive(r.value.links, window)
    ensures t.calm && t.reliable && snap == Snapshot(old(t.links), old(t.names)) ==> (r.Some? <==> !HasActive(snap.links, window) || HasSource(snap.links, window))
  {
    var before := ForWindow(snap.links, window);
    ForWindowSpec(snap.links, window);
    if !before.hasActive {
      NoAlias(snap.links, window);
      return Some(snap);
    }
    if before.sources == [] { return None; }
    var cancelled := t.Fault();
    if cancelled { return None; }
    ghost var was := t.links;
    if t.calm && snap == Snapshot(t.links, t.names) { Unlinkable(t, window); }
    var ok := t.UnlinkWindow(ACTIVE, window);
    if !ok { return None; }
    UnlinkedHas(was, ACTIVE, window, ACTIVE, window);
    UnlinkedKeepsSource(was, window);
    var later := t.ListLinks();
    if later.None? { return None; }
    ForWindowSpec(later.value.links, window);
    var after := ForWindow(later.value.links, window);
    if after.hasActive || after.sources == [] { return None; }
    return later;
  }

  /** An alias with another link beside it can be unlinked. */
  lemma Unlinkable(t: Server, window: string)
    requires t.Valid() && HasActive(t.links, window) && HasSource(t.links, window)
    ensures ACTIVE in t.sessions && Exists(t.links, window) && LinkCount(t.links, window) >= 2
  {
    ManyLinks(t.links, window);
    var i :| 0 <= i < |t.links| && t.links[i].session == ACTIVE && t.links[i].window == window;
    assert t.links[i].window == window;
  }

  lemma UnlinkedKeepsSource(links: Links, window: string)
    ensures HasSource(links, window) ==> HasSource(Unlinked(links, ACTIVE, window), window)
  {
    UnlinkedSpec(links, ACTIVE, window);
    if HasSource(links, window) {
      var r := Unlinked(links, ACTIVE, window);
      var i :| 0 <= i < |links| && links[i].session != ACTIVE && links[i].window == window;
      assert links[i] in r;
    }
  }

  lemma {:induction false} NoAlias(links: Links, window: string)
    requires !HasActive(links, window)
    ensures Unlinked(links, ACTIVE, window) == links
  {
    if links != [] {
      TailActive(links, window);
      assert links[0].session == ACTIVE ==> links[0].window != window;
      NoAlias(links[1..], window);
    }
  }

  // ---- prune ----------------------------------------------------------------------------------------

  datatype Report = Report(unlinked: nat, deleted: nat, orphaned: nat, results: seq<(string, Transition)>)

  method ClassifyRows(rows: seq<(string, Row)>, snap: Snapshot, now: int) returns (items: seq<(string, Transition)>)
    ensures |items| == |rows|
    ensures forall i :: 0 <= i < |rows| ==> items[i] == (rows[i].0, Classify(rows[i].1, snap.links, rows[i].0, now))
    ensures forall i :: 0 <= i < |rows| ==>
              (items[i].1 == Keep <==> HasActive(snap.links, rows[i].0) && rows[i].1.expiresAt > now)
              && (items[i].1 == ExpireSafe <==> HasActive(snap.links, rows[i].0) && rows[i].1.expiresAt <= now && HasSource(snap.links, rows[i].0))
              && (items[i].1 == StaleRow <==> !HasActive(snap.links, rows[i].0) && HasSource(snap.links, rows[i].0))
              && (items[i].1 == GoneWindow <==> !HasActive(snap.links, rows[i].0) && !HasSource(snap.links, rows[i].0))
  {
    items := [];
    for i := 0 to |rows|
      invariant |items| == i
      invariant forall j :: 0 <= j < i ==> items[j] == (rows[j].0, Classify(rows[j].1, snap.links, rows[j].0, now))
    {
      items := items + [(rows[i].0, Classify(rows[i].1, snap.links, rows[i].0, now))];
    }
  }

  function Looked(items: seq<(string, Transition)>): set<string> {
    set i | 0 <= i < |items| :: items[i].0
  }

  /** The items are the rows of the epoch, each once, classified against these links. */
  predicate Classified(items: seq<(string, Transition)>, rows: Table, links: Links, epoch: string, now: int) {
    && (forall i :: 0 <= i < |items| ==>
          (epoch, items[i].0) in rows && items[i].1 == Classify(rows[(epoch, items[i].0)], links, items[i].0, now))
    && (forall i, j :: 0 <= i < j < |items| ==> items[i].0 != items[j].0)
    && (forall k :: k in rows && k.0 == epoch ==> k.1 in Looked(items))
  }

  lemma ListedClassified(out: seq<(string, Row)>, items: seq<(string, Transition)>, rows: Table, links: Links, epoch: string, now: int)
    requires Lists(out, rows, epoch) && |items| == |out|
    requires forall i :: 0 <= i < |out| ==> items[i] == (out[i].0, Classify(out[i].1, links, out[i].0, now))
    ensures Classified(items, rows, links, epoch, now)
    ensures Looked(items) == Windows(rows, epoch)
  {
    hide Classify;
    forall k | k in rows && k.0 == epoch ensures k.1 in Looked(items) {
      assert (k.1, rows[k]) in out;
      var i :| 0 <= i < |out| && out[i] == (k.1, rows[k]);
      assert items[i].0 == k.1;
    }
    forall w | w in Looked(items) ensures w in Windows(rows, epoch) {
      var i :| 0 <= i < |items| && items[i].0 == w;
      assert (epoch, w) in rows;
    }
  }

  /** One more window looked at. */
  lemma LookedNext(items: seq<(string, Transition)>, i: nat, rows: Table, links: Links, epoch: string, now: int)
    requires Classified(items, rows, links, epoch, now) && i < |items|
    ensures var (w, tr) := items[i];
            var done := Looked(items[..i]);
            && w !in done && Looked(items[..i + 1]) == done + {w}
            && (tr != ExpireSafe ==> Expiring(rows, links, epoch, now, done + {w}) == Expiring(rows, links, epoch, now, done))
            && (tr == ExpireSafe ==> Expiring(rows, links, epoch, now, done + {w}) == Expiring(rows, links, epoch, now, done) + {w})
            && Swept(rows, links, epoch, now, done + {w})
               == (if Removes(tr) then Swept(rows, links, epoch, now, done) - {(epoch, w)}
                   else if tr == ExpireOrphan then Swept(rows, links, epoch, now, done)[(epoch, w) := OrphanedRow(rows[(epoch, w)], now)]
                   else Swept(rows, links, epoch, now, done))
            && w !in Expiring(rows, links, epoch, now, done)
            && (epoch, w) in Swept(rows, links, epoch, now, done) && Swept(rows, links, epoch, now, done)[(epoch, w)] == rows[(epoch, w)]
  {
    hide Classify, OrphanedRow;
    var (w, tr) := items[i];
    var done := Looked(items[..i]);
    assert items[..i + 1] == items[..i] + [items[i]];
    assert Looked(items[..i + 1]) == done + {w} by {
      assert forall x :: x in Looked(items[..i + 1]) <==> x in done + {w} by {
        forall j | 0 <= j < i ensures items[..i][j] == items[..i + 1][j] { }
        assert items[..i + 1][i] == items[i];
      }
    }
    assert Classify(rows[(epoch, w)], links, w, now) == tr;
  }

  /** Applies one classified row; the counts say what was done. */
  method ApplyTransition(t: Server, s: Store, epoch: string, snap: Snapshot, window: string, tr: Transition, now: int, report: Report)
    returns (r: Option<(Snapshot, Report)>)
    requires t.Valid()
    modifies t, s
    ensures Harmless(t) && t.dropped == old(t.dropped)
    ensures t.calm ==> t.sessions == old(t.sessions) && t.owners == old(t.owners) && t.names == old(t.names)
    ensures t.calm && r.Some? && snap == Snapshot(old(t.links), old(t.names)) ==>
              && r.value.0 == Snapshot(t.links, t.names)
              && t.links == (if tr == ExpireSafe then Unlinked(old(t.links), ACTIVE, window) else old(t.links))
    ensures t.calm && r.None? ==> t.links == old(t.links) || (tr == ExpireSafe && t.links == Unlinked(old(t.links), ACTIVE, window))
    ensures s.calm && r.None? ==> s.rows == old(s.rows)
    ensures Steady(t, s) && snap == Snapshot(old(t.links), old(t.names)) ==>
              (r.Some? <==> (tr == Keep || (epoch != "" && window != "")) && (tr == ExpireSafe && HasActive(snap.links, window) ==> HasSource(snap.links, window)))
    ensures s.calm && r.Some? ==>
              s.rows == (if Removes(tr) then old(s.rows) - {(epoch, window)}
                         else if tr == ExpireOrphan && (epoch, window) in old(s.rows) then old(s.rows)[(epoch, window) := OrphanedRow(old(s.rows)[(epoch, window)], now)]
                         else old(s.rows))
    ensures r.Some? ==>
              && r.value.1.deleted == report.deleted + (if Removes(tr) then 1 else 0)
              && r.value.1.unlinked == report.unlinked + (if tr == ExpireSafe then 1 else 0)
              && r.value.1.orphaned == report.orphaned + (if tr == ExpireOrphan then 1 else 0)
              && r.value.1.results == report.results
  {
    match tr
    case Keep => return Some((snap, report));
    case ExpireOrphan =>
      var ok := s.MarkOrphaned(epoch, window, now);
      if !ok { return None; }
      return Some((snap, report.(orphaned := report.orphaned + 1)));
    case ExpireSafe =>
      var later := UnlinkVerified(t, window, snap);
      if later.None? { return None; }
      var ok := s.Delete(epoch, window);
      if !ok { return None; }
      return Some((later.value, report.(unlinked := report.unlinked + 1, deleted := report.deleted + 1)));
    case _ =>
      var ok := s.Delete(epoch, window);
      if !ok { return None; }
      return Some((snap, report.(deleted := report.deleted + 1)));
  }

  /** Where nobody else acts, success leaves exactly the pruned links and rows, and reports what went. */
  method Prune(t: Server, s: Store, cfg: ActiveConfig, now: int) returns (r: Option<Report>)
    requires t.Valid()
    modifies t, s
    ensures Harmless(t) && t.dropped == old(t.dropped)
    ensures t.calm ==> t.sessions == old(t.sessions) && t.owners == old(t.owners) && t.names == old(t.names)
    ensures t.calm && r.Some? ==> OwnershipOf(t.sessions, t.owners) != Collision
    ensures t.calm && s.calm && r.Some? ==>
              var rows := Current(old(s.rows), t.serverKey, t.epoch);
              && t.links == PrunedLinks(rows, old(t.links), t.epoch, now)
              && s.rows == PrunedRows(rows, old(t.links), t.epoch, now)
              && r.value.deleted == |rows| - |s.rows|
              && r.value.unlinked == |Expiring(rows, old(t.links), t.epoch, now, Windows(rows, t.epoch))|
    ensures t.calm && s.calm && r.None? ==>
              var rows := Current(old(s.rows), t.serverKey, t.epoch);
              PartlyPruned(old(t.links), t.links, Expiring(rows, old(t.links), t.epoch, now, Windows(rows, t.epoch)))
              && (s.rows == old(s.rows) || PartlySwept(rows, s.rows, old(t.links), t.epoch, now))
    ensures r.Some? ==> Ttl(cfg).Some?
    ensures Steady(t, s) && (t.epoch, "") !in old(s.rows) ==> (r.Some? <==> Ttl(cfg).Some? && OwnershipOf(t.sessions, t.owners) != Collision)
  {
    hide PartlyPruned, PartlySwept, Expiring, Swept, Windows, Without, Current, Proper, OwnershipOf, Linked, LinkedElsewhere, PrunedLinks, PrunedRows;
    if s.calm { NothingGone(t.links, Expiring(Current(s.rows, t.serverKey, t.epoch), t.links, t.epoch, now, Windows(Current(s.rows, t.serverKey, t.epoch), t.epoch))); }
    if Ttl(cfg).None? { return None; }
    var owned := RequireOwned(t);
    if owned.None? { return None; }
    var epoch := ReconcileEpoch(t, s);
    if epoch.None? { return None; }
    if s.calm { CurrentFrom(old(s.rows), t.serverKey, t.epoch, (t.epoch, "")); }
    r := SweepEpoch(t, s, now);
  }

  /** The rows of this epoch, classified and dealt with one by one. */
  method SweepEpoch(t: Server, s: Store, now: int) returns (r: Option<Report>)
    requires t.Valid()
    modifies t, s
    ensures Harmless(t) && t.dropped == old(t.dropped)
    ensures t.calm ==> t.sessions == old(t.sessions) && t.owners == old(t.owners) && t.names == old(t.names)
    ensures t.calm && s.calm && r.Some? ==>
              && t.links == PrunedLinks(old(s.rows), old(t.links), t.epoch, now)
              && s.rows == PrunedRows(old(s.rows), old(t.links), t.epoch, now)
              && r.value.deleted == |old(s.rows)| - |s.rows|
              && r.value.unlinked == |Expiring(old(s.rows), old(t.links), t.epoch, now, Windows(old(s.rows), t.epoch))|
    ensures t.calm && s.calm && r.None? ==>
              && PartlyPruned(old(t.links), t.links, Expiring(old(s.rows), old(t.links), t.epoch, now, Windows(old(s.rows), t.epoch)))
              && PartlySwept(old(s.rows), s.rows, old(t.links), t.epoch, now)
    ensures Steady(t, s) && (t.epoch, "") !in old(s.rows) ==> r.Some?
  {
    hide PartlySwept, Expiring, Swept, Windows, Classify, Without, Proper, Lists, Classified, Looked, Linked, LinkedElsewhere;
    ghost var rows0, links0 := s.rows, t.links;
    NothingGone(links0, Expiring(rows0, links0, t.epoch, now, Windows(rows0, t.epoch)));
    NothingSwept(rows0, links0, t.epoch, now);
    var listed := s.List(t.epoch);
    if listed.None? { return None; }
    var snapshot := t.ListLinks();
    if snapshot.None? { return None; }
    var items := ClassifyRows(listed.value, snapshot.value, now);
    if s.calm { ListedClassified(listed.value, items, rows0, snapshot.value.links, t.epoch, now); }
    ghost var gone;
    r, gone := ApplyAll(t, s, t.epoch, snapshot.value, items, now, rows0);
    if t.calm && s.calm && r.None? { SweptSome(rows0, s.rows, links0, t.epoch, now, Looked(items)); }
  }

  lemma CurrentFrom(rows: Table, serverKey: string, epoch: string, k: Key)
    ensures k in Current(rows, serverKey, epoch) ==> k in rows
  {
  }

  /** Some of the aliases to be pruned are gone, and nothing else. */
  ghost predicate PartlyPruned(before: Links, after: Links, expiring: set<string>) {
    exists gone :: gone <= expiring && after == Without(before, gone)
  }

  /** Some of the rows have been pruned, and no other is changed. */
  ghost predicate PartlySwept(before: Table, after: Table, links: Links, epoch: string, now: int) {
    exists done :: done <= Windows(before, epoch) && after == Swept(before, links, epoch, now, done)
  }

  lemma NothingSwept(rows: Table, links: Links, epoch: string, now: int)
    ensures PartlySwept(rows, rows, links, epoch, now)
  {
    hide Classify, Windows;
    assert {} <= Windows(rows, epoch) && rows == Swept(rows, links, epoch, now, {});
  }

  lemma SweptSome(before: Table, after: Table, links: Links, epoch: string, now: int, looked: set<string>)
    requires looked == Windows(before, epoch)
    requires exists done :: done <= looked && after == Swept(before, links, epoch, now, done)
    ensures PartlySwept(before, after, links, epoch, now)
  {
  }

  lemma NothingGone(links: Links, expiring: set<string>)
    ensures PartlyPruned(links, links, expiring)
  {
    WithoutNone(links, {});
    assert {} <= expiring && links == Without(links, {});
  }

  method ApplyAll(t: Server, s: Store, epoch: string, snap: Snapshot, items: seq<(string, Transition)>, now: int, ghost rows: Table)
    returns (r: Option<Report>, ghost gone: set<string>)
    requires t.Valid()
    requires s.calm ==> s.rows == rows && Classified(items, rows, snap.links, epoch, now)
    modifies t, s
    ensures Harmless(t) && t.dropped == old(t.dropped)
    ensures t.calm ==> t.sessions == old(t.sessions) && t.owners == old(t.owners) && t.names == old(t.names)
    ensures t.calm && s.calm && snap == Snapshot(old(t.links), old(t.names)) ==>
              && t.links == Without(snap.links, gone) && gone <= Expiring(rows, snap.links, epoch, now, Looked(items))
              && (r.Some? ==> gone == Expiring(rows, snap.links, epoch, now, Looked(items)))
    ensures s.calm && r.Some? ==>
              && s.rows == Swept(rows, snap.links, epoch, now, Looked(items))
              && r.value.deleted == |rows| - |s.rows|
              && r.value.unlinked == |Expiring(rows, snap.links, epoch, now, Looked(items))|
    ensures Steady(t, s) && snap == Snapshot(old(t.links), old(t.names)) && epoch != "" && (epoch, "") !in rows ==> r.Some?
    ensures s.calm && r.None? ==> exists done :: done <= Looked(items) && s.rows == Swept(rows, snap.links, epoch, now, done)
  {
    hide Expiring, Swept, Without, Classified, Looked, Unlinked, OrphanedRow;
    var report := Report(0, 0, 0, []);
    var current := snap;
    gone := {};
    NothingLooked(items[..0], rows, snap.links, epoch, now);
    for i := 0 to |items|
      invariant Harmless(t) && t.dropped == old(t.dropped)
      invariant t.calm ==> t.sessions == old(t.sessions) && t.owners == old(t.owners) && t.names == old(t.names)
      invariant s.calm ==> gone == Expiring(rows, snap.links, epoch, now, Looked(items[..i]))
      invariant t.calm && s.calm && snap == Snapshot(old(t.links), old(t.names)) ==>
                  current == Snapshot(t.links, t.names) && t.links == Without(snap.links, gone)
      invariant s.calm ==> s.rows == Swept(rows, snap.links, epoch, now, Looked(items[..i])) && report.deleted + |s.rows| == |rows|
                           && report.unlinked == |gone|
    {
      var (window, tr) := items[i];
      if s.calm {
        LookedNext(items, i, rows, snap.links, epoch, now);
        WithoutOne(snap.links, gone, window);
        ExpiringGrows(rows, snap.links, epoch, now, items, i);
        ExpiringGrows(rows, snap.links, epoch, now, items, i + 1);
        LookedGrows(items, i);
        WithoutHas(snap.links, gone, window);
        ExpiringHasSource(rows, snap.links, items, i, epoch, now);
      }
      var cancelled := t.Fault();
      if cancelled { return None, gone; }
      ghost var was, links := s.rows, t.links;
      var step := ApplyTransition(t, s, epoch, current, window, tr, now, report);
      if step.None? { return None, if t.links == links then gone else gone + {window}; }
      if s.calm && Removes(tr) { RemovedOne(was, (epoch, window)); }
      if tr == ExpireSafe { gone := gone + {window}; }
      current, report := step.value.0, step.value.1.(results := step.value.1.results + [(window, tr)]);
    }
    assert items[..|items|] == items;
    return Some(report), gone;
  }

  lemma ExpiringGrows(rows: Table, links: Links, epoch: string, now: int, items: seq<(string, Transition)>, i: nat)
    requires i <= |items|
    ensures Expiring(rows, links, epoch, now, Looked(items[..i])) <= Expiring(rows, links, epoch, now, Looked(items))
  {
    hide Classify, HasActive, HasSource;
    forall w | w in Looked(items[..i]) ensures w in Looked(items) {
      var j :| 0 <= j < i && items[..i][j].0 == w;
      assert items[j].0 == w;
    }
  }

  /** A window that expires safely has a source, and a tracked window has an id. */
  lemma ExpiringHasSource(rows: Table, links: Links, items: seq<(string, Transition)>, i: nat, epoch: string, now: int)
    requires Classified(items, rows, links, epoch, now) && i < |items|
    ensures items[i].1 == ExpireSafe ==> HasSource(links, items[i].0)
    ensures (epoch, items[i].0) in rows
  {
  }

  lemma LookedGrows(items: seq<(string, Transition)>, i: nat)
    requires i <= |items|
    ensures Looked(items[..i]) <= Looked(items)
  {
    forall w | w in Looked(items[..i]) ensures w in Looked(items) {
      var j :| 0 <= j < i && items[..i][j].0 == w;
      assert items[j].0 == w;
    }
  }

  lemma NothingLooked(items: seq<(string, Transition)>, rows: Table, links: Links, epoch: string, now: int)
    requires items == []
    ensures Expiring(rows, links, epoch, now, Looked(items)) == {} && Swept(rows, links, epoch, now, Looked(items)) == rows
    ensures Without(links, {}) == links
  {
    WithoutNone(links, {});
  }

  lemma RemovedOne(rows: Table, k: Key)
    requires k in rows
    ensures |rows - {k}| == |rows| - 1
  {
    assert (rows - {k}).Keys == rows.Keys - {k};
    assert |rows.Keys - {k}| == |rows.Keys| - 1;
    assert |rows - {k}| == |(rows - {k}).Keys| && |rows| == |rows.Keys|;
  }

  // ---- linking ------------------------------------------------------------------------------------

  /** The search ends because only finitely many indexes are taken. */
  method NextFreeIndex(links: Links, session: string, base: nat) returns (index: nat)
    ensures LeastFree(links, session, base, index)
  {
    var used: set<nat> := {};
    for i := 0 to |links|
      invariant forall k :: k in used <==> IndexUsed(links[..i], session, k)
    {
      UsedNext(links, session, i);
      if links[i].session == session { used := used + {links[i].index}; }
    }
    assert links[..|links|] == links;
    index := base;
    while index in used
      invariant base <= index && forall k :: base <= k < index ==> k in used
      decreases |set u | u in used && u >= index|
    {
      ghost var above := set u | u in used && u >= index;
      ghost var next := set u | u in used && u >= index + 1;
      assert next <= above && index in above && index !in next;
      Smaller(next, above, index);
      index := index + 1;
    }
  }

  lemma Smaller(a: set<nat>, b: set<nat>, x: nat)
    requires a <= b && x in b && x !in a
    ensures |a| < |b|
  {
    assert a <= b - {x};
    Fewer(a, b - {x});
  }

  lemma {:induction false} Fewer(a: set<nat>, b: set<nat>)
    requires a <= b
    ensures |a| <= |b|
  {
    if a != {} {
      var x :| x in a;
      Fewer(a - {x}, b - {x});
    }
  }

  lemma UsedNext(links: Links, session: string, i: nat)
    requires i < |links|
    ensures forall k :: IndexUsed(links[..i + 1], session, k) <==> IndexUsed(links[..i], session, k) || (links[i].session == session && links[i].index == k)
  {
    forall k ensures IndexUsed(links[..i + 1], session, k) <==> IndexUsed(links[..i], session, k) || (links[i].session == session && links[i].index == k) {
      if IndexUsed(links[..i], session, k) {
        var j :| 0 <= j < i && links[..i][j].session == session && links[..i][j].index == k;
        assert links[..i + 1][j] == links[..i][j];
      }
      if IndexUsed(links[..i + 1], session, k) {
        var j :| 0 <= j < i + 1 && links[..i + 1][j].session == session && links[..i + 1][j].index == k;
        if j < i { assert links[..i][j] == links[..i + 1][j]; }
      }
      assert links[..i + 1][i] == links[i];
    }
  }

  /** A snapshot that was true of the server at some earlier moment. */
  ghost predicate Seen(snap: Snapshot, names: map<string, string>) {
    && Grown(snap.names, names)
    && forall i :: 0 <= i < |snap.links| ==> snap.links[i].window in snap.names && IsWindowID(snap.links[i].window)
  }

  /** Tries a free index of each new snapshot until the window shows up in the destination, at most three times. */
  method LinkWithRetry(t: Server, window: string, destination: string, base: nat, snap: Snapshot) returns (r: Option<Snapshot>)
    requires t.Valid() && Seen(snap, t.names)
    modifies t
    ensures Harmless(t) && t.dropped == old(t.dropped)
    ensures t.calm ==> t.sessions == old(t.sessions) && t.owners == old(t.owners) && t.names == old(t.names)
    ensures r.Some? ==> Linked(r.value.links, destination, window) && Seen(r.value, t.names)
    ensures t.calm && r.Some? && snap == Snapshot(old(t.links), old(t.names)) && !Linked(snap.links, destination, window) ==>
              && r.value == Snapshot(t.links, t.names)
              && exists index :: LeastFree(old(t.links), destination, base, index) && t.links == old(t.links) + [Link(destination, window, index)]
    ensures t.calm && r.None? && snap == Snapshot(old(t.links), old(t.names)) && !Linked(snap.links, destination, window) ==>
              t.links == old(t.links) || exists index :: t.links == old(t.links) + [Link(destination, window, index)]
    ensures t.calm && t.reliable && snap == Snapshot(old(t.links), old(t.names)) && Exists(snap.links, window) && destination in t.sessions ==>
              !Linked(snap.links, destination, window) ==> r.Some?
  {
    var current := snap;
    for attempt := 0 to LINK_ATTEMPTS
      invariant Harmless(t) && t.dropped == old(t.dropped) && Seen(current, t.names)
      invariant t.calm ==> t.sessions == old(t.sessions) && t.owners == old(t.owners) && t.names == old(t.names)
      invariant t.calm && snap == Snapshot(old(t.links), old(t.names)) && !Linked(snap.links, destination, window) ==>
                  t.links == old(t.links) && current == snap
                  && (t.reliable && Exists(snap.links, window) && destination in t.sessions ==> attempt == 0)
    {
      var cancelled := t.Fault();
      if cancelled { return None; }
      var index := NextFreeIndex(current.links, destination, base);
      var ok := t.LinkWindow(window, destination, index);
      var listed := t.ListLinks();
      if listed.None? { return None; }
      current := listed.value;
      if Linked(current.links, destination, window) { return Some(current); }
    }
    return None;
  }

  /** Links the window to the destination unless it is there already; says whether it had to. */
  method EnsureLinked(t: Server, window: string, destination: string, snap: Snapshot) returns (r: Option<Snapshot>, linked: bool)
    requires t.Valid() && Seen(snap, t.names)
    modifies t
    ensures Harmless(t) && t.dropped == old(t.dropped)
    ensures t.calm ==> t.sessions == old(t.sessions) && t.owners == old(t.owners) && t.names == old(t.names)
    ensures r.Some? ==> Linked(r.value.links, destination, window) && Seen(r.value, t.names)
    ensures t.calm && r.Some? && snap == Snapshot(old(t.links), old(t.names)) ==>
              && r.value == Snapshot(t.links, t.names)
              && linked == !Linked(old(t.links), destination, window)
              && (if linked then t.baseIndex.Some? && exists index :: LeastFree(old(t.links), destination, t.baseIndex.value, index) && t.links == old(t.links) + [Link(destination, window, index)]
                  else t.links == old(t.links))
    ensures t.calm && r.None? && snap == Snapshot(old(t.links), old(t.names)) ==>
              t.links == old(t.links) || exists index :: t.links == old(t.links) + [Link(destination, window, index)]
    ensures t.calm && t.reliable && snap == Snapshot(old(t.links), old(t.names)) && Exists(snap.links, window) && destination in t.sessions ==>
              (r.Some? <==> Linked(snap.links, destination, window) || t.baseIndex.Some?)
  {
    if Linked(snap.links, destination, window) { return Some(snap), false; }
    var failed := t.Fault();
    if failed || t.baseIndex.None? { return None, false; }
    r := LinkWithRetry(t, window, destination, t.baseIndex.value, snap);
    linked := r.Some?;
  }

  // ---- placeholders -------------------------------------------------------------------------------

  /** The window carries the placeholder's name. */
  predicate NamedPlaceholder(names: map<string, string>, window: string) { window in names && names[window] == PLACEHOLDER }

  predicate IsPlaceholder(l: Link, snap: Snapshot, protected: string) {
    && l.session == ACTIVE && NamedPlaceholder(snap.names, l.window)
    && l.window != protected && !HasSource(snap.links, l.window)
  }

  function Placeholders(links: Links, snap: Snapshot, protected: string): seq<string> {
    if links == [] then []
    else if IsPlaceholder(links[0], snap, protected) then [links[0].window] + Placeholders(links[1..], snap, protected)
    else Placeholders(links[1..], snap, protected)
  }

  function ActiveCount(links: Links): nat {
    if links == [] then 0 else (if links[0].session == ACTIVE then 1 else 0) + ActiveCount(links[1..])
  }

  lemma {:induction false} PlaceholdersSpec(links: Links, snap: Snapshot, protected: string)
    ensures forall w :: w in Placeholders(links, snap, protected) <==> exists i :: 0 <= i < |links| && links[i].window == w && IsPlaceholder(links[i], snap, protected)
  {
    hide IsPlaceholder;
    if links != [] {
      var t := links[1..];
      PlaceholdersSpec(t, snap, protected);
      assert forall i :: 0 <= i < |t| ==> t[i] == links[i + 1];
      forall w ensures w in Placeholders(links, snap, protected) <==> exists i :: 0 <= i < |links| && links[i].window == w && IsPlaceholder(links[i], snap, protected) {
        if exists i :: 0 <= i < |t| && t[i].window == w && IsPlaceholder(t[i], snap, protected) {
          var i :| 0 <= i < |t| && t[i].window == w && IsPlaceholder(t[i], snap, protected);
          assert links[i + 1] == t[i];
        }
        if exists i :: 0 <= i < |links| && links[i].window == w && IsPlaceholder(links[i], snap, protected) {
          var i :| 0 <= i < |links| && links[i].window == w && IsPlaceholder(links[i], snap, protected);
          assert i > 0 ==> t[i - 1] == links[i];
        }
      }
    }
  }

  lemma {:induction false} OneActive(links: Links, window: string, other: string)
    requires ActiveCount(links) <= 1 && HasActive(links, window) && HasActive(links, other)
    ensures window == other
  {
    var t := links[1..];
    var i :| 0 <= i < |links| && links[i].session == ACTIVE && links[i].window == window;
    var j :| 0 <= j < |links| && links[j].session == ACTIVE && links[j].window == other;
    assert i > 0 ==> t[i - 1] == links[i];
    assert j > 0 ==> t[j - 1] == links[j];
    if links[0].session == ACTIVE {
      NoActiveLeft(t, window);
      NoActiveLeft(t, other);
      assert i > 0 ==> HasActive(t, window);
      assert j > 0 ==> HasActive(t, other);
    } else {
      OneActive(t, window, other);
    }
  }

  lemma {:induction false} NoActiveLeft(links: Links, window: string)
    requires ActiveCount(links) == 0
    ensures !HasActive(links, window)
  {
    if links != [] {
      NoActiveLeft(links[1..], window);
      assert forall i :: 0 < i < |links| ==> links[i] == links[1..][i - 1];
    }
  }

  lemma {:induction false} PlaceholdersDistinct(links: Links, snap: Snapshot, protected: string, n: nat)
    requires Proper(links) && n < |Placeholders(links, snap, protected)|
    ensures var w := Placeholders(links, snap, protected)[n]; HasActive(links, w) && w !in Placeholders(links, snap, protected)[..n]
  {
    hide IsPlaceholder;
    var t := links[1..];
    assert forall i :: 0 <= i < |t| ==> t[i] == links[i + 1];
    PlaceholdersSpec(t, snap, protected);
    PlaceholderActive(links[0], snap, protected);
    if IsPlaceholder(links[0], snap, protected) {
      var rest := Placeholders(t, snap, protected);
      if n > 0 {
        PlaceholdersDistinct(t, snap, protected, n - 1);
        TailActive(links, rest[n - 1]);
        assert ([links[0].window] + rest)[..n] == [links[0].window] + rest[..n - 1];
        var i :| 0 <= i < |t| && t[i].session == ACTIVE && t[i].window == rest[n - 1];
        assert links[i + 1] == t[i];
      }
    } else {
      PlaceholdersDistinct(t, snap, protected, n);
      TailActive(links, Placeholders(t, snap, protected)[n]);
    }
  }

  lemma PlaceholderActive(l: Link, snap: Snapshot, protected: string)
    ensures IsPlaceholder(l, snap, protected) ==> l.session == ACTIVE
  {
  }

  lemma PlaceholdersNamed(snap: Snapshot, protected: string, names: map<string, string>)
    requires Seen(snap, names)
    ensures forall w :: w in Placeholders(snap.links, snap, protected) ==>
              w != protected && NamedPlaceholder(snap.names, w) && IsWindowID(w) && !HasSource(snap.links, w)
  {
    hide IsWindowID, Placeholders;
    PlaceholdersSpec(snap.links, snap, protected);
  }

  /** Where the kill hit the placeholder itself, and not a window named like its id, its alias is gone. */
  lemma KilledAlias(links: Links, names: map<string, string>, w: string, i: int)
    requires i == TargetOf(links, names, ACTIVE, w) && i >= 0
    requires HasActive(links, w) && !HasActive(Unlinked(links, ACTIVE, links[i].window), w)
    ensures links[i].window == w
  {
    UnlinkedHas(links, ACTIVE, links[i].window, ACTIVE, w);
  }

  /** No window carries a name that looks like a window id. */
  ghost predicate NoneNamedLikeIds(names: map<string, string>) { forall w :: w in names ==> !IsWindowID(names[w]) }

  /** Then a kill by id hits that very window. */
  lemma KillHits(t: Server, w: string)
    requires t.Valid() && NoneNamedLikeIds(t.names) && IsWindowID(w) && HasActive(t.links, w)
    ensures ACTIVE in t.sessions
    ensures var i := TargetOf(t.links, t.names, ACTIVE, w); i >= 0 && t.links[i].window == w
    ensures !HasActive(Unlinked(t.links, ACTIVE, w), w)
  {
    var k :| 0 <= k < |t.links| && t.links[k].session == ACTIVE && t.links[k].window == w;
    assert Matches(t.links[k], t.names, ACTIVE, w);
    TargetNamed(t.links, t.names, w);
    UnlinkedHas(t.links, ACTIVE, w, ACTIVE, w);
  }

  /**
   * Removes leftover placeholders while the session has other links; `killed` names the windows whose aliases
   * went. Where a kill hits a window named like a placeholder's id, the cleanup fails on the spot.
   */
  method CleanupPlaceholders(t: Server, protected: string, snap: Snapshot) returns (ok: bool, later: Snapshot, ghost killed: set<string>)
    requires t.Valid() && Seen(snap, t.names)
    modifies t
    ensures Harmless(t)
    ensures t.calm ==> t.sessions == old(t.sessions) && t.owners == old(t.owners) && t.names == old(t.names)
    ensures ok ==> protected !in killed
    ensures t.calm && snap == Snapshot(old(t.links), old(t.names)) ==>
              t.links == Without(old(t.links), killed) && forall w :: w in killed ==> Replaceable(t.names, w)
    ensures t.calm && snap == Snapshot(old(t.links), old(t.names)) && ok ==>
              && later == Snapshot(t.links, t.names)
              && (forall w :: w in killed ==> NamedPlaceholder(t.names, w) && !HasSource(snap.links, w))
              && (ActiveCount(t.links) <= 1 || forall w :: w in Placeholders(snap.links, snap, protected) ==> w in killed)
    ensures t.calm && t.reliable && snap == Snapshot(old(t.links), old(t.names)) && NoneNamedLikeIds(t.names) ==> ok
  {
    hide Without, Placeholders, Unlinked, Proper, TargetOf, ActiveCount, HasActive, IsWindowID, LinkedElsewhere;
    later, killed := snap, {};
    var placeholders := Placeholders(snap.links, snap, protected);
    PlaceholdersNamed(snap, protected, t.names);
    WithoutNone(snap.links, {});
    for i := 0 to |placeholders|
      invariant Harmless(t) && Seen(snap, t.names)
      invariant t.calm ==> t.sessions == old(t.sessions) && t.owners == old(t.owners) && t.names == old(t.names)
      invariant forall w :: w in killed <==> w in placeholders[..i]
      invariant forall w :: w in killed ==> w in placeholders && w != protected && NamedPlaceholder(snap.names, w) && !HasSource(snap.links, w)
      invariant t.calm && snap == Snapshot(old(t.links), old(t.names)) ==>
                  later == Snapshot(t.links, t.names) && t.links == Without(old(t.links), killed)
    {
      var w := placeholders[i];
      assert w in placeholders && placeholders[..i + 1] == placeholders[..i] + [w];
      if ActiveCount(later.links) <= 1 { return true, later, killed; }
      var cancelled := t.Fault();
      if cancelled { return false, later, killed; }
      ghost var was, dropped, names := t.links, t.dropped, t.names;
      if t.calm && snap == Snapshot(old(t.links), old(t.names)) {
        PlaceholdersDistinct(snap.links, snap, protected, i);
        WithoutHas(snap.links, killed, w);
        if NoneNamedLikeIds(t.names) { KillHits(t, w); }
      }
      var done := t.KillWindow(ACTIVE, w);
      SafeDropsTrans(old(t.dropped), dropped, t.dropped, names, t.names);
      if !done { return false, later, killed; }
      ghost var hit := if t.calm then was[TargetOf(was, t.names, ACTIVE, w)].window else w;
      if t.calm {
        WithoutOne(snap.links, killed, hit);
        TargetNamed(was, t.names, w);
      }
      var listed := t.ListLinks();
      if listed.None? { return false, later, killed + {hit}; }
      if HasActive(listed.value.links, w) { return false, listed.value, killed + {hit}; }
      if t.calm && snap == Snapshot(old(t.links), old(t.names)) {
        KilledNext(snap.links, t.names, was, killed, w, t.links);
      }
      killed := killed + {w};
      later := listed.value;
    }
    assert placeholders[..|placeholders|] == placeholders;
    return true, later, killed;
  }

  /** A kill by a window id hits that window or one that has the id for its name. */
  lemma TargetNamed(links: Links, names: map<string, string>, w: string)
    requires IsWindowID(w) && TargetOf(links, names, ACTIVE, w) >= 0
    ensures var hit := links[TargetOf(links, names, ACTIVE, w)].window;
            hit == w || (hit in names && names[hit] == w)
  {
    NumberIsNoID(links[TargetOf(links, names, ACTIVE, w)].index);
  }

  lemma KilledNext(links: Links, names: map<string, string>, was: Links, killed: set<string>, w: string, now: Links)
    requires was == Without(links, killed) && HasActive(links, w) && w !in killed
    requires var i := TargetOf(was, names, ACTIVE, w); i >= 0 && now == Unlinked(was, ACTIVE, was[i].window)
    requires !HasActive(now, w)
    ensures now == Without(links, killed + {w})
  {
    var i := TargetOf(was, names, ACTIVE, w);
    WithoutOne(links, killed, was[i].window);
    WithoutOne(links, killed, w);
    WithoutHas(links, killed, w);
    KilledAlias(was, names, w, i);
  }

  /** Takes a new alias back, unless it is gone already or has become the last link. */
  method Rollback(t: Server, window: string, linked: bool) returns (undone: bool)
    requires t.Valid()
    modifies t
    ensures Harmless(t) && t.dropped == old(t.dropped)
    ensures t.calm ==> t.sessions == old(t.sessions) && t.owners == old(t.owners) && t.names == old(t.names)
    ensures !linked ==> !undone && (t.calm ==> t.links == old(t.links))
    ensures t.calm && undone ==> !HasActive(t.links, window) && t.links == Unlinked(old(t.links), ACTIVE, window)
    ensures t.calm && !undone ==> t.links == old(t.links)
  {
    if !linked { return false; }
    var listed := t.ListLinks();
    if listed.None? { return false; }
    var before := ForWindow(listed.value.links, window);
    ForWindowSpec(listed.value.links, window);
    if !before.hasActive || before.sources == [] { return false; }
    var cancelled := t.Fault();
    if cancelled { return false; }
    ghost var was := t.links;
    undone := t.UnlinkWindow(ACTIVE, window);
    UnlinkedHas(was, ACTIVE, window, ACTIVE, window);
  }

  // ---- promote ------------------------------------------------------------------------------------

  /** The session a promotion target names: any, for a window id; none if the target is malformed or is the alias itself. */
  function SourceSession(target: string): Option<string> {
    if target == "" || IsSpace(target[0]) || IsSpace(target[|target| - 1]) || '\0' in target || '\r' in target || '\n' in target then None
    else if IsWindowID(target) then Some("")
    else
      var (head, rest) := Cut(target, ':');
      if head == "" || rest == Some("") || head == ACTIVE then None else Some(head)
  }

  /** A target `session:window` names its session, one without a colon too; nothing is named in the active session. */
  lemma TargetsOf(session: string, window: string)
    requires session != "" && ':' !in session && IsWindowID(session) == false
    requires forall c :: c in session + window ==> !IsSpace(c) && c !in {'\0', '\r', '\n'}
    ensures SourceSession(session) == if session == ACTIVE then None else Some(session)
    ensures SourceSession(session + ":" + window) == if session == ACTIVE || window == "" then None else Some(session)
    ensures IsWindowID(window) ==> SourceSession(window) == Some("")
    ensures SourceSession(":" + window) == None && SourceSession(" " + session) == None && SourceSession(session + " ") == None
    ensures forall t :: t == "" || '\0' in t || '\r' in t || '\n' in t ==> SourceSession(t) == None
  {
    var t := session + ":" + window;
    assert t == session + [':'] + window;
    CutAt(session, ':', window);
    CutNone(session, ':');
    assert ":" + window == [] + [':'] + window;
    CutAt([], ':', window);
    assert session[0] in session + window;
    assert session[|session| - 1] in session + window;
    assert window != "" ==> window[|window| - 1] in session + window && window[0] in session + window;
    assert t[|session|] == ':';
    assert forall c :: c in session ==> c in session + window;
    assert forall c :: c in window ==> c in session + window;
    assert forall c :: c in t ==> c in session || c == ':' || c in window;
    assert t[0] == session[0] && t[|t| - 1] == if window == "" then ':' else window[|window| - 1];
    assert !IsDigit(t[|session|]) && !IsWindowID(t);
    assert !IsWindowID(":" + window);
    assert (session + " ")[|session|] == ' ' && (" " + session)[0] == ' ';
  }

  /** The target allows this link as the window's source. */
  predicate Allowed(l: Link, window: string, target: string) {
    l.window == window && l.session != ACTIVE && (SourceSession(target) == Some("") || SourceSession(target) == Some(l.session))
  }

  /** Of the links the target allows, the first by session and index. */
  predicate SourceOf(links: Links, window: string, target: string, source: Link) {
    source in links && Allowed(source, window, target) && forall l :: l in links && Allowed(l, window, target) ==> !Before(l, source)
  }

  ghost predicate HasAllowed(links: Links, window: string, target: string) {
    exists l: Link :: l in links && Allowed(l, window, target)
  }

  datatype Prepared = Prepared(window: string, source: Link, snap: Snapshot)

  /** The active session after the promotion made sure of it: as before, or new with one placeholder at index 1. */
  ghost predicate SessionMade(before: Links, after: Links, existed: bool, names: map<string, string>, later: map<string, string>) {
    if existed then after == before && later == names
    else exists w :: w !in names && later == names[w := PLACEHOLDER] && after == before + [Link(ACTIVE, w, 1)]
  }

  /** A source is found exactly if the target allows one, and then it is the first of those. */
  lemma FoundSource(links: Links, window: string, target: string)
    requires SourceSession(target).Some?
    ensures var found := SourceFor(ForWindow(links, window).sources, SourceSession(target).value);
            && (found.Some? <==> HasAllowed(links, window, target))
            && (found.Some? ==> SourceOf(links, window, target, found.value) && HasSource(links, window))
  {
    hide Before, SourceSession, ForWindow;
    ForWindowSpec(links, window);
    ForWindowOrdered(links, window);
    SourceForSpec(ForWindow(links, window).sources, SourceSession(target).value);
  }

  lemma AllowedMore(before: Links, after: Links, window: string, target: string)
    requires after == before || exists w, k: nat :: after == before + [Link(ACTIVE, w, k)]
    ensures HasAllowed(after, window, target) <==> HasAllowed(before, window, target)
  {
    hide SourceSession;
    forall l: Link | l.session != ACTIVE ensures l in after <==> l in before { }
  }

  method Prepare(t: Server, s: Store, target: string) returns (r: Option<Prepared>)
    requires t.Valid()
    modifies t, s
    ensures Harmless(t) && t.dropped == old(t.dropped)
    ensures r.Some? ==>
              && IsWindowID(r.value.window) && Seen(r.value.snap, t.names) && HasSource(r.value.snap.links, r.value.window)
              && SourceOf(r.value.snap.links, r.value.window, target, r.value.source)
    ensures t.calm && r.None? ==> t.links == old(t.links) || exists w :: t.links == old(t.links) + [Link(ACTIVE, w, 1)]
    ensures t.calm && r.Some? ==>
              && r.value.snap == Snapshot(t.links, t.names) && OwnershipOf(t.sessions, t.owners) == Owned
              && SessionMade(old(t.links), t.links, ACTIVE in old(t.sessions), old(t.names), t.names)
    ensures s.calm && r.Some? ==> s.rows == Current(old(s.rows), t.serverKey, t.epoch)
    ensures s.calm && r.None? ==> s.rows == old(s.rows) || s.rows == Current(old(s.rows), t.serverKey, t.epoch)
    ensures Steady(t, s) ==>
              (r.Some? <==> SourceSession(target).Some? && target in t.answers && IsWindowID(t.answers[target])
                            && HasAllowed(old(t.links), t.answers[target], target) && OwnershipOf(old(t.sessions), old(t.owners)) != Collision)
    ensures Steady(t, s) && r.Some? ==> r.value.window == t.answers[target]
  {
    hide HasAllowed, IsWindowID, OwnershipOf, SourceOf, SourceSession, ForWindow, SourceFor, LinkedElsewhere;
    var session := SourceSession(target);
    if session.None? { return None; }
    var resolved := t.ResolveWindow(target);
    if resolved.None? || !IsWindowID(resolved.value) { return None; }
    var window := resolved.value;
    var initial := t.ListLinks();
    if initial.None? { return None; }
    FoundSource(initial.value.links, window, target);
    if SourceFor(ForWindow(initial.value.links, window).sources, session.value).None? { return None; }
    ghost var before := t.links;
    var owned := EnsureOwned(t);
    if !owned { return None; }
    var epoch := ReconcileEpoch(t, s);
    if epoch.None? { return None; }
    var listed := t.ListLinks();
    if listed.None? { return None; }
    FoundSource(listed.value.links, window, target);
    if t.calm { AllowedMore(before, t.links, window, target); }
    var sources := ForWindow(listed.value.links, window).sources;
    var source := SourceFor(sources, session.value);
    if source.None? { return None; }
    return Some(Prepared(window, source.value, listed.value));
  }

  datatype Promotion = Bypassed | Promoted(window: string) | PromoteFailed(undone: Option<string>)

  /**
   * What a promotion leaves behind, where nobody else acts: every link but those of placeholders
   * shown nowhere else, and no new one but the window's.
   */
  ghost predicate PromotedOutcome(before: Links, after: Links, names: map<string, string>, existed: bool, base: Option<nat>, window: string) {
    && HasActive(after, window) && HasSource(after, window)
    && (forall l: Link :: l.session != ACTIVE ==> (l in after <==> l in before))
    && (forall l: Link :: l.session == ACTIVE && l in before && (l.window == window || !NamedPlaceholder(names, l.window) || HasSource(before, l.window)) ==> l in after)
    && (forall l: Link :: l in after && l !in before ==> l.session == ACTIVE && l.window == window)
    && (forall w :: w != window && HasActive(after, w) && NamedPlaceholder(names, w) ==> HasSource(after, w))
    && (!HasActive(before, window) ==>
          base.Some? && exists index :: Link(ACTIVE, window, index) in after && base.value <= index && !IndexUsed(before, ACTIVE, index)
                                        && forall k :: base.value <= k < index ==> IndexUsed(before, ACTIVE, k) || (!existed && k == 1))
  }

  /** From the pruned links to the final ones: session made, alias linked, placeholders cleaned. */
  lemma PromotionFacts(pruned: Links, made: Links, linked: Links, after: Links, names: map<string, string>, later: map<string, string>,
                       existed: bool, base: Option<nat>, window: string, killed: set<string>)
    requires SessionMade(pruned, made, existed, names, later) && Proper(linked)
    requires HasSource(made, window) && HasActive(linked, window)
    requires forall i :: 0 <= i < |pruned| ==> pruned[i].window in names
    requires forall i :: 0 <= i < |linked| ==> linked[i].window in later
    requires if HasActive(made, window) then linked == made
             else base.Some? && exists index :: LeastFree(made, ACTIVE, base.value, index) && linked == made + [Link(ACTIVE, window, index)]
    requires after == Without(linked, killed) && window !in killed
    requires forall w :: w in killed ==> NamedPlaceholder(later, w) && !HasSource(linked, w)
    requires ActiveCount(after) <= 1 || forall w :: w in Placeholders(linked, Snapshot(linked, later), window) ==> w in killed
    ensures PromotedOutcome(pruned, after, later, existed, base, window)
  {
    hide Without, Linked, LinkedElsewhere, SessionMade, LeastFree, NamedPlaceholder, IndexUsed, Proper, ActiveCount, Placeholders;
    WithoutHas(linked, killed, window);
    WithoutSpec(linked, killed);
    MadeFacts(pruned, made, existed, names, later, window);
    LinkedFacts(made, linked, window, base);
    NoneLeft(linked, after, killed, later, window);
    AliasesStay(pruned, after, names, later, window);
    forall l: Link | l in pruned && HasSource(pruned, l.window) ensures l.window !in killed { SourceStill(pruned, linked, l.window); }
    if !HasActive(pruned, window) { NewIndex(pruned, made, linked, after, killed, existed, base, window); }
  }

  lemma SourceStill(before: Links, after: Links, window: string)
    requires forall l :: l in before ==> l in after
    ensures HasSource(before, window) ==> HasSource(after, window)
  {
    if HasSource(before, window) {
      var i :| 0 <= i < |before| && before[i].session != ACTIVE && before[i].window == window;
      assert before[i] in after;
      var j :| 0 <= j < |after| && after[j] == before[i];
    }
  }

  /** The index a new alias got is the least one free of the pruned links and of the placeholder. */
  lemma NewIndex(pruned: Links, made: Links, linked: Links, after: Links, killed: set<string>, existed: bool, base: Option<nat>, window: string)
    requires base.Some? && exists index :: LeastFree(made, ACTIVE, base.value, index) && Link(ACTIVE, window, index) in linked
    requires forall k :: IndexUsed(made, ACTIVE, k) <==> IndexUsed(pruned, ACTIVE, k) || (!existed && k == 1)
    requires window !in killed && forall l :: l in after <==> l in linked && !(l.session == ACTIVE && l.window in killed)
    ensures exists index :: Link(ACTIVE, window, index) in after && base.value <= index && !IndexUsed(pruned, ACTIVE, index)
                            && forall k :: base.value <= k < index ==> IndexUsed(pruned, ACTIVE, k) || (!existed && k == 1)
  {
    hide IndexUsed;
    var index :| LeastFree(made, ACTIVE, base.value, index) && Link(ACTIVE, window, index) in linked;
    assert Link(ACTIVE, window, index) in after;
  }

  /** No other placeholder is left, but with a source. */
  lemma NoneLeft(linked: Links, after: Links, killed: set<string>, later: map<string, string>, window: string)
    requires Proper(linked) && after == Without(linked, killed) && HasActive(after, window)
    requires forall i :: 0 <= i < |linked| ==> linked[i].window in later
    requires ActiveCount(after) <= 1 || forall w :: w in Placeholders(linked, Snapshot(linked, later), window) ==> w in killed
    ensures forall w :: w != window && HasActive(after, w) && NamedPlaceholder(later, w) ==> HasSource(after, w)
  {
    hide Without, Proper, ActiveCount, Placeholders;
    forall w | w != window && HasActive(after, w) && NamedPlaceholder(later, w) ensures HasSource(after, w) {
      WithoutHas(linked, killed, w);
      if ActiveCount(after) <= 1 {
        OneActive(after, window, w);
      } else {
        PlaceholdersSpec(linked, Snapshot(linked, later), window);
        var i :| 0 <= i < |linked| && linked[i].session == ACTIVE && linked[i].window == w;
        assert IsPlaceholder(linked[i], Snapshot(linked, later), window) || HasSource(linked, w);
      }
    }
  }

  /** A placeholder of an active session just made has no other link, so it does not stay. */
  lemma AliasesStay(pruned: Links, after: Links, names: map<string, string>, later: map<string, string>, window: string)
    requires forall i :: 0 <= i < |pruned| ==> pruned[i].window in names
    requires forall l: Link :: l.session != ACTIVE ==> (l in after <==> l in pruned)
    requires forall l :: l in after && l !in pruned && l.window != window ==> l.window !in names && NamedPlaceholder(later, l.window)
    requires forall w :: w != window && HasActive(after, w) && NamedPlaceholder(later, w) ==> HasSource(after, w)
    ensures forall l :: l in after && l !in pruned ==> l.session == ACTIVE && l.window == window
  {
    hide HasActive;
    forall l | l in after && l !in pruned ensures l.session == ACTIVE && l.window == window {
      if l.window != window {
        InActive(after, l);
        assert false;
      }
    }
  }

  lemma InActive(links: Links, l: Link)
    requires l in links && l.session == ACTIVE
    ensures HasActive(links, l.window)
  {
    var i :| 0 <= i < |links| && links[i] == l;
  }

  lemma MadeFacts(pruned: Links, made: Links, existed: bool, names: map<string, string>, later: map<string, string>, window: string)
    requires SessionMade(pruned, made, existed, names, later) && HasSource(made, window)
    requires forall i :: 0 <= i < |pruned| ==> pruned[i].window in names
    ensures forall l :: l in pruned ==> l in made
    ensures forall l :: l in made && l !in pruned ==>
              !existed && l.session == ACTIVE && l.index == 1 && l.window != window && l.window !in names && NamedPlaceholder(later, l.window)
    ensures HasActive(made, window) <==> HasActive(pruned, window)
    ensures forall k :: IndexUsed(made, ACTIVE, k) <==> IndexUsed(pruned, ACTIVE, k) || (!existed && k == 1)
  {
    if !existed {
      var w :| w !in names && later == names[w := PLACEHOLDER] && made == pruned + [Link(ACTIVE, w, 1)];
      var n := |pruned|;
      assert made[n] == Link(ACTIVE, w, 1) && forall i :: 0 <= i < n ==> made[i] == pruned[i];
      var j :| 0 <= j < |made| && made[j].session != ACTIVE && made[j].window == window;
      assert window == pruned[j].window;
      forall k ensures IndexUsed(made, ACTIVE, k) <==> IndexUsed(pruned, ACTIVE, k) || k == 1 {
        if IndexUsed(pruned, ACTIVE, k) {
          var i :| 0 <= i < n && pruned[i].session == ACTIVE && pruned[i].index == k;
          assert made[i].index == k;
        }
      }
      if HasActive(pruned, window) {
        var i :| 0 <= i < n && pruned[i].session == ACTIVE && pruned[i].window == window;
        assert made[i] == pruned[i];
      }
    }
  }

  lemma LinkedFacts(made: Links, linked: Links, window: string, base: Option<nat>)
    requires HasSource(made, window) && HasActive(linked, window)
    requires if HasActive(made, window) then linked == made
             else base.Some? && exists index :: LeastFree(made, ACTIVE, base.value, index) && linked == made + [Link(ACTIVE, window, index)]
    ensures HasSource(linked, window)
    ensures forall l :: l in made ==> l in linked
    ensures forall l :: l in linked && l !in made ==> l.session == ACTIVE && l.window == window
    ensures !HasActive(made, window) ==> base.Some? && exists index :: LeastFree(made, ACTIVE, base.value, index) && Link(ACTIVE, window, index) in linked
  {
    var i :| 0 <= i < |made| && made[i].session != ACTIVE && made[i].window == window;
    assert linked[i] == made[i];
    if !HasActive(made, window) {
      var index :| LeastFree(made, ACTIVE, base.value, index) && linked == made + [Link(ACTIVE, window, index)];
      assert linked[|made|] == Link(ACTIVE, window, index);
    }
  }

  /** No link outside the active session is touched, and in it only placeholders and windows named like one's id. */
  ghost predicate Preserved(before: Links, after: Links, names: map<string, string>) {
    && (forall l: Link :: l.session != ACTIVE ==> (l in after <==> l in before))
    && (forall l: Link :: l.session == ACTIVE && l in before && !Replaceable(names, l.window) ==> l in after)
  }

  lemma PreservedOn(a: Links, b: Links, c: Links, names: map<string, string>)
    requires Preserved(a, b, names) && Preserved(b, c, names)
    ensures Preserved(a, c, names)
  {
  }

  lemma PreservedMore(before: Links, after: Links, names: map<string, string>)
    requires after == before || exists w, k: nat :: after == before + [Link(ACTIVE, w, k)]
    ensures Preserved(before, after, names)
  {
  }

  lemma PreservedWithout(before: Links, gone: set<string>, names: map<string, string>)
    requires forall w :: w in gone ==> Replaceable(names, w)
    ensures Preserved(before, Without(before, gone), names)
  {
    hide Without;
    WithoutSpec(before, gone);
  }

  lemma PreservedPruned(links: Links, after: Links, expiring: set<string>, names: map<string, string>)
    requires PartlyPruned(links, after, expiring)
    ensures Preserved(Without(links, expiring), after, names)
  {
    hide Without, Replaceable;
    var gone :| gone <= expiring && after == Without(links, gone);
    WithoutSpec(links, gone);
    WithoutSpec(links, expiring);
  }

  /** Taking back an alias that was not there in the beginning. */
  lemma PreservedBack(first: Links, before: Links, window: string, names: map<string, string>)
    requires Preserved(first, before, names) && !HasActive(first, window)
    ensures Preserved(first, Unlinked(before, ACTIVE, window), names)
  {
    hide Unlinked, Replaceable;
    UnlinkedSpec(before, ACTIVE, window);
    forall l: Link | l.session == ACTIVE && l in first ensures l.window != window {
      var i :| 0 <= i < |first| && first[i] == l;
    }
  }

  /**
   * What a promotion that fails leaves of the pruned links: all of them, but for placeholders and windows
   * named like a placeholder's id; and if it took an alias back, that alias was not there before.
   */
  ghost predicate FailedOutcome(before: Links, after: Links, names: map<string, string>, undone: Option<string>) {
    && Preserved(before, after, names)
    && (undone.Some? ==> !HasActive(before, undone.value) && !HasActive(after, undone.value))
  }

  /** From the pruned links to those a rollback leaves. */
  lemma FailureFacts(pruned: Links, made: Links, alias: Links, cleaned: Links, after: Links, names: map<string, string>, later: map<string, string>,
                     existed: bool, base: Option<nat>, window: string, killed: set<string>, undone: bool)
    requires SessionMade(pruned, made, existed, names, later) && HasSource(made, window)
    requires forall i :: 0 <= i < |pruned| ==> pruned[i].window in names
    requires if HasActive(made, window) then alias == made && !undone
             else exists index: nat :: alias == made + [Link(ACTIVE, window, index)]
    requires cleaned == Without(alias, killed) && forall w :: w in killed ==> Replaceable(later, w)
    requires if undone then after == Unlinked(cleaned, ACTIVE, window) else after == cleaned
    ensures FailedOutcome(pruned, after, later, if undone then Some(window) else None)
  {
    hide Without, Unlinked, Preserved, Linked, LinkedElsewhere, Replaceable;
    MadeFacts(pruned, made, existed, names, later, window);
    PreservedMore(pruned, made, later);
    PreservedMore(made, alias, later);
    PreservedWithout(alias, killed, later);
    PreservedOn(pruned, made, alias, later);
    PreservedOn(pruned, alias, cleaned, later);
    if undone {
      PreservedBack(pruned, cleaned, window, later);
      UnlinkedHas(cleaned, ACTIVE, window, ACTIVE, window);
    }
  }

  lemma PrunedIs(rows: Table, links: Links, epoch: string, now: int)
    ensures PrunedLinks(rows, links, epoch, now) == Without(links, Expiring(rows, links, epoch, now, Windows(rows, epoch)))
  {
  }

  /** Cleans up and persists; if either fails, takes the alias back where it was new. */
  method FinishPromotion(t: Server, s: Store, window: string, source: string, name: string, snap: Snapshot, linked: bool, now: int, ttl: int)
    returns (saved: bool, undone: bool, ghost killed: set<string>)
    requires t.Valid() && Seen(snap, t.names)
    modifies t, s
    ensures Harmless(t)
    ensures t.calm ==> t.sessions == old(t.sessions) && t.owners == old(t.owners) && t.names == old(t.names)
    ensures undone ==> linked && !saved
    ensures t.calm && undone ==> !HasActive(t.links, window)
    ensures t.calm && snap == Snapshot(old(t.links), old(t.names)) ==>
              && t.links == (if undone then Unlinked(Without(old(t.links), killed), ACTIVE, window) else Without(old(t.links), killed))
              && forall w :: w in killed ==> Replaceable(t.names, w)
    ensures t.calm && snap == Snapshot(old(t.links), old(t.names)) && saved ==>
              && window !in killed && (forall w :: w in killed ==> NamedPlaceholder(t.names, w) && !HasSource(snap.links, w))
              && (ActiveCount(t.links) <= 1 || forall w :: w in Placeholders(snap.links, snap, window) ==> w in killed)
    ensures s.calm ==> s.rows == if saved then Upserted(old(s.rows), (t.epoch, window), t.serverKey, source, name, now, ttl) else old(s.rows)
    ensures Steady(t, s) && snap == Snapshot(old(t.links), old(t.names)) && NoneNamedLikeIds(t.names) && window != "" && ttl > 0 ==> saved
  {
    hide Placeholders, ActiveCount, Without, Unlinked, Proper, Upserted, LinkedElsewhere, Linked, IsPlaceholder, Replaceable;
    var cleaned, later, gone := CleanupPlaceholders(t, window, snap);
    killed := gone;
    ghost var dropped, names := t.dropped, t.names;
    saved := false;
    if cleaned { saved := s.Upsert(t.serverKey, t.epoch, window, source, name, now, ttl); }
    undone := false;
    if !saved {
      undone := Rollback(t, window, linked);
      SafeDropsTrans(old(t.dropped), dropped, t.dropped, names, t.names);
    }
  }

  /** The target is well formed and names a window that has a source the target allows. */
  ghost predicate Promotable(links: Links, target: string, answers: map<string, string>) {
    && SourceSession(target).Some? && target in answers && IsWindowID(answers[target])
    && HasAllowed(links, answers[target], target)
  }

  /**
   * Success leaves the window in an owned active session, at the least free index if it was not there,
   * with its other links, a tracked row with its name and a source of it, no row of an older epoch and no
   * leftover placeholder. Failure leaves every link that was there, but for placeholders, and takes back no
   * alias that was there before. Where nothing fails of itself and no window is named like an id, what can be
   * promoted is.
   */
  method PromoteActiveWindow(t: Server, s: Store, cfg: ActiveConfig, target: string, now: int) returns (r: Promotion)
    requires t.Valid()
    modifies t, s
    ensures Harmless(t)
    ensures r == Bypassed <==> !cfg.enabled
    ensures r == Bypassed ==> Same(t) && s.rows == old(s.rows)
    ensures t.calm && r.Promoted? ==> OwnershipOf(t.sessions, t.owners) == Owned
    ensures t.calm && s.calm && r.Promoted? ==>
              var rows := Current(old(s.rows), t.serverKey, t.epoch);
              var links := PrunedLinks(rows, old(t.links), t.epoch, now);
              && PromotedOutcome(links, t.links, t.names, ACTIVE in old(t.sessions), t.baseIndex, r.window)
              && Ttl(cfg).Some? && r.window in t.names
              && exists source: Link :: SourceOf(links, r.window, target, source)
                                  && s.rows == Upserted(PrunedRows(rows, old(t.links), t.epoch, now), (t.epoch, r.window), t.serverKey,
                                                        source.session, t.names[r.window], now, Ttl(cfg).value)
    ensures t.calm && s.calm && r.PromoteFailed? ==>
              var rows := Current(old(s.rows), t.serverKey, t.epoch);
              && FailedOutcome(PrunedLinks(rows, old(t.links), t.epoch, now), t.links, t.names, r.undone)
              && (s.rows == old(s.rows) || PartlySwept(rows, s.rows, old(t.links), t.epoch, now))
              && (r.undone.Some? ==> s.rows == PrunedRows(rows, old(t.links), t.epoch, now))
    ensures t.calm && r.PromoteFailed? && r.undone.Some? ==> !HasActive(t.links, r.undone.value)
    ensures Steady(t, s) && NoneNamedLikeIds(old(t.names)) && (t.epoch, "") !in old(s.rows) ==>
              var links := PrunedLinks(Current(old(s.rows), t.serverKey, t.epoch), old(t.links), t.epoch, now);
              (r.Promoted? <==> Ttl(cfg).Some? && OwnershipOf(old(t.sessions), old(t.owners)) != Collision
                                && Promotable(links, target, t.answers) && (HasActive(links, t.answers[target]) || t.baseIndex.Some?))
  {
    hide Seen, HasAllowed, Exists, NoneNamedLikeIds, LinkCount, NamedPlaceholder, PartlySwept, PromotedOutcome, PrunedLinks, PrunedRows, Placeholders, ActiveCount, Without, Unlinked, Proper, SessionMade, Current, Preserved,
         Upserted, IsWindowID, LeastFree, LinkedElsewhere, OwnershipOf, Expiring, Windows, Swept, Classify, Linked, IsPlaceholder, PartlyPruned, Replaceable, SourceSession;
    if !cfg.enabled { return Bypassed; }
    ghost var rows0 := Current(s.rows, t.serverKey, t.epoch);
    ghost var expiring := Expiring(rows0, t.links, t.epoch, now, Windows(rows0, t.epoch));
    PrunedIs(rows0, t.links, t.epoch, now);
    NothingGone(t.links, expiring);
    PreservedPruned(t.links, t.links, expiring, t.names);
    var ttl := Ttl(cfg);
    if ttl.None? { return PromoteFailed(None); }
    var report := Prune(t, s, cfg, now);
    if report.None? {
      if t.calm && s.calm { PreservedPruned(old(t.links), t.links, expiring, t.names); }
      return PromoteFailed(None);
    }
    if t.calm && s.calm {
      StaleGone(old(s.rows), old(t.links), t.serverKey, t.epoch, now);
      AllSwept(rows0, old(t.links), t.epoch, now);
    }
    ghost var pruned, names, existed := t.links, t.names, ACTIVE in t.sessions;
    var prepared := Prepare(t, s, target);
    if prepared.None? {
      PreservedMadeMaybe(t.calm, pruned, t.links, t.names);
      return PromoteFailed(None);
    }
    var window, source, snap := prepared.value.window, prepared.value.source, prepared.value.snap;
    ghost var made := t.links;
    if Steady(t, s) {
      MadeActive(pruned, made, existed, names, t.names, window);
      OwnedThere(t.sessions, t.owners);
      IdNotEmpty(window);
    }
    var snapshot, linked := EnsureLinked(t, window, ACTIVE, snap);
    if snapshot.None? {
      if t.calm { LinkFailed(pruned, made, t.links, names, t.names, existed, window); }
      return PromoteFailed(None);
    }
    ghost var alias := t.links;
    var name := if window in snap.names then snap.names[window] else "";
    var saved, undone, killed := FinishPromotion(t, s, window, source.session, name, snapshot.value, linked, now, ttl.value);
    if !saved {
      if t.calm {
        FailureFacts(pruned, made, alias, Without(alias, killed), t.links, names, t.names, existed, t.baseIndex, window, killed, undone);
      }
      return PromoteFailed(if undone then Some(window) else None);
    }
    if t.calm && s.calm {
      PromotionFacts(pruned, made, alias, t.links, names, t.names, existed, t.baseIndex, window, killed);
      SourceLinked(pruned, made, names, t.names, existed, source, target);
    }
    return Promoted(window);
  }

  /** What the session just made adds is no alias of the window, nor a name like an id. */
  lemma MadeActive(pruned: Links, made: Links, existed: bool, names: map<string, string>, later: map<string, string>, window: string)
    requires SessionMade(pruned, made, existed, names, later) && HasSource(made, window)
    requires forall i :: 0 <= i < |pruned| ==> pruned[i].window in names
    ensures HasActive(made, window) <==> HasActive(pruned, window)
    ensures Exists(made, window)
    ensures NoneNamedLikeIds(names) ==> NoneNamedLikeIds(later)
  {
    MadeFacts(pruned, made, existed, names, later, window);
    var i :| 0 <= i < |made| && made[i].session != ACTIVE && made[i].window == window;
    assert !IsWindowID(PLACEHOLDER);
  }

  lemma AllSwept(rows: Table, links: Links, epoch: string, now: int)
    ensures PartlySwept(rows, PrunedRows(rows, links, epoch, now), links, epoch, now)
  {
  }

  lemma PreservedMadeMaybe(calm: bool, before: Links, after: Links, names: map<string, string>)
    requires calm ==> after == before || exists w :: after == before + [Link(ACTIVE, w, 1)]
    ensures calm ==> Preserved(before, after, names)
  {
    if calm { PreservedMore(before, after, names); }
  }

  lemma LinkFailed(pruned: Links, made: Links, after: Links, names: map<string, string>, later: map<string, string>, existed: bool, window: string)
    requires SessionMade(pruned, made, existed, names, later)
    requires after == made || exists index: nat :: after == made + [Link(ACTIVE, window, index)]
    ensures Preserved(pruned, after, later)
  {
    hide Preserved;
    PreservedMore(pruned, made, later);
    PreservedMore(made, after, later);
    PreservedOn(pruned, made, after, later);
  }

  lemma SourceLinked(pruned: Links, made: Links, names: map<string, string>, later: map<string, string>, existed: bool, source: Link, target: string)
    requires SessionMade(pruned, made, existed, names, later) && SourceOf(made, source.window, target, source)
    ensures SourceOf(pruned, source.window, target, source)
  {
    hide SourceSession, Before;
    forall l: Link | l.session != ACTIVE ensures l in made <==> l in pruned { }
  }

  /** Clearing stale epochs again after a prune finds nothing. */
  lemma StaleGone(all: Table, links: Links, serverKey: string, epoch: string, now: int)
    ensures var rows := PrunedRows(Current(all, serverKey, epoch), links, epoch, now); Current(rows, serverKey, epoch) == rows
  {
    hide HasActive, HasSource;
  }

  // ---- remove, recover, touch ---------------------------------------------------------------------

  /** Takes a window out of the active session; it needs another link to live on. */
  method RemoveActiveWindow(t: Server, s: Store, cfg: ActiveConfig, window: string) returns (ok: bool)
    requires t.Valid()
    modifies t, s
    ensures Harmless(t) && t.dropped == old(t.dropped)
    ensures ok ==> IsWindowID(window)
    ensures t.calm && ok ==> t.links == Unlinked(old(t.links), ACTIVE, window) && HasSource(t.links, window) && !HasActive(t.links, window)
    ensures s.calm && ok ==> s.rows == Current(old(s.rows), t.serverKey, t.epoch) - {(t.epoch, window)}
    ensures Steady(t, s) ==>
              (ok <==> Ttl(cfg).Some? && IsWindowID(window) && OwnershipOf(old(t.sessions), old(t.owners)) != Collision && HasSource(old(t.links), window))
  {
    hide Proper, Current, OwnershipOf;
    IdNotEmpty(window);
    if Ttl(cfg).None? || !IsWindowID(window) { return false; }
    var owned := RequireOwned(t);
    if owned.None? { return false; }
    var epoch := ReconcileEpoch(t, s);
    if epoch.None? { return false; }
    var snap := t.ListLinks();
    if snap.None? { return false; }
    var links := ForWindow(snap.value.links, window);
    ForWindowSpec(snap.value.links, window);
    if links.sources == [] { return false; }
    ghost var was := t.links;
    if links.hasActive {
      var later := UnlinkVerified(t, window, snap.value);
      if later.None? { return false; }
    } else {
      NoAlias(snap.value.links, window);
    }
    ok := s.Delete(epoch.value.1, window);
  }

  predicate Destination(name: string) {
    && name != "" && name != ACTIVE && ':' !in name && !IsSpace(name[0]) && !IsSpace(name[|name| - 1])
    && '\0' !in name && '\r' !in name && '\n' !in name
  }

  /** Where an orphan may go: to any session but the active one, under a name that can stand in a target. */
  lemma Destinations(name: string)
    requires name != "" && forall c :: c in name ==> !IsSpace(c) && c !in {'\0', '\r', '\n'}
    ensures Destination(name) <==> name != ACTIVE && ':' !in name
    ensures !Destination("") && !Destination(" " + name) && !Destination(name + " ") && !Destination(name + "\n")
    ensures !Destination(name + ":" + name) && forall t :: '\0' in t || '\r' in t || '\n' in t ==> !Destination(t)
  {
    assert name[0] in name && name[|name| - 1] in name;
    assert (name + ":" + name)[|name|] == ':';
    assert (name + " ")[|name|] == ' ' && (name + "\n")[|name|] == '\n' && (" " + name)[0] == ' ';
  }

  method FindRow(s: Store, epoch: string, window: string) returns (found: bool, row: Option<Row>)
    modifies s
    ensures s.calm ==> s.rows == old(s.rows)
    ensures found && row.Some? ==> (epoch, window) in s.rows && s.rows[(epoch, window)] == row.value
    ensures found && row.None? ==> (epoch, window) !in s.rows
    ensures s.reliable && epoch != "" ==> found
  {
    var rows := s.List(epoch);
    if rows.None? { return false, None; }
    for i := 0 to |rows.value|
      invariant s.calm ==> s.rows == old(s.rows)
      invariant Lists(rows.value, s.rows, epoch)
      invariant forall j :: 0 <= j < i ==> rows.value[j].0 != window
    {
      if rows.value[i].0 == window { return true, Some(rows.value[i].1); }
    }
    assert forall v :: (window, v) !in rows.value;
    return true, None;
  }

  /** The window linked to the destination, at the least free index if it was not there, and its alias gone; no other link changed. */
  ghost predicate Recovered(before: Links, after: Links, window: string, destination: string, base: Option<nat>) {
    if Linked(before, destination, window) then after == Unlinked(before, ACTIVE, window)
    else base.Some? && exists index :: LeastFree(before, destination, base.value, index)
                                       && after == Unlinked(before + [Link(destination, window, index)], ACTIVE, window)
  }

  predicate IsOrphan(rows: Table, key: Key) { key in rows && rows[key].state == Orphaned }

  lemma CurrentHas(rows: Table, serverKey: string, epoch: string, window: string)
    ensures var r := Current(rows, serverKey, epoch); IsOrphan(r, (epoch, window)) <==> IsOrphan(rows, (epoch, window))
  {
  }

  /** Gives an orphan a home: links it to the destination first, then takes the alias and the row away. */
  method RecoverActiveWindow(t: Server, s: Store, cfg: ActiveConfig, window: string, destination: string) returns (ok: bool)
    requires t.Valid()
    modifies t, s
    ensures Harmless(t) && t.dropped == old(t.dropped)
    ensures ok ==> IsWindowID(window) && Destination(destination)
    ensures t.calm && ok ==> Linked(t.links, destination, window) && !HasActive(t.links, window) && destination in t.sessions
    ensures t.calm && ok ==> Recovered(old(t.links), t.links, window, destination, t.baseIndex)
    ensures s.calm && ok ==>
              && s.rows == Current(old(s.rows), t.serverKey, t.epoch) - {(t.epoch, window)}
              && (t.epoch, window) in old(s.rows) && old(s.rows)[(t.epoch, window)].state == Orphaned
    ensures Steady(t, s) ==>
              (ok <==> Ttl(cfg).Some? && IsWindowID(window) && Destination(destination) && OwnershipOf(old(t.sessions), old(t.owners)) != Collision
                       && destination in old(t.sessions) && IsOrphan(old(s.rows), (t.epoch, window)) && Exists(old(t.links), window)
                       && (Linked(old(t.links), destination, window) || t.baseIndex.Some?))
  {
    hide Proper, LeastFree, OwnershipOf;
    if Ttl(cfg).None? || !IsWindowID(window) || !Destination(destination) { return false; }
    var owned := RequireOwned(t);
    if owned.None? { return false; }
    var there := t.HasSession(destination);
    if there.None? || !there.value { return false; }
    var epoch := ReconcileEpoch(t, s);
    if epoch.None? { return false; }
    var found, row := FindRow(s, epoch.value.1, window);
    if s.calm { CurrentHas(old(s.rows), t.serverKey, t.epoch, window); }
    IdNotEmpty(window);
    if !found || row.None? || row.value.state != Orphaned { return false; }
    ok := RecoverOrphan(t, s, epoch.value.1, window, destination);
  }

  lemma ExistsIs(links: Links, window: string)
    ensures Exists(links, window) <==> HasActive(links, window) || HasSource(links, window)
  {
  }

  /** A window linked to a session of its own has a source. */
  lemma LinkedIsSource(links: Links, session: string, window: string)
    requires session != ACTIVE && Linked(links, session, window)
    ensures HasSource(links, window)
  {
  }

  method RecoverOrphan(t: Server, s: Store, epoch: string, window: string, destination: string) returns (ok: bool)
    requires t.Valid() && Destination(destination)
    modifies t, s
    ensures Harmless(t) && t.dropped == old(t.dropped)
    ensures t.calm ==> t.sessions == old(t.sessions)
    ensures t.calm && ok ==> Linked(t.links, destination, window) && !HasActive(t.links, window)
    ensures t.calm && ok ==> Recovered(old(t.links), t.links, window, destination, t.baseIndex)
    ensures s.calm && ok ==> s.rows == old(s.rows) - {(epoch, window)}
    ensures Steady(t, s) && destination in t.sessions && epoch != "" && window != "" ==>
              (ok <==> Exists(old(t.links), window) && (Linked(old(t.links), destination, window) || t.baseIndex.Some?))
  {
    hide Proper, LeastFree;
    ExistsIs(t.links, window);
    var snap := t.ListLinks();
    if snap.None? { return false; }
    if !HasActive(snap.value.links, window) && !HasSource(snap.value.links, window) { return false; }
    var verified, linked := EnsureLinked(t, window, destination, snap.value);
    if verified.None? { return false; }
    var cancelled := t.Fault();
    if cancelled { return false; }
    if !Linked(verified.value.links, destination, window) { return false; }
    ghost var was := t.links;
    LinkedIsSource(verified.value.links, destination, window);
    if HasActive(verified.value.links, window) {
      var later := UnlinkVerified(t, window, verified.value);
      if later.None? { return false; }
      UnlinkedHas(was, ACTIVE, window, destination, window);
      UnlinkedHas(was, ACTIVE, window, ACTIVE, window);
    } else {
      NoAlias(verified.value.links, window);
    }
    ok := s.Delete(epoch, window);
  }

  /** Extends the life of a tracked window that is still shown; an absent row is no error, nor is one that could not be read. */
  method TouchActiveWindow(t: Server, s: Store, cfg: ActiveConfig, window: string, now: int) returns (touched: Option<bool>, ghost readable: bool)
    requires t.Valid()
    modifies t, s
    ensures Harmless(t) && t.dropped == old(t.dropped)
    ensures t.calm && s.calm && touched == Some(true) ==>
              var rows := PrunedRows(Current(old(s.rows), t.serverKey, t.epoch), old(t.links), t.epoch, now);
              var key := (t.epoch, window);
              && HasActive(t.links, window) && Ttl(cfg).Some?
              && key in rows && rows[key].state == Tracked && rows[key].expiresAt > now && rows[key].lastSelectedAt <= now
              && s.rows == rows[key := TouchedRow(rows[key], now, Ttl(cfg).value)]
    ensures t.calm && s.calm && touched == Some(false) ==>
              var rows := PrunedRows(Current(old(s.rows), t.serverKey, t.epoch), old(t.links), t.epoch, now);
              var key := (t.epoch, window);
              && s.rows == rows
              && (readable ==> key !in rows || rows[key].state != Tracked || rows[key].expiresAt <= now || rows[key].lastSelectedAt > now)
    ensures t.calm && s.calm && touched.Some? ==>
              t.links == PrunedLinks(Current(old(s.rows), t.serverKey, t.epoch), old(t.links), t.epoch, now)
    ensures Steady(t, s) && (t.epoch, "") !in old(s.rows) ==>
              readable && (touched.Some? <==> Ttl(cfg).Some? && IsWindowID(window) && OwnershipOf(old(t.sessions), old(t.owners)) != Collision)
  {
    hide PrunedLinks, PrunedRows, Current, OwnershipOf, Proper;
    readable := true;
    IdNotEmpty(window);
    if !cfg.enabled || !IsWindowID(window) { return None, true; }
    var ttl := Ttl(cfg);
    if ttl.None? { return None, true; }
    var report := Prune(t, s, cfg, now);
    if report.None? { return None, true; }
    var owned := RequireOwned(t);
    if owned.None? { return None, true; }
    StaleGone(old(s.rows), old(t.links), t.serverKey, t.epoch, now);
    PrunedSpec(Current(old(s.rows), t.serverKey, t.epoch), old(t.links), t.epoch, now, window);
    var epoch := ReconcileEpoch(t, s);
    if epoch.None? { return None, true; }
    var found, row := FindRow(s, epoch.value.1, window);
    readable := found;
    if !found || row.None? { return Some(false), readable; }
    if row.value.state != Tracked || row.value.expiresAt <= now { return Some(false), true; }
    var snap := t.ListLinks();
    if snap.None? { return None, true; }
    ForWindowSpec(snap.value.links, window);
    if !ForWindow(snap.value.links, window).hasActive {
      var gone := s.Delete(epoch.value.1, window);
      return if gone then Some(false) else None, true;
    }
    touched := s.Touch(epoch.value.1, window, now, ttl.value);
  }

  // ---- managed kills ----------------------------------------------------------------------------------

  /** The aliases to take away before a session ends: of the windows it shows. */
  predicate AliasGoes(links: Links, session: string, window: string) {
    HasActive(links, window) && session != ACTIVE && session != "" && Linked(links, session, window)
  }

  /** Unlinks those aliases, taking the windows in any order; a failure aborts the kill. */
  method CleanupAliases(t: Server, session: string) returns (ok: bool)
    requires t.Valid()
    modifies t
    ensures Harmless(t) && t.dropped == old(t.dropped)
    ensures t.calm && ok && ACTIVE in t.sessions ==>
              forall w :: (HasActive(t.links, w) <==> HasActive(old(t.links), w) && !AliasGoes(old(t.links), session, w))
                          && (HasSource(t.links, w) <==> HasSource(old(t.links), w))
                          && (Linked(t.links, session, w) <==> Linked(old(t.links), session, w) && (session == ACTIVE ==> HasActive(t.links, w)))
    ensures t.calm ==> t.sessions == old(t.sessions) && t.owners == old(t.owners) && t.names == old(t.names)
    ensures t.calm && t.reliable ==> (ok <==> OwnershipOf(old(t.sessions), old(t.owners)) != Collision)
  {
    hide Proper, Without, LinkedElsewhere;
    var owned := InspectOwnership(t);
    if owned.None? || owned.value == Collision { return false; }
    if owned.value == Absent { return true; }
    var snap := t.ListLinks();
    if snap.None? { return false; }
    var links := snap.value.links;
    var left := set i | 0 <= i < |links| :: links[i].window;
    forall w | AliasGoes(links, session, w) ensures w in left { Shown(links, session, w); }
    ghost var gone: set<string> := {};
    WithoutNone(links, {});
    while left != {}
      invariant Harmless(t) && t.dropped == old(t.dropped)
      invariant t.calm ==> t.sessions == old(t.sessions) && t.owners == old(t.owners) && t.names == old(t.names)
      invariant gone !! left
      invariant forall w :: w in gone ==> AliasGoes(links, session, w)
      invariant forall w :: AliasGoes(links, session, w) ==> w in gone || w in left
      invariant t.calm ==> links == old(t.links) && t.links == Without(links, gone)
      decreases |left|
    {
      var w :| w in left;
      left := left - {w};
      if AliasGoes(links, session, w) {
        var cancelled := t.Fault();
        if cancelled { return false; }
        if t.calm {
          WithoutHas(links, gone, w);
          LinkedIsSource(links, session, w);
          Unlinkable(t, w);
        }
        var unlinked := t.UnlinkWindow(ACTIVE, w);
        if !unlinked { return false; }
        WithoutOne(links, gone, w);
        gone := gone + {w};
      }
    }
    if t.calm { AliasesGone(links, gone, session); }
    return true;
  }

  lemma Shown(links: Links, session: string, window: string)
    requires Linked(links, session, window)
    ensures exists i :: 0 <= i < |links| && links[i].window == window
  {
  }

  lemma AliasesGone(links: Links, gone: set<string>, session: string)
    requires forall w :: w in gone <==> AliasGoes(links, session, w)
    ensures var now := Without(links, gone);
            forall w :: (HasActive(now, w) <==> HasActive(links, w) && !AliasGoes(links, session, w))
                        && (HasSource(now, w) <==> HasSource(links, w))
                        && (Linked(now, session, w) <==> Linked(links, session, w) && (session == ACTIVE ==> HasActive(now, w)))
  {
    hide Without, AliasGoes;
    var now := Without(links, gone);
    forall w
      ensures HasActive(now, w) <==> HasActive(links, w) && !AliasGoes(links, session, w)
      ensures HasSource(now, w) <==> HasSource(links, w)
      ensures Linked(now, session, w) <==> Linked(links, session, w) && (session == ACTIVE ==> HasActive(now, w))
    {
      WithoutHas(links, gone, w);
      WithoutLinked(links, gone, session, w);
    }
  }

  lemma WithoutLinked(links: Links, windows: set<string>, session: string, window: string)
    ensures session != ACTIVE ==> (Linked(Without(links, windows), session, window) <==> Linked(links, session, window))
  {
    WithoutSpec(links, windows);
    var r := Without(links, windows);
    if session != ACTIVE && Linked(links, session, window) {
      var i :| 0 <= i < |links| && links[i].session == session && links[i].window == window;
      assert links[i] in r;
    }
    if Linked(r, session, window) {
      var i :| 0 <= i < |r| && r[i].session == session && r[i].window == window;
      assert r[i] in links;
    }
  }

  /** Ending a session other than the active one leaves no window behind that only the active session shows, unless it was so before. */
  method KillSession(t: Server, session: string) returns (ok: bool)
    requires t.Valid()
    modifies t
    ensures t.Valid() && t.dropped == old(t.dropped)
    ensures t.calm && ok && session != ACTIVE && session != "" ==>
              && session !in t.sessions
              && forall w :: HasActive(t.links, w) && HasSource(old(t.links), w) ==> HasSource(t.links, w)
    ensures t.calm && t.reliable ==> (ok <==> OwnershipOf(old(t.sessions), old(t.owners)) != Collision && session in old(t.sessions))
  {
    hide Proper, OwnershipOf;
    ok := CleanupAliases(t, session);
    if !ok { return false; }
    ghost var was := t.links;
    ok := t.KillSession(session);
    if t.calm && ok && session != ACTIVE && session != "" {
      forall w | HasActive(t.links, w) && HasSource(old(t.links), w) ensures HasSource(t.links, w) {
        ActiveExists(was, t.links, w);
        SourceStays(was, t.links, session, w);
      }
    }
  }

  lemma ActiveExists(was: Links, now: Links, window: string)
    requires forall l :: l in now ==> l in was
    requires HasActive(now, window)
    ensures HasActive(was, window)
  {
    var i :| 0 <= i < |now| && now[i].session == ACTIVE && now[i].window == window;
    assert now[i] in was;
  }

  lemma SourceStays(was: Links, now: Links, session: string, window: string)
    requires forall l :: l in was && l.session != session ==> l in now
    requires HasSource(was, window) && !Linked(was, session, window)
    ensures HasSource(now, window)
  {
    var i :| 0 <= i < |was| && was[i].session != ACTIVE && was[i].window == window;
    assert was[i] in now;
  }

  // ---- whole runs --------------------------------------------------------------------------------------

  datatype Request =
    | Promote(target: string, now: int)
    | Touch(window: string, now: int)
    | PruneAll(now: int)
    | Remove(window: string)
    | Recover(window: string, destination: string)

  /**
   * No run of promote, touch, prune, remove and recover, whatever other clients do in between and
   * whatever fails, destroys a window, except placeholders and windows that carry a placeholder's id as their name.
   */
  method Serve(t: Server, s: Store, cfg: ActiveConfig, requests: seq<Request>)
    requires t.Valid()
    modifies t, s
    ensures Harmless(t)
  {
    for i := 0 to |requests|
      invariant Harmless(t)
    {
      ghost var dropped, names := t.dropped, t.names;
      match requests[i] {
        case Promote(target, now) => var _ := PromoteActiveWindow(t, s, cfg, target, now);
        case Touch(window, now) => var _, _ := TouchActiveWindow(t, s, cfg, window, now);
        case PruneAll(now) => var _ := Prune(t, s, cfg, now);
        case Remove(window) => var _ := RemoveActiveWindow(t, s, cfg, window);
        case Recover(window, destination) => var _ := RecoverActiveWindow(t, s, cfg, window, destination);
      }
      SafeDropsTrans(old(t.dropped), dropped, t.dropped, names, t.names);
    }
  }

  /** A kill by id spares the window of that id exactly if the session shows an earlier window that has the id for its name. */
  lemma KillMisses(links: Links, names: map<string, string>, w: string)
    requires IsWindowID(w) && HasActive(links, w) && forall i, j :: 0 <= i < j < |links| && links[i].session == links[j].session ==> links[i].window != links[j].window
    ensures var hit := TargetOf(links, names, ACTIVE, w);
            && hit >= 0
            && (links[hit].window != w <==>
                exists i, j :: 0 <= i < j < |links| && links[i].session == ACTIVE && links[i].window in names && names[links[i].window] == w
                               && links[i].window != w && links[j].session == ACTIVE && links[j].window == w)
  {
    var hit := TargetOf(links, names, ACTIVE, w);
    var at :| 0 <= at < |links| && links[at].session == ACTIVE && links[at].window == w;
    assert Matches(links[at], names, ACTIVE, w);
    TargetNamed(links, names, w);
    if links[hit].window != w { assert hit < at; }
    if i, j :| 0 <= i < j < |links| && links[i].session == ACTIVE && links[i].window in names && names[links[i].window] == w
               && links[i].window != w && links[j].session == ACTIVE && links[j].window == w
    {
      assert Matches(links[i], names, ACTIVE, w);
    }
  }

  const CLASH_LINKS := [Link("work", "@3", 1), Link(ACTIVE, "@2", 1), Link(ACTIVE, "@1", 2), Link(ACTIVE, "@3", 3)]
  const CLASH_NAMES := map["@1" := PLACEHOLDER, "@2" := "@1", "@3" := "edit"]

  /**
   * The exception is real: with `@3` just promoted, placeholder `@1` is to go and the session has other links,
   * but the kill ends window `@2`, which is named `@1` and shown nowhere else; the placeholder stays.
   */
  lemma NameClash()
    ensures Proper(CLASH_LINKS) && HasActive(CLASH_LINKS, "@3") && HasSource(CLASH_LINKS, "@3")
    ensures "@1" in Placeholders(CLASH_LINKS, Snapshot(CLASH_LINKS, CLASH_NAMES), "@3") && ActiveCount(CLASH_LINKS) == 3
    ensures TargetOf(CLASH_LINKS, CLASH_NAMES, ACTIVE, "@1") == 1 && CLASH_LINKS[1].window == "@2"
    ensures !LinkedElsewhere(CLASH_LINKS, ACTIVE, "@2") && Replaceable(CLASH_NAMES, "@2") && CLASH_NAMES["@2"] != PLACEHOLDER
    ensures var after := Unlinked(CLASH_LINKS, ACTIVE, "@2"); !Exists(after, "@2") && HasActive(after, "@1")
  {
    hide Placeholders, ActiveCount, TargetOf, Unlinked, Proper, Exists;
    var links := CLASH_LINKS;
    assert "@1"[1] != "@2"[1];
    ClashProper();
    ClashPlaceholder();
    ClashCount();
    ClashTarget();
    UnlinkedHas(links, ACTIVE, "@2", ACTIVE, "@1");
    assert links[2].window == "@1" && links[3].window == "@3" && links[0].window == "@3";
    ClashGone();
  }

  lemma ClashProper()
    ensures Proper(CLASH_LINKS) && !LinkedElsewhere(CLASH_LINKS, ACTIVE, "@2") && CLASH_NAMES["@2"] == "@1" && CLASH_NAMES["@1"] == PLACEHOLDER
  {
    assert "@1"[1] != "@2"[1] && "@1"[1] != "@3"[1] && "@2"[1] != "@3"[1];
    assert "work"[0] != ACTIVE[0];
    assert "@1"[0] != PLACEHOLDER[0];
  }

  lemma ClashPlaceholder()
    ensures "@1" in Placeholders(CLASH_LINKS, Snapshot(CLASH_LINKS, CLASH_NAMES), "@3")
  {
    hide Placeholders;
    var links, snap := CLASH_LINKS, Snapshot(CLASH_LINKS, CLASH_NAMES);
    ClashProper();
    assert "@1"[1] != "@3"[1];
    assert !HasSource(links, "@1");
    assert links[2].window == "@1" && IsPlaceholder(links[2], snap, "@3");
    PlaceholdersSpec(links, snap, "@3");
  }

  lemma ClashGone()
    ensures !Exists(Unlinked(CLASH_LINKS, ACTIVE, "@2"), "@2")
  {
    hide Unlinked;
    var links, after := CLASH_LINKS, Unlinked(CLASH_LINKS, ACTIVE, "@2");
    assert "@2"[1] != "@3"[1];
    UnlinkedSpec(links, ACTIVE, "@2");
    forall i | 0 <= i < |after| ensures after[i].window != "@2" { assert after[i] in after; }
  }

  lemma ClashCount()
    ensures ActiveCount(CLASH_LINKS) == 3
  {
    var links := CLASH_LINKS;
    assert "work" != ACTIVE by { assert "work"[0] != ACTIVE[0]; }
    assert links[1..][1..] == links[2..] && links[2..][1..] == links[3..] && links[3..][1..] == [];
    assert ActiveCount(links[3..]) == 1;
    assert ActiveCount(links[2..]) == 2;
    assert ActiveCount(links[1..]) == 3;
  }

  lemma ClashTarget()
    ensures TargetOf(CLASH_LINKS, CLASH_NAMES, ACTIVE, "@1") == 1
  {
    var links := CLASH_LINKS;
    assert "work" != ACTIVE by { assert "work"[0] != ACTIVE[0]; }
    assert !Matches(links[0], CLASH_NAMES, ACTIVE, "@1");
    assert Matches(links[1], CLASH_NAMES, ACTIVE, "@1");
  }
}
