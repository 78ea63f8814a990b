/**
 * The validation gate behind every mutation: which transitions it can never turn away, and exactly
 * when it turns away the others. (tmh-next/internal/mock/backend.go, tmh-next/internal/domain/validate.go)
 */
module Gate {
  import opened Text
  import opened Topology
  import opened Domain
  import opened Reconcile
  import opened Plan
  import opened Validation
  import opened Transitions

  // ---- identifiers still to be issued -------------------------------------------------

  /** No identifier still to be issued under the prefix is taken. */
  ghost predicate Unissued(counters: Counters, prefix: string, ids: seq<string>) {
    forall n: nat :: n > Issued(counters, prefix) ==> IdOf(prefix, n) !in ids
  }

  /** The counters are ahead of every terminal, history chunk, event, snapshot and plan. Surfaces are told by `Surfaces`. */
  ghost predicate Dominates(counters: Counters, c: Catalog) {
    && Unissued(counters, "term", TerminalIds(c.terminals))
    && Unissued(counters, "hist", HistoryIds(c.history))
    && Unissued(counters, "evt", EventIds(c.events))
    && Unissued(counters, "snap", SnapshotIds(c.snapshots))
    && Unissued(counters, "plan", PlanIds(c.restorePlans))
  }

  /** What every catalog of a run satisfies together with the counters. */
  ghost predicate Sound(c: Catalog, counters: Counters) {
    ValidCatalog(c) && Dominates(counters, c)
  }

  lemma Issue(counters: Counters, prefix: string, ids: seq<string>)
    requires Unissued(counters, prefix, ids)
    ensures var (id, next) := NextId(counters, prefix);
            && (IdsOk(ids) ==> IdsOk(ids + [id])) && Unissued(next, prefix, ids + [id])
            && forall p :: p != prefix ==> Issued(next, p) == Issued(counters, p)
  {
    hide IdOf;
    var (id, next) := NextId(counters, prefix);
    var k := Issued(counters, prefix) + 1;
    assert id == IdOf(prefix, k) && id !in ids;
    IdNotEmpty(prefix, k);
    forall n: nat | n > Issued(next, prefix) ensures IdOf(prefix, n) !in ids + [id] {
      if IdOf(prefix, n) == id { IdOfInjective(prefix, n, k); }
    }
    forall i, j | 0 <= i < j < |ids + [id]| && IdsOk(ids) ensures (ids + [id])[i] != (ids + [id])[j] {
      if j == |ids| { assert (ids + [id])[i] in ids; }
    }
  }

  lemma IdNotEmpty(prefix: string, n: nat)
    ensures IdOf(prefix, n) != ""
  {
  }

  /** Recording an event is always possible and keeps the catalog sound. */
  lemma AddEventSound(c: Catalog, counters: Counters, category: EventCategory, severity: EventSeverity, resource: ResourceRef)
    requires Sound(c, counters)
    requires !category.EventOther? && !severity.SeverityOther? && !resource.kind.KindOther?
    ensures var r := AddEvent(c, counters, category, severity, resource);
            r.Accepted? && Sound(r.cat, r.counters)
  {
    hide IdOf, BackendsOk, WorkspacesOk, SnapshotsOk, TerminalsOk, AgentsOk, ViewsOk, HistoryOk, PlansOk, MachinesOk, ConfigOk, IdsOk;
    var r := AddEvent(c, counters, category, severity, resource);
    Issue(counters, "evt", EventIds(c.events));
    var (id, next) := NextId(counters, "evt");
    assert EventIds(r.cat.events) == EventIds(c.events) + [id];
    EventsAppend(c.events, r.cat.events[|c.events|]);
  }

  lemma EventsAppend(es: seq<Event>, e: Event)
    requires EventsOk(es) && EventOk(e.(seqNo := 1))
    requires e.seqNo == if |es| > 0 then es[|es| - 1].seqNo + 1 else 1
    ensures EventsOk(es + [e])
  {
  }

  // ---- edits that cannot break a sound catalog -------------------------------------------

  lemma ViewEditSound(c: Catalog, counters: Counters, i: nat, v: ActiveView)
    requires Sound(c, counters) && i < |c.activeViews|
    requires v.id == c.activeViews[i].id && ViewOk(v, WorkspaceIds(c.workspaces))
    ensures Sound(c.(activeViews := c.activeViews[i := v]), counters)
  {
    hide IdOf, Unissued, IdsOk, BackendsOk, WorkspacesOk, SnapshotsOk, TerminalsOk, AgentsOk, HistoryOk, EventsOk, PlansOk, MachinesOk, ConfigOk;
    assert ViewIds(c.activeViews[i := v]) == ViewIds(c.activeViews);
  }

  lemma ViewIdsWithin(a: seq<ActiveView>, b: seq<ActiveView>)
    requires forall x :: x in a ==> x in b
    ensures forall id :: id in ViewIds(a) ==> id in ViewIds(b)
  {
    forall i | 0 <= i < |a| ensures a[i].id in ViewIds(b) {
      assert a[i] in b;
      var j :| 0 <= j < |b| && b[j] == a[i];
      assert ViewIds(b)[j] == a[i].id;
    }
  }

  lemma SnapshotIdsWithin(a: seq<Snapshot>, b: seq<Snapshot>)
    requires forall x :: x in a ==> x in b
    ensures forall id :: id in SnapshotIds(a) ==> id in SnapshotIds(b)
  {
    forall i | 0 <= i < |a| ensures a[i].id in SnapshotIds(b) {
      assert a[i] in b;
      var j :| 0 <= j < |b| && b[j] == a[i];
      assert SnapshotIds(b)[j] == a[i].id;
    }
  }

  lemma PlanIdsWithin(a: seq<RestorePlan>, b: seq<RestorePlan>)
    requires forall x :: x in a ==> x in b
    ensures forall id :: id in PlanIds(a) ==> id in PlanIds(b)
  {
    forall i | 0 <= i < |a| ensures a[i].id in PlanIds(b) {
      assert a[i] in b;
      var j :| 0 <= j < |b| && b[j] == a[i];
      assert PlanIds(b)[j] == a[i].id;
    }
  }

  lemma {:induction false} RemoveViewSpec(vs: seq<ActiveView>, id: string)
    ensures forall v :: v in RemoveView(vs, id) <==> v in vs && v.id != id
    ensures IdsOk(ViewIds(vs)) ==> IdsOk(ViewIds(RemoveView(vs, id)))
  {
    if vs != [] {
      var t, r := vs[1..], RemoveView(vs[1..], id);
      RemoveViewSpec(t, id);
      if IdsOk(ViewIds(vs)) {
        IdsTail(ViewIds(vs));
        assert ViewIds(t) == ViewIds(vs)[1..];
        if vs[0].id != id {
          ViewIdsWithin(r, t);
          IdsCons(vs[0].id, ViewIds(r));
          assert ViewIds([vs[0]] + r) == [vs[0].id] + ViewIds(r);
        }
      }
    }
  }

  lemma IdsTail(ids: seq<string>)
    requires IdsOk(ids) && ids != []
    ensures IdsOk(ids[1..]) && ids[0] !in ids[1..]
  {
    var t := ids[1..];
    assert forall i :: 0 <= i < |t| ==> t[i] == ids[i + 1];
  }

  lemma IdsCons(id: string, ids: seq<string>)
    requires IdsOk(ids) && id !in ids && id != ""
    ensures IdsOk([id] + ids)
  {
    var t := [id] + ids;
    assert forall i :: 0 < i < |t| ==> t[i] == ids[i - 1];
  }

  lemma RemoveViewSound(c: Catalog, counters: Counters, id: string)
    requires Sound(c, counters)
    ensures Sound(c.(activeViews := RemoveView(c.activeViews, id)), counters)
  {
    hide IdOf, Unissued, IdsOk, BackendsOk, WorkspacesOk, SnapshotsOk, TerminalsOk, AgentsOk, HistoryOk, EventsOk, PlansOk, MachinesOk, ConfigOk, ViewOk;
    RemoveViewSpec(c.activeViews, id);
    var vs := RemoveView(c.activeViews, id);
    assert forall i :: 0 <= i < |vs| ==> vs[i] in c.activeViews;
  }

  /** A terminal may change in anything but its links and state. */
  lemma TerminalEditSound(c: Catalog, counters: Counters, i: nat, t: Terminal)
    requires Sound(c, counters) && i < |c.terminals|
    requires t.id == c.terminals[i].id && t.workspaceID == c.terminals[i].workspaceID && t.surfaceID == c.terminals[i].surfaceID
    requires t.backendID == c.terminals[i].backendID && t.state == c.terminals[i].state
    ensures Sound(c.(terminals := c.terminals[i := t]), counters)
  {
    hide IdOf, Unissued, IdsOk, BackendsOk, WorkspacesOk, SnapshotsOk, AgentsOk, HistoryOk, EventsOk, PlansOk, MachinesOk, ConfigOk, ViewsOk, SurfaceKnown;
    var ts := c.terminals[i := t];
    assert TerminalIds(ts) == TerminalIds(c.terminals);
    assert TerminalOwners(ts) == TerminalOwners(c.terminals);
    assert TerminalStates(ts) == TerminalStates(c.terminals);
    forall j | 0 <= j < |ts| ensures TerminalOk(ts[j], c.workspaces, BackendIds(c.backends)) {
      assert TerminalOk(c.terminals[j], c.workspaces, BackendIds(c.backends));
      var k :| 0 <= k < |c.workspaces| && TerminalHome(c.terminals[j], c.workspaces[k]);
      assert TerminalHome(ts[j], c.workspaces[k]);
    }
  }

  lemma AddHistorySound(c: Catalog, counters: Counters, scope: ResourceRef, lines: seq<string>)
    requires Sound(c, counters) && ScopeOk(scope, TerminalIds(c.terminals), AgentIds(c.agents))
    ensures var r := AddHistory(c, counters, scope, lines);
            r.Accepted? && Sound(r.cat, r.counters)
  {
    hide IdOf, BackendsOk, WorkspacesOk, SnapshotsOk, TerminalsOk, AgentsOk, ViewsOk, EventsOk, PlansOk, MachinesOk, ConfigOk, IdsOk, NextSeq, ScopeOk;
    var r := AddHistory(c, counters, scope, lines);
    Issue(counters, "hist", HistoryIds(c.history));
    var (id, next) := NextId(counters, "hist");
    assert HistoryIds(r.cat.history) == HistoryIds(c.history) + [id];
  }

  /** Killing a terminal detaches every agent on it, so no agent is left on a terminal that is not live. */
  lemma KillSound(c: Catalog, counters: Counters, i: nat)
    requires Sound(c, counters) && i < |c.terminals|
    ensures var t := c.terminals[i].(state := TerminalExited);
            Sound(c.(terminals := c.terminals[i := t], agents := Detach(c.agents, t.id)), counters)
  {
    hide IdOf, Unissued, IdsOk, BackendsOk, WorkspacesOk, SnapshotsOk, HistoryOk, EventsOk, PlansOk, MachinesOk, ConfigOk, ViewsOk, SurfaceKnown;
    var t := c.terminals[i].(state := TerminalExited);
    var ts, ags := c.terminals[i := t], Detach(c.agents, t.id);
    assert TerminalIds(ts) == TerminalIds(c.terminals);
    assert TerminalOwners(ts) == TerminalOwners(c.terminals);
    assert AgentIds(ags) == AgentIds(c.agents);
    assert AgentOwners(ags) == AgentOwners(c.agents);
    forall j | 0 <= j < |ts| ensures TerminalOk(ts[j], c.workspaces, BackendIds(c.backends)) {
      assert TerminalOk(c.terminals[j], c.workspaces, BackendIds(c.backends));
      var k :| 0 <= k < |c.workspaces| && TerminalHome(c.terminals[j], c.workspaces[k]);
      assert TerminalHome(ts[j], c.workspaces[k]);
    }
    var was, now := TerminalStates(c.terminals), TerminalStates(ts);
    forall j | 0 <= j < |ags| ensures AgentPlaceOk(ags[j], c.workspaces, now) {
      assert AgentPlaceOk(c.agents[j], c.workspaces, was);
      var k :| 0 <= k < |c.workspaces| && AgentHome(c.agents[j], c.workspaces[k]);
      assert AgentHome(ags[j], c.workspaces[k]);
      if ags[j].terminalID != "" {
        var m :| 0 <= m < |was| && was[m] == (ags[j].terminalID, TerminalLive);
        assert now[m] == was[m];
      }
    }
  }

  /** An agent may change in anything but its links, within its enumerations and bounds. */
  lemma AgentEditSound(c: Catalog, counters: Counters, i: nat, ag: Agent)
    requires Sound(c, counters) && i < |c.agents|
    requires ag.id == c.agents[i].id && ag.workspaceID == c.agents[i].workspaceID && ag.terminalID == c.agents[i].terminalID
    requires AgentOk(ag)
    ensures Sound(c.(agents := c.agents[i := ag]), counters)
  {
    hide IdOf, Unissued, IdsOk, BackendsOk, WorkspacesOk, SnapshotsOk, TerminalsOk, HistoryOk, EventsOk, PlansOk, MachinesOk, ConfigOk, ViewsOk, AgentOk;
    var ags := c.agents[i := ag];
    assert AgentIds(ags) == AgentIds(c.agents);
    assert AgentOwners(ags) == AgentOwners(c.agents);
    forall j | 0 <= j < |ags| ensures AgentPlaceOk(ags[j], c.workspaces, TerminalStates(c.terminals)) {
      assert AgentPlaceOk(c.agents[j], c.workspaces, TerminalStates(c.terminals));
      var k :| 0 <= k < |c.workspaces| && AgentHome(c.agents[j], c.workspaces[k]);
      assert AgentHome(ags[j], c.workspaces[k]);
    }
  }

  // ---- snapshots and plans -----------------------------------------------------------------

  lemma SnapshotAppendSound(c: Catalog, counters: Counters, k: nat, tag: string)
    requires Sound(c, counters) && k < |c.workspaces|
    ensures var (id, next) := NextId(counters, "snap");
            Sound(c.(snapshots := c.snapshots + [SnapshotOf(c.workspaces[k], id, c.now, tag)]), next)
  {
    hide IdOf, IdsOk, BackendsOk, TerminalsOk, AgentsOk, HistoryOk, EventsOk, MachinesOk, ConfigOk, ViewsOk, WorkspaceStateOk, RestoreOpOk, OpLess;
    var (id, next) := NextId(counters, "snap");
    var ss := c.snapshots + [SnapshotOf(c.workspaces[k], id, c.now, tag)];
    Issue(counters, "snap", SnapshotIds(c.snapshots));
    assert SnapshotIds(ss) == SnapshotIds(c.snapshots) + [id];
    assert SnapshotHomes(ss) == SnapshotHomes(c.snapshots) + [(id, c.workspaces[k].id)];
    assert WorkspaceIds(c.workspaces)[k] == c.workspaces[k].id;
    assert WorkspaceRefsOk(c.workspaces[k], MachineIds(c.machines), BackendIds(c.backends), TerminalOwners(c.terminals), AgentOwners(c.agents));
  }

  lemma SnapshotEditSound(c: Catalog, counters: Counters, i: nat, s: Snapshot)
    requires Sound(c, counters) && i < |c.snapshots|
    requires s.id == c.snapshots[i].id && s.workspaceID == c.snapshots[i].workspaceID && s.backendID == c.snapshots[i].backendID
    ensures Sound(c.(snapshots := c.snapshots[i := s]), counters)
  {
    hide IdOf, IdsOk, Unissued, BackendsOk, WorkspacesOk, TerminalsOk, AgentsOk, HistoryOk, EventsOk, PlansOk, MachinesOk, ConfigOk, ViewsOk;
    assert SnapshotIds(c.snapshots[i := s]) == SnapshotIds(c.snapshots);
    assert SnapshotHomes(c.snapshots[i := s]) == SnapshotHomes(c.snapshots);
  }

  lemma {:induction false} RemoveSnapshotSpec(ss: seq<Snapshot>, id: string)
    ensures forall s :: s in RemoveSnapshot(ss, id) <==> s in ss && s.id != id
    ensures IdsOk(SnapshotIds(ss)) ==> IdsOk(SnapshotIds(RemoveSnapshot(ss, id)))
  {
    if ss != [] {
      var t, r := ss[1..], RemoveSnapshot(ss[1..], id);
      RemoveSnapshotSpec(t, id);
      if IdsOk(SnapshotIds(ss)) {
        IdsTail(SnapshotIds(ss));
        assert SnapshotIds(t) == SnapshotIds(ss)[1..];
        if ss[0].id != id {
          SnapshotIdsWithin(r, t);
          IdsCons(ss[0].id, SnapshotIds(r));
          assert SnapshotIds([ss[0]] + r) == [ss[0].id] + SnapshotIds(r);
        }
      }
    }
  }

  lemma {:induction false} DropPlansSpec(ps: seq<RestorePlan>, snapshot: string)
    ensures forall p :: p in DropPlans(ps, snapshot) <==> p in ps && p.snapshotID != snapshot
    ensures IdsOk(PlanIds(ps)) ==> IdsOk(PlanIds(DropPlans(ps, snapshot)))
  {
    if ps != [] {
      var t, r := ps[1..], DropPlans(ps[1..], snapshot);
      DropPlansSpec(t, snapshot);
      if IdsOk(PlanIds(ps)) {
        IdsTail(PlanIds(ps));
        assert PlanIds(t) == PlanIds(ps)[1..];
        if ps[0].snapshotID != snapshot {
          PlanIdsWithin(r, t);
          IdsCons(ps[0].id, PlanIds(r));
          assert PlanIds([ps[0]] + r) == [ps[0].id] + PlanIds(r);
        }
      }
    }
  }

  /** A snapshot goes away without a dangling plan exactly if no plan left behind was built from it. */
  lemma SnapshotRemoved(c: Catalog, counters: Counters, id: string, ps: seq<RestorePlan>)
    requires Sound(c, counters)
    requires IdsOk(PlanIds(ps)) && forall p :: p in ps ==> p in c.restorePlans
    requires forall p :: p in ps ==> p.snapshotID != id
    ensures Sound(c.(snapshots := RemoveSnapshot(c.snapshots, id), restorePlans := ps), counters)
  {
    hide IdOf, IdsOk, BackendsOk, WorkspacesOk, TerminalsOk, AgentsOk, HistoryOk, EventsOk, MachinesOk, ConfigOk, ViewsOk, RestoreOpOk, OpLess, Issued;
    var ss := RemoveSnapshot(c.snapshots, id);
    RemoveSnapshotSpec(c.snapshots, id);
    assert forall i :: 0 <= i < |ss| ==> ss[i] in c.snapshots;
    forall i | 0 <= i < |ps| ensures PlanOk(ps[i], SnapshotHomes(ss), WorkspaceIds(c.workspaces)) {
      assert ps[i] in c.restorePlans;
      SnapshotStays(c.snapshots, id, ps[i].snapshotID, ps[i].workspaceID);
    }
    SnapshotIdsWithin(ss, c.snapshots);
    PlanIdsWithin(ps, c.restorePlans);
  }

  lemma SnapshotStays(ss: seq<Snapshot>, id: string, other: string, workspace: string)
    requires (other, workspace) in SnapshotHomes(ss) && other != id
    ensures (other, workspace) in SnapshotHomes(RemoveSnapshot(ss, id))
  {
    RemoveSnapshotSpec(ss, id);
    var r := RemoveSnapshot(ss, id);
    var i :| 0 <= i < |ss| && SnapshotHomes(ss)[i] == (other, workspace);
    assert ss[i] in r;
    var j :| 0 <= j < |r| && r[j] == ss[i];
    assert SnapshotHomes(r)[j] == (other, workspace);
  }

  lemma DeleteSound(c: Catalog, counters: Counters, id: string)
    requires Sound(c, counters)
    ensures Sound(c.(snapshots := RemoveSnapshot(c.snapshots, id), restorePlans := DropPlans(c.restorePlans, id)), counters)
  {
    hide IdOf, IdsOk, Unissued, BackendsOk, WorkspacesOk, SnapshotsOk, TerminalsOk, AgentsOk, HistoryOk, EventsOk, PlansOk, MachinesOk, ConfigOk, ViewsOk;
    DropPlansSpec(c.restorePlans, id);
    SnapshotRemoved(c, counters, id, DropPlans(c.restorePlans, id));
  }

  /** A freshly built plan passes every check on plans. */
  lemma BuiltPlanOk(w: Workspace, s: Snapshot, id: string, now: int, ss: seq<Snapshot>, ids: seq<string>)
    requires s in ss && s.workspaceID == w.id && w.id in ids
    ensures PlanOk(RestorePlan(id, s.id, w.id, PlanPending, now, BuildOps(w, s.state), 0, 0, 0, []), SnapshotHomes(ss), ids)
  {
    hide OpLess, DiffStates, Fields, Less, OpId, SortedByField;
    BuildOpsSections(w, s.state);
    DiffFieldsNamed(w.observed, s.state);
    DiffFieldsNamed(w.desired, w.observed);
    var i :| 0 <= i < |ss| && ss[i] == s;
    assert SnapshotHomes(ss)[i] == (s.id, w.id);
  }

  lemma DiffFieldsNamed(a: WorkspaceState, b: WorkspaceState)
    ensures forall j :: 0 <= j < |DiffStates(a, b)| ==> DiffStates(a, b)[j].field != ""
  {
    hide Fields, Less, DiffStates, SKey, WKey;
    DiffStatesSpec(a, b);
    var ds := DiffStates(a, b);
    forall j | 0 <= j < |ds| ensures ds[j].field != "" {
      if ds[j].field in Fields(a) { FieldsOnly(a, ds[j].field); } else { FieldsOnly(b, ds[j].field); }
      var x :| ds[j].field == WKey(x) || ds[j].field == SKey(x);
      KeysNotEmpty(x);
    }
  }

  lemma KeysNotEmpty(x: string)
    ensures WKey(x) != "" && SKey(x) != ""
  {
  }

  lemma PlanAppendSound(c: Catalog, counters: Counters, i: nat, k: nat)
    requires Sound(c, counters) && i < |c.snapshots| && k < |c.workspaces| && c.snapshots[i].workspaceID == c.workspaces[k].id
    ensures var (id, next) := NextId(counters, "plan");
            var s, w := c.snapshots[i], c.workspaces[k];
            var p := RestorePlan(id, s.id, w.id, PlanPending, c.now, BuildOps(w, s.state), 0, 0, 0, []);
            Sound(c.(restorePlans := c.restorePlans + [p]), next)
  {
    hide IdOf, IdsOk, BackendsOk, WorkspacesOk, SnapshotsOk, TerminalsOk, AgentsOk, HistoryOk, EventsOk, MachinesOk, ConfigOk, ViewsOk, BuildOps, PlanOk;
    var (id, next) := NextId(counters, "plan");
    var s, w := c.snapshots[i], c.workspaces[k];
    var p := RestorePlan(id, s.id, w.id, PlanPending, c.now, BuildOps(w, s.state), 0, 0, 0, []);
    Issue(counters, "plan", PlanIds(c.restorePlans));
    assert PlanIds(c.restorePlans + [p]) == PlanIds(c.restorePlans) + [id];
    assert WorkspaceIds(c.workspaces)[k] == w.id;
    BuiltPlanOk(w, s, id, c.now, c.snapshots, WorkspaceIds(c.workspaces));
  }

  // ---- backends, machines, performance, configuration ------------------------------------------

  /** A backend keeps its id and stays, or becomes, allowed; which one is the default does not change. */
  lemma BackendEditSound(c: Catalog, counters: Counters, i: nat, b: BackendInfo)
    requires Sound(c, counters) && i < |c.backends|
    requires b.id == c.backends[i].id && b.isDefault == c.backends[i].isDefault && BackendOk(b)
    ensures Sound(c.(backends := c.backends[i := b]), counters)
  {
    hide IdOf, Unissued, IdsOk, WorkspacesOk, SnapshotsOk, TerminalsOk, AgentsOk, HistoryOk, EventsOk, PlansOk, MachinesOk, ConfigOk, ViewsOk, BackendOk;
    var bs := c.backends[i := b];
    assert BackendIds(bs) == BackendIds(c.backends);
    var d :| 0 <= d < |c.backends| && c.backends[d].isDefault;
    assert bs[d].isDefault;
  }

  lemma MachinesEditSound(c: Catalog, counters: Counters, ms: seq<Machine>)
    requires Sound(c, counters) && |ms| == |c.machines|
    requires forall i :: 0 <= i < |ms| ==> ms[i].id == c.machines[i].id && ms[i].status == c.machines[i].status && ms[i].kind == c.machines[i].kind
    ensures Sound(c.(machines := ms), counters)
  {
    hide IdOf, Unissued, IdsOk, BackendsOk, WorkspacesOk, SnapshotsOk, TerminalsOk, AgentsOk, HistoryOk, EventsOk, PlansOk, ConfigOk, ViewsOk;
    assert MachineIds(ms) == MachineIds(c.machines);
  }
}
