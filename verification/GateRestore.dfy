/**
 * Exactly when the validation gate turns away link, restore-apply and reconcile-undo, and the
 * counters across every action. (tmh-next/internal/mock/backend.go, tmh-next/internal/domain/validate.go)
 */
module GateRestore {
  import opened Text
  import opened Topology
  import opened Domain
  import opened Reconcile
  import opened Plan
  import opened Validation
  import opened Transitions
  import opened Gate
  import opened GateSafe
  import opened GateExact

  // ---- link ---------------------------------------------------------------------------------------

  lemma {:induction false} RemoveIDSpec(ids: seq<string>, id: string)
    ensures forall x :: x in RemoveID(ids, id) <==> x in ids && x != id
  {
    if ids != [] {
      RemoveIDSpec(ids[1..], id);
      assert ids == [ids[0]] + ids[1..];
    }
  }

  /** The workspaces after the terminal left one list and joined the end of another. */
  function Relinked(ws: seq<Workspace>, o: nat, k: nat, id: string): seq<Workspace>
    requires o < |ws| && k < |ws|
  {
    var ws1 := ws[o := ws[o].(terminalIDs := RemoveID(ws[o].terminalIDs, id))];
    ws1[k := ws1[k].(terminalIDs := ws1[k].terminalIDs + [id])]
  }

  predicate SameButTerminals(v: Workspace, w: Workspace) {
    w == v.(terminalIDs := w.terminalIDs)
  }

  lemma RelinkedSpec(ws: seq<Workspace>, o: nat, k: nat, id: string)
    requires o < |ws| && k < |ws|
    ensures var ws2 := Relinked(ws, o, k, id);
            && |ws2| == |ws| && WorkspaceIds(ws2) == WorkspaceIds(ws)
            && (forall m :: 0 <= m < |ws| ==> SameButTerminals(ws[m], ws2[m]))
            && (forall m, x :: 0 <= m < |ws| && x != id ==> (x in ws2[m].terminalIDs <==> x in ws[m].terminalIDs))
            && id in ws2[k].terminalIDs
            && (forall m :: 0 <= m < |ws| && m != k ==> (id in ws2[m].terminalIDs <==> id in ws[m].terminalIDs && m != o))
  {
    RemoveIDSpec(ws[o].terminalIDs, id);
    var ws2 := Relinked(ws, o, k, id);
    assert WorkspaceIds(ws2) == WorkspaceIds(ws);
    var last := |ws2[k].terminalIDs| - 1;
    assert ws2[k].terminalIDs[last] == id;
  }

  lemma OwnerAt(ts: seq<Terminal>, i: nat, id: string, workspace: string)
    requires IdsOk(TerminalIds(ts)) && i < |ts| && ts[i].id == id
    ensures (id, workspace) in TerminalOwners(ts) <==> ts[i].workspaceID == workspace
  {
    var ids, owners := TerminalIds(ts), TerminalOwners(ts);
    if (id, workspace) in owners {
      var j :| 0 <= j < |owners| && owners[j] == (id, workspace);
      assert ids[j] == ids[i];
    }
    assert owners[i] == (id, ts[i].workspaceID);
  }

  lemma OwnersMoved(ts: seq<Terminal>, i: nat, t: Terminal, id: string, workspace: string)
    requires i < |ts| && t.id == ts[i].id && id != t.id && (id, workspace) in TerminalOwners(ts)
    ensures (id, workspace) in TerminalOwners(ts[i := t])
  {
    var a, b := TerminalOwners(ts), TerminalOwners(ts[i := t]);
    var j :| 0 <= j < |a| && a[j] == (id, workspace);
    assert b[j] == a[j];
  }

  lemma WorkspacesRelinked(ws: seq<Workspace>, ts: seq<Terminal>, o: nat, k: nat, i: nat, t: Terminal,
                           machines: seq<string>, backends: seq<string>, agents: seq<(string, string)>)
    requires o < |ws| && k < |ws| && i < |ts| && IdsOk(WorkspaceIds(ws)) && IdsOk(TerminalIds(ts))
    requires WorkspacesOk(ws, machines, backends, TerminalOwners(ts), agents)
    requires ws[o].id == ts[i].workspaceID && t.id == ts[i].id && t.workspaceID == ws[k].id
    ensures WorkspacesOk(Relinked(ws, o, k, t.id), machines, backends, TerminalOwners(ts[i := t]), agents)
  {
    hide Relinked, TerminalOwners, DriftConsistent, HasSurface, IdsOk;
    var ws2, owners, owners2 := Relinked(ws, o, k, t.id), TerminalOwners(ts), TerminalOwners(ts[i := t]);
    RelinkedSpec(ws, o, k, t.id);
    assert TerminalIds(ts[i := t]) == TerminalIds(ts);
    forall m | 0 <= m < |ws2| ensures WorkspaceRefsOk(ws2[m], machines, backends, owners2, agents) && WorkspaceStateOk(ws2[m]) {
      assert WorkspaceRefsOk(ws[m], machines, backends, owners, agents);
      assert SameButTerminals(ws[m], ws2[m]);
      SameDrift(ws[m], ws2[m]);
      forall x | x in ws2[m].terminalIDs ensures (x, ws2[m].id) in owners2 {
        if x != t.id {
          OwnersMoved(ts, i, t, x, ws[m].id);
        } else if m == k {
          OwnerAt(ts[i := t], i, x, ws[k].id);
        } else {
          OwnerAt(ts, i, x, ws[m].id);
          assert WorkspaceIds(ws)[m] == WorkspaceIds(ws)[o];
          WorkspaceAt(ws, m, o);
          assert false;
        }
      }
    }
  }

  lemma WorkspaceAt(ws: seq<Workspace>, m: nat, o: nat)
    requires IdsOk(WorkspaceIds(ws)) && m < |ws| && o < |ws| && ws[m].id == ws[o].id
    ensures m == o
  {
    assert WorkspaceIds(ws)[m] == WorkspaceIds(ws)[o];
  }

  lemma TerminalsRelinked(ws: seq<Workspace>, ts: seq<Terminal>, o: nat, k: nat, i: nat, t: Terminal, backends: seq<string>)
    requires o < |ws| && k < |ws| && i < |ts| && IdsOk(WorkspaceIds(ws)) && IdsOk(TerminalIds(ts))
    requires TerminalsOk(ts, ws, backends)
    requires ws[o].id == ts[i].workspaceID && t.id == ts[i].id && t.workspaceID == ws[k].id && t.state == ts[i].state && t.backendID == ts[i].backendID
    ensures TerminalsOk(ts[i := t], Relinked(ws, o, k, t.id), backends) <==> SurfaceKnown(ws[k], t.surfaceID)
  {
    hide Relinked, HasSurface, IdsOk;
    var ts1, ws2 := ts[i := t], Relinked(ws, o, k, t.id);
    RelinkedSpec(ws, o, k, t.id);
    forall j | 0 <= j < |ts1|
      ensures TerminalOk(ts1[j], ws2, backends) <==> (j == i ==> SurfaceKnown(ws[k], t.surfaceID))
    {
      if j == i {
        assert TerminalOk(ts[i], ws, backends);
        HomeUnique(ws2, t, k);
        assert SameButTerminals(ws[k], ws2[k]);
      } else {
        assert TerminalOk(ts[j], ws, backends);
        var m :| 0 <= m < |ws| && TerminalHome(ts[j], ws[m]);
        TerminalAt(ts, i, j);
        assert SameButTerminals(ws[m], ws2[m]);
        assert TerminalHome(ts1[j], ws2[m]);
      }
    }
    if TerminalsOk(ts1, ws2, backends) { assert TerminalOk(ts1[i], ws2, backends); }
  }

  lemma TerminalAt(ts: seq<Terminal>, i: nat, j: nat)
    requires IdsOk(TerminalIds(ts)) && i < |ts| && j < |ts| && i != j
    ensures ts[i].id != ts[j].id
  {
    var ids := TerminalIds(ts);
    assert ids[i] == ts[i].id && ids[j] == ts[j].id;
  }

  lemma AgentsRelinked(ags: seq<Agent>, ws: seq<Workspace>, ws2: seq<Workspace>, states: seq<(string, TerminalState)>)
    requires |ws2| == |ws| && AgentsOk(ags, ws, states)
    requires forall m :: 0 <= m < |ws| ==> SameButTerminals(ws[m], ws2[m])
    ensures AgentsOk(ags, ws2, states)
  {
    hide AgentOk;
    forall i | 0 <= i < |ags| ensures AgentPlaceOk(ags[i], ws2, states) {
      assert AgentPlaceOk(ags[i], ws, states);
      var j :| 0 <= j < |ws| && AgentHome(ags[i], ws[j]);
      assert SameButTerminals(ws[j], ws2[j]);
      assert AgentHome(ags[i], ws2[j]);
    }
  }

  lemma TerminalMoved(c: Catalog, counters: Counters, o: nat, k: nat, i: nat, t: Terminal)
    requires Sound(c, counters) && o < |c.workspaces| && k < |c.workspaces| && i < |c.terminals|
    requires var u := c.terminals[i];
             c.workspaces[o].id == u.workspaceID && t.id == u.id && t.state == u.state && t.backendID == u.backendID
    requires t.workspaceID == c.workspaces[k].id
    ensures var d := c.(terminals := c.terminals[i := t], workspaces := Relinked(c.workspaces, o, k, t.id));
            && (ValidCatalog(d) <==> SurfaceKnown(c.workspaces[k], t.surfaceID))
            && Dominates(counters, d)
  {
    hide IdsOk, Unissued, BackendsOk, WorkspacesOk, SnapshotsOk, TerminalsOk, AgentsOk, HistoryOk, EventsOk, PlansOk, MachinesOk, ConfigOk,
         ViewsOk, SurfaceKnown, Relinked;
    var ts, ws := c.terminals[i := t], Relinked(c.workspaces, o, k, t.id);
    RelinkedSpec(c.workspaces, o, k, t.id);
    assert TerminalIds(ts) == TerminalIds(c.terminals);
    assert TerminalStates(ts) == TerminalStates(c.terminals);
    WorkspacesRelinked(c.workspaces, c.terminals, o, k, i, t, MachineIds(c.machines), BackendIds(c.backends), AgentOwners(c.agents));
    TerminalsRelinked(c.workspaces, c.terminals, o, k, i, t, BackendIds(c.backends));
    AgentsRelinked(c.agents, c.workspaces, ws, TerminalStates(c.terminals));
  }

  lemma HomeIndex(c: Catalog, i: nat)
    requires ValidCatalog(c) && i < |c.terminals|
    ensures IndexOf(WorkspaceIds(c.workspaces), c.terminals[i].workspaceID) >= 0
  {
    hide AllIdsOk, BackendsOk, WorkspacesOk, SnapshotsOk, AgentsOk, HistoryOk, EventsOk, PlansOk, MachinesOk, ConfigOk, ViewsOk, SurfaceKnown;
    assert TerminalOk(c.terminals[i], c.workspaces, BackendIds(c.backends));
    var k :| 0 <= k < |c.workspaces| && TerminalHome(c.terminals[i], c.workspaces[k]);
    assert WorkspaceIds(c.workspaces)[k] == c.terminals[i].workspaceID;
  }

  /**
   * A linked terminal shows the first surface of its new workspace; where the first window has none
   * it keeps its old one, and passes only if the new workspace happens to know it.
   */
  lemma LinkExact(c: Catalog, counters: Counters, a: Action)
    requires Sound(c, counters) && DoLink(c, counters, a).Accepted?
    ensures var i, k, r := IndexOf(TerminalIds(c.terminals), a.target.id), IndexOf(WorkspaceIds(c.workspaces), a.value), DoLink(c, counters, a);
            && i >= 0 && k >= 0 && Dominates(r.counters, r.cat)
            && (ValidCatalog(r.cat) <==>
                FirstSurface(c.workspaces[k].observed).Some? || SurfaceKnown(c.workspaces[k], c.terminals[i].surfaceID))
  {
    hide Dominates, ValidCatalog, HasSurface, IdsOk, EventsOk, AddEvent, IndexOf;
    var i, k := IndexOf(TerminalIds(c.terminals), a.target.id), IndexOf(WorkspaceIds(c.workspaces), a.value);
    var t := c.terminals[i];
    var o := IndexOf(WorkspaceIds(c.workspaces), t.workspaceID);
    HomeIndex(c, i);
    var w := c.workspaces[k];
    var first := FirstSurface(w.observed);
    var t1 := t.(workspaceID := w.id, surfaceID := if first.Some? then first.value else t.surfaceID);
    AdvanceSound(c, counters);
    StateParts(c, k);
    TerminalMoved(Advance(c), counters, o, k, i, t1);
    if first.Some? { FirstSurfaceHeld(w.observed); }
    var d := Advance(c).(terminals := c.terminals[i := t1], workspaces := Relinked(c.workspaces, o, k, t.id));
    EventIrrelevant(d, counters, EventTerminal, SeverityInfo, Ref(KindTerminal, t.id));
  }

  lemma FirstSurfaceHeld(ws: WorkspaceState)
    requires FirstSurface(ws).Some?
    ensures HasSurface(ws, FirstSurface(ws).value)
  {
    assert HoldsSurface(ws[0], ws[0].surfaces[0].id);
  }

  // ---- restore-apply and reconcile-undo ---------------------------------------------------------

  /** What the gate asks of a workspace after its sides were edited and its drift recomputed. */
  predicate Settled(ts: seq<Terminal>, w: Workspace) {
    && (w.desired == w.observed || Fields(w.desired) != Fields(w.observed))
    && (w.selectedSurfaceID == "" || HasSurface(w.observed, w.selectedSurfaceID))
    && SurfacesKnown(ts, w)
  }

  lemma ReconciledSwapped(c: Catalog, counters: Counters, k: nat, w: Workspace)
    requires Sound(c, counters) && k < |c.workspaces|
    requires w == c.workspaces[k].(desired := w.desired, observed := w.observed)
    ensures var d := c.(workspaces := c.workspaces[k := ReconcileStatus(w)]);
            && (ValidCatalog(d) <==> Settled(c.terminals, w)) && Dominates(counters, d)
            && EventsOk(d.events) && IdsOk(EventIds(d.events))
  {
    hide Dominates, ValidCatalog, HasSurface, IdsOk, EventsOk, DriftConsistent, Fields, DiffStates, DriftOf;
    StateParts(c, k);
    var w1 := ReconcileStatus(w);
    WorkspaceSwapped(c, counters, k, w1);
    ReconcileConsistent(w);
    assert SurfacesKnown(c.terminals, w1) <==> SurfacesKnown(c.terminals, w);
  }

  predicate SamePlace(p: RestoreOp, q: RestoreOp) {
    q.id == p.id && q.mode == p.mode && q.target == p.target && q.field == p.field
  }

  /** A plan may change status, times, undo records and the marks on its operations. */
  lemma PlanEditSound(c: Catalog, counters: Counters, j: nat, p: RestorePlan)
    requires Sound(c, counters) && j < |c.restorePlans|
    requires var q := c.restorePlans[j]; p.id == q.id && p.snapshotID == q.snapshotID && p.workspaceID == q.workspaceID && |p.ops| == |q.ops|
    requires forall i :: 0 <= i < |p.ops| ==> SamePlace(c.restorePlans[j].ops[i], p.ops[i])
    requires !p.status.PlanOther?
    ensures Sound(c.(restorePlans := c.restorePlans[j := p]), counters)
  {
    hide IdOf, Unissued, IdsOk, BackendsOk, WorkspacesOk, SnapshotsOk, TerminalsOk, AgentsOk, HistoryOk, EventsOk, MachinesOk, ConfigOk, ViewsOk, Less, ModeName, KindName;
    var ps := c.restorePlans[j := p];
    assert PlanIds(ps) == PlanIds(c.restorePlans);
    assert PlanOk(c.restorePlans[j], SnapshotHomes(c.snapshots), WorkspaceIds(c.workspaces));
    var q := c.restorePlans[j];
    forall i | 0 < i < |p.ops| ensures OpLess(p.ops[i - 1], p.ops[i]) {
      assert SamePlace(q.ops[i - 1], p.ops[i - 1]) && SamePlace(q.ops[i], p.ops[i]);
      assert OpLess(q.ops[i - 1], q.ops[i]);
    }
    forall i | 0 <= i < |p.ops| ensures RestoreOpOk(p.ops[i], p.workspaceID) {
      assert RestoreOpOk(q.ops[i], q.workspaceID) && SamePlace(q.ops[i], p.ops[i]);
    }
  }

  lemma FinishExact(c: Catalog, counters: Counters, j: nat, k: nat, w: Workspace, mode: RestoreMode, selection: seq<string>, undo: seq<RestoreOp>)
    requires Sound(c, counters) && j < |c.restorePlans| && k < |c.workspaces|
    requires w == c.workspaces[k].(desired := w.desired, observed := w.observed)
    ensures var r := FinishApply(c, counters, j, k, w, mode, selection, undo);
            && r.Accepted? && Dominates(r.counters, r.cat) && (ValidCatalog(r.cat) <==> Settled(c.terminals, w))
  {
    hide Dominates, ValidCatalog, Settled, AddEvent, EventsOk, IdsOk, ReconcileStatus, Chosen;
    var p := c.restorePlans[j];
    var p1 := p.(status := PlanApplied, appliedAt := c.now, appliedSerial := c.mutationSerial + 1, undoOps := undo,
                 ops := MarkOps(p.ops, mode, selection, c.now));
    PlanEditSound(c, counters, j, p1);
    var c1 := c.(restorePlans := c.restorePlans[j := p1]);
    ReconciledSwapped(c1, counters, k, w);
    EventIrrelevant(c1.(workspaces := c.workspaces[k := ReconcileStatus(w)]), counters, EventRestore, SeverityInfo, Ref(KindPlan, p.id));
  }

  lemma {:induction false} FreezeAllSound(c: Catalog, counters: Counters, k: nat, ops: seq<RestoreOp>)
    requires Sound(c, counters) && k < |c.workspaces|
    ensures var (d, next, undo) := FreezeAll(c, counters, c.workspaces[k], ops);
            Sound(d, next) && d == c.(snapshots := d.snapshots)
    decreases |ops|
  {
    hide Sound, SnapshotOf, NextId;
    if ops != [] {
      var (id, next) := NextId(counters, "snap");
      SnapshotAppendSound(c, counters, k, "reconcile-freeze");
      FreezeAllSound(c.(snapshots := c.snapshots + [SnapshotOf(c.workspaces[k], id, c.now, "reconcile-freeze")]), next, k, ops[1..]);
    }
  }

  /** The workspace once the chosen operations ran, unless one of them was refused. */
  function Restored(w: Workspace, mode: RestoreMode, ops: seq<RestoreOp>): Option<Workspace> {
    if mode == RestoreFreeze then Some(w)
    else
      match ApplyOps(Side(w, mode), ops)
      case Refused => None
      case Edited(state) => Some(WithSide(w, mode, state))
  }

  function ModeOf(value: string): RestoreMode {
    if value == "push" then RestorePush else if value == "pull" then RestorePull else RestoreFreeze
  }

  /** Once its own checks are met, applying is stale exactly if an operation is refused, and else passes exactly if the workspace settles. */
  lemma ApplyExact(c: Catalog, counters: Counters, a: Action, j: nat, k: nat)
    requires Sound(c, counters) && a.target.kind == KindPlan
    requires j < |c.restorePlans| && j == IndexOf(PlanIds(c.restorePlans), a.target.id)
    requires c.restorePlans[j].status == PlanPending && a.confirmed && a.value in {"push", "pull", "freeze"}
    requires ChosenOps(c.restorePlans[j].ops, ModeOf(a.value), a.selection) != []
    requires k < |c.workspaces| && k == IndexOf(WorkspaceIds(c.workspaces), c.restorePlans[j].workspaceID)
    ensures var r := DoRestoreApply(c, counters, a);
            match Restored(c.workspaces[k], ModeOf(a.value), ChosenOps(c.restorePlans[j].ops, ModeOf(a.value), a.selection))
            case None => r == Failed(StalePlan, counters)
            case Some(w) => r.Accepted? && Dominates(r.counters, r.cat) && (ValidCatalog(r.cat) <==> Settled(c.terminals, w))
  {
    hide Dominates, ValidCatalog, Settled, AddEvent, ReconcileStatus, Chosen, ChosenOps, FinishApply, IndexOf, ApplyOps, FreezeAll;
    var mode, p, w := ModeOf(a.value), c.restorePlans[j], c.workspaces[k];
    var ops, c1 := ChosenOps(p.ops, mode, a.selection), Advance(c);
    AdvanceSound(c, counters);
    if mode == RestoreFreeze {
      FreezeAllSound(c1, counters, k, ops);
      var (c2, next, undo) := FreezeAll(c1, counters, w, ops);
      FinishExact(c2, next, j, k, w, mode, a.selection, undo);
    } else {
      var e := ApplyOps(Side(w, mode), ops);
      if e.Edited? { FinishExact(c1, counters, j, k, WithSide(w, mode, e.state), mode, a.selection, UndoRecords(ops)); }
    }
  }

  /** Undoing drops the snapshots that freeze operations created. */
  predicate Drops(ops: seq<RestoreOp>, id: string) {
    exists i :: 0 <= i < |ops| && ops[i].mode == RestoreFreeze && ops[i].before == id
  }

  lemma {:induction false} UndoAllSpec(ss: seq<Snapshot>, w: Workspace, ops: seq<RestoreOp>)
    requires UndoAll(ss, w, ops).Some?
    ensures var (ss1, w1) := UndoAll(ss, w, ops).value;
            && w1 == w.(desired := w1.desired, observed := w1.observed)
            && (IdsOk(SnapshotIds(ss)) ==> IdsOk(SnapshotIds(ss1)))
            && forall s :: s in ss1 <==> s in ss && !Drops(ops, s.id)
    decreases |ops|
  {
    hide UndoOne, RemoveSnapshot, IdsOk;
    if ops != [] {
      var t := ops[1..];
      UndoAllSpec(ss, w, t);
      var (ss2, w2) := UndoAll(ss, w, t).value;
      RemoveSnapshotSpec(ss2, ops[0].before);
      forall id ensures Drops(ops, id) <==> Drops(t, id) || (ops[0].mode == RestoreFreeze && ops[0].before == id) {
        DropsCons(ops, id);
      }
    }
  }

  lemma DropsCons(ops: seq<RestoreOp>, id: string)
    requires ops != []
    ensures Drops(ops, id) <==> Drops(ops[1..], id) || (ops[0].mode == RestoreFreeze && ops[0].before == id)
  {
    var t := ops[1..];
    if Drops(ops, id) {
      var i :| 0 <= i < |ops| && ops[i].mode == RestoreFreeze && ops[i].before == id;
      if i > 0 { assert t[i - 1] == ops[i]; }
    }
    if Drops(t, id) {
      var i :| 0 <= i < |t| && t[i].mode == RestoreFreeze && t[i].before == id;
      assert ops[i + 1] == t[i];
    }
  }

  predicate HomeGone(ps: seq<RestorePlan>, ops: seq<RestoreOp>) {
    exists i :: 0 <= i < |ps| && Drops(ops, ps[i].snapshotID)
  }

  lemma SnapshotHomeStays(ss: seq<Snapshot>, ss1: seq<Snapshot>, ops: seq<RestoreOp>, id: string, workspace: string)
    requires forall s :: s in ss1 <==> s in ss && !Drops(ops, s.id)
    requires (id, workspace) in SnapshotHomes(ss)
    ensures (id, workspace) in SnapshotHomes(ss1) <==> !Drops(ops, id)
  {
    hide Drops;
    var a, b := SnapshotHomes(ss), SnapshotHomes(ss1);
    var i :| 0 <= i < |a| && a[i] == (id, workspace);
    if !Drops(ops, id) {
      assert ss[i] in ss1;
      var j :| 0 <= j < |ss1| && ss1[j] == ss[i];
      assert b[j] == (id, workspace);
    }
    if (id, workspace) in b {
      var j :| 0 <= j < |b| && b[j] == (id, workspace);
      assert ss1[j] in ss1;
    }
  }

  lemma PlansKept(ps: seq<RestorePlan>, ss: seq<Snapshot>, ss1: seq<Snapshot>, ops: seq<RestoreOp>, ids: seq<string>)
    requires forall s :: s in ss1 <==> s in ss && !Drops(ops, s.id)
    requires PlansOk(ps, SnapshotHomes(ss), ids)
    ensures PlansOk(ps, SnapshotHomes(ss1), ids) <==> !HomeGone(ps, ops)
  {
    hide Drops, RestoreOpOk, OpLess, SnapshotHomes;
    forall i | 0 <= i < |ps| ensures PlanOk(ps[i], SnapshotHomes(ss1), ids) <==> !Drops(ops, ps[i].snapshotID) {
      assert PlanOk(ps[i], SnapshotHomes(ss), ids);
      SnapshotHomeStays(ss, ss1, ops, ps[i].snapshotID, ps[i].workspaceID);
    }
    if !HomeGone(ps, ops) {
      forall i | 0 <= i < |ps| ensures PlanOk(ps[i], SnapshotHomes(ss1), ids) { }
    }
  }

  lemma SnapshotsDropped(c: Catalog, counters: Counters, ss: seq<Snapshot>, ops: seq<RestoreOp>)
    requires Sound(c, counters) && IdsOk(SnapshotIds(ss))
    requires forall s :: s in ss <==> s in c.snapshots && !Drops(ops, s.id)
    ensures ValidCatalog(c.(snapshots := ss)) <==> !HomeGone(c.restorePlans, ops)
    ensures Dominates(counters, c.(snapshots := ss))
  {
    hide IdOf, IdsOk, BackendsOk, WorkspacesOk, TerminalsOk, AgentsOk, HistoryOk, EventsOk, MachinesOk, ConfigOk, ViewsOk, PlansOk, HomeGone, Issued, Drops;
    SnapshotIdsWithin(ss, c.snapshots);
    PlansKept(c.restorePlans, c.snapshots, ss, ops, WorkspaceIds(c.workspaces));
    assert forall i :: 0 <= i < |ss| ==> ss[i] in c.snapshots;
  }

  /** The gate looks at plans and at workspaces separately. */
  lemma GateSplits(c: Catalog, ss: seq<Snapshot>, ws: seq<Workspace>)
    requires ValidCatalog(c) && WorkspaceIds(ws) == WorkspaceIds(c.workspaces)
    ensures ValidCatalog(c.(snapshots := ss, workspaces := ws))
            <==> ValidCatalog(c.(snapshots := ss)) && ValidCatalog(c.(workspaces := ws))
  {
    hide IdsOk, BackendsOk, WorkspacesOk, SnapshotsOk, TerminalsOk, AgentsOk, HistoryOk, EventsOk, PlansOk, MachinesOk, ConfigOk, ViewsOk;
  }

  /**
   * Undo passes exactly if the workspace settles and no plan was built from a snapshot it drops.
   */
  lemma UndoExact(c: Catalog, counters: Counters, a: Action, k: nat)
    requires Sound(c, counters)
    requires var j := LatestApplied(c.restorePlans);
             && j >= 0 && var p := c.restorePlans[j];
             && (a.target.id == "" || a.target.id == p.id) && c.mutationSerial == p.appliedSerial
             && k == IndexOf(WorkspaceIds(c.workspaces), p.workspaceID)
    requires k < |c.workspaces|
    ensures var p, r := c.restorePlans[LatestApplied(c.restorePlans)], DoUndo(c, counters, a);
            match UndoAll(c.snapshots, c.workspaces[k], p.undoOps)
            case None => r == Failed(UndoStale, counters)
            case Some((ss, w)) =>
              && r.Accepted? && Dominates(r.counters, r.cat)
              && (ValidCatalog(r.cat) <==> Settled(c.terminals, w) && !HomeGone(c.restorePlans, p.undoOps))
  {
    hide Dominates, ValidCatalog, Settled, HomeGone, Drops, AddEvent, IndexOf, ReconcileStatus, UndoAll, EventsOk, IdsOk, LatestApplied;
    var j, c1 := LatestApplied(c.restorePlans), Advance(c);
    var p := c.restorePlans[j];
    if UndoAll(c.snapshots, c.workspaces[k], p.undoOps).Some? {
      var (ss, w) := UndoAll(c.snapshots, c.workspaces[k], p.undoOps).value;
      UndoAllSpec(c.snapshots, c.workspaces[k], p.undoOps);
      var p1 := p.(status := PlanUndone, undoneAt := c1.now);
      AdvanceSound(c, counters);
      StateParts(c, k);
      PlanEditSound(c1, counters, j, p1);
      var c2 := c1.(restorePlans := c.restorePlans[j := p1]);
      SnapshotIdsKept(c, ss);
      SnapshotsDropped(c2, counters, ss, p.undoOps);
      ReconciledSwapped(c2, counters, k, w);
      var ws := c.workspaces[k := ReconcileStatus(w)];
      SwapIds(c.workspaces, k, ReconcileStatus(w));
      ReconciledId(w);
      GateSplits(c2, ss, ws);
      HomeGoneSame(c.restorePlans, j, p1, p.undoOps);
      DominatesParts(c2, counters, ss, ws);
      EventIrrelevant(c2.(snapshots := ss, workspaces := ws), counters, EventRestore, SeverityInfo, Ref(KindPlan, p.id));
    }
  }

  lemma SnapshotIdsKept(c: Catalog, ss: seq<Snapshot>)
    requires ValidCatalog(c) && (IdsOk(SnapshotIds(c.snapshots)) ==> IdsOk(SnapshotIds(ss)))
    ensures IdsOk(SnapshotIds(ss))
  {
    hide IdsOk, BackendsOk, WorkspacesOk, SnapshotsOk, TerminalsOk, AgentsOk, HistoryOk, EventsOk, PlansOk, MachinesOk, ConfigOk, ViewsOk;
  }

  lemma SwapIds(ws: seq<Workspace>, k: nat, w: Workspace)
    requires k < |ws|
    ensures w.id == ws[k].id ==> WorkspaceIds(ws[k := w]) == WorkspaceIds(ws)
  {
    if w.id == ws[k].id { assert WorkspaceIds(ws[k := w]) == WorkspaceIds(ws); }
  }

  lemma ReconciledId(w: Workspace)
    ensures ReconcileStatus(w).id == w.id
  {
  }

  lemma HomeGoneSame(ps: seq<RestorePlan>, j: nat, p: RestorePlan, ops: seq<RestoreOp>)
    requires j < |ps| && p.snapshotID == ps[j].snapshotID
    ensures HomeGone(ps[j := p], ops) <==> HomeGone(ps, ops)
  {
    hide Drops;
    var ps1 := ps[j := p];
    assert forall i :: 0 <= i < |ps| ==> ps1[i].snapshotID == ps[i].snapshotID;
    if HomeGone(ps, ops) {
      var i :| 0 <= i < |ps| && Drops(ops, ps[i].snapshotID);
      assert Drops(ops, ps1[i].snapshotID);
    }
    if HomeGone(ps1, ops) {
      var i :| 0 <= i < |ps1| && Drops(ops, ps1[i].snapshotID);
      assert Drops(ops, ps[i].snapshotID);
    }
  }

  lemma DominatesParts(c: Catalog, counters: Counters, ss: seq<Snapshot>, ws: seq<Workspace>)
    requires Dominates(counters, c.(snapshots := ss))
    ensures Dominates(counters, c.(snapshots := ss, workspaces := ws))
  {
    hide Unissued;
  }

  // ---- every action --------------------------------------------------------------------------------

  /** Whatever the action, the counters stay ahead of the records they number, accepted or failed. */
  ghost predicate CountersAhead(r: Outcome, c: Catalog) {
    Dominates(r.counters, if r.Accepted? then r.cat else c)
  }

  lemma SoundIsAhead(r: Outcome, c: Catalog)
    requires SoundOutcome(r, c)
    ensures CountersAhead(r, c)
  {
    hide Dominates, ValidCatalog;
  }

  lemma AttachAhead(c: Catalog, counters: Counters, a: Action)
    requires Sound(c, counters)
    ensures CountersAhead(DoAttach(c, counters, a), c)
  {
    hide Dominates, ValidCatalog, HasSurface, IndexOf, FirstLive;
    forall k, i | 0 <= k < |c.workspaces| && 0 <= i < |c.terminals| && c.terminals[i].state == TerminalLive
      ensures CountersAhead(AttachTo(c, counters, k, i), c)
    {
      AttachExact(c, counters, k, i);
    }
  }

  lemma SplitAhead(c: Catalog, counters: Counters, a: Action)
    requires Sound(c, counters)
    ensures CountersAhead(DoSplit(c, counters, a), c)
  {
    hide Dominates, ValidCatalog, HasSurface, IndexOf, SplitObserved, Unissued, IdOf;
    var r := DoSplit(c, counters, a);
    if r.Accepted? {
      SplitExact(c, counters, a);
    } else {
      var (newID, counters1) := NextId(counters, "term");
      var (sfID, counters2) := NextId(counters1, "sf");
      TermIssued(c, counters);
      SurfaceCounter(counters1, counters2, c);
    }
  }

  lemma TermIssued(c: Catalog, counters: Counters)
    requires Dominates(counters, c)
    ensures Dominates(NextId(counters, "term").1, c)
  {
    hide IdOf;
  }

  lemma RestoreAhead(c: Catalog, counters: Counters, a: Action)
    requires Sound(c, counters)
    ensures CountersAhead(DoRestoreApply(c, counters, a), c)
  {
    hide Dominates, ValidCatalog, Settled, IndexOf, ChosenOps, FinishApply, FreezeAll, ApplyOps, AddEvent;
    var j := IndexOf(PlanIds(c.restorePlans), a.target.id);
    if a.target.kind == KindPlan && j >= 0 && c.restorePlans[j].status == PlanPending && a.confirmed && a.value in {"push", "pull", "freeze"} {
      var k := IndexOf(WorkspaceIds(c.workspaces), c.restorePlans[j].workspaceID);
      if k >= 0 && ChosenOps(c.restorePlans[j].ops, ModeOf(a.value), a.selection) != [] {
        ApplyExact(c, counters, a, j, k);
      }
    }
  }

  lemma UndoAhead(c: Catalog, counters: Counters, a: Action)
    requires Sound(c, counters)
    ensures CountersAhead(DoUndo(c, counters, a), c)
  {
    hide Dominates, ValidCatalog, Settled, IndexOf, UndoAll, AddEvent, LatestApplied, HomeGone, ReconcileStatus;
    var j := LatestApplied(c.restorePlans);
    if j >= 0 && (a.target.id == "" || a.target.id == c.restorePlans[j].id) && c.mutationSerial == c.restorePlans[j].appliedSerial {
      var k := IndexOf(WorkspaceIds(c.workspaces), c.restorePlans[j].workspaceID);
      if k >= 0 { UndoExact(c, counters, a, k); }
    }
  }

  lemma ApplyAhead(c: Catalog, counters: Counters, a: Action)
    requires Sound(c, counters)
    ensures CountersAhead(Apply(c, counters, a), c)
  {
    hide Dominates, ValidCatalog, Sound, DoPin, DoTouch, DoPrune, DoSend, DoKill, DoAgent, DoExport, DoSnapshotCreate, DoSnapshotTag, DoSnapshotDelete,
         DoSnapshotPlan, DoBackendCheck, DoBackendToggle, DoMachine, DoPerf, DoConfig, DoAttach, DoFreeze, DoSplit, DoLink, DoRestoreApply, DoUndo, SoundOutcome, CountersAhead;
    if NeverGated(a.kind) {
      GateNeverFires(c, counters, a);
      SoundIsAhead(Apply(c, counters, a), c);
    } else {
      match a.kind
      case ActionAttach => AttachAhead(c, counters, a);
      case ActionFreeze => FreezeAhead(c, counters, a);
      case ActionSplit => SplitAhead(c, counters, a);
      case ActionLink => LinkAhead(c, counters, a);
      case ActionRestoreApply => RestoreAhead(c, counters, a);
      case ActionReconcileUndo => UndoAhead(c, counters, a);
      case ActionOther(_) => UnknownAhead(c, counters);
    }
  }

  lemma UnknownAhead(c: Catalog, counters: Counters)
    requires Sound(c, counters)
    ensures CountersAhead(Failed(ValidationFailed, counters), c)
  {
    hide Dominates, ValidCatalog;
  }

  lemma FreezeAhead(c: Catalog, counters: Counters, a: Action)
    requires Sound(c, counters)
    ensures CountersAhead(DoFreeze(c, counters, a), c)
  {
    hide Dominates, ValidCatalog, HasSurface, IndexOf, AddEvent;
    if a.target.kind == KindWorkspace && IndexOf(WorkspaceIds(c.workspaces), a.target.id) >= 0 { FreezeExact(c, counters, a); }
  }

  lemma LinkAhead(c: Catalog, counters: Counters, a: Action)
    requires Sound(c, counters)
    ensures CountersAhead(DoLink(c, counters, a), c)
  {
    hide Dominates, ValidCatalog, HasSurface, IndexOf;
    if DoLink(c, counters, a).Accepted? { LinkExact(c, counters, a); }
  }
}
