/**
 * The identifiers of surfaces over whole runs: where they come from, and exactly when a split draws a new one.
 * (tmh-next/internal/mock/backend.go)
 */
module Surfaces {
  import opened Text
  import opened Topology
  import opened Edits
  import opened Domain
  import opened Reconcile
  import opened Plan
  import opened Validation
  import opened Transitions
  import opened Gate
  import opened GateExact
  import opened Backend
  import opened Runs
  import opened UndoRuns

  // ---- where surfaces are and where they can come from ---------------------------------------

  ghost predicate SurfacesIn(sfs: seq<SurfaceSpec>, known: iset<string>) {
    forall k :: 0 <= k < |sfs| ==> sfs[k].id in known
  }

  /** No id occurs twice, and every surface is a known one. */
  ghost predicate StateTidy(ws: WorkspaceState, known: iset<string>) {
    Unique(ws) && forall i :: 0 <= i < |ws| ==> SurfacesIn(ws[i].surfaces, known)
  }

  /** The operations can only make surfaces that are known: a path of two parts makes the surface it names. */
  ghost predicate OpsTidy(ops: seq<RestoreOp>, known: iset<string>) {
    forall i :: 0 <= i < |ops| && OnSurface(ops[i]) ==> Part(ops[i]) in known
  }

  ghost predicate SidesTidy(w: Workspace, known: iset<string>) {
    StateTidy(w.desired, known) && StateTidy(w.observed, known)
  }

  ghost predicate PlanTidy(p: RestorePlan, known: iset<string>) {
    OpsTidy(p.ops, known) && OpsTidy(p.undoOps, known)
  }

  ghost predicate WorkspacesTidy(ws: seq<Workspace>, known: iset<string>) {
    forall k :: 0 <= k < |ws| ==> SidesTidy(ws[k], known)
  }

  ghost predicate SnapshotsTidy(ss: seq<Snapshot>, known: iset<string>) {
    forall i :: 0 <= i < |ss| ==> StateTidy(ss[i].state, known)
  }

  ghost predicate PlansTidy(ps: seq<RestorePlan>, known: iset<string>) {
    forall j :: 0 <= j < |ps| ==> PlanTidy(ps[j], known)
  }

  ghost predicate Tidy(c: Catalog, known: iset<string>) {
    WorkspacesTidy(c.workspaces, known) && SnapshotsTidy(c.snapshots, known) && PlansTidy(c.restorePlans, known)
  }

  /** No surface id still to be issued is known. */
  ghost predicate Ahead(counters: Counters, known: iset<string>) {
    forall n: nat :: n > Issued(counters, "sf") ==> IdOf("sf", n) !in known
  }

  /** The surface ids drawn between two states of the counters. */
  ghost function Drawn(counters: Counters, next: Counters): iset<string> {
    iset n: nat | Issued(counters, "sf") < n <= Issued(next, "sf") :: IdOf("sf", n)
  }

  // ---- edits -----------------------------------------------------------------------------------

  lemma StateKnown(ws: WorkspaceState, known: iset<string>, x: string)
    requires StateTidy(ws, known) && HasSurface(ws, x)
    ensures x in known
  {
    var i := HolderIndex(ws, x);
    var k := SurfaceIndex(ws[i].surfaces, x);
    assert SurfacesIn(ws[i].surfaces, known);
  }

  lemma SetLayoutTidy(ws: WorkspaceState, id: string, layout: string, known: iset<string>)
    requires StateTidy(ws, known)
    ensures StateTidy(SetLayout(ws, id, layout), known)
  {
    hide Unique;
    SetLayoutUnique(ws, id, layout);
  }

  lemma PutTidy(ws: WorkspaceState, i: nat, k: nat, sf: SurfaceSpec, known: iset<string>)
    requires StateTidy(ws, known) && i < |ws| && k < |ws[i].surfaces| && sf.id == ws[i].surfaces[k].id
    ensures StateTidy(ws[i := PutSurface(ws[i], k, sf)], known)
  {
    hide Unique;
    PutSurfaceUnique(ws, i, k, sf);
    assert SurfacesIn(ws[i].surfaces, known);
  }

  lemma AppendTidy(ws: WorkspaceState, sf: SurfaceSpec, known: iset<string>)
    requires StateTidy(ws, known) && ws != [] && !HasSurface(ws, sf.id) && sf.id in known
    ensures StateTidy(AppendSurface(ws, sf), known)
  {
    hide Unique, HasSurface;
    AppendSurfaceUnique(ws, sf);
    assert SurfacesIn(ws[|ws| - 1].surfaces, known);
  }

  lemma SetSurfaceTidy(ws: WorkspaceState, id: string, value: string, known: iset<string>)
    requires StateTidy(ws, known) && id in known
    ensures StateTidy(SetSurface(ws, id, value), known)
  {
    hide StateTidy, SurfaceIndex, Cut;
    var (title, rest) := Cut(value, '~');
    var cwd := if rest.None? then "" else rest.value;
    var i := HolderIndex(ws, id);
    if i >= 0 {
      var k := SurfaceIndex(ws[i].surfaces, id);
      PutTidy(ws, i, k, ws[i].surfaces[k].(title := title, cwd := cwd), known);
    } else if ws == [] {
      RestoredTidy(known);
      AppendTidy([RESTORED_WINDOW], SurfaceSpec(id, title, cwd, ""), known);
    } else {
      AppendTidy(ws, SurfaceSpec(id, title, cwd, ""), known);
    }
  }

  lemma RestoredTidy(known: iset<string>)
    ensures StateTidy([RESTORED_WINDOW], known) && forall x :: !HasSurface([RESTORED_WINDOW], x)
  {
    forall x ensures !HasSurface([RESTORED_WINDOW], x) { assert !HoldsSurface(RESTORED_WINDOW, x); }
  }

  lemma SetAttributeTidy(ws: WorkspaceState, id: string, attribute: string, value: string, known: iset<string>)
    requires StateTidy(ws, known) && SetAttribute(ws, id, attribute, value).Edited?
    ensures StateTidy(SetAttribute(ws, id, attribute, value).state, known)
  {
    hide StateTidy, SurfaceIndex;
    var i := HolderIndex(ws, id);
    var k := SurfaceIndex(ws[i].surfaces, id);
    var sf := ws[i].surfaces[k];
    PutTidy(ws, i, k, sf.(title := value), known);
    PutTidy(ws, i, k, sf.(cwd := value), known);
    PutTidy(ws, i, k, sf.(split := value), known);
  }

  /** Writing a field makes no surface but the one a path of two parts names. */
  lemma SetFieldTidy(ws: WorkspaceState, field: string, value: string, known: iset<string>)
    requires StateTidy(ws, known) && SetField(ws, field, value).Edited?
    requires var parts := Split(field, '/'); |parts| == 2 && parts[0] == "surface" ==> parts[1] in known
    ensures StateTidy(SetField(ws, field, value).state, known)
  {
    hide StateTidy, Split, SetLayout, SetSurface, SetAttribute;
    var parts := Split(field, '/');
    if |parts| == 2 && parts[0] == "window" {
      SetLayoutTidy(ws, parts[1], value, known);
    } else if |parts| == 3 && parts[0] == "window" {
      SetLayoutTidy(ws, parts[1], value, known);
    } else if |parts| == 2 {
      SetSurfaceTidy(ws, parts[1], value, known);
    } else {
      SetAttributeTidy(ws, parts[1], parts[2], value, known);
    }
  }

  lemma RemoveFieldTidy(ws: WorkspaceState, field: string, known: iset<string>)
    requires StateTidy(ws, known) && RemoveField(ws, field).Edited?
    ensures StateTidy(RemoveField(ws, field).state, known)
  {
    hide Unique, Split, HolderIndex, WindowIndex, SurfaceIndex;
    var parts := Split(field, '/');
    if parts[0] == "window" {
      DropWindowUnique(ws, parts[1]);
    } else {
      DropSurfaceUnique(ws, parts[1]);
      var i := HolderIndex(ws, parts[1]);
      assert SurfacesIn(ws[i].surfaces, known);
    }
  }

  lemma OneTidy(ws: WorkspaceState, op: RestoreOp, known: iset<string>)
    requires StateTidy(ws, known) && (OnSurface(op) ==> Part(op) in known)
    ensures ApplyOne(ws, op).Edited? ==> StateTidy(ApplyOne(ws, op).state, known)
    ensures UndoOne(ws, op).Edited? ==> StateTidy(UndoOne(ws, op).state, known)
  {
    hide StateTidy, Split, SetField, RemoveField;
    if SetField(ws, op.field, op.after).Edited? { SetFieldTidy(ws, op.field, op.after, known); }
    if SetField(ws, op.field, op.before).Edited? { SetFieldTidy(ws, op.field, op.before, known); }
    if RemoveField(ws, op.field).Edited? { RemoveFieldTidy(ws, op.field, known); }
  }

  lemma {:induction false} ApplyTidy(ws: WorkspaceState, ops: seq<RestoreOp>, known: iset<string>)
    requires StateTidy(ws, known) && OpsTidy(ops, known)
    ensures ApplyOps(ws, ops).Edited? ==> StateTidy(ApplyOps(ws, ops).state, known)
    decreases |ops|
  {
    hide StateTidy, OnSurface, Part, ApplyOne;
    if ops != [] && ApplyOne(ws, ops[0]).Edited? {
      OneTidy(ws, ops[0], known);
      assert forall j :: 0 <= j < |ops[1..]| ==> ops[1..][j] == ops[j + 1];
      ApplyTidy(ApplyOne(ws, ops[0]).state, ops[1..], known);
    }
  }

  // ---- plans -----------------------------------------------------------------------------------

  lemma SameFields(ops: seq<RestoreOp>, others: seq<RestoreOp>, known: iset<string>)
    requires OpsTidy(ops, known)
    requires forall i :: 0 <= i < |others| ==> Named(ops, others[i].field)
    ensures OpsTidy(others, known)
  {
    hide Split;
    forall i | 0 <= i < |others| && OnSurface(others[i]) ensures Part(others[i]) in known {
      var j :| 0 <= j < |ops| && ops[j].field == others[i].field;
      assert OnSurface(ops[j]) && Part(ops[j]) == Part(others[i]);
    }
  }

  lemma {:induction false} ChosenFields(ops: seq<RestoreOp>, mode: RestoreMode, selection: seq<string>)
    ensures forall i :: 0 <= i < |ChosenOps(ops, mode, selection)| ==> Named(ops, ChosenOps(ops, mode, selection)[i].field)
  {
    hide Chosen;
    if ops != [] {
      var t, all := ops[1..], ChosenOps(ops, mode, selection);
      var r := ChosenOps(t, mode, selection);
      ChosenFields(t, mode, selection);
      forall i | 0 <= i < |all| ensures Named(ops, all[i].field) {
        if all == r || i > 0 {
          var m := if all == r then i else i - 1;
          var j :| 0 <= j < |t| && t[j].field == r[m].field;
          assert ops[j + 1].field == all[i].field;
        } else {
          assert ops[0].field == all[i].field;
        }
      }
    }
  }

  lemma DiffTidy(a: WorkspaceState, b: WorkspaceState, mode: RestoreMode, target: ResourceRef, n: nat, known: iset<string>)
    requires StateTidy(a, known) && StateTidy(b, known)
    ensures OpsTidy(Number(DiffStates(a, b), mode, target, n), known)
  {
    hide Fields, DiffStates, StateTidy, SKey, Less, OpId, Split, HasSurface;
    DiffStatesSpec(a, b);
    var ds, ops := DiffStates(a, b), Number(DiffStates(a, b), mode, target, n);
    forall i | 0 <= i < |ops| && OnSurface(ops[i]) ensures Part(ops[i]) in known {
      var x := Part(ops[i]);
      OpField(ops[i]);
      assert DiffOf(ds[i], Fields(a), Fields(b)) && ds[i].field == SKey(x);
      FieldsHas(a, x);
      FieldsHas(b, x);
      if HasSurface(a, x) { StateKnown(a, known, x); } else { StateKnown(b, known, x); }
    }
  }

  lemma OtherField(op: RestoreOp)
    requires |op.field| > 1 && op.field[1] == 'n'
    ensures !OnSurface(op)
  {
    hide Split;
    OpField(op);
    assert SKey(Part(op))[1] == 'u';
  }

  /** A plan names no surface that is not in one of the states it was built from. */
  lemma BuiltTidy(w: Workspace, target: WorkspaceState, known: iset<string>)
    requires SidesTidy(w, known) && StateTidy(target, known)
    ensures OpsTidy(BuildOps(w, target), known)
  {
    hide DiffStates, StateTidy, BuildOps, Number, OnSurface, Part, SortedByField, OpsSorted;
    var push := PushOps(w.observed, target, w.id);
    var pull := PullOps(w.desired, w.observed, w.id, |push|);
    var freeze := FreezeOp(w.observed, w.id, |push| + |pull|);
    BuildOpsSections(w, target);
    DiffTidy(w.observed, target, RestorePush, Ref(KindWorkspace, w.id), 0, known);
    DiffTidy(w.desired, w.observed, RestorePull, Ref(KindWorkspace, w.id), |push|, known);
    OtherField(freeze);
    var ops := BuildOps(w, target);
    forall i | 0 <= i < |ops| && OnSurface(ops[i]) ensures Part(ops[i]) in known {
      assert ops[i] == if i == 0 then freeze else if i <= |pull| then pull[i - 1] else push[i - 1 - |pull|];
    }
  }

  // ---- actions ---------------------------------------------------------------------------------

  lemma RemoveTidy(ss: seq<Snapshot>, id: string, known: iset<string>)
    requires SnapshotsTidy(ss, known)
    ensures SnapshotsTidy(RemoveSnapshot(ss, id), known)
  {
    hide StateTidy;
    RemoveSnapshotSpec(ss, id);
    var r := RemoveSnapshot(ss, id);
    forall i | 0 <= i < |r| ensures StateTidy(r[i].state, known) {
      assert r[i] in ss;
    }
  }

  lemma DropTidy(ps: seq<RestorePlan>, snapshot: string, known: iset<string>)
    requires PlansTidy(ps, known)
    ensures PlansTidy(DropPlans(ps, snapshot), known)
  {
    hide PlanTidy;
    DropPlansSpec(ps, snapshot);
    var r := DropPlans(ps, snapshot);
    forall j | 0 <= j < |r| ensures PlanTidy(r[j], known) {
      assert r[j] in ps;
    }
  }

  lemma {:induction false} FreezeTidy(c: Catalog, counters: Counters, w: Workspace, ops: seq<RestoreOp>, known: iset<string>)
    requires SnapshotsTidy(c.snapshots, known) && StateTidy(w.observed, known)
    ensures var (d, next, undo) := FreezeAll(c, counters, w, ops); SnapshotsTidy(d.snapshots, known) && OpsTidy(undo, known)
    decreases |ops|
  {
    hide StateTidy, OnSurface, Part, SurfaceCount, IdOf;
    if ops != [] {
      var (id, next) := NextId(counters, "snap");
      var d := c.(snapshots := c.snapshots + [SnapshotOf(w, id, c.now, "reconcile-freeze")]);
      FreezeTidy(d, next, w, ops[1..], known);
      OtherField(RestoreOp(ops[0].id, RestoreFreeze, Ref(KindOther(""), ""), "snapshot:" + id, id, "", false, true, 0));
    }
  }

  lemma {:induction false} UndoTidy(ss: seq<Snapshot>, w: Workspace, ops: seq<RestoreOp>, known: iset<string>)
    requires SnapshotsTidy(ss, known) && SidesTidy(w, known) && OpsTidy(ops, known)
    ensures match UndoAll(ss, w, ops)
            case None => true
            case Some((ss1, w1)) => SnapshotsTidy(ss1, known) && SidesTidy(w1, known)
    decreases |ops|
  {
    hide StateTidy, SnapshotsTidy, OnSurface, Part, UndoOne, RemoveSnapshot;
    if ops != [] {
      assert forall j :: 0 <= j < |ops[1..]| ==> ops[1..][j] == ops[j + 1];
      UndoTidy(ss, w, ops[1..], known);
      if UndoAll(ss, w, ops[1..]).Some? {
        var (ss1, w1) := UndoAll(ss, w, ops[1..]).value;
        RemoveTidy(ss1, ops[0].before, known);
        OneTidy(Side(w1, ops[0].mode), ops[0], known);
      }
    }
  }

  /** Most actions leave workspaces, snapshots and plans alone. */
  predicate Untouched(c: Catalog, r: Outcome) {
    r.Accepted? ==> r.cat.workspaces == c.workspaces && r.cat.snapshots == c.snapshots && r.cat.restorePlans == c.restorePlans
  }

  lemma UntouchedTidy(c: Catalog, r: Outcome, known: iset<string>)
    requires Tidy(c, known) && Untouched(c, r)
    ensures r.Accepted? ==> Tidy(r.cat, known)
  {
  }

  lemma ViewsUntouched(c: Catalog, counters: Counters, a: Action)
    ensures Untouched(c, DoPin(c, counters, a)) && Untouched(c, DoTouch(c, counters, a)) && Untouched(c, DoPrune(c, counters, a))
  {
    hide IdOf, IndexOf, RemoveView;
  }

  lemma TerminalsUntouched(c: Catalog, counters: Counters, a: Action)
    ensures Untouched(c, DoSend(c, counters, a)) && Untouched(c, DoKill(c, counters, a)) && Untouched(c, DoExport(c, counters, a))
  {
    hide IdOf, IndexOf, Blank, Echo, NextSeq, Detach, SelectedRows;
  }

  lemma AgentUntouched(c: Catalog, counters: Counters, a: Action)
    ensures Untouched(c, DoAgent(c, counters, a))
  {
    hide IdOf, IndexOf, Blank, Echo, NextSeq;
  }

  lemma SystemUntouched(c: Catalog, counters: Counters, a: Action)
    ensures Untouched(c, DoBackendCheck(c, counters, a)) && Untouched(c, DoBackendToggle(c, counters, a))
    ensures Untouched(c, DoMachine(c, counters, a)) && Untouched(c, DoPerf(c, counters, a)) && Untouched(c, DoConfig(c, counters, a))
  {
    hide IdOf, IndexOf, Blank, ConfigOk;
  }

  lemma LinksTidy(c: Catalog, counters: Counters, a: Action, known: iset<string>)
    requires Tidy(c, known)
    ensures DoAttach(c, counters, a).Accepted? ==> Tidy(DoAttach(c, counters, a).cat, known)
    ensures DoLink(c, counters, a).Accepted? ==> Tidy(DoLink(c, counters, a).cat, known)
    ensures DoFreeze(c, counters, a).Accepted? ==> Tidy(DoFreeze(c, counters, a).cat, known)
  {
    hide StateTidy, PlanTidy, IndexOf, FirstLive, IdOf, RemoveID, FirstSurface;
  }

  lemma {:induction false} SnapshotAllTidy(c: Catalog, counters: Counters, targets: seq<Workspace>, known: iset<string>)
    requires SnapshotsTidy(c.snapshots, known) && WorkspacesTidy(targets, known)
    ensures var r := SnapshotAll(c, counters, targets);
            r.Accepted? && SnapshotsTidy(r.cat.snapshots, known) && r.cat.workspaces == c.workspaces && r.cat.restorePlans == c.restorePlans
    decreases |targets|
  {
    hide StateTidy, IdOf, SurfaceCount;
    if targets != [] {
      var (id, next) := NextId(counters, "snap");
      var e := AddEvent(c.(snapshots := c.snapshots + [SnapshotOf(targets[0], id, c.now, "manual")]), next,
                        EventSnapshot, SeverityInfo, Ref(KindSnapshot, id));
      assert SidesTidy(targets[0], known);
      SnapshotAllTidy(e.cat, e.counters, targets[1..], known);
    }
  }

  lemma CreateTidy(c: Catalog, counters: Counters, a: Action, known: iset<string>)
    requires Tidy(c, known)
    ensures DoSnapshotCreate(c, counters, a).Accepted? ==> Tidy(DoSnapshotCreate(c, counters, a).cat, known)
  {
    hide SnapshotsTidy, PlansTidy, SidesTidy, IndexOf, SnapshotAll;
    var r := DoSnapshotCreate(c, counters, a);
    if r.Accepted? {
      var id := if a.value == "" && a.target.kind == KindWorkspace then a.target.id else a.value;
      var targets := if a.value == "all" then c.workspaces else [c.workspaces[IndexOf(WorkspaceIds(c.workspaces), id)]];
      SnapshotAllTidy(Advance(c), counters, targets, known);
    }
  }

  lemma SnapshotTidy(c: Catalog, counters: Counters, a: Action, known: iset<string>)
    requires Tidy(c, known)
    ensures DoSnapshotTag(c, counters, a).Accepted? ==> Tidy(DoSnapshotTag(c, counters, a).cat, known)
  {
    hide StateTidy, PlanTidy, IndexOf, IdOf, Blank;
  }

  lemma DeleteTidy(c: Catalog, counters: Counters, a: Action, known: iset<string>)
    requires Tidy(c, known)
    ensures DoSnapshotDelete(c, counters, a).Accepted? ==> Tidy(DoSnapshotDelete(c, counters, a).cat, known)
  {
    hide WorkspacesTidy, SnapshotsTidy, PlansTidy, IndexOf, IdOf, RemoveSnapshot, DropPlans;
    var r, i := DoSnapshotDelete(c, counters, a), IndexOf(SnapshotIds(c.snapshots), a.target.id);
    if r.Accepted? {
      RemoveTidy(c.snapshots, c.snapshots[i].id, known);
      DropTidy(c.restorePlans, c.snapshots[i].id, known);
    }
  }

  lemma PlanMadeTidy(c: Catalog, counters: Counters, a: Action, known: iset<string>)
    requires Tidy(c, known)
    ensures DoSnapshotPlan(c, counters, a).Accepted? ==> Tidy(DoSnapshotPlan(c, counters, a).cat, known)
  {
    hide StateTidy, IndexOf, IdOf, BuildOps, OnSurface, Part;
    var i := IndexOf(SnapshotIds(c.snapshots), a.target.id);
    if i >= 0 {
      var k := IndexOf(WorkspaceIds(c.workspaces), c.snapshots[i].workspaceID);
      if k >= 0 {
        assert SidesTidy(c.workspaces[k], known);
        BuiltTidy(c.workspaces[k], c.snapshots[i].state, known);
      }
    }
  }

  lemma MarkedTidy(ops: seq<RestoreOp>, mode: RestoreMode, selection: seq<string>, now: int, known: iset<string>)
    requires OpsTidy(ops, known)
    ensures OpsTidy(MarkOps(ops, mode, selection, now), known)
  {
    hide Chosen, OpsTidy;
    var marked := MarkOps(ops, mode, selection, now);
    forall i | 0 <= i < |marked| ensures Named(ops, marked[i].field) { assert ops[i].field == marked[i].field; }
    SameFields(ops, marked, known);
  }

  lemma FinishTidy(c: Catalog, counters: Counters, j: nat, k: nat, w: Workspace, mode: RestoreMode, selection: seq<string>, undo: seq<RestoreOp>, known: iset<string>)
    requires Tidy(c, known) && j < |c.restorePlans| && k < |c.workspaces|
    requires SidesTidy(w, known) && OpsTidy(undo, known)
    ensures var r := FinishApply(c, counters, j, k, w, mode, selection, undo); r.Accepted? && Tidy(r.cat, known)
  {
    hide StateTidy, OpsTidy, ReconcileStatus, MarkOps, IdOf;
    assert PlanTidy(c.restorePlans[j], known);
    MarkedTidy(c.restorePlans[j].ops, mode, selection, c.now, known);
    ReconcileKeepsSides(w);
  }

  lemma RestoreTidy(c: Catalog, counters: Counters, a: Action, known: iset<string>)
    requires Tidy(c, known)
    ensures DoRestoreApply(c, counters, a).Accepted? ==> Tidy(DoRestoreApply(c, counters, a).cat, known)
  {
    hide StateTidy, OpsTidy, IndexOf, FinishApply, ChosenOps, ApplyOps, FreezeAll, UndoRecords;
    var j := IndexOf(PlanIds(c.restorePlans), a.target.id);
    if DoRestoreApply(c, counters, a).Accepted? {
      var p := c.restorePlans[j];
      var mode := if a.value == "push" then RestorePush else if a.value == "pull" then RestorePull else RestoreFreeze;
      var ops := ChosenOps(p.ops, mode, a.selection);
      var k := IndexOf(WorkspaceIds(c.workspaces), p.workspaceID);
      var c1, w := Advance(c), c.workspaces[k];
      assert SidesTidy(w, known) && PlanTidy(p, known);
      ChosenFields(p.ops, mode, a.selection);
      SameFields(p.ops, ops, known);
      if mode == RestoreFreeze {
        FreezeTidy(c1, counters, w, ops, known);
        var (c2, next, undo) := FreezeAll(c1, counters, w, ops);
        assert Tidy(c1.(snapshots := c2.snapshots), known);
        FinishTidy(c1.(snapshots := c2.snapshots), next, j, k, w, mode, a.selection, undo, known);
      } else {
        ApplyTidy(Side(w, mode), ops, known);
        RecordsTidy(ops, known);
        FinishTidy(c1, counters, j, k, WithSide(w, mode, ApplyOps(Side(w, mode), ops).state), mode, a.selection, UndoRecords(ops), known);
      }
    }
  }

  lemma RecordsTidy(ops: seq<RestoreOp>, known: iset<string>)
    requires OpsTidy(ops, known)
    ensures OpsTidy(UndoRecords(ops), known)
  {
    hide OpsTidy;
    var records := UndoRecords(ops);
    forall i | 0 <= i < |records| ensures Named(ops, records[i].field) { assert ops[i].field == records[i].field; }
    SameFields(ops, records, known);
  }

  lemma UndoneTidy(c: Catalog, counters: Counters, a: Action, known: iset<string>)
    requires Tidy(c, known)
    ensures DoUndo(c, counters, a).Accepted? ==> Tidy(DoUndo(c, counters, a).cat, known)
  {
    hide StateTidy, OpsTidy, IndexOf, UndoAll, LatestApplied, ReconcileStatus, IdOf;
    if DoUndo(c, counters, a).Accepted? {
      var j := LatestApplied(c.restorePlans);
      var p := c.restorePlans[j];
      var k := IndexOf(WorkspaceIds(c.workspaces), p.workspaceID);
      assert SidesTidy(c.workspaces[k], known) && PlanTidy(p, known);
      UndoTidy(c.snapshots, c.workspaces[k], p.undoOps, known);
      ReconcileKeepsSides(UndoAll(c.snapshots, c.workspaces[k], p.undoOps).value.1);
    }
  }

  // ---- splits ----------------------------------------------------------------------------------

  lemma TidyGrows(c: Catalog, known: iset<string>, more: iset<string>)
    requires Tidy(c, known) && known <= more
    ensures Tidy(c, more)
  {
    hide Unique, OnSurface, Part;
    forall ws: WorkspaceState | StateTidy(ws, known) ensures StateTidy(ws, more) {
      forall i | 0 <= i < |ws| ensures SurfacesIn(ws[i].surfaces, more) { assert SurfacesIn(ws[i].surfaces, known); }
    }
    forall ops: seq<RestoreOp> | OpsTidy(ops, known) ensures OpsTidy(ops, more) { }
    forall k | 0 <= k < |c.workspaces| ensures SidesTidy(c.workspaces[k], more) { assert SidesTidy(c.workspaces[k], known); }
    forall j | 0 <= j < |c.restorePlans| ensures PlanTidy(c.restorePlans[j], more) { assert PlanTidy(c.restorePlans[j], known); }
  }

  lemma SplitStateTidy(ws: WorkspaceState, beside: string, sf: SurfaceSpec, known: iset<string>)
    requires StateTidy(ws, known) && HasSurface(ws, beside) && sf.id !in known
    ensures StateTidy(SplitObserved(ws, beside, sf), known + iset{sf.id})
  {
    hide SurfaceIndex, Unique;
    if HasSurface(ws, sf.id) { StateKnown(ws, known, sf.id); }
    SplitUnique(ws, beside, sf);
    var t := SplitObserved(ws, beside, sf);
    forall i | 0 <= i < |t| ensures SurfacesIn(t[i].surfaces, known + iset{sf.id}) {
      assert SurfacesIn(ws[i].surfaces, known);
    }
  }

  lemma SplitTidy(c: Catalog, counters: Counters, a: Action, known: iset<string>)
    requires Tidy(c, known) && Ahead(counters, known) && DoSplit(c, counters, a).Accepted?
    ensures var id := IdOf("sf", Issued(counters, "sf") + 1);
            && id !in known && Tidy(DoSplit(c, counters, a).cat, known + iset{id})
            && Issued(DoSplit(c, counters, a).counters, "sf") == Issued(counters, "sf") + 1
  {
    hide StateTidy, PlanTidy, IndexOf, IdOf, HasSurface, SplitObserved;
    var t := c.terminals[IndexOf(TerminalIds(c.terminals), a.target.id)];
    var k := IndexOf(WorkspaceIds(c.workspaces), t.workspaceID);
    var id := IdOf("sf", Issued(counters, "sf") + 1);
    assert SidesTidy(c.workspaces[k], known);
    SplitStateTidy(c.workspaces[k].observed, t.surfaceID, SurfaceSpec(id, "terminal", t.cwd, "none"), known);
    TidyGrows(c, known, known + iset{id});
  }

  // ---- steps and runs ----------------------------------------------------------------------------

  /** Whatever the action, the surfaces it leaves were known or are the one a split drew. */
  lemma ActionTidy(c: Catalog, counters: Counters, a: Action, known: iset<string>)
    requires Tidy(c, known) && Ahead(counters, known) && Apply(c, counters, a).Accepted?
    ensures var r := Apply(c, counters, a);
            Tidy(r.cat, if a.kind == ActionSplit then known + Drawn(counters, r.counters) else known)
  {
    hide Tidy, Untouched, DoPin, DoTouch, DoPrune, DoSend, DoKill, DoAgent, DoExport, DoSnapshotCreate, DoSnapshotTag, DoSnapshotDelete,
         DoSnapshotPlan, DoBackendCheck, DoBackendToggle, DoMachine, DoPerf, DoConfig, DoAttach, DoFreeze, DoSplit, DoLink, DoRestoreApply, DoUndo;
    var r := Apply(c, counters, a);
    match a.kind {
      case ActionSplit =>
        SplitTidy(c, counters, a, known);
        TidyGrows(r.cat, known + iset{IdOf("sf", Issued(counters, "sf") + 1)}, known + Drawn(counters, r.counters));
      case ActionAttach | ActionLink | ActionFreeze => LinksTidy(c, counters, a, known);
      case ActionSnapshotCreate => CreateTidy(c, counters, a, known);
      case ActionSnapshotTag => SnapshotTidy(c, counters, a, known);
      case ActionSnapshotDelete => DeleteTidy(c, counters, a, known);
      case ActionSnapshotPlan => PlanMadeTidy(c, counters, a, known);
      case ActionRestoreApply => RestoreTidy(c, counters, a, known);
      case ActionReconcileUndo => UndoneTidy(c, counters, a, known);
      case _ =>
        ViewsUntouched(c, counters, a);
        TerminalsUntouched(c, counters, a);
        AgentUntouched(c, counters, a);
        SystemUntouched(c, counters, a);
        UntouchedTidy(c, r, known);
    }
  }

  lemma DrawnAhead(counters: Counters, next: Counters, known: iset<string>)
    requires Ahead(counters, known) && Grows(counters, next)
    ensures Ahead(next, known + Drawn(counters, next))
  {
    hide IdOf, Issued;
    assert Issued(next, "sf") >= Issued(counters, "sf");
    forall n: nat | n > Issued(next, "sf") ensures IdOf("sf", n) !in known + Drawn(counters, next) {
      if IdOf("sf", n) in Drawn(counters, next) {
        var m: nat :| Issued(counters, "sf") < m <= Issued(next, "sf") && IdOf("sf", m) == IdOf("sf", n);
        IdOfInjective("sf", m, n);
      }
    }
  }

  /** One call, accepted or not: the states stay free of twins, and every surface was known or drawn by this call. */
  lemma StepTidy(s: State, call: Call, known: iset<string>)
    requires s.cat.Some? && Tidy(s.cat.value, known) && Ahead(s.counters, known)
    ensures var t := Step(s, call).0;
            t.cat.Some? && Tidy(t.cat.value, known + Drawn(s.counters, t.counters)) && Ahead(t.counters, known + Drawn(s.counters, t.counters))
  {
    hide Tidy, Ahead, Apply, DoTick, ValidCatalog, Drawn, Grows;
    var c, t := s.cat.value, Step(s, call).0;
    var more := known + Drawn(s.counters, t.counters);
    StepGrows(s, call);
    DrawnAhead(s.counters, t.counters, known);
    TidyGrows(c, known, more);
    match call {
      case TickAt(_) =>
        TickClock(c, s.counters, s.ticks + 1);
        if Step(s, call).1.Done? { SameStates(c, t.cat.value, more); }
      case Do(a) =>
        if Step(s, call).1.Done? {
          var r := Apply(c, s.counters, a);
          ActionTidy(c, s.counters, a, known);
          if a.kind != ActionSplit { TidyGrows(r.cat, known, more); }
          SameStates(r.cat, t.cat.value, more);
        }
    }
  }

  lemma SameStates(c: Catalog, d: Catalog, known: iset<string>)
    requires Tidy(c, known) && d.workspaces == c.workspaces && d.snapshots == c.snapshots && d.restorePlans == c.restorePlans
    ensures Tidy(d, known)
  {
  }

  lemma DrawnTogether(a: Counters, b: Counters, c: Counters)
    requires Grows(a, b) && Grows(b, c)
    ensures Drawn(a, b) + Drawn(b, c) == Drawn(a, c)
  {
    hide IdOf, Issued;
    assert Issued(a, "sf") <= Issued(b, "sf") <= Issued(c, "sf");
    forall x | x in Drawn(a, c) ensures x in Drawn(a, b) + Drawn(b, c) {
      var n: nat :| Issued(a, "sf") < n <= Issued(c, "sf") && x == IdOf("sf", n);
    }
  }

  lemma {:induction false} RunGrows(s: State, calls: seq<Call>)
    ensures Grows(s.counters, Run(s, calls).0.counters)
    decreases |calls|
  {
    hide Step, Issued;
    if calls != [] {
      StepGrows(s, calls[0]);
      RunGrows(Step(s, calls[0]).0, calls[1..]);
    }
  }

  /**
   * Over any run every state of a workspace or snapshot keeps its ids unique, every surface in it, and every
   * surface an operation can make, was known at the start or drawn in the run, and none still to come is there.
   */
  lemma {:induction false} RunTidy(s: State, calls: seq<Call>, known: iset<string>)
    requires s.cat.Some? && Tidy(s.cat.value, known) && Ahead(s.counters, known)
    ensures var t := Run(s, calls).0;
            t.cat.Some? && Tidy(t.cat.value, known + Drawn(s.counters, t.counters)) && Ahead(t.counters, known + Drawn(s.counters, t.counters))
    decreases |calls|
  {
    hide Step, Tidy, Ahead, Drawn, Grows;
    if calls == [] {
      NoneDrawn(s.counters);
      assert known + Drawn(s.counters, s.counters) == known;
    } else {
      var u := Step(s, calls[0]).0;
      var t := Run(u, calls[1..]).0;
      StepTidy(s, calls[0], known);
      RunTidy(u, calls[1..], known + Drawn(s.counters, u.counters));
      StepGrows(s, calls[0]);
      RunGrows(u, calls[1..]);
      DrawnTogether(s.counters, u.counters, t.counters);
      assert known + Drawn(s.counters, u.counters) + Drawn(u.counters, t.counters) == known + Drawn(s.counters, t.counters);
    }
  }

  lemma NoneDrawn(counters: Counters)
    ensures Drawn(counters, counters) == iset{}
  {
  }

  // ---- loading a fixture ---------------------------------------------------------------------------

  predicate Makes(ops: seq<RestoreOp>, x: string) {
    exists i :: 0 <= i < |ops| && OnSurface(ops[i]) && Part(ops[i]) == x
  }

  predicate OnSide(w: Workspace, x: string) { HasSurface(w.desired, x) || HasSurface(w.observed, x) }

  predicate Shown(c: Catalog, x: string) {
    exists k :: 0 <= k < |c.workspaces| && OnSide(c.workspaces[k], x)
  }

  predicate Snapped(c: Catalog, x: string) {
    exists i :: 0 <= i < |c.snapshots| && HasSurface(c.snapshots[i].state, x)
  }

  predicate Makeable(p: RestorePlan, x: string) { Makes(p.ops, x) || Makes(p.undoOps, x) }

  predicate Planned(c: Catalog, x: string) {
    exists j :: 0 <= j < |c.restorePlans| && Makeable(c.restorePlans[j], x)
  }

  /** The surfaces a catalog holds in any state, and those its operations can make. */
  ghost function Held(c: Catalog): iset<string> {
    iset x | Shown(c, x) || Snapped(c, x) || Planned(c, x)
  }

  /** No state of a workspace or snapshot has an id twice. */
  ghost predicate NoTwins(c: Catalog) {
    && (forall k :: 0 <= k < |c.workspaces| ==> Unique(c.workspaces[k].desired) && Unique(c.workspaces[k].observed))
    && (forall i :: 0 <= i < |c.snapshots| ==> Unique(c.snapshots[i].state))
  }

  lemma StateTidyIs(ws: WorkspaceState, known: iset<string>)
    ensures StateTidy(ws, known) <==> Unique(ws) && forall x :: HasSurface(ws, x) ==> x in known
  {
    hide Unique;
    if StateTidy(ws, known) {
      forall x | HasSurface(ws, x) ensures x in known { StateKnown(ws, known, x); }
    }
    if forall x :: HasSurface(ws, x) ==> x in known {
      forall i, k | 0 <= i < |ws| && 0 <= k < |ws[i].surfaces| ensures ws[i].surfaces[k].id in known {
        assert HoldsSurface(ws[i], ws[i].surfaces[k].id);
        assert HasSurface(ws, ws[i].surfaces[k].id);
      }
    }
  }

  lemma OpsTidyIs(ops: seq<RestoreOp>, known: iset<string>)
    ensures OpsTidy(ops, known) <==> forall x :: Makes(ops, x) ==> x in known
  {
    hide OnSurface, Part;
    if forall x :: Makes(ops, x) ==> x in known {
      forall i | 0 <= i < |ops| && OnSurface(ops[i]) ensures Part(ops[i]) in known { assert Makes(ops, Part(ops[i])); }
    }
  }

  lemma TidyIs(c: Catalog, known: iset<string>)
    ensures Tidy(c, known) <==> NoTwins(c) && Held(c) <= known
  {
    hide Unique, StateTidy, OpsTidy, HasSurface, Makes;
    forall ws ensures StateTidy(ws, known) <==> Unique(ws) && forall x :: HasSurface(ws, x) ==> x in known { StateTidyIs(ws, known); }
    forall ops ensures OpsTidy(ops, known) <==> forall x :: Makes(ops, x) ==> x in known { OpsTidyIs(ops, known); }
    if Held(c) <= known {
      forall k, x | 0 <= k < |c.workspaces| && OnSide(c.workspaces[k], x) ensures x in known { assert x in Held(c); }
      forall i, x | 0 <= i < |c.snapshots| && HasSurface(c.snapshots[i].state, x) ensures x in known { assert Snapped(c, x) && x in Held(c); }
      forall j, x | 0 <= j < |c.restorePlans| && Makeable(c.restorePlans[j], x) ensures x in known { assert x in Held(c); }
    }
  }

  /** Of the ids priming reads, one carries at least this number. */
  ghost predicate Reached(ids: seq<string>, n: nat) {
    exists i, m: nat :: 0 <= i < |ids| && m >= n && Carries(ids[i], "sf", m)
  }

  /** Every generated surface id in a snapshot or plan is outnumbered by an id that priming reads. */
  ghost predicate Outnumbered(c: Catalog) {
    forall n: nat :: n > 0 && (Snapped(c, IdOf("sf", n)) || Planned(c, IdOf("sf", n))) ==> Reached(NumberedIds(c), n)
  }

  lemma {:induction false} StateNumbered(ws: WorkspaceState, x: string)
    requires HasSurface(ws, x)
    ensures x in StateIds(ws)
  {
    hide HolderIndex;
    HasTail(ws, x);
    if HoldsSurface(ws[0], x) {
      assert SurfaceIds(ws[0].surfaces)[SurfaceIndex(ws[0].surfaces, x)] == x;
    } else {
      StateNumbered(ws[1..], x);
    }
  }

  lemma {:induction false} ShownNumbered(ws: seq<Workspace>, k: nat, x: string)
    requires k < |ws| && OnSide(ws[k], x)
    ensures x in TopologyIds(ws)
  {
    hide HasSurface;
    if k == 0 {
      if HasSurface(ws[0].desired, x) { StateNumbered(ws[0].desired, x); } else { StateNumbered(ws[0].observed, x); }
    } else {
      ShownNumbered(ws[1..], k - 1, x);
    }
  }

  /**
   * Priming does not read snapshots and plans. A loaded fixture is ahead of every surface exactly if what
   * they hold is outnumbered by what it reads.
   */
  lemma PrimedSurfaces(c: Catalog)
    ensures Ahead(Primed(map[], NumberedIds(c)), Held(c)) <==> Outnumbered(c)
  {
    hide Primed, IdOf, Issued, Carries, NumberedIds, Snapped, Planned;
    var ids, counters := NumberedIds(c), Primed(map[], NumberedIds(c));
    var top := Issued(counters, "sf");
    PrimedGreatest(ids, "sf");
    if Ahead(counters, Held(c)) {
      forall n: nat | n > 0 && (Snapped(c, IdOf("sf", n)) || Planned(c, IdOf("sf", n))) ensures Reached(ids, n) {
        assert IdOf("sf", n) in Held(c);
        assert n <= top;
        var i :| 0 <= i < |ids| && Carries(ids[i], "sf", top);
      }
    }
    if Outnumbered(c) {
      forall n: nat | n > top ensures IdOf("sf", n) !in Held(c) {
        if Shown(c, IdOf("sf", n)) {
          PrimedReaches(map[], ids, "sf", n);
          ShownIsNumbered(c, IdOf("sf", n));
          assert false;
        }
        if Snapped(c, IdOf("sf", n)) || Planned(c, IdOf("sf", n)) {
          assert false;
        }
      }
    }
  }

  lemma ShownIsNumbered(c: Catalog, x: string)
    requires Shown(c, x)
    ensures x in NumberedIds(c)
  {
    hide OnSide;
    var k :| 0 <= k < |c.workspaces| && OnSide(c.workspaces[k], x);
    ShownNumbered(c.workspaces, k, x);
  }

  /**
   * From such a fixture without twins no run ever makes any: every surface held is one of the fixture's or was
   * drawn by a split of the run, and the next one to be drawn is held nowhere.
   */
  lemma LoadedTidy(c: Catalog, calls: seq<Call>)
    requires NoTwins(c) && Outnumbered(c)
    ensures var s := State(Some(c), Primed(map[], NumberedIds(c)), 0);
            var t := Run(s, calls).0;
            && t.cat.Some? && NoTwins(t.cat.value)
            && Held(t.cat.value) <= Held(c) + Drawn(s.counters, t.counters)
            && NextId(t.counters, "sf").0 !in Held(t.cat.value)
  {
    hide Held, NoTwins, Outnumbered, Primed, NumberedIds, Run, Tidy, Drawn, IdOf;
    var s := State(Some(c), Primed(map[], NumberedIds(c)), 0);
    var t := Run(s, calls).0;
    PrimedSurfaces(c);
    TidyIs(c, Held(c));
    RunTidy(s, calls, Held(c));
    TidyIs(t.cat.value, Held(c) + Drawn(s.counters, t.counters));
  }
}
