/**
 * Reconcile-undo over runs: what it restores, when it is available, and when the gate turns it
 * away. (tmh-next/internal/mock/backend.go)
 */
module UndoRuns {
  import opened Text
  import opened Topology
  import opened Domain
  import opened Reconcile
  import opened Undo
  import opened Converge
  import opened Plan
  import opened Validation
  import opened Transitions
  import opened Gate
  import opened GateSafe
  import opened GateExact
  import opened GateRestore
  import opened Backend
  import opened Runs
  import I = Intact

  // ---- undo records -------------------------------------------------------------------------

  /** The records an application leaves undo exactly as the operations themselves would. */
  lemma {:induction false} RecordsUndo(ws: WorkspaceState, ops: seq<RestoreOp>, records: seq<RestoreOp>)
    requires |ops| == |records| && forall i :: 0 <= i < |ops| ==> records[i] == UndoRecord(ops[i])
    ensures UndoOps(ws, records) == UndoOps(ws, ops)
    decreases |ops|
  {
    hide RemoveField, SetField;
    if ops != [] {
      RecordsUndo(ws, ops[1..], records[1..]);
      forall state ensures UndoOne(state, records[0]) == UndoOne(state, ops[0]) { }
    }
  }

  predicate OneMode(ops: seq<RestoreOp>, mode: RestoreMode) {
    forall i :: 0 <= i < |ops| ==> ops[i].mode == mode
  }

  /** Undoing push or pull records touches one side of the workspace and no snapshot. */
  lemma {:induction false} UndoAllSide(ss: seq<Snapshot>, w: Workspace, ops: seq<RestoreOp>, mode: RestoreMode)
    requires mode != RestoreFreeze && OneMode(ops, mode)
    ensures UndoAll(ss, w, ops) == match UndoOps(Side(w, mode), ops)
                                   case Refused => None
                                   case Edited(state) => Some((ss, WithSide(w, mode, state)))
    decreases |ops|
  {
    hide UndoOne;
    if ops != [] { UndoAllSide(ss, w, ops[1..], mode); }
  }

  lemma {:induction false} ChosenMode(ops: seq<RestoreOp>, mode: RestoreMode, selection: seq<string>)
    ensures OneMode(ChosenOps(ops, mode, selection), mode)
  {
    if ops != [] { ChosenMode(ops[1..], mode, selection); }
  }

  lemma {:induction false} ChosenAppend(a: seq<RestoreOp>, b: seq<RestoreOp>, mode: RestoreMode, selection: seq<string>)
    ensures ChosenOps(a + b, mode, selection) == ChosenOps(a, mode, selection) + ChosenOps(b, mode, selection)
  {
    hide Chosen;
    if a == [] {
      assert a + b == b;
    } else {
      assert (a + b)[1..] == a[1..] + b;
      ChosenAppend(a[1..], b, mode, selection);
    }
  }

  lemma {:induction false} ChosenOther(ops: seq<RestoreOp>, other: RestoreMode, mode: RestoreMode, selection: seq<string>)
    requires OneMode(ops, other) && other != mode
    ensures ChosenOps(ops, mode, selection) == []
  {
    if ops != [] { ChosenOther(ops[1..], other, mode, selection); }
  }

  lemma {:induction false} ChosenWithin(ops: seq<RestoreOp>, mode: RestoreMode, selection: seq<string>)
    requires SortedByField(ops)
    ensures SortedByField(ChosenOps(ops, mode, selection))
    ensures forall op :: op in ChosenOps(ops, mode, selection) ==> op in ops
  {
    hide Less, Chosen;
    if ops != [] {
      var t, r := ops[1..], ChosenOps(ops[1..], mode, selection);
      assert forall i :: 0 <= i < |t| ==> t[i] == ops[i + 1];
      ChosenWithin(t, mode, selection);
      forall i | 0 <= i < |r| ensures Less(ops[0].field, r[i].field) {
        assert r[i] in t;
        var m :| 0 <= m < |t| && t[m] == r[i];
        assert t[m] == ops[m + 1];
      }
    }
  }

  lemma {:induction false} ChosenAll(ops: seq<RestoreOp>, mode: RestoreMode)
    requires OneMode(ops, mode) && forall i :: 0 <= i < |ops| ==> ops[i].included
    ensures ChosenOps(ops, mode, []) == ops
  {
    if ops != [] { ChosenAll(ops[1..], mode); }
  }

  /** What a selection picks from a freshly built plan: a selection of that mode's diff, all of it if nothing is deselected. */
  lemma ChosenFromPlan(w: Workspace, target: WorkspaceState, mode: RestoreMode, selection: seq<string>)
    requires mode == RestorePush || mode == RestorePull
    ensures var push := PushOps(w.observed, target, w.id);
            var all := if mode == RestorePush then push else PullOps(w.desired, w.observed, w.id, |push|);
            var ops := ChosenOps(BuildOps(w, target), mode, selection);
            && ops == ChosenOps(all, mode, selection)
            && Selection(ops, if mode == RestorePush then DiffStates(w.observed, target) else DiffStates(w.desired, w.observed))
            && (selection == [] ==> ops == all)
  {
    hide Less, DiffStates, OpLess, BuildOps, FreezeOp, Chosen, ChosenOps, Drawn, Number;
    var push := PushOps(w.observed, target, w.id);
    var pull := PullOps(w.desired, w.observed, w.id, |push|);
    var all := if mode == RestorePush then push else pull;
    var ds := if mode == RestorePush then DiffStates(w.observed, target) else DiffStates(w.desired, w.observed);
    var freeze := FreezeOp(w.observed, w.id, |push| + |pull|);
    BuildOpsSections(w, target);
    FreezeMode(w.observed, w.id, |push| + |pull|);
    NumberIncluded(DiffStates(w.observed, target), RestorePush, Ref(KindWorkspace, w.id), 0);
    NumberIncluded(DiffStates(w.desired, w.observed), RestorePull, Ref(KindWorkspace, w.id), |push|);
    ChosenAppend([freeze], pull + push, mode, selection);
    ChosenAppend(pull, push, mode, selection);
    ChosenOther([freeze], RestoreFreeze, mode, selection);
    ChosenOther(if mode == RestorePush then pull else push, if mode == RestorePush then RestorePull else RestorePush, mode, selection);
    ChosenWithin(all, mode, selection);
    if selection == [] { ChosenAll(all, mode); }
    if mode == RestorePush {
      NumberDrawn(ChosenOps(all, mode, selection), ds, mode, Ref(KindWorkspace, w.id), 0);
    } else {
      NumberDrawn(ChosenOps(all, mode, selection), ds, mode, Ref(KindWorkspace, w.id), |push|);
    }
  }

  lemma NumberIncluded(ds: seq<FieldDiff>, mode: RestoreMode, target: ResourceRef, n: nat)
    ensures var ops := Number(ds, mode, target, n); OneMode(ops, mode) && forall i :: 0 <= i < |ops| ==> ops[i].included
  {
    hide OpId;
  }

  lemma NumberDrawn(ops: seq<RestoreOp>, ds: seq<FieldDiff>, mode: RestoreMode, target: ResourceRef, n: nat)
    requires forall op :: op in ops ==> op in Number(ds, mode, target, n)
    ensures forall j :: 0 <= j < |ops| ==> Drawn(ops[j], ds)
  {
    hide OpId;
    var all := Number(ds, mode, target, n);
    forall j | 0 <= j < |ops| ensures Drawn(ops[j], ds) {
      assert ops[j] in all;
      var k :| 0 <= k < |all| && all[k] == ops[j];
      assert FromDiff(ops[j], ds[k]);
    }
  }

  /** So whatever is selected from a plan that was just built still matches the side it is applied to. */
  lemma FreshPlanCurrent(w: Workspace, target: WorkspaceState, mode: RestoreMode, selection: seq<string>)
    requires mode == RestorePush || mode == RestorePull
    requires Unique(w.desired) && Unique(w.observed) && Unique(target) && Plain(w.desired) && Plain(w.observed) && Plain(target)
    ensures Current(ChosenOps(BuildOps(w, target), mode, selection), Fields(Side(w, mode)))
  {
    hide Fields, Unique, Plain, DiffStates, BuildOps, ChosenOps, Selection, Current;
    ChosenFromPlan(w, target, mode, selection);
    var ops := ChosenOps(BuildOps(w, target), mode, selection);
    if mode == RestorePush { FreshIsCurrent(w.observed, target, ops); } else { FreshIsCurrent(w.desired, w.observed, ops); }
  }

  // ---- the latest applied plan ----------------------------------------------------------------

  predicate AppliedAt(ps: seq<RestorePlan>, i: int) {
    0 <= i < |ps| && ps[i].status == PlanApplied
  }

  /** The latest applied plan is the one with the greatest id. */
  lemma {:induction false} LatestSpec(ps: seq<RestorePlan>)
    ensures LatestApplied(ps) < 0 ==> forall i :: !AppliedAt(ps, i)
    ensures LatestApplied(ps) >= 0 ==>
              AppliedAt(ps, LatestApplied(ps)) && forall i :: AppliedAt(ps, i) ==> !Less(ps[LatestApplied(ps)].id, ps[i].id)
  {
    hide Less;
    if ps != [] {
      var n := |ps| - 1;
      var t := ps[..n];
      LatestSpec(t);
      var j, k := LatestApplied(t), LatestApplied(ps);
      forall i | AppliedAt(ps, i) ensures k >= 0 && !Less(ps[k].id, ps[i].id) {
        LessIrreflexive(ps[i].id);
        if i < n {
          assert AppliedAt(t, i) && t[i] == ps[i];
          if k == n && j >= 0 && Less(ps[n].id, ps[i].id) {
            LessTransitive(ps[j].id, ps[n].id, ps[i].id);
            assert false;
          }
        }
      }
    }
  }

  /** An applied plan is the one undo looks at exactly if every other applied plan has a smaller id. */
  lemma LatestIs(ps: seq<RestorePlan>, j: nat)
    requires IdsOk(PlanIds(ps)) && AppliedAt(ps, j)
    ensures LatestApplied(ps) == j <==> forall i :: AppliedAt(ps, i) && i != j ==> Less(ps[i].id, ps[j].id)
  {
    hide Less;
    LatestSpec(ps);
    var k := LatestApplied(ps);
    var ids := PlanIds(ps);
    forall i | AppliedAt(ps, i) && i != j && k == j ensures Less(ps[i].id, ps[j].id) {
      assert ids[i] != ids[j];
      LessTotal(ps[i].id, ps[j].id);
    }
  }

  // ---- right after an application --------------------------------------------------------------------

  function Ticks(s: State, revisions: seq<nat>): State
    decreases |revisions|
  {
    if revisions == [] then s else Ticks(TickStep(s, revisions[0]).0, revisions[1..])
  }

  /** Ticks, accepted or not, leave workspaces, snapshots, plans and the serial alone. */
  lemma {:induction false} TicksKeep(s: State, revisions: seq<nat>)
    requires SoundState(s)
    ensures var t := Ticks(s, revisions);
            && SoundState(t) && t.cat.value.workspaces == s.cat.value.workspaces && t.cat.value.snapshots == s.cat.value.snapshots
            && t.cat.value.restorePlans == s.cat.value.restorePlans && t.cat.value.mutationSerial == s.cat.value.mutationSerial
    decreases |revisions|
  {
    hide Sound, DoTick, ValidCatalog;
    if revisions != [] {
      StepSound(s, TickAt(revisions[0]));
      TickClock(s.cat.value, s.counters, s.ticks + 1);
      TicksKeep(TickStep(s, revisions[0]).0, revisions[1..]);
    }
  }

  /** Applying push or pull operations of plan `j` to workspace `k`, and what they make of its side. */
  ghost predicate Applying(c: Catalog, a: Action, j: nat, k: nat, mode: RestoreMode, ops: seq<RestoreOp>) {
    && a.kind == ActionRestoreApply && a.value in {"push", "pull"} && mode == ModeOf(a.value)
    && j < |c.restorePlans| && j == IndexOf(PlanIds(c.restorePlans), a.target.id)
    && k < |c.workspaces| && k == IndexOf(WorkspaceIds(c.workspaces), c.restorePlans[j].workspaceID)
    && ops == ChosenOps(c.restorePlans[j].ops, mode, a.selection)
  }

  lemma AppliedState(s: State, a: Action, j: nat, k: nat, mode: RestoreMode, ops: seq<RestoreOp>)
    requires SoundState(s) && Applying(s.cat.value, a, j, k, mode, ops) && Exec(s, a).1.Done?
    ensures var c, d := s.cat.value, Exec(s, a).0.cat.value;
            && c.restorePlans[j].status == PlanPending
            && ApplyOps(Side(c.workspaces[k], mode), ops).Edited?
            && d.mutationSerial == c.mutationSerial + 1 && d.snapshots == c.snapshots && d.terminals == c.terminals
            && d.workspaces == c.workspaces[k := ReconcileStatus(WithSide(c.workspaces[k], mode, ApplyOps(Side(c.workspaces[k], mode), ops).state))]
            && |d.restorePlans| == |c.restorePlans|
            && (forall i :: 0 <= i < |c.restorePlans| && i != j ==> d.restorePlans[i] == c.restorePlans[i])
            && var p := d.restorePlans[j];
               p.id == c.restorePlans[j].id && p.workspaceID == c.restorePlans[j].workspaceID && p.status == PlanApplied
               && p.appliedSerial == d.mutationSerial && p.undoOps == UndoRecords(ops)
  {
    hide IndexOf, ChosenOps, ApplyOps, UndoRecords, MarkOps, ReconcileStatus, ValidCatalog, Dominates, NextId, FreezeAll;
  }

  /**
   * Accepting every push (or pull) operation of a plan that was just built leaves the edited side with the
   * fields of the snapshot (or of the observed state), exactly if the operations clear the windows they remove.
   */
  lemma PlanConverges(s: State, a: Action, j: nat, k: nat, mode: RestoreMode, ops: seq<RestoreOp>, target: WorkspaceState, d: Catalog)
    requires SoundState(s) && Applying(s.cat.value, a, j, k, mode, ops) && a.selection == [] && Exec(s, a).1.Done?
    requires Exec(s, a).0.cat == Some(d)
    requires s.cat.value.restorePlans[j].ops == BuildOps(s.cat.value.workspaces[k], target)
    requires var w := s.cat.value.workspaces[k];
             var goal := if mode == RestorePush then target else w.observed;
             Unique(Side(w, mode)) && Unique(goal) && Plain(Side(w, mode)) && Plain(goal) && Side(w, mode) != []
    ensures var w := s.cat.value.workspaces[k];
            var goal := if mode == RestorePush then target else w.observed;
            && k < |d.workspaces|
            && (Fields(Side(d.workspaces[k], mode)) == Fields(goal) <==> Clears(Side(w, mode), ops))
  {
    hide IndexOf, ChosenOps, ApplyOps, UndoRecords, ReconcileStatus, ValidCatalog, Dominates, Apply, Exec, Sound, Fields, Clears, Unique, Plan.Plain, BuildOps, DiffStates, Number;
    var w := s.cat.value.workspaces[k];
    AppliedState(s, a, j, k, mode, ops);
    ChosenFromPlan(w, target, mode, []);
    if mode == RestorePush {
      FreshPushConverges(w.observed, target, w.id);
    } else {
      FreshPullConverges(w.desired, w.observed, w.id, |PushOps(w.observed, target, w.id)|);
    }
    ReconcileKeepsSides(WithSide(w, mode, ApplyOps(Side(w, mode), ops).state));
  }

  /** The state undo starts from: the plan applied last, still carrying the current serial. */
  ghost predicate JustApplied(c: Catalog, j: nat, k: nat, mode: RestoreMode, ops: seq<RestoreOp>, w: Workspace) {
    && j < |c.restorePlans| && k < |c.workspaces|
    && var p := c.restorePlans[j];
    && p.status == PlanApplied && p.appliedSerial == c.mutationSerial && p.undoOps == UndoRecords(ops)
    && k == IndexOf(WorkspaceIds(c.workspaces), p.workspaceID)
    && ApplyOps(Side(w, mode), ops).Edited?
    && c.workspaces[k] == ReconcileStatus(WithSide(w, mode, ApplyOps(Side(w, mode), ops).state))
    && forall i :: AppliedAt(c.restorePlans, i) && i != j ==> c.restorePlans[i].appliedSerial < c.mutationSerial
  }

  lemma ReachesUndo(s: State, last: Option<Action>, a: Action, j: nat, k: nat, mode: RestoreMode, ops: seq<RestoreOp>, revisions: seq<nat>)
    requires SoundState(s) && Claims(s, last) && Applying(s.cat.value, a, j, k, mode, ops) && Exec(s, a).1.Done?
    ensures var c, d := s.cat.value, Ticks(Exec(s, a).0, revisions);
            && SoundState(d) && JustApplied(d.cat.value, j, k, mode, ops, c.workspaces[k])
            && |d.cat.value.restorePlans| == |c.restorePlans|
            && d.cat.value.restorePlans[j].id == c.restorePlans[j].id
            && (forall i :: 0 <= i < |c.restorePlans| && i != j ==> d.cat.value.restorePlans[i] == c.restorePlans[i])
            && d.cat.value.workspaces == c.workspaces[k := d.cat.value.workspaces[k]]
            && d.cat.value.terminals == Exec(s, a).0.cat.value.terminals == c.terminals
  {
    hide IndexOf, ChosenOps, ApplyOps, UndoRecords, ReconcileStatus, ValidCatalog, Dominates, Apply, Exec, Sound;
    AppliedState(s, a, j, k, mode, ops);
    StepSound(s, Do(a));
    var s1 := Exec(s, a).0;
    TicksKeep(s1, revisions);
    TicksTerminals(s1, revisions);
    var c, d := s.cat.value, s1.cat.value;
    SwapIds(c.workspaces, k, d.workspaces[k]);
    ReconciledId(WithSide(c.workspaces[k], mode, ApplyOps(Side(c.workspaces[k], mode), ops).state));
    forall i | AppliedAt(d.restorePlans, i) && i != j ensures d.restorePlans[i].appliedSerial < d.mutationSerial {
      assert d.restorePlans[i] == c.restorePlans[i] && c.restorePlans[i] in c.restorePlans;
    }
  }

  lemma {:induction false} TicksTerminals(s: State, revisions: seq<nat>)
    requires SoundState(s)
    ensures Ticks(s, revisions).cat.Some? && Ticks(s, revisions).cat.value.terminals == s.cat.value.terminals
    decreases |revisions|
  {
    hide Sound, ValidCatalog;
    if revisions != [] {
      hide TickAgent, Beat, Sample, Tail;
      StepSound(s, TickAt(revisions[0]));
      AgentTerminals(s.cat.value, s.counters, s.ticks + 1);
      TicksTerminals(TickStep(s, revisions[0]).0, revisions[1..]);
    }
  }

  lemma AgentTerminals(c: Catalog, counters: Counters, n: nat)
    ensures DoTick(c, counters, n).Accepted? && DoTick(c, counters, n).cat.terminals == c.terminals
  {
    hide Beat, Sample, Tail, FirstRunning, NextId;
  }

  /** The side of a workspace after the operations were applied and undone again. */
  function UndoneSide(w: Workspace, mode: RestoreMode, ops: seq<RestoreOp>): WorkspaceState
    requires ApplyOps(Side(w, mode), ops).Edited? && UndoOps(ApplyOps(Side(w, mode), ops).state, ops).Edited?
  {
    UndoOps(ApplyOps(Side(w, mode), ops).state, ops).state
  }

  lemma ReconcileKeepsSides(w: Workspace)
    ensures ReconcileStatus(w).desired == w.desired && ReconcileStatus(w).observed == w.observed
    ensures ReconcileStatus(w).selectedSurfaceID == w.selectedSurfaceID && ReconcileStatus(w).id == w.id
  {
  }

  lemma UndoFromApplied(c: Catalog, k: nat, mode: RestoreMode, ops: seq<RestoreOp>, w: Workspace)
    requires mode != RestoreFreeze && OneMode(ops, mode) && k < |c.workspaces|
    requires ApplyOps(Side(w, mode), ops).Edited? && UndoOps(ApplyOps(Side(w, mode), ops).state, ops).Edited?
    requires c.workspaces[k] == ReconcileStatus(WithSide(w, mode, ApplyOps(Side(w, mode), ops).state))
    ensures UndoAll(c.snapshots, c.workspaces[k], UndoRecords(ops)) == Some((c.snapshots, WithSide(c.workspaces[k], mode, UndoneSide(w, mode, ops))))
  {
    hide ApplyOps, UndoOps, UndoAll, ReconcileStatus;
    var state := ApplyOps(Side(w, mode), ops).state;
    ReconcileKeepsSides(WithSide(w, mode, state));
    RecordsUndo(state, ops, UndoRecords(ops));
    UndoAllSide(c.snapshots, c.workspaces[k], UndoRecords(ops), mode);
  }

  /**
   * Apply, any number of ticks, undo: when undo is accepted the edited side has its fields back if
   * and only if the selection is covered; the other side and the other workspaces are as before.
   */
  lemma UndoRestores(s: State, last: Option<Action>, a: Action, j: nat, k: nat, mode: RestoreMode, ops: seq<RestoreOp>, revisions: seq<nat>, u: Action)
    requires SoundState(s) && Claims(s, last) && Applying(s.cat.value, a, j, k, mode, ops) && Exec(s, a).1.Done?
    requires var side := Side(s.cat.value.workspaces[k], mode); Unique(side) && side != [] && Current(ops, Fields(side))
    requires u.kind == ActionReconcileUndo && Exec(Ticks(Exec(s, a).0, revisions), u).1.Done?
    ensures var before, after := s.cat.value.workspaces, Exec(Ticks(Exec(s, a).0, revisions), u).0.cat.value.workspaces;
            && |after| == |before|
            && (forall i :: 0 <= i < |before| && i != k ==> after[i] == before[i])
            && (Fields(Side(after[k], mode)) == Fields(Side(before[k], mode)) <==> Covered(Side(before[k], mode), ops))
            && Side(after[k], if mode == RestorePush then RestorePull else RestorePush)
               == Side(before[k], if mode == RestorePush then RestorePull else RestorePush)
  {
    hide IndexOf, ChosenOps, ApplyOps, UndoOps, UndoAll, UndoRecords, ReconcileStatus, ValidCatalog, Dominates, Apply, Exec, Sound, Ticks, Fields, Covered, Current, Unique, Claims;
    var w := s.cat.value.workspaces[k];
    ReachesUndo(s, last, a, j, k, mode, ops, revisions);
    var state := ApplyOps(Side(w, mode), ops).state;
    ChosenMode(s.cat.value.restorePlans[j].ops, mode, a.selection);
    UndoInvertsApply(Side(w, mode), ops);
    var t := Ticks(Exec(s, a).0, revisions);
    UndoFromApplied(t.cat.value, k, mode, ops, w);
    UndoneState(t, j, k, mode, ops, w, u);
    ReconcileKeepsSides(WithSide(w, mode, state));
    ReconcileKeepsSides(WithSide(t.cat.value.workspaces[k], mode, UndoneSide(w, mode, ops)));
  }

  lemma UndoneState(t: State, j: nat, k: nat, mode: RestoreMode, ops: seq<RestoreOp>, w: Workspace, u: Action)
    requires SoundState(t) && JustApplied(t.cat.value, j, k, mode, ops, w)
    requires UndoOps(ApplyOps(Side(w, mode), ops).state, ops).Edited?
    requires UndoAll(t.cat.value.snapshots, t.cat.value.workspaces[k], UndoRecords(ops)) == Some((t.cat.value.snapshots, WithSide(t.cat.value.workspaces[k], mode, UndoneSide(w, mode, ops))))
    requires u.kind == ActionReconcileUndo && Exec(t, u).1.Done?
    ensures Exec(t, u).0.cat.value.workspaces
            == t.cat.value.workspaces[k := ReconcileStatus(WithSide(t.cat.value.workspaces[k], mode, UndoneSide(w, mode, ops)))]
  {
    hide IndexOf, ApplyOps, UndoOps, UndoAll, UndoRecords, ReconcileStatus, ValidCatalog, Dominates, LatestApplied, NextId, UndoneSide;
    var i := LatestApplied(t.cat.value.restorePlans);
    assert i >= 0 && AppliedAt(t.cat.value.restorePlans, i);
    assert i == j;
  }

  /**
   * When undo is available: once the expected revision matches and the right plan is named, it is
   * accepted exactly if every other applied plan has a smaller id and the undone workspace settles.
   */
  lemma UndoAvailable(t: State, j: nat, k: nat, mode: RestoreMode, ops: seq<RestoreOp>, w: Workspace, u: Action)
    requires SoundState(t) && JustApplied(t.cat.value, j, k, mode, ops, w) && mode != RestoreFreeze && OneMode(ops, mode)
    requires UndoOps(ApplyOps(Side(w, mode), ops).state, ops).Edited?
    requires u.kind == ActionReconcileUndo && u.expectedRevision == t.cat.value.revision
    requires u.target.id == "" || u.target.id == t.cat.value.restorePlans[j].id
    ensures var ps := t.cat.value.restorePlans;
            Exec(t, u).1.Done? <==>
              && (forall i :: AppliedAt(ps, i) && i != j ==> Less(ps[i].id, ps[j].id))
              && Settled(t.cat.value.terminals, WithSide(t.cat.value.workspaces[k], mode, UndoneSide(w, mode, ops)))
  {
    hide IndexOf, ApplyOps, UndoOps, UndoAll, UndoRecords, ReconcileStatus, ValidCatalog, Dominates, LatestApplied, NextId, UndoneSide, Less, Settled, HomeGone;
    var c := t.cat.value;
    PlanIdsOk(c);
    LatestIs(c.restorePlans, j);
    UndoFromApplied(c, k, mode, ops, w);
    LatestSpec(c.restorePlans);
    if LatestApplied(c.restorePlans) == j {
      UndoExact(c, t.counters, u, k);
      RecordsDropNothing(ops, mode);
      NothingGone(c.restorePlans, ops, mode);
      var o := DoUndo(c, t.counters, u);
      SerialIrrelevant(o.cat, o.counters, o.cat.mutationSerial + 1);
    }
  }

  lemma PlanIdsOk(c: Catalog)
    requires ValidCatalog(c)
    ensures IdsOk(PlanIds(c.restorePlans))
  {
    hide IdsOk, BackendsOk, WorkspacesOk, SnapshotsOk, TerminalsOk, AgentsOk, HistoryOk, EventsOk, PlansOk, MachinesOk, ConfigOk, ViewsOk;
  }

  lemma RecordsDropNothing(ops: seq<RestoreOp>, mode: RestoreMode)
    requires OneMode(ops, mode) && mode != RestoreFreeze
    ensures forall id :: !Drops(UndoRecords(ops), id)
  {
  }

  lemma NothingGone(ps: seq<RestorePlan>, ops: seq<RestoreOp>, mode: RestoreMode)
    requires forall id :: !Drops(UndoRecords(ops), id)
    ensures !HomeGone(ps, UndoRecords(ops))
  {
    hide Drops;
  }

  // ---- when the gate turns undo away ------------------------------------------------------------------

  /**
   * Where the two sides agreed before a covered push, getting the fields back is not enough: the undone
   * workspace settles only if the observed state is the old one in every detail, that is if the push was intact.
   */
  lemma UndriftedUndo(w: Workspace, ops: seq<RestoreOp>, ts: seq<Terminal>)
    requires w.desired == w.observed && w.desired != [] && Unique(w.observed) && Current(ops, Fields(w.observed))
    requires Covered(w.observed, ops)
    requires ApplyOps(w.observed, ops).Edited? && UndoOps(ApplyOps(w.observed, ops).state, ops).Edited?
    ensures var undone := UndoneSide(w, RestorePush, ops);
            && (Settled(ts, w.(observed := undone)) <==> undone == w.observed && Settled(ts, w))
            && (undone == w.observed <==> I.Intact(w.observed, ops))
  {
    hide Fields, Unique, Current, Covered, ApplyOps, UndoOps, HasSurface, SurfacesKnown, I.Intact;
    UndoInvertsApply(w.observed, ops);
    I.UndoExactly(w.observed, ops);
    var undone := UndoneSide(w, RestorePush, ops);
    assert undone == w.observed ==> w.(observed := undone) == w;
  }

  lemma SameHoldings(a: WorkspaceState, b: WorkspaceState)
    requires Fields(a) == Fields(b)
    ensures forall x :: HasSurface(a, x) <==> HasSurface(b, x)
  {
    hide Fields, HasSurface, SKey, WKey;
    forall x ensures HasSurface(a, x) <==> HasSurface(b, x) {
      FieldsHas(a, x);
      FieldsHas(b, x);
    }
  }

  lemma SettledSame(ts: seq<Terminal>, v: Workspace, w: Workspace)
    requires v.id == w.id && v.desired == w.desired && v.observed == w.observed && v.selectedSurfaceID == w.selectedSurfaceID
    ensures Settled(ts, v) <==> Settled(ts, w)
  {
    hide Fields, HasSurface;
  }

  /** A settled workspace settles again after a covered undo exactly if it had drifted or the selection is intact. */
  lemma UndoSettles(w: Workspace, mode: RestoreMode, ops: seq<RestoreOp>, ts: seq<Terminal>)
    requires mode == RestorePush || mode == RestorePull
    requires var side := Side(w, mode); Unique(side) && side != [] && Current(ops, Fields(side)) && Covered(side, ops)
    requires Settled(ts, w)
    ensures ApplyOps(Side(w, mode), ops).Edited? && UndoOps(ApplyOps(Side(w, mode), ops).state, ops).Edited?
    ensures Settled(ts, WithSide(w, mode, UndoneSide(w, mode, ops))) <==> w.desired != w.observed || I.Intact(Side(w, mode), ops)
  {
    hide Fields, Unique, Current, Covered, ApplyOps, UndoOps, HasSurface, I.Intact;
    var side := Side(w, mode);
    UndoInvertsApply(side, ops);
    I.UndoExactly(side, ops);
    var undone := UndoneSide(w, mode, ops);
    SameHoldings(undone, side);
    var v := WithSide(w, mode, undone);
    assert SurfacesKnown(ts, v) by {
      forall i | 0 <= i < |ts| && ts[i].workspaceID == v.id ensures SurfaceKnown(v, ts[i].surfaceID) {
        assert SurfaceKnown(w, ts[i].surfaceID);
      }
    }
  }

  /**
   * Apply, any number of ticks, undo: of a settled workspace and a covered selection, undo is accepted
   * exactly if no other applied plan has a greater id and the workspace had drifted or the selection is
   * intact; and then the edited side is the old one in every detail exactly if the selection is intact.
   */
  lemma UndoWhen(s: State, last: Option<Action>, a: Action, j: nat, k: nat, mode: RestoreMode, ops: seq<RestoreOp>, revisions: seq<nat>, u: Action)
    requires SoundState(s) && Claims(s, last) && Applying(s.cat.value, a, j, k, mode, ops) && Exec(s, a).1.Done?
    requires var w := s.cat.value.workspaces[k];
             var side := Side(w, mode);
             Unique(side) && side != [] && Current(ops, Fields(side)) && Covered(side, ops) && Settled(s.cat.value.terminals, w)
    requires u.kind == ActionReconcileUndo && (u.target.id == "" || u.target.id == s.cat.value.restorePlans[j].id)
    requires var t := Ticks(Exec(s, a).0, revisions); t.cat.Some? && u.expectedRevision == t.cat.value.revision
    ensures var ps, w, t := s.cat.value.restorePlans, s.cat.value.workspaces[k], Ticks(Exec(s, a).0, revisions);
            && (Exec(t, u).1.Done? <==>
                  && (forall i :: AppliedAt(ps, i) && i != j ==> Less(ps[i].id, ps[j].id))
                  && (w.desired != w.observed || I.Intact(Side(w, mode), ops)))
            && (Exec(t, u).1.Done? ==>
                  && k < |Exec(t, u).0.cat.value.workspaces|
                  && (Side(Exec(t, u).0.cat.value.workspaces[k], mode) == Side(w, mode) <==> I.Intact(Side(w, mode), ops)))
  {
    hide IndexOf, ChosenOps, ApplyOps, UndoOps, UndoAll, UndoRecords, ReconcileStatus, ValidCatalog, Dominates, Apply, Exec, Sound, Ticks, Fields,
         Covered, Current, Unique, Claims, Settled, I.Intact, Less, LatestApplied;
    var c := s.cat.value;
    var w := c.workspaces[k];
    ReachesUndo(s, last, a, j, k, mode, ops, revisions);
    ChosenMode(c.restorePlans[j].ops, mode, a.selection);
    UndoSettles(w, mode, ops, c.terminals);
    I.UndoExactly(Side(w, mode), ops);
    var t := Ticks(Exec(s, a).0, revisions);
    UndoAvailable(t, j, k, mode, ops, w, u);
    var applied := WithSide(w, mode, ApplyOps(Side(w, mode), ops).state);
    ReconcileKeepsSides(applied);
    SettledSame(c.terminals, WithSide(t.cat.value.workspaces[k], mode, UndoneSide(w, mode, ops)), WithSide(w, mode, UndoneSide(w, mode, ops)));
    SamePlans(c.restorePlans, t.cat.value.restorePlans, j);
    if Exec(t, u).1.Done? {
      UndoFromApplied(t.cat.value, k, mode, ops, w);
      UndoneState(t, j, k, mode, ops, w, u);
      ReconcileKeepsSides(WithSide(t.cat.value.workspaces[k], mode, UndoneSide(w, mode, ops)));
    }
  }

  lemma SamePlans(a: seq<RestorePlan>, b: seq<RestorePlan>, j: nat)
    requires |a| == |b| && j < |a| && a[j].id == b[j].id && forall i :: 0 <= i < |a| && i != j ==> b[i] == a[i]
    ensures (forall i :: AppliedAt(a, i) && i != j ==> Less(a[i].id, a[j].id)) <==> (forall i :: AppliedAt(b, i) && i != j ==> Less(b[i].id, b[j].id))
  {
    hide Less;
    forall i | i != j ensures AppliedAt(a, i) <==> AppliedAt(b, i) { }
  }

  const A_PANE := SurfaceSpec("a", "edit", "/src", "none")
  const B_PANE := SurfaceSpec("b", "test", "/src", "none")
  const TWO_PANES := [WindowSpec("w", 0, "tiled", [A_PANE, B_PANE])]
  const DROP_A := RestoreOp("op-001", RestorePush, Ref(KindWorkspace, "ws"), "surface/a", "edit~/src", "", false, true, 0)

  /** Removing the first pane and undoing it puts the pane last and forgets its split, with the same fields. */
  lemma PaneReturnsLast()
    ensures var applied := [WindowSpec("w", 0, "tiled", [B_PANE])];
            var undone := [WindowSpec("w", 0, "tiled", [B_PANE, SurfaceSpec("a", "edit", "/src", "")])];
            && ApplyOps(TWO_PANES, [DROP_A]) == Edited(applied)
            && UndoOps(applied, [DROP_A]) == Edited(undone)
            && undone != TWO_PANES && Fields(undone) == Fields(TWO_PANES)
  {
    var applied := [WindowSpec("w", 0, "tiled", [B_PANE])];
    var undone := [WindowSpec("w", 0, "tiled", [B_PANE, SurfaceSpec("a", "edit", "/src", "")])];
    KeySplit("a");
    assert SKey("a") == "surface/a";
    PaneDropped(applied);
    PaneAdded(applied, undone);
    assert UndoOps(applied, [DROP_A][1..]) == Edited(applied);
    PaneFields(undone);
    assert undone[0].surfaces[0] != TWO_PANES[0].surfaces[0];
  }

  lemma PaneDropped(applied: WorkspaceState)
    requires applied == [WindowSpec("w", 0, "tiled", [B_PANE])]
    requires Split("surface/a", '/') == ["surface", "a"]
    ensures ApplyOps(TWO_PANES, [DROP_A]) == Edited(applied)
  {
    hide Split, DropSurface, HasSurface;
    PaneCut(applied);
    assert ApplyOne(TWO_PANES, DROP_A) == Edited(applied);
    assert [DROP_A][1..] == [];
  }

  lemma PaneCut(applied: WorkspaceState)
    requires applied == [WindowSpec("w", 0, "tiled", [B_PANE])]
    ensures HasSurface(TWO_PANES, "a") && DropSurface(TWO_PANES, "a") == applied
  {
    assert HoldsSurface(TWO_PANES[0], "a");
    assert HasSurface(TWO_PANES, "a");
    assert Without([A_PANE, B_PANE], 0) == [B_PANE];
  }

  lemma PaneAdded(applied: WorkspaceState, undone: WorkspaceState)
    requires applied == [WindowSpec("w", 0, "tiled", [B_PANE])]
    requires undone == [WindowSpec("w", 0, "tiled", [B_PANE, SurfaceSpec("a", "edit", "/src", "")])]
    requires Split("surface/a", '/') == ["surface", "a"]
    ensures UndoOne(applied, DROP_A) == Edited(undone)
  {
    hide Split, SetSurface, Cut;
    assert "edit~/src" == "edit" + ['~'] + "/src";
    CutAt("edit", '~', "/src");
    PaneSet(applied, undone);
  }

  lemma PaneSet(applied: WorkspaceState, undone: WorkspaceState)
    requires applied == [WindowSpec("w", 0, "tiled", [B_PANE])]
    requires undone == [WindowSpec("w", 0, "tiled", [B_PANE, SurfaceSpec("a", "edit", "/src", "")])]
    requires Cut("edit~/src", '~') == ("edit", Some("/src"))
    ensures SetSurface(applied, "a", "edit~/src") == undone
  {
    hide Cut;
    assert B_PANE.id[0] != "a"[0];
    assert !HoldsSurface(applied[0], "a");
    assert HolderIndex(applied, "a") < 0;
    var back := SurfaceSpec("a", "edit", "/src", "");
    assert [B_PANE] + [back] == [B_PANE, back];
    assert AppendSurface(applied, back) == [applied[0].(surfaces := [B_PANE, back])];
  }

  lemma PaneFields(undone: WorkspaceState)
    requires undone == [WindowSpec("w", 0, "tiled", [B_PANE, SurfaceSpec("a", "edit", "/src", "")])]
    ensures Fields(undone) == Fields(TWO_PANES)
  {
    hide SKey, WKey, SurfaceValue, Fields;
    KeyInjective("a", "b");
    assert "a"[0] != "b"[0];
    var back := SurfaceSpec("a", "edit", "/src", "");
    SameValue(back, A_PANE);
    TwoFields(A_PANE, B_PANE);
    TwoFields(B_PANE, back);
  }

  /** The fields of a window with two panes. */
  lemma TwoFields(x: SurfaceSpec, y: SurfaceSpec)
    ensures Fields([WindowSpec("w", 0, "tiled", [x, y])])
         == map[WKey("w") := "tiled"] + (map[SKey(x.id) := SurfaceValue(x)] + map[SKey(y.id) := SurfaceValue(y)])
  {
    hide SKey, WKey, SurfaceValue;
    var ws := [WindowSpec("w", 0, "tiled", [x, y])];
    assert ws[1..] == [] && [x, y][1..] == [y] && [y][1..] == [];
    assert SurfaceFields([y]) == map[SKey(y.id) := SurfaceValue(y)] by { assert SurfaceFields([]) == map[]; }
    assert Fields(ws[1..]) == map[];
  }

  lemma SameValue(x: SurfaceSpec, y: SurfaceSpec)
    requires x.title == y.title && x.cwd == y.cwd
    ensures SurfaceValue(x) == SurfaceValue(y)
  {
  }

  /** So undoing that push where nothing had drifted is turned away. */
  lemma UndoTurnedAway(w: Workspace, ts: seq<Terminal>)
    requires w.desired == w.observed == TWO_PANES
    ensures ApplyOps(TWO_PANES, [DROP_A]).Edited? && UndoOps(ApplyOps(TWO_PANES, [DROP_A]).state, [DROP_A]).Edited?
    ensures !Settled(ts, w.(observed := UndoneSide(w, RestorePush, [DROP_A])))
  {
    hide ApplyOps, UndoOps, Fields, SurfacesKnown, HasSurface;
    PaneReturnsLast();
  }
}
