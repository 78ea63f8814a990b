/**
 * From a snapshot to the state it restores: what a snapshot records, that it never changes, what a plan built
 * from it holds, and what pushing that plan reaches. (tmh-next/internal/mock/backend.go)
 */
module Pipeline {
  import opened Text
  import opened Topology
  import opened Domain
  import opened Reconcile
  import opened Converge
  import opened Plan
  import opened Validation
  import opened Transitions
  import opened Gate
  import opened GateRestore
  import opened Backend
  import opened Runs
  import opened UndoRuns
  import opened Surfaces
  import T = Twins
  import A = Actions

  // ---- taking a snapshot ---------------------------------------------------------------------------

  /** The snapshot records what the workspace shows now. */
  predicate Records(s: Snapshot, w: Workspace, now: int) {
    && s.workspaceID == w.id && s.backendID == w.backendID && s.createdAt == now && s.state == w.observed
    && s.windowCount == |w.observed| && s.surfaceCount == SurfaceCount(w.observed)
  }

  /** One new snapshot for each of these workspaces, in their order, numbered on. */
  lemma {:induction false} AllTaken(c: Catalog, counters: Counters, targets: seq<Workspace>)
    ensures var r := SnapshotAll(c, counters, targets);
            && r.Accepted? && |r.cat.snapshots| == |c.snapshots| + |targets| && c.snapshots <= r.cat.snapshots
            && r.cat.workspaces == c.workspaces && r.cat.restorePlans == c.restorePlans && r.cat.now == c.now
            && Issued(r.counters, "snap") == Issued(counters, "snap") + |targets|
            && forall i :: |c.snapshots| <= i < |r.cat.snapshots| ==>
                 && Records(r.cat.snapshots[i], targets[i - |c.snapshots|], c.now)
                 && r.cat.snapshots[i].id == IdOf("snap", Issued(counters, "snap") + 1 + i - |c.snapshots|)
    decreases |targets|
  {
    hide IdOf, SurfaceCount;
    if targets != [] {
      var (id, next) := NextId(counters, "snap");
      var e := AddEvent(c.(snapshots := c.snapshots + [SnapshotOf(targets[0], id, c.now, "manual")]), next,
                        EventSnapshot, SeverityInfo, Ref(KindSnapshot, id));
      var t := targets[1..];
      AllTaken(e.cat, e.counters, t);
      var r := SnapshotAll(c, counters, targets);
      forall i | |c.snapshots| <= i < |r.cat.snapshots|
        ensures Records(r.cat.snapshots[i], targets[i - |c.snapshots|], c.now)
        ensures r.cat.snapshots[i].id == IdOf("snap", Issued(counters, "snap") + 1 + i - |c.snapshots|)
      {
        if i == |c.snapshots| {
          assert r.cat.snapshots[i] == e.cat.snapshots[i];
        } else {
          assert t[i - |e.cat.snapshots|] == targets[i - |c.snapshots|];
        }
      }
    }
  }

  /** The workspaces a snapshot action is about: all of them, the one it names, or its target. */
  function Targets(c: Catalog, a: Action): seq<Workspace> {
    if a.value == "all" then c.workspaces
    else
      var k := IndexOf(WorkspaceIds(c.workspaces), if a.value == "" && a.target.kind == KindWorkspace then a.target.id else a.value);
      if k < 0 then [] else [c.workspaces[k]]
  }

  /** A snapshot action fails exactly if there is nothing to take, and else adds one snapshot of each workspace. */
  lemma CreateTakes(c: Catalog, counters: Counters, a: Action)
    ensures var r, targets := DoSnapshotCreate(c, counters, a), Targets(c, a);
            && (r.Accepted? <==> targets != [])
            && (r.Accepted? ==>
                  && |r.cat.snapshots| == |c.snapshots| + |targets| && c.snapshots <= r.cat.snapshots && r.cat.workspaces == c.workspaces
                  && Issued(r.counters, "snap") == Issued(counters, "snap") + |targets|
                  && forall i :: |c.snapshots| <= i < |r.cat.snapshots| ==>
                       && Records(r.cat.snapshots[i], targets[i - |c.snapshots|], c.now + 1)
                       && r.cat.snapshots[i].id == IdOf("snap", Issued(counters, "snap") + 1 + i - |c.snapshots|))
  {
    hide IndexOf, SnapshotAll, Records, IdOf;
    AllTaken(Advance(c), counters, Targets(c, a));
  }

  // ---- a snapshot never changes -----------------------------------------------------------------------

  /** The snapshot of that id, where there is one, is of this workspace and holds this state. */
  ghost predicate Means(ss: seq<Snapshot>, id: string, workspace: string, state: WorkspaceState) {
    forall i :: 0 <= i < |ss| && ss[i].id == id ==> ss[i].workspaceID == workspace && ss[i].state == state
  }

  predicate Kept(before: seq<Snapshot>, s: Snapshot) {
    exists j :: 0 <= j < |before| && before[j] == s.(tags := before[j].tags)
  }

  ghost predicate IssuedLater(counters: Counters, s: Snapshot) {
    exists n: nat :: n > Issued(counters, "snap") && s.id == IdOf("snap", n)
  }

  /** Every snapshot was there before, tags apart, or carries a number still to be issued then. */
  ghost predicate OldOrNew(before: seq<Snapshot>, after: seq<Snapshot>, counters: Counters) {
    forall i :: 0 <= i < |after| ==> Kept(before, after[i]) || IssuedLater(counters, after[i])
  }

  lemma MeansKept(before: seq<Snapshot>, after: seq<Snapshot>, counters: Counters, m: nat, workspace: string, state: WorkspaceState)
    requires Means(before, IdOf("snap", m), workspace, state) && OldOrNew(before, after, counters) && m <= Issued(counters, "snap")
    ensures Means(after, IdOf("snap", m), workspace, state)
  {
    hide IdOf, Issued;
    forall i | 0 <= i < |after| && after[i].id == IdOf("snap", m) ensures after[i].workspaceID == workspace && after[i].state == state {
      if IssuedLater(counters, after[i]) {
        var n: nat :| n > Issued(counters, "snap") && after[i].id == IdOf("snap", n);
        IdOfInjective("snap", m, n);
        assert false;
      }
    }
  }

  lemma SomeKept(ss: seq<Snapshot>, more: seq<Snapshot>, counters: Counters)
    requires forall s :: s in more ==> s in ss
    ensures OldOrNew(ss, more, counters)
  {
    hide IssuedLater;
    forall i | 0 <= i < |more| ensures Kept(ss, more[i]) {
      assert more[i] in ss;
      var j :| 0 <= j < |ss| && ss[j] == more[i];
    }
  }

  lemma SomeAdded(ss: seq<Snapshot>, more: seq<Snapshot>, counters: Counters)
    requires ss <= more && forall i :: |ss| <= i < |more| ==> more[i].id == IdOf("snap", Issued(counters, "snap") + 1 + i - |ss|)
    ensures OldOrNew(ss, more, counters)
  {
    hide IdOf, Issued;
    forall i | 0 <= i < |more| ensures Kept(ss, more[i]) || IssuedLater(counters, more[i]) {
      if i < |ss| {
        assert ss[i] == more[i];
      } else {
        var n := Issued(counters, "snap") + 1 + i - |ss|;
        assert n > Issued(counters, "snap") && more[i].id == IdOf("snap", n);
      }
    }
  }

  /** A protecting snapshot of the workspace for every chosen operation, and how to take each back. */
  lemma {:induction false} AllFrozen(c: Catalog, counters: Counters, w: Workspace, ops: seq<RestoreOp>)
    ensures var (d, next, undo) := FreezeAll(c, counters, w, ops);
            && |d.snapshots| == |c.snapshots| + |ops| && c.snapshots <= d.snapshots && |undo| == |ops|
            && Issued(next, "snap") == Issued(counters, "snap") + |ops|
            && (forall i :: |c.snapshots| <= i < |d.snapshots| ==>
                  && Records(d.snapshots[i], w, c.now)
                  && d.snapshots[i].id == IdOf("snap", Issued(counters, "snap") + 1 + i - |c.snapshots|))
            && forall i :: 0 <= i < |undo| ==> undo[i].mode == RestoreFreeze && undo[i].before == IdOf("snap", Issued(counters, "snap") + 1 + i)
    decreases |ops|
  {
    hide IdOf, SurfaceCount;
    if ops != [] {
      var (id, next) := NextId(counters, "snap");
      var d := c.(snapshots := c.snapshots + [SnapshotOf(w, id, c.now, "reconcile-freeze")]);
      AllFrozen(d, next, w, ops[1..]);
      var r := FreezeAll(c, counters, w, ops).0;
      assert r.snapshots[|c.snapshots|] == d.snapshots[|c.snapshots|];
    }
  }

  lemma ListsKept(c: Catalog, counters: Counters, a: Action)
    ensures DoAttach(c, counters, a).Accepted? ==> DoAttach(c, counters, a).cat.snapshots == c.snapshots
    ensures DoLink(c, counters, a).Accepted? ==> DoLink(c, counters, a).cat.snapshots == c.snapshots
    ensures DoFreeze(c, counters, a).Accepted? ==> DoFreeze(c, counters, a).cat.snapshots == c.snapshots
    ensures DoSplit(c, counters, a).Accepted? ==> DoSplit(c, counters, a).cat.snapshots == c.snapshots
    ensures DoSnapshotPlan(c, counters, a).Accepted? ==> DoSnapshotPlan(c, counters, a).cat.snapshots == c.snapshots
  {
    hide IndexOf, FirstLive, IdOf, RemoveID, FirstSurface, HasSurface, SplitObserved, BuildOps;
  }

  lemma CreateOldOrNew(c: Catalog, counters: Counters, a: Action)
    ensures DoSnapshotCreate(c, counters, a).Accepted? ==> OldOrNew(c.snapshots, DoSnapshotCreate(c, counters, a).cat.snapshots, counters)
  {
    hide DoSnapshotCreate, Targets, Records, IdOf, OldOrNew;
    var r := DoSnapshotCreate(c, counters, a);
    CreateTakes(c, counters, a);
    if r.Accepted? {
      SomeAdded(c.snapshots, r.cat.snapshots, counters);
    }
  }

  lemma TagOldOrNew(c: Catalog, counters: Counters, a: Action)
    ensures DoSnapshotTag(c, counters, a).Accepted? ==> OldOrNew(c.snapshots, DoSnapshotTag(c, counters, a).cat.snapshots, counters)
  {
    hide IndexOf, IdOf, Blank, IssuedLater;
    var r := DoSnapshotTag(c, counters, a);
    if r.Accepted? {
      forall i | 0 <= i < |r.cat.snapshots| ensures Kept(c.snapshots, r.cat.snapshots[i]) {
        assert c.snapshots[i] == r.cat.snapshots[i].(tags := c.snapshots[i].tags);
      }
    }
  }

  lemma DeleteOldOrNew(c: Catalog, counters: Counters, a: Action)
    ensures DoSnapshotDelete(c, counters, a).Accepted? ==> OldOrNew(c.snapshots, DoSnapshotDelete(c, counters, a).cat.snapshots, counters)
  {
    hide IndexOf, IdOf, RemoveSnapshot, DropPlans, OldOrNew;
    var i := IndexOf(SnapshotIds(c.snapshots), a.target.id);
    if i >= 0 {
      RemoveSnapshotSpec(c.snapshots, c.snapshots[i].id);
      SomeKept(c.snapshots, RemoveSnapshot(c.snapshots, c.snapshots[i].id), counters);
    }
  }

  lemma RestoreOldOrNew(c: Catalog, counters: Counters, a: Action)
    ensures DoRestoreApply(c, counters, a).Accepted? ==> OldOrNew(c.snapshots, DoRestoreApply(c, counters, a).cat.snapshots, counters)
  {
    hide IndexOf, IdOf, OldOrNew, FreezeAll, ApplyOps, ChosenOps, MarkOps, ReconcileStatus, UndoRecords, Records;
    var r := DoRestoreApply(c, counters, a);
    if r.Accepted? {
      var p := c.restorePlans[IndexOf(PlanIds(c.restorePlans), a.target.id)];
      var w := c.workspaces[IndexOf(WorkspaceIds(c.workspaces), p.workspaceID)];
      if a.value == "freeze" {
        var ops := ChosenOps(p.ops, RestoreFreeze, a.selection);
        AllFrozen(Advance(c), counters, w, ops);
        SomeAdded(c.snapshots, r.cat.snapshots, counters);
      } else {
        SomeKept(c.snapshots, r.cat.snapshots, counters);
      }
    }
  }

  lemma UndoOldOrNew(c: Catalog, counters: Counters, a: Action)
    ensures DoUndo(c, counters, a).Accepted? ==> OldOrNew(c.snapshots, DoUndo(c, counters, a).cat.snapshots, counters)
  {
    hide IndexOf, IdOf, OldOrNew, UndoAll, LatestApplied, ReconcileStatus;
    var r := DoUndo(c, counters, a);
    if r.Accepted? {
      var p := c.restorePlans[LatestApplied(c.restorePlans)];
      UndoAllSpec(c.snapshots, c.workspaces[IndexOf(WorkspaceIds(c.workspaces), p.workspaceID)], p.undoOps);
      SomeKept(c.snapshots, r.cat.snapshots, counters);
    }
  }

  /** Whatever the action, it changes no snapshot but in its tags, and makes none under an old number. */
  lemma ActionKeeps(c: Catalog, counters: Counters, a: Action)
    requires Apply(c, counters, a).Accepted?
    ensures OldOrNew(c.snapshots, Apply(c, counters, a).cat.snapshots, counters)
  {
    hide OldOrNew, DoPin, DoTouch, DoPrune, DoSend, DoKill, DoAgent, DoExport, DoSnapshotCreate, DoSnapshotTag, DoSnapshotDelete,
         DoSnapshotPlan, DoBackendCheck, DoBackendToggle, DoMachine, DoPerf, DoConfig, DoAttach, DoFreeze, DoSplit, DoLink, DoRestoreApply, DoUndo;
    var r := Apply(c, counters, a);
    match a.kind {
      case ActionAttach | ActionLink | ActionFreeze | ActionSplit | ActionSnapshotPlan =>
        ListsKept(c, counters, a);
        SomeKept(c.snapshots, r.cat.snapshots, counters);
      case ActionSnapshotCreate => CreateOldOrNew(c, counters, a);
      case ActionSnapshotTag => TagOldOrNew(c, counters, a);
      case ActionSnapshotDelete => DeleteOldOrNew(c, counters, a);
      case ActionRestoreApply => RestoreOldOrNew(c, counters, a);
      case ActionReconcileUndo => UndoOldOrNew(c, counters, a);
      case _ =>
        ViewsUntouched(c, counters, a);
        TerminalsUntouched(c, counters, a);
        AgentUntouched(c, counters, a);
        SystemUntouched(c, counters, a);
        SomeKept(c.snapshots, r.cat.snapshots, counters);
    }
  }

  lemma StepMeans(s: State, call: Call, m: nat, workspace: string, state: WorkspaceState)
    requires s.cat.Some? && m <= Issued(s.counters, "snap") && Means(s.cat.value.snapshots, IdOf("snap", m), workspace, state)
    ensures var t := Step(s, call).0;
            t.cat.Some? && m <= Issued(t.counters, "snap") && Means(t.cat.value.snapshots, IdOf("snap", m), workspace, state)
  {
    hide Means, OldOrNew, Apply, DoTick, ValidCatalog, Issued, IdOf;
    StepGrows(s, call);
    if Step(s, call).1.Done? {
      match call {
        case TickAt(_) => TickClock(s.cat.value, s.counters, s.ticks + 1);
        case Do(a) =>
          var c, d := s.cat.value, Apply(s.cat.value, s.counters, a).cat;
          ActionKeeps(c, s.counters, a);
          MeansKept(c.snapshots, d.snapshots, s.counters, m, workspace, state);
      }
    }
  }

  /** Over any run a snapshot, as long as it is there, is of the workspace and holds the state it was taken with. */
  lemma {:induction false} RunMeans(s: State, calls: seq<Call>, m: nat, workspace: string, state: WorkspaceState)
    requires s.cat.Some? && m <= Issued(s.counters, "snap") && Means(s.cat.value.snapshots, IdOf("snap", m), workspace, state)
    ensures var t := Run(s, calls).0; t.cat.Some? && Means(t.cat.value.snapshots, IdOf("snap", m), workspace, state)
    decreases |calls|
  {
    hide Step, Means, Issued, IdOf;
    if calls != [] {
      StepMeans(s, calls[0], m, workspace, state);
      RunMeans(Step(s, calls[0]).0, calls[1..], m, workspace, state);
    }
  }

  // ---- planning and pushing ---------------------------------------------------------------------------

  /** A plan is made exactly if the snapshot and its workspace are there; it compares the workspace with that snapshot. */
  lemma PlanMade(c: Catalog, counters: Counters, a: Action)
    ensures var i := IndexOf(SnapshotIds(c.snapshots), a.target.id);
            var k := if i < 0 then -1 else IndexOf(WorkspaceIds(c.workspaces), c.snapshots[i].workspaceID);
            var r := DoSnapshotPlan(c, counters, a);
            && (r.Accepted? <==> a.target.kind == KindSnapshot && k >= 0)
            && (r.Accepted? ==>
                  && r.cat.workspaces == c.workspaces && r.cat.snapshots == c.snapshots && r.cat.mutationSerial == c.mutationSerial
                  && |r.cat.restorePlans| == |c.restorePlans| + 1 && c.restorePlans <= r.cat.restorePlans
                  && var p := r.cat.restorePlans[|c.restorePlans|];
                     && p.id == IdOf("plan", Issued(counters, "plan") + 1) && p.snapshotID == a.target.id && p.workspaceID == c.workspaces[k].id
                     && p.status == PlanPending && p.undoOps == [] && p.ops == BuildOps(c.workspaces[k], c.snapshots[i].state))
  {
    hide IndexOf, IdOf, BuildOps;
  }

  /** A snapshot of workspace `k` alone was taken. */
  ghost predicate Snaps(s: State, a: Action, k: nat, t: State) {
    && s.cat.Some? && k < |s.cat.value.workspaces| && a.kind == ActionSnapshotCreate
    && Targets(s.cat.value, a) == [s.cat.value.workspaces[k]]
    && Exec(s, a).0 == t && Exec(s, a).1.Done?
  }

  /** A plan was made from the snapshot of that id. */
  ghost predicate Plans(s: State, a: Action, snapshot: string, t: State) {
    s.cat.Some? && a.kind == ActionSnapshotPlan && a.target.id == snapshot && Exec(s, a).0 == t && Exec(s, a).1.Done?
  }

  /** All push operations of the plan were applied. */
  ghost predicate Pushes(s: State, a: Action, plan: string, t: State) {
    && s.cat.Some? && a.kind == ActionRestoreApply && a.value == "push" && a.selection == [] && a.target.id == plan
    && Exec(s, a).0 == t && Exec(s, a).1.Done?
  }

  lemma SnapsMeans(s: State, a: Action, k: nat, t: State)
    requires SoundState(s) && Snaps(s, a, k, t)
    ensures SoundState(t) && Issued(t.counters, "snap") == Issued(s.counters, "snap") + 1
    ensures Means(t.cat.value.snapshots, IdOf("snap", Issued(s.counters, "snap") + 1), s.cat.value.workspaces[k].id, s.cat.value.workspaces[k].observed)
  {
    hide IdOf, Targets, DoSnapshotCreate, ValidCatalog, Dominates, Issued;
    var c, d, m := s.cat.value, t.cat.value, Issued(s.counters, "snap") + 1;
    CreateTakes(c, s.counters, a);
    StepSound(s, Do(a));
    forall i | 0 <= i < |d.snapshots| && d.snapshots[i].id == IdOf("snap", m)
      ensures d.snapshots[i].workspaceID == c.workspaces[k].id && d.snapshots[i].state == c.workspaces[k].observed
    {
      if i < |c.snapshots| {
        NumberTaken(c, s.counters, i, m);
        assert false;
      }
    }
  }

  lemma NumberTaken(c: Catalog, counters: Counters, i: nat, m: nat)
    requires Dominates(counters, c) && i < |c.snapshots| && m > Issued(counters, "snap")
    ensures c.snapshots[i].id != IdOf("snap", m)
  {
    hide IdOf, Issued;
    assert SnapshotIds(c.snapshots)[i] == c.snapshots[i].id;
  }

  lemma PlansMade(s: State, a: Action, snapshot: string, t: State, workspace: string, state: WorkspaceState)
    requires SoundState(s) && Plans(s, a, snapshot, t) && Means(s.cat.value.snapshots, snapshot, workspace, state)
    ensures SoundState(t) && t.cat.value.workspaces == s.cat.value.workspaces
    ensures var v, j := IndexOf(WorkspaceIds(s.cat.value.workspaces), workspace), |s.cat.value.restorePlans|;
            && v >= 0 && |t.cat.value.restorePlans| == j + 1
            && var p := t.cat.value.restorePlans[j];
               && p.id == IdOf("plan", Issued(s.counters, "plan") + 1) && p.workspaceID == workspace
               && p.ops == BuildOps(s.cat.value.workspaces[v], state)
  {
    hide IdOf, DoSnapshotPlan, ValidCatalog, Dominates, Issued, BuildOps, IndexOf;
    PlanMade(s.cat.value, s.counters, a);
    StepSound(s, Do(a));
  }

  /** The second half of the way: from the plan to what its push operations reach. */
  lemma PlanRestores(s2: State, plan: Action, snapshot: string, s3: State, revisions: seq<nat>, s4: State, push: Action, s5: State,
                     v: nat, workspace: string, was: WorkspaceState)
    requires SoundState(s2) && Plans(s2, plan, snapshot, s3) && Means(s2.cat.value.snapshots, snapshot, workspace, was)
    requires s4 == Ticks(s3, revisions) && Pushes(s4, push, IdOf("plan", Issued(s2.counters, "plan") + 1), s5)
    requires v == IndexOf(WorkspaceIds(s2.cat.value.workspaces), workspace) && v < |s2.cat.value.workspaces|
    requires var now := s2.cat.value.workspaces[v].observed; Unique(was) && Plain(was) && Unique(now) && Plain(now) && now != []
    ensures s5.cat.Some? && v < |s5.cat.value.workspaces|
    ensures var now := s2.cat.value.workspaces[v].observed;
            Fields(s5.cat.value.workspaces[v].observed) == Fields(was) <==> Clears(now, PushOps(now, was, workspace))
  {
    hide IdOf, Issued, Sound, Exec, Ticks, Unique, Plain, Fields, Clears, BuildOps, PushOps, IndexOf, Means, ApplyOps, ChosenOps;
    PlansMade(s2, plan, snapshot, s3, workspace, was);
    TicksKeep(s3, revisions);
    var j := |s2.cat.value.restorePlans|;
    T.SoundIs(s4);
    T.PlanFound(s4.cat.value, j);
    PushConverges(s4, push, j, v, was, s5);
  }

  lemma PushConverges(s: State, push: Action, j: nat, v: nat, was: WorkspaceState, t: State)
    requires SoundState(s) && j < |s.cat.value.restorePlans| && v < |s.cat.value.workspaces|
    requires Pushes(s, push, s.cat.value.restorePlans[j].id, t) && j == IndexOf(PlanIds(s.cat.value.restorePlans), s.cat.value.restorePlans[j].id)
    requires v == IndexOf(WorkspaceIds(s.cat.value.workspaces), s.cat.value.restorePlans[j].workspaceID)
    requires s.cat.value.restorePlans[j].ops == BuildOps(s.cat.value.workspaces[v], was)
    requires var now := s.cat.value.workspaces[v].observed; Unique(was) && Plain(was) && Unique(now) && Plain(now) && now != []
    ensures t.cat.Some? && v < |t.cat.value.workspaces|
    ensures var w := s.cat.value.workspaces[v];
            Fields(t.cat.value.workspaces[v].observed) == Fields(was) <==> Clears(w.observed, PushOps(w.observed, was, w.id))
  {
    hide IdOf, Sound, Unique, Plain, Fields, Clears, BuildOps, PushOps, IndexOf, ApplyOps, ChosenOps, Apply, ValidCatalog, Exec;
    var ops := ChosenOps(s.cat.value.restorePlans[j].ops, RestorePush, []);
    ChosenFromPlan(s.cat.value.workspaces[v], was, RestorePush, []);
    StepSound(s, Do(push));
    PlanConverges(s, push, j, v, RestorePush, ops, was, t.cat.value);
  }

  /**
   * The whole way: a snapshot of a workspace is taken, anything at all happens, a plan is made from it, time passes,
   * and all its push operations are accepted. Then the workspace observes again the fields it had when the snapshot
   * was taken, exactly if the operations clear the windows they remove.
   */
  lemma SnapshotRestores(s: State, create: Action, k: nat, s1: State, between: seq<Call>, s2: State, plan: Action, s3: State,
                         revisions: seq<nat>, s4: State, push: Action, s5: State, v: nat)
    requires SoundState(s) && Snaps(s, create, k, s1)
    requires s2 == Run(s1, between).0 && Plans(s2, plan, IdOf("snap", Issued(s.counters, "snap") + 1), s3)
    requires s4 == Ticks(s3, revisions) && Pushes(s4, push, IdOf("plan", Issued(s2.counters, "plan") + 1), s5)
    requires v == IndexOf(WorkspaceIds(s2.cat.value.workspaces), s.cat.value.workspaces[k].id)
    requires v < |s2.cat.value.workspaces|
    requires var was, now := s.cat.value.workspaces[k].observed, s2.cat.value.workspaces[v].observed;
             Unique(was) && Plain(was) && Unique(now) && Plain(now) && now != []
    ensures s5.cat.Some? && v < |s5.cat.value.workspaces|
    ensures var was, now := s.cat.value.workspaces[k].observed, s2.cat.value.workspaces[v].observed;
            Fields(s5.cat.value.workspaces[v].observed) == Fields(was) <==> Clears(now, PushOps(now, was, s.cat.value.workspaces[k].id))
  {
    hide IdOf, Issued, Sound, Exec, Run, Ticks, Unique, Plain, Fields, Clears, BuildOps, PushOps, IndexOf, Means, ApplyOps, ChosenOps;
    var w, m := s.cat.value.workspaces[k], Issued(s.counters, "snap") + 1;
    SnapsMeans(s, create, k, s1);
    RunMeans(s1, between, m, w.id, w.observed);
    RunSound(s1, between);
    PlanRestores(s2, plan, IdOf("snap", m), s3, revisions, s4, push, s5, v, w.id, w.observed);
  }

  // ---- freezing and back ------------------------------------------------------------------------------

  lemma {:induction false} RemoveLast(ss: seq<Snapshot>, s: Snapshot)
    requires s.id !in SnapshotIds(ss)
    ensures RemoveSnapshot(ss + [s], s.id) == ss
  {
    if ss == [] {
      assert ss + [s] == [s] && [s][1..] == [];
    } else {
      assert SnapshotIds(ss)[0] == ss[0].id && SnapshotIds(ss)[1..] == SnapshotIds(ss[1..]);
      assert (ss + [s])[1..] == ss[1..] + [s];
      RemoveLast(ss[1..], s);
    }
  }

  /** Undoing a freeze takes back exactly the snapshots it made, and nothing else. */
  lemma {:induction false} FreezeUndone(c: Catalog, counters: Counters, w: Workspace, ops: seq<RestoreOp>, now: Workspace)
    requires Unissued(counters, "snap", SnapshotIds(c.snapshots))
    ensures var (d, next, undo) := FreezeAll(c, counters, w, ops); UndoAll(d.snapshots, now, undo) == Some((c.snapshots, now))
    decreases |ops|
  {
    hide IdOf, SurfaceCount, Unissued, RemoveSnapshot;
    if ops != [] {
      var (id, next) := NextId(counters, "snap");
      var x := SnapshotOf(w, id, c.now, "reconcile-freeze");
      var d := c.(snapshots := c.snapshots + [x]);
      Issue(counters, "snap", SnapshotIds(c.snapshots));
      assert SnapshotIds(d.snapshots) == SnapshotIds(c.snapshots) + [id];
      FreezeUndone(d, next, w, ops[1..], now);
      NotTaken(c, counters);
      RemoveLast(c.snapshots, x);
      var (e, last, undo) := FreezeAll(c, counters, w, ops);
      assert undo[1..] == FreezeAll(d, next, w, ops[1..]).2;
    }
  }

  lemma NotTaken(c: Catalog, counters: Counters)
    requires Unissued(counters, "snap", SnapshotIds(c.snapshots))
    ensures NextId(counters, "snap").0 !in SnapshotIds(c.snapshots)
  {
  }

  /** What an application marks: of its mode exactly the chosen operations are included from now on; the others stay as they were. */
  lemma MarkedChosen(ops: seq<RestoreOp>, mode: RestoreMode, selection: seq<string>, now: int)
    ensures var marked := MarkOps(ops, mode, selection, now);
            && |marked| == |ops|
            && forall i :: 0 <= i < |ops| ==>
                 && (ops[i].mode != mode ==> marked[i] == ops[i])
                 && (ops[i].mode == mode ==> (marked[i].included <==> Chosen(ops[i], mode, selection)))
                 && marked[i] == ops[i].(included := marked[i].included, appliedAt := marked[i].appliedAt)
                 && (marked[i].appliedAt != ops[i].appliedAt ==> marked[i].appliedAt == now && Chosen(ops[i], mode, selection) && mode != RestoreFreeze)
  {
  }

  // ---- applying and undoing as actions ---------------------------------------------------------------------

  /** The chosen operations are those of the mode that are selected, or included if nothing is selected, in their order. */
  lemma {:induction false} ChosenExactly(ops: seq<RestoreOp>, mode: RestoreMode, selection: seq<string>)
    ensures forall op :: op in ChosenOps(ops, mode, selection)
              <==> op in ops && op.mode == mode && ((selection == [] && op.included) || (selection != [] && op.id in selection))
    ensures OpsSorted(ops) ==> OpsSorted(ChosenOps(ops, mode, selection))
  {
    hide OpLess;
    if ops != [] {
      var t, r := ops[1..], ChosenOps(ops[1..], mode, selection);
      ChosenExactly(t, mode, selection);
      assert ops == [ops[0]] + t;
      if OpsSorted(ops) {
        assert forall i :: 0 <= i < |t| ==> t[i] == ops[i + 1];
        forall j | 0 <= j < |r| ensures OpLess(ops[0], r[j]) {
          assert r[j] in t;
          var k :| 0 <= k < |t| && t[k] == r[j];
        }
      }
    }
  }

  /** A plan is applied once, after the user agreed, in one of the three modes, if something is chosen and no operation is refused. */
  lemma RestoreActs(c: Catalog, counters: Counters, a: Action)
    ensures var r, j := DoRestoreApply(c, counters, a), IndexOf(PlanIds(c.restorePlans), a.target.id);
            var k := if j < 0 then -1 else IndexOf(WorkspaceIds(c.workspaces), c.restorePlans[j].workspaceID);
            && (r.Accepted? <==> a.target.kind == KindPlan && k >= 0 && c.restorePlans[j].status == PlanPending && a.confirmed && a.value in {"push", "pull", "freeze"}
                                 && ChosenOps(c.restorePlans[j].ops, ModeOf(a.value), a.selection) != []
                                 && (a.value != "freeze" ==> ApplyOps(Side(c.workspaces[k], ModeOf(a.value)), ChosenOps(c.restorePlans[j].ops, ModeOf(a.value), a.selection)).Edited?))
            && (r.Accepted? ==>
                  && A.Only(c, r.cat, {A.Workspaces, A.Plans, A.Snapshots}, EventRestore, SeverityInfo, a.target)
                  && A.Swapped(c.workspaces, r.cat.workspaces, k) && A.Swapped(c.restorePlans, r.cat.restorePlans, j) && (a.value != "freeze" ==> r.cat.snapshots == c.snapshots)
                  && var before, p := c.restorePlans[j], r.cat.restorePlans[j];
                     p == before.(status := PlanApplied, appliedAt := r.cat.now, appliedSerial := c.mutationSerial + 1, undoOps := p.undoOps,
                                  ops := MarkOps(before.ops, ModeOf(a.value), a.selection, r.cat.now)))
  {
    hide IndexOf, IdOf, ApplyOps, FreezeAll, ChosenOps, MarkOps, UndoRecords, ReconcileStatus;
  }

  /** Undo is for the applied plan with the greatest id, if it is the one asked for and nothing was accepted since; the plan is marked. */
  lemma UndoActs(c: Catalog, counters: Counters, a: Action)
    ensures var r, j := DoUndo(c, counters, a), LatestApplied(c.restorePlans);
            var k := if j < 0 then -1 else IndexOf(WorkspaceIds(c.workspaces), c.restorePlans[j].workspaceID);
            && (r.Accepted? <==> k >= 0 && (a.target.id == "" || a.target.id == c.restorePlans[j].id) && c.mutationSerial == c.restorePlans[j].appliedSerial
                                 && UndoAll(c.snapshots, c.workspaces[k], c.restorePlans[j].undoOps).Some?)
            && (r.Accepted? ==>
                  && A.Only(c, r.cat, {A.Workspaces, A.Plans, A.Snapshots}, EventRestore, SeverityInfo, Ref(KindPlan, c.restorePlans[j].id))
                  && A.Swapped(c.workspaces, r.cat.workspaces, k) && A.Swapped(c.restorePlans, r.cat.restorePlans, j)
                  && r.cat.restorePlans[j] == c.restorePlans[j].(status := PlanUndone, undoneAt := r.cat.now))
  {
    hide IndexOf, IdOf, UndoAll, LatestApplied, ReconcileStatus;
  }

  /** The freeze operation of a plan: one, included, for a new snapshot. */
  lemma FreezeFirst(w: Workspace, target: WorkspaceState)
    ensures var ops := BuildOps(w, target);
            && ops != [] && ops[0].mode == RestoreFreeze && ops[0].target == Ref(KindSnapshot, w.id) && ops[0].field == "snapshot"
            && ops[0].included && ops[0].before == "" && ops[0].beforeAbsent
            && forall i :: 0 < i < |ops| ==> ops[i].mode != RestoreFreeze && ops[i].included && ops[i].target == Ref(KindWorkspace, w.id) && ops[i].appliedAt == 0
  {
    hide DiffStates, BuildOps, OpsSorted, SortedByField, OpId, Dec;
    BuildOpsSections(w, target);
    var push := PushOps(w.observed, target, w.id);
    var pull := PullOps(w.desired, w.observed, w.id, |push|);
    var ops := BuildOps(w, target);
    forall i | 0 < i < |ops| ensures ops[i].mode != RestoreFreeze && ops[i].included && ops[i].target == Ref(KindWorkspace, w.id) && ops[i].appliedAt == 0 {
      assert ops[i] == if i <= |pull| then pull[i - 1] else push[i - 1 - |pull|];
    }
  }
}
