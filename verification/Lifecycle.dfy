/**
 * What no run of the demo backend ever undoes. (tmh-next/internal/mock/backend.go)
 */
module Lifecycle {
  import opened Text
  import opened Topology
  import opened Domain
  import opened Reconcile
  import opened Plan
  import opened Validation
  import opened Transitions
  import opened Gate
  import opened GateRestore
  import opened Backend
  import opened Runs
  import opened UndoRuns
  import opened Actions

  /** Terminals stay in their place, and one that has exited never lives again. */
  predicate TerminalsLast(a: seq<Terminal>, b: seq<Terminal>) {
    |a| <= |b| && forall i :: 0 <= i < |a| ==> b[i].id == a[i].id && (a[i].state == TerminalExited ==> b[i].state == TerminalExited)
  }

  /** Agents stay in their place; one that is done stays done, a claim stays with its owner, and nothing said is lost. */
  predicate AgentsLast(a: seq<Agent>, b: seq<Agent>) {
    |a| == |b| && forall i :: 0 <= i < |a| ==>
      && b[i].id == a[i].id && (a[i].state == AgentDone ==> b[i].state == AgentDone)
      && (a[i].claimedBy != "" ==> b[i].claimedBy == a[i].claimedBy) && a[i].timeline <= b[i].timeline
      && (0 <= a[i].progress <= 99 ==> a[i].progress <= b[i].progress <= 99)
  }

  /** Workspaces stay in their place, under their name, with the agents they had. */
  predicate WorkspacesLast(a: seq<Workspace>, b: seq<Workspace>) {
    |a| == |b| && forall i :: 0 <= i < |a| ==> b[i].id == a[i].id && b[i].name == a[i].name && b[i].agentIDs == a[i].agentIDs
  }

  /** The default backend stays the default, and on. */
  predicate BackendsLast(a: seq<BackendInfo>, b: seq<BackendInfo>) {
    |a| == |b| && forall i :: 0 <= i < |a| ==>
      b[i].id == a[i].id && b[i].isDefault == a[i].isDefault && (a[i].isDefault ==> b[i].enabled == a[i].enabled)
  }

  ghost predicate Lasting(c: Catalog, d: Catalog) {
    && TerminalsLast(c.terminals, d.terminals) && AgentsLast(c.agents, d.agents) && WorkspacesLast(c.workspaces, d.workspaces)
    && BackendsLast(c.backends, d.backends)
  }

  lemma LastingSelf(c: Catalog)
    ensures Lasting(c, c)
  {
  }

  lemma LastingOn(c: Catalog, d: Catalog, e: Catalog)
    requires Lasting(c, d) && Lasting(d, e)
    ensures Lasting(c, e)
  {
  }

  // ---- every action ------------------------------------------------------------------------------------

  /** Actions on snapshots and plans leave terminals, agents and backends alone, and of workspaces what lasts. */
  lemma PlansLast(c: Catalog, counters: Counters, a: Action)
    requires a.kind in {ActionSnapshotCreate, ActionSnapshotPlan, ActionRestoreApply, ActionReconcileUndo} && Apply(c, counters, a).Accepted?
    ensures Lasting(c, Apply(c, counters, a).cat)
  {
    hide DoSnapshotCreate, DoSnapshotPlan, DoRestoreApply, DoUndo, Lasting;
    match a.kind {
      case ActionSnapshotCreate => CreateLasts(c, counters, a);
      case ActionSnapshotPlan => PlanLasts(c, counters, a);
      case ActionRestoreApply => RestoreLasts(c, counters, a);
      case _ => UndoLasts(c, counters, a);
    }
  }

  lemma {:induction false} TakenLasts(c: Catalog, counters: Counters, targets: seq<Workspace>)
    ensures var r := SnapshotAll(c, counters, targets);
            r.Accepted? && r.cat.terminals == c.terminals && r.cat.agents == c.agents && r.cat.workspaces == c.workspaces && r.cat.backends == c.backends
    decreases |targets|
  {
    hide IdOf, SnapshotOf;
    if targets != [] {
      var (id, next) := NextId(counters, "snap");
      var e := AddEvent(c.(snapshots := c.snapshots + [SnapshotOf(targets[0], id, c.now, "manual")]), next,
                        EventSnapshot, SeverityInfo, Ref(KindSnapshot, id));
      TakenLasts(e.cat, e.counters, targets[1..]);
    }
  }

  lemma CreateLasts(c: Catalog, counters: Counters, a: Action)
    requires DoSnapshotCreate(c, counters, a).Accepted?
    ensures Lasting(c, DoSnapshotCreate(c, counters, a).cat)
  {
    hide SnapshotAll, IndexOf;
    TakenLasts(Advance(c), counters, c.workspaces);
    forall k | 0 <= k < |c.workspaces| { TakenLasts(Advance(c), counters, [c.workspaces[k]]); }
  }

  lemma PlanLasts(c: Catalog, counters: Counters, a: Action)
    requires DoSnapshotPlan(c, counters, a).Accepted?
    ensures Lasting(c, DoSnapshotPlan(c, counters, a).cat)
  {
    hide IndexOf, IdOf, BuildOps;
  }

  lemma StatusLasts(w: Workspace)
    ensures var v := ReconcileStatus(w); v.id == w.id && v.name == w.name && v.agentIDs == w.agentIDs
  {
    hide DiffStates;
  }

  lemma RestoreLasts(c: Catalog, counters: Counters, a: Action)
    requires DoRestoreApply(c, counters, a).Accepted?
    ensures Lasting(c, DoRestoreApply(c, counters, a).cat)
  {
    hide IndexOf, IdOf, ApplyOps, FreezeAll, ChosenOps, MarkOps, UndoRecords, ReconcileStatus;
    forall w: Workspace { StatusLasts(w); }
  }

  lemma UndoLasts(c: Catalog, counters: Counters, a: Action)
    requires DoUndo(c, counters, a).Accepted?
    ensures Lasting(c, DoUndo(c, counters, a).cat)
  {
    hide IndexOf, IdOf, UndoAll, LatestApplied, ReconcileStatus;
    var p := c.restorePlans[LatestApplied(c.restorePlans)];
    var k := IndexOf(WorkspaceIds(c.workspaces), p.workspaceID);
    UndoAllSpec(c.snapshots, c.workspaces[k], p.undoOps);
    StatusLasts(UndoAll(c.snapshots, c.workspaces[k], p.undoOps).value.1);
  }

  lemma AttachLasts(c: Catalog, counters: Counters, a: Action)
    ensures DoAttach(c, counters, a).Accepted? ==> Lasting(c, DoAttach(c, counters, a).cat)
  {
    hide IndexOf, IdOf, FirstLive;
  }

  lemma LinkLasts(c: Catalog, counters: Counters, a: Action)
    ensures DoLink(c, counters, a).Accepted? ==> Lasting(c, DoLink(c, counters, a).cat)
  {
    hide IndexOf, IdOf, RemoveID, FirstSurface;
  }

  lemma FrameLasts(c: Catalog, d: Catalog)
    requires d.terminals == c.terminals && d.agents == c.agents && d.workspaces == c.workspaces && d.backends == c.backends
    ensures Lasting(c, d)
  {
  }

  /** Some actions touch none of these lists. */
  lemma AsideLasts(c: Catalog, counters: Counters, a: Action)
    requires Apply(c, counters, a).Accepted?
    requires a.kind in {ActionPin, ActionUnpin, ActionTouch, ActionPrune, ActionHistoryExport, ActionSnapshotTag, ActionSnapshotDelete}
    ensures Lasting(c, Apply(c, counters, a).cat)
  {
    hide Lasting, DoPin, DoTouch, DoPrune, DoExport, DoSnapshotTag, DoSnapshotDelete, IndexOf, Blank, SelectedRows, Swapped;
    FrameLasts(c, Apply(c, counters, a).cat) by {
      match a.kind {
        case ActionPin | ActionUnpin => PinActs(c, counters, a);
        case ActionTouch => TouchActs(c, counters, a);
        case ActionPrune => PruneActs(c, counters, a);
        case ActionHistoryExport => ExportActs(c, counters, a);
        case ActionSnapshotTag => TagActs(c, counters, a);
        case _ => DeleteActs(c, counters, a);
      }
    }
  }

  lemma SendLasts(c: Catalog, counters: Counters, a: Action)
    ensures DoSend(c, counters, a).Accepted? ==> Lasting(c, DoSend(c, counters, a).cat)
    ensures DoKill(c, counters, a).Accepted? ==> Lasting(c, DoKill(c, counters, a).cat)
  {
    hide DoSend, DoKill, IndexOf, Blank, Noted;
    SendActs(c, counters, a);
    KillActs(c, counters, a);
  }

  lemma SplitLasts(c: Catalog, counters: Counters, a: Action)
    ensures DoSplit(c, counters, a).Accepted? ==> Lasting(c, DoSplit(c, counters, a).cat)
    ensures DoFreeze(c, counters, a).Accepted? ==> Lasting(c, DoFreeze(c, counters, a).cat)
  {
    hide DoSplit, DoFreeze, IndexOf, HasSurface, SplitObserved;
    SplitActs(c, counters, a);
    FreezeActs(c, counters, a);
  }

  lemma {:induction false} AgentLasts(c: Catalog, counters: Counters, a: Action)
    requires a.kind in {ActionAgentFocus, ActionAgentPrompt, ActionAgentWait, ActionAgentClaim} && DoAgent(c, counters, a).Accepted?
    ensures Lasting(c, DoAgent(c, counters, a).cat)
  {
    hide DoAgent, IndexOf, Blank, Noted;
    AgentActs(c, counters, a);
  }

  lemma PerfLasts(c: Catalog, counters: Counters, a: Action)
    ensures DoPerf(c, counters, a).Accepted? ==> Lasting(c, DoPerf(c, counters, a).cat)
    ensures DoConfig(c, counters, a).Accepted? ==> Lasting(c, DoConfig(c, counters, a).cat)
  {
    hide IdOf, Blank, ConfigOk;
  }

  lemma MachineLasts(c: Catalog, counters: Counters, a: Action)
    ensures DoMachine(c, counters, a).Accepted? ==> Lasting(c, DoMachine(c, counters, a).cat)
  {
    hide IdOf, IndexOf;
  }

  lemma BackendLasts(c: Catalog, counters: Counters, a: Action)
    ensures DoBackendCheck(c, counters, a).Accepted? ==> Lasting(c, DoBackendCheck(c, counters, a).cat)
    ensures DoBackendToggle(c, counters, a).Accepted? ==> Lasting(c, DoBackendToggle(c, counters, a).cat)
  {
    hide IdOf, IndexOf;
  }

  lemma ActionLasts(c: Catalog, counters: Counters, a: Action)
    requires Apply(c, counters, a).Accepted?
    ensures Lasting(c, Apply(c, counters, a).cat)
  {
    hide Lasting, DoPin, DoTouch, DoPrune, DoSend, DoKill, DoAgent, DoExport, DoSnapshotCreate, DoSnapshotTag, DoSnapshotDelete,
         DoSnapshotPlan, DoBackendCheck, DoBackendToggle, DoMachine, DoPerf, DoConfig, DoAttach, DoFreeze, DoSplit, DoLink, DoRestoreApply, DoUndo;
    match a.kind {
      case ActionSnapshotCreate | ActionSnapshotPlan | ActionRestoreApply | ActionReconcileUndo => PlansLast(c, counters, a);
      case ActionAttach => AttachLasts(c, counters, a);
      case ActionLink => LinkLasts(c, counters, a);
      case ActionSend | ActionKill => SendLasts(c, counters, a);
      case ActionSplit | ActionFreeze => SplitLasts(c, counters, a);
      case ActionAgentFocus | ActionAgentPrompt | ActionAgentWait | ActionAgentClaim => AgentLasts(c, counters, a);
      case ActionPin | ActionUnpin | ActionTouch | ActionPrune | ActionHistoryExport | ActionSnapshotTag | ActionSnapshotDelete => AsideLasts(c, counters, a);
      case ActionMachineConnect | ActionMachinePing | ActionMachineDoctor => MachineLasts(c, counters, a);
      case ActionBackendProbe | ActionBackendDoctor | ActionBackendToggle => BackendLasts(c, counters, a);
      case _ => PerfLasts(c, counters, a);
    }
  }

  lemma TickLasts(c: Catalog, counters: Counters, n: nat)
    ensures Lasting(c, DoTick(c, counters, n).cat)
  {
    hide IdOf, FirstRunning, Beat, Sample, Tail;
  }

  // ---- runs ------------------------------------------------------------------------------------------------

  lemma StepLasts(s: State, call: Call)
    requires s.cat.Some?
    ensures Step(s, call).0.cat.Some? && Lasting(s.cat.value, Step(s, call).0.cat.value)
  {
    hide Lasting, Apply, DoTick, ValidCatalog;
    var c := s.cat.value;
    LastingSelf(c);
    StepClock(s, call);
    match call {
      case TickAt(_) => TickLasts(c, s.counters, s.ticks + 1);
      case Do(a) =>
        if Step(s, call).1.Done? {
          ActionLasts(c, s.counters, a);
          SerialLasts(c, Apply(c, s.counters, a).cat);
        }
    }
  }

  lemma SerialLasts(c: Catalog, d: Catalog)
    requires Lasting(c, d)
    ensures Lasting(c, d.(mutationSerial := d.mutationSerial + 1))
  {
  }

  /**
   * Over any run no terminal that has exited comes back to life, no agent that is done works again, no claim changes
   * hands, no agent falls back, nothing an agent said is lost, and the default backend is never turned off.
   */
  lemma {:induction false} RunLasts(s: State, calls: seq<Call>)
    requires s.cat.Some?
    ensures Run(s, calls).0.cat.Some? && Lasting(s.cat.value, Run(s, calls).0.cat.value)
    decreases |calls|
  {
    hide Step, Lasting;
    if calls == [] {
      LastingSelf(s.cat.value);
    } else {
      var t := Step(s, calls[0]).0;
      StepLasts(s, calls[0]);
      RunLasts(t, calls[1..]);
      LastingOn(s.cat.value, t.cat.value, Run(t, calls[1..]).0.cat.value);
    }
  }
}
