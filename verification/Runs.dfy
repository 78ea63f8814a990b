/**
 * Whole runs of the backend: any number of callers, any interleaving of actions and ticks.
 * (tmh-next/internal/mock/backend.go)
 */
module Runs {
  import opened Text
  import opened Topology
  import opened Domain
  import opened Reconcile
  import opened Plan
  import opened Validation
  import opened Transitions
  import opened Gate
  import opened GateSafe
  import opened GateExact
  import opened GateRestore
  import opened Backend

  // ---- what one transition does to the clock and the plans --------------------------------

  /** One step of revision and clock; the serial and the scenario stay. */
  predicate OneStep(c: Catalog, d: Catalog) {
    && d.revision == c.revision + 1 && d.now == c.now + 1
    && d.mutationSerial == c.mutationSerial && d.scenario == c.scenario
  }

  lemma {:induction false} SnapshotAllStep(c: Catalog, counters: Counters, targets: seq<Workspace>)
    ensures var r := SnapshotAll(c, counters, targets);
            && r.Accepted? && r.cat.revision == c.revision && r.cat.now == c.now && r.cat.mutationSerial == c.mutationSerial
            && r.cat.scenario == c.scenario && r.cat.restorePlans == c.restorePlans && r.cat.workspaces == c.workspaces
            && Grows(counters, r.counters) && c.events <= r.cat.events && |r.cat.events| == |c.events| + |targets| && r.cat.history == c.history
    decreases |targets|
  {
    hide SnapshotOf, IdOf;
    if targets != [] {
      var (id, next) := NextId(counters, "snap");
      var e := AddEvent(c.(snapshots := c.snapshots + [SnapshotOf(targets[0], id, c.now, "manual")]), next,
                        EventSnapshot, SeverityInfo, Ref(KindSnapshot, id));
      SnapshotAllStep(e.cat, e.counters, targets[1..]);
    }
  }

  /** The plans an accepted action marks applied: none it found otherwise, except the one restore-apply names. */
  predicate AppliedPlans(c: Catalog, d: Catalog, a: Action) {
    forall p :: p in d.restorePlans && p.status == PlanApplied ==>
      p in c.restorePlans
      || (a.kind == ActionRestoreApply && p.id == a.target.id && p.appliedSerial == c.mutationSerial + 1)
  }

  /** No counter ever goes back. */
  ghost predicate Grows(counters: Counters, next: Counters) {
    forall p :: Issued(next, p) >= Issued(counters, p)
  }

  /** The audit trail: earlier events and history stay as they were, and there is at least one more event. */
  predicate Audited(c: Catalog, d: Catalog) {
    c.events <= d.events && |c.events| < |d.events| && c.history <= d.history
  }

  /** A failing action never claims that the revision was wrong. */
  predicate NoConflict(r: Outcome) {
    r.Failed? ==> r.code != RevisionConflict
  }

  /** The common case: one step, plans untouched. */
  ghost predicate PlainStep(c: Catalog, counters: Counters, r: Outcome) {
    (r.Accepted? ==> OneStep(c, r.cat) && Audited(c, r.cat) && r.cat.restorePlans == c.restorePlans) && Grows(counters, r.counters) && NoConflict(r)
  }

  lemma AttachStep(c: Catalog, counters: Counters, a: Action)
    ensures PlainStep(c, counters, DoAttach(c, counters, a))
  {
    hide IdOf, IndexOf, FirstLive;
  }

  lemma FreezeStep(c: Catalog, counters: Counters, a: Action)
    ensures PlainStep(c, counters, DoFreeze(c, counters, a))
  {
    hide IdOf, IndexOf;
  }

  lemma SplitStep(c: Catalog, counters: Counters, a: Action)
    ensures PlainStep(c, counters, DoSplit(c, counters, a))
  {
    hide IdOf, IndexOf, HasSurface, SplitObserved;
  }

  lemma LinkStep(c: Catalog, counters: Counters, a: Action)
    ensures PlainStep(c, counters, DoLink(c, counters, a))
  {
    hide IdOf, IndexOf, RemoveID, FirstSurface;
  }

  lemma PinStep(c: Catalog, counters: Counters, a: Action)
    ensures PlainStep(c, counters, DoPin(c, counters, a))
  {
    hide IdOf, IndexOf;
  }

  lemma TouchStep(c: Catalog, counters: Counters, a: Action)
    ensures PlainStep(c, counters, DoTouch(c, counters, a))
  {
    hide IdOf, IndexOf;
  }

  lemma PruneStep(c: Catalog, counters: Counters, a: Action)
    ensures PlainStep(c, counters, DoPrune(c, counters, a))
  {
    hide IdOf, IndexOf, RemoveView;
  }

  lemma SendStep(c: Catalog, counters: Counters, a: Action)
    ensures PlainStep(c, counters, DoSend(c, counters, a))
  {
    hide IdOf, IndexOf, Blank, Echo, NextSeq;
  }

  lemma KillStep(c: Catalog, counters: Counters, a: Action)
    ensures PlainStep(c, counters, DoKill(c, counters, a))
  {
    hide IdOf, IndexOf, Detach;
  }

  /** One more event on one agent, after history may have grown. */
  lemma AgentEventStep(c: Catalog, counters: Counters, h: Outcome, i: nat, ag: Agent)
    requires h.Accepted? && h.cat == Advance(c).(history := h.cat.history) && c.history <= h.cat.history
    requires Grows(counters, h.counters) && i < |c.agents|
    ensures PlainStep(c, counters, AgentEvent(h.cat, h.counters, i, ag))
  {
    hide IdOf;
  }

  lemma AddHistoryStep(c: Catalog, counters: Counters, scope: ResourceRef, lines: seq<string>)
    ensures var r := AddHistory(c, counters, scope, lines);
            && r.Accepted? && r.cat == c.(history := r.cat.history) && c.history <= r.cat.history && Grows(counters, r.counters)
  {
    hide IdOf, NextSeq;
  }

  lemma FailedStep(c: Catalog, counters: Counters, code: ErrCode)
    requires code != RevisionConflict
    ensures PlainStep(c, counters, Failed(code, counters))
  {
  }

  lemma AgentStep(c: Catalog, counters: Counters, a: Action)
    ensures PlainStep(c, counters, DoAgent(c, counters, a))
  {
    hide IndexOf, Blank, Echo, AgentEvent, AddHistory, PlainStep;
    var i, c1 := IndexOf(AgentIds(c.agents), a.target.id), Advance(c);
    if a.target.kind == KindAgent && i >= 0 {
      var scope, lines := Ref(KindAgent, c.agents[i].id), ["prompt: " + a.value, "result: " + Echo(a.value)];
      AddHistoryStep(c1, counters, scope, lines);
      forall ag ensures PlainStep(c, counters, AgentEvent(c1, counters, i, ag)) {
        AgentEventStep(c, counters, Accepted(c1, counters), i, ag);
      }
      var h := AddHistory(c1, counters, scope, lines);
      forall ag ensures PlainStep(c, counters, AgentEvent(h.cat, h.counters, i, ag)) {
        AgentEventStep(c, counters, h, i, ag);
      }
    }
    FailedStep(c, counters, NotFound);
    FailedStep(c, counters, InvalidState);
    FailedStep(c, counters, EmptyValue);
    FailedStep(c, counters, AlreadyClaimed);
  }

  lemma ExportStep(c: Catalog, counters: Counters, a: Action)
    ensures PlainStep(c, counters, DoExport(c, counters, a))
  {
    hide IdOf, SelectedRows;
  }

  lemma SnapshotCreateStep(c: Catalog, counters: Counters, a: Action)
    ensures PlainStep(c, counters, DoSnapshotCreate(c, counters, a))
  {
    hide IdOf, IndexOf, SnapshotAll;
    SnapshotAllStep(Advance(c), counters, c.workspaces);
    var k := IndexOf(WorkspaceIds(c.workspaces), if a.value == "" && a.target.kind == KindWorkspace then a.target.id else a.value);
    if k >= 0 { SnapshotAllStep(Advance(c), counters, [c.workspaces[k]]); }
  }

  lemma SnapshotTagStep(c: Catalog, counters: Counters, a: Action)
    ensures PlainStep(c, counters, DoSnapshotTag(c, counters, a))
  {
    hide IdOf, IndexOf, Blank;
  }

  lemma BackendCheckStep(c: Catalog, counters: Counters, a: Action)
    ensures PlainStep(c, counters, DoBackendCheck(c, counters, a))
  {
    hide IdOf, IndexOf;
  }

  lemma BackendToggleStep(c: Catalog, counters: Counters, a: Action)
    ensures PlainStep(c, counters, DoBackendToggle(c, counters, a))
  {
    hide IdOf, IndexOf;
  }

  lemma MachineStep(c: Catalog, counters: Counters, a: Action)
    ensures PlainStep(c, counters, DoMachine(c, counters, a))
  {
    hide IdOf, IndexOf;
  }

  lemma PerfStep(c: Catalog, counters: Counters, a: Action)
    ensures PlainStep(c, counters, DoPerf(c, counters, a))
  {
    hide IdOf, Tail;
  }

  lemma ConfigStep(c: Catalog, counters: Counters, a: Action)
    ensures PlainStep(c, counters, DoConfig(c, counters, a))
  {
    hide IdOf, ConfigOk, Blank;
  }

  lemma SnapshotDeleteStep(c: Catalog, counters: Counters, a: Action)
    ensures var r := DoSnapshotDelete(c, counters, a);
            (r.Accepted? ==> OneStep(c, r.cat) && Audited(c, r.cat) && AppliedPlans(c, r.cat, a)) && Grows(counters, r.counters) && NoConflict(r)
  {
    hide IndexOf, IdOf, RemoveSnapshot, DropPlans;
    var i := IndexOf(SnapshotIds(c.snapshots), a.target.id);
    if i >= 0 { DropPlansSpec(c.restorePlans, c.snapshots[i].id); }
  }

  lemma SnapshotPlanStep(c: Catalog, counters: Counters, a: Action)
    ensures var r := DoSnapshotPlan(c, counters, a);
            (r.Accepted? ==> OneStep(c, r.cat) && Audited(c, r.cat) && AppliedPlans(c, r.cat, a)) && Grows(counters, r.counters) && NoConflict(r)
  {
    hide IndexOf, IdOf, BuildOps;
  }

  lemma {:induction false} FreezeAllStep(c: Catalog, counters: Counters, w: Workspace, ops: seq<RestoreOp>)
    ensures var (d, next, undo) := FreezeAll(c, counters, w, ops);
            d == c.(snapshots := d.snapshots) && Grows(counters, next)
    decreases |ops|
  {
    hide SnapshotOf, IdOf;
    if ops != [] {
      var (id, next) := NextId(counters, "snap");
      FreezeAllStep(c.(snapshots := c.snapshots + [SnapshotOf(w, id, c.now, "reconcile-freeze")]), next, w, ops[1..]);
    }
  }

  lemma FinishStep(c: Catalog, counters: Counters, j: nat, k: nat, w: Workspace, mode: RestoreMode, selection: seq<string>, undo: seq<RestoreOp>)
    requires j < |c.restorePlans| && k < |c.workspaces|
    ensures var r := FinishApply(c, counters, j, k, w, mode, selection, undo);
            && r.Accepted? && r.cat.revision == c.revision && r.cat.now == c.now
            && r.cat.mutationSerial == c.mutationSerial && r.cat.scenario == c.scenario
            && forall p :: p in r.cat.restorePlans ==>
                 p in c.restorePlans || (p.id == c.restorePlans[j].id && p.appliedSerial == c.mutationSerial + 1)
    ensures Audited(c, FinishApply(c, counters, j, k, w, mode, selection, undo).cat)
    ensures Grows(counters, FinishApply(c, counters, j, k, w, mode, selection, undo).counters)
  {
    hide IdOf, ReconcileStatus, MarkOps;
  }

  lemma RestoreApplyStep(c: Catalog, counters: Counters, a: Action)
    requires a.kind == ActionRestoreApply
    ensures var r := DoRestoreApply(c, counters, a);
            (r.Accepted? ==> OneStep(c, r.cat) && Audited(c, r.cat) && AppliedPlans(c, r.cat, a)) && Grows(counters, r.counters) && NoConflict(r)
  {
    hide IndexOf, ChosenOps, FreezeAll, ApplyOps, UndoRecords, MarkOps, ReconcileStatus, NextId;
    if DoRestoreApply(c, counters, a).Accepted? { AppliedStep(c, counters, a); }
  }

  lemma AppliedStep(c: Catalog, counters: Counters, a: Action)
    requires DoRestoreApply(c, counters, a).Accepted? && a.kind == ActionRestoreApply
    ensures OneStep(c, DoRestoreApply(c, counters, a).cat)
    ensures AppliedPlans(c, DoRestoreApply(c, counters, a).cat, a)
    ensures Audited(c, DoRestoreApply(c, counters, a).cat)
    ensures Grows(counters, DoRestoreApply(c, counters, a).counters)
  {
    hide IndexOf, ChosenOps, FreezeAll, FinishApply, ApplyOps, UndoRecords, Issued;
    var j := IndexOf(PlanIds(c.restorePlans), a.target.id);
    var p, mode := c.restorePlans[j], ModeOf(a.value);
    var k := IndexOf(WorkspaceIds(c.workspaces), p.workspaceID);
    var ops, c1, w := ChosenOps(p.ops, mode, a.selection), Advance(c), c.workspaces[k];
    if mode == RestoreFreeze {
      FreezeAllStep(c1, counters, w, ops);
      var (c2, next, undo) := FreezeAll(c1, counters, w, ops);
      FinishStep(c2, next, j, k, w, mode, a.selection, undo);
    } else {
      var state := ApplyOps(Side(w, mode), ops).state;
      FinishStep(c1, counters, j, k, WithSide(w, mode, state), mode, a.selection, UndoRecords(ops));
    }
  }

  lemma UndoActionStep(c: Catalog, counters: Counters, a: Action)
    ensures var r := DoUndo(c, counters, a);
            (r.Accepted? ==> OneStep(c, r.cat) && Audited(c, r.cat) && AppliedPlans(c, r.cat, a)) && Grows(counters, r.counters) && NoConflict(r)
  {
    hide IndexOf, LatestApplied, UndoAll, IdOf, ReconcileStatus;
  }

  lemma AcceptedStep(c: Catalog, counters: Counters, a: Action)
    ensures var r := Apply(c, counters, a);
            (r.Accepted? ==> OneStep(c, r.cat) && Audited(c, r.cat) && AppliedPlans(c, r.cat, a)) && Grows(counters, r.counters) && NoConflict(r)
  {
    hide OneStep, Audited, Issued, DoPin, DoTouch, DoPrune, DoSend, DoKill, DoAgent, DoExport, DoSnapshotCreate, DoSnapshotTag, DoSnapshotDelete,
         DoSnapshotPlan, DoBackendCheck, DoBackendToggle, DoMachine, DoPerf, DoConfig, DoAttach, DoFreeze, DoSplit, DoLink, DoRestoreApply, DoUndo;
    match a.kind
    case ActionAttach => AttachStep(c, counters, a);
    case ActionFreeze => FreezeStep(c, counters, a);
    case ActionSplit => SplitStep(c, counters, a);
    case ActionLink => LinkStep(c, counters, a);
    case ActionPin => PinStep(c, counters, a);
    case ActionUnpin => PinStep(c, counters, a);
    case ActionTouch => TouchStep(c, counters, a);
    case ActionPrune => PruneStep(c, counters, a);
    case ActionSend => SendStep(c, counters, a);
    case ActionKill => KillStep(c, counters, a);
    case ActionAgentFocus => AgentStep(c, counters, a);
    case ActionAgentPrompt => AgentStep(c, counters, a);
    case ActionAgentWait => AgentStep(c, counters, a);
    case ActionAgentClaim => AgentStep(c, counters, a);
    case ActionHistoryExport => ExportStep(c, counters, a);
    case ActionSnapshotCreate => SnapshotCreateStep(c, counters, a);
    case ActionSnapshotTag => SnapshotTagStep(c, counters, a);
    case ActionSnapshotDelete => SnapshotDeleteStep(c, counters, a);
    case ActionSnapshotPlan => SnapshotPlanStep(c, counters, a);
    case ActionRestoreApply => RestoreApplyStep(c, counters, a);
    case ActionReconcileUndo => UndoActionStep(c, counters, a);
    case ActionBackendProbe => BackendCheckStep(c, counters, a);
    case ActionBackendDoctor => BackendCheckStep(c, counters, a);
    case ActionBackendToggle => BackendToggleStep(c, counters, a);
    case ActionMachineConnect => MachineStep(c, counters, a);
    case ActionMachinePing => MachineStep(c, counters, a);
    case ActionMachineDoctor => MachineStep(c, counters, a);
    case ActionPerfRecord => PerfStep(c, counters, a);
    case ActionPerfBenchmark => PerfStep(c, counters, a);
    case ActionConfigValidate => ConfigStep(c, counters, a);
    case ActionConfigSave => ConfigStep(c, counters, a);
    case ActionConfigReload => ConfigStep(c, counters, a);
    case ActionOther(_) =>
  }

  // ---- runs -------------------------------------------------------------------------------------

  datatype Call = Do(action: Action) | TickAt(revision: nat)

  function Expected(call: Call): nat { if call.Do? then call.action.expectedRevision else call.revision }

  function Step(s: State, call: Call): (State, Reply) {
    match call
    case Do(a) => Exec(s, a)
    case TickAt(revision) => TickStep(s, revision)
  }

  function Run(s: State, calls: seq<Call>): (State, seq<Reply>)
    ensures |Run(s, calls).1| == |calls|
    decreases |calls|
  {
    if calls == [] then (s, [])
    else
      var (t, r) := Step(s, calls[0]);
      var (u, rs) := Run(t, calls[1..]);
      (u, [r] + rs)
  }

  /** How many replies are acceptances; of user actions only, if asked. */
  function Acceptances(rs: seq<Reply>, actionsOnly: bool): nat {
    if rs == [] then 0
    else (if rs[0].Done? && !(actionsOnly && rs[0].isTick) then 1 else 0) + Acceptances(rs[1..], actionsOnly)
  }

  /** What one call does to revision, clock and serial, and what it replies. */
  lemma StepClock(s: State, call: Call)
    requires s.cat.Some?
    ensures var (t, r) := Step(s, call);
            && t.cat.Some?
            && (r.Rejected? ==> t.cat == s.cat)
            && (r.Done? ==>
                  && Expected(call) == s.cat.value.revision == r.base && r.next == r.base + 1 && r.cat == t.cat.value
                  && t.cat.value.revision == r.next && t.cat.value.now == s.cat.value.now + 1
                  && (r.isTick <==> call.TickAt?)
                  && t.cat.value.mutationSerial == s.cat.value.mutationSerial + (if r.isTick then 0 else 1)
                  && t.cat.value.scenario == s.cat.value.scenario
                  && s.cat.value.events <= t.cat.value.events && s.cat.value.history <= t.cat.value.history
                  && (!r.isTick ==> |s.cat.value.events| < |t.cat.value.events|))
  {
    hide ValidCatalog, Apply, Beat, Sample, Tail, TickAgent;
    if call.Do? {
      var o := Apply(s.cat.value, s.counters, call.action);
      AcceptedStep(s.cat.value, s.counters, call.action);
    } else {
      TickClock(s.cat.value, s.counters, s.ticks + 1);
    }
  }

  lemma TickClock(c: Catalog, counters: Counters, n: nat)
    ensures var r := DoTick(c, counters, n);
            && r.Accepted? && OneStep(c, r.cat) && r.cat.restorePlans == c.restorePlans
            && r.cat.workspaces == c.workspaces && r.cat.snapshots == c.snapshots && Grows(counters, r.counters)
            && c.events <= r.cat.events && c.history == r.cat.history
  {
    hide Beat, Sample, Tail, FirstRunning, IdOf;
  }

  /**
   * Over any run revision and clock advance by the number of accepted calls, the serial by the
   * number of accepted actions.
   */
  lemma {:induction false} RevisionContract(s: State, calls: seq<Call>)
    requires s.cat.Some?
    ensures var (t, rs) := Run(s, calls);
            && t.cat.Some?
            && t.cat.value.revision == s.cat.value.revision + Acceptances(rs, false)
            && t.cat.value.now == s.cat.value.now + Acceptances(rs, false)
            && t.cat.value.mutationSerial == s.cat.value.mutationSerial + Acceptances(rs, true)
    decreases |calls|
  {
    hide Step;
    if calls != [] {
      StepClock(s, calls[0]);
      RevisionContract(Step(s, calls[0]).0, calls[1..]);
    }
  }

  /**
   * Over any run events and history are only ever added to, never changed or lost, and there is at least
   * one new event for every accepted action.
   */
  lemma {:induction false} AuditTrail(s: State, calls: seq<Call>)
    requires s.cat.Some?
    ensures var (t, rs) := Run(s, calls);
            && t.cat.Some?
            && s.cat.value.events <= t.cat.value.events && s.cat.value.history <= t.cat.value.history
            && |t.cat.value.events| >= |s.cat.value.events| + Acceptances(rs, true)
    decreases |calls|
  {
    hide Step;
    if calls != [] {
      StepClock(s, calls[0]);
      AuditTrail(Step(s, calls[0]).0, calls[1..]);
    }
  }

  /** The reply at position `i` is the reply to that call in the state the run has then reached. */
  lemma {:induction false} RunAt(s: State, calls: seq<Call>, i: nat)
    requires i < |calls|
    ensures Run(s, calls).1[i] == Step(Run(s, calls[..i]).0, calls[i]).1
    decreases |calls|
  {
    hide Step;
    if i > 0 {
      assert calls[..i][1..] == calls[1..][..i - 1];
      RunAt(Step(s, calls[0]).0, calls[1..], i - 1);
    }
  }

  lemma {:induction false} AcceptancesGrow(rs: seq<Reply>, i: nat, j: nat)
    requires i < j <= |rs| && rs[i].Done?
    ensures Acceptances(rs[..i], false) < Acceptances(rs[..j], false)
    decreases |rs|
  {
    assert rs[..j][1..] == rs[1..][..j - 1];
    if i > 0 {
      assert rs[..i][1..] == rs[1..][..i - 1];
      AcceptancesGrow(rs[1..], i - 1, j - 1);
    }
  }

  lemma {:induction false} RunPrefix(s: State, calls: seq<Call>, i: nat)
    requires i <= |calls|
    ensures Run(s, calls[..i]).1 == Run(s, calls).1[..i]
    decreases |calls|
  {
    hide Step;
    if i > 0 {
      assert calls[..i][1..] == calls[1..][..i - 1];
      RunPrefix(Step(s, calls[0]).0, calls[1..], i - 1);
    }
  }

  /** However many callers race, at most one call is accepted for each expected revision. */
  lemma OnePerRevision(s: State, calls: seq<Call>, i: nat, j: nat)
    requires s.cat.Some? && i < j < |calls|
    requires Run(s, calls).1[i].Done? && Run(s, calls).1[j].Done?
    ensures Expected(calls[i]) < Expected(calls[j])
  {
    hide Step, Acceptances;
    var rs := Run(s, calls).1;
    forall k | k == i || k == j
      ensures 0 <= k < |calls| && Expected(calls[k]) == s.cat.value.revision + Acceptances(rs[..k], false)
    {
      RunAt(s, calls, k);
      RevisionContract(s, calls[..k]);
      RunPrefix(s, calls, k);
      StepClock(Run(s, calls[..k]).0, calls[k]);
    }
    AcceptancesGrow(rs, i, j);
  }

  // ---- soundness of every reachable state -------------------------------------------------------

  ghost predicate SoundState(s: State) {
    s.cat.Some? && Sound(s.cat.value, s.counters)
  }

  lemma SerialIrrelevant(c: Catalog, counters: Counters, n: nat)
    ensures ValidCatalog(c.(mutationSerial := n)) <==> ValidCatalog(c)
    ensures Dominates(counters, c.(mutationSerial := n)) <==> Dominates(counters, c)
  {
    hide Unissued, IdsOk, BackendsOk, WorkspacesOk, SnapshotsOk, TerminalsOk, AgentsOk, HistoryOk, EventsOk, PlansOk, MachinesOk, ConfigOk, ViewsOk;
  }

  lemma GrowsAhead(c: Catalog, counters: Counters, next: Counters)
    requires Dominates(counters, c) && Grows(counters, next)
    ensures Dominates(next, c)
  {
    hide Issued, IdOf;
  }

  lemma StepSound(s: State, call: Call)
    requires SoundState(s)
    ensures SoundState(Step(s, call).0)
    ensures call.TickAt? ==> (Step(s, call).1.Done? <==> call.revision == s.cat.value.revision)
    ensures call.Do? && NeverGated(call.action.kind) ==>
              (Step(s, call).1.Done? <==> Expected(call) == s.cat.value.revision && Apply(s.cat.value, s.counters, call.action).Accepted?)
  {
    hide ValidCatalog, Dominates, Apply, DoTick;
    var c := s.cat.value;
    if call.Do? {
      var o := Apply(c, s.counters, call.action);
      ApplyAhead(c, s.counters, call.action);
      AcceptedStep(c, s.counters, call.action);
      GrowsAhead(c, s.counters, o.counters);
      if o.Accepted? { SerialIrrelevant(o.cat, o.counters, o.cat.mutationSerial + 1); }
      if NeverGated(call.action.kind) { GateNeverFires(c, s.counters, call.action); }
    } else {
      TickNeverGated(c, s.counters, s.ticks + 1);
    }
  }

  /** From a sound state every reachable catalog is valid and no terminal, history, event, snapshot or plan identifier still to come is taken. */
  lemma {:induction false} RunSound(s: State, calls: seq<Call>)
    requires SoundState(s)
    ensures SoundState(Run(s, calls).0)
    decreases |calls|
  {
    hide Step, SoundState;
    if calls != [] {
      StepSound(s, calls[0]);
      RunSound(Step(s, calls[0]).0, calls[1..]);
    }
  }

  // ---- undo safety --------------------------------------------------------------------------------

  /** The action of the last accepted Execute, if there was one. */
  function LastExecuted(s: State, calls: seq<Call>, before: Option<Action>): Option<Action>
    decreases |calls|
  {
    if calls == [] then before
    else
      var (t, r) := Step(s, calls[0]);
      LastExecuted(t, calls[1..], if calls[0].Do? && r.Done? then Some(calls[0].action) else before)
  }

  predicate Applies(a: Option<Action>, plan: string) {
    a.Some? && a.value.kind == ActionRestoreApply && a.value.target.id == plan
  }

  /** An applied plan carries an earlier serial, or the current one if applying it was the last accepted action. */
  predicate Claims(s: State, last: Option<Action>) {
    s.cat.Some? && forall p :: p in s.cat.value.restorePlans && p.status == PlanApplied ==>
      p.appliedSerial < s.cat.value.mutationSerial || (p.appliedSerial == s.cat.value.mutationSerial && Applies(last, p.id))
  }

  lemma StepClaims(s: State, call: Call, last: Option<Action>)
    requires Claims(s, last)
    ensures var (t, r) := Step(s, call);
            Claims(t, if call.Do? && r.Done? then Some(call.action) else last)
  {
    hide ValidCatalog, Apply, DoTick;
    StepClock(s, call);
    if call.Do? {
      var o := Apply(s.cat.value, s.counters, call.action);
      AcceptedStep(s.cat.value, s.counters, call.action);
    } else {
      TickClock(s.cat.value, s.counters, s.ticks + 1);
    }
  }

  lemma {:induction false} RunClaims(s: State, calls: seq<Call>, last: Option<Action>)
    requires Claims(s, last)
    ensures Claims(Run(s, calls).0, LastExecuted(s, calls, last))
    decreases |calls|
  {
    hide Step, Claims;
    if calls != [] {
      StepClaims(s, calls[0], last);
      var (t, r) := Step(s, calls[0]);
      RunClaims(t, calls[1..], if calls[0].Do? && r.Done? then Some(calls[0].action) else last);
    }
  }

  /**
   * Whenever an undo succeeds, the last accepted action was applying that very plan, whatever
   * ticks and rejected calls came in between.
   */
  lemma UndoSafety(s: State, calls: seq<Call>, a: Action)
    requires Claims(s, None) && a.kind == ActionReconcileUndo
    requires Exec(Run(s, calls).0, a).1.Done?
    ensures var t := Run(s, calls).0;
            && t.cat.Some? && LatestApplied(t.cat.value.restorePlans) >= 0
            && var p := t.cat.value.restorePlans[LatestApplied(t.cat.value.restorePlans)];
            && Applies(LastExecuted(s, calls, None), p.id)
            && (a.target.id == "" || a.target.id == p.id)
            && p.(status := PlanUndone, undoneAt := t.cat.value.now + 1) in Exec(t, a).0.cat.value.restorePlans
  {
    hide ValidCatalog, LatestApplied, LastExecuted, DoUndo, Run, Claims;
    RunClaims(s, calls, None);
    var t := Run(s, calls).0;
    ClaimedBy(t, LastExecuted(s, calls, None));
    UndoAccepted(t.cat.value, t.counters, a);
    assert t.cat.value.restorePlans[LatestApplied(t.cat.value.restorePlans)] in t.cat.value.restorePlans;
  }

  lemma ClaimedBy(s: State, last: Option<Action>)
    requires Claims(s, last)
    ensures s.cat.Some? && forall p :: p in s.cat.value.restorePlans && p.status == PlanApplied ==>
              p.appliedSerial < s.cat.value.mutationSerial || Applies(last, p.id)
  {
  }

  /** What an accepted undo has checked, and what it makes of the plan. */
  lemma UndoAccepted(c: Catalog, counters: Counters, a: Action)
    requires DoUndo(c, counters, a).Accepted?
    ensures var j := LatestApplied(c.restorePlans);
            && j >= 0 && c.restorePlans[j].status == PlanApplied && c.restorePlans[j].appliedSerial == c.mutationSerial
            && (a.target.id == "" || a.target.id == c.restorePlans[j].id)
            && c.restorePlans[j].(status := PlanUndone, undoneAt := c.now + 1) in DoUndo(c, counters, a).cat.restorePlans
  {
    hide LatestApplied, UndoAll, ReconcileStatus, IndexOf, NextId;
    var j := LatestApplied(c.restorePlans);
    assert DoUndo(c, counters, a).cat.restorePlans[j] == c.restorePlans[j].(status := PlanUndone, undoneAt := c.now + 1);
  }

  // ---- identifiers and the start of a run -------------------------------------------------------------

  lemma StepGrows(s: State, call: Call)
    ensures Grows(s.counters, Step(s, call).0.counters)
  {
    hide ValidCatalog, Apply, DoTick, Issued;
    if s.cat.Some? {
      match call
      case Do(a) => AcceptedStep(s.cat.value, s.counters, a);
      case TickAt(_) => TickClock(s.cat.value, s.counters, s.ticks + 1);
    }
  }

  /** Over any run, also one full of failures, no identifier is issued a second time. */
  lemma {:induction false} NeverReissued(s: State, calls: seq<Call>, prefix: string, n: nat)
    requires n <= Issued(s.counters, prefix)
    ensures n <= Issued(Run(s, calls).0.counters, prefix)
    ensures NextId(Run(s, calls).0.counters, prefix).0 != IdOf(prefix, n)
    decreases |calls|
  {
    hide Step, Issued, IdOf;
    if calls != [] {
      StepGrows(s, calls[0]);
      NeverReissued(Step(s, calls[0]).0, calls[1..], prefix, n);
    } else if NextId(s.counters, prefix).0 == IdOf(prefix, n) {
      IdOfInjective(prefix, Issued(s.counters, prefix) + 1, n);
    }
  }

  /** A valid fixture without applied plans is where every run may start. */
  lemma LoadedSound(c: Catalog)
    requires ValidCatalog(c) && forall i :: 0 <= i < |c.restorePlans| ==> c.restorePlans[i].status != PlanApplied
    ensures SoundState(State(Some(c), Primed(map[], NumberedIds(c)), 0))
    ensures Claims(State(Some(c), Primed(map[], NumberedIds(c)), 0), None)
  {
    hide ValidCatalog, Primed, NumberedIds, Dominates;
    PrimedDominates(c);
  }
}
