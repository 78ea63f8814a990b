/**
 * The actions and the tick whose transitions always pass the validation gate.
 * (tmh-next/internal/mock/backend.go)
 */
module GateSafe {
  import opened Text
  import opened Topology
  import opened Domain
  import opened Plan
  import opened Validation
  import opened Transitions
  import opened Gate

  /** Accepted outcomes are sound, and a failure leaves the counters ahead of the old catalog. */
  ghost predicate SoundOutcome(r: Outcome, c: Catalog) {
    match r
    case Accepted(cat, counters) => Sound(cat, counters)
    case Failed(_, counters) => Sound(c, counters)
  }

  lemma AdvanceSound(c: Catalog, counters: Counters)
    requires Sound(c, counters)
    ensures Sound(Advance(c), counters)
  {
    hide IdsOk, Unissued, BackendsOk, WorkspacesOk, SnapshotsOk, TerminalsOk, AgentsOk, HistoryOk, EventsOk, PlansOk, MachinesOk, ConfigOk, ViewsOk;
  }

  lemma PinSound(c: Catalog, counters: Counters, a: Action)
    requires Sound(c, counters)
    ensures SoundOutcome(DoPin(c, counters, a), c)
  {
    hide IndexOf, Dominates, AddEvent;
    var i := IndexOf(ViewIds(c.activeViews), a.target.id);
    if a.target.kind == KindActive && i >= 0 && c.activeViews[i].pinned != (a.kind == ActionPin) {
      var v := if a.kind == ActionPin then c.activeViews[i].(pinned := true, kind := ActivePinned, ttlSeconds := 0)
               else c.activeViews[i].(pinned := false, kind := ActiveRecent, ttlSeconds := 900);
      AdvanceSound(c, counters);
      assert ViewOk(c.activeViews[i], WorkspaceIds(c.workspaces));
      hide ValidCatalog;
      ViewEditSound(Advance(c), counters, i, v);
      AddEventSound(Advance(c).(activeViews := c.activeViews[i := v]), counters, EventWorkspace, SeverityInfo, Ref(KindActive, v.id));
    }
  }

  lemma TouchSound(c: Catalog, counters: Counters, a: Action)
    requires Sound(c, counters)
    ensures SoundOutcome(DoTouch(c, counters, a), c)
  {
    hide IndexOf, Dominates, AddEvent;
    var i := IndexOf(ViewIds(c.activeViews), a.target.id);
    if a.target.kind == KindActive && i >= 0 {
      var v := c.activeViews[i].(lastUsed := c.now + 1);
      AdvanceSound(c, counters);
      assert ViewOk(c.activeViews[i], WorkspaceIds(c.workspaces));
      hide ValidCatalog;
      ViewEditSound(Advance(c), counters, i, v);
      AddEventSound(Advance(c).(activeViews := c.activeViews[i := v]), counters, EventWorkspace, SeverityInfo, Ref(KindActive, v.id));
    }
  }

  lemma PruneSound(c: Catalog, counters: Counters, a: Action)
    requires Sound(c, counters)
    ensures SoundOutcome(DoPrune(c, counters, a), c)
  {
    hide IndexOf, Dominates, AddEvent, ValidCatalog;
    var i := IndexOf(ViewIds(c.activeViews), a.target.id);
    if i >= 0 {
      var id := c.activeViews[i].id;
      AdvanceSound(c, counters);
      RemoveViewSound(Advance(c), counters, id);
      AddEventSound(Advance(c).(activeViews := RemoveView(c.activeViews, id)), counters, EventWorkspace, SeverityInfo, Ref(KindActive, id));
    }
  }

  lemma SendSound(c: Catalog, counters: Counters, a: Action)
    requires Sound(c, counters)
    ensures SoundOutcome(DoSend(c, counters, a), c)
  {
    hide IndexOf, Dominates, AddEvent, ValidCatalog, Echo, Blank;
    var i := IndexOf(TerminalIds(c.terminals), a.target.id);
    if i >= 0 {
      var c1 := Advance(c);
      var t := c.terminals[i].(lastIO := c1.now);
      var c2 := c1.(terminals := c.terminals[i := t]);
      AdvanceSound(c, counters);
      TerminalEditSound(c1, counters, i, t);
      assert TerminalIds(c2.terminals)[i] == t.id;
      var lines := ["$ " + a.value, "(" + t.process + ") " + Echo(a.value)];
      AddHistorySound(c2, counters, Ref(KindTerminal, t.id), lines);
      var h := AddHistory(c2, counters, Ref(KindTerminal, t.id), lines);
      AddEventSound(h.cat, h.counters, EventTerminal, SeverityInfo, Ref(KindTerminal, t.id));
    }
  }

  lemma KillActionSound(c: Catalog, counters: Counters, a: Action)
    requires Sound(c, counters)
    ensures SoundOutcome(DoKill(c, counters, a), c)
  {
    hide IndexOf, Dominates, AddEvent, ValidCatalog, Detach;
    var i := IndexOf(TerminalIds(c.terminals), a.target.id);
    if i >= 0 {
      var t := c.terminals[i].(state := TerminalExited);
      AdvanceSound(c, counters);
      KillSound(Advance(c), counters, i);
      AddEventSound(Advance(c).(terminals := c.terminals[i := t], agents := Detach(c.agents, t.id)), counters,
                    EventTerminal, SeverityWarn, Ref(KindTerminal, t.id));
    }
  }

  lemma AgentEventSound(c: Catalog, counters: Counters, i: nat, ag: Agent)
    requires Sound(c, counters) && i < |c.agents|
    requires ag.id == c.agents[i].id && ag.workspaceID == c.agents[i].workspaceID && ag.terminalID == c.agents[i].terminalID
    requires AgentOk(ag)
    ensures var r := AgentEvent(c, counters, i, ag); r.Accepted? && Sound(r.cat, r.counters)
  {
    hide Dominates, AddEvent, ValidCatalog, AgentOk;
    AgentEditSound(c, counters, i, ag);
    AddEventSound(c.(agents := c.agents[i := ag]), counters, EventAgent, SeverityInfo, Ref(KindAgent, ag.id));
  }

  lemma AgentActionSound(c: Catalog, counters: Counters, a: Action)
    requires Sound(c, counters)
    ensures SoundOutcome(DoAgent(c, counters, a), c)
  {
    hide IndexOf, Dominates, AddEvent, AddHistory, AgentEvent, ValidCatalog, Echo, Blank;
    var i := IndexOf(AgentIds(c.agents), a.target.id);
    if i >= 0 {
      var ag, c1 := c.agents[i], Advance(c);
      AdvanceSound(c, counters);
      AgentsAreOk(c, i);
      match a.kind
      case ActionAgentFocus => AgentEventSound(c1, counters, i, ag.(lastUsed := c1.now, lastFocused := c1.now));
      case ActionAgentPrompt =>
        var ag1 := ag.(state := AgentRunning, prompt := a.value, lastUsed := c1.now,
                       timeline := ag.timeline + [AgentEntry(c1.now, "prompt", a.value), AgentEntry(c1.now, "result", Echo(a.value))]);
        if ag.terminalID == "" {
          AgentEventSound(c1, counters, i, ag1);
        } else {
          assert AgentIds(c1.agents)[i] == ag.id;
          PromptSound(c1, counters, i, ag1, ["prompt: " + a.value, "result: " + Echo(a.value)]);
        }
      case ActionAgentWait => AgentEventSound(c1, counters, i, ag.(state := AgentWaiting));
      case _ => AgentEventSound(c1, counters, i, ag.(claimedBy := "demo-operator"));
    }
  }

  lemma AgentsAreOk(c: Catalog, i: nat)
    requires ValidCatalog(c) && i < |c.agents|
    ensures AgentOk(c.agents[i])
  {
    hide AllIdsOk, BackendsOk, WorkspacesOk, SnapshotsOk, TerminalsOk, ViewsOk, HistoryOk, EventsOk, PlansOk, MachinesOk, ConfigOk;
  }

  lemma PromptSound(c: Catalog, counters: Counters, i: nat, ag: Agent, lines: seq<string>)
    requires Sound(c, counters) && i < |c.agents|
    requires ag.id == c.agents[i].id && ag.workspaceID == c.agents[i].workspaceID && ag.terminalID == c.agents[i].terminalID
    requires AgentOk(ag) && ag.id in AgentIds(c.agents)
    ensures var h := AddHistory(c, counters, Ref(KindAgent, ag.id), lines);
            h.Accepted? && h.cat.agents == c.agents
            && var r := AgentEvent(h.cat, h.counters, i, ag); r.Accepted? && Sound(r.cat, r.counters)
  {
    hide Dominates, ValidCatalog, AgentOk, AgentEvent;
    AddHistorySound(c, counters, Ref(KindAgent, ag.id), lines);
    var h := AddHistory(c, counters, Ref(KindAgent, ag.id), lines);
    AgentEventSound(h.cat, h.counters, i, ag);
  }

  lemma ExportSound(c: Catalog, counters: Counters, a: Action)
    requires Sound(c, counters)
    ensures SoundOutcome(DoExport(c, counters, a), c)
  {
    hide Dominates, AddEvent, AllIdsOk, BackendsOk, WorkspacesOk, SnapshotsOk, TerminalsOk, AgentsOk, HistoryOk, EventsOk, PlansOk, MachinesOk, ConfigOk, ViewsOk, SelectedRows;
    var rows := SelectedRows(c.history, a.selection);
    var c1 := Advance(c);
    var scopes := set i | 0 <= i < |c.history| && c.history[i].id in a.selection :: c.history[i].scope;
    ExportNoted(c, counters, Some(ExportDescriptor(c1.now, rows, scopes, c1.revision)));
    AddEventSound(c1.(lastExport := Some(ExportDescriptor(c1.now, rows, scopes, c1.revision))), counters,
                  EventSystem, SeverityInfo, Ref(KindHistory, "history"));
  }

  lemma ExportNoted(c: Catalog, counters: Counters, e: Option<ExportDescriptor>)
    requires Sound(c, counters)
    ensures Sound(Advance(c).(lastExport := e), counters)
  {
    hide Unissued, IdsOk, BackendsOk, WorkspacesOk, SnapshotsOk, TerminalsOk, AgentsOk, HistoryOk, EventsOk, PlansOk, MachinesOk, ConfigOk, ViewsOk;
  }

  lemma {:induction false} SnapshotAllSound(c: Catalog, counters: Counters, targets: seq<Workspace>)
    requires Sound(c, counters) && forall i :: 0 <= i < |targets| ==> targets[i] in c.workspaces
    ensures var r := SnapshotAll(c, counters, targets); r.Accepted? && Sound(r.cat, r.counters)
    decreases |targets|
  {
    hide Dominates, ValidCatalog, SnapshotOf, NextId;
    if targets != [] {
      var (id, next) := NextId(counters, "snap");
      var k :| 0 <= k < |c.workspaces| && c.workspaces[k] == targets[0];
      SnapshotAppendSound(c, counters, k, "manual");
      var c1 := c.(snapshots := c.snapshots + [SnapshotOf(targets[0], id, c.now, "manual")]);
      AddEventSound(c1, next, EventSnapshot, SeverityInfo, Ref(KindSnapshot, id));
      var e := AddEvent(c1, next, EventSnapshot, SeverityInfo, Ref(KindSnapshot, id));
      SnapshotAllSound(e.cat, e.counters, targets[1..]);
    }
  }

  lemma SnapshotCreateSound(c: Catalog, counters: Counters, a: Action)
    requires Sound(c, counters)
    ensures SoundOutcome(DoSnapshotCreate(c, counters, a), c)
  {
    hide Dominates, ValidCatalog, SnapshotAll, IndexOf;
    AdvanceSound(c, counters);
    if a.value == "all" {
      SnapshotAllSound(Advance(c), counters, c.workspaces);
    } else {
      var id := if a.value == "" && a.target.kind == KindWorkspace then a.target.id else a.value;
      var k := IndexOf(WorkspaceIds(c.workspaces), id);
      if k >= 0 { SnapshotAllSound(Advance(c), counters, [c.workspaces[k]]); }
    }
  }

  lemma SnapshotTagSound(c: Catalog, counters: Counters, a: Action)
    requires Sound(c, counters)
    ensures SoundOutcome(DoSnapshotTag(c, counters, a), c)
  {
    hide IndexOf, Dominates, AddEvent, ValidCatalog, Blank;
    var i := IndexOf(SnapshotIds(c.snapshots), a.target.id);
    if i >= 0 {
      var s := c.snapshots[i];
      var s1 := if a.value in s.tags then s else s.(tags := s.tags + [a.value]);
      AdvanceSound(c, counters);
      SnapshotEditSound(Advance(c), counters, i, s1);
      AddEventSound(Advance(c).(snapshots := c.snapshots[i := s1]), counters, EventSnapshot, SeverityInfo, Ref(KindSnapshot, s.id));
    }
  }

  lemma SnapshotDeleteSound(c: Catalog, counters: Counters, a: Action)
    requires Sound(c, counters)
    ensures SoundOutcome(DoSnapshotDelete(c, counters, a), c)
  {
    hide IndexOf, Dominates, AddEvent, ValidCatalog, RemoveSnapshot, DropPlans;
    var i := IndexOf(SnapshotIds(c.snapshots), a.target.id);
    if i >= 0 {
      var id := c.snapshots[i].id;
      AdvanceSound(c, counters);
      DeleteSound(Advance(c), counters, id);
      AddEventSound(Advance(c).(snapshots := RemoveSnapshot(c.snapshots, id), restorePlans := DropPlans(c.restorePlans, id)), counters,
                    EventSnapshot, SeverityWarn, Ref(KindSnapshot, id));
    }
  }

  lemma SnapshotPlanSound(c: Catalog, counters: Counters, a: Action)
    requires Sound(c, counters)
    ensures SoundOutcome(DoSnapshotPlan(c, counters, a), c)
  {
    hide IndexOf, Dominates, AddEvent, ValidCatalog, BuildOps, NextId;
    var i := IndexOf(SnapshotIds(c.snapshots), a.target.id);
    if i >= 0 {
      var s := c.snapshots[i];
      var k := IndexOf(WorkspaceIds(c.workspaces), s.workspaceID);
      if k >= 0 {
        var c1, w := Advance(c), c.workspaces[k];
        var (id, next) := NextId(counters, "plan");
        var p := RestorePlan(id, s.id, w.id, PlanPending, c1.now, BuildOps(w, s.state), 0, 0, 0, []);
        AdvanceSound(c, counters);
        PlanAppendSound(c1, counters, i, k);
        AddEventSound(c1.(restorePlans := c.restorePlans + [p]), next, EventRestore, SeverityInfo, Ref(KindPlan, id));
      }
    }
  }

  lemma BackendIsOk(c: Catalog, i: nat)
    requires ValidCatalog(c) && i < |c.backends|
    ensures BackendOk(c.backends[i])
  {
    hide AllIdsOk, WorkspacesOk, SnapshotsOk, TerminalsOk, ViewsOk, HistoryOk, EventsOk, PlansOk, MachinesOk, ConfigOk, AgentsOk;
  }

  lemma BackendEventSound(c: Catalog, counters: Counters, i: nat, b: BackendInfo, severity: EventSeverity)
    requires Sound(c, counters) && i < |c.backends| && !severity.SeverityOther?
    requires b.id == c.backends[i].id && b.isDefault == c.backends[i].isDefault && BackendOk(b)
    ensures var r := AddEvent(Advance(c).(backends := c.backends[i := b]), counters, EventBackend, severity, Ref(KindBackend, b.id));
            r.Accepted? && Sound(r.cat, r.counters)
  {
    hide Dominates, ValidCatalog, AddEvent, BackendOk;
    AdvanceSound(c, counters);
    BackendEditSound(Advance(c), counters, i, b);
    AddEventSound(Advance(c).(backends := c.backends[i := b]), counters, EventBackend, severity, Ref(KindBackend, b.id));
  }

  lemma BackendCheckSound(c: Catalog, counters: Counters, a: Action)
    requires Sound(c, counters)
    ensures SoundOutcome(DoBackendCheck(c, counters, a), c)
  {
    hide IndexOf, Dominates, AddEvent, ValidCatalog;
    var i := IndexOf(BackendIds(c.backends), a.target.id);
    if i >= 0 {
      var be, c1 := c.backends[i], Advance(c);
      BackendIsOk(c, i);
      BackendEventSound(c, counters, i, be.(lastProbe := ProbeResult(c1.now, false, 0, be.unsupportedReasons)), SeverityWarn);
      var findings := be.capabilities + if a.kind == ActionBackendDoctor then be.unsupportedReasons else [];
      BackendEventSound(c, counters, i, be.(lastProbe := ProbeResult(c1.now, true, 3 + |be.capabilities| * 2, findings)), SeverityInfo);
    }
  }

  lemma BackendToggleSound(c: Catalog, counters: Counters, a: Action)
    requires Sound(c, counters)
    ensures SoundOutcome(DoBackendToggle(c, counters, a), c)
  {
    hide IndexOf, Dominates, AddEvent, ValidCatalog;
    var i := IndexOf(BackendIds(c.backends), a.target.id);
    if i >= 0 && !c.backends[i].isDefault {
      BackendIsOk(c, i);
      BackendEventSound(c, counters, i, c.backends[i].(enabled := !c.backends[i].enabled), SeverityWarn);
    }
  }

  lemma MachineSound(c: Catalog, counters: Counters, a: Action)
    requires Sound(c, counters)
    ensures SoundOutcome(DoMachine(c, counters, a), c)
  {
    hide IndexOf, Dominates, AddEvent, ValidCatalog;
    var i := IndexOf(MachineIds(c.machines), a.target.id);
    if i >= 0 {
      var m, c1 := c.machines[i], Advance(c);
      var findings := ["ssh ok"] + if a.kind == ActionMachineDoctor then ["tmux 3.4", "disk 62%"] else [];
      var m1 := m.(heartbeat := c1.now, lastResult := ProbeResult(c1.now, true, m.latencyMS, findings));
      AdvanceSound(c, counters);
      MachinesEditSound(c1, counters, c.machines[i := m1]);
      AddEventSound(c1.(machines := c.machines[i := m1]), counters, EventMachine, SeverityInfo, Ref(KindMachine, m.id));
    }
  }

  lemma PerformanceEditSound(c: Catalog, counters: Counters, p: Performance)
    requires Sound(c, counters) && |p.samples| <= MAX_PERF_SAMPLES
    ensures Sound(c.(performance := p), counters)
  {
    hide IdsOk, Unissued, BackendsOk, WorkspacesOk, SnapshotsOk, TerminalsOk, AgentsOk, HistoryOk, EventsOk, PlansOk, MachinesOk, ConfigOk, ViewsOk;
  }

  lemma SamplesBounded(c: Catalog)
    requires ValidCatalog(c)
    ensures |c.performance.samples| <= MAX_PERF_SAMPLES
  {
    hide AllIdsOk, BackendsOk, WorkspacesOk, SnapshotsOk, TerminalsOk, AgentsOk, HistoryOk, EventsOk, PlansOk, MachinesOk, ConfigOk, ViewsOk;
  }

  lemma PerfSound(c: Catalog, counters: Counters, a: Action)
    requires Sound(c, counters)
    ensures SoundOutcome(DoPerf(c, counters, a), c)
  {
    hide Dominates, AddEvent, ValidCatalog, Tail;
    var c1, p := Advance(c), c.performance;
    var p1 := if a.kind == ActionPerfRecord
              then p.(traces := Tail(p.traces + [PerfTrace(c1.now, "input", 9 + |p.traces| % 5)], 20))
              else p.(benchmarks := Tail(p.benchmarks + [PerfBenchmark(c1.now, 500, 4, 11 + |p.benchmarks| % 7)], 20));
    AdvanceSound(c, counters);
    SamplesBounded(c);
    PerformanceEditSound(c1, counters, p1);
    AddEventSound(c1.(performance := p1), counters, EventSystem, SeverityInfo, Ref(KindConfig, "performance"));
  }

  lemma ConfigEditSound(c: Catalog, counters: Counters, config: Config)
    requires Sound(c, counters) && ConfigOk(config)
    ensures Sound(c.(config := config), counters)
  {
    hide IdsOk, Unissued, BackendsOk, WorkspacesOk, SnapshotsOk, TerminalsOk, AgentsOk, HistoryOk, EventsOk, PlansOk, MachinesOk, ConfigOk, ViewsOk;
  }

  lemma ConfigActionSound(c: Catalog, counters: Counters, a: Action)
    requires Sound(c, counters)
    ensures SoundOutcome(DoConfig(c, counters, a), c)
  {
    hide Dominates, AddEvent, ValidCatalog, Blank;
    var c1 := Advance(c);
    AdvanceSound(c, counters);
    AddEventSound(c1, counters, EventConfig, SeverityInfo, Ref(KindConfig, "config"));
    ConfigEditSound(c1, counters, BASE_CONFIG);
    AddEventSound(c1.(config := BASE_CONFIG), counters, EventConfig, SeverityInfo, Ref(KindConfig, "config"));
    if a.draft.Some? && ConfigOk(a.draft.value) {
      ConfigEditSound(c1, counters, a.draft.value);
      AddEventSound(c1.(config := a.draft.value), counters, EventConfig, SeverityInfo, Ref(KindConfig, "config"));
    }
  }

  // ---- the two results ----------------------------------------------------------------------

  /** The actions whose transition the gate never turns away. */
  predicate NeverGated(k: ActionKind) {
    k in {ActionPin, ActionUnpin, ActionTouch, ActionPrune, ActionSend, ActionKill,
          ActionAgentFocus, ActionAgentPrompt, ActionAgentWait, ActionAgentClaim, ActionHistoryExport,
          ActionSnapshotCreate, ActionSnapshotTag, ActionSnapshotDelete, ActionSnapshotPlan,
          ActionBackendProbe, ActionBackendDoctor, ActionBackendToggle,
          ActionMachineConnect, ActionMachinePing, ActionMachineDoctor,
          ActionPerfRecord, ActionPerfBenchmark, ActionConfigValidate, ActionConfigSave, ActionConfigReload}
  }

  /** From any sound catalog these actions either fail or yield a sound catalog: the gate does not fire. */
  lemma GateNeverFires(c: Catalog, counters: Counters, a: Action)
    requires Sound(c, counters) && NeverGated(a.kind)
    ensures SoundOutcome(Apply(c, counters, a), c)
  {
    hide Sound, DoPin, DoTouch, DoPrune, DoSend, DoKill, DoAgent, DoExport, DoSnapshotCreate, DoSnapshotTag, DoSnapshotDelete,
         DoSnapshotPlan, DoBackendCheck, DoBackendToggle, DoMachine, DoPerf, DoConfig, DoAttach, DoFreeze, DoSplit, DoLink, DoRestoreApply, DoUndo;
    match a.kind
    case ActionPin => PinSound(c, counters, a);
    case ActionUnpin => PinSound(c, counters, a);
    case ActionTouch => TouchSound(c, counters, a);
    case ActionPrune => PruneSound(c, counters, a);
    case ActionSend => SendSound(c, counters, a);
    case ActionKill => KillActionSound(c, counters, a);
    case ActionAgentFocus => AgentActionSound(c, counters, a);
    case ActionAgentPrompt => AgentActionSound(c, counters, a);
    case ActionAgentWait => AgentActionSound(c, counters, a);
    case ActionAgentClaim => AgentActionSound(c, counters, a);
    case ActionHistoryExport => ExportSound(c, counters, a);
    case ActionSnapshotCreate => SnapshotCreateSound(c, counters, a);
    case ActionSnapshotTag => SnapshotTagSound(c, counters, a);
    case ActionSnapshotDelete => SnapshotDeleteSound(c, counters, a);
    case ActionSnapshotPlan => SnapshotPlanSound(c, counters, a);
    case ActionBackendProbe => BackendCheckSound(c, counters, a);
    case ActionBackendDoctor => BackendCheckSound(c, counters, a);
    case ActionBackendToggle => BackendToggleSound(c, counters, a);
    case ActionMachineConnect => MachineSound(c, counters, a);
    case ActionMachinePing => MachineSound(c, counters, a);
    case ActionMachineDoctor => MachineSound(c, counters, a);
    case ActionPerfRecord => PerfSound(c, counters, a);
    case ActionPerfBenchmark => PerfSound(c, counters, a);
    case ActionConfigValidate => ConfigActionSound(c, counters, a);
    case ActionConfigSave => ConfigActionSound(c, counters, a);
    case ActionConfigReload => ConfigActionSound(c, counters, a);
  }

  /** Every tick is accepted: the sample window stays bounded, the agent's progress stays below its cap. */
  lemma TickNeverGated(c: Catalog, counters: Counters, n: nat)
    requires Sound(c, counters)
    ensures var r := DoTick(c, counters, n); r.Accepted? && Sound(r.cat, r.counters)
  {
    hide Dominates, ValidCatalog, Sample, FirstRunning, AgentEvent, Tail;
    var c1 := Advance(c);
    var p := c.performance.(samples := Tail(c.performance.samples + [Sample(c1.now, n)], MAX_PERF_SAMPLES));
    AdvanceSound(c, counters);
    PerformanceEditSound(c1, counters, p);
    MachinesEditSound(c1.(performance := p), counters, Beat(c.machines, c1.now));
    var c2 := c1.(performance := p, machines := Beat(c.machines, c1.now));
    var i := FirstRunning(c.agents);
    if i >= 0 {
      AgentsAreOk(c, i);
      var ag := c.agents[i];
      AgentEventSound(c2, counters, i, ag.(progress := if ag.progress + 1 < 99 then ag.progress + 1 else 99));
    }
  }
}
