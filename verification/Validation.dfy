/**
 * The invariants every accepted catalog satisfies. (tmh-next/internal/domain/validate.go)
 * Each check takes of the other record lists only what it looks at: their ids, or ids with one
 * more attribute.
 */
module Validation {
  import opened Text
  import opened Topology
  import opened Domain
  import opened Plan

  // ---- what the checks look at ------------------------------------------------------

  function IndexOf(ids: seq<string>, id: string, from: nat := 0): (i: int)
    requires from <= |ids|
    ensures i >= 0 ==> from <= i < |ids| && ids[i] == id && forall j :: from <= j < i ==> ids[j] != id
    ensures i < 0 ==> i == -1 && forall j :: from <= j < |ids| ==> ids[j] != id
    decreases |ids| - from
  {
    if from == |ids| then -1 else if ids[from] == id then from else IndexOf(ids, id, from + 1)
  }

  function WorkspaceIds(s: seq<Workspace>): seq<string> { seq(|s|, i requires 0 <= i < |s| => s[i].id) }
  function ViewIds(s: seq<ActiveView>): seq<string> { seq(|s|, i requires 0 <= i < |s| => s[i].id) }
  function TerminalIds(s: seq<Terminal>): seq<string> { seq(|s|, i requires 0 <= i < |s| => s[i].id) }
  function AgentIds(s: seq<Agent>): seq<string> { seq(|s|, i requires 0 <= i < |s| => s[i].id) }
  function HistoryIds(s: seq<HistoryChunk>): seq<string> { seq(|s|, i requires 0 <= i < |s| => s[i].id) }
  function EventIds(s: seq<Event>): seq<string> { seq(|s|, i requires 0 <= i < |s| => s[i].id) }
  function SnapshotIds(s: seq<Snapshot>): seq<string> { seq(|s|, i requires 0 <= i < |s| => s[i].id) }
  function PlanIds(s: seq<RestorePlan>): seq<string> { seq(|s|, i requires 0 <= i < |s| => s[i].id) }
  function BackendIds(s: seq<BackendInfo>): seq<string> { seq(|s|, i requires 0 <= i < |s| => s[i].id) }
  function MachineIds(s: seq<Machine>): seq<string> { seq(|s|, i requires 0 <= i < |s| => s[i].id) }

  /** Terminals with the workspace each belongs to. */
  function TerminalOwners(s: seq<Terminal>): seq<(string, string)> {
    seq(|s|, i requires 0 <= i < |s| => (s[i].id, s[i].workspaceID))
  }

  function TerminalStates(s: seq<Terminal>): seq<(string, TerminalState)> {
    seq(|s|, i requires 0 <= i < |s| => (s[i].id, s[i].state))
  }

  function AgentOwners(s: seq<Agent>): seq<(string, string)> {
    seq(|s|, i requires 0 <= i < |s| => (s[i].id, s[i].workspaceID))
  }

  function SnapshotHomes(s: seq<Snapshot>): seq<(string, string)> {
    seq(|s|, i requires 0 <= i < |s| => (s[i].id, s[i].workspaceID))
  }

  // ---- the checks ---------------------------------------------------------------------

  predicate IdsOk(ids: seq<string>) {
    Distinct(ids) && "" !in ids
  }

  predicate BackendOk(b: BackendInfo) {
    !b.status.BackendOther? && (b.isDefault ==> b.enabled)
  }

  predicate BackendsOk(bs: seq<BackendInfo>) {
    && (forall i :: 0 <= i < |bs| ==> BackendOk(bs[i]))
    && (exists i :: 0 <= i < |bs| && bs[i].isDefault)
    && (forall i, j :: 0 <= i < j < |bs| ==> !(bs[i].isDefault && bs[j].isDefault))
  }

  predicate AgentOk(a: Agent) {
    !a.kind.AgentKindOther? && !a.state.AgentStateOther? && 0 <= a.progress <= 99
  }

  predicate WorkspaceRefsOk(w: Workspace, machines: seq<string>, backends: seq<string>,
                            terminals: seq<(string, string)>, agents: seq<(string, string)>) {
    && w.machineID in machines && w.backendID in backends
    && (forall id :: id in w.terminalIDs ==> (id, w.id) in terminals)
    && (forall id :: id in w.agentIDs ==> (id, w.id) in agents)
  }

  predicate WorkspaceStateOk(w: Workspace) {
    && !w.status.WorkspaceOther?
    && DriftConsistent(w)
    && (w.selectedSurfaceID != "" ==> HasSurface(w.observed, w.selectedSurfaceID))
  }

  predicate WorkspacesOk(ws: seq<Workspace>, machines: seq<string>, backends: seq<string>,
                         terminals: seq<(string, string)>, agents: seq<(string, string)>) {
    forall i :: 0 <= i < |ws| ==>
      WorkspaceRefsOk(ws[i], machines, backends, terminals, agents) && WorkspaceStateOk(ws[i])
  }

  predicate SnapshotsOk(ss: seq<Snapshot>, workspaces: seq<string>, backends: seq<string>) {
    forall i :: 0 <= i < |ss| ==> ss[i].workspaceID in workspaces && ss[i].backendID in backends
  }

  predicate SurfaceKnown(w: Workspace, surface: string) {
    surface == "" || HasSurface(w.observed, surface) || HasSurface(w.desired, surface)
  }

  /** The terminal's own workspace lists it and knows its surface. */
  predicate TerminalHome(t: Terminal, w: Workspace) {
    w.id == t.workspaceID && t.id in w.terminalIDs && SurfaceKnown(w, t.surfaceID)
  }

  predicate Placed(t: Terminal, ws: seq<Workspace>) {
    exists k :: 0 <= k < |ws| && TerminalHome(t, ws[k])
  }

  predicate TerminalOk(t: Terminal, ws: seq<Workspace>, backends: seq<string>) {
    !t.state.TerminalOther? && t.backendID in backends && Placed(t, ws)
  }

  predicate TerminalsOk(ts: seq<Terminal>, ws: seq<Workspace>, backends: seq<string>) {
    forall i :: 0 <= i < |ts| ==> TerminalOk(ts[i], ws, backends)
  }

  predicate AgentHome(a: Agent, w: Workspace) {
    w.id == a.workspaceID && a.id in w.agentIDs
  }

  predicate Employed(a: Agent, ws: seq<Workspace>) {
    exists k :: 0 <= k < |ws| && AgentHome(a, ws[k])
  }

  predicate AgentPlaceOk(a: Agent, ws: seq<Workspace>, terminals: seq<(string, TerminalState)>) {
    AgentOk(a) && Employed(a, ws) && (a.terminalID != "" ==> (a.terminalID, TerminalLive) in terminals)
  }

  predicate AgentsOk(ags: seq<Agent>, ws: seq<Workspace>, terminals: seq<(string, TerminalState)>) {
    forall i :: 0 <= i < |ags| ==> AgentPlaceOk(ags[i], ws, terminals)
  }

  predicate ViewOk(v: ActiveView, workspaces: seq<string>) {
    v.workspaceID in workspaces && !v.kind.ActiveOther? && (v.pinned ==> v.kind == ActivePinned)
  }

  predicate ViewsOk(vs: seq<ActiveView>, workspaces: seq<string>) {
    forall i :: 0 <= i < |vs| ==> ViewOk(vs[i], workspaces)
  }

  predicate ScopeOk(scope: ResourceRef, terminals: seq<string>, agents: seq<string>) {
    (scope.kind == KindTerminal && scope.id in terminals) || (scope.kind == KindAgent && scope.id in agents)
  }

  predicate HistoryOk(hs: seq<HistoryChunk>, terminals: seq<string>, agents: seq<string>) {
    forall i :: 0 <= i < |hs| ==> ScopeOk(hs[i].scope, terminals, agents)
  }

  predicate EventOk(e: Event) {
    e.seqNo > 0 && !e.resource.kind.KindOther? && !e.severity.SeverityOther? && !e.category.EventOther?
  }

  predicate EventsOk(es: seq<Event>) {
    && (forall i :: 0 <= i < |es| ==> EventOk(es[i]))
    && (forall i :: 0 < i < |es| ==> es[i - 1].seqNo < es[i].seqNo)
  }

  predicate RestoreOpOk(op: RestoreOp, workspace: string) {
    && !op.mode.RestoreOther?
    && (op.mode == RestoreFreeze ==> op.target.kind == KindSnapshot)
    && (op.mode != RestoreFreeze ==> op.target == Ref(KindWorkspace, workspace))
    && op.field != ""
  }

  predicate PlanOk(p: RestorePlan, snapshots: seq<(string, string)>, workspaces: seq<string>) {
    && (p.snapshotID, p.workspaceID) in snapshots
    && p.workspaceID in workspaces
    && !p.status.PlanOther?
    && (forall i :: 0 <= i < |p.ops| ==> RestoreOpOk(p.ops[i], p.workspaceID))
    && (forall i :: 0 < i < |p.ops| ==> OpLess(p.ops[i - 1], p.ops[i]))
  }

  predicate PlansOk(ps: seq<RestorePlan>, snapshots: seq<(string, string)>, workspaces: seq<string>) {
    forall i :: 0 <= i < |ps| ==> PlanOk(ps[i], snapshots, workspaces)
  }

  predicate MachinesOk(ms: seq<Machine>) {
    forall i :: 0 <= i < |ms| ==> !ms[i].status.MachineOther? && ms[i].kind in {"local", "remote"}
  }

  const MAX_PERF_SAMPLES := 120

  predicate ConfigOk(c: Config) {
    && (match c.historyMode
        case HistoryOff => c.retentionHours == 0
        case HistoryMemory => 1 <= c.retentionHours <= 24
        case HistoryPersistent => 1 <= c.retentionHours <= 365 * 24
        case HistoryOther(_) => false)
    && (c.overflow == OverflowArchiveOldest ==> c.historyMode == HistoryPersistent)
    && !c.overflow.OverflowOther?
    && (c.allowRawInput ==> c.remoteTrust == TrustLocalOnly)
    && (c.remoteTrust == TrustAllowlisted ==> c.allowlistedMachines != [])
    && !c.leaderDisplay.LeaderOther?
  }

  predicate AllIdsOk(c: Catalog) {
    && IdsOk(WorkspaceIds(c.workspaces)) && IdsOk(ViewIds(c.activeViews)) && IdsOk(TerminalIds(c.terminals))
    && IdsOk(AgentIds(c.agents)) && IdsOk(HistoryIds(c.history)) && IdsOk(EventIds(c.events))
    && IdsOk(SnapshotIds(c.snapshots)) && IdsOk(PlanIds(c.restorePlans))
    && IdsOk(BackendIds(c.backends)) && IdsOk(MachineIds(c.machines))
  }

  predicate ValidCatalog(c: Catalog) {
    && AllIdsOk(c)
    && BackendsOk(c.backends)
    && WorkspacesOk(c.workspaces, MachineIds(c.machines), BackendIds(c.backends),
                    TerminalOwners(c.terminals), AgentOwners(c.agents))
    && SnapshotsOk(c.snapshots, WorkspaceIds(c.workspaces), BackendIds(c.backends))
    && TerminalsOk(c.terminals, c.workspaces, BackendIds(c.backends))
    && AgentsOk(c.agents, c.workspaces, TerminalStates(c.terminals))
    && ViewsOk(c.activeViews, WorkspaceIds(c.workspaces))
    && HistoryOk(c.history, TerminalIds(c.terminals), AgentIds(c.agents))
    && EventsOk(c.events)
    && PlansOk(c.restorePlans, SnapshotHomes(c.snapshots), WorkspaceIds(c.workspaces))
    && MachinesOk(c.machines)
    && |c.performance.samples| <= MAX_PERF_SAMPLES
    && ConfigOk(c.config)
  }
}
