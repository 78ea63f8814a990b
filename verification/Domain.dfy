/**
 * The catalog: every record the control plane shows and edits.
 * (tmh-next/internal/domain/model.go, tmh-next/internal/domain/action.go)
 * Times are seconds of the logical clock. Message texts are not modelled.
 */
module Domain {
  import opened Text
  import opened Topology

  datatype ResourceKind =
    | KindWorkspace | KindActive | KindTerminal | KindAgent | KindHistory | KindEvent
    | KindSnapshot | KindPlan | KindBackend | KindMachine | KindConfig
    | KindOther(name: string)

  datatype ResourceRef = Ref(kind: ResourceKind, id: string)

  datatype Scenario = ScenarioDefault | ScenarioEmpty | ScenarioDegraded | ScenarioOther(name: string)

  // ---- workspaces, terminals, agents -------------------------------------------

  datatype WorkspaceStatus = WorkspaceOK | WorkspaceDrift | WorkspaceFrozen | WorkspaceOther(name: string)

  datatype DriftEntry = DriftEntry(field: string, desired: string, observed: string)

  datatype Workspace = Workspace(
    id: string, name: string, desired: WorkspaceState, observed: WorkspaceState,
    drift: seq<DriftEntry>, status: WorkspaceStatus, machineID: string, backendID: string,
    terminalIDs: seq<string>, agentIDs: seq<string>,
    lastAttached: int, lastFocused: int, selectedSurfaceID: string, ephemeral: bool)

  datatype ActiveViewKind = ActiveShared | ActiveRecent | ActivePinned | ActiveOther(name: string)

  datatype ActiveView = ActiveView(
    id: string, title: string, kind: ActiveViewKind, workspaceID: string, owner: string,
    lastUsed: int, ttlSeconds: int, pinned: bool)

  datatype TerminalState = TerminalLive | TerminalExited | TerminalOther(name: string)

  datatype Terminal = Terminal(
    id: string, name: string, workspaceID: string, surfaceID: string, backendID: string,
    state: TerminalState, process: string, cwd: string, capabilities: seq<string>,
    lastIO: int, createdAt: int)

  datatype AgentKind = AgentClaude | AgentCodex | AgentOpenCode | AgentCustom | AgentKindOther(name: string)

  datatype AgentState = AgentRunning | AgentNeedsInput | AgentWaiting | AgentDone | AgentStateOther(name: string)

  datatype AgentEntry = AgentEntry(at: int, kind: string, text: string)

  datatype Agent = Agent(
    id: string, name: string, kind: AgentKind, state: AgentState, workspaceID: string,
    terminalID: string, progress: int, claimedBy: string, timeline: seq<AgentEntry>,
    lastUsed: int, lastFocused: int, prompt: string)

  // ---- history and events ------------------------------------------------------

  datatype HistoryChunk = HistoryChunk(
    id: string, scope: ResourceRef, seqNo: int, at: int, lines: seq<string>, kind: string, gap: bool)

  datatype EventCategory =
    | EventWorkspace | EventTerminal | EventAgent | EventSnapshot | EventRestore
    | EventBackend | EventMachine | EventConfig | EventSystem | EventOther(name: string)

  datatype EventSeverity = SeverityInfo | SeverityWarn | SeverityError | SeverityOther(name: string)

  datatype Event = Event(
    id: string, seqNo: int, at: int, category: EventCategory, severity: EventSeverity, resource: ResourceRef)

  // ---- snapshots and restore plans -----------------------------------------------

  datatype Snapshot = Snapshot(
    id: string, workspaceID: string, createdAt: int, backendID: string, tags: seq<string>,
    state: WorkspaceState, windowCount: nat, surfaceCount: nat)

  datatype RestoreMode = RestorePush | RestorePull | RestoreFreeze | RestoreOther(name: string)

  datatype RestoreOp = RestoreOp(
    id: string, mode: RestoreMode, target: ResourceRef, field: string,
    before: string, after: string, beforeAbsent: bool, included: bool, appliedAt: int)

  datatype PlanStatus = PlanPending | PlanApplied | PlanUndone | PlanOther(name: string)

  datatype RestorePlan = RestorePlan(
    id: string, snapshotID: string, workspaceID: string, status: PlanStatus, createdAt: int,
    ops: seq<RestoreOp>, appliedAt: int, undoneAt: int, appliedSerial: nat, undoOps: seq<RestoreOp>)

  // ---- backends, machines, performance, configuration ------------------------------

  datatype ProbeResult = ProbeResult(at: int, ok: bool, latencyMS: int, findings: seq<string>)

  datatype BackendStatus = BackendHealthy | BackendPreview | BackendUnavailable | BackendOther(name: string)

  datatype BackendInfo = BackendInfo(
    id: string, name: string, status: BackendStatus, enabled: bool, isDefault: bool,
    capabilities: seq<string>, unsupportedReasons: seq<string>, lastProbe: ProbeResult, instances: int)

  datatype MachineStatus = MachineOnline | MachineOffline | MachineOther(name: string)

  datatype Machine = Machine(
    id: string, name: string, host: string, kind: string, status: MachineStatus,
    instances: int, heartbeat: int, latencyMS: int, lastResult: ProbeResult)

  datatype PerfSample = PerfSample(
    at: int, inputP50: int, inputP95: int, inputP99: int, redrawP99: int, actionP99: int, queueDepth: int)

  datatype PerfTrace = PerfTrace(at: int, kind: string, p99MS: int)

  datatype PerfBenchmark = PerfBenchmark(at: int, ops: int, avgMS: int, p99MS: int)

  datatype Performance = Performance(
    available: bool, samples: seq<PerfSample>, traces: seq<PerfTrace>, benchmarks: seq<PerfBenchmark>)

  datatype HistoryMode = HistoryOff | HistoryMemory | HistoryPersistent | HistoryOther(name: string)

  datatype OverflowPolicy = OverflowReject | OverflowArchiveOldest | OverflowOther(name: string)

  datatype RemoteTrust = TrustLocalOnly | TrustPrompt | TrustAllowlisted | TrustOther(name: string)

  datatype LeaderDisplay = LeaderIcon | LeaderPath | LeaderNone | LeaderOther(name: string)

  datatype Config = Config(
    defaultPage: string, leaderDisplay: LeaderDisplay, defaultBackend: string, historyMode: HistoryMode,
    retentionHours: int, overflow: OverflowPolicy, redactSecrets: bool, allowRawInput: bool,
    remoteTrust: RemoteTrust, allowlistedMachines: seq<string>)

  datatype ExportDescriptor = ExportDescriptor(at: int, rows: nat, scopes: set<ResourceRef>, revision: nat)

  datatype Catalog = Catalog(
    revision: nat, now: int, scenario: Scenario, mutationSerial: nat,
    workspaces: seq<Workspace>, activeViews: seq<ActiveView>, terminals: seq<Terminal>,
    agents: seq<Agent>, history: seq<HistoryChunk>, events: seq<Event>,
    snapshots: seq<Snapshot>, restorePlans: seq<RestorePlan>,
    backends: seq<BackendInfo>, machines: seq<Machine>,
    performance: Performance, config: Config, lastExport: Option<ExportDescriptor>)

  // ---- actions -------------------------------------------------------------------

  datatype ActionKind =
    | ActionAttach | ActionFreeze | ActionSplit | ActionLink | ActionPin | ActionUnpin | ActionTouch
    | ActionPrune | ActionSend | ActionKill | ActionAgentFocus | ActionAgentPrompt | ActionAgentWait
    | ActionAgentClaim | ActionHistoryExport | ActionSnapshotCreate | ActionSnapshotTag
    | ActionSnapshotDelete | ActionSnapshotPlan | ActionRestoreApply | ActionReconcileUndo
    | ActionBackendProbe | ActionBackendDoctor | ActionBackendToggle
    | ActionMachineConnect | ActionMachinePing | ActionMachineDoctor
    | ActionPerfRecord | ActionPerfBenchmark | ActionConfigValidate | ActionConfigSave | ActionConfigReload
    | ActionOther(name: string)

  /** `draft` is what decoding `value` as a configuration yields: nothing if it is malformed. */
  datatype Action = Action(
    kind: ActionKind, target: ResourceRef, value: string, selection: seq<string>,
    confirmed: bool, expectedRevision: nat, draft: Option<Config>)

  datatype ErrCode =
    | NotFound | NotLive | BadTarget | InvalidState | ConfirmationNeeded | Protected | EmptyValue
    | EmptySelection | StalePlan | UndoUnavailable | UndoStale | ProbeTimeout | Unreachable | Busy
    | ValidationFailed | AlreadyClaimed | RevisionConflict | MalformedResult
}
