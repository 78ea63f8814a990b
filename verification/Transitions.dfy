/**
 * The transition table of the demo backend, as functions from the catalog before an action to
 * the catalog after it. (tmh-next/internal/mock/backend.go)
 */
module Transitions {
  import opened Text
  import opened Topology
  import opened Domain
  import opened Reconcile
  import opened Plan
  import opened Validation

  type Counters = map<string, nat>

  /** The last number issued for a prefix. */
  function Issued(counters: Counters, prefix: string): nat {
    if prefix in counters then counters[prefix] else 0
  }

  /** A failure may still have used up identifiers. */
  datatype Outcome = Accepted(cat: Catalog, counters: Counters) | Failed(code: ErrCode, counters: Counters)

  function NextId(counters: Counters, prefix: string): (string, Counters) {
    var n := Issued(counters, prefix) + 1;
    (IdOf(prefix, n), counters[prefix := n])
  }

  /** The clock and the revision move together, one step. */
  function Advance(c: Catalog): Catalog {
    c.(revision := c.revision + 1, now := c.now + 1)
  }

  function AddEvent(c: Catalog, counters: Counters, category: EventCategory, severity: EventSeverity,
                    resource: ResourceRef): Outcome {
    var n := if |c.events| > 0 then c.events[|c.events| - 1].seqNo + 1 else 1;
    var (id, next) := NextId(counters, "evt");
    Accepted(c.(events := c.events + [Event(id, n, c.now, category, severity, resource)]), next)
  }

  function NextSeq(hs: seq<HistoryChunk>, scope: ResourceRef): int {
    if hs == [] then 1
    else
      var n := NextSeq(hs[..|hs| - 1], scope);
      var h := hs[|hs| - 1];
      if h.scope == scope && h.seqNo + 1 > n then h.seqNo + 1 else n
  }

  function AddHistory(c: Catalog, counters: Counters, scope: ResourceRef, lines: seq<string>): Outcome {
    var (id, next) := NextId(counters, "hist");
    Accepted(c.(history := c.history + [HistoryChunk(id, scope, NextSeq(c.history, scope), c.now, lines, "stream", false)]), next)
  }

  // ---- workspaces and terminals --------------------------------------------------------

  function FirstLive(ids: seq<string>, ts: seq<Terminal>): int {
    if ids == [] then -1
    else
      var i := IndexOf(TerminalIds(ts), ids[0]);
      if i >= 0 && ts[i].state == TerminalLive then i else FirstLive(ids[1..], ts)
  }

  function AttachTo(c: Catalog, counters: Counters, k: int, i: int): Outcome {
    if !(0 <= i < |c.terminals|) || c.terminals[i].state != TerminalLive then Failed(NotLive, counters)
    else if !(0 <= k < |c.workspaces|) then Failed(NotFound, counters)
    else
      var c1 := Advance(c);
      var w := c.workspaces[k].(lastAttached := c1.now, lastFocused := c1.now, selectedSurfaceID := c.terminals[i].surfaceID);
      AddEvent(c1.(workspaces := c.workspaces[k := w]), counters, EventWorkspace, SeverityInfo, Ref(KindWorkspace, w.id))
  }

  function DoAttach(c: Catalog, counters: Counters, a: Action): Outcome {
    match a.target.kind
    case KindWorkspace =>
      var k := IndexOf(WorkspaceIds(c.workspaces), a.target.id);
      if k < 0 then Failed(NotFound, counters)
      else AttachTo(c, counters, k, FirstLive(c.workspaces[k].terminalIDs, c.terminals))
    case KindTerminal =>
      var i := IndexOf(TerminalIds(c.terminals), a.target.id);
      if i < 0 then Failed(NotFound, counters)
      else AttachTo(c, counters, IndexOf(WorkspaceIds(c.workspaces), c.terminals[i].workspaceID), i)
    case _ => Failed(BadTarget, counters)
  }

  function DoFreeze(c: Catalog, counters: Counters, a: Action): Outcome {
    var k := IndexOf(WorkspaceIds(c.workspaces), a.target.id);
    if a.target.kind != KindWorkspace || k < 0 then Failed(NotFound, counters)
    else
      var w := c.workspaces[k].(desired := c.workspaces[k].observed, drift := [], status := WorkspaceFrozen);
      AddEvent(Advance(c).(workspaces := c.workspaces[k := w]), counters, EventWorkspace, SeverityInfo, Ref(KindWorkspace, w.id))
  }

  /** The observed state with a new surface beside the one the terminal shows. */
  function SplitObserved(ws: WorkspaceState, beside: string, sf: SurfaceSpec): WorkspaceState
    requires HasSurface(ws, beside)
  {
    var i := HolderIndex(ws, beside);
    ws[i := ws[i].(layout := "even-horizontal", surfaces := ws[i].surfaces + [sf])]
  }

  function DoSplit(c: Catalog, counters: Counters, a: Action): Outcome {
    var i := IndexOf(TerminalIds(c.terminals), a.target.id);
    if a.target.kind != KindTerminal || i < 0 then Failed(NotFound, counters)
    else if c.terminals[i].state != TerminalLive then Failed(NotLive, counters)
    else
      var t := c.terminals[i];
      var k := IndexOf(WorkspaceIds(c.workspaces), t.workspaceID);
      if k < 0 then Failed(NotFound, counters)
      else
        var w := c.workspaces[k];
        var c1 := Advance(c);
        var (newID, counters1) := NextId(counters, "term");
        var (sfID, counters2) := NextId(counters1, "sf");
        if !HasSurface(w.observed, t.surfaceID) then Failed(InvalidState, counters2)
        else
          var observed := SplitObserved(w.observed, t.surfaceID, SurfaceSpec(sfID, "terminal", t.cwd, "none"));
          var nt := Terminal(newID, w.name + "-terminal", w.id, sfID, t.backendID, TerminalLive, "zsh", t.cwd,
                             t.capabilities, c1.now, c1.now);
          var w1 := w.(observed := observed, desired := observed, terminalIDs := w.terminalIDs + [newID]);
          AddEvent(c1.(terminals := c.terminals + [nt], workspaces := c.workspaces[k := w1]), counters2,
                   EventTerminal, SeverityInfo, Ref(KindTerminal, newID))
  }

  function RemoveID(ids: seq<string>, id: string): seq<string> {
    if ids == [] then [] else if ids[0] == id then RemoveID(ids[1..], id) else [ids[0]] + RemoveID(ids[1..], id)
  }

  function FirstSurface(ws: WorkspaceState): Option<string> {
    if |ws| > 0 && |ws[0].surfaces| > 0 then Some(ws[0].surfaces[0].id) else None
  }

  function DoLink(c: Catalog, counters: Counters, a: Action): Outcome {
    var i := IndexOf(TerminalIds(c.terminals), a.target.id);
    if a.target.kind != KindTerminal || i < 0 then Failed(NotFound, counters)
    else
      var k := IndexOf(WorkspaceIds(c.workspaces), a.value);
      if k < 0 then Failed(BadTarget, counters)
      else
        var t := c.terminals[i];
        var o := IndexOf(WorkspaceIds(c.workspaces), t.workspaceID);
        var ws1 := if o >= 0 then c.workspaces[o := c.workspaces[o].(terminalIDs := RemoveID(c.workspaces[o].terminalIDs, t.id))]
                   else c.workspaces;
        var first := FirstSurface(ws1[k].observed);
        var t1 := t.(workspaceID := ws1[k].id, surfaceID := if first.Some? then first.value else t.surfaceID);
        var w1 := ws1[k].(terminalIDs := ws1[k].terminalIDs + [t.id]);
        AddEvent(Advance(c).(terminals := c.terminals[i := t1], workspaces := ws1[k := w1]), counters,
                 EventTerminal, SeverityInfo, Ref(KindTerminal, t.id))
  }

  // ---- active views ---------------------------------------------------------------------

  function DoPin(c: Catalog, counters: Counters, a: Action): Outcome {
    var i := IndexOf(ViewIds(c.activeViews), a.target.id);
    if a.target.kind != KindActive || i < 0 then Failed(NotFound, counters)
    else if c.activeViews[i].pinned == (a.kind == ActionPin) then Failed(InvalidState, counters)
    else
      var v := if a.kind == ActionPin then c.activeViews[i].(pinned := true, kind := ActivePinned, ttlSeconds := 0)
               else c.activeViews[i].(pinned := false, kind := ActiveRecent, ttlSeconds := 900);
      AddEvent(Advance(c).(activeViews := c.activeViews[i := v]), counters, EventWorkspace, SeverityInfo, Ref(KindActive, v.id))
  }

  function DoTouch(c: Catalog, counters: Counters, a: Action): Outcome {
    var i := IndexOf(ViewIds(c.activeViews), a.target.id);
    if a.target.kind != KindActive || i < 0 then Failed(NotFound, counters)
    else
      var c1 := Advance(c);
      var v := c.activeViews[i].(lastUsed := c1.now);
      AddEvent(c1.(activeViews := c.activeViews[i := v]), counters, EventWorkspace, SeverityInfo, Ref(KindActive, v.id))
  }

  function RemoveView(vs: seq<ActiveView>, id: string): seq<ActiveView> {
    if vs == [] then [] else if vs[0].id == id then RemoveView(vs[1..], id) else [vs[0]] + RemoveView(vs[1..], id)
  }

  function DoPrune(c: Catalog, counters: Counters, a: Action): Outcome {
    var i := IndexOf(ViewIds(c.activeViews), a.target.id);
    if a.target.kind != KindActive || i < 0 then Failed(NotFound, counters)
    else
      var v := c.activeViews[i];
      if v.pinned then Failed(Protected, counters)
      else if !(v.lastUsed + v.ttlSeconds < c.now) then Failed(Protected, counters)
      else if !a.confirmed then Failed(ConfirmationNeeded, counters)
      else AddEvent(Advance(c).(activeViews := RemoveView(c.activeViews, v.id)), counters,
                    EventWorkspace, SeverityInfo, Ref(KindActive, v.id))
  }

  // ---- input ------------------------------------------------------------------------------

  /** The reply the demo writes to a stream is a fixed function of the input. */
  function Echo(input: string): string { "mock: processed " + input }

  function DoSend(c: Catalog, counters: Counters, a: Action): Outcome {
    var i := IndexOf(TerminalIds(c.terminals), a.target.id);
    if a.target.kind != KindTerminal || i < 0 then Failed(NotFound, counters)
    else if c.terminals[i].state != TerminalLive then Failed(NotLive, counters)
    else if Blank(a.value) then Failed(EmptyValue, counters)
    else
      var c1 := Advance(c);
      var t := c.terminals[i].(lastIO := c1.now);
      var h := AddHistory(c1.(terminals := c.terminals[i := t]), counters, Ref(KindTerminal, t.id),
                          ["$ " + a.value, "(" + t.process + ") " + Echo(a.value)]);
      AddEvent(h.cat, h.counters, EventTerminal, SeverityInfo, Ref(KindTerminal, t.id))
  }

  function Detach(ags: seq<Agent>, terminal: string): seq<Agent> {
    seq(|ags|, i requires 0 <= i < |ags| => if ags[i].terminalID == terminal then ags[i].(terminalID := "") else ags[i])
  }

  function DoKill(c: Catalog, counters: Counters, a: Action): Outcome {
    var i := IndexOf(TerminalIds(c.terminals), a.target.id);
    if a.target.kind != KindTerminal || i < 0 then Failed(NotFound, counters)
    else if c.terminals[i].state != TerminalLive then Failed(NotLive, counters)
    else if !a.confirmed then Failed(ConfirmationNeeded, counters)
    else
      var t := c.terminals[i].(state := TerminalExited);
      AddEvent(Advance(c).(terminals := c.terminals[i := t], agents := Detach(c.agents, t.id)), counters,
               EventTerminal, SeverityWarn, Ref(KindTerminal, t.id))
  }

  // ---- agents -------------------------------------------------------------------------------

  function AgentEvent(c: Catalog, counters: Counters, i: nat, ag: Agent): Outcome
    requires i < |c.agents|
  {
    AddEvent(c.(agents := c.agents[i := ag]), counters, EventAgent, SeverityInfo, Ref(KindAgent, ag.id))
  }

  function DoAgent(c: Catalog, counters: Counters, a: Action): Outcome {
    var i := IndexOf(AgentIds(c.agents), a.target.id);
    if a.target.kind != KindAgent || i < 0 then Failed(NotFound, counters)
    else
      var ag := c.agents[i];
      var c1 := Advance(c);
      match a.kind
      case ActionAgentFocus =>
        if ag.state == AgentDone then Failed(InvalidState, counters)
        else AgentEvent(c1, counters, i, ag.(lastUsed := c1.now, lastFocused := c1.now))
      case ActionAgentPrompt =>
        if ag.state == AgentDone then Failed(InvalidState, counters)
        else if Blank(a.value) then Failed(EmptyValue, counters)
        else
          var ag1 := ag.(state := AgentRunning, prompt := a.value, lastUsed := c1.now,
                         timeline := ag.timeline + [AgentEntry(c1.now, "prompt", a.value), AgentEntry(c1.now, "result", Echo(a.value))]);
          if ag.terminalID == "" then AgentEvent(c1, counters, i, ag1)
          else
            var h := AddHistory(c1, counters, Ref(KindAgent, ag.id), ["prompt: " + a.value, "result: " + Echo(a.value)]);
            AgentEvent(h.cat, h.counters, i, ag1)
      case ActionAgentWait =>
        if ag.state != AgentRunning then Failed(InvalidState, counters)
        else AgentEvent(c1, counters, i, ag.(state := AgentWaiting))
      case _ =>
        if ag.claimedBy != "" then Failed(AlreadyClaimed, counters)
        else if ag.state == AgentDone then Failed(InvalidState, counters)
        else AgentEvent(c1, counters, i, ag.(claimedBy := "demo-operator"))
  }

  // ---- history and snapshots -----------------------------------------------------------------

  function RowsOf(hs: seq<HistoryChunk>, id: string): nat {
    if hs == [] then 0 else (if hs[0].id == id then |hs[0].lines| else 0) + RowsOf(hs[1..], id)
  }

  function SelectedRows(hs: seq<HistoryChunk>, selection: seq<string>): nat {
    if selection == [] then 0 else RowsOf(hs, selection[0]) + SelectedRows(hs, selection[1..])
  }

  function DoExport(c: Catalog, counters: Counters, a: Action): Outcome {
    var rows := SelectedRows(c.history, a.selection);
    if a.selection == [] || rows == 0 then Failed(EmptySelection, counters)
    else
      var c1 := Advance(c);
      var scopes := set i | 0 <= i < |c.history| && c.history[i].id in a.selection :: c.history[i].scope;
      AddEvent(c1.(lastExport := Some(ExportDescriptor(c1.now, rows, scopes, c1.revision))), counters,
               EventSystem, SeverityInfo, Ref(KindHistory, "history"))
  }

  function SnapshotOf(w: Workspace, id: string, now: int, tag: string): Snapshot {
    Snapshot(id, w.id, now, w.backendID, [tag], w.observed, |w.observed|, SurfaceCount(w.observed))
  }

  function SnapshotAll(c: Catalog, counters: Counters, targets: seq<Workspace>): Outcome
    decreases |targets|
  {
    if targets == [] then Accepted(c, counters)
    else
      var (id, next) := NextId(counters, "snap");
      var e := AddEvent(c.(snapshots := c.snapshots + [SnapshotOf(targets[0], id, c.now, "manual")]), next,
                        EventSnapshot, SeverityInfo, Ref(KindSnapshot, id));
      SnapshotAll(e.cat, e.counters, targets[1..])
  }

  function DoSnapshotCreate(c: Catalog, counters: Counters, a: Action): Outcome {
    if a.value == "all" then
      if c.workspaces == [] then Failed(NotFound, counters) else SnapshotAll(Advance(c), counters, c.workspaces)
    else
      var id := if a.value == "" && a.target.kind == KindWorkspace then a.target.id else a.value;
      var k := IndexOf(WorkspaceIds(c.workspaces), id);
      if k < 0 then Failed(NotFound, counters) else SnapshotAll(Advance(c), counters, [c.workspaces[k]])
  }

  function DoSnapshotTag(c: Catalog, counters: Counters, a: Action): Outcome {
    var i := IndexOf(SnapshotIds(c.snapshots), a.target.id);
    if a.target.kind != KindSnapshot || i < 0 then Failed(NotFound, counters)
    else if Blank(a.value) then Failed(EmptyValue, counters)
    else
      var s := c.snapshots[i];
      var s1 := if a.value in s.tags then s else s.(tags := s.tags + [a.value]);
      AddEvent(Advance(c).(snapshots := c.snapshots[i := s1]), counters, EventSnapshot, SeverityInfo, Ref(KindSnapshot, s.id))
  }

  function RemoveSnapshot(ss: seq<Snapshot>, id: string): seq<Snapshot> {
    if ss == [] then [] else if ss[0].id == id then RemoveSnapshot(ss[1..], id) else [ss[0]] + RemoveSnapshot(ss[1..], id)
  }

  function DropPlans(ps: seq<RestorePlan>, snapshot: string): seq<RestorePlan> {
    if ps == [] then []
    else if ps[0].snapshotID == snapshot then DropPlans(ps[1..], snapshot)
    else [ps[0]] + DropPlans(ps[1..], snapshot)
  }

  function DoSnapshotDelete(c: Catalog, counters: Counters, a: Action): Outcome {
    var i := IndexOf(SnapshotIds(c.snapshots), a.target.id);
    if a.target.kind != KindSnapshot || i < 0 then Failed(NotFound, counters)
    else if !a.confirmed then Failed(ConfirmationNeeded, counters)
    else
      var id := c.snapshots[i].id;
      AddEvent(Advance(c).(snapshots := RemoveSnapshot(c.snapshots, id), restorePlans := DropPlans(c.restorePlans, id)), counters,
               EventSnapshot, SeverityWarn, Ref(KindSnapshot, id))
  }

  function DoSnapshotPlan(c: Catalog, counters: Counters, a: Action): Outcome {
    var i := IndexOf(SnapshotIds(c.snapshots), a.target.id);
    if a.target.kind != KindSnapshot || i < 0 then Failed(NotFound, counters)
    else
      var s := c.snapshots[i];
      var k := IndexOf(WorkspaceIds(c.workspaces), s.workspaceID);
      if k < 0 then Failed(NotFound, counters)
      else
        var c1 := Advance(c);
        var w := c.workspaces[k];
        var (id, next) := NextId(counters, "plan");
        var p := RestorePlan(id, s.id, w.id, PlanPending, c1.now, BuildOps(w, s.state), 0, 0, 0, []);
        AddEvent(c1.(restorePlans := c.restorePlans + [p]), next, EventRestore, SeverityInfo, Ref(KindPlan, id))
  }

  // ---- restore ---------------------------------------------------------------------------------

  /** Is the operation part of what is applied: selected by id if there is a selection, else included. */
  predicate Chosen(op: RestoreOp, mode: RestoreMode, selection: seq<string>) {
    op.mode == mode && if selection != [] then op.id in selection else op.included
  }

  function ChosenOps(ops: seq<RestoreOp>, mode: RestoreMode, selection: seq<string>): seq<RestoreOp> {
    if ops == [] then []
    else if Chosen(ops[0], mode, selection) then [ops[0]] + ChosenOps(ops[1..], mode, selection)
    else ChosenOps(ops[1..], mode, selection)
  }

  /** The plan's operations with the selection and the time of application noted. */
  function MarkOps(ops: seq<RestoreOp>, mode: RestoreMode, selection: seq<string>, now: int): seq<RestoreOp> {
    seq(|ops|, i requires 0 <= i < |ops| =>
      if ops[i].mode != mode then ops[i]
      else if !Chosen(ops[i], mode, selection) then ops[i].(included := ops[i].included && selection == [])
      else ops[i].(included := true, appliedAt := if mode == RestoreFreeze then ops[i].appliedAt else now))
  }

  function UndoRecord(op: RestoreOp): RestoreOp {
    RestoreOp(op.id, op.mode, Ref(KindOther(""), ""), op.field, op.before, op.after, op.beforeAbsent, true, 0)
  }

  function UndoRecords(ops: seq<RestoreOp>): seq<RestoreOp> {
    seq(|ops|, i requires 0 <= i < |ops| => UndoRecord(ops[i]))
  }

  /** One protecting snapshot per chosen freeze operation, and how to take each back. */
  function FreezeAll(c: Catalog, counters: Counters, w: Workspace, ops: seq<RestoreOp>): (Catalog, Counters, seq<RestoreOp>)
    decreases |ops|
  {
    if ops == [] then (c, counters, [])
    else
      var (id, next) := NextId(counters, "snap");
      var c1 := c.(snapshots := c.snapshots + [SnapshotOf(w, id, c.now, "reconcile-freeze")]);
      var undo := RestoreOp(ops[0].id, RestoreFreeze, Ref(KindOther(""), ""), "snapshot:" + id, id, "", false, true, 0);
      var (c2, last, rest) := FreezeAll(c1, next, w, ops[1..]);
      (c2, last, [undo] + rest)
  }

  /** The side of a workspace that a mode edits. */
  function Side(w: Workspace, mode: RestoreMode): WorkspaceState {
    if mode == RestorePush then w.observed else w.desired
  }

  function WithSide(w: Workspace, mode: RestoreMode, state: WorkspaceState): Workspace {
    if mode == RestorePush then w.(observed := state) else w.(desired := state)
  }

  function FinishApply(c: Catalog, counters: Counters, j: nat, k: nat, w: Workspace, mode: RestoreMode,
                       selection: seq<string>, undo: seq<RestoreOp>): Outcome
    requires j < |c.restorePlans| && k < |c.workspaces|
  {
    var p := c.restorePlans[j];
    var p1 := p.(status := PlanApplied, appliedAt := c.now, appliedSerial := c.mutationSerial + 1, undoOps := undo,
                 ops := MarkOps(p.ops, mode, selection, c.now));
    AddEvent(c.(restorePlans := c.restorePlans[j := p1], workspaces := c.workspaces[k := ReconcileStatus(w)]), counters,
             EventRestore, SeverityInfo, Ref(KindPlan, p.id))
  }

  function DoRestoreApply(c: Catalog, counters: Counters, a: Action): Outcome {
    var j := IndexOf(PlanIds(c.restorePlans), a.target.id);
    if a.target.kind != KindPlan || j < 0 then Failed(NotFound, counters)
    else if c.restorePlans[j].status != PlanPending then Failed(StalePlan, counters)
    else if !a.confirmed then Failed(ConfirmationNeeded, counters)
    else if a.value !in {"push", "pull", "freeze"} then Failed(ValidationFailed, counters)
    else
      var p := c.restorePlans[j];
      var mode := if a.value == "push" then RestorePush else if a.value == "pull" then RestorePull else RestoreFreeze;
      var ops := ChosenOps(p.ops, mode, a.selection);
      if ops == [] then Failed(EmptySelection, counters)
      else
        var k := IndexOf(WorkspaceIds(c.workspaces), p.workspaceID);
        if k < 0 then Failed(NotFound, counters)
        else
          var c1, w := Advance(c), c.workspaces[k];
          if mode == RestoreFreeze then
            var (c2, next, undo) := FreezeAll(c1, counters, w, ops);
            FinishApply(c1.(snapshots := c2.snapshots), next, j, k, w, mode, a.selection, undo)
          else
            match ApplyOps(Side(w, mode), ops)
            case Refused => Failed(StalePlan, counters)
            case Edited(state) =>
              FinishApply(c1, counters, j, k, WithSide(w, mode, state), mode, a.selection, UndoRecords(ops))
  }

  /** The applied plan with the greatest id, as strings compare; -1 if none is applied. */
  function LatestApplied(ps: seq<RestorePlan>): (j: int)
    ensures -1 <= j < |ps|
    ensures j >= 0 ==> ps[j].status == PlanApplied
  {
    if ps == [] then -1
    else
      var n := |ps| - 1;
      var j := LatestApplied(ps[..n]);
      if ps[n].status == PlanApplied && (j < 0 || Less(ps[j].id, ps[n].id)) then n else j
  }

  /** One undo record taken back: a snapshot dropped, or a field restored. */
  function UndoStep(ss: seq<Snapshot>, w: Workspace, op: RestoreOp): Option<(seq<Snapshot>, Workspace)> {
    if op.mode == RestoreFreeze then Some((RemoveSnapshot(ss, op.before), w))
    else
      match UndoOne(Side(w, op.mode), op)
      case Refused => None
      case Edited(state) => Some((ss, WithSide(w, op.mode, state)))
  }

  function UndoAll(ss: seq<Snapshot>, w: Workspace, ops: seq<RestoreOp>): Option<(seq<Snapshot>, Workspace)>
    decreases |ops|
  {
    if ops == [] then Some((ss, w))
    else
      match UndoAll(ss, w, ops[1..])
      case None => None
      case Some((ss1, w1)) => UndoStep(ss1, w1, ops[0])
  }

  function DoUndo(c: Catalog, counters: Counters, a: Action): Outcome {
    var j := LatestApplied(c.restorePlans);
    if j < 0 then Failed(UndoUnavailable, counters)
    else
      var p := c.restorePlans[j];
      if a.target.id != "" && a.target.id != p.id then Failed(UndoStale, counters)
      else if c.mutationSerial != p.appliedSerial then Failed(UndoStale, counters)
      else
        var k := IndexOf(WorkspaceIds(c.workspaces), p.workspaceID);
        if k < 0 then Failed(NotFound, counters)
        else
          var c1 := Advance(c);
          match UndoAll(c.snapshots, c.workspaces[k], p.undoOps)
          case None => Failed(UndoStale, counters)
          case Some((ss, w)) =>
            var p1 := p.(status := PlanUndone, undoneAt := c1.now);
            AddEvent(c1.(snapshots := ss, workspaces := c.workspaces[k := ReconcileStatus(w)], restorePlans := c.restorePlans[j := p1]),
                     counters, EventRestore, SeverityInfo, Ref(KindPlan, p.id))
  }

  // ---- backends, machines, performance, configuration ---------------------------------------------

  function DoBackendCheck(c: Catalog, counters: Counters, a: Action): Outcome {
    var i := IndexOf(BackendIds(c.backends), a.target.id);
    if a.target.kind != KindBackend || i < 0 then Failed(NotFound, counters)
    else
      var be := c.backends[i];
      var c1 := Advance(c);
      if be.status == BackendUnavailable then
        if a.kind == ActionBackendProbe then Failed(ProbeTimeout, counters)
        else
          var be1 := be.(lastProbe := ProbeResult(c1.now, false, 0, be.unsupportedReasons));
          AddEvent(c1.(backends := c.backends[i := be1]), counters, EventBackend, SeverityWarn, Ref(KindBackend, be.id))
      else
        var findings := be.capabilities + if a.kind == ActionBackendDoctor then be.unsupportedReasons else [];
        var be1 := be.(lastProbe := ProbeResult(c1.now, true, 3 + |be.capabilities| * 2, findings));
        AddEvent(c1.(backends := c.backends[i := be1]), counters, EventBackend, SeverityInfo, Ref(KindBackend, be.id))
  }

  function DoBackendToggle(c: Catalog, counters: Counters, a: Action): Outcome {
    var i := IndexOf(BackendIds(c.backends), a.target.id);
    if a.target.kind != KindBackend || i < 0 then Failed(NotFound, counters)
    else
      var be := c.backends[i];
      if be.isDefault then Failed(Protected, counters)
      else if be.enabled && !a.confirmed then Failed(ConfirmationNeeded, counters)
      else AddEvent(Advance(c).(backends := c.backends[i := be.(enabled := !be.enabled)]), counters,
                    EventBackend, SeverityWarn, Ref(KindBackend, be.id))
  }

  function DoMachine(c: Catalog, counters: Counters, a: Action): Outcome {
    var i := IndexOf(MachineIds(c.machines), a.target.id);
    if a.target.kind != KindMachine || i < 0 then Failed(NotFound, counters)
    else
      var m := c.machines[i];
      if m.status == MachineOffline then Failed(Unreachable, counters)
      else
        var c1 := Advance(c);
        var findings := ["ssh ok"] + if a.kind == ActionMachineDoctor then ["tmux 3.4", "disk 62%"] else [];
        var m1 := m.(heartbeat := c1.now, lastResult := ProbeResult(c1.now, true, m.latencyMS, findings));
        AddEvent(c1.(machines := c.machines[i := m1]), counters, EventMachine, SeverityInfo, Ref(KindMachine, m.id))
  }

  /** The last `n` elements. */
  function Tail<T>(s: seq<T>, n: nat): (r: seq<T>)
    ensures |r| <= n && |r| <= |s|
  {
    if |s| > n then s[|s| - n..] else s
  }

  function DoPerf(c: Catalog, counters: Counters, a: Action): Outcome {
    if !c.performance.available then Failed(Busy, counters)
    else
      var c1 := Advance(c);
      var p := c.performance;
      var p1 := if a.kind == ActionPerfRecord
                then p.(traces := Tail(p.traces + [PerfTrace(c1.now, "input", 9 + |p.traces| % 5)], 20))
                else p.(benchmarks := Tail(p.benchmarks + [PerfBenchmark(c1.now, 500, 4, 11 + |p.benchmarks| % 7)], 20));
      AddEvent(c1.(performance := p1), counters, EventSystem, SeverityInfo, Ref(KindConfig, "performance"))
  }

  const BASE_CONFIG := Config("dashboard", LeaderIcon, "tmux", HistoryPersistent, 720, OverflowReject, true, false, TrustLocalOnly, [])

  function DoConfig(c: Catalog, counters: Counters, a: Action): Outcome {
    if a.kind == ActionConfigReload then
      AddEvent(Advance(c).(config := BASE_CONFIG), counters, EventConfig, SeverityInfo, Ref(KindConfig, "config"))
    else if Blank(a.value) then Failed(EmptyValue, counters)
    else if a.draft.None? || !ConfigOk(a.draft.value) then Failed(ValidationFailed, counters)
    else
      var c1 := Advance(c);
      AddEvent(if a.kind == ActionConfigSave then c1.(config := a.draft.value) else c1, counters,
               EventConfig, SeverityInfo, Ref(KindConfig, "config"))
  }

  // ---- the table ---------------------------------------------------------------------------------

  function Apply(c: Catalog, counters: Counters, a: Action): Outcome {
    match a.kind
    case ActionAttach => DoAttach(c, counters, a)
    case ActionFreeze => DoFreeze(c, counters, a)
    case ActionSplit => DoSplit(c, counters, a)
    case ActionLink => DoLink(c, counters, a)
    case ActionPin => DoPin(c, counters, a)
    case ActionUnpin => DoPin(c, counters, a)
    case ActionTouch => DoTouch(c, counters, a)
    case ActionPrune => DoPrune(c, counters, a)
    case ActionSend => DoSend(c, counters, a)
    case ActionKill => DoKill(c, counters, a)
    case ActionAgentFocus => DoAgent(c, counters, a)
    case ActionAgentPrompt => DoAgent(c, counters, a)
    case ActionAgentWait => DoAgent(c, counters, a)
    case ActionAgentClaim => DoAgent(c, counters, a)
    case ActionHistoryExport => DoExport(c, counters, a)
    case ActionSnapshotCreate => DoSnapshotCreate(c, counters, a)
    case ActionSnapshotTag => DoSnapshotTag(c, counters, a)
    case ActionSnapshotDelete => DoSnapshotDelete(c, counters, a)
    case ActionSnapshotPlan => DoSnapshotPlan(c, counters, a)
    case ActionRestoreApply => DoRestoreApply(c, counters, a)
    case ActionReconcileUndo => DoUndo(c, counters, a)
    case ActionBackendProbe => DoBackendCheck(c, counters, a)
    case ActionBackendDoctor => DoBackendCheck(c, counters, a)
    case ActionBackendToggle => DoBackendToggle(c, counters, a)
    case ActionMachineConnect => DoMachine(c, counters, a)
    case ActionMachinePing => DoMachine(c, counters, a)
    case ActionMachineDoctor => DoMachine(c, counters, a)
    case ActionPerfRecord => DoPerf(c, counters, a)
    case ActionPerfBenchmark => DoPerf(c, counters, a)
    case ActionConfigValidate => DoConfig(c, counters, a)
    case ActionConfigSave => DoConfig(c, counters, a)
    case ActionConfigReload => DoConfig(c, counters, a)
    case ActionOther(_) => Failed(ValidationFailed, counters)
  }

  // ---- ticks --------------------------------------------------------------------------------------

  function FirstRunning(ags: seq<Agent>, from: nat := 0): (i: int)
    requires from <= |ags|
    ensures -1 <= i < |ags|
    ensures i >= 0 ==> ags[i].state == AgentRunning
    decreases |ags| - from
  {
    if from == |ags| then -1 else if ags[from].state == AgentRunning then from else FirstRunning(ags, from + 1)
  }

  function TickAgent(c: Catalog, counters: Counters): Outcome {
    var i := FirstRunning(c.agents);
    if i < 0 then Accepted(c, counters)
    else
      var ag := c.agents[i];
      AgentEvent(c, counters, i, ag.(progress := if ag.progress + 1 < 99 then ag.progress + 1 else 99))
  }

  function Sample(now: int, n: nat): PerfSample {
    PerfSample(now, 3 + n % 3, 8 + n % 5, 11 + n % 7, 15 + n % 6, 30 + n % 9, n % 4)
  }

  function Beat(ms: seq<Machine>, now: int): seq<Machine> {
    seq(|ms|, i requires 0 <= i < |ms| => if ms[i].status == MachineOnline then ms[i].(heartbeat := now) else ms[i])
  }

  /** The catalog after the `n`-th tick. */
  function DoTick(c: Catalog, counters: Counters, n: nat): Outcome {
    var c1 := Advance(c);
    var p := c.performance.(samples := Tail(c.performance.samples + [Sample(c1.now, n)], MAX_PERF_SAMPLES));
    var c2 := c1.(performance := p, machines := Beat(c.machines, c1.now));
    if c.scenario == ScenarioDefault && n % 5 == 0 then TickAgent(c2, counters) else Accepted(c2, counters)
  }
}
