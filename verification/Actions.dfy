/**
 * When each action is accepted, what it changes and what it leaves alone; and what no run of them ever undoes.
 * (tmh-next/internal/mock/backend.go)
 */
module Actions {
  import opened Text
  import opened Topology
  import opened Domain
  import opened Plan
  import opened Validation
  import opened Transitions
  import opened Gate
  import opened GateExact
  import opened Backend
  import opened Runs

  // ---- the frame of an action ------------------------------------------------------------------------

  datatype Part =
    | Workspaces | Views | Terminals | Agents | History | Snapshots | Plans | Backends | Machines | Perf | Settings | Export

  /** Apart from these lists nothing changes but the clock, and one event is added that names the resource. */
  ghost predicate Only(c: Catalog, d: Catalog, parts: set<Part>, category: EventCategory, severity: EventSeverity, resource: ResourceRef) {
    && d.revision == c.revision + 1 && d.now == c.now + 1 && d.mutationSerial == c.mutationSerial && d.scenario == c.scenario
    && (Workspaces !in parts ==> d.workspaces == c.workspaces) && (Views !in parts ==> d.activeViews == c.activeViews)
    && (Terminals !in parts ==> d.terminals == c.terminals) && (Agents !in parts ==> d.agents == c.agents)
    && (History !in parts ==> d.history == c.history) && (Snapshots !in parts ==> d.snapshots == c.snapshots)
    && (Plans !in parts ==> d.restorePlans == c.restorePlans) && (Backends !in parts ==> d.backends == c.backends)
    && (Machines !in parts ==> d.machines == c.machines) && (Perf !in parts ==> d.performance == c.performance)
    && (Settings !in parts ==> d.config == c.config) && (Export !in parts ==> d.lastExport == c.lastExport)
    && |d.events| == |c.events| + 1 && c.events <= d.events
    && var e := d.events[|c.events|];
       e.at == d.now && e.category == category && e.severity == severity && e.resource == resource
       && (c.events != [] ==> e.seqNo == c.events[|c.events| - 1].seqNo + 1)
  }

  /** The element at that place is another one now, and the others stay. */
  predicate Swapped<T(==)>(a: seq<T>, b: seq<T>, i: nat) {
    |a| == |b| && i < |a| && forall j :: 0 <= j < |a| && j != i ==> b[j] == a[j]
  }

  // ---- active views -----------------------------------------------------------------------------------

  /** Pinning and unpinning turn the mark over; a pinned view has no time to live, an unpinned one a quarter of an hour. */
  lemma PinActs(c: Catalog, counters: Counters, a: Action)
    requires a.kind == ActionPin || a.kind == ActionUnpin
    ensures var r, i := DoPin(c, counters, a), IndexOf(ViewIds(c.activeViews), a.target.id);
            && (r.Accepted? <==> a.target.kind == KindActive && i >= 0 && (c.activeViews[i].pinned <==> a.kind == ActionUnpin))
            && (r.Accepted? ==>
                  && Only(c, r.cat, {Views}, EventWorkspace, SeverityInfo, Ref(KindActive, a.target.id)) && Swapped(c.activeViews, r.cat.activeViews, i)
                  && var before, v := c.activeViews[i], r.cat.activeViews[i];
                     && (v.pinned <==> a.kind == ActionPin) && v.kind == (if v.pinned then ActivePinned else ActiveRecent)
                     && v.ttlSeconds == (if v.pinned then 0 else 900) && v == before.(pinned := v.pinned, kind := v.kind, ttlSeconds := v.ttlSeconds))
  {
    hide IdOf, IndexOf;
  }

  lemma TouchActs(c: Catalog, counters: Counters, a: Action)
    ensures var r, i := DoTouch(c, counters, a), IndexOf(ViewIds(c.activeViews), a.target.id);
            && (r.Accepted? <==> a.target.kind == KindActive && i >= 0)
            && (r.Accepted? ==>
                  && Only(c, r.cat, {Views}, EventWorkspace, SeverityInfo, Ref(KindActive, a.target.id)) && Swapped(c.activeViews, r.cat.activeViews, i)
                  && r.cat.activeViews[i].lastUsed == r.cat.now && r.cat.activeViews[i] == c.activeViews[i].(lastUsed := r.cat.now))
  {
    hide IdOf, IndexOf;
  }

  lemma {:induction false} RemoveViewSpec(vs: seq<ActiveView>, id: string)
    ensures forall v :: v in RemoveView(vs, id) <==> v in vs && v.id != id
  {
    if vs != [] {
      RemoveViewSpec(vs[1..], id);
      assert vs == [vs[0]] + vs[1..];
    }
  }

  /** A view is pruned exactly if it is not pinned, its time is up and the user agreed; no other view goes. */
  lemma PruneActs(c: Catalog, counters: Counters, a: Action)
    ensures var r, i := DoPrune(c, counters, a), IndexOf(ViewIds(c.activeViews), a.target.id);
            && (r.Accepted? <==> a.target.kind == KindActive && i >= 0 && a.confirmed && !c.activeViews[i].pinned
                                 && c.activeViews[i].lastUsed + c.activeViews[i].ttlSeconds < c.now)
            && (r.Failed? && a.target.kind == KindActive && i >= 0 ==>
                  r.code == if c.activeViews[i].pinned || c.activeViews[i].lastUsed + c.activeViews[i].ttlSeconds >= c.now then Protected else ConfirmationNeeded)
            && (r.Accepted? ==>
                  && Only(c, r.cat, {Views}, EventWorkspace, SeverityInfo, Ref(KindActive, a.target.id))
                  && forall v :: v in r.cat.activeViews <==> v in c.activeViews && v.id != a.target.id)
  {
    hide IdOf, IndexOf, RemoveView;
    RemoveViewSpec(c.activeViews, a.target.id);
  }

  // ---- terminals ----------------------------------------------------------------------------------------

  lemma {:induction false} NextSeqSpec(hs: seq<HistoryChunk>, scope: ResourceRef)
    ensures NextSeq(hs, scope) >= 1 && forall h :: h in hs && h.scope == scope ==> h.seqNo < NextSeq(hs, scope)
    ensures NextSeq(hs, scope) == 1 || exists h :: h in hs && h.scope == scope && h.seqNo + 1 == NextSeq(hs, scope)
  {
    if hs != [] {
      var n := |hs| - 1;
      NextSeqSpec(hs[..n], scope);
      assert hs == hs[..n] + [hs[n]];
    }
  }

  /** One more chunk of history, numbered after all of the same scope. */
  ghost predicate Noted(before: seq<HistoryChunk>, after: seq<HistoryChunk>, scope: ResourceRef, now: int) {
    && |after| == |before| + 1 && before <= after
    && var h := after[|before|];
       h.scope == scope && h.at == now && |h.lines| == 2
       && (forall x :: x in before && x.scope == scope ==> x.seqNo < h.seqNo)
       && (h.seqNo == 1 || exists x :: x in before && x.scope == scope && x.seqNo + 1 == h.seqNo)
  }

  /** Input goes to a live terminal, with the echo in its history. */
  lemma SendActs(c: Catalog, counters: Counters, a: Action)
    ensures var r, i := DoSend(c, counters, a), IndexOf(TerminalIds(c.terminals), a.target.id);
            && (r.Accepted? <==> a.target.kind == KindTerminal && i >= 0 && c.terminals[i].state == TerminalLive && !Blank(a.value))
            && (r.Accepted? ==>
                  && Only(c, r.cat, {Terminals, History}, EventTerminal, SeverityInfo, a.target) && Swapped(c.terminals, r.cat.terminals, i)
                  && r.cat.terminals[i] == c.terminals[i].(lastIO := r.cat.now)
                  && Noted(c.history, r.cat.history, a.target, r.cat.now))
  {
    hide IdOf, IndexOf, Blank, Echo, NextSeq;
    NextSeqSpec(c.history, a.target);
  }

  /** A killed terminal has exited, and every agent it ran has lost it. */
  lemma KillActs(c: Catalog, counters: Counters, a: Action)
    ensures var r, i := DoKill(c, counters, a), IndexOf(TerminalIds(c.terminals), a.target.id);
            && (r.Accepted? <==> a.target.kind == KindTerminal && i >= 0 && c.terminals[i].state == TerminalLive && a.confirmed)
            && (r.Accepted? ==>
                  && Only(c, r.cat, {Terminals, Agents}, EventTerminal, SeverityWarn, a.target) && Swapped(c.terminals, r.cat.terminals, i)
                  && r.cat.terminals[i].state == TerminalExited && r.cat.terminals[i] == c.terminals[i].(state := TerminalExited)
                  && |r.cat.agents| == |c.agents|
                  && forall k :: 0 <= k < |c.agents| ==>
                       r.cat.agents[k] == if c.agents[k].terminalID == a.target.id then c.agents[k].(terminalID := "") else c.agents[k])
  {
    hide IdOf, IndexOf;
  }

  // ---- workspaces ----------------------------------------------------------------------------------------

  /** A frozen workspace takes what it shows for what is wanted. */
  lemma FreezeActs(c: Catalog, counters: Counters, a: Action)
    ensures var r, k := DoFreeze(c, counters, a), IndexOf(WorkspaceIds(c.workspaces), a.target.id);
            && (r.Accepted? <==> a.target.kind == KindWorkspace && k >= 0)
            && (r.Accepted? ==>
                  && Only(c, r.cat, {Workspaces}, EventWorkspace, SeverityInfo, a.target) && Swapped(c.workspaces, r.cat.workspaces, k)
                  && var before, w := c.workspaces[k], r.cat.workspaces[k];
                     && w.desired == w.observed == before.observed && w.drift == [] && w.status == WorkspaceFrozen
                     && w == before.(desired := w.desired, drift := [], status := WorkspaceFrozen))
  {
    hide IdOf, IndexOf;
  }

  /** The window that shows the surface gets the new one at its end and an even layout; every other window stays as it was. */
  lemma SplitPlaces(ws: WorkspaceState, beside: string, sf: SurfaceSpec)
    requires HasSurface(ws, beside)
    ensures var t := SplitObserved(ws, beside, sf);
            exists i :: 0 <= i < |ws| && HoldsSurface(ws[i], beside) && (forall j :: 0 <= j < i ==> !HoldsSurface(ws[j], beside))
                        && Swapped(ws, t, i) && t[i] == ws[i].(layout := "even-horizontal", surfaces := ws[i].surfaces + [sf])
  {
    hide SurfaceIndex;
    var i := HolderIndex(ws, beside);
    assert HoldsSurface(ws[i], beside);
    assert Swapped(ws, SplitObserved(ws, beside, sf), i);
  }

  /** A split adds a live terminal, listed last by its workspace, that shows the new surface; both sides are the split state. */
  lemma SplitActs(c: Catalog, counters: Counters, a: Action)
    ensures var r, i := DoSplit(c, counters, a), IndexOf(TerminalIds(c.terminals), a.target.id);
            var k := if i < 0 then -1 else IndexOf(WorkspaceIds(c.workspaces), c.terminals[i].workspaceID);
            && (r.Accepted? <==> a.target.kind == KindTerminal && k >= 0 && c.terminals[i].state == TerminalLive
                                 && HasSurface(c.workspaces[k].observed, c.terminals[i].surfaceID))
            && (r.Accepted? ==>
                  var id, sf := IdOf("term", Issued(counters, "term") + 1), IdOf("sf", Issued(counters, "sf") + 1);
                  && Only(c, r.cat, {Workspaces, Terminals}, EventTerminal, SeverityInfo, Ref(KindTerminal, id))
                  && Swapped(c.workspaces, r.cat.workspaces, k) && |r.cat.terminals| == |c.terminals| + 1 && c.terminals <= r.cat.terminals
                  && var t, n, before, w := c.terminals[i], r.cat.terminals[|c.terminals|], c.workspaces[k], r.cat.workspaces[k];
                     && n.id == id && n.surfaceID == sf && n.workspaceID == w.id && n.state == TerminalLive && n.cwd == t.cwd && n.backendID == t.backendID
                     && w.terminalIDs == before.terminalIDs + [id] && w.desired == w.observed
                     && w.observed == SplitObserved(before.observed, t.surfaceID, SurfaceSpec(sf, "terminal", t.cwd, "none"))
                     && w == before.(desired := w.desired, observed := w.observed, terminalIDs := w.terminalIDs))
  {
    hide IdOf, IndexOf, HasSurface, SplitObserved;
  }

  lemma {:induction false} RemoveIDSpec(ids: seq<string>, id: string)
    ensures forall x :: x in RemoveID(ids, id) <==> x in ids && x != id
  {
    if ids != [] {
      RemoveIDSpec(ids[1..], id);
      assert ids == [ids[0]] + ids[1..];
    }
  }

  lemma FirstSurfaceIs(ws: WorkspaceState)
    ensures FirstSurface(ws) == if ws != [] && ws[0].surfaces != [] then Some(ws[0].surfaces[0].id) else None
  {
  }

  /** The terminal shows the first surface of the workspace it is linked to, if there is one. */
  predicate LinkedTo(t: Terminal, w: Workspace, after: Terminal) {
    && after == t.(workspaceID := w.id, surfaceID := after.surfaceID)
    && after.surfaceID == if w.observed != [] && w.observed[0].surfaces != [] then w.observed[0].surfaces[0].id else t.surfaceID
  }

  /** Of the workspaces only the lists of terminals change, and in them only this terminal: it is in the one, and not where it was. */
  ghost predicate Listed(before: seq<Workspace>, after: seq<Workspace>, k: nat, id: string, home: string) {
    && |after| == |before| && k < |after| && id in after[k].terminalIDs
    && forall m :: 0 <= m < |before| ==>
         && after[m] == before[m].(terminalIDs := after[m].terminalIDs)
         && (m != k && before[m].id == home ==> id !in after[m].terminalIDs)
         && forall x :: x != id ==> (x in after[m].terminalIDs <==> x in before[m].terminalIDs)
  }

  /** A linked terminal belongs to the workspace named, is listed there and no longer where it was. */
  lemma LinkActs(c: Catalog, counters: Counters, a: Action)
    requires IdsOk(WorkspaceIds(c.workspaces))
    ensures var r, i, k := DoLink(c, counters, a), IndexOf(TerminalIds(c.terminals), a.target.id), IndexOf(WorkspaceIds(c.workspaces), a.value);
            && (r.Accepted? <==> a.target.kind == KindTerminal && i >= 0 && k >= 0)
            && (r.Accepted? ==>
                  && Only(c, r.cat, {Workspaces, Terminals}, EventTerminal, SeverityInfo, a.target) && Swapped(c.terminals, r.cat.terminals, i)
                  && LinkedTo(c.terminals[i], c.workspaces[k], r.cat.terminals[i])
                  && Listed(c.workspaces, r.cat.workspaces, k, a.target.id, c.terminals[i].workspaceID))
  {
    hide IdOf, IndexOf, RemoveID, FirstSurface, Listed, IdsOk;
    forall ws { FirstSurfaceIs(ws); }
    LinkLists(c, counters, a);
  }

  lemma LinkLists(c: Catalog, counters: Counters, a: Action)
    requires IdsOk(WorkspaceIds(c.workspaces))
    ensures var r, i, k := DoLink(c, counters, a), IndexOf(TerminalIds(c.terminals), a.target.id), IndexOf(WorkspaceIds(c.workspaces), a.value);
            r.Accepted? ==> Listed(c.workspaces, r.cat.workspaces, k, a.target.id, c.terminals[i].workspaceID)
  {
    hide IdOf, IndexOf, RemoveID, FirstSurface, Listed, IdsOk;
    var i, k := IndexOf(TerminalIds(c.terminals), a.target.id), IndexOf(WorkspaceIds(c.workspaces), a.value);
    if i >= 0 && k >= 0 {
      var o := IndexOf(WorkspaceIds(c.workspaces), c.terminals[i].workspaceID);
      ListsMoved(c.workspaces, o, k, a.target.id, c.terminals[i].workspaceID);
    }
  }

  /** Taking a terminal off one list and putting it on another. */
  lemma ListsMoved(ws: seq<Workspace>, o: int, k: nat, id: string, home: string)
    requires IdsOk(WorkspaceIds(ws)) && k < |ws| && o == IndexOf(WorkspaceIds(ws), home)
    ensures var off := if o >= 0 then ws[o := ws[o].(terminalIDs := RemoveID(ws[o].terminalIDs, id))] else ws;
            Listed(ws, off[k := off[k].(terminalIDs := off[k].terminalIDs + [id])], k, id, home)
  {
    hide IndexOf, RemoveID;
    var ids := WorkspaceIds(ws);
    assert forall m :: 0 <= m < |ws| ==> ids[m] == ws[m].id;
    if o >= 0 { RemoveIDSpec(ws[o].terminalIDs, id); }
  }

  // ---- agents --------------------------------------------------------------------------------------------

  /** Which agents accept which action. */
  predicate AgentAccepts(ag: Agent, a: Action) {
    match a.kind
    case ActionAgentFocus => ag.state != AgentDone
    case ActionAgentPrompt => ag.state != AgentDone && !Blank(a.value)
    case ActionAgentWait => ag.state == AgentRunning
    case _ => ag.claimedBy == "" && ag.state != AgentDone
  }

  /** What the agent is afterwards. */
  predicate AgentChanged(before: Agent, after: Agent, a: Action, now: int) {
    && after == before.(state := after.state, prompt := after.prompt, timeline := after.timeline,
                        claimedBy := after.claimedBy, lastUsed := after.lastUsed, lastFocused := after.lastFocused)
    && after.state == (if a.kind == ActionAgentPrompt then AgentRunning else if a.kind == ActionAgentWait then AgentWaiting else before.state)
    && after.prompt == (if a.kind == ActionAgentPrompt then a.value else before.prompt)
    && before.timeline <= after.timeline && |after.timeline| == |before.timeline| + (if a.kind == ActionAgentPrompt then 2 else 0)
    && after.claimedBy == (if a.kind == ActionAgentClaim then "demo-operator" else before.claimedBy)
    && after.lastUsed == (if a.kind == ActionAgentFocus || a.kind == ActionAgentPrompt then now else before.lastUsed)
    && after.lastFocused == (if a.kind == ActionAgentFocus then now else before.lastFocused)
  }

  /** What an accepted action on the `i`-th agent leaves. */
  ghost predicate AgentOutcome(c: Catalog, r: Outcome, a: Action, i: nat) {
    && r.Accepted? && i < |c.agents| && Only(c, r.cat, {Agents, History}, EventAgent, SeverityInfo, a.target) && Swapped(c.agents, r.cat.agents, i)
    && AgentChanged(c.agents[i], r.cat.agents[i], a, r.cat.now)
    && if a.kind == ActionAgentPrompt && c.agents[i].terminalID != "" then Noted(c.history, r.cat.history, a.target, r.cat.now) else r.cat.history == c.history
  }

  /** A prompt makes an agent run, waiting is for running ones, a claim is once and for all, and one that is done stays so. */
  lemma {:induction false} AgentActs(c: Catalog, counters: Counters, a: Action)
    requires a.kind in {ActionAgentFocus, ActionAgentPrompt, ActionAgentWait, ActionAgentClaim}
    ensures var r, i := DoAgent(c, counters, a), IndexOf(AgentIds(c.agents), a.target.id);
            && (r.Accepted? <==> a.target.kind == KindAgent && i >= 0 && AgentAccepts(c.agents[i], a))
            && (r.Accepted? ==> AgentOutcome(c, r, a, i))
  {
    hide IdOf, IndexOf, Blank, Echo, AgentEvent, AddHistory, AgentOutcome;
    var i := IndexOf(AgentIds(c.agents), a.target.id);
    if a.target.kind == KindAgent && i >= 0 && AgentAccepts(c.agents[i], a) {
      if a.kind == ActionAgentPrompt { PromptActs(c, counters, a, i); } else { QuietActs(c, counters, a, i); }
    }
  }

  lemma {:induction false} PromptActs(c: Catalog, counters: Counters, a: Action, i: nat)
    requires a.kind == ActionAgentPrompt && a.target.kind == KindAgent && i == IndexOf(AgentIds(c.agents), a.target.id)
    requires i < |c.agents| && c.agents[i].state != AgentDone && !Blank(a.value)
    ensures DoAgent(c, counters, a).Accepted? && AgentOutcome(c, DoAgent(c, counters, a), a, i)
  {
    hide IdOf, IndexOf, Blank, Echo, AgentEvent, AddHistory, Only, Swapped, Noted;
    var ag, c1 := c.agents[i], Advance(c);
    var lines := ["prompt: " + a.value, "result: " + Echo(a.value)];
    var h := AddHistory(c1, counters, a.target, lines);
    HistoryNoted(c1, counters, a.target, lines);
    var spoken := ag.(state := AgentRunning, prompt := a.value, lastUsed := c1.now,
                      timeline := ag.timeline + [AgentEntry(c1.now, "prompt", a.value), AgentEntry(c1.now, "result", Echo(a.value))]);
    AgentOnly(c, c1, counters, i, spoken);
    AgentOnly(c, h.cat, h.counters, i, spoken);
  }

  lemma {:induction false} QuietActs(c: Catalog, counters: Counters, a: Action, i: nat)
    requires a.kind in {ActionAgentFocus, ActionAgentWait, ActionAgentClaim} && a.target.kind == KindAgent
    requires i == IndexOf(AgentIds(c.agents), a.target.id) && i < |c.agents| && AgentAccepts(c.agents[i], a)
    ensures DoAgent(c, counters, a).Accepted? && AgentOutcome(c, DoAgent(c, counters, a), a, i)
  {
    hide IdOf, IndexOf, AgentEvent, AddHistory, Only, Swapped, Noted;
    var ag, c1 := c.agents[i], Advance(c);
    AgentOnly(c, c1, counters, i, ag.(lastUsed := c1.now, lastFocused := c1.now));
    AgentOnly(c, c1, counters, i, ag.(state := AgentWaiting));
    AgentOnly(c, c1, counters, i, ag.(claimedBy := "demo-operator"));
  }

  lemma HistoryNoted(c: Catalog, counters: Counters, scope: ResourceRef, lines: seq<string>)
    requires |lines| == 2
    ensures var r := AddHistory(c, counters, scope, lines);
            r.Accepted? && r.cat == c.(history := r.cat.history) && Noted(c.history, r.cat.history, scope, c.now)
  {
    hide IdOf, NextSeq;
    NextSeqSpec(c.history, scope);
  }

  lemma AgentOnly(c: Catalog, h: Catalog, counters: Counters, i: nat, ag: Agent)
    requires i < |c.agents| && h == Advance(c).(history := h.history) && ag.id == c.agents[i].id
    ensures var r := AgentEvent(h, counters, i, ag);
            && r.Accepted? && Only(c, r.cat, {Agents, History}, EventAgent, SeverityInfo, Ref(KindAgent, ag.id))
            && Swapped(c.agents, r.cat.agents, i) && r.cat.agents[i] == ag && r.cat.history == h.history && r.cat.now == c.now + 1
  {
    hide IdOf;
  }

  // ---- history, snapshots ------------------------------------------------------------------------------------

  /** An export is accepted exactly if what is selected has a line; it counts them and names their scopes. */
  lemma ExportActs(c: Catalog, counters: Counters, a: Action)
    ensures var r := DoExport(c, counters, a);
            && (r.Accepted? <==> exists i, k :: 0 <= i < |c.history| && 0 <= k < |a.selection| && c.history[i].id == a.selection[k] && c.history[i].lines != [])
            && (r.Accepted? ==>
                  && Only(c, r.cat, {Export}, EventSystem, SeverityInfo, Ref(KindHistory, "history"))
                  && r.cat.lastExport.Some? && var e := r.cat.lastExport.value;
                     && e.at == r.cat.now && e.revision == r.cat.revision && e.rows == SelectedRows(c.history, a.selection)
                     && forall scope :: scope in e.scopes <==> exists i :: 0 <= i < |c.history| && c.history[i].id in a.selection && c.history[i].scope == scope)
  {
    hide IdOf, SelectedRows;
    SelectedSome(c.history, a.selection);
  }

  lemma {:induction false} RowsSome(hs: seq<HistoryChunk>, id: string)
    ensures RowsOf(hs, id) > 0 <==> exists i :: 0 <= i < |hs| && hs[i].id == id && hs[i].lines != []
  {
    if hs != [] {
      var t := hs[1..];
      RowsSome(t, id);
      if i :| 0 <= i < |hs| && hs[i].id == id && hs[i].lines != [] { assert i > 0 ==> t[i - 1] == hs[i]; }
      if i :| 0 <= i < |t| && t[i].id == id && t[i].lines != [] { assert hs[i + 1] == t[i]; }
      if hs[0].id == id && hs[0].lines != [] { assert hs[0].id == id; }
    }
  }

  lemma {:induction false} SelectedSome(hs: seq<HistoryChunk>, selection: seq<string>)
    ensures SelectedRows(hs, selection) > 0
            <==> exists i, k :: 0 <= i < |hs| && 0 <= k < |selection| && hs[i].id == selection[k] && hs[i].lines != []
    decreases |selection|
  {
    hide RowsOf;
    if selection != [] {
      var t := selection[1..];
      RowsSome(hs, selection[0]);
      SelectedSome(hs, t);
      if i, k :| 0 <= i < |hs| && 0 <= k < |selection| && hs[i].id == selection[k] && hs[i].lines != [] {
        assert k > 0 ==> t[k - 1] == selection[k];
      }
      if i, k :| 0 <= i < |hs| && 0 <= k < |t| && hs[i].id == t[k] && hs[i].lines != [] { assert selection[k + 1] == t[k]; }
      if i :| 0 <= i < |hs| && hs[i].id == selection[0] && hs[i].lines != [] { assert hs[i].id == selection[0]; }
    }
  }

  /** A tag is put on once. */
  lemma TagActs(c: Catalog, counters: Counters, a: Action)
    ensures var r, i := DoSnapshotTag(c, counters, a), IndexOf(SnapshotIds(c.snapshots), a.target.id);
            && (r.Accepted? <==> a.target.kind == KindSnapshot && i >= 0 && !Blank(a.value))
            && (r.Accepted? ==>
                  && Only(c, r.cat, {Snapshots}, EventSnapshot, SeverityInfo, a.target) && Swapped(c.snapshots, r.cat.snapshots, i)
                  && var before, s := c.snapshots[i], r.cat.snapshots[i];
                     s == before.(tags := s.tags) && s.tags == if a.value in before.tags then before.tags else before.tags + [a.value])
  {
    hide IdOf, IndexOf, Blank;
  }

  /** A snapshot goes with exactly the plans made from it. */
  lemma DeleteActs(c: Catalog, counters: Counters, a: Action)
    ensures var r, i := DoSnapshotDelete(c, counters, a), IndexOf(SnapshotIds(c.snapshots), a.target.id);
            && (r.Accepted? <==> a.target.kind == KindSnapshot && i >= 0 && a.confirmed)
            && (r.Accepted? ==>
                  && Only(c, r.cat, {Snapshots, Plans}, EventSnapshot, SeverityWarn, a.target)
                  && (forall s :: s in r.cat.snapshots <==> s in c.snapshots && s.id != a.target.id)
                  && forall p :: p in r.cat.restorePlans <==> p in c.restorePlans && p.snapshotID != a.target.id)
  {
    hide IdOf, IndexOf, RemoveSnapshot, DropPlans;
    RemoveSnapshotSpec(c.snapshots, a.target.id);
    DropPlansSpec(c.restorePlans, a.target.id);
  }

  // ---- backends, machines, performance, configuration ---------------------------------------------------------

  /** The outcome of a check as it is kept: good if the backend is up, with what was found. */
  ghost predicate Probed(before: BackendInfo, b: BackendInfo, up: bool, checkup: bool, now: int) {
    && b == before.(lastProbe := b.lastProbe) && b.lastProbe.at == now && (b.lastProbe.ok <==> up)
    && forall f :: f in b.lastProbe.findings <==> (up && f in before.capabilities) || (checkup && f in before.unsupportedReasons)
  }

  /** A probe of an unavailable backend times out; a checkup of one is recorded as failed; any other is recorded as good. */
  lemma CheckActs(c: Catalog, counters: Counters, a: Action)
    requires a.kind in {ActionBackendProbe, ActionBackendDoctor}
    ensures var r, i := DoBackendCheck(c, counters, a), IndexOf(BackendIds(c.backends), a.target.id);
            && (r.Accepted? <==> a.target.kind == KindBackend && i >= 0 && (c.backends[i].status != BackendUnavailable || a.kind == ActionBackendDoctor))
            && (r.Failed? && a.target.kind == KindBackend && i >= 0 ==> r.code == ProbeTimeout)
            && (r.Accepted? ==>
                  var up := c.backends[i].status != BackendUnavailable;
                  && Only(c, r.cat, {Backends}, EventBackend, if up then SeverityInfo else SeverityWarn, a.target) && Swapped(c.backends, r.cat.backends, i)
                  && Probed(c.backends[i], r.cat.backends[i], up, a.kind == ActionBackendDoctor, r.cat.now))
  {
    hide IdOf, IndexOf, Probed, Only, Swapped, AddEvent;
    CheckProbes(c, counters, a);
    var i := IndexOf(BackendIds(c.backends), a.target.id);
    if a.target.kind == KindBackend && i >= 0 {
      if c.backends[i].status == BackendUnavailable { CheckDown(c, counters, a, i); } else { CheckUp(c, counters, a, i); }
    }
  }

  lemma CheckDown(c: Catalog, counters: Counters, a: Action, i: nat)
    requires a.target.kind == KindBackend && i < |c.backends| && i == IndexOf(BackendIds(c.backends), a.target.id)
    requires c.backends[i].status == BackendUnavailable
    ensures var r := DoBackendCheck(c, counters, a);
            && (r.Accepted? <==> a.kind != ActionBackendProbe) && (r.Failed? ==> r.code == ProbeTimeout)
            && (r.Accepted? ==> Only(c, r.cat, {Backends}, EventBackend, SeverityWarn, a.target) && Swapped(c.backends, r.cat.backends, i))
  {
    hide IdOf, IndexOf, Only, Swapped, AddEvent;
    var be := c.backends[i];
    BackendOnly(c, counters, i, be.(lastProbe := ProbeResult(c.now + 1, false, 0, be.unsupportedReasons)), SeverityWarn, Ref(KindBackend, be.id));
  }

  lemma CheckUp(c: Catalog, counters: Counters, a: Action, i: nat)
    requires a.target.kind == KindBackend && i < |c.backends| && i == IndexOf(BackendIds(c.backends), a.target.id)
    requires c.backends[i].status != BackendUnavailable
    ensures var r := DoBackendCheck(c, counters, a);
            r.Accepted? && Only(c, r.cat, {Backends}, EventBackend, SeverityInfo, a.target) && Swapped(c.backends, r.cat.backends, i)
  {
    hide IdOf, IndexOf, Only, Swapped, AddEvent;
    var be := c.backends[i];
    var findings := be.capabilities + if a.kind == ActionBackendDoctor then be.unsupportedReasons else [];
    BackendOnly(c, counters, i, be.(lastProbe := ProbeResult(c.now + 1, true, 3 + |be.capabilities| * 2, findings)), SeverityInfo, Ref(KindBackend, be.id));
  }

  lemma BackendOnly(c: Catalog, counters: Counters, i: nat, b: BackendInfo, severity: EventSeverity, resource: ResourceRef)
    requires i < |c.backends|
    ensures var r := AddEvent(Advance(c).(backends := c.backends[i := b]), counters, EventBackend, severity, resource);
            r.Accepted? && Only(c, r.cat, {Backends}, EventBackend, severity, resource) && Swapped(c.backends, r.cat.backends, i)
  {
    hide IdOf;
  }

  lemma CheckProbes(c: Catalog, counters: Counters, a: Action)
    requires a.kind in {ActionBackendProbe, ActionBackendDoctor}
    ensures var r, i := DoBackendCheck(c, counters, a), IndexOf(BackendIds(c.backends), a.target.id);
            r.Accepted? ==> Probed(c.backends[i], r.cat.backends[i], c.backends[i].status != BackendUnavailable, a.kind == ActionBackendDoctor, r.cat.now)
  {
    hide IdOf, IndexOf;
  }

  /** The default backend cannot be turned off, and another one only after the user agreed. */
  lemma ToggleActs(c: Catalog, counters: Counters, a: Action)
    ensures var r, i := DoBackendToggle(c, counters, a), IndexOf(BackendIds(c.backends), a.target.id);
            && (r.Accepted? <==> a.target.kind == KindBackend && i >= 0 && !c.backends[i].isDefault && (c.backends[i].enabled ==> a.confirmed))
            && (r.Accepted? ==>
                  && Only(c, r.cat, {Backends}, EventBackend, SeverityWarn, a.target) && Swapped(c.backends, r.cat.backends, i)
                  && r.cat.backends[i].enabled != c.backends[i].enabled && r.cat.backends[i] == c.backends[i].(enabled := !c.backends[i].enabled))
  {
    hide IdOf, IndexOf;
  }

  /** A machine answers unless it is offline. */
  lemma MachineActs(c: Catalog, counters: Counters, a: Action)
    ensures var r, i := DoMachine(c, counters, a), IndexOf(MachineIds(c.machines), a.target.id);
            && (r.Accepted? <==> a.target.kind == KindMachine && i >= 0 && c.machines[i].status != MachineOffline)
            && (r.Accepted? ==>
                  && Only(c, r.cat, {Machines}, EventMachine, SeverityInfo, a.target) && Swapped(c.machines, r.cat.machines, i)
                  && var before, m := c.machines[i], r.cat.machines[i];
                     && m == before.(heartbeat := m.heartbeat, lastResult := m.lastResult) && m.heartbeat == r.cat.now
                     && m.lastResult.at == r.cat.now && m.lastResult.ok && m.lastResult.latencyMS == before.latencyMS
                     && |m.lastResult.findings| == if a.kind == ActionMachineDoctor then 3 else 1)
  {
    hide IdOf, IndexOf;
  }

  /** The list with one more at its end, of which only so many are kept. */
  ghost predicate Pushed<T>(before: seq<T>, after: seq<T>, limit: nat) {
    && |after| == (if |before| < limit then |before| + 1 else limit)
    && forall i :: 0 <= i < |after| - 1 ==> i + 1 + |before| - |after| < |before| && after[i] == before[i + 1 + |before| - |after|]
  }

  lemma TailPushed<T>(before: seq<T>, x: T, limit: nat)
    requires limit > 0
    ensures var r := Tail(before + [x], limit); Pushed(before, r, limit) && |r| > 0 && r[|r| - 1] == x
  {
  }

  /** A recording or a benchmark is added, and of each kind the last twenty are kept. */
  lemma PerfActs(c: Catalog, counters: Counters, a: Action)
    requires a.kind in {ActionPerfRecord, ActionPerfBenchmark}
    ensures var r := DoPerf(c, counters, a);
            && (r.Accepted? <==> c.performance.available)
            && (r.Accepted? ==>
                  && Only(c, r.cat, {Perf}, EventSystem, SeverityInfo, Ref(KindConfig, "performance"))
                  && Measured(c.performance, r.cat.performance, a, r.cat.now))
  {
    hide IdOf, Tail, Measured;
    PerfMeasured(c, counters, a);
  }

  ghost predicate Measured(before: Performance, p: Performance, a: Action, now: int) {
    && p == before.(traces := p.traces, benchmarks := p.benchmarks)
    && if a.kind == ActionPerfRecord then
         p.benchmarks == before.benchmarks && Pushed(before.traces, p.traces, 20) && p.traces != [] && p.traces[|p.traces| - 1].at == now
       else
         p.traces == before.traces && Pushed(before.benchmarks, p.benchmarks, 20) && p.benchmarks != [] && p.benchmarks[|p.benchmarks| - 1].at == now
  }

  lemma PerfMeasured(c: Catalog, counters: Counters, a: Action)
    requires a.kind in {ActionPerfRecord, ActionPerfBenchmark}
    ensures var r := DoPerf(c, counters, a); r.Accepted? ==> Measured(c.performance, r.cat.performance, a, r.cat.now)
  {
    hide IdOf, Tail, Pushed, AddEvent, Measured;
    var c1, p := Advance(c), c.performance;
    var p1 := if a.kind == ActionPerfRecord then p.(traces := Tail(p.traces + [PerfTrace(c1.now, "input", 9 + |p.traces| % 5)], 20))
              else p.(benchmarks := Tail(p.benchmarks + [PerfBenchmark(c1.now, 500, 4, 11 + |p.benchmarks| % 7)], 20));
    MeasuredOne(p, a, c1.now);
    EventKeeps(c1.(performance := p1), counters);
  }

  lemma EventKeeps(c: Catalog, counters: Counters)
    ensures var r := AddEvent(c, counters, EventSystem, SeverityInfo, Ref(KindConfig, "performance"));
            r.Accepted? && r.cat.performance == c.performance && r.cat.now == c.now
  {
    hide IdOf;
  }

  lemma MeasuredOne(p: Performance, a: Action, now: int)
    requires a.kind in {ActionPerfRecord, ActionPerfBenchmark}
    ensures Measured(p, if a.kind == ActionPerfRecord then p.(traces := Tail(p.traces + [PerfTrace(now, "input", 9 + |p.traces| % 5)], 20))
                        else p.(benchmarks := Tail(p.benchmarks + [PerfBenchmark(now, 500, 4, 11 + |p.benchmarks| % 7)], 20)), a, now)
  {
    hide Tail, Pushed;
    TailPushed(p.traces, PerfTrace(now, "input", 9 + |p.traces| % 5), 20);
    TailPushed(p.benchmarks, PerfBenchmark(now, 500, 4, 11 + |p.benchmarks| % 7), 20);
  }

  /** Saving takes over a draft that passes the checks, validating changes nothing, reloading goes back to the settings the demo starts with. */
  lemma ConfigActs(c: Catalog, counters: Counters, a: Action)
    requires a.kind in {ActionConfigReload, ActionConfigSave, ActionConfigValidate}
    ensures var r := DoConfig(c, counters, a);
            && (r.Accepted? <==> a.kind == ActionConfigReload || (!Blank(a.value) && a.draft.Some? && ConfigOk(a.draft.value)))
            && (r.Accepted? ==>
                  && Only(c, r.cat, {Settings}, EventConfig, SeverityInfo, Ref(KindConfig, "config"))
                  && (a.kind == ActionConfigSave ==> Some(r.cat.config) == a.draft) && (a.kind == ActionConfigValidate ==> r.cat.config == c.config)
                  && (a.kind == ActionConfigReload ==> r.cat.config == BASE_CONFIG))
  {
    hide IdOf, Blank, ConfigOk;
  }

  // ---- ticks --------------------------------------------------------------------------------------------------

  /** The first agent at work, or none. */
  predicate FirstAtWork(ags: seq<Agent>, i: int) {
    0 <= i < |ags| && ags[i].state == AgentRunning && forall j :: 0 <= j < i ==> ags[j].state != AgentRunning
  }

  lemma {:induction false} FirstRunningSpec(ags: seq<Agent>, from: nat)
    requires from <= |ags| && forall j :: 0 <= j < from ==> ags[j].state != AgentRunning
    ensures FirstRunning(ags, from) >= 0 ==> FirstAtWork(ags, FirstRunning(ags, from))
    ensures FirstRunning(ags, from) < 0 ==> forall j :: 0 <= j < |ags| ==> ags[j].state != AgentRunning
    decreases |ags| - from
  {
    if from < |ags| && ags[from].state != AgentRunning { FirstRunningSpec(ags, from + 1); }
  }

  lemma SampleAt(now: int, n: nat)
    ensures Sample(now, n).at == now
  {
  }

  /**
   * A tick moves the clock, takes one sample more and keeps the last 120, and every machine online is heard of. Every
   * fifth one in the default scenario the first agent at work gets on, up to 99.
   */
  lemma TickActs(c: Catalog, counters: Counters, n: nat)
    ensures var r := DoTick(c, counters, n);
            && r.Accepted? && OneStep(c, r.cat)
            && r.cat.workspaces == c.workspaces && r.cat.activeViews == c.activeViews && r.cat.terminals == c.terminals && r.cat.history == c.history
            && r.cat.backends == c.backends && r.cat.config == c.config && r.cat.snapshots == c.snapshots && r.cat.restorePlans == c.restorePlans
            && Pushed(c.performance.samples, r.cat.performance.samples, 120) && r.cat.performance.samples[|r.cat.performance.samples| - 1].at == r.cat.now
            && |r.cat.machines| == |c.machines|
            && (forall i :: 0 <= i < |c.machines| ==>
                  r.cat.machines[i] == if c.machines[i].status == MachineOnline then c.machines[i].(heartbeat := r.cat.now) else c.machines[i])
            && |r.cat.agents| == |c.agents|
            && forall i :: 0 <= i < |c.agents| ==>
                 r.cat.agents[i] == if c.scenario == ScenarioDefault && n % 5 == 0 && FirstAtWork(c.agents, i)
                                    then c.agents[i].(progress := if c.agents[i].progress < 98 then c.agents[i].progress + 1 else 99) else c.agents[i]
  {
    hide IdOf, FirstRunning, Tail, Pushed, Sample;
    TailPushed(c.performance.samples, Sample(c.now + 1, n), MAX_PERF_SAMPLES);
    SampleAt(c.now + 1, n);
    FirstRunningSpec(c.agents, 0);
  }
}
