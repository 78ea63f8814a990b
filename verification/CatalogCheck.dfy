/**
 * The validation of a catalog as the loops and index maps that do it. (tmh-next/internal/domain/validate.go)
 */
module CatalogCheck {
  import opened Text
  import opened Topology
  import opened Domain
  import opened Plan
  import opened Validation

  // ---- ids and indexes -----------------------------------------------------------------------------

  method CheckIds(ids: seq<string>) returns (ok: bool)
    ensures ok <==> IdsOk(ids)
  {
    var seen: set<string> := {};
    for i := 0 to |ids|
      invariant seen == set k | 0 <= k < i :: ids[k]
      invariant IdsOk(ids[..i])
    {
      if ids[i] == "" || ids[i] in seen {
        if ids[i] == "" { assert "" in ids; }
        return false;
      }
      seen := seen + {ids[i]};
      assert ids[..i + 1] == ids[..i] + [ids[i]];
    }
    assert ids[..|ids|] == ids;
    return true;
  }

  /** The pairs as a map, where no key occurs twice. */
  method Index<T>(pairs: seq<(string, T)>) returns (m: map<string, T>)
    requires forall i, j :: 0 <= i < j < |pairs| ==> pairs[i].0 != pairs[j].0
    ensures forall k :: k in m ==> (k, m[k]) in pairs
    ensures forall p :: p in pairs ==> p.0 in m && m[p.0] == p.1
  {
    m := map[];
    for i := 0 to |pairs|
      invariant forall k :: k in m ==> (k, m[k]) in pairs[..i]
      invariant forall j :: 0 <= j < i ==> pairs[j].0 in m && m[pairs[j].0] == pairs[j].1
    {
      assert pairs[..i + 1] == pairs[..i] + [pairs[i]];
      m := m[pairs[i].0 := pairs[i].1];
    }
    assert pairs[..|pairs|] == pairs;
  }

  // ---- one kind of record at a time --------------------------------------------------------------------

  method CheckBackends(bs: seq<BackendInfo>) returns (ok: bool)
    ensures ok <==> BackendsOk(bs)
  {
    var defaults := 0;
    ghost var last := -1;
    for i := 0 to |bs|
      invariant forall k :: 0 <= k < i ==> BackendOk(bs[k])
      invariant defaults == 0 <==> forall k :: 0 <= k < i ==> !bs[k].isDefault
      invariant defaults >= 0 && (defaults >= 1 ==> 0 <= last < i && bs[last].isDefault)
      invariant defaults == 1 ==> forall k :: 0 <= k < i && bs[k].isDefault ==> k == last
      invariant defaults >= 2 ==> exists j, k :: 0 <= j < k < i && bs[j].isDefault && bs[k].isDefault
    {
      if bs[i].isDefault {
        assert defaults >= 1 ==> bs[last].isDefault && bs[i].isDefault;
        defaults := defaults + 1;
        last := i;
      }
      if bs[i].status.BackendOther? || (bs[i].isDefault && !bs[i].enabled) {
        assert !BackendOk(bs[i]);
        return false;
      }
    }
    return defaults == 1;
  }

  method CheckAgents(ags: seq<Agent>) returns (ok: bool)
    ensures ok <==> forall i :: 0 <= i < |ags| ==> AgentOk(ags[i])
  {
    for i := 0 to |ags|
      invariant forall k :: 0 <= k < i ==> AgentOk(ags[k])
    {
      if ags[i].kind.AgentKindOther? || ags[i].state.AgentStateOther? || ags[i].progress < 0 || ags[i].progress > 99 {
        assert !AgentOk(ags[i]);
        return false;
      }
    }
    return true;
  }

  method CheckWorkspace(w: Workspace, machines: set<string>, backends: set<string>, terminals: map<string, string>, agents: map<string, string>)
    returns (ok: bool)
    ensures ok <==>
              && w.machineID in machines && w.backendID in backends && WorkspaceStateOk(w)
              && (forall id :: id in w.terminalIDs ==> id in terminals && terminals[id] == w.id)
              && (forall id :: id in w.agentIDs ==> id in agents && agents[id] == w.id)
  {
    if w.machineID !in machines || w.backendID !in backends || w.status.WorkspaceOther? { return false; }
    for i := 0 to |w.terminalIDs|
      invariant forall k :: 0 <= k < i ==> w.terminalIDs[k] in terminals && terminals[w.terminalIDs[k]] == w.id
    {
      var id := w.terminalIDs[i];
      if id !in terminals || terminals[id] != w.id { return false; }
    }
    for i := 0 to |w.agentIDs|
      invariant forall k :: 0 <= k < i ==> w.agentIDs[k] in agents && agents[w.agentIDs[k]] == w.id
    {
      var id := w.agentIDs[i];
      if id !in agents || agents[id] != w.id { return false; }
    }
    var differ := w.desired != w.observed;
    if differ && w.drift == [] && w.status != WorkspaceFrozen { return false; }
    if !differ && w.drift != [] { return false; }
    return w.selectedSurfaceID == "" || HasSurface(w.observed, w.selectedSurfaceID);
  }

  method CheckViews(vs: seq<ActiveView>, workspaces: set<string>) returns (ok: bool)
    ensures ok <==> forall i :: 0 <= i < |vs| ==> vs[i].workspaceID in workspaces && !vs[i].kind.ActiveOther? && (vs[i].pinned ==> vs[i].kind == ActivePinned)
  {
    for i := 0 to |vs|
      invariant forall k :: 0 <= k < i ==> vs[k].workspaceID in workspaces && !vs[k].kind.ActiveOther? && (vs[k].pinned ==> vs[k].kind == ActivePinned)
    {
      if vs[i].workspaceID !in workspaces || vs[i].kind.ActiveOther? || (vs[i].pinned && vs[i].kind != ActivePinned) { return false; }
    }
    return true;
  }

  method CheckHistory(hs: seq<HistoryChunk>, terminals: set<string>, agents: set<string>) returns (ok: bool)
    ensures ok <==> forall i :: 0 <= i < |hs| ==>
                      && hs[i].scope.kind in {KindTerminal, KindAgent}
                      && (hs[i].scope.kind == KindTerminal ==> hs[i].scope.id in terminals) && (hs[i].scope.kind == KindAgent ==> hs[i].scope.id in agents)
  {
    for i := 0 to |hs|
      invariant forall k :: 0 <= k < i ==>
                  && hs[k].scope.kind in {KindTerminal, KindAgent}
                  && (hs[k].scope.kind == KindTerminal ==> hs[k].scope.id in terminals) && (hs[k].scope.kind == KindAgent ==> hs[k].scope.id in agents)
    {
      var scope := hs[i].scope;
      if scope.kind != KindTerminal && scope.kind != KindAgent { return false; }
      if scope.kind == KindTerminal && scope.id !in terminals { return false; }
      if scope.kind == KindAgent && scope.id !in agents { return false; }
    }
    return true;
  }

  /** The sequence numbers start above zero and rise. */
  method CheckEvents(es: seq<Event>) returns (ok: bool)
    ensures ok <==> EventsOk(es)
  {
    var last := 0;
    for i := 0 to |es|
      invariant last == if i == 0 then 0 else es[i - 1].seqNo
      invariant EventsOk(es[..i]) && last >= 0
    {
      if es[i].seqNo <= last { return false; }
      last := es[i].seqNo;
      if es[i].resource.kind.KindOther? || es[i].severity.SeverityOther? || es[i].category.EventOther? {
        assert !EventOk(es[i]);
        return false;
      }
      assert es[..i + 1] == es[..i] + [es[i]];
    }
    assert es[..|es|] == es;
    return true;
  }

  method CheckOps(p: RestorePlan) returns (ok: bool)
    ensures ok <==> (forall i :: 0 <= i < |p.ops| ==> RestoreOpOk(p.ops[i], p.workspaceID)) && (forall i :: 0 < i < |p.ops| ==> OpLess(p.ops[i - 1], p.ops[i]))
  {
    hide OpLess;
    for i := 0 to |p.ops|
      invariant forall k :: 0 <= k < i ==> RestoreOpOk(p.ops[k], p.workspaceID)
      invariant forall k :: 0 < k < i ==> OpLess(p.ops[k - 1], p.ops[k])
    {
      var op := p.ops[i];
      match op.mode {
        case RestoreOther(_) =>
          assert !RestoreOpOk(p.ops[i], p.workspaceID);
          return false;
        case RestoreFreeze =>
          if op.target.kind != KindSnapshot {
            assert !RestoreOpOk(p.ops[i], p.workspaceID);
            return false;
          }
        case _ =>
          if op.target.kind != KindWorkspace || op.target.id != p.workspaceID {
            assert !RestoreOpOk(p.ops[i], p.workspaceID);
            return false;
          }
      }
      if op.field == "" {
        assert !RestoreOpOk(p.ops[i], p.workspaceID);
        return false;
      }
      if i > 0 && !OpLess(p.ops[i - 1], op) { return false; }
    }
    return true;
  }

  method CheckMachines(ms: seq<Machine>) returns (ok: bool)
    ensures ok <==> MachinesOk(ms)
  {
    for i := 0 to |ms|
      invariant forall k :: 0 <= k < i ==> !ms[k].status.MachineOther? && ms[k].kind in {"local", "remote"}
    {
      if ms[i].status.MachineOther? || (ms[i].kind != "local" && ms[i].kind != "remote") { return false; }
    }
    return true;
  }

  /** Retention fits the mode of history, and nothing remote may see raw input. */
  method CheckConfig(c: Config) returns (ok: bool)
    ensures ok <==> ConfigOk(c)
  {
    match c.historyMode {
      case HistoryOff => if c.retentionHours != 0 { return false; }
      case HistoryMemory => if c.retentionHours < 1 || c.retentionHours > 24 { return false; }
      case HistoryPersistent => if c.retentionHours < 1 || c.retentionHours > 8760 { return false; }
      case HistoryOther(_) => return false;
    }
    if c.overflow.OverflowOther? || c.leaderDisplay.LeaderOther? { return false; }
    if c.overflow == OverflowArchiveOldest && c.historyMode != HistoryPersistent { return false; }
    if c.allowRawInput && c.remoteTrust != TrustLocalOnly { return false; }
    return !(c.remoteTrust == TrustAllowlisted && c.allowlistedMachines == []);
  }

  method CheckSnapshots(ss: seq<Snapshot>, workspaces: set<string>, backends: set<string>) returns (ok: bool)
    ensures ok <==> forall i :: 0 <= i < |ss| ==> ss[i].workspaceID in workspaces && ss[i].backendID in backends
  {
    for i := 0 to |ss|
      invariant forall k :: 0 <= k < i ==> ss[k].workspaceID in workspaces && ss[k].backendID in backends
    {
      if ss[i].workspaceID !in workspaces || ss[i].backendID !in backends { return false; }
    }
    return true;
  }

  /** The terminal's workspace is there, lists it and knows its surface. */
  predicate Homed(t: Terminal, workspaces: map<string, Workspace>) {
    t.workspaceID in workspaces && t.id in workspaces[t.workspaceID].terminalIDs && SurfaceKnown(workspaces[t.workspaceID], t.surfaceID)
  }

  method CheckTerminals(ts: seq<Terminal>, workspaces: map<string, Workspace>, backends: set<string>) returns (ok: bool)
    ensures ok <==> forall i :: 0 <= i < |ts| ==> !ts[i].state.TerminalOther? && ts[i].backendID in backends && Homed(ts[i], workspaces)
  {
    for i := 0 to |ts|
      invariant forall k :: 0 <= k < i ==> !ts[k].state.TerminalOther? && ts[k].backendID in backends && Homed(ts[k], workspaces)
    {
      var t := ts[i];
      if t.state != TerminalLive && t.state != TerminalExited { return false; }
      if t.workspaceID !in workspaces { return false; }
      var w := workspaces[t.workspaceID];
      if t.id !in w.terminalIDs || t.backendID !in backends { return false; }
      if t.surfaceID != "" && !HasSurface(w.observed, t.surfaceID) && !HasSurface(w.desired, t.surfaceID) { return false; }
    }
    return true;
  }

  predicate Attached(a: Agent, workspaces: map<string, Workspace>, terminals: map<string, TerminalState>) {
    && a.workspaceID in workspaces && a.id in workspaces[a.workspaceID].agentIDs
    && (a.terminalID != "" ==> a.terminalID in terminals && terminals[a.terminalID] == TerminalLive)
  }

  method CheckAgentLinks(ags: seq<Agent>, workspaces: map<string, Workspace>, terminals: map<string, TerminalState>) returns (ok: bool)
    ensures ok <==> forall i :: 0 <= i < |ags| ==> Attached(ags[i], workspaces, terminals)
  {
    for i := 0 to |ags|
      invariant forall k :: 0 <= k < i ==> Attached(ags[k], workspaces, terminals)
    {
      var a := ags[i];
      if a.workspaceID !in workspaces { return false; }
      if a.id !in workspaces[a.workspaceID].agentIDs { return false; }
      if a.terminalID != "" {
        if a.terminalID !in terminals || terminals[a.terminalID] != TerminalLive { return false; }
      }
    }
    return true;
  }

  method CheckWorkspaces(ws: seq<Workspace>, machines: set<string>, backends: set<string>, terminals: map<string, string>, agents: map<string, string>)
    returns (ok: bool)
    ensures ok <==> forall i :: 0 <= i < |ws| ==>
              && ws[i].machineID in machines && ws[i].backendID in backends && WorkspaceStateOk(ws[i])
              && (forall id :: id in ws[i].terminalIDs ==> id in terminals && terminals[id] == ws[i].id)
              && (forall id :: id in ws[i].agentIDs ==> id in agents && agents[id] == ws[i].id)
  {
    hide WorkspaceStateOk;
    for i := 0 to |ws|
      invariant forall k :: 0 <= k < i ==>
                  && ws[k].machineID in machines && ws[k].backendID in backends && WorkspaceStateOk(ws[k])
                  && (forall id :: id in ws[k].terminalIDs ==> id in terminals && terminals[id] == ws[k].id)
                  && (forall id :: id in ws[k].agentIDs ==> id in agents && agents[id] == ws[k].id)
    {
      var fine := CheckWorkspace(ws[i], machines, backends, terminals, agents);
      if !fine { return false; }
    }
    return true;
  }

  method CheckPlans(ps: seq<RestorePlan>, snapshots: map<string, string>, workspaces: set<string>) returns (ok: bool)
    ensures ok <==> forall i :: 0 <= i < |ps| ==>
              && ps[i].snapshotID in snapshots && snapshots[ps[i].snapshotID] == ps[i].workspaceID && ps[i].workspaceID in workspaces
              && !ps[i].status.PlanOther? && OpsFine(ps[i])
  {
    hide OpsFine;
    for i := 0 to |ps|
      invariant forall k :: 0 <= k < i ==>
                  && ps[k].snapshotID in snapshots && snapshots[ps[k].snapshotID] == ps[k].workspaceID && ps[k].workspaceID in workspaces
                  && !ps[k].status.PlanOther? && OpsFine(ps[k])
    {
      var p := ps[i];
      if p.snapshotID !in snapshots || snapshots[p.snapshotID] != p.workspaceID || p.workspaceID !in workspaces { return false; }
      if p.status.PlanOther? { return false; }
      var fine := CheckOps(p);
      OpsFineIs(p);
      if !fine { return false; }
    }
    return true;
  }

  predicate OpsFine(p: RestorePlan) {
    (forall i :: 0 <= i < |p.ops| ==> RestoreOpOk(p.ops[i], p.workspaceID)) && (forall i :: 0 < i < |p.ops| ==> OpLess(p.ops[i - 1], p.ops[i]))
  }

  lemma OpsFineIs(p: RestorePlan)
    ensures OpsFine(p) <==> (forall i :: 0 <= i < |p.ops| ==> RestoreOpOk(p.ops[i], p.workspaceID))
                            && (forall i :: 0 < i < |p.ops| ==> OpLess(p.ops[i - 1], p.ops[i]))
  {
  }

  // ---- the maps against the lists ---------------------------------------------------------------------------

  function Named(ws: seq<Workspace>): seq<(string, Workspace)> { seq(|ws|, i requires 0 <= i < |ws| => (ws[i].id, ws[i])) }

  /** The map has what the pairs have. */
  ghost predicate Maps<T(!new)>(m: map<string, T>, pairs: seq<(string, T)>) {
    (forall k :: k in m ==> (k, m[k]) in pairs) && (forall p :: p in pairs ==> p.0 in m && m[p.0] == p.1)
  }

  lemma HomedIs(t: Terminal, ws: seq<Workspace>, workspaces: map<string, Workspace>)
    requires Maps(workspaces, Named(ws))
    ensures Homed(t, workspaces) <==> Placed(t, ws)
  {
    hide SurfaceKnown;
    var named := Named(ws);
    if Homed(t, workspaces) {
      assert (t.workspaceID, workspaces[t.workspaceID]) in named;
      var k :| 0 <= k < |named| && named[k] == (t.workspaceID, workspaces[t.workspaceID]);
      assert TerminalHome(t, ws[k]);
    }
    if Placed(t, ws) {
      var k :| 0 <= k < |ws| && TerminalHome(t, ws[k]);
      assert named[k] in named;
    }
  }

  lemma EmployedIs(a: Agent, ws: seq<Workspace>, workspaces: map<string, Workspace>)
    requires Maps(workspaces, Named(ws))
    ensures (a.workspaceID in workspaces && a.id in workspaces[a.workspaceID].agentIDs) <==> Employed(a, ws)
  {
    var named := Named(ws);
    if a.workspaceID in workspaces && a.id in workspaces[a.workspaceID].agentIDs {
      assert (a.workspaceID, workspaces[a.workspaceID]) in named;
      var k :| 0 <= k < |named| && named[k] == (a.workspaceID, workspaces[a.workspaceID]);
      assert AgentHome(a, ws[k]);
    }
    if Employed(a, ws) {
      var k :| 0 <= k < |ws| && AgentHome(a, ws[k]);
      assert named[k] in named;
    }
  }

  /** An entry of the map is a pair of the list. */
  lemma MapsTo<T(!new)>(m: map<string, T>, pairs: seq<(string, T)>, k: string, v: T)
    requires Maps(m, pairs)
    ensures k in m && m[k] == v <==> (k, v) in pairs
  {
  }

  function Ids(ids: seq<string>): set<string> { set i | 0 <= i < |ids| :: ids[i] }

  lemma IdsIs(ids: seq<string>)
    ensures forall x :: x in Ids(ids) <==> x in ids
  {
  }

  lemma DistinctKeys<T>(pairs: seq<(string, T)>, ids: seq<string>)
    requires IdsOk(ids) && |pairs| == |ids| && forall i :: 0 <= i < |ids| ==> pairs[i].0 == ids[i]
    ensures forall i, j :: 0 <= i < j < |pairs| ==> pairs[i].0 != pairs[j].0
  {
  }

  lemma WorkspacesOkIs(ws: seq<Workspace>, machines: seq<string>, backends: seq<string>, owners: seq<(string, string)>, agents: seq<(string, string)>,
                       ownerOf: map<string, string>, agentOf: map<string, string>)
    requires Maps(ownerOf, owners) && Maps(agentOf, agents)
    ensures WorkspacesOk(ws, machines, backends, owners, agents)
            <==> forall i :: 0 <= i < |ws| ==>
                   && ws[i].machineID in Ids(machines) && ws[i].backendID in Ids(backends) && WorkspaceStateOk(ws[i])
                   && (forall id :: id in ws[i].terminalIDs ==> id in ownerOf && ownerOf[id] == ws[i].id)
                   && (forall id :: id in ws[i].agentIDs ==> id in agentOf && agentOf[id] == ws[i].id)
  {
    hide WorkspaceStateOk, Maps, Ids;
    IdsIs(machines);
    IdsIs(backends);
    forall i, id | 0 <= i < |ws|
      ensures (id in ownerOf && ownerOf[id] == ws[i].id) <==> (id, ws[i].id) in owners
      ensures (id in agentOf && agentOf[id] == ws[i].id) <==> (id, ws[i].id) in agents
    {
      MapsTo(ownerOf, owners, id, ws[i].id);
      MapsTo(agentOf, agents, id, ws[i].id);
    }
  }

  lemma TerminalsOkIs(ts: seq<Terminal>, ws: seq<Workspace>, backends: seq<string>, workspaces: map<string, Workspace>)
    requires Maps(workspaces, Named(ws))
    ensures TerminalsOk(ts, ws, backends)
            <==> forall i :: 0 <= i < |ts| ==> !ts[i].state.TerminalOther? && ts[i].backendID in Ids(backends) && Homed(ts[i], workspaces)
  {
    hide Homed, Placed, Maps, Ids;
    IdsIs(backends);
    forall i | 0 <= i < |ts| ensures Homed(ts[i], workspaces) <==> Placed(ts[i], ws) { HomedIs(ts[i], ws, workspaces); }
  }

  lemma AgentsOkIs(ags: seq<Agent>, ws: seq<Workspace>, states: seq<(string, TerminalState)>, workspaces: map<string, Workspace>, stateOf: map<string, TerminalState>)
    requires Maps(workspaces, Named(ws)) && Maps(stateOf, states)
    ensures AgentsOk(ags, ws, states) <==> forall i :: 0 <= i < |ags| ==> AgentOk(ags[i]) && Attached(ags[i], workspaces, stateOf)
  {
    hide AgentOk, Employed, Maps;
    forall i | 0 <= i < |ags| ensures Attached(ags[i], workspaces, stateOf) <==> Employed(ags[i], ws) && (ags[i].terminalID != "" ==> (ags[i].terminalID, TerminalLive) in states) {
      EmployedIs(ags[i], ws, workspaces);
      MapsTo(stateOf, states, ags[i].terminalID, TerminalLive);
    }
  }

  lemma PlansOkIs(ps: seq<RestorePlan>, homes: seq<(string, string)>, ids: seq<string>, homeOf: map<string, string>)
    requires Maps(homeOf, homes)
    ensures PlansOk(ps, homes, ids)
            <==> forall i :: 0 <= i < |ps| ==>
                   && ps[i].snapshotID in homeOf && homeOf[ps[i].snapshotID] == ps[i].workspaceID && ps[i].workspaceID in Ids(ids)
                   && !ps[i].status.PlanOther? && OpsFine(ps[i])
  {
    hide Maps, Ids, OpLess, RestoreOpOk;
    IdsIs(ids);
    forall i | 0 <= i < |ps| ensures (ps[i].snapshotID in homeOf && homeOf[ps[i].snapshotID] == ps[i].workspaceID) <==> (ps[i].snapshotID, ps[i].workspaceID) in homes {
      MapsTo(homeOf, homes, ps[i].snapshotID, ps[i].workspaceID);
    }
  }

  lemma ListsOkIs(c: Catalog)
    ensures SnapshotsOk(c.snapshots, WorkspaceIds(c.workspaces), BackendIds(c.backends))
            <==> forall i :: 0 <= i < |c.snapshots| ==> c.snapshots[i].workspaceID in Ids(WorkspaceIds(c.workspaces)) && c.snapshots[i].backendID in Ids(BackendIds(c.backends))
    ensures ViewsOk(c.activeViews, WorkspaceIds(c.workspaces))
            <==> forall i :: 0 <= i < |c.activeViews| ==>
                   && c.activeViews[i].workspaceID in Ids(WorkspaceIds(c.workspaces)) && !c.activeViews[i].kind.ActiveOther?
                   && (c.activeViews[i].pinned ==> c.activeViews[i].kind == ActivePinned)
    ensures HistoryOk(c.history, TerminalIds(c.terminals), AgentIds(c.agents))
            <==> forall i :: 0 <= i < |c.history| ==>
                   && c.history[i].scope.kind in {KindTerminal, KindAgent}
                   && (c.history[i].scope.kind == KindTerminal ==> c.history[i].scope.id in Ids(TerminalIds(c.terminals)))
                   && (c.history[i].scope.kind == KindAgent ==> c.history[i].scope.id in Ids(AgentIds(c.agents)))
  {
    hide Ids;
    IdsIs(WorkspaceIds(c.workspaces));
    IdsIs(BackendIds(c.backends));
    IdsIs(TerminalIds(c.terminals));
    IdsIs(AgentIds(c.agents));
  }

  // ---- the whole catalog -----------------------------------------------------------------------------------------

  method CheckAllIds(c: Catalog) returns (ok: bool)
    ensures ok <==> AllIdsOk(c)
  {
    hide IdsOk;
    var lists := [WorkspaceIds(c.workspaces), ViewIds(c.activeViews), TerminalIds(c.terminals), AgentIds(c.agents), HistoryIds(c.history),
                  EventIds(c.events), SnapshotIds(c.snapshots), PlanIds(c.restorePlans), BackendIds(c.backends), MachineIds(c.machines)];
    for i := 0 to |lists|
      invariant forall k :: 0 <= k < i ==> IdsOk(lists[k])
    {
      var fine := CheckIds(lists[i]);
      if !fine { return false; }
    }
    assert IdsOk(lists[0]) && IdsOk(lists[1]) && IdsOk(lists[2]) && IdsOk(lists[3]) && IdsOk(lists[4]);
    assert IdsOk(lists[5]) && IdsOk(lists[6]) && IdsOk(lists[7]) && IdsOk(lists[8]) && IdsOk(lists[9]);
    return true;
  }

  /** Index maps first, then every list against them; the first violation found decides. */
  method ValidateCatalog(c: Catalog) returns (ok: bool)
    ensures ok <==> ValidCatalog(c)
  {
    hide IdsOk, BackendsOk, WorkspacesOk, SnapshotsOk, TerminalsOk, AgentsOk, ViewsOk, HistoryOk, EventsOk, PlansOk, MachinesOk, ConfigOk, WorkspaceStateOk,
         Homed, Attached, AgentOk, OpsFine, Ids;
    var fine := CheckAllIds(c);
    if !fine { return false; }
    fine := CheckBackends(c.backends);
    if !fine { return false; }
    var machines, backends, workspaceIds := Ids(MachineIds(c.machines)), Ids(BackendIds(c.backends)), Ids(WorkspaceIds(c.workspaces));
    DistinctKeys(TerminalOwners(c.terminals), TerminalIds(c.terminals));
    DistinctKeys(TerminalStates(c.terminals), TerminalIds(c.terminals));
    DistinctKeys(AgentOwners(c.agents), AgentIds(c.agents));
    DistinctKeys(SnapshotHomes(c.snapshots), SnapshotIds(c.snapshots));
    DistinctKeys(Named(c.workspaces), WorkspaceIds(c.workspaces));
    var ownerOf := Index(TerminalOwners(c.terminals));
    var stateOf := Index(TerminalStates(c.terminals));
    var agentOf := Index(AgentOwners(c.agents));
    var homeOf := Index(SnapshotHomes(c.snapshots));
    var workspaces := Index(Named(c.workspaces));
    fine := CheckAgents(c.agents);
    if !fine {
      AgentsOkIs(c.agents, c.workspaces, TerminalStates(c.terminals), workspaces, stateOf);
      return false;
    }
    WorkspacesOkIs(c.workspaces, MachineIds(c.machines), BackendIds(c.backends), TerminalOwners(c.terminals), AgentOwners(c.agents), ownerOf, agentOf);
    fine := CheckWorkspaces(c.workspaces, machines, backends, ownerOf, agentOf);
    if !fine { return false; }
    ListsOkIs(c);
    fine := CheckSnapshots(c.snapshots, workspaceIds, backends);
    if !fine { return false; }
    TerminalsOkIs(c.terminals, c.workspaces, BackendIds(c.backends), workspaces);
    fine := CheckTerminals(c.terminals, workspaces, backends);
    if !fine { return false; }
    AgentsOkIs(c.agents, c.workspaces, TerminalStates(c.terminals), workspaces, stateOf);
    fine := CheckAgentLinks(c.agents, workspaces, stateOf);
    if !fine { return false; }
    fine := CheckViews(c.activeViews, workspaceIds);
    if !fine { return false; }
    fine := CheckHistory(c.history, Ids(TerminalIds(c.terminals)), Ids(AgentIds(c.agents)));
    if !fine { return false; }
    fine := CheckEvents(c.events);
    if !fine { return false; }
    PlansOkIs(c.restorePlans, SnapshotHomes(c.snapshots), WorkspaceIds(c.workspaces), homeOf);
    fine := CheckPlans(c.restorePlans, homeOf, workspaceIds);
    if !fine { return false; }
    fine := CheckMachines(c.machines);
    if !fine { return false; }
    if |c.performance.samples| > 120 { return false; }
    ok := CheckConfig(c.config);
  }
}
