/**
 * Exactly when the validation gate turns away attach, freeze, split, link, restore-apply and
 * reconcile-undo. (tmh-next/internal/mock/backend.go, tmh-next/internal/domain/validate.go)
 */
module GateExact {
  import opened Text
  import opened Topology
  import opened Edits
  import opened Domain
  import opened Reconcile
  import opened Plan
  import opened Validation
  import opened Transitions
  import opened Gate
  import opened GateSafe

  /** Every terminal of the workspace shows nothing or a surface one of its two states has. */
  predicate SurfacesKnown(ts: seq<Terminal>, w: Workspace) {
    forall i :: 0 <= i < |ts| && ts[i].workspaceID == w.id ==> SurfaceKnown(w, ts[i].surfaceID)
  }

  lemma HomeUnique(ws: seq<Workspace>, t: Terminal, k: nat)
    requires IdsOk(WorkspaceIds(ws)) && k < |ws| && ws[k].id == t.workspaceID
    ensures Placed(t, ws) <==> TerminalHome(t, ws[k])
  {
    hide SurfaceKnown;
    var ids := WorkspaceIds(ws);
    forall j | 0 <= j < |ws| && TerminalHome(t, ws[j]) ensures j == k {
      assert ids[j] == ids[k];
    }
  }

  lemma TerminalsSwapped(ts: seq<Terminal>, ws: seq<Workspace>, backends: seq<string>, k: nat, w: Workspace)
    requires IdsOk(WorkspaceIds(ws)) && k < |ws| && TerminalsOk(ts, ws, backends)
    requires w.id == ws[k].id && w.terminalIDs == ws[k].terminalIDs
    ensures TerminalsOk(ts, ws[k := w], backends) <==> SurfacesKnown(ts, w)
  {
    hide SurfaceKnown;
    var ws1 := ws[k := w];
    assert WorkspaceIds(ws1) == WorkspaceIds(ws);
    forall i | 0 <= i < |ts|
      ensures TerminalOk(ts[i], ws1, backends) <==> (ts[i].workspaceID == w.id ==> SurfaceKnown(w, ts[i].surfaceID))
    {
      assert TerminalOk(ts[i], ws, backends);
      var j :| 0 <= j < |ws| && TerminalHome(ts[i], ws[j]);
      if ts[i].workspaceID == w.id {
        HomeUnique(ws1, ts[i], k);
        HomeUnique(ws, ts[i], k);
      } else {
        assert TerminalHome(ts[i], ws1[j]);
      }
    }
    AllKnown(ts, ws1, backends, w);
  }

  lemma AllKnown(ts: seq<Terminal>, ws: seq<Workspace>, backends: seq<string>, w: Workspace)
    requires forall i :: 0 <= i < |ts| ==> (TerminalOk(ts[i], ws, backends) <==> (ts[i].workspaceID == w.id ==> SurfaceKnown(w, ts[i].surfaceID)))
    ensures TerminalsOk(ts, ws, backends) <==> SurfacesKnown(ts, w)
  {
    hide SurfaceKnown, TerminalOk;
    if TerminalsOk(ts, ws, backends) {
      forall i | 0 <= i < |ts| && ts[i].workspaceID == w.id ensures SurfaceKnown(w, ts[i].surfaceID) {
        assert TerminalOk(ts[i], ws, backends);
      }
    }
  }

  lemma AgentsSwapped(ags: seq<Agent>, ws: seq<Workspace>, states: seq<(string, TerminalState)>, k: nat, w: Workspace)
    requires k < |ws| && AgentsOk(ags, ws, states) && w.id == ws[k].id && w.agentIDs == ws[k].agentIDs
    ensures AgentsOk(ags, ws[k := w], states)
  {
    hide AgentOk;
    var ws1 := ws[k := w];
    forall i | 0 <= i < |ags| ensures AgentPlaceOk(ags[i], ws1, states) {
      assert AgentPlaceOk(ags[i], ws, states);
      var j :| 0 <= j < |ws| && AgentHome(ags[i], ws[j]);
      assert AgentHome(ags[i], ws1[j]);
    }
  }

  lemma WorkspacesSwapped(ws: seq<Workspace>, k: nat, w: Workspace, machines: seq<string>, backends: seq<string>,
                          terminals: seq<(string, string)>, agents: seq<(string, string)>)
    requires k < |ws| && WorkspacesOk(ws, machines, backends, terminals, agents)
    requires w.id == ws[k].id && w.machineID == ws[k].machineID && w.backendID == ws[k].backendID
    requires w.terminalIDs == ws[k].terminalIDs && w.agentIDs == ws[k].agentIDs
    ensures WorkspacesOk(ws[k := w], machines, backends, terminals, agents) <==> WorkspaceStateOk(w)
  {
    hide WorkspaceStateOk;
    assert WorkspaceRefsOk(ws[k], machines, backends, terminals, agents);
    assert WorkspaceRefsOk(w, machines, backends, terminals, agents);
    var ws1 := ws[k := w];
    if WorkspaceStateOk(w) {
      forall i | 0 <= i < |ws1| ensures WorkspaceRefsOk(ws1[i], machines, backends, terminals, agents) && WorkspaceStateOk(ws1[i]) {
        assert WorkspaceRefsOk(ws[i], machines, backends, terminals, agents);
      }
    }
    if WorkspacesOk(ws1, machines, backends, terminals, agents) { assert ws1[k] == w; }
  }

  /** A workspace may be exchanged for one with the same links exactly if its own state is consistent and its terminals stay placed. */
  lemma WorkspaceSwapped(c: Catalog, counters: Counters, k: nat, w: Workspace)
    requires Sound(c, counters) && k < |c.workspaces|
    requires var v := c.workspaces[k];
             w.id == v.id && w.machineID == v.machineID && w.backendID == v.backendID && w.terminalIDs == v.terminalIDs && w.agentIDs == v.agentIDs
    ensures var d := c.(workspaces := c.workspaces[k := w]);
            && (ValidCatalog(d) <==> WorkspaceStateOk(w) && SurfacesKnown(c.terminals, w))
            && Dominates(counters, d)
  {
    hide IdsOk, Unissued, BackendsOk, WorkspacesOk, SnapshotsOk, TerminalsOk, AgentsOk, HistoryOk, EventsOk, PlansOk, MachinesOk, ConfigOk,
         ViewsOk, WorkspaceStateOk, SurfacesKnown;
    var ws := c.workspaces[k := w];
    assert WorkspaceIds(ws) == WorkspaceIds(c.workspaces);
    WorkspacesSwapped(c.workspaces, k, w, MachineIds(c.machines), BackendIds(c.backends), TerminalOwners(c.terminals), AgentOwners(c.agents));
    TerminalsSwapped(c.terminals, c.workspaces, BackendIds(c.backends), k, w);
    AgentsSwapped(c.agents, c.workspaces, TerminalStates(c.terminals), k, w);
  }

  /** Recording an event changes nothing the gate can object to. */
  lemma EventIrrelevant(c: Catalog, counters: Counters, category: EventCategory, severity: EventSeverity, resource: ResourceRef)
    requires EventsOk(c.events) && Dominates(counters, c) && IdsOk(EventIds(c.events))
    requires !category.EventOther? && !severity.SeverityOther? && !resource.kind.KindOther?
    ensures var r := AddEvent(c, counters, category, severity, resource);
            && r.Accepted? && (ValidCatalog(r.cat) <==> ValidCatalog(c)) && Dominates(r.counters, r.cat)
  {
    hide IdOf, BackendsOk, WorkspacesOk, SnapshotsOk, TerminalsOk, AgentsOk, ViewsOk, HistoryOk, PlansOk, MachinesOk, ConfigOk, IdsOk;
    var r := AddEvent(c, counters, category, severity, resource);
    Issue(counters, "evt", EventIds(c.events));
    var (id, next) := NextId(counters, "evt");
    assert EventIds(r.cat.events) == EventIds(c.events) + [id];
    EventsAppend(c.events, r.cat.events[|c.events|]);
  }

  lemma StateParts(c: Catalog, k: nat)
    requires ValidCatalog(c) && k < |c.workspaces|
    ensures WorkspaceStateOk(c.workspaces[k]) && SurfacesKnown(c.terminals, c.workspaces[k])
    ensures EventsOk(c.events) && IdsOk(EventIds(c.events))
  {
    hide IdsOk, BackendsOk, SnapshotsOk, AgentsOk, HistoryOk, EventsOk, PlansOk, MachinesOk, ConfigOk, ViewsOk, WorkspaceStateOk, SurfaceKnown, WorkspaceRefsOk;
    forall i | 0 <= i < |c.terminals| && c.terminals[i].workspaceID == c.workspaces[k].id ensures SurfaceKnown(c.workspaces[k], c.terminals[i].surfaceID) {
      HomeUnique(c.workspaces, c.terminals[i], k);
    }
  }

  // ---- attach -----------------------------------------------------------------------------------

  /** Attaching passes exactly if the terminal shows nothing or a surface of the observed state. */
  lemma AttachExact(c: Catalog, counters: Counters, k: nat, i: nat)
    requires Sound(c, counters) && k < |c.workspaces| && i < |c.terminals|
    requires c.terminals[i].state == TerminalLive
    ensures var r := AttachTo(c, counters, k, i);
            && r.Accepted? && Dominates(r.counters, r.cat)
            && (ValidCatalog(r.cat) <==> c.terminals[i].surfaceID == "" || HasSurface(c.workspaces[k].observed, c.terminals[i].surfaceID))
  {
    hide Dominates, ValidCatalog, HasSurface, IdsOk, EventsOk, AddEvent, DriftConsistent;
    var c1 := Advance(c);
    var v, s := c.workspaces[k], c.terminals[i].surfaceID;
    var w := v.(lastAttached := c1.now, lastFocused := c1.now, selectedSurfaceID := s);
    AdvanceSound(c, counters);
    StateParts(c, k);
    WorkspaceSwapped(c1, counters, k, w);
    assert DriftConsistent(w) by { SameDrift(v, w); }
    EventIrrelevant(c1.(workspaces := c.workspaces[k := w]), counters, EventWorkspace, SeverityInfo, Ref(KindWorkspace, w.id));
  }

  predicate LiveTerminal(c: Catalog, id: string) {
    var i := IndexOf(TerminalIds(c.terminals), id);
    i >= 0 && c.terminals[i].state == TerminalLive
  }

  /** Position of the first live terminal in a list of ids. */
  predicate FirstLiveAt(c: Catalog, ids: seq<string>, p: int) {
    0 <= p < |ids| && LiveTerminal(c, ids[p]) && forall q :: 0 <= q < p ==> !LiveTerminal(c, ids[q])
  }

  lemma {:induction false} FirstLiveSpec(c: Catalog, ids: seq<string>)
    ensures var i := FirstLive(ids, c.terminals);
            && (i < 0 ==> forall p :: 0 <= p < |ids| ==> !LiveTerminal(c, ids[p]))
            && (i >= 0 ==> exists p :: FirstLiveAt(c, ids, p) && i == IndexOf(TerminalIds(c.terminals), ids[p]))
  {
    hide IndexOf;
    if ids != [] {
      var t := ids[1..];
      assert forall p :: 0 <= p < |t| ==> t[p] == ids[p + 1];
      FirstLiveSpec(c, t);
      var i := FirstLive(ids, c.terminals);
      if LiveTerminal(c, ids[0]) {
        assert FirstLiveAt(c, ids, 0);
      } else {
        if i >= 0 {
          var p :| FirstLiveAt(c, t, p) && i == IndexOf(TerminalIds(c.terminals), t[p]);
          forall q | 0 <= q < p + 1 ensures !LiveTerminal(c, ids[q]) { if q > 0 { assert !LiveTerminal(c, t[q - 1]); } }
          assert FirstLiveAt(c, ids, p + 1);
        }
        forall p | i < 0 && 0 <= p < |ids| ensures !LiveTerminal(c, ids[p]) { if p > 0 { assert !LiveTerminal(c, t[p - 1]); } }
      }
    }
  }

  /** Workspace `k` was attached to terminal `i`; the gate asks that what it shows is observed. */
  ghost predicate Attached(c: Catalog, r: Outcome, k: nat, i: nat) {
    && k < |c.workspaces| && i < |c.terminals| && c.terminals[i].state == TerminalLive
    && r.Accepted? && Dominates(r.counters, r.cat)
    && r.cat.terminals == c.terminals
    && r.cat.workspaces == c.workspaces[k := c.workspaces[k].(lastAttached := r.cat.now, lastFocused := r.cat.now, selectedSurfaceID := c.terminals[i].surfaceID)]
    && (ValidCatalog(r.cat) <==> c.terminals[i].surfaceID == "" || HasSurface(c.workspaces[k].observed, c.terminals[i].surfaceID))
  }

  /**
   * Attaching to a workspace takes the first live terminal it lists, attaching to a terminal the workspace
   * it belongs to; it fails exactly if the target is missing or nothing is live, and passes the gate
   * exactly if the terminal shows nothing or a surface of the observed state.
   */
  lemma AttachActs(c: Catalog, counters: Counters, a: Action)
    requires Sound(c, counters)
    ensures var r := DoAttach(c, counters, a);
            match a.target.kind
            case KindWorkspace =>
              var k := IndexOf(WorkspaceIds(c.workspaces), a.target.id);
              if k < 0 then r == Failed(NotFound, counters)
              else if exists p :: FirstLiveAt(c, c.workspaces[k].terminalIDs, p) then
                exists p :: FirstLiveAt(c, c.workspaces[k].terminalIDs, p)
                            && Attached(c, r, k, IndexOf(TerminalIds(c.terminals), c.workspaces[k].terminalIDs[p]))
              else r == Failed(NotLive, counters)
            case KindTerminal =>
              var i := IndexOf(TerminalIds(c.terminals), a.target.id);
              if i < 0 then r == Failed(NotFound, counters)
              else if !LiveTerminal(c, a.target.id) then r == Failed(NotLive, counters)
              else
                var k := IndexOf(WorkspaceIds(c.workspaces), c.terminals[i].workspaceID);
                k >= 0 && Attached(c, r, k, i)
            case _ => r == Failed(BadTarget, counters)
  {
    hide Dominates, ValidCatalog, HasSurface, IndexOf, FirstLive, Sound;
    if a.target.kind == KindWorkspace {
      var k := IndexOf(WorkspaceIds(c.workspaces), a.target.id);
      if k >= 0 {
        var ids := c.workspaces[k].terminalIDs;
        var i := FirstLive(ids, c.terminals);
        FirstLiveSpec(c, ids);
        if i >= 0 {
          var p :| FirstLiveAt(c, ids, p) && i == IndexOf(TerminalIds(c.terminals), ids[p]);
          AttachExact(c, counters, k, i);
        }
      }
    } else if a.target.kind == KindTerminal {
      var i := IndexOf(TerminalIds(c.terminals), a.target.id);
      if i >= 0 && c.terminals[i].state == TerminalLive {
        TerminalAtHome(c, counters, i);
        AttachExact(c, counters, IndexOf(WorkspaceIds(c.workspaces), c.terminals[i].workspaceID), i);
      }
    }
  }

  lemma TerminalAtHome(c: Catalog, counters: Counters, i: nat)
    requires Sound(c, counters) && i < |c.terminals|
    ensures IndexOf(WorkspaceIds(c.workspaces), c.terminals[i].workspaceID) >= 0
  {
    hide Dominates, IdsOk, BackendsOk, SnapshotsOk, AgentsOk, HistoryOk, EventsOk, PlansOk, MachinesOk, ConfigOk, ViewsOk, WorkspacesOk, SurfaceKnown;
    assert TerminalOk(c.terminals[i], c.workspaces, BackendIds(c.backends));
    var k :| 0 <= k < |c.workspaces| && TerminalHome(c.terminals[i], c.workspaces[k]);
    assert WorkspaceIds(c.workspaces)[k] == c.terminals[i].workspaceID;
  }

  lemma SameDrift(v: Workspace, w: Workspace)
    requires DriftConsistent(v)
    requires w.desired == v.desired && w.observed == v.observed && w.drift == v.drift && w.status == v.status
    ensures DriftConsistent(w)
  {
  }

  // ---- freeze -----------------------------------------------------------------------------------

  /** Every terminal of the workspace shows nothing or a surface of this state. */
  predicate ShownIn(ts: seq<Terminal>, workspace: string, state: WorkspaceState) {
    forall i :: 0 <= i < |ts| && ts[i].workspaceID == workspace ==> ts[i].surfaceID == "" || HasSurface(state, ts[i].surfaceID)
  }

  /** Freezing forgets the desired state, and passes exactly if no terminal needs it. */
  lemma FreezeExact(c: Catalog, counters: Counters, a: Action)
    requires Sound(c, counters) && a.target.kind == KindWorkspace
    requires IndexOf(WorkspaceIds(c.workspaces), a.target.id) >= 0
    ensures var r, w := DoFreeze(c, counters, a), c.workspaces[IndexOf(WorkspaceIds(c.workspaces), a.target.id)];
            && r.Accepted? && Dominates(r.counters, r.cat)
            && (ValidCatalog(r.cat) <==> ShownIn(c.terminals, w.id, w.observed))
  {
    hide Dominates, ValidCatalog, HasSurface, IdsOk, EventsOk, AddEvent, IndexOf;
    var k := IndexOf(WorkspaceIds(c.workspaces), a.target.id);
    var w := c.workspaces[k].(desired := c.workspaces[k].observed, drift := [], status := WorkspaceFrozen);
    AdvanceSound(c, counters);
    StateParts(c, k);
    WorkspaceSwapped(Advance(c), counters, k, w);
    EventIrrelevant(Advance(c).(workspaces := c.workspaces[k := w]), counters, EventWorkspace, SeverityInfo, Ref(KindWorkspace, w.id));
  }

  // ---- split ------------------------------------------------------------------------------------

  lemma SplitHas(ws: WorkspaceState, beside: string, sf: SurfaceSpec, x: string)
    requires HasSurface(ws, beside)
    ensures HasSurface(SplitObserved(ws, beside, sf), x) <==> HasSurface(ws, x) || x == sf.id
  {
    hide SurfaceIndex;
    var i, t := HolderIndex(ws, beside), SplitObserved(ws, beside, sf);
    assert HoldsSurface(t[i], x) <==> HoldsSurface(ws[i], x) || x == sf.id by { AppendHolds(ws[i].surfaces, sf, x); }
    assert forall j :: 0 <= j < |ws| && j != i ==> t[j] == ws[j];
    var m, n := HolderIndex(ws, x), HolderIndex(t, x);
    if m >= 0 { assert HoldsSurface(t[m], x); }
    if n >= 0 && n != i { assert HoldsSurface(ws[n], x); }
  }

  lemma AppendHolds(sfs: seq<SurfaceSpec>, sf: SurfaceSpec, x: string)
    ensures SurfaceIndex(sfs + [sf], x) >= 0 <==> SurfaceIndex(sfs, x) >= 0 || x == sf.id
  {
    var k, m := SurfaceIndex(sfs, x), SurfaceIndex(sfs + [sf], x);
    if k >= 0 { assert (sfs + [sf])[k].id == x; }
    if 0 <= m < |sfs| { assert sfs[m].id == x; }
    assert (sfs + [sf])[|sfs|] == sf;
  }

  /** Ids stay unique exactly if the surface put beside another is new to the state. */
  lemma SplitUnique(ws: WorkspaceState, beside: string, sf: SurfaceSpec)
    requires Unique(ws) && HasSurface(ws, beside)
    ensures Unique(SplitObserved(ws, beside, sf)) <==> !HasSurface(ws, sf.id)
  {
    hide SurfaceIndex, HolderIndex;
    var i, t := HolderIndex(ws, beside), SplitObserved(ws, beside, sf);
    var n := |ws[i].surfaces|;
    assert t[i].surfaces[n] == sf && forall j :: 0 <= j < n ==> t[i].surfaces[j] == ws[i].surfaces[j];
    if HasSurface(ws, sf.id) {
      var m := HolderIndex(ws, sf.id);
      if m == i {
        var k := SurfaceIndex(ws[i].surfaces, sf.id);
        assert t[i].surfaces[k].id == t[i].surfaces[n].id;
      } else {
        assert HoldsSurface(t[i], sf.id) && HoldsSurface(t[m], sf.id);
      }
    } else {
      forall x ensures HoldsSurface(t[i], x) <==> HoldsSurface(ws[i], x) || x == sf.id { AppendHolds(ws[i].surfaces, sf, x); }
      UniqueReplace(ws, i, t[i]);
    }
  }

  lemma RefsGrow(w: Workspace, machines: seq<string>, backends: seq<string>, terminals: seq<(string, string)>, more: seq<(string, string)>, agents: seq<(string, string)>)
    requires WorkspaceRefsOk(w, machines, backends, terminals, agents)
    ensures WorkspaceRefsOk(w, machines, backends, terminals + more, agents)
  {
  }

  /** A terminal joins a workspace that lists it last. */
  lemma TerminalAdded(c: Catalog, counters: Counters, k: nat, w: Workspace, t: Terminal)
    requires Sound(c, counters) && k < |c.workspaces|
    requires t.id == NextId(counters, "term").0 && t.state == TerminalLive && t.backendID in BackendIds(c.backends) && t.workspaceID == w.id
    requires var v := c.workspaces[k];
             w.id == v.id && w.machineID == v.machineID && w.backendID == v.backendID && w.terminalIDs == v.terminalIDs + [t.id] && w.agentIDs == v.agentIDs
    ensures var d := c.(terminals := c.terminals + [t], workspaces := c.workspaces[k := w]);
            && (ValidCatalog(d) <==> WorkspaceStateOk(w) && SurfacesKnown(c.terminals + [t], w))
            && Dominates(NextId(counters, "term").1, d)
  {
    hide IdOf, Unissued, IdsOk, BackendsOk, WorkspacesOk, SnapshotsOk, TerminalsOk, AgentsOk, HistoryOk, EventsOk, PlansOk, MachinesOk, ConfigOk,
         ViewsOk, WorkspaceStateOk, SurfacesKnown;
    var ts, ws := c.terminals + [t], c.workspaces[k := w];
    Issue(counters, "term", TerminalIds(c.terminals));
    UnissuedOthers(counters, NextId(counters, "term").1, "term", c);
    assert TerminalIds(ts) == TerminalIds(c.terminals) + [t.id];
    assert WorkspaceIds(ws) == WorkspaceIds(c.workspaces);
    assert TerminalStates(ts) == TerminalStates(c.terminals) + [(t.id, t.state)];
    WorkspacesGrown(c.workspaces, c.terminals, k, w, t, MachineIds(c.machines), BackendIds(c.backends), AgentOwners(c.agents));
    TerminalsGrown(c.terminals, c.workspaces, BackendIds(c.backends), k, w, t);
    AgentsSwapped(c.agents, c.workspaces, TerminalStates(c.terminals), k, w);
    AgentsGrown(c.agents, ws, TerminalStates(c.terminals), [(t.id, t.state)]);
    HistoryGrown(c.history, TerminalIds(c.terminals), [t.id], AgentIds(c.agents));
  }

  lemma UnissuedOthers(counters: Counters, next: Counters, prefix: string, c: Catalog)
    requires Dominates(counters, c) && prefix == "term"
    requires forall p :: p != prefix ==> Issued(next, p) == Issued(counters, p)
    ensures Unissued(next, "hist", HistoryIds(c.history)) && Unissued(next, "evt", EventIds(c.events))
    ensures Unissued(next, "snap", SnapshotIds(c.snapshots)) && Unissued(next, "plan", PlanIds(c.restorePlans))
  {
    hide IdOf, Issued;
  }

  lemma WorkspacesGrown(ws: seq<Workspace>, ts: seq<Terminal>, k: nat, w: Workspace, t: Terminal, machines: seq<string>, backends: seq<string>, agents: seq<(string, string)>)
    requires k < |ws| && WorkspacesOk(ws, machines, backends, TerminalOwners(ts), agents) && t.workspaceID == w.id
    requires w.id == ws[k].id && w.machineID == ws[k].machineID && w.backendID == ws[k].backendID
    requires w.terminalIDs == ws[k].terminalIDs + [t.id] && w.agentIDs == ws[k].agentIDs
    ensures WorkspacesOk(ws[k := w], machines, backends, TerminalOwners(ts + [t]), agents) <==> WorkspaceStateOk(w)
  {
    hide WorkspaceStateOk;
    var ws1, owners, more := ws[k := w], TerminalOwners(ts), [(t.id, t.workspaceID)];
    assert TerminalOwners(ts + [t]) == owners + more;
    forall i | 0 <= i < |ws1| ensures WorkspaceRefsOk(ws1[i], machines, backends, owners + more, agents) {
      assert WorkspaceRefsOk(ws[i], machines, backends, owners, agents);
      RefsGrow(ws[i], machines, backends, owners, more, agents);
      assert (owners + more)[|owners|] == (t.id, w.id);
    }
    if WorkspacesOk(ws1, machines, backends, owners + more, agents) { assert ws1[k] == w; }
  }

  lemma TerminalsGrown(ts: seq<Terminal>, ws: seq<Workspace>, backends: seq<string>, k: nat, w: Workspace, t: Terminal)
    requires IdsOk(WorkspaceIds(ws)) && k < |ws| && TerminalsOk(ts, ws, backends)
    requires w.id == ws[k].id && w.terminalIDs == ws[k].terminalIDs + [t.id]
    requires t.workspaceID == w.id && !t.state.TerminalOther? && t.backendID in backends
    ensures TerminalsOk(ts + [t], ws[k := w], backends) <==> SurfacesKnown(ts + [t], w)
  {
    hide SurfaceKnown;
    var ts1, ws1 := ts + [t], ws[k := w];
    assert WorkspaceIds(ws1) == WorkspaceIds(ws);
    forall i | 0 <= i < |ts1|
      ensures TerminalOk(ts1[i], ws1, backends) <==> (ts1[i].workspaceID == w.id ==> SurfaceKnown(w, ts1[i].surfaceID))
    {
      if i == |ts| {
        HomeUnique(ws1, t, k);
      } else {
        assert TerminalOk(ts[i], ws, backends);
        var j :| 0 <= j < |ws| && TerminalHome(ts[i], ws[j]);
        if ts[i].workspaceID == w.id {
          HomeUnique(ws1, ts[i], k);
          HomeUnique(ws, ts[i], k);
        } else {
          assert TerminalHome(ts[i], ws1[j]);
        }
      }
    }
    AllKnown(ts1, ws1, backends, w);
  }

  lemma AgentsGrown(ags: seq<Agent>, ws: seq<Workspace>, states: seq<(string, TerminalState)>, more: seq<(string, TerminalState)>)
    requires AgentsOk(ags, ws, states)
    ensures AgentsOk(ags, ws, states + more)
  {
    hide AgentOk, Employed;
    forall i | 0 <= i < |ags| ensures AgentPlaceOk(ags[i], ws, states + more) {
      assert AgentPlaceOk(ags[i], ws, states);
    }
  }

  lemma HistoryGrown(hs: seq<HistoryChunk>, terminals: seq<string>, more: seq<string>, agents: seq<string>)
    requires HistoryOk(hs, terminals, agents)
    ensures HistoryOk(hs, terminals + more, agents)
  {
  }

  lemma IdAt(c: Catalog, i: nat, k: nat)
    requires ValidCatalog(c) && i < |c.terminals| && k < |c.workspaces|
    ensures c.terminals[i].backendID in BackendIds(c.backends) && !c.terminals[i].state.TerminalOther?
    ensures DriftConsistent(c.workspaces[k]) && !c.workspaces[k].status.WorkspaceOther?
  {
    hide AllIdsOk, BackendsOk, SnapshotsOk, AgentsOk, HistoryOk, EventsOk, PlansOk, MachinesOk, ConfigOk, ViewsOk, WorkspaceRefsOk, Placed, DriftConsistent;
    assert TerminalOk(c.terminals[i], c.workspaces, BackendIds(c.backends));
    assert WorkspaceStateOk(c.workspaces[k]);
  }

  /**
   * Splitting makes desired equal to observed but leaves the recorded drift alone. So it passes exactly
   * if there was no drift and every terminal's surface is in the split state. The gate does not ask whether the
   * surface drawn is new; ids stay unique exactly if it is.
   */
  lemma SplitExact(c: Catalog, counters: Counters, a: Action)
    requires Sound(c, counters) && a.target.kind == KindTerminal
    requires DoSplit(c, counters, a).Accepted?
    ensures var i := IndexOf(TerminalIds(c.terminals), a.target.id);
            && i >= 0 && var k := IndexOf(WorkspaceIds(c.workspaces), c.terminals[i].workspaceID);
            && k >= 0 && var w, r := c.workspaces[k], DoSplit(c, counters, a);
            && HasSurface(w.observed, c.terminals[i].surfaceID)
            && Dominates(r.counters, r.cat)
            && (ValidCatalog(r.cat) <==> w.drift == [] && ShownIn(c.terminals, w.id, r.cat.workspaces[k].observed))
            && var id := IdOf("sf", Issued(counters, "sf") + 1);
            && (forall x :: HasSurface(r.cat.workspaces[k].observed, x) <==> HasSurface(w.observed, x) || x == id)
            && (Unique(w.observed) ==> (Unique(r.cat.workspaces[k].observed) <==> !HasSurface(w.observed, id)))
  {
    hide Unique, Dominates, ValidCatalog, HasSurface, IdsOk, EventsOk, AddEvent, IndexOf, SplitObserved, IdOf;
    var i := IndexOf(TerminalIds(c.terminals), a.target.id);
    var t := c.terminals[i];
    var k := IndexOf(WorkspaceIds(c.workspaces), t.workspaceID);
    var w, c1 := c.workspaces[k], Advance(c);
    var (newID, counters1) := NextId(counters, "term");
    var (sfID, counters2) := NextId(counters1, "sf");
    assert Issued(counters1, "sf") == Issued(counters, "sf");
    var sf := SurfaceSpec(sfID, "terminal", t.cwd, "none");
    var observed := SplitObserved(w.observed, t.surfaceID, sf);
    forall x ensures HasSurface(observed, x) <==> HasSurface(w.observed, x) || x == sfID { SplitHas(w.observed, t.surfaceID, sf, x); }
    if Unique(w.observed) { SplitUnique(w.observed, t.surfaceID, sf); }
    var nt := Terminal(newID, w.name + "-terminal", w.id, sfID, t.backendID, TerminalLive, "zsh", t.cwd, t.capabilities, c1.now, c1.now);
    var w1 := w.(observed := observed, desired := observed, terminalIDs := w.terminalIDs + [newID]);
    AdvanceSound(c, counters);
    StateParts(c, k);
    IdAt(c, i, k);
    TerminalAdded(c1, counters, k, w1, nt);
    assert SurfacesKnown(c.terminals + [nt], w1) <==> ShownIn(c.terminals, w.id, observed) by { KnownShown(c.terminals, nt, w1); }
    var d := c1.(terminals := c.terminals + [nt], workspaces := c.workspaces[k := w1]);
    SurfaceCounter(counters1, counters2, d);
    EventIrrelevant(d, counters2, EventTerminal, SeverityInfo, Ref(KindTerminal, newID));
    AddEventFrame(d, counters2, EventTerminal, SeverityInfo, Ref(KindTerminal, newID));
  }

  lemma AddEventFrame(c: Catalog, counters: Counters, category: EventCategory, severity: EventSeverity, resource: ResourceRef)
    ensures AddEvent(c, counters, category, severity, resource).Accepted?
    ensures AddEvent(c, counters, category, severity, resource).cat.workspaces == c.workspaces
  {
  }

  lemma SurfaceCounter(counters: Counters, next: Counters, c: Catalog)
    requires Dominates(counters, c) && forall p :: p != "sf" ==> Issued(next, p) == Issued(counters, p)
    ensures Dominates(next, c)
  {
    hide IdOf, Issued;
  }

  lemma KnownShown(ts: seq<Terminal>, t: Terminal, w: Workspace)
    requires w.desired == w.observed && t.workspaceID == w.id && HasSurface(w.observed, t.surfaceID)
    ensures SurfacesKnown(ts + [t], w) <==> ShownIn(ts, w.id, w.observed)
  {
    hide HasSurface;
    var ts1 := ts + [t];
    if SurfacesKnown(ts1, w) {
      forall i | 0 <= i < |ts| && ts[i].workspaceID == w.id ensures ts[i].surfaceID == "" || HasSurface(w.observed, ts[i].surfaceID) {
        assert ts1[i] == ts[i];
      }
    }
  }
}
