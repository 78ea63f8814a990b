/**
 * How a surface id that priming does not read comes to be drawn again, so that a workspace the gate accepts has
 * two surfaces of one id. (tmh-next/internal/mock/backend.go)
 */
module Twins {
  import opened Text
  import opened Topology
  import opened Domain
  import opened Reconcile
  import opened Converge
  import opened Plan
  import opened Validation
  import opened Transitions
  import opened Gate
  import opened GateExact
  import opened GateRestore
  import opened Backend
  import opened Runs
  import opened UndoRuns
  import opened Surfaces

  /** Every window and surface of the one state is in the other. */
  ghost predicate Extends(target: WorkspaceState, base: WorkspaceState) {
    && (forall x :: HasWindow(base, x) ==> HasWindow(target, x))
    && (forall x :: HasSurface(base, x) ==> HasSurface(target, x))
  }

  function NextSurface(counters: Counters): string { IdOf("sf", Issued(counters, "sf") + 1) }

  /**
   * A pending plan just built for a workspace without drift, from a snapshot that only adds to it, among others
   * the surface id that the next split draws; and a live terminal to split.
   */
  ghost predicate Ready(s: State, j: nat, k: nat, i: nat, target: WorkspaceState) {
    && SoundState(s) && j < |s.cat.value.restorePlans| && k < |s.cat.value.workspaces| && i < |s.cat.value.terminals|
    && var c := s.cat.value;
    && var p, w, t := c.restorePlans[j], c.workspaces[k], c.terminals[i];
    && p.status == PlanPending && p.workspaceID == w.id && p.ops == BuildOps(w, target)
    && w.desired == w.observed && w.observed != [] && Unique(w.observed) && Plain(w.observed) && Unique(target) && Plain(target)
    && Extends(target, w.observed) && HasSurface(target, NextSurface(s.counters)) && !HasSurface(w.observed, NextSurface(s.counters))
    && t.state == TerminalLive && t.workspaceID == w.id && HasSurface(w.observed, t.surfaceID)
    && ShownIn(c.terminals, w.id, w.observed)
  }

  function Push(c: Catalog, plan: string): Action {
    Action(ActionRestoreApply, Ref(KindPlan, plan), "push", [], true, c.revision, None)
  }

  function Freeze(c: Catalog, workspace: string): Action {
    Action(ActionFreeze, Ref(KindWorkspace, workspace), "", [], false, c.revision, None)
  }

  function SplitBeside(c: Catalog, terminal: string): Action {
    Action(ActionSplit, Ref(KindTerminal, terminal), "", [], false, c.revision, None)
  }

  lemma IndexAt(ids: seq<string>, k: nat)
    requires IdsOk(ids) && k < |ids|
    ensures IndexOf(ids, ids[k]) == k
  {
    var i := IndexOf(ids, ids[k]);
    assert i >= 0;
  }

  /** What the lookups of the actions find. */
  lemma PlanFound(c: Catalog, j: nat)
    requires ValidCatalog(c) && j < |c.restorePlans|
    ensures IndexOf(PlanIds(c.restorePlans), c.restorePlans[j].id) == j
  {
    hide IdsOk, BackendsOk, WorkspacesOk, SnapshotsOk, TerminalsOk, AgentsOk, HistoryOk, EventsOk, PlansOk, MachinesOk, ConfigOk, ViewsOk;
    IndexAt(PlanIds(c.restorePlans), j);
  }

  lemma WorkspaceFound(c: Catalog, k: nat)
    requires ValidCatalog(c) && k < |c.workspaces|
    ensures IndexOf(WorkspaceIds(c.workspaces), c.workspaces[k].id) == k && WorkspaceStateOk(c.workspaces[k])
  {
    hide IdsOk, BackendsOk, SnapshotsOk, TerminalsOk, AgentsOk, HistoryOk, EventsOk, PlansOk, MachinesOk, ConfigOk, ViewsOk, WorkspaceRefsOk, WorkspaceStateOk;
    IndexAt(WorkspaceIds(c.workspaces), k);
  }

  lemma TerminalFound(c: Catalog, i: nat)
    requires ValidCatalog(c) && i < |c.terminals|
    ensures IndexOf(TerminalIds(c.terminals), c.terminals[i].id) == i
  {
    hide IdsOk, BackendsOk, WorkspacesOk, SnapshotsOk, TerminalsOk, AgentsOk, HistoryOk, EventsOk, PlansOk, MachinesOk, ConfigOk, ViewsOk;
    IndexAt(TerminalIds(c.terminals), i);
  }

  /** Nothing is removed, so the push reaches the windows and surfaces of the snapshot. */
  lemma Reaches(w: Workspace, target: WorkspaceState, ops: seq<RestoreOp>)
    requires w.observed != [] && Unique(w.observed) && Plain(w.observed) && Unique(target) && Plain(target)
    requires Extends(target, w.observed) && ops == PushOps(w.observed, target, w.id)
    ensures ApplyOps(w.observed, ops).Edited? && Unique(ApplyOps(w.observed, ops).state)
    ensures forall x :: HasSurface(ApplyOps(w.observed, ops).state, x) <==> HasSurface(target, x)
  {
    hide Fields, Unique, Plain, HasSurface, HasWindow, Less, OpId, ApplyOps;
    FreshPushConverges(w.observed, target, w.id);
    DiffStatesSpec(w.observed, target);
    var ds := DiffStates(w.observed, target);
    forall z | RemovesWindow(ops, z) ensures false {
      var m :| 0 <= m < |ops| && ops[m].field == WKey(z) && ops[m].after == "";
      assert DiffOf(ds[m], Fields(w.observed), Fields(target));
      FieldsHas(w.observed, z);
      FieldsHas(target, z);
      if HasWindow(target, z) { PlainField(target, WKey(z)); }
    }
    assert Clears(w.observed, ops);
    var r := ApplyOps(w.observed, ops).state;
    forall x ensures HasSurface(r, x) <==> HasSurface(target, x) {
      FieldsHas(r, x);
      FieldsHas(target, x);
    }
    var known := iset x | HasSurface(w.observed, x) || HasSurface(target, x);
    StateTidyIs(w.observed, known);
    StateTidyIs(target, known);
    DiffTidy(w.observed, target, RestorePush, Ref(KindWorkspace, w.id), 0, known);
    ApplyTidy(w.observed, ops, known);
  }

  /** The push is accepted, and what the next split draws is now observed. */
  lemma Pushed(s: State, j: nat, k: nat, i: nat, target: WorkspaceState)
    requires Ready(s, j, k, i, target)
    ensures var c := s.cat.value;
            var (t, r) := Exec(s, Push(c, c.restorePlans[j].id));
            && r.Done? && SoundState(t) && t.cat.value.terminals == c.terminals && |t.cat.value.workspaces| == |c.workspaces|
            && NextSurface(t.counters) == NextSurface(s.counters)
            && var v := t.cat.value.workspaces[k];
               v.id == c.workspaces[k].id && Unique(v.observed) && forall x :: HasSurface(v.observed, x) <==> HasSurface(target, x)
  {
    hide Sound, Fields, Unique, Plain, HasSurface, HasWindow, ApplyOps, BuildOps, ReconcileStatus, DiffStates, Number, IndexOf, Apply, ChosenOps, WorkspaceStateOk, ValidCatalog;
    var c, a := s.cat.value, Push(s.cat.value, s.cat.value.restorePlans[j].id);
    var w := c.workspaces[k];
    var ops := PushOps(w.observed, target, w.id);
    assert ValidCatalog(c) by { SoundIs(s); }
    PlanFound(c, j);
    WorkspaceFound(c, k);
    ChosenFromPlan(w, target, RestorePush, []);
    Reaches(w, target, ops);
    Adds(w.observed, target, ops, NextSurface(s.counters));
    var w1 := w.(observed := ApplyOps(w.observed, ops).state);
    Settles(c.terminals, w, w1, target, NextSurface(s.counters));
    PushAccepted(s, a, j, k, ops, w1);
    AppliedState(s, a, j, k, RestorePush, ops);
    ReconcileKeepsSides(w1);
    StepSound(s, Do(a));
  }

  lemma SoundIs(s: State)
    requires SoundState(s)
    ensures ValidCatalog(s.cat.value)
  {
  }

  lemma Adds(base: WorkspaceState, target: WorkspaceState, ops: seq<RestoreOp>, x: string)
    requires HasSurface(target, x) && !HasSurface(base, x)
    requires ApplyOps(base, ops).Edited? && forall y :: HasSurface(ApplyOps(base, ops).state, y) <==> HasSurface(target, y)
    ensures ops != [] && Fields(ApplyOps(base, ops).state) != Fields(base)
  {
    hide HasSurface, Fields;
    FieldsHas(base, x);
    FieldsHas(ApplyOps(base, ops).state, x);
  }

  lemma Settles(ts: seq<Terminal>, w: Workspace, w1: Workspace, target: WorkspaceState, x: string)
    requires w.desired == w.observed && WorkspaceStateOk(w) && w1 == w.(observed := w1.observed) && Extends(target, w.observed)
    requires ShownIn(ts, w.id, w.observed) && Fields(w1.observed) != Fields(w.observed)
    requires forall y :: HasSurface(w1.observed, y) <==> HasSurface(target, y)
    ensures Settled(ts, w1)
  {
    hide HasSurface, Fields, HasWindow, DriftConsistent;
  }

  lemma PushAccepted(s: State, a: Action, j: nat, k: nat, ops: seq<RestoreOp>, w: Workspace)
    requires SoundState(s) && Applying(s.cat.value, a, j, k, RestorePush, ops) && a.value == "push" && ops != []
    requires a.confirmed && a.target.kind == KindPlan && a.expectedRevision == s.cat.value.revision
    requires s.cat.value.restorePlans[j].status == PlanPending
    requires ApplyOps(s.cat.value.workspaces[k].observed, ops).Edited?
    requires w == s.cat.value.workspaces[k].(observed := ApplyOps(s.cat.value.workspaces[k].observed, ops).state)
    requires Settled(s.cat.value.terminals, w)
    ensures Exec(s, a).1.Done?
    ensures Issued(Exec(s, a).0.counters, "sf") == Issued(s.counters, "sf")
  {
    hide ApplyOps, Settled, ReconcileStatus, ValidCatalog, Dominates, IndexOf, ChosenOps, UndoRecords, MarkOps, IdOf;
    var c := s.cat.value;
    ApplyExact(c, s.counters, a, j, k);
    var o := Apply(c, s.counters, a);
    SerialIrrelevant(o.cat, o.counters, o.cat.mutationSerial + 1);
  }

  /** Freezing what the push brought is accepted and leaves no drift. */
  lemma Frozen(s: State, k: nat, i: nat)
    requires SoundState(s) && k < |s.cat.value.workspaces| && i < |s.cat.value.terminals|
    requires ShownIn(s.cat.value.terminals, s.cat.value.workspaces[k].id, s.cat.value.workspaces[k].observed)
    ensures var c := s.cat.value;
            var (t, r) := Exec(s, Freeze(c, c.workspaces[k].id));
            && r.Done? && SoundState(t) && t.cat.value.terminals == c.terminals && |t.cat.value.workspaces| == |c.workspaces|
            && NextSurface(t.counters) == NextSurface(s.counters)
            && var v := t.cat.value.workspaces[k];
               v.id == c.workspaces[k].id && v.observed == c.workspaces[k].observed && v.drift == []
  {
    hide ValidCatalog, Dominates, IndexOf, HasSurface, IdOf;
    var c, a := s.cat.value, Freeze(s.cat.value, s.cat.value.workspaces[k].id);
    WorkspaceFound(c, k);
    FreezeExact(c, s.counters, a);
    var o := Apply(c, s.counters, a);
    SerialIrrelevant(o.cat, o.counters, o.cat.mutationSerial + 1);
    StepSound(s, Do(a));
  }

  /** A split without drift is accepted whatever it draws; where that is there already, the state has it twice. */
  lemma SplitTwice(s: State, k: nat, i: nat)
    requires SoundState(s) && k < |s.cat.value.workspaces| && i < |s.cat.value.terminals|
    requires var c := s.cat.value;
             var w, t := c.workspaces[k], c.terminals[i];
             && w.drift == [] && t.state == TerminalLive && t.workspaceID == w.id && HasSurface(w.observed, t.surfaceID)
             && Unique(w.observed) && ShownIn(c.terminals, w.id, w.observed)
    ensures var c := s.cat.value;
            var (t, r) := Exec(s, SplitBeside(c, c.terminals[i].id));
            && r.Done? && |t.cat.value.workspaces| == |c.workspaces|
            && (Unique(t.cat.value.workspaces[k].observed) <==> !HasSurface(c.workspaces[k].observed, NextSurface(s.counters)))
  {
    hide ValidCatalog, Dominates, IndexOf, HasSurface, IdOf, Unique, SplitObserved;
    var c, a := s.cat.value, SplitBeside(s.cat.value, s.cat.value.terminals[i].id);
    WorkspaceFound(c, k);
    TerminalFound(c, i);
    SplitExact(c, s.counters, a);
    var o := Apply(c, s.counters, a);
    SerialIrrelevant(o.cat, o.counters, o.cat.mutationSerial + 1);
  }

  /**
   * Three accepted calls, push, freeze and split, end in a catalog that passes the gate and whose workspace
   * observes two surfaces of one id.
   */
  lemma TwinsMade(s: State, j: nat, k: nat, i: nat, target: WorkspaceState) returns (calls: seq<Call>)
    requires Ready(s, j, k, i, target)
    ensures |calls| == 3 && forall r :: r in Run(s, calls).1 ==> r.Done?
    ensures SoundState(Run(s, calls).0) && Twin(Run(s, calls).0, k)
  {
    hide Exec, Sound, HasSurface, HasWindow, Unique, Plain, BuildOps, NextSurface;
    var push := Push(s.cat.value, s.cat.value.restorePlans[j].id);
    Pushed(s, j, k, i, target);
    var s1 := Exec(s, push).0;
    var freeze := Freeze(s1.cat.value, s.cat.value.workspaces[k].id);
    Frozen(s1, k, i);
    var s2 := Exec(s1, freeze).0;
    var split := SplitBeside(s2.cat.value, s.cat.value.terminals[i].id);
    SplitTwice(s2, k, i);
    StepSound(s2, Do(split));
    ThreeCalls(s, push, freeze, split);
    calls := [Do(push), Do(freeze), Do(split)];
  }

  /** The observed state of the workspace has an id twice. */
  ghost predicate Twin(s: State, k: nat) {
    s.cat.Some? && k < |s.cat.value.workspaces| && !Unique(s.cat.value.workspaces[k].observed)
  }

  lemma NoTwin(s: State, k: nat)
    requires Twin(s, k)
    ensures !NoTwins(s.cat.value)
  {
  }

  lemma ThreeCalls(s: State, a: Action, b: Action, c: Action)
    ensures var (s1, r1) := Exec(s, a);
            var (s2, r2) := Exec(s1, b);
            var (s3, r3) := Exec(s2, c);
            Run(s, [Do(a), Do(b), Do(c)]) == (s3, [r1, r2, r3])
  {
    hide Exec, Run;
    var (s1, r1) := Exec(s, a);
    var (s2, r2) := Exec(s1, b);
    var (s3, r3) := Exec(s2, c);
    RunCons(s, a, [Do(b), Do(c)]);
    RunCons(s1, b, [Do(c)]);
    RunCons(s2, c, []);
    NoCalls(s3);
    assert [r3] + [] == [r3] && [r2] + [r3] == [r2, r3] && [r1] + [r2, r3] == [r1, r2, r3];
    assert [Do(b)] + [Do(c)] == [Do(b), Do(c)] && [Do(a)] + [Do(b), Do(c)] == [Do(a), Do(b), Do(c)] && [Do(c)] + [] == [Do(c)];
  }

  lemma NoCalls(s: State)
    ensures Run(s, []) == (s, [])
  {
  }

  lemma RunCons(s: State, a: Action, calls: seq<Call>)
    ensures var (t, r) := Exec(s, a);
            var (u, rs) := Run(t, calls);
            Run(s, [Do(a)] + calls) == (u, [r] + rs)
  {
    hide Exec;
    assert ([Do(a)] + calls)[1..] == calls;
  }

  /** The surface id drawn first after a load, whatever snapshots and plans hold. */
  lemma PrimedDraws(c: Catalog, n: nat)
    requires n > 0
    ensures NextSurface(Primed(map[], NumberedIds(c))) == IdOf("sf", n)
            <==> (n == 1 || Reached(NumberedIds(c), n - 1)) && !Reached(NumberedIds(c), n)
  {
    hide Primed, NumberedIds, IdOf, Issued, Carries;
    var ids := NumberedIds(c);
    var top := Issued(Primed(map[], ids), "sf");
    PrimedGreatest(ids, "sf");
    if NextSurface(Primed(map[], ids)) == IdOf("sf", n) { IdOfInjective("sf", top + 1, n); }
    if top > 0 {
      var i :| 0 <= i < |ids| && Carries(ids[i], "sf", top);
      assert forall m: nat :: m <= top ==> Reached(ids, m);
    }
    assert forall m: nat :: Reached(ids, m) ==> m <= top;
  }

  // ---- a fixture where this happens ------------------------------------------------------------------

  function Pane(n: nat): SurfaceSpec { SurfaceSpec(IdOf("sf", n), "edit", "/src", "none") }

  const ONE := [WindowSpec("m", 0, "tiled", [Pane(1)])]
  const BOTH := [WindowSpec("m", 0, "tiled", [Pane(1), Pane(2)])]
  const PROBE := ProbeResult(0, true, 0, [])
  const WORK := Workspace("w", "work", ONE, ONE, [], WorkspaceOK, "local", "tmux", ["t"], [], 0, 0, "", false)
  const SHELL := Terminal("t", "shell", "w", IdOf("sf", 1), "tmux", TerminalLive, "zsh", "/src", [], 0, 0)
  const BASE := Snapshot("base", "w", 0, "tmux", [], BOTH, 1, 2)
  const PLAN := RestorePlan("p", "base", "w", PlanPending, 0, BuildOps(WORK, BOTH), 0, 0, 0, [])
  const TMUX := BackendInfo("tmux", "tmux", BackendHealthy, true, true, [], [], PROBE, 1)
  const LOCAL := Machine("local", "local", "localhost", "local", MachineOnline, 1, 0, 0, PROBE)
  const FIXTURE := Catalog(0, 0, ScenarioDefault, 0, [WORK], [], [SHELL], [], [], [], [BASE], [PLAN], [TMUX], [LOCAL],
                           Performance(false, [], [], []), BASE_CONFIG, None)

  lemma PaneShown(ws: WorkspaceState, sfs: seq<SurfaceSpec>)
    requires ws == [WindowSpec("m", 0, "tiled", sfs)]
    ensures forall x :: HasWindow(ws, x) <==> x == "m"
    ensures forall x :: HasSurface(ws, x) <==> exists k :: 0 <= k < |sfs| && sfs[k].id == x
  {
    forall x ensures HasWindow(ws, x) <==> x == "m" { if x == "m" { assert ws[0].id == x; } }
    forall x ensures HasSurface(ws, x) <==> exists k :: 0 <= k < |sfs| && sfs[k].id == x {
      var k := SurfaceIndex(sfs, x);
      assert HoldsSurface(ws[0], x) <==> k >= 0;
    }
  }

  lemma PanesDiffer()
    ensures IdOf("sf", 1) != IdOf("sf", 2) && '/' !in IdOf("sf", 1) && '/' !in IdOf("sf", 2)
  {
    if IdOf("sf", 1) == IdOf("sf", 2) { IdOfInjective("sf", 1, 2); }
    ValuePad(1, 4);
    ValuePad(2, 4);
  }

  lemma PanesPlain()
    ensures Unique(ONE) && Plain(ONE) && Unique(BOTH) && Plain(BOTH) && Extends(BOTH, ONE)
    ensures HasSurface(ONE, IdOf("sf", 1)) && HasSurface(BOTH, IdOf("sf", 2)) && !HasSurface(ONE, IdOf("sf", 2))
  {
    hide IdOf;
    PanesDiffer();
    PaneShown(ONE, [Pane(1)]);
    PaneShown(BOTH, [Pane(1), Pane(2)]);
    assert [Pane(1)][0].id == IdOf("sf", 1) && [Pane(1), Pane(2)][0].id == IdOf("sf", 1) && [Pane(1), Pane(2)][1].id == IdOf("sf", 2);
  }

  lemma FixtureValid()
    ensures ValidCatalog(FIXTURE)
  {
    hide IdOf, BuildOps, HasSurface, OpLess, PlanOk;
    PanesPlain();
    var c := FIXTURE;
    assert WorkspaceIds(c.workspaces) == ["w"] && TerminalIds(c.terminals) == ["t"] && SnapshotIds(c.snapshots) == ["base"];
    assert PlanIds(c.restorePlans) == ["p"] && BackendIds(c.backends) == ["tmux"] && MachineIds(c.machines) == ["local"];
    assert AllIdsOk(c);
    assert BackendsOk(c.backends) by { assert c.backends[0].isDefault; }
    assert TerminalOwners(c.terminals) == [("t", "w")];
    assert WorkspacesOk(c.workspaces, MachineIds(c.machines), BackendIds(c.backends), TerminalOwners(c.terminals), AgentOwners(c.agents));
    assert TerminalsOk(c.terminals, c.workspaces, BackendIds(c.backends)) by { assert TerminalHome(SHELL, c.workspaces[0]); }
    BuiltPlanOk(WORK, BASE, "p", 0, c.snapshots, ["w"]);
    assert PlansOk(c.restorePlans, SnapshotHomes(c.snapshots), WorkspaceIds(c.workspaces));
  }

  lemma NotCarried(id: string, prefix: string, m: nat)
    requires '-' !in id
    ensures !Carries(id, prefix, m)
  {
  }

  lemma CarriesOne(m: nat)
    ensures Carries(IdOf("sf", 1), "sf", m) <==> m == 1
  {
    hide LastDash, ScanNumber, Pad;
    var pad := Pad(1, 4);
    ValuePad(1, 4);
    LastDashOf("sf", pad);
    ScanDigits(pad);
    assert IdOf("sf", 1)[|"sf"| + 1..] == pad && IdOf("sf", 1)[..|"sf"|] == "sf";
  }

  lemma FixtureIds()
    ensures NumberedIds(FIXTURE) == ["t", "base", "p", "m", IdOf("sf", 1), "m", IdOf("sf", 1)]
  {
    hide IdOf, BuildOps;
    var one := IdOf("sf", 1);
    OneIds(one);
    assert FIXTURE.workspaces[1..] == [];
    assert TopologyIds(FIXTURE.workspaces) == ["m", one, "m", one];
    assert TerminalIds(FIXTURE.terminals) == ["t"] && SnapshotIds(FIXTURE.snapshots) == ["base"] && PlanIds(FIXTURE.restorePlans) == ["p"];
  }

  lemma OneIds(one: string)
    requires one == IdOf("sf", 1)
    ensures StateIds(ONE) == ["m", one]
  {
    hide IdOf;
    assert ONE[1..] == [];
    assert SurfaceIds([Pane(1)]) == [one];
  }

  lemma OnlyOne(ids: seq<string>, one: string)
    requires one == IdOf("sf", 1) && ids == ["t", "base", "p", "m", one, "m", one]
    ensures Reached(ids, 1) && !Reached(ids, 2)
  {
    hide IdOf, Carries;
    forall i, m: nat | 0 <= i < |ids| ensures Carries(ids[i], "sf", m) ==> m == 1 {
      CarriesOne(m);
      if ids[i] != one { NotCarried(ids[i], "sf", m); }
    }
    CarriesOne(1);
    assert Carries(ids[4], "sf", 1);
  }

  /** Of what priming reads in this fixture, only the workspace's pane has a number, and that is 1. */
  lemma FixtureNumbers()
    ensures NextSurface(Primed(map[], NumberedIds(FIXTURE))) == IdOf("sf", 2)
  {
    hide IdOf, Reached, NumberedIds, Primed, NextSurface;
    FixtureIds();
    OnlyOne(NumberedIds(FIXTURE), IdOf("sf", 1));
    PrimedDraws(FIXTURE, 2);
  }

  /** A valid fixture without twins, from which three accepted calls make some. */
  lemma FixtureTwins() returns (calls: seq<Call>)
    ensures ValidCatalog(FIXTURE) && NoTwins(FIXTURE) && !Outnumbered(FIXTURE)
    ensures var (t, rs) := Run(State(Some(FIXTURE), Primed(map[], NumberedIds(FIXTURE)), 0), calls);
            |calls| == 3 && (forall r :: r in rs ==> r.Done?) && SoundState(t) && Twin(t, 0)
  {
    hide IdOf, BuildOps, HasSurface, Unique, Plain, Extends, ValidCatalog, NextSurface, Primed, NumberedIds, Run, Twin, Outnumbered, Held, Dominates;
    var s := State(Some(FIXTURE), Primed(map[], NumberedIds(FIXTURE)), 0);
    FixtureValid();
    PanesPlain();
    FixtureNumbers();
    LoadedSound(FIXTURE);
    assert Ready(s, 0, 0, 0, BOTH);
    calls := TwinsMade(s, 0, 0, 0, BOTH);
    if Outnumbered(FIXTURE) {
      LoadedTidy(FIXTURE, calls);
      NoTwin(Run(s, calls).0, 0);
    }
  }
}
