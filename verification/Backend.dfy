/**
 * The demo backend: one catalog, the identifier counters and the tick count, changed only through
 * the revision contract. (tmh-next/internal/mock/backend.go)
 */
module Backend {
  import opened Text
  import opened Topology
  import opened Domain
  import opened Validation
  import opened Transitions
  import opened Gate

  // ---- priming the counters ------------------------------------------------------------

  /** Position of the last dash, or -1. */
  function LastDash(s: string): (i: int)
    ensures -1 <= i < |s|
    ensures i >= 0 ==> s[i] == '-' && '-' !in s[i + 1..]
    ensures i < 0 ==> '-' !in s
  {
    if s == [] then -1
    else
      var n := |s| - 1;
      assert s == s[..n] + [s[n]];
      if s[n] == '-' then n
      else
        var i := LastDash(s[..n]);
        assert i >= 0 ==> s[i + 1..] == s[..n][i + 1..] + [s[n]];
        i
  }

  function DigitRun(s: string): (r: string)
    ensures forall c :: c in r ==> IsDigit(c)
    ensures (forall c :: c in s ==> IsDigit(c)) ==> r == s
  {
    if s == [] || !IsDigit(s[0]) then [] else [s[0]] + DigitRun(s[1..])
  }

  /** The number a text starts with, after blanks and a plus sign; what follows is ignored. */
  function ScanNumber(s: string): Option<nat> {
    if s == [] || s[0] == '\n' then None
    else if IsSpace(s[0]) then ScanNumber(s[1..])
    else
      var run := DigitRun(if s[0] == '+' then s[1..] else s);
      if run == [] then None else Some(Value(run, 0))
  }

  function Bump(counters: Counters, id: string): Counters {
    var i := LastDash(id);
    if i < 0 then counters
    else
      match ScanNumber(id[i + 1..])
      case None => counters
      case Some(n) => if n > Issued(counters, id[..i]) then counters[id[..i] := n] else counters
  }

  function Primed(counters: Counters, ids: seq<string>): Counters {
    if ids == [] then counters else Bump(Primed(counters, ids[..|ids| - 1]), ids[|ids| - 1])
  }

  function SurfaceIds(sfs: seq<SurfaceSpec>): seq<string> { seq(|sfs|, i requires 0 <= i < |sfs| => sfs[i].id) }

  function StateIds(ws: WorkspaceState): seq<string> {
    if ws == [] then [] else [ws[0].id] + SurfaceIds(ws[0].surfaces) + StateIds(ws[1..])
  }

  function TopologyIds(ws: seq<Workspace>): seq<string> {
    if ws == [] then [] else StateIds(ws[0].desired) + StateIds(ws[0].observed) + TopologyIds(ws[1..])
  }

  /** Everything whose identifier a loaded fixture may already have used. */
  function NumberedIds(c: Catalog): seq<string> {
    TerminalIds(c.terminals) + HistoryIds(c.history) + EventIds(c.events) + SnapshotIds(c.snapshots) +
    PlanIds(c.restorePlans) + ViewIds(c.activeViews) + AgentIds(c.agents) + TopologyIds(c.workspaces)
  }

  lemma BumpGrows(counters: Counters, id: string, prefix: string)
    ensures Issued(Bump(counters, id), prefix) >= Issued(counters, prefix)
  {
  }

  lemma LastDashOf(prefix: string, digits: string)
    requires forall c :: c in digits ==> IsDigit(c)
    ensures LastDash(prefix + "-" + digits) == |prefix|
  {
    var id := prefix + "-" + digits;
    assert id[|prefix|] == '-' && '-' in id;
    assert forall j :: |prefix| < j < |id| ==> id[j] == digits[j - |prefix| - 1] && id[j] in digits;
    forall k | 0 <= k <= |prefix| ensures '-' in id[k..] {
      assert id[k..][|prefix| - k] == '-';
    }
  }

  lemma ScanDigits(digits: string)
    requires digits != "" && forall c :: c in digits ==> IsDigit(c)
    ensures ScanNumber(digits) == Some(Value(digits, 0))
  {
    assert IsDigit(digits[0]);
  }

  /** A generated identifier raises its own counter to its number. */
  lemma BumpReaches(counters: Counters, prefix: string, n: nat)
    ensures Issued(Bump(counters, IdOf(prefix, n)), prefix) >= n
  {
    hide LastDash, ScanNumber, Pad;
    var id, pad := IdOf(prefix, n), Pad(n, 4);
    ValuePad(n, 4);
    LastDashOf(prefix, pad);
    ScanDigits(pad);
    assert id[|prefix| + 1..] == pad && id[..|prefix|] == prefix;
  }

  lemma {:induction false} PrimedReaches(counters: Counters, ids: seq<string>, prefix: string, n: nat)
    ensures IdOf(prefix, n) in ids ==> Issued(Primed(counters, ids), prefix) >= n
    ensures Issued(Primed(counters, ids), prefix) >= Issued(counters, prefix)
  {
    hide Bump, IdOf, Issued;
    if ids != [] {
      var k := |ids| - 1;
      PrimedReaches(counters, ids[..k], prefix, n);
      BumpGrows(Primed(counters, ids[..k]), ids[k], prefix);
      BumpReaches(Primed(counters, ids[..k]), prefix, n);
      assert ids == ids[..k] + [ids[k]];
    }
  }

  /**
   * Whatever the fixture, no terminal, history, event, snapshot or plan identifier issued after loading it collides
   * with one it holds. For surfaces that needs a condition on its snapshots and plans, which are not read.
   */
  lemma PrimedDominates(c: Catalog)
    ensures Dominates(Primed(map[], NumberedIds(c)), c)
  {
    hide Primed, IdOf, Issued;
    var counters := Primed(map[], NumberedIds(c));
    forall prefix: string, n: nat | n > Issued(counters, prefix) ensures IdOf(prefix, n) !in NumberedIds(c) {
      PrimedReaches(map[], NumberedIds(c), prefix, n);
    }
  }

  /** The identifier carries this number under this prefix, as priming reads it. */
  predicate Carries(id: string, prefix: string, n: nat) {
    var i := LastDash(id);
    i >= 0 && id[..i] == prefix && ScanNumber(id[i + 1..]) == Some(n)
  }

  lemma BumpTakes(counters: Counters, id: string, prefix: string)
    ensures var before, after := Issued(counters, prefix), Issued(Bump(counters, id), prefix);
            && (forall n: nat :: Carries(id, prefix, n) ==> n <= after)
            && (after == before || (after > before && Carries(id, prefix, after)))
  {
    hide LastDash, ScanNumber;
  }

  /** Priming an empty table takes for each prefix the greatest number carried under it, or none. */
  lemma {:induction false} PrimedGreatest(ids: seq<string>, prefix: string)
    ensures var m := Issued(Primed(map[], ids), prefix);
            && (forall i, n: nat :: 0 <= i < |ids| && Carries(ids[i], prefix, n) ==> n <= m)
            && (m == 0 || exists i :: 0 <= i < |ids| && Carries(ids[i], prefix, m))
  {
    hide Bump, Issued, Carries;
    if ids == [] {
      NoneIssued(prefix);
    } else {
      var k := |ids| - 1;
      var t := ids[..k];
      PrimedGreatest(t, prefix);
      BumpTakes(Primed(map[], t), ids[k], prefix);
      var before, m := Issued(Primed(map[], t), prefix), Issued(Primed(map[], ids), prefix);
      forall i, n: nat | 0 <= i < |ids| && Carries(ids[i], prefix, n) ensures n <= m {
        if i < k { assert t[i] == ids[i]; }
      }
      if m == before && m != 0 {
        var i :| 0 <= i < |t| && Carries(t[i], prefix, m);
        assert ids[i] == t[i];
      } else if m != 0 {
        assert Carries(ids[k], prefix, m);
      }
    }
  }

  lemma NoneIssued(prefix: string)
    ensures Issued(map[], prefix) == 0
  {
  }

  // ---- one call, as a function of the state ----------------------------------------------

  datatype State = State(cat: Option<Catalog>, counters: Counters, ticks: nat)

  datatype Reply = Done(base: nat, next: nat, cat: Catalog, isTick: bool) | Rejected(code: ErrCode)

  function Exec(s: State, a: Action): (State, Reply) {
    if s.cat.None? then (s, Rejected(NotFound))
    else if a.expectedRevision != s.cat.value.revision then (s, Rejected(RevisionConflict))
    else
      match Apply(s.cat.value, s.counters, a)
      case Failed(code, counters) => (s.(counters := counters), Rejected(code))
      case Accepted(cat, counters) =>
        var work := cat.(mutationSerial := cat.mutationSerial + 1);
        if !ValidCatalog(work) then (s.(counters := counters), Rejected(MalformedResult))
        else (s.(cat := Some(work), counters := counters), Done(s.cat.value.revision, work.revision, work, false))
  }

  function TickStep(s: State, expected: nat): (State, Reply) {
    if s.cat.None? then (s, Rejected(NotFound))
    else if expected != s.cat.value.revision then (s, Rejected(RevisionConflict))
    else
      var o := DoTick(s.cat.value, s.counters, s.ticks + 1);
      if !ValidCatalog(o.cat) then (s.(counters := o.counters, ticks := s.ticks + 1), Rejected(MalformedResult))
      else (State(Some(o.cat), o.counters, s.ticks + 1), Done(s.cat.value.revision, o.cat.revision, o.cat, true))
  }

  // ---- the backend --------------------------------------------------------------------------

  method BumpAll(counters: Counters, ids: seq<string>) returns (next: Counters)
    ensures next == Primed(counters, ids)
  {
    next := counters;
    for i := 0 to |ids|
      invariant next == Primed(counters, ids[..i])
    {
      assert ids[..i + 1][..i] == ids[..i];
      next := Bump(next, ids[i]);
    }
    assert ids[..|ids|] == ids;
  }

  class Backend {
    var cat: Option<Catalog>
    var counters: Counters
    var tickCount: nat

    ghost function Value(): State
      reads this
    {
      State(cat, counters, tickCount)
    }

    constructor ()
      ensures Value() == State(None, map[], 0)
    {
      cat, counters, tickCount := None, map[], 0;
    }

    /** Loading the scenario that is already loaded gives the live catalog; another one starts from its fixture, if it has one. */
    method Load(scenario: Scenario, fixture: Option<Catalog>) returns (loaded: Option<Catalog>)
      requires fixture.Some? ==> fixture.value.scenario == scenario
      modifies this
      ensures old(cat).Some? && old(cat).value.scenario == scenario ==> Value() == old(Value()) && loaded == cat
      ensures !(old(cat).Some? && old(cat).value.scenario == scenario) ==>
                && loaded == fixture
                && (fixture.None? ==> Value() == old(Value()))
                && (fixture.Some? ==> Value() == State(fixture, Primed(map[], NumberedIds(fixture.value)), 0) && Dominates(counters, fixture.value))
    {
      if cat.Some? && cat.value.scenario == scenario { return cat; }
      if fixture.None? { return None; }
      cat := fixture;
      tickCount := 0;
      counters := BumpAll(map[], NumberedIds(fixture.value));
      PrimedDominates(fixture.value);
      return fixture;
    }

    /** One user action. A rejected one leaves the catalog alone; identifiers it drew stay drawn. */
    method Execute(a: Action) returns (r: Reply)
      modifies this
      ensures (Value(), r) == Exec(old(Value()), a)
    {
      hide Apply, ValidCatalog;
      if cat.None? { return Rejected(NotFound); }
      if a.expectedRevision != cat.value.revision { return Rejected(RevisionConflict); }
      var o := Apply(cat.value, counters, a);
      counters := o.counters;
      if o.Failed? { return Rejected(o.code); }
      var work := o.cat.(mutationSerial := o.cat.mutationSerial + 1);
      if !ValidCatalog(work) { return Rejected(MalformedResult); }
      var base := cat.value.revision;
      cat := Some(work);
      return Done(base, work.revision, work, false);
    }

    /** One scenario tick. The tick count moves even if the tick were turned away. */
    method Tick(expected: nat) returns (r: Reply)
      modifies this
      ensures (Value(), r) == TickStep(old(Value()), expected)
    {
      hide ValidCatalog, Beat, Sample, Tail, FirstRunning;
      if cat.None? { return Rejected(NotFound); }
      if expected != cat.value.revision { return Rejected(RevisionConflict); }
      tickCount := tickCount + 1;
      var o := DoTick(cat.value, counters, tickCount);
      counters := o.counters;
      if !ValidCatalog(o.cat) { return Rejected(MalformedResult); }
      var base := cat.value.revision;
      cat := Some(o.cat);
      return Done(base, o.cat.revision, o.cat, true);
    }
  }
}
