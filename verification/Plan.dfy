/**
 * Diffing two workspace states, building the sorted restore plan, selecting its operations, and
 * recomputing drift afterwards. (tmh-next/internal/mock/backend.go, tmh-next/internal/domain/validate.go)
 */
module Plan {
  import opened Sorting
  import opened Text
  import opened Topology
  import opened Edits
  import opened Domain
  import opened Reconcile
  import opened Undo
  import opened Converge

  // ---- diffs ---------------------------------------------------------------------------

  datatype FieldDiff = FieldDiff(field: string, before: string, after: string, beforeAbsent: bool)

  function Get(m: map<string, string>, f: string): string { if f in m then m[f] else "" }

  function DiffKeys(names: seq<string>, a: map<string, string>, b: map<string, string>): seq<FieldDiff> {
    if names == [] then []
    else if Agree(a, b, names[0]) then DiffKeys(names[1..], a, b)
    else [FieldDiff(names[0], Get(a, names[0]), Get(b, names[0]), names[0] !in a)] + DiffKeys(names[1..], a, b)
  }

  function DiffStates(a: WorkspaceState, b: WorkspaceState): seq<FieldDiff> {
    DiffKeys(SortedKeys(Fields(a).Keys + Fields(b).Keys), Fields(a), Fields(b))
  }

  predicate DiffOf(d: FieldDiff, a: map<string, string>, b: map<string, string>) {
    !Agree(a, b, d.field) && d.before == Get(a, d.field) && d.after == Get(b, d.field) && (d.beforeAbsent <==> d.field !in a)
  }

  predicate InDiff(ds: seq<FieldDiff>, f: string) {
    exists j :: 0 <= j < |ds| && ds[j].field == f
  }

  lemma HeadDiff(f: string, a: map<string, string>, b: map<string, string>)
    requires !Agree(a, b, f)
    ensures DiffOf(FieldDiff(f, Get(a, f), Get(b, f), f !in a), a, b)
  {
  }

  lemma {:induction false} DiffKeysSpec(names: seq<string>, a: map<string, string>, b: map<string, string>)
    requires StrictlySorted(names)
    ensures forall j, k :: 0 <= j < k < |DiffKeys(names, a, b)| ==>
              Less(DiffKeys(names, a, b)[j].field, DiffKeys(names, a, b)[k].field)
    ensures forall j :: 0 <= j < |DiffKeys(names, a, b)| ==>
              DiffOf(DiffKeys(names, a, b)[j], a, b) && DiffKeys(names, a, b)[j].field in names
    ensures forall f :: f in names && !Agree(a, b, f) ==> InDiff(DiffKeys(names, a, b), f)
  {
    hide Less, Agree, DiffOf, Get;
    if names != [] {
      var t := names[1..];
      assert forall j :: 0 <= j < |t| ==> t[j] == names[j + 1];
      DiffKeysSpec(t, a, b);
      var rest, all := DiffKeys(t, a, b), DiffKeys(names, a, b);
      if !Agree(a, b, names[0]) {
        HeadDiff(names[0], a, b);
        assert all[0].field == names[0] && all[1..] == rest;
        forall k | 0 < k < |all| ensures Less(all[0].field, all[k].field) { assert all[k] == rest[k - 1]; }
      }
      forall f | f in names && !Agree(a, b, f) ensures InDiff(all, f) {
        if f != names[0] {
          assert f in t;
          var j :| 0 <= j < |rest| && rest[j].field == f;
          assert all[if Agree(a, b, names[0]) then j else j + 1].field == f;
        }
      }
    }
  }

  /** The diff names, in order and once each, exactly the fields on which the two states disagree. */
  lemma DiffStatesSpec(a: WorkspaceState, b: WorkspaceState)
    ensures var ds := DiffStates(a, b);
            && (forall j, k :: 0 <= j < k < |ds| ==> Less(ds[j].field, ds[k].field))
            && (forall j :: 0 <= j < |ds| ==> DiffOf(ds[j], Fields(a), Fields(b)))
            && (forall f :: InDiff(ds, f) <==> !Agree(Fields(a), Fields(b), f))
  {
    hide Fields, Less;
    var fa, fb := Fields(a), Fields(b);
    var names := SortedKeys(fa.Keys + fb.Keys);
    SortedKeysSpec(fa.Keys + fb.Keys);
    DiffKeysSpec(names, fa, fb);
    forall f | !Agree(fa, fb, f) ensures InDiff(DiffStates(a, b), f) {
      assert f in fa.Keys + fb.Keys;
    }
  }

  // ---- the plan ---------------------------------------------------------------------------

  function OpId(n: nat): string { "op-" + Pad(n, 3) }

  /** The operations of one mode, numbered from `n + 1`. */
  function Number(ds: seq<FieldDiff>, mode: RestoreMode, target: ResourceRef, n: nat): seq<RestoreOp> {
    seq(|ds|, i requires 0 <= i < |ds| =>
      RestoreOp(OpId(n + 1 + i), mode, target, ds[i].field, ds[i].before, ds[i].after, ds[i].beforeAbsent, true, 0))
  }

  function ModeName(m: RestoreMode): string {
    match m
    case RestorePush => "push"
    case RestorePull => "pull"
    case RestoreFreeze => "freeze"
    case RestoreOther(name) => name
  }

  function KindName(k: ResourceKind): string {
    match k
    case KindWorkspace => "workspace"
    case KindActive => "active"
    case KindTerminal => "terminal"
    case KindAgent => "agent"
    case KindHistory => "history"
    case KindEvent => "event"
    case KindSnapshot => "snapshot"
    case KindPlan => "plan"
    case KindBackend => "backend"
    case KindMachine => "machine"
    case KindConfig => "config"
    case KindOther(name) => name
  }

  /** The fixed plan order: mode, target kind, target id, field, operation id. */
  predicate OpLess(a: RestoreOp, b: RestoreOp) {
    if ModeName(a.mode) != ModeName(b.mode) then Less(ModeName(a.mode), ModeName(b.mode))
    else if KindName(a.target.kind) != KindName(b.target.kind) then Less(KindName(a.target.kind), KindName(b.target.kind))
    else if a.target.id != b.target.id then Less(a.target.id, b.target.id)
    else if a.field != b.field then Less(a.field, b.field)
    else Less(a.id, b.id)
  }

  function InsertOp(op: RestoreOp, ops: seq<RestoreOp>): seq<RestoreOp> {
    if ops == [] || !OpLess(ops[0], op) then [op] + ops else [ops[0]] + InsertOp(op, ops[1..])
  }

  /** A stable sort into the plan order. */
  function SortOps(ops: seq<RestoreOp>): seq<RestoreOp> {
    if ops == [] then [] else InsertOp(ops[0], SortOps(ops[1..]))
  }

  function PushOps(observed: WorkspaceState, target: WorkspaceState, ws: string): seq<RestoreOp> {
    Number(DiffStates(observed, target), RestorePush, Ref(KindWorkspace, ws), 0)
  }

  function PullOps(desired: WorkspaceState, observed: WorkspaceState, ws: string, n: nat): seq<RestoreOp> {
    Number(DiffStates(desired, observed), RestorePull, Ref(KindWorkspace, ws), n)
  }

  function FreezeOp(observed: WorkspaceState, ws: string, n: nat): RestoreOp {
    RestoreOp(OpId(n + 1), RestoreFreeze, Ref(KindSnapshot, ws), "snapshot", "",
              Dec(|observed|) + " windows/" + Dec(SurfaceCount(observed)) + " surfaces", true, true, 0)
  }

  /** Push brings observed to the snapshot, pull brings desired to observed, freeze snapshots observed. */
  function BuildOps(w: Workspace, target: WorkspaceState): seq<RestoreOp> {
    var push := PushOps(w.observed, target, w.id);
    var pull := PullOps(w.desired, w.observed, w.id, |push|);
    SortOps(push + pull + [FreezeOp(w.observed, w.id, |push| + |pull|)])
  }

  predicate OpsSorted(ops: seq<RestoreOp>) {
    forall i, j :: 0 <= i < j < |ops| ==> OpLess(ops[i], ops[j])
  }

  lemma {:induction false} SortBlock(a: seq<RestoreOp>, b: seq<RestoreOp>)
    requires OpsSorted(a)
    requires forall i, j :: 0 <= i < |a| && 0 <= j < |SortOps(b)| ==> OpLess(SortOps(b)[j], a[i])
    requires forall i, j :: 0 <= i < j < |a| ==> !OpLess(a[j], a[i])
    ensures SortOps(a + b) == SortOps(b) + a
  {
    hide OpLess;
    if a == [] {
      assert a + b == b;
    } else {
      var t := a[1..];
      assert (a + b)[1..] == t + b;
      assert forall i :: 0 <= i < |t| ==> t[i] == a[i + 1];
      SortBlock(t, b);
      InsertPast(a[0], SortOps(b), t);
      assert [a[0]] + t == a;
    }
  }

  lemma {:induction false} InsertPast(op: RestoreOp, lower: seq<RestoreOp>, upper: seq<RestoreOp>)
    requires forall j :: 0 <= j < |lower| ==> OpLess(lower[j], op)
    requires upper != [] ==> !OpLess(upper[0], op)
    ensures InsertOp(op, lower + upper) == lower + ([op] + upper)
  {
    hide OpLess;
    if lower == [] {
      assert lower + upper == upper;
    } else {
      assert (lower + upper)[1..] == lower[1..] + upper;
      InsertPast(op, lower[1..], upper);
    }
  }

  lemma NumberSorted(ds: seq<FieldDiff>, mode: RestoreMode, target: ResourceRef, n: nat)
    requires forall j, k :: 0 <= j < k < |ds| ==> Less(ds[j].field, ds[k].field)
    ensures OpsSorted(Number(ds, mode, target, n)) && SortedByField(Number(ds, mode, target, n))
    ensures forall i, j :: 0 <= i < j < |ds| ==> !OpLess(Number(ds, mode, target, n)[j], Number(ds, mode, target, n)[i])
  {
    hide Less, OpId, ModeName, KindName;
    var ops := Number(ds, mode, target, n);
    forall i, j | 0 <= i < j < |ds| ensures OpLess(ops[i], ops[j]) && !OpLess(ops[j], ops[i]) {
      LessAsymmetric(ds[i].field, ds[j].field);
    }
  }

  lemma NumberLength(ds: seq<FieldDiff>, mode: RestoreMode, target: ResourceRef, n: nat)
    ensures |Number(ds, mode, target, n)| == |ds| && forall i :: 0 <= i < |ds| ==> Number(ds, mode, target, n)[i].mode == mode
  {
  }

  lemma ModeOrder()
    ensures Less("freeze", "pull") && Less("pull", "push") && Less("freeze", "push")
  {
    assert "pull"[0] == "push"[0] && "pull"[1..] == "ull" && "push"[1..] == "ush";
    assert "ull"[1..] == "ll" && "ush"[1..] == "sh";
  }

  /** Sorting arranges a plan as the freeze operation, then the pull, then the push operations, each by field. */
  lemma BuildOpsSections(w: Workspace, target: WorkspaceState)
    ensures var push := PushOps(w.observed, target, w.id);
            var pull := PullOps(w.desired, w.observed, w.id, |push|);
            && BuildOps(w, target) == [FreezeOp(w.observed, w.id, |push| + |pull|)] + (pull + push)
            && SortedByField(push) && SortedByField(pull)
            && OpsSorted(BuildOps(w, target))
  {
    hide Less, DiffStates, OpId, OpLess, FreezeOp, OpsSorted, SortedByField, SortOps, Number;
    var push := PushOps(w.observed, target, w.id);
    var pull := PullOps(w.desired, w.observed, w.id, |push|);
    var freeze := FreezeOp(w.observed, w.id, |push| + |pull|);
    DiffStatesSpec(w.observed, target);
    DiffStatesSpec(w.desired, w.observed);
    NumberSorted(DiffStates(w.observed, target), RestorePush, Ref(KindWorkspace, w.id), 0);
    NumberSorted(DiffStates(w.desired, w.observed), RestorePull, Ref(KindWorkspace, w.id), |push|);
    NumberLength(DiffStates(w.observed, target), RestorePush, Ref(KindWorkspace, w.id), 0);
    NumberLength(DiffStates(w.desired, w.observed), RestorePull, Ref(KindWorkspace, w.id), |push|);
    FreezeMode(w.observed, w.id, |push| + |pull|);
    Blocks(freeze, pull, push);
    SortSections(freeze, pull, push);
  }

  lemma FreezeMode(observed: WorkspaceState, ws: string, n: nat)
    ensures FreezeOp(observed, ws, n).mode == RestoreFreeze
  {
  }

  /** Modes alone order the three blocks of a plan. */
  lemma Blocks(freeze: RestoreOp, pull: seq<RestoreOp>, push: seq<RestoreOp>)
    requires freeze.mode == RestoreFreeze
    requires forall i :: 0 <= i < |pull| ==> pull[i].mode == RestorePull
    requires forall i :: 0 <= i < |push| ==> push[i].mode == RestorePush
    ensures forall i :: 0 <= i < |pull| ==> OpLess(freeze, pull[i])
    ensures forall i :: 0 <= i < |push| ==> OpLess(freeze, push[i])
    ensures forall i, j :: 0 <= i < |pull| && 0 <= j < |push| ==> OpLess(pull[i], push[j])
  {
    hide Less;
    ModeOrder();
  }

  lemma SectionsSorted(freeze: RestoreOp, pull: seq<RestoreOp>, push: seq<RestoreOp>)
    requires OpsSorted(pull) && OpsSorted(push)
    requires forall i :: 0 <= i < |pull| ==> OpLess(freeze, pull[i])
    requires forall i :: 0 <= i < |push| ==> OpLess(freeze, push[i])
    requires forall i, j :: 0 <= i < |pull| && 0 <= j < |push| ==> OpLess(pull[i], push[j])
    ensures OpsSorted([freeze] + pull) && OpsSorted([freeze] + (pull + push))
  {
    hide OpLess;
    var all := [freeze] + (pull + push);
    forall i, j | 0 <= i < j < |all| ensures OpLess(all[i], all[j]) {
      assert all[j] == if j <= |pull| then pull[j - 1] else push[j - 1 - |pull|];
    }
  }

  lemma SortSections(freeze: RestoreOp, pull: seq<RestoreOp>, push: seq<RestoreOp>)
    requires OpsSorted(pull) && OpsSorted(push)
    requires forall i, j :: 0 <= i < j < |pull| ==> !OpLess(pull[j], pull[i])
    requires forall i, j :: 0 <= i < j < |push| ==> !OpLess(push[j], push[i])
    requires forall i :: 0 <= i < |pull| ==> OpLess(freeze, pull[i])
    requires forall i :: 0 <= i < |push| ==> OpLess(freeze, push[i])
    requires forall i, j :: 0 <= i < |pull| && 0 <= j < |push| ==> OpLess(pull[i], push[j])
    ensures SortOps(push + pull + [freeze]) == [freeze] + (pull + push)
    ensures OpsSorted([freeze] + (pull + push))
  {
    hide OpLess, SortOps, OpsSorted;
    SectionsSorted(freeze, pull, push);
    SortOne(freeze);
    SortBlock(pull, [freeze]);
    var low := SortOps(pull + [freeze]);
    assert low == [freeze] + pull;
    forall i, j | 0 <= i < |push| && 0 <= j < |low| ensures OpLess(low[j], push[i]) {
      assert low[j] == if j == 0 then freeze else pull[j - 1];
    }
    SortBlock(push, pull + [freeze]);
    Regroup(freeze, pull, push);
  }

  lemma Regroup(freeze: RestoreOp, pull: seq<RestoreOp>, push: seq<RestoreOp>)
    ensures push + pull + [freeze] == push + (pull + [freeze])
    ensures [freeze] + pull + push == [freeze] + (pull + push)
  {
  }

  lemma SortOne(op: RestoreOp)
    ensures SortOps([op]) == [op]
  {
    assert [op][1..] == [];
  }

  // ---- what a fresh plan records ----------------------------------------------------------

  /** Ids are free of the path separator and layouts are not empty. */
  predicate Plain(ws: WorkspaceState) {
    forall i :: 0 <= i < |ws| ==>
      && '/' !in ws[i].id && ws[i].layout != ""
      && forall j :: 0 <= j < |ws[i].surfaces| ==> '/' !in ws[i].surfaces[j].id
  }

  /** The two kinds of field a plain state has. */
  lemma PlainField(ws: WorkspaceState, f: string)
    requires Unique(ws) && Plain(ws) && f in Fields(ws)
    ensures Fields(ws)[f] != ""
    ensures exists x :: '/' !in x && ((f == SKey(x) && '~' in Fields(ws)[f]) || f == WKey(x))
  {
    hide Fields, SKey, WKey, SurfaceIndex, HolderIndex, WindowIndex, Unique, HoldsSurface;
    FieldsOnly(ws, f);
    var x :| f == WKey(x) || f == SKey(x);
    FieldsHas(ws, x);
    if f == WKey(x) {
      WindowFieldVia(ws, x);
    } else {
      var i := HolderIndex(ws, x);
      SurfaceFieldVia(ws, i, x);
      HoldsIndex(ws[i], x);
    }
  }

  lemma HoldsIndex(w: WindowSpec, x: string)
    requires HoldsSurface(w, x)
    ensures 0 <= SurfaceIndex(w.surfaces, x) < |w.surfaces| && w.surfaces[SurfaceIndex(w.surfaces, x)].id == x
  {
  }

  predicate FromDiff(op: RestoreOp, d: FieldDiff) {
    op.field == d.field && op.before == d.before && op.after == d.after && op.beforeAbsent == d.beforeAbsent
  }

  lemma DiffOpCurrent(a: WorkspaceState, b: WorkspaceState, d: FieldDiff, op: RestoreOp)
    requires Unique(a) && Unique(b) && Plain(a) && Plain(b)
    requires DiffOf(d, Fields(a), Fields(b)) && FromDiff(op, d)
    ensures WellFormed(op) && Matches(op, Fields(a))
  {
    hide Fields, SKey, WKey, Unique, Plain;
    if op.field in Fields(a) { PlainField(a, op.field); }
    if op.field in Fields(b) { PlainField(b, op.field); }
    var x :| '/' !in x && (op.field == SKey(x) || op.field == WKey(x));
    KeySplit(x);
    if op.field in Fields(b) && OnSurface(op) {
      var y :| '/' !in y && ((op.field == SKey(y) && '~' in Fields(b)[op.field]) || op.field == WKey(y));
      KeySplit(y);
    }
  }

  predicate Drawn(op: RestoreOp, ds: seq<FieldDiff>) {
    exists k :: 0 <= k < |ds| && FromDiff(op, ds[k])
  }

  /** Operations taken from a diff, in its order. */
  predicate Selection(ops: seq<RestoreOp>, ds: seq<FieldDiff>) {
    SortedByField(ops) && forall j :: 0 <= j < |ops| ==> Drawn(ops[j], ds)
  }

  /** Any selection from a fresh diff is current: it can be applied, and undo can rely on it. */
  lemma FreshIsCurrent(a: WorkspaceState, b: WorkspaceState, ops: seq<RestoreOp>)
    requires Unique(a) && Unique(b) && Plain(a) && Plain(b)
    requires Selection(ops, DiffStates(a, b))
    ensures Current(ops, Fields(a))
  {
    hide Fields, Unique, Plain, Less, DiffStates, WellFormed;
    var ds := DiffStates(a, b);
    DiffStatesSpec(a, b);
    forall j | 0 <= j < |ops| ensures WellFormed(ops[j]) && Matches(ops[j], Fields(a)) {
      assert Drawn(ops[j], ds);
      var k :| 0 <= k < |ds| && FromDiff(ops[j], ds[k]);
      DiffOpCurrent(a, b, ds[k], ops[j]);
    }
  }

  /** The whole diff merged into the first state gives the fields of the second. */
  lemma WholeDiffMerges(a: WorkspaceState, b: WorkspaceState, ops: seq<RestoreOp>)
    requires |ops| == |DiffStates(a, b)| && SortedByField(ops)
    requires forall j :: 0 <= j < |ops| ==> FromDiff(ops[j], DiffStates(a, b)[j])
    requires Unique(b) && Plain(b)
    ensures Patch(Fields(a), ops) == Fields(b)
  {
    hide Fields, Unique, Plain, Less, DiffStates;
    var ds := DiffStates(a, b);
    DiffStatesSpec(a, b);
    SortedDistinct(ops);
    forall f ensures Agree(Patch(Fields(a), ops), Fields(b), f) {
      PatchAt(Fields(a), ops, f);
      if InDiff(ds, f) {
        var j :| 0 <= j < |ds| && ds[j].field == f;
        assert ops[j].field == f && DiffOf(ds[j], Fields(a), Fields(b));
        if f in Fields(b) { PlainField(b, f); }
      } else {
        assert !Named(ops, f);
        assert Agree(Fields(a), Fields(b), f);
      }
    }
    AgreeAll(Patch(Fields(a), ops), Fields(b));
  }

  /**
   * All operations of a fresh diff, of whatever mode, bring the fields of the one state to those of the
   * other, exactly if they clear the windows they remove; nothing is refused.
   */
  lemma FreshConverges(a: WorkspaceState, b: WorkspaceState, mode: RestoreMode, target: ResourceRef, n: nat)
    requires Unique(a) && Unique(b) && Plain(a) && Plain(b) && a != []
    ensures var ops := Number(DiffStates(a, b), mode, target, n);
            && Current(ops, Fields(a)) && ApplyOps(a, ops).Edited?
            && (Fields(ApplyOps(a, ops).state) == Fields(b) <==> Clears(a, ops))
  {
    hide Fields, Unique, Plain, Less, DiffStates, Clears, ApplyOps, Current;
    DiffStatesSpec(a, b);
    var ds := DiffStates(a, b);
    var ops := Number(ds, mode, target, n);
    NumberSorted(ds, mode, target, n);
    assert forall j :: 0 <= j < |ops| ==> FromDiff(ops[j], ds[j]);
    FreshIsCurrent(a, b, ops);
    WholeDiffMerges(a, b, ops);
    ApplyMerges(a, ops);
  }

  /** All push operations bring the fields of the observed state to those of the snapshot. */
  lemma FreshPushConverges(observed: WorkspaceState, target: WorkspaceState, ws: string)
    requires Unique(observed) && Unique(target) && Plain(observed) && Plain(target) && observed != []
    ensures var ops := PushOps(observed, target, ws);
            && ApplyOps(observed, ops).Edited?
            && (Fields(ApplyOps(observed, ops).state) == Fields(target) <==> Clears(observed, ops))
  {
    hide Fields, Unique, Plain, DiffStates, Clears, ApplyOps, Current, Number;
    FreshConverges(observed, target, RestorePush, Ref(KindWorkspace, ws), 0);
  }

  /** All pull operations bring the fields of the desired state to those of the observed one. */
  lemma FreshPullConverges(desired: WorkspaceState, observed: WorkspaceState, ws: string, n: nat)
    requires Unique(desired) && Unique(observed) && Plain(desired) && Plain(observed) && desired != []
    ensures var ops := PullOps(desired, observed, ws, n);
            && ApplyOps(desired, ops).Edited?
            && (Fields(ApplyOps(desired, ops).state) == Fields(observed) <==> Clears(desired, ops))
  {
    hide Fields, Unique, Plain, DiffStates, Clears, ApplyOps, Current, Number;
    FreshConverges(desired, observed, RestorePull, Ref(KindWorkspace, ws), n);
  }

  /** Undoing any selection of a fresh plan, push or pull alike, restores the fields if and only if it is covered. */
  lemma FreshSelectionUndone(a: WorkspaceState, b: WorkspaceState, ops: seq<RestoreOp>)
    requires Unique(a) && Unique(b) && Plain(a) && Plain(b) && a != []
    requires Selection(ops, DiffStates(a, b))
    ensures ApplyOps(a, ops).Edited? && UndoOps(ApplyOps(a, ops).state, ops).Edited?
    ensures Fields(UndoOps(ApplyOps(a, ops).state, ops).state) == Fields(a) <==> Covered(a, ops)
  {
    hide Fields, Unique, Plain, Less, DiffStates, Covered, ApplyOps, UndoOps, Current;
    FreshIsCurrent(a, b, ops);
    UndoInvertsApply(a, ops);
  }

  // ---- drift after reconciling ---------------------------------------------------------------

  function DriftOf(ds: seq<FieldDiff>): seq<DriftEntry> {
    seq(|ds|, i requires 0 <= i < |ds| => DriftEntry(ds[i].field, ds[i].before, ds[i].after))
  }

  function ReconcileStatus(w: Workspace): Workspace {
    if w.desired == w.observed then
      w.(drift := [], status := if w.status == WorkspaceFrozen then WorkspaceFrozen else WorkspaceOK)
    else
      w.(drift := DriftOf(DiffStates(w.desired, w.observed)), status := WorkspaceDrift)
  }

  /**
   * The recorded drift names, sorted, exactly the fields on which the two sides disagree, each with the value that is
   * wanted and the one observed; sides that are equal have none, and stay frozen if they were.
   */
  lemma ReconcileRecords(w: Workspace)
    ensures var v := ReconcileStatus(w);
            && v == w.(drift := v.drift, status := v.status)
            && v.status == (if w.desired != w.observed then WorkspaceDrift else if w.status == WorkspaceFrozen then WorkspaceFrozen else WorkspaceOK)
            && (forall i, j :: 0 <= i < j < |v.drift| ==> Less(v.drift[i].field, v.drift[j].field))
            && (forall i :: 0 <= i < |v.drift| ==>
                  && !Agree(Fields(w.desired), Fields(w.observed), v.drift[i].field)
                  && v.drift[i].desired == Get(Fields(w.desired), v.drift[i].field)
                  && v.drift[i].observed == Get(Fields(w.observed), v.drift[i].field))
            && (forall f :: !Agree(Fields(w.desired), Fields(w.observed), f) ==> exists i :: 0 <= i < |v.drift| && v.drift[i].field == f)
  {
    hide Fields, Less, DiffStates, Get, Agree;
    DiffStatesSpec(w.desired, w.observed);
    var ds, v := DiffStates(w.desired, w.observed), ReconcileStatus(w);
    if w.desired != w.observed {
      forall f | !Agree(Fields(w.desired), Fields(w.observed), f) ensures exists i :: 0 <= i < |v.drift| && v.drift[i].field == f {
        assert InDiff(ds, f);
        var i :| 0 <= i < |ds| && ds[i].field == f;
        assert v.drift[i].field == f;
      }
    } else {
      forall f ensures Agree(Fields(w.desired), Fields(w.observed), f) { AgreeSame(Fields(w.desired), f); }
    }
  }

  lemma AgreeSame(m: map<string, string>, f: string)
    ensures Agree(m, m, f)
  {
  }

  /** The drift rule every accepted catalog satisfies. */
  predicate DriftConsistent(w: Workspace) {
    && (w.desired != w.observed ==> w.drift != [] || w.status == WorkspaceFrozen)
    && (w.desired == w.observed ==> w.drift == [])
  }

  /**
   * Recomputing drift satisfies the rule exactly if the two states are equal or differ in a field:
   * states that differ only in order, index or split leave the drift empty and are turned away.
   */
  lemma ReconcileConsistent(w: Workspace)
    ensures DriftConsistent(ReconcileStatus(w)) <==> w.desired == w.observed || Fields(w.desired) != Fields(w.observed)
  {
    hide Fields, Less, DiffStates;
    DiffStatesSpec(w.desired, w.observed);
    var ds := DiffStates(w.desired, w.observed);
    assert ds != [] ==> !Agree(Fields(w.desired), Fields(w.observed), ds[0].field);
    if Fields(w.desired) != Fields(w.observed) && ds == [] {
      forall f ensures Agree(Fields(w.desired), Fields(w.observed), f) { assert !InDiff(ds, f); }
      AgreeAll(Fields(w.desired), Fields(w.observed));
    }
  }
}
