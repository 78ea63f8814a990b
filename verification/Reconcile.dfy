/**
 * Applying the selected operations of a restore plan to one side of a workspace, and undoing
 * them. (tmh-next/internal/mock/backend.go, actions restore-apply and reconcile-undo)
 */
module Reconcile {
  import opened Text
  import opened Topology
  import opened Edits
  import opened Domain

  function ApplyOne(ws: WorkspaceState, op: RestoreOp): Edit {
    if op.after == "" then RemoveField(ws, op.field) else SetField(ws, op.field, op.after)
  }

  function ApplyOps(ws: WorkspaceState, ops: seq<RestoreOp>): Edit
    decreases |ops|
  {
    if ops == [] then Edited(ws)
    else
      match ApplyOne(ws, ops[0])
      case Refused => Refused
      case Edited(next) => ApplyOps(next, ops[1..])
  }

  /** A removal that finds nothing to remove is ignored. */
  function UndoOne(ws: WorkspaceState, op: RestoreOp): Edit {
    if op.beforeAbsent || op.before == "" then
      match RemoveField(ws, op.field)
      case Refused => Edited(ws)
      case Edited(next) => Edited(next)
    else SetField(ws, op.field, op.before)
  }

  /** Undoing starts from the last operation. */
  function UndoOps(ws: WorkspaceState, ops: seq<RestoreOp>): Edit
    decreases |ops|
  {
    if ops == [] then Edited(ws)
    else
      match UndoOps(ws, ops[1..])
      case Refused => Refused
      case Edited(next) => UndoOne(next, ops[0])
  }

  // ---- what a plan records ---------------------------------------------------------

  /** The two pieces of a two-part field path. */
  predicate OnSurface(op: RestoreOp) {
    var parts := Split(op.field, '/');
    |parts| == 2 && parts[0] == "surface"
  }

  predicate OnWindow(op: RestoreOp) {
    var parts := Split(op.field, '/');
    |parts| == 2 && parts[0] == "window"
  }

  function Part(op: RestoreOp): string {
    var parts := Split(op.field, '/');
    if |parts| == 2 then parts[1] else ""
  }

  /** An operation a diff can produce: a present value is never empty, a surface value has its separator. */
  predicate WellFormed(op: RestoreOp) {
    && (OnSurface(op) || OnWindow(op))
    && (op.after != "" && OnSurface(op) ==> '~' in op.after)
    && (op.after == "" ==> !op.beforeAbsent)
    && (!op.beforeAbsent ==> op.before != "")
  }

  /** The recorded before-value is the value the field has. */
  predicate Matches(op: RestoreOp, fields: map<string, string>) {
    && (op.beforeAbsent <==> op.field !in fields)
    && (op.field in fields ==> op.before == fields[op.field])
  }

  predicate Named(ops: seq<RestoreOp>, field: string) {
    exists j :: 0 <= j < |ops| && ops[j].field == field
  }

  predicate DistinctFields(ops: seq<RestoreOp>) {
    forall j, k :: 0 <= j < k < |ops| ==> ops[j].field != ops[k].field
  }

  predicate SortedByField(ops: seq<RestoreOp>) {
    forall j, k :: 0 <= j < k < |ops| ==> Less(ops[j].field, ops[k].field)
  }

  /** Operations in plan order whose before-values still match. */
  predicate Current(ops: seq<RestoreOp>, fields: map<string, string>) {
    && SortedByField(ops)
    && forall j :: 0 <= j < |ops| ==> WellFormed(ops[j]) && Matches(ops[j], fields)
  }

  predicate RemovesWindow(ops: seq<RestoreOp>, id: string) {
    exists j :: 0 <= j < |ops| && ops[j].field == WKey(id) && ops[j].after == ""
  }

  /** Every surface inside a window that the operations remove is itself named by one of them. */
  ghost predicate Covered(ws: WorkspaceState, ops: seq<RestoreOp>) {
    forall i, x :: 0 <= i < |ws| && RemovesWindow(ops, ws[i].id) && HoldsSurface(ws[i], x) ==> Named(ops, SKey(x))
  }

  /** The fields with every operation's after-value written in. */
  function Patch(fields: map<string, string>, ops: seq<RestoreOp>): map<string, string>
    decreases |ops|
  {
    if ops == [] then fields
    else if ops[0].after == "" then Patch(fields - {ops[0].field}, ops[1..])
    else Patch(fields[ops[0].field := ops[0].after], ops[1..])
  }

  // ---- paths -----------------------------------------------------------------------

  lemma OpField(op: RestoreOp)
    ensures OnSurface(op) ==> op.field == SKey(Part(op)) && '/' !in Part(op)
    ensures OnWindow(op) ==> op.field == WKey(Part(op)) && '/' !in Part(op)
    ensures !(OnSurface(op) && OnWindow(op))
  {
    var parts := Split(op.field, '/');
    JoinSplit(op.field, '/');
    if |parts| == 2 {
      assert parts[1] in parts;
      assert parts[1..] == [parts[1]];
      assert Join(parts, '/') == parts[0] + ['/'] + parts[1];
    }
  }

  // ---- sequences of operations -------------------------------------------------------

  lemma {:induction false} ApplyAppend(ws: WorkspaceState, a: seq<RestoreOp>, b: seq<RestoreOp>)
    ensures ApplyOps(ws, a + b) == match ApplyOps(ws, a)
                                   case Refused => Refused
                                   case Edited(s) => ApplyOps(s, b)
    decreases |a|
  {
    hide ApplyOne;
    if a == [] {
      assert a + b == b;
    } else {
      assert (a + b)[1..] == a[1..] + b;
      var e := ApplyOne(ws, a[0]);
      if e.Edited? { ApplyAppend(e.state, a[1..], b); }
    }
  }

  lemma {:induction false} UndoAppend(ws: WorkspaceState, a: seq<RestoreOp>, b: seq<RestoreOp>)
    ensures UndoOps(ws, a + b) == match UndoOps(ws, b)
                                  case Refused => Refused
                                  case Edited(s) => UndoOps(s, a)
  {
    hide UndoOne;
    if a == [] {
      assert a + b == b;
    } else {
      assert (a + b)[1..] == a[1..] + b;
      UndoAppend(ws, a[1..], b);
    }
  }

  lemma {:induction false} PatchAt(fields: map<string, string>, ops: seq<RestoreOp>, f: string)
    requires DistinctFields(ops)
    ensures !Named(ops, f) ==> (f in Patch(fields, ops) <==> f in fields)
                               && (f in fields ==> Patch(fields, ops)[f] == fields[f])
    ensures forall j :: 0 <= j < |ops| && ops[j].field == f ==>
              (f in Patch(fields, ops) <==> ops[j].after != "")
              && (ops[j].after != "" ==> Patch(fields, ops)[f] == ops[j].after)
    decreases |ops|
  {
    if ops != [] {
      var t := ops[1..];
      var next := if ops[0].after == "" then fields - {ops[0].field} else fields[ops[0].field := ops[0].after];
      PatchAt(next, t, f);
      assert forall j :: 0 <= j < |t| ==> t[j] == ops[j + 1];
      if !Named(ops, f) {
        assert ops[0].field != f && !Named(t, f);
      }
      forall j | 0 <= j < |ops| && ops[j].field == f
        ensures (f in Patch(fields, ops) <==> ops[j].after != "")
                && (ops[j].after != "" ==> Patch(fields, ops)[f] == ops[j].after)
      {
        if j > 0 { assert t[j - 1] == ops[j]; } else { assert !Named(t, f); }
      }
    }
  }
}
