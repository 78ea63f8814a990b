/**
 * Operations that only add: undo takes back exactly what they made, except on a side that was empty, where the
 * window made for a first surface stays. (tmh-next/internal/mock/backend.go)
 */
module Additions {
  import opened Text
  import opened Topology
  import opened Domain
  import opened Reconcile
  import opened Undo
  import opened Converge
  import opened GateExact

  /** The operation adds a window or surface that was not there when it was recorded. */
  predicate Adds(op: RestoreOp) { (OnSurface(op) || OnWindow(op)) && op.beforeAbsent && op.after != "" }

  predicate Absent(ws: WorkspaceState, op: RestoreOp) {
    if OnSurface(op) then !HasSurface(ws, Part(op)) else !HasWindow(ws, Part(op))
  }

  predicate AllAbsent(ws: WorkspaceState, ops: seq<RestoreOp>) {
    forall j :: 0 <= j < |ops| ==> Adds(ops[j]) && Absent(ws, ops[j])
  }

  lemma AppendedSurface(ws: WorkspaceState, sf: SurfaceSpec, x: string)
    requires ws != []
    ensures HasSurface(AppendSurface(ws, sf), x) <==> HasSurface(ws, x) || x == sf.id
    ensures HasWindow(AppendSurface(ws, sf), x) <==> HasWindow(ws, x)
  {
    hide SurfaceIndex;
    var n, t := |ws| - 1, AppendSurface(ws, sf);
    AppendHolds(ws[n].surfaces, sf, x);
    assert forall j :: 0 <= j < n ==> t[j] == ws[j];
    var m, k := HolderIndex(ws, x), HolderIndex(t, x);
    if m >= 0 { assert HoldsSurface(t[m], x); }
    if 0 <= k < n { assert HoldsSurface(ws[k], x); }
    if x == sf.id { assert HoldsSurface(t[n], x); }
    var a, b := WindowIndex(ws, x), WindowIndex(t, x);
    if a >= 0 { assert t[a].id == x; }
    if b >= 0 { assert ws[b].id == x; }
  }

  lemma AppendedWindow(ws: WorkspaceState, w: WindowSpec, x: string)
    requires w.surfaces == []
    ensures HasSurface(ws + [w], x) <==> HasSurface(ws, x)
    ensures HasWindow(ws + [w], x) <==> HasWindow(ws, x) || x == w.id
  {
    var t := ws + [w];
    assert t[|ws|] == w && !HoldsSurface(w, x) && forall j :: 0 <= j < |ws| ==> t[j] == ws[j];
    var m, k := HolderIndex(ws, x), HolderIndex(t, x);
    if m >= 0 { assert HoldsSurface(t[m], x); }
    if k >= 0 { assert HoldsSurface(ws[k], x); }
    var a, b := WindowIndex(ws, x), WindowIndex(t, x);
    if a >= 0 { assert t[a].id == x; }
    if 0 <= b < |ws| { assert ws[b].id == x; }
  }

  lemma SurfaceBack(ws: WorkspaceState, sf: SurfaceSpec)
    requires ws != [] && !HasSurface(ws, sf.id)
    ensures HasSurface(AppendSurface(ws, sf), sf.id) && DropSurface(AppendSurface(ws, sf), sf.id) == ws
  {
    var n, t := |ws| - 1, AppendSurface(ws, sf);
    AppendedSurface(ws, sf, sf.id);
    var sfs := ws[n].surfaces;
    assert !HoldsSurface(ws[n], sf.id);
    assert t[n].surfaces[|sfs|] == sf;
    assert forall j :: 0 <= j < n ==> t[j] == ws[j];
    assert HolderIndex(t, sf.id) == n;
    assert SurfaceIndex(t[n].surfaces, sf.id) == |sfs|;
    assert Without(t[n].surfaces, |sfs|) == sfs;
  }

  lemma WindowBack(ws: WorkspaceState, w: WindowSpec)
    requires !HasWindow(ws, w.id)
    ensures HasWindow(ws + [w], w.id) && DropWindow(ws + [w], w.id) == ws
  {
    var t := ws + [w];
    assert t[|ws|] == w && forall j :: 0 <= j < |ws| ==> t[j] == ws[j];
    assert WindowIndex(t, w.id) == |ws|;
  }

  function NewSurface(op: RestoreOp): SurfaceSpec {
    var (title, rest) := Cut(op.after, '~');
    SurfaceSpec(Part(op), title, if rest.None? then "" else rest.value, "")
  }

  /** What an addition makes: a surface at the end of the last window, or a window at the end. */
  function Added(ws: WorkspaceState, op: RestoreOp): WorkspaceState
    requires ws != [] || !OnSurface(op)
  {
    if OnSurface(op) then AppendSurface(ws, NewSurface(op)) else ws + [WindowSpec(Part(op), |ws|, op.after, [])]
  }

  lemma AddedIs(ws: WorkspaceState, op: RestoreOp)
    requires Adds(op) && Absent(ws, op) && (ws != [] || OnWindow(op))
    ensures ApplyOne(ws, op) == Edited(Added(ws, op))
  {
    hide SKey, WKey, Cut;
    OpField(op);
    KeySplit(Part(op));
  }

  lemma TakenBack(ws: WorkspaceState, op: RestoreOp)
    requires Adds(op) && Absent(ws, op) && (ws != [] || OnWindow(op))
    ensures UndoOne(Added(ws, op), op) == Edited(ws)
  {
    hide SKey, WKey, Cut, HasSurface, HasWindow, DropSurface, DropWindow, AppendSurface;
    OpField(op);
    KeySplit(Part(op));
    if OnSurface(op) { SurfaceBack(ws, NewSurface(op)); } else { WindowBack(ws, WindowSpec(Part(op), |ws|, op.after, [])); }
  }

  lemma OthersAbsent(ws: WorkspaceState, op: RestoreOp, other: RestoreOp)
    requires Adds(op) && Adds(other) && op.field != other.field && (ws != [] || OnWindow(op))
    ensures Absent(Added(ws, op), other) <==> Absent(ws, other)
  {
    hide SKey, WKey, Cut, HasSurface, HasWindow, AppendSurface, Split;
    OpField(op);
    OpField(other);
    if OnSurface(op) {
      AppendedSurface(ws, NewSurface(op), Part(other));
    } else {
      AppendedWindow(ws, WindowSpec(Part(op), |ws|, op.after, []), Part(other));
    }
  }

  /**
   * Additions, in any order, are taken back exactly: the very state is there again, with order, index and split.
   * Only on an empty side the first of them has to be a window.
   */
  lemma {:induction false} AdditionsUndone(ws: WorkspaceState, ops: seq<RestoreOp>)
    requires AllAbsent(ws, ops) && DistinctFields(ops) && (ws == [] && ops != [] ==> OnWindow(ops[0]))
    ensures ApplyOps(ws, ops).Edited? && UndoOps(ApplyOps(ws, ops).state, ops) == Edited(ws)
    decreases |ops|
  {
    hide ApplyOne, UndoOne, Adds, Absent, Added, OnSurface, OnWindow;
    if ops != [] {
      OpField(ops[0]);
      var s, t := Added(ws, ops[0]), ops[1..];
      AddedIs(ws, ops[0]);
      TakenBack(ws, ops[0]);
      AddedSome(ws, ops[0]);
      forall j | 0 <= j < |t| ensures Adds(t[j]) && Absent(s, t[j]) {
        assert t[j] == ops[j + 1];
        OthersAbsent(ws, ops[0], t[j]);
      }
      AdditionsUndone(s, t);
    }
  }

  lemma AddedSome(ws: WorkspaceState, op: RestoreOp)
    requires ws != [] || !OnSurface(op)
    ensures Added(ws, op) != []
  {
  }

  // ---- a side without windows ------------------------------------------------------------------------

  function NewWindows(n: nat, ops: seq<RestoreOp>): seq<WindowSpec> {
    seq(|ops|, i requires 0 <= i < |ops| => WindowSpec(Part(ops[i]), n + i, ops[i].after, []))
  }

  lemma {:induction false} WindowsAdded(ws: WorkspaceState, ops: seq<RestoreOp>)
    requires AllAbsent(ws, ops) && DistinctFields(ops) && forall j :: 0 <= j < |ops| ==> OnWindow(ops[j])
    ensures ApplyOps(ws, ops) == Edited(ws + NewWindows(|ws|, ops))
    decreases |ops|
  {
    hide ApplyOne, Adds, Absent, OnSurface, OnWindow, Part;
    if ops == [] {
      assert ws + NewWindows(|ws|, ops) == ws;
    } else {
      var s, t := ws + [WindowSpec(Part(ops[0]), |ws|, ops[0].after, [])], ops[1..];
      OpField(ops[0]);
      AddedIs(ws, ops[0]);
      forall j | 0 <= j < |t| ensures Adds(t[j]) && Absent(s, t[j]) && OnWindow(t[j]) {
        assert t[j] == ops[j + 1];
        OthersAbsent(ws, ops[0], t[j]);
      }
      WindowsAdded(s, t);
      assert ws + NewWindows(|ws|, ops) == s + NewWindows(|s|, t);
    }
  }

  /** Windows with these ids at the end go again, whatever their index. */
  lemma {:induction false} WindowsOff(ws: WorkspaceState, more: seq<WindowSpec>, ops: seq<RestoreOp>)
    requires |more| == |ops| && DistinctFields(ops)
    requires forall j :: 0 <= j < |ops| ==> Adds(ops[j]) && OnWindow(ops[j]) && Absent(ws, ops[j]) && more[j].id == Part(ops[j]) && more[j].surfaces == []
    ensures UndoOps(ws + more, ops) == Edited(ws)
    decreases |ops|
  {
    hide Adds, Absent, OnSurface, OnWindow, Part, UndoOne, HasWindow;
    if ops == [] {
      assert ws + more == ws;
    } else {
      var s, t := ws + [more[0]], ops[1..];
      OpField(ops[0]);
      forall j | 0 <= j < |t| ensures Adds(t[j]) && OnWindow(t[j]) && Absent(s, t[j]) && more[1..][j].id == Part(t[j]) && more[1..][j].surfaces == [] {
        assert t[j] == ops[j + 1];
        StillAbsent(ws, more[0], t[j], ops[0]);
      }
      WindowsOff(s, more[1..], t);
      assert s + more[1..] == ws + more;
      WindowOff(ws, more[0], ops[0]);
    }
  }

  lemma StillAbsent(ws: WorkspaceState, w: WindowSpec, op: RestoreOp, first: RestoreOp)
    requires Adds(op) && OnWindow(op) && Absent(ws, op) && OnWindow(first) && w.id == Part(first) && w.surfaces == [] && first.field != op.field
    ensures Absent(ws + [w], op)
  {
    hide SKey, WKey, HasWindow, HasSurface, Split;
    OpField(op);
    OpField(first);
    AppendedWindow(ws, w, Part(op));
  }

  lemma WindowOff(ws: WorkspaceState, w: WindowSpec, op: RestoreOp)
    requires Adds(op) && OnWindow(op) && Absent(ws, op) && w.id == Part(op)
    ensures UndoOne(ws + [w], op) == Edited(ws)
  {
    hide SKey, WKey, HasWindow, DropWindow;
    OpField(op);
    KeySplit(Part(op));
    WindowBack(ws, w);
  }

  lemma {:induction false} NothingToTake(ops: seq<RestoreOp>)
    requires forall j :: 0 <= j < |ops| ==> Adds(ops[j])
    ensures UndoOps([], ops) == Edited([])
    decreases |ops|
  {
    hide Split;
    if ops != [] { NothingToTake(ops[1..]); }
  }

  lemma {:induction false} FirstSurface(ops: seq<RestoreOp>)
    requires ops != [] && OnSurface(ops[0]) && ops[0].after != ""
    ensures ApplyOps([], ops) == ApplyOps([RESTORED_WINDOW], ops)
  {
    hide Split, Cut, SKey, WKey;
    OpField(ops[0]);
    KeySplit(Part(ops[0]));
    RestoredEmpty(Part(ops[0]));
    assert SetSurface([], Part(ops[0]), ops[0].after) == SetSurface([RESTORED_WINDOW], Part(ops[0]), ops[0].after);
    assert ApplyOne([], ops[0]) == ApplyOne([RESTORED_WINDOW], ops[0]);
  }

  lemma RestoredEmpty(x: string)
    ensures !HasSurface([RESTORED_WINDOW], x) && (HasWindow([RESTORED_WINDOW], x) <==> x == "win-restored")
    ensures !HasSurface([], x) && !HasWindow([], x)
  {
    assert !HoldsSurface(RESTORED_WINDOW, x);
    assert [RESTORED_WINDOW][0].id == "win-restored";
  }

  const RESTORED_FIELD := WKey("win-restored")

  lemma {:induction false} OneWindow(ws: WorkspaceState, ops: seq<RestoreOp>)
    requires |ws| == 1 && AllAbsent(ws, ops) && DistinctFields(ops) && forall j :: 0 <= j < |ops| ==> OnSurface(ops[j])
    ensures ApplyOps(ws, ops).Edited?
    ensures var s := ApplyOps(ws, ops).state; |s| == 1 && s[0].id == ws[0].id
    decreases |ops|
  {
    hide ApplyOne, Adds, Absent, OnSurface, OnWindow, Part;
    if ops != [] {
      var s, t := Added(ws, ops[0]), ops[1..];
      AddedIs(ws, ops[0]);
      forall j | 0 <= j < |t| ensures Adds(t[j]) && Absent(s, t[j]) && OnSurface(t[j]) {
        assert t[j] == ops[j + 1];
        OthersAbsent(ws, ops[0], t[j]);
      }
      OneWindow(s, t);
    }
  }

  lemma AbsentOn(ws: WorkspaceState, ops: seq<RestoreOp>)
    requires forall j :: 0 <= j < |ops| ==> Adds(ops[j]) && OnWindow(ops[j]) && ops[j].field != RESTORED_FIELD
    requires forall x :: HasWindow(ws, x) ==> x == "win-restored"
    ensures AllAbsent(ws, ops)
  {
    hide HasWindow, HasSurface, SKey, Split;
    forall j | 0 <= j < |ops| ensures Absent(ws, ops[j]) { OpField(ops[j]); }
  }

  /** The window made for the first surface, once more named by an operation, goes with all it holds. */
  lemma {:induction false} NamedAgain(ws: WorkspaceState, a: seq<RestoreOp>, op: RestoreOp, b: seq<RestoreOp>)
    requires |ws| == 1 && ws[0].id == "win-restored" && op.field == RESTORED_FIELD
    requires forall j :: 0 <= j < |a| ==> Adds(a[j]) && OnWindow(a[j]) && a[j].field != RESTORED_FIELD
    requires forall j :: 0 <= j < |b| ==> Adds(b[j]) && OnWindow(b[j]) && b[j].field != RESTORED_FIELD
    requires Adds(op) && OnWindow(op) && DistinctFields(a + ([op] + b))
    ensures var ops := a + ([op] + b);
            ApplyOps(ws, ops).Edited? && UndoOps(ApplyOps(ws, ops).state, ops) == Edited([])
  {
    hide SKey, WKey, Split, Absent, Adds, OnWindow, OnSurface, Part, ApplyOne, UndoOne, HasWindow, HasSurface;
    var all := a + ([op] + b);
    assert DistinctFields(a) by { assert forall j :: 0 <= j < |a| ==> all[j] == a[j]; }
    assert DistinctFields(b) by { assert forall j :: 0 <= j < |b| ==> all[|a| + 1 + j] == b[j]; }
    LoneWindow(ws);
    AbsentOn(ws, a);
    WindowsAdded(ws, a);
    var made := NewWindows(1, a);
    var s2 := ws + made;
    Relaid(ws, made, op);
    var s3 := [ws[0].(layout := op.after)] + made;
    AbsentBeside(ws, made, op, a, b);
    AdditionsUndone(s3, b);
    NoWindows();
    AbsentOn([], a);
    WindowsOff([], made, a);
    assert [] + made == made;
    ApplyAppend(ws, a, [op] + b);
    ApplyAppend(s2, [op], b);
    One(s2, op);
    var end := ApplyOps(s3, b).state;
    UndoAppend(end, a, [op] + b);
    UndoAppend(end, [op], b);
    One(s3, op);
  }

  lemma {:induction false} One(ws: WorkspaceState, op: RestoreOp)
    ensures ApplyOps(ws, [op]) == ApplyOne(ws, op) && UndoOps(ws, [op]) == UndoOne(ws, op)
  {
    hide ApplyOne, UndoOne;
    assert [op][1..] == [];
  }

  lemma LoneWindow(ws: WorkspaceState)
    requires |ws| == 1 && ws[0].id == "win-restored"
    ensures forall x :: HasWindow(ws, x) ==> x == "win-restored"
  {
  }

  lemma NoWindows()
    ensures forall x :: !HasWindow([], x)
  {
  }

  lemma Relaid(ws: WorkspaceState, made: seq<WindowSpec>, op: RestoreOp)
    requires |ws| == 1 && ws[0].id == "win-restored" && Adds(op) && OnWindow(op) && op.field == RESTORED_FIELD
    ensures ApplyOne(ws + made, op) == Edited([ws[0].(layout := op.after)] + made)
    ensures UndoOne([ws[0].(layout := op.after)] + made, op) == Edited(made)
  {
    hide SKey, WKey, Split, SetLayout, DropWindow, HasWindow;
    RestoredKey();
    var s, t := ws + made, [ws[0].(layout := op.after)] + made;
    assert s[0] == ws[0] && s[1..] == made && t[0].id == "win-restored" && t[1..] == made;
    FirstWindow(s, op.after);
    FirstWindow(t, op.after);
  }

  lemma FirstWindow(ws: WorkspaceState, layout: string)
    requires ws != [] && ws[0].id == "win-restored"
    ensures SetLayout(ws, "win-restored", layout) == [ws[0].(layout := layout)] + ws[1..]
    ensures HasWindow(ws, "win-restored") && DropWindow(ws, "win-restored") == ws[1..]
  {
    assert WindowIndex(ws, "win-restored") == 0;
    assert ws[0 := ws[0].(layout := layout)] == [ws[0].(layout := layout)] + ws[1..];
    assert ws[..0] + ws[1..] == ws[1..];
  }

  lemma RestoredKey()
    ensures Split(RESTORED_FIELD, '/') == ["window", "win-restored"]
  {
    KeySplit("win-restored");
  }

  lemma AbsentBeside(ws: WorkspaceState, made: seq<WindowSpec>, op: RestoreOp, a: seq<RestoreOp>, b: seq<RestoreOp>)
    requires |ws| == 1 && ws[0].id == "win-restored" && made == NewWindows(1, a)
    requires forall j :: 0 <= j < |a| ==> Adds(a[j]) && OnWindow(a[j])
    requires forall j :: 0 <= j < |b| ==> Adds(b[j]) && OnWindow(b[j]) && b[j].field != RESTORED_FIELD
    requires DistinctFields(a + ([op] + b))
    ensures AllAbsent([ws[0].(layout := op.after)] + made, b)
  {
    hide SKey, WKey, Split, HasSurface, Part, OnSurface, OnWindow;
    var t, all := [ws[0].(layout := op.after)] + made, a + ([op] + b);
    forall j | 0 <= j < |b| ensures Absent(t, b[j]) {
      OpField(b[j]);
      WindowsHere(ws[0].(layout := op.after), a, Part(b[j]));
      forall i | 0 <= i < |a| ensures a[i].field != b[j].field { assert all[i] == a[i] && all[|a| + 1 + j] == b[j]; }
    }
  }

  lemma WindowsHere(w: WindowSpec, a: seq<RestoreOp>, x: string)
    requires forall j :: 0 <= j < |a| ==> OnWindow(a[j])
    ensures HasWindow([w] + NewWindows(1, a), x) ==> x == w.id || Named(a, WKey(x))
  {
    hide WKey, Split, Part, OnWindow;
    var t := [w] + NewWindows(1, a);
    var i := WindowIndex(t, x);
    if i > 0 {
      OpField(a[i - 1]);
      assert t[i] == NewWindows(1, a)[i - 1];
      assert a[i - 1].field == WKey(x);
    }
  }

  lemma CurrentAdds(ops: seq<RestoreOp>)
    requires Current(ops, Fields([]))
    ensures forall j :: 0 <= j < |ops| ==> Adds(ops[j]) && WellFormed(ops[j])
    ensures SortedByField(ops)
  {
    hide Split, Less;
  }

  lemma AllNew(ws: WorkspaceState, ops: seq<RestoreOp>)
    requires ws == [] || (ws == [RESTORED_WINDOW] && !Named(ops, RESTORED_FIELD))
    requires forall j :: 0 <= j < |ops| ==> Adds(ops[j])
    ensures AllAbsent(ws, ops)
  {
    hide SKey, WKey, Split, HasWindow, HasSurface;
    forall j | 0 <= j < |ops| ensures Absent(ws, ops[j]) {
      OpField(ops[j]);
      RestoredEmpty(Part(ops[j]));
    }
  }

  lemma PlanParts(ops: seq<RestoreOp>, k: nat, m: nat)
    requires k <= m < |ops|
    ensures ops == ops[..k] + (ops[k..m] + ([ops[m]] + ops[m + 1..]))
  {
  }

  /** Where the plan's window operations start, and the one among them that names the window made for a surface. */
  lemma NamedAt(ops: seq<RestoreOp>) returns (k: nat, m: nat)
    requires SortedByField(ops) && forall j :: 0 <= j < |ops| ==> WellFormed(ops[j])
    requires Named(ops, RESTORED_FIELD)
    ensures k <= m < |ops| && ops[m].field == RESTORED_FIELD && DistinctFields(ops)
    ensures forall j :: 0 <= j < k ==> OnSurface(ops[j]) && ops[j].field != RESTORED_FIELD
    ensures forall j :: k <= j < |ops| ==> OnWindow(ops[j])
  {
    hide SKey, WKey, Split, Less, Part, OnSurface, OnWindow, WellFormed, Boundary, SortedByField;
    SortedDistinct(ops);
    PlanOrder(ops);
    PlanSides(ops);
    k := Boundary(ops);
    m :| 0 <= m < |ops| && ops[m].field == RESTORED_FIELD;
    forall j | 0 <= j < k ensures OnSurface(ops[j]) && ops[j].field != RESTORED_FIELD {
      assert ops[..k][j] == ops[j];
      KeyInjective("win-restored", Part(ops[j]));
    }
    forall j | k <= j < |ops| ensures OnWindow(ops[j]) { assert ops[k..][j - k] == ops[j]; }
  }

  lemma PartDistinct(ops: seq<RestoreOp>, i: nat, j: nat)
    requires DistinctFields(ops) && i <= j <= |ops|
    ensures DistinctFields(ops[i..j])
  {
  }

  lemma {:induction false} NamedCase(ops: seq<RestoreOp>)
    requires SortedByField(ops) && forall j :: 0 <= j < |ops| ==> Adds(ops[j]) && WellFormed(ops[j])
    requires Named(ops, RESTORED_FIELD)
    ensures ApplyOps([RESTORED_WINDOW], ops).Edited?
    ensures UndoOps(ApplyOps([RESTORED_WINDOW], ops).state, ops) == Edited([])
  {
    var k, m := NamedAt(ops);
    NamedParted(ops, k, m);
  }

  lemma {:induction false} NamedParted(ops: seq<RestoreOp>, k: nat, m: nat)
    requires k <= m < |ops| && ops[m].field == RESTORED_FIELD && DistinctFields(ops)
    requires forall j :: 0 <= j < |ops| ==> Adds(ops[j])
    requires forall j :: 0 <= j < k ==> OnSurface(ops[j]) && ops[j].field != RESTORED_FIELD
    requires forall j :: k <= j < |ops| ==> OnWindow(ops[j])
    ensures ApplyOps([RESTORED_WINDOW], ops).Edited?
    ensures UndoOps(ApplyOps([RESTORED_WINDOW], ops).state, ops) == Edited([])
  {
    hide SKey, WKey, ApplyOps, UndoOps, Part, OnSurface, OnWindow, Absent, Adds;
    var surfaces, a, op, b := ops[..k], ops[k..m], ops[m], ops[m + 1..];
    var rest := a + ([op] + b);
    PlanParts(ops, k, m);
    PartDistinct(ops, 0, k);
    PartDistinct(ops, k, |ops|);
    assert ops[0..k] == surfaces && ops[k..|ops|] == rest;
    AllNew([RESTORED_WINDOW], surfaces);
    OneWindow([RESTORED_WINDOW], surfaces);
    var s := ApplyOps([RESTORED_WINDOW], surfaces).state;
    NamedAgain(s, a, op, b);
    NothingToTake(surfaces);
    ApplyAppend([RESTORED_WINDOW], surfaces, rest);
    UndoAppend(ApplyOps(s, rest).state, surfaces, rest);
  }

  /**
   * On a side without windows a plan can only add. Applying is never refused, and undo leaves the side empty, except
   * where a surface was added and the window made for it is not itself named: that window stays, empty.
   */
  lemma {:induction false} EmptySide(ops: seq<RestoreOp>)
    requires Current(ops, Fields([]))
    ensures ApplyOps([], ops).Edited?
    ensures UndoOps(ApplyOps([], ops).state, ops)
         == Edited(if ops != [] && OnSurface(ops[0]) && !Named(ops, RESTORED_FIELD) then [RESTORED_WINDOW] else [])
  {
    hide SKey, WKey, Split, Less, ApplyOps, UndoOps, Part, OnSurface, OnWindow, HasWindow, HasSurface, Absent;
    CurrentAdds(ops);
    SortedDistinct(ops);
    AllNew([], ops);
    if ops == [] || !OnSurface(ops[0]) {
      AdditionsUndone([], ops);
    } else {
      FirstSurface(ops);
      if !Named(ops, RESTORED_FIELD) {
        AllNew([RESTORED_WINDOW], ops);
        AdditionsUndone([RESTORED_WINDOW], ops);
      } else {
        NamedCase(ops);
      }
    }
  }

  lemma RestoredFields()
    ensures Unique([RESTORED_WINDOW]) && Unique([]) && Fields([RESTORED_WINDOW]) == map[RESTORED_FIELD := ""] && Fields([]) == map[]
  {
    hide WKey;
    assert [RESTORED_WINDOW][1..] == [];
    assert SurfaceFields([]) == map[];
    assert forall x :: !HoldsSurface(RESTORED_WINDOW, x);
  }

  /** Applying merges the plan into the empty side exactly if the window made for a first surface is named as well. */
  lemma {:induction false} EmptyMerges(ops: seq<RestoreOp>)
    requires Current(ops, Fields([]))
    ensures ApplyOps([], ops).Edited?
    ensures Fields(ApplyOps([], ops).state) == Patch(map[], ops) <==> (ops != [] && OnSurface(ops[0]) ==> Named(ops, RESTORED_FIELD))
  {
    hide WKey, Split, Less, ApplyOps, Part, OnSurface, OnWindow, Fields, Unique, Patch;
    CurrentAdds(ops);
    SortedDistinct(ops);
    RestoredFields();
    if ops == [] || !OnSurface(ops[0]) {
      ApplyAnyOrder([], ops);
    } else {
      FirstSurface(ops);
      ApplyAnyOrder([RESTORED_WINDOW], ops);
      var base := map[RESTORED_FIELD := ""];
      forall f ensures Agree(Patch(base, ops), Patch(map[], ops), f) <==> f != RESTORED_FIELD || Named(ops, f) {
        PatchAt(base, ops, f);
        PatchAt(map[], ops, f);
        if Named(ops, f) { var j :| 0 <= j < |ops| && ops[j].field == f; }
      }
      if Named(ops, RESTORED_FIELD) { AgreeAll(Patch(base, ops), Patch(map[], ops)); }
    }
  }
}
