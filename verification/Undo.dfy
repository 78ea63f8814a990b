/**
 * Undo is the inverse of apply, on the fields of a workspace, exactly when no surface that the
 * plan leaves alone sits inside a window that the plan removes.
 */
module Undo {
  import opened Text
  import opened Topology
  import opened Edits
  import opened Domain
  import opened Reconcile

  // ---- surfaces: each operation changes its own field ----------------------------------

  /** Same windows with the same layouts, in the same places. */
  ghost predicate SameFrame(a: WorkspaceState, b: WorkspaceState) {
    |a| == |b| && forall i :: 0 <= i < |a| ==> a[i].id == b[i].id && a[i].layout == b[i].layout
  }

  /** Every window holds the same surfaces, `x` apart. */
  ghost predicate SameHoldings(a: WorkspaceState, b: WorkspaceState, x: string) {
    |a| == |b| && forall i, y :: 0 <= i < |a| && y != x ==> (HoldsSurface(a[i], y) <==> HoldsSurface(b[i], y))
  }

  lemma SurfaceOpFrame(ws: WorkspaceState, id: string, value: string)
    requires Unique(ws) && ws != []
    ensures SameFrame(ws, SetSurface(ws, id, value)) && SameHoldings(ws, SetSurface(ws, id, value), id)
    ensures HasSurface(ws, id) ==> SameFrame(ws, DropSurface(ws, id)) && SameHoldings(ws, DropSurface(ws, id), id)
  {
    hide HolderIndex, SurfaceIndex, Cut, Unique;
    var i := HolderIndex(ws, id);
    if i >= 0 {
      var k := SurfaceIndex(ws[i].surfaces, id);
      assert UniqueSurfaces(ws[i].surfaces) by { UniqueAt(ws, i); }
      var d := DropSurface(ws, id);
      assert forall j :: 0 <= j < |d[i].surfaces| ==> d[i].surfaces[j] == ws[i].surfaces[if j < k then j else j + 1];
      forall y | y != id ensures HoldsSurface(ws[i], y) <==> HoldsSurface(d[i], y) {
        var j := SurfaceIndex(ws[i].surfaces, y);
        if j >= 0 { assert d[i].surfaces[if j < k then j else j - 1].id == y; }
      }
      var u := SetSurface(ws, id, value);
      assert forall j :: 0 <= j < |u[i].surfaces| ==> u[i].surfaces[j].id == ws[i].surfaces[j].id;
    } else {
      var n := |ws| - 1;
      var a := SetSurface(ws, id, value);
      forall y | y != id ensures HoldsSurface(ws[n], y) <==> HoldsSurface(a[n], y) {
        var j := SurfaceIndex(ws[n].surfaces, y);
        if j >= 0 { assert a[n].surfaces[j].id == y; }
        var l := SurfaceIndex(a[n].surfaces, y);
        if l >= 0 { assert ws[n].surfaces[l].id == y; }
      }
    }
  }

  /** What one surface operation does, forward. */
  lemma ApplySurface(ws: WorkspaceState, op: RestoreOp)
    requires Unique(ws) && ws != [] && OnSurface(op) && WellFormed(op)
    requires op.after == "" ==> op.field in Fields(ws)
    ensures ApplyOne(ws, op).Edited?
    ensures var s := ApplyOne(ws, op).state;
            && Unique(s) && SameFrame(ws, s) && SameHoldings(ws, s, Part(op))
            && Fields(s) == if op.after == "" then Fields(ws) - {op.field} else Fields(ws)[op.field := op.after]
  {
    hide Fields, Unique, HoldsSurface, HolderIndex, SKey, WKey;
    OpField(op);
    var x := Part(op);
    KeySplit(x);
    FieldsHas(ws, x);
    SurfaceOpFrame(ws, x, op.after);
    if op.after == "" {
      DropSurfaceFields(ws, x);
      DropSurfaceUnique(ws, x);
    } else {
      SetSurfaceFields(ws, x, op.after);
    }
  }

  /** What undoing one surface operation does, whatever became of the surface. */
  lemma UndoSurface(ws: WorkspaceState, op: RestoreOp)
    requires Unique(ws) && ws != [] && OnSurface(op)
    requires !op.beforeAbsent ==> '~' in op.before
    ensures UndoOne(ws, op).Edited?
    ensures var s := UndoOne(ws, op).state;
            && Unique(s) && s != []
            && Fields(s) == if op.beforeAbsent then Fields(ws) - {op.field} else Fields(ws)[op.field := op.before]
  {
    hide Fields, Unique, HoldsSurface, HolderIndex, SKey, WKey;
    OpField(op);
    var x := Part(op);
    KeySplit(x);
    FieldsHas(ws, x);
    if op.beforeAbsent {
      if HasSurface(ws, x) {
        DropSurfaceFields(ws, x);
        DropSurfaceUnique(ws, x);
      }
    } else {
      SetSurfaceFields(ws, x, op.before);
    }
  }

  predicate SurfaceOps(ops: seq<RestoreOp>) {
    forall j :: 0 <= j < |ops| ==> OnSurface(ops[j]) && WellFormed(ops[j])
  }

  predicate WindowOps(ops: seq<RestoreOp>) {
    forall j :: 0 <= j < |ops| ==> OnWindow(ops[j]) && WellFormed(ops[j])
  }

  predicate AllMatch(ops: seq<RestoreOp>, fields: map<string, string>) {
    forall j :: 0 <= j < |ops| ==> Matches(ops[j], fields)
  }

  ghost predicate SameUnnamed(a: WorkspaceState, b: WorkspaceState, ops: seq<RestoreOp>) {
    |a| == |b| && forall i, y :: 0 <= i < |a| && !Named(ops, SKey(y)) ==> (HoldsSurface(a[i], y) <==> HoldsSurface(b[i], y))
  }

  lemma {:induction false} ApplySurfaces(ws: WorkspaceState, ops: seq<RestoreOp>)
    requires Unique(ws) && ws != [] && SurfaceOps(ops) && DistinctFields(ops)
    requires forall j :: 0 <= j < |ops| && ops[j].after == "" ==> ops[j].field in Fields(ws)
    ensures ApplyOps(ws, ops).Edited?
    ensures var s := ApplyOps(ws, ops).state;
            && Unique(s) && SameFrame(ws, s) && SameUnnamed(ws, s, ops) && Fields(s) == Patch(Fields(ws), ops)
    decreases |ops|
  {
    hide Fields, Unique, HoldsSurface, SKey, ApplyOne, OnSurface, WellFormed, Part;
    if ops != [] {
      var t := ops[1..];
      ApplySurface(ws, ops[0]);
      var s := ApplyOne(ws, ops[0]).state;
      assert forall j :: 0 <= j < |t| ==> t[j] == ops[j + 1];
      ApplySurfaces(s, t);
      var r := ApplyOps(s, t).state;
      OpField(ops[0]);
      forall i, y | 0 <= i < |ws| && !Named(ops, SKey(y)) ensures HoldsSurface(ws[i], y) <==> HoldsSurface(r[i], y) {
        assert ops[0].field != SKey(y);
        assert forall j :: 0 <= j < |t| ==> t[j].field != SKey(y);
      }
    }
  }

  /** Undoing surface operations gives every named field its recorded value and keeps the others. */
  lemma {:induction false} UndoSurfaces(ws: WorkspaceState, ops: seq<RestoreOp>, fields: map<string, string>)
    requires Unique(ws) && ws != [] && SurfaceOps(ops) && DistinctFields(ops) && AllMatch(ops, fields)
    requires forall j :: 0 <= j < |ops| && !ops[j].beforeAbsent ==> '~' in ops[j].before
    ensures UndoOps(ws, ops).Edited?
    ensures var s := UndoOps(ws, ops).state;
            && Unique(s) && s != []
            && forall f :: Agree(Fields(s), if Named(ops, f) then fields else Fields(ws), f)
    decreases |ops|
  {
    hide Fields, Unique, UndoOne, OnSurface, WellFormed;
    if ops != [] {
      var t := ops[1..];
      assert forall j :: 0 <= j < |t| ==> t[j] == ops[j + 1];
      UndoSurfaces(ws, t, fields);
      var r := UndoOps(ws, t).state;
      UndoSurface(r, ops[0]);
      forall f ensures Agree(Fields(UndoOps(ws, ops).state), if Named(ops, f) then fields else Fields(ws), f) {
        NamedCons(ops, f);
        assert Matches(ops[0], fields);
      }
    }
  }

  predicate Agree(a: map<string, string>, b: map<string, string>, f: string) {
    (f in a <==> f in b) && (f in a && f in b ==> a[f] == b[f])
  }

  lemma NamedCons(ops: seq<RestoreOp>, f: string)
    requires ops != []
    ensures Named(ops, f) <==> ops[0].field == f || Named(ops[1..], f)
  {
    if Named(ops, f) && ops[0].field != f {
      var j :| 0 <= j < |ops| && ops[j].field == f;
      assert ops[1..][j - 1].field == f;
    }
    if Named(ops[1..], f) {
      var j :| 0 <= j < |ops[1..]| && ops[1..][j].field == f;
      assert ops[j + 1].field == f;
    }
  }

  // ---- windows: there and back ----------------------------------------------------------

  datatype WindowView = WindowView(layout: string, surfaces: seq<SurfaceSpec>)

  /** What a workspace shows of one window. */
  function Lookup(ws: WorkspaceState, id: string): Option<WindowView> {
    var i := WindowIndex(ws, id);
    if i < 0 then None else Some(WindowView(ws[i].layout, ws[i].surfaces))
  }

  lemma LookupAt(ws: WorkspaceState, i: nat)
    requires Unique(ws) && i < |ws|
    ensures WindowIndex(ws, ws[i].id) == i
    ensures Lookup(ws, ws[i].id) == Some(WindowView(ws[i].layout, ws[i].surfaces))
  {
  }

  lemma LookupSetLayout(ws: WorkspaceState, id: string, layout: string, x: string)
    requires Unique(ws)
    ensures Lookup(SetLayout(ws, id, layout), x)
         == if x != id then Lookup(ws, x)
            else Some(WindowView(layout, if Lookup(ws, id).Some? then Lookup(ws, id).value.surfaces else []))
  {
    hide HoldsSurface, WindowIndex;
    var s := SetLayout(ws, id, layout);
    var i, j := WindowIndex(ws, x), WindowIndex(s, x);
    SetLayoutUnique(ws, id, layout);
    if i >= 0 { assert s[i].id == x; LookupAt(s, i); }
    if x == id && WindowIndex(ws, id) < 0 { assert s[|ws|].id == id; LookupAt(s, |ws|); }
    if j >= 0 && j < |ws| { assert ws[j].id == x; }
  }

  lemma LookupDropWindow(ws: WorkspaceState, id: string, x: string)
    requires Unique(ws) && HasWindow(ws, id)
    ensures Lookup(DropWindow(ws, id), x) == if x == id then None else Lookup(ws, x)
  {
    hide HoldsSurface, WindowIndex;
    var k := WindowIndex(ws, id);
    var s := DropWindow(ws, id);
    DropWindowUnique(ws, id);
    assert forall j :: 0 <= j < |s| ==> s[j] == if j < k then ws[j] else ws[j + 1];
    var i, j := WindowIndex(ws, x), WindowIndex(s, x);
    if i >= 0 && x != id { LookupAt(s, if i < k then i else i - 1); }
    if j >= 0 { LookupAt(ws, if j < k then j else j + 1); }
  }

  predicate MatchesWindow(op: RestoreOp, ws: WorkspaceState) {
    var v := Lookup(ws, Part(op));
    && (op.beforeAbsent <==> v.None?)
    && (v.Some? ==> op.before == v.value.layout)
  }

  function AppliedView(op: RestoreOp, v: Option<WindowView>): Option<WindowView> {
    if op.after == "" then None
    else Some(WindowView(op.after, if v.Some? then v.value.surfaces else []))
  }

  lemma ApplyWindow(ws: WorkspaceState, op: RestoreOp)
    requires Unique(ws) && OnWindow(op) && WellFormed(op) && MatchesWindow(op, ws)
    ensures ApplyOne(ws, op).Edited? && Unique(ApplyOne(ws, op).state)
  {
    hide Unique, SKey, WKey, WindowIndex, SetLayout, DropWindow, OnWindow, OnSurface, Part;
    OpField(op);
    var id := Part(op);
    KeySplit(id);
    if op.after == "" { DropWindowUnique(ws, id); } else { SetLayoutUnique(ws, id, op.after); }
  }

  /** Only the window an operation names is seen otherwise after it. */
  lemma ApplyWindowView(ws: WorkspaceState, op: RestoreOp, x: string)
    requires Unique(ws) && OnWindow(op) && WellFormed(op) && MatchesWindow(op, ws)
    ensures ApplyOne(ws, op).Edited?
    ensures Lookup(ApplyOne(ws, op).state, x) == if x == Part(op) then AppliedView(op, Lookup(ws, x)) else Lookup(ws, x)
  {
    hide Unique, SKey, WKey, WindowIndex, SetLayout, DropWindow, OnWindow, OnSurface, Part;
    OpField(op);
    var id := Part(op);
    KeySplit(id);
    if op.after == "" { LookupDropWindow(ws, id, x); } else { LookupSetLayout(ws, id, op.after, x); }
  }

  lemma UndoWindow(ws: WorkspaceState, op: RestoreOp)
    requires Unique(ws) && OnWindow(op) && WellFormed(op)
    ensures UndoOne(ws, op).Edited?
    ensures var s := UndoOne(ws, op).state;
            && Unique(s)
            && forall x :: Lookup(s, x) ==
                           if x != Part(op) then Lookup(ws, x)
                           else if op.beforeAbsent then None
                           else Some(WindowView(op.before, if Lookup(ws, x).Some? then Lookup(ws, x).value.surfaces else []))
  {
    hide Unique, SKey, WKey, WindowIndex, SetLayout, DropWindow, OnWindow, OnSurface, Part;
    OpField(op);
    var id := Part(op);
    KeySplit(id);
    if op.beforeAbsent {
      if HasWindow(ws, id) {
        DropWindowUnique(ws, id);
        forall x ensures Lookup(DropWindow(ws, id), x) == if x == id then None else Lookup(ws, x) {
          LookupDropWindow(ws, id, x);
        }
      }
    } else {
      SetLayoutUnique(ws, id, op.before);
      forall x {
        LookupSetLayout(ws, id, op.before, x);
      }
    }
  }

  /** A window as apply and undo leave it: one that the operations removed comes back empty. */
  function ReturnedView(ops: seq<RestoreOp>, id: string, v: Option<WindowView>): Option<WindowView> {
    if RemovesWindow(ops, id) && v.Some? then Some(v.value.(surfaces := [])) else v
  }

  lemma RemovesCons(ops: seq<RestoreOp>, id: string)
    requires ops != []
    ensures RemovesWindow(ops, id) <==> (ops[0].field == WKey(id) && ops[0].after == "") || RemovesWindow(ops[1..], id)
  {
    hide WKey;
    var t := ops[1..];
    if RemovesWindow(ops, id) && !(ops[0].field == WKey(id) && ops[0].after == "") {
      var j :| 0 <= j < |ops| && ops[j].field == WKey(id) && ops[j].after == "";
      assert t[j - 1] == ops[j];
    }
    if RemovesWindow(t, id) {
      var j :| 0 <= j < |t| && t[j].field == WKey(id) && t[j].after == "";
      assert ops[j + 1] == t[j];
    }
  }

  lemma {:induction false} WindowsThereAndBack(ws: WorkspaceState, ops: seq<RestoreOp>)
    requires Unique(ws) && WindowOps(ops) && DistinctFields(ops)
    requires forall j :: 0 <= j < |ops| ==> MatchesWindow(ops[j], ws)
    ensures ApplyOps(ws, ops).Edited? && Unique(ApplyOps(ws, ops).state)
    ensures UndoOps(ApplyOps(ws, ops).state, ops).Edited?
    ensures var t := UndoOps(ApplyOps(ws, ops).state, ops).state;
            Unique(t) && forall x :: Lookup(t, x) == ReturnedView(ops, x, Lookup(ws, x))
    decreases |ops|
  {
    hide Unique, WKey, ApplyOne, UndoOne, OnWindow, OnSurface, Part, Lookup;
    if ops == [] {
      assert forall x :: !RemovesWindow(ops, x);
    } else {
      var op, rest := ops[0], ops[1..];
      ApplyWindow(ws, op);
      forall y { ApplyWindowView(ws, op, y); }
      var s := ApplyOne(ws, op).state;
      assert forall j :: 0 <= j < |rest| ==> rest[j] == ops[j + 1];
      OpField(op);
      forall j | 0 <= j < |rest| ensures Part(rest[j]) != Part(op) && MatchesWindow(rest[j], s) {
        OpField(rest[j]);
      }
      WindowsThereAndBack(s, rest);
      var r := UndoOps(ApplyOps(s, rest).state, rest).state;
      UndoWindow(r, op);
      var t := UndoOne(r, op).state;
      forall x ensures Lookup(t, x) == ReturnedView(ops, x, Lookup(ws, x)) {
        RemovesCons(ops, x);
        if x == Part(op) {
          forall j | 0 <= j < |rest| ensures rest[j].field != WKey(x) { }
          assert !RemovesWindow(rest, x);
        } else {
          KeyInjective(x, Part(op));
        }
      }
    }
  }

  // ---- from windows back to fields --------------------------------------------------------

  lemma WindowFieldVia(ws: WorkspaceState, id: string)
    requires Unique(ws)
    ensures WKey(id) in Fields(ws) <==> Lookup(ws, id).Some?
    ensures Lookup(ws, id).Some? ==> Fields(ws)[WKey(id)] == Lookup(ws, id).value.layout
  {
    hide Fields, WKey, SKey, Unique, HoldsSurface, WindowIndex, WindowFields;
    FieldsHas(ws, id);
    var i := WindowIndex(ws, id);
    if i >= 0 {
      FieldsDropWindow(ws, i);
      WindowFieldsHas(ws[i], id);
    }
  }

  lemma SurfaceFieldVia(ws: WorkspaceState, i: nat, x: string)
    requires Unique(ws) && i < |ws| && HoldsSurface(ws[i], x)
    ensures HolderIndex(ws, x) == i
    ensures SKey(x) in Fields(ws)
    ensures Fields(ws)[SKey(x)] == SurfaceValue(ws[i].surfaces[SurfaceIndex(ws[i].surfaces, x)])
  {
    hide Fields, WKey, SKey, WindowIndex, SurfaceIndex, SurfaceFields, SurfaceValue;
    FieldsDropWindow(ws, i);
    WindowFieldsHas(ws[i], x);
    KeyInjective(ws[i].id, x);
    SurfaceFieldsAt(ws[i].surfaces, SurfaceIndex(ws[i].surfaces, x));
  }

  /** The surface sits in a window that the operations remove. */
  predicate Lost(ws: WorkspaceState, ops: seq<RestoreOp>, x: string) {
    var i := HolderIndex(ws, x);
    i >= 0 && RemovesWindow(ops, ws[i].id)
  }

  /** Windows that come back empty lose the fields of their surfaces, and nothing else is lost. */
  lemma ReturnedSurface(ws: WorkspaceState, t: WorkspaceState, ops: seq<RestoreOp>, x: string)
    requires Unique(ws) && Unique(t)
    requires forall id :: Lookup(t, id) == ReturnedView(ops, id, Lookup(ws, id))
    ensures SKey(x) in Fields(t) <==> SKey(x) in Fields(ws) && !Lost(ws, ops, x)
    ensures SKey(x) in Fields(t) ==> Fields(t)[SKey(x)] == Fields(ws)[SKey(x)]
  {
    hide Fields, WKey, SKey, WindowIndex, SurfaceIndex, Unique, HoldsSurface, SurfaceValue, RemovesWindow, HolderIndex;
    FieldsHas(ws, x);
    FieldsHas(t, x);
    var i, j := HolderIndex(ws, x), HolderIndex(t, x);
    if j >= 0 {
      var id := t[j].id;
      LookupAt(t, j);
      SurfaceFieldVia(t, j, x);
      assert Lookup(t, id) == ReturnedView(ops, id, Lookup(ws, id));
      var k := WindowIndex(ws, id);
      assert !RemovesWindow(ops, id) by { if RemovesWindow(ops, id) { NoSurfaceHeld(t[j], x); } }
      SameSurfaces(t[j], ws[k], x);
      SurfaceFieldVia(ws, k, x);
    } else if i >= 0 && !Lost(ws, ops, x) {
      var id := ws[i].id;
      LookupAt(ws, i);
      assert Lookup(t, id) == ReturnedView(ops, id, Lookup(ws, id));
      var k := WindowIndex(t, id);
      SameSurfaces(ws[i], t[k], x);
    }
  }

  lemma NoSurfaceHeld(w: WindowSpec, x: string)
    requires w.surfaces == []
    ensures !HoldsSurface(w, x)
  {
  }

  lemma SameSurfaces(v: WindowSpec, w: WindowSpec, x: string)
    requires v.surfaces == w.surfaces
    ensures HoldsSurface(v, x) <==> HoldsSurface(w, x)
  {
  }

  // ---- the plan order puts surfaces first -----------------------------------------------------

  /** Where the window operations of a plan start. */
  function Boundary(ops: seq<RestoreOp>): nat
    ensures Boundary(ops) <= |ops|
  {
    if ops == [] || !OnSurface(ops[0]) then 0 else 1 + Boundary(ops[1..])
  }

  lemma {:induction false} PlanOrder(ops: seq<RestoreOp>)
    requires SortedByField(ops)
    requires forall j :: 0 <= j < |ops| ==> WellFormed(ops[j])
    ensures SurfaceOps(ops[..Boundary(ops)]) && WindowOps(ops[Boundary(ops)..])
  {
    hide WellFormed;
    if ops != [] {
      var t := ops[1..];
      assert forall j :: 0 <= j < |t| ==> t[j] == ops[j + 1];
      if OnSurface(ops[0]) {
        PlanOrder(t);
        assert ops[..Boundary(ops)] == [ops[0]] + t[..Boundary(t)];
        assert ops[Boundary(ops)..] == t[Boundary(t)..];
      } else {
        forall j | 0 <= j < |ops| ensures OnWindow(ops[j]) {
          WindowStays(ops[0], ops[j], j);
        }
      }
    }
  }

  lemma WindowStays(first: RestoreOp, op: RestoreOp, j: nat)
    requires WellFormed(first) && WellFormed(op) && !OnSurface(first)
    requires j > 0 ==> Less(first.field, op.field)
    requires j == 0 ==> first == op
    ensures OnWindow(op)
  {
    if OnSurface(op) {
      OpField(first);
      OpField(op);
      SurfacesFirst(Part(op), Part(first));
      LessAsymmetric(first.field, op.field);
    }
  }

  lemma SortedDistinct(ops: seq<RestoreOp>)
    requires SortedByField(ops)
    ensures DistinctFields(ops)
  {
    hide Less;
    forall j, k | 0 <= j < k < |ops| ensures ops[j].field != ops[k].field {
      LessIrreflexive(ops[j].field);
    }
  }

  // ---- main results ---------------------------------------------------------------------------

  /** The stages of applying and undoing: after the surfaces, after all, after the windows are back. */
  datatype Stages = Stages(surfaced: WorkspaceState, applied: WorkspaceState, returned: WorkspaceState, undone: WorkspaceState)

  lemma RemovalPresent(op: RestoreOp, fields: map<string, string>)
    requires WellFormed(op) && Matches(op, fields) && op.after == ""
    ensures op.field in fields
  {
    hide OnSurface, OnWindow;
  }

  /** The two parts of a current plan: surface operations, then window operations, all still matching. */
  lemma TwoParts(ws: WorkspaceState, ops: seq<RestoreOp>)
    requires Current(ops, Fields(ws))
    ensures var k := Boundary(ops);
            && SurfaceOps(ops[..k]) && WindowOps(ops[k..]) && DistinctFields(ops) && DistinctFields(ops[..k]) && DistinctFields(ops[k..])
            && AllMatch(ops[..k], Fields(ws)) && AllMatch(ops[k..], Fields(ws))
            && (forall j :: 0 <= j < k && ops[..k][j].after == "" ==> ops[..k][j].field in Fields(ws))
            && ops == ops[..k] + ops[k..]
  {
    hide Fields, Less, OnSurface, OnWindow, Part, WellFormed, Matches, Boundary, SurfaceOps, WindowOps;
    var k := Boundary(ops);
    var sops, wops := ops[..k], ops[k..];
    PlanOrder(ops);
    SortedDistinct(ops);
    forall j | 0 <= j < |sops| ensures Matches(sops[j], Fields(ws)) && (sops[j].after == "" ==> sops[j].field in Fields(ws)) {
      assert sops[j] == ops[j];
      if ops[j].after == "" { RemovalPresent(ops[j], Fields(ws)); }
    }
    forall j | 0 <= j < |wops| ensures Matches(wops[j], Fields(ws)) { assert wops[j] == ops[k + j]; }
  }

  /** After the surface operations every window is still as the window operations recorded it. */
  lemma FirstStage(ws: WorkspaceState, ops: seq<RestoreOp>) returns (surfaced: WorkspaceState)
    requires Unique(ws) && ws != [] && Current(ops, Fields(ws))
    ensures ApplyOps(ws, ops[..Boundary(ops)]) == Edited(surfaced)
    ensures Unique(surfaced) && SameFrame(ws, surfaced) && SameUnnamed(ws, surfaced, ops)
    ensures Fields(surfaced) == Patch(Fields(ws), ops[..Boundary(ops)])
    ensures forall j :: 0 <= j < |ops[Boundary(ops)..]| ==> MatchesWindow(ops[Boundary(ops)..][j], surfaced)
  {
    hide Fields, Unique, Less, WKey, HoldsSurface, OnSurface, OnWindow, Part, ApplyOne, ApplyOps, Lookup, Current, Patch, SameFrame, Matches, DistinctFields, MatchesWindow, Named;
    var k := Boundary(ops);
    var sops, wops := ops[..k], ops[k..];
    TwoParts(ws, ops);
    ApplySurfaces(ws, sops);
    surfaced := ApplyOps(ws, sops).state;
    assert SameUnnamed(ws, surfaced, ops) by { NamedPrefix(ops, k); }
    forall j | 0 <= j < |wops| ensures MatchesWindow(wops[j], surfaced) { FrameMatches(ws, surfaced, wops[j]); }
  }

  lemma RunStages(ws: WorkspaceState, ops: seq<RestoreOp>) returns (st: Stages)
    requires Unique(ws) && ws != [] && Current(ops, Fields(ws))
    ensures ApplyOps(ws, ops) == Edited(st.applied) && UndoOps(st.applied, ops) == Edited(st.undone)
    ensures Unique(st.surfaced) && Unique(st.returned) && Unique(st.undone) && Unique(st.applied)
    ensures SameFrame(ws, st.surfaced) && SameUnnamed(ws, st.surfaced, ops)
    ensures Fields(st.surfaced) == Patch(Fields(ws), ops[..Boundary(ops)])
    ensures forall x :: Lookup(st.returned, x) == ReturnedView(ops, x, Lookup(st.surfaced, x))
    ensures forall f :: Agree(Fields(st.undone), if Named(ops[..Boundary(ops)], f) then Fields(ws) else Fields(st.returned), f)
  {
    hide Fields, Unique, Less, WKey, HoldsSurface, OnSurface, OnWindow, Part, ApplyOne, UndoOne, WindowIndex, Lookup, ApplyOps, UndoOps,
         Current, Patch, SameUnnamed, Matches, WellFormed, DistinctFields, MatchesWindow, Agree, ReturnedView, Named, Boundary;
    var k := Boundary(ops);
    var sops, wops := ops[..k], ops[k..];
    TwoParts(ws, ops);
    var surfaced := FirstStage(ws, ops);
    WindowsThereAndBack(surfaced, wops);
    var applied := ApplyOps(surfaced, wops).state;
    ApplyAppend(ws, sops, wops);
    var returned := UndoOps(applied, wops).state;
    forall x ensures Lookup(returned, x) == ReturnedView(ops, x, Lookup(surfaced, x)) {
      RemovesSuffix(ops, k, x);
      ReturnedSame(ops, wops, x, Lookup(surfaced, x));
    }
    SameWindows(surfaced, returned, ops);
    forall j | 0 <= j < |sops| && !sops[j].beforeAbsent ensures '~' in sops[j].before { SurfaceBefore(ws, sops[j]); }
    UndoSurfaces(returned, sops, Fields(ws));
    var undone := UndoOps(returned, sops).state;
    UndoAppend(applied, sops, wops);
    st := Stages(surfaced, applied, returned, undone);
  }

  lemma ReturnedSame(a: seq<RestoreOp>, b: seq<RestoreOp>, id: string, v: Option<WindowView>)
    requires RemovesWindow(a, id) <==> RemovesWindow(b, id)
    ensures ReturnedView(a, id, v) == ReturnedView(b, id, v)
  {
  }

  lemma NamedPrefix(ops: seq<RestoreOp>, k: nat)
    requires k <= |ops|
    ensures forall f :: Named(ops[..k], f) ==> Named(ops, f)
  {
    forall f | Named(ops[..k], f) ensures Named(ops, f) {
      var j :| 0 <= j < k && ops[..k][j].field == f;
      assert ops[j].field == f;
    }
  }

  lemma RemovesSuffix(ops: seq<RestoreOp>, k: nat, x: string)
    requires k <= |ops| && SurfaceOps(ops[..k])
    ensures RemovesWindow(ops[k..], x) <==> RemovesWindow(ops, x)
  {
    hide WKey, OnSurface, OnWindow, Part, WellFormed;
    if RemovesWindow(ops[k..], x) {
      var j :| 0 <= j < |ops[k..]| && ops[k..][j].field == WKey(x) && ops[k..][j].after == "";
      assert ops[k + j] == ops[k..][j];
    }
    if RemovesWindow(ops, x) {
      var j :| 0 <= j < |ops| && ops[j].field == WKey(x) && ops[j].after == "";
      if j < k {
        assert ops[..k][j] == ops[j];
        OpField(ops[j]);
        KeyInjective(x, Part(ops[j]));
      }
      assert ops[k..][j - k] == ops[j];
    }
  }

  /** Surface operations leave every recorded window value as it is. */
  lemma FrameMatches(ws: WorkspaceState, s: WorkspaceState, op: RestoreOp)
    requires Unique(ws) && Unique(s) && SameFrame(ws, s) && OnWindow(op) && Matches(op, Fields(ws))
    ensures MatchesWindow(op, s)
  {
    hide Fields, HoldsSurface, WKey, OnWindow, WindowIndex;
    OpField(op);
    var id := Part(op);
    WindowFieldVia(ws, id);
    var i, j := WindowIndex(ws, id), WindowIndex(s, id);
    if i >= 0 { assert s[i].id == id; }
    if j >= 0 { assert ws[j].id == id; }
  }

  lemma SameWindows(a: WorkspaceState, b: WorkspaceState, ops: seq<RestoreOp>)
    requires a != [] && Unique(a)
    requires forall x :: Lookup(b, x) == ReturnedView(ops, x, Lookup(a, x))
    ensures b != []
  {
    LookupAt(a, 0);
    assert Lookup(b, a[0].id) == ReturnedView(ops, a[0].id, Lookup(a, a[0].id));
  }

  lemma SurfaceBefore(ws: WorkspaceState, op: RestoreOp)
    requires Unique(ws) && OnSurface(op) && Matches(op, Fields(ws)) && !op.beforeAbsent
    ensures '~' in op.before
  {
    hide Fields, Unique, HoldsSurface, SKey, OnSurface, HolderIndex, SurfaceIndex;
    OpField(op);
    var x := Part(op);
    FieldsHas(ws, x);
    SurfaceFieldVia(ws, HolderIndex(ws, x), x);
  }

  lemma FrameLost(ws: WorkspaceState, s: WorkspaceState, ops: seq<RestoreOp>, x: string)
    requires Unique(ws) && Unique(s) && SameFrame(ws, s) && SameUnnamed(ws, s, ops) && !Named(ops, SKey(x))
    ensures Lost(ws, ops, x) <==> Lost(s, ops, x)
  {
    hide HoldsSurface, SKey, HolderIndex, RemovesWindow;
    var i, j := HolderIndex(ws, x), HolderIndex(s, x);
    if i >= 0 { assert HoldsSurface(s[i], x); }
    if j >= 0 { assert HoldsSurface(ws[j], x); }
  }

  /** Undone, a surface field is as before unless the plan leaves it alone and removes its window. */
  lemma SurfaceUndone(ws: WorkspaceState, ops: seq<RestoreOp>, st: Stages, x: string)
    requires Unique(ws) && ws != [] && Current(ops, Fields(ws))
    requires Unique(st.surfaced) && Unique(st.returned)
    requires SameFrame(ws, st.surfaced) && SameUnnamed(ws, st.surfaced, ops)
    requires Fields(st.surfaced) == Patch(Fields(ws), ops[..Boundary(ops)])
    requires forall x :: Lookup(st.returned, x) == ReturnedView(ops, x, Lookup(st.surfaced, x))
    requires forall f :: Agree(Fields(st.undone), if Named(ops[..Boundary(ops)], f) then Fields(ws) else Fields(st.returned), f)
    ensures Agree(Fields(st.undone), Fields(ws), SKey(x)) <==> Named(ops, SKey(x)) || !Lost(ws, ops, x)
  {
    hide Fields, Unique, HoldsSurface, SKey, WKey, OnSurface, OnWindow, HolderIndex, Less, Lookup, Part, RemovesWindow;
    var k := Boundary(ops);
    var sops := ops[..k];
    var f := SKey(x);
    assert Agree(Fields(st.undone), if Named(sops, f) then Fields(ws) else Fields(st.returned), f);
    SortedDistinct(ops);
    NamedSurface(ops, x);
    PatchAt(Fields(ws), sops, f);
    ReturnedSurface(st.surfaced, st.returned, ops, x);
    FieldsHas(ws, x);
    if !Named(ops, f) {
      FrameLost(ws, st.surfaced, ops, x);
    }
  }

  lemma NamedSurface(ops: seq<RestoreOp>, x: string)
    requires SortedByField(ops)
    requires forall j :: 0 <= j < |ops| ==> WellFormed(ops[j])
    ensures Named(ops, SKey(x)) <==> Named(ops[..Boundary(ops)], SKey(x))
  {
    hide Less, SKey, WKey, OnWindow, OnSurface, Part, WellFormed, SortedByField, Boundary, Named;
    PlanSides(ops);
    NamedParts(ops, Boundary(ops), SKey(x));
    NoneNamed(ops[Boundary(ops)..], SKey(x));
    forall j | Boundary(ops) <= j < |ops| ensures ops[j].field != SKey(x) { KeyInjective(Part(ops[j]), x); }
  }

  /** Before the boundary operations name surfaces, from it on windows. */
  lemma PlanSides(ops: seq<RestoreOp>)
    requires SortedByField(ops)
    requires forall j :: 0 <= j < |ops| ==> WellFormed(ops[j])
    ensures forall j :: 0 <= j < Boundary(ops) ==> ops[j].field == SKey(Part(ops[j]))
    ensures forall j :: Boundary(ops) <= j < |ops| ==> ops[j].field == WKey(Part(ops[j]))
  {
    hide Less, SKey, WKey, OnWindow, OnSurface, Part, WellFormed, SortedByField, Boundary;
    PlanOrder(ops);
    var k := Boundary(ops);
    forall j | 0 <= j < |ops| ensures if j < k then ops[j].field == SKey(Part(ops[j])) else ops[j].field == WKey(Part(ops[j])) {
      if j < k { assert ops[..k][j] == ops[j]; } else { assert ops[k..][j - k] == ops[j]; }
      OpField(ops[j]);
    }
  }

  lemma NamedParts(ops: seq<RestoreOp>, k: nat, f: string)
    requires k <= |ops|
    ensures Named(ops, f) <==> Named(ops[..k], f) || Named(ops[k..], f)
  {
    if Named(ops, f) {
      var j :| 0 <= j < |ops| && ops[j].field == f;
      if j < k { assert ops[..k][j] == ops[j]; } else { assert ops[k..][j - k] == ops[j]; }
    }
    if Named(ops[..k], f) {
      var j :| 0 <= j < k && ops[..k][j].field == f;
      assert ops[j].field == f;
    }
    if Named(ops[k..], f) {
      var j :| 0 <= j < |ops[k..]| && ops[k..][j].field == f;
      assert ops[k + j].field == f;
    }
  }

  lemma NoneNamed(ops: seq<RestoreOp>, f: string)
    ensures !Named(ops, f) <==> forall j :: 0 <= j < |ops| ==> ops[j].field != f
  {
  }

  lemma WindowUndone(ws: WorkspaceState, ops: seq<RestoreOp>, st: Stages, id: string)
    requires Unique(ws) && ws != [] && Current(ops, Fields(ws))
    requires Unique(st.surfaced) && Unique(st.returned) && SameFrame(ws, st.surfaced)
    requires forall x :: Lookup(st.returned, x) == ReturnedView(ops, x, Lookup(st.surfaced, x))
    requires forall f :: Agree(Fields(st.undone), if Named(ops[..Boundary(ops)], f) then Fields(ws) else Fields(st.returned), f)
    ensures Agree(Fields(st.undone), Fields(ws), WKey(id))
  {
    hide Fields, HoldsSurface, SKey, WKey, OnSurface, OnWindow, HolderIndex, Less, Part, RemovesWindow, WindowIndex;
    assert Agree(Fields(st.undone), if Named(ops[..Boundary(ops)], WKey(id)) then Fields(ws) else Fields(st.returned), WKey(id));
    WindowFieldVia(ws, id);
    WindowFieldVia(st.returned, id);
    assert Lookup(st.returned, id) == ReturnedView(ops, id, Lookup(st.surfaced, id));
    var i, j := WindowIndex(ws, id), WindowIndex(st.surfaced, id);
    if i >= 0 { assert st.surfaced[i].id == id; }
    if j >= 0 { assert ws[j].id == id; }
  }

  /** Nothing is refused, and undoing gives back every field exactly if the removed windows are covered. */
  lemma UndoInvertsApply(ws: WorkspaceState, ops: seq<RestoreOp>)
    requires Unique(ws) && ws != [] && Current(ops, Fields(ws))
    ensures ApplyOps(ws, ops).Edited? && UndoOps(ApplyOps(ws, ops).state, ops).Edited?
    ensures Fields(UndoOps(ApplyOps(ws, ops).state, ops).state) == Fields(ws) <==> Covered(ws, ops)
    ensures Unique(ApplyOps(ws, ops).state) && Unique(UndoOps(ApplyOps(ws, ops).state, ops).state)
  {
    hide Fields, Unique, SKey, WKey, Less, Named, RemovesWindow, Lookup, SameFrame, SameUnnamed, Current, HoldsSurface, HolderIndex;
    var st := RunStages(ws, ops);
    var before, after := Fields(ws), Fields(st.undone);
    if Covered(ws, ops) {
      forall f ensures Agree(after, before, f) {
        if f in after || f in before {
          if f in after { FieldsOnly(st.undone, f); } else { FieldsOnly(ws, f); }
          var x :| f == WKey(x) || f == SKey(x);
          if f == WKey(x) {
            WindowUndone(ws, ops, st, x);
          } else {
            SurfaceUndone(ws, ops, st, x);
            CoveredNotLost(ws, ops, x);
          }
        }
      }
      AgreeAll(after, before);
    }
    if after == before {
      forall i, x | 0 <= i < |ws| && RemovesWindow(ops, ws[i].id) && HoldsSurface(ws[i], x) ensures Named(ops, SKey(x)) {
        SurfaceUndone(ws, ops, st, x);
        SurfaceFieldVia(ws, i, x);
      }
    }
  }

  lemma CoveredNotLost(ws: WorkspaceState, ops: seq<RestoreOp>, x: string)
    requires Covered(ws, ops)
    ensures Named(ops, SKey(x)) || !Lost(ws, ops, x)
  {
  }

  lemma AgreeAll(a: map<string, string>, b: map<string, string>)
    requires forall f :: Agree(a, b, f)
    ensures a == b
  {
    forall f ensures f in a <==> f in b { assert Agree(a, b, f); }
    forall f | f in a ensures a[f] == b[f] { assert Agree(a, b, f); }
  }
}
