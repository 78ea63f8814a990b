/**
 * Applying operations is merging their after-values into the fields: always as long as no window
 * is removed, in any order; with removals exactly when every removed window is empty by then.
 * A plan built against a target therefore converges to it under that same condition.
 */
module Converge {
  import opened Text
  import opened Topology
  import opened Edits
  import opened Domain
  import opened Reconcile
  import opened Undo

  // ---- where surfaces end up ---------------------------------------------------------

  /** The window that holds the surface after a surface operation. */
  lemma Placement(ws: WorkspaceState, op: RestoreOp)
    requires Unique(ws) && ws != [] && OnSurface(op) && WellFormed(op)
    requires op.after == "" ==> op.field in Fields(ws)
    requires ApplyOne(ws, op).Edited?
    ensures op.after != "" ==>
              HolderIndex(ApplyOne(ws, op).state, Part(op))
              == if HolderIndex(ws, Part(op)) >= 0 then HolderIndex(ws, Part(op)) else |ws| - 1
    ensures op.after == "" ==> HolderIndex(ApplyOne(ws, op).state, Part(op)) < 0
  {
    hide Fields, Unique, SKey, WKey, Cut, HolderIndex, SurfaceIndex, OnSurface, WellFormed, Part;
    ApplySurface(ws, op);
    OpField(op);
    var x := Part(op);
    KeySplit(x);
    FieldsHas(ws, x);
    var s := ApplyOne(ws, op).state;
    FieldsHas(s, x);
    if op.after != "" {
      assert s == SetSurface(ws, x, op.after);
      var i := HolderIndex(ws, x);
      if i >= 0 {
        var k := SurfaceIndex(ws[i].surfaces, x);
        assert s[i].surfaces[k].id == x;
        SurfaceFieldVia(s, i, x);
      } else {
        var n := |ws| - 1;
        assert s[n].surfaces[|ws[n].surfaces|].id == x;
        SurfaceFieldVia(s, n, x);
      }
    }
  }

  /** Index of the window a surface is in after the surface operations; -1 if it is gone. */
  function PlacedAt(ws: WorkspaceState, ops: seq<RestoreOp>, x: string): int {
    if Removes(ops, SKey(x)) then -1
    else if HolderIndex(ws, x) < 0 && Named(ops, SKey(x)) then |ws| - 1
    else HolderIndex(ws, x)
  }

  predicate Removes(ops: seq<RestoreOp>, field: string) {
    exists j :: 0 <= j < |ops| && ops[j].field == field && ops[j].after == ""
  }

  lemma RemovesField(ops: seq<RestoreOp>, j: nat)
    requires DistinctFields(ops) && j < |ops|
    ensures Removes(ops, ops[j].field) <==> ops[j].after == ""
    ensures Named(ops, ops[j].field)
  {
    if Removes(ops, ops[j].field) {
      var k :| 0 <= k < |ops| && ops[k].field == ops[j].field && ops[k].after == "";
      assert k == j;
    }
  }

  lemma RemovesTail(ops: seq<RestoreOp>, f: string)
    requires ops != [] && DistinctFields(ops) && ops[0].field != f
    ensures Removes(ops, f) <==> Removes(ops[1..], f)
    ensures Named(ops, f) <==> Named(ops[1..], f)
  {
    var t := ops[1..];
    NamedCons(ops, f);
    if Removes(ops, f) {
      var j :| 0 <= j < |ops| && ops[j].field == f && ops[j].after == "";
      assert t[j - 1] == ops[j];
    }
    if Removes(t, f) {
      var j :| 0 <= j < |t| && t[j].field == f && t[j].after == "";
      assert ops[j + 1] == t[j];
    }
  }

  lemma {:induction false} SurfacesPlaced(ws: WorkspaceState, ops: seq<RestoreOp>, x: string)
    requires Unique(ws) && ws != [] && SurfaceOps(ops) && DistinctFields(ops)
    requires forall j :: 0 <= j < |ops| && ops[j].after == "" ==> ops[j].field in Fields(ws)
    ensures ApplyOps(ws, ops).Edited?
    ensures HolderIndex(ApplyOps(ws, ops).state, x) == PlacedAt(ws, ops, x)
    decreases |ops|
  {
    hide Fields, Unique, HolderIndex, SKey, ApplyOne, OnSurface, WellFormed, Part, HoldsSurface, Named, Removes;
    if ops == [] {
      assert !Named(ops, SKey(x)) && !Removes(ops, SKey(x)) by { NothingNamed(SKey(x)); }
    } else {
      var op, t := ops[0], ops[1..];
      ApplySurface(ws, op);
      Placement(ws, op);
      var s := ApplyOne(ws, op).state;
      assert forall j :: 0 <= j < |t| ==> t[j] == ops[j + 1];
      SurfacesPlaced(s, t, x);
      OpField(op);
      if Part(op) == x {
        RemovesField(ops, 0);
        assert !Named(t, SKey(x)) && !Removes(t, SKey(x)) by { NotInTail(ops); }
      } else {
        KeyInjective(Part(op), x);
        RemovesTail(ops, SKey(x));
        SameHolder(ws, s, x, Part(op));
      }
    }
  }

  lemma NothingNamed(f: string)
    ensures !Named([], f) && !Removes([], f)
  {
  }

  lemma NotInTail(ops: seq<RestoreOp>)
    requires DistinctFields(ops) && ops != []
    ensures !Named(ops[1..], ops[0].field) && !Removes(ops[1..], ops[0].field)
  {
  }

  lemma SameHolder(a: WorkspaceState, b: WorkspaceState, x: string, other: string)
    requires SameHoldings(a, b, other) && x != other
    ensures HolderIndex(a, x) == HolderIndex(b, x)
  {
    hide HoldsSurface, HolderIndex;
    var i, j := HolderIndex(a, x), HolderIndex(b, x);
    if i >= 0 { assert HoldsSurface(b[i], x); }
    if j >= 0 { assert HoldsSurface(a[j], x); }
  }

  // ---- windows, forward ------------------------------------------------------------------

  lemma {:induction false} WindowsForward(ws: WorkspaceState, ops: seq<RestoreOp>, x: string)
    requires Unique(ws) && WindowOps(ops) && DistinctFields(ops)
    requires forall j :: 0 <= j < |ops| ==> MatchesWindow(ops[j], ws)
    ensures ApplyOps(ws, ops).Edited? && Unique(ApplyOps(ws, ops).state)
    ensures !Named(ops, WKey(x)) ==> Lookup(ApplyOps(ws, ops).state, x) == Lookup(ws, x)
    ensures forall j :: 0 <= j < |ops| && ops[j].field == WKey(x) ==>
              Lookup(ApplyOps(ws, ops).state, x) == AppliedView(ops[j], Lookup(ws, x))
    decreases |ops|
  {
    hide Unique, WKey, ApplyOne, OnWindow, OnSurface, Part, Lookup;
    if ops != [] {
      var op, rest := ops[0], ops[1..];
      ApplyWindow(ws, op);
      forall y { ApplyWindowView(ws, op, y); }
      var s := ApplyOne(ws, op).state;
      assert forall j :: 0 <= j < |rest| ==> rest[j] == ops[j + 1];
      OpField(op);
      forall j | 0 <= j < |rest| ensures Part(rest[j]) != Part(op) && MatchesWindow(rest[j], s) { OpField(rest[j]); }
      WindowsForward(s, rest, x);
      KeyInjective(x, Part(op));
      NamedCons(ops, WKey(x));
      forall j | 0 <= j < |ops| && ops[j].field == WKey(x)
        ensures Lookup(ApplyOps(ws, ops).state, x) == AppliedView(ops[j], Lookup(ws, x))
      {
        if j > 0 { assert rest[j - 1] == ops[j]; }
        else { assert !Named(rest, WKey(x)) by { NotInTail(ops); } }
      }
    }
  }

  // ---- main results -----------------------------------------------------------------------

  /**
   * Every window the operations remove is emptied by them first: each of its surfaces is removed,
   * and if it is the last window no surface is added.
   */
  ghost predicate Clears(ws: WorkspaceState, ops: seq<RestoreOp>) {
    forall i :: 0 <= i < |ws| && RemovesWindow(ops, ws[i].id) ==>
      && (forall x :: HoldsSurface(ws[i], x) ==> Removes(ops, SKey(x)))
      && (i == |ws| - 1 ==> forall j :: 0 <= j < |ops| && OnSurface(ops[j]) ==> !ops[j].beforeAbsent)
  }

  /** The surface, if it is still there after the surface operations, sits in a window that stays. */
  predicate Stays(ws: WorkspaceState, ops: seq<RestoreOp>, x: string) {
    var i := PlacedAt(ws, ops, x);
    0 <= i < |ws| ==> !RemovesWindow(ops, ws[i].id)
  }

  lemma StaysAt(ws: WorkspaceState, ops: seq<RestoreOp>, x: string)
    requires forall y :: Stays(ws, ops, y)
    ensures Stays(ws, ops, x)
  {
  }

  lemma ClearsPlaced(ws: WorkspaceState, ops: seq<RestoreOp>)
    requires Unique(ws) && ws != [] && Current(ops, Fields(ws))
    ensures Clears(ws, ops) <==> forall x :: Stays(ws, ops, x)
  {
    hide Fields, HolderIndex, SKey, WKey, Less, OnSurface, OnWindow, HoldsSurface, RemovesWindow, Removes, Part;
    SortedDistinct(ops);
    if Clears(ws, ops) {
      forall x ensures Stays(ws, ops, x) {
        if PlacedAt(ws, ops, x) >= 0 && HolderIndex(ws, x) < 0 {
          var j :| 0 <= j < |ops| && ops[j].field == SKey(x);
          OpField(ops[j]);
          KeyInjective(Part(ops[j]), x);
          FieldsHas(ws, x);
        }
      }
    }
    if forall x :: Stays(ws, ops, x) {
      forall i | 0 <= i < |ws| && RemovesWindow(ops, ws[i].id)
        ensures forall x :: HoldsSurface(ws[i], x) ==> Removes(ops, SKey(x))
        ensures i == |ws| - 1 ==> forall j :: 0 <= j < |ops| && OnSurface(ops[j]) ==> !ops[j].beforeAbsent
      {
        forall x | HoldsSurface(ws[i], x) ensures Removes(ops, SKey(x)) {
          SurfaceFieldVia(ws, i, x);
          StaysAt(ws, ops, x);
        }
        forall j | i == |ws| - 1 && 0 <= j < |ops| && OnSurface(ops[j]) ensures !ops[j].beforeAbsent {
          if ops[j].beforeAbsent {
            var x := Part(ops[j]);
            OpField(ops[j]);
            RemovesField(ops, j);
            FieldsHas(ws, x);
            StaysAt(ws, ops, x);
          }
        }
      }
    }
  }

  lemma AppliedSurface(ws: WorkspaceState, applied: WorkspaceState, ops: seq<RestoreOp>, x: string)
    requires Unique(ws) && Unique(applied)
    requires forall id :: RemovesWindow(ops, id) ==> Lookup(applied, id) == None
    requires forall id :: !RemovesWindow(ops, id) ==>
               (Lookup(ws, id).Some? ==> Lookup(applied, id).Some? && Lookup(applied, id).value.surfaces == Lookup(ws, id).value.surfaces)
               && (Lookup(ws, id).None? && Lookup(applied, id).Some? ==> Lookup(applied, id).value.surfaces == [])
    ensures SKey(x) in Fields(applied) <==> SKey(x) in Fields(ws) && !Lost(ws, ops, x)
    ensures SKey(x) in Fields(applied) ==> Fields(applied)[SKey(x)] == Fields(ws)[SKey(x)]
  {
    hide Fields, WKey, SKey, WindowIndex, SurfaceIndex, Unique, HoldsSurface, SurfaceValue, RemovesWindow, HolderIndex;
    FieldsHas(ws, x);
    FieldsHas(applied, x);
    var i, j := HolderIndex(ws, x), HolderIndex(applied, x);
    if j >= 0 {
      var id := applied[j].id;
      LookupAt(applied, j);
      SurfaceFieldVia(applied, j, x);
      var k := WindowIndex(ws, id);
      assert !RemovesWindow(ops, id);
      if k < 0 { NoSurfaceHeld(applied[j], x); }
      SameSurfaces(applied[j], ws[k], x);
      SurfaceFieldVia(ws, k, x);
    } else if i >= 0 && !Lost(ws, ops, x) {
      var id := ws[i].id;
      LookupAt(ws, i);
      var k := WindowIndex(applied, id);
      SameSurfaces(ws[i], applied[k], x);
    }
  }

  /** The state reached, stage by stage. */
  lemma ApplyStages(ws: WorkspaceState, ops: seq<RestoreOp>) returns (surfaced: WorkspaceState, applied: WorkspaceState)
    requires Unique(ws) && ws != [] && Current(ops, Fields(ws))
    ensures ApplyOps(ws, ops) == Edited(applied) && Unique(surfaced) && Unique(applied) && SameFrame(ws, surfaced)
    ensures Fields(surfaced) == Patch(Fields(ws), ops[..Boundary(ops)])
    ensures forall x :: HolderIndex(surfaced, x) == PlacedAt(ws, ops, x)
    ensures forall x :: WindowOutcome(ops, Lookup(surfaced, x), Lookup(applied, x), x)
  {
    hide Fields, Unique, Less, WKey, SKey, HoldsSurface, HolderIndex, OnSurface, OnWindow, Part, ApplyOne, WindowIndex, Lookup, Named, Removes,
         ApplyOps, Current, Patch, SameUnnamed, SameFrame, Matches, DistinctFields, MatchesWindow, PlacedAt, Boundary;
    var k := Boundary(ops);
    var sops, wops := ops[..k], ops[k..];
    TwoParts(ws, ops);
    surfaced := FirstStage(ws, ops);
    ApplyAppend(ws, sops, wops);
    PlanFacts(ops, Fields(ws));
    forall x ensures HolderIndex(surfaced, x) == PlacedAt(ws, ops, x) {
      SurfacesPlaced(ws, sops, x);
      NamedSurface(ops, x);
      RemovesSurface(ops, x);
      PlacedSame(ws, sops, ops, x);
    }
    WindowsForward(surfaced, wops, "");
    applied := ApplyOps(surfaced, wops).state;
    forall x ensures WindowOutcome(ops, Lookup(surfaced, x), Lookup(applied, x), x) {
      WindowsForward(surfaced, wops, x);
      NamedWindow(ops, x);
      forall j | 0 <= j < |ops| && ops[j].field == WKey(x)
        ensures Lookup(applied, x) == AppliedView(ops[j], Lookup(surfaced, x))
      {
        assert wops[j - k] == ops[j];
      }
    }
  }

  lemma PlanFacts(ops: seq<RestoreOp>, fields: map<string, string>)
    requires Current(ops, fields)
    ensures SortedByField(ops) && forall j :: 0 <= j < |ops| ==> WellFormed(ops[j])
  {
    hide Less, WellFormed;
  }

  lemma PlacedSame(ws: WorkspaceState, a: seq<RestoreOp>, b: seq<RestoreOp>, x: string)
    requires (Named(a, SKey(x)) <==> Named(b, SKey(x))) && (Removes(a, SKey(x)) <==> Removes(b, SKey(x)))
    ensures PlacedAt(ws, a, x) == PlacedAt(ws, b, x)
  {
    hide HolderIndex, SKey, Named, Removes;
  }

  /** What the operations make of one window. */
  ghost predicate WindowOutcome(ops: seq<RestoreOp>, before: Option<WindowView>, after: Option<WindowView>, id: string) {
    && (!Named(ops, WKey(id)) ==> after == before)
    && (forall j :: 0 <= j < |ops| && ops[j].field == WKey(id) ==> after == AppliedView(ops[j], before))
  }

  lemma RemovesParts(ops: seq<RestoreOp>, k: nat, f: string)
    requires k <= |ops|
    ensures Removes(ops, f) <==> Removes(ops[..k], f) || Removes(ops[k..], f)
    ensures Removes(ops[k..], f) ==> Named(ops[k..], f)
  {
    if Removes(ops, f) {
      var j :| 0 <= j < |ops| && ops[j].field == f && ops[j].after == "";
      if j < k { assert ops[..k][j] == ops[j]; } else { assert ops[k..][j - k] == ops[j]; }
    }
    if Removes(ops[..k], f) {
      var j :| 0 <= j < k && ops[..k][j].field == f && ops[..k][j].after == "";
      assert ops[j].field == f;
    }
    if Removes(ops[k..], f) {
      var j :| 0 <= j < |ops[k..]| && ops[k..][j].field == f && ops[k..][j].after == "";
      assert ops[k + j].field == f;
    }
  }

  lemma RemovesSurface(ops: seq<RestoreOp>, x: string)
    requires SortedByField(ops)
    requires forall j :: 0 <= j < |ops| ==> WellFormed(ops[j])
    ensures Removes(ops, SKey(x)) <==> Removes(ops[..Boundary(ops)], SKey(x))
  {
    hide Less, SKey, WKey, OnWindow, OnSurface, Part, WellFormed, SortedByField, Boundary, Named, Removes;
    PlanSides(ops);
    RemovesParts(ops, Boundary(ops), SKey(x));
    NoneNamed(ops[Boundary(ops)..], SKey(x));
    forall j | Boundary(ops) <= j < |ops| ensures ops[j].field != SKey(x) { KeyInjective(Part(ops[j]), x); }
  }

  lemma NamedWindow(ops: seq<RestoreOp>, x: string)
    requires SortedByField(ops)
    requires forall j :: 0 <= j < |ops| ==> WellFormed(ops[j])
    ensures Named(ops, WKey(x)) <==> Named(ops[Boundary(ops)..], WKey(x))
    ensures forall j :: 0 <= j < Boundary(ops) ==> ops[j].field != WKey(x)
  {
    hide Less, SKey, WKey, OnWindow, OnSurface, Part, WellFormed, SortedByField, Boundary, Named;
    PlanSides(ops);
    NamedParts(ops, Boundary(ops), WKey(x));
    NoneNamed(ops[..Boundary(ops)], WKey(x));
    forall j | 0 <= j < Boundary(ops) ensures ops[j].field != WKey(x) { KeyInjective(x, Part(ops[j])); }
  }

  lemma SurfacePatch(fields: map<string, string>, ops: seq<RestoreOp>, x: string)
    requires SortedByField(ops)
    requires forall j :: 0 <= j < |ops| ==> WellFormed(ops[j])
    ensures Agree(Patch(fields, ops), Patch(fields, ops[..Boundary(ops)]), SKey(x))
  {
    hide Less, SKey, WKey, OnWindow, OnSurface, Part, WellFormed;
    var k := Boundary(ops);
    SortedDistinct(ops);
    NamedSurface(ops, x);
    PatchAt(fields, ops, SKey(x));
    PatchAt(fields, ops[..k], SKey(x));
    if Named(ops[..k], SKey(x)) {
      var j :| 0 <= j < |ops[..k]| && ops[..k][j].field == SKey(x);
      assert ops[j] == ops[..k][j];
    }
  }

  lemma WindowPatched(ws: WorkspaceState, surfaced: WorkspaceState, applied: WorkspaceState, ops: seq<RestoreOp>, id: string)
    requires Unique(ws) && Unique(surfaced) && Unique(applied) && SameFrame(ws, surfaced) && Current(ops, Fields(ws))
    requires WindowOutcome(ops, Lookup(surfaced, id), Lookup(applied, id), id)
    ensures Agree(Fields(applied), Patch(Fields(ws), ops), WKey(id))
  {
    hide Fields, HoldsSurface, SKey, WKey, OnSurface, OnWindow, HolderIndex, Less, Part, WindowIndex;
    SortedDistinct(ops);
    WindowFieldVia(ws, id);
    WindowFieldVia(applied, id);
    PatchAt(Fields(ws), ops, WKey(id));
    var i, j := WindowIndex(ws, id), WindowIndex(surfaced, id);
    if i >= 0 { assert surfaced[i].id == id; }
    if j >= 0 { assert ws[j].id == id; }
  }

  lemma OutcomesForSurfaces(surfaced: WorkspaceState, applied: WorkspaceState, ops: seq<RestoreOp>)
    requires DistinctFields(ops)
    requires forall id :: WindowOutcome(ops, Lookup(surfaced, id), Lookup(applied, id), id)
    ensures forall id :: RemovesWindow(ops, id) ==> Lookup(applied, id) == None
    ensures forall id :: !RemovesWindow(ops, id) ==>
              (Lookup(surfaced, id).Some? ==> Lookup(applied, id).Some? && Lookup(applied, id).value.surfaces == Lookup(surfaced, id).value.surfaces)
              && (Lookup(surfaced, id).None? && Lookup(applied, id).Some? ==> Lookup(applied, id).value.surfaces == [])
  {
    hide Lookup, WKey;
    forall id
      ensures RemovesWindow(ops, id) ==> Lookup(applied, id) == None
      ensures !RemovesWindow(ops, id) ==>
                (Lookup(surfaced, id).Some? ==> Lookup(applied, id).Some? && Lookup(applied, id).value.surfaces == Lookup(surfaced, id).value.surfaces)
                && (Lookup(surfaced, id).None? && Lookup(applied, id).Some? ==> Lookup(applied, id).value.surfaces == [])
    {
      assert WindowOutcome(ops, Lookup(surfaced, id), Lookup(applied, id), id);
    }
  }

  /** Applying is merging, exactly if the operations clear every window they remove. */
  lemma ApplyMerges(ws: WorkspaceState, ops: seq<RestoreOp>)
    requires Unique(ws) && ws != [] && Current(ops, Fields(ws))
    ensures ApplyOps(ws, ops).Edited?
    ensures Fields(ApplyOps(ws, ops).state) == Patch(Fields(ws), ops) <==> Clears(ws, ops)
  {
    hide Fields, Unique, SKey, WKey, Less, Lookup, HoldsSurface, HolderIndex, RemovesWindow, Removes, Named, PlacedAt, Clears, WindowOutcome;
    var surfaced, applied := ApplyStages(ws, ops);
    var after, merged := Fields(applied), Patch(Fields(ws), ops);
    SortedDistinct(ops);
    ClearsPlaced(ws, ops);
    forall x ensures Agree(after, merged, SKey(x)) <==> Stays(ws, ops, x) {
      SurfaceMerged(ws, surfaced, applied, ops, x);
    }
    if Clears(ws, ops) {
      forall f ensures Agree(after, merged, f) {
        if f in after {
          FieldsOnly(applied, f);
          var x :| f == WKey(x) || f == SKey(x);
          if f == WKey(x) { WindowPatched(ws, surfaced, applied, ops, x); }
        } else if f in merged {
          MergedOnly(ws, ops, f);
          var x :| f == WKey(x) || f == SKey(x);
          if f == WKey(x) { WindowPatched(ws, surfaced, applied, ops, x); }
        }
      }
      AgreeAll(after, merged);
    }
    if after == merged {
      forall x ensures Stays(ws, ops, x) { assert Agree(after, merged, SKey(x)); }
    }
  }

  lemma SurfaceMerged(ws: WorkspaceState, surfaced: WorkspaceState, applied: WorkspaceState, ops: seq<RestoreOp>, x: string)
    requires Unique(ws) && Unique(surfaced) && Unique(applied) && SameFrame(ws, surfaced) && Current(ops, Fields(ws))
    requires Fields(surfaced) == Patch(Fields(ws), ops[..Boundary(ops)])
    requires HolderIndex(surfaced, x) == PlacedAt(ws, ops, x)
    requires forall id :: WindowOutcome(ops, Lookup(surfaced, id), Lookup(applied, id), id)
    ensures Agree(Fields(applied), Patch(Fields(ws), ops), SKey(x)) <==> Stays(ws, ops, x)
  {
    hide Fields, Unique, SKey, WKey, Less, Lookup, HoldsSurface, HolderIndex, RemovesWindow, PlacedAt, WindowOutcome, OnSurface, OnWindow;
    SortedDistinct(ops);
    OutcomesForSurfaces(surfaced, applied, ops);
    AppliedSurface(surfaced, applied, ops, x);
    SurfacePatch(Fields(ws), ops, x);
    FieldsHas(surfaced, x);
  }

  lemma {:induction false} MergedOnly(ws: WorkspaceState, ops: seq<RestoreOp>, f: string)
    requires Current(ops, Fields(ws)) && f in Patch(Fields(ws), ops)
    ensures exists x :: f == WKey(x) || f == SKey(x)
  {
    hide Fields, SKey, WKey, Less, OnSurface, OnWindow, Part;
    SortedDistinct(ops);
    PatchAt(Fields(ws), ops, f);
    if Named(ops, f) {
      var j :| 0 <= j < |ops| && ops[j].field == f;
      OpField(ops[j]);
    } else {
      FieldsOnly(ws, f);
    }
  }

  // ---- no window removed: any order will do --------------------------------------------------

  lemma {:induction false} ApplyAnyOrder(ws: WorkspaceState, ops: seq<RestoreOp>)
    requires Unique(ws) && DistinctFields(ops) && (ws == [] && ops != [] ==> !OnSurface(ops[0]))
    requires forall j :: 0 <= j < |ops| ==> WellFormed(ops[j])
    requires forall j :: 0 <= j < |ops| && ops[j].after == "" ==> OnSurface(ops[j]) && ops[j].field in Fields(ws)
    ensures ApplyOps(ws, ops).Edited? && Unique(ApplyOps(ws, ops).state)
    ensures Fields(ApplyOps(ws, ops).state) == Patch(Fields(ws), ops)
    decreases |ops|
  {
    hide Fields, Unique, HoldsSurface, SKey, WKey, OnSurface, OnWindow, WellFormed, Part;
    if ops != [] {
      var op, t := ops[0], ops[1..];
      assert forall j :: 0 <= j < |t| ==> t[j] == ops[j + 1];
      if OnSurface(op) {
        ApplySurface(ws, op);
      } else {
        ApplyLayout(ws, op);
      }
      ApplyAnyOrder(ApplyOne(ws, op).state, t);
    }
  }

  lemma ApplyLayout(ws: WorkspaceState, op: RestoreOp)
    requires Unique(ws) && WellFormed(op) && !OnSurface(op) && op.after != ""
    ensures ApplyOne(ws, op).Edited?
    ensures var s := ApplyOne(ws, op).state;
            Unique(s) && s != [] && Fields(s) == Fields(ws)[op.field := op.after]
  {
    hide Fields, Unique, SKey, WKey;
    OpField(op);
    KeySplit(Part(op));
    SetLayoutFields(ws, Part(op), op.after);
    SetLayoutUnique(ws, Part(op), op.after);
  }

  /** The same operations in another order merge into the same fields. */
  lemma PatchOrder(fields: map<string, string>, a: seq<RestoreOp>, b: seq<RestoreOp>)
    requires DistinctFields(a) && DistinctFields(b) && forall op :: op in a <==> op in b
    ensures Patch(fields, a) == Patch(fields, b)
  {
    forall f ensures Agree(Patch(fields, a), Patch(fields, b), f) {
      PatchAt(fields, a, f);
      PatchAt(fields, b, f);
      if Named(a, f) {
        var j :| 0 <= j < |a| && a[j].field == f;
        assert a[j] in b;
        var k :| 0 <= k < |b| && b[k] == a[j];
      } else {
        forall k | 0 <= k < |b| ensures b[k].field != f { assert b[k] in a; }
      }
    }
    AgreeAll(Patch(fields, a), Patch(fields, b));
  }
}
