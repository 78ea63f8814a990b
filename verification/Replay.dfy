/**
 * What applying a selection and undoing it makes of a workspace state in every detail: the order of
 * windows and panes, their index and split too, which the flattening does not carry.
 * (tmh-next/internal/mock/backend.go)
 */
module Replay {
  import opened Text
  import opened Topology
  import opened Edits
  import opened Domain
  import opened Reconcile
  import opened Undo

  // ---- surfaces of one window ---------------------------------------------------------------

  /** The surface with title and directory read from a field value. */
  function Parsed(sf: SurfaceSpec, value: string): SurfaceSpec {
    var (title, rest) := Cut(value, '~');
    sf.(title := title, cwd := if rest.None? then "" else rest.value)
  }

  /** A surface made from a field value: it has no split. */
  function Made(id: string, value: string): SurfaceSpec {
    Parsed(SurfaceSpec(id, "", "", ""), value)
  }

  function Cutout(sfs: seq<SurfaceSpec>, id: string): seq<SurfaceSpec> {
    if sfs == [] then [] else (if sfs[0].id == id then [] else [sfs[0]]) + Cutout(sfs[1..], id)
  }

  function Retitled(sfs: seq<SurfaceSpec>, id: string, value: string): seq<SurfaceSpec> {
    if sfs == [] then [] else [if sfs[0].id == id then Parsed(sfs[0], value) else sfs[0]] + Retitled(sfs[1..], id, value)
  }

  predicate Holds(sfs: seq<SurfaceSpec>, id: string) {
    exists k :: 0 <= k < |sfs| && sfs[k].id == id
  }

  lemma HoldsTail(sfs: seq<SurfaceSpec>, id: string)
    requires sfs != []
    ensures Holds(sfs, id) <==> sfs[0].id == id || Holds(sfs[1..], id)
  {
    if Holds(sfs, id) && sfs[0].id != id {
      var k :| 0 <= k < |sfs| && sfs[k].id == id;
      assert sfs[1..][k - 1] == sfs[k];
    }
    if Holds(sfs[1..], id) {
      var k :| 0 <= k < |sfs[1..]| && sfs[1..][k].id == id;
      assert sfs[k + 1].id == id;
    }
  }

  lemma HoldsIndexed(w: WindowSpec, id: string)
    ensures HoldsSurface(w, id) <==> Holds(w.surfaces, id)
  {
    var k := SurfaceIndex(w.surfaces, id);
    if k >= 0 { assert w.surfaces[k].id == id; }
  }

  lemma {:induction false} NotHeld(sfs: seq<SurfaceSpec>, id: string, value: string)
    requires !Holds(sfs, id)
    ensures Cutout(sfs, id) == sfs && Retitled(sfs, id, value) == sfs
  {
    if sfs != [] {
      HoldsTail(sfs, id);
      NotHeld(sfs[1..], id, value);
    }
  }

  lemma {:induction false} CutoutAppend(a: seq<SurfaceSpec>, b: seq<SurfaceSpec>, id: string)
    ensures Cutout(a + b, id) == Cutout(a, id) + Cutout(b, id)
  {
    if a == [] {
      assert a + b == b;
    } else {
      assert (a + b)[1..] == a[1..] + b;
      CutoutAppend(a[1..], b, id);
    }
  }

  lemma {:induction false} RetitledAppend(a: seq<SurfaceSpec>, b: seq<SurfaceSpec>, id: string, value: string)
    ensures Retitled(a + b, id, value) == Retitled(a, id, value) + Retitled(b, id, value)
  {
    if a == [] {
      assert a + b == b;
    } else {
      assert (a + b)[1..] == a[1..] + b;
      RetitledAppend(a[1..], b, id, value);
    }
  }

  lemma UniqueRest(sfs: seq<SurfaceSpec>, k: nat)
    requires UniqueSurfaces(sfs) && 0 < k < |sfs|
    ensures UniqueSurfaces(sfs[1..]) && sfs[1..][k - 1] == sfs[k] && sfs[0].id != sfs[k].id
  {
  }

  lemma FirstAlone(sfs: seq<SurfaceSpec>)
    requires UniqueSurfaces(sfs) && sfs != []
    ensures !Holds(sfs[1..], sfs[0].id)
  {
  }

  /** Where ids are distinct, touching one surface is touching every surface of that id. */
  lemma {:induction false} OneCut(sfs: seq<SurfaceSpec>, k: nat)
    requires UniqueSurfaces(sfs) && k < |sfs|
    ensures Without(sfs, k) == Cutout(sfs, sfs[k].id)
  {
    hide UniqueSurfaces, Holds;
    var t := sfs[1..];
    if k == 0 {
      FirstAlone(sfs);
      NotHeld(t, sfs[0].id, "");
      assert Without(sfs, 0) == t;
    } else {
      UniqueRest(sfs, k);
      OneCut(t, k - 1);
      assert Without(sfs, k) == [sfs[0]] + Without(t, k - 1);
    }
  }

  lemma {:induction false} OneRetitled(sfs: seq<SurfaceSpec>, k: nat, value: string)
    requires UniqueSurfaces(sfs) && k < |sfs|
    ensures sfs[k := Parsed(sfs[k], value)] == Retitled(sfs, sfs[k].id, value)
  {
    hide Parsed, UniqueSurfaces, Holds;
    var t := sfs[1..];
    if k == 0 {
      FirstAlone(sfs);
      NotHeld(t, sfs[0].id, value);
      assert sfs[0 := Parsed(sfs[0], value)] == [Parsed(sfs[0], value)] + t;
    } else {
      UniqueRest(sfs, k);
      OneRetitled(t, k - 1, value);
      assert sfs[k := Parsed(sfs[k], value)] == [sfs[0]] + t[k - 1 := Parsed(t[k - 1], value)];
    }
  }

  // ---- surfaces of all windows -----------------------------------------------------------------

  function CutAll(ws: WorkspaceState, id: string): WorkspaceState {
    seq(|ws|, i requires 0 <= i < |ws| => ws[i].(surfaces := Cutout(ws[i].surfaces, id)))
  }

  function RetitleAll(ws: WorkspaceState, id: string, value: string): WorkspaceState {
    seq(|ws|, i requires 0 <= i < |ws| => ws[i].(surfaces := Retitled(ws[i].surfaces, id, value)))
  }

  /** The state with surfaces added at the end of its last window. */
  function Appended(ws: WorkspaceState, sfs: seq<SurfaceSpec>): (r: WorkspaceState)
    requires ws != []
    ensures |r| == |ws|
  {
    var last := ws[|ws| - 1];
    ws[|ws| - 1 := last.(surfaces := last.surfaces + sfs)]
  }

  lemma SurfaceEdits(ws: WorkspaceState, id: string, value: string)
    requires Unique(ws) && ws != []
    ensures HasSurface(ws, id) ==> DropSurface(ws, id) == CutAll(ws, id) && SetSurface(ws, id, value) == RetitleAll(ws, id, value)
    ensures !HasSurface(ws, id) ==> CutAll(ws, id) == ws && RetitleAll(ws, id, value) == ws
                                    && SetSurface(ws, id, value) == Appended(ws, [Made(id, value)])
  {
    hide Cut, SurfaceIndex, HolderIndex;
    var i := HolderIndex(ws, id);
    forall j | 0 <= j < |ws| && j != i ensures Cutout(ws[j].surfaces, id) == ws[j].surfaces && Retitled(ws[j].surfaces, id, value) == ws[j].surfaces {
      assert !HoldsSurface(ws[j], id);
      HoldsIndexed(ws[j], id);
      NotHeld(ws[j].surfaces, id, value);
    }
    if i >= 0 {
      UniqueAt(ws, i);
      OneCut(ws[i].surfaces, SurfaceIndex(ws[i].surfaces, id));
      OneRetitled(ws[i].surfaces, SurfaceIndex(ws[i].surfaces, id), value);
    }
  }

  // ---- what one surface operation does to a window ------------------------------------------------

  function Forward(op: RestoreOp, sfs: seq<SurfaceSpec>): seq<SurfaceSpec> {
    if op.after == "" then Cutout(sfs, Part(op)) else Retitled(sfs, Part(op), op.after)
  }

  function Backward(op: RestoreOp, sfs: seq<SurfaceSpec>): seq<SurfaceSpec> {
    if op.beforeAbsent then Cutout(sfs, Part(op)) else Retitled(sfs, Part(op), op.before)
  }

  function AllForward(ops: seq<RestoreOp>, sfs: seq<SurfaceSpec>): seq<SurfaceSpec>
    decreases |ops|
  {
    if ops == [] then sfs else AllForward(ops[1..], Forward(ops[0], sfs))
  }

  function AllBackward(ops: seq<RestoreOp>, sfs: seq<SurfaceSpec>): seq<SurfaceSpec>
    decreases |ops|
  {
    if ops == [] then sfs else Backward(ops[0], AllBackward(ops[1..], sfs))
  }

  /** The surfaces the operations add, in their order. */
  function Additions(ops: seq<RestoreOp>): seq<SurfaceSpec> {
    if ops == [] then [] else (if ops[0].beforeAbsent then [Made(Part(ops[0]), ops[0].after)] else []) + Additions(ops[1..])
  }

  /** The surfaces undo has to make again because this state has lost them: the last operation's first. */
  function Again(ops: seq<RestoreOp>, ws: WorkspaceState): seq<SurfaceSpec> {
    if ops == [] then []
    else Again(ops[1..], ws) +
         (if !ops[0].beforeAbsent && !HasSurface(ws, Part(ops[0])) then [Made(Part(ops[0]), ops[0].before)] else [])
  }

  function EachForward(ops: seq<RestoreOp>, ws: WorkspaceState): (r: WorkspaceState)
    ensures |r| == |ws|
  {
    seq(|ws|, i requires 0 <= i < |ws| => ws[i].(surfaces := AllForward(ops, ws[i].surfaces)))
  }

  function EachBackward(ops: seq<RestoreOp>, ws: WorkspaceState): (r: WorkspaceState)
    ensures |r| == |ws|
  {
    seq(|ws|, i requires 0 <= i < |ws| => ws[i].(surfaces := AllBackward(ops, ws[i].surfaces)))
  }

  predicate Names(ops: seq<RestoreOp>, id: string) {
    exists j :: 0 <= j < |ops| && Part(ops[j]) == id
  }

  lemma NamesCons(ops: seq<RestoreOp>, id: string)
    requires ops != []
    ensures Names(ops, id) <==> Part(ops[0]) == id || Names(ops[1..], id)
  {
    hide Part;
    if Names(ops, id) && Part(ops[0]) != id {
      var j :| 0 <= j < |ops| && Part(ops[j]) == id;
      assert ops[1..][j - 1] == ops[j];
    }
    if Names(ops[1..], id) {
      var j :| 0 <= j < |ops[1..]| && Part(ops[1..][j]) == id;
      assert ops[j + 1] == ops[1..][j];
    }
  }

  lemma ForwardAppend(op: RestoreOp, a: seq<SurfaceSpec>, b: seq<SurfaceSpec>)
    ensures Forward(op, a + b) == Forward(op, a) + Forward(op, b)
    ensures Backward(op, a + b) == Backward(op, a) + Backward(op, b)
  {
    hide Part;
    CutoutAppend(a, b, Part(op));
    RetitledAppend(a, b, Part(op), op.after);
    RetitledAppend(a, b, Part(op), op.before);
  }

  lemma {:induction false} AllForwardAppend(ops: seq<RestoreOp>, a: seq<SurfaceSpec>, b: seq<SurfaceSpec>)
    ensures AllForward(ops, a + b) == AllForward(ops, a) + AllForward(ops, b)
    decreases |ops|
  {
    hide Forward;
    if ops != [] {
      ForwardAppend(ops[0], a, b);
      AllForwardAppend(ops[1..], Forward(ops[0], a), Forward(ops[0], b));
    }
  }

  lemma {:induction false} AllBackwardAppend(ops: seq<RestoreOp>, a: seq<SurfaceSpec>, b: seq<SurfaceSpec>)
    ensures AllBackward(ops, a + b) == AllBackward(ops, a) + AllBackward(ops, b)
    decreases |ops|
  {
    hide Backward;
    if ops != [] {
      AllBackwardAppend(ops[1..], a, b);
      ForwardAppend(ops[0], AllBackward(ops[1..], a), AllBackward(ops[1..], b));
    }
  }

  /** Surfaces no operation names pass through. */
  lemma {:induction false} Passes(ops: seq<RestoreOp>, sfs: seq<SurfaceSpec>)
    requires forall k :: 0 <= k < |sfs| ==> !Names(ops, sfs[k].id)
    ensures AllForward(ops, sfs) == sfs && AllBackward(ops, sfs) == sfs
    decreases |ops|
  {
    hide Part;
    if ops != [] {
      forall k | 0 <= k < |sfs| ensures sfs[k].id != Part(ops[0]) && !Names(ops[1..], sfs[k].id) { NamesCons(ops, sfs[k].id); }
      NotHeld(sfs, Part(ops[0]), ops[0].after);
      NotHeld(sfs, Part(ops[0]), ops[0].before);
      Passes(ops[1..], sfs);
    }
  }

  lemma {:induction false} AdditionsNamed(ops: seq<RestoreOp>)
    ensures forall k :: 0 <= k < |Additions(ops)| ==> Names(ops, Additions(ops)[k].id)
  {
    hide Part, Cut;
    if ops != [] {
      AdditionsNamed(ops[1..]);
      forall k | 0 <= k < |Additions(ops)| ensures Names(ops, Additions(ops)[k].id) { NamesCons(ops, Additions(ops)[k].id); }
    }
  }

  lemma {:induction false} AgainNamed(ops: seq<RestoreOp>, ws: WorkspaceState)
    ensures forall k :: 0 <= k < |Again(ops, ws)| ==> Names(ops, Again(ops, ws)[k].id)
  {
    hide Part, Cut, HasSurface;
    if ops != [] {
      AgainNamed(ops[1..], ws);
      forall k | 0 <= k < |Again(ops, ws)| ensures Names(ops, Again(ops, ws)[k].id) { NamesCons(ops, Again(ops, ws)[k].id); }
    }
  }

  lemma OneOp(op: RestoreOp, sfs: seq<SurfaceSpec>)
    ensures AllForward([op], sfs) == Forward(op, sfs) && AllBackward([op], sfs) == Backward(op, sfs)
  {
    hide Forward, Backward;
    assert [op][1..] == [];
    assert AllForward([], Forward(op, sfs)) == Forward(op, sfs);
    assert AllBackward([op], sfs) == Backward(op, AllBackward([], sfs));
  }

  // ---- the surface operations, forward and back ------------------------------------------------------

  lemma SurfaceApplied(ws: WorkspaceState, op: RestoreOp)
    requires Unique(ws) && ws != [] && OnSurface(op) && WellFormed(op) && Matches(op, Fields(ws))
    ensures op.beforeAbsent <==> !HasSurface(ws, Part(op))
    ensures ApplyOne(ws, op) == Edited(if op.beforeAbsent then Appended(ws, [Made(Part(op), op.after)]) else EachForward([op], ws))
    ensures op.beforeAbsent ==> EachForward([op], ws) == ws
  {
    hide Fields, Unique, SKey, WKey, HolderIndex, Made, Appended;
    OpField(op);
    var x := Part(op);
    KeySplit(x);
    FieldsHas(ws, x);
    SurfaceEdits(ws, x, op.after);
    forall i | 0 <= i < |ws| { OneOp(op, ws[i].surfaces); }
    if op.after == "" {
      assert EachForward([op], ws) == CutAll(ws, x);
    } else {
      assert EachForward([op], ws) == RetitleAll(ws, x, op.after);
    }
  }

  lemma SurfaceTakenBack(ws: WorkspaceState, op: RestoreOp)
    requires Unique(ws) && ws != [] && OnSurface(op) && WellFormed(op)
    ensures UndoOne(ws, op) == Edited(if !op.beforeAbsent && !HasSurface(ws, Part(op)) then Appended(ws, [Made(Part(op), op.before)])
                                      else EachBackward([op], ws))
    ensures !HasSurface(ws, Part(op)) ==> EachBackward([op], ws) == ws
  {
    hide Unique, SKey, WKey, HolderIndex, Made, Appended;
    OpField(op);
    var x := Part(op);
    KeySplit(x);
    SurfaceEdits(ws, x, op.before);
    forall i | 0 <= i < |ws| { OneOp(op, ws[i].surfaces); }
    if op.beforeAbsent {
      assert EachBackward([op], ws) == CutAll(ws, x);
    } else {
      assert EachBackward([op], ws) == RetitleAll(ws, x, op.before);
    }
  }

  lemma OthersUnnamed(ops: seq<RestoreOp>)
    requires SurfaceOps(ops) && DistinctFields(ops) && ops != []
    ensures !Names(ops[1..], Part(ops[0]))
    ensures SurfaceOps(ops[1..]) && DistinctFields(ops[1..])
  {
    hide OnSurface, OnWindow, Part, WellFormed;
    var t := ops[1..];
    assert forall j :: 0 <= j < |t| ==> t[j] == ops[j + 1];
    forall j | 0 <= j < |t| ensures Part(t[j]) != Part(ops[0]) {
      OpField(ops[0]);
      OpField(t[j]);
    }
  }

  lemma ForwardStep(ops: seq<RestoreOp>, ws: WorkspaceState)
    requires ops != []
    ensures EachForward(ops, ws) == EachForward(ops[1..], EachForward([ops[0]], ws))
  {
    hide Forward;
    forall i | 0 <= i < |ws| { OneOp(ops[0], ws[i].surfaces); }
  }

  lemma BackwardStep(ops: seq<RestoreOp>, ws: WorkspaceState)
    requires ops != []
    ensures EachBackward(ops, ws) == EachBackward([ops[0]], EachBackward(ops[1..], ws))
  {
    hide Backward;
    forall i | 0 <= i < |ws| { OneOp(ops[0], AllBackward(ops[1..], ws[i].surfaces)); }
  }

  lemma ForwardAppended(ops: seq<RestoreOp>, ws: WorkspaceState, sfs: seq<SurfaceSpec>)
    requires ws != [] && forall k :: 0 <= k < |sfs| ==> !Names(ops, sfs[k].id)
    ensures EachForward(ops, Appended(ws, sfs)) == Appended(EachForward(ops, ws), sfs)
  {
    hide Names;
    AllForwardAppend(ops, ws[|ws| - 1].surfaces, sfs);
    Passes(ops, sfs);
  }

  lemma BackwardAppended(ops: seq<RestoreOp>, ws: WorkspaceState, sfs: seq<SurfaceSpec>)
    requires ws != [] && forall k :: 0 <= k < |sfs| ==> !Names(ops, sfs[k].id)
    ensures EachBackward(ops, Appended(ws, sfs)) == Appended(EachBackward(ops, ws), sfs)
  {
    hide Names;
    AllBackwardAppend(ops, ws[|ws| - 1].surfaces, sfs);
    Passes(ops, sfs);
  }

  lemma AppendedTwice(ws: WorkspaceState, a: seq<SurfaceSpec>, b: seq<SurfaceSpec>)
    requires ws != []
    ensures Appended(Appended(ws, a), b) == Appended(ws, a + b)
    ensures Appended(ws, []) == ws
  {
    var last := ws[|ws| - 1];
    assert last.surfaces + a + b == last.surfaces + (a + b);
    assert last.surfaces + [] == last.surfaces;
  }

  /** After the surface operations: every window's surfaces carried forward, the additions in the last. */
  lemma {:induction false} SurfacesForward(ws: WorkspaceState, ops: seq<RestoreOp>)
    requires Unique(ws) && ws != [] && SurfaceOps(ops) && DistinctFields(ops) && AllMatch(ops, Fields(ws))
    ensures ApplyOps(ws, ops) == Edited(Appended(EachForward(ops, ws), Additions(ops)))
    decreases |ops|
  {
    hide Fields, Unique, OnSurface, OnWindow, Part, ApplyOne, Appended, Made, Forward, EachForward, Matches, HasSurface, WellFormed, HoldsSurface;
    if ops == [] {
      AppendedTwice(ws, [], []);
      NoForward(ws);
    } else {
      var op, t := ops[0], ops[1..];
      assert Matches(op, Fields(ws));
      SurfaceApplied(ws, op);
      if op.after == "" { RemovalPresent(op, Fields(ws)); }
      ApplySurface(ws, op);
      var s := ApplyOne(ws, op).state;
      OthersUnnamed(ops);
      forall j | 0 <= j < |t| ensures Matches(t[j], Fields(s)) { StillMatches(ops[j + 1], op, Fields(ws), Fields(s)); }
      SurfacesForward(s, t);
      ForwardStep(ops, ws);
      if op.beforeAbsent {
        MadeId(Part(op), op.after);
        ForwardAppended(t, ws, [Made(Part(op), op.after)]);
        AppendedTwice(EachForward(t, ws), [Made(Part(op), op.after)], Additions(t));
      } else {
        assert Additions(ops) == Additions(t);
      }
    }
  }

  lemma NoForward(ws: WorkspaceState)
    ensures EachForward([], ws) == ws && EachBackward([], ws) == ws
  {
  }

  lemma MadeId(id: string, value: string)
    ensures Made(id, value).id == id && Made(id, value).split == ""
  {
  }

  lemma StillMatches(op: RestoreOp, other: RestoreOp, before: map<string, string>, after: map<string, string>)
    requires Matches(op, before) && op.field != other.field
    requires after == if other.after == "" then before - {other.field} else before[other.field := other.after]
    ensures Matches(op, after)
  {
  }

  /** After undoing them: every window's surfaces carried back, those that were lost made again in the last. */
  lemma {:induction false} SurfacesBackward(ws: WorkspaceState, ops: seq<RestoreOp>, fields: map<string, string>)
    requires Unique(ws) && ws != [] && SurfaceOps(ops) && DistinctFields(ops) && AllMatch(ops, fields)
    requires forall j :: 0 <= j < |ops| && !ops[j].beforeAbsent ==> '~' in ops[j].before
    ensures UndoOps(ws, ops) == Edited(Appended(EachBackward(ops, ws), Again(ops, ws)))
    decreases |ops|
  {
    hide Fields, Unique, OnSurface, OnWindow, Part, UndoOne, Appended, Made, Backward, EachBackward, Matches, HasSurface, WellFormed, HoldsSurface;
    if ops == [] {
      AppendedTwice(ws, [], []);
      NoForward(ws);
    } else {
      var op, t := ops[0], ops[1..];
      OthersUnnamed(ops);
      assert forall j :: 0 <= j < |t| ==> t[j] == ops[j + 1];
      SurfacesBackward(ws, t, fields);
      UndoSurfaces(ws, t, fields);
      var s, again := UndoOps(ws, t).state, Again(t, ws);
      StillHas(ws, s, t, op, fields);
      SurfaceTakenBack(s, op);
      BackwardStep(ops, ws);
      var carried := EachBackward(t, ws);
      if !op.beforeAbsent && !HasSurface(ws, Part(op)) {
        AppendedTwice(carried, again, [Made(Part(op), op.before)]);
        AgainNamed(t, ws);
        BackwardAppended([op], carried, again);
        SameHead(EachBackward([op], carried), carried, again);
      } else {
        AgainNamed(t, ws);
        forall k | 0 <= k < |again| ensures !Names([op], again[k].id) { NamesCons([op], again[k].id); }
        BackwardAppended([op], carried, again);
        assert Again(ops, ws) == again;
      }
    }
  }

  lemma SameHead(a: WorkspaceState, b: WorkspaceState, sfs: seq<SurfaceSpec>)
    requires a != [] && b != [] && Appended(a, sfs) == Appended(b, sfs)
    ensures a == b
  {
    var n := |a| - 1;
    var x, y := Appended(a, sfs), Appended(b, sfs);
    assert |a| == |x| == |y| == |b|;
    assert x[n].surfaces == a[n].surfaces + sfs && y[n].surfaces == b[n].surfaces + sfs;
    var k := |a[n].surfaces|;
    assert x[n].surfaces[..k] == a[n].surfaces && y[n].surfaces[..k] == b[n].surfaces;
    assert x[n].(surfaces := a[n].surfaces) == a[n] && y[n].(surfaces := b[n].surfaces) == b[n];
    forall i | 0 <= i < n ensures a[i] == b[i] { assert x[i] == a[i] && y[i] == b[i]; }
  }

  lemma StillHas(ws: WorkspaceState, s: WorkspaceState, ops: seq<RestoreOp>, op: RestoreOp, fields: map<string, string>)
    requires OnSurface(op) && !Names(ops, Part(op)) && SurfaceOps(ops)
    requires forall f :: Agree(Fields(s), if Named(ops, f) then fields else Fields(ws), f)
    ensures HasSurface(s, Part(op)) <==> HasSurface(ws, Part(op))
  {
    hide Fields, SKey, WKey, OnSurface, OnWindow, Part, HolderIndex;
    var x := Part(op);
    if Named(ops, SKey(x)) {
      var j :| 0 <= j < |ops| && ops[j].field == SKey(x);
      OpField(ops[j]);
      KeyInjective(x, Part(ops[j]));
      assert false;
    }
    assert Agree(Fields(s), Fields(ws), SKey(x));
    FieldsHas(s, x);
    FieldsHas(ws, x);
  }

  // ---- windows -------------------------------------------------------------------------------------------

  /** The windows the operations do not remove, as they are. */
  function Kept(ws: WorkspaceState, ops: seq<RestoreOp>): WorkspaceState {
    if ws == [] then [] else (if RemovesWindow(ops, ws[0].id) then [] else [ws[0]]) + Kept(ws[1..], ops)
  }

  /** The windows undo has to make again, given how many others there are: the last operation's first, each at the next index. */
  function Reopened(n: nat, ops: seq<RestoreOp>): WorkspaceState
    decreases |ops|
  {
    if ops == [] then []
    else if ops[0].beforeAbsent then Reopened(n + 1, ops[1..])
    else
      var later := Reopened(n, ops[1..]);
      if ops[0].after == "" then later + [WindowSpec(Part(ops[0]), n + |later|, ops[0].before, [])] else later
  }

  function Dropped(ws: WorkspaceState, id: string): WorkspaceState {
    if ws == [] then [] else (if ws[0].id == id then [] else [ws[0]]) + Dropped(ws[1..], id)
  }

  function Relaid(ws: WorkspaceState, id: string, layout: string): WorkspaceState {
    if ws == [] then [] else [if ws[0].id == id then ws[0].(layout := layout) else ws[0]] + Relaid(ws[1..], id, layout)
  }

  predicate HasId(ws: WorkspaceState, id: string) {
    exists i :: 0 <= i < |ws| && ws[i].id == id
  }

  lemma HasIdTail(ws: WorkspaceState, id: string)
    requires ws != []
    ensures HasId(ws, id) <==> ws[0].id == id || HasId(ws[1..], id)
  {
    if HasId(ws, id) && ws[0].id != id {
      var i :| 0 <= i < |ws| && ws[i].id == id;
      assert ws[1..][i - 1] == ws[i];
    }
    if HasId(ws[1..], id) {
      var i :| 0 <= i < |ws[1..]| && ws[1..][i].id == id;
      assert ws[i + 1].id == id;
    }
  }

  lemma HasIdWindow(ws: WorkspaceState, id: string)
    ensures HasWindow(ws, id) <==> HasId(ws, id)
  {
    var i := WindowIndex(ws, id);
    if i >= 0 { assert ws[i].id == id; }
  }

  lemma {:induction false} NoSuchWindow(ws: WorkspaceState, id: string, layout: string)
    requires !HasId(ws, id)
    ensures Dropped(ws, id) == ws && Relaid(ws, id, layout) == ws
  {
    if ws != [] {
      HasIdTail(ws, id);
      NoSuchWindow(ws[1..], id, layout);
    }
  }

  lemma {:induction false} DroppedAppend(a: WorkspaceState, b: WorkspaceState, id: string)
    ensures Dropped(a + b, id) == Dropped(a, id) + Dropped(b, id)
  {
    if a == [] {
      assert a + b == b;
    } else {
      assert (a + b)[1..] == a[1..] + b;
      DroppedAppend(a[1..], b, id);
    }
  }

  lemma {:induction false} RelaidAppend(a: WorkspaceState, b: WorkspaceState, id: string, layout: string)
    ensures Relaid(a + b, id, layout) == Relaid(a, id, layout) + Relaid(b, id, layout)
  {
    if a == [] {
      assert a + b == b;
    } else {
      assert (a + b)[1..] == a[1..] + b;
      RelaidAppend(a[1..], b, id, layout);
    }
  }

  predicate UniqueIds(ws: WorkspaceState) {
    forall i, j :: 0 <= i < j < |ws| ==> ws[i].id != ws[j].id
  }

  lemma UniqueIdsRest(ws: WorkspaceState, i: nat)
    requires UniqueIds(ws) && i < |ws|
    ensures UniqueIds(ws[1..])
    ensures i == 0 ==> !HasId(ws[1..], ws[0].id)
    ensures i > 0 ==> ws[1..][i - 1] == ws[i] && ws[0].id != ws[i].id
  {
  }

  /** Where ids are distinct, touching one window is touching every window of that id. */
  lemma {:induction false} OneDropped(ws: WorkspaceState, i: nat)
    requires UniqueIds(ws) && i < |ws|
    ensures ws[..i] + ws[i + 1..] == Dropped(ws, ws[i].id)
  {
    hide UniqueIds, HasId;
    var t := ws[1..];
    UniqueIdsRest(ws, i);
    if i == 0 {
      NoSuchWindow(t, ws[0].id, "");
      assert ws[..0] + ws[1..] == t;
    } else {
      OneDropped(t, i - 1);
      assert ws[..i] + ws[i + 1..] == [ws[0]] + (t[..i - 1] + t[i..]);
    }
  }

  lemma {:induction false} OneRelaid(ws: WorkspaceState, i: nat, layout: string)
    requires UniqueIds(ws) && i < |ws|
    ensures ws[i := ws[i].(layout := layout)] == Relaid(ws, ws[i].id, layout)
  {
    hide UniqueIds, HasId;
    var t := ws[1..];
    UniqueIdsRest(ws, i);
    if i == 0 {
      NoSuchWindow(t, ws[0].id, layout);
      assert ws[0 := ws[0].(layout := layout)] == [ws[0].(layout := layout)] + t;
    } else {
      OneRelaid(t, i - 1, layout);
      assert ws[i := ws[i].(layout := layout)] == [ws[0]] + t[i - 1 := ws[i].(layout := layout)];
    }
  }

  lemma WindowEdits(ws: WorkspaceState, id: string, layout: string)
    requires Unique(ws)
    ensures HasId(ws, id) ==> HasWindow(ws, id) && DropWindow(ws, id) == Dropped(ws, id) && SetLayout(ws, id, layout) == Relaid(ws, id, layout)
    ensures !HasId(ws, id) ==> !HasWindow(ws, id) && SetLayout(ws, id, layout) == ws + [WindowSpec(id, |ws|, layout, [])]
  {
    hide HoldsSurface, WindowIndex, HasId;
    HasIdWindow(ws, id);
    var i := WindowIndex(ws, id);
    if i >= 0 {
      OneDropped(ws, i);
      OneRelaid(ws, i, layout);
    }
  }

  /** What one window operation does, forward. */
  lemma WindowApplied(ws: WorkspaceState, op: RestoreOp)
    requires Unique(ws) && OnWindow(op) && WellFormed(op) && MatchesWindow(op, ws)
    ensures op.beforeAbsent <==> !HasId(ws, Part(op))
    ensures ApplyOne(ws, op) == Edited(if op.after == "" then Dropped(ws, Part(op))
                                       else if op.beforeAbsent then ws + [WindowSpec(Part(op), |ws|, op.after, [])]
                                       else Relaid(ws, Part(op), op.after))
  {
    hide Unique, SKey, WKey, WindowIndex, SetLayout, DropWindow, OnWindow, OnSurface, HasId;
    OpField(op);
    var id := Part(op);
    KeySplit(id);
    WindowEdits(ws, id, op.after);
    HasIdWindow(ws, id);
  }

  /** And what undoing it does. */
  lemma WindowTakenBack(ws: WorkspaceState, op: RestoreOp)
    requires Unique(ws) && OnWindow(op) && WellFormed(op)
    ensures UndoOne(ws, op) == Edited(if op.beforeAbsent then Dropped(ws, Part(op))
                                      else if HasId(ws, Part(op)) then Relaid(ws, Part(op), op.before)
                                      else ws + [WindowSpec(Part(op), |ws|, op.before, [])])
  {
    hide Unique, SKey, WKey, WindowIndex, SetLayout, DropWindow, OnWindow, OnSurface, HasId;
    OpField(op);
    var id := Part(op);
    KeySplit(id);
    WindowEdits(ws, id, op.before);
    if !HasId(ws, id) { NoSuchWindow(ws, id, ""); }
  }

  lemma KeptHead(ws: WorkspaceState, ops: seq<RestoreOp>)
    requires ws != []
    ensures RemovesWindow(ops, ws[0].id) ==> Kept(ws, ops) == Kept(ws[1..], ops)
    ensures !RemovesWindow(ops, ws[0].id) ==>
              |Kept(ws, ops)| > 0 && Kept(ws, ops)[0] == ws[0] && Kept(ws, ops)[1..] == Kept(ws[1..], ops)
  {
    hide RemovesWindow;
  }

  lemma {:induction false} KeptRelaid(ws: WorkspaceState, ops: seq<RestoreOp>, id: string, layout: string)
    ensures Kept(Relaid(ws, id, layout), ops) == Relaid(Kept(ws, ops), id, layout)
  {
    hide RemovesWindow;
    if ws != [] {
      KeptRelaid(ws[1..], ops, id, layout);
      var r := Relaid(ws, id, layout);
      assert r[1..] == Relaid(ws[1..], id, layout) && r[0].id == ws[0].id;
      KeptHead(ws, ops);
      KeptHead(r, ops);
    }
  }

  lemma {:induction false} KeptDropped(ws: WorkspaceState, ops: seq<RestoreOp>, id: string)
    ensures Kept(Dropped(ws, id), ops) == Dropped(Kept(ws, ops), id)
  {
    hide RemovesWindow;
    if ws != [] {
      KeptDropped(ws[1..], ops, id);
      KeptHead(ws, ops);
      if ws[0].id != id {
        assert Dropped(ws, id)[1..] == Dropped(ws[1..], id);
        KeptHead(Dropped(ws, id), ops);
      } else {
        assert Dropped(ws, id) == Dropped(ws[1..], id);
      }
    }
  }

  lemma {:induction false} KeptAppend(a: WorkspaceState, b: WorkspaceState, ops: seq<RestoreOp>)
    ensures Kept(a + b, ops) == Kept(a, ops) + Kept(b, ops)
  {
    hide RemovesWindow;
    if a == [] {
      assert a + b == b;
    } else {
      assert (a + b)[1..] == a[1..] + b;
      KeptAppend(a[1..], b, ops);
    }
  }

  /** One more operation keeps all it did, but for the window it removes. */
  lemma {:induction false} KeptCons(ws: WorkspaceState, ops: seq<RestoreOp>)
    requires ops != [] && OnWindow(ops[0])
    ensures Kept(ws, ops) == if ops[0].after == "" then Dropped(Kept(ws, ops[1..]), Part(ops[0])) else Kept(ws, ops[1..])
  {
    hide RemovesWindow, OnWindow, OnSurface, Part, WKey;
    if ws != [] {
      KeptCons(ws[1..], ops);
      RemovesCons(ops, ws[0].id);
      OpField(ops[0]);
      KeyInjective(ws[0].id, Part(ops[0]));
      DroppedAppend(if RemovesWindow(ops[1..], ws[0].id) then [] else [ws[0]], Kept(ws[1..], ops[1..]), Part(ops[0]));
      assert [ws[0]][1..] == [];
    }
  }

  lemma {:induction false} ReopenedNamed(n: nat, ops: seq<RestoreOp>, id: string)
    requires !Names(ops, id)
    ensures !HasId(Reopened(n, ops), id)
    decreases |ops|
  {
    hide Part;
    if ops != [] {
      NamesCons(ops, id);
      ReopenedNamed(n + 1, ops[1..], id);
      ReopenedNamed(n, ops[1..], id);
    }
  }

  lemma {:induction false} KeptWithin(ws: WorkspaceState, ops: seq<RestoreOp>, id: string)
    ensures HasId(Kept(ws, ops), id) <==> HasId(ws, id) && !RemovesWindow(ops, id)
  {
    hide RemovesWindow, HasId;
    if ws == [] {
      assert !HasId([], id) by { NothingHasId(id); }
    } else {
      KeptWithin(ws[1..], ops, id);
      HasIdTail(ws, id);
      if RemovesWindow(ops, ws[0].id) {
        assert Kept(ws, ops) == Kept(ws[1..], ops);
      } else {
        assert Kept(ws, ops)[0] == ws[0] && Kept(ws, ops)[1..] == Kept(ws[1..], ops);
        HasIdTail(Kept(ws, ops), id);
      }
    }
  }

  lemma NothingHasId(id: string)
    ensures !HasId([], id)
  {
  }

  lemma {:induction false} RelaidBack(ws: WorkspaceState, id: string, layout: string, other: string)
    requires forall i :: 0 <= i < |ws| && ws[i].id == id ==> ws[i].layout == layout
    ensures Relaid(Relaid(ws, id, other), id, layout) == ws
  {
    if ws != [] {
      var t := ws[1..];
      assert forall i :: 0 <= i < |t| ==> t[i] == ws[i + 1];
      RelaidBack(t, id, layout, other);
      assert Relaid(ws, id, other)[1..] == Relaid(t, id, other);
    }
  }

  lemma NotRemoved(ops: seq<RestoreOp>, id: string)
    requires WindowOps(ops) && !Names(ops, id)
    ensures !RemovesWindow(ops, id)
  {
    hide OnWindow, OnSurface, Part, WKey, WellFormed;
    if RemovesWindow(ops, id) {
      var j :| 0 <= j < |ops| && ops[j].field == WKey(id) && ops[j].after == "";
      OpField(ops[j]);
      KeyInjective(id, Part(ops[j]));
      assert false;
    }
  }

  /** A window operation that is applied and undone around the others. */
  lemma {:induction false} WindowsBack(ws: WorkspaceState, ops: seq<RestoreOp>)
    requires Unique(ws) && WindowOps(ops) && DistinctFields(ops)
    requires forall j :: 0 <= j < |ops| ==> MatchesWindow(ops[j], ws)
    ensures ApplyOps(ws, ops).Edited?
    ensures UndoOps(ApplyOps(ws, ops).state, ops) == Edited(Kept(ws, ops) + Reopened(|Kept(ws, ops)|, ops))
    decreases |ops|
  {
    hide Unique, WKey, ApplyOne, UndoOne, OnWindow, OnSurface, Part, Lookup, WellFormed, MatchesWindow, HasId, RemovesWindow;
    if ops == [] {
      KeptAll(ws);
    } else {
      var op, rest := ops[0], ops[1..];
      ApplyWindow(ws, op);
      WindowApplied(ws, op);
      forall y { ApplyWindowView(ws, op, y); }
      var s := ApplyOne(ws, op).state;
      OthersOnWindows(ops);
      forall j | 0 <= j < |rest| ensures MatchesWindow(rest[j], s) { MatchesStill(ws, s, ops[j + 1], op); }
      WindowsBack(s, rest);
      WindowsThereAndBack(s, rest);
      var r := UndoOps(ApplyOps(s, rest).state, rest).state;
      WindowTakenBack(r, op);
      StepBack(ws, s, ops, r);
    }
  }

  lemma KeptAll(ws: WorkspaceState)
    ensures Kept(ws, []) == ws && Reopened(|Kept(ws, [])|, []) == [] && ws + [] == ws
  {
    if ws != [] { KeptAll(ws[1..]); }
  }

  lemma OthersOnWindows(ops: seq<RestoreOp>)
    requires WindowOps(ops) && DistinctFields(ops) && ops != []
    ensures !Names(ops[1..], Part(ops[0])) && !RemovesWindow(ops[1..], Part(ops[0]))
    ensures WindowOps(ops[1..]) && DistinctFields(ops[1..])
    ensures forall j :: 1 <= j < |ops| ==> Part(ops[j]) != Part(ops[0])
  {
    hide OnSurface, OnWindow, Part, WellFormed, RemovesWindow;
    var t := ops[1..];
    assert forall j :: 0 <= j < |t| ==> t[j] == ops[j + 1];
    forall j | 1 <= j < |ops| ensures Part(ops[j]) != Part(ops[0]) {
      OpField(ops[0]);
      OpField(ops[j]);
    }
    NotRemoved(t, Part(ops[0]));
  }

  lemma MatchesStill(ws: WorkspaceState, s: WorkspaceState, op: RestoreOp, other: RestoreOp)
    requires MatchesWindow(op, ws) && Part(op) != Part(other)
    requires forall x :: x != Part(other) ==> Lookup(s, x) == Lookup(ws, x)
    ensures MatchesWindow(op, s)
  {
    hide Part, Lookup;
  }

  /** The step back from the inner result `r` to the outer one. */
  lemma StepBack(ws: WorkspaceState, s: WorkspaceState, ops: seq<RestoreOp>, r: WorkspaceState)
    requires Unique(ws) && ops != [] && WindowOps(ops) && DistinctFields(ops) && MatchesWindow(ops[0], ws)
    requires ops[0].beforeAbsent <==> !HasId(ws, Part(ops[0]))
    requires s == if ops[0].after == "" then Dropped(ws, Part(ops[0]))
                  else if ops[0].beforeAbsent then ws + [WindowSpec(Part(ops[0]), |ws|, ops[0].after, [])]
                  else Relaid(ws, Part(ops[0]), ops[0].after)
    requires r == Kept(s, ops[1..]) + Reopened(|Kept(s, ops[1..])|, ops[1..])
    ensures (if ops[0].beforeAbsent then Dropped(r, Part(ops[0]))
             else if HasId(r, Part(ops[0])) then Relaid(r, Part(ops[0]), ops[0].before)
             else r + [WindowSpec(Part(ops[0]), |r|, ops[0].before, [])])
            == Kept(ws, ops) + Reopened(|Kept(ws, ops)|, ops)
  {
    hide Unique, WKey, OnWindow, OnSurface, Part, Lookup, MatchesWindow, RemovesWindow, HasId, Names, Kept, Dropped, Relaid;
    var op := ops[0];
    assert WellFormed(op);
    if op.after == "" {
      StepRemove(ws, ops, r);
    } else if op.beforeAbsent {
      StepAdd(ws, ops, r);
    } else {
      StepLayout(ws, ops, r);
    }
  }

  lemma StepRemove(ws: WorkspaceState, ops: seq<RestoreOp>, r: WorkspaceState)
    requires ops != [] && WindowOps(ops) && DistinctFields(ops) && ops[0].after == "" && !ops[0].beforeAbsent
    requires var s := Dropped(ws, Part(ops[0])); r == Kept(s, ops[1..]) + Reopened(|Kept(s, ops[1..])|, ops[1..])
    ensures !HasId(r, Part(ops[0]))
    ensures r + [WindowSpec(Part(ops[0]), |r|, ops[0].before, [])] == Kept(ws, ops) + Reopened(|Kept(ws, ops)|, ops)
  {
    hide WKey, OnWindow, OnSurface, Part, WellFormed, RemovesWindow, HasId, Names;
    var op, rest, id := ops[0], ops[1..], Part(ops[0]);
    OthersOnWindows(ops);
    assert OnWindow(op);
    KeptCons(ws, ops);
    KeptDropped(ws, rest, id);
    DroppedHas(Kept(ws, rest), id);
    var kept := Kept(ws, ops);
    ReopenedNamed(|kept|, rest, id);
    HasIdAppend(kept, Reopened(|kept|, rest), id);
    assert r == kept + Reopened(|kept|, rest);
    ReopenedCons(|kept|, ops);
  }

  lemma ReopenedCons(n: nat, ops: seq<RestoreOp>)
    requires ops != [] && ops[0].after == "" && !ops[0].beforeAbsent
    ensures Reopened(n, ops) == Reopened(n, ops[1..]) + [WindowSpec(Part(ops[0]), n + |Reopened(n, ops[1..])|, ops[0].before, [])]
  {
    hide Part;
  }

  lemma OneKept(w: WindowSpec, ops: seq<RestoreOp>)
    requires !RemovesWindow(ops, w.id)
    ensures Kept([w], ops) == [w] && Dropped([w], w.id) == []
  {
    hide RemovesWindow;
    assert [w][1..] == [];
    assert Kept([], ops) == [] && Dropped([], w.id) == [];
  }

  lemma AddedFirst(n: nat, ops: seq<RestoreOp>)
    requires ops != [] && ops[0].beforeAbsent
    ensures Reopened(n, ops) == Reopened(n + 1, ops[1..])
  {
  }

  lemma StepAdd(ws: WorkspaceState, ops: seq<RestoreOp>, r: WorkspaceState)
    requires ops != [] && WindowOps(ops) && DistinctFields(ops) && ops[0].after != "" && ops[0].beforeAbsent && !HasId(ws, Part(ops[0]))
    requires var s := ws + [WindowSpec(Part(ops[0]), |ws|, ops[0].after, [])]; r == Kept(s, ops[1..]) + Reopened(|Kept(s, ops[1..])|, ops[1..])
    ensures Dropped(r, Part(ops[0])) == Kept(ws, ops) + Reopened(|Kept(ws, ops)|, ops)
  {
    hide WKey, OnWindow, OnSurface, Part, WellFormed, RemovesWindow, HasId, Names, Kept, Dropped, Reopened, DistinctFields;
    var op, rest, id := ops[0], ops[1..], Part(ops[0]);
    OthersOnWindows(ops);
    assert OnWindow(op);
    KeptCons(ws, ops);
    var kept, made := Kept(ws, ops), WindowSpec(id, |ws|, op.after, []);
    KeptAppend(ws, [made], rest);
    OneKept(made, rest);
    KeptWithin(ws, ops, id);
    AddedFirst(|kept|, ops);
    var later := Reopened(|kept| + 1, rest);
    ReopenedNamed(|kept| + 1, rest, id);
    NoSuchWindow(later, id, "");
    NoSuchWindow(kept, id, "");
    DroppedAppend(kept + [made], later, id);
    DroppedAppend(kept, [made], id);
    assert kept + [] + later == kept + later;
  }

  lemma StepLayout(ws: WorkspaceState, ops: seq<RestoreOp>, r: WorkspaceState)
    requires Unique(ws) && ops != [] && WindowOps(ops) && DistinctFields(ops) && MatchesWindow(ops[0], ws)
    requires ops[0].after != "" && !ops[0].beforeAbsent && HasId(ws, Part(ops[0]))
    requires var s := Relaid(ws, Part(ops[0]), ops[0].after); r == Kept(s, ops[1..]) + Reopened(|Kept(s, ops[1..])|, ops[1..])
    ensures HasId(r, Part(ops[0]))
    ensures Relaid(r, Part(ops[0]), ops[0].before) == Kept(ws, ops) + Reopened(|Kept(ws, ops)|, ops)
  {
    hide Unique, WKey, OnWindow, OnSurface, Part, Lookup, WellFormed, MatchesWindow, RemovesWindow, HasId, Names;
    var op, rest, id := ops[0], ops[1..], Part(ops[0]);
    OthersOnWindows(ops);
    assert OnWindow(op);
    KeptCons(ws, ops);
    var kept := Kept(ws, ops);
    KeptRelaid(ws, rest, id, op.after);
    var s := Relaid(kept, id, op.after);
    RelaidHas(kept, id, op.after);
    KeptWithin(ws, rest, id);
    var later := Reopened(|kept|, rest);
    ReopenedNamed(|kept|, rest, id);
    HasIdAppend(s, later, id);
    NoSuchWindow(later, id, op.before);
    RelaidAppend(s, later, id, op.before);
    KeptLayout(ws, op, ops);
    RelaidBack(kept, id, op.before, op.after);
  }

  lemma {:induction false} DroppedHas(ws: WorkspaceState, id: string)
    ensures !HasId(Dropped(ws, id), id)
  {
    if ws != [] {
      DroppedHas(ws[1..], id);
      if ws[0].id != id {
        assert Dropped(ws, id)[1..] == Dropped(ws[1..], id);
        HasIdTail(Dropped(ws, id), id);
      }
    }
  }

  lemma {:induction false} RelaidHas(ws: WorkspaceState, id: string, layout: string)
    ensures |Relaid(ws, id, layout)| == |ws|
    ensures HasId(Relaid(ws, id, layout), id) <==> HasId(ws, id)
  {
    if ws != [] {
      RelaidHas(ws[1..], id, layout);
      HasIdTail(ws, id);
      assert Relaid(ws, id, layout)[1..] == Relaid(ws[1..], id, layout);
      HasIdTail(Relaid(ws, id, layout), id);
    }
  }

  lemma HasIdAppend(a: WorkspaceState, b: WorkspaceState, id: string)
    ensures HasId(a + b, id) <==> HasId(a, id) || HasId(b, id)
  {
    if HasId(a, id) {
      var i :| 0 <= i < |a| && a[i].id == id;
      assert (a + b)[i].id == id;
    }
    if HasId(b, id) {
      var i :| 0 <= i < |b| && b[i].id == id;
      assert (a + b)[|a| + i].id == id;
    }
  }

  lemma {:induction false} KeptIn(ws: WorkspaceState, ops: seq<RestoreOp>)
    ensures forall i :: 0 <= i < |Kept(ws, ops)| ==> Kept(ws, ops)[i] in ws
  {
    hide RemovesWindow;
    if ws != [] {
      KeptIn(ws[1..], ops);
      forall i | 0 <= i < |Kept(ws, ops)| ensures Kept(ws, ops)[i] in ws {
        var m := if RemovesWindow(ops, ws[0].id) then i else i - 1;
        if m >= 0 { assert Kept(ws[1..], ops)[m] in ws[1..]; }
      }
    }
  }

  lemma KeptLayout(ws: WorkspaceState, op: RestoreOp, ops: seq<RestoreOp>)
    requires Unique(ws) && MatchesWindow(op, ws) && !op.beforeAbsent
    ensures forall i :: 0 <= i < |Kept(ws, ops)| && Kept(ws, ops)[i].id == Part(op) ==> Kept(ws, ops)[i].layout == op.before
  {
    hide Part, HoldsSurface;
    KeptIn(ws, ops);
    forall i | 0 <= i < |Kept(ws, ops)| && Kept(ws, ops)[i].id == Part(op) ensures Kept(ws, ops)[i].layout == op.before {
      var m :| 0 <= m < |ws| && ws[m] == Kept(ws, ops)[i];
      LookupAt(ws, m);
    }
  }

  // ---- there and back, in every detail ---------------------------------------------------------------

  /** A window's surfaces carried forward and back again. */
  function Through(ops: seq<RestoreOp>, sfs: seq<SurfaceSpec>): seq<SurfaceSpec> {
    AllBackward(ops, AllForward(ops, sfs))
  }

  function EachThrough(ops: seq<RestoreOp>, ws: WorkspaceState): (r: WorkspaceState)
    ensures |r| == |ws|
  {
    seq(|ws|, i requires 0 <= i < |ws| => ws[i].(surfaces := Through(ops, ws[i].surfaces)))
  }

  /** The surfaces undo makes again: those removed, and those named inside a removed window; the last operation's first. */
  function Remade(ops: seq<RestoreOp>, removals: seq<RestoreOp>, ws: WorkspaceState): seq<SurfaceSpec> {
    if ops == [] then []
    else
      var op := ops[0];
      Remade(ops[1..], removals, ws) +
      (if !op.beforeAbsent && (op.after == "" || Lost(ws, removals, Part(op))) then [Made(Part(op), op.before)] else [])
  }

  lemma {:induction false} AdditionsCut(ops: seq<RestoreOp>)
    requires SurfaceOps(ops) && DistinctFields(ops)
    ensures AllBackward(ops, Additions(ops)) == []
    decreases |ops|
  {
    hide OnSurface, OnWindow, Part, Made, WellFormed;
    if ops != [] {
      var op, t := ops[0], ops[1..];
      OthersUnnamed(ops);
      AdditionsCut(t);
      var head := if op.beforeAbsent then [Made(Part(op), op.after)] else [];
      AllBackwardAppend(ops, head, Additions(t));
      assert Backward(op, []) == [];
      if op.beforeAbsent {
        MadeId(Part(op), op.after);
        Passes(t, head);
        assert head[1..] == [];
        assert Cutout(head, Part(op)) == [];
      } else {
        NothingBack(ops);
      }
    }
  }

  lemma {:induction false} NothingBack(ops: seq<RestoreOp>)
    ensures AllBackward(ops, []) == [] && AllForward(ops, []) == []
    decreases |ops|
  {
    if ops != [] { NothingBack(ops[1..]); }
  }

  /** Dropping windows and carrying surfaces back do not interfere. */
  lemma {:induction false} KeptThrough(ws: WorkspaceState, s: WorkspaceState, ops: seq<RestoreOp>, removals: seq<RestoreOp>)
    requires |s| == |ws|
    requires forall i :: 0 <= i < |ws| ==> s[i] == ws[i].(surfaces := s[i].surfaces) && AllBackward(ops, s[i].surfaces) == Through(ops, ws[i].surfaces)
    ensures EachBackward(ops, Kept(s, removals)) == EachThrough(ops, Kept(ws, removals))
    decreases |ws|
  {
    hide RemovesWindow, AllBackward, Through;
    if ws != [] {
      assert s[0].id == ws[0].id;
      assert forall i :: 0 <= i < |ws[1..]| ==> ws[1..][i] == ws[i + 1] && s[1..][i] == s[i + 1];
      KeptThrough(ws[1..], s[1..], ops, removals);
      KeptHead(ws, removals);
      KeptHead(s, removals);
      var a, b := Kept(s, removals), Kept(ws, removals);
      assert |a| == |b| by { assert |EachBackward(ops, Kept(s[1..], removals))| == |EachThrough(ops, Kept(ws[1..], removals))|; }
      if !RemovesWindow(removals, ws[0].id) {
        forall i | 0 <= i < |a| ensures EachBackward(ops, a)[i] == EachThrough(ops, b)[i] {
          if i > 0 {
            assert a[i] == Kept(s[1..], removals)[i - 1] && b[i] == Kept(ws[1..], removals)[i - 1];
            assert EachBackward(ops, Kept(s[1..], removals))[i - 1] == EachThrough(ops, Kept(ws[1..], removals))[i - 1];
          }
        }
      }
    }
  }

  lemma SurfacedThrough(ws: WorkspaceState, ops: seq<RestoreOp>)
    requires ws != [] && SurfaceOps(ops) && DistinctFields(ops)
    ensures var s := Appended(EachForward(ops, ws), Additions(ops));
            forall i :: 0 <= i < |ws| ==> s[i] == ws[i].(surfaces := s[i].surfaces) && AllBackward(ops, s[i].surfaces) == Through(ops, ws[i].surfaces)
  {
    hide AllForward, AllBackward, Additions, SurfaceOps, DistinctFields;
    AdditionsCut(ops);
    AllBackwardAppend(ops, AllForward(ops, ws[|ws| - 1].surfaces), Additions(ops));
  }

  lemma {:induction false} ReopenedEmpty(n: nat, ops: seq<RestoreOp>)
    ensures forall i :: 0 <= i < |Reopened(n, ops)| ==> Reopened(n, ops)[i].surfaces == []
    decreases |ops|
  {
    hide Part;
    if ops != [] {
      ReopenedEmpty(n + 1, ops[1..]);
      ReopenedEmpty(n, ops[1..]);
    }
  }

  lemma BackOver(ops: seq<RestoreOp>, a: WorkspaceState, b: WorkspaceState)
    requires forall i :: 0 <= i < |b| ==> b[i].surfaces == []
    ensures EachBackward(ops, a + b) == EachBackward(ops, a) + b
  {
    NothingBack(ops);
    forall i | 0 <= i < |b| ensures b[i].(surfaces := AllBackward(ops, b[i].surfaces)) == b[i] { }
  }

  lemma {:induction false} AllForwardHolds(ops: seq<RestoreOp>, sfs: seq<SurfaceSpec>, id: string)
    requires Holds(sfs, id) && forall j :: 0 <= j < |ops| && Part(ops[j]) == id ==> ops[j].after != ""
    ensures Holds(AllForward(ops, sfs), id)
    decreases |ops|
  {
    hide Part, Holds;
    if ops != [] {
      ForwardHolds(ops[0], sfs, id);
      assert forall j :: 0 <= j < |ops[1..]| ==> ops[1..][j] == ops[j + 1];
      AllForwardHolds(ops[1..], Forward(ops[0], sfs), id);
    }
  }

  lemma {:induction false} ForwardHolds(op: RestoreOp, sfs: seq<SurfaceSpec>, id: string)
    requires Holds(sfs, id) && (Part(op) == id ==> op.after != "")
    ensures Holds(Forward(op, sfs), id)
    decreases |sfs|
  {
    hide Part, Parsed;
    HoldsTail(sfs, id);
    ParsedId(sfs[0], op.after);
    var r := Forward(op, sfs);
    if sfs[0].id == id {
      assert r[0].id == id;
    } else {
      ForwardHolds(op, sfs[1..], id);
      if r != Forward(op, sfs[1..]) {
        assert r[1..] == Forward(op, sfs[1..]);
        HoldsTail(r, id);
      }
    }
  }

  lemma ParsedId(sf: SurfaceSpec, value: string)
    ensures Parsed(sf, value).id == sf.id && Parsed(sf, value).split == sf.split
  {
  }

  lemma AppendedHolds(ws: WorkspaceState, ops: seq<RestoreOp>, sfs: seq<SurfaceSpec>, i: nat, x: string)
    requires i < |ws| && Holds(AllForward(ops, ws[i].surfaces), x)
    ensures var s := Appended(EachForward(ops, ws), sfs); s[i].id == ws[i].id && HoldsSurface(s[i], x)
  {
    hide AllForward;
    var s := Appended(EachForward(ops, ws), sfs);
    var k :| 0 <= k < |AllForward(ops, ws[i].surfaces)| && AllForward(ops, ws[i].surfaces)[k].id == x;
    assert s[i].surfaces[k].id == x;
    HoldsIndexed(s[i], x);
  }

  /** A surface with a recorded value is there when the windows are back, unless it was removed or its window was. */
  lemma HasReturned(ws: WorkspaceState, ops: seq<RestoreOp>, removals: seq<RestoreOp>, surfaced: WorkspaceState, returned: WorkspaceState, j: nat)
    requires Unique(ws) && ws != [] && SurfaceOps(ops) && DistinctFields(ops) && AllMatch(ops, Fields(ws))
    requires surfaced == Appended(EachForward(ops, ws), Additions(ops)) && Unique(surfaced) && Fields(surfaced) == Patch(Fields(ws), ops)
    requires Unique(returned) && forall id :: Lookup(returned, id) == ReturnedView(removals, id, Lookup(surfaced, id))
    requires j < |ops| && !ops[j].beforeAbsent
    ensures HasSurface(returned, Part(ops[j])) <==> !(ops[j].after == "" || Lost(ws, removals, Part(ops[j])))
  {
    hide Fields, Unique, OnSurface, OnWindow, Part, SKey, WKey, HolderIndex, Lookup, ReturnedView, AllForward, Appended, EachForward, WellFormed, RemovesWindow, Patch, Additions;
    var op, x := ops[j], Part(ops[j]);
    assert OnSurface(op) && Matches(op, Fields(ws));
    OpField(op);
    PatchAt(Fields(ws), ops, op.field);
    FieldsHas(returned, x);
    FieldsHas(surfaced, x);
    FieldsHas(ws, x);
    ReturnedSurface(surfaced, returned, removals, x);
    if op.after != "" {
      var i := HolderIndex(ws, x);
      HoldsIndexed(ws[i], x);
      forall k | 0 <= k < |ops| && Part(ops[k]) == x ensures ops[k].after != "" {
        assert OnSurface(ops[k]);
        OpField(ops[k]);
        assert k == j;
      }
      AllForwardHolds(ops, ws[i].surfaces, x);
      AppendedHolds(ws, ops, Additions(ops), i, x);
      SurfaceFieldVia(surfaced, i, x);
    }
  }

  lemma {:induction false} AgainIsRemade(ops: seq<RestoreOp>, removals: seq<RestoreOp>, ws: WorkspaceState, returned: WorkspaceState)
    requires forall j :: 0 <= j < |ops| && !ops[j].beforeAbsent ==>
               (HasSurface(returned, Part(ops[j])) <==> !(ops[j].after == "" || Lost(ws, removals, Part(ops[j]))))
    ensures Again(ops, returned) == Remade(ops, removals, ws)
  {
    hide Part, HasSurface, Lost, Made;
    if ops != [] {
      assert forall j :: 0 <= j < |ops[1..]| ==> ops[1..][j] == ops[j + 1];
      AgainIsRemade(ops[1..], removals, ws, returned);
    }
  }

  /** The state undo leaves: the kept windows, then those made again, and in the last one the surfaces made again. */
  function UndoneForm(ws: WorkspaceState, ops: seq<RestoreOp>): WorkspaceState {
    var k := Boundary(ops);
    var kept := Kept(ws, ops[k..]);
    var windows := EachThrough(ops[..k], kept) + Reopened(|kept|, ops[k..]);
    if windows == [] then [] else Appended(windows, Remade(ops[..k], ops[k..], ws))
  }

  /** Applying current operations and undoing them ends in exactly that state. */
  lemma UndoneIs(ws: WorkspaceState, ops: seq<RestoreOp>)
    requires Unique(ws) && ws != [] && Current(ops, Fields(ws))
    ensures ApplyOps(ws, ops).Edited? && UndoOps(ApplyOps(ws, ops).state, ops) == Edited(UndoneForm(ws, ops))
  {
    hide Fields, Unique, Less, OnSurface, OnWindow, Part, ApplyOne, UndoOne, ApplyOps, UndoOps, Current, Patch, Matches, WellFormed, DistinctFields,
         MatchesWindow, Lookup, ReturnedView, Boundary, Appended, EachForward, EachBackward, EachThrough, Kept, Reopened, Remade, Again, Additions, Lost,
         SameFrame, SameUnnamed, SurfaceOps, WindowOps, RemovesWindow;
    var k := Boundary(ops);
    var sops, wops := ops[..k], ops[k..];
    TwoParts(ws, ops);
    var surfaced := FirstStage(ws, ops);
    SurfacesForward(ws, sops);
    WindowsThereAndBack(surfaced, wops);
    WindowsBack(surfaced, wops);
    var applied := ApplyOps(surfaced, wops).state;
    var returned := UndoOps(applied, wops).state;
    ApplyAppend(ws, sops, wops);
    UndoAppend(applied, sops, wops);
    SameWindows(surfaced, returned, wops);
    forall j | 0 <= j < |sops| && !sops[j].beforeAbsent ensures '~' in sops[j].before {
      assert Matches(sops[j], Fields(ws));
      SurfaceOpAt(sops, j);
      SurfaceBefore(ws, sops[j]);
    }
    SurfacesBackward(returned, sops, Fields(ws));
    forall j | 0 <= j < |sops| && !sops[j].beforeAbsent
      ensures HasSurface(returned, Part(sops[j])) <==> !(sops[j].after == "" || Lost(ws, wops, Part(sops[j])))
    {
      HasReturned(ws, sops, wops, surfaced, returned, j);
    }
    AgainIsRemade(sops, wops, ws, returned);
    SurfacedThrough(ws, sops);
    KeptThrough(ws, surfaced, sops, wops);
    var n := |Kept(surfaced, wops)|;
    assert |EachBackward(sops, Kept(surfaced, wops))| == n;
    ReopenedEmpty(n, wops);
    BackOver(sops, Kept(surfaced, wops), Reopened(n, wops));
  }

  lemma SurfaceOpAt(ops: seq<RestoreOp>, j: nat)
    requires SurfaceOps(ops) && j < |ops|
    ensures OnSurface(ops[j])
  {
  }
}
