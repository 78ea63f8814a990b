/**
 * Exactly when undo gives back the very state it started from, told from the state and the operations
 * before they are applied. (tmh-next/internal/mock/backend.go)
 */
module Intact {
  import opened Text
  import opened Topology
  import opened Edits
  import opened Domain
  import opened Reconcile
  import opened Undo
  import opened Replay

  // ---- exactly when undo gives back the very state ---------------------------------------------------

  predicate CutsSurface(ops: seq<RestoreOp>, id: string) {
    exists j :: 0 <= j < |ops| && Part(ops[j]) == id && ops[j].after == ""
  }

  /** The surface is not removed, and if it is rewritten its title has no separator in it. */
  predicate Stays(ops: seq<RestoreOp>, sf: SurfaceSpec) {
    Names(ops, sf.id) ==> !CutsSurface(ops, sf.id) && '~' !in sf.title
  }

  predicate AllStay(ops: seq<RestoreOp>, sfs: seq<SurfaceSpec>) {
    forall k :: 0 <= k < |sfs| ==> Stays(ops, sfs[k])
  }

  predicate RecordedOne(ops: seq<RestoreOp>, sf: SurfaceSpec) {
    forall j :: 0 <= j < |ops| && Part(ops[j]) == sf.id ==> !ops[j].beforeAbsent && ops[j].before == SurfaceValue(sf)
  }

  /** What the operations have recorded of these surfaces is what they show. */
  predicate Recorded(ops: seq<RestoreOp>, sfs: seq<SurfaceSpec>) {
    forall k :: 0 <= k < |sfs| ==> RecordedOne(ops, sfs[k])
  }

  lemma ParsedValue(sf: SurfaceSpec)
    ensures Parsed(sf, SurfaceValue(sf)) == sf <==> '~' !in sf.title
    ensures Made(sf.id, SurfaceValue(sf)) == sf <==> '~' !in sf.title && sf.split == ""
  {
    if '~' !in sf.title {
      assert SurfaceValue(sf) == sf.title + ['~'] + sf.cwd;
      CutAt(sf.title, '~', sf.cwd);
    }
  }

  lemma CutsCons(ops: seq<RestoreOp>, id: string)
    requires ops != []
    ensures CutsSurface(ops, id) <==> (Part(ops[0]) == id && ops[0].after == "") || CutsSurface(ops[1..], id)
  {
    hide Part;
    if CutsSurface(ops, id) && !(Part(ops[0]) == id && ops[0].after == "") {
      var j :| 0 <= j < |ops| && Part(ops[j]) == id && ops[j].after == "";
      assert ops[1..][j - 1] == ops[j];
    }
    if CutsSurface(ops[1..], id) {
      var j :| 0 <= j < |ops[1..]| && Part(ops[1..][j]) == id && ops[1..][j].after == "";
      assert ops[j + 1] == ops[1..][j];
    }
  }

  lemma CutsNamed(ops: seq<RestoreOp>, id: string)
    ensures CutsSurface(ops, id) ==> Names(ops, id)
  {
    hide Part;
  }

  /** One surface, there and back. */
  lemma {:induction false} ThroughOne(ops: seq<RestoreOp>, sf: SurfaceSpec)
    requires SurfaceOps(ops) && DistinctFields(ops) && RecordedOne(ops, sf)
    ensures Through(ops, [sf]) == if CutsSurface(ops, sf.id) then []
                                  else if Names(ops, sf.id) then [Parsed(sf, SurfaceValue(sf))] else [sf]
    decreases |ops|
  {
    hide OnSurface, OnWindow, Part, WellFormed, Parsed, SurfaceValue, Names, CutsSurface;
    if ops == [] {
      assert !Names([], sf.id) by { NothingNamed(sf.id); }
      CutsNamed(ops, sf.id);
    } else {
      var op, t := ops[0], ops[1..];
      OthersUnnamed(ops);
      NamesCons(ops, sf.id);
      CutsCons(ops, sf.id);
      CutsNamed(t, sf.id);
      if Part(op) == sf.id { ThroughNamed(ops, sf); } else { ThroughOther(ops, sf); }
    }
  }

  lemma NothingNamed(id: string)
    ensures !Names([], id)
  {
  }

  lemma ThroughNamed(ops: seq<RestoreOp>, sf: SurfaceSpec)
    requires ops != [] && Part(ops[0]) == sf.id && !Names(ops[1..], sf.id)
    requires !ops[0].beforeAbsent && ops[0].before == SurfaceValue(sf)
    ensures Through(ops, [sf]) == if ops[0].after == "" then [] else [Parsed(sf, SurfaceValue(sf))]
  {
    hide Part, Cut, Names;
    var op, t := ops[0], ops[1..];
    var there := if op.after == "" then [] else [Parsed(sf, op.after)];
    Alone(sf, sf.id, op.after);
    assert Forward(op, [sf]) == there;
    forall k | 0 <= k < |there| ensures !Names(t, there[k].id) { ParsedId(sf, op.after); }
    Passes(t, there);
    assert AllForward(ops, [sf]) == there;
    assert there[..0] == [];
    if op.after != "" {
      ParsedTwice(sf, op.after, op.before);
      Alone(there[0], sf.id, op.before);
      assert Backward(op, there) == [Parsed(sf, op.before)];
    }
  }

  lemma Alone(sf: SurfaceSpec, id: string, value: string)
    requires sf.id == id
    ensures Cutout([sf], id) == [] && Retitled([sf], id, value) == [Parsed(sf, value)]
  {
    hide Parsed;
    assert [sf][1..] == [];
    assert Cutout([], id) == [] && Retitled([], id, value) == [];
  }

  lemma ParsedTwice(sf: SurfaceSpec, a: string, b: string)
    ensures Parsed(Parsed(sf, a), b) == Parsed(sf, b) && Parsed(sf, a).id == sf.id
  {
    hide Cut;
  }

  lemma ThroughOther(ops: seq<RestoreOp>, sf: SurfaceSpec)
    requires SurfaceOps(ops) && DistinctFields(ops) && ops != [] && Part(ops[0]) != sf.id && RecordedOne(ops, sf)
    ensures Through(ops, [sf]) == if CutsSurface(ops[1..], sf.id) then []
                                  else if Names(ops[1..], sf.id) then [Parsed(sf, SurfaceValue(sf))] else [sf]
    decreases |ops|, 0
  {
    hide OnSurface, OnWindow, Part, WellFormed, Parsed, SurfaceValue, Names, CutsSurface, Forward, Backward;
    var op, t := ops[0], ops[1..];
    assert forall j :: 0 <= j < |t| ==> t[j] == ops[j + 1];
    OthersUnnamed(ops);
    ThroughOne(t, sf);
    PassesOne(op, [sf]);
    var back := Through(t, [sf]);
    ParsedId(sf, SurfaceValue(sf));
    PassesOne(op, back);
  }

  lemma PassesOne(op: RestoreOp, sfs: seq<SurfaceSpec>)
    requires forall k :: 0 <= k < |sfs| ==> sfs[k].id != Part(op)
    ensures Forward(op, sfs) == sfs && Backward(op, sfs) == sfs
  {
    hide Part;
    NotHeld(sfs, Part(op), op.after);
    NotHeld(sfs, Part(op), op.before);
  }

  lemma ThroughAppend(ops: seq<RestoreOp>, a: seq<SurfaceSpec>, b: seq<SurfaceSpec>)
    ensures Through(ops, a + b) == Through(ops, a) + Through(ops, b)
  {
    AllForwardAppend(ops, a, b);
    AllBackwardAppend(ops, AllForward(ops, a), AllForward(ops, b));
  }

  /** Surfaces come through unchanged exactly if all of them stay. */
  lemma {:induction false} ThroughAll(ops: seq<RestoreOp>, sfs: seq<SurfaceSpec>)
    requires SurfaceOps(ops) && DistinctFields(ops) && Recorded(ops, sfs)
    ensures |Through(ops, sfs)| <= |sfs| && (Through(ops, sfs) == sfs <==> AllStay(ops, sfs))
  {
    hide OnSurface, OnWindow, Part, WellFormed, Parsed, SurfaceValue, Names, CutsSurface, SurfaceOps, DistinctFields, Through, RecordedOne;
    if sfs == [] {
      NothingThrough(ops);
    } else {
      var t := sfs[1..];
      assert forall k :: 0 <= k < |t| ==> t[k] == sfs[k + 1];
      ThroughAll(ops, t);
      ThroughOne(ops, sfs[0]);
      ParsedValue(sfs[0]);
      CutsNamed(ops, sfs[0].id);
      ThroughAppend(ops, [sfs[0]], t);
      assert sfs == [sfs[0]] + t;
      var head, rest := Through(ops, [sfs[0]]), Through(ops, t);
      assert Stays(ops, sfs[0]) <==> head == [sfs[0]];
      if head + rest == sfs { assert (head + rest)[..1] == [sfs[0]]; assert |head| == 1 ==> (head + rest)[1..] == rest; }
      assert AllStay(ops, sfs) <==> Stays(ops, sfs[0]) && AllStay(ops, t) by { AllStayCons(ops, sfs); }
    }
  }

  lemma AllStayCons(ops: seq<RestoreOp>, sfs: seq<SurfaceSpec>)
    requires sfs != []
    ensures AllStay(ops, sfs) <==> Stays(ops, sfs[0]) && AllStay(ops, sfs[1..])
  {
    hide Stays;
    var t := sfs[1..];
    assert forall k :: 0 <= k < |t| ==> t[k] == sfs[k + 1];
    if Stays(ops, sfs[0]) && AllStay(ops, t) {
      forall k | 0 <= k < |sfs| ensures Stays(ops, sfs[k]) { if k > 0 { assert Stays(ops, t[k - 1]); } }
    }
  }

  lemma NothingThrough(ops: seq<RestoreOp>)
    ensures Through(ops, []) == []
  {
    NothingBack(ops);
  }

  lemma {:induction false} ThroughCut(ops: seq<RestoreOp>, sfs: seq<SurfaceSpec>)
    requires SurfaceOps(ops) && DistinctFields(ops) && Recorded(ops, sfs)
    requires forall k :: 0 <= k < |sfs| ==> CutsSurface(ops, sfs[k].id)
    ensures Through(ops, sfs) == []
  {
    hide OnSurface, OnWindow, Part, WellFormed, Parsed, SurfaceValue, Names, CutsSurface, SurfaceOps, DistinctFields, Through, RecordedOne;
    if sfs == [] {
      NothingThrough(ops);
    } else {
      assert forall k :: 0 <= k < |sfs[1..]| ==> sfs[1..][k] == sfs[k + 1];
      ThroughCut(ops, sfs[1..]);
      ThroughOne(ops, sfs[0]);
      ThroughAppend(ops, [sfs[0]], sfs[1..]);
      assert sfs == [sfs[0]] + sfs[1..];
    }
  }

  /** The surfaces of the last window end with those undo makes again, and all before them stay. */
  predicate EndsWith(ops: seq<RestoreOp>, sfs: seq<SurfaceSpec>, remade: seq<SurfaceSpec>) {
    |remade| <= |sfs| && sfs[|sfs| - |remade|..] == remade && AllStay(ops, sfs[..|sfs| - |remade|])
  }

  lemma LastWindow(ops: seq<RestoreOp>, sfs: seq<SurfaceSpec>, remade: seq<SurfaceSpec>)
    requires SurfaceOps(ops) && DistinctFields(ops) && Recorded(ops, sfs)
    requires forall k :: 0 <= k < |remade| && Holds(sfs, remade[k].id) ==> CutsSurface(ops, remade[k].id)
    ensures Through(ops, sfs) + remade == sfs <==> EndsWith(ops, sfs, remade)
  {
    hide SurfaceOps, DistinctFields, Through, RecordedOne, CutsSurface, AllStay;
    var through := Through(ops, sfs);
    if through + remade == sfs { assert (through + remade)[|through|..] == remade; }
    if |remade| <= |sfs| && sfs[|sfs| - |remade|..] == remade {
      var m := |sfs| - |remade|;
      var a, b := sfs[..m], sfs[m..];
      assert sfs == a + b;
      ThroughAppend(ops, a, b);
      assert forall k :: 0 <= k < |a| ==> a[k] == sfs[k];
      assert forall k :: 0 <= k < |b| ==> b[k] == sfs[m + k];
      forall k | 0 <= k < |b| ensures CutsSurface(ops, b[k].id) {
        assert Holds(sfs, b[k].id) by { assert sfs[m + k].id == b[k].id; }
        assert remade[k] == b[k];
      }
      ThroughCut(ops, b);
      ThroughAll(ops, a);
      assert Through(ops, sfs) == Through(ops, a);
      if Through(ops, sfs) + remade == sfs {
        assert |Through(ops, a)| == m;
        assert (Through(ops, a) + remade)[..m] == Through(ops, a);
      }
    }
  }

  /**
   * Undo will give back the very state: what it makes again is what stood last. The windows removed are
   * the last ones, as undo will make them; the surfaces removed or sitting in a removed window are the end
   * of the last window, as undo will make them; no other surface is removed, and no title that is
   * rewritten has a separator in it.
   */
  ghost predicate Intact(ws: WorkspaceState, ops: seq<RestoreOp>)
    requires ws != []
  {
    var k := Boundary(ops);
    var n, last := |Kept(ws, ops[k..])|, |ws| - 1;
    var later := Reopened(n, ops[k..]);
    && |ws| == n + |later|
    && (forall i :: 0 <= i < n ==> !RemovesWindow(ops[k..], ws[i].id))
    && (forall i :: n <= i < |ws| ==> ws[i] == later[i - n].(surfaces := ws[i].surfaces))
    && (forall i :: 0 <= i < last ==> if i < n then AllStay(ops[..k], ws[i].surfaces) else ws[i].surfaces == [])
    && var remade := Remade(ops[..k], ops[k..], ws);
       if last < n then EndsWith(ops[..k], ws[last].surfaces, remade) else ws[last].surfaces == remade
  }

  lemma {:induction false} KeptFirst(ws: WorkspaceState, ops: seq<RestoreOp>, n: nat)
    requires n <= |ws| && n == |Kept(ws, ops)| && forall i :: 0 <= i < n ==> !RemovesWindow(ops, ws[i].id)
    ensures Kept(ws, ops) == ws[..n]
  {
    hide RemovesWindow;
    if n > 0 {
      KeptHead(ws, ops);
      assert forall i :: 0 <= i < n - 1 ==> ws[1..][i] == ws[i + 1];
      KeptFirst(ws[1..], ops, n - 1);
      assert ws[..n] == [ws[0]] + ws[1..][..n - 1];
      assert Kept(ws, ops) == [ws[0]] + Kept(ws, ops)[1..];
    }
  }

  lemma {:induction false} KeptStay(ws: WorkspaceState, ops: seq<RestoreOp>)
    ensures |Kept(ws, ops)| <= |ws|
    ensures forall i :: 0 <= i < |Kept(ws, ops)| ==> !RemovesWindow(ops, Kept(ws, ops)[i].id)
  {
    hide RemovesWindow;
    if ws != [] {
      KeptHead(ws, ops);
      KeptStay(ws[1..], ops);
      forall i | 0 <= i < |Kept(ws, ops)| ensures !RemovesWindow(ops, Kept(ws, ops)[i].id) {
        if !RemovesWindow(ops, ws[0].id) && i > 0 { assert Kept(ws, ops)[i] == Kept(ws[1..], ops)[i - 1]; }
      }
    }
  }

  /** What a plan records of a surface is what the state shows of it. */
  lemma RecordedIn(ws: WorkspaceState, ops: seq<RestoreOp>, i: nat)
    requires Unique(ws) && i < |ws| && SurfaceOps(ops) && AllMatch(ops, Fields(ws))
    ensures Recorded(ops, ws[i].surfaces)
  {
    hide Fields, OnSurface, OnWindow, Part, WellFormed, SKey, WKey, SurfaceValue, Unique, HolderIndex, SurfaceIndex;
    var sfs := ws[i].surfaces;
    UniqueAt(ws, i);
    forall k | 0 <= k < |sfs| ensures RecordedOne(ops, sfs[k]) {
      forall j | 0 <= j < |ops| && Part(ops[j]) == sfs[k].id ensures !ops[j].beforeAbsent && ops[j].before == SurfaceValue(sfs[k]) {
        var x := sfs[k].id;
        assert OnSurface(ops[j]) && Matches(ops[j], Fields(ws));
        OpField(ops[j]);
        IndexOfOnly(ws[i], k);
        SurfaceFieldVia(ws, i, x);
      }
    }
  }

  lemma IndexOfOnly(w: WindowSpec, k: nat)
    requires UniqueSurfaces(w.surfaces) && k < |w.surfaces|
    ensures HoldsSurface(w, w.surfaces[k].id) && SurfaceIndex(w.surfaces, w.surfaces[k].id) == k
  {
  }

  /** Of the surfaces undo makes again, those a kept window shows were removed by an operation. */
  lemma {:induction false} RemadeCut(ops: seq<RestoreOp>, removals: seq<RestoreOp>, ws: WorkspaceState, i: nat)
    requires Unique(ws) && i < |ws| && !RemovesWindow(removals, ws[i].id)
    ensures forall k :: 0 <= k < |Remade(ops, removals, ws)| && Holds(ws[i].surfaces, Remade(ops, removals, ws)[k].id) ==>
              CutsSurface(ops, Remade(ops, removals, ws)[k].id)
  {
    hide Part, Lost, RemovesWindow, Unique, CutsSurface, Holds, Made;
    if ops != [] {
      var op, remade := ops[0], Remade(ops, removals, ws);
      RemadeCut(ops[1..], removals, ws, i);
      forall k | 0 <= k < |remade| && Holds(ws[i].surfaces, remade[k].id) ensures CutsSurface(ops, remade[k].id) {
        CutsCons(ops, remade[k].id);
        if k >= |Remade(ops[1..], removals, ws)| {
          MadeId(Part(op), op.before);
          NotLost(ws, removals, i, Part(op));
        }
      }
    }
  }

  lemma NotLost(ws: WorkspaceState, removals: seq<RestoreOp>, i: nat, x: string)
    requires Unique(ws) && i < |ws| && !RemovesWindow(removals, ws[i].id) && Holds(ws[i].surfaces, x)
    ensures !Lost(ws, removals, x)
  {
    hide RemovesWindow, Fields, Unique, Holds, HolderIndex, SKey;
    HoldsIndexed(ws[i], x);
    SurfaceFieldVia(ws, i, x);
  }

  /** The state undo leaves is the old one in every detail exactly if it is intact. */
  lemma FormIntact(ws: WorkspaceState, ops: seq<RestoreOp>)
    requires Unique(ws) && ws != [] && Current(ops, Fields(ws))
    ensures UndoneForm(ws, ops) == ws <==> Intact(ws, ops)
  {
    hide Fields, Unique, OnSurface, OnWindow, Part, WellFormed, Matches, Boundary, Through, Kept, Reopened, Remade, RemovesWindow, SurfaceOps,
         WindowOps, DistinctFields, AllStay, Recorded, EndsWith, Current, AllMatch, Holds, CutsSurface, Less;
    var k, last := Boundary(ops), |ws| - 1;
    var sops, wops := ops[..k], ops[k..];
    TwoParts(ws, ops);
    var kept := Kept(ws, wops);
    var n, later, remade := |kept|, Reopened(|kept|, wops), Remade(sops, wops, ws);
    var windows := EachThrough(sops, kept) + later;
    ReopenedEmpty(n, wops);
    KeptStay(ws, wops);
    forall i | 0 <= i < |ws| ensures Recorded(sops, ws[i].surfaces) { RecordedIn(ws, sops, i); }
    forall i | 0 <= i < |ws| ensures Through(sops, ws[i].surfaces) == ws[i].surfaces <==> AllStay(sops, ws[i].surfaces) { ThroughAll(sops, ws[i].surfaces); }
    if !RemovesWindow(wops, ws[last].id) {
      RemadeCut(sops, wops, ws, last);
      LastWindow(sops, ws[last].surfaces, remade);
    }
    if UndoneForm(ws, ops) == ws {
      FormLooks(ws, ops);
    }
    if Intact(ws, ops) {
      KeptFirst(ws, wops, n);
      forall i | 0 <= i < |ws| ensures UndoneForm(ws, ops)[i] == ws[i] { }
      assert |UndoneForm(ws, ops)| == |ws|;
    }
  }

  /** If undo gives back the state, the kept windows stood first. */
  lemma FormLooks(ws: WorkspaceState, ops: seq<RestoreOp>)
    requires Unique(ws) && ws != [] && UndoneForm(ws, ops) == ws
    ensures var kept := Kept(ws, ops[Boundary(ops)..]);
            && |ws| == |kept| + |Reopened(|kept|, ops[Boundary(ops)..])|
            && forall i :: 0 <= i < |kept| ==> kept[i] == ws[i] && !RemovesWindow(ops[Boundary(ops)..], ws[i].id)
  {
    hide Through, Kept, Reopened, Remade, RemovesWindow, Boundary, HoldsSurface;
    var wops := ops[Boundary(ops)..];
    var kept := Kept(ws, wops);
    KeptStay(ws, wops);
    KeptIn(ws, wops);
    forall i | 0 <= i < |kept| ensures kept[i] == ws[i] {
      assert UndoneForm(ws, ops)[i].id == kept[i].id;
      var m :| 0 <= m < |ws| && ws[m] == kept[i];
    }
  }

  /**
   * Undo restores the state in every detail, order, index and split included, exactly if it is intact;
   * this can be seen from the state and the operations before they are applied.
   */
  lemma UndoExactly(ws: WorkspaceState, ops: seq<RestoreOp>)
    requires Unique(ws) && ws != [] && Current(ops, Fields(ws))
    ensures ApplyOps(ws, ops).Edited? && UndoOps(ApplyOps(ws, ops).state, ops).Edited?
    ensures UndoOps(ApplyOps(ws, ops).state, ops).state == ws <==> Intact(ws, ops)
  {
    hide Fields, Unique, Current, Intact, UndoneForm, ApplyOps, UndoOps;
    UndoneIs(ws, ops);
    FormIntact(ws, ops);
  }

  // ---- what the condition comes to ---------------------------------------------------------------------

  function Count(ops: seq<RestoreOp>, adds: bool): nat {
    if ops == [] then 0
    else (if (if adds then ops[0].beforeAbsent else !ops[0].beforeAbsent && ops[0].after == "") then 1 else 0) + Count(ops[1..], adds)
  }

  /**
   * A removed window is made again after those with greater ids, empty, with the layout it had, and with
   * the index it then gets: the windows added under a smaller id are still there and count.
   */
  lemma {:induction false} ReopenedAt(n: nat, ops: seq<RestoreOp>, j: nat)
    requires j < |ops| && ops[j].after == "" && !ops[j].beforeAbsent
    ensures |Reopened(n, ops)| == Count(ops, false)
    ensures var p := Count(ops[j + 1..], false);
            p < Count(ops, false)
            && Reopened(n, ops)[p] == WindowSpec(Part(ops[j]), n + Count(ops[..j], true) + p, ops[j].before, [])
    decreases |ops|
  {
    hide Part;
    ReopenedLength(n, ops);
    ReopenedLength(n, ops[1..]);
    if j == 0 {
      assert ops[..0] == [];
    } else {
      assert ops[1..][j - 1] == ops[j] && ops[1..][j..] == ops[j + 1..] && ops[..j][1..] == ops[1..][..j - 1] && ops[..j][0] == ops[0];
      ReopenedAt(if ops[0].beforeAbsent then n + 1 else n, ops[1..], j - 1);
    }
  }

  lemma {:induction false} ReopenedLength(n: nat, ops: seq<RestoreOp>)
    ensures |Reopened(n, ops)| == Count(ops, false)
    decreases |ops|
  {
    hide Part;
    if ops != [] {
      ReopenedLength(n + 1, ops[1..]);
      ReopenedLength(n, ops[1..]);
    }
  }

  /** A removed surface is made again after those with greater ids, from its recorded value and without a split. */
  lemma {:induction false} RemadeAt(ops: seq<RestoreOp>, removals: seq<RestoreOp>, ws: WorkspaceState, j: nat)
    requires j < |ops| && !ops[j].beforeAbsent && (ops[j].after == "" || Lost(ws, removals, Part(ops[j])))
    ensures var p := |Remade(ops[j + 1..], removals, ws)|;
            p < |Remade(ops, removals, ws)| && Remade(ops, removals, ws)[p] == Made(Part(ops[j]), ops[j].before)
    decreases |ops|
  {
    hide Part, Lost, Made;
    if j > 0 {
      assert ops[1..][j - 1] == ops[j] && ops[1..][j..] == ops[j + 1..];
      RemadeAt(ops[1..], removals, ws, j - 1);
    }
  }

  /** The title of a surface some operation names. */
  predicate TitlesPlain(ws: WorkspaceState, ops: seq<RestoreOp>) {
    forall i, k :: 0 <= i < |ws| && 0 <= k < |ws[i].surfaces| && Names(ops, ws[i].surfaces[k].id) ==> '~' !in ws[i].surfaces[k].title
  }

  /** Operations that only rewrite and add, and remove nothing, are undone in every detail exactly if no title they rewrite has a separator in it. */
  lemma OnlyEdits(ws: WorkspaceState, ops: seq<RestoreOp>)
    requires Unique(ws) && ws != [] && Current(ops, Fields(ws))
    requires forall j :: 0 <= j < |ops| ==> ops[j].after != ""
    ensures ApplyOps(ws, ops).Edited? && UndoOps(ApplyOps(ws, ops).state, ops).Edited?
    ensures UndoOps(ApplyOps(ws, ops).state, ops).state == ws <==> TitlesPlain(ws, ops[..Boundary(ops)])
  {
    hide Fields, Unique, Current, UndoneForm, ApplyOps, UndoOps, Boundary, Names, Part, Reopened, Kept, Remade, AllStay;
    UndoExactly(ws, ops);
    var k := Boundary(ops);
    var sops, wops := ops[..k], ops[k..];
    assert forall j :: 0 <= j < |sops| ==> sops[j] == ops[j];
    assert forall j :: 0 <= j < |wops| ==> wops[j] == ops[k + j];
    NothingKeptBack(ws, wops);
    NothingReopened(|ws|, wops);
    NothingRemade(sops, wops, ws);
    var last := ws[|ws| - 1].surfaces;
    assert last[..|last| - 0] == last && last[|last| - 0..] == [];
    forall i | 0 <= i < |ws| ensures AllStay(sops, ws[i].surfaces) <==> PlainWindow(sops, ws[i]) { StayPlain(sops, ws[i]); }
    assert TitlesPlain(ws, sops) <==> forall i :: 0 <= i < |ws| ==> PlainWindow(sops, ws[i]);
  }

  predicate PlainWindow(ops: seq<RestoreOp>, w: WindowSpec) {
    forall k :: 0 <= k < |w.surfaces| && Names(ops, w.surfaces[k].id) ==> '~' !in w.surfaces[k].title
  }

  lemma StayPlain(ops: seq<RestoreOp>, w: WindowSpec)
    requires forall j :: 0 <= j < |ops| ==> ops[j].after != ""
    ensures AllStay(ops, w.surfaces) <==> PlainWindow(ops, w)
  {
    hide Part, Names;
    forall k | 0 <= k < |w.surfaces| ensures Stays(ops, w.surfaces[k]) <==> (Names(ops, w.surfaces[k].id) ==> '~' !in w.surfaces[k].title) { }
  }

  lemma {:induction false} NothingKeptBack(ws: WorkspaceState, ops: seq<RestoreOp>)
    requires forall j :: 0 <= j < |ops| ==> ops[j].after != ""
    ensures Kept(ws, ops) == ws && forall id :: !RemovesWindow(ops, id)
  {
    if ws != [] { NothingKeptBack(ws[1..], ops); }
  }

  lemma {:induction false} NothingReopened(n: nat, ops: seq<RestoreOp>)
    requires forall j :: 0 <= j < |ops| ==> ops[j].after != ""
    ensures Reopened(n, ops) == []
    decreases |ops|
  {
    if ops != [] {
      assert forall j :: 0 <= j < |ops[1..]| ==> ops[1..][j] == ops[j + 1];
      NothingReopened(n + 1, ops[1..]);
      NothingReopened(n, ops[1..]);
    }
  }

  lemma {:induction false} NothingRemade(ops: seq<RestoreOp>, removals: seq<RestoreOp>, ws: WorkspaceState)
    requires forall j :: 0 <= j < |ops| ==> ops[j].after != ""
    requires forall id :: !RemovesWindow(removals, id)
    ensures Remade(ops, removals, ws) == []
  {
    hide RemovesWindow, Part;
    if ops != [] {
      assert forall j :: 0 <= j < |ops[1..]| ==> ops[1..][j] == ops[j + 1];
      NothingRemade(ops[1..], removals, ws);
    }
  }
}
