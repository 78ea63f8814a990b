/**
 * One side of a workspace edited in place: the loops behind the field edits, the flattening, the
 * diff and the two replays. (tmh-next/internal/mock/backend.go)
 */
module Editor {
  import opened Sorting
  import opened Text
  import opened Topology
  import opened Domain
  import opened Reconcile
  import opened Undo
  import opened Plan

  /** A position is the first of its kind: what the lookups return. */
  lemma WindowFirst(ws: WorkspaceState, id: string, i: nat)
    requires i < |ws| && ws[i].id == id && forall j :: 0 <= j < i ==> ws[j].id != id
    ensures WindowIndex(ws, id) == i
  {
  }

  lemma NoWindow(ws: WorkspaceState, id: string)
    requires forall j :: 0 <= j < |ws| ==> ws[j].id != id
    ensures WindowIndex(ws, id) == -1
  {
  }

  lemma SurfaceFirst(ws: WorkspaceState, id: string, i: nat, k: nat)
    requires i < |ws| && k < |ws[i].surfaces| && ws[i].surfaces[k].id == id
    requires forall m :: 0 <= m < k ==> ws[i].surfaces[m].id != id
    requires forall j :: 0 <= j < i ==> !HoldsSurface(ws[j], id)
    ensures HolderIndex(ws, id) == i && SurfaceIndex(ws[i].surfaces, id) == k
  {
  }

  lemma NoSurface(ws: WorkspaceState, id: string)
    requires forall j :: 0 <= j < |ws| ==> !HoldsSurface(ws[j], id)
    ensures HolderIndex(ws, id) == -1
  {
  }

  class Side {
    var windows: WorkspaceState

    constructor (windows: WorkspaceState)
      ensures this.windows == windows
    {
      this.windows := windows;
    }

    /** Where the surface is, looking through window after window. */
    method FindSurface(id: string) returns (i: int, k: int)
      ensures i == HolderIndex(windows, id)
      ensures i >= 0 ==> i < |windows| && k == SurfaceIndex(windows[i].surfaces, id) && 0 <= k < |windows[i].surfaces|
    {
      for w := 0 to |windows|
        invariant forall j :: 0 <= j < w ==> !HoldsSurface(windows[j], id)
      {
        for s := 0 to |windows[w].surfaces|
          invariant forall m :: 0 <= m < s ==> windows[w].surfaces[m].id != id
        {
          if windows[w].surfaces[s].id == id {
            SurfaceFirst(windows, id, w, s);
            return w, s;
          }
        }
      }
      NoSurface(windows, id);
      return -1, -1;
    }

    method SetWindow(id: string, layout: string)
      modifies this
      ensures windows == SetLayout(old(windows), id, layout)
    {
      for i := 0 to |windows|
        invariant windows == old(windows)
        invariant forall j :: 0 <= j < i ==> windows[j].id != id
      {
        if windows[i].id == id {
          WindowFirst(windows, id, i);
          windows := windows[i := windows[i].(layout := layout)];
          return;
        }
      }
      NoWindow(windows, id);
      windows := windows + [WindowSpec(id, |windows|, layout, [])];
    }

    method SetWholeSurface(id: string, value: string)
      modifies this
      ensures windows == SetSurface(old(windows), id, value)
    {
      hide HolderIndex, SurfaceIndex;
      var (title, rest) := Cut(value, '~');
      var cwd := if rest.None? then "" else rest.value;
      var i, k := FindSurface(id);
      if i >= 0 {
        windows := windows[i := PutSurface(windows[i], k, windows[i].surfaces[k].(title := title, cwd := cwd))];
        return;
      }
      if windows == [] { windows := [RESTORED_WINDOW]; }
      var last := windows[|windows| - 1];
      windows := windows[|windows| - 1 := last.(surfaces := last.surfaces + [SurfaceSpec(id, title, cwd, "")])];
    }

    method SetSurfacePart(id: string, attribute: string, value: string) returns (ok: bool)
      modifies this
      ensures SetAttribute(old(windows), id, attribute, value) == if ok then Edited(windows) else Refused
      ensures !ok ==> windows == old(windows)
    {
      hide HolderIndex, SurfaceIndex;
      var i, k := FindSurface(id);
      if i < 0 { return false; }
      var sf := windows[i].surfaces[k];
      if attribute == "title" {
        sf := sf.(title := value);
      } else if attribute == "cwd" {
        sf := sf.(cwd := value);
      } else if attribute == "split" {
        sf := sf.(split := value);
      } else {
        return false;
      }
      windows := windows[i := PutSurface(windows[i], k, sf)];
      return true;
    }

    /** Writes a field path, or refuses and changes nothing. */
    method Set(field: string, value: string) returns (ok: bool)
      modifies this
      ensures SetField(old(windows), field, value) == if ok then Edited(windows) else Refused
      ensures !ok ==> windows == old(windows)
    {
      hide Split, SetLayout, SetSurface, SetAttribute;
      var parts := Split(field, '/');
      if |parts| == 2 && parts[0] == "window" {
        SetWindow(parts[1], value);
        return true;
      }
      if |parts| == 3 && parts[0] == "window" && parts[2] == "layout" {
        SetWindow(parts[1], value);
        return true;
      }
      if |parts| == 2 && parts[0] == "surface" {
        SetWholeSurface(parts[1], value);
        return true;
      }
      if |parts| == 3 && parts[0] == "surface" {
        ok := SetSurfacePart(parts[1], parts[2], value);
        return;
      }
      return false;
    }

    method RemoveWindow(id: string) returns (ok: bool)
      modifies this
      ensures ok <==> HasWindow(old(windows), id)
      ensures windows == if ok then DropWindow(old(windows), id) else old(windows)
    {
      for i := 0 to |windows|
        invariant windows == old(windows)
        invariant forall j :: 0 <= j < i ==> windows[j].id != id
      {
        if windows[i].id == id {
          WindowFirst(windows, id, i);
          windows := windows[..i] + windows[i + 1..];
          return true;
        }
      }
      NoWindow(windows, id);
      return false;
    }

    method RemoveSurface(id: string) returns (ok: bool)
      modifies this
      ensures ok <==> HasSurface(old(windows), id)
      ensures windows == if ok then DropSurface(old(windows), id) else old(windows)
    {
      hide HolderIndex, SurfaceIndex;
      var i, k := FindSurface(id);
      if i < 0 { return false; }
      windows := windows[i := windows[i].(surfaces := windows[i].surfaces[..k] + windows[i].surfaces[k + 1..])];
      return true;
    }

    /** Cuts a window or a surface out, or refuses and changes nothing. */
    method Remove(field: string) returns (ok: bool)
      modifies this
      ensures RemoveField(old(windows), field) == if ok then Edited(windows) else Refused
      ensures !ok ==> windows == old(windows)
    {
      hide Split, HasWindow, HasSurface, DropWindow, DropSurface;
      var parts := Split(field, '/');
      if |parts| != 2 { return false; }
      if parts[0] == "window" {
        ok := RemoveWindow(parts[1]);
        return;
      }
      if parts[0] == "surface" {
        ok := RemoveSurface(parts[1]);
        return;
      }
      return false;
    }

    /** Applies the operations in order; the first one refused ends it. */
    method Apply(ops: seq<RestoreOp>) returns (ok: bool)
      modifies this
      ensures ok <==> ApplyOps(old(windows), ops).Edited?
      ensures ok ==> ApplyOps(old(windows), ops) == Edited(windows)
    {
      hide SetField, RemoveField;
      for i := 0 to |ops|
        invariant ApplyOps(old(windows), ops) == ApplyOps(windows, ops[i..])
      {
        var op := ops[i];
        assert ops[i..][0] == op && ops[i..][1..] == ops[i + 1..];
        if op.after == "" {
          ok := Remove(op.field);
        } else {
          ok := Set(op.field, op.after);
        }
        if !ok { return false; }
      }
      return true;
    }

    /** Takes the operations back from the last to the first; a removal that finds nothing is ignored. */
    method Undo(ops: seq<RestoreOp>) returns (ok: bool)
      modifies this
      ensures ok <==> UndoOps(old(windows), ops).Edited?
      ensures ok ==> UndoOps(old(windows), ops) == Edited(windows)
    {
      hide SetField, RemoveField;
      var i := |ops|;
      while i > 0
        invariant 0 <= i <= |ops|
        invariant UndoOps(old(windows), ops[i..]) == Edited(windows)
      {
        i := i - 1;
        var op := ops[i];
        assert ops[i..][0] == op && ops[i..][1..] == ops[i + 1..];
        if op.beforeAbsent || op.before == "" {
          var _ := Remove(op.field);
        } else {
          ok := Set(op.field, op.before);
          if !ok {
            RefusedTail(old(windows), ops, i);
            return false;
          }
        }
      }
      assert ops[0..] == ops;
      return true;
    }
  }

  /** Once undoing is refused, no earlier operation makes it good. */
  lemma {:induction false} RefusedTail(ws: WorkspaceState, ops: seq<RestoreOp>, i: nat)
    requires i <= |ops| && UndoOps(ws, ops[i..]) == Refused
    ensures UndoOps(ws, ops) == Refused
    decreases i
  {
    hide UndoOne;
    if i == 0 {
      assert ops[0..] == ops;
    } else {
      assert ops[i - 1..][1..] == ops[i..];
      RefusedTail(ws, ops, i - 1);
    }
  }

  lemma MapStep(out: map<string, string>, key: string, value: string, rest: map<string, string>)
    ensures out[key := value] + rest == out + (map[key := value] + rest)
  {
  }

  lemma NoMore(out: map<string, string>)
    ensures out + map[] == out && SurfaceFields([]) == map[]
  {
  }

  lemma SurfaceStep(sfs: seq<SurfaceSpec>, k: nat)
    requires k < |sfs|
    ensures SurfaceFields(sfs[k..]) == map[SKey(sfs[k].id) := SurfaceValue(sfs[k])] + SurfaceFields(sfs[k + 1..])
  {
    assert sfs[k..][0] == sfs[k] && sfs[k..][1..] == sfs[k + 1..];
  }

  method AddWindow(into: map<string, string>, w: WindowSpec) returns (out: map<string, string>)
    ensures out == into + WindowFields(w)
  {
    hide WKey, SKey, SurfaceValue, SurfaceFields;
    var sfs := w.surfaces;
    out := into[WKey(w.id) := w.layout];
    MapStep(into, WKey(w.id), w.layout, SurfaceFields(sfs));
    assert sfs[0..] == sfs;
    for k := 0 to |sfs|
      invariant out + SurfaceFields(sfs[k..]) == into + WindowFields(w)
    {
      SurfaceStep(sfs, k);
      MapStep(out, SKey(sfs[k].id), SurfaceValue(sfs[k]), SurfaceFields(sfs[k + 1..]));
      out := out[SKey(sfs[k].id) := SurfaceValue(sfs[k])];
    }
    assert sfs[|sfs|..] == [];
    NoMore(out);
  }

  lemma WindowStep(ws: WorkspaceState, i: nat, out: map<string, string>)
    requires i < |ws|
    ensures out + Fields(ws[i..]) == (out + WindowFields(ws[i])) + Fields(ws[i + 1..])
  {
    hide WindowFields;
    assert ws[i..][0] == ws[i] && ws[i..][1..] == ws[i + 1..];
  }

  lemma NoWindows(out: map<string, string>)
    ensures out + Fields([]) == out && map[] + out == out
  {
  }

  /** Flattens window by window and surface by surface. */
  method StateFields(ws: WorkspaceState) returns (out: map<string, string>)
    ensures out == Fields(ws)
  {
    hide WindowFields, Fields;
    out := map[];
    assert ws[0..] == ws;
    NoWindows(Fields(ws));
    for i := 0 to |ws|
      invariant out + Fields(ws[i..]) == Fields(ws)
    {
      WindowStep(ws, i, out);
      out := AddWindow(out, ws[i]);
    }
    assert ws[|ws|..] == [];
    NoWindows(out);
  }

  lemma DiffStep(names: seq<string>, i: nat, fa: map<string, string>, fb: map<string, string>)
    requires i < |names| && (names[i] in fa || names[i] in fb)
    ensures DiffKeys(names[i..], fa, fb)
            == (if names[i] in fa && names[i] in fb && fa[names[i]] == fb[names[i]] then []
                else [FieldDiff(names[i], Get(fa, names[i]), Get(fb, names[i]), names[i] !in fa)]) + DiffKeys(names[i + 1..], fa, fb)
  {
    assert names[i..][0] == names[i] && names[i..][1..] == names[i + 1..];
  }

  /** Keeps, of these names, those on which the two flattenings disagree. */
  method CompareFields(names: seq<string>, fa: map<string, string>, fb: map<string, string>) returns (out: seq<FieldDiff>)
    requires forall n :: n in names ==> n in fa || n in fb
    ensures out == DiffKeys(names, fa, fb)
  {
    assert DiffKeys([], fa, fb) == [];
    hide DiffKeys;
    out := [];
    assert names[0..] == names;
    for i := 0 to |names|
      invariant out + DiffKeys(names[i..], fa, fb) == DiffKeys(names, fa, fb)
    {
      var f := names[i];
      assert f in names;
      DiffStep(names, i, fa, fb);
      if f in fa && f in fb && fa[f] == fb[f] { continue; }
      var d := FieldDiff(f, if f in fa then fa[f] else "", if f in fb then fb[f] else "", f !in fa);
      Regroup(out, d, DiffKeys(names[i + 1..], fa, fb));
      out := out + [d];
    }
    assert names[|names|..] == [];
  }

  lemma Regroup(a: seq<FieldDiff>, d: FieldDiff, b: seq<FieldDiff>)
    ensures a + ([d] + b) == (a + [d]) + b
  {
  }

  /** Flattens both states, sorts the names of their fields and compares. */
  method Compare(a: WorkspaceState, b: WorkspaceState) returns (out: seq<FieldDiff>)
    ensures out == DiffStates(a, b)
  {
    hide Fields, SortedKeys, DiffKeys, Less;
    var fa := StateFields(a);
    var fb := StateFields(b);
    var names := SortedNames(fa.Keys + fb.Keys);
    SortedKeysSpec(fa.Keys + fb.Keys);
    out := CompareFields(names, fa, fb);
  }
}
