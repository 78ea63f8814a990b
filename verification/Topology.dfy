/**
 * The shape of a workspace: windows holding surfaces, its flattening into one
 * string field per window and surface, and the two edits a restore plan makes.
 * (tmh-next/internal/domain/model.go, tmh-next/internal/mock/backend.go)
 */
module Topology {
  import opened Text

  datatype SurfaceSpec = SurfaceSpec(id: string, title: string, cwd: string, split: string)

  datatype WindowSpec = WindowSpec(id: string, index: int, layout: string, surfaces: seq<SurfaceSpec>)

  type WorkspaceState = seq<WindowSpec>

  datatype Edit = Edited(state: WorkspaceState) | Refused

  // ---- flattening ------------------------------------------------------------

  function WKey(id: string): string { "window/" + id }

  function SKey(id: string): string { "surface/" + id }

  function SurfaceValue(sf: SurfaceSpec): string { sf.title + "~" + sf.cwd }

  function SurfaceFields(sfs: seq<SurfaceSpec>): map<string, string> {
    if sfs == [] then map[]
    else map[SKey(sfs[0].id) := SurfaceValue(sfs[0])] + SurfaceFields(sfs[1..])
  }

  function WindowFields(w: WindowSpec): map<string, string> {
    map[WKey(w.id) := w.layout] + SurfaceFields(w.surfaces)
  }

  /** One field per window and per surface; a later entry overrides an earlier one. */
  function Fields(ws: WorkspaceState): map<string, string> {
    if ws == [] then map[] else WindowFields(ws[0]) + Fields(ws[1..])
  }

  // ---- lookups ---------------------------------------------------------------

  /** Position of the surface in a window, or -1. */
  function SurfaceIndex(sfs: seq<SurfaceSpec>, id: string, from: nat := 0): (k: int)
    requires from <= |sfs|
    ensures k >= 0 ==> from <= k < |sfs| && sfs[k].id == id && forall j :: from <= j < k ==> sfs[j].id != id
    ensures k < 0 ==> k == -1 && forall j :: from <= j < |sfs| ==> sfs[j].id != id
    decreases |sfs| - from
  {
    if from == |sfs| then -1
    else if sfs[from].id == id then from
    else SurfaceIndex(sfs, id, from + 1)
  }

  predicate HoldsSurface(w: WindowSpec, id: string) {
    SurfaceIndex(w.surfaces, id) >= 0
  }

  /** Position of the first window with that id, or -1. */
  function WindowIndex(ws: WorkspaceState, id: string, from: nat := 0): (i: int)
    requires from <= |ws|
    ensures i >= 0 ==> from <= i < |ws| && ws[i].id == id && forall j :: from <= j < i ==> ws[j].id != id
    ensures i < 0 ==> i == -1 && forall j :: from <= j < |ws| ==> ws[j].id != id
    decreases |ws| - from
  {
    if from == |ws| then -1
    else if ws[from].id == id then from
    else WindowIndex(ws, id, from + 1)
  }

  /** Position of the first window holding that surface, or -1. */
  function HolderIndex(ws: WorkspaceState, id: string, from: nat := 0): (i: int)
    requires from <= |ws|
    ensures i >= 0 ==> from <= i < |ws| && HoldsSurface(ws[i], id) && forall j :: from <= j < i ==> !HoldsSurface(ws[j], id)
    ensures i < 0 ==> i == -1 && forall j :: from <= j < |ws| ==> !HoldsSurface(ws[j], id)
    decreases |ws| - from
  {
    if from == |ws| then -1
    else if HoldsSurface(ws[from], id) then from
    else HolderIndex(ws, id, from + 1)
  }

  predicate HasWindow(ws: WorkspaceState, id: string) {
    WindowIndex(ws, id) >= 0
  }

  predicate HasSurface(ws: WorkspaceState, id: string) {
    HolderIndex(ws, id) >= 0
  }

  function SurfaceCount(ws: WorkspaceState): nat {
    if ws == [] then 0 else |ws[0].surfaces| + SurfaceCount(ws[1..])
  }

  /** No two windows share an id and no two surfaces of the workspace share one. */
  ghost predicate Unique(ws: WorkspaceState) {
    && (forall i, j :: 0 <= i < j < |ws| ==> ws[i].id != ws[j].id)
    && (forall i :: 0 <= i < |ws| ==> UniqueSurfaces(ws[i].surfaces))
    && (forall i, j, x :: 0 <= i < j < |ws| && HoldsSurface(ws[i], x) ==> !HoldsSurface(ws[j], x))
  }

  predicate UniqueSurfaces(sfs: seq<SurfaceSpec>) {
    forall j, k :: 0 <= j < k < |sfs| ==> sfs[j].id != sfs[k].id
  }

  // ---- edits -----------------------------------------------------------------

  function SetLayout(ws: WorkspaceState, id: string, layout: string): WorkspaceState {
    var i := WindowIndex(ws, id);
    if i >= 0 then ws[i := ws[i].(layout := layout)]
    else ws + [WindowSpec(id, |ws|, layout, [])]
  }

  /** The window with its k-th surface replaced. */
  function PutSurface(w: WindowSpec, k: nat, sf: SurfaceSpec): WindowSpec
    requires k < |w.surfaces|
  {
    w.(surfaces := w.surfaces[k := sf])
  }

  const RESTORED_WINDOW := WindowSpec("win-restored", 0, "", [])

  /** Retitles the surface where it is; a new one goes to the end of the last window. */
  function SetSurface(ws: WorkspaceState, id: string, value: string): (r: WorkspaceState) {
    var (title, rest) := Cut(value, '~');
    var cwd := if rest.None? then "" else rest.value;
    var i := HolderIndex(ws, id);
    if i >= 0 then
      var k := SurfaceIndex(ws[i].surfaces, id);
      ws[i := PutSurface(ws[i], k, ws[i].surfaces[k].(title := title, cwd := cwd))]
    else
      AppendSurface(if ws == [] then [RESTORED_WINDOW] else ws, SurfaceSpec(id, title, cwd, ""))
  }

  function AppendSurface(ws: WorkspaceState, sf: SurfaceSpec): WorkspaceState
    requires ws != []
  {
    var last := ws[|ws| - 1];
    ws[|ws| - 1 := last.(surfaces := last.surfaces + [sf])]
  }

  function SetAttribute(ws: WorkspaceState, id: string, attribute: string, value: string): Edit {
    var i := HolderIndex(ws, id);
    if i < 0 then Refused
    else
      var k := SurfaceIndex(ws[i].surfaces, id);
      var sf := ws[i].surfaces[k];
      if attribute == "title" then Edited(ws[i := PutSurface(ws[i], k, sf.(title := value))])
      else if attribute == "cwd" then Edited(ws[i := PutSurface(ws[i], k, sf.(cwd := value))])
      else if attribute == "split" then Edited(ws[i := PutSurface(ws[i], k, sf.(split := value))])
      else Refused
  }

  /** Writes one field path. Two-part paths address a whole window or surface. */
  function SetField(ws: WorkspaceState, field: string, value: string): Edit {
    var parts := Split(field, '/');
    if |parts| == 2 && parts[0] == "window" then Edited(SetLayout(ws, parts[1], value))
    else if |parts| == 3 && parts[0] == "window" && parts[2] == "layout" then Edited(SetLayout(ws, parts[1], value))
    else if |parts| == 2 && parts[0] == "surface" then Edited(SetSurface(ws, parts[1], value))
    else if |parts| == 3 && parts[0] == "surface" then SetAttribute(ws, parts[1], parts[2], value)
    else Refused
  }

  function DropWindow(ws: WorkspaceState, id: string): WorkspaceState
    requires HasWindow(ws, id)
  {
    var i := WindowIndex(ws, id);
    ws[..i] + ws[i + 1..]
  }

  function Without(sfs: seq<SurfaceSpec>, k: nat): seq<SurfaceSpec>
    requires k < |sfs|
  {
    sfs[..k] + sfs[k + 1..]
  }

  function DropSurface(ws: WorkspaceState, id: string): WorkspaceState
    requires HasSurface(ws, id)
  {
    var i := HolderIndex(ws, id);
    var k := SurfaceIndex(ws[i].surfaces, id);
    ws[i := ws[i].(surfaces := Without(ws[i].surfaces, k))]
  }

  /** Deletes a window, with all it holds, or one surface. */
  function RemoveField(ws: WorkspaceState, field: string): Edit {
    var parts := Split(field, '/');
    if |parts| != 2 then Refused
    else if parts[0] == "window" && HasWindow(ws, parts[1]) then Edited(DropWindow(ws, parts[1]))
    else if parts[0] == "surface" && HasSurface(ws, parts[1]) then Edited(DropSurface(ws, parts[1]))
    else Refused
  }

  // ---- keys ------------------------------------------------------------------

  lemma KeyInjective(a: string, b: string)
    ensures WKey(a) == WKey(b) ==> a == b
    ensures SKey(a) == SKey(b) ==> a == b
    ensures WKey(a) != SKey(b)
  {
    assert WKey(a)[7..] == a && WKey(b)[7..] == b;
    assert SKey(a)[8..] == a && SKey(b)[8..] == b;
    assert WKey(a)[0] == 'w' && SKey(b)[0] == 's';
  }

  /** Surface fields come before window fields in the plan order. */
  lemma SurfacesFirst(a: string, b: string)
    ensures Less(SKey(a), WKey(b))
  {
    assert SKey(a)[0] == 's' && WKey(b)[0] == 'w';
  }

  lemma KeySplit(id: string)
    requires '/' !in id
    ensures Split(WKey(id), '/') == ["window", id]
    ensures Split(SKey(id), '/') == ["surface", id]
  {
    assert WKey(id) == "window" + ['/'] + id;
    assert SKey(id) == "surface" + ['/'] + id;
    SplitAt("window", '/', id);
    SplitAt("surface", '/', id);
    SplitNone(id, '/');
  }

  // ---- what is in the flattening -----------------------------------------------

  lemma {:induction false} SurfaceFieldsAt(sfs: seq<SurfaceSpec>, k: nat)
    requires k < |sfs|
    ensures SKey(sfs[k].id) in SurfaceFields(sfs)
    ensures UniqueSurfaces(sfs) ==> SurfaceFields(sfs)[SKey(sfs[k].id)] == SurfaceValue(sfs[k])
  {
    hide SKey, SurfaceValue;
    if k > 0 {
      SurfaceFieldsAt(sfs[1..], k - 1);
      assert UniqueSurfaces(sfs) ==> UniqueSurfaces(sfs[1..]);
    } else if UniqueSurfaces(sfs) && SKey(sfs[0].id) in SurfaceFields(sfs[1..]) {
      var i := SurfaceFieldsOnly(sfs[1..], SKey(sfs[0].id));
      KeyInjective(sfs[0].id, sfs[1..][i].id);
      assert false;
    }
  }

  lemma {:induction false} SurfaceFieldsOnly(sfs: seq<SurfaceSpec>, f: string) returns (k: nat)
    requires f in SurfaceFields(sfs)
    ensures k < |sfs| && f == SKey(sfs[k].id)
  {
    hide SKey, SurfaceValue;
    if f in SurfaceFields(sfs[1..]) {
      k := SurfaceFieldsOnly(sfs[1..], f);
      k := k + 1;
    } else {
      k := 0;
    }
  }

  /** A surface field is present exactly if the window holds the surface; window fields are not in it. */
  lemma SurfaceFieldsHas(sfs: seq<SurfaceSpec>, id: string)
    ensures SKey(id) in SurfaceFields(sfs) <==> SurfaceIndex(sfs, id) >= 0
    ensures WKey(id) !in SurfaceFields(sfs)
  {
    hide SKey, WKey, SurfaceFields;
    var k := SurfaceIndex(sfs, id);
    if k >= 0 { SurfaceFieldsAt(sfs, k); }
    if SKey(id) in SurfaceFields(sfs) {
      var j := SurfaceFieldsOnly(sfs, SKey(id));
      KeyInjective(id, sfs[j].id);
    }
    if WKey(id) in SurfaceFields(sfs) {
      var j := SurfaceFieldsOnly(sfs, WKey(id));
      KeyInjective(id, sfs[j].id);
      assert false;
    }
  }

  lemma WindowFieldsHas(w: WindowSpec, id: string)
    ensures WKey(id) in WindowFields(w) <==> id == w.id
    ensures SKey(id) in WindowFields(w) <==> HoldsSurface(w, id)
    ensures WindowFields(w)[WKey(w.id)] == w.layout
  {
    hide SKey, WKey, SurfaceFields, SurfaceIndex;
    SurfaceFieldsHas(w.surfaces, id);
    SurfaceFieldsHas(w.surfaces, w.id);
    KeyInjective(id, w.id);
    KeyInjective(w.id, id);
  }

  lemma WindowFieldsOnly(w: WindowSpec, f: string)
    requires f in WindowFields(w)
    ensures f == WKey(w.id) || exists x :: f == SKey(x) && HoldsSurface(w, x)
  {
    hide SKey, WKey, SurfaceFields, SurfaceIndex;
    if f != WKey(w.id) {
      var k := SurfaceFieldsOnly(w.surfaces, f);
      SurfaceFieldsHas(w.surfaces, w.surfaces[k].id);
    }
  }

  lemma UniqueTail(ws: WorkspaceState)
    requires Unique(ws) && ws != []
    ensures Unique(ws[1..])
  {
    hide SurfaceIndex;
    var t := ws[1..];
    assert forall i :: 0 <= i < |t| ==> t[i] == ws[i + 1];
  }

  lemma HasTail(ws: WorkspaceState, id: string)
    requires ws != []
    ensures HasWindow(ws, id) <==> ws[0].id == id || HasWindow(ws[1..], id)
    ensures HasSurface(ws, id) <==> HoldsSurface(ws[0], id) || HasSurface(ws[1..], id)
  {
    hide SurfaceIndex, HoldsSurface, WindowIndex, HolderIndex;
    var t := ws[1..];
    var i, j := WindowIndex(ws, id), WindowIndex(t, id);
    assert i > 0 ==> t[i - 1] == ws[i];
    assert j >= 0 ==> ws[j + 1] == t[j];
    i, j := HolderIndex(ws, id), HolderIndex(t, id);
    assert i > 0 ==> t[i - 1] == ws[i];
    assert j >= 0 ==> ws[j + 1] == t[j];
  }

  /** Field names: exactly the windows and surfaces present. */
  lemma {:induction false} FieldsHas(ws: WorkspaceState, id: string)
    ensures WKey(id) in Fields(ws) <==> HasWindow(ws, id)
    ensures SKey(id) in Fields(ws) <==> HasSurface(ws, id)
  {
    hide SKey, WKey, WindowFields, HoldsSurface;
    if ws != [] {
      FieldsHas(ws[1..], id);
      WindowFieldsHas(ws[0], id);
      HasTail(ws, id);
    }
  }

  lemma {:induction false} FieldsOnly(ws: WorkspaceState, f: string)
    requires f in Fields(ws)
    ensures exists x :: f == WKey(x) || f == SKey(x)
  {
    hide SKey, WKey, WindowFields, HoldsSurface;
    if f in Fields(ws[1..]) {
      FieldsOnly(ws[1..], f);
    } else {
      WindowFieldsOnly(ws[0], f);
    }
  }

  /** The windows of a workspace share no field. */
  lemma HeadDisjoint(ws: WorkspaceState)
    requires Unique(ws) && ws != []
    ensures WindowFields(ws[0]).Keys !! Fields(ws[1..]).Keys
  {
    hide SKey, WKey, WindowFields, HoldsSurface, Fields, WindowIndex, HolderIndex;
    var t := ws[1..];
    forall f | f in WindowFields(ws[0]) ensures f !in Fields(t) {
      WindowFieldsOnly(ws[0], f);
      if f == WKey(ws[0].id) {
        FieldsHas(t, ws[0].id);
      } else {
        var x :| f == SKey(x) && HoldsSurface(ws[0], x);
        FieldsHas(t, x);
      }
    }
  }
}
