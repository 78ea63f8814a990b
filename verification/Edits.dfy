/** What each edit of a workspace state does to its flattening: its own field, and no other. */
module Edits {
  import opened Text
  import opened Topology

  // ---- the flattening, window by window ------------------------------------------

  /** Every entry of the one is an entry of the other. */
  predicate Within(a: map<string, string>, b: map<string, string>) {
    a.Keys <= b.Keys && forall f :: f in a ==> a[f] == b[f]
  }

  lemma ReplaceBelow(head: map<string, string>, tail: map<string, string>, before: map<string, string>, after: map<string, string>)
    requires head.Keys !! tail.Keys && before.Keys <= tail.Keys
    ensures head + ((tail - before.Keys) + after) == ((head + tail) - before.Keys) + after
  {
  }

  lemma ReplaceTop(before: map<string, string>, tail: map<string, string>, after: map<string, string>)
    requires before.Keys !! tail.Keys && after.Keys !! tail.Keys
    ensures after + tail == ((before + tail) - before.Keys) + after
  {
  }

  lemma DropBelow(head: map<string, string>, tail: map<string, string>, gone: map<string, string>)
    requires head.Keys !! tail.Keys && gone.Keys <= tail.Keys
    ensures head + (tail - gone.Keys) == (head + tail) - gone.Keys
  {
  }

  lemma DropTop(head: map<string, string>, tail: map<string, string>)
    requires head.Keys !! tail.Keys
    ensures tail == (head + tail) - head.Keys
  {
  }

  lemma WithinBelow(part: map<string, string>, head: map<string, string>, tail: map<string, string>)
    requires Within(part, tail) && head.Keys !! tail.Keys
    ensures Within(part, head + tail)
  {
  }

  lemma WithinTop(head: map<string, string>, tail: map<string, string>)
    requires head.Keys !! tail.Keys
    ensures Within(head, head + tail)
  {
  }

  lemma FieldsHead(ws: WorkspaceState)
    requires ws != []
    ensures Fields(ws) == WindowFields(ws[0]) + Fields(ws[1..])
  {
  }

  /** Replacing one window by another exchanges the fields of the one for those of the other. */
  lemma {:induction false} FieldsReplace(ws: WorkspaceState, i: nat, w: WindowSpec)
    requires Unique(ws) && i < |ws| && Unique(ws[i := w])
    ensures Fields(ws[i := w]) == (Fields(ws) - WindowFields(ws[i]).Keys) + WindowFields(w)
    ensures Within(WindowFields(ws[i]), Fields(ws))
  {
    hide WindowFields, Unique, Fields;
    var t, v := ws[1..], ws[i := w];
    HeadDisjoint(ws);
    HeadDisjoint(v);
    UniqueTail(ws);
    UniqueTail(v);
    FieldsHead(ws);
    FieldsHead(v);
    if i == 0 {
      assert v[1..] == t;
      ReplaceTop(WindowFields(ws[0]), Fields(t), WindowFields(w));
      WithinTop(WindowFields(ws[0]), Fields(t));
    } else {
      assert v[1..] == t[i - 1 := w] && t[i - 1] == ws[i];
      FieldsReplace(t, i - 1, w);
      ReplaceBelow(WindowFields(ws[0]), Fields(t), WindowFields(ws[i]), WindowFields(w));
      WithinBelow(WindowFields(ws[i]), WindowFields(ws[0]), Fields(t));
    }
  }

  lemma {:induction false} FieldsAppendWindow(ws: WorkspaceState, w: WindowSpec)
    ensures Fields(ws + [w]) == Fields(ws) + WindowFields(w)
  {
    hide WindowFields;
    if ws == [] {
      assert ws + [w] == [w];
    } else {
      assert (ws + [w])[1..] == ws[1..] + [w];
      FieldsAppendWindow(ws[1..], w);
    }
  }

  lemma {:induction false} FieldsDropWindow(ws: WorkspaceState, i: nat)
    requires Unique(ws) && i < |ws|
    ensures Fields(ws[..i] + ws[i + 1..]) == Fields(ws) - WindowFields(ws[i]).Keys
    ensures Within(WindowFields(ws[i]), Fields(ws))
  {
    hide WindowFields, Unique, Fields;
    var t := ws[1..];
    HeadDisjoint(ws);
    UniqueTail(ws);
    FieldsHead(ws);
    if i == 0 {
      assert ws[..i] + ws[i + 1..] == t;
      DropTop(WindowFields(ws[0]), Fields(t));
      WithinTop(WindowFields(ws[0]), Fields(t));
    } else {
      var d := ws[..i] + ws[i + 1..];
      assert d[0] == ws[0] && d[1..] == t[..i - 1] + t[i - 1 + 1..] && t[i - 1] == ws[i];
      FieldsDropWindow(t, i - 1);
      FieldsHead(d);
      DropBelow(WindowFields(ws[0]), Fields(t), WindowFields(ws[i]));
      WithinBelow(WindowFields(ws[i]), WindowFields(ws[0]), Fields(t));
    }
  }

  // ---- the flattening of one window ------------------------------------------------

  lemma SurfacesHead(sfs: seq<SurfaceSpec>)
    requires sfs != []
    ensures SurfaceFields(sfs) == map[SKey(sfs[0].id) := SurfaceValue(sfs[0])] + SurfaceFields(sfs[1..])
  {
  }

  lemma {:induction false} SurfaceFieldsPut(sfs: seq<SurfaceSpec>, k: nat, sf: SurfaceSpec)
    requires UniqueSurfaces(sfs) && k < |sfs| && sf.id == sfs[k].id
    ensures SurfaceFields(sfs[k := sf]) == SurfaceFields(sfs)[SKey(sf.id) := SurfaceValue(sf)]
  {
    hide SKey, SurfaceValue, SurfaceIndex, SurfaceFields;
    var t, u := sfs[1..], sfs[k := sf];
    SurfacesHead(sfs);
    SurfacesHead(u);
    if k == 0 {
      assert u[1..] == t;
      SurfaceFieldsHas(t, sf.id);
    } else {
      assert u[1..] == t[k - 1 := sf] && t[k - 1] == sfs[k];
      SurfaceFieldsPut(t, k - 1, sf);
      KeyInjective(sf.id, sfs[0].id);
    }
  }

  lemma {:induction false} SurfaceFieldsWithout(sfs: seq<SurfaceSpec>, k: nat)
    requires UniqueSurfaces(sfs) && k < |sfs|
    ensures SurfaceFields(Without(sfs, k)) == SurfaceFields(sfs) - {SKey(sfs[k].id)}
  {
    hide SKey, SurfaceValue, SurfaceIndex, SurfaceFields;
    var t := sfs[1..];
    SurfacesHead(sfs);
    if k == 0 {
      assert Without(sfs, k) == t;
      SurfaceFieldsHas(t, sfs[0].id);
    } else {
      SurfaceFieldsWithout(t, k - 1);
      var d := Without(sfs, k);
      assert d[0] == sfs[0] && d[1..] == Without(t, k - 1) && t[k - 1] == sfs[k];
      SurfacesHead(d);
      KeyInjective(sfs[k].id, sfs[0].id);
    }
  }

  lemma {:induction false} SurfaceFieldsAppend(sfs: seq<SurfaceSpec>, sf: SurfaceSpec)
    ensures SurfaceFields(sfs + [sf]) == SurfaceFields(sfs)[SKey(sf.id) := SurfaceValue(sf)]
  {
    hide SKey, SurfaceValue;
    if sfs == [] {
      assert sfs + [sf] == [sf];
    } else {
      SurfaceFieldsAppend(sfs[1..], sf);
      assert (sfs + [sf])[1..] == sfs[1..] + [sf];
    }
  }

  // ---- edits keep ids unique -----------------------------------------------------

  /** Replacing a window by one with the same id and no surface that another window holds. */
  lemma UniqueReplace(ws: WorkspaceState, i: nat, w: WindowSpec)
    requires Unique(ws) && i < |ws|
    requires w.id == ws[i].id && UniqueSurfaces(w.surfaces)
    requires forall x, j :: 0 <= j < |ws| && j != i && HoldsSurface(w, x) ==> !HoldsSurface(ws[j], x)
    ensures Unique(ws[i := w])
  {
    hide HoldsSurface;
  }

  lemma SetLayoutUnique(ws: WorkspaceState, id: string, layout: string)
    requires Unique(ws)
    ensures Unique(SetLayout(ws, id, layout)) && SetLayout(ws, id, layout) != []
  {
    var i := WindowIndex(ws, id);
    if i >= 0 {
      UniqueReplace(ws, i, ws[i].(layout := layout));
    } else {
      assert forall x :: !HoldsSurface(WindowSpec(id, |ws|, layout, []), x);
    }
  }

  lemma DropWindowUnique(ws: WorkspaceState, id: string)
    requires Unique(ws) && HasWindow(ws, id)
    ensures Unique(DropWindow(ws, id))
  {
    hide HoldsSurface, WindowIndex;
    var i := WindowIndex(ws, id);
    var d := DropWindow(ws, id);
    assert forall j :: 0 <= j < |d| ==> d[j] == if j < i then ws[j] else ws[j + 1];
  }

  lemma DropSurfaceUnique(ws: WorkspaceState, id: string)
    requires Unique(ws) && HasSurface(ws, id)
    ensures Unique(DropSurface(ws, id)) && |DropSurface(ws, id)| == |ws|
  {
    hide HolderIndex, SurfaceIndex;
    var i := HolderIndex(ws, id);
    var k := SurfaceIndex(ws[i].surfaces, id);
    var w := ws[i].(surfaces := Without(ws[i].surfaces, k));
    assert forall j :: 0 <= j < |w.surfaces| ==> w.surfaces[j] == ws[i].surfaces[if j < k then j else j + 1];
    UniqueReplace(ws, i, w);
  }

  lemma PutSurfaceUnique(ws: WorkspaceState, i: nat, k: nat, sf: SurfaceSpec)
    requires Unique(ws) && i < |ws| && k < |ws[i].surfaces| && sf.id == ws[i].surfaces[k].id
    ensures Unique(ws[i := PutSurface(ws[i], k, sf)])
  {
    hide SurfaceIndex;
    var w := PutSurface(ws[i], k, sf);
    assert forall j :: 0 <= j < |w.surfaces| ==> w.surfaces[j].id == ws[i].surfaces[j].id;
    UniqueReplace(ws, i, w);
  }

  lemma AppendSurfaceUnique(ws: WorkspaceState, sf: SurfaceSpec)
    requires Unique(ws) && ws != [] && !HasSurface(ws, sf.id)
    ensures Unique(AppendSurface(ws, sf))
  {
    hide SurfaceIndex, HolderIndex;
    var n := |ws| - 1;
    var w := AppendSurface(ws, sf)[n];
    assert !HoldsSurface(ws[n], sf.id);
    forall x, j | 0 <= j < |ws| && j != n && HoldsSurface(w, x) ensures !HoldsSurface(ws[j], x) {
      var k := SurfaceIndex(w.surfaces, x);
      if k < |ws[n].surfaces| { assert ws[n].surfaces[k].id == x; }
    }
    UniqueReplace(ws, n, w);
  }

  // ---- one edit, one field ---------------------------------------------------------

  lemma SetLayoutFields(ws: WorkspaceState, id: string, layout: string)
    requires Unique(ws)
    ensures Fields(SetLayout(ws, id, layout)) == Fields(ws)[WKey(id) := layout]
  {
    hide SKey, WKey, Fields, SurfaceFields, Unique, WindowIndex, HoldsSurface;
    SetLayoutUnique(ws, id, layout);
    var i := WindowIndex(ws, id);
    if i >= 0 {
      var w := ws[i].(layout := layout);
      FieldsReplace(ws, i, w);
      SurfaceFieldsHas(w.surfaces, id);
    } else {
      FieldsAppendWindow(ws, WindowSpec(id, |ws|, layout, []));
      NoSurfaceFields();
    }
  }

  lemma NoSurfaceFields()
    ensures SurfaceFields([]) == map[]
  {
  }

  /** Exchanging the surfaces of one window for others whose fields are known. */
  lemma SurfacesFields(ws: WorkspaceState, i: nat, w: WindowSpec)
    requires Unique(ws) && i < |ws| && Unique(ws[i := w])
    requires w.id == ws[i].id && w.layout == ws[i].layout
    ensures Fields(ws[i := w]) == (Fields(ws) - SurfaceFields(ws[i].surfaces).Keys) + SurfaceFields(w.surfaces)
    ensures Within(SurfaceFields(ws[i].surfaces), Fields(ws))
  {
    hide SKey, WKey, Fields, SurfaceFields, Unique, SurfaceIndex;
    FieldsReplace(ws, i, w);
    SurfaceFieldsHas(ws[i].surfaces, w.id);
    SurfaceFieldsHas(w.surfaces, w.id);
  }

  lemma DropSurfaceFields(ws: WorkspaceState, id: string)
    requires Unique(ws) && HasSurface(ws, id)
    ensures Fields(DropSurface(ws, id)) == Fields(ws) - {SKey(id)}
  {
    hide SKey, WKey, Fields, SurfaceFields, SurfaceIndex, HolderIndex;
    DropSurfaceUnique(ws, id);
    var i := HolderIndex(ws, id);
    var k := SurfaceIndex(ws[i].surfaces, id);
    SurfaceFieldsWithout(ws[i].surfaces, k);
    SurfacesFields(ws, i, ws[i].(surfaces := Without(ws[i].surfaces, k)));
    SurfaceFieldsHas(ws[i].surfaces, id);
  }

  lemma DropWindowFields(ws: WorkspaceState, id: string)
    requires Unique(ws) && HasWindow(ws, id)
    ensures Fields(DropWindow(ws, id)) == Fields(ws) - WindowFields(ws[WindowIndex(ws, id)]).Keys
  {
    FieldsDropWindow(ws, WindowIndex(ws, id));
  }

  /** Writing a surface field: that field takes the value as it stands, every other keeps its own. */
  lemma SetSurfaceFields(ws: WorkspaceState, id: string, value: string)
    requires Unique(ws) && ws != [] && '~' in value
    ensures Fields(SetSurface(ws, id, value)) == Fields(ws)[SKey(id) := value]
    ensures Unique(SetSurface(ws, id, value)) && |SetSurface(ws, id, value)| == |ws|
  {
    hide SKey, WKey, Fields, SurfaceFields, SurfaceIndex, HolderIndex, Cut, Unique;
    var (title, rest) := Cut(value, '~');
    assert title + "~" + rest.value == value;
    var i := HolderIndex(ws, id);
    if i >= 0 {
      var k := SurfaceIndex(ws[i].surfaces, id);
      var sf := ws[i].surfaces[k].(title := title, cwd := rest.value);
      PutSurfaceUnique(ws, i, k, sf);
      assert UniqueSurfaces(ws[i].surfaces) by { UniqueAt(ws, i); }
      SurfaceFieldsPut(ws[i].surfaces, k, sf);
      SurfacesFields(ws, i, PutSurface(ws[i], k, sf));
    } else {
      var sf := SurfaceSpec(id, title, rest.value, "");
      var n := |ws| - 1;
      AppendSurfaceUnique(ws, sf);
      SurfaceFieldsAppend(ws[n].surfaces, sf);
      SurfacesFields(ws, n, AppendSurface(ws, sf)[n]);
    }
  }

  lemma UniqueAt(ws: WorkspaceState, i: nat)
    requires Unique(ws) && i < |ws|
    ensures UniqueSurfaces(ws[i].surfaces)
  {
  }

  // ---- field paths -------------------------------------------------------------------

  /** Writing one attribute of a surface changes that and nothing else; a surface that is not there, or another attribute, is refused. */
  lemma SetAttributeMeans(ws: WorkspaceState, id: string, attribute: string, value: string)
    ensures SetAttribute(ws, id, attribute, value).Edited? <==> HasSurface(ws, id) && attribute in {"title", "cwd", "split"}
    ensures SetAttribute(ws, id, attribute, value).Edited? ==>
              var r := SetAttribute(ws, id, attribute, value).state;
              exists i, k :: 0 <= i < |ws| && 0 <= k < |ws[i].surfaces| && ws[i].surfaces[k].id == id && (forall j :: 0 <= j < i ==> !HoldsSurface(ws[j], id))
                             && |r| == |ws| && (forall j :: 0 <= j < |ws| && j != i ==> r[j] == ws[j])
                             && r[i] == ws[i].(surfaces := ws[i].surfaces[k := Attributed(ws[i].surfaces[k], attribute, value)])
  {
    var i := HolderIndex(ws, id);
    if i >= 0 && attribute in {"title", "cwd", "split"} {
      var k := SurfaceIndex(ws[i].surfaces, id);
      var r := SetAttribute(ws, id, attribute, value).state;
      assert ws[i].surfaces[k].id == id && r[i] == ws[i].(surfaces := ws[i].surfaces[k := Attributed(ws[i].surfaces[k], attribute, value)]);
    }
  }

  function Attributed(sf: SurfaceSpec, attribute: string, value: string): SurfaceSpec {
    match attribute
    case "title" => sf.(title := value)
    case "cwd" => sf.(cwd := value)
    case _ => sf.(split := value)
  }

  /** Which paths can be written, and what each one writes; all others are refused. */
  lemma SetFieldPaths(ws: WorkspaceState, parts: seq<string>, value: string)
    requires parts != [] && forall i :: 0 <= i < |parts| ==> '/' !in parts[i]
    ensures SetField(ws, Join(parts, '/'), value) ==
              match parts[0]
              case "window" => (if |parts| == 2 || (|parts| == 3 && parts[2] == "layout") then Edited(SetLayout(ws, parts[1], value)) else Refused)
              case "surface" =>
                (if |parts| == 2 then Edited(SetSurface(ws, parts[1], value))
                 else if |parts| == 3 then SetAttribute(ws, parts[1], parts[2], value) else Refused)
              case _ => Refused
    ensures RemoveField(ws, Join(parts, '/')) ==
              if |parts| != 2 then Refused
              else if parts[0] == "window" && HasWindow(ws, parts[1]) then Edited(DropWindow(ws, parts[1]))
              else if parts[0] == "surface" && HasSurface(ws, parts[1]) then Edited(DropSurface(ws, parts[1]))
              else Refused
  {
    hide SetLayout, SetSurface, SetAttribute, DropWindow, DropSurface, HasWindow, HasSurface, Split;
    SplitJoin(parts, '/');
  }
}
