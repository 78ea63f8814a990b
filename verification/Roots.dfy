/**
 * Roots inferred from live directories: where the paths fork, and which root covers a directory.
 * (internal/actions/sync.go)
 */
module Roots {
  import opened Text
  import opened Sorting
  import opened Yaml
  import R = Resolver

  datatype LiveWindow = LiveWindow(name: string, dir: string, command: string)

  datatype LiveSession = LiveSession(name: string, windows: seq<LiveWindow>)

  // ---- roots ---------------------------------------------------------------------------------

  function Parts(dir: string): seq<string> { Split(dir, '/') }

  /** The longest common beginning of two element lists. */
  function Common(a: seq<string>, b: seq<string>): seq<string> {
    if a == [] || b == [] || a[0] != b[0] then [] else [a[0]] + Common(a[1..], b[1..])
  }

  lemma {:induction false} CommonPrefix(a: seq<string>, b: seq<string>)
    ensures Common(a, b) <= a && Common(a, b) <= b
  {
    if a != [] && b != [] && a[0] == b[0] {
      CommonPrefix(a[1..], b[1..]);
      assert a == [a[0]] + a[1..] && b == [b[0]] + b[1..];
    }
  }

  lemma {:induction false} CommonGreatest(a: seq<string>, b: seq<string>, p: seq<string>)
    requires p <= a && p <= b
    ensures p <= Common(a, b)
  {
    if p != [] {
      assert p[0] == a[0] == b[0];
      CommonGreatest(a[1..], b[1..], p[1..]);
      assert p == [p[0]] + p[1..];
    }
  }

  lemma CommonStep(a: seq<string>, b: seq<string>, i: nat)
    requires i <= |a| && i <= |b|
    ensures i < |a| && i < |b| && a[i] == b[i] ==> Common(a[i..], b[i..]) == [a[i]] + Common(a[i + 1..], b[i + 1..])
    ensures !(i < |a| && i < |b| && a[i] == b[i]) ==> Common(a[i..], b[i..]) == []
  {
    if i < |a| && i < |b| {
      assert a[i..][0] == a[i] && b[i..][0] == b[i] && a[i..][1..] == a[i + 1..] && b[i..][1..] == b[i + 1..];
    }
  }

  method LcpSegments(a: seq<string>, b: seq<string>) returns (out: seq<string>)
    ensures out == Common(a, b)
  {
    hide Common;
    var n := if |b| < |a| then |b| else |a|;
    out := [];
    var i := 0;
    assert a[0..] == a && b[0..] == b;
    while i < n && a[i] == b[i]
      invariant 0 <= i <= n
      invariant Common(a, b) == out + Common(a[i..], b[i..])
    {
      CommonStep(a, b, i);
      out := out + [a[i]];
      i := i + 1;
    }
    CommonStep(a, b, i);
  }

  /** The longest beginning all the paths share. */
  function CommonOf(paths: seq<string>): seq<string>
    requires paths != []
  {
    if |paths| == 1 then Parts(paths[0]) else Common(CommonOf(paths[..|paths| - 1]), Parts(paths[|paths| - 1]))
  }

  lemma {:induction false} CommonOfPrefix(paths: seq<string>, i: nat)
    requires i < |paths|
    ensures CommonOf(paths) <= Parts(paths[i])
  {
    hide Parts;
    var n := |paths| - 1;
    if n > 0 {
      CommonPrefix(CommonOf(paths[..n]), Parts(paths[n]));
      if i < n { CommonOfPrefix(paths[..n], i); }
    }
  }

  /** No longer beginning is shared by all. */
  lemma {:induction false} CommonOfGreatest(paths: seq<string>, p: seq<string>)
    requires paths != [] && forall i :: 0 <= i < |paths| ==> p <= Parts(paths[i])
    ensures p <= CommonOf(paths)
  {
    hide Parts;
    var n := |paths| - 1;
    if n > 0 {
      CommonOfGreatest(paths[..n], p);
      CommonGreatest(CommonOf(paths[..n]), Parts(paths[n]), p);
    }
  }

  /** Where the paths fork: one root for each element found there, the directory up to and with it. */
  function RootsOf(paths: seq<string>): map<string, string> {
    if |paths| <= 1 then map[]
    else
      var c := CommonOf(paths);
      map i | 0 <= i < |paths| && |Parts(paths[i])| > |c| :: Parts(paths[i])[|c|] := Join(c + [Parts(paths[i])[|c|]], '/')
  }

  function Paths(live: seq<LiveSession>): seq<string> {
    if live == [] then [] else WindowPaths(live[0].windows) + Paths(live[1..])
  }

  function WindowPaths(ws: seq<LiveWindow>): seq<string> {
    if ws == [] then [] else (if R.IsAbs(ws[0].dir) then [ws[0].dir] else []) + WindowPaths(ws[1..])
  }

  method InferRoots(paths: seq<string>) returns (roots: map<string, string>)
    ensures roots == RootsOf(paths)
  {
    hide Parts, Common;
    if |paths| <= 1 { return map[]; }
    var common := Parts(paths[0]);
    for i := 1 to |paths|
      invariant common == CommonOf(paths[..i])
    {
      assert paths[..i + 1][..i] == paths[..i];
      common := LcpSegments(common, Parts(paths[i]));
    }
    assert paths[..|paths|] == paths;
    roots := CollectRoots(paths, common);
  }

  predicate ForksAt(paths: seq<string>, common: seq<string>, upTo: int, name: string) {
    exists j :: 0 <= j < upTo && j < |paths| && |Parts(paths[j])| > |common| && Parts(paths[j])[|common|] == name
  }

  /** Fills the map path by path. A name met twice has the same directory both times, so none is ever numbered. */
  method CollectRoots(paths: seq<string>, common: seq<string>) returns (roots: map<string, string>)
    requires |paths| > 1 && common == CommonOf(paths)
    ensures roots == RootsOf(paths)
  {
    hide Parts, CommonOf, Join;
    roots := map[];
    for i := 0 to |paths|
      invariant forall n :: n in roots <==> ForksAt(paths, common, i, n)
      invariant forall n :: n in roots ==> roots[n] == Join(common + [n], '/')
    {
      var parts := Parts(paths[i]);
      if |parts| > |common| {
        var child := parts[|common|];
        var base := Join(common + [child], '/');
        assert child in roots ==> roots[child] == base;
        if child !in roots { roots := roots[child := base]; }
      }
    }
    forall n ensures n in roots <==> n in RootsOf(paths) { assert n in roots <==> ForksAt(paths, common, |paths|, n); }
  }

  /** The directory is the base or lies below it. */
  predicate Covers(base: string, dir: string) {
    dir == base || base + "/" <= dir
  }

  function Relative(base: string, dir: string): string
    requires Covers(base, dir)
  {
    if |dir| <= |base| + 1 then "." else dir[|base| + 1..]
  }

  /** The root with the longest base that covers the directory, and the way from there. */
  method MatchRoot(roots: map<string, string>, dir: string) returns (name: string, rel: string)
    ensures Matched(roots, dir, name, rel)
  {
    name, rel := "", dir;
    var best := -1;
    var left := roots.Keys;
    while left != {}
      invariant left <= roots.Keys
      invariant best < 0 ==> name == "" && rel == dir && forall n :: n in roots && n !in left ==> !Covers(roots[n], dir)
      invariant best >= 0 ==>
                  && name in roots && Covers(roots[name], dir) && best == |roots[name]| && rel == Relative(roots[name], dir)
                  && forall n :: n in roots && n !in left && Covers(roots[n], dir) ==> |roots[n]| <= best
      decreases |left|
    {
      var n :| n in left;
      left := left - {n};
      if Covers(roots[n], dir) && |roots[n]| > best {
        name, rel, best := n, Relative(roots[n], dir), |roots[n]|;
      }
    }
  }

  ghost predicate Matched(roots: map<string, string>, dir: string, name: string, rel: string) {
    if exists n :: n in roots && Covers(roots[n], dir) then
      name in roots && Covers(roots[name], dir) && rel == Relative(roots[name], dir)
      && forall n :: n in roots && Covers(roots[n], dir) ==> |roots[n]| <= |roots[name]|
    else name == "" && rel == dir
  }

  // ---- matching is exact -----------------------------------------------------------------------------

  /** A clean absolute directory other than the root directory itself. */
  predicate CleanDir(dir: string) { R.CleanAbsolute(dir) && dir != "/" }

  lemma DirParts(dir: string)
    requires CleanDir(dir)
    ensures var parts := Parts(dir);
            |parts| >= 2 && parts[0] == "" && R.AllProper(parts[1..]) && dir == R.Rooted(parts[1..]) && dir == Join(parts, '/')
  {
    R.CleanShape(dir);
    var parts := Parts(dir);
    R.JoinCons(parts[1..]);
    assert parts == [""] + parts[1..];
  }

  lemma {:induction false} SplitCovered(a: seq<string>, t: string)
    requires a != [] && forall x :: x in a ==> '/' !in x
    ensures Split(Join(a, '/') + "/" + t, '/') == a + Split(t, '/')
  {
    hide Split;
    if |a| == 1 {
      SplitAt(a[0], '/', t);
      assert a[0] + ['/'] + t == a[0] + "/" + t;
    } else {
      SplitCovered(a[1..], t);
      assert Join(a, '/') + "/" + t == a[0] + ['/'] + (Join(a[1..], '/') + "/" + t);
      SplitAt(a[0], '/', Join(a[1..], '/') + "/" + t);
    }
  }

  /** A base covers a directory exactly if its elements begin the directory's. */
  lemma CoversParts(a: seq<string>, dir: string)
    requires a != [] && (forall x :: x in a ==> '/' !in x) && Covers(Join(a, '/'), dir)
    ensures a <= Parts(dir)
  {
    hide Split, Join;
    SplitJoin(a, '/');
    var base := Join(a, '/');
    if dir != base {
      SplitCovered(a, dir[|base| + 1..]);
      assert dir == base + "/" + dir[|base| + 1..];
    }
  }

  lemma PartsCover(dir: string, k: nat)
    requires CleanDir(dir) && 2 <= k <= |Parts(dir)|
    ensures var base := Join(Parts(dir)[..k], '/');
            && Covers(base, dir)
            && R.JoinClean(base, Relative(base, dir)) == dir
  {
    hide Split, Join;
    DirParts(dir);
    var parts := Parts(dir);
    var a, b := parts[1..][..k - 1], parts[1..][k - 1..];
    assert parts[..k] == [""] + a && parts[1..] == a + b;
    R.JoinCons(a);
    R.JoinBack(a, b);
    assert Join(parts[..k], '/') == R.Rooted(a);
    if b == [] {
      assert parts[1..] == a;
    } else {
      R.JoinAppend(parts[..k], b);
      assert parts == parts[..k] + b;
    }
  }

  lemma CommonShort(paths: seq<string>, i: nat)
    requires i < |paths| && forall j :: 0 <= j < |paths| ==> CleanDir(paths[j])
    ensures |CommonOf(paths)| >= 1 && CommonOf(paths)[0] == ""
    ensures forall x :: x in CommonOf(paths) ==> '/' !in x
    ensures CommonOf(paths) <= Parts(paths[i])
  {
    forall j | 0 <= j < |paths| ensures [""] <= Parts(paths[j]) { DirParts(paths[j]); }
    CommonOfGreatest(paths, [""]);
    CommonOfPrefix(paths, i);
    JoinSplit(paths[i], '/');
  }

  /** What a directory among the paths is matched to leads back to exactly that directory. */
  lemma MatchExact(paths: seq<string>, i: nat, name: string, rel: string)
    requires i < |paths| && (forall j :: 0 <= j < |paths| ==> CleanDir(paths[j]))
    requires Matched(RootsOf(paths), paths[i], name, rel)
    ensures name == "" || (name in RootsOf(paths) && R.JoinClean(RootsOf(paths)[name], rel) == paths[i] && rel != "")
  {
    hide Parts, Join;
    var roots, dir := RootsOf(paths), paths[i];
    if |paths| > 1 && name != "" {
      var c := CommonOf(paths);
      CommonShort(paths, i);
      ForkPlain(paths, name);
      assert roots[name] == Join(c + [name], '/');
      CoversParts(c + [name], dir);
      var k := |c| + 1;
      assert Parts(dir)[..k] == c + [name];
      PartsCover(dir, k);
    }
  }

  lemma ForkPlain(paths: seq<string>, name: string)
    requires |paths| > 1 && (forall j :: 0 <= j < |paths| ==> CleanDir(paths[j])) && name in RootsOf(paths)
    ensures '/' !in name && forall x :: x in CommonOf(paths) + [name] ==> '/' !in x
  {
    var i :| 0 <= i < |paths| && |Parts(paths[i])| > |CommonOf(paths)| && Parts(paths[i])[|CommonOf(paths)|] == name;
    CommonShort(paths, i);
    JoinSplit(paths[i], '/');
  }
}
