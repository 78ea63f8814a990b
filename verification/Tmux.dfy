/**
 * The tmux server as its commands see it: sessions, the links that show windows in them, and other
 * clients acting between any two commands. (internal/tmux/tmuxtest/mock_runner.go)
 */
module Tmux {
  import opened Text

  const ACTIVE := "active"
  const OWNER := "tmh/v1"
  const PLACEHOLDER := "__tmh_active_placeholder__"

  /** A window shown in a session at an index. The window itself lives as long as it has a link. */
  datatype Link = Link(session: string, window: string, index: nat)

  type Links = seq<Link>

  predicate Linked(links: Links, session: string, window: string) {
    exists i :: 0 <= i < |links| && links[i].session == session && links[i].window == window
  }

  predicate Exists(links: Links, window: string) {
    exists i :: 0 <= i < |links| && links[i].window == window
  }

  /** A link to the window from another session than this one. */
  predicate LinkedElsewhere(links: Links, session: string, window: string) {
    exists i :: 0 <= i < |links| && links[i].session != session && links[i].window == window
  }

  predicate IndexUsed(links: Links, session: string, index: nat) {
    exists i :: 0 <= i < |links| && links[i].session == session && links[i].index == index
  }

  function LinkCount(links: Links, window: string): nat {
    if links == [] then 0 else (if links[0].window == window then 1 else 0) + LinkCount(links[1..], window)
  }

  /** The links without those of one window in one session. */
  function Unlinked(links: Links, session: string, window: string): Links {
    if links == [] then []
    else if links[0].session == session && links[0].window == window then Unlinked(links[1..], session, window)
    else [links[0]] + Unlinked(links[1..], session, window)
  }

  /** `@` and digits: what tmux calls a window. */
  predicate IsWindowID(s: string) {
    |s| >= 2 && s[0] == '@' && forall i :: 1 <= i < |s| ==> IsDigit(s[i])
  }

  /** A session shows a window once, at an index of its own. */
  predicate Proper(links: Links) {
    && (forall i, j :: 0 <= i < j < |links| && links[i].session == links[j].session ==> links[i].window != links[j].window)
    && (forall i, j :: 0 <= i < j < |links| && links[i].session == links[j].session ==> links[i].index != links[j].index)
  }

  lemma {:induction false} UnlinkedSpec(links: Links, session: string, window: string)
    ensures forall l :: l in Unlinked(links, session, window) <==> l in links && !(l.session == session && l.window == window)
    ensures |Unlinked(links, session, window)| <= |links|
    ensures Proper(links) ==> Proper(Unlinked(links, session, window))
  {
    if links != [] {
      var t, r := links[1..], Unlinked(links[1..], session, window);
      assert forall i :: 0 <= i < |t| ==> t[i] == links[i + 1];
      UnlinkedSpec(t, session, window);
      if Proper(links) {
        forall i | 0 <= i < |r| && links[0].session == r[i].session ensures links[0].window != r[i].window && links[0].index != r[i].index {
          assert r[i] in t;
        }
      }
    }
  }

  lemma UnlinkedHas(links: Links, session: string, window: string, s: string, w: string)
    ensures Linked(Unlinked(links, session, window), s, w) <==> Linked(links, s, w) && !(s == session && w == window)
    ensures !Linked(links, session, window) ==> forall l :: l in Unlinked(links, session, window) <==> l in links
  {
    UnlinkedSpec(links, session, window);
    var r := Unlinked(links, session, window);
    if Linked(r, s, w) {
      var i :| 0 <= i < |r| && r[i].session == s && r[i].window == w;
      assert r[i] in links;
    }
    if Linked(links, s, w) && !(s == session && w == window) {
      var i :| 0 <= i < |links| && links[i].session == s && links[i].window == w;
      assert links[i] in r;
    }
  }

  /** The least index from `from` on that the session does not use. */
  ghost predicate LeastFree(links: Links, session: string, from: nat, index: nat) {
    from <= index && !IndexUsed(links, session, index) && forall k :: from <= k < index ==> IndexUsed(links, session, k)
  }

  lemma {:induction false} ManyLinks(links: Links, window: string)
    requires Proper(links)
    ensures forall s :: LinkCount(links, window) >= 2 && Linked(links, s, window) ==> LinkedElsewhere(links, s, window)
    ensures LinkCount(links, window) >= 1 <==> Exists(links, window)
    ensures LinkCount(links, window) <= 1 ==> forall s :: Linked(links, s, window) ==> !LinkedElsewhere(links, s, window)
  {
    if links != [] {
      var t := links[1..];
      assert forall i :: 0 <= i < |t| ==> t[i] == links[i + 1];
      ManyLinks(t, window);
      if Exists(t, window) {
        var i :| 0 <= i < |t| && t[i].window == window;
        assert links[i + 1].window == window;
      }
      if links[0].window == window && LinkCount(t, window) >= 1 {
        var i :| 0 <= i < |t| && t[i].window == window;
        assert links[i + 1].session != links[0].session;
        forall s | Linked(links, s, window) ensures LinkedElsewhere(links, s, window) {
          if s == links[0].session { assert links[i + 1].session != s; } else { assert links[0].session != s; }
        }
      } else if links[0].window != window {
        forall s ensures Linked(links, s, window) <==> Linked(t, s, window) { ConsLinked(links, s, window); }
        forall s ensures LinkedElsewhere(links, s, window) <==> LinkedElsewhere(t, s, window) { ConsLinked(links, s, window); }
      }
    }
  }

  lemma ConsLinked(links: Links, s: string, window: string)
    requires links != [] && links[0].window != window
    ensures Linked(links, s, window) <==> Linked(links[1..], s, window)
    ensures LinkedElsewhere(links, s, window) <==> LinkedElsewhere(links[1..], s, window)
  {
    var t := links[1..];
    if Linked(links, s, window) {
      var i :| 0 <= i < |links| && links[i].session == s && links[i].window == window;
      assert t[i - 1] == links[i];
    }
    if Linked(t, s, window) {
      var i :| 0 <= i < |t| && t[i].session == s && t[i].window == window;
      assert links[i + 1] == t[i];
    }
    if LinkedElsewhere(links, s, window) {
      var i :| 0 <= i < |links| && links[i].session != s && links[i].window == window;
      assert t[i - 1] == links[i];
    }
    if LinkedElsewhere(t, s, window) {
      var i :| 0 <= i < |t| && t[i].session != s && t[i].window == window;
      assert links[i + 1] == t[i];
    }
  }

  // ---- the server -----------------------------------------------------------------------

  /** Window names are fixed for the life of a window, and ids are not reused. */
  ghost predicate Grown(before: map<string, string>, after: map<string, string>) {
    forall w :: w in before ==> w in after && after[w] == before[w]
  }

  /** The window is a placeholder, or its name is the id of one. */
  predicate Replaceable(names: map<string, string>, window: string) {
    && window in names
    && (names[window] == PLACEHOLDER || (names[window] in names && names[names[window]] == PLACEHOLDER))
  }

  /** Windows destroyed by our own commands, beyond those already, are placeholders, or windows named like a placeholder's id. */
  ghost predicate SafeDrops(before: set<string>, after: set<string>, names: map<string, string>) {
    before <= after && forall w :: w in after && w !in before ==> Replaceable(names, w)
  }

  lemma SafeDropsTrans(a: set<string>, b: set<string>, c: set<string>, names: map<string, string>, later: map<string, string>)
    requires SafeDrops(a, b, names) && SafeDrops(b, c, later) && Grown(names, later)
    ensures SafeDrops(a, c, later)
  {
  }

  datatype Snapshot = Snapshot(links: Links, names: map<string, string>)

  predicate Matches(l: Link, names: map<string, string>, session: string, suffix: string) {
    l.session == session && (l.window == suffix || (l.window in names && names[l.window] == suffix) || Dec(l.index) == suffix)
  }

  /** Position of the link a window target names: by id, by name or by index, whichever link comes first. */
  function TargetOf(links: Links, names: map<string, string>, session: string, suffix: string, from: nat := 0): (i: int)
    requires from <= |links|
    ensures -1 <= i < |links|
    ensures i >= 0 ==> Matches(links[i], names, session, suffix) && forall j :: from <= j < i ==> !Matches(links[j], names, session, suffix)
    ensures i < 0 ==> forall j :: from <= j < |links| ==> !Matches(links[j], names, session, suffix)
    decreases |links| - from
  {
    if from == |links| then -1
    else if Matches(links[from], names, session, suffix) then from
    else TargetOf(links, names, session, suffix, from + 1)
  }

  datatype Creation = Created | AlreadyThere | NotCreated

  class Server {
    /** No other client acts. */
    const calm: bool
    /** No command fails but for a reason in what it is asked to do. */
    const reliable: bool
    /** The windows the server finds for targets. */
    const answers: map<string, string>
    const serverKey: string
    const epoch: string
    const baseIndex: Option<nat>

    var sessions: set<string>
    var owners: map<string, string>
    var links: Links
    /** The name of every window there ever was. */
    var names: map<string, string>
    /** The windows whose last link one of our own commands removed. */
    ghost var dropped: set<string>

    ghost predicate Valid()
      reads this
    {
      && serverKey != "" && epoch != ""
      && Proper(links)
      && forall i :: 0 <= i < |links| ==> links[i].session in sessions && links[i].window in names && IsWindowID(links[i].window)
    }

    predicate Plausible(ss: set<string>, ls: Links, ns: map<string, string>)
      reads this
    {
      && Proper(ls)
      && (forall i :: 0 <= i < |ls| ==> ls[i].session in ss && ls[i].window in ns && IsWindowID(ls[i].window))
      && (forall w :: w in names ==> w in ns && ns[w] == names[w])
    }

    /** Other clients may create and end sessions and link, unlink, create and end windows. */
    method Interfere()
      requires Valid()
      modifies this`sessions, this`owners, this`links, this`names
      ensures Valid() && Grown(old(names), names)
      ensures calm ==> sessions == old(sessions) && owners == old(owners) && links == old(links) && names == old(names)
    {
      var ss: set<string> := *;
      var os: map<string, string> := *;
      var ls: Links := *;
      var ns: map<string, string> := *;
      if !calm && Plausible(ss, ls, ns) {
        sessions, owners, links, names := ss, os, ls, ns;
      }
    }

    /** Any command may fail before it does anything. */
    method Fault() returns (failed: bool)
      ensures reliable ==> !failed
    {
      failed := *;
      if reliable { failed := false; }
    }

    method HasSession(name: string) returns (r: Option<bool>)
      requires Valid()
      modifies this`sessions, this`owners, this`links, this`names
      ensures Valid() && Grown(old(names), names)
      ensures calm ==> sessions == old(sessions) && owners == old(owners) && links == old(links) && names == old(names)
      ensures r.Some? ==> r.value == (name in sessions)
      ensures reliable ==> r.Some?
    {
      Interfere();
      var failed := Fault();
      r := if failed then None else Some(name in sessions);
    }

    method Owner(session: string) returns (r: Option<string>)
      requires Valid()
      modifies this`sessions, this`owners, this`links, this`names
      ensures Valid() && Grown(old(names), names)
      ensures calm ==> sessions == old(sessions) && owners == old(owners) && links == old(links) && names == old(names)
      ensures r.Some? ==> r.value == (if session in owners then owners[session] else "")
      ensures reliable ==> r.Some?
    {
      Interfere();
      var failed := Fault();
      r := if failed then None else Some(if session in owners then owners[session] else "");
    }

    method ListLinks() returns (r: Option<Snapshot>)
      requires Valid()
      modifies this`sessions, this`owners, this`links, this`names
      ensures Valid() && Grown(old(names), names)
      ensures calm ==> sessions == old(sessions) && owners == old(owners) && links == old(links) && names == old(names)
      ensures r.Some? ==> r.value == Snapshot(links, names)
      ensures reliable ==> r.Some?
    {
      Interfere();
      var failed := Fault();
      r := if failed then None else Some(Snapshot(links, names));
    }

    /** Which window a target names is for the server to say. */
    method ResolveWindow(target: string) returns (r: Option<string>)
      requires Valid()
      modifies this`sessions, this`owners, this`links, this`names
      ensures Valid() && Grown(old(names), names)
      ensures calm ==> sessions == old(sessions) && owners == old(owners) && links == old(links) && names == old(names)
      ensures reliable ==> r == if target in answers then Some(answers[target]) else None
    {
      Interfere();
      r := *;
      if reliable { r := if target in answers then Some(answers[target]) else None; }
    }

    method Epoch() returns (r: Option<(string, string)>)
      requires Valid()
      modifies this`sessions, this`owners, this`links, this`names
      ensures Valid() && Grown(old(names), names)
      ensures calm ==> sessions == old(sessions) && owners == old(owners) && links == old(links) && names == old(names)
      ensures r.Some? ==> r.value == (serverKey, epoch)
      ensures reliable ==> r.Some?
    {
      Interfere();
      var failed := Fault();
      r := if failed then None else Some((serverKey, epoch));
    }

    /** A new session has one new window, at index 1. */
    method NewSession(name: string, windowName: string, owner: string) returns (r: Creation)
      requires Valid()
      modifies this`sessions, this`owners, this`links, this`names
      ensures Valid() && Grown(old(names), names)
      ensures calm && r != Created ==> sessions == old(sessions) && owners == old(owners) && links == old(links) && names == old(names)
      ensures r == AlreadyThere ==> name in sessions
      ensures r == Created ==> name in sessions && name in owners && owners[name] == owner
      ensures calm && reliable ==> r == if name in old(sessions) then AlreadyThere else Created
      ensures calm && r == Created ==>
                && name !in old(sessions) && sessions == old(sessions) + {name} && owners == old(owners)[name := owner]
                && exists w :: w !in old(names) && names == old(names)[w := windowName] && links == old(links) + [Link(name, w, 1)]
    {
      Interfere();
      var failed := Fault();
      if failed { return NotCreated; }
      if name in sessions { return AlreadyThere; }
      FreeId(names.Keys);
      var w: string :| w !in names && IsWindowID(w);
      sessions := sessions + {name};
      owners := owners[name := owner];
      links := links + [Link(name, w, 1)];
      names := names[w := windowName];
      return Created;
    }

    method LinkWindow(window: string, session: string, index: nat) returns (ok: bool)
      requires Valid()
      modifies this`sessions, this`owners, this`links, this`names
      ensures Valid() && Grown(old(names), names)
      ensures calm ==> sessions == old(sessions) && owners == old(owners) && names == old(names)
      ensures calm && !ok ==> links == old(links)
      ensures calm && ok ==> links == old(links) + [Link(session, window, index)]
      ensures ok ==> Linked(links, session, window)
      ensures calm && reliable ==>
                (ok <==> Exists(old(links), window) && session in sessions && !IndexUsed(old(links), session, index) && !Linked(old(links), session, window))
    {
      Interfere();
      var failed := Fault();
      if failed { return false; }
      if !Exists(links, window) { return false; }
      if session !in sessions { return false; }
      if IndexUsed(links, session, index) { return false; }
      if Linked(links, session, window) { return false; }
      links := links + [Link(session, window, index)];
      assert links[|links| - 1] == Link(session, window, index);
      return true;
    }

    /** The last link of a window is not for unlinking. */
    method UnlinkWindow(session: string, window: string) returns (ok: bool)
      requires Valid()
      modifies this
      ensures Valid() && Grown(old(names), names) && dropped == old(dropped)
      ensures calm ==> sessions == old(sessions) && owners == old(owners) && names == old(names)
      ensures calm && !ok ==> links == old(links)
      ensures calm && ok ==> links == Unlinked(old(links), session, window)
      ensures calm && reliable ==> (ok <==> session in sessions && !(Exists(old(links), window) && LinkCount(old(links), window) <= 1))
    {
      Interfere();
      var failed := Fault();
      if failed { return false; }
      if session !in sessions { return false; }
      if Exists(links, window) && LinkCount(links, window) <= 1 { return false; }
      ghost var was := links;
      links := Unlinked(links, session, window);
      UnlinkedSpec(was, session, window);
      ManyLinks(was, window);
      NoteDrop(was, session, window);
      return true;
    }

    /** Records the window as destroyed by us if the link just removed was its last one. */
    ghost method NoteDrop(was: Links, session: string, window: string)
      requires Proper(was)
      modifies this`dropped
      ensures dropped == if Linked(was, session, window) && !LinkedElsewhere(was, session, window) then old(dropped) + {window} else old(dropped)
    {
      if Linked(was, session, window) && !LinkedElsewhere(was, session, window) { dropped := dropped + {window}; }
    }

    /** Ends one window's stay in a session; nothing guards its last link. */
    method KillWindow(session: string, suffix: string) returns (ok: bool)
      requires Valid() && IsWindowID(suffix)
      modifies this
      ensures Valid() && Grown(old(names), names)
      ensures old(dropped) <= dropped
      ensures forall w :: w in dropped && w !in old(dropped) ==> w in names && (w == suffix || names[w] == suffix)
      ensures calm ==> sessions == old(sessions) && owners == old(owners) && names == old(names)
      ensures calm && !ok ==> links == old(links) && dropped == old(dropped)
      ensures calm && ok ==> var i := TargetOf(old(links), names, session, suffix);
                             && i >= 0 && links == Unlinked(old(links), session, old(links)[i].window)
                             && dropped == (if LinkedElsewhere(old(links), session, old(links)[i].window) then old(dropped)
                                            else old(dropped) + {old(links)[i].window})
      ensures calm && reliable ==> (ok <==> session in sessions && TargetOf(old(links), names, session, suffix) >= 0)
    {
      Interfere();
      var failed := Fault();
      if failed { return false; }
      if session !in sessions { return false; }
      var i := TargetOf(links, names, session, suffix);
      if i < 0 { return false; }
      ghost var was := links;
      var w := links[i].window;
      NumberIsNoID(was[i].index);
      links := Unlinked(links, session, w);
      UnlinkedSpec(was, session, w);
      NoteDrop(was, session, w);
      return true;
    }

    /** Ends a session and with it every link it holds; what the caller meant to end is not logged. */
    method KillSession(name: string) returns (ok: bool)
      requires Valid()
      modifies this`sessions, this`owners, this`links, this`names
      ensures Valid() && Grown(old(names), names)
      ensures calm ==> names == old(names)
      ensures calm && !ok ==> sessions == old(sessions) && owners == old(owners) && links == old(links)
      ensures calm && ok ==>
                && name in old(sessions) && sessions == old(sessions) - {name} && owners == old(owners) - {name}
                && forall l :: l in links <==> l in old(links) && l.session != name
      ensures calm && reliable ==> (ok <==> name in old(sessions))
    {
      Interfere();
      var failed := Fault();
      if failed { return false; }
      if name !in sessions { return false; }
      var rest: Links := [];
      for i := 0 to |links|
        invariant forall l :: l in rest <==> l in links[..i] && l.session != name
        invariant Proper(rest)
      {
        forall k | 0 <= k < |rest| && rest[k].session == links[i].session
          ensures rest[k].window != links[i].window && rest[k].index != links[i].index
        {
          assert rest[k] in links[..i];
        }
        if links[i].session != name { rest := rest + [links[i]]; }
      }
      assert links[..|links|] == links;
      forall i | 0 <= i < |rest| ensures rest[i] in links { assert rest[i] in links[..|links|]; }
      links := rest;
      sessions := sessions - {name};
      owners := owners - {name};
      return true;
    }
  }

  function WindowId(n: nat): string { "@" + Dec(n) }

  lemma WindowIdIs(n: nat)
    ensures IsWindowID(WindowId(n)) && WindowId(n)[1..] == Dec(n)
  {
    DecDigits(n);
    forall i | 1 <= i < |WindowId(n)| ensures IsDigit(WindowId(n)[i]) { assert WindowId(n)[i] in Dec(n); }
  }

  lemma {:induction false} ManyIds(n: nat)
    ensures |(set i | 0 <= i < n :: WindowId(i))| == n
  {
    hide WindowId;
    if n > 0 {
      var ids := set i | 0 <= i < n - 1 :: WindowId(i);
      ManyIds(n - 1);
      assert (set i | 0 <= i < n :: WindowId(i)) == ids + {WindowId(n - 1)};
      forall i | 0 <= i < n - 1 ensures WindowId(i) != WindowId(n - 1) { DifferentIds(i, n - 1); }
    }
  }

  lemma DifferentIds(m: nat, n: nat)
    requires m != n
    ensures WindowId(m) != WindowId(n)
  {
    WindowIdIs(m);
    WindowIdIs(n);
    ValueDec(m);
    ValueDec(n);
  }

  /** There is always an id left for a new window. */
  lemma FreeId(taken: set<string>)
    ensures exists w :: w !in taken && IsWindowID(w)
  {
    var n := |taken| + 1;
    var ids := set i | 0 <= i < n :: WindowId(i);
    ManyIds(n);
    if ids <= taken { FewerIn(ids, taken); }
    var w :| w in ids && w !in taken;
    var i :| 0 <= i < n && w == WindowId(i);
    WindowIdIs(i);
  }

  lemma {:induction false} FewerIn(a: set<string>, b: set<string>)
    requires a <= b
    ensures |a| <= |b|
  {
    if a != {} {
      var x :| x in a;
      FewerIn(a - {x}, b - {x});
    }
  }

  lemma NumberIsNoID(n: nat)
    ensures !IsWindowID(Dec(n))
  {
    DecDigits(n);
    assert Dec(n)[0] in Dec(n);
  }
}
