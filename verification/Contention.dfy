/**
 * The mutation lane when other clients change the backend as well: conflicts, and the reload that recovers from
 * them. (tmh-next/internal/app/update.go, tmh-next/internal/mock/client.go, tmh-next/internal/mock/backend.go)
 */
module Contention {
  import opened Text
  import opened Domain
  import opened Validation
  import opened Transitions
  import opened Lane
  import B = Backend
  import opened Runs
  import opened LaneWorld

  /** A world with every catalog the backend has had, and the one it had when a reload last ran. */
  datatype Shared = Shared(w: World, had: seq<Catalog>, ran: Option<Catalog>)

  /** A move of this shell, or a call by any other client. */
  datatype SharedMove = Ours(move: Move) | Theirs(call: Call)

  predicate RunsReload(w: World, move: Move) {
    move.Advance? && move.item < |w.items| && w.items[move.item] == Pending(CmdReload)
  }

  function Noted(had: seq<Catalog>, b: B.State): seq<Catalog> { if b.cat.Some? then had + [b.cat.value] else had }

  function SharedNext(s: Shared, m: SharedMove): Shared {
    match m
    case Ours(move) =>
      var w := Next(s.w, move);
      Shared(w, Noted(s.had, w.backend), if RunsReload(s.w, move) then s.w.backend.cat else s.ran)
    case Theirs(call) =>
      var b := Step(s.w.backend, call).0;
      s.(w := s.w.(backend := b), had := Noted(s.had, b))
  }

  function SharedGo(s: Shared, moves: seq<SharedMove>): Shared
    decreases |moves|
  {
    if moves == [] then s else SharedGo(SharedNext(s, moves[0]), moves[1..])
  }

  // ---- the invariant -------------------------------------------------------------------------------

  /** Revisions never fall, and one revision is one catalog. */
  predicate Chronicle(had: seq<Catalog>) {
    forall i, j :: 0 <= i < j < |had| ==> had[i].revision < had[j].revision || had[i] == had[j]
  }

  /** The one mutation under way is what the lane is busy with; what has arrived is a catalog the backend has had. */
  predicate Owed(root: Shell, had: seq<Catalog>, ran: Option<Catalog>, item: Item) {
    match item
    case Pending(CmdExecute(a)) => root.mut == Mutator(MutAction, Identity(a)) && a.expectedRevision == Revision(root)
    case Pending(CmdTick(revision)) => root.mut.kind == MutTick && revision == Revision(root)
    case Pending(CmdReload) => root.mut.kind == MutReload
    case Arrived(Succeeded(res)) =>
      && ValidChain(root, res) && res.cat.value in had
      && (if res.isTick then root.mut.kind == MutTick
          else res.action.Some? && root.mut == Mutator(MutAction, Identity(res.action.value)))
    case Arrived(MutationFailed(isTick, identity, _)) =>
      if isTick then root.mut.kind == MutTick else root.mut == Mutator(MutAction, identity)
    case Arrived(Reloaded(cat)) => root.mut.kind == MutReload && ran == Some(cat) && cat in had
    case _ => false
  }

  predicate Coherent(s: Shared) {
    var root, b := s.w.root, s.w.backend;
    && Ticking(root) && b.cat.Some? && Chronicle(s.had) && root.cat.value in s.had
    && s.had != [] && s.had[|s.had| - 1] == b.cat.value
    && (if root.mut.kind == MutNone then Mutations(s.w.items) == []
        else |Mutations(s.w.items)| == 1 && Owed(root, s.had, s.ran, Mutations(s.w.items)[0]))
  }

  lemma NotedKeeps(had: seq<Catalog>, before: B.State, after: B.State)
    requires Chronicle(had) && had != [] && before.cat == Some(had[|had| - 1])
    requires after.cat.Some? && (after.cat == before.cat || after.cat.value.revision > before.cat.value.revision)
    ensures Chronicle(Noted(had, after)) && (forall c :: c in had ==> c in Noted(had, after))
    ensures var n := |Noted(had, after)|; n > 0 && Noted(had, after)[n - 1] == after.cat.value && after.cat.value in Noted(had, after)
  {
    var now := Noted(had, after);
    forall i | 0 <= i < |had| ensures had[i].revision < after.cat.value.revision || had[i] == after.cat.value {
      assert i < |had| - 1 ==> had[i].revision < had[|had| - 1].revision || had[i] == had[|had| - 1];
    }
  }

  lemma OwedMore(root: Shell, had: seq<Catalog>, more: seq<Catalog>, ran: Option<Catalog>, item: Item)
    requires Owed(root, had, ran, item) && forall c :: c in had ==> c in more
    ensures Owed(root, more, ran, item)
  {
    hide Identity;
  }

  lemma CallMoves(b: B.State, call: Call)
    requires b.cat.Some?
    ensures var n := Step(b, call).0; n.cat.Some? && (n.cat == b.cat || n.cat.value.revision > b.cat.value.revision)
  {
    hide Step;
    StepClock(b, call);
  }

  lemma TheirsKeeps(s: Shared, call: Call)
    requires Coherent(s)
    ensures Coherent(SharedNext(s, Theirs(call)))
  {
    hide Step, Chronicle, Owed, Noted, Ticking, Mutations;
    var b := Step(s.w.backend, call).0;
    CallMoves(s.w.backend, call);
    TickingHas(s.w.root);
    NotedKeeps(s.had, s.w.backend, b);
    if s.w.root.mut.kind != MutNone { OwedMore(s.w.root, s.had, Noted(s.had, b), s.ran, Mutations(s.w.items)[0]); }
  }

  lemma TickingHas(r: Shell)
    requires Ticking(r)
    ensures r.cat.Some?
  {
  }

  /** Running the command under way: what arrives is owed. */
  lemma CommandOwed(root: Shell, b: B.State, had: seq<Catalog>, ran: Option<Catalog>, cmd: Cmd)
    requires root.cat.Some? && b.cat.Some? && Owed(root, had, ran, Pending(cmd))
    ensures var (next, msg) := RunCmd(b, cmd);
            && next.cat.Some? && (next.cat == b.cat || next.cat.value.revision > b.cat.value.revision)
            && Owed(root, Noted(had, next), if cmd.CmdReload? then b.cat else ran, Arrived(msg)) && !IsTimer(Arrived(msg))
  {
    hide Identity, Apply, DoTick, ValidCatalog;
    match cmd
    case CmdExecute(a) => StepClock(b, Do(a));
    case CmdTick(revision) => StepClock(b, TickAt(revision));
    case CmdReload =>
  }

  lemma RunsOurs(s: Shared, i: nat)
    requires Coherent(s) && i < |s.w.items| && s.w.items[i].Pending?
    ensures Coherent(SharedNext(s, Ours(Advance(i))))
  {
    hide Identity, Mutations, Ticking, RunCmd, Rest, Owed, Noted, Chronicle;
    var w, cmd := s.w, s.w.items[i].cmd;
    var (b, msg) := RunCmd(w.backend, cmd);
    TickingHas(w.root);
    MutationsRest(w.items, i);
    MutationsAppend(Rest(w.items, i), [Arrived(msg)]);
    MutationsOne(Arrived(msg));
    if IsTimer(w.items[i]) {
      TimerRun(w.backend, cmd);
      NotedKeeps(s.had, w.backend, b);
      if w.root.mut.kind != MutNone { OwedMore(w.root, s.had, Noted(s.had, b), s.ran, Mutations(w.items)[0]); }
    } else {
      if w.root.mut.kind != MutNone { CommandOwed(w.root, w.backend, s.had, s.ran, cmd); }
      NotedKeeps(s.had, w.backend, b);
    }
  }

  lemma PressOurs(s: Shared, a: Action)
    requires Coherent(s)
    ensures Coherent(SharedNext(s, Ours(Press(a))))
  {
    hide Identity, Mutations, Noted, Chronicle;
    var w := s.w;
    var (root, cmds) := Update(w.root, UserAction(a));
    MutationsAppend(w.items, Commands(cmds));
    NotedKeeps(s.had, w.backend, w.backend);
    if cmds == [] {
      assert w.items + Commands(cmds) == w.items;
      if w.root.mut.kind != MutNone { OwedMore(w.root, s.had, Noted(s.had, w.backend), s.ran, Mutations(w.items)[0]); }
    } else {
      assert Commands(cmds) == [Pending(cmds[0])];
      MutationsOne(Pending(cmds[0]));
      SameIdentity(a, cmds[0].action);
    }
  }

  /** Delivering what is owed: a conflict starts a reload, anything else frees the lane or starts the tick that waited. */
  lemma OwedDelivered(root: Shell, had: seq<Catalog>, ran: Option<Catalog>, msg: Msg)
    requires Ticking(root) && root.cat.value in had && Owed(root, had, ran, Arrived(msg))
    ensures var (next, cmds) := Update(root, msg);
            && Ticking(next) && next.cat.value in had
            && next.cat == (match msg case Succeeded(res) => res.cat case Reloaded(cat) => Some(cat) case _ => root.cat)
            && (if msg.MutationFailed? && msg.conflict then next.mut.kind == MutReload && cmds == [CmdReload]
                else if root.tickPending then next.mut.kind == MutTick && cmds == [CmdTick(Revision(next))]
                else next.mut.kind == MutNone && |cmds| <= 1 && forall c :: c in cmds ==> c.CmdTimer?)
  {
    hide Identity;
  }

  lemma RepliesOurs(s: Shared, i: nat)
    requires Coherent(s) && i < |s.w.items| && s.w.items[i].Arrived? && !s.w.items[i].msg.TimerFired?
    ensures Coherent(SharedNext(s, Ours(Advance(i))))
  {
    hide Identity, Mutations, Ticking, Rest, Update, Noted, Chronicle;
    var w, msg, rest := s.w, s.w.items[i].msg, Rest(s.w.items, i);
    MutationsRest(w.items, i);
    NotedKeeps(s.had, w.backend, w.backend);
    assert Owed(w.root, s.had, s.ran, Arrived(msg));
    OwedDelivered(w.root, s.had, s.ran, msg);
    var (root, cmds) := Update(w.root, msg);
    TickingHas(root);
    MutationsAppend(rest, Commands(cmds));
    if cmds == [] {
      assert Commands(cmds) == [];
      assert rest + Commands(cmds) == rest;
    } else {
      assert Commands(cmds) == [Pending(cmds[0])];
      MutationsOne(Pending(cmds[0]));
    }
  }

  lemma TimersOurs(s: Shared, i: nat)
    requires Coherent(s) && i < |s.w.items| && s.w.items[i].Arrived? && s.w.items[i].msg.TimerFired?
    ensures Coherent(SharedNext(s, Ours(Advance(i))))
  {
    hide Identity, Mutations, Rest, Noted, Chronicle;
    var w, msg, rest := s.w, s.w.items[i].msg, Rest(s.w.items, i);
    MutationsRest(w.items, i);
    NotedKeeps(s.had, w.backend, w.backend);
    var (root, cmds) := Update(w.root, msg);
    MutationsAppend(rest, Commands(cmds));
    if cmds == [] {
      assert Commands(cmds) == [];
      assert rest + Commands(cmds) == rest;
      if w.root.mut.kind != MutNone { OwedMore(w.root, s.had, Noted(s.had, w.backend), s.ran, Mutations(w.items)[0]); }
    } else {
      assert Commands(cmds) == [Pending(cmds[0])];
      MutationsOne(Pending(cmds[0]));
    }
  }

  /** Every move, ours or of any other client, keeps the shell coherent with the backend. */
  lemma SharedKeeps(s: Shared, m: SharedMove)
    requires Coherent(s)
    ensures Coherent(SharedNext(s, m))
  {
    hide Coherent, Update, RunCmd, Rest, Noted;
    match m
    case Theirs(call) => TheirsKeeps(s, call);
    case Ours(Press(a)) => PressOurs(s, a);
    case Ours(Advance(i)) =>
      if i < |s.w.items| {
        if s.w.items[i].Pending? {
          RunsOurs(s, i);
        } else if s.w.items[i].msg.TimerFired? {
          TimersOurs(s, i);
        } else {
          RepliesOurs(s, i);
        }
      } else {
        IdleKeeps(s, i);
      }
  }

  lemma IdleKeeps(s: Shared, i: nat)
    requires Coherent(s) && i >= |s.w.items|
    ensures Coherent(SharedNext(s, Ours(Advance(i))))
  {
    hide Mutations, Noted, Chronicle, Owed, Ticking;
    NotedKeeps(s.had, s.w.backend, s.w.backend);
    TickingHas(s.w.root);
    if s.w.root.mut.kind != MutNone { OwedMore(s.w.root, s.had, Noted(s.had, s.w.backend), s.ran, Mutations(s.w.items)[0]); }
  }

  function SharedStart(b: B.State): Shared
    requires b.cat.Some?
  {
    Shared(Start(b), [b.cat.value], None)
  }

  lemma {:induction false} SharedRuns(s: Shared, moves: seq<SharedMove>)
    requires Coherent(s)
    ensures Coherent(SharedGo(s, moves))
    decreases |moves|
  {
    hide SharedNext, Coherent;
    if moves != [] {
      SharedKeeps(s, moves[0]);
      SharedRuns(SharedNext(s, moves[0]), moves[1..]);
    }
  }

  lemma StartCoherent(b: B.State)
    requires b.cat.Some?
    ensures Coherent(SharedStart(b))
  {
    var w := Start(b);
    assert w.items == [Pending(CmdTimer(1))];
    MutationsOne(w.items[0]);
  }

  // ---- results ------------------------------------------------------------------------------------------

  /**
   * Whatever other clients do: at most one mutation of this shell is under way, the shell shows a catalog the
   * backend had, never one of a later revision, and at the same revision the very same catalog.
   */
  lemma SharedSafety(b: B.State, moves: seq<SharedMove>)
    requires b.cat.Some?
    ensures var s := SharedGo(SharedStart(b), moves);
            && |Mutations(s.w.items)| <= 1 && (s.w.root.mut.kind == MutNone <==> Mutations(s.w.items) == [])
            && s.w.root.cat.Some? && s.w.backend.cat.Some? && s.w.root.cat.value in s.had
            && Revision(s.w.root) <= s.w.backend.cat.value.revision
            && (Revision(s.w.root) == s.w.backend.cat.value.revision ==> s.w.root.cat == s.w.backend.cat)
  {
    hide SharedGo, SharedStart, Owed;
    StartCoherent(b);
    SharedRuns(SharedStart(b), moves);
    var s := SharedGo(SharedStart(b), moves);
    var i :| 0 <= i < |s.had| && s.had[i] == s.w.root.cat.value;
  }

  /** A command is answered with a conflict exactly if the backend has moved on since the shell's catalog. */
  lemma ConflictExactly(b: B.State, cmd: Cmd)
    requires b.cat.Some? && (cmd.CmdExecute? || cmd.CmdTick?)
    ensures var msg := RunCmd(b, cmd).1;
            (msg.MutationFailed? && msg.conflict)
            <==> (if cmd.CmdExecute? then cmd.action.expectedRevision else cmd.revision) != b.cat.value.revision
  {
    hide Apply, ValidCatalog, DoTick, Identity;
    if cmd.CmdExecute? { if cmd.action.expectedRevision == b.cat.value.revision { ExecConflict(b, cmd.action); } }
  }

  /** That conflict, once delivered, starts a reload; the shell keeps the catalog it shows until then. */
  lemma ConflictReloads(b: B.State, moves: seq<SharedMove>, i: nat)
    requires b.cat.Some?
    requires var w := SharedGo(SharedStart(b), moves).w;
             i < |w.items| && w.items[i].Arrived? && w.items[i].msg.MutationFailed? && w.items[i].msg.conflict
    ensures var w := SharedGo(SharedStart(b), moves).w;
            var next := Next(w, Advance(i));
            next.root.cat == w.root.cat && next.root.mut.kind == MutReload && Pending(CmdReload) in next.items
  {
    hide SharedGo, SharedStart, Owed, Ticking, Update, Chronicle, Rest;
    StartCoherent(b);
    SharedRuns(SharedStart(b), moves);
    var s := SharedGo(SharedStart(b), moves);
    MutationsRest(s.w.items, i);
    OwedIs(s, i);
    OwedDelivered(s.w.root, s.had, s.ran, s.w.items[i].msg);
    var rest := Rest(s.w.items, i);
    assert (rest + Commands([CmdReload]))[|rest|] == Pending(CmdReload);
  }

  lemma OwedIs(s: Shared, i: nat)
    requires Coherent(s) && i < |s.w.items| && s.w.items[i].Arrived? && !s.w.items[i].msg.TimerFired?
    ensures s.w.root.mut.kind != MutNone && Owed(s.w.root, s.had, s.ran, s.w.items[i])
  {
    hide Owed, Chronicle, Ticking;
    MutationsRest(s.w.items, i);
  }

  /**
   * A delivered reload leaves the shell with the very catalog the backend had when the reload ran. The lane is free,
   * and the next action carries that revision; or it is busy with the tick that waited, and that carries it.
   */
  lemma ReloadRecovers(b: B.State, moves: seq<SharedMove>, i: nat, a: Action)
    requires b.cat.Some?
    requires var w := SharedGo(SharedStart(b), moves).w;
             i < |w.items| && w.items[i].Arrived? && w.items[i].msg.Reloaded?
    ensures var s := SharedGo(SharedStart(b), moves);
            var next := Next(s.w, Advance(i)).root;
            && s.ran.Some? && next.cat == s.ran && s.ran.value in s.had
            && (if s.w.root.tickPending then next.mut.kind == MutTick && Pending(CmdTick(s.ran.value.revision)) in Next(s.w, Advance(i)).items
                else next.mut.kind == MutNone && Update(next, UserAction(a)).1 == [CmdExecute(a.(expectedRevision := s.ran.value.revision))])
  {
    hide SharedGo, SharedStart, Ticking, Chronicle, Rest, Coherent, Identity;
    StartCoherent(b);
    SharedRuns(SharedStart(b), moves);
    var s := SharedGo(SharedStart(b), moves);
    OwedIs(s, i);
    CoherentHas(s);
    OwedDelivered(s.w.root, s.had, s.ran, s.w.items[i].msg);
    var rest := Rest(s.w.items, i);
    var (next, cmds) := Update(s.w.root, s.w.items[i].msg);
    if s.w.root.tickPending {
      assert (rest + Commands(cmds))[|rest|] == Pending(cmds[0]);
    }
  }

  lemma CoherentHas(s: Shared)
    requires Coherent(s)
    ensures Ticking(s.w.root) && s.w.root.cat.Some? && s.w.root.cat.value in s.had
  {
  }

  /** A reload that failed leaves the catalog as it was and frees the lane all the same; one that is not awaited changes nothing. */
  lemma ReloadEnds(r: Shell, cat: Catalog)
    ensures var (next, _) := Update(r, ReloadFailed);
            next.cat == r.cat && (r.mut.kind == MutReload ==> next.mut.kind in {MutNone, MutTick}) && (r.mut.kind != MutReload ==> next == r)
    ensures var (next, _) := Update(r, Reloaded(cat));
            if r.mut.kind == MutReload then next.cat == Some(cat) && next.mut.kind in {MutNone, MutTick} else next == r
  {
  }
}
