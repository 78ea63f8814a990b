/**
 * The root shell's mutation lane run against the demo backend, over every interleaving of user
 * actions, timers, client calls and replies.
 * (tmh-next/internal/app/update.go, tmh-next/internal/mock/client.go, tmh-next/internal/mock/backend.go)
 */
module LaneWorld {
  import opened Text
  import opened Domain
  import opened Validation
  import opened Transitions
  import opened Lane
  import B = Backend
  import opened Runs

  /** Something under way: a command not yet run, or a message not yet delivered. */
  datatype Item = Pending(cmd: Cmd) | Arrived(msg: Msg)

  datatype World = World(root: Shell, backend: B.State, items: seq<Item>)

  function Commands(cmds: seq<Cmd>): seq<Item> { seq(|cmds|, i requires 0 <= i < |cmds| => Pending(cmds[i])) }

  /** What running a command against the demo client yields. */
  function RunCmd(b: B.State, cmd: Cmd): (B.State, Msg) {
    match cmd
    case CmdExecute(a) =>
      var (next, reply) := B.Exec(b, a);
      (next, match reply
             case Done(base, new_, cat, _) => Succeeded(MutationResult(base, new_, Some(cat), Some(a), false))
             case Rejected(code) => MutationFailed(false, Identity(a), code == RevisionConflict))
    case CmdTick(revision) =>
      var (next, reply) := B.TickStep(b, revision);
      (next, match reply
             case Done(base, new_, cat, _) => Succeeded(MutationResult(base, new_, Some(cat), None, true))
             case Rejected(code) => MutationFailed(true, "", code == RevisionConflict))
    case CmdTimer(token) => (b, TimerFired(token))
    case CmdReload => (b, if b.cat.Some? then Reloaded(b.cat.value) else ReloadFailed)
  }

  datatype Move = Press(action: Action) | Advance(item: nat)

  function Rest(items: seq<Item>, i: nat): seq<Item>
    requires i < |items|
  {
    items[..i] + items[i + 1..]
  }

  /** The user asks for an action, or any one of the things under way goes a step further. */
  function Next(w: World, move: Move): World {
    match move
    case Press(a) =>
      var (root, cmds) := Update(w.root, UserAction(a));
      w.(root := root, items := w.items + Commands(cmds))
    case Advance(i) =>
      if i >= |w.items| then w
      else
        match w.items[i]
        case Pending(cmd) =>
          var (backend, msg) := RunCmd(w.backend, cmd);
          w.(backend := backend, items := Rest(w.items, i) + [Arrived(msg)])
        case Arrived(msg) =>
          var (root, cmds) := Update(w.root, msg);
          w.(root := root, items := Rest(w.items, i) + Commands(cmds))
  }

  function Go(w: World, moves: seq<Move>): World
    decreases |moves|
  {
    if moves == [] then w else Go(Next(w, moves[0]), moves[1..])
  }

  // ---- the invariant ----------------------------------------------------------------------

  predicate IsTimer(item: Item) {
    (item.Pending? && item.cmd.CmdTimer?) || (item.Arrived? && item.msg.TimerFired?)
  }

  /** All that is under way except timers: the mutations. */
  function Mutations(items: seq<Item>): seq<Item> {
    if items == [] then []
    else if IsTimer(items[0]) then Mutations(items[1..])
    else [items[0]] + Mutations(items[1..])
  }

  predicate HasTimer(items: seq<Item>, token: nat) {
    exists i :: 0 <= i < |items| && (items[i] == Pending(CmdTimer(token)) || items[i] == Arrived(TimerFired(token)))
  }

  /** The one mutation under way belongs to what the lane is busy with, and its reply will be taken. */
  predicate Matching(root: Shell, backend: B.State, item: Item) {
    match item
    case Pending(CmdExecute(a)) =>
      root.mut == Mutator(MutAction, Identity(a)) && a.expectedRevision == Revision(root) && root.cat == backend.cat
    case Pending(CmdTick(revision)) =>
      root.mut.kind == MutTick && revision == Revision(root) && root.cat == backend.cat
    case Arrived(Succeeded(res)) =>
      && ValidChain(root, res) && res.cat == backend.cat
      && (if res.isTick then root.mut.kind == MutTick
          else res.action.Some? && root.mut == Mutator(MutAction, Identity(res.action.value)))
    case Arrived(MutationFailed(isTick, identity, conflict)) =>
      && !conflict && root.cat == backend.cat
      && (if isTick then root.mut.kind == MutTick else root.mut == Mutator(MutAction, identity))
    case _ => false
  }

  predicate InLane(w: World) {
    && w.root.cat.Some? && w.backend.cat.Some?
    && (if w.root.mut.kind == MutNone then Mutations(w.items) == [] && w.root.cat == w.backend.cat
        else |Mutations(w.items)| == 1 && Matching(w.root, w.backend, Mutations(w.items)[0]))
    && (w.root.timerArmed ==> HasTimer(w.items, w.root.armedToken))
    && Ticking(w.root)
  }

  lemma {:induction false} MutationsAppend(a: seq<Item>, b: seq<Item>)
    ensures Mutations(a + b) == Mutations(a) + Mutations(b)
  {
    hide IsTimer;
    if a == [] {
      assert a + b == b;
    } else {
      assert (a + b)[1..] == a[1..] + b;
      MutationsAppend(a[1..], b);
    }
  }

  /** Taking one item away: a timer leaves the mutations as they are, a mutation is the only one. */
  lemma MutationsRest(items: seq<Item>, i: nat)
    requires i < |items|
    ensures IsTimer(items[i]) ==> Mutations(Rest(items, i)) == Mutations(items)
    ensures !IsTimer(items[i]) ==> |Mutations(items)| == |Mutations(Rest(items, i))| + 1
    ensures !IsTimer(items[i]) && |Mutations(items)| == 1 ==> Mutations(items)[0] == items[i]
  {
    hide IsTimer;
    assert items == items[..i] + ([items[i]] + items[i + 1..]);
    MutationsAppend(items[..i], [items[i]] + items[i + 1..]);
    MutationsAppend([items[i]], items[i + 1..]);
    MutationsAppend(items[..i], items[i + 1..]);
    assert [items[i]][1..] == [];
  }

  lemma TimerRest(items: seq<Item>, i: nat, more: seq<Item>, token: nat)
    requires i < |items| && HasTimer(items, token)
    requires items[i] != Pending(CmdTimer(token)) && items[i] != Arrived(TimerFired(token))
    ensures HasTimer(Rest(items, i) + more, token)
  {
    var j :| 0 <= j < |items| && (items[j] == Pending(CmdTimer(token)) || items[j] == Arrived(TimerFired(token)));
    assert (Rest(items, i) + more)[if j < i then j else j - 1] == items[j];
  }

  lemma MutationsOne(item: Item)
    ensures Mutations([item]) == if IsTimer(item) then [] else [item]
  {
    assert [item][1..] == [];
  }

  // ---- every move keeps it --------------------------------------------------------------------

  /** Running the command under way gives a reply the lane will take: no conflict can arise. */
  lemma CommandReplies(root: Shell, b: B.State, cmd: Cmd)
    requires root.cat.Some? && b.cat.Some? && Matching(root, b, Pending(cmd))
    ensures var (next, msg) := RunCmd(b, cmd);
            next.cat.Some? && Matching(root, next, Arrived(msg)) && !IsTimer(Arrived(msg))
  {
    hide Ticking, Identity, Apply, DoTick, ValidCatalog;
    match cmd
    case CmdExecute(a) =>
      StepClock(b, Do(a));
      ExecConflict(b, a);
    case CmdTick(revision) =>
      StepClock(b, TickAt(revision));
  }

  /** No transition reports a revision conflict of its own. */
  lemma ExecConflict(b: B.State, a: Action)
    requires b.cat.Some? && a.expectedRevision == b.cat.value.revision
    ensures B.Exec(b, a).1 != B.Rejected(RevisionConflict)
  {
    hide Apply, ValidCatalog;
    AcceptedStep(b.cat.value, b.counters, a);
  }

  /** Delivering a reply that matches frees the lane, or starts the tick that waited for it. */
  lemma ReplyFrees(root: Shell, b: B.State, msg: Msg)
    requires Ticking(root) && b.cat.Some? && Matching(root, b, Arrived(msg))
    ensures var (next, cmds) := Update(root, msg);
            && next.cat == b.cat && Ticking(next)
            && (if root.tickPending then
                  next.mut.kind == MutTick && cmds == [CmdTick(Revision(next))] && next.timerArmed == root.timerArmed
                else
                  next.mut.kind == MutNone && next.timerArmed
                  && cmds == (if root.timerArmed then [] else [CmdTimer(next.armedToken)])
                  && (root.timerArmed ==> next.armedToken == root.armedToken))
  {
    hide Identity;
  }

  lemma NewTimer(items: seq<Item>, cmds: seq<Cmd>, token: nat)
    requires CmdTimer(token) in cmds
    ensures HasTimer(items + Commands(cmds), token)
  {
    var j :| 0 <= j < |cmds| && cmds[j] == CmdTimer(token);
    assert (items + Commands(cmds))[|items| + j] == Pending(CmdTimer(token));
  }

  lemma OldTimer(items: seq<Item>, more: seq<Item>, token: nat)
    requires HasTimer(items, token)
    ensures HasTimer(items + more, token)
  {
    var j :| 0 <= j < |items| && (items[j] == Pending(CmdTimer(token)) || items[j] == Arrived(TimerFired(token)));
    assert (items + more)[j] == items[j];
  }

  lemma PressKeeps(w: World, a: Action)
    requires InLane(w)
    ensures InLane(Next(w, Press(a)))
  {
    hide Identity, HasTimer, Mutations;
    var (root, cmds) := Update(w.root, UserAction(a));
    MutationsAppend(w.items, Commands(cmds));
    if w.root.timerArmed { OldTimer(w.items, Commands(cmds), w.root.armedToken); }
    if cmds == [] {
      assert w.items + Commands(cmds) == w.items;
    } else {
      assert Commands(cmds) == [Pending(cmds[0])];
      MutationsOne(Pending(cmds[0]));
      SameIdentity(a, cmds[0].action);
    }
  }

  lemma SameIdentity(a: Action, b: Action)
    requires b == a.(expectedRevision := b.expectedRevision)
    ensures Identity(a) == Identity(b)
  {
  }

  lemma RunKeeps(w: World, i: nat)
    requires InLane(w) && i < |w.items| && w.items[i].Pending?
    ensures InLane(Next(w, Advance(i)))
  {
    hide Identity, HasTimer, Mutations, Ticking, Matching, RunCmd, Rest;
    var cmd := w.items[i].cmd;
    var (b, msg) := RunCmd(w.backend, cmd);
    var rest := Rest(w.items, i);
    MutationsRest(w.items, i);
    MutationsAppend(rest, [Arrived(msg)]);
    MutationsOne(Arrived(msg));
    if IsTimer(w.items[i]) {
      TimerRun(w.backend, cmd);
      if w.root.timerArmed { TimerMoves(w.items, i, cmd.token, w.root.armedToken); }
    } else {
      if w.root.mut.kind != MutNone { CommandReplies(w.root, w.backend, cmd); }
      if w.root.timerArmed { TimerRest(w.items, i, [Arrived(msg)], w.root.armedToken); }
    }
  }

  lemma TimerRun(b: B.State, cmd: Cmd)
    requires cmd.CmdTimer?
    ensures RunCmd(b, cmd) == (b, TimerFired(cmd.token))
  {
  }

  /** A timer that goes from command to message is still there. */
  lemma TimerMoves(items: seq<Item>, i: nat, fired: nat, token: nat)
    requires i < |items| && items[i] == Pending(CmdTimer(fired)) && HasTimer(items, token)
    ensures HasTimer(Rest(items, i) + [Arrived(TimerFired(fired))], token)
  {
    if fired == token {
      assert (Rest(items, i) + [Arrived(TimerFired(fired))])[|items| - 1] == Arrived(TimerFired(token));
    } else {
      TimerRest(items, i, [Arrived(TimerFired(fired))], token);
    }
  }

  lemma ReplyKeeps(w: World, i: nat)
    requires InLane(w) && i < |w.items| && w.items[i].Arrived? && !w.items[i].msg.TimerFired?
    ensures InLane(Next(w, Advance(i)))
  {
    hide Identity, HasTimer, Mutations, Ticking, Rest, Update;
    var msg, rest := w.items[i].msg, Rest(w.items, i);
    MutationsRest(w.items, i);
    assert Matching(w.root, w.backend, Arrived(msg));
    ReplyFrees(w.root, w.backend, msg);
    var (root, cmds) := Update(w.root, msg);
    MutationsAppend(rest, Commands(cmds));
    if cmds == [] {
      assert Commands(cmds) == [];
      assert rest + Commands(cmds) == rest;
    } else {
      assert Commands(cmds) == [Pending(cmds[0])];
      MutationsOne(Pending(cmds[0]));
    }
    assert Mutations(rest) == [];
    if root.timerArmed {
      if w.root.timerArmed {
        WasArmed(w.root, root);
        TimerRest(w.items, i, Commands(cmds), w.root.armedToken);
      } else {
        assert cmds[0] == CmdTimer(root.armedToken);
        NewTimer(rest, cmds, root.armedToken);
      }
    }
  }

  lemma WasArmed(before: Shell, after: Shell)
    requires Ticking(before) && before.timerArmed
    ensures !before.tickPending
  {
  }

  lemma TimerKeeps(w: World, i: nat)
    requires InLane(w) && i < |w.items| && w.items[i].Arrived? && w.items[i].msg.TimerFired?
    ensures InLane(Next(w, Advance(i)))
  {
    hide Identity, HasTimer, Mutations, Rest;
    var msg, rest := w.items[i].msg, Rest(w.items, i);
    MutationsRest(w.items, i);
    var (root, cmds) := Update(w.root, msg);
    MutationsAppend(rest, Commands(cmds));
    if cmds == [] {
      assert Commands(cmds) == [];
      assert rest + Commands(cmds) == rest;
    } else {
      assert Commands(cmds) == [Pending(cmds[0])];
      MutationsOne(Pending(cmds[0]));
    }
    if root.timerArmed { TimerRest(w.items, i, Commands(cmds), w.root.armedToken); }
  }

  /** Every move of every interleaving keeps the invariant. */
  lemma NextKeeps(w: World, move: Move)
    requires InLane(w)
    ensures InLane(Next(w, move))
  {
    hide InLane, Update, RunCmd, Rest;
    match move
    case Press(a) => PressKeeps(w, a);
    case Advance(i) =>
      if i < |w.items| {
        if w.items[i].Pending? {
          RunKeeps(w, i);
        } else if w.items[i].msg.TimerFired? {
          TimerKeeps(w, i);
        } else {
          ReplyKeeps(w, i);
        }
      }
  }

  // ---- the result ---------------------------------------------------------------------------------

  /** The world right after the initial snapshot of a loaded backend was delivered. */
  function Start(b: B.State): World
    requires b.cat.Some?
  {
    var (root, cmds) := Update(Shell(true, true, None, FREE, false, 0, false, 0), Loaded(b.cat.value));
    World(root, b, Commands(cmds))
  }

  lemma StartInLane(b: B.State)
    requires b.cat.Some?
    ensures InLane(Start(b))
  {
    var w := Start(b);
    assert w.items == [Pending(CmdTimer(1))];
    MutationsOne(w.items[0]);
    assert HasTimer(w.items, 1);
  }

  lemma {:induction false} GoKeeps(w: World, moves: seq<Move>)
    requires InLane(w)
    ensures InLane(Go(w, moves))
    decreases |moves|
  {
    hide Next, InLane;
    if moves != [] {
      NextKeeps(w, moves[0]);
      GoKeeps(Next(w, moves[0]), moves[1..]);
    }
  }

  /** A reply to a mutation the lane will take. */
  predicate Taken(root: Shell, msg: Msg) {
    match msg
    case Succeeded(res) => ValidChain(root, res)
    case MutationFailed(_, _, conflict) => !conflict
    case _ => false
  }

  /**
   * After any interleaving: at most one mutation is under way; a free lane shows the backend's very
   * catalog; no reload is ever entered; any reply that has arrived chains on the shell's revision and is no
   * conflict; and something is always under way that will move the ticks on.
   */
  lemma LaneSafety(b: B.State, moves: seq<Move>)
    requires b.cat.Some?
    ensures var w := Go(Start(b), moves);
            && |Mutations(w.items)| <= 1
            && (w.root.mut.kind == MutNone ==> w.root.cat == w.backend.cat)
            && w.root.mut.kind != MutReload
            && (forall i :: 0 <= i < |w.items| && w.items[i].Arrived? && !w.items[i].msg.TimerFired? ==> Taken(w.root, w.items[i].msg))
            && (Mutations(w.items) != [] || HasTimer(w.items, w.root.armedToken))
  {
    hide Go, Start, Update;
    StartInLane(b);
    GoKeeps(Start(b), moves);
    var w := Go(Start(b), moves);
    forall i | 0 <= i < |w.items| && w.items[i].Arrived? && !w.items[i].msg.TimerFired? ensures Taken(w.root, w.items[i].msg) {
      MutationsRest(w.items, i);
    }
  }

  /** Delivering that reply brings the shell level with the backend and frees the lane for the user, or for the tick that waited. */
  lemma RepliesFreeLane(b: B.State, moves: seq<Move>, i: nat)
    requires b.cat.Some?
    requires var w := Go(Start(b), moves); i < |w.items| && w.items[i].Arrived? && !w.items[i].msg.TimerFired?
    ensures var w := Go(Start(b), moves);
            var next := Next(w, Advance(i));
            && next.root.cat == next.backend.cat
            && (next.root.mut.kind == MutNone || (w.root.tickPending && next.root.mut.kind == MutTick))
  {
    hide Go, Start, Update, Ticking;
    StartInLane(b);
    GoKeeps(Start(b), moves);
    var w := Go(Start(b), moves);
    MutationsRest(w.items, i);
    ReplyFrees(w.root, w.backend, w.items[i].msg);
  }
}
