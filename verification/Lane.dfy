/**
 * The serialized mutation lane of the root shell: one action, tick or reload in flight at a time,
 * and the timer that drives the ticks. (tmh-next/internal/app/update.go, tmh-next/internal/app/model.go)
 */
module Lane {
  import opened Text
  import opened Domain
  import opened Plan

  function ActionName(k: ActionKind): string {
    match k
    case ActionAttach => "attach"
    case ActionFreeze => "freeze"
    case ActionSplit => "split"
    case ActionLink => "link"
    case ActionPin => "pin"
    case ActionUnpin => "unpin"
    case ActionTouch => "touch"
    case ActionPrune => "prune"
    case ActionSend => "send"
    case ActionKill => "kill"
    case ActionAgentFocus => "agent-focus"
    case ActionAgentPrompt => "agent-prompt"
    case ActionAgentWait => "agent-wait"
    case ActionAgentClaim => "agent-claim"
    case ActionHistoryExport => "history-export"
    case ActionSnapshotCreate => "snapshot-create"
    case ActionSnapshotTag => "snapshot-tag"
    case ActionSnapshotDelete => "snapshot-delete"
    case ActionSnapshotPlan => "snapshot-plan"
    case ActionRestoreApply => "restore-apply"
    case ActionReconcileUndo => "reconcile-undo"
    case ActionBackendProbe => "backend-probe"
    case ActionBackendDoctor => "backend-doctor"
    case ActionBackendToggle => "backend-toggle"
    case ActionMachineConnect => "machine-connect"
    case ActionMachinePing => "machine-ping"
    case ActionMachineDoctor => "machine-doctor"
    case ActionPerfRecord => "perf-record"
    case ActionPerfBenchmark => "perf-benchmark"
    case ActionConfigValidate => "config-validate"
    case ActionConfigSave => "config-save"
    case ActionConfigReload => "config-reload"
    case ActionOther(name) => name
  }

  function Identity(a: Action): string {
    ActionName(a.kind) + "/" + KindName(a.target.kind) + ":" + a.target.id
  }

  datatype MutKind = MutNone | MutAction | MutTick | MutReload

  datatype Mutator = Mutator(kind: MutKind, identity: string)

  const FREE := Mutator(MutNone, "")

  datatype MutationResult = MutationResult(base: nat, next: nat, cat: Option<Catalog>, action: Option<Action>, isTick: bool)

  datatype Msg =
    | Loaded(cat: Catalog)
    | UserAction(action: Action)
    | TimerFired(token: nat)
    | Succeeded(result: MutationResult)
    | MutationFailed(isTick: bool, identity: string, conflict: bool)
    | Reloaded(cat: Catalog)
    | ReloadFailed

  /** What the shell asks its runtime to do; every command but the timer's calls the client. */
  datatype Cmd = CmdExecute(action: Action) | CmdTick(revision: nat) | CmdTimer(token: nat) | CmdReload

  datatype Shell = Shell(
    live: bool, ticker: bool, cat: Option<Catalog>, mut: Mutator,
    timerArmed: bool, armedToken: nat, tickPending: bool, tokenSeq: nat)

  function Revision(r: Shell): nat { if r.cat.Some? then r.cat.value.revision else 0 }

  function ArmTimer(r: Shell): (Shell, seq<Cmd>) {
    if !r.live || !r.ticker || r.timerArmed then (r, [])
    else (r.(timerArmed := true, tokenSeq := r.tokenSeq + 1, armedToken := r.tokenSeq + 1), [CmdTimer(r.tokenSeq + 1)])
  }

  function LaunchTick(r: Shell): (Shell, seq<Cmd>) {
    if !r.ticker then (r, [])
    else if r.mut.kind != MutNone then (r.(tickPending := true), [])
    else (r.(mut := Mutator(MutTick, "")), [CmdTick(Revision(r))])
  }

  /** The lane is free again: a tick that had to wait goes next, otherwise the timer is armed. */
  function Release(r: Shell): (Shell, seq<Cmd>) {
    var free := r.(mut := FREE);
    if r.tickPending then LaunchTick(free.(tickPending := false)) else ArmTimer(free)
  }

  predicate ValidChain(r: Shell, res: MutationResult) {
    res.base == Revision(r) && res.next == res.base + 1 && res.cat.Some? && res.cat.value.revision == res.next
  }

  function Accept(r: Shell, res: MutationResult): (Shell, seq<Cmd>) {
    if r.mut.kind == MutTick && res.isTick then
      if ValidChain(r, res) then Release(r.(cat := res.cat)) else (r.(mut := Mutator(MutReload, "")), [CmdReload])
    else if r.mut.kind == MutAction && !res.isTick then
      if res.action.Some? && Identity(res.action.value) == r.mut.identity && ValidChain(r, res) then Release(r.(cat := res.cat)) else (r, [])
    else (r, [])
  }

  function Reject(r: Shell, isTick: bool, identity: string, conflict: bool): (Shell, seq<Cmd>) {
    if r.mut.kind == MutNone then (r, [])
    else if isTick && r.mut.kind != MutTick then (r, [])
    else if !isTick && (r.mut.kind != MutAction || identity != r.mut.identity) then (r, [])
    else if conflict then (r.(mut := Mutator(MutReload, "")), [CmdReload])
    else Release(r)
  }

  function Update(r: Shell, m: Msg): (Shell, seq<Cmd>) {
    match m
    case Loaded(cat) => ArmTimer(r.(cat := Some(cat)))
    case UserAction(a) =>
      if r.mut.kind != MutNone then (r, [])
      else
        var sent := a.(expectedRevision := Revision(r));
        (r.(tokenSeq := r.tokenSeq + 1, mut := Mutator(MutAction, Identity(a))), [CmdExecute(sent)])
    case TimerFired(token) =>
      if !r.timerArmed || token != r.armedToken then (r, [])
      else if r.mut.kind != MutNone then (r.(timerArmed := false, tickPending := true), [])
      else LaunchTick(r.(timerArmed := false))
    case Succeeded(res) => Accept(r, res)
    case MutationFailed(isTick, identity, conflict) => Reject(r, isTick, identity, conflict)
    case Reloaded(cat) => if r.mut.kind != MutReload then (r, []) else Release(r.(cat := Some(cat)))
    case ReloadFailed => if r.mut.kind != MutReload then (r, []) else Release(r)
  }

  // ---- the shell as an object -----------------------------------------------------------

  class Root {
    const live: bool
    const ticker: bool
    var cat: Option<Catalog>
    var mut: Mutator
    var timerArmed: bool
    var armedToken: nat
    var tickPending: bool
    var tokenSeq: nat

    ghost function Value(): Shell
      reads this
    {
      Shell(live, ticker, cat, mut, timerArmed, armedToken, tickPending, tokenSeq)
    }

    constructor (live: bool, ticker: bool)
      ensures Value() == Shell(live, ticker, None, FREE, false, 0, false, 0)
    {
      this.live, this.ticker := live, ticker;
      cat, mut, timerArmed, armedToken, tickPending, tokenSeq := None, FREE, false, 0, false, 0;
    }

    function CurrentRevision(): nat
      reads this
      ensures CurrentRevision() == Revision(Value())
    {
      if cat.Some? then cat.value.revision else 0
    }

    method Arm() returns (cmds: seq<Cmd>)
      modifies this
      ensures (Value(), cmds) == ArmTimer(old(Value()))
    {
      if !live || !ticker || timerArmed { return []; }
      timerArmed := true;
      tokenSeq := tokenSeq + 1;
      armedToken := tokenSeq;
      return [CmdTimer(armedToken)];
    }

    method Launch() returns (cmds: seq<Cmd>)
      modifies this
      ensures (Value(), cmds) == LaunchTick(old(Value()))
    {
      if !ticker { return []; }
      if mut.kind != MutNone {
        tickPending := true;
        return [];
      }
      mut := Mutator(MutTick, "");
      return [CmdTick(CurrentRevision())];
    }

    method Free() returns (cmds: seq<Cmd>)
      modifies this
      ensures (Value(), cmds) == Release(old(Value()))
    {
      mut := FREE;
      if tickPending {
        tickPending := false;
        cmds := Launch();
      } else {
        cmds := Arm();
      }
    }

    method RequestAction(a: Action) returns (cmds: seq<Cmd>)
      modifies this
      ensures (Value(), cmds) == Update(old(Value()), UserAction(a))
    {
      if mut.kind != MutNone { return []; }
      var sent := a.(expectedRevision := CurrentRevision());
      tokenSeq := tokenSeq + 1;
      mut := Mutator(MutAction, Identity(a));
      return [CmdExecute(sent)];
    }

    method AcceptMutation(res: MutationResult) returns (cmds: seq<Cmd>)
      modifies this
      ensures (Value(), cmds) == Accept(old(Value()), res)
    {
      var validChain := res.base == CurrentRevision() && res.next == res.base + 1 && res.cat.Some? && res.cat.value.revision == res.next;
      if mut.kind == MutTick && res.isTick {
        if !validChain {
          cmds := StartReload();
          return;
        }
      } else if mut.kind == MutAction && !res.isTick {
        if res.action.None? || Identity(res.action.value) != mut.identity || !validChain { return []; }
      } else {
        return [];
      }
      cat := res.cat;
      cmds := Free();
    }

    method RejectMutation(isTick: bool, identity: string, conflict: bool) returns (cmds: seq<Cmd>)
      modifies this
      ensures (Value(), cmds) == Reject(old(Value()), isTick, identity, conflict)
    {
      if mut.kind == MutNone { return []; }
      if isTick && mut.kind != MutTick { return []; }
      if !isTick && (mut.kind != MutAction || identity != mut.identity) { return []; }
      if conflict {
        cmds := StartReload();
      } else {
        cmds := Free();
      }
    }

    method StartReload() returns (cmds: seq<Cmd>)
      modifies this
      ensures Value() == old(Value()).(mut := Mutator(MutReload, "")) && cmds == [CmdReload]
    {
      mut := Mutator(MutReload, "");
      return [CmdReload];
    }

    method Handle(m: Msg) returns (cmds: seq<Cmd>)
      modifies this
      ensures (Value(), cmds) == Update(old(Value()), m)
    {
      match m
      case Loaded(c) =>
        cat := Some(c);
        cmds := Arm();
      case UserAction(a) => cmds := RequestAction(a);
      case TimerFired(token) =>
        if !timerArmed || token != armedToken { return []; }
        timerArmed := false;
        if mut.kind != MutNone {
          tickPending := true;
          return [];
        }
        cmds := Launch();
      case Succeeded(res) => cmds := AcceptMutation(res);
      case MutationFailed(isTick, identity, conflict) => cmds := RejectMutation(isTick, identity, conflict);
      case Reloaded(c) =>
        if mut.kind != MutReload { return []; }
        cat := Some(c);
        cmds := Free();
      case ReloadFailed =>
        if mut.kind != MutReload { return []; }
        cmds := Free();
    }
  }

  // ---- the tick loop never dies ---------------------------------------------------------------

  /** With live ticking, either the timer is armed or a mutation is in flight, and a waiting tick waits for that mutation. */
  predicate Alive(r: Shell) {
    && r.live && r.ticker && r.cat.Some?
    && (r.timerArmed || r.mut.kind != MutNone)
    && (r.tickPending ==> r.mut.kind != MutNone)
    && r.armedToken <= r.tokenSeq
  }

  /** Alive, and there is no tick waiting while the timer runs for the next one. */
  predicate Ticking(r: Shell) {
    Alive(r) && (r.tickPending ==> !r.timerArmed)
  }

  /** Loading starts the loop. */
  lemma LoadStartsTicking(r: Shell, cat: Catalog)
    requires r.live && r.ticker && !r.tickPending && r.armedToken <= r.tokenSeq
    ensures Ticking(Update(r, Loaded(cat)).0)
  {
  }

  /** Whatever message arrives, however malformed, the loop stays alive; only a free lane sends a client call, and then one. */
  lemma UpdateAlive(r: Shell, m: Msg)
    requires Alive(r)
    ensures var (next, cmds) := Update(r, m);
            && Alive(next)
            && |cmds| <= 1
            && (cmds != [] && (cmds[0].CmdExecute? || cmds[0].CmdTick?) ==> next.mut.kind == (if cmds[0].CmdExecute? then MutAction else MutTick))
            && (cmds == [] && r.mut.kind == MutNone ==> next.mut.kind == MutNone)
  {
  }

  /** The timer runs beside a waiting tick exactly after a load that found one waiting. */
  lemma UpdateTicking(r: Shell, m: Msg)
    requires Ticking(r)
    ensures Ticking(Update(r, m).0) <==> !(m.Loaded? && r.tickPending)
  {
  }

  /** A load while a tick waits for a mutation: the timer is armed as well. */
  lemma LoadBesideTick(cat: Catalog)
    ensures var r := Shell(true, true, Some(cat), Mutator(MutAction, "a"), false, 1, true, 2);
            && Ticking(r)
            && var (next, cmds) := Update(r, Loaded(cat));
               next.tickPending && next.timerArmed && cmds == [CmdTimer(3)] && Alive(next) && !Ticking(next)
  {
  }

  function Deliver(r: Shell, ms: seq<Msg>): Shell
    decreases |ms|
  {
    if ms == [] then r else Deliver(Update(r, ms[0]).0, ms[1..])
  }

  /** Over any messages the loop stays alive; without a further load no tick ever waits beside a running timer. */
  lemma {:induction false} NeverDies(r: Shell, ms: seq<Msg>)
    requires Alive(r)
    ensures Alive(Deliver(r, ms))
    ensures Ticking(r) && (forall i :: 0 <= i < |ms| ==> !ms[i].Loaded?) ==> Ticking(Deliver(r, ms))
    decreases |ms|
  {
    hide Update, Ticking, Alive;
    if ms != [] {
      UpdateAlive(r, ms[0]);
      if Ticking(r) { UpdateTicking(r, ms[0]); }
      NeverDies(Update(r, ms[0]).0, ms[1..]);
    }
  }

  /** A timer fires into a tick only with the token armed last; any other changes nothing. */
  lemma StaleTimer(r: Shell, token: nat)
    ensures !r.timerArmed || token != r.armedToken ==> Update(r, TimerFired(token)) == (r, [])
    ensures r.timerArmed && token == r.armedToken && r.ticker ==>
              var (next, cmds) := Update(r, TimerFired(token));
              !next.timerArmed && (if r.mut.kind == MutNone then next.mut.kind == MutTick && cmds == [CmdTick(Revision(r))]
                                   else next.tickPending && cmds == [])
  {
  }
}
