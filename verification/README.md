# tmh: the demo control plane, the active-window protocol and configuration reconciliation

This project models four parts of tmh, a terminal workspace manager, in Dafny and proves what they promise.

**The demo backend.** A catalog of workspaces, terminals, agents, snapshots, restore plans, machines and events is
advanced by about thirty revision-checked actions and by scenario ticks; every result passes a validation gate.
`Domain` and `Topology` hold the data, `Transitions` the actions, `Validation` the gate and `CatalogCheck` the loops that
check it, `Backend` the object that executes and ticks. `Actions` says when each action is accepted, what it changes and
what it leaves alone. `Edits`, `Reconcile`, `Undo`, `Converge` and `Plan` are the snapshot, diff, plan, apply and undo
pipeline over nested workspace states, told by their fields; `Replay` and `Intact` tell it in every detail, with order,
index and split. `Editor` is the code that edits a state in place, proved against it. `Gate`, `GateSafe`, `GateExact` and
`GateRestore` say for every action whether the gate can turn its result away, and exactly when. `Runs`, `Ids`,
`UndoRuns`, `Surfaces`, `Lifecycle` and `Pipeline` are about whole runs with any number of callers, `Pipeline` from taking a
snapshot to what a push restores; `Twins` is about where surface ids fail to be
unique, `Additions` about undoing what was only added, on an empty side as well.

**The serialized mutation lane.** `Lane` is the root shell with its timer tokens, pending tick, action in flight and
reload; `LaneWorld` composes it with the backend over every interleaving of commands, replies and timers, `Contention` with
a backend that other clients change as well.

**The active-window protocol.** `Tmux` is a server whose links other clients may change between any two commands,
`Rows` the store of tracked windows, `Active` the classification of rows and its meaning, `Protocol` the commands
promote, touch, prune, remove, recover and kill. Any command may fail. The server keeps a ghost log of the windows whose
last link one of our own commands took away. What a command achieves is stated for a calm server and store, where nobody
else acts, and that it is achieved wherever it can be for one where nothing fails of itself either; what a command never
does is stated without that.

**Configuration.** `Yaml` has the path laws of the document tree, `YamlEdit` the walks that change it in place, `Roots`
the inference of roots, `Import` the import of the live tree, `Resolver` the resolver and the validator, `Diff` the
comparison and the claim that a fresh import shows no drift, `Sync` the push that creates what the configuration names
and the live tree lacks. What these come to is told apart from their code in `Loaded` (reading a document), `Resolved`,
`Violations`, `Report` (the comparison) and `Created` (the push). `Text` and `Sorting` are shared.

Catalogs, workspace states and documents are values; objects that the program updates in place (`Backend`, `Side`,
`Root`, `Server`, `Store`, `File`, `Multiplexer`) are classes whose methods are proved against functions on values, and the laws
are lemmas about these functions.

## What the code does not promise

- Undo gives the fields back, but not the order of panes, their split or a title with a `~` in it. It gives back the
  very state exactly if what it has to make again stood last, in the order it makes it (`Intact.UndoExactly`). Where
  desired and observed state agreed before, the gate turns any other covered undo away (`UndoRuns.UndoSettles`,
  `UndoRuns.UndoWhen`; `UndoRuns.UndoTurnedAway` is an example).
- Removing a window takes its surfaces along. Undo restores every field exactly if each of them is named by the
  selected operations (`Undo.UndoInvertsApply`); applying converges exactly if the operations clear the windows they
  remove (`Converge.ApplyMerges`).
- Undo looks for the applied plan with the greatest identifier as text, and plan 10000 sorts before plan 9999
  (`Ids.IdsOrder`, `Ids.FiveDigitsSortFirst`).
- A split makes the desired state equal to the observed one and leaves the recorded drift, so it passes the gate only
  where there was none (`GateExact.SplitExact`).
- Priming promises that newly issued ids never collide (tmh-next/internal/mock/backend.go:1147-1148), but does not read the
  states of snapshots or the operations of plans. Surfaces stay unique over runs if no generated id there is greater than
  all that priming reads (`Surfaces.PrimedSurfaces`, `Surfaces.LoadedTidy`); otherwise a split may draw an id the state
  holds already, and the gate lets it pass (`Twins.TwinsMade`, `Twins.FixtureTwins`).
- On a side without windows the first surface a plan adds makes a window of its own. Unless an operation names that
  window too, applying does not converge and undo leaves it behind (`Additions.EmptyMerges`, `Additions.EmptySide`).
- A load while a tick waits arms the timer beside it; the loop stays alive (`Lane.UpdateTicking`, `Lane.LoadBesideTick`).
- A failing or rejected action may have drawn identifiers, although the comment at tmh-next/internal/mock/backend.go:109-110
  says that failures never mutate counters; counters only grow (`Runs.NeverReissued`).
- Touches move the expiry of a row back if the ttl was lowered meanwhile, although the comment at
  internal/state/active.go:94-98 says that hooks cannot; they do not exactly if the row expires no later than its last
  selection plus the ttl (`Rows.ExpiryKept`, `Rows.LoweredTtl`).
- Clearing a placeholder kills a window by a target that is matched by name as well, so a window that is named like
  the placeholder's id can go in its place (`Protocol.KillMisses`, `Protocol.NameClash`).
- A promotion whose new link cannot be confirmed fails without a rollback and leaves the alias without a row
  (internal/actions/active_promote.go:51-56); the pruned links are all kept (`Protocol.PromoteActiveWindow`).
- Touching a window reports an unreadable table like an absent row (internal/actions/active_touch.go:45-49,
  `Protocol.TouchActiveWindow`).
- An absolute directory of a template wins over a root of the window's own, although own fields are said to win
  (internal/config/resolver.go:165, `Resolved.TemplateDirWins`).
- A push puts every pane of a window into the window's directory; directories of its panes do not count
  (internal/actions/create.go:80-130, `Created.SessionAsConfigured`).
- A session or window name with a dot in it splits the path it is imported under (`Import.DotsMatter`).
- Template panes are not validated, so a configuration that validates may still fail to resolve (`Resolver.ValidResolves`).
- The targets of a session whose name has a colon in it lead to another session or nowhere (`Sync.TargetReaches`).

## Model

| member | source | states |
|---|---|---|
| `Undo.UndoInvertsApply` | tmh-next/internal/mock/backend.go:687-766 | applying current operations and undoing them is never refused, and gives back every field if and only if each surface inside a removed window is itself named by an operation |
| `Undo.TwoParts` | tmh-next/internal/mock/backend.go:979-988 | sorted by field path, a plan is surface operations followed by window operations, and both parts still match the state |
| `Undo.FirstStage` | tmh-next/internal/mock/backend.go:687-712 | when the surface operations are done, every window is still as the window operations recorded it |
| `Undo.RunStages` | tmh-next/internal/mock/backend.go:687-766 | the four stages of applying and undoing: surfaces, windows, windows back, surfaces back, and what each leaves |
| `Undo.PlanSides` | tmh-next/internal/domain/validate.go:386-407 | the plan order puts every surface operation before every window operation |
| `Converge.ApplyMerges` | tmh-next/internal/mock/backend.go:687-712 | applying a selection is merging it into the fields, if and only if the operations empty the windows they remove |
| `Converge.ApplyAnyOrder` | tmh-next/internal/mock/backend.go:991-1079 | operations that remove no window apply in any order, changing exactly their own fields |
| `Converge.PatchOrder` | tmh-next/internal/mock/backend.go:687-712 | the same operations in another order merge into the same fields |
| `Plan.DiffStatesSpec` | tmh-next/internal/mock/backend.go:949-974 | the diff names, strictly sorted, exactly the fields on which the two states disagree, with both values |
| `Plan.BuildOpsSections` | tmh-next/internal/mock/backend.go:890-922 | a built plan is sorted: freeze, then pull, then push operations, each by field |
| `Plan.FreshConverges` | tmh-next/internal/mock/backend.go:890-922 | all operations of a fresh diff, push or pull, make the fields of the one state those of the other, if and only if they clear the windows they remove |
| `Plan.FreshPullConverges` | tmh-next/internal/mock/backend.go:890-922 | all pull operations make the fields of the desired state those of the observed one, under the same condition |
| `UndoRuns.PlanConverges` | tmh-next/internal/mock/backend.go:640-723 | accepting every push (or pull) operation of a fresh plan leaves the edited side of the new catalog with the fields of the snapshot (or of the observed state), if and only if they clear the windows they remove |
| `Pipeline.CreateTakes` | tmh-next/internal/mock/backend.go:553-583 | a snapshot action fails if and only if there is nothing to take, and else adds one snapshot for each workspace, in order, numbered on, with the state it observes now |
| `Pipeline.RunMeans` | tmh-next/internal/mock/backend.go:553-766 | over any run a snapshot, as long as it is there, is of the workspace and holds the state it was taken with |
| `Pipeline.PlanMade` | tmh-next/internal/mock/backend.go:624-638 | a plan is made if and only if the snapshot and its workspace are there, and holds the operations that compare that workspace with that snapshot |
| `Pipeline.SnapshotRestores` | tmh-next/internal/mock/backend.go:553-723 | snapshot, anything at all, plan, ticks, accepted push of all its operations: the workspace observes again the fields it had when the snapshot was taken, if and only if the operations clear the windows they remove |
| `Pipeline.FreezeUndone` | tmh-next/internal/mock/backend.go:662-766 | undoing a freeze takes back exactly the snapshots it made |
| `Pipeline.MarkedChosen` | tmh-next/internal/mock/backend.go:651-712 | of the mode applied exactly the chosen operations are marked included, the others stay as they were |
| `Pipeline.ChosenExactly` | tmh-next/internal/mock/backend.go:651-661 | chosen are the operations of the mode that are selected, or included if nothing is selected, in their order |
| `Pipeline.RestoreActs` | tmh-next/internal/mock/backend.go:640-723 | when applying is accepted, what becomes of the plan, and what it leaves alone |
| `Pipeline.UndoActs` | tmh-next/internal/mock/backend.go:725-766 | when undo is accepted, what becomes of the plan, and what it leaves alone |
| `Pipeline.FreezeFirst` | tmh-next/internal/mock/backend.go:890-922 | a new plan starts with one freeze operation, all its operations are included and aimed at snapshot or workspace |
| `Plan.FreshPushConverges` | tmh-next/internal/mock/backend.go:890-922 | all push operations of a fresh plan make the fields of the observed state those of the snapshot, if and only if they clear the windows they remove |
| `Plan.FreshSelectionUndone` | tmh-next/internal/mock/backend.go:687-766 | any selection of a fresh plan can be applied and undone, and undo restores the fields if and only if the selection is covered |
| `Plan.FreshIsCurrent` | tmh-next/internal/mock/backend.go:890-922 | any selection from a fresh diff matches the state it was computed from |
| `Plan.WholeDiffMerges` | tmh-next/internal/mock/backend.go:949-974 | the whole diff merged into the first state gives the fields of the second |
| `Plan.ReconcileConsistent` | tmh-next/internal/mock/backend.go:925-939 | the recomputed status meets the drift rule of the gate if and only if the two states are equal or differ in a field |
| `Plan.ReconcileRecords` | tmh-next/internal/mock/backend.go:925-939 | the recorded drift names exactly the fields that disagree, sorted, each with the value wanted and the one observed; status follows, a frozen workspace without drift stays frozen |
| `Edits.SetLayoutFields` | tmh-next/internal/mock/backend.go:991-1006 | writing a window layout changes exactly its own field, or adds it |
| `Edits.SetSurfaceFields` | tmh-next/internal/mock/backend.go:1007-1036 | writing a whole surface changes exactly its own field, wherever the surface is, and keeps ids unique |
| `Edits.DropSurfaceFields` | tmh-next/internal/mock/backend.go:1054-1079 | removing a surface removes exactly its field |
| `Edits.DropWindowFields` | tmh-next/internal/mock/backend.go:1054-1079 | removing a window removes its own field and those of the surfaces in it, no other |
| `Edits.SetAttributeMeans` | tmh-next/internal/mock/backend.go:1029-1047 | writing title, directory or split of a surface changes exactly that, in its place; any other attribute, or no such surface, is refused |
| `Edits.SetFieldPaths` | tmh-next/internal/mock/backend.go:991-1079 | which paths can be written and removed, and what each one addresses |
| `Topology.KeySplit` | tmh-next/internal/mock/backend.go:979-988 | field paths are taken apart into the kind and the id they were built from |
| `Editor.Side.Set` | tmh-next/internal/mock/backend.go:991-1051 | the in-place edit reaches the state the field semantics says, or refuses and changes nothing |
| `Editor.Side.Remove` | tmh-next/internal/mock/backend.go:1054-1079 | the in-place removal of a window or surface, or a refusal that changes nothing |
| `Editor.Side.Apply` | tmh-next/internal/mock/backend.go:687-712 | operation by operation the side reaches the applied state; success if none is refused |
| `Editor.Side.Undo` | tmh-next/internal/mock/backend.go:741-762 | the reverse replay reaches the undone state; a removal that finds nothing is ignored |
| `Editor.StateFields` | tmh-next/internal/mock/backend.go:979-988 | the loops over windows and surfaces flatten a state into its fields |
| `Editor.Compare` | tmh-next/internal/mock/backend.go:949-974 | the imperative diff is the sorted list of disagreements |
| `GateSafe.GateNeverFires` | tmh-next/internal/mock/backend.go:240-887 | from a valid catalog with dominating counters, pin, touch, prune, send, kill, agent, export, snapshot, plan, backend, machine, performance and configuration actions fail or yield a valid catalog, and counters stay ahead |
| `GateSafe.TickNeverGated` | tmh-next/internal/mock/backend.go:141-206 | every tick on a sound catalog is accepted and leaves a sound catalog |
| `Actions.PinActs` | tmh-next/internal/mock/backend.go:357-380 | pinning and unpinning are accepted if and only if they turn the mark over; kind and time to live follow, nothing else changes |
| `Actions.TouchActs` | tmh-next/internal/mock/backend.go:382-390 | touching a view sets its last use and nothing else |
| `Actions.PruneActs` | tmh-next/internal/mock/backend.go:392-409 | a view is pruned if and only if it is not pinned, its time is up and the user agreed; no other view goes |
| `Actions.SendActs` | tmh-next/internal/mock/backend.go:411-429 | input is accepted if and only if the terminal is live and it is not blank; history gains one chunk, numbered after all of its scope |
| `Actions.KillActs` | tmh-next/internal/mock/backend.go:431-453 | a killed terminal has exited and every agent it ran has lost it, nothing else changes |
| `Actions.FreezeActs` | tmh-next/internal/mock/backend.go:280-290 | a frozen workspace wants what it observed, without drift |
| `Actions.SplitActs` | tmh-next/internal/mock/backend.go:292-332 | when a split is accepted, the terminal it adds and what becomes of the workspace |
| `Actions.SplitPlaces` | tmh-next/internal/mock/backend.go:306-313 | the first window that shows the surface gets the new one at its end and an even layout, every other stays as it was |
| `Actions.LinkActs` | tmh-next/internal/mock/backend.go:334-355 | a linked terminal belongs to the workspace named, is listed there and no longer where it was |
| `Actions.AgentActs` | tmh-next/internal/mock/backend.go:455-521 | which agents accept which action, and what becomes of the agent and of its history |
| `Actions.ExportActs` | tmh-next/internal/mock/backend.go:523-551 | an export is accepted if and only if what is selected has a line |
| `Actions.TagActs` | tmh-next/internal/mock/backend.go:585-598 | a tag is put on once |
| `Actions.DeleteActs` | tmh-next/internal/mock/backend.go:600-622 | a snapshot goes with exactly the plans made from it |
| `Actions.CheckActs` | tmh-next/internal/mock/backend.go:768-791 | a probe of an unavailable backend times out, a checkup is recorded as failed, any other is recorded as good |
| `Actions.ToggleActs` | tmh-next/internal/mock/backend.go:793-808 | the default backend cannot be turned off, another one only after the user agreed |
| `Actions.MachineActs` | tmh-next/internal/mock/backend.go:810-826 | a machine answers if and only if it is not offline |
| `Actions.PerfActs` | tmh-next/internal/mock/backend.go:828-850 | one recording or benchmark more, of each the last twenty |
| `Actions.ConfigActs` | tmh-next/internal/mock/backend.go:852-886 | saving takes over a draft that passes the checks, validating changes nothing, reloading restores the first settings |
| `Actions.TickActs` | tmh-next/internal/mock/backend.go:141-206 | what a tick does to clock, samples, machines and, every fifth time, the first agent at work |
| `Lifecycle.RunLasts` | tmh-next/internal/mock/backend.go:240-887 | over any run no exited terminal lives again, no agent that is done works again or falls back, no claim changes hands, nothing said is lost, the default backend stays on |
| `GateExact.AttachActs` | tmh-next/internal/mock/backend.go:245-278 | attach takes the first live terminal listed, or the workspace of the terminal named; when it fails; and it passes the gate if and only if the terminal shows nothing or a surface of the observed state |
| `GateExact.FreezeExact` | tmh-next/internal/mock/backend.go:280-290 | freezing passes if and only if every terminal of the workspace shows a surface of the observed state |
| `GateExact.SplitExact` | tmh-next/internal/mock/backend.go:292-332 | a split adds exactly one surface id and passes if and only if there was no drift and every terminal shows a surface of the split state; ids stay unique if and only if the id drawn is new to the state, which the gate does not ask |
| `GateExact.SplitUnique` | tmh-next/internal/mock/backend.go:303-317 | ids of a state stay unique under a split if and only if the surface drawn is not in it |
| `GateExact.WorkspaceSwapped` | tmh-next/internal/domain/validate.go:282-323 | a workspace may be exchanged for one with the same links if and only if its own state is consistent and its terminals stay placed |
| `GateRestore.LinkExact` | tmh-next/internal/mock/backend.go:334-355 | linking passes if and only if the new workspace has a first surface or already knows the terminal's own |
| `GateRestore.ApplyExact` | tmh-next/internal/mock/backend.go:640-723 | applying is stale if and only if an operation is refused; otherwise it passes the gate if and only if the edited workspace settles |
| `GateRestore.UndoExact` | tmh-next/internal/mock/backend.go:725-766 | undo is stale if and only if the replay is refused; otherwise it passes if and only if the workspace settles and no plan was built from a snapshot it drops |
| `GateRestore.ApplyAhead` | tmh-next/internal/mock/backend.go:208-236 | whatever the action, terminal, history, event, snapshot and plan identifiers still to be issued are free in the new catalog |
| `Gate.BuiltPlanOk` | tmh-next/internal/domain/validate.go:354-382 | a freshly built plan passes every check on plans |
| `CatalogCheck.ValidateCatalog` | tmh-next/internal/domain/validate.go:12-257 | the loops and index maps accept exactly the valid catalogs |
| `CatalogCheck.CheckBackends` | tmh-next/internal/domain/validate.go:88-103 | exactly one default backend, enabled, and known states |
| `CatalogCheck.CheckEvents` | tmh-next/internal/domain/validate.go:176-201 | sequence numbers start above zero and rise, and every enumeration is known |
| `CatalogCheck.CheckOps` | tmh-next/internal/domain/validate.go:354-382 | operations have known modes, the right targets, fields, and are strictly sorted |
| `CatalogCheck.CheckConfig` | tmh-next/internal/domain/model.go:635-670 | the rules on retention, overflow, raw input and trust |
| `Gate.DeleteSound` | tmh-next/internal/mock/backend.go:600-622 | deleting a snapshot with the plans built from it leaves the catalog valid |
| `Backend.PrimedDominates` | tmh-next/internal/mock/backend.go:1149-1201 | whatever the fixture, no terminal, history, event, snapshot or plan identifier issued after loading collides with one it holds; for surfaces see `Surfaces.PrimedSurfaces` |
| `Backend.BumpAll` | tmh-next/internal/mock/backend.go:1149-1201 | the loop over the identifiers computes the primed counters |
| `Backend.PrimedGreatest` | tmh-next/internal/mock/backend.go:1149-1201 | priming leaves each prefix with exactly the greatest number carried under it, or none |
| `Surfaces.PrimedSurfaces` | tmh-next/internal/mock/backend.go:1149-1201 | a loaded fixture is ahead of every surface in its sides and snapshots, and of every one its operations can make, if and only if each generated id in a snapshot or an operation is outnumbered by an id that priming reads |
| `Twins.PrimedDraws` | tmh-next/internal/mock/backend.go:1149-1201 | which surface id the first split after a load draws, whatever snapshots and plans hold |
| `Backend.Backend.Load` | tmh-next/internal/mock/backend.go:37-52 | loading the scenario at hand keeps the live catalog; another one replaces everything, and the counters are exactly the primed ones |
| `Backend.Backend.Execute` | tmh-next/internal/mock/backend.go:111-138 | one revision check, transition and gate; a rejected action leaves the catalog alone |
| `Backend.Backend.Tick` | tmh-next/internal/mock/backend.go:141-185 | one revision check and scenario step |
| `Runs.AcceptedStep` | tmh-next/internal/mock/backend.go:240-887 | an accepted action moves revision and clock by one, only adds to events and history, and marks as applied no plan but the one it names; no action reports a revision conflict of its own; counters never go back |
| `Runs.StepClock` | tmh-next/internal/mock/backend.go:111-191 | what any call does to revision, clock, serial, events and history, and that a rejected call leaves the catalog identical |
| `Runs.RevisionContract` | tmh-next/internal/mock/backend.go:111-191 | over any run revision and clock advance by the accepted calls, the mutation serial by the accepted actions |
| `Runs.OnePerRevision` | tmh-next/internal/mock/backend.go:111-185 | however many callers race, at most one call is accepted for an expected revision |
| `Runs.AuditTrail` | tmh-next/internal/mock/backend.go:213-236 | over any run events and history are only appended to, with at least one new event for every accepted action |
| `Runs.StepSound` | tmh-next/internal/mock/backend.go:111-185 | every call keeps the catalog valid and the counters ahead; ticks and ungated actions are accepted exactly if the revision matches and the action itself does not fail |
| `Runs.RunSound` | tmh-next/internal/domain/validate.go:12-257 | every reachable catalog is valid and no terminal, history, event, snapshot or plan identifier still to come is taken |
| `Runs.UndoSafety` | tmh-next/internal/mock/backend.go:716-740 | whenever an undo succeeds the last accepted action was the application of that very plan, whatever ticks and rejected calls came in between |
| `Runs.NeverReissued` | tmh-next/internal/mock/backend.go:208-211 | no identifier is issued twice, in any run, however many calls fail |
| `Runs.LoadedSound` | tmh-next/internal/mock/backend.go:37-52 | a valid fixture without applied plans is a sound start for every statement about runs |
| `Surfaces.SetFieldTidy` | tmh-next/internal/mock/backend.go:991-1051 | writing a field keeps ids unique and makes no surface but the one a path of two parts names |
| `Surfaces.BuiltTidy` | tmh-next/internal/mock/backend.go:890-922 | a plan names no surface that is in none of the states it was built from |
| `Surfaces.ActionTidy` | tmh-next/internal/mock/backend.go:240-887 | whatever action is accepted, ids in all sides and snapshots stay unique, and every surface they hold or an operation can make was known or is the one a split drew |
| `Surfaces.StepTidy` | tmh-next/internal/mock/backend.go:111-185 | every call, accepted or not, keeps that and leaves the counters ahead of every surface |
| `Surfaces.RunTidy` | tmh-next/internal/mock/backend.go:111-185 | over any run ids stay unique in every side and snapshot, surfaces come only from the start or from draws of the run, and none still to come is there |
| `Surfaces.LoadedTidy` | tmh-next/internal/mock/backend.go:37-52 | from a fixture with unique ids that meets the condition of priming no run gives two surfaces of a state one id, and the next id drawn is held nowhere |
| `Twins.SplitTwice` | tmh-next/internal/mock/backend.go:292-332 | a split of a workspace without drift is accepted whatever id it draws, and ids stay unique if and only if that is new |
| `Twins.TwinsMade` | tmh-next/internal/mock/backend.go:640-723 | from a plan just built from a snapshot that only adds, the next surface id among it, a push, a freeze and a split are accepted and leave an observed state with that id twice |
| `Twins.FixtureTwins` | tmh-next/internal/mock/backend.go:1147-1201 | a valid fixture with unique ids from which three accepted calls do so; it fails the condition of priming |
| `UndoRuns.UndoRestores` | tmh-next/internal/mock/backend.go:687-766 | apply, any number of ticks, undo: the edited side has its fields back if and only if the selection was covered; the other side and the other workspaces are untouched |
| `UndoRuns.UndoAvailable` | tmh-next/internal/mock/backend.go:725-740 | undo is accepted if and only if every other applied plan has a smaller id and the undone workspace settles |
| `Replay.UndoneIs` | tmh-next/internal/mock/backend.go:687-766 | applying current operations and undoing them ends in exactly this state: the kept windows, then the removed ones made again in descending order of id, and in the last window the lost surfaces made again |
| `Replay.SurfacesForward` | tmh-next/internal/mock/backend.go:687-712 | the surface operations carry every window forward and put the additions, in order, into the last one |
| `Replay.WindowsBack` | tmh-next/internal/mock/backend.go:687-766 | window operations there and back keep the windows not removed, in place, and make the others again at the end |
| `Intact.UndoExactly` | tmh-next/internal/mock/backend.go:687-766 | undo gives back the very state, with order, index and split, if and only if the removed windows and the lost surfaces stood last just as undo makes them and no rewritten title has a separator |
| `Intact.OnlyEdits` | tmh-next/internal/mock/backend.go:991-1051 | operations that remove nothing are undone in every detail if and only if no title they rewrite has a separator |
| `Intact.ReopenedAt` | tmh-next/internal/mock/backend.go:991-1005 | position, index and layout of each window undo makes again |
| `Intact.RemadeAt` | tmh-next/internal/mock/backend.go:1007-1033 | position and content of each surface undo makes again |
| `Additions.AdditionsUndone` | tmh-next/internal/mock/backend.go:687-766 | operations that add what is absent, in any order, are taken back to the very state, order, index and split included |
| `Additions.EmptySide` | tmh-next/internal/mock/backend.go:1007-1036 | on a side without windows applying is never refused, and undo leaves it empty, except that the window made for a first surface stays, empty, if and only if no operation names it |
| `Additions.EmptyMerges` | tmh-next/internal/mock/backend.go:1007-1036 | applying on such a side leaves exactly the fields of the operations, if and only if no surface is added or that window is named too |
| `UndoRuns.UndriftedUndo` | tmh-next/internal/domain/validate.go:282-323 | where nothing had drifted before a covered push, the undone workspace settles if and only if it was settled and the push was intact |
| `UndoRuns.UndoSettles` | tmh-next/internal/domain/validate.go:282-323 | a settled workspace settles again after a covered undo of either mode if and only if it had drifted or the selection is intact |
| `UndoRuns.UndoWhen` | tmh-next/internal/mock/backend.go:725-766 | apply, ticks, undo: undo is accepted if and only if no other applied plan has a greater id and the workspace had drifted or the selection is intact; then the side is the old one in every detail if and only if it is intact |
| `UndoRuns.PaneReturnsLast` | tmh-next/internal/mock/backend.go:1007-1079 | a pane removed and restored comes last and without its split, with the same fields |
| `UndoRuns.UndoTurnedAway` | tmh-next/internal/mock/backend.go:925-939 | so the undo of that push on an undrifted workspace does not settle |
| `UndoRuns.ChosenFromPlan` | tmh-next/internal/mock/backend.go:660-686 | what a selection picks from a fresh plan is a selection of that mode's diff, all of it if nothing is deselected |
| `UndoRuns.FreshPlanCurrent` | tmh-next/internal/mock/backend.go:660-686 | whatever is selected from a fresh plan still matches the side it is applied to |
| `UndoRuns.TicksKeep` | tmh-next/internal/mock/backend.go:141-206 | ticks, accepted or not, leave workspaces, snapshots, plans and the serial alone |
| `UndoRuns.LatestSpec` | tmh-next/internal/mock/backend.go:725-735 | the plan undo looks at is the applied plan with the greatest id |
| `UndoRuns.LatestIs` | tmh-next/internal/mock/backend.go:725-735 | an applied plan is the one undo looks at if and only if every other applied plan has a smaller id |
| `Ids.IdsOrder` | tmh-next/internal/mock/backend.go:208-211 | exactly how any two generated ids sort: a shorter number against as many leading digits of the longer one |
| `Ids.FiveDigitsSortFirst` | tmh-next/internal/mock/backend.go:208-211 | so plan 10000 sorts before plan 9999 |
| `Lane.Root.RequestAction` | tmh-next/internal/app/update.go:412-428 | a user action is refused while the lane is busy, and else sent with the current revision |
| `Lane.Root.AcceptMutation` | tmh-next/internal/app/update.go:432-476 | a reply is taken only if it is the one awaited and chains on the revision; a pending tick goes next |
| `Lane.Root.RejectMutation` | tmh-next/internal/app/update.go:480-505 | a failure frees the lane, or reloads on a conflict |
| `Lane.Root.Handle` | tmh-next/internal/app/update.go:29-275 | one message: the fields and commands are those of the transition function |
| `Lane.UpdateAlive` | tmh-next/internal/app/update.go:121-168 | whatever message arrives, however malformed, the timer stays armed or a mutation in flight, a pending tick implies a busy lane, and only a free lane sends a client call |
| `Lane.UpdateTicking` | tmh-next/internal/app/update.go:121-168 | a pending tick implies an unarmed timer after any message, if and only if that was not a load that found a tick pending |
| `Lane.LoadBesideTick` | tmh-next/internal/app/update.go:121-168 | the exception is real: such a load arms the timer beside the pending tick |
| `Lane.NeverDies` | tmh-next/internal/app/update.go:121-168 | the tick loop survives every sequence of messages, loads included; without a further load a pending tick never stands beside an armed timer |
| `Lane.StaleTimer` | tmh-next/internal/app/update.go:153-164 | only the token armed last launches a tick, any other changes nothing |
| `Lane.LoadStartsTicking` | tmh-next/internal/app/update.go:52-77 | loading starts the loop |
| `LaneWorld.NextKeeps` | tmh-next/internal/app/update.go:412-523 | every move of shell, backend, user and timers keeps the invariant of lane and backend together |
| `LaneWorld.LaneSafety` | tmh-next/internal/app/update.go:412-523 | after any interleaving at most one mutation is outstanding, a free lane shows the backend's catalog, no reload is entered, every reply chains and is no conflict, and the ticks go on |
| `LaneWorld.RepliesFreeLane` | tmh-next/internal/app/update.go:432-476 | delivering a reply brings the shell level with the backend and frees the lane, for the user or the tick that waited |
| `LaneWorld.CommandReplies` | tmh-next/internal/mock/client.go:36-50 | running the command under way gives a reply the lane takes |
| `LaneWorld.ExecConflict` | tmh-next/internal/mock/backend.go:111-138 | an action with the current revision is never answered with a revision conflict |
| `Contention.SharedKeeps` | tmh-next/internal/app/update.go:412-523 | with any other clients changing the backend as well, every move keeps the shell coherent with it |
| `Contention.SharedSafety` | tmh-next/internal/app/update.go:412-523 | whatever others do at most one mutation of the shell is under way, and it shows a catalog the backend had, at the same revision the very same |
| `Contention.ConflictExactly` | tmh-next/internal/mock/backend.go:111-124 | a command is answered with a conflict if and only if the backend has moved on |
| `Contention.ConflictReloads` | tmh-next/internal/app/update.go:468-523 | a delivered conflict starts a reload, the catalog shown stays until then |
| `Contention.ReloadRecovers` | tmh-next/internal/app/update.go:121-138 | a delivered reload leaves the shell with the very catalog the backend had when it ran, the lane free or busy with the tick that waited, and the next command carries that revision |
| `Contention.ReloadEnds` | tmh-next/internal/app/update.go:121-153 | a failed reload keeps the catalog and frees the lane, one that is not awaited changes nothing |
| `Tmux.Server.LinkWindow` | internal/tmux/tmuxtest/mock_runner.go:591-664 | a link at a free index; a failed one changes nothing |
| `Tmux.Server.UnlinkWindow` | internal/tmux/tmuxtest/mock_runner.go:686-713 | a window's last link is never unlinked; success removes exactly that link |
| `Tmux.Server.KillWindow` | internal/tmux/tmuxtest/mock_runner.go:310-332 | removes the first link that id, name or index match, last or not |
| `Tmux.Server.KillSession` | internal/tmux/tmuxtest/mock_runner.go:194-213 | ends exactly the links of that session |
| `Tmux.Server.NewSession` | internal/tmux/tmuxtest/mock_runner.go:134-172 | a new session has one new window at index 1 |
| `Rows.Store.Upsert` | internal/state/active.go:58-92 | the row after an insert or update, and the arguments it refuses |
| `Rows.PromotedAgain` | internal/state/active.go:58-92 | promoting again tracks the row anew and clears a mark as an orphan, keeps the first promotion and server, and changes no other row |
| `Rows.Store.Touch` | internal/state/active.go:99-120 | a touch refreshes the row if and only if it is there and not selected later |
| `Rows.Store.MarkOrphaned` | internal/state/active.go:125-139 | the first mark keeps its time |
| `Rows.Store.DeleteStaleEpochs` | internal/state/active.go:194-210 | drops exactly the rows of the server's other epochs |
| `Rows.TouchesEnd` | internal/state/active.go:99-120 | any sequence of touches ends with the latest time seen, never an earlier one, and an expiry exactly ttl after it |
| `Rows.ExpiryKept` | internal/state/active.go:99-120 | no sequence of touches moves the expiry back if and only if the row expires no later than its last selection plus the ttl |
| `Rows.ExpiryGrows` | internal/state/active.go:99-120 | such a row stays such, and then no later touch moves the expiry back |
| `Rows.UpsertWithinTtl` | internal/state/active.go:58-92 | a row promoted under the same ttl is such a row |
| `Rows.LoweredTtl` | internal/state/active.go:99-120 | a row promoted for longer is not: a touch under a lowered ttl moves its expiry back |
| `Rows.TouchOrder` | internal/state/active.go:99-120 | touches in any order end in the same row |
| `Active.ForWindowSpec` | internal/actions/active.go:219-239 | the alias and the sources of a window are exactly its links in and outside the active session |
| `Active.SourceForSpec` | internal/actions/active.go:241-251 | the source found is the first of the window's, or of those in the session asked for; none is found if and only if there is none |
| `Active.ForWindowOrdered` | internal/actions/active.go:219-239 | the sources come by session and index |
| `Active.ClassifySpec` | internal/actions/active_classify.go:25-40 | what each outcome means: kept if and only if shown and unexpired, expired safely if and only if shown, expired and linked elsewhere, and so on |
| `Active.PrunedSpec` | internal/actions/active_sweep.go:53-118 | exactly what a prune leaves: of the epoch's rows those whose window is shown and unexpired, unchanged, or without a source, marked as orphans; of the links all but the aliases of windows shown, expired and linked elsewhere; other epochs unchanged |
| `Active.UnexpiredStays` | internal/actions/active_classify.go:32-33 | a tracked window that is shown and whose time is not up keeps alias and row unchanged |
| `Active.PruneFixpoint` | internal/actions/active_sweep.go:24-118 | pruning again at the same instant changes neither links nor rows |
| `Protocol.Serve` | internal/actions/active_safety.go:11-39 | no run of promote, touch, prune, remove and recover, with any interference and any failures, takes the last link of a window other than placeholders and windows named like a placeholder's id |
| `Protocol.UnlinkVerified` | internal/actions/active_safety.go:11-39 | an alias goes only where another link was seen, and the result is checked on fresh links |
| `Protocol.PromoteActiveWindow` | internal/actions/active_promote.go:22-131 | success leaves the window in an owned active session, at the least free index if new there, with its other links, a tracked row expiring at now plus ttl, the first source the target allows, no row of an older epoch and no leftover placeholder; every other link but those of placeholders shown nowhere else stays, and no link but the window's is new; failure leaves every pruned link but for placeholders and windows named like one's id, takes back only an alias that was not there before, and leaves the rows as they were or partly pruned, all pruned if an alias was taken back; where nothing fails of itself exactly what can be promoted is |
| `Protocol.FinishPromotion` | internal/actions/active_promote.go:58-67 | cleanup, then persist; if either fails a new alias is taken back where that is safe, and nothing else |
| `Protocol.Prepare` | internal/actions/active_promote.go:70-110 | a prepared target is a window with the first source its target allows, in an owned session, on fresh links; where nothing fails of itself exactly the targets that have one are prepared |
| `Protocol.TargetsOf` | internal/actions/active.go:107-122 | which session a promotion target names, and which targets are malformed |
| `Protocol.Rollback` | internal/actions/active_promote.go:133-174 | only a new alias is taken back, and a rollback that is refused or fails changes nothing |
| `Protocol.CleanupPlaceholders` | internal/actions/active_promote.go:176-217 | placeholders go while the session has other links, never the protected window; a cleanup that fails has taken away nothing but placeholders and a window named like the id of one |
| `Protocol.NextFreeIndex` | internal/actions/active.go:268-280 | the search ends at the least free index at or above the base |
| `Protocol.LinkWithRetry` | internal/actions/active.go:299-327 | success means the window is linked to the destination, at the least free index where nobody interfered |
| `Protocol.EnsureLinked` | internal/actions/active.go:282-297 | links only what is not linked yet, and says so |
| `Protocol.EnsureOwned` | internal/actions/active.go:160-183 | success means the session is there and owned; a session that was there stays as it was |
| `Protocol.ReconcileEpoch` | internal/actions/active.go:196-209 | success drops exactly the rows of the server's other epochs |
| `Protocol.ClassifyRows` | internal/actions/active_classify.go:25-48 | every row is classified: kept if and only if shown and unexpired, expired safely if and only if shown, expired and linked elsewhere, stale or gone if and only if not shown |
| `Protocol.Prune` | internal/actions/active_sweep.go:24-118 | success leaves exactly the pruned links and rows, and the report counts what was removed and unlinked; failure leaves some of that undone and nothing else; where nothing fails of itself it succeeds if and only if the setting is sensible and the session not another's |
| `Protocol.RemoveActiveWindow` | internal/actions/active_remove.go:12-46 | success leaves the window its other links and no alias or row; where nothing fails of itself it is removed if and only if it has another link |
| `Protocol.RecoverActiveWindow` | internal/actions/active_recover.go:13-89 | success links the orphan to the destination, at the least free index if it was not there, removes alias and row and changes no other link; where nothing fails of itself exactly the orphans still there are recovered to sessions that exist |
| `Protocol.Destinations` | internal/actions/active.go:124-132 | where an orphan may go: any session but the active one, under a name fit for a target |
| `Protocol.TouchActiveWindow` | internal/actions/active_touch.go:14-68 | a touched row was tracked, unexpired and shown, and lives ttl longer; otherwise the table is only pruned, and a readable row was gone, orphaned, expired or selected later |
| `Protocol.FindRow` | internal/actions/active_touch.go:70-86 | the row of that window in that epoch, or none |
| `Protocol.CleanupAliases` | internal/actions/navigation_safety.go:23-116 | exactly the windows that the session shows lose their alias, whether they have another source or not, in any order of windows; none loses its last source |
| `Protocol.KillSession` | internal/actions/kill.go:43-51 | after killing another session no window is left to the active session alone that was not before; where nothing fails of itself every session there is killed unless the active one is another's |
| `Protocol.KillMisses` | internal/tmux/tmuxtest/mock_runner.go:310-332 | a kill by id spares that window if and only if the session shows an earlier window named like the id |
| `Protocol.NameClash` | internal/actions/active_promote.go:176-217 | the exception is real: after a promotion, with the guards of the cleanup met, clearing placeholder `@1` ends a window that is named `@1` |
| `Yaml.SetGet` | internal/config/path.go:63-128 | reading after a successful write gives what was written |
| `Yaml.SetOther` | internal/config/path.go:84-128 | a path neither before nor beyond the target reads as before |
| `Yaml.SetKeys` | internal/config/path.go:84-128 | keys along the way keep their order, at most the missing one is added, last |
| `Yaml.SetFails` | internal/config/path.go:84-128 | a write fails if and only if something other than a mapping is in the way |
| `Yaml.SetUnique` | internal/config/path.go:84-128 | keys stay unique |
| `YamlEdit.File.PathSet` | internal/config/path.go:84-128 | the cursor walk reaches what the write at a path comes to; it fails if and only if it is blocked, and then the document is unchanged: no failure follows a creation |
| `YamlEdit.CreatedOnTheWay` | internal/config/path.go:84-128 | creating a missing mapping on the way does not change what the write comes to |
| `YamlEdit.File.PathGet` | internal/config/path.go:27-80 | the walk reads the node at the path and changes nothing but an empty document, which gets an empty mapping |
| `YamlEdit.File.PathDelete` | internal/config/path.go:156-182 | the walk cuts out the pair at the path, or fails and changes nothing but an empty document |
| `YamlEdit.File.PathRename` | internal/config/path.go:186-213 | the walk renames the key in place, or fails and changes nothing but an empty document |
| `Yaml.DeleteGet` | internal/config/path.go:156-182 | deleting fails if and only if nothing is there; what was there is gone and keys stay unique |
| `Yaml.DeleteOther` | internal/config/path.go:156-182 | paths apart from the deleted one read as before |
| `Yaml.DeleteKeys` | internal/config/path.go:156-182 | exactly one pair leaves its mapping, the others keep their order |
| `Yaml.RenameGet` | internal/config/path.go:186-213 | when a rename fails; otherwise all below reads the same under the new key, which keeps its place, and nothing else changes |
| `Roots.LcpSegments` | internal/actions/sync.go:342-355 | the loop finds the common beginning of two paths |
| `Roots.CommonOfPrefix` | internal/actions/sync.go:280-329 | the common beginning is one of every path |
| `Roots.CommonOfGreatest` | internal/actions/sync.go:280-329 | and no longer one is |
| `Roots.CollectRoots` | internal/actions/sync.go:280-329 | every path adds the common beginning plus one element; no name ever needs a number |
| `Roots.InferRoots` | internal/actions/sync.go:280-329 | the inferred roots are exactly these |
| `Roots.MatchRoot` | internal/actions/sync.go:359-378 | the root with the longest base that covers the directory at an element boundary, and the way from there |
| `Roots.MatchExact` | internal/actions/sync.go:359-378 | what an imported directory is matched to leads back to exactly that directory |
| `Import.PlacedAdds` | internal/actions/sync.go:156-200 | writing root and path below a new window adds one node with just these two |
| `Import.WindowAdded` | internal/actions/sync.go:156-200 | adding a window's node is importing one more window of the last session |
| `Import.WriteWindow` | internal/actions/sync.go:156-200 | one window is written below a matching root or by its directory |
| `Import.WriteRoots` | internal/actions/sync.go:156-200 | the roots are written in whatever order they come |
| `Import.Bootstrap` | internal/actions/sync.go:156-200 | the document of an importable live tree holds exactly its windows with a directory |
| `Import.DotsMatter` | internal/actions/sync.go:156-200 | the dotted path of a window reaches it if and only if both names are free of dots |
| `Resolver.JoinBack` | internal/config/resolver.go:255-263 | a clean base and the clean rest join to the clean path |
| `Resolver.CleanShape` | internal/config/resolver.go:255-263 | a clean absolute path is the root or a list of proper elements |
| `Resolver.ValidResolves` | internal/config/validate.go:27-137 | a configuration that validates resolves if and only if the panes windows take over from templates are absolute or name declared roots |
| `Resolved.ResolveMeans` | internal/config/resolver.go:55-253 | what resolving gives: every session once by name, its windows as declared, of each window and pane every field, its own before its template's, and its directory by root, path and enclosing directory |
| `Resolved.OwnDirWins` | internal/config/resolver.go:166-202 | an absolute directory of its own is where a window is, whatever its template says |
| `Resolved.TemplateDirWins` | internal/config/resolver.go:166-202 | an absolute directory of the template wins over a root of the window's own |
| `Resolved.BarePane` | internal/config/resolver.go:220-240 | a pane without directory and root is where its window is |
| `Resolved.ResolvesExactly` | internal/config/resolver.go:55-263 | any configuration resolves if and only if templates are there and plain, and windows and panes are absolute or name declared roots |
| `Violations.Validate` | internal/config/validate.go:27-137 | the loops find exactly the rules that are broken, and where |
| `Violations.ValidMeans` | internal/config/validate.go:27-137 | a configuration is valid if and only if it breaks none of the rules |
| `Sorting.SortedNames` | internal/config/resolver.go:333-345 | the in-place insertion sort of the keys gives the one sorted list of them |
| `Sorting.SortStrings` | tmh-next/internal/mock/backend.go:1139-1145 | sorted, and a permutation |
| `Sorting.SortedUnique` | internal/config/resolver.go:333-345 | two strictly sorted lists of the same names are equal, so the order of map iteration does not matter |
| `Diff.Compare` | internal/config/diff.go:74-202 | the comparison by index maps is the comparison session by session and window by window |
| `Report.CompareMeans` | internal/config/diff.go:74-190 | exactly what is reported: a configured window is gone if and only if nothing of its name is live, drifted if and only if both directories or both commands are known and differ, else ok; a live window of a configured session is new if and only if it is not configured |
| `Report.ReportOrder` | internal/config/diff.go:93-190 | session by session, configured windows in order, then the new ones |
| `Diff.ImportLoads` | internal/config/types.go:234-275 | the imported document reads back as a configuration that reflects the live tree |
| `Loaded.LoadReads` | internal/config/types.go:234-275 | a document that loads is read as it stands: roots and sessions by their keys, windows in document order, every field from its own key |
| `Diff.SessionClean` | internal/config/diff.go:74-202 | a session that shows its live windows has no drift, and every window in place |
| `Diff.ImportClean` | internal/config/diff.go:74-202 | import, read back, resolve, compare: nothing to act on, and every window with a directory resolves to exactly it |
| `Diff.ImportAndCompare` | internal/actions/sync.go:156-200 | the same for the methods, end to end |
| `Sync.TargetReaches` | internal/tmux/tmuxtest/mock_helpers.go:57-88 | a window's own target leads to its session if and only if the name is non-empty and without a colon |
| `Sync.Multiplexer.NewSession` | internal/tmux/tmuxtest/mock_runner.go:134-172 | a new session has one window at index 1; without a server or with the name taken nothing changes |
| `Sync.Multiplexer.ListWindows` | internal/tmux/tmuxtest/mock_runner.go:240-253 | the windows of the session, or of all sessions for the empty name |
| `Sync.Multiplexer.NewWindow` | internal/tmux/tmuxtest/mock_runner.go:270-308 | a new window takes the index after the greatest |
| `Sync.Multiplexer.SplitWindow` | internal/tmux/tmuxtest/mock_runner.go:404-423 | one more pane in the window found, in the directory given or the first pane's |
| `Sync.ApplyWindowLayout` | internal/actions/create.go:80-150 | a window just created is laid out with all its panes, and fails, changing nothing, if and only if the layout is unknown |
| `Sync.CreateSession` | internal/actions/create.go:15-76 | success, if and only if server, name and layouts allow it, leaves the session as configured; nothing else changes |
| `Sync.PushSession` | internal/actions/sync.go:42-88 | one session: what is missing is created and reported, or only reported |
| `Sync.Push` | internal/actions/sync.go:35-89 | the dry run lists exactly what the real run creates; the real run succeeds if and only if everything missing can be created, and even a failing one leaves all that was there |
| `Created.SessionAsConfigured` | internal/actions/create.go:15-150 | after a push every configured session has its old windows and then the missing ones in order, each with name, directory, number of panes and layout as configured, numbered on |
| `Sync.PushTwice` | internal/actions/sync.go:35-89 | a second push creates nothing |
| `Sync.PushedDrift` | internal/config/diff.go:93-190 | after a push a created window is in place, one that was there compares as before |
| `Sync.PushLeavesNoGone` | internal/config/diff.go:93-190 | after a push no entry is gone, and every entry not in place was reported before or is the window of a session configured without any |
| `Sync.ResolvedPlain` | internal/config/resolver.go:55-99 | resolved sessions have distinct names, fit for targets if and only if none is empty or has a colon |

## Left out

- Message texts, notifications, search, deterministic echo wording and the decoding of configuration drafts: a draft is a parameter, absent if malformed.
- The demo fixtures: every statement starts from any valid catalog, or from any catalog a load is given.
- Integer width: revisions, serials, counters and times are unbounded; times are whole seconds.
- Runs.LoadedSound: needs a fixture without applied plans; with one, an undo could succeed that no run has prepared.
- Undo.UndoInvertsApply: for a side with at least one window, like every statement of `Undo`, `Converge`, `Replay` and `Intact` about whole plans; a side without windows is told by Additions.EmptyMerges and Additions.EmptySide.
- UndoRuns.UndoRestores: claims fields; split, index and order of surfaces are told by UndoRuns.UndoWhen.
- UndoRuns.UndoSettles: for covered selections; after one that is not covered UndoRuns.UndoAvailable still says when undo is accepted, by the state the replay leaves.
- Converge.ApplyAnyOrder: for operations that remove no window; with removals the order of the plan matters.
- CatalogCheck.ValidateCatalog: says whether a catalog is valid; which of several violations is reported first is not modelled.
- The stable library sort of restore operations is an insertion function; the in-place sort of names is modelled as such.
- The production client, its watch stream and interactive commands: the lane is composed with the demo backend only, alone and together with any other clients of it.
- Screens, overlays, routes and toasts of the root shell, which do not touch the lane.
- Tmux.Server.LinkWindow: names belong to the window here, not to each of its links, and no window is renamed.
- Tmux.Server.KillSession: which other effects the end of a session has on attached clients is not modelled.
- Protocol.PromoteActiveWindow: what it achieves, and what a failure leaves, is stated for a server and a store where nobody else acts; base index and ttl are taken as already parsed. That what can be promoted is promoted needs besides that nothing fails of itself, that no window carries a name like a window id, and that no row is without one. Likewise for the other commands.
- Protocol.KillSession: what is left after it is stated for a server where nobody else acts. The windows the kill itself ends are meant to end and are not logged, so with interference its claim on the log is about the cleanup of aliases only.
- Faults of commands happen before their effect, never after it.
- A server restart during a command, and a store that is absent.
- Rows.Store.Touch: the table is a map from epoch and window; SQL statements and transactions are one step each.
- Managed window and pane kills, batch kills and the navigation that leads to them.
- YamlEdit.File.PathSet: the document is one value that the walk replaces as it goes, not nodes shared by reference; aliases, comments and styles are not modelled.
- Diff.ImportLoads: reads roots and sessions; the sections an import never writes are as when they are absent, and a document that repeats a key does not load here, where the decoder of windows would take the last value for each.
- Resolved.ResolveMeans: environment, hooks, profiles, groups, focus and all session defaults are left out, and of the global defaults all but the layout.
- Diff.ImportClean: the report lists of an import are modelled as far as they are returned, without their wording.
- Sync.Push: what a real run reaches is stated for session names that are not empty and have no colon: the targets of the others lead elsewhere or nowhere, and for the empty name the server lists the windows of all sessions. Environment, focus, automatic renaming and pane commands sent as keys are left out; window ids are not matched in targets; the filter of the owned active session is left out.
- Sync.PushLeavesNoGone: needs such session names, and window names that stand for one window each, which may be configured twice.
- Pull, which writes drift back into the document.
- The tmux and Zellij command lines, the database, the daemon, file watching and hook execution.
