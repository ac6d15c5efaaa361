# Finite-state machine with undo/redo history

A Dafny model of the `FSM` class of `src/fsm.js`. The machine is built from a
configuration: an `initial` state id and `states`, which maps each state id to
its `transitions` (event id to target state id). It keeps a runtime record
`{post, present, future}`. `present` is the active state. `post` and `future`
are stacks, most recent entry last, used by `undo` and `redo`.

Layout:

- `wrappers.dfy` (`Wrappers`): `Option`, `Result` and `Outcome`. These replace
  `undefined` arguments and thrown errors.
- `config.dfy` (`FsmConfig`): the configuration value. `Config.order` is the key
  order `Object.keys(config.states)` yields. `Config.Wf` says that this list
  names every key of `states` exactly once, as the key list of a JavaScript
  object always does. It also holds `StatesWith`, the `filter` behind
  `getStates(event)`, and the subsequence relation.
- `history.dfy` (`FsmHistory`): the runtime record as a value
  (`RuntimeState`). It has one function per mutator giving the record that
  mutator leaves behind, and the laws relating them. The central notion is the
  *timeline* `post + [present] + reverse(future)`. `undo` and `redo` never
  change it; they only move `present` along it. A record is determined by its
  timeline and the height of `post`. The inverse laws and the undo round trip
  follow from these two facts.
- `fsm.dfy` (`Fsm`): class `FSM`. `config` is a `const` field. `present`, `post`
  and `future` are fields that the mutators reassign in place. Each mutator
  states its new fields explicitly and equates the new record with the
  corresponding function of `FsmHistory`. `Valid()` is the object invariant: the
  configuration is well formed, and every state in the record is declared or is
  `initial`. It also has a concrete idle/running scenario.

Errors are the constructors of `FsmHistory.FsmError`: `ConfigMissing`,
`StateDoesNotExist` and `EventDoesNotExist`. They stand for the three `Error`s
the source throws. A failing `changeState` or `trigger` returns `Fail(...)`
and leaves all three fields unchanged.

Two behaviours of the source shape the model:

- The source never checks that `initial` is a declared state, neither at
  construction nor on `reset`. So the object invariant is "every state in the
  record is declared or is `initial`", not "every state is declared".
- `trigger` from an undeclared `present` makes the source crash with a
  `TypeError` when it looks up `config.states[present].transitions`. The model
  returns `EventDoesNotExist` instead. Like the crash, this changes nothing.

## Model

| member | source | states |
|---|---|---|
| `Fsm.FSM.Create` | src/fsm.js:6-13 | a missing configuration gives `Failure(ConfigMissing)`; a present one always gives `Success` with a fresh, valid machine holding that configuration at `initial` with both stacks empty |
| `Fsm.FSM.constructor` | src/fsm.js:8-13 | the machine holds the configuration, `present == initial`, `post == future == []`, and the object invariant holds |
| `Fsm.FSM.GetState` | src/fsm.js:21-23 | the active state of the runtime record, read without any side effect |
| `Fsm.FSM.ChangeState` | src/fsm.js:29-35 | succeeds iff the target is declared; on success `post` gains the old `present`, `present` is the target and `future` is empty; on failure `StateDoesNotExist` and all fields unchanged; the result agrees with `ChangeStateStep` |
| `Fsm.FSM.Trigger` | src/fsm.js:42-46 | with no transition for the event out of `present`: `EventDoesNotExist`, nothing changed; otherwise exactly the effect and outcome of `changeState` on the transition's target (an undeclared target gives `StateDoesNotExist`) |
| `Fsm.FSM.Reset` | src/fsm.js:52-54 | `present` becomes `initial`; `post` and `future` are kept |
| `Fsm.FSM.GetStates` | src/fsm.js:62-69 | with no event, all declared ids in declaration order; with an event, exactly the declared ids whose transitions contain it, as a subsequence of declaration order without repeats |
| `Fsm.FSM.Undo` | src/fsm.js:76-84 | false with nothing changed iff `post` is empty; otherwise true, `future` gains the old `present`, and the top of `post` is popped into `present` |
| `Fsm.FSM.Redo` | src/fsm.js:91-99 | false with nothing changed iff `future` is empty; otherwise true, `post` gains the old `present`, and the top of `future` is popped into `present` |
| `Fsm.FSM.ClearHistory` | src/fsm.js:104-107 | both stacks become empty and `present` is kept |
| `Fsm.IdleRunningStates` | src/fsm.js:62-69 | on the idle/running configuration, `getStates()` is `["idle", "running"]`, `getStates("start")` is `["idle"]`, `getStates("stop")` is `["running"]`, `getStates("nope")` is `[]` |
| `FsmConfig.StatesWith` | src/fsm.js:66-68 | the filter keeps exactly the ids that have a transition on the event, keeps their relative order (a subsequence), and keeps them free of repeats |
| `FsmHistory.TimelineDetermines` | src/fsm.js:76-99 | two records with the same timeline and the same `post` height are equal |
| `FsmHistory.UndoKeepsTimeline` | src/fsm.js:76-84 | undo succeeds iff `post` is non-empty; when it does, the timeline is unchanged, `post` is one shorter and `|post| + |future|` is preserved |
| `FsmHistory.RedoKeepsTimeline` | src/fsm.js:91-99 | redo succeeds iff `future` is non-empty; when it does, the timeline is unchanged, `post` is one longer and `|post| + |future|` is preserved |
| `FsmHistory.UndoThenRedo` | src/fsm.js:76-99 | a successful undo followed at once by redo restores `(present, post, future)` |
| `FsmHistory.RedoThenUndo` | src/fsm.js:76-99 | a successful redo followed at once by undo restores `(present, post, future)` |
| `FsmHistory.ChangeStateTruncates` | src/fsm.js:29-35 | changeState succeeds iff the target is declared, else `StateDoesNotExist`; on success the timeline is the old one cut after `present` plus the target, redo fails, and undo returns to the old `present` and `post` |
| `FsmHistory.ChangeStatesTimeline` | src/fsm.js:29-35 | a run of changeState calls to declared targets all succeed; they leave the old `post`, the old `present` and the targets as the timeline, with nothing to redo |
| `FsmHistory.UndosKeepTimeline` | src/fsm.js:76-84 | `n` undos all succeed while `post` holds at least `n` states; they keep the timeline and lower `post` by `n` |
| `FsmHistory.ChangeStatesThenUndos` | src/fsm.js:29-84 | undoing as many times as there were successful forward moves restores the old `present` and `post`, with the targets on the redo stack in reverse |
| `FsmHistory.FreshRoundTrip` | src/fsm.js:6-84 | from a new machine, after any number of forward moves (zero included), as many undos all succeed and return to `initial`, and the next undo fails |
| `FsmHistory.ClearHistoryEmpties` | src/fsm.js:104-107 | after clearHistory, `present` is kept and both undo and redo report nothing to do |
| `FsmHistory.ResetKeepsHistory` | src/fsm.js:52-54 | reset keeps both stacks, so an undo after a reset returns to the state on top of `post` from before it |
| `FsmHistory.ChangeStateKeepsKnown` | src/fsm.js:29-35 | a successful changeState keeps each state in the record declared or equal to `initial` |
| `FsmHistory.TriggerKeepsKnown` | src/fsm.js:42-46 | a successful trigger keeps each state in the record declared or equal to `initial` |
| `FsmHistory.ResetAndClearKeepKnown` | src/fsm.js:52-54 | reset and clearHistory keep each state in the record declared or equal to `initial` |
| `FsmHistory.UndoKeepsKnown` | src/fsm.js:76-84 | a successful undo keeps each state in the record declared or equal to `initial` |
| `FsmHistory.RedoKeepsKnown` | src/fsm.js:91-99 | a successful redo keeps each state in the record declared or equal to `initial` |

`Fsm.IdleRunningScenario` and `Fsm.IdleRunningFailures` drive the idle/running
machine through triggers, undo and redo, and through a failing trigger and a
failing changeState. Each outcome there follows from the method contracts alone.

## Left out

- JavaScript truthiness: the source tests `config.states[state]`, `transitions[event]` and `!event` by truthiness. The model tests key membership, and an absent `getStates` argument is `None`. An empty-string event or target, and an inherited key such as `toString`, are not modelled.
- The `TypeError` of `trigger` from an undeclared `present` is modelled as `EventDoesNotExist`. The crash is not modelled.
- A state entry without a `transitions` object, which makes the source crash, cannot be expressed: every `StateDef` has a transitions map.
- Error message texts: the three failure kinds are datatype constructors.
- Aliasing of the configuration: the source stores the caller's object, so the caller could still mutate it. The model holds the configuration as an immutable value.
- `Object.keys` places integer-like keys first, in ascending order. The model takes `Config.order` to be the key order as given.
- `module.exports` and the `.bind(this)` closure in `getStates` are module plumbing with no behaviour of their own.
