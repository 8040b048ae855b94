# Typist engine model

This project models `TypistCore` (`src/typistCore.ts`), the typewriter
animation engine. The engine takes an ordered list of instructions
(`TYPE_STRING`, `TYPE_ELEMENT`, `BACKSPACE`, `PAUSE`, `PASTE`) and runs
them one after another against a private buffer of typed lines. A line is a
string, an opaque element or `null`. Every change to the buffer is handed to
the component's state setter as a whole snapshot through one update path.
A run is one pass over the instructions, or repeated passes when `loop` is
set. Each completed pass calls `onTypingDone`. A cancelled wait, or a state
setter that throws after `discard`, ends the run.

The project has four modules:

- `TypistTypes` (`typist_types.dfy`) holds the values: `Line`
  (`Str`/`Node`/`Null`), `TypedLines`, `Splitter`, `Action`, and the
  `join('')` / `slice(0, -1)` helpers.
- `TypistTrace` (`typist_trace.dfy`) holds observable traces. A trace is a
  sequence of `Wait(delay)` and `Emit(snapshot)` events. `Play` runs a trace
  against the observable state: the stored buffer, the log of emitted
  snapshots and the log of waits started. It stops at the first cancelled
  wait. It also stops at the first emission made after discard; that
  emission still stores the buffer before the setter throws.
- `TypistActions` (`typist_actions.dfy`) gives, for each instruction, the
  trace it performs when nothing interrupts it. It also gives `PlayPasses`,
  the run of up to `n` passes, and the lemmas that say what these traces
  mean.
- `TypistEngine` (`typist_core.dfy`) is the class
  `TypistCore`. Its fields are the engine's state: the buffer, the timer
  slot as `timerPending`, the replaced setter as `discarded`, and the
  configuration. Three log fields record what the outside world sees:
  `emissions`, `waits` and `onDoneCount`. Its methods are the executors,
  with the source's loops and loop invariants. Each executor is proved to
  leave exactly the state that `Play` gives for its instruction's trace.
  The trace lemmas therefore apply to the imperative code.

A wait (`#timeoutPromise`) is an abstract step. The oracle `cancel: nat ->
bool` decides whether it is cancelled, and is consulted with the number of
waits started before it. Calling the cancel function (from `discard`, or
from a new `startTyping`) appears in the model as the oracle answering
`true` for the pending wait.

Two points where the model follows the code:

- The timer slot is set when a wait starts. The comment at
  `src/typistCore.ts:20-22` says `null` means no animation is running, and
  the code matches that comment rather than one wait: it does not clear the
  slot when a wait resolves, only after a completed pass
  (`src/typistCore.ts:63`) and in the `catch` (`src/typistCore.ts:66`).
  So `timerPending` stays set after a wait resolves, and is reset when a
  pass completes or the run ends.
- In `#backspace`, a buffer of `null` lines is handled in one step. The
  step waits, re-nulls the line at index 0 (`typeof null === 'object'`),
  emits an unchanged snapshot, and drops the rest of the count. An empty
  buffer is handled differently. The located line is `undefined`, so no
  branch fires and the count is not dropped. Every remaining step waits and
  emits `[]`.

## Model

| member | source | states |
|---|---|---|
| TypistTypes.DropLast | src/typistCore.ts:147 | `slice(0, -1)` keeps every unit but the last (the units are that prefix plus the last unit) and leaves an empty list empty |
| TypistTypes.Join | src/typistCore.ts:119 | `join('')`: the units concatenated in order (definition; its properties are in `JoinEmpty` and the typing lemmas) |
| TypistTypes.JoinEmpty | src/typistCore.ts:148 | a join is `''` exactly when every unit is `''` (both directions) |
| TypistTrace.Step | src/typistCore.ts:88-111 | one event against a running state: a wait is logged and is cancelled when the oracle says so for its index; an emission stores the buffer, then is logged, or throws once the engine is discarded (definition) |
| TypistTrace.Play | src/typistCore.ts:54-67 | a trace played event by event until it ends or the run is cancelled or throws, the point where the `catch` at :65-66 takes over (definition) |
| TypistTrace.PlayAppend | src/typistCore.ts:54-61 | running two instruction traces one after the other is running their concatenation, including when the first is interrupted |
| TypistTrace.PlayComplete | src/typistCore.ts:54-61 | a trace that runs to its end leaves exactly its final buffer, has started exactly its waits and has emitted exactly its snapshots |
| TypistTrace.PlayPrefix | src/typistCore.ts:48-67 | whatever interrupts a trace, the emitted snapshots are a prefix of the trace's snapshots and the started waits a prefix of its waits, in order and bounded by them; after discard nothing is emitted |
| TypistTrace.PlaySingleWriter | src/typistCore.ts:108-111 | while the engine is alive, a buffer equal to the last emitted snapshot stays equal to it after any trace, finished or cancelled |
| TypistTrace.TraceAppend | src/typistCore.ts:54-61 | the waits, the snapshots and the final buffer of a concatenation are those of its two parts, in order |
| TypistActions.Locate | src/typistCore.ts:136-141 | the backward scan returns -1 exactly for an empty buffer, never goes below index 0, passes only `null` lines, and stops on a non-`null` line unless it reached index 0 |
| TypistActions.LocateUnique | src/typistCore.ts:136-141 | the scan's four properties determine its result, so any index that has them is the one the scan returns |
| TypistActions.ExhaustedMeansAllNull | src/typistCore.ts:138-143 | the scan ends on a `null` line exactly when it reached index 0 and that line is `null`, and exactly when the buffer is non-empty and every line is `null` (both directions) |
| TypistActions.Exhausted | src/typistCore.ts:138-143 | the scan stopped on a `null` line, the condition under which `amount` is set to 0 (definition; characterised by `ExhaustedMeansAllNull`) |
| TypistActions.Erase | src/typistCore.ts:146-148 | a string line without its last splitter unit, `null` when that leaves `''`: never the empty string and never an element |
| TypistActions.Backspaced | src/typistCore.ts:135-149 | one backspace step keeps the buffer length and every line except the located one; the located element or `null` becomes `null`, a located string loses its last splitter unit and becomes `null` when nothing is left |
| TypistActions.BackspaceEvents | src/typistCore.ts:131-154 | the trace of `BACKSPACE(amount)`: while the count is positive, a wait of the backspace delay and a snapshot of one step; the count drops by one, or to -1 after a step whose scan found only `null` lines (definition) |
| TypistActions.StringSteps | src/typistCore.ts:117-123 | the trace of the typing loop from unit k on: a wait of the typing delay, then the earlier lines plus the join of the first k units (definition) |
| TypistActions.TypeStringEvents | src/typistCore.ts:113-124 | the trace of `TYPE_STRING`: one emission with `''` appended, then the typing loop from unit 1 (definition) |
| TypistActions.ActionEvents | src/typistCore.ts:55-60 | the trace of one instruction, by kind (definition) |
| TypistActions.ActionsEvents | src/typistCore.ts:54-61 | the traces of the instructions in order, each from the buffer the one before left (definition) |
| TypistActions.PlayPasses | src/typistCore.ts:51-67 | up to n passes of one trace, each completed pass counted as one `onTypingDone` call, any other pass ending the run (definition; the fuel n stands for the `do…while`) |
| TypistActions.PassEvents | src/typistCore.ts:53 | every pass's trace starts by emitting the empty buffer |
| TypistActions.StringStep | src/typistCore.ts:117-123 | one unit typed against a running state either ends with the wait cancelled, or stores the grown line and throws after discard, or emits the grown line and continues with the next unit |
| TypistActions.BackspaceStep | src/typistCore.ts:132-152 | one backspace step against a running state either ends with the wait cancelled, or stores the step's buffer and throws after discard, or emits it and continues with the count minus one (or -1 when the scan found only `null` lines) |
| TypistActions.StringStepsHead | src/typistCore.ts:117-123 | typing unit k adds one wait of the typing delay and one snapshot to the waits and snapshots of the remaining units |
| TypistActions.StringStepsWaits | src/typistCore.ts:117-118 | typing units k..n starts n+1-k waits, all of the typing delay |
| TypistActions.StringStepsEmits | src/typistCore.ts:117-122 | typing units k..n emits n+1-k snapshots; snapshot j holds the earlier lines unchanged plus the join of the first k+j units |
| TypistActions.StringStepsFinal | src/typistCore.ts:117-122 | typing units k..n (k ≤ n) leaves the earlier lines plus the join of all units |
| TypistActions.StringStepsTrace | src/typistCore.ts:117-123 | the waits, snapshots and final buffer of typing units k..n, together |
| TypistActions.TypeStringTrace | src/typistCore.ts:113-124 | `TYPE_STRING` over n units starts n waits of the typing delay and emits n+1 snapshots; snapshot k is the earlier lines unchanged plus the join of the first k units (`''` first); it ends with the buffer one line longer, that line being `splitter(text).join('')` |
| TypistActions.WaitEmitTrace | src/typistCore.ts:127-128 | a wait followed by an emission has exactly that one wait, that one snapshot, and that snapshot as its final buffer |
| TypistActions.BackspaceTrace | src/typistCore.ts:131-154 | `BACKSPACE(amount)` starts at most `amount` waits of the backspace delay, each followed by exactly one snapshot; every snapshot keeps the number of lines; on an empty buffer the whole count is spent; on an all-`null` buffer exactly one unchanged snapshot is emitted |
| TypistActions.BackspaceStops | src/typistCore.ts:132-152 | `BACKSPACE(amount)` stops early only right after a step whose scan found only `null` lines: no earlier step starts from such a buffer, and a run of fewer than `amount` steps has at least one step and its last one started from such a buffer |
| TypistActions.BackspaceHead | src/typistCore.ts:132-152 | the waits and snapshots of `BACKSPACE(amount)` are one step's wait and buffer followed by those of the rest of the count, and only that step's snapshot when its scan found only `null` lines |
| TypistActions.BackspaceSteps | src/typistCore.ts:131-154 | the snapshots of `BACKSPACE` are successive backspace steps: the first is a step of the starting buffer, each later one a step of the snapshot before it |
| TypistActions.BackspaceFinalStep | src/typistCore.ts:132-152 | a completed backspace run ends where the rest of the count, started from one step's buffer, ends |
| TypistActions.EraseLastUnit | src/typistCore.ts:145-148 | on a line holding the first k units of a string, a backspace step removes the last unit, or leaves `null` when k is 1, and never finds the buffer exhausted |
| TypistActions.EraseTypedPrefix | src/typistCore.ts:131-154 | backspacing k times a line that holds the first k units of a string leaves `null` in its place and the earlier lines untouched |
| TypistActions.ActionsPair | src/typistCore.ts:54-61 | two instructions run one after the other, the second on the buffer the first left |
| TypistActions.BackspaceUndoesTypeString | src/typistCore.ts:113-154 | typing a string and then backspacing as many times as it has units leaves `null` in its place, when the splitter splits every typed prefix back into its units and no unit is empty |
| TypistActions.ActionTrace | src/typistCore.ts:55-60 | per instruction: `TYPE_STRING` waits once per unit, emits one more time than that, and appends the joined text; `TYPE_ELEMENT` waits once, then emits the buffer with the whole element appended as the only snapshot; `BACKSPACE` keeps the length and does at most `amount` waits and snapshots; `PAUSE` only waits; `PASTE` appends its payload in one snapshot with no wait |
| TypistActions.ActionsUnfold | src/typistCore.ts:54-61 | the instructions from index i on are instruction i followed by the rest on the buffer it left |
| TypistActions.PassStep | src/typistCore.ts:54-61 | running instruction i and then the remaining instructions from the state it leaves is running the instructions from i on |
| TypistActions.PassesStopped | src/typistCore.ts:64-67 | a run that was interrupted or has no passes left does nothing more and counts no pass |
| TypistActions.PassesUnfold | src/typistCore.ts:51-64 | after one pass, an interrupted pass ends the run with the same result, and a completed pass counts one and leaves the other passes to run |
| TypistActions.PassesOutcome | src/typistCore.ts:48-67 | `onTypingDone` is called once per completed pass and never after an interrupted one, so the run completes exactly when it is called n times; snapshots are only appended; a discarded engine emits nothing, completes no pass and is left with an empty buffer; a live engine ends with its buffer equal to the last emitted snapshot |
| TypistActions.PassesFinal | src/typistCore.ts:51-64 | a run whose passes all completed ends with the buffer the instructions build from `[]`, whatever the buffer was before |
| TypistEngine.TypistCore.Valid | src/typistCore.ts:104-111 | single writer: while the engine is alive, the stored buffer is the last snapshot handed to the state setter (invariant kept by `StartTyping`) |
| TypistEngine.TypistCore.constructor | src/typistCore.ts:23-30 | the engine starts with an empty buffer, no pending timer, a live setter, empty logs and every configuration field taken from the props |
| TypistEngine.TypistCore.SetUpProps | src/typistCore.ts:70-86 | every configuration field is replaced by the given props |
| TypistEngine.TypistCore.Discard | src/typistCore.ts:35-41 | the setter is replaced by one that throws, so every later emission fails |
| TypistEngine.TypistCore.TimeoutPromise | src/typistCore.ts:88-102 | a wait of the given delay is started and logged, the timer slot is set, and the wait is cancelled exactly when the oracle says so for its index |
| TypistEngine.TypistCore.UpdateTypedLines | src/typistCore.ts:108-111 | the buffer is stored first; then the snapshot is logged and the call ends normally, or, after discard, nothing is logged and the call throws |
| TypistEngine.TypistCore.TypeString | src/typistCore.ts:113-124 | the new state and outcome are exactly those of playing `TYPE_STRING`'s trace from the old state; the timer slot is set when a wait was started |
| TypistEngine.TypistCore.TypeElement | src/typistCore.ts:126-129 | the new state and outcome are exactly those of playing one wait and then one emission of the buffer with the element appended; it always starts exactly one wait and leaves the timer slot set |
| TypistEngine.TypistCore.BackspaceOnce | src/typistCore.ts:135-149 | the backward scan and the erase compute exactly one backspace step, and report whether the scan found only `null` lines |
| TypistEngine.TypistCore.Backspace | src/typistCore.ts:131-154 | the new state and outcome are exactly those of playing `BACKSPACE(amount)`'s trace from the old state |
| TypistEngine.TypistCore.RunAction | src/typistCore.ts:55-60 | dispatching one instruction plays exactly that instruction's trace, a paste being one emission and a pause one wait; waits only grow, and the timer slot is set when a wait started and otherwise unchanged |
| TypistEngine.TypistCore.RunPass | src/typistCore.ts:52-63 | one pass plays the pass trace (reset to `[]`, then every instruction in order); only a completed pass calls `onTypingDone`, exactly once, and clears the timer slot; after an interrupted pass the slot is set when a wait started and otherwise unchanged |
| TypistEngine.TypistCore.StartTyping | src/typistCore.ts:48-67 | the run leaves exactly the state of `PlayPasses` over one pass (`loop` false) or up to the fuel bound (`loop` true), with one `onTypingDone` per completed pass; the timer slot ends cleared; the buffer still equals the last emitted snapshot; without `loop` at most one `onTypingDone`; after discard no emission, no `onTypingDone` and an empty stored buffer |

## Left out

- `#timeoutPromise`'s timing (`setTimeout`, `setInterval`, pause polling) is not modelled. A wait is one abstract step that the oracle may cancel. The `pause` flag only decides when an uncancelled wait resolves, so the model stores it and nothing reads it.
- Promises and `async` scheduling are not modelled. Each executor runs to its end or to the first interruption. A cancellation arriving from outside (from `discard`, or from a restarted `startTyping`) is the oracle answering `true` for the pending wait.
- Overlapping runs are not modelled. They happen when `startTyping` is called while a run is suspended, and the old run's `catch` clears the new run's timer slot. This is concurrency between two suspended calls.
- `onPropsChanged` taking effect in the middle of a run is not modelled. `SetUpProps` is a method of its own, and a run reads its configuration when it starts.
- `getActions` is not part of this model. The `children` field holds the instruction list it would produce, and each pass reads that list again.
- `defaultSplitter` and `emptyFunc` are not part of this model. The splitter is an arbitrary function field, and no property assumes that joining its units gives back the text.
- React types are not modelled. An element is an opaque token (`Node(id)`). The state setter is an append to `emissions`, or a throw after `discard`.
- TypistEngine.TypistCore.RunPass: `onTypingDone` is assumed to return normally. In the source it is called inside the `try` (src/typistCore.ts:62), so a callback that throws would end the run through the `catch` (:65-66), even with `loop` set; the model counts the call and goes on to the next pass.
- TypistEngine.TypistCore.Backspace: the count is an integer. The source's count is a `number`, and a fractional count runs ⌈amount⌉ steps under `while (amount > 0)` (src/typistCore.ts:132); the model does not cover fractional counts.
- TypistEngine.TypistCore.StartTyping: a `loop: true` run never ends in the source; the model runs at most `maxPasses` passes (fuel), so it says nothing about the behaviour after that bound.
- `src/types/TypistProps.ts` only declares types. `TypedLines` and `Splitter` appear as `TypistTypes.TypedLines` and `TypistTypes.Splitter`. The props the engine ignores (`cursor`, `restartKey`, `disabled`) are not modelled.
- `Multiple.tsx` is not part of this model. It is UI glue for an unrelated component.
