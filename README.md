# Pattern-lock capture state machine

A model of the capture logic of `PatternLockView`, the connect-the-dots
pattern-lock widget of ScreenLockPattern. A user drags over a 3×3 grid of
dots. The widget records the dots touched, in order. When the finger lifts,
it judges the pattern under a two-stage enter-then-confirm protocol:

- in stage FIRST a pattern of at least four dots is stored and accepted;
- in stage SECOND the pattern is stored and compared with the FIRST one.

Four view states result: Initial, Started, Success and Error. Success and
Error carry the colours to draw with. Every state the handler sets is
handed to a change listener.

The project has three modules:

- `PatternTypes` (`pattern_types.dfy`) holds the value types: dots, stages,
  view states and colours. It also holds the grid's key labels and the key
  of a drawn pattern, proved injective: equal keys mean the same dots in
  the same order.
- `PatternMachine` (`pattern_machine.dfy`) gives the widget's state as one
  value, `Snapshot`. It defines what pointer-down, pointer-move,
  pointer-up, `reset()` and a stage assignment do to that value. It states
  the object invariant `Inv` and proves it over any sequence of inputs. It
  also proves the protocol: the confirmation succeeds exactly when the same
  pattern is drawn again.
- `PatternLock` (`pattern_lock_view.dfy`) holds the class
  `PatternLockView`. It keeps four of the Kotlin class's fields:
  `stageState`, `state`, `markedDotList` and `stagePasswords`. It adds two
  fields of its own: `notified`, the log of states handed to the listener,
  and `palette`, the success and error colours. The methods update these
  fields in place, following the Kotlin handler branch by branch. Each
  method is proved to make the transition `PatternMachine` describes and to
  keep `Inv`. The fields `touchedPointX`, `touchedPointY`, `initialDotList`
  and `countDownTimer` are not modelled (see "Left out").

The bodies of three helpers that the handler calls are not modelled:
`reset()`, `isTouchedDot(x, y)` and `getDrawnPatternKey()`. The model
ASSUMES what each does:

- `reset()` empties the marked list and sets the state to Initial. It
  does not call the listener. It leaves the stage and `stagePasswords`
  alone, so no reset clears a stored key. Whether `reset()` also cancels
  `countDownTimer` is not modelled; the timer is not modelled at all.
- The geometry behind `isTouchedDot` becomes an input: the dot under the
  pointer, if any. The hit test appends that dot when it is not yet marked
  and reports whether it did.
- The key of a pattern is the concatenation of the labels "1".."9" of
  `dotNumberKeyArray`, in touch order.

The notification contracts depend on the `reset()` assumption. Under it,
the listener never hears Initial (`RunNeverReportsInitial`). If `reset()`
did notify, every pointer-down outside Success would report Initial first.

## Model

| member | source | states |
|---|---|---|
| PatternTypes.DotKey | app/src/main/java/com/metehanbolat/screenlockpattern/component/PatternLockView.kt:61-65 | each dot's label is one digit, its 1-based position in row-major order |
| PatternTypes.DrawnPatternKey | app/src/main/java/com/metehanbolat/screenlockpattern/component/PatternLockView.kt:136 | the drawn key has one character per marked dot, the label of the dot at that position (assumed scheme) |
| PatternTypes.DrawnPatternKeyInjective | app/src/main/java/com/metehanbolat/screenlockpattern/component/PatternLockView.kt:145 | two patterns have equal keys if and only if they are the same dots in the same order, so the key comparison is a pattern comparison |
| PatternMachine.Reset | app/src/main/java/com/metehanbolat/screenlockpattern/component/PatternLockView.kt:124 | assumed reset(): state Initial, no marks; stage, stored keys and listener log unchanged; the result satisfies Inv whatever the state before |
| PatternMachine.Apply | app/src/main/java/com/metehanbolat/screenlockpattern/MainActivity.kt:44-46 | one outside input: a touch is handled by Handle; a reset request (the clear path at MainActivity.kt:73, the timer at PatternLockView.kt:110-111) empties the marks, shows Initial and notifies no one; a stage assignment changes the stage and nothing else; only an assignment changes the stage; every input keeps Inv |
| PatternMachine.RunNeverReportsInitial | app/src/main/java/com/metehanbolat/screenlockpattern/component/PatternLockView.kt:126-163 | the handler reports only Started, Success and Error, so under the reset() assumption the listener never hears Initial |
| PatternMachine.HitTest | app/src/main/java/com/metehanbolat/screenlockpattern/component/PatternLockView.kt:125 | assumed hit test: a hit on an unmarked dot appends it and reports true; a miss or an already marked dot changes nothing and reports false |
| PatternMachine.OnDown | app/src/main/java/com/metehanbolat/screenlockpattern/component/PatternLockView.kt:122-131 | in Success the event is refused and nothing changes; otherwise the gesture is reset, and a hit gives Started with exactly that dot and one Started notification, a miss gives Initial with no notification; stage and keys untouched |
| PatternMachine.OnMove | app/src/main/java/com/metehanbolat/screenlockpattern/component/PatternLockView.kt:167-172 | only the marked list can change, and it gains exactly the hit dot if and only if the state is Started, the count is not MaxCount and the dot is new; the count never passes MaxCount |
| PatternMachine.OnUp | app/src/main/java/com/metehanbolat/screenlockpattern/component/PatternLockView.kt:132-166 | no marks: no change; 1..3 marks: Error colours, keys untouched, one notification; 4+ marks in FIRST: key stored under FIRST only, Success colours; 4+ marks in SECOND: key stored under SECOND only, Success if and only if FIRST holds the same key, otherwise Error (so also when FIRST is absent); stage and marks unchanged |
| PatternMachine.Handle | app/src/main/java/com/metehanbolat/screenlockpattern/component/PatternLockView.kt:117-176 | the handler never changes the stage; it returns false exactly for a pointer-down in Success, which changes nothing; each event hands the listener at most one state, the new one; every new non-Initial state is reported; it keeps Inv |
| PatternMachine.RunPreservesInv | app/src/main/java/com/metehanbolat/screenlockpattern/component/PatternLockView.kt:117-176 | any sequence of touches, resets and stage assignments keeps Inv: no dot twice, at most MaxCount marks, Initial exactly when nothing is marked, Success means the marks are the pattern stored under FIRST, a full-length Error is a failed confirmation |
| PatternMachine.ReachableInv | app/src/main/java/com/metehanbolat/screenlockpattern/component/PatternLockView.kt:28-39 | every state reached from a freshly built widget satisfies Inv and has at most MaxCount marked dots |
| PatternMachine.RunStage | app/src/main/java/com/metehanbolat/screenlockpattern/component/PatternLockView.kt:28 | after any inputs the stage is the last one assigned to the public field, or the starting one: touches and resets never change it |
| PatternMachine.RunMoves | app/src/main/java/com/metehanbolat/screenlockpattern/component/PatternLockView.kt:167-171 | during a gesture, moves over new dots below MaxCount append exactly those dots in order |
| PatternMachine.DrawJudgesPattern | app/src/main/java/com/metehanbolat/screenlockpattern/component/PatternLockView.kt:122-166 | a whole gesture over a drawable pattern, outside Success, marks exactly that pattern, reports Started, then ends as pointer-up judges it |
| PatternMachine.ShortPatternRejected | app/src/main/java/com/metehanbolat/screenlockpattern/component/PatternLockView.kt:161-163 | a gesture over fewer than MinCount dots ends in Error and stores no key |
| PatternMachine.EnterThenConfirm | app/src/main/java/com/metehanbolat/screenlockpattern/component/PatternLockView.kt:133-156 | from a new widget, drawing a pattern in FIRST succeeds and stores its key; after switching to SECOND and resetting, a second drawing succeeds if and only if it is the same pattern, and errs otherwise |
| PatternMachine.SuccessHoldsUntilReset | app/src/main/java/com/metehanbolat/screenlockpattern/component/PatternLockView.kt:123 | once in Success, no sequence of touch events changes the state or the marked pattern; only reset() leaves Success |
| PatternLock.PatternLockView.constructor | app/src/main/java/com/metehanbolat/screenlockpattern/component/PatternLockView.kt:28-39 | a new widget is in stage FIRST, Initial, with no marks, no stored keys and no notifications |
| PatternLock.PatternLockView.Reset | app/src/main/java/com/metehanbolat/screenlockpattern/component/PatternLockView.kt:110-111 | assumed reset(): marks emptied and state Initial, nothing else changed, invariant re-established |
| PatternLock.PatternLockView.IsTouchedDot | app/src/main/java/com/metehanbolat/screenlockpattern/component/PatternLockView.kt:169 | updates only the marked list, as HitTest says |
| PatternLock.PatternLockView.PointerDown | app/src/main/java/com/metehanbolat/screenlockpattern/component/PatternLockView.kt:122-131 | the fields and the result are those OnDown gives; keeps Inv |
| PatternLock.PatternLockView.PointerUp | app/src/main/java/com/metehanbolat/screenlockpattern/component/PatternLockView.kt:132-166 | the fields are those OnUp gives; keeps Inv |
| PatternLock.PatternLockView.PointerMove | app/src/main/java/com/metehanbolat/screenlockpattern/component/PatternLockView.kt:167-172 | the fields are those OnMove gives; keeps Inv |
| PatternLock.PatternLockView.OnTouchEvent | app/src/main/java/com/metehanbolat/screenlockpattern/component/PatternLockView.kt:117-176 | the fields and the result are those Handle gives; keeps Inv |

## Left out

- Rendering is not modelled: `onDraw`, `drawLine`, `invalidate()`, `updateViewState`, `Paint` and the default dot and line colours. The body of `updateViewState` is not modelled; the model assumes it changes none of the fields modelled here.
- The auto-reset timer's timing is not modelled. It is armed in `onDraw` while in Error, waits 1000 ms and calls `reset()`. Its firing is the `ResetRequested` input, the same input as the hosting screen's clear action.
- Pointer coordinates and the hit-test geometry (`touchedPointX`, `touchedPointY`, `isTouchedDot`, `addInitialData`) are not modelled. They are float geometry whose bodies are not part of this model; the dot under the pointer is an input instead.
- Styled-attribute parsing in `init` and the `attrIsDotAnimate` flag are not modelled. They are framework configuration; the four success and error colours are constructor parameters.
- OnDown: "a miss reports nothing" and "a hit reports exactly one Started" hold only under the assumption that `reset()` calls no listener. If `reset()` reported Initial, a pointer-down outside Success would add an Initial notification before Started.
- Handle: "at most one notification per event" holds only under the same `reset()` assumption. A pointer-down outside Success would otherwise notify up to twice.
- A missing change listener is not modelled. The listener is taken as set, as the hosting screen sets it, and is modelled by the log `notified`.
- A null `MotionEvent` is not modelled. It makes `motionEvent!!` throw; the framework never passes one.
- `minCount`, `maxCount` and the grid size are fixed at 4, 9 and 3×3. Nothing in the source changes them.
- `MainActivity.kt` and `MainActivityViewModel.kt` are not modelled beyond the two calls they make into the widget: assigning `stageState` (the `StageAssigned` input) and calling `reset()` when the republished state is Initial (`ResetRequested`). The rest is UI text, buttons, dialogs and asynchronous republishing.
