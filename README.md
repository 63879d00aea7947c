# Button controller model

A Dafny model of the button controller of the `button` package (`controller.go`): a
polled, time-driven state machine that debounces push buttons on a microcontroller and
classifies each interaction as a single click or a long press, starting a registered
callback for each.

- `button_state.dfy`, module `ButtonState`: the `button` record, its polarity
  (`readState`), and one iteration of the polling loop for one button as the pure
  function `Step`. `Run`, `Gestures` and `CommitTimes` poll a button with a trace of
  samples, and the lemmas about them state what holds across many polls.
- `button_controller.dfy`, module `ButtonController`: the options
  (`WithDebounceDuration`, `WithLongPressDuration`, `WithPinMode`) as a datatype
  folded left to right over the defaults. The registry is a two-level map from
  action type and button id to a callback. Class `Controller` keeps the fields of the
  Go struct. Its constructor is `NewController`. `Register` appends a button and binds a
  callback. `Update` loops over the buttons, updating a copy of each record and writing
  it back at its index. `Update` and its loop body `Poll` are proved against `Step` and
  `Fired`.
- `scenarios.dfy`, module `ButtonScenarios`: concrete traces of one button under the
  default configuration.

Time is an `int` count of nanoseconds since the Unix epoch. Go's zero `time.Time` is
`ZeroTime`. Durations are `int` nanoseconds. `time.Now()` and the pin reads become
parameters: `now`, and one raw level per button. Starting a callback with `go action()`
becomes appending an `Event(kind, id, callback)` to the sequence `Update` returns.

The model follows the code as written, including where it differs from the intended
behaviour described for the library:

- `longPressed` is never cleared. The branch `else if !btn.longPressed { btn.longPressed = false }`
  does nothing, so LongPress fires at most once in a button's life
  (`LongPressAtMostOnce`, `SecondLongHoldIsSilent`). A second long hold is silent.
- After a long press, the SingleClick on release is suppressed only because the hold
  is at least `longPressDur`. The flag plays no part in that.
- Short glitches are not filtered. A press is committed by the first differing sample
  once the debounce window since the last commit has passed. A 10 ms tap, polled again
  after the window, completes a SingleClick (`GlitchIsNotFiltered`). The debounce gate
  is measured from the last commit, not from the previous sample
  (`CommitsSpacedByDebounce`, `QuietWithinDebounce`).
- The polarity is `pullup == level`. A pull-up button reads pressed when its level is
  high.
- Each `Register` call creates its own button record, even for a pin that is already
  registered.

An invariant the code relies on without stating it: while a button is pressed,
`pressedAt == recordedAt` (`Inv`). So `pressedAt` is never read while it still holds the
zero time, and a SingleClick is a hold strictly longer than `debounceDur` and strictly
shorter than `longPressDur`.

## Model

| member | source | states |
|---|---|---|
| ButtonState.ReadState | controller.go:108-110 | a pull-up button reads pressed exactly when the level is high; any other button reads pressed exactly when it is low |
| ButtonState.Step | controller.go:71-95 | the committed state changes exactly when the reading differs and strictly more than `debounceDur` has passed since the last commit; a commit stamps `recordedAt := now`, and a press edge also stamps `pressedAt := now`; SingleClick fires iff the step commits a release and the hold was shorter than `longPressDur`; LongPress fires iff the button is pressed, the hold has reached `longPressDur` and the flag was clear; at most one gesture per step; the flag is set exactly when LongPress fires and is never cleared; pin and polarity are unchanged; `Inv` is preserved; a click's hold lies strictly between the two durations |
| ButtonState.Run | controller.go:68-96 | polling a button through any trace keeps its pin and polarity, preserves `Inv` and never clears `longPressed` |
| ButtonState.GesturesAppend | controller.go:68-96 | polling with two traces one after the other yields the gestures and final record of polling with their concatenation |
| ButtonState.RunStampsLastCommit | controller.go:73-75 | after any trace the record is stamped with the time of the last committed transition, or keeps its stamp and state if none was committed |
| ButtonState.CommitsSpacedByDebounce | controller.go:73-75 | any two consecutive committed transitions of a button are strictly more than `debounceDur` apart, and the first is strictly more than `debounceDur` after the record's stamp (its registration time) |
| ButtonState.QuietWithinDebounce | controller.go:73 | samples taken no later than `debounceDur` after the last commit commit nothing, leave `isPressed` and `recordedAt` unchanged and complete no SingleClick |
| ButtonState.LongPressAtMostOnce | controller.go:84-93 | along any trace LongPress fires at most once, and never if the flag is already set; the final flag is set iff it was set before or LongPress fired |
| ButtonState.ShortPressClicks | controller.go:73-81 | a press committed once the debounce window has passed, polled any number of times while held, released after more than `debounceDur` and before `longPressDur`, and then polled released any number of times, completes exactly one SingleClick and nothing else |
| ButtonState.LongHoldLongPresses | controller.go:77-93 | a press polled any number of times before `longPressDur`, at least once at or after it, released after at least `longPressDur`, and then polled released any number of times, completes one LongPress (none if the flag is already set) and no SingleClick |
| ButtonState.HeldQuiet | controller.go:73-93 | a pressed button polled at the pressed level before the hold reaches `longPressDur` keeps its record and completes nothing |
| ButtonState.HeldLatched | controller.go:84-93 | a pressed button whose long-press flag is set, polled at the pressed level, keeps its record and completes nothing however long it is held |
| ButtonState.ReleasedQuiet | controller.go:73-93 | a released button polled at the released level keeps its record and completes nothing |
| ButtonState.PressCommits | controller.go:73-78 | a released button whose debounce window has passed commits a press on the first pressed sample, stamping both `recordedAt` and `pressedAt`, and completes nothing while the hold is below `longPressDur` |
| ButtonState.ReleaseCommits | controller.go:73-81 | a pressed button released more than `debounceDur` after the press commits the release, stamps `recordedAt`, and completes a SingleClick iff the hold was shorter than `longPressDur` |
| ButtonState.PressThenHeld | controller.go:73-93 | a committed press followed by any number of held samples before `longPressDur` completes nothing and leaves the button pressed, stamped at the press |
| ButtonState.ReleaseThenQuiet | controller.go:73-93 | a committed release followed by any number of released samples completes a SingleClick iff the hold was shorter than `longPressDur`, and nothing else |
| ButtonState.LatePhase | controller.go:84-93 | held samples from `longPressDur` on set the flag, completing LongPress on the first of them iff the flag was clear, and nothing afterwards |
| ButtonState.LateThenRelease | controller.go:73-93 | held samples from `longPressDur` on, then a release and released samples, complete one LongPress iff the flag was clear and never a SingleClick |
| ButtonController.Apply | controller.go:116-134 | each option sets exactly the field it names to its value and leaves the other two fields unchanged |
| ButtonController.ApplyAll | controller.go:43-45 | a field that no option in the sequence sets keeps its initial value |
| ButtonController.ApplyAllSnoc | controller.go:43-45 | applying options one after the other is applying the sequence, one more at its end |
| ButtonController.LastOptionWins | controller.go:35-47 | for each of debounce, long-press duration and pin mode, the configuration after the options is the value of the last option setting that field, or the initial value if none does |
| ButtonController.NewButton | controller.go:54-59 | a fresh button is released, has the flag clear, is stamped with the registration time, has `pressedAt` at the zero time, is pull-up iff the pin mode is `PinInputPullup`, and satisfies `Inv` |
| ButtonController.Lookup | controller.go:79-87 | a callback is found exactly when the registry has an inner map for the action type holding the button id, and it is the one stored there; a missing inner map yields no callback |
| ButtonController.Bind | controller.go:60-63 | after binding, the lookup for (actionType, id) yields the new callback, creating the inner map if missing and replacing any earlier binding; every other lookup is unchanged |
| ButtonController.Dispatch | controller.go:79-89 | one button's gestures start at most one event per gesture |
| ButtonController.DispatchExact | controller.go:79-89 | every event a button's gestures start is for that button, is one of its gestures and carries the callback registered for it; and every gesture with a registered callback starts that callback |
| ButtonController.PollGestures | controller.go:70-93 | one poll gives each button the gestures `Step` completes for its record and level |
| ButtonController.Fired | controller.go:70-96 | when each button completes at most one gesture, a poll of buttons `0..n-1` starts at most `n` events |
| ButtonController.FiredSound | controller.go:79-89 | every event started for buttons `0..n-1` is for one of those buttons, is one of the gestures that button completed, and carries the callback registered for that gesture and button |
| ButtonController.FiredOrdered | controller.go:70-96 | when each button completes at most one gesture, the events come in strictly increasing id order, so each button starts at most one callback |
| ButtonController.PollOrdered | controller.go:70-96 | in a real poll each button completes at most one gesture, so `Update` starts its callbacks in strictly increasing id order, at most one per button |
| ButtonController.FiredComplete | controller.go:79-89 | every gesture completed by a button among `0..n-1` that has a callback registered starts that callback |
| ButtonController.PolledKeepsInv | controller.go:70-95 | once every button has been polled, each record is `Step` of its old one and `Inv` holds of every button |
| ButtonController.Controller.constructor | controller.go:35-47 | no buttons, an empty registry, and the configuration is the defaults (50 ms, 1 s, pull-up) with the options applied left to right |
| ButtonController.Controller.Register | controller.go:52-64 | exactly one button is appended, the earlier ones are unchanged, and the new one is `NewButton` for the pin, the controller's pin mode and the registration time; the registry maps (actionType, new id) to the callback, replacing any earlier binding, and every other entry is unchanged; the configuration is unchanged |
| ButtonController.Controller.Poll | controller.go:71-95 | the loop body gives each button's new record as `Step` does, and starts the events `Dispatch` gives for the button's gestures |
| ButtonController.Controller.Update | controller.go:68-96 | the number of buttons, the registry and the configuration are unchanged; each button's new record is `Step` of its old one, written back at its own index; `Inv` is kept; the events started are `Fired` over the gestures `PollGestures` gives, for all buttons in id order |
| ButtonScenarios.HoldPastThreshold | controller.go:84-90 | under the defaults, a press at 0 ms held until 1200 ms completes one LongPress and no SingleClick |
| ButtonScenarios.GlitchIsNotFiltered | controller.go:73-81 | under the defaults, a 10 ms tap polled at 0, 10 and 60 ms commits the press at once and completes a SingleClick |
| ButtonScenarios.AfterFirstHold | controller.go:84-93 | after a first long hold the button is released, stamped at the release, and keeps its long-press flag |
| ButtonScenarios.SecondLongHoldIsSilent | controller.go:91-92 | two long holds of the same button complete only one LongPress, because the flag is never cleared |

## Left out

- `pin.Configure` and `pin.Get` (hardware access through the `machine` package). `Register` takes the pin number only. `Update` takes one raw level per button. Those reads happen at slightly different instants in the source, so two buttons on one pin may read different levels.
- `time.Now()`: `Register` and `Update` take `now` as a parameter.
- `go action()`: callbacks are opaque values of type `C`. Starting one is recorded as an `Event` in the sequence `Update` returns. Concurrency between callbacks and later polls is not modelled.
- The saturation of `time.Time.Sub` at the limits of `int64` and the 64-bit width of `time.Duration`: times and durations are unbounded integers. For realistic times the differences stay in range.
- `machine.PinMode` is an enum of four modes. Only equality with `PinInputPullup` matters to the controller.
- `ActionType` is a `uint8` in the source, so any value can be registered. The model has only its two named values, `SingleClick` and `LongPress`. Callbacks registered under other values are never started by `Update` either.
- A nil `action` passed to `Register` (controller.go:63). In Go, `go action()` on a nil func at controller.go:80 or controller.go:88 is a run-time failure. The model's callbacks are values of any type `C`, so `Update` records an `Event` for it instead.
- Arbitrary `ControllerOption` funcs. `ControllerOption` is any `func(*Controller)` (controller.go:113). A nil option makes `NewController` panic at controller.go:44. A custom option may change any field, including calling `Register`, so a new controller could already have buttons. The model's options are only the three `With*` constructors, so a new controller always starts with no buttons.
- The two example programs under `examples/` (build a controller, register printing callbacks, poll in a loop). They contain no logic of their own.
