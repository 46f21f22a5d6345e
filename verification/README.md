# Numeric field validation and debounce, modelled in Dafny

This project models the two pieces of logic in a small React form-handling
repository:

- **`NumberInputForm`**, a text field for decimal numbers. It keeps the typed
  text (`userInput`), an `error` flag and a `showErrorText` flag. Its change,
  blur and focus handlers implement a "first blur is rejected, second is
  allowed" rule. The first blur away from a mistyped value raises the error,
  shows the explanation and takes the focus back. A second blur hides the
  explanation and lets the user leave. Validity is the browser's
  `patternMismatch` for the `pattern` attribute `[-]?[0-9]*[.,]?[0-9]+`.
- **`useDebounce`**, a hook that returns its input value only after the input
  has stopped changing. Each change of `value` or `delay` clears the pending
  timer and schedules a new one that carries the current value. A timer that
  elapses commits its value. Unmounting clears the pending timer.

Files:

- `number_pattern.dfy` (module `NumberPattern`): the pattern rule. The
  reference predicate `MatchesPattern` cuts the value into the four pieces of
  the expression. `Recognize` is a hand-written greedy recognizer. A lemma
  proves the two agree. `PatternMismatch` adds the rule from section
  4.10.5.3.6 of the HTML Living Standard: the pattern is anchored to the whole
  value, and an empty value is never a mismatch. It assumes the attribute is
  compiled with the `u` flag, as browsers did when the code was written (see
  "## Left out").
- `number_input.dfy` (module `NumberInput`): the component state as a record
  and the three handlers as total functions. `Render` covers the error
  background and the explanation paragraph. The module also has an
  independent three-phase reference machine: `Clean`, `InvalidHidden` and
  `InvalidShown`. The handlers are proved to move in lock-step with it, and
  `showErrorText ==> error` is proved to hold in every reachable state. A
  `Session` adds whether the field has the focus. It is used to prove that the
  help text is shown only while the field is focused.
- `debounce.dfy` (module `Debounce`): the hook as an event system over
  `Change(v)`, `ChangeDelay(d)`, `Fire(handle)` and `Teardown`. Pending timers
  are stored as a list, so "at most one timer is pending" is proved rather than
  built into the representation.

Clocks and the browser are represented by explicit events and outputs. A timer
elapsing is the event `Fire(handle)`, and unmounting is the event `Teardown`.
The delay is an opaque natural number. `setTimeout` hands out fresh handles
from a counter. Refocusing is a boolean that blur returns.

Behaviour of the code worth stating plainly:

- An empty value is never a pattern mismatch. So emptying an invalid field
  clears the error, and blurring an empty field raises none
  (`NumberInput.EmptyValueClearsError`).
- Every handler keeps `showErrorText ==> error`
  (`NumberInput.ReplayRefinesFieldRun`), and a raised error always goes with a
  value that fails the pattern, though a clean field may hold one until it is
  blurred (`NumberInput.ErrorMeansMismatch`).
- A re-render that passes the same `value` and `delay` does not re-run the
  effect, because React compares the dependency list. So such a render
  neither cancels nor restarts the timer (`Debounce.Render`).

## Model

| member | source | states |
|---|---|---|
| NumberPattern.RecognizeMatchesPattern | src/components/NumberInputFormElement/index.tsx:14 | the hand-written recognizer accepts a value exactly when the value splits into an optional `-`, digits, an optional `.` or `,`, and at least one digit, in that order and covering all of it |
| NumberPattern.DigitRunEnd | src/components/NumberInputFormElement/index.tsx:14 | the greedy scan for `[0-9]*` stops at the end of the longest digit run: everything before is a digit and the character it stops at is not |
| NumberPattern.PatternMismatch | src/components/NumberInputFormElement/index.tsx:90 | the browser's mismatch flag for the field holds exactly for non-empty values that do not match the anchored pattern |
| NumberPattern.PatternExamples | src/components/NumberInputFormElement/index.tsx:14 | "123", "-12", "12.5", "1,5" and "-.5" match; "12,", "-", "12.5.6" and "" do not; "" is nevertheless not a mismatch, and "12a" is one |
| NumberInput.Initial | src/components/NumberInputFormElement/index.tsx:21-23 | the field starts empty with both flags off, in the clean phase, and satisfies `showErrorText ==> error` |
| NumberInput.HandleChange | src/components/NumberInputFormElement/index.tsx:61-69 | a change always stores the new value and never raises the error; in error, an acceptable value clears both flags; otherwise the flags stay; the invariant is kept and the phase moves as the reference edit does |
| NumberInput.HandleBlur | src/components/NumberInputFormElement/index.tsx:43-54 | blur never changes the value; without an error, a mismatch raises the error, shows the explanation and asks for refocus, and an acceptable value changes nothing; in error only the explanation is hidden, with no refocus; the phase and refocus agree with the reference blur |
| NumberInput.HandleFocus | src/components/NumberInputFormElement/index.tsx:74-78 | focus leaves value and error alone, shows the explanation when in error, changes nothing otherwise, and agrees with the reference focus |
| NumberInput.Render | src/components/NumberInputFormElement/index.tsx:32-36 | the error background is applied exactly when `error` holds, the explanation is shown exactly when `showErrorText` holds, and a valid state displays what its phase must display |
| NumberInput.ReplayRefinesFieldRun | src/components/NumberInputFormElement/index.tsx:43-78 | over any sequence of change, blur and focus events, the invariant `showErrorText ==> error` is kept and the component's value and phase equal those of the three-phase reference machine |
| NumberInput.ReachableStatesValid | src/components/NumberInputFormElement/index.tsx:21-23 | every state reachable from the initial state satisfies `showErrorText ==> error` and is the reference machine's state started from an empty clean field |
| NumberInput.ReplayKeepsConsistent | src/components/NumberInputFormElement/index.tsx:43-78 | over any events, a state whose raised error goes with a value failing the pattern keeps that property: blur raises the error only under a mismatch and never changes the value, a change in error either re-checks the new value or clears the flag, and focus never touches value or error |
| NumberInput.ErrorMeansMismatch | src/components/NumberInputFormElement/index.tsx:46-53 | from the initial state, whenever the error is raised the value fails the pattern, so the in-error branch of blur only ever sees a mismatch; the converse fails, since typing "12a" leaves a clean field holding a mismatch |
| NumberInput.ReplayValueIsLastEdit | src/components/NumberInputFormElement/index.tsx:68 | only change events alter the value: after any events it is the last changed-to value, or the starting value if there was no change |
| NumberInput.EmptyValueClearsError | src/components/NumberInputFormElement/index.tsx:63-66 | changing to the empty value clears both flags, and a blur afterwards is let through without error or refocus |
| NumberInput.EditIdempotent | src/components/NumberInputFormElement/index.tsx:61-69 | repeating the same change has no further effect |
| NumberInput.FirstBlurRejectedSecondAllowed | src/components/NumberInputFormElement/index.tsx:38-54 | from a clean field holding a mismatch, the first blur refocuses and shows the explanation, and the second blur does not refocus and leaves the error with the explanation hidden |
| NumberInput.Walkthrough | src/components/NumberInputFormElement/index.tsx:43-78 | typing "12a", blurring twice, refocusing and typing "12.5" passes through clean, shown, hidden, shown and clean, with a refocus only on the first blur |
| NumberInput.SessionStep | src/components/NumberInputFormElement/index.tsx:43-78 | an event the browser delivers (edit or blur while focused, focus while unfocused) runs its handler and any other changes nothing; a blur leaves the field focused exactly when the handler takes the focus back; and "explanation shown only while in error and focused" is kept |
| NumberInput.SessionKeepsHelpOnlyWhileFocused | src/components/NumberInputFormElement/index.tsx:72-103 | over any sequence of events, the explanation stays visible only while the field is in error and has the focus |
| NumberInput.HelpShownOnlyWhileFocused | src/components/NumberInputFormElement/index.tsx:98-103 | from the unfocused initial field, after any events, the help text is shown only while the field is in error and focused |
| Debounce.Cancel | src/hooks/useDebounce.ts:24 | clearing a handle removes exactly the timers with that handle and keeps every other one |
| Debounce.Mount | src/hooks/useDebounce.ts:17-22 | the output starts as the first observed value and exactly one timer is pending |
| Debounce.Render | src/hooks/useDebounce.ts:19-26 | a render never touches the output; when `value` or `delay` changed, including `delay` alone, every old timer is gone and exactly one fresh timer is pending, carrying the new value, and no cleared handle is pending any more, so a cleared timer can never fire; otherwise nothing changes |
| Debounce.Step | src/hooks/useDebounce.ts:17-26 | each event keeps the invariant; the output changes only when a pending timer fires, and then it becomes the value that timer carried and the timer is no longer pending; firing leaves the value, the delay and the mounted flag alone, and firing a handle that is not pending changes nothing; teardown leaves no timer pending |
| Debounce.RunKeepsInv | src/hooks/useDebounce.ts:19-26 | the invariant holds after any sequence of events |
| Debounce.AtMostOnePending | src/hooks/useDebounce.ts:19-26 | after mounting and any events, at most one timer is pending |
| Debounce.RunStaysWithin | src/hooks/useDebounce.ts:17-21 | if every value passed on a render lies in a set, the output, dependency and carried values stay in it |
| Debounce.OutputWasHeld | src/hooks/useDebounce.ts:17-21 | the output is always the first value or a value some render passed |
| Debounce.NoFireKeepsOutput | src/hooks/useDebounce.ts:17-29 | events that include no timer firing leave the output unchanged |
| Debounce.UnmountedIsInert | src/hooks/useDebounce.ts:23-25 | an unmounted hook has no pending timer and no later event changes it |
| Debounce.TeardownFreezesOutput | src/hooks/useDebounce.ts:23-25 | after teardown no timer is pending and no later event can commit a value |
| Debounce.SettleCommitsValue | src/hooks/useDebounce.ts:20-22 | once every pending timer of a mounted hook elapses, the output is the current value and no timer remains |
| Debounce.ChangesTrackValue | src/hooks/useDebounce.ts:19-26 | after a burst of renders the hook is still mounted and consistent and its dependency is the last value passed |
| Debounce.BurstThenSettle | src/hooks/useDebounce.ts:19-26 | a burst of changes commits no intermediate value, and once the pending timer elapses the output is the last value typed |
| Debounce.RunValueIsLastChange | src/hooks/useDebounce.ts:19-26 | while the component stays mounted, the hook's dependency is the last value passed on a render, whatever delay changes and timer firings come between |
| Debounce.SettleAfterAnyTrace | src/hooks/useDebounce.ts:16-29 | after any events that do not unmount the component, once the pending timer elapses the output is the last value passed on a render and no timer remains |
| Debounce.TypingExample | src/hooks/useDebounce.ts:16-29 | typing "1", "12", "123" then pausing keeps the output empty while typing, leaves one timer carrying "123", and then commits "123" |

## Left out

- JSX rendering, label and alert text, the CSS files and the inline colour of the alert: these are presentational. Only "background set exactly when `error`" and "explanation shown exactly when `showErrorText`" are kept (`NumberInput.Render`).
- `src/components/InputCSSElement/index.tsx`: it only wires an input to `useDebounce`. Its email pattern is used only by the browser and by CSS `:invalid` styling, and no code branches on it.
- The browser's regular-expression engine and `validity` object: only the field's single pattern is modelled, with the empty-value rule of the standard.
- React scheduling, state batching, `useRef` and DOM focus calls. Refocus is a boolean that blur returns. The synchronous `focus()` inside `handleBlur` runs `handleFocus` with the stale `error = false`, so it changes nothing, and it is not modelled as a separate focus event.
- Real time, millisecond delays, `setTimeout` and `clearTimeout`: a timer elapsing is the explicit `Fire(handle)` event. The delay is an opaque natural number, so negative or fractional delays are not represented. `delay = 0` is not special-cased, since a zero-delay timer still fires asynchronously.
- Renders after unmounting: a destroyed component receives none, so the model ignores them.
- NumberPattern.PatternMismatch: assumes the pattern attribute is compiled with the `u` flag, as browsers did when the code was written. The current HTML standard compiles it with the `v` flag. There a bare `-` in a character class is a syntax error, so `[-]` does not compile and no value is ever reported as a mismatch. That behaviour, under which the error branches of the handlers are never taken, is not modelled.
- Focus delivery: the browser's focus bookkeeping is reduced to one flag. Edits and blurs that reach an unfocused field, and focus events that reach a focused one, are treated as not delivered and change nothing.
