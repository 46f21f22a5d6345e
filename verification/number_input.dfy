/**
 The validation state machine of the numeric input field (`NumberInputForm`).

 The component keeps three pieces of state: the text the user typed, an `error`
 flag and a `showErrorText` flag. Three handlers change them: change, blur and
 focus. Validity is the browser's `patternMismatch` for the field's value, which
 `NumberPattern.PatternMismatch` states.

 Besides the handlers, this module states the three-phase machine the component
 is meant to implement (clean; invalid with the explanation hidden; invalid with
 the explanation shown) as an independent reference, and proves that the
 handlers, read through `PhaseOf`, move exactly as that machine does.
 */
module NumberInput {
  import opened NumberPattern

  /** The component's state: the typed text and the two error flags. */
  datatype FormState = FormState(userInput: string, error: bool, showErrorText: bool)

  /** The explanation is only ever visible while the field is in error. */
  predicate Valid(st: FormState) {
    st.showErrorText ==> st.error
  }

  /** The three phases of the field's validation feedback. */
  datatype Phase = Clean | InvalidHidden | InvalidShown

  /** The phase a valid state is in. */
  function PhaseOf(st: FormState): Phase
    requires Valid(st)
  {
    if !st.error then Clean
    else if st.showErrorText then InvalidShown
    else InvalidHidden
  }

  // ---------------------------------------------------------------------------
  // Reference machine over phases. `acceptable` is the browser's verdict on the
  // value: no pattern mismatch.
  // ---------------------------------------------------------------------------

  /** An edit clears an invalid phase once the new value is acceptable. */
  function PhaseAfterEdit(p: Phase, acceptable: bool): Phase {
    if p != Clean && acceptable then Clean else p
  }

  /**
   The first blur of an unacceptable clean field is rejected: the explanation
   appears and focus is taken back. A blur of an invalid field is allowed and
   hides the explanation.
   */
  function PhaseAfterBlur(p: Phase, acceptable: bool): (Phase, bool) {
    match p
    case Clean => if acceptable then (Clean, false) else (InvalidShown, true)
    case _ => (InvalidHidden, false)
  }

  /** Focusing an invalid field shows the explanation again. */
  function PhaseAfterFocus(p: Phase): Phase {
    if p == InvalidHidden then InvalidShown else p
  }

  // ---------------------------------------------------------------------------
  // The component's handlers.
  // ---------------------------------------------------------------------------

  /** The state the field is mounted with. */
  function Initial(): (st: FormState)
    ensures st.userInput == []
    ensures Valid(st) && PhaseOf(st) == Clean
  {
    FormState([], false, false)
  }

  /** What a blur leaves behind, and whether the field takes the focus back. */
  datatype BlurOutcome = BlurOutcome(state: FormState, refocus: bool)

  /** `handleChange`: store the new value; clear both flags once it is acceptable. */
  function HandleChange(st: FormState, value: string): (r: FormState)
    ensures r.userInput == value
    ensures r.error ==> st.error
    ensures st.error && !PatternMismatch(value) ==> !r.error && !r.showErrorText
    ensures !st.error || PatternMismatch(value) ==>
              r.error == st.error && r.showErrorText == st.showErrorText
    ensures Valid(st) ==> Valid(r) && PhaseOf(r) == PhaseAfterEdit(PhaseOf(st), !PatternMismatch(value))
  {
    if st.error && !PatternMismatch(value) then FormState(value, false, false)
    else st.(userInput := value)
  }

  /**
   `handleBlur`: with no error yet, a mismatching value raises the error, shows
   the explanation and asks for the focus back; with an error already raised,
   the explanation is hidden and the blur goes through.
   */
  function HandleBlur(st: FormState): (r: BlurOutcome)
    ensures r.state.userInput == st.userInput
    ensures !st.error && PatternMismatch(st.userInput) ==>
              r.state.error && r.state.showErrorText && r.refocus
    ensures !st.error && !PatternMismatch(st.userInput) ==> r.state == st && !r.refocus
    ensures st.error ==> r.state.error && !r.state.showErrorText && !r.refocus
    ensures Valid(st) ==>
              Valid(r.state) &&
              (PhaseOf(r.state), r.refocus) == PhaseAfterBlur(PhaseOf(st), !PatternMismatch(st.userInput))
  {
    if !st.error then
      if PatternMismatch(st.userInput) then BlurOutcome(st.(error := true, showErrorText := true), true)
      else BlurOutcome(st, false)
    else
      BlurOutcome(st.(showErrorText := false), false)
  }

  /** `handleFocus`: an invalid field shows its explanation again. */
  function HandleFocus(st: FormState): (r: FormState)
    ensures r.userInput == st.userInput && r.error == st.error
    ensures st.error ==> r.showErrorText
    ensures !st.error ==> r == st
    ensures Valid(st) ==> Valid(r) && PhaseOf(r) == PhaseAfterFocus(PhaseOf(st))
  {
    if st.error then st.(showErrorText := true) else st
  }

  // ---------------------------------------------------------------------------
  // Rendering: the error background follows `error`, the explanation follows
  // `showErrorText`.
  // ---------------------------------------------------------------------------

  datatype Style = Plain | ErrorBackground
  datatype View = View(style: Style, explanation: bool)

  /** What each phase must display. */
  function PhaseView(p: Phase): View {
    match p
    case Clean => View(Plain, false)
    case InvalidHidden => View(ErrorBackground, false)
    case InvalidShown => View(ErrorBackground, true)
  }

  /** `style(error)` together with the conditional explanation paragraph. */
  function Render(st: FormState): (v: View)
    ensures v.style == ErrorBackground <==> st.error
    ensures v.explanation == st.showErrorText
    ensures Valid(st) ==> v == PhaseView(PhaseOf(st))
  {
    View(if st.error then ErrorBackground else Plain, st.showErrorText)
  }

  // ---------------------------------------------------------------------------
  // Event sequences.
  // ---------------------------------------------------------------------------

  datatype FieldEvent = Edit(value: string) | Blur | Focus

  function Apply(st: FormState, e: FieldEvent): FormState {
    match e
    case Edit(v) => HandleChange(st, v)
    case Blur => HandleBlur(st).state
    case Focus => HandleFocus(st)
  }

  /** The state after handling `events` in order. */
  function Replay(st: FormState, events: seq<FieldEvent>): FormState
    decreases |events|
  {
    if events == [] then st else Replay(Apply(st, events[0]), events[1..])
  }

  /** The value after a sequence of events: the last edit's, if any. */
  function LastEdit(initial: string, events: seq<FieldEvent>): string
    decreases |events|
  {
    if events == [] then initial
    else LastEdit(if events[0].Edit? then events[0].value else initial, events[1..])
  }

  /** The reference machine's state: the value on screen and the phase. */
  datatype Field = Field(value: string, phase: Phase)

  function Abstract(st: FormState): Field
    requires Valid(st)
  {
    Field(st.userInput, PhaseOf(st))
  }

  /** One event of the reference machine. */
  function FieldStep(f: Field, e: FieldEvent): Field {
    match e
    case Edit(v) => Field(v, PhaseAfterEdit(f.phase, !PatternMismatch(v)))
    case Blur => Field(f.value, PhaseAfterBlur(f.phase, !PatternMismatch(f.value)).0)
    case Focus => Field(f.value, PhaseAfterFocus(f.phase))
  }

  function FieldRun(f: Field, events: seq<FieldEvent>): Field
    decreases |events|
  {
    if events == [] then f else FieldRun(FieldStep(f, events[0]), events[1..])
  }

  /**
   Replaying events on the component keeps `showErrorText ==> error` and moves
   in lock-step with the reference machine.
   */
  lemma {:induction false} ReplayRefinesFieldRun(st: FormState, events: seq<FieldEvent>)
    requires Valid(st)
    ensures Valid(Replay(st, events))
    ensures Abstract(Replay(st, events)) == FieldRun(Abstract(st), events)
    decreases |events|
  {
    if events != [] {
      var next := Apply(st, events[0]);
      assert Valid(next) && Abstract(next) == FieldStep(Abstract(st), events[0]);
      ReplayRefinesFieldRun(next, events[1..]);
    }
  }

  /** Every state the field can reach from its initial state is valid. */
  lemma ReachableStatesValid(events: seq<FieldEvent>)
    ensures Valid(Replay(Initial(), events))
    ensures Abstract(Replay(Initial(), events)) == FieldRun(Field([], Clean), events)
  {
    ReplayRefinesFieldRun(Initial(), events);
  }

  /**
   The error flag means what it says: a raised error is only ever held by a value
   that fails the pattern, so both invalid phases hold a mismatching value. The
   converse does not hold: a mismatching value typed into a clean field stays
   clean until the field is blurred.
   */
  predicate Consistent(st: FormState) {
    Valid(st) && (st.error ==> PatternMismatch(st.userInput))
  }

  lemma {:induction false} ReplayKeepsConsistent(st: FormState, events: seq<FieldEvent>)
    requires Consistent(st)
    ensures Consistent(Replay(st, events))
    decreases |events|
  {
    if events != [] {
      ReplayKeepsConsistent(Apply(st, events[0]), events[1..]);
    }
  }

  /**
   From the initial state, a raised error always goes with a mismatching value,
   so the in-error branch of blur only ever sees a mismatch; and a clean field
   can still hold one.
   */
  lemma ErrorMeansMismatch(events: seq<FieldEvent>)
    ensures var st := Replay(Initial(), events);
            st.error ==> PatternMismatch(st.userInput)
    ensures var st := Replay(Initial(), events);
            st.error && HandleBlur(st).state.error ==> PatternMismatch(HandleBlur(st).state.userInput)
    ensures var st := Replay(Initial(), [Edit("12a")]);
            !st.error && PatternMismatch(st.userInput)
  {
    ReplayKeepsConsistent(Initial(), events);
    PatternExamples();
  }

  /** Only edits change the value: it is the last edited value, if any. */
  lemma {:induction false} ReplayValueIsLastEdit(st: FormState, events: seq<FieldEvent>)
    ensures Replay(st, events).userInput == LastEdit(st.userInput, events)
    decreases |events|
  {
    if events != [] {
      ReplayValueIsLastEdit(Apply(st, events[0]), events[1..]);
    }
  }

  /**
   Emptying the field counts as a correction: the browser never reports a
   mismatch for an empty value, so the error clears and a later blur is let
   through.
   */
  lemma EmptyValueClearsError(st: FormState)
    requires Valid(st)
    ensures var r := HandleChange(st, []); !r.error && !r.showErrorText
    ensures HandleBlur(HandleChange(st, [])) == BlurOutcome(FormState([], false, false), false)
  {
  }

  /** Editing the same value twice is the same as editing it once. */
  lemma EditIdempotent(st: FormState, value: string)
    ensures HandleChange(HandleChange(st, value), value) == HandleChange(st, value)
  {
  }

  /**
   First blur rejected, second allowed: a clean field holding a mismatching value
   takes the focus back on its first blur and lets the second one through.
   */
  lemma FirstBlurRejectedSecondAllowed(st: FormState)
    requires Valid(st) && !st.error && PatternMismatch(st.userInput)
    ensures HandleBlur(st).refocus && HandleBlur(st).state.showErrorText
    ensures !HandleBlur(HandleBlur(st).state).refocus
    ensures HandleBlur(HandleBlur(st).state).state == st.(error := true, showErrorText := false)
  {
  }

  /** The walk-through of the field: mistype, blur, blur again, refocus, correct. */
  lemma Walkthrough()
    ensures var typed := HandleChange(Initial(), "12a");
            var firstBlur := HandleBlur(typed);
            var secondBlur := HandleBlur(firstBlur.state);
            var refocused := HandleFocus(secondBlur.state);
            var corrected := HandleChange(refocused, "12.5");
            && typed == FormState("12a", false, false)
            && firstBlur == BlurOutcome(FormState("12a", true, true), true)
            && secondBlur == BlurOutcome(FormState("12a", true, false), false)
            && refocused == FormState("12a", true, true)
            && corrected == FormState("12.5", false, false)
  {
    PatternExamples();
  }

  // ---------------------------------------------------------------------------
  // Focus: the explanation is shown only while the field has the focus.
  // ---------------------------------------------------------------------------

  /** The component's state together with whether the input element has the focus. */
  datatype Session = Session(st: FormState, focused: bool)

  /** Before the user first enters the field: initial state, no focus. */
  function Unfocused(): Session {
    Session(Initial(), false)
  }

  /** Edits and blurs reach only a focused field, focus only an unfocused one. */
  predicate Delivered(s: Session, e: FieldEvent) {
    if e.Focus? then !s.focused else s.focused
  }

  /**
   The browser delivers edits and blurs only to a focused field and focus only
   to an unfocused one; any other event is not delivered and changes nothing.
   A blur leaves the field unfocused unless the handler takes the focus back.
   */
  function SessionStep(s: Session, e: FieldEvent): (r: Session)
    ensures Delivered(s, e) ==> r.st == Apply(s.st, e)
    ensures !Delivered(s, e) ==> r == s
    ensures e.Blur? && s.focused ==> r.focused == HandleBlur(s.st).refocus
    ensures e.Focus? ==> r.focused
    ensures Valid(s.st) && (s.st.showErrorText ==> s.focused) ==>
              Valid(r.st) && (r.st.showErrorText ==> r.focused)
  {
    match e
    case Edit(v) => if s.focused then Session(HandleChange(s.st, v), true) else s
    case Blur =>
      if s.focused then
        var outcome := HandleBlur(s.st);
        Session(outcome.state, outcome.refocus)
      else s
    case Focus => if s.focused then s else Session(HandleFocus(s.st), true)
  }

  function SessionRun(s: Session, events: seq<FieldEvent>): Session
    decreases |events|
  {
    if events == [] then s else SessionRun(SessionStep(s, events[0]), events[1..])
  }

  /** The explanation is visible only while the field is in error and focused. */
  predicate HelpOnlyWhileFocused(s: Session) {
    Valid(s.st) && (s.st.showErrorText ==> s.focused)
  }

  lemma {:induction false} SessionKeepsHelpOnlyWhileFocused(s: Session, events: seq<FieldEvent>)
    requires HelpOnlyWhileFocused(s)
    ensures HelpOnlyWhileFocused(SessionRun(s, events))
    decreases |events|
  {
    if events != [] {
      SessionKeepsHelpOnlyWhileFocused(SessionStep(s, events[0]), events[1..]);
    }
  }

  /** From the unfocused initial field, every event sequence shows help only while focused. */
  lemma HelpShownOnlyWhileFocused(events: seq<FieldEvent>)
    ensures var s := SessionRun(Unfocused(), events);
            s.st.showErrorText ==> s.st.error && s.focused
  {
    SessionKeepsHelpOnlyWhileFocused(Unfocused(), events);
  }
}
