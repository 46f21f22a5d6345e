/**
 The debounce hook (`useDebounce`) as a discrete event system.

 The hook keeps one output value, initialised to the first value it observes.
 Whenever a render passes a `value` or `delay` different from the previous
 render's, the previous effect's cleanup clears its timer and the new effect
 schedules a timer that carries the current value; when a timer elapses it
 commits the value it carries. Unmounting runs the last cleanup.

 Time is left out: a timer elapsing is the explicit event `Fire(handle)`, and the
 delay is an opaque number whose only role is that changing it restarts the
 timer. Timers are kept as the list of scheduled, not yet cleared or elapsed
 timers, so that "at most one timer is pending" is a proved property rather than
 a property of the representation.
 */
module Debounce {

  /** A scheduled timer: its handle and the value its callback commits. */
  datatype Timer = Timer(handle: nat, carried: string)

  /**
   The hook's state: the dependencies of the last effect (`value`, `delay`), the
   output (`debouncedValue`), the pending timers, the handle the last effect's
   cleanup will clear, the next handle the environment hands out, and whether
   the owning component is still mounted.
   */
  datatype Hook = Hook(value: string, delay: nat, output: string, timers: seq<Timer>,
                       effectHandle: nat, nextHandle: nat, mounted: bool)

  /** What the environment does to the hook. */
  datatype HookEvent =
    | Change(value: string)    // a render passing a value
    | ChangeDelay(delay: nat)  // a render passing a delay
    | Fire(handle: nat)        // the timer with this handle elapses
    | Teardown                 // the owning component unmounts

  // ---------------------------------------------------------------------------
  // Timer bookkeeping.
  // ---------------------------------------------------------------------------

  /** `clearTimeout(h)`: drop the timer with handle h; nothing happens if there is none. */
  function Cancel(timers: seq<Timer>, h: nat): (r: seq<Timer>)
    ensures forall t :: t in r <==> t in timers && t.handle != h
    ensures |r| <= |timers|
  {
    if timers == [] then []
    else if timers[0].handle == h then Cancel(timers[1..], h)
    else [timers[0]] + Cancel(timers[1..], h)
  }

  /** Is a timer with handle h still pending? */
  predicate Pending(timers: seq<Timer>, h: nat) {
    exists t :: t in timers && t.handle == h
  }

  /** A pending timer with handle h. */
  function Find(timers: seq<Timer>, h: nat): (t: Timer)
    requires Pending(timers, h)
    ensures t in timers && t.handle == h
  {
    if timers[0].handle == h then timers[0] else Find(timers[1..], h)
  }

  // ---------------------------------------------------------------------------
  // The hook.
  // ---------------------------------------------------------------------------

  /**
   The hook's invariant: at most one timer is pending, it belongs to the last
   effect and carries the last value; an unmounted hook has none; and a mounted
   hook with no pending timer has already committed its value.
   */
  predicate Inv(st: Hook) {
    && st.effectHandle < st.nextHandle
    && (st.timers == [] || st.timers == [Timer(st.effectHandle, st.value)])
    && (!st.mounted ==> st.timers == [])
    && (st.mounted && st.timers == [] ==> st.output == st.value)
  }

  /**
   The first render: `useState(value)` sets the output to the first value, and
   the first effect schedules a timer carrying it.
   */
  function Mount(value: string, delay: nat): (st: Hook)
    ensures st.output == value && st.value == value && st.mounted
    ensures Inv(st) && |st.timers| == 1
  {
    Hook(value, delay, value, [Timer(0, value)], 0, 1, true)
  }

  /**
   A re-render passing (value, delay). When a dependency changed, the last
   effect's cleanup clears its timer and the new effect schedules a timer with
   a fresh handle that carries the new value. The output is not touched.
   */
  function Render(st: Hook, value: string, delay: nat): (r: Hook)
    ensures r.output == st.output && r.mounted == st.mounted
    ensures Inv(st) ==> Inv(r)
    ensures st.mounted && (value != st.value || delay != st.delay) ==>
              && r.value == value && r.delay == delay
              && (Inv(st) ==> r.timers == [Timer(r.effectHandle, value)])
              && (Inv(st) ==> forall t :: t in st.timers ==> t !in r.timers)
              && (Inv(st) ==> forall t :: t in st.timers ==> !Pending(r.timers, t.handle))
    ensures !st.mounted || (value == st.value && delay == st.delay) ==> r == st
  {
    if !st.mounted || (value == st.value && delay == st.delay) then st
    else
      var h := st.nextHandle;
      st.(value := value, delay := delay,
          timers := Cancel(st.timers, st.effectHandle) + [Timer(h, value)],
          effectHandle := h, nextHandle := h + 1)
  }

  /** One event. */
  function Step(st: Hook, e: HookEvent): (r: Hook)
    ensures Inv(st) ==> Inv(r)
    ensures r.output != st.output ==>
              e.Fire? && Pending(st.timers, e.handle) && r.output == Find(st.timers, e.handle).carried
    ensures e.Fire? && Pending(st.timers, e.handle) ==>
              r.output == Find(st.timers, e.handle).carried && !Pending(r.timers, e.handle)
    ensures e.Fire? ==> r.value == st.value && r.delay == st.delay && r.mounted == st.mounted
    ensures e.Fire? && !Pending(st.timers, e.handle) ==> r == st
    ensures e.Teardown? ==> !r.mounted && (Inv(st) ==> r.timers == [])
  {
    match e
    case Change(v) => Render(st, v, st.delay)
    case ChangeDelay(d) => Render(st, st.value, d)
    case Fire(h) =>
      if Pending(st.timers, h) then
        st.(output := Find(st.timers, h).carried, timers := Cancel(st.timers, h))
      else st
    case Teardown => st.(timers := Cancel(st.timers, st.effectHandle), mounted := false)
  }

  /** The hook after the events, in order. */
  function Run(st: Hook, events: seq<HookEvent>): Hook
    decreases |events|
  {
    if events == [] then st else Run(Step(st, events[0]), events[1..])
  }

  /** The hook as it is after the events that follow mounting it. */
  function Trace(value: string, delay: nat, events: seq<HookEvent>): Hook {
    Run(Mount(value, delay), events)
  }

  /** Quiescence: every pending timer elapses, oldest first. */
  function Settle(st: Hook): Hook
    decreases |st.timers|
  {
    if st.timers == [] then st
    else
      var next := Step(st, Fire(st.timers[0].handle));
      assert |next.timers| < |st.timers| by {
        assert st.timers[0] !in next.timers;
      }
      Settle(next)
  }

  /** The edits of a list of values, one render per value. */
  function Changes(values: seq<string>): seq<HookEvent>
    decreases |values|
  {
    if values == [] then [] else [Change(values[0])] + Changes(values[1..])
  }

  /** The value passed on the last render that passed one, or `first` if none did. */
  function LastChange(first: string, events: seq<HookEvent>): string
    decreases |events|
  {
    if events == [] then first
    else LastChange(if events[0].Change? then events[0].value else first, events[1..])
  }

  /** The values the input held: the first one and every value passed on a render. */
  function HeldValues(first: string, events: seq<HookEvent>): set<string> {
    {first} + set e | e in events && e.Change? :: e.value
  }

  // ---------------------------------------------------------------------------
  // Properties over event sequences.
  // ---------------------------------------------------------------------------

  lemma {:induction false} RunKeepsInv(st: Hook, events: seq<HookEvent>)
    requires Inv(st)
    ensures Inv(Run(st, events))
    decreases |events|
  {
    if events != [] {
      RunKeepsInv(Step(st, events[0]), events[1..]);
    }
  }

  /** At most one timer is ever pending. */
  lemma AtMostOnePending(value: string, delay: nat, events: seq<HookEvent>)
    ensures |Trace(value, delay, events).timers| <= 1
  {
    RunKeepsInv(Mount(value, delay), events);
  }

  /**
   Everything the hook holds (the dependency, the output, the pending timers'
   values) lies in H, provided every value passed on a render does.
   */
  predicate Within(st: Hook, H: set<string>) {
    st.value in H && st.output in H && forall t :: t in st.timers ==> t.carried in H
  }

  lemma {:induction false} RunStaysWithin(st: Hook, events: seq<HookEvent>, H: set<string>)
    requires Within(st, H)
    requires forall e :: e in events && e.Change? ==> e.value in H
    ensures Within(Run(st, events), H)
    decreases |events|
  {
    if events != [] {
      var next := Step(st, events[0]);
      assert Within(next, H) by {
        if events[0].Fire? && Pending(st.timers, events[0].handle) {
          assert Find(st.timers, events[0].handle) in st.timers;
        }
      }
      RunStaysWithin(next, events[1..], H);
    }
  }

  /** The output is always a value the input actually held. */
  lemma OutputWasHeld(value: string, delay: nat, events: seq<HookEvent>)
    ensures Trace(value, delay, events).output in HeldValues(value, events)
  {
    RunStaysWithin(Mount(value, delay), events, HeldValues(value, events));
  }

  /** Without a timer elapsing the output never changes. */
  lemma {:induction false} NoFireKeepsOutput(st: Hook, events: seq<HookEvent>)
    requires forall e :: e in events ==> !e.Fire?
    ensures Run(st, events).output == st.output
    decreases |events|
  {
    if events != [] {
      NoFireKeepsOutput(Step(st, events[0]), events[1..]);
    }
  }

  /** An unmounted hook ignores every later event: no commit can happen after teardown. */
  lemma {:induction false} UnmountedIsInert(st: Hook, events: seq<HookEvent>)
    requires Inv(st) && !st.mounted
    ensures Run(st, events) == st
    decreases |events|
  {
    if events != [] {
      assert Step(st, events[0]) == st;
      UnmountedIsInert(st, events[1..]);
    }
  }

  /** After teardown no timer is pending and the output is frozen. */
  lemma TeardownFreezesOutput(st: Hook, events: seq<HookEvent>)
    requires Inv(st)
    ensures Step(st, Teardown).timers == []
    ensures Run(Step(st, Teardown), events).output == st.output
  {
    UnmountedIsInert(Step(st, Teardown), events);
  }

  /** A mounted hook settles on its current value, with no timer left. */
  lemma SettleCommitsValue(st: Hook)
    requires Inv(st) && st.mounted
    ensures Settle(st).output == st.value && Settle(st).timers == []
  {
  }

  /** Rendering value after value leaves the hook mounted, with the last value as dependency. */
  lemma {:induction false} ChangesTrackValue(st: Hook, values: seq<string>)
    requires Inv(st) && st.mounted && |values| > 0
    ensures Inv(Run(st, Changes(values))) && Run(st, Changes(values)).mounted
    ensures Run(st, Changes(values)).value == values[|values| - 1]
    decreases |values|
  {
    var next := Step(st, Change(values[0]));
    if |values| > 1 {
      ChangesTrackValue(next, values[1..]);
    }
  }

  /** A burst of edits contains nothing but renders passing a value. */
  lemma {:induction false} ChangesAreRenders(values: seq<string>)
    ensures forall e :: e in Changes(values) ==> e.Change?
    decreases |values|
  {
    if values != [] {
      ChangesAreRenders(values[1..]);
    }
  }

  /**
   Debounce: after a burst of edits the output is still what it was (no
   intermediate value is committed), and once the pending timer elapses the
   output is the last value typed.
   */
  lemma {:induction false} BurstThenSettle(st: Hook, values: seq<string>)
    requires Inv(st) && st.mounted && |values| > 0
    ensures Run(st, Changes(values)).output == st.output
    ensures Settle(Run(st, Changes(values))).output == values[|values| - 1]
  {
    ChangesAreRenders(values);
    NoFireKeepsOutput(st, Changes(values));
    ChangesTrackValue(st, values);
    SettleCommitsValue(Run(st, Changes(values)));
  }

  /**
   "1", "12" and "123" typed in quick succession, then a pause: the output stays
   empty throughout the typing and then becomes "123".
   */
  lemma TypingExample()
    ensures var typed := Run(Mount("", 300), Changes(["1", "12", "123"]));
            && typed.output == ""
            && typed.timers == [Timer(3, "123")]
            && Settle(typed).output == "123"
  {
  }

  /**
   While the component stays mounted the hook's dependency is the last value
   passed on a render, whatever delay changes and timer firings come between.
   */
  lemma {:induction false} RunValueIsLastChange(st: Hook, events: seq<HookEvent>)
    requires st.mounted
    requires forall e :: e in events ==> !e.Teardown?
    ensures Run(st, events).mounted
    ensures Run(st, events).value == LastChange(st.value, events)
    decreases |events|
  {
    if events != [] {
      RunValueIsLastChange(Step(st, events[0]), events[1..]);
    }
  }

  /**
   Settling: after any events that do not unmount the component, once the
   pending timer elapses the output is the last value passed on a render.
   */
  lemma SettleAfterAnyTrace(value: string, delay: nat, events: seq<HookEvent>)
    requires forall e :: e in events ==> !e.Teardown?
    ensures Settle(Trace(value, delay, events)).output == LastChange(value, events)
    ensures Settle(Trace(value, delay, events)).timers == []
  {
    RunKeepsInv(Mount(value, delay), events);
    RunValueIsLastChange(Mount(value, delay), events);
    SettleCommitsValue(Trace(value, delay, events));
  }
}
