/**
 * The stopwatch: elapsed milliseconds, a running flag and a single-shot
 * "target reached" flag. While running, a 10 ms interval advances the time;
 * the tick that first brings the time to 10 minutes requests a beep and
 * sets the flag; Start/Pause flips the running flag; Reset clears all three.
 *
 * The module gives the behaviour twice: as pure functions on a `State`
 * value (the specification, about which the lemmas are proved) and as the
 * class `Stopwatch`, whose fields the handlers update in place and whose
 * methods are proved against those functions.
 */
module StopwatchMachine {

  /** The interval period, which is also what each tick adds. */
  const TickMs: nat := 10
  /** Ten minutes: the hard-coded target. */
  const TargetMs: nat := 600000

  datatype State = State(time: nat, isRunning: bool, hasNotified: bool)

  /** The state at mount. */
  const Initial: State := State(0, false, false)

  /** A state after one step, and whether that step requested a beep. */
  datatype Step = Step(next: State, beep: bool)

  /** A state after many steps, and how many beeps they requested. */
  datatype Trace = Trace(final: State, beeps: nat)

  /** The user and timer events the component reacts to. */
  datatype Event = Tick | StartPausePressed | ResetPressed

  // ---------------------------------------------------------------------
  // The operations, as functions of the state
  // ---------------------------------------------------------------------

  /** One interval period. The interval exists only while running, so a
      paused stopwatch does not change; otherwise the callback adds 10 ms and
      requests the beep iff the new time reached the target and no beep has
      been requested since the last reset. */
  function TickStep(s: State): Step {
    if !s.isRunning then Step(s, false)
    else
      var newTime := s.time + TickMs;
      var fire := newTime >= TargetMs && !s.hasNotified;
      Step(State(newTime, true, if fire then true else s.hasNotified), fire)
  }

  function StartPause(s: State): State {
    s.(isRunning := !s.isRunning)
  }

  function Reset(s: State): State {
    State(0, false, false)
  }

  predicate AtTarget(s: State) {
    s.time >= TargetMs
  }

  function Apply(s: State, e: Event): Step {
    match e
    case Tick => TickStep(s)
    case StartPausePressed => Step(StartPause(s), false)
    case ResetPressed => Step(Reset(s), false)
  }

  /** The state after `n` interval periods, and the beeps requested meanwhile. */
  function RunTicks(s: State, n: nat): Trace
    decreases n
  {
    if n == 0 then Trace(s, 0)
    else
      var t := RunTicks(s, n - 1);
      var st := TickStep(t.final);
      Trace(st.next, t.beeps + (if st.beep then 1 else 0))
  }

  /** The state after a sequence of events, and the beeps requested meanwhile. */
  function Replay(s: State, evs: seq<Event>): Trace
    decreases |evs|
  {
    if evs == [] then Trace(s, 0)
    else
      var st := Apply(s, evs[0]);
      var t := Replay(st.next, evs[1..]);
      Trace(t.final, t.beeps + (if st.beep then 1 else 0))
  }

  predicate NoReset(evs: seq<Event>) {
    forall i :: 0 <= i < |evs| ==> evs[i] != ResetPressed
  }

  /** What holds of every state reachable from `Initial`: the time is a whole
      number of ticks, and the flag is set exactly when the target is reached. */
  predicate Inv(s: State) {
    s.time % TickMs == 0 && (s.hasNotified <==> s.time >= TargetMs)
  }

  // ---------------------------------------------------------------------
  // One step
  // ---------------------------------------------------------------------

  /** A tick adds exactly 10 ms while running and freezes the time while paused;
      it never stops or starts the stopwatch. */
  lemma TickAdvancesTime(s: State)
    ensures TickStep(s).next.time == if s.isRunning then s.time + TickMs else s.time
    ensures TickStep(s).next.time >= s.time
    ensures TickStep(s).next.isRunning == s.isRunning
    ensures !s.isRunning ==> TickStep(s) == Step(s, false)
  {
  }

  /** A beep is requested only by a running tick that reaches the target with
      the flag still clear, and that tick sets the flag; a set flag stays set
      and silences the tick. */
  lemma TickNotification(s: State)
    ensures TickStep(s).beep <==> s.isRunning && !s.hasNotified && s.time + TickMs >= TargetMs
    ensures TickStep(s).beep ==> TickStep(s).next.hasNotified
    ensures s.hasNotified ==> TickStep(s).next.hasNotified && !TickStep(s).beep
    ensures TickStep(s).next.hasNotified <==> s.hasNotified || TickStep(s).beep
  {
  }

  /** Start/Pause flips the running flag and nothing else; pressing it twice
      restores the state. */
  lemma StartPauseFlips(s: State)
    ensures StartPause(s).isRunning == !s.isRunning
    ensures StartPause(s).time == s.time && StartPause(s).hasNotified == s.hasNotified
    ensures StartPause(StartPause(s)) == s
  {
  }

  /** Reset stops, zeroes and re-arms the notification, whatever the state;
      resetting twice is resetting once. */
  lemma ResetClears(s: State)
    ensures Reset(s) == Initial
    ensures !Reset(s).isRunning && Reset(s).time == 0 && !Reset(s).hasNotified
    ensures Reset(Reset(s)) == Reset(s)
  {
  }

  lemma InitialInv()
    ensures Inv(Initial)
  {
  }

  /** Every event keeps the invariant. */
  lemma ApplyPreservesInv(s: State, e: Event)
    requires Inv(s)
    ensures Inv(Apply(s, e).next)
  {
    if e == Tick && s.isRunning && !s.hasNotified {
      assert s.time <= TargetMs - TickMs;
    }
  }

  /** Because the time moves in whole ticks, the beep is requested exactly when
      the time reaches 600000 ms, never later. */
  lemma BeepExactlyAtTarget(s: State)
    requires Inv(s)
    ensures TickStep(s).beep ==> TickStep(s).next.time == TargetMs
  {
    if TickStep(s).beep {
      assert s.time <= TargetMs - TickMs;
    }
  }

  /** Reached states are at the target exactly when the beep has been requested. */
  lemma AtTargetIffNotified(s: State)
    requires Inv(s)
    ensures AtTarget(s) <==> s.hasNotified
  {
  }

  // ---------------------------------------------------------------------
  // Many ticks
  // ---------------------------------------------------------------------

  /** A paused stopwatch stays exactly as it is however long it waits. */
  lemma {:induction false} RunTicksPaused(s: State, n: nat)
    requires !s.isRunning
    ensures RunTicks(s, n) == Trace(s, 0)
    decreases n
  {
    if n > 0 {
      RunTicksPaused(s, n - 1);
    }
  }

  /** Pausing a running stopwatch freezes its time at the value it had. */
  lemma PauseFreezes(s: State, n: nat)
    requires s.isRunning
    ensures RunTicks(StartPause(s), n).final.time == s.time
    ensures RunTicks(StartPause(s), n).beeps == 0
  {
    RunTicksPaused(StartPause(s), n);
  }

  /** A running stopwatch gains exactly 10 ms per tick and keeps running, so
      its time never decreases. */
  lemma {:induction false} RunTicksRunning(s: State, n: nat)
    requires s.isRunning
    ensures RunTicks(s, n).final.time == s.time + TickMs * n
    ensures RunTicks(s, n).final.isRunning
    decreases n
  {
    if n > 0 {
      RunTicksRunning(s, n - 1);
    }
  }

  /** However many ticks pass, at most one beep is requested, none once the flag
      is set, and one exactly when the flag goes from clear to set. */
  lemma {:induction false} RunTicksAtMostOnce(s: State, n: nat)
    ensures RunTicks(s, n).beeps <= 1
    ensures s.hasNotified ==> RunTicks(s, n).final.hasNotified && RunTicks(s, n).beeps == 0
    ensures RunTicks(s, n).beeps == 1 <==> !s.hasNotified && RunTicks(s, n).final.hasNotified
    decreases n
  {
    if n > 0 {
      RunTicksAtMostOnce(s, n - 1);
    }
  }

  /** From a reached running state, `n` ticks land on the time `s.time + 10n`,
      set the flag iff that time reaches the target, and beep iff the flag was
      clear before. */
  lemma {:induction false} RunTicksFromReachable(s: State, n: nat)
    requires Inv(s) && s.isRunning
    ensures Inv(RunTicks(s, n).final)
    ensures RunTicks(s, n).final
         == State(s.time + TickMs * n, true, s.time + TickMs * n >= TargetMs)
    ensures RunTicks(s, n).beeps
         == if !s.hasNotified && s.time + TickMs * n >= TargetMs then 1 else 0
    decreases n
  {
    if n > 0 {
      RunTicksFromReachable(s, n - 1);
      ApplyPreservesInv(RunTicks(s, n - 1).final, Tick);
    }
  }

  /** Start from reset, press Start and let 10 minutes pass in 10 ms ticks:
      no beep in the first 59999 ticks, exactly one on the 60000th, at
      600000 ms. */
  lemma TenMinuteScenario(s: State)
    ensures RunTicks(StartPause(Reset(s)), 59999).beeps == 0
    ensures RunTicks(StartPause(Reset(s)), 59999).final.time == TargetMs - TickMs
    ensures RunTicks(StartPause(Reset(s)), 60000).beeps == 1
    ensures RunTicks(StartPause(Reset(s)), 60000).final.time == TargetMs
  {
    RunTicksFromReachable(StartPause(Reset(s)), 59999);
    RunTicksFromReachable(StartPause(Reset(s)), 60000);
  }

  // ---------------------------------------------------------------------
  // Event sequences
  // ---------------------------------------------------------------------

  /** Every sequence of events keeps the invariant. */
  lemma {:induction false} ReplayPreservesInv(s: State, evs: seq<Event>)
    requires Inv(s)
    ensures Inv(Replay(s, evs).final)
    decreases |evs|
  {
    if evs != [] {
      ApplyPreservesInv(s, evs[0]);
      ReplayPreservesInv(Apply(s, evs[0]).next, evs[1..]);
    }
  }

  /** Without a reset, the time never goes back and a set flag stays set. */
  lemma {:induction false} NoResetMonotone(s: State, evs: seq<Event>)
    requires NoReset(evs)
    ensures Replay(s, evs).final.time >= s.time
    ensures s.hasNotified ==> Replay(s, evs).final.hasNotified
    decreases |evs|
  {
    if evs != [] {
      assert evs[0] != ResetPressed;
      NoResetTail(evs);
      NoResetMonotone(Apply(s, evs[0]).next, evs[1..]);
    }
  }

  lemma NoResetTail(evs: seq<Event>)
    requires evs != [] && NoReset(evs)
    ensures NoReset(evs[1..])
  {
    forall i | 0 <= i < |evs[1..]| ensures evs[1..][i] != ResetPressed {
      assert evs[1..][i] == evs[i + 1];
    }
  }

  /** Between two resets at most one beep is requested: only a reset clears the
      flag, and a beep is requested only when the flag goes from clear to set. */
  lemma {:induction false} AtMostOneBeepBetweenResets(s: State, evs: seq<Event>)
    requires NoReset(evs)
    ensures Replay(s, evs).beeps <= 1
    ensures s.hasNotified ==> Replay(s, evs).final.hasNotified && Replay(s, evs).beeps == 0
    ensures Replay(s, evs).beeps == 1 <==> !s.hasNotified && Replay(s, evs).final.hasNotified
    decreases |evs|
  {
    if evs != [] {
      assert evs[0] != ResetPressed;
      NoResetTail(evs);
      AtMostOneBeepBetweenResets(Apply(s, evs[0]).next, evs[1..]);
    }
  }

  /** The number of resets in an event sequence. */
  function Resets(evs: seq<Event>): nat
    decreases |evs|
  {
    if evs == [] then 0 else (if evs[0] == ResetPressed then 1 else 0) + Resets(evs[1..])
  }

  /** Over any sequence of events, each reset re-arms at most one beep: the
      beeps requested are at most the resets, plus one if the flag was clear
      at the start. */
  lemma {:induction false} BeepsBoundedByResets(s: State, evs: seq<Event>)
    ensures Replay(s, evs).beeps <= Resets(evs) + (if s.hasNotified then 0 else 1)
    decreases |evs|
  {
    if evs != [] {
      BeepsBoundedByResets(Apply(s, evs[0]).next, evs[1..]);
    }
  }

  // ---------------------------------------------------------------------
  // The component's state, updated in place
  // ---------------------------------------------------------------------

  class Stopwatch {
    var time: nat
    var isRunning: bool
    var hasNotified: bool
    /** How many times a beep has been requested since mount. */
    var beepRequests: nat
    /** The value of `beepRequests` at the last reset (or at mount). */
    ghost var beepsAtLastReset: nat

    function Snapshot(): State
      reads this
    {
      State(time, isRunning, hasNotified)
    }

    /** The reachable states, and "at most one beep since the last reset". */
    ghost predicate Valid()
      reads this
    {
      Inv(Snapshot()) &&
      beepRequests == beepsAtLastReset + (if hasNotified then 1 else 0)
    }

    constructor ()
      ensures Valid()
      ensures Snapshot() == Initial && beepRequests == 0
    {
      time, isRunning, hasNotified := 0, false, false;
      beepRequests, beepsAtLastReset := 0, 0;
    }

    /** One interval period; returns whether the beep was requested. */
    method Tick() returns (beep: bool)
      requires Valid()
      modifies this
      ensures Valid()
      ensures Step(Snapshot(), beep) == TickStep(old(Snapshot()))
      ensures beepRequests == old(beepRequests) + (if beep then 1 else 0)
      ensures beepsAtLastReset == old(beepsAtLastReset)
      ensures beepRequests - beepsAtLastReset <= 1
    {
      ApplyPreservesInv(Snapshot(), Event.Tick);
      beep := false;
      if isRunning {
        var newTime := time + TickMs;
        if newTime >= TargetMs && !hasNotified {
          beep := true;
          beepRequests := beepRequests + 1;
          hasNotified := true;
        }
        time := newTime;
      }
    }

    method HandleStartPause()
      requires Valid()
      modifies this
      ensures Valid()
      ensures Snapshot() == StartPause(old(Snapshot()))
      ensures beepRequests == old(beepRequests) && beepsAtLastReset == old(beepsAtLastReset)
    {
      isRunning := !isRunning;
    }

    method HandleReset()
      requires Valid()
      modifies this
      ensures Valid()
      ensures Snapshot() == Reset(old(Snapshot()))
      ensures beepRequests == old(beepRequests) && beepsAtLastReset == beepRequests
    {
      isRunning := false;
      time := 0;
      hasNotified := false;
      beepsAtLastReset := beepRequests;
    }

    /** Whether the display shows the target as reached. */
    function IsAtTarget(): (r: bool)
      reads this
      ensures r <==> AtTarget(Snapshot())
      ensures Valid() ==> (r <==> hasNotified)
    {
      time >= TargetMs
    }

    /** `n` interval periods in a row; returns the beeps requested. */
    method Run(n: nat) returns (fired: nat)
      requires Valid()
      modifies this
      ensures Valid()
      ensures Trace(Snapshot(), fired) == RunTicks(old(Snapshot()), n)
      ensures beepRequests == old(beepRequests) + fired
      ensures beepsAtLastReset == old(beepsAtLastReset)
      ensures fired <= 1
    {
      fired := 0;
      var i := 0;
      while i < n
        invariant 0 <= i <= n
        invariant Valid()
        invariant Trace(Snapshot(), fired) == RunTicks(old(Snapshot()), i)
        invariant beepRequests == old(beepRequests) + fired
        invariant beepsAtLastReset == old(beepsAtLastReset)
      {
        var beep := Tick();
        if beep {
          fired := fired + 1;
        }
        i := i + 1;
      }
      RunTicksAtMostOnce(old(Snapshot()), n);
    }
  }
}
