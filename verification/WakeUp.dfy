/**
 The event protocol of `Shell`: the driver's callback and the shell's own thread share a semaphore and a state flag.
 Each step below is one access to the shared state, and steps of both sides interleave freely.
 */
module ShellWakeUp {
  const RX_BUFFER := 32

  datatype Flag = IDLE | EXEC | STOP

  /** Where the shell's thread is. */
  datatype Place =
    | Waiting    // at the wait on the semaphore
    | Testing    // at the test of the inner loop
    | Reading    // at the read of the terminal
    | Handling   // in the loop over one buffer
    | Executing  // in a command
    | Returned   // the command is back, the flag not yet examined
    | Restoring  // the flag was not STOP and is about to become IDLE
    | Looping    // at the test of the outer loop
    | Done

  /**
   `unread` bytes have arrived and were not read. Of the callbacks, `arrived` have not begun, `counted` saw that bytes
   were available, `sawIdle` saw the flag IDLE and are about to post, `sawBusy` saw another flag and are about to pass
   the event on.
   */
  datatype State = State(place: Place, flag: Flag, semaphore: nat, unread: nat,
                         arrived: nat, counted: nat, sawIdle: nat, sawBusy: nat)

  datatype Step =
    | Arrive(bytes: nat)
    | CallbackCounts
    | CallbackLooks
    | CallbackPosts
    | CallbackPassesOn
    | Wake
    | Test
    | Read(bytes: nat)
    | Edit
    | EndBuffer
    | Terminate
    | Execute
    | CommandReads(bytes: nat)
    | CommandSignals
    | CommandReturns
    | Examine
    | Restore
    | Loop

  predicate Enabled(s: State, step: Step) {
    match step
    case Arrive(n) => n > 0
    case CallbackCounts => s.arrived > 0
    case CallbackLooks => s.counted > 0
    case CallbackPosts => s.sawIdle > 0
    case CallbackPassesOn => s.sawBusy > 0
    case Wake => s.place == Waiting && s.semaphore > 0
    case Test => s.place == Testing
    case Read(n) => s.place == Reading && n <= s.unread && n <= RX_BUFFER && (n == 0 ==> s.unread == 0)
    case Edit => s.place == Handling
    case EndBuffer => s.place == Handling
    case Terminate => s.place == Handling
    case Execute => s.place == Handling
    case CommandReads(n) => s.place == Executing && n <= s.unread
    case CommandSignals => s.place == Executing
    case CommandReturns => s.place == Executing
    case Examine => s.place == Returned
    case Restore => s.place == Restoring
    case Loop => s.place == Looping
  }

  function Effect(s: State, step: Step): State
    requires Enabled(s, step)
  {
    match step
    case Arrive(n) => s.(unread := s.unread + n, arrived := s.arrived + 1)
    case CallbackCounts => s.(arrived := s.arrived - 1, counted := if s.unread > 0 then s.counted + 1 else s.counted)
    case CallbackLooks =>
      if s.flag == IDLE then s.(counted := s.counted - 1, sawIdle := s.sawIdle + 1)
      else s.(counted := s.counted - 1, sawBusy := s.sawBusy + 1)
    case CallbackPosts => s.(sawIdle := s.sawIdle - 1, semaphore := s.semaphore + 1)
    case CallbackPassesOn => s.(sawBusy := s.sawBusy - 1)
    case Wake => s.(semaphore := s.semaphore - 1, place := Testing)
    case Test => s.(place := if s.flag != STOP then Reading else Looping)
    case Read(n) => s.(unread := s.unread - n, place := if n > 0 then Handling else Looping)
    case Edit => s
    case EndBuffer => s.(place := Testing)
    case Terminate => s.(flag := STOP, place := Testing)
    case Execute => s.(flag := EXEC, place := Executing)
    case CommandReads(n) => s.(unread := s.unread - n)
    case CommandSignals => s.(flag := STOP)
    case CommandReturns => s.(place := Returned)
    case Examine => s.(place := if s.flag != STOP then Restoring else Testing)
    case Restore => s.(flag := IDLE, place := Handling)
    case Loop => s.(place := if s.flag != STOP then Waiting else Done)
  }

  /** A run: every step is enabled where it is taken. */
  predicate IsRun(s: State, steps: seq<Step>)
    decreases |steps|
  {
    steps == [] || (Enabled(s, steps[0]) && IsRun(Effect(s, steps[0]), steps[1..]))
  }

  function After(s: State, steps: seq<Step>): State
    requires IsRun(s, steps)
    decreases |steps|
  {
    if steps == [] then s else After(Effect(s, steps[0]), steps[1..])
  }

  /** The shell waits, with no unread input and no callback under way; a script posts once beforehand. */
  predicate Initial(s: State) {
    s.place == Waiting && s.flag == IDLE && s.unread == 0 && s.arrived == s.counted == s.sawIdle == s.sawBusy == 0
  }

  predicate InEvaluate(p: Place) {
    p == Executing || p == Returned || p == Restoring
  }

  /** A thread that has seen the terminal empty and is on its way to wait, or waits. */
  predicate Parked(s: State) {
    s.place == Waiting || (s.place == Looping && s.flag != STOP)
  }

  /** Something will still wake the shell: a post, or a callback that will post. */
  predicate WillWake(s: State) {
    s.semaphore > 0 || s.sawIdle > 0 || s.counted > 0 || s.arrived > 0
  }

  predicate Invariant(s: State) {
    && (s.flag == EXEC ==> InEvaluate(s.place))
    && (s.place == Restoring ==> s.flag == EXEC)
    && (s.flag == IDLE ==> !InEvaluate(s.place))
    && (s.place == Waiting || s.place == Reading || s.place == Handling ==> s.flag == IDLE)
    && (s.place == Done ==> s.flag == STOP)
    && (Parked(s) && s.unread > 0 ==> WillWake(s))
  }

  lemma StepKeepsInvariant(s: State, step: Step)
    requires Invariant(s) && Enabled(s, step)
    ensures Invariant(Effect(s, step))
  {
  }

  lemma {:induction false} RunKeepsInvariant(s: State, steps: seq<Step>)
    requires Invariant(s) && IsRun(s, steps)
    ensures Invariant(After(s, steps))
    decreases |steps|
  {
    if steps != [] {
      StepKeepsInvariant(s, steps[0]);
      RunKeepsInvariant(Effect(s, steps[0]), steps[1..]);
    }
  }

  /**
   No wake-up is lost: after any interleaving, a shell that waits although bytes are unread has been posted, or will be
   by a callback that is still to run. The flag is EXEC only inside `evaluate`, and a shell that stopped was told to.
   */
  lemma NoLostWakeUp(s: State, steps: seq<Step>)
    requires Initial(s) && IsRun(s, steps)
    ensures var t := After(s, steps);
            && (t.place == Waiting && t.unread > 0 ==> WillWake(t))
            && (t.flag == EXEC ==> InEvaluate(t.place))
            && (t.place == Done ==> t.flag == STOP)
  {
    RunKeepsInvariant(s, steps);
  }

  /** A callback posts if and only if it found the shell idle, and each post wakes the shell once. */
  lemma PostsAreFromIdle(s: State)
    requires s.counted > 0
    ensures var t := Effect(s, CallbackLooks);
            t.counted == s.counted - 1 && t.semaphore == s.semaphore
            && t.sawIdle == (if s.flag == IDLE then s.sawIdle + 1 else s.sawIdle)
            && t.sawBusy == (if s.flag == IDLE then s.sawBusy else s.sawBusy + 1)
  {
  }

  function Count(steps: seq<Step>, which: Step): nat {
    if steps == [] then 0 else (if steps[0] == which then 1 else 0) + Count(steps[1..], which)
  }

  /** Over any run the posts are those that were there, and those of the callbacks, less the wake-ups. */
  lemma {:induction false} PostsAreConserved(s: State, steps: seq<Step>)
    requires IsRun(s, steps)
    ensures After(s, steps).semaphore + Count(steps, Wake) == s.semaphore + Count(steps, CallbackPosts)
    decreases |steps|
  {
    if steps != [] {
      PostsAreConserved(Effect(s, steps[0]), steps[1..]);
    }
  }

  /** Callbacks that run while the shell waits. */
  predicate IsCallback(step: Step) {
    step.CallbackCounts? || step.CallbackLooks? || step.CallbackPosts? || step.CallbackPassesOn?
  }

  /** How much the pending callbacks still have to do. */
  function Pending(s: State): nat {
    3 * s.arrived + 2 * s.counted + s.sawIdle + s.sawBusy
  }

  /** Left to run, the pending callbacks finish, and then a shell that waits with unread bytes can wake. */
  lemma {:induction false} CallbacksWake(s: State) returns (steps: seq<Step>)
    requires Invariant(s) && s.place == Waiting && s.unread > 0
    ensures IsRun(s, steps) && forall i | 0 <= i < |steps| :: IsCallback(steps[i])
    ensures Pending(After(s, steps)) == 0 && Enabled(After(s, steps), Wake)
    decreases Pending(s)
  {
    if Pending(s) == 0 {
      steps := [];
    } else {
      var step :=
        if s.sawIdle > 0 then CallbackPosts else if s.sawBusy > 0 then CallbackPassesOn
        else if s.counted > 0 then CallbackLooks else CallbackCounts;
      StepKeepsInvariant(s, step);
      var rest := CallbacksWake(Effect(s, step));
      steps := [step] + rest;
      assert steps[1..] == rest;
    }
  }
}

/** The same for `DataReader`: its callback posts only when the semaphore is at most 0, and a poll drains the input. */
module CopyWakeUp {
  const RX_BUFFER := 16

  datatype Place =
    | Copying    // between drains: reads and writes blocks
    | Trying     // at the try of the semaphore
    | Draining   // in the loop that reads the input
    | Stopped    // 0x03 was read

  /** `counted` callbacks saw that bytes were available, `sawEmpty` saw the semaphore at 0 and are about to post. */
  datatype State = State(place: Place, semaphore: nat, unread: nat, arrived: nat, counted: nat, sawEmpty: nat)

  datatype Step =
    | Arrive(bytes: nat)
    | CallbackCounts
    | CallbackLooks
    | CallbackPosts
    | Poll
    | Try
    | Drain(bytes: nat, found: bool)

  predicate Enabled(s: State, step: Step) {
    match step
    case Arrive(n) => n > 0
    case CallbackCounts => s.arrived > 0
    case CallbackLooks => s.counted > 0
    case CallbackPosts => s.sawEmpty > 0
    case Poll => s.place == Copying
    case Try => s.place == Trying
    case Drain(n, found) =>
      s.place == Draining && n <= s.unread && n <= RX_BUFFER && (n == 0 ==> s.unread == 0 && !found)
  }

  function Effect(s: State, step: Step): State
    requires Enabled(s, step)
  {
    match step
    case Arrive(n) => s.(unread := s.unread + n, arrived := s.arrived + 1)
    case CallbackCounts => s.(arrived := s.arrived - 1, counted := if s.unread > 0 then s.counted + 1 else s.counted)
    case CallbackLooks =>
      if s.semaphore <= 0 then s.(counted := s.counted - 1, sawEmpty := s.sawEmpty + 1)
      else s.(counted := s.counted - 1)
    case CallbackPosts => s.(sawEmpty := s.sawEmpty - 1, semaphore := s.semaphore + 1)
    case Poll => s.(place := Trying)
    case Try => if s.semaphore > 0 then s.(semaphore := s.semaphore - 1, place := Draining) else s.(place := Copying)
    case Drain(n, found) =>
      s.(unread := s.unread - n, place := if found then Stopped else if n > 0 then Draining else Trying)
  }

  predicate IsRun(s: State, steps: seq<Step>)
    decreases |steps|
  {
    steps == [] || (Enabled(s, steps[0]) && IsRun(Effect(s, steps[0]), steps[1..]))
  }

  function After(s: State, steps: seq<Step>): State
    requires IsRun(s, steps)
    decreases |steps|
  {
    if steps == [] then s else After(Effect(s, steps[0]), steps[1..])
  }

  predicate Initial(s: State) {
    s == State(Copying, 0, 0, 0, 0, 0)
  }

  predicate BetweenDrains(s: State) {
    s.place == Copying || s.place == Trying
  }

  /** A post, or a callback that is still to begin, to look or to post. */
  predicate WillWake(s: State) {
    s.semaphore > 0 || s.arrived > 0 || s.counted > 0 || s.sawEmpty > 0
  }

  /** Between drains, unread bytes have a post or a callback to come. */
  predicate Invariant(s: State) {
    BetweenDrains(s) && s.unread > 0 ==> WillWake(s)
  }

  lemma {:induction false} NoLostPoll(s: State, steps: seq<Step>)
    requires Invariant(s) && IsRun(s, steps)
    ensures Invariant(After(s, steps))
    decreases |steps|
  {
    if steps != [] {
      NoLostPoll(Effect(s, steps[0]), steps[1..]);
    }
  }

  /** The invariant is exactly what has to hold at the start: every run keeps it if and only if it holds there. */
  lemma KeptWhen(s: State)
    ensures (forall steps | IsRun(s, steps) :: Invariant(After(s, steps))) <==> Invariant(s)
  {
    assert IsRun(s, []) && After(s, []) == s;
    if Invariant(s) {
      forall steps | IsRun(s, steps)
        ensures Invariant(After(s, steps))
      {
        NoLostPoll(s, steps);
      }
    }
  }

  /**
   A poll that finds the semaphore at 0 while no callback is under way has nothing to miss: after any interleaving from
   a start without input, no byte is unread then.
   */
  lemma QuietPollMissesNothing(s: State, steps: seq<Step>)
    requires Initial(s) && IsRun(s, steps)
    ensures var t := After(s, steps); BetweenDrains(t) && !WillWake(t) ==> t.unread == 0
  {
    NoLostPoll(s, steps);
  }

  /** Callbacks that come one at a time never leave more than one post. */
  predicate OneAtATime(s: State) {
    s.counted + s.sawEmpty <= 1
  }

  ghost predicate AlwaysOne(s: State, steps: seq<Step>)
    requires IsRun(s, steps)
    decreases |steps|
  {
    OneAtATime(s) && (steps == [] || AlwaysOne(Effect(s, steps[0]), steps[1..]))
  }

  lemma {:induction false} AtMostOnePost(s: State, steps: seq<Step>)
    requires IsRun(s, steps) && AlwaysOne(s, steps) && s.semaphore + s.sawEmpty <= 1
    ensures After(s, steps).semaphore + After(s, steps).sawEmpty <= 1
    decreases |steps|
  {
    if steps != [] {
      AtMostOnePost(Effect(s, steps[0]), steps[1..]);
    }
  }

  predicate NothingArrives(steps: seq<Step>) {
    forall i | 0 <= i < |steps| :: !steps[i].Arrive?
  }

  /**
   Between drains, with no post and no callback, the loop never learns of the bytes that are unread: until others
   arrive, every run leaves them, never drains and never stops.
   */
  lemma {:induction false} UnreadAtStartIsMissed(s: State, steps: seq<Step>)
    requires BetweenDrains(s) && !WillWake(s) && IsRun(s, steps) && NothingArrives(steps)
    ensures var t := After(s, steps); t == s.(place := t.place) && BetweenDrains(t)
    decreases |steps|
  {
    if steps != [] {
      assert !steps[0].Arrive?;
      forall i | 0 <= i < |steps[1..]|
        ensures !steps[1..][i].Arrive?
      {
        assert steps[1..][i] == steps[i + 1];
      }
      UnreadAtStartIsMissed(Effect(s, steps[0]), steps[1..]);
    }
  }
}
