/** What one call of the phase step does, and what repeated calls do.
    A run applies the step once per reference instant, in order, the way a
    caller that re-reads a task again and again would. */
module TaskCycle {
  import opened Wrappers
  import opened Tasks

  /** The phase table: the phase a due task moves to from `s`. WORK has no
      way out when the task does not sleep. */
  function CycleSuccessor(s: TaskState, sleep: bool): TaskState {
    match s
    case Disable => Start
    case Start => Work
    case Work => if sleep then Sleep else Work
    case Sleep => Start
  }

  /** A move of at most one phase along the table. */
  predicate CycleMove(from: TaskState, to: TaskState, sleep: bool) {
    to == from || to == CycleSuccessor(from, sleep)
  }

  /** Every phase in `states` is at most one move from the one before,
      starting from `prev`. */
  predicate FollowsCycle(prev: TaskState, states: seq<TaskState>, sleep: bool)
    decreases |states|
  {
    states == [] ||
    (CycleMove(prev, states[0], sleep) && FollowsCycle(states[0], states[1..], sleep))
  }

  /** Non-negative intervals, so that no step moves `time` backwards. */
  predicate NonNegativeIntervals(r: TaskRow)
    requires WellFormed(r)
  {
    r.workInterval.value >= 0 && (r.sleep ==> r.sleepInterval.value >= 0)
  }

  // ---------------------------------------------------------------------
  // One call

  /** A null `time` behaves exactly as `time == startTime`. */
  lemma StepDefaultsNullTime(r: TaskRow, current: int)
    requires StepDefined(r, current) && r.time.None?
    ensures StepDefined(r.(time := Some(r.startTime)), current)
    ensures StepAfter(r, current) == StepAfter(r.(time := Some(r.startTime)), current)
  {
  }

  /** A task whose `time` is after `current` keeps its `time` and phase,
      except that an inactive task is forced to DISABLE. */
  lemma StepNotDue(r: TaskRow, current: int)
    requires DueTime(r) > current
    ensures StepDefined(r, current)
    ensures StepAfter(r, current).time == Some(DueTime(r))
    ensures StepAfter(r, current).taskState == if r.active then r.taskState else Disable
  {
  }

  /** An inactive task that is due is forced to DISABLE and then stepped to
      START in the same call, with `time` unchanged. */
  lemma StepInactiveDue(r: TaskRow, current: int)
    requires !r.active && IsDue(r, current)
    ensures StepDefined(r, current)
    ensures StepAfter(r, current).taskState == Start
    ensures StepAfter(r, current).time == Some(DueTime(r))
  {
  }

  /** Exactly one move along the phase table per call when due, none when
      not due. */
  lemma StepFollowsTable(r: TaskRow, current: int)
    requires StepDefined(r, current)
    ensures StepAfter(r, current).taskState ==
      if IsDue(r, current) then CycleSuccessor(EntryState(r), r.sleep) else EntryState(r)
  {
  }

  /** How far a due step moves `time`: by `workInterval` minutes on leaving
      START, by `sleepInterval` minutes on leaving WORK for SLEEP, and not at
      all otherwise. */
  lemma StepDueTime(r: TaskRow, current: int)
    requires StepDefined(r, current) && IsDue(r, current)
    ensures EntryState(r) == Start ==>
      StepAfter(r, current).time == Some(DueTime(r) + 60 * r.workInterval.value)
    ensures EntryState(r) == Work && r.sleep ==>
      StepAfter(r, current).time == Some(DueTime(r) + 60 * r.sleepInterval.value)
    ensures EntryState(r) in {Disable, Sleep} || (EntryState(r) == Work && !r.sleep) ==>
      StepAfter(r, current).time == Some(DueTime(r))
  {
  }

  /** With non-negative intervals the new `time` is never before the old
      (or defaulted) one. */
  lemma StepTimeMonotone(r: TaskRow, current: int)
    requires WellFormed(r) && NonNegativeIntervals(r)
    ensures StepDefined(r, current)
    ensures DueTime(StepAfter(r, current)) >= DueTime(r)
  {
  }

  // ---------------------------------------------------------------------
  // Repeated calls

  /** The task after one call per instant of `nows`, in order. */
  function Run(r: TaskRow, nows: seq<int>): (r': TaskRow)
    requires WellFormed(r)
    ensures WellFormed(r')
    ensures r' == r.(time := r'.time, taskState := r'.taskState)
    decreases |nows|
  {
    if nows == [] then r
    else
      WellFormedStepDefined(r, nows[0]);
      Run(StepAfter(r, nows[0]), nows[1..])
  }

  /** The phase after each call of a run. */
  function States(r: TaskRow, nows: seq<int>): (states: seq<TaskState>)
    requires WellFormed(r)
    ensures |states| == |nows|
    decreases |nows|
  {
    if nows == [] then []
    else
      WellFormedStepDefined(r, nows[0]);
      var next := StepAfter(r, nows[0]);
      [next.taskState] + States(next, nows[1..])
  }

  /** Running two batches of calls one after the other is one run. */
  lemma {:induction false} RunConcat(r: TaskRow, a: seq<int>, b: seq<int>)
    requires WellFormed(r)
    ensures Run(r, a + b) == Run(Run(r, a), b)
    decreases |a|
  {
    if a == [] {
      assert a + b == b;
    } else {
      WellFormedStepDefined(r, a[0]);
      assert (a + b)[1..] == a[1..] + b;
      RunConcat(StepAfter(r, a[0]), a[1..], b);
    }
  }

  /** The phase a run records after a call is the phase of the task once
      that call and every earlier one have been made. */
  lemma {:induction false} StatesAreRunStates(r: TaskRow, nows: seq<int>, i: nat)
    requires WellFormed(r) && i < |nows|
    ensures States(r, nows)[i] == Run(r, nows[..i + 1]).taskState
    decreases |nows|
  {
    WellFormedStepDefined(r, nows[0]);
    var next := StepAfter(r, nows[0]);
    assert nows[..i + 1][0] == nows[0];
    assert nows[..i + 1][1..] == nows[1..][..i];
    if i == 0 {
      assert Run(next, nows[1..][..0]) == next;
    } else {
      StatesAreRunStates(next, nows[1..], i - 1);
    }
  }

  /** An active task moves along the phase table, at most one phase per
      call. */
  lemma {:induction false} ActiveRunFollowsCycle(r: TaskRow, nows: seq<int>)
    requires WellFormed(r) && r.active
    ensures FollowsCycle(r.taskState, States(r, nows), r.sleep)
    decreases |nows|
  {
    if nows != [] {
      WellFormedStepDefined(r, nows[0]);
      StepFollowsTable(r, nows[0]);
      ActiveRunFollowsCycle(StepAfter(r, nows[0]), nows[1..]);
    }
  }

  /** With non-negative intervals `time` never decreases along a run. */
  lemma {:induction false} RunTimeMonotone(r: TaskRow, nows: seq<int>)
    requires WellFormed(r) && NonNegativeIntervals(r)
    ensures DueTime(Run(r, nows)) >= DueTime(r)
    decreases |nows|
  {
    if nows != [] {
      StepTimeMonotone(r, nows[0]);
      RunTimeMonotone(StepAfter(r, nows[0]), nows[1..]);
    }
  }

  /** ... and so the instants reached after a shorter prefix of the calls
      are never after those reached after a longer one. */
  lemma RunTimeMonotonePrefix(r: TaskRow, nows: seq<int>, i: nat, j: nat)
    requires WellFormed(r) && NonNegativeIntervals(r)
    requires i <= j <= |nows|
    ensures DueTime(Run(r, nows[..i])) <= DueTime(Run(r, nows[..j]))
  {
    assert nows[..j] == nows[..i] + nows[i..j];
    RunConcat(r, nows[..i], nows[i..j]);
    RunTimeMonotone(Run(r, nows[..i]), nows[i..j]);
  }

  /** An inactive task never gets past START, and its `time` never moves. */
  lemma {:induction false} InactiveRunStaysIdle(r: TaskRow, nows: seq<int>)
    requires WellFormed(r) && !r.active
    ensures forall s | s in States(r, nows) :: s == Disable || s == Start
    ensures DueTime(Run(r, nows)) == DueTime(r)
    decreases |nows|
  {
    if nows != [] {
      WellFormedStepDefined(r, nows[0]);
      var next := StepAfter(r, nows[0]);
      assert DueTime(next) == DueTime(r);
      InactiveRunStaysIdle(next, nows[1..]);
      assert States(r, nows) == [next.taskState] + States(next, nows[1..]);
    }
  }

  /** An active task that does not sleep stays in WORK, with `time` fixed,
      once it is there. */
  lemma {:induction false} NoSleepWorkIsFinal(r: TaskRow, nows: seq<int>)
    requires WellFormed(r) && r.active && !r.sleep && r.taskState == Work
    ensures forall s | s in States(r, nows) :: s == Work
    ensures Run(r, nows).taskState == Work
    ensures DueTime(Run(r, nows)) == DueTime(r)
    decreases |nows|
  {
    if nows != [] {
      WellFormedStepDefined(r, nows[0]);
      var next := StepAfter(r, nows[0]);
      assert next.taskState == Work && DueTime(next) == DueTime(r);
      NoSleepWorkIsFinal(next, nows[1..]);
      assert States(r, nows) == [next.taskState] + States(next, nows[1..]);
    }
  }

  /** One full cycle of a sleeping task, one call at each transition
      instant: DISABLE, START, WORK, SLEEP, START, WORK. A second call at
      the same instant is needed to leave START, because each call takes at
      most one step. */
  lemma SleepingTaskCycle(r: TaskRow, t: int, work: int, rest: int)
    requires r.active && r.sleep && r.taskState == Disable && r.time == Some(t)
    requires r.workInterval == Some(work) && r.sleepInterval == Some(rest)
    ensures States(r, [t, t, t + 60 * work, t + 60 * work + 60 * rest, t + 60 * work + 60 * rest])
      == [Start, Work, Sleep, Start, Work]
  {
    var nows := [t, t, t + 60 * work, t + 60 * work + 60 * rest, t + 60 * work + 60 * rest];
    var r1 := StepAfter(r, nows[0]);
    var r2 := StepAfter(r1, nows[1]);
    var r3 := StepAfter(r2, nows[2]);
    var r4 := StepAfter(r3, nows[3]);
    var r5 := StepAfter(r4, nows[4]);
    assert States(r4, nows[4..]) == [r5.taskState];
    assert States(r3, nows[3..]) == [r4.taskState] + States(r4, nows[4..]);
    assert States(r2, nows[2..]) == [r3.taskState] + States(r3, nows[3..]);
    assert States(r1, nows[1..]) == [r2.taskState] + States(r2, nows[2..]);
  }
}
