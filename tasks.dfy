/** The Task entity and its phase step (model/Task.java).
    Instants (`LocalDateTime`) are integer counts of seconds, so
    `plusMinutes(n)` adds `60 * n`. */
module Tasks {
  import opened Wrappers

  /** The four phases of a task (enum TaskState). */
  datatype TaskState = Disable | Start | Work | Sleep

  const SecondsPerMinute: int := 60

  /** `LocalDateTime.plusMinutes`, on instants counted in seconds. */
  function PlusMinutes(instant: int, minutes: int): int {
    instant + SecondsPerMinute * minutes
  }

  /** The persisted fields of a task, as one value. Nullable Java
      references (`Long id`, `String description`, `LocalDateTime time`,
      `Integer sleepInterval`, `Integer workInterval`) are options; the
      owning user is held by its id. */
  datatype TaskRow = TaskRow(
    id: Option<int>,
    title: string,
    description: Option<string>,
    time: Option<int>,
    startTime: int,
    endTime: int,
    sleepInterval: Option<int>,
    workInterval: Option<int>,
    active: bool,
    repeat: bool,
    sleep: bool,
    taskState: TaskState,
    user: int)

  /** The instant the step compares with `current`: `time`, or `startTime`
      when `time` is null. */
  function DueTime(r: TaskRow): int {
    if r.time.Some? then r.time.value else r.startTime
  }

  /** The phase the step works from: an inactive task is forced to DISABLE. */
  function EntryState(r: TaskRow): TaskState {
    if r.active then r.taskState else Disable
  }

  predicate IsDue(r: TaskRow, current: int) {
    DueTime(r) <= current
  }

  /** The step unboxes `workInterval` when it leaves START and
      `sleepInterval` when it leaves WORK for SLEEP; a null there would
      raise, so the caller must avoid it. */
  predicate StepDefined(r: TaskRow, current: int) {
    IsDue(r, current) ==>
      (EntryState(r) == Start ==> r.workInterval.Some?) &&
      (EntryState(r) == Work && r.sleep ==> r.sleepInterval.Some?)
  }

  /** A task whose intervals are present wherever the step may need them,
      whatever the reference instant. */
  predicate WellFormed(r: TaskRow) {
    r.workInterval.Some? && (r.sleep ==> r.sleepInterval.Some?)
  }

  /** The persisted effect of one call of `setTaskStateAndNextTimeAfter`. */
  function StepAfter(r: TaskRow, current: int): (r': TaskRow)
    requires StepDefined(r, current)
    ensures r'.time.Some?
    ensures r' == r.(time := r'.time, taskState := r'.taskState)
  {
    var time := DueTime(r);
    var state := EntryState(r);
    if time > current then
      r.(time := Some(time), taskState := state)
    else
      match state
      case Disable => r.(time := Some(time), taskState := Start)
      case Start => r.(time := Some(PlusMinutes(time, r.workInterval.value)), taskState := Work)
      case Work =>
        if r.sleep then r.(time := Some(PlusMinutes(time, r.sleepInterval.value)), taskState := Sleep)
        else r.(time := Some(time), taskState := Work)
      case Sleep => r.(time := Some(time), taskState := Start)
  }

  lemma WellFormedStepDefined(r: TaskRow, current: int)
    requires WellFormed(r)
    ensures StepDefined(r, current)
    ensures WellFormed(StepAfter(r, current))
  {
  }

  /** A task entity whose fields the step updates in place. */
  class Task {
    var id: Option<int>
    var title: string
    var description: Option<string>
    var time: Option<int>
    var startTime: int
    var endTime: int
    var sleepInterval: Option<int>
    var workInterval: Option<int>
    var active: bool
    var repeat: bool
    var sleep: bool
    var taskState: TaskState
    var user: int

    /** The entity's current field values. */
    function Row(): TaskRow
      reads this
    {
      TaskRow(id, title, description, time, startTime, endTime, sleepInterval,
              workInterval, active, repeat, sleep, taskState, user)
    }

    /** The all-arguments constructor. */
    constructor (r: TaskRow)
      ensures Row() == r
    {
      id, title, description := r.id, r.title, r.description;
      time, startTime, endTime := r.time, r.startTime, r.endTime;
      sleepInterval, workInterval := r.sleepInterval, r.workInterval;
      active, repeat, sleep := r.active, r.repeat, r.sleep;
      taskState, user := r.taskState, r.user;
    }

    /** Forces an inactive task to DISABLE, defaults a null `time` to
        `startTime`, and, when `time` is not after `current`, takes one
        phase step. Only `time` and `taskState` change. */
    method SetTaskStateAndNextTimeAfter(current: int)
      requires StepDefined(Row(), current)
      modifies this`taskState, this`time
      ensures Row() == StepAfter(old(Row()), current)
    {
      if !active {
        taskState := Disable;
      }
      if time.None? {
        time := Some(startTime);
      }
      if !(time.value > current) {
        if taskState == Disable {
          taskState := Start;
        } else if taskState == Start {
          time := Some(PlusMinutes(time.value, workInterval.value));
          taskState := Work;
        } else if taskState == Work {
          if sleep {
            time := Some(PlusMinutes(time.value, sleepInterval.value));
            taskState := Sleep;
          }
        } else if taskState == Sleep {
          taskState := Start;
        }
      }
    }
  }
}
