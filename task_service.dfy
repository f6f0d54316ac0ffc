/** The task service (service/TaskServiceImpl.java) over its repository,
    which is held as a map from id to the saved task. The database sequence
    that numbers new tasks is a counter kept above every stored id. */
module TaskServices {
  import opened Wrappers
  import opened JavaInts
  import opened Tasks
  import opened TaskCycle

  /** TaskNotExistException and TaskByUserNotExistException. */
  datatype TaskError = TaskNotExist(id: int) | TaskByUserNotExist(userId: int)

  /** The task as `createTask` prepares it for saving: `time` reset to
      `startTime`, phase DISABLE, and a missing `workInterval` set to the
      length of the window in seconds, cast to `int`. */
  function Initialized(r: TaskRow): (r': TaskRow)
    ensures r'.time == Some(r.startTime) && r'.taskState == Disable
    ensures r'.workInterval.Some?
    ensures r.workInterval.None? ==> IsInt(r'.workInterval.value)
    ensures r.workInterval.Some? ==> r'.workInterval == r.workInterval
    ensures r == r'.(time := r.time, taskState := r.taskState, workInterval := r.workInterval)
  {
    var work := if r.workInterval.None? then Some(NarrowToInt(r.endTime - r.startTime)) else r.workInterval;
    r.(time := Some(r.startTime), taskState := Disable, workInterval := work)
  }

  /** The default `workInterval` is `endTime - startTime` in seconds
      whenever that difference fits in an `int`. */
  lemma DefaultWorkIntervalInSeconds(r: TaskRow)
    requires r.workInterval.None? && IsInt(r.endTime - r.startTime)
    ensures Initialized(r).workInterval == Some(r.endTime - r.startTime)
  {
    NarrowToIntKeepsInts(r.endTime - r.startTime);
  }

  /** A task created from a window of one to three minutes past `t` and no
      interval: 120 seconds of work, `time == startTime`, phase DISABLE. */
  lemma CreateTaskScenario(r: TaskRow, t: int)
    requires r.startTime == t + 60 && r.endTime == t + 180 && r.workInterval.None?
    ensures Initialized(r).workInterval == Some(120)
    ensures Initialized(r).time == Some(t + 60) && Initialized(r).taskState == Disable
  {
    DefaultWorkIntervalInSeconds(r);
  }

  /** The step adds `workInterval` in minutes while the default is counted
      in seconds: a created active task with the default interval, stepped
      twice at its start, is next due sixty times the window past its
      start, long after its `endTime`. */
  lemma DefaultWorkPhaseOverrunsEndTime(r: TaskRow)
    requires r.workInterval.None? && r.active && r.startTime < r.endTime
    requires IsInt(r.endTime - r.startTime) && (r.sleep ==> r.sleepInterval.Some?)
    ensures WellFormed(Initialized(r))
    ensures Run(Initialized(r), [r.startTime, r.startTime]).taskState == Work
    ensures DueTime(Run(Initialized(r), [r.startTime, r.startTime])) == r.startTime + 60 * (r.endTime - r.startTime)
    ensures DueTime(Run(Initialized(r), [r.startTime, r.startTime])) > r.endTime
  {
    DefaultWorkIntervalInSeconds(r);
    var init := Initialized(r);
    var nows := [r.startTime, r.startTime];
    var r1 := StepAfter(init, nows[0]);
    assert r1.taskState == Start && DueTime(r1) == r.startTime;
    assert Run(init, nows) == Run(r1, nows[1..]);
    assert Run(r1, nows[1..]) == StepAfter(r1, r.startTime);
  }

  /** From creation on, an active task moves along the phase table one
      phase at a time, starting from DISABLE. */
  lemma CreatedTaskFollowsCycle(r: TaskRow, nows: seq<int>)
    requires r.active && (r.sleep ==> r.sleepInterval.Some?)
    ensures WellFormed(Initialized(r))
    ensures FollowsCycle(Disable, States(Initialized(r), nows), r.sleep)
  {
    ActiveRunFollowsCycle(Initialized(r), nows);
  }

  /** A task the "next or current" query may return: one of the user's
      tasks whose `time` is after the reference instant. */
  predicate Qualifies(t: TaskRow, time: int, userId: int) {
    t.user == userId && t.time.Some? && t.time.value > time
  }

  ghost predicate HasNextTask(tasks: map<int, TaskRow>, time: int, userId: int) {
    exists k :: k in tasks && Qualifies(tasks[k], time, userId)
  }

  /** The store of the service's own tests: one task, due a minute after
      `now`, is found at `now` and not two minutes after it. */
  lemma SelectorBoundaryFromTests(tasks: map<int, TaskRow>, k: int, now: int)
    requires tasks.Keys == {k} && tasks[k].time == Some(now + 60)
    ensures HasNextTask(tasks, now, tasks[k].user)
    ensures !HasNextTask(tasks, now + 120, tasks[k].user)
  {
    assert Qualifies(tasks[k], now, tasks[k].user);
  }

  class TaskService {
    var tasks: map<int, TaskRow>
    var nextId: int

    /** Every task is stored under its own id, and the sequence is past
        every stored id. */
    ghost predicate Valid()
      reads this
    {
      forall k | k in tasks :: tasks[k].id == Some(k) && k < nextId
    }

    constructor ()
      ensures Valid() && tasks == map[]
    {
      tasks := map[];
      nextId := 1;
    }

    /** `getTasks`: every stored task. */
    function GetTasks(): (all: set<TaskRow>)
      reads this
      ensures Valid() ==> forall t | t in all :: t.id.Some? && t.id.value in tasks && tasks[t.id.value] == t
      ensures forall k | k in tasks :: tasks[k] in all
    {
      set k | k in tasks :: tasks[k]
    }

    /** `getTasksByUserId`: the stored tasks of one user. */
    function GetTasksByUserId(userId: int): (owned: set<TaskRow>)
      reads this
      ensures owned <= GetTasks()
      ensures forall t | t in GetTasks() :: t in owned <==> t.user == userId
    {
      set k | k in tasks && tasks[k].user == userId :: tasks[k]
    }

    /** `getTaskById`: the stored task, or TaskNotExistException. */
    function GetTaskById(id: int): (r: Result<TaskRow, TaskError>)
      reads this
      ensures r.Success? <==> id in tasks
      ensures r.Success? ==> r.value in GetTasks()
      ensures Valid() && r.Success? ==> r.value.id == Some(id)
      ensures r.Failure? ==> r.error == TaskNotExist(id)
    {
      if id in tasks then Success(tasks[id]) else Failure(TaskNotExist(id))
    }

    /** `getTaskByTaskIdAndUserId`: the task when it exists and belongs to
        the user, otherwise TaskByUserNotExistException. */
    function GetTaskByTaskIdAndUserId(taskId: int, userId: int): (r: Result<TaskRow, TaskError>)
      reads this
      ensures r.Success? <==> GetTaskById(taskId).Success? && GetTaskById(taskId).value.user == userId
      ensures r.Success? ==> r == GetTaskById(taskId) && r.value in GetTasksByUserId(userId)
      ensures r.Failure? ==> r.error == TaskByUserNotExist(userId)
    {
      if taskId in tasks && tasks[taskId].user == userId then Success(tasks[taskId])
      else Failure(TaskByUserNotExist(userId))
    }

    /** `getNextOrCurrentTaskAfterTimeByUserId`: some task of the user whose
        `time` is after the reference instant, or
        TaskByUserNotExistException when there is none. Which one, when
        several qualify, is the repository's choice. */
    method GetNextOrCurrentTaskAfterTimeByUserId(time: int, userId: int) returns (r: Result<TaskRow, TaskError>)
      ensures r.Success? <==> HasNextTask(tasks, time, userId)
      ensures r.Success? ==> r.value in GetTasksByUserId(userId) && Qualifies(r.value, time, userId)
      ensures r.Failure? ==> r.error == TaskByUserNotExist(userId)
    {
      if k :| k in tasks && Qualifies(tasks[k], time, userId) {
        r := Success(tasks[k]);
      } else {
        r := Failure(TaskByUserNotExist(userId));
      }
    }

    /** The repository's `save`: a task without an id is given the next id
        of the sequence; a task with one replaces what is stored under it. */
    method Save(task: Task) returns (saved: TaskRow)
      requires Valid()
      modifies this, task`id
      ensures Valid()
      ensures saved == task.Row() && saved.id.Some?
      ensures old(task.id).Some? ==> saved == old(task.Row())
      ensures old(task.id).None? ==> saved == old(task.Row()).(id := saved.id) && saved.id.value !in old(tasks)
      ensures tasks == old(tasks)[saved.id.value := saved]
    {
      if task.id.None? {
        task.id := Some(nextId);
        nextId := nextId + 1;
      } else if task.id.value >= nextId {
        nextId := task.id.value + 1;
      }
      saved := task.Row();
      tasks := tasks[saved.id.value := saved];
    }

    /** `createTask`: initializes the task in place, then saves it. */
    method CreateTask(task: Task) returns (saved: TaskRow)
      requires Valid()
      modifies this, task`time, task`taskState, task`workInterval, task`id
      ensures Valid()
      ensures saved == task.Row()
      ensures saved == Initialized(old(task.Row())).(id := saved.id)
      ensures old(task.id).Some? ==> saved.id == old(task.id)
      ensures old(task.id).None? ==> saved.id.Some? && saved.id.value !in old(tasks)
      ensures saved.id.Some? && tasks == old(tasks)[saved.id.value := saved]
      ensures GetTaskById(saved.id.value) == Success(saved)
    {
      task.time := Some(task.startTime);
      task.taskState := Disable;
      if task.workInterval.None? {
        task.workInterval := Some(NarrowToInt(task.endTime - task.startTime));
      }
      saved := Save(task);
    }

    /** `updateTask`: saves the task as it is. */
    method UpdateTask(task: Task) returns (saved: TaskRow)
      requires Valid()
      modifies this, task`id
      ensures Valid()
      ensures saved == task.Row() && saved.id.Some?
      ensures old(task.id).Some? ==> saved == old(task.Row())
      ensures old(task.id).None? ==> saved == old(task.Row()).(id := saved.id) && saved.id.value !in old(tasks)
      ensures tasks == old(tasks)[saved.id.value := saved]
      ensures GetTaskById(saved.id.value) == Success(saved)
    {
      saved := Save(task);
    }

    /** `deleteTaskById`: removes the task; every other entry stays. */
    method DeleteTaskById(id: int)
      requires Valid()
      modifies this
      ensures Valid()
      ensures tasks == old(tasks) - {id}
      ensures GetTaskById(id) == Failure(TaskNotExist(id))
      ensures forall k | k != id :: GetTaskById(k) == old(GetTaskById(k))
    {
      tasks := tasks - {id};
    }
  }
}
