# Task manager core, in Dafny

A model of the scheduling core of a small task-manager server: the phase
step of a task (`Task.setTaskStateAndNextTimeAfter`), the task service that
initializes, stores, looks up and deletes tasks, the user service with its
duplicate-username rule, and the two credential-length validators.

A task cycles through four phases, DISABLE, START, WORK and SLEEP. Its
`time` field is the instant of its next transition. One call of the step
with a reference instant `current`:

- forces an inactive task to DISABLE;
- defaults a null `time` to `startTime`;
- and, if `time` is not after `current`, takes one step of the table
  DISABLE→START, START→WORK (`time` + `workInterval` minutes),
  WORK→SLEEP when the task sleeps (`time` + `sleepInterval` minutes),
  and SLEEP→START. A task that does not sleep stays in WORK.

Instants are integer counts of seconds, so `plusMinutes(n)` adds `60 * n`.
`createTask` resets `time` to `startTime` and the phase to DISABLE. A
missing `workInterval` becomes the window length `endTime - startTime` in
seconds, narrowed to a 32-bit `int`. The step adds that same number as
minutes, so a task created with the default interval reaches its next
transition long after its `endTime`. The model keeps this behaviour as the
code has it, and `TaskServices.DefaultWorkPhaseOverrunsEndTime` states it.

Files:

- `wrappers.dfy`: `Option` for nullable references and `Result` for
  operations that raise.
- `java_ints.dfy`: the `(int)` narrowing cast.
- `tasks.dfy`: the phases, the persisted fields of a task (`TaskRow`),
  the step as a function (`StepAfter`), and the `Task` class whose method
  updates `time` and `taskState` in place.
- `task_cycle.dfy`: what one call does, branch by branch, and what a
  sequence of calls does (`Run`, `States`).
- `task_service.dfy`: the task service over a map from id to task.
- `user_service.dfy`: the user service over a map from id to user.
- `validators.dfy`: the password and username length checks, counting
  UTF-16 code units as `String.length()` does.

The enum file `model/TaskState.java` is not part of this model. Its four
phases are taken from their uses in `model/Task.java`. The service
interface `TaskService.java` names the update operation `update`, while the
implementation names it `updateTask`. The model follows the implementation.

## Model

| member | source | states |
|---|---|---|
| `JavaInts.NarrowToInt` | src/main/java/com/coffeesoft/taskmanager/service/TaskServiceImpl.java:61-62 | the `(int)` cast yields a 32-bit value congruent to its argument modulo 2^32 |
| `JavaInts.NarrowToIntKeepsInts` | src/main/java/com/coffeesoft/taskmanager/service/TaskServiceImpl.java:61-62 | a difference that fits in 32 bits survives the cast unchanged |
| `Tasks.StepAfter` | src/main/java/com/coffeesoft/taskmanager/model/Task.java:67-91 | after a step `time` is never null, and no field other than `time` and `taskState` differs |
| `Tasks.WellFormedStepDefined` | src/main/java/com/coffeesoft/taskmanager/model/Task.java:79-86 | a task with `workInterval` present, and `sleepInterval` present when it sleeps, can be stepped at any instant and still has them afterwards |
| `Tasks.Task.constructor` | src/main/java/com/coffeesoft/taskmanager/model/Task.java:14 | the all-arguments constructor sets every field to the given value |
| `Tasks.Task.SetTaskStateAndNextTimeAfter` | src/main/java/com/coffeesoft/taskmanager/model/Task.java:67-91 | the in-place step changes only `time` and `taskState`, to the values `StepAfter` gives for the old fields |
| `TaskCycle.StepDefaultsNullTime` | src/main/java/com/coffeesoft/taskmanager/model/Task.java:72-74 | a null `time` behaves exactly as `time == startTime` |
| `TaskCycle.StepNotDue` | src/main/java/com/coffeesoft/taskmanager/model/Task.java:68-76 | when `time` is after `current`, `time` and the phase stay, except that an inactive task becomes DISABLE |
| `TaskCycle.StepInactiveDue` | src/main/java/com/coffeesoft/taskmanager/model/Task.java:68-78 | an inactive task that is due ends in START with `time` unchanged, in one call |
| `TaskCycle.StepFollowsTable` | src/main/java/com/coffeesoft/taskmanager/model/Task.java:76-90 | a due call takes exactly one move of the phase table from the entry phase; a call that is not due takes none |
| `TaskCycle.StepDueTime` | src/main/java/com/coffeesoft/taskmanager/model/Task.java:77-89 | leaving START adds `workInterval` minutes, leaving WORK for SLEEP adds `sleepInterval` minutes, every other due step keeps `time` |
| `TaskCycle.StepTimeMonotone` | src/main/java/com/coffeesoft/taskmanager/model/Task.java:79-86 | with non-negative intervals the new `time` is not before the old or defaulted one |
| `TaskCycle.Run` | src/main/java/com/coffeesoft/taskmanager/model/Task.java:67-91 | any sequence of calls changes only `time` and `taskState` and keeps the intervals present |
| `TaskCycle.States` | src/main/java/com/coffeesoft/taskmanager/model/Task.java:67-91 | the phases after a sequence of calls, one per call |
| `TaskCycle.StatesAreRunStates` | src/main/java/com/coffeesoft/taskmanager/model/Task.java:67-91 | the phase recorded after a call is the phase the run reaches after that call |
| `TaskCycle.RunConcat` | src/main/java/com/coffeesoft/taskmanager/model/Task.java:67-91 | two batches of calls in a row act as one batch |
| `TaskCycle.ActiveRunFollowsCycle` | src/main/java/com/coffeesoft/taskmanager/model/Task.java:76-90 | an active task's phases follow the table, at most one move per call, over any sequence of calls |
| `TaskCycle.RunTimeMonotone` | src/main/java/com/coffeesoft/taskmanager/model/Task.java:79-86 | with non-negative intervals `time` never decreases over any sequence of calls |
| `TaskCycle.RunTimeMonotonePrefix` | src/main/java/com/coffeesoft/taskmanager/model/Task.java:79-86 | the `time` reached after fewer calls is never after the `time` reached after more |
| `TaskCycle.InactiveRunStaysIdle` | src/main/java/com/coffeesoft/taskmanager/model/Task.java:68-78 | an inactive task only ever shows DISABLE or START, and its `time` never moves |
| `TaskCycle.NoSleepWorkIsFinal` | src/main/java/com/coffeesoft/taskmanager/model/Task.java:82-86 | an active task that does not sleep stays in WORK, with `time` fixed, once there |
| `TaskCycle.SleepingTaskCycle` | src/main/java/com/coffeesoft/taskmanager/model/Task.java:76-90 | for any intervals, a sleeping task called at its transition instants goes START, WORK, SLEEP, START, WORK; leaving START needs a second call at the same instant |
| `TaskServices.Initialized` | src/main/java/com/coffeesoft/taskmanager/service/TaskServiceImpl.java:57-63 | `createTask` sets `time` to `startTime` and the phase to DISABLE, keeps a supplied `workInterval`, fills a missing one with a 32-bit value, and changes nothing else |
| `TaskServices.DefaultWorkIntervalInSeconds` | src/main/java/com/coffeesoft/taskmanager/service/TaskServiceImpl.java:60-63 | the default `workInterval` is `endTime - startTime` in seconds when that fits in an `int` |
| `TaskServices.CreateTaskScenario` | src/test/java/com/coffeesoft/taskmanager/controller/TaskControllerTest.java:156-169 | a window one to three minutes after `t` gives a 120-second default interval, `time == startTime` and DISABLE |
| `TaskServices.DefaultWorkPhaseOverrunsEndTime` | src/main/java/com/coffeesoft/taskmanager/service/TaskServiceImpl.java:60-63 | because the step adds minutes (Task.java line 80), a created task with the default interval, stepped twice at its start, is in WORK and next due after its `endTime` |
| `TaskServices.CreatedTaskFollowsCycle` | src/main/java/com/coffeesoft/taskmanager/service/TaskServiceImpl.java:57-64 | a created active task can always be stepped and moves along the table from DISABLE |
| `TaskServices.SelectorBoundaryFromTests` | src/test/java/com/coffeesoft/taskmanager/service/TaskServiceImplTest.java:98-113 | a task due a minute after `now` qualifies at `now` and not two minutes after `now` |
| `TaskServices.TaskService.constructor` | src/main/java/com/coffeesoft/taskmanager/service/TaskServiceImpl.java:22-24 | the service starts over an empty repository |
| `TaskServices.TaskService.GetTasks` | src/main/java/com/coffeesoft/taskmanager/service/TaskServiceImpl.java:27-30 | every stored task is returned, and each returned task is stored under its own id |
| `TaskServices.TaskService.GetTasksByUserId` | src/main/java/com/coffeesoft/taskmanager/service/TaskServiceImpl.java:32-35 | a stored task is returned exactly when it belongs to the user |
| `TaskServices.TaskService.GetTaskById` | src/main/java/com/coffeesoft/taskmanager/service/TaskServiceImpl.java:37-42 | the stored task, carrying that id, when the id is present; otherwise TaskNotExistException for that id |
| `TaskServices.TaskService.GetTaskByTaskIdAndUserId` | src/main/java/com/coffeesoft/taskmanager/service/TaskServiceImpl.java:44-48 | the same task as `GetTaskById` when it exists and belongs to the user; otherwise TaskByUserNotExistException |
| `TaskServices.TaskService.GetNextOrCurrentTaskAfterTimeByUserId` | src/main/java/com/coffeesoft/taskmanager/service/TaskServiceImpl.java:50-54 | succeeds exactly when some task of the user has `time` after the reference, and then returns such a task; otherwise TaskByUserNotExistException |
| `TaskServices.TaskService.Save` | src/main/java/com/coffeesoft/taskmanager/service/TaskServiceImpl.java:64 | a task without an id gets a fresh one; the task is stored under its id and nothing else changes |
| `TaskServices.TaskService.CreateTask` | src/main/java/com/coffeesoft/taskmanager/service/TaskServiceImpl.java:56-65 | the task is initialized in place and stored under its own id, or under a fresh one when it has none; a lookup of that id returns it |
| `TaskServices.TaskService.UpdateTask` | src/main/java/com/coffeesoft/taskmanager/service/TaskServiceImpl.java:67-70 | the task is stored untransformed under its own id, or under a fresh one when it has none, and a lookup returns it |
| `TaskServices.TaskService.DeleteTaskById` | src/main/java/com/coffeesoft/taskmanager/service/TaskServiceImpl.java:72-75 | afterwards a lookup of the id raises TaskNotExistException, and every other lookup is unchanged |
| `UserServices.InsertKeepsUsernamesUnique` | src/main/java/com/coffeesoft/taskmanager/service/UserServiceImpl.java:35-46 | storing a user whose username is not taken keeps usernames unique |
| `UserServices.OverwriteCanDuplicateUsername` | src/main/java/com/coffeesoft/taskmanager/service/UserServiceImpl.java:48-51 | overwriting an entry with a username another entry holds leaves a duplicate |
| `UserServices.UserService.constructor` | src/main/java/com/coffeesoft/taskmanager/service/UserServiceImpl.java:19-21 | the service starts over an empty repository |
| `UserServices.UserService.GetUsers` | src/main/java/com/coffeesoft/taskmanager/service/UserServiceImpl.java:23-26 | every stored user is returned, and each returned user is stored under its own id |
| `UserServices.UserService.GetUserById` | src/main/java/com/coffeesoft/taskmanager/service/UserServiceImpl.java:28-33 | the stored user, carrying that id, when the id is present; otherwise UserNotExistException for that id |
| `UserServices.UserService.HasUser` | src/main/java/com/coffeesoft/taskmanager/service/UserServiceImpl.java:41-46 | raises UserExistException exactly when a stored user has the same username |
| `UserServices.UserService.Save` | src/main/java/com/coffeesoft/taskmanager/service/UserServiceImpl.java:38 | a user without an id gets a fresh one; the user is stored under its id and nothing else changes |
| `UserServices.UserService.CreateUser` | src/main/java/com/coffeesoft/taskmanager/service/UserServiceImpl.java:35-39 | a taken username raises UserExistException and leaves the store unchanged; otherwise the user is stored, a lookup returns it, and unique usernames stay unique |
| `UserServices.UserService.UpdateUser` | src/main/java/com/coffeesoft/taskmanager/service/UserServiceImpl.java:48-51 | the user overwrites the entry under its id, or is stored under a fresh id when it has none, with no duplicate check, and a lookup returns it |
| `UserServices.UserService.DeleteUserById` | src/main/java/com/coffeesoft/taskmanager/service/UserServiceImpl.java:53-56 | afterwards a lookup of the id raises UserNotExistException, and every other lookup is unchanged |
| `Validators.Utf16Length` | src/main/java/com/coffeesoft/taskmanager/annotation/validator/PasswordValidator.java:9 | `String.length()` counts UTF-16 code units: between the number of characters and twice that |
| `Validators.Utf16LengthConcat` | src/main/java/com/coffeesoft/taskmanager/annotation/validator/PasswordValidator.java:9 | the code units of a concatenation are the sum of those of its parts |
| `Validators.BmpLengthIsCharCount` | src/main/java/com/coffeesoft/taskmanager/annotation/validator/PasswordValidator.java:9 | text of Basic Multilingual Plane characters has as many code units as characters |
| `Validators.IsValidPassword` | src/main/java/com/coffeesoft/taskmanager/annotation/validator/PasswordValidator.java:9 | `isValid` on a password; a valid one is present and has 4 to 27 characters, since characters outside the Basic Multilingual Plane count twice |
| `Validators.IsValidUsername` | src/main/java/com/coffeesoft/taskmanager/annotation/validator/UsernameValidator.java:9 | `isValid` on a username; a valid one is present and has 4 to 15 characters |
| `Validators.PasswordLengthRule` | src/main/java/com/coffeesoft/taskmanager/annotation/validator/PasswordValidator.java:9 | a null password, or one of at most 6 or at least 28 code units, is invalid; every password of 7 to 27 code units is valid |
| `Validators.UsernameLengthRule` | src/main/java/com/coffeesoft/taskmanager/annotation/validator/UsernameValidator.java:9 | a null username, or one of at most 6 or at least 16 code units, is invalid; every username of 7 to 15 code units is valid |
| `Validators.ValidityIgnoresCharacters` | src/main/java/com/coffeesoft/taskmanager/annotation/validator/PasswordValidator.java:9 | two credentials with the same number of code units are both valid or both invalid, for either check |
| `Validators.SupplementaryCharCountsTwice` | src/main/java/com/coffeesoft/taskmanager/annotation/validator/PasswordValidator.java:9 | a character outside the Basic Multilingual Plane adds two code units, and can push a password of 26 past the limit |

## Left out

- Instants are integer seconds. Calendar rules, time zones and the range
  limits of `LocalDateTime` (where `plusMinutes` would raise) are not
  modelled.
- `Tasks.Task.SetTaskStateAndNextTimeAfter` requires the interval it unboxes
  to be present. The source would raise a `NullPointerException` there
  instead.
- `TaskServices.TaskService.GetNextOrCurrentTaskAfterTimeByUserId` returns some
  qualifying task. The repository query behind it is not in the source, so its
  ordering, and whether a task due exactly at the reference instant
  qualifies, are not modelled. The model uses a strict "after".
- The repositories are maps from id to a copy of the saved fields. The
  identity of managed entities, and aliasing between a saved object and
  later reads, are not modelled. The database sequence is a counter kept
  above every stored id.
- `TaskServices.TaskService.DeleteTaskById` and
  `UserServices.UserService.DeleteUserById` treat a missing id as a no-op.
  Some Spring Data versions raise an exception there instead.
- `UserServices.UserService.Save` returns the saved user with its new id. It
  does not write that id back into the caller's object.
- The database constraints on users (`username` unique and not updatable)
  are not modelled. The model shows what the service itself checks.
- The link from a user to its set of tasks is not modelled. A task holds its
  owner's id.
- `repeat` and `description` are carried but play no part in any rule, as in
  the source.
- Controllers, authentication, JSON and JPA mapping, exception message text
  and the constraint annotations are outside this model.
