# TaskManager: a verified model

The repository's one component is `TaskManager`, an in-memory registry of
tasks kept in two hash maps that share their keys: `taskSolutions` (task name
to solution text) and `taskCompleted` (task name to completion flag). Every
public method that reads or writes the two maps is synchronized, and each
performs a lookup in, or a small update of, those maps (hasSolution does two
lookups: `containsKey`, then `get`).

The model has three layers:

- `TaskStore` (TaskStore.dfy) gives the two maps as a value (`Store`), one
  function per operation, and the laws the operations obey. These laws cover
  the invariant, inverses, idempotence, "nothing else changes" and
  independence of tasks. It also defines `Run`, the calls applied one after
  another. Because each method that touches the maps holds the object's lock
  for its whole call,
  `Run` is the sequential order that any concurrent use must match. (The
  constructor, `isDebugging`, `run` and `stop` are not synchronized, but they
  do not touch the maps.)
- `Manager.TaskManager` (TaskManager.dfy) is the class itself. It has the two
  map fields, and each Java method is a Dafny method. A method states its
  exact new fields and equates its new `State()` with the `TaskStore`
  function applied to the old state. The mutators keep `Valid()`, which is
  the invariant `taskSolutions.Keys <= taskCompleted.Keys`. `Manager.Scenario`
  replays the calls of the demonstration program against these contracts.
- `StringIdentity` (StringIdentity.dfy) models the emptiness test of
  `hasSolution` as the Java code writes it (see Findings).

Behaviour fixed by the code:

- `changeSolution` calls `addTask`, so it resets the completion flag to false.
- `isCompleted` on a task with no flag unboxes `null` and throws. The model
  makes this a precondition.
- `setCompleted` can create a flag for a task that has no solution. So the
  invariant is inclusion of the key sets, not equality.

addTask and removeTask update both tables, so one might expect their key sets
to stay equal. setCompleted on a task with no solution
(src/TaskManager.java:85-91) breaks this, so the invariant is inclusion
(`TaskStore.SetCompletedCanUnpair`).

## Model

| member | source | states |
|---|---|---|
| `TaskStore.AddTask` | src/TaskManager.java:60-62 | the task's solution becomes the given one and its flag becomes false, whatever it was; every other task keeps its entries; the invariant is kept |
| `TaskStore.RemoveTask` | src/TaskManager.java:66-68 | the task ends up in neither table; every other task keeps its entries; the invariant is kept |
| `TaskStore.SetCompletedTo` | src/TaskManager.java:90-91 | the task's flag becomes the given value, even for an unknown task; the solution table is unchanged; other flags are unchanged; the invariant is kept |
| `TaskStore.ChangeSolutionIsAddTask` | src/TaskManager.java:76-77 | changeSolution has exactly addTask's effect, so the flag is reset to false and the new solution is stored |
| `TaskStore.SetCompletedIsSetTrue` | src/TaskManager.java:85-91 | the one-argument setCompleted equals the two-argument one with true, after which isCompleted is defined and true |
| `TaskStore.RemoveUndoesAdd` | src/TaskManager.java:60-68 | adding a task that was in neither table and then removing it restores the store exactly |
| `TaskStore.RemoveAbsentIsNoOp` | src/TaskManager.java:66-68 | removing an absent task changes nothing; removing twice equals removing once |
| `TaskStore.LastAddWins` | src/TaskManager.java:60-62 | a second addTask overwrites the first one's solution and any flag set in between |
| `TaskStore.AddThenQuery` | src/TaskManager.java:60-97 | after addTask(t, s): getSolution(t) is s, isCompleted(t) is false, and hasSolution(t) holds exactly when s is non-empty |
| `TaskStore.HasSolutionMeansUsableSolution` | src/TaskManager.java:95-97 | hasSolution holds exactly when getSolution returns neither null nor the empty string; in a paired store such a task has a flag |
| `TaskStore.SetCompletedCanUnpair` | src/TaskManager.java:90-91 | setCompleted on a task without a solution keeps the inclusion invariant but makes the key sets unequal |
| `TaskStore.Apply` | src/TaskManager.java:60-91 | any single state-changing call touches only its own task's entries and keeps the invariant |
| `TaskStore.Run` | src/TaskManager.java:60-91 | every sequence of state-changing calls keeps the invariant |
| `TaskStore.RunCongruentAt` | src/TaskManager.java:60-91 | two stores that agree on a task still agree on it after the same calls |
| `TaskStore.RunPerTask` | src/TaskManager.java:60-91 | a task's final entries depend only on the calls that name that task, in their order |
| `TaskStore.RunFrame` | src/TaskManager.java:60-91 | a task named by no call keeps its entries |
| `TaskStore.NeverAddedHasNoSolution` | src/TaskManager.java:60-97 | a task with no solution that no addTask or changeSolution names still has none: getSolution gives null and hasSolution gives false |
| `Manager.TaskManager.constructor` | src/TaskManager.java:52-58 | a new manager has two empty tables, so the invariant holds |
| `Manager.TaskManager.AddTask` | src/TaskManager.java:60-64 | solution put and flag put to false, nothing else changes; equals `TaskStore.AddTask` of the old state; keeps the invariant |
| `Manager.TaskManager.RemoveTask` | src/TaskManager.java:66-70 | the task is removed from both tables; an absent task leaves the state unchanged; equals `TaskStore.RemoveTask`; keeps the invariant |
| `Manager.TaskManager.GetSolution` | src/TaskManager.java:72-74 | returns the stored solution for a known task and None (null) otherwise |
| `Manager.TaskManager.ChangeSolution` | src/TaskManager.java:76-79 | the same new state as AddTask, with the flag reset to false; keeps the invariant |
| `Manager.TaskManager.IsCompleted` | src/TaskManager.java:81-83 | defined only for a task that has a flag; returns that flag |
| `Manager.TaskManager.SetCompleted` | src/TaskManager.java:85-88 | the flag becomes true, even for an unknown task; solutions unchanged; keeps the invariant |
| `Manager.TaskManager.SetCompletedTo` | src/TaskManager.java:90-93 | the flag becomes the given value, even for an unknown task; solutions unchanged; keeps the invariant |
| `Manager.TaskManager.HasSolution` | src/TaskManager.java:95-98 | true exactly when getSolution returns neither null nor ""; in a valid manager such a task has a flag |
| `StringIdentity.AsWrittenAcceptsEmptySolution` | src/TaskManager.java:97 | an empty solution held in a second String object passes the reference test as written, but the content test rejects it |
| `StringIdentity.AsWrittenAgreesWhenEmptyIsInterned` | src/TaskManager.java:95-97 | when every empty solution is the interned literal, the reference test and the content test agree |

## Left out

- Locking: `synchronized` only makes each call atomic. The model is
  sequential, and `TaskStore.Run` is the sequential order of calls.
- Threads: the `Runnable` interface and the empty `run` and `stop` methods are
  not modelled.
- Debug output: the `DEBUGGING` flag, its console prints and `isDebugging`
  are not modelled. The flag is the constant false, and the prints are only
  output.
- Null solutions: a `null` solution passed to `addTask` is not modelled.
  Solutions are always strings here.
- Null task names: `HashMap` accepts `null` as an ordinary key, but task
  names here are Dafny strings, which have no `null`. Calls with a `null`
  task are not modelled.
- Hashing: `HashMap` hashing and iteration order are not modelled. The tables
  are mathematical maps.
- String identity: the main model compares strings by content.
  `StringIdentity` models the reference comparison on its own (see
  Findings).
- `Manager.TaskManager.IsCompleted`: the `NullPointerException` on an unknown
  task is a precondition, not a modelled error result.
- Demo program: `src/TestApp.java` is not part of this model. It holds the
  demonstration `main` and `Processor.giveCommand`, which only prints
  messages. `Manager.Scenario` checks its sequence of calls only.

## Findings

| source | as written | input that shows it | evidently intended | confidence | as-written member | corrected member |
|---|---|---|---|---|---|---|
| src/TaskManager.java:97 | `taskSolutions.get(task) != ""` compares object references, so only the interned literal `""` counts as empty | `addTask("t", new String(""))`, then `hasSolution("t")` returns true | a content comparison: an empty solution is no solution | high; not executed | `StringIdentity.AsWrittenAcceptsEmptySolution` | `TaskStore.HasSolutionMeansUsableSolution` |
