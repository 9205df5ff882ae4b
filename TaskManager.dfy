/** The task manager object: two tables updated in place by synchronized
    methods. Each method is proved against the corresponding function of
    TaskStore, and every state-changing method keeps the invariant that a
    task with a solution also has a completion flag. */
module Manager {
  import opened Wrappers
  import TaskStore

  class TaskManager {
    /** Task name to solution text. */
    var taskSolutions: map<string, string>
    /** Task name to completion flag. */
    var taskCompleted: map<string, bool>

    /** The two tables as a value. */
    function State(): TaskStore.Store
      reads this
    {
      TaskStore.Store(taskSolutions, taskCompleted)
    }

    /** The object invariant: every task with a solution has a flag. */
    ghost predicate Valid()
      reads this
    {
      TaskStore.Paired(State())
    }

    /** A new manager holds no tasks. */
    constructor ()
      ensures taskSolutions == map[] && taskCompleted == map[]
      ensures State() == TaskStore.Empty && Valid()
    {
      taskSolutions := map[];
      taskCompleted := map[];
    }

    /** addTask: put the solution and reset the flag to false. */
    method AddTask(task: string, solution: string)
      modifies this
      ensures taskSolutions == old(taskSolutions)[task := solution]
      ensures taskCompleted == old(taskCompleted)[task := false]
      ensures State() == TaskStore.AddTask(old(State()), task, solution)
      ensures old(Valid()) ==> Valid()
    {
      taskSolutions := taskSolutions[task := solution];
      taskCompleted := taskCompleted[task := false];
    }

    /** removeTask: drop the task from both tables; absent is not an error. */
    method RemoveTask(task: string)
      modifies this
      ensures taskSolutions == old(taskSolutions) - {task}
      ensures taskCompleted == old(taskCompleted) - {task}
      ensures State() == TaskStore.RemoveTask(old(State()), task)
      ensures task !in old(taskSolutions) && task !in old(taskCompleted) ==> State() == old(State())
      ensures old(Valid()) ==> Valid()
    {
      taskSolutions := taskSolutions - {task};
      taskCompleted := taskCompleted - {task};
      TaskStore.RemoveAbsentIsNoOp(old(State()), task);
    }

    /** getSolution: the stored solution, or `None` for Java's `null`. */
    method GetSolution(task: string) returns (r: Option<string>)
      ensures r == TaskStore.GetSolution(State(), task)
      ensures r.Some? <==> task in taskSolutions
      ensures r.Some? ==> r.value == taskSolutions[task]
    {
      r := if task in taskSolutions then Some(taskSolutions[task]) else None;
    }

    /** changeSolution: calls addTask, so the flag is reset to false even for
        a task that was completed. */
    method ChangeSolution(task: string, newSolution: string)
      modifies this
      ensures taskSolutions == old(taskSolutions)[task := newSolution]
      ensures taskCompleted == old(taskCompleted)[task := false]
      ensures State() == TaskStore.ChangeSolution(old(State()), task, newSolution)
      ensures old(Valid()) ==> Valid()
    {
      AddTask(task, newSolution);
    }

    /** isCompleted: the flag of a task that has one; for any other task the
        Java method unboxes `null` and throws. */
    method IsCompleted(task: string) returns (r: bool)
      requires task in taskCompleted
      ensures r == TaskStore.IsCompleted(State(), task)
      ensures TaskStore.Flag(State(), task) == Some(r)
    {
      r := taskCompleted[task];
    }

    /** setCompleted(task): set the flag to true, for any task. */
    method SetCompleted(task: string)
      modifies this
      ensures taskSolutions == old(taskSolutions)
      ensures taskCompleted == old(taskCompleted)[task := true]
      ensures State() == TaskStore.SetCompleted(old(State()), task)
      ensures old(Valid()) ==> Valid()
    {
      taskCompleted := taskCompleted[task := true];
    }

    /** setCompleted(task, value): set the flag to `value`, for any task. */
    method SetCompletedTo(task: string, value: bool)
      modifies this
      ensures taskSolutions == old(taskSolutions)
      ensures taskCompleted == old(taskCompleted)[task := value]
      ensures State() == TaskStore.SetCompletedTo(old(State()), task, value)
      ensures old(Valid()) ==> Valid()
    {
      taskCompleted := taskCompleted[task := value];
    }

    /** hasSolution: false for an unknown task, otherwise whether its
        solution is a non-empty string. */
    method HasSolution(task: string) returns (r: bool)
      ensures r == TaskStore.HasSolution(State(), task)
      ensures r <==> TaskStore.GetSolution(State(), task) !in {None, Some("")}
      ensures r && Valid() ==> task in taskCompleted
    {
      if task !in taskSolutions {
        return false;
      }
      r := taskSolutions[task] != "";
      TaskStore.HasSolutionMeansUsableSolution(State(), task);
    }
  }

  /** The calls of the demonstration program: task names are case-sensitive,
      so changing "do laundry" adds a new task and leaves "Do laundry"
      alone. */
  method Scenario() {
    var m := new TaskManager();
    m.AddTask("Do laundry", "round up dirty clothes");
    m.AddTask("Fix hunger", "eat pizza");
    var s := m.GetSolution("Do laundry");
    assert s == Some("round up dirty clothes");
    m.ChangeSolution("do laundry", "eat pizza");
    var h := m.HasSolution("do laundry");
    assert h;
    s := m.GetSolution("do laundry");
    assert s == Some("eat pizza");
    s := m.GetSolution("Do laundry");
    assert s == Some("round up dirty clothes");
    h := m.HasSolution("do");
    assert !h;
    assert m.Valid() && m.taskCompleted["do laundry"] == false;
  }
}
