/** The state of a task manager as a value: the table of solutions and the
    table of completion flags, both keyed by task name, with one function per
    operation of the manager and the laws those operations obey. The class in
    TaskManager.dfy is proved against these functions. */
module TaskStore {
  import opened Wrappers

  /** `solutions` maps a task to its solution text; `completed` maps a task to
      its completion flag. The two tables share keys but are not forced to
      hold the same ones. */
  datatype Store = Store(solutions: map<string, string>, completed: map<string, bool>)

  /** A freshly constructed manager: both tables empty. */
  const Empty := Store(map[], map[])

  /** The invariant every reachable store keeps: a task with a solution also
      has a completion flag. The converse fails once a flag is set for a task
      that has no solution. */
  predicate Paired(st: Store) {
    st.solutions.Keys <= st.completed.Keys
  }

  /** The solution stored for `task`, `None` standing for Java's `null`. */
  function GetSolution(st: Store, task: string): Option<string> {
    if task in st.solutions then Some(st.solutions[task]) else None
  }

  /** The completion flag stored for `task`, `None` when there is no entry. */
  function Flag(st: Store, task: string): Option<bool> {
    if task in st.completed then Some(st.completed[task]) else None
  }

  /** Stores `a` and `b` hold the same entries for task `k` in both tables. */
  predicate AgreeAt(a: Store, b: Store, k: string) {
    GetSolution(a, k) == GetSolution(b, k) && Flag(a, k) == Flag(b, k)
  }

  /** addTask: store (or overwrite) the solution and reset the flag to false,
      whatever it was before. */
  function AddTask(st: Store, task: string, solution: string): (r: Store)
    ensures GetSolution(r, task) == Some(solution)
    ensures Flag(r, task) == Some(false)
    ensures forall k :: k != task ==> AgreeAt(st, r, k)
    ensures Paired(st) ==> Paired(r)
  {
    Store(st.solutions[task := solution], st.completed[task := false])
  }

  /** removeTask: drop the task from both tables; nothing happens to a task
      that is absent. */
  function RemoveTask(st: Store, task: string): (r: Store)
    ensures GetSolution(r, task) == None && Flag(r, task) == None
    ensures forall k :: k != task ==> AgreeAt(st, r, k)
    ensures Paired(st) ==> Paired(r)
  {
    Store(st.solutions - {task}, st.completed - {task})
  }

  /** changeSolution: delegates to addTask, so it also clears the flag. */
  function ChangeSolution(st: Store, task: string, newSolution: string): Store {
    AddTask(st, task, newSolution)
  }

  /** isCompleted: only defined for a task with a flag, since Java unboxes the
      `null` of a missing entry and throws. */
  function IsCompleted(st: Store, task: string): bool
    requires task in st.completed
  {
    st.completed[task]
  }

  /** setCompleted(task, value): put the flag, creating the entry if needed;
      the solution table is untouched. */
  function SetCompletedTo(st: Store, task: string, value: bool): (r: Store)
    ensures Flag(r, task) == Some(value)
    ensures r.solutions == st.solutions
    ensures forall k :: k != task ==> AgreeAt(st, r, k)
    ensures Paired(st) ==> Paired(r)
  {
    Store(st.solutions, st.completed[task := value])
  }

  /** setCompleted(task): the one-argument overload, which stores `true`. */
  function SetCompleted(st: Store, task: string): Store {
    Store(st.solutions, st.completed[task := true])
  }

  /** hasSolution: the task has a solution and it is not the empty string. */
  function HasSolution(st: Store, task: string): bool {
    task in st.solutions && st.solutions[task] != ""
  }

  // ---------------------------------------------------------------------
  // Laws relating the operations
  // ---------------------------------------------------------------------

  /** changeSolution has exactly the effect of addTask, so a completed task
      becomes not completed when its solution changes. */
  lemma ChangeSolutionIsAddTask(st: Store, task: string, newSolution: string)
    ensures ChangeSolution(st, task, newSolution) == AddTask(st, task, newSolution)
    ensures Flag(ChangeSolution(st, task, newSolution), task) == Some(false)
    ensures GetSolution(ChangeSolution(st, task, newSolution), task) == Some(newSolution)
  {
  }

  /** The one-argument setCompleted is the two-argument one with `true`. */
  lemma SetCompletedIsSetTrue(st: Store, task: string)
    ensures SetCompleted(st, task) == SetCompletedTo(st, task, true)
    ensures Flag(SetCompleted(st, task), task) == Some(true)
    ensures IsCompleted(SetCompleted(st, task), task)
  {
  }

  /** Adding a task that was in neither table and then removing it gives back
      the original store. */
  lemma RemoveUndoesAdd(st: Store, task: string, solution: string)
    requires GetSolution(st, task) == None && Flag(st, task) == None
    ensures RemoveTask(AddTask(st, task, solution), task) == st
  {
  }

  /** Removing an absent task is a no-op, and removing twice is removing once. */
  lemma RemoveAbsentIsNoOp(st: Store, task: string)
    ensures GetSolution(st, task) == None && Flag(st, task) == None ==> RemoveTask(st, task) == st
    ensures RemoveTask(RemoveTask(st, task), task) == RemoveTask(st, task)
  {
  }

  /** The last addTask on a task wins: the earlier solution and any flag
      change in between leave no trace. */
  lemma LastAddWins(st: Store, task: string, first: string, second: string, value: bool)
    ensures AddTask(AddTask(st, task, first), task, second) == AddTask(st, task, second)
    ensures AddTask(SetCompletedTo(st, task, value), task, second) == AddTask(st, task, second)
  {
  }

  /** After addTask(t, s): getSolution gives s, isCompleted gives false and
      hasSolution tells whether s is non-empty. */
  lemma AddThenQuery(st: Store, task: string, solution: string)
    ensures GetSolution(AddTask(st, task, solution), task) == Some(solution)
    ensures !IsCompleted(AddTask(st, task, solution), task)
    ensures HasSolution(AddTask(st, task, solution), task) <==> solution != ""
  {
  }

  /** hasSolution holds exactly when getSolution returns a non-null,
      non-empty string; in a paired store such a task also has a flag, so
      isCompleted is then defined. */
  lemma HasSolutionMeansUsableSolution(st: Store, task: string)
    ensures HasSolution(st, task) <==> GetSolution(st, task) !in {None, Some("")}
    ensures Paired(st) && HasSolution(st, task) ==> task in st.completed
  {
  }

  /** setCompleted on a task without a solution makes the key sets differ,
      which is why only `Paired` (inclusion) is invariant. */
  lemma SetCompletedCanUnpair(st: Store, task: string, value: bool)
    requires task !in st.solutions
    ensures var r := SetCompletedTo(st, task, value);
      (Paired(st) ==> Paired(r)) && r.solutions.Keys != r.completed.Keys
  {
  }

  // ---------------------------------------------------------------------
  // Sequences of calls: the sequential oracle the synchronized methods
  // must match
  // ---------------------------------------------------------------------

  /** One call of a state-changing public method of the manager. */
  datatype Call =
    | Add(task: string, solution: string)
    | Remove(task: string)
    | Change(task: string, solution: string)
    | MarkCompleted(task: string)
    | SetCompletion(task: string, value: bool)

  /** The effect of one call. It touches only the entries of its own task
      and keeps the invariant. */
  function Apply(st: Store, c: Call): (r: Store)
    ensures forall k :: k != c.task ==> AgreeAt(st, r, k)
    ensures Paired(st) ==> Paired(r)
  {
    match c
    case Add(t, s) => AddTask(st, t, s)
    case Remove(t) => RemoveTask(st, t)
    case Change(t, s) => ChangeSolution(st, t, s)
    case MarkCompleted(t) => SetCompleted(st, t)
    case SetCompletion(t, v) => SetCompletedTo(st, t, v)
  }

  /** The calls performed one after another, first to last: since every
      public method that reads or writes the two maps holds the manager's
      lock for its whole duration, any run of concurrent calls ends in the
      state of some such sequence. Every sequence of calls keeps the
      invariant. */
  function Run(st: Store, calls: seq<Call>): (r: Store)
    ensures Paired(st) ==> Paired(r)
    decreases |calls|
  {
    if calls == [] then st else Run(Apply(st, calls[0]), calls[1..])
  }

  /** The calls of `calls` that concern task `k`, in order. */
  function OnTask(calls: seq<Call>, k: string): seq<Call> {
    if calls == [] then []
    else if calls[0].task == k then [calls[0]] + OnTask(calls[1..], k)
    else OnTask(calls[1..], k)
  }

  /** Two stores that agree on task `k` still agree on it after the same
      calls. */
  lemma {:induction false} RunCongruentAt(a: Store, b: Store, calls: seq<Call>, k: string)
    requires AgreeAt(a, b, k)
    ensures AgreeAt(Run(a, calls), Run(b, calls), k)
    decreases |calls|
  {
    if calls != [] {
      var a', b' := Apply(a, calls[0]), Apply(b, calls[0]);
      assert AgreeAt(a', b', k) by {
        match calls[0]
        case Add(t, s) =>
        case Remove(t) =>
        case Change(t, s) =>
        case MarkCompleted(t) =>
        case SetCompletion(t, v) =>
      }
      RunCongruentAt(a', b', calls[1..], k);
    }
  }

  /** Tasks are independent: the final entries of task `k` depend only on
      the calls that name `k`. */
  lemma {:induction false} RunPerTask(st: Store, calls: seq<Call>, k: string)
    ensures AgreeAt(Run(st, calls), Run(st, OnTask(calls, k)), k)
    decreases |calls|
  {
    if calls != [] {
      var st' := Apply(st, calls[0]);
      RunPerTask(st', calls[1..], k);
      if calls[0].task != k {
        RunCongruentAt(st', st, OnTask(calls[1..], k), k);
      } else {
        assert OnTask(calls, k)[0] == calls[0] && OnTask(calls, k)[1..] == OnTask(calls[1..], k);
      }
    }
  }

  /** A task that no call names keeps the entries it had. */
  lemma {:induction false} RunFrame(st: Store, calls: seq<Call>, k: string)
    requires forall c :: c in calls ==> c.task != k
    ensures AgreeAt(st, Run(st, calls), k)
    decreases |calls|
  {
    if calls != [] {
      assert calls[0] in calls;
      assert forall c :: c in calls[1..] ==> c in calls;
      RunFrame(Apply(st, calls[0]), calls[1..], k);
    }
  }

  /** A task that was never added or changed, starting from a store without
      its solution, has no solution afterwards: getSolution returns `null`
      and hasSolution is false, whatever flags were set or removed. */
  lemma {:induction false} NeverAddedHasNoSolution(st: Store, calls: seq<Call>, k: string)
    requires GetSolution(st, k) == None
    requires forall c :: c in calls && (c.Add? || c.Change?) ==> c.task != k
    ensures GetSolution(Run(st, calls), k) == None
    ensures !HasSolution(Run(st, calls), k)
    decreases |calls|
  {
    if calls != [] {
      assert calls[0] in calls;
      assert forall c :: c in calls[1..] ==> c in calls;
      var st' := Apply(st, calls[0]);
      assert GetSolution(st', k) == None by {
        match calls[0]
        case Add(t, s) =>
        case Remove(t) =>
        case Change(t, s) =>
        case MarkCompleted(t) =>
        case SetCompletion(t, v) =>
      }
      NeverAddedHasNoSolution(st', calls[1..], k);
    }
  }
}
