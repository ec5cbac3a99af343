/**
 * The task table: a fixed array of MAX_TASK_NUM task control blocks, the
 * number of tasks found at boot and the index of the current task. Boot
 * marks the first `numTask` slots Ready with a first-run context; the two
 * marking operations overwrite the current slot's status.
 */
module TaskManager {
  import opened Address
  import opened Context
  import opened Task

  const MAX_TASK_NUM: nat := 16

  /** How many control blocks of `t` have status `st`. */
  function CountStatus(t: seq<TaskControlBlock>, st: TaskStatus): (n: nat)
    ensures n <= |t|
  {
    if t == [] then 0
    else CountStatus(t[..|t| - 1], st) + (if t[|t| - 1].taskStatus == st then 1 else 0)
  }

  /** The table `t` with slot `i`'s status overwritten by `st`: its context and every other slot kept. */
  function WithStatus(t: seq<TaskControlBlock>, i: nat, st: TaskStatus): (r: seq<TaskControlBlock>)
    requires i < |t|
    ensures |r| == |t|
    ensures r[i].taskStatus == st && r[i].taskCx == t[i].taskCx
    ensures forall j :: 0 <= j < |t| && j != i ==> r[j] == t[j]
  {
    t[i := t[i].(taskStatus := st)]
  }

  /** A table whose first `n` slots are Ready and the rest UnInit has exactly `n` Ready tasks. */
  lemma {:induction false} ReadyCountOfBootTable(t: seq<TaskControlBlock>, n: nat)
    requires n <= |t|
    requires forall i :: 0 <= i < n ==> t[i].taskStatus == Ready
    requires forall i :: n <= i < |t| ==> t[i].taskStatus == UnInit
    ensures CountStatus(t, Ready) == n
    ensures CountStatus(t, UnInit) == |t| - n
  {
    if t != [] {
      var init := t[..|t| - 1];
      if n == |t| {
        ReadyCountOfBootTable(init, n - 1);
      } else {
        ReadyCountOfBootTable(init, n);
      }
    }
  }

  /**
   * Overwriting slot `i` with `st` adds one `st` task unless the slot already
   * had it, and removes one task of the slot's old status if that differs.
   */
  lemma {:induction false} CountAfterWithStatus(t: seq<TaskControlBlock>, i: nat, st: TaskStatus, other: TaskStatus)
    requires i < |t| && other != st
    ensures CountStatus(WithStatus(t, i, st), st) == CountStatus(t, st) + (if t[i].taskStatus == st then 0 else 1)
    ensures CountStatus(WithStatus(t, i, st), other) == CountStatus(t, other) - (if t[i].taskStatus == other then 1 else 0)
  {
    var r := WithStatus(t, i, st);
    var last := |t| - 1;
    if i == last {
      assert r[..last] == t[..last];
    } else {
      assert r[..last] == WithStatus(t[..last], i, st);
      CountAfterWithStatus(t[..last], i, st, other);
    }
  }

  /** Overwriting a status twice is the same as once. */
  lemma WithStatusIdempotent(t: seq<TaskControlBlock>, i: nat, st: TaskStatus)
    requires i < |t|
    ensures WithStatus(WithStatus(t, i, st), i, st) == WithStatus(t, i, st)
  {
  }

  /** Nothing protects Finished: suspending a task after it exited makes it Ready again. */
  lemma FinishedNotProtected(t: seq<TaskControlBlock>, i: nat)
    requires i < |t|
    ensures WithStatus(t, i, Finished)[i].taskStatus == Finished
    ensures WithStatus(WithStatus(t, i, Finished), i, Ready)[i].taskStatus == Ready
  {
  }

  class TaskManager {
    var numTask: nat
    var currentTask: nat
    const tcbs: array<TaskControlBlock>

    ghost predicate Valid()
      reads this
    {
      tcbs.Length == MAX_TASK_NUM && numTask <= MAX_TASK_NUM && currentTask < MAX_TASK_NUM
    }

    /**
     * The boot-time table: `numTask` is the count of embedded applications,
     * `initTaskCx(i)` the initial kernel stack pointer of task `i` and
     * `restore` the address of the trap-return trampoline. More than
     * MAX_TASK_NUM tasks would index past the array.
     */
    constructor (numTask: nat, initTaskCx: nat -> Usize, restore: Usize)
      requires numTask <= MAX_TASK_NUM
      ensures Valid() && fresh(tcbs)
      ensures this.numTask == numTask && currentTask == 0
      ensures forall i :: 0 <= i < numTask ==>
                tcbs[i] == TaskControlBlock(Ready, RestoreInit(restore, initTaskCx(i)))
      ensures forall i :: numTask <= i < MAX_TASK_NUM ==> tcbs[i] == TaskControlBlock(UnInit, Default())
      ensures CountStatus(tcbs[..], Ready) == numTask
    {
      var t := new TaskControlBlock[MAX_TASK_NUM](_ => TaskControlBlock(UnInit, Default()));
      for i := 0 to numTask
        invariant forall j :: 0 <= j < i ==> t[j] == TaskControlBlock(Ready, RestoreInit(restore, initTaskCx(j)))
        invariant forall j :: i <= j < MAX_TASK_NUM ==> t[j] == TaskControlBlock(UnInit, Default())
      {
        t[i] := t[i].(taskStatus := Ready);
        t[i] := t[i].(taskCx := RestoreInit(restore, initTaskCx(i)));
      }
      ReadyCountOfBootTable(t[..], numTask);
      this.numTask := numTask;
      currentTask := 0;
      tcbs := t;
    }

    /** `mark_current_exited`: the current task becomes Finished, whatever it was. */
    method MarkCurrentExited()
      requires Valid()
      modifies tcbs
      ensures Valid() && numTask == old(numTask) && currentTask == old(currentTask)
      ensures tcbs[..] == WithStatus(old(tcbs[..]), currentTask, Finished)
    {
      var current := currentTask;
      tcbs[current] := tcbs[current].(taskStatus := Finished);
    }

    /** `mark_current_suspended`: the current task becomes Ready, whatever it was. */
    method MarkCurrentSuspended()
      requires Valid()
      modifies tcbs
      ensures Valid() && numTask == old(numTask) && currentTask == old(currentTask)
      ensures tcbs[..] == WithStatus(old(tcbs[..]), currentTask, Ready)
    {
      var current := currentTask;
      tcbs[current] := tcbs[current].(taskStatus := Ready);
    }
  }
}
