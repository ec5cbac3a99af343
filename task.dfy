/** A task's scheduling state and its control block. */
module Task {
  import opened Context

  datatype TaskStatus = UnInit | Ready | Running | Finished

  /** A task control block: its status and its saved context, nothing more. */
  datatype TaskControlBlock = TaskControlBlock(taskStatus: TaskStatus, taskCx: TaskContext)

  /** Every status is one of the four variants, and they are distinct. */
  lemma StatusCases(s: TaskStatus)
    ensures s == UnInit || s == Ready || s == Running || s == Finished
    ensures UnInit != Ready && UnInit != Running && UnInit != Finished
    ensures Ready != Running && Ready != Finished && Running != Finished
  {
  }
}
