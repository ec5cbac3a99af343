/**
 * The saved register snapshot of a task: return address, stack pointer and
 * the twelve callee-saved registers s0-s11.
 */
module Context {
  import opened Address

  const CALLEE_SAVED: nat := 12

  /** The `[usize; 12]` array of callee-saved registers. */
  type CalleeSaved = s: seq<Usize> | |s| == CALLEE_SAVED witness seq(CALLEE_SAVED, _ => 0)

  datatype TaskContext = TaskContext(ra: Usize, sp: Usize, s: CalleeSaved)

  /** Twelve zero registers, `[0; 12]`. */
  function ZeroRegisters(): (s: CalleeSaved)
    ensures forall i :: 0 <= i < CALLEE_SAVED ==> s[i] == 0
  {
    seq(CALLEE_SAVED, _ => 0)
  }

  /** The derived `Default`: every field zero. */
  function Default(): (c: TaskContext)
    ensures c.ra == 0 && c.sp == 0
    ensures forall i :: 0 <= i < CALLEE_SAVED ==> c.s[i] == 0
  {
    TaskContext(0, 0, ZeroRegisters())
  }

  /**
   * `restore_init(kernel_stack_ptr)`: a first-run context that returns into
   * the trap-return trampoline `restore` (the address of `__restore`, a
   * symbol outside this model) on the given kernel stack.
   */
  function RestoreInit(restore: Usize, kernelStackPtr: Usize): (c: TaskContext)
    ensures c.sp == kernelStackPtr && c.ra == restore
    ensures forall i :: 0 <= i < CALLEE_SAVED ==> c.s[i] == 0
  {
    TaskContext(restore, kernelStackPtr, ZeroRegisters())
  }

  /**
   * Two first-run contexts differ only in their stack pointers, and each
   * agrees with the default context everywhere except `ra` and `sp`.
   */
  lemma RestoreInitDiffersOnlyInSp(restore: Usize, k1: Usize, k2: Usize)
    ensures RestoreInit(restore, k1).ra == RestoreInit(restore, k2).ra
    ensures RestoreInit(restore, k1) == RestoreInit(restore, k2) <==> k1 == k2
    ensures RestoreInit(restore, k1) == Default().(ra := restore, sp := k1)
  {
  }
}
