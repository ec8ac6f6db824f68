/** kernel::syscall::Manager: dispatches a system call number through a table of
    handlers. */
module SyscallManager {
  import opened Base

  /** The handlers the table names; what each does is outside this model. */
  datatype Handler = Fork | Write

  const SyscallFork: int := 0
  const SyscallWrite: int := 1

  /** `Manager::syscalls`: entries indexed by number, null where no handler is set. */
  const Table: seq<Option<Handler>> := [Some(Fork), Some(Write)]

  /** `Sum()`: the number of table entries, one more than the largest number defined. */
  function Sum(table: seq<Option<Handler>>): int {
    |table|
  }

  /** Whether `num` selects a handler in `table`. */
  predicate Valid(table: seq<Option<Handler>>, num: int) {
    0 <= num < |table| && table[num].Some?
  }

  /** `DoWork(num)`: -1 for a number outside the table or a null entry, otherwise what
      the handler returns; `invoke` stands for running a handler. */
  function DoWork(table: seq<Option<Handler>>, num: int, invoke: Handler -> int): (r: int)
    ensures !Valid(table, num) ==> r == -1
    ensures Valid(table, num) ==> r == invoke(table[num].value)
  {
    if num >= Sum(table) || num < 0 || table[num].None? then -1
    else invoke(table[num].value)
  }

  /** The kernel's table has two entries, fork at 0 and write at 1. */
  lemma TableShape()
    ensures Sum(Table) == 2
    ensures Table[SyscallFork] == Some(Fork) && Table[SyscallWrite] == Some(Write)
  {
  }

  /** With the kernel's table, the numbers 0 and 1 run fork and write and every other
      number is rejected with -1 before any handler runs. */
  lemma {:induction false} Dispatch(num: int, invoke: Handler -> int)
    ensures num == SyscallFork ==> DoWork(Table, num, invoke) == invoke(Fork)
    ensures num == SyscallWrite ==> DoWork(Table, num, invoke) == invoke(Write)
    ensures num != SyscallFork && num != SyscallWrite ==> DoWork(Table, num, invoke) == -1
  {
    TableShape();
  }

  /** The result depends on the handler only for a valid number: a handler that cannot
      be reached cannot change what DoWork returns. */
  lemma Unreached(table: seq<Option<Handler>>, num: int, f: Handler -> int, g: Handler -> int)
    requires !Valid(table, num)
    ensures DoWork(table, num, f) == DoWork(table, num, g)
  {
  }
}
