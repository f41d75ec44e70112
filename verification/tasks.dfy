/**
 A task: one unit of work with an id, a work function, an argument record,
 a priority and an execution status. The argument record carries the payload
 address, the ownership flag (DELETE / NO_DELETE) and the address of the
 result slot the work function writes to.
 */
module Tasks {
  import opened Wrappers

  /** An address in the host program's memory; 0 stands for NULL. */
  type Addr = nat

  /** Who releases the payload: the pool after execution, or the caller. */
  datatype Ownership = Delete | NoDelete

  datatype Argument = Argument(arg: Addr, delArg: Ownership, result: Addr)

  /** The argument of a work function that takes no payload and writes no result. */
  const NoArgument: Argument := Argument(0, NoDelete, 0)

  datatype Priority = Low | Medium | High

  /** The priority the example programs submit with. */
  const DefaultPriority: Priority := Medium

  /** The total order on priorities: a larger rank is dispatched first. */
  function Rank(p: Priority): nat
  {
    match p
    case Low => 0
    case Medium => 1
    case High => 2
  }

  datatype Status = NotExecuted | Executed

  /** The identity of a work function (a function pointer in the host program). */
  type WorkFn = nat

  datatype Task = Task(id: nat, work: WorkFn, argument: Argument, priority: Priority, status: Status)

  /** make_argument: packs the three fields without changing any of them. */
  function MakeArgument(arg: Addr, delArg: Ownership, result: Addr): (r: Argument)
    ensures r.arg == arg && r.delArg == delArg && r.result == result
  {
    Argument(arg, delArg, result)
  }

  /** A created task together with the id counter after issuing its id. */
  datatype Created = Created(task: Task, lastId: nat)

  /**
   task_create: a fresh task with the given work, argument and priority, not yet
   executed. Its id is above every id issued before (the counter `lastId`), so
   it cannot already be linked into a list of earlier tasks. `allocOk` is false
   when allocation fails, and then no task is returned.
   */
  function Create(work: WorkFn, argument: Argument, priority: Priority, lastId: nat, allocOk: bool): (r: Option<Created>)
    ensures r.Some? <==> allocOk
    ensures r.Some? ==>
      && r.value.task.work == work
      && r.value.task.argument == argument
      && r.value.task.priority == priority
      && r.value.task.status == NotExecuted
      && 0 < r.value.task.id
      && lastId < r.value.task.id <= r.value.lastId
  {
    if allocOk then
      var id := lastId + 1;
      Some(Created(Task(id, work, argument, priority, NotExecuted), id))
    else
      None
  }

  /** A task after task_exec, the value task_exec returned, and the memory after the call. */
  datatype ExecOutcome<M> = ExecOutcome(task: Task, code: int, mem: M)

  /**
   task_exec: runs the work on the argument once. `run` gives the effect of a
   work function on the memory `mem`. A task already executed is not run again
   and the call returns 0; the first call returns 1.
   */
  function Exec<M>(t: Task, mem: M, run: (WorkFn, Argument, M) -> M): (r: ExecOutcome<M>)
    ensures r.task == t.(status := Executed)
    ensures r.code == 0 <==> t.status == Executed
    ensures t.status == Executed ==> r.mem == mem
    ensures t.status == NotExecuted ==> r.code == 1 && r.mem == run(t.work, t.argument, mem)
  {
    match t.status
    case Executed => ExecOutcome(t, 0, mem)
    case NotExecuted => ExecOutcome(t.(status := Executed), 1, run(t.work, t.argument, mem))
  }

  /**
   Executing a fresh task twice has the effect of running its work exactly
   once; the second call reports "already executed".
   */
  lemma ExecTwiceRunsOnce<M>(t: Task, mem: M, run: (WorkFn, Argument, M) -> M)
    requires t.status == NotExecuted
    ensures var first := Exec(t, mem, run);
      var second := Exec(first.task, first.mem, run);
      && first.code != 0
      && second.code == 0
      && second.task == first.task
      && second.task.status == Executed
      && second.mem == run(t.work, t.argument, mem)
  {
  }

  /** A task whose id is above the counter is not in a list of earlier tasks. */
  lemma FreshTaskUnlinked(s: seq<Task>, work: WorkFn, argument: Argument, priority: Priority, lastId: nat)
    requires forall i :: 0 <= i < |s| ==> s[i].id <= lastId
    ensures var c := Create(work, argument, priority, lastId, true);
      forall i :: 0 <= i < |s| ==> s[i].id != c.value.task.id && s[i] != c.value.task
  {
  }

  // The scenarios of the unit tests for arguments and tasks.

  /** make_argument_test: the three fields are stored as given. */
  lemma MakeArgumentTest(myArg: Addr, result: Addr)
    ensures MakeArgument(myArg, Delete, result) == Argument(myArg, Delete, result)
  {
  }

  /** task_create_test: a HIGH task on no argument, not executed. */
  lemma TaskCreateTest(work: WorkFn, lastId: nat)
    ensures var c := Create(work, NoArgument, High, lastId, true);
      c.Some? && c.value.task.work == work && c.value.task.priority == High
      && c.value.task.status == NotExecuted
  {
  }

  /** task_exec_test: the work sets a flag; a second task_exec returns 0 and the flag stays set. */
  lemma TaskExecTest(work: WorkFn, lastId: nat)
    ensures var t := Create(work, NoArgument, High, lastId, true).value.task;
      var run := (w: WorkFn, a: Argument, flag: int) => 1;
      var first := Exec(t, 0, run);
      var second := Exec(first.task, first.mem, run);
      first.task.status == Executed && second.code == 0 && second.mem == 1
  {
  }
}
