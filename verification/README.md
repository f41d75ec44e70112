# ThreadPool, modelled in Dafny

A model of the sequential core of a small C thread pool with prioritised
tasks, and proofs about it.

- **Tasks** (`tasks.dfy`). An argument record holds a payload address, an
  ownership flag (`DELETE` / `NO_DELETE`) and a result address. A task holds an
  id, a work function, an argument, a priority (`LOW`, `MEDIUM`, `HIGH`) and a
  status. `task_exec` runs the work at most once.
- **Priority task list** (`tasklist.dfy`). The linked list becomes a sequence
  whose head is the list head, with the count `n_tasks` kept beside it. Insert
  places a task in front of the first task of strictly lower priority, so the
  list is in descending priority and in arrival order among equals. The module
  also has pop, get, remove-by-id and clear.
- **Pool** (`threadpool.dfy`). All shared state is changed under one mutex, so
  each critical section is one atomic transition on the pool state. The state
  is the pending list, the executing list, the stop flag, the id counter and
  where each worker thread is. A worker is waiting at the top of its loop,
  running a task, or exited. The transitions are `threadpool_add`,
  `threadpool_addTask` called directly with a task the caller made, the two
  critical sections of `threadpool_worker` (dispatch and completion), and the
  stop logic of `threadpool_free`.
  `threadpool_wait`, `threadpool_waitTask` and `threadpool_isDone` are
  predicates on a state. The invariant holds along every run from a new pool.
  It says that no id is both pending and executing, that ids are distinct and
  issued by the counter, that pending is oldest first among equal priorities,
  and that the executing list holds exactly the tasks of the running workers.
  "Oldest" is by submission: the model stamps each submitted task with the
  next value of a submission count. The stamps and the count are bookkeeping
  of the model, not fields of the C struct.
- **Array-sum example** (`array_sum.dfy`). `[0, ARRAY_SIZE)` is split into
  `THREADS` contiguous ranges, with the remainder going to the last one. One
  task per range writes its range's sum to its own result slot
  (`AddElementsEffect`). The partial
  sums add up to `n(n+1)/2 = 4950` in whatever order the workers run the
  tasks.
- **Single-call example** (`simple_work_function.dfy`). Its summation loop
  reads the range's `count` as an end index; see Findings.

The work function is an opaque name (`WorkFn`). Its effect on memory is a
parameter `run` of `Exec`. Addresses are natural numbers, with 0 for NULL.
Allocation success is a boolean parameter of the operations that allocate.

`task.c` and `task.h` are not part of this model. The behaviour of arguments,
tasks and task lists is taken from what `src/task/task_test.c` asserts, and
from how `threadpool.c` uses them. When `task_create` fails, `threadpool_add`
passes its NULL result to `threadpool_addTask`, which returns 0 when
`tasklist_insert` reports failure. The model assumes that `tasklist_insert`
fails on NULL (`TaskLists.Insert` fails on `None`), so `ThreadPool.Add`
returns 0 then.

## Model

| member | source | states |
|---|---|---|
| Tasks.MakeArgument | src/task/task_test.c:25-39 | the argument record keeps the payload, the ownership flag and the result address exactly as given |
| Tasks.MakeArgumentTest | src/task/task_test.c:30-35 | a `DELETE` argument built from a payload and a result address reads back those three values |
| Tasks.Create | src/task/task_test.c:45-58 | a task exists exactly when allocation succeeds; it has the given work, argument and priority, status NOT_EXECUTED, and a non-zero id above every id issued before |
| Tasks.FreshTaskUnlinked | src/task/task_test.c:48-54 | a new task differs in id from, and so is not, any member of a list of earlier tasks: it is not linked anywhere |
| Tasks.TaskCreateTest | src/task/task_test.c:45-58 | a HIGH task on no argument has that work and priority and is not executed |
| Tasks.Exec | src/task/task_test.c:60-76 | after the call the status is EXECUTED; the returned code is 0 exactly when the task had already been executed, and then memory is untouched; a first call returns 1 and applies the work to the argument once |
| Tasks.ExecTwiceRunsOnce | src/task/task_test.c:63-71 | executing a fresh task twice runs its work exactly once, and the second call returns 0 |
| Tasks.TaskExecTest | src/task/task_test.c:60-76 | the flag-setting work leaves the flag at 1 after one execution, and a second execution returns 0 |
| TaskLists.Create | src/task/task_test.c:83-94 | a new list has no members, a count of 0 and is well formed |
| TaskLists.CreateTest | src/task/task_test.c:86-90 | a new list is empty with a zero count |
| TaskLists.FirstLower | src/task/task_test.c:96-122 | the insert position: every task before it is of equal or higher priority, and the task at it is of strictly lower priority |
| TaskLists.InsertSeq | src/task/task_test.c:96-122 | the new task goes in right before the first task of strictly lower priority, and the other members keep their order |
| TaskLists.Insert | src/task/task_test.c:96-122 | with no task (NULL) the insert fails and the list is unchanged; otherwise the task is added at its priority position, the count rises by one, the members gain exactly that task, and the order and distinct ids are kept |
| TaskLists.InsertTest | src/task/task_test.c:107-115 | inserting HIGH, MEDIUM, LOW gives a count of 3 and the order HIGH, MEDIUM, LOW |
| TaskLists.Pop | src/task/task_test.c:124-156 | an empty list yields nothing and is unchanged; otherwise the head, which no remaining task outranks, is removed and the count drops by one |
| TaskLists.DrainIsOrder | src/task/task_test.c:142-146 | popping until empty yields the members in list order |
| TaskLists.InsertAllIsByPriority | src/task/task_test.c:136-139 | inserting tasks one by one into a new list gives all HIGH tasks, then MEDIUM, then LOW, each group in insertion order, with a count equal to the number inserted |
| TaskLists.InsertAllPermutes | src/task/task_test.c:136-139 | the list built by the inserts holds exactly the inserted tasks |
| TaskLists.InsertKeepsArrivalOrder | src/task/task_test.c:136-143 | inserting a task stamped later than every member into a sorted list that is oldest first among equal priorities keeps it oldest first among equal priorities |
| TaskLists.ArrivalOrderTail | src/task/task_test.c:141-143 | in a list that is oldest first among equal priorities, the head is stamped earlier than every other member of its priority, and the rest stays in that order |
| TaskLists.PopOrderIsStable | src/task/task_test.c:136-148 | the pop order of inserted tasks is by descending priority, keeps the insertion order within each priority, and is a permutation of the inserted tasks |
| TaskLists.PopTest | src/task/task_test.c:124-156 | after inserting MEDIUM, HIGH1, HIGH2, LOW the pops give HIGH1, HIGH2, MEDIUM, LOW and a zero count, and the emptied list can be used again |
| TaskLists.Get | src/threadpool/threadpool.c:148 | the lookup finds nothing exactly when no member has the id; a hit is a member with that id |
| TaskLists.IndexOfId | src/task/task_test.c:174-176 | the position of the first member with the id; the list length exactly when the id is absent |
| TaskLists.RemoveSeq | src/task/task_test.c:174-178 | unlinks the first member with the id from wherever it sits and returns it; an absent id returns nothing and changes nothing |
| TaskLists.Remove | src/task/task_test.c:158-185 | returns the member with the id from any position and drops the count by one, keeping the other members in order; an absent id returns nothing; with distinct ids the id is gone afterwards |
| TaskLists.RemoveTest | src/task/task_test.c:174-178 | MEDIUM, LOW and HIGH are removed in turn, the count reaches 0, and removing HIGH again does not return it |
| TaskLists.Clear | src/task/task_test.c:187-207 | after clearing the count is 0 and no id is found |
| TaskLists.ClearTest | src/task/task_test.c:203-206 | clearing a list of three leaves a zero count |
| ThreadPool.Create | src/threadpool/threadpool.c:54-71 | no pool when allocation fails; otherwise empty lists, stop cleared, `n` waiting workers, and the invariant holds |
| ThreadPool.AddTask | src/threadpool/threadpool.c:85-103 | with no task the result is 0 and nothing changes; otherwise the result is the task's id and pending gains exactly that task at its priority position, stamped as the latest submission, while executing, the workers, the counter and stop are untouched |
| ThreadPool.AddTaskKeepsInv | src/threadpool/threadpool.c:85-103 | submitting a task whose id is non-zero, already issued by the counter (`0 < id <= lastId`) and in neither list keeps the invariant, including arrival order among equal priorities |
| ThreadPool.SubmitCreated | src/threadpool/threadpool.c:85-103 | `threadpool_addTask` on a task the caller made with `task_create`, at any time after making it: no task gives 0 and changes nothing; a task is returned by its id and pending gains exactly it at its priority position, behind every pending task of its priority, whatever its id; the counter is at least its id, executing, the workers and stop are untouched, and the invariant is kept |
| ThreadPool.Add | src/threadpool/threadpool.c:105-112 | a failed allocation gives 0 and an unchanged pool; otherwise a fresh id, above every id issued before and not in either list, to which the counter moves, and pending gains the task built from the given work, argument and priority; the invariant is kept |
| ThreadPool.Dispatch | src/threadpool/threadpool.c:15-31 | with stop set the worker exits and both lists are unchanged; with nothing pending nothing changes; otherwise pending's head, which no pending task outranks and which, when pending is in arrival order, was submitted before every other pending task of its priority, moves to executing, and the worker runs it, so the total number of tasks is conserved |
| ThreadPool.DispatchKeepsInv | src/threadpool/threadpool.c:20-31 | a dispatch keeps the invariant |
| ThreadPool.Complete | src/threadpool/threadpool.c:36-47 | the worker's task id is removed from executing and is then in neither list; pending and stop are untouched and the worker is back at the top of its loop |
| ThreadPool.CompleteKeepsInv | src/threadpool/threadpool.c:39-41 | a completion keeps the invariant |
| ThreadPool.IssuedIdsAreNew | src/threadpool/threadpool.c:105-112 | after any run from a state satisfying the invariant, a successful submission gets an id above every id issued before the run and in neither list |
| ThreadPool.IsDone | src/threadpool/threadpool.c:141-155 | the result is 1 exactly when the id is in neither executing nor pending, and 0 otherwise |
| ThreadPool.WaitMeansDrained | src/threadpool/threadpool.c:114-125 | the wait loop exits exactly when both lists are empty; then no worker runs a task and every id is done |
| ThreadPool.WaitTaskMeansDone | src/threadpool/threadpool.c:127-139 | the wait-for-task loop exits exactly when isDone would report 1, that is when the id is in neither list |
| ThreadPool.Free | src/threadpool/threadpool.c:157-166 | stop is set only in a state where the wait has returned, and nothing else changes |
| ThreadPool.FreeStopsWorkers | src/threadpool/threadpool.c:159-166 | once free has set stop, both lists are empty, no worker runs, and a waiting worker exits without taking a task |
| ThreadPool.ApplyKeepsInv | src/threadpool/threadpool.c:15-166 | every critical section, including `threadpool_addTask` on a caller-made task, keeps the invariant, never clears stop, keeps the worker count, never revives an exited worker, and never moves the id counter back |
| ThreadPool.RunKeepsInv | src/threadpool/threadpool.c:15-166 | along any sequence of critical sections, direct `threadpool_addTask` submissions included, the invariant holds, a set stop stays set, and the id counter never moves back |
| ThreadPool.ReachableInv | src/threadpool/threadpool.c:54-166 | in every state reachable from a new pool by `threadpool_add`, direct `threadpool_addTask`, worker and free steps, the invariant holds: in particular no id is both pending and executing |
| ThreadPool.LateSubmissionQueued | src/threadpool/threadpool.c:85-112 | a task made before a `threadpool_add` of the same priority, with an older id, and submitted after it with `threadpool_addTask` is accepted, returns its own id, is queued behind the newer task, and the invariant holds |
| ThreadPool.HighBeforeLow | src/threadpool/threadpool.c:20-30 | after a LOW task and then a HIGH one are submitted to an empty pending list, the next dispatch takes the HIGH task and the LOW one stays pending |
| ArraySum.AddElements | examples/array_sum.c:16-29 | the result is the sum of the `count` elements from `start` on, and 0 when `count` is not positive |
| ArraySum.AddElementsEffect | examples/array_sum.c:16-29 | when the payload address names an in-bounds range and the result address names a slot, that slot gets the range's sum and every other slot is unchanged; otherwise nothing changes |
| ArraySum.MakeRanges | examples/array_sum.c:48-59 | range i starts at i * (n / THREADS); every range but the last has n / THREADS elements and the last has the rest; together they are contiguous, disjoint and cover [0, n) |
| ArraySum.DivisionBounds | examples/array_sum.c:49-59 | the remainder left for the last range is at least the common count |
| ArraySum.PartitionInBounds | examples/array_sum.c:52-59 | every range of such a partition starts at or after 0 and ends at or before n |
| ArraySum.PartialSums | examples/array_sum.c:72-75 | one partial sum per range, each the sum of its range |
| ArraySum.PartitionSum | examples/array_sum.c:72-75 | the partial sums over a partition of [0, n) add up to the sum of the first n elements |
| ArraySum.SumIota | examples/array_sum.c:77-79 | twice the sum of 0, 1, ..., n-1 is n(n-1) |
| ArraySum.TaskArgument | examples/array_sum.c:65-67 | task i gets non-NULL addresses: a payload naming range i and a result naming slot i, with `NO_DELETE` ownership |
| ArraySum.OwnResultSlots | examples/array_sum.c:65-67 | different tasks have different payload addresses and different result addresses, and no result address is a payload address |
| ArraySum.TotalOfResults | examples/array_sum.c:72-79 | once every slot holds its range's sum over a partition of 0, 1, ..., 99, the slots add up to 4950 |
| ArraySum.ArraySumProgram | examples/array_sum.c:31-79 | whatever order the tasks run in and whatever the result slots held, the final result equals the expected result, 4950 |
| SimpleWorkFunction.AddElementsAsWritten | examples/simple_work_function.c:10-22 | the loop as written sums the elements from index `start` up to, not including, index `count`, and gives 0 when `count <= start` |
| SimpleWorkFunction.AsWrittenMissesElements | examples/simple_work_function.c:17-18 | for the range of 3 elements from index 2 of 0..9, the loop as written gives 2 while the range's elements sum to 9 |
| SimpleWorkFunction.AsWrittenAgreesFromZero | examples/simple_work_function.c:17-18 | for a range starting at 0 the loop as written and the corrected loop give the same sum |
| SimpleWorkFunction.SimpleProgram | examples/simple_work_function.c:24-54 | the loop as written, run on the range {0, 10, array} over 0..9, gives 45 |

## Left out

- Mutex and condition-variable mechanics, spurious wakeups, signal versus broadcast, fairness and real interleavings. Each locked section is one atomic step, and a blocked wait is a step that is not enabled.
- Thread creation and joining, the process exit when a worker thread cannot be started, the unchecked allocation of the thread array, and the detached background thread of `threadpool_freeLater`. These are operating-system plumbing.
- `malloc`/`free` of tasks, lists and the pool, `task_free` after completion, and deleting `DELETE`-owned payloads. Only allocation failure is modelled, as a boolean input.
- The memory teardown of `threadpool_free` after the joins.
- ThreadPool.Free: the wait and the setting of stop are one step here. In the C code they are two critical sections. A task submitted in between may still run, if a worker takes it before stop is set; otherwise it stays pending and is freed with the list, so it may be dropped. The model does not represent that gap.
- How `task.c` issues ids and links tasks, since that file is not part of this model. Ids come from a counter in the pool state (`lastId + 1`), so they are non-zero and increasing. In the C code `threadpool_add` calls `task_create` outside the lock, so ids need not follow submission order. The model's `Add` creates and submits in one step. The order among equal priorities is stated over submission stamps, not ids, and a task made earlier and submitted later (`SubmitCreated`) is covered.
- ThreadPool.SubmitCreated: the task must be one `task_create` handed out and not yet submitted: a non-zero id in neither list. Submitting a task a second time while it is still linked in a list, or a task with id 0, is outside the model. `Apply` treats such a submission as not enabled. In the C code `tasklist_insert` would link an already linked task again, and id 0 is the failure value of `threadpool_addTask`.
- Tasks.Exec: the value of a first execution is modelled as 1. Only "0 on a second call" is asserted; the first value is otherwise unknown.
- Integer widths. `int`, `long` and `n_tasks` are unbounded integers, so overflow is not modelled. The example values stay far below any limit.
- `printf` output and the example programs' `return 0`.
- ArraySum.ArraySumProgram: the pool is represented by an arbitrary run order of the three tasks. The waiting in `threadpool_free` is represented by all tasks having run before the results are added.
- SimpleWorkFunction.SimpleProgram: the call through `make_argument` and the function pointer is not modelled separately. The loop as written is applied to the range directly, and its write to the result slot is the method's result.
- Addresses and the array are values. In the array-sum program the payload of task i is address `1 + i` (range i) and its result is address `1 + THREADS + i` (slot i), so both are non-NULL and disjoint. "The array is unchanged" holds because the loops cannot write to it.

## Findings

| source | as written | input that shows it | evidently intended | confidence | as-written member | corrected member |
|---|---|---|---|---|---|---|
| examples/simple_work_function.c:17 | `for(i = range->start; i < range->count; i++)` adds the elements from index `start` up to index `count`, reading `count` as an end index | range {2, 3, array 0..9}: the loop adds only element 2, giving 2, but the range's 3 elements sum to 2 + 3 + 4 = 9 | add `count` elements from `start` on, as in `examples/array_sum.c:24-25` (`i < count`, `array[start + i]`) | medium, not executed; the program itself only uses start 0, where both agree | SimpleWorkFunction.AsWrittenMissesElements | ArraySum.AddElements |
