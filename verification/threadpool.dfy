/**
 The worker pool as a state machine. Every change to the shared state happens
 under the pool's one mutex, so each critical section is one atomic
 transition on the state: the pending list, the executing list, the stop flag,
 the id counter and where each worker thread is in its loop. Blocking on a
 condition variable is a transition that is not enabled yet.
 */
module ThreadPool {
  import opened Wrappers
  import opened Tasks
  import opened TaskLists

  /** Where a worker thread is: at the top of its loop, running a task outside the lock, or gone. */
  datatype Worker = Waiting | Running(task: Task) | Exited

  /**
   The shared state. `lastId` is the id counter of task_create. `stamps` and
   `submitted` are bookkeeping of the model, not fields of the C struct: each
   submission takes the next number of `submitted` and stamps the task's id with
   it, so that "oldest first" can be stated in the order tasks were submitted.
   */
  datatype Pool = Pool(
    pending: TaskList, executing: TaskList, stop: bool, workers: seq<Worker>, lastId: nat,
    stamps: map<nat, nat>, submitted: nat)

  /** The number of workers running a task. */
  function RunningCount(ws: seq<Worker>): nat
  {
    if ws == [] then 0 else (if ws[0].Running? then 1 else 0) + RunningCount(ws[1..])
  }

  lemma {:induction false} RunningCountUpdate(ws: seq<Worker>, w: nat, x: Worker)
    requires w < |ws|
    ensures RunningCount(ws[w := x]) + (if ws[w].Running? then 1 else 0)
      == RunningCount(ws) + (if x.Running? then 1 else 0)
  {
    if w > 0 {
      assert ws[w := x][1..] == ws[1..][w - 1 := x];
      RunningCountUpdate(ws[1..], w - 1, x);
    }
  }

  lemma {:induction false} NoneRunning(ws: seq<Worker>)
    requires RunningCount(ws) == 0
    ensures forall w :: 0 <= w < |ws| ==> !ws[w].Running?
  {
    if ws != [] {
      NoneRunning(ws[1..]);
      assert forall w :: 1 <= w < |ws| ==> ws[w] == ws[1..][w - 1];
    }
  }

  /**
   The pool invariant: both lists are well formed, pending is oldest first
   among equal priorities by submission stamp, no stamp is ahead of the
   submission count, no id occurs twice and no id is both pending and
   executing, every id was issued by the counter, and the executing list holds
   exactly the tasks of the running workers.
   */
  ghost predicate Inv(p: Pool)
  {
    ListsInv(p) && OrderInv(p) && WorkersInv(p)
  }

  /** Both lists are well formed, no id occurs twice, and every id was issued by the counter. */
  ghost predicate ListsInv(p: Pool)
  {
    && Valid(p.pending) && Valid(p.executing)
    && Distinct(p.pending.tasks) && Distinct(p.executing.tasks)
    && Ids(p.pending.tasks) !! Ids(p.executing.tasks)
    && (forall id :: id in Ids(p.pending.tasks) + Ids(p.executing.tasks) ==> 0 < id <= p.lastId)
  }

  /** Pending is oldest first among equal priorities, and no stamp is ahead of the submission count. */
  ghost predicate OrderInv(p: Pool)
  {
    && ArrivalOrder(p.pending.tasks, p.stamps)
    && (forall id :: id in p.stamps ==> p.stamps[id] <= p.submitted)
  }

  /** The executing list holds exactly the tasks of the running workers. */
  ghost predicate WorkersInv(p: Pool)
  {
    && (forall w :: 0 <= w < |p.workers| && p.workers[w].Running? ==> p.workers[w].task in p.executing.tasks)
    && (forall w :: 0 <= w < |p.workers| && p.workers[w].Running? ==> p.workers[w].task.id in Ids(p.executing.tasks))
    && (forall v, w ::
          (0 <= v < |p.workers| && 0 <= w < |p.workers| && v != w && p.workers[v].Running? && p.workers[w].Running?)
          ==> p.workers[v].task.id != p.workers[w].task.id)
    && |p.executing.tasks| == RunningCount(p.workers)
  }

  /**
   threadpool_create: empty lists, stop cleared, `n` workers at the top of their
   loop. `allocOk` is false when allocating the pool fails, and then no pool is
   returned.
   */
  function Create(n: nat, allocOk: bool): (r: Option<Pool>)
    ensures r.Some? <==> allocOk
    ensures r.Some? ==> var p := r.value;
      && Inv(p)
      && |p.workers| == n && (forall w :: 0 <= w < n ==> p.workers[w] == Waiting)
      && !p.stop && p.pending.tasks == [] && p.executing.tasks == []
      && p.pending.nTasks == 0 && p.executing.nTasks == 0
  {
    if !allocOk then None
    else
      var ws := seq(n, _ => Waiting);
      assert RunningCount(ws) == 0 by { AllWaiting(ws); }
      Some(Pool(TaskLists.Create(), TaskLists.Create(), false, ws, 0, map[], 0))
  }

  lemma {:induction false} AllWaiting(ws: seq<Worker>)
    requires forall w :: 0 <= w < |ws| ==> ws[w] == Waiting
    ensures RunningCount(ws) == 0
  {
    if ws != [] {
      AllWaiting(ws[1..]);
    }
  }

  /** The pool after a submission and the id threadpool_addTask returned. */
  datatype Submitted = Submitted(pool: Pool, id: nat)

  /**
   threadpool_addTask: under the lock, insert into pending. On success the
   result is the task's id and pending gains exactly that task, stamped with the
   next submission number; on failure (no task) the result is 0 and nothing
   changes. Executing, the workers and the stop flag are never touched.
   */
  function AddTask(p: Pool, t: Option<Task>): (r: Submitted)
    ensures t.None? ==> r.id == 0 && r.pool == p
    ensures t.Some? ==>
      && r.id == t.value.id
      && r.pool.pending.tasks == InsertSeq(p.pending.tasks, t.value)
      && multiset(r.pool.pending.tasks) == multiset(p.pending.tasks) + multiset{t.value}
      && Ids(r.pool.pending.tasks) == Ids(p.pending.tasks) + {t.value.id}
      && r.pool == p.(pending := r.pool.pending, stamps := p.stamps[t.value.id := p.submitted + 1], submitted := p.submitted + 1)
    ensures Valid(p.pending) ==> Valid(r.pool.pending)
  {
    var ins := Insert(p.pending, t);
    if ins.ok then
      var n := p.submitted + 1;
      Submitted(p.(pending := ins.list, stamps := p.stamps[t.value.id := n], submitted := n), t.value.id)
    else Submitted(p, 0)
  }

  /**
   A task submitted with threadpool_addTask keeps the invariant when its id was
   issued by the counter and is in neither list.
   */
  lemma AddTaskKeepsInv(p: Pool, t: Task)
    requires Inv(p)
    requires t.id !in Ids(p.pending.tasks) && t.id !in Ids(p.executing.tasks)
    requires 0 < t.id <= p.lastId
    ensures Inv(AddTask(p, Some(t)).pool)
  {
    var r := AddTask(p, Some(t)).pool;
    AddTaskKeepsLists(p, t);
    AddTaskKeepsOrder(p, t);
    assert r.workers == p.workers && r.executing == p.executing;
  }

  lemma AddTaskKeepsLists(p: Pool, t: Task)
    requires ListsInv(p)
    requires t.id !in Ids(p.pending.tasks) && t.id !in Ids(p.executing.tasks)
    requires 0 < t.id <= p.lastId
    ensures ListsInv(AddTask(p, Some(t)).pool)
  {
    var r := AddTask(p, Some(t)).pool;
    assert Distinct(r.pending.tasks);
    assert Ids(r.pending.tasks) + Ids(p.executing.tasks) == Ids(p.pending.tasks) + Ids(p.executing.tasks) + {t.id};
  }

  lemma AddTaskKeepsOrder(p: Pool, t: Task)
    requires OrderInv(p) && Valid(p.pending)
    requires t.id !in Ids(p.pending.tasks)
    ensures OrderInv(AddTask(p, Some(t)).pool)
  {
    var n := p.submitted + 1;
    var r := AddTask(p, Some(t)).pool;
    assert r.pending.tasks == InsertSeq(p.pending.tasks, t);
    assert r.stamps == p.stamps[t.id := n] && r.submitted == n;
    StampedInsert(p.pending.tasks, p.stamps, n, t);
    forall id | id in r.stamps ensures r.stamps[id] <= n {
      if id != t.id {
        assert id in p.stamps;
      }
    }
  }

  /**
   threadpool_add: create a task with the next id and submit it. With the
   allocation succeeding the result is a fresh non-zero id and pending gains a
   task with the given work, argument and priority; otherwise the result is 0
   and the pool is unchanged. The invariant is kept either way.
   */
  function Add(p: Pool, work: WorkFn, argument: Argument, priority: Priority, allocOk: bool): (r: Submitted)
    ensures !allocOk ==> r.id == 0 && r.pool == p
    ensures allocOk ==> p.lastId < r.id && r.pool.lastId == r.id
    ensures allocOk && Inv(p) ==> r.id !in Ids(p.pending.tasks) + Ids(p.executing.tasks)
    ensures allocOk ==>
      && r.pool.executing == p.executing && r.pool.stop == p.stop && r.pool.workers == p.workers
      && r.pool.pending.tasks == InsertSeq(p.pending.tasks, Task(r.id, work, argument, priority, NotExecuted))
      && multiset(r.pool.pending.tasks) == multiset(p.pending.tasks) + multiset{Task(r.id, work, argument, priority, NotExecuted)}
    ensures Inv(p) ==> Inv(r.pool)
  {
    match Tasks.Create(work, argument, priority, p.lastId, allocOk)
    case None => AddTask(p, None)
    case Some(c) =>
      var q := p.(lastId := c.lastId);
      assert Inv(p) ==> Inv(q);
      assert Inv(p) ==> c.task.id !in Ids(p.pending.tasks) + Ids(p.executing.tasks);
      assert Inv(p) ==> Inv(AddTask(q, Some(c.task)).pool) by {
        if Inv(p) { AddTaskKeepsInv(q, c.task); }
      }
      AddTask(q, Some(c.task))
  }

  /**
   threadpool_addTask called directly with a task the caller made with
   task_create, at any time after creating it. The counter has then reached at
   least the task's id. No task (NULL) gives 0 and changes nothing; a task is
   submitted as by AddTask, and the invariant is kept.
   */
  function SubmitCreated(p: Pool, t: Option<Task>): (r: Submitted)
    requires t.Some? ==> Fresh(p, t.value)
    ensures t.None? ==> r.id == 0 && r.pool == p
    ensures t.Some? ==>
      && r.id == t.value.id
      && r.pool.lastId == Max(p.lastId, t.value.id)
      && r.pool.executing == p.executing && r.pool.stop == p.stop && r.pool.workers == p.workers
      && r.pool.pending.tasks == InsertSeq(p.pending.tasks, t.value)
      && multiset(r.pool.pending.tasks) == multiset(p.pending.tasks) + multiset{t.value}
    ensures Inv(p) ==> Inv(r.pool)
  {
    match t
    case None => AddTask(p, None)
    case Some(x) =>
      var q := p.(lastId := Max(p.lastId, x.id));
      assert Inv(p) ==> Inv(q);
      assert Inv(p) ==> Inv(AddTask(q, t).pool) by {
        if Inv(p) { AddTaskKeepsInv(q, x); }
      }
      AddTask(q, t)
  }

  function Max(a: nat, b: nat): nat
  {
    if a < b then b else a
  }

  /**
   A task as task_create hands it out: a non-zero id that no task in the pool
   holds, since every call of task_create issues a new id.
   */
  predicate Fresh(p: Pool, t: Task)
  {
    0 < t.id && t.id !in Ids(p.pending.tasks) && t.id !in Ids(p.executing.tasks)
  }

  /**
   The first critical section of threadpool_worker, for a worker at the top of
   its loop. With stop set the worker exits and the lists stay as they are.
   Otherwise, with nothing pending, the worker waits and nothing changes.
   Otherwise the head of pending moves to executing and the worker runs it;
   the number of tasks in the two lists together is unchanged. In a well-formed
   pending list the head has the highest priority, and it was submitted before
   every other pending task of that priority.
   */
  function Dispatch(p: Pool, w: nat): (r: Pool)
    requires w < |p.workers| && p.workers[w] == Waiting
    ensures r.stop == p.stop && r.lastId == p.lastId && |r.workers| == |p.workers|
    ensures r.stamps == p.stamps && r.submitted == p.submitted
    ensures forall v :: 0 <= v < |p.workers| && v != w ==> r.workers[v] == p.workers[v]
    ensures p.stop ==> r.pending == p.pending && r.executing == p.executing && r.workers[w] == Exited
    ensures !p.stop && p.pending.tasks == [] ==> r == p
    ensures !p.stop && p.pending.tasks != [] ==>
      var head := p.pending.tasks[0];
      && r.workers[w] == Running(head)
      && r.pending.tasks == p.pending.tasks[1..]
      && multiset(r.executing.tasks) == multiset(p.executing.tasks) + multiset{head}
      && Ids(r.executing.tasks) == Ids(p.executing.tasks) + {head.id}
      && |r.executing.tasks| == |p.executing.tasks| + 1
      && |r.pending.tasks| + |r.executing.tasks| == |p.pending.tasks| + |p.executing.tasks|
      && (Valid(p.pending) ==> forall i :: 0 <= i < |r.pending.tasks| ==> Rank(r.pending.tasks[i].priority) <= Rank(head.priority))
      && (ArrivalOrder(p.pending.tasks, p.stamps) ==> OlderThanPeers(head, r.pending.tasks, p.stamps))
  {
    if p.stop then p.(workers := p.workers[w := Exited])
    else
      var popped := Pop(p.pending);
      match popped.task
      case None => p
      case Some(t) =>
        assert ArrivalOrder(p.pending.tasks, p.stamps) ==> OlderThanPeers(t, popped.list.tasks, p.stamps) by {
          if ArrivalOrder(p.pending.tasks, p.stamps) { ArrivalOrderTail(p.pending.tasks, p.stamps); }
        }
        var ins := Insert(p.executing, Some(t));
        assert |ins.list.tasks| == |p.executing.tasks| + 1 by {
          assert |multiset(ins.list.tasks)| == |multiset(p.executing.tasks)| + 1;
        }
        p.(pending := popped.list, executing := ins.list, workers := p.workers[w := Running(t)])
  }

  lemma DispatchKeepsInv(p: Pool, w: nat)
    requires w < |p.workers| && p.workers[w] == Waiting
    requires Inv(p)
    ensures Inv(Dispatch(p, w))
  {
    DispatchKeepsLists(p, w);
    DispatchKeepsOrder(p, w);
    if !p.stop && p.pending.tasks != [] {
      assert p.pending.tasks[0].id in Ids(p.pending.tasks);
    }
    DispatchKeepsWorkers(p, w);
  }

  lemma DispatchKeepsLists(p: Pool, w: nat)
    requires w < |p.workers| && p.workers[w] == Waiting
    requires ListsInv(p)
    ensures ListsInv(Dispatch(p, w))
  {
    var r := Dispatch(p, w);
    if !p.stop && p.pending.tasks != [] {
      var head := p.pending.tasks[0];
      var ins := Insert(p.executing, Some(head));
      assert head.id in Ids(p.pending.tasks);
      assert head.id !in Ids(p.executing.tasks);
      assert head.id !in Ids(p.pending.tasks[1..]);
      assert r.executing == ins.list;
      assert Ids(r.executing.tasks) == Ids(p.executing.tasks) + {head.id};
      assert Ids(p.pending.tasks) == Ids(r.pending.tasks) + {head.id};
      assert Ids(r.pending.tasks) + Ids(r.executing.tasks) == Ids(p.pending.tasks) + Ids(p.executing.tasks);
    }
  }

  lemma DispatchKeepsOrder(p: Pool, w: nat)
    requires w < |p.workers| && p.workers[w] == Waiting
    requires OrderInv(p)
    ensures OrderInv(Dispatch(p, w))
  {
    if !p.stop && p.pending.tasks != [] {
      ArrivalOrderTail(p.pending.tasks, p.stamps);
    }
  }

  lemma DispatchKeepsWorkers(p: Pool, w: nat)
    requires w < |p.workers| && p.workers[w] == Waiting
    requires WorkersInv(p)
    requires !p.stop && p.pending.tasks != [] ==> p.pending.tasks[0].id !in Ids(p.executing.tasks)
    ensures WorkersInv(Dispatch(p, w))
  {
    var r := Dispatch(p, w);
    RunningCountUpdate(p.workers, w, r.workers[w]);
    if !p.stop && p.pending.tasks != [] {
      var head := p.pending.tasks[0];
      WorkerTasksExecuting(p.workers, r.workers, w, head, p.executing.tasks, r.executing.tasks);
      forall v | 0 <= v < |r.workers| && v != w && r.workers[v].Running?
        ensures r.workers[v].task.id != head.id
      {
        assert r.workers[v] == p.workers[v];
      }
    }
  }

  /**
   When worker `w` starts running `t` and `t` joins the executing list, every
   running worker's task is still a member of that list.
   */
  lemma WorkerTasksExecuting(ws: seq<Worker>, ws': seq<Worker>, w: nat, t: Task, ex: seq<Task>, ex': seq<Task>)
    requires w < |ws| == |ws'| && ws'[w] == Running(t)
    requires forall v :: 0 <= v < |ws| && v != w ==> ws'[v] == ws[v]
    requires multiset(ex') == multiset(ex) + multiset{t}
    requires forall v :: 0 <= v < |ws| && ws[v].Running? ==> ws[v].task in ex
    ensures forall v :: 0 <= v < |ws'| && ws'[v].Running? ==> ws'[v].task in ex'
  {
    forall v | 0 <= v < |ws'| && ws'[v].Running? ensures ws'[v].task in ex' {
      var x := ws'[v].task;
      if v == w {
        assert x == t;
      } else {
        assert x == ws[v].task && x in multiset(ex);
      }
      assert x in multiset(ex');
    }
  }

  /**
   The second critical section of threadpool_worker, for a worker that has run
   its task: the task's id is removed from executing and the worker goes back
   to the top of its loop. Pending and the stop flag are untouched; under the
   invariant the id is then in neither list and executing has one task less.
   */
  function Complete(p: Pool, w: nat): (r: Pool)
    requires w < |p.workers| && p.workers[w].Running?
    ensures r.pending == p.pending && r.stop == p.stop && r.lastId == p.lastId
    ensures r.stamps == p.stamps && r.submitted == p.submitted
    ensures |r.workers| == |p.workers| && r.workers[w] == Waiting
    ensures forall v :: 0 <= v < |p.workers| && v != w ==> r.workers[v] == p.workers[v]
    ensures Inv(p) ==>
      && p.workers[w].task.id !in Ids(r.executing.tasks)
      && p.workers[w].task.id !in Ids(r.pending.tasks)
      && Ids(r.executing.tasks) == Ids(p.executing.tasks) - {p.workers[w].task.id}
      && |r.executing.tasks| == |p.executing.tasks| - 1
  {
    var id := p.workers[w].task.id;
    var rem := Remove(p.executing, id);
    assert Inv(p) ==> |rem.list.tasks| == |p.executing.tasks| - 1;
    p.(executing := rem.list, workers := p.workers[w := Waiting])
  }

  lemma CompleteKeepsInv(p: Pool, w: nat)
    requires w < |p.workers| && p.workers[w].Running?
    requires Inv(p)
    ensures Inv(Complete(p, w))
  {
    var r := Complete(p, w);
    var id := p.workers[w].task.id;
    var rem := Remove(p.executing, id);
    assert r.executing == rem.list;
    assert Valid(r.executing) && Distinct(r.executing.tasks);
    assert Ids(r.executing.tasks) == Ids(p.executing.tasks) - {id};
    assert Ids(r.pending.tasks) !! Ids(r.executing.tasks);
    assert forall i :: i in Ids(r.pending.tasks) + Ids(r.executing.tasks) ==> i in Ids(p.pending.tasks) + Ids(p.executing.tasks);
    RunningCountUpdate(p.workers, w, Waiting);
    assert |r.executing.tasks| == RunningCount(r.workers);
    forall v | 0 <= v < |r.workers| && r.workers[v].Running?
      ensures r.workers[v].task.id in Ids(r.executing.tasks)
    {
      assert v != w && r.workers[v] == p.workers[v];
      assert p.workers[v].task.id != id;
    }
    forall u, v | 0 <= u < |r.workers| && 0 <= v < |r.workers| && u != v && r.workers[u].Running? && r.workers[v].Running?
      ensures r.workers[u].task.id != r.workers[v].task.id
    {
      assert u != w && v != w;
      assert r.workers[u] == p.workers[u] && r.workers[v] == p.workers[v];
    }
  }

  /** threadpool_isDone: 1 exactly when the id is in neither executing nor pending, else 0. */
  function IsDone(p: Pool, id: nat): (r: int)
    ensures r == 0 || r == 1
    ensures r == 1 <==> id !in Ids(p.executing.tasks) && id !in Ids(p.pending.tasks)
  {
    if Get(p.executing, id).Some? || Get(p.pending, id).Some? then 0 else 1
  }

  /** The condition under which threadpool_wait leaves its loop: both counts are zero. */
  predicate WaitReturns(p: Pool)
  {
    p.pending.nTasks == 0 && p.executing.nTasks == 0
  }

  /** The condition under which threadpool_waitTask leaves its loop: neither list finds the id. */
  predicate WaitTaskReturns(p: Pool, id: nat)
  {
    Get(p.executing, id).None? && Get(p.pending, id).None?
  }

  /**
   When threadpool_wait returns, both lists are empty, no worker is running a
   task, and every id is done.
   */
  lemma WaitMeansDrained(p: Pool)
    requires Inv(p)
    ensures WaitReturns(p) <==> p.pending.tasks == [] && p.executing.tasks == []
    ensures WaitReturns(p) ==> forall w :: 0 <= w < |p.workers| ==> !p.workers[w].Running?
    ensures WaitReturns(p) ==> forall id :: IsDone(p, id) == 1 && WaitTaskReturns(p, id)
  {
    if WaitReturns(p) {
      NoneRunning(p.workers);
    }
  }

  /** threadpool_waitTask returns exactly when threadpool_isDone would report 1. */
  lemma WaitTaskMeansDone(p: Pool, id: nat)
    ensures WaitTaskReturns(p, id) <==> IsDone(p, id) == 1
    ensures WaitTaskReturns(p, id) <==> id !in Ids(p.executing.tasks) && id !in Ids(p.pending.tasks)
  {
  }

  /**
   threadpool_free up to the joins: it waits until threadpool_wait would
   return (no result while it still blocks), then sets stop. Nothing else changes.
   */
  function Free(p: Pool): (r: Option<Pool>)
    ensures r.Some? <==> WaitReturns(p)
    ensures r.Some? ==> r.value.stop && r.value == p.(stop := true)
  {
    if WaitReturns(p) then Some(p.(stop := true)) else None
  }

  /**
   Shutting down: once free has set stop, both lists are empty, no worker is
   running, and every worker at the top of its loop exits without taking a task.
   */
  lemma FreeStopsWorkers(p: Pool)
    requires Inv(p) && Free(p).Some?
    ensures var q := Free(p).value;
      && q.stop && q.pending.tasks == [] && q.executing.tasks == []
      && (forall w :: 0 <= w < |q.workers| ==> !q.workers[w].Running?)
      && (forall w :: 0 <= w < |q.workers| && q.workers[w] == Waiting ==>
            Dispatch(q, w).workers[w] == Exited && Dispatch(q, w).pending.tasks == [])
  {
    WaitMeansDrained(p);
  }

  // The pool as a transition system: one step per critical section.

  /**
   The steps. A task handed to threadpool_addTask by its caller was made by
   task_create at some earlier time, so it carries a non-zero id that no task in
   the pool holds; submitting one that is already in a list is not a step.
   */
  datatype Step =
    | AddStep(work: WorkFn, argument: Argument, priority: Priority, allocOk: bool)
    | AddTaskStep(task: Option<Task>)
    | DispatchStep(w: nat)
    | CompleteStep(w: nat)
    | FreeStep

  /** One atomic step; a step that is not enabled (a blocked wait, a busy worker) changes nothing. */
  function Apply(p: Pool, s: Step): Pool
  {
    match s
    case AddStep(work, argument, priority, allocOk) => Add(p, work, argument, priority, allocOk).pool
    case AddTaskStep(t) => if t.None? || Fresh(p, t.value) then SubmitCreated(p, t).pool else p
    case DispatchStep(w) => if w < |p.workers| && p.workers[w] == Waiting then Dispatch(p, w) else p
    case CompleteStep(w) => if w < |p.workers| && p.workers[w].Running? then Complete(p, w) else p
    case FreeStep => match Free(p) case Some(q) => q case None => p
  }

  /** What every step promises about the state it leaves. */
  ghost predicate StepKept(p: Pool, q: Pool)
  {
    && Inv(q)
    && (p.stop ==> q.stop)
    && p.lastId <= q.lastId
    && |q.workers| == |p.workers|
    && (forall w :: 0 <= w < |p.workers| && p.workers[w] == Exited ==> q.workers[w] == Exited)
  }

  /**
   Every step keeps the invariant, never clears stop, never moves the id
   counter back, and never revives an exited worker.
   */
  lemma ApplyKeepsInv(p: Pool, s: Step)
    requires Inv(p)
    ensures Inv(Apply(p, s))
    ensures p.stop ==> Apply(p, s).stop
    ensures p.lastId <= Apply(p, s).lastId
    ensures |Apply(p, s).workers| == |p.workers|
    ensures forall w :: 0 <= w < |p.workers| && p.workers[w] == Exited ==> Apply(p, s).workers[w] == Exited
  {
    match s
    case AddStep(work, argument, priority, allocOk) => AddStepKept(p, work, argument, priority, allocOk);
    case AddTaskStep(t) => AddTaskStepKept(p, t);
    case DispatchStep(w) => DispatchStepKept(p, w);
    case CompleteStep(w) => CompleteStepKept(p, w);
    case FreeStep => FreeStepKept(p);
  }

  lemma AddStepKept(p: Pool, work: WorkFn, argument: Argument, priority: Priority, allocOk: bool)
    requires Inv(p)
    ensures StepKept(p, Apply(p, AddStep(work, argument, priority, allocOk)))
  {
  }

  lemma AddTaskStepKept(p: Pool, t: Option<Task>)
    requires Inv(p)
    ensures StepKept(p, Apply(p, AddTaskStep(t)))
  {
  }

  lemma DispatchStepKept(p: Pool, w: nat)
    requires Inv(p)
    ensures StepKept(p, Apply(p, DispatchStep(w)))
  {
    if w < |p.workers| && p.workers[w] == Waiting { DispatchKeepsInv(p, w); }
  }

  lemma CompleteStepKept(p: Pool, w: nat)
    requires Inv(p)
    ensures StepKept(p, Apply(p, CompleteStep(w)))
  {
    if w < |p.workers| && p.workers[w].Running? {
      var q := Complete(p, w);
      assert Apply(p, CompleteStep(w)) == q;
      CompleteKeepsInv(p, w);
      assert forall v :: 0 <= v < |p.workers| && p.workers[v] == Exited ==> v != w && q.workers[v] == p.workers[v];
    }
  }

  lemma FreeStepKept(p: Pool)
    requires Inv(p)
    ensures StepKept(p, Apply(p, FreeStep))
  {
  }

  /** The state after a sequence of steps. */
  function Run(p: Pool, steps: seq<Step>): Pool
    decreases |steps|
  {
    if steps == [] then p else Run(Apply(p, steps[0]), steps[1..])
  }

  /**
   Along every run the invariant holds (in particular no id is both pending
   and executing), once stop is set it stays set, and the id counter never
   moves back.
   */
  lemma {:induction false} RunKeepsInv(p: Pool, steps: seq<Step>)
    requires Inv(p)
    ensures Inv(Run(p, steps))
    ensures p.stop ==> Run(p, steps).stop
    ensures p.lastId <= Run(p, steps).lastId
    ensures |Run(p, steps).workers| == |p.workers|
    decreases |steps|
  {
    if steps != [] {
      ApplyKeepsInv(p, steps[0]);
      RunKeepsInv(Apply(p, steps[0]), steps[1..]);
    }
  }

  /** A pool created with `n` workers satisfies the invariant after any run. */
  lemma ReachableInv(n: nat, steps: seq<Step>)
    ensures var p := Run(Create(n, true).value, steps);
      && Inv(p)
      && Ids(p.pending.tasks) !! Ids(p.executing.tasks)
      && |p.workers| == n
  {
    RunKeepsInv(Create(n, true).value, steps);
  }

  /**
   Ids are never handed out twice: a task submitted after any run from `p` gets
   an id above every id `p` had issued, and one that no task in the pool holds,
   so isDone and waitTask on an older id never refer to it.
   */
  lemma IssuedIdsAreNew(p: Pool, steps: seq<Step>, work: WorkFn, argument: Argument, priority: Priority)
    requires Inv(p)
    ensures var q := Run(p, steps);
      var r := Add(q, work, argument, priority, true);
      && p.lastId < r.id
      && r.id !in Ids(q.pending.tasks) + Ids(q.executing.tasks)
  {
    RunKeepsInv(p, steps);
  }

  /**
   A LOW task submitted before a HIGH one, with nothing else pending: the
   first worker to take a task takes the HIGH one, and the LOW one stays pending.
   */
  lemma HighBeforeLow(p: Pool, w: nat, work: WorkFn, lowArg: Argument, highArg: Argument)
    requires !p.stop && p.pending.tasks == []
    requires w < |p.workers| && p.workers[w] == Waiting
    ensures var low := Add(p, work, lowArg, Low, true);
      var high := Add(low.pool, work, highArg, High, true);
      var q := Dispatch(high.pool, w);
      && q.workers[w] == Running(Task(high.id, work, highArg, High, NotExecuted))
      && q.pending.tasks == [Task(low.id, work, lowArg, Low, NotExecuted)]
  {
    LowThenHigh(p, work, lowArg, highArg);
    var low := Add(p, work, lowArg, Low, true);
    var high := Add(low.pool, work, highArg, High, true);
    var ht := Task(high.id, work, highArg, High, NotExecuted);
    var lt := Task(low.id, work, lowArg, Low, NotExecuted);
    assert [ht, lt][1..] == [lt];
  }

  /**
   A task made before a threadpool_add of the same priority but submitted after
   it is accepted with its own id and queued behind the newer task.
   */
  lemma LateSubmissionQueued(p: Pool, t: Task, work: WorkFn, argument: Argument)
    requires Inv(p) && p.pending.tasks == [] && Fresh(p, t) && t.id <= p.lastId
    ensures var a := Add(p, work, argument, t.priority, true);
      && t.id < a.id
      && Fresh(a.pool, t)
      && var r := SubmitCreated(a.pool, Some(t));
        && r.id == t.id
        && r.pool.pending.tasks == [Task(a.id, work, argument, t.priority, NotExecuted), t]
        && Inv(r.pool)
  {
    var a := Add(p, work, argument, t.priority, true);
    var u := Task(a.id, work, argument, t.priority, NotExecuted);
    assert a.pool.pending.tasks == [u] by {
      InsertStep([], u);
    }
    assert Ids([u]) == {a.id} by {
      assert [u][1..] == [];
    }
    InsertStep([u], t);
    InsertStep([], t);
  }

  /** Submitting LOW and then HIGH to an empty pending list puts HIGH in front. */
  lemma LowThenHigh(p: Pool, work: WorkFn, lowArg: Argument, highArg: Argument)
    requires p.pending.tasks == []
    ensures var low := Add(p, work, lowArg, Low, true);
      var high := Add(low.pool, work, highArg, High, true);
      && high.pool.stop == p.stop && high.pool.workers == p.workers
      && high.pool.pending.tasks == [Task(high.id, work, highArg, High, NotExecuted), Task(low.id, work, lowArg, Low, NotExecuted)]
  {
    var low := Add(p, work, lowArg, Low, true);
    var lt := Task(low.id, work, lowArg, Low, NotExecuted);
    assert low.pool.pending.tasks == [lt] by {
      InsertStep([], lt);
    }
    var high := Add(low.pool, work, highArg, High, true);
    var ht := Task(high.id, work, highArg, High, NotExecuted);
    InsertStep([lt], ht);
  }
}
