/**
 The priority task list: tasks in descending priority, equal priorities in
 insertion order, with a count `nTasks` that tracks the number of members.
 The linked list of the C code becomes a sequence whose head is the list head.
 */
module TaskLists {
  import opened Wrappers
  import opened Tasks

  datatype TaskList = TaskList(tasks: seq<Task>, nTasks: int)

  /** No task is outranked by a task behind it. */
  ghost predicate Sorted(s: seq<Task>)
  {
    forall i, j :: 0 <= i < j < |s| ==> Rank(s[j].priority) <= Rank(s[i].priority)
  }

  /** The list invariant: the count matches membership and the order is by priority. */
  ghost predicate Valid(l: TaskList)
  {
    l.nTasks == |l.tasks| && Sorted(l.tasks)
  }

  /** The ids of the tasks in `s`. */
  function Ids(s: seq<Task>): set<nat>
  {
    if s == [] then {} else {s[0].id} + Ids(s[1..])
  }

  /** No id occurs twice in `s`. */
  ghost predicate Distinct(s: seq<Task>)
  {
    s == [] || (s[0].id !in Ids(s[1..]) && Distinct(s[1..]))
  }

  lemma {:induction false} IdsMember(s: seq<Task>, id: nat)
    ensures id in Ids(s) <==> exists i :: 0 <= i < |s| && s[i].id == id
  {
    if s != [] {
      IdsMember(s[1..], id);
      if id in Ids(s[1..]) {
        var i :| 0 <= i < |s[1..]| && s[1..][i].id == id;
        assert s[i + 1].id == id;
      }
      forall i | 0 <= i < |s| && s[i].id == id && i > 0
        ensures id in Ids(s[1..])
      {
        assert s[1..][i - 1].id == id;
      }
    }
  }

  lemma {:induction false} IdsConcat(a: seq<Task>, b: seq<Task>)
    ensures Ids(a + b) == Ids(a) + Ids(b)
  {
    if a == [] {
      assert a + b == b;
    } else {
      assert (a + b)[1..] == a[1..] + b;
      IdsConcat(a[1..], b);
    }
  }

  lemma {:induction false} DistinctConcat(a: seq<Task>, b: seq<Task>)
    ensures Distinct(a + b) <==> Distinct(a) && Distinct(b) && Ids(a) !! Ids(b)
  {
    if a == [] {
      assert a + b == b;
    } else {
      assert (a + b)[1..] == a[1..] + b;
      DistinctConcat(a[1..], b);
      IdsConcat(a[1..], b);
    }
  }

  /** Putting `t` between `a` and `b` adds its id to the ids of `a + b`, and keeps ids distinct exactly when the id is new. */
  lemma Insertion(a: seq<Task>, t: Task, b: seq<Task>)
    ensures Ids(a + [t] + b) == Ids(a + b) + {t.id}
    ensures Distinct(a + [t] + b) <==> Distinct(a + b) && t.id !in Ids(a + b)
  {
    IdsConcat(a, b);
    IdsConcat(a + [t], b);
    IdsConcat(a, [t]);
    DistinctConcat(a, b);
    DistinctConcat(a + [t], b);
    DistinctConcat(a, [t]);
    assert Ids([t]) == {t.id} by { assert [t][1..] == []; }
    assert Distinct([t]) by { assert [t][1..] == []; }
  }

  /** Lists are built from an empty one. */
  function Create(): (r: TaskList)
    ensures Valid(r) && r.nTasks == 0 && Ids(r.tasks) == {}
  {
    TaskList([], 0)
  }

  /** The position of the first task whose priority is strictly lower than `p`, or |s|. */
  function FirstLower(s: seq<Task>, p: Priority): (k: nat)
    ensures k <= |s|
    ensures forall i :: 0 <= i < k ==> Rank(p) <= Rank(s[i].priority)
    ensures k < |s| ==> Rank(s[k].priority) < Rank(p)
  {
    if s == [] then 0
    else if Rank(s[0].priority) < Rank(p) then 0
    else 1 + FirstLower(s[1..], p)
  }

  /**
   The scan of tasklist_insert: `t` goes in front of the first task of strictly
   lower priority, so after every task of equal or higher priority.
   */
  function InsertSeq(s: seq<Task>, t: Task): (r: seq<Task>)
    ensures var k := FirstLower(s, t.priority); r == s[..k] + [t] + s[k..]
  {
    if s == [] then [t]
    else if Rank(s[0].priority) < Rank(t.priority) then [t] + s
    else
      var k := FirstLower(s[1..], t.priority);
      assert FirstLower(s, t.priority) == k + 1;
      assert s[..k + 1] == [s[0]] + s[1..][..k];
      assert s[k + 1..] == s[1..][k..];
      [s[0]] + InsertSeq(s[1..], t)
  }

  /** Two sorted runs, the first outranking the second, make a sorted run. */
  lemma SortedJoin(a: seq<Task>, b: seq<Task>)
    requires Sorted(a) && Sorted(b)
    requires forall i, j :: 0 <= i < |a| && 0 <= j < |b| ==> Rank(b[j].priority) <= Rank(a[i].priority)
    ensures Sorted(a + b)
  {
    forall i, j | 0 <= i < j < |a + b|
      ensures Rank((a + b)[j].priority) <= Rank((a + b)[i].priority)
    {
      if j < |a| {
        assert (a + b)[j] == a[j] && (a + b)[i] == a[i];
      } else if i < |a| {
        assert (a + b)[j] == b[j - |a|] && (a + b)[i] == a[i];
      } else {
        assert (a + b)[j] == b[j - |a|] && (a + b)[i] == b[i - |a|];
      }
    }
  }

  lemma SortedSlice(s: seq<Task>, lo: nat, hi: nat)
    requires Sorted(s) && lo <= hi <= |s|
    ensures Sorted(s[lo..hi])
  {
    forall i, j | 0 <= i < j < hi - lo
      ensures Rank(s[lo..hi][j].priority) <= Rank(s[lo..hi][i].priority)
    {
      assert s[lo..hi][j] == s[lo + j] && s[lo..hi][i] == s[lo + i];
    }
  }

  lemma InsertSeqSorted(s: seq<Task>, t: Task)
    requires Sorted(s)
    ensures Sorted(InsertSeq(s, t))
  {
    var k := FirstLower(s, t.priority);
    var a, b := s[..k], s[k..];
    SortedSlice(s, 0, k);
    SortedSlice(s, k, |s|);
    assert forall j :: 0 <= j < |b| ==> Rank(b[j].priority) < Rank(t.priority) by {
      forall j | 0 <= j < |b| ensures Rank(b[j].priority) < Rank(t.priority) {
        assert b[j] == s[k + j];
      }
    }
    assert Sorted([t]);
    SortedJoin(a, [t]);
    SortedJoin(a + [t], b);
  }

  /** Every member has a stamp in `st`. */
  ghost predicate Stamped(s: seq<Task>, st: map<nat, nat>)
  {
    forall i :: 0 <= i < |s| ==> s[i].id in st
  }

  /**
   Among tasks of equal priority the one nearer the head has the smaller
   stamp. With stamps handed out in submission order this is "oldest first
   among equals".
   */
  ghost predicate ArrivalOrder(s: seq<Task>, st: map<nat, nat>)
  {
    && Stamped(s, st)
    && forall i, j :: 0 <= i < j < |s| && s[i].priority == s[j].priority ==> st[s[i].id] < st[s[j].id]
  }

  /** `t` has a smaller stamp than every task of its priority in `s`. */
  ghost predicate OlderThanPeers(t: Task, s: seq<Task>, st: map<nat, nat>)
  {
    && t.id in st && Stamped(s, st)
    && forall i :: 0 <= i < |s| && s[i].priority == t.priority ==> st[t.id] < st[s[i].id]
  }

  /** Dropping the head keeps arrival order, and the head is the oldest of its priority. */
  lemma ArrivalOrderTail(s: seq<Task>, st: map<nat, nat>)
    requires ArrivalOrder(s, st) && s != []
    ensures ArrivalOrder(s[1..], st)
    ensures OlderThanPeers(s[0], s[1..], st)
  {
    assert forall i :: 0 <= i < |s| - 1 ==> s[1..][i] == s[i + 1];
  }

  /** Stamping an id that no member carries leaves the arrival order of `s` as it was. */
  lemma RestampKeepsArrivalOrder(s: seq<Task>, st: map<nat, nat>, id: nat, n: nat)
    requires ArrivalOrder(s, st) && id !in Ids(s)
    ensures ArrivalOrder(s, st[id := n])
  {
    forall i | 0 <= i < |s| ensures s[i].id != id {
      IdsMember(s, id);
    }
  }

  /** Inserting a task stamped later than every member into a sorted list keeps arrival order. */
  lemma InsertKeepsArrivalOrder(s: seq<Task>, t: Task, st: map<nat, nat>)
    requires Sorted(s) && ArrivalOrder(s, st) && t.id in st
    requires forall i :: 0 <= i < |s| ==> st[s[i].id] < st[t.id]
    ensures ArrivalOrder(InsertSeq(s, t), st)
  {
    var r := InsertSeq(s, t);
    forall i | 0 <= i < |r| ensures r[i].id in st {
      InsertSeqAt(s, t, i);
    }
    forall i, j | 0 <= i < j < |r| && r[i].priority == r[j].priority
      ensures st[r[i].id] < st[r[j].id]
    {
      InsertedPair(s, t, st, i, j);
    }
  }

  /**
   Inserting a task with a new id into a sorted list, stamped with a number
   above every stamp in use, keeps arrival order.
   */
  lemma StampedInsert(s: seq<Task>, st: map<nat, nat>, n: nat, t: Task)
    requires Sorted(s) && ArrivalOrder(s, st) && t.id !in Ids(s)
    requires forall id :: id in st ==> st[id] < n
    ensures ArrivalOrder(InsertSeq(s, t), st[t.id := n])
  {
    var st' := st[t.id := n];
    RestampKeepsArrivalOrder(s, st, t.id, n);
    forall i | 0 <= i < |s| ensures st'[s[i].id] < n {
      assert s[i].id in st;
      IdsMember(s, t.id);
    }
    InsertKeepsArrivalOrder(s, t, st');
  }

  /** The member at position i after inserting `t` at position k. */
  lemma InsertSeqAt(s: seq<Task>, t: Task, i: nat)
    requires i <= |s|
    ensures var k := FirstLower(s, t.priority);
      InsertSeq(s, t)[i] == if i < k then s[i] else if i == k then t else s[i - 1]
  {
  }

  lemma InsertedPair(s: seq<Task>, t: Task, st: map<nat, nat>, i: nat, j: nat)
    requires Sorted(s) && ArrivalOrder(s, st) && t.id in st
    requires forall m :: 0 <= m < |s| ==> st[s[m].id] < st[t.id]
    requires i < j <= |s|
    ensures var r := InsertSeq(s, t);
      r[i].id in st && r[j].id in st
      && (r[i].priority == r[j].priority ==> st[r[i].id] < st[r[j].id])
  {
    var k := FirstLower(s, t.priority);
    InsertSeqAt(s, t, i);
    InsertSeqAt(s, t, j);
    if i == k {
      assert Rank(s[j - 1].priority) <= Rank(s[k].priority);
    }
  }

  datatype InsertResult = InsertResult(list: TaskList, ok: bool)

  /**
   tasklist_insert: fails and leaves the list as it is when there is no task
   (a NULL pointer); otherwise adds the task at its priority position and
   increments the count.
   */
  function Insert(l: TaskList, t: Option<Task>): (r: InsertResult)
    ensures r.ok <==> t.Some?
    ensures !r.ok ==> r.list == l
    ensures r.ok ==>
      && r.list.tasks == InsertSeq(l.tasks, t.value)
      && r.list.nTasks == l.nTasks + 1
      && multiset(r.list.tasks) == multiset(l.tasks) + multiset{t.value}
      && Ids(r.list.tasks) == Ids(l.tasks) + {t.value.id}
      && (Distinct(l.tasks) && t.value.id !in Ids(l.tasks) ==> Distinct(r.list.tasks))
    ensures Valid(l) ==> Valid(r.list)
  {
    match t
    case None => InsertResult(l, false)
    case Some(task) =>
      var s := InsertSeq(l.tasks, task);
      var k := FirstLower(l.tasks, task.priority);
      assert l.tasks == l.tasks[..k] + l.tasks[k..];
      Insertion(l.tasks[..k], task, l.tasks[k..]);
      assert multiset(s) == multiset(l.tasks) + multiset{task};
      assert Sorted(l.tasks) ==> Sorted(s) by {
        if Sorted(l.tasks) { InsertSeqSorted(l.tasks, task); }
      }
      InsertResult(TaskList(s, l.nTasks + 1), true)
  }

  datatype PopResult = PopResult(task: Option<Task>, list: TaskList)

  /**
   tasklist_pop: nothing from an empty list (which stays as it is); otherwise
   the head, which outranks every remaining task, and the count drops by one.
   */
  function Pop(l: TaskList): (r: PopResult)
    ensures l.tasks == [] ==> r.task.None? && r.list == l
    ensures l.tasks != [] ==>
      && r.task == Some(l.tasks[0])
      && r.list.tasks == l.tasks[1..]
      && r.list.nTasks == l.nTasks - 1
    ensures Valid(l) ==> Valid(r.list)
    ensures Valid(l) && r.task.Some? ==>
      forall i :: 0 <= i < |r.list.tasks| ==> Rank(r.list.tasks[i].priority) <= Rank(r.task.value.priority)
    ensures Distinct(l.tasks) ==> Distinct(r.list.tasks)
    ensures r.task.Some? ==> Ids(l.tasks) == Ids(r.list.tasks) + {r.task.value.id}
  {
    if l.tasks == [] then PopResult(None, l)
    else
      assert Valid(l) ==> forall i :: 0 <= i < |l.tasks| - 1 ==> Rank(l.tasks[1..][i].priority) <= Rank(l.tasks[0].priority) by {
        if Valid(l) {
          forall i | 0 <= i < |l.tasks| - 1 ensures Rank(l.tasks[1..][i].priority) <= Rank(l.tasks[0].priority) {
            assert l.tasks[1..][i] == l.tasks[i + 1];
          }
        }
      }
      PopResult(Some(l.tasks[0]), TaskList(l.tasks[1..], l.nTasks - 1))
  }

  /** The linear search behind tasklist_get: the first task with the id, if any. */
  function Find(s: seq<Task>, id: nat): (r: Option<Task>)
    ensures r.Some? ==> r.value in s && r.value.id == id
    ensures r.None? <==> id !in Ids(s)
  {
    if s == [] then None
    else if s[0].id == id then Some(s[0])
    else Find(s[1..], id)
  }

  /** tasklist_get: a lookup that leaves the list unchanged. */
  function Get(l: TaskList, id: nat): (r: Option<Task>)
    ensures r.Some? ==> r.value in l.tasks && r.value.id == id
    ensures r.None? <==> id !in Ids(l.tasks)
  {
    Find(l.tasks, id)
  }

  /** The position of the first task with the id, or |s|. */
  function IndexOfId(s: seq<Task>, id: nat): (k: nat)
    ensures k <= |s|
    ensures forall i :: 0 <= i < k ==> s[i].id != id
    ensures k < |s| ==> s[k].id == id
    ensures k == |s| <==> id !in Ids(s)
  {
    IdsMember(s, id);
    if s == [] then 0
    else if s[0].id == id then 0
    else
      IdsMember(s[1..], id);
      1 + IndexOfId(s[1..], id)
  }

  /** The unlinking loop of tasklist_remove, on the sequence of members. */
  function RemoveSeq(s: seq<Task>, id: nat): (r: (Option<Task>, seq<Task>))
    ensures var k := IndexOfId(s, id);
      if k == |s| then r == (None, s) else r == (Some(s[k]), s[..k] + s[k + 1..])
  {
    if s == [] then (None, s)
    else if s[0].id == id then assert s[..0] + s[1..] == s[1..]; (Some(s[0]), s[1..])
    else
      var rest := RemoveSeq(s[1..], id);
      UnlinkAfterHead(s, id);
      (rest.0, [s[0]] + rest.1)
  }

  /**
   When the head of `s` does not carry `id`, the position of `id` in `s` is one
   past its position in the tail, and unlinking it keeps the head in front of
   the tail with `id` unlinked.
   */
  lemma UnlinkAfterHead(s: seq<Task>, id: nat)
    requires s != [] && s[0].id != id
    ensures var k := IndexOfId(s[1..], id);
      && IndexOfId(s, id) == 1 + k
      && (k < |s| - 1 ==> s[..k + 1] + s[k + 2..] == [s[0]] + (s[1..][..k] + s[1..][k + 1..]))
      && (k == |s| - 1 ==> s == [s[0]] + s[1..])
  {
    var k := IndexOfId(s[1..], id);
    if k < |s| - 1 {
      assert s[..k + 1] == [s[0]] + s[1..][..k];
      assert s[k + 2..] == s[1..][k + 1..];
    }
  }

  /** What unlinking the member at position `k` keeps: order, the other members, and distinctness. */
  lemma Deletion(s: seq<Task>, k: nat)
    requires k < |s|
    ensures multiset(s[..k] + s[k + 1..]) == multiset(s) - multiset{s[k]}
    ensures Sorted(s) ==> Sorted(s[..k] + s[k + 1..])
    ensures Distinct(s) ==> Distinct(s[..k] + s[k + 1..]) && Ids(s[..k] + s[k + 1..]) == Ids(s) - {s[k].id}
  {
    var a, x, b := s[..k], s[k], s[k + 1..];
    assert s == a + [x] + b;
    DeletionIds(a, x, b);
    DeletionSorted(s, k);
  }

  lemma DeletionSorted(s: seq<Task>, k: nat)
    requires k < |s|
    ensures Sorted(s) ==> Sorted(s[..k] + s[k + 1..])
  {
    if Sorted(s) {
      SortedSlice(s, 0, k);
      SortedSlice(s, k + 1, |s|);
      SortedJoin(s[..k], s[k + 1..]);
    }
  }

  lemma DeletionIds(a: seq<Task>, x: Task, b: seq<Task>)
    ensures Distinct(a + [x] + b) ==> Distinct(a + b) && Ids(a + b) == Ids(a + [x] + b) - {x.id}
  {
    Insertion(a, x, b);
  }

  datatype RemoveResult = RemoveResult(task: Option<Task>, list: TaskList)

  /**
   tasklist_remove: unlinks and returns the first task with the id, from any
   position, decrementing the count; an absent id returns nothing and changes
   nothing. With distinct ids the id is gone afterwards.
   */
  function Remove(l: TaskList, id: nat): (r: RemoveResult)
    ensures id !in Ids(l.tasks) ==> r.task.None? && r.list == l
    ensures id in Ids(l.tasks) ==>
      var k := IndexOfId(l.tasks, id);
      && r.task == Some(l.tasks[k])
      && r.task.value.id == id
      && r.list.tasks == l.tasks[..k] + l.tasks[k + 1..]
      && r.list.nTasks == l.nTasks - 1
      && multiset(r.list.tasks) == multiset(l.tasks) - multiset{l.tasks[k]}
    ensures Valid(l) ==> Valid(r.list)
    ensures Distinct(l.tasks) ==> Distinct(r.list.tasks) && Ids(r.list.tasks) == Ids(l.tasks) - {id}
  {
    var found := RemoveSeq(l.tasks, id);
    if found.0.None? then RemoveResult(None, l)
    else
      Deletion(l.tasks, IndexOfId(l.tasks, id));
      RemoveResult(found.0, TaskList(found.1, l.nTasks - 1))
  }

  /** tasklist_clear: every member is dropped and the count is reset. */
  function Clear(l: TaskList): (r: TaskList)
    ensures Valid(r) && r.nTasks == 0 && Ids(r.tasks) == {}
    ensures forall id :: Get(r, id).None?
  {
    TaskList([], 0)
  }

  // The order in which a list gives its tasks up, and the list built by
  // inserting a sequence of tasks one after the other.

  /** The tasks returned by popping until the list is empty. */
  function Drain(l: TaskList): seq<Task>
    decreases |l.tasks|
  {
    var p := Pop(l);
    if p.task.None? then [] else [p.task.value] + Drain(p.list)
  }

  /** Popping until empty yields the members from the head on. */
  lemma {:induction false} DrainIsOrder(l: TaskList)
    ensures Drain(l) == l.tasks
    decreases |l.tasks|
  {
    if l.tasks != [] {
      DrainIsOrder(Pop(l).list);
    }
  }

  /** The list after inserting `xs` in order into a new list. */
  function InsertAll(xs: seq<Task>): TaskList
  {
    if xs == [] then Create()
    else Insert(InsertAll(xs[..|xs| - 1]), Some(xs[|xs| - 1])).list
  }

  lemma SplitLast<T>(xs: seq<T>)
    requires xs != []
    ensures xs == xs[..|xs| - 1] + [xs[|xs| - 1]]
  {
  }

  /** The tasks of `xs` with priority `p`, in their order in `xs`. */
  function OfPriority(xs: seq<Task>, p: Priority): seq<Task>
  {
    if xs == [] then []
    else (if xs[0].priority == p then [xs[0]] else []) + OfPriority(xs[1..], p)
  }

  /**
   The reference order of dispatch: all HIGH tasks, then all MEDIUM ones, then
   all LOW ones, each group in the order of `xs`.
   */
  function ByPriority(xs: seq<Task>): seq<Task>
  {
    OfPriority(xs, High) + OfPriority(xs, Medium) + OfPriority(xs, Low)
  }

  lemma {:induction false} OfPriorityConcat(a: seq<Task>, b: seq<Task>, p: Priority)
    ensures OfPriority(a + b, p) == OfPriority(a, p) + OfPriority(b, p)
  {
    if a == [] {
      assert a + b == b;
    } else {
      var ab := a + b;
      assert ab[0] == a[0] && ab[1..] == a[1..] + b;
      OfPriorityConcat(a[1..], b, p);
      assert OfPriority(ab, p) == (if a[0].priority == p then [a[0]] else []) + OfPriority(a[1..] + b, p);
    }
  }

  lemma {:induction false} OfPriorityOnly(xs: seq<Task>, p: Priority)
    ensures forall i :: 0 <= i < |OfPriority(xs, p)| ==> OfPriority(xs, p)[i].priority == p
  {
    if xs != [] {
      OfPriorityOnly(xs[1..], p);
    }
  }

  lemma {:induction false} OfPriorityIdem(xs: seq<Task>, p: Priority, q: Priority)
    ensures OfPriority(OfPriority(xs, q), p) == if p == q then OfPriority(xs, p) else []
  {
    if xs != [] {
      OfPriorityIdem(xs[1..], p, q);
      var head := if xs[0].priority == q then [xs[0]] else [];
      OfPriorityConcat(head, OfPriority(xs[1..], q), p);
      if xs[0].priority == q {
        assert OfPriority(head, p) == if p == q then [xs[0]] else [] by {
          assert head[1..] == [];
        }
      }
    }
  }

  lemma OfPrioritySnoc(xs: seq<Task>, x: Task, p: Priority)
    ensures OfPriority(xs + [x], p) == OfPriority(xs, p) + (if x.priority == p then [x] else [])
  {
    OfPriorityConcat(xs, [x], p);
    assert [x][1..] == [];
  }

  /** Inserting before a suffix of strictly lower priority puts the task right there. */
  lemma InsertAtBoundary(a: seq<Task>, b: seq<Task>, t: Task)
    requires AtLeast(a, t.priority) && Below(b, t.priority)
    ensures InsertSeq(a + b, t) == a + [t] + b
  {
    FirstLowerAtBoundary(a, b, t.priority);
    assert (a + b)[..|a|] == a;
    assert (a + b)[|a|..] == b;
  }

  /** The first task below `p` in `a + b` is the first of `b`. */
  lemma {:induction false} FirstLowerAtBoundary(a: seq<Task>, b: seq<Task>, p: Priority)
    requires AtLeast(a, p) && Below(b, p)
    ensures FirstLower(a + b, p) == |a|
  {
    if a == [] {
      assert a + b == b;
    } else {
      assert (a + b)[0] == a[0];
      assert (a + b)[1..] == a[1..] + b;
      FirstLowerAtBoundary(a[1..], b, p);
    }
  }

  /** Every task of `s` has priority `p`. */
  ghost predicate AllOf(s: seq<Task>, p: Priority)
  {
    forall i :: 0 <= i < |s| ==> s[i].priority == p
  }

  ghost predicate AtLeast(s: seq<Task>, p: Priority)
  {
    forall i :: 0 <= i < |s| ==> Rank(p) <= Rank(s[i].priority)
  }

  ghost predicate Below(s: seq<Task>, p: Priority)
  {
    forall i :: 0 <= i < |s| ==> Rank(s[i].priority) < Rank(p)
  }

  lemma BoundsConcat(a: seq<Task>, b: seq<Task>, p: Priority)
    ensures AtLeast(a, p) && AtLeast(b, p) ==> AtLeast(a + b, p)
    ensures Below(a, p) && Below(b, p) ==> Below(a + b, p)
  {
    assert forall i :: 0 <= i < |a + b| ==> (a + b)[i] == if i < |a| then a[i] else b[i - |a|];
  }

  lemma GroupBounds(s: seq<Task>, q: Priority, p: Priority)
    requires AllOf(s, q)
    ensures Rank(p) <= Rank(q) ==> AtLeast(s, p)
    ensures Rank(q) < Rank(p) ==> Below(s, p)
  {
  }

  /** Inserting into the HIGH, MEDIUM and LOW groups appends to the task's own group. */
  lemma InsertIntoGroups(h: seq<Task>, m: seq<Task>, lo: seq<Task>, x: Task)
    requires AllOf(h, High) && AllOf(m, Medium) && AllOf(lo, Low)
    ensures InsertSeq(h + m + lo, x) ==
      match x.priority
      case High => (h + [x]) + m + lo
      case Medium => h + (m + [x]) + lo
      case Low => h + m + (lo + [x])
  {
    var p := x.priority;
    GroupBounds(h, High, p);
    GroupBounds(m, Medium, p);
    GroupBounds(lo, Low, p);
    BoundsConcat(h, m, p);
    BoundsConcat(m, lo, p);
    BoundsConcat(h + m, lo, p);
    match p
    case High => InsertAtBoundaryHigh(h, m, lo, x);
    case Medium => InsertAtBoundary(h + m, lo, x);
    case Low => InsertAtEnd(h + m + lo, x);
  }

  lemma InsertAtBoundaryHigh(h: seq<Task>, m: seq<Task>, lo: seq<Task>, x: Task)
    requires AtLeast(h, x.priority) && Below(m + lo, x.priority)
    ensures InsertSeq(h + m + lo, x) == (h + [x]) + m + lo
  {
    var rest := m + lo;
    assert h + m + lo == h + rest;
    InsertAtBoundary(h, rest, x);
    assert h + [x] + rest == (h + [x]) + m + lo;
  }

  lemma InsertAtEnd(s: seq<Task>, x: Task)
    requires AtLeast(s, x.priority)
    ensures InsertSeq(s, x) == s + [x]
  {
    InsertAtBoundary(s, [], x);
    assert s + [] == s;
  }

  /** The groups of `xs + [x]`: the group of `x` gains `x` at its end. */
  lemma ByPrioritySnoc(xs: seq<Task>, x: Task)
    ensures ByPriority(xs + [x]) ==
      var h, m, lo := OfPriority(xs, High), OfPriority(xs, Medium), OfPriority(xs, Low);
      match x.priority
      case High => (h + [x]) + m + lo
      case Medium => h + (m + [x]) + lo
      case Low => h + m + (lo + [x])
  {
    OfPrioritySnoc(xs, x, High);
    OfPrioritySnoc(xs, x, Medium);
    OfPrioritySnoc(xs, x, Low);
  }

  /**
   Inserting the tasks `xs` one by one gives the list HIGH first, then MEDIUM,
   then LOW, each in insertion order, with the count equal to |xs|.
   */
  lemma {:induction false} InsertAllIsByPriority(xs: seq<Task>)
    ensures InsertAll(xs).tasks == ByPriority(xs)
    ensures InsertAll(xs).nTasks == |xs|
    ensures Valid(InsertAll(xs))
  {
    if xs != [] {
      var init := xs[..|xs| - 1];
      var x := xs[|xs| - 1];
      SplitLast(xs);
      InsertAllIsByPriority(init);
      OfPriorityOnly(init, High);
      OfPriorityOnly(init, Medium);
      OfPriorityOnly(init, Low);
      InsertIntoGroups(OfPriority(init, High), OfPriority(init, Medium), OfPriority(init, Low), x);
      ByPrioritySnoc(init, x);
    }
  }

  /**
   pop yields tasks in descending priority and, within one priority, in the
   order they were inserted.
   */
  lemma PopOrderIsStable(xs: seq<Task>)
    ensures Sorted(Drain(InsertAll(xs)))
    ensures forall p :: OfPriority(Drain(InsertAll(xs)), p) == OfPriority(xs, p)
    ensures multiset(Drain(InsertAll(xs))) == multiset(xs)
  {
    InsertAllIsByPriority(xs);
    DrainIsOrder(InsertAll(xs));
    forall p ensures OfPriority(ByPriority(xs), p) == OfPriority(xs, p) {
      GroupsKeepOrder(xs, p);
    }
    InsertAllPermutes(xs);
  }

  lemma GroupsKeepOrder(xs: seq<Task>, p: Priority)
    ensures OfPriority(ByPriority(xs), p) == OfPriority(xs, p)
  {
    var h, m, lo := OfPriority(xs, High), OfPriority(xs, Medium), OfPriority(xs, Low);
    OfPriorityConcat(h + m, lo, p);
    OfPriorityConcat(h, m, p);
    OfPriorityIdem(xs, p, High);
    OfPriorityIdem(xs, p, Medium);
    OfPriorityIdem(xs, p, Low);
  }

  lemma {:induction false} InsertAllPermutes(xs: seq<Task>)
    ensures multiset(InsertAll(xs).tasks) == multiset(xs)
  {
    if xs != [] {
      InsertAllPermutes(xs[..|xs| - 1]);
      SplitLast(xs);
    }
  }

  // The scenarios of the unit tests for task lists.

  /** tasklist_create_test: a new list is empty with a zero count. */
  lemma CreateTest()
    ensures Create().tasks == [] && Create().nTasks == 0
  {
  }

  /** tasklist_insert_test: inserting HIGH, MEDIUM, LOW gives that order and a count of 3. */
  lemma InsertTest(high: Task, medium: Task, low: Task)
    requires high.priority == High && medium.priority == Medium && low.priority == Low
    ensures var l := Insert(Insert(Insert(Create(), Some(high)).list, Some(medium)).list, Some(low)).list;
      l.nTasks == 3 && l.tasks == [high, medium, low]
  {
    assert [high, medium] + [low] == [high, medium, low];
    assert [high] + [medium] == [high, medium];
  }

  /** One step of the scan of tasklist_insert. */
  lemma InsertStep(s: seq<Task>, t: Task)
    ensures s == [] ==> InsertSeq(s, t) == [t]
    ensures s != [] && Rank(s[0].priority) < Rank(t.priority) ==> InsertSeq(s, t) == [t] + s
    ensures s != [] && Rank(t.priority) <= Rank(s[0].priority) ==> InsertSeq(s, t) == [s[0]] + InsertSeq(s[1..], t)
  {
  }

  /** The list of tasklist_pop_test before the pops. */
  lemma PopTestList(low: Task, medium: Task, high1: Task, high2: Task)
    requires low.priority == Low && medium.priority == Medium
    requires high1.priority == High && high2.priority == High
    ensures Insert(Insert(Insert(Insert(Create(), Some(medium)).list, Some(high1)).list, Some(high2)).list, Some(low)).list
      == TaskList([high1, high2, medium, low], 4)
  {
    PopTestFirst(medium);
    PopTestSecond(medium, high1);
    PopTestThird(medium, high1, high2);
    PopTestFourth(low, medium, high1, high2);
  }

  lemma PopTestFirst(medium: Task)
    ensures Insert(Create(), Some(medium)).list == TaskList([medium], 1)
  {
    InsertStep([], medium);
  }

  lemma PopTestSecond(medium: Task, high1: Task)
    requires medium.priority == Medium && high1.priority == High
    ensures Insert(TaskList([medium], 1), Some(high1)).list == TaskList([high1, medium], 2)
  {
    InsertStep([medium], high1);
  }

  lemma PopTestThird(medium: Task, high1: Task, high2: Task)
    requires medium.priority == Medium && high1.priority == High && high2.priority == High
    ensures Insert(TaskList([high1, medium], 2), Some(high2)).list == TaskList([high1, high2, medium], 3)
  {
    InsertStep([high1, medium], high2);
    assert [high1, medium][1..] == [medium];
    InsertStep([medium], high2);
  }

  lemma PopTestFourth(low: Task, medium: Task, high1: Task, high2: Task)
    requires low.priority == Low && medium.priority == Medium
    requires high1.priority == High && high2.priority == High
    ensures Insert(TaskList([high1, high2, medium], 3), Some(low)).list == TaskList([high1, high2, medium, low], 4)
  {
    InsertLowLast(low, medium, high1, high2);
  }

  lemma InsertLowLast(low: Task, medium: Task, high1: Task, high2: Task)
    requires low.priority == Low && medium.priority == Medium
    requires high1.priority == High && high2.priority == High
    ensures InsertSeq([high1, high2, medium], low) == [high1, high2, medium, low]
  {
    assert InsertSeq([medium], low) == [medium, low] by {
      InsertStep([medium], low);
      assert [medium][1..] == [];
      InsertStep([], low);
    }
    assert InsertSeq([high2, medium], low) == [high2, medium, low] by {
      InsertStep([high2, medium], low);
      assert [high2, medium][1..] == [medium];
    }
    InsertStep([high1, high2, medium], low);
    assert [high1, high2, medium][1..] == [high2, medium];
  }

  /**
   tasklist_pop_test: after inserting MEDIUM, HIGH1, HIGH2, LOW the pops give
   HIGH1, HIGH2, MEDIUM, LOW and the count is 0; the list can be used again.
   */
  lemma PopTest(low: Task, medium: Task, high1: Task, high2: Task)
    requires low.priority == Low && medium.priority == Medium
    requires high1.priority == High && high2.priority == High
    ensures var l := Insert(Insert(Insert(Insert(Create(), Some(medium)).list, Some(high1)).list, Some(high2)).list, Some(low)).list;
      var p1 := Pop(l); var p2 := Pop(p1.list); var p3 := Pop(p2.list); var p4 := Pop(p3.list);
      && p1.task == Some(high1) && p2.task == Some(high2)
      && p3.task == Some(medium) && p4.task == Some(low)
      && p4.list.nTasks == 0
      && Pop(Insert(p4.list, Some(medium)).list).task == Some(medium)
  {
    PopTestList(low, medium, high1, high2);
    var p1 := Pop(TaskList([high1, high2, medium, low], 4));
    assert p1 == PopResult(Some(high1), TaskList([high2, medium, low], 3)) by {
      assert [high1, high2, medium, low][1..] == [high2, medium, low];
    }
    var p2 := Pop(p1.list);
    assert p2 == PopResult(Some(high2), TaskList([medium, low], 2)) by {
      assert [high2, medium, low][1..] == [medium, low];
    }
    var p3 := Pop(p2.list);
    assert p3 == PopResult(Some(medium), TaskList([low], 1)) by {
      assert [medium, low][1..] == [low];
    }
    var p4 := Pop(p3.list);
    assert p4 == PopResult(Some(low), TaskList([], 0)) by {
      assert [low][1..] == [];
    }
    assert Insert(p4.list, Some(medium)).list == TaskList([medium], 1) by {
      InsertStep([], medium);
    }
  }

  /** The three removals of tasklist_remove_test. */
  lemma RemoveTestSteps(high: Task, medium: Task, low: Task)
    requires high.id != medium.id && medium.id != low.id && high.id != low.id
    ensures RemoveSeq([high, medium, low], medium.id) == (Some(medium), [high, low])
    ensures RemoveSeq([high, low], low.id) == (Some(low), [high])
    ensures RemoveSeq([high], high.id) == (Some(high), [])
  {
    assert RemoveSeq([high, medium, low], medium.id) == (Some(medium), [high, low]) by {
      assert [high, medium, low][1..] == [medium, low];
      assert [medium, low][1..] == [low];
      assert RemoveSeq([medium, low], medium.id) == (Some(medium), [low]);
      assert [high] + [low] == [high, low];
    }
    assert RemoveSeq([high, low], low.id) == (Some(low), [high]) by {
      assert [high, low][1..] == [low];
      assert [low][1..] == [];
      assert RemoveSeq([low], low.id) == (Some(low), []);
      assert [high] + [] == [high];
    }
    assert RemoveSeq([high], high.id) == (Some(high), []) by {
      assert [high][1..] == [];
    }
  }

  /**
   tasklist_remove_test: MEDIUM, LOW and HIGH are each removed from wherever
   they sit, the count reaches 0, and removing HIGH again returns nothing.
   */
  lemma RemoveTest(high: Task, medium: Task, low: Task)
    requires high.priority == High && medium.priority == Medium && low.priority == Low
    requires high.id != medium.id && medium.id != low.id && high.id != low.id
    ensures var l := Insert(Insert(Insert(Create(), Some(high)).list, Some(medium)).list, Some(low)).list;
      var r1 := Remove(l, medium.id); var r2 := Remove(r1.list, low.id); var r3 := Remove(r2.list, high.id);
      && r1.task == Some(medium) && r2.task == Some(low) && r3.task == Some(high)
      && r3.list.nTasks == 0
      && Remove(r3.list, high.id).task != Some(high)
  {
    InsertTest(high, medium, low);
    RemoveTestSteps(high, medium, low);
  }

  /** tasklist_clear_test: clearing a list of three leaves a zero count. */
  lemma ClearTest(high: Task, medium: Task, low: Task)
    ensures Clear(InsertAll([high, medium, low])).nTasks == 0
  {
  }
}
