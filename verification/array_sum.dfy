/**
 The array-sum example program: the array 0, 1, ..., ARRAY_SIZE-1 is split into
 THREADS contiguous ranges, the last one taking the remainder; one task per
 range adds its elements into its own result slot; the partial results add up
 to the sum of the whole array, n(n+1)/2 with n = ARRAY_SIZE-1.
 */
module ArraySum {
  import opened Tasks

  const Threads: nat := 3
  const ArraySize: nat := 100

  /** The payload of one task: `count` elements of `elements` from `start` on. */
  datatype Range = Range(start: int, count: int, elements: seq<int>)

  /** The sum of the elements of `s`. */
  function Sum(s: seq<int>): int
  {
    if s == [] then 0 else Sum(s[..|s| - 1]) + s[|s| - 1]
  }

  lemma {:induction false} SumConcat(a: seq<int>, b: seq<int>)
    ensures Sum(a + b) == Sum(a) + Sum(b)
    decreases |b|
  {
    if b == [] {
      assert a + b == a;
    } else {
      assert (a + b)[..|a + b| - 1] == a + b[..|b| - 1];
      SumConcat(a, b[..|b| - 1]);
    }
  }

  /** The elements the loop of addElements reads are all inside the array. */
  predicate InBounds(r: Range)
  {
    r.count <= 0 || (0 <= r.start && r.start + r.count <= |r.elements|)
  }

  /** The sum of the `count` elements from `start` on; nothing when `count` is not positive. */
  function RangeSum(r: Range): int
    requires InBounds(r)
  {
    if r.count <= 0 then 0 else Sum(r.elements[r.start..r.start + r.count])
  }

  /**
   addElements: the loop adds elements[start + i] for i from 0 below count. The
   array is a value here and so is left as it was.
   */
  method AddElements(range: Range) returns (result: int)
    requires InBounds(range)
    ensures result == RangeSum(range)
    ensures range.count <= 0 ==> result == 0
  {
    var i := 0;
    result := 0;
    while i < range.count
      invariant 0 <= i
      invariant range.count <= 0 ==> i == 0
      invariant 0 < range.count ==> i <= range.count
      invariant result == if i == 0 then 0 else Sum(range.elements[range.start..range.start + i])
    {
      var s := range.elements[range.start..range.start + i + 1];
      assert s[..|s| - 1] == range.elements[range.start..range.start + i];
      result := result + range.elements[range.start + i];
      i := i + 1;
    }
  }

  /**
   The ranges are contiguous, disjoint and cover [0, n) of `elements` exactly:
   the first starts at 0, each starts where the one before ends, the last ends
   at n, and no count is negative.
   */
  ghost predicate Partition(elements: seq<int>, ranges: seq<Range>, n: int)
  {
    && |ranges| > 0
    && n <= |elements|
    && ranges[0].start == 0
    && (forall i :: 0 <= i < |ranges| ==> ranges[i].elements == elements && 0 <= ranges[i].count)
    && (forall i :: 0 <= i < |ranges| - 1 ==> ranges[i].start + ranges[i].count == ranges[i + 1].start)
    && ranges[|ranges| - 1].start + ranges[|ranges| - 1].count == n
  }

  lemma PartitionInBounds(elements: seq<int>, ranges: seq<Range>, n: int)
    requires Partition(elements, ranges, n)
    ensures forall i :: 0 <= i < |ranges| ==> 0 <= ranges[i].start && ranges[i].start + ranges[i].count <= n
    ensures forall i :: 0 <= i < |ranges| ==> InBounds(ranges[i])
  {
    forall i | 0 <= i < |ranges|
      ensures 0 <= ranges[i].start && ranges[i].start + ranges[i].count <= n
    {
      StartsAndEnds(elements, ranges, n, i);
    }
  }

  lemma {:induction false} StartsAndEnds(elements: seq<int>, ranges: seq<Range>, n: int, i: nat)
    requires Partition(elements, ranges, n) && i < |ranges|
    ensures 0 <= ranges[i].start
    ensures ranges[i].start + ranges[i].count <= n
    decreases |ranges| - i
  {
    if i + 1 < |ranges| {
      StartsAndEnds(elements, ranges, n, i + 1);
      if i > 0 { StartsFromZero(elements, ranges, n, i); }
    } else if i > 0 {
      StartsFromZero(elements, ranges, n, i);
    }
  }

  lemma {:induction false} StartsFromZero(elements: seq<int>, ranges: seq<Range>, n: int, i: nat)
    requires Partition(elements, ranges, n) && i < |ranges|
    ensures 0 <= ranges[i].start
  {
    if i > 0 {
      StartsFromZero(elements, ranges, n, i - 1);
    }
  }

  /**
   The range construction of main: range i starts at i * (n / threads); every
   range but the last has n / threads elements; the last has the rest,
   n - (threads-1) * (n / threads). Together they partition the array.
   */
  method MakeRanges(elements: seq<int>, threads: int) returns (ranges: seq<Range>)
    requires threads >= 1
    ensures |ranges| == threads
    ensures forall i :: 0 <= i < threads ==> ranges[i].start == i * (|elements| / threads) && ranges[i].elements == elements
    ensures forall i :: 0 <= i < threads - 1 ==> ranges[i].count == |elements| / threads
    ensures ranges[threads - 1].count == |elements| - (threads - 1) * (|elements| / threads)
    ensures Partition(elements, ranges, |elements|)
  {
    var per := |elements| / threads;
    var rs: seq<Range> := [];
    var i := 0;
    while i < threads
      invariant 0 <= i <= threads
      invariant |rs| == i
      invariant forall j :: 0 <= j < i ==> rs[j] == Range(j * per, per, elements)
    {
      rs := rs + [Range(i * per, per, elements)];
      i := i + 1;
    }
    ranges := rs[threads - 1 := rs[threads - 1].(count := |elements| - (threads - 1) * per)];
    DivisionBounds(|elements|, threads);
    forall j | 0 <= j < threads - 1
      ensures ranges[j].start + ranges[j].count == ranges[j + 1].start
    {
      assert (j + 1) * per == j * per + per;
    }
    assert ranges[threads - 1].start + ranges[threads - 1].count == |elements|;
  }

  /** The remainder left for the last range is at least the common count. */
  lemma DivisionBounds(n: nat, threads: int)
    requires threads >= 1
    ensures 0 <= n / threads
    ensures n - (threads - 1) * (n / threads) >= n / threads
  {
    var q, r := n / threads, n % threads;
    assert n == threads * q + r;
    assert (threads - 1) * q == threads * q - q;
  }

  /** The partial sums of a sequence of ranges, in order. */
  function PartialSums(ranges: seq<Range>): (sums: seq<int>)
    requires forall i :: 0 <= i < |ranges| ==> InBounds(ranges[i])
    ensures |sums| == |ranges|
    ensures forall i :: 0 <= i < |ranges| ==> sums[i] == RangeSum(ranges[i])
  {
    if ranges == [] then []
    else PartialSums(ranges[..|ranges| - 1]) + [RangeSum(ranges[|ranges| - 1])]
  }

  /** A range reading [m, n) of `elements` sums to the sum of that slice. */
  lemma RangeIsSlice(elements: seq<int>, r: Range, m: int, n: int)
    requires r.elements == elements && r.start == m && 0 <= m
    requires 0 <= r.count && r.start + r.count == n && n <= |elements|
    ensures InBounds(r) && RangeSum(r) == Sum(elements[m..n])
  {
    if r.count == 0 {
      assert elements[m..n] == [];
    }
  }

  /** Splitting a prefix at m splits its sum. */
  lemma SumPrefixSplit(elements: seq<int>, m: int, n: int)
    requires 0 <= m <= n <= |elements|
    ensures Sum(elements[..n]) == Sum(elements[..m]) + Sum(elements[m..n])
  {
    assert elements[..n] == elements[..m] + elements[m..n];
    SumConcat(elements[..m], elements[m..n]);
  }

  lemma SumSnoc(s: seq<int>, x: int)
    ensures Sum(s + [x]) == Sum(s) + x
  {
    assert (s + [x])[..|s|] == s;
  }

  /** Dropping the last range of a partition of [0, n) leaves a partition of [0, start of the last). */
  lemma PartitionInit(elements: seq<int>, ranges: seq<Range>, n: int)
    requires Partition(elements, ranges, n) && |ranges| > 1
    ensures Partition(elements, ranges[..|ranges| - 1], ranges[|ranges| - 1].start)
  {
    PartitionInBounds(elements, ranges, n);
    var k := |ranges| - 1;
    assert ranges[..k][k - 1] == ranges[k - 1];
  }

  /** The partial sums over a partition of [0, n) add up to the sum of the first n elements. */
  lemma {:induction false} PartitionSum(elements: seq<int>, ranges: seq<Range>, n: int)
    requires Partition(elements, ranges, n)
    ensures forall i :: 0 <= i < |ranges| ==> InBounds(ranges[i])
    ensures 0 <= n && Sum(PartialSums(ranges)) == Sum(elements[..n])
    decreases |ranges|
  {
    PartitionInBounds(elements, ranges, n);
    var k := |ranges| - 1;
    var last := ranges[k];
    var m := last.start;
    RangeIsSlice(elements, last, m, n);
    var init := ranges[..k];
    assert PartialSums(ranges) == PartialSums(init) + [RangeSum(last)];
    SumSnoc(PartialSums(init), RangeSum(last));
    if k == 0 {
      assert PartialSums(init) == [];
      assert elements[..n] == elements[m..n];
    } else {
      PartitionInit(elements, ranges, n);
      PartitionSum(elements, init, m);
      SumPrefixSplit(elements, m, n);
    }
  }

  /** The numbers 0, 1, ..., n-1: the array that main fills, and the task numbers. */
  function Iota(n: nat): (s: seq<nat>)
    ensures |s| == n && forall i :: 0 <= i < n ==> s[i] == i
  {
    seq(n, i => i)
  }

  /** Gauss: 0 + 1 + ... + (n-1), doubled, is n(n-1). */
  lemma {:induction false} SumIota(n: nat)
    ensures 2 * Sum(Iota(n)) == n * (n - 1)
  {
    if n > 0 {
      assert Iota(n)[..n - 1] == Iota(n - 1);
      SumIota(n - 1);
    }
  }

  // Where main's arrays sit in memory: `ranges[i]` at address 1 + i and
  // `results[i]` after them, at 1 + THREADS + i. No address is NULL.

  function RangeAddr(i: nat): Addr { 1 + i }

  function ResultAddr(i: nat): Addr { 1 + Threads + i }

  /** The index into `ranges` that a payload address points to. */
  function RangeOf(addr: Addr): int { addr - 1 }

  /** The index into `results` that a result address points to. */
  function SlotOf(addr: Addr): int { addr - 1 - Threads }

  /** The argument of task i: the address of range i, caller-owned, the address of result slot i. */
  function TaskArgument(i: nat): (a: Argument)
    ensures a.delArg == NoDelete
    ensures a.arg != 0 && a.result != 0
    ensures RangeOf(a.arg) == i && SlotOf(a.result) == i
  {
    MakeArgument(RangeAddr(i), NoDelete, ResultAddr(i))
  }

  /**
   The tasks' addresses are told apart: different tasks have different payloads
   and different result slots, and no result slot is any task's payload.
   */
  lemma OwnResultSlots(i: nat, j: nat)
    requires i < Threads && j < Threads
    ensures i != j ==> TaskArgument(i).result != TaskArgument(j).result
    ensures i != j ==> TaskArgument(i).arg != TaskArgument(j).arg
    ensures TaskArgument(i).result != TaskArgument(j).arg
  {
  }

  /**
   addElements run on the argument `a`: the range `a.arg` points to is summed
   and the sum written to the slot `a.result` points to; no other slot changes,
   and the array is a value here, so it is left as it was. main never passes an
   argument that points outside `ranges` or `results`; such an argument
   changes nothing.
   */
  function AddElementsEffect(ranges: seq<Range>, a: Argument, results: seq<int>): (r: seq<int>)
    ensures |r| == |results|
    ensures var k, j := RangeOf(a.arg), SlotOf(a.result);
      0 <= k < |ranges| && InBounds(ranges[k]) && 0 <= j < |results| ==>
        && r[j] == RangeSum(ranges[k])
        && forall m :: 0 <= m < |results| && m != j ==> r[m] == results[m]
    ensures var k, j := RangeOf(a.arg), SlotOf(a.result);
      !(0 <= k < |ranges| && InBounds(ranges[k]) && 0 <= j < |results|) ==> r == results
  {
    var k, j := RangeOf(a.arg), SlotOf(a.result);
    if 0 <= k < |ranges| && InBounds(ranges[k]) && 0 <= j < |results|
    then results[j := RangeSum(ranges[k])]
    else results
  }

  /** addElements as the work function of the tasks, for task_exec. */
  function WorkEffect(ranges: seq<Range>): (WorkFn, Argument, seq<int>) -> seq<int>
  {
    (w: WorkFn, a: Argument, results: seq<int>) => AddElementsEffect(ranges, a, results)
  }

  /** `order` names every task exactly once: the order in which the workers ran them. */
  ghost predicate RunOrder(order: seq<nat>, n: nat)
  {
    multiset(order) == multiset(Iota(n))
  }

  /** A run order of n tasks has n entries, all below n, and names every task. */
  lemma RunOrderFacts(order: seq<nat>, n: nat)
    requires RunOrder(order, n)
    ensures |order| == n
    ensures forall k :: 0 <= k < |order| ==> order[k] < n
    ensures forall j :: 0 <= j < n ==> j in order
  {
    assert |multiset(order)| == |multiset(Iota(n))|;
    forall k | 0 <= k < |order| ensures order[k] < n {
      assert order[k] in multiset(order);
      assert order[k] in multiset(Iota(n));
    }
    forall j | 0 <= j < n ensures j in order {
      assert Iota(n)[j] == j;
      assert j in multiset(Iota(n));
    }
  }

  /**
   main: build the array and the ranges, submit one task per range with its own
   result slot, let the pool run them in any order (`order`) starting from
   whatever the slots held (`initial`), then add the results. The total is the
   expected n(n+1)/2 = 4950 however the tasks were scheduled.
   */
  method ArraySumProgram(order: seq<nat>, initial: seq<int>) returns (finalResult: int, expectedResult: int)
    requires RunOrder(order, Threads) && |initial| == Threads
    ensures finalResult == expectedResult == 4950
  {
    var elements: seq<int> := [];
    var i := 0;
    while i < ArraySize
      invariant 0 <= i <= ArraySize
      invariant elements == Iota(i)
    {
      elements := elements + [i];
      i := i + 1;
    }
    var ranges := MakeRanges(elements, Threads);
    PartitionInBounds(elements, ranges, |elements|);

    var tasks: seq<Task> := [];
    var lastId := 0;
    i := 0;
    while i < Threads
      invariant 0 <= i <= Threads
      invariant |tasks| == i
      invariant forall j :: 0 <= j < i ==> tasks[j].argument == TaskArgument(j) && tasks[j].status == NotExecuted
    {
      var created := Create(0, TaskArgument(i), DefaultPriority, lastId, true);
      tasks := tasks + [created.value.task];
      lastId := created.value.lastId;
      i := i + 1;
    }

    RunOrderFacts(order, Threads);
    var results := initial;
    var run := WorkEffect(ranges);
    var k := 0;
    while k < Threads
      invariant 0 <= k <= Threads
      invariant |results| == Threads
      invariant forall j :: 0 <= j < Threads && j in order[..k] ==> results[j] == RangeSum(ranges[j])
    {
      var t := tasks[order[k]];
      var out := Exec(t, results, run);
      assert out.mem == AddElementsEffect(ranges, TaskArgument(order[k]), results);
      RunFillsSlot(ranges, order, k, results);
      results := out.mem;
      k := k + 1;
    }
    AllSlotsFilled(ranges, order, results);

    finalResult := 0;
    i := 0;
    while i < Threads
      invariant 0 <= i <= Threads
      invariant finalResult == Sum(results[..i])
    {
      assert results[..i + 1][..i] == results[..i];
      finalResult := finalResult + results[i];
      i := i + 1;
    }
    assert results[..Threads] == results;
    TotalOfResults(elements, ranges, results);

    var n := ArraySize - 1;
    expectedResult := (n * (n + 1)) / 2;
  }

  /** Running the task for slot `order[k]` fills that slot and keeps the slots filled before it. */
  lemma RunFillsSlot(ranges: seq<Range>, order: seq<nat>, k: nat, results: seq<int>)
    requires |ranges| == Threads && |results| == Threads
    requires forall j :: 0 <= j < Threads ==> InBounds(ranges[j])
    requires k < |order| && order[k] < Threads
    requires forall j :: 0 <= j < Threads && j in order[..k] ==> results[j] == RangeSum(ranges[j])
    ensures var r := AddElementsEffect(ranges, TaskArgument(order[k]), results);
      && |r| == Threads
      && forall j :: 0 <= j < Threads && j in order[..k + 1] ==> r[j] == RangeSum(ranges[j])
  {
    assert order[..k + 1] == order[..k] + [order[k]];
  }

  /** Once the whole run order has run, every slot holds its range's sum. */
  lemma AllSlotsFilled(ranges: seq<Range>, order: seq<nat>, results: seq<int>)
    requires RunOrder(order, Threads) && |order| == Threads
    requires |ranges| == Threads && |results| == Threads
    requires forall j :: 0 <= j < Threads ==> InBounds(ranges[j])
    requires forall j :: 0 <= j < Threads && j in order[..Threads] ==> results[j] == RangeSum(ranges[j])
    ensures forall j :: 0 <= j < Threads ==> results[j] == RangeSum(ranges[j])
  {
    RunOrderFacts(order, Threads);
    assert order[..Threads] == order;
  }

  /**
   When every slot holds the sum of its range of a partition of 0, 1, ...,
   ARRAY_SIZE-1, the slots add up to the sum of the whole array, 4950.
   */
  lemma TotalOfResults(elements: seq<int>, ranges: seq<Range>, results: seq<int>)
    requires elements == Iota(ArraySize) && Partition(elements, ranges, |elements|)
    requires |results| == |ranges|
    requires forall j :: 0 <= j < |ranges| ==> InBounds(ranges[j]) && results[j] == RangeSum(ranges[j])
    ensures Sum(results) == 4950
  {
    assert results == PartialSums(ranges);
    PartitionSum(elements, ranges, |elements|);
    assert elements[..|elements|] == Iota(ArraySize);
    SumIota(ArraySize);
  }
}
