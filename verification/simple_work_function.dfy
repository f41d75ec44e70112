/**
 The single-call example program: a work function that adds a range of an
 array, called directly (without a pool) on the range covering the whole
 array 0, 1, ..., 9.

 Its addElements loops from `start` while the index stays below `count`,
 reading `count` as an end index, whereas the range record and the array-sum
 program treat it as a number of elements. Both loops are modelled: the one as
 written here, which this program runs, and the one of the array-sum program,
 which the rest of the model uses.
 */
module SimpleWorkFunction {
  import opened ArraySum

  const SimpleArraySize: nat := 10

  /** The elements the loop as written reads, [start, count), are inside the array. */
  predicate AsWrittenInBounds(r: Range)
  {
    r.count <= r.start || (0 <= r.start && r.count <= |r.elements|)
  }

  /** What the loop as written adds: the elements from index `start` up to, not including, index `count`. */
  function AsWrittenSum(r: Range): int
    requires AsWrittenInBounds(r)
  {
    if r.count <= r.start then 0 else Sum(r.elements[r.start..r.count])
  }

  /** addElements as written: i runs from start while i < count. */
  method AddElementsAsWritten(range: Range) returns (result: int)
    requires AsWrittenInBounds(range)
    ensures result == AsWrittenSum(range)
    ensures range.count <= range.start ==> result == 0
  {
    var i := range.start;
    result := 0;
    while i < range.count
      invariant range.count <= range.start ==> i == range.start
      invariant range.start < range.count ==> range.start <= i <= range.count
      invariant result == if i == range.start then 0 else Sum(range.elements[range.start..i])
    {
      var s := range.elements[range.start..i + 1];
      assert s[..|s| - 1] == range.elements[range.start..i];
      result := result + range.elements[i];
      i := i + 1;
    }
  }

  /**
   A range of 3 elements from index 2 of 0, 1, ..., 9: the loop as written adds
   only element 2, while the elements of the range, 2 + 3 + 4, sum to 9.
   */
  lemma AsWrittenMissesElements()
    ensures var r := Range(2, 3, Iota(SimpleArraySize));
      && AsWrittenInBounds(r) && InBounds(r)
      && AsWrittenSum(r) == 2
      && RangeSum(r) == 9
  {
    var r := Range(2, 3, Iota(SimpleArraySize));
    assert r.elements[2..3] == [2];
    assert r.elements[2..5] == [2, 3, 4];
    assert Sum([2]) == 2 by { assert [2][..0] == []; }
    assert Sum([2, 3]) == 5 by { assert [2, 3][..1] == [2]; }
    assert Sum([2, 3, 4]) == 9 by { assert [2, 3, 4][..2] == [2, 3]; }
  }

  /** For a range starting at 0 the two loops read the same elements. */
  lemma AsWrittenAgreesFromZero(r: Range)
    requires r.start == 0 && InBounds(r)
    ensures AsWrittenInBounds(r) && AsWrittenSum(r) == RangeSum(r)
  {
  }

  /**
   main: fill the array with 0, 1, ..., 9, call the work function as written
   once on the range covering all of it, and report the sum, 45. Since the
   range starts at 0 the corrected loop would report the same.
   */
  method SimpleProgram() returns (result: int)
    ensures result == 45
  {
    var elements: seq<int> := [];
    var i := 0;
    while i < SimpleArraySize
      invariant 0 <= i <= SimpleArraySize
      invariant elements == Iota(i)
    {
      elements := elements + [i];
      i := i + 1;
    }
    var range := Range(0, SimpleArraySize, elements);
    result := AddElementsAsWritten(range);
    assert elements[0..SimpleArraySize] == Iota(SimpleArraySize);
    SumIota(SimpleArraySize);
  }
}
