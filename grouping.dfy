/**
 * The batching loop of Main: the sorted file list is cut into consecutive
 * groups of `groupSize` files, the last one holding the remainder.
 */
module Grouping {

  /** `Math.Min`. */
  function Min(a: int, b: int): int {
    if a <= b then a else b
  }

  /**
   * `(int)Math.Ceiling((double)n / groupSize)`: the fewest groups of
   * `groupSize` that hold `n` items.
   */
  function CeilDiv(n: nat, groupSize: nat): (q: nat)
    requires groupSize > 0
    ensures q * groupSize >= n
    ensures q > 0 ==> (q - 1) * groupSize < n
  {
    var q := (n + groupSize - 1) / groupSize;
    var r := (n + groupSize - 1) % groupSize;
    assert n + groupSize - 1 == q * groupSize + r;
    assert (q - 1) * groupSize == q * groupSize - groupSize;
    q
  }

  /**
   * Group `i`: the items from `i * groupSize` up to the next boundary or the
   * end (empty once `i * groupSize` is past the end).
   */
  function Chunk<T>(s: seq<T>, groupSize: nat, i: nat): seq<T> {
    s[Min(i * groupSize, |s|)..Min(i * groupSize + groupSize, |s|)]
  }

  /** The groups laid end to end. */
  function Concat<T>(groups: seq<seq<T>>): seq<T>
    decreases |groups|
  {
    if groups == [] then [] else Concat(groups[..|groups| - 1]) + groups[|groups| - 1]
  }

  lemma ConcatAppend<T>(groups: seq<seq<T>>, g: seq<T>)
    ensures Concat(groups + [g]) == Concat(groups) + g
  {
    assert (groups + [g])[..|groups|] == groups;
  }

  /** `i * groupSize` grows with `i` (the multiplications the loop bounds need). */
  lemma MulMonotonic(i: nat, j: nat, groupSize: nat)
    requires i <= j
    ensures i * groupSize <= j * groupSize
  {
  }

  lemma MulSucc(i: nat, groupSize: nat)
    ensures (i + 1) * groupSize == i * groupSize + groupSize
  {
  }

  /**
   * Every group but the last holds exactly `groupSize` items; the last holds
   * between 1 and `groupSize`.
   */
  lemma ChunkLength<T>(s: seq<T>, groupSize: nat, i: nat)
    requires groupSize > 0
    requires i < CeilDiv(|s|, groupSize)
    ensures i * groupSize < |s|
    ensures 1 <= |Chunk(s, groupSize, i)| <= groupSize
    ensures i < CeilDiv(|s|, groupSize) - 1 ==> |Chunk(s, groupSize, i)| == groupSize
  {
    var q := CeilDiv(|s|, groupSize);
    MulMonotonic(i, q - 1, groupSize);
    if i < q - 1 {
      MulMonotonic(i + 1, q - 1, groupSize);
      assert (i + 1) * groupSize == i * groupSize + groupSize;
    }
  }

  /** The `i`-th group continues the files gathered by the groups before it. */
  lemma ChunkExtends<T>(s: seq<T>, groupSize: nat, i: nat)
    requires groupSize > 0
    requires i < CeilDiv(|s|, groupSize)
    ensures s[..Min(i * groupSize, |s|)] + Chunk(s, groupSize, i) == s[..Min((i + 1) * groupSize, |s|)]
  {
    ChunkLength(s, groupSize, i);
    MulSucc(i, groupSize);
    var start := i * groupSize;
    var end := Min(start + groupSize, |s|);
    assert s[..start] + s[start..end] == s[..end];
  }

  /**
   * The loop of Main that fills `groupedImages`: `numGroups` rounds, round
   * `i` copying items `[i * groupSize, min(i * groupSize + groupSize, n))`.
   */
  method GroupFiles<T>(files: seq<T>, groupSize: nat) returns (groups: seq<seq<T>>)
    requires groupSize > 0
    ensures |groups| == CeilDiv(|files|, groupSize)
    ensures forall i :: 0 <= i < |groups| ==> groups[i] == Chunk(files, groupSize, i)
    ensures forall i :: 0 <= i < |groups| ==>
              1 <= |groups[i]| <= groupSize && (i < |groups| - 1 ==> |groups[i]| == groupSize)
    ensures Concat(groups) == files
  {
    groups := [];
    var numGroups := CeilDiv(|files|, groupSize);
    var i := 0;
    while i < numGroups
      invariant 0 <= i <= numGroups
      invariant |groups| == i
      invariant forall k :: 0 <= k < i ==> groups[k] == Chunk(files, groupSize, k)
      invariant Concat(groups) == files[..Min(i * groupSize, |files|)]
    {
      ChunkLength(files, groupSize, i);
      var groupStartIndex := i * groupSize;
      var groupEndIndex := Min(groupStartIndex + groupSize, |files|);
      var group := files[groupStartIndex..groupEndIndex];
      assert group == Chunk(files, groupSize, i);
      ConcatAppend(groups, group);
      ChunkExtends(files, groupSize, i);
      groups := groups + [group];
      i := i + 1;
    }
    assert files[..|files|] == files;
    forall k | 0 <= k < |groups|
      ensures 1 <= |groups[k]| <= groupSize && (k < |groups| - 1 ==> |groups[k]| == groupSize)
    {
      ChunkLength(files, groupSize, k);
    }
  }

  /** Twelve files in groups of five: three groups, of 5, 5 and 2 files. */
  lemma TwelveFilesInFives<T>(files: seq<T>)
    requires |files| == 12
    ensures CeilDiv(|files|, 5) == 3
    ensures |Chunk(files, 5, 0)| == 5 && |Chunk(files, 5, 1)| == 5 && |Chunk(files, 5, 2)| == 2
  {
  }

  /** No files, no groups. */
  lemma NoFilesNoGroups(groupSize: nat)
    requires groupSize > 0
    ensures CeilDiv(0, groupSize) == 0
  {
  }
}
