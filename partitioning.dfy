/** `partition`: splitting an array into at most a given number of consecutive slices whose
    lengths differ by at most one, the longer slices first. */
module Partitioning {
  import opened PhpValues

  /** The length of slice `i` when `n` entries are split `c` ways: the first `n % c` slices
      take one entry more than the rest. */
  function ChunkLength(n: nat, c: nat, i: nat): nat
    requires c >= 1
  {
    if i < n % c then n / c + 1 else n / c
  }

  /** Where slice `i` starts: the lengths of the slices before it, added up. */
  function Offset(n: nat, c: nat, i: nat): nat
    requires c >= 1
  {
    if i == 0 then 0 else Offset(n, c, i - 1) + ChunkLength(n, c, i - 1)
  }

  /** How many slices are produced: the requested count, or fewer when there are fewer
      entries, so that no slice is empty. */
  function SliceCount(n: nat, c: nat): nat
  {
    if n < c then n else c
  }

  lemma MulStep(i: nat, q: nat)
    requires i > 0
    ensures i * q == (i - 1) * q + q
  {
  }

  lemma {:induction false} OffsetClosed(n: nat, c: nat, i: nat)
    requires c >= 1
    ensures Offset(n, c, i) == i * (n / c) + if i < n % c then i else n % c
  {
    if i > 0 {
      OffsetClosed(n, c, i - 1);
      MulStep(i, n / c);
    }
  }

  lemma DivModBelow(n: nat, c: nat)
    requires n < c
    ensures n / c == 0 && n % c == n
  {
  }

  /** With fewer entries than slices, every slice up to the last entry holds one entry. */
  lemma {:induction false} OffsetBelow(n: nat, c: nat, i: nat)
    requires n < c
    ensures Offset(n, c, i) == if i < n then i else n
  {
    if i > 0 {
      OffsetBelow(n, c, i - 1);
      DivModBelow(n, c);
    }
  }

  lemma {:induction false} OffsetMonotonic(n: nat, c: nat, i: nat, j: nat)
    requires c >= 1 && i <= j
    ensures Offset(n, c, i) <= Offset(n, c, j)
    decreases j - i
  {
    if i < j {
      OffsetMonotonic(n, c, i, j - 1);
    }
  }

  /** The slices together take up the whole input. */
  lemma OffsetEnd(n: nat, c: nat)
    requires c >= 1
    ensures Offset(n, c, SliceCount(n, c)) == n
  {
    if n < c {
      OffsetBelow(n, c, n);
    } else {
      OffsetClosed(n, c, c);
      assert n == c * (n / c) + n % c;
    }
  }

  /** No produced slice is empty. */
  lemma ChunkPositive(n: nat, c: nat, i: nat)
    requires c >= 1 && i < SliceCount(n, c)
    ensures ChunkLength(n, c, i) >= 1
  {
    if n < c {
      assert n % c == n;
    } else {
      assert n / c >= 1;
    }
  }

  lemma OffsetWithin(n: nat, c: nat, i: nat)
    requires c >= 1 && i <= SliceCount(n, c)
    ensures Offset(n, c, i) <= n
  {
    OffsetMonotonic(n, c, i, SliceCount(n, c));
    OffsetEnd(n, c);
  }

  /** `array_slice($input, $offset, $length, $preserveKeys)`: the entries from `offset` on,
      `length` of them; without preserved keys the integer keys are renumbered from 0. */
  function Slice(input: seq<Entry>, offset: nat, length: nat, preserveKeys: bool): (r: seq<Entry>)
    requires offset + length <= |input|
    ensures |r| == length
  {
    if preserveKeys then input[offset..offset + length] else ReindexInts(input[offset..offset + length], 0)
  }

  /** A slice holds the values of its stretch in order and keeps its string keys; with
      preserved keys it is the stretch itself. */
  lemma SliceFacts(input: seq<Entry>, offset: nat, length: nat, preserveKeys: bool)
    requires offset + length <= |input|
    ensures var r := Slice(input, offset, length, preserveKeys);
      (forall j | 0 <= j < length :: r[j].val == input[offset + j].val) &&
      (forall j | 0 <= j < length && input[offset + j].key.SK? :: r[j].key == input[offset + j].key) &&
      (preserveKeys ==> r == input[offset..offset + length])
  {
    var part := input[offset..offset + length];
    forall j | 0 <= j < length
      ensures part[j] == input[offset + j]
      ensures !preserveKeys ==> ReindexInts(part, 0)[j].val == part[j].val
      ensures !preserveKeys && part[j].key.SK? ==> ReindexInts(part, 0)[j].key == part[j].key
    {
      ReindexIntsKeeps(part, 0, j);
    }
  }

  /** Without preserved keys, a slice of a list is numbered 0, 1, 2, ... */
  lemma SliceOfListNumbered(input: seq<Entry>, offset: nat, length: nat, j: nat)
    requires offset + length <= |input| && j < length
    requires forall k | 0 <= k < |input| :: input[k].key.IK?
    ensures Slice(input, offset, length, false)[j].key == IK(j)
  {
    var part := input[offset..offset + length];
    assert part[j] == input[offset + j];
    ReindexIntsNumbers(part, 0, j);
    IntKeysBeforeList(part, j);
  }

  /** The first `i` slices. */
  function SlicesUpTo(input: seq<Entry>, c: nat, preserveKeys: bool, i: nat): (r: seq<seq<Entry>>)
    requires c >= 1 && i <= SliceCount(|input|, c)
    ensures |r| == i
  {
    if i == 0 then []
    else
      OffsetWithin(|input|, c, i);
      SlicesUpTo(input, c, preserveKeys, i - 1) +
        [Slice(input, Offset(|input|, c, i - 1), ChunkLength(|input|, c, i - 1), preserveKeys)]
  }

  /** What partition returns for a positive partition count. */
  function Partitions(input: seq<Entry>, c: nat, preserveKeys: bool): (r: seq<seq<Entry>>)
    requires c >= 1
    ensures |r| == SliceCount(|input|, c)
  {
    SlicesUpTo(input, c, preserveKeys, SliceCount(|input|, c))
  }

  /** While there are entries left and the count is not reached, another slice follows. */
  lemma MoreSlices(n: nat, c: nat, i: nat)
    requires c >= 1 && i <= SliceCount(n, c)
    requires i < c && Offset(n, c, i) < n
    ensures i < SliceCount(n, c)
  {
    if n < c {
      OffsetBelow(n, c, i);
    }
  }

  /** Once the count is reached or the entries run out, every slice has been produced. */
  lemma NoMoreSlices(n: nat, c: nat, i: nat)
    requires c >= 1 && i <= SliceCount(n, c)
    requires !(i < c && Offset(n, c, i) < n)
    ensures i == SliceCount(n, c)
  {
    if i < SliceCount(n, c) {
      ChunkPositive(n, c, i);
      OffsetWithin(n, c, i + 1);
    }
  }

  /** `partition`: a count below one is rejected; otherwise the slices, in order. */
  method Partition(input: seq<Entry>, partitionCount: int, preserveKeys: bool) returns (r: Result<seq<seq<Entry>>>)
    ensures partitionCount < 1 ==> r == Err(InvalidArgument)
    ensures partitionCount >= 1 ==> r == Ok(Partitions(input, partitionCount, preserveKeys))
  {
    if partitionCount < 1 {
      return Err(InvalidArgument);
    }
    var inputLength := |input|;
    var partitionLength := inputLength / partitionCount;
    var partitionRemainder := inputLength % partitionCount;
    var partitions := [];
    var sliceOffset := 0;
    var partitionIndex := 0;
    while partitionIndex < partitionCount && sliceOffset < inputLength
      invariant partitionIndex <= SliceCount(inputLength, partitionCount)
      invariant sliceOffset == Offset(inputLength, partitionCount, partitionIndex)
      invariant partitions == SlicesUpTo(input, partitionCount, preserveKeys, partitionIndex)
      decreases partitionCount - partitionIndex
    {
      MoreSlices(inputLength, partitionCount, partitionIndex);
      var sliceLength := if partitionIndex < partitionRemainder then partitionLength + 1 else partitionLength;
      assert sliceLength == ChunkLength(inputLength, partitionCount, partitionIndex);
      OffsetWithin(inputLength, partitionCount, partitionIndex + 1);
      partitions := partitions + [Slice(input, sliceOffset, sliceLength, preserveKeys)];
      sliceOffset := sliceOffset + sliceLength;
      partitionIndex := partitionIndex + 1;
    }
    NoMoreSlices(inputLength, partitionCount, partitionIndex);
    return Ok(partitions);
  }

  /** Slice `i` is the stretch of the input that starts at `Offset(i)`. */
  lemma {:induction false} SlicesUpToAt(input: seq<Entry>, c: nat, preserveKeys: bool, i: nat, j: nat)
    requires c >= 1 && j < i <= SliceCount(|input|, c)
    ensures Offset(|input|, c, j) + ChunkLength(|input|, c, j) <= |input|
    ensures SlicesUpTo(input, c, preserveKeys, i)[j] ==
      Slice(input, Offset(|input|, c, j), ChunkLength(|input|, c, j), preserveKeys)
  {
    OffsetWithin(|input|, c, j + 1);
    if j < i - 1 {
      SlicesUpToAt(input, c, preserveKeys, i - 1, j);
    }
  }

  /** Every slice is non-empty, a slice is never shorter than a later one, and two slices
      differ in length by at most one. */
  lemma PartitionsBalanced(input: seq<Entry>, c: nat, preserveKeys: bool, i: nat, j: nat)
    requires c >= 1 && i <= j < |Partitions(input, c, preserveKeys)|
    ensures var p := Partitions(input, c, preserveKeys);
      1 <= |p[j]| <= |p[i]| <= |p[j]| + 1
  {
    var n := |input|;
    SlicesUpToAt(input, c, preserveKeys, SliceCount(n, c), i);
    SlicesUpToAt(input, c, preserveKeys, SliceCount(n, c), j);
    ChunkPositive(n, c, j);
  }

  /** The entries of a sequence of slices laid end to end. */
  function Concat(parts: seq<seq<Entry>>): seq<Entry>
  {
    if parts == [] then [] else Concat(parts[..|parts| - 1]) + parts[|parts| - 1]
  }

  /** The values of an array, in order. */
  function Values(es: seq<Entry>): seq<Value>
  {
    seq(|es|, j requires 0 <= j < |es| => es[j].val)
  }

  lemma ValuesConcat(a: seq<Entry>, b: seq<Entry>)
    ensures Values(a + b) == Values(a) + Values(b)
  {
    assert |Values(a + b)| == |Values(a) + Values(b)|;
    forall j | 0 <= j < |a + b| ensures Values(a + b)[j] == (Values(a) + Values(b))[j] {
      if j < |a| {
        assert (a + b)[j] == a[j];
      } else {
        assert (a + b)[j] == b[j - |a|];
      }
    }
  }

  /** A slice holds the values of the stretch it was taken from. */
  lemma SliceValues(input: seq<Entry>, offset: nat, length: nat, preserveKeys: bool)
    requires offset + length <= |input|
    ensures Values(Slice(input, offset, length, preserveKeys)) == Values(input[offset..offset + length])
  {
    var last := Slice(input, offset, length, preserveKeys);
    var mid := input[offset..offset + length];
    SliceFacts(input, offset, length, preserveKeys);
    forall j | 0 <= j < length ensures Values(last)[j] == Values(mid)[j] {
      assert mid[j] == input[offset + j];
    }
  }

  /** `covered` holds the values of the first `end` entries of the input in order, and
      those entries themselves when keys are preserved. */
  predicate Covers(covered: seq<Entry>, input: seq<Entry>, end: nat, preserveKeys: bool)
  {
    end <= |input| && Values(covered) == Values(input[..end]) &&
    (preserveKeys ==> covered == input[..end])
  }

  /** Appending the next slice extends the covered stretch of the input by that slice. */
  lemma ExtendCover(input: seq<Entry>, covered: seq<Entry>, offset: nat, length: nat, preserveKeys: bool)
    requires offset + length <= |input|
    requires Covers(covered, input, offset, preserveKeys)
    ensures Covers(covered + Slice(input, offset, length, preserveKeys), input, offset + length, preserveKeys)
  {
    var last := Slice(input, offset, length, preserveKeys);
    var mid := input[offset..offset + length];
    assert input[..offset + length] == input[..offset] + mid;
    ValuesConcat(covered, last);
    ValuesConcat(input[..offset], mid);
    SliceValues(input, offset, length, preserveKeys);
  }

  lemma {:induction false} SlicesUpToConcat(input: seq<Entry>, c: nat, preserveKeys: bool, i: nat)
    requires c >= 1 && i <= SliceCount(|input|, c)
    ensures Covers(Concat(SlicesUpTo(input, c, preserveKeys, i)), input, Offset(|input|, c, i), preserveKeys)
  {
    if i > 0 {
      OffsetWithin(|input|, c, i);
      var parts := SlicesUpTo(input, c, preserveKeys, i);
      var before := SlicesUpTo(input, c, preserveKeys, i - 1);
      var offset := Offset(|input|, c, i - 1);
      var length := ChunkLength(|input|, c, i - 1);
      SlicesUpToConcat(input, c, preserveKeys, i - 1);
      assert parts == before + [Slice(input, offset, length, preserveKeys)];
      assert parts[..i - 1] == before;
      assert Concat(parts) == Concat(before) + Slice(input, offset, length, preserveKeys);
      ExtendCover(input, Concat(before), offset, length, preserveKeys);
    }
  }

  /** Laid end to end the slices give back the input's values in order, and the input itself
      when keys are preserved. */
  lemma PartitionsCover(input: seq<Entry>, c: nat, preserveKeys: bool)
    requires c >= 1
    ensures Values(Concat(Partitions(input, c, preserveKeys))) == Values(input)
    ensures preserveKeys ==> Concat(Partitions(input, c, preserveKeys)) == input
  {
    SlicesUpToConcat(input, c, preserveKeys, SliceCount(|input|, c));
    OffsetEnd(|input|, c);
    assert input[..|input|] == input;
  }
}
