/**
 * Type-agnostic partitioning of an indexable collection into half-open
 * index windows, from three integers: the collection length, the window
 * size and the step by which the window moves.
 *
 * `PartitionWithStep` follows Go's loop step by step; `Windows` is
 * the closed form it is proved equal to, and the lemmas below state what
 * the windows look like.
 */
module Gopart {

  /** A half-open index range: `Low` is inclusive, `High` exclusive. */
  datatype IdxRange = IdxRange(Low: int, High: int)

  function Min(a: int, b: int): int { if a <= b then a else b }

  /**
   * Integer division as Go performs it: the quotient is
   * truncated toward zero (Dafny's own `/` on `int` rounds toward minus
   * infinity for a positive divisor). Only positive divisors occur here.
   */
  function GoDiv(a: int, b: int): (q: int)
    requires b > 0
    ensures 0 <= a ==> 0 <= q && q * b <= a < q * b + b
    ensures a < 0 ==> q <= 0 && q * b - b < a <= q * b
  {
    if a >= 0 then a / b else -((-a) / b)
  }

  lemma MulMonotone(a: int, b: int, c: int)
    requires a <= b && 0 <= c
    ensures a * c <= b * c
  {
    assert b * c - a * c == (b - a) * c;
  }

  lemma MulStrictMonotone(a: int, b: int, c: int)
    requires a < b && 0 < c
    ensures a * c < b * c
  {
    assert b * c - a * c == (b - a) * c;
  }

  /**
   * The number of windows Go's loop emits at full width:
   * `(collectionLen + step - partitionSize - 1) / step` with truncating
   * division, where a negative count makes the loop run zero times.
   * It is the least `k >= 0` whose window `k * step .. k * step + size`
   * reaches the end of the collection.
   */
  function FullCount(collectionLen: int, partitionSize: int, step: int): (n: nat)
    requires partitionSize > 0 && step > 0
    ensures n * step + partitionSize >= collectionLen
    ensures n > 0 ==> (n - 1) * step + partitionSize < collectionLen
  {
    var q := GoDiv(collectionLen + step - partitionSize - 1, step);
    if q > 0 then q else 0
  }

  /** Window `k` is emitted by Go's loop exactly when it ends strictly before the collection does. */
  lemma FullCountSpec(collectionLen: int, partitionSize: int, step: int, k: int)
    requires partitionSize > 0 && step > 0 && 0 <= k
    ensures k < FullCount(collectionLen, partitionSize, step) <==> k * step + partitionSize < collectionLen
  {
    var n := FullCount(collectionLen, partitionSize, step);
    if k < n {
      MulMonotone(k, n - 1, step);
    } else {
      MulMonotone(n, k, step);
    }
  }

  /**
   * The closed form of the windows: window `i` starts at `i * step` and
   * ends at the earlier of `i * step + size` and the collection length.
   * There is one window per full-width start of the loop, plus one more
   * when the next start still lies inside the collection.
   */
  function Windows(collectionLen: int, partitionSize: int, step: int): (w: seq<IdxRange>)
    requires partitionSize > 0 ==> step > 0
    ensures partitionSize <= 0 ==> w == []
    ensures forall i :: 0 <= i < |w| ==>
      w[i].High <= collectionLen && w[i].High - w[i].Low <= partitionSize
  {
    if partitionSize <= 0 then []
    else
      var n := FullCount(collectionLen, partitionSize, step);
      var count := if n * step < collectionLen then n + 1 else n;
      seq(count, i => IdxRange(i * step, Min(i * step + partitionSize, collectionLen)))
  }

  /**
   * Produces the index windows for a collection of length `collectionLen`,
   * windows `partitionSize` wide whose starts are `step` apart. The Go code
   * hands them one by one to a channel; here they are collected in order.
   */
  method PartitionWithStep(collectionLen: int, partitionSize: int, step: int) returns (ranges: seq<IdxRange>)
    requires partitionSize > 0 ==> step > 0
    ensures partitionSize <= 0 ==> ranges == []
    ensures ranges == Windows(collectionLen, partitionSize, step)
  {
    ranges := [];
    if partitionSize <= 0 {
      return;
    }

    var numFullPartitions := GoDiv(collectionLen + step - partitionSize - 1, step);
    ghost var n := FullCount(collectionLen, partitionSize, step);

    var partitionStart := 0;
    while partitionStart < numFullPartitions * step
      invariant partitionStart == |ranges| * step
      invariant |ranges| <= n
      invariant forall i :: 0 <= i < |ranges| ==> ranges[i] == IdxRange(i * step, i * step + partitionSize)
      decreases numFullPartitions * step - partitionStart
    {
      if numFullPartitions <= |ranges| {
        MulMonotone(numFullPartitions, |ranges|, step);
      }
      ranges := ranges + [IdxRange(partitionStart, partitionStart + partitionSize)];
      partitionStart := partitionStart + step;
    }
    if |ranges| < n {
      MulStrictMonotone(|ranges|, numFullPartitions, step);
    }
    assert |ranges| == n;

    if partitionStart < collectionLen { // left over
      ranges := ranges + [IdxRange(partitionStart, collectionLen)];
    }

    ghost var w := Windows(collectionLen, partitionSize, step);
    assert |ranges| == |w|;
    forall i | 0 <= i < |w|
      ensures ranges[i] == w[i]
    {
      if i < n {
        FullCountSpec(collectionLen, partitionSize, step, i);
      }
    }
  }

  /** Non-overlapping, gap-free partitioning: the step equals the window size. */
  method Partition(collectionLen: int, partitionSize: int) returns (ranges: seq<IdxRange>)
    ensures ranges == Windows(collectionLen, partitionSize, partitionSize)
  {
    ranges := PartitionWithStep(collectionLen, partitionSize, partitionSize);
  }
}
