/**
 * What the windows produced by `Gopart.PartitionWithStep` look like, stated
 * on the closed form `Gopart.Windows` that the method is proved to return.
 */
module GopartProperties {
  import opened Gopart

  /** Some window contains index `x`. */
  ghost predicate Covered(w: seq<IdxRange>, x: int) {
    exists i :: 0 <= i < |w| && w[i].Low <= x < w[i].High
  }

  /** A non-positive window size yields no windows, whatever the length and the step. */
  lemma EmptyWhenSizeNonPositive(collectionLen: int, partitionSize: int, step: int)
    requires partitionSize <= 0
    ensures Windows(collectionLen, partitionSize, step) == []
  {
  }

  /** An empty (or negative) length yields no windows. */
  lemma EmptyWhenLengthNonPositive(collectionLen: int, partitionSize: int, step: int)
    requires collectionLen <= 0
    requires partitionSize > 0 ==> step > 0
    ensures Windows(collectionLen, partitionSize, step) == []
  {
    if partitionSize > 0 {
      var n := FullCount(collectionLen, partitionSize, step);
      if n > 0 {
        MulMonotone(0, n - 1, step);
      }
      assert n == 0;
    }
  }

  /** A window at least as wide as the collection yields the whole collection as one window. */
  lemma OversizedWindow(collectionLen: int, partitionSize: int, step: int)
    requires 0 < collectionLen <= partitionSize && step > 0
    ensures Windows(collectionLen, partitionSize, step) == [IdxRange(0, collectionLen)]
  {
    var n := FullCount(collectionLen, partitionSize, step);
    if n > 0 {
      MulMonotone(0, n - 1, step);
    }
    assert n == 0;
  }

  /**
   * Window `i` starts at `i * step`, so starts strictly increase, by
   * exactly `step` from one window to the next.
   */
  lemma StartsAreMultiplesOfStep(collectionLen: int, partitionSize: int, step: int)
    requires partitionSize > 0 && step > 0
    ensures var w := Windows(collectionLen, partitionSize, step);
      (forall i :: 0 <= i < |w| ==> w[i].Low == i * step) &&
      (forall i, j :: 0 <= i < j < |w| ==> w[i].Low < w[j].Low)
  {
    var w := Windows(collectionLen, partitionSize, step);
    forall i, j | 0 <= i < j < |w|
      ensures w[i].Low < w[j].Low
    {
      MulStrictMonotone(i, j, step);
    }
  }

  /**
   * Every window lies inside the collection, is non-empty and at most
   * `partitionSize` wide; every window but the last is exactly that wide.
   */
  lemma WindowsWellFormed(collectionLen: int, partitionSize: int, step: int)
    requires partitionSize > 0 ==> step > 0
    ensures var w := Windows(collectionLen, partitionSize, step);
      (forall i :: 0 <= i < |w| ==>
        0 <= w[i].Low < w[i].High <= collectionLen && w[i].High - w[i].Low <= partitionSize) &&
      (forall i :: 0 <= i < |w| - 1 ==> w[i].High - w[i].Low == partitionSize)
  {
    if partitionSize > 0 {
      var w := Windows(collectionLen, partitionSize, step);
      var n := FullCount(collectionLen, partitionSize, step);
      forall i | 0 <= i < |w|
        ensures 0 <= w[i].Low < w[i].High <= collectionLen && w[i].High - w[i].Low <= partitionSize
        ensures i < |w| - 1 ==> w[i].High - w[i].Low == partitionSize
      {
        MulMonotone(0, i, step);
        if i < n {
          FullCountSpec(collectionLen, partitionSize, step, i);
        }
      }
    }
  }

  /** A window is full width exactly when it starts at least `partitionSize` before the end. */
  lemma FullWidthExactly(collectionLen: int, partitionSize: int, step: int, i: int)
    requires partitionSize > 0 && step > 0
    requires 0 <= i < |Windows(collectionLen, partitionSize, step)|
    ensures var w := Windows(collectionLen, partitionSize, step);
      w[i].High - w[i].Low == partitionSize <==> i * step + partitionSize <= collectionLen
  {
  }

  /**
   * The distance from the end of one window to the start of the next is
   * `step - partitionSize`: windows overlap when the step is smaller than
   * the size, tile when it is equal and leave gaps when it is larger.
   */
  lemma ConsecutiveWindows(collectionLen: int, partitionSize: int, step: int)
    requires partitionSize > 0 && step > 0
    ensures var w := Windows(collectionLen, partitionSize, step);
      forall i :: 0 < i < |w| ==> w[i].Low - w[i - 1].High == step - partitionSize
  {
    var w := Windows(collectionLen, partitionSize, step);
    forall i | 0 < i < |w|
      ensures w[i].Low - w[i - 1].High == step - partitionSize
    {
      var lo := (i - 1) * step;
      FullCountSpec(collectionLen, partitionSize, step, i - 1);
      assert w[i - 1] == IdxRange(lo, lo + partitionSize);
      assert w[i].Low == lo + step;
    }
  }

  /**
   * The stopping rule, stated without the count formula: a window is
   * emitted while its start lies inside the collection and the previous
   * window has not reached the end; after the last one, either the next
   * start lies outside the collection or the last window reached the end.
   */
  lemma StoppingRule(collectionLen: int, partitionSize: int, step: int)
    requires partitionSize > 0 && step > 0
    ensures var w := Windows(collectionLen, partitionSize, step);
      (forall i :: 0 <= i < |w| ==> w[i].Low < collectionLen) &&
      (forall i :: 0 <= i < |w| - 1 ==> w[i].High < collectionLen) &&
      (|w| * step >= collectionLen || (|w| > 0 && w[|w| - 1].High == collectionLen))
  {
    var w := Windows(collectionLen, partitionSize, step);
    var n := FullCount(collectionLen, partitionSize, step);
    forall i | 0 <= i < |w|
      ensures w[i].Low < collectionLen
      ensures i < |w| - 1 ==> w[i].High < collectionLen
    {
      if i < n {
        FullCountSpec(collectionLen, partitionSize, step, i);
      }
    }
  }

  /**
   * When the step is positive and no larger than the window, the last window
   * ends at the collection length: no tail is dropped.
   */
  lemma LastWindowReachesEnd(collectionLen: int, partitionSize: int, step: int)
    requires 0 < step <= partitionSize && 0 < collectionLen
    ensures var w := Windows(collectionLen, partitionSize, step);
      |w| > 0 && w[|w| - 1].High == collectionLen
  {
    var n := FullCount(collectionLen, partitionSize, step);
    if n > 0 {
      assert n * step <= (n - 1) * step + partitionSize;
    }
    assert n * step < collectionLen;
  }

  /**
   * When the step is positive and no larger than the window, index `x` of
   * the collection lies in window number `i`.
   */
  lemma WindowContaining(collectionLen: int, partitionSize: int, step: int, x: int) returns (i: nat)
    requires 0 < step <= partitionSize && 0 <= x < collectionLen
    ensures var w := Windows(collectionLen, partitionSize, step);
      i < |w| && w[i].Low <= x < w[i].High
  {
    var w := Windows(collectionLen, partitionSize, step);
    var n := FullCount(collectionLen, partitionSize, step);
    if x < n * step {
      i := x / step;
      var lo := i * step;
      assert lo <= x < lo + step;
      if n <= i {
        MulMonotone(n, i, step);
      }
      FullCountSpec(collectionLen, partitionSize, step, i);
      assert w[i] == IdxRange(lo, lo + partitionSize);
    } else {
      i := n;
      assert w[i] == IdxRange(n * step, collectionLen);
    }
  }

  /** When the step is positive and no larger than the window, every index of the collection lies in some window. */
  lemma WindowsCover(collectionLen: int, partitionSize: int, step: int)
    requires 0 < step <= partitionSize
    ensures forall x :: 0 <= x < collectionLen ==> Covered(Windows(collectionLen, partitionSize, step), x)
  {
    var w := Windows(collectionLen, partitionSize, step);
    forall x | 0 <= x < collectionLen
      ensures Covered(w, x)
    {
      var i := WindowContaining(collectionLen, partitionSize, step, x);
      assert w[i].Low <= x < w[i].High;
    }
  }

  /**
   * Partitioning (step equal to size) tiles `[0, collectionLen)` exactly:
   * the first window starts at 0, each window ends where the next begins,
   * and the last one ends at the collection length.
   */
  lemma PartitionTiles(collectionLen: int, partitionSize: int)
    requires partitionSize > 0 && collectionLen > 0
    ensures var w := Windows(collectionLen, partitionSize, partitionSize);
      |w| > 0 && w[0].Low == 0 && w[|w| - 1].High == collectionLen &&
      (forall i :: 0 < i < |w| ==> w[i - 1].High == w[i].Low) &&
      (forall i, j :: 0 <= i < j < |w| ==> w[i].High <= w[j].Low)
  {
    var w := Windows(collectionLen, partitionSize, partitionSize);
    LastWindowReachesEnd(collectionLen, partitionSize, partitionSize);
    ConsecutiveWindows(collectionLen, partitionSize, partitionSize);
    forall i, j | 0 <= i < j < |w|
      ensures w[i].High <= w[j].Low
    {
      var lo := i * partitionSize;
      assert w[i].High <= lo + partitionSize;
      MulMonotone(i + 1, j, partitionSize);
      assert (i + 1) * partitionSize == lo + partitionSize;
    }
  }

  /**
   * The loop's count may be computed with truncating or with flooring
   * division: both are the same once a negative count is read as zero.
   */
  lemma ClampedDivisionAgrees(a: int, b: int)
    requires b > 0
    ensures (if GoDiv(a, b) > 0 then GoDiv(a, b) else 0) == (if a / b > 0 then a / b else 0)
  {
  }
}
