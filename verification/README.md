# gopart in Dafny

A model of `gopart`, a small Go package for type-agnostic partitioning of
anything indexable. Given a collection length, a window size and a step, it
produces the half-open index ranges `IdxRange{Low, High}` into which the
collection is cut. The step sets how far the window moves each time. A step
equal to the size gives plain partitioning. A smaller step gives overlapping
windows, and a larger step leaves gaps.

- `gopart.dfy`, module `Gopart`, holds the data model and the operations.
  - `IdxRange` is the range record of gopart.go:7-9: `Low` inclusive, `High` exclusive.
  - `GoDiv` is Go's truncating integer division.
  - `FullCount` is the number of full-width windows that Go's loop emits.
  - `Windows` is the closed form: window `i` is `{i*step, min(i*step+size, length)}`.
  - `PartitionWithStep` is a method whose `while` loop follows Go's
    `for` loop and its left-over branch. It is proved to return `Windows`.
  - `Partition` delegates with `step = size`.
- `gopart_properties.dfy`, module `GopartProperties`, holds the properties of
  the windows. These are the empty cases, the oversized window, the starts,
  the widths, the bounds, overlap and gaps, the stopping rule, coverage and
  exact tiling.
- `gopart_table.dfy`, module `GopartTable`, has one lemma for each row of the
  package's test table, with the exact expected output.

`PartitionWithStep` and `Windows` require `partitionSize > 0 ==> step > 0`;
`Partition` needs no precondition, because its step equals its size. With a positive size,
a zero step divides by zero when the count is computed. A negative step
makes the loop run forever once `length >= size + 2*|step| + 1`, because the
loop bound is then positive and the start walks downward away from it. For
smaller lengths the loop runs zero times and Go returns `[{0, length}]`, or
nothing when `length <= 0`. The precondition excludes those terminating
inputs too. A non-positive size returns before the division, so it is
allowed with any step and yields no windows.

The count of full windows follows the code, not the usual textbook formula.
The code computes `(length + step - size - 1) / step`, which counts only the
windows that end strictly before `length`. A full-width window that ends
exactly at `length` is therefore emitted by the left-over branch, not by the
loop. The textbook count `floor((length - size) / step) + 1` differs from the
code's count only when a full window ends exactly at `length`, that is when
`length >= size` and `step` divides `length - size`. In that case the output
is still the same for `step >= size`. For `step < size`, the textbook count
plus the left-over rule emits one extra window: `(5, 3, 1)` would add
`{3, 5}` after `{0,3},{1,4},{2,5}`, while `(8, 3, 2)` is unaffected. The model uses the code's count, and
`FullWidthExactly` states which windows have full width without referring to
that count.

## Model

| member | source | states |
|---|---|---|
| `Gopart.GoDiv` | gopart.go:57 | The quotient is truncated toward zero: for `a >= 0` it is the floor of `a / b`, and for `a < 0` it is the ceiling, so it is never positive. |
| `Gopart.FullCount` | gopart.go:57-60 | The loop count, with a negative count read as zero, is the least `n >= 0` whose window `n*step .. n*step+size` reaches the collection length. |
| `Gopart.FullCountSpec` | gopart.go:57-62 | Window `k` is emitted by the loop exactly when `k*step + size < length`. |
| `Gopart.Windows` | gopart.go:57-66 | The closed form of the windows. Window `i` starts at `i*step` and ends at the earlier of `i*step + size` and `length`. The result is empty for a size `<= 0`. Every window ends inside the collection and is at most `size` wide. |
| `Gopart.PartitionWithStep` | gopart.go:49-71 | The loop plus the left-over branch produce exactly `Windows(length, size, step)`. A non-positive size produces nothing. |
| `Gopart.Partition` | gopart.go:27-29 | `Partition(length, size)` produces exactly the windows of `PartitionWithStep(length, size, size)`. |
| `GopartProperties.EmptyWhenSizeNonPositive` | gopart.go:51-54 | A size `<= 0` yields no windows, whatever the length and the step. |
| `GopartProperties.EmptyWhenLengthNonPositive` | gopart.go:57-66 | A length `<= 0` yields no windows. |
| `GopartProperties.OversizedWindow` | gopart.go:45-48 | If `0 < length <= size`, the result is exactly the one window `{0, length}`. |
| `GopartProperties.StartsAreMultiplesOfStep` | gopart.go:36 | Window `i` starts at `i*step`, so the starts strictly increase. |
| `GopartProperties.WindowsWellFormed` | gopart.go:36-38 | Every window satisfies `0 <= Low < High <= length` and `High - Low <= size`. Every window except the last has width exactly `size`. |
| `GopartProperties.FullWidthExactly` | gopart.go:59-65 | A window has width `size` if and only if its start is at most `length - size`. |
| `GopartProperties.ConsecutiveWindows` | gopart.go:35 | The gap from the end of one window to the start of the next is `step - size`. It is negative (overlap) for a smaller step, zero for an equal step and positive (gap) for a larger step. |
| `GopartProperties.StoppingRule` | gopart.go:59-66 | Every window starts inside the collection. Every window before the last ends before `length`. After the last window, either the next start is at or past `length` or the last window ends at `length`. |
| `GopartProperties.LastWindowReachesEnd` | gopart.go:64-65 | If `0 < step <= size` and `length > 0`, there is at least one window and the last one ends at `length`, so no tail is dropped. |
| `GopartProperties.WindowContaining` | gopart.go:59-66 | If `0 < step <= size`, every index `x` in `[0, length)` lies in a window, and the lemma returns that window's number. |
| `GopartProperties.WindowsCover` | gopart.go:59-66 | If `0 < step <= size`, the windows together cover `[0, length)`. |
| `GopartProperties.PartitionTiles` | gopart.go:11-20 | With `step == size`, the windows tile `[0, length)`. The first window starts at 0 and the last ends at `length`. Each window ends where the next begins, and no two windows overlap. |
| `GopartProperties.ClampedDivisionAgrees` | gopart.go:57-60 | Once a negative count is read as zero, truncating and flooring division give the same loop count. |
| `GopartTable.DocExample` | gopart.go:18-20 | `(8,3,3)` gives `{0,3},{3,6},{6,8}`. |
| `GopartTable.EvenlySplit` | gopart_test.go:16 | `(9,3,3)` gives `{0,3},{3,6},{6,9}`. |
| `GopartTable.UnevenPartition` | gopart_test.go:18 | `(13,5,5)` gives `{0,5},{5,10},{10,13}`. |
| `GopartTable.LargePartitionSize` | gopart_test.go:20 | `(13,19,19)` gives `{0,13}`. |
| `GopartTable.ZeroPartitionSize` | gopart_test.go:22 | `(7,0,0)` gives nothing. |
| `GopartTable.NegativePartitionSize` | gopart_test.go:24 | `(7,-4,-4)` gives nothing. |
| `GopartTable.SameSize` | gopart_test.go:26 | `(19,19,19)` gives `{0,19}`. |
| `GopartTable.ZeroCollectionLength` | gopart_test.go:28 | `(0,19,19)` gives nothing. |
| `GopartTable.OverlapStepOne` | gopart_test.go:30 | `(5,3,1)` gives `{0,3},{1,4},{2,5}`. |
| `GopartTable.OverlapStepTwo` | gopart_test.go:32 | `(8,3,2)` gives `{0,3},{2,5},{4,7},{6,8}`. |
| `GopartTable.GapWithRemainder` | gopart_test.go:34 | `(5,3,4)` gives `{0,3},{4,5}`. |
| `GopartTable.GapTailDropped` | gopart_test.go:36 | `(5,3,6)` gives only `{0,3}`, because the remainder would start past the end. |

## Left out

- The goroutine and the unbuffered channel (gopart.go:50, 56, 68-70) only deliver the ranges lazily. The model returns the same ranges, in the same order, as a finite sequence. Nothing about concurrency, blocking or early abandonment of the channel is modelled.
- A positive size with `step <= 0` is excluded by a precondition. In Go, `step == 0` panics with a division by zero. A negative step loops forever once `length >= size + 2*|step| + 1`. For smaller lengths Go returns `[{0, length}]`, or nothing when `length <= 0`, and the model does not cover those terminating inputs either.
- Go's 64-bit `int` is modelled as an unbounded integer. Overflow of `length + step - size - 1`, `numFullPartitions * step` or `partitionStart + partitionSize` near the largest `int` is not modelled.
- `Gopart.GoDiv` only models a positive divisor. Truncation with a negative divisor never occurs under the precondition.
- The benchmarks (gopart_test.go:52-63) only measure time. The loop that drives the test table (gopart_test.go:39-49) only compares values; its rows are the `GopartTable` lemmas instead.
