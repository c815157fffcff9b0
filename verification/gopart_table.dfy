/** The expected outputs of the Go package's test table, and of its documentation example, one lemma per row. */
module GopartTable {
  import opened Gopart

  /** The example in the documentation of `Partition`. */
  lemma DocExample()
    ensures Windows(8, 3, 3) == [IdxRange(0, 3), IdxRange(3, 6), IdxRange(6, 8)]
  {
  }

  lemma EvenlySplit()
    ensures Windows(9, 3, 3) == [IdxRange(0, 3), IdxRange(3, 6), IdxRange(6, 9)]
  {
  }

  lemma UnevenPartition()
    ensures Windows(13, 5, 5) == [IdxRange(0, 5), IdxRange(5, 10), IdxRange(10, 13)]
  {
  }

  lemma LargePartitionSize()
    ensures Windows(13, 19, 19) == [IdxRange(0, 13)]
  {
  }

  lemma ZeroPartitionSize()
    ensures Windows(7, 0, 0) == []
  {
  }

  lemma NegativePartitionSize()
    ensures Windows(7, -4, -4) == []
  {
  }

  lemma SameSize()
    ensures Windows(19, 19, 19) == [IdxRange(0, 19)]
  {
  }

  lemma ZeroCollectionLength()
    ensures Windows(0, 19, 19) == []
  {
  }

  lemma OverlapStepOne()
    ensures Windows(5, 3, 1) == [IdxRange(0, 3), IdxRange(1, 4), IdxRange(2, 5)]
  {
  }

  lemma OverlapStepTwo()
    ensures Windows(8, 3, 2) == [IdxRange(0, 3), IdxRange(2, 5), IdxRange(4, 7), IdxRange(6, 8)]
  {
  }

  lemma GapWithRemainder()
    ensures Windows(5, 3, 4) == [IdxRange(0, 3), IdxRange(4, 5)]
  {
  }

  lemma GapTailDropped()
    ensures Windows(5, 3, 6) == [IdxRange(0, 3)]
  {
  }
}
