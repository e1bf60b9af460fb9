/** Concrete runs over a four-row table with one row every ten time units. */
module Scenarios {
  import opened Results
  import opened Rows
  import opened Thresholds
  import opened PastThreshold
  import opened BeforeThreshold
  import opened Pipeline

  const R1 := Row(1, 10, "701")
  const R2 := Row(2, 20, "702")
  const R3 := Row(3, 30, "703")
  const R4 := Row(4, 40, "704")

  function Four(): Table {
    [R1, R2, R3, R4]
  }

  /** The four rows have distinct ids and creation times, so any sampling of them has
      distinct sampled creation times. */
  lemma FourRows(samples: seq<int>)
    ensures forall x :: x in Four() <==> x == R1 || x == R2 || x == R3 || x == R4
    ensures IdsUnique(Four())
    ensures DistinctSampleTimes(Four(), samples)
  {
    assert forall x :: x in Four() <==> x == R1 || x == R2 || x == R3 || x == R4;
  }

  /** The bracketing query on the four rows, by the pair that brackets the target. */
  lemma FourBracket(samples: seq<int>, target: int, t: Threshold)
    requires Brackets(Four(), samples, target, t)
    ensures SelectThresholds(Four(), samples, target) == Some(t)
  {
    FourRows(samples);
    BracketCharacterized(Four(), samples, target, t);
  }

  /** Every row sampled: a target after 20 and up to 30 is bracketed by rows 2 and 3. */
  lemma FullySampledBracketMiddle(target: int)
    requires 20 < target <= 30
    ensures SelectThresholds(Four(), [1, 2, 3, 4], target) == Some(Threshold(R2, Some(R3)))
  {
    assert Brackets(Four(), [1, 2, 3, 4], target, Threshold(R2, Some(R3))) by {
      FourRows([1, 2, 3, 4]);
    }
    FourBracket([1, 2, 3, 4], target, Threshold(R2, Some(R3)));
  }

  /** Every row sampled: 50 is bracketed by row 4 alone, the latest sample. */
  lemma FullySampledBracketLatest()
    ensures SelectThresholds(Four(), [1, 2, 3, 4], 50) == Some(Threshold(R4, None))
  {
    assert Brackets(Four(), [1, 2, 3, 4], 50, Threshold(R4, None)) by {
      FourRows([1, 2, 3, 4]);
    }
    FourBracket([1, 2, 3, 4], 50, Threshold(R4, None));
  }

  /** Only ids 1 and 4 sampled: 20 and 25 are both bracketed by rows 1 and 4. */
  lemma SparseBrackets(target: int)
    requires 10 < target <= 40
    ensures SelectThresholds(Four(), [1, 4], target) == Some(Threshold(R1, Some(R4)))
  {
    assert Brackets(Four(), [1, 4], target, Threshold(R1, Some(R4))) by {
      FourRows([1, 4]);
    }
    FourBracket([1, 4], target, Threshold(R1, Some(R4)));
  }

  /** No id lies strictly between 2 and 3; no row is created before 10. */
  lemma FourGaps()
    ensures forall y :: y in Four() ==> !(2 < y.id < 3)
    ensures forall y :: y in Four() ==> y.createdAt >= 10
  {
    FourRows([]);
  }

  /** Between ids 1 and 4, row 3 is the first past any target in [20, 30), and row 2
      is the id-predecessor of row 3. */
  lemma FourProbeAndResolve(target: int)
    requires 20 <= target < 30
    ensures SelectPastThreshold(Four(), 1, 4, target) == Some(R3)
    ensures SelectBeforeThreshold(Four(), 3) == Some(R2)
  {
    FourRows([]);
    forall y | y in Four() && Qualifies(y, 1, 4, target) ensures R3.id <= y.id {
    }
    assert FirstPast(Four(), 1, 4, target, R3);
    PastThresholdCharacterized(Four(), 1, 4, target, R3);
    forall y | y in Four() && y.id < 3 ensures y.id <= R2.id {
    }
    assert Predecessor(Four(), 3, R2);
    BeforeThresholdCharacterized(Four(), 3, R2);
  }

  /** Every row sampled, target between the second and third rows (25, say): the
      bracket is the adjacent pair (2, 3) and the exclusive probe between them finds
      nothing. */
  lemma EveryRowSampledFailsAtProbe(target: int)
    requires 20 < target <= 30
    ensures Run(Four(), [1, 2, 3, 4], target) == Failure(Fatal(FirstPastThreshold, NoRows))
  {
    FullySampledBracketMiddle(target);
    FourGaps();
    StopsAtProbe(Four(), [1, 2, 3, 4], target, R2, R3);
  }

  /** Only the first and last ids sampled, target between rows 2 and 3: the probe finds
      row 3 and the answer is row 2 with its marker. */
  lemma SparseSamplesResolve()
    ensures Run(Four(), [1, 4], 25) == Success(Report(Bracket(1, 10, 4, 40), 3, 30, 2, 20, "702"))
  {
    SparseBrackets(25);
    FourProbeAndResolve(25);
    StagesChain(Four(), [1, 4], 25, R1, R4, R3, R2);
  }

  /** A target equal to row 2's creation time returns row 2 itself: the answer is
      created at or before the target, not strictly before it. */
  lemma TargetOnARowReturnsThatRow()
    ensures Run(Four(), [1, 4], 20) == Success(Report(Bracket(1, 10, 4, 40), 3, 30, 2, 20, "702"))
  {
    SparseBrackets(20);
    FourProbeAndResolve(20);
    StagesChain(Four(), [1, 4], 20, R1, R4, R3, R2);
  }

  /** Ids 1 and 3 sampled: a target after 10 and up to 30, row 3's own creation time,
      is bracketed by rows 1 and 3. */
  lemma SampleOnTargetBracket(target: int)
    requires 10 < target <= 30
    ensures SelectThresholds(Four(), [1, 3], target) == Some(Threshold(R1, Some(R3)))
  {
    assert Brackets(Four(), [1, 3], target, Threshold(R1, Some(R3))) by {
      FourRows([1, 3]);
    }
    FourBracket([1, 3], target, Threshold(R1, Some(R3)));
  }

  /** The only row strictly between ids 1 and 3 is row 2, created at 20. */
  lemma FourGapBelowThree(target: int)
    requires 20 <= target
    ensures forall y :: y in Four() && 1 < y.id < 3 ==> y.createdAt <= target
  {
    FourRows([]);
  }

  /** Ids 1 and 3 sampled, target from 20 up to 30 (30 being row 3's creation time):
      row 3 closes the bracket, the exclusive probe cannot return it, and row 2 is not
      past the target. So a row created exactly at the target is only returned when it
      is not a sample. */
  lemma SampleOnTargetFailsAtProbe(target: int)
    requires 20 <= target <= 30
    ensures Run(Four(), [1, 3], target) == Failure(Fatal(FirstPastThreshold, NoRows))
  {
    SampleOnTargetBracket(target);
    FourGapBelowThree(target);
    StopsAtProbe(Four(), [1, 3], target, R1, R3);
  }

  /** A target before every row has no sampled row before it. */
  lemma TargetBeforeTableFails()
    ensures Run(Four(), [1, 2, 3, 4], 5) == Failure(Fatal(FoundThresholds, NoRows))
  {
    FourGaps();
    TargetBeforeEveryRowFails(Four(), [1, 2, 3, 4], 5);
  }

  /** A target after every row brackets with the latest sample, whose `lag` is NULL. */
  lemma TargetAfterTableFails()
    ensures Run(Four(), [1, 2, 3, 4], 50) == Failure(Fatal(FoundThresholds, NullColumn))
  {
    FullySampledBracketLatest();
  }

  /** The four-row table after rows 2 and 3 were deleted. */
  function Pruned(): Table {
    [R1, R4]
  }

  /** Statistics still list ids 2 and 3 after those rows were deleted: for a target
      after 10 and up to 40 (25, say) the bracket is (1, 4) and nothing between them is
      left to exceed the target. */
  lemma StaleSamplesFailAtProbe(target: int)
    requires 10 < target <= 40
    ensures Run(Pruned(), [1, 2, 3, 4], target) == Failure(Fatal(FirstPastThreshold, NoRows))
  {
    assert forall y :: y in Pruned() && 1 < y.id < 4 ==> y.createdAt <= target by {
      PrunedNoGap();
    }
    PrunedBracket(target);
    StopsAtProbe(Pruned(), [1, 2, 3, 4], target, R1, R4);
  }

  /** No row of the pruned table lies strictly between ids 1 and 4. */
  lemma PrunedNoGap()
    ensures forall y :: y in Pruned() ==> !(1 < y.id < 4)
  {
    assert forall x :: x in Pruned() <==> x == R1 || x == R4;
  }

  /** On the pruned table the stale samples bracket such a target by rows 1 and 4. */
  lemma PrunedBracket(target: int)
    requires 10 < target <= 40
    ensures SelectThresholds(Pruned(), [1, 2, 3, 4], target) == Some(Threshold(R1, Some(R4)))
  {
    assert DistinctSampleTimes(Pruned(), [1, 2, 3, 4]) && Brackets(Pruned(), [1, 2, 3, 4], target, Threshold(R1, Some(R4))) by {
      assert forall x :: x in Pruned() <==> x == R1 || x == R4;
    }
    BracketCharacterized(Pruned(), [1, 2, 3, 4], target, Threshold(R1, Some(R4)));
  }
}
