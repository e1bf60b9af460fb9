/** `main`: run the three queries in order, scanning each answer into the next query's
    bind parameters and stopping the run at the first failure. */
module Pipeline {
  import opened Results
  import opened Rows
  import opened Thresholds
  import opened PastThreshold
  import opened BeforeThreshold

  /** The stage a run stopped in, named after the event it would have logged. */
  datatype Stage = FoundThresholds | FirstPastThreshold | FirstBeforeThreshold

  /** Why a stage's scan failed: the query returned no row, or a NULL column was
      scanned into a non-nullable Go value. */
  datatype Fault = NoRows | NullColumn

  /** A fatal exit: every error aborts the run. */
  datatype Fatal = Fatal(stage: Stage, fault: Fault)

  /** The bracketing row as scanned into `thresholds`. */
  datatype Bracket = Bracket(minId: int, minCreatedAt: int, maxId: int, maxCreatedAt: int)

  /** What a successful run reports: the bracket, the first row past the target and the
      row before it, with its transaction marker. */
  datatype Report = Report(
    thresholds: Bracket,
    exceededId: int, exceededCreatedAt: int,
    beforeId: int, beforeCreatedAt: int, beforeXmin: string)

  /** Scanning the bracketing query's answer: no row and a NULL `max_id`/`max_created_at`
      are both fatal. */
  function ScanThresholds(r: Option<Threshold>): (s: Result<Bracket, Fault>)
    ensures s == Failure(NoRows) <==> r.None?
    ensures s == Failure(NullColumn) <==> r.Some? && r.value.max.None?
    ensures s.Success? ==>
      r.Some? && r.value.max.Some? && s.value == Bracket(r.value.min.id, r.value.min.createdAt, r.value.max.value.id, r.value.max.value.createdAt)
  {
    match r
    case None => Failure(NoRows)
    case Some(Threshold(_, None)) => Failure(NullColumn)
    case Some(Threshold(lo, Some(hi))) => Success(Bracket(lo.id, lo.createdAt, hi.id, hi.createdAt))
  }

  /** Facts a successful report states about the table it was computed from. */
  ghost predicate Explains(table: Table, samples: seq<int>, target: int, rep: Report) {
    var b := rep.thresholds;
    // the bracket's lower end is the latest sampled row before the target
    && (exists m :: Sampled(table, samples, m) && m.id == b.minId && m.createdAt == b.minCreatedAt)
    && b.minCreatedAt < target
    && (forall x :: Sampled(table, samples, x) && x.createdAt < target ==> x.createdAt <= b.minCreatedAt)
    // its upper end is a sampled row no earlier than the lower end, with no sampled
    // creation time strictly between the two
    && (exists m :: Sampled(table, samples, m) && m.id == b.maxId && m.createdAt == b.maxCreatedAt)
    && b.minCreatedAt <= b.maxCreatedAt
    && (forall x :: Sampled(table, samples, x) && x.createdAt > b.minCreatedAt ==> x.createdAt >= b.maxCreatedAt)
    // the exceeding row lies strictly inside the bracket and is the first one past the target there
    && (exists e :: e in table && e.id == rep.exceededId && e.createdAt == rep.exceededCreatedAt)
    && b.minId < rep.exceededId < b.maxId
    && rep.exceededCreatedAt > target
    && (forall y :: y in table && b.minId < y.id < rep.exceededId ==> y.createdAt <= target)
    // the answer is the exceeding row's id-predecessor
    && Row(rep.beforeId, rep.beforeCreatedAt, rep.beforeXmin) in table
    && rep.beforeId < rep.exceededId
    && (forall y :: y in table && y.id < rep.exceededId ==> y.id <= rep.beforeId)
  }

  /** The three stages in order, each bound to the previous stage's scanned values. */
  function Run(table: Table, samples: seq<int>, target: int): (r: Result<Report, Fatal>)
    ensures r.Success? ==> Explains(table, samples, target, r.value)
    ensures r == Failure(Fatal(FoundThresholds, NoRows)) <==> forall x :: Sampled(table, samples, x) ==> x.createdAt >= target
    ensures r == Failure(Fatal(FoundThresholds, NullColumn)) ==>
      && (exists x :: Sampled(table, samples, x))
      && forall x :: Sampled(table, samples, x) ==> x.createdAt < target
    ensures r.Failure? && r.error.stage != FoundThresholds ==> r.error.fault == NoRows
    ensures r.Failure? && r.error.stage == FirstPastThreshold ==>
      && SelectThresholds(table, samples, target).Some?
      && SelectThresholds(table, samples, target).value.max.Some?
      && var t := SelectThresholds(table, samples, target).value;
         forall y :: y in table && t.min.id < y.id < t.max.value.id ==> y.createdAt <= target
    ensures r.Failure? ==> r.error.stage != FirstBeforeThreshold
  {
    match ScanThresholds(SelectThresholds(table, samples, target))
    case Failure(f) => Failure(Fatal(FoundThresholds, f))
    case Success(b) =>
      match SelectPastThreshold(table, b.minId, b.maxId, target)
      case None => Failure(Fatal(FirstPastThreshold, NoRows))
      case Some(e) =>
        var t := SelectThresholds(table, samples, target).value;
        ResolverFinds(table, target, t.min, t.max.value, e);
        match SelectBeforeThreshold(table, e.id)
        case None =>
          // one table serves all three statements, so the bracket's lower row is always below `e`
          assert false; Failure(Fatal(FirstBeforeThreshold, NoRows))
        case Some(p) =>
          StagesExplain(table, samples, target, t.min, t.max.value, e, p);
          Success(Report(b, e.id, e.createdAt, p.id, p.createdAt, p.xmin))
  }

  /** The resolver always has a row to return: the bracket's lower row is in the table
      and its id is below the probed row's. */
  lemma ResolverFinds(table: Table, target: int, lo: Row, hi: Row, e: Row)
    requires lo in table
    requires FirstPast(table, lo.id, hi.id, target, e)
    ensures SelectBeforeThreshold(table, e.id).Some?
    ensures lo.id <= SelectBeforeThreshold(table, e.id).value.id < e.id
  {
    assert lo.id < e.id;
  }

  /** A bracket whose lower end is the latest sample before the target and whose upper
      end is a sample no earlier, the first row past the target between them and that
      row's id-predecessor, scanned into a report, explain that report. */
  lemma StagesExplain(table: Table, samples: seq<int>, target: int, lo: Row, hi: Row, e: Row, p: Row)
    requires Sampled(table, samples, lo) && lo.createdAt < target
    requires forall x :: Sampled(table, samples, x) && x.createdAt < target ==> x.createdAt <= lo.createdAt
    requires Sampled(table, samples, hi) && lo.createdAt <= hi.createdAt
    requires forall x :: Sampled(table, samples, x) && x.createdAt > lo.createdAt ==> x.createdAt >= hi.createdAt
    requires FirstPast(table, lo.id, hi.id, target, e)
    requires Predecessor(table, e.id, p)
    ensures Explains(table, samples, target,
      Report(Bracket(lo.id, lo.createdAt, hi.id, hi.createdAt), e.id, e.createdAt, p.id, p.createdAt, p.xmin))
  {
    forall y | y in table && lo.id < y.id < e.id
      ensures y.createdAt <= target
    {
      assert !Qualifies(y, lo.id, hi.id, target);
    }
    assert p == Row(p.id, p.createdAt, p.xmin);
  }

  /** Fail-fast at the probe: a full bracket whose open id range holds no row past the
      target stops the run before the resolver. */
  lemma StopsAtProbe(table: Table, samples: seq<int>, target: int, lo: Row, hi: Row)
    requires SelectThresholds(table, samples, target) == Some(Threshold(lo, Some(hi)))
    requires forall y :: y in table && lo.id < y.id < hi.id ==> y.createdAt <= target
    ensures Run(table, samples, target) == Failure(Fatal(FirstPastThreshold, NoRows))
  {
    assert SelectPastThreshold(table, lo.id, hi.id, target).None?;
  }

  /** When there are samples and all of them are before the target, the pair taken is
      the latest sample and its `lag` is NULL, so the scan fails. Distinct sampled
      creation times make this independent of how the store orders ties in the window
      and in the outer ordering. */
  lemma NullScanWhenEverySampleBefore(table: Table, samples: seq<int>, target: int)
    requires DistinctSampleTimes(table, samples)
    requires exists x :: Sampled(table, samples, x)
    requires forall x :: Sampled(table, samples, x) ==> x.createdAt < target
    ensures Run(table, samples, target) == Failure(Fatal(FoundThresholds, NullColumn))
  {
    assert SelectThresholds(table, samples, target).value.max.None?;
  }

  /** Each stage's answer is the next stage's bind parameters: a full bracket, the
      probe's row and the resolver's row make up the report. */
  lemma StagesChain(table: Table, samples: seq<int>, target: int, lo: Row, hi: Row, e: Row, p: Row)
    requires SelectThresholds(table, samples, target) == Some(Threshold(lo, Some(hi)))
    requires SelectPastThreshold(table, lo.id, hi.id, target) == Some(e)
    requires SelectBeforeThreshold(table, e.id) == Some(p)
    ensures Run(table, samples, target) == Success(Report(Bracket(lo.id, lo.createdAt, hi.id, hi.createdAt), e.id, e.createdAt, p.id, p.createdAt, p.xmin))
  {
  }

  /** On a table whose creation times follow its ids, a row before the target at `lo`
      and no row past the target strictly between `lo` and `e` mean no row below `e`
      is past the target. */
  lemma NothingPastBelow(table: Table, target: int, lo: Row, e: Row)
    requires IdsUnique(table) && TimesFollowIds(table)
    requires lo in table && lo.createdAt < target
    requires forall y :: y in table && lo.id < y.id < e.id ==> y.createdAt <= target
    ensures forall y :: y in table && y.id < e.id ==> y.createdAt <= target
  {
    forall y | y in table && y.id < e.id
      ensures y.createdAt <= target
    {
      if y.id < lo.id {
        assert y.createdAt <= lo.createdAt;
      } else if y.id == lo.id {
        assert y == lo;
      }
    }
  }

  /** On such a table, the id-predecessor of the first row past the target is the
      latest row created at or before it. */
  lemma PredecessorIsLatest(table: Table, target: int, e: Row, p: Row)
    requires IdsUnique(table) && TimesFollowIds(table)
    requires e in table && e.createdAt > target
    requires forall y :: y in table && y.id < e.id ==> y.createdAt <= target
    requires p in table && p.id < e.id
    requires forall y :: y in table && y.id < e.id ==> y.id <= p.id
    ensures p.createdAt <= target
    ensures forall y :: y in table && y.createdAt <= target ==> y.createdAt <= p.createdAt
  {
    forall y | y in table && y.id >= e.id
      ensures y.createdAt > target
    {
      assert y.createdAt >= e.createdAt;
    }
    forall y | y in table && y.id < e.id
      ensures y.createdAt <= p.createdAt
    {
      if y.id == p.id {
        assert y == p;
      }
    }
  }

  /** End to end, on a table whose creation times follow its ids: the exceeding row is
      the first row of the whole table created after the target, and the answer is the
      latest row created at or before the target (not strictly before it). */
  lemma EndToEnd(table: Table, samples: seq<int>, target: int)
    requires IdsUnique(table)
    requires TimesFollowIds(table)
    requires Run(table, samples, target).Success?
    ensures var rep := Run(table, samples, target).value;
      && (forall y :: y in table && y.createdAt > target ==> rep.exceededId <= y.id)
      && rep.beforeCreatedAt <= target
      && (forall y :: y in table && y.createdAt <= target ==> y.createdAt <= rep.beforeCreatedAt)
  {
    var rep := Run(table, samples, target).value;
    var b := rep.thresholds;
    assert Explains(table, samples, target, rep);
    var m :| Sampled(table, samples, m) && m.id == b.minId && m.createdAt == b.minCreatedAt;
    var e :| e in table && e.id == rep.exceededId && e.createdAt == rep.exceededCreatedAt;
    var p := Row(rep.beforeId, rep.beforeCreatedAt, rep.beforeXmin);
    NothingPastBelow(table, target, m, e);
    PredecessorIsLatest(table, target, e, p);
  }

  /** The answer depends only on which rows the table holds and which ids were sampled,
      not on the physical order of either, once ids are a primary key and sampled
      creation times are distinct. */
  lemma RunIgnoresPhysicalOrder(t1: Table, s1: seq<int>, t2: Table, s2: seq<int>, target: int)
    requires forall x :: x in t1 <==> x in t2
    requires forall i :: i in s1 <==> i in s2
    requires IdsUnique(t1)
    requires DistinctSampleTimes(t1, s1)
    ensures Run(t1, s1, target) == Run(t2, s2, target)
  {
    ThresholdsIgnoreOrder(t1, s1, t2, s2, target);
    var scan := ScanThresholds(SelectThresholds(t1, s1, target));
    assert scan == ScanThresholds(SelectThresholds(t2, s2, target));
    match scan
    case Failure(f) =>
      assert Run(t1, s1, target) == Failure(Fatal(FoundThresholds, f));
      assert Run(t2, s2, target) == Failure(Fatal(FoundThresholds, f));
    case Success(b) =>
      PastThresholdIgnoresOrder(t1, t2, b.minId, b.maxId, target);
      match SelectPastThreshold(t1, b.minId, b.maxId, target)
      case None =>
        assert Run(t1, s1, target) == Failure(Fatal(FirstPastThreshold, NoRows));
        assert Run(t2, s2, target) == Failure(Fatal(FirstPastThreshold, NoRows));
      case Some(e) =>
        BeforeThresholdIgnoresOrder(t1, t2, e.id);
        match SelectBeforeThreshold(t1, e.id)
        case None =>
        case Some(p) =>
          var rep := Report(b, e.id, e.createdAt, p.id, p.createdAt, p.xmin);
          assert Run(t1, s1, target) == Success(rep);
          assert Run(t2, s2, target) == Success(rep);
  }

  /** When every row is sampled, the rows bracketing the target are id-neighbours on
      a table whose creation times follow its ids: no row strictly between them is
      past the target. */
  lemma FullySampledBracketHasNoGap(table: Table, samples: seq<int>, target: int, lo: Row, hi: Row)
    requires IdsUnique(table)
    requires TimesFollowIds(table)
    requires DistinctSampleTimes(table, samples)
    requires forall x :: x in table ==> x.id in samples
    requires Brackets(table, samples, target, Threshold(lo, Some(hi)))
    ensures forall y :: y in table && lo.id < y.id < hi.id ==> y.createdAt <= target
  {
    forall y | y in table && lo.id < y.id < hi.id
      ensures y.createdAt <= target
    {
      assert Sampled(table, samples, y);
      assert y.createdAt <= hi.createdAt;
      assert y != hi;
      assert y.createdAt != hi.createdAt;
    }
  }

  /** When every row of the table is sampled the bracket's ends are adjacent rows, so
      the exclusive probe has nothing to find and no run ever reaches the resolver. */
  lemma FullySampledRunFails(table: Table, samples: seq<int>, target: int)
    requires IdsUnique(table)
    requires TimesFollowIds(table)
    requires DistinctSampleTimes(table, samples)
    requires forall x :: x in table ==> x.id in samples
    ensures Run(table, samples, target).Failure?
    ensures Run(table, samples, target).error.stage == FirstPastThreshold <==>
      && (exists x :: Sampled(table, samples, x) && x.createdAt < target)
      && (exists x :: Sampled(table, samples, x) && x.createdAt >= target)
  {
    var th := SelectThresholds(table, samples, target);
    if th.Some? && th.value.max.Some? {
      var lo := th.value.min;
      var hi := th.value.max.value;
      SelectedBrackets(table, samples, target);
      FullySampledBracketHasNoGap(table, samples, target, lo, hi);
      StopsAtProbe(table, samples, target, lo, hi);
    }
  }

  /** A target no later than every row's creation time is refused by the bracketing
      stage: no sampled row is before it. */
  lemma TargetBeforeEveryRowFails(table: Table, samples: seq<int>, target: int)
    requires forall x :: x in table ==> x.createdAt >= target
    ensures Run(table, samples, target) == Failure(Fatal(FoundThresholds, NoRows))
  {
  }
}
