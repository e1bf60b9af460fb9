/** The bracketing query (`selectThresholds`): join the statistics' sampled ids to the
    table, rank the sampled rows by descending creation time, pair each with its `lag`
    (the sampled row ranked just before it), keep the pairs created before the target
    and take the latest of them. */
module Thresholds {
  import opened Results
  import opened Rows

  /** One row of the query: `min` is a sampled row and `max` is its `lag`, NULL for the
      sampled row ranked first. */
  datatype Threshold = Threshold(min: Row, max: Option<Row>)

  /** The sampled rows of the table, in table order (`where id in (...)`). */
  function SampledRows(table: Table, samples: seq<int>): (r: seq<Row>)
    ensures forall x :: x in r <==> Sampled(table, samples, x)
  {
    if |table| == 0 then []
    else
      assert table == [table[0]] + table[1..];
      var rest := SampledRows(table[1..], samples);
      if table[0].id in samples then [table[0]] + rest else rest
  }

  /** Each row is created no earlier than the row ranked after it. */
  ghost predicate SortedByCreatedDesc(s: seq<Row>) {
    forall i :: 0 < i < |s| ==> s[i - 1].createdAt >= s[i].createdAt
  }

  /** A ranking orders every pair of positions, not only neighbours. */
  lemma {:induction false} RankingOrdersAll(s: seq<Row>)
    requires SortedByCreatedDesc(s)
    ensures forall i, j :: 0 <= i <= j < |s| ==> s[i].createdAt >= s[j].createdAt
  {
    if |s| > 1 {
      var tail := s[1..];
      assert SortedByCreatedDesc(tail) by {
        forall i | 0 < i < |tail| ensures tail[i - 1].createdAt >= tail[i].createdAt {
          assert tail[i - 1] == s[i] && tail[i] == s[i + 1];
        }
      }
      RankingOrdersAll(tail);
      forall i, j | 0 <= i <= j < |s| ensures s[i].createdAt >= s[j].createdAt {
        if 0 < i {
          assert s[i] == tail[i - 1] && s[j] == tail[j - 1];
        } else if 0 < j {
          assert s[1] == tail[0] && s[j] == tail[j - 1];
        }
      }
    }
  }

  /** Places `x` before the first row of `s` that is not later than it. */
  function Insert(x: Row, s: seq<Row>): (r: seq<Row>)
    requires SortedByCreatedDesc(s)
    ensures SortedByCreatedDesc(r)
    ensures multiset(r) == multiset(s) + multiset{x}
    ensures r[0] == x || (|s| > 0 && r[0] == s[0])
  {
    if |s| == 0 || x.createdAt >= s[0].createdAt then [x] + s
    else
      var rest := Insert(x, s[1..]);
      assert s == [s[0]] + s[1..];
      [s[0]] + rest
  }

  /** `order by created_at desc`; rows with equal creation times keep their table order. */
  function SortByCreatedDesc(s: seq<Row>): (r: seq<Row>)
    ensures SortedByCreatedDesc(r)
    ensures multiset(r) == multiset(s)
  {
    if |s| == 0 then []
    else
      assert s == [s[0]] + s[1..];
      Insert(s[0], SortByCreatedDesc(s[1..]))
  }

  /** The window `lag(…, 1) over (order by created_at desc)` over already ranked rows:
      each row is paired with the row ranked just before it, which over rows in
      descending order is a row created no earlier; the first row's `lag` is NULL. */
  function Window(ranked: seq<Row>): (w: seq<Threshold>)
    ensures |w| == |ranked|
    ensures forall i :: 0 <= i < |w| ==> w[i].min == ranked[i] && (w[i].max.None? <==> i == 0)
    ensures forall i :: 0 < i < |w| ==> w[i].max == Some(ranked[i - 1])
    ensures SortedByCreatedDesc(ranked) ==>
      forall i :: 0 <= i < |w| && w[i].max.Some? ==> w[i].max.value.createdAt >= w[i].min.createdAt
  {
    seq(|ranked|, i requires 0 <= i < |ranked| =>
      Threshold(ranked[i], if i == 0 then None else Some(ranked[i - 1])))
  }

  /** Position of the first ranked row created before the target, or `|ranked|` when none. */
  function FirstBefore(ranked: seq<Row>, target: int): (k: nat)
    ensures k <= |ranked|
    ensures forall j :: 0 <= j < k ==> ranked[j].createdAt >= target
    ensures k < |ranked| ==> ranked[k].createdAt < target
  {
    if |ranked| == 0 || ranked[0].createdAt < target then 0
    else 1 + FirstBefore(ranked[1..], target)
  }

  /** The sampled rows ranked by descending creation time. */
  function Ranked(table: Table, samples: seq<int>): (r: seq<Row>)
    ensures SortedByCreatedDesc(r)
    ensures forall x :: x in r <==> Sampled(table, samples, x)
  {
    var sampled := SampledRows(table, samples);
    var r := SortByCreatedDesc(sampled);
    assert forall x :: x in r <==> x in multiset(sampled);
    r
  }

  /** Filter, order and limit over the window of `ranked`. The window rows before the
      target are a suffix of the window, already in `min_created_at desc` order, so the
      outer `order by min_created_at desc limit 1` yields the first of them. */
  function Pick(ranked: seq<Row>, target: int): (r: Option<Threshold>)
    ensures r.None? <==> forall i :: 0 <= i < |ranked| ==> ranked[i].createdAt >= target
    ensures r.Some? ==>
      exists k :: 0 <= k < |ranked| && r.value == Window(ranked)[k] && ranked[k].createdAt < target
        && forall j :: 0 <= j < k ==> ranked[j].createdAt >= target
  {
    var k := FirstBefore(ranked, target);
    if k == |ranked| then None else Some(Window(ranked)[k])
  }

  /** What the picked pair is, over rows ranked by descending creation time. */
  lemma PickFacts(ranked: seq<Row>, target: int)
    requires SortedByCreatedDesc(ranked)
    ensures var r := Pick(ranked, target);
      && (r.None? <==> forall x :: x in ranked ==> x.createdAt >= target)
      && (r.Some? ==> r.value.min in ranked && r.value.min.createdAt < target)
      && (r.Some? ==> forall x :: x in ranked && x.createdAt < target ==> x.createdAt <= r.value.min.createdAt)
      && (r.Some? && r.value.max.None? <==> r.Some? && forall x :: x in ranked ==> x.createdAt < target)
      && (r.Some? && r.value.max.Some? ==>
            && r.value.max.value in ranked
            && r.value.max.value.createdAt >= target
            && forall x :: x in ranked && x.createdAt >= target ==> r.value.max.value.createdAt <= x.createdAt)
  {
    var k := FirstBefore(ranked, target);
    RankingOrdersAll(ranked);
    if k < |ranked| {
      assert Pick(ranked, target) == Some(Threshold(ranked[k], if k == 0 then None else Some(ranked[k - 1])));
      forall x | x in ranked && x.createdAt < target
        ensures x.createdAt <= ranked[k].createdAt
      {
        var j :| 0 <= j < |ranked| && ranked[j] == x;
      }
      if k > 0 {
        forall x | x in ranked && x.createdAt >= target
          ensures ranked[k - 1].createdAt <= x.createdAt
        {
          var j :| 0 <= j < |ranked| && ranked[j] == x;
        }
        assert !(ranked[k].createdAt >= target);
      } else {
        forall x | x in ranked ensures x.createdAt < target {
          var j :| 0 <= j < |ranked| && ranked[j] == x;
        }
      }
    } else {
      forall x | x in ranked ensures x.createdAt >= target {
        var j :| 0 <= j < |ranked| && ranked[j] == x;
      }
    }
  }

  /** The whole query over the table and the sampled ids. */
  function SelectThresholds(table: Table, samples: seq<int>, target: int): (r: Option<Threshold>)
    ensures r.None? <==> forall x :: Sampled(table, samples, x) ==> x.createdAt >= target
    ensures r.Some? ==> Sampled(table, samples, r.value.min) && r.value.min.createdAt < target
    ensures r.Some? ==> forall x :: Sampled(table, samples, x) && x.createdAt < target ==> x.createdAt <= r.value.min.createdAt
    ensures r.Some? && r.value.max.None? ==> forall x :: Sampled(table, samples, x) ==> x.createdAt <= r.value.min.createdAt
    ensures (DistinctSampleTimes(table, samples) && (exists x :: Sampled(table, samples, x))
             && forall x :: Sampled(table, samples, x) ==> x.createdAt < target) ==>
      r.Some? && r.value.max.None?
    ensures r.Some? && r.value.max.Some? ==>
      && Sampled(table, samples, r.value.max.value)
      && r.value.max.value.createdAt >= r.value.min.createdAt
      && forall x :: Sampled(table, samples, x) && x.createdAt > r.value.min.createdAt ==> x.createdAt >= r.value.max.value.createdAt
  {
    var ranked := Ranked(table, samples);
    PickFacts(ranked, target);
    Pick(ranked, target)
  }

  /** The bracket the query should find when sampled creation times are distinct: the
      latest sample before the target, paired with the earliest sample at or after it
      (NULL exactly when every sample is before the target). */
  ghost predicate Brackets(table: Table, samples: seq<int>, target: int, t: Threshold) {
    && Sampled(table, samples, t.min)
    && t.min.createdAt < target
    && (forall x :: Sampled(table, samples, x) && x.createdAt < target ==> x.createdAt <= t.min.createdAt)
    && match t.max
       case None => forall x :: Sampled(table, samples, x) ==> x.createdAt < target
       case Some(m) =>
         && Sampled(table, samples, m)
         && m.createdAt >= target
         && forall x :: Sampled(table, samples, x) && x.createdAt >= target ==> m.createdAt <= x.createdAt
  }

  /** With distinct sampled creation times, the pair the query returns brackets the target. */
  lemma SelectedBrackets(table: Table, samples: seq<int>, target: int)
    requires DistinctSampleTimes(table, samples)
    ensures var r := SelectThresholds(table, samples, target);
      r.Some? ==> Brackets(table, samples, target, r.value)
  {
    var ranked := Ranked(table, samples);
    PickFacts(ranked, target);
  }

  /** With distinct sampled creation times at most one pair brackets the target. */
  lemma BracketUnique(table: Table, samples: seq<int>, target: int, t: Threshold, u: Threshold)
    requires DistinctSampleTimes(table, samples)
    requires Brackets(table, samples, target, t)
    requires Brackets(table, samples, target, u)
    ensures t == u
  {
    assert t.min.createdAt == u.min.createdAt;
    match t.max
    case None =>
      assert u.max.None?;
    case Some(m) =>
      assert u.max.Some?;
      assert m.createdAt == u.max.value.createdAt;
  }

  /** With distinct sampled creation times, the query returns exactly the pair that
      brackets the target. The store may break ties between equal creation times
      differently in the window and in the outer ordering; distinctness makes the
      answer independent of that choice. */
  lemma BracketCharacterized(table: Table, samples: seq<int>, target: int, t: Threshold)
    requires DistinctSampleTimes(table, samples)
    ensures SelectThresholds(table, samples, target) == Some(t) <==> Brackets(table, samples, target, t)
  {
    var r := SelectThresholds(table, samples, target);
    SelectedBrackets(table, samples, target);
    if Brackets(table, samples, target, t) {
      assert r.Some?;
      BracketUnique(table, samples, target, t, r.value);
    }
  }

  /** The query's answer depends only on which rows are sampled, once sampled creation
      times are distinct. */
  lemma ThresholdsIgnoreOrder(t1: Table, s1: seq<int>, t2: Table, s2: seq<int>, target: int)
    requires forall x :: x in t1 <==> x in t2
    requires forall i :: i in s1 <==> i in s2
    requires DistinctSampleTimes(t1, s1)
    ensures SelectThresholds(t1, s1, target) == SelectThresholds(t2, s2, target)
  {
    assert forall x :: Sampled(t1, s1, x) <==> Sampled(t2, s2, x);
    var th1 := SelectThresholds(t1, s1, target);
    if th1.Some? {
      BracketCharacterized(t1, s1, target, th1.value);
      assert Brackets(t2, s2, target, th1.value);
      BracketCharacterized(t2, s2, target, th1.value);
    }
  }
}
