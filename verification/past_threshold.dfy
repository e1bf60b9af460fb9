/** The forward probe (`selectPastThreshold`): the row with the smallest id strictly
    between the bracket's ids that was created after the target. */
module PastThreshold {
  import opened Results
  import opened Rows

  /** The probe's filter: `id > minId and id < maxId and created_at > target`. */
  predicate Qualifies(x: Row, minId: int, maxId: int, target: int) {
    minId < x.id < maxId && x.createdAt > target
  }

  /** `x` is a qualifying row and no qualifying row has a smaller id. */
  ghost predicate FirstPast(table: Table, minId: int, maxId: int, target: int, x: Row) {
    && x in table
    && Qualifies(x, minId, maxId, target)
    && forall y :: y in table && Qualifies(y, minId, maxId, target) ==> x.id <= y.id
  }

  /** The query: filter, `order by id asc limit 1`. */
  function SelectPastThreshold(table: Table, minId: int, maxId: int, target: int): (r: Option<Row>)
    ensures r.None? <==> forall y :: y in table ==> !Qualifies(y, minId, maxId, target)
    ensures r.Some? ==> FirstPast(table, minId, maxId, target, r.value)
  {
    if |table| == 0 then None
    else
      assert table == [table[0]] + table[1..];
      var rest := SelectPastThreshold(table[1..], minId, maxId, target);
      if Qualifies(table[0], minId, maxId, target) && (rest.None? || table[0].id <= rest.value.id)
      then Some(table[0])
      else rest
  }

  /** With a primary key the probe's answer is the only row meeting `FirstPast`. */
  lemma PastThresholdCharacterized(table: Table, minId: int, maxId: int, target: int, x: Row)
    requires IdsUnique(table)
    ensures SelectPastThreshold(table, minId, maxId, target) == Some(x) <==> FirstPast(table, minId, maxId, target, x)
  {
    var r := SelectPastThreshold(table, minId, maxId, target);
    if FirstPast(table, minId, maxId, target, x) {
      assert r.Some?;
      assert r.value.id == x.id;
    }
  }

  /** The upper bound is exclusive: the row whose id is `maxId` is never returned, even
      when it is the first row created after the target. */
  lemma UpperBoundExcluded(table: Table, minId: int, maxId: int, target: int, top: Row)
    requires top in table && top.id == maxId && top.createdAt > target
    requires forall y :: y in table && minId < y.id < maxId ==> y.createdAt <= target
    ensures SelectPastThreshold(table, minId, maxId, target) == None
  {
  }

  /** The probe's answer depends only on which rows the table holds. */
  lemma PastThresholdIgnoresOrder(t1: Table, t2: Table, minId: int, maxId: int, target: int)
    requires forall x :: x in t1 <==> x in t2
    requires IdsUnique(t1)
    ensures SelectPastThreshold(t1, minId, maxId, target) == SelectPastThreshold(t2, minId, maxId, target)
  {
    var r := SelectPastThreshold(t1, minId, maxId, target);
    if r.Some? {
      assert FirstPast(t2, minId, maxId, target, r.value);
      PastThresholdCharacterized(t2, minId, maxId, target, r.value);
    }
  }
}
