/** The resolver (`selectBeforeThreshold`): the row with the largest id below the
    exceeding row's id, with its transaction marker. */
module BeforeThreshold {
  import opened Results
  import opened Rows

  /** `x` is the id-predecessor of `bound`: the row with the largest id below it. */
  ghost predicate Predecessor(table: Table, bound: int, x: Row) {
    && x in table
    && x.id < bound
    && forall y :: y in table && y.id < bound ==> y.id <= x.id
  }

  /** The query: `where id < bound order by id desc limit 1`. */
  function SelectBeforeThreshold(table: Table, bound: int): (r: Option<Row>)
    ensures r.None? <==> forall y :: y in table ==> y.id >= bound
    ensures r.Some? ==> Predecessor(table, bound, r.value)
  {
    if |table| == 0 then None
    else
      assert table == [table[0]] + table[1..];
      var rest := SelectBeforeThreshold(table[1..], bound);
      if table[0].id < bound && (rest.None? || table[0].id >= rest.value.id)
      then Some(table[0])
      else rest
  }

  /** With a primary key the resolver's answer is the only id-predecessor. */
  lemma BeforeThresholdCharacterized(table: Table, bound: int, x: Row)
    requires IdsUnique(table)
    ensures SelectBeforeThreshold(table, bound) == Some(x) <==> Predecessor(table, bound, x)
  {
    var r := SelectBeforeThreshold(table, bound);
    if Predecessor(table, bound, x) {
      assert r.Some?;
      assert r.value.id == x.id;
    }
  }

  /** The resolver's answer depends only on which rows the table holds. */
  lemma BeforeThresholdIgnoresOrder(t1: Table, t2: Table, bound: int)
    requires forall x :: x in t1 <==> x in t2
    requires IdsUnique(t1)
    ensures SelectBeforeThreshold(t1, bound) == SelectBeforeThreshold(t2, bound)
  {
    var r := SelectBeforeThreshold(t1, bound);
    if r.Some? {
      assert Predecessor(t2, bound, r.value);
      BeforeThresholdCharacterized(t2, bound, r.value);
    }
  }
}
