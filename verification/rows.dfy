/** The searched table: rows with a primary key, a creation time and a transaction marker. */
module Rows {

  /** One row of the table. `createdAt` is a parsed timestamp; `xmin` is the row's
      transaction marker rendered as text, carried through and never interpreted. */
  datatype Row = Row(id: int, createdAt: int, xmin: string)

  /** The table's rows in physical order; the order is not observable through the queries. */
  type Table = seq<Row>

  /** `id` is the primary key: two rows with the same id are the same row. */
  ghost predicate IdsUnique(table: Table) {
    forall a, b :: a in table && b in table && a.id == b.id ==> a == b
  }

  /** Creation times never decrease as ids grow, as in an append-mostly table. */
  ghost predicate TimesFollowIds(table: Table) {
    forall a, b :: a in table && b in table && a.id < b.id ==> a.createdAt <= b.createdAt
  }

  /** Row `x` is one of the statistics' sampled ids that is still present in the table. */
  ghost predicate Sampled(table: Table, samples: seq<int>, x: Row) {
    x in table && x.id in samples
  }

  /** No two sampled rows share a creation time. */
  ghost predicate DistinctSampleTimes(table: Table, samples: seq<int>) {
    forall a, b :: Sampled(table, samples, a) && Sampled(table, samples, b) && a.createdAt == b.createdAt ==> a == b
  }
}
