# xid-for-time, modelled in Dafny

`xid-for-time` finds the last row of a Postgres table that was committed before a
target time, and reports that row's `xmin` (its transaction marker). It does so
without scanning the table by timestamp. It runs three queries in turn and stops the
run at the first one that returns nothing usable:

1. **Bracketing** (`selectThresholds`). The ids sampled by `pg_stats.histogram_bounds`
   are joined to the table and ranked by descending `created_at`. `lag` pairs each
   sampled row with the sample ranked just before it, which is the next later one.
   Pairs created before the target are kept, and the latest of them is taken.
2. **Forward probe** (`selectPastThreshold`). This takes the row with the smallest id
   strictly between the bracket's two ids whose `created_at` is after the target.
3. **Resolver** (`selectBeforeThreshold`). This takes the row with the largest id below
   the probed row's id, together with its `xmin`.

The model treats the table as an immutable sequence of rows `Row(id, createdAt, xmin)`
and the histogram as a sequence of sampled ids. Each query is a pure function that
returns no row or one row: `Option<Threshold>` (a lower row and a possibly NULL upper
row) for the bracketing query, `Option<Row>` for the other two. `main` is the function `Pipeline.Run`. It
returns either the report of all three stages or a `Fatal(stage, fault)`. The fault is
`NoRows` (the query found no row) or `NullColumn` (a NULL was scanned into a Go
`string`/`time.Time`).

Files: `results.dfy` (Option/Result), `rows.dfy` (rows and table predicates),
`thresholds.dfy`, `past_threshold.dfy`, `before_threshold.dfy` (one module per query),
`pipeline.dfy` (`main` and the end-to-end properties) and `scenarios.dfy` (concrete
runs over a four-row table).

Each query's contract describes its answer independently of how the query computes
it. `SelectPastThreshold` returns the qualifying row with the least id, or nothing
exactly when no row qualifies. A companion lemma proves the converse: under a primary
key, the function returns any row meeting that description. The bracketing query gets
the same treatment. That converse needs distinct sampled creation times, because the
SQL leaves ties unordered.

## Model

| member | source | states |
|---|---|---|
| `Thresholds.SampledRows` | main.go:40-49 | the joined rows are exactly the table rows whose id is among the sampled ids; ids sampled but no longer in the table drop out |
| `Thresholds.SortByCreatedDesc` | main.go:50 | the sampled rows are put in descending `created_at` order and form a permutation of the input (same multiset) |
| `Thresholds.Window` | main.go:38-39 | each ranked row is paired with the row ranked just before it, and only the first row's `lag` is NULL; over rows in descending order the paired row is created no earlier |
| `Thresholds.Pick` | main.go:53-55 | no pair exactly when every ranked row is at or after the target; otherwise the pair is the window row of the first ranked row before the target, which the outer `order by min_created_at desc limit 1` selects |
| `Thresholds.PickFacts` | main.go:38-39 | over rows ranked by descending `created_at`, the pair taken is the latest row before the target; its `lag` is the earliest row at or after the target, and is NULL exactly when every ranked row is before the target |
| `Thresholds.SelectThresholds` | main.go:34-55 | no row exactly when no sampled row is before the target; otherwise `min` is a sampled row before the target with the largest such `created_at`; a NULL `max` means `min` is the latest sample, and, when sampled creation times are distinct, `max` is NULL whenever every sample is before the target; otherwise `max` is a sampled row no earlier than `min` with no sampled `created_at` strictly between them |
| `Thresholds.SelectedBrackets` | main.go:34-55 | with distinct sampled creation times the returned pair brackets the target: `min_created_at < target <= max_created_at`, with `max` the earliest sample at or after the target |
| `Thresholds.BracketUnique` | main.go:53-55 | with distinct sampled creation times at most one pair brackets the target |
| `Thresholds.BracketCharacterized` | main.go:34-55 | with distinct sampled creation times the query returns a pair exactly when that pair brackets the target (both directions) |
| `Thresholds.ThresholdsIgnoreOrder` | main.go:34-55 | with distinct sampled creation times the bracket depends only on which rows and ids are present, not on their order or on duplicated samples |
| `PastThreshold.SelectPastThreshold` | main.go:57-66 | no row exactly when no row has `minId < id < maxId` and `created_at > target`; otherwise the returned row qualifies and no qualifying row has a smaller id |
| `PastThreshold.PastThresholdCharacterized` | main.go:57-66 | under a primary key the probe returns a row exactly when that row is the first qualifying one (both directions) |
| `PastThreshold.UpperBoundExcluded` | main.go:62 | the row whose id equals `maxId` is never returned, even when it is the first row after the target; if no row in the open range qualifies, the probe finds nothing |
| `PastThreshold.PastThresholdIgnoresOrder` | main.go:57-66 | under a primary key the probe's answer depends only on which rows the table holds |
| `BeforeThreshold.SelectBeforeThreshold` | main.go:67-75 | no row exactly when every id is at least the bound; otherwise the row with the largest id below the bound, with its `xmin` |
| `BeforeThreshold.BeforeThresholdCharacterized` | main.go:67-75 | under a primary key the resolver returns a row exactly when that row is the bound's id-predecessor (both directions) |
| `BeforeThreshold.BeforeThresholdIgnoresOrder` | main.go:67-75 | under a primary key the resolver's answer depends only on which rows the table holds |
| `Pipeline.ScanThresholds` | main.go:117-123 | scanning the bracketing answer fails with no row exactly when the query returned none, and with a NULL column exactly when the `lag` pair is NULL; otherwise the scanned ids and times are those of the two rows |
| `Pipeline.Run` | main.go:106-167 | a success reports a lower sample that is the latest sample before the target, an upper sample no earlier than it with no sampled `created_at` strictly between the two, an exceeding row strictly inside the bracket that is the first row after the target there, and that row's id-predecessor with its `xmin`; the bracketing stage fails with no row exactly when no sample is before the target, and on a NULL only when there are samples and all are before the target; the probe fails only for lack of a row, when the bracket's open id range holds no row after the target; the resolver never fails, because its bound is above the bracket's lower row |
| `Pipeline.NullScanWhenEverySampleBefore` | main.go:116-122 | when sampled creation times are distinct, there are samples and all are before the target, the latest sample's `lag` is NULL and the run fails scanning the bracket |
| `Pipeline.ResolverFinds` | main.go:67-75 | when the probe found a row above the bracket's lower row, the resolver returns a row, with an id between the two |
| `Pipeline.StagesExplain` | main.go:117-167 | the latest sample before the target, a sample no earlier, the first row after the target between them and that row's id-predecessor, scanned into a report, make a report that describes the table as a success should |
| `Pipeline.StopsAtProbe` | main.go:135-145 | fail-fast: a full bracket whose open id range holds no row after the target stops the run at the probe, before the resolver runs |
| `Pipeline.StagesChain` | main.go:117-167 | each stage's scanned values are the next stage's bind parameters, and the report is made of exactly those values |
| `Pipeline.NothingPastBelow` | main.go:57-66 | if creation times follow ids, then a row before the target at the lower end and no row after the target between the ends mean no row below the exceeding id is after the target |
| `Pipeline.PredecessorIsLatest` | main.go:67-75 | if creation times follow ids, the id-predecessor of the first row after the target is the latest row created at or before the target |
| `Pipeline.EndToEnd` | main.go:53-74 | if ids are a primary key, creation times follow ids and the run succeeds, then the exceeding row is the first row of the whole table after the target, and the answer has `created_at <= target` (not `<`) and is the latest such row |
| `Pipeline.RunIgnoresPhysicalOrder` | main.go:34-75 | the run is deterministic in the table's contents: under a primary key with distinct sampled creation times, tables and sample lists that hold the same elements give the same outcome, report or error |
| `Pipeline.FullySampledBracketHasNoGap` | main.go:38-66 | when every row is sampled, creation times follow ids and sampled creation times are distinct, no row strictly between the bracket's ids is after the target |
| `Pipeline.FullySampledRunFails` | main.go:57-66 | when every row is sampled, creation times follow ids and sampled creation times are distinct, every run fails; it fails at the probe exactly when some sample is before the target and some is at or after it, because the bracket's two rows are id-neighbours and the probe's range between them is empty |
| `Pipeline.TargetBeforeEveryRowFails` | main.go:117-123 | a target no later than every row's creation time fails at the bracketing stage with no row |
| `Scenarios.EveryRowSampledFailsAtProbe` | main.go:57-66 | rows created at 10, 20, 30 and 40, all sampled, any target after 20 and up to 30 (25, say): the bracket is (2, 3) and the run fails at the probe |
| `Scenarios.SparseSamplesResolve` | main.go:106-167 | the same rows with only ids 1 and 4 sampled, target 25: the report is bracket (1, 4), exceeding row 3, answer row 2 with its `xmin` |
| `Scenarios.TargetOnARowReturnsThatRow` | main.go:63 | with target 20, equal to row 2's creation time, the answer is row 2 itself |
| `Scenarios.SampleOnTargetFailsAtProbe` | main.go:53-66 | ids 1 and 3 sampled, any target from 20 up to 30, including 30, row 3's creation time: row 3 closes the bracket (1, 3), the exclusive probe cannot return it, row 2 is not after the target, and the run fails at the probe |
| `Scenarios.TargetBeforeTableFails` | main.go:53 | target 5, before every row: the bracketing stage fails with no row |
| `Scenarios.TargetAfterTableFails` | main.go:117-122 | target 50, after every row: the latest sample is taken, its `lag` is NULL and the scan fails |
| `Scenarios.StaleSamplesFailAtProbe` | main.go:44-49 | samples still list deleted ids 2 and 3: for any target after 10 and up to 40 (25, say) the bracket is (1, 4) and the probe finds nothing |

## Behaviour worth knowing

- The probe's upper bound is exclusive (`id < $2`). When every row is sampled, creation
  times follow ids and sampled creation times are distinct, the rows bracketing the
  target are id-neighbours, so the probe's range is empty and every such run fails at
  the probe or earlier (`Pipeline.FullySampledRunFails`,
  `Scenarios.EveryRowSampledFailsAtProbe`).
- The answer has `created_at <= target`, not `<`. A row created exactly at the target can
  be returned when it is not a sample (`Scenarios.TargetOnARowReturnsThatRow`). When it is
  a sample it closes the bracket, the exclusive probe skips it, and the run can fail
  (`Scenarios.SampleOnTargetFailsAtProbe`).
- The queries have no tie-break on equal `created_at`.
- In the model, bracketing fails with no row or with a NULL scanned into a non-nullable
  Go value, the probe fails only with no row, and the resolver never fails. The program
  itself also exits on any other query, scan or template error; those are listed under
  "## Left out".

## Left out

- Command-line parsing, environment-variable defaults and `kingpin` exits (main.go:20-31, 82) are plumbing. A fatal exit is the `Failure` result.
- The connection, the SIGTERM goroutine and context cancellation (main.go:84-99) are I/O and concurrency. Connection loss and query errors raised by the store are not modelled.
- Parsing the target with a Postgres `::timestamp` cast (main.go:101-104) is a call into the store. The target is an already-parsed integer. The queries bind the raw string, and the model assumes the store parses it to the same value.
- `renderSQL` and the `text/template` table-name interpolation (main.go:176-184) wrap a library. The fixed templates are treated as always rendering, so their error branches (main.go:112-115, 136-139, 159-162) are not modelled.
- How `pg_stats.histogram_bounds` is computed and cast (main.go:45-48) is the store's business. The samples are an input sequence of ids.
- Logfmt logging and the `time.Sub` durations (main.go:79-80, 126-173) are observability only.
- `main` runs three separate autocommit `QueryRow` statements (main.go:117, 141, 164). The model gives all three the same table. The resolver's fatal branch (main.go:164-166) can then never be taken, because the bracket's lower row is always below the probed row. Only writes between the statements could reach it, and those are not modelled.
- `xmin` is carried as its text form and never interpreted.
- Ids and timestamps are unbounded integers. The Go code scans ids into strings and binds them back as text parameters; the model assumes Postgres compares them as the id column's type. NULL `created_at` values are not modelled (the column is taken as NOT NULL).
- Thresholds.SelectThresholds: the store may break ties on equal `created_at` differently in the window and in the outer `order by`. The model uses one order for both: descending `created_at`, with ties in table order. So `Thresholds.SelectThresholds` states only tie-independent facts, and the bracketing facts that depend on the tie-break (`Thresholds.SelectedBrackets`, `Thresholds.BracketCharacterized` and everything built on them) require distinct sampled creation times.
