# Civic issue store

A model of the issue store of a small civic-engagement tracker: citizens
report issues in one of five categories, vote on them, list them filtered
by category and sorted by votes or by recency, and read aggregate
statistics. The original keeps the issues in one SQLite table, `issues`,
keyed by `id`. Here that table is a sequence of `Issue` rows in insertion
order. Each SQL statement becomes an operation on that sequence.

- `wrappers.dfy` (module `Wrappers`): `Option` and `Result`.
- `text_order.dfy` (module `TextOrder`): the order SQLite's default BINARY
  collation puts on TEXT values. Characters are compared one by one by
  code point, which is the same as comparing their UTF-8 bytes, and a proper
  prefix comes first. `ORDER BY created_at` uses this order. The module
  proves that it is a total order.
- `issue_table.dfy` (module `IssueTable`): the `Issue` record and the five
  `Categories`. It holds the read-only queries `GetIssues` and `GetStats` as
  pure functions of the table. It also holds `Voted`, the effect of the vote
  `UPDATE` on the table, and the lemmas that relate these to one another.
- `citizen_app.dfy` (module `CitizenApp`): the class `CitizenAppBackend`.
  Its field `issues` is the table. `ReportIssue` (the `INSERT`) and
  `VoteIssue` (the `UPDATE` followed by the `SELECT`) change it in place.
  `ThreeReportsScenario` is a client that reports three issues, votes twice
  and reads the statistics, using only the contracts.

Clock reads become parameters. `ReportIssue` takes the new id and the
creation time from its caller, where the original derives them from the
current time.

A category filters only when it is truthy (src/citizen_app.py:98): `""`
lists every issue, just as `None` does (`FiltersBy`, `Selects`). The query's
defaults are those of the original: no category and `sort_by = "votes"`.

## Model

| member | source | states |
|---|---|---|
| `CitizenApp.CitizenAppBackend.constructor` | src/citizen_app.py:29-50 | Opening the store keeps the rows already stored. The only requirement is the primary-key constraint, that ids are unique. |
| `CitizenApp.CitizenAppBackend.ReportIssue` | src/citizen_app.py:52-72 | A category outside the fixed set fails with `InvalidCategory` and the table is unchanged. If the id is already present, the insert fails with `DuplicateId` and the table is unchanged. Otherwise exactly one row is appended, with the given title, category and location, status "open" and 0 votes, and the id is returned. It succeeds iff the category is valid and the id is new. Ids stay unique, and a categorised table stays categorised. |
| `CitizenApp.CitizenAppBackend.VoteIssue` | src/citizen_app.py:74-87 | The new table is `Voted(old table, id)`. If a row has the id, the method returns that row's old vote count plus one, read back after the update. If no row has the id, it returns 0 and the table is unchanged. Ids stay unique. |
| `IssueTable.Find` | src/citizen_app.py:81-82 | The lookup by id finds a row iff the id is in the table, and the row it finds has that id. |
| `IssueTable.FindUnique` | src/citizen_app.py:40 | With unique keys, looking up a row's id yields that very row. |
| `IssueTable.Voted` | src/citizen_app.py:79 | The update keeps the table's length. Each row with the id gains exactly one vote, with every other field kept, and every other row is unchanged. |
| `IssueTable.VotedTouchesOne` | src/citizen_app.py:79 | With unique keys and an existing id, exactly one row changes, and it changes by exactly one vote. |
| `IssueTable.VotedAbsent` | src/citizen_app.py:79 | An update on an absent id leaves the table unchanged. |
| `IssueTable.VotedKeepsKeys` | src/citizen_app.py:40 | Voting keeps the set of ids, the uniqueness of ids and the categories of all rows. |
| `IssueTable.VotedThenFound` | src/citizen_app.py:79-87 | Read-after-write: the lookup after the update returns the row with its vote count incremented. |
| `IssueTable.FilterCategory` | src/citizen_app.py:98-100 | The filtered rows are exactly the rows of that category, each with the multiplicity it has in the table. |
| `IssueTable.OrderOf` | src/citizen_app.py:102-105 | "votes" selects the votes ordering and "recent" selects the recency ordering. Each holds only for that exact string, and any other value selects no ordering. |
| `IssueTable.PrecedesTotal` | src/citizen_app.py:102-105 | Any two rows are comparable under either ordering. |
| `IssueTable.PrecedesTransitive` | src/citizen_app.py:102-105 | Both orderings are transitive. |
| `IssueTable.Sort` | src/citizen_app.py:102-107 | The result is a permutation of its input, and it is sorted under the requested ordering. |
| `IssueTable.GetIssues` | src/citizen_app.py:89-111 | The result holds exactly the rows that pass the filter, as a multiset. A non-empty category selects rows of that category; `None` or `""` selects every row. With "votes" the result is sorted by votes descending, then `created_at` descending. With "recent" it is sorted by `created_at` descending. With any other value it is the filtered rows in table order. |
| `IssueTable.DefaultListing` | src/citizen_app.py:89 | The call with no arguments lists every row, as a multiset, sorted by votes descending and then `created_at` descending. |
| `IssueTable.ByVotesOrdering` | src/citizen_app.py:103 | With sort_by "votes", vote counts never increase down the list. Among equal counts, `created_at` never increases. |
| `IssueTable.UnknownCategoryEmpty` | src/citizen_app.py:54-55 | On a table filled through the report operation, filtering by a non-empty string outside the categories returns nothing. |
| `IssueTable.CountCategory` | src/citizen_app.py:126-127 | A category count never exceeds the number of rows. |
| `IssueTable.Mean` | src/citizen_app.py:121-122 | The average times the count equals the sum. On an empty table the average is 0, where SQL `AVG` would give NULL. |
| `IssueTable.GetStats` | src/citizen_app.py:113-135 | `total_issues` is the number of rows. `by_category` has exactly the five categories as keys. On a non-empty table the average times the total is the sum of votes. On an empty table the average is 0. |
| `IssueTable.CountIsQuerySize` | src/citizen_app.py:98-100 | A category's count equals the number of rows the category filter selects. |
| `IssueTable.StatsAgreeWithQuery` | src/citizen_app.py:124-127 | For each category, the statistics count equals the length of that category's query result, under any sort_by. |
| `IssueTable.StatsCountsSumToTotal` | src/citizen_app.py:124-127 | When every row names a valid category, the five per-category counts add up to `total_issues`. |
| `IssueTable.EmptyStats` | src/citizen_app.py:118-127 | On an empty table, the total, the average and every category count are 0. |
| `IssueTable.StatsAfterReport` | src/citizen_app.py:63-67 | Inserting a row with no votes raises the total by one, raises the count of its own category by one, keeps the other counts and adds no votes. |
| `IssueTable.StatsAfterVote` | src/citizen_app.py:79 | A vote keeps the total and every category count. It adds exactly one vote to the sum iff the id exists. |
| `IssueTable.ThreeReportsStatistics` | src/citizen_app.py:113-135 | After two infrastructure reports and one safety report, with two votes on the second infrastructure issue, the statistics show 3 issues, 2 infrastructure, 1 safety and an average of 2/3. |
| `TextOrder.AtMostReflexive` | src/citizen_app.py:103-105 | Every `created_at` string sorts no later than itself. |
| `TextOrder.AtMostTotal` | src/citizen_app.py:103-105 | Any two `created_at` strings are comparable. |
| `TextOrder.AtMostAntisymmetric` | src/citizen_app.py:103-105 | Two strings that each sort no later than the other are equal. |
| `TextOrder.AtMostTransitive` | src/citizen_app.py:103-105 | The text order is transitive. |
| `TextOrder.PrefixAtMost` | src/citizen_app.py:20 | A prefix sorts first. An `isoformat()` time without fractional seconds therefore sorts before later times in the same second. |

## Left out

- The SQLite plumbing is not modelled: opening, committing and closing connections, `CREATE TABLE IF NOT EXISTS`, `DB_PATH` and the directory creation. Storage errors are left out with it. The table is the class's state.
- The clock reads are not modelled: the timestamp-derived id and the `datetime.now().isoformat()` default. They are parameters of `ReportIssue`, so the model does not show that two reports in the same instant collide. Such a collision is the `DuplicateId` error.
- `round(avg, 2)` in `get_stats` is floating point and is not modelled. `averageVotes` is the exact mean as a `real`.
- `export_json` is not modelled. It serialises `get_stats` and `get_issues(sort_by="recent")` through the `json` library.
- `main` is not modelled. It is command-line dispatch and printing.
- Atomicity of the vote `UPDATE` under concurrent processes is not modelled. The model is sequential.
- `get_issues` returns dictionaries built from the rows. The model returns the `Issue` rows themselves.
- IssueTable.GetIssues: `ORDER BY` leaves the order of rows that tie on every sort key unspecified. The model's insertion sort keeps such rows in table order, and the contract promises only a sorted permutation. For a `sort_by` other than "votes" or "recent" there is no `ORDER BY` at all, and SQLite leaves the row order undefined. The model chooses insertion order there, so its contract promises an order that the original does not guarantee.
- IssueTable.Voted: `votes` is an unbounded natural number. Overflow of SQLite's 64-bit integers is not modelled.
