/**
 * The `issues` table of the civic issue tracker and the read-only queries
 * over it. A table is a sequence of `Issue` rows in insertion order. Where
 * a query has no `ORDER BY`, SQLite leaves the row order undefined; the
 * model chooses insertion order there.
 *
 * `GetIssues` and `GetStats` are the two queries; `Voted` is the effect of
 * the vote statement on the table. The class that owns the table and
 * changes it is in module CitizenApp.
 */
module IssueTable {
  import opened Wrappers
  import TextOrder

  /** One row of the table (the `Issue` record). Votes are never negative. */
  datatype Issue = Issue(
    id: string,
    title: string,
    category: string,
    location: string,
    status: string,
    votes: nat,
    createdAt: string)

  /** The closed set of categories a report may name. */
  const Categories: set<string> :=
    {"infrastructure", "safety", "environment", "community", "transit"}

  /** A new report with the record's defaults: status "open", no votes. */
  function NewIssue(id: string, title: string, category: string, location: string, createdAt: string): Issue
  {
    Issue(id, title, category, location, "open", 0, createdAt)
  }

  function Ids(rows: seq<Issue>): set<string>
  {
    set r | r in rows :: r.id
  }

  /** The PRIMARY KEY constraint on `id`. */
  ghost predicate UniqueIds(rows: seq<Issue>)
  {
    forall i, j :: 0 <= i < |rows| && 0 <= j < |rows| && rows[i].id == rows[j].id ==> i == j
  }

  /** Every row names one of the fixed categories. */
  ghost predicate Categorised(rows: seq<Issue>)
  {
    forall r :: r in rows ==> r.category in Categories
  }

  lemma UniqueIdsTail(rows: seq<Issue>)
    requires rows != [] && UniqueIds(rows)
    ensures UniqueIds(rows[1..]) && rows[0].id !in Ids(rows[1..])
  {
    forall i, j | 0 <= i < |rows[1..]| && 0 <= j < |rows[1..]| && rows[1..][i].id == rows[1..][j].id
      ensures i == j
    {
      assert rows[i + 1].id == rows[j + 1].id;
    }
  }

  // ---------------------------------------------------------------------
  // Lookup: SELECT ... FROM issues WHERE id = ?, first row only
  // ---------------------------------------------------------------------

  function Find(rows: seq<Issue>, id: string): (r: Option<Issue>)
    ensures r.Some? <==> id in Ids(rows)
    ensures r.Some? ==> r.value in rows && r.value.id == id
  {
    if rows == [] then None
    else if rows[0].id == id then Some(rows[0])
    else
      assert Ids(rows) == {rows[0].id} + Ids(rows[1..]) by {
        assert rows == [rows[0]] + rows[1..];
      }
      Find(rows[1..], id)
  }

  /** With unique keys the lookup of a row's id yields that very row. */
  lemma {:induction false} FindUnique(rows: seq<Issue>, k: nat)
    requires UniqueIds(rows) && k < |rows|
    ensures Find(rows, rows[k].id) == Some(rows[k])
  {
    if k > 0 {
      assert rows[0].id != rows[k].id;
      UniqueIdsTail(rows);
      FindUnique(rows[1..], k - 1);
    }
  }

  // ---------------------------------------------------------------------
  // UPDATE issues SET votes = votes + 1 WHERE id = ?
  // ---------------------------------------------------------------------

  /** The table after the vote statement: each row with that id gains one vote. */
  function Voted(rows: seq<Issue>, id: string): (r: seq<Issue>)
    ensures |r| == |rows|
    ensures forall i :: 0 <= i < |rows| && rows[i].id == id ==> r[i] == rows[i].(votes := rows[i].votes + 1)
    ensures forall i :: 0 <= i < |rows| && rows[i].id != id ==> r[i] == rows[i]
  {
    if rows == [] then []
    else
      var head := if rows[0].id == id then rows[0].(votes := rows[0].votes + 1) else rows[0];
      [head] + Voted(rows[1..], id)
  }

  /** On a table with unique keys, a vote on an existing id changes exactly one row, by one vote. */
  lemma VotedTouchesOne(rows: seq<Issue>, id: string)
    requires UniqueIds(rows) && id in Ids(rows)
    ensures exists k :: (
              && 0 <= k < |rows| && rows[k].id == id
              && Voted(rows, id)[k] == rows[k].(votes := rows[k].votes + 1)
              && forall i :: 0 <= i < |rows| && i != k ==> Voted(rows, id)[i] == rows[i])
  {
    var r :| r in rows && r.id == id;
    var k :| 0 <= k < |rows| && rows[k] == r;
    assert forall i :: 0 <= i < |rows| && i != k ==> rows[i].id != id;
  }

  /** A vote on an id that is not in the table changes nothing. */
  lemma VotedAbsent(rows: seq<Issue>, id: string)
    requires id !in Ids(rows)
    ensures Voted(rows, id) == rows
  {
    assert forall i :: 0 <= i < |rows| ==> rows[i] in rows;
  }

  /** Voting keeps the keys, the categories and every field but `votes`. */
  lemma VotedKeepsKeys(rows: seq<Issue>, id: string)
    ensures Ids(Voted(rows, id)) == Ids(rows)
    ensures UniqueIds(rows) ==> UniqueIds(Voted(rows, id))
    ensures Categorised(rows) ==> Categorised(Voted(rows, id))
  {
    var v := Voted(rows, id);
    forall x | x in Ids(v) ensures x in Ids(rows) {
      var r :| r in v && r.id == x;
      var k :| 0 <= k < |v| && v[k] == r;
      assert rows[k] in rows;
    }
    forall x | x in Ids(rows) ensures x in Ids(v) {
      var r :| r in rows && r.id == x;
      var k :| 0 <= k < |rows| && rows[k] == r;
      assert v[k] in v;
    }
    if Categorised(rows) {
      forall r | r in v ensures r.category in Categories {
        var k :| 0 <= k < |v| && v[k] == r;
        assert rows[k] in rows;
      }
    }
  }

  /** Read-after-write: looking the id up after the vote sees the incremented row. */
  lemma VotedThenFound(rows: seq<Issue>, k: nat)
    requires UniqueIds(rows) && k < |rows|
    ensures Find(Voted(rows, rows[k].id), rows[k].id) == Some(rows[k].(votes := rows[k].votes + 1))
  {
    var v := Voted(rows, rows[k].id);
    VotedKeepsKeys(rows, rows[k].id);
    FindUnique(v, k);
  }

  // ---------------------------------------------------------------------
  // WHERE category = ?  (applied only when the category argument is truthy)
  // ---------------------------------------------------------------------

  /** The rows of category `c`, in table order. */
  function FilterCategory(rows: seq<Issue>, c: string): (r: seq<Issue>)
    ensures forall x :: multiset(r)[x] == if x.category == c then multiset(rows)[x] else 0
  {
    if rows == [] then []
    else
      assert rows == [rows[0]] + rows[1..];
      if rows[0].category == c then [rows[0]] + FilterCategory(rows[1..], c)
      else FilterCategory(rows[1..], c)
  }

  /** Python truthiness of the optional category: None and "" both mean "no filter". */
  predicate FiltersBy(category: Option<string>)
  {
    category.Some? && category.value != ""
  }

  /** Whether a row passes the query's category filter. */
  predicate Selects(category: Option<string>, x: Issue)
  {
    !FiltersBy(category) || x.category == category.value
  }

  function Selection(rows: seq<Issue>, category: Option<string>): seq<Issue>
  {
    if FiltersBy(category) then FilterCategory(rows, category.value) else rows
  }

  // ---------------------------------------------------------------------
  // ORDER BY
  // ---------------------------------------------------------------------

  /** The two orderings the query recognises. */
  datatype Order =
    | ByVotes   // ORDER BY votes DESC, created_at DESC
    | ByRecent  // ORDER BY created_at DESC

  /** The `sort_by` argument: "votes" and "recent" are recognised, anything else sorts nothing. */
  function OrderOf(sortBy: string): (o: Option<Order>)
    ensures o == Some(ByVotes) <==> sortBy == "votes"
    ensures o == Some(ByRecent) <==> sortBy == "recent"
  {
    if sortBy == "votes" then Some(ByVotes)
    else if sortBy == "recent" then Some(ByRecent)
    else None
  }

  /** Under `order`, row `a` may be listed before row `b`. */
  predicate Precedes(order: Order, a: Issue, b: Issue)
  {
    match order
    case ByVotes =>
      a.votes > b.votes || (a.votes == b.votes && TextOrder.AtMost(b.createdAt, a.createdAt))
    case ByRecent =>
      TextOrder.AtMost(b.createdAt, a.createdAt)
  }

  lemma PrecedesTotal(order: Order, a: Issue, b: Issue)
    ensures Precedes(order, a, b) || Precedes(order, b, a)
  {
    TextOrder.AtMostTotal(a.createdAt, b.createdAt);
  }

  lemma PrecedesTransitive(order: Order, a: Issue, b: Issue, c: Issue)
    requires Precedes(order, a, b) && Precedes(order, b, c)
    ensures Precedes(order, a, c)
  {
    if TextOrder.AtMost(b.createdAt, a.createdAt) && TextOrder.AtMost(c.createdAt, b.createdAt) {
      TextOrder.AtMostTransitive(c.createdAt, b.createdAt, a.createdAt);
    }
  }

  ghost predicate Sorted(order: Order, s: seq<Issue>)
  {
    forall i, j :: 0 <= i < j < |s| ==> Precedes(order, s[i], s[j])
  }

  /** Places `x` before the first row it may precede. */
  function Insert(order: Order, x: Issue, s: seq<Issue>): (r: seq<Issue>)
    ensures multiset(r) == multiset(s) + multiset{x}
  {
    if s == [] then [x]
    else if Precedes(order, x, s[0]) then [x] + s
    else
      assert s == [s[0]] + s[1..];
      [s[0]] + Insert(order, x, s[1..])
  }

  lemma {:induction false} InsertSorted(order: Order, x: Issue, s: seq<Issue>)
    requires Sorted(order, s)
    ensures Sorted(order, Insert(order, x, s))
  {
    if s == [] {
    } else if Precedes(order, x, s[0]) {
      var r := [x] + s;
      forall j | 1 <= j < |r| ensures Precedes(order, x, r[j]) {
        if j > 1 {
          PrecedesTransitive(order, x, s[0], s[j - 1]);
        }
      }
    } else {
      PrecedesTotal(order, x, s[0]);
      var t := Insert(order, x, s[1..]);
      InsertSorted(order, x, s[1..]);
      forall j | 0 <= j < |t| ensures Precedes(order, s[0], t[j]) {
        assert t[j] in multiset(t);
        if t[j] != x {
          assert t[j] in multiset(s[1..]);
          var m :| 0 <= m < |s[1..]| && s[1..][m] == t[j];
          assert s[m + 1] == t[j];
        }
      }
    }
  }

  /** Insertion sort: a sorted permutation of `s`. */
  function Sort(order: Order, s: seq<Issue>): (r: seq<Issue>)
    ensures multiset(r) == multiset(s)
    ensures Sorted(order, r)
  {
    if s == [] then []
    else
      assert s == [s[0]] + s[1..];
      var rest := Sort(order, s[1..]);
      InsertSorted(order, s[0], rest);
      Insert(order, s[0], rest)
  }

  // ---------------------------------------------------------------------
  // get_issues
  // ---------------------------------------------------------------------

  /**
   * The query of get_issues: the rows that pass the category filter, sorted
   * by the recognised ordering, or in table order for any other `sortBy`.
   */
  function GetIssues(rows: seq<Issue>, category: Option<string> := None, sortBy: string := "votes"): (r: seq<Issue>)
    ensures forall x :: multiset(r)[x] == if Selects(category, x) then multiset(rows)[x] else 0
    ensures forall x :: x in r <==> x in rows && Selects(category, x)
    ensures sortBy == "votes" ==> Sorted(ByVotes, r)
    ensures sortBy == "recent" ==> Sorted(ByRecent, r)
    ensures OrderOf(sortBy).None? ==> r == Selection(rows, category)
  {
    var selected := Selection(rows, category);
    var r := match OrderOf(sortBy)
      case None => selected
      case Some(order) => Sort(order, selected);
    assert forall x :: x in r <==> multiset(r)[x] > 0;
    assert forall x :: x in rows <==> multiset(rows)[x] > 0;
    r
  }

  /** `get_issues()` with its defaults: every row, sorted by votes and then by recency. */
  lemma DefaultListing(rows: seq<Issue>)
    ensures multiset(GetIssues(rows)) == multiset(rows)
    ensures Sorted(ByVotes, GetIssues(rows))
  {
  }

  /** With sort_by "votes": vote counts never increase down the list, and among equal counts neither does created_at. */
  lemma ByVotesOrdering(rows: seq<Issue>, category: Option<string>)
    ensures var r := GetIssues(rows, category, "votes");
      forall i, j :: 0 <= i < j < |r| ==>
        r[i].votes >= r[j].votes &&
        (r[i].votes == r[j].votes ==> TextOrder.AtMost(r[j].createdAt, r[i].createdAt))
  {
  }

  /** On a categorised table, filtering by a string outside the categories yields nothing. */
  lemma UnknownCategoryEmpty(rows: seq<Issue>, c: string, sortBy: string)
    requires Categorised(rows) && c != "" && c !in Categories
    ensures GetIssues(rows, Some(c), sortBy) == []
  {
    var r := GetIssues(rows, Some(c), sortBy);
    assert forall x :: x in r ==> x in rows && x.category == c;
  }

  // ---------------------------------------------------------------------
  // get_stats
  // ---------------------------------------------------------------------

  /** SELECT COUNT(*) FROM issues WHERE category = ? */
  function CountCategory(rows: seq<Issue>, c: string): (n: nat)
    ensures n <= |rows|
  {
    if rows == [] then 0
    else (if rows[0].category == c then 1 else 0) + CountCategory(rows[1..], c)
  }

  /** The total of the `votes` column. */
  function VoteSum(rows: seq<Issue>): nat
  {
    if rows == [] then 0 else rows[0].votes + VoteSum(rows[1..])
  }

  /** The statistics snapshot; `averageVotes` is the exact mean, before rounding. */
  datatype Stats = Stats(totalIssues: nat, averageVotes: real, byCategory: map<string, nat>)

  /** AVG(votes), with the NULL of an empty table read as 0. */
  function Mean(sum: nat, count: nat): (m: real)
    ensures count > 0 ==> m * count as real == sum as real
    ensures count == 0 ==> m == 0.0
  {
    if count == 0 then 0.0 else sum as real / count as real
  }

  function GetStats(rows: seq<Issue>): (s: Stats)
    ensures s.totalIssues == |rows|
    ensures s.byCategory.Keys == Categories
    ensures |rows| > 0 ==> s.averageVotes * |rows| as real == VoteSum(rows) as real
    ensures |rows| == 0 ==> s.averageVotes == 0.0
  {
    var counts := map c | c in Categories :: CountCategory(rows, c);
    var average := Mean(VoteSum(rows), |rows|);
    Stats(|rows|, average, counts)
  }

  /** The per-category count agrees with the number of rows the category query returns. */
  lemma {:induction false} CountIsQuerySize(rows: seq<Issue>, c: string)
    ensures CountCategory(rows, c) == |FilterCategory(rows, c)|
  {
    if rows != [] {
      CountIsQuerySize(rows[1..], c);
    }
  }

  lemma StatsAgreeWithQuery(rows: seq<Issue>, c: string, sortBy: string)
    requires c in Categories
    ensures GetStats(rows).byCategory[c] == |GetIssues(rows, Some(c), sortBy)|
  {
    CountIsQuerySize(rows, c);
    var r := GetIssues(rows, Some(c), sortBy);
    assert |r| == |multiset(r)|;
    assert multiset(r) == multiset(FilterCategory(rows, c));
  }

  /** The sum of the five per-category counts. */
  function CategoryTotal(byCategory: map<string, nat>): nat
    requires Categories <= byCategory.Keys
  {
    byCategory["infrastructure"] + byCategory["safety"] + byCategory["environment"]
      + byCategory["community"] + byCategory["transit"]
  }

  lemma {:induction false} CountsPartitionRows(rows: seq<Issue>)
    requires Categorised(rows)
    ensures CountCategory(rows, "infrastructure") + CountCategory(rows, "safety")
      + CountCategory(rows, "environment") + CountCategory(rows, "community")
      + CountCategory(rows, "transit") == |rows|
  {
    if rows != [] {
      assert rows[0] in rows;
      assert forall r :: r in rows[1..] ==> r in rows;
      CountsPartitionRows(rows[1..]);
    }
  }

  /** Since every row is categorised, the per-category counts add up to the total. */
  lemma StatsCountsSumToTotal(rows: seq<Issue>)
    requires Categorised(rows)
    ensures CategoryTotal(GetStats(rows).byCategory) == GetStats(rows).totalIssues
  {
    CountsPartitionRows(rows);
  }

  /** On the empty table every figure is zero. */
  lemma EmptyStats()
    ensures GetStats([]).totalIssues == 0
    ensures GetStats([]).averageVotes == 0.0
    ensures forall c :: c in Categories ==> GetStats([]).byCategory[c] == 0
  {
  }

  lemma {:induction false} CountAppend(rows: seq<Issue>, x: Issue, c: string)
    ensures CountCategory(rows + [x], c) == CountCategory(rows, c) + (if x.category == c then 1 else 0)
  {
    if rows != [] {
      assert (rows + [x])[1..] == rows[1..] + [x];
      CountAppend(rows[1..], x, c);
    }
  }

  lemma {:induction false} VoteSumAppend(rows: seq<Issue>, x: Issue)
    ensures VoteSum(rows + [x]) == VoteSum(rows) + x.votes
  {
    if rows != [] {
      assert (rows + [x])[1..] == rows[1..] + [x];
      VoteSumAppend(rows[1..], x);
    }
  }

  /** A newly reported issue raises the total and its own category's count by one, and adds no votes. */
  lemma StatsAfterReport(rows: seq<Issue>, x: Issue)
    requires x.votes == 0
    ensures GetStats(rows + [x]).totalIssues == GetStats(rows).totalIssues + 1
    ensures forall c :: c in Categories ==>
      GetStats(rows + [x]).byCategory[c] == GetStats(rows).byCategory[c] + (if x.category == c then 1 else 0)
    ensures VoteSum(rows + [x]) == VoteSum(rows)
  {
    forall c | c in Categories
      ensures GetStats(rows + [x]).byCategory[c] == GetStats(rows).byCategory[c] + (if x.category == c then 1 else 0)
    {
      CountAppend(rows, x, c);
    }
    VoteSumAppend(rows, x);
  }

  lemma {:induction false} VotedCounts(rows: seq<Issue>, id: string, c: string)
    ensures CountCategory(Voted(rows, id), c) == CountCategory(rows, c)
  {
    if rows != [] {
      assert Voted(rows, id)[1..] == Voted(rows[1..], id);
      VotedCounts(rows[1..], id, c);
    }
  }

  lemma {:induction false} VotedSum(rows: seq<Issue>, id: string)
    requires UniqueIds(rows)
    ensures VoteSum(Voted(rows, id)) == VoteSum(rows) + (if id in Ids(rows) then 1 else 0)
  {
    if rows != [] {
      UniqueIdsTail(rows);
      assert Voted(rows, id)[1..] == Voted(rows[1..], id);
      assert Ids(rows) == {rows[0].id} + Ids(rows[1..]) by {
        assert rows == [rows[0]] + rows[1..];
      }
      VotedSum(rows[1..], id);
    }
  }

  /** A vote leaves the issue count and every category count as they were, and adds exactly one vote when the id exists. */
  lemma StatsAfterVote(rows: seq<Issue>, id: string)
    requires UniqueIds(rows)
    ensures GetStats(Voted(rows, id)).totalIssues == GetStats(rows).totalIssues
    ensures GetStats(Voted(rows, id)).byCategory == GetStats(rows).byCategory
    ensures VoteSum(Voted(rows, id)) == VoteSum(rows) + (if id in Ids(rows) then 1 else 0)
  {
    forall c | c in Categories
      ensures GetStats(Voted(rows, id)).byCategory[c] == GetStats(rows).byCategory[c]
    {
      VotedCounts(rows, id, c);
    }
    VotedSum(rows, id);
  }

  lemma ThreeRowsCounts(rows: seq<Issue>)
    requires |rows| == 3
    requires rows[0].category == "infrastructure" && rows[1].category == "safety"
    requires rows[2].category == "infrastructure"
    requires rows[0].votes == 0 && rows[1].votes == 0 && rows[2].votes == 0
    ensures CountCategory(rows, "infrastructure") == 2 && CountCategory(rows, "safety") == 1
    ensures VoteSum(rows) == 0
  {
    var tail := rows[1..];
    assert tail[1..][1..] == [];
    assert CountCategory(tail[1..], "infrastructure") == 1 && CountCategory(tail[1..], "safety") == 0;
    assert CountCategory(tail, "infrastructure") == 1 && CountCategory(tail, "safety") == 1;
    assert VoteSum(tail[1..]) == 0;
    assert VoteSum(tail) == tail[0].votes + VoteSum(tail[1..]);
  }

  lemma TwoVotesStats(rows: seq<Issue>, id: string)
    requires UniqueIds(rows) && id in Ids(rows)
    ensures |Voted(Voted(rows, id), id)| == |rows|
    ensures GetStats(Voted(Voted(rows, id), id)).byCategory == GetStats(rows).byCategory
    ensures VoteSum(Voted(Voted(rows, id), id)) == VoteSum(rows) + 2
  {
    var once := Voted(rows, id);
    VotedKeepsKeys(rows, id);
    StatsAfterVote(rows, id);
    StatsAfterVote(once, id);
  }

  /**
   * Two infrastructure reports and one safety report, then two votes on the
   * second infrastructure issue: three issues, two and one in those
   * categories, and a mean of two thirds of a vote.
   */
  lemma {:induction false} ThreeReportsStatistics(rows: seq<Issue>)
    requires |rows| == 3 && UniqueIds(rows)
    requires rows[0].category == "infrastructure" && rows[1].category == "safety"
    requires rows[2].category == "infrastructure"
    requires rows[0].votes == 0 && rows[1].votes == 0 && rows[2].votes == 0
    ensures GetStats(Voted(Voted(rows, rows[2].id), rows[2].id)).totalIssues == 3
    ensures GetStats(Voted(Voted(rows, rows[2].id), rows[2].id)).byCategory["infrastructure"] == 2
    ensures GetStats(Voted(Voted(rows, rows[2].id), rows[2].id)).byCategory["safety"] == 1
    ensures GetStats(Voted(Voted(rows, rows[2].id), rows[2].id)).averageVotes == 2.0 / 3.0
  {
    var id := rows[2].id;
    var twice := Voted(Voted(rows, id), id);
    assert id in Ids(rows) by {
      assert rows[2] in rows;
    }
    TwoVotesStats(rows, id);
    ThreeRowsCounts(rows);
    assert "infrastructure" in Categories && "safety" in Categories;
    assert GetStats(twice).averageVotes == Mean(2, 3) == 2.0 / 3.0;
  }
}
