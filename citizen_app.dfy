/**
 * The issue store: an object that owns the `issues` table and changes it
 * in place. Reporting an issue inserts one row; voting increments one
 * row's counter. The read-only queries are the pure functions
 * `IssueTable.GetIssues` and `IssueTable.GetStats` applied to `issues`.
 *
 * The clock reads of the original (the timestamp-derived id and the
 * creation time) are parameters of `ReportIssue`.
 */
module CitizenApp {
  import opened Wrappers
  import opened IssueTable

  /** Why a report was refused. */
  datatype ReportError =
    | InvalidCategory(allowed: set<string>)  // the category is not one of `Categories`
    | DuplicateId(id: string)                // the INSERT broke the PRIMARY KEY constraint

  class CitizenAppBackend {
    /** The rows of the `issues` table, in insertion order. */
    var issues: seq<Issue>

    ghost predicate Valid()
      reads this
    {
      UniqueIds(issues)
    }

    /**
     * Opens the store over the rows already in the database file
     * (`stored`, empty on first use); creating the table when it is
     * missing keeps existing rows.
     */
    constructor (stored: seq<Issue>)
      requires UniqueIds(stored)
      ensures Valid() && issues == stored
    {
      issues := stored;
    }

    /**
     * Reports an issue. A category outside `Categories` is refused and
     * nothing is stored; an id already in the table is refused by the
     * key constraint; otherwise one new open row with no votes is appended.
     */
    method ReportIssue(id: string, title: string, category: string, location: string, createdAt: string)
      returns (r: Result<string, ReportError>)
      requires Valid()
      modifies this
      ensures Valid()
      ensures category !in Categories ==>
        r == Failure(InvalidCategory(Categories)) && issues == old(issues)
      ensures category in Categories && id in Ids(old(issues)) ==>
        r == Failure(DuplicateId(id)) && issues == old(issues)
      ensures category in Categories && id !in Ids(old(issues)) ==>
        r == Success(id) && issues == old(issues) + [Issue(id, title, category, location, "open", 0, createdAt)]
      ensures old(Categorised(issues)) ==> Categorised(issues)
    {
      if category !in Categories {
        return Failure(InvalidCategory(Categories));
      }
      var issue := NewIssue(id, title, category, location, createdAt);
      if id in Ids(issues) {
        return Failure(DuplicateId(id));
      }
      issues := issues + [issue];
      r := Success(id);
    }

    /**
     * Adds one vote to the issue with that id and returns its new count,
     * read back after the update; returns 0 and changes nothing when no
     * issue has that id.
     */
    method VoteIssue(id: string) returns (n: nat)
      requires Valid()
      modifies this
      ensures Valid()
      ensures issues == Voted(old(issues), id)
      ensures forall k :: 0 <= k < |old(issues)| && old(issues)[k].id == id ==> n == old(issues)[k].votes + 1
      ensures id !in Ids(old(issues)) ==> n == 0 && issues == old(issues)
    {
      ghost var before := issues;
      VotedKeepsKeys(issues, id);
      if id !in Ids(issues) {
        VotedAbsent(issues, id);
      }
      issues := Voted(issues, id);
      var row := Find(issues, id);
      n := if row.Some? then row.value.votes else 0;
      forall k | 0 <= k < |before| && before[k].id == id
        ensures n == before[k].votes + 1
      {
        VotedThenFound(before, k);
      }
    }
  }

  /**
   * Three reports (two infrastructure, one safety) and two votes on the
   * second infrastructure issue: the statistics count three issues, two
   * and one in those categories, and a mean of two thirds of a vote.
   */
  method ThreeReportsScenario()
  {
    var app := new CitizenAppBackend([]);
    var a := app.ReportIssue("i1", "Pothole", "infrastructure", "1,1", "t1");
    var b := app.ReportIssue("i2", "Dark street", "safety", "2,2", "t2");
    var c := app.ReportIssue("i3", "Broken bench", "infrastructure", "3,3", "t3");
    ghost var three := app.issues;
    assert a.Success? && b.Success? && c.Success?;
    assert |three| == 3 && three[2].id == "i3";

    var v1 := app.VoteIssue("i3");
    var v2 := app.VoteIssue("i3");
    assert v1 == 1 && v2 == 2;

    ThreeReportsStatistics(three);
    var stats := GetStats(app.issues);
    assert stats.totalIssues == 3;
    assert stats.byCategory["infrastructure"] == 2 && stats.byCategory["safety"] == 1;
    assert stats.averageVotes == 2.0 / 3.0;
  }
}
