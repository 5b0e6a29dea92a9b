/** The contributor relation, common to both variants: a table of rows
    (user, project, role). The accounts app stores a role in each row; the
    api app has no role column, and its rows carry the unit value there. */
module Membership {
  import opened Shared

  datatype Row<R> = Row(user: UserId, project: ProjectId, role: R)

  /** `Contributor.objects.filter(project=p, user=u).exists()` */
  predicate IsMember<R>(rows: seq<Row<R>>, u: UserId, p: ProjectId) {
    exists k :: 0 <= k < |rows| && rows[k].user == u && rows[k].project == p
  }

  /** `unique_together = (user, project)`: no two rows share a pair */
  predicate UniquePairs<R>(rows: seq<Row<R>>) {
    forall i, j :: 0 <= i < j < |rows| ==> rows[i].user != rows[j].user || rows[i].project != rows[j].project
  }

  /** Every row points at an existing user and an existing project */
  predicate RowsLinked<R>(rows: seq<Row<R>>, users: set<UserId>, projects: set<ProjectId>) {
    forall k :: 0 <= k < |rows| ==> rows[k].user in users && rows[k].project in projects
  }

  /** The rows of one project, in table order */
  function RowsOf<R>(rows: seq<Row<R>>, p: ProjectId): (r: seq<Row<R>>)
    ensures |r| <= |rows|
    ensures forall k :: 0 <= k < |r| ==> r[k] in rows && r[k].project == p
    ensures forall k :: 0 <= k < |rows| && rows[k].project == p ==> rows[k] in r
  {
    if rows == [] then []
    else (if rows[0].project == p then [rows[0]] else []) + RowsOf(rows[1..], p)
  }

  /** The rows that survive deleting the given users and projects (on_delete=CASCADE on both keys) */
  function RowsWithout<R>(rows: seq<Row<R>>, users: set<UserId>, projects: set<ProjectId>): (r: seq<Row<R>>)
    ensures forall k :: 0 <= k < |r| ==> r[k] in rows && r[k].user !in users && r[k].project !in projects
    ensures forall k :: 0 <= k < |rows| && rows[k].user !in users && rows[k].project !in projects ==> rows[k] in r
  {
    if rows == [] then []
    else (if rows[0].user in users || rows[0].project in projects then [] else [rows[0]])
         + RowsWithout(rows[1..], users, projects)
  }

  /** The table order of a filtered table is the order of the original: a
      subsequence of a table with unique pairs has unique pairs. */
  lemma {:induction false} RowsWithoutUnique<R>(rows: seq<Row<R>>, users: set<UserId>, projects: set<ProjectId>)
    requires UniquePairs(rows)
    ensures UniquePairs(RowsWithout(rows, users, projects))
  {
    if rows != [] {
      var tail := RowsWithout(rows[1..], users, projects);
      assert UniquePairs(rows[1..]) by {
        forall i, j | 0 <= i < j < |rows[1..]|
          ensures rows[1..][i].user != rows[1..][j].user || rows[1..][i].project != rows[1..][j].project
        {
          assert rows[1..][i] == rows[i + 1] && rows[1..][j] == rows[j + 1];
        }
      }
      RowsWithoutUnique(rows[1..], users, projects);
      if !(rows[0].user in users || rows[0].project in projects) {
        var r := [rows[0]] + tail;
        forall i, j | 0 <= i < j < |r| ensures r[i].user != r[j].user || r[i].project != r[j].project {
          if i == 0 {
            assert r[j] in rows[1..];
            var m :| 0 <= m < |rows[1..]| && rows[1..][m] == r[j];
            assert rows[m + 1] == r[j];
          }
        }
      }
    }
  }

  /** Deleting rows keeps membership exactly for the surviving pairs */
  lemma RowsWithoutMembers<R>(rows: seq<Row<R>>, users: set<UserId>, projects: set<ProjectId>, u: UserId, p: ProjectId)
    ensures IsMember(RowsWithout(rows, users, projects), u, p) <==> IsMember(rows, u, p) && u !in users && p !in projects
  {
    var r := RowsWithout(rows, users, projects);
    if IsMember(rows, u, p) && u !in users && p !in projects {
      var k :| 0 <= k < |rows| && rows[k].user == u && rows[k].project == p;
      assert rows[k] in r;
      var m :| 0 <= m < |r| && r[m] == rows[k];
    }
    if IsMember(r, u, p) {
      var m :| 0 <= m < |r| && r[m].user == u && r[m].project == p;
      assert r[m] in rows;
      var k :| 0 <= k < |rows| && rows[k] == r[m];
    }
  }

  /** Deleting rows keeps the survivors pointing at surviving users and projects */
  lemma RowsWithoutLinked<R>(rows: seq<Row<R>>, users: set<UserId>, projects: set<ProjectId>,
                             allUsers: set<UserId>, allProjects: set<ProjectId>)
    requires RowsLinked(rows, allUsers, allProjects)
    ensures RowsLinked(RowsWithout(rows, users, projects), allUsers - users, allProjects - projects)
  {
    var r := RowsWithout(rows, users, projects);
    forall k | 0 <= k < |r| ensures r[k].user in allUsers - users && r[k].project in allProjects - projects {
      var j :| 0 <= j < |rows| && rows[j] == r[k];
    }
  }

  /** Searches the table for the row of (u, p), as `Contributor.objects.get(user=u, project=p)` does */
  method FindRow<R>(rows: seq<Row<R>>, u: UserId, p: ProjectId) returns (found: Option<nat>)
    ensures found.Some? ==> found.value < |rows| && rows[found.value].user == u && rows[found.value].project == p
    ensures found.None? <==> !IsMember(rows, u, p)
  {
    var k := 0;
    while k < |rows|
      invariant 0 <= k <= |rows|
      invariant forall j :: 0 <= j < k ==> rows[j].user != u || rows[j].project != p
    {
      if rows[k].user == u && rows[k].project == p {
        return Some(k);
      }
      k := k + 1;
    }
    return None;
  }

  /** Appending a row for a pair that has none keeps the pairs unique */
  lemma AppendKeepsUnique<R>(rows: seq<Row<R>>, row: Row<R>)
    requires UniquePairs(rows) && !IsMember(rows, row.user, row.project)
    ensures UniquePairs(rows + [row])
  {
    var r := rows + [row];
    forall i, j | 0 <= i < j < |r| ensures r[i].user != r[j].user || r[i].project != r[j].project {
      if j == |rows| {
        assert r[i] == rows[i];
      }
    }
  }

  /** Removing the row at one index keeps the pairs unique and drops exactly that pair */
  lemma RemoveAtKeepsUnique<R>(rows: seq<Row<R>>, k: nat)
    requires UniquePairs(rows) && k < |rows|
    ensures UniquePairs(rows[..k] + rows[k + 1..])
    ensures !IsMember(rows[..k] + rows[k + 1..], rows[k].user, rows[k].project)
    ensures forall u, p :: (u != rows[k].user || p != rows[k].project) ==>
              (IsMember(rows[..k] + rows[k + 1..], u, p) <==> IsMember(rows, u, p))
  {
    var r := rows[..k] + rows[k + 1..];
    assert forall i :: 0 <= i < |r| ==> r[i] == (if i < k then rows[i] else rows[i + 1]);
    forall u, p | (u != rows[k].user || p != rows[k].project) && IsMember(rows, u, p)
      ensures IsMember(r, u, p)
    {
      var m :| 0 <= m < |rows| && rows[m].user == u && rows[m].project == p;
      if m < k { assert r[m] == rows[m]; } else { assert r[m - 1] == rows[m]; }
    }
  }
}
