/** The invariant both stores keep over their tables, and what each kind of
    write needs to keep it: foreign keys and contributor rows point at
    existing rows, (user, project) pairs are unique, every key comes from
    the allocator, and `auto_now_add` creation times follow the keys. The
    user table enters only through its set of keys, since the two variants
    store different user records. */
module Tables {
  import opened Shared
  import opened Membership
  import Cascade

  /** Every key in use is nonzero and was handed out before `bound` */
  ghost predicate KeysBelow(keys: set<nat>, bound: nat) {
    forall k :: k in keys ==> 0 < k < bound
  }

  /** Creation times grow with the primary key and lie before `clock` */
  ghost predicate ProjectTimes(projects: map<ProjectId, Project>, clock: nat) {
    && (forall a, b :: a in projects && b in projects && a < b ==> projects[a].createdTime < projects[b].createdTime)
    && (forall a :: a in projects ==> projects[a].createdTime < clock)
  }

  ghost predicate IssueTimes(issues: map<IssueId, Issue>, clock: nat) {
    && (forall a, b :: a in issues && b in issues && a < b ==> issues[a].createdTime < issues[b].createdTime)
    && (forall a :: a in issues ==> issues[a].createdTime < clock)
  }

  ghost predicate CommentTimes(comments: map<CommentId, Comment>, clock: nat) {
    && (forall a, b :: a in comments && b in comments && a < b ==> comments[a].createdTime < comments[b].createdTime)
    && (forall a :: a in comments ==> comments[a].createdTime < clock)
  }

  ghost predicate Consistent<R>(users: set<UserId>, projects: map<ProjectId, Project>, rows: seq<Row<R>>,
                                issues: map<IssueId, Issue>, comments: map<CommentId, Comment>, nextId: nat, clock: nat)
  {
    && Cascade.Linked(users, projects, issues, comments)
    && RowsLinked(rows, users, projects.Keys)
    && UniquePairs(rows)
    && nextId > 0
    && KeysBelow(users, nextId) && KeysBelow(projects.Keys, nextId)
    && KeysBelow(issues.Keys, nextId) && KeysBelow(comments.Keys, nextId)
    && ProjectTimes(projects, clock) && IssueTimes(issues, clock) && CommentTimes(comments, clock)
  }

  lemma UserInsertKeepsConsistent<R>(users: set<UserId>, projects: map<ProjectId, Project>, rows: seq<Row<R>>,
                                     issues: map<IssueId, Issue>, comments: map<CommentId, Comment>, nextId: nat, clock: nat)
    requires Consistent(users, projects, rows, issues, comments, nextId, clock)
    ensures nextId !in users
    ensures Consistent(users + {nextId}, projects, rows, issues, comments, nextId + 1, clock)
  {
  }

  lemma ProjectInsertKeepsConsistent<R>(users: set<UserId>, projects: map<ProjectId, Project>, rows: seq<Row<R>>,
                                        issues: map<IssueId, Issue>, comments: map<CommentId, Comment>, nextId: nat, clock: nat,
                                        p: Project)
    requires Consistent(users, projects, rows, issues, comments, nextId, clock)
    requires p.author in users && p.createdTime == clock
    ensures nextId !in projects && !IsMember(rows, p.author, nextId)
    ensures Consistent(users, projects[nextId := p], rows, issues, comments, nextId + 1, clock + 1)
  {
    assert projects[nextId := p].Keys == projects.Keys + {nextId};
  }

  lemma ProjectReplaceKeepsConsistent<R>(users: set<UserId>, projects: map<ProjectId, Project>, rows: seq<Row<R>>,
                                         issues: map<IssueId, Issue>, comments: map<CommentId, Comment>, nextId: nat, clock: nat,
                                         id: ProjectId, p: Project)
    requires Consistent(users, projects, rows, issues, comments, nextId, clock) && id in projects
    requires p.author in users && p.createdTime == projects[id].createdTime
    ensures Consistent(users, projects[id := p], rows, issues, comments, nextId, clock)
  {
    assert projects[id := p].Keys == projects.Keys;
  }

  lemma RowAppendKeepsConsistent<R>(users: set<UserId>, projects: map<ProjectId, Project>, rows: seq<Row<R>>,
                                    issues: map<IssueId, Issue>, comments: map<CommentId, Comment>, nextId: nat, clock: nat,
                                    row: Row<R>)
    requires Consistent(users, projects, rows, issues, comments, nextId, clock)
    requires row.user in users && row.project in projects && !IsMember(rows, row.user, row.project)
    ensures Consistent(users, projects, rows + [row], issues, comments, nextId, clock)
  {
    AppendKeepsUnique(rows, row);
  }

  lemma RowRemoveKeepsConsistent<R>(users: set<UserId>, projects: map<ProjectId, Project>, rows: seq<Row<R>>,
                                    issues: map<IssueId, Issue>, comments: map<CommentId, Comment>, nextId: nat, clock: nat,
                                    k: nat)
    requires Consistent(users, projects, rows, issues, comments, nextId, clock) && k < |rows|
    ensures Consistent(users, projects, rows[..k] + rows[k + 1..], issues, comments, nextId, clock)
  {
    var r := rows[..k] + rows[k + 1..];
    assert forall i :: 0 <= i < |r| ==> r[i] == (if i < k then rows[i] else rows[i + 1]);
    RemoveAtKeepsUnique(rows, k);
  }

  lemma IssueInsertKeepsConsistent<R>(users: set<UserId>, projects: map<ProjectId, Project>, rows: seq<Row<R>>,
                                      issues: map<IssueId, Issue>, comments: map<CommentId, Comment>, nextId: nat, clock: nat,
                                      i: Issue)
    requires Consistent(users, projects, rows, issues, comments, nextId, clock)
    requires i.project in projects && i.author in users && (i.assignee.Some? ==> i.assignee.value in users)
    requires i.createdTime == clock
    ensures nextId !in issues
    ensures Consistent(users, projects, rows, issues[nextId := i], comments, nextId + 1, clock + 1)
  {
  }

  lemma IssueReplaceKeepsConsistent<R>(users: set<UserId>, projects: map<ProjectId, Project>, rows: seq<Row<R>>,
                                       issues: map<IssueId, Issue>, comments: map<CommentId, Comment>, nextId: nat, clock: nat,
                                       id: IssueId, i: Issue)
    requires Consistent(users, projects, rows, issues, comments, nextId, clock) && id in issues
    requires i.project in projects && i.author in users && (i.assignee.Some? ==> i.assignee.value in users)
    requires i.createdTime == issues[id].createdTime
    ensures Consistent(users, projects, rows, issues[id := i], comments, nextId, clock)
  {
  }

  lemma CommentInsertKeepsConsistent<R>(users: set<UserId>, projects: map<ProjectId, Project>, rows: seq<Row<R>>,
                                        issues: map<IssueId, Issue>, comments: map<CommentId, Comment>, nextId: nat, clock: nat,
                                        c: Comment)
    requires Consistent(users, projects, rows, issues, comments, nextId, clock)
    requires c.issue in issues && c.author in users && c.createdTime == clock
    ensures nextId !in comments
    ensures Consistent(users, projects, rows, issues, comments[nextId := c], nextId + 1, clock + 1)
  {
  }

  /** A delete through the CASCADE and SET_NULL rules keeps the tables
      consistent; the primed arguments are the tables after the delete. */
  lemma CascadeKeepsConsistent<R>(users: set<UserId>, projects: map<ProjectId, Project>, rows: seq<Row<R>>,
                                  issues: map<IssueId, Issue>, comments: map<CommentId, Comment>, nextId: nat, clock: nat,
                                  goneUsers: set<UserId>, goneProjects: set<ProjectId>, goneIssues: set<IssueId>,
                                  users': set<UserId>, projects': map<ProjectId, Project>, rows': seq<Row<R>>,
                                  issues': map<IssueId, Issue>, comments': map<CommentId, Comment>)
    requires Consistent(users, projects, rows, issues, comments, nextId, clock)
    requires var d := Cascade.Closure(projects, issues, comments, goneUsers, goneProjects, goneIssues);
             && users' == users - d.users && projects' == projects - d.projects
             && rows' == RowsWithout(rows, d.users, d.projects)
             && issues' == Cascade.SurvivingIssues(issues, d) && comments' == comments - d.comments
    ensures Consistent(users', projects', rows', issues', comments', nextId, clock)
  {
    var d := Cascade.Closure(projects, issues, comments, goneUsers, goneProjects, goneIssues);
    CascadeKeepsReferences(users, projects, rows, issues, comments, d, goneUsers, goneProjects, goneIssues);
    CascadeKeepsOrder(users, projects, issues, comments, nextId, clock, d);
  }

  lemma CascadeKeepsReferences<R>(users: set<UserId>, projects: map<ProjectId, Project>, rows: seq<Row<R>>,
                                  issues: map<IssueId, Issue>, comments: map<CommentId, Comment>, d: Cascade.Doomed,
                                  goneUsers: set<UserId>, goneProjects: set<ProjectId>, goneIssues: set<IssueId>)
    requires Cascade.Linked(users, projects, issues, comments)
    requires RowsLinked(rows, users, projects.Keys) && UniquePairs(rows)
    requires d == Cascade.Closure(projects, issues, comments, goneUsers, goneProjects, goneIssues)
    ensures Cascade.Linked(users - d.users, projects - d.projects, Cascade.SurvivingIssues(issues, d), comments - d.comments)
    ensures RowsLinked(RowsWithout(rows, d.users, d.projects), users - d.users, (projects - d.projects).Keys)
    ensures UniquePairs(RowsWithout(rows, d.users, d.projects))
  {
    assert (projects - d.projects).Keys == projects.Keys - d.projects;
    Cascade.CascadeKeepsLinked(users, projects, issues, comments, goneUsers, goneProjects, goneIssues);
    RowsWithoutUnique(rows, d.users, d.projects);
    RowsWithoutLinked(rows, d.users, d.projects, users, projects.Keys);
  }

  lemma CascadeKeepsOrder(users: set<UserId>, projects: map<ProjectId, Project>,
                          issues: map<IssueId, Issue>, comments: map<CommentId, Comment>, nextId: nat, clock: nat,
                          d: Cascade.Doomed)
    requires KeysBelow(users, nextId) && KeysBelow(projects.Keys, nextId)
    requires KeysBelow(issues.Keys, nextId) && KeysBelow(comments.Keys, nextId)
    requires ProjectTimes(projects, clock) && IssueTimes(issues, clock) && CommentTimes(comments, clock)
    ensures KeysBelow(users - d.users, nextId) && KeysBelow((projects - d.projects).Keys, nextId)
    ensures KeysBelow(Cascade.SurvivingIssues(issues, d).Keys, nextId) && KeysBelow((comments - d.comments).Keys, nextId)
    ensures ProjectTimes(projects - d.projects, clock) && IssueTimes(Cascade.SurvivingIssues(issues, d), clock)
    ensures CommentTimes(comments - d.comments, clock)
  {
  }

  /** Deleting nothing keeps every row */
  lemma {:induction false} RowsWithoutNothing<R>(rows: seq<Row<R>>)
    ensures RowsWithout(rows, {}, {}) == rows
  {
    if rows != [] {
      RowsWithoutNothing(rows[1..]);
      assert rows == [rows[0]] + rows[1..];
    }
  }
}
