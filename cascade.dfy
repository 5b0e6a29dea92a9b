/** Referential integrity of projects, issues and comments, and what a
    delete removes through the foreign keys' on_delete rules. Both variants
    declare the same rules: Project.author, Issue.project, Issue.author,
    Comment.issue and Comment.author are CASCADE; Issue.assignee is SET_NULL. */
module Cascade {
  import opened Shared

  /** Every foreign key of the three tables points at an existing row */
  ghost predicate Linked(users: set<UserId>, projects: map<ProjectId, Project>,
                         issues: map<IssueId, Issue>, comments: map<CommentId, Comment>)
  {
    && (forall p :: p in projects ==> projects[p].author in users)
    && (forall i :: i in issues ==> issues[i].project in projects && issues[i].author in users)
    && (forall i :: i in issues && issues[i].assignee.Some? ==> issues[i].assignee.value in users)
    && (forall c :: c in comments ==> comments[c].issue in issues && comments[c].author in users)
  }

  /** The rows one delete removes, table by table */
  datatype Doomed = Doomed(users: set<UserId>, projects: set<ProjectId>, issues: set<IssueId>, comments: set<CommentId>)

  /** The closure of a delete of `goneUsers`, `goneProjects` and
      `goneIssues` under the CASCADE rules: a project goes with its author, an
      issue with its project or its author, a comment with its issue or its
      author. */
  function Closure(projects: map<ProjectId, Project>, issues: map<IssueId, Issue>, comments: map<CommentId, Comment>,
                   goneUsers: set<UserId>, goneProjects: set<ProjectId>, goneIssues: set<IssueId>): (d: Doomed)
    ensures d.users == goneUsers
    ensures d.projects <= goneProjects + projects.Keys && d.issues <= goneIssues + issues.Keys && d.comments <= comments.Keys
    ensures forall p :: p in projects ==> (p in d.projects <==> p in goneProjects || projects[p].author in goneUsers)
    ensures forall i :: i in issues ==>
              (i in d.issues <==> i in goneIssues || issues[i].project in d.projects || issues[i].author in goneUsers)
    ensures forall c :: c in comments ==>
              (c in d.comments <==> comments[c].issue in d.issues || comments[c].author in goneUsers)
  {
    var dp := goneProjects + set p | p in projects && projects[p].author in goneUsers;
    var di := goneIssues + set i | i in issues && (issues[i].project in dp || issues[i].author in goneUsers);
    var dc := set c | c in comments && (comments[c].issue in di || comments[c].author in goneUsers);
    Doomed(goneUsers, dp, di, dc)
  }

  /** Issues that survive the delete, with SET_NULL applied to an assignee that is deleted */
  function SurvivingIssues(issues: map<IssueId, Issue>, d: Doomed): (r: map<IssueId, Issue>)
    ensures r.Keys == issues.Keys - d.issues
    ensures forall i :: i in r ==> r[i] == if issues[i].assignee.Some? && issues[i].assignee.value in d.users
                                           then issues[i].(assignee := None) else issues[i]
  {
    map i | i in issues && i !in d.issues ::
      if issues[i].assignee.Some? && issues[i].assignee.value in d.users then issues[i].(assignee := None) else issues[i]
  }

  /** Applying a closure to linked tables leaves linked tables */
  lemma CascadeKeepsLinked(users: set<UserId>, projects: map<ProjectId, Project>,
                           issues: map<IssueId, Issue>, comments: map<CommentId, Comment>,
                           goneUsers: set<UserId>, goneProjects: set<ProjectId>, goneIssues: set<IssueId>)
    requires Linked(users, projects, issues, comments)
    ensures var d := Closure(projects, issues, comments, goneUsers, goneProjects, goneIssues);
            Linked(users - d.users, projects - d.projects, SurvivingIssues(issues, d), comments - d.comments)
  {
  }

  /** SET_NULL: deleting a user who is only the assignee of an issue keeps the
      issue, with every field but the assignee unchanged. */
  lemma AssigneeDeleteNullsReference(projects: map<ProjectId, Project>, issues: map<IssueId, Issue>,
                                     comments: map<CommentId, Comment>, u: UserId, i: IssueId)
    requires i in issues && issues[i].assignee == Some(u) && issues[i].author != u
    requires issues[i].project in projects && projects[issues[i].project].author != u
    ensures var d := Closure(projects, issues, comments, {u}, {}, {});
            var r := SurvivingIssues(issues, d);
            i in r && r[i] == issues[i].(assignee := None)
  {
  }

  /** Deleting a project removes every issue of it and every comment on those issues */
  lemma ProjectDeleteRemovesChildren(projects: map<ProjectId, Project>, issues: map<IssueId, Issue>,
                                     comments: map<CommentId, Comment>, p: ProjectId)
    ensures var d := Closure(projects, issues, comments, {}, {p}, {});
            && (forall i :: i in SurvivingIssues(issues, d) ==> SurvivingIssues(issues, d)[i].project != p)
            && (forall c :: c in comments - d.comments ==> comments[c].issue in issues ==> issues[comments[c].issue].project != p)
  {
  }

  /** Deleting an issue of linked tables removes that issue and exactly the
      comments on it, and nothing else */
  lemma IssueDeleteRemovesComments(users: set<UserId>, projects: map<ProjectId, Project>, issues: map<IssueId, Issue>,
                                   comments: map<CommentId, Comment>, pk: IssueId)
    requires Linked(users, projects, issues, comments) && pk in issues
    ensures var d := Closure(projects, issues, comments, {}, {}, {pk});
            && d.users == {} && d.projects == {} && d.issues == {pk}
            && SurvivingIssues(issues, d) == issues - {pk}
            && (forall c :: c in comments ==> (c in d.comments <==> comments[c].issue == pk))
  {
    var d := Closure(projects, issues, comments, {}, {}, {pk});
    assert d.projects == {};
    assert d.issues == {pk};
    assert SurvivingIssues(issues, d) == issues - {pk};
  }
}
