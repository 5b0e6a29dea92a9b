/** The projects app's copy of the permission classes. It is kept apart
    from the accounts app's copy because the two differ: this
    IsProjectContributor.has_permission checks authentication only. */
module ProjectsPermissions {
  import opened Shared
  import opened Membership
  import opened AccountsModels
  import opened Targets
  import Accounts = AccountsPermissions

  /** IsAuthorOrReadOnly.has_object_permission */
  function IsAuthorOrReadOnly(caller: Caller, m: HttpMethod, obj: Target): (allow: bool)
    requires IsSafe(m) || obj.HasAuthor()
    ensures IsSafe(m) ==> allow
    ensures !IsSafe(m) ==> (allow <==> caller.Authenticated? && caller.id == obj.Author())
  {
    if IsSafe(m) then true else caller == Authenticated(obj.Author())
  }

  /** IsProjectContributor.has_permission: authentication only, no
      membership query, whatever the route. */
  function ProjectContributorHasPermission(caller: Caller): (allow: bool)
    ensures allow <==> caller.Authenticated?
  {
    caller.Authenticated?
  }

  /** The project an object belongs to: `project`, else `issue.project`,
      else the object itself */
  function OwningProject(obj: Target): (p: ProjectId)
    ensures obj.IssueObj? ==> p == obj.issue.project
    ensures obj.CommentObj? ==> p == obj.issue.project
    ensures obj.ContributorObj? ==> p == obj.row.project
    ensures obj.ProjectObj? ==> p == obj.id
  {
    match obj
    case IssueObj(i) => i.project
    case ContributorObj(r) => r.project
    case CommentObj(_, i) => i.project
    case ProjectObj(id, _) => id
  }

  /** IsProjectContributor.has_object_permission */
  function ProjectContributorHasObjectPermission(user: UserId, obj: Target, rows: seq<ContributorRow>): (allow: bool)
    ensures obj.ProjectObj? ==> (allow <==> IsMember(rows, user, obj.id))
    ensures obj.IssueObj? ==> (allow <==> IsMember(rows, user, obj.issue.project))
    ensures obj.CommentObj? ==> (allow <==> IsMember(rows, user, obj.issue.project))
    ensures obj.ContributorObj? ==> (allow <==> IsMember(rows, user, obj.row.project))
  {
    IsMember(rows, user, OwningProject(obj))
  }

  /** CanAssignToProjectContributors.has_permission */
  function CanAssignHasPermission(caller: Caller, m: HttpMethod, assignedTo: Option<nat>, project: Option<nat>,
                                  rows: seq<ContributorRow>): (allow: bool)
    ensures caller.Anonymous? ==> !allow
    ensures caller.Authenticated? ==>
              (!allow <==> (m == POST || m == PUT || m == PATCH) && Truthy(assignedTo) && Truthy(project)
                           && !IsMember(rows, assignedTo.value, project.value))
  {
    match caller
    case Anonymous => false
    case Authenticated(_) =>
      if (m == POST || m == PUT || m == PATCH) && Truthy(assignedTo) && Truthy(project) then
        IsMember(rows, assignedTo.value, project.value)
      else true
  }

  /** IsProjectAuthor.has_object_permission on a Project */
  function ProjectAuthorHasObjectPermission(user: UserId, m: HttpMethod, pid: ProjectId, project: Project,
                                            rows: seq<ContributorRow>): (allow: bool)
    ensures IsSafe(m) ==> (allow <==> IsMember(rows, user, pid))
    ensures !IsSafe(m) ==> (allow <==> user == project.author)
  {
    if IsSafe(m) then IsMember(rows, user, pid) else project.author == user
  }

  // ---------------------------------------------------------------------
  // The two copies compared

  /** The route-level contributor gates diverge: whatever the accounts copy
      allows, this copy allows; this copy allows more exactly when the route
      names a project the authenticated caller has no row in. */
  lemma ContributorGatesDiverge(caller: Caller, projectPk: Option<nat>, rows: seq<ContributorRow>)
    ensures Accounts.ProjectContributorHasPermission(caller, projectPk, rows) ==> ProjectContributorHasPermission(caller)
    ensures (ProjectContributorHasPermission(caller) && !Accounts.ProjectContributorHasPermission(caller, projectPk, rows))
            <==> caller.Authenticated? && Truthy(projectPk) && !IsMember(rows, caller.id, projectPk.value)
  {
  }

  /** An outsider is stopped at the route by the accounts copy and let
      through by this one */
  lemma OutsiderPassesOnlyHere(u: UserId, p: ProjectId, rows: seq<ContributorRow>)
    requires p != 0 && !IsMember(rows, u, p)
    ensures !Accounts.ProjectContributorHasPermission(Authenticated(u), Some(p), rows)
    ensures ProjectContributorHasPermission(Authenticated(u))
  {
  }

  /** Every other class of this copy decides exactly as its namesake in the
      accounts copy. */
  lemma OtherChecksAgree(caller: Caller, user: UserId, m: HttpMethod, obj: Target, assignedTo: Option<nat>,
                         project: Option<nat>, pid: ProjectId, p: Project, rows: seq<ContributorRow>)
    ensures IsSafe(m) || obj.HasAuthor() ==>
              IsAuthorOrReadOnly(caller, m, obj) == Accounts.IsAuthorOrReadOnly(caller, m, obj)
    ensures ProjectContributorHasObjectPermission(user, obj, rows) == Accounts.ProjectContributorHasObjectPermission(user, obj, rows)
    ensures CanAssignHasPermission(caller, m, assignedTo, project, rows) == Accounts.CanAssignHasPermission(caller, m, assignedTo, project, rows)
    ensures ProjectAuthorHasObjectPermission(user, m, pid, p, rows) == Accounts.ProjectAuthorHasObjectPermission(user, m, pid, p, rows)
  {
  }
}
