/** The accounts app's permission classes, each `has_permission` and
    `has_object_permission` as a decision over the caller, the HTTP method,
    the object and the contributor table. Object-level checks that query
    the contributor table take the caller's user id: they only run after
    authentication, and a query on an anonymous user raises. */
module AccountsPermissions {
  import opened Shared
  import opened Membership
  import opened AccountsModels
  import opened Targets

  /** IsAuthorOrReadOnly.has_object_permission: reads for everybody, writes
      for the object's author. A write on an object without an author
      attribute raises, so the caller must not ask for one. */
  function IsAuthorOrReadOnly(caller: Caller, m: HttpMethod, obj: Target): (allow: bool)
    requires IsSafe(m) || obj.HasAuthor()
    ensures IsSafe(m) ==> allow
    ensures !IsSafe(m) ==> (allow <==> caller.Authenticated? && caller.id == obj.Author())
  {
    if IsSafe(m) then true else caller == Authenticated(obj.Author())
  }

  /** IsOwnerOrReadOnly.has_object_permission on a User object: reads for
      everybody, writes only on oneself. */
  function IsOwnerOrReadOnly(caller: Caller, m: HttpMethod, target: UserId): (allow: bool)
    ensures allow <==> IsSafe(m) || (caller.Authenticated? && caller.id == target)
  {
    if IsSafe(m) then true else caller == Authenticated(target)
  }

  /** IsProjectContributor.has_permission: denies the anonymous caller; under
      a project route, allows exactly the members of that project. */
  function ProjectContributorHasPermission(caller: Caller, projectPk: Option<nat>, rows: seq<ContributorRow>): (allow: bool)
    ensures caller.Anonymous? ==> !allow
    ensures caller.Authenticated? && Truthy(projectPk) ==> (allow <==> IsMember(rows, caller.id, projectPk.value))
    ensures caller.Authenticated? && !Truthy(projectPk) ==> allow
  {
    match caller
    case Anonymous => false
    case Authenticated(u) => if Truthy(projectPk) then IsMember(rows, u, projectPk.value) else true
  }

  /** The project an object belongs to: `obj.project` when it has one, else
      `obj.issue.project`, else the object itself. */
  function OwningProject(obj: Target): (p: ProjectId)
    ensures obj.IssueObj? ==> p == obj.issue.project
    ensures obj.CommentObj? ==> p == obj.issue.project
    ensures obj.ContributorObj? ==> p == obj.row.project
    ensures obj.ProjectObj? ==> p == obj.id
  {
    match obj
    case IssueObj(i) => i.project
    case ContributorObj(r) => r.project
    case CommentObj(_, i) => i.project
    case ProjectObj(id, _) => id
  }

  /** IsProjectContributor.has_object_permission: allows exactly the members
      of the project the object belongs to. */
  function ProjectContributorHasObjectPermission(user: UserId, obj: Target, rows: seq<ContributorRow>): (allow: bool)
    ensures obj.ProjectObj? ==> (allow <==> IsMember(rows, user, obj.id))
    ensures obj.IssueObj? ==> (allow <==> IsMember(rows, user, obj.issue.project))
    ensures obj.CommentObj? ==> (allow <==> IsMember(rows, user, obj.issue.project))
    ensures obj.ContributorObj? ==> (allow <==> IsMember(rows, user, obj.row.project))
  {
    IsMember(rows, user, OwningProject(obj))
  }

  /** IsProjectAuthorForContributors.has_permission: only the author of the
      project named by the route, which must exist. */
  function AuthorForContributorsHasPermission(caller: Caller, projectPk: Option<nat>, projects: map<ProjectId, Project>): (allow: bool)
    ensures allow <==> caller.Authenticated? && Truthy(projectPk) && projectPk.value in projects
                       && projects[projectPk.value].author == caller.id
  {
    match caller
    case Anonymous => false
    case Authenticated(u) =>
      if Truthy(projectPk) then
        if projectPk.value in projects then projects[projectPk.value].author == u else false
      else false
  }

  /** IsProjectAuthorForContributors.has_object_permission on a Contributor
      row: `obj.project.author`, the author of the project the row names,
      which the row's foreign key guarantees exists. */
  function AuthorForContributorsHasObjectPermission(caller: Caller, row: ContributorRow, projects: map<ProjectId, Project>): (allow: bool)
    requires row.project in projects
    ensures allow <==> caller.Authenticated? && caller.id == projects[row.project].author
  {
    caller == Authenticated(projects[row.project].author)
  }

  /** On a row of the routed project the object check repeats the route
      check: both pass exactly for that project's author. */
  lemma AuthorChecksAgreeOnRoutedRow(caller: Caller, row: ContributorRow, projects: map<ProjectId, Project>)
    requires row.project in projects && row.project != 0
    ensures AuthorForContributorsHasObjectPermission(caller, row, projects)
            <==> AuthorForContributorsHasPermission(caller, Some(row.project), projects)
  {
  }

  /** The methods CanAssignToProjectContributors inspects */
  predicate IsAssignmentWrite(m: HttpMethod) {
    m == POST || m == PUT || m == PATCH
  }

  /** CanAssignToProjectContributors.has_permission, over the request body's
      `assigned_to` and `project` values: a write that names both is allowed
      only when the pair is a contributor row; every other authenticated
      request is allowed. */
  function CanAssignHasPermission(caller: Caller, m: HttpMethod, assignedTo: Option<nat>, project: Option<nat>,
                                  rows: seq<ContributorRow>): (allow: bool)
    ensures caller.Anonymous? ==> !allow
    ensures caller.Authenticated? ==>
              (!allow <==> IsAssignmentWrite(m) && Truthy(assignedTo) && Truthy(project)
                           && !IsMember(rows, assignedTo.value, project.value))
  {
    match caller
    case Anonymous => false
    case Authenticated(_) =>
      if IsAssignmentWrite(m) && Truthy(assignedTo) && Truthy(project) then
        IsMember(rows, assignedTo.value, project.value)
      else true
  }

  /** IsProjectAuthor.has_object_permission on a Project: reads for the
      project's members, writes for its author. */
  function ProjectAuthorHasObjectPermission(user: UserId, m: HttpMethod, pid: ProjectId, project: Project,
                                            rows: seq<ContributorRow>): (allow: bool)
    ensures IsSafe(m) ==> (allow <==> IsMember(rows, user, pid))
    ensures !IsSafe(m) ==> (allow <==> user == project.author)
  {
    if IsSafe(m) then IsMember(rows, user, pid) else project.author == user
  }

  /** When the author holds a row, author-only writes are narrower than
      reads: whoever may write may read, and every other member may read but
      not write. */
  lemma WritesNarrowerThanReads(pid: ProjectId, project: Project, rows: seq<ContributorRow>, user: UserId, write: HttpMethod, read: HttpMethod)
    requires IsMember(rows, project.author, pid)
    requires !IsSafe(write) && IsSafe(read)
    ensures ProjectAuthorHasObjectPermission(user, write, pid, project, rows)
            ==> ProjectAuthorHasObjectPermission(user, read, pid, project, rows)
    ensures IsMember(rows, user, pid) && user != project.author
            ==> ProjectAuthorHasObjectPermission(user, read, pid, project, rows)
                && !ProjectAuthorHasObjectPermission(user, write, pid, project, rows)
  {
  }

  /** On any object, passing the object-level membership check is the same
      as being a member of the owning project; for a comment that project is
      reached through its issue, so a member of the issue's project may act
      on all its comments and nobody else may. */
  lemma CommentMembershipFollowsIssue(user: UserId, c1: Comment, c2: Comment, issue: Issue, rows: seq<ContributorRow>)
    ensures ProjectContributorHasObjectPermission(user, CommentObj(c1, issue), rows)
            == ProjectContributorHasObjectPermission(user, IssueObj(issue), rows)
    ensures ProjectContributorHasObjectPermission(user, CommentObj(c1, issue), rows)
            == ProjectContributorHasObjectPermission(user, CommentObj(c2, issue), rows)
  {
  }
}
