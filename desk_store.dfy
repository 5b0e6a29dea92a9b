/** The accounts and projects apps over an in-memory store: the tables as
    fields of one object, each view action and Project.save as a method.
    The views attach only IsAuthenticated; what scopes each action is its
    queryset, modelled by the lookups below. */
module DeskStore {
  import opened Shared
  import opened Membership
  import opened AccountsModels
  import Cascade
  import AgeGate
  import opened Serializers
  import opened Tables

  /** No stored user has an age below the GDPR minimum, and every age fits
      the column */
  ghost predicate AgesAllowed(users: map<UserId, User>) {
    forall u :: u in users && users[u].age.Some? ==> AgeGate.MinimumAge <= users[u].age.value <= AgeGate.MaxFieldAge
  }

  class Store {
    var users: map<UserId, User>
    var projects: map<ProjectId, Project>
    var contributors: seq<ContributorRow>
    var issues: map<IssueId, Issue>
    var comments: map<CommentId, Comment>
    /** the next primary key handed out; keys start at 1 */
    var nextId: nat
    /** the next `auto_now_add` timestamp */
    var clock: nat

    ghost predicate Valid()
      reads this
    {
      Consistent(users.Keys, projects, contributors, issues, comments, nextId, clock) && AgesAllowed(users)
    }

    constructor ()
      ensures Valid()
      ensures users == map[] && projects == map[] && contributors == [] && issues == map[] && comments == map[]
    {
      users, projects, contributors, issues, comments := map[], map[], [], map[], map[];
      nextId, clock := 1, 0;
    }

    /** The authenticated user behind a caller: authentication fails for an
        anonymous caller and for an identity whose user no longer exists. */
    function Identify(caller: Caller): (u: Option<UserId>)
      reads this
      ensures u.Some? <==> caller.Authenticated? && caller.id in users
      ensures u.Some? ==> u.value == caller.id
    {
      if caller.Authenticated? && caller.id in users then Some(caller.id) else None
    }

    /** ProjectViewSet.get_queryset: the projects a user authored or holds a row in */
    predicate Visible(u: UserId, p: ProjectId)
      reads this
    {
      p in projects && (projects[p].author == u || IsMember(contributors, u, p))
    }

    // -------------------------------------------------------------------
    // Users

    /** UserSerializer.create through the open `create` action: validate_age,
        then create the user with the model's defaults for absent consent
        flags. */
    method Register(form: UserForm) returns (r: Result<UserId>)
      requires Valid()
      modifies this
      ensures Valid()
      ensures r.Err? <==> form.age.Some? && !(AgeGate.MinimumAge <= form.age.value <= AgeGate.MaxFieldAge)
      ensures r.Err? ==> r.error == Invalid("age") && users == old(users)
      ensures r.Ok? ==> r.value !in old(users) && r.value != 0
      ensures r.Ok? ==> users == old(users)[r.value := NewUser(
                  if form.age.Some? then Some(form.age.value as nat) else None,
                  form.canBeContacted, form.canDataBeShared, form.password)]
      ensures projects == old(projects) && contributors == old(contributors)
      ensures issues == old(issues) && comments == old(comments) && clock == old(clock)
    {
      if AgeGate.CheckAgeField(form.age, AgeGate.AccountsAgeMessage).Some? {
        return Err(Invalid("age"));
      }
      var age: Option<nat> := if form.age.Some? then Some(form.age.value as nat) else None;
      var id := nextId;
      var user := NewUser(age, form.canBeContacted, form.canDataBeShared, form.password);
      UserInsertKeepsConsistent(users.Keys, projects, contributors, issues, comments, nextId, clock);
      users := users[id := user];
      assert users.Keys == old(users).Keys + {id};
      nextId := nextId + 1;
      return Ok(id);
    }

    /** UserViewSet list: the queryset is every user */
    method ListUsers(caller: Caller) returns (r: Result<set<UserId>>)
      requires Valid()
      ensures r.Err? <==> Identify(caller).None?
      ensures r.Ok? ==> r.value == users.Keys && caller.id in r.value
    {
      if Identify(caller).None? {
        return Err(NotAuthenticated);
      }
      return Ok(users.Keys);
    }

    /** UserViewSet retrieve: the queryset holds only the caller */
    method RetrieveUser(caller: Caller, target: UserId) returns (r: Result<User>)
      requires Valid()
      ensures Identify(caller).None? ==> r == Err(NotAuthenticated)
      ensures r.Ok? <==> Identify(caller) == Some(target)
      ensures r.Ok? ==> target in users && r.value == users[target]
      ensures Identify(caller).Some? && target != caller.id ==> r == Err(NotFound)
    {
      if Identify(caller).None? {
        return Err(NotAuthenticated);
      }
      if target != caller.id {
        return Err(NotFound);
      }
      return Ok(users[target]);
    }

    /** UserViewSet update / partial_update: the queryset holds only the
        caller, so any other id is not found; the age is validated as on
        registration and absent keys keep their stored values. */
    method UpdateUser(caller: Caller, target: UserId, patch: UserPatch) returns (r: Result<()>)
      requires Valid()
      modifies this`users
      ensures Valid()
      ensures Identify(caller).None? ==> r == Err(NotAuthenticated)
      ensures Identify(caller).Some? && target != caller.id ==> r == Err(NotFound)
      ensures r.Ok? <==> Identify(caller) == Some(target) && (patch.age.None? || AgeGate.MinimumAge <= patch.age.value <= AgeGate.MaxFieldAge)
      ensures r.Err? ==> users == old(users)
      ensures r.Ok? ==> users.Keys == old(users).Keys && (forall u :: u in users && u != target ==> users[u] == old(users)[u])
      ensures r.Ok? ==> var was, now := old(users)[target], users[target];
                        && (patch.age.Some? ==> now.age == Some(patch.age.value as nat))
                        && (patch.age.None? ==> now.age == was.age)
                        && now.canBeContacted == (if patch.canBeContacted.Some? then patch.canBeContacted.value else was.canBeContacted)
                        && now.canDataBeShared == (if patch.canDataBeShared.Some? then patch.canDataBeShared.value else was.canDataBeShared)
                        && now.password == (if patch.password.Some? then patch.password.value else was.password)
    {
      var me := Identify(caller);
      if me.None? {
        return Err(NotAuthenticated);
      }
      if target != me.value {
        return Err(NotFound);
      }
      if AgeGate.CheckAgeField(patch.age, AgeGate.AccountsAgeMessage).Some? {
        return Err(Invalid("age"));
      }
      var was := users[target];
      var now := User(
        if patch.age.Some? then Some(patch.age.value as nat) else was.age,
        if patch.canBeContacted.Some? then patch.canBeContacted.value else was.canBeContacted,
        if patch.canDataBeShared.Some? then patch.canDataBeShared.value else was.canDataBeShared,
        if patch.password.Some? then patch.password.value else was.password);
      users := users[target := now];
      assert users.Keys == old(users).Keys;
      return Ok(());
    }

    /** UserViewSet destroy: the queryset is every user, so any
        authenticated caller may delete any user. The delete cascades to the
        user's projects, issues, comments and contributor rows and nulls the
        assignee of the issues assigned to them. */
    method DeleteUser(caller: Caller, target: UserId) returns (r: Result<()>)
      requires Valid()
      modifies this
      ensures Valid()
      ensures r.Ok? <==> old(Identify(caller)).Some? && target in old(users)
      ensures old(Identify(caller)).None? ==> r == Err(NotAuthenticated)
      ensures r.Err? ==> users == old(users) && projects == old(projects) && contributors == old(contributors)
                         && issues == old(issues) && comments == old(comments)
      ensures r.Ok? ==>
        var d := Cascade.Closure(old(projects), old(issues), old(comments), {target}, {}, {});
        && users == old(users) - {target}
        && projects == old(projects) - d.projects
        && issues == Cascade.SurvivingIssues(old(issues), d)
        && comments == old(comments) - d.comments
        && contributors == RowsWithout(old(contributors), {target}, d.projects)
    {
      if Identify(caller).None? {
        return Err(NotAuthenticated);
      }
      if target !in users {
        return Err(NotFound);
      }
      ApplyCascade({target}, {}, {});
      return Ok(());
    }

    /** Deletes the given rows and everything the CASCADE rules take with them */
    method ApplyCascade(goneUsers: set<UserId>, goneProjects: set<ProjectId>, goneIssues: set<IssueId>)
      requires Valid()
      modifies this
      ensures Valid()
      ensures var d := Cascade.Closure(old(projects), old(issues), old(comments), goneUsers, goneProjects, goneIssues);
              && users == old(users) - d.users
              && projects == old(projects) - d.projects
              && issues == Cascade.SurvivingIssues(old(issues), d)
              && comments == old(comments) - d.comments
              && contributors == RowsWithout(old(contributors), d.users, d.projects)
      ensures nextId == old(nextId) && clock == old(clock)
    {
      var d := Cascade.Closure(projects, issues, comments, goneUsers, goneProjects, goneIssues);
      users, projects, issues, comments, contributors :=
        users - d.users, projects - d.projects, Cascade.SurvivingIssues(issues, d), comments - d.comments,
        RowsWithout(contributors, d.users, d.projects);
      assert users.Keys == old(users).Keys - d.users;
      CascadeKeepsConsistent(old(users).Keys, old(projects), old(contributors), old(issues), old(comments), nextId, clock,
                             goneUsers, goneProjects, goneIssues, users.Keys, projects, contributors, issues, comments);
    }

    // -------------------------------------------------------------------
    // Projects and their contributor rows

    /** `Contributor.objects.get_or_create(user=u, project=p, defaults={'role': role})`:
        the default role applies only when the row is created. */
    method GetOrCreateRow(u: UserId, p: ProjectId, role: Role) returns (created: bool)
      requires Valid() && u in users && p in projects
      modifies this`contributors
      ensures Valid()
      ensures created <==> !IsMember(old(contributors), u, p)
      ensures contributors == if created then old(contributors) + [Row(u, p, role)] else old(contributors)
    {
      var found := FindRow(contributors, u, p);
      if found.Some? {
        return false;
      }
      RowAppendKeepsConsistent(users.Keys, projects, contributors, issues, comments, nextId, clock, Row(u, p, role));
      contributors := contributors + [Row(u, p, role)];
      return true;
    }

    /** Project.save: a project without a primary key is inserted under a
        fresh key, stamped with the current time, and its author gets an
        AUTHOR contributor row; saving an existing project replaces its
        fields except the creation time and touches no contributor row. */
    method SaveProject(pk: Option<ProjectId>, draft: Project) returns (id: ProjectId)
      requires Valid() && draft.author in users
      requires pk.Some? ==> pk.value in projects
      modifies this
      ensures Valid()
      ensures pk.None? ==> id == old(nextId) && id !in old(projects)
                           && projects == old(projects)[id := draft.(createdTime := old(clock))]
                           && contributors == old(contributors) + [Row(draft.author, id, AuthorRole)]
      ensures pk.Some? ==> id == pk.value
                           && projects == old(projects)[id := draft.(createdTime := old(projects)[id].createdTime)]
                           && contributors == old(contributors)
      ensures users == old(users) && issues == old(issues) && comments == old(comments)
    {
      if pk.Some? {
        id := pk.value;
        var saved := draft.(createdTime := projects[id].createdTime);
        ProjectReplaceKeepsConsistent(users.Keys, projects, contributors, issues, comments, nextId, clock, id, saved);
        projects := projects[id := saved];
        return;
      }
      id := nextId;
      var saved := draft.(createdTime := clock);
      ProjectInsertKeepsConsistent(users.Keys, projects, contributors, issues, comments, nextId, clock, saved);
      projects := projects[id := saved];
      nextId := nextId + 1;
      clock := clock + 1;
      var created := GetOrCreateRow(draft.author, id, AuthorRole);
    }

    /** ProjectViewSet create: perform_create saves with the caller as author */
    method CreateProject(caller: Caller, draft: ProjectDraft) returns (r: Result<ProjectId>)
      requires Valid()
      modifies this
      ensures Valid()
      ensures r.Err? <==> old(Identify(caller)).None?
      ensures r.Err? ==> r.error == NotAuthenticated && projects == old(projects) && contributors == old(contributors)
      ensures r.Ok? ==> && r.value !in old(projects)
                        && projects == old(projects)[r.value := Project(draft.name, draft.description, draft.kind, caller.id, old(clock))]
                        && contributors == old(contributors) + [Row(caller.id, r.value, AuthorRole)]
                        && RoleOf(contributors, caller.id, r.value) == Some(AuthorRole)
                        && Visible(caller.id, r.value)
      ensures users == old(users) && issues == old(issues) && comments == old(comments)
    {
      var me := Identify(caller);
      if me.None? {
        return Err(NotAuthenticated);
      }
      var id := SaveProject(None, Project(draft.name, draft.description, draft.kind, me.value, 0));
      assert contributors[|contributors| - 1] == Row(caller.id, id, AuthorRole);
      return Ok(id);
    }

    /** ProjectViewSet update: only visible projects can be addressed; the
        write goes through ProjectSerializer, whose author and creation time
        are read-only, and the view adds no author check. */
    method UpdateProject(caller: Caller, pk: ProjectId, data: ProjectData) returns (r: Result<()>)
      requires Valid()
      modifies this
      ensures Valid()
      ensures old(Identify(caller)).None? ==> r == Err(NotAuthenticated)
      ensures r.Ok? <==> old(Identify(caller)).Some? && old(Visible(caller.id, pk))
      ensures r.Err? ==> projects == old(projects)
      ensures r.Ok? ==> pk in old(projects)
                        && projects == old(projects)[pk := ApplyProjectWrite(InputFields(ProjectRules), old(projects)[pk], data)]
                        && projects[pk].author == old(projects)[pk].author
                        && projects[pk].createdTime == old(projects)[pk].createdTime
      ensures contributors == old(contributors)
      ensures users == old(users) && issues == old(issues) && comments == old(comments)
    {
      var me := Identify(caller);
      if me.None? {
        return Err(NotAuthenticated);
      }
      if !Visible(me.value, pk) {
        return Err(NotFound);
      }
      ProjectWriteKeepsAuthor(projects[pk], data);
      var id := SaveProject(Some(pk), ApplyProjectWrite(InputFields(ProjectRules), projects[pk], data));
      return Ok(());
    }

    /** ProjectViewSet destroy: a visible project is deleted with its issues,
        their comments and its contributor rows. */
    method DeleteProject(caller: Caller, pk: ProjectId) returns (r: Result<()>)
      requires Valid()
      modifies this
      ensures Valid()
      ensures old(Identify(caller)).None? ==> r == Err(NotAuthenticated)
      ensures r.Ok? <==> old(Identify(caller)).Some? && old(Visible(caller.id, pk))
      ensures r.Err? ==> projects == old(projects) && issues == old(issues) && comments == old(comments)
                         && contributors == old(contributors)
      ensures r.Ok? ==>
        var d := Cascade.Closure(old(projects), old(issues), old(comments), {}, {pk}, {});
        && projects == old(projects) - {pk}
        && issues == old(issues) - d.issues
        && (forall i :: i in old(issues) ==> (i in issues <==> old(issues)[i].project != pk))
        && comments == old(comments) - d.comments
        && contributors == RowsWithout(old(contributors), {}, {pk})
      ensures users == old(users)
    {
      var me := Identify(caller);
      if me.None? {
        return Err(NotAuthenticated);
      }
      if !Visible(me.value, pk) {
        return Err(NotFound);
      }
      var d := Cascade.Closure(projects, issues, comments, {}, {pk}, {});
      assert d.projects == {pk};
      assert Cascade.SurvivingIssues(issues, d) == issues - d.issues;
      assert users - {} == users;
      ApplyCascade({}, {pk}, {});
      return Ok(());
    }

    /** ProjectViewSet list: the visible projects, each once, newest first */
    method ListProjects(caller: Caller) returns (r: Result<seq<ProjectId>>)
      requires Valid()
      ensures r.Err? <==> Identify(caller).None?
      ensures r.Ok? ==> forall p :: p in r.value <==> Visible(caller.id, p)
      ensures r.Ok? ==> forall a, b :: 0 <= a < b < |r.value| ==>
                          r.value[a] in projects && r.value[b] in projects
                          && projects[r.value[a]].createdTime > projects[r.value[b]].createdTime
    {
      var me := Identify(caller);
      if me.None? {
        return Err(NotAuthenticated);
      }
      var u := me.value;
      var out: seq<ProjectId> := [];
      var i: nat := nextId;
      while i > 0
        invariant i <= nextId
        invariant forall p :: p in out <==> i <= p && Visible(u, p)
        invariant forall a :: 0 <= a < |out| ==> i <= out[a] && out[a] in projects
        invariant forall a, b :: 0 <= a < b < |out| ==> projects[out[a]].createdTime > projects[out[b]].createdTime
      {
        i := i - 1;
        if Visible(u, i) {
          out := out + [i];
        }
      }
      return Ok(out);
    }

    // -------------------------------------------------------------------
    // ContributorViewSet

    /** ContributorViewSet list: the rows of the routed project; none without a project key */
    method ListContributors(caller: Caller, projectPk: Option<nat>) returns (r: Result<seq<ContributorRow>>)
      requires Valid()
      ensures r.Err? <==> Identify(caller).None?
      ensures r.Ok? && !Truthy(projectPk) ==> r.value == []
      ensures r.Ok? && Truthy(projectPk) ==>
                (forall k :: 0 <= k < |r.value| ==> r.value[k] in contributors && r.value[k].project == projectPk.value)
                && (forall k :: 0 <= k < |contributors| && contributors[k].project == projectPk.value ==> contributors[k] in r.value)
    {
      if Identify(caller).None? {
        return Err(NotAuthenticated);
      }
      if !Truthy(projectPk) {
        return Ok([]);
      }
      return Ok(RowsOf(contributors, projectPk.value));
    }

    /** ContributorViewSet create (perform_create): the routed project must
        exist, `user_id` must be given and name an existing user; the row is
        saved with the default role. There is no author check. A second row
        for the same pair is refused by the unique constraint. */
    method AddContributor(caller: Caller, projectPk: Option<nat>, userId: Option<nat>) returns (r: Result<ContributorRow>)
      requires Valid()
      modifies this
      ensures Valid()
      ensures old(Identify(caller)).None? ==> r == Err(NotAuthenticated)
      ensures old(Identify(caller)).Some? && (projectPk.None? || projectPk.value !in projects) ==> r == Err(NotFound)
      ensures old(Identify(caller)).Some? && projectPk.Some? && projectPk.value in projects && !Truthy(userId)
              ==> r == Err(Invalid("user_id"))
      ensures old(Identify(caller)).Some? && projectPk.Some? && projectPk.value in projects && Truthy(userId)
              && userId.value !in users
              ==> r == Err(NotFound)
      ensures r.Ok? <==> old(Identify(caller)).Some? && projectPk.Some? && projectPk.value in projects
                         && Truthy(userId) && userId.value in users
                         && !IsMember(old(contributors), userId.value, projectPk.value)
      ensures r.Ok? ==> r.value == Row(userId.value, projectPk.value, DefaultRole)
                        && contributors == old(contributors) + [r.value]
      ensures r.Err? ==> contributors == old(contributors)
      ensures r == Err(IntegrityError) <==> old(Identify(caller)).Some? && projectPk.Some? && projectPk.value in projects
                                            && Truthy(userId) && IsMember(old(contributors), userId.value, projectPk.value)
      ensures users == old(users) && projects == old(projects) && issues == old(issues) && comments == old(comments)
    {
      if Identify(caller).None? {
        return Err(NotAuthenticated);
      }
      if projectPk.None? || projectPk.value !in projects {
        return Err(NotFound);
      }
      if !Truthy(userId) {
        return Err(Invalid("user_id"));
      }
      if userId.value !in users {
        // every row names an existing user, so this pair has none
        return Err(NotFound);
      }
      var created := GetOrCreateRow(userId.value, projectPk.value, DefaultRole);
      if !created {
        return Err(IntegrityError);
      }
      return Ok(Row(userId.value, projectPk.value, DefaultRole));
    }

    // -------------------------------------------------------------------
    // Issues

    /** The issues IssueViewSet.get_queryset addresses: those of the routed
        project, or every issue when the route has no project key */
    predicate InIssueScope(projectPk: Option<nat>, i: IssueId)
      reads this
    {
      i in issues && (Truthy(projectPk) ==> issues[i].project == projectPk.value)
    }

    /** Saves a new issue under a fresh key with the current time */
    method InsertIssue(issue: Issue) returns (id: IssueId)
      requires Valid() && issue.project in projects && issue.author in users
      requires issue.assignee.Some? ==> issue.assignee.value in users
      modifies this`issues, this`nextId, this`clock
      ensures Valid()
      ensures id == old(nextId) && id !in old(issues)
      ensures issues == old(issues)[id := issue.(createdTime := old(clock))]
    {
      id := nextId;
      var saved := issue.(createdTime := clock);
      IssueInsertKeepsConsistent(users.Keys, projects, contributors, issues, comments, nextId, clock, saved);
      issues := issues[id := saved];
      nextId := nextId + 1;
      clock := clock + 1;
    }

    /** IssueViewSet list: the issues in scope, newest first */
    method ListIssues(caller: Caller, projectPk: Option<nat>) returns (r: Result<seq<IssueId>>)
      requires Valid()
      ensures r.Err? <==> Identify(caller).None?
      ensures r.Ok? && Truthy(projectPk) ==> forall i :: i in r.value <==> i in issues && issues[i].project == projectPk.value
      ensures r.Ok? && !Truthy(projectPk) ==> forall i :: i in r.value <==> i in issues
      ensures r.Ok? ==> forall a, b :: 0 <= a < b < |r.value| ==>
                          r.value[a] in issues && r.value[b] in issues
                          && issues[r.value[a]].createdTime > issues[r.value[b]].createdTime
    {
      if Identify(caller).None? {
        return Err(NotAuthenticated);
      }
      var out: seq<IssueId> := [];
      var i: nat := nextId;
      while i > 0
        invariant i <= nextId
        invariant forall x :: x in out <==> i <= x && InIssueScope(projectPk, x)
        invariant forall a :: 0 <= a < |out| ==> i <= out[a] && out[a] in issues
        invariant forall a, b :: 0 <= a < b < |out| ==> issues[out[a]].createdTime > issues[out[b]].createdTime
      {
        i := i - 1;
        if InIssueScope(projectPk, i) {
          out := out + [i];
        }
      }
      return Ok(out);
    }

    /** IssueViewSet create: the body is validated first (an assignee must be
        an existing user, member or not), then perform_create saves the issue
        under the routed project with the caller as author. Without a
        project key nothing sets the issue's project and the not-null
        constraint refuses the row. */
    method CreateIssue(caller: Caller, projectPk: Option<nat>, form: IssueForm) returns (r: Result<IssueId>)
      requires Valid()
      modifies this`issues, this`nextId, this`clock
      ensures Valid()
      ensures Identify(caller).None? ==> r == Err(NotAuthenticated)
      ensures Identify(caller).Some? && form.assignee.Some? && form.assignee.value !in users ==> r == Err(Invalid("assignee"))
      ensures Identify(caller).Some? && (form.assignee.None? || form.assignee.value in users) && !Truthy(projectPk)
              ==> r == Err(IntegrityError)
      ensures Identify(caller).Some? && (form.assignee.None? || form.assignee.value in users)
              && Truthy(projectPk) && projectPk.value !in projects
              ==> r == Err(NotFound)
      ensures r.Ok? <==> Identify(caller).Some? && (form.assignee.None? || form.assignee.value in users)
                         && Truthy(projectPk) && projectPk.value in projects
      ensures r.Err? ==> issues == old(issues)
      ensures r.Ok? ==> && r.value !in old(issues)
                        && issues == old(issues)[r.value := Issue(
                             form.title, form.description, form.tag, form.priority,
                             if form.status.Some? then form.status.value else DefaultStatus,
                             projectPk.value, caller.id, form.assignee, old(clock))]
      ensures users == old(users) && projects == old(projects) && contributors == old(contributors) && comments == old(comments)
    {
      var me := Identify(caller);
      if me.None? {
        return Err(NotAuthenticated);
      }
      if form.assignee.Some? && form.assignee.value !in users {
        return Err(Invalid("assignee"));
      }
      if !Truthy(projectPk) {
        return Err(IntegrityError);
      }
      if projectPk.value !in projects {
        return Err(NotFound);
      }
      var id := InsertIssue(Issue(form.title, form.description, form.tag, form.priority,
                                  if form.status.Some? then form.status.value else DefaultStatus,
                                  projectPk.value, me.value, form.assignee, 0));
      return Ok(id);
    }

    /** IssueViewSet update: an issue in scope is rewritten through the
        projects IssueSerializer, whose project, author and creation time
        are read-only; a new assignee must be an existing user. */
    method UpdateIssue(caller: Caller, projectPk: Option<nat>, pk: IssueId, data: IssueData) returns (r: Result<()>)
      requires Valid()
      modifies this`issues
      ensures Valid()
      ensures r.Ok? <==> Identify(caller).Some? && old(InIssueScope(projectPk, pk))
                         && (data.assignee.None? || data.assignee.value.None? || data.assignee.value.value in users)
      ensures r.Err? ==> issues == old(issues)
      ensures r.Ok? ==> pk in old(issues)
                        && issues == old(issues)[pk := ApplyIssueWrite(InputFields(ProjectsIssueRules), old(issues)[pk], data)]
                        && issues[pk].project == old(issues)[pk].project
                        && issues[pk].author == old(issues)[pk].author
                        && issues[pk].createdTime == old(issues)[pk].createdTime
    {
      var me := Identify(caller);
      if me.None? {
        return Err(NotAuthenticated);
      }
      if !InIssueScope(projectPk, pk) {
        return Err(NotFound);
      }
      if data.assignee.Some? && data.assignee.value.Some? && data.assignee.value.value !in users {
        return Err(Invalid("assignee"));
      }
      var saved := ApplyIssueWrite(InputFields(ProjectsIssueRules), issues[pk], data);
      ProjectsIssueWriteKeepsOwnership(issues[pk], data);
      IssueReplaceKeepsConsistent(users.Keys, projects, contributors, issues, comments, nextId, clock, pk, saved);
      issues := issues[pk := saved];
      return Ok(());
    }

    /** IssueViewSet destroy: an issue in scope is deleted with its comments */
    method DeleteIssue(caller: Caller, projectPk: Option<nat>, pk: IssueId) returns (r: Result<()>)
      requires Valid()
      modifies this
      ensures Valid()
      ensures r.Ok? <==> old(Identify(caller)).Some? && old(InIssueScope(projectPk, pk))
      ensures r.Err? ==> issues == old(issues) && comments == old(comments)
      ensures r.Ok? ==> issues == old(issues) - {pk}
                        && (forall c :: c in comments <==> c in old(comments) && old(comments)[c].issue != pk)
                        && (forall c :: c in comments ==> comments[c] == old(comments)[c])
      ensures users == old(users) && projects == old(projects) && contributors == old(contributors)
    {
      var me := Identify(caller);
      if me.None? {
        return Err(NotAuthenticated);
      }
      if !InIssueScope(projectPk, pk) {
        return Err(NotFound);
      }
      Cascade.IssueDeleteRemovesComments(users.Keys, projects, issues, comments, pk);
      RowsWithoutNothing(contributors);
      assert users - {} == users && projects - {} == projects;
      ApplyCascade({}, {}, {pk});
      return Ok(());
    }

    // -------------------------------------------------------------------
    // Comments

    /** The comments CommentViewSet.get_queryset addresses: those of the
        routed issue, none without an issue key */
    predicate InCommentScope(issuePk: Option<nat>, c: CommentId)
      reads this
    {
      Truthy(issuePk) && c in comments && comments[c].issue == issuePk.value
    }

    /** Saves a new comment under a fresh key with the current time */
    method InsertComment(comment: Comment) returns (id: CommentId)
      requires Valid() && comment.issue in issues && comment.author in users
      modifies this`comments, this`nextId, this`clock
      ensures Valid()
      ensures id == old(nextId) && id !in old(comments)
      ensures comments == old(comments)[id := comment.(createdTime := old(clock))]
    {
      id := nextId;
      var saved := comment.(createdTime := clock);
      CommentInsertKeepsConsistent(users.Keys, projects, contributors, issues, comments, nextId, clock, saved);
      comments := comments[id := saved];
      nextId := nextId + 1;
      clock := clock + 1;
    }

    /** CommentViewSet list: the comments of the routed issue, oldest first */
    method ListComments(caller: Caller, issuePk: Option<nat>) returns (r: Result<seq<CommentId>>)
      requires Valid()
      ensures r.Err? <==> Identify(caller).None?
      ensures r.Ok? ==> forall c :: c in r.value <==> InCommentScope(issuePk, c)
      ensures r.Ok? && !Truthy(issuePk) ==> r.value == []
      ensures r.Ok? ==> forall a, b :: 0 <= a < b < |r.value| ==>
                          r.value[a] in comments && r.value[b] in comments
                          && comments[r.value[a]].createdTime < comments[r.value[b]].createdTime
    {
      if Identify(caller).None? {
        return Err(NotAuthenticated);
      }
      if !Truthy(issuePk) {
        return Ok([]);
      }
      var out: seq<CommentId> := [];
      var i: nat := 0;
      while i < nextId
        invariant i <= nextId
        invariant forall x: nat :: x in out <==> x < i && InCommentScope(issuePk, x)
        invariant forall a :: 0 <= a < |out| ==> out[a] < i && out[a] in comments
        invariant forall a, b :: 0 <= a < b < |out| ==> comments[out[a]].createdTime < comments[out[b]].createdTime
      {
        if InCommentScope(issuePk, i) {
          out := out + [i];
        }
        i := i + 1;
      }
      return Ok(out);
    }

    /** CommentViewSet create: the routed issue must exist; the comment is
        saved with the caller as author under that issue. */
    method CreateComment(caller: Caller, issuePk: Option<nat>, description: string) returns (r: Result<CommentId>)
      requires Valid()
      modifies this`comments, this`nextId, this`clock
      ensures Valid()
      ensures Identify(caller).None? ==> r == Err(NotAuthenticated)
      ensures Identify(caller).Some? && (issuePk.None? || issuePk.value !in issues) ==> r == Err(NotFound)
      ensures r.Ok? <==> Identify(caller).Some? && issuePk.Some? && issuePk.value in issues
      ensures r.Err? ==> comments == old(comments)
      ensures r.Ok? ==> r.value !in old(comments)
                        && comments == old(comments)[r.value := Comment(description, issuePk.value, caller.id, old(clock))]
      ensures users == old(users) && projects == old(projects) && contributors == old(contributors) && issues == old(issues)
    {
      var me := Identify(caller);
      if me.None? {
        return Err(NotAuthenticated);
      }
      if issuePk.None? || issuePk.value !in issues {
        return Err(NotFound);
      }
      var id := InsertComment(Comment(description, issuePk.value, me.value, 0));
      return Ok(id);
    }
  }
}
