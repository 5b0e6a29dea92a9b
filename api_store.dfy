/** The api app over an in-memory store: the tables as fields of one object,
    each view action as a method. Every view but user registration attaches
    IsAuthenticated; projects are scoped to their author and contributors,
    and the nested contributor, issue and comment routes are scoped by the
    keys in the route. */
module ApiStore {
  import opened Shared
  import opened Membership
  import opened ApiModels
  import Cascade
  import AgeGate
  import opened Serializers
  import opened Tables

  /** No stored user is younger than the GDPR minimum, and every age fits
      the column */
  ghost predicate AgesAllowed(users: map<UserId, ApiUser>) {
    forall u :: u in users ==> AgeGate.MinimumAge <= users[u].age <= AgeGate.MaxFieldAge
  }

  class ApiStore {
    var users: map<UserId, ApiUser>
    var projects: map<ProjectId, Project>
    var contributors: seq<ApiRow>
    var issues: map<IssueId, Issue>
    var comments: map<CommentId, Comment>
    /** the next primary key handed out; keys start at 1 */
    var nextId: nat
    /** the next `auto_now_add` timestamp */
    var clock: nat

    ghost predicate Valid()
      reads this
    {
      Consistent(users.Keys, projects, contributors, issues, comments, nextId, clock) && AgesAllowed(users)
    }

    constructor ()
      ensures Valid()
      ensures users == map[] && projects == map[] && contributors == [] && issues == map[] && comments == map[]
    {
      users, projects, contributors, issues, comments := map[], map[], [], map[], map[];
      nextId, clock := 1, 0;
    }

    /** The authenticated user behind a caller: authentication fails for an
        anonymous caller and for an identity whose user no longer exists. */
    function Identify(caller: Caller): (u: Option<UserId>)
      reads this
      ensures u.Some? <==> caller.Authenticated? && caller.id in users
      ensures u.Some? ==> u.value == caller.id
    {
      if caller.Authenticated? && caller.id in users then Some(caller.id) else None
    }

    /** ProjectViewSet.get_queryset: the projects a user authored or holds a row in */
    predicate Visible(u: UserId, p: ProjectId)
      reads this
    {
      p in projects && (projects[p].author == u || IsMember(contributors, u, p))
    }

    /** `project.author == request.user` on an existing project */
    predicate Authors(u: UserId, p: ProjectId)
      reads this
    {
      p in projects && projects[p].author == u
    }

    // -------------------------------------------------------------------
    // Users

    /** UserSerializer.create through the open `create` action: validate_age,
        then create the user with the model's defaults (age 18, both flags
        false) for absent keys. */
    method Register(form: UserForm) returns (r: Result<UserId>)
      requires Valid()
      modifies this`users, this`nextId
      ensures Valid()
      ensures r.Err? <==> form.age.Some? && !(AgeGate.MinimumAge <= form.age.value <= AgeGate.MaxFieldAge)
      ensures r.Err? ==> r.error == Invalid("age") && users == old(users)
      ensures r.Ok? ==> r.value !in old(users) && r.value != 0
      ensures r.Ok? ==> users == old(users)[r.value := NewApiUser(
                  if form.age.Some? then Some(form.age.value as nat) else None,
                  form.canBeContacted, form.canDataBeShared, form.password)]
    {
      if AgeGate.CheckAgeField(form.age, AgeGate.ApiAgeMessage).Some? {
        return Err(Invalid("age"));
      }
      var age: Option<nat> := if form.age.Some? then Some(form.age.value as nat) else None;
      var id := nextId;
      var user := NewApiUser(age, form.canBeContacted, form.canDataBeShared, form.password);
      UserInsertKeepsConsistent(users.Keys, projects, contributors, issues, comments, nextId, clock);
      users := users[id := user];
      assert users.Keys == old(users).Keys + {id};
      nextId := nextId + 1;
      return Ok(id);
    }

    /** UserViewSet list: the queryset is every user */
    method ListUsers(caller: Caller) returns (r: Result<set<UserId>>)
      requires Valid()
      ensures r.Err? <==> Identify(caller).None?
      ensures r.Ok? ==> r.value == users.Keys && caller.id in r.value
    {
      if Identify(caller).None? {
        return Err(NotAuthenticated);
      }
      return Ok(users.Keys);
    }

    /** UserViewSet retrieve: the queryset holds only the caller */
    method RetrieveUser(caller: Caller, target: UserId) returns (r: Result<ApiUser>)
      requires Valid()
      ensures Identify(caller).None? ==> r == Err(NotAuthenticated)
      ensures r.Ok? <==> Identify(caller) == Some(target)
      ensures r.Ok? ==> target in users && r.value == users[target]
      ensures Identify(caller).Some? && target != caller.id ==> r == Err(NotFound)
    {
      if Identify(caller).None? {
        return Err(NotAuthenticated);
      }
      if target != caller.id {
        return Err(NotFound);
      }
      return Ok(users[target]);
    }

    /** UserViewSet update / partial_update: the queryset holds only the
        caller, so any other id is not found; the age is validated as on
        registration and absent keys keep their stored values. */
    method UpdateUser(caller: Caller, target: UserId, patch: UserPatch) returns (r: Result<()>)
      requires Valid()
      modifies this`users
      ensures Valid()
      ensures Identify(caller).None? ==> r == Err(NotAuthenticated)
      ensures Identify(caller).Some? && target != caller.id ==> r == Err(NotFound)
      ensures r.Ok? <==> Identify(caller) == Some(target) && (patch.age.None? || AgeGate.MinimumAge <= patch.age.value <= AgeGate.MaxFieldAge)
      ensures r.Err? ==> users == old(users)
      ensures r.Ok? ==> users.Keys == old(users).Keys && (forall u :: u in users && u != target ==> users[u] == old(users)[u])
      ensures r.Ok? ==> var was, now := old(users)[target], users[target];
                        && now.age == (if patch.age.Some? then patch.age.value as nat else was.age)
                        && now.canBeContacted == (if patch.canBeContacted.Some? then patch.canBeContacted.value else was.canBeContacted)
                        && now.canDataBeShared == (if patch.canDataBeShared.Some? then patch.canDataBeShared.value else was.canDataBeShared)
                        && now.password == (if patch.password.Some? then patch.password.value else was.password)
    {
      var me := Identify(caller);
      if me.None? {
        return Err(NotAuthenticated);
      }
      if target != me.value {
        return Err(NotFound);
      }
      if AgeGate.CheckAgeField(patch.age, AgeGate.ApiAgeMessage).Some? {
        return Err(Invalid("age"));
      }
      var was := users[target];
      var now := ApiUser(
        if patch.age.Some? then patch.age.value as nat else was.age,
        if patch.canBeContacted.Some? then patch.canBeContacted.value else was.canBeContacted,
        if patch.canDataBeShared.Some? then patch.canDataBeShared.value else was.canDataBeShared,
        if patch.password.Some? then patch.password.value else was.password);
      users := users[target := now];
      assert users.Keys == old(users).Keys;
      return Ok(());
    }

    /** The `profile` action with PUT or PATCH: a partial update of the
        caller's own record. Unlike `update`, there is no id to get wrong: an
        authenticated caller is refused only by the age check. */
    method UpdateProfile(caller: Caller, patch: UserPatch) returns (r: Result<()>)
      requires Valid()
      modifies this`users
      ensures Valid()
      ensures Identify(caller).None? ==> r == Err(NotAuthenticated)
      ensures r.Ok? <==> Identify(caller).Some? && (patch.age.None? || AgeGate.MinimumAge <= patch.age.value <= AgeGate.MaxFieldAge)
      ensures r.Err? ==> users == old(users)
      ensures r.Ok? ==> users.Keys == old(users).Keys && (forall u :: u in users && u != caller.id ==> users[u] == old(users)[u])
      ensures r.Ok? ==> var was, now := old(users)[caller.id], users[caller.id];
                        && now.age == (if patch.age.Some? then patch.age.value as nat else was.age)
                        && now.canBeContacted == (if patch.canBeContacted.Some? then patch.canBeContacted.value else was.canBeContacted)
                        && now.canDataBeShared == (if patch.canDataBeShared.Some? then patch.canDataBeShared.value else was.canDataBeShared)
                        && now.password == (if patch.password.Some? then patch.password.value else was.password)
    {
      if Identify(caller).None? {
        return Err(NotAuthenticated);
      }
      r := UpdateUser(caller, caller.id, patch);
    }

    /** UserViewSet destroy: the queryset is every user, so any
        authenticated caller may delete any user. The delete cascades to the
        user's projects, issues, comments and contributor rows and nulls the
        assignee of the issues assigned to them. */
    method DeleteUser(caller: Caller, target: UserId) returns (r: Result<()>)
      requires Valid()
      modifies this
      ensures Valid()
      ensures r.Ok? <==> old(Identify(caller)).Some? && target in old(users)
      ensures old(Identify(caller)).None? ==> r == Err(NotAuthenticated)
      ensures r.Err? ==> users == old(users) && projects == old(projects) && contributors == old(contributors)
                         && issues == old(issues) && comments == old(comments)
      ensures r.Ok? ==>
        var d := Cascade.Closure(old(projects), old(issues), old(comments), {target}, {}, {});
        && users == old(users) - {target}
        && projects == old(projects) - d.projects
        && issues == Cascade.SurvivingIssues(old(issues), d)
        && comments == old(comments) - d.comments
        && contributors == RowsWithout(old(contributors), {target}, d.projects)
    {
      if Identify(caller).None? {
        return Err(NotAuthenticated);
      }
      if target !in users {
        return Err(NotFound);
      }
      ApplyCascade({target}, {}, {});
      return Ok(());
    }

    /** Deletes the given rows and everything the CASCADE rules take with them */
    method ApplyCascade(goneUsers: set<UserId>, goneProjects: set<ProjectId>, goneIssues: set<IssueId>)
      requires Valid()
      modifies this
      ensures Valid()
      ensures var d := Cascade.Closure(old(projects), old(issues), old(comments), goneUsers, goneProjects, goneIssues);
              && users == old(users) - d.users
              && projects == old(projects) - d.projects
              && issues == Cascade.SurvivingIssues(old(issues), d)
              && comments == old(comments) - d.comments
              && contributors == RowsWithout(old(contributors), d.users, d.projects)
      ensures nextId == old(nextId) && clock == old(clock)
    {
      var d := Cascade.Closure(projects, issues, comments, goneUsers, goneProjects, goneIssues);
      users, projects, issues, comments, contributors :=
        users - d.users, projects - d.projects, Cascade.SurvivingIssues(issues, d), comments - d.comments,
        RowsWithout(contributors, d.users, d.projects);
      assert users.Keys == old(users).Keys - d.users;
      CascadeKeepsConsistent(old(users).Keys, old(projects), old(contributors), old(issues), old(comments), nextId, clock,
                             goneUsers, goneProjects, goneIssues, users.Keys, projects, contributors, issues, comments);
    }

    // -------------------------------------------------------------------
    // Projects

    /** ProjectViewSet list: the visible projects, each once */
    method ListProjects(caller: Caller) returns (r: Result<set<ProjectId>>)
      requires Valid()
      ensures r.Err? <==> Identify(caller).None?
      ensures r.Ok? ==> forall p :: p in r.value <==> Visible(caller.id, p)
      ensures r.Ok? ==> forall p :: Authors(caller.id, p) ==> p in r.value
    {
      if Identify(caller).None? {
        return Err(NotAuthenticated);
      }
      return Ok(set p | p in projects && Visible(caller.id, p));
    }

    /** ProjectViewSet create: perform_create saves with the caller as
        author. There is no save override, so no contributor row is made:
        the creator sees the project as its author, not as a member. */
    method CreateProject(caller: Caller, draft: ProjectDraft) returns (r: Result<ProjectId>)
      requires Valid()
      modifies this`projects, this`nextId, this`clock
      ensures Valid()
      ensures r.Err? <==> Identify(caller).None?
      ensures r.Err? ==> r.error == NotAuthenticated && projects == old(projects)
      ensures r.Ok? ==> && r.value !in old(projects)
                        && projects == old(projects)[r.value := Project(draft.name, draft.description, draft.kind, caller.id, old(clock))]
                        && !IsMember(contributors, caller.id, r.value)
                        && Visible(caller.id, r.value)
    {
      var me := Identify(caller);
      if me.None? {
        return Err(NotAuthenticated);
      }
      var id := nextId;
      var saved := Project(draft.name, draft.description, draft.kind, me.value, clock);
      ProjectInsertKeepsConsistent(users.Keys, projects, contributors, issues, comments, nextId, clock, saved);
      projects := projects[id := saved];
      nextId := nextId + 1;
      clock := clock + 1;
      return Ok(id);
    }

    /** ProjectViewSet update / partial_update: the stock update over the
        visible queryset, so any member who can see the project may rewrite
        it, not only its author; author and creation time are read-only. */
    method UpdateProject(caller: Caller, pk: ProjectId, data: ProjectData) returns (r: Result<()>)
      requires Valid()
      modifies this`projects
      ensures Valid()
      ensures Identify(caller).None? ==> r == Err(NotAuthenticated)
      ensures Identify(caller).Some? && !old(Visible(caller.id, pk)) ==> r == Err(NotFound)
      ensures r.Ok? <==> Identify(caller).Some? && old(Visible(caller.id, pk))
      ensures r.Err? ==> projects == old(projects)
      ensures r.Ok? ==> pk in old(projects)
                        && projects == old(projects)[pk := ApplyProjectWrite(InputFields(ProjectRules), old(projects)[pk], data)]
                        && projects[pk].author == old(projects)[pk].author
                        && projects[pk].createdTime == old(projects)[pk].createdTime
    {
      if Identify(caller).None? {
        return Err(NotAuthenticated);
      }
      if !Visible(caller.id, pk) {
        return Err(NotFound);
      }
      var q := ApplyProjectWrite(InputFields(ProjectRules), projects[pk], data);
      ProjectWriteKeepsAuthor(projects[pk], data);
      ProjectReplaceKeepsConsistent(users.Keys, projects, contributors, issues, comments, nextId, clock, pk, q);
      projects := projects[pk := q];
      return Ok(());
    }

    /** ProjectViewSet destroy: a visible project is deleted with its issues,
        their comments and its contributor rows. */
    method DeleteProject(caller: Caller, pk: ProjectId) returns (r: Result<()>)
      requires Valid()
      modifies this
      ensures Valid()
      ensures old(Identify(caller)).None? ==> r == Err(NotAuthenticated)
      ensures r.Ok? <==> old(Identify(caller)).Some? && old(Visible(caller.id, pk))
      ensures r.Err? ==> projects == old(projects) && issues == old(issues) && comments == old(comments)
                         && contributors == old(contributors)
      ensures r.Ok? ==>
        var d := Cascade.Closure(old(projects), old(issues), old(comments), {}, {pk}, {});
        && projects == old(projects) - {pk}
        && issues == old(issues) - d.issues
        && (forall i :: i in old(issues) ==> (i in issues <==> old(issues)[i].project != pk))
        && comments == old(comments) - d.comments
        && contributors == RowsWithout(old(contributors), {}, {pk})
      ensures users == old(users)
    {
      var me := Identify(caller);
      if me.None? {
        return Err(NotAuthenticated);
      }
      if !Visible(me.value, pk) {
        return Err(NotFound);
      }
      var d := Cascade.Closure(projects, issues, comments, {}, {pk}, {});
      assert d.projects == {pk};
      assert Cascade.SurvivingIssues(issues, d) == issues - d.issues;
      assert users - {} == users;
      ApplyCascade({}, {pk}, {});
      return Ok(());
    }

    // -------------------------------------------------------------------
    // The `contributors` action on a project

    /** GET: the rows of a visible project */
    method ProjectContributors(caller: Caller, pk: ProjectId) returns (r: Result<seq<ApiRow>>)
      requires Valid()
      ensures Identify(caller).None? ==> r == Err(NotAuthenticated)
      ensures r.Ok? <==> Identify(caller).Some? && Visible(caller.id, pk)
      ensures r.Ok? ==> (forall k :: 0 <= k < |r.value| ==> r.value[k] in contributors && r.value[k].project == pk)
                        && (forall u :: IsMember(contributors, u, pk) ==> Row(u, pk, ()) in r.value)
    {
      if Identify(caller).None? {
        return Err(NotAuthenticated);
      }
      if !Visible(caller.id, pk) {
        return Err(NotFound);
      }
      var rows := RowsOf(contributors, pk);
      forall u | IsMember(contributors, u, pk) ensures Row(u, pk, ()) in rows {
        var k :| 0 <= k < |contributors| && contributors[k].user == u && contributors[k].project == pk;
        assert contributors[k].role == ();
      }
      return Ok(rows);
    }

    /** POST: the project must be visible, and then only its author may add;
        `user_id` must name an existing user (an absent id finds none); the
        row is made by get_or_create, and an existing row is refused. */
    method AddContributor(caller: Caller, pk: ProjectId, userId: Option<nat>) returns (r: Result<ApiRow>)
      requires Valid()
      modifies this`contributors
      ensures Valid()
      ensures Identify(caller).None? ==> r == Err(NotAuthenticated)
      ensures Identify(caller).Some? && !old(Visible(caller.id, pk)) ==> r == Err(NotFound)
      ensures Identify(caller).Some? && old(Visible(caller.id, pk)) && !Authors(caller.id, pk) ==> r == Err(PermissionDenied)
      ensures Identify(caller).Some? && Authors(caller.id, pk) && (userId.None? || userId.value !in users) ==> r == Err(NotFound)
      ensures r == Err(AlreadyContributor) <==> Identify(caller).Some? && Authors(caller.id, pk) && userId.Some?
                                                && IsMember(old(contributors), userId.value, pk)
      ensures r.Ok? <==> Identify(caller).Some? && Authors(caller.id, pk) && userId.Some? && userId.value in users
                         && !IsMember(old(contributors), userId.value, pk)
      ensures r.Ok? ==> r.value == Row(userId.value, pk, ()) && contributors == old(contributors) + [r.value]
                        && IsMember(contributors, userId.value, pk)
      ensures r.Err? ==> contributors == old(contributors)
    {
      if Identify(caller).None? {
        return Err(NotAuthenticated);
      }
      if !Visible(caller.id, pk) {
        return Err(NotFound);
      }
      if projects[pk].author != caller.id {
        return Err(PermissionDenied);
      }
      if userId.None? || userId.value !in users {
        // every row names an existing user, so this pair has none
        return Err(NotFound);
      }
      var found := FindRow(contributors, userId.value, pk);
      if found.Some? {
        return Err(AlreadyContributor);
      }
      var row := Row(userId.value, pk, ());
      RowAppendKeepsConsistent(users.Keys, projects, contributors, issues, comments, nextId, clock, row);
      contributors := contributors + [row];
      assert contributors[|contributors| - 1] == row;
      return Ok(row);
    }

    /** DELETE: the project must be visible, and then only its author may
        remove; `user_id` must name an existing user who holds a row. Exactly
        that row goes; nothing stops the author from removing a row of their
        own or the last one. */
    method RemoveContributor(caller: Caller, pk: ProjectId, userId: Option<nat>) returns (r: Result<()>)
      requires Valid()
      modifies this`contributors
      ensures Valid()
      ensures Identify(caller).None? ==> r == Err(NotAuthenticated)
      ensures Identify(caller).Some? && !old(Visible(caller.id, pk)) ==> r == Err(NotFound)
      ensures Identify(caller).Some? && old(Visible(caller.id, pk)) && !Authors(caller.id, pk) ==> r == Err(PermissionDenied)
      ensures Identify(caller).Some? && Authors(caller.id, pk) && (userId.None? || !IsMember(old(contributors), userId.value, pk))
              ==> r == Err(NotFound)
      ensures r.Ok? <==> Identify(caller).Some? && Authors(caller.id, pk) && userId.Some?
                         && IsMember(old(contributors), userId.value, pk)
      ensures r.Ok? ==> && multiset(contributors) + multiset{Row(userId.value, pk, ())} == multiset(old(contributors))
                        && !IsMember(contributors, userId.value, pk)
                        && (forall u, p :: (u != userId.value || p != pk) ==>
                              (IsMember(contributors, u, p) <==> IsMember(old(contributors), u, p)))
      ensures r.Err? ==> contributors == old(contributors)
    {
      if Identify(caller).None? {
        return Err(NotAuthenticated);
      }
      if !Visible(caller.id, pk) {
        return Err(NotFound);
      }
      if projects[pk].author != caller.id {
        return Err(PermissionDenied);
      }
      if userId.None? || userId.value !in users {
        return Err(NotFound);
      }
      var found := FindRow(contributors, userId.value, pk);
      if found.None? {
        return Err(NotFound);
      }
      var k := found.value;
      var rows := contributors;
      RemoveAtKeepsUnique(rows, k);
      RowRemoveKeepsConsistent(users.Keys, projects, rows, issues, comments, nextId, clock, k);
      assert rows == rows[..k] + [rows[k]] + rows[k + 1..];
      assert rows[k].role == ();
      contributors := rows[..k] + rows[k + 1..];
      return Ok(());
    }

    // -------------------------------------------------------------------
    // ContributorViewSet

    /** ContributorViewSet list: the rows of the routed project; none without a project key */
    method ListContributors(caller: Caller, projectPk: Option<nat>) returns (r: Result<seq<ApiRow>>)
      requires Valid()
      ensures r.Err? <==> Identify(caller).None?
      ensures r.Ok? && !Truthy(projectPk) ==> r.value == []
      ensures r.Ok? && Truthy(projectPk) ==>
                (forall k :: 0 <= k < |r.value| ==> r.value[k] in contributors && r.value[k].project == projectPk.value)
                && (forall k :: 0 <= k < |contributors| && contributors[k].project == projectPk.value ==> contributors[k] in r.value)
    {
      if Identify(caller).None? {
        return Err(NotAuthenticated);
      }
      if !Truthy(projectPk) {
        return Ok([]);
      }
      return Ok(RowsOf(contributors, projectPk.value));
    }

    // -------------------------------------------------------------------
    // Issues

    /** The issues IssueViewSet.get_queryset addresses: those of the routed
        project, none without a project key */
    predicate InIssueScope(projectPk: Option<nat>, i: IssueId)
      reads this
    {
      Truthy(projectPk) && i in issues && issues[i].project == projectPk.value
    }

    /** The api IssueSerializer's validation of a creation body: `project` is
        a writable, required key naming an existing project, and an assignee,
        when given, must be an existing user. The first failing field in
        declaration order is reported. */
    function IssueFormError(form: IssueForm): (e: Option<Error>)
      reads this
      ensures e.None? <==> form.project.Some? && form.project.value in projects
                           && (form.assignee.None? || form.assignee.value in users)
      ensures e.Some? ==> e.value == Invalid("project") || e.value == Invalid("assignee")
    {
      if form.project.None? || form.project.value !in projects then Some(Invalid("project"))
      else if form.assignee.Some? && form.assignee.value !in users then Some(Invalid("assignee"))
      else None
    }

    /** Saves a new issue under a fresh key with the current time */
    method InsertIssue(issue: Issue) returns (id: IssueId)
      requires Valid() && issue.project in projects && issue.author in users
      requires issue.assignee.Some? ==> issue.assignee.value in users
      modifies this`issues, this`nextId, this`clock
      ensures Valid()
      ensures id == old(nextId) && id !in old(issues)
      ensures issues == old(issues)[id := issue.(createdTime := old(clock))]
    {
      id := nextId;
      var saved := issue.(createdTime := clock);
      IssueInsertKeepsConsistent(users.Keys, projects, contributors, issues, comments, nextId, clock, saved);
      issues := issues[id := saved];
      nextId := nextId + 1;
      clock := clock + 1;
    }

    /** The issue a valid creation body describes, with the route's project and the caller as author */
    function NewIssue(form: IssueForm, project: ProjectId, author: UserId): (i: Issue)
      ensures i.project == project && i.author == author && i.assignee == form.assignee
      ensures i.status == (if form.status.Some? then form.status.value else DefaultStatus)
    {
      Issue(form.title, form.description, form.tag, form.priority,
            if form.status.Some? then form.status.value else DefaultStatus,
            project, author, form.assignee, 0)
    }

    /** IssueViewSet list: the issues of the routed project; none without a project key */
    method ListIssues(caller: Caller, projectPk: Option<nat>) returns (r: Result<set<IssueId>>)
      requires Valid()
      ensures r.Err? <==> Identify(caller).None?
      ensures r.Ok? ==> forall i :: i in r.value <==> InIssueScope(projectPk, i)
      ensures r.Ok? && !Truthy(projectPk) ==> r.value == {}
    {
      if Identify(caller).None? {
        return Err(NotAuthenticated);
      }
      return Ok(set i | i in issues && InIssueScope(projectPk, i));
    }

    /** IssueViewSet create: the body is validated first, then perform_create
        looks up the routed project (404 when absent) and saves the issue
        under it with the caller as author, whatever project the body named.
        Visibility of the routed project is not checked. */
    method CreateIssue(caller: Caller, projectPk: Option<nat>, form: IssueForm) returns (r: Result<IssueId>)
      requires Valid()
      modifies this`issues, this`nextId, this`clock
      ensures Valid()
      ensures Identify(caller).None? ==> r == Err(NotAuthenticated)
      ensures Identify(caller).Some? && IssueFormError(form).Some? ==> r == Err(IssueFormError(form).value)
      ensures Identify(caller).Some? && IssueFormError(form).None? && (projectPk.None? || projectPk.value !in projects)
              ==> r == Err(NotFound)
      ensures r.Ok? <==> Identify(caller).Some? && IssueFormError(form).None? && projectPk.Some? && projectPk.value in projects
      ensures r.Err? ==> issues == old(issues)
      ensures r.Ok? ==> r.value !in old(issues)
                        && issues == old(issues)[r.value := NewIssue(form, projectPk.value, caller.id).(createdTime := old(clock))]
    {
      if Identify(caller).None? {
        return Err(NotAuthenticated);
      }
      var invalid := IssueFormError(form);
      if invalid.Some? {
        return Err(invalid.value);
      }
      if projectPk.None? || projectPk.value !in projects {
        return Err(NotFound);
      }
      var id := InsertIssue(NewIssue(form, projectPk.value, caller.id));
      return Ok(id);
    }

    /** The `issues` action on a project, GET: the issues of a visible project */
    method ProjectIssues(caller: Caller, pk: ProjectId) returns (r: Result<set<IssueId>>)
      requires Valid()
      ensures Identify(caller).None? ==> r == Err(NotAuthenticated)
      ensures r.Ok? <==> Identify(caller).Some? && Visible(caller.id, pk)
      ensures r.Ok? ==> forall i :: i in r.value <==> i in issues && issues[i].project == pk
    {
      if Identify(caller).None? {
        return Err(NotAuthenticated);
      }
      if !Visible(caller.id, pk) {
        return Err(NotFound);
      }
      return Ok(set i | i in issues && issues[i].project == pk);
    }

    /** The `issues` action on a project, POST: the project must be visible;
        the body is validated as on IssueViewSet create and the issue is
        saved under the routed project with the caller as author. */
    method CreateProjectIssue(caller: Caller, pk: ProjectId, form: IssueForm) returns (r: Result<IssueId>)
      requires Valid()
      modifies this`issues, this`nextId, this`clock
      ensures Valid()
      ensures Identify(caller).None? ==> r == Err(NotAuthenticated)
      ensures Identify(caller).Some? && !Visible(caller.id, pk) ==> r == Err(NotFound)
      ensures Identify(caller).Some? && Visible(caller.id, pk) && IssueFormError(form).Some? ==> r == Err(IssueFormError(form).value)
      ensures r.Ok? <==> Identify(caller).Some? && Visible(caller.id, pk) && IssueFormError(form).None?
      ensures r.Err? ==> issues == old(issues)
      ensures r.Ok? ==> r.value !in old(issues)
                        && issues == old(issues)[r.value := NewIssue(form, pk, caller.id).(createdTime := old(clock))]
    {
      if Identify(caller).None? {
        return Err(NotAuthenticated);
      }
      if !Visible(caller.id, pk) {
        return Err(NotFound);
      }
      var invalid := IssueFormError(form);
      if invalid.Some? {
        return Err(invalid.value);
      }
      var id := InsertIssue(NewIssue(form, pk, caller.id));
      return Ok(id);
    }

    /** IssueViewSet update: an issue in scope is rewritten through the api
        IssueSerializer, whose author and creation time are read-only but
        whose project is writable: a body naming another existing project
        moves the issue there. */
    method UpdateIssue(caller: Caller, projectPk: Option<nat>, pk: IssueId, data: IssueData) returns (r: Result<()>)
      requires Valid()
      modifies this`issues
      ensures Valid()
      ensures Identify(caller).None? ==> r == Err(NotAuthenticated)
      ensures r.Ok? <==> Identify(caller).Some? && old(InIssueScope(projectPk, pk))
                         && (data.project.None? || data.project.value in projects)
                         && (data.assignee.None? || data.assignee.value.None? || data.assignee.value.value in users)
      ensures r.Err? ==> issues == old(issues)
      ensures r.Ok? ==> pk in old(issues)
                        && issues == old(issues)[pk := ApplyIssueWrite(InputFields(ApiIssueRules), old(issues)[pk], data)]
                        && issues[pk].author == old(issues)[pk].author
                        && issues[pk].createdTime == old(issues)[pk].createdTime
                        && issues[pk].project == (if data.project.Some? then data.project.value else old(issues)[pk].project)
    {
      if Identify(caller).None? {
        return Err(NotAuthenticated);
      }
      if !InIssueScope(projectPk, pk) {
        return Err(NotFound);
      }
      if data.project.Some? && data.project.value !in projects {
        return Err(Invalid("project"));
      }
      if data.assignee.Some? && data.assignee.value.Some? && data.assignee.value.value !in users {
        return Err(Invalid("assignee"));
      }
      var saved := ApplyIssueWrite(InputFields(ApiIssueRules), issues[pk], data);
      ApiIssueWriteMayMoveProject(issues[pk], data);
      IssueReplaceKeepsConsistent(users.Keys, projects, contributors, issues, comments, nextId, clock, pk, saved);
      issues := issues[pk := saved];
      return Ok(());
    }

    /** IssueViewSet destroy: an issue in scope is deleted with its comments */
    method DeleteIssue(caller: Caller, projectPk: Option<nat>, pk: IssueId) returns (r: Result<()>)
      requires Valid()
      modifies this
      ensures Valid()
      ensures r.Ok? <==> old(Identify(caller)).Some? && old(InIssueScope(projectPk, pk))
      ensures r.Err? ==> issues == old(issues) && comments == old(comments)
      ensures r.Ok? ==> issues == old(issues) - {pk}
                        && (forall c :: c in comments <==> c in old(comments) && old(comments)[c].issue != pk)
                        && (forall c :: c in comments ==> comments[c] == old(comments)[c])
      ensures users == old(users) && projects == old(projects) && contributors == old(contributors)
    {
      if Identify(caller).None? {
        return Err(NotAuthenticated);
      }
      if !InIssueScope(projectPk, pk) {
        return Err(NotFound);
      }
      Cascade.IssueDeleteRemovesComments(users.Keys, projects, issues, comments, pk);
      RowsWithoutNothing(contributors);
      assert users - {} == users && projects - {} == projects;
      ApplyCascade({}, {}, {pk});
      return Ok(());
    }

    // -------------------------------------------------------------------
    // Comments

    /** The comments CommentViewSet.get_queryset addresses: those of the
        routed issue, none without an issue key */
    predicate InCommentScope(issuePk: Option<nat>, c: CommentId)
      reads this
    {
      Truthy(issuePk) && c in comments && comments[c].issue == issuePk.value
    }

    /** The api CommentSerializer's validation of a creation body: `issue` is
        a writable, required key naming an existing issue. */
    function CommentFormError(form: CommentForm): (e: Option<Error>)
      reads this
      ensures e.None? <==> form.issue.Some? && form.issue.value in issues
      ensures e.Some? ==> e.value == Invalid("issue")
    {
      if form.issue.None? || form.issue.value !in issues then Some(Invalid("issue")) else None
    }

    /** Saves a new comment under a fresh key with the current time */
    method InsertComment(comment: Comment) returns (id: CommentId)
      requires Valid() && comment.issue in issues && comment.author in users
      modifies this`comments, this`nextId, this`clock
      ensures Valid()
      ensures id == old(nextId) && id !in old(comments)
      ensures comments == old(comments)[id := comment.(createdTime := old(clock))]
    {
      id := nextId;
      var saved := comment.(createdTime := clock);
      CommentInsertKeepsConsistent(users.Keys, projects, contributors, issues, comments, nextId, clock, saved);
      comments := comments[id := saved];
      nextId := nextId + 1;
      clock := clock + 1;
    }

    /** CommentViewSet list: the comments of the routed issue; none without an issue key */
    method ListComments(caller: Caller, issuePk: Option<nat>) returns (r: Result<set<CommentId>>)
      requires Valid()
      ensures r.Err? <==> Identify(caller).None?
      ensures r.Ok? ==> forall c :: c in r.value <==> InCommentScope(issuePk, c)
      ensures r.Ok? && !Truthy(issuePk) ==> r.value == {}
    {
      if Identify(caller).None? {
        return Err(NotAuthenticated);
      }
      return Ok(set c | c in comments && InCommentScope(issuePk, c));
    }

    /** CommentViewSet create: the body is validated first, then
        perform_create looks up the routed issue (404 when absent) and saves
        the comment under it with the caller as author, whatever issue the
        body named. */
    method CreateComment(caller: Caller, issuePk: Option<nat>, form: CommentForm) returns (r: Result<CommentId>)
      requires Valid()
      modifies this`comments, this`nextId, this`clock
      ensures Valid()
      ensures Identify(caller).None? ==> r == Err(NotAuthenticated)
      ensures Identify(caller).Some? && CommentFormError(form).Some? ==> r == Err(Invalid("issue"))
      ensures Identify(caller).Some? && CommentFormError(form).None? && (issuePk.None? || issuePk.value !in issues)
              ==> r == Err(NotFound)
      ensures r.Ok? <==> Identify(caller).Some? && CommentFormError(form).None? && issuePk.Some? && issuePk.value in issues
      ensures r.Err? ==> comments == old(comments)
      ensures r.Ok? ==> r.value !in old(comments)
                        && comments == old(comments)[r.value := Comment(form.description, issuePk.value, caller.id, old(clock))]
    {
      if Identify(caller).None? {
        return Err(NotAuthenticated);
      }
      var invalid := CommentFormError(form);
      if invalid.Some? {
        return Err(invalid.value);
      }
      if issuePk.None? || issuePk.value !in issues {
        return Err(NotFound);
      }
      var id := InsertComment(Comment(form.description, issuePk.value, caller.id, 0));
      return Ok(id);
    }

    /** The `comments` action on an issue, GET: the comments of an issue in
        the routed project's scope */
    method IssueComments(caller: Caller, projectPk: Option<nat>, pk: IssueId) returns (r: Result<set<CommentId>>)
      requires Valid()
      ensures Identify(caller).None? ==> r == Err(NotAuthenticated)
      ensures r.Ok? <==> Identify(caller).Some? && InIssueScope(projectPk, pk)
      ensures r.Ok? ==> forall c :: c in r.value <==> c in comments && comments[c].issue == pk
    {
      if Identify(caller).None? {
        return Err(NotAuthenticated);
      }
      if !InIssueScope(projectPk, pk) {
        return Err(NotFound);
      }
      return Ok(set c | c in comments && comments[c].issue == pk);
    }

    /** The `comments` action on an issue, POST: the issue must be in the
        routed project's scope; the body is validated as on CommentViewSet
        create and the comment is saved under the routed issue with the
        caller as author. */
    method CreateIssueComment(caller: Caller, projectPk: Option<nat>, pk: IssueId, form: CommentForm) returns (r: Result<CommentId>)
      requires Valid()
      modifies this`comments, this`nextId, this`clock
      ensures Valid()
      ensures Identify(caller).None? ==> r == Err(NotAuthenticated)
      ensures Identify(caller).Some? && !InIssueScope(projectPk, pk) ==> r == Err(NotFound)
      ensures r.Ok? <==> Identify(caller).Some? && InIssueScope(projectPk, pk) && CommentFormError(form).None?
      ensures r.Err? ==> comments == old(comments)
      ensures r.Ok? ==> r.value !in old(comments)
                        && comments == old(comments)[r.value := Comment(form.description, pk, caller.id, old(clock))]
    {
      if Identify(caller).None? {
        return Err(NotAuthenticated);
      }
      if !InIssueScope(projectPk, pk) {
        return Err(NotFound);
      }
      var invalid := CommentFormError(form);
      if invalid.Some? {
        return Err(invalid.value);
      }
      var id := InsertComment(Comment(form.description, pk, caller.id, 0));
      return Ok(id);
    }
  }
}
