# SoftDesk authorization and membership core, in Dafny

SoftDesk is a Django REST backend for issue tracking. Users register, create
projects, add contributors, and file issues and comments under those
projects. This project models the part of it that decides **who may do
what** and **what the tables look like afterwards**.

The repository contains two reworked variants of the backend. Both are
modelled side by side and are not reconciled:

* **the `api` app**: one app with its own User (age not null, default 18),
  a role-less Contributor row, and views that check project authorship by
  hand in the `contributors` action;
* **the `accounts` + `projects` apps**: a User whose age may be absent, a
  Contributor row with a role, and a `Project.save` override that makes the
  creator an AUTHOR contributor. Each app has its own copy of the
  permission classes.

The modules are:

| module | file | what it holds |
|---|---|---|
| `Shared` | shared.dfy | identifiers, the caller, HTTP methods, choice enums, Project/Issue/Comment records, view errors and their HTTP codes |
| `Membership` | membership.dfy | the contributor table (`Row<R>`, with a role for accounts and the unit value for api), membership, uniqueness, row search and deletion |
| `Cascade` | cascade.dfy | referential integrity and the closure of a delete under CASCADE / SET_NULL |
| `Tables` | tables.dfy | the invariant both stores keep, and one preservation lemma per kind of write |
| `AccountsModels`, `ApiModels` | accounts_models.dfy, api_models.dfy | each variant's User, its defaults, and the contributor row |
| `AgeGate` | age_gate.dfy | both `validate_age` methods and AgeValidationMiddleware |
| `Serializers` | serializers.dfy | read-only and write-only field rules, and what a write may change |
| `Targets`, `AccountsPermissions`, `ProjectsPermissions` | targets.dfy, accounts_permissions.dfy, projects_permissions.dfy | the two copies of the permission classes, and how they compare |
| `DeskStore` | desk_store.dfy | the accounts + projects views and `Project.save`, as methods of a `Store` class |
| `ApiStore` | api_store.dfy | the api views, as methods of an `ApiStore` class |

Each store keeps its tables as fields: maps keyed by primary key, and the
contributor table as a sequence of rows. Each view action is a method that
returns a `Result`. The method's contract gives every error outcome and the
exact new state. `Valid()` is the tables invariant plus the GDPR age floor and the age column's upper bound,
and every method preserves it. The invariant covers:

* foreign keys point at existing rows;
* (user, project) pairs are unique;
* keys come from an allocator;
* creation times grow with the keys.

Authentication, whose token machinery is not modelled, reaches the model as
a `Caller` value. A caller whose user was deleted no longer authenticates.

## Model

| member | source | states |
|---|---|---|
| Shared.StatusCode | softDesk/api/views.py:76-128 | a failure is answered with 404 exactly when nothing was found and with 403 exactly when the view refused the caller; every failure code is a 4xx or 5xx |
| Membership.RowsOf | softDesk/api/views.py:69-72 | the rows listed for a project are rows of the table for that project, and every row of that project is listed |
| Membership.RowsWithout | softDesk/accounts/models.py:22-23 | after deleting users and projects, the surviving rows are exactly the rows that name neither |
| Membership.RowsWithoutUnique | softDesk/accounts/models.py:26-27 | a cascade delete of rows keeps (user, project) unique |
| Membership.RowsWithoutMembers | softDesk/accounts/models.py:22-23 | after the delete, a pair is a member exactly when it was one and neither its user nor its project was deleted |
| Membership.RowsWithoutLinked | softDesk/accounts/models.py:22-23 | surviving rows point only at surviving users and projects |
| Membership.FindRow | softDesk/api/views.py:113 | the lookup returns an index holding the (user, project) pair, and finds none exactly when the pair has no row |
| Membership.AppendKeepsUnique | softDesk/api/views.py:85-87 | creating a row for a pair that has none keeps pairs unique |
| Membership.RemoveAtKeepsUnique | softDesk/api/views.py:113-114 | deleting one row keeps pairs unique, removes that pair's membership and leaves every other pair's membership unchanged |
| Cascade.Closure | softDesk/projects/models.py:18-83 | a delete takes a project with its author, an issue with its project or author, and a comment with its issue or author, and nothing beyond the tables |
| Cascade.SurvivingIssues | softDesk/projects/models.py:68 | surviving issues are those not deleted, and a deleted assignee is set to null |
| Cascade.CascadeKeepsLinked | softDesk/api/models.py:81-96 | after any cascade every remaining foreign key points at a remaining row |
| Cascade.AssigneeDeleteNullsReference | softDesk/api/models.py:83 | deleting a user who is only an issue's assignee keeps the issue and nulls only its assignee |
| Cascade.ProjectDeleteRemovesChildren | softDesk/api/models.py:81 | after deleting a project no surviving issue belongs to it and no surviving comment hangs under it |
| Cascade.IssueDeleteRemovesComments | softDesk/api/models.py:95 | deleting an issue removes that issue and exactly the comments on it |
| Tables.UserInsertKeepsConsistent | softDesk/accounts/serializers.py:26-31 | a user created under the next key keeps the tables consistent |
| Tables.ProjectInsertKeepsConsistent | softDesk/projects/models.py:24-26 | a new project under a fresh key, stamped now, keeps the tables consistent, and its author has no row yet |
| Tables.ProjectReplaceKeepsConsistent | softDesk/projects/models.py:24-26 | re-saving a project with its creation time keeps the tables consistent |
| Tables.RowAppendKeepsConsistent | softDesk/accounts/models.py:26-27 | adding a row for an unrowed pair of existing user and project keeps the tables consistent |
| Tables.RowRemoveKeepsConsistent | softDesk/api/views.py:113-114 | removing one row keeps the tables consistent |
| Tables.IssueInsertKeepsConsistent | softDesk/api/models.py:81-84 | an issue whose project, author and assignee exist, under a fresh key, keeps the tables consistent |
| Tables.IssueReplaceKeepsConsistent | softDesk/api/models.py:81-84 | rewriting an issue to existing references with its creation time keeps the tables consistent |
| Tables.CommentInsertKeepsConsistent | softDesk/api/models.py:95-97 | a comment on an existing issue by an existing user keeps the tables consistent |
| Tables.CascadeKeepsConsistent | softDesk/api/models.py:35-96 | every cascade delete keeps the whole invariant: references, unique pairs, key bounds and time order |
| AccountsModels.NewUser | softDesk/accounts/models.py:7-9 | an absent age stays absent and an absent consent flag is false |
| AccountsModels.RoleOf | softDesk/accounts/models.py:24-27 | a pair has a role exactly when it has a row, and the row carries that role |
| ApiModels.NewApiUser | softDesk/api/models.py:9-11 | an absent age is 18, which passes the GDPR floor, and an absent consent flag is false |
| AgeGate.ValidateAge | softDesk/accounts/serializers.py:17-20 | an age passes exactly when absent or at least 15; otherwise the error is on `age` |
| AgeGate.AccountsValidateAge | softDesk/accounts/serializers.py:17-20 | a rejection carries the English message |
| AgeGate.ApiValidateAge | softDesk/api/serializers.py:17-20 | a rejection carries the French message |
| AgeGate.CheckAgeField | softDesk/accounts/models.py:7 | an age passes exactly when absent or between 15 and 2147483647; a negative or larger age fails on the column's bounds before `validate_age` runs, and 0 to 14 fails with `validate_age`'s message |
| AgeGate.MessagesNameThreshold | softDesk/accounts/serializers.py:19 | the English message contains "15 years" and the French one "15 ans" |
| AgeGate.ProcessRequest | softDesk/accounts/middleware.py:12-34 | only POSTs to the two registration paths are inspected; an empty or undecodable body and an absent or null age pass; a body is refused exactly when its age is an integer below 15 or a boolean; the request ends in an uncaught error exactly when the body is JSON but not an object, or its age is text or a compound value |
| AgeGate.MiddlewareAgreesWithValidateAge | softDesk/accounts/middleware.py:21-28 | on integer ages the middleware refuses exactly what both `validate_age` methods refuse |
| Serializers.OutputFields | softDesk/accounts/serializers.py:9-15 | a response shows exactly the declared fields that are not write-only |
| Serializers.InputFields | softDesk/projects/serializers.py:9-12 | a write may set exactly the declared fields that are not read-only |
| Serializers.PasswordIsWriteOnly | softDesk/accounts/serializers.py:7-15 | the password can be written and is never shown |
| Serializers.ContributorRoleIsReadOnly | softDesk/accounts/serializers.py:34-41 | a contributor's role, user and project cannot be written, and the role is shown |
| Serializers.ApplyProjectWrite | softDesk/projects/serializers.py:6-12 | for each of the five fields: a given writable value is taken, and a field that is not writable or not given keeps its stored value |
| Serializers.ApplyIssueWrite | softDesk/projects/serializers.py:15-32 | for each of the nine fields: a given writable value is taken, and a field that is not writable or not given keeps its stored value |
| Serializers.ApplyCommentWrite | softDesk/projects/serializers.py:35-41 | for each of the four fields: a given writable value is taken, and a field that is not writable or not given keeps its stored value |
| Serializers.ReadOnlyNotWritable | softDesk/projects/serializers.py:12 | a field declared read-only is never writable |
| Serializers.WriteOnlyNotShown | softDesk/accounts/serializers.py:7 | a field declared write-only is never shown |
| Serializers.ProjectWriteKeepsAuthor | softDesk/api/serializers.py:34-40 | no project write changes its author or creation time, and a given name, description or type is taken |
| Serializers.ProjectsIssueWriteKeepsOwnership | softDesk/projects/serializers.py:15-32 | in the projects app an issue write never moves the issue and never changes its author or creation time; the assignee is kept or set to the one given |
| Serializers.ProjectsCommentWriteKeepsOwnership | softDesk/projects/serializers.py:35-41 | in the projects app a comment write never moves the comment and never changes its author or creation time |
| Serializers.ApiIssueWriteMayMoveProject | softDesk/api/serializers.py:52-64 | in the api app an issue write keeps author and creation time, but a given project moves the issue there |
| Serializers.ApiCommentWriteMayMoveIssue | softDesk/api/serializers.py:67-73 | in the api app a comment write keeps author and creation time, but a given issue moves the comment there |
| AccountsPermissions.IsAuthorOrReadOnly | softDesk/accounts/permissions.py:12-18 | safe methods always pass; a write passes exactly for the object's author |
| AccountsPermissions.IsOwnerOrReadOnly | softDesk/accounts/permissions.py:26-33 | safe methods always pass; a write on a user passes exactly for that user |
| AccountsPermissions.ProjectContributorHasPermission | softDesk/accounts/permissions.py:41-53 | anonymous is refused; under a project route exactly its members pass; without one every authenticated caller passes |
| AccountsPermissions.OwningProject | softDesk/accounts/permissions.py:57-63 | an issue or contributor row belongs to its project, a comment to its issue's project, a project to itself |
| AccountsPermissions.ProjectContributorHasObjectPermission | softDesk/accounts/permissions.py:55-68 | passes exactly for members of: the project itself, an issue's project, a comment's issue's project, or a contributor row's project |
| AccountsPermissions.AuthorForContributorsHasPermission | softDesk/accounts/permissions.py:76-89 | passes exactly for the author of the existing project the route names |
| AccountsPermissions.AuthorForContributorsHasObjectPermission | softDesk/accounts/permissions.py:91-93 | passes exactly for the author of the project the row names |
| AccountsPermissions.AuthorChecksAgreeOnRoutedRow | softDesk/accounts/permissions.py:76-93 | on a row of the routed project, the object check and the route check pass for the same callers |
| AccountsPermissions.CanAssignHasPermission | softDesk/accounts/permissions.py:101-117 | anonymous is refused; an authenticated request is refused exactly when it is POST/PUT/PATCH naming a truthy `assigned_to` and `project` that form no row |
| AccountsPermissions.ProjectAuthorHasObjectPermission | softDesk/accounts/permissions.py:125-134 | reads pass for members, writes for the author |
| AccountsPermissions.WritesNarrowerThanReads | softDesk/accounts/permissions.py:125-134 | when the author holds a row, whoever may write may read, and other members may read but not write |
| AccountsPermissions.CommentMembershipFollowsIssue | softDesk/accounts/permissions.py:55-68 | a comment passes the membership check exactly as its issue does |
| ProjectsPermissions.IsAuthorOrReadOnly | softDesk/projects/permissions.py:12-18 | safe methods always pass; a write passes exactly for the object's author |
| ProjectsPermissions.ProjectContributorHasPermission | softDesk/projects/permissions.py:26-30 | passes exactly for authenticated callers, whatever the route |
| ProjectsPermissions.OwningProject | softDesk/projects/permissions.py:34-40 | an issue or row belongs to its project, a comment to its issue's project, a project to itself |
| ProjectsPermissions.ProjectContributorHasObjectPermission | softDesk/projects/permissions.py:32-45 | passes exactly for members of: the project itself, an issue's project, a comment's issue's project, or a contributor row's project |
| ProjectsPermissions.CanAssignHasPermission | softDesk/projects/permissions.py:53-69 | anonymous is refused; refused exactly for a write naming a truthy assignee and project that form no row |
| ProjectsPermissions.ProjectAuthorHasObjectPermission | softDesk/projects/permissions.py:77-86 | reads pass for members, writes for the author |
| ProjectsPermissions.ContributorGatesDiverge | softDesk/projects/permissions.py:26-30 | this copy's route gate allows everything the accounts copy allows, and allows more exactly for an authenticated non-member under a project route |
| ProjectsPermissions.OutsiderPassesOnlyHere | softDesk/projects/permissions.py:26-30 | a non-member is stopped by the accounts copy and let through by this one |
| ProjectsPermissions.OtherChecksAgree | softDesk/projects/permissions.py:6-86 | every other class of the two copies decides identically |
| DeskStore.Store.Identify | softDesk/accounts/views.py:32 | a caller authenticates exactly when it names an existing user |
| DeskStore.Store.Register | softDesk/accounts/serializers.py:17-31 | registration fails exactly for an age below 15 or above 2147483647, on `age`; otherwise exactly one user is added under a fresh key with the model's defaults |
| DeskStore.Store.ListUsers | softDesk/accounts/views.py:21-25 | the list holds every user |
| DeskStore.Store.RetrieveUser | softDesk/accounts/views.py:21-25 | succeeds exactly for the caller's own id; any other id is not found |
| DeskStore.Store.UpdateUser | softDesk/accounts/views.py:21-25 | succeeds exactly for the caller's own id with an absent age or one from 15 to 2147483647; only that user changes; absent keys keep stored values |
| DeskStore.Store.DeleteUser | softDesk/accounts/views.py:14-25 | any authenticated caller deletes any existing user, and the tables become the cascade closure of that delete |
| DeskStore.Store.ApplyCascade | softDesk/projects/models.py:18-83 | the tables after a delete are exactly the cascade closure's survivors, and stay valid |
| DeskStore.Store.GetOrCreateRow | softDesk/projects/models.py:31-35 | a row is created, with the given role, exactly when the pair had none |
| DeskStore.Store.SaveProject | softDesk/projects/models.py:24-35 | a new project gets a fresh key, the current time and an AUTHOR row for its author; re-saving keeps the creation time and adds no row |
| DeskStore.Store.CreateProject | softDesk/projects/views.py:24-25 | the caller is the author, holds the AUTHOR role in the new project and sees it |
| DeskStore.Store.UpdateProject | softDesk/projects/views.py:17-22 | succeeds exactly for a visible project; author and creation time never change |
| DeskStore.Store.DeleteProject | softDesk/projects/views.py:17-22 | succeeds exactly for a visible project; its issues, their comments and its rows go with it |
| DeskStore.Store.ListProjects | softDesk/projects/views.py:17-22 | lists exactly the visible projects, newest first, each once |
| DeskStore.Store.ListContributors | softDesk/accounts/views.py:34-39 | lists exactly the routed project's rows; nothing without a project key |
| DeskStore.Store.AddContributor | softDesk/accounts/views.py:41-53 | an unknown project or user is not found; a falsy `user_id` is invalid; an existing pair hits the unique constraint; otherwise exactly one CONTRIBUTOR row is appended |
| DeskStore.Store.ListIssues | softDesk/projects/views.py:34-39 | lists the routed project's issues, or every issue without a project key, newest first |
| DeskStore.Store.CreateIssue | softDesk/projects/views.py:41-47 | an unknown assignee is invalid; a missing project key fails the not-null constraint; an unknown project is not found; otherwise the issue is saved with the caller as author and the routed project |
| DeskStore.Store.InsertIssue | softDesk/projects/models.py:65-69 | the issue is stored under a fresh key with the current time, and the store stays valid |
| DeskStore.Store.UpdateIssue | softDesk/projects/views.py:34-39 | succeeds exactly for an issue in scope and an existing assignee; project, author and creation time never change |
| DeskStore.Store.DeleteIssue | softDesk/projects/views.py:34-39 | an issue in scope is deleted with exactly its comments |
| DeskStore.Store.ListComments | softDesk/projects/views.py:56-61 | lists exactly the routed issue's comments, oldest first; nothing without an issue key |
| DeskStore.Store.InsertComment | softDesk/projects/models.py:80-84 | the comment is stored under a fresh key with the current time, and the store stays valid |
| DeskStore.Store.CreateComment | softDesk/projects/views.py:63-66 | the comment is saved under the routed issue with the caller as author; an unknown issue is not found |
| ApiStore.ApiStore.Identify | softDesk/api/views.py:52 | a caller authenticates exactly when it names an existing user |
| ApiStore.ApiStore.Register | softDesk/api/serializers.py:17-31 | registration fails exactly for an age below 15 or above 2147483647, on `age`; otherwise exactly one user is added, with age 18 when none is given |
| ApiStore.ApiStore.ListUsers | softDesk/api/views.py:27-31 | the list holds every user |
| ApiStore.ApiStore.RetrieveUser | softDesk/api/views.py:27-31 | succeeds exactly for the caller's own id; any other id is not found |
| ApiStore.ApiStore.UpdateUser | softDesk/api/views.py:27-31 | succeeds exactly for the caller's own id with an absent age or one from 15 to 2147483647; only that user changes; given keys are taken and absent keys keep stored values |
| ApiStore.ApiStore.UpdateProfile | softDesk/api/views.py:33-45 | an authenticated caller's partial update of their own record fails only on the age check (15 to 2147483647); only that record changes; each given key, consent flags included, is taken and absent keys keep stored values |
| ApiStore.ApiStore.DeleteUser | softDesk/api/views.py:20-31 | any authenticated caller deletes any existing user, with the cascade closure |
| ApiStore.ApiStore.ApplyCascade | softDesk/api/models.py:35-96 | the tables after a delete are exactly the cascade closure's survivors, and stay valid |
| ApiStore.ApiStore.ListProjects | softDesk/api/views.py:54-59 | lists exactly the projects the caller authored or holds a row in, each once |
| ApiStore.ApiStore.CreateProject | softDesk/api/views.py:61-62 | the caller is the author and sees the project, but has no contributor row in it |
| ApiStore.ApiStore.UpdateProject | softDesk/api/views.py:49-58 | any caller who can see the project, author or contributor, rewrites its writable fields; author and creation time stay; an unseen project is not found and nothing changes |
| ApiStore.ApiStore.DeleteProject | softDesk/api/views.py:54-59 | succeeds exactly for a visible project; its issues, comments and rows go with it |
| ApiStore.ApiStore.ProjectContributors | softDesk/api/views.py:64-72 | a visible project's rows are listed, every member among them |
| ApiStore.ApiStore.AddContributor | softDesk/api/views.py:74-100 | invisible project: not found; non-author: 403; unknown or absent user: not found; existing row: "already a contributor"; otherwise exactly one row is appended; the table is unchanged on every failure |
| ApiStore.ApiStore.RemoveContributor | softDesk/api/views.py:102-128 | invisible project: not found; non-author: 403; unknown user or no row: not found; otherwise exactly that row is removed and every other membership stays |
| ApiStore.ApiStore.ListContributors | softDesk/api/views.py:155-160 | lists exactly the routed project's rows; nothing without a project key |
| ApiStore.ApiStore.IssueFormError | softDesk/api/serializers.py:52-64 | a creation body is valid exactly when it names an existing project and, if any, an existing assignee |
| ApiStore.ApiStore.InsertIssue | softDesk/api/models.py:80-84 | the issue is stored under a fresh key with the current time |
| ApiStore.ApiStore.NewIssue | softDesk/api/models.py:80 | the status defaults to TO_DO; project, author and assignee are as given |
| ApiStore.ApiStore.ListIssues | softDesk/api/views.py:170-175 | lists exactly the routed project's issues; nothing without a project key |
| ApiStore.ApiStore.CreateIssue | softDesk/api/views.py:177-180 | the body is validated first; then an unknown routed project is not found; otherwise the issue is saved under the routed project, not the body's, with the caller as author |
| ApiStore.ApiStore.ProjectIssues | softDesk/api/views.py:130-138 | a visible project's issues are listed, exactly |
| ApiStore.ApiStore.CreateProjectIssue | softDesk/api/views.py:140-145 | succeeds exactly for a visible project and a valid body; the issue is saved under that project with the caller as author |
| ApiStore.ApiStore.UpdateIssue | softDesk/api/views.py:170-175 | an issue in scope is rewritten; author and creation time stay, and a given existing project moves it |
| ApiStore.ApiStore.DeleteIssue | softDesk/api/views.py:170-175 | an issue in scope is deleted with exactly its comments |
| ApiStore.ApiStore.CommentFormError | softDesk/api/serializers.py:67-73 | a creation body is valid exactly when it names an existing issue |
| ApiStore.ApiStore.InsertComment | softDesk/api/models.py:95-97 | the comment is stored under a fresh key with the current time |
| ApiStore.ApiStore.ListComments | softDesk/api/views.py:207-212 | lists exactly the routed issue's comments; nothing without an issue key |
| ApiStore.ApiStore.CreateComment | softDesk/api/views.py:214-217 | the body is validated first; then an unknown routed issue is not found; otherwise the comment is saved under the routed issue with the caller as author |
| ApiStore.ApiStore.IssueComments | softDesk/api/views.py:182-190 | the comments of an issue in the routed project's scope are listed, exactly |
| ApiStore.ApiStore.CreateIssueComment | softDesk/api/views.py:192-197 | succeeds exactly for an issue in scope and a valid body; the comment is saved under that issue with the caller as author |

## Differences between the two variants

* **Project creation.** In the accounts + projects apps, creating a project
  makes its creator an AUTHOR contributor (`DeskStore.Store.CreateProject`).
  In the api app the creator has no row and sees the project only as its
  author (`ApiStore.ApiStore.CreateProject`).
* **Adding contributors.**
  * In the api app, the `contributors` action checks authorship by hand.
  * The accounts ContributorViewSet attaches only IsAuthenticated, so any
    authenticated user can add a row to any existing project. A duplicate
    row is refused only by the database constraint.
* **Issues and comments.**
  * The api serializers keep `project` and `issue` writable. A write can
    therefore move an issue or a comment, and a creation body must name an
    existing parent even though the route's parent replaces it.
  * The projects serializers make both read-only.
* **The route gate.** The accounts IsProjectContributor checks membership of
  the routed project. The projects copy checks authentication only.
* **Where the permission classes apply.** The shown views attach only
  IsAuthenticated, so neither copy of the permission classes guards a view.
  The stores follow the views, and the permission classes are modelled on
  their own.
* **CanAssignToProjectContributors.** It reads the body keys `assigned_to`
  and `project`, but the issue serializers name the assignee `assignee`, so
  a body written for the serializer never triggers the check.

## Left out

- JWT login, refresh, logout and token blacklisting: the authenticated identity is an input (`Caller`).
- URL routing and the admin screens: configuration only.
- Password validation and hashing: foreign calls. The password is stored as given.
- Username, email and names: neither store looks at them. Required-field and choice validation of the other serializer fields: DRF internals.
- PUT on UserViewSet `update` is modelled as a partial update. The full-update requirement that every field be present is not modelled.
- Setting `age` to null on an update is not modelled (an absent key keeps the stored age).
- The age field's range errors use DRF's default English wording; translation to the project's language is not modelled.
- AccountsPermissions.IsAuthorOrReadOnly and ProjectsPermissions.IsAuthorOrReadOnly: a write on a Contributor row, which has no `author` attribute, raises AttributeError in the source (softDesk/accounts/permissions.py:18); the model excludes that call by its precondition instead of modelling the 500. No view installs this class, so no request reaches that case.
- The middleware's JSON decoding is abstracted. The body arrives already classified, and float ages are not modelled.
- Creation times are a logical clock that strictly increases, so two rows never share a timestamp. Comment UUID keys come from the same fresh-key allocator as the integer keys.
- The generic retrieve, update and destroy actions on contributor rows and comments, and project retrieve: these are DRF's stock behaviour over the querysets the model states.
- The api ContributorViewSet `create` (softDesk/api/views.py:149-160 has no perform_create): it saves a row with no user or project, which the not-null constraint refuses, so it changes nothing.
- Pagination and response body shapes: DRF internals.
- Test expectations that no shown code backs are not asserted. One is the "is not a contributor to project" message; another is a 403 on editing another user's profile, where the queryset scoping answers not-found.
- No guard against removing the AUTHOR row or the last contributor exists in the code, and none is stated.
- ApiStore.ApiStore.IssueFormError: reports only the first failing field in declaration order (project before assignee), where DRF reports all failing fields together.
- ApiStore.ApiStore.ListProjects: returns a set; the api models declare no ordering, so the response order is left unspecified.
- DeskStore.Store.ListProjects: states the newest-first order by creation time; ties, which the clock rules out, are not modelled.
