/** The serializers' field rules in all three apps: which fields a response
    shows (everything but write-only fields) and which fields a write may
    set (everything but read-only fields), and what applying a write to a
    stored record changes. */
module Serializers {
  import opened Shared

  /** The serializer fields, by their names in the request and response bodies */
  datatype Field =
    | Id | Username | Email | FirstName | LastName | Age | CanBeContacted | CanDataBeShared | Password
    | UserField | ProjectField | RoleField | Name | Description | Type | Author | CreatedTime
    | Title | TagField | PriorityField | StatusField | Assignee | IssueField

  datatype FieldRule = FieldRule(name: Field, readOnly: bool, writeOnly: bool)

  /** The names a response shows, in declaration order */
  function OutputFields(rules: seq<FieldRule>): (names: seq<Field>)
    ensures forall k :: 0 <= k < |rules| && !rules[k].writeOnly ==> rules[k].name in names
    ensures forall n :: n in names ==> exists k :: 0 <= k < |rules| && rules[k].name == n && !rules[k].writeOnly
  {
    if rules == [] then []
    else
      var rest := OutputFields(rules[1..]);
      assert forall k :: 1 <= k < |rules| ==> rules[k] == rules[1..][k - 1];
      if rules[0].writeOnly then rest else [rules[0].name] + rest
  }

  /** The names a write may set */
  function InputFields(rules: seq<FieldRule>): (names: set<Field>)
    ensures forall k :: 0 <= k < |rules| && !rules[k].readOnly ==> rules[k].name in names
    ensures forall n :: n in names ==> exists k :: 0 <= k < |rules| && rules[k].name == n && !rules[k].readOnly
  {
    set k | 0 <= k < |rules| && !rules[k].readOnly :: rules[k].name
  }

  function Plain(name: Field): FieldRule { FieldRule(name, false, false) }
  function ReadOnly(name: Field): FieldRule { FieldRule(name, true, false) }

  /** UserSerializer, identical in the accounts and api apps: `password` is write-only */
  const UserRules: seq<FieldRule> := [
    ReadOnly(Id), Plain(Username), Plain(Email), Plain(FirstName), Plain(LastName), Plain(Age),
    Plain(CanBeContacted), Plain(CanDataBeShared), FieldRule(Password, false, true)]

  /** accounts ContributorSerializer: `user`, `project` and `role` are read-only */
  const AccountsContributorRules: seq<FieldRule> := [ReadOnly(Id), ReadOnly(UserField), ReadOnly(ProjectField), ReadOnly(RoleField)]

  /** ProjectSerializer, identical in the api and projects apps */
  const ProjectRules: seq<FieldRule> := [
    ReadOnly(Id), Plain(Name), Plain(Description), Plain(Type), ReadOnly(Author), ReadOnly(CreatedTime)]

  /** api IssueSerializer: `project` stays writable */
  const ApiIssueRules: seq<FieldRule> := [
    ReadOnly(Id), Plain(Title), Plain(Description), Plain(TagField), Plain(PriorityField), Plain(StatusField),
    Plain(ProjectField), ReadOnly(Author), Plain(Assignee), ReadOnly(CreatedTime)]

  /** projects IssueSerializer: `project` is read-only as well */
  const ProjectsIssueRules: seq<FieldRule> := [
    ReadOnly(Id), Plain(Title), Plain(Description), Plain(TagField), Plain(PriorityField), Plain(StatusField),
    ReadOnly(ProjectField), ReadOnly(Author), Plain(Assignee), ReadOnly(CreatedTime)]

  /** api CommentSerializer: `issue` stays writable */
  const ApiCommentRules: seq<FieldRule> := [
    ReadOnly(Id), Plain(Description), Plain(IssueField), ReadOnly(Author), ReadOnly(CreatedTime)]

  /** projects CommentSerializer: `issue` is read-only as well */
  const ProjectsCommentRules: seq<FieldRule> := [
    ReadOnly(Id), Plain(Description), ReadOnly(IssueField), ReadOnly(Author), ReadOnly(CreatedTime)]

  /** The password can be written and is never shown */
  lemma PasswordIsWriteOnly()
    ensures Password in InputFields(UserRules)
    ensures Password !in OutputFields(UserRules)
  {
    assert UserRules[8].name == Password;
    WriteOnlyNotShown(UserRules, Password);
  }

  /** A contributor's role is shown and can never be set through the serializer */
  lemma ContributorRoleIsReadOnly()
    ensures RoleField in OutputFields(AccountsContributorRules)
    ensures RoleField !in InputFields(AccountsContributorRules)
  {
    assert AccountsContributorRules[3].name == RoleField;
  }

  // ---------------------------------------------------------------------
  // Applying a write to a stored record

  /** The values a request body carries; an absent key is None */
  datatype ProjectData = ProjectData(
    name: Option<string>, description: Option<string>, kind: Option<ProjectType>,
    author: Option<UserId>, createdTime: Option<nat>)

  datatype IssueData = IssueData(
    title: Option<string>, description: Option<string>, tag: Option<Tag>, priority: Option<Priority>,
    status: Option<Status>, project: Option<ProjectId>, author: Option<UserId>,
    assignee: Option<Option<UserId>>, createdTime: Option<nat>)

  datatype CommentData = CommentData(description: Option<string>, issue: Option<IssueId>, author: Option<UserId>,
                                     createdTime: Option<nat>)

  /** A registration body for UserSerializer. `age` is the integer the body
      carries; an absent key is None. */
  datatype UserForm = UserForm(age: Option<int>, canBeContacted: Option<bool>, canDataBeShared: Option<bool>, password: string)

  /** A partial user-update body: every key may be absent */
  datatype UserPatch = UserPatch(age: Option<int>, canBeContacted: Option<bool>, canDataBeShared: Option<bool>, password: Option<string>)

  /** The writable part of a project, as a creation body gives it */
  datatype ProjectDraft = ProjectDraft(name: string, description: string, kind: ProjectType)

  /** An issue creation body. `project` and `assignee` are primary keys; an
      absent (or, for the assignee, null) key is None. */
  datatype IssueForm = IssueForm(title: string, description: string, tag: Tag, priority: Priority,
                                 status: Option<Status>, project: Option<nat>, assignee: Option<nat>)

  /** A comment creation body; `issue` is a primary key, absent is None */
  datatype CommentForm = CommentForm(description: string, issue: Option<nat>)

  /** The value a field takes after a write: the request's value when the
      key is present and writable, else the stored one */
  function Pick<T>(writable: set<Field>, name: Field, given: Option<T>, stored: T): (v: T)
    ensures name in writable && given.Some? ==> v == given.value
    ensures name !in writable || given.None? ==> v == stored
  {
    if name in writable && given.Some? then given.value else stored
  }

  /** A project after a write: each field takes the body's value when the
      key is given and writable, and keeps the stored value otherwise */
  function ApplyProjectWrite(writable: set<Field>, p: Project, data: ProjectData): (q: Project)
    ensures Name in writable && data.name.Some? ==> q.name == data.name.value
    ensures Name !in writable || data.name.None? ==> q.name == p.name
    ensures Description in writable && data.description.Some? ==> q.description == data.description.value
    ensures Description !in writable || data.description.None? ==> q.description == p.description
    ensures Type in writable && data.kind.Some? ==> q.kind == data.kind.value
    ensures Type !in writable || data.kind.None? ==> q.kind == p.kind
    ensures Author in writable && data.author.Some? ==> q.author == data.author.value
    ensures Author !in writable || data.author.None? ==> q.author == p.author
    ensures CreatedTime in writable && data.createdTime.Some? ==> q.createdTime == data.createdTime.value
    ensures CreatedTime !in writable || data.createdTime.None? ==> q.createdTime == p.createdTime
  {
    Project(Pick(writable, Name, data.name, p.name),
            Pick(writable, Description, data.description, p.description),
            Pick(writable, Type, data.kind, p.kind),
            Pick(writable, Author, data.author, p.author),
            Pick(writable, CreatedTime, data.createdTime, p.createdTime))
  }

  /** An issue after a write, field by field as for a project */
  function ApplyIssueWrite(writable: set<Field>, i: Issue, data: IssueData): (j: Issue)
    ensures Title in writable && data.title.Some? ==> j.title == data.title.value
    ensures Title !in writable || data.title.None? ==> j.title == i.title
    ensures Description in writable && data.description.Some? ==> j.description == data.description.value
    ensures Description !in writable || data.description.None? ==> j.description == i.description
    ensures TagField in writable && data.tag.Some? ==> j.tag == data.tag.value
    ensures TagField !in writable || data.tag.None? ==> j.tag == i.tag
    ensures PriorityField in writable && data.priority.Some? ==> j.priority == data.priority.value
    ensures PriorityField !in writable || data.priority.None? ==> j.priority == i.priority
    ensures StatusField in writable && data.status.Some? ==> j.status == data.status.value
    ensures StatusField !in writable || data.status.None? ==> j.status == i.status
    ensures ProjectField in writable && data.project.Some? ==> j.project == data.project.value
    ensures ProjectField !in writable || data.project.None? ==> j.project == i.project
    ensures Author in writable && data.author.Some? ==> j.author == data.author.value
    ensures Author !in writable || data.author.None? ==> j.author == i.author
    ensures Assignee in writable && data.assignee.Some? ==> j.assignee == data.assignee.value
    ensures Assignee !in writable || data.assignee.None? ==> j.assignee == i.assignee
    ensures CreatedTime in writable && data.createdTime.Some? ==> j.createdTime == data.createdTime.value
    ensures CreatedTime !in writable || data.createdTime.None? ==> j.createdTime == i.createdTime
  {
    Issue(Pick(writable, Title, data.title, i.title),
          Pick(writable, Description, data.description, i.description),
          Pick(writable, TagField, data.tag, i.tag),
          Pick(writable, PriorityField, data.priority, i.priority),
          Pick(writable, StatusField, data.status, i.status),
          Pick(writable, ProjectField, data.project, i.project),
          Pick(writable, Author, data.author, i.author),
          Pick(writable, Assignee, data.assignee, i.assignee),
          Pick(writable, CreatedTime, data.createdTime, i.createdTime))
  }

  /** A comment after a write, field by field as for a project */
  function ApplyCommentWrite(writable: set<Field>, c: Comment, data: CommentData): (d: Comment)
    ensures Description in writable && data.description.Some? ==> d.description == data.description.value
    ensures Description !in writable || data.description.None? ==> d.description == c.description
    ensures IssueField in writable && data.issue.Some? ==> d.issue == data.issue.value
    ensures IssueField !in writable || data.issue.None? ==> d.issue == c.issue
    ensures Author in writable && data.author.Some? ==> d.author == data.author.value
    ensures Author !in writable || data.author.None? ==> d.author == c.author
    ensures CreatedTime in writable && data.createdTime.Some? ==> d.createdTime == data.createdTime.value
    ensures CreatedTime !in writable || data.createdTime.None? ==> d.createdTime == c.createdTime
  {
    Comment(Pick(writable, Description, data.description, c.description),
            Pick(writable, IssueField, data.issue, c.issue),
            Pick(writable, Author, data.author, c.author),
            Pick(writable, CreatedTime, data.createdTime, c.createdTime))
  }

  /** A field declared read-only is not among the writable names */
  lemma ReadOnlyNotWritable(rules: seq<FieldRule>, name: Field)
    requires forall k :: 0 <= k < |rules| && rules[k].name == name ==> rules[k].readOnly
    ensures name !in InputFields(rules)
  {
  }

  /** A field declared write-only is never shown */
  lemma WriteOnlyNotShown(rules: seq<FieldRule>, name: Field)
    requires forall k :: 0 <= k < |rules| && rules[k].name == name ==> rules[k].writeOnly
    ensures name !in OutputFields(rules)
  {
  }

  /** No project write changes its author or creation time, and a write
      takes whichever of name, description and type the body gives */
  lemma ProjectWriteKeepsAuthor(p: Project, data: ProjectData)
    ensures var q := ApplyProjectWrite(InputFields(ProjectRules), p, data);
            && q.author == p.author && q.createdTime == p.createdTime
            && q.name == (if data.name.Some? then data.name.value else p.name)
            && q.description == (if data.description.Some? then data.description.value else p.description)
            && q.kind == (if data.kind.Some? then data.kind.value else p.kind)
  {
    ReadOnlyNotWritable(ProjectRules, Author);
    ReadOnlyNotWritable(ProjectRules, CreatedTime);
    assert ProjectRules[1].name == Name && ProjectRules[2].name == Description && ProjectRules[3].name == Type;
  }

  /** In the projects app an issue write never moves the issue to another
      project and never changes its author or creation time; the assignee
      is kept or set to the one the body names. */
  lemma ProjectsIssueWriteKeepsOwnership(i: Issue, data: IssueData)
    ensures var j := ApplyIssueWrite(InputFields(ProjectsIssueRules), i, data);
            && j.project == i.project && j.author == i.author && j.createdTime == i.createdTime
            && j.assignee == (if data.assignee.Some? then data.assignee.value else i.assignee)
  {
    ReadOnlyNotWritable(ProjectsIssueRules, ProjectField);
    ReadOnlyNotWritable(ProjectsIssueRules, Author);
    ReadOnlyNotWritable(ProjectsIssueRules, CreatedTime);
    assert ProjectsIssueRules[8].name == Assignee;
  }

  /** In the projects app a comment write never moves the comment to another
      issue and never changes its author or creation time. */
  lemma ProjectsCommentWriteKeepsOwnership(c: Comment, data: CommentData)
    ensures var d := ApplyCommentWrite(InputFields(ProjectsCommentRules), c, data);
            d.issue == c.issue && d.author == c.author && d.createdTime == c.createdTime
  {
    ReadOnlyNotWritable(ProjectsCommentRules, IssueField);
    ReadOnlyNotWritable(ProjectsCommentRules, Author);
    ReadOnlyNotWritable(ProjectsCommentRules, CreatedTime);
  }

  /** In the api app an issue write keeps the author and creation time, but
      a body that names a project moves the issue there; the assignee is
      kept or set as the body says. */
  lemma ApiIssueWriteMayMoveProject(i: Issue, data: IssueData)
    ensures var j := ApplyIssueWrite(InputFields(ApiIssueRules), i, data);
            && j.author == i.author && j.createdTime == i.createdTime
            && j.project == (if data.project.Some? then data.project.value else i.project)
            && j.assignee == (if data.assignee.Some? then data.assignee.value else i.assignee)
  {
    ReadOnlyNotWritable(ApiIssueRules, Author);
    ReadOnlyNotWritable(ApiIssueRules, CreatedTime);
    assert ApiIssueRules[6].name == ProjectField;
    assert ApiIssueRules[8].name == Assignee;
  }

  /** In the api app a comment write keeps the author and creation time, but
      a body that names an issue moves the comment there. */
  lemma ApiCommentWriteMayMoveIssue(c: Comment, data: CommentData)
    ensures var d := ApplyCommentWrite(InputFields(ApiCommentRules), c, data);
            && d.author == c.author && d.createdTime == c.createdTime
            && d.issue == (if data.issue.Some? then data.issue.value else c.issue)
  {
    ReadOnlyNotWritable(ApiCommentRules, Author);
    ReadOnlyNotWritable(ApiCommentRules, CreatedTime);
    assert ApiCommentRules[2].name == IssueField;
  }
}
