/** The objects the permission classes are asked about. A permission reads
    attributes of the object and of the objects they lead to
    (`obj.issue.project`, `obj.project.author`); each variant carries those
    related objects already loaded. */
module Targets {
  import opened Shared
  import opened AccountsModels

  datatype Target =
    | ProjectObj(id: ProjectId, project: Project)
      /** an Issue has a `project` attribute */
    | IssueObj(issue: Issue)
      /** a Comment has an `issue` attribute; `issue` is that issue, loaded */
    | CommentObj(comment: Comment, issue: Issue)
      /** a Contributor has a `project` attribute and no `author` */
    | ContributorObj(row: ContributorRow)
  {
    /** Whether `obj.author` exists */
    predicate HasAuthor() {
      !ContributorObj?
    }

    function Author(): UserId
      requires HasAuthor()
    {
      match this
      case ProjectObj(_, p) => p.author
      case IssueObj(i) => i.author
      case CommentObj(c, _) => c.author
    }
  }
}
