/** Types shared by both variants of the SoftDesk backend: identifiers, the
    caller, HTTP methods, the choice enums and the Project/Issue/Comment
    records. A record's primary key is the key under which a store keeps it. */
module Shared {

  type UserId = nat
  type ProjectId = nat
  type IssueId = nat
  /** Comments use a random UUID primary key; the model draws it from the same fresh-key allocator */
  type CommentId = nat

  datatype Option<+T> = None | Some(value: T)

  /** Python truthiness of an optional identifier taken from the route or the
      request body: an absent value and 0 are both falsy. */
  predicate Truthy(v: Option<nat>) {
    v.Some? && v.value != 0
  }

  /** The identity a request carries, as the authentication layer supplies it */
  datatype Caller = Anonymous | Authenticated(id: UserId)

  datatype HttpMethod = GET | HEAD | OPTIONS | POST | PUT | PATCH | DELETE

  /** DRF's SAFE_METHODS */
  predicate IsSafe(m: HttpMethod) {
    m == GET || m == HEAD || m == OPTIONS
  }

  datatype ProjectType = BackEnd | FrontEnd | IOS | Android
  datatype Tag = Bug | Feature | Task
  datatype Priority = Low | Medium | High
  datatype Status = ToDo | InProgress | Finished

  /** Issue.status default */
  const DefaultStatus: Status := ToDo

  datatype Project = Project(
    name: string,
    description: string,
    kind: ProjectType,
    author: UserId,
    createdTime: nat)

  datatype Issue = Issue(
    title: string,
    description: string,
    tag: Tag,
    priority: Priority,
    status: Status,
    project: ProjectId,
    author: UserId,
    assignee: Option<UserId>,
    createdTime: nat)

  datatype Comment = Comment(
    description: string,
    issue: IssueId,
    author: UserId,
    createdTime: nat)

  /** Per-request failures of the view layer */
  datatype Error =
    | NotAuthenticated            // IsAuthenticated refused the request
    | PermissionDenied            // explicit 403 from a view
    | NotFound                    // get_object / get_object_or_404 / DoesNotExist
    | Invalid(field: string)      // serializer or view ValidationError on one field
    | AlreadyContributor          // 400 "This user is already a contributor"
    | IntegrityError              // the database rejected the write (unique or not-null constraint)

  datatype Result<+T> = Ok(value: T) | Err(error: Error)

  /** The HTTP status each failure is answered with */
  function StatusCode(e: Error): (code: nat)
    ensures 400 <= code < 600
    ensures code == 404 <==> e.NotFound?
    ensures code == 403 <==> e.PermissionDenied?
  {
    match e
    case NotAuthenticated => 401
    case PermissionDenied => 403
    case NotFound => 404
    case Invalid(_) => 400
    case AlreadyContributor => 400
    case IntegrityError => 500
  }
}
