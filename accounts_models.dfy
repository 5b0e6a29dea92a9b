/** The accounts app's models: a User with an optional age and two consent
    flags, and the Contributor row with its role. */
module AccountsModels {
  import opened Shared
  import opened Membership

  datatype Role = AuthorRole | ContributorRole

  /** Contributor.role default */
  const DefaultRole: Role := ContributorRole

  type ContributorRow = Row<Role>

  /** accounts.User: the age may be absent (null=True); the password is kept as
      the credential the serializer set (hashing is not modelled). */
  datatype User = User(age: Option<nat>, canBeContacted: bool, canDataBeShared: bool, password: string)

  /** A user as the model's field defaults complete it: an absent age stays
      absent and an absent consent flag is false. */
  function NewUser(age: Option<nat>, canBeContacted: Option<bool>, canDataBeShared: Option<bool>, password: string): (u: User)
    ensures u.age == age && u.password == password
    ensures u.canBeContacted <==> canBeContacted == Some(true)
    ensures u.canDataBeShared <==> canDataBeShared == Some(true)
  {
    User(age,
         if canBeContacted.Some? then canBeContacted.value else false,
         if canDataBeShared.Some? then canDataBeShared.value else false,
         password)
  }

  /** The role a row has in the table, if the pair has a row */
  function RoleOf(rows: seq<ContributorRow>, u: UserId, p: ProjectId): (r: Option<Role>)
    requires UniquePairs(rows)
    ensures r.Some? <==> IsMember(rows, u, p)
    ensures r.Some? ==> Row(u, p, r.value) in rows
  {
    if rows == [] then None
    else if rows[0].user == u && rows[0].project == p then Some(rows[0].role)
    else
      assert UniquePairs(rows[1..]) by {
        forall i, j | 0 <= i < j < |rows[1..]|
          ensures rows[1..][i].user != rows[1..][j].user || rows[1..][i].project != rows[1..][j].project
        {
          assert rows[1..][i] == rows[i + 1] && rows[1..][j] == rows[j + 1];
        }
      }
      var r := RoleOf(rows[1..], u, p);
      assert IsMember(rows[1..], u, p) <==> IsMember(rows, u, p) by {
        if IsMember(rows, u, p) {
          var k :| 0 <= k < |rows| && rows[k].user == u && rows[k].project == p;
          assert k != 0 && rows[1..][k - 1] == rows[k];
        }
        if IsMember(rows[1..], u, p) {
          var k :| 0 <= k < |rows[1..]| && rows[1..][k].user == u && rows[1..][k].project == p;
          assert rows[k + 1] == rows[1..][k];
        }
      }
      r
  }
}
