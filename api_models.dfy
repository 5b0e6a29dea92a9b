/** The api app's models: a User whose age is a required positive integer
    with a default, and a Contributor row with no role column. Project,
    Issue and Comment have the shared shape; Project has no save override. */
module ApiModels {
  import opened Shared
  import opened Membership
  import AgeGate

  /** api.User.age default */
  const DefaultAge: nat := 18

  /** api.User: the age is always present; the password is kept as the
      credential the serializer set (hashing is not modelled). */
  datatype ApiUser = ApiUser(age: nat, canBeContacted: bool, canDataBeShared: bool, password: string)

  /** api.Contributor: a (user, project) pair and nothing else */
  type ApiRow = Row<()>

  /** A user as the model's field defaults complete it: an absent age is 18
      and an absent consent flag is false. The default age already passes
      the GDPR gate. */
  function NewApiUser(age: Option<nat>, canBeContacted: Option<bool>, canDataBeShared: Option<bool>, password: string): (u: ApiUser)
    ensures age.Some? ==> u.age == age.value
    ensures age.None? ==> u.age == DefaultAge && u.age >= AgeGate.MinimumAge
    ensures u.password == password
    ensures u.canBeContacted <==> canBeContacted == Some(true)
    ensures u.canDataBeShared <==> canDataBeShared == Some(true)
  {
    ApiUser(if age.Some? then age.value else DefaultAge,
            if canBeContacted.Some? then canBeContacted.value else false,
            if canDataBeShared.Some? then canDataBeShared.value else false,
            password)
  }
}
