/** The GDPR age gate: `validate_age` of both user serializers and the
    accounts app's AgeValidationMiddleware. */
module AgeGate {
  import opened Shared

  const MinimumAge: int := 15

  const AccountsAgeMessage: string := "Minimum age required is " + "15 years" + " for GDPR compliance reasons."
  const ApiAgeMessage: string := "L'\U{e2}ge minimum requis est de " + "15 ans" + " pour des raisons de conformit\U{e9} RGPD."

  /** A field-scoped validation failure and its message */
  datatype FieldError = FieldError(field: string, message: string)

  /** `validate_age`: an absent (or null) age passes, a present age below 15
      is rejected on the `age` field with the serializer's message. */
  function ValidateAge(value: Option<int>, message: string): (r: Option<FieldError>)
    ensures r.None? <==> value.None? || value.value >= MinimumAge
    ensures r.Some? ==> r.value == FieldError("age", message)
  {
    if value.Some? && value.value < MinimumAge then Some(FieldError("age", message)) else None
  }

  /** The check as the accounts serializer states it */
  function AccountsValidateAge(value: Option<int>): (r: Option<FieldError>)
    ensures r.Some? ==> r.value.message == AccountsAgeMessage
  {
    ValidateAge(value, AccountsAgeMessage)
  }

  /** The check as the api serializer states it */
  function ApiValidateAge(value: Option<int>): (r: Option<FieldError>)
    ensures r.Some? ==> r.value.message == ApiAgeMessage
  {
    ValidateAge(value, ApiAgeMessage)
  }

  /** The largest value a PositiveIntegerField column holds. The serializer
      builds the age field from the model column, so the field carries the
      column's range, 0 to 2147483647, as its bounds. */
  const MaxFieldAge: int := 2147483647

  const BelowRangeMessage: string := "Ensure this value is greater than or equal to 0."
  const AboveRangeMessage: string := "Ensure this value is less than or equal to 2147483647."

  /** The age field's whole check on an integer: the field's own bounds come
      first, and only a value inside them reaches `validate_age`. */
  function CheckAgeField(value: Option<int>, message: string): (r: Option<FieldError>)
    ensures r.None? <==> value.None? || MinimumAge <= value.value <= MaxFieldAge
    ensures r.Some? ==> r.value.field == "age"
    ensures value.Some? && value.value < 0 ==> r.Some? && r.value.message == BelowRangeMessage
    ensures value.Some? && 0 <= value.value < MinimumAge ==> r == ValidateAge(value, message)
    ensures value.Some? && value.value > MaxFieldAge ==> r.Some? && r.value.message == AboveRangeMessage
  {
    if value.Some? && value.value < 0 then Some(FieldError("age", BelowRangeMessage))
    else if value.Some? && value.value > MaxFieldAge then Some(FieldError("age", AboveRangeMessage))
    else ValidateAge(value, message)
  }

  /** `t` occurs somewhere in `s` */
  predicate ContainsText(s: string, t: string) {
    exists i :: 0 <= i <= |s| && t <= s[i..]
  }

  /** The accounts rejection names the threshold as "15 years", which is what
      the registration test looks for; the api message names it in French. */
  lemma MessagesNameThreshold()
    ensures ContainsText(AccountsAgeMessage, "15 years")
    ensures ContainsText(ApiAgeMessage, "15 ans")
  {
    assert AccountsAgeMessage[|"Minimum age required is "|..] == "15 years" + " for GDPR compliance reasons.";
    assert ApiAgeMessage[|"L'\U{e2}ge minimum requis est de "|..] == "15 ans" + " pour des raisons de conformit\U{e9} RGPD.";
  }

  // ---------------------------------------------------------------------
  // AgeValidationMiddleware.process_request, over an already-decoded body

  /** The JSON value found under "age" */
  datatype JsonValue = JNull | JBool(b: bool) | JInt(i: int) | JText(s: string) | JCompound

  /** The request body as the middleware sees it: empty, not valid UTF-8 or
      JSON, a JSON value that is not an object, or an object whose "age"
      key may be missing. */
  datatype Body = EmptyBody | Undecodable | NotAnObject | JsonObject(age: Option<JsonValue>)

  /** None (the request goes on), a 400 RGPD response, or an exception the
      middleware does not catch (a comparison of a non-number with 15, or
      `.get` on a JSON value that is not an object), which ends as a 500. */
  datatype MiddlewareResult = PassThrough | RejectUnderage | Uncaught

  const GuardedPaths: seq<string> := ["/api/auth/register/", "/api/users/"]

  function ProcessRequest(path: string, m: HttpMethod, body: Body): (r: MiddlewareResult)
    ensures (path !in GuardedPaths || m != POST) ==> r == PassThrough
    ensures body.EmptyBody? || body.Undecodable? ==> r == PassThrough
    ensures body.JsonObject? && (body.age.None? || body.age == Some(JNull)) ==> r == PassThrough
    ensures r == RejectUnderage <==>
              path in GuardedPaths && m == POST && body.JsonObject? && body.age.Some? &&
              ((body.age.value.JInt? && body.age.value.i < MinimumAge) || body.age.value.JBool?)
    ensures r == Uncaught <==>
              path in GuardedPaths && m == POST &&
              (body.NotAnObject? || (body.JsonObject? && body.age.Some? && (body.age.value.JText? || body.age.value.JCompound?)))
  {
    if path in GuardedPaths && m == POST then
      match body
      case EmptyBody => PassThrough
      case Undecodable => PassThrough
      case NotAnObject => Uncaught
      case JsonObject(age) =>
        if age.None? then PassThrough
        else match age.value
          case JNull => PassThrough
          // Python compares a boolean as 0 or 1, both below 15
          case JBool(_) => RejectUnderage
          case JInt(i) => if i < MinimumAge then RejectUnderage else PassThrough
          case JText(_) => Uncaught
          case JCompound => Uncaught
    else PassThrough
  }

  /** The middleware and the serializers' validate_age agree on every
      integer age: a registration body carrying age n is turned away by one
      exactly when it is turned away by the other. */
  lemma MiddlewareAgreesWithValidateAge(path: string, age: Option<int>)
    requires path in GuardedPaths
    ensures var body := JsonObject(if age.Some? then Some(JInt(age.value)) else None);
            (ProcessRequest(path, POST, body) == RejectUnderage) <==> AccountsValidateAge(age).Some?
    ensures var body := JsonObject(if age.Some? then Some(JInt(age.value)) else None);
            (ProcessRequest(path, POST, body) == RejectUnderage) <==> ApiValidateAge(age).Some?
  {
  }
}
