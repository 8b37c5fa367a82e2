/** The two decorators of kanban/views.py, as explicit validation steps that either
    let the request through or produce the error response. Neither touches the store. */
module Decorators {
  import opened Json
  import opened Models
  import opened Http

  datatype Check = Pass | Fail(response: Response)

  /** The 400 raised for a missing or `null` field. */
  function MissingField(f: string): Response {
    HttpException(BadRequest, "required field \"" + f + "\"")
  }

  /** The 400 raised when `user_id` names no user. */
  const InvalidUserId: Response := HttpException(BadRequest, "invalid user_id")

  predicate AllPresent(fields: seq<string>, body: Body) {
    forall i :: 0 <= i < |fields| ==> Present(body, fields[i])
  }

  /** `fields[i]` is missing and every field declared before it is present. */
  predicate FirstMissing(fields: seq<string>, body: Body, i: int) {
    && 0 <= i < |fields|
    && !Present(body, fields[i])
    && forall j :: 0 <= j < i ==> Present(body, fields[j])
  }

  /** `required_fields(*fields)`: the fields are checked in declaration order and the
      first one that is absent or `null` is reported. */
  function RequiredFields(fields: seq<string>, body: Body): (r: Check)
    ensures r.Pass? <==> AllPresent(fields, body)
    ensures r.Fail? ==> exists i :: FirstMissing(fields, body, i) && r.response == MissingField(fields[i])
    decreases |fields|
  {
    if |fields| == 0 then Pass
    else if !Present(body, fields[0]) then
      assert FirstMissing(fields, body, 0);
      Fail(MissingField(fields[0]))
    else
      var rest := RequiredFields(fields[1..], body);
      assert rest.Fail? ==> exists i :: FirstMissing(fields, body, i) && rest.response == MissingField(fields[i]) by {
        if rest.Fail? {
          var i :| FirstMissing(fields[1..], body, i) && rest.response == MissingField(fields[1..][i]);
          assert FirstMissing(fields, body, i + 1);
        }
      }
      rest
  }

  /** The first missing field is determined: at most one index qualifies. */
  lemma FirstMissingUnique(fields: seq<string>, body: Body, i: int, j: int)
    requires FirstMissing(fields, body, i) && FirstMissing(fields, body, j)
    ensures i == j
  {
  }

  /** The caller's claimed identity is present and names an existing user. */
  predicate Authenticated(s: Store, body: Body) {
    Present(body, "user_id") && Field(body, "user_id") in s.users
  }

  /** The user row named by `user_id`. */
  function Caller(s: Store, body: Body): User
    requires Authenticated(s, body)
  {
    s.users[Field(body, "user_id")]
  }

  /** `token_required`: `user_id` must be present and must be the key of a user row.
      Nothing else (no password, no signature) is checked. */
  function TokenRequired(s: Store, body: Body): (r: Check)
    ensures r.Pass? <==> Authenticated(s, body)
    ensures !Present(body, "user_id") ==> r == RequiredFields(["user_id"], body)
    ensures Present(body, "user_id") && !Authenticated(s, body) ==> r == Fail(InvalidUserId)
  {
    if !Present(body, "user_id") then Fail(MissingField("user_id"))
    else if Field(body, "user_id") !in s.users then Fail(InvalidUserId)
    else Pass
  }

  /** `@token_required` stacked over `@required_fields(*fields)`: the outer decorator,
      the token check, runs first. */
  function Guard(s: Store, body: Body, fields: seq<string>): (r: Check)
    ensures r.Pass? <==> Authenticated(s, body) && AllPresent(fields, body)
    ensures !Authenticated(s, body) ==> r == TokenRequired(s, body)
    ensures Authenticated(s, body) ==> r == RequiredFields(fields, body)
  {
    match TokenRequired(s, body)
    case Fail(e) => Fail(e)
    case Pass => RequiredFields(fields, body)
  }
}
