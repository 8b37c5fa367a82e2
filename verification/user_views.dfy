/** The `/user` endpoints. Password hashing (bcrypt with a fresh salt) is a parameter
    `hash`: whatever salted hash the call used. */
module UserViews {
  import opened Json
  import opened Maps
  import opened Models
  import opened Http
  import opened Decorators

  const CreateFields: seq<string> := ["name", "email", "password"]
  const UpdateFields: seq<string> := ["name", "password", "email"]

  /** GET /user: the caller's own row. */
  function GetUser(s: Store, body: Body): (r: Reply)
    ensures r.store == s
    ensures r.response.Ok? <==> Authenticated(s, body)
    ensures r.response.Ok? ==> r.response.record == UserRecord(Caller(s, body))
    ensures !r.response.Ok? ==> r.response == TokenRequired(s, body).response
  {
    match TokenRequired(s, body)
    case Fail(e) => Reply(e, s)
    case Pass => Reply(Ok(UserRecord(Caller(s, body))), s)
  }

  /** POST /user: registration; no `user_id` is needed. A password that is not a JSON
      string makes `.encode` raise, which nothing catches. */
  function CreateUser(s: Store, body: Body, newId: string, hash: string -> string): (r: Reply)
    requires Str(newId) !in s.users
    ensures !r.response.Ok? ==> r.store == s
    ensures RequiredFields(CreateFields, body).Fail? ==> r.response == RequiredFields(CreateFields, body).response
    ensures AllPresent(CreateFields, body) && !Field(body, "password").Str? ==> r.response == ServerError
    ensures r.response.Ok? <==> AllPresent(CreateFields, body) && Field(body, "password").Str?
    ensures r.response.Ok? ==>
      && r.response.record.UserRecord?
      && var u := r.response.record.user;
      && u.id == Str(newId)
      && u.name == Field(body, "name")
      && u.email == Field(body, "email")
      && u.password == hash(Field(body, "password").s)
      && u.photo == Get(body, "photo")
      && u.updateAt.None?
      && Inserted(s.users, r.store.users, Str(newId), u)
      && r.store.cards == s.cards
      && r.store.categories == s.categories
  {
    match RequiredFields(CreateFields, body)
    case Fail(e) => Reply(e, s)
    case Pass =>
      var password := Field(body, "password");
      if !password.Str? then
        Reply(ServerError, s)
      else
        var user := User(
          id := Str(newId),
          name := Field(body, "name"),
          email := Field(body, "email"),
          password := hash(password.s),
          photo := Get(body, "photo"),
          updateAt := None);
        Reply(Ok(UserRecord(user)), s.(users := s.users[Str(newId) := user]))
  }

  /** PUT /user: overwrites the caller's name, email, password and photo (an absent photo
      clears it) and stamps the row. */
  function UpdateUser(s: Store, body: Body, now: Time, hash: string -> string): (r: Reply)
    ensures !r.response.Ok? ==> r.store == s
    ensures Guard(s, body, UpdateFields).Fail? ==> r.response == Guard(s, body, UpdateFields).response
    ensures Guard(s, body, UpdateFields).Pass? && !Field(body, "password").Str? ==> r.response == ServerError
    ensures r.response.Ok? <==> Guard(s, body, UpdateFields).Pass? && Field(body, "password").Str?
    ensures r.response.Ok? ==>
      && r.response.record.UserRecord?
      && var key, before, u := Field(body, "user_id"), Caller(s, body), r.response.record.user;
      && u.id == before.id
      && u.name == Field(body, "name")
      && u.email == Field(body, "email")
      && u.password == hash(Field(body, "password").s)
      && u.photo == Get(body, "photo")
      && u.updateAt == Some(now)
      && Replaced(s.users, r.store.users, key, u)
      && r.store.cards == s.cards
      && r.store.categories == s.categories
  {
    match Guard(s, body, UpdateFields)
    case Fail(e) => Reply(e, s)
    case Pass =>
      var key := Field(body, "user_id");
      var password := Field(body, "password");
      if !password.Str? then
        Reply(ServerError, s)
      else
        var user := s.users[key].(
          name := Field(body, "name"),
          password := hash(password.s),
          email := Field(body, "email"),
          photo := Get(body, "photo"),
          updateAt := Some(now));
        Reply(Ok(UserRecord(user)), s.(users := s.users[key := user]))
  }

  /** DELETE /user: removes the caller's row and returns it as it was. The caller's cards
      and categories are left in place. */
  function DeleteUser(s: Store, body: Body): (r: Reply)
    ensures !r.response.Ok? ==> r.store == s
    ensures r.response.Ok? <==> Authenticated(s, body)
    ensures !r.response.Ok? ==> r.response == TokenRequired(s, body).response
    ensures r.response.Ok? ==>
      && r.response.record == UserRecord(Caller(s, body))
      && Removed(s.users, r.store.users, Field(body, "user_id"))
      && r.store.cards == s.cards
      && r.store.categories == s.categories
  {
    match TokenRequired(s, body)
    case Fail(e) => Reply(e, s)
    case Pass =>
      var key := Field(body, "user_id");
      Reply(Ok(UserRecord(s.users[key])), s.(users := s.users - {key}))
  }
}
