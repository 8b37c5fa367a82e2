/** The `/card-category` endpoints, shaped like the `/card` ones. The PUT and DELETE
    handlers name their row through the body field `category_id`. */
module CategoryViews {
  import opened Json
  import opened Maps
  import opened Models
  import opened Http
  import opened Decorators
  import Listing

  const CategoryNotFound: Response := ErrorResponse(NotFound, "card category not found")

  const CreateFields: seq<string> := ["name", "color"]
  const UpdateFields: seq<string> := ["category_id", "name", "color"]
  const DeleteFields: seq<string> := ["category_id"]

  predicate OwnedBy(c: CardCategory, u: User) {
    c.userId == u.id
  }

  /** GET /card-category: every category of the caller, each exactly once, in the order
      given by `keys`. */
  method GetCardsCategories(s: Store, body: Body) returns (r: Response, ghost keys: seq<Value>)
    ensures !Authenticated(s, body) ==> r == TokenRequired(s, body).response
    ensures Authenticated(s, body) ==>
      && r.OkList?
      && |r.records| == |keys|
      && (forall i, j :: 0 <= i < j < |keys| ==> keys[i] != keys[j])
      && (forall k :: k in keys <==> k in s.categories && OwnedBy(s.categories[k], Caller(s, body)))
      && (forall i :: 0 <= i < |keys| ==>
            keys[i] in s.categories && r.records[i] == CategoryRecord(s.categories[keys[i]]))
  {
    var check := TokenRequired(s, body);
    if check.Fail? {
      return check.response, [];
    }
    var user := Caller(s, body);
    var categories;
    categories, keys := Listing.Filter(s.categories, (c: CardCategory) => OwnedBy(c, user));
    r := OkList(seq(|categories|, i requires 0 <= i < |categories| => CategoryRecord(categories[i])));
  }

  /** GET /card-category/{card_category_id}: the category only if it exists and is the caller's. */
  function GetCardCategory(s: Store, body: Body, categoryId: string): (r: Reply)
    ensures r.store == s
    ensures r.response.Ok? <==>
      && Authenticated(s, body)
      && Str(categoryId) in s.categories
      && OwnedBy(s.categories[Str(categoryId)], Caller(s, body))
    ensures r.response.Ok? ==> r.response.record == CategoryRecord(s.categories[Str(categoryId)])
    ensures !Authenticated(s, body) ==> r.response == TokenRequired(s, body).response
    ensures Authenticated(s, body) && !r.response.Ok? ==> r.response == CategoryNotFound
  {
    match TokenRequired(s, body)
    case Fail(e) => Reply(e, s)
    case Pass =>
      var key := Str(categoryId);
      if key in s.categories && OwnedBy(s.categories[key], Caller(s, body)) then
        Reply(Ok(CategoryRecord(s.categories[key])), s)
      else
        Reply(CategoryNotFound, s)
  }

  /** POST /card-category: a new category owned by the caller under the generated id. */
  function CreateCardCategory(s: Store, body: Body, newId: string): (r: Reply)
    requires Str(newId) !in s.categories
    ensures !r.response.Ok? ==> r.store == s
    ensures r.response.Ok? <==> Guard(s, body, CreateFields).Pass?
    ensures !r.response.Ok? ==> r.response == Guard(s, body, CreateFields).response
    ensures r.response.Ok? ==>
      && r.response.record.CategoryRecord?
      && var c := r.response.record.category;
      && c.id == Str(newId)
      && c.userId == Caller(s, body).id
      && c.name == Field(body, "name")
      && c.color == Field(body, "color")
      && c.updateAt.None?
      && Inserted(s.categories, r.store.categories, Str(newId), c)
      && r.store.users == s.users
      && r.store.cards == s.cards
  {
    match Guard(s, body, CreateFields)
    case Fail(e) => Reply(e, s)
    case Pass =>
      var category := CardCategory(
        name := Field(body, "name"),
        color := Field(body, "color"),
        userId := Caller(s, body).id,
        id := Str(newId),
        updateAt := None);
      Reply(Ok(CategoryRecord(category)), s.(categories := s.categories[Str(newId) := category]))
  }

  /** PUT /card-category: overwrites name and color of the category named by `category_id`
      and stamps it. The owner is not checked. */
  function UpdateCardCategory(s: Store, body: Body, now: Time): (r: Reply)
    ensures !r.response.Ok? ==> r.store == s
    ensures Guard(s, body, UpdateFields).Fail? ==> r.response == Guard(s, body, UpdateFields).response
    ensures r.response.Ok? <==>
      Guard(s, body, UpdateFields).Pass? && Field(body, "category_id") in s.categories
    ensures Guard(s, body, UpdateFields).Pass? && !r.response.Ok? ==> r.response == CategoryNotFound
    ensures r.response.Ok? ==>
      && r.response.record.CategoryRecord?
      && var key := Field(body, "category_id");
      && var before, c := s.categories[key], r.response.record.category;
      && c.id == before.id
      && c.userId == before.userId
      && c.name == Field(body, "name")
      && c.color == Field(body, "color")
      && c.updateAt == Some(now)
      && Replaced(s.categories, r.store.categories, key, c)
      && r.store.users == s.users
      && r.store.cards == s.cards
  {
    match Guard(s, body, UpdateFields)
    case Fail(e) => Reply(e, s)
    case Pass =>
      var key := Field(body, "category_id");
      if key in s.categories then
        var category := s.categories[key].(
          name := Field(body, "name"),
          color := Field(body, "color"),
          updateAt := Some(now));
        Reply(Ok(CategoryRecord(category)), s.(categories := s.categories[key := category]))
      else
        Reply(CategoryNotFound, s)
  }

  /** DELETE /card-category: removes the category named by `category_id` and returns it as
      it was. Neither the owner nor the cards that still refer to it are checked. */
  function DeleteCardCategory(s: Store, body: Body): (r: Reply)
    ensures !r.response.Ok? ==> r.store == s
    ensures Guard(s, body, DeleteFields).Fail? ==> r.response == Guard(s, body, DeleteFields).response
    ensures r.response.Ok? <==>
      Guard(s, body, DeleteFields).Pass? && Field(body, "category_id") in s.categories
    ensures Guard(s, body, DeleteFields).Pass? && !r.response.Ok? ==> r.response == CategoryNotFound
    ensures r.response.Ok? ==>
      && r.response.record == CategoryRecord(s.categories[Field(body, "category_id")])
      && Removed(s.categories, r.store.categories, Field(body, "category_id"))
      && r.store.users == s.users
      && r.store.cards == s.cards
  {
    match Guard(s, body, DeleteFields)
    case Fail(e) => Reply(e, s)
    case Pass =>
      var key := Field(body, "category_id");
      if key !in s.categories then
        Reply(CategoryNotFound, s)
      else
        Reply(Ok(CategoryRecord(s.categories[key])), s.(categories := s.categories - {key}))
  }
}
