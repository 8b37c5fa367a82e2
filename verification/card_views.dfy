/** The `/card` endpoints. Each handler takes the store and the request body (plus the
    path id, the generated id or the clock reading where the source uses one) and returns the
    response together with the store after the request. */
module CardViews {
  import opened Json
  import opened Maps
  import opened Models
  import opened Http
  import opened Decorators
  import Listing

  const CardNotFound: Response := ErrorResponse(NotFound, "card not found")
  const InvalidCategoryId: Response := ErrorResponse(BadRequest, "invalid category_id")

  const CreateFields: seq<string> := ["title", "category_id", "status"]
  const UpdateFields: seq<string> := ["id", "status", "title", "category_id"]
  const DeleteFields: seq<string> := ["id"]

  /** The card is the caller's: its `user_id` equals the caller's id. */
  predicate OwnedBy(c: Card, u: User) {
    c.userId == u.id
  }

  /** GET /card: every card of the caller, each exactly once; `keys` is the order the
      cards come out in. */
  method GetCards(s: Store, body: Body) returns (r: Response, ghost keys: seq<Value>)
    ensures !Authenticated(s, body) ==> r == TokenRequired(s, body).response
    ensures Authenticated(s, body) ==>
      && r.OkList?
      && |r.records| == |keys|
      && (forall i, j :: 0 <= i < j < |keys| ==> keys[i] != keys[j])
      && (forall k :: k in keys <==> k in s.cards && OwnedBy(s.cards[k], Caller(s, body)))
      && (forall i :: 0 <= i < |keys| ==> keys[i] in s.cards && r.records[i] == CardRecord(s.cards[keys[i]]))
  {
    var check := TokenRequired(s, body);
    if check.Fail? {
      return check.response, [];
    }
    var user := Caller(s, body);
    var cards;
    cards, keys := Listing.Filter(s.cards, (c: Card) => OwnedBy(c, user));
    r := OkList(seq(|cards|, i requires 0 <= i < |cards| => CardRecord(cards[i])));
  }

  /** GET /card/{card_id}: the card only if it exists and is the caller's. */
  function GetCard(s: Store, body: Body, cardId: string): (r: Reply)
    ensures r.store == s
    ensures r.response.Ok? <==>
      Authenticated(s, body) && Str(cardId) in s.cards && OwnedBy(s.cards[Str(cardId)], Caller(s, body))
    ensures r.response.Ok? ==> r.response.record == CardRecord(s.cards[Str(cardId)])
    ensures !Authenticated(s, body) ==> r.response == TokenRequired(s, body).response
    ensures Authenticated(s, body) && !r.response.Ok? ==> r.response == CardNotFound
  {
    match TokenRequired(s, body)
    case Fail(e) => Reply(e, s)
    case Pass =>
      var key := Str(cardId);
      if key in s.cards && OwnedBy(s.cards[key], Caller(s, body)) then
        Reply(Ok(CardRecord(s.cards[key])), s)
      else
        Reply(CardNotFound, s)
  }

  /** POST /card: a new card owned by the caller under the generated id, provided the named
      category exists. */
  function CreateCard(s: Store, body: Body, newId: string): (r: Reply)
    requires Str(newId) !in s.cards
    ensures !r.response.Ok? ==> r.store == s
    ensures Guard(s, body, CreateFields).Fail? ==> r.response == Guard(s, body, CreateFields).response
    ensures r.response.Ok? <==>
      Guard(s, body, CreateFields).Pass? && Field(body, "category_id") in s.categories
    ensures Guard(s, body, CreateFields).Pass? && !r.response.Ok? ==> r.response == InvalidCategoryId
    ensures r.response.Ok? ==>
      && r.response.record.CardRecord?
      && var c := r.response.record.card;
      && c.id == Str(newId)
      && c.userId == Caller(s, body).id
      && c.title == Field(body, "title")
      && c.status == Field(body, "status")
      && c.description == Get(body, "description")
      && c.categoryId == s.categories[Field(body, "category_id")].id
      && c.updateAt.None?
      && Inserted(s.cards, r.store.cards, Str(newId), c)
      && r.store.users == s.users
      && r.store.categories == s.categories
  {
    match Guard(s, body, CreateFields)
    case Fail(e) => Reply(e, s)
    case Pass =>
      var categoryId := Field(body, "category_id");
      if categoryId !in s.categories then
        Reply(InvalidCategoryId, s)
      else
        var card := Card(
          id := Str(newId),
          title := Field(body, "title"),
          description := Get(body, "description"),
          status := Field(body, "status"),
          categoryId := s.categories[categoryId].id,
          userId := Caller(s, body).id,
          updateAt := None);
        Reply(Ok(CardRecord(card)), s.(cards := s.cards[Str(newId) := card]))
  }

  /** PUT /card: overwrites status, title, description and category of the card named by
      `id` and stamps it. Neither the card's owner nor the new category is checked. */
  function UpdateCard(s: Store, body: Body, now: Time): (r: Reply)
    ensures !r.response.Ok? ==> r.store == s
    ensures Guard(s, body, UpdateFields).Fail? ==> r.response == Guard(s, body, UpdateFields).response
    ensures r.response.Ok? <==> Guard(s, body, UpdateFields).Pass? && Field(body, "id") in s.cards
    ensures Guard(s, body, UpdateFields).Pass? && !r.response.Ok? ==> r.response == CardNotFound
    ensures r.response.Ok? ==>
      && r.response.record.CardRecord?
      && var key, before, c := Field(body, "id"), s.cards[Field(body, "id")], r.response.record.card;
      && c.id == before.id
      && c.userId == before.userId
      && c.title == Field(body, "title")
      && c.status == Field(body, "status")
      && c.description == Get(body, "description")
      && c.categoryId == Field(body, "category_id")
      && c.updateAt == Some(now)
      && Replaced(s.cards, r.store.cards, key, c)
      && r.store.users == s.users
      && r.store.categories == s.categories
  {
    match Guard(s, body, UpdateFields)
    case Fail(e) => Reply(e, s)
    case Pass =>
      var key := Field(body, "id");
      if key in s.cards then
        var card := s.cards[key].(
          status := Field(body, "status"),
          title := Field(body, "title"),
          description := Get(body, "description"),
          updateAt := Some(now),
          categoryId := Field(body, "category_id"));
        Reply(Ok(CardRecord(card)), s.(cards := s.cards[key := card]))
      else
        Reply(CardNotFound, s)
  }

  /** DELETE /card: removes the card named by `id` and returns it as it was. Ownership is
      not checked. */
  function DeleteCard(s: Store, body: Body): (r: Reply)
    ensures !r.response.Ok? ==> r.store == s
    ensures Guard(s, body, DeleteFields).Fail? ==> r.response == Guard(s, body, DeleteFields).response
    ensures r.response.Ok? <==> Guard(s, body, DeleteFields).Pass? && Field(body, "id") in s.cards
    ensures Guard(s, body, DeleteFields).Pass? && !r.response.Ok? ==> r.response == CardNotFound
    ensures r.response.Ok? ==>
      && r.response.record == CardRecord(s.cards[Field(body, "id")])
      && Removed(s.cards, r.store.cards, Field(body, "id"))
      && r.store.users == s.users
      && r.store.categories == s.categories
  {
    match Guard(s, body, DeleteFields)
    case Fail(e) => Reply(e, s)
    case Pass =>
      var key := Field(body, "id");
      if key !in s.cards then
        Reply(CardNotFound, s)
      else
        Reply(Ok(CardRecord(s.cards[key])), s.(cards := s.cards - {key}))
  }
}
