/** Properties that relate several requests, or a request to the store invariants:
    round trips, the order of the two checks, and the checks the handlers leave out. */
module ViewProperties {
  import opened Json
  import opened Maps
  import opened Models
  import opened Http
  import opened Decorators
  import UserViews
  import CardViews
  import CategoryViews

  /** The token check decides first: a body naming no existing user gets "invalid user_id"
      from every token-guarded write, whatever other fields are missing. */
  lemma TokenCheckRunsFirst(s: Store, body: Body, newId: string, now: Time, hash: string -> string)
    requires Present(body, "user_id") && Field(body, "user_id") !in s.users
    requires FreshFor(s, newId)
    ensures UserViews.UpdateUser(s, body, now, hash) == Reply(InvalidUserId, s)
    ensures UserViews.DeleteUser(s, body) == Reply(InvalidUserId, s)
    ensures CardViews.CreateCard(s, body, newId) == Reply(InvalidUserId, s)
    ensures CardViews.UpdateCard(s, body, now) == Reply(InvalidUserId, s)
    ensures CardViews.DeleteCard(s, body) == Reply(InvalidUserId, s)
    ensures CategoryViews.CreateCardCategory(s, body, newId) == Reply(InvalidUserId, s)
    ensures CategoryViews.UpdateCardCategory(s, body, now) == Reply(InvalidUserId, s)
    ensures CategoryViews.DeleteCardCategory(s, body) == Reply(InvalidUserId, s)
  {
  }

  /** Illustration of `TokenCheckRunsFirst`: an unknown `user_id` and no `title` on POST /card. */
  lemma UnknownUserBeatsMissingTitle()
    ensures var body := map["user_id" := Some(Str("ghost")), "category_id" := Some(Str("k")), "status" := Some(Str("todo"))];
      CardViews.CreateCard(Store(map[], map[], map[]), body, "n").response == HttpException(400, "invalid user_id")
  {
  }

  /** Illustration of `TokenRequired`: the "token" is only a claimed id, so a body naming an
      existing user passes. */
  lemma AnyKnownIdAuthenticates(s: Store, id: Value)
    requires id in s.users
    ensures TokenRequired(s, map["user_id" := Some(id)]).Pass?
  {
  }

  /** POST /card-category then GET /card-category/{id} by the same caller returns the
      created record. */
  lemma CreateThenGetCategory(s: Store, body: Body, newId: string)
    requires Str(newId) !in s.categories
    requires CategoryViews.CreateCardCategory(s, body, newId).response.Ok?
    ensures var r := CategoryViews.CreateCardCategory(s, body, newId);
      CategoryViews.GetCardCategory(r.store, body, newId).response == r.response
  {
  }

  /** POST /card then GET /card/{id} by the same caller returns the created record. */
  lemma CreateThenGetCard(s: Store, body: Body, newId: string)
    requires Str(newId) !in s.cards
    requires CardViews.CreateCard(s, body, newId).response.Ok?
    ensures var r := CardViews.CreateCard(s, body, newId);
      CardViews.GetCard(r.store, body, newId).response == r.response
  {
  }

  /** With rows under their own keys, a created card carries exactly the ids the body named. */
  lemma CreateCardUsesBodyIds(s: Store, body: Body, newId: string)
    requires WellKeyed(s)
    requires Str(newId) !in s.cards
    requires CardViews.CreateCard(s, body, newId).response.Ok?
    ensures var c := CardViews.CreateCard(s, body, newId).response.record.card;
      c.userId == Field(body, "user_id") && c.categoryId == Field(body, "category_id")
  {
  }

  /** A deleted card is gone: a later GET /card/{id} by anyone answers 404 or a token error. */
  lemma DeleteThenGetCard(s: Store, body: Body, cardId: string, reader: Body)
    requires Present(body, "id") && Field(body, "id") == Str(cardId)
    requires CardViews.DeleteCard(s, body).response.Ok?
    ensures !CardViews.GetCard(CardViews.DeleteCard(s, body).store, reader, cardId).response.Ok?
  {
  }

  /** A deleted category is gone: a later GET by anyone is not a 200. */
  lemma DeleteThenGetCategory(s: Store, body: Body, categoryId: string, reader: Body)
    requires Present(body, "category_id") && Field(body, "category_id") == Str(categoryId)
    requires CategoryViews.DeleteCardCategory(s, body).response.Ok?
    ensures !CategoryViews.GetCardCategory(CategoryViews.DeleteCardCategory(s, body).store, reader, categoryId).response.Ok?
  {
  }

  /** Deleting the same card twice: the second request is a 404 that changes nothing. */
  lemma DeleteCardTwice(s: Store, body: Body)
    requires CardViews.DeleteCard(s, body).response.Ok?
    ensures var s' := CardViews.DeleteCard(s, body).store;
      CardViews.DeleteCard(s', body) == Reply(CardViews.CardNotFound, s')
  {
  }

  /** PUT /card by the owner, then GET /card/{id} by the owner, returns the updated record. */
  lemma UpdateThenGetCard(s: Store, body: Body, now: Time, cardId: string)
    requires Present(body, "id") && Field(body, "id") == Str(cardId)
    requires CardViews.UpdateCard(s, body, now).response.Ok?
    requires CardViews.OwnedBy(s.cards[Str(cardId)], Caller(s, body))
    ensures var r := CardViews.UpdateCard(s, body, now);
      CardViews.GetCard(r.store, body, cardId).response == r.response
  {
  }

  /** PUT /card does not check ownership: a caller who does not own the card rewrites it,
      and the card stays with its owner, out of the caller's own GET. */
  lemma StrangerUpdatesCard(s: Store, body: Body, now: Time)
    requires Authenticated(s, body) && AllPresent(CardViews.UpdateFields, body)
    requires Present(body, "id") && Field(body, "id") in s.cards
    requires !CardViews.OwnedBy(s.cards[Field(body, "id")], Caller(s, body))
    ensures var r := CardViews.UpdateCard(s, body, now);
      && r.response.Ok?
      && r.store.cards[Field(body, "id")].title == Field(body, "title")
      && !CardViews.OwnedBy(r.store.cards[Field(body, "id")], Caller(s, body))
  {
  }

  /** DELETE /card does not check ownership either. */
  lemma StrangerDeletesCard(s: Store, body: Body)
    requires Authenticated(s, body) && AllPresent(CardViews.DeleteFields, body)
    requires Present(body, "id") && Field(body, "id") in s.cards
    requires !CardViews.OwnedBy(s.cards[Field(body, "id")], Caller(s, body))
    ensures Field(body, "id") !in CardViews.DeleteCard(s, body).store.cards
  {
  }

  /** PUT /card-category does not check ownership: a caller who does not own a category
      rewrites it, and it stays with its owner. */
  lemma StrangerUpdatesCategory(s: Store, body: Body, now: Time)
    requires Authenticated(s, body) && AllPresent(CategoryViews.UpdateFields, body)
    requires Present(body, "category_id") && Field(body, "category_id") in s.categories
    requires !CategoryViews.OwnedBy(s.categories[Field(body, "category_id")], Caller(s, body))
    ensures var r := CategoryViews.UpdateCardCategory(s, body, now);
      && r.response.Ok?
      && r.store.categories[Field(body, "category_id")].name == Field(body, "name")
      && !CategoryViews.OwnedBy(r.store.categories[Field(body, "category_id")], Caller(s, body))
  {
  }

  /** DELETE /card-category does not check ownership either. */
  lemma StrangerDeletesCategory(s: Store, body: Body)
    requires Authenticated(s, body) && AllPresent(CategoryViews.DeleteFields, body)
    requires Present(body, "category_id") && Field(body, "category_id") in s.categories
    requires !CategoryViews.OwnedBy(s.categories[Field(body, "category_id")], Caller(s, body))
    ensures CategoryViews.DeleteCardCategory(s, body).response.Ok?
    ensures Field(body, "category_id") !in CategoryViews.DeleteCardCategory(s, body).store.categories
  {
  }

  /** DELETE /user touches no card or category row: the caller's cards and categories
      remain, still naming the removed user. Foreign keys or cascades declared outside this
      model are not taken into account. */
  lemma DeleteUserKeepsReferringRows(s: Store, body: Body, card: Value, category: Value)
    requires Authenticated(s, body)
    requires card in s.cards && CardViews.OwnedBy(s.cards[card], Caller(s, body))
    requires category in s.categories && CategoryViews.OwnedBy(s.categories[category], Caller(s, body))
    ensures var s' := UserViews.DeleteUser(s, body).store;
      && card in s'.cards && s'.cards[card] == s.cards[card]
      && category in s'.categories && s'.categories[category] == s.categories[category]
      && Field(body, "user_id") !in s'.users
  {
  }

  /** POST /user then GET /user naming the new id returns the created record. */
  lemma CreateThenGetUser(s: Store, body: Body, newId: string, hash: string -> string)
    requires Str(newId) !in s.users
    requires UserViews.CreateUser(s, body, newId, hash).response.Ok?
    ensures var r := UserViews.CreateUser(s, body, newId, hash);
      UserViews.GetUser(r.store, map["user_id" := Some(Str(newId))]).response == r.response
  {
  }

  /** After DELETE /user, any request naming that id fails the token check with
      "invalid user_id". */
  lemma DeleteThenGetUser(s: Store, body: Body)
    requires UserViews.DeleteUser(s, body).response.Ok?
    ensures var s' := UserViews.DeleteUser(s, body).store;
      UserViews.GetUser(s', body) == Reply(InvalidUserId, s')
  {
  }

  /** POST /card checks only that the category exists, not whose it is: a card can be
      filed under another user's category. */
  lemma ForeignCategoryAccepted(s: Store, body: Body, newId: string)
    requires Str(newId) !in s.cards
    requires Authenticated(s, body) && AllPresent(CardViews.CreateFields, body)
    requires Present(body, "category_id") && Field(body, "category_id") in s.categories
    requires !CategoryViews.OwnedBy(s.categories[Field(body, "category_id")], Caller(s, body))
    ensures CardViews.CreateCard(s, body, newId).response.Ok?
  {
  }

  /** POST /card keeps every card pointing at an existing category. */
  lemma CreateCardKeepsCategorised(s: Store, body: Body, newId: string)
    requires WellKeyed(s) && CardsCategorised(s)
    requires Str(newId) !in s.cards
    ensures CardsCategorised(CardViews.CreateCard(s, body, newId).store)
  {
  }

  /** PUT /card performs no category lookup: the handler writes a card whose `category_id`
      is no key of the category table. Whether the database accepts that commit depends on
      constraints declared outside this model. */
  lemma UpdateCardMayDangle(s: Store, body: Body, now: Time)
    requires Authenticated(s, body) && AllPresent(CardViews.UpdateFields, body)
    requires Present(body, "id") && Field(body, "id") in s.cards
    requires Present(body, "category_id") && Field(body, "category_id") !in s.categories
    ensures CardViews.UpdateCard(s, body, now).response.Ok?
    ensures !CardsCategorised(CardViews.UpdateCard(s, body, now).store)
  {
  }

  /** DELETE /card-category touches no card row: the handler leaves cards whose
      `category_id` is no longer a category key. Foreign keys or cascades declared outside
      this model are not taken into account. */
  lemma DeleteCategoryMayOrphan(s: Store, body: Body, card: Value)
    requires CategoryViews.DeleteCardCategory(s, body).response.Ok?
    requires card in s.cards && s.cards[card].categoryId == Field(body, "category_id")
    ensures !CardsCategorised(CategoryViews.DeleteCardCategory(s, body).store)
  {
  }
}
