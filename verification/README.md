# Kanban request handlers, modelled in Dafny

This project models the request-handling core of a small kanban backend
(`kanban/views.py`). It has users, cards and card categories, each behind GET, POST,
PUT and DELETE endpoints. The database becomes an immutable `Store` of three maps
keyed by primary key. A request body becomes a map from field name to an optional JSON
value, where `None` is an explicit `null`. Each handler becomes a pure function from the
store and the body to a `Reply`, which pairs the response with the store left behind.

The two decorators are explicit validation functions:

- `required_fields`: `Decorators.RequiredFields` reports the first missing or `null` field.
- `token_required`: `Decorators.TokenRequired` checks that `user_id` names an existing user.

They run in the order the source stacks them (`Decorators.Guard`). The handlers are split
by resource into `UserViews`, `CardViews` and `CategoryViews`. `Requests.Run` drives the
store through any sequence of requests.

The model keeps the source's gaps:

- PUT and DELETE on cards and categories do not check ownership.
- PUT /card does not check that the new `category_id` exists.
- POST /card checks that the category exists, not that the caller owns it.
- DELETE on a user or a category issues no change to the rows that refer to it. What the database then does (a foreign-key error or a cascade) is decided in `kanban/models.py`, which is not part of this model.

Lemmas in `ViewProperties` show each of these gaps: `StrangerUpdatesCard`, `StrangerDeletesCard`, `StrangerUpdatesCategory` and `StrangerDeletesCategory` for ownership, `UpdateCardMayDangle` and `ForeignCategoryAccepted` for categories, and `DeleteCategoryMayOrphan` and `DeleteUserKeepsReferringRows` for deletes.

Non-deterministic and foreign inputs are parameters:

- the `uuid4()` string is `newId`, with a precondition that it is unused;
- `datetime.now()` is `now`;
- the salted `bcrypt` hash is a function `hash: string -> string`.

The two list endpoints are methods, because enumerating a map needs a choice of order. They
use `Listing.Filter`, which returns every matching row exactly once in an unspecified order,
like a query without `ORDER BY`.

Two behaviours of the code are worth spelling out:

- PUT /card and PUT /user overwrite `description` (kanban/views.py:161) and `photo` (kanban/views.py:85) with `null` when the body omits them.
- DELETE /user has no 404 branch (kanban/views.py:91-101). A missing user is already rejected with 400 `invalid user_id` by the token check.

## Model

| member | source | states |
|---|---|---|
| Json.Get | kanban/views.py:20 | `body.get(f)` is absent exactly when the key is missing or holds `null`, and otherwise is the stored value |
| Decorators.RequiredFields | kanban/views.py:14-24 | passes iff every listed field is present and not null; otherwise fails with 400 `required field "<f>"` for the first missing field in declaration order |
| Decorators.FirstMissingUnique | kanban/views.py:19-21 | the reported field is determined: only one index is missing with all earlier fields present |
| Decorators.TokenRequired | kanban/views.py:27-39 | passes iff `user_id` is present and is a user key; a missing `user_id` fails exactly as a required-field check on `user_id`; an unknown one fails with 400 `invalid user_id` |
| Decorators.Guard | kanban/views.py:127-130 | token check before field check: any token failure is reported as is, and the field check decides only once the caller is authenticated |
| Listing.Filter | kanban/views.py:110-111 | returns the rows satisfying the condition, none omitted and none extra, one per matching key (as many as there are matching keys, keys distinct) |
| UserViews.GetUser | kanban/views.py:43-50 | 200 with the caller's row iff the token check passes; the store is unchanged |
| UserViews.CreateUser | kanban/views.py:52-70 | no token needed; missing field gives its 400; a non-string password raises; otherwise exactly one new user under the generated id with the body's name, email, photo and hashed password, nothing else changed |
| UserViews.UpdateUser | kanban/views.py:72-89 | token then fields; only the caller's row changes: name, email, hashed password, photo (cleared when absent) and update time; id kept; errors leave the store unchanged |
| UserViews.DeleteUser | kanban/views.py:91-101 | removes exactly the caller's row and returns it as it was; cards and categories untouched |
| CardViews.GetCards | kanban/views.py:103-112 | 200 with exactly the caller's cards, each once, none foreign; token errors otherwise |
| CardViews.GetCard | kanban/views.py:114-125 | 200 with the card iff it exists and its `user_id` is the caller's id, else 404 `card not found` (after the token check); the store is never modified |
| CardViews.CreateCard | kanban/views.py:127-149 | unknown `category_id` gives 400 `invalid category_id` with the store unchanged; otherwise exactly one new card under the generated id, owned by the caller, with the body's title, status, description and the category's id; nothing else changes |
| CardViews.UpdateCard | kanban/views.py:151-168 | unknown `id` gives 404 with the store unchanged; otherwise only that card's status, title, description, category and update time change, its id and owner are kept; no ownership or category check |
| CardViews.DeleteCard | kanban/views.py:170-182 | unknown `id` gives 404 with the store unchanged; otherwise exactly that key is removed, the returned record is its pre-delete value, other tables unchanged |
| CategoryViews.GetCardsCategories | kanban/views.py:184-196 | 200 with exactly the caller's categories, each once, none foreign; token errors otherwise |
| CategoryViews.GetCardCategory | kanban/views.py:198-209 | 200 with the category iff it exists and is the caller's, else 404 `card category not found`; the store is never modified |
| CategoryViews.CreateCardCategory | kanban/views.py:211-228 | succeeds iff both checks pass; exactly one new category under the generated id, owned by the caller, with the body's name and color; nothing else changes |
| CategoryViews.UpdateCardCategory | kanban/views.py:230-245 | unknown `category_id` gives 404 with the store unchanged; otherwise only that category's name, color and update time change, id and owner kept |
| CategoryViews.DeleteCardCategory | kanban/views.py:247-259 | unknown `category_id` gives 404 with the store unchanged; otherwise exactly that key is removed and returned as it was; cards untouched |
| Requests.After | kanban/views.py:42-259 | a read request leaves the store as it was |
| Requests.AfterKeepsKeys | kanban/views.py:52-259 | one request adds no key but the generated id, and keeps every row under its own primary key |
| Requests.Run | kanban/views.py:42-259 | over any sequence of requests with distinct unused generated ids, keys only come from those ids and every row stays under its own key |
| Requests.ReadsLeaveStore | kanban/views.py:43-209 | any sequence of GET requests leaves the store unchanged |
| Requests.UnauthenticatedLeavesStore | kanban/views.py:32-37 | any request but POST /user whose `user_id` names no user leaves the store as it was |
| Requests.StrangersLeaveStore | kanban/views.py:32-37 | any sequence of such requests leaves the store as it was |
| ViewProperties.TokenCheckRunsFirst | kanban/views.py:151-153 | with an unknown `user_id`, every token-guarded write answers 400 `invalid user_id` and changes nothing, whatever else is missing |
| ViewProperties.UnknownUserBeatsMissingTitle | kanban/views.py:127-129 | illustration of `TokenCheckRunsFirst`: POST /card with an unknown `user_id` and no `title` answers `invalid user_id`, not the missing-field error |
| ViewProperties.AnyKnownIdAuthenticates | kanban/views.py:32-38 | illustration of `TokenRequired`: a body holding nothing but an existing user's id passes the token check, no secret is asked for |
| ViewProperties.CreateThenGetCategory | kanban/views.py:219-224 | POST /card-category then GET by the new id by the same caller returns the created record |
| ViewProperties.CreateThenGetCard | kanban/views.py:138-145 | POST /card then GET /card/{id} by the same caller returns the created record |
| ViewProperties.CreateCardUsesBodyIds | kanban/views.py:142-144 | with rows under their own keys, the new card's owner and category are the ids the body named |
| ViewProperties.DeleteThenGetCard | kanban/views.py:176-179 | after a successful DELETE /card, GET of that id is never a 200 |
| ViewProperties.DeleteThenGetCategory | kanban/views.py:253-256 | after a successful DELETE /card-category, GET of that id is never a 200 |
| ViewProperties.DeleteCardTwice | kanban/views.py:176-178 | a second DELETE of the same card answers 404 and changes nothing |
| ViewProperties.UpdateThenGetCard | kanban/views.py:157-166 | the owner's PUT /card followed by the owner's GET returns the updated record |
| ViewProperties.StrangerUpdatesCard | kanban/views.py:157-163 | a caller who does not own a card can still rewrite it; the owner stays unchanged |
| ViewProperties.StrangerDeletesCard | kanban/views.py:176-179 | a caller who does not own a card can still delete it |
| ViewProperties.StrangerUpdatesCategory | kanban/views.py:236-243 | a caller who does not own a category can still rewrite its name; the owner stays unchanged |
| ViewProperties.StrangerDeletesCategory | kanban/views.py:253-259 | a caller who does not own a category can still delete it |
| ViewProperties.DeleteUserKeepsReferringRows | kanban/views.py:96-101 | DELETE /user removes the user row and changes no card or category row, so the caller's cards and categories remain |
| ViewProperties.CreateThenGetUser | kanban/views.py:59-70 | POST /user then GET /user naming the new id returns the created record |
| ViewProperties.DeleteThenGetUser | kanban/views.py:96-98 | after DELETE /user, GET /user with the same body answers 400 `invalid user_id` and changes nothing |
| ViewProperties.ForeignCategoryAccepted | kanban/views.py:135-137 | POST /card succeeds with a category owned by another user: only existence is checked |
| ViewProperties.CreateCardKeepsCategorised | kanban/views.py:135-142 | POST /card keeps every card pointing at an existing category |
| ViewProperties.UpdateCardMayDangle | kanban/views.py:157-163 | PUT /card performs no category lookup: with an unknown `category_id` the handler answers 200 and writes a card whose category is no key of the category table |
| ViewProperties.DeleteCategoryMayOrphan | kanban/views.py:253-256 | DELETE /card-category touches no card row: the cards that named the category keep a `category_id` that is no longer a key of the category table |

## Left out

- FastAPI routing, `async`/`await`, and `JSONResponse`/`HTTPException` rendering: framework plumbing. Responses are a datatype that keeps the status, the message and whether it came as `detail` or `error`.
- Decoding with `Request.json()`: a malformed body or a non-object body is not modelled. Only scalar JSON values (strings without lone surrogates, integers, booleans) are; arrays, objects and floats are not.
- SQLAlchemy sessions, `select`, `commit` and `flush`: persistence I/O, replaced by immutable maps. A row is found by a key iff the key equals the given value. The database's type coercion is not modelled.
- `kanban/models.py` is not part of this model. So column types, defaults (`created_at`, the initial `update_at`), database constraints (foreign keys, uniqueness, NOT NULL) and delete cascades are not modelled. A stored column holds exactly the value the handler assigned. A model row is assumed truthy in `if card:`.
- `to_dict()` serialisation: also in `kanban/models.py`. A returned record is the row itself.
- `uuid4()`, `datetime.now()`, `bcrypt.hashpw`/`gensalt`: non-deterministic or foreign. They are the parameters `newId`, `now` and `hash`.
- Failures of the database, such as a lost connection or a constraint violation: they would surface as unhandled 500s and are not modelled. The only `ServerError` modelled is a non-string password reaching `.encode`; the lone-surrogate and over-long-password cases are listed below.
- `kanban/extensions/login.py` and `app.py`: an unused login-manager wrapper and application bootstrap.
- UserViews.CreateUser: does not state that the returned record hides the password, because `to_dict()` is not part of this model.
- UserViews.CreateUser: requires the generated id to be unused among users (the uuid4 assumption). A collision, which the database would reject, is not modelled.
- CardViews.CreateCard: requires the generated id to be unused among cards, for the same reason.
- CategoryViews.CreateCardCategory: requires the generated id to be unused among categories, for the same reason.
- Requests.Run: requires all generated ids of a run to be distinct and unused in every table, for the same reason.
- ViewProperties.UpdateCardMayDangle: holds only at the handler level. If `kanban/models.py` declares a foreign key on the card's category, the commit at kanban/views.py:164 would raise (a 500, store unchanged); that file is not part of this model.
- ViewProperties.DeleteCategoryMayOrphan: holds only at the handler level. A foreign key or an ORM cascade declared in `kanban/models.py` would make the commit at kanban/views.py:257 raise or delete the cards too; that file is not part of this model.
- UserViews.CreateUser: a JSON string holding a lone surrogate (`"\ud800"`) decodes to a Python `str` whose `.encode('utf-8')` raises (a 500). Dafny strings cannot hold lone surrogates, so that error is not modelled.
- UserViews.UpdateUser: the same lone-surrogate `.encode` error is not modelled, for the same reason.
- Requests.Run: each request is modelled as atomic. `token_required` and the handler use two separate sessions (kanban/views.py:30-37 and e.g. :46-49), so a DELETE /user committed between them would leave `user` as `None` and make the handler raise. Such interleavings of concurrent requests are not modelled.
- UserViews.CreateUser: `hash` is a total function, so an error raised by `hashpw` itself is not modelled. For example, bcrypt 5 and later raise `ValueError` on a password longer than 72 bytes (a 500); every string password is answered 200 here.
- UserViews.UpdateUser: the same `hashpw` error is not modelled, for the same reason.
- ViewProperties.DeleteUserKeepsReferringRows: holds only at the handler level. A foreign key or an ORM cascade declared in `kanban/models.py` would make the commit at kanban/views.py:99 raise or delete those rows too; that file is not part of this model.
