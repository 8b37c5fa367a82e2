/** The three tables the handlers read and write, as immutable maps keyed by primary key.
    The column definitions live in kanban/models.py, which is not part of this model:
    every column holds the value the handler assigned to it. */
module Models {
  import opened Json

  /** An abstract `datetime.now()` reading. */
  type Time = int

  /** `update_at` is `None` until a PUT sets it (its column default is not modelled). */
  datatype User = User(
    id: Value,
    name: Value,
    email: Value,
    password: string,
    photo: Option<Value>,
    updateAt: Option<Time>)

  datatype Card = Card(
    id: Value,
    title: Value,
    description: Option<Value>,
    status: Value,
    categoryId: Value,
    userId: Value,
    updateAt: Option<Time>)

  datatype CardCategory = CardCategory(
    id: Value,
    name: Value,
    color: Value,
    userId: Value,
    updateAt: Option<Time>)

  datatype Store = Store(
    users: map<Value, User>,
    cards: map<Value, Card>,
    categories: map<Value, CardCategory>)

  /** Every row sits under its own primary key. */
  predicate WellKeyed(s: Store) {
    && (forall k :: k in s.users ==> s.users[k].id == k)
    && (forall k :: k in s.cards ==> s.cards[k].id == k)
    && (forall k :: k in s.categories ==> s.categories[k].id == k)
  }

  /** Every card's `category_id` names an existing category. */
  predicate CardsCategorised(s: Store) {
    forall k :: k in s.cards ==> s.cards[k].categoryId in s.categories
  }

  /** Every primary key in use, in any table. */
  function AllKeys(s: Store): set<Value> {
    s.users.Keys + s.cards.Keys + s.categories.Keys
  }

  /** A freshly generated id collides with no existing row (the uuid4 assumption). */
  predicate FreshFor(s: Store, id: string) {
    Str(id) !in AllKeys(s)
  }
}
