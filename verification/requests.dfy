/** The store as it evolves under any sequence of requests to the fourteen routes. The
    non-deterministic inputs of each request (the uuid4 string, the clock reading and
    the salted hash) come with it as a `Tick`. */
module Requests {
  import opened Json
  import opened Models
  import opened Http
  import Decorators
  import UserViews
  import CardViews
  import CategoryViews

  datatype Request =
    | UserGet(body: Body)
    | UserPost(body: Body)
    | UserPut(body: Body)
    | UserDelete(body: Body)
    | CardList(body: Body)
    | CardGet(body: Body, cardId: string)
    | CardPost(body: Body)
    | CardPut(body: Body)
    | CardDelete(body: Body)
    | CategoryList(body: Body)
    | CategoryGet(body: Body, categoryId: string)
    | CategoryPost(body: Body)
    | CategoryPut(body: Body)
    | CategoryDelete(body: Body)

  datatype Tick = Tick(newId: string, now: Time, hash: string -> string)

  /** The requests that only read. */
  predicate IsRead(req: Request) {
    req.UserGet? || req.CardList? || req.CardGet? || req.CategoryList? || req.CategoryGet?
  }

  /** The store after one request. The two list routes return no store: they only read. */
  function After(s: Store, req: Request, t: Tick): (s': Store)
    requires FreshFor(s, t.newId)
    ensures IsRead(req) ==> s' == s
  {
    match req
    case UserGet(body) => UserViews.GetUser(s, body).store
    case UserPost(body) => UserViews.CreateUser(s, body, t.newId, t.hash).store
    case UserPut(body) => UserViews.UpdateUser(s, body, t.now, t.hash).store
    case UserDelete(body) => UserViews.DeleteUser(s, body).store
    case CardList(_) => s
    case CardGet(body, id) => CardViews.GetCard(s, body, id).store
    case CardPost(body) => CardViews.CreateCard(s, body, t.newId).store
    case CardPut(body) => CardViews.UpdateCard(s, body, t.now).store
    case CardDelete(body) => CardViews.DeleteCard(s, body).store
    case CategoryList(_) => s
    case CategoryGet(body, id) => CategoryViews.GetCardCategory(s, body, id).store
    case CategoryPost(body) => CategoryViews.CreateCardCategory(s, body, t.newId).store
    case CategoryPut(body) => CategoryViews.UpdateCardCategory(s, body, t.now).store
    case CategoryDelete(body) => CategoryViews.DeleteCardCategory(s, body).store
  }

  /** One request adds at most the generated id as a key and keeps every row under its
      own primary key. */
  lemma AfterKeepsKeys(s: Store, req: Request, t: Tick)
    requires FreshFor(s, t.newId)
    ensures AllKeys(After(s, req, t)) <= AllKeys(s) + {Str(t.newId)}
    ensures WellKeyed(s) ==> WellKeyed(After(s, req, t))
  {
    if req.UserPost? || req.UserPut? || req.UserDelete? {
      UserWriteKeepsKeys(s, req, t);
    } else if req.CardPost? || req.CardPut? || req.CardDelete? {
      CardWriteKeepsKeys(s, req, t);
    } else if req.CategoryPost? || req.CategoryPut? || req.CategoryDelete? {
      CategoryWriteKeepsKeys(s, req, t);
    }
  }

  lemma UserWriteKeepsKeys(s: Store, req: Request, t: Tick)
    requires FreshFor(s, t.newId)
    requires req.UserPost? || req.UserPut? || req.UserDelete?
    ensures AllKeys(After(s, req, t)) <= AllKeys(s) + {Str(t.newId)}
    ensures WellKeyed(s) ==> WellKeyed(After(s, req, t))
  {
  }

  lemma CardWriteKeepsKeys(s: Store, req: Request, t: Tick)
    requires FreshFor(s, t.newId)
    requires req.CardPost? || req.CardPut? || req.CardDelete?
    ensures AllKeys(After(s, req, t)) <= AllKeys(s) + {Str(t.newId)}
    ensures WellKeyed(s) ==> WellKeyed(After(s, req, t))
  {
  }

  lemma CategoryWriteKeepsKeys(s: Store, req: Request, t: Tick)
    requires FreshFor(s, t.newId)
    requires req.CategoryPost? || req.CategoryPut? || req.CategoryDelete?
    ensures AllKeys(After(s, req, t)) <= AllKeys(s) + {Str(t.newId)}
    ensures WellKeyed(s) ==> WellKeyed(After(s, req, t))
  {
  }

  function IdsOf(ticks: seq<Tick>): set<Value> {
    set i | 0 <= i < |ticks| :: Str(ticks[i].newId)
  }

  /** The generated ids are pairwise distinct and unused in `s`. */
  predicate FreshIds(s: Store, ticks: seq<Tick>) {
    && (forall i, j :: 0 <= i < j < |ticks| ==> ticks[i].newId != ticks[j].newId)
    && (forall i :: 0 <= i < |ticks| ==> FreshFor(s, ticks[i].newId))
  }

  /** The store after the requests, in order. Keys only ever come from the generated ids,
      and every row stays under its own primary key. */
  function Run(s: Store, reqs: seq<Request>, ticks: seq<Tick>): (s': Store)
    requires |ticks| == |reqs|
    requires FreshIds(s, ticks)
    ensures AllKeys(s') <= AllKeys(s) + IdsOf(ticks)
    ensures WellKeyed(s) ==> WellKeyed(s')
    decreases |reqs|
  {
    if |reqs| == 0 then s
    else
      var next := After(s, reqs[0], ticks[0]);
      AfterKeepsKeys(s, reqs[0], ticks[0]);
      assert FreshIds(next, ticks[1..]);
      assert IdsOf(ticks) == {Str(ticks[0].newId)} + IdsOf(ticks[1..]) by {
        forall v | v in IdsOf(ticks) ensures v in {Str(ticks[0].newId)} + IdsOf(ticks[1..]) {
          var i :| 0 <= i < |ticks| && v == Str(ticks[i].newId);
          if i > 0 {
            assert v == Str(ticks[1..][i - 1].newId);
          }
        }
      }
      Run(next, reqs[1..], ticks[1..])
  }

  /** Reads never change the store, however many of them are made. */
  lemma {:induction false} ReadsLeaveStore(s: Store, reqs: seq<Request>, ticks: seq<Tick>)
    requires |ticks| == |reqs|
    requires FreshIds(s, ticks)
    requires forall i :: 0 <= i < |reqs| ==> IsRead(reqs[i])
    ensures Run(s, reqs, ticks) == s
    decreases |reqs|
  {
    if |reqs| > 0 {
      assert IsRead(reqs[0]);
      assert After(s, reqs[0], ticks[0]) == s;
      ReadsLeaveStore(s, reqs[1..], ticks[1..]);
    }
  }

  /** Every route except POST /user sits behind the token check, so a request whose
      `user_id` names no user changes nothing. */
  lemma UnauthenticatedLeavesStore(s: Store, req: Request, t: Tick)
    requires FreshFor(s, t.newId)
    requires !req.UserPost?
    requires !Decorators.Authenticated(s, req.body)
    ensures After(s, req, t) == s
  {
  }

  /** However long the sequence, requests from callers who name no user (and no
      registrations) leave the store as it was. */
  lemma {:induction false} StrangersLeaveStore(s: Store, reqs: seq<Request>, ticks: seq<Tick>)
    requires |ticks| == |reqs|
    requires FreshIds(s, ticks)
    requires forall i :: 0 <= i < |reqs| ==> !reqs[i].UserPost? && !Decorators.Authenticated(s, reqs[i].body)
    ensures Run(s, reqs, ticks) == s
    decreases |reqs|
  {
    if |reqs| > 0 {
      UnauthenticatedLeavesStore(s, reqs[0], ticks[0]);
      StrangersLeaveStore(s, reqs[1..], ticks[1..]);
    }
  }
}
