/**
 * The in-memory session store: a `Map` from bearer token to token row in
 * front of the `user_tokens` table. Each method is one run-to-completion step
 * and is proved to perform the transition of the same name in `SessionModel`.
 */
module Storage {
  import opened Wrappers
  import opened Errors
  import opened Tokens
  import opened JsMap
  import opened SessionModel
  import AuthService

  /** Interval of the expiry sweep: one minute, whatever the comment beside it says. */
  const RefreshTime: Millis := 30 * 1000 * 2

  lemma RefreshTimeIsOneMinute()
    ensures RefreshTime == 60 * 1000
    ensures RefreshTime != 23 * 60 * 1000
  {
  }

  class SessionStorage {
    var data: Cache
    /** The table behind the cache, shared with the authentication service. */
    const store: AuthService.UserTokens

    /** The cache map is well formed and the table is keyed by token. */
    ghost predicate Valid()
      reads this, store
    {
      Consistent(Model())
    }

    /** The cache and the table as one value. */
    ghost function Model(): State
      reads this, store
    {
      State(data, store.rows)
    }

    constructor (store: AuthService.UserTokens)
      requires store.Valid()
      ensures Valid() && data == Empty() && this.store == store
    {
      data := Empty();
      this.store := store;
    }

    /**
     * `addSession`. The parameter may be `undefined`: the declared type is not
     * checked at run time and `getSession` passes whatever the store gave.
     */
    method AddSession(id: string, session: Slot)
      requires Valid()
      modifies this
      ensures Valid()
      ensures Model() == SessionModel.AddSession(old(Model()), id, session)
      ensures data.Get(id) == Some(session)
      ensures forall k :: k != id ==> data.Get(k) == old(data.Get(k))
    {
      SetUpserts(data, id, session);
      data := data.Set(id, session);
    }

    /** `getTokenOnDatabase`: the row stored under the token, if any. */
    method GetTokenOnDatabase(id: string, lookupFails: bool) returns (r: Result<Option<UserToken>, Failure>)
      ensures r == SessionModel.TokenOnDatabase(store.rows, id, lookupFails)
      ensures r.Failure? <==> lookupFails
      ensures r.Failure? ==> r.error == DatabaseError
      ensures r.Success? ==> (r.value.Some? <==> id in store.rows)
      ensures r.Success? && r.value.Some? ==> r.value.value == store.rows[id]
    {
      if lookupFails {
        return Failure(DatabaseError);
      }
      if id in store.rows {
        r := Success(Some(store.rows[id]));
      } else {
        r := Success(None);
      }
    }

    /** `removeSession`: the row first, then the cache entry. */
    method RemoveSession(id: string, deleteFails: bool) returns (r: Outcome<Failure>)
      requires Valid()
      modifies this, store
      ensures Valid()
      ensures Step(r, Model()) == SessionModel.RemoveSession(old(Model()), id, deleteFails)
    {
      if deleteFails {
        return Fail(DatabaseError);
      }
      store.rows := store.rows - {id};
      DeleteRemoves(data, id);
      data := data.Delete(id);
      r := Pass;
    }

    /** `getSession`. */
    method GetSession(id: string, now: Millis, lookupFails: bool, deleteFails: bool) returns (r: SessionResult)
      requires Valid()
      modifies this, store
      ensures Valid()
      ensures Step(r, Model()) == SessionModel.GetSession(old(Model()), id, now, lookupFails, deleteFails)
    {
      var cached := data.Get(id);
      var session: Slot;
      if cached.Some? && cached.value.Some? {
        session := cached.value;
      } else {
        var loaded := GetTokenOnDatabase(id, lookupFails);
        if loaded.Failure? {
          return Rejected(loaded.error);
        }
        session := loaded.value;
        AddSession(id, session);
      }
      if session.None? {
        // reading `expired_at` of undefined
        return Rejected(NullDereference);
      }
      if IsPast(session.value, now) {
        var removed := RemoveSession(id, deleteFails);
        if removed.Fail? {
          return Rejected(removed.error);
        }
        return Null;
      }
      r := Session(session.value);
    }

    /**
     * `clearExpiredSessions`: the table sweep, whose failure is swallowed,
     * then a walk over the cache entries in insertion order.
     */
    method ClearExpiredSessions(now: Millis, deleteFails: bool) returns (r: Outcome<Failure>)
      requires Valid()
      modifies this, store
      ensures Valid()
      ensures Step(r, Model()) == SessionModel.ClearExpiredSessions(old(Model()), now, deleteFails)
    {
      AuthService.AuthService.ClearExpiredTokens(store, now, deleteFails);
      var keys := data.order;
      var i := 0;
      while i < |keys|
        invariant 0 <= i <= |keys|
        invariant data.Valid() && store.Valid()
        invariant store.rows == if deleteFails then old(store.rows) else AuthService.ClearedRows(old(store.rows), now)
        invariant SweepCache(data, keys[i..], now) == SweepCache(old(data), old(data).order, now)
      {
        var k := keys[i];
        assert keys[i..][0] == k && keys[i..][1..] == keys[i + 1..];
        if k in data.entries {
          var session := data.entries[k];
          if session.None? {
            // reading `expired_at` of undefined
            return Fail(NullDereference);
          }
          if IsPast(session.value, now) {
            DeleteRemoves(data, k);
            data := data.Delete(k);
          }
        }
        i := i + 1;
      }
      r := Pass;
    }

    /** `getActiveSessions`: the number of cached keys. */
    method GetActiveSessions() returns (n: nat)
      requires Valid()
      ensures n == SessionModel.GetActiveSessions(Model())
      ensures n == |data.entries|
    {
      SizeIsCount(data);
      n := data.Size();
    }

    /** `clear`. */
    method Clear()
      requires Valid()
      modifies this
      ensures Valid()
      ensures Model() == SessionModel.Clear(old(Model()))
      ensures |data.entries| == 0
    {
      data := Empty();
    }
  }
}
