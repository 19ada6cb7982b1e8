/**
 * The session cache as transitions over values: the cache map (in insertion
 * order, as a JavaScript `Map`) and the token table behind it. Whether a table
 * call of the step fails is a parameter: `lookupFails` for the read-through,
 * `deleteFails` for the deletions.
 */
module SessionModel {
  import opened Wrappers
  import opened Errors
  import opened Tokens
  import opened JsMap
  import AuthService

  /**
   * What the cache map holds under a key. `None` is `undefined`: the
   * read-through stores whatever the store lookup gave, including nothing.
   */
  type Slot = Option<UserToken>

  type Cache = OrderedMap<string, Slot>

  datatype State = State(cache: Cache, rows: map<string, UserToken>)

  /** The map is well formed and every row is stored under its own token. */
  ghost predicate Consistent(s: State)
  {
    s.cache.Valid() && AuthService.Keyed(s.rows)
  }

  /** What `getSession` resolves to, or the error it rejects with. */
  datatype SessionResult = Session(token: UserToken) | Null | Rejected(failure: Failure)

  /** A result together with the state the call leaves behind. */
  datatype Step<R> = Step(result: R, state: State)

  /** Holds an expired token. */
  predicate Past(slot: Slot, now: Millis)
  {
    slot.Some? && IsPast(slot.value, now)
  }

  /** No key of the cache holds `undefined`. */
  ghost predicate Clean(c: Cache)
  {
    forall k :: k in c.entries ==> c.entries[k].Some?
  }

  /** `addSession`: an upsert into the cache. */
  function AddSession(s: State, id: string, session: Slot): State
  {
    s.(cache := s.cache.Set(id, session))
  }

  /** `getTokenOnDatabase`: a plain lookup by token. */
  function TokenOnDatabase(rows: map<string, UserToken>, id: string, lookupFails: bool): Result<Option<UserToken>, Failure>
  {
    if lookupFails then Failure(DatabaseError)
    else if id in rows then Success(Some(rows[id]))
    else Success(None)
  }

  /** `removeSession`: delete the row, and only once that succeeded, the cache entry. */
  function RemoveSession(s: State, id: string, deleteFails: bool): Step<Outcome<Failure>>
  {
    if deleteFails then Step(Fail(DatabaseError), s)
    else Step(Pass, State(s.cache.Delete(id), s.rows - {id}))
  }

  /** The expiry check of `getSession`, once it holds a token. */
  function CheckExpiry(s: State, id: string, t: UserToken, now: Millis, deleteFails: bool): Step<SessionResult>
  {
    if IsPast(t, now) then
      var removed := RemoveSession(s, id, deleteFails);
      Step(if removed.result.Pass? then Null else Rejected(removed.result.error), removed.state)
    else
      Step(Session(t), s)
  }

  /**
   * `getSession` as written: a cache hit is checked for expiry; on a miss the
   * store result is put in the cache before anything else, and when the
   * store has no row the `undefined` is cached and the call throws.
   */
  function GetSession(s: State, id: string, now: Millis, lookupFails: bool, deleteFails: bool): Step<SessionResult>
  {
    match s.cache.Get(id)
    case Some(Some(t)) => CheckExpiry(s, id, t, now, deleteFails)
    case _ =>
      match TokenOnDatabase(s.rows, id, lookupFails)
      case Failure(f) => Step(Rejected(f), s)
      case Success(None) => Step(Rejected(NullDereference), AddSession(s, id, None))
      case Success(Some(t)) => CheckExpiry(AddSession(s, id, Some(t)), id, t, now, deleteFails)
  }

  /**
   * `getSession` as evidently intended: a token found nowhere is `null` and
   * nothing is cached for it.
   */
  function GetSessionNullSafe(s: State, id: string, now: Millis, lookupFails: bool, deleteFails: bool): Step<SessionResult>
  {
    match s.cache.Get(id)
    case Some(Some(t)) => CheckExpiry(s, id, t, now, deleteFails)
    case _ =>
      match TokenOnDatabase(s.rows, id, lookupFails)
      case Failure(f) => Step(Rejected(f), s)
      case Success(None) => Step(Null, s)
      case Success(Some(t)) => CheckExpiry(AddSession(s, id, Some(t)), id, t, now, deleteFails)
  }

  /** The cache left by the sweep loop, and whether it ran to the end. */
  datatype Sweep = Sweep(cache: Cache, completed: bool)

  /**
   * The cache pass of `clearExpiredSessions` over the keys `ks`, in order:
   * a key deleted earlier is not visited, an expired token is deleted, and an
   * `undefined` entry throws and ends the pass.
   */
  function SweepCache(c: Cache, ks: seq<string>, now: Millis): Sweep
    decreases |ks|
  {
    if |ks| == 0 then Sweep(c, true)
    else if ks[0] !in c.entries then SweepCache(c, ks[1..], now)
    else if c.entries[ks[0]].None? then Sweep(c, false)
    else SweepCache(if Past(c.entries[ks[0]], now) then c.Delete(ks[0]) else c, ks[1..], now)
  }

  /** `clearExpiredSessions`: the store pass (errors swallowed), then the cache pass. */
  function ClearExpiredSessions(s: State, now: Millis, deleteFails: bool): Step<Outcome<Failure>>
  {
    var rows := if deleteFails then s.rows else AuthService.ClearedRows(s.rows, now);
    var sweep := SweepCache(s.cache, s.cache.order, now);
    Step(if sweep.completed then Pass else Fail(NullDereference), State(sweep.cache, rows))
  }

  function GetActiveSessions(s: State): nat
  {
    s.cache.Size()
  }

  function Clear(s: State): State
  {
    s.(cache := Empty())
  }

  /** `data.get(id)` is `undefined`: the key is absent or holds `undefined`. */
  predicate Misses(c: Cache, id: string)
  {
    id !in c.entries || c.entries[id].None?
  }

  /** Where `getSession` finds `t` for `id`: in the cache, or only in the store. */
  predicate Holds(s: State, id: string, t: UserToken)
  {
    s.cache.Get(id) == Some(Some(t)) || (Misses(s.cache, id) && id in s.rows && s.rows[id] == t)
  }

  // ---------------------------------------------------------------- addSession

  lemma AddSessionUpserts(s: State, id: string, t: UserToken)
    requires Consistent(s)
    ensures Consistent(AddSession(s, id, Some(t)))
    ensures AddSession(s, id, Some(t)).cache.Get(id) == Some(Some(t))
    ensures forall k :: k != id ==> AddSession(s, id, Some(t)).cache.Get(k) == s.cache.Get(k)
    ensures AddSession(s, id, Some(t)).rows == s.rows
    ensures AddSession(AddSession(s, id, Some(t)), id, Some(t)) == AddSession(s, id, Some(t))
  {
    SetUpserts(s.cache, id, Some(t));
  }

  // ---------------------------------------------------------------- getSession

  /** A cached token that is not past its expiry is returned and nothing changes. */
  lemma CachedLiveSessionIsReturned(s: State, id: string, t: UserToken, now: Millis, lookupFails: bool, deleteFails: bool)
    requires s.cache.Get(id) == Some(Some(t)) && !IsPast(t, now)
    ensures GetSession(s, id, now, lookupFails, deleteFails) == Step(Session(t), s)
  {
  }

  /**
   * An expired token, cached or loaded, gives `null`, and afterwards the
   * token is neither cached nor stored; every other key is as it was.
   */
  lemma ExpiredSessionIsEvicted(s: State, id: string, t: UserToken, now: Millis)
    requires Consistent(s)
    requires Holds(s, id, t) && IsPast(t, now)
    ensures GetSession(s, id, now, false, false).result == Null
    ensures id !in GetSession(s, id, now, false, false).state.cache.entries
    ensures GetSession(s, id, now, false, false).state.rows == s.rows - {id}
    ensures Consistent(GetSession(s, id, now, false, false).state)
    ensures forall k :: k != id ==> GetSession(s, id, now, false, false).state.cache.Get(k) == s.cache.Get(k)
  {
    if s.cache.Get(id) != Some(Some(t)) {
      SetUpserts(s.cache, id, Some(t));
      DeleteRemoves(s.cache.Set(id, Some(t)), id);
    } else {
      DeleteRemoves(s.cache, id);
    }
  }

  /**
   * When deleting an expired token fails, the call rejects with the database
   * error and the table keeps the row. A cached token stays cached; a token
   * just loaded from the table has already been cached and stays there.
   */
  lemma ExpiredSessionWithStoreDown(s: State, id: string, t: UserToken, now: Millis)
    requires Holds(s, id, t) && IsPast(t, now)
    ensures GetSession(s, id, now, false, true).result == Rejected(DatabaseError)
    ensures GetSession(s, id, now, false, true).state.rows == s.rows
    ensures GetSession(s, id, now, false, true).state.cache.Get(id) == Some(Some(t))
    ensures s.cache.Get(id) == Some(Some(t)) ==> GetSession(s, id, now, false, true).state == s
    ensures s.cache.Get(id) != Some(Some(t)) ==> GetSession(s, id, now, false, true).state == AddSession(s, id, Some(t))
  {
  }

  /** On a cache miss, a live stored token is cached and returned; the table is untouched. */
  lemma ReadThroughCachesLiveToken(s: State, id: string, now: Millis)
    requires Consistent(s)
    requires Misses(s.cache, id) && id in s.rows && !IsPast(s.rows[id], now)
    ensures GetSession(s, id, now, false, false).result == Session(s.rows[id])
    ensures GetSession(s, id, now, false, false).state.cache.Get(id) == Some(Some(s.rows[id]))
    ensures Consistent(GetSession(s, id, now, false, false).state)
    ensures GetSession(s, id, now, false, false).state.rows == s.rows
  {
    SetUpserts(s.cache, id, Some(s.rows[id]));
  }

  /** A failing store on a cache miss is an error, not `null`, and nothing changes. */
  lemma StoreFailureIsNotNull(s: State, id: string, now: Millis, deleteFails: bool)
    requires Misses(s.cache, id)
    ensures GetSession(s, id, now, true, deleteFails) == Step(Rejected(DatabaseError), s)
    ensures GetSessionNullSafe(s, id, now, true, deleteFails) == Step(Rejected(DatabaseError), s)
  {
  }

  /**
   * A token in neither cache nor store does not give `null`: the call throws,
   * and `undefined` is left in the cache under the token, counted by the size.
   */
  lemma UnknownTokenThrows(s: State, id: string, now: Millis)
    requires Consistent(s) && id !in s.cache.entries && id !in s.rows
    ensures GetSession(s, id, now, false, false).result == Rejected(NullDereference)
    ensures GetSession(s, id, now, false, false).state.cache.Get(id) == Some(None)
    ensures GetSession(s, id, now, false, false).state.rows == s.rows
    ensures Consistent(GetSession(s, id, now, false, false).state)
    ensures GetActiveSessions(GetSession(s, id, now, false, false).state) == GetActiveSessions(s) + 1
    ensures !Clean(GetSession(s, id, now, false, false).state.cache)
  {
    SetUpserts(s.cache, id, None);
  }

  /**
   * Wherever the token lives, it is returned up to and including the instant
   * `expired_at` and is `null` afterwards.
   */
  lemma ExpiryDecidesTheLookup(s: State, id: string, t: UserToken, e: Millis, now: Millis)
    requires Holds(s, id, t) && t.expiredAt == Some(e)
    ensures GetSession(s, id, now, false, false).result == Session(t) <==> now <= e
    ensures GetSession(s, id, now, false, false).result == Null <==> now > e
  {
  }

  /**
   * `signOut` deletes the user's rows only: a live token of that user that is
   * already cached is still returned from the cache.
   */
  lemma SignedOutTokenIsStillCached(s: State, id: string, t: UserToken, now: Millis)
    requires s.cache.Get(id) == Some(Some(t)) && !IsPast(t, now)
    requires id in s.rows && s.rows[id] == t
    ensures id !in AuthService.SignedOutRows(s.rows, t.userId)
    ensures GetSession(State(s.cache, AuthService.SignedOutRows(s.rows, t.userId)), id, now, false, false).result == Session(t)
  {
  }

  // ------------------------------------------------------------- removeSession

  /**
   * After `removeSession` the token is neither cached nor stored, every other
   * key is unchanged, and a second call changes nothing, also for a token
   * that was never added.
   */
  lemma RemoveSessionIsIdempotent(s: State, id: string)
    requires Consistent(s)
    ensures RemoveSession(s, id, false).result == Pass
    ensures id !in RemoveSession(s, id, false).state.cache.entries
    ensures RemoveSession(s, id, false).state.rows == s.rows - {id}
    ensures Consistent(RemoveSession(s, id, false).state)
    ensures forall k :: k != id ==> RemoveSession(s, id, false).state.cache.Get(k) == s.cache.Get(k)
    ensures RemoveSession(RemoveSession(s, id, false).state, id, false) == RemoveSession(s, id, false)
    ensures id !in s.cache.entries && id !in s.rows ==> RemoveSession(s, id, false).state == s
  {
    DeleteRemoves(s.cache, id);
  }

  /** Looking a removed token up throws, as written; the corrected lookup gives `null`. */
  lemma LookupAfterRemove(s: State, id: string, now: Millis)
    requires Consistent(s)
    ensures GetSession(RemoveSession(s, id, false).state, id, now, false, false).result == Rejected(NullDereference)
    ensures GetSessionNullSafe(RemoveSession(s, id, false).state, id, now, false, false)
      == Step(Null, RemoveSession(s, id, false).state)
  {
    DeleteRemoves(s.cache, id);
  }

  // ------------------------------------------------------- clearExpiredSessions

  /** The keys among `ks` whose token is expired. */
  ghost function PastKeys(c: Cache, ks: seq<string>, now: Millis): set<string>
  {
    set k | k in ks && k in c.entries && Past(c.entries[k], now)
  }

  /**
   * Over keys that hold no `undefined`, the pass completes and deletes
   * exactly the expired tokens among them.
   */
  lemma {:induction false} SweepCacheDeletesPast(c: Cache, ks: seq<string>, now: Millis)
    requires c.Valid()
    requires forall k :: k in ks && k in c.entries ==> c.entries[k].Some?
    ensures SweepCache(c, ks, now).completed
    ensures SweepCache(c, ks, now).cache.Valid()
    ensures SweepCache(c, ks, now).cache.entries == c.entries - PastKeys(c, ks, now)
    decreases |ks|
  {
    if |ks| > 0 {
      var k := ks[0];
      if k !in c.entries {
        SweepCacheDeletesPast(c, ks[1..], now);
        assert PastKeys(c, ks, now) == PastKeys(c, ks[1..], now);
      } else {
        var c' := if Past(c.entries[k], now) then c.Delete(k) else c;
        DeleteRemoves(c, k);
        assert forall j :: j in ks[1..] ==> j in ks;
        SweepCacheDeletesPast(c', ks[1..], now);
        if Past(c.entries[k], now) {
          assert PastKeys(c, ks, now) == PastKeys(c', ks[1..], now) + {k};
        } else {
          assert PastKeys(c, ks, now) == PastKeys(c', ks[1..], now);
        }
      }
    }
  }

  /**
   * On a cache without `undefined` the sweep completes; afterwards no cached
   * token is past, every token expiring now or later is still cached
   * unchanged, and the table keeps no row expiring at or before now.
   */
  lemma ClearExpiredSessionsKeepsExactlyTheLive(s: State, now: Millis)
    requires Consistent(s) && Clean(s.cache)
    ensures ClearExpiredSessions(s, now, false).result == Pass
    ensures Consistent(ClearExpiredSessions(s, now, false).state)
    ensures Clean(ClearExpiredSessions(s, now, false).state.cache)
    ensures forall k :: k in ClearExpiredSessions(s, now, false).state.cache.entries ==>
      !Past(ClearExpiredSessions(s, now, false).state.cache.entries[k], now)
    ensures forall k :: k in s.cache.entries && !Past(s.cache.entries[k], now) ==>
      ClearExpiredSessions(s, now, false).state.cache.Get(k) == s.cache.Get(k)
    ensures forall k :: k in ClearExpiredSessions(s, now, false).state.rows ==>
      !ExpiredInStore(ClearExpiredSessions(s, now, false).state.rows[k], now)
    ensures forall k :: k in s.rows && LiveInStore(s.rows[k], now) ==> k in ClearExpiredSessions(s, now, false).state.rows
  {
    SweepCacheDeletesPast(s.cache, s.cache.order, now);
    AuthService.ClearedRowsKeepExactlyTheLive(s.rows, now);
  }

  /**
   * A token expiring exactly now stays cached but loses its row. Both passes
   * read the same `now` here; in the source the cache pass reads the clock
   * again, for each entry, after the awaited table delete, so the instant it
   * compares with can be later than the one the table pass used.
   */
  lemma SweepsDisagreeAtTheExpiryInstant(s: State, id: string, t: UserToken, now: Millis)
    requires Consistent(s) && Clean(s.cache)
    requires s.cache.Get(id) == Some(Some(t)) && id in s.rows && s.rows[id] == t
    requires t.expiredAt == Some(now)
    ensures ClearExpiredSessions(s, now, false).state.cache.Get(id) == Some(Some(t))
    ensures id !in ClearExpiredSessions(s, now, false).state.rows
  {
    ClearExpiredSessionsKeepsExactlyTheLive(s, now);
  }

  // ------------------------------------------------- getActiveSessions / clear

  lemma ActiveSessionsCountsKeys(s: State)
    requires Consistent(s)
    ensures GetActiveSessions(s) == |s.cache.entries|
    ensures GetActiveSessions(Clear(s)) == 0
    ensures Clear(s).rows == s.rows
  {
    SizeIsCount(s.cache);
  }

  // -------------------------------------------------------------- the finding

  /**
   * As written: one lookup of an unknown token makes the next sweep stop at
   * its `undefined` entry, so a token added afterwards and already expired
   * stays cached, and the sweep rejects.
   */
  lemma UnknownTokenStallsTheSweep(t: UserToken)
    requires t.expiredAt == Some(5)
    ensures var s0 := State(Empty(), map[]);
            var s1 := GetSession(s0, "unknown", 10, false, false).state;
            var s2 := AddSession(s1, "late", Some(t));
            var s3 := ClearExpiredSessions(s2, 10, false);
            && s3.result == Fail(NullDereference)
            && s3.state.cache.Get("late") == Some(Some(t))
            && Past(s3.state.cache.entries["late"], 10)
  {
    var s0 := State(Empty(), map[]);
    var s1 := GetSession(s0, "unknown", 10, false, false).state;
    assert s1.cache == OrderedMap(map["unknown" := None], ["unknown"]);
    var s2 := AddSession(s1, "late", Some(t));
    assert s2.cache.order == ["unknown", "late"];
    assert SweepCache(s2.cache, s2.cache.order, 10) == Sweep(s2.cache, false);
  }

  /**
   * Corrected: the null-safe lookup never caches `undefined`, keeps the state
   * consistent, and gives `null` for a token found nowhere, changing nothing.
   */
  lemma NullSafeLookupKeepsCacheClean(s: State, id: string, now: Millis, lookupFails: bool, deleteFails: bool)
    requires Consistent(s) && Clean(s.cache)
    ensures Consistent(GetSessionNullSafe(s, id, now, lookupFails, deleteFails).state)
    ensures Clean(GetSessionNullSafe(s, id, now, lookupFails, deleteFails).state.cache)
    ensures GetSessionNullSafe(s, id, now, lookupFails, deleteFails).result != Rejected(NullDereference)
    ensures id !in s.cache.entries && id !in s.rows ==>
      GetSessionNullSafe(s, id, now, lookupFails, deleteFails).state == s
    ensures !lookupFails && id !in s.cache.entries && id !in s.rows ==>
      GetSessionNullSafe(s, id, now, lookupFails, deleteFails).result == Null
  {
    SetUpserts(s.cache, id, if id in s.rows then Some(s.rows[id]) else None);
    DeleteRemoves(s.cache, id);
    if id in s.rows {
      DeleteRemoves(s.cache.Set(id, Some(s.rows[id])), id);
    }
  }

  /** Corrected: after any null-safe lookup the next sweep completes. */
  lemma NullSafeLookupThenSweepCompletes(s: State, id: string, now: Millis, later: Millis, lookupFails: bool, deleteFails: bool)
    requires Consistent(s) && Clean(s.cache)
    ensures ClearExpiredSessions(GetSessionNullSafe(s, id, now, lookupFails, deleteFails).state, later, false).result == Pass
  {
    NullSafeLookupKeepsCacheClean(s, id, now, lookupFails, deleteFails);
    ClearExpiredSessionsKeepsExactlyTheLive(GetSessionNullSafe(s, id, now, lookupFails, deleteFails).state, later);
  }

  /**
   * As written, for every cache: when the key at position `p` of the walk
   * holds `undefined`, the pass throws there, the `undefined` stays, and no
   * key after it is touched.
   */
  lemma {:induction false} UndefinedEntryStopsTheWalk(c: Cache, ks: seq<string>, now: Millis, p: nat)
    requires Distinct(ks) && p < |ks|
    requires ks[p] in c.entries && c.entries[ks[p]].None?
    ensures !SweepCache(c, ks, now).completed
    ensures SweepCache(c, ks, now).cache.Get(ks[p]) == Some(None)
    ensures forall j :: p < j < |ks| ==> SweepCache(c, ks, now).cache.Get(ks[j]) == c.Get(ks[j])
    decreases |ks|
  {
    if p > 0 {
      var k := ks[0];
      var c' := if k in c.entries && c.entries[k].Some? && Past(c.entries[k], now) then c.Delete(k) else c;
      assert forall j :: 0 < j < |ks| ==> ks[j] in ks[1..] && ks[j] == ks[1..][j - 1];
      assert forall j :: 0 < j < |ks| ==> ks[j] != k;
      UndefinedEntryStopsTheWalk(c', ks[1..], now, p - 1);
      assert forall j :: p < j < |ks| ==> ks[1..][j - 1] == ks[j];
    }
  }

  /**
   * As written: a cache holding `undefined` makes every sweep reject; the
   * `undefined` survives, so the next sweep rejects too, and every key
   * inserted after it keeps its entry, expired or not.
   */
  lemma UndefinedEntryStallsEverySweep(s: State, now: Millis, p: nat)
    requires Consistent(s) && p < |s.cache.order|
    requires s.cache.entries[s.cache.order[p]].None?
    ensures ClearExpiredSessions(s, now, false).result == Fail(NullDereference)
    ensures !Clean(ClearExpiredSessions(s, now, false).state.cache)
    ensures forall j :: p < j < |s.cache.order| ==>
      ClearExpiredSessions(s, now, false).state.cache.Get(s.cache.order[j]) == s.cache.Get(s.cache.order[j])
  {
    UndefinedEntryStopsTheWalk(s.cache, s.cache.order, now, p);
  }
}
