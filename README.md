# Session lifecycle of the Bako Safe API, in Dafny

This project models how the API keeps authentication sessions. A session is one row of the
`user_tokens` table, keyed by its bearer token. `SessionStorage` keeps an in-memory JavaScript
`Map` from token to row in front of that table. It does four things:

- it reads through to the table on a cache miss;
- it evicts expired sessions from both the map and the table;
- it deletes sessions on request;
- a periodic sweep clears expired rows from the table and expired entries from the map.

`AuthService` holds the table operations: sign-in, sign-out, token lookup and the expired-row sweep.

The model has five modules:

- `Wrappers`, `Errors` (`wrappers.dfy`): `Option`, `Result`, `Outcome`, and the failures a call can
  end with. A failure is an `Internal` error with its title, an uncaught database error, or a
  `TypeError` from reading a property of `undefined`.
- `Tokens` (`user_token.dfy`): the token row, the `Encoder` enumeration, and the two expiry tests.
  The cache uses date-fns `isPast`, which is strict: `expired_at < now`. The table uses the SQL
  filters `expired_at <= now` and `expired_at > now`. A row without `expired_at` passes none of
  the three tests.
- `JsMap` (`js_map.dfy`): a `Map` as entries plus insertion order. `set`, `delete`, `size` and
  `clear` are modelled, and their laws are proved.
- `AuthService` (`auth_service.dfy`): the `user_tokens` table as a class whose `rows` field the
  service's methods reassign, plus the specification functions of the two deletions.
- `SessionModel` (`session_model.dfy`): every `SessionStorage` operation as a transition over
  (map, table) values, and the lemmas about them.
- `Storage` (`session_storage.dfy`): the `SessionStorage` class. Its `data` field is the map and
  its `store` field is the table. Each method is proved to perform the transition of the same name
  in `SessionModel`. The sweep is a loop over the map's keys in insertion order, deleting as it goes.

The sources are written for a single-threaded event loop. Each call is modelled as one
sequential step. All time reads within one step use the same `now`, a `Millis` parameter. Whether
a database call fails is a boolean parameter of the step: `lookupFails` for the read-through
lookup, `deleteFails` for a deletion, `saveFails` for the sign-in save and `queryFails` for
`findToken`. A lookup and a deletion within one step fail or succeed independently.

Behaviours of the code that the model keeps as written:

- The cache tests expiry with `isPast(session.expired_at)` (session.ts:44 and :76), which is
  strict. A session expiring exactly at `now` is still returned, and the cache sweep keeps it. The
  table sweep (services.ts:106-110) deletes rows with `expired_at <= now`, so at that instant the
  row goes and the map entry stays. See `SessionModel.ExpiryDecidesTheLookup` and
  `SessionModel.SweepsDisagreeAtTheExpiryInstant`.
- A token that is in neither the map nor the table does not give `null`. `addSession` stores the
  `undefined` lookup result (session.ts:37-40), and reading `expired_at` of it throws
  (session.ts:42). See the finding below.
- `removeSession` awaits the table delete before deleting the map entry (session.ts:60-65). A failed
  delete leaves both as they were.
- The sweep interval is the constant `30 * 1000 * 2` ms (session.ts:15), one minute, not a setting.
- `signOut` deletes the user's rows (services.ts:49-53) and does not touch the map, so a cached
  session of that user is still served.

## Model

| member | source | states |
|---|---|---|
| `Tokens.ParseEncoder` | packages/api/src/models/UserToken.ts:7-11 | reading the `encoder` column gives an encoder whose string is the input, and fails only on strings other than 'FUEL' and 'WEB_AUTHN' (METAMASK shares 'FUEL') |
| `Tokens.EncoderRoundTrip` | packages/api/src/models/UserToken.ts:7-11 | writing an encoder and reading it back gives the same encoder |
| `Tokens.ExpiryBoundary` | packages/api/src/modules/auth/services.ts:106-110 | the table's `<= now` expiry holds iff the cache's `isPast` holds or the row expires exactly now; for a dated row, live and expired are complementary; an undated row is neither past, expired nor live |
| `JsMap.SetUpserts` | packages/api/src/server/storage/session.ts:26-28 | `set` stores the value under the key, leaves every other key alone, grows the size only for a new key, keeps the order well formed, and a repeated call changes nothing |
| `JsMap.DeleteRemoves` | packages/api/src/server/storage/session.ts:60-65 | `delete` removes that key only, keeps the order well formed, and a repeated call changes nothing |
| `JsMap.SizeIsCount` | packages/api/src/server/storage/session.ts:82-84 | `size` equals the number of keys |
| `AuthService.SignInResponseOf` | packages/api/src/modules/auth/services.ts:20-38 | the response's `accessToken`, `expired_at`, `user_id` and workspace are the saved row's; `webAuthn` is present iff the user's type is 'WEB_AUTHN', and then it is the user's credential |
| `AuthService.SignOutRemovesExactlyTheUser` | packages/api/src/modules/auth/services.ts:49-53 | after sign-out a row remains iff it belongs to another user, unchanged; signing out again changes nothing |
| `AuthService.ClearedRowsKeepExactlyTheLive` | packages/api/src/modules/auth/services.ts:106-110 | after the sweep no row expires at or before now; every row expiring later, and every undated row, is kept unchanged; the sweep is idempotent |
| `AuthService.SignatureQueryIsKeyLookup` | packages/api/src/modules/auth/services.ts:88-92 | in a table keyed by token, a signature query matches at most the row stored under that signature, and some row matches iff that row exists and, when `notExpired` is asked, expires after now |
| `AuthService.MatchesSignatureAndLive` | packages/api/src/modules/auth/services.ts:88-92 | with a signature and `notExpired`, a row matches iff its token is the signature and its `expired_at` is after now |
| `AuthService.AuthService.SignIn` | packages/api/src/modules/auth/services.ts:17-47 | a successful save inserts exactly one row, the payload, and returns its projection; a failed save returns `Internal` 'Error on token creation' and leaves the table as it was; the table stays keyed by token |
| `AuthService.AuthService.SignOut` | packages/api/src/modules/auth/services.ts:49-61 | success leaves exactly the other users' rows; a failure is `Internal` 'Error on sign out' and changes nothing; the table stays keyed by token |
| `AuthService.AuthService.FindToken` | packages/api/src/modules/auth/services.ts:63-104 | a returned row is in the table and passes the signature and expiry filters; nothing is returned iff no row passes them; a failed query is `Internal` 'Error on user token find', never "nothing" |
| `AuthService.AuthService.ClearExpiredTokens` | packages/api/src/modules/auth/services.ts:106-114 | the table becomes the rows not expired at now; a failed delete is swallowed and changes nothing; the table stays keyed by token |
| `SessionModel.AddSessionUpserts` | packages/api/src/server/storage/session.ts:26-28 | afterwards the key maps to the session, every other key and the table are unchanged, the state stays consistent, and repeating the call changes nothing |
| `SessionModel.CachedLiveSessionIsReturned` | packages/api/src/server/storage/session.ts:34-49 | a cached session that is not past its expiry is returned, and neither the map nor the table changes |
| `SessionModel.ExpiredSessionIsEvicted` | packages/api/src/server/storage/session.ts:34-47 | a past session, cached or loaded from the table, gives `null`; afterwards its token is not in the map, every other key of the map is untouched, and the table is exactly the old table without that token |
| `SessionModel.ExpiredSessionWithStoreDown` | packages/api/src/server/storage/session.ts:37-47 | when deleting a past session fails, the call rejects with the database error and the table keeps the row; a cached session leaves everything unchanged, and a session just loaded from the table stays cached, as `addSession` left it |
| `SessionModel.ReadThroughCachesLiveToken` | packages/api/src/server/storage/session.ts:37-40 | on a cache miss an unexpired row is put in the map and returned, and the table is untouched |
| `SessionModel.StoreFailureIsNotNull` | packages/api/src/server/storage/session.ts:52-56 | a failed table lookup rejects with the database error, not `null`, and changes nothing |
| `SessionModel.UnknownTokenThrows` | packages/api/src/server/storage/session.ts:37-42 | a token in neither map nor table makes the call throw a `TypeError`, not return `null`; `undefined` is left in the map under it and the size grows by one |
| `SessionModel.ExpiryDecidesTheLookup` | packages/api/src/server/storage/session.ts:34-49 | wherever the session lives, it is returned iff now <= `expired_at`, and the result is `null` iff now is later |
| `SessionModel.SignedOutTokenIsStillCached` | packages/api/src/modules/auth/services.ts:49-53 | after sign-out has deleted a user's row, a live cached session of that user is still returned |
| `SessionModel.RemoveSessionIsIdempotent` | packages/api/src/server/storage/session.ts:60-65 | afterwards the token is not in the map and every other key of the map is unchanged; the table is exactly the old table without that token; a second call changes nothing, and removing a token never added changes nothing |
| `SessionModel.LookupAfterRemove` | packages/api/src/server/storage/session.ts:34-65 | looking up a removed token throws; under the corrected lookup it gives `null` and changes nothing |
| `SessionModel.SweepCacheDeletesPast` | packages/api/src/server/storage/session.ts:70-79 | over keys holding no `undefined`, the walk completes and removes exactly the past entries among the visited keys |
| `SessionModel.ClearExpiredSessionsKeepsExactlyTheLive` | packages/api/src/server/storage/session.ts:68-80 | on a map without `undefined`, the sweep completes; no past entry remains; every entry expiring now or later is kept unchanged; no row expiring at or before now remains in the table, and every later-expiring row is kept |
| `SessionModel.SweepsDisagreeAtTheExpiryInstant` | packages/api/src/server/storage/session.ts:68-80 | a session expiring exactly at the sweep's instant stays in the map but loses its row |
| `SessionModel.ActiveSessionsCountsKeys` | packages/api/src/server/storage/session.ts:82-88 | the active-session count is the number of keys; after `clear` it is 0 and the table is untouched |
| `SessionModel.UnknownTokenStallsTheSweep` | packages/api/src/server/storage/session.ts:37-42 | after one lookup of an unknown token, a session added later and already expired survives the next sweep, which rejects |
| `SessionModel.UndefinedEntryStopsTheWalk` | packages/api/src/server/storage/session.ts:70-79 | for any map and any walk without repeated keys, an `undefined` at some position makes the walk throw there; the `undefined` stays and every key after it keeps its entry |
| `SessionModel.UndefinedEntryStallsEverySweep` | packages/api/src/server/storage/session.ts:68-80 | a map holding `undefined` anywhere makes the sweep reject; the `undefined` is still there afterwards, so the next sweep rejects too, and every key inserted after it keeps its entry, expired or not |
| `SessionModel.NullSafeLookupKeepsCacheClean` | packages/api/src/server/storage/session.ts:34-50 | the corrected lookup never stores `undefined`, never throws a `TypeError` and keeps the state consistent; for a token known nowhere it gives `null` (when the lookup does not fail) and changes nothing |
| `SessionModel.NullSafeLookupThenSweepCompletes` | packages/api/src/server/storage/session.ts:68-80 | after any corrected lookup, the next sweep completes |
| `Storage.RefreshTimeIsOneMinute` | packages/api/src/server/storage/session.ts:15 | the sweep interval is 60000 ms, not the 23 minutes its comment names |
| `Storage.SessionStorage.constructor` | packages/api/src/server/storage/session.ts:19-23 | a new storage starts with an empty map over the given table |
| `Storage.SessionStorage.AddSession` | packages/api/src/server/storage/session.ts:26-28 | the map gets the value under the key, every other key is unchanged, and the table is untouched |
| `Storage.SessionStorage.GetTokenOnDatabase` | packages/api/src/server/storage/session.ts:52-56 | gives the table's row for the token when there is one and nothing otherwise; a failing lookup is the database error; this is `SessionModel.TokenOnDatabase` |
| `Storage.SessionStorage.RemoveSession` | packages/api/src/server/storage/session.ts:60-65 | performs `SessionModel.RemoveSession`: row, then map entry; nothing when the delete fails |
| `Storage.SessionStorage.GetSession` | packages/api/src/server/storage/session.ts:34-50 | performs `SessionModel.GetSession`: the result and the new map and table |
| `Storage.SessionStorage.ClearExpiredSessions` | packages/api/src/server/storage/session.ts:68-80 | the table sweep, then the walk in insertion order; result, map and table are those of `SessionModel.ClearExpiredSessions` |
| `Storage.SessionStorage.GetActiveSessions` | packages/api/src/server/storage/session.ts:82-84 | returns `SessionModel.GetActiveSessions` of the state, the number of keys in the map |
| `Storage.SessionStorage.Clear` | packages/api/src/server/storage/session.ts:86-88 | empties the map and leaves the table |

## Findings

| source | as written | input that shows it | evidently intended | confidence | as-written member | corrected member |
|---|---|---|---|---|---|---|
| packages/api/src/server/storage/session.ts:37-42 | On a miss in both the map and the table, `addSession(id, undefined)` runs and then `session.expired_at` throws. The `undefined` stays in the map: it counts in `getActiveSessions`, and every later `clearExpiredSessions` throws when its walk reaches it. Entries after it are then never swept. | empty map and table; `getSession("unknown")` at 10; `addSession("late", t)` with `t` expiring at 5; `clearExpiredSessions()` at 10 rejects and leaves "late" cached | a token found nowhere gives `null` and nothing is cached | medium, not executed; assumes the table lookup yields nothing rather than throwing for an unknown token | `SessionModel.UnknownTokenStallsTheSweep` | `SessionModel.NullSafeLookupKeepsCacheClean` |

## Left out

- The `setInterval` timer of `SessionStorage.start` and every `console.log`: scheduling and logging. One sweep is `ClearExpiredSessions`, and only `RefreshTime` is kept.
- Interleaving across `await`: each operation is one sequential step with one `now`.
- `TokenUtils.getTokenBySignature` is not part of this model. It is modelled as a plain lookup of the table by token.
- The table is keyed by token, on the assumption that bearer values are unique. Every row is stored under its own `token` value, an invariant (`AuthService.Keyed`) that the table's methods keep. A sign-in whose token is already present is modelled as a failed save.
- `AuthService.AuthService.FindToken`: the joins and the selected columns are not modelled, and neither are the `userId` and `address` filters or how they combine when several are given. These semantics belong to the query builder. When several rows match, which one `getOne` returns is not modelled: any matching row may be returned.
- `User`, `Workspace`, the workspace permissions and the token payload keep only the fields the core reads. Permissions and payload are opaque strings.
- Dates are integer milliseconds. A missing `expired_at` is `None`.
- Controllers, routes, the user and predicate services and controllers, database configuration, the gateway, sockets, icons and seeds are not part of this model. They are HTTP plumbing or I/O around the core.
- The `ISession` interface is not part of this model. Nothing in the core uses it.
