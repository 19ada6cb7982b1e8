/**
 * The token-table operations of the authentication service: sign-in inserts
 * a row and projects the response, sign-out deletes a user's rows, findToken
 * looks a row up, and clearExpiredTokens deletes the expired rows.
 */
module AuthService {
  import opened Wrappers
  import opened Errors
  import opened Tokens

  /** Every row is stored under the value of its own `token` column. */
  ghost predicate Keyed(rows: map<string, UserToken>)
  {
    forall k :: k in rows ==> rows[k].token == k
  }

  /** The `user_tokens` table, each row under its `token` column. */
  class UserTokens {
    var rows: map<string, UserToken>

    ghost predicate Valid()
      reads this
    {
      Keyed(rows)
    }

    constructor (rows: map<string, UserToken>)
      requires Keyed(rows)
      ensures Valid() && this.rows == rows
    {
      this.rows := rows;
    }
  }

  /** A property the spread `...(cond ? { key: v } : {})` adds, or does not. */
  datatype Field<T> = Omitted | Present(value: T)

  datatype SignInResponse = SignInResponse(
    accessToken: string,
    avatar: string,
    address: string,
    userId: string,
    expiredAt: Option<Millis>,
    firstLogin: bool,
    workspace: Workspace,
    webAuthn: Field<Option<string>>)

  const WebAuthnUserType: string := "WEB_AUTHN"

  /**
   * The response built from the saved row: the bearer value, its expiry and
   * the owner come from the row, and the WebAuthn credential is included
   * exactly for WebAuthn users.
   */
  function SignInResponseOf(data: UserToken): (r: SignInResponse)
    ensures r.accessToken == data.token
    ensures r.expiredAt == data.expiredAt
    ensures r.userId == data.user.id
    ensures r.workspace == data.workspace
    ensures r.webAuthn.Present? <==> data.user.kind == WebAuthnUserType
    ensures r.webAuthn.Present? ==> r.webAuthn.value == data.user.webauthn
  {
    SignInResponse(
      data.token,
      data.user.avatar,
      data.user.address,
      data.user.id,
      data.expiredAt,
      data.user.firstLogin,
      data.workspace,
      if data.user.kind == WebAuthnUserType then Present(data.user.webauthn) else Omitted)
  }

  /** The rows left by `delete({ user })`. */
  function SignedOutRows(rows: map<string, UserToken>, userId: string): map<string, UserToken>
  {
    map k | k in rows && rows[k].userId != userId :: rows[k]
  }

  /** The rows left by `delete({ expired_at: LessThanOrEqual(now) })`. */
  function ClearedRows(rows: map<string, UserToken>, now: Millis): map<string, UserToken>
  {
    map k | k in rows && !ExpiredInStore(rows[k], now) :: rows[k]
  }

  lemma SignOutRemovesExactlyTheUser(rows: map<string, UserToken>, userId: string)
    ensures forall k :: k in SignedOutRows(rows, userId) <==> k in rows && rows[k].userId != userId
    ensures forall k :: k in SignedOutRows(rows, userId) ==> SignedOutRows(rows, userId)[k] == rows[k]
    ensures SignedOutRows(SignedOutRows(rows, userId), userId) == SignedOutRows(rows, userId)
  {
  }

  /**
   * The sweep deletes exactly the rows with `expired_at <= now`: every row
   * expiring later, and every row without a date, is kept unchanged.
   */
  lemma ClearedRowsKeepExactlyTheLive(rows: map<string, UserToken>, now: Millis)
    ensures forall k :: k in ClearedRows(rows, now) ==> !ExpiredInStore(ClearedRows(rows, now)[k], now)
    ensures forall k :: k in rows && LiveInStore(rows[k], now) ==> k in ClearedRows(rows, now)
    ensures forall k :: k in rows && rows[k].expiredAt.None? ==> k in ClearedRows(rows, now)
    ensures forall k :: k in ClearedRows(rows, now) ==> k in rows && ClearedRows(rows, now)[k] == rows[k]
    ensures ClearedRows(ClearedRows(rows, now), now) == ClearedRows(rows, now)
  {
  }

  /** The filters of `findToken` that the model keeps. */
  datatype TokenQuery = TokenQuery(signature: Option<string>, notExpired: bool)

  /** A JavaScript string is truthy when it is not empty. */
  predicate FiltersBySignature(q: TokenQuery)
  {
    q.signature.Some? && q.signature.value != ""
  }

  /** `ut.token = :signature` when a signature is given, `ut.expired_at > :now` when asked. */
  predicate Matches(q: TokenQuery, t: UserToken, now: Millis)
  {
    && (FiltersBySignature(q) ==> t.token == q.signature.value)
    && (q.notExpired ==> LiveInStore(t, now))
  }

  /** With a signature and `notExpired`, a row matches only if it carries that token and expires after now. */
  lemma MatchesSignatureAndLive(q: TokenQuery, t: UserToken, now: Millis)
    requires FiltersBySignature(q) && q.notExpired
    ensures Matches(q, t, now) <==> t.token == q.signature.value && t.expiredAt.Some? && t.expiredAt.value > now
  {
  }

  /**
   * In a keyed table, the rows a signature query matches are at most the row
   * stored under that signature, so `findToken` and a lookup by key agree.
   */
  lemma SignatureQueryIsKeyLookup(rows: map<string, UserToken>, q: TokenQuery, now: Millis)
    requires Keyed(rows) && FiltersBySignature(q)
    ensures forall k :: k in rows && Matches(q, rows[k], now) ==> k == q.signature.value
    ensures (exists k :: k in rows && Matches(q, rows[k], now)) <==>
      q.signature.value in rows && (q.notExpired ==> LiveInStore(rows[q.signature.value], now))
  {
    var sig := q.signature.value;
    if sig in rows && (q.notExpired ==> LiveInStore(rows[sig], now)) {
      assert Matches(q, rows[sig], now);
    }
  }

  class AuthService {
    const tokens: UserTokens

    constructor (tokens: UserTokens)
      ensures this.tokens == tokens
    {
      this.tokens := tokens;
    }

    /**
     * `signIn`: saves the row and answers with its projection. A failed save
     * (including a token already in the table) is an `Internal` error and
     * leaves the table as it was.
     */
    method SignIn(payload: UserToken, saveFails: bool) returns (r: Result<SignInResponse, Failure>)
      requires tokens.Valid()
      modifies tokens
      ensures tokens.Valid()
      ensures saveFails || payload.token in old(tokens.rows) ==>
        r == Failure(Internal(TokenCreationError)) && tokens.rows == old(tokens.rows)
      ensures !saveFails && payload.token !in old(tokens.rows) ==>
        && r == Success(SignInResponseOf(payload))
        && tokens.rows == old(tokens.rows)[payload.token := payload]
        && |tokens.rows| == |old(tokens.rows)| + 1
    {
      if saveFails || payload.token in tokens.rows {
        return Failure(Internal(TokenCreationError));
      }
      tokens.rows := tokens.rows[payload.token := payload];
      r := Success(SignInResponseOf(payload));
    }

    /** `signOut`: deletes every row of the user; a failed delete is an `Internal` error. */
    method SignOut(user: User, deleteFails: bool) returns (r: Outcome<Failure>)
      requires tokens.Valid()
      modifies tokens
      ensures tokens.Valid()
      ensures deleteFails ==> r == Fail(Internal(SignOutError)) && tokens.rows == old(tokens.rows)
      ensures !deleteFails ==> r == Pass && tokens.rows == SignedOutRows(old(tokens.rows), user.id)
    {
      if deleteFails {
        return Fail(Internal(SignOutError));
      }
      tokens.rows := SignedOutRows(tokens.rows, user.id);
      r := Pass;
    }

    /**
     * `findToken`: some row passing the filters, or none when no row does; a
     * failed query is an `Internal` error, distinct from "none".
     */
    method FindToken(q: TokenQuery, now: Millis, queryFails: bool) returns (r: Result<Option<UserToken>, Failure>)
      ensures queryFails ==> r == Failure(Internal(TokenFindError))
      ensures !queryFails ==> r.Success?
      ensures !queryFails && r.value.Some? ==>
        r.value.value in tokens.rows.Values && Matches(q, r.value.value, now)
      ensures !queryFails && r.value.None? <==>
        !queryFails && forall k :: k in tokens.rows ==> !Matches(q, tokens.rows[k], now)
    {
      if queryFails {
        return Failure(Internal(TokenFindError));
      }
      var rows := tokens.rows;
      if k :| k in rows && Matches(q, rows[k], now) {
        r := Success(Some(rows[k]));
      } else {
        r := Success(None);
      }
    }

    /** `clearExpiredTokens`: deletes the expired rows; a failure is only logged. */
    static method ClearExpiredTokens(tokens: UserTokens, now: Millis, deleteFails: bool)
      requires tokens.Valid()
      modifies tokens
      ensures tokens.Valid()
      ensures tokens.rows == if deleteFails then old(tokens.rows) else ClearedRows(old(tokens.rows), now)
    {
      if !deleteFails {
        tokens.rows := ClearedRows(tokens.rows, now);
      }
    }
  }
}
