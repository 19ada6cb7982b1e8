/**
 * The `user_tokens` row (one authentication session) and the two ways the
 * code decides that a row has expired.
 */
module Tokens {
  import opened Wrappers

  /** Milliseconds since the epoch. */
  type Millis = int

  /**
   * How the session was established. `METAMASK` is declared with the same
   * string as `FUEL`, so the enumeration has only two distinct values.
   */
  datatype Encoder = Fuel | WebAuthn

  /** The string stored in the `encoder` column. */
  function EncoderValue(e: Encoder): string
  {
    match e
    case Fuel => "FUEL"
    case WebAuthn => "WEB_AUTHN"
  }

  /** Reads the `encoder` column back; any other string is not an encoder. */
  function ParseEncoder(s: string): (r: Option<Encoder>)
    ensures r.Some? ==> EncoderValue(r.value) == s
    ensures r.None? ==> s != "FUEL" && s != "WEB_AUTHN"
  {
    if s == "FUEL" then Some(Fuel)
    else if s == "WEB_AUTHN" then Some(WebAuthn)
    else None
  }

  lemma EncoderRoundTrip(e: Encoder)
    ensures ParseEncoder(EncoderValue(e)) == Some(e)
  {
  }

  /** The user joined on `user_id`, with the columns the sign-in response reads. */
  datatype User = User(
    id: string,
    avatar: string,
    address: string,
    firstLogin: bool,
    kind: string,              // the user's `type` column, e.g. "WEB_AUTHN"
    webauthn: Option<string>)  // serialized WebAuthn credential, nullable

  /** The workspace joined on `workspace_id`; `permissions` is kept serialized. */
  datatype Workspace = Workspace(
    id: string,
    name: string,
    avatar: string,
    single: bool,
    permissions: string)

  datatype UserToken = UserToken(
    token: string,             // the bearer value, the lookup key
    encoder: Encoder,
    provider: string,
    payload: string,           // jsonb, kept serialized
    expiredAt: Option<Millis>, // the column is declared optional
    workspace: Workspace,
    userId: string,
    user: User)

  /**
   * `isPast(expired_at)`: strictly before `now`. A missing date becomes an
   * invalid date, and an invalid date is never in the past.
   */
  predicate IsPast(t: UserToken, now: Millis)
  {
    t.expiredAt.Some? && t.expiredAt.value < now
  }

  /** The SQL filter `expired_at <= now`; a NULL column is never selected. */
  predicate ExpiredInStore(t: UserToken, now: Millis)
  {
    t.expiredAt.Some? && t.expiredAt.value <= now
  }

  /** The SQL filter `expired_at > now`; a NULL column is never selected. */
  predicate LiveInStore(t: UserToken, now: Millis)
  {
    t.expiredAt.Some? && t.expiredAt.value > now
  }

  /**
   * The cache and the store disagree on exactly one instant: a row whose
   * `expired_at` equals `now` is expired for the store and not for the cache.
   * A row without a date is neither expired nor live for anyone.
   */
  lemma ExpiryBoundary(t: UserToken, now: Millis)
    ensures ExpiredInStore(t, now) <==> IsPast(t, now) || t.expiredAt == Some(now)
    ensures t.expiredAt == Some(now) ==> ExpiredInStore(t, now) && !IsPast(t, now)
    ensures t.expiredAt.Some? ==> (LiveInStore(t, now) <==> !ExpiredInStore(t, now))
    ensures t.expiredAt.None? ==> !IsPast(t, now) && !ExpiredInStore(t, now) && !LiveInStore(t, now)
  {
  }
}
