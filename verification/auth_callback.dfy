/** `GET /auth/callback` (app/auth/callback/route.ts): the end of the
    OAuth sign-in. It decides where to redirect, and stores the provider's
    tokens for the signed-in user. The identity service's answers and the
    clock are given as values; query values are kept unencoded. */
module AuthCallback {
  import opened Common
  import opened AuthTokens

  /** The `code` and `error` query parameters. */
  datatype Query = Query(code: Option<string>, error: Option<string>)

  /** What `exchangeCodeForSession(code)` gives. */
  datatype Exchange = ExchangeFailed(message: string) | Exchanged

  /** The session fields the callback reads. `expiresAt` is in seconds
      since the epoch, `expiresIn` in seconds. */
  datatype Session = Session(providerToken: Option<string>, providerRefreshToken: Option<string>, expiresAt: Option<int>, expiresIn: Option<int>)

  /** `getUser()` and `getSession()`: the message of the error each
      reported, if any, and the user id and the session. */
  datatype Lookup = Lookup(userError: Option<string>, sessionError: Option<string>, userId: Option<string>, session: Option<Session>)

  /** Where the browser is sent. */
  datatype Redirect =
    | LoginError(message: string)
    | Dashboard
    | DashboardSyncError(syncError: Option<string>)

  /** The redirect, the token store afterwards, and whether the code was
      exchanged. */
  datatype Outcome = Outcome(redirect: Redirect, store: TokenStore, exchanged: bool)

  /** The stored expiry in milliseconds: the session's own expiry time
      when it is truthy, otherwise `expires_in` seconds from now when that
      is truthy, otherwise none. */
  function ExpiresAtMs(session: Session, now: int): (r: Option<int>)
    ensures TruthyNumber(session.expiresAt) ==> r == Some(session.expiresAt.value * 1000)
    ensures !TruthyNumber(session.expiresAt) && TruthyNumber(session.expiresIn) ==> r == Some(now + session.expiresIn.value * 1000)
    ensures r.None? <==> !TruthyNumber(session.expiresAt) && !TruthyNumber(session.expiresIn)
  {
    if TruthyNumber(session.expiresAt) then Some(session.expiresAt.value * 1000)
    else if TruthyNumber(session.expiresIn) then Some(now + session.expiresIn.value * 1000)
    else None
  }

  /** The message of the first reported error, else "auth_error". */
  function AuthErrorMessage(lookup: Lookup): (m: string)
    ensures Truthy(lookup.userError) ==> m == lookup.userError.value
    ensures !Truthy(lookup.userError) && Truthy(lookup.sessionError) ==> m == lookup.sessionError.value
    ensures !Truthy(lookup.userError) && !Truthy(lookup.sessionError) ==> m == "auth_error"
  {
    OrElse(lookup.userError, OrElse(lookup.sessionError, Some("auth_error"))).GetOr("auth_error")
  }

  /** `GET(request)`: `now` is the clock read for the expiry, and
      `writeNow` the later reading `upsert` takes for `updated_at`. */
  function Callback(query: Query, exchange: Exchange, lookup: Lookup, now: int, writeNow: int, store: TokenStore, writeFault: Option<string>): (o: Outcome)
    // the code is exchanged exactly when no error came back and a code did
    ensures o.exchanged <==> !Truthy(query.error) && Truthy(query.code)
    // the store is written only after every check passed
    ensures !o.redirect.Dashboard? ==> o.store == store
    // an error from the provider wins over everything
    ensures Truthy(query.error) ==> o.redirect == LoginError(query.error.value)
    ensures o.exchanged && exchange.ExchangeFailed? ==> o.redirect == LoginError(exchange.message)
    // then a user or session error, then a missing user or session
    ensures !Truthy(query.error) && !(o.exchanged && exchange.ExchangeFailed?) ==>
      && (lookup.userError.Some? || lookup.sessionError.Some? ==> o.redirect == LoginError(AuthErrorMessage(lookup)))
      && (lookup.userError.None? && lookup.sessionError.None? && (lookup.userId.None? || lookup.session.None?) ==>
            o.redirect == LoginError("missing_session"))
    // with a user and a session, the provider's tokens are stored, or the
    // failure is shown on the dashboard
    ensures o.redirect.Dashboard? || o.redirect.DashboardSyncError? ==>
      && lookup.userError.None? && lookup.sessionError.None? && lookup.userId.Some? && lookup.session.Some?
      && (writeFault.Some? <==> o.redirect.DashboardSyncError?)
    ensures o.redirect.DashboardSyncError? ==> o.redirect.syncError == Some(writeFault.value)
    ensures o.redirect.Dashboard? ==>
      var s := lookup.session.value;
      && Stored(o.store, lookup.userId.value) == Ok(Credential(s.providerToken, s.providerRefreshToken, ExpiresAtMs(s, now)))
      && o.store[lookup.userId.value].updatedAt == writeNow
      && (forall u :: u in store && u != lookup.userId.value ==> u in o.store && o.store[u] == store[u])
  {
    if Truthy(query.error) then Outcome(LoginError(query.error.value), store, false)
    else if Truthy(query.code) && exchange.ExchangeFailed? then Outcome(LoginError(exchange.message), store, true)
    else
      var exchanged := Truthy(query.code);
      if lookup.userError.Some? || lookup.sessionError.Some? then Outcome(LoginError(AuthErrorMessage(lookup)), store, exchanged)
      else if lookup.userId.None? || lookup.session.None? then Outcome(LoginError("missing_session"), store, exchanged)
      else
        var s := lookup.session.value;
        var tokens := Credential(s.providerToken, s.providerRefreshToken, ExpiresAtMs(s, now));
        match Upsert(store, lookup.userId.value, tokens, writeNow, writeFault)
        case Err(e) => Outcome(DashboardSyncError(e.message), store, exchanged)
        case Ok(written) => Outcome(Dashboard, written, exchanged)
  }

  /** A complete sign-in leaves a credential that `getValidAccessToken`
      uses without a refresh while it has more than a minute to run. */
  lemma SignedInTokenIsFresh(query: Query, exchange: Exchange, lookup: Lookup, now: int, writeNow: int, store: TokenStore)
    requires lookup.userId.Some? && lookup.session.Some?
    requires Callback(query, exchange, lookup, now, writeNow, store, None).redirect.Dashboard?
    requires Truthy(lookup.session.value.providerToken)
    requires TruthyNumber(lookup.session.value.expiresAt) && lookup.session.value.expiresAt.value * 1000 > now + FreshnessMarginMs
    ensures var o := Callback(query, exchange, lookup, now, writeNow, store, None);
      IsFresh(Stored(o.store, lookup.userId.value).value, now)
  {
  }
}
