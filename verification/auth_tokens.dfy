/** `AuthTokensService` (sercices/auth-service.ts): the stored Google
    credential of each user, and the decision whether to use the stored
    access token or to refresh it. Timestamps are milliseconds since the
    epoch; the clock and the token endpoint are parameters. */
module AuthTokens {
  import opened Common

  const Provider := "google"
  /** A stored token is used only when it expires more than this many
      milliseconds from now. */
  const FreshnessMarginMs := 60000
  /** The error `.single()` reports when the user has no stored row. */
  const NoRowMessage := "JSON object requested, multiple (or no) rows returned"

  /** The three columns `get` selects (`UserTokens`). */
  datatype Credential = Credential(accessToken: Option<string>, refreshToken: Option<string>, expiresAt: Option<int>)

  /** A row of `user_tokens`, as `upsert` writes it. */
  datatype TokenRow = TokenRow(
    userId: string,
    provider: string,
    accessToken: Option<string>,
    refreshToken: Option<string>,
    expiresAt: Option<int>,
    updatedAt: int)

  /** The `user_tokens` table, keyed by user id. */
  type TokenStore = map<string, TokenRow>

  /** What `refreshAccessToken()` gives: an error, or new credentials
      whose `access_token` and `expiry_date` may each be missing. */
  datatype RefreshOutcome = RefreshFailed(error: Fault) | Refreshed(accessToken: Option<string>, expiryDate: Option<int>)

  /** `upsert(userId, tokens)`: writes the row for `userId` with provider
      `google`, the given tokens and `updated_at` set to the clock. A
      database error (`fault`) is thrown and nothing is written. */
  function Upsert(store: TokenStore, userId: string, tokens: Credential, now: int, fault: Option<string>): (r: Result<TokenStore>)
    ensures fault.Some? <==> r.Err?
    ensures fault.Some? ==> r.error == Thrown(fault.value)
    ensures r.Ok? ==> r.value.Keys == store.Keys + {userId}
    ensures r.Ok? ==> r.value[userId].userId == userId && r.value[userId].provider == Provider
    ensures r.Ok? ==> r.value[userId].updatedAt == now
    ensures r.Ok? ==> Stored(r.value, userId) == Ok(tokens)
    ensures r.Ok? ==> forall u :: u in store && u != userId ==> r.value[u] == store[u]
  {
    if fault.Some? then Err(Thrown(fault.value))
    else Ok(store[userId := TokenRow(userId, Provider, tokens.accessToken, tokens.refreshToken, tokens.expiresAt, now)])
  }

  /** The stored credential as a read that reaches the database sees it;
      with no row, `.single()` fails and its error is thrown. */
  function Stored(store: TokenStore, userId: string): (r: Result<Credential>)
    ensures r.Ok? <==> userId in store
    ensures r.Ok? ==>
      && r.value.accessToken == store[userId].accessToken
      && r.value.refreshToken == store[userId].refreshToken
      && r.value.expiresAt == store[userId].expiresAt
    ensures r.Err? ==> r.error == Thrown(NoRowMessage)
  {
    if userId in store then
      var row := store[userId];
      Ok(Credential(row.accessToken, row.refreshToken, row.expiresAt))
    else Err(Thrown(NoRowMessage))
  }

  /** `get(userId)`: a read that fails with a database error
      (`readFault`) throws it; otherwise the stored credential, or the
      `.single()` error when the user has no row. */
  function Get(store: TokenStore, userId: string, readFault: Option<string>): (r: Result<Credential>)
    ensures r.Ok? <==> readFault.None? && userId in store
    ensures r.Ok? ==> r.value == Credential(store[userId].accessToken, store[userId].refreshToken, store[userId].expiresAt)
    ensures readFault.Some? ==> r == Err(Thrown(readFault.value))
    ensures readFault.None? && userId !in store ==> r == Err(Thrown(NoRowMessage))
  {
    if readFault.Some? then Err(Thrown(readFault.value)) else Stored(store, userId)
  }

  /** `exp`: the stored expiry, or 0 when there is none. */
  function ExpiryMs(c: Credential): int {
    c.expiresAt.GetOr(0)
  }

  /** The stored access token is used as it is. */
  predicate IsFresh(c: Credential, now: int) {
    Truthy(c.accessToken) && ExpiryMs(c) > now + FreshnessMarginMs
  }

  /** The `newExpiresAt` ladder as written: the provider's `expiry_date`
      when it is truthy, else a time computed from `expiresInSec`, else
      null. */
  function ExpiryLadder(expiryDate: Option<int>, now: int): Option<int> {
    var expiresInSec := if TruthyNumber(expiryDate) then Some((expiryDate.value - now) / 1000) else None;
    if TruthyNumber(expiryDate) then expiryDate
    else if TruthyNumber(expiresInSec) then Some(now + expiresInSec.value * 1000)
    else None
  }

  /** The expiry that is stored after a refresh: the provider's
      `expiry_date` when it is truthy, otherwise none. */
  function StoredExpiry(expiryDate: Option<int>): (r: Option<int>)
    ensures r.Some? ==> r == expiryDate && r.value != 0
  {
    if TruthyNumber(expiryDate) then expiryDate else None
  }

  /** The middle branch of the ladder never applies: `expiresInSec` is
      only defined when `expiry_date` is, and then the first branch wins. */
  lemma ExpiryLadderMiddleUnreachable(expiryDate: Option<int>, now: int)
    ensures ExpiryLadder(expiryDate, now) == StoredExpiry(expiryDate)
  {
  }

  /** Other users' rows stay as they were, and this user's refresh token
      is never changed. */
  predicate StoreKept(before: TokenStore, after: TokenStore, userId: string) {
    && (forall u :: u in before && u != userId ==> u in after && after[u] == before[u])
    && (userId in before ==> userId in after && after[userId].refreshToken == before[userId].refreshToken)
  }

  lemma StoreKeptTrans(a: TokenStore, b: TokenStore, c: TokenStore, userId: string)
    requires StoreKept(a, b, userId) && StoreKept(b, c, userId)
    ensures StoreKept(a, c, userId)
  {
  }

  /** What a call of `getValidAccessToken` leaves behind: the token or the
      error it threw, the store, and whether the token endpoint was
      called. */
  datatype TokenFetch = TokenFetch(token: Result<Option<string>>, store: TokenStore, refreshed: bool)

  /** `getValidAccessToken(userId)`: `readFault` is the error of its
      `get`, if the read fails. `now` is the clock read for the freshness
      test and the expiry; `writeNow` is the later reading `upsert` takes
      for `updated_at`, after the refresh has been awaited. */
  function GetValidAccessToken(store: TokenStore, userId: string, now: int, writeNow: int, readFault: Option<string>,
                               refresh: RefreshOutcome, writeFault: Option<string>): (f: TokenFetch)
    // a failed read or a missing row is an error, before any refresh
    ensures readFault.Some? ==> f == TokenFetch(Err(Thrown(readFault.value)), store, false)
    ensures readFault.None? && userId !in store ==> f == TokenFetch(Err(Thrown(NoRowMessage)), store, false)
    // the token endpoint is called exactly when the read succeeds, the
    // stored token is not fresh and there is a refresh token to use
    ensures f.refreshed <==> readFault.None? && userId in store && !IsFresh(Stored(store, userId).value, now)
                             && Truthy(store[userId].refreshToken)
    // without a refresh nothing is written and the stored token, fresh or
    // stale or null, is returned
    ensures readFault.None? && userId in store && !f.refreshed ==> f == TokenFetch(Ok(store[userId].accessToken), store, false)
    // a failed refresh is thrown and nothing is written
    ensures f.refreshed && refresh.RefreshFailed? ==> f.token == Err(refresh.error) && f.store == store
    // a failed write is thrown
    ensures f.refreshed && refresh.Refreshed? && writeFault.Some? ==> f.token == Err(Thrown(writeFault.value)) && f.store == store
    // a refresh writes the new access token, the unchanged refresh token
    // and the provider's expiry, and returns the new token
    ensures f.refreshed && refresh.Refreshed? && writeFault.None? ==>
      && f.token == Ok(refresh.accessToken)
      && Stored(f.store, userId) == Ok(Credential(refresh.accessToken, store[userId].refreshToken, StoredExpiry(refresh.expiryDate)))
      && f.store[userId].updatedAt == writeNow
    // no other user's row changes
    ensures forall u :: u in store && u != userId ==> u in f.store && f.store[u] == store[u]
    ensures f.store.Keys == store.Keys
  {
    match Get(store, userId, readFault)
    case Err(e) => TokenFetch(Err(e), store, false)
    case Ok(rec) =>
      if IsFresh(rec, now) then TokenFetch(Ok(rec.accessToken), store, false)
      else if !Truthy(rec.refreshToken) then TokenFetch(Ok(rec.accessToken), store, false)
      else
        match refresh
        case RefreshFailed(e) => TokenFetch(Err(e), store, true)
        case Refreshed(newAccess, expiryDate) =>
          var newExpiresAt := ExpiryLadder(expiryDate, now);
          match Upsert(store, userId, Credential(newAccess, rec.refreshToken, newExpiresAt), writeNow, writeFault)
          case Err(e) => TokenFetch(Err(e), store, true)
          case Ok(written) => TokenFetch(Ok(newAccess), written, true)
  }

  /** After a successful refresh that yields a token valid for more than
      the margin, a second call at the same time uses the stored token
      without calling the token endpoint again. */
  lemma RefreshedTokenIsFresh(store: TokenStore, userId: string, now: int, writeNow: int, newAccess: string, expiry: int,
                              writeNow2: int, refresh2: RefreshOutcome, writeFault2: Option<string>)
    requires userId in store && !IsFresh(Stored(store, userId).value, now) && Truthy(store[userId].refreshToken)
    requires newAccess != "" && expiry > now + FreshnessMarginMs
    ensures var first := GetValidAccessToken(store, userId, now, writeNow, None, Refreshed(Some(newAccess), Some(expiry)), None);
            var second := GetValidAccessToken(first.store, userId, now, writeNow2, None, refresh2, writeFault2);
            first.token == Ok(Some(newAccess)) && second == TokenFetch(Ok(Some(newAccess)), first.store, false)
  {
  }

  /** The refresh token is never changed by `getValidAccessToken`. */
  lemma RefreshTokenPreserved(store: TokenStore, userId: string, now: int, writeNow: int, readFault: Option<string>,
                              refresh: RefreshOutcome, writeFault: Option<string>)
    requires userId in store
    ensures var f := GetValidAccessToken(store, userId, now, writeNow, readFault, refresh, writeFault);
            userId in f.store && f.store[userId].refreshToken == store[userId].refreshToken
  {
  }

  /** The shared refresh-and-persist step of services/gmail.ts and
      services/calendar.ts: refresh with the refresh token read earlier,
      then write the new access token with that same refresh token. Its
      result is the new access token, possibly null; a failed refresh or
      write is thrown. `writeNow` is the clock reading `upsert` takes. */
  function RefreshAndPersist(store: TokenStore, userId: string, refreshToken: string, writeNow: int,
                             refresh: RefreshOutcome, writeFault: Option<string>): (r: (Result<Option<string>>, TokenStore))
    ensures refresh.RefreshFailed? ==> r == (Err(refresh.error), store)
    ensures refresh.Refreshed? && writeFault.Some? ==> r == (Err(Thrown(writeFault.value)), store)
    ensures refresh.Refreshed? && writeFault.None? ==>
      && r.0 == Ok(refresh.accessToken)
      && Stored(r.1, userId) == Ok(Credential(refresh.accessToken, Some(refreshToken), StoredExpiry(refresh.expiryDate)))
      && r.1[userId].updatedAt == writeNow
      && (forall u :: u in store && u != userId ==> u in r.1 && r.1[u] == store[u])
  {
    match refresh
    case RefreshFailed(e) => (Err(e), store)
    case Refreshed(newAccess, expiryDate) =>
      var expiry := if TruthyNumber(expiryDate) then expiryDate else None;
      match Upsert(store, userId, Credential(newAccess, Some(refreshToken), expiry), writeNow, writeFault)
      case Err(e) => (Err(e), store)
      case Ok(written) => (Ok(newAccess), written)
  }
}
