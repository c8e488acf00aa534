/** `CalendarService.getEvents` (services/calendar.ts): the user's events
    from the provider, with the same one-time refresh and retry after an
    authorization error as the mail service. The provider's answers, the
    token endpoint's answers, failing writes and the clock are given in a
    `CalendarScript`. */
module Calendar {
  import opened Common
  import opened AuthTokens

  /** The page size asked of the provider. */
  const MaxResults := 50

  /** `start` or `end` of a provider event: a time, or a whole day. */
  datatype EventTime = EventTime(dateTime: Option<string>, date: Option<string>)

  /** An event as the provider sends it; every field may be missing. */
  datatype RawEvent = RawEvent(
    id: Option<string>,
    summary: Option<string>,
    description: Option<string>,
    start: Option<EventTime>,
    end: Option<EventTime>)

  /** An event as the service returns it. The id is passed on unchecked
      (`e.id!` asserts presence only to the type checker). */
  datatype CalendarEvent = CalendarEvent(
    id: Option<string>,
    summary: Option<string>,
    description: Option<string>,
    start: Option<string>,
    end: Option<string>)

  /** What `calendar.events.list` gives: the `items` array, which may be
      missing, or an error. */
  datatype ListOutcome = Listed(items: Option<seq<RawEvent>>) | ListFailed(error: Fault)

  /** One list request: the access token the client holds, and the fixed
      query. */
  datatype ListRequest = ListRequest(accessToken: Option<string>, calendarId: string, singleEvents: bool, orderBy: string, maxResults: int)

  /** The oracle for one call: the clock read for the freshness test,
      the failures of the two reads of the stored credential (`get`, then
      the one inside `getValidAccessToken`), the token service's refresh
      and write with the clock reading that write takes, the first list
      answer, the refresh and write after an authorization error with its
      own clock reading, and the retried list answer. */
  datatype CalendarScript = CalendarScript(
    now: int,
    readFault: Option<string>,
    tokenReadFault: Option<string>,
    refresh: RefreshOutcome,
    tokenWriteNow: int,
    tokenWriteFault: Option<string>,
    first: ListOutcome,
    retryRefresh: RefreshOutcome,
    retryWriteNow: int,
    retryWriteFault: Option<string>,
    retry: ListOutcome)

  /** The events or the error thrown, the token store afterwards, and the
      list requests made. */
  datatype Listing = Listing(events: Result<seq<CalendarEvent>>, store: TokenStore, calls: seq<ListRequest>)

  function Request(accessToken: Option<string>): ListRequest {
    ListRequest(accessToken, "primary", true, "startTime", MaxResults)
  }

  /** `t?.dateTime ?? t?.date ?? null` */
  function When(t: Option<EventTime>): (r: Option<string>)
    ensures r.None? <==> t.None? || (t.value.dateTime.None? && t.value.date.None?)
    ensures t.Some? && t.value.dateTime.Some? ==> r == t.value.dateTime
    ensures t.Some? && t.value.dateTime.None? ==> r == t.value.date
  {
    match t
    case None => None
    case Some(et) => if et.dateTime.Some? then et.dateTime else et.date
  }

  /** The mapping of one provider event. */
  function ToEvent(e: RawEvent): CalendarEvent {
    CalendarEvent(e.id, e.summary, e.description, When(e.start), When(e.end))
  }

  /** `(items ?? []).map(...)`: one event per provider item, in order. */
  function MapEvents(items: seq<RawEvent>): (r: seq<CalendarEvent>)
    ensures |r| == |items|
    ensures forall i :: 0 <= i < |items| ==> r[i].id == items[i].id && r[i].start == When(items[i].start) && r[i].end == When(items[i].end)
    ensures forall i :: 0 <= i < |items| ==> r[i].summary == items[i].summary && r[i].description == items[i].description
  {
    if |items| == 0 then []
    else [ToEvent(items[0])] + MapEvents(items[1..])
  }

  /** Mapping a concatenation maps each part. */
  lemma {:induction false} MapEventsAppend(a: seq<RawEvent>, b: seq<RawEvent>)
    ensures MapEvents(a + b) == MapEvents(a) + MapEvents(b)
  {
    if |a| > 0 {
      assert (a + b)[1..] == a[1..] + b;
      MapEventsAppend(a[1..], b);
    }
  }

  /** Missing `items` gives no events. */
  function EventsOf(items: Option<seq<RawEvent>>): (r: seq<CalendarEvent>)
    ensures items.None? ==> r == []
    ensures items.Some? ==> |r| == |items.value|
  {
    MapEvents(items.GetOr([]))
  }

  /** `getEvents(userId, params)` */
  function GetEvents(store: TokenStore, userId: string, s: CalendarScript): (l: Listing)
    // a failed read or a missing row is an error and nothing is asked of
    // the provider
    ensures s.readFault.Some? ==> l == Listing(Err(Thrown(s.readFault.value)), store, [])
    ensures s.readFault.None? && userId !in store ==> l == Listing(Err(Thrown(NoRowMessage)), store, [])
    ensures s.readFault.None? && userId in store && s.tokenReadFault.Some? ==> l == Listing(Err(Thrown(s.tokenReadFault.value)), store, [])
    // at most two list requests, each with the fixed query
    ensures |l.calls| <= 2
    ensures forall j :: 0 <= j < |l.calls| ==> l.calls[j] == Request(l.calls[j].accessToken)
    // a first answer is mapped
    ensures |l.calls| == 1 && s.first.Listed? ==> l.events == Ok(EventsOf(s.first.items))
    // the second request follows an authorization error, with a stored
    // refresh token and a non-empty refreshed token that was written back
    // next to that same refresh token
    ensures |l.calls| == 2 ==>
      && s.first.ListFailed? && IsUnauthorized(s.first.error)
      && userId in store && Truthy(store[userId].refreshToken)
      && Truthy(l.calls[1].accessToken)
      && s.retryRefresh.Refreshed? && s.retryRefresh.accessToken == l.calls[1].accessToken
      && Stored(l.store, userId) == Ok(Credential(l.calls[1].accessToken, store[userId].refreshToken, StoredExpiry(s.retryRefresh.expiryDate)))
    ensures |l.calls| == 2 ==> l.events == (if s.retry.Listed? then Ok(EventsOf(s.retry.items)) else Err(s.retry.error))
    // without a request the result is empty or an error
    ensures l.calls == [] && l.events.Ok? ==> l.events.value == []
    // an error that is not an authorization error is thrown as it is
    ensures |l.calls| >= 1 && s.first.ListFailed? && !IsUnauthorized(s.first.error) ==>
      l.events == Err(s.first.error) && |l.calls| == 1
    // an authorization error that is not retried is thrown as it is,
    // unless the refresh or its write failed first
    ensures |l.calls| == 1 && s.first.ListFailed? && l.events != Err(s.first.error) ==>
      && IsUnauthorized(s.first.error)
      && (|| (s.retryRefresh.RefreshFailed? && l.events == Err(s.retryRefresh.error))
          || (s.retryRefresh.Refreshed? && s.retryWriteFault.Some? && l.events == Err(Thrown(s.retryWriteFault.value))))
    ensures StoreKept(store, l.store, userId)
  {
    match Get(store, userId, s.readFault)
    case Err(e) => Listing(Err(e), store, [])
    case Ok(rec) =>
      var f := GetValidAccessToken(store, userId, s.now, s.tokenWriteNow, s.tokenReadFault, s.refresh, s.tokenWriteFault);
      if f.token.Err? then Listing(Err(f.token.error), f.store, [])
      else
        var accessToken := f.token.value;
        if !Truthy(accessToken) && !Truthy(rec.refreshToken) then Listing(Ok([]), f.store, [])
        else
          var first := [Request(accessToken)];
          match s.first
          case Listed(items) => Listing(Ok(EventsOf(items)), f.store, first)
          case ListFailed(e) =>
            if IsUnauthorized(e) && Truthy(rec.refreshToken) then
              RefreshAndRetry(f.store, userId, rec.refreshToken.value, accessToken, e, s)
            else Listing(Err(e), f.store, first)
  }

  /** The `catch` after an authorization error, with a refresh token: the
      refreshed token is written back, and the list is asked again when
      that token is non-empty; otherwise the first error is thrown. */
  function RefreshAndRetry(store: TokenStore, userId: string, refreshToken: string, accessToken: Option<string>,
                           e: Fault, s: CalendarScript): (l: Listing)
    requires userId in store
    ensures 1 <= |l.calls| <= 2 && l.calls[0] == Request(accessToken)
    ensures |l.calls| == 2 ==>
      && l.calls[1] == Request(l.calls[1].accessToken) && Truthy(l.calls[1].accessToken)
      && s.retryRefresh.Refreshed? && s.retryRefresh.accessToken == l.calls[1].accessToken
      && Stored(l.store, userId) == Ok(Credential(l.calls[1].accessToken, Some(refreshToken), StoredExpiry(s.retryRefresh.expiryDate)))
      && l.events == (if s.retry.Listed? then Ok(EventsOf(s.retry.items)) else Err(s.retry.error))
    ensures |l.calls| == 1 && l.events != Err(e) ==>
      || (s.retryRefresh.RefreshFailed? && l.events == Err(s.retryRefresh.error))
      || (s.retryRefresh.Refreshed? && s.retryWriteFault.Some? && l.events == Err(Thrown(s.retryWriteFault.value)))
    ensures forall u :: u in store && u != userId ==> u in l.store && l.store[u] == store[u]
    ensures userId in l.store
    ensures store[userId].refreshToken == Some(refreshToken) ==> l.store[userId].refreshToken == Some(refreshToken)
  {
    var first := [Request(accessToken)];
    var got := RefreshAndPersist(store, userId, refreshToken, s.retryWriteNow, s.retryRefresh, s.retryWriteFault);
    var newAccess := got.0;
    if newAccess.Err? then Listing(Err(newAccess.error), got.1, first)
    else if Truthy(newAccess.value) then
      var calls := first + [Request(newAccess.value)];
      match s.retry
      case Listed(items2) => Listing(Ok(EventsOf(items2)), got.1, calls)
      case ListFailed(e2) => Listing(Err(e2), got.1, calls)
    else Listing(Err(e), got.1, first)
  }

  /** No usable access token and no refresh token: no events and no
      request, without an error. */
  lemma NothingToListWith(store: TokenStore, userId: string, s: CalendarScript)
    requires userId in store && !Truthy(store[userId].refreshToken) && s.readFault.None? && s.tokenReadFault.None?
    requires !IsFresh(Stored(store, userId).value, s.now) && !Truthy(store[userId].accessToken)
    ensures GetEvents(store, userId, s) == Listing(Ok([]), store, [])
  {
  }

  /** With a fresh stored token the provider is asked once, with that
      token, and nothing is refreshed. */
  lemma FreshTokenListsOnce(store: TokenStore, userId: string, s: CalendarScript)
    requires userId in store && IsFresh(Stored(store, userId).value, s.now) && s.first.Listed?
    requires s.readFault.None? && s.tokenReadFault.None?
    ensures GetEvents(store, userId, s) == Listing(Ok(EventsOf(s.first.items)), store, [Request(store[userId].accessToken)])
  {
  }
}
