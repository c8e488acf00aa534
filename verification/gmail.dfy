/** `GmailService` (services/gmail.ts): sending one message per recipient,
    one at a time, with one retry after an authorization error, and one
    delivery-log entry per recipient.

    Everything the service awaits is an outcome given in advance: for the
    k-th recipient, `scripts(k)` says what the provider answers to the
    first and the second send, what the token endpoint answers, which
    writes to the database throw, and the clock. */
module Gmail {
  import opened Common
  import opened Types
  import opened AuthTokens
  import Mime
  import Base64Url
  import Utf8

  /** What `gmail.users.messages.send` gives: the new message's id (which
      may be missing), or an error. */
  datatype SendOutcome = Delivered(id: Option<string>) | Rejected(error: Fault)

  /** The oracle for one recipient. `firstLogFault` and `retryLogFault`
      are errors of the success-log write after the first and the second
      send; `failLogFault` is the error of the failure-log write;
      `readFault` is the error of the token service's read when `sendBulk`
      asks it again; each `None` means the database call succeeds. `now`
      is the clock read for the freshness test and `writeNow` the later
      reading the token write takes. */
  datatype Script = Script(
    first: SendOutcome,
    firstLogFault: Option<string>,
    now: int,
    writeNow: int,
    readFault: Option<string>,
    refresh: RefreshOutcome,
    tokenWriteFault: Option<string>,
    retry: SendOutcome,
    retryLogFault: Option<string>,
    failLogFault: Option<string>)

  /** A row of `email_logs` as `EmailLogsService.create` inserts it. */
  datatype LogEntry = LogEntry(
    userId: string,
    toEmail: string,
    subject: string,
    body: string,
    messageId: Option<string>,
    success: bool,
    errorMessage: Option<string>)

  /** One request to the provider: the access token the client holds,
      and the sender and item whose encoded message is its `raw` field. */
  datatype SendCall = SendCall(accessToken: Option<string>, from: string, item: Item)
  {
    /** `toBase64Url(buildMimeMessage(from, to, subject, body))` */
    function Raw(): string {
      Base64Url.EncodeText(Mime.BuildMimeMessage(from, item.email, item.subject, item.body))
    }
  }

  /** One message to send. */
  datatype Item = Item(email: string, subject: string, body: string)

  /** Who sends. */
  datatype Env = Env(userId: string, fromEmail: string)

  /** Where a fresh token comes from after an authorization error:
      `sendBulk` asks the token service; `sendBulkPerRecipient` refreshes
      with the credential `rec` it read at the start. */
  datatype Mode = ViaTokenManager | ViaStoredRefresh(rec: Credential)

  /** State threaded from one recipient to the next: the delivery log,
      the token store, the access token the client currently holds, and
      every request made to the provider. */
  datatype Progress = Progress(log: seq<LogEntry>, store: TokenStore, token: Option<string>, calls: seq<SendCall>)

  /** The result for one recipient, or the error that aborted the batch. */
  datatype Step = Step(result: Result<SendResult>, progress: Progress)

  /** The result array, or the error that aborted the batch. */
  datatype Batch = Batch(results: Result<seq<SendResult>>, progress: Progress)

  /** A request can be read back: its `raw` field decodes to the UTF-8
      bytes of the message, whose header lines and body a reader recovers
      when the sender, recipient and subject hold no carriage return. */
  lemma RequestReadsBack(c: SendCall)
    requires Mime.NoCr(c.from) && Mime.NoCr(c.item.email) && Mime.NoCr(c.item.subject)
    ensures var msg := Mime.BuildMimeMessage(c.from, c.item.email, c.item.subject, c.item.body);
      && Base64Url.Decode(c.Raw()) == Some(Utf8.Encode(msg))
      && Mime.Parse(msg) == Some((Mime.HeaderLines(c.from, c.item.email, c.item.subject), c.item.body))
  {
    var msg := Mime.BuildMimeMessage(c.from, c.item.email, c.item.subject, c.item.body);
    Base64Url.RoundTrip(Utf8.Encode(msg));
    Mime.ParseBuild(c.from, c.item.email, c.item.subject, c.item.body);
  }

  /** The entry written for `it` agrees with the result returned for it. */
  predicate EntryFor(e: LogEntry, env: Env, it: Item, r: SendResult) {
    && e.userId == env.userId
    && e.toEmail == it.email && e.subject == it.subject && e.body == it.body
    && e.success == r.success
    && (r.success ==> e.messageId == r.id && e.errorMessage.None?)
    && (!r.success ==> e.messageId.None? && e.errorMessage == r.error)
  }

  /** A step that returns a result for `it` appended exactly one entry to
      the log, agreeing with that result; a step that aborts appended
      none. */
  predicate Logged(env: Env, it: Item, before: seq<LogEntry>, st: Step) {
    && (st.result.Ok? ==>
          && st.result.value.email == it.email
          && |st.progress.log| == |before| + 1 && st.progress.log[..|before|] == before
          && EntryFor(st.progress.log[|before|], env, it, st.result.value))
    && (st.result.Err? ==> st.progress.log == before)
  }

  lemma PrefixTrans<T>(a: seq<T>, b: seq<T>, c: seq<T>)
    requires |a| <= |b| <= |c| && b[..|a|] == a && c[..|b|] == b
    ensures c[..|a|] == a
  {
    assert c[..|a|] == c[..|b|][..|a|];
  }

  /** The error the first attempt ends in, if any: the provider's, or the
      success-log write's. */
  function FirstError(s: Script): (e: Option<Fault>)
    ensures e.None? <==> s.first.Delivered? && s.firstLogFault.None?
  {
    match s.first
    case Rejected(e) => Some(e)
    case Delivered(_) => if s.firstLogFault.Some? then Some(Thrown(s.firstLogFault.value)) else None
  }

  /** The error the retry ends in, if any. */
  function RetryError(s: Script): (e: Option<Fault>)
    ensures e.None? <==> s.retry.Delivered? && s.retryLogFault.None?
  {
    match s.retry
    case Rejected(e) => Some(e)
    case Delivered(_) => if s.retryLogFault.Some? then Some(Thrown(s.retryLogFault.value)) else None
  }

  /** A send attempt either completes (the message was sent and logged)
      or ends in an error caught by the surrounding `catch`. */
  datatype Attempted = Sent(step: Step) | Caught(error: Fault, progress: Progress)

  /** The body of a `try`: send with the current token, then log the
      success. A failed log write is caught like a failed send, although
      the message has gone out. */
  function Attempt(env: Env, p: Progress, it: Item, outcome: SendOutcome, logFault: Option<string>): (a: Attempted)
    ensures a.Sent? <==> outcome.Delivered? && logFault.None?
    ensures a.Sent? ==>
      && a.step.result == Ok(SendResult(it.email, true, None, outcome.id))
      && a.step.progress.log == p.log + [LogEntry(env.userId, it.email, it.subject, it.body, outcome.id, true, None)]
    ensures a.Caught? ==> a.progress.log == p.log
    ensures a.Caught? && outcome.Rejected? ==> a.error == outcome.error
    ensures a.Caught? && outcome.Delivered? ==> a.error == Thrown(logFault.value)
    ensures var q := if a.Sent? then a.step.progress else a.progress;
      q.calls == p.calls + [SendCall(p.token, env.fromEmail, it)] && q.store == p.store && q.token == p.token
  {
    var p1 := p.(calls := p.calls + [SendCall(p.token, env.fromEmail, it)]);
    match outcome
    case Rejected(e) => Caught(e, p1)
    case Delivered(id) =>
      if logFault.Some? then Caught(Thrown(logFault.value), p1)
      else
        var entry := LogEntry(env.userId, it.email, it.subject, it.body, id, true, None);
        Sent(Step(Ok(SendResult(it.email, true, None, id)), p1.(log := p1.log + [entry])))
  }

  /** Logging a failure and returning it; when the log write throws, the
      error leaves `sendOne` and aborts the batch. */
  function Fail(env: Env, p: Progress, it: Item, message: Option<string>, logFault: Option<string>): (st: Step)
    ensures logFault.Some? ==> st == Step(Err(Thrown(logFault.value)), p)
    ensures logFault.None? ==>
      && st.result == Ok(SendResult(it.email, false, message, None))
      && st.progress == p.(log := p.log + [LogEntry(env.userId, it.email, it.subject, it.body, None, false, message)])
  {
    if logFault.Some? then Step(Err(Thrown(logFault.value)), p)
    else
      var entry := LogEntry(env.userId, it.email, it.subject, it.body, None, false, message);
      Step(Ok(SendResult(it.email, false, message, None)), p.(log := p.log + [entry]))
  }

  /** The second attempt with a fresh token; its error is reported with
      its own message, which may be missing. */
  function Retry(env: Env, p: Progress, it: Item, s: Script): (st: Step)
    ensures st.progress.calls == p.calls + [SendCall(p.token, env.fromEmail, it)]
    ensures st.progress.store == p.store && st.progress.token == p.token
    ensures RetryError(s).None? ==> st.result == Ok(SendResult(it.email, true, None, s.retry.id))
    ensures RetryError(s).Some? && s.failLogFault.None? ==>
      st.result == Ok(SendResult(it.email, false, RetryError(s).value.message, None))
    ensures RetryError(s).Some? && s.failLogFault.Some? ==> st.result == Err(Thrown(s.failLogFault.value))
    ensures Logged(env, it, p.log, st)
  {
    match Attempt(env, p, it, s.retry, s.retryLogFault)
    case Sent(step) => step
    case Caught(e2, p2) => Fail(env, p2, it, e2.message, s.failLogFault)
  }

  /** Obtaining a fresh access token after an authorization error:
      `sendBulk` asks `getValidAccessToken` again; `sendBulkPerRecipient`
      refreshes with the stored refresh token and writes the result back,
      or gives up (no token) when there is no refresh token. Errors are
      not caught. */
  function FreshToken(env: Env, mode: Mode, store: TokenStore, s: Script): (r: (Result<Option<string>>, TokenStore))
    requires mode.ViaStoredRefresh? ==> env.userId in store && store[env.userId].refreshToken == mode.rec.refreshToken
    ensures StoreKept(store, r.1, env.userId)
    ensures mode.ViaStoredRefresh? ==> env.userId in r.1
    ensures mode.ViaStoredRefresh? && !Truthy(mode.rec.refreshToken) ==> r == (Ok(None), store)
  {
    match mode
    case ViaTokenManager =>
      var f := GetValidAccessToken(store, env.userId, s.now, s.writeNow, s.readFault, s.refresh, s.tokenWriteFault);
      (f.token, f.store)
    case ViaStoredRefresh(rec) =>
      if Truthy(rec.refreshToken) then
        RefreshAndPersist(store, env.userId, rec.refreshToken.value, s.writeNow, s.refresh, s.tokenWriteFault)
      else (Ok(None), store)
  }

  /** The `catch` of `sendOne`: retry once after an authorization error
      when a fresh token is obtained, otherwise report the first error's
      message, or "send_failed" when it has none. */
  function Recover(env: Env, mode: Mode, p: Progress, it: Item, s: Script, e: Fault): (st: Step)
    requires mode.ViaStoredRefresh? ==> env.userId in p.store && p.store[env.userId].refreshToken == mode.rec.refreshToken
    ensures Logged(env, it, p.log, st)
    ensures StoreKept(p.store, st.progress.store, env.userId)
  {
    var errorMessage := e.message.GetOr("send_failed");
    if !IsUnauthorized(e) then Fail(env, p, it, Some(errorMessage), s.failLogFault)
    else
      var got := FreshToken(env, mode, p.store, s);
      var newToken := got.0;
      var st := got.1;
      if newToken.Err? then Step(Err(newToken.error), p.(store := st))
      else if Truthy(newToken.value) then Retry(env, p.(store := st, token := newToken.value), it, s)
      else Fail(env, p.(store := st), it, Some(errorMessage), s.failLogFault)
  }

  /** The message text `sendOne` reports for the first error. */
  function FirstMessage(e: Fault): string {
    e.message.GetOr("send_failed")
  }

  /** `sendOne` for one item: the first attempt, and the `catch` when it
      fails. */
  function SendOne(env: Env, mode: Mode, p: Progress, it: Item, s: Script): (st: Step)
    requires mode.ViaStoredRefresh? ==> env.userId in p.store && p.store[env.userId].refreshToken == mode.rec.refreshToken
    // every returned result is for this recipient and was logged once,
    // with an entry that agrees with it; an abort logs nothing
    ensures Logged(env, it, p.log, st)
    ensures StoreKept(p.store, st.progress.store, env.userId)
  {
    match Attempt(env, p, it, s.first, s.firstLogFault)
    case Sent(step) => step
    case Caught(e, p1) => Recover(env, mode, p1, it, s, e)
  }

  /** One or two sends of this item's message per recipient, the first
      with the token held before. */
  lemma SendOneCalls(env: Env, mode: Mode, p: Progress, it: Item, s: Script)
    requires mode.ViaStoredRefresh? ==> env.userId in p.store && p.store[env.userId].refreshToken == mode.rec.refreshToken
    ensures var st := SendOne(env, mode, p, it, s);
      && |p.calls| < |st.progress.calls| <= |p.calls| + 2
      && st.progress.calls[..|p.calls|] == p.calls
      && (forall j :: |p.calls| <= j < |st.progress.calls| ==> st.progress.calls[j].from == env.fromEmail && st.progress.calls[j].item == it)
      && st.progress.calls[|p.calls|].accessToken == p.token
  {
    var a := Attempt(env, p, it, s.first, s.firstLogFault);
    var first := p.calls + [SendCall(p.token, env.fromEmail, it)];
    assert first[..|p.calls|] == p.calls;
    if a.Caught? {
      var e := a.error;
      var p1 := a.progress;
      assert p1.calls == first;
      if IsUnauthorized(e) {
        var got := FreshToken(env, mode, p1.store, s);
        if got.0.Ok? && Truthy(got.0.value) {
          var p2 := p1.(store := got.1, token := got.0.value);
          assert SendOne(env, mode, p, it, s) == Retry(env, p2, it, s);
          assert (first + [SendCall(p2.token, env.fromEmail, it)])[..|p.calls|] == p.calls;
        } else if got.0.Ok? {
          assert SendOne(env, mode, p, it, s) == Fail(env, p1.(store := got.1), it, Some(FirstMessage(e)), s.failLogFault);
        } else {
          assert SendOne(env, mode, p, it, s) == Step(Err(got.0.error), p1.(store := got.1));
        }
      } else {
        assert SendOne(env, mode, p, it, s) == Fail(env, p1, it, Some(FirstMessage(e)), s.failLogFault);
      }
    } else {
      assert a.step.progress.calls == first;
    }
  }

  /** A second send happens only after an authorization error, with a
      non-empty fresh token, which the client then keeps. */
  lemma SendOneRetryCall(env: Env, mode: Mode, p: Progress, it: Item, s: Script)
    requires mode.ViaStoredRefresh? ==> env.userId in p.store && p.store[env.userId].refreshToken == mode.rec.refreshToken
    ensures var st := SendOne(env, mode, p, it, s);
      |st.progress.calls| == |p.calls| + 2 ==>
        && FirstError(s).Some? && IsUnauthorized(FirstError(s).value)
        && Truthy(st.progress.calls[|p.calls| + 1].accessToken)
        && st.progress.token == st.progress.calls[|p.calls| + 1].accessToken
  {
    var a := Attempt(env, p, it, s.first, s.firstLogFault);
    if a.Caught? {
      var e := a.error;
      var p1 := a.progress;
      assert |p1.calls| == |p.calls| + 1;
      assert FirstError(s) == Some(e);
      if IsUnauthorized(e) {
        var got := FreshToken(env, mode, p1.store, s);
        if got.0.Ok? && Truthy(got.0.value) {
          var p2 := p1.(store := got.1, token := got.0.value);
          assert SendOne(env, mode, p, it, s) == Retry(env, p2, it, s);
        } else if got.0.Ok? {
          assert SendOne(env, mode, p, it, s) == Fail(env, p1.(store := got.1), it, Some(FirstMessage(e)), s.failLogFault);
        } else {
          assert SendOne(env, mode, p, it, s) == Step(Err(got.0.error), p1.(store := got.1));
        }
      } else {
        assert SendOne(env, mode, p, it, s) == Fail(env, p1, it, Some(FirstMessage(e)), s.failLogFault);
      }
    }
  }

  /** What each recipient's result says. A first success is reported as
      such. Without an authorization error nobody else is asked anything:
      the store and the token stay as they were, and a failure carries the
      first error's message, or "send_failed". After a retry, a failure
      carries the retry's error message (possibly none) and a success the
      retry's message id. */
  lemma SendOneResults(env: Env, mode: Mode, p: Progress, it: Item, s: Script)
    requires mode.ViaStoredRefresh? ==> env.userId in p.store && p.store[env.userId].refreshToken == mode.rec.refreshToken
    ensures var st := SendOne(env, mode, p, it, s);
      && (FirstError(s).None? ==> st.result == Ok(SendResult(it.email, true, None, s.first.id)))
      && (FirstError(s).Some? && !IsUnauthorized(FirstError(s).value) ==>
            && st.progress.store == p.store && st.progress.token == p.token
            && (s.failLogFault.None? ==> st.result == Ok(SendResult(it.email, false, Some(FirstMessage(FirstError(s).value)), None)))
            && (s.failLogFault.Some? ==> st.result == Err(Thrown(s.failLogFault.value))))
  {
  }

  /** A failure reported after one send carries the first error's message;
      one reported after two sends carries the retry's; a success after two
      sends is the retry's. */
  lemma SendOneMessages(env: Env, mode: Mode, p: Progress, it: Item, s: Script)
    requires mode.ViaStoredRefresh? ==> env.userId in p.store && p.store[env.userId].refreshToken == mode.rec.refreshToken
    ensures var st := SendOne(env, mode, p, it, s);
      var n := |st.progress.calls| - |p.calls|;
      && (st.result.Ok? && !st.result.value.success && n == 1 ==>
            FirstError(s).Some? && st.result.value.error == Some(FirstMessage(FirstError(s).value)))
      && (st.result.Ok? && !st.result.value.success && n == 2 ==>
            RetryError(s).Some? && st.result.value.error == RetryError(s).value.message)
      && (st.result.Ok? && st.result.value.success && n == 2 ==>
            RetryError(s).None? && st.result.value.id == s.retry.id)
  {
    var a := Attempt(env, p, it, s.first, s.firstLogFault);
    if a.Caught? {
      var e := a.error;
      var p1 := a.progress;
      assert |p1.calls| == |p.calls| + 1;
      assert FirstError(s) == Some(e);
      if IsUnauthorized(e) {
        var got := FreshToken(env, mode, p1.store, s);
        if got.0.Ok? && Truthy(got.0.value) {
          var p2 := p1.(store := got.1, token := got.0.value);
          assert SendOne(env, mode, p, it, s) == Retry(env, p2, it, s);
        } else if got.0.Ok? {
          assert SendOne(env, mode, p, it, s) == Fail(env, p1.(store := got.1), it, Some(FirstMessage(e)), s.failLogFault);
        }
      } else {
        assert SendOne(env, mode, p, it, s) == Fail(env, p1, it, Some(FirstMessage(e)), s.failLogFault);
      }
    }
  }

  /** The result loop: `sendOne` for each item in order, from the k-th. */
  function Run(env: Env, mode: Mode, p: Progress, items: seq<Item>, scripts: nat -> Script, k: nat): (b: Batch)
    requires k <= |items|
    requires mode.ViaStoredRefresh? ==> env.userId in p.store && p.store[env.userId].refreshToken == mode.rec.refreshToken
    decreases |items| - k
    // the log only grows
    ensures |p.log| <= |b.progress.log| && b.progress.log[..|p.log|] == p.log
    ensures StoreKept(p.store, b.progress.store, env.userId)
  {
    if k == |items| then Batch(Ok([]), p)
    else
      var st := SendOne(env, mode, p, items[k], scripts(k));
      match st.result
      case Err(e) => Batch(Err(e), st.progress)
      case Ok(r) =>
        var rest := Run(env, mode, st.progress, items, scripts, k + 1);
        StoreKeptTrans(p.store, st.progress.store, rest.progress.store, env.userId);
        PrefixTrans(p.log, st.progress.log, rest.progress.log);
        match rest.results
        case Err(e) => Batch(Err(e), rest.progress)
        case Ok(rs) => Batch(Ok([r] + rs), rest.progress)
  }

  /** A batch that completes has one result per item, in order, each
      logged once with a matching entry. */
  lemma {:induction false} RunResults(env: Env, mode: Mode, p: Progress, items: seq<Item>, scripts: nat -> Script, k: nat)
    requires k <= |items|
    requires mode.ViaStoredRefresh? ==> env.userId in p.store && p.store[env.userId].refreshToken == mode.rec.refreshToken
    decreases |items| - k
    ensures var b := Run(env, mode, p, items, scripts, k);
      b.results.Ok? ==>
        && |b.results.value| == |items| - k
        && |b.progress.log| == |p.log| + (|items| - k)
        && (forall i :: 0 <= i < |items| - k ==> b.results.value[i].email == items[k..][i].email)
        && (forall i :: 0 <= i < |items| - k ==> EntryFor(b.progress.log[|p.log|..][i], env, items[k..][i], b.results.value[i]))
  {
    if k < |items| {
      var st := SendOne(env, mode, p, items[k], scripts(k));
      if st.result.Ok? {
        var r := st.result.value;
        var rest := Run(env, mode, st.progress, items, scripts, k + 1);
        RunResults(env, mode, st.progress, items, scripts, k + 1);
        if rest.results.Ok? {
          var rs := rest.results.value;
          assert Run(env, mode, p, items, scripts, k) == Batch(Ok([r] + rs), rest.progress);
          assert items[k..][1..] == items[k + 1..];
          RunStep(env, p.log, st.progress.log, rest.progress.log, items[k..], r, rs);
        }
      }
    }
  }

  /** Putting one recipient's result and entry in front of the rest's. */
  lemma RunStep(env: Env, log0: seq<LogEntry>, log1: seq<LogEntry>, log2: seq<LogEntry>,
                items: seq<Item>, r: SendResult, rs: seq<SendResult>)
    requires |items| >= 1 && |rs| == |items| - 1
    requires |log1| == |log0| + 1 && log1[..|log0|] == log0 && |log2| == |log1| + |rs| && log2[..|log1|] == log1
    requires r.email == items[0].email && EntryFor(log1[|log0|], env, items[0], r)
    requires forall i :: 0 <= i < |rs| ==> rs[i].email == items[1..][i].email
    requires forall i :: 0 <= i < |rs| ==> EntryFor(log2[|log1|..][i], env, items[1..][i], rs[i])
    ensures forall i :: 0 <= i < |items| ==> ([r] + rs)[i].email == items[i].email
    ensures forall i :: 0 <= i < |items| ==> EntryFor(log2[|log0|..][i], env, items[i], ([r] + rs)[i])
  {
    forall i | 0 <= i < |items|
      ensures ([r] + rs)[i].email == items[i].email
      ensures EntryFor(log2[|log0|..][i], env, items[i], ([r] + rs)[i])
    {
      if i == 0 {
        assert log2[|log0|..][0] == log2[..|log1|][|log0|];
      } else {
        assert ([r] + rs)[i] == rs[i - 1];
        assert items[i] == items[1..][i - 1];
        assert log2[|log0|..][i] == log2[|log1|..][i - 1];
      }
    }
  }

  /** Every item costs one or two requests, and an aborted batch made at
      least one request per item it reached. */
  lemma {:induction false} RunCalls(env: Env, mode: Mode, p: Progress, items: seq<Item>, scripts: nat -> Script, k: nat)
    requires k <= |items|
    requires mode.ViaStoredRefresh? ==> env.userId in p.store && p.store[env.userId].refreshToken == mode.rec.refreshToken
    decreases |items| - k
    ensures var b := Run(env, mode, p, items, scripts, k);
      && |p.calls| <= |b.progress.calls| <= |p.calls| + 2 * (|items| - k)
      && (b.results.Ok? ==> |p.calls| + (|items| - k) <= |b.progress.calls|)
  {
    if k < |items| {
      var st := SendOne(env, mode, p, items[k], scripts(k));
      SendOneCalls(env, mode, p, items[k], scripts(k));
      if st.result.Ok? {
        var rest := Run(env, mode, st.progress, items, scripts, k + 1);
        RunCalls(env, mode, st.progress, items, scripts, k + 1);
        assert Run(env, mode, p, items, scripts, k).progress == rest.progress;
      } else {
        assert Run(env, mode, p, items, scripts, k).progress == st.progress;
      }
    }
  }

  /** After an abort the log holds one entry for each item before the one
      that aborted, in order, and none for the rest. */
  lemma {:induction false} RunAbort(env: Env, mode: Mode, p: Progress, items: seq<Item>, scripts: nat -> Script, k: nat)
    requires k <= |items|
    requires mode.ViaStoredRefresh? ==> env.userId in p.store && p.store[env.userId].refreshToken == mode.rec.refreshToken
    decreases |items| - k
    ensures var b := Run(env, mode, p, items, scripts, k);
      b.results.Err? ==>
        && |b.progress.log| - |p.log| < |items| - k
        && forall i :: 0 <= i < |b.progress.log| - |p.log| ==> b.progress.log[|p.log|..][i].toEmail == items[k..][i].email
  {
    if k < |items| {
      var st := SendOne(env, mode, p, items[k], scripts(k));
      if st.result.Ok? {
        RunAbort(env, mode, st.progress, items, scripts, k + 1);
        var rest := Run(env, mode, st.progress, items, scripts, k + 1);
        if rest.results.Err? {
          assert items[k..][1..] == items[k + 1..];
          AbortStep(p.log, st.progress.log, rest.progress.log, items[k..]);
        }
      }
    }
  }

  /** Putting one recipient's entry in front of the entries the rest of an
      aborted batch wrote. */
  lemma AbortStep(log0: seq<LogEntry>, log1: seq<LogEntry>, log2: seq<LogEntry>, items: seq<Item>)
    requires |items| >= 1
    requires |log1| == |log0| + 1 && log1[..|log0|] == log0 && |log1| <= |log2| && log2[..|log1|] == log1
    requires log1[|log0|].toEmail == items[0].email
    requires |log2| - |log1| < |items| - 1
    requires forall i :: 0 <= i < |log2| - |log1| ==> log2[|log1|..][i].toEmail == items[1..][i].email
    ensures |log2| - |log0| < |items|
    ensures forall i :: 0 <= i < |log2| - |log0| ==> log2[|log0|..][i].toEmail == items[i].email
  {
    forall i | 0 <= i < |log2| - |log0|
      ensures log2[|log0|..][i].toEmail == items[i].email
    {
      if i == 0 {
        assert log2[|log0|..][0] == log2[..|log1|][|log0|];
      } else {
        assert items[i] == items[1..][i - 1];
        assert log2[|log0|..][i] == log2[|log1|..][i - 1];
      }
    }
  }

  /** The items `sendBulk` sends: every recipient with the same subject
      and body. */
  function SameMessage(recipients: seq<string>, subject: string, body: string): (items: seq<Item>)
    ensures |items| == |recipients|
    ensures forall i :: 0 <= i < |items| ==> items[i] == Item(recipients[i], subject, body)
  {
    seq(|recipients|, i requires 0 <= i < |recipients| => Item(recipients[i], subject, body))
  }

  /** `sendBulk(userId, fromEmail, recipients, subject, body)`: a token
      from the token service (its read failing with `readFault`, its
      refresh answered by `refresh`, its write failing with `writeFault`,
      the clock reading `now` before the refresh and `writeNow` at the
      write), then every recipient in turn. */
  function SendBulk(store: TokenStore, env: Env, recipients: seq<string>, subject: string, body: string,
                    now: int, writeNow: int, readFault: Option<string>, refresh: RefreshOutcome, writeFault: Option<string>,
                    scripts: nat -> Script): (b: Batch)
    ensures b.results.Ok? ==>
      && |b.results.value| == |recipients|
      && |b.progress.log| == |recipients|
      && (forall i :: 0 <= i < |recipients| ==> b.results.value[i].email == recipients[i])
      && (forall i :: 0 <= i < |recipients| ==>
            EntryFor(b.progress.log[i], env, Item(recipients[i], subject, body), b.results.value[i]))
    ensures |b.progress.calls| <= 2 * |recipients|
    // a failed read or a missing row throws before any request
    ensures readFault.Some? ==> b.results == Err(Thrown(readFault.value)) && b.progress == Progress([], store, None, [])
    ensures readFault.None? && env.userId !in store ==> b.results == Err(Thrown(NoRowMessage)) && b.progress.calls == []
    ensures StoreKept(store, b.progress.store, env.userId)
  {
    var f := GetValidAccessToken(store, env.userId, now, writeNow, readFault, refresh, writeFault);
    match f.token
    case Err(e) => Batch(Err(e), Progress([], f.store, None, []))
    case Ok(tok) =>
      var p := Progress([], f.store, tok, []);
      var items := SameMessage(recipients, subject, body);
      RunCalls(env, ViaTokenManager, p, items, scripts, 0);
      RunResults(env, ViaTokenManager, p, items, scripts, 0);
      Run(env, ViaTokenManager, p, items, scripts, 0)
  }

  /** `sendBulkPerRecipient(userId, fromEmail, items)`: the stored
      credential is read once (the read failing with `readFault`), then
      every item is sent with its own subject and body. */
  function SendBulkPerRecipient(store: TokenStore, env: Env, readFault: Option<string>, items: seq<Item>,
                                scripts: nat -> Script): (b: Batch)
    ensures b.results.Ok? ==>
      && |b.results.value| == |items|
      && |b.progress.log| == |items|
      && (forall i :: 0 <= i < |items| ==> b.results.value[i].email == items[i].email)
      && (forall i :: 0 <= i < |items| ==> EntryFor(b.progress.log[i], env, items[i], b.results.value[i]))
    ensures |b.progress.calls| <= 2 * |items|
    // a failed read or a missing row throws with nothing done
    ensures readFault.Some? ==> b == Batch(Err(Thrown(readFault.value)), Progress([], store, None, []))
    ensures readFault.None? && env.userId !in store ==> b == Batch(Err(Thrown(NoRowMessage)), Progress([], store, None, []))
    ensures StoreKept(store, b.progress.store, env.userId)
  {
    match Get(store, env.userId, readFault)
    case Err(e) => Batch(Err(e), Progress([], store, None, []))
    case Ok(rec) =>
      var p := Progress([], store, rec.accessToken, []);
      RunCalls(env, ViaStoredRefresh(rec), p, items, scripts, 0);
      RunResults(env, ViaStoredRefresh(rec), p, items, scripts, 0);
      Run(env, ViaStoredRefresh(rec), p, items, scripts, 0)
  }

  /** A message the provider accepted is reported as failed when its log
      write throws: the failure carries the log error's message, a failure
      entry is written, and the message is not sent again. */
  lemma DeliveredButLogFailed(env: Env, mode: Mode, p: Progress, it: Item, s: Script)
    requires mode.ViaStoredRefresh? ==> env.userId in p.store && p.store[env.userId].refreshToken == mode.rec.refreshToken
    requires s.first.Delivered? && s.firstLogFault.Some? && s.failLogFault.None?
    ensures var st := SendOne(env, mode, p, it, s);
      && st.result == Ok(SendResult(it.email, false, Some(s.firstLogFault.value), None))
      && st.progress.log == p.log + [LogEntry(env.userId, it.email, it.subject, it.body, None, false, Some(s.firstLogFault.value))]
      && |st.progress.calls| == |p.calls| + 1
  {
  }

  /** In `sendBulkPerRecipient`, an authorization error with a stored
      refresh token first writes the refreshed access token next to the
      unchanged refresh token; the retry then uses the new token. */
  lemma PerRecipientRefreshPersists(env: Env, rec: Credential, p: Progress, it: Item, s: Script)
    requires env.userId in p.store && p.store[env.userId].refreshToken == rec.refreshToken
    requires s.first.Rejected? && IsUnauthorized(s.first.error) && Truthy(rec.refreshToken)
    requires s.refresh.Refreshed? && s.tokenWriteFault.None?
    ensures var st := SendOne(env, ViaStoredRefresh(rec), p, it, s);
      && Stored(st.progress.store, env.userId) == Ok(Credential(s.refresh.accessToken, rec.refreshToken, StoredExpiry(s.refresh.expiryDate)))
      && (Truthy(s.refresh.accessToken) <==> |st.progress.calls| == |p.calls| + 2)
      && (Truthy(s.refresh.accessToken) ==> st.progress.calls[|p.calls| + 1].accessToken == s.refresh.accessToken)
  {
    SendOneCalls(env, ViaStoredRefresh(rec), p, it, s);
    SendOneRetryCall(env, ViaStoredRefresh(rec), p, it, s);
  }

  /** In `sendBulkPerRecipient`, a failed refresh is not caught: the whole
      batch fails with the refresh error and returns no results. */
  lemma PerRecipientRefreshFailureAborts(store: TokenStore, env: Env, items: seq<Item>, scripts: nat -> Script)
    requires env.userId in store && Truthy(store[env.userId].refreshToken) && |items| >= 1
    requires scripts(0).first.Rejected? && IsUnauthorized(scripts(0).first.error)
    requires scripts(0).refresh.RefreshFailed?
    ensures SendBulkPerRecipient(store, env, None, items, scripts).results == Err(scripts(0).refresh.error)
    ensures SendBulkPerRecipient(store, env, None, items, scripts).progress.log == []
  {
  }

  /** In `sendBulkPerRecipient`, a failed refresh after an authorization
      error is not caught, for whichever recipient it happens: the step
      throws the refresh error, logs nothing and writes nothing. */
  lemma RefreshFailureAbortsStep(env: Env, rec: Credential, p: Progress, it: Item, s: Script)
    requires env.userId in p.store && p.store[env.userId].refreshToken == rec.refreshToken
    requires s.first.Rejected? && IsUnauthorized(s.first.error) && Truthy(rec.refreshToken)
    requires s.refresh.RefreshFailed?
    ensures var st := SendOne(env, ViaStoredRefresh(rec), p, it, s);
      && st.result == Err(s.refresh.error)
      && st.progress.log == p.log && st.progress.store == p.store
  {
  }

  /** A step that throws ends the loop with its error; no later item is
      sent. */
  lemma RunStopsAt(env: Env, mode: Mode, p: Progress, items: seq<Item>, scripts: nat -> Script, k: nat)
    requires k < |items|
    requires mode.ViaStoredRefresh? ==> env.userId in p.store && p.store[env.userId].refreshToken == mode.rec.refreshToken
    requires SendOne(env, mode, p, items[k], scripts(k)).result.Err?
    ensures var st := SendOne(env, mode, p, items[k], scripts(k));
      Run(env, mode, p, items, scripts, k) == Batch(Err(st.result.error), st.progress)
  {
  }

  /** An error thrown later in the loop is the error of the whole loop:
      with `RunStopsAt`, a batch aborts at whichever item throws. */
  lemma RunErrorPropagates(env: Env, mode: Mode, p: Progress, items: seq<Item>, scripts: nat -> Script, k: nat)
    requires k < |items|
    requires mode.ViaStoredRefresh? ==> env.userId in p.store && p.store[env.userId].refreshToken == mode.rec.refreshToken
    requires SendOne(env, mode, p, items[k], scripts(k)).result.Ok?
    ensures var st := SendOne(env, mode, p, items[k], scripts(k));
      var rest := Run(env, mode, st.progress, items, scripts, k + 1);
      rest.results.Err? ==> Run(env, mode, p, items, scripts, k) == rest
  {
  }

  /** `sendBulk` asks the token service for a token before looking at the
      recipients, so even with no recipient a stale token is refreshed and
      written back. */
  lemma EmptySendBulkStillRefreshes(store: TokenStore, env: Env, subject: string, body: string, now: int, writeNow: int,
                                    newAccess: Option<string>, expiryDate: Option<int>, scripts: nat -> Script)
    requires env.userId in store && !IsFresh(Stored(store, env.userId).value, now) && Truthy(store[env.userId].refreshToken)
    ensures var b := SendBulk(store, env, [], subject, body, now, writeNow, None, Refreshed(newAccess, expiryDate), None, scripts);
      && b.results == Ok([]) && b.progress.calls == []
      && Stored(b.progress.store, env.userId).value.accessToken == newAccess
  {
  }
}
