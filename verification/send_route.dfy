/** `POST /api/emails/send` (app/api/emails/send/route.ts): a body with an
    `items` array is sent item by item; any other body must match the send
    schema and is sent as one message to every recipient. The response
    sums up the results. Signing in, the JSON parser and the e-mail
    address check are given as values. */
module SendRoute {
  import opened Common
  import opened Types
  import opened AuthTokens
  import opened Gmail

  /** `{email, name?}` of the send schema. */
  datatype Recipient = Recipient(email: string, name: Option<string>)

  /** The parsed JSON body. `items` is present exactly when the body's
      `items` is an array; each other field is `None` when it is missing
      or not of the schema's type. */
  datatype Body = Body(items: Option<seq<Item>>, recipients: Option<seq<Recipient>>, subject: Option<string>, body: Option<string>)

  /** What `request.json()` gives. */
  datatype Request = Unparsable(message: string) | Json(body: Body)

  /** What `supabase.auth.getUser()` gives. */
  datatype UserLookup = UserFailed(error: Fault) | NoUser | SignedIn(id: string, email: Option<string>)

  /** The answers of every service the sends depend on: the clock, the
      failure of the first read of the stored credential, the token
      refresh and its write, with the clock reading the write takes, for
      `sendBulk`'s first token, and one script per recipient. */
  datatype Oracle = Oracle(now: int, writeNow: int, readFault: Option<string>, refresh: RefreshOutcome, writeFault: Option<string>,
                           scripts: nat -> Script)

  /** `{email, error}` of the response's `failure` list. */
  datatype Failure = Failure(email: string, error: Option<string>)

  datatype Payload =
    | InvalidBody
    | Unauthorized
    | ServerError(message: Option<string>)
    | Summary(sent: nat, total: nat, results: seq<SendResult>, failure: seq<Failure>)

  datatype Response = Response(status: int, payload: Payload)

  /** The response, and the batch that ran, if one did. */
  datatype Handled = Handled(response: Response, batch: Option<Batch>)

  /** `sendEmailSchema`: at least one recipient, each with a valid
      address, and a non-empty subject and body. */
  predicate ValidSendBody(b: Body, isEmail: string -> bool) {
    && b.recipients.Some? && |b.recipients.value| >= 1
    && (forall i :: 0 <= i < |b.recipients.value| ==> isEmail(b.recipients.value[i].email))
    && b.subject.Some? && |b.subject.value| >= 1
    && b.body.Some? && |b.body.value| >= 1
  }

  /** `recipients.map(r => r.email)` */
  function Emails(rs: seq<Recipient>): (es: seq<string>)
    ensures |es| == |rs| && forall i :: 0 <= i < |rs| ==> es[i] == rs[i].email
  {
    seq(|rs|, i requires 0 <= i < |rs| => rs[i].email)
  }

  /** `results.filter(r => r.success).length` */
  function CountSent(rs: seq<SendResult>): (n: nat)
    ensures n <= |rs|
    ensures n == |rs| <==> forall i :: 0 <= i < |rs| ==> rs[i].success
  {
    if |rs| == 0 then 0
    else (if rs[0].success then 1 else 0) + CountSent(rs[1..])
  }

  /** A single result counts once exactly when it succeeded. */
  lemma CountSentOne(r: SendResult)
    ensures CountSent([r]) == if r.success then 1 else 0
  {
    assert [r][1..] == [];
  }

  /** The count adds up over the parts of the results, so it is the
      number of successful results. */
  lemma {:induction false} CountSentAppend(a: seq<SendResult>, b: seq<SendResult>)
    ensures CountSent(a + b) == CountSent(a) + CountSent(b)
  {
    if |a| == 0 {
      assert a + b == b;
    } else {
      assert (a + b)[0] == a[0];
      assert (a + b)[1..] == a[1..] + b;
      CountSentAppend(a[1..], b);
    }
  }

  /** `results.filter(r => !r.success).map(r => ({email, error}))` */
  function Failures(rs: seq<SendResult>): (fs: seq<Failure>)
    ensures |fs| <= |rs|
    ensures forall f :: f in fs ==> exists i :: 0 <= i < |rs| && !rs[i].success && f == Failure(rs[i].email, rs[i].error)
  {
    if |rs| == 0 then []
    else (if rs[0].success then [] else [Failure(rs[0].email, rs[0].error)]) + Failures(rs[1..])
  }

  /** Every result is counted as sent or listed as a failure. */
  lemma {:induction false} SentPlusFailures(rs: seq<SendResult>)
    ensures CountSent(rs) + |Failures(rs)| == |rs|
  {
    if |rs| > 0 {
      SentPlusFailures(rs[1..]);
    }
  }

  /** Every failed result is listed. */
  lemma {:induction false} FailuresComplete(rs: seq<SendResult>, i: nat)
    requires i < |rs| && !rs[i].success
    ensures Failure(rs[i].email, rs[i].error) in Failures(rs)
  {
    if i > 0 {
      FailuresComplete(rs[1..], i - 1);
      assert rs[1..][i - 1] == rs[i];
    }
  }

  /** The failure list keeps the order of the results. */
  lemma {:induction false} FailuresAppend(a: seq<SendResult>, b: seq<SendResult>)
    ensures Failures(a + b) == Failures(a) + Failures(b)
  {
    if |a| == 0 {
      assert a + b == b;
    } else {
      assert (a + b)[0] == a[0];
      assert (a + b)[1..] == a[1..] + b;
      FailuresAppend(a[1..], b);
    }
  }

  /** The 200 response for a result array. */
  function Summarize(rs: seq<SendResult>): (r: Response)
    ensures r.status == 200 && r.payload.Summary?
    ensures r.payload.results == rs && r.payload.total == |rs|
    ensures r.payload.sent == CountSent(rs) && r.payload.failure == Failures(rs)
    ensures r.payload.sent + |r.payload.failure| == |rs|
  {
    SentPlusFailures(rs);
    Response(200, Summary(CountSent(rs), |rs|, rs, Failures(rs)))
  }

  /** The `catch`: a 500 carrying the thrown error's message. */
  function ServerFault(e: Fault): Response {
    Response(500, ServerError(e.message))
  }

  /** `POST(request)` */
  function Post(request: Request, isEmail: string -> bool, user: UserLookup, store: TokenStore, oracle: Oracle): (h: Handled)
    // an unreadable body is a 500 and nothing is sent
    ensures request.Unparsable? ==> h == Handled(Response(500, ServerError(Some(request.message))), None)
    // a body without items that fails the schema is a 400, before sign-in
    ensures request.Json? && request.body.items.None? && !ValidSendBody(request.body, isEmail) ==>
      h == Handled(Response(400, InvalidBody), None)
    // sign-in problems stop everything else
    ensures request.Json? && (request.body.items.Some? || ValidSendBody(request.body, isEmail)) ==>
      && (user.UserFailed? ==> h == Handled(ServerFault(user.error), None))
      && (user.NoUser? ==> h == Handled(Response(401, Unauthorized), None))
    // a body with items is sent item by item, from the user's address or "me"
    ensures request.Json? && request.body.items.Some? && user.SignedIn? ==>
      h.batch == Some(SendBulkPerRecipient(store, Env(user.id, user.email.GetOr("me")), oracle.readFault, request.body.items.value, oracle.scripts))
    // a valid body without items goes to every recipient in order
    ensures request.Json? && request.body.items.None? && ValidSendBody(request.body, isEmail) && user.SignedIn? ==>
      h.batch == Some(SendBulk(store, Env(user.id, user.email.GetOr("me")), Emails(request.body.recipients.value),
                               request.body.subject.value, request.body.body.value,
                               oracle.now, oracle.writeNow, oracle.readFault, oracle.refresh, oracle.writeFault, oracle.scripts))
    // a batch that completes is summed up; one that aborts is a 500
    ensures h.batch.Some? && h.batch.value.results.Ok? ==> h.response == Summarize(h.batch.value.results.value)
    ensures h.batch.Some? && h.batch.value.results.Err? ==> h.response == ServerFault(h.batch.value.results.error)
  {
    match request
    case Unparsable(message) => Handled(Response(500, ServerError(Some(message))), None)
    case Json(body) =>
      if body.items.None? && !ValidSendBody(body, isEmail) then Handled(Response(400, InvalidBody), None)
      else
        match user
        case UserFailed(e) => Handled(ServerFault(e), None)
        case NoUser => Handled(Response(401, Unauthorized), None)
        case SignedIn(id, email) =>
          var env := Env(id, email.GetOr("me"));
          var batch :=
            if body.items.Some? then SendBulkPerRecipient(store, env, oracle.readFault, body.items.value, oracle.scripts)
            else SendBulk(store, env, Emails(body.recipients.value), body.subject.value, body.body.value,
                          oracle.now, oracle.writeNow, oracle.readFault, oracle.refresh, oracle.writeFault, oracle.scripts);
          match batch.results
          case Ok(rs) => Handled(Summarize(rs), Some(batch))
          case Err(e) => Handled(ServerFault(e), Some(batch))
  }

  /** A successful request answers with one result per item, in order. */
  lemma ItemsAnswered(items: seq<Item>, isEmail: string -> bool, id: string, email: Option<string>, store: TokenStore, oracle: Oracle)
    ensures var h := Post(Json(Body(Some(items), None, None, None)), isEmail, SignedIn(id, email), store, oracle);
      h.response.status == 200 ==>
        && h.response.payload.total == |items|
        && forall i :: 0 <= i < |items| ==> h.response.payload.results[i].email == items[i].email
  {
  }
}
