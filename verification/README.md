# A Dafny model of the CRM's token service, bulk mail and client pages

This project models the parts of the CRM that hold real logic. Each part
is a Dafny module that follows one source file:

- **`AuthTokens`** models the stored Google credential of each user.
  - `upsert` and `get` read and write the `user_tokens` table.
  - `getValidAccessToken` returns the stored access token while it has more than a minute to run.
  - Otherwise it refreshes with the stored refresh token and writes the new token back.
- **`Gmail`** models the mail service.
  - `sendBulk` sends the same message to every recipient.
  - `sendBulkPerRecipient` sends each item its own subject and body.
  - Each send is logged once in the delivery log.
  - It is retried once with a fresh token after an authorization error.
  - It goes out as an Internet Message Format text (`Mime`), encoded as unpadded base64url (`Base64Url`, `Utf8`).
- **`Calendar`** models `getEvents`. It has the same one-time refresh and retry.
- **`Placeholders`** models `applyPlaceholders`, with the `Text` module's `replaceAll`.
- **`SendRoute`** models the `POST /api/emails/send` route.
- **`AuthCallback`** models the OAuth callback, which stores the provider's tokens.
- **`EmailsPage`** and **`ClientsPage`** model the logic of the two dashboard pages.
  - The emails page: selection, the send check, the items it posts, the preview and the failure list.
  - The clients page: the optimistic cache edits, rollback on error, and the form checks.

Everything the code awaits is given to the model as a value. That covers:

- the database's answers, and the errors of its reads and writes;
- the mail provider's answers;
- the token endpoint's answers;
- the clock.

For the mail service, each recipient's answers are a `Script` value, and `scripts(k)` is the one for the k-th recipient. A thrown error is the `Err` arm of a `Result`. JavaScript truthiness is written out: `Truthy`, `TruthyNumber`, `OrElse`.

What the proofs establish:

- Every batch that completes returns one result per item, in order.
- Each result was logged exactly once, with an entry that agrees with it.
- An aborted batch logged exactly the items before the one that aborted.
- A user's refresh token is never changed, and no other user's row is touched.
- The provider is asked once or twice per recipient, never more.
- A second request only follows an authorization error and a non-empty fresh token.
- The base64url encoding, done as the code does it (padded base64, swap `+` and `/`, strip `=`), is the unpadded URL-safe alphabet of section 5 of RFC 4648, and a decoder inverts it.
- A reader that splits the message at its first empty line gets back the five header lines and the body, as long as no header value holds a carriage return.
- A subject with an empty line in it ends the header early.
- The page logic keeps the selection and cache invariants shown in the table below.

## Behaviour of the code worth knowing

These are cases where the code does something a reader of the design would not expect. The model follows the code in each case.

- `sendBulk` calls `getValidAccessToken` before it looks at the recipients. So an empty recipient list can still trigger a refresh and a token write (`Gmail.EmptySendBulkStillRefreshes`).
  - `sendBulkPerRecipient` with no items only reads the stored row.
- A batch can abort in the middle. In `sendBulkPerRecipient`, a failed refresh after an authorization error is not caught, and neither is a failed write of a failure entry. The whole request then fails with a 500 (`Gmail.PerRecipientRefreshFailureAborts`, `Gmail.RunAbort`).
  - The results of the recipients before it are lost.
  - Their log entries stay.
- A message the provider accepted is reported as failed when writing its success entry throws. The result carries the log error's message, and a failure entry is written (`Gmail.DeliveredButLogFailed`).
- The retry after an authorization error writes one entry only. A failed retry reports the retry's error message, which may be missing. A failure without a retry reports the first error's message, or `send_failed` (`Gmail.SendOneMessages`).

## Model

| member | source | states |
|---|---|---|
| AuthTokens.Upsert | sercices/auth-service.ts:14-26 | A database error is thrown and nothing is written. Otherwise exactly this user's row is written, with provider `google`, the given tokens and the clock as update time. Reading it back gives the tokens, and no other row changes. |
| AuthTokens.Get | sercices/auth-service.ts:28-36 | A database error on the read is thrown as it is. Otherwise the read succeeds exactly when the user has a row, and returns that row's three columns. With no row it throws the `.single()` error. |
| AuthTokens.GetValidAccessToken | sercices/auth-service.ts:38-70 | A failed read or a missing row throws before any refresh. The token endpoint is called exactly when the read succeeds, the stored token is not fresh (truthy and expiring more than 60 s after now) and a refresh token exists. Without a refresh, the stored token, possibly null, is returned and nothing is written. A failed refresh or write is thrown. A refresh stores the new access token, the unchanged refresh token and the provider's expiry, with the update time from the write's own clock reading, taken after the refresh and separate from the one used for the freshness test. No other row changes. |
| AuthTokens.ExpiryLadderMiddleUnreachable | sercices/auth-service.ts:55-61 | The `expiresInSec` branch of the expiry ladder never applies. The stored expiry is `expiry_date` when truthy, else null. |
| AuthTokens.RefreshedTokenIsFresh | sercices/auth-service.ts:43-69 | After a refresh that yields a token valid beyond the margin, a second call at the same time returns it without calling the token endpoint. |
| AuthTokens.RefreshTokenPreserved | sercices/auth-service.ts:63-67 | `getValidAccessToken` never changes the stored refresh token. |
| AuthTokens.RefreshAndPersist | services/gmail.ts:157-167 | The manual refresh of the mail and calendar services. A failed refresh or write is thrown with the store unchanged. Otherwise the new access token is written next to the same refresh token with the provider's expiry and the write's clock reading as update time, and is returned. Other rows are untouched. |
| Base64Url.Unpadded | services/gmail.ts:10-16 | The direct unpadded base64url encoding uses only `A-Z a-z 0-9 - _`. Its length is 4 per 3 bytes, plus 2 or 3 for a final group of 1 or 2 bytes. |
| Base64Url.EncodeIsUnpadded | services/gmail.ts:10-16 | Padded base64, then swapping `+` and `/` for `-` and `_`, then stripping the trailing `=`, gives exactly the unpadded URL-safe encoding. |
| Base64Url.EncodeShape | services/gmail.ts:10-16 | `toBase64Url` emits no `+`, `/` or `=`. Its output has the length of padded base64 less the padding. |
| Base64Url.UnpaddedRoundTrip | services/gmail.ts:10-16 | Decoding inverts the direct unpadded encoding. |
| Base64Url.RoundTrip | services/gmail.ts:10-16 | Decoding inverts `toBase64Url` on every byte sequence. |
| Mime.MessageLayout | services/gmail.ts:18-29 | The message is the five header lines joined by CRLF, then CRLF CRLF, then the body verbatim. |
| Mime.HeaderLinesClean | services/gmail.ts:19-24 | Every header line is non-empty, and holds no carriage return when the inserted values hold none. |
| Mime.SplitJoinLines | services/gmail.ts:19-28 | Splitting CR-free lines joined by CRLF gives the lines back. |
| Mime.ParseBuild | services/gmail.ts:18-29 | When the sender, recipient and subject hold no carriage return, a reader that splits at the first empty line recovers exactly the five header lines and the body. |
| Mime.HeaderInjection | services/gmail.ts:20-22 | Header values are not escaped. A subject that holds CRLF CRLF makes a reader see a body longer than the real one. |
| Placeholders.ApplyIsThreeSplits | lib/email/placeholders.ts:3-8 | The corrected `applyPlaceholders` runs three passes in order, `{{client_name}}` then `{{email}}` then `{{date}}`. Each pass splits the text left by the passes before it at every occurrence of its token, and joins the pieces with the value. |
| Placeholders.NoTokensUnchanged | lib/email/placeholders.ts:3-8 | A text holding none of the three tokens comes back unchanged, both as written and as corrected. |
| Placeholders.LaterPassExpandsEarlierValue | lib/email/placeholders.ts:5-6 | For any values, a template that is just `{{client_name}}` yields the client name with the email and date passes applied to it, so any `{{email}}` or `{{date}}` inside a name is expanded. |
| Placeholders.EarlierPassIgnoresLaterValue | lib/email/placeholders.ts:5-6 | For any values, a template that is just `{{email}}` yields the email with only the date pass applied to it. An email without `{{date}}` is inserted whole, any `{{client_name}}` in it included. |
| Placeholders.EmptyValueReassemblesToken | lib/email/placeholders.ts:5 | Removing a token with an empty value can join the text around it into a new token, which the result then still holds. |
| Placeholders.AsWrittenAgrees | lib/email/placeholders.ts:5-7 | When no value holds a `$`, the code as written inserts the values verbatim. |
| Placeholders.DateOnlyInLastPass | lib/email/placeholders.ts:5-7 | A fill-in is the text after the name and email passes with the date put in. When no `{{date}}` is left at that point, every date gives the same result. |
| Placeholders.DollarNameCounterexample | lib/email/placeholders.ts:5 | With the client name `$&`, the code as written puts `{{client_name}}` back instead of the name. |
| Text.ReplaceAllIsSplitJoin | lib/email/placeholders.ts:5-7 | Verbatim `replaceAll` replaces every non-overlapping occurrence, found left to right, and changes nothing else. |
| Text.ReplaceAllJsVerbatim | lib/email/placeholders.ts:5-7 | ECMAScript's `replaceAll` with a string replacement that holds no `$` is the verbatim replacement. |
| Gmail.RequestReadsBack | services/gmail.ts:49-50 | The `raw` field of each request decodes to the UTF-8 bytes of the message. A reader recovers its header lines and body when the sender, recipient and subject hold no carriage return. |
| Gmail.Attempt | services/gmail.ts:48-62 | The try block makes one request with the token held. It completes exactly when the provider accepts and the success entry is written. Then it returns a success with the message id and appends one success entry. Otherwise the caught error is the provider's, or the log write's. |
| Gmail.Fail | services/gmail.ts:102-111 | A failure entry is written and a failure with that message is returned. A log write that throws aborts with its error, and nothing is appended. |
| Gmail.Retry | services/gmail.ts:72-98 | The retry makes one more request with the fresh token. A success carries the retry's message id. A failure carries the retry's error message, possibly none. Either way it is logged once. |
| Gmail.FreshToken | services/gmail.ts:156-167 | The refresh after an authorization error keeps every other user's row and every refresh token. In `sendBulkPerRecipient` without a refresh token it gives no token and writes nothing, and the user's row stays. |
| Gmail.Recover | services/gmail.ts:63-112 | Whatever the catch block returns was logged exactly once, with an entry that agrees with it, and an abort logs nothing. Refresh tokens and other users' rows are kept. |
| Gmail.SendOne | services/gmail.ts:47-113 | A returned result is for this recipient and was logged exactly once, with an entry that agrees with it. An abort logs nothing. Refresh tokens and other users' rows are kept. |
| Gmail.SendOneCalls | services/gmail.ts:47-113 | Each recipient costs one or two requests, all for this sender and item. The first uses the token held before. |
| Gmail.SendOneRetryCall | services/gmail.ts:68-74 | A second request happens only after an authorization error, with a truthy fresh token, which the client then keeps. |
| Gmail.SendOneResults | services/gmail.ts:48-111 | A first success is reported as such. A non-401 error asks nobody else and keeps store and token. It is reported with its message or `send_failed`, or aborts when its log write fails. |
| Gmail.SendOneMessages | services/gmail.ts:63-111 | A failure after one request carries the first error's message. One after two requests carries the retry's. A success after two carries the retry's id. |
| Gmail.Run | services/gmail.ts:115-122 | The sequential loop only appends to the log and keeps every refresh token and every other user's row. |
| Gmail.RunResults | services/gmail.ts:115-122 | A completed loop returns one result per item, in order, and logs one matching entry per item, in the same order. |
| Gmail.RunCalls | services/gmail.ts:115-122 | The loop makes at most two requests per item, and at least one per item when it completes. |
| Gmail.RunAbort | services/gmail.ts:115-122 | After an abort, the log holds one entry per item before the aborting one, in order, and no others. |
| Gmail.RunStopsAt | services/gmail.ts:214-220 | A step that throws ends the loop with its error and its progress. No later item is sent. |
| Gmail.RunErrorPropagates | services/gmail.ts:214-220 | An error thrown later in the loop is the result of the whole loop. So a batch aborts at whichever item throws. |
| Gmail.SendBulk | services/gmail.ts:40-123 | A completed batch has one result and one log entry per recipient, in order and agreeing. It makes at most two requests per recipient. A failed read of the credential, or a missing row, throws before any request. |
| Gmail.SendBulkPerRecipient | services/gmail.ts:125-221 | The same, for per-recipient items. A failed read of the stored credential, or a missing row, throws with nothing changed. |
| Gmail.DeliveredButLogFailed | services/gmail.ts:48-111 | A delivered message whose success entry fails to write is reported as failed, with the log error's message. A failure entry is written, and the message is not sent again. |
| Gmail.PerRecipientRefreshPersists | services/gmail.ts:156-172 | After a 401, the refreshed access token is stored next to the unchanged refresh token. A retry happens exactly when that token is truthy, and uses it. |
| Gmail.PerRecipientRefreshFailureAborts | services/gmail.ts:156-160 | When the first item meets a 401 and a failed refresh, the whole batch fails with the refresh error and no entry is logged. |
| Gmail.RefreshFailureAbortsStep | services/gmail.ts:156-160 | For any recipient, a 401 followed by a failed refresh makes the step throw the refresh error. It logs nothing and writes nothing. |
| Gmail.EmptySendBulkStillRefreshes | services/gmail.ts:40-41 | With no recipients and a stale token, `sendBulk` still refreshes and writes the new token. |
| Calendar.When | services/calendar.ts:48-49 | The event time is `dateTime`, else `date`, else null. |
| Calendar.MapEvents | services/calendar.ts:44-50 | There is one event per provider item, in order, with id, summary and description copied and times mapped. |
| Calendar.MapEventsAppend | services/calendar.ts:44-50 | Mapping works item by item, so it commutes with concatenation. |
| Calendar.GetEvents | services/calendar.ts:15-81 | A failed read of the stored credential (either of the two reads), or a missing row, throws with no request. There are at most two list requests, each with the fixed query (`primary`, single events, by start time, 50 results). A first answer is mapped. A second request only follows a 401 with a stored refresh token and a truthy refreshed token, which was written back. A non-401 error is thrown as is. Refresh tokens are kept. |
| Calendar.RefreshAndRetry | services/calendar.ts:53-79 | After a 401 with a refresh token, the refreshed token is written back. The list is asked again when that token is truthy. Otherwise the first error, the refresh error or the write error is thrown. |
| Calendar.NothingToListWith | services/calendar.ts:16-18 | With no usable access token and no refresh token, the result is an empty list, with no request and no error. |
| Calendar.FreshTokenListsOnce | services/calendar.ts:16-50 | With a fresh stored token, the provider is asked once with it, and nothing is refreshed. |
| SendRoute.Emails | app/api/emails/send/route.ts:32 | Gives the recipients' addresses, in order. |
| SendRoute.CountSent | app/api/emails/send/route.ts:38 | The sent count is at most the number of results, and equals it exactly when every result succeeded. |
| SendRoute.CountSentOne | app/api/emails/send/route.ts:38 | One result counts once exactly when it succeeded. |
| SendRoute.CountSentAppend | app/api/emails/send/route.ts:38 | The count adds up over the parts of the results. With `CountSentOne`, it is the number of successful results. |
| SendRoute.Failures | app/api/emails/send/route.ts:39 | Every listed failure is the email and error of a failed result. |
| SendRoute.SentPlusFailures | app/api/emails/send/route.ts:38-39 | The sent count plus the number of listed failures is the number of results. |
| SendRoute.FailuresComplete | app/api/emails/send/route.ts:39 | Every failed result is listed. |
| SendRoute.FailuresAppend | app/api/emails/send/route.ts:39 | The failure list keeps the order of the results. |
| SendRoute.Summarize | app/api/emails/send/route.ts:38-41 | The 200 response carries the results and the total. Its sent count is the number of successful results, and its failure list is the ordered list of failed results. The two add up to the total. |
| SendRoute.Post | app/api/emails/send/route.ts:6-45 | An unparsable body gives a 500. A body without an `items` array that fails the schema gives a 400 before sign-in. A sign-in error gives a 500, and no user gives a 401. Items go to `sendBulkPerRecipient` and a valid schema body to `sendBulk`, from the user's address or `me`. A completed batch is summed up, and an abort gives a 500. |
| SendRoute.ItemsAnswered | app/api/emails/send/route.ts:28-41 | A 200 answer to an items request has one result per item, addressed in item order. |
| AuthCallback.ExpiresAtMs | app/auth/callback/route.ts:45-49 | The stored expiry is `expires_at` seconds as milliseconds when truthy, else `expires_in` seconds from now when truthy, else none. |
| AuthCallback.AuthErrorMessage | app/auth/callback/route.ts:31 | The user error's message when truthy, else the session error's, else `auth_error`. |
| AuthCallback.Callback | app/auth/callback/route.ts:5-67 | The code is exchanged exactly when no provider error came back and a code did. The priority is: a provider error, then an exchange error, then a user or session error, then a missing user or session. The store is written only when all checks pass. With a write error the dashboard shows it. Otherwise this user's row holds the session's tokens and expiry, and other rows are kept. The expiry uses the route's clock reading, and the update time uses the write's own later reading. |
| AuthCallback.SignedInTokenIsFresh | app/auth/callback/route.ts:41-57 | After a complete sign-in with a truthy provider token whose session expires more than a minute from now, the stored token is used without refresh. |
| EmailsPage.Every | app/dashboard/emails/page.tsx:49 | Holds exactly when every listed client is selected. |
| EmailsPage.AllSelected | app/dashboard/emails/page.tsx:49 | Holds exactly when the list is non-empty and every client is selected. |
| EmailsPage.SelectedEmails | app/dashboard/emails/page.tsx:50 | A client is a recipient exactly when it is selected, and there are no more recipients than clients. |
| EmailsPage.SelectedAppend | app/dashboard/emails/page.tsx:50 | Selection works part by part, so recipients keep the order of the client list. |
| EmailsPage.SelectedWhenEvery | app/dashboard/emails/page.tsx:50 | With every client selected, the recipients are all clients, in order. |
| EmailsPage.SelectedWhenNone | app/dashboard/emails/page.tsx:50 | With no client selected, there is no recipient. |
| EmailsPage.ToggleAll | app/dashboard/emails/page.tsx:89-97 | Clears the selection when all are selected. Otherwise it selects exactly the listed clients. |
| EmailsPage.ToggleAllEffect | app/dashboard/emails/page.tsx:89-97 | "Unselect all" leaves no recipient. "Select all" makes every client a recipient, in order, and a non-empty list is then all selected. |
| EmailsPage.ToggleAllTwice | __tests__/emails.test.tsx:164-179 | On a non-empty list, "Select all" then "Unselect all" clears the selection, whatever it was. |
| EmailsPage.Check | app/dashboard/emails/page.tsx:148 | A checkbox sets only its own client's flag. |
| EmailsPage.CheckElsewhere | app/dashboard/emails/page.tsx:148 | A flag for an id no listed client has does not change the recipients. |
| EmailsPage.CheckAddsOne | app/dashboard/emails/page.tsx:148 | With distinct ids, ticking an unselected client adds exactly one recipient. |
| EmailsPage.TrimStart | app/dashboard/emails/page.tsx:99 | Removes exactly the leading ECMAScript white space and leaves a suffix of the text. |
| EmailsPage.TrimEnd | app/dashboard/emails/page.tsx:99 | Removes exactly the trailing white space and leaves a prefix of the text. |
| EmailsPage.Trim | app/dashboard/emails/page.tsx:99 | `trim()` is empty exactly when the text is all white space. Otherwise it starts and ends with other characters. |
| EmailsPage.CanSend | app/dashboard/emails/page.tsx:99 | Sending is allowed exactly when there is a recipient and both subject and body hold a character that is not white space. |
| EmailsPage.CanSendScenario | __tests__/emails.test.tsx:329-355 | With a recipient, "Test Subject" with an empty body cannot be sent, but with "Test body" it can. Without a recipient it cannot. |
| EmailsPage.FindTemplate | app/dashboard/emails/page.tsx:61-64 | Finds the first template with that id, and none exactly when no template has it. |
| EmailsPage.ChooseTemplate | app/dashboard/emails/page.tsx:168-176 | Remembers the chosen id. When it names a template, that template's subject and body replace the form's. Otherwise the form is kept. |
| EmailsPage.BuildItems | app/dashboard/emails/page.tsx:69-75 | There is one item per recipient, in order, addressed to that recipient. The subject and body come from the selected template, else from the form. That recipient's name, email and date are filled in by `applyPlaceholders` as the page calls it, so `$` patterns in a value are expanded. |
| EmailsPage.BuildItemsVerbatim | app/dashboard/emails/page.tsx:69-75 | When no recipient's name or address and no date holds a `$`, each item carries the values inserted as they are. |
| EmailsPage.PlainTemplateSentVerbatim | app/dashboard/emails/page.tsx:72-73 | A template without tokens reaches every recipient as written, whatever the form holds. |
| EmailsPage.SendReportsSelected | app/dashboard/emails/page.tsx:66-83 | When the route answers 200, it reports one result per selected client, in list order. |
| EmailsPage.PreviewCards | app/dashboard/emails/page.tsx:205-213 | The preview shows the first three recipients at most, in order. Each card is filled in by `applyPlaceholders` as the page calls it. |
| EmailsPage.PreviewMatchesItems | app/dashboard/emails/page.tsx:205-213 | Without a template, each preview card is for the recipient at that position of the send request. Card and item share the text before the date pass, and each fills in its own clock reading: the preview's when it is drawn, the send's when it is issued. They show the same text, with the page's fallbacks for empty texts, whenever no `{{date}}` is left for the date pass or the two readings agree. |
| EmailsPage.ToLine | app/dashboard/emails/page.tsx:204 | The "To:" line is `(none)` exactly when the joined addresses are empty: no recipient, or one with an empty address. Otherwise it is the addresses joined by `, `. |
| EmailsPage.FailureList | app/dashboard/emails/page.tsx:227-235 | The failure list is shown exactly when some result failed, and then holds the route's failure list. |
| EmailsPage.FailureListExact | app/dashboard/emails/page.tsx:227-235 | The shown failures are exactly the failed results, and their number is what was not sent. |
| ClientsPage.Decimal | app/dashboard/clients/page.tsx:68 | `Date.now()` is printed as a non-empty run of decimal digits. |
| ClientsPage.DecimalRoundTrip | app/dashboard/clients/page.tsx:68 | The printed digits denote the number. |
| ClientsPage.OptimisticIdsDiffer | app/dashboard/clients/page.tsx:68 | Entries created at different milliseconds get different temporary ids. |
| ClientsPage.OptimisticClient | app/dashboard/clients/page.tsx:67-76 | The optimistic client has the temporary id, owner `me`, and the input's name, email, phone and notes. The creation and update times come from two separate reads of the clock, creation first. |
| ClientsPage.CreateOnMutate | app/dashboard/clients/page.tsx:63-79 | The optimistic client is prepended to the cached list, which is otherwise unchanged, or stands alone when nothing is cached. The snapshot is the cache as it was. |
| ClientsPage.Merge | app/dashboard/clients/page.tsx:97 | Present fields overwrite. The id, owner and creation time stay, and the update time is the one clock reading taken for this entry. |
| ClientsPage.UpdateList | app/dashboard/clients/page.tsx:97 | Length and order are kept. Only the entries with the id are merged, each with its own clock reading, and the rest are untouched. |
| ClientsPage.UpdateOnMutate | app/dashboard/clients/page.tsx:92-101 | With nothing cached, nothing changes. Otherwise the cached list is updated. The snapshot is the cache as it was. |
| ClientsPage.UpdateIdempotent | app/dashboard/clients/page.tsx:97 | Applying the same update twice gives what the second application gives alone, whatever the clock read the first time, and ids never change. |
| ClientsPage.DeleteList | app/dashboard/clients/page.tsx:120 | The filter never lengthens the list. |
| ClientsPage.DeleteMembers | app/dashboard/clients/page.tsx:120 | Exactly the entries with another id remain. |
| ClientsPage.DeleteAppend | app/dashboard/clients/page.tsx:120 | The filter works part by part, so the remaining entries keep their order. |
| ClientsPage.DeleteAbsent | app/dashboard/clients/page.tsx:120 | Deleting an id no entry has changes nothing. |
| ClientsPage.DeleteTwice | app/dashboard/clients/page.tsx:120 | Deleting twice is deleting once. |
| ClientsPage.DeleteOnMutate | app/dashboard/clients/page.tsx:115-123 | With nothing cached, nothing changes. Otherwise the entries with the id leave the cached list. The snapshot is the cache as it was. |
| ClientsPage.DeleteUndoesCreate | app/dashboard/clients/page.tsx:63-123 | Deleting the entry just created optimistically restores the list, when no cached entry shares its id. |
| ClientsPage.Rollback | app/dashboard/clients/page.tsx:80-83 | On error the snapshot is put back when there was one. Otherwise the cache is left as it is. |
| ClientsPage.FailedEditRestores | app/dashboard/clients/page.tsx:92-127 | A failed update or delete leaves the cache as it was before the mutation. |
| ClientsPage.FailedCreate | app/dashboard/clients/page.tsx:63-83 | A failed create restores a cached list. With nothing cached, the optimistic entry stays. |
| ClientsPage.OnCreate | app/dashboard/clients/page.tsx:131-138 | A mutation is issued exactly when the name is non-empty and the email valid. Otherwise the first schema message is shown, with the name checked first. |
| ClientsPage.OnSaveEdit | app/dashboard/clients/page.tsx:145-152 | The partial schema checks only the fields present. An edit is issued exactly when they pass, and otherwise the first message is shown. |
| ClientsPage.OnStartEdit | app/dashboard/clients/page.tsx:140-143 | Starting an edit selects the client and copies every field into the form. |
| ClientsPage.UnchangedEditKeepsClient | app/dashboard/clients/page.tsx:140-152 | An unchanged edit passes the checks exactly when the client would pass the create checks. It changes nothing but the update time. |
| ClientsPage.StartEditOfCreated | app/dashboard/clients/page.tsx:140-143 | Editing an optimistic entry copies back exactly what was entered. |

## Left out

- Network, database and clock. Every awaited answer is a parameter, and `Date.now()` and `new Date().toISOString()` are given values. Time conversions between ISO text and milliseconds are left out, so stored expiries are milliseconds. `Date` parsing and formatting, including the `RangeError` of `toISOString` on an invalid date, is not modelled.
- The googleapis client's own refresh on expiry. The provider's answers are taken as given, so a refresh the library might make by itself is not modelled.
- `encodeURIComponent` and URL building in the callback. Query values and redirect messages are kept unencoded.
- The zod e-mail check is a predicate parameter. The route's schema check is the predicate `ValidSendBody`. Its error details in the 400 body are not modelled.
- The shape of each item in an `items` array is not checked by the route, and not by the model either. Non-string fields are not modelled.
- Concurrency: React Query's cancellation and the ordering of concurrent mutations. Every handler runs to completion in order.
- Lone UTF-16 surrogates. Dafny characters are Unicode scalar values, so every string has a UTF-8 encoding.
- The calendar's `timeMin` and `timeMax`. The list query carries only the fixed fields, and paging beyond `maxResults: 50` is not modelled.
- `null` and `undefined` are both `None`. A key present with an `undefined` name or email in an edit form is treated as absent.
- The unreachable `apiSendEmails` call of the emails page (line 85, after `|| true` on line 69) is not modelled.
- Messages shown on the pages, and the invalidation and refetch after a success, are not modelled.
- `EmailTemplate` and `SendResult` are not declared in lib/types/types.ts. Their shapes follow their uses in the page and in services/gmail.ts.
- Environment checks in lib/google/oauth.ts are not part of this model.
- Calendar.GetEvents: the events' `id!` is passed on as it is, possibly null, because the assertion only affects the type checker.

## Findings

| source | as written | input that shows it | evidently intended | confidence | as-written member | corrected member |
|---|---|---|---|---|---|---|
| lib/email/placeholders.ts:5-7 | `replaceAll` with a string replacement expands `$&`, `` $` ``, `$'` and `$$` inside the client's name, email or date | a client named `$&` and the subject `{{client_name}}`: the sent subject is `{{client_name}}`, not `$&` | each value is inserted verbatim | high (not executed) | Placeholders.ApplyPlaceholdersAsWritten | Placeholders.ApplyPlaceholders |

The counterexample is `Placeholders.DollarNameCounterexample`. `Placeholders.AsWrittenAgrees` proves that the two versions agree whenever no value holds a `$`. The emails page model calls the version as written, as the page does. `EmailsPage.BuildItemsVerbatim` shows that its items are the corrected fill-in whenever no value holds a `$`.
