# Back-office CRUD core: password reset, display order, subscribers, insights, accounts

A Dafny model of the request handlers at the heart of a small content
back end written in TypeScript (Express, TypeORM, Redis). Each handler is a
pure transition from a state (the rows of a table, the Redis key space)
and the request's fields to a reply, a new state and the e-mails the handler
dispatches. The modules:

- `Common`: optional values, the JavaScript values a request body or query
  string can carry and their truthiness, replies, and the e-mails.
- `Rows`: generic table helpers for the ORM's behaviour: first-match lookup,
  filtering, maximum and "next order", sorting by a rank, taking a prefix.
- `Cache`: the Redis helpers of `src/config/redis.config.ts`. The store is a
  map from key to value plus an optional expiry instant, read through an
  abstract clock. It also holds the `otp:` and `reset:` key namespaces.
- `Otp`: the five-digit one-time code and its decimal rendering.
- `PasswordReset`: the three steps of `src/controllers/forgotPasswordController.ts`
  (request a code, verify the code, reset the password), plus lemmas over
  runs of the flow.
- `Accounts`: register, login, profile and change-password from
  `src/controllers/userController.ts`.
- `Subscribers`: the newsletter subscriber lifecycle from
  `src/controllers/subscriberController.ts`.
- `Team`: the team members and their display order from
  `src/controllers/teamController.ts`.
- `Insights`: listing arithmetic, view counting, creation with display order
  and subscriber notices, explicit reordering, the status toggle and the
  popular list, from `src/controllers/insightController.ts`.

These are parameters of the model:

- the clock (`now`);
- the random draw behind the code (`draw < 90000`);
- the generated keys and tokens (`freshId`, `token`);
- the password hash (`hash`); comparing a password with a digest succeeds
  exactly when the password hashes to it;
- the JWT signer (`sign`), applied to the user id;
- the uploaded image's URL (`upload`);
- the configured front-end URL (`frontend`).

Tables are sequences of rows in storage order. A lookup returns the first
matching row, which is the row the ORM's `findOne` returns.

Two facts of the reset flow that are easy to misread:

- Verifying a code deletes that code when it issues a reset token. A new
  code requested after a token was issued lives next to the still-valid
  token (`PasswordReset.CodeAndTokenCanCoexist`).
- The comment above the generator (src/controllers/forgotPasswordController.ts:9)
  calls the code "4-digit". The expression
  `Math.floor(10000 + Math.random() * 90000)` yields five digits, and
  `Otp.GenerateOtp` proves five.

## Model

| member | source | states |
|---|---|---|
| `Common.Supplied` | src/controllers/teamController.ts:63-65 | a field guarded by `if (field)` is used exactly when it is a non-empty string, and then its text is used |
| `Rows.SameKeysSameIndex` | src/controllers/teamController.ts:57-59 | tables whose rows carry the same keys row for row find every key at the same row, so an update that keeps the keys keeps every lookup |
| `Rows.NextOrder` | src/controllers/teamController.ts:39-46 | the next order is above every existing order, is 1 on an empty table, and is otherwise one past an existing order (the maximum) |
| `Otp.ParseDecimalOfDecimal` | src/controllers/forgotPasswordController.ts:11 | `toString()` of a natural number reads back as the same number |
| `Otp.GenerateOtp` | src/controllers/forgotPasswordController.ts:9-12 | the code has exactly five decimal digits, its value lies in [10000, 99999], and it is 10000 plus the draw |
| `Otp.GenerateOtpInjective` | src/controllers/forgotPasswordController.ts:11 | distinct draws give distinct codes |
| `Cache.Get` | src/config/redis.config.ts:43-45 | a read yields a value exactly when the key holds an entry that has not expired, and then it yields that entry's value |
| `Cache.OtpKeyRoundTrip` | src/config/redis.config.ts:53-66 | a key parses back to an e-mail exactly when it is `"otp:"` followed by that e-mail |
| `Cache.ResetKeyRoundTrip` | src/config/redis.config.ts:76-94 | a key parses back to an e-mail exactly when it is `"reset:"` followed by that e-mail |
| `Cache.KeysSeparate` | src/config/redis.config.ts:53-76 | both key functions are injective, and no OTP key equals any reset key |
| `Cache.SetToken` | src/config/redis.config.ts:34-37 | a value stored without expiry reads back at every later instant; no other key changes |
| `Cache.GetToken` | src/config/redis.config.ts:43-45 | a value is read exactly when the key holds an entry that has not expired, and then it is that entry's value |
| `Cache.DeleteToken` | src/config/redis.config.ts:39-41 | a deleted key reads absent at every instant; no other key changes |
| `Cache.StoreOtp` | src/config/redis.config.ts:48-56 | the code reads back under `otp:<email>` before `now + expiresIn` and is absent from then on (default 300 s); no other key changes |
| `Cache.GetOtp` | src/config/redis.config.ts:59-62 | the code is read exactly when `otp:<email>` holds a live entry, and then its value |
| `Cache.DeleteOtp` | src/config/redis.config.ts:65-68 | `otp:<email>` is gone; every other key keeps its presence and its entry |
| `Cache.StoreResetToken` | src/config/redis.config.ts:71-79 | the token reads back under `reset:<email>` before `now + expiresIn` and is absent from then on (default 900 s); no other key changes |
| `Cache.VerifyResetTokenAsWritten` | src/config/redis.config.ts:82-89 | `storedToken === token` holds when the live token equals the supplied string, and also when no token is live and the supplied value is `null` |
| `Cache.VerifyResetToken` | src/config/redis.config.ts:82-89 | the check as intended: it accepts exactly when a live reset token exists and equals the supplied string; whatever it accepts, the written check accepts too |
| `Cache.NullTokenAcceptedWhenAbsent` | src/config/redis.config.ts:86-88 | with no live reset token, the written check accepts `null` and the intended check refuses it |
| `Cache.DeleteResetToken` | src/config/redis.config.ts:92-95 | `reset:<email>` is gone; every other key keeps its presence and its entry |
| `Accounts.FindByEmail` | src/controllers/userController.ts:15 | the lookup gives the first row with the e-mail, or nothing exactly when no row has it |
| `Accounts.FindById` | src/controllers/userController.ts:57 | the lookup gives the first row with the id, or nothing exactly when no row has it |
| `Accounts.Register` | src/controllers/userController.ts:14-21 | a known e-mail gives 400 "Email already in use" and no change; otherwise one user is appended with the e-mail, the name, the hash of the password and role "admin" |
| `Accounts.RegisterPreservesUniqueness` | src/controllers/userController.ts:15-20 | registration keeps e-mails unique, and ids too when the new id is unused |
| `Accounts.Login` | src/controllers/userController.ts:26-50 | login succeeds exactly for a known e-mail and a string password whose hash is the stored digest; a success carries a token signed for the user id and the id, e-mail, name and role but no password; an unknown e-mail or a wrong string password gives 400 "Invalid credentials"; a known e-mail with a password that is not a string gives 500 "Login error" |
| `Accounts.LoginFailureIndistinguishable` | src/controllers/userController.ts:29-32 | an unknown e-mail, whatever password is sent, and a wrong string password produce the identical reply |
| `Accounts.MissingPasswordRevealsAccount` | src/controllers/userController.ts:29-50 | with a missing or non-string password, a registered e-mail gets 500 and an unknown one 400, so the reply tells whether the e-mail is registered |
| `Accounts.LoginAfterRegister` | src/controllers/userController.ts:18-47 | a newly registered user logs in with the registration password and sees the default role |
| `Accounts.GetProfile` | src/controllers/userController.ts:56-64 | an unknown id gives 404 "User not found"; a known one gives that user's public fields |
| `Accounts.UpdateProfile` | src/controllers/userController.ts:70-82 | an unknown id gives 404 and no change; a missing name gives "Profile updated" and no change; a name that is not a string gives 500 "Failed to update profile" and no change; a string name replaces only that user's name |
| `Accounts.ProfileAfterUpdate` | src/controllers/userController.ts:56-82 | after a profile update the profile shows the new name with the old e-mail and role; ids and e-mails stay unique; every login succeeds or fails as before |
| `Accounts.ChangePassword` | src/controllers/userController.ts:86-95 | an unknown id gives 404; a wrong current password gives 400 and no change; otherwise only that user's digest changes, to the hash of the new password |
| `Accounts.LoginAfterChangePassword` | src/controllers/userController.ts:90-95 | after a change the new password logs in, and another password logs in only if it hashes alike |
| `PasswordReset.RequestPasswordReset` | src/controllers/forgotPasswordController.ts:20-50 | an unknown e-mail gives 404 and no change; otherwise the new code overwrites `otp:<email>` for 300 s, is mailed to the user, the reply is the fixed success, users and other keys are untouched |
| `PasswordReset.VerifyOtp` | src/controllers/forgotPasswordController.ts:67-109 | unknown e-mail 404, no live code 400, different code 400 "Invalid OTP", each with no change; success exactly on the live code, which is consumed, and the returned token lives under `reset:<email>` for 900 s |
| `PasswordReset.ResetPassword` | src/controllers/forgotPasswordController.ts:126-167 | with the intended token check: unknown e-mail 404, refused token 400, both with no change; success exactly on the live token, which is consumed; only the user's digest changes, to the hash of a non-empty new password; a confirmation is mailed |
| `PasswordReset.ResetPasswordAsWritten` | src/controllers/forgotPasswordController.ts:126-167 | the handler over the written token check: unknown e-mail 404; success exactly for a registered user whose live token equals the supplied string, or who has no live token when the supplied value is `null`; every refusal changes nothing; where the intended check accepts, it agrees with the corrected handler |
| `PasswordReset.NullTokenResetsWithoutOtp` | src/controllers/forgotPasswordController.ts:138-154 | with no reset token on record, a `null` token makes the written handler set a registered user's password, while the corrected handler refuses |
| `PasswordReset.VerifyIsSingleUse` | src/controllers/forgotPasswordController.ts:79-103 | once a code is verified, verifying it again fails as expired at any later instant |
| `PasswordReset.WrongCodeKeepsCode` | src/controllers/forgotPasswordController.ts:32-94 | after a request, a wrong guess within 300 s is refused with "Invalid OTP" and changes nothing, and the mailed code still verifies at any instant of that window |
| `PasswordReset.CodeExpires` | src/controllers/forgotPasswordController.ts:33-34 | 300 s or more after a request, verification fails as expired whatever code is sent |
| `PasswordReset.ResetTokenIsSingleUse` | src/controllers/forgotPasswordController.ts:138-157 | after a successful reset, replaying the token is refused at any later instant |
| `PasswordReset.ResetTokenExpires` | src/controllers/forgotPasswordController.ts:97-103 | 900 s or more after verification, the issued token is refused |
| `PasswordReset.UnknownEmailIsInert` | src/controllers/forgotPasswordController.ts:23-135 | for an unregistered e-mail all three steps reply 404 and change nothing, whatever else is sent |
| `PasswordReset.EndToEnd` | src/controllers/forgotPasswordController.ts:32-157 | request, verify with the mailed code within 300 s, and reset with the returned token within 900 s all succeed; the user's digest becomes the hash of the new password, which then logs in |
| `PasswordReset.CodeAndTokenCanCoexist` | src/controllers/forgotPasswordController.ts:97-103 | a code requested after a verification lives next to the still-valid reset token |
| `Subscribers.FindByEmail` | src/controllers/subscriberController.ts:14 | the lookup gives the first record with the e-mail, or nothing exactly when none has it |
| `Subscribers.FindById` | src/controllers/subscriberController.ts:60 | the lookup gives the first record with the id, or nothing exactly when none has it |
| `Subscribers.SetActive` | src/controllers/subscriberController.ts:39-40 | only the status of the one record changes |
| `Subscribers.Subscribe` | src/controllers/subscriberController.ts:8-26 | a missing or non-string e-mail gives 400 and no change; a known one is switched on with "Already subscribed" and nothing else changes; a new one gets exactly one appended active record and 201 |
| `Subscribers.SubscribeActivates` | src/controllers/subscriberController.ts:14-25 | afterwards the e-mail has exactly one record, it is active, and e-mails stay unique |
| `Subscribers.SubscribeIdempotent` | src/controllers/subscriberController.ts:14-25 | subscribing twice leaves the table as subscribing once |
| `Subscribers.Unsubscribe` | src/controllers/subscriberController.ts:28-42 | bad e-mail 400, unknown e-mail 404, both with no change; otherwise the record stays but is switched off, and nothing else changes |
| `Subscribers.UnsubscribeById` | src/controllers/subscriberController.ts:57-69 | an unknown id gives 404 and no change; otherwise the record is switched off and the reply names its e-mail |
| `Subscribers.SetActivePreservesUniqueness` | src/controllers/subscriberController.ts:16-18 | switching a record on or off keeps e-mails and ids unique |
| `Subscribers.SubscribePreservesUniqueness` | src/controllers/subscriberController.ts:14-25 | subscribing keeps e-mails unique, and ids too when the new id is unused |
| `Subscribers.UnsubscribePreservesUniqueness` | src/controllers/subscriberController.ts:34-41 | both ways of unsubscribing keep e-mails and ids unique |
| `Subscribers.ActiveOnly` | src/controllers/subscriberController.ts:50 | exactly the active records: each listed one is an active record of the table, each active record is listed as often as it occurs in the table, and no inactive record is listed |
| `Subscribers.GetSubscribers` | src/controllers/subscriberController.ts:44-56 | with `active=true`, exactly the active records, each as often as in the table; with anything else, the whole table |
| `Subscribers.UnsubscribedIsListedInactive` | src/controllers/subscriberController.ts:39-53 | an unsubscribed e-mail keeps its record but is absent from the active list |
| `Team.FindById` | src/controllers/teamController.ts:57-59 | the lookup gives the first member with the id, or nothing exactly when none has it |
| `Team.GetAllTeamMembers` | src/controllers/teamController.ts:14-19 | every member exactly once, in ascending order |
| `Team.CreateTeamMember` | src/controllers/teamController.ts:30-49 | one member is appended with the given fields, the uploaded image or "", and an order above every existing order (1 on an empty table, otherwise the maximum plus 1) |
| `Team.UpdateTeamMember` | src/controllers/teamController.ts:55-70 | an unknown id gives 404 and no change; otherwise name, position and linkedin change only when supplied as non-empty strings, the image only on upload, the order never, and other members not at all |
| `Team.UpdateKeepsOrderAndIsIdempotent` | src/controllers/teamController.ts:55-70 | an update keeps every id and every order, hence unique ids and the display order; repeating the same update changes nothing more |
| `Team.DeleteTeamMember` | src/controllers/teamController.ts:76-82 | an unknown id gives 404 and no change; otherwise exactly that member is removed and the others keep their relative order |
| `Team.DeletedIsGone` | src/controllers/teamController.ts:78-81 | with unique ids, the deleted id can no longer be found and ids stay unique |
| `Team.SwapTeamMemberOrder` | src/controllers/teamController.ts:88-109 | a missing id or equal ids give 400 and a missing member 404, each with no change; success happens exactly when both exist and differ; it exchanges the two orders, changes nothing else and keeps the multiset of orders |
| `Team.SwapTwiceRestores` | src/controllers/teamController.ts:105-108 | swapping the same pair twice restores the table |
| `Team.ReorderTeamMembers` | src/controllers/teamController.ts:117-128 | a non-array or empty list gives 400 and no change; otherwise each member takes one plus the last position listing it, unlisted members keep their order, and for distinct ids the member at position p gets order p + 1 |
| `Insights.FindById` | src/controllers/insightController.ts:78-81 | the lookup gives the first insight with the id, or nothing exactly when none has it |
| `Insights.SortField` | src/controllers/insightController.ts:52-53 | the sort column is always whitelisted; it is the requested one when whitelisted, `createdAt` otherwise |
| `Insights.SortDirection` | src/controllers/insightController.ts:26-54 | the order is descending exactly for `desc` or no parameter |
| `Insights.Offset` | src/controllers/insightController.ts:58 | the skip is never negative, and each page starts `limit` rows after the previous one |
| `Insights.PageCount` | src/controllers/insightController.ts:69 | for a positive limit, the least page count whose pages hold every row; `NaN` for 0/0 and `Infinity` for n/0; for a negative limit, the JavaScript ceiling of the negative quotient |
| `Insights.PageOf` | src/controllers/insightController.ts:58-59 | a page holds at most `limit` rows, and they are the rows starting at the offset, in order |
| `Insights.PageArithmetic` | src/controllers/insightController.ts:58-69 | the page of a row index starts at or before that row, ends after it, and is within the page count |
| `Insights.EveryRowOnItsPage` | src/controllers/insightController.ts:58-69 | every row of a listing appears on page `index / limit + 1`, and that page is within the reported page count |
| `Insights.GetInsights` | src/controllers/insightController.ts:19-71 | exactly the insights matching the author and status filters, each as often as in the table; the sort column and direction chosen from the query; skip `(page - 1) * limit` and take `limit`, with page 1 and limit 20 by default; a total equal to the number of matching rows and the page count `ceil(total / limit)` |
| `Insights.GetInsight` | src/controllers/insightController.ts:75-92 | an unknown id gives 404 and no change; otherwise the insight's view count rises by exactly one and nothing else changes |
| `Insights.GetInsightKeepsOrder` | src/controllers/insightController.ts:75-92 | a read keeps the length, every id, every status and every display order, and keeps ids unique |
| `Insights.ReadOnce` | src/controllers/insightController.ts:78-89 | one read of a known insight leaves the table with one more view on that insight's row and nothing else changed, and the insight is found at the same row |
| `Insights.ReadsAddViews` | src/controllers/insightController.ts:87-89 | n reads of a known insight raise its view count by exactly n and change no other row |
| `Insights.ToggleInsightStatus` | src/controllers/insightController.ts:267-279 | an unknown id gives 404 and no change; otherwise only that insight's status flips, and the message names the new status |
| `Insights.ToggleTwiceRestores` | src/controllers/insightController.ts:275 | toggling twice restores the table |
| `Insights.Preview` | src/controllers/insightController.ts:134 | the preview is the first 180 characters of the content, or all of it when shorter |
| `Insights.Notices` | src/controllers/insightController.ts:131-145 | one notice per active subscriber, in table order, all with the same title, preview and link |
| `Insights.CreateInsight` | src/controllers/insightController.ts:95-148 | an author id that is given but unknown gives 404 "Author not found" with no change and no mail; otherwise one insight is appended with zero views, the given or default status, display order above every existing one, and the notices carry the link `<frontend or https://oncg.com>/insights/<id>` |
| `Insights.NotifiesActiveSubscribersOnce` | src/controllers/insightController.ts:131-145 | with unique subscriber e-mails, every active subscriber gets exactly one notice and no inactive subscriber gets any |
| `Insights.NoticesDistinct` | src/controllers/insightController.ts:131-145 | with unique subscriber e-mails, no two notices share an address |
| `Insights.NoticeReaches` | src/controllers/insightController.ts:131-145 | with unique subscriber e-mails, a subscriber is sent a notice exactly when it is active |
| `Insights.ApplyOrders` | src/controllers/insightController.ts:257-261 | the updates change display orders only; an unlisted insight is untouched; with distinct ids each listed insight takes its entry's order |
| `Insights.UpdateInsightOrder` | src/controllers/insightController.ts:250-264 | a non-array gives 400 and no change; otherwise the updates of `ApplyOrders` are made and the reply is the fixed success |
| `Insights.RankedIsPopular` | src/controllers/insightController.ts:227 | ranking by the pair (negated views, negated creation instant) puts more views first and, among equal views, newer first |
| `Insights.GetPopularInsights` | src/controllers/insightController.ts:221-232 | with `limit` defaulting to 10, at most `limit` insights, all active, none listed more often than in the table, with as many as there are active ones up to the limit, ordered by views and then by creation instant, both descending |
| `Insights.PopularIsTop` | src/controllers/insightController.ts:224-229 | an active insight left off the popular list ranks no higher than every insight on it |

## Findings

| source | as written | input that shows it | evidently intended | confidence | as-written member | corrected member |
|---|---|---|---|---|---|---|
| src/config/redis.config.ts:86-88 | `storedToken === token`, where the client returns `null` for an absent key | a registered e-mail with no reset token on record; `resetPassword` with body `{"email": <that e-mail>, "resetToken": null, "newPassword": "x"}` is accepted and sets the password without any code | accept only when a live reset token is stored and equals the supplied string | not executed | Cache.VerifyResetTokenAsWritten | Cache.VerifyResetToken |

At the handler level, `PasswordReset.ResetPasswordAsWritten` and
`PasswordReset.NullTokenResetsWithoutOtp` exhibit the same discrepancy.
`PasswordReset.ResetPassword` uses the corrected check, and the rest of the
flow's lemmas are stated over it.

## Left out

- E-mail delivery (`src/utils/emailService.ts` is not part of this model): the mails are returned as values. The password reset handlers do not wait for a send; `createInsight` waits for all of its sends before replying (src/controllers/insightController.ts:135-144). A send never changes a reply or a store either way, because every sender catches its own failure and returns `false` (src/utils/emailService.ts:54-57, 264-267).
- The Redis connection and its lifecycle events (src/config/redis.config.ts:6-32); the `console.log` in `setToken`.
- The image upload service: an uploaded image is its resulting URL, passed in as `upload`.
- bcrypt, uuid and JWT: they become the parameters `hash`, `freshId`/`token` and `sign`. Salts are not modelled.
- `Math.random`: replaced by a natural draw below 90000. Floating-point effects of `10000 + Math.random() * 90000` are not modelled.
- Concurrency: the `Promise.all` batches of `reorderTeamMembers` and `updateInsightOrder` are applied one after the other in list order, and races between requests are not modelled.
- Every 500 path (a thrown database, cache or library error) except two: a non-string password in `login` and a non-string name in `updateProfile`. The paths left out include bcrypt throwing on a missing password in `register`, `changePassword` and `resetPassword`, and a missing title in `createInsight`.
- The offices, publication and contact-message handlers, the routes, the authentication middleware, `asyncHandler` and the logger.
- Route order: `PATCH /:id` is registered before `PATCH /order` in the insight routes, which would shadow `updateInsightOrder`. The model treats the handler on its own.
- `updateInsight`, `deleteInsight`, `getInsightsByAuthor`, `getRecentInsights` and `getTeamMemberById`: not part of this model.
- The query engine's lookup with an `undefined` value in a `where` clause. Request fields used as lookup keys (e-mails, ids) are strings in the model.
- Insights.GetInsights: the ILIKE search (src/controllers/insightController.ts:44-49) and the database's ordering by the chosen column are not modelled. The listing reports the column and direction and returns the matching rows with the skip and take.
- Insights.GetInsights: `page` and `limit` are absent or integers. `Number()` of a non-numeric query string (NaN) is not modelled.
- Insights.GetInsights: a `page` below 1 or a negative `limit` yields a listing with a negative skip or take. The database refuses a negative OFFSET or LIMIT, so the source answers 500 there; the model does not.
- Insights.GetPopularInsights: requires the limit, 10 when absent, to be a positive integer. The query engine's handling of `take` as 0, NaN or negative is not modelled.
- Subscribers.GetSubscribers: the rows come back in storage order. The query names no order, so the source promises only the multiset of rows.
- Insights.PageOf: defined for page and limit of at least 1 only.
- Insights.Preview: counts characters (Unicode scalar values), while `slice(0, 180)` counts UTF-16 code units. A character outside the Basic Multilingual Plane takes two units in the source, so the source's preview can hold fewer characters or end in half of a surrogate pair.
- Insights.CreateInsight: title and content are strings. `isActive` is either absent (default true) or a boolean.
- Team.SwapTeamMemberOrder: member ids are strings, with a missing id as the empty string. Other falsy JSON values are not distinguished.
- Common.Supplied: a truthy field that is not a string (a number, `true`, an array or an object) counts as not supplied.
- Accounts.UpdateProfile: a number, boolean, array or object as `name` is answered with 500 and no change. The database driver may instead store its text form; that conversion is not modelled.
- Team.UpdateTeamMember: a truthy non-string name, position or linkedin, which the ORM would store, is treated as not supplied.
- Team.ReorderTeamMembers: list entries are strings. Non-string entries are not modelled.
- Insights.UpdateInsightOrder: list entries are `{ id, displayOrder }` records with a string id and an integer order. Malformed entries are not modelled.
- PasswordReset.ResetPassword: `newPassword` is a string. An absent one makes the hash call throw, which is a 500 path.
- PasswordReset.RequestPasswordReset: requires the draw to be below 90000, the range `Math.random` is scaled to.
- Integer widths: view counts and orders are unbounded integers. The 32-bit `int` columns' overflow is not modelled.
