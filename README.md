# URL shortener worker, modelled in Dafny

This model covers the request handlers of a URL-shortening service that runs as a
Cloudflare Worker. The worker keeps three key-value namespaces:

- **URL_MAPPINGS** holds `url:{code}` → the target URL, `urldata:{code}` → the link's
  metadata, and `user:{id}:urls` → the creator's list of codes, newest first.
- **ANALYTICS** holds `{code}` → the link's click statistics.
- **USERS** holds the accounts, their email and username indexes, verification
  flags, and verification and reset tokens.

Files:

- `store.dfy` (module `Store`): the records, the three namespaces as maps over
  structured keys, and total read accessors that read a falsy value as missing.
  - Lemmas prove that the worker's string spelling of the keys is injective, so
    structured keys lose nothing.
  - Identifier generation (nanoid) is a function of random bytes.
- `analytics.dfy` (module `Analytics`): how one redirect becomes a click entry, and
  how that entry is folded into a link's analytics record.
  - A click entry holds the country, the device class, the referrer host and the
    user agent cut to 200 characters.
  - The invariants the fold keeps: the counter equals each breakdown's total, and
    the history holds at most the last 100 clicks in order.
- `links.dfy` (module `Links`): create, list, delete, redirect, read analytics and
  reset analytics, each as a function from (URL_MAPPINGS, ANALYTICS) to a reply and
  the new contents. It also holds the lemmas that relate the handlers.
- `accounts.dfy` (module `Accounts`): register, verify, log in, change
  username/password/email, request a password reset and reset the password. Each is
  a function from USERS to a reply and the new USERS. The module also holds the
  directory invariant and the lemmas that preserve it.
- `worker.dfy` (module `Worker`): the class `Worker`, whose fields are the three
  namespaces.
  - Each handler is a method that performs the worker's store calls one at a time,
    in the worker's order.
  - Each method is proved to leave the store exactly as the matching `Links` or
    `Accounts` function says.
  - The listing handler keeps its loop over the user's codes, with the loop
    invariant that the links gathered so far are those of the codes read so far.

Outside effects become parameters:

- Randomness: the nanoid bytes and the verification/reset tokens.
- The clock: one timestamp `now` per request.
- The request origin.
- The request headers.
- bcrypt: an injected function `hash`, where `compare(p, h)` is `hash(p) == h`.
- URL parsing: an injected `hostOf`, which answers None where `new URL` throws, and an
  injected `hrefOf`, the serialised URL that `Response.redirect` puts in Location,
  which answers None where `Response.redirect` throws.
- A store failure inside updateAnalytics: a `Fault` value naming the call that fails.

In these places the model follows the code's actual behaviour:

- The redirect awaits the analytics update before it answers 302.
- A URL is stored without validation; only the empty URL is refused.
- A generated code is not checked for a collision and may overwrite an existing link
  (`Links.GeneratedCodeOverwrites`).
- A requester id that differs from a link's owner gets 403, even when the owner is
  "anonymous".
- A successful create answers with status 200.

## Model

All source paths are in `url-shortener-worker/young-snow-d7b9/src/index.ts`; the path is written out in each row.

| member | source | states |
|---|---|---|
| Store.Public | url-shortener-worker/young-snow-d7b9/src/index.ts:215-218 | the account as returned: every field except the password hash |
| Store.UrlKeyNameInjective | url-shortener-worker/young-snow-d7b9/src/index.ts:487-519 | two URL_MAPPINGS keys with the same string spelling are the same key (`url:`, `urldata:`, `user:…:urls` never collide) |
| Store.UserKeyNameInjective | url-shortener-worker/young-snow-d7b9/src/index.ts:174-210 | two USERS keys with the same spelling are equal, provided account ids contain no ':' |
| Store.GetUrl | url-shortener-worker/young-snow-d7b9/src/index.ts:664-666 | a URL is found exactly when a non-empty `url:` entry is stored, and it is that entry |
| Store.GetData | url-shortener-worker/young-snow-d7b9/src/index.ts:616-619 | metadata is found exactly when `urldata:` is stored; in a well-typed store it carries its own code |
| Store.GetIndex | url-shortener-worker/young-snow-d7b9/src/index.ts:570-578 | a user's code list is found exactly when `user:{id}:urls` is stored |
| Store.GetText | url-shortener-worker/young-snow-d7b9/src/index.ts:174-183 | a string-valued USERS lookup is found exactly when the key is stored with a non-empty value |
| Store.GetAccount | url-shortener-worker/young-snow-d7b9/src/index.ts:258-263 | an account is found exactly when stored under its id, and it carries that id |
| Store.NanoId | url-shortener-worker/young-snow-d7b9/src/index.ts:186 | an id of one URL-safe symbol per random byte, with no ':' and no '/' |
| Store.GenerateShortCode | url-shortener-worker/young-snow-d7b9/src/index.ts:824-827 | a generated code has 6 symbols, none ':' or '/' |
| Analytics.Bump | url-shortener-worker/young-snow-d7b9/src/index.ts:755 | the category's count goes up by one (a missing one starts at 0); every other count is kept |
| Analytics.Zero | url-shortener-worker/young-snow-d7b9/src/index.ts:531-538 | the record written at create and at reset, and assumed when none is stored: the given creation time, 0 clicks, empty breakdowns and an empty history |
| Analytics.BumpSum | url-shortener-worker/young-snow-d7b9/src/index.ts:755-786 | each increment raises the breakdown's total by exactly one |
| Analytics.ContainsCIMeansMatch | url-shortener-worker/young-snow-d7b9/src/index.ts:763-769 | the case-insensitive scan succeeds exactly when the pattern occurs at some position |
| Analytics.MentionsAnyMeansSome | url-shortener-worker/young-snow-d7b9/src/index.ts:763-769 | an alternation of literals matches exactly when one of its literals occurs |
| Analytics.DeviceLabelCases | url-shortener-worker/young-snow-d7b9/src/index.ts:759-769 | Mobile iff a mobile marker occurs; Tablet iff no mobile marker but iPad; Desktop iff neither but a desktop marker; otherwise Unknown |
| Analytics.DeviceLabel | url-shortener-worker/young-snow-d7b9/src/index.ts:760-769 | the device class is one of Mobile, Tablet, Desktop and Unknown (which one: DeviceLabelCases) |
| Analytics.DeviceIPhone | url-shortener-worker/young-snow-d7b9/src/index.ts:763-764 | an iPhone user agent is Mobile |
| Analytics.DeviceMobileBeforeTablet | url-shortener-worker/young-snow-d7b9/src/index.ts:763-766 | an iPad user agent with a Mobile token is Mobile, because mobile is tested first |
| Analytics.DeviceTablet | url-shortener-worker/young-snow-d7b9/src/index.ts:765-766 | "iPad" alone is Tablet |
| Analytics.DeviceDesktop | url-shortener-worker/young-snow-d7b9/src/index.ts:767-768 | "X11" is Desktop |
| Analytics.CountryLabel | url-shortener-worker/young-snow-d7b9/src/index.ts:754 | a missing country header becomes "Unknown"; a present one is kept |
| Analytics.ReferrerLabel | url-shortener-worker/young-snow-d7b9/src/index.ts:775-786 | the referrer is the header's hostname; it is "Direct" when the header is missing, is "Direct", does not parse, or has an empty hostname |
| Analytics.ReferrerExamples | url-shortener-worker/young-snow-d7b9/src/index.ts:775-786 | a page URL gives its host; an empty header and an unparsable one give "Direct" |
| Analytics.Truncate | url-shortener-worker/young-snow-d7b9/src/index.ts:795 | a string that fits is kept whole; a longer one becomes its prefix of exactly n characters |
| Analytics.ClickEntry | url-shortener-worker/young-snow-d7b9/src/index.ts:790-796 | the pushed entry has the request time, the country, device and referrer labels, and the user agent truncated to its first 200 characters |
| Analytics.KeepLast | url-shortener-worker/young-snow-d7b9/src/index.ts:799-801 | the trimmed history has min(length, n) entries |
| Analytics.KeepLastSuffix | url-shortener-worker/young-snow-d7b9/src/index.ts:799-801 | entry i of the trimmed history is the entry that stood the same distance from the end of the untrimmed one |
| Analytics.KeepLastAppend | url-shortener-worker/young-snow-d7b9/src/index.ts:790-801 | trimming before or after appending gives the same history |
| Analytics.Recorded | url-shortener-worker/young-snow-d7b9/src/index.ts:750-801 | one click keeps the creation time, raises the counter by one, bumps the three breakdowns and keeps the history within 100 |
| Analytics.RecordedHistory | url-shortener-worker/young-snow-d7b9/src/index.ts:790-801 | the new history is the last 100 of the old history plus the entry; it grows by one until it is full and ends with the new entry |
| Analytics.ZeroConsistent | url-shortener-worker/young-snow-d7b9/src/index.ts:530-537 | the initial record satisfies the record invariants, with 0 clicks and an empty history |
| Analytics.RecordedConsistent | url-shortener-worker/young-snow-d7b9/src/index.ts:750-801 | one click preserves the invariants: counter = each breakdown's total, history ≤ 100, user agents ≤ 200 |
| Analytics.RecordAllInvariant | url-shortener-worker/young-snow-d7b9/src/index.ts:750-801 | N sequential clicks preserve the invariants and raise the counter by N |
| Analytics.RecordAllHistory | url-shortener-worker/young-snow-d7b9/src/index.ts:790-801 | after N clicks the history is the last 100 of the old history followed by the N entries |
| Analytics.ClicksFromZero | url-shortener-worker/young-snow-d7b9/src/index.ts:531-541 | from a fresh record, N clicks give clicks = N, each breakdown summing to N, and the history holding the last min(N, 100) clicks in order |
| Links.Owner | url-shortener-worker/young-snow-d7b9/src/index.ts:508 | the owner is the given user id, or "anonymous" when none is given |
| Links.IndexOrEmpty | url-shortener-worker/young-snow-d7b9/src/index.ts:520-521 | a user's stored code list, or the empty list when there is none |
| Links.Shorten | url-shortener-worker/young-snow-d7b9/src/index.ts:470-550 | an empty URL gives 400 and a taken custom code gives 400, both with nothing written; otherwise it succeeds, and the results are listed below |
| Links.ShortenThenResolve | url-shortener-worker/young-snow-d7b9/src/index.ts:483-497 | after a create the code redirects to the serialised URL (or throws when the URL does not parse), and reusing the custom code is refused |
| Links.GeneratedCodeOverwrites | url-shortener-worker/young-snow-d7b9/src/index.ts:483-497 | a generated code that collides with a stored link still succeeds and replaces that link's URL and metadata |
| Links.Overlay | url-shortener-worker/young-snow-d7b9/src/index.ts:590-596 | a listed record takes its click count from analytics when there is a record there, and is otherwise unchanged |
| Links.Collect | url-shortener-worker/young-snow-d7b9/src/index.ts:585-599 | the listing has at most one link per indexed code |
| Links.Present | url-shortener-worker/young-snow-d7b9/src/index.ts:586-588 | the codes kept are exactly the indexed codes that have metadata |
| Links.CollectFollowsIndex | url-shortener-worker/young-snow-d7b9/src/index.ts:585-599 | the listed codes are exactly the indexed codes with metadata, in index order, and each link is its stored record with clicks overlaid |
| Links.ListLinks | url-shortener-worker/young-snow-d7b9/src/index.ts:553-610 | no user id gives 400; otherwise the links collected from the user's index, which reads as empty when missing |
| Links.Without | url-shortener-worker/young-snow-d7b9/src/index.ts:648 | the filtered list holds exactly the other codes, and is unchanged when the code is absent |
| Links.WithoutCounts | url-shortener-worker/young-snow-d7b9/src/index.ts:648 | the filter removes every occurrence of the code and keeps every other code as often as it occurred |
| Links.WithoutAppend | url-shortener-worker/young-snow-d7b9/src/index.ts:648 | filtering a concatenation filters each part, so the kept codes stay in their original order |
| Links.Delete | url-shortener-worker/young-snow-d7b9/src/index.ts:613-658 | no metadata gives 404 and a given requester who is not the owner gives 403, both with no change; otherwise it succeeds, and the results are listed below |
| Links.DeleteThenGone | url-shortener-worker/young-snow-d7b9/src/index.ts:613-658 | after a delete the code is 404 on redirect and on analytics, and is listed for no user |
| Links.Mirror | url-shortener-worker/young-snow-d7b9/src/index.ts:808-814 | the click count is copied only onto existing metadata, and nothing else changes |
| Links.PriorRecord | url-shortener-worker/young-snow-d7b9/src/index.ts:732-746 | the stored analytics record, or the zero record with the current time when none is stored |
| Links.RecordVisit | url-shortener-worker/young-snow-d7b9/src/index.ts:729-821 | analytics get the prior (or zero) record with one click folded in, unless the first store call fails; the metadata mirrors the new total only when no call fails; well-typedness is kept; the clicks mirror is kept unless the failure falls between the two writes |
| Links.WriteBack | url-shortener-worker/young-snow-d7b9/src/index.ts:804-820 | each write is lost when the store call before it fails; what was written stays written |
| Links.MirrorKeeps | url-shortener-worker/young-snow-d7b9/src/index.ts:804-814 | writing a record and mirroring its total keeps well-typedness and the clicks mirror |
| Links.MirrorCanLag | url-shortener-worker/young-snow-d7b9/src/index.ts:804-820 | a failure between the two writes leaves the metadata's click count behind analytics |
| Links.Redirect | url-shortener-worker/young-snow-d7b9/src/index.ts:661-679 | an unknown code is 404 with no change; a known one first records the visit (the state of RecordVisit, whatever the analytics update does), then answers 302 to the serialised stored URL, or throws when the stored URL does not parse |
| Links.RedirectCountsOneClick | url-shortener-worker/young-snow-d7b9/src/index.ts:661-679 | a redirect counts exactly one click, keeps the record invariants, and mirrors the new total onto the metadata |
| Links.GetAnalytics | url-shortener-worker/young-snow-d7b9/src/index.ts:682-697 | the stored record when there is one, otherwise 404 "URL not found" |
| Links.ResetAnalytics | url-shortener-worker/young-snow-d7b9/src/index.ts:700-726 | the record is replaced by the zero record for any code, the metadata count is set to 0 where metadata exists, and both invariants are kept |
| Links.ResetThenGet | url-shortener-worker/young-snow-d7b9/src/index.ts:700-726 | after a reset the record reads back as zero clicks, empty breakdowns, an empty history and the new creation time |
| Accounts.Register | url-shortener-worker/young-snow-d7b9/src/index.ts:161-224 | a missing field gives 400, a taken email 409 (checked first) and a taken username 409, all with nothing written; otherwise it succeeds, and the results are listed below |
| Accounts.VerifyEmail | url-shortener-worker/young-snow-d7b9/src/index.ts:226-240 | an unknown token throws; a known one is deleted and its user set to verified "true", and nothing else changes |
| Accounts.Login | url-shortener-worker/young-snow-d7b9/src/index.ts:243-285 | the error replies are listed below, each from its condition; success holds exactly when the email is indexed, the account exists, the password matches and the user is verified, and it returns the public account |
| Accounts.ChangeUsername | url-shortener-worker/young-snow-d7b9/src/index.ts:287-326 | a missing field gives 400, a taken name 409 and a missing account 404, all with no change; otherwise the results are listed below |
| Accounts.ChangePassword | url-shortener-worker/young-snow-d7b9/src/index.ts:328-360 | a missing field gives 400, a missing account 404 and a wrong old password 401, all with no change; otherwise only the account's hash changes, to hash(new) |
| Accounts.ChangeEmail | url-shortener-worker/young-snow-d7b9/src/index.ts:362-401 | a missing field gives 400, a taken email 409 and a missing account 404, all with no change; otherwise the results are listed below |
| Accounts.RequestPasswordReset | url-shortener-worker/young-snow-d7b9/src/index.ts:403-433 | a missing email gives 400 and an unregistered one 404, both with no change; otherwise `reset:{token}` → email is added and the user id is returned |
| Accounts.ResetPassword | url-shortener-worker/young-snow-d7b9/src/index.ts:435-467 | an unknown token gives 400 and an unindexed email 404; an absent new password throws (bcrypt rejects it), and so does a missing account, all with no change; otherwise the hash is replaced and the token deleted |
| Accounts.DirectoryUnique | url-shortener-worker/young-snow-d7b9/src/index.ts:173-183 | within the directory no two accounts share an email or a username |
| Accounts.OneIndexKeyPerAccount | url-shortener-worker/young-snow-d7b9/src/index.ts:287-401 | within the directory an account is named by exactly one email key and one username key, its own |
| Accounts.ResetPasswordTotal | url-shortener-worker/young-snow-d7b9/src/index.ts:441-466 | within the directory a valid reset token for an indexed email never reaches the null-account exception: it succeeds exactly when the new password is present |
| Accounts.RegisterKeepsDirectory | url-shortener-worker/young-snow-d7b9/src/index.ts:161-224 | registration under a fresh id preserves the directory invariant |
| Accounts.ChangeUsernameKeepsDirectory | url-shortener-worker/young-snow-d7b9/src/index.ts:287-326 | a username change preserves the directory: the account has exactly its new name as index key |
| Accounts.ChangeEmailKeepsDirectory | url-shortener-worker/young-snow-d7b9/src/index.ts:362-401 | an email change preserves the directory |
| Accounts.ChangePasswordKeepsDirectory | url-shortener-worker/young-snow-d7b9/src/index.ts:328-360 | a password change preserves the directory |
| Accounts.ResetPasswordKeepsDirectory | url-shortener-worker/young-snow-d7b9/src/index.ts:435-467 | a password reset preserves the directory |
| Accounts.TokensKeepDirectory | url-shortener-worker/young-snow-d7b9/src/index.ts:226-240 | verification and reset requests preserve the directory |
| Accounts.RegisterVerifyLogin | url-shortener-worker/young-snow-d7b9/src/index.ts:205-272 | a fresh account gets 403 on login until its token is used; afterwards login returns the registered account |
| Accounts.TokensSingleUse | url-shortener-worker/young-snow-d7b9/src/index.ts:230-235 | a second verification with the same token throws; a second reset with the same token gives 400 |
| Accounts.ChangePasswordThenLogin | url-shortener-worker/young-snow-d7b9/src/index.ts:328-360 | after a password change the account logs in with the new password exactly when it is verified, and an old password with another hash is refused with 401 |
| Accounts.ResetPasswordThenLogin | url-shortener-worker/young-snow-d7b9/src/index.ts:435-467 | after a reset the account logs in with the new password exactly when it is verified |
| Worker.Worker.constructor | url-shortener-worker/young-snow-d7b9/src/index.ts:6-10 | a worker starts with three empty, well-typed namespaces and the given hash and URL oracles |
| Worker.Worker.Shorten | url-shortener-worker/young-snow-d7b9/src/index.ts:470-550 | the sequence of puts leaves reply and namespaces exactly as Links.Shorten; USERS unchanged; well-typedness kept |
| Worker.Worker.GetUserLinks | url-shortener-worker/young-snow-d7b9/src/index.ts:553-610 | the listing loop returns exactly Links.ListLinks (loop invariant: the links so far are Collect of the codes read so far) |
| Worker.Worker.DeleteLink | url-shortener-worker/young-snow-d7b9/src/index.ts:613-658 | the deletes and the index rewrite leave the state of Links.Delete; USERS unchanged |
| Worker.Worker.UpdateAnalytics | url-shortener-worker/young-snow-d7b9/src/index.ts:729-821 | the field-by-field update and the two writes leave the state of Links.RecordVisit, for every fault |
| Worker.Worker.Redirect | url-shortener-worker/young-snow-d7b9/src/index.ts:661-679 | reply and state are those of Links.Redirect |
| Worker.Worker.GetAnalytics | url-shortener-worker/young-snow-d7b9/src/index.ts:682-697 | the reply is Links.GetAnalytics |
| Worker.Worker.ResetAnalytics | url-shortener-worker/young-snow-d7b9/src/index.ts:700-726 | reply and state are those of Links.ResetAnalytics |
| Worker.Worker.Register | url-shortener-worker/young-snow-d7b9/src/index.ts:161-224 | the puts leave reply and USERS as Accounts.Register; the link namespaces are unchanged |
| Worker.Worker.VerifyEmail | url-shortener-worker/young-snow-d7b9/src/index.ts:226-240 | reply and USERS are those of Accounts.VerifyEmail |
| Worker.Worker.Login | url-shortener-worker/young-snow-d7b9/src/index.ts:243-285 | the reply is Accounts.Login, with nothing written |
| Worker.Worker.ChangeUsername | url-shortener-worker/young-snow-d7b9/src/index.ts:287-326 | reply and USERS are those of Accounts.ChangeUsername |
| Worker.Worker.ChangePassword | url-shortener-worker/young-snow-d7b9/src/index.ts:328-360 | reply and USERS are those of Accounts.ChangePassword |
| Worker.Worker.ChangeEmail | url-shortener-worker/young-snow-d7b9/src/index.ts:362-401 | reply and USERS are those of Accounts.ChangeEmail |
| Worker.Worker.RequestPasswordReset | url-shortener-worker/young-snow-d7b9/src/index.ts:403-433 | reply and USERS are those of Accounts.RequestPasswordReset |
| Worker.Worker.ResetPassword | url-shortener-worker/young-snow-d7b9/src/index.ts:435-467 | reply and USERS are those of Accounts.ResetPassword |

### Results of the successful paths

These rows continue the `states` column for members whose success results do not
fit in one table cell.

- **Links.Shorten:**
  - The code is the custom one, or the generated one.
  - The reply is `{origin}/{code}` and the code.
  - `url:` holds the URL.
  - `urldata:` holds the new fresh-id record with 0 clicks and owner `userId || "anonymous"`.
  - The code is put at the head of the creator's index.
  - Analytics for the code are reset to zero.
  - Nothing else changes.
  - Well-typedness and the clicks mirror are kept.
- **Links.Delete:**
  - `url:`, `urldata:` and the analytics record are removed.
  - The code is filtered out of the requester's index, when one exists.
  - Nothing else changes.
  - Both invariants are kept.
- **Accounts.Register:**
  - The account is stored under a fresh id, with hash(password).
  - The email and username indexes point to the id.
  - The verified flag is "false".
  - The verification token points to the id.
  - The public account is returned.
  - Nothing else changes.
- **Accounts.Login:**
  - 400 when the email or password is missing.
  - 401 when the email is not indexed.
  - 404 when the account is missing.
  - 401 when the password is wrong, with the same message as an unknown email.
  - 403 when the user is not verified.
  - It never throws.
- **Accounts.ChangeUsername:**
  - The account is rewritten with the new name.
  - The new name is indexed.
  - The old name's key is deleted.
  - Nothing else changes.
- **Accounts.ChangeEmail:** the same as ChangeUsername, for the email.

## Left out

- HTTP routing, path extraction, CORS, `jsonResponse` headers and the debug endpoint. These dispatch only: each handler is modelled from its parsed inputs.
- JSON parsing and serialisation: records are stored as datatypes. A body that fails to parse, and a stored value that is not valid JSON, are not modelled.
- `sendEmail` and the links placed in emails: external I/O with no effect on the store.
- A failing store call outside updateAnalytics, and the 500 replies of the `catch` blocks. The store is taken to succeed; within updateAnalytics, failures are modelled by `Fault`.
- Concurrency between requests, and the eventual consistency of KV: each handler runs alone on a consistent store.
- The TTLs of verification tokens (24 hours) and reset tokens (15 minutes) are ignored: a token lives until it is used.
- Strings are sequences of characters, not UTF-16 code units, so `substring(0, 200)` may cut a surrogate pair differently.
- Counters are unbounded naturals; JavaScript's floating-point numbers lose precision only beyond 2^53.
- Keys that collide with JavaScript object properties, such as a referrer host named `__proto__`, are not modelled.
- Store.UserKeyNameInjective: holds only for account ids without ':'. A caller-supplied `userId` that contains ':' could name another USERS key; such ids are outside the model.
- Store.NanoId: nanoid's random source and its exact alphabet order are not modelled, since a uniformly random byte makes the order immaterial.
- `new Date()` is read several times within one handler; the model uses one timestamp `now` per request.
- bcrypt's random salt: `hash` is deterministic, and `compare` is equality of hashes.
- Accounts.RegisterKeepsDirectory: requires that the new nanoid does not name an existing account. The worker does not check for a collision.
- Analytics.KeepLast: its own contract states only the length; its contents are stated by Analytics.KeepLastSuffix, Analytics.RecordedHistory and Analytics.RecordAllHistory.
- Analytics.DeviceLabel: its own contract states only the four possible classes; which class a user agent gets is stated by Analytics.DeviceLabelCases.
- Analytics.ContainsCI carries no contract of its own; its meaning is stated by Analytics.ContainsCIMeansMatch.
- Absent request-body fields are read as "", since every handler but one tests them for truthiness, and so treats absent and empty alike. The exception is the new password of a reset, which is an Option: bcrypt throws for an absent one but accepts "". A token absent from a verify or reset body makes the worker look up the key `verify:undefined` or `reset:undefined`; the model looks up the empty token instead.
- Worker.Worker.UpdateAnalytics: it states only that it leaves the state of Links.RecordVisit. The preservation of well-typedness is stated on Links.RecordVisit.
