# Identity provider: verified model

A Dafny model of the protocols behind an OAuth/OIDC identity provider: the tamper-evident audit chain with its paging
and export, refresh-token rotation, signing-key rotation, RBAC evaluation and its cache, the rate limiter, the
data-retention job, MFA recovery codes, OAuth client secrets, and the cookie and credential codecs.
`dafny verify dfyconfig.toml` checks the whole project in a few minutes.

How the system is modelled:

- A table is a map or a sequence of rows. One SQL statement, or one stated transaction, is one atomic step. Objects that
  change tables are classes; each method is proved against a specification function of the old table, and the theorems
  are about those functions.
- A protocol with concurrent calls is a machine: a state with the tables, the clock and the calls under way, and one
  event per statement. Theorems quantify over every run, that is every interleaving. Fields of a state such as `wins`,
  `retired`, `accepted`, `origins` or `history` record what happened; no step of a protocol reads them to decide.
- SHA-256, HMAC, argon2, ISO date text, `localeCompare`, what a JSON column gives back, and which of several equally new
  rows a query returns are function parameters. Injectivity, total preorder and the like are premises of the theorem
  that needs them.
- Hash, kid, batch id and row id freshness (random values) is an enabling condition of the event that uses them.
- `hide F;` at the head of a proof tells the solver not to unfold `F` there; it weakens no statement.

The files:

| file | about |
|---|---|
| Prelude.dfy, Json.dfy | shared vocabulary; JSON printing and parsing |
| Canonical.dfy, AuditChain.dfy, AuditTable.dfy, AuditRuns.dfy, AuditPaging.dfy, AuditExport.dfy | canonical JSON, the hash chain, keyset paging and export |
| Sessions.dfy, SigningKeys.dfy, RateLimiter.dfy, Retention.dfy | refresh rotation, key rotation, rate limits, retention |
| Rbac.dfy, RbacCache.dfy | permission and entitlement evaluation, and the cache before it |
| MfaRecovery.dfy, ClientSecrets.dfy | recovery codes, client secrets |
| Base64.dfy, Utf8.dfy, Cookies.dfy, SealedCookie.dfy, BasicAuth.dfy | the codecs |

## What turned out not to hold as hoped

Each is stated as it stands, with the exact condition where there is one.

- Canonical text depends on the order of an object's entries, at any depth, exactly when `localeCompare` ranks two of its
  different keys equal (`Canonical.OrderIrrelevantExactly`, `Canonical.AnyOrderExactly`, `Canonical.SameTextExactly`).
- A chained payload that holds an `undefined` is hashed with it but stored without it, so the verifier later reports the
  untouched row as broken. So it does when the JSON column gives two keys that rank equal back in another order, and when
  two chained appends fall into one millisecond and the second random id comes first. A run of appends verifies exactly
  when none of the three happened (`AuditRuns.AppendCompleteness`, `AuditRuns.SwappedTieBreaksTheChain`,
  `AuditRuns.DecreasingIdsBreakTheChain`).
- Security events, and the row that closes a retention run, are stamped by the database in microseconds and paged by a
  millisecond cursor, so pages of either list can lose rows (`AuditPaging.WalkIsWholeExactly` for one page size,
  `AuditPaging.PagesAreTheWhole` for all, `AuditPaging.AuditPagesCanLoseRows`, `AuditPaging.EventPagesCanLoseRows`).
- An export that does not say it is truncated holds every matching row exactly when each of its 200-row pages shows the
  row after it; 201 events of one millisecond are an export that misses one (`AuditExport.Exported`, stated by
  `AuditExport.AuditExportService.CreateExport`; `AuditExport.ExportCanMissARow`).
- A fixed window allows up to 2L - 1 requests within one window's length, and that many are reached
  (`RateLimiter.SlidingBound`, `RateLimiter.SlidingBoundIsReached`).
- `rotateIfDue` checks the age of one key and then rotates whichever key is active when it reads again. The bound of
  1 + ceil(grace / interval) published keys holds for all scheduled-only runs exactly when at most one call is under way
  at a time (`SigningKeys.BoundHoldsExactly`), and nothing replaces it (`SigningKeys.OverlapIsUnbounded`).
  docs/05-key-management-rotation-plan.md does not mention it.
- A call that has read its session row before a revocation still authenticates after it
  (`Sessions.RevokedAuthenticatesExactly`); rotation has no such gap.
- docs/06-audit-log-integrity-plan.md line 20 calls the retention job's anonymisation done, but its security-event and
  audit-log passes select rows already anonymised again: a real run ends exactly when they have nothing to do
  (`Retention.RealRunEndsExactly`), while a dry run reports a count.
- After an invalidation an answer read before it is returned for that user exactly when a check for that user was in
  flight (`RbacCache.OldAnswerReturnedExactly`, `RbacCache.InFlightCheckRefills`); the age of a cached answer is bounded
  by its time to live plus the delay from reading to storing, and every such age is reached
  (`RbacCache.BoundedStaleness`, `RbacCache.StalenessIsReached`).
- Cache keys confuse parts that differ only in colons, whitespace and underscores (`RbacCache.SameKeyExactly`).
- An entitlement key or a cookie named `__proto__` never becomes a member of the object it is assigned to
  (`Rbac.GetAuthorizationSnapshot`, `Cookies.PrintedCookieIsRead`).
- The environment allows recovery codes longer than 27 characters, which the login schema refuses as shown
  (`MfaRecovery.ShownCodeFitsExactly`).

## Model

| member | source | states |
|---|---|---|
| Json.PrintParses | apps/idp-server/src/modules/audit/audit.repository.ts:71-97 | JSON.parse reads a printed value of any depth back and leaves what follows it |
| Json.RoundTrip | apps/example-bff/src/session.ts:50-75 | JSON.parse undoes JSON.stringify on every JSON value |
| Json.WhitespaceIgnored | apps/idp-server/src/core/oidc-provider-adapter.ts:33-35 | JSON.parse reads a value of any depth whatever whitespace stands around it and between its tokens |
| Json.NumTextExactly | apps/idp-server/src/core/oidc-provider-adapter.ts:33-35 | a number is read exactly when it is one by JSON's grammar |
| Json.UnicodeEscapeExactly | apps/idp-server/src/core/oidc-provider-adapter.ts:33-35 | a \u escape stands for its code unit, two for the character of a surrogate pair, and no lone surrogate is read |
| Json.PrintInjective | apps/idp-server/src/modules/audit/audit.repository.ts:71-74 | two JSON values print alike only if they are equal |
| Json.PrintedText | apps/idp-server/src/modules/audit/audit.repository.ts:71-97 | the text JSON.stringify prints, exactly: scalars, quoted strings, items and members joined by commas, a colon after each key, no whitespace |
| Json.EscapedCharacters | apps/idp-server/src/modules/audit/audit.repository.ts:71-97 | quote, backslash and the five control characters with a short escape |
| Json.EscapedControls | apps/idp-server/src/modules/audit/audit.repository.ts:71-97 | the other control characters: four hexadecimal digits |
| Json.PlainText | apps/idp-server/src/modules/audit/audit.repository.ts:71-97 | every other character stands as it is |
| Canonical.CanonicalInjective | apps/idp-server/src/modules/audit/audit.repository.ts:71-97 | equal canonical text means equal values, objects taken as maps, at any depth and for any collation |
| Canonical.CanonicalScalars | apps/idp-server/src/modules/audit/audit.repository.ts:71-83 | the canonical text of null, truth values, numbers, texts and undefined |
| Canonical.PlainCanonicalText | apps/idp-server/src/modules/audit/audit.repository.ts:71-80 | a text without quotes, backslashes and control characters stands between quotes as it is, slashes included |
| Canonical.CanonicalArray | apps/idp-server/src/modules/audit/audit.repository.ts:81-83 | the items in order with nothing but commas between them |
| Canonical.CanonicalObject | apps/idp-server/src/modules/audit/audit.repository.ts:84-96 | the entries in the order of their keys, each quoted key followed by a colon, commas between |
| Canonical.CanonicalComplete | apps/idp-server/src/modules/audit/audit.repository.ts:71-97 | where the collation separates keys, canonical texts agree exactly when the values do |
| Canonical.SameTextExactly | apps/idp-server/src/modules/audit/audit.repository.ts:71-97 | for any collation canonical texts agree exactly when the values do and, at every depth, keys that tie come in one order in both |
| Canonical.SortStable | apps/idp-server/src/modules/audit/audit.repository.ts:86-90 | keys that tie keep the order they were given in |
| Canonical.OrderIrrelevantExactly | apps/idp-server/src/modules/audit/audit.repository.ts:84-96 | the text is the same for every order of one object's entries exactly when no two of its keys tie |
| Canonical.AnyOrderExactly | apps/idp-server/src/modules/audit/audit.repository.ts:71-97 | every JSON value of the same meaning has the same text exactly when no object inside, at any depth, has two keys that tie |
| Canonical.StorageKeepsText | apps/idp-server/src/modules/audit/audit.repository.ts:127-148 | for any payload and collation the text is the same before it is written and after it is read back exactly when the payload holds no undefined and tied keys come back in the order they were written |
| AuditTable.AuditRepository.CreateAuditLog | apps/idp-server/src/modules/audit/audit.repository.ts:173-241 | appends one row with the fields given: for an action that starts with "admin." linked to the latest chained row and hashed before the JSON column rewrites the payload, else unchained |
| AuditTable.AuditRepository.VerifyIntegrityRange | apps/idp-server/src/modules/audit/audit.repository.ts:374-493 | reads exactly the chained rows stamped from `from` to `to`; ok exactly when each links and hashes; otherwise names the first row that does not and which hash is wrong; counts the rows and names the first and the last |
| AuditChain.RangeRows | apps/idp-server/src/modules/audit/audit.repository.ts:374-400 | a time range selects exactly the chained rows stamped from its start to its end, both included |
| AuditChain.LatestHashIsLatest | apps/idp-server/src/modules/audit/audit.repository.ts:202-214 | the hash an append links to is that of a chained row none comes after, and there is none exactly when no row is chained |
| AuditChain.EntryHashText | apps/idp-server/src/modules/audit/audit.repository.ts:127-148 | under an alphabetical collation the digested text, key by key: which field stands under which name |
| AuditChain.EntryHashBinds | apps/idp-server/src/modules/audit/audit.repository.ts:127-148 | one entry hash, one set of hashed fields |
| AuditChain.SharedHashSharedPast | apps/idp-server/src/modules/audit/audit.repository.ts:127-148 | two linked chains sharing one entry hash agree on that row and all before it, at the same position |
| AuditChain.NothingBeforeFirst | apps/idp-server/src/modules/audit/audit.repository.ts:418-446 | with no bounds the verifier expects the first row to have no previous hash |
| AuditChain.ChainBinding | apps/idp-server/src/modules/audit/audit.repository.ts:374-493 | two accepted tables whose last entry hashes agree hold the same chained rows, field for field |
| AuditRuns.StoredRowChecks | apps/idp-server/src/modules/audit/audit.repository.ts:202-241 | a stored row's own hash checks exactly when its payload held no undefined and the column gave tied keys back in order |
| AuditRuns.RangeOfChain | apps/idp-server/src/modules/audit/audit.repository.ts:374-417 | a time range selects consecutive rows of the chain, mid-chain included: exactly those stamped from its start to its end |
| AuditRuns.RunChain | apps/idp-server/src/modules/audit/audit.repository.ts:173-241 | after any run of appends the chain holds, in order, one row for each chained call: its id, time, actor, action, resource and stored payload, the hash of the payload as passed, and the hash of the greatest row there was |
| AuditRuns.RunAscends | apps/idp-server/src/modules/audit/audit.repository.ts:202-241 | the chain is in key order exactly when the chained calls' (time, id) keys increased |
| AuditRuns.AppendCompleteness | apps/idp-server/src/modules/audit/audit.repository.ts:173-241 | after any run mixing chained and other actions the whole table, and every sub-range, verifies exactly when the chained keys increased and every chained payload held no undefined and came back with its tied keys in order |
| AuditRuns.SeparatedIsIntact | apps/idp-server/src/modules/audit/audit.repository.ts:84-96 | where the collation separates its keys, a payload comes through storage with its text exactly when it holds no undefined |
| AuditRuns.DecreasingIdsBreakTheChain | apps/idp-server/src/modules/audit/audit.repository.ts:202-214 | two chained appends in one millisecond, the second with the smaller id: the verifier rejects |
| AuditRuns.SwappedTieBreaksTheChain | apps/idp-server/src/modules/audit/audit.repository.ts:84-96 | one chained append with two tied keys, given back by the column in the other order: the verifier rejects |
| AuditPaging.PageSeesRemaining | apps/idp-server/src/modules/audit/audit.repository.ts:106-119 | a page query returns the first matching rows beyond its cursor in descending order, and says whether more follow |
| AuditPaging.ListedLogs | apps/idp-server/src/modules/audit/audit.repository.ts:243-312 | an audit log is listed exactly when it is inside the time range and equals each filter that is given and not empty |
| AuditPaging.ListedEvents | apps/idp-server/src/modules/audit/audit.repository.ts:314-372 | the same for security events, whose times are microseconds |
| AuditPaging.ToPageLimit | apps/idp-server/src/modules/audit/audit.repository.ts:99-105 | 50 without a number, else its whole part kept between 1 and 200 |
| AuditPaging.WalkIsOrdered | apps/idp-server/src/modules/audit/audit.repository.ts:243-372 | following nextCursor never repeats, invents or reorders a row, at any stored precision |
| AuditPaging.WalkIsWholeExactly | apps/idp-server/src/modules/audit/audit.repository.ts:243-372 | with one given page limit the pages put together are the filtered rows exactly when each page's cursor keeps the next row in sight, and otherwise some row is on no page |
| AuditPaging.CutLosesExactly | apps/idp-server/src/modules/audit/audit.repository.ts:106-124 | a cut between two neighbours loses the older one exactly when both times read as one millisecond and the older is off it or does not come first by id |
| AuditPaging.PagesAreTheWhole | apps/idp-server/src/modules/audit/audit.repository.ts:243-372 | for every page limit the pages put together are the filtered rows, exactly when each row's cursor keeps the next row in sight |
| AuditPaging.AuditPagesExactly | apps/idp-server/src/modules/audit/audit.repository.ts:243-312 | the same if-and-only-if for audit logs under any filter |
| AuditPaging.DateStampedPagesAreTheWhole | apps/idp-server/src/modules/audit/audit.repository.ts:202-241 | audit logs all stamped by a Date page without loss or repeat |
| AuditPaging.AuditPagesCanLoseRows | apps/idp-server/src/jobs/data-retention.ts:397-407 | a retention run's closing row, stamped inside a millisecond, hides a row createAuditLog stamped with that millisecond |
| AuditPaging.EventPagesCanLoseRows | apps/idp-server/src/modules/audit/audit.repository.ts:314-372 | of two security events within one millisecond, one a page, the older one is on no page exactly when it is off the whole millisecond or does not come first by id |
| AuditPaging.LivePagesExactly | apps/idp-server/src/modules/audit/audit.repository.ts:243-372 | while rows arrive between the queries, but none beyond the cursor of an old one, the pages are the rows that matched at first, exactly under the condition for a table at rest |
| AuditExport.ExportSortSorts | apps/idp-server/src/modules/audit/audit-export.service.ts:100-135 | the export's sort yields an ascending permutation |
| AuditExport.AuditExportService.Collect | apps/idp-server/src/modules/audit/audit-export.service.ts:21-98 | whatever changes between its queries the loop ends with at most 10,000 matching rows in order without repeats; while rows arrive only ahead of its cuts they are the first 10,000 of the first query's table exactly when each 200-row page shows the row after it, else one of those is missing |
| AuditExport.AuditExportService.CreateExport | apps/idp-server/src/modules/audit/audit-export.service.ts:100-135 | ascending matching rows of the tables its kind asks for, none twice, truncated exactly at 10,000; while rows arrive only ahead of the cuts, an export that is not truncated is complete exactly when every page of those tables shows the row after it |
| AuditExport.PastRangeGainsAhead | apps/idp-server/src/modules/audit/audit-export.service.ts:21-98 | rows stamped after the end of the time range are such rows, whatever the export of that range has shown |
| AuditExport.ExportCanMissARow | apps/idp-server/src/modules/audit/audit-export.service.ts:63-98 | 201 security events of one millisecond: no export of them is truncated and each misses one |
| Sessions.SessionRepository.FindByRefreshTokenHash | apps/idp-server/src/modules/sessions/session.repository.ts:64-84 | an unrevoked, unexpired session with this refresh hash whose user exists, or none when there is none |
| Sessions.SessionRepository.RotateTokens | apps/idp-server/src/modules/sessions/session.repository.ts:114-144 | swaps the tokens exactly when the row still has the presented hash and is not revoked |
| Sessions.SessionRepository.RevokeAllByUserId | apps/idp-server/src/modules/sessions/session.repository.ts:209-217 | revokes the user's unrevoked sessions and nothing else |
| Sessions.SessionRepository.MarkAsDeleted | apps/idp-server/src/modules/users/account-deletion.repository.ts:18-50 | moves an active user to deleted and revokes the user's sessions in one step, or does nothing |
| Sessions.RefreshLookup | apps/idp-server/src/modules/auth/auth.service.ts:459-478 | lets through only an unrevoked, unexpired session of an active user; nothing found exactly when no live session has the hash; the one live session with it is let through exactly when its user is active |
| Sessions.RefreshFinish | apps/idp-server/src/modules/auth/auth.service.ts:478-516 | rotates, or revokes the session when the rotation lost |
| Sessions.RunKeepsInv | apps/idp-server/src/modules/auth/auth.service.ts:459-592 | every event keeps hashes unique, revocations final and calls consistent with the table |
| Sessions.OneWinPerHash | apps/idp-server/src/modules/sessions/session.repository.ts:114-144 | under every interleaving each refresh-token hash wins at most once |
| Sessions.ReuseRevokes | apps/idp-server/src/modules/auth/auth.service.ts:459-516 | two calls with one token that both pass the lookup leave that session revoked once both finish |
| Sessions.RevokedNeverRotates | apps/idp-server/src/modules/sessions/session.repository.ts:114-160 | a revoked session stays revoked and never rotates again |
| Sessions.ExpiredRotatesExactly | apps/idp-server/src/modules/sessions/session.repository.ts:64-84 | once its refresh token has expired a session can rotate again exactly if a call let through with that token before is still under way |
| Sessions.CallsProceed | apps/idp-server/src/modules/auth/auth.service.ts:459-592 | every call can begin once at any time and each under way has its next step |
| Sessions.RevokedAuthenticatesExactly | apps/idp-server/src/modules/auth/auth.service.ts:572-592 | a call can still authenticate on a revoked session exactly when it had read the row before |
| Sessions.DeletedNeverRotates | apps/idp-server/src/modules/users/account-deletion.repository.ts:18-50 | no session of a deleted user rotates, not even through calls already let in |
| Sessions.DeletedNeverAuthenticates | apps/idp-server/src/modules/users/account-deletion.repository.ts:18-50 | a call begun after the deletion never authenticates as that user |
| Sessions.IntrospectionAgrees | apps/idp-server/src/modules/auth/auth.service.ts:541-570 | introspection says active exactly where authentication, undisturbed, succeeds |
| SigningKeys.KeyStore.GetCurrentActiveKey | packages/auth-core/src/key-store-service.ts:78-99 | the newest usable active key, or none when there is none |
| SigningKeys.KeyStore.EnsureKeyExists | packages/auth-core/src/key-store-service.ts:101-125 | keeps the current key, or creates the first |
| SigningKeys.KeyStore.RotationTransaction | packages/auth-core/src/key-store-service.ts:127-197 | retires the key that was read and inserts its successor, exactly when that key still is active |
| SigningKeys.KeyStore.GetPublicJwks | packages/auth-core/src/key-store-service.ts:255-281 | makes sure a usable key exists, then lists exactly the unrevoked keys that are active or within grace, the current one among them, active ones first and then by age |
| SigningKeys.KeyStore.ListPublished | packages/auth-core/src/key-store-service.ts:258-274 | each published key once, active ones before the others, older before newer |
| SigningKeys.OneActiveKeyOneChain | packages/auth-core/src/key-store-service.ts:127-223 | every interleaving of rotations keeps one active key, retires each kid at most once, and links all keys in one chain ending at it |
| SigningKeys.CallsProceed | packages/auth-core/src/key-store-service.ts:127-215 | every rotation can begin once at any time and each under way has its next step |
| SigningKeys.PublishedExactly | packages/auth-core/src/key-store-service.ts:135-185 | the active key is published; a retired one exactly until its grace ends, an emergency-retired one never; nothing else is |
| SigningKeys.ListedStates | packages/auth-core/src/key-store-service.ts:225-253 | the active key is listed as active, an emergency-retired one as revoked, every other retired one as grace |
| SigningKeys.OneAtATimeIsFocused | packages/auth-core/src/key-store-service.ts:199-215 | while at most one call is under way, every scheduled commit retires the key whose age its call checked |
| SigningKeys.PublishedBound | packages/auth-core/src/key-store-service.ts:199-215 | scheduled-only runs with at most one call under way publish at most 1 + ceil(grace / interval) keys |
| SigningKeys.TwoBreakTheBound | packages/auth-core/src/key-store-service.ts:199-215 | two overlapping calls at each due instant publish more |
| SigningKeys.BoundHoldsExactly | packages/auth-core/src/key-store-service.ts:199-215 | the bound holds for all scheduled-only runs with at most m calls under way exactly when m is at most one |
| SigningKeys.UndisturbedIsFocused | packages/auth-core/src/key-store-service.ts:199-215 | a scheduled call with no rotation between its two reads retires the key it checked |
| SigningKeys.OverlapIsUnbounded | packages/auth-core/src/key-store-service.ts:199-215 | for every n, overlapping scheduled calls publish more than n keys |
| RateLimiter.Limiter.Consume | apps/idp-server/src/core/rate-limiter.ts:6-30 | counts one hit on the prefixed key, opening a window on the first, and compares with the limit |
| RateLimiter.SlidingBound | apps/idp-server/src/core/rate-limiter.ts:6-30 | for every trace any interval of one window's length allows at most 2L - 1 requests |
| RateLimiter.SlidingBoundIsReached | apps/idp-server/src/core/rate-limiter.ts:6-30 | for every limit of at least 1 and window of at least 2 some trace allows exactly that many |
| RateLimiter.WindowExactly | apps/idp-server/src/core/rate-limiter.ts:13-29 | of n requests within a live window min(n, what is left of the limit) are allowed |
| RateLimiter.FirstAreAllowed | apps/idp-server/src/core/rate-limiter.ts:13-29 | within a live window exactly the first requests are allowed, as many as the limit leaves |
| RateLimiter.FreshWindowExactly | apps/idp-server/src/core/rate-limiter.ts:13-29 | of n requests within a window just opened min(n, L) are allowed |
| RateLimiter.WindowBound | apps/idp-server/src/core/rate-limiter.ts:13-29 | from any request that opens a window until the window closes at most L are allowed |
| RateLimiter.AssessBotRiskForLogin | apps/idp-server/src/modules/auth/auth.service.ts:190-240 | the level and the counters after one login attempt |
| RateLimiter.LevelExactly | apps/idp-server/src/modules/auth/auth.service.ts:190-240 | high exactly when a counter consulted is over the threshold, low exactly when a user agent is there and every counter consulted leaves more than the watermark |
| RateLimiter.CounterNames | apps/idp-server/src/modules/auth/auth.service.ts:205-225 | the keys of the two counters |
| RateLimiter.AssessMovesOneCounter | apps/idp-server/src/modules/auth/auth.service.ts:204-226 | an attempt hits its own IP counter once, no other, and is not rated high only if that counter allows it |
| RateLimiter.BotRiskBound | apps/idp-server/src/modules/auth/auth.service.ts:190-240 | from any store and over every mixed trace at most 2 * threshold - 1 attempts of one IP escape "high" within a window's length |
| RateLimiter.BotRiskPerWindow | apps/idp-server/src/modules/auth/auth.service.ts:190-240 | from any store, counted from any attempt that opens its IP window, at most the threshold escape "high" until the window closes |
| Retention.ProcessIdsInChunks | apps/idp-server/src/jobs/data-retention.ts:35-56 | on a query whose processed rows stop matching the loop ends, handles each matching row once and changes no other; a dry run returns the same count and changes nothing |
| Retention.LoopProcessesEachOnce | apps/idp-server/src/jobs/data-retention.ts:47-55 | whichever chunks the database picks, the total and the resulting table are the same |
| Retention.StuckLoopEndsExactly | apps/idp-server/src/jobs/data-retention.ts:47-55 | a loop whose processed rows match again ends exactly when nothing matches |
| Retention.RepairedPassesEnd | apps/idp-server/src/jobs/data-retention.ts:166-260 | with that test both passes can end and, however they end, handle each of their rows once |
| Retention.FinishedRun | apps/idp-server/src/jobs/data-retention.ts:110-395 | a real run that ends reports the dry run's counts and leaves all events and logs as they were; a session whose user has a hold that has not run out is unchanged, of the others those past the delete cutoff are gone, those past the anonymise cutoff lose IP and user agent, the rest is unchanged |
| Retention.RealRunEndsExactly | apps/idp-server/src/jobs/data-retention.ts:166-260 | a real run ends exactly when every security event and every audit log older than its anonymise cutoff belongs to a user with a hold that has not run out |
| Retention.RetentionJob.AnonymizeSessions | apps/idp-server/src/jobs/data-retention.ts:110-164 | clears IP and user agent of exactly the unheld sessions past the cutoff, after which none matches |
| Retention.RetentionJob.DeleteSessions | apps/idp-server/src/jobs/data-retention.ts:262-305 | deletes exactly the unheld sessions past the cutoff |
| Retention.RetentionJob.DeleteEvents | apps/idp-server/src/jobs/data-retention.ts:307-350 | deletes exactly the unheld events older than the cutoff |
| Retention.RetentionJob.DeleteLogs | apps/idp-server/src/jobs/data-retention.ts:352-395 | deletes exactly the unheld logs older than the cutoff |
| Retention.RetentionJob.AnonymizeEventChunk | apps/idp-server/src/jobs/data-retention.ts:166-193 | one turn anonymises a chunk and leaves the set of matching events as it was |
| Retention.RetentionJob.DryRun | apps/idp-server/src/jobs/data-retention.ts:142-211 | the six counts, with nothing written |
| Retention.DryRunCounts | apps/idp-server/src/jobs/data-retention.ts:58-395 | each count is the number of unheld rows past that cutoff |
| Retention.AnonymousExactly | apps/idp-server/src/jobs/data-retention.ts:166-260 | the rows the repair picks are exactly those that anonymising changes, and what it makes of them |
| Rbac.PermissionsAreGrants | apps/idp-server/src/modules/rbac/rbac.repository.ts:24-59 | a permission key is listed exactly when a role held directly or through a group in context carries it |
| Rbac.UnfilteredIsTheUnion | apps/idp-server/src/modules/rbac/rbac.repository.ts:38-58 | without a context the listing is the union over the user's groups, direct grants included |
| Rbac.FindsTheBest | apps/idp-server/src/modules/rbac/rbac.repository.ts:61-152 | findEntitlement answers exactly when a candidate exists, with one no candidate precedes: user over group over organization, then newest |
| Rbac.BestIsUnique | apps/idp-server/src/modules/rbac/rbac.repository.ts:61-152 | with no two rows equally new that best candidate is the answer, however the database breaks ties |
| Rbac.ResolveAgrees | packages/auth-core/src/auth-service.ts:280-406 | with distinct creation times, intact foreign keys and no expiry between its clock readings, the second implementation resolves every key to the first one's answer |
| Rbac.GetAuthorizationSnapshot | apps/idp-server/src/modules/rbac/rbac.service.ts:47-73 | lists the permissions, and a key with its value exactly when findEntitlement resolves it, at that key's own reading of the clock, and it does not name the prototype |
| Rbac.SnapshotValue | apps/idp-server/src/modules/rbac/rbac.service.ts:47-73 | an entitlement in a snapshot comes from a best row: truth values and objects as they are, anything else wrapped |
| Rbac.GetCoreSnapshot | packages/auth-core/src/auth-service.ts:408-439 | under the premises of ResolveAgrees at every key's own readings, the second implementation's snapshot is one of the first's |
| Rbac.SnapshotIsUnique | apps/idp-server/src/modules/rbac/rbac.service.ts:47-73 | there is one snapshot per tables, user, context and clock readings |
| RbacCache.SameKeyExactly | apps/idp-server/src/modules/rbac/rbac.service.ts:310-351 | two requests share a key exactly when they are of one kind and their parts normalise alike |
| RbacCache.KeyTexts | apps/idp-server/src/modules/rbac/rbac.service.ts:319-351 | the text of each key, part by part |
| RbacCache.PartText | apps/idp-server/src/modules/rbac/rbac.service.ts:310-313 | a part is trimmed, its colons and whitespace become underscores, an absent part is an underscore |
| RbacCache.CleanKeysAreInjective | apps/idp-server/src/modules/rbac/rbac.service.ts:310-351 | on parts with no colon, no whitespace and not "_" the key determines the request, kind included |
| RbacCache.ColonResourceCollides | apps/idp-server/src/modules/rbac/rbac.service.ts:310-332 | a resource "a:b" and a resource "a_b" share their keys |
| RbacCache.PrefixCoversExactly | apps/idp-server/src/modules/rbac/rbac.service.ts:270-293 | a user's prefix covers that kind's keys of exactly the users whose normalised id it begins; the general prefix covers every key |
| RbacCache.RedisRBACCache.Get | apps/idp-server/src/modules/rbac/rbac-cache.ts:26-32 | the stored answer until its time to live is over |
| RbacCache.RedisRBACCache.DeleteByPrefix | apps/idp-server/src/modules/rbac/rbac-cache.ts:38-54 | the loop removes exactly the keys with the prefix |
| RbacCache.RBACService.Check | apps/idp-server/src/modules/rbac/rbac.service.ts:90-268 | a hit returns the cached answer; a miss evaluates and stores for the seconds set for an allowed check, for an entitlement, or for a refusal |
| RbacCache.AuthorizationExactly | apps/idp-server/src/modules/rbac/rbac.service.ts:125-157 | allowed exactly when a role held directly, or through a membership the context admits, carries the permission for the resource and action, for all of the resource, or for everything |
| RbacCache.EntitlementExactly | apps/idp-server/src/modules/rbac/rbac.service.ts:200-268 | not entitled exactly when no row entitles the user; else the answer comes from a best row, with its value unless the quantity is above its limit |
| RbacCache.OutOfReach | apps/idp-server/src/modules/rbac/rbac.service.ts:90-160 | with the cache out of reach a check still answers from the tables and stores nothing |
| RbacCache.RBACService.InvalidateUserCache | apps/idp-server/src/modules/rbac/rbac.service.ts:270-283 | both kinds' entries of the user are gone, nothing else but covered users' |
| RbacCache.RBACService.InvalidateAllCache | apps/idp-server/src/modules/rbac/rbac.service.ts:285-293 | no check can hit afterwards |
| RbacCache.RunKeepsInv | apps/idp-server/src/modules/rbac/rbac.service.ts:90-268 | in every run each entry and each answer goes back to a read of the tables at a recorded step |
| RbacCache.BoundedStaleness | apps/idp-server/src/modules/rbac/rbac.service.ts:90-268 | in every run of clean requests each answer is the uncached answer at an earlier step, and a cached one is younger than its time to live plus the delay from that read to the store |
| RbacCache.StalenessIsReached | apps/idp-server/src/modules/rbac/rbac.service.ts:90-160 | every age below that sum is reached, whatever the tables have become |
| RbacCache.OwnPrefixCoversExactly | apps/idp-server/src/modules/rbac/rbac.service.ts:310-351 | a user's own keys are told by the user's prefix and a colon |
| RbacCache.NothingEarlierServed | apps/idp-server/src/modules/rbac/rbac.service.ts:270-283 | after a drop no entry stored before it is served for that user |
| RbacCache.OldAnswerReturnedExactly | apps/idp-server/src/modules/rbac/rbac.service.ts:270-283 | after a drop in any reachable state an answer read before it can be returned for that user exactly when a check for that user is in flight |
| RbacCache.InFlightCheckRefills | apps/idp-server/src/modules/rbac/rbac.service.ts:125-157 | a check in flight during the change and the drop makes the old answer served after both |
| MfaRecovery.MfaRecoveryRepository.CreateBatch | apps/idp-server/src/modules/mfa/mfa-recovery.repository.ts:18-36 | revokes the user's active codes and inserts the batch exactly when no lookup hash repeats, else leaves all as it was |
| MfaRecovery.MfaRecoveryRepository.FindActiveByLookupHash | apps/idp-server/src/modules/mfa/mfa-recovery.repository.ts:38-55 | an active row with the hash, or none when there is none |
| MfaRecovery.MfaRecoveryRepository.MarkUsed | apps/idp-server/src/modules/mfa/mfa-recovery.repository.ts:57-71 | marks and reports true exactly when the code still is active |
| MfaRecovery.MfaRecoveryRepository.CountActiveByUserId | apps/idp-server/src/modules/mfa/mfa-recovery.repository.ts:87-100 | the number of the user's active codes |
| MfaRecovery.ConsumeLookup | apps/idp-server/src/modules/mfa/mfa-recovery.service.ts:83-98 | passes on an active row of this user that verifies, or rejects |
| MfaRecovery.ReachableStates | apps/idp-server/src/modules/mfa/mfa-recovery.repository.ts:18-100 | over every interleaving each code is accepted at most once, none is used and revoked, the active ones are the unused of the latest batch, and their count is its size less successes |
| MfaRecovery.CallsProceed | apps/idp-server/src/modules/mfa/mfa-recovery.service.ts:83-107 | every call can begin once at any time and each that found a code can mark it |
| MfaRecovery.WinsExactly | apps/idp-server/src/modules/mfa/mfa-recovery.service.ts:100-107 | a call that found a code wins it exactly when it is not yet accepted and its batch still is the latest |
| MfaRecovery.GeneratedCodeIsAccepted | apps/idp-server/src/modules/mfa/mfa-recovery.service.ts:26-36 | a generated code, typed in any case and grouping, is the one found and, undisturbed, accepted while its row is active |
| MfaRecovery.NormalizeUndoesDashes | apps/idp-server/src/modules/mfa/mfa-recovery.service.ts:141-161 | normalising undoes the grouping of any text |
| MfaRecovery.NormalizedCharacter | apps/idp-server/src/modules/mfa/mfa-recovery.service.ts:141-149 | whitespace and dashes go, ASCII small letters become capitals, all else stays |
| MfaRecovery.DashedLength | apps/idp-server/src/modules/mfa/mfa-recovery.service.ts:161 | n characters are shown as n + (n-1)/5 |
| MfaRecovery.ShownCodeFitsExactly | packages/shared/src/schemas/auth.ts:25-31 | of the lengths the environment allows, login takes the code as shown exactly up to 27 |
| MfaRecovery.LoginTakesExactly | packages/shared/src/schemas/auth.ts:25-31 | login takes 20 to 32 letters, digits from 2 to 9, spaces and dashes |
| MfaRecovery.GeneratePlainCode | apps/idp-server/src/modules/mfa/mfa-recovery.service.ts:151-162 | the code is the first n accepted bytes as symbols, grouped; no byte is drawn beyond need |
| MfaRecovery.EachSymbolSevenBytes | apps/idp-server/src/modules/mfa/mfa-recovery.service.ts:151-160 | every symbol comes from exactly seven accepted bytes |
| ClientSecrets.OAuthClientRepository.CreateClient | apps/idp-server/src/modules/oauth-clients/oauth-client.repository.ts:115-184 | inserts the client and its primary secret, or nothing when the id is taken |
| ClientSecrets.OAuthClientRepository.RotateSecret | apps/idp-server/src/modules/oauth-clients/oauth-client.repository.ts:267-320 | demotes the client's unrevoked primary with the grace given and inserts the new primary |
| ClientSecrets.OnePrimaryAlways | apps/idp-server/src/modules/oauth-clients/oauth-client.repository.ts:115-320 | every run keeps exactly one unrevoked primary per client |
| ClientSecrets.RotatedSecretUsableExactly | apps/idp-server/src/modules/oauth-clients/oauth-client.service.ts:174-190 | a replaced secret is never primary again and usable exactly until its grace ends, whatever follows |
| ClientSecrets.AuthenticateClientBasic | apps/idp-server/src/modules/oauth-clients/oauth-client.service.ts:40-84 | accepts exactly when the named active client has a usable secret that verifies, else by the configured pair, else refuses |
| ClientSecrets.VerifyOidcClientSecretMetadata | apps/idp-server/src/core/oidc-provider-adapter.ts:24-50 | yes exactly when the prefix is there and some text item of the decoded array verifies |
| ClientSecrets.VerifyUndoesEncode | apps/idp-server/src/core/oidc-provider-adapter.ts:19-50 | verifying against encoded hashes is verifying against any of them |
| ClientSecrets.PathsAgree | apps/idp-server/src/core/oidc-provider-adapter.ts:60-240 | the provider accepts a secret exactly when the service accepts it from the table and the client's metadata can be built |
| Base64.DecodeEncode | packages/server-sdk/src/index.ts:170-171 | Buffer's base64 reader undoes its printer on every byte sequence |
| Base64.GroupBits | packages/server-sdk/src/index.ts:170-171 | the digits of a group are its bits in sixes, filled up with zeros |
| Base64.SymbolExactly | packages/server-sdk/src/index.ts:170-171 | the symbols of the two tables of RFC 4648 |
| Base64.PaddedToFours | packages/server-sdk/src/index.ts:170-171 | the text has four characters for each group of three bytes begun, filled up with equal signs |
| Base64.UrlText | apps/example-bff/src/session.ts:31-36 | base64Url is the same digits in the URL-safe alphabet, with no padding |
| Base64.UrlRoundTrip | apps/example-bff/src/session.ts:31-45 | base64UrlToBuffer undoes base64Url on every byte sequence, and so does Buffer's own reader |
| Utf8.RoundTrip | apps/example-bff/src/session.ts:74 | UTF-8 decoding undoes encoding on every text |
| Utf8.DecodeCharExactly | apps/example-bff/src/session.ts:74 | a character is read exactly where its encoding stands: no overlong form, stray byte or surrogate |
| Cookies.DecodeEncode | apps/example-bff/src/session.ts:91 | decodeURIComponent undoes encodeURIComponent on every text |
| Cookies.EncodedCharacter | apps/idp-server/src/utils/cookie.ts:11-25 | ASCII letters, digits and nine marks stand for themselves, any other character is its UTF-8 bytes in percents |
| Cookies.PercentText | apps/idp-server/src/utils/cookie.ts:11-25 | each byte is a percent sign and two capital hexadecimal digits |
| Cookies.PercentBytesExactly | apps/example-bff/src/session.ts:91 | n bytes are read exactly when n percent signs stand where they must, two hexadecimal digits of either case behind each |
| Cookies.SerializeCookie | apps/idp-server/src/utils/cookie.ts:11-25 | split at semicolons the printed cookie gives the encoded pair first, then each attribute |
| Cookies.ParseCookies | apps/example-bff/src/session.ts:77-97 | the object the items of the header fill, one by one |
| Cookies.ParseCookieHeader | apps/idp-server/src/adapters/authenticated-endpoint-adapter.ts:16-35 | the object the pairs of the header fill, one by one |
| Cookies.HeaderIsRead | apps/example-bff/src/session.ts:77-97 | from any well-formed header both readers get each name's last value, and no other name |
| Cookies.PrintedCookieIsRead | apps/idp-server/src/adapters/authenticated-endpoint-adapter.ts:16-35 | a printed cookie among any well-formed others is read back by both programs, exactly when not named like the prototype |
| SealedCookie.SealedOpens | apps/example-bff/src/session.ts:50-75 | a sealed value opens to what JSON keeps of it, whatever follows a further dot |
| SealedCookie.UnsealUndoesSealExactly | apps/example-bff/src/session.ts:50-75 | unseal gives the sealed value back exactly when no undefined is in it |
| SealedCookie.OnlySignedTextOpens | apps/example-bff/src/session.ts:55-72 | a text that gets past the signature check carries its own payload's signature |
| SealedCookie.UnsealOutcomes | apps/example-bff/src/session.ts:55-75 | missing without text, invalid without two non-empty parts, refused exactly when the second part is not the signature of the first |
| SealedCookie.SealedCookieSurvives | apps/example-bff/src/session.ts:77-119 | a sealed value set as a cookie and sent back among others opens to the value |
| BasicAuth.BasicRoundTripsExactly | apps/idp-server/src/core/oauth-client-auth.ts:18-44 | reading printed Basic credentials gives them back exactly when the id is not empty and has no colon, for any secret |
| BasicAuth.ReadsExactly | apps/idp-server/src/core/oauth-client-auth.ts:18-44 | without the scheme credentials are missing; else the decoded text is cut at its first colon, which must not come first |

## Left out

- Retention.RetentionJob.AnonymizeEventChunk: one turn only, because the event and audit-log anonymise loops have no decreasing measure; whole loops are the relation `Loop`, and the audit-log pass is treated there alone.
- Rbac.GetCoreSnapshot: equality with the service's snapshot needs no expiry between auth-core's clock readings of one key, distinct creation times and intact foreign keys.
- ClientSecrets.VerifyOidcClientSecretMetadata: the JSON reader refuses a `\u` escape of a lone surrogate, which a text of this model cannot hold.
- Retention: the closing `system.retention.execute` audit row, logging and the job lock; rows written by others during a run.
- RBAC: the several queries of one uncached evaluation are one step; the rollout hash of `shouldUseCache` is a parameter, as are JavaScript's number conversions; glob characters in a cache prefix; `listUsersWithPermissionPrefix`.
- Sessions: time-to-live configuration, audit and security events written along the way, and access-token signing.
- Audit: retention rewriting hashed fields, the advisory lock itself, and the second append in auth-core, which reads the clock before the lock.
- Paging and export: ISO text order is taken as time order and UUID text order as character order, what pages hold of rows that vanish or arrive behind a cut between two queries (beyond order and no repeats), and the serialisation of the exported file.
- Numbers in JSON are their decimal text; an object that repeats a key is read with both entries; lone surrogates and U+FFFD substitution rules for malformed UTF-8 beyond one byte at a time; malformed base64 is read by skipping foreign characters; `toUpperCase` covers ASCII.
- Client secrets: overlapping rotations, the OpenID library's own comparison that runs when the hashed one says no, and a clock read more than once within one authentication.
- Recovery codes: overlapping batch transactions, and how random bytes and batch ids are drawn.
- Bot risk: the watermark is a parameter, so its percentage arithmetic is not modelled.
- HTTP routes, schemas other than the recovery code's length and alphabet, metrics, seeds, e-mail, password, WebAuthn and TOTP flows, account-deletion finalisation, the admin UI and the client SDKs: plumbing or foreign calls.
