# filesyncgo authentication and rate limiting, in Dafny

This project models the request path of the filesyncgo Contao bundle's sync
trigger, and proves properties of the model.

- **Trigger endpoint.** A `POST` to the endpoint must arrive over HTTPS and
  carry an empty body. It needs an `Authorization: Bearer <token>` header whose
  token matches a stored `password_hash`. It then passes a per-token rate limit
  of 24 requests a day, and only after that is the Contao file synchronisation
  started. Each outcome is one of five fixed JSON responses: 400, 401, 429, 200
  or 500.
- **Token side.** The token manager generates the single global token as
  URL-safe base64 of random bytes. It stores only the hash and the last four
  characters, replaces the current (newest) token, and offers lookups, the masked
  display form and the backend form callbacks. A second save callback in the
  DCA layer hashes the value typed into the backend form.
- **Rate limiting.** The repository contains two limiters:
  - the fixed-window counter used by the controller: one row per token holding
    a window start and a count;
  - a rolling-window limiter: one timestamped row per admitted request, with
    admission decided by counting the rows of the last 24 hours.

  Both are modelled, and the difference at the window boundary is proved.

Modules, one file each:

| file | module | models |
|---|---|---|
| `wrappers.dfy` | `Wrappers` | `Option` and `Result` |
| `text.dfy` | `Text` | PHP `trim()` and the character classes of PCRE `\s` |
| `entity.dfy` | `Entity` | the `FilesyncToken` entity |
| `token_repository.dfy` | `TokenRepository` | the token table and `findCurrent` |
| `matching.dfy` | `Matching` | the two scans over stored hashes (last hit, first hit) |
| `verifier.dfy` | `Verifier` | `TokenVerifier`: the bearer regex and the full-scan `verify` |
| `base64.dfy` | `Base64` | `base64_encode` (section 4 of RFC 4648) |
| `manager.dfy` | `Manager` | `TokenManager` |
| `dca.dfy` | `Dca` | `TokenDca::hashToken` |
| `fixed_window.dfy` | `FixedWindow` | `Rate\RateLimiter::consume` |
| `rate_entries.dfy` | `RateEntries` | rate entries and `countRequestsSince` |
| `rolling_window.dfy` | `RollingWindow` | `Service\RateLimiter::allowRequest` |
| `trigger.dfy` | `Trigger` | `TriggerController` |

The environment becomes parameters:

- `password_verify` is a function `matches(plain, hash)` about which nothing is
  assumed. `password_hash` is a function `hash(plain)`.
- `random_bytes` is the byte sequence `bytes`, and the clock is `now`, in
  seconds.
- Container and file-system lookups are fields of `Trigger.SyncEnv`.
- A database error is a boolean `fault`. When it is set, the unit of work is
  rolled back, the state is unchanged, and the error outcome is returned.

Points where the code behaves differently from what one might expect:

- **Which match `verify` keeps.** `verify` keeps the *last* matching row, not
  the first. `Matching.TwoHitsDisagree` shows that this differs from
  `findTokenEntityByPlain`, which returns the first.
- **How a rejection is reported.** A rejected `consume` throws
  `RateLimitExceededException` rather than returning a value. The model gives
  `Consume` the outcome `LimitExceeded`, and the controller maps it to 429.
- **Which limiter the controller uses.** The limit is described as 24 requests
  a day, but the controller uses the fixed-window counter, not a rolling
  window. So a token can be admitted 48 times in a row, 47 of them within two
  seconds (`FixedWindow.FixedWindowBurst`). The rolling limiter keeps every
  inclusive 24-hour span at or below its limit
  (`RollingWindow.AdmissionKeepsWindowBounded`).

## Model

| member | source | states |
|---|---|---|
| `Text.Trim` | src/Service/TokenManager.php:159 | PHP `trim`: the result is empty exactly when every character is one of space, tab, LF, CR, NUL, VT; otherwise it neither starts nor ends with one |
| `Text.TrimIsInfix` | src/Security/TokenVerifier.php:87 | the trimmed string is a contiguous slice of the input with only trim characters before and after it |
| `Text.TrimFixesTrimmed` | src/Security/TokenVerifier.php:87 | a string that neither starts nor ends with a trim character is returned unchanged |
| `Text.Lower` | src/Security/TokenVerifier.php:82 | the `/i` flag folds exactly A–Z onto a–z and leaves every other character alone |
| `Entity.FilesyncToken.constructor` | src/Entity/FilesyncToken.php:32-37 | a new token carries the given hash and last characters (none by default), no id, no update time, and is created at `now` |
| `Entity.FilesyncToken.GetId` | src/Entity/FilesyncToken.php:39-42 | returns the id, None before the row is persisted |
| `Entity.FilesyncToken.GetTokenHash` | src/Entity/FilesyncToken.php:44-47 | returns the stored hash |
| `Entity.FilesyncToken.SetTokenHash` | src/Entity/FilesyncToken.php:49-53 | replaces the hash and stamps the update time; id, last characters and creation time are untouched |
| `Entity.FilesyncToken.GetLastChars` | src/Entity/FilesyncToken.php:55-58 | returns the stored last characters, possibly none |
| `Entity.FilesyncToken.SetLastChars` | src/Entity/FilesyncToken.php:60-64 | replaces the last characters and stamps the update time; id, hash and creation time are untouched |
| `Entity.FilesyncToken.GetCreatedAt` | src/Entity/FilesyncToken.php:66-69 | returns the creation time, which never changes |
| `Entity.FilesyncToken.GetUpdatedAt` | src/Entity/FilesyncToken.php:71-74 | returns the last update time, None if never updated |
| `Entity.IdAsInt` | src/Controller/TriggerController.php:61 | the `(int)` cast of a nullable id: null becomes 0, an id is kept |
| `TokenRepository.TokenStore.FindCurrent` | src/Repository/FilesyncTokenRepository.php:19-26 | null exactly when the table is empty; otherwise a row of the table that no other row postdates |
| `TokenRepository.Newest` | src/Repository/FilesyncTokenRepository.php:21-25 | `ORDER BY createdAt DESC LIMIT 1` on a non-empty table: a member row with the greatest creation time |
| `Matching.LastMatch` | src/Security/TokenVerifier.php:50-65 | the index reported is a non-empty hash that accepts the token |
| `Matching.LastMatchIsLast` | src/Security/TokenVerifier.php:50-65 | no index exactly when no non-empty hash accepts the token, and no later hash accepts it |
| `Matching.EmptyHashNeverMatched` | src/Security/TokenVerifier.php:53-57 | a row with an empty hash is never the verifier's result, whatever `password_verify` does |
| `Matching.FirstMatch` | src/Service/TokenManager.php:113-117 | the index reported has a hash that accepts the token |
| `Matching.FirstMatchIsFirst` | src/Service/TokenManager.php:113-117 | no index exactly when no hash accepts the token, and no earlier hash accepts it |
| `Matching.FirstMatchAt` | src/Service/TokenManager.php:113-117 | the first accepting position is the one reported |
| `Matching.UniqueHitAgrees` | src/Security/TokenVerifier.php:59-62 | with a single accepting row, and the empty hash never accepted, the verifier and the token manager find the same row |
| `Matching.TwoHitsDisagree` | src/Security/TokenVerifier.php:59-62 | with two accepting rows the verifier reports a later row than the token manager |
| `Verifier.BearerCapture` | src/Security/TokenVerifier.php:82 | the `(.+)` group of `/^\s*Bearer\s+(.+)$/i`: a capture is non-empty, shorter than the header and free of newlines, and starts with a non-space character unless it is a single character given back by `\s+`; `CaptureSound` and `CaptureDetermined` pin it exactly |
| `Verifier.CaptureAfterWord` | src/Security/TokenVerifier.php:82 | the `\s+(.+)$` tail after the word: a non-empty, newline-free capture that starts at the first non-space character, or, when the whole tail is whitespace, the single character the greedy `\s+` gives back |
| `Verifier.TailSound` | src/Security/TokenVerifier.php:82 | after the word, a capture is preceded by at least one `\s` and followed by nothing or a single final newline, contains no newline, and the split is the greedy one |
| `Verifier.CaptureSound` | src/Security/TokenVerifier.php:82 | every capture comes from a header of the form `\s*`, "bearer" in any case, `\s+`, the capture, an optional final newline, with the greedy split of `\s+` |
| `Verifier.TailDetermined` | src/Security/TokenVerifier.php:82 | a greedy split of the tail fixes the capture: `CaptureAfterWord` returns exactly that part |
| `Verifier.CaptureDetermined` | src/Security/TokenVerifier.php:82 | the capture is unique: a header of the accepted shape with a greedy split captures exactly that part, so with `CaptureSound` the capture is what PCRE's greedy `\s+` leaves |
| `Verifier.FormFeedBeforeToken` | src/Security/TokenVerifier.php:82-91 | `\f` is `\s` but not a trim character, and the greedy `\s+` consumes it: "Bearer \f x" yields the token "x" |
| `Verifier.FormFeedThenTab` | src/Security/TokenVerifier.php:82-91 | "Bearer \f\t" captures only "\t", which trims to nothing, so no token is verified |
| `Verifier.TailComplete` | src/Security/TokenVerifier.php:82 | every tail of that form yields a capture |
| `Verifier.CaptureComplete` | src/Security/TokenVerifier.php:82 | every header of that form matches the pattern |
| `Verifier.ParseBearer` | src/Security/TokenVerifier.php:82-91 | the bearer token is the trimmed capture; none exactly when the header does not match or the capture trims to nothing |
| `Verifier.Verified` | src/Security/TokenVerifier.php:34-73 | what `verify` returns: null for an empty table; a non-null result is a stored row with a non-empty hash that accepts the token |
| `Verifier.RequestVerified` | src/Security/TokenVerifier.php:79-94 | what `verifyRequest` returns: a non-null result is a stored row with a non-empty hash that accepts the bearer token the header carries |
| `Verifier.VerifiedNullIffNoHit` | src/Security/TokenVerifier.php:34-73 | `verify` returns null exactly when no row with a non-empty hash accepts the token |
| `Verifier.Verify` | src/Security/TokenVerifier.php:34-73 | returns the last accepting row; makes one `password_verify` call per row, against the dummy hash for a row without a hash, and none for an empty table |
| `Verifier.VerifyRequest` | src/Security/TokenVerifier.php:79-94 | a malformed header or a blank token gives null without any comparison; otherwise the trimmed token is verified against every row, one recorded comparison per row |
| `Base64.Alpha` | src/Service/TokenManager.php:205 | every 6-bit value maps into the standard alphabet |
| `Base64.Quad` | src/Service/TokenManager.php:205 | three bytes encode to four characters of the standard alphabet |
| `Base64.Encode` | src/Service/TokenManager.php:205 | `base64_encode` output has 4·ceil(n/3) characters |
| `Base64.EncodeSplit` | src/Service/TokenManager.php:205 | the encoding is exactly `DataLength(n)` alphabet characters followed by at most two '=', and padding only after data |
| `Manager.ClampLength` | src/Service/TokenManager.php:71-73 | a length in [8, 32] is kept; any other becomes 32 |
| `Manager.ByteCount` | src/Service/TokenManager.php:204 | the number of random bytes is ceil(3·length/4) |
| `Manager.UrlSafe` | src/Service/TokenManager.php:205 | `strtr` maps '+' to '-' and '/' to '_', keeps the rest, and sends the standard alphabet into the URL-safe one |
| `Manager.Translate` | src/Service/TokenManager.php:205 | `strtr` works character by character and keeps the length |
| `Manager.TrimPadding` | src/Service/TokenManager.php:205 | `rtrim '='` returns a prefix that does not end in '=' |
| `Manager.TrimPaddingDropsPad` | src/Service/TokenManager.php:205 | `rtrim '='` removes exactly the '=' run after the data |
| `Manager.Prefix` | src/Service/TokenManager.php:206 | `substr(s, 0, n)` is the first n characters, or all of them when fewer |
| `Manager.DataLengthCovers` | src/Service/TokenManager.php:204-206 | ceil(3L/4) bytes always yield at least L data characters, so the cut never comes up short |
| `Manager.UrlSafeRandom` | src/Service/TokenManager.php:202-207 | `generateUrlSafeRandom`: never longer than asked; with the ceil(3L/4) bytes it draws, exactly L characters, all URL-safe |
| `Manager.EncodedPrefixShape` | src/Service/TokenManager.php:204-206 | encoding ceil(3L/4) bytes, translating, stripping '=' and cutting at L leaves exactly L URL-safe characters |
| `Manager.LastChars` | src/Service/TokenManager.php:79 | `mb_substr(s, -4)`: the last four characters, or the whole string when shorter |
| `Manager.Without` | src/Service/TokenManager.php:82-86 | removing a row keeps every other row and drops that one |
| `Manager.GenerateToken` | src/Service/TokenManager.php:67-93 | the length defaults to 32; returns a URL-safe token of the clamped length; only the current (newest) row is deleted and one new row holds the token's hash and last four characters; a table of at most one row ends with exactly one |
| `Manager.RotatedTokenVerifies` | src/Service/TokenManager.php:88-92 | when `password_verify` accepts what `password_hash` produced, the verifier returns the newly stored row for the returned token |
| `Manager.FindTokenEntityByPlain` | src/Service/TokenManager.php:108-120 | returns the first row whose hash accepts the token, null exactly when none does |
| `Manager.VerifyToken` | src/Service/TokenManager.php:98-102 | true exactly when some stored hash accepts the token |
| `Manager.MaskedToken` | src/Service/TokenManager.php:125-136 | none exactly when the table is empty; otherwise "xxxx..." followed by the current row's last characters, or "****" |
| `Manager.MaskAfterGenerate` | src/Service/TokenManager.php:78-79 | after generation the masked form ends with the token's last four characters |
| `Manager.SaveTokenCallback` | src/Service/TokenManager.php:156-176 | a value that trims to nothing clears the field; a trimmed value over 32 characters is refused; otherwise its hash is stored |
| `Manager.LoadTokenCallback` | src/Service/TokenManager.php:188-192 | the form always shows an empty field |
| `Dca.HasId` | src/Dca/TokenDca.php:31 | `!empty($dc->id)`: the record has an id exactly when the id cast to int is non-zero |
| `Dca.HashToken` | src/Dca/TokenDca.php:25-60 | a blank value keeps the stored hash of an existing record and is refused for a new one; a value over 32 characters is refused; a hashing failure is an error; otherwise the hash of the value as typed |
| `Dca.PaddedValueDiverges` | src/Dca/TokenDca.php:45-47 | a 31-character token typed with a space on each side is refused here but hashed, trimmed, by the settings callback |
| `FixedWindow.ConsumeStep` | src/Rate/RateLimiter.php:48-94 | admits exactly when there is no row, the window has expired, or the count is under 24; a reject leaves the row; an admit leaves a live window stamped `now`; a count in [1, 24] stays there |
| `FixedWindow.RateLimiter.constructor` | src/Rate/RateLimiter.php:18-22 | the limiter's starting state in the model: no window rows |
| `FixedWindow.RateLimiter.Consume` | src/Rate/RateLimiter.php:36-106 | create, reset, reject or increment as the branches say; a database error rolls back; other tokens' rows never change; valid counts stay valid |
| `FixedWindow.Run` | src/Rate/RateLimiter.php:36-106 | one decision per call |
| `FixedWindow.RunKeepsRowValid` | src/Rate/RateLimiter.php:36-106 | any sequence of calls keeps the count between 1 and 24 |
| `FixedWindow.LiveWindowRun` | src/Rate/RateLimiter.php:79-94 | inside one window calls are admitted exactly while the count is under 24, and the window start stays put |
| `FixedWindow.FirstTwentyFourAdmitted` | src/Rate/RateLimiter.php:48-94 | for a new token, within a window of the first call, exactly the first 24 calls are admitted |
| `FixedWindow.RunAppend` | src/Rate/RateLimiter.php:36-106 | running two batches of calls equals running them one after the other |
| `FixedWindow.FixedWindowBurst` | src/Rate/RateLimiter.php:66-77 | 48 calls, 47 of them within two seconds across the reset, are all admitted |
| `RateEntries.CountRequestsSince` | src/Repository/FilesyncRateEntryRepository.php:21-33 | the count never exceeds the number of entries |
| `RateEntries.CountIsFilteredSize` | src/Repository/FilesyncRateEntryRepository.php:25-26 | the count is the number of entries of this token made at or after `since` |
| `RateEntries.CountAppend` | src/Repository/FilesyncRateEntryRepository.php:25-26 | a new entry adds one exactly when it has this token and is not before `since` |
| `RateEntries.OtherTokensNotCounted` | src/Repository/FilesyncRateEntryRepository.php:25 | entries of other tokens never count |
| `RateEntries.CountAntitoneInSince` | src/Repository/FilesyncRateEntryRepository.php:26 | a later `since` never gives a larger count |
| `RollingWindow.RateLimiter.constructor` | src/Service/RateLimiter.php:18-23 | the limit defaults to 24; the model starts from an empty entry table, which satisfies the 24-hour bound for any non-negative limit |
| `RollingWindow.RateLimiter.AllowRequest` | src/Service/RateLimiter.php:29-60 | counts from the clock read before the transaction and refuses at `limit` entries; otherwise appends one entry stamped by the second clock reading; a database error changes nothing; existing entries are never altered; the 24-hour bound is preserved when the stamp is not earlier than the first reading |
| `RollingWindow.BetweenAtMostSince` | src/Service/RateLimiter.php:41 | the count from an earlier instant bounds the count of any later span |
| `RollingWindow.AdmissionKeepsWindowBounded` | src/Service/RateLimiter.php:31-53 | an admission stamped no earlier than the instant the count was taken never puts more than `limit` entries of one token in any inclusive 24-hour span, whatever the earlier entries' stamps |
| `RollingWindow.EarlyStampBreaksBound` | src/Service/RateLimiter.php:31-48 | the stamp condition is needed: an entry stamped before the counting instant can be admitted and exceed the limit in a 24-hour span |
| `RollingWindow.BoundaryContrast` | src/Service/RateLimiter.php:31 | an entry exactly 24 hours old still counts, so a token that used its quota at t0 is refused at t0 + 86400, when the fixed window (src/Rate/RateLimiter.php:66) already admits |
| `Trigger.ConsoleCandidates` | src/Controller/TriggerController.php:105-108 | two console locations, vendor/bin/contao-console first |
| `Trigger.FindConsole` | src/Controller/TriggerController.php:110-116 | the first executable candidate, none exactly when no candidate is executable |
| `Trigger.RunCliSync` | src/Controller/TriggerController.php:101-132 | succeeds exactly when the preferred executable console runs `contao:files:sync` successfully |
| `Trigger.Synchronize` | src/Controller/TriggerController.php:71-90 | `synchronize` is preferred to `sync`; any other case falls back to the CLI; succeeds exactly when the chosen route does |
| `Trigger.CheckToken` | src/Controller/TriggerController.php:54-59 | `verifyRequest`: a verified token, or 401 for a malformed header or no match, 500 when reading the table fails; records the token handed to `verify` and one comparison per row |
| `Trigger.Authenticate` | src/Controller/TriggerController.php:41-59 | HTTPS, then an empty body (400 either way, with no verification at all), then the token check |
| `Trigger.Trigger` | src/Controller/TriggerController.php:38-99 | guards in order: 400, 401, 500 on a store error, 401, then the fixed-window decision (429, or 500 on its error). `consume` is called exactly for authenticated requests and the limiter is untouched otherwise. The sync is started exactly when `consume` admits, and an admitted slot stays consumed even when the sync fails (500). No verification happens for a 400. The response is always one of the five fixed bodies |

## Left out

- `password_hash`, `password_verify` and `random_bytes` are parameters. Nothing is assumed about them except, where stated, that a produced hash is non-empty and accepted by `password_verify` (`Manager.SoundHash`).
- PHP strings are bytes, and the model's strings are characters. `mb_strlen` and `mb_substr` (src/Service/TokenManager.php:79, :167; src/Dca/TokenDca.php:45) count UTF-8 characters, which the model's lengths and slices match. `trim` and the `/i` pattern without `/u` work on bytes. Every character they treat specially is ASCII, so the model agrees with PHP on valid UTF-8; invalid byte sequences are not modelled.
- Constant-time behaviour is not a property Dafny can state. `Verifier.Verify` records instead which hash each of its `password_verify` calls compares, one per row.
- The dummy hash of `verify` is created only for a non-empty table. In the model it is a parameter, and it is unused for an empty table.
- Transactions, row locks and concurrency are not modelled. Each `consume` and `allowRequest` call is one atomic step on the model state. `allowRequest` reads the clock twice: once before its transaction and lock (`now`) and once when the entry is built (`stampedAt`). The model keeps both readings but does not relate them; the 24-hour bound is promised only when the second is not earlier than the first (`RollingWindow.EarlyStampBreaksBound`).
- `FixedWindow.RateLimiter`: the model keeps at most one window row per token id (`map<int, Row>`). The table only has a plain, non-unique index on `token_id` (Resources/contao/dca/tl_filesync_rate_entries.php:13). A second row, from two concurrent first calls or from the backend, is not modelled, nor is which row `fetchAssociative` then returns.
- Logging is not modelled. No log message affects a result.
- Timestamps are whole seconds. The `-24 hours` of `allowRequest` is modelled as 86400 seconds, so daylight-saving transitions are not modelled.
- `TokenRepository.TokenStore.FindCurrent` breaks ties in creation time by table order. The SQL query leaves that order unspecified.
- `ensureDependencies` and the constructors that take services are container wiring, and are not modelled.
- `rotateToken` only calls `generateToken`, which is modelled. `verifyPlainToken` only calls `password_verify`, which is a parameter.
- `Manager.GenerateToken` assigns the new row's id from a counter. The database's auto-increment and the separate flushes of delete and insert are not modelled.
- The cascade delete of a token's rate entries is not modelled. `RateEntries` keeps entries of deleted tokens, which `countRequestsSince` never reads for a live token.
- The `escapeshellcmd` command line and the 300-second process timeout of `runCliSync` are not modelled. The outcome of a console run is the parameter `runs`.
- The DCA and migration files are not part of this model. They declare the schema and the backend form; their one bearing on the model is the non-unique `token_id` index noted above.
- `Dca.HashToken`: the SELECT for the stored hash is the parameter `storedHash`. A missing row reads as the empty string, as `(string) null` does.
- `Trigger.Trigger`: a store failure is modelled only where `verify` would read the table, after a well-formed bearer token.
