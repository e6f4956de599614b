# qr-generator short-link core in Dafny

This project models the three serverless handlers of the qr-generator
service, together with the short-link table they share:

- **redirect** resolves `/go/<code>`, `/s/<code>`, … or the last path
  segment to a stored URL. It answers with a plain 302, or with an
  interstitial page inside WeChat. It logs the scan and switches off a link
  it finds past its expiry. Every failure is the same 404 page.
- **create-qr** accepts `POST {originalUrl, expiresInMinutes}`. It first
  sweeps expired rows. It then draws random 8-character codes, at most ten
  times, until one is not in use. The row is named `QR-<n+1>` after the
  newest row, inserted, and the public URL `<proto>://<host>/r/<code>` is
  returned.
- **manage-qr** sweeps, then answers GET with the live rows newest first.
  DELETE switches off every row carrying the given code.

## How the model is built

- **The table.** The `qr_codes` and `scan_logs` tables form a value
  `QrStore.Store`. A row's `id` is its position.
- **Handlers.** Each handler is a pure function from a store and a request
  to an `Http.Outcome`: the response plus the store it leaves behind.
- **Inputs from outside.** The clock (`now`, in milliseconds) and the
  `Math.random()` stream (`draws`) are parameters. So is the outcome of each
  database call the code checks (`lookupFails`, `insertFails`,
  `queryFails`, and `ScanWrite` for the two un-awaited scan writes).
- **JavaScript helpers.** The parts of JavaScript the handlers depend on are
  written out in `Text`. These are `parseInt` without a radix (white space,
  sign, `0x` prefix, NaN), `split`, `padStart`, `Number#toString`,
  `substring(0, n)` and lower-casing for the `includes` test.
- **Random draws.** Attempt `k` of the code allocator uses draws
  `8k … 8k+7`, and character `i` is `chars[floor(x * 62)]`.
- **`.single()`.** It returns a row only when exactly one row matches, as
  PostgREST does. Zero rows or several rows give no data.

Files:

| file | module | contents |
|---|---|---|
| options.dfy | Options | `Option` |
| text.dfy | Text | character classes, search, `split`/`join`, decimal numerals, `parseInt` |
| store.dfy | QrStore | rows, scan logs, the well-formedness invariant, `.single()`, the sweep, soft delete, count update |
| http.dfy | Http | responses and bodies |
| redirect.dfy | Redirect | `extractShortCode`, `isWeChatEnvironment`, `createWeChatFriendlyRedirect`, `logScan`, the redirect handler |
| create_qr.dfy | CreateQr | `generateShortCode`, the allocation loop, `getNextName`, the create handler |
| manage_qr.dfy | ManageQr | the listing filter and order, the manage handler |
| lifecycle.dfy | Lifecycle | properties spanning handlers: invariant preservation, round trip, delete, expiry, scan counting |

## Model

| member | source | states |
|---|---|---|
| Redirect.ExtractShortCode | qr-generator/netlify/functions/redirect.js:10-34 | The capture of the first pattern in list order that matches anywhere in the path, even when a later pattern matches earlier in the path. With no pattern matching, the last non-empty segment. A code, when found, is never empty. |
| Redirect.MatchPattern | qr-generator/netlify/functions/redirect.js:12-27 | `path.match(/\/p\/([a-zA-Z0-9]+)/)`. `None` exactly when the prefix followed by an alphanumeric never occurs. Otherwise the capture is the maximal alphanumeric run right after the leftmost such occurrence. |
| Redirect.LastSegment | qr-generator/netlify/functions/redirect.js:31-33 | `None` exactly when the path is all '/'. Otherwise a non-empty '/'-free segment that follows a '/' or starts the path, with only '/' after it. |
| Redirect.LastSegmentIsLastSplitPiece | qr-generator/netlify/functions/redirect.js:32-33 | The last-segment function equals the source's literal recipe for every path: the last element of `split('/')` after dropping empty strings. |
| Redirect.IsWeChatEnvironment | qr-generator/netlify/functions/redirect.js:37-39 | True exactly when the user agent is non-empty and "micromessenger" occurs in it, ignoring case. |
| Text.Contains | qr-generator/netlify/functions/redirect.js:38 | `includes`: true exactly when the needle occurs at some position. |
| Text.Lower | qr-generator/netlify/functions/redirect.js:38 | Same length; each letter A–Z is mapped to its lower case and every other character is kept. |
| Redirect.CreateWeChatFriendlyRedirect | qr-generator/netlify/functions/redirect.js:42-178 | Inside WeChat: a 200 HTML interstitial for the URL, with the frame and sniffing headers and no Location. Elsewhere: a 302 with Location set to the URL and no body. Both carry the three no-cache headers. |
| Redirect.ScanEntry | qr-generator/netlify/functions/redirect.js:292-298 | The log row references the scanned row. Its user agent is the first `min(500, length)` characters of the request's, and its IP the first `min(100, length)` characters of the client address. Its `is_wechat` value is the empty string when the user agent is empty and the WeChat test otherwise, as `userAgent && …` evaluates. Its timestamp is now. |
| Redirect.LogScan | qr-generator/netlify/functions/redirect.js:289-313 | One log row is appended exactly when the insert lands. The scanned row's count becomes the count read at lookup plus one, with `lastScannedAt = now`, exactly when the update lands. No other row changes, whatever the combination of the two writes. |
| Redirect.RequestPath | qr-generator/netlify/functions/redirect.js:234 | The path when it is non-empty, otherwise the raw URL. The result is empty only when both are. |
| Redirect.ClientIp | qr-generator/netlify/functions/redirect.js:236 | `x-forwarded-for` when it is non-empty, otherwise `x-bb-ip`. The result is empty only when both are. |
| Redirect.Lookup | qr-generator/netlify/functions/redirect.js:240-265 | A row is found exactly when a code is extracted, the query does not fail and `.single()` finds the code. The found row carries the extracted code and is the only row that does. |
| Redirect.Resolve | qr-generator/netlify/functions/redirect.js:233-329 | The answer is the 404 page exactly when no row is found, or the row is inactive, or `now` is past its expiry. Every such failure gives the identical response. A live row gets the WeChat-aware redirect to its URL, and the store gains the scan writes. An active but expired row is switched off. Every other case leaves the store unchanged. |
| QrStore.Single | qr-generator/netlify/functions/redirect.js:252-256 | `.single()`: a row with the code that is the only such row, or nothing, in which case there are either none or at least two. |
| QrStore.SingleFindsPresentCode | qr-generator/netlify/functions/redirect.js:252-256 | Under unique codes, the lookup finds exactly the row holding the code. |
| QrStore.SingleIgnoresOtherFields | qr-generator/netlify/functions/create-qr.js:84-88 | The lookup depends only on the short codes of the rows. |
| QrStore.DeactivateId | qr-generator/netlify/functions/redirect.js:273-278 | Rows with that id become inactive. Every other row and every other field is unchanged. |
| QrStore.SetScanCount | qr-generator/netlify/functions/redirect.js:301-307 | Rows with that id get the given count and `lastScannedAt = now`. Nothing else changes. |
| QrStore.Sweep | qr-generator/netlify/functions/create-qr.js:37-43 | Each row stays active exactly when it was active and has not expired strictly before now. All other fields and the logs are unchanged. |
| QrStore.SweepLeavesNoStaleActive | qr-generator/netlify/functions/manage-qr.js:10-16 | After a sweep no active row has expired before now. |
| QrStore.SweepIdempotent | qr-generator/netlify/functions/create-qr.js:37-43 | Sweeping twice at the same instant equals sweeping once. |
| QrStore.SweepsCompose | qr-generator/netlify/functions/manage-qr.js:10-16 | Two sweeps equal one sweep at the later of the two times. |
| QrStore.SoftDelete | qr-generator/netlify/functions/manage-qr.js:64-67 | Rows with the code become inactive. Nothing else changes, and no row is removed. |
| QrStore.SoftDeleteIdempotent | qr-generator/netlify/functions/manage-qr.js:64-67 | Deleting a code twice equals deleting it once. |
| QrStore.Newest | qr-generator/netlify/functions/create-qr.js:21-25 | `order('created_at', desc).limit(1)`: nothing exactly for an empty table. Otherwise a row of the table created no earlier than any other. |
| CreateQr.GenerateShortCode | qr-generator/netlify/functions/create-qr.js:10-17 | Exactly eight characters, each from the 62-symbol alphabet. |
| CreateQr.EveryCodeIsGenerable | qr-generator/netlify/functions/create-qr.js:10-17 | Every eight-character alphanumeric string is produced by some sequence of `Math.random()` values. |
| CreateQr.AlphabetIndex | qr-generator/netlify/functions/create-qr.js:11 | Every alphanumeric character has a position in the alphabet string, and the character at that position is the character itself. |
| CreateQr.FirstFree | qr-generator/netlify/functions/create-qr.js:82-92 | The loop stops at the first free attempt: every earlier attempt was taken, and the stop is either free or past the last attempt. |
| CreateQr.Allocate | qr-generator/netlify/functions/create-qr.js:77-100 | Between 1 and 10 checks. Success returns the last candidate tried, which is not in use, and every earlier candidate was in use. Failure means all ten candidates were in use. |
| CreateQr.EmptyTableAllocatesFirstCandidate | qr-generator/netlify/functions/create-qr.js:82-92 | On an empty table the first code drawn is taken after one check. |
| CreateQr.AllocatedCodeIsFresh | qr-generator/netlify/functions/create-qr.js:84-90 | Under unique codes, an allocated code occurs in no row. |
| CreateQr.AllocateDependsOnCodes | qr-generator/netlify/functions/create-qr.js:84-88 | The allocation depends only on the rows' short codes. |
| CreateQr.AllocateIgnoresSweep | qr-generator/netlify/functions/create-qr.js:65-92 | The sweep that runs first does not change what the allocator finds. |
| CreateQr.NextName | qr-generator/netlify/functions/create-qr.js:20-34 | "QR-001" for an empty table. Otherwise "QR-" followed by at least three digits whose value is the newest name's number plus one. A numeral longer than three digits has no leading zero, so the padding is exactly to three digits. |
| CreateQr.NameNumberIsNatural | qr-generator/netlify/functions/create-qr.js:31 | The number read from a name is never negative, because the second '-' field holds no '-'. |
| CreateQr.NameNumberOfNameAfter | qr-generator/netlify/functions/create-qr.js:31-33 | A written name reads back as its number, whatever the number of digits. |
| CreateQr.NextNameCountsUp | qr-generator/netlify/functions/create-qr.js:20-34 | The next name reads back as 1 on an empty table, and otherwise as the newest name's number plus one. |
| CreateQr.NextNameAfter999 | qr-generator/netlify/functions/create-qr.js:32-33 | "QR-999" is followed by "QR-1000": no wrap-around or truncation. |
| CreateQr.NextNameWithoutNumber | qr-generator/netlify/functions/create-qr.js:31 | Any newest name without '-' restarts the sequence at "QR-001". |
| CreateQr.QrUrl | qr-generator/netlify/functions/create-qr.js:104-134 | The URL is the protocol, `://`, the host and `/r/<code>`, and nothing else: its length is exactly the sum of theirs. A missing `x-forwarded-proto` alone gives a URL starting `https://`. A missing `host` alone puts `localhost` right before `/r/<code>`. A present header appears verbatim in its place. With neither header it is `https://localhost/r/<code>`. |
| Lifecycle.QrUrlLeadsBack | qr-generator/netlify/functions/create-qr.js:134 | Whatever the headers, the path at the end of the handed-out URL is `/r/<code>`, and the redirect handler extracts exactly that code from it. |
| CreateQr.InsertCode | qr-generator/netlify/functions/create-qr.js:102-135 | The answer is 200 exactly when the expiry is a valid date and the insert lands. A 200 appends exactly one row with the code, URL, next name, creation time, expiry time, active flag and zero count, and answers with its code, name, expiry and URL. An unrepresentable expiry answers 500 "Internal server error", and a failed insert 500 "Database error"; both leave the store unchanged. |
| CreateQr.Insert | qr-generator/netlify/functions/create-qr.js:94-135 | Failed allocation gives 500 "Unable to generate unique short code" with no insert. An allocated code with a valid expiry and a landing insert gives 200; otherwise the expiry and insert failures give their two 500 messages. A row is added exactly when the answer is 200, and it carries the allocated code. |
| CreateQr.Post | qr-generator/netlify/functions/create-qr.js:67-75 | 400 "Missing required fields" exactly for a parsed body with an empty URL or zero minutes. An unparsable body gives 500. A valid body goes on to the insert. |
| CreateQr.Create | qr-generator/netlify/functions/create-qr.js:45-144 | OPTIONS gives 200 and other non-POST methods give 405, both without touching the store. A POST sweeps first and inserts at most one row, exactly when the answer is 200. The 400 case comes before any allocation. A valid POST answers 200 whenever a code is free, `now + minutes * 60000` is a valid date and the insert lands. A created row carries the allocated code, the URL and that expiry, and the answer carries the public URL. Exhausted allocation, an invalid expiry date, an insert failure or an unparsable body give their 500 answers, with the sweep as the only change. |
| ManageQr.FilterListed | qr-generator/netlify/functions/manage-qr.js:37-38 | Keeps exactly the active rows with `expiresAt >= now`, each as often as it is stored. |
| ManageQr.InsertByCreation | qr-generator/netlify/functions/manage-qr.js:39 | Inserting into a newest-first list keeps it newest first and adds exactly the one row. |
| ManageQr.SortNewestFirst | qr-generator/netlify/functions/manage-qr.js:39 | A newest-first permutation of its input. |
| ManageQr.ListActive | qr-generator/netlify/functions/manage-qr.js:34-48 | Newest first. It contains exactly the listed rows, each as often as stored. |
| ManageQr.ListingAfterSweepIsActiveRows | qr-generator/netlify/functions/manage-qr.js:30-39 | When the sweep and the filter read the same clock value, the listing contains exactly the active rows: the expiry filter adds nothing. |
| ManageQr.ListingAfterEarlierSweep | qr-generator/netlify/functions/manage-qr.js:11-39 | With the sweep at one clock reading and the filter at a later one, a row is listed exactly when it was active before the sweep and has not expired by the later reading. A row that expires in between stays active in the table but is not listed. |
| ManageQr.Manage | qr-generator/netlify/functions/manage-qr.js:18-93 | OPTIONS gives 200 and leaves the store alone. Everything else sweeps first. GET lists. A method other than GET or DELETE gives 405. A DELETE with an empty code gives 400. A successful DELETE soft-deletes the code. A failed list or update query and an unparsable DELETE body give 500, and nothing else does. |
| Text.Split | qr-generator/netlify/functions/create-qr.js:31 | At least one piece, and no piece contains the separator. |
| Text.JoinSplit | qr-generator/netlify/functions/create-qr.js:31 | Joining the pieces of `split` with the separator gives back the text. |
| Text.PadStart | qr-generator/netlify/functions/create-qr.js:32 | The result is the fill character repeated, then the text, with length `max(width, |s|)`. |
| Text.DecimalValueOfDecimalString | qr-generator/netlify/functions/create-qr.js:32 | `toString` of a natural number reads back as that number. |
| Text.ParseIntOfPaddedDecimal | qr-generator/netlify/functions/create-qr.js:31-32 | `parseInt` reads back any zero-padded `toString` of a natural number. |
| Text.ParseInt | qr-generator/netlify/functions/create-qr.js:31 | Text without any digit is NaN. A negative result needs a '-' in the text. A non-empty string of digits reads as its decimal value. |
| Text.ParseIntOfLeadingInteger | qr-generator/netlify/functions/create-qr.js:31 | `parseInt` reads the leading integer: an optional '-' and the digits up to the first non-digit, whatever follows ("12a" reads as 12). The exception is a lone "0" before an 'x', which starts a hexadecimal prefix. |
| Text.ParseIntOfHex | qr-generator/netlify/functions/create-qr.js:31 | After "0x", `parseInt` reads the hexadecimal digits up to the first other character, in base 16. |
| Text.ParseIntSkipsWhitespace | qr-generator/netlify/functions/create-qr.js:31 | Leading ECMAScript white space and line terminators do not change the result. |
| Text.ParseIntWithoutMinus | qr-generator/netlify/functions/create-qr.js:31 | `parseInt` of text without '-' is never negative. |
| Text.Truncate | qr-generator/netlify/functions/redirect.js:294-295 | `substring(0, n)`: the longest prefix of length at most n. |
| Lifecycle.ResolvePreservesWellFormed | qr-generator/netlify/functions/redirect.js:233-329 | A resolution keeps codes unique, ids equal to positions and logs pointing at rows. It only appends logs, never reactivates a row and never lowers a count. |
| Lifecycle.CreatePreservesWellFormed | qr-generator/netlify/functions/create-qr.js:45-144 | A creation keeps the invariant and only appends one row with a fresh code. |
| Lifecycle.ManagePreservesWellFormed | qr-generator/netlify/functions/manage-qr.js:18-93 | A management call keeps the invariant and only switches rows off. |
| Lifecycle.RunPreservesWellFormed | qr-generator/netlify/functions/redirect.js:233-329 | After any sequence of requests to this handler, the create handler and the manage handler the invariant holds. No row is ever removed, re-identified or reactivated, and no count decreases. |
| Lifecycle.ExtractShortCodeOfRoutePath | qr-generator/netlify/functions/create-qr.js:134 | The path `/r/<code>` of a handed-out URL extracts back to exactly that code. |
| Lifecycle.CreateThenResolve | qr-generator/netlify/functions/create-qr.js:127-135 | After a 200 from create, resolving `/r/<code>` at any time up to the expiry answers with the submitted URL: a 302 outside WeChat, an interstitial inside it. |
| Lifecycle.DeleteThenResolve | qr-generator/netlify/functions/manage-qr.js:64-77 | After a successful DELETE of a code, every request for that code gets the 404 page, even before expiry, and nothing is written. |
| Lifecycle.ExpiredLinkIsDeactivated | qr-generator/netlify/functions/redirect.js:267-286 | A found row past its expiry gets the 404 page and is left inactive. |
| Lifecycle.ExpiryBoundary | qr-generator/netlify/functions/redirect.js:271 | At `now == expiresAt` the sweep keeps the row, the listing shows it and the redirect follows it. One millisecond later all three treat it as expired. |
| Lifecycle.ResolutionLogsOneScan | qr-generator/netlify/functions/redirect.js:289-316 | A successful resolution whose writes land appends exactly one log row for that row, holding the first 500 characters of the user agent and the first 100 of the address, and adds one to its count with `lastScannedAt = now`. Its `is_wechat` is the empty string for an empty user agent and the WeChat test otherwise. No other row changes. |
| Lifecycle.ScansAreCounted | qr-generator/netlify/functions/redirect.js:289-319 | N successful resolutions of a live link add N to its count and N log rows. They leave the last time as its last scan, and the link stays active and findable. |

## Left out

- The Supabase client, the network and exceptions thrown by it: each database call the code checks is a boolean parameter of the handler.
- The HTML of the interstitial and 404 pages and `console` logging: bodies are tags that carry the data placed in them.
- The sweep and lazy-deactivation writes are assumed to land: the code ignores their results.
- A failed existence check during allocation, which the code treats as "free": the check always reads the table.
- A failed name query in `getNextName`, which falls back to "QR-001" like an empty table: the name is always read from the table.
- Each handler takes one clock value `now`. The source calls `new Date()` separately, and awaited database round trips lie between the calls. The manage filter (manage-qr.js:38) runs after the awaited sweep (manage-qr.js:11-15). The create expiry (create-qr.js:103) runs after the sweep (`cleanupExpired` at create-qr.js:37-43, called at create-qr.js:65), up to ten existence checks and the name query. The scan timestamps (redirect.js:297, 305) come after the lookup. A row can expire between two readings; `ManageQr.ListingAfterEarlierSweep` states the listing for two separate readings, and the handlers themselves use one.
- Whether the database accepts the empty string for the boolean `is_wechat` column: the row carries the value the code sends, and the insert's outcome is the `ScanWrite` parameter.
- Floating point in `generateShortCode`: `Math.random()` values are exact reals in [0, 1) and `floor(x * 62)` is computed exactly, while JavaScript multiplies doubles. `CreateQr.EveryCodeIsGenerable` is about real draws, not about the doubles `Math.random()` can return.
- Number formatting beyond 2^53 (exponent notation and lost precision in `toString`) and non-integer `expiresInMinutes`: minutes are integers and names are exact.
- JSON typing: a field that is absent or falsy is "" or 0, and a body that does not parse is `None`. Non-string codes and non-numeric minutes are not modelled.
- The ISO formatting of `expiresAt` in the response: the body carries the millisecond value.
- `substring` works on UTF-16 code units; the model truncates by characters.
- Database defaults (`created_at`, `is_active`, `scan_count`) and the choice of `id` are fixed in the model: `created_at = now`, active, count 0, `id` = position.
- Concurrency: requests are handled one after another. Interleaved `logScan` writes that lose count updates are not modelled.
- Query strings: `event.rawUrl` is read only when `event.path` is empty, as in the source, and a query string in it stays part of the last segment.

## Behaviour worth knowing

Some consequences of how the handlers are written, all of which the model keeps:

- Every submission is stored as given, without URL or text classification or normalisation, and every handed-out URL uses the `/r/` route.
- Validation checks only truthiness, so a negative number of minutes passes and produces a link that is already expired.
- The log insert and the count update are two separate, non-atomic writes. The update writes back the count read at lookup time plus one.
- The name number is the second '-'-separated field of the newest row's name, read with `parseInt`. That row is newest by creation time, including inactive rows.
- The manage handler sweeps before every non-OPTIONS request, including those that end in 400, 405 or 500.
