# tinylink short-code core, modelled in Dafny

This project models the core of the tinylink URL shortener: how a short code
is allocated, how the code-to-URL mapping and the visit counter are stored in
Redis, and how the three HTTP handlers (shorten, info, redirect) read and
write that store. It also models the service layer that turns a creation
request into a `URL` record with a custom or hash-derived code.

- `wrappers.dfy` (`Wrappers`): `Option` and `Result`.
- `redis.dfy` (`Redis`): the keyspace as a map from key to value and expiry,
  on an explicit clock in milliseconds. It has the commands the server uses:
  SET with a time to live, GET, EXISTS and INCR. `Store` is the server
  process's connection, a class whose `data` field the commands update.
- `server.dfy` (`Server`): `cmd/server/main.go`. It holds the URL prefix and
  host rules, the allocator `GenerateShortCode`, the handlers
  `CreateShortUrl`, `GetUrlInfo` and `RedirectUrl`, and the keyspace layout
  the handlers keep (`Layout`).
- `base64url.dfy` (`Base64Url`): the padded base64 encoding with the URL-safe
  alphabet of section 5 of RFC 4648, and its decoder.
- `service.dfy` (`Service`): `internal/service/url_service.go`.
- `models.dfy` (`Models`): `internal/models/url.go`.

Inputs that the program gets from outside become parameters. This covers
the clock (`now`), the answers of the entropy source (`Round`, `Draw`), URL
parsing (`parse`), the reachability probe (`probe`), SHA-256 (`sha256`), and
connection failures of each store command (`fault`, `setFault`, ...).

## Model

| member | source | states |
|---|---|---|
| `Server.CharsetIsAlphanumeric` | cmd/server/main.go:219 | the charset has 62 characters, and a character is in it exactly when it is a letter or a digit |
| `Server.CodeOf` | cmd/server/main.go:223-234 | the code spelled by six draws has length 6 and only charset characters, on both the secure path and the `nanos % 62` fallback path |
| `Server.FirstAccepted` | cmd/server/main.go:222-245 | the index of the first round whose existence check answered 0: every earlier round is rejected, and it is below the number of rounds exactly when some round is accepted |
| `Server.GenerateShortCode` | cmd/server/main.go:218-246 | the allocator returns the code of the first round whose existence check answered 0; every earlier round was rejected (check failed or code present); the returned code is 6 charset characters and absent from the store at that instant; it returns None when the rounds run out; the number of rejected rounds is `FirstAccepted` |
| `Server.Normalize` | cmd/server/main.go:100-102 | the result starts with `http://` or `https://`; it equals the input exactly when the input already started with one of them; otherwise it is exactly `https://` followed by the unchanged input |
| `Server.NormalizeIdempotent` | cmd/server/main.go:100-102 | normalising twice is normalising once |
| `Server.ValidateAndNormalize` | cmd/server/main.go:98-136 | success exactly when the normalised URL parses, has a host with a `.` and no space, and the probe answers below 400; the value is the normalised URL; each failed check in order gives its own error: a parse failure, an empty host, a bad domain, a failed probe (`NotReachable`), and a status of 400 or more (`ErrorStatus` carrying that status) |
| `Server.CreateShortUrl` | cmd/server/main.go:138-170 | an empty URL, a failed validation, rounds that run out and a failed SET each give their error and leave the store unchanged; a valid URL with an accepted round and a working SET always succeeds (the 201 answer); on success the code is that of the first accepted round, a fresh 6-character code absent at `now`, and the store is the old one with the normalised URL set under it, readable before `now` + 365 days and absent from then on; the layout invariant is kept |
| `Server.Resolve` | cmd/server/main.go:176-183 | NotFound exactly when the store answers that the code is missing or expired; a read failure otherwise fails; success gives the stored URL |
| `Server.GetUrlInfo` | cmd/server/main.go:172-194 | fails exactly as the lookup does; on success reports the code, its short URL, the stored URL, and the counter's value, or 0 when the counter is missing or its read fails |
| `Server.RedirectUrl` | cmd/server/main.go:196-215 | the answer is the lookup's; a code that does not resolve changes nothing; a resolved code has INCR applied to `visits:<code>` (unless INCR fails); no key but the counter changes; the layout invariant is kept |
| `Server.VisitsKey` | cmd/server/main.go:186 | the counter key starts with `visits:` and differs from the code itself |
| `Server.CounterKeyHoldsNoText` | cmd/server/main.go:209-212 | under the layout a counter key never holds text, so INCR on it fails only at the 64-bit maximum |
| `Server.SetKeepsLayout` | cmd/server/main.go:156-159 | storing a URL with a scheme under a short code keeps the layout invariant |
| `Server.IncrementKeepsLayout` | cmd/server/main.go:211 | a successful INCR of a counter key keeps the layout invariant |
| `Server.InfoAfterCreate` | cmd/server/main.go:156-159 | after the SET of a new mapping at `now`, the info lookup returns the URL at every instant before the year is up and NotFound from then on |
| `Server.RedirectCountsOneVisit` | cmd/server/main.go:209-212 | a successful INCR raises the reported visits by exactly 1 (an absent counter counts as 0) and leaves the reported URL unchanged |
| `Redis.Get` | cmd/server/main.go:176 | Nil exactly for a missing or expired key, a value exactly for a live one, an error when the connection fails |
| `Redis.Exists` | cmd/server/main.go:237 | answers exactly when the connection works, and answers 0 exactly when the key is missing or expired |
| `Redis.CounterOrZero` | cmd/server/main.go:186 | 0 for a missing key and for text, the counter's value for a counter |
| `Redis.SetWithExpiry` | cmd/server/main.go:159 | afterwards the key holds the text at every instant before the expiry and nothing from then on; every other key reads as before |
| `Redis.Increment` | cmd/server/main.go:211 | fails exactly on text (NotAnInteger) and on a counter at the 64-bit maximum (Overflow); otherwise the key holds the old count (0 if absent) plus one, keeps its expiry if it had one, and every other key reads as before |
| `Redis.EveryIncrementCounts` | cmd/server/main.go:209-212 | `n` INCRs of one counter, serialised by the store and staying within the 64-bit range, all succeed and leave it at its old value (0 if absent) plus `n`; no other key changes at any instant |
| `Redis.Store.Set` | cmd/server/main.go:159 | with a working connection the keyspace becomes `SetWithExpiry` of the old one at `now` + ttl; with a failed one it stays as it was |
| `Redis.Store.Incr` | cmd/server/main.go:211 | the keyspace and reply are those of `Increment`, or the keyspace is unchanged on failure |
| `Base64Url.Encode` | internal/service/url_service.go:28 | the padded encoding of n bytes has 4 * ceil(n / 3) characters |
| `Base64Url.EncodeGroup` | internal/service/url_service.go:28 | three bytes give four alphabet characters |
| `Base64Url.DecodeEncode` | internal/service/url_service.go:28 | decoding the encoding of any byte sequence gives it back |
| `Base64Url.EncodeInjective` | internal/service/url_service.go:28 | two byte sequences have the same encoding exactly when they are equal |
| `Service.Strip` | internal/service/url_service.go:31 | the result has no `+`, `/` or `=` and is no longer than the input |
| `Service.EightByteEncoding` | internal/service/url_service.go:28-32 | the encoding of 8 bytes is 12 characters, eleven from the URL-safe alphabet and a final `=`; stripping leaves the eleven, so the cut to 8 is in bounds; the first 8 encode the first 6 bytes |
| `Service.GenerateShortCode` | internal/service/url_service.go:21-33 | the derived code has 8 characters from `[A-Za-z0-9-_]` and is the encoding of the digest's first 6 bytes |
| `Service.ShortCodeDeterminedByPrefix` | internal/service/url_service.go:21-33 | two digests give the same code exactly when their first 6 bytes agree |
| `Service.CreateShortUrl` | internal/service/url_service.go:36-58 | fails exactly for an empty URL; on success the record has the request's URL and expiry, the given creation time and 0 clicks; a custom code is used verbatim, otherwise the code is the 8-character encoding of the URL hash's first 6 bytes |
| `Service.SameUrlSameCode` | internal/service/url_service.go:42-45 | two requests for the same URL without a custom code get the same code |
| `Service.GetUrl` | internal/service/url_service.go:61-64 | always fails |
| `Service.IncrementClicks` | internal/service/url_service.go:67-70 | always returns an error |
| `Models.Insert` | internal/models/url.go:9 | an insert is refused exactly when the code is already in the table; otherwise the row is appended, and a table whose codes are unique stays so |

## Design versus code

A careful design of this service would add guards that the code does not
have. The model follows the code:

- A custom code would be checked for existence and refused with a
  "code already exists" error. `Service.CreateShortUrl` (internal/service/url_service.go:42-45)
  uses it verbatim, with no check. The only guard is the `unique` constraint
  on `short_code`, modelled by `Models.Insert`.
- The allocator would cap its retries and report an exhausted keyspace. The
  loop at cmd/server/main.go:222-245 has no cap; see `Server.GenerateShortCode` below.
- Every character would be drawn without modulo bias. `rand.Int` draws
  uniformly in `[0, 62)`, but the time-based fallback (`UnixNano() % 62`)
  does not. The model states only the range of both.
- A mapping's counter would expire with it, or be reset when its code is
  allocated again. The SET of cmd/server/main.go:159 gives the mapping a
  year to live, but the INCR of main.go:211 gives `visits:<code>` none. So
  once a code has expired and been allocated again, the info lookup reports
  the visits of the old mapping; `Server.InfoAfterCreate` says only that the
  count is whatever the counter holds.
- Looking up and counting visits would belong to the service. Its `GetURL` and
  `IncrementClicks` are stubs that always fail; the handlers in
  cmd/server/main.go go to Redis directly.

## Left out

- Server start-up, the Redis client and its `Ping`, environment loading, routing, static files and JSON binding (cmd/server/main.go:25-95, 139-146): plumbing. The binding's one rule that matters, that an empty `long_url` is refused, is in `Server.CreateShortUrl`.
- URL parsing (`url.Parse`) and the reachability probe (a HEAD request with a 5-second timeout): foreign calls, given as the functions `parse` and `probe`. Their results are modelled, not the calls.
- The entropy source and the clock: the answers of `rand.Int` and `time.Now` are inputs. Uniformity of the draws is not modelled, only their range.
- The fallback clock is a `nat`. A clock before 1970 would give a negative `UnixNano`, a negative remainder and an index panic in the source. That case is not modelled.
- Server.GenerateShortCode: the source retries without bound; the model is given a finite sequence of rounds and returns None, answered as `OutOfRounds`, when they run out. The code buffer is an `array<char>` rather than bytes; all charset characters are ASCII.
- Concurrency: the counter increment runs in a goroutine after the redirect is answered. The model runs it as a separate, later step of `Server.RedirectUrl`. Requests interleaving with it, and the race between the existence check and the SET of two allocations, are not modelled.
- Redis details: a key is live strictly before its expiry instant; the engine's handling of the exact millisecond is not modelled. A string that spells an integer is held as `Int`. SET always stores `Text`, which is right here because the server only stores URLs with a scheme. INCR and the counter read treat all `Text` as not an integer. The SET command's own time to live is 365 days given in milliseconds, the same instant as the source's seconds.
- SHA-256: a parameter `sha256` returning 32 bytes; its internals, and the UTF-8 conversion of the URL before hashing, are not modelled.
- `internal/api/handlers/url_handler.go`: the gin handlers and the response record `URLResponse`.
- Models: times are milliseconds since the Unix epoch. 0 stands for Go's zero `time.Time`, which is the year 1, so an expiry at exactly the epoch cannot be told apart from an omitted one.
- Models: the `ID` primary key and its assignment, and `not null` on strings (a Go string is never null). The table itself is not persisted anywhere in the source; `Models.Insert` states what the `unique` constraint on `short_code` enforces.
