# isrv: verified model

A Dafny model of the parts of isrv, a temporary file sharing service, that hold its hard promises, with
proofs of those promises for all inputs, runs and reachable states. `dafny verify dfyconfig.toml` checks
the whole project.

- **The browser's encrypted container.** `KeyToken`, `ContainerFormat` and `ContainerCodec` model the
  serializer and the parser, both as specification functions and as loops over buffers and records proved
  against them; `ContainerTheorems` proves that the parser accepts exactly what the serializer can produce, and
  `ContainerBytes` says which bytes those are, under which keys, and what becomes of damaged ones.
  `ServerCheck` and `UploadHandler` relate this to the server's own header check and size limit, and follow a
  file from one browser to another. AES-GCM, HKDF and JSON are parameters with stated laws
  (`ContainerFormat.Crypto`): a ciphertext is 16 bytes longer than its plaintext and opens under the same key,
  nonce and additional data; only that ciphertext opens to it; JSON parsing inverts printing.
- **The rate limiter.** `TokenBucket` and `Gcra` state the contracts of the two limiter libraries over integer
  nanoseconds and exact arithmetic, for any rate they are given. `Float64` and `Budgets` compute the rates and
  periods the program gives them, rounding included. `MemoryLimiter` and `RedisLimiter` are the two stores,
  `Backoff` their block durations, `Eviction` the question whether forgetting an idle bucket can be noticed,
  `LimiterWindow` the bound on what a cluster admits while Redis comes and goes, `LimiterTightness` the runs that attain it,
  `LogThrottle` the compare-and-swap that throttles a warning, `Middleware` the two handlers, `ServedRequests`
  what they let through when requests interleave, `FailedLogins` the interleaved runs of the login limiter on all
  replicas and `LoginGuesses` how many guesses these let a client try.
- **The file lifecycle.** `FileStores` holds the handlers that change the object store and the files table call
  by call, every call with its possible outcomes (an error may come after its effect). `Lifecycle` interleaves
  uploads, deletes and cleanup cycles of all replicas as a transition system with crashes inside and between
  calls; `Download` adds the serving paths. `CleanupLock` is the advisory lock that keeps cycles apart. At-rest
  encryption (age) is a parameter whose unwrapping inverts its wrapping.
- **Ranges, expiry and sessions.** `ByteRanges`, `Backends` and `Storage` cover the Range header and the three
  storage backends, against an independent reading of sections 14.1.2 and 14.4 of RFC 9110. `Expiry` covers the
  age formula and the expires field, `Session` the admin token.

`Wrappers`, `Bytes`, `Decimal`, `Strings` and `Base64` are shared ground: 64-bit wrap-around, big-endian fields,
decimal text, the string functions of Go's standard library that are used, and base64 (sections 4 and 5 of
RFC 4648).

Clock readings, randomness, fresh file IDs, the outcome of every storage, database and Redis call, and what a
downstream handler answers are inputs. Time is in nanoseconds unless said otherwise.

## Where the code and its documentation or an expectation differ

- The server's header length is 38, the browser's 70 (`internal/clientencryption/container.go:16`,
  `web/src/features/e2ee/crypto.ts:30`). The server's "largest valid v1 container" is 32 bytes short, so a file
  of exactly the configured limit, or up to 31 bytes less, is refused (`ServerCheck.ServerAdmitsExactly`).
- The memory store's block duration is not clamped (`internal/app/middleware/limiterstore.go:85-86`): unless
  the base times 2^32 fits an int64 nanosecond count, that is for every base over 2.147 seconds, some offense
  gives a negative duration (`Backoff.MemoryPositiveIff`; with the default 12 hours the nineteenth,
  `Backoff.NineteenthDefaultOffense`). Redis clamps, but the step that first overflows
  shortens a block of more than 146 years to ten years (`Backoff.BackoffMonotoneIff`).
- The memory store's cleanup forgets the offense count together with the expired block
  (`MemoryLimiter.PruneForgetsIff`).
- The failed-login budget is described as per hour (`internal/app/middleware/ratelimit.go:112`); in the memory
  store a ten-minute eviction gives a fresh budget before the old one has refilled
  (`Eviction.FailedLoginBudgetOutlivesTtl`, `Eviction.EvictionInvisibleIff`).
- A Redis outage is documented to raise limits to N times their values (`docs/multi-replica.md:22-26`). That is
  the bound while Redis stays down; when it comes and goes within the window the shared bucket adds one more,
  and there are runs that use it up (`LimiterTightness.InstantBoundAttained`,
  `LimiterTightness.WindowBoundAttained`).
- The two stores are meant to enforce the same limit, but rate and period are rounded and truncated separately.
  For HTTP requests and a burst of two or more they answer alike on every call sequence if and only if
  requestsPerMinute is a multiple of 15 that divides a minute into whole nanoseconds (`Budgets.HttpStoresAgreeIff`);
  250, for example, is not. For logins they do only if float64 holds the rate exactly
  (`Budgets.LoginStoresAgreeIff`), which the default of five an hour does not meet (`Budgets.DefaultLoginsDiffer`).
- The failed-login limiter checks the block before the handler and takes the token after it, so guesses sent
  together are all evaluated, however many (`LoginGuesses.FloodIsEvaluated`). One at a time they are bounded
  (`LoginGuesses.GuessesBounded`).
- An offense count whose EXPIRE never ran stays in Redis for good, and the next offense escalates however late it
  comes (`RedisLimiter.CountKeptForeverIff`, `RedisLimiter.NeverExpiresIff`). A Redis reply that is lost after the
  script ran costs a request a token of the shared bucket besides its replica's own
  (`LimiterWindow.LostReplySpendsTwice`).
- Warnings are throttled by the time read before the swap. Between two log lines there can be less than the
  interval, by up to the time one call takes (`LogThrottle.EmissionsSpaced`, `LogThrottle.EmissionBoundIsTight`).
- A comment in `internal/cleanup/cleanup.go:207-210` argues for deleting the row after a failed storage delete.
  If the storage delete had no effect and the row delete had, and only then, the blob is left without a row
  (`Lifecycle.StrandsIff`), and unless something else was working on the file it is never collected
  (`Lifecycle.StrandedForever`).
- The age formula goes below the minimum age for sizes above the maximum file size, which an end-to-end encrypted
  upload can have (`Expiry.AgeKeepsMinimumIff`, `Expiry.LargestContainerBelowMinimum`).
- The Range parser accepts more than the standard: signs and blanks around either number
  (`ByteRanges.AcceptedIsStandardIff`). On an empty object Google Cloud Storage serves some ranges that a local
  disk refuses (`Backends.EmptyObjects`, `Backends.BackendsAgreeIff`).
- An admin token has four accepted spellings, because the last base64 character of a signature has two spare bits
  (`Session.AcceptedSpellingsIff`).

## Model

| member | source | states |
|---|---|---|
| Bytes.U32RoundTrip | web/src/features/e2ee/crypto.ts:369 | a 32-bit big-endian field reads back as the number written, for every number below 2^32 |
| Bytes.U32Canonical | web/src/features/e2ee/crypto.ts:395-399 | a field that was read determines its four bytes |
| Bytes.U32BigEndian | web/src/features/e2ee/crypto.ts:369 | the four bytes of a number, the most significant first |
| Bytes.WrapsByMultiple | internal/app/handlers/upload.go:63 | int64 wrap-around changes a number by a multiple of 2^64 and ends within the int64 range |
| Decimal.IntRoundTrip | internal/app/auth/session.go:23 | every int64 survives printing and strconv.ParseInt |
| Base64.RawRoundTrip | internal/app/auth/session.go:17 | unpadded base64 decoding returns every encoded byte string, in both alphabets |
| Base64.SextetTable | internal/app/auth/session.go:17 | the 64 characters of both alphabets |
| Base64.GroupBits | internal/app/auth/session.go:17 | three bytes are one 24-bit number, printed six bits at a time from the top |
| Base64.RestBits | internal/app/auth/session.go:17 | a rest of one or two bytes prints as if filled up with zeros, cut short |
| Base64.GroupsInOrder | internal/app/auth/session.go:17 | groups print one after the other |
| KeyToken.BytesToBase64Url | web/src/features/e2ee/crypto.ts:342-348 | the character loop, btoa and the three replacements give exactly unpadded base64url |
| KeyToken.ToBase64UrlIsRaw | web/src/features/e2ee/crypto.ts:342-348 | the browser's detour through padded base64 is section 5 of RFC 4648 |
| KeyToken.FromBase64UrlIsRaw | web/src/features/e2ee/crypto.ts:350-358 | re-padding and atob decode exactly unpadded base64url |
| KeyToken.KeyTokenRoundTrip | web/src/features/e2ee/crypto.ts:306-340 | decoding an encoded token returns version 1 and the root key |
| KeyToken.DecodeIsImageOfEncode | web/src/features/e2ee/crypto.ts:317-340 | a token is accepted if and only if it is the encoding of a 32-byte key, so no key has two spellings |
| KeyToken.KeyTokenLength | web/src/features/e2ee/crypto.ts:306-315 | every key token has 44 characters |
| KeyToken.KeyTokenText | web/src/features/e2ee/crypto.ts:306-315 | a token is unpadded base64url of the byte 1 and the 32 key bytes; a key of another length is a KeyError |
| KeyToken.OtherTokensRefused | web/src/features/e2ee/crypto.ts:317-340 | a text that is not accepted, among them all that have not 44 characters, is a KeyError |
| ContainerFormat.HeaderRoundTrip | web/src/features/e2ee/crypto.ts:360-410 | a built header parses back to its salt, nonce prefix and key commitment |
| ContainerFormat.HeaderCanonical | web/src/features/e2ee/crypto.ts:376-410 | a header that parses is the one built from its parsed fields |
| ContainerFormat.HeaderBytes | web/src/features/e2ee/crypto.ts:360-374 | the 70 header bytes: "ISRV-E2E", version, flags, chunk size, salt, nonce prefix, commitment |
| ContainerFormat.HeaderParsesIff | web/src/features/e2ee/crypto.ts:376-410 | what parses are exactly the 70 bytes that start with those constants; anything else is a FormatError |
| ContainerFormat.SetBytes | web/src/features/e2ee/crypto.ts:366 | copying into a buffer changes exactly the target range |
| ContainerFormat.BuildHeader | web/src/features/e2ee/crypto.ts:360-374 | filling the buffer at its offsets yields the concatenated fields |
| ContainerFormat.MakeNonce | web/src/features/e2ee/crypto.ts:529-541 | prefix and counter in twelve bytes, or an error for a bad prefix length or a counter over 32 bits |
| ContainerFormat.MakeAdditionalData | web/src/features/e2ee/crypto.ts:543-556 | header, type, counter and length laid out in one buffer |
| ContainerFormat.AdditionalDataInjective | web/src/features/e2ee/crypto.ts:543-556 | no two records with different header, type, counter or length share additional data |
| ContainerFormat.AdditionalDataBytes | web/src/features/e2ee/crypto.ts:543-556 | header, record type, counter and length, byte by byte |
| ContainerFormat.NonceInjective | web/src/features/e2ee/crypto.ts:529-541 | different 32-bit counters give different nonces |
| ContainerFormat.NonceBytes | web/src/features/e2ee/crypto.ts:529-541 | prefix and counter, byte by byte |
| ContainerFormat.MetadataRoundTrip | web/src/features/e2ee/crypto.ts:461-512 | whatever the random padding, encoded metadata decodes to itself |
| ContainerFormat.MetadataBytes | web/src/features/e2ee/crypto.ts:461-473 | the 4096 bytes of the record: the length, the JSON text, random bytes; a FormatError for a size beyond 2^53-1 or a text beyond 4092 bytes |
| ContainerFormat.MetadataDecodesIff | web/src/features/e2ee/crypto.ts:475-512 | a record decodes to some metadata if and only if the text of the announced length is its JSON; every refusal is a FormatError |
| ContainerFormat.SizeInNumbers | web/src/features/e2ee/crypto.ts:98-104 | 70 bytes of header, 4112 of metadata and 16 for every started 2^20 bytes, up to 2^32-1 full chunks |
| ContainerCodec.SealRecord | web/src/features/e2ee/crypto.ts:144-158 | one pass of the encryption loop seals exactly that chunk under its counter |
| ContainerCodec.SealContent | web/src/features/e2ee/crypto.ts:141-160 | the loop's blob is the sealed records in order |
| ContainerCodec.EncryptFile | web/src/features/e2ee/crypto.ts:106-166 | the method meets the container specification and its error cases |
| ContainerCodec.FailureSticks | web/src/features/e2ee/crypto.ts:257-259 | once a record fails to open, the whole content fails |
| ContainerCodec.OpenAt | web/src/features/e2ee/crypto.ts:239-259 | one pass of the decryption loop at the running offset opens the record that index places there |
| ContainerCodec.OpenContent | web/src/features/e2ee/crypto.ts:233-264 | the loop with its running offset opens exactly the records the size implies |
| ContainerCodec.DecryptContainer | web/src/features/e2ee/crypto.ts:168-275 | the method meets the decryption specification, with its errors in the code's order |
| ContainerTheorems.SupportedSizeExactly | web/src/features/e2ee/crypto.ts:558-571 | a size is supported exactly from 0 to 2^32-1 full chunks |
| ContainerTheorems.ContainerLength | web/src/features/e2ee/crypto.ts:98-104 | the container has the length maxEncryptedContainerSize gives for its content |
| ContainerTheorems.SizeStrictlyIncreasing | web/src/features/e2ee/crypto.ts:98-104 | a longer file never has a container as short |
| ContainerTheorems.OffsetsAreSafeIntegers | web/src/features/e2ee/crypto.ts:227-243 | for every supported size all sizes and offsets stay below 2^53 and counters within 32 bits |
| ContainerTheorems.ContainerIsItsCalls | web/src/features/e2ee/crypto.ts:122-162 | the sealed part of a container is one AES-GCM call per record, nothing else |
| ContainerTheorems.CallNumber | web/src/features/e2ee/crypto.ts:144-155 | the k-th call uses counter k and the key of its record type |
| ContainerTheorems.NoNonceReuse | web/src/features/e2ee/crypto.ts:122-160 | within one encryption no two calls share key and nonce, nor additional data |
| ContainerTheorems.AcceptsExactlyContainers | web/src/features/e2ee/crypto.ts:168-275 | a container is accepted with a result if and only if it is the header, sealed metadata and sealed full-size chunks of that result under that token |
| ContainerTheorems.EncryptSucceedsExactly | web/src/features/e2ee/crypto.ts:106-166 | encryption fails only for unsupported sizes and metadata that does not fit its record |
| ContainerTheorems.EncryptDecryptRoundTrip | web/src/features/e2ee/crypto.ts:106-275 | decrypting returns the file's bytes, name, type and size for every length and all randomness |
| ContainerTheorems.AcceptedLength | web/src/features/e2ee/crypto.ts:227-231 | the only accepted length is the one computed from the plaintext |
| ContainerTheorems.SameMetadataSameShape | web/src/features/e2ee/crypto.ts:225-231 | accepted containers that agree up to their records differ only in content, never in record count |
| ContainerTheorems.MovedRecordNeedsCollision | web/src/features/e2ee/crypto.ts:242-253 | if a record of one accepted container is accepted at another position under the same header, the two seals made with their content key, under different nonces and additional data, are one ciphertext |
| ContainerTheorems.TwoTokensNeedCollision | web/src/features/e2ee/crypto.ts:186-195 | a container that opens under two tokens holds one commitment to two different root keys, a collision of the key derivation |
| ContainerBytes.ContainerSpelledOut | web/src/features/e2ee/crypto.ts:106-166 | a container in bytes: the header with the key of "isrv-e2ee-v1/commit", the metadata sealed under the key of "isrv-e2ee-v1/metadata", every chunk under that of "isrv-e2ee-v1/content", each under its nonce and additional data |
| ContainerBytes.KeysStaySecret | web/src/features/e2ee/crypto.ts:441-446 | if derivation tells those labels apart, no record is sealed under the bytes the header shows, and the two record types share no key |
| ContainerBytes.ShortIsRefused | web/src/features/e2ee/crypto.ts:172-174 | fewer bytes than a header and a metadata record are a FormatError, whatever the token |
| ContainerBytes.NoTokenIsRefused | web/src/features/e2ee/crypto.ts:317-340 | what is no token is a KeyError |
| ContainerBytes.NoHeaderIsRefused | web/src/features/e2ee/crypto.ts:376-410 | with a token, a start that is no header is a FormatError |
| ContainerBytes.OtherKeyIsRefused | web/src/features/e2ee/crypto.ts:193-195 | the token of a key that does not derive the commitment is an AuthenticationError |
| ContainerBytes.AlteredMetadataIsRefused | web/src/features/e2ee/crypto.ts:197-216 | a metadata record that does not open under its key, counter 0 and this header is an AuthenticationError |
| ContainerBytes.OtherMetadataIsRefused | web/src/features/e2ee/crypto.ts:218-231 | one that opens to something else than metadata, or to a size that is not supported or not the container's, is a FormatError |
| ContainerBytes.ResizedIsRefused | web/src/features/e2ee/crypto.ts:227-231 | an accepted container that is cut off, or extended or cut behind its metadata record, is a FormatError |
| ContainerBytes.AlteredIsRefused | web/src/features/e2ee/crypto.ts:233-264 | an accepted container whose content records are altered is an AuthenticationError, or opens to another plaintext |
| ServerCheck.ValidateV1Header | internal/clientencryption/container.go:33-60 | the verdict depends only on the unread bytes and the size, and success leaves the reader at 0 |
| ServerCheck.ServerAgreesWithParser | internal/clientencryption/container.go:33-60 | on anything of container length the server accepts exactly the headers the browser parses |
| ServerCheck.V1AcceptsIff | internal/clientencryption/container.go:33-60 | the check in numbers: 4150 bytes at least, 38 of them readable, the first 14 those of the format |
| ServerCheck.ServerAcceptsBrowserContainers | internal/clientencryption/container.go:33-60 | every container a browser can decrypt passes the server's check |
| ServerCheck.ServerFormulaIs32Short | internal/clientencryption/container.go:23-29 | the two size formulas differ by exactly 32 at every supported size |
| ServerCheck.ServerAdmitsExactly | internal/app/handlers/upload.go:62-71 | for a limit of L MiB a browser container is admitted if and only if the file has at most L-32 bytes |
| ServerCheck.FileAtTheLimitIsRefused | internal/app/handlers/upload.go:62-71 | a file of exactly the configured limit is refused |
| Backoff.BlockDurationExactly | internal/app/middleware/redislimiterstore.go:201-212 | base times 2^min(k-1,32) while that fits an int64, ten years otherwise; never wrapping, never non-positive |
| Backoff.OverflowIsPermanent | internal/app/middleware/redislimiterstore.go:206-209 | from the first overflow on every block lasts ten years |
| Backoff.FactorInNumbers | internal/app/middleware/redislimiterstore.go:202-205 | the factor starts at 1, doubles with each offense and stays at 2^32 from the 33rd on |
| Backoff.LongestBlock | internal/app/middleware/redislimiterstore.go:31-33 | ten years, in nanoseconds |
| Backoff.StoresAgreeWhereItFits | internal/app/middleware/limiterstore.go:85-86 | where the product fits, both stores block equally long |
| Backoff.StoresAgreeAlwaysIff | internal/app/middleware/limiterstore.go:85-86 | the stores agree at every offense count if and only if base times 2^32 fits |
| Backoff.BackoffMonotoneIff | internal/app/middleware/redislimiterstore.go:201-212 | repeated offenses never shorten a block if and only if base times 2^32 fits |
| Backoff.ShorterAfterOverflow | internal/app/middleware/redislimiterstore.go:206-209 | the step that first overflows cuts more than 146 years to ten |
| Backoff.MemoryPositiveIff | internal/app/middleware/limiterstore.go:85-86 | the memory store's duration is positive at every offense count if and only if base times 2^32 fits |
| Backoff.FirstOverflowIsNegative | internal/app/middleware/limiterstore.go:85-86 | the first product that overflows gives a negative duration, whatever the base |
| Backoff.RepeatedDurationDiffers | internal/app/middleware/limiterstore.go:85-86 | with all wrapping, no later offense is ever given the duration of the first |
| TokenBucket.TakeCost | internal/app/middleware/limiterstore.go:74-75 | an allowed call costs exactly one token, a refused one nothing |
| TokenBucket.LevelLater | internal/app/middleware/limiterstore.go:65-67 | the level later is the level now plus the refill, up to the burst |
| MemoryLimiter.MemoryLimiterStore.Allow | internal/app/middleware/limiterstore.go:60-76 | spends from the stored or a new full bucket and touches nothing else |
| MemoryLimiter.MemoryLimiterStore.Block | internal/app/middleware/limiterstore.go:78-91 | counts the offense and sets the expiry from the backoff, leaving buckets alone |
| MemoryLimiter.MemoryLimiterStore.IsBlocked | internal/app/middleware/limiterstore.go:93-103 | blocked exactly before the stored expiry |
| MemoryLimiter.MemoryLimiterStore.Cleanup | internal/app/middleware/limiterstore.go:126-144 | the two deleting loops remove exactly the idle buckets and the expired blocks |
| MemoryLimiter.PruneKeepsAnswers | internal/app/middleware/limiterstore.go:137-143 | cleanup changes no IsBlocked answer, then or later |
| MemoryLimiter.PruneForgetsIff | internal/app/middleware/limiterstore.go:137-143 | a key's next block, both its count and its expiry, is what it would be without cleanup if and only if cleanup did not delete the key's entry |
| MemoryLimiter.ExpiriesMoveLater | internal/app/middleware/limiterstore.go:78-91 | as long as the product fits for the offenses the key can reach in the run, its block expiries only move later, with offenses and cleanups in any order |
| MemoryLimiter.ExpiriesMoveLaterIff | internal/app/middleware/limiterstore.go:78-91 | they only move later on all runs if and only if base times 2^32 fits |
| MemoryLimiter.BlockLasts | internal/app/middleware/limiterstore.go:78-103 | a first block lasts its base and a second twice that, each from its own offense, and no other key is blocked |
| MemoryLimiter.BucketSurvivesIff | internal/app/middleware/limiterstore.go:13-14 | a bucket survives cleanups up to ten minutes after its key was last seen, allowed or not, and none later |
| Eviction.EvictionInvisible | internal/app/middleware/limiterstore.go:60-76 | if a bucket refills within the TTL, every timed run of calls and cleanups is answered as if nothing were ever evicted |
| Eviction.EvictionVisible | internal/app/middleware/limiterstore.go:129-134 | otherwise a run exists in which eviction admits a request that would have been refused |
| Eviction.EvictionInvisibleIff | internal/app/middleware/limiterstore.go:126-135 | eviction is invisible on all runs if and only if the burst refills within the TTL |
| Eviction.FailedLoginBudgetOutlivesTtl | internal/app/middleware/ratelimit.go:112-114 | the failed-login bucket never meets that condition, for any limit up to one per nanosecond |
| Float64.RoundClose | internal/app/middleware/redislimiterstore.go:197 | a rounded result is within half a unit in the last of 53 bits |
| Float64.RoundIdempotent | internal/app/middleware/redislimiterstore.go:197 | a rounded number is not rounded again |
| Float64.RoundIsDyadic | internal/app/middleware/redislimiterstore.go:197 | a rounded number is an integer over a power of two |
| Float64.TiesToEven | internal/app/middleware/redislimiterstore.go:197 | numbers of 53 bits before the point go to the nearest integer, halves to the even one |
| Float64.RoundDoubled | internal/app/middleware/redislimiterstore.go:197 | rounding commutes with doubling, so that holds in every binade |
| Gcra.ToRedisRateLimit | internal/app/middleware/redislimiterstore.go:192-199 | the period is the float64 quotient of a second and the rate, truncated |
| Gcra.ExactPeriodAgrees | internal/app/middleware/redislimiterstore.go:114-122 | with a whole-nanosecond period the GCRA state simulates the bucket: equal answers on every timed call sequence |
| Gcra.StoresAgreeIff | internal/app/middleware/redislimiterstore.go:193-199 | for any rate, burst and period the stores answer alike on all call sequences if and only if rate times period is one, or the period is its ceiling and the burst one, or there is no burst and a period |
| Budgets.HttpStoresAgreeIff | internal/app/middleware/ratelimit.go:43-46 | with float64's rate and period, for a burst of two or more, the HTTP limiter's stores answer alike on all call sequences if and only if requestsPerMinute is a multiple of 15 dividing a minute into whole nanoseconds; the exact condition for bursts of one and none |
| Budgets.HttpRateWithin | internal/app/middleware/ratelimit.go:45 | sixty times float64's rate is requestsPerMinute up to three roundings |
| Budgets.HttpPeriodNear | internal/app/middleware/redislimiterstore.go:197 | the period Redis is given is the truncated quotient of a minute, or one nanosecond less where that quotient is whole |
| Budgets.LoginStoresAgreeIff | internal/app/middleware/ratelimit.go:112-114 | the login limiter's stores answer alike if and only if float64 holds the rate of the interval exactly (a limit of one: if the period covers a token) |
| Budgets.ExactIntervalDivides | internal/app/middleware/ratelimit.go:112-114 | which it does only if the interval divides 2^42 seconds |
| Budgets.DefaultLoginsDiffer | internal/app/middleware/ratelimit.go:112-114 | so the stores differ for the default limit of five, and for 19 |
| Budgets.LoginPeriodNear | internal/app/middleware/ratelimit.go:112-114 | the period Redis is given is the interval or one nanosecond less |
| Budgets.LoginPeriodPositive | internal/app/middleware/ratelimit.go:112-114 | for every limit up to one per nanosecond Redis is given a period of a nanosecond or more |
| RedisLimiter.TatExpiryHarmless | internal/app/middleware/redislimiterstore.go:115 | letting Redis expire a bucket key changes no decision |
| RedisLimiter.BlockLastsItsDuration | internal/app/middleware/redislimiterstore.go:135-141 | a Redis block is in force for exactly its duration |
| RedisLimiter.BlockWrittenIff | internal/app/middleware/redislimiterstore.go:129-150 | a counted offense leaves no block without a base, and otherwise one of its duration if and only if SET ran, whether or not the reply arrived |
| RedisLimiter.EscalatesIff | internal/app/middleware/redislimiterstore.go:141-142 | the offense count grows if and only if the next offense comes before five minutes after the block ended |
| RedisLimiter.EscalatesForFiveMinutes | internal/app/middleware/redislimiterstore.go:141-142 | in numbers: an offense counts one up until 300 seconds after the last block ended, then as a first one |
| RedisLimiter.CountKeptForeverIff | internal/app/middleware/redislimiterstore.go:129-144 | which outcomes of a block leave a count without expiry: it was raised on a key without one in force, and EXPIRE did not run |
| RedisLimiter.NeverExpiresIff | internal/app/middleware/redislimiterstore.go:129 | such a count, and no other, grows with the next offense however late that comes |
| RedisLimiter.DueInNumbers | internal/app/middleware/redislimiterstore.go:181-183 | a warning is due 30 seconds after the last |
| RedisLimiter.RedisLimiterStore.Degrade | internal/app/middleware/redislimiterstore.go:178-190 | without competition: a warning and a new timestamp exactly when a warning is due, else nothing |
| RedisLimiter.RedisLimiterStore.Allow | internal/app/middleware/redislimiterstore.go:114-122 | the answer is the shared bucket's if a reply arrives and the replica's own otherwise; commands whose replies were lost have spent too |
| RedisLimiter.RedisLimiterStore.Block | internal/app/middleware/redislimiterstore.go:124-150 | each command can fail, before or after taking effect, and hands the offense to the fallback; lost replies of INCR have counted, and either half of the pipeline may have run |
| RedisLimiter.RedisLimiterStore.IsBlocked | internal/app/middleware/redislimiterstore.go:152-162 | asks Redis, or the fallback when Redis does not answer |
| LimiterWindow.AdmissionsSplit | internal/app/middleware/redislimiterstore.go:114-122 | over any run every admission was granted by exactly one of N+1 buckets |
| LimiterWindow.LostReplySpendsTwice | internal/app/middleware/redislimiterstore.go:114-118 | a reply lost after the script ran costs a token of the shared bucket besides one of the replica's own |
| LimiterWindow.LocalBound | internal/app/middleware/limiterstore.go:60-76 | one replica's bucket admits in a window at most what it held plus its refill |
| LimiterWindow.SharedBound | internal/app/middleware/redislimiterstore.go:114-122 | likewise the shared bucket, at one token per period |
| LimiterWindow.WindowBound | internal/app/middleware/redislimiterstore.go:114-122 | after any traffic, with Redis replying or not at every request and commands repeated or lost at will, one key is admitted in a window at most N memory shares plus one shared bucket's |
| LimiterWindow.WindowBoundExactPeriod | docs/multi-replica.md:22-26 | with a whole-nanosecond period that is N+1 times burst plus rate times window |
| LimiterWindow.WindowBoundRedisDown | docs/multi-replica.md:22-26 | with Redis down throughout it is N times |
| LimiterTightness.InstantBoundAttained | docs/multi-replica.md:22-26 | with Redis down and up again, N replicas admit N+1 bursts in one instant: the bound exactly, and more than N shares |
| LimiterTightness.WindowBoundAttained | docs/multi-replica.md:22-26 | in every window of whole periods some run attains the bound of N+1 shares exactly, and so exceeds N shares |
| LogThrottle.StampsSpaced | internal/app/middleware/redislimiterstore.go:178-186 | whatever the interleaving of clock reads, loads and swaps, stored timestamps rise by at least the interval each time |
| LogThrottle.AtMostOnePerInterval | internal/app/middleware/redislimiterstore.go:175-177 | warnings stamped within a stretch number at most one per interval plus one |
| LogThrottle.SwapSucceedsIff | internal/app/middleware/redislimiterstore.go:184 | a swap succeeds if and only if nobody warned since its load: no ABA |
| LogThrottle.SilentOnlyIfAnotherWarned | internal/app/middleware/redislimiterstore.go:183-186 | a call logs if and only if it is due and nobody else warned after its load |
| LogThrottle.AloneIsDegrade | internal/app/middleware/redislimiterstore.go:178-190 | the four steps run alone are the sequential method, and the line is written when it is due |
| LogThrottle.RunKeeps | internal/app/middleware/redislimiterstore.go:178-190 | every interleaving keeps the invariant: a chain of stamps, and each goroutine's loaded value a link of it |
| LogThrottle.OneLineEach | internal/app/middleware/redislimiterstore.go:183-189 | every stored timestamp has its one log line, written or about to be; none is written twice |
| LogThrottle.EmissionsSpaced | internal/app/middleware/redislimiterstore.go:181-188 | written log lines are at least the interval minus the slowest call apart, however long goroutines stop between swap and write |
| LogThrottle.EmissionBoundIsTight | internal/app/middleware/redislimiterstore.go:181-188 | for every delay up to the interval a run attains that distance |
| Middleware.RateLimiter.Http | internal/app/middleware/ratelimit.go:40-48 | the HTTP limiter gets the budget of its configuration, as float64 computes it |
| Middleware.RateLimiter.Logins | internal/app/middleware/ratelimit.go:106-114 | the login limiter gets a share of an hour per attempt, as float64 computes it, and always blocks |
| Middleware.RateLimiter.RateLimit | internal/app/middleware/ratelimit.go:65-98 | disabled, whitelisted, blocked, within and over the limit, each with its answer and the limiter's whole new state, the clock read at every store call |
| Middleware.HttpPasses | internal/app/middleware/ratelimit.go:65-75 | the limiter the program builds passes everything on, at no cost, if it is disabled, has no requests per minute, or the address is whitelisted |
| Middleware.HttpDecides | internal/app/middleware/ratelimit.go:65-98 | otherwise a blocked address is answered 403, a token lets the request through, and without one the configured action decides between 403 with an offense, 429 and passing |
| Middleware.BlockedWithoutRedis | internal/app/middleware/redislimiterstore.go:124-162 | an offense Redis does not fully answer for blocks the client on its replica, as long as Redis does not answer, for the base times two to the number of offenses before it |
| Middleware.BurstsAreConfigured | internal/app/middleware/ratelimit.go:45-46 | both limiters' buckets hold the configured numbers of tokens |
| Middleware.RateLimiter.RateLimitFailedLogins | internal/app/middleware/ratelimit.go:103-144 | a blocked request never reaches the handler; only an answer of 401 spends budget |
| Middleware.LoginDecides | internal/app/middleware/ratelimit.go:106-144 | for the limiter the program builds, a failed login without a token is answered 403 and recorded as an offense; every other answer passes, and only a 401 costs |
| Middleware.RateLimiter.ApplyLimitAction | internal/app/middleware/ratelimit.go:148-166 | only the block action changes state, and only none lets the request through |
| ServedRequests.RunMatches | internal/app/middleware/ratelimit.go:70-97 | over any interleaving of the store calls of any requests, those that reach their handlers are exactly the admissions of the buckets |
| ServedRequests.ServedBound | internal/app/middleware/ratelimit.go:62-98 | on N replicas, with store calls interleaved at will and Redis coming and going, a client reaches its handlers in a window at most as often as N memory shares and the shared bucket allow |
| ServedRequests.ServedPerMinute | internal/app/middleware/ratelimit.go:43-46 | that bound per minute: N bursts and N times sixty rates, and the shared bucket's burst and periods |
| ServedRequests.MinuteRate | internal/app/middleware/ratelimit.go:43-46 | sixty rates are requestsPerMinute up to three roundings, and exactly that for multiples of 15 |
| ServedRequests.AloneIsRateLimit | internal/app/middleware/ratelimit.go:70-97 | a request whose store calls nobody interrupts gets the handler's answer and leaves its state |
| ServedRequests.NoActionServesAll | internal/app/middleware/ratelimit.go:159-161 | with the action none no run ever refuses a request, blocks included |
| FailedLogins.FailedLoginProjection | internal/app/middleware/ratelimit.go:100-144 | deleting all requests whose handlers never answer 401 leaves every replica's limiter state and every other answer unchanged, in any interleaving |
| FailedLogins.ClientsAreIsolated | internal/app/middleware/ratelimit.go:103-144 | each client gets the answers it would get if it were alone |
| FailedLogins.FinishSeesOwnEntries | internal/app/middleware/ratelimit.go:136-140 | a client's answer and new entries depend only on its own entries |
| FailedLogins.FinishKeepsOtherEntries | internal/app/middleware/ratelimit.go:136-140 | no client's request changes another's entries |
| FailedLogins.BlockIsEnforced | internal/app/middleware/redislimiterstore.go:124-162 | after a recorded offense every request of that client that can ask Redis is refused for the whole block (at most ten years of it), whatever happens on any replica |
| LoginGuesses.FloodIsEvaluated | internal/app/middleware/ratelimit.go:116-140 | whatever the budget, any number of guesses in flight together is evaluated in full |
| LoginGuesses.PaidBound | internal/app/middleware/ratelimit.go:130-140 | a client's guesses that had a token number at most what its shared bucket held plus the refill |
| LoginGuesses.OffensesSpaced | internal/app/middleware/ratelimit.go:136-140 | the other guesses of a client that sends one request at a time are at least a shortest block apart |
| LoginGuesses.GuessesBounded | internal/app/middleware/ratelimit.go:100-144 | one request at a time, with Redis replying, a client has at most a burst, the refill, and one guess per shortest block and one more evaluated in a window |
| LoginGuesses.LoginsAreBlocked | internal/app/middleware/ratelimit.go:106-144 | for the limiter the program builds, with any limit and positive block duration: a failed login that finds no token is answered 403, and every later request of that client that can ask Redis is refused for the block duration (ten years of it at most) at least |
| LoginGuesses.LoginGuessesBounded | internal/app/middleware/ratelimit.go:106-144 | and its guesses in a window, one request at a time, number at most failedLoginLimit, the refill, one, and one per block that fits |
| FileStores.Stores.Save | internal/storage/storage.go:82-85 | a failed save leaves any bytes or none, and touches no other file |
| FileStores.Stores.DeleteBlob | internal/storage/storage.go:86-89 | deletes are idempotent; an error may have taken effect |
| FileStores.Stores.OnFileUpload | internal/database/sqlstore.go:98-120 | an insert error may come after the commit |
| FileStores.Stores.OnFileDelete | internal/database/sqlstore.go:142-158 | deleting a missing row is an error |
| FileStores.ProcessUpload | internal/app/handlers/upload.go:137-232 | the answer and both stores for every combination of save, insert and rollback outcomes |
| FileStores.UploadStores | internal/app/handlers/upload.go:137-232 | when every call succeeds the bytes are stored, wrapped if at-rest encryption is on, with a row of their length, versions and expiration |
| FileStores.FailedUpload | internal/app/handlers/upload.go:137-232 | otherwise the error names the first call that failed, and a row is left only if the insert took effect before its error |
| FileStores.DeleteFile | internal/app/handlers/manage.go:37-76 | a failed storage delete leaves the row; the stage reported is the one that failed |
| FileStores.FailedStageNamed | internal/app/handlers/manage.go:37-76 | the storage stage is reported if and only if the storage delete failed, and then the row is as it was; success needs both calls and a row |
| FileStores.SecondDeleteFails | internal/app/handlers/manage.go:37-76 | of two deletes in a row the second reports the database stage and changes nothing |
| FileStores.CleanupFile | internal/cleanup/cleanup.go:197-250 | the row delete is attempted even after a failed storage delete; success needs both |
| FileStores.PerformCleanup | internal/cleanup/cleanup.go:137-195 | the loop ends with both stores and both counters as the snapshot and the outcomes determine |
| FileStores.CycleCounts | internal/cleanup/cleanup.go:165-194 | success plus failure is the size of the snapshot |
| FileStores.CycleTouchesOnlySnapshot | internal/cleanup/cleanup.go:168-177 | a cycle only removes, and only files of its snapshot |
| FileStores.FailureFreeCycleRemovesAll | internal/cleanup/cleanup.go:168-194 | a cycle without failures leaves none of its files in either store |
| FileStores.CycleCollectsExpired | internal/database/sqlstore.go:33-35 | a cycle without failures keeps exactly the rows that expire now or later, as they were, and every blob that has no row that expired before |
| FileStores.FailureFreeIff | internal/cleanup/cleanup.go:197-250 | run alone, a cycle reports no failure if and only if no call failed |
| Lifecycle.StepKeeps | internal/app/handlers/upload.go:193-216 | every step of every request, fault and crash keeps the invariant relating both stores, all program counters and the history |
| Lifecycle.RowWithoutBlob | internal/app/handlers/manage.go:44-68 | in every reachable state a row whose blob is missing is one whose storage delete was attempted |
| Lifecycle.OrphansBounded | internal/app/handlers/upload.go:193-216 | blobs without rows number at most the uploads in flight, the uploads crashed and the storage calls that returned an error |
| Lifecycle.AcknowledgedUploadsLast | internal/app/handlers/upload.go:198-231 | an upload answered with success keeps its row and exact bytes until a delete of it starts |
| Lifecycle.LostOnlyByDeleteOrExpiry | internal/cleanup/cleanup.go:137-177 | an acknowledged file keeps its bytes and its row, with the expiration last set, unless a delete was begun on it or some cycle began with its row at expiration < now |
| Lifecycle.DeletesAreFinal | internal/app/handlers/manage.go:70-75 | after a delete that reported success the file never reappears in either store |
| Lifecycle.CyclesConserve | internal/cleanup/cleanup.go:165-190 | with everything else running beside it, a cycle counts each file once, and without failures none of them is left |
| Lifecycle.StepTouchesOnlyTargets | internal/cleanup/cleanup.go:168-177 | each step changes only its own file, a cycle's step only the file the cycle is at |
| Lifecycle.CycleTouchesOnlyExpired | internal/cleanup/cleanup.go:137-177 | in every reachable state, what a cycle changes had expiration < now at the clock and in the rows that cycle began with, whatever happened since |
| Lifecycle.CyclesCollectExpired | internal/cleanup/cleanup.go:137-195 | in every reachable state, a cycle that finished without a failure has left none of the files whose rows had expiration < now when it began |
| Lifecycle.OrphansAreForever | internal/cleanup/cleanup.go:149-155 | an orphaned blob that no upload or delete refers to and no cycle has ahead of it stays in every continuation |
| Lifecycle.StrandsIff | internal/cleanup/cleanup.go:197-213 | cleaning a file that has both parts leaves it a blob without a row if and only if the storage delete had no effect and the row delete had |
| Lifecycle.StrandedForever | internal/cleanup/cleanup.go:201-213 | if nothing else was working on the file, from that step on every continuation leaves the blob in place and the row absent |
| Lifecycle.UploadIsItsSteps | internal/app/handlers/upload.go:193-216 | an upload nobody interferes with runs through the transition system to what the handler's specification says |
| Lifecycle.DeleteIsItsSteps | internal/app/handlers/manage.go:37-76 | likewise a delete, whose success is final exactly when it is reported |
| Lifecycle.CycleIsItsSteps | internal/cleanup/cleanup.go:137-195 | likewise a whole cleanup cycle, with both its counters |
| Download.ServeStream | internal/app/handlers/download.go:279-325 | the Range header is parsed and opened on the backend: 200, 206 with its Content-Range, 404, 416 or 500 |
| Download.ServeEncrypted | internal/app/handlers/download.go:204-259 | sends the decrypted bytes with the row's size; every opened body is streamed or closed |
| Download.ServeClientEncrypted | internal/app/handlers/download.go:147-197 | removes only the outer layer; every opened body is streamed or closed |
| Download.ReadBack | internal/app/handlers/download.go:147-325 | across faults, crashes and changes of the at-rest setting each path sends exactly the uploaded bytes with their length, the streaming path the part its backend opens for the Range header, or 404 |
| Download.StreamsWhatRfcAsks | internal/app/handlers/download.go:279-325 | a range valid under RFC 9110 is answered with the selected bytes and bounds, or 416 if it selects none, on every backend if and only if it is not one of the ranges of an empty object that GCS, or S3, serves |
| Download.StreamsWhole | internal/app/handlers/download.go:327-330 | without an accepted range the whole object is streamed |
| Download.MissingOnlyAfterDelete | internal/app/handlers/download.go:221-227 | 404 for a recorded file means its storage delete was attempted |
| Download.UnknownFile | internal/app/handlers/download.go:40-51 | a file without a row is answered 404 on both paths |
| Download.DownloadDecides | internal/app/handlers/download.go:25-105 | the browser page exactly for client-encrypted files, a redirect exactly for plain ones the backend presigns, decrypted bytes with the row's size for the encrypted ones, and 404 or 500 when object, key or storage fail |
| Download.ContentDecides | internal/app/handlers/download.go:108-197 | the container endpoint answers 404 for every version but 1, 500 if storage or decryption fails, 404 for a missing object, and otherwise the container |
| UploadHandler.ClientVersionAccepted | internal/app/handlers/upload.go:121-135 | accepted are exactly the empty value, 0, and with the feature on zeros followed by a one, with an optional plus sign |
| ServerCheck.VersionOfField | internal/app/handlers/upload.go:121-135 | an accepted field denotes version 0 if it is empty or "0" and version 1 otherwise |
| UploadHandler.HandleUpload | internal/app/handlers/upload.go:49-111 | refusals change nothing; an admitted file is stored whole, from its first byte, at its own size |
| UploadHandler.PlainAdmission | internal/app/handlers/upload.go:62-71 | an ordinary file is admitted if and only if it has at most maxFileSizeMB times 1048576 bytes, and too large otherwise |
| UploadHandler.ContainerAdmission | internal/app/handlers/upload.go:62-84 | an encrypted one up to the formula of the header check, and if its first 14 bytes are the format's |
| UploadHandler.OtherFormsRefused | internal/app/handlers/upload.go:49-60 | a form without a file, or with a version the server does not know or has switched off, is a bad request |
| UploadHandler.Replies | internal/app/handlers/upload.go:49-111 | a refused form changes nothing; an admitted one is answered with its ID if and only if every store call succeeded, and with an internal error otherwise |
| UploadHandler.PlainUploadStored | internal/app/handlers/upload.go:49-111 | an ordinary upload within the limit whose store calls succeed leaves exactly the posted bytes and a row of their length, version 0 and the expiration for that length |
| UploadHandler.ContainerAdmittedIff | internal/app/handlers/upload.go:56-84 | what a browser encrypted passes all checks if and only if the file is 32 bytes below the limit |
| UploadHandler.AdmittedAgeFits | internal/app/handlers/upload.go:56-71 | every size the handler admits, also of a container above the maximum, has an age that fits a Duration |
| UploadHandler.BrowserToBrowser | internal/app/handlers/upload.go:49-111 | a file encrypted in one browser, posted, admitted and uploaded among everything else that runs decrypts after any later fetch to its bytes, name, type and size; if its object is missing, an acknowledged one was deleted or had expired |
| CleanupLock.Postgres.TryLock | internal/database/postgreslock.go:24-63 | no connection, a failed query, held elsewhere or locked; the connection stays out of the pool only locked or broken |
| CleanupLock.Postgres.Release | internal/database/postgreslock.go:48-60 | an unlock error discards the connection instead of pooling it |
| CleanupLock.RunCleanupCycle | internal/cleanup/cleanup.go:118-135 | without the lock nothing is touched; with it one cycle runs and the lock is given back |
| CleanupLock.TryStepIsTryLock | internal/database/postgreslock.go:24-46 | a replica's step in the interleaved system is its TryLock: same answer, same server, same pool |
| CleanupLock.UnlockStepIsRelease | internal/database/postgreslock.go:48-60 | likewise its release |
| CleanupLock.StepKeeps | internal/database/postgreslock.go:24-63 | every lock, unlock, error, crash and session end keeps the invariant on holder, depth, pools and program counters |
| CleanupLock.AtMostOneInside | internal/database/postgreslock.go:18-23 | at most one replica with a live session is inside a cycle |
| CleanupLock.NoPooledConnectionHolds | internal/database/postgreslock.go:48-60 | no pooled connection holds the lock, also when unlocking failed |
| CleanupLock.HeldOnlyForAReason | internal/database/postgreslock.go:53-57 | the lock is held once, by a replica inside a cycle or a discarded session that has not ended yet |
| CleanupLock.AttemptSucceedsIffFree | internal/database/postgreslock.go:35-46 | an answered attempt succeeds if and only if nobody holds the lock |
| CleanupLock.SurvivingErrorWouldLeak | internal/database/postgreslock.go:36-40 | what the error path relies on: if a failed query took the lock and its connection survived, the pool would hold it |
| ByteRanges.HeaderRoundTrip | internal/storage/storage.go:119-128 | every well-formed range survives printing and parsing |
| ByteRanges.ParsedIsWellFormed | internal/app/handlers/download.go:330-377 | whatever is accepted is well-formed, and printing and parsing it again is stable |
| ByteRanges.ParserMeetsRfc | internal/app/handlers/download.go:330-377 | a range valid under RFC 9110 is understood, or ignored exactly when a number exceeds int64 or the suffix is zero |
| ByteRanges.AcceptedIsStandardIff | internal/app/handlers/download.go:330-377 | an accepted header is valid under RFC 9110 if and only if the texts around its first dash are digits throughout |
| ByteRanges.SignedIsAccepted | internal/app/handlers/download.go:349-364 | headers outside the standard that are accepted: a plus sign before any number |
| ByteRanges.SpacedIsAccepted | internal/app/handlers/download.go:348-349 | and blanks around both numbers |
| ByteRanges.TotalRoundTrip | internal/storage/s3storage.go:327-342 | the total size is recovered from every printed Content-Range |
| ByteRanges.SpacedTotal | internal/storage/s3storage.go:327-342 | blanks around the total do no harm |
| ByteRanges.ContentRangeReads | internal/storage/localstorage.go:193 | a printed Content-Range reads, independently of the program's parser, as start, end and size in this order |
| ByteRanges.UnknownTotal | internal/storage/s3storage.go:327-342 | an unknown total gives the fallback |
| Backends.RfcBoundsSelect | internal/storage/localstorage.go:219-248 | the bounds select exactly the positions the standard asks for |
| Backends.HeaderIsRfc | internal/storage/s3storage.go:249-251 | the forwarded header means the same range under the standard |
| Backends.ResolveIsRfc | internal/storage/localstorage.go:222-248 | local resolution and the standard's bounds coincide at every size |
| Backends.GcsLength | internal/storage/gcsstorage.go:348-362 | offset and wrapped length select the same bytes, also where End-Start+1 overflows |
| Backends.BackendsAgree | internal/storage/gcsstorage.go:267-311 | for every well-formed range and size above 0 the three backends give the same bytes, sizes and Content-Range, or the same refusal |
| Backends.EmptyObjects | internal/storage/localstorage.go:223-225 | on an empty object a local disk refuses every range, S3 all but suffixes, and GCS serves exactly suffixes and those from 0 without end or to the largest int64 |
| Backends.BackendsAgreeIff | internal/storage/storage.go:90-96 | at all sizes, whatever S3 does with suffixes of an empty object, the three backends agree if and only if the object has a byte or the range is not one of those |
| Backends.ServesWhatRfcAsks | internal/app/handlers/download.go:287-324 | a client gets exactly the bytes the standard asks for with their bounds, or 416 exactly when it asks for none |
| Backends.PiecesReassemble | internal/storage/localstorage.go:168-194 | adjacent ranges that cover an object reassemble it, wherever it is cut |
| Backends.HeadersReassemble | internal/app/handlers/download.go:287-324 | a client that asks for adjacent ranges by their printed headers is sent the object, wherever it is cut |
| Storage.LocalStorage.Save | internal/storage/localstorage.go:78-113 | success exactly when all bytes arrived and match the declared size; a failure leaves a prefix behind |
| Storage.LocalStorage.DeleteFile | internal/storage/localstorage.go:115-135 | a missing file counts as deleted; a failure leaves the file |
| Storage.LocalStorage.Open | internal/storage/localstorage.go:137-195 | seek and limited read give the resolved slice; the file is closed again exactly when the range is refused |
| Storage.S3Storage.Open | internal/storage/s3storage.go:240-293 | the fields filled in from the response describe the forwarded range |
| Storage.GcsStorage.Open | internal/storage/gcsstorage.go:267-311 | the fields computed from the range reader describe the requested range |
| Storage.OpenIsBackendIndependent | internal/storage/storage.go:90-96 | Open answers the same on all backends, including for a missing object, if and only if it is not one of the ranges GCS serves of an empty object |
| Expiry.AgeNonincreasing | internal/utils/utils.go:94-102 | with the minimum at most the maximum the age never grows with the size |
| Expiry.AgeEndpoints | internal/utils/utils.go:73-74 | an empty file gets the maximum age, one of the maximum size the minimum |
| Expiry.AgeIsTheFormula | internal/utils/utils.go:73-74 | the age is the documented formula over the reals, minAge + (minAge - maxAge) * (size/maxSize - 1)^3, with the product truncated |
| Expiry.DefaultExpirations | internal/utils/utils.go:94-102 | in configured days: an empty file is kept maxAgeDays and one of the maximum size minAgeDays |
| Expiry.AgeBounds | internal/utils/utils.go:71-76 | every size up to the maximum gets an age between the two |
| Expiry.AgeKeepsMinimumIff | internal/utils/utils.go:94-102 | the age reaches the minimum if and only if the size is within the maximum or the cubic term is below a millisecond |
| Expiry.LargestContainerBelowMinimum | internal/utils/utils.go:94-102 | an admitted upload that is kept for less than the minimum age |
| Expiry.HoursExactIff | internal/utils/utils.go:52-69 | hours are taken at face value if and only if they are at least -2562047 |
| Expiry.NegativeHoursWrapForward | internal/utils/utils.go:61-65 | a negative number of hours that wraps into the future |
| Expiry.FileTable.Upload | internal/utils/utils.go:77-89 | the stored expiration is the sooner of the maximum and a parsed request |
| Expiry.FileTable.ApplyExpire | internal/app/handlers/manage.go:129-172 | the answer for each refusal in the code's order; only success changes the row |
| Expiry.ExpirationsBounded | internal/app/handlers/manage.go:149-156 | over any run of uploads and expire calls every stored expiration lies within the age of the size, and so within the maximum age, after the moment it was set |
| Expiry.MaxExpirationExactIff | internal/utils/utils.go:71-76 | the maximum expiration is the clock plus the age if and only if the age fits a Duration |
| Expiry.AgeFitsUpToTwice | internal/utils/utils.go:94-102 | the age fits for every size up to twice the maximum |
| Expiry.UploadGetsTheSooner | internal/utils/utils.go:77-89 | an upload gets the hours it asks for if and only if they end before the maximum, else the maximum |
| Expiry.UploadGetsTheInstant | internal/utils/utils.go:68-89 | an upload that asks for a number ms from a million on gets the instant ms * 10^6 or the maximum, the sooner |
| Expiry.ExpireAcceptsIff | internal/app/handlers/manage.go:129-172 | a call for some hours is accepted if and only if they end within the age of the size, the hours counted from the first clock reading and the age from the second |
| Expiry.ExpireAcceptsInstantIff | internal/app/handlers/manage.go:129-172 | a call for such a number is accepted if and only if ms * 10^6 <= later + age, stores exactly that instant, and does not depend on the clock at parsing |
| Expiry.OtherTextsRefused | internal/app/handlers/manage.go:103-121 | a text that is no number is ignored by an upload and a bad request in an expire call |
| Expiry.ExpireRefusals | internal/app/handlers/manage.go:129-172 | the other refusals in their order: failing lookup, unknown file, too late, failing update; none changes a row, and no call changes another file's |
| Expiry.ExpireCanAlwaysExtend | internal/app/handlers/manage.go:149-154 | each call measures from its own clock: for every horizon there is a run of calls, each made before the file expires, that passes it |
| Session.IssuedTokenValidates | internal/app/auth/session.go:21-71 | an issued token names its user, any byte string, before its expiry and nobody afterwards |
| Session.IssuedText | internal/app/auth/session.go:21-28 | the issued text: user and signature in unpadded base64url, the expiry in whole Unix seconds |
| Session.EmptySecretRefusesAll | internal/app/auth/session.go:32-34 | without a configured secret no token is accepted |
| Session.TokensHaveThreeParts | internal/app/auth/session.go:36-44 | an accepted token has two dots at least |
| Session.BreaksAreSkipped | internal/app/auth/session.go:45-52 | line breaks in a part of a token are skipped |
| Session.MessageInjective | internal/app/auth/session.go:23 | different users or expiries are never signed as one message |
| Session.AcceptedMeansIssued | internal/app/auth/session.go:30-71 | a token accepted with an issued message names that user, unexpired, and carries that message's signature |
| Session.AcceptedSpellingsIff | internal/app/auth/session.go:30-71 | a cookie token for some message is treated as the issued one if its signature text differs from it in the two spare bits of the last character at most, and is refused otherwise |
| Session.FourSpellings | internal/app/auth/session.go:45-52 | every message has four such tokens, pairwise different and accepted alike, one of them the issued one |
| Base64.DecodesToIff | internal/app/auth/session.go:17 | with two bytes over, texts decode alike if and only if they differ in the spare bits only |

## Left out

- AES-GCM, HKDF, HMAC, age and JSON are parameters with the laws named above; their algorithms, key zeroing, timing and the "Web Crypto unavailable" error are not modelled.
- Extra or repeated members in the metadata JSON, byte-order marks and lone surrogates: JSON is the abstract inverse pair.
- Error messages, logging, telemetry, HTTP headers other than ranges and lengths, and Fiber routing.
- The failing-open branches of the middleware: neither limiter store returns an error, so they cannot be reached.
- The memory store's two clock readings in Allow (last seen, and the bucket's own) are one instant here.
- Redis time and the replicas' clocks are one timeline, and key expiry is exact rather than in milliseconds; the HMAC of client addresses is taken to be collision-free.
- FailedLogins.BlockIsEnforced: covers requests that reach Redis; one that falls back to its replica's memory is answered from that replica's own block list.
- LimiterWindow.WindowBound: stated for buckets that refill within the ten-minute TTL, because otherwise eviction admits more (Eviction.EvictionInvisibleIff).
- ServerCheck.ServerAdmitsExactly: for limits whose byte counts fit an int64, as every usable limit does.
- File IDs are fresh, although they are short random strings: a colliding upload would overwrite a blob and could roll it back.
- SQL text, drivers, migrations, transactions and the listing with its pagination: the files table is a map from ID to row.
- The advisory lock's query errors either broke the connection or ran nothing, as the Postgres driver does on cancellation; CleanupLock.SurvivingErrorWouldLeak shows what would happen otherwise.
- Download.ReadBack: a decryption that fails in the middle of a stream is one failure up front; it cannot occur for the blobs the theorem speaks about.
- Backends.BackendsAgree: empty objects are in Backends.BackendsAgreeIff, where they differ. What S3 does is taken from the standard, which calls a suffix of an empty object satisfiable though no Content-Range can describe it, so S3's answer to that is an input; what GCS does is the client library's contract.
- S3 and GCS uploads and deletes: their outcomes are those of FileStores.Stores.Save and FileStores.Stores.DeleteBlob.
- The upload handler's failures to open the temporary file and to draw a file token.
- A database error when a download looks up its row, which is answered 500 before storage is asked.
- Several ranges in one header, presigned URLs, object metadata and content types.
- Rounding in the floating-point age formula, and its conversion for sizes that exceed int64: the fraction is exact and truncated.
- Expiry.ExpirationsBounded: for configured ages, and ages of the size, whose nanoseconds fit a Duration; elsewhere the expiration wraps (Expiry.MaxExpirationExactIff), which no admitted upload reaches (UploadHandler.AdmittedAgeFits).
- Middleware.RateLimiter.Logins: for at most one failed login per nanosecond, beyond which the interval is zero and the rate infinite; a negative burstSize, which the configuration refuses for an enabled limiter, is not modelled.
- Gcra.StoresAgreeIff: the two limiter libraries compute exactly here; what they round inside, beyond the rate and the period they are given, is not modelled.
- Float64.Round: exponents are unbounded; the limiters' values are far from overflow and from subnormal numbers.
- ServedRequests.ServedBound: the Redis commands inside one Block are one step, as are the repetitions of one command and its fallback.
- FailedLogins.FailedLoginProjection: the spend and the block after a failed login are one step there.
- Session.AcceptedSpellingsIff: for 32-byte signatures, the output length of HMAC with SHA-256, and tokens without line breaks, which a cookie cannot carry.
- Token and ID generation, credential comparison at login, favicon, systemd, configuration loading and the web interface.
