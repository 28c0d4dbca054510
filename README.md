# Chirpy core, modelled in Dafny

Chirpy is a small HTTP API in Go: users, short posts ("chirps"), password
login and bearer tokens, and two admin endpoints. This project models the
deterministic logic inside it and proves properties of that model:

- **Bearer-header parsing** (`GetBearerToken`, internal/auth/auth.go): the
  `Authorization: Bearer <token>` header form of section 2.1 of RFC 6750.
  It rejects a missing or empty header, trims outer white space, and checks
  the first 7 bytes against `"Bearer "` without regard to case. It then
  returns the trimmed remainder.
- **The profanity filter** (`cleanChirp`, main.go): it splits a chirp body on
  single spaces and masks "kerfuffle", "sharbert" and "fornax" in any case
  with `****`. Then it joins the words again.
- **Handler decision rules** (main.go):
  - the 140-byte limit on chirp bodies;
  - the `/app/` hit counter and the gate on its reset;
  - the status mapping of login.

  The store, bcrypt and UUID parsing appear only as outcome parameters.

Files:
- `wrappers.dfy` holds `Option` and `Result`.
- `strings.dfy` holds the parts of Go's `strings` package the code uses:
  `TrimSpace`, `ToLower`, `EqualFold`, and `Split`/`Join` on `" "`.
- `auth.dfy` models the header parser.
- `profanity.dfy` models the filter. It has a loop method that rewrites the
  words in an array, and a functional specification `Clean`.
- `handlers.dfy` models the handlers. `ApiConfig` is a class whose
  `fileserverHits` field is changed by the middleware and by the reset.

A Go string is a byte sequence. Here each `char` of a Dafny `string` stands
for one byte, so `|s|` is Go's `len(s)`.

One observation about the source: the `"empty bearer token"` branch
(internal/auth/auth.go:92-94) cannot be reached. The outer `TrimSpace` leaves
no trailing white space, so any header that passes the prefix check ends in
a non-space byte after its 7th byte. In particular, the header `"Bearer "` is
rejected with `"invalid authorization header"`, and the check at
internal/auth/auth.go:92-94 is dead code. The model keeps the branch, and
`GetBearerToken` proves that no header reaches it.

## Model

| member | source | states |
|---|---|---|
| `Strings.TrimSpace` | internal/auth/auth.go:82 | the result is the input with a white-space prefix and suffix cut off; it has no outer white space; it is empty exactly when the input is all white space |
| `Strings.TrimSpaceOf` | internal/auth/auth.go:82 | trimming is determined by shape: white space around a core with no outer white space trims to that core |
| `Strings.TrimSpaceKeepsEnd` | internal/auth/auth.go:91 | when the input ends in a non-space byte, the result is non-empty and is a suffix of it, and only white space was cut from the front |
| `Strings.TrimSpaceIdempotent` | internal/auth/auth.go:82-91 | trimming twice is trimming once |
| `Strings.ToLower` | main.go:388 | lower-casing keeps the length and lower-cases each byte (ASCII); its properties are in the two rows below |
| `Strings.ToLowerIdempotent` | main.go:388 | lower-casing twice is lower-casing once |
| `Strings.EqualFold` | internal/auth/auth.go:86 | two strings are equal up to ASCII case exactly when their lower-case forms are equal |
| `Strings.Split` | main.go:386 | `strings.Split(s, " ")` yields at least one piece, and no piece holds a space |
| `Strings.Join` | main.go:392 | `strings.Join(words, " ")` is empty for no words; otherwise it starts with the first word and is as long as all words plus one separator between each two |
| `Strings.JoinSplit` | main.go:386-392 | joining the pieces of `Split(s, " ")` with `" "` gives `s` back |
| `Strings.SplitJoin` | main.go:386-392 | splitting a join of space-free words gives the words back |
| `Strings.SplitCount` | main.go:386 | a split yields one piece more than the body has spaces |
| `Strings.JoinNotLonger` | main.go:392 | joining words that are each no longer than their counterparts gives a string no longer |
| `Auth.Get` | internal/auth/auth.go:76 | `headers.Get("Authorization")` is "" exactly when the header is absent, has no values, or its first value is empty; otherwise it is the first value |
| `Auth.PrefixedTrimmedHasToken` | internal/auth/auth.go:82-94 | a trimmed header that passes the scheme check is longer than 7 bytes and ends in a non-space byte |
| `Auth.GetBearerToken` | internal/auth/auth.go:75-97 | "Auth error" exactly for an absent or empty header; "invalid authorization header" exactly when the trimmed value does not start with "Bearer " in any case; success exactly otherwise; "empty bearer token" never happens; a returned token is non-empty, has no outer white space, and is a suffix of the trimmed value after its first 7 bytes with only white space before it |
| `Auth.TokenAfterPrefix` | internal/auth/auth.go:82-96 | on a value that passes both checks, the token is the trimmed remainder after the 7-byte prefix |
| `Auth.WellFormedValue` | internal/auth/auth.go:82 | a well-formed header value trims to scheme, gap and token |
| `Auth.BearerRoundTrip` | internal/auth/auth.go:82-96 | "Bearer " in any case, any extra white space, a non-empty token with no outer white space, all wrapped in white space, yields the token |
| `Auth.MissingHeaderRejected` | internal/auth/auth.go:76-79 | an absent `Authorization` header, one with no values, or an empty first value gives "Auth error" |
| `Auth.WhitespaceOnlyRejected` | internal/auth/auth.go:77-88 | a non-empty header of white space only passes the emptiness check and fails the scheme check |
| `Auth.AcceptedExtraSpaces` | internal/auth/auth.go:82-96 | `"Bearer   abc123"` yields `"abc123"` |
| `Auth.AcceptedLowerCase` | internal/auth/auth.go:85-96 | `"bearer x"` yields `"x"` |
| `Auth.AcceptedUpperCase` | internal/auth/auth.go:85-96 | `"BEARER x"` yields `"x"` |
| `Auth.AcceptedOuterWhitespace` | internal/auth/auth.go:82-96 | `" \tBearer xyz \r\n"` yields `"xyz"` |
| `Auth.RejectedBy` | internal/auth/auth.go:82-88 | a value with no outer white space that lacks the prefix is rejected by the scheme check |
| `Auth.RejectedSchemes` | internal/auth/auth.go:82-88 | `"Basic xyz"`, `"Bearerx"` and `"Bearer\tx"` fail the scheme check |
| `Auth.RejectedBareScheme` | internal/auth/auth.go:76-94 | `"Bearer "` fails the scheme check, since the outer trim removes its space; `""` is an "Auth error" |
| `Profanity.CleanChirp` | main.go:379-393 | the in-place loop over the split words returns `Clean(body)`, the join of `CensorAll` (each word through `CensorWord`) of the split |
| `Profanity.CensorWord` | main.go:387-390 | a word is either kept or replaced by `****`, and the result is never a listed word |
| `Profanity.Clean` | main.go:386-392 | the cleaned body splits into the same number of words, each the censored original |
| `Profanity.CensorWordChanges` | main.go:380-390 | a word changes exactly when its lower-case form is kerfuffle, sharbert or fornax, and then becomes `****` |
| `Profanity.CensorWordIdempotent` | main.go:380-390 | `****` is not listed, so censoring a censored word changes nothing |
| `Profanity.CensorWordNotLonger` | main.go:380-390 | a censored word is never longer than the original |
| `Profanity.CensorAllIdempotent` | main.go:387-391 | censoring every word of a list twice is censoring it once |
| `Profanity.CensorAllNotLonger` | main.go:387-391 | no censored word is longer than the word it replaces |
| `Profanity.CensoredWordsHaveNoSpace` | main.go:386-389 | censored pieces of a split still hold no space |
| `Profanity.CleanKeepsSeparators` | main.go:386-392 | the cleaned body has exactly as many spaces as the original |
| `Profanity.CleanWithoutListedWords` | main.go:386-392 | a body with no listed word comes back byte for byte |
| `Profanity.CleanIdempotent` | main.go:380-392 | cleaning twice equals cleaning once |
| `Profanity.CleanNotLonger` | main.go:379-393 | cleaning never makes a body longer |
| `Profanity.CleanExamples` | main.go:380-390 | "Kerfuffle" and "FORNAX" are masked; "sharbert!" is left as it is |
| `Profanity.CleanSentenceExample` | main.go:379-393 | "a Kerfuffle or sharbert!" becomes "a **** or sharbert!" (its proof steps are the helpers `SplitSentence`, `JoinSentence` and `JoinMasked`) |
| `Handlers.Increment` | main.go:143 | `Add(1)` on the int32 counter is +1 modulo 2^32, in two's complement |
| `Handlers.IncrementAddsOne` | main.go:143 | below the top of the int32 range an increment adds exactly 1 |
| `Handlers.ApiConfig.constructor` | main.go:83-86 | a new configuration keeps its platform and starts its counter at 0 |
| `Handlers.ApiConfig.MiddlewareMetricsInc` | main.go:141-145 | each request under /app/ increments the counter once and changes nothing else |
| `Handlers.ApiConfig.HandlerAdminMetrics` | main.go:149-150 | the reported count is the counter |
| `Handlers.AdminReset` | main.go:166-181 | 403 exactly off the "dev" platform; users are deleted exactly on "dev"; 500 exactly when that deletion fails; the counter is cleared exactly on "dev" with a successful deletion, which is exactly the 200 case |
| `Handlers.ApiConfig.HandlerAdminReset` | main.go:166-181 | replies as `AdminReset`; the counter becomes 0 on a permitted, successful reset and is unchanged otherwise |
| `Handlers.CounterScenario` | main.go:141-181 | two /app/ requests on a fresh counter read as 2; a reset on "dev" gives 0 if the deletion succeeds and leaves 2 otherwise |
| `Handlers.CreateChirp` | main.go:232-259 | the body passed to the store is the cleaned request body and is at most 140 bytes; 201 exactly for a decoded body of at most 140 bytes whose user id parses and whose store call succeeds; 400 exactly when the JSON does not decode, the body is over 140 bytes or the user id does not parse; 500 exactly when the store call fails on an accepted request |
| `Handlers.TooLongChirpRejected` | main.go:239-248 | a body over 140 bytes gets 400 "Chirp is too long", whatever the user id, with no store call |
| `Handlers.ChirpReachesStore` | main.go:239-255 | the store is called exactly for a decoded body within the limit whose user id parses |
| `Handlers.Login` | main.go:331-362 | 200 exactly when the email is found and the password matches its hash; 500 exactly on another lookup error; 400 exactly on undecodable JSON; 401 exactly for an unknown email or a password that does not match; every 401 is "Incorrect email or password" |
| `Handlers.UnknownEmailLooksLikeWrongPassword` | main.go:339-355 | an unknown email and a wrong password get the identical 401 reply |

## Left out

- `HashPassword` and `CheckPasswordHash` (internal/auth/auth.go:15-25) are thin wrappers over bcrypt. Login receives the comparison result as the parameter `passwordMatches`.
- `MakeJWT` and `ValidateJWT` (internal/auth/auth.go:27-73) are left out. Token issuance, HS256 signing and expiry checks happen inside golang-jwt and the wall clock, which the model cannot see.
- HTTP routing, the file server, `respondWithJSON`/`respondWithError`, JSON decoding and `main()` are I/O. A request that fails to decode is the `None` case of the handler inputs.
- The contents of JSON success replies (user and chirp fields echoed from the store) are left out. A success reply carries only its status.
- `handlerUsersCreate`, `handlerGetChirps` and `handlerGetChirpById` are outside the modelled core. They validate input (blank email or password, an unparsable id) and map store and hashing errors to statuses (400, 404, 500).
- Every `database.Queries` call is left out. Each is an outcome parameter: `deleteSucceeds`, `storeSucceeds`, `lookup`.
- `uuid.Parse` is the opaque predicate `isUuid`.
- The HTML formatting of `handlerAdminMetrics` is left out. Only the count it reads is modelled.
- `ApiConfig.MiddlewareMetricsInc`: the wrapped file-server handler it calls next is not modelled. The method stands for the counting step that runs before the file server.
- The atomicity of `atomic.Int32` is left out. The counter is a plain field changed by sequential methods. Its int32 wrap-around is modelled.
- Unicode is not modelled. `TrimSpace` trims only ASCII white space (`' '`, `\t`, `\n`, `\v`, `\f`, `\r`). Go also trims U+0085, U+00A0 and other Unicode spaces.
- Case folding is ASCII only. `ToLower` in Go also folds non-ASCII letters; for example the Kelvin sign U+212A lowers to `k`, so Go would also mask "Kerfuffle". For the prefix check the ASCII model is exact, because no letter of "Bearer " has a non-ASCII case partner.
- `http.Header` keys are assumed already canonical. The model does not canonicalise header names.
