# chirpy: a verified model of the credential, chirp and session logic

chirpy is a small HTTP backend for short posts ("chirps"). Users log in with
email and password. They receive a short-lived access token (a JWT as in
RFC 7519, signed with HS256 as in section 3.2 of RFC 7518) and a long-lived
opaque refresh token. This project models the sequential decision logic
behind that in Dafny, as pure functions over immutable values. The clock
(`now`), the secrets, the random draws and the stores are all explicit
parameters.

- `Auth` (internal/auth/hashPass.go): parsing of the `Authorization` header
  for the `Bearer ` and `ApiKey ` schemes, refresh-token text (hex of 32
  random bytes), access-token issue and validation with the 5-second expiry
  leeway, and password hashing.
- `ChirpPost` (handler_validate.go): posting a chirp. Authentication comes
  first, then the 140-byte limit, then the word-level profanity mask.
- `Chirps` (return_chirps.go): listing chirps with the `sort` and
  `author_id` parameters, and the owner-only delete with its fixed order of
  checks.
- `Accounts` (add_user.go): login with the lifetime clamp, refresh,
  revoke, password change and the upgrade webhook. These run over a user
  map and a refresh-token map.
- `Strings`, `Hex` and `Base` hold the parts of Go's `strings` and
  `encoding/hex` the handlers use, plus shared types.

Library internals are not modelled: UUID text, HMAC-SHA256, the compact JWT
serialisation and bcrypt. Each is a field of the `Auth.Library` datatype, a
total function with no definition of its own. The laws that proofs need are
predicates, and lemmas take them as hypotheses:

- `UuidRoundTrip`: parsing a formatted UUID gives the UUID back.
- `JwtRoundTrip`: decoding an encoded token gives the token back.
- `BcryptAccepts`: a hash accepts its own password.
- `BcryptBinds`: a hash accepts no other password.

A handler returns a `Reply`: the status code, plus an empty body, the error
message of `respondWithError`, or a JSON value. A handler that writes to a
store returns an `Effect`, which pairs the reply with the new store.

Every handler that reads the `Authorization` header does so through
`GetBearerToken` or `GetAPIKey`, before it touches a store. The model passes
that result to the handler as an `Auth.Credential`: the token or key, or the
reason there is none. So a handler's contract covers every header. Some
checks come earlier. `handlerChirpsValidate` decodes the body first, which
is outside the model. `handlerDeleteChirp` parses the path id first, and
`Chirps.DeleteChirp` keeps that order. `Accounts.SessionLifecycle` and
`Accounts.UnsetKeyRefusesAll` tie the two steps together on concrete headers.

Notes on what the code does:

- The one-hour cap on access-token lifetime is not in `MakeJWT`. It is the
  login clamp (add_user.go:108-115), and negative lifetimes pass through it.
- `handlerRefresh` checks expiry before revocation (add_user.go:185-194). A
  token that is both expired and revoked is therefore reported as expired.
- `RevokeRefreshToken`, `UpdateUserInfo` and `UpgradeUser` return only an
  error (add_user.go:222, 265, 320), while every query that returns a row
  is called as `x, err := …`. So they are `:exec` queries, and an UPDATE
  that matches no row is not an error. A revoke of an unknown token
  therefore answers 204. So does an upgrade event for a well-formed id
  that names no user, and a password change for a token subject with no
  account answers 200. Each handler takes an `outage` flag for a database
  failure, which gives the error replies at add_user.go:223-226, 270-273
  and 321-324.
- Access-token expiry follows the rule of the token library the code calls
  (golang-jwt v5): `exp` is accepted only while the clock is strictly before
  `exp` plus the 5-second leeway. A token is therefore already expired at
  the second `exp + 5`. Times are whole seconds. A wall-clock reading
  rounded down to the second gives the same verdict, because `exp` itself
  is a whole second.

The query texts behind the store calls are not part of this model.
Their behaviour is assumed as follows:

- `RevokeRefreshToken` sets the revocation time to now on the matching
  row, also when it is already revoked, and changes nothing when no row
  matches.
- `UpdateUserInfo` fails when the row it matches would get another user's
  email, because emails are unique. It changes nothing when the id
  matches no user.
- `UpgradeUser` sets the flag on the matching row and changes nothing when
  no row matches.
- `GetUserFromRToken` returns the owner of the refresh-token record.
- `NewChirp` fails only when the new id is already taken.
- `CreateRefreshToken` fails only when the token is already stored.
- Email addresses are unique across users, so `SearchEmail` finds at most
  one user (`Accounts.UniqueEmails`, required by `FindByEmail` and `Login`).

## Model

| member | source | states |
|---|---|---|
| Auth.Extract | internal/auth/hashPass.go:76-96 | Three failures, in order: the header is missing exactly when it is "", the scheme is wrong exactly when a non-empty header lacks the case-sensitive prefix, and the token is missing exactly when only white space follows the prefix. On success the token is non-empty, trimmed, and no longer than what follows the prefix. |
| Auth.ExtractPadded | internal/auth/hashPass.go:82-95 | For either scheme, prefix + white space + a non-empty trimmed token + white space yields exactly that token. Extraction inverts padding. |
| Auth.BearerRoundTrip | internal/auth/hashPass.go:83-95 | `"Bearer " + t` yields `t` for every non-empty trimmed `t`. |
| Auth.BearerStripsOnce | internal/auth/hashPass.go:88 | Only one prefix is removed: "Bearer Bearer x" yields "Bearer x". |
| Auth.SchemesAreDistinct | internal/auth/hashPass.go:105-125 | `GetAPIKey` refuses a "Bearer …" header. `GetBearerToken` refuses an "ApiKey …" header and a lower-case "bearer …" header. |
| Auth.BearerExamples | internal/auth/hashPass.go:76-96 | "Bearer abc123" gives "abc123". "" gives header-missing. "Basic abc123" and "Bearer" give wrong-scheme. "Bearer " gives token-missing. |
| Auth.MakeRefreshToken | internal/auth/hashPass.go:98-103 | Never fails. The result has 64 characters, all in [0-9a-f], and decodes back to the 32 random bytes. |
| Auth.RefreshTokensDistinct | internal/auth/hashPass.go:98-103 | Different random draws give different refresh tokens. |
| Hex.DecodeEncode | internal/auth/hashPass.go:101 | Lower-case hex decoding undoes `hex.EncodeToString`. |
| Auth.HashPassword | internal/auth/hashPass.go:17-25 | Succeeds exactly when bcrypt does. A successful hash is accepted by `CheckPasswordHash` for the same password. |
| Auth.HashThenCheck | internal/auth/hashPass.go:27-31 | With a sound and binding bcrypt, a hash of p accepts a password q exactly when q = p. |
| Auth.MakeJwt | internal/auth/hashPass.go:33-46 | The token decodes to claims with subject = the user's UUID text, issuer "chirpy", iat = now and exp = now + expiresIn. The signature is HS256 of those claims under the secret. |
| Auth.ValidateJwt | internal/auth/hashPass.go:48-74 | Each refusal is characterised exactly, in the order checked. Malformed: the token does not decode. Bad signature: it decodes but is not signed under the secret. Expired: signed, but now >= exp + 5. Bad subject: signed and unexpired, but the subject is not a UUID. Every other token validates to the UUID its subject parses to. |
| Auth.JwtLifetime | internal/auth/hashPass.go:48-74 | A token issued at `issued` for `d` seconds validates to its user exactly while now < issued + d + 5. From that second on it is refused as expired. |
| Auth.JwtWrongSecret | internal/auth/hashPass.go:49-60 | A token checked against another secret is refused with a bad signature, provided HS256 separates the two secrets on its claims. |
| Auth.JwtUnitTests | internal/auth/password_test.go:10-53 | A 24-hour token validates to its user at once. A token made with a lifetime of minus one hour is refused as expired. |
| Strings.TrimSpace | internal/auth/hashPass.go:89 | The result has no white space at either end, is no longer than the input, and is empty exactly when the input is all white space. |
| Strings.TrimSpacePadded | internal/auth/hashPass.go:89 | Trimming white space + t + white space gives t when t is trimmed. |
| Strings.Split | handler_validate.go:55 | There is one more piece than there are spaces, and no piece contains a space. |
| Strings.JoinSplit | handler_validate.go:55-64 | Joining the pieces of a split with " " gives the original string. |
| Strings.SplitJoin | handler_validate.go:55-64 | Splitting a join of one or more space-free words gives the words back. |
| ChirpPost.CleanBodyWords | handler_validate.go:55-64 | The cleaned body has as many words as the body. Each profane word becomes "****" in place, and every other word is unchanged. |
| ChirpPost.CleanBodyShrinks | handler_validate.go:55-64 | Cleaning never makes the body longer in bytes. |
| ChirpPost.CleanBodyIdentity | handler_validate.go:55-64 | Cleaning leaves the body unchanged exactly when none of its words is profane. |
| ChirpPost.CleanBodyIdempotent | handler_validate.go:55-64 | Cleaning a cleaned body changes nothing. |
| ChirpPost.CleanBodyIgnoresCase | handler_validate.go:57-62 | "Kerfuffle" is masked: matching ignores ASCII case. |
| ChirpPost.CleanBodyKeepsPunctuated | handler_validate.go:57-62 | "kerfuffle!" is not masked: attached punctuation makes it a different word. |
| ChirpPost.PostChirp | handler_validate.go:14-83 | A bearer failure and then a token failure give 401 whatever the body. Only after those does a body over 140 bytes give 400. Every refusal leaves the store unchanged. With authentication passed and the body within 140 bytes, an id the store already holds gives 500 "Can not post chirp!". The reply is 201 exactly when authentication passes, the body is within 140 bytes and the id is new. A 201 stores exactly one new chirp: its owner is the token's subject, its body is the cleaned body, and it is at most 140 bytes. |
| ChirpPost.OwnerComesFromToken | handler_validate.go:67-70 | The `user_id` field of the request changes neither the reply nor the store. |
| ChirpPost.PostKeepsWellformed | handler_validate.go:48-70 | Posting keeps every stored chirp under its own id, within 140 bytes, and free of words left to mask. |
| ChirpPost.DeleteKeepsWellformed | return_chirps.go:132-147 | Deleting keeps the store well formed. |
| Chirps.ParseSortOrder | return_chirps.go:46-49 | Descending exactly when the parameter is exactly "desc". Every other value means ascending. |
| Chirps.InsertSorted | return_chirps.go:89-97 | Inserting into a list sorted by creation time keeps it sorted. |
| Chirps.SortChirps | return_chirps.go:89-97 | The output is a permutation of the input (equal multisets). Creation times are non-decreasing for ascending and non-increasing for descending. |
| Chirps.FilterByAuthor | return_chirps.go:82-86 | Every chirp of the author is kept as often as it occurs, every other chirp is dropped, and every chirp kept has that author. |
| Chirps.RetrieveChirps | return_chirps.go:44-104 | A non-empty `author_id` that does not parse gives 500 "Could not parse", and nothing else does. Otherwise 200 with a list sorted in the requested order. Without an author it is a permutation of all rows. With one, it holds exactly that author's rows, with their counts. |
| Chirps.RetrieveMembership | return_chirps.go:69-87 | A chirp is listed exactly when it is a row and, if an author was given, that author wrote it. |
| Chirps.DeleteChirp | return_chirps.go:106-148 | Checks run in this order: id parse (500), bearer (401), token validation (403), lookup (404 "Could not find chirp"). The reply is 204 exactly when all of these pass, the chirp exists and the token's subject owns it. Only then is the chirp removed. Every other reply is an error with the store unchanged. |
| Chirps.DeleteByStrangerRefused | return_chirps.go:132-135 | An authenticated non-owner gets 403 "not authorised to complete delete task" and nothing is deleted. |
| Accounts.FindByEmail | add_user.go:118-123 | Finds nothing exactly when no user has the email. Otherwise it finds a stored user with that email. |
| Accounts.ClampLifetime | add_user.go:108-115 | Never 0 and never above 3600. The request is kept exactly when it is non-zero and at most 3600, negatives included. Otherwise the result is 3600. |
| Accounts.Login | add_user.go:81-158 | Answers 200 exactly when the email is known and the password matches its hash. Every other case gets the identical 401 "Incorrect email or password" with no store change. On 200 the access token is issued for the user with the clamped lifetime, and a refresh record is stored for the user with expiry now + 60 days and no revocation. If the minted refresh token is already stored, the reply carries "" instead and nothing is stored. |
| Accounts.NewRefreshRecord | add_user.go:141-145 | A new record belongs to the user, is not revoked, and expires 60 days after its creation at `now`. |
| Accounts.LoginFailuresIndistinguishable | add_user.go:118-132 | An unknown email and a wrong password give the same reply and the same store. |
| Accounts.Refresh | add_user.go:160-212 | Outcomes in order: a bad header gives 400, an unknown token 401, expiresAt < now 401 "expired" (checked before revocation), a revoked token 401. Success requires expiresAt >= now, so equality passes. It returns a 1-hour token for the record's owner and writes nothing. |
| Accounts.Revoke | add_user.go:214-230 | A bad header gives 400, and then a database outage gives 400 "No refresh token found in database". Otherwise the reply is 204. A known token gets its revocation time set to now, and no other record changes. An unknown token changes nothing. |
| Accounts.RevokedTokenIsRefused | add_user.go:185-229 | After a token is revoked, every refresh with it is refused: as revoked while it is unexpired, and as expired after that. |
| Accounts.RevocationIsMonotonic | add_user.go:214-230 | Neither revoke nor login clears a revocation or changes a record's owner or expiry. |
| Accounts.ChangePassword | add_user.go:232-279 | A bad header and then a bad token give 401. Only the user named by the token's subject can change. A failed hash then gives 401 "Could not hash password". A database outage, or an email held by another user when the subject has an account, gives 401 "Could not update user info". The reply is 200 exactly when the credential and token pass, the hash succeeds, there is no outage, and the subject has no account or the email is free. On 200 an existing subject gets the new email and the new hash, which accepts the new password. A subject with no account changes nothing. Every other user is unchanged. |
| Accounts.ChangePasswordKeepsStoreInvariants | add_user.go:265-273 | Emails stay unique and users stay under their own ids. |
| Accounts.UpgradeAccount | add_user.go:281-327 | A missing key and then a wrong key give 401. Any event other than "user.upgraded" gives 204 with no change. For an authorised "user.upgraded" event, an unparsable user id gives 500 "Could not parse id", and then a database outage gives 404 "Could not find user". Otherwise the reply is 204: an existing user gets exactly that user's flag set, and an unknown user changes nothing. No other call changes the store. |
| Accounts.UpgradeKeepsStoreInvariants | add_user.go:309-326 | An upgrade keeps emails unique and users under their own ids. After a 204 for a "user.upgraded" event, a named user who exists is a member, and an unknown id leaves the store unchanged. |
| Accounts.UpgradeIsIdempotent | add_user.go:281-327 | Delivering the same webhook twice gives the same reply and store as delivering it once. |
| Accounts.UnsetKeyRefusesAll | add_user.go:290-299 | With an empty configured key every webhook call gets 401 and nothing changes. |
| Accounts.RefreshTokenInHeader | add_user.go:173-177 | A minted refresh token survives the bearer header unchanged. |
| Accounts.SessionLifecycle | add_user.go:139-229 | Log in, then refresh within 60 days: the refresh gives a token that validates to the same user up to the last second before one hour plus the leeway, and is refused as expired at that second. After a revoke, the same refresh is refused as revoked, or as expired once 60 days have passed. |

## Left out

- HTTP routing, JSON decoding and encoding, and the response helpers are not modelled. Requests arrive already decoded, so the decode-error replies (500 or 401) are not modelled.
- handlerChirpsGet, handlerAddUser, handlerShowUsers, reset.go and the metrics counter are outside the modelled core. This includes the hash failure without `return` at add_user.go:53-55.
- Library internals are uninterpreted fields of `Auth.Library`: bcrypt, HMAC-SHA256, base64url/JSON token serialisation and UUID text. The token's `alg` header is not modelled.
- `nbf` claims are not modelled. The model checks no issuer or `iat` on validation, because the source checks neither.
- Time is whole seconds. Sub-second truncation of JWT dates is not modelled.
- The 60-day refresh expiry is modelled as 60 × 86400 s, while `AddDate` counts calendar days in local time, which can differ by an hour across a daylight-saving change.
- 64-bit overflow of `ExpiresInSeconds * time.Second` for huge negative lifetimes is not modelled.
- Auth.MakeJwt: signing is assumed never to fail. Under that assumption, the unchecked-error fall-through branches at add_user.go:135-137 and 204-207 cannot happen.
- Auth.MakeRefreshToken: the ignored `rand.Read` error is not modelled. The 32 bytes are a parameter, so any draw, all zeros included, is covered.
- Strings.TrimSpace: only ASCII white space is trimmed. Go also trims Unicode spaces such as U+00A0.
- Strings.ToLower: only ASCII letters are folded. Go also folds others, such as KELVIN SIGN U+212A to "k", so the source masks "\u212Aerfuffle" (a K written as the Kelvin sign) but the model does not.
- Store failures are modelled only for the three UPDATE calls, as the `outage` flag. Store read failures are not modelled: `GetChirps` (500), `GetUserFromRToken` (500), and `DeleteChirp` after a successful lookup (403).
- Auth.HashThenCheck: relies on an idealised bcrypt that accepts no other password, because bcrypt's collision resistance is not modelled.
- Auth.JwtWrongSecret: assumes HS256 gives different signatures under the two secrets, because HMAC is uninterpreted.
- Chirps.SortChirps: `sort.Slice` is not stable, so the order of chirps with equal creation times is unspecified. The model picks one such order, and its contract states only sortedness and permutation.
- The source logs secrets at internal/auth/hashPass.go:28-29. The model does not reproduce this.
- Accounts.Refresh: the reply body is modelled as the new access token alone. The source wraps it in a user object whose other fields are zero values.
- Concurrency and the atomicity of store operations are not modelled. Each handler is one sequential step.
