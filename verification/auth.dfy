/** Credentials and tokens (internal/auth/hashPass.go): parsing of the
    `Authorization` header, refresh-token text, access tokens (a JWT as in
    RFC 7519, signed with HS256 as in section 3.2 of RFC 7518) and password
    hashing.

    The libraries behind these (UUID text, HMAC-SHA256, the compact JWT
    serialisation and bcrypt) are not modelled: they are the fields of a
    `Library` value passed in, and the laws the proofs need of them are
    stated as predicates that lemmas take as hypotheses. */
module Auth {
  import opened Base
  import opened Strings
  import Hex

  // ---------------------------------------------------------------------
  // Library stand-ins

  /** The registered claims chirpy writes into an access token: `sub`,
      `iss`, `iat` and `exp` (section 4.1 of RFC 7519).  The two dates are
      optional because a token presented by a client need not carry them. */
  datatype Claims = Claims(subject: string, issuer: string, issuedAt: Option<Time>, expiresAt: Option<Time>)

  /** A signed token: its claims and the signature over them. */
  datatype Jwt = Jwt(claims: Claims, signature: string)

  /** Random salt bcrypt draws for each hash. */
  type Salt = seq<Byte>

  /** The library functions the handlers call, as uninterpreted total
      functions.  `bcrypt` answers `None` when hashing fails. */
  datatype Library = Library(
    formatUuid: Uuid -> string,
    parseUuid: string -> Option<Uuid>,
    hs256: (Claims, string) -> string,
    encodeJwt: Jwt -> string,
    decodeJwt: string -> Option<Jwt>,
    bcrypt: (string, Salt) -> Option<string>,
    bcryptMatches: (string, string) -> bool)

  /** `uuid.Parse` reads back what `%v` prints for a UUID. */
  ghost predicate UuidRoundTrip(lib: Library) {
    forall u :: lib.parseUuid(lib.formatUuid(u)) == Some(u)
  }

  /** Parsing a serialised token gives back the token. */
  ghost predicate JwtRoundTrip(lib: Library) {
    forall t :: lib.decodeJwt(lib.encodeJwt(t)) == Some(t)
  }

  /** A hash of a password is accepted for that password. */
  ghost predicate BcryptAccepts(lib: Library) {
    forall p, salt, h :: lib.bcrypt(p, salt) == Some(h) ==> lib.bcryptMatches(h, p)
  }

  /** A hash of a password is accepted for no other password. */
  ghost predicate BcryptBinds(lib: Library) {
    forall p, q, salt, h :: lib.bcrypt(p, salt) == Some(h) && lib.bcryptMatches(h, q) ==> q == p
  }

  // ---------------------------------------------------------------------
  // Passwords

  datatype HashError = HashingFailed

  /** `HashPassword`: bcrypt with a fresh salt; its failure is passed on. */
  function HashPassword(lib: Library, password: string, salt: Salt): (r: Result<string, HashError>)
    ensures r.Success? <==> lib.bcrypt(password, salt).Some?
    ensures BcryptAccepts(lib) && r.Success? ==> CheckPasswordHash(lib, r.value, password)
  {
    match lib.bcrypt(password, salt)
    case Some(h) => Success(h)
    case None => Failure(HashingFailed)
  }

  /** `CheckPasswordHash`: does the stored hash accept the password? */
  function CheckPasswordHash(lib: Library, hash: string, password: string): bool
  {
    lib.bcryptMatches(hash, password)
  }

  /** A hashed password verifies, and (under a binding hash) nothing else does. */
  lemma HashThenCheck(lib: Library, p: string, q: string, salt: Salt)
    requires BcryptAccepts(lib) && BcryptBinds(lib)
    requires HashPassword(lib, p, salt).Success?
    ensures CheckPasswordHash(lib, HashPassword(lib, p, salt).value, q) <==> q == p
  {
  }

  // ---------------------------------------------------------------------
  // The Authorization header

  /** The two credential schemes of the `Authorization` header. */
  datatype Scheme = Bearer | ApiKey
  {
    function Prefix(): string {
      match this
      case Bearer => "Bearer "
      case ApiKey => "ApiKey "
    }
  }

  /** The three ways extraction fails, in the order they are checked. */
  datatype CredentialError = HeaderMissing | WrongScheme | TokenMissing

  /** What a handler gets from reading its `Authorization` header: the
      token or key, or the reason there is none.  Handlers take this value,
      `GetBearerToken(header)` or `GetApiKey(header)`, and check it before
      any store access. */
  type Credential = Result<string, CredentialError>

  /** The shared algorithm of `GetBearerToken` and `GetAPIKey`: the header must
      be present, start with the scheme's prefix (case-sensitive, trailing space
      included), and leave a non-blank remainder, which is returned trimmed.
      An absent header reads as "". */
  function Extract(header: string, scheme: Scheme): (r: Credential)
    ensures r == Failure(HeaderMissing) <==> header == ""
    ensures r == Failure(WrongScheme) <==> header != "" && !HasPrefix(header, scheme.Prefix())
    ensures r == Failure(TokenMissing) <==> HasPrefix(header, scheme.Prefix()) && AllSpace(header[|scheme.Prefix()|..])
    ensures r.Success? ==> HasPrefix(header, scheme.Prefix()) && r.value != "" && Trimmed(r.value)
    ensures r.Success? ==> |r.value| <= |header| - |scheme.Prefix()|
  {
    if header == "" then Failure(HeaderMissing)
    else if !HasPrefix(header, scheme.Prefix()) then Failure(WrongScheme)
    else
      var token := TrimSpace(TrimPrefix(header, scheme.Prefix()));
      if token == "" then Failure(TokenMissing) else Success(token)
  }

  function GetBearerToken(header: string): Credential {
    Extract(header, Bearer)
  }

  function GetApiKey(header: string): Credential {
    Extract(header, ApiKey)
  }

  /** The remainder after the prefix is recovered exactly, whatever white
      space surrounds it: extraction inverts "prefix + padding + token". */
  lemma ExtractPadded(scheme: Scheme, lead: string, token: string, trail: string)
    requires AllSpace(lead) && AllSpace(trail)
    requires token != "" && Trimmed(token)
    ensures Extract(scheme.Prefix() + lead + token + trail, scheme) == Success(token)
  {
    var p := scheme.Prefix();
    var h := p + lead + token + trail;
    assert h[..|p|] == p;
    assert h[|p|..] == lead + token + trail;
    TrimSpacePadded(lead, token, trail);
  }

  /** `"Bearer " + t` yields `t` for a non-empty, trimmed `t`. */
  lemma BearerRoundTrip(token: string)
    requires token != "" && Trimmed(token)
    ensures GetBearerToken("Bearer " + token) == Success(token)
  {
    assert "Bearer " + token == "Bearer " + [] + token + [];
    ExtractPadded(Bearer, [], token, []);
  }

  /** Only one prefix is stripped. */
  lemma BearerStripsOnce()
    ensures GetBearerToken("Bearer Bearer x") == Success("Bearer x")
  {
    var t := "Bearer x";
    assert Trimmed(t) by { assert t[0] == 'B' && t[|t| - 1] == 'x'; }
    assert "Bearer " + t == "Bearer Bearer x";
    BearerRoundTrip(t);
  }

  /** Each scheme rejects the other's header, and case matters. */
  lemma SchemesAreDistinct(token: string)
    ensures GetApiKey("Bearer " + token) == Failure(WrongScheme)
    ensures GetBearerToken("ApiKey " + token) == Failure(WrongScheme)
    ensures GetBearerToken("bearer " + token) == Failure(WrongScheme)
  {
    assert ("Bearer " + token)[..7] == "Bearer ";
    assert ("ApiKey " + token)[..7] == "ApiKey ";
    assert ("bearer " + token)[..7] == "bearer ";
  }

  /** Examples: a well-formed header is read, while an
      empty header, a wrong scheme, a bare prefix and a prefix without its
      space all fail, each for its own reason. */
  lemma BearerExamples()
    ensures GetBearerToken("Bearer abc123") == Success("abc123")
    ensures GetBearerToken("") == Failure(HeaderMissing)
    ensures GetBearerToken("Basic abc123") == Failure(WrongScheme)
    ensures GetBearerToken("Bearer ") == Failure(TokenMissing)
    ensures GetBearerToken("Bearer") == Failure(WrongScheme)
  {
    BearerAcceptsExample();
    BearerWrongSchemeExamples();
    BearerBarePrefix();
  }

  lemma BearerWrongSchemeExamples()
    ensures GetBearerToken("Basic abc123") == Failure(WrongScheme)
    ensures GetBearerToken("Bearer") == Failure(WrongScheme)
  {
    assert "Basic abc123"[..7][1] == 'a' != "Bearer "[1];
    BearerRejects("Basic abc123");
    assert |"Bearer"| < |Bearer.Prefix()|;
  }

  lemma BearerAcceptsExample()
    ensures GetBearerToken("Bearer abc123") == Success("abc123")
  {
    var t := "abc123";
    assert Trimmed(t) by { assert t[0] == 'a' && t[|t| - 1] == '3'; }
    assert "Bearer " + t == "Bearer abc123";
    BearerRoundTrip(t);
  }

  lemma BearerBarePrefix()
    ensures GetBearerToken("Bearer ") == Failure(TokenMissing)
  {
    assert "Bearer "[7..] == [];
  }

  /** A header whose first seven characters are not "Bearer " is refused. */
  lemma BearerRejects(header: string)
    requires |header| >= 7 && header[..7] != "Bearer "
    ensures GetBearerToken(header) == Failure(WrongScheme)
  {
  }

  // ---------------------------------------------------------------------
  // Refresh tokens

  const RefreshTokenBytes := 32

  /** `MakeRefreshToken`: the hex text of 32 random bytes; the bytes are the
      caller's draw from `crypto/rand`. */
  function MakeRefreshToken(random: seq<Byte>): (token: string)
    requires |random| == RefreshTokenBytes
    ensures |token| == 64
    ensures forall i :: 0 <= i < |token| ==> Hex.IsHexDigit(token[i])
    ensures Hex.Decode(token) == Some(random)
  {
    Hex.DecodeEncode(random);
    Hex.Encode(random)
  }

  /** Different random draws give different refresh tokens. */
  lemma RefreshTokensDistinct(a: seq<Byte>, b: seq<Byte>)
    requires |a| == RefreshTokenBytes && |b| == RefreshTokenBytes
    requires a != b
    ensures MakeRefreshToken(a) != MakeRefreshToken(b)
  {
    if MakeRefreshToken(a) == MakeRefreshToken(b) {
      Hex.EncodeInjective(a, b);
    }
  }

  // ---------------------------------------------------------------------
  // Access tokens

  const Issuer := "chirpy"

  /** Clock skew tolerated when checking `exp`. */
  const Leeway: Duration := 5 * Second

  /** What `MakeJWT` puts in a token issued at `now`. */
  predicate IssuedFor(c: Claims, lib: Library, user: Uuid, expiresIn: Duration, now: Time) {
    && c.subject == lib.formatUuid(user)
    && c.issuer == Issuer
    && c.issuedAt == Some(now)
    && c.expiresAt == Some(now + expiresIn)
  }

  predicate SignedWith(t: Jwt, lib: Library, secret: string) {
    t.signature == lib.hs256(t.claims, secret)
  }

  function IssuedClaims(lib: Library, user: Uuid, expiresIn: Duration, now: Time): (c: Claims)
    ensures IssuedFor(c, lib, user, expiresIn, now)
  {
    Claims(lib.formatUuid(user), Issuer, Some(now), Some(now + expiresIn))
  }

  /** `MakeJWT`: a token for `user`, issued now, expiring `expiresIn`
      seconds later, signed with `secret`.  Signing is taken to succeed. */
  function MakeJwt(lib: Library, user: Uuid, secret: string, expiresIn: Duration, now: Time): (token: string)
    ensures JwtRoundTrip(lib) ==>
      && lib.decodeJwt(token).Some?
      && IssuedFor(lib.decodeJwt(token).value.claims, lib, user, expiresIn, now)
      && SignedWith(lib.decodeJwt(token).value, lib, secret)
  {
    var c := IssuedClaims(lib, user, expiresIn, now);
    lib.encodeJwt(Jwt(c, lib.hs256(c, secret)))
  }

  /** Why `ValidateJWT` refuses a token, in the order the checks run. */
  datatype JwtError = Malformed | SignatureInvalid | TokenExpired | SubjectMalformed

  /** The token library accepts `exp` only while the clock is strictly
      before `exp` plus the leeway, so a token is expired from the second
      `exp + Leeway` on; a token without `exp` never expires.  With `now`
      the wall clock rounded down to the second this is the same test. */
  predicate ExpiredAt(c: Claims, now: Time) {
    c.expiresAt.Some? && now >= c.expiresAt.value + Leeway
  }

  /** `ValidateJWT`: parse, check the signature, check expiry, then read the
      subject back as a UUID.  Issuer and `iat` are not checked. */
  function ValidateJwt(lib: Library, token: string, secret: string, now: Time): (r: Result<Uuid, JwtError>)
    ensures r == Failure(Malformed) <==> lib.decodeJwt(token).None?
    ensures r == Failure(SignatureInvalid) <==>
      lib.decodeJwt(token).Some? && !SignedWith(lib.decodeJwt(token).value, lib, secret)
    ensures r.Success? ==>
      && lib.decodeJwt(token).Some?
      && SignedWith(lib.decodeJwt(token).value, lib, secret)
      && !ExpiredAt(lib.decodeJwt(token).value.claims, now)
      && lib.parseUuid(lib.decodeJwt(token).value.claims.subject) == Some(r.value)
    ensures r == Failure(TokenExpired) <==>
      && lib.decodeJwt(token).Some?
      && SignedWith(lib.decodeJwt(token).value, lib, secret)
      && ExpiredAt(lib.decodeJwt(token).value.claims, now)
    ensures r == Failure(SubjectMalformed) <==>
      && lib.decodeJwt(token).Some?
      && SignedWith(lib.decodeJwt(token).value, lib, secret)
      && !ExpiredAt(lib.decodeJwt(token).value.claims, now)
      && lib.parseUuid(lib.decodeJwt(token).value.claims.subject).None?
  {
    match lib.decodeJwt(token)
    case None => Failure(Malformed)
    case Some(t) =>
      if !SignedWith(t, lib, secret) then Failure(SignatureInvalid)
      else if ExpiredAt(t.claims, now) then Failure(TokenExpired)
      else match lib.parseUuid(t.claims.subject)
        case None => Failure(SubjectMalformed)
        case Some(u) => Success(u)
  }

  /** A token made for `user` validates to `user` exactly until its expiry
      plus the leeway is reached, and is refused as expired from then on. */
  lemma JwtLifetime(lib: Library, user: Uuid, secret: string, expiresIn: Duration, issued: Time, now: Time)
    requires UuidRoundTrip(lib) && JwtRoundTrip(lib)
    ensures ValidateJwt(lib, MakeJwt(lib, user, secret, expiresIn, issued), secret, now)
         == if now < issued + expiresIn + Leeway then Success(user) else Failure(TokenExpired)
  {
    var c := IssuedClaims(lib, user, expiresIn, issued);
    assert lib.decodeJwt(lib.encodeJwt(Jwt(c, lib.hs256(c, secret)))) == Some(Jwt(c, lib.hs256(c, secret)));
    assert lib.parseUuid(lib.formatUuid(user)) == Some(user);
  }

  /** A token checked against another secret is refused, provided HS256 tells
      the two secrets apart on its claims. */
  lemma JwtWrongSecret(lib: Library, user: Uuid, secret: string, other: string, expiresIn: Duration, issued: Time, now: Time)
    requires JwtRoundTrip(lib)
    requires lib.hs256(IssuedClaims(lib, user, expiresIn, issued), secret)
          != lib.hs256(IssuedClaims(lib, user, expiresIn, issued), other)
    ensures ValidateJwt(lib, MakeJwt(lib, user, secret, expiresIn, issued), other, now) == Failure(SignatureInvalid)
  {
    var c := IssuedClaims(lib, user, expiresIn, issued);
    assert lib.decodeJwt(lib.encodeJwt(Jwt(c, lib.hs256(c, secret)))) == Some(Jwt(c, lib.hs256(c, secret)));
  }

  /** The two unit tests of the repository: a day-long token validates at
      once, and a token that expired an hour ago does not. */
  lemma JwtUnitTests(lib: Library, user: Uuid, now: Time)
    requires UuidRoundTrip(lib) && JwtRoundTrip(lib)
    ensures ValidateJwt(lib, MakeJwt(lib, user, "your-test-secret", 24 * Hour, now), "your-test-secret", now) == Success(user)
    ensures ValidateJwt(lib, MakeJwt(lib, user, "your-test-secret", -Hour, now), "your-test-secret", now) == Failure(TokenExpired)
  {
    JwtLifetime(lib, user, "your-test-secret", 24 * Hour, now, now);
    JwtLifetime(lib, user, "your-test-secret", -Hour, now, now);
  }
}
