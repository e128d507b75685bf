/** Sessions and accounts (add_user.go): login, refresh, revoke, password
    change and the payment-provider webhook, as functions of the request,
    the clock reading `now`, the configured secrets and the two stores. */
module Accounts {
  import opened Base
  import opened Strings
  import opened Auth

  /** A row of the users table; `hashedPassword` is "" when the column is NULL. */
  datatype User = User(id: Uuid, email: string, hashedPassword: string, isChirpyRed: bool)

  type UserStore = map<Uuid, User>

  /** A row of the refresh-token table, keyed by the token text. */
  datatype RefreshRecord = RefreshRecord(token: string, userId: Uuid, createdAt: Time, expiresAt: Time, revokedAt: Option<Time>)

  type TokenStore = map<string, RefreshRecord>

  /** Default and ceiling of a requested access-token lifetime. */
  const MaxLoginLifetime: Duration := 3600 * Second

  /** Lifetime of a refresh token. */
  const RefreshLifetime: Duration := 60 * Day

  /** Lifetime of an access token minted by a refresh. */
  const RefreshedTokenLifetime: Duration := Hour

  const LoginFailed := "Incorrect email or password"

  /** Email addresses identify users: the lookup by email finds at most one. */
  ghost predicate UniqueEmails(users: UserStore) {
    forall a, b :: a in users && b in users && users[a].email == users[b].email ==> a == b
  }

  /** Every user is stored under its own id. */
  ghost predicate KeyedById(users: UserStore) {
    forall id :: id in users ==> users[id].id == id
  }

  /** `SearchEmail`: the user with this email, if any. */
  function FindByEmail(users: UserStore, email: string): (r: Option<User>)
    requires UniqueEmails(users)
    ensures r.None? <==> forall id :: id in users ==> users[id].email != email
    ensures r.Some? ==> r.value.email == email && exists id :: id in users && users[id] == r.value
  {
    if exists id :: id in users && users[id].email == email then
      var id :| id in users && users[id].email == email;
      Some(users[id])
    else None
  }

  // ---------------------------------------------------------------------
  // POST /api/login

  /** The lifetime a login asks for: 0 (absent) becomes an hour, anything
      above an hour becomes an hour, and everything else, negative values
      included, is kept. */
  function ClampLifetime(requested: int): (d: int)
    ensures d <= MaxLoginLifetime && d != 0
    ensures d == requested <==> requested != 0 && requested <= MaxLoginLifetime
    ensures d != requested ==> d == MaxLoginLifetime
  {
    if requested == 0 || requested > MaxLoginLifetime then MaxLoginLifetime else requested
  }

  datatype LoginRequest = LoginRequest(email: string, password: string, expiresInSeconds: int)

  /** The JSON document a successful login returns. */
  datatype Session = Session(id: Uuid, email: string, token: string, refreshToken: string, isChirpyRed: bool)

  /** The record a login stores for `user`. */
  function NewRefreshRecord(token: string, user: Uuid, now: Time): (rec: RefreshRecord)
    ensures rec.token == token && rec.userId == user && rec.revokedAt.None?
    ensures rec.expiresAt - rec.createdAt == RefreshLifetime && rec.createdAt == now
  {
    RefreshRecord(token, user, now, now + RefreshLifetime, None)
  }

  /** `handlerLogin`.  An unknown email and a wrong password get the same
      reply.  On success an access token is issued for the clamped lifetime
      and a refresh token is minted from `random`; if the store already holds
      that token its insert fails unchecked, and the reply carries "" in its
      place. */
  function Login(lib: Library, secret: string, now: Time, req: LoginRequest, random: seq<Byte>,
                 users: UserStore, tokens: TokenStore): (r: Effect<Session, TokenStore>)
    requires UniqueEmails(users)
    requires |random| == RefreshTokenBytes
    ensures r.reply.status == StatusOK || r == Effect(Fail(StatusUnauthorized, LoginFailed), tokens)
    ensures r.reply.status == StatusOK <==>
      FindByEmail(users, req.email).Some?
      && CheckPasswordHash(lib, FindByEmail(users, req.email).value.hashedPassword, req.password)
    ensures r.reply.status == StatusOK ==>
      var user := FindByEmail(users, req.email).value;
      var minted := MakeRefreshToken(random);
      && r.reply.body.Json?
      && r.reply.body.value.id == user.id
      && (JwtRoundTrip(lib) ==>
           && lib.decodeJwt(r.reply.body.value.token).Some?
           && IssuedFor(lib.decodeJwt(r.reply.body.value.token).value.claims, lib, user.id, ClampLifetime(req.expiresInSeconds), now)
           && SignedWith(lib.decodeJwt(r.reply.body.value.token).value, lib, secret))
      && (minted !in tokens ==>
           r.reply.body.value.refreshToken == minted && r.store == tokens[minted := NewRefreshRecord(minted, user.id, now)])
      && (minted in tokens ==> r.reply.body.value.refreshToken == "" && r.store == tokens)
  {
    var lifetime := ClampLifetime(req.expiresInSeconds);
    match FindByEmail(users, req.email)
    case None => Effect(Fail(StatusUnauthorized, LoginFailed), tokens)
    case Some(user) =>
      if !CheckPasswordHash(lib, user.hashedPassword, req.password) then
        Effect(Fail(StatusUnauthorized, LoginFailed), tokens)
      else
        var access := MakeJwt(lib, user.id, secret, lifetime, now);
        var minted := MakeRefreshToken(random);
        var inserted := minted !in tokens;
        var store := if inserted then tokens[minted := NewRefreshRecord(minted, user.id, now)] else tokens;
        var issued := if inserted then minted else "";
        Effect(Reply(StatusOK, Json(Session(user.id, user.email, access, issued, user.isChirpyRed))), store)
  }

  /** The reply does not reveal whether the email or the password was wrong. */
  lemma LoginFailuresIndistinguishable(lib: Library, secret: string, now: Time, random: seq<Byte>,
                                       users: UserStore, tokens: TokenStore,
                                       unknown: LoginRequest, wrong: LoginRequest)
    requires UniqueEmails(users)
    requires |random| == RefreshTokenBytes
    requires FindByEmail(users, unknown.email).None?
    requires FindByEmail(users, wrong.email).Some?
    requires !CheckPasswordHash(lib, FindByEmail(users, wrong.email).value.hashedPassword, wrong.password)
    ensures Login(lib, secret, now, unknown, random, users, tokens) == Login(lib, secret, now, wrong, random, users, tokens)
    ensures Login(lib, secret, now, unknown, random, users, tokens).reply == Fail(StatusUnauthorized, LoginFailed)
  {
  }

  // ---------------------------------------------------------------------
  // POST /api/refresh

  /** `handlerRefresh`.  The outcome is decided in order: header, lookup,
      expiry (an expiry equal to `now` still passes), revocation.  A token
      that is both expired and revoked is reported as expired.  Nothing is
      written: the refresh-token record is left as it is. */
  function Refresh(lib: Library, secret: string, now: Time, bearer: Credential, tokens: TokenStore): (r: Reply<string>)
    ensures bearer.Failure? ==> r == Fail(StatusBadRequest, "No refresh token found in header")
    ensures bearer.Success? && bearer.value !in tokens ==>
      r == Fail(StatusUnauthorized, "Could not find refresh token")
    ensures bearer.Success? && bearer.value in tokens
            && tokens[bearer.value].expiresAt < now ==>
      r == Fail(StatusUnauthorized, "refresh token expired")
    ensures bearer.Success? && bearer.value in tokens
            && tokens[bearer.value].expiresAt >= now
            && tokens[bearer.value].revokedAt.Some? ==>
      r == Fail(StatusUnauthorized, "Refresh token has been revoked")
    ensures r.status == StatusOK <==>
      && bearer.Success?
      && bearer.value in tokens
      && now <= tokens[bearer.value].expiresAt
      && tokens[bearer.value].revokedAt.None?
    ensures r.status == StatusOK ==>
      && r.body.Json?
      && (JwtRoundTrip(lib) ==>
           && lib.decodeJwt(r.body.value).Some?
           && IssuedFor(lib.decodeJwt(r.body.value).value.claims, lib,
                        tokens[bearer.value].userId, RefreshedTokenLifetime, now)
           && SignedWith(lib.decodeJwt(r.body.value).value, lib, secret))
  {
    match bearer
    case Failure(_) => Fail(StatusBadRequest, "No refresh token found in header")
    case Success(t) =>
      if t !in tokens then Fail(StatusUnauthorized, "Could not find refresh token")
      else
        var rec := tokens[t];
        if rec.expiresAt < now then Fail(StatusUnauthorized, "refresh token expired")
        else if rec.revokedAt.Some? then Fail(StatusUnauthorized, "Refresh token has been revoked")
        else Reply(StatusOK, Json(MakeJwt(lib, rec.userId, secret, RefreshedTokenLifetime, now)))
  }

  // ---------------------------------------------------------------------
  // POST /api/revoke

  /** `handlerRevoke`: marks the presented refresh token revoked at `now`.
      The store call is an UPDATE that reports no error when it matches no
      row, so an unknown token also gets 204 and changes nothing; only an
      `outage` of the database gives the 400.  Revoking a revoked token
      moves its revocation time to `now`. */
  function Revoke(now: Time, outage: bool, bearer: Credential, tokens: TokenStore): (r: Effect<(), TokenStore>)
    ensures bearer.Failure? ==>
      r == Effect(Fail(StatusBadRequest, "No refresh token found in header"), tokens)
    ensures bearer.Success? && outage ==>
      r == Effect(Fail(StatusBadRequest, "No refresh token found in database"), tokens)
    ensures bearer.Success? && !outage ==>
      && r.reply == Reply(StatusNoContent, Empty)
      && r.store.Keys == tokens.Keys
      && (bearer.value !in tokens ==> r.store == tokens)
      && (bearer.value in tokens ==>
            r.store[bearer.value] == tokens[bearer.value].(revokedAt := Some(now)))
      && (forall k :: k in r.store && k != bearer.value ==> r.store[k] == tokens[k])
  {
    match bearer
    case Failure(_) => Effect(Fail(StatusBadRequest, "No refresh token found in header"), tokens)
    case Success(t) =>
      if outage then Effect(Fail(StatusBadRequest, "No refresh token found in database"), tokens)
      else if t !in tokens then Effect(Reply(StatusNoContent, Empty), tokens)
      else Effect(Reply(StatusNoContent, Empty), tokens[t := tokens[t].(revokedAt := Some(now))])
  }

  /** A token revoked at `now` is refused by every later refresh: as revoked
      while it is live, as expired afterwards. */
  lemma RevokedTokenIsRefused(lib: Library, secret: string, now: Time, later: Time, t: string, tokens: TokenStore)
    requires t in tokens
    ensures var after := Revoke(now, false, Success(t), tokens).store;
      Refresh(lib, secret, later, Success(t), after)
      == if later <= tokens[t].expiresAt then Fail(StatusUnauthorized, "Refresh token has been revoked")
         else Fail(StatusUnauthorized, "refresh token expired")
  {
  }

  /** Revocation is permanent: no handler clears `revokedAt`, and every
      record keeps its owner and expiry. */
  lemma RevocationIsMonotonic(lib: Library, secret: string, now: Time, outage: bool, bearer: Credential, req: LoginRequest,
                              random: seq<Byte>, users: UserStore, tokens: TokenStore, t: string)
    requires UniqueEmails(users)
    requires |random| == RefreshTokenBytes
    requires t in tokens
    ensures var after := Revoke(now, outage, bearer, tokens).store;
      t in after && after[t].userId == tokens[t].userId && after[t].expiresAt == tokens[t].expiresAt
      && (tokens[t].revokedAt.Some? ==> after[t].revokedAt.Some?)
    ensures var after := Login(lib, secret, now, req, random, users, tokens).store;
      t in after && after[t] == tokens[t]
  {
    RevokeKeepsRecord(now, outage, bearer, tokens, t);
    LoginKeepsRecord(lib, secret, now, req, random, users, tokens, t);
  }

  lemma RevokeKeepsRecord(now: Time, outage: bool, bearer: Credential, tokens: TokenStore, t: string)
    requires t in tokens
    ensures var after := Revoke(now, outage, bearer, tokens).store;
      t in after && after[t].userId == tokens[t].userId && after[t].expiresAt == tokens[t].expiresAt
      && (tokens[t].revokedAt.Some? ==> after[t].revokedAt.Some?)
  {
    var r := Revoke(now, outage, bearer, tokens);
    if bearer.Success? && !outage && bearer.value == t {
      assert r.store[t] == tokens[t].(revokedAt := Some(now));
    }
  }

  lemma LoginKeepsRecord(lib: Library, secret: string, now: Time, req: LoginRequest,
                         random: seq<Byte>, users: UserStore, tokens: TokenStore, t: string)
    requires UniqueEmails(users)
    requires |random| == RefreshTokenBytes
    requires t in tokens
    ensures var after := Login(lib, secret, now, req, random, users, tokens).store;
      t in after && after[t] == tokens[t]
  {
  }

  // ---------------------------------------------------------------------
  // PUT /api/users

  datatype PasswordChange = PasswordChange(email: string, password: string)

  /** Would setting `email` on user `id` collide with another user's address? */
  predicate EmailTaken(users: UserStore, id: Uuid, email: string) {
    exists other :: other in users && other != id && users[other].email == email
  }

  /** Does `UpdateUserInfo` fail?  Only a row it matches can break the
      unique index on emails. */
  predicate UpdateFails(outage: bool, users: UserStore, id: Uuid, email: string) {
    outage || (id in users && EmailTaken(users, id, email))
  }

  /** `handlerChangePassword`: the user named by the token's subject gets the
      new email and a minted hash; the body cannot name another user.  The
      store call is an UPDATE that reports no error when it matches no row:
      it fails when it would give an existing user another user's email, or
      on an `outage` of the database, and a subject with no account gets 200
      with nothing changed. */
  function ChangePassword(lib: Library, secret: string, now: Time, outage: bool, bearer: Credential,
                          req: PasswordChange, salt: Salt, users: UserStore): (r: Effect<string, UserStore>)
    ensures bearer.Failure? ==> r == Effect(Fail(StatusUnauthorized, "No token found in header"), users)
    ensures bearer.Success? && ValidateJwt(lib, bearer.value, secret, now).Failure? ==>
      r == Effect(Fail(StatusUnauthorized, "Could not validate token"), users)
    ensures bearer.Success? && ValidateJwt(lib, bearer.value, secret, now).Success?
            && HashPassword(lib, req.password, salt).Failure? ==>
      r == Effect(Fail(StatusUnauthorized, "Could not hash password"), users)
    ensures bearer.Success? && ValidateJwt(lib, bearer.value, secret, now).Success?
            && HashPassword(lib, req.password, salt).Success?
            && UpdateFails(outage, users, ValidateJwt(lib, bearer.value, secret, now).value, req.email) ==>
      r == Effect(Fail(StatusUnauthorized, "Could not update user info"), users)
    ensures r.reply.status == StatusOK <==>
      && bearer.Success? && ValidateJwt(lib, bearer.value, secret, now).Success?
      && HashPassword(lib, req.password, salt).Success?
      && !outage
      && !(ValidateJwt(lib, bearer.value, secret, now).value in users
           && EmailTaken(users, ValidateJwt(lib, bearer.value, secret, now).value, req.email))
    ensures r.reply.status != StatusOK ==> r.store == users && r.reply.IsError()
    ensures r.reply.status == StatusOK ==>
      var subject := ValidateJwt(lib, bearer.value, secret, now).value;
      && r.reply == Reply(StatusOK, Json(req.email))
      && r.store.Keys == users.Keys
      && (forall id :: id in users && id != subject ==> r.store[id] == users[id])
      && (subject !in users ==> r.store == users)
      && (subject in users ==>
            && !EmailTaken(users, subject, req.email)
            && r.store[subject].email == req.email
            && r.store[subject].id == users[subject].id
            && r.store[subject].isChirpyRed == users[subject].isChirpyRed
            && r.store[subject].hashedPassword == HashPassword(lib, req.password, salt).value
            && (BcryptAccepts(lib) ==> CheckPasswordHash(lib, r.store[subject].hashedPassword, req.password)))
  {
    match bearer
    case Failure(_) => Effect(Fail(StatusUnauthorized, "No token found in header"), users)
    case Success(token) =>
      match ValidateJwt(lib, token, secret, now)
      case Failure(_) => Effect(Fail(StatusUnauthorized, "Could not validate token"), users)
      case Success(subject) =>
        match HashPassword(lib, req.password, salt)
        case Failure(_) => Effect(Fail(StatusUnauthorized, "Could not hash password"), users)
        case Success(hash) =>
          if UpdateFails(outage, users, subject, req.email) then
            Effect(Fail(StatusUnauthorized, "Could not update user info"), users)
          else
            var updated := if subject in users
              then users[subject := users[subject].(email := req.email, hashedPassword := hash)]
              else users;
            Effect(Reply(StatusOK, Json(req.email)), updated)
  }

  /** Changing a password keeps email addresses unique and users under their ids. */
  lemma ChangePasswordKeepsStoreInvariants(lib: Library, secret: string, now: Time, outage: bool, bearer: Credential,
                                           req: PasswordChange, salt: Salt, users: UserStore)
    requires UniqueEmails(users) && KeyedById(users)
    ensures UniqueEmails(ChangePassword(lib, secret, now, outage, bearer, req, salt, users).store)
    ensures KeyedById(ChangePassword(lib, secret, now, outage, bearer, req, salt, users).store)
  {
    var after := ChangePassword(lib, secret, now, outage, bearer, req, salt, users).store;
    if after != users {
      var subject := ValidateJwt(lib, bearer.value, secret, now).value;
      forall a, b | a in after && b in after && after[a].email == after[b].email
        ensures a == b
      {
        assert a != subject ==> after[a] == users[a];
        assert b != subject ==> after[b] == users[b];
      }
    }
  }

  // ---------------------------------------------------------------------
  // POST /api/polka/webhooks

  datatype Webhook = Webhook(event: string, userId: string)

  const UpgradeEvent := "user.upgraded"

  /** `handlerUpgradeAccount`: the `ApiKey` credential must equal the
      configured key; only the "user.upgraded" event changes anything, and
      then only the named user's subscription flag.  The store call is an
      UPDATE that reports no error when it matches no row, so a well-formed
      id of no user gets 204 and changes nothing; only an `outage` of the
      database gives the 404. */
  function UpgradeAccount(lib: Library, polkaKey: string, outage: bool, apiKey: Credential, req: Webhook,
                          users: UserStore): (r: Effect<(), UserStore>)
    ensures apiKey.Failure? ==> r == Effect(Fail(StatusUnauthorized, "No key found in header"), users)
    ensures apiKey.Success? && apiKey.value != polkaKey ==>
      r == Effect(Fail(StatusUnauthorized, "Incorrect key found in header"), users)
    ensures apiKey == Success(polkaKey) && req.event != UpgradeEvent ==>
      r == Effect(Reply(StatusNoContent, Empty), users)
    ensures apiKey == Success(polkaKey) && req.event == UpgradeEvent && lib.parseUuid(req.userId).None? ==>
      r == Effect(Fail(StatusInternalServerError, "Could not parse id"), users)
    ensures apiKey == Success(polkaKey) && req.event == UpgradeEvent && lib.parseUuid(req.userId).Some?
            && outage ==>
      r == Effect(Fail(StatusNotFound, "Could not find user"), users)
    ensures apiKey == Success(polkaKey) && req.event == UpgradeEvent && lib.parseUuid(req.userId).Some?
            && !outage && lib.parseUuid(req.userId).value !in users ==>
      r == Effect(Reply(StatusNoContent, Empty), users)
    ensures apiKey == Success(polkaKey) && req.event == UpgradeEvent && lib.parseUuid(req.userId).Some?
            && !outage && lib.parseUuid(req.userId).value in users ==>
      r == Effect(Reply(StatusNoContent, Empty),
                  users[lib.parseUuid(req.userId).value := users[lib.parseUuid(req.userId).value].(isChirpyRed := true)])
    ensures r.store != users ==>
      && apiKey == Success(polkaKey)
      && req.event == UpgradeEvent
      && !outage
      && lib.parseUuid(req.userId).Some?
      && var id := lib.parseUuid(req.userId).value;
      && id in users
      && r.store == users[id := users[id].(isChirpyRed := true)]
    ensures r.reply.status == StatusNoContent ==> r.reply.body == Empty
    ensures r.reply.status != StatusNoContent ==> r.store == users
  {
    match apiKey
    case Failure(_) => Effect(Fail(StatusUnauthorized, "No key found in header"), users)
    case Success(key) =>
      if key != polkaKey then Effect(Fail(StatusUnauthorized, "Incorrect key found in header"), users)
      else if req.event != UpgradeEvent then Effect(Reply(StatusNoContent, Empty), users)
      else match lib.parseUuid(req.userId)
        case None => Effect(Fail(StatusInternalServerError, "Could not parse id"), users)
        case Some(id) =>
          if outage then Effect(Fail(StatusNotFound, "Could not find user"), users)
          else if id !in users then Effect(Reply(StatusNoContent, Empty), users)
          else Effect(Reply(StatusNoContent, Empty), users[id := users[id].(isChirpyRed := true)])
  }

  /** An upgrade keeps email addresses unique and users under their ids.
      After a 204 for the upgrade event the named user, if there is one, is a
      Chirpy Red member, and an unknown id leaves the store as it was. */
  lemma UpgradeKeepsStoreInvariants(lib: Library, polkaKey: string, outage: bool, apiKey: Credential,
                                    req: Webhook, users: UserStore)
    requires UniqueEmails(users) && KeyedById(users)
    ensures UniqueEmails(UpgradeAccount(lib, polkaKey, outage, apiKey, req, users).store)
    ensures KeyedById(UpgradeAccount(lib, polkaKey, outage, apiKey, req, users).store)
    ensures UpgradeAccount(lib, polkaKey, outage, apiKey, req, users).reply.status == StatusNoContent
            && req.event == UpgradeEvent ==>
      var id := lib.parseUuid(req.userId).value;
      && (id in users ==> UpgradeAccount(lib, polkaKey, outage, apiKey, req, users).store[id].isChirpyRed)
      && (id !in users ==> UpgradeAccount(lib, polkaKey, outage, apiKey, req, users).store == users)
  {
  }

  /** Delivering the same webhook twice has the effect of delivering it once. */
  lemma UpgradeIsIdempotent(lib: Library, polkaKey: string, outage: bool, apiKey: Credential, req: Webhook,
                            users: UserStore)
    ensures var once := UpgradeAccount(lib, polkaKey, outage, apiKey, req, users);
      UpgradeAccount(lib, polkaKey, outage, apiKey, req, once.store) == once
  {
    var once := UpgradeAccount(lib, polkaKey, outage, apiKey, req, users);
    if apiKey == Success(polkaKey) && req.event == UpgradeEvent && !outage && lib.parseUuid(req.userId).Some? {
      var id := lib.parseUuid(req.userId).value;
      if id in users {
        assert once.store[id := once.store[id].(isChirpyRed := true)] == once.store;
      }
    }
  }

  /** With no key configured, every webhook call is refused. */
  lemma UnsetKeyRefusesAll(lib: Library, outage: bool, header: string, req: Webhook, users: UserStore)
    ensures UpgradeAccount(lib, "", outage, GetApiKey(header), req, users).reply.status == StatusUnauthorized
    ensures UpgradeAccount(lib, "", outage, GetApiKey(header), req, users).store == users
  {
  }

  // ---------------------------------------------------------------------
  // The session lifecycle end to end

  /** A refresh token is header-safe: the bearer header built from it is
      read back to exactly that token. */
  lemma RefreshTokenInHeader(random: seq<Byte>)
    requires |random| == RefreshTokenBytes
    ensures GetBearerToken("Bearer " + MakeRefreshToken(random)) == Success(MakeRefreshToken(random))
  {
    var t := MakeRefreshToken(random);
    assert !IsSpace(t[0]) && !IsSpace(t[|t| - 1]);
    BearerRoundTrip(t);
  }

  /** Log in, use the refresh token, revoke it, use it again: the refresh
      yields an access token that validates to the same user for an hour,
      and after revocation the same refresh is refused as revoked — until
      the token has also expired, when it is refused as expired. */
  lemma SessionLifecycle(lib: Library, secret: string, now: Time, later: Time, last: Time,
                         req: LoginRequest, random: seq<Byte>, users: UserStore, tokens: TokenStore)
    requires UuidRoundTrip(lib) && JwtRoundTrip(lib)
    requires UniqueEmails(users)
    requires |random| == RefreshTokenBytes
    requires MakeRefreshToken(random) !in tokens
    requires Login(lib, secret, now, req, random, users, tokens).reply.status == StatusOK
    requires now <= later <= now + RefreshLifetime
    requires later <= last
    ensures var login := Login(lib, secret, now, req, random, users, tokens);
      var header := "Bearer " + login.reply.body.value.refreshToken;
      var refreshed := Refresh(lib, secret, later, GetBearerToken(header), login.store);
      var revoked := Revoke(later, false, GetBearerToken(header), login.store).store;
      && refreshed.status == StatusOK
      && ValidateJwt(lib, refreshed.body.value, secret, later) == Success(login.reply.body.value.id)
      && ValidateJwt(lib, refreshed.body.value, secret, later + Hour + Leeway - 1) == Success(login.reply.body.value.id)
      && ValidateJwt(lib, refreshed.body.value, secret, later + Hour + Leeway) == Failure(TokenExpired)
      && Refresh(lib, secret, last, GetBearerToken(header), revoked)
         == if last <= now + RefreshLifetime then Fail(StatusUnauthorized, "Refresh token has been revoked")
            else Fail(StatusUnauthorized, "refresh token expired")
  {
    var login := Login(lib, secret, now, req, random, users, tokens);
    var minted := MakeRefreshToken(random);
    var user := FindByEmail(users, req.email).value;
    var header := "Bearer " + minted;
    RefreshTokenInHeader(random);
    assert login.reply.body.value.refreshToken == minted;
    assert login.store[minted] == NewRefreshRecord(minted, user.id, now);
    RevokedTokenIsRefused(lib, secret, later, last, minted, login.store);
    JwtLifetime(lib, user.id, secret, Hour, later, later);
    JwtLifetime(lib, user.id, secret, Hour, later, later + Hour + Leeway - 1);
    JwtLifetime(lib, user.id, secret, Hour, later, later + Hour + Leeway);
  }
}
