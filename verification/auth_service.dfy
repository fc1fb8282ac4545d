/**
 * The authentication service: e-mail captchas kept in the cache, sign-up,
 * sign-in, refresh-token rotation and the role check. Two versions exist:
 * the current service and an earlier one in the `internal` tree, which
 * differ in how captchas are compared and in the errors they return; each
 * operation takes the version as a parameter.
 *
 * The cache is a map from key to value and time-to-live. Password hashing,
 * token generation and parsing, random draws and the mailer are inputs:
 * their results (or failures) are passed in.
 */
module AuthService {
  import opened Common
  import opened Text
  import opened Errs
  import opened Random
  import Config

  datatype Version = Current | Earlier

  // ---------------------------------------------------------------------------
  // Users and cache
  // ---------------------------------------------------------------------------

  /** A `users` row; `live` is false once the row is soft-deleted (`gorm.Model`'s scope hides it). */
  datatype Account = Account(uuid: string, email: string, passwordHash: string, role: int, username: string, live: bool)

  type Users = seq<Account>

  datatype Entry = Entry(value: string, ttl: int)

  type Cache = map<string, Entry>

  /** `Get`'s value: the stored string, or `""` when the key is absent. */
  function CachedValue(cache: Cache, key: string): string {
    if key in cache then cache[key].value else ""
  }

  /** The first live row that satisfies `p`. */
  function FirstLive(users: Users, p: Account -> bool): (r: Option<Account>)
    ensures r.Some? ==> r.value in users && r.value.live && p(r.value)
    ensures r.None? <==> forall a :: a in users && a.live ==> !p(a)
  {
    if |users| == 0 then None
    else if users[0].live && p(users[0]) then Some(users[0])
    else
      var rest := FirstLive(users[1..], p);
      assert forall a :: a in users ==> a == users[0] || a in users[1..];
      rest
  }

  predicate EmailTaken(users: Users, email: string) {
    exists a :: a in users && a.live && a.email == email
  }

  // ---------------------------------------------------------------------------
  // Captchas
  // ---------------------------------------------------------------------------

  const CaptchaTtl: int := 5 * Config.Minute
  const CaptchaAlphabet: string := "ABCDEFGHIJKLMNOPQRSTUVWXYZ0123456789"

  /** The captcha types with mail metadata. */
  datatype CaptchaKind = RegisterKind | PasswordResetKind | ChangeEmailKind

  function KindName(k: CaptchaKind): string {
    match k
    case RegisterKind => "Register"
    case PasswordResetKind => "PasswordReset"
    case ChangeEmailKind => "ChangeEmail"
  }

  /** `getCaptchaEmailMeta`'s table lookup: a known type name, or nothing. */
  function LookupKind(t: string): (r: Option<CaptchaKind>)
    ensures r.Some? ==> KindName(r.value) == t
    ensures r.None? ==> forall k :: KindName(k) != t
  {
    if t == "Register" then Some(RegisterKind)
    else if t == "PasswordReset" then Some(PasswordResetKind)
    else if t == "ChangeEmail" then Some(ChangeEmailKind)
    else None
  }

  /** An empty type means a sign-up captcha. */
  function DefaultType(t: string): (r: string)
    ensures t != "" ==> r == t
    ensures r != ""
  {
    if t == "" then "Register" else t
  }

  /** The cache key of a captcha: `<type>:<email>`. */
  function CaptchaKey(t: string, email: string): string { t + ":" + email }

  /** The cache key of a user's refresh token. */
  function RefreshKey(uuid: string): string { "RefreshToken:" + uuid }

  /** A captcha type never names a refresh-token key, so the two kinds of entries never collide. */
  lemma CaptchaKeysAvoidRefreshKeys(k: CaptchaKind, email: string, uuid: string)
    ensures CaptchaKey(KindName(k), email) != RefreshKey(uuid)
  {
    var a := CaptchaKey(KindName(k), email);
    var b := RefreshKey(uuid);
    assert b[0] == 'R' && b[2] == 'f';
    match k
    case RegisterKind => assert a[2] == 'g';
    case PasswordResetKind => assert a[0] == 'P';
    case ChangeEmailKind => assert a[0] == 'C';
  }

  /** What reaches the mailer: the recipient, the captcha type and the code. */
  datatype Mail = Mail(to: string, kind: CaptchaKind, captcha: string)

  /** The random draws and the outcome of the calls `SendCaptchaMail` makes. */
  datatype SendEnv = SendEnv(dbFails: bool, draws: seq<Option<nat>>, cacheFails: bool, mailFails: bool)

  /** The cache afterwards, the mail handed to the mailer if any, and the error returned if any. */
  datatype Sent = Sent(cache: Cache, mail: Option<Mail>, err: Option<Failure>)

  predicate ValidSendEnv(v: Version, env: SendEnv) {
    && |env.draws| == 6 && ValidDraws(env.draws, CaptchaAlphabet)
    // The earlier version draws with `math/rand`, which cannot fail.
    && (v.Earlier? ==> forall i :: 0 <= i < 6 ==> env.draws[i].Some?)
  }

  function UserExistsError(v: Version): Failure { if v.Current? then Conflict else UserExists }

  function UnknownTypeError(v: Version): Failure { if v.Current? then InvalidParam else Plain }

  function CacheSetError(v: Version): Failure { if v.Current? then CacheError else Plain }

  function DbError(v: Version): Failure { if v.Current? then DatabaseError else Plain }

  /**
   * `SendCaptchaMail`: refuses a registered address, defaults the type, looks
   * up its metadata, stores a fresh six-character code for five minutes and
   * only then mails it.
   */
  function SendCaptchaMail(v: Version, users: Users, cache: Cache, to: string, ctype: string, env: SendEnv): (r: Sent)
    requires ValidSendEnv(v, env)
    ensures r.err == Some(UserExistsError(v)) <==> !env.dbFails && EmailTaken(users, to)
    ensures !env.dbFails && !EmailTaken(users, to) && LookupKind(DefaultType(ctype)).None? ==>
      r == Sent(cache, None, Some(UnknownTypeError(v)))
    ensures r.mail.None? ==> r.cache == cache && r.err.Some?
    ensures r.mail.Some? ==>
      var captcha := r.mail.value.captcha;
      && r.mail.value.to == to && KindName(r.mail.value.kind) == DefaultType(ctype)
      && r.cache == cache[CaptchaKey(DefaultType(ctype), to) := Entry(captcha, CaptchaTtl)]
      && |captcha| == 6 && (forall i :: 0 <= i < 6 ==> captcha[i] in CaptchaAlphabet || captcha[i] == 'a')
      && (r.err.None? <==> !env.mailFails)
    ensures r.err.None? ==> r.mail.Some?
  {
    if env.dbFails then Sent(cache, None, Some(DbError(v)))
    else if EmailTaken(users, to) then Sent(cache, None, Some(UserExistsError(v)))
    else
      var t := DefaultType(ctype);
      match LookupKind(t)
      case None => Sent(cache, None, Some(UnknownTypeError(v)))
      case Some(kind) =>
        var captcha := RandomString(6, CaptchaAlphabet, env.draws);
        if env.cacheFails then Sent(cache, None, Some(CacheSetError(v)))
        else
          var cache' := cache[CaptchaKey(t, to) := Entry(captcha, CaptchaTtl)];
          Sent(cache', Some(Mail(to, kind, captcha)), if env.mailFails then Some(MailError) else None)
  }

  /** A code whose mail could not be sent stays stored, and is valid until it expires. */
  lemma UnsentCaptchaStaysCached(v: Version, users: Users, cache: Cache, to: string, ctype: string, env: SendEnv)
    requires ValidSendEnv(v, env)
    requires !env.dbFails && !EmailTaken(users, to) && LookupKind(DefaultType(ctype)).Some? && !env.cacheFails && env.mailFails
    ensures var r := SendCaptchaMail(v, users, cache, to, ctype, env);
      && r.err == Some(MailError)
      && CachedValue(r.cache, CaptchaKey(DefaultType(ctype), to)) == r.mail.value.captcha
  {
  }

  /** The earlier version's codes use only upper-case letters and digits. */
  lemma EarlierCaptchaInAlphabet(users: Users, cache: Cache, to: string, ctype: string, env: SendEnv)
    requires ValidSendEnv(Earlier, env)
    requires SendCaptchaMail(Earlier, users, cache, to, ctype, env).mail.Some?
    ensures forall c :: c in SendCaptchaMail(Earlier, users, cache, to, ctype, env).mail.value.captcha ==> c in CaptchaAlphabet
  {
    var s := RandomString(6, CaptchaAlphabet, env.draws);
    assert forall i :: 0 <= i < 6 ==> s[i] == CaptchaAlphabet[env.draws[i].value];
  }

  /**
   * The current version's fallback character `'a'` is outside its alphabet,
   * but the sign-up comparison ignores case, so the code still matches what
   * the user types from the mail, in either case.
   */
  lemma CaptchaMatchesAnyCase(captcha: string, typed: string)
    requires |typed| == |captcha| && forall i :: 0 <= i < |typed| ==> LowerChar(typed[i]) == LowerChar(captcha[i])
    ensures EqualFold(captcha, typed)
  {
  }

  // ---------------------------------------------------------------------------
  // Sign-up and sign-in
  // ---------------------------------------------------------------------------

  /** Whether a submitted captcha matches the cached one: the current version trims both first. */
  predicate CaptchaMatches(v: Version, cached: string, submitted: string) {
    if v.Current? then EqualFold(GoTrim(cached), GoTrim(submitted)) else EqualFold(cached, submitted)
  }

  datatype RegisterReq = RegisterReq(email: string, password: string, captcha: string)

  /** The results of the calls `Register` makes, and the fresh values it uses. */
  datatype RegisterEnv = RegisterEnv(
    hash: Option<string>,
    freshUuid: string,
    usernameDraws: seq<Option<nat>>,
    dbFails: bool,
    tokens: Result<(string, string), Failure>,
    cacheFails: bool,
    refreshTtl: int)

  datatype LoginRes = LoginRes(accessToken: string, refreshToken: string, uuid: string, username: string)

  predicate ValidRegisterEnv(users: Users, env: RegisterEnv) {
    && |env.usernameDraws| == 6 && ValidDraws(env.usernameDraws, "abcdefghijklmnopqrstuvwxyz0123456789")
    && forall a :: a in users ==> a.uuid != env.freshUuid
  }

  /** The address is in use by any row: the unique index covers soft-deleted rows too. */
  predicate EmailInUse(users: Users, email: string) {
    exists a :: a in users && a.email == email
  }

  /** The new row's user name: `user_` and six random characters. */
  function Username(draws: seq<Option<nat>>): string
    requires |draws| == 6 && ValidDraws(draws, "abcdefghijklmnopqrstuvwxyz0123456789")
  {
    "user_" + RandomString(6, "abcdefghijklmnopqrstuvwxyz0123456789", draws)
  }

  /**
   * `Register`: checks the captcha cached under `Register:<email>` (a
   * missing one reads as `""`), hashes the password, inserts the user,
   * issues tokens and caches the refresh token. The captcha is not removed.
   */
  function Register(v: Version, users: Users, cache: Cache, req: RegisterReq, env: RegisterEnv): (r: Result<(Users, Cache, LoginRes), Failure>)
    requires ValidRegisterEnv(users, env)
    ensures !CaptchaMatches(v, CachedValue(cache, CaptchaKey("Register", req.email)), req.captcha) ==>
      r == Err(if v.Current? then InvalidParam else InvalidCaptcha)
    ensures r.Ok? <==>
      && CaptchaMatches(v, CachedValue(cache, CaptchaKey("Register", req.email)), req.captcha)
      && env.hash.Some? && !env.dbFails && !EmailInUse(users, req.email) && env.tokens.Ok? && !env.cacheFails
    ensures r.Ok? ==> var (users', cache', res) := r.value;
      && users' == users + [Account(env.freshUuid, req.email, env.hash.value, 1, res.username, true)]
      && cache' == cache[RefreshKey(env.freshUuid) := Entry(env.tokens.value.1, env.refreshTtl)]
      && res == LoginRes(env.tokens.value.0, env.tokens.value.1, env.freshUuid, res.username)
      && HasPrefix(res.username, "user_") && |res.username| == 11
    ensures (&& !env.dbFails && EmailInUse(users, req.email) && env.hash.Some?
             && CaptchaMatches(v, CachedValue(cache, CaptchaKey("Register", req.email)), req.captcha)) ==>
      r == Err(if v.Current? then InternalError else UserExists)
  {
    var cached := CachedValue(cache, CaptchaKey("Register", req.email));
    if !CaptchaMatches(v, cached, req.captcha) then Err(if v.Current? then InvalidParam else InvalidCaptcha)
    else if env.hash.None? then Err(if v.Current? then InternalError else Plain)
    // The current version wraps every failure of the insert as an internal error.
    else if env.dbFails then Err(if v.Current? then InternalError else Plain)
    else if EmailInUse(users, req.email) then Err(if v.Current? then InternalError else UserExists)
    else
      var username := Username(env.usernameDraws);
      var row := Account(env.freshUuid, req.email, env.hash.value, 1, username, true);
      match env.tokens
      case Err(e) => Err(e)
      case Ok((access, refresh)) =>
        if env.cacheFails then Err(CacheSetError(v))
        else Ok((users + [row], cache[RefreshKey(env.freshUuid) := Entry(refresh, env.refreshTtl)],
                 LoginRes(access, refresh, env.freshUuid, username)))
  }

  /**
   * A sign-up leaves the captcha in the cache, so the same code passes the
   * check again until its time-to-live runs out.
   */
  lemma RegisterKeepsCaptcha(v: Version, users: Users, cache: Cache, req: RegisterReq, env: RegisterEnv)
    requires ValidRegisterEnv(users, env)
    requires Register(v, users, cache, req, env).Ok?
    ensures var cache' := Register(v, users, cache, req, env).value.1;
      CaptchaMatches(v, CachedValue(cache', CaptchaKey("Register", req.email)), req.captcha)
  {
    var key := CaptchaKey("Register", req.email);
    var rk := RefreshKey(env.freshUuid);
    assert key != rk by {
      assert key[0] == 'R' && rk[0] == 'R';
      assert key[1] == 'e' && rk[1] == 'e';
      assert key[2] == 'g' && rk[2] == 'f';
    }
  }

  /**
   * In the current version, with no captcha cached for the address, an
   * empty or all-blank submitted code passes the service's check.
   */
  lemma MissingCaptchaMatchesBlank(cache: Cache, req: RegisterReq)
    requires CaptchaKey("Register", req.email) !in cache
    requires AllSpace(GoSpaces, req.captcha)
    ensures CaptchaMatches(Current, CachedValue(cache, CaptchaKey("Register", req.email)), req.captcha)
  {
    TrimSpec(GoSpaces, req.captcha);
    TrimSpec(GoSpaces, "");
  }

  datatype LoginEnv = LoginEnv(dbFails: bool, tokens: Result<(string, string), Failure>, cacheFails: bool, refreshTtl: int)

  /**
   * `Login`: finds the live user with the address, checks the password with
   * `verify`, issues tokens and caches the refresh token.
   */
  function Login(v: Version, users: Users, cache: Cache, email: string, password: string,
                 verify: (string, string) -> bool, env: LoginEnv): (r: Result<(Cache, LoginRes), Failure>)
    ensures !env.dbFails && !EmailTaken(users, email) ==> r == Err(UserNotFound)
    ensures r.Ok? ==> exists a ::
      && a in users && a.live && a.email == email && verify(password, a.passwordHash)
      && r.value.1.uuid == a.uuid && r.value.0 == cache[RefreshKey(a.uuid) := Entry(r.value.1.refreshToken, env.refreshTtl)]
    ensures r.Ok? <==>
      && !env.dbFails && env.tokens.Ok? && !env.cacheFails && EmailTaken(users, email)
      && verify(password, FirstLive(users, (b: Account) => b.email == email).value.passwordHash)
  {
    if env.dbFails then Err(DbError(v))
    else
      match FirstLive(users, (a: Account) => a.email == email)
      case None => Err(UserNotFound)
      case Some(user) =>
        if !verify(password, user.passwordHash) then Err(if v.Current? then InvalidParam else PasswordWrong)
        else
          match env.tokens
          case Err(e) => Err(if v.Current? then e else TokenGeneration)
          case Ok((access, refresh)) =>
            if env.cacheFails then Err(CacheSetError(v))
            else Ok((cache[RefreshKey(user.uuid) := Entry(refresh, env.refreshTtl)],
                     LoginRes(access, refresh, user.uuid, user.username)))
  }

  // ---------------------------------------------------------------------------
  // Refresh-token rotation and roles (current version)
  // ---------------------------------------------------------------------------

  datatype RefreshEnv = RefreshEnv(dbFails: bool, cacheFails: bool, tokens: Result<(string, string), Failure>, refreshTtl: int)

  predicate UuidTaken(users: Users, uuid: string) {
    exists a :: a in users && a.live && a.uuid == uuid
  }

  /**
   * `RefreshAccessToken`: the token must parse, name an existing user, and
   * equal (ignoring case) the refresh token cached for that user; the new
   * refresh token then replaces it.
   */
  function RefreshAccessToken(users: Users, cache: Cache, token: string, parse: string -> Result<string, Failure>,
                              env: RefreshEnv): (r: Result<(Cache, (string, string)), Failure>)
    ensures parse(token).Err? ==> r == Err(parse(token).error)
    ensures parse(token).Ok? && !env.dbFails && !UuidTaken(users, parse(token).value) ==> r == Err(UserNotFound)
    ensures r.Ok? <==>
      && parse(token).Ok? && !env.dbFails && UuidTaken(users, parse(token).value) && !env.cacheFails
      && RefreshKey(parse(token).value) in cache && EqualFold(token, cache[RefreshKey(parse(token).value)].value)
      && env.tokens.Ok?
    ensures r.Ok? ==>
      && r.value.1 == env.tokens.value
      && r.value.0 == cache[RefreshKey(parse(token).value) := Entry(env.tokens.value.1, env.refreshTtl)]
  {
    match parse(token)
    case Err(e) => Err(e)
    case Ok(uuid) =>
      if env.dbFails then Err(DatabaseError)
      else if !UuidTaken(users, uuid) then Err(UserNotFound)
      // A missing key is an error of `Get` as well.
      else if env.cacheFails || RefreshKey(uuid) !in cache then Err(CacheError)
      else if !EqualFold(token, cache[RefreshKey(uuid)].value) then Err(Unauthorized)
      else
        match env.tokens
        case Err(e) => Err(e)
        case Ok((access, refresh)) =>
          Ok((cache[RefreshKey(uuid) := Entry(refresh, env.refreshTtl)], (access, refresh)))
  }

  /**
   * Rotation: after a refresh, the token that was presented no longer
   * refreshes (unless the new one equals it ignoring case), whatever the
   * later calls return.
   */
  lemma RefreshRotatesToken(users: Users, cache: Cache, token: string, parse: string -> Result<string, Failure>,
                            env: RefreshEnv, env2: RefreshEnv)
    requires RefreshAccessToken(users, cache, token, parse, env).Ok?
    requires !EqualFold(token, env.tokens.value.1)
    ensures var cache' := RefreshAccessToken(users, cache, token, parse, env).value.0;
      RefreshAccessToken(users, cache', token, parse, env2).Ok? == false
  {
  }

  /** The new refresh token refreshes, given a user that still exists and working calls. */
  lemma RefreshedTokenRefreshes(users: Users, cache: Cache, token: string, parse: string -> Result<string, Failure>,
                                env: RefreshEnv, env2: RefreshEnv)
    requires RefreshAccessToken(users, cache, token, parse, env).Ok?
    requires parse(env.tokens.value.1) == parse(token)
    requires !env2.dbFails && !env2.cacheFails && env2.tokens.Ok?
    ensures var cache' := RefreshAccessToken(users, cache, token, parse, env).value.0;
      RefreshAccessToken(users, cache', env.tokens.value.1, parse, env2).Ok?
  {
  }

  /**
   * `HasRole`: whether the live user's role is among `roles`. A user with
   * no live row is `CodeUserNotFound`, from the lookup itself.
   */
  function HasRole(users: Users, dbFails: bool, uuid: string, roles: seq<int>): (r: Result<bool, Failure>)
    ensures r.Err? <==> dbFails || !UuidTaken(users, uuid)
    ensures r.Err? && !dbFails ==> r.error == UserNotFound
    ensures r.Ok? ==> (r.value <==> exists a :: a in users && a.live && a.uuid == uuid && a.role in roles && a == FirstLive(users, (b: Account) => b.uuid == uuid).value)
  {
    if dbFails then Err(DatabaseError)
    else
      match FirstLive(users, (a: Account) => a.uuid == uuid)
      case None => Err(UserNotFound)
      case Some(a) => Ok(a.role in roles)
  }

  /** With no roles to look for, `HasRole` never answers yes. */
  lemma HasRoleOfNoRoles(users: Users, dbFails: bool, uuid: string)
    ensures HasRole(users, dbFails, uuid, []) != Ok(true)
  {
  }
}
