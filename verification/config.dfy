/**
 * Start-up configuration: the validation the server runs after loading its
 * settings, the listen address, and the PostgreSQL connection string.
 * Durations are Go `time.Duration` values, in nanoseconds.
 */
module Config {
  import opened Common
  import opened Text

  const Second: int := 1_000_000_000
  const Minute: int := 60 * Second
  const MaxPort: int := 65535

  /** The JWT secret shipped in the sample configuration. */
  const DefaultJwtSecret: string := "your-default-jwt-secret-change-in-production"
  const Production: string := "production"

  /** The settings `validateConfig` looks at. */
  datatype Settings = Settings(
    appName: string,
    environment: string,
    serverPort: int,
    databaseHost: string,
    jwtSecret: string,
    accessExpiration: int,
    redisPoolSize: int)

  /** The checks, in the order they run. */
  datatype Check = AppName | ServerPort | DatabaseHost | JwtSecret | AccessExpiration | RedisPoolSize

  function Rank(k: Check): nat {
    match k
    case AppName => 0
    case ServerPort => 1
    case DatabaseHost => 2
    case JwtSecret => 3
    case AccessExpiration => 4
    case RedisPoolSize => 5
  }

  /** Whether a setting fails its check. */
  predicate Fails(c: Settings, k: Check) {
    match k
    case AppName => c.appName == ""
    case ServerPort => !(1 <= c.serverPort <= MaxPort)
    case DatabaseHost => c.databaseHost == ""
    case JwtSecret => c.jwtSecret == DefaultJwtSecret && c.environment == Production
    case AccessExpiration => c.accessExpiration < Minute
    case RedisPoolSize => c.redisPoolSize <= 0
  }

  /** `validateConfig`: the first failing check, or `None` when all pass. */
  function ValidateConfig(c: Settings): (r: Option<Check>)
    ensures r.None? ==> forall k :: !Fails(c, k)
    ensures r.Some? ==> Fails(c, r.value) && forall k :: Rank(k) < Rank(r.value) ==> !Fails(c, k)
  {
    if c.appName == "" then Some(AppName)
    else if c.serverPort <= 0 || c.serverPort > MaxPort then Some(ServerPort)
    else if c.databaseHost == "" then Some(DatabaseHost)
    else if c.jwtSecret == DefaultJwtSecret && c.environment == Production then Some(JwtSecret)
    else if c.accessExpiration < Minute then Some(AccessExpiration)
    else if c.redisPoolSize <= 0 then Some(RedisPoolSize)
    else None
  }

  /** The default secret is accepted outside production, and rejected in it. */
  lemma DefaultSecretOnlyInProduction(c: Settings)
    requires c.jwtSecret == DefaultJwtSecret
    requires forall k :: k != JwtSecret ==> !Fails(c, k)
    ensures ValidateConfig(c).None? <==> c.environment != Production
  {
  }

  // ---------------------------------------------------------------------------
  // Addresses
  // ---------------------------------------------------------------------------

  /** `ServerConfig.GetAddr`: host, a colon, the decimal port. */
  function GetAddr(host: string, port: int): (addr: string)
    ensures HasPrefix(addr, host + ":")
  {
    host + ":" + IntToString(port)
  }

  /** The position of the last colon in `s`, if any. */
  function LastColon(s: string): (r: Option<nat>)
    ensures r.Some? ==> r.value < |s| && s[r.value] == ':' && ':' !in s[r.value + 1..]
    ensures r.None? ==> ':' !in s
  {
    if |s| == 0 then None
    else if s[|s| - 1] == ':' then Some(|s| - 1)
    else
      var r := LastColon(s[..|s| - 1]);
      assert s == s[..|s| - 1] + [s[|s| - 1]];
      assert r.Some? ==> s[r.value + 1..] == s[..|s| - 1][r.value + 1..] + [s[|s| - 1]];
      r
  }

  /** Splits an address at its last colon, the way a listener reads host and port. */
  function SplitAddr(addr: string): (r: Option<(string, Option<int>)>)
  {
    match LastColon(addr)
    case None => None
    case Some(i) => Some((addr[..i], ParseInt64(addr[i + 1..])))
  }

  lemma IntToStringHasNoColon(i: int)
    ensures ':' !in IntToString(i)
  {
    var s := NatToString(if i < 0 then -i else i);
    assert forall j :: 0 <= j < |s| ==> IsDigit(s[j]);
  }

  /** The address splits back into its host (colons in it included) and port. */
  lemma SplitGetAddr(host: string, port: int)
    requires MinInt64 <= port <= MaxInt64
    ensures SplitAddr(GetAddr(host, port)) == Some((host, Some(port)))
  {
    var addr := GetAddr(host, port);
    IntToStringHasNoColon(port);
    Around(host, ':', IntToString(port));
    assert ':' in addr;
    ParseInt64OfIntToString(port);
  }

  /** The two sides of a character placed between two strings. */
  lemma Around(a: string, c: char, b: string)
    ensures (a + [c] + b)[|a|] == c
    ensures (a + [c] + b)[..|a|] == a && (a + [c] + b)[|a| + 1..] == b
  {
  }

  // ---------------------------------------------------------------------------
  // Connection string
  // ---------------------------------------------------------------------------

  datatype Database = Database(host: string, port: int, user: string, password: string, name: string,
                               sslMode: string, timeout: int)

  /** `int(d.Seconds())`: whole seconds, truncated toward zero. */
  function WholeSeconds(d: int): (s: int)
    ensures d >= 0 ==> s * Second <= d < (s + 1) * Second
    ensures d < 0 ==> (s - 1) * Second < d <= s * Second
  {
    if d >= 0 then d / Second else -((-d) / Second)
  }

  /** `DatabaseConfig.GetDSN`: the key=value pairs in fixed order; `sslmode` is always `disable`. */
  function GetDSN(d: Database): string {
    ("user=" + d.user) + " " + ("password=" + d.password) + " " + ("host=" + d.host) + " "
      + ("port=" + IntToString(d.port)) + " " + ("dbname=" + d.name) + " " + "sslmode=disable" + " "
      + ("connect_timeout=" + IntToString(WholeSeconds(d.timeout)))
  }

  /** The pairs of a connection string, in the order the driver sees them. */
  function DsnPairs(d: Database): seq<string> {
    ["user=" + d.user, "password=" + d.password, "host=" + d.host, "port=" + IntToString(d.port),
     "dbname=" + d.name, "sslmode=disable", "connect_timeout=" + IntToString(WholeSeconds(d.timeout))]
  }

  predicate NoSpace(s: string) { ' ' !in s }

  lemma IntToStringHasNoSpace(i: int)
    ensures ' ' !in IntToString(i)
  {
    var s := NatToString(if i < 0 then -i else i);
    assert forall j :: 0 <= j < |s| ==> IsDigit(s[j]);
  }

  lemma JoinCons(x: string, rest: seq<string>, sep: char)
    requires |rest| >= 1
    ensures Join([x] + rest, sep) == x + [sep] + Join(rest, sep)
  {
    assert ([x] + rest)[1..] == rest;
  }

  lemma JoinSeven(a: string, b: string, c: string, d: string, e: string, f: string, g: string)
    ensures Join([a, b, c, d, e, f, g], ' ') == a + " " + b + " " + c + " " + d + " " + e + " " + f + " " + g
  {
    var r5 := [f] + [g];
    var r4 := [e] + r5;
    var r3 := [d] + r4;
    var r2 := [c] + r3;
    var r1 := [b] + r2;
    assert [a, b, c, d, e, f, g] == [a] + r1;
    JoinCons(f, [g], ' ');
    JoinCons(e, r5, ' ');
    JoinCons(d, r4, ' ');
    JoinCons(c, r3, ' ');
    JoinCons(b, r2, ' ');
    JoinCons(a, r1, ' ');
  }

  /** The connection string is its pairs joined by single spaces. */
  lemma DsnJoinsPairs(d: Database)
    ensures Join(DsnPairs(d), ' ') == GetDSN(d)
  {
    var p := DsnPairs(d);
    JoinSeven(p[0], p[1], p[2], p[3], p[4], p[5], p[6]);
    assert p == [p[0], p[1], p[2], p[3], p[4], p[5], p[6]];
  }

  /**
   * With values free of spaces, the connection string splits on spaces into
   * exactly the seven pairs, user first, SSL disabled whatever `sslMode` says.
   */
  lemma DsnSplitsIntoPairs(d: Database)
    requires NoSpace(d.user) && NoSpace(d.password) && NoSpace(d.host) && NoSpace(d.name)
    ensures Split(GetDSN(d), ' ') == DsnPairs(d)
  {
    var p := DsnPairs(d);
    IntToStringHasNoSpace(d.port);
    IntToStringHasNoSpace(WholeSeconds(d.timeout));
    assert forall i :: 0 <= i < |p| ==> ' ' !in p[i];
    DsnJoinsPairs(d);
    SplitJoin(p, ' ');
  }

  /** The `sslMode` setting never reaches the connection string. */
  lemma DsnIgnoresSslMode(d: Database, mode: string)
    ensures GetDSN(d.(sslMode := mode)) == GetDSN(d)
  {
  }

  /** A 2.9 s timeout connects with 2 s; a negative 1.5 s one renders as -1. */
  lemma WholeSecondsExamples()
    ensures WholeSeconds(2_900_000_000) == 2
    ensures WholeSeconds(-1_500_000_000) == -1
  {
  }
}
