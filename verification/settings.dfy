/** Start-up settings taken from the standard environment variables that
    hosting platforms set: the database DSN and driver, the Redis address,
    password and TLS switch, the JWT secret, the encryption key and the
    listening address. The settings read from the configuration file and
    the CONFIGHUB_ variables are the `base` the environment overrides. */
module Settings {
  import opened Wrappers
  import opened Text

  /** The process environment; an unset variable reads as "". */
  type Env = map<string, string>

  function Getenv(env: Env, key: string): string {
    if key in env then env[key] else ""
  }

  /** getEnv: the first of the variables that is set to something non-empty,
      in the order given, or "" when none is. */
  function GetEnv(env: Env, keys: seq<string>): string {
    if |keys| == 0 then ""
    else if Getenv(env, keys[0]) != "" then Getenv(env, keys[0])
    else GetEnv(env, keys[1..])
  }

  /** The value found is "" exactly when every variable is unset, and
      otherwise the value of a variable all of whose predecessors are unset. */
  lemma {:induction false} GetEnvFinds(env: Env, keys: seq<string>)
    ensures GetEnv(env, keys) == "" <==> forall i :: 0 <= i < |keys| ==> Getenv(env, keys[i]) == ""
    ensures GetEnv(env, keys) != "" ==> exists i :: 0 <= i < |keys| && Getenv(env, keys[i]) == GetEnv(env, keys)
                                                   && forall j :: 0 <= j < i ==> Getenv(env, keys[j]) == ""
    decreases |keys|
  {
    if |keys| > 0 && Getenv(env, keys[0]) == "" {
      GetEnvFinds(env, keys[1..]);
      assert forall i :: 1 <= i < |keys| ==> keys[i] == keys[1..][i - 1];
      if GetEnv(env, keys) != "" {
        var i :| 0 <= i < |keys[1..]| && Getenv(env, keys[1..][i]) == GetEnv(env, keys)
                 && forall j :: 0 <= j < i ==> Getenv(env, keys[1..][j]) == "";
        assert Getenv(env, keys[i + 1]) == GetEnv(env, keys);
        assert forall j :: 0 <= j < i + 1 ==> Getenv(env, keys[j]) == "" by {
          forall j | 0 <= j < i + 1 ensures Getenv(env, keys[j]) == "" {
            if j > 0 { assert keys[j] == keys[1..][j - 1]; }
          }
        }
      }
    }
  }

  /** Conversely, the value found is the one of the first variable set. */
  lemma {:induction false} GetEnvFirst(env: Env, keys: seq<string>, i: nat)
    requires i < |keys| && Getenv(env, keys[i]) != ""
    requires forall j :: 0 <= j < i ==> Getenv(env, keys[j]) == ""
    ensures GetEnv(env, keys) == Getenv(env, keys[i])
    decreases i
  {
    if i > 0 {
      assert forall j :: 0 <= j < i - 1 ==> keys[1..][j] == keys[j + 1];
      GetEnvFirst(env, keys[1..], i - 1);
    }
  }

  // ---------------------------------------------------------------------------
  // The settings the environment can override
  // ---------------------------------------------------------------------------

  datatype Settings = Settings(
    serverAddr: string,
    dbDriver: string,
    dbDsn: string,
    redisAddr: string,
    redisPassword: string,
    redisTls: bool,
    jwtSecret: string,
    encryptKey: string)

  /** The built-in defaults for the same settings. */
  const Defaults := Settings(
    ":8080", "mysql", "root:password@tcp(localhost:3306)/confighub?charset=utf8mb4&parseTime=True&loc=Local",
    "localhost:6379", "", false, "confighub-jwt-secret-key-change-in-production", "confighub-encrypt-key-32bytes!")

  const HostKeys := ["DB_HOST", "MYSQL_HOST", "DATABASE_HOST"]
  const PortKeys := ["DB_PORT", "MYSQL_PORT", "DATABASE_PORT"]
  const UserKeys := ["DB_USER", "MYSQL_USER", "DATABASE_USER"]
  const PasswordKeys := ["DB_PASSWORD", "MYSQL_PASSWORD", "DATABASE_PASSWORD"]
  const NameKeys := ["DB_NAME", "MYSQL_DATABASE", "DATABASE_NAME"]
  const DriverKeys := ["DB_DRIVER", "DATABASE_DRIVER"]
  const RedisHostKeys := ["REDIS_HOST", "REDIS_HOSTNAME"]
  const JwtKeys := ["JWT_SECRET", "JWT_KEY"]
  const EncryptKeys := ["ENCRYPT_KEY", "ENCRYPTION_KEY"]

  const DefaultDbPort := "3306"
  const DefaultDriver := "mysql"
  const DefaultRedisPort := "6379"

  // ---------------------------------------------------------------------------
  // The variables consulted
  // ---------------------------------------------------------------------------

  /** The variables overrideFromEnv consults, each resolved through its list
      of alternative names. */
  datatype Vars = Vars(
    dbHost: string, dbPort: string, dbUser: string, dbPassword: string, dbName: string, dbDriver: string,
    dbTls: string,
    redisUrl: string, redisHost: string, redisPort: string, redisPassword: string, redisTls: string,
    jwtSecret: string, encryptKey: string, port: string)

  function Read(env: Env): Vars {
    Vars(GetEnv(env, HostKeys), GetEnv(env, PortKeys), GetEnv(env, UserKeys), GetEnv(env, PasswordKeys),
         GetEnv(env, NameKeys), GetEnv(env, DriverKeys), Getenv(env, "DB_TLS"),
         Getenv(env, "REDIS_URL"), GetEnv(env, RedisHostKeys), Getenv(env, "REDIS_PORT"),
         Getenv(env, "REDIS_PASSWORD"), Getenv(env, "REDIS_TLS"),
         GetEnv(env, JwtKeys), GetEnv(env, EncryptKeys), Getenv(env, "PORT"))
  }

  // ---------------------------------------------------------------------------
  // The database
  // ---------------------------------------------------------------------------

  /** Where the database is, as the environment describes it. */
  datatype DbSource = DbSource(
    host: string, port: string, user: string, password: string, name: string, driver: string, tls: bool)

  /** TLS is asked for with DB_TLS=true; when DB_TLS is unset it is implied
      by a TiDB Cloud host. Any other DB_TLS value turns it off. */
  predicate DbTls(flag: string, host: string) {
    flag == "true" || (flag == "" && Contains(host, "tidbcloud.com"))
  }

  /** The database the environment names, when it names host, user,
      password and database; port and driver have defaults. */
  function DbSourceOf(v: Vars): (r: Option<DbSource>)
    ensures r.Some? <==> v.dbHost != "" && v.dbUser != "" && v.dbPassword != "" && v.dbName != ""
    ensures r.Some? ==> (r.value.host, r.value.user, r.value.password, r.value.name)
                        == (v.dbHost, v.dbUser, v.dbPassword, v.dbName)
    ensures r.Some? ==> r.value.port != "" && (v.dbPort != "" ==> r.value.port == v.dbPort)
    ensures r.Some? ==> r.value.driver != "" && (v.dbDriver != "" ==> r.value.driver == v.dbDriver)
    ensures r.Some? && v.dbTls != "" ==> (r.value.tls <==> v.dbTls == "true")
    ensures r.Some? && v.dbTls == "" ==> (r.value.tls <==> Contains(v.dbHost, "tidbcloud.com"))
  {
    if v.dbHost != "" && v.dbUser != "" && v.dbPassword != "" && v.dbName != "" then
      Some(DbSource(v.dbHost, if v.dbPort == "" then DefaultDbPort else v.dbPort, v.dbUser, v.dbPassword, v.dbName,
                    if v.dbDriver == "" then DefaultDriver else v.dbDriver, DbTls(v.dbTls, v.dbHost)))
    else None
  }

  const MysqlOptions := "?charset=utf8mb4&parseTime=True&loc=Local"
  const MysqlTls := "&tls=true"
  const SslRequire := "sslmode=require"
  const SslDisable := "sslmode=disable"

  /** The DSN for the source: key=value pairs for postgres, the
      go-sql-driver form for anything else. */
  function Dsn(src: DbSource): (dsn: string)
    ensures src.driver == "postgres" ==> HasPrefix(dsn, "host=" + src.host + " port=")
    ensures src.driver != "postgres" ==> HasPrefix(dsn, src.user + ":" + src.password + "@tcp(")
  {
    if src.driver == "postgres" then
      "host=" + src.host + " port=" + src.port + " user=" + src.user + " password=" + src.password
        + " dbname=" + src.name + " " + (if src.tls then SslRequire else SslDisable)
    else
      src.user + ":" + src.password + "@tcp(" + src.host + ":" + src.port + ")/" + src.name
        + MysqlOptions + (if src.tls then MysqlTls else "")
  }

  /** The DSN asks for TLS exactly when the source does: sslmode=require
      rather than disable for postgres, a trailing tls=true for MySQL. */
  lemma DsnCarriesTls(src: DbSource)
    ensures src.driver == "postgres" ==> (HasSuffix(Dsn(src), SslRequire) <==> src.tls)
    ensures src.driver == "postgres" ==> (HasSuffix(Dsn(src), SslDisable) <==> !src.tls)
    ensures src.driver != "postgres" ==> (HasSuffix(Dsn(src), MysqlTls) <==> src.tls)
  {
    var dsn := Dsn(src);
    if src.driver == "postgres" {
      var tail := if src.tls then SslRequire else SslDisable;
      assert dsn[|dsn| - |tail|..] == tail;
      assert dsn[|dsn| - 1] == tail[|tail| - 1];
    } else if !src.tls {
      assert dsn[|dsn| - |MysqlOptions|..] == MysqlOptions;
      assert dsn[|dsn| - 1] == 'l';
    } else {
      assert dsn[|dsn| - |MysqlTls|..] == MysqlTls;
    }
  }

  // ---------------------------------------------------------------------------
  // Redis
  // ---------------------------------------------------------------------------

  /** The Redis address: REDIS_URL when set, else host:port when a host is
      set (port 6379 by default), else unchanged. */
  function RedisAddr(base: string, v: Vars): (addr: string)
    ensures v.redisUrl != "" ==> addr == v.redisUrl
    ensures v.redisUrl == "" && v.redisHost == "" ==> addr == base
    ensures v.redisUrl == "" && v.redisHost != "" ==> HasPrefix(addr, v.redisHost + ":")
  {
    if v.redisUrl != "" then v.redisUrl
    else if v.redisHost != "" then v.redisHost + ":" + (if v.redisPort == "" then DefaultRedisPort else v.redisPort)
    else base
  }

  /** Redis TLS is switched on, never off: by REDIS_TLS=true, or by an
      Upstash host when the address comes from the host variables. */
  function RedisTls(base: bool, v: Vars): (tls: bool)
    ensures base ==> tls
    ensures v.redisTls == "true" ==> tls
    ensures v.redisUrl != "" ==> (tls <==> base || v.redisTls == "true")
    ensures v.redisUrl == "" ==>
      (tls <==> base || v.redisTls == "true" || (v.redisHost != "" && Contains(v.redisHost, "upstash.io")))
  {
    base || v.redisTls == "true" || (v.redisUrl == "" && v.redisHost != "" && Contains(v.redisHost, "upstash.io"))
  }

  // ---------------------------------------------------------------------------
  // overrideFromEnv
  // ---------------------------------------------------------------------------

  function OrKeep(value: string, kept: string): (r: string)
    ensures value != "" ==> r == value
    ensures value == "" ==> r == kept
  {
    if value != "" then value else kept
  }

  /** overrideFromEnv over resolved variables. */
  function Apply(base: Settings, v: Vars): (s: Settings)
    ensures DbSourceOf(v).None? ==> s.dbDriver == base.dbDriver && s.dbDsn == base.dbDsn
    ensures DbSourceOf(v).Some? ==> s.dbDriver == DbSourceOf(v).value.driver && s.dbDsn == Dsn(DbSourceOf(v).value)
    ensures v.port == "" ==> s.serverAddr == base.serverAddr
    ensures v.port != "" ==> |s.serverAddr| == |v.port| + 1 && s.serverAddr[0] == ':' && s.serverAddr[1..] == v.port
    ensures s.redisPassword == OrKeep(v.redisPassword, base.redisPassword)
    ensures s.jwtSecret == OrKeep(v.jwtSecret, base.jwtSecret)
    ensures s.encryptKey == OrKeep(v.encryptKey, base.encryptKey)
  {
    var db := DbSourceOf(v);
    Settings(
      if v.port != "" then ":" + v.port else base.serverAddr,
      if db.Some? then db.value.driver else base.dbDriver,
      if db.Some? then Dsn(db.value) else base.dbDsn,
      RedisAddr(base.redisAddr, v),
      OrKeep(v.redisPassword, base.redisPassword),
      RedisTls(base.redisTls, v),
      OrKeep(v.jwtSecret, base.jwtSecret),
      OrKeep(v.encryptKey, base.encryptKey))
  }

  /** The settings after the environment is applied over `base`. */
  function Override(base: Settings, env: Env): (s: Settings)
    ensures (|| GetEnv(env, HostKeys) == "" || GetEnv(env, UserKeys) == ""
             || GetEnv(env, PasswordKeys) == "" || GetEnv(env, NameKeys) == "")
            ==> s.dbDriver == base.dbDriver && s.dbDsn == base.dbDsn
    ensures Getenv(env, "PORT") == "" ==> s.serverAddr == base.serverAddr
    ensures Getenv(env, "PORT") != "" ==>
      (|s.serverAddr| == |Getenv(env, "PORT")| + 1 && s.serverAddr[0] == ':' && s.serverAddr[1..] == Getenv(env, "PORT"))
  {
    Apply(base, Read(env))
  }

  /** Applying the same variables twice is applying them once. */
  lemma ApplyIdempotent(base: Settings, v: Vars)
    ensures Apply(Apply(base, v), v) == Apply(base, v)
  {
  }

  /** Applying the same environment twice is applying it once. */
  lemma OverrideIdempotent(base: Settings, env: Env)
    ensures Override(Override(base, env), env) == Override(base, env)
  {
    ApplyIdempotent(base, Read(env));
  }

  /** With none of the variables set the settings stay as they were. */
  lemma EmptyEnvironmentKeepsBase(base: Settings)
    ensures Override(base, map[]) == base
  {
    var env: Env := map[];
    assert GetEnv(env, HostKeys) == "" by {
      GetEnvFinds(env, HostKeys);
    }
  }

  /** An unset database port is port 3306. */
  lemma DbPortDefault(base: Settings, env: Env)
    requires GetEnv(env, PortKeys) == ""
    ensures Override(base, env) == Override(base, env["DB_PORT" := DefaultDbPort])
  {
    var env' := env["DB_PORT" := DefaultDbPort];
    ReadAfterSet(env, "DB_PORT", DefaultDbPort);
    GetEnvFirst(env', PortKeys, 0);
    var v := Read(env);
    assert Read(env') == v.(dbPort := DefaultDbPort);
    assert DbSourceOf(v.(dbPort := DefaultDbPort)) == DbSourceOf(v);
  }

  /** An unset driver is MySQL. */
  lemma DriverDefault(base: Settings, env: Env)
    requires GetEnv(env, DriverKeys) == ""
    ensures Override(base, env) == Override(base, env["DB_DRIVER" := DefaultDriver])
  {
    var env' := env["DB_DRIVER" := DefaultDriver];
    ReadAfterSet(env, "DB_DRIVER", DefaultDriver);
    GetEnvFirst(env', DriverKeys, 0);
    var v := Read(env);
    assert Read(env') == v.(dbDriver := DefaultDriver);
    assert DbSourceOf(v.(dbDriver := DefaultDriver)) == DbSourceOf(v);
  }

  /** An unset Redis port is port 6379. */
  lemma RedisPortDefault(base: Settings, env: Env)
    requires Getenv(env, "REDIS_PORT") == ""
    ensures Override(base, env) == Override(base, env["REDIS_PORT" := DefaultRedisPort])
  {
    var env' := env["REDIS_PORT" := DefaultRedisPort];
    ReadAfterSet(env, "REDIS_PORT", DefaultRedisPort);
    var v := Read(env);
    assert Read(env') == v.(redisPort := DefaultRedisPort);
    assert RedisAddr(base.redisAddr, v.(redisPort := DefaultRedisPort)) == RedisAddr(base.redisAddr, v);
  }

  /** The address wins over the host: with REDIS_URL set, the Redis host
      variable plays no part. */
  lemma RedisUrlWins(base: Settings, env: Env, host: string)
    requires Getenv(env, "REDIS_URL") != ""
    ensures Override(base, env["REDIS_HOST" := host]).redisAddr == Override(base, env).redisAddr
    ensures Override(base, env["REDIS_HOST" := host]).redisTls == Override(base, env).redisTls
  {
    ReadAfterSet(env, "REDIS_HOST", host);
  }

  /** Setting one variable changes no lookup that does not consult it. */
  lemma ReadAfterSet(env: Env, key: string, value: string)
    ensures var v := Read(env); var v' := Read(env[key := value]);
      && (key !in HostKeys ==> v'.dbHost == v.dbHost)
      && (key !in PortKeys ==> v'.dbPort == v.dbPort)
      && (key !in UserKeys ==> v'.dbUser == v.dbUser)
      && (key !in PasswordKeys ==> v'.dbPassword == v.dbPassword)
      && (key !in NameKeys ==> v'.dbName == v.dbName)
      && (key !in DriverKeys ==> v'.dbDriver == v.dbDriver)
      && (key != "DB_TLS" ==> v'.dbTls == v.dbTls)
      && (key != "REDIS_URL" ==> v'.redisUrl == v.redisUrl)
      && (key !in RedisHostKeys ==> v'.redisHost == v.redisHost)
      && (key != "REDIS_PORT" ==> v'.redisPort == v.redisPort)
      && (key != "REDIS_PASSWORD" ==> v'.redisPassword == v.redisPassword)
      && (key != "REDIS_TLS" ==> v'.redisTls == v.redisTls)
      && (key !in JwtKeys ==> v'.jwtSecret == v.jwtSecret)
      && (key !in EncryptKeys ==> v'.encryptKey == v.encryptKey)
      && (key != "PORT" ==> v'.port == v.port)
  {
    DbLookupsAfterSet(env, key, value);
    RedisLookupsAfterSet(env, key, value);
    OtherLookupsAfterSet(env, key, value);
  }

  lemma DbLookupsAfterSet(env: Env, key: string, value: string)
    ensures var v := Read(env); var v' := Read(env[key := value]);
      && (key !in HostKeys ==> v'.dbHost == v.dbHost)
      && (key !in PortKeys ==> v'.dbPort == v.dbPort)
      && (key !in UserKeys ==> v'.dbUser == v.dbUser)
      && (key !in PasswordKeys ==> v'.dbPassword == v.dbPassword)
      && (key !in NameKeys ==> v'.dbName == v.dbName)
  {
    SameGetEnv(env, key, value, HostKeys);
    SameGetEnv(env, key, value, PortKeys);
    SameGetEnv(env, key, value, UserKeys);
    SameGetEnv(env, key, value, PasswordKeys);
    SameGetEnv(env, key, value, NameKeys);
  }

  lemma RedisLookupsAfterSet(env: Env, key: string, value: string)
    ensures var v := Read(env); var v' := Read(env[key := value]);
      && (key !in DriverKeys ==> v'.dbDriver == v.dbDriver)
      && (key != "DB_TLS" ==> v'.dbTls == v.dbTls)
      && (key != "REDIS_URL" ==> v'.redisUrl == v.redisUrl)
      && (key !in RedisHostKeys ==> v'.redisHost == v.redisHost)
      && (key != "REDIS_PORT" ==> v'.redisPort == v.redisPort)
  {
    SameGetEnv(env, key, value, DriverKeys);
    SameGetEnv(env, key, value, RedisHostKeys);
  }

  lemma OtherLookupsAfterSet(env: Env, key: string, value: string)
    ensures var v := Read(env); var v' := Read(env[key := value]);
      && (key != "REDIS_PASSWORD" ==> v'.redisPassword == v.redisPassword)
      && (key != "REDIS_TLS" ==> v'.redisTls == v.redisTls)
      && (key !in JwtKeys ==> v'.jwtSecret == v.jwtSecret)
      && (key !in EncryptKeys ==> v'.encryptKey == v.encryptKey)
      && (key != "PORT" ==> v'.port == v.port)
  {
    SameGetEnv(env, key, value, JwtKeys);
    SameGetEnv(env, key, value, EncryptKeys);
  }

  /** A lookup through names other than `key` does not see `key` set. */
  lemma {:induction false} SameGetEnv(env: Env, key: string, value: string, keys: seq<string>)
    ensures key !in keys ==> GetEnv(env[key := value], keys) == GetEnv(env, keys)
    decreases |keys|
  {
    if |keys| > 0 && key !in keys {
      assert key !in keys[1..];
      SameGetEnv(env, key, value, keys[1..]);
    }
  }
}
