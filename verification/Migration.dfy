/**
 The migration of SSH secrets from the `.env` file to the secure repository: a protocol over the
 file, the repository and a completion marker that must survive a crash at every point.
 */
module Migration {
  import opened Base
  import opened EnvFile
  import opened SecretsRepository
  import opened Text

  // ----- collecting -----

  /** What does not change between launches: the inherited environment and the readable files. */
  datatype World = World(base: Env, files: map<string, string>)

  function GetEnv(env: Env, key: string): Option<string>
  {
    if key in env && Trim(JsSpace, env[key]) != "" then Some(env[key]) else None
  }

  function ReadPrivateKey(env: Env, files: map<string, string>): Result<Option<string>>
  {
    var path := GetEnv(env, "SSH_PRIVATE_KEY_PATH");
    if path.Some? then
      (if path.value in files then Ok(Some(files[path.value])) else Err(Internal("SSH private key file was not found")))
    else
      var legacy := GetEnv(env, "SSH_PRIVATE_KEY");
      if legacy.Some? && legacy.value in files then Ok(Some(files[legacy.value])) else Ok(legacy)
  }

  function ToJs(o: Option<string>): JsValue
  {
    if o.Some? then Str(o.value) else Undefined
  }

  /** `collectEnvSecrets`: an object with four properties; an absent variable makes an undefined one. */
  function Collect(env: Env, files: map<string, string>): Result<EnvSecrets>
  {
    match ReadPrivateKey(env, files)
    case Err(e) => Err(e)
    case Ok(key) => Ok(EnvObject(GetEnv(env, "SSH_USERNAME"), GetEnv(env, "SSH_PASSWORD"), key,
        GetEnv(env, "SSH_PASSPHRASE")))
  }

  function EnvObject(username: Option<string>, password: Option<string>, privateKey: Option<string>,
                     passphrase: Option<string>): EnvSecrets
  {
    map[Username := ToJs(username), Password := ToJs(password), PrivateKey := ToJs(privateKey),
        Passphrase := ToJs(passphrase)]
  }

  /** A variable that is set to something other than white space. */
  ghost predicate Usable(env: Env, key: string)
  {
    key in env && exists i :: 0 <= i < |env[key]| && !JsSpace(env[key][i])
  }

  /** What a field of the record is, if it comes from the variable `key`. */
  ghost function FieldFrom(env: Env, key: string): JsValue
  {
    if Usable(env, key) then Str(env[key]) else Undefined
  }

  lemma GetEnvExact(env: Env, key: string)
    ensures ToJs(GetEnv(env, key)) == FieldFrom(env, key)
    ensures Usable(env, key) ==> env[key] != ""
  {
    hide JsSpace;
    if key in env {
      BlankIff(JsSpace, env[key]);
    }
  }

  /**
   Which variable each field comes from. The private key is the content of the file that
   SSH_PRIVATE_KEY_PATH names, which must exist; else the content of the file that SSH_PRIVATE_KEY
   names, if there is one; else that text itself.
   */
  lemma CollectExact(env: Env, files: map<string, string>)
    ensures var path, key := "SSH_PRIVATE_KEY_PATH", "SSH_PRIVATE_KEY"; var c := Collect(env, files);
            && (c.Err? <==> Usable(env, path) && env[path] !in files)
            && (c.Ok? ==>
                  && Get(c.value, Username) == FieldFrom(env, "SSH_USERNAME")
                  && Get(c.value, Password) == FieldFrom(env, "SSH_PASSWORD")
                  && Get(c.value, Passphrase) == FieldFrom(env, "SSH_PASSPHRASE")
                  && Get(c.value, Token) == Undefined
                  && Get(c.value, PrivateKey) ==
                     if Usable(env, path) then Str(files[env[path]])
                     else if Usable(env, key) && env[key] in files then Str(files[env[key]])
                     else FieldFrom(env, key))
  {
    GetEnvExact(env, "SSH_USERNAME");
    GetEnvExact(env, "SSH_PASSWORD");
    GetEnvExact(env, "SSH_PASSPHRASE");
    GetEnvExact(env, "SSH_PRIVATE_KEY");
    GetEnvExact(env, "SSH_PRIVATE_KEY_PATH");
    hide GetEnv, Usable;
  }

  // ----- one launch -----

  datatype Stored = Stored(file: Option<string>, host: Option<JsObject>, marker: bool)

  /** Where a launch stops, by a crash or by an error of the call that comes next. */
  datatype Stop =
    | BeforeStore
    | AfterStore
    | DuringCleanup(written: nat)   // so many characters of the cleaned file reached the disk
    | AfterCleanup
    | Never

  function Environment(w: World, file: Option<string>): Env
  {
    if file.Some? then Load(w.base, file.value) else w.base
  }

  function Collected(w: World, p: Stored): Result<EnvSecrets>
  {
    Collect(Environment(w, p.file), w.files)
  }

  function FileAfter(file: Option<string>, stop: Stop): Option<string>
  {
    if file.None? then None
    else
      var next := Cleaned(file.value);
      match stop
      case BeforeStore | AfterStore => file
      case DuringCleanup(n) => if next == file.value then file else Some(if n <= |next| then next[..n] else next)
      case AfterCleanup | Never => Some(next)
  }

  /** What a launch that stops at `stop` leaves behind. */
  function Launch(w: World, p: Stored, stop: Stop): Stored
  {
    if p.marker then p
    else
      match Collected(w, p)
      case Err(_) => p
      case Ok(secrets) =>
        if !Has(secrets) then p.(marker := stop.Never?)
        else if stop.BeforeStore? then p
        else Stored(FileAfter(p.file, stop), Store(p.host, secrets), stop.Never?)
  }

  function Launches(w: World, p: Stored, stops: seq<Stop>): Stored
  {
    if stops == [] then p else Launch(w, Launches(w, p, stops[..|stops| - 1]), stops[|stops| - 1])
  }

  // ----- secrets of a cleaned or torn file -----

  ghost predicate SameSecretKeys(a: Env, b: Env)
  {
    forall k :: k in SECRET_ENV_KEYS ==> (k in a <==> k in b) && (k in b ==> a[k] == b[k])
  }

  lemma CollectSecretKeysOnly(a: Env, b: Env, files: map<string, string>)
    requires SameSecretKeys(a, b)
    ensures Collect(a, files) == Collect(b, files)
  {
    hide Trim;
    assert forall k :: k in SECRET_ENV_KEYS ==> GetEnv(a, k) == GetEnv(b, k);
    assert "SSH_USERNAME" in SECRET_ENV_KEYS && "SSH_PASSWORD" in SECRET_ENV_KEYS
        && "SSH_PRIVATE_KEY" in SECRET_ENV_KEYS
           && "SSH_PRIVATE_KEY_PATH" in SECRET_ENV_KEYS && "SSH_PASSPHRASE" in SECRET_ENV_KEYS;
  }

  ghost predicate SecretFree(file: Option<string>)
  {
    file.Some? ==> NoSecrets(Split(file.value))
  }

  /** From a file without secrets only the inherited environment's secrets are collected. */
  lemma SecretFreeCollects(w: World, p: Stored)
    requires SecretFree(p.file)
    ensures Collected(w, p) == Collect(w.base, w.files)
  {
    if p.file.Some? {
      hide Split, Collect;
      NoSecretsLoaded(w.base, Split(p.file.value));
      CollectSecretKeysOnly(Load(w.base, p.file.value), w.base, w.files);
    }
  }

  /** Once the cleanup write has begun, the file is free of secrets, however much of it got written. */
  lemma CleanupRemovesSecrets(file: Option<string>, stop: Stop)
    ensures FileAfter(file, stop) == file || SecretFree(FileAfter(file, stop))
  {
    if file.Some? {
      hide Cleaned, NoSecrets;
      CleanedHasNoSecrets(file.value);
      if stop.DuringCleanup? {
        TornHasNoSecrets(file.value,
            Cleaned(file.value)[..if stop.written <= |Cleaned(file.value)| then stop.written else 0]);
      }
    }
  }

  // ----- crash safety -----

  /**
   The inherited environment alone yields no secrets, or exactly those that it yields together
   with the file.
   */
  predicate OneOrigin(w: World, p: Stored)
  {
    var all, inherited := Collected(w, p), Collect(w.base, w.files);
    all.Ok? && Has(all.value) && inherited.Ok? && Has(inherited.value) ==> SameSecrets(all.value, inherited.value)
  }

  /** The secrets are in the untouched file or in the repository, or in both. */
  ghost predicate Progress(w: World, p0: Stored, p: Stored, goal: Option<JsObject>)
  {
    || p == p0
    || (p.host == goal && (p.marker || p.file == p0.file || SecretFree(p.file)))
  }

  lemma LaunchProgress(w: World, p0: Stored, p: Stored, stop: Stop)
    requires !p0.marker && OneOrigin(w, p0) && Collected(w, p0).Ok? && Has(Collected(w, p0).value)
    requires Progress(w, p0, p, Store(p0.host, Collected(w, p0).value))
    ensures Progress(w, p0, Launch(w, p, stop), Store(p0.host, Collected(w, p0).value))
    ensures Launch(w, p, stop).marker ==> Launch(w, p, stop).host == Store(p0.host, Collected(w, p0).value)
  {
    hide Collect, FileAfter, Store, SecretFree, Has, SameSecrets;
    var secrets := Collected(w, p0).value;
    CleanupRemovesSecrets(p.file, stop);
    StoreTwice(p0.host, secrets, secrets);
    SameAsItself(secrets);
    if p != p0 && p.file != p0.file && !p.marker {
      SecretFreeCollects(w, p);
      if Collected(w, p).Ok? {
        StoreTwice(p0.host, secrets, Collected(w, p).value);
      }
    }
  }

  lemma SameAsItself(a: EnvSecrets)
    ensures SameSecrets(a, a)
  {
  }

  lemma {:induction false} LaunchesProgress(w: World, p0: Stored, stops: seq<Stop>)
    requires !p0.marker && OneOrigin(w, p0) && Collected(w, p0).Ok? && Has(Collected(w, p0).value)
    ensures var p, goal := Launches(w, p0, stops), Store(p0.host, Collected(w, p0).value);
            Progress(w, p0, p, goal) && (p.marker ==> p.host == goal)
  {
    hide Collected, Launch, Store, OneOrigin, Has, SecretFree;
    if stops != [] {
      LaunchesProgress(w, p0, stops[..|stops| - 1]);
      LaunchProgress(w, p0, Launches(w, p0, stops[..|stops| - 1]), stops[|stops| - 1]);
    }
  }

  lemma {:induction false} NothingToMigrate(w: World, p0: Stored, stops: seq<Stop>)
    requires !p0.marker && (Collected(w, p0).Err? || !Has(Collected(w, p0).value))
    ensures Launches(w, p0, stops) in {p0, p0.(marker := true)}
  {
    hide Collected, Has;
    if stops != [] {
      NothingToMigrate(w, p0, stops[..|stops| - 1]);
    }
  }

  /** However launches are interrupted, a completed migration stores what an uninterrupted one would. */
  ghost predicate CrashSafe(w: World, p0: Stored)
  {
    forall stops :: Launches(w, p0, stops).marker ==> Launches(w, p0, stops).host == Launch(w, p0, Never).host
  }

  lemma FinishedCleanup(file: Option<string>)
    ensures SecretFree(FileAfter(file, AfterCleanup))
  {
    if file.Some? {
      hide Split, Cleaned;
      CleanedHasNoSecrets(file.value);
    }
  }

  lemma TwoLaunches(w: World, p0: Stored, first: Stop, second: Stop)
    ensures Launches(w, p0, [first, second]) == Launch(w, Launch(w, p0, first), second)
  {
    hide Launch;
    assert [first, second][..1] == [first] && [first][..0] == [];
    assert Launches(w, p0, []) == p0 && Launches(w, p0, [first]) == Launch(w, p0, first);
  }

  /** A crash between the cleanup and the marker, with secrets of two origins, loses the file's secrets. */
  lemma MixedOriginsLoseSecrets(w: World, p0: Stored)
    requires !p0.marker && !OneOrigin(w, p0)
    ensures var p := Launches(w, p0, [AfterCleanup, Never]); p.marker && p.host != Launch(w, p0, Never).host
  {
    hide Collect, Collected, Store, Has, SameSecrets, Launches, FileAfter, SecretFree;
    var secrets, inherited := Collected(w, p0).value, Collect(w.base, w.files).value;
    TwoLaunches(w, p0, AfterCleanup, Never);
    FinishedCleanup(p0.file);
    SecretFreeCollects(w, Launch(w, p0, AfterCleanup));
    StoreTwice(p0.host, secrets, inherited);
  }

  /** Such worlds exist: any inherited user name, and a file that sets any password. */
  lemma TwoOriginsExist(user: string, password: string) returns (w: World, p0: Stored)
    requires Bare(user) && Bare(password) && password[0] != '"' && password[0] != '\''
    ensures w.base == map["SSH_USERNAME" := user] && p0.file == Some("SSH_PASSWORD=" + password)
    ensures !p0.marker && !OneOrigin(w, p0)
    ensures Launches(w, p0, [AfterCleanup, Never]).host != Launch(w, p0, Never).host
  {
    w := World(map["SSH_USERNAME" := user], map[]);
    p0 := Stored(Some("SSH_PASSWORD=" + password), None, false);
    KeysApart();
    assert "SSH_PASSWORD" + "=" + password == "SSH_PASSWORD=" + password;
    LoadOne(w.base, "SSH_PASSWORD", password);
    CollectedTwo(user, password);
    hide Load, Launches, Launch, Collect, OneOrigin, EnvObject;
    assert w.base["SSH_PASSWORD" := password] == map["SSH_USERNAME" := user, "SSH_PASSWORD" := password];
    NotOneOrigin(w, p0, user, password);
    MixedOriginsLoseSecrets(w, p0);
  }

  lemma NotOneOrigin(w: World, p: Stored, user: string, password: string)
    requires Collected(w, p) == Ok(EnvObject(Some(user), Some(password), None, None)) && user != "" && password != ""
    requires Collect(w.base, w.files) == Ok(EnvObject(Some(user), None, None, None))
    ensures !OneOrigin(w, p)
  {
    hide Collected, Collect;
    var all, inherited := Collected(w, p).value, Collect(w.base, w.files).value;
    assert Present(Get(all, Username)) && Present(Get(inherited, Username));
    assert OrUndefined(Get(all, Password)) != OrUndefined(Get(inherited, Password)) && Password in ENV_FIELDS;
    SameSecretsIff(all, inherited);
  }

  lemma CollectedTwo(user: string, password: string)
    requires Bare(user) && Bare(password)
    ensures Collect(map["SSH_USERNAME" := user], map[]) == Ok(EnvObject(Some(user), None, None, None))
    ensures Collect(map["SSH_USERNAME" := user, "SSH_PASSWORD" := password], map[])
            == Ok(EnvObject(Some(user), Some(password), None, None))
  {
    KeysApart();
    TrimIdle(JsSpace, user);
    TrimIdle(JsSpace, password);
    hide Trim, JsSpace, EnvObject;
  }

  lemma KeysApart()
    ensures "SSH_USERNAME" != "SSH_PASSWORD" && "SSH_PRIVATE_KEY_PATH" !in {"SSH_USERNAME", "SSH_PASSWORD"}
    ensures "SSH_PRIVATE_KEY" !in {"SSH_USERNAME", "SSH_PASSWORD"}
            && "SSH_PASSPHRASE" !in {"SSH_USERNAME", "SSH_PASSWORD"}
    ensures Bare("SSH_PASSWORD") && '=' !in "SSH_PASSWORD"
  {
    assert |"SSH_PRIVATE_KEY_PATH"| == 20 && |"SSH_PRIVATE_KEY"| == 15 && |"SSH_USERNAME"| == |"SSH_PASSWORD"| == 12;
    assert |"SSH_PASSPHRASE"| == 14;
    assert "SSH_USERNAME"[4] == 'U' && "SSH_PASSWORD"[4] == 'P';
    var p := "SSH_PASSWORD";
    assert p[0] == 'S' && p[11] == 'D';
  }

  /**
   The migration is crash safe, for every crash point and any number of restarts, exactly when the
   secrets have one origin.
   */
  lemma CrashSafeIff(w: World, p0: Stored)
    requires !p0.marker
    ensures CrashSafe(w, p0) <==> OneOrigin(w, p0)
  {
    hide Collected, Has, Store;
    if OneOrigin(w, p0) {
      forall stops | Launches(w, p0, stops).marker
        ensures Launches(w, p0, stops).host == Launch(w, p0, Never).host
      {
        if Collected(w, p0).Ok? && Has(Collected(w, p0).value) {
          LaunchesProgress(w, p0, stops);
        } else {
          NothingToMigrate(w, p0, stops);
        }
      }
    } else {
      MixedOriginsLoseSecrets(w, p0);
    }
  }

  /** When no secret is inherited, all come from the file, and the migration is crash safe. */
  lemma FileOnlyIsCrashSafe(w: World, p0: Stored)
    requires !p0.marker && forall k :: k in SECRET_ENV_KEYS ==> k !in w.base
    ensures CrashSafe(w, p0)
  {
    hide Collected, CrashSafe;
    NothingInherited(w);
    CrashSafeIff(w, p0);
  }

  lemma NothingInherited(w: World)
    requires forall k :: k in SECRET_ENV_KEYS ==> k !in w.base
    ensures Collect(w.base, w.files).Ok? && !Has(Collect(w.base, w.files).value)
  {
    assert "SSH_USERNAME" in SECRET_ENV_KEYS && "SSH_PASSWORD" in SECRET_ENV_KEYS
        && "SSH_PRIVATE_KEY" in SECRET_ENV_KEYS
           && "SSH_PRIVATE_KEY_PATH" in SECRET_ENV_KEYS && "SSH_PASSPHRASE" in SECRET_ENV_KEYS;
  }

  /** At every point of an interrupted migration the secrets are in the file or in the repository. */
  lemma NeverLost(w: World, p0: Stored, stops: seq<Stop>)
    requires !p0.marker && OneOrigin(w, p0) && Collected(w, p0).Ok? && Has(Collected(w, p0).value)
    ensures var p := Launches(w, p0, stops);
            p.file == p0.file || p.host == Store(p0.host, Collected(w, p0).value)
  {
    hide Collected, Store, OneOrigin, Has;
    LaunchesProgress(w, p0, stops);
  }

  /** What the private key of the record is. */
  ghost function KeyFrom(env: Env, files: map<string, string>): JsValue
  {
    var path, key := "SSH_PRIVATE_KEY_PATH", "SSH_PRIVATE_KEY";
    if Usable(env, path) && env[path] in files then OrUndefined(Str(files[env[path]]))
    else if Usable(env, key) && env[key] in files then OrUndefined(Str(files[env[key]]))
    else FieldFrom(env, key)
  }

  lemma FieldKept(env: Env, key: string)
    ensures OrUndefined(FieldFrom(env, key)) == FieldFrom(env, key)
  {
    GetEnvExact(env, key);
  }

  /** The record that the variables of `env` make, with the token of the old record. */
  ghost predicate RecordFrom(h: JsObject, existing: Option<JsObject>, env: Env, files: map<string, string>)
  {
    && Get(h, Username) == FieldFrom(env, "SSH_USERNAME")
    && Get(h, Password) == FieldFrom(env, "SSH_PASSWORD")
    && Get(h, Passphrase) == FieldFrom(env, "SSH_PASSPHRASE")
    && Get(h, PrivateKey) == KeyFrom(env, files)
    && Get(h, Token) == if existing.Some? then OrUndefined(Get(existing.value, Token)) else Undefined
  }

  /** The record that a migration stores, field by field. */
  lemma FieldsStored(existing: Option<JsObject>, env: Env, files: map<string, string>)
    requires Collect(env, files).Ok?
    ensures RecordFrom(Store(existing, Collect(env, files).value).value, existing, env, files)
  {
    hide Collect, Usable, Has, Store;
    CollectExact(env, files);
    MergeExact(existing, Collect(env, files).value);
    FieldKept(env, "SSH_USERNAME");
    FieldKept(env, "SSH_PASSWORD");
    FieldKept(env, "SSH_PASSPHRASE");
    FieldKept(env, "SSH_PRIVATE_KEY");
    hide Get, FieldFrom;
    assert Username in ENV_FIELDS && Password in ENV_FIELDS && PrivateKey in ENV_FIELDS && Passphrase in ENV_FIELDS;
  }

  function CleanFile(file: Option<string>): Option<string>
  {
    if file.Some? then Some(Cleaned(file.value)) else None
  }

  /** The marker comes last: a launch sets it only with the record stored and the file cleaned. */
  lemma MarkerLast(w: World, p: Stored, stop: Stop)
    requires !p.marker && Launch(w, p, stop).marker
    ensures Collected(w, p).Ok?
    ensures var secrets, after := Collected(w, p).value, Launch(w, p, stop);
            if Has(secrets) then after.host == Store(p.host, secrets) && after.file == CleanFile(p.file)
            else after.host == p.host && after.file == p.file
  {
    hide Collected, Has, Store, Cleaned;
  }

  /** The record is stored before the file is touched. */
  lemma StoreFirst(w: World, p: Stored, stop: Stop)
    requires Launch(w, p, stop).file != p.file
    ensures Collected(w, p).Ok? && Launch(w, p, stop).host == Store(p.host, Collected(w, p).value)
  {
    hide Collected, Has, Store, Cleaned;
  }

  lemma MissingKeyFails(env: Env, files: map<string, string>)
    ensures Collect(env, files).Err? <==>
              Usable(env, "SSH_PRIVATE_KEY_PATH") && env["SSH_PRIVATE_KEY_PATH"] !in files
  {
    hide Collect, Usable;
    CollectExact(env, files);
  }

  lemma StoredHas(existing: Option<JsObject>, fromEnv: EnvSecrets)
    requires Has(fromEnv)
    ensures Has(Store(existing, fromEnv).value)
  {
    hide Has, Store;
    MergeExact(existing, fromEnv);
  }

  // ----- the imperative form -----

  /** The desktop application's migration state; `env` is the process environment. */
  class Desktop {
    var file: Option<string>
    var host: Option<JsObject>
    var marker: bool
    var env: Env

    function Persisted(): Stored
      reads this
    {
      Stored(file, host, marker)
    }

    method ClearSecretProcessEnv()
      modifies this`env
      ensures env == old(env) - SECRET_ENV_KEYS
    {
      env := env - SECRET_ENV_KEYS;
    }

    /** `runDesktopSecretsMigration`, cut off at `stop`. */
    method RunMigration(w: World, stop: Stop) returns (migrated: bool)
      requires env == Environment(w, file)
      modifies this
      ensures Persisted() == Launch(w, old(Persisted()), stop)
      ensures var collected := Collected(w, old(Persisted()));
              migrated <==> stop.Never? && !old(marker) && collected.Ok? && Has(collected.value)
      ensures migrated ==> marker && host.Some? && Has(host.value)
      ensures migrated ==> RecordFrom(host.value, old(host), old(env), w.files)
      ensures !old(marker) && Usable(old(env), "SSH_PRIVATE_KEY_PATH")
              && old(env)["SSH_PRIVATE_KEY_PATH"] !in w.files ==>
                !migrated && Persisted() == old(Persisted())
      ensures stop.Never? && !old(marker) && Collected(w, old(Persisted())).Ok? ==>
                && marker
                && (if migrated then file == CleanFile(old(file)) else host == old(host) && file == old(file))
      ensures !stop.Never? ==> marker == old(marker)
      ensures stop.BeforeStore? ==> Persisted() == old(Persisted())
      ensures env == if old(marker) || (stop.Never? && marker) then old(env) - SECRET_ENV_KEYS else old(env)
    {
      hide Collect, Cleaned, Has, Usable, RecordFrom, Normalized, Spread, Load;
      migrated := false;
      if marker {
        ClearSecretProcessEnv();
        return;
      }
      MissingKeyFails(env, w.files);
      var collected := Collect(env, w.files);
      if collected.Err? {
        return;
      }
      var secrets := collected.value;
      if !Has(secrets) {
        if !stop.Never? {
          return;
        }
        marker := true;
        ClearSecretProcessEnv();
        return;
      }
      if stop.BeforeStore? {
        return;
      }
      FieldsStored(old(host), env, w.files);
      var merged := NormalizeHostSecrets(Spread(if host.Some? then host.value else map[], secrets));
      host := Some(merged);
      StoredHas(old(host), secrets);
      if stop.AfterStore? {
        return;
      }
      if file.Some? {
        var next, wrote := CleanupEnvFile(file.value);
        if wrote {
          if stop.DuringCleanup? {
            file := Some(if stop.written <= |next| then next[..stop.written] else next);
            return;
          }
          file := Some(next);
        }
      }
      if !stop.Never? {
        return;
      }
      ClearSecretProcessEnv();
      marker := true;
      migrated := true;
    }
  }
}
