/** The configuration loader: validation of the `APP_ENV` value, the
    directory configured for each environment, the recursive merge of TOML
    tables, and loading the configuration with its optional secrets.

    The file system is a parameter: a map from file path to the parsed TOML
    document of every file that exists. */
module ConfigLoader {
  import opened Wrappers

  const EnvVarName: string := "APP_ENV"

  datatype ValidEnv = Local | Dev | Prod

  /** The string value of each environment, also its directory name. */
  function EnvName(e: ValidEnv): string
  {
    match e
    case Local => "local"
    case Dev => "dev"
    case Prod => "prod"
  }

  datatype EnvError = NotSet | Invalid(value: string)

  /** `validate_env`: the environment named by `env`, refusing a missing
      value and any string other than the three names. */
  function ValidateEnv(env: Option<string>): (r: Result<ValidEnv, EnvError>)
    ensures env.None? <==> r == Err(NotSet)
    ensures r.Ok? <==> env.Some? && env.value in {"local", "dev", "prod"}
    ensures r.Ok? ==> EnvName(r.value) == env.value
    ensures env.Some? && r.Err? ==> r == Err(Invalid(env.value))
  {
    match env
    case None => Err(NotSet)
    case Some(s) =>
      if s == "local" then Ok(Local)
      else if s == "dev" then Ok(Dev)
      else if s == "prod" then Ok(Prod)
      else Err(Invalid(s))
  }

  /** Validation inverts `EnvName`. */
  lemma ValidateEnvRoundTrip(e: ValidEnv)
    ensures ValidateEnv(Some(EnvName(e))) == Ok(e)
  {
  }

  /** `get_current_env`: validate the value of `APP_ENV` in the process
      environment `vars`. */
  function CurrentEnv(vars: map<string, string>): (r: Result<ValidEnv, EnvError>)
    ensures EnvVarName !in vars <==> r == Err(NotSet)
    ensures r.Ok? ==> EnvVarName in vars && vars[EnvVarName] == EnvName(r.value)
    ensures EnvVarName in vars ==> r == ValidateEnv(Some(vars[EnvVarName]))
    ensures EnvVarName in vars && r.Err? ==> r.error == Invalid(vars[EnvVarName])
  {
    ValidateEnv(if EnvVarName in vars then Some(vars[EnvVarName]) else None)
  }

  // ------------------------------------------------------------- files

  type Path = string

  datatype DirContents = ConfigName | SecretsName | ExportName | DotenvName

  function FileName(f: DirContents): string
  {
    match f
    case ConfigName => "config.toml"
    case SecretsName => ".secrets.toml"
    case ExportName => "export.toml"
    case DotenvName => ".env"
  }

  /** `CONFIG_PATH` under the project root `base`. */
  function ConfigPath(base: Path): Path
  {
    base + "/config"
  }

  /** `ENV_TO_DIR_PATHS`: the directory of each environment's files. */
  function EnvToDirPaths(base: Path): (m: map<ValidEnv, Path>)
    ensures m.Keys == {Local, Dev, Prod}
  {
    map[Local := ConfigPath(base) + "/" + EnvName(Local),
        Dev := ConfigPath(base) + "/" + EnvName(Dev),
        Prod := ConfigPath(base) + "/" + EnvName(Prod)]
  }

  /** Every valid environment has a configured directory, named after it. */
  lemma EveryEnvHasDirectory(base: Path, e: ValidEnv)
    ensures e in EnvToDirPaths(base)
    ensures EnvToDirPaths(base)[e] == ConfigPath(base) + "/" + EnvName(e)
  {
    match e
    case Local =>
    case Dev =>
    case Prod =>
  }

  /** A non-table value (string, number, boolean, date or array) is an
      `Atom`; a table maps keys to values. */
  datatype Toml = Atom(text: string) | Table(entries: map<string, Toml>)

  type Document = map<string, Toml>

  type FileSystem = map<Path, Document>

  /** Both failures of `read_config` are `FileNotFoundError`s. */
  datatype ConfigError = NoDirectory(env: ValidEnv) | FileNotFound(path: Path)

  /** `read_config`: the parsed file `file` of the environment's directory. */
  function ReadConfig(base: Path, fs: FileSystem, env: ValidEnv, file: DirContents): (r: Result<Document, ConfigError>)
    ensures env in EnvToDirPaths(base)
    ensures r.Ok? <==> EnvToDirPaths(base)[env] + "/" + FileName(file) in fs
    ensures r.Ok? ==> r.value == fs[EnvToDirPaths(base)[env] + "/" + FileName(file)]
    ensures r.Err? ==> r.error.FileNotFound?
  {
    var dirs := EnvToDirPaths(base);
    EveryEnvHasDirectory(base, env);
    if env !in dirs then Err(NoDirectory(env))
    else
      var path := dirs[env] + "/" + FileName(file);
      if path in fs then Ok(fs[path]) else Err(FileNotFound(path))
  }

  // ------------------------------------------------------------- merge

  /** `merge_dicts(dict1, dict2)`, declaratively: every key of either; a
      key of `dict2` takes the value `Combine` gives, a key only of `dict1`
      keeps its value. */
  function Merge(d1: Document, d2: Document): (r: Document)
    ensures r.Keys == d1.Keys + d2.Keys
    decreases Table(d2), 0
  {
    map k | k in d1.Keys + d2.Keys :: if k in d2 then Combine(d1, k, d2[k]) else d1[k]
  }

  /** The value a key of `dict2` ends with: the recursive merge when both
      values are tables, otherwise `dict2`'s value. */
  function Combine(d1: Document, k: string, v: Toml): Toml
    decreases v, 1
  {
    if k in d1 && d1[k].Table? && v.Table? then Table(Merge(d1[k].entries, v.entries)) else v
  }

  /** Right bias: a key of `d2` takes `d2`'s value unless both values are
      tables; a key only of `d1` keeps `d1`'s value. */
  lemma MergeRightBias(d1: Document, d2: Document, k: string)
    ensures k in d2 && !(k in d1 && d1[k].Table? && d2[k].Table?) ==> Merge(d1, d2)[k] == d2[k]
    ensures k in d1 && k !in d2 ==> Merge(d1, d2)[k] == d1[k]
    ensures k in d1 && k in d2 && d1[k].Table? && d2[k].Table? ==>
      Merge(d1, d2)[k] == Table(Merge(d1[k].entries, d2[k].entries))
  {
  }

  lemma MergeRightIdentity(d: Document)
    ensures Merge(d, map[]) == d
  {
  }

  lemma MergeLeftIdentity(d: Document)
    ensures Merge(map[], d) == d
  {
  }

  /** Merging a document into itself changes nothing, at any depth. */
  lemma {:induction false} MergeIdempotent(d: Document)
    ensures Merge(d, d) == d
    decreases Table(d)
  {
    forall k | k in d && d[k].Table?
      ensures Merge(d[k].entries, d[k].entries) == d[k].entries
    {
      MergeIdempotent(d[k].entries);
    }
  }

  /** `d2` restricted to the keys in `s`. */
  function Restrict(d: Document, s: set<string>): (r: Document)
    ensures r.Keys == d.Keys * s
    ensures forall k :: k in r ==> r[k] == d[k]
  {
    map k | k in d && k in s :: d[k]
  }

  /** The loop as written: start from a copy of `dict1` and fold in each
      item of `dict2`, merging recursively where both values are tables. */
  method MergeDicts(dict1: Document, dict2: Document) returns (result: Document)
    ensures result == Merge(dict1, dict2)
    decreases Table(dict2)
  {
    result := dict1;
    var done: set<string> := {};
    var todo := dict2.Keys;
    while todo != {}
      invariant todo !! done && todo + done == dict2.Keys
      invariant result == Merge(dict1, Restrict(dict2, done))
      decreases todo
    {
      var key :| key in todo;
      var value := dict2[key];
      MergeStep(dict1, dict2, done, key);
      if key in result && result[key].Table? && value.Table? {
        assert result[key] == dict1[key];
        var sub := MergeDicts(result[key].entries, value.entries);
        result := result[key := Table(sub)];
      } else {
        result := result[key := value];
      }
      done := done + {key};
      todo := todo - {key};
    }
    assert Restrict(dict2, done) == dict2;
  }

  /** Folding in one more key of `dict2` updates only that key. */
  lemma MergeStep(d1: Document, d2: Document, done: set<string>, key: string)
    requires key in d2 && key !in done
    ensures var before := Merge(d1, Restrict(d2, done));
      && (key in before <==> key in d1)
      && (key in d1 ==> before[key] == d1[key])
      && Merge(d1, Restrict(d2, done + {key})) == before[key := Combine(d1, key, d2[key])]
  {
    var r0 := Restrict(d2, done);
    assert Restrict(d2, done + {key}) == r0[key := d2[key]];
    MergeAddKey(d1, r0, key, d2[key]);
  }

  /** Merging a document with one more key changes the result at that key
      alone. */
  lemma MergeAddKey(d1: Document, d2: Document, key: string, v: Toml)
    requires key !in d2
    ensures Merge(d1, d2[key := v]) == Merge(d1, d2)[key := Combine(d1, key, v)]
  {
    var after := Merge(d1, d2[key := v]);
    var expected := Merge(d1, d2)[key := Combine(d1, key, v)];
    assert after.Keys == expected.Keys;
    forall k | k in after ensures after[k] == expected[k] {
      if k != key {
        assert after[k] == if k in d2 then Combine(d1, k, d2[k]) else d1[k];
      }
    }
  }

  // ------------------------------------------------------- full config

  /** `load_full_config`: the environment's configuration, merged with its
      secrets when the secrets file exists. */
  function LoadFullConfig(base: Path, fs: FileSystem, env: ValidEnv): (r: Result<Document, ConfigError>)
    ensures r.Err? <==> ReadConfig(base, fs, env, ConfigName).Err?
    ensures r.Err? ==> r == Err(ReadConfig(base, fs, env, ConfigName).error)
    ensures r.Ok? && ReadConfig(base, fs, env, SecretsName).Err? ==>
      r.value == ReadConfig(base, fs, env, ConfigName).value
    ensures r.Ok? && ReadConfig(base, fs, env, SecretsName).Ok? ==>
      r.value == Merge(ReadConfig(base, fs, env, ConfigName).value, ReadConfig(base, fs, env, SecretsName).value)
  {
    var config :- ReadConfig(base, fs, env, ConfigName);
    match ReadConfig(base, fs, env, SecretsName)
    case Err(_) => Ok(config)
    case Ok(secrets) => Ok(Merge(config, secrets))
  }

  /** Every key of the secrets file is in the full configuration, and every
      key of the base configuration stays. */
  lemma FullConfigKeys(base: Path, fs: FileSystem, env: ValidEnv)
    requires ReadConfig(base, fs, env, ConfigName).Ok?
    ensures LoadFullConfig(base, fs, env).Ok?
    ensures ReadConfig(base, fs, env, ConfigName).value.Keys <= LoadFullConfig(base, fs, env).value.Keys
    ensures ReadConfig(base, fs, env, SecretsName).Ok? ==>
      ReadConfig(base, fs, env, SecretsName).value.Keys <= LoadFullConfig(base, fs, env).value.Keys
  {
  }
}
