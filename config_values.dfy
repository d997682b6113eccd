/**
 * The configuration dictionaries both `setup.py` files read: string keys
 * mapped to the values a JSON or environment loader produces, how Python's
 * `str()` and truth test treat those values, and the keys of the source
 * database's connection settings.
 */
module ConfigValues {
  import opened Results
  import opened Text

  /** A configuration value: `None`, a string, a boolean or an integer. */
  datatype ConfigValue = NoneValue | StrValue(s: string) | BoolValue(b: bool) | IntValue(i: int)

  type Config = map<string, ConfigValue>

  /** The two exceptions the builders can raise. */
  datatype SetupError =
    | KeyError(key: string)   // a required key is missing from the configuration
    | TypeError               // `quote` was given a value that is not a string

  /** `str(v)`, which is also what `format` and f-strings print. */
  function Str(v: ConfigValue): string
  {
    match v
    case NoneValue => "None"
    case StrValue(s) => s
    case BoolValue(b) => if b then "True" else "False"
    case IntValue(i) => IntToString(i)
  }

  /** Python's truth test. */
  predicate Truthy(v: ConfigValue)
  {
    match v
    case NoneValue => false
    case StrValue(s) => s != ""
    case BoolValue(b) => b
    case IntValue(i) => i != 0
  }

  const DriverKey := "SOURCES__SQL_DATABASE__CREDENTIALS__DRIVERNAME"
  const UserKey := "SOURCES__SQL_DATABASE__USERNAME"
  const PasswordKey := "SOURCES__SQL_DATABASE__PASSWORD"
  const HostKey := "SOURCES__SQL_DATABASE__HOST"
  const DatabaseKey := "SOURCES__SQL_DATABASE__DATABASE"
  const PortKey := "SOURCES__SQL_DATABASE__PORT"

  /** The keys of the six connection fields, in the order the `format` arguments look them up. */
  const FieldKeys: seq<string> := [DriverKey, UserKey, PasswordKey, HostKey, DatabaseKey, PortKey]

  /** The first of `keys` that `config` lacks: the `KeyError` a run of lookups raises. */
  function FirstMissing(config: Config, keys: seq<string>): (r: Option<string>)
    ensures r.None? <==> forall k :: k in keys ==> k in config
    ensures r.Some? ==> exists i :: 0 <= i < |keys| && keys[i] == r.value && r.value !in config
                                    && forall j :: 0 <= j < i ==> keys[j] in config
  {
    if keys == [] then None
    else if keys[0] !in config then Some(keys[0])
    else
      var rest := FirstMissing(config, keys[1..]);
      assert forall k :: k in keys ==> k == keys[0] || k in keys[1..];
      if rest.Some? then
        assert exists i :: 0 <= i < |keys[1..]| && keys[1..][i] == rest.value && rest.value !in config
                           && forall j :: 0 <= j < i ==> keys[1..][j] in config;
        var i :| 0 <= i < |keys[1..]| && keys[1..][i] == rest.value && rest.value !in config
                 && forall j :: 0 <= j < i ==> keys[1..][j] in config;
        assert keys[i + 1] == rest.value;
        rest
      else rest
  }
}
