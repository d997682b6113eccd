/**
 * The dlt helpers of `src/dlt/utilities/setup.py`: the connection-string
 * builder (an environment override, a percent-encoded password and the
 * SSL query parameters) and the two validators of the pipeline settings.
 */
module DltSetup {
  import opened Results
  import opened Text
  import opened ConfigValues
  import PercentEncoding
  import JdbcUrl
  import Setup

  // ---------------------------------------------------------------- connection string

  /** The environment variable whose non-empty value is used as the whole connection string. */
  const OverrideKey := "JDBC_CONNECTION_STRING_PASSWORD"
  const SslKey := "SOURCES__SQL_DATABASE__SSL"
  const SslCertKey := "SOURCES__SQL_DATABASE__SSL_CERT"
  const SslKeyKey := "SOURCES__SQL_DATABASE__SSL_KEY"

  /** `os.environ.get(...)` is set and not empty. */
  predicate Overridden(env: map<string, string>)
  {
    OverrideKey in env && env[OverrideKey] != ""
  }

  /**
   * The six fields as `format` receives them: the password through `quote`,
   * the others through `str()`.  The lookups run in argument order, and
   * `quote` raises a `TypeError` on a password that is not a string.
   */
  function QuotedFields(config: Config): (r: Result<JdbcUrl.Fields, SetupError>)
    ensures r.Ok? <==> (forall k :: k in FieldKeys ==> k in config) && config[PasswordKey].StrValue?
    ensures r.Ok? ==> r.value == Setup.PrintedFields(config).(password := PercentEncoding.Quote(config[PasswordKey].s))
  {
    match FirstMissing(config, [DriverKey, UserKey, PasswordKey])
    case Some(key) => Err(KeyError(key))
    case None =>
      if !config[PasswordKey].StrValue? then Err(TypeError)
      else match FirstMissing(config, [HostKey, DatabaseKey, PortKey])
        case Some(key) => Err(KeyError(key))
        case None =>
          Ok(JdbcUrl.Fields(
            Str(config[DriverKey]), Str(config[UserKey]), PercentEncoding.Quote(config[PasswordKey].s),
            Str(config[HostKey]), Str(config[PortKey]), Str(config[DatabaseKey])))
  }

  /** The query string: `sslmode` when SSL is on, and the certificate and key when both keys are present. */
  function SslParameters(config: Config): string
    requires SslKey in config
  {
    if !Truthy(config[SslKey]) then ""
    else if SslCertKey in config && SslKeyKey in config then "?sslmode=require" + CertificateParameters(config)
    else "?sslmode=require"
  }

  function CertificateParameters(config: Config): string
    requires SslCertKey in config && SslKeyKey in config
  {
    "&sslcert=" + Str(config[SslCertKey]) + "&sslkey=" + Str(config[SslKeyKey])
  }

  /** The result of `get_jdbc_connection_string`: override, formatted fields and query string, or an error. */
  function JdbcConnectionString(env: map<string, string>, config: Config): Result<string, SetupError>
  {
    if Overridden(env) then Ok(env[OverrideKey])
    else match QuotedFields(config)
      case Err(e) => Err(e)
      case Ok(fields) =>
        if SslKey !in config then Err(KeyError(SslKey))
        else Ok(JdbcUrl.Format(fields) + SslParameters(config))
  }

  /** `get_jdbc_connection_string`: builds the string piece by piece. */
  method GetJdbcConnectionString(env: map<string, string>, config: Config) returns (r: Result<string, SetupError>)
    ensures r == JdbcConnectionString(env, config)
  {
    if OverrideKey in env && env[OverrideKey] != "" {
      return Ok(env[OverrideKey]);
    }
    var fields := QuotedFields(config);
    if fields.Err? {
      return Err(fields.error);
    }
    var base := JdbcUrl.Format(fields.value);
    var resp := base;
    if SslKey !in config {
      return Err(KeyError(SslKey));
    }
    if Truthy(config[SslKey]) {
      resp := resp + "?sslmode=require";
      if SslCertKey in config && SslKeyKey in config {
        resp := resp + CertificateParameters(config);
        assert resp == base + ("?sslmode=require" + CertificateParameters(config));
      }
    }
    assert resp == base + SslParameters(config);
    return Ok(resp);
  }

  /** A non-empty override is returned verbatim, whatever the configuration holds. */
  lemma OverrideWins(env: map<string, string>, config: Config, other: Config)
    requires Overridden(env)
    ensures JdbcConnectionString(env, config) == JdbcConnectionString(env, other) == Ok(env[OverrideKey])
  {
  }

  /**
   * Without an override, a configuration missing a field key fails with a
   * `KeyError` for a missing key, unless an earlier lookup already met a
   * password `quote` cannot take.
   */
  lemma MissingFieldFails(env: map<string, string>, config: Config)
    requires !Overridden(env)
    requires exists k :: k in FieldKeys && k !in config
    requires PasswordKey in config ==> config[PasswordKey].StrValue?
    ensures JdbcConnectionString(env, config).Err?
    ensures var e := JdbcConnectionString(env, config).error;
            e.KeyError? && e.key in FieldKeys && e.key !in config
  {
    var missing1 := FirstMissing(config, [DriverKey, UserKey, PasswordKey]);
    if missing1.None? {
      assert PasswordKey in [DriverKey, UserKey, PasswordKey];
      var missing2 := FirstMissing(config, [HostKey, DatabaseKey, PortKey]);
      assert missing2.Some? by {
        var k :| k in FieldKeys && k !in config;
        assert k in [HostKey, DatabaseKey, PortKey];
      }
    }
  }

  /** A successful result without an override is the formatted fields followed by the SSL parameters. */
  lemma Assembled(env: map<string, string>, config: Config)
    requires !Overridden(env) && JdbcConnectionString(env, config).Ok?
    ensures QuotedFields(config).Ok? && SslKey in config
    ensures JdbcConnectionString(env, config).value == JdbcUrl.Format(QuotedFields(config).value) + SslParameters(config)
  {
  }

  /** `quote` leaves no `?` behind, so the query string starts at the first `?`. */
  lemma QuoteHasNoQuestionMark(s: string)
    ensures '?' !in PercentEncoding.Quote(s)
  {
    var q := PercentEncoding.Quote(s);
    assert forall i :: 0 <= i < |q| ==> q[i] != '?' by {
      assert forall i :: 0 <= i < |q| ==> PercentEncoding.KeptByQuote(q[i]) || q[i] == '%';
    }
  }

  /**
   * Without an override, a successful result carries a query string (a `?`)
   * exactly when the SSL setting is truthy, provided no field other than the
   * encoded password holds a `?` of its own.
   */
  lemma QueryStringIffSsl(env: map<string, string>, config: Config)
    requires !Overridden(env)
    requires JdbcConnectionString(env, config).Ok?
    requires forall k :: k in [DriverKey, UserKey, HostKey, DatabaseKey, PortKey] ==> '?' !in Str(config[k])
    ensures '?' in JdbcConnectionString(env, config).value <==> Truthy(config[SslKey])
  {
    Assembled(env, config);
    var fields := QuotedFields(config).value;
    QuoteHasNoQuestionMark(config[PasswordKey].s);
    JdbcUrl.FormatShape(fields);
    var base := JdbcUrl.Format(fields);
    assert '?' !in base;
    var r := JdbcConnectionString(env, config).value;
    if Truthy(config[SslKey]) {
      assert r[|base|] == '?';
    } else {
      assert r == base;
    }
  }

  /**
   * With SSL on, whether the certificate and key are sent depends on the
   * presence of both keys, not on their values: a certificate set to `None`
   * is sent as the text `None`.
   */
  lemma NoneCertificateIsSent(env: map<string, string>, config: Config)
    requires !Overridden(env) && JdbcConnectionString(env, config).Ok?
    requires Truthy(config[SslKey]) && SslKeyKey in config
    requires SslCertKey in config && config[SslCertKey] == NoneValue
    ensures var r := JdbcConnectionString(env, config).value;
            var tail := "&sslcert=" + "None" + "&sslkey=" + Str(config[SslKeyKey]);
            |tail| <= |r| && r[|r| - |tail|..] == tail
  {
    Assembled(env, config);
    var base := JdbcUrl.Format(QuotedFields(config).value);
    var tail := CertificateParameters(config);
    var r := JdbcConnectionString(env, config).value;
    assert r == (base + "?sslmode=require") + tail;
  }

  /** With SSL on and either key absent, nothing follows `?sslmode=require`. */
  lemma NoCertificateWithoutBothKeys(env: map<string, string>, config: Config)
    requires !Overridden(env) && JdbcConnectionString(env, config).Ok?
    requires Truthy(config[SslKey]) && !(SslCertKey in config && SslKeyKey in config)
    ensures var r := JdbcConnectionString(env, config).value;
            |r| >= 16 && r[|r| - 16..] == "?sslmode=require"
  {
    Assembled(env, config);
    var base := JdbcUrl.Format(QuotedFields(config).value);
    var r := JdbcConnectionString(env, config).value;
    assert r == base + "?sslmode=require";
  }

  /**
   * With SSL off, a URL parser reads the string back into the fields with
   * the password still encoded, and decoding it gives the UTF-8 bytes of the
   * configured password.  `quote` keeps `/`, so this needs a password
   * without `/`.
   */
  lemma PasswordRoundTrip(env: map<string, string>, config: Config)
    requires !Overridden(env) && JdbcConnectionString(env, config).Ok?
    requires !Truthy(config[SslKey])
    requires JdbcUrl.Separable(Setup.PrintedFields(config).(password := ""))
    requires '/' !in config[PasswordKey].s
    ensures var parsed := JdbcUrl.Parse(JdbcConnectionString(env, config).value);
            && parsed == Some(QuotedFields(config).value)
            && PercentEncoding.PercentDecode(parsed.value.password) == Some(PercentEncoding.Utf8(config[PasswordKey].s))
  {
    Assembled(env, config);
    var password := config[PasswordKey].s;
    var q := PercentEncoding.Quote(password);
    PercentEncoding.QuoteKeepsSlash(password);
    assert '@' !in q by {
      assert forall i :: 0 <= i < |q| ==> PercentEncoding.KeptByQuote(q[i]) || q[i] == '%';
    }
    var fields := QuotedFields(config).value;
    assert fields.password == q;
    assert JdbcUrl.Separable(fields);
    assert JdbcConnectionString(env, config).value == JdbcUrl.Format(fields);
    JdbcUrl.ParseFormat(fields);
    PercentEncoding.DecodeQuote(password);
  }

  /**
   * With no override, SSL off and a password `quote` leaves as it is, this
   * builder and the plain one of `src/utilities/setup.py` agree.
   */
  lemma AgreesWithPlainBuilder(env: map<string, string>, config: Config)
    requires !Overridden(env) && JdbcConnectionString(env, config).Ok?
    requires !Truthy(config[SslKey])
    requires forall i :: 0 <= i < |config[PasswordKey].s| ==> PercentEncoding.KeptByQuote(config[PasswordKey].s[i])
    ensures JdbcConnectionString(env, config) == Setup.GetJdbcConnectionString(config)
  {
    Assembled(env, config);
    PercentEncoding.QuoteKeepsSafeText(config[PasswordKey].s);
    assert QuotedFields(config).value == Setup.PrintedFields(config);
    assert JdbcConnectionString(env, config).value == JdbcUrl.Format(Setup.PrintedFields(config));
  }

  // ---------------------------------------------------------------- write disposition

  const ValidDispositions: seq<string> := ["append", "replace", "merge", "drop"]

  /** The `ValueError` message for an unknown disposition; the list is the four valid ones joined by `, `. */
  function InvalidDispositionMessage(writeDisposition: string): string
  {
    "Invalid write disposition: " + writeDisposition + ". Valid options are: append, replace, merge, drop."
  }

  const MergeMessage := "We're not supporting merge as a write disposition yet - all pseduo-incremental loads are handled in dbt"

  /**
   * `validate_write_dispostiion`: `append` and `replace` pass unchanged,
   * `drop` becomes `None`, `merge` and everything else raise `ValueError`
   * (carried as its message).
   */
  function ValidateWriteDisposition(writeDisposition: string): (r: Result<Option<string>, string>)
    ensures r.Ok? <==> writeDisposition in {"append", "replace", "drop"}
    ensures r.Ok? && writeDisposition != "drop" ==> r.value == Some(writeDisposition)
    ensures writeDisposition == "drop" ==> r == Ok(None)
    ensures writeDisposition !in ValidDispositions ==> r == Err(InvalidDispositionMessage(writeDisposition))
    ensures writeDisposition == "merge" ==> r == Err(MergeMessage)
  {
    if writeDisposition !in ValidDispositions then Err(InvalidDispositionMessage(writeDisposition))
    else if writeDisposition == "drop" then Ok(None)
    else if writeDisposition == "merge" then Err(MergeMessage)
    else Ok(Some(writeDisposition))
  }

  // ---------------------------------------------------------------- source tables

  /**
   * `validate_source_tables`: `None` (all tables) for a lone `ALL` in any
   * case and spacing, otherwise the comma-separated names, each stripped.
   */
  function ValidateSourceTables(sourceTables: string): (r: Option<seq<string>>)
    ensures r.None? <==> ',' !in sourceTables && Upper(Strip(sourceTables)) == "ALL"
    ensures r.Some? ==> |r.value| == |Split(sourceTables, ',')| == Count(sourceTables, ',') + 1
    ensures r.Some? ==> forall k :: 0 <= k < |r.value| ==> r.value[k] == Strip(Split(sourceTables, ',')[k])
  {
    var pieces := Split(sourceTables, ',');
    var targetTables := seq(|pieces|, k requires 0 <= k < |pieces| => Strip(pieces[k]));
    SplitShape(sourceTables, ',');
    CountZero(sourceTables, ',');
    assert ',' !in sourceTables ==> pieces == [sourceTables] by {
      if ',' !in sourceTables {
        SplitNoSep(sourceTables, ',');
      }
    }
    if |targetTables| == 1 && Upper(targetTables[0]) == "ALL" then None else Some(targetTables)
  }

  /**
   * For a list written without white space, joining the names back with
   * commas restores the setting.
   */
  lemma SourceTablesRoundTrip(sourceTables: string)
    requires ValidateSourceTables(sourceTables).Some?
    requires forall i :: 0 <= i < |sourceTables| ==> !IsSpace(sourceTables[i])
    ensures Join([','], ValidateSourceTables(sourceTables).value) == sourceTables
  {
    var pieces := Split(sourceTables, ',');
    var names := ValidateSourceTables(sourceTables).value;
    forall k | 0 <= k < |pieces|
      ensures names[k] == pieces[k]
    {
      PiecesHaveNoSpace(sourceTables, ',', k);
      StripNoSpace(pieces[k]);
    }
    assert names == pieces;
    JoinSplit(sourceTables, ',');
  }

  /** Every piece of a split is made of characters of the input. */
  lemma {:induction false} PiecesHaveNoSpace(s: string, sep: char, k: nat)
    requires forall i :: 0 <= i < |s| ==> !IsSpace(s[i])
    requires k < |Split(s, sep)|
    ensures forall i :: 0 <= i < |Split(s, sep)[k]| ==> !IsSpace(Split(s, sep)[k][i])
  {
    if s != [] {
      var rest := Split(s[1..], sep);
      if s[0] == sep {
        if k > 0 {
          PiecesHaveNoSpace(s[1..], sep, k - 1);
        }
      } else if k == 0 {
        PiecesHaveNoSpace(s[1..], sep, 0);
        assert Split(s, sep)[0] == [s[0]] + rest[0];
      } else {
        PiecesHaveNoSpace(s[1..], sep, k);
      }
    }
  }

  /** Text without white space is its own strip. */
  lemma StripNoSpace(s: string)
    requires forall i :: 0 <= i < |s| ==> !IsSpace(s[i])
    ensures Strip(s) == s
  {
  }

  /** The names are the pieces between commas, each stripped, and none of them contains a comma. */
  lemma SourceTablesPieces(sourceTables: string)
    requires ValidateSourceTables(sourceTables).Some?
    ensures var names := ValidateSourceTables(sourceTables).value;
            forall k :: 0 <= k < |names| ==> ',' !in names[k]
  {
    var names := ValidateSourceTables(sourceTables).value;
    SplitShape(sourceTables, ',');
    forall k | 0 <= k < |names|
      ensures ',' !in names[k]
    {
      StripWithin(Split(sourceTables, ',')[k], ',');
    }
  }

  lemma StripWithin(s: string, c: char)
    requires c !in s
    ensures c !in Strip(s)
  {
    var r, n := Strip(s), LeadingSpaces(s);
    forall i | 0 <= i < |r|
      ensures r[i] != c
    {
      assert r[i] == s[n + i];
    }
  }
}
