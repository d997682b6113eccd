/**
 * The pure parts of `main` in `src/pyspark/submit_job.py`: the command-line
 * arguments handed to the Dataproc job, built from the click options, and
 * the split of the driver-output URI `gs://bucket/path` into the bucket and
 * the name of the blob that holds the job's output.
 */
module SubmitJob {
  import opened Results
  import opened Text
  import opened ConfigValues
  import SeqFacts

  // ---------------------------------------------------------------- job arguments

  /** The click options in the order `kwargs.items()` yields them; `NoneValue` is an option left unset. */
  type Options = seq<(string, ConfigValue)>

  /** `f"--{key.replace('_', '-')}"`: the key with every underscore turned into a dash, after two dashes. */
  function Flag(key: string): (r: string)
    ensures |r| == |key| + 2 && r[..2] == "--"
    ensures forall i :: 0 <= i < |key| ==> r[i + 2] == (if key[i] == '_' then '-' else key[i])
    ensures '_' !in r
  {
    DashesPointwise(key);
    "--" + ReplaceChar(key, '_', "-")
  }

  lemma {:induction false} DashesPointwise(key: string)
    ensures |ReplaceChar(key, '_', "-")| == |key|
    ensures forall i :: 0 <= i < |key| ==>
              ReplaceChar(key, '_', "-")[i] == (if key[i] == '_' then '-' else key[i])
  {
    if key != [] {
      DashesPointwise(key[1..]);
      var head := if key[0] == '_' then "-" else [key[0]];
      assert ReplaceChar(key, '_', "-") == head + ReplaceChar(key[1..], '_', "-");
    }
  }

  /** What one option adds: its flag and printed value when it is set, nothing otherwise. */
  function Contribution(option: (string, ConfigValue)): seq<string>
  {
    if option.1 == NoneValue then [] else [Flag(option.0), Str(option.1)]
  }

  /** The argument list the loop builds: flag and printed value for every option that is set, in order. */
  function Arguments(options: Options): seq<string>
  {
    if options == [] then [] else Contribution(options[0]) + Arguments(options[1..])
  }

  /** The options that are set, in their order. */
  function SetOptions(options: Options): (r: Options)
    ensures forall j :: 0 <= j < |r| ==> r[j].1 != NoneValue
  {
    if options == [] then []
    else (if options[0].1 == NoneValue then [] else [options[0]]) + SetOptions(options[1..])
  }

  /** The `for` loop over `kwargs.items()` that appends a flag and a value for each option that is set. */
  method BuildArguments(options: Options) returns (args: seq<string>)
    ensures args == Arguments(options)
  {
    args := [];
    for n := 0 to |options|
      invariant args == Arguments(options[..n])
    {
      var (key, value) := options[n];
      if value != NoneValue {
        args := args + [Flag(key)];
        args := args + [Str(value)];
      }
      ArgumentsAppend(options[..n], [options[n]]);
      assert options[..n] + [options[n]] == options[..n + 1];
      assert Arguments([options[n]]) == Contribution(options[n]) by {
        assert [options[n]][1..] == [];
      }
    }
    assert options[..|options|] == options;
  }

  /**
   * The argument list holds two entries per option that is set, the flag
   * and then the printed value, in option order, and nothing else.
   */
  lemma {:induction false} ArgumentsPairUp(options: Options)
    ensures |Arguments(options)| == 2 * |SetOptions(options)|
    ensures forall j :: 0 <= j < |SetOptions(options)| ==>
              && Arguments(options)[2 * j] == Flag(SetOptions(options)[j].0)
              && Arguments(options)[2 * j + 1] == Str(SetOptions(options)[j].1)
  {
    if options != [] {
      var rest := options[1..];
      ArgumentsPairUp(rest);
      var first := options[0];
      if first.1 != NoneValue {
        var present := SetOptions(options);
        var args := Arguments(options);
        assert present == [first] + SetOptions(rest);
        assert args == [Flag(first.0), Str(first.1)] + Arguments(rest);
        forall j | 0 <= j < |present|
          ensures args[2 * j] == Flag(present[j].0) && args[2 * j + 1] == Str(present[j].1)
        {
          if j > 0 {
            assert present[j] == SetOptions(rest)[j - 1];
            assert args[2 * j] == Arguments(rest)[2 * (j - 1)];
          }
        }
      } else {
        assert SetOptions(options) == SetOptions(rest);
        assert Arguments(options) == Arguments(rest);
      }
    }
  }

  /** The arguments of two runs of options are the arguments of each, one after the other. */
  lemma {:induction false} ArgumentsAppend(a: Options, b: Options)
    ensures Arguments(a + b) == Arguments(a) + Arguments(b)
  {
    if a == [] {
      SeqFacts.AppendEmpty(a, b);
    } else {
      SeqFacts.AppendTail(a, b);
      ArgumentsAppend(a[1..], b);
      SeqFacts.Associative(Contribution(a[0]), Arguments(a[1..]), Arguments(b));
    }
  }

  /** An option left unset, wherever it sits, adds nothing. */
  lemma UnsetOptionIgnored(before: Options, key: string, after: Options)
    ensures Arguments(before + [(key, NoneValue)] + after) == Arguments(before + after)
  {
    var unset := [(key, NoneValue)];
    assert Arguments(before + unset + after) == Arguments(before + unset) + Arguments(after) by {
      ArgumentsAppend(before + unset, after);
    }
    assert Arguments(before + unset) == Arguments(before) by {
      ArgumentsAppend(before, unset);
      assert unset[1..] == [];
    }
    ArgumentsAppend(before, after);
  }

  // ---------------------------------------------------------------- driver output

  /** The part of `s` before its first line break: how far `.*` reaches. */
  function FirstLine(s: string): (r: string)
    ensures '\n' !in r && r <= s
    ensures '\n' in s ==> r + ['\n'] <= s
    ensures '\n' !in s ==> r == s
  {
    match SplitFirst(s, '\n')
    case None => s
    case Some((line, rest)) =>
      assert line + ['\n'] == s[..|line| + 1];
      line
  }

  /**
   * `re.match("gs://(.*?)/(.*)", uri)`: the bucket is the shortest text
   * after `gs://` that a `/` follows, the path what follows that `/` up to a
   * line break; `.` matches no line break, so the match fails when one comes
   * before that `/`.
   */
  function MatchGcsUri(uri: string): (r: Option<(string, string)>)
    ensures r.Some? ==> var (bucket, path) := r.value;
                        && '/' !in bucket && '\n' !in bucket && '\n' !in path
                        && "gs://" + bucket + "/" + path <= uri
    ensures !(|uri| >= 5 && uri[..5] == "gs://" && '/' in uri[5..]) ==> r.None?
  {
    if |uri| < 5 || uri[..5] != "gs://" then None
    else match SplitFirst(uri[5..], '/')
      case None => None
      case Some((bucket, rest)) =>
        if '\n' in bucket then None
        else
          var path := FirstLine(rest);
          MatchedPrefix(uri, bucket, rest, path);
          Some((bucket, path))
  }

  lemma MatchedPrefix(uri: string, bucket: string, rest: string, path: string)
    requires |uri| >= 5 && uri[..5] == "gs://" && uri[5..] == bucket + ['/'] + rest
    requires path <= rest
    ensures "gs://" + bucket + "/" + path <= uri
  {
    assert uri == "gs://" + (bucket + ['/'] + rest);
  }

  /** A URI of the expected shape splits into its bucket and its path. */
  lemma MatchFormat(bucket: string, path: string)
    requires '/' !in bucket && '\n' !in bucket && '\n' !in path
    ensures MatchGcsUri("gs://" + bucket + "/" + path) == Some((bucket, path))
  {
    var uri := "gs://" + bucket + "/" + path;
    assert uri[..5] == "gs://";
    assert uri[5..] == bucket + ['/'] + path;
    SplitFirstAt(bucket, '/', path);
  }

  /** `.*` stops at a line break: what follows one is not part of the path. */
  lemma PathEndsAtLineBreak(bucket: string, path: string, tail: string)
    requires '/' !in bucket && '\n' !in bucket && '\n' !in path
    ensures MatchGcsUri("gs://" + bucket + "/" + path + "\n" + tail) == Some((bucket, path))
  {
    var uri := "gs://" + bucket + "/" + path + "\n" + tail;
    var rest := path + ['\n'] + tail;
    assert uri[..5] == "gs://";
    assert uri[5..] == bucket + ['/'] + rest;
    SplitFirstAt(bucket, '/', rest);
    SplitFirstAt(path, '\n', tail);
  }

  /** `.` matches no line break, so one before the first `/` makes the match fail. */
  lemma LineBreakInBucketFails(before: string, after: string, rest: string)
    requires '/' !in before && '/' !in after
    ensures MatchGcsUri("gs://" + before + "\n" + after + "/" + rest).None?
  {
    var bucket := before + ['\n'] + after;
    var uri := "gs://" + before + "\n" + after + "/" + rest;
    assert uri[..5] == "gs://";
    assert uri[5..] == bucket + ['/'] + rest;
    SplitFirstAt(bucket, '/', rest);
    assert bucket[|before|] == '\n';
  }

  /** The bucket ends at the first `/`: a `/` in the path stays in the path. */
  lemma PathKeepsSlashes(bucket: string, dir: string, file: string)
    requires '/' !in bucket && '\n' !in bucket && '\n' !in dir && '\n' !in file
    ensures MatchGcsUri("gs://" + bucket + "/" + dir + "/" + file) == Some((bucket, dir + "/" + file))
  {
    assert "gs://" + bucket + "/" + dir + "/" + file == "gs://" + bucket + "/" + (dir + "/" + file);
    MatchFormat(bucket, dir + "/" + file);
  }

  /** `f"{path}.000000000"`: the blob holding the driver output. */
  function OutputBlob(path: string): (r: string)
    ensures |r| == |path| + 10 && r[..|path|] == path && r[|path|..] == ".000000000"
  {
    path + ".000000000"
  }

  /**
   * The bucket and blob `main` downloads the output from; `None` where the
   * match fails and `matches.group` raises.
   */
  function DriverOutputLocation(uri: string): (r: Option<(string, string)>)
    ensures r.Some? <==> MatchGcsUri(uri).Some?
    ensures r.Some? ==> r.value == (MatchGcsUri(uri).value.0, OutputBlob(MatchGcsUri(uri).value.1))
  {
    match MatchGcsUri(uri)
    case None => None
    case Some((bucket, path)) => Some((bucket, OutputBlob(path)))
  }
}
