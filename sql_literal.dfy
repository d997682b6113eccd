/**
 * The literal encoder of `ConnectionClient.transfer`: how one Python value of a
 * fetched row is written into an `INSERT ... VALUES(...)` statement, and how a
 * whole row becomes the text between the parentheses.
 *
 * A scanner for the same literal syntax (`NULL`, `True`/`False`, decimal
 * integers, and character string literals whose embedded quotes are doubled,
 * section 5.3 of ISO/IEC 9075-2) is the partner the encoder is checked against.
 */
module SqlLiteral {
  import opened Results
  import opened Text

  /**
   * A value of a fetched row.  `Bool` is Python's `bool`, an `int` subclass;
   * `Float` and `Other` carry the text `str(value)` gives for a float and for
   * any other object (a date, a decimal, ...).
   */
  datatype Value = Null | Str(s: string) | Int(i: int) | Bool(b: bool) | Float(text: string) | Other(text: string)

  type Row = seq<Value>

  /** `value.replace("'", "''")`. */
  function Escape(s: string): string
  {
    ReplaceChar(s, '\'', "''")
  }

  /**
   * The text a value contributes: `NULL` for `None`, a quoted and escaped
   * string for `str`, `str(value)` unquoted for `int`, `float` and `bool`, and
   * `str(value)` quoted but not escaped for anything else.
   */
  function Render(v: Value): string
  {
    match v
    case Null => "NULL"
    case Str(s) => "'" + Escape(s) + "'"
    case Int(i) => IntToString(i)
    case Bool(b) => if b then "True" else "False"
    case Float(text) => text
    case Other(text) => "'" + text + "'"
  }

  /** Each value rendered, in row order. */
  function RenderAll(row: Row): (r: seq<string>)
    ensures |r| == |row|
    ensures forall k :: 0 <= k < |row| ==> r[k] == Render(row[k])
  {
    if row == [] then [] else [Render(row[0])] + RenderAll(row[1..])
  }

  /** `", ".join(formatted_values)`. */
  function RenderRow(row: Row): string
  {
    Join(", ", RenderAll(row))
  }

  /**
   * The per-value loop of the transfer: each value of the row is formatted
   * in turn and appended to `formatted_values`, which is then joined.
   */
  method FormatValues(row: Row) returns (valuesStr: string)
    ensures valuesStr == RenderRow(row)
  {
    var formatted: seq<string> := [];
    for k := 0 to |row|
      invariant |formatted| == k
      invariant forall m :: 0 <= m < k ==> formatted[m] == Render(row[m])
    {
      match row[k]
      case Null =>
        formatted := formatted + ["NULL"];
      case Str(s) =>
        var escaped := ReplaceChar(s, '\'', "''");
        formatted := formatted + ["'" + escaped + "'"];
      case Int(i) =>
        formatted := formatted + [IntToString(i)];
      case Bool(b) =>
        formatted := formatted + [if b then "True" else "False"];
      case Float(text) =>
        formatted := formatted + [text];
      case Other(text) =>
        formatted := formatted + ["'" + text + "'"];
    }
    assert formatted == RenderAll(row);
    valuesStr := Join(", ", formatted);
  }

  // ---------------------------------------------------------------- string literals

  function PrependChar(c: char, o: Option<string>): Option<string>
  {
    match o
    case Some(s) => Some([c] + s)
    case None => None
  }

  /**
   * The characters a literal body stands for: `''` stands for one quote, and
   * a quote that is not doubled makes the body malformed (`None`).
   */
  function Unescape(body: string): Option<string>
  {
    if body == [] then Some([])
    else if body[0] == '\'' then
      if |body| >= 2 && body[1] == '\'' then PrependChar('\'', Unescape(body[2..])) else None
    else PrependChar(body[0], Unescape(body[1..]))
  }

  /** The string a complete literal `'...'` denotes, if it is well formed. */
  function ParseStringLiteral(t: string): Option<string>
  {
    if |t| >= 2 && t[0] == '\'' && t[|t| - 1] == '\'' then Unescape(t[1..|t| - 1]) else None
  }

  /** Doubling the quotes is undone by reading the body back. */
  lemma {:induction false} UnescapeEscape(s: string)
    ensures Unescape(Escape(s)) == Some(s)
  {
    if s != [] {
      UnescapeEscape(s[1..]);
      ReplaceCharAppend([s[0]], s[1..], '\'', "''");
      assert [s[0]] + s[1..] == s;
      var e := Escape(s);
      if s[0] == '\'' {
        assert e == "''" + Escape(s[1..]);
        assert e[2..] == Escape(s[1..]);
      } else {
        assert e == [s[0]] + Escape(s[1..]);
        assert e[1..] == Escape(s[1..]);
      }
    }
  }

  /**
   * And a well-formed body is the escape of exactly one string: every quote
   * in it is part of a doubled pair.
   */
  lemma {:induction false} EscapeUnescape(body: string, s: string)
    requires Unescape(body) == Some(s)
    ensures Escape(s) == body
  {
    if body != [] {
      if body[0] == '\'' {
        var t := Unescape(body[2..]).value;
        EscapeUnescape(body[2..], t);
        assert s == ['\''] + t;
        ReplaceCharAppend(['\''], t, '\'', "''");
        assert body == "''" + body[2..];
      } else {
        var t := Unescape(body[1..]).value;
        EscapeUnescape(body[1..], t);
        assert s == [body[0]] + t;
        ReplaceCharAppend([body[0]], t, '\'', "''");
        assert body == [body[0]] + body[1..];
      }
    }
  }

  /** A Python string survives the trip through its SQL literal. */
  lemma StringLiteralRoundTrip(s: string)
    ensures ParseStringLiteral(Render(Str(s))) == Some(s)
  {
    var r := Render(Str(s));
    assert r[1..|r| - 1] == Escape(s);
    UnescapeEscape(s);
  }

  /**
   * Values of other types are quoted without doubling their quotes: the
   * text `O'Brien` of such a value gives a literal that does not read back.
   */
  lemma OtherValueNotEscaped()
    ensures ParseStringLiteral(Render(Other("O'Brien"))) == None
    ensures ParseStringLiteral(Render(Str("O'Brien"))) == Some("O'Brien")
  {
    var r := Render(Other("O'Brien"));
    assert r[1..|r| - 1] == "O'Brien";
    assert "O'Brien"[1..] == "'Brien";
    StringLiteralRoundTrip("O'Brien");
  }

  // ---------------------------------------------------------------- whole rows

  /** Values whose text reads back: all but floats and other objects, whose text is opaque. */
  predicate Readable(v: Value)
  {
    !v.Float? && !v.Other?
  }

  /** Reads a literal body after its opening quote, up to the closing quote. */
  function ScanQuoted(t: string): (r: Option<(string, string)>)
    ensures r.Some? ==> |r.value.1| < |t|
  {
    if t == [] then None
    else if t[0] == '\'' then
      if |t| >= 2 && t[1] == '\'' then
        match ScanQuoted(t[2..])
        case None => None
        case Some((s, rest)) => Some((['\''] + s, rest))
      else Some(([], t[1..]))
    else
      match ScanQuoted(t[1..])
      case None => None
      case Some((s, rest)) => Some(([t[0]] + s, rest))
  }

  /** Length of the run of decimal digits `t` starts with. */
  function DigitRun(t: string): (n: nat)
    ensures n <= |t|
    ensures forall i :: 0 <= i < n ==> IsDigit(t[i])
    ensures n == |t| || !IsDigit(t[n])
  {
    if t == [] || !IsDigit(t[0]) then 0 else 1 + DigitRun(t[1..])
  }

  /** Reads one literal from the front of `t`: the value and the text after it. */
  function ScanValue(t: string): (r: Option<(Value, string)>)
    ensures r.Some? ==> |r.value.1| < |t|
  {
    if |t| >= 4 && t[..4] == "NULL" then Some((Null, t[4..]))
    else if |t| >= 4 && t[..4] == "True" then Some((Bool(true), t[4..]))
    else if |t| >= 5 && t[..5] == "False" then Some((Bool(false), t[5..]))
    else if t != [] && t[0] == '\'' then
      match ScanQuoted(t[1..])
      case None => None
      case Some((s, rest)) => Some((Str(s), rest))
    else if t != [] && t[0] == '-' && DigitRun(t[1..]) > 0 then
      var n := DigitRun(t[1..]);
      Some((Int(-(DigitsValue(t[1..1 + n]) as int)), t[1 + n..]))
    else if DigitRun(t) > 0 then
      var n := DigitRun(t);
      Some((Int(DigitsValue(t[..n])), t[n..]))
    else None
  }

  function PrependValue(v: Value, o: Option<Row>): Option<Row>
  {
    match o
    case Some(row) => Some([v] + row)
    case None => None
  }

  /** Reads a non-empty list of literals separated by `", "`. */
  function ParseValueList(t: string): Option<Row>
    decreases |t|
  {
    match ScanValue(t)
    case None => None
    case Some((v, rest)) =>
      if rest == [] then Some([v])
      else if |rest| >= 2 && rest[..2] == ", " then PrependValue(v, ParseValueList(rest[2..]))
      else None
  }

  /** Reads the text between the parentheses of `VALUES(...)`. */
  function ParseValues(t: string): Option<Row>
  {
    if t == [] then Some([]) else ParseValueList(t)
  }

  lemma {:induction false} ScanQuotedEscape(s: string, rest: string)
    requires rest == [] || rest[0] != '\''
    ensures ScanQuoted(Escape(s) + "'" + rest) == Some((s, rest))
  {
    if s == [] {
      ScanQuotedClose(rest);
    } else {
      ScanQuotedEscape(s[1..], rest);
      ScanQuotedEscapeStep(s, rest);
    }
  }

  lemma ScanQuotedEscapeStep(s: string, rest: string)
    requires s != []
    requires ScanQuoted(Escape(s[1..]) + "'" + rest) == Some((s[1..], rest))
    ensures ScanQuoted(Escape(s) + "'" + rest) == Some((s, rest))
  {
    var head := if s[0] == '\'' then "''" else [s[0]];
    var tail := Escape(s[1..]) + "'" + rest;
    assert Escape(s) + "'" + rest == head + tail by {
      assert Escape(s) == head + Escape(s[1..]);
    }
    ScanQuotedCons(s[0], tail, s[1..], rest);
    assert [s[0]] + s[1..] == s;
  }

  lemma ScanQuotedClose(rest: string)
    requires rest == [] || rest[0] != '\''
    ensures ScanQuoted(Escape([]) + "'" + rest) == Some(([], rest))
  {
    var t := Escape([]) + "'" + rest;
    assert t == "'" + rest;
    assert t[1..] == rest;
  }

  /** One more escaped character in front of a scanned body adds that character to it. */
  lemma ScanQuotedCons(c: char, tail: string, s: string, rest: string)
    requires ScanQuoted(tail) == Some((s, rest))
    ensures ScanQuoted((if c == '\'' then "''" else [c]) + tail) == Some(([c] + s, rest))
  {
    if c == '\'' {
      var t := "''" + tail;
      assert t[0] == '\'' && t[1] == '\'' && t[2..] == tail;
    } else {
      var t := [c] + tail;
      assert t[1..] == tail;
    }
  }

  lemma {:induction false} DigitRunOf(d: string, rest: string)
    requires forall i :: 0 <= i < |d| ==> IsDigit(d[i])
    requires rest == [] || !IsDigit(rest[0])
    ensures DigitRun(d + rest) == |d|
  {
    if d != [] {
      DigitRunOf(d[1..], rest);
      assert (d + rest)[1..] == d[1..] + rest;
    } else {
      assert d + rest == rest;
    }
  }

  lemma ScanNat(n: nat, t: string, rest: string)
    requires t == NatToString(n) + rest
    requires rest == [] || rest[0] == ','
    ensures DigitRun(t) == |NatToString(n)| && t[..|NatToString(n)|] == NatToString(n)
    ensures t[|NatToString(n)|..] == rest && DigitsValue(NatToString(n)) == n
  {
    DigitRunOf(NatToString(n), rest);
    NatToStringValue(n);
  }

  lemma ScanKeyword(v: Value, rest: string)
    requires v.Null? || v.Bool?
    requires rest == [] || rest[0] == ','
    ensures ScanValue(Render(v) + rest) == Some((v, rest))
  {
    var t := Render(v) + rest;
    if v.Null? {
      assert t[..4] == "NULL" && t[4..] == rest;
    } else if v.b {
      assert t[..4] == "True" && t[4..] == rest;
    } else {
      assert t[..5] == "False" && t[5..] == rest;
      assert t[..4][0] == 'F' && t[..4][0] != "NULL"[0] && t[..4][0] != "True"[0];
    }
  }

  lemma ScanString(s: string, rest: string)
    requires rest == [] || rest[0] == ','
    ensures ScanValue(Render(Str(s)) + rest) == Some((Str(s), rest))
  {
    var t := Render(Str(s)) + rest;
    assert t[0] == '\'';
    assert |t| >= 4 ==> t[..4][0] != "NULL"[0] && t[..4][0] != "True"[0];
    assert |t| >= 5 ==> t[..5][0] != "False"[0];
    assert t[1..] == Escape(s) + "'" + rest;
    ScanQuotedEscape(s, rest);
  }

  lemma ScanInt(i: int, rest: string)
    requires rest == [] || rest[0] == ','
    ensures ScanValue(Render(Int(i)) + rest) == Some((Int(i), rest))
  {
    if i < 0 {
      ScanNegative(-i, rest);
    } else {
      ScanNonNegative(i, rest);
    }
  }

  lemma ScanNegative(n: nat, rest: string)
    requires n > 0
    requires rest == [] || rest[0] == ','
    ensures ScanValue(Render(Int(-(n as int))) + rest) == Some((Int(-(n as int)), rest))
  {
    var t := Render(Int(-(n as int))) + rest;
    var d := NatToString(n);
    assert t == "-" + d + rest;
    assert t[1..] == d + rest;
    ScanNat(n, t[1..], rest);
    assert t[1..][..|d|] == t[1..1 + |d|];
    ScanMinus(t);
  }

  /** Text starting with `-` and a digit scans as a negative integer. */
  lemma ScanMinus(t: string)
    requires t != [] && t[0] == '-' && DigitRun(t[1..]) > 0
    ensures var n := DigitRun(t[1..]);
            ScanValue(t) == Some((Int(-(DigitsValue(t[1..1 + n]) as int)), t[1 + n..]))
  {
    assert |t| >= 4 ==> t[..4][0] != "NULL"[0] && t[..4][0] != "True"[0];
    assert |t| >= 5 ==> t[..5][0] != "False"[0];
  }

  lemma ScanNonNegative(n: nat, rest: string)
    requires rest == [] || rest[0] == ','
    ensures ScanValue(Render(Int(n)) + rest) == Some((Int(n), rest))
  {
    var t := Render(Int(n)) + rest;
    assert IsDigit(t[0]);
    assert |t| >= 4 ==> t[..4][0] != "NULL"[0] && t[..4][0] != "True"[0];
    assert |t| >= 5 ==> t[..5][0] != "False"[0];
    ScanNat(n, t, rest);
  }

  /** One readable value is scanned back from the front of its own text. */
  lemma ScanRender(v: Value, rest: string)
    requires Readable(v)
    requires rest == [] || rest[0] == ','
    ensures ScanValue(Render(v) + rest) == Some((v, rest))
  {
    match v
    case Null => ScanKeyword(v, rest);
    case Bool(_) => ScanKeyword(v, rest);
    case Str(s) => ScanString(s, rest);
    case Int(i) => ScanInt(i, rest);
  }

  /**
   * A row of readable values is read back in full from the text between the
   * parentheses of its `INSERT`: the value list keeps every value, its kind
   * and its position.
   */
  lemma {:induction false} RowRoundTrip(row: Row)
    requires forall k :: 0 <= k < |row| ==> Readable(row[k])
    ensures ParseValues(RenderRow(row)) == Some(row)
  {
    if |row| == 1 {
      SingleRoundTrip(row[0]);
      assert [row[0]] == row;
    } else if |row| > 1 {
      RowRoundTrip(row[1..]);
      ConsRoundTrip(row[0], row[1..]);
      assert [row[0]] + row[1..] == row;
    }
  }

  lemma SingleRoundTrip(v: Value)
    requires Readable(v)
    ensures ParseValues(RenderRow([v])) == Some([v])
  {
    assert RenderRow([v]) == Render(v);
    assert Render(v) + [] == Render(v);
    ScanRender(v, []);
    RenderNonEmpty(v);
  }

  /** A readable value in front of a row that reads back reads back with it. */
  lemma ConsRoundTrip(v: Value, rest: Row)
    requires Readable(v) && rest != [] && Readable(rest[0])
    requires ParseValues(RenderRow(rest)) == Some(rest)
    ensures ParseValues(RenderRow([v] + rest)) == Some([v] + rest)
  {
    var tail := RenderRow(rest);
    var after := ", " + tail;
    RenderRowCons(v, rest);
    RenderNonEmpty(v);
    RenderRowNonEmpty(rest);
    assert ScanValue(Render(v) + after) == Some((v, after)) by {
      ScanRender(v, after);
    }
    assert ParseValueList(Render(v) + after) == PrependValue(v, ParseValueList(tail)) by {
      assert |after| >= 2 && after[..2] == ", " && after[2..] == tail;
    }
  }

  lemma RenderRowCons(v: Value, rest: Row)
    requires rest != []
    ensures RenderRow([v] + rest) == Render(v) + (", " + RenderRow(rest))
  {
    var row := [v] + rest;
    assert row[1..] == rest;
    assert RenderAll(row) == [Render(v)] + RenderAll(rest);
  }

  lemma RenderNonEmpty(v: Value)
    requires Readable(v)
    ensures Render(v) != []
  {
  }

  lemma RenderRowNonEmpty(row: Row)
    requires row != [] && Readable(row[0])
    ensures RenderRow(row) != []
  {
    if |row| > 1 {
      assert RenderRow(row) == Render(row[0]) + ", " + RenderRow(row[1..]);
    }
  }
}
