/**
 * The CSV encoding of the export: fields joined with `;`, every row ended
 * by CRLF, a field wrapped in double quotes when it holds `;`, `"` or a line
 * feed, and every `"` inside a field doubled. A reader for that encoding is
 * given alongside, and reading back what was written gives the rows again.
 */
module Csv {
  import opened Wrappers

  /** `str_replace('"', '""', $field)`. */
  function DoubleQuotes(f: string): string {
    if f == [] then []
    else (if f[0] == '"' then "\"\"" else [f[0]]) + DoubleQuotes(f[1..])
  }

  /** Doubling quotes adds and removes no `;`, `"` or line feed, and changes nothing without a `"`. */
  lemma {:induction false} DoubleQuotesKeeps(f: string)
    ensures ('"' in DoubleQuotes(f)) <==> ('"' in f)
    ensures (';' in DoubleQuotes(f)) <==> (';' in f)
    ensures ('\n' in DoubleQuotes(f)) <==> ('\n' in f)
    ensures '"' !in f ==> DoubleQuotes(f) == f
  {
    if f != [] {
      DoubleQuotesKeeps(f[1..]);
      var head := if f[0] == '"' then "\"\"" else [f[0]];
      assert DoubleQuotes(f) == head + DoubleQuotes(f[1..]);
      assert f == [f[0]] + f[1..];
      assert forall c :: c in DoubleQuotes(f) <==> c in head || c in DoubleQuotes(f[1..]);
      assert forall c :: c in f <==> c == f[0] || c in f[1..];
    }
  }

  /** The characters that make a field quoted. */
  predicate NeedsQuotes(f: string) {
    ';' in f || '"' in f || '\n' in f
  }

  /**
   * The escaping closure of the export: quotes are doubled first, then the
   * field is wrapped in quotes if it holds `;`, `"` or a line feed. A field
   * without those characters is emitted unchanged.
   */
  function EscapeField(f: string): (r: string)
    ensures !NeedsQuotes(f) ==> r == f
    ensures NeedsQuotes(f) ==> r == "\"" + DoubleQuotes(f) + "\""
  {
    DoubleQuotesKeeps(f);
    var d := DoubleQuotes(f);
    if ';' in d || '"' in d || '\n' in d then "\"" + d + "\"" else d
  }

  /** Halves every `""` back to `"`. */
  function HalveQuotes(s: string): string {
    if |s| >= 2 && s[0] == '"' && s[1] == '"' then "\"" + HalveQuotes(s[2..])
    else if s == [] then []
    else [s[0]] + HalveQuotes(s[1..])
  }

  /** Strips the surrounding quotes of a quoted field and halves its inner quotes. */
  function UnescapeField(e: string): string {
    if |e| >= 2 && e[0] == '"' && e[|e| - 1] == '"' then HalveQuotes(e[1..|e| - 1]) else e
  }

  lemma {:induction false} HalveDoubled(f: string)
    ensures HalveQuotes(DoubleQuotes(f)) == f
  {
    if f != [] {
      HalveDoubled(f[1..]);
      var rest := DoubleQuotes(f[1..]);
      if f[0] == '"' {
        assert DoubleQuotes(f) == "\"\"" + rest;
        assert ("\"\"" + rest)[2..] == rest;
      } else {
        assert DoubleQuotes(f) == [f[0]] + rest;
        assert ([f[0]] + rest)[1..] == rest;
      }
    }
  }

  /** Stripping the quotes and halving `""` recovers the original field. */
  lemma FieldRoundTrip(f: string)
    ensures UnescapeField(EscapeField(f)) == f
  {
    if NeedsQuotes(f) {
      var e := EscapeField(f);
      assert e[1..|e| - 1] == DoubleQuotes(f);
      HalveDoubled(f);
    }
  }

  /** `array_map` of the escaping closure over a row. */
  function EscapeAll(fields: seq<string>): (r: seq<string>)
    ensures |r| == |fields|
  {
    if fields == [] then [] else [EscapeField(fields[0])] + EscapeAll(fields[1..])
  }

  /** `implode(';', $fields)`. */
  function Join(fields: seq<string>): string {
    if fields == [] then ""
    else if |fields| == 1 then fields[0]
    else fields[0] + ";" + Join(fields[1..])
  }

  /** One line of the export: the escaped fields joined with `;`, then CRLF. */
  function EncodeRow(fields: seq<string>): string {
    Join(EscapeAll(fields)) + "\r\n"
  }

  /** The whole export: the rows one after the other. */
  function Document(rows: seq<seq<string>>): string {
    if rows == [] then "" else EncodeRow(rows[0]) + Document(rows[1..])
  }

  lemma {:induction false} DocumentAppend(rows: seq<seq<string>>, row: seq<string>)
    ensures Document(rows + [row]) == Document(rows) + EncodeRow(row)
  {
    if rows == [] {
      assert rows + [row] == [row];
      assert Document([row]) == EncodeRow(row) + Document([]);
    } else {
      assert (rows + [row])[1..] == rows[1..] + [row];
      DocumentAppend(rows[1..], row);
    }
  }

  /** Encoding the first `j + 1` rows adds row `j` to the encoding of the first `j`. */
  lemma DocumentPrefix(rows: seq<seq<string>>, j: nat)
    requires j < |rows|
    ensures Document(rows[..j + 1]) == Document(rows[..j]) + EncodeRow(rows[j])
  {
    assert rows[..j + 1] == rows[..j] + [rows[j]];
    DocumentAppend(rows[..j], rows[j]);
  }

  /** The encoding loop of the export: each row's line is appended in turn. */
  method EncodeDocument(rows: seq<seq<string>>) returns (text: string)
    ensures text == Document(rows)
  {
    text := "";
    for j := 0 to |rows|
      invariant text == Document(rows[..j])
    {
      DocumentPrefix(rows, j);
      text := text + EncodeRow(rows[j]);
    }
    assert rows[..|rows|] == rows;
  }

  // ----------------------------------------------------------------- reader

  /** What may follow a field: the delimiter or the end of the row. */
  predicate AtBoundary(t: string) {
    (|t| >= 1 && t[0] == ';') || (|t| >= 2 && t[0] == '\r' && t[1] == '\n')
  }

  /** An unquoted field runs up to the next `;` or CRLF. */
  function ReadBare(s: string): (r: (string, string))
    ensures |r.1| <= |s|
  {
    if s == [] || s[0] == ';' || (|s| >= 2 && s[0] == '\r' && s[1] == '\n') then ("", s)
    else
      var (f, rest) := ReadBare(s[1..]);
      ([s[0]] + f, rest)
  }

  /** The inside of a quoted field, after its opening quote, through its closing quote. */
  function ReadQuoted(s: string): (r: Option<(string, string)>)
    ensures r.Some? ==> |r.value.1| < |s|
  {
    if s == [] then None
    else if s[0] == '"' && |s| >= 2 && s[1] == '"' then
      match ReadQuoted(s[2..])
      case None => None
      case Some((f, rest)) => Some(("\"" + f, rest))
    else if s[0] == '"' then Some(("", s[1..]))
    else
      match ReadQuoted(s[1..])
      case None => None
      case Some((f, rest)) => Some(([s[0]] + f, rest))
  }

  function ReadField(s: string): (r: Option<(string, string)>)
    ensures r.Some? ==> |r.value.1| <= |s|
  {
    if s != [] && s[0] == '"' then ReadQuoted(s[1..]) else Some(ReadBare(s))
  }

  /** The fields of one row, through its CRLF. */
  function ReadRow(s: string): (r: Option<(seq<string>, string)>)
    ensures r.Some? ==> |r.value.1| < |s|
    decreases |s|
  {
    match ReadField(s)
    case None => None
    case Some((f, rest)) =>
      if |rest| >= 1 && rest[0] == ';' then
        match ReadRow(rest[1..])
        case None => None
        case Some((fs, tail)) => Some(([f] + fs, tail))
      else if |rest| >= 2 && rest[0] == '\r' && rest[1] == '\n' then Some(([f], rest[2..]))
      else None
  }

  /** Reads a whole export back into its rows. */
  function Decode(s: string): Option<seq<seq<string>>>
    decreases |s|
  {
    if s == [] then Some([])
    else
      match ReadRow(s)
      case None => None
      case Some((row, rest)) =>
        match Decode(rest)
        case None => None
        case Some(rows) => Some([row] + rows)
  }

  lemma {:induction false} ReadBareUnquoted(f: string, t: string)
    requires !NeedsQuotes(f) && AtBoundary(t)
    ensures ReadBare(f + t) == (f, t)
  {
    if f == [] {
      assert f + t == t;
    } else {
      var s := f + t;
      assert s[0] == f[0] && f[0] in f;
      if |f| >= 2 {
        assert s[1] == f[1] && f[1] in f;
      } else {
        assert s[1] == t[0];
      }
      assert f[1..] + t == s[1..];
      assert !NeedsQuotes(f[1..]) by {
        assert forall c :: c in f[1..] ==> c in f;
      }
      ReadBareUnquoted(f[1..], t);
      assert [f[0]] + f[1..] == f;
    }
  }

  lemma {:induction false} ReadQuotedDoubled(f: string, t: string)
    requires t == [] || t[0] != '"'
    ensures ReadQuoted(DoubleQuotes(f) + "\"" + t) == Some((f, t))
  {
    var s := DoubleQuotes(f) + "\"" + t;
    if f == [] {
      assert s == "\"" + t;
      assert s[1..] == t;
    } else {
      var rest := DoubleQuotes(f[1..]) + "\"" + t;
      ReadQuotedDoubled(f[1..], t);
      if f[0] == '"' {
        assert s == "\"\"" + rest;
        assert s[2..] == rest;
        assert "\"" + f[1..] == f;
      } else {
        assert s == [f[0]] + rest;
        assert s[0] == f[0] && s[1..] == rest;
        assert [f[0]] + f[1..] == f;
      }
    }
  }

  lemma ReadFieldOpensQuote(s: string)
    requires s != [] && s[0] == '"'
    ensures ReadField(s) == ReadQuoted(s[1..])
  {
  }

  lemma ReadFieldEscaped(f: string, t: string)
    requires AtBoundary(t)
    ensures ReadField(EscapeField(f) + t) == Some((f, t))
  {
    if NeedsQuotes(f) {
      ReadFieldQuoted(f, t);
    } else {
      ReadFieldBare(f, t);
    }
  }

  lemma ReadFieldQuoted(f: string, t: string)
    requires AtBoundary(t) && NeedsQuotes(f)
    ensures ReadField(EscapeField(f) + t) == Some((f, t))
  {
    var inner := DoubleQuotes(f) + "\"" + t;
    var s := "\"" + inner;
    assert EscapeField(f) + t == s;
    assert s[1..] == inner;
    ReadFieldOpensQuote(s);
    ReadQuotedDoubled(f, t);
  }

  lemma ReadFieldBare(f: string, t: string)
    requires AtBoundary(t) && !NeedsQuotes(f)
    ensures ReadField(EscapeField(f) + t) == Some((f, t))
  {
    ReadBareUnquoted(f, t);
    if f == [] {
      assert f + t == t;
    } else {
      assert (f + t)[0] == f[0] && f[0] in f;
    }
  }

  lemma ReadRowDelimited(s: string, f: string, rest: string)
    requires ReadField(s) == Some((f, rest)) && |rest| >= 1 && rest[0] == ';'
    requires ReadRow(rest[1..]).Some?
    ensures ReadRow(s) == Some(([f] + ReadRow(rest[1..]).value.0, ReadRow(rest[1..]).value.1))
  {
  }

  lemma ReadRowEnded(s: string, f: string, rest: string)
    requires ReadField(s) == Some((f, rest)) && |rest| >= 2 && rest[0] == '\r' && rest[1] == '\n'
    ensures ReadRow(s) == Some(([f], rest[2..]))
  {
  }

  lemma ReadRowSingle(fields: seq<string>, t: string)
    requires |fields| == 1
    ensures ReadRow(EncodeRow(fields) + t) == Some((fields, t))
  {
    var e0 := EscapeField(fields[0]);
    assert EscapeAll(fields) == [e0];
    assert Join([e0]) == e0;
    var s := e0 + ("\r\n" + t);
    assert EncodeRow(fields) + t == s;
    ReadFieldEscaped(fields[0], "\r\n" + t);
    ReadRowEnded(s, fields[0], "\r\n" + t);
    assert ("\r\n" + t)[2..] == t;
    assert [fields[0]] == fields;
  }

  lemma ReadRowCons(fields: seq<string>, t: string)
    requires |fields| >= 2
    requires ReadRow(EncodeRow(fields[1..]) + t) == Some((fields[1..], t))
    ensures ReadRow(EncodeRow(fields) + t) == Some((fields, t))
  {
    var e0 := EscapeField(fields[0]);
    var rest := EscapeAll(fields[1..]);
    assert EscapeAll(fields) == [e0] + rest;
    assert Join([e0] + rest) == e0 + ";" + Join(rest);
    var tail := EncodeRow(fields[1..]) + t;
    assert tail == Join(rest) + "\r\n" + t;
    var s := e0 + (";" + tail);
    assert EncodeRow(fields) + t == s;
    ReadFieldEscaped(fields[0], ";" + tail);
    assert (";" + tail)[1..] == tail;
    ReadRowDelimited(s, fields[0], ";" + tail);
    assert [fields[0]] + fields[1..] == fields;
  }

  /** One encoded row, followed by anything, reads back as its fields and leaves what follows. */
  lemma {:induction false} ReadRowEncoded(fields: seq<string>, t: string)
    requires |fields| >= 1
    ensures ReadRow(EncodeRow(fields) + t) == Some((fields, t))
  {
    if |fields| == 1 {
      ReadRowSingle(fields, t);
    } else {
      ReadRowEncoded(fields[1..], t);
      ReadRowCons(fields, t);
    }
  }

  /** Reading the export back gives exactly the rows that were written. */
  lemma {:induction false} DecodeDocument(rows: seq<seq<string>>)
    requires forall i :: 0 <= i < |rows| ==> |rows[i]| >= 1
    ensures Decode(Document(rows)) == Some(rows)
  {
    if rows != [] {
      var rest := Document(rows[1..]);
      ReadRowEncoded(rows[0], rest);
      assert EncodeRow(rows[0]) != [];
      DecodeDocument(rows[1..]);
      assert [rows[0]] + rows[1..] == rows;
    }
  }
}
