/** The text of `dns_log.csv`: the header line, then one comma-separated
    line per logged query. A reader of the file splits each line into fields
    at the commas outside double quotes, with `""` standing for a quote
    inside a quoted field (RFC 4180, section 2). The line the resolver writes
    joins the fields without quoting any of them, so a field holding a comma
    reads back as two (`AsWrittenLineSplitsDomain`). `RowLine` quotes the
    fields that need it, and every row then reads back as its ten fields
    (`ReadRowLine`, `ReadLog`). */
module CsvLog {
  import opened PyBuiltins
  import opened PartDResolver

  /** The header line's text, without its line break: the column names
      joined by commas. */
  const Header: string := Join(CsvColumns, ",")

  /** How a time is printed (`f"{x:.4f}"`). */
  type Formatter = real -> string

  /** Text that needs no quoting: no comma, quote or line break. */
  predicate Plain(s: string)
  {
    forall i :: 0 <= i < |s| ==> s[i] != ',' && s[i] != '"' && s[i] != '\n' && s[i] != '\r'
  }

  /** `str(n)` for a natural number. */
  function NatText(n: nat): (r: string)
    ensures r != []
  {
    if n < 10 then [Digit(n)] else NatText(n / 10) + [Digit(n % 10)]
  }

  function Digit(d: nat): char
    requires d < 10
  {
    "0123456789"[d]
  }

  /** The ten fields of a row, in the order of the header. */
  function Fields(row: LogRow, format: Formatter): (r: seq<string>)
    ensures |r| == |CsvColumns|
  {
    [row.timestamp, row.domain, row.mode, row.serverIp, row.step, row.response,
     format(row.rttMs), format(row.totalTimeMs), row.cacheStatus, NatText(row.serversVisited)]
  }

  /** The line the resolver appends: the fields joined by commas, unquoted.
      It agrees with the quoted `RowLine` as long as no field holds a comma,
      a quote or a line break. */
  function RowLineAsWritten(row: LogRow, format: Formatter): (r: string)
    ensures (forall k :: 0 <= k < |CsvColumns| ==> Plain(Fields(row, format)[k])) ==> r == RowLine(row, format)
  {
    QuoteAllOfPlain(Fields(row, format));
    Join(Fields(row, format), ",") + "\n"
  }

  /** Fields that need no quoting are left as they are. */
  lemma QuoteAllOfPlain(fields: seq<string>)
    ensures (forall k :: 0 <= k < |fields| ==> Plain(fields[k])) ==> QuoteAll(fields) == fields
  {
    if forall k :: 0 <= k < |fields| ==> Plain(fields[k]) {
      forall k | 0 <= k < |fields|
        ensures Quote(fields[k]) == fields[k]
      {
      }
      QuoteAllPlain(fields);
    }
  }

  /** A field as RFC 4180 writes it: plain text as it is, anything else
      between quotes with its quotes doubled. */
  function Quote(field: string): string
  {
    if Plain(field) then field else "\"" + Escape(field) + "\""
  }

  function Escape(field: string): string
  {
    if field == [] then []
    else (if field[0] == '"' then "\"\"" else [field[0]]) + Escape(field[1..])
  }

  function QuoteAll(fields: seq<string>): (r: seq<string>)
    ensures |r| == |fields|
  {
    if fields == [] then [] else [Quote(fields[0])] + QuoteAll(fields[1..])
  }

  /** The line the log should receive: every field quoted where needed. */
  function RowLine(row: LogRow, format: Formatter): string
  {
    Join(QuoteAll(Fields(row, format)), ",") + "\n"
  }

  /** The file as it should be for a sequence of rows: the header line, then
      one corrected (`RowLine`) line per row. The file the resolver writes
      has `RowLineAsWritten` lines instead. */
  function LogText(rows: seq<LogRow>, format: Formatter): string
  {
    Header + "\n" + Lines(rows, format)
  }

  function Lines(rows: seq<LogRow>, format: Formatter): string
  {
    if rows == [] then "" else RowLine(rows[0], format) + Lines(rows[1..], format)
  }

  /** A field read off the front of a text, and the text after it. */
  datatype Cut = Cut(field: string, rest: string)

  /** An unquoted field: everything up to the next comma or line break. */
  function ReadPlain(s: string): (r: Cut)
    ensures |r.rest| <= |s|
    ensures r.rest == [] || r.rest[0] == ',' || r.rest[0] == '\n'
  {
    if s == [] || s[0] == ',' || s[0] == '\n' then Cut("", s)
    else
      var c := ReadPlain(s[1..]);
      Cut([s[0]] + c.field, c.rest)
  }

  /** A quoted field after its opening quote: up to the closing quote, with
      `""` read as one quote. */
  function ReadQuoted(s: string): (r: Cut)
    ensures |r.rest| <= |s|
  {
    if s == [] then Cut("", [])
    else if s[0] == '"' then
      if |s| > 1 && s[1] == '"' then
        var c := ReadQuoted(s[2..]);
        Cut("\"" + c.field, c.rest)
      else Cut("", s[1..])
    else
      var c := ReadQuoted(s[1..]);
      Cut([s[0]] + c.field, c.rest)
  }

  function ReadField(s: string): (r: Cut)
    ensures |r.rest| <= |s|
    ensures s != [] && s[0] == '"' ==> |r.rest| < |s|
    ensures r.rest != [] && r.rest[0] != ',' && r.rest[0] != '\n' ==> |r.rest| < |s|
  {
    if s != [] && s[0] == '"' then ReadQuoted(s[1..]) else ReadPlain(s)
  }

  /** The fields of one record, and the text after its line break. */
  datatype Record = Record(fields: seq<string>, rest: string)

  function ReadFields(s: string): (r: Record)
    decreases |s|
    ensures |r.rest| <= |s|
    ensures s != [] ==> |r.rest| < |s|
  {
    var c := ReadField(s);
    if c.rest != [] && c.rest[0] == ',' then
      var more := ReadFields(c.rest[1..]);
      Record([c.field] + more.fields, more.rest)
    else if c.rest != [] && c.rest[0] == '\n' then Record([c.field], c.rest[1..])
    else Record([c.field], c.rest)
  }

  /** Every record of a text, in order. */
  function ReadAll(s: string): seq<seq<string>>
    decreases |s|
  {
    if s == [] then [] else var r := ReadFields(s); [r.fields] + ReadAll(r.rest)
  }

  /** Plain text is read back as it is, up to the separator after it. */
  lemma {:induction false} ReadPlainOf(field: string, tail: string)
    requires Plain(field)
    requires tail == [] || tail[0] == ',' || tail[0] == '\n'
    ensures ReadPlain(field + tail) == Cut(field, tail)
  {
    if field != [] {
      assert (field + tail)[1..] == field[1..] + tail;
      ReadPlainOf(field[1..], tail);
      HeadTail(field);
    } else {
      assert field + tail == tail;
    }
  }

  /** An escaped field and its closing quote are read back as the field. */
  lemma {:induction false} ReadQuotedOf(field: string, tail: string)
    requires tail == [] || tail[0] != '"'
    ensures ReadQuoted(Escape(field) + "\"" + tail) == Cut(field, tail)
  {
    var s := Escape(field) + "\"" + tail;
    if field == [] {
      assert s == "\"" + tail;
    } else {
      var rest := Escape(field[1..]) + "\"" + tail;
      ReadQuotedOf(field[1..], tail);
      HeadTail(field);
      if field[0] == '"' {
        assert s == "\"\"" + rest;
        assert s[2..] == rest;
      } else {
        assert s == [field[0]] + rest;
        assert s[1..] == rest;
      }
    }
  }

  /** Whatever a field holds, its quoted form is read back as the field. */
  lemma ReadFieldOf(field: string, tail: string)
    requires tail == [] || tail[0] == ',' || tail[0] == '\n'
    ensures ReadField(Quote(field) + tail) == Cut(field, tail)
  {
    if Plain(field) {
      ReadPlainField(field, tail);
    } else {
      ReadQuotedField(field, tail);
    }
  }

  lemma ReadPlainField(field: string, tail: string)
    requires Plain(field)
    requires tail == [] || tail[0] == ',' || tail[0] == '\n'
    ensures ReadField(field + tail) == Cut(field, tail)
  {
    ReadPlainOf(field, tail);
    if field == [] {
      assert field + tail == tail;
    } else {
      assert (field + tail)[0] == field[0] != '"';
    }
  }

  lemma ReadQuotedField(field: string, tail: string)
    requires tail == [] || tail[0] == ',' || tail[0] == '\n'
    ensures ReadField("\"" + Escape(field) + "\"" + tail) == Cut(field, tail)
  {
    var inner := Escape(field) + "\"" + tail;
    var s := "\"" + Escape(field) + "\"" + tail;
    assert s == "\"" + inner;
    assert s[0] == '"' && s[1..] == inner;
    ReadQuotedOf(field, tail);
  }

  /** A line of quoted fields is read back as those fields, whatever they hold. */
  lemma {:induction false} ReadFieldsOf(fields: seq<string>, rest: string)
    requires fields != []
    ensures ReadFields(Join(QuoteAll(fields), ",") + "\n" + rest) == Record(fields, rest)
  {
    var q := QuoteAll(fields);
    assert q[0] == Quote(fields[0]);
    if |fields| == 1 {
      assert Join(q, ",") + "\n" + rest == Quote(fields[0]) + ("\n" + rest);
      ReadFieldOf(fields[0], "\n" + rest);
      assert [fields[0]] == fields;
    } else {
      assert q[1..] == QuoteAll(fields[1..]);
      var others := Join(QuoteAll(fields[1..]), ",") + "\n" + rest;
      assert Join(q, ",") + "\n" + rest == Quote(fields[0]) + ("," + others);
      ReadFieldOf(fields[0], "," + others);
      assert ("," + others)[1..] == others;
      ReadFieldsOf(fields[1..], rest);
      HeadTail(fields);
    }
  }

  /** A row written by `RowLine` reads back as its ten fields, in header order. */
  lemma ReadRowLine(row: LogRow, format: Formatter, rest: string)
    ensures ReadFields(RowLine(row, format) + rest) == Record(Fields(row, format), rest)
  {
    ReadFieldsOf(Fields(row, format), rest);
  }

  function FieldsOfRows(rows: seq<LogRow>, format: Formatter): seq<seq<string>>
  {
    if rows == [] then [] else [Fields(rows[0], format)] + FieldsOfRows(rows[1..], format)
  }

  /** The lines of the rows read back as one record per row, in order. */
  lemma {:induction false} ReadLines(rows: seq<LogRow>, format: Formatter)
    ensures ReadAll(Lines(rows, format)) == FieldsOfRows(rows, format)
  {
    if rows != [] {
      var later := Lines(rows[1..], format);
      ReadRowLine(rows[0], format, later);
      assert RowLine(rows[0], format) != [];
      ReadLines(rows[1..], format);
    }
  }

  /** The header line reads back as the ten column names. */
  lemma ReadHeader(rest: string)
    ensures ReadFields(Header + "\n" + rest) == Record(CsvColumns, rest)
  {
    var c := CsvColumns;
    forall k | 0 <= k < |c|
      ensures Quote(c[k]) == c[k]
    {
      assert Plain(c[k]);
    }
    QuoteAllPlain(c);
    ReadFieldsOf(c, rest);
  }

  lemma {:induction false} QuoteAllPlain(fields: seq<string>)
    requires forall k :: 0 <= k < |fields| ==> Quote(fields[k]) == fields[k]
    ensures QuoteAll(fields) == fields
  {
    if fields != [] {
      QuoteAllPlain(fields[1..]);
      HeadTail(fields);
    }
  }

  /** The whole log reads back as the header's column names, then each
      row's ten fields, one record per row, in order. */
  lemma ReadLog(rows: seq<LogRow>, format: Formatter)
    ensures ReadAll(LogText(rows, format)) == [CsvColumns] + FieldsOfRows(rows, format)
  {
    var lines := Lines(rows, format);
    assert LogText(rows, format) == Header + "\n" + lines;
    ReadHeader(lines);
    ReadLines(rows, format);
  }

  /** The line as written: when the domain holds a comma and the other fields
      are plain, the line reads back as eleven fields, the domain split in
      two, and no longer matches the ten columns of the header. */
  lemma AsWrittenLineSplitsDomain(row: LogRow, format: Formatter, left: string, right: string, rest: string)
    requires row.domain == left + "," + right
    requires Plain(left) && Plain(right)
    requires forall k :: 0 <= k < |CsvColumns| && k != 1 ==> Plain(Fields(row, format)[k])
    ensures ReadFields(RowLineAsWritten(row, format) + rest).fields
         == [row.timestamp, left, right] + Fields(row, format)[2..]
    ensures |ReadFields(RowLineAsWritten(row, format) + rest).fields| == |CsvColumns| + 1
  {
    var f := Fields(row, format);
    var split := [row.timestamp, left, right] + f[2..];
    JoinSplitsSecond(f, left, right);
    forall k | 0 <= k < |split|
      ensures Quote(split[k]) == split[k]
    {
      if k >= 3 {
        assert split[k] == f[k - 1];
      }
    }
    QuoteAllPlain(split);
    ReadFieldsOf(split, rest);
  }

  /** Joining with a comma cannot tell a comma inside the second field from
      the separator after it. */
  lemma JoinSplitsSecond(f: seq<string>, left: string, right: string)
    requires |f| >= 3 && f[1] == left + "," + right
    ensures Join(f, ",") == Join([f[0], left, right] + f[2..], ",")
  {
    var split := [f[0], left, right] + f[2..];
    assert f[1..][1..] == f[2..];
    assert split[1..][1..] == [right] + f[2..];
    assert ([right] + f[2..])[1..] == f[2..];
    assert Join(f[1..], ",") == f[1] + "," + Join(f[2..], ",");
    assert Join(split[1..], ",") == left + "," + (right + "," + Join(f[2..], ","));
  }
}
