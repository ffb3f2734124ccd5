/**
 * A reader for the CSV dialect the export writes (section 2 of RFC 4180 with LF
 * line ends), and the header-keyed row objects a CSV parser hands to the import
 * handler. The reader states what the export promises: reading the document
 * back yields the header and then each product's fields, in order.
 */
module CsvRead {
  import opened Wrappers
  import opened Products
  import opened CsvExport

  /** A parsed data row: header name to cell text. */
  type Row = map<string, string>

  /** The rest of a quoted field after its opening quote: `""` is one quote, a lone `"` closes it. */
  function ParseQuoted(s: string, acc: string): (res: (string, string))
    ensures |res.1| <= |s|
    decreases |s|
  {
    if s == [] then (acc, [])
    else if s[0] == '"' then
      if |s| >= 2 && s[1] == '"' then ParseQuoted(s[2..], acc + ['"']) else (acc, s[1..])
    else ParseQuoted(s[1..], acc + [s[0]])
  }

  /** An unquoted field runs up to the next comma or LF. */
  function ParseUnquoted(s: string): (res: (string, string))
    ensures |res.1| <= |s|
    ensures s != [] && s[0] != ',' && s[0] != '\n' ==> |res.1| < |s|
  {
    if s == [] || s[0] == ',' || s[0] == '\n' then ([], s)
    else
      var (f, r) := ParseUnquoted(s[1..]);
      ([s[0]] + f, r)
  }

  /** One field and the text after it. */
  function ParseField(s: string): (res: (string, string))
    ensures |res.1| <= |s|
    ensures s != [] && s[0] != ',' && s[0] != '\n' ==> |res.1| < |s|
  {
    if s != [] && s[0] == '"' then ParseQuoted(s[1..], []) else ParseUnquoted(s)
  }

  /** The comma-separated fields of one record and the text after its LF. */
  function ParseRecord(s: string): (res: (seq<string>, string))
    ensures |res.1| <= |s|
    ensures s != [] ==> |res.1| < |s|
    decreases |s|
  {
    var (f, r) := ParseField(s);
    if r != [] && r[0] == ',' then
      var (fs, rest) := ParseRecord(r[1..]);
      ([f] + fs, rest)
    else if r != [] && r[0] == '\n' then ([f], r[1..])
    else ([f], r)
  }

  /** All records of a document. */
  function ParseDocument(s: string): seq<seq<string>>
    decreases |s|
  {
    if s == [] then []
    else
      var (rec, rest) := ParseRecord(s);
      [rec] + ParseDocument(rest)
  }

  function TextAll(vs: seq<Option<string>>): (ts: seq<string>)
    ensures |ts| == |vs|
    ensures forall i :: 0 <= i < |vs| ==> ts[i] == FieldText(vs[i])
  {
    if vs == [] then [] else [FieldText(vs[0])] + TextAll(vs[1..])
  }

  /** The field texts a product's line reads back as. */
  function Texts(p: Product): seq<string> {
    TextAll(Cells(p))
  }

  function AllTexts(ps: seq<Product>): (rs: seq<seq<string>>)
    ensures |rs| == |ps|
    ensures forall i :: 0 <= i < |ps| ==> rs[i] == Texts(ps[i])
  {
    if ps == [] then [] else [Texts(ps[0])] + AllTexts(ps[1..])
  }

  lemma {:induction false} ParseQuotedDoubled(s: string, acc: string, t: string)
    requires t == [] || t[0] != '"'
    ensures ParseQuoted(DoubleQuotes(s) + "\"" + t, acc) == (acc + s, t)
  {
    var u := DoubleQuotes(s) + "\"" + t;
    if s == [] {
      assert u == ['"'] + t && u[1..] == t;
      assert acc + s == acc;
    } else if s[0] == '"' {
      assert u == "\"\"" + (DoubleQuotes(s[1..]) + "\"" + t);
      ParseQuotedDoubled(s[1..], acc + ['"'], t);
      assert acc + ['"'] + s[1..] == acc + s;
    } else {
      assert u == [s[0]] + (DoubleQuotes(s[1..]) + "\"" + t);
      ParseQuotedDoubled(s[1..], acc + [s[0]], t);
      assert acc + [s[0]] + s[1..] == acc + s;
    }
  }

  lemma {:induction false} ParseUnquotedPlain(s: string, t: string)
    requires ',' !in s && '\n' !in s
    requires t == [] || t[0] == ',' || t[0] == '\n'
    ensures ParseUnquoted(s + t) == (s, t)
  {
    if s == [] {
      assert s + t == t;
    } else {
      assert (s + t)[1..] == s[1..] + t;
      ParseUnquotedPlain(s[1..], t);
      assert [s[0]] + s[1..] == s;
    }
  }

  /** An escaped field followed by a separator reads back as the field's text. */
  lemma ParseFieldEscaped(v: Option<string>, t: string)
    requires t == [] || t[0] == ',' || t[0] == '\n'
    ensures ParseField(EscapeCsv(v) + t) == (FieldText(v), t)
  {
    match v
    case None =>
      assert EscapeCsv(v) + t == t;
      ParseUnquotedPlain([], t);
    case Some(s) =>
      if NeedsQuoting(s) {
        var u := "\"" + DoubleQuotes(s) + "\"" + t;
        assert u[1..] == DoubleQuotes(s) + "\"" + t;
        ParseQuotedDoubled(s, [], t);
        assert [] + s == s;
      } else {
        ParseUnquotedPlain(s, t);
      }
  }

  /** A line written by `JoinComma(EscapeAll(vs))` and LF reads back as the texts of `vs`. */
  lemma {:induction false} ParseRecordOfLine(vs: seq<Option<string>>, t: string)
    requires |vs| >= 1
    ensures ParseRecord(JoinComma(EscapeAll(vs)) + "\n" + t) == (TextAll(vs), t)
  {
    var es := EscapeAll(vs);
    if |vs| == 1 {
      assert JoinComma(es) + "\n" + t == EscapeCsv(vs[0]) + ("\n" + t);
      ParseFieldEscaped(vs[0], "\n" + t);
      assert ("\n" + t)[1..] == t;
      assert TextAll(vs) == [FieldText(vs[0])];
    } else {
      var tail := JoinComma(EscapeAll(vs[1..])) + "\n" + t;
      assert es[1..] == EscapeAll(vs[1..]);
      assert JoinComma(es) + "\n" + t == EscapeCsv(vs[0]) + ("," + tail);
      ParseFieldEscaped(vs[0], "," + tail);
      assert ("," + tail)[1..] == tail;
      ParseRecordOfLine(vs[1..], t);
    }
  }

  lemma {:induction false} ParseLines(ps: seq<Product>)
    ensures ParseDocument(Lines(ps)) == AllTexts(ps)
  {
    if ps != [] {
      var rest := Lines(ps[1..]);
      ParseRecordOfLine(Cells(ps[0]), rest);
      assert Lines(ps) == JoinComma(EscapeAll(Cells(ps[0]))) + "\n" + rest;
      ParseLines(ps[1..]);
    }
  }

  /** Each of `names` as a present field. */
  function Present(names: seq<string>): (vs: seq<Option<string>>)
    ensures |vs| == |names|
    ensures forall i :: 0 <= i < |names| ==> vs[i] == Some(names[i])
  {
    seq(|names|, i requires 0 <= i < |names| => Some(names[i]))
  }

  /** Fields that need no quoting are written as they are and read back as they are. */
  lemma PlainFields(names: seq<string>)
    requires forall i :: 0 <= i < |names| ==> !NeedsQuoting(names[i])
    ensures EscapeAll(Present(names)) == names
    ensures TextAll(Present(names)) == names
  {
    var vs := Present(names);
    assert forall i :: 0 <= i < |names| ==> EscapeAll(vs)[i] == names[i] && TextAll(vs)[i] == names[i];
  }

  /** The header line is the column names as plain fields. */
  lemma HeaderIsLine()
    ensures EscapeAll(Present(Columns)) == Columns
    ensures TextAll(Present(Columns)) == Columns
  {
    forall i | 0 <= i < |Columns| ensures !NeedsQuoting(Columns[i]) {
      PlainColumn(i);
    }
    PlainFields(Columns);
  }

  /** Every column name is lower-case letters only, so it needs no quoting. */
  lemma PlainColumn(i: int)
    requires 0 <= i < |Columns|
    ensures !NeedsQuoting(Columns[i])
  {
    var c := Columns[i];
    forall k | 0 <= k < |c| ensures 'a' <= c[k] <= 'z' {
    }
  }

  /**
   * Reading the export back yields the header record and then exactly one
   * record per product, in store order, with the fields in column order.
   */
  lemma ExportRoundTrip(ps: seq<Product>)
    ensures ParseDocument(Document(ps)) == [Columns] + AllTexts(ps)
  {
    HeaderIsLine();
    ParseRecordOfLine(Present(Columns), Lines(ps));
    ParseLines(ps);
    var d := Document(ps);
    assert d != [];
  }

  /** The row object for `cells` under `header`; a later column of the same name wins. */
  function ZipRow(header: seq<string>, cells: seq<string>): Row {
    if header == [] || cells == [] then map[]
    else map[header[0] := cells[0]] + ZipRow(header[1..], cells[1..])
  }

  /** The rows a CSV parser emits for `records`: the first record names the columns. */
  function RowsOf(records: seq<seq<string>>): seq<Row> {
    if records == [] then [] else ZipAll(records[0], records[1..])
  }

  function ZipAll(header: seq<string>, recs: seq<seq<string>>): (rows: seq<Row>)
    ensures |rows| == |recs|
    ensures forall i :: 0 <= i < |recs| ==> rows[i] == ZipRow(header, recs[i])
  {
    if recs == [] then [] else [ZipRow(header, recs[0])] + ZipAll(header, recs[1..])
  }

  lemma {:induction false} ZipRowLookup(header: seq<string>, cells: seq<string>, i: int)
    requires |cells| == |header| && 0 <= i < |header|
    requires forall j :: i < j < |header| ==> header[j] != header[i]
    ensures header[i] in ZipRow(header, cells) && ZipRow(header, cells)[header[i]] == cells[i]
  {
    if i > 0 {
      ZipRowLookup(header[1..], cells[1..], i - 1);
    } else {
      ZipRowKeys(header[1..], cells[1..]);
    }
  }

  lemma {:induction false} ZipRowKeys(header: seq<string>, cells: seq<string>)
    requires |cells| == |header|
    ensures forall k :: k in ZipRow(header, cells) <==> k in header
  {
    if header != [] {
      ZipRowKeys(header[1..], cells[1..]);
      assert header == [header[0]] + header[1..];
    }
  }

  /** The row object the import handler receives for one product of an exported document. */
  function ExportedRow(p: Product): Row {
    ZipRow(Columns, Texts(p))
  }

  /** An exported row has exactly the export's columns. */
  lemma ExportedKeys(p: Product)
    ensures forall k :: k in ExportedRow(p) <==> k in Columns
  {
    ZipRowKeys(Columns, Texts(p));
  }

  /** Column `i` of an exported row holds the text of the product's `i`-th field. */
  lemma ExportedCell(p: Product, i: int)
    requires 0 <= i < |Columns|
    ensures Columns[i] in ExportedRow(p) && ExportedRow(p)[Columns[i]] == FieldText(Cells(p)[i])
  {
    forall j | i < j < |Columns| ensures Columns[j] != Columns[i] {
      PlainColumn(i);
      PlainColumn(j);
    }
    ZipRowLookup(Columns, Texts(p), i);
  }

  /** The rows an exported document yields are the exported rows of its products, in order. */
  lemma ExportRows(ps: seq<Product>)
    ensures RowsOf(ParseDocument(Document(ps))) == seq(|ps|, i requires 0 <= i < |ps| => ExportedRow(ps[i]))
  {
    ExportRoundTrip(ps);
    var recs := [Columns] + AllTexts(ps);
    assert recs[1..] == AllTexts(ps);
  }
}
