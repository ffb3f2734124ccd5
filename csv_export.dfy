/**
 * The export document: a fixed header line, then one line per product with the
 * eight columns in a fixed order, each field escaped as in section 2 (rules 6
 * and 7) of RFC 4180 and every line ended by LF.
 */
module CsvExport {
  import opened Wrappers
  import opened JsText
  import opened Products

  /** The column order of the header and of every line. */
  const Columns: seq<string> := ["id", "name", "unit", "category", "brand", "stock", "status", "image"]

  /** A field must be quoted when it holds a double quote, a comma, LF or CR. */
  predicate NeedsQuoting(s: string) {
    '"' in s || ',' in s || '\n' in s || '\r' in s
  }

  /** `s` with every double quote written twice (`s.replace(/"/g, '""')`). */
  function DoubleQuotes(s: string): (r: string)
    ensures |r| >= |s|
    ensures '"' !in s ==> r == s
  {
    if s == [] then []
    else (if s[0] == '"' then "\"\"" else [s[0]]) + DoubleQuotes(s[1..])
  }

  /**
   * `escapeCsv`: NULL as the empty field, a value free of quotes, commas and
   * line breaks as it is, any other value enclosed in quotes.
   */
  function EscapeCsv(v: Option<string>): (r: string)
    ensures v.None? ==> r == ""
    ensures !NeedsQuoting(FieldText(v)) ==> r == FieldText(v)
    ensures NeedsQuoting(FieldText(v)) ==>
      && |r| >= |FieldText(v)| + 2
      && r[0] == '"' && r[|r| - 1] == '"' && r[1..|r| - 1] == DoubleQuotes(FieldText(v))
  {
    match v
    case None => ""
    case Some(s) => if NeedsQuoting(s) then "\"" + DoubleQuotes(s) + "\"" else s
  }

  /** Doubling works character by character, so it distributes over concatenation. */
  lemma {:induction false} DoubleQuotesAppend(a: string, b: string)
    ensures DoubleQuotes(a + b) == DoubleQuotes(a) + DoubleQuotes(b)
  {
    if a == [] {
      assert a + b == b;
    } else {
      assert (a + b)[0] == a[0];
      assert (a + b)[1..] == a[1..] + b;
      DoubleQuotesAppend(a[1..], b);
    }
  }

  /** The name `Widget, "Pro"` is written as `"Widget, ""Pro"""`. */
  lemma QuotedWidget()
    ensures EscapeCsv(Some("Widget, " + "\"" + "Pro" + "\""))
      == "\"" + ("Widget, " + "\"\"" + "Pro" + "\"\"") + "\""
  {
    var w := "Widget, " + "\"" + "Pro" + "\"";
    assert NeedsQuoting(w) by {
      assert w[6] == ',';
    }
    WidgetDoubled();
  }

  /** Its inner quotes are doubled and nothing else changes. */
  lemma WidgetDoubled()
    ensures DoubleQuotes("Widget, " + "\"" + "Pro" + "\"") == "Widget, " + "\"\"" + "Pro" + "\"\""
  {
    var a, q, b := "Widget, ", "\"", "Pro";
    assert DoubleQuotes(a) == a by {
      assert '"' !in a;
    }
    assert DoubleQuotes(b) == b by {
      assert '"' !in b;
    }
    assert DoubleQuotes(q) == "\"\"";
    DoubleQuotesAppend(a, q);
    DoubleQuotesAppend(a + q, b);
    DoubleQuotesAppend(a + q + b, q);
  }

  /** The text a field stands for once read back: NULL and the empty string both read as "". */
  function FieldText(v: Option<string>): string {
    v.GetOr("")
  }

  /** The inverse of `DoubleQuotes`: every `""` pair becomes one `"`. */
  function UndoubleQuotes(s: string): string {
    if s == [] then []
    else if |s| >= 2 && s[0] == '"' && s[1] == '"' then ['"'] + UndoubleQuotes(s[2..])
    else [s[0]] + UndoubleQuotes(s[1..])
  }

  /** Strip the outer quotes of a quoted field and undo the doubling of the inner ones. */
  function UnescapeCsv(t: string): string {
    if |t| >= 2 && t[0] == '"' && t[|t| - 1] == '"' then UndoubleQuotes(t[1..|t| - 1]) else t
  }

  lemma {:induction false} UndoubleDoubled(s: string)
    ensures UndoubleQuotes(DoubleQuotes(s)) == s
  {
    if s != [] {
      UndoubleDoubled(s[1..]);
      if s[0] == '"' {
        assert DoubleQuotes(s) == "\"\"" + DoubleQuotes(s[1..]);
        assert DoubleQuotes(s)[2..] == DoubleQuotes(s[1..]);
      } else {
        assert DoubleQuotes(s) == [s[0]] + DoubleQuotes(s[1..]);
        assert DoubleQuotes(s)[1..] == DoubleQuotes(s[1..]);
      }
    }
  }

  /**
   * Escaping loses nothing but the difference between NULL and "": stripping the
   * quotes and un-doubling recovers the value.
   */
  lemma EscapeRoundTrip(v: Option<string>)
    ensures UnescapeCsv(EscapeCsv(v)) == FieldText(v)
  {
    if v.Some? && NeedsQuoting(v.value) {
      var d := DoubleQuotes(v.value);
      assert ("\"" + d + "\"")[1..|d| + 1] == d;
      UndoubleDoubled(v.value);
    }
  }

  /** `fields.join(',')` */
  function JoinComma(fs: seq<string>): string {
    if fs == [] then ""
    else if |fs| == 1 then fs[0]
    else fs[0] + "," + JoinComma(fs[1..])
  }

  /** The eight fields of a product in column order: `row[f]` for each `f` in `Columns`. */
  function Cells(p: Product): (cs: seq<Option<string>>)
    ensures |cs| == |Columns|
  {
    [Some(IntToString(p.id)), Some(p.name), p.unit, p.category, p.brand,
     Some(IntToString(p.stock)), p.status, p.image]
  }

  function EscapeAll(vs: seq<Option<string>>): (ts: seq<string>)
    ensures |ts| == |vs|
    ensures forall i :: 0 <= i < |vs| ==> ts[i] == EscapeCsv(vs[i])
  {
    if vs == [] then [] else [EscapeCsv(vs[0])] + EscapeAll(vs[1..])
  }

  /** One line of the document, without its LF. */
  function Line(p: Product): string {
    JoinComma(EscapeAll(Cells(p)))
  }

  /** The lines of `ps`, in order, each followed by LF. */
  function Lines(ps: seq<Product>): string {
    if ps == [] then "" else Line(ps[0]) + "\n" + Lines(ps[1..])
  }

  /** The whole export: the header line, then `Lines(ps)`. */
  function Document(ps: seq<Product>): string {
    JoinComma(Columns) + "\n" + Lines(ps)
  }

  /** Appending one product appends exactly its line: what the export loop relies on. */
  lemma {:induction false} LinesSnoc(ps: seq<Product>, p: Product)
    ensures Lines(ps + [p]) == Lines(ps) + Line(p) + "\n"
  {
    if ps == [] {
      assert [p][1..] == [];
    } else {
      var q := ps + [p];
      assert q[0] == ps[0] && q[1..] == ps[1..] + [p];
      LinesSnoc(ps[1..], p);
      var a, b, c := Line(ps[0]) + "\n", Lines(ps[1..]), Line(p) + "\n";
      assert a + (b + c) == (a + b) + c;
    }
  }

  /** The same, after any text already written: the step of the export loop. */
  lemma AppendLine(start: string, ps: seq<Product>, p: Product)
    ensures start + Lines(ps) + Line(p) + "\n" == start + Lines(ps + [p])
  {
    LinesSnoc(ps, p);
  }
}
