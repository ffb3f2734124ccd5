/**
 * The import of parsed CSV rows into `products`, one row after another: a row
 * with a blank name or with a name already stored is skipped, any other row
 * is inserted as a new product. The result is the tally `{added, skipped}`.
 */
module CsvImport {
  import opened Wrappers
  import opened JsText
  import opened Products
  import opened CsvExport
  import opened CsvRead

  /** `row.lower || row.Upper || null`: JavaScript's `||` treats a missing or empty cell as absent. */
  function Pick(row: Row, lower: string, upper: string): (r: Option<string>)
    ensures r.Some? ==> r.value != ""
    ensures r.Some? ==> (lower in row && row[lower] == r.value) || (upper in row && row[upper] == r.value)
    ensures r.None? <==> (lower !in row || row[lower] == "") && (upper !in row || row[upper] == "")
    ensures lower in row && row[lower] != "" ==> r == Some(row[lower])
  {
    if lower in row && row[lower] != "" then Some(row[lower])
    else if upper in row && row[upper] != "" then Some(row[upper])
    else None
  }

  /** The values the handler reads out of one row before touching the database. */
  datatype Fields = Fields(
    name: string,
    unit: Option<string>,
    category: Option<string>,
    brand: Option<string>,
    stock: int,
    status: Option<string>,
    image: Option<string>)

  /** `parseInt(row.stock || row.Stock || '0', 10) || 0`: `NaN` (and `-0`) become 0. */
  function StockOf(row: Row): (n: int)
    ensures Pick(row, "stock", "Stock").None? ==> n == 0
    ensures Pick(row, "stock", "Stock").Some? && ParseInt(Pick(row, "stock", "Stock").value).None? ==> n == 0
  {
    assert ParseInt("0") == Some(0) by {
      ParseIntOfIntToString(0, "");
      assert IntToString(0) + "" == "0";
    }
    ParseInt(Pick(row, "stock", "Stock").GetOr("0")).GetOr(0)
  }

  /** A stock cell that starts with an integer written by `String` reads as that integer. */
  lemma StockOfInteger(row: Row, n: int, rest: string)
    requires "stock" in row && row["stock"] == IntToString(n) + rest
    requires rest == [] || !IsDigit(rest[0])
    ensures StockOf(row) == n
  {
    ParseIntOfIntToString(n, rest);
    assert row["stock"] != "";
  }

  /** The name is trimmed; every other optional cell is kept as is or read as NULL. */
  function ReadRow(row: Row): (f: Fields)
    ensures IsTrimmed(f.name)
    ensures f.unit != Some("") && f.category != Some("") && f.brand != Some("")
    ensures f.status != Some("") && f.image != Some("")
  {
    Fields(
      Trim(Pick(row, "name", "Name").GetOr("")),
      Pick(row, "unit", "Unit"),
      Pick(row, "category", "Category"),
      Pick(row, "brand", "Brand"),
      StockOf(row),
      Pick(row, "status", "Status"),
      Pick(row, "image", "Image"))
  }

  /** The fields of each row, in file order. */
  function ReadRows(rows: seq<Row>): (fs: seq<Fields>)
    ensures |fs| == |rows|
    ensures forall j :: 0 <= j < |rows| ==> fs[j] == ReadRow(rows[j])
  {
    seq(|rows|, j requires 0 <= j < |rows| => ReadRow(rows[j]))
  }

  /** The import handler's running state: the products table, its AUTOINCREMENT counter and the tally. */
  datatype ImportState = ImportState(products: seq<Product>, nextId: int, added: nat, skipped: nat)

  /** The row inserted for fields `f` under key `id`. */
  function NewProduct(id: int, f: Fields): Product {
    Product(id, f.name, f.unit, f.category, f.brand, f.stock, f.status, f.image)
  }

  /** What one row does to the table: skip a blank name, skip a stored name, otherwise insert it. */
  function ImportFields(st: ImportState, f: Fields): (r: ImportState)
    ensures r.added + r.skipped == st.added + st.skipped + 1
    ensures st.products <= r.products && |r.products| == |st.products| + (r.added - st.added)
    ensures r.nextId == st.nextId + (r.added - st.added)
  {
    if f.name == "" then st.(skipped := st.skipped + 1)
    else if FindByName(st.products, f.name).Some? then st.(skipped := st.skipped + 1)
    else st.(products := st.products + [NewProduct(st.nextId, f)], nextId := st.nextId + 1, added := st.added + 1)
  }

  /** The rows in file order, each seeing the table the earlier ones left. */
  function ImportAll(st: ImportState, fs: seq<Fields>): ImportState
    decreases |fs|
  {
    if fs == [] then st else ImportFields(ImportAll(st, fs[..|fs| - 1]), fs[|fs| - 1])
  }

  /** Reading a file in two parts reads each part in turn. */
  lemma ReadRowsAppend(a: seq<Row>, b: seq<Row>)
    ensures ReadRows(a + b) == ReadRows(a) + ReadRows(b)
  {
  }

  /** The import of a whole file of parsed rows. */
  function ImportRows(st: ImportState, rows: seq<Row>): ImportState {
    ImportAll(st, ReadRows(rows))
  }

  /** One more row: the import of a longer prefix of the file is one more step of the fold. */
  lemma ImportRowsSnoc(st: ImportState, rows: seq<Row>, i: int)
    requires 0 <= i < |rows|
    ensures ImportRows(st, rows[..i + 1]) == ImportFields(ImportRows(st, rows[..i]), ReadRow(rows[i]))
  {
    assert rows[..i + 1] == rows[..i] + [rows[i]];
    ReadRowsAppend(rows[..i], [rows[i]]);
    assert ReadRows(rows[..i + 1])[..i] == ReadRows(rows[..i]);
  }

  predicate HasName(ps: seq<Product>, name: string) {
    exists i :: 0 <= i < |ps| && ps[i].name == name
  }

  /** The lookup by name finds a row exactly when the name is stored. */
  lemma FindByNameIff(ps: seq<Product>, name: string)
    ensures FindByName(ps, name).Some? <==> HasName(ps, name)
  {
    if FindByName(ps, name).Some? {
      var i :| 0 <= i < |ps| && ps[i] == FindByName(ps, name).value;
    }
  }

  /**
   * One row's effect: a blank name or a stored name adds one to `skipped` and
   * leaves the table alone; a new name appends the row's fields under the next
   * key and adds one to `added`.
   */
  lemma ImportFieldsEffect(st: ImportState, f: Fields)
    ensures var st' := ImportFields(st, f);
      if f.name == "" || HasName(st.products, f.name) then
        st' == st.(skipped := st.skipped + 1)
      else
        st' == st.(products := st.products + [NewProduct(st.nextId, f)], nextId := st.nextId + 1, added := st.added + 1)
  {
    FindByNameIff(st.products, f.name);
  }

  /** Importing a row keeps names unique, ids unique and below the counter, and names non-empty. */
  lemma ImportFieldsKeepsInvariant(st: ImportState, f: Fields)
    requires StoreInvariant(st.products, st.nextId)
    ensures StoreInvariant(ImportFields(st, f).products, ImportFields(st, f).nextId)
  {
    ImportFieldsEffect(st, f);
    if f.name != "" && !HasName(st.products, f.name) {
      var ps := st.products + [NewProduct(st.nextId, f)];
      forall i, j | 0 <= i < j < |ps| ensures ps[i].name != ps[j].name && ps[i].id != ps[j].id {
        if j == |ps| - 1 {
          assert ps[i] == st.products[i];
        }
      }
    }
  }

  /** An import keeps the table's invariant whatever the file holds. */
  lemma {:induction false} ImportAllKeepsInvariant(st: ImportState, fs: seq<Fields>)
    requires StoreInvariant(st.products, st.nextId)
    ensures StoreInvariant(ImportAll(st, fs).products, ImportAll(st, fs).nextId)
    decreases |fs|
  {
    if fs != [] {
      ImportAllKeepsInvariant(st, fs[..|fs| - 1]);
      ImportFieldsKeepsInvariant(ImportAll(st, fs[..|fs| - 1]), fs[|fs| - 1]);
    }
  }

  /**
   * The bookkeeping of an import: every row is counted exactly once, the
   * existing products stay as they were at the front of the table, and exactly
   * `added` products are appended, with consecutive new keys.
   */
  lemma {:induction false} ImportAllTally(st: ImportState, fs: seq<Fields>)
    ensures var r := ImportAll(st, fs);
      && r.added + r.skipped == st.added + st.skipped + |fs|
      && r.added >= st.added && r.skipped >= st.skipped
      && st.products <= r.products
      && |r.products| == |st.products| + (r.added - st.added)
      && r.nextId == st.nextId + (r.added - st.added)
    decreases |fs|
  {
    if fs != [] {
      ImportAllTally(st, fs[..|fs| - 1]);
    }
  }

  /** After an import, every non-blank name of the file is in the table. */
  lemma {:induction false} ImportAllStoresNames(st: ImportState, fs: seq<Fields>)
    ensures forall j :: 0 <= j < |fs| && fs[j].name != "" ==> HasName(ImportAll(st, fs).products, fs[j].name)
    decreases |fs|
  {
    if fs != [] {
      var init := fs[..|fs| - 1];
      var last := fs[|fs| - 1];
      var mid := ImportAll(st, init);
      ImportAllStoresNames(st, init);
      ImportFieldsEffect(mid, last);
      var ps := ImportAll(st, fs).products;
      assert mid.products <= ps;
      forall j | 0 <= j < |fs| && fs[j].name != "" ensures HasName(ps, fs[j].name) {
        if j < |fs| - 1 {
          assert fs[j] == init[j];
          var i :| 0 <= i < |mid.products| && mid.products[i].name == fs[j].name;
          assert ps[i] == mid.products[i];
        } else if HasName(mid.products, last.name) {
          var i :| 0 <= i < |mid.products| && mid.products[i].name == last.name;
          assert ps[i] == mid.products[i];
        } else {
          assert ps[|ps| - 1].name == last.name;
        }
      }
    }
  }

  /** When no row can add anything, an import only counts every row as skipped. */
  lemma {:induction false} ImportNothingNew(st: ImportState, fs: seq<Fields>)
    requires forall j :: 0 <= j < |fs| ==> fs[j].name == "" || HasName(st.products, fs[j].name)
    ensures ImportAll(st, fs) == st.(skipped := st.skipped + |fs|)
    decreases |fs|
  {
    if fs != [] {
      var init := fs[..|fs| - 1];
      ImportNothingNew(st, init);
      ImportFieldsEffect(ImportAll(st, init), fs[|fs| - 1]);
    }
  }

  /** Import never overwrites: importing the same file twice adds nothing the second time. */
  lemma ImportTwiceAddsNothing(st: ImportState, rows: seq<Row>)
    ensures var once := ImportRows(st, rows);
      ImportRows(once, rows) == once.(skipped := once.skipped + |rows|)
  {
    var fs := ReadRows(rows);
    ImportAllStoresNames(st, fs);
    ImportNothingNew(ImportAll(st, fs), fs);
  }

  /** The number of rows whose trimmed name is empty. */
  function BlankCount(fs: seq<Fields>): (k: nat)
    ensures k <= |fs|
    decreases |fs|
  {
    if fs == [] then 0
    else BlankCount(fs[..|fs| - 1]) + (if fs[|fs| - 1].name == "" then 1 else 0)
  }

  /** Some row reads as a product named `name`. */
  predicate NameFromRows(name: string, fs: seq<Fields>) {
    exists j :: 0 <= j < |fs| && fs[j].name == name
  }

  /** Every product in the table after an import was there before or was read from one of the rows. */
  lemma {:induction false} ImportAllOrigin(st: ImportState, fs: seq<Fields>)
    ensures forall i :: 0 <= i < |ImportAll(st, fs).products| ==>
      i < |st.products| || NameFromRows(ImportAll(st, fs).products[i].name, fs)
    decreases |fs|
  {
    if fs != [] {
      var init := fs[..|fs| - 1];
      ImportAllOrigin(st, init);
      var mid := ImportAll(st, init);
      ImportFieldsEffect(mid, fs[|fs| - 1]);
      var ps := ImportAll(st, fs).products;
      forall i | 0 <= i < |ps| && i >= |st.products|
        ensures NameFromRows(ps[i].name, fs)
      {
        if i < |mid.products| {
          assert ps[i] == mid.products[i];
          assert NameFromRows(mid.products[i].name, init);
          var j :| 0 <= j < |init| && init[j].name == ps[i].name;
          assert init[j] == fs[j];
        } else {
          assert ps[i].name == fs[|fs| - 1].name;
        }
      }
    }
  }

  /**
   * A file of N rows, K of them with a blank name and the others with distinct
   * names not yet stored, adds N - K products and skips K rows.
   */
  lemma {:induction false} ImportFreshNames(st: ImportState, fs: seq<Fields>)
    requires forall j :: 0 <= j < |fs| && fs[j].name != "" ==> !HasName(st.products, fs[j].name)
    requires forall j, k :: 0 <= j < k < |fs| && fs[j].name != "" ==> fs[j].name != fs[k].name
    ensures ImportAll(st, fs).added == st.added + |fs| - BlankCount(fs)
    ensures ImportAll(st, fs).skipped == st.skipped + BlankCount(fs)
    ensures |ImportAll(st, fs).products| == |st.products| + |fs| - BlankCount(fs)
    decreases |fs|
  {
    ImportAllTally(st, fs);
    if fs != [] {
      var init := fs[..|fs| - 1];
      var last := fs[|fs| - 1];
      ImportFreshNames(st, init);
      var mid := ImportAll(st, init);
      if last.name != "" {
        ImportAllOrigin(st, init);
        ImportAllTally(st, init);
        forall i | 0 <= i < |mid.products| ensures mid.products[i].name != last.name {
          if i < |st.products| {
            assert mid.products[i] == st.products[i];
          } else {
            var j :| 0 <= j < |init| && init[j].name == mid.products[i].name;
            assert init[j] == fs[j];
          }
        }
      }
      ImportFieldsEffect(mid, last);
    }
  }

  /** An optional field with the empty string read as NULL. */
  function NonEmpty(v: Option<string>): Option<string> {
    if v == Some("") then None else v
  }

  /**
   * Reading the row an exported line turns into gives back the product's
   * fields: the stock exactly, the name when it is already trimmed, and each
   * optional field except that an empty string comes back as NULL.
   */
  lemma ReadExportedRow(p: Product)
    requires IsTrimmed(p.name)
    ensures ReadRow(ExportedRow(p)) ==
      Fields(p.name, NonEmpty(p.unit), NonEmpty(p.category), NonEmpty(p.brand),
             p.stock, NonEmpty(p.status), NonEmpty(p.image))
  {
    var row := ExportedRow(p);
    CapitalisedHeadersAbsent();
    ExportedPick(p, 1, "Name");
    TrimmedIsFixed(p.name);
    ExportedPick(p, 2, "Unit");
    ExportedPick(p, 3, "Category");
    ExportedPick(p, 4, "Brand");
    ExportedPick(p, 6, "Status");
    ExportedPick(p, 7, "Image");
    ExportedStock(p);
  }

  lemma CapitalisedHeadersAbsent()
    ensures "Name" !in Columns && "Unit" !in Columns && "Category" !in Columns && "Brand" !in Columns
    ensures "Stock" !in Columns && "Status" !in Columns && "Image" !in Columns
  {
    forall i | 0 <= i < |Columns| ensures Columns[i] != [] && 'a' <= Columns[i][0] <= 'z' {
    }
  }

  /** Column `i` of an exported row, with no capitalised twin, is picked as the product's field unless empty. */
  lemma ExportedPick(p: Product, i: int, upper: string)
    requires 0 <= i < |Columns| && upper !in Columns
    ensures Pick(ExportedRow(p), Columns[i], upper) == NonEmpty(Cells(p)[i])
  {
    ExportedCell(p, i);
    ExportedKeys(p);
  }

  /** The stock cell of an exported row reads back as the stock. */
  lemma ExportedStock(p: Product)
    ensures StockOf(ExportedRow(p)) == p.stock
  {
    ExportedCell(p, 5);
    assert IntToString(p.stock) + "" == IntToString(p.stock);
    StockOfInteger(ExportedRow(p), p.stock, "");
  }

  /**
   * Exporting the table and importing the file into the same table adds
   * nothing and skips every row, provided the stored names are trimmed (an
   * imported name always is).
   */
  lemma ExportThenImportSkipsAll(ps: seq<Product>, nextId: int)
    requires StoreInvariant(ps, nextId)
    requires forall i :: 0 <= i < |ps| ==> IsTrimmed(ps[i].name)
    ensures ImportRows(ImportState(ps, nextId, 0, 0), RowsOf(ParseDocument(Document(ps))))
      == ImportState(ps, nextId, 0, |ps|)
  {
    var rows := RowsOf(ParseDocument(Document(ps)));
    ExportRows(ps);
    var fs := ReadRows(rows);
    var st := ImportState(ps, nextId, 0, 0);
    forall j | 0 <= j < |fs| ensures fs[j].name == "" || HasName(st.products, fs[j].name) {
      assert rows[j] == ExportedRow(ps[j]);
      ReadExportedRow(ps[j]);
    }
    ImportNothingNew(st, fs);
  }

  /**
   * The trimmed-name condition above is needed: a stored name with blanks
   * around it is exported as it is, the import reads it back trimmed
   * (`ExportedName`), finds no row with the trimmed name and inserts a second product.
   */
  lemma UntrimmedNameImportedAgain(p: Product, nextId: int, f: Fields)
    requires f.name == Trim(p.name)
    requires Trim(p.name) != "" && Trim(p.name) != p.name
    ensures ImportAll(ImportState([p], nextId, 0, 0), [f])
      == ImportState([p, NewProduct(nextId, f)], nextId + 1, 1, 0)
  {
    ImportOneNewName(ImportState([p], nextId, 0, 0), f);
  }

  /** The export of a one-product table parses back as that product's row. */
  lemma OneExportedRow(p: Product)
    ensures RowsOf(ParseDocument(Document([p]))) == [ExportedRow(p)]
  {
    ExportRows([p]);
  }

  /** The name read from an exported row is the stored name, trimmed. */
  lemma ExportedName(p: Product)
    ensures ReadRow(ExportedRow(p)).name == Trim(p.name)
  {
    var row := ExportedRow(p);
    assert "Name" !in Columns by {
      CapitalisedHeadersAbsent();
    }
    ExportedPick(p, 1, "Name");
    assert Pick(row, "name", "Name").GetOr("") == p.name;
    ReadRowName(row);
  }

  lemma ReadRowName(row: Row)
    ensures ReadRow(row).name == Trim(Pick(row, "name", "Name").GetOr(""))
  {
  }

  lemma ReadRowsOne(row: Row)
    ensures ReadRows([row]) == [ReadRow(row)]
  {
  }

  /** One row whose name the table lacks is inserted under the next key. */
  lemma ImportOneNewName(st: ImportState, f: Fields)
    requires f.name != "" && !HasName(st.products, f.name)
    ensures ImportAll(st, [f])
      == st.(products := st.products + [NewProduct(st.nextId, f)], nextId := st.nextId + 1, added := st.added + 1)
  {
    FindByNameIff(st.products, f.name);
    assert [f][..0] == [];
  }

  /** A product named `" Milk"`, which an update accepts, comes back from its own export as a second product `"Milk"`. */
  lemma LeadingBlankImportedAgain(p: Product)
    requires p.name == " Milk"
    ensures var r := ImportRows(ImportState([p], 2, 0, 0), RowsOf(ParseDocument(Document([p]))));
      r.added == 1 && |r.products| == 2 && r.products[1].name == "Milk"
  {
    TrimLeadingBlank();
    OneExportedRow(p);
    ExportedName(p);
    ReadRowsOne(ExportedRow(p));
    UntrimmedNameImportedAgain(p, 2, ReadRow(ExportedRow(p)));
  }

  lemma TrimLeadingBlank()
    ensures Trim(" Milk") == "Milk"
  {
    assert LeadingSpace(" Milk") == 1;
    assert TrailingSpace("Milk") == 0;
  }
}
