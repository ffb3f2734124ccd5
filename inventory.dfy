/**
 * The server's state: the `products` table and the `inventory_history` log,
 * each with its AUTOINCREMENT counter, and the three handlers that walk or
 * change them: the CSV export, the CSV import and the product update.
 */
module Server {
  import opened Products
  import opened CsvExport
  import opened CsvRead
  import opened CsvImport
  import opened ProductUpdate

  class Inventory {
    var products: seq<Product>
    var nextProductId: int
    var history: seq<HistoryEntry>
    var nextHistoryId: int

    /** The two tables as a value. */
    function Snapshot(): Tables
      reads this
    {
      Tables(products, nextProductId, history, nextHistoryId)
    }

    /** Unique names and keys, keys issued by the counters, no empty name. */
    predicate Valid()
      reads this
    {
      Snapshot().Valid()
    }

    /** A fresh database: both tables empty, both counters at their first key. */
    constructor ()
      ensures Valid()
      ensures products == [] && history == []
      ensures nextProductId == 1 && nextHistoryId == 1
    {
      products := [];
      nextProductId := 1;
      history := [];
      nextHistoryId := 1;
    }

    /** `GET /api/products/export`: the header line, then the product lines. */
    method Export() returns (csv: string)
      ensures csv == Document(products)
    {
      csv := AppendLines(JoinComma(Columns) + "\n");
    }

    /** The export loop: each product's line appended to `start`, in store order. */
    method AppendLines(start: string) returns (csv: string)
      ensures csv == start + Lines(products)
    {
      csv := start;
      for i := 0 to |products|
        invariant csv == start + Lines(products[..i])
      {
        var line := Line(products[i]);
        AppendLine(start, products[..i], products[i]);
        assert products[..i + 1] == products[..i] + [products[i]];
        csv := csv + line + "\n";
      }
      assert products[..|products|] == products;
    }

    /**
     * `POST /api/products/import`, with the rows handled one after another.
     * Every row is counted once, the rows already stored stay as they were at
     * the front of the table, and the history log is not touched.
     */
    method Import(rows: seq<Row>) returns (added: nat, skipped: nat)
      requires Valid()
      modifies this
      ensures ImportState(products, nextProductId, added, skipped)
        == ImportRows(ImportState(old(products), old(nextProductId), 0, 0), rows)
      ensures added + skipped == |rows|
      ensures old(products) <= products && |products| == |old(products)| + added
      ensures history == old(history) && nextHistoryId == old(nextHistoryId)
      ensures Valid()
    {
      ghost var init := ImportState(products, nextProductId, 0, 0);
      added, skipped := 0, 0;
      for i := 0 to |rows|
        invariant ImportState(products, nextProductId, added, skipped) == ImportRows(init, rows[..i])
        invariant StoreInvariant(products, nextProductId)
        invariant history == old(history) && nextHistoryId == old(nextHistoryId)
      {
        ImportRowsSnoc(init, rows, i);
        added, skipped := ImportRow(rows[i], added, skipped);
      }
      assert rows[..|rows|] == rows;
      ImportAllTally(init, ReadRows(rows));
    }

    /**
     * The `'data'` handler for one row: a blank name or a stored name adds one
     * to `skipped`; any other row is inserted under the next key and adds one
     * to `added`.
     */
    method ImportRow(row: Row, added: nat, skipped: nat) returns (added': nat, skipped': nat)
      requires StoreInvariant(products, nextProductId)
      modifies this
      ensures ImportState(products, nextProductId, added', skipped')
        == ImportFields(ImportState(old(products), old(nextProductId), added, skipped), ReadRow(row))
      ensures StoreInvariant(products, nextProductId)
      ensures history == old(history) && nextHistoryId == old(nextHistoryId)
    {
      ImportFieldsKeepsInvariant(ImportState(products, nextProductId, added, skipped), ReadRow(row));
      added', skipped' := added, skipped;
      var f := ReadRow(row);
      if f.name == "" {
        skipped' := skipped + 1;
        return;
      }
      var existing := FindByName(products, f.name);
      if existing.Some? {
        skipped' := skipped + 1;
        return;
      }
      products := products + [NewProduct(nextProductId, f)];
      nextProductId := nextProductId + 1;
      added' := added + 1;
    }

    /**
     * `PUT /api/products/:id`: validate, record a stock change of an existing
     * product in the history log, then overwrite the product unless no row has
     * the key or another product already has the new name.
     */
    method Update(id: int, req: UpdateRequest, now: string) returns (outcome: UpdateOutcome)
      requires Valid()
      modifies this
      ensures (Snapshot(), outcome) == Apply(old(Snapshot()), id, req, now)
      ensures Valid()
    {
      ApplyKeepsValid(Snapshot(), id, req, now);
      var errors := Validate(req);
      if errors != [] {
        return Rejected(errors);
      }
      var stock := req.stock.value;
      var existing := FindById(products, id);
      if existing.Some? && existing.value.stock != stock {
        history := history + [HistoryEntry(nextHistoryId, id, existing.value.stock, stock, now)];
        nextHistoryId := nextHistoryId + 1;
      }
      if existing.None? {
        return Updated;
      }
      if NameTaken(products, id, req.name.value) {
        return Failed;
      }
      products := Overwrite(products, id, req);
      outcome := Updated;
    }
  }
}
