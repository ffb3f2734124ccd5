# Inventory server: CSV export, CSV import, product update and queries

This project models the data logic of the inventory backend (`backend/server.js`).
The backend keeps two SQLite tables:
- `products`: `name` is UNIQUE and `id` is an AUTOINCREMENT key.
- `inventory_history`: one row per stock change, never rewritten.

The model covers four handlers that work on these tables:

- **CSV export** (`GET /api/products/export`). `escapeCsv` writes NULL as an empty field. It writes a value with no `"`, `,`, LF or CR as it is. Any other value goes in double quotes, with each inner quote doubled (section 2, rules 6 and 7, of RFC 4180, with LF line ends). The document is the header `id,name,unit,category,brand,stock,status,image` followed by one line per product, in store order.
- **CSV import** (`POST /api/products/import`). For each parsed row, the handler:
  - reads the lower-case or Capitalised column, where JavaScript's `||` treats a missing or empty cell as absent;
  - trims the name, skipping the row when the name is blank;
  - reads the stock with `parseInt(…, 10) || 0`;
  - skips a name that is already stored;
  - inserts any other row and counts it as `added`.
- **Update** (`PUT /api/products/:id`). The handler:
  - validates that the name is not empty and that the stock is numeric;
  - writes a history entry `(id, old, new, now)` when the product exists and its stock changes;
  - then overwrites every column of the product.
- **Queries**:
  - the category filter;
  - the case-insensitive substring search on the name;
  - a product's history, newest first.

Module layout:
- `Server.Inventory` is a class holding the two tables and their counters as fields. `Export` walks the products table and builds the text line by line. `Import` (with `ImportRow` for one row) and `Update` change the tables step by step. Each method is proved against a specification function on values:
  - `CsvExport.Document`;
  - `CsvImport.ImportRows`, a sequential fold over the rows;
  - `ProductUpdate.Apply`.
- These rest on further specification functions: `JsText.ParseInt` (`parseInt(s, 10)`), `CsvImport.ReadRow` (the values one row yields) and `CsvImport.ImportFields` (one row's effect). The lemmas state what all of them promise.
- `JsText` models the JavaScript built-ins the handlers rely on: `String(n)`, `trim` and `parseInt(s, 10)`. It also models the ASCII case folding and substring test behind SQLite's `LIKE … COLLATE NOCASE`.
- `CsvRead` is a reader for the dialect the export writes. It states the export's round trip: reading the document back gives the header and then each product's fields in column order. It also builds the header-keyed row objects the import receives. Importing an exported table into itself adds nothing when every stored name is already trimmed. The update accepts a name stored with surrounding blanks. Such a name is imported again as a second product under its trimmed name when the trimmed name is not blank and no product holds it yet.

## Model

| member | source | states |
|---|---|---|
| JsText.Trim | backend/server.js:145 | the trimmed name is no longer than the cell and neither starts nor ends with whitespace |
| JsText.TrimRemovesOnlySpace | backend/server.js:145 | the cell is whitespace + trimmed name + whitespace; the trimmed name is empty exactly when the cell is blank, so a blank name is skipped |
| JsText.TrimIdempotent | backend/server.js:145 | trimming twice is trimming once |
| JsText.TrimmedIsFixed | backend/server.js:145 | a name without surrounding whitespace is its own trim |
| JsText.IntToString | backend/server.js:201 | `String(n)` of an integer is non-empty, untrimmable, and all digits exactly when `n >= 0` |
| JsText.NatToString | backend/server.js:201 | a natural number is written as a non-empty run of decimal digits with no leading zero |
| JsText.ParseIntOfIntToString | backend/server.js:149 | `parseInt(String(n) + rest, 10)` is `n` for every integer `n` and every `rest` that does not start with a digit |
| JsText.ParseIntOfParts | backend/server.js:149 | `parseInt` of leading whitespace, an optional sign, digits (leading zeros allowed) and text not starting with a digit is the signed value of the digits |
| JsText.DigitsValueOfNat | backend/server.js:149 | the digits `String` writes denote the number they were written from |
| JsText.Lower | backend/server.js:70 | case folding keeps the length and folds each character |
| JsText.LowerOfUpper | backend/server.js:70 | folding ignores the case the text was written in |
| JsText.ContainsIff | backend/server.js:69-70 | the substring scan succeeds exactly when the term occurs at some index |
| Products.FindBy | backend/server.js:93 | the lookup on one column (the key at line 93, the name at line 159) returns a stored row holding the value, or `None` exactly when no row holds it |
| Products.FindByIdAt | backend/server.js:93 | with unique keys, the lookup returns the very row holding the key |
| CsvExport.DoubleQuotes | backend/server.js:203 | doubling never shortens a value and leaves a value without quotes unchanged |
| CsvExport.EscapeCsv | backend/server.js:199-206 | NULL becomes the empty field; a value needing no quoting is returned unchanged; any other value comes back quoted at both ends around its doubled text |
| CsvExport.DoubleQuotesAppend | backend/server.js:203 | doubling distributes over concatenation |
| CsvExport.WidgetDoubled | backend/server.js:203 | the inner quotes of `Widget, "Pro"` are doubled and nothing else changes |
| CsvExport.QuotedWidget | backend/server.js:199-206 | the name `Widget, "Pro"` is written as `"Widget, ""Pro"""` |
| CsvExport.UndoubleDoubled | backend/server.js:203 | un-doubling inverts the quote doubling |
| CsvExport.EscapeRoundTrip | backend/server.js:202-203 | stripping the outer quotes and un-doubling recovers the value, with NULL read as "" |
| CsvExport.EscapeAll | backend/server.js:210 | each field of a line is the escape of the column's value, in column order |
| CsvExport.LinesSnoc | backend/server.js:209-212 | one more product appends exactly its line and an LF |
| CsvRead.ParseFieldEscaped | backend/server.js:199-206 | an escaped field followed by a comma or LF reads back as the value's text |
| CsvRead.ParseRecordOfLine | backend/server.js:210-211 | a written line reads back as its fields in order, and reading stops after its LF |
| CsvRead.HeaderIsLine | backend/server.js:197 | the column names need no quoting, so the header line is the names joined by commas |
| CsvRead.ExportRoundTrip | backend/server.js:208-212 | reading the export gives the header record, then exactly one record per product in store order, each holding its eight fields in column order |
| CsvRead.ZipRowLookup | backend/server.js:142 | a row object maps each header name to the cell in its column |
| CsvRead.ExportedCell | backend/server.js:197 | in an exported row, column `i` holds the text of the product's `i`-th field |
| CsvRead.ExportRows | backend/server.js:193-217 | the row objects parsed from an export are the products' rows, in order |
| CsvImport.Pick | backend/server.js:145-151 | the lower-case column wins when non-empty, then the Capitalised one; the result is absent exactly when both are missing or empty, and never the empty string |
| CsvImport.StockOf | backend/server.js:149 | the stock is 0 when the cell is missing or empty or does not parse as an integer |
| CsvImport.StockOfInteger | backend/server.js:149 | a stock cell starting with an integer in decimal reads as that integer |
| CsvImport.ReadRow | backend/server.js:145-151 | the name read from a row is trimmed, and no optional field is read as the empty string |
| CsvImport.ReadRowsAppend | backend/server.js:142-151 | reading a file in two parts reads each part in turn, so rows are read in file order |
| CsvImport.ImportFields | backend/server.js:153-179 | one row adds one to `added + skipped`; the stored rows stay at the front; the table and the key counter grow by the increase in `added` |
| CsvImport.ImportFieldsEffect | backend/server.js:153-179 | a blank or stored name adds one to `skipped` and leaves the table alone; a new name appends the row under the next key and adds one to `added` |
| CsvImport.FindByNameIff | backend/server.js:159-169 | the lookup finds a row exactly when the name is stored |
| CsvImport.ImportFieldsKeepsInvariant | backend/server.js:159-179 | one row keeps names unique, keys unique and below the counter, and names non-empty |
| CsvImport.ImportAllKeepsInvariant | backend/server.js:142-180 | a whole import keeps that invariant, whatever the file holds |
| CsvImport.ImportAllTally | backend/server.js:128-129 | every row is counted once as added or skipped; the stored rows stay at the front; the table and the key counter both grow by exactly `added` |
| CsvImport.ImportAllStoresNames | backend/server.js:159-179 | after an import every non-blank name of the file is stored |
| CsvImport.ImportNothingNew | backend/server.js:153-169 | when every row is blank or already stored, the table is unchanged and every row is skipped |
| CsvImport.ImportTwiceAddsNothing | backend/server.js:165-169 | importing the same file again adds nothing and skips every row |
| CsvImport.BlankCount | backend/server.js:153-157 | the number of rows with a blank name is at most the number of rows |
| CsvImport.ImportAllOrigin | backend/server.js:171-173 | every row of the table after an import was stored before, or carries a name from a non-blank row of the file |
| CsvImport.ImportFreshNames | backend/server.js:153-179 | N rows, K of them blank and the rest distinct new names, add N − K products and skip K rows |
| CsvImport.ReadExportedRow | backend/server.js:145-151 | an exported row reads back as the product's fields: stock exact, trimmed name exact, empty optional fields as NULL |
| CsvImport.ExportThenImportSkipsAll | backend/server.js:142-180 | when every stored name is already trimmed, importing the export of a table into that table adds nothing and skips every row |
| CsvImport.OneExportedRow | backend/server.js:193-217 | the export of a one-product table parses back as that product's row |
| CsvImport.ExportedName | backend/server.js:145 | the name read from an exported row is the stored name, trimmed |
| CsvImport.ImportOneNewName | backend/server.js:159-176 | a row with a non-blank name the table lacks is inserted under the next key and counted as added |
| CsvImport.UntrimmedNameImportedAgain | backend/server.js:145-176 | in a one-product table whose name has blanks around it, a row reading back as the trimmed name, when that trim is not blank, is inserted as a second product and counted as added |
| CsvImport.LeadingBlankImportedAgain | backend/server.js:145-176 | a product named `" Milk"`, re-imported from its own export, adds a second product `"Milk"` |
| ProductUpdate.Validate | backend/server.js:80-88 | 'Name is required' is reported exactly when the name is missing or empty; 'Stock must be a number' exactly when the stock is not numeric; no error means the request passes; the name error comes first |
| ProductUpdate.Revised | backend/server.js:107-108 | the overwrite keeps the row's key |
| ProductUpdate.Apply | backend/server.js:78-119 | the update is rejected exactly when validation reports errors, and then changes nothing; a refused overwrite leaves the products as they were |
| ProductUpdate.ApplyRejectsInvalid | backend/server.js:85-88 | a request failing validation is answered with its errors before any change to either table |
| ProductUpdate.ApplyHistory | backend/server.js:99-104 | the log only grows; it gains exactly one entry `(id, old, new, now)` under the next history key when the product exists and its stock differs, and otherwise neither the log nor its counter changes |
| ProductUpdate.ApplyFrame | backend/server.js:106-108 | only the product with that key can change; length, keys and the product counter are kept; after a successful update that product holds exactly the requested values |
| ProductUpdate.ApplyUnknownId | backend/server.js:93-116 | an unknown key changes nothing, and a valid request still reports success |
| ProductUpdate.ApplyCollisionKeepsHistory | backend/server.js:99-113 | a rename onto another product's name fails and leaves the products unchanged, but the stock change is already logged |
| ProductUpdate.OverwriteKeepsInvariant | backend/server.js:106-108 | an overwrite to a name no other product has keeps names and keys unique |
| ProductUpdate.ApplyKeepsValid | backend/server.js:93-116 | every update keeps both tables valid |
| ProductUpdate.StockTenToSeven | backend/server.js:99-108 | setting a stock from 10 to 7 logs `(10, 7)` and stores 7 |
| ProductUpdate.UpdateKeepsBlanks | backend/server.js:80-108 | a name with a leading blank passes the name check and is stored as sent |
| ProductUpdate.SameStockNoHistory | backend/server.js:99 | sending the stored stock back logs nothing |
| Queries.Filter | backend/server.js:53 | a `WHERE` clause returns exactly the rows it accepts and no more rows than it was given |
| Queries.FilterAppend | backend/server.js:53 | filtering keeps the store order |
| Queries.ByCategory | backend/server.js:51-63 | with no category, or an empty one, every product; otherwise exactly the products whose category equals it |
| Queries.Search | backend/server.js:67-70 | the search returns only stored products |
| Queries.SearchEmpty | backend/server.js:68-69 | a missing or empty term lists every product |
| Queries.SearchIff | backend/server.js:69-70 | a product is found exactly when the folded term occurs in its folded name |
| Queries.SearchIgnoresCase | backend/server.js:70 | upper- or lower-casing the term does not change the result |
| Queries.SearchFindsOwnName | backend/server.js:69-70 | searching for a product's own name, in any case, finds it |
| Queries.StringLeqTotal | backend/server.js:225 | any two dates are ordered one way or the other |
| Queries.StringLeqTransitive | backend/server.js:225 | the date order is transitive |
| Queries.StringLeqAntisymmetric | backend/server.js:225 | dates ordered both ways are equal |
| Queries.Insert | backend/server.js:225 | inserting adds exactly the one entry |
| Queries.InsertNewestFirst | backend/server.js:225 | inserting into a newest-first list keeps it newest first |
| Queries.SortNewestFirst | backend/server.js:225 | sorting is a permutation |
| Queries.SortIsNewestFirst | backend/server.js:225 | the sorted history is newest first |
| Queries.HistoryFor | backend/server.js:225 | the history is a permutation of the product's entries |
| Queries.HistoryForSpec | backend/server.js:221-228 | the history holds exactly the product's entries, as many as were logged, newest first |
| Queries.ThreeChangesNewestFirst | backend/server.js:225 | changes at T1 < T2 < T3 come back as T3, T2, T1 |
| Server.Inventory.constructor | backend/server.js:14-34 | the first start on a new database file: both tables empty and valid, both counters at the first key |
| Server.Inventory.Export | backend/server.js:193-217 | the text sent is the header line followed by each product's line |
| Server.Inventory.AppendLines | backend/server.js:208-212 | the loop appends each product's line, with its LF, in store order |
| Server.Inventory.Import | backend/server.js:122-190 | the table, counter and tally are the sequential import of the rows; `added + skipped` is the number of rows; stored rows stay; history untouched; tables stay valid |
| Server.Inventory.ImportRow | backend/server.js:142-180 | one row's handler changes the table and tally as one fold step does, and keeps the table invariant |
| Server.Inventory.Update | backend/server.js:78-119 | the new tables and the outcome are those of `Apply`; the tables stay valid |

## Left out

- The concurrency of the import:
  - The model runs the rows one after another. The real handler issues a row's lookup as soon as the parser emits the row, so lookups of later rows can run before earlier inserts complete; it joins them with the `pending`/`streamEnded` counters.
  - As a result, two rows of one file with the same new name can both pass the lookup in the real handler (always when they arrive in the same read chunk). The second insert then fails on UNIQUE and is counted as neither added nor skipped. The model adds the first row and skips the second.
- Database errors of any kind are not modelled. These are the failed lookup and failed insert during import, which count as neither added nor skipped, the failed lookup and failed history insert during update, and the failed `SELECT` of every query. The one exception is the UNIQUE refusal of an update's rename, which the model does include (`Failed`).
- The race between the fire-and-forget history insert and the `UPDATE` is not modelled. The model applies the history entry first.
- The tokenising of the `csv-parser` library is not part of this model. Import works on rows that have already been parsed into maps from header name to cell text. `CsvRead` parses only the dialect the export writes, and is used to state the export's round trip.
- Express routing, CORS, the multer upload, the temporary file and its unlinking, `app.listen`, and the HTTP status codes and JSON bodies are I/O. The outcome datatypes stand in for the responses.
- CsvImport.ExportThenImportSkipsAll: stated only for tables whose names are already trimmed. The update stores a name as sent, blanks included, and the import trims it. Re-importing such a table's export then adds a second product when the trimmed name is not blank and no product holds it yet; UntrimmedNameImportedAgain and LeadingBlankImportedAgain state that case. A name of blanks only is skipped, and a trimmed name already held by another product is skipped too.
- The parser's `'error'` event (backend/server.js:186-189) is not modelled: it answers 500 after earlier rows may already have been inserted.
- Queries.Search: a `name` given as a repeated query parameter, which Express turns into an array, is not modelled; the term is one string.
- ProductUpdate.Validate: a JSON name that is not a string (a number, an object) is not modelled; the name is either absent or a string.
- Server.Inventory.constructor: only the first start on a new file is modelled. `CREATE TABLE IF NOT EXISTS` keeps the rows of an existing file, which the model would take as an arbitrary valid state.
- `new Date().toISOString()` is the parameter `now` of the update.
- `user_info` is never written by the server and is not modelled.
- The rows of a query without `ORDER BY` are taken in store order.
- Queries.HistoryFor: entries that share a `change_date` may come back in any order in SQLite. The contract states only "newest first" and "a permutation of the product's entries", and the model's insertion order among ties is not claimed.
- Queries.Search: SQLite's `LIKE` wildcards `%` and `_` inside the term, and Unicode case folding, are not modelled. The term is matched as a plain substring with ASCII case folding.
- Queries.ByCategory: only one string value of `category` is modelled. Repeated query parameters, which Express turns into an array, are not.
- ProductUpdate.Validate: the stock is either a JSON integer or not numeric. Numeric strings, fractional numbers and the JavaScript `!==` between a number and a string in the stock comparison are not modelled.
- Integers are unbounded. JavaScript's loss of precision above 2^53, and `parseInt` on exponent or very long digit strings, are not modelled.
- `frontend/src/App.js` is presentation logic and is not part of this model.
