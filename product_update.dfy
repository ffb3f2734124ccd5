/**
 * The update of one product (`PUT /api/products/:id`): the request is
 * validated, then, when the product exists and its stock changes, a history
 * entry is written, and then every field of the product is overwritten.
 */
module ProductUpdate {
  import opened Wrappers
  import opened Products

  /** The `stock` of a request body: a JSON number, or anything that is not numeric. */
  datatype StockInput = Number(value: int) | NotNumeric

  /** The body of an update request; an absent or `null` field is `None`. */
  datatype UpdateRequest = UpdateRequest(
    name: Option<string>,
    unit: Option<string>,
    category: Option<string>,
    brand: Option<string>,
    stock: StockInput,
    status: Option<string>,
    image: Option<string>)

  /** The two validation messages, 'Name is required' and 'Stock must be a number'. */
  datatype FieldError = NameRequired | StockNotNumber

  /**
   * The outcome the client sees: 400 with the field errors, 500 when the
   * database refuses the overwrite, or the success message.
   */
  datatype UpdateOutcome = Rejected(errors: seq<FieldError>) | Failed | Updated

  /** The name passes `notEmpty()`: present and not the empty string (blank text passes). */
  predicate NameGiven(req: UpdateRequest) {
    req.name.Some? && req.name.value != ""
  }

  /** The validation chain: the name check first, then the stock check, each reporting its own error. */
  function Validate(req: UpdateRequest): (errs: seq<FieldError>)
    ensures NameRequired in errs <==> !NameGiven(req)
    ensures StockNotNumber in errs <==> req.stock.NotNumeric?
    ensures errs == [] <==> NameGiven(req) && req.stock.Number?
    ensures |errs| <= 2 && (|errs| == 2 ==> errs == [NameRequired, StockNotNumber])
  {
    (if NameGiven(req) then [] else [NameRequired])
    + (if req.stock.Number? then [] else [StockNotNumber])
  }

  /** `p` with every updatable column taken from the request; the key stays. */
  function Revised(p: Product, req: UpdateRequest): (q: Product)
    requires NameGiven(req) && req.stock.Number?
    ensures q.id == p.id
  {
    Product(p.id, req.name.value, req.unit, req.category, req.brand, req.stock.value, req.status, req.image)
  }

  /** `UPDATE products SET ... WHERE id = ?`: every row with that key revised, the others kept. */
  function Overwrite(ps: seq<Product>, id: int, req: UpdateRequest): (qs: seq<Product>)
    requires NameGiven(req) && req.stock.Number?
  {
    seq(|ps|, i requires 0 <= i < |ps| => if ps[i].id == id then Revised(ps[i], req) else ps[i])
  }

  /** Another product than `id` already carries `name`: the UNIQUE constraint refuses the overwrite. */
  predicate NameTaken(ps: seq<Product>, id: int, name: string) {
    exists j :: 0 <= j < |ps| && ps[j].id != id && ps[j].name == name
  }

  /** The history entry the lookup writes when product `id` exists and its stock changes. */
  function RecordChange(t: Tables, id: int, newStock: int, now: string): Tables {
    match FindById(t.products, id)
    case None => t
    case Some(p) =>
      if p.stock != newStock then
        t.(history := t.history + [HistoryEntry(t.nextHistoryId, id, p.stock, newStock, now)],
           nextHistoryId := t.nextHistoryId + 1)
      else t
  }

  /**
   * The whole update as the handler runs it, at time `now`. An invalid request
   * touches nothing. A valid one first records a stock change, then issues the
   * overwrite: no row has the key (nothing more happens, and the client is told
   * it succeeded), the new name belongs to another product (the overwrite fails,
   * but the history entry has already been written), or the row is revised.
   */
  function Apply(t: Tables, id: int, req: UpdateRequest, now: string): (r: (Tables, UpdateOutcome))
    ensures r.1.Rejected? <==> Validate(req) != []
    ensures r.1.Rejected? ==> r.0 == t && r.1.errors == Validate(req)
    ensures r.1 == Failed ==> r.0.products == t.products
  {
    var errs := Validate(req);
    if errs != [] then (t, Rejected(errs))
    else
      var t1 := RecordChange(t, id, req.stock.value, now);
      if FindById(t.products, id).None? then (t1, Updated)
      else if NameTaken(t.products, id, req.name.value) then (t1, Failed)
      else (t1.(products := Overwrite(t.products, id, req)), Updated)
  }

  /** A request that fails validation is answered with its errors and changes nothing. */
  lemma ApplyRejectsInvalid(t: Tables, id: int, req: UpdateRequest, now: string)
    requires !NameGiven(req) || req.stock.NotNumeric?
    ensures Apply(t, id, req, now).0 == t
    ensures Apply(t, id, req, now).1 == Rejected(Validate(req))
    ensures Apply(t, id, req, now).1.errors != []
  {
  }

  /** Whether the update writes a history entry: valid, the product exists, and its stock changes. */
  predicate ChangesStock(t: Tables, id: int, req: UpdateRequest) {
    && NameGiven(req) && req.stock.Number?
    && FindById(t.products, id).Some?
    && FindById(t.products, id).value.stock != req.stock.value
  }

  /**
   * The history log only grows, and by exactly one entry `(id, old, new, now)`
   * under the next history key when the stock of an existing product changes.
   */
  lemma ApplyHistory(t: Tables, id: int, req: UpdateRequest, now: string)
    ensures t.history <= Apply(t, id, req, now).0.history
    ensures |Apply(t, id, req, now).0.history| == |t.history| + (if ChangesStock(t, id, req) then 1 else 0)
    ensures ChangesStock(t, id, req) ==>
      && Apply(t, id, req, now).0.history[|t.history|]
         == HistoryEntry(t.nextHistoryId, id, FindById(t.products, id).value.stock, req.stock.value, now)
      && Apply(t, id, req, now).0.nextHistoryId == t.nextHistoryId + 1
    ensures !ChangesStock(t, id, req) ==> Apply(t, id, req, now).0.history == t.history
    ensures !ChangesStock(t, id, req) ==> Apply(t, id, req, now).0.nextHistoryId == t.nextHistoryId
  {
  }

  /**
   * Only the product with key `id` can change: the table keeps its length,
   * its keys and its counter, every other row stays as it was, and a successful update of an
   * existing product leaves it holding exactly the requested values.
   */
  lemma ApplyFrame(t: Tables, id: int, req: UpdateRequest, now: string)
    ensures Apply(t, id, req, now).0.nextProductId == t.nextProductId
    ensures |Apply(t, id, req, now).0.products| == |t.products|
    ensures forall i :: 0 <= i < |t.products| ==> Apply(t, id, req, now).0.products[i].id == t.products[i].id
    ensures forall i :: 0 <= i < |t.products| && t.products[i].id != id ==>
      Apply(t, id, req, now).0.products[i] == t.products[i]
    ensures Apply(t, id, req, now).1 != Updated ==> Apply(t, id, req, now).0.products == t.products
    ensures forall i :: 0 <= i < |t.products| && t.products[i].id == id && Apply(t, id, req, now).1 == Updated ==>
      Apply(t, id, req, now).0.products[i]
      == Product(id, req.name.value, req.unit, req.category, req.brand, req.stock.value, req.status, req.image)
  {
  }

  /** Updating a key no product has changes nothing, yet reports success once the request is valid. */
  lemma ApplyUnknownId(t: Tables, id: int, req: UpdateRequest, now: string)
    requires forall i :: 0 <= i < |t.products| ==> t.products[i].id != id
    ensures Apply(t, id, req, now).0 == t
    ensures Apply(t, id, req, now).1 == (if Validate(req) == [] then Updated else Rejected(Validate(req)))
  {
    assert FindById(t.products, id).None?;
  }

  /**
   * A rename onto another product's name makes the overwrite fail, yet a stock
   * change in the same request has already been written to the history log: the
   * log then records a change the products table never saw.
   */
  lemma ApplyCollisionKeepsHistory(t: Tables, id: int, req: UpdateRequest, now: string)
    requires ChangesStock(t, id, req) && NameTaken(t.products, id, req.name.value)
    ensures Apply(t, id, req, now).1 == Failed
    ensures Apply(t, id, req, now).0.products == t.products
    ensures |Apply(t, id, req, now).0.history| == |t.history| + 1
    ensures Apply(t, id, req, now).0.history[|t.history|].newQuantity == req.stock.value
  {
  }

  /** The overwrite keeps the table's invariant when no other product has the new name. */
  lemma OverwriteKeepsInvariant(ps: seq<Product>, nextId: int, id: int, req: UpdateRequest)
    requires StoreInvariant(ps, nextId)
    requires NameGiven(req) && req.stock.Number?
    requires !NameTaken(ps, id, req.name.value)
    ensures StoreInvariant(Overwrite(ps, id, req), nextId)
  {
    var qs := Overwrite(ps, id, req);
    forall i, j | 0 <= i < j < |qs| ensures qs[i].name != qs[j].name {
      if ps[i].id == id {
        assert ps[j].id != id;
        assert qs[j] == ps[j];
      } else if ps[j].id == id {
        assert qs[i] == ps[i];
      }
    }
  }

  /** An update, whatever its outcome, keeps both tables valid. */
  lemma ApplyKeepsValid(t: Tables, id: int, req: UpdateRequest, now: string)
    requires t.Valid()
    ensures Apply(t, id, req, now).0.Valid()
  {
    if Validate(req) == [] {
      var t1 := RecordChange(t, id, req.stock.value, now);
      assert HistoryInvariant(t1.history, t1.nextHistoryId) by {
        if t1 != t {
          var hs := t1.history;
          forall i, j | 0 <= i < j < |hs| ensures hs[i].id != hs[j].id {
            if j == |hs| - 1 {
              assert hs[i] == t.history[i];
            }
          }
        }
      }
      if FindById(t.products, id).Some? && !NameTaken(t.products, id, req.name.value) {
        OverwriteKeepsInvariant(t.products, t.nextProductId, id, req);
      }
    }
  }

  /** Setting the stock of a product from 10 to 7 writes one entry (10, 7) and stores 7. */
  lemma StockTenToSeven(now: string)
    ensures var p := Product(1, "Milk", None, None, None, 10, None, None);
      var t := Tables([p], 2, [], 1);
      var req := UpdateRequest(Some("Milk"), None, None, None, Number(7), None, None);
      var (t', o) := Apply(t, 1, req, now);
      && o == Updated
      && t'.history == [HistoryEntry(1, 1, 10, 7, now)]
      && t'.products == [p.(stock := 7)]
  {
    var p := Product(1, "Milk", None, None, None, 10, None, None);
    var req := UpdateRequest(Some("Milk"), None, None, None, Number(7), None, None);
    assert !NameTaken([p], 1, "Milk");
  }

  /** The name check accepts surrounding blanks, and the overwrite stores the name as sent. */
  lemma UpdateKeepsBlanks(now: string)
    ensures var p := Product(1, "Milk", None, None, None, 10, None, None);
      var req := UpdateRequest(Some(" Milk"), None, None, None, Number(10), None, None);
      var (t', o) := Apply(Tables([p], 2, [], 1), 1, req, now);
      o == Updated && t'.products == [p.(name := " Milk")]
  {
    assert !NameTaken([Product(1, "Milk", None, None, None, 10, None, None)], 1, " Milk");
  }

  /** Sending the stored stock back writes no history entry. */
  lemma SameStockNoHistory(t: Tables, id: int, req: UpdateRequest, now: string)
    requires FindById(t.products, id).Some? && req.stock == Number(FindById(t.products, id).value.stock)
    ensures Apply(t, id, req, now).0.history == t.history
  {
  }
}
