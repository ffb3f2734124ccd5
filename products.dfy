/**
 * The two tables of the inventory database: `products` (one row per product,
 * `name` UNIQUE, `id` an AUTOINCREMENT key) and `inventory_history` (one row per
 * stock change, appended and never rewritten).
 */
module Products {
  import opened Wrappers

  /** A row of `products`; the optional columns hold SQL NULL as `None`. */
  datatype Product = Product(
    id: int,
    name: string,
    unit: Option<string>,
    category: Option<string>,
    brand: Option<string>,
    stock: int,
    status: Option<string>,
    image: Option<string>)

  /** A row of `inventory_history`: a stock change of product `productId` at `changeDate`. */
  datatype HistoryEntry = HistoryEntry(
    id: int,
    productId: int,
    oldQuantity: int,
    newQuantity: int,
    changeDate: string)

  predicate NamesUnique(ps: seq<Product>) {
    forall i, j :: 0 <= i < j < |ps| ==> ps[i].name != ps[j].name
  }

  predicate IdsUnique(ps: seq<Product>) {
    forall i, j :: 0 <= i < j < |ps| ==> ps[i].id != ps[j].id
  }

  /**
   * What the schema and the server keep true of `products`: unique names and
   * ids, every id issued by the AUTOINCREMENT counter (so below `nextId`), and
   * no empty name (import skips blank names, update rejects them).
   */
  predicate StoreInvariant(ps: seq<Product>, nextId: int) {
    && NamesUnique(ps)
    && IdsUnique(ps)
    && 1 <= nextId
    && forall i :: 0 <= i < |ps| ==> 1 <= ps[i].id < nextId && ps[i].name != ""
  }

  /** History ids are issued by their own AUTOINCREMENT counter. */
  predicate HistoryInvariant(hs: seq<HistoryEntry>, nextId: int) {
    && 1 <= nextId
    && (forall i, j :: 0 <= i < j < |hs| ==> hs[i].id != hs[j].id)
    && forall i :: 0 <= i < |hs| ==> 1 <= hs[i].id < nextId
  }

  /** Both tables with the next key each AUTOINCREMENT counter will hand out. */
  datatype Tables = Tables(
    products: seq<Product>,
    nextProductId: int,
    history: seq<HistoryEntry>,
    nextHistoryId: int)
  {
    predicate Valid() {
      StoreInvariant(products, nextProductId) && HistoryInvariant(history, nextHistoryId)
    }
  }

  /** `SELECT ... FROM products WHERE <column> = ?`: a row whose `key` column holds `k`, if any. */
  function FindBy<K(==)>(ps: seq<Product>, key: Product -> K, k: K): (r: Option<Product>)
    ensures r.Some? ==> r.value in ps && key(r.value) == k
    ensures r.None? ==> forall i :: 0 <= i < |ps| ==> key(ps[i]) != k
  {
    if ps == [] then None
    else if key(ps[0]) == k then Some(ps[0])
    else FindBy(ps[1..], key, k)
  }

  function NameOf(p: Product): string { p.name }

  function IdOf(p: Product): int { p.id }

  /** `SELECT ... FROM products WHERE name = ?`. */
  function FindByName(ps: seq<Product>, name: string): Option<Product> {
    FindBy(ps, NameOf, name)
  }

  /** `SELECT ... FROM products WHERE id = ?`. */
  function FindById(ps: seq<Product>, id: int): Option<Product> {
    FindBy(ps, IdOf, id)
  }

  /** With unique ids, the row `FindById` returns is the one at the id's position. */
  lemma FindByIdAt(ps: seq<Product>, i: int)
    requires IdsUnique(ps) && 0 <= i < |ps|
    ensures FindById(ps, ps[i].id) == Some(ps[i])
  {
    var r := FindById(ps, ps[i].id);
    var j :| 0 <= j < |ps| && ps[j] == r.value;
    assert j == i;
  }
}
