/**
 * The read paths: the product list narrowed to one category, the search by a
 * fragment of the name regardless of case, and a product's stock history with
 * the newest change first. Rows come back in store order unless ordered.
 */
module Queries {
  import opened Wrappers
  import opened JsText
  import opened Products

  /** The elements of `s` that `keep` accepts, in their order in `s` (a `WHERE` clause). */
  function Filter<T(!new)>(s: seq<T>, keep: T -> bool): (r: seq<T>)
    ensures |r| <= |s|
    ensures forall x :: x in r <==> x in s && keep(x)
  {
    if s == [] then []
    else (if keep(s[0]) then [s[0]] else []) + Filter(s[1..], keep)
  }

  /** Filtering keeps the order of the input: it distributes over concatenation. */
  lemma {:induction false} FilterAppend<T(!new)>(a: seq<T>, b: seq<T>, keep: T -> bool)
    ensures Filter(a + b, keep) == Filter(a, keep) + Filter(b, keep)
  {
    if a != [] {
      assert (a + b)[1..] == a[1..] + b;
      FilterAppend(a[1..], b, keep);
    } else {
      assert a + b == b;
    }
  }

  /** A filter that accepts everything returns its input. */
  lemma {:induction false} FilterAll<T(!new)>(s: seq<T>, keep: T -> bool)
    requires forall x :: x in s ==> keep(x)
    ensures Filter(s, keep) == s
  {
    if s != [] {
      FilterAll(s[1..], keep);
    }
  }

  /** Two filters that agree on every element of `s` select the same rows. */
  lemma {:induction false} FilterSame<T(!new)>(s: seq<T>, k1: T -> bool, k2: T -> bool)
    requires forall x :: x in s ==> k1(x) == k2(x)
    ensures Filter(s, k1) == Filter(s, k2)
  {
    if s != [] {
      FilterSame(s[1..], k1, k2);
    }
  }

  /**
   * `GET /api/products?category=c`: without a category (or with an empty one)
   * every product; otherwise exactly the products whose category is `c`, which
   * leaves out the ones without a category.
   */
  function ByCategory(ps: seq<Product>, category: Option<string>): (r: seq<Product>)
    ensures category.None? || category == Some("") ==> r == ps
    ensures category.Some? && category.value != "" ==>
      forall p :: p in r <==> p in ps && p.category == category
  {
    if category.None? || category.value == "" then ps
    else Filter(ps, (p: Product) => p.category == category)
  }

  /** The name matches the search term: the folded term is a substring of the folded name. */
  predicate NameMatches(name: string, q: string) {
    Contains(Lower(name), Lower(q))
  }

  /** The `WHERE` clause of the search for term `q`. */
  function MatchesTerm(q: string): Product -> bool {
    (p: Product) => NameMatches(p.name, q)
  }

  /** `GET /api/products/search?name=q`: `name LIKE '%q%' COLLATE NOCASE`, with a missing term read as "". */
  function Search(ps: seq<Product>, name: Option<string>): (r: seq<Product>)
    ensures forall p :: p in r ==> p in ps
  {
    Filter(ps, MatchesTerm(name.GetOr("")))
  }

  /** A missing or empty search term lists every product. */
  lemma SearchEmpty(ps: seq<Product>)
    ensures Search(ps, None) == ps
    ensures Search(ps, Some("")) == ps
  {
    FilterAll(ps, MatchesTerm(""));
  }

  /** A product is found exactly when the term occurs in its name, ignoring case. */
  lemma SearchIff(ps: seq<Product>, q: string, p: Product)
    ensures p in Search(ps, Some(q)) <==> p in ps && exists i :: OccursAt(Lower(p.name), Lower(q), i)
  {
    ContainsIff(Lower(p.name), Lower(q));
    assert Some(q).GetOr("") == q;
    assert MatchesTerm(q)(p) == Contains(Lower(p.name), Lower(q));
    assert p in Search(ps, Some(q)) <==> p in ps && MatchesTerm(q)(p);
  }

  lemma LowerIdempotent(s: string)
    ensures Lower(Lower(s)) == Lower(s)
  {
    assert forall i :: 0 <= i < |s| ==> Lower(Lower(s))[i] == Lower(s)[i];
  }

  /** The search ignores the case of the term: upper- or lower-casing it gives the same rows. */
  lemma SearchIgnoresCase(ps: seq<Product>, q: string)
    ensures Search(ps, Some(Upper(q))) == Search(ps, Some(q))
    ensures Search(ps, Some(Lower(q))) == Search(ps, Some(q))
  {
    LowerOfUpper(q);
    LowerIdempotent(q);
    FilterSame(ps, MatchesTerm(Upper(q)), MatchesTerm(q));
    FilterSame(ps, MatchesTerm(Lower(q)), MatchesTerm(q));
  }

  /** Searching for a product's whole name, in any case, finds it. */
  lemma SearchFindsOwnName(ps: seq<Product>, p: Product)
    requires p in ps
    ensures p in Search(ps, Some(p.name))
    ensures p in Search(ps, Some(Upper(p.name)))
  {
    assert Lower(p.name) <= Lower(p.name);
    SearchIgnoresCase(ps, p.name);
  }

  /** `a <= b` in the binary collation: `a` is a prefix of `b` or smaller at the first difference. */
  predicate StringLeq(a: string, b: string) {
    if a == [] then true
    else if b == [] then false
    else if a[0] != b[0] then a[0] < b[0]
    else StringLeq(a[1..], b[1..])
  }

  lemma {:induction false} StringLeqTotal(a: string, b: string)
    ensures StringLeq(a, b) || StringLeq(b, a)
  {
    if a != [] && b != [] && a[0] == b[0] {
      StringLeqTotal(a[1..], b[1..]);
    }
  }

  lemma {:induction false} StringLeqTransitive(a: string, b: string, c: string)
    requires StringLeq(a, b) && StringLeq(b, c)
    ensures StringLeq(a, c)
  {
    if a != [] && b != [] && c != [] && a[0] == b[0] && b[0] == c[0] {
      StringLeqTransitive(a[1..], b[1..], c[1..]);
    }
  }

  lemma {:induction false} StringLeqAntisymmetric(a: string, b: string)
    requires StringLeq(a, b) && StringLeq(b, a)
    ensures a == b
  {
    if a != [] && b != [] {
      StringLeqAntisymmetric(a[1..], b[1..]);
      assert a == [a[0]] + a[1..];
      assert b == [b[0]] + b[1..];
    }
  }

  /** Newest first: no entry is older than one after it (`ORDER BY change_date DESC`). */
  predicate NewestFirst(hs: seq<HistoryEntry>) {
    forall i, j :: 0 <= i < j < |hs| ==> StringLeq(hs[j].changeDate, hs[i].changeDate)
  }

  /** `h` placed before the first entry that is not newer than it. */
  function Insert(h: HistoryEntry, hs: seq<HistoryEntry>): (r: seq<HistoryEntry>)
    ensures multiset(r) == multiset(hs) + multiset{h}
    ensures |r| == |hs| + 1
  {
    if hs == [] then [h]
    else if StringLeq(hs[0].changeDate, h.changeDate) then [h] + hs
    else
      assert hs == [hs[0]] + hs[1..];
      [hs[0]] + Insert(h, hs[1..])
  }

  lemma {:induction false} InsertNewestFirst(h: HistoryEntry, hs: seq<HistoryEntry>)
    requires NewestFirst(hs)
    ensures NewestFirst(Insert(h, hs))
  {
    if hs == [] {
    } else if StringLeq(hs[0].changeDate, h.changeDate) {
      var r := [h] + hs;
      forall i, j | 0 <= i < j < |r| ensures StringLeq(r[j].changeDate, r[i].changeDate) {
        if i == 0 && j > 1 {
          StringLeqTransitive(r[j].changeDate, hs[0].changeDate, h.changeDate);
        }
      }
    } else {
      var top := hs[0].changeDate;
      InsertNewestFirst(h, hs[1..]);
      StringLeqTotal(top, h.changeDate);
      InsertNotNewer(h, hs[1..], top);
      PrependNewest(hs[0], Insert(h, hs[1..]));
    }
  }

  /** Inserting into entries no newer than `top` an entry no newer than `top` keeps them so. */
  lemma InsertNotNewer(h: HistoryEntry, hs: seq<HistoryEntry>, top: string)
    requires StringLeq(h.changeDate, top)
    requires forall k :: 0 <= k < |hs| ==> StringLeq(hs[k].changeDate, top)
    ensures forall k :: 0 <= k < |Insert(h, hs)| ==> StringLeq(Insert(h, hs)[k].changeDate, top)
  {
    var r := Insert(h, hs);
    forall k | 0 <= k < |r| ensures StringLeq(r[k].changeDate, top) {
      assert r[k] in multiset(hs) + multiset{h};
      if r[k] != h {
        assert r[k] in hs;
      }
    }
  }

  /** An entry at least as new as every entry of a newest-first list can go in front of it. */
  lemma PrependNewest(g: HistoryEntry, hs: seq<HistoryEntry>)
    requires NewestFirst(hs)
    requires forall k :: 0 <= k < |hs| ==> StringLeq(hs[k].changeDate, g.changeDate)
    ensures NewestFirst([g] + hs)
  {
    var r := [g] + hs;
    forall i, j | 0 <= i < j < |r| ensures StringLeq(r[j].changeDate, r[i].changeDate) {
      assert r[j] == hs[j - 1];
      if i > 0 {
        assert r[i] == hs[i - 1];
      }
    }
  }

  /** The entries of `hs` newest first, by insertion. */
  function SortNewestFirst(hs: seq<HistoryEntry>): (r: seq<HistoryEntry>)
    ensures multiset(r) == multiset(hs)
  {
    if hs == [] then []
    else
      assert hs == [hs[0]] + hs[1..];
      Insert(hs[0], SortNewestFirst(hs[1..]))
  }

  lemma {:induction false} SortIsNewestFirst(hs: seq<HistoryEntry>)
    ensures NewestFirst(SortNewestFirst(hs))
  {
    if hs != [] {
      SortIsNewestFirst(hs[1..]);
      InsertNewestFirst(hs[0], SortNewestFirst(hs[1..]));
    }
  }

  /** The `WHERE product_id = ?` clause of the history query. */
  function OfProduct(pid: int): HistoryEntry -> bool {
    (h: HistoryEntry) => h.productId == pid
  }

  /** `GET /api/products/:id/history`: the entries of product `pid`, newest first. */
  function HistoryFor(hs: seq<HistoryEntry>, pid: int): (r: seq<HistoryEntry>)
    ensures multiset(r) == multiset(Filter(hs, OfProduct(pid)))
  {
    SortNewestFirst(Filter(hs, OfProduct(pid)))
  }

  /**
   * The history of a product holds exactly its entries, each as often as it
   * was logged, ordered newest first.
   */
  lemma HistoryForSpec(hs: seq<HistoryEntry>, pid: int)
    ensures NewestFirst(HistoryFor(hs, pid))
    ensures forall h :: h in HistoryFor(hs, pid) <==> h in hs && h.productId == pid
    ensures |HistoryFor(hs, pid)| == |Filter(hs, OfProduct(pid))|
  {
    var sel := Filter(hs, OfProduct(pid));
    SortIsNewestFirst(sel);
    var r := HistoryFor(hs, pid);
    assert |r| == |multiset(r)| == |multiset(sel)| == |sel|;
    forall h ensures h in r <==> h in sel {
      assert h in r <==> h in multiset(r);
      assert h in sel <==> h in multiset(sel);
    }
  }

  /** An entry strictly older than another does not sort after it. */
  lemma StrictlyOlder(x: string, y: string)
    requires StringLeq(x, y) && x != y
    ensures !StringLeq(y, x)
  {
    if StringLeq(y, x) {
      StringLeqAntisymmetric(x, y);
    }
  }

  /**
   * When no two entries share a timestamp, the order is fully determined:
   * changes at T1 < T2 < T3 come back as T3, T2, T1.
   */
  lemma ThreeChangesNewestFirst(a: HistoryEntry, b: HistoryEntry, c: HistoryEntry)
    requires a.productId == b.productId == c.productId
    requires StringLeq(a.changeDate, b.changeDate) && a.changeDate != b.changeDate
    requires StringLeq(b.changeDate, c.changeDate) && b.changeDate != c.changeDate
    ensures HistoryFor([a, b, c], a.productId) == [c, b, a]
  {
    FilterAll([a, b, c], OfProduct(a.productId));
    SortThree(a, b, c);
  }

  lemma SortThree(a: HistoryEntry, b: HistoryEntry, c: HistoryEntry)
    requires StringLeq(a.changeDate, b.changeDate) && a.changeDate != b.changeDate
    requires StringLeq(b.changeDate, c.changeDate) && b.changeDate != c.changeDate
    ensures SortNewestFirst([a, b, c]) == [c, b, a]
  {
    StringLeqTransitive(a.changeDate, b.changeDate, c.changeDate);
    if a.changeDate == c.changeDate {
      StringLeqAntisymmetric(a.changeDate, b.changeDate);
    }
    StrictlyOlder(a.changeDate, b.changeDate);
    StrictlyOlder(b.changeDate, c.changeDate);
    StrictlyOlder(a.changeDate, c.changeDate);
    assert [b] + [c] == [b, c] && [a] + [b, c] == [a, b, c] && [c] + [b] == [c, b];
    SortCons(b, [c]);
    InsertLast(b, c);
    assert SortNewestFirst([b, c]) == [c, b];
    SortCons(a, [b, c]);
    InsertAfterBoth(a, c, b);
  }

  lemma SortCons(h: HistoryEntry, hs: seq<HistoryEntry>)
    ensures SortNewestFirst([h] + hs) == Insert(h, SortNewestFirst(hs))
  {
    assert ([h] + hs)[1..] == hs;
  }

  /** An entry older than the only other one goes after it. */
  lemma InsertLast(h: HistoryEntry, g: HistoryEntry)
    requires !StringLeq(g.changeDate, h.changeDate)
    ensures Insert(h, SortNewestFirst([g])) == [g, h]
  {
    assert SortNewestFirst([g]) == [g] by {
      assert [g][1..] == [];
    }
    assert [g][1..] == [];
  }

  /** An entry older than both of two others goes after them. */
  lemma InsertAfterBoth(h: HistoryEntry, g: HistoryEntry, f: HistoryEntry)
    requires !StringLeq(g.changeDate, h.changeDate) && !StringLeq(f.changeDate, h.changeDate)
    ensures Insert(h, [g, f]) == [g, f, h]
  {
    assert [g, f][1..] == [f] && [f][1..] == [];
    assert Insert(h, [f]) == [f, h];
    assert [g] + [f, h] == [g, f, h];
  }
}
