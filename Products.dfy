/** The product records and the pure logic of the route handlers
    (server.js:64-197): the callback-driven `filter` used by listing and
    search, `find`/`findIndex` by id, pagination, and the validation and
    field-merging rules of create and update. */
module Products {
  import opened Responses
  import opened JsValues
  import opened JsArrays

  /** A stored record. Apart from `id`, every field holds whatever the
      request body carried, since create only checks truthiness. */
  datatype Product = Product(id: string, name: JsVal, description: JsVal, price: JsVal, category: JsVal, inStock: JsVal)

  /** The fields destructured from a create or update body (`Undef` when absent). */
  datatype Body = Body(name: JsVal, description: JsVal, price: JsVal, category: JsVal, inStock: JsVal)

  /** The JSON answer of the listing route. */
  datatype ListPage = ListPage(page: int, total: nat, products: seq<Product>)

  /** The two filter callbacks of the source. */
  datatype Criterion =
    | CategoryIs(category: JsVal)   // listing, server.js:109
    | TextContains(query: JsVal)    // search, server.js:191-194

  // ---------------------------------------------------------------------
  // Filtering
  // ---------------------------------------------------------------------

  /** Running a filter callback on one product: `Ok(keep)`, or `Err` when it
      calls `toLowerCase` on something that is not a string and throws. The
      search callback evaluates the description only when the name missed. */
  function Test(c: Criterion, p: Product): (r: Result<bool>)
    ensures r.Err? ==> r.error == Internal
    ensures c.CategoryIs? ==> (r.Err? <==> !p.category.Str? || !c.category.Str?)
    ensures c.TextContains? && (!p.name.Str? || !c.query.Str?) ==> r.Err?
    ensures c.TextContains? && p.name.Str? && c.query.Str? ==>
      (r.Err? <==> !p.description.Str? && !Includes(Lower(p.name.s), Lower(c.query.s)))
  {
    match c
    case CategoryIs(cat) =>
      if !p.category.Str? || !cat.Str? then Err(Internal)
      else Ok(Lower(p.category.s) == Lower(cat.s))
    case TextContains(q) =>
      if !p.name.Str? || !q.Str? then Err(Internal)
      else if Includes(Lower(p.name.s), Lower(q.s)) then Ok(true)
      else if !p.description.Str? then Err(Internal)
      else Ok(Includes(Lower(p.description.s), Lower(q.s)))
  }

  /** The callback keeps `p`. */
  predicate Hit(c: Criterion, p: Product) {
    Test(c, p) == Ok(true)
  }

  /** `ps.filter(callback)`: the products the callback keeps, or the error
      that the first throwing call raises. */
  function Select(ps: seq<Product>, c: Criterion): (r: Result<seq<Product>>)
    ensures r.Ok? <==> forall p :: p in ps ==> Test(c, p).Ok?
    ensures r.Err? ==> r.error == Internal
    ensures r.Ok? ==> |r.value| <= |ps|
    ensures r.Ok? ==> forall p :: p in r.value <==> p in ps && Hit(c, p)
  {
    if ps == [] then Ok([])
    else
      match Test(c, ps[0])
      case Err(e) => Err(e)
      case Ok(keep) =>
        match Select(ps[1..], c)
        case Err(e) => Err(e)
        case Ok(rest) => Ok(if keep then [ps[0]] + rest else rest)
  }

  /** Filtering a concatenation filters each part and concatenates the
      results, so the kept products stay in their original order. */
  lemma {:induction false} SelectAppend(a: seq<Product>, b: seq<Product>, c: Criterion)
    ensures Select(a + b, c).Ok? <==> Select(a, c).Ok? && Select(b, c).Ok?
    ensures Select(a + b, c).Ok? ==> Select(a + b, c).value == Select(a, c).value + Select(b, c).value
  {
    if a == [] {
      assert a + b == b;
    } else {
      assert (a + b)[0] == a[0];
      assert (a + b)[1..] == a[1..] + b;
      SelectAppend(a[1..], b, c);
    }
  }

  /** On one product the filter keeps it exactly when the callback does. */
  lemma SelectOne(p: Product, c: Criterion)
    ensures Select([p], c) == match Test(c, p)
      case Err(e) => Err(e)
      case Ok(keep) => Ok(if keep then [p] else [])
  {
    assert [p][0] == p && [p][1..] == [];
    assert Select([], c) == Ok([]);
    match Test(c, p)
    case Err(e) =>
    case Ok(keep) =>
      assert [p] + [] == [p];
      assert Select([p], c) == Ok(if keep then [p] + [] else []);
  }

  /** Whether listing keeps a product: categories equal after lower-casing. */
  lemma CategoryHitIff(category: string, p: Product)
    requires p.category.Str?
    ensures Hit(CategoryIs(Str(category)), p) <==> Lower(p.category.s) == Lower(category)
  {
  }

  /** Whether search keeps a product whose name is a string: the lowered
      query occurs in the lowered name, or else in the lowered description. */
  lemma SearchHitIff(query: string, p: Product)
    requires p.name.Str?
    ensures Hit(TextContains(Str(query)), p) <==>
      Contains(Lower(p.name.s), Lower(query)) ||
      (p.description.Str? && Contains(Lower(p.description.s), Lower(query)))
  {
    IncludesIff(Lower(p.name.s), Lower(query));
    if p.description.Str? {
      IncludesIff(Lower(p.description.s), Lower(query));
    }
  }

  // ---------------------------------------------------------------------
  // GET /api/products
  // ---------------------------------------------------------------------

  /** The products the listing route pages through: all of them, or those
      of the requested category when `category` is truthy. */
  function Filtered(ps: seq<Product>, category: JsVal): (r: Result<seq<Product>>)
    ensures !Truthy(category) ==> r == Ok(ps)
    ensures r.Err? ==> r.error == Internal
    ensures Truthy(category) ==> (r.Err? <==> exists p :: p in ps && Test(CategoryIs(category), p).Err?)
    ensures r.Ok? ==> forall p :: p in r.value <==> p in ps && (Truthy(category) ==> Hit(CategoryIs(category), p))
  {
    if Truthy(category) then Select(ps, CategoryIs(category)) else Ok(ps)
  }

  /** The listing route for already-parsed `page` and `limit`. */
  function List(ps: seq<Product>, category: JsVal, page: int, limit: int): (r: Result<ListPage>)
    ensures r.Err? <==> Filtered(ps, category).Err?
    ensures r.Err? ==> r.error == Internal
    ensures r.Ok? ==> r.value.page == page && r.value.total == |Filtered(ps, category).value|
    ensures r.Ok? && 0 <= limit ==> |r.value.products| <= limit
    ensures r.Ok? ==> forall p :: p in r.value.products ==> p in Filtered(ps, category).value
  {
    match Filtered(ps, category)
    case Err(e) => Err(e)
    case Ok(filtered) =>
      var start := (page - 1) * limit;
      SliceLength(filtered, start, start + limit);
      Ok(ListPage(page, |filtered|, Slice(filtered, start, start + limit)))
  }

  /** For `page >= 1` and `limit >= 0` the listing returns items
      `(page-1)*limit` up to `page*limit` of the filtered products, cut off at their end. */
  lemma ListPageWindow(ps: seq<Product>, category: JsVal, page: int, limit: int)
    requires 1 <= page && 0 <= limit
    requires Filtered(ps, category).Ok?
    ensures var f := Filtered(ps, category).value;
      var start := (page - 1) * limit;
      var k := if start < |f| then start else |f|;
      var e := if start + limit < |f| then start + limit else |f|;
      List(ps, category, page, limit).value.products == f[k..e]
  {
    var f := Filtered(ps, category).value;
    var start := (page - 1) * limit;
    PageStart(page, limit);
    SliceForward(f, start, start + limit);
    assert List(ps, category, page, limit).value.products == Slice(f, start, start + limit);
  }

  /** The sign of the first index of a page, and where the page ends. */
  lemma PageStart(page: int, limit: int)
    ensures (page - 1) * limit + limit == page * limit
    ensures 1 <= page && 0 <= limit ==> 0 <= (page - 1) * limit
    ensures page < 0 && 0 < limit ==> (page - 1) * limit < page * limit < 0
    ensures page < 0 && limit <= 0 ==> 0 <= page * limit <= (page - 1) * limit
  {
    if page < 0 && 0 < limit {
      assert page * limit <= -limit;
    }
    if page < 0 && limit <= 0 {
      assert page * limit == (-page) * (-limit);
    }
  }

  /** From page 2 on, a negative limit puts the first index at or below the limit. */
  lemma LaterPageStart(page: int, limit: int)
    requires 2 <= page && limit < 0
    ensures (page - 1) * limit <= limit
  {
    var k := page - 2;
    assert k * limit <= 0;
    assert (page - 1) * limit == k * limit + limit;
  }

  /** Page 2 with limit 1 over three products is exactly the second one. */
  lemma ListSecondOfThree(a: Product, b: Product, c: Product)
    ensures List([a, b, c], Undef, 2, 1) == Ok(ListPage(2, 3, [b]))
  {
    ListPageWindow([a, b, c], Undef, 2, 1);
    assert [a, b, c][1..2] == [b];
  }

  /** Page 0 is always empty, whatever the limit. */
  lemma ListPageZero(ps: seq<Product>, category: JsVal, limit: int)
    requires Filtered(ps, category).Ok?
    ensures List(ps, category, 0, limit).value.products == []
  {
  }

  /** A negative page is not rejected: with a positive limit it selects a
      window counted back from the end of the filtered products. */
  lemma ListNegativePage(ps: seq<Product>, category: JsVal, page: int, limit: int)
    requires page < 0 && 0 < limit
    requires Filtered(ps, category).Ok?
    ensures var f := Filtered(ps, category).value;
      var k := if |f| + (page - 1) * limit < 0 then 0 else |f| + (page - 1) * limit;
      var e := if |f| + page * limit < 0 then 0 else |f| + page * limit;
      List(ps, category, page, limit).value.products == f[k..e]
  {
    var f := Filtered(ps, category).value;
    var start := (page - 1) * limit;
    PageStart(page, limit);
    SliceBackward(f, start, start + limit);
    assert List(ps, category, page, limit).value.products == Slice(f, start, start + limit);
  }

  /** With a zero or negative limit a negative page is always empty. */
  lemma ListNegativePageEmpty(ps: seq<Product>, category: JsVal, page: int, limit: int)
    requires page < 0 && limit <= 0
    requires Filtered(ps, category).Ok?
    ensures List(ps, category, page, limit).value.products == []
  {
    var f := Filtered(ps, category).value;
    var start := (page - 1) * limit;
    PageStart(page, limit);
    SliceLength(f, start, start + limit);
  }

  /** A stored record whose category is not a string makes every listing
      by a non-empty category fail with the 500 response. */
  lemma NonStringCategoryFails(ps: seq<Product>, category: string, page: int, limit: int, p: Product)
    requires category != [] && p in ps && !p.category.Str?
    ensures List(ps, Str(category), page, limit) == Err(Internal)
  {
  }

  /** Likewise, a stored record whose name is not a string makes every
      search fail with the 500 response. */
  lemma NonStringNameFails(ps: seq<Product>, query: string, p: Product)
    requires query != [] && p in ps && !p.name.Str?
    ensures Search(ps, Str(query)) == Err(Internal)
  {
  }

  /** A stored record whose name is a string that misses the query but
      whose description is not a string makes that search fail with the
      500 response: the description is lower-cased only after the name missed. */
  lemma NonStringDescriptionFails(ps: seq<Product>, query: string, p: Product)
    requires query != [] && p in ps && p.name.Str? && !p.description.Str?
    requires !Includes(Lower(p.name.s), Lower(query))
    ensures Search(ps, Str(query)) == Err(Internal)
  {
  }

  /** On page 2 or later a negative limit gives an empty page. */
  lemma ListLaterPageNegativeLimit(ps: seq<Product>, category: JsVal, page: int, limit: int)
    requires 2 <= page && limit < 0
    requires Filtered(ps, category).Ok?
    ensures List(ps, category, page, limit).value.products == []
  {
    var start := (page - 1) * limit;
    LaterPageStart(page, limit);
    SliceLength(Filtered(ps, category).value, start, start + limit);
  }

  /** A negative limit on page 1 is not rejected either: it drops the
      last `-limit` products instead of returning none. */
  lemma ListNegativeLimit(ps: seq<Product>, category: JsVal, limit: int)
    requires limit < 0
    requires Filtered(ps, category).Ok?
    ensures var f := Filtered(ps, category).value;
      List(ps, category, 1, limit).value.products == if |f| + limit <= 0 then [] else f[..|f| + limit]
  {
  }

  // ---------------------------------------------------------------------
  // Lookup by id
  // ---------------------------------------------------------------------

  /** `ps.findIndex(p => p.id === id)`. */
  function FindIndex(ps: seq<Product>, id: string): (i: int)
    ensures -1 <= i < |ps|
    ensures 0 <= i ==> ps[i].id == id && forall j :: 0 <= j < i ==> ps[j].id != id
    ensures i == -1 ==> forall j :: 0 <= j < |ps| ==> ps[j].id != id
  {
    if ps == [] then -1
    else if ps[0].id == id then 0
    else
      var k := FindIndex(ps[1..], id);
      if k < 0 then -1 else k + 1
  }

  /** `ps.find(p => p.id === id)`. */
  function Find(ps: seq<Product>, id: string): (r: Option<Product>)
    ensures r.None? <==> forall p :: p in ps ==> p.id != id
    ensures r.Some? ==> r.value in ps && r.value.id == id
  {
    if ps == [] then None
    else if ps[0].id == id then Some(ps[0])
    else Find(ps[1..], id)
  }

  /** `find` returns the element at the index `findIndex` reports, so it is
      the first product carrying the id. */
  lemma {:induction false} FindAtFindIndex(ps: seq<Product>, id: string)
    ensures Find(ps, id) == if FindIndex(ps, id) < 0 then None else Some(ps[FindIndex(ps, id)])
  {
    if ps != [] && ps[0].id != id {
      FindAtFindIndex(ps[1..], id);
    }
  }

  /** GET /api/products/:id. */
  function GetById(ps: seq<Product>, id: string): (r: Result<Product>)
    ensures r.Err? <==> forall p :: p in ps ==> p.id != id
    ensures r.Err? ==> r.error == NotFound
    ensures r.Ok? ==> r.value in ps && r.value.id == id
    ensures r.Ok? ==> r.value == ps[FindIndex(ps, id)]
  {
    FindAtFindIndex(ps, id);
    match Find(ps, id)
    case None => Err(NotFound)
    case Some(p) => Ok(p)
  }

  /** No two products share an id. */
  predicate UniqueIds(ps: seq<Product>) {
    forall i, j :: 0 <= i < j < |ps| ==> ps[i].id != ps[j].id
  }

  /** After appending a product with a fresh id, looking that id up finds
      it, and every other lookup is unaffected. */
  lemma {:induction false} FindAfterAppend(ps: seq<Product>, p: Product, id: string)
    requires forall q :: q in ps ==> q.id != p.id
    ensures Find(ps + [p], id) == if id == p.id then Some(p) else Find(ps, id)
  {
    if ps == [] {
      assert ps + [p] == [p];
    } else {
      assert (ps + [p])[0] == ps[0];
      assert (ps + [p])[1..] == ps[1..] + [p];
      FindAfterAppend(ps[1..], p, id);
    }
  }

  /** With unique ids, removing the product `findIndex` reports leaves no
      product with that id. */
  lemma FindAfterRemove(ps: seq<Product>, id: string)
    requires UniqueIds(ps)
    requires 0 <= FindIndex(ps, id)
    ensures Find(RemoveAt(ps, FindIndex(ps, id)), id) == None
  {
    var i := FindIndex(ps, id);
    var r := RemoveAt(ps, i);
    forall q | q in r
      ensures q.id != id
    {
      var j :| 0 <= j < |r| && r[j] == q;
      if j >= i {
        assert r[j] == ps[j + 1];
      }
    }
  }

  // ---------------------------------------------------------------------
  // POST /api/products
  // ---------------------------------------------------------------------

  /** The create route's check: name, description and category truthy, price a number. */
  predicate CreateAccepts(b: Body)
    ensures CreateAccepts(b) ==> b.price.Num?
    ensures CreateAccepts(b) ==> b.name !in {Undef, Null, Str("")} && b.description !in {Undef, Null, Str("")}
    ensures CreateAccepts(b) ==> b.category !in {Undef, Null, Str("")}
    ensures b.name.Str? && b.description.Str? && b.category.Str? && b.price.Num? ==>
      (CreateAccepts(b) <==> b.name.s != [] && b.description.s != [] && b.category.s != [])
  {
    Truthy(b.name) && Truthy(b.description) && b.price.Num? && Truthy(b.category)
  }

  /** The record create stores for `b` under `id`. */
  function NewProduct(b: Body, id: string): (p: Product)
    ensures p.id == id
    ensures p.name == b.name && p.description == b.description && p.price == b.price && p.category == b.category
    ensures p.inStock != Undef
    ensures b.inStock == Undef ==> p.inStock == Bool(true)
    ensures b.inStock != Undef ==> p.inStock == b.inStock
  {
    Product(id, b.name, b.description, b.price, b.category, if b.inStock != Undef then b.inStock else Bool(true))
  }

  // ---------------------------------------------------------------------
  // PUT /api/products/:id
  // ---------------------------------------------------------------------

  /** Every supplied field has the type the record expects. */
  predicate WellTyped(b: Body) {
    && (b.name.Undef? || b.name.Str?)
    && (b.description.Undef? || b.description.Str?)
    && (b.price.Undef? || b.price.Num?)
    && (b.category.Undef? || b.category.Str?)
    && (b.inStock.Undef? || b.inStock.Bool?)
  }

  /** The update route's type check: a truthy value of the wrong type, or a
      defined non-boolean `inStock`. */
  predicate UpdateRejects(b: Body)
    ensures WellTyped(b) ==> !UpdateRejects(b)
    ensures b.inStock != Undef && !b.inStock.Bool? ==> UpdateRejects(b)
    ensures !Truthy(b.name) && !Truthy(b.description) && !Truthy(b.price) && !Truthy(b.category) ==>
      (UpdateRejects(b) <==> b.inStock != Undef && !b.inStock.Bool?)
  {
    || (Truthy(b.name) && !b.name.Str?)
    || (Truthy(b.description) && !b.description.Str?)
    || (Truthy(b.price) && !b.price.Num?)
    || (Truthy(b.category) && !b.category.Str?)
    || (b.inStock != Undef && !b.inStock.Bool?)
  }

  /** The in-place partial overwrite: text fields when truthy, `price` and
      `inStock` whenever defined. */
  function Patch(p: Product, b: Body): (q: Product)
    ensures q.id == p.id
    ensures q.name == (if Truthy(b.name) then b.name else p.name)
    ensures q.description == (if Truthy(b.description) then b.description else p.description)
    ensures q.category == (if Truthy(b.category) then b.category else p.category)
    ensures q.price == (if b.price == Undef then p.price else b.price)
    ensures q.inStock == (if b.inStock == Undef then p.inStock else b.inStock)
  {
    p.(name := if Truthy(b.name) then b.name else p.name,
       description := if Truthy(b.description) then b.description else p.description,
       price := if b.price != Undef then b.price else p.price,
       category := if Truthy(b.category) then b.category else p.category,
       inStock := if b.inStock != Undef then b.inStock else p.inStock)
  }

  /** An empty body, or one whose text fields are all falsy and whose price
      and stock flag are absent, changes nothing. */
  lemma PatchNoOp(p: Product, b: Body)
    requires !Truthy(b.name) && !Truthy(b.description) && !Truthy(b.category)
    requires b.price == Undef && b.inStock == Undef
    ensures Patch(p, b) == p
  {
  }

  /** Applying the same update twice is the same as applying it once. */
  lemma PatchIdempotent(p: Product, b: Body)
    ensures Patch(Patch(p, b), b) == Patch(p, b)
  {
  }

  /** An accepted update never writes a non-string into name, description or
      category, nor a non-boolean into `inStock`. */
  lemma PatchKeepsTypes(p: Product, b: Body)
    requires !UpdateRejects(b)
    requires p.name.Str? && p.description.Str? && p.category.Str? && p.inStock.Bool?
    ensures Patch(p, b).name.Str? && Patch(p, b).description.Str? && Patch(p, b).category.Str?
    ensures Patch(p, b).inStock.Bool?
  {
  }

  /** The price is the exception: its type is checked only when truthy but
      it is written whenever defined, so a falsy non-number such as `""`
      passes the check and replaces a numeric price. */
  lemma PatchCanStoreNonNumericPrice()
    ensures exists p: Product, b: Body :: p.price.Num? && !UpdateRejects(b) && !Patch(p, b).price.Num?
  {
    var p := Product("1", Str("Laptop"), Str("laptop"), Num(1200), Str("electronics"), Bool(true));
    var b := Body(Undef, Undef, Str(""), Undef, Undef);
    assert p.price.Num? && !UpdateRejects(b) && !Patch(p, b).price.Num?;
  }

  /** With unique ids, after patching the product `findIndex` reports,
      looking its id up yields the patched record. */
  lemma FindAfterPatch(ps: seq<Product>, id: string, b: Body)
    requires UniqueIds(ps)
    requires 0 <= FindIndex(ps, id)
    ensures var i := FindIndex(ps, id);
      Find(ps[i := Patch(ps[i], b)], id) == Some(Patch(ps[i], b))
  {
    var i := FindIndex(ps, id);
    var qs := ps[i := Patch(ps[i], b)];
    FindAtFindIndex(qs, id);
    assert FindIndex(qs, id) == i by {
      FindIndexUnique(qs, id, i);
    }
  }

  /** The only index holding `id` is the one `findIndex` reports. */
  lemma FindIndexUnique(ps: seq<Product>, id: string, i: int)
    requires 0 <= i < |ps| && ps[i].id == id
    requires forall j :: 0 <= j < |ps| && j != i ==> ps[j].id != id
    ensures FindIndex(ps, id) == i
  {
  }

  // ---------------------------------------------------------------------
  // GET /api/products/search
  // ---------------------------------------------------------------------

  /** The search route: a falsy query is a bad request, otherwise the products
      whose name or description contains it, ignoring case. */
  function Search(ps: seq<Product>, query: JsVal): (r: Result<seq<Product>>)
    ensures !Truthy(query) ==> r == Err(QueryRequired)
    ensures Truthy(query) && r.Err? ==> r.error == Internal
    ensures Truthy(query) ==> (r.Err? <==> exists p :: p in ps && Test(TextContains(query), p).Err?)
    ensures r.Ok? ==> forall p :: p in r.value <==> p in ps && Hit(TextContains(query), p)
  {
    if !Truthy(query) then Err(QueryRequired) else Select(ps, TextContains(query))
  }
}
