/** The module-level `products` array of server.js and the three handlers
    that change it in place: create (`push`), update (field writes on the
    found record) and delete (`splice`). */
module Store {
  import opened Responses
  import opened JsValues
  import opened JsArrays
  import opened Products

  /** The records the server starts with (server.js:64-89). */
  const Seed: seq<Product> := [
    Product("1", Str("Laptop"), Str("High-performance laptop with 16GB RAM"), Num(1200), Str("electronics"), Bool(true)),
    Product("2", Str("Smartphone"), Str("Latest model with 128GB storage"), Num(800), Str("electronics"), Bool(true)),
    Product("3", Str("Coffee Maker"), Str("Programmable coffee maker with timer"), Num(50), Str("kitchen"), Bool(false))
  ]

  class ProductStore {
    /** The records, in insertion order. */
    var products: seq<Product>

    constructor ()
      ensures products == Seed
      ensures UniqueIds(products)
    {
      products := Seed;
    }

    /** POST /api/products, with `newId` standing for the generated uuid. */
    method Create(b: Body, newId: string) returns (r: Result<Product>)
      modifies this
      ensures !CreateAccepts(b) ==> r == Err(MissingFields) && products == old(products)
      ensures CreateAccepts(b) ==> r == Ok(NewProduct(b, newId)) && products == old(products) + [r.value]
      ensures (forall p :: p in old(products) ==> p.id != newId) ==>
        (UniqueIds(old(products)) ==> UniqueIds(products)) &&
        (CreateAccepts(b) ==> Find(products, newId) == Some(r.value))
    {
      if !CreateAccepts(b) {
        return Err(MissingFields);
      }
      var p := NewProduct(b, newId);
      if forall q :: q in products ==> q.id != newId {
        FindAfterAppend(products, p, newId);
      }
      products := products + [p];
      r := Ok(p);
    }

    /** PUT /api/products/:id: a missing id is reported before a type
        mismatch, and neither changes the store. */
    method Update(id: string, b: Body) returns (r: Result<Product>)
      modifies this
      ensures FindIndex(old(products), id) < 0 ==> r == Err(NotFound) && products == old(products)
      ensures 0 <= FindIndex(old(products), id) && UpdateRejects(b) ==>
        r == Err(InvalidTypes) && products == old(products)
      ensures 0 <= FindIndex(old(products), id) && !UpdateRejects(b) ==>
        var i := FindIndex(old(products), id);
        r == Ok(Patch(old(products)[i], b)) && products == old(products)[i := r.value]
      ensures UniqueIds(old(products)) ==> UniqueIds(products)
      ensures UniqueIds(old(products)) && r.Ok? ==> Find(products, id) == Some(r.value)
    {
      var i := FindIndex(products, id);
      if i < 0 {
        return Err(NotFound);
      }
      if UpdateRejects(b) {
        return Err(InvalidTypes);
      }
      var q := Patch(products[i], b);
      if UniqueIds(products) {
        FindAfterPatch(products, id, b);
      }
      products := products[i := q];
      r := Ok(q);
    }

    /** DELETE /api/products/:id: removes the first record with the id and
        returns it. */
    method Delete(id: string) returns (r: Result<Product>)
      modifies this
      ensures FindIndex(old(products), id) < 0 ==> r == Err(NotFound) && products == old(products)
      ensures 0 <= FindIndex(old(products), id) ==>
        var i := FindIndex(old(products), id);
        r == Ok(old(products)[i]) && products == RemoveAt(old(products), i)
      ensures UniqueIds(old(products)) ==> UniqueIds(products) && Find(products, id) == None
    {
      var i := FindIndex(products, id);
      if i < 0 {
        return Err(NotFound);
      }
      var deleted := products[i];
      var rest := RemoveAt(products, i);
      if UniqueIds(products) {
        DeleteKeepsUnique(products, id);
      }
      products := rest;
      r := Ok(deleted);
    }
  }

  /** With unique ids, deleting the record `findIndex` reports keeps ids
      unique and leaves no record with the deleted id. */
  lemma DeleteKeepsUnique(ps: seq<Product>, id: string)
    requires UniqueIds(ps)
    requires 0 <= FindIndex(ps, id)
    ensures UniqueIds(RemoveAt(ps, FindIndex(ps, id)))
    ensures Find(RemoveAt(ps, FindIndex(ps, id)), id) == None
  {
    FindAfterRemove(ps, id);
    RemoveKeepsUnique(ps, FindIndex(ps, id));
  }

  /** Removing an element keeps ids unique. */
  lemma RemoveKeepsUnique(ps: seq<Product>, i: int)
    requires 0 <= i < |ps|
    requires UniqueIds(ps)
    ensures UniqueIds(RemoveAt(ps, i))
  {
    var r := RemoveAt(ps, i);
    forall j, k | 0 <= j < k < |r|
      ensures r[j].id != r[k].id
    {
      var j' := if j < i then j else j + 1;
      var k' := if k < i then k else k + 1;
      assert r[j] == ps[j'] && r[k] == ps[k'];
    }
  }
}
