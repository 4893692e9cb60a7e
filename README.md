# Product API core in Dafny

A model of the request-handling core of a small Express product API
(`server.js`). It has two parts. The first is the API-key middleware that
every request passes before any route runs. The second is the in-memory
`products` array together with the handlers that query and change it:

- list, with a category filter and pagination;
- get by id, create, update and delete;
- search.

Modules:

- `Responses`: the error responses (status and message, as the handlers send them) and `Result`/`Option`.
- `JsValues`: dynamically typed body and query values (`JsVal`), JavaScript truthiness, and ASCII
  `toLowerCase`, `startsWith` and `includes`, with `includes` proved equal to "occurs as a substring".
- `JsArrays`: `Array.prototype.slice` with its negative-index and clamping rules, and `splice(i, 1)`.
- `Auth`: the middleware's decision for a path, an optional `Authorization` header and the configured key.
- `Products`: the record type, filtering with a callback that may throw (a `toLowerCase` call on a
  non-string), listing and pagination, `find`/`findIndex`, the create and update validation rules, the
  partial overwrite of update, and search.
- `Store`: class `ProductStore` holds the `products` sequence. Its methods `Create`, `Update` and `Delete`
  change it in place. Each method states the new contents in terms of the old ones, states that every
  error path leaves the store unchanged, and states that ids stay unique.

Behaviour of the source that the model makes explicit:

- Create checks only that name, description and category are truthy. A record can therefore hold a
  non-string name or category. Listing by category, or searching, then calls `toLowerCase` on that value
  and throws, and the global error handler answers 500. The model returns `Err(Internal)` in that case.
  Search evaluates the description only when the name does not match.
- Update checks the price's type only when the price is truthy, but writes the price whenever it is
  defined. A falsy non-number such as `""` therefore replaces a numeric price
  (`PatchCanStoreNonNumericPrice`). Falsy name, description and category values are ignored.
- `page` and `limit` are never clamped. Page 0 is empty. With a positive limit, a negative page counts
  windows back from the end; with a zero or negative limit it is empty. On page 1 a negative limit drops
  the last `-limit` products; on page 2 or later a negative limit gives an empty page.
- A key that itself begins with `Bearer ` cannot be sent raw, because the prefix is stripped first.
- The search route is registered after `/api/products/:id`. With first-match routing,
  `GET /api/products/search` is answered by the id handler, so `Search` models the handler's logic
  without any claim that a request reaches it.
- The error messages follow the code: "Unauthorized. No API key provided.", "Unauthorized. Invalid API
  key.", "Product not found", "Missing or invalid fields", "Invalid input types" and "Search query is
  required".

## Model

| member | source | states |
|---|---|---|
| `JsValues.Truthy` | server.js:133 | a value is truthy iff it is not one of `undefined`, `null`, `false`, `0` and `""`; this is the test behind `!x` and `if (x)` at lines 41, 108, 133, 158-161, 168-171 and 189 |
| `JsValues.Lower` | server.js:109 | ASCII `toLowerCase` keeps the length and leaves no upper-case letter; used at lines 109 and 192-193 |
| `JsValues.StartsWith` | server.js:46 | a string that starts with a prefix is that prefix followed by its rest |
| `JsValues.StartsWithConcat` | server.js:46 | conversely, a prefix followed by anything starts with that prefix |
| `JsValues.Includes` | server.js:192-193 | `includes` implies the substring is no longer than the string, and the empty string is included in every string |
| `JsValues.LowerAt` | server.js:109 | ASCII `toLowerCase` maps upper-case letters to lower case and keeps every other character |
| `JsValues.LowerIdempotent` | server.js:109 | lower-casing twice equals lower-casing once |
| `JsValues.IncludesIff` | server.js:192-193 | `includes` holds iff the substring occurs at some position |
| `JsArrays.ClampIndex` | server.js:113 | the position `slice` derives from a relative index lies in `[0, len]` and equals the index when it already lies there |
| `JsArrays.ClampBetween` | server.js:113 | clamping two ordered indices never moves them further apart |
| `JsArrays.Slice` | server.js:113 | a slice is no longer than its source and holds only its elements |
| `JsArrays.SliceLength` | server.js:113 | a slice has at most `end - start` elements; with `end < start` it is empty unless only `end` is negative |
| `JsArrays.SliceIsWindow` | server.js:113 | a slice is the contiguous run of the source that starts at the clamped start |
| `JsArrays.SliceForward` | server.js:113 | with `0 <= start <= end` a slice is `[start, end)` cut off at the end |
| `JsArrays.SliceBackward` | server.js:113 | with negative bounds a slice is the window counted from the end |
| `JsArrays.RemoveAt` | server.js:182 | `splice(i, 1)` drops exactly element `i`, shifts the later ones down by one and keeps the rest as a multiset |
| `Auth.ApiKey` | server.js:27 | the key in force is the environment's key when non-empty, otherwise `secret-api-key`, and it is never empty |
| `Auth.Token` | server.js:46-48 | a header starting with `Bearer ` is that prefix followed by the token; any other header is its own token |
| `Auth.IsPublic` | server.js:30 | exactly the paths `/` and `/favicon.ico` are public |
| `Auth.Gate` | server.js:30-55 | public paths always pass, and every refusal is a 401 |
| `Auth.MissingHeaderDenied` | server.js:38-43 | on a protected path a missing or empty header is refused with "No API key provided" |
| `Auth.GateIff` | server.js:34-54 | a request passes iff its path is public or its token equals the key; otherwise a present header gets "Invalid API key" |
| `Auth.BearerKeyAccepted` | server.js:46-51 | `Bearer <key>` is always accepted |
| `Auth.RawKeyAccepted` | server.js:46-51 | a raw key is accepted when it is non-empty and does not begin with `Bearer ` |
| `Auth.RawBearerKeyRefused` | server.js:46-54 | a key beginning with `Bearer ` sent raw is refused as invalid |
| `Products.Test` | server.js:191-194 | a filter callback throws, giving the 500 response, exactly when `toLowerCase` meets a non-string: for listing iff the stored or requested category is not a string; for search iff the name or query is not a string, or the name misses the query and the description is not a string |
| `Products.Select` | server.js:109 | `filter` succeeds iff no callback throws, and then keeps exactly the products the callback accepts and no more than it was given |
| `Products.SelectAppend` | server.js:109 | filtering a concatenation is the concatenation of the filtered parts, so insertion order is kept |
| `Products.SelectOne` | server.js:109 | on one product the filter keeps it exactly when the callback does |
| `Products.CategoryHitIff` | server.js:109 | listing keeps a product iff its category equals the filter after lower-casing both |
| `Products.SearchHitIff` | server.js:191-194 | search keeps a product iff the lowered query occurs in its lowered name, or else in its lowered description |
| `Products.Filtered` | server.js:106-110 | a falsy category keeps every product; otherwise only products of that category are kept, and it fails iff the callback throws on some product |
| `Products.List` | server.js:101-120 | the page is echoed, `total` counts all filtered products, the page has at most `limit` of them, and it fails only when the filter throws |
| `Products.ListPageWindow` | server.js:112-113 | for `page >= 1` and `limit >= 0` the page is items `(page-1)*limit` to `page*limit` of the filtered products |
| `Products.ListSecondOfThree` | server.js:112-118 | page 2 with limit 1 over three products returns the second product and a total of 3 |
| `Products.ListPageZero` | server.js:112-113 | page 0 is empty for every limit, negative ones included |
| `Products.ListNegativePage` | server.js:112-113 | with a positive limit, a negative page selects a window counted back from the end |
| `Products.ListNegativePageEmpty` | server.js:112-113 | with a zero or negative limit, a negative page is empty |
| `Products.NonStringCategoryFails` | server.js:106-113 | listing by a non-empty category fails with the 500 response when some stored category is not a string |
| `Products.NonStringNameFails` | server.js:187-194 | searching for a non-empty query fails with the 500 response when some stored name is not a string |
| `Products.NonStringDescriptionFails` | server.js:191-194 | a non-empty search fails with the 500 response when some stored product has a string name that misses the query and a non-string description |
| `Products.ListLaterPageNegativeLimit` | server.js:112-113 | on page 2 or later a negative limit gives an empty page |
| `Products.ListNegativeLimit` | server.js:112-113 | on page 1 a negative limit returns all but the last `-limit` products |
| `Products.FindIndex` | server.js:179 | `findIndex` returns the first index with the id, or -1 when no product has it |
| `Products.Find` | server.js:124 | `find` returns a product with the id, or nothing iff no product has it |
| `Products.FindAtFindIndex` | server.js:124 | `find` returns the element at the index `findIndex` reports, so it returns the first match |
| `Products.GetById` | server.js:123-127 | the answer is 404 iff no product has the id; otherwise it is the first stored product with that id |
| `Products.FindAfterAppend` | server.js:146 | after appending a record with a fresh id, looking up that id finds it and every other lookup is unchanged |
| `Products.FindAfterRemove` | server.js:179-182 | with unique ids, after the splice no product has the deleted id |
| `Products.CreateAccepts` | server.js:133 | an accepted body has a numeric price and a name, description and category that are not `undefined`, `null` or `""`; with string fields and a numeric price it is accepted iff the three strings are non-empty |
| `Products.NewProduct` | server.js:137-144 | the new record carries the given id and the body's fields; `inStock` is the body's value whenever defined (`false` and `null` included) and `true` when absent |
| `Products.UpdateRejects` | server.js:157-163 | a body whose supplied fields have the right types is never rejected, a defined non-boolean `inStock` always is, and a body whose other fields are all falsy is rejected only for its `inStock` |
| `Products.Patch` | server.js:168-172 | update never changes the id; text fields are overwritten only by truthy values; price and `inStock` are overwritten by any defined value |
| `Products.PatchNoOp` | server.js:168-172 | a body with falsy text fields and no price or `inStock` changes nothing |
| `Products.PatchIdempotent` | server.js:168-172 | applying one update twice equals applying it once |
| `Products.PatchKeepsTypes` | server.js:157-172 | an accepted update keeps string text fields and a boolean `inStock` |
| `Products.PatchCanStoreNonNumericPrice` | server.js:160-170 | some accepted update replaces a numeric price with a non-number |
| `Products.FindIndexUnique` | server.js:179 | when only one index holds the id, `findIndex` returns it |
| `Products.FindAfterPatch` | server.js:152-172 | with unique ids, after an update looking up the id yields the updated record |
| `Products.Search` | server.js:187-197 | a falsy query is a 400; otherwise the results are exactly the matching products, and it fails with the 500 response iff the callback throws on some product |
| `Store.ProductStore.constructor` | server.js:64-89 | the store starts with the three seed records, and their ids are unique |
| `Store.ProductStore.Create` | server.js:130-148 | an invalid body is a 400 and leaves the store unchanged; otherwise exactly the new record is appended; with a fresh id, ids stay unique and the new id finds the new record |
| `Store.ProductStore.Update` | server.js:151-175 | an unknown id is a 404 and a type mismatch a 400, and neither changes the store; otherwise only the first record with the id is replaced by its patch; ids stay unique and the id finds the patched record |
| `Store.ProductStore.Delete` | server.js:178-184 | an unknown id is a 404 and leaves the store unchanged; otherwise the first record with the id is removed and returned, the others keep their order, and with unique ids no record with that id remains |
| `Store.RemoveKeepsUnique` | server.js:182 | removing one record keeps ids unique |

## Left out

- Express setup, `dotenv`, `body-parser`, `app.listen` and the exported app: framework and I/O wiring.
- The request logger: it only reads the clock and writes to the console before calling `next()`.
- The global error handler is not modelled as code. Its effect, a 500 with "Internal Server Error" for any
  throw, is the `Internal` error returned where a handler would throw.
- Route matching and registration order. The read routes (list, get by id, search) are modelled as
  functions of the store's contents, which makes it evident that they leave the store unchanged. The
  mutating routes are the methods of `ProductStore`.
- Success status codes (200, 201) and the JSON envelopes, including the constant "Product deleted"
  message of delete. Each handler returns its payload in `Ok`.
- `uuidv4()`: the new id is a parameter of `Create`. Id uniqueness is proved for the case where that id
  is not already in the store.
- `parseInt` of `page` and `limit`, their query-string defaults (1 and 10), and `NaN`: the list function
  takes already-parsed integers.
- Unicode case mapping: `toLowerCase` is modelled on ASCII letters only.
- Numbers are integers. Floating point, `NaN` and `Infinity` are not modelled.
- Records are values in a sequence. The source mutates the found object in place, and the array is the
  only holder of that object, so replacing the element is equivalent. Aliasing is not modelled.
- Concurrency: Node runs handlers one at a time, and the model treats each handler as one atomic step.
