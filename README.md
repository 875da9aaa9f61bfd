# Product filter and sort pipeline of the mini e-commerce storefront

This project models the only computation in the storefront's `AppContent`
component: the `filteredProducts` value (App.js:46-72). It takes the product
catalog and the filter state `{search, category, sort}`, copies the catalog,
and then applies three stages in order:

1. **Search.** If `search` is non-empty, it keeps the products whose
   lower-cased title contains the lower-cased search text.
2. **Category.** If `category` is non-empty, it keeps the products whose
   category equals it exactly. This comparison is case-sensitive.
3. **Sort.** If `sort` is `"low-high"`, it sorts by price with the comparator
   `a.price - b.price`. If it is `"high-low"`, it uses `b.price - a.price`.
   Any other value keeps the order.

The sort is `Array.prototype.sort`. ECMA-262 has required it to be stable
since the 2019 edition (the section "Array.prototype.sort ( comparefn )"). So products the comparator calls
equal keep the order they had.

Modules, one per concern:

- `Text` (text.dfy): `toLowerCase` restricted to ASCII (`LowerChar`,
  `ToLower`). `includes` (`Includes`) is proved equal to an existential over
  offsets (`Contains`).
- `Seqs` (seqs.dfy): `Array.prototype.filter` as `Filter`, and
  order-preserving subsequence as `Subseq`.
- `Products` (products.dfy): the product record.
- `PriceSort` (price_sort.dfy): the comparator (`Compare`) and a reference
  stable sort (`StableSort`, an insertion sort over sequences). It holds its
  properties: sorted, a permutation, and stable. Stable is stated as
  `SamePriceOrder`: for every price, the products of that price appear in
  the same order. It also holds a uniqueness theorem and the in-place sort
  of the array (`SortByPrice`, `InsertLast`).
- `ProductFilter` (product_filter.dfy): the filter record, the three stages,
  the pipeline as a function (`Pipeline`), and an independent description of
  which products get through (`Selected`). `FilteredProducts` is the
  imperative pipeline. It copies the input array, filters, and sorts the
  copy in place. It is proved to produce `Pipeline`'s value.

The filter functions are pure, like the `.filter` calls they model. The sort
is a method that changes an array in place, like `result.sort(...)`. The
original input array is never modified, because `FilteredProducts` has no
`modifies` clause and works on a fresh copy.

Stability theorem. `StableSortCharacterized` proves that a sequence equals
`StableSort(s, d)` exactly when two things hold. It is sorted under the
comparator, and it keeps the per-price order of `s`. So the result does not
depend on insertion sort being the algorithm. Any stable sort, as ECMA-262
requires, gives the same output.

## Model

| member | source | states |
|---|---|---|
| `Text.ToLower` | App.js:51-53 | `toLowerCase` keeps the length, and each character is its ASCII lower-case form |
| `Text.ToLowerIdempotent` | App.js:51-53 | lower-casing an already lower-cased string changes nothing |
| `Text.Includes` | App.js:53 | `includes` is true exactly when the text occurs at some offset |
| `Seqs.Filter` | App.js:52-54 | `filter` never gives a longer list |
| `Seqs.FilterCount` | App.js:52-54 | `filter` keeps every copy of a passing element and no copy of a failing one |
| `Seqs.FilterMembers` | App.js:59-61 | an element is in the filtered list exactly when it is in the input and passes |
| `Seqs.FilterIsSubseq` | App.js:52-54 | the filtered list is an order-preserving subsequence of the input |
| `Seqs.SubseqTrans` | App.js:52-61 | filtering twice in a row still gives a subsequence of the original |
| `PriceSort.StableSortPermutes` | App.js:66-68 | the sort holds the same multiset of products as its input |
| `PriceSort.StableSortSorted` | App.js:66-68 | any two products of the result are in comparator order |
| `PriceSort.StableSortStable` | App.js:66-68 | for every price, the products of that price keep their relative order |
| `PriceSort.SamePriceOrderPermutes` | App.js:65-69 | keeping the per-price order implies being a permutation |
| `PriceSort.SortedStableUnique` | App.js:65-69 | two comparator-sorted lists with the same per-price order are equal |
| `PriceSort.StableSortCharacterized` | App.js:65-69 | a list is the sort's result exactly when it is sorted and keeps the per-price order of the input |
| `PriceSort.InsertLast` | App.js:66 | one insertion pass on the array puts `a[i]` into the sorted prefix and leaves the rest alone |
| `PriceSort.SortByPrice` | App.js:65-69 | the in-place sort leaves the array equal to the stable sort of its old contents: sorted, a permutation, and stable |
| `ProductFilter.SortRequested` | App.js:65-69 | `"low-high"` asks for ascending, `"high-low"` for descending, and anything else for no sort |
| `ProductFilter.SearchStageCount` | App.js:50-55 | with a search text, exactly the products whose lower-cased title contains the lower-cased text remain, copy for copy; with an empty one, all remain |
| `ProductFilter.CategoryStageCount` | App.js:58-62 | with a category, exactly the products of that category (exact, case-sensitive match) remain; with an empty one, all remain |
| `ProductFilter.FilterStagesCount` | App.js:49-62 | the two filters together keep exactly the `Selected` products |
| `ProductFilter.FilterStagesSubseq` | App.js:47-62 | the two filters keep catalog order |
| `ProductFilter.SortStagePermutes` | App.js:64-69 | the sort stage only reorders |
| `ProductFilter.PipelineCount` | App.js:46-72 | the output holds each selected product as often as the catalog does, and no other product |
| `ProductFilter.PipelineMembers` | App.js:46-72 | a product is displayed exactly when it is in the catalog and passes the search and category tests |
| `ProductFilter.PipelineIdentity` | App.js:47-71 | with empty search, empty category and no recognised sort, the output is the catalog itself, in order |
| `ProductFilter.PipelineUnsortedSubseq` | App.js:47-62 | without a recognised sort, the output is the filtered list, an order-preserving subsequence of the catalog |
| `ProductFilter.PipelineOrdered` | App.js:65-69 | `"low-high"` gives non-decreasing prices and `"high-low"` gives non-increasing prices |
| `ProductFilter.PipelineStable` | App.js:65-69 | in either direction, products of equal price keep their filtered order, which is their catalog order |
| `ProductFilter.PipelineLength` | App.js:46-72 | the output is never longer than the catalog, and an empty catalog gives an empty output |
| `ProductFilter.ShoeSearchExample` | App.js:46-72 | searching `"shoe"` sorted `"low-high"` over Red Shoe (50), Blue Shoe (30) and Hat (20) gives Blue Shoe, then Red Shoe |
| `ProductFilter.FilteredProducts` | App.js:46-72 | the method returns a fresh array equal to `Pipeline` of the input, and leaves the input array unchanged |

## Left out

- Catalog loading (App.js:22-38). It is asynchronous network I/O with a
  fallback to `mockProducts`, and `fetchProducts` and `mockProducts` are in
  `./data/products`, which is not part of this model.
- `getCategories` (App.js:41-43) is in `./data/products`, and the cart
  (`CartProvider`) is in `./context/CartContext`. Neither file is part of
  this model, so category extraction and the cart are not modelled.
- React machinery: `useState`, `useMemo` recomputation, `handleFilterChange`
  (App.js:75-77, which only replaces the filter state), `toggleCart`
  (App.js:80-82) and all rendering (App.js:84-131), including the "N
  product(s) found" label. This is presentation and not computation.
- Prices are integers. JavaScript numbers are floating point. With NaN or
  infinite prices, the comparator `a.price - b.price` is not a consistent
  order, and that case is not modelled.
- `Text.ToLower` handles only ASCII A-Z. Full Unicode `toLowerCase` maps
  more characters, and some mappings change the string's length. That
  mapping belongs to the JavaScript runtime and is not modelled.
- Products keep only `id`, `title`, `category` and `price`. Display fields
  such as image and description are not read by the pipeline.
- In the source, the filter fields are tested for truthiness
  (`if (filters.search)`). The model assumes they are always strings, so
  "truthy" means "non-empty". `null` or `undefined` values are not modelled.
- `sort` is kept as a string: the code compares it with `'low-high'`
  (App.js:65) and `'high-low'` (App.js:67), and any other value means no
  sort.
- Product fields are assumed well-typed. A non-string `title` makes
  `product.title.toLowerCase()` throw a `TypeError` at App.js:53; the
  field type `title: string` rules that case out.
- Dafny strings are sequences of Unicode scalar values, while JavaScript
  strings are sequences of UTF-16 code units. `includes` agrees on
  well-formed strings; lone surrogates cannot be represented in the model.
