/** The `filteredProducts` computation of `AppContent` (App.js): copy the
    product list, keep the products whose title contains the search text
    (ignoring case), keep the products of the chosen category, then sort by
    price when a price order is chosen. */
module ProductFilter {
  import opened Text
  import opened Seqs
  import opened Products
  import opened PriceSort

  /** The filter state: free search text, a category label ("" for all) and
      the sort selection ("low-high", "high-low", or anything else for none). */
  datatype Filters = Filters(search: string, category: string, sort: string)

  datatype Option<T> = None | Some(value: T)

  const LowHighLabel: string := "low-high"
  const HighLowLabel: string := "high-low"

  /** The price order a sort selection asks for; any other value asks for none. */
  function SortRequested(sort: string): (r: Option<Direction>)
    ensures r == Some(LowHigh) <==> sort == LowHighLabel
    ensures r == Some(HighLow) <==> sort == HighLowLabel
  {
    if sort == LowHighLabel then Some(LowHigh)
    else if sort == HighLowLabel then Some(HighLow)
    else None
  }

  /** The search test, given the already lower-cased search text. */
  function MatchesSearch(searchLower: string): Product -> bool {
    (p: Product) => Includes(ToLower(p.title), searchLower)
  }

  function InCategory(category: string): Product -> bool {
    (p: Product) => p.category == category
  }

  /** Stage 1: an empty search text filters nothing. */
  function SearchStage(ps: seq<Product>, search: string): seq<Product> {
    if search == "" then ps else Filter(ps, MatchesSearch(ToLower(search)))
  }

  /** Stage 2: an empty category filters nothing; otherwise the match is exact. */
  function CategoryStage(ps: seq<Product>, category: string): seq<Product> {
    if category == "" then ps else Filter(ps, InCategory(category))
  }

  /** Stage 3: a stable price sort, or the order as it is. */
  function SortStage(ps: seq<Product>, sort: string): seq<Product> {
    match SortRequested(sort)
    case None => ps
    case Some(d) => StableSort(ps, d)
  }

  /** Stages 1 and 2. */
  function FilterStages(ps: seq<Product>, f: Filters): seq<Product> {
    CategoryStage(SearchStage(ps, f.search), f.category)
  }

  /** The whole computation of `filteredProducts`, as a value. */
  function Pipeline(ps: seq<Product>, f: Filters): seq<Product> {
    SortStage(FilterStages(ps, f), f.sort)
  }

  /** Which products the filters let through, stated independently of the
      stages: the title contains the search text when both are lower-cased,
      and the category is the chosen one, each test skipped when its text is
      empty. */
  ghost predicate Selected(p: Product, f: Filters) {
    (f.search == "" || Contains(ToLower(p.title), ToLower(f.search)))
    && (f.category == "" || p.category == f.category)
  }

  /** Stage 1 keeps every copy of a matching product and nothing else. */
  lemma SearchStageCount(ps: seq<Product>, search: string, x: Product)
    ensures multiset(SearchStage(ps, search))[x]
         == if search == "" || Contains(ToLower(x.title), ToLower(search)) then multiset(ps)[x] else 0
  {
    if search != "" {
      FilterCount(ps, MatchesSearch(ToLower(search)), x);
    }
  }

  /** Stage 2 keeps every copy of a product of the category and nothing else;
      the comparison is exact, so it is case-sensitive. */
  lemma CategoryStageCount(ps: seq<Product>, category: string, x: Product)
    ensures multiset(CategoryStage(ps, category))[x]
         == if category == "" || x.category == category then multiset(ps)[x] else 0
  {
    if category != "" {
      FilterCount(ps, InCategory(category), x);
    }
  }

  /** Stages 1 and 2 keep exactly the selected products, copy for copy. */
  lemma FilterStagesCount(ps: seq<Product>, f: Filters, x: Product)
    ensures multiset(FilterStages(ps, f))[x] == if Selected(x, f) then multiset(ps)[x] else 0
  {
    SearchStageCount(ps, f.search, x);
    CategoryStageCount(SearchStage(ps, f.search), f.category, x);
  }

  /** Stages 1 and 2 keep the products in catalog order. */
  lemma FilterStagesSubseq(ps: seq<Product>, f: Filters)
    ensures Subseq(FilterStages(ps, f), ps)
  {
    var s1 := SearchStage(ps, f.search);
    if f.search == "" {
      SubseqRefl(ps);
    } else {
      FilterIsSubseq(ps, MatchesSearch(ToLower(f.search)));
    }
    if f.category == "" {
      SubseqRefl(s1);
    } else {
      FilterIsSubseq(s1, InCategory(f.category));
    }
    SubseqTrans(FilterStages(ps, f), s1, ps);
  }

  /** Stage 3 only reorders. */
  lemma SortStagePermutes(ps: seq<Product>, sort: string)
    ensures multiset(SortStage(ps, sort)) == multiset(ps)
  {
    match SortRequested(sort)
    case None =>
    case Some(d) => StableSortPermutes(ps, d);
  }

  /** The displayed list holds exactly the selected products of the catalog,
      each as many times as in the catalog, whatever the sort. */
  lemma PipelineCount(ps: seq<Product>, f: Filters, x: Product)
    ensures multiset(Pipeline(ps, f))[x] == if Selected(x, f) then multiset(ps)[x] else 0
  {
    SortStagePermutes(FilterStages(ps, f), f.sort);
    FilterStagesCount(ps, f, x);
  }

  /** A product is displayed exactly when it is in the catalog and selected:
      with a search text, every displayed title contains it and no matching
      product is dropped; with a category, exactly its products remain. */
  lemma PipelineMembers(ps: seq<Product>, f: Filters, x: Product)
    ensures x in Pipeline(ps, f) <==> x in ps && Selected(x, f)
  {
    PipelineCount(ps, f, x);
  }

  /** With no search text, no category and no price order the list is the
      catalog itself, in catalog order. */
  lemma PipelineIdentity(ps: seq<Product>, f: Filters)
    requires f.search == "" && f.category == ""
    requires f.sort != LowHighLabel && f.sort != HighLowLabel
    ensures Pipeline(ps, f) == ps
  {
  }

  /** Without a price order the list keeps catalog order. */
  lemma PipelineUnsortedSubseq(ps: seq<Product>, f: Filters)
    requires f.sort != LowHighLabel && f.sort != HighLowLabel
    ensures Pipeline(ps, f) == FilterStages(ps, f)
    ensures Subseq(Pipeline(ps, f), ps)
  {
    FilterStagesSubseq(ps, f);
  }

  /** "low-high" gives non-decreasing prices, "high-low" non-increasing ones. */
  lemma PipelineOrdered(ps: seq<Product>, f: Filters)
    ensures f.sort == LowHighLabel ==>
      forall i, j :: 0 <= i < j < |Pipeline(ps, f)| ==> Pipeline(ps, f)[i].price <= Pipeline(ps, f)[j].price
    ensures f.sort == HighLowLabel ==>
      forall i, j :: 0 <= i < j < |Pipeline(ps, f)| ==> Pipeline(ps, f)[i].price >= Pipeline(ps, f)[j].price
  {
    match SortRequested(f.sort)
    case None =>
    case Some(d) =>
      var r := Pipeline(ps, f);
      StableSortSorted(FilterStages(ps, f), d);
      assert forall i, j :: 0 <= i < j < |r| ==> Compare(d, r[i], r[j]) <= 0;
  }

  /** Stability: products of equal price are displayed in the order in which
      the filters passed them on, which is their catalog order, whichever
      price order is chosen. */
  lemma PipelineStable(ps: seq<Product>, f: Filters, p: int)
    ensures WithPrice(Pipeline(ps, f), p) == WithPrice(FilterStages(ps, f), p)
    ensures Subseq(WithPrice(Pipeline(ps, f), p), ps)
  {
    var s := FilterStages(ps, f);
    if SortRequested(f.sort).Some? {
      StableSortStable(s, SortRequested(f.sort).value);
    }
    FilterIsSubseq(s, HasPrice(p));
    FilterStagesSubseq(ps, f);
    SubseqTrans(WithPrice(s, p), s, ps);
  }

  /** The list is never longer than the catalog, and an empty catalog gives
      an empty list. */
  lemma PipelineLength(ps: seq<Product>, f: Filters)
    ensures |Pipeline(ps, f)| <= |ps|
    ensures ps == [] ==> Pipeline(ps, f) == []
  {
    SortStagePermutes(FilterStages(ps, f), f.sort);
    assert |multiset(Pipeline(ps, f))| == |Pipeline(ps, f)|;
  }

  /** `search` occurs in `title` when both are lower-cased, at offset `k`. */
  lemma MatchesAt(title: string, search: string, k: int)
    requires 0 <= k && k + |search| <= |title|
    requires ToLower(title[k..k + |search|]) == ToLower(search)
    ensures Contains(ToLower(title), ToLower(search))
  {
    ToLowerSlice(title, k, k + |search|);
    var t, q := ToLower(title), ToLower(search);
    assert t[k..k + |q|] == q;
    assert OccursAt(t, q, k);
  }

  /** The search test of the worked case below: "shoe" occurs in the
      lower-cased "Red Shoe" and "Blue Shoe", and not in "Hat". */
  lemma ShoeSearchMatches(red: Product, blue: Product, hat: Product, search: string)
    requires red.title == "Red Shoe" && blue.title == "Blue Shoe" && hat.title == "Hat"
    requires search == "shoe"
    ensures MatchesSearch(ToLower(search))(red)
    ensures MatchesSearch(ToLower(search))(blue)
    ensures !MatchesSearch(ToLower(search))(hat)
  {
    assert red.title[4..8] == blue.title[5..9] == "Shoe";
    MatchesAt(red.title, search, 4);
    MatchesAt(blue.title, search, 5);
    assert |ToLower(hat.title)| < |ToLower(search)|;
  }

  /** A worked case: searching "shoe" with "low-high" keeps the two shoes,
      cheaper first, and drops the hat. */
  lemma ShoeSearchExample(red: Product, blue: Product, hat: Product, f: Filters)
    requires red == Product(1, "Red Shoe", "shoes", 50)
    requires blue == Product(2, "Blue Shoe", "shoes", 30)
    requires hat == Product(3, "Hat", "hats", 20)
    requires f == Filters("shoe", "", LowHighLabel)
    ensures Pipeline([red, blue, hat], f) == [blue, red]
  {
    ShoeSearchMatches(red, blue, hat, f.search);
    FilterDropsLast(red, blue, hat, MatchesSearch(ToLower(f.search)));
    assert FilterStages([red, blue, hat], f) == [red, blue];
    PairSorted(red, blue);
  }

  /** The search filter of the worked case. */
  lemma FilterDropsLast(a: Product, b: Product, c: Product, keep: Product -> bool)
    requires keep(a) && keep(b) && !keep(c)
    ensures Filter([a, b, c], keep) == [a, b]
  {
    var s := [a, b, c];
    assert s[1..] == [b, c] && s[1..][1..] == [c] && s[1..][1..][1..] == [];
    assert Filter([c], keep) == [];
    assert Filter([b, c], keep) == [b];
  }

  /** The sort of the worked case. */
  lemma PairSorted(a: Product, b: Product)
    requires a.price > b.price
    ensures StableSort([a, b], LowHigh) == [b, a]
  {
    assert [a, b][..1] == [a] && [a][..0] == [];
    assert StableSort([a], LowHigh) == [a];
    assert Insert([a], b, LowHigh) == [b, a];
  }

  /** A fresh array holding `s`. */
  method ArrayOf(s: seq<Product>) returns (a: array<Product>)
    ensures fresh(a) && a[..] == s
  {
    a := new Product[|s|](i requires 0 <= i < |s| => s[i]);
  }

  /** `filteredProducts`: works on a fresh copy of the product array, which
      itself is left as it was, and yields the pipeline's value. */
  method FilteredProducts(products: array<Product>, filters: Filters) returns (result: array<Product>)
    ensures fresh(result)
    ensures products[..] == old(products[..])
    ensures result[..] == Pipeline(products[..], filters)
  {
    result := ArrayOf(products[..]);
    if filters.search != "" {
      var searchLower := ToLower(filters.search);
      result := ArrayOf(Filter(result[..], MatchesSearch(searchLower)));
    }
    if filters.category != "" {
      result := ArrayOf(Filter(result[..], InCategory(filters.category)));
    }
    if filters.sort == LowHighLabel {
      SortByPrice(result, LowHigh);
    } else if filters.sort == HighLowLabel {
      SortByPrice(result, HighLow);
    }
  }
}
