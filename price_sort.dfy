/** The two price sorts of the product list: `result.sort` with the
    comparator `a.price - b.price` (low to high) or `b.price - a.price`
    (high to low). `Array.prototype.sort` is stable (ECMA-262, since the 2019
    edition, in its section "Array.prototype.sort ( comparefn )"), so products the
    comparator calls equal keep their input order. */
module PriceSort {
  import opened Products
  import opened Seqs

  datatype Direction = LowHigh | HighLow

  /** The comparator handed to `sort`: negative when `a` goes before `b`,
      positive when after, zero when they tie. */
  function Compare(d: Direction, a: Product, b: Product): int {
    match d
    case LowHigh => a.price - b.price
    case HighLow => b.price - a.price
  }

  /** No two products are out of order under the comparator. */
  ghost predicate Sorted(s: seq<Product>, d: Direction) {
    forall i, j :: 0 <= i < j < |s| ==> Compare(d, s[i], s[j]) <= 0
  }

  function HasPrice(p: int): Product -> bool {
    (x: Product) => x.price == p
  }

  /** The products of `s` with price `p`, in their order in `s`. */
  function WithPrice(s: seq<Product>, p: int): seq<Product> {
    Filter(s, HasPrice(p))
  }

  /** Stability: products of any one price appear in `t` in the same order,
      and as many times, as in `s`. */
  ghost predicate SamePriceOrder(t: seq<Product>, s: seq<Product>) {
    forall p :: WithPrice(t, p) == WithPrice(s, p)
  }

  /** Inserts `x`, which comes after everything in `s` in the input, into the
      sorted `s`: it moves left past the products that the comparator puts
      strictly after it, and no further. */
  function Insert(s: seq<Product>, x: Product, d: Direction): seq<Product> {
    if s == [] then [x]
    else if Compare(d, s[|s| - 1], x) > 0 then Insert(s[..|s| - 1], x, d) + [s[|s| - 1]]
    else s + [x]
  }

  /** Insertion sort of `s`: the reference result of the stable sort. */
  function StableSort(s: seq<Product>, d: Direction): seq<Product> {
    if s == [] then [] else Insert(StableSort(s[..|s| - 1], d), s[|s| - 1], d)
  }

  lemma {:induction false} InsertCount(s: seq<Product>, x: Product, d: Direction)
    ensures multiset(Insert(s, x, d)) == multiset(s) + multiset{x}
  {
    if s != [] {
      var init, last := s[..|s| - 1], s[|s| - 1];
      assert s == init + [last];
      if Compare(d, last, x) > 0 {
        InsertCount(init, x, d);
      }
    }
  }

  /** A bound that holds for `x` and for every product of `s` holds for
      every product of `Insert(s, x, d)`. */
  lemma InsertBounded(s: seq<Product>, x: Product, d: Direction, y: Product)
    requires forall i :: 0 <= i < |s| ==> Compare(d, s[i], y) <= 0
    requires Compare(d, x, y) <= 0
    ensures forall i :: 0 <= i < |Insert(s, x, d)| ==> Compare(d, Insert(s, x, d)[i], y) <= 0
  {
    var r := Insert(s, x, d);
    InsertCount(s, x, d);
    forall i | 0 <= i < |r|
      ensures Compare(d, r[i], y) <= 0
    {
      assert r[i] in multiset(s) + multiset{x};
      if r[i] != x {
        var k :| 0 <= k < |s| && s[k] == r[i];
      }
    }
  }

  lemma {:induction false} InsertSorted(s: seq<Product>, x: Product, d: Direction)
    requires Sorted(s, d)
    ensures Sorted(Insert(s, x, d), d)
  {
    if s != [] {
      var init, last := s[..|s| - 1], s[|s| - 1];
      if Compare(d, last, x) > 0 {
        assert Sorted(init, d);
        InsertSorted(init, x, d);
        InsertBounded(init, x, d, last);
      }
    }
  }

  /** Inserting `x` appends it to the products of its own price and leaves the
      products of every other price where they were. */
  lemma {:induction false} InsertWithPrice(s: seq<Product>, x: Product, d: Direction, p: int)
    ensures WithPrice(Insert(s, x, d), p) == WithPrice(s, p) + WithPrice([x], p)
  {
    if s == [] {
      assert Insert(s, x, d) == [] + [x];
    } else {
      var init, last := s[..|s| - 1], s[|s| - 1];
      assert s == init + [last];
      FilterConcat(init, [last], HasPrice(p));
      if Compare(d, last, x) > 0 {
        InsertWithPrice(init, x, d, p);
        InsertPastWithPrice(init, last, x, d, p);
      } else {
        FilterConcat(s, [x], HasPrice(p));
      }
    }
  }

  /** The step of InsertWithPrice where `x` moves past `last`: the two have
      different prices, so their order does not matter to either price. */
  lemma InsertPastWithPrice(init: seq<Product>, last: Product, x: Product, d: Direction, p: int)
    requires Compare(d, last, x) > 0
    requires WithPrice(Insert(init, x, d), p) == WithPrice(init, p) + WithPrice([x], p)
    ensures WithPrice(Insert(init, x, d) + [last], p) == WithPrice(init, p) + WithPrice([last], p) + WithPrice([x], p)
  {
    var r := Insert(init, x, d);
    FilterConcat(r, [last], HasPrice(p));
    var wi, wl, wx := WithPrice(init, p), WithPrice([last], p), WithPrice([x], p);
    assert WithPrice(r + [last], p) == wi + wx + wl;
    if last.price == p {
      assert wx == [];
      assert wi + wx + wl == wi + wl == wi + wl + wx;
    } else {
      assert wl == [];
      assert wi + wx + wl == wi + wx == wi + wl + wx;
    }
  }

  /** The sort only reorders: the result holds the same products. */
  lemma {:induction false} StableSortPermutes(s: seq<Product>, d: Direction)
    ensures multiset(StableSort(s, d)) == multiset(s)
  {
    if s != [] {
      var init, last := s[..|s| - 1], s[|s| - 1];
      assert s == init + [last];
      StableSortPermutes(init, d);
      InsertCount(StableSort(init, d), last, d);
    }
  }

  /** The result is in comparator order. */
  lemma {:induction false} StableSortSorted(s: seq<Product>, d: Direction)
    ensures Sorted(StableSort(s, d), d)
  {
    if s != [] {
      StableSortSorted(s[..|s| - 1], d);
      InsertSorted(StableSort(s[..|s| - 1], d), s[|s| - 1], d);
    }
  }

  /** The sort is stable: products of equal price keep their relative order. */
  lemma {:induction false} StableSortStable(s: seq<Product>, d: Direction)
    ensures SamePriceOrder(StableSort(s, d), s)
  {
    if s != [] {
      var init, last := s[..|s| - 1], s[|s| - 1];
      assert s == init + [last];
      StableSortStable(init, d);
      forall p
        ensures WithPrice(StableSort(s, d), p) == WithPrice(s, p)
      {
        InsertWithPrice(StableSort(init, d), last, d, p);
        FilterConcat(init, [last], HasPrice(p));
      }
    }
  }

  /** Keeping, per price, the same products in the same order also keeps the
      same multiset of products: stability implies permutation. */
  lemma SamePriceOrderPermutes(t: seq<Product>, s: seq<Product>)
    requires SamePriceOrder(t, s)
    ensures multiset(t) == multiset(s)
  {
    forall x
      ensures multiset(t)[x] == multiset(s)[x]
    {
      FilterCount(t, HasPrice(x.price), x);
      FilterCount(s, HasPrice(x.price), x);
      assert WithPrice(t, x.price) == WithPrice(s, x.price);
    }
  }

  /** The first element of a sequence is the first of its own price. */
  lemma WithPriceHead(s: seq<Product>, p: int)
    requires s != []
    ensures WithPrice(s, p) == (if s[0].price == p then [s[0]] else []) + WithPrice(s[1..], p)
  {
  }

  /** A product of `t` is also in any `u` with the same per-price order. */
  lemma SamePriceOrderMember(t: seq<Product>, u: seq<Product>, x: Product)
    requires SamePriceOrder(t, u) && x in t
    ensures x in u
  {
    FilterMembers(t, HasPrice(x.price), x);
    FilterMembers(u, HasPrice(x.price), x);
    assert WithPrice(t, x.price) == WithPrice(u, x.price);
  }

  /** The first product of a sorted sequence is in order with every other. */
  lemma SortedFirst(t: seq<Product>, d: Direction, y: Product)
    requires Sorted(t, d) && y in t
    ensures Compare(d, t[0], y) <= 0
  {
    var k :| 0 <= k < |t| && t[k] == y;
    if k > 0 {
      assert Compare(d, t[0], t[k]) <= 0;
    }
  }

  /** Two sorted sequences with the same per-price order start alike. */
  lemma SortedStableHead(t1: seq<Product>, t2: seq<Product>, d: Direction)
    requires t1 != [] && t2 != []
    requires Sorted(t1, d) && Sorted(t2, d)
    requires SamePriceOrder(t1, t2)
    ensures t1[0] == t2[0]
  {
    var x, y := t1[0], t2[0];
    SamePriceOrderMember(t2, t1, y);
    SortedFirst(t1, d, y);
    SamePriceOrderMember(t1, t2, x);
    SortedFirst(t2, d, x);
    assert x.price == y.price;
    WithPriceHead(t1, x.price);
    WithPriceHead(t2, x.price);
    assert WithPrice(t1, x.price) == WithPrice(t2, x.price);
    assert WithPrice(t1, x.price)[0] == x && WithPrice(t2, x.price)[0] == y;
  }

  /** Removing the same first product keeps the per-price order equal. */
  lemma SamePriceOrderTail(t1: seq<Product>, t2: seq<Product>)
    requires t1 != [] && t2 != [] && t1[0] == t2[0]
    requires SamePriceOrder(t1, t2)
    ensures SamePriceOrder(t1[1..], t2[1..])
  {
    var x := t1[0];
    forall p
      ensures WithPrice(t1[1..], p) == WithPrice(t2[1..], p)
    {
      WithPriceHead(t1, p);
      WithPriceHead(t2, p);
      var head := if x.price == p then [x] else [];
      assert WithPrice(t1, p) == WithPrice(t2, p);
      assert WithPrice(t1[1..], p) == WithPrice(t1, p)[|head|..];
      assert WithPrice(t2[1..], p) == WithPrice(t2, p)[|head|..];
    }
  }

  /** Two sequences sorted under the same comparator that agree, price by
      price, on which products appear in which order are equal. */
  lemma {:induction false} SortedStableUnique(t1: seq<Product>, t2: seq<Product>, d: Direction)
    requires Sorted(t1, d) && Sorted(t2, d)
    requires SamePriceOrder(t1, t2)
    ensures t1 == t2
    decreases |t1|
  {
    if t1 != [] && t2 == [] {
      SamePriceOrderMember(t1, t2, t1[0]);
    } else if t1 == [] && t2 != [] {
      SamePriceOrderMember(t2, t1, t2[0]);
    } else if t1 != [] {
      SortedStableHead(t1, t2, d);
      SamePriceOrderTail(t1, t2);
      assert Sorted(t1[1..], d) && Sorted(t2[1..], d);
      SortedStableUnique(t1[1..], t2[1..], d);
      assert t1 == [t1[0]] + t1[1..] && t2 == [t2[0]] + t2[1..];
    }
  }

  /** A stable sort has exactly one possible result: a sequence is the
      insertion-sort result exactly when it is in comparator order and keeps
      the input order among equal prices. So the model does not depend on
      which stable algorithm the JavaScript engine runs. */
  lemma StableSortCharacterized(s: seq<Product>, t: seq<Product>, d: Direction)
    ensures t == StableSort(s, d) <==> Sorted(t, d) && SamePriceOrder(t, s)
  {
    StableSortSorted(s, d);
    StableSortStable(s, d);
    if Sorted(t, d) && SamePriceOrder(t, s) {
      var r := StableSort(s, d);
      assert SamePriceOrder(t, r) by {
        forall p
          ensures WithPrice(t, p) == WithPrice(r, p)
        {
          assert WithPrice(t, p) == WithPrice(s, p);
          assert WithPrice(r, p) == WithPrice(s, p);
        }
      }
      SortedStableUnique(t, r, d);
    }
  }

  /** Where `x` lands: after the products that do not belong after it and in
      front of the run of products at the end that do. */
  lemma {:induction false} InsertAt(s: seq<Product>, j: int, x: Product, d: Direction)
    requires 0 <= j <= |s|
    requires j == 0 || Compare(d, s[j - 1], x) <= 0
    requires forall k :: j <= k < |s| ==> Compare(d, s[k], x) > 0
    ensures Insert(s, x, d) == s[..j] + [x] + s[j..]
  {
    if j < |s| {
      var init, last := s[..|s| - 1], s[|s| - 1];
      assert Insert(s, x, d) == Insert(init, x, d) + [last];
      assert init[..j] == s[..j];
      InsertAt(init, j, x, d);
      assert s[j..] == init[j..] + [last];
    }
  }

  /** The array after a pass: `sorted` with `x` placed at position `j`, and
      everything after the pass's range as it was in `orig`. */
  lemma ShiftedPrefix(r: seq<Product>, orig: seq<Product>, sorted: seq<Product>, j: int, x: Product)
    requires 0 <= j <= |sorted| < |r| == |orig|
    requires forall k :: 0 <= k < j ==> r[k] == sorted[k]
    requires r[j] == x
    requires forall k :: j < k <= |sorted| ==> r[k] == sorted[k - 1]
    requires forall k :: |sorted| < k < |r| ==> r[k] == orig[k]
    ensures r[..|sorted| + 1] == sorted[..j] + [x] + sorted[j..]
    ensures r[|sorted| + 1..] == orig[|sorted| + 1..]
  {
  }

  /** One pass of the insertion sort: moves `a[i]` left past the products of
      the prefix `a[..i]` that the comparator puts strictly after it. */
  method InsertLast(a: array<Product>, i: int, d: Direction)
    requires 0 <= i < a.Length
    modifies a
    ensures a[..i + 1] == Insert(old(a[..i]), old(a[i]), d)
    ensures a[i + 1..] == old(a[i + 1..])
  {
    ghost var sorted := a[..i];
    var x := a[i];
    var j := i;
    while j > 0 && Compare(d, a[j - 1], x) > 0
      invariant 0 <= j <= i
      invariant forall k :: 0 <= k < j ==> a[k] == sorted[k]
      invariant forall k :: j < k <= i ==> a[k] == sorted[k - 1]
      invariant forall k :: i < k < a.Length ==> a[k] == old(a[k])
      invariant forall k :: j <= k < i ==> Compare(d, sorted[k], x) > 0
    {
      a[j] := a[j - 1];
      j := j - 1;
    }
    a[j] := x;
    InsertAt(sorted, j, x, d);
    ShiftedPrefix(a[..], old(a[..]), sorted, j, x);
  }

  /** Sorting one more element of the input is one more insertion. */
  lemma StableSortPrefix(s: seq<Product>, i: int, d: Direction)
    requires 0 <= i < |s|
    ensures StableSort(s[..i + 1], d) == Insert(StableSort(s[..i], d), s[i], d)
  {
    assert s[..i + 1][..i] == s[..i];
  }

  /** `result.sort(comparator)` on the product array, in place: a stable
      insertion sort. */
  method SortByPrice(a: array<Product>, d: Direction)
    modifies a
    ensures a[..] == StableSort(old(a[..]), d)
    ensures Sorted(a[..], d)
    ensures multiset(a[..]) == multiset(old(a[..]))
    ensures SamePriceOrder(a[..], old(a[..]))
  {
    ghost var input := a[..];
    var i := 0;
    while i < a.Length
      invariant 0 <= i <= a.Length
      invariant a[..i] == StableSort(input[..i], d)
      invariant a[i..] == input[i..]
    {
      assert a[i] == input[i];
      InsertLast(a, i, d);
      StableSortPrefix(input, i, d);
      i := i + 1;
    }
    assert input[..a.Length] == input;
    assert a[..] == StableSort(input, d);
    StableSortSorted(input, d);
    StableSortPermutes(input, d);
    StableSortStable(input, d);
  }
}
