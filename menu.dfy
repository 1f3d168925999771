/**
 * The catalogue query of the product menu: a case-insensitive search over
 * name and description, a sort by name, price or purity applied to a copy,
 * and the per-product count of what is already in the cart.
 */
module Menu {
  import opened Common
  import opened Catalog
  import opened Sorting

  // ---------------------------------------------------------------------
  // Search
  // ---------------------------------------------------------------------

  /** `toLowerCase`, on the ASCII letters. */
  function LowerChar(c: char): (r: char)
    ensures 'A' <= c <= 'Z' ==> r as int == c as int + 32
    ensures !('A' <= c <= 'Z') ==> r == c
    ensures !('A' <= r <= 'Z')
  {
    if 'A' <= c <= 'Z' then (c as int + 32) as char else c
  }

  function Lower(s: string): (r: string)
    ensures |r| == |s|
    ensures forall i :: 0 <= i < |s| ==> r[i] == LowerChar(s[i])
  {
    seq(|s|, i requires 0 <= i < |s| => LowerChar(s[i]))
  }

  /** `s.includes(q)`: tries every start position from the left. */
  predicate Includes(s: string, q: string)
    decreases |s|
  {
    (|q| <= |s| && s[..|q|] == q) || (|s| > 0 && Includes(s[1..], q))
  }

  /** `q` occurs in `s` starting at position `i`. */
  ghost predicate OccursAt(q: string, s: string, i: int)
  {
    0 <= i <= |s| - |q| && s[i..i + |q|] == q
  }

  /** `q` occurs in `s` at some position. */
  ghost predicate IsSubstring(q: string, s: string)
  {
    exists i :: OccursAt(q, s, i)
  }

  lemma {:induction false} IncludesIffSubstring(s: string, q: string)
    ensures Includes(s, q) <==> IsSubstring(q, s)
    decreases |s|
  {
    if |q| <= |s| && s[..|q|] == q {
      assert OccursAt(q, s, 0);
    } else if |s| > 0 {
      IncludesIffSubstring(s[1..], q);
      if Includes(s[1..], q) {
        var i :| OccursAt(q, s[1..], i);
        assert s[i + 1..i + 1 + |q|] == s[1..][i..i + |q|];
        assert OccursAt(q, s, i + 1);
      }
      if IsSubstring(q, s) {
        var i :| OccursAt(q, s, i);
        assert i != 0;
        assert s[1..][i - 1..i - 1 + |q|] == s[i..i + |q|];
        assert OccursAt(q, s[1..], i - 1);
      }
    } else {
      assert !OccursAt(q, s, 0);
    }
  }

  lemma EmptyQueryIncluded(s: string)
    ensures Includes(s, "")
  {
    assert s[..0] == "";
  }

  /** The search predicate: the lower-cased query occurs in the lower-cased name or description. */
  predicate Matches(p: Product, query: string)
  {
    Includes(Lower(p.name), Lower(query)) || Includes(Lower(p.description), Lower(query))
  }

  function FilterProducts(items: seq<Product>, query: string): (r: seq<Product>)
    ensures forall p :: p in r <==> p in items && Matches(p, query)
    ensures multiset(r) <= multiset(items)
  {
    if items == [] then []
    else
      assert items == [items[0]] + items[1..];
      if Matches(items[0], query) then [items[0]] + FilterProducts(items[1..], query)
      else FilterProducts(items[1..], query)
  }

  /** Every matching product is kept as often as the menu holds it, and no other product is kept. */
  lemma {:induction false} FilterKeepsMultiplicities(items: seq<Product>, query: string)
    ensures var r := FilterProducts(items, query);
      forall p :: multiset(r)[p] == if Matches(p, query) then multiset(items)[p] else 0
  {
    if items != [] {
      assert items == [items[0]] + items[1..];
      FilterKeepsMultiplicities(items[1..], query);
    }
  }

  /** The filter keeps the menu's order: it distributes over appending a product. */
  lemma {:induction false} FilterProductsAppend(items: seq<Product>, p: Product, query: string)
    ensures FilterProducts(items + [p], query) ==
      FilterProducts(items, query) + (if Matches(p, query) then [p] else [])
  {
    var tail := if Matches(p, query) then [p] else [];
    if items == [] {
      assert FilterProducts([p], query) == tail + FilterProducts([], query);
    } else {
      var all := items + [p];
      assert all[0] == items[0] && all[1..] == items[1..] + [p];
      FilterProductsAppend(items[1..], p, query);
      var rest := FilterProducts(items[1..], query);
      assert FilterProducts(all[1..], query) == rest + tail;
      if Matches(items[0], query) {
        calc {
          FilterProducts(all, query);
          [items[0]] + FilterProducts(all[1..], query);
          [items[0]] + (rest + tail);
          ([items[0]] + rest) + tail;
          FilterProducts(items, query) + tail;
        }
      } else {
        assert FilterProducts(all, query) == FilterProducts(all[1..], query);
        assert FilterProducts(items, query) == rest;
      }
    }
  }

  /** A product is kept exactly when the lower-cased query is a substring of its lower-cased name or description. */
  lemma KeptIffSubstring(items: seq<Product>, query: string, p: Product)
    ensures p in FilterProducts(items, query) <==>
      p in items && (IsSubstring(Lower(query), Lower(p.name)) || IsSubstring(Lower(query), Lower(p.description)))
  {
    IncludesIffSubstring(Lower(p.name), Lower(query));
    IncludesIffSubstring(Lower(p.description), Lower(query));
  }

  /** An empty search box keeps every product, in order. */
  lemma {:induction false} EmptyQueryKeepsAll(items: seq<Product>)
    ensures FilterProducts(items, "") == items
  {
    if items != [] {
      assert Lower("") == "";
      EmptyQueryIncluded(Lower(items[0].name));
      EmptyQueryKeepsAll(items[1..]);
    }
  }

  // ---------------------------------------------------------------------
  // Sort
  // ---------------------------------------------------------------------

  datatype SortKey = ByName | ByPrice | ByPurity

  /** Lexicographic order on code points: the stand-in for `localeCompare(...) <= 0`. */
  predicate NameLe(a: string, b: string)
  {
    if a == [] then true
    else if b == [] then false
    else if a[0] != b[0] then a[0] < b[0]
    else NameLe(a[1..], b[1..])
  }

  lemma {:induction false} NameLeTotal(a: string, b: string)
    ensures NameLe(a, b) || NameLe(b, a)
  {
    if a != [] && b != [] && a[0] == b[0] {
      NameLeTotal(a[1..], b[1..]);
    }
  }

  lemma {:induction false} NameLeTransitive(a: string, b: string, c: string)
    requires NameLe(a, b) && NameLe(b, c)
    ensures NameLe(a, c)
  {
    if a != [] && b != [] && c != [] && a[0] == b[0] && b[0] == c[0] {
      NameLeTransitive(a[1..], b[1..], c[1..]);
    }
  }

  /** The comparator of each sort key, as "a may come before b". */
  function KeyOrder(k: SortKey): (Product, Product) -> bool
  {
    match k
    case ByName => (a: Product, b: Product) => NameLe(a.name, b.name)
    case ByPrice => (a: Product, b: Product) => a.basePrice <= b.basePrice
    case ByPurity => (a: Product, b: Product) => a.purityPercentage >= b.purityPercentage
  }

  lemma KeyOrderIsTotalPreorder(k: SortKey)
    ensures TotalPreorder(KeyOrder(k))
  {
    if k == ByName {
      var le := KeyOrder(k);
      forall a: Product, b: Product ensures le(a, b) || le(b, a) {
        NameLeTotal(a.name, b.name);
      }
      forall a: Product, b: Product, c: Product | le(a, b) && le(b, c) ensures le(a, c) {
        NameLeTransitive(a.name, b.name, c.name);
      }
    }
  }

  /** `[...filteredProducts].sort(comparator)`: the input is a value, so it is left as it was. */
  function SortProducts(filtered: seq<Product>, k: SortKey): (r: seq<Product>)
    ensures multiset(r) == multiset(filtered)
    ensures SortedBy(r, KeyOrder(k))
  {
    KeyOrderIsTotalPreorder(k);
    SortByIsSorted(filtered, KeyOrder(k));
    SortBy(filtered, KeyOrder(k))
  }

  /** What the grid shows: the matching products, sorted by the chosen key. */
  function Catalogue(items: seq<Product>, query: string, k: SortKey): (r: seq<Product>)
    ensures multiset(r) == multiset(FilterProducts(items, query))
    ensures forall p :: p in r <==> p in items && Matches(p, query)
    ensures forall p :: multiset(r)[p] == if Matches(p, query) then multiset(items)[p] else 0
    ensures SortedBy(r, KeyOrder(k))
  {
    FilterKeepsMultiplicities(items, query);
    var r := SortProducts(FilterProducts(items, query), k);
    assert forall p :: p in r <==> p in multiset(r);
    r
  }

  lemma PriceSortIsAscending(filtered: seq<Product>)
    ensures var r := SortProducts(filtered, ByPrice);
      forall i, j :: 0 <= i < j < |r| ==> r[i].basePrice <= r[j].basePrice
  {
    var r := SortProducts(filtered, ByPrice);
    forall i, j | 0 <= i < j < |r| ensures r[i].basePrice <= r[j].basePrice {
      assert KeyOrder(ByPrice)(r[i], r[j]);
    }
  }

  lemma PuritySortIsDescending(filtered: seq<Product>)
    ensures var r := SortProducts(filtered, ByPurity);
      forall i, j :: 0 <= i < j < |r| ==> r[i].purityPercentage >= r[j].purityPercentage
  {
    var r := SortProducts(filtered, ByPurity);
    forall i, j | 0 <= i < j < |r| ensures r[i].purityPercentage >= r[j].purityPercentage {
      assert KeyOrder(ByPurity)(r[i], r[j]);
    }
  }

  lemma NameSortIsOrdered(filtered: seq<Product>)
    ensures var r := SortProducts(filtered, ByName);
      forall i :: 0 <= i < |r| - 1 ==> NameLe(r[i].name, r[i + 1].name)
  {
    var r := SortProducts(filtered, ByName);
    forall i | 0 <= i < |r| - 1 ensures NameLe(r[i].name, r[i + 1].name) {
      assert KeyOrder(ByName)(r[i], r[i + 1]);
    }
  }

  // ---------------------------------------------------------------------
  // Cart quantity
  // ---------------------------------------------------------------------

  /**
   * The cart filter: same product, and the given variation when a truthy
   * variation id is passed, else no variation at all.
   */
  predicate CountsToward(item: CartItem, productId: Id, variationId: Option<Id>)
  {
    && item.product.id == productId
    && if variationId.Some? && Truthy(variationId.value)
       then item.variation.Some? && item.variation.value.id == variationId.value
       else item.variation.None?
  }

  function MatchingItems(cart: seq<CartItem>, productId: Id, variationId: Option<Id>): (r: seq<CartItem>)
    ensures forall x :: x in r <==> x in cart && CountsToward(x, productId, variationId)
  {
    if cart == [] then []
    else if CountsToward(cart[0], productId, variationId) then [cart[0]] + MatchingItems(cart[1..], productId, variationId)
    else MatchingItems(cart[1..], productId, variationId)
  }

  /** `reduce((sum, item) => sum + item.quantity, acc)` */
  function SumQuantities(items: seq<CartItem>, acc: int): int
  {
    if items == [] then acc else SumQuantities(items[1..], acc + items[0].quantity)
  }

  function CartQuantity(cart: seq<CartItem>, productId: Id, variationId: Option<Id>): int
  {
    SumQuantities(MatchingItems(cart, productId, variationId), 0)
  }

  lemma {:induction false} MatchingItemsAppend(cart: seq<CartItem>, item: CartItem, productId: Id, variationId: Option<Id>)
    ensures MatchingItems(cart + [item], productId, variationId) ==
      MatchingItems(cart, productId, variationId) + (if CountsToward(item, productId, variationId) then [item] else [])
  {
    if cart != [] {
      assert (cart + [item])[1..] == cart[1..] + [item];
      MatchingItemsAppend(cart[1..], item, productId, variationId);
    }
  }

  lemma {:induction false} SumQuantitiesAppend(items: seq<CartItem>, item: CartItem, acc: int)
    ensures SumQuantities(items + [item], acc) == SumQuantities(items, acc) + item.quantity
  {
    if items != [] {
      assert (items + [item])[1..] == items[1..] + [item];
      SumQuantitiesAppend(items[1..], item, acc + items[0].quantity);
    }
  }

  lemma CartQuantityOfEmptyCart(productId: Id, variationId: Option<Id>)
    ensures CartQuantity([], productId, variationId) == 0
  {
  }

  /** Adding a line to the cart raises the count by its quantity when it matches, and leaves it as it was otherwise. */
  lemma CartQuantityAppend(cart: seq<CartItem>, item: CartItem, productId: Id, variationId: Option<Id>)
    ensures CartQuantity(cart + [item], productId, variationId) ==
      CartQuantity(cart, productId, variationId) + (if CountsToward(item, productId, variationId) then item.quantity else 0)
  {
    var m := MatchingItems(cart, productId, variationId);
    MatchingItemsAppend(cart, item, productId, variationId);
    if CountsToward(item, productId, variationId) {
      SumQuantitiesAppend(m, item, 0);
    } else {
      assert m + [] == m;
    }
  }

  /**
   * The grid asks with a product id alone, so a product whose cart lines all
   * name a variation shows no count on its card.
   */
  lemma {:induction false} PlainQueryIgnoresVariationLines(cart: seq<CartItem>, productId: Id)
    requires forall i :: 0 <= i < |cart| && cart[i].product.id == productId ==> cart[i].variation.Some?
    ensures CartQuantity(cart, productId, None) == 0
  {
    if cart != [] {
      assert forall i :: 0 <= i < |cart[1..]| ==> cart[1..][i] == cart[i + 1];
      PlainQueryIgnoresVariationLines(cart[1..], productId);
    }
  }

  /** An empty variation id is falsy and so asks for the lines without a variation. */
  lemma {:induction false} EmptyVariationIdActsAsAbsent(cart: seq<CartItem>, productId: Id)
    ensures MatchingItems(cart, productId, Some("")) == MatchingItems(cart, productId, None)
  {
    if cart != [] {
      EmptyVariationIdActsAsAbsent(cart[1..], productId);
    }
  }
}
