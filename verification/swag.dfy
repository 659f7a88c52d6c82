/**
 * The swag shop page (app/swag/page.tsx): the products shown for a search
 * text, a selected category and a sort order, and the category buttons.
 */
module Swag {
  import opened Wrappers
  import opened Text
  import opened Seqs
  import opened Catalog

  /** A product as `/api/products` hands it to the page; prices are in cents. */
  datatype Product = Product(
    id: string,
    name: string,
    category: string,
    description: string,
    price: Option<int>,
    active: bool,
    quoteItemCount: Option<nat>)

  function CategoryOf(p: Product): string {
    p.category
  }

  /** The category buttons, taken from every loaded product, active or not. */
  function Categories(products: seq<Product>): (r: seq<string>)
    ensures forall c :: c in r <==> c in CategoriesOf(products, CategoryOf)
    ensures NoDuplicates(r)
    ensures forall i, j :: 0 <= i < j < |r| ==>
      FirstIndex(CategoriesOf(products, CategoryOf), r[i]) < FirstIndex(CategoriesOf(products, CategoryOf), r[j])
  {
    DistinctSpec(CategoriesOf(products, CategoryOf));
    CategoryList(products, CategoryOf)
  }

  // ---------------------------------------------------------------------------
  // Filters

  predicate MatchesSearch(p: Product, searchQuery: string) {
    ContainsIgnoringCase(p.name, searchQuery) || ContainsIgnoringCase(p.description, searchQuery)
  }

  /** What the three filters together let through. */
  predicate Shown(p: Product, searchQuery: string, selectedCategory: string) {
    && p.active
    && (searchQuery == "" || MatchesSearch(p, searchQuery))
    && (selectedCategory == "all" || p.category == selectedCategory)
  }

  function ShownBy(searchQuery: string, selectedCategory: string): Product -> bool {
    (p: Product) => Shown(p, searchQuery, selectedCategory)
  }

  function ActiveOnly(): Product -> bool {
    (p: Product) => p.active
  }

  function SearchFor(searchQuery: string): Product -> bool {
    (p: Product) => MatchesSearch(p, searchQuery)
  }

  // ---------------------------------------------------------------------------
  // Comparators

  /** `b._count?.quoteItems || 0` minus the same of `a`: a missing count is 0. */
  function Popularity(p: Product): (n: nat)
    ensures p.quoteItemCount.Some? ==> n == p.quoteItemCount.value
    ensures p.quoteItemCount.None? ==> n == 0
  {
    p.quoteItemCount.GetOr(0)
  }

  predicate MorePopular(a: Product, b: Product) {
    Popularity(a) >= Popularity(b)
  }

  /** `price || Infinity`: a missing or zero price sorts as infinitely expensive. */
  datatype PriceKey = Finite(amount: int) | Infinite

  function LowPriceKey(p: Product): (k: PriceKey)
    ensures k.Infinite? <==> p.price.None? || p.price.value == 0
    ensures k.Finite? ==> p.price == Some(k.amount)
  {
    if p.price.None? || p.price.value == 0 then Infinite else Finite(p.price.value)
  }

  /** `a` may precede `b` under "price-low" (two infinite keys compare as equal). */
  predicate CheaperFirst(a: Product, b: Product) {
    match (LowPriceKey(a), LowPriceKey(b))
    case (_, Infinite) => true
    case (Infinite, Finite(_)) => false
    case (Finite(x), Finite(y)) => x <= y
  }

  /** `price || 0` */
  function HighPriceKey(p: Product): (k: int)
    ensures p.price.Some? ==> k == p.price.value
    ensures p.price.None? ==> k == 0
  {
    p.price.GetOr(0)
  }

  predicate PricierFirst(a: Product, b: Product) {
    HighPriceKey(a) >= HighPriceKey(b)
  }

  lemma ComparatorsArePreorders()
    ensures TotalPreorder(MorePopular)
    ensures TotalPreorder(CheaperFirst)
    ensures TotalPreorder(PricierFirst)
  {
    forall a: Product, b: Product, c: Product | CheaperFirst(a, b) && CheaperFirst(b, c)
      ensures CheaperFirst(a, c)
    {
    }
  }

  // ---------------------------------------------------------------------------
  // The filter/sort effect

  /**
   * `let filtered = products.filter(p => p.active)`, narrowed by the search
   * and the category, then sorted in place by the chosen order; any other
   * `sortBy` value keeps the load order.
   */
  method FilterAndSort(products: seq<Product>, searchQuery: string, selectedCategory: string, sortBy: string)
    returns (filtered: seq<Product>)
    ensures forall p :: p in filtered <==> p in products && Shown(p, searchQuery, selectedCategory)
    ensures multiset(filtered) == multiset(Filter(products, ShownBy(searchQuery, selectedCategory)))
    ensures sortBy != "popular" && sortBy != "price-low" && sortBy != "price-high" ==>
      filtered == Filter(products, ShownBy(searchQuery, selectedCategory))
    ensures sortBy == "popular" ==> SortedBy(filtered, MorePopular)
    ensures sortBy == "price-low" ==> SortedBy(filtered, CheaperFirst)
    ensures sortBy == "price-high" ==> SortedBy(filtered, PricierFirst)
  {
    filtered := Filter(products, ActiveOnly());
    if searchQuery != "" {
      filtered := Filter(filtered, SearchFor(searchQuery));
    }
    if selectedCategory != "all" {
      filtered := Filter(filtered, InCategory(CategoryOf, selectedCategory));
    }
    assert filtered == Filter(products, ShownBy(searchQuery, selectedCategory)) by {
      FiltersCompose(products, searchQuery, selectedCategory);
    }
    ghost var unsorted := filtered;
    ComparatorsArePreorders();
    if sortBy == "popular" {
      filtered := SortBy(filtered, MorePopular);
    } else if sortBy == "price-low" {
      filtered := SortBy(filtered, CheaperFirst);
    } else if sortBy == "price-high" {
      filtered := SortBy(filtered, PricierFirst);
    }
    SameMembers(filtered, unsorted);
  }

  /** The three filters in a row are the single filter `Shown`. */
  lemma FiltersCompose(products: seq<Product>, searchQuery: string, selectedCategory: string)
    ensures var active := Filter(products, ActiveOnly());
            var searched := if searchQuery != "" then Filter(active, SearchFor(searchQuery)) else active;
            (if selectedCategory != "all" then Filter(searched, InCategory(CategoryOf, selectedCategory)) else searched)
            == Filter(products, ShownBy(searchQuery, selectedCategory))
  {
    ActiveStep(products);
    if searchQuery != "" {
      SearchStep(products, searchQuery);
    }
    if selectedCategory != "all" {
      CategoryStep(products, searchQuery, selectedCategory);
    }
  }

  lemma ActiveStep(products: seq<Product>)
    ensures Filter(products, ActiveOnly()) == Filter(products, ShownBy("", "all"))
  {
    FilterEquiv(products, ActiveOnly(), ShownBy("", "all"));
  }

  lemma SearchStep(products: seq<Product>, searchQuery: string)
    requires searchQuery != ""
    ensures Filter(Filter(products, ShownBy("", "all")), SearchFor(searchQuery)) ==
            Filter(products, ShownBy(searchQuery, "all"))
  {
    FilterFilter(products, ShownBy("", "all"), SearchFor(searchQuery), ShownBy(searchQuery, "all"));
  }

  lemma CategoryStep(products: seq<Product>, searchQuery: string, selectedCategory: string)
    requires selectedCategory != "all"
    ensures Filter(Filter(products, ShownBy(searchQuery, "all")), InCategory(CategoryOf, selectedCategory)) ==
            Filter(products, ShownBy(searchQuery, selectedCategory))
  {
    FilterFilter(products, ShownBy(searchQuery, "all"), InCategory(CategoryOf, selectedCategory),
                 ShownBy(searchQuery, selectedCategory));
  }

  /** Under "price-low", products without a price (or priced 0) come after every priced one. */
  lemma UnpricedSortLast(s: seq<Product>, i: nat, j: nat)
    requires SortedBy(s, CheaperFirst) && i < j < |s|
    requires LowPriceKey(s[i]).Infinite?
    ensures LowPriceKey(s[j]).Infinite?
  {
    assert CheaperFirst(s[i], s[j]);
  }

  /** "No products found." is shown exactly when no loaded product passes the filters. */
  lemma NoProductsNotice(products: seq<Product>, searchQuery: string, selectedCategory: string)
    ensures |Filter(products, ShownBy(searchQuery, selectedCategory))| == 0 <==>
            forall p :: p in products ==> !Shown(p, searchQuery, selectedCategory)
  {
    FilterEmpty(products, ShownBy(searchQuery, selectedCategory));
  }

  /**
   * The buttons list the categories of inactive products too, so a button
   * can lead to an empty shop.
   */
  lemma InactiveCategoryStillListed(products: seq<Product>, p: Product)
    requires p in products && p.category != "all"
    requires forall q :: q in products && q.category == p.category ==> !q.active
    ensures p.category in Categories(products)
    ensures |Filter(products, ShownBy("", p.category))| == 0
  {
    CategoryListMembers(products, CategoryOf, p.category);
    NoProductsNotice(products, "", p.category);
  }
}
