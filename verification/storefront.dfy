/** The storefront page's logic: the six-facet catalog filter, the
    selection-state transitions the sidebar and search box perform, the
    category counts shown beside each category button, and the list of new
    arrivals. The catalog is a parameter; the page applies everything to
    `Catalog.Products`. */
module Storefront {
  import opened Types
  import opened Seqs
  import opened Text
  import Catalog

  /** The selection the page starts with, and the one both "clear" buttons
      restore: every facet inactive. None of the three literals mentions
      `types`. */
  const DefaultFilters: FilterState := FilterState(All, [], [], [], [], "", None)

  // ---------------------------------------------------------------------
  // The filter predicate: AND across facets, an empty list switches its
  // facet off.

  predicate MatchesCategory(f: FilterState, p: Product) {
    f.category == All || p.category == f.category
  }

  /** Case-insensitive substring search on the product name. */
  predicate MatchesSearch(f: FilterState, p: Product) {
    Includes(Lower(p.name), Lower(f.searchTerm))
  }

  predicate MatchesMaterial(f: FilterState, p: Product) {
    |f.materials| == 0 || p.material in f.materials
  }

  predicate MatchesScale(f: FilterState, p: Product) {
    |f.scales| == 0 || p.scale in f.scales
  }

  predicate MatchesDetail(f: FilterState, p: Product) {
    |f.detailLevel| == 0 || p.detailLevel in f.detailLevel
  }

  /** `product.colors.some(c => filters.colors.includes(c))`. */
  predicate MatchesColor(f: FilterState, p: Product) {
    |f.colors| == 0 || SharesElement(p.colors, f.colors)
  }

  predicate Keep(f: FilterState, p: Product) {
    && MatchesCategory(f, p)
    && MatchesSearch(f, p)
    && MatchesMaterial(f, p)
    && MatchesScale(f, p)
    && MatchesDetail(f, p)
    && MatchesColor(f, p)
  }

  function Matching(f: FilterState): Product -> bool {
    (p: Product) => Keep(f, p)
  }

  /** `PRODUCTS.filter(...)`: the products the selection keeps, in catalog
      order. */
  function FilteredProducts(catalog: seq<Product>, f: FilterState): (r: seq<Product>)
    ensures forall p :: p in r <==> p in catalog && Keep(f, p)
    ensures IsSubsequence(r, catalog)
  {
    SelectIsSubsequence(catalog, Matching(f));
    Select(catalog, Matching(f))
  }

  /** Each kept product appears as often as in the catalog, the others not
      at all: the filter neither duplicates nor drops entries. */
  lemma FilterMultiplicity(catalog: seq<Product>, f: FilterState)
    ensures forall p :: multiset(FilteredProducts(catalog, f))[p] ==
              if Keep(f, p) then multiset(catalog)[p] else 0
  {
    SelectMultiplicities(catalog, Matching(f));
  }

  /** A product is shown iff it passes all six facet tests, each stated
      independently of how the storefront computes it. */
  lemma FilterConjunction(catalog: seq<Product>, f: FilterState, p: Product)
    ensures p in FilteredProducts(catalog, f) <==>
      && p in catalog
      && (f.category == All || p.category == f.category)
      && (exists i :: OccursAt(Lower(p.name), Lower(f.searchTerm), i))
      && (|f.materials| == 0 || p.material in f.materials)
      && (|f.scales| == 0 || p.scale in f.scales)
      && (|f.detailLevel| == 0 || p.detailLevel in f.detailLevel)
      && (|f.colors| == 0 || exists c :: c in p.colors && c in f.colors)
  {
    IncludesIffOccurs(Lower(p.name), Lower(f.searchTerm));
  }

  /** The colour facet asks for a shared colour; a product without colours
      never passes an active colour facet. */
  lemma ColorFacetIsOverlap(f: FilterState, p: Product)
    ensures MatchesColor(f, p) <==> |f.colors| == 0 || exists c :: c in p.colors && c in f.colors
    ensures |p.colors| == 0 && |f.colors| > 0 ==> !MatchesColor(f, p)
  {
  }

  /** An empty search term matches every name. */
  lemma EmptySearchMatchesEveryName(f: FilterState, p: Product)
    requires f.searchTerm == ""
    ensures MatchesSearch(f, p)
  {
  }

  /** With every facet cleared the whole catalog is shown, in order. */
  lemma DefaultShowsWholeCatalog(catalog: seq<Product>)
    ensures FilteredProducts(catalog, DefaultFilters) == catalog
  {
    SelectKeepsAll(catalog, Matching(DefaultFilters));
  }

  /** Filtering an already filtered list with the same selection changes nothing. */
  lemma FilterIdempotent(catalog: seq<Product>, f: FilterState)
    ensures FilteredProducts(FilteredProducts(catalog, f), f) == FilteredProducts(catalog, f)
  {
    SelectIdempotent(catalog, Matching(f));
  }

  /** The declared `types` field has no effect on the result. */
  lemma FilterIgnoresTypes(catalog: seq<Product>, f: FilterState, types: Option<seq<ProductType>>)
    ensures FilteredProducts(catalog, f.(types := types)) == FilteredProducts(catalog, f)
  {
    SelectCongruent(catalog, Matching(f.(types := types)), Matching(f));
  }

  // ---------------------------------------------------------------------
  // toggleFilter

  /** A value offered by one of the four multi-select facets; the constructor
      names the facet (`'materials'`, `'scales'`, `'detailLevel'`,
      `'colors'`) the value is toggled in. */
  datatype FacetValue =
    | MaterialValue(material: Material)
    | ScaleValue(scale: Scale)
    | DetailValue(detail: DetailLevel)
    | ColorValue(color: string)

  /** `v` is currently selected in its facet's list. */
  predicate Selected(f: FilterState, v: FacetValue) {
    match v
    case MaterialValue(m) => m in f.materials
    case ScaleValue(s) => s in f.scales
    case DetailValue(d) => d in f.detailLevel
    case ColorValue(c) => c in f.colors
  }

  /** `v`'s facet list is non-empty, so the facet constrains the result. */
  predicate FacetActive(f: FilterState, v: FacetValue) {
    match v
    case MaterialValue(_) => |f.materials| > 0
    case ScaleValue(_) => |f.scales| > 0
    case DetailValue(_) => |f.detailLevel| > 0
    case ColorValue(_) => |f.colors| > 0
  }

  /** The product carries the value `v` in `v`'s facet. */
  predicate HasValue(p: Product, v: FacetValue) {
    match v
    case MaterialValue(m) => p.material == m
    case ScaleValue(s) => p.scale == s
    case DetailValue(d) => p.detailLevel == d
    case ColorValue(c) => c in p.colors
  }

  predicate ListsDuplicateFree(f: FilterState) {
    && NoDuplicates(f.materials)
    && NoDuplicates(f.scales)
    && NoDuplicates(f.detailLevel)
    && NoDuplicates(f.colors)
  }

  /** `toggleFilter(key, value)`: flips whether `v` is selected and touches
      nothing else. */
  function ToggleFilter(f: FilterState, v: FacetValue): (r: FilterState)
    ensures Selected(r, v) <==> !Selected(f, v)
    ensures forall w :: w != v ==> (Selected(r, w) <==> Selected(f, w))
    ensures !v.MaterialValue? ==> r.materials == f.materials
    ensures !v.ScaleValue? ==> r.scales == f.scales
    ensures !v.DetailValue? ==> r.detailLevel == f.detailLevel
    ensures !v.ColorValue? ==> r.colors == f.colors
    ensures r.category == f.category && r.searchTerm == f.searchTerm && r.types == f.types
    ensures ListsDuplicateFree(f) ==> ListsDuplicateFree(r)
  {
    match v
    case MaterialValue(m) => f.(materials := Toggle(f.materials, m))
    case ScaleValue(s) => f.(scales := Toggle(f.scales, s))
    case DetailValue(d) => f.(detailLevel := Toggle(f.detailLevel, d))
    case ColorValue(c) => f.(colors := Toggle(f.colors, c))
  }

  /** Toggling an unselected value on and off again restores the selection exactly. */
  lemma ToggleFilterTwiceRestores(f: FilterState, v: FacetValue)
    requires !Selected(f, v)
    ensures ToggleFilter(ToggleFilter(f, v), v) == f
  {
    match v
    case MaterialValue(m) => ToggleTwiceRestoresAbsent(f.materials, m);
    case ScaleValue(s) => ToggleTwiceRestoresAbsent(f.scales, s);
    case DetailValue(d) => ToggleTwiceRestoresAbsent(f.detailLevel, d);
    case ColorValue(c) => ToggleTwiceRestoresAbsent(f.colors, c);
  }

  /** Adding a value to a facet that is already active never hides a
      product: the old result is a subsequence of the new one. */
  lemma AddingToActiveFacetWidens(catalog: seq<Product>, f: FilterState, v: FacetValue)
    requires FacetActive(f, v) && !Selected(f, v)
    ensures IsSubsequence(FilteredProducts(catalog, f), FilteredProducts(catalog, ToggleFilter(f, v)))
    ensures forall p :: p in FilteredProducts(catalog, f) ==> p in FilteredProducts(catalog, ToggleFilter(f, v))
  {
    var g := ToggleFilter(f, v);
    forall i | 0 <= i < |catalog| && Keep(f, catalog[i])
      ensures Keep(g, catalog[i])
    {
      var p := catalog[i];
      match v
      case MaterialValue(m) =>
      case ScaleValue(s) =>
      case DetailValue(d) =>
      case ColorValue(c) =>
        var x :| x in p.colors && x in f.colors;
        assert x in g.colors;
    }
    SelectMonotone(catalog, Matching(f), Matching(g));
  }

  /** Selecting the first value of an inactive facet narrows the result to
      the products carrying that value. */
  lemma FirstValueNarrows(catalog: seq<Product>, f: FilterState, v: FacetValue)
    requires !FacetActive(f, v)
    ensures forall p :: p in FilteredProducts(catalog, ToggleFilter(f, v)) <==>
              p in FilteredProducts(catalog, f) && HasValue(p, v)
    ensures IsSubsequence(FilteredProducts(catalog, ToggleFilter(f, v)), FilteredProducts(catalog, f))
  {
    var g := ToggleFilter(f, v);
    assert forall p :: Keep(g, p) <==> Keep(f, p) && HasValue(p, v) by {
      match v
      case MaterialValue(m) => assert g.materials == [m];
      case ScaleValue(s) => assert g.scales == [s];
      case DetailValue(d) => assert g.detailLevel == [d];
      case ColorValue(c) =>
        assert g.colors == [c];
        forall p ensures MatchesColor(g, p) <==> c in p.colors {
          if c in p.colors {
            assert c in p.colors && c in g.colors;
          }
        }
    }
    SelectMonotone(catalog, Matching(g), Matching(f));
  }

  // ---------------------------------------------------------------------
  // Field setters

  /** Typing in the search box replaces the search term and nothing else. */
  function SetSearchTerm(f: FilterState, term: string): (r: FilterState)
    ensures r.searchTerm == term
    ensures r.(searchTerm := f.searchTerm) == f
  {
    f.(searchTerm := term)
  }

  /** A category button replaces the selected category and nothing else. */
  function SelectCategory(f: FilterState, c: Category): (r: FilterState)
    ensures r.category == c
    ensures r.(category := f.category) == f
  {
    f.(category := c)
  }

  /** The search ignores the case of the term. */
  lemma SearchIgnoresCase(catalog: seq<Product>, f: FilterState, term: string)
    ensures FilteredProducts(catalog, SetSearchTerm(f, term))
         == FilteredProducts(catalog, SetSearchTerm(f, Lower(term)))
  {
    LowerIdempotent(term);
    SelectCongruent(catalog, Matching(SetSearchTerm(f, term)), Matching(SetSearchTerm(f, Lower(term))));
  }

  /** Choosing a category keeps exactly the products the `'Todas'` choice
      shows that lie in that category. */
  lemma SelectCategoryRestricts(catalog: seq<Product>, f: FilterState, c: Category)
    ensures forall p :: p in FilteredProducts(catalog, SelectCategory(f, c)) <==>
              p in FilteredProducts(catalog, SelectCategory(f, All)) && (c == All || p.category == c)
  {
  }

  // ---------------------------------------------------------------------
  // Category counts

  function InCategory(c: Category): Product -> bool {
    (p: Product) => p.category == c
  }

  /** `PRODUCTS.filter(p => p.category === cat).length`: the number of
      catalog positions holding a product of category `c`. */
  function CountInCategory(catalog: seq<Product>, c: Category): (n: nat)
    ensures n == |set i | 0 <= i < |catalog| && catalog[i].category == c|
  {
    SelectLengthCountsPositions(catalog, InCategory(c));
    assert PositionsWhere(catalog, InCategory(c)) == set i | 0 <= i < |catalog| && catalog[i].category == c;
    |Select(catalog, InCategory(c))|
  }

  /** `categoryCounts` as written: `counts` starts as
      `{'Todas': PRODUCTS.length}` and `CATEGORIES.forEach` then assigns every
      category's product count. `CATEGORIES` contains `'Todas'` too, so its
      initial entry is overwritten: every category, `All` included, ends up
      mapped to the number of products filed under it. The counts do not
      depend on the selection. */
  method CategoryCounts(catalog: seq<Product>) returns (counts: map<Category, nat>)
    ensures forall c: Category :: c in counts
    ensures forall c: Category :: counts[c] == CountInCategory(catalog, c)
  {
    var cats := Catalog.Categories;
    counts := map[All := |catalog|];
    var k := 0;
    while k < |cats|
      invariant 0 <= k <= |cats|
      invariant forall j :: 0 <= j < k ==> cats[j] in counts && counts[cats[j]] == CountInCategory(catalog, cats[j])
    {
      counts := counts[cats[k] := CountInCategory(catalog, cats[k])];
      k := k + 1;
    }
    Catalog.EnumListsComplete();
    forall c: Category
      ensures c in counts && counts[c] == CountInCategory(catalog, c)
    {
      assert c in cats;
      var j :| 0 <= j < |cats| && cats[j] == c;
    }
  }

  /** With no product filed under `'Todas'`, its count as written is 0,
      although choosing `'Todas'` lists the whole catalog. */
  lemma TodasCountMissesCatalog(catalog: seq<Product>)
    requires forall i :: 0 <= i < |catalog| ==> catalog[i].category != All
    ensures CountInCategory(catalog, All) == 0
    ensures |FilteredProducts(catalog, SelectCategory(DefaultFilters, All))| == |catalog|
  {
    assert (set i | 0 <= i < |catalog| && catalog[i].category == All) == {};
    assert SelectCategory(DefaultFilters, All) == DefaultFilters;
    DefaultShowsWholeCatalog(catalog);
  }

  /** On the shipped catalog the `'Todas'` badge shows 0 next to 8 listed products. */
  lemma TodasBadgeAsWritten()
    ensures CountInCategory(Catalog.Products, All) == 0
    ensures |FilteredProducts(Catalog.Products, SelectCategory(DefaultFilters, All))| == 8
  {
    Catalog.NoProductInAll();
    var ps := Catalog.Products;
    assert forall i :: 0 <= i < |ps| ==> ps[i] in ps;
    TodasCountMissesCatalog(ps);
  }

  /** Clicking a named category from the cleared selection lists exactly
      that category's count of products. */
  lemma CategoryClickListsCount(catalog: seq<Product>, c: Category)
    requires c != All
    ensures CountInCategory(catalog, c) == |FilteredProducts(catalog, SelectCategory(DefaultFilters, c))|
  {
    var g := SelectCategory(DefaultFilters, c);
    SelectCongruent(catalog, Matching(g), InCategory(c));
  }

  /** `categoryCounts` as evidently intended: `'Todas'` keeps the catalog
      size and the loop assigns only the named categories, so every badge
      equals the number of products listed after clicking its button from
      the cleared selection. */
  method IntendedCategoryCounts(catalog: seq<Product>) returns (counts: map<Category, nat>)
    ensures forall c: Category :: c in counts
    ensures counts[All] == |catalog|
    ensures forall c: Category :: counts[c] == |FilteredProducts(catalog, SelectCategory(DefaultFilters, c))|
  {
    var cats := Catalog.Categories;
    counts := map[All := |catalog|];
    var k := 0;
    while k < |cats|
      invariant 0 <= k <= |cats|
      invariant All in counts && counts[All] == |catalog|
      invariant forall j :: 0 <= j < k && cats[j] != All ==>
                  cats[j] in counts && counts[cats[j]] == CountInCategory(catalog, cats[j])
    {
      if cats[k] != All {
        counts := counts[cats[k] := CountInCategory(catalog, cats[k])];
      }
      k := k + 1;
    }
    Catalog.EnumListsComplete();
    DefaultShowsWholeCatalog(catalog);
    assert SelectCategory(DefaultFilters, All) == DefaultFilters;
    forall c: Category
      ensures c in counts && counts[c] == |FilteredProducts(catalog, SelectCategory(DefaultFilters, c))|
    {
      if c != All {
        assert c in cats;
        var j :| 0 <= j < |cats| && cats[j] == c;
        CategoryClickListsCount(catalog, c);
      }
    }
  }

  // ---------------------------------------------------------------------
  // New arrivals

  function IsNew(): Product -> bool {
    (p: Product) => p.isNew
  }

  /** `PRODUCTS.filter(p => p.isNew)`. */
  function NewArrivals(catalog: seq<Product>): (r: seq<Product>)
    ensures forall p :: p in r <==> p in catalog && p.isNew
    ensures IsSubsequence(r, catalog)
  {
    SelectIsSubsequence(catalog, IsNew());
    Select(catalog, IsNew())
  }

  /** Each new product appears as often as in the catalog, the others not
      at all. */
  lemma NewArrivalsMultiplicity(catalog: seq<Product>)
    ensures forall p :: multiset(NewArrivals(catalog))[p] ==
              if p.isNew then multiset(catalog)[p] else 0
  {
    SelectMultiplicities(catalog, IsNew());
  }

  /** The new-arrivals strip shows only while some product is new, no
      category is chosen and the search box is empty. */
  predicate ShowNewArrivals(f: FilterState) {
    |NewArrivals(Catalog.Products)| > 0 && f.category == All && f.searchTerm == ""
  }

  /** The real catalog has new products, so the strip shows after a reset. */
  lemma NewArrivalsShownAfterReset()
    ensures ShowNewArrivals(DefaultFilters)
  {
    var ps := Catalog.Products;
    assert ps[0].isNew && ps[0] in ps;
    assert ps[0] in NewArrivals(ps);
  }
}
