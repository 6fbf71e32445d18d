# ARIARTE storefront: catalog filter engine in Dafny

This project models the logic of the ARIARTE 3D-printing storefront page:

- the six-facet catalog filter behind the product grid: category, name search, material, scale, detail level and colour;
- the selection-state transitions that the sidebar and the search box perform: `toggleFilter`, the search and category setters, and the "clear all" reset;
- the tables derived from the static catalog: category counts, new arrivals and the de-duplicated colour list;
- the hero carousel's slide-index state machine.

Everything is a pure function over immutable datatypes.

Modules follow the source files:

| module | file | models |
|---|---|---|
| `Types` | `types.dfy` | `types.ts`: the enums (each value's string is its `Label`), `Product`, `FilterState` |
| `Catalog` | `catalog.dfy` | `constants.ts`: the eight products (prices in centavos), the enum value lists, `ALL_COLORS` |
| `Storefront` | `storefront.dfy` | `App.tsx`: the filter, `toggleFilter`, setters, reset, `categoryCounts`, `newArrivals` |
| `HeroCarousel` | `carousel.dfy` | `components/HeroCarousel.tsx`: `current` under next, previous, timer tick and indicator clicks |
| `Seqs` | `seqs.dfy` | generic `Array.filter`, `some`/`includes`, `Set` de-duplication, and the add-or-remove toggle |
| `Text` | `text.dfy` | `toLowerCase` on Latin-1 and `String.includes` |

Modelling choices:

- The filter takes the catalog as a parameter. The page applies it to `Catalog.Products`.
- Each enum becomes a datatype. `LabelsDistinct` shows that string equality on the enum values is the same as datatype equality.
- `FilterState.category` has type `Category | 'Todas'`. Since `'Todas'` is the value of `Category.ALL`, it is modelled as `Category`.
- The page's initial state and both reset literals omit `types`. At run time that field is therefore absent, so it is modelled as `Option<seq<ProductType>>` and left as `None`.
- No catalog product sets `type`, so `productType` is `None` for all of them.
- `toggleFilter(key, value)` is modelled as `ToggleFilter(f, v)`. The constructor of `v` (a `FacetValue`) names the key. All four call sites (App.tsx:221, 244, 275, 289) pass a value of the key's own domain.
- JavaScript's truncating `%` is written out as `HeroCarousel.JsRemainder`. The carousel is modelled for any positive slide count `n`; the page uses `n = 3`.

- `FilterState.types` (types.ts:76) is declared but never read or set, so there is no product-type facet.
- The `'Todas'` count is evidently meant to be the catalog size: `counts` starts from the literal `{ 'Todas': PRODUCTS.length }` (App.tsx:42), and the comment above it (App.tsx:40) says the counts are static, based on the total catalog. The loop that follows overwrites that entry; see Findings.

## Model

| member | source | states |
|---|---|---|
| `Storefront.FilteredProducts` | App.tsx:25-36 | The result holds exactly the catalog products that pass every facet. It is a subsequence of the catalog, so catalog order is kept. |
| `Storefront.FilterMultiplicity` | App.tsx:25-36 | Each kept product occurs exactly as often as in the catalog and every other product not at all, so nothing is duplicated or dropped. |
| `Storefront.FilterConjunction` | App.tsx:27-34 | A product is shown iff all six tests hold: category equal or `'Todas'`; lowered search term occurs in the lowered name at some position; material, scale and detail in their lists or the list is empty; some colour shared with the selected colours or no colour selected. |
| `Storefront.ColorFacetIsOverlap` | App.tsx:32 | The colour facet passes iff no colour is selected or the product shares a colour with the selection. A product with no colours never passes an active colour facet. |
| `Storefront.EmptySearchMatchesEveryName` | App.tsx:28 | An empty search term matches every product name. |
| `Storefront.DefaultShowsWholeCatalog` | App.tsx:15-36 | With the initial (and reset) selection, the filter returns the whole catalog unchanged and in order. |
| `Storefront.FilterIdempotent` | App.tsx:25-36 | Filtering the filtered list again with the same selection returns the same list. |
| `Storefront.FilterIgnoresTypes` | App.tsx:26-35 | The result does not depend on the declared `types` field. |
| `Storefront.ToggleFilter` | App.tsx:49-61 | After a toggle, `v` is selected iff it was not before. Every other value keeps its membership. The other three lists, the category, the search term and `types` are unchanged. Duplicate-free lists stay duplicate-free. |
| `Storefront.ToggleFilterTwiceRestores` | App.tsx:55-58 | Toggling an unselected value twice gives back exactly the original selection. |
| `Storefront.AddingToActiveFacetWidens` | App.tsx:29-32 | Adding a value to a non-empty material, scale, detail or colour list never hides a product. The old result is a subsequence of the new one. |
| `Storefront.FirstValueNarrows` | App.tsx:29-32 | Selecting the first value of an empty list keeps exactly the previously shown products that carry that value. |
| `Storefront.SetSearchTerm` | App.tsx:134 | Typing sets the search term and leaves every other field unchanged. |
| `Storefront.SearchIgnoresCase` | App.tsx:28 | A search term and its lower-cased form show the same products. |
| `Storefront.SelectCategory` | App.tsx:176-193 | A category button sets the category and leaves every other field unchanged. |
| `Storefront.SelectCategoryRestricts` | App.tsx:27 | Choosing category `c` shows exactly the products the `'Todas'` choice shows that lie in `c`. For `c = 'Todas'` that is all of them. |
| `Storefront.CountInCategory` | App.tsx:44 | The count for `c` is the number of catalog positions holding a product of category `c`. |
| `Storefront.CategoryCounts` | App.tsx:41-47 | As written: every category, `'Todas'` included, maps to the number of products filed under it, because the loop over all categories overwrites the initial `'Todas'` entry. The counts do not depend on the selection. |
| `Storefront.TodasCountMissesCatalog` | App.tsx:42-45 | For any catalog with no product filed under `'Todas'`, the `'Todas'` count as written is 0, while the `'Todas'` choice lists the whole catalog. |
| `Storefront.TodasBadgeAsWritten` | App.tsx:42-45 | For the shipped catalog, the `'Todas'` count is 0, while the `'Todas'` choice lists 8 products. |
| `Storefront.IntendedCategoryCounts` | App.tsx:41-47 | Corrected counts: every category is a key, `'Todas'` maps to the catalog size, and every badge equals the number of products listed after clicking that button from the cleared selection. |
| `Storefront.CategoryClickListsCount` | App.tsx:25-27 | For a named category, its count equals the number of products listed after clicking it from the cleared selection. |
| `Storefront.NewArrivals` | App.tsx:38 | The new arrivals are exactly the catalog products marked new, in catalog order. |
| `Storefront.NewArrivalsMultiplicity` | App.tsx:38 | Each new product appears as often as in the catalog and every other product not at all, so a repeated new product is listed every time. |
| `Storefront.NewArrivalsShownAfterReset` | App.tsx:320 | With the real catalog and the cleared selection, the new-arrivals strip is shown. |
| `Seqs.Toggle` | App.tsx:54-58 | Removing a present value or appending an absent one flips that value's membership. Every other value keeps its membership, and a duplicate-free list stays duplicate-free. |
| `Seqs.Without` | App.tsx:58 | Removing a value deletes all its occurrences and keeps every other value exactly as many times as it occurs in the list. The result is a subsequence of the list, and the list is unchanged if the value was absent. |
| `Seqs.ToggleTwiceRestoresAbsent` | App.tsx:55-58 | Toggling an absent value twice restores the exact list. |
| `Seqs.ToggleTwiceMovesPresentToEnd` | App.tsx:55-58 | Toggling a present value twice moves it to the end and drops its other copies. |
| `Seqs.SharesElement` | App.tsx:32 | `some(c => includes(c))` holds iff the two lists have a common element. |
| `Seqs.SelectMonotone` | App.tsx:26 | A test that implies another selects a subsequence of what the other selects. |
| `Text.Lower` | App.tsx:28 | Lower-casing keeps the length, leaves no capital, and keeps every non-capital character. |
| `Text.IncludesIffOccurs` | App.tsx:28 | `includes` holds iff the needle occurs at some position of the haystack. |
| `Types.LabelsDistinct` | types.ts:1-33 | Within each enum the string values are pairwise distinct. |
| `Types.AllIsTheSentinel` | types.ts:2 | `'Todas'` is the value of `Category.ALL` and of no other category, so the filter sentinel is a category value. |
| `Catalog.EnumListsComplete` | constants.ts:144-147 | `CATEGORIES` (including `'Todas'`), `MATERIALS`, `SCALES` and `DETAIL_LEVELS` each list every value of their enum exactly once. |
| `Catalog.ColorsOf` | constants.ts:148 | The `flatMap` holds a colour iff some product offers it. |
| `Catalog.AllColorsOf` | constants.ts:148 | `ALL_COLORS` has no duplicates and holds a colour iff some product offers it. Colours are listed in order of first appearance across the catalog. |
| `Seqs.DistinctFirstOccurrenceOrder` | constants.ts:148 | `Array.from(new Set(s))` lists elements in the order of their first occurrence in `s`. |
| `Catalog.ProductIdsDistinct` | constants.ts:13-142 | Product ids are pairwise distinct. |
| `Catalog.PromotionalPriceBelowPrice` | constants.ts:13-142 | Every promotional price is strictly below its product's price. |
| `Catalog.NoProductInAll` | constants.ts:13-142 | No product is filed under `'Todas'`. |
| `HeroCarousel.JsRemainder` | components/HeroCarousel.tsx:45-46 | JavaScript's `%` agrees with the mathematical remainder on non-negative dividends. On negative dividends it lies in `(-n, 0]`. In both cases the dividend minus the result is a multiple of `n`, which with the bounds fixes the value. |
| `HeroCarousel.NextSlide` | components/HeroCarousel.tsx:45 | From a valid index, "next" stays in range: it goes one slide on and wraps from the last slide to 0. |
| `HeroCarousel.PrevSlide` | components/HeroCarousel.tsx:46 | From a valid index, "previous" stays in range: it goes one slide back and wraps from 0 to the last slide. |
| `HeroCarousel.TickIsNext` | components/HeroCarousel.tsx:38-45 | The timer tick makes exactly the transition "next" makes. |
| `HeroCarousel.ShowSlide` | components/HeroCarousel.tsx:138 | Clicking indicator `idx` makes slide `idx`, and only that slide, active. |
| `HeroCarousel.PrevUndoesNext` | components/HeroCarousel.tsx:45-46 | "Previous" after "next", and "next" after "previous", return to the starting slide. |
| `HeroCarousel.RunStaysInRange` | components/HeroCarousel.tsx:36-54 | After any sequence of next, previous, tick and indicator events, the index is in range and exactly one slide is active. |
| `HeroCarousel.FullCycleReturns` | components/HeroCarousel.tsx:45 | Pressing "next" as many times as there are slides returns to the starting slide. |
| `HeroCarousel.ThreeSlideWrap` | components/HeroCarousel.tsx:5-46 | On the page's three slides, "previous" from slide 0 gives 2, "next" from 2 gives 0, and three presses of "next" from the start return to 0. |

## Left out

- JSX rendering, styling, layout and the mobile/desktop sidebar toggle (`toggleSidebar` reads `window.innerWidth`): presentation and browser state.
- `formatPrice`: it wraps `Intl.NumberFormat`, a foreign library. `getSwatchColor` is a display-only lookup of CSS strings.
- The chat assistant, the AI client service, the detail modal, the quote calculator, the falling-objects background and the 3D model viewer. They involve network calls, randomness, floating point, timers and file input, and none of them feeds the filter.
- The real `setInterval` timer and its cleanup: only the state change of one tick is modelled.
- Product fields read only by the view (`imageUrl`, `modelUrl`, `description`, `difficulty`, `printTime`, `fileSize`) are not in the `Product` record.
- `Text.Lower`: it covers the Latin-1 capitals only. JavaScript's `toLowerCase` is full Unicode and can change a string's length; every catalog name lies in Latin-1.
- `HeroCarousel.TimerTick`: its own contract states only that the index stays in range. `HeroCarousel.TickIsNext` states the full behaviour.
- A product-type facet: `FilterState.types` is never read or set, so the code has none.
- The exact contents of `ALL_COLORS` and of `newArrivals` for the concrete catalog are not stated as literals. Their general properties are proved instead: membership, no duplicates, and first-occurrence order.

## Findings

| source | as written | input that shows it | evidently intended | confidence | as-written member | corrected member |
|---|---|---|---|---|---|---|
| App.tsx:41-47 | `counts` starts as `{'Todas': PRODUCTS.length}`. The loop then runs over `CATEGORIES = Object.values(Category)`, which contains `'Todas'`, so it overwrites that entry with the number of products filed under `'Todas'`. The `TODAS` badge (App.tsx:187) shows that entry. | The shipped catalog: the badge shows 0 while the `'Todas'` choice lists all 8 products. | `'Todas'` keeps the catalog size, so each badge equals the number of products its button lists. | high; not executed | `Storefront.TodasBadgeAsWritten` | `Storefront.IntendedCategoryCounts` |
