# shopfusion-portal storefront logic, modelled in Dafny

The storefront is mostly presentational React markup. This project models the
logic inside it that has behaviour worth stating:

- **Hero carousel** (`HeroCarousel`, `AutoplayClosure`). The carousel is a state machine over the banner index, the
  transition lock and the autoplay pause flag. It has next and previous moves with wrap-around,
  jump-to-dot, a settle timeout and an autoplay tick. Timers become the explicit
  events `Settle` and `Tick`, and pointer enter/leave becomes `Hover`.
- **Featured product rail** (`ScrollRail`). This covers the `maxScroll` computation, the clamped
  600-unit scroll targets of the arrow buttons (each button exists only while its control is shown), and the left and right controls
  and shadows, which hide within 20 units of an end.
- **Catalog** (`Catalog`). This covers the `Product` record, the shipped catalog and the five
  queries: by category (case-insensitive), featured, new arrivals, discounted
  and by id.
- **Category page** (`CategoryPage`). This covers `capitalizeFirstLetter`, the derived
  subcategory list, ticking subcategories, applying the price and subcategory
  filters, and reset.
- **Product detail page** (`ProductDetail`). This covers the id lookup, the related-products
  strip, the image list fallback and the quantity stepper.

Shared vocabulary lives in `Optional` (an option type), `Seqs` (order-preserving
filtering, subsequences, prefixes) and `AsciiText` (ASCII case mapping).

Modelling choices:
- Prices are integer cents, so 24.99 becomes 2499. The category page's default price range
  `[0, 2000]` becomes `[0, 200000]` cents.
- Optional booleans (`isNew?`, `isFeatured?`) are plain booleans, with absent meaning false.
- `discount?`, `subcategory?` and `images?` are options. JavaScript truthiness is written out:
  - a discount counts only when present and positive;
  - a subcategory counts only when present and non-empty;
  - an image array is used even when it is empty.
- Image URLs are represented by their photo identifiers.
- The queries take the catalog as a parameter. `Catalog.Products` is the catalog the
  store ships, and it is proved to have distinct ids.
- The carousel takes the banner count `n >= 1`. The component dereferences
  `banners[currentIndex]`, so an empty banner list throws.

In three places the code does something a reader might not expect, and the model follows the code:
- `maxScroll` is `scrollWidth - clientWidth` with no clamping at 0.
- The scroll handler copies the surface's offset without clamping it.
- The category page's `subcategories` list is derived from the products currently on
  screen. After a filter is applied, it shrinks to the subcategories of the
  filtered list.

## Model

| member | source | states |
|---|---|---|
| HeroCarousel.Init | src/components/HeroCarousel.tsx:25-27 | the carousel mounts on banner 0, unlocked and not paused |
| HeroCarousel.GoToNext | src/components/HeroCarousel.tsx:40-50 | when unlocked: lock, and advance one banner, wrapping from the last to the first; when locked: no change at all; the index stays in range |
| HeroCarousel.GoToPrev | src/components/HeroCarousel.tsx:52-62 | when unlocked: lock, and go back one banner, wrapping from 0 to n-1; when locked: no change; the index stays in range |
| HeroCarousel.DotClick | src/components/HeroCarousel.tsx:64-74 | a dot click is ignored while locked or on the current banner; otherwise shows banner k and locks, keeping the pause flag |
| HeroCarousel.SettleLock | src/components/HeroCarousel.tsx:47-49 | the transition timeout clears the lock and leaves index and pause flag unchanged |
| HeroCarousel.AutoplayTick | src/components/HeroCarousel.tsx:30-38 | (corrected) a tick while paused does nothing; unpaused it behaves exactly as goToNext |
| HeroCarousel.Step | src/components/HeroCarousel.tsx:40-80 | every event keeps the index on a banner; commands while locked are dropped; settle only unlocks; hover only sets the pause flag |
| HeroCarousel.Run | src/components/HeroCarousel.tsx:154-157 | with dot indices drawn from the banner list, any series of events keeps the index in [0, n) |
| HeroCarousel.NextThenSettle | src/components/HeroCarousel.tsx:40-50 | an accepted next followed by its timeout differs from the start only in the index, now (i+1) mod n |
| HeroCarousel.NextPrevRoundTrip | src/components/HeroCarousel.tsx:40-62 | next, settle, previous returns to the starting banner |
| HeroCarousel.PrevNextRoundTrip | src/components/HeroCarousel.tsx:40-62 | previous, settle, next returns to the starting banner |
| HeroCarousel.PressesNet | src/components/HeroCarousel.tsx:44-56 | a series of settled arrow presses lands on (start + net displacement) mod n, unlocked |
| HeroCarousel.PausedTicksAreInert | src/components/HeroCarousel.tsx:30-38 | while paused and until the pointer leaves, removing every autoplay tick from a run of events changes nothing |
| HeroCarousel.TwoBannerScenario | src/components/HeroCarousel.tsx:40-50 | two banners: next shows banner 1 and locks, a second next is dropped, settle unlocks, next wraps to banner 0 |
| HeroCarousel.CorrectedAutoplayAdvancesEachPeriod | src/components/HeroCarousel.tsx:30-50 | with the tick reading the current lock, k tick/timeout periods show banner (start + k) mod n |
| AutoplayClosure.InitArmed | src/components/HeroCarousel.tsx:25-38 | on mount the interval is armed with the lock clear |
| AutoplayClosure.Rearm | src/components/HeroCarousel.tsx:38 | the interval captures the lock exactly when the index or the pause flag changed; otherwise it keeps the old capture |
| AutoplayClosure.TickAsWritten | src/components/HeroCarousel.tsx:30-44 | as written, a tick is decided by the captured lock, not the current one; an accepted tick advances one banner |
| AutoplayClosure.StepAsWritten | src/components/HeroCarousel.tsx:30-80 | apart from the tick, the as-written component reacts to every event exactly as the corrected machine does |
| AutoplayClosure.AcceptedTransitionArmsLocked | src/components/HeroCarousel.tsx:38-44 | with two or more banners, every accepted transition re-arms the interval with the lock set |
| AutoplayClosure.ArmedLockedStalls | src/components/HeroCarousel.tsx:30-50 | once armed with the lock set, no series of ticks and timeouts moves the carousel |
| AutoplayClosure.StaleLockStopsAutoplay | src/components/HeroCarousel.tsx:30-50 | two banners, tick/settle twice: as written banner 1 stays, corrected it wraps to 0 |
| AutoplayClosure.AutoplayAdvancesOnce | src/components/HeroCarousel.tsx:30-50 | from mount, with only timers firing, the as-written carousel never passes banner 1 |
| AutoplayClosure.PausedTicksAreInertAsWritten | src/components/HeroCarousel.tsx:30-38 | as written too, while paused and until the pointer leaves, removing every tick from a run changes neither the carousel nor the captured lock |
| AutoplayClosure.HoverRearmsUnlocked | src/components/HeroCarousel.tsx:79-80 | pointer enter and leave while idle re-arm the interval unlocked, after which a tick is goToNext again |
| ScrollRail.Init | src/components/FeaturedSection.tsx:37-38 | position and maxScroll both start at 0 |
| ScrollRail.MaxScroll | src/components/FeaturedSection.tsx:42-47 | maxScroll plus the visible width is the content width (no clamping) |
| ScrollRail.LeftTarget | src/components/FeaturedSection.tsx:74-82 | the left target is never negative, at most one step back, not past pos for pos >= 0, and equals 0 or pos - 600 |
| ScrollRail.RightTarget | src/components/FeaturedSection.tsx:84-92 | the right target never exceeds maxScroll, is at most one step on, not before pos when pos <= maxScroll, and equals maxScroll or pos + 600 |
| ScrollRail.Step | src/components/FeaturedSection.tsx:42-155 | a button press requests a scroll to its target only while its control is rendered, and changes no state; the scroll handler copies the offset in; resize only recomputes maxScroll |
| ScrollRail.RunPosition | src/components/FeaturedSection.tsx:58-92 | over any run of events without a scroll report, the recorded position never changes |
| ScrollRail.TargetsFixedAtEnds | src/components/FeaturedSection.tsx:76-86 | at 0 the left target is 0; at maxScroll the right target is maxScroll |
| ScrollRail.PressAndArrive | src/components/FeaturedSection.tsx:58-155 | a press followed by the surface's arrival moves to the button's target while that control is shown, and changes nothing otherwise (the surface assumed to land exactly on the target) |
| ScrollRail.LeftPressesEndNearStart | src/components/FeaturedSection.tsx:74-128 | from pos >= 0, k left presses move back exactly 600k while that stays above 20; otherwise they end within [0, 20], where the left button is gone, assuming each scroll lands exactly on its target |
| ScrollRail.RightPressesEndNearEnd | src/components/FeaturedSection.tsx:84-155 | from pos <= maxScroll, k right presses move on exactly 600k while that stays below maxScroll - 20; otherwise they end within [maxScroll - 20, maxScroll], assuming each scroll lands exactly on its target |
| ScrollRail.LeftPressesHideControl | src/components/FeaturedSection.tsx:74-128 | enough left presses always hide the left control and never go before the start, assuming each scroll lands exactly on its target |
| ScrollRail.RightPressesHideControl | src/components/FeaturedSection.tsx:84-155 | enough right presses always hide the right control and never go past maxScroll, assuming each scroll lands exactly on its target |
| ScrollRail.ResizeGovernsRightControl | src/components/FeaturedSection.tsx:42-92 | after a resize the right control shows iff more than 20 units of content lie beyond the visible part; content that fits shows none; a right press asks for a position ahead of the current one whose view ends within the content |
| ScrollRail.ControlsHiddenAtEnds | src/components/FeaturedSection.tsx:115-158 | at position 0 the left control and shadow are hidden; at maxScroll the right ones are |
| ScrollRail.SomeControlWhenOverflowing | src/components/FeaturedSection.tsx:115-158 | with more than 40 units of overflow at least one control is always shown |
| ScrollRail.ThousandUnitScenario | src/components/FeaturedSection.tsx:74-158 | overflow 1000 from 0: right asks for 600, left shows; right asks for 1000 (clamped); at 1000 the right control hides |
| AsciiText.LowerCharEqual | src/lib/data.ts:312 | two characters lower-case alike iff they are equal or the same letter in opposite cases |
| AsciiText.LowerEqualIffSameIgnoringCase | src/lib/data.ts:312 | two strings lower-case to the same string iff, position by position, they are equal or the same letter in opposite cases |
| Catalog.ProductsByCategory | src/lib/data.ts:311-313 | the result is a subsequence of the catalog, every element matches the category ignoring case, every matching product is in it |
| Catalog.FeaturedProducts | src/lib/data.ts:316-318 | subsequence of the catalog; all featured; every featured product included |
| Catalog.NewArrivals | src/lib/data.ts:321-323 | subsequence of the catalog; all new; every new product included |
| Catalog.DiscountedProducts | src/lib/data.ts:326-328 | subsequence of the catalog; every element has a present, positive discount; every such product included |
| Catalog.ProductById | src/lib/data.ts:331-333 | none iff no product has the id; otherwise the product at the first index carrying the id |
| Catalog.CategoryQueryIsExact | src/lib/data.ts:311-313 | every subsequence of the catalog in the category is contained in the result (it is the greatest one) |
| Catalog.FeaturedQueryIsExact | src/lib/data.ts:316-318 | the featured list is the greatest featured subsequence of the catalog |
| Catalog.NewArrivalsQueryIsExact | src/lib/data.ts:321-323 | the new-arrivals list is the greatest subsequence of new products |
| Catalog.DiscountedQueryIsExact | src/lib/data.ts:326-328 | the discount list is the greatest subsequence of discounted products |
| Catalog.QueriesNoLongerThanCatalog | src/lib/data.ts:311-328 | no query returns more products than the catalog holds |
| Catalog.CategoryIgnoresCase | src/lib/data.ts:312 | category names differing only in letter case select the same products |
| Catalog.AbsentOrZeroDiscountExcluded | src/lib/data.ts:327 | a product with no discount or a discount of 0 is never on the discount list |
| Catalog.LookupFindsEntry | src/lib/data.ts:331-333 | in a catalog with distinct ids, looking up a product's id returns that product |
| Catalog.ProductsHaveDistinctIds | src/lib/data.ts:60-308 | the shipped catalog's ids are pairwise distinct |
| Catalog.ProductsLookupRoundTrip | src/lib/data.ts:60-333 | every shipped product is found by its own id |
| CategoryPage.CapitalizeFirst | src/pages/CategoryPage.tsx:19-21 | same length; first character upper-cased; every later character unchanged |
| CategoryPage.CapitalizeKeepsText | src/pages/CategoryPage.tsx:19-21 | the empty string stays empty; the result equals the input ignoring case; capitalising is idempotent |
| CategoryPage.SubcategoryNames | src/pages/CategoryPage.tsx:32-34 | every listed name is non-empty and some product's subcategory; every present subcategory is listed |
| CategoryPage.Distinct | src/pages/CategoryPage.tsx:32-34 | no duplicates, nothing already seen, every unseen name kept, and the result is a subsequence of the names |
| CategoryPage.DistinctKeepsFirstOccurrenceOrder | src/pages/CategoryPage.tsx:32-34 | each name of the result occurs in the input before the first occurrence of every later name of the result (a Set's insertion order) |
| CategoryPage.Subcategories | src/pages/CategoryPage.tsx:32-34 | duplicate-free, no empty or undefined entries, each some product's subcategory, all present ones included, a subsequence of the products' subcategories |
| CategoryPage.SubcategoriesInFirstAppearanceOrder | src/pages/CategoryPage.tsx:32-34 | the list follows the order in which each subcategory first appears among the products |
| CategoryPage.Toggle | src/pages/CategoryPage.tsx:51-57 | s is in the result iff it was not selected; others are kept; absent s is appended at the end; present s is removed everywhere, preserving order, with every other entry kept as often as before; no-duplicates is preserved |
| CategoryPage.ToggleTwiceRestores | src/pages/CategoryPage.tsx:51-57 | ticking an unticked subcategory and unticking it restores the selection |
| CategoryPage.TogglesKeepNoDuplicates | src/pages/CategoryPage.tsx:51-57 | any series of clicks keeps the selection duplicate-free |
| CategoryPage.ApplyFilters | src/pages/CategoryPage.tsx:59-73 | a subsequence of the category's products, each priced within [lo, hi], each in the selection when one is ticked, and every such product included |
| CategoryPage.ApplyFiltersIsExact | src/pages/CategoryPage.tsx:59-73 | the filter chain is one filter of the catalog by category, price range and (when ticked) subcategory, and every subsequence of passing products is contained in it |
| CategoryPage.Apply | src/pages/CategoryPage.tsx:59-73 | applying replaces only the list on screen |
| CategoryPage.Open | src/pages/CategoryPage.tsx:25-29 | first shown: the category's products, range [0, 2000], nothing ticked |
| CategoryPage.ChangeCategory | src/pages/CategoryPage.tsx:36-45 | a new category reloads the list and keeps the price range and ticks |
| CategoryPage.SetPriceRange | src/pages/CategoryPage.tsx:47-49 | only the price range changes |
| CategoryPage.ToggleIn | src/pages/CategoryPage.tsx:51-57 | a click changes only the selection |
| CategoryPage.Reset | src/pages/CategoryPage.tsx:75-79 | reset gives exactly the page as first shown for the category: range [0, 2000], empty selection, full category list |
| CategoryPage.ApplyAfterResetKeepsList | src/pages/CategoryPage.tsx:59-79 | when all prices lie in the default range, applying right after a reset changes nothing |
| CategoryPage.ShippedPricesInDefaultRange | src/lib/data.ts:60-308 | every shipped product costs between 0 and 2000 |
| ProductDetail.Init | src/pages/ProductDetail.tsx:24-28 | first render: the looked-up product, no related products, quantity 1, first image |
| ProductDetail.Related | src/pages/ProductDetail.tsx:37-39 | at most 8, each in the current product's category with a different id, in catalog order |
| ProductDetail.RelatedIsFirstEight | src/pages/ProductDetail.tsx:37-39 | the strip is exactly the first eight products of the catalog that share the category and have a different id |
| ProductDetail.FewCandidatesAllShown | src/pages/ProductDetail.tsx:37-39 | with at most 8 candidates the strip is exactly all of them; with more it holds exactly 8 |
| Seqs.FilterTwice | src/pages/ProductDetail.tsx:37-38 | filtering by one test and then by another is one filter by both tests, as the category-then-id chain does |
| ProductDetail.Navigate | src/pages/ProductDetail.tsx:31-48 | the product is looked up again; related is recomputed only on success and otherwise kept; quantity and image index untouched |
| ProductDetail.ProductImages | src/pages/ProductDetail.tsx:91 | the image list when present (even empty), otherwise the one-element list of the main image |
| ProductDetail.ProductImagesEmptyOnlyWhenGivenEmpty | src/pages/ProductDetail.tsx:91-147 | the image list the gallery indexes is empty exactly when the product carries an empty images array |
| ProductDetail.ShippedProductsHaveImages | src/pages/ProductDetail.tsx:91 | every shipped product has at least one image to show |
| ProductDetail.Decrement | src/pages/ProductDetail.tsx:93-95 | minus acts only above 1, by exactly one |
| ProductDetail.Increment | src/pages/ProductDetail.tsx:97-99 | plus acts only below the stock, by exactly one |
| ProductDetail.TypeQuantity | src/pages/ProductDetail.tsx:243-248 | a typed number is taken iff it is in [1, stock]; NaN or out of range leaves the quantity |
| ProductDetail.StepQuantity | src/pages/ProductDetail.tsx:93-99 | a press moves the quantity by at most 1; never below 1 from >= 1; never above stock from <= stock |
| ProductDetail.StepperStaysInRange | src/pages/ProductDetail.tsx:93-99 | from [1, stock], no series of presses and typed values leaves [1, stock] |
| ProductDetail.QuantityBoundedFromStart | src/pages/ProductDetail.tsx:26 | starting at 1, the quantity stays in [1, stock] for any product in stock |
| ProductDetail.PlusPressesSaturate | src/pages/ProductDetail.tsx:97-99 | k plus presses reach min(q + k, stock) |
| ProductDetail.NavigationKeepsQuantity | src/pages/ProductDetail.tsx:31-48 | opening a product with less stock keeps the old quantity, which can then exceed the new stock |
| ProductDetail.NavigationKeepsImageIndex | src/pages/ProductDetail.tsx:27-48 | the chosen image index survives navigation and can point past the new product's image list |

## Left out

- JSX markup, CSS classes, icons, view toggles, tabs, toasts and the static pages are presentation.
- Real timers: the 500 ms settle, the 7000 ms interval and the 800 ms loading delays are events or left out.
- DOM scrolling: smooth-scroll animation, reading `scrollWidth`/`clientWidth`, and the resize and scroll listeners' registration and removal are outside the model. Widths and offsets arrive as integers.
- ScrollRail.PressAndArrive: assumes the surface comes to rest exactly on the requested target. The rail is a CSS scroll-snap container (src/components/FeaturedSection.tsx:133, 139), so a browser may settle on a nearby card edge instead; scroll snapping and browser-side clamping are outside the model, and the multi-press results hold only under this assumption.
- Floating-point prices and ratings, `toFixed` and currency formatting are outside the model. Prices are integer cents and ratings are dropped.
- Unicode case mapping is outside the model. `toLowerCase`/`toUpperCase` are modelled on ASCII letters only.
- `parseInt` and `Number(...)` string parsing are outside the model. A typed quantity arrives as an optional integer, and typed prices arrive as integers.
- The authentication page and the navigation bar are calls to a hosted service, routing and a scroll flag.
- The review bars and dates (`Math.random`, `Date.now`) are nondeterministic decoration.
- Unmounting is outside the model. The source clears the autoplay interval and the loading timers on unmount but not the carousel's 500 ms settle timeouts (src/components/HeroCarousel.tsx:47-49, 59-61, 71-73); a settle that fires after unmount changes no state the model keeps.
- Product fields that no modelled logic reads are dropped: title, description, originalPrice, rating, reviews and specifications.
- Routing is not part of this model. App.tsx is not part of this model, and the detail page's behaviour across id changes assumes the route keeps the page mounted.

## Findings

| source | as written | input that shows it | evidently intended | confidence | as-written member | corrected member |
|---|---|---|---|---|---|---|
| src/components/HeroCarousel.tsx:30-38 | The autoplay effect depends only on `[currentIndex, autoplayPaused]`, so the interval calls the `goToNext` captured when the effect last ran. That copy sees `isTransitioning` as it was in that render. Every accepted transition sets the lock in the same render that changes the index, so the copy is locked from then on. | Two banners with no pointer over the carousel: tick, timeout, tick. Banner 1 stays on screen, and autoplay stays stalled until the pointer enters and leaves. | Every tick consults the current lock, so autoplay advances every period. | medium, not executed | AutoplayClosure.StaleLockStopsAutoplay | HeroCarousel.CorrectedAutoplayAdvancesEachPeriod |
