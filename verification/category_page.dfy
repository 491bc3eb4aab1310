/** The category listing page's filter panel (src/pages/CategoryPage.tsx).

    The page shows the products of one category and narrows them by a price
    range and a set of ticked subcategories. Ticking only edits the
    selection; the list changes when "Apply Filters" is pressed or the
    filters are reset. The 800 ms loading placeholder is left out. */
module CategoryPage {
  import opened Optional
  import opened Seqs
  import opened AsciiText
  import opened Catalog

  /** The upper end of the default price range, 2000 in the shop's currency. */
  const DefaultMaxCents: int := 2000 * 100

  datatype PageState = PageState(
    category: string,        // the route parameter (`category || ''`)
    products: seq<Product>,  // the list on screen
    lo: int,                 // price range, in cents
    hi: int,
    selected: seq<string>    // ticked subcategories, in ticking order
  )

  /** `capitalizeFirstLetter`: upper-case the first character, keep the rest. */
  function CapitalizeFirst(s: string): (r: string)
    ensures |r| == |s|
    ensures |s| > 0 ==> r[0] == UpperChar(s[0])
    ensures forall i | 1 <= i < |s| :: r[i] == s[i]
  {
    if |s| == 0 then "" else [UpperChar(s[0])] + s[1..]
  }

  /** Capitalising changes at most the case of one letter, and doing it twice
      is doing it once. */
  lemma CapitalizeKeepsText(s: string)
    ensures SameIgnoringCase(CapitalizeFirst(s), s)
    ensures CapitalizeFirst(CapitalizeFirst(s)) == CapitalizeFirst(s)
    ensures CapitalizeFirst("") == ""
  {
  }

  /** A subcategory the page treats as present: defined and not empty
      (`filter(Boolean)` and `product.subcategory && ...` both drop "" too). */
  predicate HasSubcategory(p: Product) {
    p.subcategory.Some? && p.subcategory.value != ""
  }

  /** The subcategory names of `ps`, in product order, repetitions included. */
  function SubcategoryNames(ps: seq<Product>): (r: seq<string>)
    ensures forall s | s in r :: s != ""
    ensures forall s | s in r :: exists p | p in ps :: p.subcategory == Some(s)
    ensures forall p | p in ps && HasSubcategory(p) :: p.subcategory.value in r
    decreases |ps|
  {
    if |ps| == 0 then []
    else
      var rest := SubcategoryNames(ps[1..]);
      assert forall p | p in ps[1..] :: p in ps;
      if HasSubcategory(ps[0]) then [ps[0].subcategory.value] + rest else rest
  }

  /** `Array.from(new Set(...))` over `names`: first occurrences, in order. */
  function Distinct(names: seq<string>, seen: seq<string>): (r: seq<string>)
    requires NoDuplicates(seen)
    ensures NoDuplicates(seen + r)
    ensures forall s | s in r :: s in names && s !in seen
    ensures forall s | s in names && s !in seen :: s in r
    ensures Subseq(r, names)
    decreases |names|
  {
    if |names| == 0 then []
    else if names[0] in seen then
      var r := Distinct(names[1..], seen);
      SubseqCons(names[0], r, names[1..]);
      assert names == [names[0]] + names[1..];
      r
    else
      var seen' := seen + [names[0]];
      var rest := Distinct(names[1..], seen');
      assert seen + ([names[0]] + rest) == seen' + rest;
      assert ([names[0]] + rest)[1..] == rest;
      [names[0]] + rest
  }

  /** The page's `subcategories`: the distinct, present subcategories of the
      products currently on screen, in order of first appearance. */
  function Subcategories(ps: seq<Product>): (r: seq<string>)
    ensures NoDuplicates(r)
    ensures forall s | s in r :: s != "" && exists p | p in ps :: p.subcategory == Some(s)
    ensures forall p | p in ps && HasSubcategory(p) :: p.subcategory.value in r
    ensures Subseq(r, SubcategoryNames(ps))
  {
    assert [] + Distinct(SubcategoryNames(ps), []) == Distinct(SubcategoryNames(ps), []);
    Distinct(SubcategoryNames(ps), [])
  }

  /** `x` occurs in `names` before the first occurrence of `y`. */
  predicate OccursBefore(names: seq<string>, x: string, y: string) {
    exists k | 0 <= k < |names| :: names[k] == x && y !in names[..k]
  }

  /** The names of `r` appear in the order of their first occurrences in `names`. */
  predicate InFirstOccurrenceOrder(r: seq<string>, names: seq<string>) {
    forall i, j | 0 <= i < j < |r| :: OccursBefore(names, r[i], r[j])
  }

  /** Occurring before `y` survives putting a name other than `y` in front. */
  lemma OccursBeforeCons(n: string, names: seq<string>, x: string, y: string)
    requires OccursBefore(names, x, y) && y != n
    ensures OccursBefore([n] + names, x, y)
  {
    var k :| 0 <= k < |names| && names[k] == x && y !in names[..k];
    assert ([n] + names)[..k + 1] == [n] + names[..k];
    assert ([n] + names)[k + 1] == x;
  }

  /** `Distinct` keeps first-occurrence order. */
  lemma {:induction false} DistinctKeepsFirstOccurrenceOrder(names: seq<string>, seen: seq<string>)
    requires NoDuplicates(seen)
    ensures InFirstOccurrenceOrder(Distinct(names, seen), names)
    decreases |names|
  {
    var r := Distinct(names, seen);
    if |names| > 0 {
      assert names == [names[0]] + names[1..];
      if names[0] in seen {
        var rest := Distinct(names[1..], seen);
        DistinctKeepsFirstOccurrenceOrder(names[1..], seen);
        assert r == rest;
        forall i, j | 0 <= i < j < |r| ensures OccursBefore(names, r[i], r[j]) {
          assert OccursBefore(names[1..], rest[i], rest[j]);
          OccursBeforeCons(names[0], names[1..], r[i], r[j]);
        }
      } else {
        var seen' := seen + [names[0]];
        var rest := Distinct(names[1..], seen');
        DistinctKeepsFirstOccurrenceOrder(names[1..], seen');
        assert r == [names[0]] + rest;
        forall i, j | 0 <= i < j < |r| ensures OccursBefore(names, r[i], r[j]) {
          if i == 0 {
            assert names[..0] == [] && names[0] == r[i];
          } else {
            assert r[i] == rest[i - 1] && r[j] == rest[j - 1];
            assert OccursBefore(names[1..], rest[i - 1], rest[j - 1]);
            assert r[j] !in seen';
            OccursBeforeCons(names[0], names[1..], r[i], r[j]);
          }
        }
      }
    }
  }

  /** The subcategory list is in order of first appearance among the products
      on screen, as a `Set` built from them iterates. */
  lemma SubcategoriesInFirstAppearanceOrder(ps: seq<Product>)
    ensures InFirstOccurrenceOrder(Subcategories(ps), SubcategoryNames(ps))
  {
    DistinctKeepsFirstOccurrenceOrder(SubcategoryNames(ps), []);
    assert Subcategories(ps) == Distinct(SubcategoryNames(ps), []);
  }

  /** `toggleSubcategory(s)`: untick by removing every occurrence, or tick
      by appending at the end. */
  function Toggle(sel: seq<string>, s: string): (r: seq<string>)
    ensures s in r <==> s !in sel
    ensures forall x | x in sel && x != s :: x in r
    ensures forall x | x in r && x != s :: x in sel
    ensures s !in sel ==> r == sel + [s]
    ensures s in sel ==> Subseq(r, sel) && multiset(r) == multiset(sel)[s := 0]
    ensures NoDuplicates(sel) ==> NoDuplicates(r)
  {
    if s in sel then
      RemoveAllKeepsNoDuplicates(sel, s);
      RemoveAll(sel, s)
    else
      sel + [s]
  }

  lemma RemoveAllKeepsNoDuplicates(sel: seq<string>, s: string)
    ensures NoDuplicates(sel) ==> NoDuplicates(RemoveAll(sel, s))
  {
    if NoDuplicates(sel) {
      SubseqNoDuplicates(RemoveAll(sel, s), sel);
    }
  }

  /** Ticking an unticked subcategory and then unticking it restores the selection. */
  lemma ToggleTwiceRestores(sel: seq<string>, s: string)
    requires s !in sel
    ensures Toggle(Toggle(sel, s), s) == sel
  {
    RemoveAllAppended(sel, s);
  }

  lemma {:induction false} RemoveAllAppended(sel: seq<string>, s: string)
    requires s !in sel
    ensures RemoveAll(sel + [s], s) == sel
    decreases |sel|
  {
    if |sel| == 0 {
      assert [] + [s] == [s];
    } else {
      assert (sel + [s])[1..] == sel[1..] + [s];
      RemoveAllAppended(sel[1..], s);
      assert sel == [sel[0]] + sel[1..];
    }
  }

  /** The price test of `applyFilters`, bounds included. */
  predicate InPriceRange(p: Product, lo: int, hi: int) {
    lo <= p.priceCents <= hi
  }

  /** The subcategory test of `applyFilters`, used only when something is ticked. */
  predicate InSelection(p: Product, sel: seq<string>) {
    HasSubcategory(p) && p.subcategory.value in sel
  }

  /** `applyFilters`: the category's products, narrowed by price and, when
      any subcategory is ticked, by subcategory. */
  function ApplyFilters(cat: seq<Product>, st: PageState): (r: seq<Product>)
    ensures Subseq(r, ProductsByCategory(cat, st.category))
    ensures forall i | 0 <= i < |r| :: InCategory(r[i], st.category) && InPriceRange(r[i], st.lo, st.hi)
    ensures |st.selected| > 0 ==> forall i | 0 <= i < |r| :: InSelection(r[i], st.selected)
    ensures forall p | p in cat && InCategory(p, st.category) && InPriceRange(p, st.lo, st.hi)
                       && (|st.selected| == 0 || InSelection(p, st.selected)) :: p in r
  {
    var byCategory := ProductsByCategory(cat, st.category);
    var byPrice := Filter(byCategory, p => InPriceRange(p, st.lo, st.hi));
    SubseqMembers(byCategory, cat);
    if |st.selected| > 0 then
      var r := Filter(byPrice, p => InSelection(p, st.selected));
      SubseqTransitive(r, byPrice, byCategory);
      SubseqMembers(r, byCategory);
      r
    else
      SubseqMembers(byPrice, byCategory);
      byPrice
  }

  /** What `applyFilters` asks of one product: the page's category, the
      price range, and, when anything is ticked, a ticked subcategory. */
  predicate PassesFilters(p: Product, st: PageState) {
    InCategory(p, st.category) && InPriceRange(p, st.lo, st.hi)
    && (|st.selected| == 0 || InSelection(p, st.selected))
  }

  /** The chain of filters is one filter of the whole catalog by
      `PassesFilters`, so the list is exact: every subsequence of the catalog
      whose products all pass is contained in it. */
  lemma ApplyFiltersIsExact(cat: seq<Product>, st: PageState, t: seq<Product>)
    requires Subseq(t, cat) && All(t, p => PassesFilters(p, st))
    ensures ApplyFilters(cat, st) == Filter(cat, p => PassesFilters(p, st))
    ensures Subseq(t, ApplyFilters(cat, st))
  {
    var inCategory := (p: Product) => InCategory(p, st.category);
    var inRange := (p: Product) => InPriceRange(p, st.lo, st.hi);
    var inSelection := (p: Product) => InSelection(p, st.selected);
    var passes := (p: Product) => PassesFilters(p, st);
    assert ProductsByCategory(cat, st.category) == Filter(cat, inCategory);
    FilterTwice(cat, inCategory, inRange);
    if |st.selected| > 0 {
      assert ApplyFilters(cat, st) == Filter(Filter(Filter(cat, inCategory), inRange), inSelection);
      FilterTwice(cat, Both(inCategory, inRange), inSelection);
      FilterCongruent(cat, Both(Both(inCategory, inRange), inSelection), passes);
    } else {
      assert ApplyFilters(cat, st) == Filter(Filter(cat, inCategory), inRange);
      FilterCongruent(cat, Both(inCategory, inRange), passes);
    }
    FilterIsGreatest(cat, passes, t);
  }

  /** Pressing "Apply Filters": only the list changes. */
  function Apply(cat: seq<Product>, st: PageState): (r: PageState)
    ensures r.products == ApplyFilters(cat, st)
    ensures r.(products := st.products) == st
  {
    st.(products := ApplyFilters(cat, st))
  }

  /** The page when it is first shown for `category`. */
  function Open(cat: seq<Product>, category: string): (r: PageState)
    ensures r.category == category && r.products == ProductsByCategory(cat, category)
    ensures r.lo == 0 && r.hi == DefaultMaxCents && r.selected == []
  {
    PageState(category, ProductsByCategory(cat, category), 0, DefaultMaxCents, [])
  }

  /** The route's category changing while the page stays mounted: the list
      is reloaded, but the price range and the ticks are kept. */
  function ChangeCategory(cat: seq<Product>, st: PageState, category: string): (r: PageState)
    ensures r.products == ProductsByCategory(cat, category) && r.category == category
    ensures r.lo == st.lo && r.hi == st.hi && r.selected == st.selected
  {
    st.(category := category, products := ProductsByCategory(cat, category))
  }

  /** `handlePriceChange(min, max)`. */
  function SetPriceRange(st: PageState, lo: int, hi: int): (r: PageState)
    ensures r.lo == lo && r.hi == hi
    ensures r.(lo := st.lo, hi := st.hi) == st
  {
    st.(lo := lo, hi := hi)
  }

  /** Clicking a subcategory's box. */
  function ToggleIn(st: PageState, s: string): (r: PageState)
    ensures r.selected == Toggle(st.selected, s)
    ensures r.(selected := st.selected) == st
  {
    st.(selected := Toggle(st.selected, s))
  }

  /** `resetFilters`: the page as it was first shown for its category. */
  function Reset(cat: seq<Product>, st: PageState): (r: PageState)
    ensures r == Open(cat, st.category)
    ensures r.selected == [] && r.lo == 0 && r.hi == DefaultMaxCents
  {
    st.(lo := 0, hi := DefaultMaxCents, selected := [], products := ProductsByCategory(cat, st.category))
  }

  /** When every product of the category lies in the default price range,
      applying the reset filters leaves the list unchanged. */
  lemma ApplyAfterResetKeepsList(cat: seq<Product>, st: PageState)
    requires forall p | p in cat :: InPriceRange(p, 0, DefaultMaxCents)
    ensures Apply(cat, Reset(cat, st)) == Reset(cat, st)
  {
    var byCategory := ProductsByCategory(cat, st.category);
    SubseqMembers(byCategory, cat);
    FilterAllKept(byCategory, p => InPriceRange(p, 0, DefaultMaxCents));
  }

  /** Every shipped product costs at most 2000, so on the shipped catalog
      resetting and then applying shows the whole category. */
  lemma ShippedPricesInDefaultRange()
    ensures forall p | p in Products :: InPriceRange(p, 0, DefaultMaxCents)
  {
  }

  /** Ticking keeps the selection free of duplicates, over any series of clicks. */
  lemma {:induction false} TogglesKeepNoDuplicates(st: PageState, clicks: seq<string>)
    requires NoDuplicates(st.selected)
    ensures NoDuplicates(ToggleAll(st, clicks).selected)
    decreases |clicks|
  {
    if |clicks| > 0 {
      TogglesKeepNoDuplicates(ToggleIn(st, clicks[0]), clicks[1..]);
    }
  }

  function ToggleAll(st: PageState, clicks: seq<string>): PageState
    decreases |clicks|
  {
    if |clicks| == 0 then st else ToggleAll(ToggleIn(st, clicks[0]), clicks[1..])
  }
}
