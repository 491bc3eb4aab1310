/** The product detail page (src/pages/ProductDetail.tsx): the id lookup,
    the related-products strip, the image list and the quantity stepper.

    The page keeps its state while the route's id changes (it is not
    re-created), so opening another product is an event on the same state.
    `parseInt` is outside the model: a typed quantity arrives already parsed,
    `None` standing for NaN. */
module ProductDetail {
  import opened Optional
  import opened Seqs
  import opened Catalog

  /** How many related products the strip shows at most. */
  const MaxRelated: nat := 8

  datatype DetailState = DetailState(
    product: Option<Product>,
    related: seq<Product>,
    quantity: int,
    imageIndex: int
  )

  /** The page as first rendered: nothing related yet, quantity 1, first image. */
  function Init(cat: seq<Product>, id: string): (r: DetailState)
    ensures r.product == ProductById(cat, id)
    ensures r.related == [] && r.quantity == 1 && r.imageIndex == 0
  {
    DetailState(ProductById(cat, id), [], 1, 0)
  }

  /** The candidates for the strip: same category, different id. */
  predicate IsRelatedTo(p: Product, q: Product) {
    InCategory(p, q.category) && p.id != q.id
  }

  /** The related-products computation: the current product's category,
      without the product itself, at most eight, in catalog order. */
  function Related(cat: seq<Product>, current: Product): (r: seq<Product>)
    ensures |r| <= MaxRelated
    ensures forall i | 0 <= i < |r| :: IsRelatedTo(r[i], current)
    ensures Subseq(r, cat)
  {
    var same := ProductsByCategory(cat, current.category);
    var others := Filter(same, (p: Product) => p.id != current.id);
    var r := Take(others, MaxRelated);
    PrefixIsSubseq(r, others);
    SubseqTransitive(r, others, same);
    SubseqTransitive(r, same, cat);
    assert forall i | 0 <= i < |r| :: r[i] == others[i];
    r
  }

  /** The strip is exactly the first eight of the product's related
      products, in catalog order. */
  lemma RelatedIsFirstEight(cat: seq<Product>, current: Product)
    ensures Related(cat, current) == Take(Filter(cat, p => IsRelatedTo(p, current)), MaxRelated)
  {
    var inCategory := (p: Product) => InCategory(p, current.category);
    var notCurrent := (p: Product) => p.id != current.id;
    assert ProductsByCategory(cat, current.category) == Filter(cat, inCategory);
    FilterTwice(cat, inCategory, notCurrent);
    FilterCongruent(cat, Both(inCategory, notCurrent), p => IsRelatedTo(p, current));
  }

  /** When there are at most eight candidates, the strip shows all of them;
      otherwise it shows exactly eight. */
  lemma FewCandidatesAllShown(cat: seq<Product>, current: Product)
    ensures var candidates := Filter(cat, p => IsRelatedTo(p, current));
            (|candidates| <= MaxRelated ==> Related(cat, current) == candidates)
            && (|candidates| > MaxRelated ==> |Related(cat, current)| == MaxRelated)
  {
    RelatedIsFirstEight(cat, current);
  }

  /** The effect that runs when the route's id changes. The product is
      looked up again; the related strip is recomputed only when the lookup
      succeeds, so after a failed lookup the previous strip is kept. The
      quantity and the image index are not touched. */
  function Navigate(cat: seq<Product>, st: DetailState, id: string): (r: DetailState)
    ensures r.product == ProductById(cat, id)
    ensures r.product.Some? ==> r.related == Related(cat, r.product.value)
    ensures r.product.None? ==> r.related == st.related
    ensures r.quantity == st.quantity && r.imageIndex == st.imageIndex
  {
    var found := ProductById(cat, id);
    match found
    case Some(p) => st.(product := found, related := Related(cat, p))
    case None => st.(product := found)
  }

  /** `productImages`: the image list when the product has one (an empty list
      counts: arrays are truthy), otherwise just the main image. */
  function ProductImages(p: Product): (r: seq<string>)
    ensures p.images.Some? ==> r == p.images.value
    ensures p.images.None? ==> r == [p.image]
  {
    p.images.GetOr([p.image])
  }

  /** The image list is empty exactly when the product carries an empty
      `images` array, which the gallery would then index out of range. */
  lemma ProductImagesEmptyOnlyWhenGivenEmpty(p: Product)
    ensures |ProductImages(p)| >= 1 <==> p.images != Some([])
  {
  }

  /** Every shipped product has at least one image to show. */
  lemma ShippedProductsHaveImages()
    ensures forall p | p in Products :: |ProductImages(p)| >= 1
  {
  }

  /** The minus button: only acts above 1. */
  function Decrement(q: int): (r: int)
    ensures q > 1 ==> r == q - 1
    ensures q <= 1 ==> r == q
  {
    if q > 1 then q - 1 else q
  }

  /** The plus button: only acts below the stock. */
  function Increment(q: int, stock: int): (r: int)
    ensures q < stock ==> r == q + 1
    ensures q >= stock ==> r == q
  {
    if q < stock then q + 1 else q
  }

  /** The quantity box: a parsed value is taken only if it is a number
      between 1 and the stock; anything else leaves the quantity as it was. */
  function TypeQuantity(q: int, typed: Option<int>, stock: int): (r: int)
    ensures typed.Some? && 0 < typed.value <= stock ==> r == typed.value
    ensures !(typed.Some? && 0 < typed.value <= stock) ==> r == q
  {
    match typed
    case Some(v) => if 0 < v <= stock then v else q
    case None => q
  }

  datatype StepperEvent = Minus | Plus | Typed(value: Option<int>)

  function StepQuantity(q: int, stock: int, e: StepperEvent): (r: int)
    ensures e.Minus? || e.Plus? ==> -1 <= r - q <= 1
    ensures 1 <= q ==> 1 <= r
    ensures q <= stock ==> r <= stock
    ensures e.Typed? && r != q ==> 1 <= r <= stock
  {
    match e
    case Minus => Decrement(q)
    case Plus => Increment(q, stock)
    case Typed(v) => TypeQuantity(q, v, stock)
  }

  function RunStepper(q: int, stock: int, es: seq<StepperEvent>): (r: int)
    decreases |es|
  {
    if |es| == 0 then q else RunStepper(StepQuantity(q, stock, es[0]), stock, es[1..])
  }

  /** Once the quantity is between 1 and the stock, no series of stepper
      presses and typed values takes it out of that range. */
  lemma {:induction false} StepperStaysInRange(q: int, stock: int, es: seq<StepperEvent>)
    requires 1 <= q <= stock
    ensures 1 <= RunStepper(q, stock, es) <= stock
    decreases |es|
  {
    if |es| > 0 {
      StepperStaysInRange(StepQuantity(q, stock, es[0]), stock, es[1..]);
    }
  }

  /** The page starts at quantity 1, so for any product in stock the
      quantity stays between 1 and the stock while the page shows it. */
  lemma QuantityBoundedFromStart(stock: int, es: seq<StepperEvent>)
    requires stock >= 1
    ensures 1 <= RunStepper(1, stock, es) <= stock
  {
    StepperStaysInRange(1, stock, es);
  }

  /** `k` presses of the plus button reach `min(q + k, stock)`. */
  lemma {:induction false} PlusPressesSaturate(q: int, stock: int, k: nat)
    requires q <= stock
    ensures RunStepper(q, stock, seq(k, _ => Plus)) == if q + k < stock then q + k else stock
    decreases k
  {
    if k > 0 {
      var es := seq(k, _ => Plus);
      assert es[1..] == seq(k - 1, _ => Plus);
      PlusPressesSaturate(Increment(q, stock), stock, k - 1);
    }
  }

  /** Opening a product with less stock keeps the quantity chosen for the
      previous one, so the quantity can exceed the new product's stock: with
      40 of anything chosen, opening the coat (30 in stock) keeps 40. */
  lemma NavigationKeepsQuantity(st: DetailState)
    requires st.quantity == 40
    ensures var r := Navigate(Products, st, "cl-1005");
            r.product.Some? && r.quantity == 40 && r.quantity > r.product.value.stock
  {
    var coat := Products[4];
    assert coat.id == "cl-1005" && coat.stock == 30;
    ProductsLookupRoundTrip(coat);
    assert Navigate(Products, st, coat.id).product == Some(coat);
  }

  /** Likewise the chosen image: with the second image of a two-image product
      on screen, opening the shirt (which has only its main image) leaves the
      index past the end of the new image list. */
  lemma NavigationKeepsImageIndex(st: DetailState)
    requires st.imageIndex == 1
    ensures var r := Navigate(Products, st, "cl-1003");
            r.product.Some? && r.imageIndex >= |ProductImages(r.product.value)|
  {
    var shirt := Products[2];
    assert shirt.id == "cl-1003" && shirt.images == None;
    ProductsLookupRoundTrip(shirt);
    assert Navigate(Products, st, shirt.id).product == Some(shirt);
  }
}
