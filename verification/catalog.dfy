/** The product record, the static catalog and its queries (src/lib/data.ts).

    Prices are integer cents (24.99 becomes 2499). Optional flags (`isNew?`,
    `isFeatured?`) are booleans, absent meaning false, which is how the
    queries' truthiness tests read them. Image URLs are represented by their
    photo identifiers. The queries take the catalog as a parameter so that
    their contracts speak of any catalog; `Products` is the one the storefront
    ships. */
module Catalog {
  import opened Optional
  import opened Seqs
  import opened AsciiText

  datatype Product = Product(
    id: string,
    priceCents: int,
    image: string,
    images: Option<seq<string>>,
    category: string,
    subcategory: Option<string>,
    isNew: bool,
    isFeatured: bool,
    discount: Option<int>,
    stock: int
  )

  /** The category test of `getProductsByCategory`: equal once lower-cased. */
  predicate InCategory(p: Product, category: string) {
    Lower(p.category) == Lower(category)
  }

  /** The discount test of `getDiscountedProducts`: present and positive
      (an absent discount and a discount of 0 are both falsy). */
  predicate IsDiscounted(p: Product) {
    p.discount.Some? && p.discount.value > 0
  }

  /** `getProductsByCategory(category)`. */
  function ProductsByCategory(cat: seq<Product>, category: string): (r: seq<Product>)
    ensures Subseq(r, cat)
    ensures forall i | 0 <= i < |r| :: InCategory(r[i], category)
    ensures forall p | p in cat && InCategory(p, category) :: p in r
  {
    Filter(cat, p => InCategory(p, category))
  }

  /** `getFeaturedProducts()`. */
  function FeaturedProducts(cat: seq<Product>): (r: seq<Product>)
    ensures Subseq(r, cat)
    ensures forall i | 0 <= i < |r| :: r[i].isFeatured
    ensures forall p | p in cat && p.isFeatured :: p in r
  {
    Filter(cat, (p: Product) => p.isFeatured)
  }

  /** `getNewArrivals()`. */
  function NewArrivals(cat: seq<Product>): (r: seq<Product>)
    ensures Subseq(r, cat)
    ensures forall i | 0 <= i < |r| :: r[i].isNew
    ensures forall p | p in cat && p.isNew :: p in r
  {
    Filter(cat, (p: Product) => p.isNew)
  }

  /** `getDiscountedProducts()`. */
  function DiscountedProducts(cat: seq<Product>): (r: seq<Product>)
    ensures Subseq(r, cat)
    ensures forall i | 0 <= i < |r| :: IsDiscounted(r[i])
    ensures forall p | p in cat && IsDiscounted(p) :: p in r
  {
    Filter(cat, IsDiscounted)
  }

  /** `getProductById(id)`: the first product with that id, if any. */
  function ProductById(cat: seq<Product>, id: string): (r: Option<Product>)
    ensures r.None? <==> forall i | 0 <= i < |cat| :: cat[i].id != id
    ensures r.Some? ==> exists i | 0 <= i < |cat| ::
              cat[i] == r.value && cat[i].id == id && forall j | 0 <= j < i :: cat[j].id != id
    decreases |cat|
  {
    if |cat| == 0 then None
    else if cat[0].id == id then Some(cat[0])
    else
      var r := ProductById(cat[1..], id);
      assert forall j | 1 <= j < |cat| :: cat[j] == cat[1..][j - 1];
      r
  }

  /** Each query's result is the greatest subsequence of the catalog whose
      products pass its test: any other such subsequence is contained in it,
      so nothing passing the test is dropped and nothing else is added. */
  lemma {:induction false} CategoryQueryIsExact(cat: seq<Product>, category: string, t: seq<Product>)
    requires Subseq(t, cat) && forall i | 0 <= i < |t| :: InCategory(t[i], category)
    ensures Subseq(t, ProductsByCategory(cat, category))
  {
    FilterIsGreatest(cat, p => InCategory(p, category), t);
  }

  lemma {:induction false} FeaturedQueryIsExact(cat: seq<Product>, t: seq<Product>)
    requires Subseq(t, cat) && forall i | 0 <= i < |t| :: t[i].isFeatured
    ensures Subseq(t, FeaturedProducts(cat))
  {
    FilterIsGreatest(cat, (p: Product) => p.isFeatured, t);
  }

  lemma {:induction false} NewArrivalsQueryIsExact(cat: seq<Product>, t: seq<Product>)
    requires Subseq(t, cat) && forall i | 0 <= i < |t| :: t[i].isNew
    ensures Subseq(t, NewArrivals(cat))
  {
    FilterIsGreatest(cat, (p: Product) => p.isNew, t);
  }

  lemma {:induction false} DiscountedQueryIsExact(cat: seq<Product>, t: seq<Product>)
    requires Subseq(t, cat) && forall i | 0 <= i < |t| :: IsDiscounted(t[i])
    ensures Subseq(t, DiscountedProducts(cat))
  {
    FilterIsGreatest(cat, IsDiscounted, t);
  }

  /** No query returns more products than the catalog holds. */
  lemma QueriesNoLongerThanCatalog(cat: seq<Product>, category: string)
    ensures |ProductsByCategory(cat, category)| <= |cat|
    ensures |FeaturedProducts(cat)| <= |cat|
    ensures |NewArrivals(cat)| <= |cat|
    ensures |DiscountedProducts(cat)| <= |cat|
  {
  }

  /** The category match ignores letter case: two spellings of a category
      that differ only in case select the same products. */
  lemma CategoryIgnoresCase(cat: seq<Product>, c1: string, c2: string)
    requires SameIgnoringCase(c1, c2)
    ensures ProductsByCategory(cat, c1) == ProductsByCategory(cat, c2)
  {
    LowerEqualIffSameIgnoringCase(c1, c2);
    FilterCongruent(cat, p => InCategory(p, c1), p => InCategory(p, c2));
  }

  /** A product with no discount, or a discount of 0, is not on the discount list. */
  lemma AbsentOrZeroDiscountExcluded(cat: seq<Product>, p: Product)
    requires p.discount == None || p.discount == Some(0)
    ensures p !in DiscountedProducts(cat)
  {
  }

  predicate DistinctIds(cat: seq<Product>) {
    forall i, j | 0 <= i < j < |cat| :: cat[i].id != cat[j].id
  }

  /** In a catalog with distinct ids, looking up a product's id finds that product. */
  lemma LookupFindsEntry(cat: seq<Product>, p: Product)
    requires DistinctIds(cat) && p in cat
    ensures ProductById(cat, p.id) == Some(p)
  {
  }

  /** A category name with a leading capital, as the catalog spells them. */
  const Clothing: string := "Clothing"
  const Electronics: string := "Electronics"

  /** The storefront's catalog (src/lib/data.ts:60-308). */
  const Products: seq<Product> := [
    Product("cl-1001", 2499, "photo-1576566588028-4147f3842f27",
            Some(["photo-1576566588028-4147f3842f27", "photo-1521572163474-6864f9cf17ab"]),
            Clothing, Some("T-shirts"), false, true, Some(16), 150),
    Product("cl-1002", 5999, "photo-1604176424472-44aff4a696c1",
            Some(["photo-1604176424472-44aff4a696c1", "photo-1541099649105-f69ad21f3246"]),
            Clothing, Some("Jeans"), false, false, Some(25), 75),
    Product("cl-1003", 4999, "photo-1594938298603-c9148ed2cdca", None,
            Clothing, Some("Shirts"), true, false, None, 60),
    Product("cl-1004", 8999, "photo-1591047139829-d91aecb6caea", None,
            Clothing, Some("Activewear"), false, false, Some(18), 45),
    Product("cl-1005", 17999, "photo-1552374196-1ab2a1c593e8", None,
            Clothing, Some("Outerwear"), false, true, Some(21), 30),
    Product("cl-1006", 6999, "photo-1623609163859-ca93c959b5b8", None,
            Clothing, Some("Dresses"), true, false, None, 40),
    Product("el-2001", 24999, "photo-1505740420928-5e560c06d30e",
            Some(["photo-1505740420928-5e560c06d30e", "photo-1577174881658-0f30ed549adc"]),
            Electronics, Some("Audio"), false, true, Some(16), 60),
    Product("el-2002", 69999, "photo-1593305841991-05c297ba4575", None,
            Electronics, Some("TVs"), false, false, Some(17), 25),
    Product("el-2003", 109999, "photo-1580910051074-3eb694886505", None,
            Electronics, Some("Smartphones"), true, true, None, 50),
    Product("el-2004", 129999, "photo-1496181133206-80ce9b88a853", None,
            Electronics, Some("Laptops"), false, false, Some(13), 40),
    Product("el-2005", 12999, "photo-1589003077984-894e133dabab", None,
            Electronics, Some("Smart Home"), false, false, Some(13), 65),
    Product("el-2006", 19999, "photo-1579586337278-3befd40fd17a", None,
            Electronics, Some("Wearables"), true, false, None, 55)
  ]

  /** The shipped catalog's ids are pairwise distinct. */
  lemma ProductsHaveDistinctIds()
    ensures DistinctIds(Products)
  {
  }

  /** Hence every shipped product is found by its own id. */
  lemma ProductsLookupRoundTrip(p: Product)
    requires p in Products
    ensures ProductById(Products, p.id) == Some(p)
  {
    ProductsHaveDistinctIds();
    LookupFindsEntry(Products, p);
  }
}
