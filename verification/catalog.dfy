/** The product catalog: which product records `displayProducts` turns into
    cards for a filter value, and which category cards `animateCategoryCards`
    keeps at full size. The HTML of a card is not modelled; a card is the
    product record it shows. */
module Catalog {
  import opened Seqs

  /** A product record as the catalog data holds it. */
  datatype Product = Product(id: int, name: string, category: string,
                             icon: string, price: string, description: string,
                             features: seq<string>)

  /** The filter value that shows the whole catalog (also the default). */
  const AllFilter: string := "all"

  /** The products container after `displayProducts`: the "no products found"
      placeholder, or one card per shown product in catalog order. */
  datatype View = NoProducts | Cards(cards: seq<Product>)

  /** Whether a product is shown under `filter`. */
  predicate Passes(filter: string, p: Product) {
    filter == AllFilter || p.category == filter
  }

  /** The records kept before rendering: the catalog itself for `all`,
      otherwise `products.filter(p => p.category === filter)`. */
  function Shown(products: seq<Product>, filter: string): (r: seq<Product>)
    ensures filter == AllFilter ==> r == products
    ensures forall i | 0 <= i < |r| :: r[i].category == filter || filter == AllFilter
    ensures forall p :: multiset(r)[p] == if Passes(filter, p) then multiset(products)[p] else 0
    ensures IsSubsequence(r, products)
  {
    if filter == AllFilter then
      FilterKeepsAll(products, (p: Product) => Passes(filter, p));
      products
    else Filter(products, (p: Product) => p.category == filter)
  }

  /** `displayProducts(products, filter)`: the placeholder exactly when no
      product passes the filter; otherwise a non-empty run of cards holding
      exactly the passing products, each as often as the catalog does, in
      catalog order, and for `all` the whole catalog. */
  function Display(products: seq<Product>, filter: string): (v: View)
    ensures v.NoProducts? <==> forall i | 0 <= i < |products| :: !Passes(filter, products[i])
    ensures v.Cards? ==> v.cards != [] && IsSubsequence(v.cards, products)
    ensures v.Cards? ==> forall i | 0 <= i < |v.cards| :: Passes(filter, v.cards[i])
    ensures v.Cards? ==> forall p :: multiset(v.cards)[p] == if Passes(filter, p) then multiset(products)[p] else 0
    ensures filter == AllFilter && products != [] ==> v == Cards(products)
  {
    var shown := Shown(products, filter);
    var keep := (p: Product) => Passes(filter, p);
    FilterUnique(shown, products, keep);
    FilterEmpty(products, keep);
    if shown == [] then NoProducts else Cards(shown)
  }

  /** The cards shown are the only ones that could be: any subsequence of the
      catalog that holds exactly the passing products, each as often as the
      catalog does, is the run of cards. */
  lemma DisplayUnique(products: seq<Product>, filter: string, cards: seq<Product>)
    requires cards != [] && IsSubsequence(cards, products)
    requires forall i | 0 <= i < |cards| :: Passes(filter, cards[i])
    requires forall p :: multiset(cards)[p] == if Passes(filter, p) then multiset(products)[p] else 0
    ensures Display(products, filter) == Cards(cards)
  {
    var v := Display(products, filter);
    var keep := (p: Product) => Passes(filter, p);
    FilterUnique(cards, products, keep);
    assert cards[0] in multiset(cards);
    if v.Cards? {
      FilterUnique(v.cards, products, keep);
    }
  }

  /** Showing the cards of one filter again under the same filter shows the
      same cards. */
  lemma DisplayStable(products: seq<Product>, filter: string)
    requires Display(products, filter).Cards?
    ensures Display(Display(products, filter).cards, filter) == Display(products, filter)
  {
    var cards := Display(products, filter).cards;
    FilterKeepsAll(cards, (p: Product) => Passes(filter, p));
    DisplayUnique(cards, filter, cards);
  }

  /** A filter naming a category no product has shows the placeholder. */
  lemma UnknownCategoryShowsPlaceholder(products: seq<Product>, filter: string)
    requires filter != AllFilter
    requires forall i | 0 <= i < |products| :: products[i].category != filter
    ensures Display(products, filter) == NoProducts
  {
  }

  /** `script.js` line 214: a category card keeps its full size when the filter is `all`
      or names the card's category, and is dimmed otherwise. */
  function Emphasised(filter: string, cardCategory: string): (full: bool)
    ensures full <==> forall p: Product | p.category == cardCategory :: Passes(filter, p)
  {
    var sample := Product(0, "", cardCategory, "", "", "", []);
    assert Passes(filter, sample) ==> filter == AllFilter || cardCategory == filter;
    filter == AllFilter || cardCategory == filter
  }

  /** For a category the catalog has products of, its card is at full size
      exactly when all of that category's products are on display. */
  lemma EmphasisMatchesDisplay(products: seq<Product>, filter: string, cardCategory: string)
    requires exists i | 0 <= i < |products| :: products[i].category == cardCategory
    ensures Emphasised(filter, cardCategory) <==>
      && Display(products, filter).Cards?
      && forall i | 0 <= i < |products| && products[i].category == cardCategory ::
           products[i] in Display(products, filter).cards
  {
  }
}
