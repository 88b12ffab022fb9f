/** The wiring between the catalog and the rest of the page: the filter
    buttons (`setupFiltering`), the category cards (`setupCategoryCards`) and
    the quote buttons on product cards (`setupQuoteButtons`). */
module Page {
  import opened Js
  import opened Seqs
  import opened Catalog
  import opened ContactForm

  /** What the catalog part of the page shows: the products container and,
      per category card in page order, whether it is at full size. */
  datatype CatalogPage = CatalogPage(view: View, fullSize: seq<bool>)

  /** A click on the filter button with value `filter`: the products are
      displayed under that filter, so the placeholder appears exactly when
      nothing passes and otherwise every passing product is shown, as often
      as the catalog holds it, in catalog order; each category card is at
      full size exactly when every product of its category passes. */
  function FilterClicked(products: seq<Product>, cardCategories: seq<string>, filter: string): (p: CatalogPage)
    ensures p.view == Display(products, filter)
    ensures p.view.NoProducts? <==> forall i | 0 <= i < |products| :: !Passes(filter, products[i])
    ensures p.view.Cards? ==> IsSubsequence(p.view.cards, products)
    ensures p.view.Cards? ==> forall i | 0 <= i < |p.view.cards| :: Passes(filter, p.view.cards[i])
    ensures p.view.Cards? ==> forall q :: multiset(p.view.cards)[q] == if Passes(filter, q) then multiset(products)[q] else 0
    ensures |p.fullSize| == |cardCategories|
    ensures forall i | 0 <= i < |p.fullSize| ::
      p.fullSize[i] <==> forall q: Product | q.category == cardCategories[i] :: Passes(filter, q)
  {
    CatalogPage(Display(products, filter), seq(|cardCategories|, i requires 0 <= i < |cardCategories| => Emphasised(filter, cardCategories[i])))
  }

  /** A click on a category card: when a filter button carries the card's
      category, that button is clicked; otherwise nothing changes. */
  function CategoryCardClicked(page: CatalogPage, products: seq<Product>, cardCategories: seq<string>,
                               filterValues: seq<string>, category: string): (r: CatalogPage)
    ensures category !in filterValues ==> r == page
    ensures category in filterValues ==> r == FilterClicked(products, cardCategories, category)
  {
    if category in filterValues then FilterClicked(products, cardCategories, category) else page
  }

  /** After a category card's click reaches a filter button, the clicked
      card is at full size, every product of its category is on display, and
      every other card's category is dimmed unless the card's category is
      `all`. */
  lemma CategoryCardFocuses(page: CatalogPage, products: seq<Product>, cardCategories: seq<string>,
                            filterValues: seq<string>, card: nat)
    requires card < |cardCategories| && cardCategories[card] in filterValues
    requires cardCategories[card] != AllFilter
    ensures var r := CategoryCardClicked(page, products, cardCategories, filterValues, cardCategories[card]);
      && r.fullSize[card]
      && (forall i | 0 <= i < |cardCategories| :: r.fullSize[i] <==> cardCategories[i] == cardCategories[card])
      && (r.view.Cards? ==> forall i | 0 <= i < |r.view.cards| :: r.view.cards[i].category == cardCategories[card])
      && (forall i | 0 <= i < |products| && products[i].category == cardCategories[card] ::
            r.view.Cards? && products[i] in r.view.cards)
  {
  }

  /** A click on a card's "request quote" button: the button carries the
      product's name and category, which go to `prefillContactForm`. */
  function QuoteRequested(selection: string, p: Product): (r: string)
    ensures p.name in ProductCategory ==> r == ProductCategory[p.name]
    ensures p.name !in ProductCategory ==> r == if Truthy(p.category) then p.category else selection
  {
    Prefill(selection, p.name, Given(p.category))
  }

  /** Asking for a quote from a card shown under a category filter
      preselects that category, unless the name table assigns the product
      another one. */
  lemma QuoteFromFilteredView(products: seq<Product>, filter: string, selection: string, card: nat)
    requires filter != AllFilter && filter != ""
    requires Display(products, filter).Cards? && card < |Display(products, filter).cards|
    ensures var p := Display(products, filter).cards[card];
      QuoteRequested(selection, p) == if p.name in ProductCategory then ProductCategory[p.name] else filter
  {
  }

  /** When the catalog's records agree with the name table, a quote request
      from any shown card preselects the card's own category. */
  lemma QuoteSelectsOwnCategory(selection: string, p: Product)
    requires p.category != ""
    requires p.name in ProductCategory ==> ProductCategory[p.name] == p.category
    ensures QuoteRequested(selection, p) == p.category
  {
  }
}
