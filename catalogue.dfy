/**
 * What the scraper sees of the bookshop: catalogue pages made of listing items, and
 * for each item the outcome of fetching its detail page. Fetching and HTML parsing are
 * not modelled; their results are given here as values. Also the per-field extraction
 * rules that turn one listing item and its detail page into one output record.
 */
module Catalogue {
  import opened Wrappers
  import opened Text

  /** The `<div id="product_description">` element, with the text of its next `<p>` sibling if there is one. */
  datatype DescriptionDiv = DescriptionDiv(nextParagraph: Option<string>)

  /**
   * A fetched book detail page: the text of its `<p class="instock availability">`
   * element, if present, and its product-description container, if present.
   */
  datatype DetailPage = DetailPage(stockText: Option<string>, descriptionDiv: Option<DescriptionDiv>)

  /** Fetching a detail page either fails (network error or a 4xx or 5xx status) or yields the page. */
  datatype DetailOutcome = FetchFailed | Fetched(page: DetailPage)

  /**
   * The class tokens of a listing's `<p class="star-rating ...">` element. The rating is
   * read as the second token, so the listing fragment is taken to carry at least two.
   */
  type RatingClasses = s: seq<string> | |s| >= 2 witness ["star-rating", "Three"]

  /**
   * One `<article class="product_pod">` on a catalogue page: the title attribute of its
   * link, its price text, its rating classes, and what fetching its detail page gives.
   */
  datatype ListingItem = ListingItem(title: string, price: string, ratingClasses: RatingClasses, detail: DetailOutcome)

  /**
   * A catalogue page as the driver receives it: either its fetch failed, or it was
   * parsed into its listing items and whether it has a `<li class="next">` link.
   */
  datatype CataloguePage = FetchError | Listing(items: seq<ListingItem>, hasNext: bool)

  /** One row of output, with the five columns the writer emits. */
  datatype Record = Record(name: string, price: string, rating: string, stock: string, description: string)

  /** The sentinel used for a field whose element is absent. */
  const NotAvailable: string := "N/A"

  /** The stock field: the stripped text of the stock element, or the sentinel when there is no such element. */
  function StockField(stockText: Option<string>): string
  {
    match stockText
    case None => NotAvailable
    case Some(text) => Strip(text)
  }

  /**
   * The description field: the text of the paragraph that follows the description
   * container, or the sentinel when the container or that paragraph is absent.
   */
  function DescriptionField(div: Option<DescriptionDiv>): string
  {
    if div.Some? && div.value.nextParagraph.Some? then div.value.nextParagraph.value else NotAvailable
  }

  /** The rating field: the second class token of the star-rating element (e.g. "Three"). */
  function RatingField(classes: RatingClasses): string
  {
    classes[1]
  }

  /**
   * The record for an item whose detail page was fetched: name, price and rating come
   * from the listing fragment, stock and description from the detail page.
   */
  function ToRecord(item: ListingItem): Record
    requires item.detail.Fetched?
  {
    Record(item.title, item.price, RatingField(item.ratingClasses),
           StockField(item.detail.page.stockText), DescriptionField(item.detail.page.descriptionDiv))
  }

  /**
   * Where each column of a record comes from; a missing stock element or a missing
   * description (container or paragraph) shows up as the sentinel, never as an absent field.
   */
  lemma RecordFields(item: ListingItem)
    requires item.detail.Fetched?
    ensures ToRecord(item).name == item.title && ToRecord(item).price == item.price
    ensures ToRecord(item).rating == item.ratingClasses[1]
    ensures item.detail.page.stockText.None? ==> ToRecord(item).stock == NotAvailable
    ensures item.detail.page.stockText.Some? ==> ToRecord(item).stock == Strip(item.detail.page.stockText.value)
    ensures item.detail.page.descriptionDiv.None? ==> ToRecord(item).description == NotAvailable
    ensures item.detail.page.descriptionDiv.Some? && item.detail.page.descriptionDiv.value.nextParagraph.None? ==>
      ToRecord(item).description == NotAvailable
    ensures item.detail.page.descriptionDiv.Some? && item.detail.page.descriptionDiv.value.nextParagraph.Some? ==>
      ToRecord(item).description == item.detail.page.descriptionDiv.value.nextParagraph.value
  {
  }
}
