/**
 * The parsed pages, abstracted to exactly the elements the scraper's
 * selectors reach. Element texts are `.text` of the element; attributes
 * are `None` when missing. Every "first element of this class" lookup of
 * the scraper is already resolved here, so an `Option` is that lookup.
 */
module Html {
  import opened Wrappers

  // ---------------------------------------------------------------------------
  // Collection (listing) pages

  /** The `product-card__title` anchor of a product card, if any. */
  datatype Anchor = Anchor(href: Option<string>)

  /** A `form` carrying `data-product-id`: one product card of a listing page. */
  datatype ProductCard = ProductCard(titleLink: Option<Anchor>)

  // ---------------------------------------------------------------------------
  // Detail pages

  /** A `properties__item` row: its name and value cells, each possibly missing. */
  datatype PropertyRow = PropertyRow(name: Option<string>, value: Option<string>)

  /** A `labels__item` span: its class list, `data-label-title` attribute and text. */
  datatype Label = Label(classes: seq<string>, titleAttr: Option<string>, text: string)

  /**
   * A purchase form (`form[data-main-form]` or `div.product__form`); `labels`
   * holds the `labels__item` spans of its `labels` div, `None` when the form
   * has no such div.
   */
  datatype PurchaseForm = PurchaseForm(labels: Option<seq<Label>>)

  /** The first `img` of the main gallery: its `src` and `data-src`. */
  datatype Image = Image(src: Option<string>, dataSrc: Option<string>)

  /** The first `source` of a `picture`: its `srcset` and `data-srcset`. */
  datatype Source = Source(srcset: Option<string>, dataSrcset: Option<string>)

  datatype Picture = Picture(source: Option<Source>)

  datatype DetailPage = DetailPage(
    title: Option<string>,                // h1.product__title
    price: Option<string>,                // div.product__price
    oldPrice: Option<string>,             // div.product__old-price
    sale: Option<string>,                 // span.labels__item_type_sale (anywhere)
    properties: seq<PropertyRow>,         // div.properties__item, in document order
    description: Option<seq<string>>,     // the paragraphs of div.text
    ratingAttr: Option<string>,           // data-rating of span.rating__stars
    reviewCount: Option<string>,          // span.rating__count
    availability: Option<string>,         // span[data-product-card-available]
    mainForm: Option<PurchaseForm>,       // form[data-main-form]
    formDiv: Option<PurchaseForm>,        // div.product__form
    tags: Option<seq<string>>,            // a.product-tags__item texts of div.product__tags
    galleryImage: Option<Image>,          // first img of div.product-gallery__main
    pictures: seq<Picture>                // every picture element, in document order
  )
}
