/**
 * `extract_book_data`: one detail page to one record. Every field starts
 * as `''` (the URL aside) and is overwritten only when its element is
 * present; the field rules are those of the Fields, Properties, Labels and
 * Images modules. A request that raises is caught and gives no record.
 */
module Extractor {
  import opened Wrappers
  import opened Text
  import opened Html
  import opened Book
  import opened Fields
  import opened Properties
  import opened Labels
  import opened Images
  import Batching

  /**
   * The description field: `''` without the `text` div, else its stripped
   * paragraphs in order, one blank between neighbours.
   */
  function DescriptionField(div: Option<seq<string>>): (r: string)
    ensures div.None? ==> r == ""
    ensures div.Some? ==> forall k :: 0 <= k < |div.value| ==> Contains(r, Strip(div.value[k]))
    ensures div.Some? ==> LaidOut(r, StripAll(div.value), " ")
  {
    match div
    case None => ""
    case Some(paragraphs) => Description(paragraphs)
  }

  /** The categories field: `''` without the tags div, else its joined tag texts. */
  function CategoriesField(tags: Option<seq<string>>): (r: string)
    ensures tags.None? ==> r == ""
    ensures tags.Some? ==> LaidOut(r, StripAll(tags.value), ", ")
    ensures tags.Some? && |tags.value| >= 1 && (forall k :: 0 <= k < |tags.value| ==> ',' !in Strip(tags.value[k]))
      ==> StripAll(Split(r, ',')) == StripAll(tags.value)
  {
    match tags
    case None => ""
    case Some(ts) =>
      CategoriesReadBack(ts);
      Categories(ts)
  }

  /** `rating_span.get('data-rating')`, when present and non-empty; `''` otherwise. */
  function RatingField(attr: Option<string>): (r: string)
    ensures r != "" <==> attr.Some? && attr.value != ""
    ensures r != "" ==> r == attr.value
  {
    if attr.Some? && attr.value != "" then attr.value else ""
  }

  /** The record for the page at `url`. */
  function ExtractBookData(url: string, page: DetailPage): (r: BookRecord)
    ensures r.url == url
    ensures Trimmed(r.title) && Trimmed(r.currentPrice) && Trimmed(r.oldPrice)
    ensures Trimmed(r.discountPercent) && Trimmed(r.availability)
    ensures r.currentPriceNumeric == PriceToken(r.currentPrice) && ',' !in r.currentPriceNumeric
    ensures r.oldPriceNumeric == PriceToken(r.oldPrice) && ',' !in r.oldPriceNumeric
    ensures r.discountNumeric == DigitRun(r.discountPercent)
    ensures AllDigits(r.discountNumeric) && AllDigits(r.pagesNumeric)
    ensures r.rating == r.ratingNumeric
    ensures r.reviewsCount != "" && AllDigits(r.reviewsCount)
    ensures r.labels == "" <==> forall k :: 0 <= k < |FormLabels(page)| ==> !Eligible(FormLabels(page)[k])
    ensures r.imageUrl == "" <==> GalleryUrl(page.galleryImage).None? && PictureUrl(page.pictures).None?
    ensures page.title.Some? ==> r.title == Strip(page.title.value)
    ensures page.price.Some? ==> r.currentPrice == Strip(page.price.value)
    ensures page.oldPrice.Some? ==> r.oldPrice == Strip(page.oldPrice.value)
    ensures page.sale.Some? ==> r.discountPercent == Strip(page.sale.value)
    ensures page.availability.Some? ==> r.availability == Strip(page.availability.value)
    ensures r.description == DescriptionField(page.description)
    ensures r.rating == RatingField(page.ratingAttr)
    ensures r.reviewsCount == ReviewsCount(page.reviewCount)
    ensures r.labels == LabelsField(page)
    ensures r.categories == CategoriesField(page.tags)
    ensures r.imageUrl == ImageUrl(page)
  {
    var base := HeadFields(url, page);
    PagesNumericIsDigits(base, page.properties);
    TailFields(ApplyRows(base, page.properties), page)
  }

  /** The fields filled before the property rows are read: title, prices and discount. */
  function HeadFields(url: string, page: DetailPage): (r: BookRecord)
    ensures r.url == url && r.pagesNumeric == ""
    ensures r.isbn == r.publisher == r.author == r.pages == r.language == r.coverType == ""
    ensures r.title == StrippedOr(page.title)
    ensures r.currentPrice == StrippedOr(page.price) && r.currentPriceNumeric == PriceToken(r.currentPrice)
    ensures r.oldPrice == StrippedOr(page.oldPrice) && r.oldPriceNumeric == PriceToken(r.oldPrice)
    ensures r.discountPercent == StrippedOr(page.sale) && r.discountNumeric == DigitRun(r.discountPercent)
  {
    var title := StrippedOr(page.title);
    var price := StrippedOr(page.price);
    var oldPrice := StrippedOr(page.oldPrice);
    var discount := StrippedOr(page.sale);
    Blank(url).(
      title := title,
      currentPrice := price,
      currentPriceNumeric := PriceToken(price),
      oldPrice := oldPrice,
      oldPriceNumeric := PriceToken(oldPrice),
      discountPercent := discount,
      discountNumeric := DigitRun(discount))
  }

  /** The fields filled after the property rows: description through image URL. */
  function TailFields(r: BookRecord, page: DetailPage): (out: BookRecord)
    ensures SameOutsideTail(r, out)
    ensures out.description == DescriptionField(page.description)
    ensures out.rating == RatingField(page.ratingAttr) && out.ratingNumeric == out.rating
    ensures out.reviewsCount == ReviewsCount(page.reviewCount)
    ensures out.availability == StrippedOr(page.availability)
    ensures out.labels == LabelsField(page)
    ensures out.categories == CategoriesField(page.tags)
    ensures out.imageUrl == ImageUrl(page)
  {
    var rating := RatingField(page.ratingAttr);
    r.(
      description := DescriptionField(page.description),
      rating := rating,
      ratingNumeric := rating,
      reviewsCount := ReviewsCount(page.reviewCount),
      availability := StrippedOr(page.availability),
      labels := LabelsField(page),
      categories := CategoriesField(page.tags),
      imageUrl := ImageUrl(page))
  }

  /** Every field filled before the tail is left as it was. */
  ghost predicate SameOutsideTail(a: BookRecord, b: BookRecord) {
    && a.url == b.url && a.title == b.title
    && a.currentPrice == b.currentPrice && a.currentPriceNumeric == b.currentPriceNumeric
    && a.oldPrice == b.oldPrice && a.oldPriceNumeric == b.oldPriceNumeric
    && a.discountPercent == b.discountPercent && a.discountNumeric == b.discountNumeric
    && a.isbn == b.isbn && a.publisher == b.publisher && a.author == b.author
    && a.pages == b.pages && a.pagesNumeric == b.pagesNumeric
    && a.language == b.language && a.coverType == b.coverType
  }

  /** A missing element leaves its field (and its numeric companion) at `''`. */
  lemma MissingElementsStayEmpty(url: string, page: DetailPage)
    ensures var r := ExtractBookData(url, page);
      && (page.title.None? ==> r.title == "")
      && (page.price.None? ==> r.currentPrice == "" && r.currentPriceNumeric == "")
      && (page.oldPrice.None? ==> r.oldPrice == "" && r.oldPriceNumeric == "")
      && (page.sale.None? ==> r.discountPercent == "" && r.discountNumeric == "")
      && (page.ratingAttr.None? ==> r.rating == "" && r.ratingNumeric == "")
      && (page.reviewCount.None? ==> r.reviewsCount == "0")
      && (page.availability.None? ==> r.availability == "")
      && (page.description.None? ==> r.description == "")
      && (page.tags.None? ==> r.categories == "")
  {
  }

  /**
   * A property field holds the stripped value of the last row routed to it,
   * whatever rows came before.
   */
  lemma ExtractedSlotFromLastRow(url: string, page: DetailPage, k: nat, t: Target)
    requires k < |page.properties| && RowTarget(page.properties[k]) == Some(t)
    requires forall j :: k < j < |page.properties| ==> RowTarget(page.properties[j]) != Some(t)
    ensures Slot(ExtractBookData(url, page), t) == Strip(page.properties[k].value.value)
  {
    LastRoutedRowWins(HeadFields(url, page), page.properties, k, t);
  }

  /** A property field no row is routed to stays `''`. */
  lemma ExtractedSlotUnrouted(url: string, page: DetailPage, t: Target)
    requires forall k :: 0 <= k < |page.properties| ==> RowTarget(page.properties[k]) != Some(t)
    ensures Slot(ExtractBookData(url, page), t) == ""
  {
    UnroutedSlotKept(HeadFields(url, page), page.properties, t);
  }

  /** `pages_numeric` is the digit run of the last pages row whose value holds a digit. */
  lemma ExtractedPagesNumeric(url: string, page: DetailPage, k: nat)
    requires k < |page.properties| && NumberedPagesRow(page.properties[k])
    requires forall j :: k < j < |page.properties| ==> !NumberedPagesRow(page.properties[j])
    ensures ExtractBookData(url, page).pagesNumeric == DigitRun(Strip(page.properties[k].value.value))
  {
    PagesNumericFromLastNumberedRow(HeadFields(url, page), page.properties, k);
  }

  /** Without a pages row holding a digit, `pages_numeric` stays `''`. */
  lemma ExtractedPagesNumericEmpty(url: string, page: DetailPage)
    requires forall j :: 0 <= j < |page.properties| ==> !NumberedPagesRow(page.properties[j])
    ensures ExtractBookData(url, page).pagesNumeric == ""
  {
    NumericKeptWithoutDigits(HeadFields(url, page), page.properties);
  }

  /** A page with none of the elements gives the blank record, with `reviews_count` `"0"`. */
  lemma BarePage(url: string)
    ensures ExtractBookData(url, DetailPage(None, None, None, None, [], None, None, None, None, None, None, None, None, []))
      == Blank(url).(reviewsCount := "0")
  {
  }

  /**
   * The property rows decide only the six routed fields and `pages_numeric`:
   * dropping every row changes nothing else.
   */
  lemma PropertiesTouchOnlyTheirFields(url: string, page: DetailPage)
    ensures SameOutsideProperties(ExtractBookData(url, page), ExtractBookData(url, page.(properties := [])))
  {
    var bare := page.(properties := []);
    var base := HeadFields(url, page);
    assert HeadFields(url, bare) == base;
    TailIgnoresRows(ApplyRows(base, page.properties), base, page);
  }

  /** The fields filled after the rows depend neither on the rows nor on what they routed. */
  lemma TailIgnoresRows(a: BookRecord, b: BookRecord, page: DetailPage)
    requires SameOutsideProperties(a, b)
    ensures SameOutsideProperties(TailFields(a, page), TailFields(b, page.(properties := [])))
  {
    LabelsIgnoreRows(page);
    ImageIgnoresRows(page);
  }

  lemma LabelsIgnoreRows(page: DetailPage)
    ensures LabelsField(page.(properties := [])) == LabelsField(page)
  {
    assert FormLabels(page.(properties := [])) == FormLabels(page);
  }

  lemma ImageIgnoresRows(page: DetailPage)
    ensures ImageUrl(page.(properties := [])) == ImageUrl(page)
  {
    var bare := page.(properties := []);
    assert bare.galleryImage == page.galleryImage && bare.pictures == page.pictures;
  }

  /** The record's value list follows the 23 keys in order, the URL first. */
  lemma RecordFollowsKeys(url: string, page: DetailPage)
    ensures var r := ExtractBookData(url, page);
      |Values(r)| == |KeyOrder| && Values(r)[0] == url && Get(r, "url") == Some(url)
  {
  }

  // ---------------------------------------------------------------------------
  // The detail task

  /**
   * One detail task: fetch the page and extract its record; a failed request
   * is caught and becomes `None`. The fetch is a parameter.
   */
  function DetailTask(fetch: string -> Option<DetailPage>, url: string): (r: Batching.TaskResult)
    ensures r.Done? <==> fetch(url).Some?
    ensures r.Done? ==> r.book.url == url && r.book == ExtractBookData(url, fetch(url).value)
    ensures !r.Raised?
  {
    match fetch(url)
    case None => Batching.NoResult
    case Some(page) => Batching.Done(ExtractBookData(url, page))
  }
}
