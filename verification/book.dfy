/**
 * The record built for one detail page: a dictionary with a fixed set of 23
 * string-valued keys, inserted in a fixed order, modelled as a datatype with
 * one field per key plus the key list that gives the column order.
 */
module Book {
  import opened Wrappers

  datatype BookRecord = BookRecord(
    url: string,
    title: string,
    currentPrice: string,
    currentPriceNumeric: string,
    oldPrice: string,
    oldPriceNumeric: string,
    discountPercent: string,
    discountNumeric: string,
    isbn: string,
    publisher: string,
    author: string,
    pages: string,
    pagesNumeric: string,
    language: string,
    coverType: string,
    description: string,
    rating: string,
    ratingNumeric: string,
    reviewsCount: string,
    availability: string,
    labels: string,
    categories: string,
    imageUrl: string
  )

  /** The dictionary keys, in insertion order. */
  const KeyOrder: seq<string> := [
    "url", "title", "current_price", "current_price_numeric", "old_price",
    "old_price_numeric", "discount_percent", "discount_numeric", "isbn",
    "publisher", "author", "pages", "pages_numeric", "language", "cover_type",
    "description", "rating", "rating_numeric", "reviews_count", "availability",
    "labels", "categories", "image_url"
  ]

  /** The record before any element has been looked at: the URL and 22 empty strings. */
  function Blank(url: string): (r: BookRecord)
    ensures |Values(r)| == |KeyOrder| == 23
    ensures Get(r, "url") == Some(url)
    ensures forall j :: 1 <= j < |KeyOrder| ==> Values(r)[j] == ""
  {
    BookRecord(url, "", "", "", "", "", "", "", "", "", "", "", "", "", "", "", "", "", "", "", "", "", "")
  }

  /** The record's values in key order (`record.values()`). */
  function Values(r: BookRecord): seq<string> {
    [ r.url, r.title, r.currentPrice, r.currentPriceNumeric, r.oldPrice,
      r.oldPriceNumeric, r.discountPercent, r.discountNumeric, r.isbn,
      r.publisher, r.author, r.pages, r.pagesNumeric, r.language, r.coverType,
      r.description, r.rating, r.ratingNumeric, r.reviewsCount, r.availability,
      r.labels, r.categories, r.imageUrl ]
  }

  /** Dictionary lookup `record.get(key)`. */
  function Get(r: BookRecord, key: string): Option<string> {
    match key
    case "url" => Some(r.url)
    case "title" => Some(r.title)
    case "current_price" => Some(r.currentPrice)
    case "current_price_numeric" => Some(r.currentPriceNumeric)
    case "old_price" => Some(r.oldPrice)
    case "old_price_numeric" => Some(r.oldPriceNumeric)
    case "discount_percent" => Some(r.discountPercent)
    case "discount_numeric" => Some(r.discountNumeric)
    case "isbn" => Some(r.isbn)
    case "publisher" => Some(r.publisher)
    case "author" => Some(r.author)
    case "pages" => Some(r.pages)
    case "pages_numeric" => Some(r.pagesNumeric)
    case "language" => Some(r.language)
    case "cover_type" => Some(r.coverType)
    case "description" => Some(r.description)
    case "rating" => Some(r.rating)
    case "rating_numeric" => Some(r.ratingNumeric)
    case "reviews_count" => Some(r.reviewsCount)
    case "availability" => Some(r.availability)
    case "labels" => Some(r.labels)
    case "categories" => Some(r.categories)
    case "image_url" => Some(r.imageUrl)
    case _ => None
  }

  /** The j-th value is what a lookup of the j-th key returns. */
  lemma KeysAndValuesAgree(r: BookRecord)
    ensures |Values(r)| == |KeyOrder|
    ensures forall j :: 0 <= j < |KeyOrder| ==> Get(r, KeyOrder[j]) == Some(Values(r)[j])
  {
    var vs := Values(r);
    forall j | 0 <= j < |KeyOrder|
      ensures Get(r, KeyOrder[j]) == Some(vs[j])
    {
      KeyAt(r, j);
    }
  }

  /** One position of the key list at a time. */
  lemma KeyAt(r: BookRecord, j: nat)
    requires j < |KeyOrder|
    ensures Get(r, KeyOrder[j]) == Some(Values(r)[j])
  {
  }

  /** No key is listed twice. */
  lemma KeysDistinct()
    ensures forall i, j :: 0 <= i < j < |KeyOrder| ==> KeyOrder[i] != KeyOrder[j]
  {
  }

  /** A lookup succeeds exactly for the listed keys. */
  lemma OnlyListedKeys(r: BookRecord, key: string)
    ensures Get(r, key).Some? <==> key in KeyOrder
  {
  }
}
