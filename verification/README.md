# alinino_az scraper — a Dafny model

This project models the core of `scraper.py`, the asynchronous scraper for
the alinino.az book shop. The model has five parts:

- **Link filter.** Turns the product cards of a collection page into absolute detail-page links.
- **Pagination walker.** Requests `collection`, `collection?page=2`, … until a page yields no link or the optional page ceiling is passed.
- **Field extraction.** Turns one parsed detail page into the 23-key book record.
- **Batch loop.** Cuts the links into batches, gathers each batch's detail tasks in submission order, keeps only the records, and pauses between batches.
- **CSV save.** Applies the empty-list guard and the header choice.

Parsed HTML is an abstract value (`Html`). Each `soup.find` lookup becomes an `Option`; each `find_all` becomes a sequence. HTTP requests and `urljoin` are function parameters, and a failed request is `None`. Everything else is pure functions over `string` and `seq`.

Modules, in dependency order:

| module | file | content |
|---|---|---|
| `Wrappers` | wrappers.dfy | `Option`, `Result` |
| `Text` | text.dfy | Python string behaviour used by the scraper: `isspace`/`strip`, `replace`, `lower`, `in`, first-match runs of a character class (`re.search` with `[...]+`), `join`/`split`, integer formatting |
| `Html` | html.dfy | the abstract listing and detail pages |
| `Book` | book.dfy | the 23-field record, its key order and `dict.get` |
| `Fields` | fields.dfy | price tokens, digit runs, review-count default, description and category joins |
| `Properties` | properties.dfy | keyword routing of property rows and the row loop |
| `Labels` | labels.dfy | label selection and de-duplication |
| `Images` | images.dfy | the two-tier image URL |
| `Extractor` | extractor.dfy | `extract_book_data` and the detail task |
| `Listing` | listing.dfy | `get_book_links_from_page` |
| `Pagination` | pagination.dfy | the page loop of `scrape_collection` |
| `Batching` | batching.dfy | the batch loop of `scrape_collection` |
| `Crawler` | crawler.dfy | `scrape_collection` as a whole |
| `Writer` | writer.dfy | `save_to_csv` |

Three behaviours of the code worth noting:

- **Result order.** `asyncio.gather` returns results in submission order, not completion order. The kept records therefore follow the link order (`Batching.RunKeepsLinkOrder`).
- **Label de-duplication.** The `seen` set holds the raw title (`data-label-title` or stripped text), while the output holds `title.strip()`. Two labels whose titles differ only in surrounding blanks both appear. `Labels.Collect` models exactly that.
- **`pages_numeric`.** It is overwritten only by a pages row that holds a digit. A later digit-free pages row replaces `pages` but not `pages_numeric` (`Properties.PagesNumericCanLag`).

## Model

| member | source | states |
|---|---|---|
| Book.Blank | scraper.py:48-72 | the initial record holds 23 values in key order; `url` is the page URL and the other 22 are `''` |
| Book.KeysAndValuesAgree | scraper.py:48-72 | the j-th value of the record is what a lookup of the j-th key returns |
| Book.KeysDistinct | scraper.py:48-72 | the 23 keys are pairwise distinct |
| Book.OnlyListedKeys | scraper.py:48-72 | a lookup succeeds exactly for the 23 listed keys |
| Text.Strip | scraper.py:77 | `strip()` result has no whitespace at either end, is never longer, leaves a trimmed text unchanged, is empty exactly when the text is all whitespace, and is reached from the text by cutting whitespace characters from the two ends only (`CutFrom`), so nothing inside is removed |
| Text.Replace | scraper.py:87 | `replace(a, b)` keeps the length and swaps every `a` for `b`, leaving every other character in place |
| Text.Remove | scraper.py:85 | `replace(c, '')` leaves no `c`, keeps every other character, and is the identity when `c` is absent |
| Text.Lower | scraper.py:115 | `lower()` maps each character through the case mapping and keeps the length |
| Text.LowerIdempotent | scraper.py:115 | lower-casing twice equals lower-casing once |
| Text.ContainsIff | scraper.py:118 | the substring test `t in s` holds exactly when `t` occurs at some index of `s` |
| Text.FirstRunIsLeftmostMaximal | scraper.py:85 | the first match of `[class]+` is empty exactly when no character is in the class; otherwise it is a maximal run that starts at the first class character |
| Text.CommaJoinRoundTrip | scraper.py:183 | splitting a `", "`-join of comma-free, trimmed entries at `,` and stripping each piece gives the entries back |
| Text.DecimalRoundTrip | scraper.py:237 | the decimal text of a page number reads back as that number |
| Text.DecimalInjective | scraper.py:237 | different page numbers have different decimal texts |
| Fields.StrippedOr | scraper.py:75-77 | a present element gives exactly its stripped text; a missing one leaves `''` |
| Fields.PriceToken | scraper.py:80-87 | the numeric token has no comma and holds only digits and dots; it is `''` exactly when the price text has no digit, dot or comma |
| Fields.PriceTokenIsFirstRun | scraper.py:85-87 | the token is, character by character, the leftmost maximal `[\d.,]` run of the blank-free text with commas read as dots |
| Fields.DecimalCommaExample | scraper.py:85-87 | `"12,50 AZN"` gives `"12.50"` |
| Fields.GroupedPriceExample | scraper.py:85-87 | `"1 250,00 AZN"` gives `"1250.00"`: blanks vanish before the match |
| Fields.DigitRun | scraper.py:104-106 | the result is all digits; it is empty exactly when the text has no digit; otherwise it is the leftmost maximal digit run |
| Fields.ReviewsCount | scraper.py:151-161 | the count is never empty and all digits: the first digit run of the stripped counter text, else `"0"`, and `"0"` when the counter is missing |
| Fields.JoinStripped | scraper.py:140 | joining the stripped parts gives `''` for no parts; otherwise the stripped parts lie in order, each at its offset, with the separator between neighbours and nothing else (`LaidOut`) |
| Fields.JoinStrippedIsLayout | scraper.py:140 | a text is the join of the stripped parts exactly when it has that layout: the layout determines the join |
| Fields.JoinLaidOut | scraper.py:140 | `sep.join(xs)` puts part k at offset `Offset(xs, sep, k)` with `sep` between neighbours, and ends with the last part |
| Fields.LaidOutIsJoin | scraper.py:140 | any text with that layout is `sep.join(xs)` |
| Fields.CategoriesReadBack | scraper.py:189 | when no stripped tag text has a comma, splitting the categories at `,` and stripping recovers the stripped tag texts |
| Fields.JoinLength | scraper.py:140 | a join is as long as its parts plus one separator between neighbours |
| Properties.RouteIsChain | scraper.py:118-133 | the table-driven router (keywords per field, tried in a fixed order) agrees with the source's `if`/`elif` chain on every name |
| Properties.NormaliseName | scraper.py:115 | the normalised name is the stripped name with every colon dropped, each remaining character in lower case; so it holds no colon and is already in lower case |
| Properties.NormaliseKeepsWord | scraper.py:115-133 | any colon-free, lower-case keyword written in the stripped name is still in the normalised name the router tests |
| Properties.RouteIsFirstMention | scraper.py:118-133 | a name is routed to a field exactly when it mentions one of that field's keywords and no keyword of an earlier field |
| Properties.RouteNoneIffNoMention | scraper.py:118-133 | a name is routed nowhere exactly when it mentions no keyword at all |
| Properties.Assign | scraper.py:118-133 | a routed value lands in its own field only; `pages_numeric` follows only when the value holds a digit; no non-property field changes |
| Properties.ApplyRow | scraper.py:111-133 | an unrouted row, or one missing a cell, changes nothing; a routed row puts its stripped value into its own field, leaves the other five property fields as they were, sets `pages_numeric` only for a pages value holding a digit, and touches no other field |
| Properties.ApplyRows | scraper.py:109-133 | the row loop never touches a field outside the six routed ones and `pages_numeric` |
| Properties.IncompleteRowIgnored | scraper.py:114 | a row missing its name or value cell leaves the record unchanged |
| Properties.UnroutedSlotKept | scraper.py:109-133 | a field that no row routes to keeps its value |
| Properties.LastRoutedRowWins | scraper.py:109-133 | a field holds the stripped value of the last row routed to it |
| Properties.PagesNumericFromLastNumberedRow | scraper.py:124-129 | `pages_numeric` is the digit run of the last pages row whose value holds a digit |
| Properties.NumericKeptWithoutDigits | scraper.py:127-129 | pages rows without digits leave `pages_numeric` alone |
| Properties.PagesNumericIsDigits | scraper.py:127-129 | `pages_numeric` only ever holds digits |
| Properties.SinglePagesRowAgrees | scraper.py:124-129 | with a single pages row and `pages_numeric` still empty, `pages_numeric` is the digit run of `pages` |
| Properties.PagesNumericCanLag | scraper.py:124-129 | after rows `Səhifə:`/`320` then `Pages`/`n/a`, `pages` is `n/a` while `pages_numeric` stays `320` |
| Labels.CandidatesAreEligibleTitles | scraper.py:176-180 | a title is a candidate exactly when some non-sale label with a non-blank title carries it |
| Labels.Collect | scraper.py:174-182 | the source's loop keeps only titles not already seen and not blank once stripped, keeps each at most once, and keeps no more titles than there are labels |
| Labels.Dedup | scraper.py:174-182 | the de-duplicated titles are pairwise distinct, and a title is kept exactly when it occurs and was not already seen |
| Labels.DedupKeepsFirstSeenOrder | scraper.py:174-182 | the kept titles appear in the order of their first occurrence |
| Labels.CollectIsDedup | scraper.py:174-182 | the source's loop with its `seen` set equals de-duplication of the eligible titles |
| Labels.KeptTitles | scraper.py:169-182 | the kept raw titles are pairwise distinct, exactly the titles of eligible labels, in first-seen order |
| Labels.LabelsField | scraper.py:172-183 | the field is `''` exactly when the chosen form has no eligible label; it is the stripped kept titles, in first-seen order, laid end to end with `', '` between neighbours |
| Labels.SaleLabelIgnored | scraper.py:178 | removing a sale label anywhere leaves the kept titles unchanged |
| Labels.MainFormShadowsFormDiv | scraper.py:169 | with a `data-main-form` form present, the `product__form` div is never read |
| Labels.LabelsReadBack | scraper.py:181-183 | when no stripped title has a comma, splitting the field at `,` and stripping recovers the stripped kept titles |
| Images.GalleryUrl | scraper.py:193-200 | the gallery candidate (`src`, else `data-src`) is taken exactly when it is non-empty and contains `products` |
| Images.FindHttpsFrom | scraper.py:211 | the search finds nothing exactly when no `https://` followed by a non-blank starts at or after the start index; otherwise it finds the leftmost such index |
| Images.MatchAt | scraper.py:211 | the match at a matching index is `https://` followed by the longest run of non-blanks (the greedy `[^\s]+`) |
| Images.FindHttps | scraper.py:211 | `re.search` fails exactly when no index matches; otherwise it returns the greedy match at the leftmost matching index |
| Images.PictureCandidate | scraper.py:206-213 | a picture offers a URL exactly when it has a source whose srcset mentions `products` and holds an `https://` match; the URL starts with `https://`, has no blank, and is the first match |
| Images.PictureUrl | scraper.py:203-214 | the picture tier fails exactly when no picture offers a URL |
| Images.PictureUrlIsFirstOffer | scraper.py:205-214 | the URL found is the offer of a picture that no earlier picture pre-empts (the `break`) |
| Images.ImageUrl | scraper.py:193-214 | the gallery wins when it has a product image; otherwise the picture tier; `''` exactly when both fail |
| Images.GalleryShadowsPictures | scraper.py:203 | once the gallery yields a product image, the pictures are never consulted |
| Extractor.RatingField | scraper.py:144-148 | the rating is the `data-rating` attribute when present and non-empty, else `''` |
| Extractor.DescriptionField | scraper.py:136-141 | no `text` div leaves `''`; otherwise the description is the stripped paragraphs in document order, each at its offset, one blank between neighbours and nothing else |
| Extractor.CategoriesField | scraper.py:186-189 | no tags div leaves `''`; otherwise the field is the stripped tag texts laid end to end with `', '` between neighbours (`''` for no tags), and, when no tag text has a comma, it reads back as those texts |
| Extractor.ExtractBookData | scraper.py:47-216 | `url` is the input; title, prices, discount and availability are the stripped element texts when present; description, rating, reviews count, labels, categories and image URL are the respective field rules applied to the page; each numeric field is the token of its display field; `rating_numeric` equals `rating`; `reviews_count` is non-empty digits |
| Extractor.ExtractedSlotFromLastRow | scraper.py:109-133 | in the extracted record, a property field holds the stripped value of the last row routed to it |
| Extractor.ExtractedSlotUnrouted | scraper.py:109-133 | a property field that no row routes to is `''` in the extracted record |
| Extractor.ExtractedPagesNumeric | scraper.py:124-129 | `pages_numeric` of the extracted record is the digit run of the last pages row whose value holds a digit |
| Extractor.ExtractedPagesNumericEmpty | scraper.py:124-129 | without a pages row holding a digit, `pages_numeric` of the extracted record is `''` |
| Extractor.MissingElementsStayEmpty | scraper.py:74-166 | a missing element leaves its field and its numeric companion at `''` (`reviews_count` at `"0"`) |
| Extractor.BarePage | scraper.py:47-161 | a page with none of the elements gives the blank record with `reviews_count` `"0"` |
| Extractor.PropertiesTouchOnlyTheirFields | scraper.py:109-133 | dropping every property row changes nothing outside the routed fields |
| Extractor.DetailTask | scraper.py:42-220 | a task yields a record exactly when its request succeeds; that record is the extraction of the fetched page, with the link as its `url`; the task never passes an exception on |
| Listing.BookLinks | scraper.py:28-38 | a page never yields more links than it has cards |
| Listing.OneLinkPerUsableCard | scraper.py:30-35 | each card with a non-empty title `href` contributes exactly one link |
| Listing.NoLinksIffNoUsableCard | scraper.py:30-35 | a page yields no link exactly when no card has a non-empty title `href` |
| Listing.LinksAreResolvedHrefs | scraper.py:33-35 | a link is present exactly when it is the resolution of some usable card's `href` |
| Listing.LinksOfConcat | scraper.py:30-35 | card order is kept: the links of two runs of cards are each run's links in turn |
| Pagination.PageUrl | scraper.py:234-237 | page 1 is the collection URL itself; any other page is the collection URL, then `?page=`, then a digit string that reads back as the page number |
| Pagination.PageUrlsDistinct | scraper.py:234-237 | different page numbers give different URLs |
| Pagination.Walk | scraper.py:229-247 | the walk makes at most `fuel` requests and ends with `OutOfFuel` only after exactly `fuel`; it requests nothing exactly when the start page is past a truthy `max_pages` or there is no fuel |
| Pagination.EarlierPagesProductive | scraper.py:242-247 | every requested page before the last yielded links |
| Pagination.StopReason | scraper.py:229-244 | the walk stops on an empty page, which contributes nothing; on a listing request that raised; or when the next page number passes the ceiling |
| Pagination.CollectLinks | scraper.py:226-247 | the k-th request is page k+1; with a ceiling, no page above it is requested; the links are the concatenation of the requested pages' links |
| Pagination.WalkRequestsInOrder | scraper.py:234-247 | pages are requested at consecutive page numbers |
| Pagination.WalkBelowCeiling | scraper.py:230-231 | with a truthy `max_pages`, no page above it is requested |
| Pagination.WalkGathers | scraper.py:240-247 | the links are the in-order concatenation of the requested pages' links |
| Pagination.CeilingBoundsFuel | scraper.py:230-231 | with a ceiling, fuel for the pages up to it is enough, so the bound never cuts the walk short |
| Pagination.FuelMonotone | scraper.py:229-247 | once the walk ends on its own, more fuel changes nothing |
| Pagination.PagesRequestedOnce | scraper.py:229-247 | no page URL is requested twice |
| Batching.BatchesCover | scraper.py:254-255 | the batches concatenate to the link list, nothing lost, repeated or reordered |
| Batching.Batches | scraper.py:254-255 | there are batches exactly when links remain; every batch is non-empty and at most `batch_size` long; all but the last are exactly `batch_size` long |
| Batching.BatchCount | scraper.py:254-257 | the number of batches is `(n + batch_size - 1) // batch_size` |
| Batching.GatherInSubmissionOrder | scraper.py:261-262 | one result per link, in submission order |
| Batching.KeptIffDone | scraper.py:265-267 | a record is kept exactly when some result carries it |
| Batching.KeptPlusFailures | scraper.py:265-269 | a batch keeps as many records as it has results, less its `None`s and exceptions |
| Batching.RunBatches | scraper.py:254 | a zero batch size raises; a negative one processes nothing |
| Batching.RunFrom | scraper.py:254-275 | the loop does something exactly when links remain; it starts with a batch, and batches and pauses alternate |
| Batching.RunKeepsLinkOrder | scraper.py:254-275 | batching neither loses, adds nor reorders a kept record relative to gathering all links at once |
| Batching.ScheduleShape | scraper.py:254-275 | the loop gathers exactly the batches, pauses one time fewer, and never ends on a pause |
| Batching.RecordsComeFromLinks | scraper.py:254-269 | a record is kept exactly when the task for some link returned it |
| Crawler.ScrapeCollection | scraper.py:222-277 | the scrape fails exactly when a listing request raised or the batch size is zero; a negative batch size gives no records |
| Crawler.ScrapedInLinkOrder | scraper.py:226-277 | the records are those of the collected links whose detail request succeeded, in link order |
| Crawler.ScrapedUrlsAreLinks | scraper.py:246-267 | every record's `url` is a collected link, and the record is the extraction of that link's page |
| Crawler.ScrapedCount | scraper.py:254-269 | the number of records equals the number of links whose detail request succeeded |
| Writer.SaveToCsv | scraper.py:281-290 | nothing is written exactly when the list is empty; otherwise the header is the key order and each row holds, per column, the record's value for that key |
| Writer.RowsAreValues | scraper.py:285-290 | each row is its record's values in key order |
| Writer.TableReadsBack | scraper.py:285-290 | reading each row back in key order gives the saved record |

## Left out

- HTTP sessions, headers, the 30-second timeout and `response.text()`. Both fetches are parameters; `None` stands for a request that raised.
- `asyncio.Semaphore(max_concurrent)` and the concurrency of `asyncio.gather`. Results are modelled in submission order, which is the order `gather` returns them in.
- `asyncio.sleep(1)`. The pause is an event in the schedule; its duration is not modelled.
- BeautifulSoup parsing. Pages are given already parsed as `Html` values, one `Option` per `find` and one sequence per `find_all`.
- `urljoin`. It is a parameter of the link filter and of the walker.
- All `print` logging, `main()` and the file name argument of `save_to_csv`.
- CSV quoting and file output. Only the empty-list guard, the header and the row contents are modelled.
- `analyze.py`. It is floating-point statistics and plotting over the CSV file.
- Text.Lower: covers ASCII, Latin-1 capitals and `Ğ`, `Ş`, `Ə`. Python's full Unicode case mapping is not modelled (`İ`, for one, lowers to two code points).
- Fields.DigitRun: `\d` is read as ASCII `0`–`9`. Python's `\d` also matches other Unicode decimal digits. The same reading applies to the `[\d.,]` class of Fields.PriceToken (scraper.py:85) and to the `\d+` search of Fields.ReviewsCount (scraper.py:151-161).
- Pagination.CollectLinks: the walk carries a fuel bound. With no ceiling and every page yielding links, the source loops forever; the model stops with `OutOfFuel`. `Pagination.CeilingBoundsFuel` shows the bound never bites when a ceiling is set.
- Crawler.ScrapeCollection: an `OutOfFuel` walk proceeds with the links gathered so far. The source has no such case.
- `Batching.Raised` stands for an `Exception` instance returned by `gather(..., return_exceptions=True)`; the filter drops it. `Extractor.DetailTask` never produces one, since `extract_book_data` catches `Exception` itself.
- A returned `BaseException` that is not an `Exception` (the `CancelledError` of a cancelled task, say) passes the filter at scraper.py:266 and is appended to `all_books` as if it were a record. The model does not represent that case: its record list holds only records.
