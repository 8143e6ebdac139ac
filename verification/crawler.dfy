/**
 * `scrape_collection`: walk the listing pages, then process the collected
 * links in batches of detail tasks. A listing request that raises is not
 * caught there, so the whole collection fails; detail requests that raise
 * are caught per task and only lose their record. Both fetches are
 * parameters.
 */
module Crawler {
  import opened Wrappers
  import opened Html
  import opened Book
  import opened Pagination
  import opened Batching
  import opened Extractor

  /** The scraper's default batch size. */
  const DefaultBatchSize: int := 50

  /** The detail task bound to a fetch, as the batch loop calls it. */
  function TaskOf(fetch: string -> Option<DetailPage>): string -> TaskResult {
    url => DetailTask(fetch, url)
  }

  function ScrapeCollection(fetchListing: string -> Option<seq<ProductCard>>, fetchDetail: string -> Option<DetailPage>,
                            join: (string, string) -> string, root: string, maxPages: Option<int>,
                            batchSize: int, fuel: nat): (r: Result<seq<BookRecord>, string>)
    ensures r.Failure? <==> CollectLinks(fetchListing, join, root, maxPages, fuel).stop == ListingRaised || batchSize == 0
    ensures r.Success? && batchSize < 0 ==> r.value == []
  {
    var crawl := CollectLinks(fetchListing, join, root, maxPages, fuel);
    if crawl.stop == ListingRaised then Failure("listing request raised")
    else
      match RunBatches(crawl.links, batchSize, TaskOf(fetchDetail))
      case Failure(e) => Failure(e)
      case Success(run) => Success(run.books)
  }

  /**
   * With a positive batch size, the records are those of the collected links
   * whose detail request succeeded, in link order, each with its link as
   * `url`: batching neither loses, adds nor reorders a record.
   */
  lemma ScrapedInLinkOrder(fetchListing: string -> Option<seq<ProductCard>>, fetchDetail: string -> Option<DetailPage>,
                           join: (string, string) -> string, root: string, maxPages: Option<int>,
                           batchSize: int, fuel: nat)
    requires batchSize > 0
    requires CollectLinks(fetchListing, join, root, maxPages, fuel).stop != ListingRaised
    ensures var links := CollectLinks(fetchListing, join, root, maxPages, fuel).links;
      ScrapeCollection(fetchListing, fetchDetail, join, root, maxPages, batchSize, fuel)
        == Success(KeepRecords(GatherBatch(TaskOf(fetchDetail), links)))
  {
    var links := CollectLinks(fetchListing, join, root, maxPages, fuel).links;
    RunKeepsLinkOrder(links, batchSize, TaskOf(fetchDetail), 0);
    assert links[0..] == links;
  }

  /** Every record scraped carries, as `url`, one of the collected links whose page was fetched. */
  lemma ScrapedUrlsAreLinks(fetchListing: string -> Option<seq<ProductCard>>, fetchDetail: string -> Option<DetailPage>,
                            join: (string, string) -> string, root: string, maxPages: Option<int>,
                            batchSize: int, fuel: nat, b: BookRecord)
    requires ScrapeCollection(fetchListing, fetchDetail, join, root, maxPages, batchSize, fuel).Success?
    requires b in ScrapeCollection(fetchListing, fetchDetail, join, root, maxPages, batchSize, fuel).value
    ensures b.url in CollectLinks(fetchListing, join, root, maxPages, fuel).links
    ensures fetchDetail(b.url).Some? && b == ExtractBookData(b.url, fetchDetail(b.url).value)
  {
    var links := CollectLinks(fetchListing, join, root, maxPages, fuel).links;
    RecordFromLink(fetchDetail, links, batchSize, b);
  }

  /** A record kept by the batch loop is the extraction of one link's page. */
  lemma RecordFromLink(fetch: string -> Option<DetailPage>, links: seq<string>, size: nat, b: BookRecord)
    requires size > 0 && b in RunFrom(links, size, TaskOf(fetch), 0).books
    ensures b.url in links && fetch(b.url).Some? && b == ExtractBookData(b.url, fetch(b.url).value)
  {
    RecordsComeFromLinks(links, size, TaskOf(fetch), b);
    var k :| 0 <= k < |links| && TaskOf(fetch)(links[k]) == Done(b);
    assert DetailTask(fetch, links[k]) == Done(b);
  }

  /** The number of records is the number of collected links whose detail request succeeded. */
  lemma ScrapedCount(fetchListing: string -> Option<seq<ProductCard>>, fetchDetail: string -> Option<DetailPage>,
                     join: (string, string) -> string, root: string, maxPages: Option<int>,
                     batchSize: int, fuel: nat)
    requires batchSize > 0
    requires CollectLinks(fetchListing, join, root, maxPages, fuel).stop != ListingRaised
    ensures var links := CollectLinks(fetchListing, join, root, maxPages, fuel).links;
      |ScrapeCollection(fetchListing, fetchDetail, join, root, maxPages, batchSize, fuel).value|
        == FetchedCount(fetchDetail, links)
  {
    var links := CollectLinks(fetchListing, join, root, maxPages, fuel).links;
    ScrapedInLinkOrder(fetchListing, fetchDetail, join, root, maxPages, batchSize, fuel);
    KeptCount(fetchDetail, links);
  }

  /** The number of links whose detail request succeeds. */
  function FetchedCount(fetch: string -> Option<DetailPage>, links: seq<string>): nat {
    if links == [] then 0 else (if fetch(links[0]).Some? then 1 else 0) + FetchedCount(fetch, links[1..])
  }

  lemma {:induction false} KeptCount(fetch: string -> Option<DetailPage>, links: seq<string>)
    ensures |KeepRecords(GatherBatch(TaskOf(fetch), links))| == FetchedCount(fetch, links)
  {
    if links != [] {
      KeptCount(fetch, links[1..]);
      var results := GatherBatch(TaskOf(fetch), links);
      assert results[1..] == GatherBatch(TaskOf(fetch), links[1..]);
      assert results[0] == DetailTask(fetch, links[0]);
    }
  }
}
