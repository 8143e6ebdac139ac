/**
 * The pagination walker of a collection: page 1 is the collection URL
 * itself, page n > 1 is `<root>?page=<n>`; pages are requested in order
 * until one yields no link or the optional page ceiling is passed. A
 * listing request that raises aborts the whole collection.
 *
 * The listing fetch is a parameter (`None` stands for a request that
 * raised). The source loop is unbounded when every page yields links and
 * there is no ceiling, so the walker carries a fuel bound.
 */
module Pagination {
  import opened Wrappers
  import opened Text
  import opened Html
  import opened Listing

  const PageQuery: string := "?page="

  /**
   * The URL of page `n` of the collection at `root`: the root itself for
   * page 1, else the root, `?page=` and a digit string that reads back as `n`.
   */
  function PageUrl(root: string, n: nat): (r: string)
    ensures n == 1 <==> r == root
    ensures root <= r
    ensures n != 1 ==> r == root + PageQuery + Decimal(n) && DigitsValue(Decimal(n)) == n
  {
    if n == 1 then root
    else
      DecimalRoundTrip(n);
      root + PageQuery + Decimal(n)
  }

  /** Different page numbers give different URLs. */
  lemma PageUrlsDistinct(root: string, n: nat, m: nat)
    requires PageUrl(root, n) == PageUrl(root, m)
    ensures n == m
  {
    if n != 1 && m != 1 {
      var a := PageUrl(root, n);
      assert Decimal(n) == a[|root| + |PageQuery|..];
      assert Decimal(m) == a[|root| + |PageQuery|..];
      DecimalInjective(n, m);
    }
  }

  /**
   * `if max_pages and page > max_pages`: the ceiling applies only when it is
   * present and non-zero (Python truthiness).
   */
  predicate HasCeiling(maxPages: Option<int>) {
    maxPages.Some? && maxPages.value != 0
  }

  predicate PastCeiling(maxPages: Option<int>, page: int) {
    HasCeiling(maxPages) && page > maxPages.value
  }

  /** Why the walk stopped. */
  datatype Stop =
    | EmptyPage     // the last requested page yielded no link
    | CeilingPassed // the next page number exceeds the ceiling
    | ListingRaised // the last listing request raised; the collection aborts
    | OutOfFuel     // the fuel bound was reached (no counterpart in the source)

  /** The pages requested, in order, the links gathered, and why the walk stopped. */
  datatype Crawl = Crawl(requested: seq<string>, links: seq<string>, stop: Stop)

  /** The links one listing request yields (`[]` when it raised). */
  function PageLinks(fetch: string -> Option<seq<ProductCard>>, join: (string, string) -> string, url: string): seq<string> {
    match fetch(url)
    case None => []
    case Some(cards) => BookLinks(BaseUrl, cards, join)
  }

  /** The links of the given pages, concatenated in page order. */
  function Gathered(fetch: string -> Option<seq<ProductCard>>, join: (string, string) -> string, urls: seq<string>): seq<string> {
    if urls == [] then [] else PageLinks(fetch, join, urls[0]) + Gathered(fetch, join, urls[1..])
  }

  /**
   * The `while True` loop from page number `page` on, with at most `fuel` more
   * requests: nothing is requested exactly when `page` is already past the
   * ceiling or no fuel is left, and the fuel bound stops the walk only once
   * it is used up.
   */
  function Walk(fetch: string -> Option<seq<ProductCard>>, join: (string, string) -> string,
                root: string, maxPages: Option<int>, page: nat, fuel: nat): (r: Crawl)
    ensures |r.requested| <= fuel
    ensures r.requested == [] <==> PastCeiling(maxPages, page) || fuel == 0
    ensures r.stop == OutOfFuel ==> |r.requested| == fuel
    decreases fuel
  {
    if PastCeiling(maxPages, page) then Crawl([], [], CeilingPassed)
    else if fuel == 0 then Crawl([], [], OutOfFuel)
    else
      var url := PageUrl(root, page);
      match fetch(url)
      case None => Crawl([url], [], ListingRaised)
      case Some(cards) =>
        var links := BookLinks(BaseUrl, cards, join);
        if links == [] then Crawl([url], [], EmptyPage)
        else
          var rest := Walk(fetch, join, root, maxPages, page + 1, fuel - 1);
          Crawl([url] + rest.requested, links + rest.links, rest.stop)
  }

  /** The collection walk from page 1 with the given fuel. */
  function CollectLinks(fetch: string -> Option<seq<ProductCard>>, join: (string, string) -> string,
                        root: string, maxPages: Option<int>, fuel: nat): (r: Crawl)
    ensures forall k :: 0 <= k < |r.requested| ==> r.requested[k] == PageUrl(root, k + 1)
    ensures HasCeiling(maxPages) ==> |r.requested| <= maxPages.value || r.requested == []
    ensures r.links == Gathered(fetch, join, r.requested)
  {
    WalkRequestsInOrder(fetch, join, root, maxPages, 1, fuel);
    InOrderIndex(Walk(fetch, join, root, maxPages, 1, fuel).requested, root, 1);
    WalkBelowCeiling(fetch, join, root, maxPages, 1, fuel);
    WalkGathers(fetch, join, root, maxPages, 1, fuel);
    Walk(fetch, join, root, maxPages, 1, fuel)
  }

  /** `urls` are the URLs of pages `page`, `page + 1`, ... in turn. */
  ghost predicate InOrderFrom(urls: seq<string>, root: string, page: nat)
    decreases |urls|
  {
    urls == [] || (urls[0] == PageUrl(root, page) && InOrderFrom(urls[1..], root, page + 1))
  }

  /** Read by index: the k-th URL is that of page `page + k`. */
  lemma {:induction false} InOrderIndex(urls: seq<string>, root: string, page: nat)
    requires InOrderFrom(urls, root, page)
    ensures forall k :: 0 <= k < |urls| ==> urls[k] == PageUrl(root, page + k)
    decreases |urls|
  {
    if urls != [] {
      InOrderIndex(urls[1..], root, page + 1);
      forall k | 0 < k < |urls|
        ensures urls[k] == PageUrl(root, page + k)
      {
        assert urls[k] == urls[1..][k - 1];
      }
    }
  }

  /** A page that yields links is followed by the walk from the next page. */
  lemma WalkStep(fetch: string -> Option<seq<ProductCard>>, join: (string, string) -> string,
                 root: string, maxPages: Option<int>, page: nat, fuel: nat)
    requires !PastCeiling(maxPages, page) && fuel != 0
    requires PageLinks(fetch, join, PageUrl(root, page)) != []
    ensures var r := Walk(fetch, join, root, maxPages, page, fuel);
      var rest := Walk(fetch, join, root, maxPages, page + 1, fuel - 1);
      && r.requested == [PageUrl(root, page)] + rest.requested
      && r.links == PageLinks(fetch, join, PageUrl(root, page)) + rest.links
      && r.stop == rest.stop
  {
  }

  /** Otherwise the walk ends here, having requested at most this page. */
  lemma WalkStops(fetch: string -> Option<seq<ProductCard>>, join: (string, string) -> string,
                  root: string, maxPages: Option<int>, page: nat, fuel: nat)
    requires PastCeiling(maxPages, page) || fuel == 0 || PageLinks(fetch, join, PageUrl(root, page)) == []
    ensures var r := Walk(fetch, join, root, maxPages, page, fuel);
      && r.links == []
      && (PastCeiling(maxPages, page) ==> r.requested == [] && r.stop == CeilingPassed)
      && (!PastCeiling(maxPages, page) && fuel == 0 ==> r.requested == [] && r.stop == OutOfFuel)
      && (!PastCeiling(maxPages, page) && fuel != 0 ==>
            && r.requested == [PageUrl(root, page)]
            && (r.stop == ListingRaised <==> fetch(PageUrl(root, page)).None?)
            && (r.stop == EmptyPage <==> fetch(PageUrl(root, page)).Some?))
  {
  }

  /** The k-th request is page `page + k`. */
  lemma {:induction false} WalkRequestsInOrder(fetch: string -> Option<seq<ProductCard>>, join: (string, string) -> string,
                                                root: string, maxPages: Option<int>, page: nat, fuel: nat)
    ensures InOrderFrom(Walk(fetch, join, root, maxPages, page, fuel).requested, root, page)
    decreases fuel
  {
    if fuel != 0 {
      WalkRequestsInOrder(fetch, join, root, maxPages, page + 1, fuel - 1);
    }
    InOrderStep(fetch, join, root, maxPages, page, fuel);
  }

  /** One step of the walk keeps the requests in page order. */
  lemma InOrderStep(fetch: string -> Option<seq<ProductCard>>, join: (string, string) -> string,
                    root: string, maxPages: Option<int>, page: nat, fuel: nat)
    requires fuel != 0 ==> InOrderFrom(Walk(fetch, join, root, maxPages, page + 1, fuel - 1).requested, root, page + 1)
    ensures InOrderFrom(Walk(fetch, join, root, maxPages, page, fuel).requested, root, page)
  {
    if !PastCeiling(maxPages, page) && fuel != 0 && PageLinks(fetch, join, PageUrl(root, page)) != [] {
      WalkStep(fetch, join, root, maxPages, page, fuel);
      InOrderCons(Walk(fetch, join, root, maxPages, page + 1, fuel - 1).requested, root, page);
    } else {
      WalkStops(fetch, join, root, maxPages, page, fuel);
      InOrderCons([], root, page);
    }
  }

  lemma InOrderCons(rest: seq<string>, root: string, page: nat)
    requires InOrderFrom(rest, root, page + 1)
    ensures InOrderFrom([PageUrl(root, page)] + rest, root, page)
  {
    assert ([PageUrl(root, page)] + rest)[1..] == rest;
  }

  /** With a ceiling, no page above it is requested. */
  lemma {:induction false} WalkBelowCeiling(fetch: string -> Option<seq<ProductCard>>, join: (string, string) -> string,
                                             root: string, maxPages: Option<int>, page: nat, fuel: nat)
    ensures BelowCeiling(maxPages, page, Walk(fetch, join, root, maxPages, page, fuel))
    decreases fuel
  {
    if fuel != 0 {
      WalkBelowCeiling(fetch, join, root, maxPages, page + 1, fuel - 1);
    }
    BelowCeilingStep(fetch, join, root, maxPages, page, fuel);
  }

  /** A walk from `page` requests no page above the ceiling, when there is one. */
  ghost predicate BelowCeiling(maxPages: Option<int>, page: nat, r: Crawl) {
    HasCeiling(maxPages) && r.requested != [] ==> page + |r.requested| <= maxPages.value + 1
  }

  lemma BelowCeilingStep(fetch: string -> Option<seq<ProductCard>>, join: (string, string) -> string,
                         root: string, maxPages: Option<int>, page: nat, fuel: nat)
    requires fuel != 0 ==> BelowCeiling(maxPages, page + 1, Walk(fetch, join, root, maxPages, page + 1, fuel - 1))
    ensures BelowCeiling(maxPages, page, Walk(fetch, join, root, maxPages, page, fuel))
  {
    if !PastCeiling(maxPages, page) && fuel != 0 && PageLinks(fetch, join, PageUrl(root, page)) != [] {
      WalkStep(fetch, join, root, maxPages, page, fuel);
    } else {
      WalkStops(fetch, join, root, maxPages, page, fuel);
    }
  }

  /** The gathered links are the links of the requested pages, in page order. */
  lemma {:induction false} WalkGathers(fetch: string -> Option<seq<ProductCard>>, join: (string, string) -> string,
                                        root: string, maxPages: Option<int>, page: nat, fuel: nat)
    ensures GathersOwnPages(fetch, join, Walk(fetch, join, root, maxPages, page, fuel))
    decreases fuel
  {
    if fuel != 0 {
      WalkGathers(fetch, join, root, maxPages, page + 1, fuel - 1);
    }
    GathersStep(fetch, join, root, maxPages, page, fuel);
  }

  /** The links of a walk are those of its requested pages, in order. */
  ghost predicate GathersOwnPages(fetch: string -> Option<seq<ProductCard>>, join: (string, string) -> string, r: Crawl) {
    r.links == Gathered(fetch, join, r.requested)
  }

  lemma GathersStep(fetch: string -> Option<seq<ProductCard>>, join: (string, string) -> string,
                    root: string, maxPages: Option<int>, page: nat, fuel: nat)
    requires fuel != 0 ==> GathersOwnPages(fetch, join, Walk(fetch, join, root, maxPages, page + 1, fuel - 1))
    ensures GathersOwnPages(fetch, join, Walk(fetch, join, root, maxPages, page, fuel))
  {
    if !PastCeiling(maxPages, page) && fuel != 0 && PageLinks(fetch, join, PageUrl(root, page)) != [] {
      WalkStep(fetch, join, root, maxPages, page, fuel);
      GatheredCons(fetch, join, PageUrl(root, page), Walk(fetch, join, root, maxPages, page + 1, fuel - 1).requested);
    } else {
      WalkStops(fetch, join, root, maxPages, page, fuel);
      GatheredCons(fetch, join, PageUrl(root, page), []);
    }
  }

  lemma GatheredCons(fetch: string -> Option<seq<ProductCard>>, join: (string, string) -> string, url: string, rest: seq<string>)
    ensures Gathered(fetch, join, [url] + rest) == PageLinks(fetch, join, url) + Gathered(fetch, join, rest)
  {
    assert ([url] + rest)[1..] == rest;
  }

  /** Every page of `urls` but the last yields links. */
  ghost predicate AllButLastProductive(fetch: string -> Option<seq<ProductCard>>, join: (string, string) -> string, urls: seq<string>) {
    forall k :: 0 <= k < |urls| - 1 ==> PageLinks(fetch, join, urls[k]) != []
  }

  /** Every requested page before the last yielded links. */
  lemma {:induction false} EarlierPagesProductive(fetch: string -> Option<seq<ProductCard>>, join: (string, string) -> string,
                                                   root: string, maxPages: Option<int>, page: nat, fuel: nat)
    ensures AllButLastProductive(fetch, join, Walk(fetch, join, root, maxPages, page, fuel).requested)
    decreases fuel
  {
    if fuel != 0 {
      EarlierPagesProductive(fetch, join, root, maxPages, page + 1, fuel - 1);
    }
    ProductiveStep(fetch, join, root, maxPages, page, fuel);
  }

  lemma ProductiveStep(fetch: string -> Option<seq<ProductCard>>, join: (string, string) -> string,
                       root: string, maxPages: Option<int>, page: nat, fuel: nat)
    requires fuel != 0 ==> AllButLastProductive(fetch, join, Walk(fetch, join, root, maxPages, page + 1, fuel - 1).requested)
    ensures AllButLastProductive(fetch, join, Walk(fetch, join, root, maxPages, page, fuel).requested)
  {
    if !PastCeiling(maxPages, page) && fuel != 0 && PageLinks(fetch, join, PageUrl(root, page)) != [] {
      WalkStep(fetch, join, root, maxPages, page, fuel);
      ProductiveCons(fetch, join, PageUrl(root, page), Walk(fetch, join, root, maxPages, page + 1, fuel - 1).requested);
    } else {
      WalkStops(fetch, join, root, maxPages, page, fuel);
    }
  }

  lemma ProductiveCons(fetch: string -> Option<seq<ProductCard>>, join: (string, string) -> string, url: string, rest: seq<string>)
    requires PageLinks(fetch, join, url) != []
    requires AllButLastProductive(fetch, join, rest)
    ensures AllButLastProductive(fetch, join, [url] + rest)
  {
    var urls := [url] + rest;
    forall k | 0 <= k < |urls| - 1
      ensures PageLinks(fetch, join, urls[k]) != []
    {
      if k > 0 {
        assert urls[k] == rest[k - 1];
      }
    }
  }

  /**
   * Why the walk stopped, read off the last request: an empty page was
   * fetched and yielded nothing, a raising page was the last request, or the
   * next page number is past the ceiling.
   */
  lemma {:induction false} StopReason(fetch: string -> Option<seq<ProductCard>>, join: (string, string) -> string,
                                       root: string, maxPages: Option<int>, page: nat, fuel: nat)
    ensures StoppedFor(fetch, join, maxPages, page, Walk(fetch, join, root, maxPages, page, fuel))
    decreases fuel
  {
    if fuel != 0 {
      StopReason(fetch, join, root, maxPages, page + 1, fuel - 1);
    }
    StopReasonStep(fetch, join, root, maxPages, page, fuel);
  }

  /**
   * The stop reason of a walk from `page`, read off its last request: an
   * empty page was fetched and yielded nothing, a raising page was the last
   * request, or the next page number is past the ceiling.
   */
  ghost predicate StoppedFor(fetch: string -> Option<seq<ProductCard>>, join: (string, string) -> string,
                             maxPages: Option<int>, page: nat, r: Crawl) {
    && (r.stop == EmptyPage ==> r.requested != [] && fetch(r.requested[|r.requested| - 1]).Some?
                                && PageLinks(fetch, join, r.requested[|r.requested| - 1]) == [])
    && (r.stop == ListingRaised ==> r.requested != [] && fetch(r.requested[|r.requested| - 1]).None?)
    && (r.stop == CeilingPassed ==> PastCeiling(maxPages, page + |r.requested|))
  }

  lemma StopReasonStep(fetch: string -> Option<seq<ProductCard>>, join: (string, string) -> string,
                       root: string, maxPages: Option<int>, page: nat, fuel: nat)
    requires fuel != 0 ==> StoppedFor(fetch, join, maxPages, page + 1, Walk(fetch, join, root, maxPages, page + 1, fuel - 1))
    ensures StoppedFor(fetch, join, maxPages, page, Walk(fetch, join, root, maxPages, page, fuel))
  {
    if !PastCeiling(maxPages, page) && fuel != 0 && PageLinks(fetch, join, PageUrl(root, page)) != [] {
      WalkStep(fetch, join, root, maxPages, page, fuel);
      var rest := Walk(fetch, join, root, maxPages, page + 1, fuel - 1);
      StoppedForCons(fetch, join, maxPages, page, PageUrl(root, page), rest);
    } else {
      WalkStops(fetch, join, root, maxPages, page, fuel);
    }
  }

  /** A productive page in front of a walk leaves its stop reason intact. */
  lemma StoppedForCons(fetch: string -> Option<seq<ProductCard>>, join: (string, string) -> string,
                       maxPages: Option<int>, page: nat, url: string, rest: Crawl)
    requires StoppedFor(fetch, join, maxPages, page + 1, rest)
    ensures forall links :: StoppedFor(fetch, join, maxPages, page, Crawl([url] + rest.requested, links, rest.stop))
  {
    var urls := [url] + rest.requested;
    if rest.requested != [] {
      assert urls[|urls| - 1] == rest.requested[|rest.requested| - 1];
    }
    assert page + |urls| == page + 1 + |rest.requested|;
  }

  /** With a ceiling, fuel for the pages up to it is enough: the walk ends as the source's loop does. */
  lemma {:induction false} CeilingBoundsFuel(fetch: string -> Option<seq<ProductCard>>, join: (string, string) -> string,
                                              root: string, maxPages: Option<int>, page: nat, fuel: nat)
    requires HasCeiling(maxPages) && page + fuel > maxPages.value
    ensures Walk(fetch, join, root, maxPages, page, fuel).stop != OutOfFuel
    decreases fuel
  {
    if !PastCeiling(maxPages, page) && fuel != 0 {
      CeilingBoundsFuel(fetch, join, root, maxPages, page + 1, fuel - 1);
    }
  }

  /** Once the walk ends on its own, more fuel changes nothing. */
  lemma {:induction false} FuelMonotone(fetch: string -> Option<seq<ProductCard>>, join: (string, string) -> string,
                                         root: string, maxPages: Option<int>, page: nat, fuel: nat, more: nat)
    requires Walk(fetch, join, root, maxPages, page, fuel).stop != OutOfFuel
    requires fuel <= more
    ensures Walk(fetch, join, root, maxPages, page, more) == Walk(fetch, join, root, maxPages, page, fuel)
    decreases fuel
  {
    if !PastCeiling(maxPages, page) && fuel != 0 {
      var url := PageUrl(root, page);
      if fetch(url).Some? && BookLinks(BaseUrl, fetch(url).value, join) != [] {
        var links := BookLinks(BaseUrl, fetch(url).value, join);
        var rest := Walk(fetch, join, root, maxPages, page + 1, fuel - 1);
        assert Walk(fetch, join, root, maxPages, page, fuel) == Crawl([url] + rest.requested, links + rest.links, rest.stop);
        FuelMonotone(fetch, join, root, maxPages, page + 1, fuel - 1, more - 1);
        assert Walk(fetch, join, root, maxPages, page, more) == Crawl([url] + rest.requested, links + rest.links, rest.stop);
      }
    }
  }

  /** Each page is requested at most once. */
  lemma PagesRequestedOnce(fetch: string -> Option<seq<ProductCard>>, join: (string, string) -> string,
                           root: string, maxPages: Option<int>, page: nat, fuel: nat)
    ensures var r := Walk(fetch, join, root, maxPages, page, fuel);
      forall i, j :: 0 <= i < j < |r.requested| ==> r.requested[i] != r.requested[j]
  {
    WalkRequestsInOrder(fetch, join, root, maxPages, page, fuel);
    InOrderDistinct(Walk(fetch, join, root, maxPages, page, fuel).requested, root, page);
  }

  /** The URLs of consecutive pages are pairwise distinct. */
  lemma InOrderDistinct(urls: seq<string>, root: string, page: nat)
    requires InOrderFrom(urls, root, page)
    ensures forall i, j :: 0 <= i < j < |urls| ==> urls[i] != urls[j]
  {
    InOrderIndex(urls, root, page);
    forall i, j | 0 <= i < j < |urls|
      ensures urls[i] != urls[j]
    {
      if urls[i] == urls[j] {
        PageUrlsDistinct(root, page + i, page + j);
      }
    }
  }
}
