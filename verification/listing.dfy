/**
 * The link filter of a collection (listing) page: every product card whose
 * title anchor carries a non-empty `href` contributes that reference,
 * resolved against the site root, in card order.
 *
 * URL resolution (`urljoin`) is a parameter: the model only relies on it
 * being a function of the base and the reference.
 */
module Listing {
  import opened Wrappers
  import opened Html

  /** The site root every relative reference is resolved against. */
  const BaseUrl: string := "https://alinino.az"

  /** A card contributes a link: it has a title anchor whose `href` is present and non-empty. */
  predicate Usable(card: ProductCard) {
    card.titleLink.Some? && card.titleLink.value.href.Some? && card.titleLink.value.href.value != ""
  }

  function Href(card: ProductCard): string
    requires Usable(card)
  {
    card.titleLink.value.href.value
  }

  /** The loop over the product cards of one listing page. */
  function BookLinks(base: string, cards: seq<ProductCard>, join: (string, string) -> string): (r: seq<string>)
    ensures |r| <= |cards|
  {
    if cards == [] then []
    else if Usable(cards[0]) then [join(base, Href(cards[0]))] + BookLinks(base, cards[1..], join)
    else BookLinks(base, cards[1..], join)
  }

  /** The number of cards that contribute a link. */
  function UsableCount(cards: seq<ProductCard>): nat {
    if cards == [] then 0 else (if Usable(cards[0]) then 1 else 0) + UsableCount(cards[1..])
  }

  /** Exactly one link per usable card. */
  lemma {:induction false} OneLinkPerUsableCard(base: string, cards: seq<ProductCard>, join: (string, string) -> string)
    ensures |BookLinks(base, cards, join)| == UsableCount(cards)
  {
    if cards != [] {
      OneLinkPerUsableCard(base, cards[1..], join);
    }
  }

  /** A page yields no link exactly when none of its cards is usable. */
  lemma {:induction false} NoLinksIffNoUsableCard(base: string, cards: seq<ProductCard>, join: (string, string) -> string)
    ensures BookLinks(base, cards, join) == [] <==> forall k :: 0 <= k < |cards| ==> !Usable(cards[k])
  {
    if cards != [] {
      var tail := cards[1..];
      assert forall k :: 0 <= k < |tail| ==> tail[k] == cards[k + 1];
      NoLinksIffNoUsableCard(base, tail, join);
    }
  }

  /**
   * Every link is the resolution of a usable card's reference, and every
   * usable card's reference is resolved into some link.
   */
  lemma {:induction false} LinksAreResolvedHrefs(base: string, cards: seq<ProductCard>, join: (string, string) -> string, u: string)
    ensures u in BookLinks(base, cards, join) <==>
      exists k :: 0 <= k < |cards| && Usable(cards[k]) && u == join(base, Href(cards[k]))
  {
    if cards != [] {
      var tail := cards[1..];
      LinksAreResolvedHrefs(base, tail, join, u);
      if exists k :: 0 <= k < |tail| && Usable(tail[k]) && u == join(base, Href(tail[k])) {
        var k :| 0 <= k < |tail| && Usable(tail[k]) && u == join(base, Href(tail[k]));
        assert tail[k] == cards[k + 1];
      }
      if exists k :: 1 <= k < |cards| && Usable(cards[k]) && u == join(base, Href(cards[k])) {
        var k :| 1 <= k < |cards| && Usable(cards[k]) && u == join(base, Href(cards[k]));
        assert cards[k] == tail[k - 1];
      }
    }
  }

  /** Card order is kept: the links of two card runs are the links of each, in turn. */
  lemma {:induction false} LinksOfConcat(base: string, a: seq<ProductCard>, b: seq<ProductCard>, join: (string, string) -> string)
    ensures BookLinks(base, a + b, join) == BookLinks(base, a, join) + BookLinks(base, b, join)
  {
    if a == [] {
      assert a + b == b;
    } else {
      assert (a + b)[0] == a[0];
      assert (a + b)[1..] == a[1..] + b;
      LinksOfConcat(base, a[1..], b, join);
    }
  }
}
