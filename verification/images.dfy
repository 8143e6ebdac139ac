/**
 * The `image_url` field: the main gallery image when it is a real product
 * asset, otherwise the first `https://` token of the first picture source
 * whose candidate list mentions a product asset.
 */
module Images {
  import opened Wrappers
  import opened Text
  import opened Html

  /** The substring that marks a product asset (as opposed to a placeholder). */
  const ProductMarker: string := "products"

  const HttpsScheme: string := "https://"

  predicate NotSpace(c: char) {
    !IsSpace(c)
  }

  // ---------------------------------------------------------------------------
  // Gallery tier

  /** `img.get('src') or img.get('data-src')`. */
  function GallerySource(img: Image): Option<string> {
    if img.src.Some? && img.src.value != "" then img.src else img.dataSrc
  }

  /** The gallery candidate: kept only when non-empty and marking a product asset. */
  function GalleryUrl(img: Option<Image>): (r: Option<string>)
    ensures r.Some? ==> r.value != "" && Contains(r.value, ProductMarker)
    ensures r.Some? ==> img.Some? && r == GallerySource(img.value)
    ensures img.Some? && GallerySource(img.value).Some? && Contains(GallerySource(img.value).value, ProductMarker)
      ==> r == GallerySource(img.value)
  {
    match img
    case None => None
    case Some(i) =>
      var u := GallerySource(i);
      if u.Some? && u.value != "" && Contains(u.value, ProductMarker) then u else None
  }

  // ---------------------------------------------------------------------------
  // Picture tier

  /** `re.search(r'(https://[^\s]+)', s)` can match at index `i`. */
  predicate HttpsAt(s: string, i: int) {
    0 <= i && i + |HttpsScheme| < |s| && s[i..i + |HttpsScheme|] == HttpsScheme && NotSpace(s[i + |HttpsScheme|])
  }

  /** The leftmost index at or after `from` where the pattern can match. */
  function FindHttpsFrom(s: string, from: nat): (r: Option<nat>)
    requires from <= |s|
    ensures r.None? <==> forall i :: from <= i ==> !HttpsAt(s, i)
    ensures r.Some? ==> from <= r.value && HttpsAt(s, r.value)
    ensures r.Some? ==> forall k :: from <= k < r.value ==> !HttpsAt(s, k)
    decreases |s| - from
  {
    if HttpsAt(s, from) then Some(from)
    else if from == |s| then None
    else FindHttpsFrom(s, from + 1)
  }

  /** The greedy match `https://` plus the run of non-blanks that follows. */
  function MatchAt(s: string, i: nat): (m: string)
    requires HttpsAt(s, i)
    ensures IsMatchAt(s, i, m)
  {
    var tail := TakeRun(s[i + |HttpsScheme|..], NotSpace);
    var m := s[i..i + |HttpsScheme|] + tail;
    assert s[i..i + |m|] == m by {
      assert s[i + |HttpsScheme|..][..|tail|] == tail;
    }
    m
  }

  /** `m` is the greedy match `https://[^\s]+` starting at index `i`. */
  ghost predicate IsMatchAt(s: string, i: int, m: string) {
    && 0 <= i && i + |m| <= |s|
    && m == s[i..i + |m|]
    && HttpsScheme <= m && |m| > |HttpsScheme|
    && (forall k :: |HttpsScheme| <= k < |m| ==> NotSpace(m[k]))
    && (i + |m| == |s| || !NotSpace(s[i + |m|]))
  }

  /** The leftmost `https://` URL token of a `srcset` value, if any. */
  function FindHttps(s: string): (r: Option<string>)
    ensures r.None? <==> forall i :: !HttpsAt(s, i)
    ensures r.Some? ==> exists i :: HttpsAt(s, i) && IsMatchAt(s, i, r.value) && forall k :: 0 <= k < i ==> !HttpsAt(s, k)
  {
    match FindHttpsFrom(s, 0)
    case None => None
    case Some(i) => Some(MatchAt(s, i))
  }

  /** `source.get('srcset') or source.get('data-srcset', '')`. */
  function SrcsetOf(src: Source): string {
    if src.srcset.Some? && src.srcset.value != "" then src.srcset.value
    else if src.dataSrcset.Some? then src.dataSrcset.value
    else ""
  }

  /** `str.split()[0]`: the first whitespace-delimited token. */
  function FirstToken(s: string): string {
    FirstRun(s, NotSpace)
  }

  /**
   * What one picture offers: the first token of the first `https://` match of
   * its source's candidate list, provided that list mentions a product asset.
   */
  function PictureCandidate(p: Picture): (r: Option<string>)
    ensures r.Some? <==> p.source.Some? && Contains(SrcsetOf(p.source.value), ProductMarker)
                         && FindHttps(SrcsetOf(p.source.value)).Some?
    ensures r.Some? ==> HttpsScheme <= r.value && |r.value| > |HttpsScheme| && forall k :: 0 <= k < |r.value| ==> NotSpace(r.value[k])
    ensures r.Some? ==> r == FindHttps(SrcsetOf(p.source.value))
  {
    match p.source
    case None => None
    case Some(src) =>
      var srcset := SrcsetOf(src);
      if Contains(srcset, ProductMarker) then
        match FindHttps(srcset)
        case None => None
        case Some(m) =>
          TokenOfMatch(m);
          Some(FirstToken(m))
      else None
  }

  /** A match holds no whitespace, so splitting it on whitespace gives it back whole. */
  lemma TokenOfMatch(m: string)
    requires HttpsScheme <= m && |m| > |HttpsScheme|
    requires forall k :: |HttpsScheme| <= k < |m| ==> NotSpace(m[k])
    ensures FirstToken(m) == m
    ensures forall k :: 0 <= k < |m| ==> NotSpace(m[k])
  {
    assert forall k :: 0 <= k < |HttpsScheme| ==> m[k] == HttpsScheme[k];
    FirstRunOfRun(m, NotSpace);
  }

  /** The loop over the pictures: the first picture that offers a URL wins. */
  function PictureUrl(pictures: seq<Picture>): (r: Option<string>)
    ensures r.None? <==> forall k :: 0 <= k < |pictures| ==> PictureCandidate(pictures[k]).None?
  {
    if pictures == [] then None
    else
      var c := PictureCandidate(pictures[0]);
      assert forall k :: 1 <= k < |pictures| ==> pictures[k] == pictures[1..][k - 1];
      if c.Some? then c else PictureUrl(pictures[1..])
  }

  /** No picture before index `k` offers a URL. */
  ghost predicate NoOfferBefore(pictures: seq<Picture>, k: int)
    requires 0 <= k <= |pictures|
  {
    forall j :: 0 <= j < k ==> PictureCandidate(pictures[j]).None?
  }

  /** The URL found is the offer of a picture that no earlier picture pre-empts. */
  lemma {:induction false} PictureUrlIsFirstOffer(pictures: seq<Picture>)
    requires PictureUrl(pictures).Some?
    ensures exists k :: 0 <= k < |pictures| && PictureCandidate(pictures[k]) == PictureUrl(pictures)
                        && NoOfferBefore(pictures, k)
  {
    if PictureCandidate(pictures[0]).Some? {
      assert NoOfferBefore(pictures, 0);
    } else {
      var tail := pictures[1..];
      assert PictureUrl(pictures) == PictureUrl(tail);
      PictureUrlIsFirstOffer(tail);
      var k :| 0 <= k < |tail| && PictureCandidate(tail[k]) == PictureUrl(tail) && NoOfferBefore(tail, k);
      assert pictures[k + 1] == tail[k];
      assert NoOfferBefore(pictures, k + 1) by {
        forall j | 0 <= j < k + 1
          ensures PictureCandidate(pictures[j]).None?
        {
          if j > 0 {
            assert pictures[j] == tail[j - 1];
          }
        }
      }
    }
  }

  // ---------------------------------------------------------------------------
  // Both tiers

  /** The `image_url` field: the gallery tier, then the picture tier, then `''`. */
  function ImageUrl(page: DetailPage): (r: string)
    ensures GalleryUrl(page.galleryImage).Some? ==> r == GalleryUrl(page.galleryImage).value
    ensures GalleryUrl(page.galleryImage).None? && PictureUrl(page.pictures).Some? ==> r == PictureUrl(page.pictures).value
    ensures r == "" <==> GalleryUrl(page.galleryImage).None? && PictureUrl(page.pictures).None?
    ensures r != "" ==> Contains(r, ProductMarker) || HttpsScheme <= r
  {
    match GalleryUrl(page.galleryImage)
    case Some(u) => u
    case None =>
      var p := PictureUrl(page.pictures);
      if p.Some? then
        PictureUrlIsFirstOffer(page.pictures);
        p.value
      else ""
  }

  /** Once the gallery yields a product image, the pictures are never consulted. */
  lemma GalleryShadowsPictures(page: DetailPage, others: seq<Picture>)
    requires GalleryUrl(page.galleryImage).Some?
    ensures ImageUrl(page.(pictures := others)) == ImageUrl(page)
  {
  }
}
