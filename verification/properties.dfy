/**
 * The property list of a detail page: each (name, value) row is routed by
 * keywords in its normalised name to at most one record field, in a fixed
 * order of precedence; later rows overwrite earlier ones.
 */
module Properties {
  import opened Wrappers
  import opened Text
  import opened Html
  import opened Book
  import opened Fields

  /** The record fields a property row can be routed to. */
  datatype Target = Isbn | Publisher | Author | Pages | Language | Cover

  /**
   * `name.text.strip().replace(':', '').lower()`: the stripped name with its
   * colons dropped, character by character in lower case. No colon is left,
   * and the result is already in lower case.
   */
  function NormaliseName(name: string): (r: string)
    ensures ':' !in r
    ensures Lower(r) == r
    ensures |r| <= |name|
    ensures |r| == |Remove(Strip(name), ':')|
    ensures forall k :: 0 <= k < |r| ==> r[k] == LowerChar(Remove(Strip(name), ':')[k])
  {
    var m := Remove(Strip(name), ':');
    LowerKeepsColonOut(m);
    LowerIdempotent(m);
    Lower(m)
  }

  /**
   * A colon-free, lower-case keyword written in the stripped name survives
   * normalisation, so the router sees every such keyword the label carries.
   */
  lemma NormaliseKeepsWord(name: string, w: string)
    requires ':' !in w && Lower(w) == w
    requires Contains(Strip(name), w)
    ensures Contains(NormaliseName(name), w)
  {
    var s := Strip(name);
    ContainsIff(s, w);
    var i :| OccursAt(s, w, i);
    var j := RemoveKeepsInfix(s, w, ':', i);
    LowerKeepsInfix(Remove(s, ':'), w, j);
    ContainsInfix(NormaliseName(name), w, j);
  }

  /** Dropping a character `w` lacks keeps an occurrence of `w` whole. */
  lemma RemoveKeepsInfix(s: string, w: string, c: char, i: int) returns (j: nat)
    requires c !in w && OccursAt(s, w, i)
    ensures OccursAt(Remove(s, c), w, j)
  {
    var a, b := s[..i], s[i + |w|..];
    assert s == a + (w + b);
    RemoveConcat(a, w + b, c);
    RemoveConcat(w, b, c);
    j := |Remove(a, c)|;
    assert Remove(s, c) == Remove(a, c) + w + Remove(b, c);
    assert Remove(s, c)[j..j + |w|] == w;
  }

  /** Lower-casing keeps an occurrence of a word that is already lower case. */
  lemma LowerKeepsInfix(m: string, w: string, j: int)
    requires Lower(w) == w && OccursAt(m, w, j)
    ensures OccursAt(Lower(m), w, j)
  {
    forall k | 0 <= k < |w|
      ensures Lower(m)[j + k] == w[k]
    {
      assert m[j + k] == w[k];
      assert Lower(w)[k] == LowerChar(w[k]);
    }
    assert Lower(m)[j..j + |w|] == w;
  }

  /** Lower-casing never produces a colon from anything else. */
  lemma LowerKeepsColonOut(s: string)
    requires ':' !in s
    ensures ':' !in Lower(s)
  {
  }

  /** The branch chain exactly as the scraper writes it, first match wins. */
  function RouteChain(name: string): Option<Target> {
    if Contains(name, "isbn") || Contains(name, "artikul") then Some(Isbn)
    else if Contains(name, "nəşriyyat") || Contains(name, "publisher") then Some(Publisher)
    else if Contains(name, "müəllif") || Contains(name, "author") then Some(Author)
    else if Contains(name, "səhifə") || Contains(name, "pages") then Some(Pages)
    else if Contains(name, "dil") || Contains(name, "language") then Some(Language)
    else if Contains(name, "cild") || Contains(name, "cover") then Some(Cover)
    else None
  }

  // ---------------------------------------------------------------------------
  // The routing table as data

  /** The Azerbaijani keyword and the English keyword of each target. */
  function Keywords(t: Target): seq<string> {
    match t
    case Isbn => ["isbn", "artikul"]
    case Publisher => ["nəşriyyat", "publisher"]
    case Author => ["müəllif", "author"]
    case Pages => ["səhifə", "pages"]
    case Language => ["dil", "language"]
    case Cover => ["cild", "cover"]
  }

  /** The order in which targets are tried. */
  const Precedence: seq<Target> := [Isbn, Publisher, Author, Pages, Language, Cover]

  /** Some keyword of the list occurs in the name. */
  function AnyContained(name: string, keywords: seq<string>): (b: bool)
    ensures b <==> exists k :: 0 <= k < |keywords| && Contains(name, keywords[k])
  {
    if keywords == [] then false
    else
      assert forall k :: 1 <= k < |keywords| ==> keywords[k] == keywords[1..][k - 1];
      Contains(name, keywords[0]) || AnyContained(name, keywords[1..])
  }

  /** The name contains one of the target's keywords. */
  predicate Mentions(name: string, t: Target) {
    AnyContained(name, Keywords(t))
  }

  /** The first target of the list that the name mentions. */
  function FirstMentioned(name: string, targets: seq<Target>): (r: Option<Target>)
    ensures r.Some? ==> r.value in targets && Mentions(name, r.value)
  {
    if targets == [] then None
    else if Mentions(name, targets[0]) then Some(targets[0])
    else FirstMentioned(name, targets[1..])
  }

  /** Routing driven by the keyword table. */
  function Route(name: string): Option<Target> {
    FirstMentioned(name, Precedence)
  }

  /** The table-driven routing is the scraper's branch chain. */
  lemma RouteIsChain(name: string)
    ensures Route(name) == RouteChain(name)
  {
    MentionsPair(name, Isbn);
    MentionsPair(name, Publisher);
    MentionsPair(name, Author);
    MentionsPair(name, Pages);
    MentionsPair(name, Language);
    MentionsPair(name, Cover);
    FirstMentionedCons(name, Isbn, [Publisher, Author, Pages, Language, Cover]);
    FirstMentionedCons(name, Publisher, [Author, Pages, Language, Cover]);
    FirstMentionedCons(name, Author, [Pages, Language, Cover]);
    FirstMentionedCons(name, Pages, [Language, Cover]);
    FirstMentionedCons(name, Language, [Cover]);
    FirstMentionedCons(name, Cover, []);
  }

  lemma FirstMentionedCons(name: string, t: Target, ts: seq<Target>)
    ensures FirstMentioned(name, [t] + ts) == if Mentions(name, t) then Some(t) else FirstMentioned(name, ts)
  {
    assert ([t] + ts)[1..] == ts;
  }

  /** Each target has exactly two keywords. */
  lemma MentionsPair(name: string, t: Target)
    ensures Mentions(name, t) <==> Contains(name, Keywords(t)[0]) || Contains(name, Keywords(t)[1])
  {
    var kw := Keywords(t);
    assert kw[1..] == [kw[1]];
    assert kw[1..][1..] == [];
  }

  function Rank(t: Target): (i: nat)
    ensures i < |Precedence| && Precedence[i] == t
  {
    match t
    case Isbn => 0
    case Publisher => 1
    case Author => 2
    case Pages => 3
    case Language => 4
    case Cover => 5
  }

  /** First-match search over a list without repeats. */
  lemma {:induction false} FirstMentionedIff(name: string, targets: seq<Target>, i: nat)
    requires i < |targets|
    requires forall a, b :: 0 <= a < b < |targets| ==> targets[a] != targets[b]
    ensures FirstMentioned(name, targets) == Some(targets[i]) <==>
      Mentions(name, targets[i]) && forall j :: 0 <= j < i ==> !Mentions(name, targets[j])
  {
    if i > 0 {
      DistinctTail(targets);
      FirstMentionedIff(name, targets[1..], i - 1);
      FirstMentionedIffStep(name, targets, i);
    }
  }

  lemma DistinctTail(targets: seq<Target>)
    requires targets != []
    requires forall a, b :: 0 <= a < b < |targets| ==> targets[a] != targets[b]
    ensures forall a, b :: 0 <= a < b < |targets| - 1 ==> targets[1..][a] != targets[1..][b]
  {
    forall a, b | 0 <= a < b < |targets| - 1
      ensures targets[1..][a] != targets[1..][b]
    {
      assert targets[1..][a] == targets[a + 1] && targets[1..][b] == targets[b + 1];
    }
  }

  /** No target before index `i` is mentioned. */
  ghost predicate NoneMentionedBefore(name: string, targets: seq<Target>, i: nat)
    requires i <= |targets|
  {
    forall j :: 0 <= j < i ==> !Mentions(name, targets[j])
  }

  lemma FirstMentionedIffStep(name: string, targets: seq<Target>, i: nat)
    requires 0 < i < |targets| && targets[0] != targets[i]
    requires FirstMentioned(name, targets[1..]) == Some(targets[1..][i - 1]) <==>
      Mentions(name, targets[1..][i - 1]) && NoneMentionedBefore(name, targets[1..], i - 1)
    ensures FirstMentioned(name, targets) == Some(targets[i]) <==>
      Mentions(name, targets[i]) && NoneMentionedBefore(name, targets, i)
  {
    var tail := targets[1..];
    assert tail[i - 1] == targets[i];
    assert targets == [targets[0]] + tail;
    FirstMentionedCons(name, targets[0], tail);
    NoneMentionedShift(name, targets, i);
  }

  lemma NoneMentionedShift(name: string, targets: seq<Target>, i: nat)
    requires 0 < i <= |targets|
    ensures NoneMentionedBefore(name, targets, i) <==>
      !Mentions(name, targets[0]) && NoneMentionedBefore(name, targets[1..], i - 1)
  {
    forall j | 0 <= j < i - 1
      ensures targets[1..][j] == targets[j + 1]
    {
    }
  }

  /**
   * A name is routed to `t` exactly when it mentions `t` and no target that
   * comes earlier in the precedence order.
   */
  lemma RouteIsFirstMention(name: string, t: Target)
    ensures Route(name) == Some(t) <==>
      Mentions(name, t) && forall j :: 0 <= j < Rank(t) ==> !Mentions(name, Precedence[j])
  {
    FirstMentionedIff(name, Precedence, Rank(t));
  }

  /** A name is routed nowhere exactly when it mentions no target at all. */
  lemma {:induction false} RouteNoneIffNoMention(name: string)
    ensures Route(name) == None <==> forall t :: !Mentions(name, t)
  {
    NoneIffNoMention(name, Precedence);
    if forall k :: 0 <= k < |Precedence| ==> !Mentions(name, Precedence[k]) {
      forall t ensures !Mentions(name, t) {
        assert Precedence[Rank(t)] == t;
      }
    }
  }

  lemma {:induction false} NoneIffNoMention(name: string, targets: seq<Target>)
    ensures FirstMentioned(name, targets) == None <==> forall k :: 0 <= k < |targets| ==> !Mentions(name, targets[k])
  {
    if targets != [] {
      var tail := targets[1..];
      assert forall j :: 0 <= j < |tail| ==> tail[j] == targets[j + 1];
      NoneIffNoMention(name, tail);
    }
  }

  // ---------------------------------------------------------------------------
  // Applying rows

  /** The field a target writes (for `Pages`, the text field). */
  function Slot(r: BookRecord, t: Target): string {
    match t
    case Isbn => r.isbn
    case Publisher => r.publisher
    case Author => r.author
    case Pages => r.pages
    case Language => r.language
    case Cover => r.coverType
  }

  /** The target of a row that has both cells, if its name routes anywhere. */
  function RowTarget(row: PropertyRow): Option<Target> {
    if row.name.Some? && row.value.Some? then Route(NormaliseName(row.name.value)) else None
  }

  /**
   * Writing a routed value: the target's own field receives it and no other
   * field changes; `pages_numeric` follows only when the value holds a digit.
   */
  function Assign(r: BookRecord, t: Target, v: string): (out: BookRecord)
    ensures Slot(out, t) == v
    ensures forall u :: u != t ==> Slot(out, u) == Slot(r, u)
    ensures out.pagesNumeric == if t == Pages && DigitRun(v) != "" then DigitRun(v) else r.pagesNumeric
    ensures SameOutsideProperties(r, out)
  {
    match t
    case Isbn => r.(isbn := v)
    case Publisher => r.(publisher := v)
    case Author => r.(author := v)
    case Language => r.(language := v)
    case Cover => r.(coverType := v)
    case Pages =>
      var d := DigitRun(v);
      if d != "" then r.(pages := v, pagesNumeric := d) else r.(pages := v)
  }

  /**
   * One iteration of the row loop: an unrouted or incomplete row changes
   * nothing; a routed row writes its stripped value into its target's field
   * only, and into `pages_numeric` only when it is a pages row with a digit.
   */
  function ApplyRow(r: BookRecord, row: PropertyRow): (out: BookRecord)
    ensures RowTarget(row).None? ==> out == r
    ensures forall t :: RowTarget(row) == Some(t) ==> Slot(out, t) == Strip(row.value.value)
    ensures forall u :: RowTarget(row) != Some(u) ==> Slot(out, u) == Slot(r, u)
    ensures out.pagesNumeric ==
      if RowTarget(row) == Some(Pages) && DigitRun(Strip(row.value.value)) != "" then DigitRun(Strip(row.value.value))
      else r.pagesNumeric
    ensures SameOutsideProperties(r, out)
  {
    match RowTarget(row)
    case None => r
    case Some(t) => Assign(r, t, Strip(row.value.value))
  }

  /** The fields no property row can touch agree between `a` and `b`. */
  predicate SameOutsideProperties(a: BookRecord, b: BookRecord) {
    && a.url == b.url && a.title == b.title
    && a.currentPrice == b.currentPrice && a.currentPriceNumeric == b.currentPriceNumeric
    && a.oldPrice == b.oldPrice && a.oldPriceNumeric == b.oldPriceNumeric
    && a.discountPercent == b.discountPercent && a.discountNumeric == b.discountNumeric
    && a.description == b.description && a.rating == b.rating && a.ratingNumeric == b.ratingNumeric
    && a.reviewsCount == b.reviewsCount && a.availability == b.availability
    && a.labels == b.labels && a.categories == b.categories && a.imageUrl == b.imageUrl
  }

  /** The row loop; it changes only the six routed fields and `pages_numeric`. */
  function ApplyRows(r: BookRecord, rows: seq<PropertyRow>): (out: BookRecord)
    ensures SameOutsideProperties(r, out)
    decreases rows
  {
    if rows == [] then r else ApplyRows(ApplyRow(r, rows[0]), rows[1..])
  }

  /** `pages_numeric` only ever receives digit runs. */
  lemma {:induction false} PagesNumericIsDigits(r: BookRecord, rows: seq<PropertyRow>)
    requires AllDigits(r.pagesNumeric)
    ensures AllDigits(ApplyRows(r, rows).pagesNumeric)
    decreases rows
  {
    if rows != [] {
      PagesNumericIsDigits(ApplyRow(r, rows[0]), rows[1..]);
    }
  }

  /** A row missing its name cell or its value cell changes nothing. */
  lemma IncompleteRowIgnored(r: BookRecord, row: PropertyRow)
    requires row.name.None? || row.value.None?
    ensures ApplyRow(r, row) == r
  {
  }

  /** The loop's first iteration, then the rest of the rows. */
  lemma ApplyRowsCons(r: BookRecord, rows: seq<PropertyRow>)
    requires rows != []
    ensures ApplyRows(r, rows) == ApplyRows(ApplyRow(r, rows[0]), rows[1..])
  {
  }

  /** A field that no row is routed to keeps its value. */
  lemma {:induction false} UnroutedSlotKept(r: BookRecord, rows: seq<PropertyRow>, t: Target)
    requires forall k :: 0 <= k < |rows| ==> RowTarget(rows[k]) != Some(t)
    ensures Slot(ApplyRows(r, rows), t) == Slot(r, t)
    decreases rows
  {
    if rows != [] {
      NoneRoutedAfter(rows, -1, t);
      UnroutedSlotKept(ApplyRow(r, rows[0]), rows[1..], t);
      SlotAfterFirst(r, rows, t, Slot(r, t));
    }
  }

  /** Dropping the first row shifts "no row after `k` is routed to `t`" down by one. */
  lemma NoneRoutedAfter(rows: seq<PropertyRow>, k: int, t: Target)
    requires rows != [] && -1 <= k
    requires forall j :: k < j < |rows| && 0 <= j ==> RowTarget(rows[j]) != Some(t)
    ensures forall j :: k - 1 < j < |rows| - 1 && 0 <= j ==> RowTarget(rows[1..][j]) != Some(t)
  {
    forall j | k - 1 < j < |rows| - 1 && 0 <= j
      ensures RowTarget(rows[1..][j]) != Some(t)
    {
      assert rows[1..][j] == rows[j + 1];
    }
  }

  /**
   * Last write wins: the field holds the stripped value of the last row
   * routed to it.
   */
  lemma {:induction false} LastRoutedRowWins(r: BookRecord, rows: seq<PropertyRow>, k: nat, t: Target)
    requires k < |rows| && RowTarget(rows[k]) == Some(t)
    requires forall j :: k < j < |rows| ==> RowTarget(rows[j]) != Some(t)
    ensures Slot(ApplyRows(r, rows), t) == Strip(rows[k].value.value)
    decreases rows
  {
    if k == 0 {
      FirstRoutedRowWins(r, rows, t);
    } else {
      LastRoutedShift(rows, k, t);
      LastRoutedRowWins(ApplyRow(r, rows[0]), rows[1..], k - 1, t);
      SlotAfterFirst(r, rows, t, Strip(rows[k].value.value));
    }
  }

  /** Row `k` is the last row routed to `t`. */
  ghost predicate LastRoutedAt(rows: seq<PropertyRow>, k: nat, t: Target) {
    && k < |rows| && RowTarget(rows[k]) == Some(t)
    && forall j :: k < j < |rows| ==> RowTarget(rows[j]) != Some(t)
  }

  /** Past the first row, the last row routed to `t` sits one place earlier. */
  lemma LastRoutedShift(rows: seq<PropertyRow>, k: nat, t: Target)
    requires 0 < k && LastRoutedAt(rows, k, t)
    ensures LastRoutedAt(rows[1..], k - 1, t) && rows[1..][k - 1] == rows[k]
  {
    NoneRoutedAfter(rows, k, t);
  }

  /** What the rows after the first leave in a field is what all the rows leave there. */
  lemma SlotAfterFirst(r: BookRecord, rows: seq<PropertyRow>, t: Target, v: string)
    requires rows != []
    requires Slot(ApplyRows(ApplyRow(r, rows[0]), rows[1..]), t) == v
    ensures Slot(ApplyRows(r, rows), t) == v
  {
    ApplyRowsCons(r, rows);
  }

  /** The first row is the last one routed to `t`. */
  lemma FirstRoutedRowWins(r: BookRecord, rows: seq<PropertyRow>, t: Target)
    requires rows != [] && RowTarget(rows[0]) == Some(t)
    requires forall j :: 0 < j < |rows| ==> RowTarget(rows[j]) != Some(t)
    ensures Slot(ApplyRows(r, rows), t) == Strip(rows[0].value.value)
  {
    NoneRoutedAfter(rows, 0, t);
    ApplyRowsCons(r, rows);
    UnroutedSlotKept(ApplyRow(r, rows[0]), rows[1..], t);
  }

  /**
   * `pages_numeric` is the digit run of the last `Pages` row whose value
   * holds a digit: a later row without digits replaces `pages` but not
   * `pages_numeric`.
   */
  lemma {:induction false} PagesNumericFromLastNumberedRow(r: BookRecord, rows: seq<PropertyRow>, k: nat)
    requires k < |rows| && NumberedPagesRow(rows[k])
    requires forall j :: k < j < |rows| ==> !NumberedPagesRow(rows[j])
    ensures ApplyRows(r, rows).pagesNumeric == DigitRun(Strip(rows[k].value.value))
    decreases rows
  {
    if k == 0 {
      FirstNumberedRowWins(r, rows);
    } else {
      LastNumberedShift(rows, k);
      PagesNumericFromLastNumberedRow(ApplyRow(r, rows[0]), rows[1..], k - 1);
      RowsAfterFirst(r, rows, rows[k].value.value);
    }
  }

  /** Row `k` is the last numbered pages row. */
  ghost predicate LastNumberedAt(rows: seq<PropertyRow>, k: nat) {
    && k < |rows| && NumberedPagesRow(rows[k])
    && forall j :: k < j < |rows| ==> !NumberedPagesRow(rows[j])
  }

  /** Past the first row, the last numbered pages row sits one place earlier. */
  lemma LastNumberedShift(rows: seq<PropertyRow>, k: nat)
    requires 0 < k && LastNumberedAt(rows, k)
    ensures LastNumberedAt(rows[1..], k - 1) && rows[1..][k - 1] == rows[k]
  {
    NoNumberedRowAfter(rows, k);
  }

  /** What the rows after the first leave in `pages_numeric` is what all the rows leave. */
  lemma RowsAfterFirst(r: BookRecord, rows: seq<PropertyRow>, v: string)
    requires rows != []
    requires ApplyRows(ApplyRow(r, rows[0]), rows[1..]).pagesNumeric == DigitRun(Strip(v))
    ensures ApplyRows(r, rows).pagesNumeric == DigitRun(Strip(v))
  {
    ApplyRowsCons(r, rows);
  }

  /** The first row is the last numbered pages row. */
  lemma FirstNumberedRowWins(r: BookRecord, rows: seq<PropertyRow>)
    requires rows != [] && NumberedPagesRow(rows[0])
    requires forall j :: 0 < j < |rows| ==> !NumberedPagesRow(rows[j])
    ensures ApplyRows(r, rows).pagesNumeric == DigitRun(Strip(rows[0].value.value))
  {
    NoNumberedRowAfter(rows, 0);
    ApplyRowsCons(r, rows);
    NumericKeptWithoutDigits(ApplyRow(r, rows[0]), rows[1..]);
  }

  /** A pages row whose value holds a digit. */
  predicate NumberedPagesRow(row: PropertyRow) {
    RowTarget(row) == Some(Pages) && DigitRun(Strip(row.value.value)) != ""
  }

  /** Dropping the first row shifts "no numbered pages row after `k`" down by one. */
  lemma NoNumberedRowAfter(rows: seq<PropertyRow>, k: int)
    requires rows != [] && -1 <= k
    requires forall j :: k < j < |rows| && 0 <= j ==> !NumberedPagesRow(rows[j])
    ensures forall j :: k - 1 < j < |rows| - 1 && 0 <= j ==> !NumberedPagesRow(rows[1..][j])
  {
    forall j | k - 1 < j < |rows| - 1 && 0 <= j
      ensures !NumberedPagesRow(rows[1..][j])
    {
      assert rows[1..][j] == rows[j + 1];
    }
  }

  /** Rows whose pages values hold no digit leave `pages_numeric` alone. */
  lemma {:induction false} NumericKeptWithoutDigits(r: BookRecord, rows: seq<PropertyRow>)
    requires forall j :: 0 <= j < |rows| ==> !NumberedPagesRow(rows[j])
    ensures ApplyRows(r, rows).pagesNumeric == r.pagesNumeric
    decreases rows
  {
    if rows != [] {
      NoNumberedRowAfter(rows, -1);
      ApplyRowsCons(r, rows);
      NumericKeptWithoutDigits(ApplyRow(r, rows[0]), rows[1..]);
    }
  }

  /**
   * With a single pages row, `pages_numeric` is the digit run of `pages`;
   * a second pages row without digits breaks that agreement.
   */
  lemma SinglePagesRowAgrees(r: BookRecord, row: PropertyRow)
    requires r.pagesNumeric == ""
    requires RowTarget(row) == Some(Pages)
    ensures ApplyRows(r, [row]).pagesNumeric == DigitRun(ApplyRows(r, [row]).pages)
  {
    assert [row][1..] == [];
  }

  /** Two pages rows, the later one without digits: the numeric field lags behind. */
  lemma PagesNumericCanLag(r: BookRecord, first: PropertyRow, second: PropertyRow)
    requires first == PropertyRow(Some("Səhifə:"), Some("320"))
    requires second == PropertyRow(Some("Pages"), Some("n/a"))
    ensures ApplyRows(r, [first, second]).pages == "n/a"
    ensures ApplyRows(r, [first, second]).pagesNumeric == "320"
  {
    TwoRows(r, first, second);
    LocalRowEffect(r, first);
    EnglishRowEffect(ApplyRow(r, first), second);
  }

  lemma LocalRowEffect(r: BookRecord, row: PropertyRow)
    requires row == PropertyRow(Some("Səhifə:"), Some("320"))
    ensures ApplyRow(r, row).pagesNumeric == "320"
  {
    LocalPagesRow(row);
  }

  lemma EnglishRowEffect(r: BookRecord, row: PropertyRow)
    requires row == PropertyRow(Some("Pages"), Some("n/a"))
    ensures ApplyRow(r, row).pages == "n/a"
    ensures ApplyRow(r, row).pagesNumeric == r.pagesNumeric
  {
    EnglishPagesRow(row);
    assert Slot(ApplyRow(r, row), Pages) == "n/a";
  }

  lemma TwoRows(r: BookRecord, a: PropertyRow, b: PropertyRow)
    ensures ApplyRows(r, [a, b]) == ApplyRow(ApplyRow(r, a), b)
  {
    assert [a, b][1..] == [b];
    assert [b][1..] == [];
    assert ApplyRows(ApplyRow(r, a), [b]) == ApplyRow(ApplyRow(r, a), b);
  }

  /** `Səhifə:` routes to `pages`, and `"320"` holds the digit run `"320"`. */
  lemma LocalPagesRow(row: PropertyRow)
    requires row == PropertyRow(Some("Səhifə:"), Some("320"))
    ensures RowTarget(row) == Some(Pages)
    ensures DigitRun(Strip(row.value.value)) == "320"
  {
    LocalPagesName(row.name.value);
    LocalPagesRoute(NormaliseName(row.name.value));
    NumberDigits(row.value.value);
  }

  lemma NumberDigits(v: string)
    requires v == "320"
    ensures DigitRun(Strip(v)) == "320"
  {
    assert Trimmed(v);
    assert IsDigit(v[0]) && IsDigit(v[1]) && IsDigit(v[2]);
    FirstRunOfRun(v, IsDigit);
  }

  lemma LocalPagesRoute(name: string)
    requires name == "səhifə"
    ensures Route(name) == Some(Pages)
  {
    RouteIsChain(name);
    LocalEarlierKeywordsAbsent(name);
    ContainsInfix(name, "səhifə", 0);
  }

  /** No keyword tried before the pages keywords occurs in `səhifə`. */
  lemma LocalEarlierKeywordsAbsent(name: string)
    requires name == "səhifə"
    ensures !Contains(name, "isbn") && !Contains(name, "artikul")
    ensures !Contains(name, "nəşriyyat") && !Contains(name, "publisher")
    ensures !Contains(name, "müəllif") && !Contains(name, "author")
  {
    MissingCharNotContained(name, "isbn", 'n');
    MissingCharNotContained(name, "artikul", 't');
    MissingCharNotContained(name, "nəşriyyat", 'n');
    MissingCharNotContained(name, "publisher", 'p');
    MissingCharNotContained(name, "müəllif", 'm');
    MissingCharNotContained(name, "author", 'a');
  }

  lemma LocalPagesName(n: string)
    requires n == "Səhifə:"
    ensures NormaliseName(n) == "səhifə"
  {
    LocalStripped(n);
    LocalColonRemoved(n);
    LocalLowered(Remove(n, ':'));
  }

  lemma LocalStripped(n: string)
    requires n == "Səhifə:"
    ensures Strip(n) == n
  {
    assert Trimmed(n);
  }

  lemma LocalColonRemoved(n: string)
    requires n == "Səhifə:"
    ensures Remove(n, ':') == "Səhifə"
  {
    var stem := "Səhifə";
    assert n == stem + [':'];
    RemoveConcat(stem, [':'], ':');
    assert Remove([':'], ':') == [];
    assert ':' !in stem;
  }

  lemma LocalLowered(n: string)
    requires n == "Səhifə"
    ensures Lower(n) == "səhifə"
  {
  }

  /** `Pages` routes to `pages`, and `"n/a"` holds no digit. */
  lemma EnglishPagesRow(row: PropertyRow)
    requires row == PropertyRow(Some("Pages"), Some("n/a"))
    ensures RowTarget(row) == Some(Pages)
    ensures Strip(row.value.value) == "n/a"
    ensures DigitRun(Strip(row.value.value)) == ""
  {
    EnglishPagesName(row.name.value);
    EnglishPagesRoute(NormaliseName(row.name.value));
    NoDigits(row.value.value);
  }

  lemma NoDigits(v: string)
    requires v == "n/a"
    ensures Strip(v) == v
    ensures DigitRun(v) == ""
  {
    NoDigitsTrimmed(v);
    NoDigitsRun(v);
  }

  lemma NoDigitsTrimmed(v: string)
    requires v == "n/a"
    ensures Strip(v) == v
  {
    assert Trimmed(v);
  }

  lemma NoDigitsRun(v: string)
    requires v == "n/a"
    ensures DigitRun(v) == ""
  {
    assert !IsDigit(v[0]) && !IsDigit(v[1]) && !IsDigit(v[2]);
  }

  lemma EnglishPagesRoute(name: string)
    requires name == "pages"
    ensures Route(name) == Some(Pages)
  {
    RouteIsChain(name);
    EnglishEarlierKeywordsAbsent(name);
    ContainsInfix(name, "pages", 0);
  }

  /** No keyword tried before the pages keywords occurs in `pages`, nor the local pages keyword. */
  lemma EnglishEarlierKeywordsAbsent(name: string)
    requires name == "pages"
    ensures !Contains(name, "isbn") && !Contains(name, "artikul")
    ensures !Contains(name, "nəşriyyat") && !Contains(name, "publisher")
    ensures !Contains(name, "müəllif") && !Contains(name, "author")
    ensures !Contains(name, "səhifə")
  {
    MissingCharNotContained(name, "isbn", 'i');
    MissingCharNotContained(name, "artikul", 't');
    MissingCharNotContained(name, "nəşriyyat", 'n');
    MissingCharNotContained(name, "publisher", 'u');
    MissingCharNotContained(name, "müəllif", 'm');
    MissingCharNotContained(name, "author", 'u');
    MissingCharNotContained(name, "səhifə", 'ə');
  }

  lemma EnglishPagesName(n: string)
    requires n == "Pages"
    ensures NormaliseName(n) == "pages"
  {
    EnglishStripped(n);
    EnglishColonFree(n);
    EnglishLowered(Remove(n, ':'));
  }

  lemma EnglishColonFree(n: string)
    requires n == "Pages"
    ensures Remove(n, ':') == n
  {
    assert n[0] != ':' && n[1] != ':' && n[2] != ':' && n[3] != ':' && n[4] != ':';
  }

  lemma EnglishStripped(n: string)
    requires n == "Pages"
    ensures Strip(n) == n
  {
    assert Trimmed(n);
  }

  lemma EnglishLowered(n: string)
    requires n == "Pages"
    ensures Lower(n) == "pages"
  {
  }
}
