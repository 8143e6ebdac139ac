/**
 * The `labels` field: the titles of the purchase form's label spans, sale
 * labels and blank titles skipped, duplicates dropped in first-seen order,
 * each title stripped and the lot joined with `", "`.
 */
module Labels {
  import opened Wrappers
  import opened Text
  import opened Html
  import opened Fields

  const SaleClass: string := "labels__item_type_sale"

  predicate IsSale(item: Label) {
    SaleClass in item.classes
  }

  /** `label.get('data-label-title') or label.text.strip()`: the raw title. */
  function RawTitle(item: Label): string {
    if item.titleAttr.Some? && item.titleAttr.value != "" then item.titleAttr.value
    else Strip(item.text)
  }

  /** A label whose title is taken: not a sale label, and a title that is not blank. */
  predicate Eligible(item: Label) {
    !IsSale(item) && Strip(RawTitle(item)) != ""
  }

  /**
   * The purchase form that is searched: the `data-main-form` form when the
   * page has one, the `product__form` div otherwise.
   */
  function ChosenForm(page: DetailPage): Option<PurchaseForm> {
    if page.mainForm.Some? then page.mainForm else page.formDiv
  }

  /** The label spans of the chosen form's `labels` div (none without form or div). */
  function FormLabels(page: DetailPage): seq<Label> {
    match ChosenForm(page)
    case None => []
    case Some(form) => if form.labels.Some? then form.labels.value else []
  }

  /**
   * The scraper's loop over the label spans with its `seen` set: the raw
   * titles kept, in the order they were appended.
   */
  function Collect(labels: seq<Label>, seen: set<string>): (r: seq<string>)
    ensures Fresh(r, seen)
    ensures forall i, j :: 0 <= i < j < |r| ==> r[i] != r[j]
    ensures |r| <= |labels|
  {
    if labels == [] then []
    else
      var title := RawTitle(labels[0]);
      if !IsSale(labels[0]) && Strip(title) != "" && title !in seen then
        var rest := Collect(labels[1..], seen + {title});
        FreshCons(title, rest, seen);
        DistinctCons(title, rest);
        [title] + rest
      else
        Collect(labels[1..], seen)
  }

  /** Every title is outside `seen` and not blank once stripped. */
  ghost predicate Fresh(titles: seq<string>, seen: set<string>) {
    forall k :: 0 <= k < |titles| ==> titles[k] !in seen && Strip(titles[k]) != ""
  }

  /** Prepending a fresh title to titles fresh for `seen + {title}` keeps them fresh for `seen`. */
  lemma FreshCons(title: string, rest: seq<string>, seen: set<string>)
    requires title !in seen && Strip(title) != ""
    requires Fresh(rest, seen + {title})
    ensures Fresh([title] + rest, seen)
    ensures title !in rest
  {
    var r := [title] + rest;
    forall k | 0 <= k < |r|
      ensures r[k] !in seen && Strip(r[k]) != ""
    {
      if k > 0 {
        assert r[k] == rest[k - 1];
      }
    }
  }

  /** A title not among distinct titles can be put in front of them. */
  lemma DistinctCons(title: string, rest: seq<string>)
    requires title !in rest
    requires forall i, j :: 0 <= i < j < |rest| ==> rest[i] != rest[j]
    ensures forall i, j :: 0 <= i < j < |[title] + rest| ==> ([title] + rest)[i] != ([title] + rest)[j]
  {
    var r := [title] + rest;
    forall i, j | 0 <= i < j < |r|
      ensures r[i] != r[j]
    {
      assert r[j] == rest[j - 1];
      if i > 0 {
        assert r[i] == rest[i - 1];
      }
    }
  }

  /** The raw titles of the eligible labels, in document order, repeats included. */
  function Candidates(labels: seq<Label>): seq<string> {
    if labels == [] then []
    else if Eligible(labels[0]) then [RawTitle(labels[0])] + Candidates(labels[1..])
    else Candidates(labels[1..])
  }

  /** The label is eligible and its raw title is `t`. */
  predicate Carries(item: Label, t: string) {
    Eligible(item) && RawTitle(item) == t
  }

  /** Some eligible label of the list carries the raw title `t`. */
  ghost predicate CarriedBy(labels: seq<Label>, t: string) {
    exists k :: 0 <= k < |labels| && Carries(labels[k], t)
  }

  /** A title is a candidate exactly when some eligible label carries it. */
  lemma {:induction false} CandidatesAreEligibleTitles(labels: seq<Label>, t: string)
    ensures t in Candidates(labels) <==> CarriedBy(labels, t)
  {
    if labels != [] {
      CandidatesAreEligibleTitles(labels[1..], t);
      CarriedByCons(labels, t);
    }
  }

  /** A title is carried by a list when its head carries it or its tail does. */
  lemma CarriedByCons(labels: seq<Label>, t: string)
    requires labels != []
    ensures CarriedBy(labels, t) <==> Carries(labels[0], t) || CarriedBy(labels[1..], t)
  {
    var tail := labels[1..];
    if CarriedBy(labels, t) && !Carries(labels[0], t) {
      var k :| 0 <= k < |labels| && Carries(labels[k], t);
      assert tail[k - 1] == labels[k];
    }
    if CarriedBy(tail, t) {
      var k :| 0 <= k < |tail| && Carries(tail[k], t);
      assert labels[k + 1] == tail[k];
    }
  }

  /** The index of the first occurrence of `t`. */
  function IndexOf(xs: seq<string>, t: string): (i: nat)
    requires t in xs
    ensures i < |xs| && xs[i] == t
    ensures forall k :: 0 <= k < i ==> xs[k] != t
  {
    if xs[0] == t then 0 else 1 + IndexOf(xs[1..], t)
  }

  /**
   * Order-preserving de-duplication: the values of `xs` not in `seen`, each
   * once, in the order of their first occurrence.
   */
  function Dedup(xs: seq<string>, seen: set<string>): (r: seq<string>)
    ensures forall i, j :: 0 <= i < j < |r| ==> r[i] != r[j]
    ensures forall t :: t in r <==> t in xs && t !in seen
  {
    if xs == [] then []
    else if xs[0] in seen then Dedup(xs[1..], seen)
    else
      var rest := Dedup(xs[1..], seen + {xs[0]});
      var r := [xs[0]] + rest;
      assert forall i :: 1 <= i < |r| ==> r[i] == rest[i - 1];
      r
  }

  /** `r` lists values of `xs` in the order of their first occurrence there. */
  ghost predicate InFirstSeenOrder(xs: seq<string>, r: seq<string>)
    requires forall t :: t in r ==> t in xs
  {
    forall i, j :: 0 <= i < j < |r| ==> IndexOf(xs, r[i]) < IndexOf(xs, r[j])
  }

  /** De-duplication keeps the order in which values first occur. */
  lemma {:induction false} DedupKeepsFirstSeenOrder(xs: seq<string>, seen: set<string>)
    ensures InFirstSeenOrder(xs, Dedup(xs, seen))
  {
    if xs != [] {
      if xs[0] in seen {
        DedupKeepsFirstSeenOrder(xs[1..], seen);
        DedupOrderSkip(xs, seen);
      } else {
        DedupKeepsFirstSeenOrder(xs[1..], seen + {xs[0]});
        DedupOrderKeep(xs, seen);
      }
    }
  }

  /** A head already seen is skipped, and the tail's order carries over. */
  lemma DedupOrderSkip(xs: seq<string>, seen: set<string>)
    requires xs != [] && xs[0] in seen
    requires InFirstSeenOrder(xs[1..], Dedup(xs[1..], seen))
    ensures InFirstSeenOrder(xs, Dedup(xs, seen))
  {
    OrderPastHead(xs, Dedup(xs[1..], seen));
  }

  /** A new head is kept in front, before everything the tail contributes. */
  lemma DedupOrderKeep(xs: seq<string>, seen: set<string>)
    requires xs != [] && xs[0] !in seen
    requires InFirstSeenOrder(xs[1..], Dedup(xs[1..], seen + {xs[0]}))
    ensures InFirstSeenOrder(xs, Dedup(xs, seen))
  {
    OrderWithHead(xs, Dedup(xs[1..], seen + {xs[0]}));
  }

  /** Values of the tail other than the head keep their relative order in `xs`. */
  lemma OrderPastHead(xs: seq<string>, r: seq<string>)
    requires xs != []
    requires forall t :: t in r ==> t in xs[1..] && t != xs[0]
    ensures forall t :: t in r ==> t in xs
    ensures InFirstSeenOrder(xs[1..], r) ==> InFirstSeenOrder(xs, r)
  {
    assert forall t :: t in r ==> t in xs;
    if InFirstSeenOrder(xs[1..], r) {
      forall i, j | 0 <= i < j < |r|
        ensures IndexOf(xs, r[i]) < IndexOf(xs, r[j])
      {
        assert r[i] in r && r[j] in r;
        ShiftIndex(xs, r[i]);
        ShiftIndex(xs, r[j]);
      }
    }
  }

  /** Putting the head of `xs` in front of such values keeps first-seen order. */
  lemma OrderWithHead(xs: seq<string>, r: seq<string>)
    requires xs != []
    requires forall t :: t in r ==> t in xs[1..] && t != xs[0]
    requires InFirstSeenOrder(xs[1..], r)
    ensures forall t :: t in [xs[0]] + r ==> t in xs
    ensures InFirstSeenOrder(xs, [xs[0]] + r)
  {
    var all := [xs[0]] + r;
    OrderPastHead(xs, r);
    forall i, j | 0 <= i < j < |all|
      ensures IndexOf(xs, all[i]) < IndexOf(xs, all[j])
    {
      assert all[j] == r[j - 1] && r[j - 1] in r;
      ShiftIndex(xs, all[j]);
      if i > 0 {
        assert all[i] == r[i - 1];
      }
    }
  }

  /** Past the head, a first occurrence sits one place further in `xs` than in its tail. */
  lemma ShiftIndex(xs: seq<string>, t: string)
    requires t in xs && xs[0] != t
    ensures t in xs[1..] && IndexOf(xs, t) == 1 + IndexOf(xs[1..], t)
  {
  }

  /** The fused loop is de-duplication applied to the eligible titles. */
  lemma {:induction false} CollectIsDedup(labels: seq<Label>, seen: set<string>)
    ensures Collect(labels, seen) == Dedup(Candidates(labels), seen)
  {
    if labels != [] {
      var title := RawTitle(labels[0]);
      if Eligible(labels[0]) && title !in seen {
        CollectIsDedup(labels[1..], seen + {title});
      } else {
        CollectIsDedup(labels[1..], seen);
      }
    }
  }

  /**
   * The raw titles kept from a label list: pairwise distinct, exactly the
   * titles of eligible labels, and in the order each was first seen.
   */
  function KeptTitles(labels: seq<Label>): (r: seq<string>)
    ensures forall i, j :: 0 <= i < j < |r| ==> r[i] != r[j]
    ensures forall t :: t in r <==> exists k :: 0 <= k < |labels| && Eligible(labels[k]) && RawTitle(labels[k]) == t
    ensures forall t :: t in r ==> t in Candidates(labels)
    ensures InFirstSeenOrder(Candidates(labels), r)
  {
    CollectIsDedup(labels, {});
    DedupKeepsFirstSeenOrder(Candidates(labels), {});
    forall t ensures t in Collect(labels, {}) <==> exists k :: 0 <= k < |labels| && Eligible(labels[k]) && RawTitle(labels[k]) == t {
      CandidatesAreEligibleTitles(labels, t);
    }
    Collect(labels, {})
  }

  /** The `labels` field of the record: `''` when no title was kept. */
  function LabelsField(page: DetailPage): (r: string)
    ensures r == "" <==> forall k :: 0 <= k < |FormLabels(page)| ==> !Eligible(FormLabels(page)[k])
    ensures LaidOut(r, StripAll(KeptTitles(FormLabels(page))), ", ")
  {
    var kept := KeptTitles(FormLabels(page));
    LabelsEmptyIff(FormLabels(page));
    JoinLaidOut(StripAll(kept), ", ");
    if kept == [] then "" else Join(StripAll(kept), ", ")
  }

  /** The join of the stripped kept titles is empty exactly when no label is eligible. */
  lemma LabelsEmptyIff(labels: seq<Label>)
    ensures KeptTitles(labels) == [] <==> forall k :: 0 <= k < |labels| ==> !Eligible(labels[k])
    ensures KeptTitles(labels) != [] ==> Join(StripAll(KeptTitles(labels)), ", ") != ""
  {
    var kept := KeptTitles(labels);
    if exists k :: 0 <= k < |labels| && Eligible(labels[k]) {
      var k :| 0 <= k < |labels| && Eligible(labels[k]);
      assert RawTitle(labels[k]) in kept;
    }
    if kept != [] {
      assert kept[0] in kept;
      var k :| 0 <= k < |labels| && Eligible(labels[k]) && RawTitle(labels[k]) == kept[0];
      assert Strip(kept[0]) != "";
      JoinStartsWithFirst(StripAll(kept), ", ");
    }
  }

  /** A join starts with its first part. */
  lemma JoinStartsWithFirst(xs: seq<string>, sep: string)
    requires |xs| >= 1
    ensures xs[0] <= Join(xs, sep)
  {
  }

  /** A sale label anywhere in the list leaves the collected titles unchanged. */
  lemma {:induction false} SaleLabelIgnored(labels: seq<Label>, k: nat, seen: set<string>)
    requires k < |labels| && IsSale(labels[k])
    ensures Collect(labels[..k] + labels[k + 1..], seen) == Collect(labels, seen)
  {
    if k == 0 {
      assert labels[..0] + labels[1..] == labels[1..];
    } else {
      var rest := labels[1..];
      assert labels[..k] + labels[k + 1..] == [labels[0]] + (rest[..k - 1] + rest[k..]);
      assert ([labels[0]] + (rest[..k - 1] + rest[k..]))[1..] == rest[..k - 1] + rest[k..];
      var title := RawTitle(labels[0]);
      if !IsSale(labels[0]) && Strip(title) != "" && title !in seen {
        SaleLabelIgnored(rest, k - 1, seen + {title});
      } else {
        SaleLabelIgnored(rest, k - 1, seen);
      }
    }
  }

  /** With a `data-main-form` form present, the `product__form` div is never read. */
  lemma MainFormShadowsFormDiv(page: DetailPage, other: Option<PurchaseForm>)
    requires page.mainForm.Some?
    ensures LabelsField(page.(formDiv := other)) == LabelsField(page)
  {
  }

  /**
   * The downstream reading of the field (`split(',')` then `strip()`)
   * recovers the kept titles when none of them contains a comma.
   */
  lemma LabelsReadBack(page: DetailPage)
    requires KeptTitles(FormLabels(page)) != []
    requires forall k :: 0 <= k < |KeptTitles(FormLabels(page))| ==> ',' !in Strip(KeptTitles(FormLabels(page))[k])
    ensures StripAll(Split(LabelsField(page), ',')) == StripAll(KeptTitles(FormLabels(page)))
  {
    var entries := StripAll(KeptTitles(FormLabels(page)));
    CommaJoinRoundTrip(entries);
  }
}
