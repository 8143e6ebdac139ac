/**
 * The small total rules that turn one located element into the text of a
 * record field: prices and their numeric tokens, integer runs, the review
 * count default, and the joined multi-part fields.
 */
module Fields {
  import opened Wrappers
  import opened Text

  /** The character class `[\d.,]` of the price pattern. */
  predicate IsPriceChar(c: char) {
    IsDigit(c) || c == '.' || c == ','
  }

  /** `element.text.strip()` when the element exists, else the default `''`. */
  function StrippedOr(element: Option<string>): (r: string)
    ensures Trimmed(r)
    ensures element.None? ==> r == ""
    ensures element.Some? ==> r == Strip(element.value)
  {
    match element
    case None => ""
    case Some(t) => Strip(t)
  }

  // ---------------------------------------------------------------------------
  // Prices

  /**
   * The numeric token of a price text: the first maximal run of digits, dots
   * and commas once every blank is removed, with each comma read as a
   * decimal point; `''` when the text holds no such character.
   */
  function PriceToken(text: string): (r: string)
    ensures ',' !in r
    ensures forall k :: 0 <= k < |r| ==> IsDigit(r[k]) || r[k] == '.'
    ensures r == "" <==> forall k :: 0 <= k < |text| ==> !IsPriceChar(text[k])
  {
    var squeezed := Remove(text, ' ');
    var run := FirstRun(squeezed, IsPriceChar);
    FirstRunIsLeftmostMaximal(squeezed, IsPriceChar);
    FirstRunChars(squeezed, IsPriceChar);
    NoPriceCharSurvives(text);
    Replace(run, ',', '.')
  }

  /** Removing blanks neither adds nor loses a price character. */
  lemma NoPriceCharSurvives(text: string)
    ensures (exists k :: 0 <= k < |text| && IsPriceChar(text[k]))
        ==> (exists k :: 0 <= k < |Remove(text, ' ')| && IsPriceChar(Remove(text, ' ')[k]))
    ensures (exists k :: 0 <= k < |Remove(text, ' ')| && IsPriceChar(Remove(text, ' ')[k]))
        ==> (exists k :: 0 <= k < |text| && IsPriceChar(text[k]))
  {
    var squeezed := Remove(text, ' ');
    if exists k :: 0 <= k < |text| && IsPriceChar(text[k]) {
      var k :| 0 <= k < |text| && IsPriceChar(text[k]);
      assert text[k] in squeezed;
      var j :| 0 <= j < |squeezed| && squeezed[j] == text[k];
      assert IsPriceChar(squeezed[j]);
    }
    if exists k :: 0 <= k < |squeezed| && IsPriceChar(squeezed[k]) {
      var k :| 0 <= k < |squeezed| && IsPriceChar(squeezed[k]);
      assert squeezed[k] in text;
      var j :| 0 <= j < |text| && text[j] == squeezed[k];
      assert IsPriceChar(text[j]);
    }
  }

  /**
   * Position-wise reading of the token: it is the leftmost maximal price run
   * of the blank-free text, character for character, except that commas
   * became dots.
   */
  lemma PriceTokenIsFirstRun(text: string)
    requires PriceToken(text) != ""
    ensures exists i :: IsFirstRun(Remove(text, ' '), IsPriceChar, i, FirstRun(Remove(text, ' '), IsPriceChar))
    ensures |PriceToken(text)| == |FirstRun(Remove(text, ' '), IsPriceChar)|
    ensures forall k :: 0 <= k < |PriceToken(text)| ==>
      PriceToken(text)[k] == if FirstRun(Remove(text, ' '), IsPriceChar)[k] == ',' then '.' else FirstRun(Remove(text, ' '), IsPriceChar)[k]
  {
    FirstRunIsLeftmostMaximal(Remove(text, ' '), IsPriceChar);
  }

  /** A decimal comma becomes a decimal point: `"12,50 AZN"` gives `"12.50"`. */
  lemma DecimalCommaExample(price: string)
    requires price == "12,50 AZN"
    ensures PriceToken(price) == "12.50"
  {
    var amount, currency := "12,50", "AZN";
    BlankFree(amount);
    BlankFree(currency);
    assert price == amount + " " + currency;
    SqueezeBeforeCurrency(price, amount, currency);
    ExampleRun(amount, currency);
    CommaToDot(amount, "12.50");
  }

  /** Grouping blanks vanish before the match: `"1 250,00 AZN"` gives `"1250.00"`. */
  lemma GroupedPriceExample(price: string)
    requires price == "1 250,00 AZN"
    ensures PriceToken(price) == "1250.00"
  {
    var thousands, rest, currency := "1", "250,00", "AZN";
    BlankFree(thousands);
    BlankFree(rest);
    BlankFree(currency);
    GroupedPieces(price, thousands, rest, currency);
    var amount := thousands + " " + rest;
    SqueezeBeforeCurrency(price, amount, currency);
    ExampleSqueeze(thousands, rest);
    PriceChars(thousands + rest);
    ExampleRun(thousands + rest, currency);
    CommaToDot(thousands + rest, "1250.00");
  }

  /** How `"1 250,00 AZN"` is put together. */
  lemma GroupedPieces(price: string, thousands: string, rest: string, currency: string)
    requires price == "1 250,00 AZN" && thousands == "1" && rest == "250,00" && currency == "AZN"
    ensures price == thousands + " " + rest + " " + currency
    ensures thousands + rest == "1250,00"
  {
  }

  /** The example pieces hold no blank. */
  lemma BlankFree(s: string)
    requires s == "12,50" || s == "AZN" || s == "1" || s == "250,00"
    ensures ' ' !in s
    ensures s != "AZN" ==> forall k :: 0 <= k < |s| ==> IsPriceChar(s[k])
    ensures s == "AZN" ==> !IsPriceChar(s[0])
  {
  }

  /** The grouped amount, once squeezed, is all price characters. */
  lemma PriceChars(s: string)
    requires s == "1250,00"
    ensures s != [] && forall k :: 0 <= k < |s| ==> IsPriceChar(s[k])
  {
  }

  /** `"12,50"` and `"1250,00"` read with a decimal point. */
  lemma CommaToDot(run: string, dotted: string)
    requires (run == "12,50" && dotted == "12.50") || (run == "1250,00" && dotted == "1250.00")
    ensures Replace(run, ',', '.') == dotted
  {
    var r := Replace(run, ',', '.');
    assert |r| == |dotted|;
    forall k | 0 <= k < |r|
      ensures r[k] == dotted[k]
    {
    }
  }

  /** Removing the blanks from `amount + " " + currency`. */
  lemma SqueezeBeforeCurrency(price: string, amount: string, currency: string)
    requires price == amount + " " + currency
    requires ' ' !in currency
    ensures Remove(price, ' ') == Remove(amount, ' ') + currency
  {
    ExampleSqueeze(amount, currency);
  }

  /** One blank between the amount and the currency code disappears. */
  lemma ExampleSqueeze(amount: string, currency: string)
    requires ' ' !in currency
    ensures Remove(amount + " " + currency, ' ') == Remove(amount, ' ') + currency
  {
    RemoveConcat(amount + " ", currency, ' ');
    RemoveConcat(amount, " ", ' ');
  }

  /** A leading amount followed by a letter is the whole first price run. */
  lemma ExampleRun(amount: string, currency: string)
    requires amount != [] && forall k :: 0 <= k < |amount| ==> IsPriceChar(amount[k])
    requires currency != [] && !IsPriceChar(currency[0])
    ensures FirstRun(amount + currency, IsPriceChar) == amount
  {
    TakeRunStops(amount, currency, IsPriceChar);
  }

  // ---------------------------------------------------------------------------
  // Integers

  /** `re.search(r'(\d+)', text)`: the first maximal digit run, or `''`. */
  function DigitRun(text: string): (r: string)
    ensures AllDigits(r)
    ensures r == "" <==> forall k :: 0 <= k < |text| ==> !IsDigit(text[k])
    ensures r != "" ==> exists i :: IsFirstRun(text, IsDigit, i, r)
  {
    FirstRunIsLeftmostMaximal(text, IsDigit);
    FirstRunChars(text, IsDigit);
    FirstRun(text, IsDigit)
  }

  /**
   * The review count: the first digit run of the counter's stripped text,
   * and `"0"` both when the counter is missing and when it holds no digit.
   */
  function ReviewsCount(counter: Option<string>): (r: string)
    ensures r != "" && AllDigits(r)
    ensures counter.None? ==> r == "0"
    ensures counter.Some? && DigitRun(Strip(counter.value)) != "" ==> r == DigitRun(Strip(counter.value))
    ensures counter.Some? && DigitRun(Strip(counter.value)) == "" ==> r == "0"
  {
    match counter
    case None => "0"
    case Some(t) =>
      var d := DigitRun(Strip(t));
      if d != "" then d else "0"
  }

  // ---------------------------------------------------------------------------
  // Multi-part text fields

  /**
   * `sep.join([x.strip() for x in parts])`: the stripped parts in their
   * order, each at its offset, with `sep` between neighbours and nothing else.
   */
  function JoinStripped(parts: seq<string>, sep: string): (r: string)
    ensures |parts| == 0 ==> r == ""
    ensures forall k :: 0 <= k < |parts| ==> Contains(r, Strip(parts[k]))
    ensures LaidOut(r, StripAll(parts), sep)
  {
    JoinContainsParts(StripAll(parts), sep);
    JoinLaidOut(StripAll(parts), sep);
    Join(StripAll(parts), sep)
  }

  /** The layout of the stripped parts is exactly what `JoinStripped` produces, and nothing else. */
  lemma JoinStrippedIsLayout(parts: seq<string>, sep: string, j: string)
    ensures j == JoinStripped(parts, sep) <==> LaidOut(j, StripAll(parts), sep)
  {
    if LaidOut(j, StripAll(parts), sep) {
      LaidOutIsJoin(j, StripAll(parts), sep);
    }
  }

  /** The description: the stripped paragraphs joined by one blank. */
  function Description(paragraphs: seq<string>): string {
    JoinStripped(paragraphs, " ")
  }

  /** The categories: the stripped tag texts joined by `", "`. */
  function Categories(tags: seq<string>): string {
    JoinStripped(tags, ", ")
  }

  /**
   * The downstream reading of the categories (`split(',')` then `strip()`)
   * recovers the stripped tag texts when none of them contains a comma.
   */
  lemma CategoriesReadBack(tags: seq<string>)
    ensures |tags| >= 1 && (forall k :: 0 <= k < |tags| ==> ',' !in Strip(tags[k]))
      ==> StripAll(Split(Categories(tags), ',')) == StripAll(tags)
  {
    if |tags| >= 1 && forall k :: 0 <= k < |tags| ==> ',' !in Strip(tags[k]) {
      CommaJoinRoundTrip(StripAll(tags));
    }
  }

  /** Every part can be found in the joined text. */
  lemma {:induction false} JoinContainsParts(xs: seq<string>, sep: string)
    ensures forall k :: 0 <= k < |xs| ==> Contains(Join(xs, sep), xs[k])
  {
    if |xs| >= 2 {
      JoinContainsParts(xs[1..], sep);
      var j := Join(xs, sep);
      var tail := Join(xs[1..], sep);
      forall k | 0 <= k < |xs|
        ensures Contains(j, xs[k])
      {
        if k == 0 {
          ContainsInfix(j, xs[0], 0);
        } else {
          assert xs[k] == xs[1..][k - 1];
          ContainsIff(tail, xs[k]);
          var i :| OccursAt(tail, xs[k], i);
          var off := |xs[0]| + |sep|;
          assert j[off + i..off + i + |xs[k]|] == tail[i..i + |xs[k]|];
          ContainsInfix(j, xs[k], off + i);
        }
      }
    } else if |xs| == 1 {
      ContainsInfix(Join(xs, sep), xs[0], 0);
    }
  }

  /** The joined length: every part plus one separator between neighbours. */
  lemma {:induction false} JoinLength(xs: seq<string>, sep: string)
    requires |xs| >= 1
    ensures |Join(xs, sep)| == TotalLength(xs) + (|xs| - 1) * |sep|
  {
    if |xs| >= 2 {
      JoinLength(xs[1..], sep);
    }
  }

  function TotalLength(xs: seq<string>): nat {
    if xs == [] then 0 else |xs[0]| + TotalLength(xs[1..])
  }
  // ---------------------------------------------------------------------------
  // The layout of a join

  /** Where part `k` starts in `sep.join(xs)`: the earlier parts, each followed by `sep`. */
  ghost function Offset(xs: seq<string>, sep: string, k: nat): nat
    requires k <= |xs|
  {
    if k == 0 then 0 else Offset(xs, sep, k - 1) + |xs[k - 1]| + |sep|
  }

  /** Part `k` sits at its offset in `j`. */
  ghost predicate PartAt(j: string, xs: seq<string>, sep: string, k: nat)
    requires k < |xs|
  {
    Offset(xs, sep, k) + |xs[k]| <= |j| && j[Offset(xs, sep, k)..Offset(xs, sep, k) + |xs[k]|] == xs[k]
  }

  /** The separator sits between part `k` and part `k + 1` in `j`. */
  ghost predicate SepAfter(j: string, xs: seq<string>, sep: string, k: nat)
    requires k + 1 < |xs|
  {
    Offset(xs, sep, k + 1) <= |j| && j[Offset(xs, sep, k) + |xs[k]|..Offset(xs, sep, k + 1)] == sep
  }

  /** Every part sits at its offset in `j`. */
  ghost predicate PartsAt(j: string, xs: seq<string>, sep: string) {
    forall k :: 0 <= k < |xs| ==> PartAt(j, xs, sep, k)
  }

  /** The separator sits between every two neighbouring parts in `j`. */
  ghost predicate SepsAt(j: string, xs: seq<string>, sep: string) {
    forall k :: 0 <= k < |xs| - 1 ==> SepAfter(j, xs, sep, k)
  }

  /**
   * `j` is the parts laid end to end with `sep` between neighbours and
   * nothing else: no parts give `''`, otherwise `j` ends with the last part.
   */
  ghost predicate LaidOut(j: string, xs: seq<string>, sep: string) {
    && (|xs| == 0 ==> j == "")
    && (|xs| >= 1 ==> |j| == Offset(xs, sep, |xs| - 1) + |xs[|xs| - 1]|)
    && PartsAt(j, xs, sep)
    && SepsAt(j, xs, sep)
  }

  /** Past the first part, every offset moves by the first part and one separator. */
  lemma {:induction false} OffsetShift(xs: seq<string>, sep: string, k: nat)
    requires 1 <= k <= |xs|
    ensures Offset(xs, sep, k) == |xs[0]| + |sep| + Offset(xs[1..], sep, k - 1)
    decreases k
  {
    if k > 1 {
      OffsetShift(xs, sep, k - 1);
      assert xs[1..][k - 2] == xs[k - 1];
    }
  }

  /** A slice past a prefix is the slice of what follows it. */
  lemma SliceAfterPrefix(h: string, t: string, a: nat, b: nat)
    requires a <= b <= |t|
    ensures (h + t)[|h| + a..|h| + b] == t[a..b]
  {
  }

  /** `sep.join(xs)` lays the parts out end to end with `sep` between neighbours. */
  lemma {:induction false} JoinLaidOut(xs: seq<string>, sep: string)
    ensures LaidOut(Join(xs, sep), xs, sep)
    decreases |xs|
  {
    if |xs| == 1 {
      assert Join(xs, sep)[0..|xs[0]|] == xs[0];
    } else if |xs| >= 2 {
      JoinLaidOut(xs[1..], sep);
      JoinLaidOutStep(xs, sep);
    }
  }

  /** One more part in front: the induction step of `JoinLaidOut`. */
  lemma JoinLaidOutStep(xs: seq<string>, sep: string)
    requires |xs| >= 2
    requires LaidOut(Join(xs[1..], sep), xs[1..], sep)
    ensures LaidOut(Join(xs, sep), xs, sep)
  {
    var t := Join(xs[1..], sep);
    assert Join(xs, sep) == xs[0] + sep + t;
    OffsetShift(xs, sep, |xs| - 1);
    assert xs[1..][|xs| - 2] == xs[|xs| - 1];
    PartsAfterPrefix(t, xs, sep);
    SepsAfterPrefix(t, xs, sep);
  }

  /** Parts laid out in `t` are laid out, one place later, behind the first part and a separator. */
  lemma PartsAfterPrefix(t: string, xs: seq<string>, sep: string)
    requires |xs| >= 1 && PartsAt(t, xs[1..], sep)
    ensures PartsAt(xs[0] + sep + t, xs, sep)
  {
    var j := xs[0] + sep + t;
    assert PartAt(j, xs, sep, 0) by {
      assert j[0..|xs[0]|] == xs[0];
    }
    forall k | 1 <= k < |xs|
      ensures PartAt(j, xs, sep, k)
    {
      assert PartAt(t, xs[1..], sep, k - 1);
      PartAfterPrefix(t, xs, sep, k);
    }
  }

  lemma PartAfterPrefix(t: string, xs: seq<string>, sep: string, k: nat)
    requires 1 <= k < |xs| && PartAt(t, xs[1..], sep, k - 1)
    ensures PartAt(xs[0] + sep + t, xs, sep, k)
  {
    OffsetShift(xs, sep, k);
    assert xs[1..][k - 1] == xs[k];
    var o := Offset(xs[1..], sep, k - 1);
    SliceAfterPrefix(xs[0] + sep, t, o, o + |xs[k]|);
  }

  /** Separators laid out in `t` are laid out, one place later, behind the first part and a separator. */
  lemma SepsAfterPrefix(t: string, xs: seq<string>, sep: string)
    requires |xs| >= 2 && SepsAt(t, xs[1..], sep)
    requires Offset(xs[1..], sep, 0) + |xs[1]| <= |t|
    ensures SepsAt(xs[0] + sep + t, xs, sep)
  {
    var j := xs[0] + sep + t;
    assert SepAfter(j, xs, sep, 0) by {
      assert j[|xs[0]|..|xs[0]| + |sep|] == sep;
    }
    forall k | 1 <= k < |xs| - 1
      ensures SepAfter(j, xs, sep, k)
    {
      assert SepAfter(t, xs[1..], sep, k - 1);
      SepAfterPrefix(t, xs, sep, k);
    }
  }

  lemma SepAfterPrefix(t: string, xs: seq<string>, sep: string, k: nat)
    requires 1 <= k < |xs| - 1 && SepAfter(t, xs[1..], sep, k - 1)
    ensures SepAfter(xs[0] + sep + t, xs, sep, k)
  {
    OffsetShift(xs, sep, k);
    OffsetShift(xs, sep, k + 1);
    assert xs[1..][k - 1] == xs[k];
    SliceAfterPrefix(xs[0] + sep, t, Offset(xs[1..], sep, k - 1) + |xs[k]|, Offset(xs[1..], sep, k));
  }

  /** Conversely, a text laid out that way is the join: the layout determines it. */
  lemma {:induction false} LaidOutIsJoin(j: string, xs: seq<string>, sep: string)
    requires LaidOut(j, xs, sep)
    ensures j == Join(xs, sep)
    decreases |xs|
  {
    if |xs| == 1 {
      assert PartAt(j, xs, sep, 0);
      assert j == j[0..|xs[0]|];
    } else if |xs| >= 2 {
      var o := |xs[0]| + |sep|;
      assert PartAt(j, xs, sep, 0) && SepAfter(j, xs, sep, 0);
      LaidOutTail(j, xs, sep);
      LaidOutIsJoin(j[o..], xs[1..], sep);
      assert j == j[..|xs[0]|] + j[|xs[0]|..o] + j[o..];
    }
  }

  /** Dropping the first part and one separator from a laid-out text leaves the rest laid out. */
  lemma LaidOutTail(j: string, xs: seq<string>, sep: string)
    requires |xs| >= 2 && LaidOut(j, xs, sep)
    ensures |xs[0]| + |sep| <= |j| && LaidOut(j[|xs[0]| + |sep|..], xs[1..], sep)
  {
    assert SepAfter(j, xs, sep, 0);
    OffsetShift(xs, sep, |xs| - 1);
    assert xs[1..][|xs| - 2] == xs[|xs| - 1];
    var t, tail := j[|xs[0]| + |sep|..], xs[1..];
    forall k | 0 <= k < |tail|
      ensures PartAt(t, tail, sep, k)
    {
      assert PartAt(j, xs, sep, k + 1);
      PartBeforeTail(j, xs, sep, k);
    }
    forall k | 0 <= k < |tail| - 1
      ensures SepAfter(t, tail, sep, k)
    {
      assert SepAfter(j, xs, sep, k + 1);
      SepBeforeTail(j, xs, sep, k);
    }
  }

  lemma PartBeforeTail(j: string, xs: seq<string>, sep: string, k: nat)
    requires k + 1 < |xs| && |xs[0]| + |sep| <= |j| && PartAt(j, xs, sep, k + 1)
    ensures PartAt(j[|xs[0]| + |sep|..], xs[1..], sep, k)
  {
    OffsetShift(xs, sep, k + 1);
    assert xs[1..][k] == xs[k + 1];
    var o := |xs[0]| + |sep|;
    var a := Offset(xs[1..], sep, k);
    assert j[o..][a..a + |xs[k + 1]|] == j[o + a..o + a + |xs[k + 1]|];
  }

  lemma SepBeforeTail(j: string, xs: seq<string>, sep: string, k: nat)
    requires k + 2 < |xs| && |xs[0]| + |sep| <= |j| && SepAfter(j, xs, sep, k + 1)
    ensures SepAfter(j[|xs[0]| + |sep|..], xs[1..], sep, k)
  {
    OffsetShift(xs, sep, k + 1);
    OffsetShift(xs, sep, k + 2);
    assert xs[1..][k] == xs[k + 1];
    var o := |xs[0]| + |sep|;
    var a := Offset(xs[1..], sep, k) + |xs[k + 1]|;
    var b := Offset(xs[1..], sep, k + 1);
    assert j[o..][a..b] == j[o + a..o + b];
  }
}
