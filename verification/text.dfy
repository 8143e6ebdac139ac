/**
 * The string primitives the scraper leans on: Python's `strip`, `replace`,
 * `lower`, `in`, the two regular expressions that pick a run of characters,
 * `join`, `split` and integer formatting, each written out on `seq<char>`.
 */
module Text {

  /** Python's `str.isspace()` for a single code point. */
  predicate IsSpace(c: char) {
    || c == ' '
    || '\t' <= c <= '\r'
    || '\U{1C}' <= c <= '\U{1F}'
    || c == '\U{85}'
    || c == '\U{A0}'
    || c == '\U{1680}'
    || '\U{2000}' <= c <= '\U{200A}'
    || c == '\U{2028}'
    || c == '\U{2029}'
    || c == '\U{202F}'
    || c == '\U{205F}'
    || c == '\U{3000}'
  }

  /** The regular-expression class `\d`, restricted to ASCII digits. */
  predicate IsDigit(c: char) {
    '0' <= c <= '9'
  }

  predicate AllSpace(s: string) {
    forall k :: 0 <= k < |s| ==> IsSpace(s[k])
  }

  predicate AllDigits(s: string) {
    forall k :: 0 <= k < |s| ==> IsDigit(s[k])
  }

  /** No whitespace at either end: what `strip()` leaves behind. */
  predicate Trimmed(s: string) {
    s == [] || (!IsSpace(s[0]) && !IsSpace(s[|s| - 1]))
  }

  // ---------------------------------------------------------------------------
  // strip()

  /** `lstrip()`: drops the leading whitespace and nothing else. */
  function LStrip(s: string): (r: string)
    ensures |r| <= |s| && r == s[|s| - |r|..]
    ensures forall k :: 0 <= k < |s| - |r| ==> IsSpace(s[k])
    ensures r == [] || !IsSpace(r[0])
  {
    if s == [] || !IsSpace(s[0]) then s
    else
      var r := LStrip(s[1..]);
      assert forall k :: 1 <= k < |s| ==> s[k] == s[1..][k - 1];
      r
  }

  /** `rstrip()`: drops the trailing whitespace and nothing else. */
  function RStrip(s: string): (r: string)
    ensures |r| <= |s| && r == s[..|r|]
    ensures forall k :: |r| <= k < |s| ==> IsSpace(s[k])
    ensures r == [] || !IsSpace(r[|r| - 1])
  {
    if s == [] || !IsSpace(s[|s| - 1]) then s
    else
      var r := RStrip(s[..|s| - 1]);
      assert forall k :: 0 <= k < |s| - 1 ==> s[k] == s[..|s| - 1][k];
      r
  }

  /** `strip()`: the text between the leading and the trailing whitespace. */
  function Strip(s: string): (r: string)
    ensures Trimmed(r)
    ensures |r| <= |s|
    ensures Trimmed(s) ==> r == s
    ensures r == [] <==> AllSpace(s)
    ensures CutFrom(s, r)
  {
    var l := LStrip(s);
    LStripEmpty(s);
    RStripEmpty(l);
    LStripCuts(s);
    RStripCuts(l);
    CutTrans(s, l, RStrip(l));
    RStrip(l)
  }

  /**
   * `r` is what is left of `s` after cutting whitespace characters, one at a
   * time, from either end: nothing inside `s` is removed or changed.
   */
  ghost predicate CutFrom(s: string, r: string)
    decreases |s|
  {
    || s == r
    || (s != [] && IsSpace(s[0]) && CutFrom(s[1..], r))
    || (s != [] && IsSpace(s[|s| - 1]) && CutFrom(s[..|s| - 1], r))
  }

  /** `lstrip()` only cuts from the front. */
  lemma {:induction false} LStripCuts(s: string)
    ensures CutFrom(s, LStrip(s))
    decreases |s|
  {
    if s != [] && IsSpace(s[0]) {
      LStripCuts(s[1..]);
    }
  }

  /** `rstrip()` only cuts from the back. */
  lemma {:induction false} RStripCuts(s: string)
    ensures CutFrom(s, RStrip(s))
    decreases |s|
  {
    if s != [] && IsSpace(s[|s| - 1]) {
      RStripCuts(s[..|s| - 1]);
    }
  }

  /** Cutting, then cutting again, is cutting. */
  lemma {:induction false} CutTrans(s: string, m: string, r: string)
    requires CutFrom(s, m) && CutFrom(m, r)
    ensures CutFrom(s, r)
    decreases |s|
  {
    if s == m {
    } else if s != [] && IsSpace(s[0]) && CutFrom(s[1..], m) {
      CutTrans(s[1..], m, r);
    } else {
      CutTrans(s[..|s| - 1], m, r);
    }
  }

  /** `lstrip()` leaves nothing exactly when the text is all whitespace. */
  lemma LStripEmpty(s: string)
    ensures LStrip(s) == [] <==> AllSpace(s)
  {
    var l := LStrip(s);
    if l != [] {
      assert l[0] == s[|s| - |l|];
    } else {
      assert s == s[..|s| - |l|];
    }
  }

  /** `rstrip()` leaves nothing exactly when the text is all whitespace, and keeps the first character otherwise. */
  lemma RStripEmpty(s: string)
    ensures RStrip(s) == [] <==> AllSpace(s)
    ensures RStrip(s) != [] ==> RStrip(s)[0] == s[0]
  {
    var r := RStrip(s);
    if r == [] {
      assert s == s[|r|..];
    } else {
      assert r[0] == s[0];
    }
  }

  /** A leading whitespace character never survives `strip()`. */
  lemma StripDropsLeadingSpace(c: char, s: string)
    requires IsSpace(c)
    ensures Strip([c] + s) == Strip(s)
  {
    assert ([c] + s)[1..] == s;
  }

  // ---------------------------------------------------------------------------
  // replace(), lower()

  /** `s.replace(c, '')`: every occurrence of `c` removed. */
  function Remove(s: string, c: char): (r: string)
    ensures c !in r
    ensures |r| <= |s|
    ensures forall d :: d != c ==> (d in r <==> d in s)
    ensures c !in s ==> r == s
  {
    if s == [] then []
    else if s[0] == c then Remove(s[1..], c)
    else
      var rest := Remove(s[1..], c);
      assert forall d :: d in s <==> d == s[0] || d in s[1..];
      [s[0]] + rest
  }

  /** Removal works piecewise over a concatenation. */
  lemma {:induction false} RemoveConcat(a: string, b: string, c: char)
    ensures Remove(a + b, c) == Remove(a, c) + Remove(b, c)
  {
    if a != [] {
      assert (a + b)[0] == a[0];
      assert (a + b)[1..] == a[1..] + b;
      RemoveConcat(a[1..], b, c);
      if a[0] != c {
        assert [a[0]] + Remove(a[1..], c) + Remove(b, c) == [a[0]] + (Remove(a[1..], c) + Remove(b, c));
      }
    } else {
      assert a + b == b;
    }
  }

  /** `s.replace(a, b)` for single characters. */
  function Replace(s: string, a: char, b: char): (r: string)
    ensures |r| == |s|
    ensures forall k :: 0 <= k < |s| ==> r[k] == if s[k] == a then b else s[k]
  {
    if s == [] then [] else [if s[0] == a then b else s[0]] + Replace(s[1..], a, b)
  }

  /**
   * `str.lower()` for one code point: ASCII, the Latin-1 capitals, and the
   * three extra capitals of the Azerbaijani Latin alphabet (Ğ, Ş, Ə).
   */
  function LowerChar(c: char): char {
    if 'A' <= c <= 'Z' then (c as int + 32) as char
    else if '\U{C0}' <= c <= '\U{DE}' && c != '\U{D7}' then (c as int + 32) as char
    else if c == '\U{11E}' then '\U{11F}'
    else if c == '\U{15E}' then '\U{15F}'
    else if c == '\U{18F}' then '\U{259}'
    else c
  }

  function Lower(s: string): (r: string)
    ensures |r| == |s|
    ensures forall k :: 0 <= k < |s| ==> r[k] == LowerChar(s[k])
  {
    if s == [] then [] else [LowerChar(s[0])] + Lower(s[1..])
  }

  /** Lower-casing twice is lower-casing once. */
  lemma LowerIdempotent(s: string)
    ensures Lower(Lower(s)) == Lower(s)
  {
  }

  // ---------------------------------------------------------------------------
  // `t in s` for strings

  ghost predicate OccursAt(s: string, t: string, i: int) {
    0 <= i && i + |t| <= |s| && s[i..i + |t|] == t
  }

  /** Python's substring test `t in s`. */
  function Contains(s: string, t: string): bool
    decreases |s|
  {
    if |t| <= |s| && s[..|t|] == t then true
    else if s == [] then false
    else Contains(s[1..], t)
  }

  /** `Contains` holds exactly when `t` occurs at some position of `s`. */
  lemma {:induction false} ContainsIff(s: string, t: string)
    ensures Contains(s, t) <==> exists i :: OccursAt(s, t, i)
    decreases |s|
  {
    if |t| <= |s| && s[..|t|] == t {
      assert OccursAt(s, t, 0);
    } else if s == [] {
    } else {
      ContainsIff(s[1..], t);
      if Contains(s, t) {
        var i :| OccursAt(s[1..], t, i);
        assert s[1..][i..i + |t|] == s[i + 1..i + 1 + |t|];
        assert OccursAt(s, t, i + 1);
      }
      if exists i :: OccursAt(s, t, i) {
        var i :| OccursAt(s, t, i);
        if i != 0 {
          assert s[1..][i - 1..i - 1 + |t|] == s[i..i + |t|];
          assert OccursAt(s[1..], t, i - 1);
        }
      }
    }
  }

  /** A character of `t` that `s` lacks keeps `t` from occurring in `s`. */
  lemma MissingCharNotContained(s: string, t: string, c: char)
    requires c in t && c !in s
    ensures !Contains(s, t)
  {
    ContainsIff(s, t);
  }

  /** Any occurrence of `t` inside `s` makes `t in s` true. */
  lemma ContainsInfix(s: string, t: string, i: nat)
    requires i + |t| <= |s| && s[i..i + |t|] == t
    ensures Contains(s, t)
  {
    ContainsIff(s, t);
    assert OccursAt(s, t, i);
  }

  // ---------------------------------------------------------------------------
  // first match of `[class]+`

  /** The longest prefix of `s` whose characters all satisfy `p`. */
  function TakeRun(s: string, p: char -> bool): (r: string)
    ensures r <= s
    ensures forall k :: 0 <= k < |r| ==> p(r[k])
    ensures |r| == |s| || !p(s[|r|])
  {
    if s != [] && p(s[0]) then [s[0]] + TakeRun(s[1..], p) else []
  }

  /** A run followed by a non-qualifying character is exactly what `TakeRun` takes. */
  lemma {:induction false} TakeRunStops(a: string, b: string, p: char -> bool)
    requires forall k :: 0 <= k < |a| ==> p(a[k])
    requires b == [] || !p(b[0])
    ensures TakeRun(a + b, p) == a
  {
    if a != [] {
      assert (a + b)[1..] == a[1..] + b;
      TakeRunStops(a[1..], b, p);
    } else {
      assert a + b == b;
    }
  }

  /**
   * `r` is the leftmost maximal run of `p`-characters of `s`, starting at
   * index `i`: what `re.search` returns for a pattern `[class]+`.
   */
  ghost predicate IsFirstRun(s: string, p: char -> bool, i: int, r: string) {
    && 0 <= i && i + |r| <= |s|
    && r == s[i..i + |r|]
    && r != []
    && (forall k :: 0 <= k < i ==> !p(s[k]))
    && (forall k :: 0 <= k < |r| ==> p(r[k]))
    && (i + |r| == |s| || !p(s[i + |r|]))
  }

  /** The first maximal run of `p`-characters, or `""` when there is none. */
  function FirstRun(s: string, p: char -> bool): string
  {
    if s == [] then []
    else if p(s[0]) then TakeRun(s, p)
    else FirstRun(s[1..], p)
  }

  /** `FirstRun` is the leftmost maximal match, and is empty exactly when nothing matches. */
  lemma {:induction false} FirstRunIsLeftmostMaximal(s: string, p: char -> bool)
    ensures (forall k :: 0 <= k < |s| ==> !p(s[k])) <==> FirstRun(s, p) == []
    ensures FirstRun(s, p) != [] ==> exists i :: IsFirstRun(s, p, i, FirstRun(s, p))
    decreases |s|
  {
    var r := FirstRun(s, p);
    if s == [] {
    } else if p(s[0]) {
      assert IsFirstRun(s, p, 0, r);
    } else {
      FirstRunIsLeftmostMaximal(s[1..], p);
      assert forall k :: 1 <= k < |s| ==> s[k] == s[1..][k - 1];
      if r != [] {
        var i :| IsFirstRun(s[1..], p, i, r);
        assert s[1..][i..i + |r|] == s[i + 1..i + 1 + |r|];
        assert IsFirstRun(s, p, i + 1, r);
      }
    }
  }

  /** The first run lies inside `s` and is made only of `p`-characters. */
  lemma FirstRunChars(s: string, p: char -> bool)
    ensures forall k :: 0 <= k < |FirstRun(s, p)| ==> p(FirstRun(s, p)[k])
  {
    FirstRunIsLeftmostMaximal(s, p);
  }

  /** When every character of a non-empty `s` qualifies, the first run is `s` itself. */
  lemma {:induction false} FirstRunOfRun(s: string, p: char -> bool)
    requires s != [] && forall k :: 0 <= k < |s| ==> p(s[k])
    ensures FirstRun(s, p) == s
  {
    TakeRunOfRun(s, p);
  }

  lemma {:induction false} TakeRunOfRun(s: string, p: char -> bool)
    requires forall k :: 0 <= k < |s| ==> p(s[k])
    ensures TakeRun(s, p) == s
  {
    if s != [] {
      TakeRunOfRun(s[1..], p);
    }
  }

  // ---------------------------------------------------------------------------
  // join(), split()

  /** `sep.join(parts)`. */
  function Join(parts: seq<string>, sep: string): string
  {
    if |parts| == 0 then ""
    else if |parts| == 1 then parts[0]
    else parts[0] + sep + Join(parts[1..], sep)
  }

  /** `s.split(c)` for a one-character separator (always at least one piece). */
  function Split(s: string, c: char): (r: seq<string>)
    ensures |r| >= 1
  {
    if s == [] then [""]
    else if s[0] == c then [""] + Split(s[1..], c)
    else
      var rest := Split(s[1..], c);
      [[s[0]] + rest[0]] + rest[1..]
  }

  /** `[x.strip() for x in xs]`. */
  function StripAll(xs: seq<string>): (r: seq<string>)
    ensures |r| == |xs|
    ensures forall k :: 0 <= k < |xs| ==> r[k] == Strip(xs[k])
  {
    if xs == [] then [] else [Strip(xs[0])] + StripAll(xs[1..])
  }

  /** A string without the separator splits into itself. */
  lemma {:induction false} SplitWithoutSeparator(x: string, c: char)
    requires c !in x
    ensures Split(x, c) == [x]
  {
    if x != [] {
      SplitWithoutSeparator(x[1..], c);
      assert [x[0]] + x[1..] == x;
    }
  }

  /** Splitting `x + c + y` yields `x` followed by the pieces of `y`. */
  lemma {:induction false} SplitAtFirstSeparator(x: string, c: char, y: string)
    requires c !in x
    ensures Split(x + [c] + y, c) == [x] + Split(y, c)
  {
    if x == [] {
      assert [c] + y == x + [c] + y;
      assert ([c] + y)[1..] == y;
    } else {
      var s := x + [c] + y;
      assert s[1..] == x[1..] + [c] + y;
      SplitAtFirstSeparator(x[1..], c, y);
      assert [x[0]] + x[1..] == x;
    }
  }

  /** `pieces` are `xs`, each but the first behind one blank. */
  ghost predicate BlankPrefixed(pieces: seq<string>, xs: seq<string>)
    requires |xs| >= 1
  {
    && |pieces| == |xs|
    && pieces[0] == xs[0]
    && forall k :: 1 <= k < |xs| ==> pieces[k] == " " + xs[k]
  }

  /**
   * Joining with `c + " "` and splitting again on `c` gives back the parts,
   * each but the first with the one blank of the separator in front.
   */
  lemma {:induction false} SplitJoin(xs: seq<string>, c: char)
    requires c != ' '
    requires |xs| >= 1
    requires forall k :: 0 <= k < |xs| ==> c !in xs[k]
    ensures BlankPrefixed(Split(Join(xs, [c, ' ']), c), xs)
    decreases |xs|
  {
    if |xs| == 1 {
      SplitWithoutSeparator(xs[0], c);
    } else {
      SplitJoin(xs[1..], c);
      SplitJoinStep(xs, c);
    }
  }

  /** One more part in front: the induction step of `SplitJoin`. */
  lemma SplitJoinStep(xs: seq<string>, c: char)
    requires c != ' '
    requires |xs| >= 2
    requires c !in xs[0]
    requires BlankPrefixed(Split(Join(xs[1..], [c, ' ']), c), xs[1..])
    ensures BlankPrefixed(Split(Join(xs, [c, ' ']), c), xs)
  {
    var tail := Join(xs[1..], [c, ' ']);
    JoinCons(xs, c);
    SplitAtFirstSeparator(xs[0], c, " " + tail);
    SplitLeadingBlank(tail, c);
    var pieces := Split(tail, c);
    assert Split(Join(xs, [c, ' ']), c) == [xs[0]] + ([" " + pieces[0]] + pieces[1..]);
    BlankPrefixedCons(pieces, xs);
  }

  /** Joining two or more parts: the first, the separator, then the rest joined. */
  lemma JoinCons(xs: seq<string>, c: char)
    requires |xs| >= 2
    ensures Join(xs, [c, ' ']) == xs[0] + [c] + (" " + Join(xs[1..], [c, ' ']))
  {
    var tail := Join(xs[1..], [c, ' ']);
    assert Join(xs, [c, ' ']) == xs[0] + [c, ' '] + tail;
    assert [c, ' '] == [c] + " ";
  }

  /** A leading blank stays glued to the first piece. */
  lemma SplitLeadingBlank(s: string, c: char)
    requires c != ' '
    ensures Split(" " + s, c) == [" " + Split(s, c)[0]] + Split(s, c)[1..]
  {
    assert (" " + s)[1..] == s;
  }

  lemma BlankPrefixedCons(pieces: seq<string>, xs: seq<string>)
    requires |xs| >= 2
    requires BlankPrefixed(pieces, xs[1..])
    ensures BlankPrefixed([xs[0]] + ([" " + pieces[0]] + pieces[1..]), xs)
  {
    var all := [xs[0]] + ([" " + pieces[0]] + pieces[1..]);
    forall k | 1 <= k < |xs|
      ensures all[k] == " " + xs[k]
    {
      if k > 1 {
        assert all[k] == pieces[k - 1] && xs[k] == xs[1..][k - 1];
      }
    }
  }

  /**
   * The downstream reading of a comma-joined field (`split(',')`, then
   * `strip()` on each piece) recovers the trimmed, comma-free entries that
   * were joined with `", "`.
   */
  lemma CommaJoinRoundTrip(xs: seq<string>)
    requires |xs| >= 1
    requires forall k :: 0 <= k < |xs| ==> ',' !in xs[k] && Trimmed(xs[k])
    ensures StripAll(Split(Join(xs, ", "), ',')) == xs
  {
    assert ", " == [',', ' '];
    SplitJoin(xs, ',');
    StripPieces(Split(Join(xs, ", "), ','), xs);
  }

  /** Pieces that are the trimmed parts, all but the first behind one blank, strip back to the parts. */
  lemma StripPieces(pieces: seq<string>, xs: seq<string>)
    requires |xs| >= 1
    requires forall k :: 0 <= k < |xs| ==> Trimmed(xs[k])
    requires BlankPrefixed(pieces, xs)
    ensures StripAll(pieces) == xs
  {
    var stripped := StripAll(pieces);
    forall k | 0 <= k < |xs|
      ensures stripped[k] == xs[k]
    {
      StripPiece(pieces[k], xs[k], k > 0);
    }
  }

  /** One piece of the split: the part itself, possibly behind one blank. */
  lemma StripPiece(piece: string, x: string, blank: bool)
    requires Trimmed(x)
    requires piece == if blank then " " + x else x
    ensures Strip(piece) == x
  {
    if blank {
      StripDropsLeadingSpace(' ', x);
    }
  }

  // ---------------------------------------------------------------------------
  // f"{n}"

  function DigitChar(d: nat): char
    requires d < 10
  {
    ('0' as int + d) as char
  }

  /** The decimal spelling of `n`, as `str(n)` writes it. */
  function Decimal(n: nat): (r: string)
    ensures r != [] && AllDigits(r)
    ensures r[0] == '0' ==> n == 0
    decreases n
  {
    if n < 10 then [DigitChar(n)] else Decimal(n / 10) + [DigitChar(n % 10)]
  }

  /** The number a string of digits denotes. */
  function DigitsValue(s: string): nat
    requires AllDigits(s)
  {
    if s == [] then 0
    else 10 * DigitsValue(s[..|s| - 1]) + (s[|s| - 1] as int - '0' as int)
  }

  /** Reading back the decimal spelling gives the number. */
  lemma {:induction false} DecimalRoundTrip(n: nat)
    ensures DigitsValue(Decimal(n)) == n
    decreases n
  {
    if n >= 10 {
      DecimalRoundTrip(n / 10);
      var s := Decimal(n);
      assert s[..|s| - 1] == Decimal(n / 10);
    }
  }

  /** Distinct numbers have distinct decimal spellings. */
  lemma DecimalInjective(n: nat, m: nat)
    requires Decimal(n) == Decimal(m)
    ensures n == m
  {
    DecimalRoundTrip(n);
    DecimalRoundTrip(m);
  }
}
