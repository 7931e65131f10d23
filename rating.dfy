/**
 * The rating of a number-row arrangement such as "12345 67890": each side is
 * worth the sum, over its keys, of the key position's comfort rating times
 * the frequency of the digit on it, the right side read from the right so
 * that it reuses the left-hand position ratings; the two side values are
 * combined so that an imbalance between the hands costs `BalanceFactor`
 * times the difference.
 */
module Rating {
  import opened Errors
  import opened Tables

  /** How much an imbalance between the two hands lowers the rating. */
  const BalanceFactor: real := 0.65

  /** The characters Python's `str.split()` treats as whitespace. */
  predicate IsWhitespace(c: char) {
    || c as int in {9, 10, 11, 12, 13, 28, 29, 30, 31, 32, 133, 160, 5760, 8232, 8233, 8239, 8287, 12288}
    || 8192 <= c as int <= 8202
  }

  predicate NoWhitespace(s: string) {
    forall i :: 0 <= i < |s| ==> !IsWhitespace(s[i])
  }

  /** The end of the word that starts at `i`: the next whitespace or the end. */
  function WordEnd(s: string, i: nat): (j: nat)
    requires i <= |s|
    ensures i <= j <= |s|
    ensures j == |s| || IsWhitespace(s[j])
    ensures NoWhitespace(s[i..j])
    decreases |s| - i
  {
    if i == |s| || IsWhitespace(s[i]) then i else WordEnd(s, i + 1)
  }

  /** `s.split()`: the maximal runs of non-whitespace characters, in order. */
  function Words(s: string): (ws: seq<string>)
    ensures forall k :: 0 <= k < |ws| ==> |ws[k]| > 0 && NoWhitespace(ws[k])
    decreases |s|
  {
    if |s| == 0 then []
    else if IsWhitespace(s[0]) then Words(s[1..])
    else
      var n := WordEnd(s, 0);
      [s[..n]] + Words(s[n..])
  }

  lemma {:induction false} WordEndAt(s: string, i: nat, k: nat)
    requires i <= k <= |s| && NoWhitespace(s[i..k])
    requires k == |s| || IsWhitespace(s[k])
    ensures WordEnd(s, i) == k
    decreases k - i
  {
    if i < k {
      assert s[i] == s[i..k][0];
      assert s[i + 1..k] == s[i..k][1..];
      WordEndAt(s, i + 1, k);
    }
  }

  /** Two non-empty words joined by one space split back into the two words. */
  lemma WordsOfSides(a: string, b: string)
    requires |a| > 0 && |b| > 0 && NoWhitespace(a) && NoWhitespace(b)
    ensures Words(a + " " + b) == [a, b]
  {
    var s := a + " " + b;
    assert s[..|a|] == a && s[|a|..][1..] == b;
    assert !IsWhitespace(s[0]);
    WordEndAt(s, 0, |a|);
    assert Words(s) == [a] + Words(s[|a|..]);
    WordEndAt(b, 0, |b|);
    assert b[..|b|] == b && b[|b|..] == [];
    assert Words(b) == [b];
  }

  /** `s[::-1]` */
  function Reverse(s: string): string {
    seq(|s|, i requires 0 <= i < |s| => s[|s| - 1 - i])
  }

  lemma ReverseReverse(s: string)
    ensures |Reverse(s)| == |s| && Reverse(Reverse(s)) == s
    ensures NoWhitespace(s) ==> NoWhitespace(Reverse(s))
  {
  }

  /** Position `pos` of a side cannot be rated. */
  predicate Unrated(weights: seq<real>, freq: Table, side: string, pos: nat)
    requires pos < |side|
  {
    pos >= |weights| || side[pos] !in Keys(freq)
  }

  /** The exception position `pos` raises: `IndexError` before `KeyError`. */
  function UnratedError(weights: seq<real>, side: string, pos: nat): Error
    requires pos < |side|
  {
    if pos >= |weights| then IndexOutOfRange else MissingKey(side[pos])
  }

  /**
   * The first position from `pos` on that cannot be rated, or `|side|`: the
   * generator in `value_for_left_side` visits the positions in order and
   * stops at the first lookup that raises.
   */
  function FirstUnrated(weights: seq<real>, freq: Table, side: string, pos: nat): (i: nat)
    requires pos <= |side|
    ensures pos <= i <= |side|
    ensures i < |side| ==> Unrated(weights, freq, side, i)
    ensures forall j :: pos <= j < i ==> !Unrated(weights, freq, side, j)
    decreases |side| - pos
  {
    if pos == |side| || Unrated(weights, freq, side, pos) then pos
    else FirstUnrated(weights, freq, side, pos + 1)
  }

  /** The frequency of digit `c`, or zero when it has none. */
  function FreqOf(freq: Table, c: char): real {
    match Lookup(freq, c)
    case Ok(v) => v
    case Err(_) => 0.0
  }

  /** The terms `weights[pos] * freq[d]` of a side, in order. */
  function Terms(weights: seq<real>, freq: Table, side: string): seq<real>
    requires |side| <= |weights|
  {
    seq(|side|, k requires 0 <= k < |side| => weights[k] * FreqOf(freq, side[k]))
  }

  lemma AllRated(weights: seq<real>, freq: Table, side: string)
    requires forall k :: 0 <= k < |side| ==> !Unrated(weights, freq, side, k)
    ensures |side| <= |weights| && forall k :: 0 <= k < |side| ==> side[k] in Keys(freq)
  {
    if |side| > |weights| {
      assert Unrated(weights, freq, side, |weights|);
    }
    forall k | 0 <= k < |side|
      ensures side[k] in Keys(freq)
    {
      assert !Unrated(weights, freq, side, k);
    }
  }

  /**
   * `value_for_left_side`: the sum of the terms of a side, or the exception
   * of its first position that cannot be rated.
   */
  function SideValue(weights: seq<real>, freq: Table, side: string): (r: Result<real>)
    ensures r.Ok? <==> |side| <= |weights| && forall k :: 0 <= k < |side| ==> side[k] in Keys(freq)
  {
    var i := FirstUnrated(weights, freq, side, 0);
    if i < |side| then
      Err(UnratedError(weights, side, i))
    else
      AllRated(weights, freq, side);
      Ok(Total(Terms(weights, freq, side)))
  }

  /**
   * `value_per_side`: split the arrangement at its whitespace into exactly
   * two sides; rate the left side as it is and the right side reversed.
   * Anything but two words fails the unpacking `a, b = ...`; otherwise the
   * left side is rated first, so its exception wins.
   */
  function ValuePerSide(weights: seq<real>, freq: Table, perm: string): (r: Result<(real, real)>)
    ensures |Words(perm)| != 2 ==> r == Err(NotTwoSides(|Words(perm)|))
    ensures |Words(perm)| == 2 ==> (r.Ok? <==>
      SideValue(weights, freq, Words(perm)[0]).Ok? && SideValue(weights, freq, Reverse(Words(perm)[1])).Ok?)
    ensures |Words(perm)| == 2 && SideValue(weights, freq, Words(perm)[0]).Err? ==>
      r == Err(SideValue(weights, freq, Words(perm)[0]).error)
    ensures r.Ok? ==> (|Words(perm)| == 2 &&
      r.value == (SideValue(weights, freq, Words(perm)[0]).value, SideValue(weights, freq, Reverse(Words(perm)[1])).value))
  {
    var ws := Words(perm);
    if |ws| != 2 then Err(NotTwoSides(|ws|))
    else match SideValue(weights, freq, ws[0])
      case Err(e) => Err(e)
      case Ok(av) =>
        match SideValue(weights, freq, Reverse(ws[1]))
        case Err(e) => Err(e)
        case Ok(bv) => Ok((av, bv))
  }

  /**
   * An arrangement written as two sides joined by a space, as the search
   * builds `p[:5] + ' ' + p[5:]`, is valued side by side: the left side as
   * it is and the right side read from the right.
   */
  lemma ValueOfSides(weights: seq<real>, freq: Table, a: string, b: string)
    requires |a| > 0 && |b| > 0 && NoWhitespace(a) && NoWhitespace(b)
    ensures ValuePerSide(weights, freq, a + " " + b).Ok? <==>
      SideValue(weights, freq, a).Ok? && SideValue(weights, freq, Reverse(b)).Ok?
    ensures SideValue(weights, freq, a).Err? ==>
      ValuePerSide(weights, freq, a + " " + b) == Err(SideValue(weights, freq, a).error)
    ensures ValuePerSide(weights, freq, a + " " + b).Ok? ==>
      ValuePerSide(weights, freq, a + " " + b).value == (SideValue(weights, freq, a).value, SideValue(weights, freq, Reverse(b)).value)
  {
    WordsOfSides(a, b);
  }

  function Abs(x: real): real {
    if x < 0.0 then -x else x
  }

  function Min(x: real, y: real): real {
    if x <= y then x else y
  }

  /**
   * `(av + bv) - abs(av - bv) * factor`.  For a factor between zero and one
   * the rating lies between twice the smaller side value and the sum of the
   * two, and it equals the sum exactly when the sides balance (or the factor
   * is zero).
   */
  function Rate(av: real, bv: real, factor: real): real {
    (av + bv) - Abs(av - bv) * factor
  }

  /**
   * For a non-negative factor the rating is at most the sum of the side
   * values, and for a positive one it equals the sum exactly when the sides
   * balance; for a factor of at most one it is at least twice the smaller
   * side value.
   */
  lemma RateBounds(av: real, bv: real, factor: real)
    ensures factor >= 0.0 ==> Rate(av, bv, factor) <= av + bv
    ensures factor > 0.0 ==> (Rate(av, bv, factor) == av + bv <==> av == bv)
    ensures factor <= 1.0 ==> Rate(av, bv, factor) >= 2.0 * Min(av, bv)
  {
    var d := Abs(av - bv);
    var p := d * factor;
    assert 2.0 * Min(av, bv) == av + bv - d;
    assert Rate(av, bv, factor) == av + bv - p;
    assert d == 0.0 <==> av == bv;
    RateSpread(d, factor, p);
  }

  lemma RateSpread(d: real, factor: real, p: real)
    requires d >= 0.0 && p == d * factor
    ensures factor >= 0.0 ==> p >= 0.0
    ensures factor > 0.0 ==> (p == 0.0 <==> d == 0.0)
    ensures factor <= 1.0 ==> p <= d
  {
    if factor >= 0.0 {
      ProductSign(d, factor);
    }
    if factor <= 1.0 {
      assert d - d * factor == d * (1.0 - factor);
      ProductSign(d, 1.0 - factor);
    }
  }

  lemma ProductSign(x: real, y: real)
    requires x >= 0.0 && y >= 0.0
    ensures x * y >= 0.0
    ensures x > 0.0 && y > 0.0 ==> x * y > 0.0
  {
  }

  /** The rating does not depend on which side is which. */
  lemma RateSymmetric(av: real, bv: real, factor: real)
    ensures Rate(av, bv, factor) == Rate(bv, av, factor)
  {
  }

  /**
   * With factor zero the balance is ignored and the rating is the sum; with
   * factor one it is twice the smaller side value, not the smaller value.
   */
  lemma RateExtremes(av: real, bv: real)
    ensures Rate(av, bv, 0.0) == av + bv
    ensures Rate(av, bv, 1.0) == 2.0 * Min(av, bv)
  {
  }

  /**
   * `value_per_side_and_rating`: both side values and the rating, or the
   * exception of `value_per_side`.  For a balance factor between zero and one
   * the rating lies between twice the smaller side value and their sum.
   */
  function ValuePerSideAndRating(weights: seq<real>, freq: Table, factor: real, perm: string): (r: Result<(real, real, real)>)
    ensures r.Ok? <==> ValuePerSide(weights, freq, perm).Ok?
    ensures r.Err? ==> r.error == ValuePerSide(weights, freq, perm).error
    ensures r.Ok? ==> (r.value.0, r.value.1) == ValuePerSide(weights, freq, perm).value
    ensures r.Ok? ==> r.value.2 == Rate(r.value.0, r.value.1, factor)
    ensures r.Ok? && 0.0 <= factor <= 1.0 ==> 2.0 * Min(r.value.0, r.value.1) <= r.value.2 <= r.value.0 + r.value.1
  {
    match ValuePerSide(weights, freq, perm)
    case Err(e) => Err(e)
    case Ok(sides) =>
      RateBounds(sides.0, sides.1, factor);
      Ok((sides.0, sides.1, Rate(sides.0, sides.1, factor)))
  }

  /**
   * Mirroring an arrangement (its right side reversed becomes the left side
   * and its left side reversed the right) swaps the two side values and
   * keeps the rating.
   */
  lemma MirrorRating(weights: seq<real>, freq: Table, factor: real, a: string, b: string)
    requires |a| > 0 && |b| > 0 && NoWhitespace(a) && NoWhitespace(b)
    ensures var r := ValuePerSideAndRating(weights, freq, factor, a + " " + b);
      var m := ValuePerSideAndRating(weights, freq, factor, Reverse(b) + " " + Reverse(a));
      (r.Ok? <==> m.Ok?) &&
      (r.Ok? ==> m.value == (r.value.1, r.value.0, r.value.2))
  {
    WordsOfSides(a, b);
    ReverseReverse(a);
    ReverseReverse(b);
    WordsOfSides(Reverse(b), Reverse(a));
    assert Reverse(Reverse(a)) == a;
    match (SideValue(weights, freq, a), SideValue(weights, freq, Reverse(b)))
    case (Ok(av), Ok(bv)) => RateSymmetric(av, bv, factor);
    case _ =>
  }

  lemma GainAlgebra(wi: real, wj: real, fi: real, fj: real)
    ensures wi * fj + wj * fi - wi * fi - wj * fj == (wi - wj) * (fj - fi)
  {
  }

  lemma TermAt(weights: seq<real>, freq: Table, side: string, k: nat)
    requires k < |side| <= |weights|
    ensures Terms(weights, freq, side)[k] == weights[k] * FreqOf(freq, side[k])
  {
  }

  /** A side whose every position can be rated is worth the sum of its terms. */
  lemma RatedSideValue(weights: seq<real>, freq: Table, side: string)
    requires |side| <= |weights| && forall k :: 0 <= k < |side| ==> side[k] in Keys(freq)
    ensures SideValue(weights, freq, side) == Ok(Total(Terms(weights, freq, side)))
  {
  }

  /**
   * With non-negative position ratings, a side's value lies between the sum
   * of the position ratings it uses times the lowest and times the highest
   * frequency of its digits; with non-negative frequencies it is never
   * negative.
   */
  lemma SideValueBetween(weights: seq<real>, freq: Table, side: string, lo: real, hi: real)
    requires |side| <= |weights| && forall k :: 0 <= k < |side| ==> side[k] in Keys(freq)
    requires forall k :: 0 <= k < |side| ==> weights[k] >= 0.0
    requires forall k :: 0 <= k < |side| ==> lo <= FreqOf(freq, side[k]) <= hi
    ensures SideValue(weights, freq, side).Ok?
    ensures lo * Total(weights[..|side|]) <= SideValue(weights, freq, side).value <= hi * Total(weights[..|side|])
  {
    RatedSideValue(weights, freq, side);
    TermsBetween(weights, freq, side, lo, hi);
  }

  /** Elementwise bounds by multiples of `ws` bound the sum by the same multiples of its sum. */
  lemma SumsBetween(ts: seq<real>, ws: seq<real>, lo: real, hi: real)
    requires |ts| == |ws|
    requires forall k :: 0 <= k < |ts| ==> Times(ws, lo)[k] <= ts[k] <= Times(ws, hi)[k]
    ensures lo * Total(ws) <= Total(ts) <= hi * Total(ws)
  {
    TotalMonotone(Times(ws, lo), ts);
    TotalMonotone(ts, Times(ws, hi));
    TotalTimes(ws, lo);
    TotalTimes(ws, hi);
  }

  /** Every element of `xs` multiplied by `c`. */
  function Times(xs: seq<real>, c: real): (r: seq<real>)
    ensures |r| == |xs|
  {
    seq(|xs|, k requires 0 <= k < |xs| => c * xs[k])
  }

  /** Each term lies between the lowest and the highest frequency times its position rating, and so does their sum. */
  lemma TermsBetween(weights: seq<real>, freq: Table, side: string, lo: real, hi: real)
    requires |side| <= |weights|
    requires forall k :: 0 <= k < |side| ==> weights[k] >= 0.0
    requires forall k :: 0 <= k < |side| ==> lo <= FreqOf(freq, side[k]) <= hi
    ensures lo * Total(weights[..|side|]) <= Total(Terms(weights, freq, side)) <= hi * Total(weights[..|side|])
  {
    var ts, ws := Terms(weights, freq, side), weights[..|side|];
    var below, above := Times(ws, lo), Times(ws, hi);
    forall k | 0 <= k < |side|
      ensures below[k] <= ts[k] <= above[k]
    {
      TermAt(weights, freq, side, k);
      TermBetween(weights[k], FreqOf(freq, side[k]), lo, hi);
    }
    SumsBetween(ts, ws, lo, hi);
  }

  lemma TermBetween(w: real, f: real, lo: real, hi: real)
    requires w >= 0.0 && lo <= f <= hi
    ensures lo * w <= w * f <= hi * w
  {
    ProductSign(w, f - lo);
    ProductSign(w, hi - f);
    assert w * (f - lo) == w * f - lo * w;
    assert w * (hi - f) == hi * w - w * f;
  }

  /** Multiplying every element by `c` multiplies the sum by `c`. */
  lemma {:induction false} TotalTimes(xs: seq<real>, c: real)
    ensures Total(Times(xs, c)) == c * Total(xs)
    decreases |xs|
  {
    if |xs| > 0 {
      var m := |xs| - 1;
      var t, u := Times(xs, c), Times(xs[..m], c);
      forall k | 0 <= k < m ensures t[k] == u[k] {
      }
      assert t[..m] == u;
      assert t[m] == c * xs[m];
      TotalTimes(xs[..m], c);
      assert c * (Total(xs[..m]) + xs[m]) == c * Total(xs[..m]) + c * xs[m];
    }
  }

  /** Elementwise smaller sequences have smaller sums. */
  lemma {:induction false} TotalMonotone(xs: seq<real>, ys: seq<real>)
    requires |xs| == |ys| && forall k :: 0 <= k < |xs| ==> xs[k] <= ys[k]
    ensures Total(xs) <= Total(ys)
    decreases |xs|
  {
    if |xs| > 0 {
      TotalMonotone(xs[..|xs| - 1], ys[..|ys| - 1]);
    }
  }

  /** Exchanging two digits of a side changes only the terms at their positions. */
  lemma {:induction false} ExchangeTerms(weights: seq<real>, freq: Table, side: string, i: nat, j: nat)
    requires i < j < |side| <= |weights|
    ensures var s := side[i := side[j]][j := side[i]];
      var ts, us := Terms(weights, freq, side), Terms(weights, freq, s);
      Total(us) == Total(ts) - ts[i] - ts[j] + us[i] + us[j]
  {
    var s := side[i := side[j]][j := side[i]];
    var ts, us := Terms(weights, freq, side), Terms(weights, freq, s);
    forall k | 0 <= k < |s| && k != i && k != j
      ensures us[k] == ts[k]
    {
      assert s[k] == side[k];
    }
    assert us == ts[i := us[i]][j := us[j]];
    TotalUpdate(ts, i, us[i]);
    TotalUpdate(ts[i := us[i]], j, us[j]);
  }

  lemma ExchangeTotal(weights: seq<real>, freq: Table, side: string, i: nat, j: nat)
    requires i < j < |side| <= |weights|
    ensures Total(Terms(weights, freq, side[i := side[j]][j := side[i]])) ==
      Total(Terms(weights, freq, side)) +
      (weights[i] - weights[j]) * (FreqOf(freq, side[j]) - FreqOf(freq, side[i]))
  {
    var s := side[i := side[j]][j := side[i]];
    ExchangeTerms(weights, freq, side, i, j);
    TermAt(weights, freq, side, i);
    TermAt(weights, freq, side, j);
    TermAt(weights, freq, s, i);
    TermAt(weights, freq, s, j);
    GainAlgebra(weights[i], weights[j], FreqOf(freq, side[i]), FreqOf(freq, side[j]));
  }

  /**
   * Exchanging the digits on positions `i` and `j` of a side changes its
   * value by (weights[i] - weights[j]) * (freq of the digit from j - freq of
   * the digit from i): moving the more frequent digit to the better rated
   * key raises the value.
   */
  lemma ExchangeGain(weights: seq<real>, freq: Table, side: string, i: nat, j: nat)
    requires i < j < |side| <= |weights|
    requires forall k :: 0 <= k < |side| ==> side[k] in Keys(freq)
    ensures SideValue(weights, freq, side).Ok?
    ensures SideValue(weights, freq, side[i := side[j]][j := side[i]]).Ok?
    ensures SideValue(weights, freq, side[i := side[j]][j := side[i]]).value ==
      SideValue(weights, freq, side).value +
      (weights[i] - weights[j]) * (FreqOf(freq, side[j]) - FreqOf(freq, side[i]))
  {
    var s := side[i := side[j]][j := side[i]];
    assert forall k :: 0 <= k < |s| ==> s[k] in Keys(freq);
    RatedSideValue(weights, freq, side);
    RatedSideValue(weights, freq, s);
    ExchangeTotal(weights, freq, side, i, j);
  }
}
