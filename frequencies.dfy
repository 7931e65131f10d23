/**
 * The digit-frequency and key-position tables the rating of an arrangement
 * uses: a Zipfian frequency for every digit, the frequency of '0' blended
 * with its real-world value, the rescale to a total of one, and the rescale
 * of the position ratings to a total of one hundred.
 */
module Frequencies {
  import opened Errors
  import opened Tables

  /** How Zipfian the frequency of '0' stays (between zero and one). */
  const ZipfFactor: real := 0.7

  /** The share of '0' among all digits in Wikipedia and Gutenberg text. */
  const RealWorldZero: real := 0.134418127182388

  /** How comfortable each left-hand key is to hit, pinky to index finger. */
  const LeftKeysPositionRating: seq<real> := [0.55, 0.7, 1.0, 0.98, 0.8]

  /** The digit at index `n` of `string.digits` gets frequency 1/(n+1). */
  function ZipfTable(): Table {
    seq(10, n requires 0 <= n < 10 => (Digits[n], 1.0 / (n + 1) as real))
  }

  /**
   * The Zipf table has one entry per digit, in the order of `string.digits`,
   * and looking up the digit at index `n` gives 1/(n+1).
   */
  lemma ZipfWeights()
    ensures Keys(ZipfTable()) == Digits
    ensures forall n :: 0 <= n < 10 ==> Lookup(ZipfTable(), Digits[n]) == Ok(1.0 / (n + 1) as real)
  {
    var z := ZipfTable();
    assert Keys(z) == Digits;
    DigitsDistinct();
    forall n | 0 <= n < 10
      ensures Lookup(z, Digits[n]) == Ok(1.0 / (n + 1) as real)
    {
      FindDistinct(z, n);
    }
  }

  /** The Zipf frequencies fall strictly from '0' to '9' and stay positive. */
  lemma ZipfFalling()
    ensures forall n :: 0 < n < 10 ==> ZipfTable()[n - 1].1 > ZipfTable()[n].1 > 0.0
  {
    forall n | 0 < n < 10
      ensures ZipfTable()[n - 1].1 > ZipfTable()[n].1 > 0.0
    {
      FallingFraction(n);
    }
  }

  lemma FallingFraction(n: nat)
    requires n > 0
    ensures 1.0 / n as real > 1.0 / (n + 1) as real > 0.0
  {
    var a, b := n as real, (n + 1) as real;
    assert 1.0 / a - 1.0 / b == 1.0 / (a * b);
  }

  /** The convex combination `z * x + (1 - z) * y`. */
  function Blend(z: real, x: real, y: real): (b: real)
    ensures 0.0 <= z <= 1.0 ==> (x <= b <= y || y <= b <= x)
  {
    var b := z * x + (1.0 - z) * y;
    if 0.0 <= z <= 1.0 then
      BlendBetween(z, x, y, b);
      b
    else
      b
  }

  lemma BlendBetween(z: real, x: real, y: real, b: real)
    requires 0.0 <= z <= 1.0 && b == z * x + (1.0 - z) * y
    ensures x <= b <= y || y <= b <= x
  {
    assert b - y == z * (x - y);
    assert b - x == (1.0 - z) * (y - x);
    if x <= y {
      MulSign(z, x - y);
      MulSign(1.0 - z, x - y);
    } else {
      MulSign(z, y - x);
      MulSign(1.0 - z, y - x);
    }
  }

  lemma MulSign(a: real, b: real)
    requires a >= 0.0 && b <= 0.0
    ensures a * b <= 0.0
  {
  }

  /**
   * The frequency of '0' is replaced by its blend with the real-world share
   * `rw0`; every other entry and the order stay.  Without a '0' the lookup
   * raises `KeyError`.
   */
  function BlendZero(t: Table, z: real, rw0: real): (r: Result<Table>)
    ensures r.Ok? <==> '0' in Keys(t)
    ensures r.Err? ==> r.error == MissingKey('0')
    ensures r.Ok? ==> |r.value| == |t| && Keys(r.value) == Keys(t)
    ensures r.Ok? ==> forall i :: 0 <= i < |t| && i != Find(t, '0') ==> r.value[i] == t[i]
    ensures r.Ok? ==> Lookup(r.value, '0') == Ok(Blend(z, Lookup(t, '0').value, rw0))
  {
    match Lookup(t, '0')
    case Err(e) => Err(e)
    case Ok(d0) =>
      var u := t[Find(t, '0') := ('0', Blend(z, d0, rw0))];
      assert Keys(u) == Keys(t);
      FindByKeys(u, t, '0');
      Ok(u)
  }

  /** Every key of `t` is among `keys`. */
  predicate KeysIn(t: Table, keys: seq<char>) {
    forall i :: 0 <= i < |t| ==> t[i].0 in keys
  }

  /**
   * The table the real-world branch produces: the keys of `realWorld` in
   * their order, each with the blend of the frequency `code` gives that
   * digit and its real-world value.
   */
  function Blended(realWorld: Table, code: Table, z: real): (r: Table)
    requires KeysIn(realWorld, Keys(code))
    ensures |r| == |realWorld| && Keys(r) == Keys(realWorld)
  {
    var r := seq(|realWorld|, i requires 0 <= i < |realWorld| =>
      (realWorld[i].0, Blend(z, Lookup(code, realWorld[i].0).value, realWorld[i].1)));
    assert Keys(r) == Keys(realWorld);
    r
  }

  /**
   * The real-world branch: every entry of `realWorld`, in order, becomes the
   * blend of the frequency `code` gives the same digit with its own; the
   * first key `code` lacks raises `KeyError`.
   */
  method BlendEach(realWorld: Table, code: Table, z: real) returns (r: Result<Table>)
    ensures r.Ok? <==> KeysIn(realWorld, Keys(code))
    ensures r.Err? ==> exists i :: (0 <= i < |realWorld| && r.error == MissingKey(realWorld[i].0) &&
      realWorld[i].0 !in Keys(code) && forall j :: 0 <= j < i ==> realWorld[j].0 in Keys(code))
    ensures r.Ok? ==> r.value == Blended(realWorld, code, z)
  {
    var u := realWorld;
    for i := 0 to |realWorld|
      invariant |u| == |realWorld|
      invariant forall j :: 0 <= j < i ==> realWorld[j].0 in Keys(code)
      invariant forall j :: 0 <= j < i ==>
        u[j] == (realWorld[j].0, Blend(z, Lookup(code, realWorld[j].0).value, realWorld[j].1))
      invariant forall j :: i <= j < |u| ==> u[j] == realWorld[j]
    {
      var d := u[i].0;
      var cf := Lookup(code, d);
      if cf.Err? {
        return Err(cf.error);
      }
      u := u[i := (d, Blend(z, cf.value, u[i].1))];
    }
    assert KeysIn(realWorld, Keys(code));
    assert u == Blended(realWorld, code, z);
    return Ok(u);
  }

  /**
   * The rescale of `LEFT_KEYS_POSITION_RATING`: the position ratings divided by one hundredth of their
   * sum, so that they add up to one hundred and keep their proportions.
   */
  function NormalizePositions(ratings: seq<real>): (r: Result<seq<real>>)
    ensures r.Ok? <==> |ratings| == 0 || Total(ratings) != 0.0
    ensures r.Err? ==> r.error == DivisionByZero
    ensures r.Ok? ==> |r.value| == |ratings|
    ensures r.Ok? && |ratings| > 0 ==> Total(r.value) == 100.0
    ensures r.Ok? ==> forall i :: 0 <= i < |ratings| ==> r.value[i] * Total(ratings) == ratings[i] * 100.0
  {
    var s := Total(ratings) / 100.0;
    if |ratings| == 0 then Ok([])
    else if s == 0.0 then Err(DivisionByZero)
    else
      DividedTotal(ratings, s);
      assert Total(ratings) / s == 100.0;
      Ok(Divided(ratings, s))
  }

  /**
   * The script's own position ratings: they normalise, and the middle finger
   * key keeps the highest rating and the pinky key the lowest.
   */
  lemma ScriptPositionRatings()
    ensures NormalizePositions(LeftKeysPositionRating).Ok?
    ensures var w := NormalizePositions(LeftKeysPositionRating).value;
      |w| == 5 && Total(w) == 100.0 && forall i :: 0 <= i < 5 ==> w[0] <= w[i] <= w[2]
  {
    var w := LeftKeysPositionRating;
    assert Total(w[..1]) == 0.55 by { assert w[..1][..0] == []; }
    assert Total(w[..2]) == 1.25 by { assert w[..2][..1] == w[..1]; }
    assert Total(w[..3]) == 2.25 by { assert w[..3][..2] == w[..2]; }
    assert Total(w[..4]) == 3.23 by { assert w[..4][..3] == w[..3]; }
    assert Total(w) == 4.03 by { assert w[..4] == w[..|w| - 1]; }
  }

  /**
   * The preparation of `digit_frequency`: the Zipf table, then either the
   * blend of every entry of the real-world table (`useRealWorldAverage`) or
   * the blend of '0' alone, then the rescale to a sum of one.  The real-world
   * branch fails with `KeyError` on a key that is not a digit and with
   * `ZeroDivisionError` when the blended values sum to zero.  With the blend
   * of '0' alone the result has one entry per digit, sums to one and still
   * falls strictly from '1' to '9'.
   */
  method PrepareFrequencies(useRealWorldAverage: bool, realWorld: Table) returns (r: Result<Table>)
    ensures r.Ok? && |r.value| > 0 ==> Total(Values(r.value)) == 1.0
    ensures !useRealWorldAverage ==> (
      var u := BlendZero(ZipfTable(), ZipfFactor, RealWorldZero);
      u.Ok? && Total(Values(u.value)) > 0.0 && r == Ok(Scaled(u.value, Total(Values(u.value)))))
    ensures !useRealWorldAverage ==> r.Ok? && Keys(r.value) == Digits
    ensures !useRealWorldAverage ==> forall n :: 1 < n < 10 ==> r.value[n - 1].1 > r.value[n].1 > 0.0
    ensures useRealWorldAverage && !KeysIn(realWorld, Digits) ==>
      r.Err? && r.error.MissingKey? && r.error.key !in Digits
    ensures useRealWorldAverage && KeysIn(realWorld, Digits) ==> (
      Keys(ZipfTable()) == Digits &&
      var u := Blended(realWorld, ZipfTable(), ZipfFactor);
      if |u| == 0 then r == Ok([])
      else if Total(Values(u)) == 0.0 then r == Err(DivisionByZero)
      else r == Ok(Scaled(u, Total(Values(u)))))
  {
    var zipf := ZipfTable();
    ZipfWeights();
    var blended: Result<Table>;
    if useRealWorldAverage {
      blended := BlendEach(realWorld, zipf, ZipfFactor);
    } else {
      assert Keys(zipf)[0] == '0';
      blended := BlendZero(zipf, ZipfFactor, RealWorldZero);
    }
    if blended.Err? {
      return Err(blended.error);
    }
    ghost var positive := !useRealWorldAverage;
    if positive {
      ZipfFalling();
      BlendedZipfPositive(blended.value);
    }
    r := Normalize(blended.value);
    if positive {
      ScaledValues(blended.value, Total(Values(blended.value)));
      forall n | 1 < n < 10
        ensures r.value[n - 1].1 > r.value[n].1 > 0.0
      {
        PositiveQuotients(blended.value[n - 1].1, blended.value[n].1, Total(Values(blended.value)));
      }
    }
  }

  lemma BlendedZipfPositive(u: Table)
    requires Keys(ZipfTable()) == Digits
    requires forall n :: 0 < n < 10 ==> ZipfTable()[n - 1].1 > ZipfTable()[n].1 > 0.0
    requires BlendZero(ZipfTable(), ZipfFactor, RealWorldZero) == Ok(u)
    ensures |u| == 10 && Keys(u) == Digits
    ensures forall n :: 0 <= n < 10 ==> u[n].1 > 0.0
    ensures forall n :: 1 < n < 10 ==> u[n - 1].1 > u[n].1
    ensures Total(Values(u)) > 0.0
  {
    var z := ZipfTable();
    assert Find(z, '0') == 0;
    assert u[0].1 == Blend(ZipfFactor, 1.0, RealWorldZero);
    TotalNonNegative(Values(u)[..9]);
    assert Values(u)[..10][..9] == Values(u)[..9];
    assert Values(u) == Values(u)[..10];
  }

  lemma PositiveQuotients(x: real, y: real, s: real)
    requires x > y > 0.0 && s > 0.0
    ensures x / s > y / s > 0.0
  {
  }
}
