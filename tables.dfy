/**
 * The dictionaries of the number-row scripts: digit characters mapped to
 * frequencies, ratios or counts.  A Python dictionary iterates its entries in
 * insertion order, so a table is the sequence of its (key, value) entries in
 * that order.  Floating-point values are exact reals here.
 */
module Tables {
  import opened Errors
  import Repeats

  /** `string.digits`: the ten digit characters, '0' to '9'. */
  const Digits: string := DigitRange()

  function DigitRange(): (s: string)
    ensures |s| == 10
  {
    seq(10, i requires 0 <= i < 10 => ('0' as int + i) as char)
  }

  lemma DigitsDistinct()
    ensures Repeats.Distinct(Digits)
    ensures forall i, j :: 0 <= i < j < |Digits| ==> Digits[i] != Digits[j]
  {
    Repeats.DistinctSlots(Digits);
  }

  type Table = seq<(char, real)>

  function Keys(t: Table): seq<char> {
    seq(|t|, i requires 0 <= i < |t| => t[i].0)
  }

  function Values(t: Table): seq<real> {
    seq(|t|, i requires 0 <= i < |t| => t[i].1)
  }

  /** The index of the first entry with key `k`, or `|t|` when there is none. */
  function Find(t: Table, k: char): (i: nat)
    ensures i <= |t|
    ensures i < |t| ==> t[i].0 == k
    ensures forall j :: 0 <= j < i ==> t[j].0 != k
  {
    if |t| == 0 then 0
    else if t[0].0 == k then 0
    else 1 + Find(t[1..], k)
  }

  /** Where a key is found depends on the keys alone. */
  lemma {:induction false} FindByKeys(t: Table, u: Table, k: char)
    requires Keys(t) == Keys(u)
    ensures Find(t, k) == Find(u, k)
    decreases |t|
  {
    assert |Keys(t)| == |Keys(u)|;
    if |t| > 0 {
      assert t[0].0 == Keys(t)[0] == Keys(u)[0] == u[0].0;
      assert Keys(t[1..]) == Keys(t)[1..] && Keys(u[1..]) == Keys(u)[1..];
      FindByKeys(t[1..], u[1..], k);
    }
  }

  /** `t[k]`, which raises `KeyError` for a missing key. */
  function Lookup(t: Table, k: char): (r: Result<real>)
    ensures r.Ok? <==> k in Keys(t)
    ensures r.Err? ==> r.error == MissingKey(k)
  {
    if Find(t, k) < |t| then
      assert Keys(t)[Find(t, k)] == k;
      Ok(t[Find(t, k)].1)
    else
      assert forall j :: 0 <= j < |t| ==> Keys(t)[j] != k;
      Err(MissingKey(k))
  }

  /** With distinct keys, the key of entry `i` is found at `i`. */
  lemma FindDistinct(t: Table, i: nat)
    requires i < |t|
    requires forall j, k :: 0 <= j < k < |t| ==> t[j].0 != t[k].0
    ensures Find(t, t[i].0) == i
    ensures Lookup(t, t[i].0) == Ok(t[i].1)
  {
  }

  /** `sum(xs)`, adding from the left. */
  function Total(xs: seq<real>): real {
    if |xs| == 0 then 0.0 else Total(xs[..|xs| - 1]) + xs[|xs| - 1]
  }

  /** Every element of `xs` divided by `s`. */
  function Divided(xs: seq<real>, s: real): seq<real>
    requires s != 0.0
  {
    seq(|xs|, i requires 0 <= i < |xs| => xs[i] / s)
  }

  /** Every value of `t` divided by `s`, keys and order kept. */
  function Scaled(t: Table, s: real): Table
    requires s != 0.0
  {
    seq(|t|, i requires 0 <= i < |t| => (t[i].0, t[i].1 / s))
  }

  /** Dividing every element by `s` divides the sum by `s`. */
  lemma {:induction false} DividedTotal(xs: seq<real>, s: real)
    requires s != 0.0
    ensures Total(Divided(xs, s)) == Total(xs) / s
    decreases |xs|
  {
    if |xs| > 0 {
      var m := |xs| - 1;
      assert Divided(xs, s)[..m] == Divided(xs[..m], s);
      DividedTotal(xs[..m], s);
    }
  }

  /** Dividing by the sum makes the elements sum to one. */
  lemma DividedByTotal(xs: seq<real>)
    requires Total(xs) != 0.0
    ensures Total(Divided(xs, Total(xs))) == 1.0
  {
    var s := Total(xs);
    DividedTotal(xs, s);
    assert s / s == 1.0;
  }

  lemma ScaledValues(t: Table, s: real)
    requires s != 0.0
    ensures Keys(Scaled(t, s)) == Keys(t)
    ensures Values(Scaled(t, s)) == Divided(Values(t), s)
  {
  }

  /** The sum of a sequence is the sum of its parts. */
  lemma {:induction false} TotalAppend(xs: seq<real>, ys: seq<real>)
    ensures Total(xs + ys) == Total(xs) + Total(ys)
    decreases |ys|
  {
    if |ys| > 0 {
      var m := |ys| - 1;
      assert (xs + ys)[..|xs| + m] == xs + ys[..m];
      assert (xs + ys)[|xs| + m] == ys[m];
      TotalAppend(xs, ys[..m]);
      assert Total(xs + ys) == Total(xs + ys[..m]) + ys[m];
    } else {
      assert xs + ys == xs;
    }
  }

  /** Replacing one element changes the sum by the difference. */
  lemma {:induction false} TotalUpdate(xs: seq<real>, i: nat, v: real)
    requires i < |xs|
    ensures Total(xs[i := v]) == Total(xs) - xs[i] + v
  {
    assert xs == xs[..i] + [xs[i]] + xs[i + 1..];
    assert xs[i := v] == xs[..i] + [v] + xs[i + 1..];
    TotalAppend(xs[..i] + [xs[i]], xs[i + 1..]);
    TotalAppend(xs[..i] + [v], xs[i + 1..]);
    TotalAppend(xs[..i], [xs[i]]);
    TotalAppend(xs[..i], [v]);
  }

  /** A sum of non-negative elements is at least each of them. */
  lemma {:induction false} TotalBounds(xs: seq<real>, i: nat)
    requires forall j :: 0 <= j < |xs| ==> xs[j] >= 0.0
    requires i < |xs|
    ensures 0.0 <= xs[i] <= Total(xs)
    decreases |xs|
  {
    var m := |xs| - 1;
    TotalNonNegative(xs[..m]);
    if i < m {
      TotalBounds(xs[..m], i);
    }
  }

  lemma {:induction false} TotalNonNegative(xs: seq<real>)
    requires forall j :: 0 <= j < |xs| ==> xs[j] >= 0.0
    ensures Total(xs) >= 0.0
    decreases |xs|
  {
    if |xs| > 0 {
      TotalNonNegative(xs[..|xs| - 1]);
    }
  }

  /**
   * Every value of a table divided by the sum of the values, entry by
   * entry; the first division by a zero sum raises `ZeroDivisionError`.
   */
  method Normalize(t: Table) returns (r: Result<Table>)
    ensures r.Err? <==> |t| > 0 && Total(Values(t)) == 0.0
    ensures r.Err? ==> r.error == DivisionByZero
    ensures r.Ok? && |t| == 0 ==> r.value == t
    ensures r.Ok? && |t| > 0 ==> r.value == Scaled(t, Total(Values(t))) && Total(Values(r.value)) == 1.0
  {
    var s := Total(Values(t));
    var u := t;
    for i := 0 to |t|
      invariant s == 0.0 ==> i == 0
      invariant |u| == |t|
      invariant forall j :: 0 <= j < i ==> u[j] == (t[j].0, t[j].1 / s)
      invariant forall j :: i <= j < |t| ==> u[j] == t[j]
    {
      if s == 0.0 {
        return Err(DivisionByZero);
      }
      u := u[i := (u[i].0, u[i].1 / s)];
    }
    if |t| > 0 {
      assert u == Scaled(t, s);
      ScaledValues(t, s);
      DividedByTotal(Values(t));
    } else {
      assert u == t;
    }
    return Ok(u);
  }
}
