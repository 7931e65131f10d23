/**
 * The digit frequencies of a text corpus, from the character counts of the
 * corpus: the ten digits ordered by count, each with its share of all digit
 * occurrences; and the average of those shares over several corpora,
 * rescaled to a total of one.
 */
module CorpusCount {
  import opened Errors
  import opened Tables
  import Repeats

  /** The number of occurrences of each character of a corpus. */
  type Counts = map<char, int>

  /** The index in `string.digits` of the first digit without a count, or 10. */
  function FirstMissing(counts: Counts, n: nat): (m: nat)
    requires n <= |Digits|
    ensures n <= m <= |Digits|
    ensures m < |Digits| ==> Digits[m] !in counts
    ensures forall i :: n <= i < m ==> Digits[i] in counts
    decreases |Digits| - n
  {
    if n == |Digits| || Digits[n] !in counts then n else FirstMissing(counts, n + 1)
  }

  predicate HasAllDigits(counts: Counts) {
    forall i :: 0 <= i < |Digits| ==> Digits[i] in counts
  }

  predicate Counted(counts: Counts, ds: seq<char>) {
    forall i :: 0 <= i < |ds| ==> ds[i] in counts
  }

  /** `counts[d]` for every `d` of `ds`, in order. */
  function CountValues(counts: Counts, ds: seq<char>): seq<real>
    requires Counted(counts, ds)
  {
    seq(|ds|, i requires 0 <= i < |ds| => counts[ds[i]] as real)
  }

  /** The number of digits in the corpus. */
  function DigitTotal(counts: Counts): real
    requires HasAllDigits(counts)
  {
    Total(CountValues(counts, Digits))
  }

  /** `x` comes before `y` when it has the lower count, or the same count and the lower code. */
  predicate Before(counts: Counts, x: char, y: char)
    requires x in counts && y in counts
  {
    counts[x] < counts[y] || (counts[x] == counts[y] && x < y)
  }

  /** Each element comes before the next. */
  predicate Ascending(counts: Counts, s: seq<char>)
    requires Counted(counts, s)
  {
    forall i :: 0 <= i < |s| - 1 ==> Before(counts, s[i], s[i + 1])
  }

  /** `x` inserted after every element whose count is at most its own. */
  function Insert(counts: Counts, x: char, s: seq<char>): (r: seq<char>)
    requires x in counts && Counted(counts, s)
    ensures |r| == |s| + 1 && multiset(r) == multiset(s) + multiset{x}
    ensures Counted(counts, r)
    ensures |s| > 0 ==> r[0] == x || r[0] == s[0]
  {
    if |s| == 0 then [x]
    else if counts[s[0]] > counts[x] then [x] + s
    else
      assert s == [s[0]] + s[1..];
      [s[0]] + Insert(counts, x, s[1..])
  }

  /**
   * `sorted(ds, key=lambda k: counts[k])`: Python's sort is stable, so the
   * result is what inserting the elements one by one, each after the equal
   * counts already placed, gives.
   */
  function SortByCount(counts: Counts, ds: seq<char>): (r: seq<char>)
    requires Counted(counts, ds)
    ensures |r| == |ds| && multiset(r) == multiset(ds) && Counted(counts, r)
  {
    if |ds| == 0 then []
    else
      var m := |ds| - 1;
      assert ds == ds[..m] + [ds[m]];
      Insert(counts, ds[m], SortByCount(counts, ds[..m]))
  }

  /** Inserting an element above every code already placed keeps the order. */
  lemma {:induction false} InsertAscending(counts: Counts, x: char, s: seq<char>)
    requires x in counts && Counted(counts, s) && Ascending(counts, s)
    requires forall i :: 0 <= i < |s| ==> s[i] < x
    ensures Ascending(counts, Insert(counts, x, s))
  {
    if |s| > 0 && counts[s[0]] <= counts[x] {
      InsertAscending(counts, x, s[1..]);
      var r := Insert(counts, x, s);
      assert r == [s[0]] + Insert(counts, x, s[1..]);
      if |s| > 1 {
        assert Before(counts, s[0], s[1]);
      }
      assert Before(counts, s[0], r[1]);
    }
  }

  /** Characters whose codes rise from each one to the next. */
  predicate CodesRise(ds: seq<char>) {
    forall i :: 0 <= i < |ds| - 1 ==> ds[i] < ds[i + 1]
  }

  lemma {:induction false} CodesRiseBelowLast(ds: seq<char>, i: nat)
    requires CodesRise(ds) && i < |ds| - 1
    ensures ds[i] < ds[|ds| - 1]
    decreases |ds| - i
  {
    if i + 1 < |ds| - 1 {
      CodesRiseBelowLast(ds, i + 1);
    }
  }

  /**
   * Sorting characters given in ascending code order (as `string.digits`
   * is) orders them by count, equal counts by code.
   */
  lemma {:induction false} SortAscending(counts: Counts, ds: seq<char>)
    requires Counted(counts, ds) && CodesRise(ds)
    ensures Ascending(counts, SortByCount(counts, ds))
    decreases |ds|
  {
    if |ds| > 0 {
      var m := |ds| - 1;
      var s := SortByCount(counts, ds[..m]);
      SortAscending(counts, ds[..m]);
      forall i | 0 <= i < |s|
        ensures s[i] < ds[m]
      {
        assert s[i] in multiset(ds[..m]);
        var j :| 0 <= j < m && ds[..m][j] == s[i];
        CodesRiseBelowLast(ds, j);
      }
      InsertAscending(counts, ds[m], s);
    }
  }

  /** Ascending from each element to the next means ascending between any two. */
  lemma {:induction false} AscendingPairs(counts: Counts, s: seq<char>, i: nat, j: nat)
    requires Counted(counts, s) && Ascending(counts, s)
    requires i < j < |s|
    ensures Before(counts, s[i], s[j])
    decreases j - i
  {
    if i + 1 < j {
      AscendingPairs(counts, s, i + 1, j);
      assert Before(counts, s[i], s[i + 1]);
    }
  }

  lemma DigitsAscending()
    ensures CodesRise(Digits)
  {
  }

  /** The digits in the order `get_digit_frequencies` lists them. */
  function Order(counts: Counts): seq<char>
    requires HasAllDigits(counts)
  {
    SortByCount(counts, Digits)
  }

  /** Each character of `order` with its count divided by the total of their counts. */
  function RatioTable(counts: Counts, order: seq<char>): Table
    requires Counted(counts, order) && Total(CountValues(counts, order)) != 0.0
  {
    var cs := CountValues(counts, order);
    seq(|order|, i requires 0 <= i < |order| => (order[i], cs[i] / Total(cs)))
  }

  /** The table lists the characters of `order` in order. */
  lemma RatioTableKeys(counts: Counts, order: seq<char>)
    requires Counted(counts, order) && Total(CountValues(counts, order)) != 0.0
    ensures var t := RatioTable(counts, order);
      |t| == |order| && forall i :: 0 <= i < |t| ==> t[i].0 == order[i]
  {
  }

  /** The shares add up to one. */
  lemma RatioTableTotal(counts: Counts, order: seq<char>)
    requires Counted(counts, order) && Total(CountValues(counts, order)) != 0.0
    ensures Total(Values(RatioTable(counts, order))) == 1.0
  {
    var cs := CountValues(counts, order);
    assert Values(RatioTable(counts, order)) == Divided(cs, Total(cs));
    DividedByTotal(cs);
  }

  /** With distinct characters, looking one up gives its share. */
  lemma RatioTableLookup(counts: Counts, order: seq<char>, k: nat)
    requires Counted(counts, order) && Total(CountValues(counts, order)) != 0.0
    requires forall i, j :: 0 <= i < j < |order| ==> order[i] != order[j]
    requires k < |order|
    ensures Lookup(RatioTable(counts, order), order[k]) ==
      Ok(counts[order[k]] as real / Total(CountValues(counts, order)))
  {
    FindDistinct(RatioTable(counts, order), k);
  }

  /**
   * `get_digit_frequencies` as a value: the first digit without a count
   * raises `KeyError`, a zero digit total raises `ZeroDivisionError`, and
   * otherwise the digits ordered by count, each with its count divided by the
   * total.
   */
  function DigitRatios(counts: Counts): (r: Result<Table>)
    ensures r.Err? <==> !HasAllDigits(counts) || DigitTotal(counts) == 0.0
    ensures r.Err? && !HasAllDigits(counts) ==> r.error == MissingKey(Digits[FirstMissing(counts, 0)])
    ensures r.Err? && HasAllDigits(counts) ==> r.error == DivisionByZero
  {
    var m := FirstMissing(counts, 0);
    if m < |Digits| then Err(MissingKey(Digits[m]))
    else
      var order := Order(counts);
      OrderTotal(counts);
      if Total(CountValues(counts, order)) == 0.0 then Err(DivisionByZero)
      else Ok(RatioTable(counts, order))
  }

  /** The corpus has every digit, and at least one digit occurrence in all. */
  predicate Usable(counts: Counts) {
    HasAllDigits(counts) && DigitTotal(counts) != 0.0
  }

  /** The share of the digit at index `n` of `string.digits` among all digits of the corpus. */
  function Share(counts: Counts, n: nat): real
    requires Usable(counts) && n < |Digits|
  {
    counts[Digits[n]] as real / DigitTotal(counts)
  }

  /** The sorted digits are the ten digits, each once. */
  lemma OrderDistinct(counts: Counts)
    requires HasAllDigits(counts)
    ensures var order := Order(counts);
      |order| == |Digits| && multiset(order) == multiset(Digits) &&
      forall i, j :: 0 <= i < j < |order| ==> order[i] != order[j]
  {
    var order := Order(counts);
    DigitsDistinct();
    Repeats.MultisetArrangement(order, Digits);
    Repeats.DistinctSlots(order);
  }

  /** Each digit is among the sorted digits. */
  lemma OrderHasDigit(counts: Counts, n: nat)
    requires HasAllDigits(counts) && n < |Digits|
    ensures Digits[n] in Order(counts)
  {
    assert Digits[n] in multiset(Order(counts));
  }

  /** Adding the counts in sorted order gives the digit total. */
  lemma OrderTotal(counts: Counts)
    requires HasAllDigits(counts)
    ensures Total(CountValues(counts, Order(counts))) == DigitTotal(counts)
  {
    CountsPermutation(counts, Order(counts), Digits);
  }

  lemma CountValuesAppend(counts: Counts, xs: seq<char>, ys: seq<char>)
    requires Counted(counts, xs) && Counted(counts, ys)
    ensures CountValues(counts, xs + ys) == CountValues(counts, xs) + CountValues(counts, ys)
  {
  }

  /** The total of the counts of `xs + [x] + ys` is that of `xs + ys` plus the count of `x`. */
  lemma CountsSplit(counts: Counts, xs: seq<char>, x: char, ys: seq<char>)
    requires Counted(counts, xs) && x in counts && Counted(counts, ys)
    ensures Total(CountValues(counts, xs + [x] + ys)) == Total(CountValues(counts, xs + ys)) + counts[x] as real
  {
    var a, b := CountValues(counts, xs), CountValues(counts, ys);
    var c: seq<real> := [counts[x] as real];
    CountValuesAppend(counts, xs + [x], ys);
    CountValuesAppend(counts, xs, [x]);
    CountValuesAppend(counts, xs, ys);
    assert CountValues(counts, [x]) == c;
    TotalAppend(a + c, b);
    TotalAppend(a, c);
    TotalAppend(a, b);
    assert Total(c) == counts[x] as real by {
      assert c[..0] == [];
    }
  }

  /** Taking the last element of `xs` and the same element at `k` out of `ys` keeps the multisets equal. */
  lemma RemoveMatching(xs: seq<char>, ys: seq<char>, k: nat)
    requires multiset(xs) == multiset(ys) && |xs| > 0 && k < |ys| && ys[k] == xs[|xs| - 1]
    ensures multiset(xs[..|xs| - 1]) == multiset(ys[..k] + ys[k + 1..])
  {
    var m, x := |xs| - 1, xs[|xs| - 1];
    assert ys == ys[..k] + [x] + ys[k + 1..];
    assert xs == xs[..m] + [x];
    assert multiset(xs[..m]) == multiset(xs) - multiset{x};
    assert multiset(ys[..k] + ys[k + 1..]) == multiset(ys) - multiset{x};
  }

  /** The total of the counts does not depend on the order they are added in. */
  lemma {:induction false} CountsPermutation(counts: Counts, xs: seq<char>, ys: seq<char>)
    requires Counted(counts, xs) && Counted(counts, ys) && multiset(xs) == multiset(ys)
    ensures Total(CountValues(counts, xs)) == Total(CountValues(counts, ys))
    decreases |xs|
  {
    if |xs| > 0 {
      var m := |xs| - 1;
      var x := xs[m];
      assert x in multiset(ys);
      var k :| 0 <= k < |ys| && ys[k] == x;
      RemoveMatching(xs, ys, k);
      CountsPermutation(counts, xs[..m], ys[..k] + ys[k + 1..]);
      assert CountValues(counts, xs)[..m] == CountValues(counts, xs[..m]);
      assert ys == ys[..k] + [x] + ys[k + 1..];
      CountsSplit(counts, ys[..k], x, ys[k + 1..]);
    }
  }

  /** A usable corpus yields the table of its digits in sorted order. */
  lemma DigitRatiosValue(counts: Counts)
    requires Usable(counts)
    ensures Total(CountValues(counts, Order(counts))) == DigitTotal(counts) &&
      DigitRatios(counts) == Ok(RatioTable(counts, Order(counts)))
  {
    OrderTotal(counts);
  }

  /**
   * The keys of the table `get_digit_frequencies` returns are the ten
   * digits, each once.
   */
  lemma DigitRatiosKeys(counts: Counts)
    requires DigitRatios(counts).Ok?
    ensures var t := DigitRatios(counts).value;
      multiset(Keys(t)) == multiset(Digits) &&
      forall i, j :: 0 <= i < j < |t| ==> t[i].0 != t[j].0
  {
    var order := Order(counts);
    DigitRatiosValue(counts);
    OrderDistinct(counts);
    RatioTableKeys(counts, order);
    assert Keys(RatioTable(counts, order)) == order;
  }

  /**
   * Looking a digit up in the table `get_digit_frequencies` returns gives its
   * share of all digits, and the shares add up to one.
   */
  lemma DigitRatiosShares(counts: Counts)
    requires DigitRatios(counts).Ok?
    ensures Usable(counts)
    ensures var t := DigitRatios(counts).value;
      (forall n :: 0 <= n < |Digits| ==> Lookup(t, Digits[n]) == Ok(Share(counts, n))) &&
      Total(Values(t)) == 1.0
  {
    var order := Order(counts);
    DigitRatiosValue(counts);
    OrderDistinct(counts);
    RatioTableTotal(counts, order);
    forall n | 0 <= n < |Digits|
      ensures Lookup(RatioTable(counts, order), Digits[n]) == Ok(Share(counts, n))
    {
      OrderHasDigit(counts, n);
      RatioTableLookup(counts, order, Repeats.IndexOf(order, Digits[n]));
    }
  }

  /**
   * The entries come in ascending order of count, equal counts in digit
   * order.
   */
  lemma DigitRatiosOrder(counts: Counts)
    requires DigitRatios(counts).Ok?
    ensures var t := DigitRatios(counts).value;
      forall i, j :: 0 <= i < j < |t| ==> t[i].0 in counts && t[j].0 in counts && Before(counts, t[i].0, t[j].0)
  {
    var order := Order(counts);
    DigitRatiosValue(counts);
    RatioTableKeys(counts, order);
    var t := RatioTable(counts, order);
    DigitsAscending();
    SortAscending(counts, Digits);
    forall i, j | 0 <= i < j < |t|
      ensures t[i].0 in counts && t[j].0 in counts && Before(counts, t[i].0, t[j].0)
    {
      AscendingPairs(counts, order, i, j);
    }
  }

  /**
   * For counts that are not negative every share lies between zero and one,
   * and the shares ascend through the table.
   */
  lemma DigitRatiosBounds(counts: Counts)
    requires DigitRatios(counts).Ok?
    requires forall d :: d in counts ==> counts[d] >= 0
    ensures var t := DigitRatios(counts).value;
      (forall i :: 0 <= i < |t| ==> 0.0 <= t[i].1 <= 1.0) &&
      (forall i, j :: 0 <= i < j < |t| ==> t[i].1 <= t[j].1)
  {
    DigitRatiosValue(counts);
    DigitsAscending();
    SortAscending(counts, Digits);
    RatioTableBounds(counts, Order(counts));
  }

  lemma RatioTableBounds(counts: Counts, order: seq<char>)
    requires Counted(counts, order) && Total(CountValues(counts, order)) != 0.0
    requires Ascending(counts, order)
    requires forall d :: d in counts ==> counts[d] >= 0
    ensures var t := RatioTable(counts, order);
      (forall i :: 0 <= i < |t| ==> 0.0 <= t[i].1 <= 1.0) &&
      (forall i, j :: 0 <= i < j < |t| ==> t[i].1 <= t[j].1)
  {
    var cs := CountValues(counts, order);
    var t := RatioTable(counts, order);
    assert forall i :: 0 <= i < |cs| ==> cs[i] >= 0.0;
    forall i | 0 <= i < |t|
      ensures 0.0 <= t[i].1 <= 1.0
    {
      TotalBounds(cs, i);
      ShareBounds(cs[i], Total(cs));
    }
    forall i, j | 0 <= i < j < |t|
      ensures t[i].1 <= t[j].1
    {
      AscendingPairs(counts, order, i, j);
      TotalBounds(cs, i);
      ShareMonotone(cs[i], cs[j], Total(cs));
    }
  }

  lemma ShareBounds(x: real, s: real)
    requires 0.0 <= x <= s && s != 0.0
    ensures 0.0 <= x / s <= 1.0
  {
  }

  lemma ShareMonotone(x: real, y: real, s: real)
    requires x <= y && 0.0 <= x && 0.0 < s
    ensures x / s <= y / s
  {
  }

  /**
   * The first loop of `get_digit_frequencies`: a table of the count of each
   * character of `order`, in that order.
   */
  method CountsInOrder(counts: Counts, order: seq<char>) returns (frequencies: Table)
    requires Counted(counts, order)
    ensures Keys(frequencies) == order && Values(frequencies) == CountValues(counts, order)
  {
    frequencies := [];
    for i := 0 to |order|
      invariant |frequencies| == i
      invariant forall k :: 0 <= k < i ==> frequencies[k] == (order[k], counts[order[k]] as real)
    {
      frequencies := frequencies + [(order[i], counts[order[i]] as real)];
    }
  }

  /** Dividing the table of counts by its total gives the table of shares. */
  lemma ScaledCounts(counts: Counts, order: seq<char>, frequencies: Table)
    requires Counted(counts, order) && Total(CountValues(counts, order)) != 0.0
    requires Keys(frequencies) == order && Values(frequencies) == CountValues(counts, order)
    ensures Scaled(frequencies, Total(Values(frequencies))) == RatioTable(counts, order)
  {
    assert |frequencies| == |Keys(frequencies)|;
    forall i | 0 <= i < |frequencies|
      ensures frequencies[i] == (order[i], CountValues(counts, order)[i])
    {
      assert Keys(frequencies)[i] == frequencies[i].0;
      assert Values(frequencies)[i] == frequencies[i].1;
    }
  }

  /**
   * `get_digit_frequencies`: the digits sorted by count into a table of
   * their counts, then a table of each count divided by the total.
   */
  method GetDigitFrequencies(counts: Counts) returns (r: Result<Table>)
    ensures r == DigitRatios(counts)
  {
    var m := FirstMissing(counts, 0);
    if m < |Digits| {
      return Err(MissingKey(Digits[m]));
    }
    var order := SortByCount(counts, Digits);
    var frequencies := CountsInOrder(counts, order);
    r := Normalize(frequencies);
    OrderTotal(counts);
    if r.Ok? {
      ScaledCounts(counts, order, frequencies);
    }
  }

  /** Every corpus before index `k` yields its digit shares. */
  predicate UsableUpTo(corpora: seq<Counts>, k: nat)
    requires k <= |corpora|
  {
    forall j :: 0 <= j < k ==> Usable(corpora[j])
  }

  /** The sum over the first `k` corpora of the share of the digit at index `n`. */
  function ShareSum(corpora: seq<Counts>, k: nat, n: nat): real
    requires k <= |corpora| && UsableUpTo(corpora, k) && n < |Digits|
  {
    if k == 0 then 0.0 else ShareSum(corpora, k - 1, n) + Share(corpora[k - 1], n)
  }

  /**
   * The inner loop of the averaging: the value `shares` gives each digit
   * added to the digit's running sum in `avg`; a digit `shares` lacks raises
   * `KeyError`.
   */
  method AddShares(avg: Table, shares: Table) returns (r: Result<Table>)
    requires Keys(avg) == Digits
    ensures r.Ok? <==> forall n :: 0 <= n < |Digits| ==> Digits[n] in Keys(shares)
    ensures r.Err? ==> exists n :: (0 <= n < |Digits| && r.error == MissingKey(Digits[n]) &&
      Digits[n] !in Keys(shares) && forall i :: 0 <= i < n ==> Digits[i] in Keys(shares))
    ensures r.Ok? ==> Keys(r.value) == Digits
    ensures r.Ok? ==> forall n :: 0 <= n < |Digits| ==> r.value[n].1 == avg[n].1 + Lookup(shares, Digits[n]).value
  {
    var sums := avg;
    assert |avg| == |Keys(avg)|;
    for n := 0 to |Digits|
      invariant |sums| == |Digits| && Keys(sums) == Digits
      invariant forall i :: 0 <= i < n ==> Digits[i] in Keys(shares)
      invariant forall i :: 0 <= i < n ==> sums[i].1 == avg[i].1 + Lookup(shares, Digits[i]).value
      invariant forall i :: n <= i < |Digits| ==> sums[i] == avg[i]
    {
      var share := Lookup(shares, Digits[n]);
      if share.Err? {
        return Err(share.error);
      }
      sums := sums[n := (Digits[n], sums[n].1 + share.value)];
    }
    return Ok(sums);
  }

  /**
   * One pass of the averaging loop over the corpora: the shares of one
   * corpus added to the running sums.  A corpus without shares raises what
   * `get_digit_frequencies` raises; otherwise the sums grow by the shares,
   * and their total by one.
   */
  method AddCorpus(avg: Table, counts: Counts) returns (r: Result<Table>)
    requires Keys(avg) == Digits
    ensures r.Err? <==> !Usable(counts)
    ensures r.Err? ==> DigitRatios(counts) == Err(r.error)
    ensures r.Ok? ==> Keys(r.value) == Digits
    ensures r.Ok? ==> forall n :: 0 <= n < |Digits| ==> r.value[n].1 == avg[n].1 + Share(counts, n)
    ensures r.Ok? ==> Total(Values(r.value)) == Total(Values(avg)) + 1.0
  {
    var freqMap := GetDigitFrequencies(counts);
    if freqMap.Err? {
      return freqMap;
    }
    DigitRatiosShares(counts);
    r := AddShares(avg, freqMap.value);
    assert r.Ok?;
    SharesTotal(counts, Values(avg), Values(r.value));
  }

  /**
   * The averaging over the corpora: the shares of every digit summed over the corpora, then
   * every sum divided by the sum of all of them.  The first corpus whose
   * shares cannot be computed raises its exception, and with no corpus the
   * division raises `ZeroDivisionError`.  Otherwise each digit gets the mean
   * of its shares over the corpora, and the means add up to one.
   */
  method AverageAcrossCorpora(corpora: seq<Counts>) returns (r: Result<Table>)
    ensures r.Err? <==> |corpora| == 0 || !UsableUpTo(corpora, |corpora|)
    ensures r.Err? && |corpora| > 0 ==> (exists k :: (0 <= k < |corpora| && UsableUpTo(corpora, k) &&
      DigitRatios(corpora[k]) == Err(r.error)))
    ensures r.Err? && UsableUpTo(corpora, |corpora|) ==> r.error == DivisionByZero
    ensures r.Ok? ==> Keys(r.value) == Digits && Total(Values(r.value)) == 1.0
    ensures r.Ok? ==> forall n :: 0 <= n < |Digits| ==>
      r.value[n].1 == ShareSum(corpora, |corpora|, n) / |corpora| as real
  {
    var avg: Table := seq(|Digits|, n requires 0 <= n < |Digits| => (Digits[n], 0.0));
    TotalZeros(Values(avg));
    for k := 0 to |corpora|
      invariant UsableUpTo(corpora, k)
      invariant Keys(avg) == Digits
      invariant forall n :: 0 <= n < |Digits| ==> avg[n].1 == ShareSum(corpora, k, n)
      invariant Total(Values(avg)) == k as real
    {
      var added := AddCorpus(avg, corpora[k]);
      if added.Err? {
        return added;
      }
      SumsStep(corpora, k, avg, added.value);
      avg := added.value;
    }
    r := Normalize(avg);
    if r.Ok? {
      MeanOfSums(corpora, avg, r.value);
    }
  }

  /** One more corpus in the running sums: the sums now run over `k + 1` corpora. */
  lemma SumsStep(corpora: seq<Counts>, k: nat, avg: Table, next: Table)
    requires k < |corpora| && UsableUpTo(corpora, k) && Usable(corpora[k])
    requires |avg| == |next| == |Digits|
    requires forall n :: 0 <= n < |Digits| ==> avg[n].1 == ShareSum(corpora, k, n)
    requires forall n :: 0 <= n < |Digits| ==> next[n].1 == avg[n].1 + Share(corpora[k], n)
    ensures UsableUpTo(corpora, k + 1)
    ensures forall n :: 0 <= n < |Digits| ==> next[n].1 == ShareSum(corpora, k + 1, n)
  {
  }

  /** Dividing the sums over all corpora by their total, the number of corpora, gives the means. */
  lemma MeanOfSums(corpora: seq<Counts>, avg: Table, mean: Table)
    requires |corpora| > 0 && UsableUpTo(corpora, |corpora|)
    requires |avg| == |Digits| && Total(Values(avg)) == |corpora| as real
    requires forall n :: 0 <= n < |Digits| ==> avg[n].1 == ShareSum(corpora, |corpora|, n)
    requires mean == Scaled(avg, Total(Values(avg)))
    ensures Keys(mean) == Keys(avg)
    ensures forall n :: 0 <= n < |Digits| ==> mean[n].1 == ShareSum(corpora, |corpora|, n) / |corpora| as real
  {
    ScaledValues(avg, Total(Values(avg)));
  }

  /** Adding one corpus's shares adds one to the total of the sums. */
  lemma SharesTotal(counts: Counts, before: seq<real>, after: seq<real>)
    requires Usable(counts)
    requires |before| == |after| == |Digits|
    requires forall n :: 0 <= n < |Digits| ==> after[n] == before[n] + Share(counts, n)
    ensures Total(after) == Total(before) + 1.0
  {
    var shares := seq(|Digits|, n requires 0 <= n < |Digits| => Share(counts, n));
    TotalSum(before, shares, after);
    assert shares == Divided(CountValues(counts, Digits), DigitTotal(counts));
    DividedByTotal(CountValues(counts, Digits));
  }

  lemma TotalZeros(xs: seq<real>)
    requires forall i :: 0 <= i < |xs| ==> xs[i] == 0.0
    ensures Total(xs) == 0.0
  {
    TotalSum(xs, xs, xs);
  }

  /** The sum of pointwise sums is the sum of the two sums. */
  lemma {:induction false} TotalSum(xs: seq<real>, ys: seq<real>, zs: seq<real>)
    requires |xs| == |ys| == |zs|
    requires forall i :: 0 <= i < |zs| ==> zs[i] == xs[i] + ys[i]
    ensures Total(zs) == Total(xs) + Total(ys)
    decreases |zs|
  {
    if |zs| > 0 {
      var m := |zs| - 1;
      TotalSum(xs[..m], ys[..m], zs[..m]);
    }
  }
}
