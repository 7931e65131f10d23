/**
 * The documented examples of `count_swaps` against the number row
 * "12345 67890", proved for the distance that `CountSwaps` returns.
 *
 * Each example is given by the home slot of every character of the
 * arrangement and by the run of the swap loop on those home slots: the slot
 * `n` each exchange resolves and the slot permutation it leaves.  The
 * generic lemmas below turn such a run, checked entry by entry, into the
 * distance.
 */
module SwapExamples {
  import opened Permutations
  import opened Swaps
  import opened Repeats

  /**
   * From slot `i` on, `a` holds the character of `t` at slot `p[i]`, and `q`
   * sends `p[i]` back to `i`.
   */
  predicate HomesFrom(a: string, t: string, p: seq<nat>, q: seq<nat>, i: nat)
    decreases |a| - i
  {
    i >= |a| || (i < |p| && p[i] < |t| && p[i] < |q| && a[i] == t[p[i]] && q[p[i]] == i && HomesFrom(a, t, p, q, i + 1))
  }

  lemma {:induction false} HomesFromAll(a: string, t: string, p: seq<nat>, q: seq<nat>, i: nat)
    requires HomesFrom(a, t, p, q, i) && |p| == |a|
    ensures forall k :: i <= k < |a| ==> p[k] < |t| && p[k] < |q| && a[k] == t[p[k]] && q[p[k]] == k
    decreases |a| - i
  {
    if i < |a| {
      HomesFromAll(a, t, p, q, i + 1);
    }
  }

  /** `a` and `b` agree from slot `i` on. */
  predicate AgreeFrom(a: seq<nat>, b: seq<nat>, i: nat)
    decreases |a| - i
  {
    i >= |a| || (i < |b| && a[i] == b[i] && AgreeFrom(a, b, i + 1))
  }

  lemma {:induction false} AgreeFromAll(a: seq<nat>, b: seq<nat>, i: nat)
    requires AgreeFrom(a, b, i) && |a| == |b| && i <= |a|
    ensures a[i..] == b[i..]
    decreases |a| - i
  {
    if i < |a| {
      AgreeFromAll(a, b, i + 1);
      assert a[i..] == [a[i]] + a[i + 1..];
      assert b[i..] == [b[i]] + b[i + 1..];
    }
  }

  /** `p` leaves every slot from `i` on in place. */
  predicate IdentityFrom(p: seq<nat>, i: nat)
    decreases |p| - i
  {
    i >= |p| || (p[i] == i && IdentityFrom(p, i + 1))
  }

  lemma {:induction false} IdentityFromAll(p: seq<nat>, i: nat)
    requires IdentityFrom(p, i)
    ensures forall k :: i <= k < |p| ==> p[k] == k
    decreases |p| - i
  {
    if i < |p| {
      IdentityFromAll(p, i + 1);
    }
  }

  /**
   * `steps` is a run of the swap loop on the slot permutation `p`, from its
   * `k`-th step on: each step names the misplaced slot it resolves and the
   * permutation that results, and the last permutation is the identity.
   */
  predicate Trace(p: seq<nat>, steps: seq<(nat, seq<nat>)>, k: nat)
    decreases |steps| - k
  {
    if k >= |steps| then IdentityFrom(p, 0)
    else
      var n := steps[k].0;
      var r := steps[k].1;
      n < |p| && p[n] < |p| && p[n] != n && |r| == |p| && AgreeFrom(r, Resolve(p, n), 0) && Trace(r, steps, k + 1)
  }

  /** Every step of a run adds one cycle, and the identity has one per slot. */
  lemma {:induction false} CyclesByTrace(p: seq<nat>, steps: seq<(nat, seq<nat>)>, k: nat)
    requires IsPermutation(p) && Trace(p, steps, k) && k <= |steps|
    ensures Cycles(p) + |steps| - k == |p|
    decreases |steps| - k
  {
    if k < |steps| {
      var n := steps[k].0;
      var r := steps[k].1;
      AgreeFromAll(r, Resolve(p, n), 0);
      assert r == r[0..] && Resolve(p, n) == Resolve(p, n)[0..];
      ResolveIsPermutation(p, n);
      ResolveAddsCycle(p, n);
      CyclesByTrace(r, steps, k + 1);
    } else {
      IdentityFromAll(p, 0);
      CyclesOfIdentity(p);
    }
  }

  /** Home slots given slot by slot, with an inverse, make `a` an arrangement of `t`. */
  lemma ArrangementFromHomes(a: string, t: string, p: seq<nat>, q: seq<nat>)
    requires Distinct(t) && |a| == |p| == |q| == |t|
    requires HomesFrom(a, t, p, q, 0)
    ensures IsArrangementOf(a, t) && IsPermutation(p) && SwapDistance(a, t) == |t| - Cycles(p)
  {
    HomesFromAll(a, t, p, q, 0);
    forall i, j | 0 <= i < j < |a| ensures a[i] != a[j] {
      if p[i] != p[j] {
        DistinctAt(t, p[i], p[j]);
      }
    }
    SlotsDistinct(a);
    forall i | 0 <= i < |a| ensures a[i] in t {
      assert a[i] == t[p[i]];
    }
    PositionsAt(a, t);
    forall i | 0 <= i < |a| ensures Positions(a, t)[i] == p[i] {
      IndexOfDistinct(t, p[i]);
    }
    PositionsArePermutation(a, t);
    assert Positions(a, t) == p;
  }

  /** The distance of an arrangement is the number of steps of a run on its home slots. */
  lemma DistanceByTrace(a: string, t: string, p: seq<nat>, q: seq<nat>, steps: seq<(nat, seq<nat>)>)
    requires Distinct(t) && |a| == |p| == |q| == |t|
    requires HomesFrom(a, t, p, q, 0) && Trace(p, steps, 0)
    ensures IsArrangementOf(a, t) && SwapDistance(a, t) == |steps|
  {
    ArrangementFromHomes(a, t, p, q);
    CyclesByTrace(p, steps, 0);
  }

  // `count_swaps` of the documented arrangements against "12345 67890".  For
  // each one: the home slot of every key and the inverse of that map, the run
  // of the swap loop on the home slots, and the count that results.

  lemma CountSwapsOfCurrent()
    ensures IsArrangementOf(Current, Current) && SwapDistance(Current, Current) == 0
  {
    CurrentDistinct();
    DistanceToSelf(Current);
  }

  /** "54321 67890": the left half reversed. */
  const ReversedLeftHomes: seq<nat> := [4, 3, 2, 1, 0, 5, 6, 7, 8, 9, 10]
  const ReversedLeftBack: seq<nat> := [4, 3, 2, 1, 0, 5, 6, 7, 8, 9, 10]
  const ReversedLeftRun: seq<(nat, seq<nat>)> :=
    [(0, [0, 3, 2, 1, 4, 5, 6, 7, 8, 9, 10]),
     (1, [0, 1, 2, 3, 4, 5, 6, 7, 8, 9, 10])]

  lemma ReversedLeftChecked()
    ensures HomesFrom("54321 67890", Current, ReversedLeftHomes, ReversedLeftBack, 0)
  {
  }

  lemma ReversedLeftRunChecked()
    ensures Trace(ReversedLeftHomes, ReversedLeftRun, 0)
  {
  }

  lemma CountSwapsOfReversedLeft()
    ensures IsArrangementOf("54321 67890", Current) && SwapDistance("54321 67890", Current) == 2
  {
    CurrentDistinct();
    ReversedLeftChecked();
    ReversedLeftRunChecked();
    DistanceByTrace("54321 67890", Current, ReversedLeftHomes, ReversedLeftBack, ReversedLeftRun);
  }

  /** "67890 12345": the two halves exchanged. */
  const SwappedHalvesHomes: seq<nat> := [6, 7, 8, 9, 10, 5, 0, 1, 2, 3, 4]
  const SwappedHalvesBack: seq<nat> := [6, 7, 8, 9, 10, 5, 0, 1, 2, 3, 4]
  const SwappedHalvesRun: seq<(nat, seq<nat>)> :=
    [(0, [0, 7, 8, 9, 10, 5, 6, 1, 2, 3, 4]),
     (1, [0, 1, 8, 9, 10, 5, 6, 7, 2, 3, 4]),
     (2, [0, 1, 2, 9, 10, 5, 6, 7, 8, 3, 4]),
     (3, [0, 1, 2, 3, 10, 5, 6, 7, 8, 9, 4]),
     (4, [0, 1, 2, 3, 4, 5, 6, 7, 8, 9, 10])]

  lemma SwappedHalvesChecked()
    ensures HomesFrom("67890 12345", Current, SwappedHalvesHomes, SwappedHalvesBack, 0)
  {
  }

  lemma SwappedHalvesRunChecked()
    ensures Trace(SwappedHalvesHomes, SwappedHalvesRun, 0)
  {
    assert Trace(SwappedHalvesRun[2].1, SwappedHalvesRun, 3);
  }

  lemma CountSwapsOfSwappedHalves()
    ensures IsArrangementOf("67890 12345", Current) && SwapDistance("67890 12345", Current) == 5
  {
    CurrentDistinct();
    SwappedHalvesChecked();
    SwappedHalvesRunChecked();
    DistanceByTrace("67890 12345", Current, SwappedHalvesHomes, SwappedHalvesBack, SwappedHalvesRun);
  }

  /** "42315 60897": 1 with 4, and 7 with 0. */
  const TwoPairsHomes: seq<nat> := [3, 1, 2, 0, 4, 5, 6, 10, 8, 9, 7]
  const TwoPairsBack: seq<nat> := [3, 1, 2, 0, 4, 5, 6, 10, 8, 9, 7]
  const TwoPairsRun: seq<(nat, seq<nat>)> :=
    [(0, [0, 1, 2, 3, 4, 5, 6, 10, 8, 9, 7]),
     (7, [0, 1, 2, 3, 4, 5, 6, 7, 8, 9, 10])]

  lemma TwoPairsChecked()
    ensures HomesFrom("42315 60897", Current, TwoPairsHomes, TwoPairsBack, 0)
  {
  }

  lemma TwoPairsRunChecked()
    ensures Trace(TwoPairsHomes, TwoPairsRun, 0)
  {
  }

  lemma CountSwapsOfTwoPairs()
    ensures IsArrangementOf("42315 60897", Current) && SwapDistance("42315 60897", Current) == 2
  {
    CurrentDistinct();
    TwoPairsChecked();
    TwoPairsRunChecked();
    DistanceByTrace("42315 60897", Current, TwoPairsHomes, TwoPairsBack, TwoPairsRun);
  }

  /** "12345 60897": 7 with 0. */
  const OnePairHomes: seq<nat> := [0, 1, 2, 3, 4, 5, 6, 10, 8, 9, 7]
  const OnePairBack: seq<nat> := [0, 1, 2, 3, 4, 5, 6, 10, 8, 9, 7]
  const OnePairRun: seq<(nat, seq<nat>)> :=
    [(7, [0, 1, 2, 3, 4, 5, 6, 7, 8, 9, 10])]

  lemma OnePairChecked()
    ensures HomesFrom("12345 60897", Current, OnePairHomes, OnePairBack, 0)
  {
  }

  lemma OnePairRunChecked()
    ensures Trace(OnePairHomes, OnePairRun, 0)
  {
  }

  lemma CountSwapsOfOnePair()
    ensures IsArrangementOf("12345 60897", Current) && SwapDistance("12345 60897", Current) == 1
  {
    CurrentDistinct();
    OnePairChecked();
    OnePairRunChecked();
    DistanceByTrace("12345 60897", Current, OnePairHomes, OnePairBack, OnePairRun);
  }

  /** "12345 60987": the last four keys reversed. */
  const ReversedTailHomes: seq<nat> := [0, 1, 2, 3, 4, 5, 6, 10, 9, 8, 7]
  const ReversedTailBack: seq<nat> := [0, 1, 2, 3, 4, 5, 6, 10, 9, 8, 7]
  const ReversedTailRun: seq<(nat, seq<nat>)> :=
    [(7, [0, 1, 2, 3, 4, 5, 6, 7, 9, 8, 10]),
     (8, [0, 1, 2, 3, 4, 5, 6, 7, 8, 9, 10])]

  lemma ReversedTailChecked()
    ensures HomesFrom("12345 60987", Current, ReversedTailHomes, ReversedTailBack, 0)
  {
  }

  lemma ReversedTailRunChecked()
    ensures Trace(ReversedTailHomes, ReversedTailRun, 0)
  {
  }

  lemma CountSwapsOfReversedTail()
    ensures IsArrangementOf("12345 60987", Current) && SwapDistance("12345 60987", Current) == 2
  {
    CurrentDistinct();
    ReversedTailChecked();
    ReversedTailRunChecked();
    DistanceByTrace("12345 60987", Current, ReversedTailHomes, ReversedTailBack, ReversedTailRun);
  }

  /** "23145 67890": the first three keys rotated. */
  const RotatedThreeHomes: seq<nat> := [1, 2, 0, 3, 4, 5, 6, 7, 8, 9, 10]
  const RotatedThreeBack: seq<nat> := [2, 0, 1, 3, 4, 5, 6, 7, 8, 9, 10]
  const RotatedThreeRun: seq<(nat, seq<nat>)> :=
    [(0, [2, 1, 0, 3, 4, 5, 6, 7, 8, 9, 10]),
     (0, [0, 1, 2, 3, 4, 5, 6, 7, 8, 9, 10])]

  lemma RotatedThreeChecked()
    ensures HomesFrom("23145 67890", Current, RotatedThreeHomes, RotatedThreeBack, 0)
  {
  }

  lemma RotatedThreeRunChecked()
    ensures Trace(RotatedThreeHomes, RotatedThreeRun, 0)
  {
  }

  lemma CountSwapsOfRotatedThree()
    ensures IsArrangementOf("23145 67890", Current) && SwapDistance("23145 67890", Current) == 2
  {
    CurrentDistinct();
    RotatedThreeChecked();
    RotatedThreeRunChecked();
    DistanceByTrace("23145 67890", Current, RotatedThreeHomes, RotatedThreeBack, RotatedThreeRun);
  }

  /** "82315 67094": 1 with 4, 0 with 8, 8 with 4. */
  const FourCycleHomes: seq<nat> := [8, 1, 2, 0, 4, 5, 6, 7, 10, 9, 3]
  const FourCycleBack: seq<nat> := [3, 1, 2, 10, 4, 5, 6, 7, 0, 9, 8]
  const FourCycleRun: seq<(nat, seq<nat>)> :=
    [(0, [10, 1, 2, 0, 4, 5, 6, 7, 8, 9, 3]),
     (0, [3, 1, 2, 0, 4, 5, 6, 7, 8, 9, 10]),
     (0, [0, 1, 2, 3, 4, 5, 6, 7, 8, 9, 10])]

  lemma FourCycleChecked()
    ensures HomesFrom("82315 67094", Current, FourCycleHomes, FourCycleBack, 0)
  {
  }

  lemma FourCycleRunChecked()
    ensures Trace(FourCycleHomes, FourCycleRun, 0)
  {
  }

  lemma CountSwapsOfFourCycle()
    ensures IsArrangementOf("82315 67094", Current) && SwapDistance("82315 67094", Current) == 3
  {
    CurrentDistinct();
    FourCycleChecked();
    FourCycleRunChecked();
    DistanceByTrace("82315 67094", Current, FourCycleHomes, FourCycleBack, FourCycleRun);
  }
}
