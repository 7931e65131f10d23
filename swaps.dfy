/**
 * `count_swaps` and `get_swaps` of the number-row search: how many exchanges
 * of two keys turn an arrangement into the reference one, found by sending
 * the character at each slot of a working copy to its home slot until the
 * slot holds the right one.
 *
 * Both are proved against the cycle decomposition: the count is the length
 * minus the number of cycles of the permutation that sends each slot of the
 * arrangement to the home of its character.
 */
module Swaps {
  import opened Errors
  import opened Permutations
  import opened Repeats

  /** The reference arrangement: the number row as it is today. */
  const Current: string := "12345 67890"

  /** The reference row has no repeated character. */
  lemma CurrentDistinct()
    ensures Distinct(Current)
  {
  }

  /** For each slot of `a`, the home slot in `t` of the character it holds. */
  function Positions(a: string, t: string): (p: seq<nat>)
    requires forall i :: 0 <= i < |a| ==> a[i] in t
    ensures |p| == |a|
  {
    if a == [] then [] else [IndexOf(t, a[0])] + Positions(a[1..], t)
  }

  /** Slot `i` of `a` is sent to the home of `a[i]` in `t`. */
  lemma {:induction false} PositionsAt(a: string, t: string)
    requires forall i :: 0 <= i < |a| ==> a[i] in t
    ensures forall i :: 0 <= i < |a| ==> Positions(a, t)[i] == IndexOf(t, a[i])
  {
    if a != [] {
      PositionsAt(a[1..], t);
    }
  }

  /** Sending each slot to the home of its character permutes the slots. */
  lemma PositionsArePermutation(a: string, t: string)
    requires IsArrangementOf(a, t)
    ensures IsPermutation(Positions(a, t))
  {
    var p := Positions(a, t);
    PositionsAt(a, t);
    forall i, j | 0 <= i < j < |p| ensures p[i] != p[j] {
      DistinctAt(a, i, j);
    }
    InjectionIsPermutation(p);
  }

  /** A slot is left in place exactly when it already holds its target character. */
  lemma PositionsFixed(a: string, t: string)
    requires Distinct(t) && IsArrangementOf(a, t)
    ensures forall i :: 0 <= i < |a| ==> (Positions(a, t)[i] == i <==> a[i] == t[i])
  {
    PositionsAt(a, t);
    forall i | 0 <= i < |a| && a[i] == t[i] ensures Positions(a, t)[i] == i {
      IndexOfDistinct(t, i);
    }
  }

  /**
   * The least number of exchanges that turn `a` into `t`: the length less
   * the number of cycles of the slot permutation.
   */
  function SwapDistance(a: string, t: string): nat
    requires IsArrangementOf(a, t)
  {
    |t| - Cycles(Positions(a, t))
  }

  /** The number of slots `i < k` where `a` differs from `t`. */
  function MisplacedCount(a: string, t: string, k: nat): (c: nat)
    requires k <= |a| && k <= |t|
    ensures c <= k
  {
    if k == 0 then 0 else MisplacedCount(a, t, k - 1) + (if a[k - 1] != t[k - 1] then 1 else 0)
  }

  function Misplaced(a: string, t: string): nat
    requires |a| == |t|
  {
    MisplacedCount(a, t, |a|)
  }

  lemma {:induction false} FixedAndMisplaced(p: seq<nat>, a: string, t: string, k: nat)
    requires |p| == |a| == |t| && k <= |a|
    requires forall i :: 0 <= i < |a| ==> (p[i] == i <==> a[i] == t[i])
    ensures FixedCount(p, k) + MisplacedCount(a, t, k) == k
  {
    if k > 0 {
      FixedAndMisplaced(p, a, t, k - 1);
    }
  }

  /**
   * The distance is below the length; it is zero exactly when `a` already is
   * `t`; otherwise it lies between half the number of misplaced slots (one
   * exchange fixes at most two) and one less than that number (the last
   * exchange of a cycle fixes two).
   */
  lemma DistanceBounds(a: string, t: string)
    requires Distinct(t) && IsArrangementOf(a, t)
    ensures |t| > 0 ==> SwapDistance(a, t) < |t|
    ensures SwapDistance(a, t) == 0 <==> a == t
    ensures Misplaced(a, t) <= 2 * SwapDistance(a, t)
    ensures a != t ==> SwapDistance(a, t) <= Misplaced(a, t) - 1
  {
    PositionsArePermutation(a, t);
    var p := Positions(a, t);
    PositionsFixed(a, t);
    CyclesOfIdentity(p);
    CyclesBetween(p);
    FixedAndMisplaced(p, a, t, |a|);
    if |p| > 0 {
      CyclesPositive(p);
    }
    assert IsIdentity(p) <==> a == t;
  }

  /** The target is an arrangement of itself, at distance zero. */
  lemma DistanceToSelf(t: string)
    requires Distinct(t)
    ensures IsArrangementOf(t, t) && SwapDistance(t, t) == 0
  {
    DistanceBounds(t, t);
  }

  /** Every exchange of `ex` names two slots below `n`. */
  predicate WithinSlots(ex: seq<(nat, nat)>, n: nat) {
    forall k :: 0 <= k < |ex| ==> ex[k].0 < n && ex[k].1 < n
  }

  /** The exchanges of keys `ex`, each a pair of slots, applied to `s` in order. */
  function ApplyExchanges(s: string, ex: seq<(nat, nat)>): string
    requires WithinSlots(ex, |s|)
    decreases |ex|
  {
    if ex == [] then s
    else
      var i, j := ex[0].0, ex[0].1;
      ApplyExchanges(s[i := s[j]][j := s[i]], ex[1..])
  }

  /** Exchanging the keys of two slots exchanges two values of the slot permutation. */
  lemma TransposedPositions(a: string, t: string, i: nat, j: nat)
    requires i < |a| && j < |a|
    requires IsArrangementOf(a, t) && IsArrangementOf(a[i := a[j]][j := a[i]], t)
    ensures Positions(a[i := a[j]][j := a[i]], t) == Transpose(Positions(a, t), i, j)
  {
    var b := a[i := a[j]][j := a[i]];
    PositionsAt(a, t);
    PositionsAt(b, t);
    var q := Positions(b, t);
    var r := Transpose(Positions(a, t), i, j);
    forall x | 0 <= x < |a| ensures q[x] == r[x] {
    }
  }

  /** One exchange of two keys lowers the distance by at most one. */
  lemma ExchangeDistance(a: string, t: string, i: nat, j: nat)
    requires IsArrangementOf(a, t) && i < |a| && j < |a|
    ensures IsArrangementOf(a[i := a[j]][j := a[i]], t)
    ensures SwapDistance(a, t) <= SwapDistance(a[i := a[j]][j := a[i]], t) + 1
  {
    SwapKeepsArrangement(a, t, i, j);
    if i != j {
      var lo, hi := if i < j then i else j, if i < j then j else i;
      assert a[i := a[j]][j := a[i]] == a[lo := a[hi]][hi := a[lo]];
      PositionsArePermutation(a, t);
      TransposedPositions(a, t, lo, hi);
      TransposeCycles(Positions(a, t), lo, hi);
    } else {
      assert a[i := a[j]][j := a[i]] == a;
    }
  }

  /**
   * No sequence of exchanges of two keys that turns `a` into `t` is shorter
   * than the distance.
   */
  lemma {:induction false} FewestExchanges(a: string, t: string, ex: seq<(nat, nat)>)
    requires Distinct(t) && IsArrangementOf(a, t) && WithinSlots(ex, |a|)
    requires ApplyExchanges(a, ex) == t
    ensures SwapDistance(a, t) <= |ex|
    decreases |ex|
  {
    if ex == [] {
      DistanceBounds(a, t);
    } else {
      var i, j := ex[0].0, ex[0].1;
      ExchangeDistance(a, t, i, j);
      assert WithinSlots(ex[1..], |a|);
      FewestExchanges(a[i := a[j]][j := a[i]], t, ex[1..]);
    }
  }

  /**
   * Some sequence of exactly distance-many exchanges of two keys turns `a`
   * into `t`, so the distance is the least number of exchanges.
   */
  lemma {:induction false} ExchangesReachTarget(a: string, t: string)
    requires Distinct(t) && IsArrangementOf(a, t)
    ensures exists ex :: WithinSlots(ex, |a|) && |ex| == SwapDistance(a, t) && ApplyExchanges(a, ex) == t
    decreases SwapDistance(a, t)
  {
    if a == t {
      DistanceBounds(a, t);
      assert WithinSlots([], |a|) && ApplyExchanges(a, []) == t;
    } else {
      var n :| 0 <= n < |a| && a[n] != t[n];
      var c := IndexOf(t, a[n]);
      var b := a[n := a[c]][c := a[n]];
      SwapKeepsArrangement(a, t, n, c);
      SwapDistanceDrops(a, t, n, c, b);
      ExchangesReachTarget(b, t);
      var rest :| WithinSlots(rest, |b|) && |rest| == SwapDistance(b, t) && ApplyExchanges(b, rest) == t;
      var ex := [(n, c)] + rest;
      assert ex[1..] == rest;
      assert WithinSlots(ex, |a|) && ApplyExchanges(a, ex) == t;
    }
  }

  /**
   * The distance is the least number of exchanges of two keys that turn `a`
   * into `t`: some sequence that long does it, and none shorter does.
   */
  lemma DistanceIsLeast(a: string, t: string)
    requires Distinct(t) && IsArrangementOf(a, t)
    ensures exists ex :: WithinSlots(ex, |a|) && |ex| == SwapDistance(a, t) && ApplyExchanges(a, ex) == t
    ensures forall ex :: WithinSlots(ex, |a|) && ApplyExchanges(a, ex) == t ==> SwapDistance(a, t) <= |ex|
  {
    ExchangesReachTarget(a, t);
    forall ex | WithinSlots(ex, |a|) && ApplyExchanges(a, ex) == t
      ensures SwapDistance(a, t) <= |ex|
    {
      FewestExchanges(a, t, ex);
    }
  }

  /**
   * The state of the swap loop over a working copy `w` of `orig`: the copy is
   * still an arrangement of `t`, every slot before `n` holds its right
   * character, and every slot that was right in `orig` still is.
   */
  ghost predicate Walk(orig: string, t: string, w: string, n: nat) {
    && IsArrangementOf(w, t) && |orig| == |w| && n <= |w|
    && (forall i :: 0 <= i < n ==> w[i] == t[i])
    && (forall i :: 0 <= i < |w| && orig[i] == t[i] ==> w[i] == t[i])
  }

  /** A slot that already holds its right character is passed over. */
  lemma WalkOn(orig: string, t: string, w: string, n: nat)
    requires Walk(orig, t, w, n) && n < |w| && w[n] == t[n]
    ensures Walk(orig, t, w, n + 1)
  {
  }

  /** When the loop has passed every slot the copy is the target. */
  lemma WalkDone(orig: string, t: string, w: string)
    requires Walk(orig, t, w, |w|)
    ensures w == t
  {
  }

  /**
   * One exchange of the loop: the character at slot `n`, which is not home,
   * goes to its home `c`, and the character at `c` comes to `n`.  The loop
   * state is kept, slot `c` becomes right, and the distance drops by exactly
   * one.
   */
  lemma SwapStep(orig: string, t: string, w: string, n: nat) returns (c: nat, b: string)
    requires Distinct(t) && Walk(orig, t, w, n) && n < |w|
    requires IndexOf(t, w[n]) != n
    ensures c == IndexOf(t, w[n]) && c < |w| && b == w[n := w[c]][c := w[n]]
    ensures w[n] != t[n] && w[c] != t[c] && b[c] == t[c]
    ensures Walk(orig, t, b, n)
    ensures SwapDistance(b, t) + 1 == SwapDistance(w, t)
  {
    c := IndexOf(t, w[n]);
    b := w[n := w[c]][c := w[n]];
    SwapSlots(orig, t, w, n, c);
    SwapKeepsArrangement(w, t, n, c);
    SwapDistanceDrops(w, t, n, c, b);
  }

  /** The slots an exchange of the loop touches and those it leaves alone. */
  lemma SwapSlots(orig: string, t: string, w: string, n: nat, c: nat)
    requires Distinct(t) && IsArrangementOf(w, t) && n < |w| == |orig|
    requires c == IndexOf(t, w[n]) && c != n
    requires forall i :: 0 <= i < n ==> w[i] == t[i]
    requires forall i :: 0 <= i < |w| && orig[i] == t[i] ==> w[i] == t[i]
    ensures w[n] != t[n] && w[c] != t[c] && n < c
    ensures forall i :: 0 <= i < n ==> w[n := w[c]][c := w[n]][i] == t[i]
    ensures forall i :: 0 <= i < |w| && orig[i] == t[i] ==> w[n := w[c]][c := w[n]][i] == t[i]
  {
    if w[n] == t[n] {
      IndexOfDistinct(t, n);
    }
    DistinctAt(w, c, n);
  }

  /** An exchange of the loop lowers the distance by exactly one. */
  lemma SwapDistanceDrops(w: string, t: string, n: nat, c: nat, b: string)
    requires Distinct(t) && IsArrangementOf(w, t) && IsArrangementOf(b, t) && n < |w|
    requires c == IndexOf(t, w[n]) && c != n && b == w[n := w[c]][c := w[n]]
    ensures SwapDistance(b, t) + 1 == SwapDistance(w, t)
  {
    var p := Positions(w, t);
    PositionsAt(w, t);
    assert p[n] == c;
    SwapPositions(w, t, n, c, b);
    PositionsArePermutation(w, t);
    ResolveAddsCycle(p, n);
    assert Cycles(Positions(b, t)) == Cycles(p) + 1;
  }

  /** Exchanging the characters of two slots keeps an arrangement one. */
  lemma SwapKeepsArrangement(a: string, t: string, n: nat, c: nat)
    requires IsArrangementOf(a, t) && n < |a| && c < |a|
    ensures IsArrangementOf(a[n := a[c]][c := a[n]], t)
  {
    var b := a[n := a[c]][c := a[n]];
    forall i, j | 0 <= i < j < |b| ensures b[i] != b[j] {
      var i' := if i == n then c else if i == c then n else i;
      var j' := if j == n then c else if j == c then n else j;
      assert b[i] == a[i'] && b[j] == a[j'];
      DistinctAt(a, i', j');
    }
    SlotsDistinct(b);
  }

  /** Exchanging slot `n` with the home `c` of its character resolves the slot permutation at `n`. */
  lemma SwapPositions(a: string, t: string, n: nat, c: nat, b: string)
    requires Distinct(t) && IsArrangementOf(a, t) && IsArrangementOf(b, t) && n < |a|
    requires c == IndexOf(t, a[n]) && b == a[n := a[c]][c := a[n]]
    ensures Positions(a, t)[n] < |a|
    ensures Positions(b, t) == Resolve(Positions(a, t), n)
  {
    var p := Positions(a, t);
    var q := Positions(b, t);
    PositionsAt(a, t);
    PositionsAt(b, t);
    var r := Resolve(p, n);
    forall i | 0 <= i < |a| ensures q[i] == r[i] {
      if i == c {
      } else if i == n {
      } else {
      }
    }
  }

  /**
   * `count_swaps(arrangement, current)`.  Lengths that differ raise; otherwise
   * the count is the distance.  The working copy stays an arrangement of the
   * target, every slot before `n` holds its right character, a slot that was
   * right from the start is never touched, and each exchange lowers the
   * distance of the copy by one, which is also why the loop ends.
   */
  method CountSwaps(arrangement: string, current: string) returns (r: Result<nat>)
    requires Distinct(current)
    requires |arrangement| == |current| ==> IsArrangementOf(arrangement, current)
    ensures |arrangement| != |current| ==> r == Err(LengthMismatch)
    ensures |arrangement| == |current| ==> r == Ok(SwapDistance(arrangement, current))
  {
    var lenCurrent := |current|;
    if |arrangement| != lenCurrent {
      return Err(LengthMismatch);
    }
    var swaps := 0;
    var n := 0;
    var arr := new char[lenCurrent];
    forall i | 0 <= i < lenCurrent {
      arr[i] := arrangement[i];
    }
    ghost var work := arrangement;
    while n < lenCurrent
      invariant lenCurrent == arr.Length && arr[..] == work
      invariant Walk(arrangement, current, work, n)
      invariant swaps + SwapDistance(work, current) == SwapDistance(arrangement, current)
      decreases lenCurrent - n, SwapDistance(work, current)
    {
      var cn := IndexOf(current, arr[n]);
      if cn == n {
        WalkOn(arrangement, current, work, n);
        n := n + 1;
      } else {
        ghost var c, next := SwapStep(arrangement, current, work, n);
        swaps := swaps + 1;
        SwapInPlace(arr, n, cn);
        work := next;
      }
    }
    WalkDone(arrangement, current, work);
    DistanceToSelf(current);
    return Ok(swaps);
  }

  /** No recorded exchange involves `x`. */
  predicate Avoids(swaps: seq<(char, char)>, x: char) {
    forall k :: 0 <= k < |swaps| ==> swaps[k].0 != x && swaps[k].1 != x
  }

  /** The tuple assignment `arr[cn], arr[n] = arr[n], arr[cn]`. */
  method SwapInPlace(arr: array<char>, i: nat, j: nat)
    requires i < arr.Length && j < arr.Length
    modifies arr
    ensures arr[..] == old(arr[..])[i := old(arr[j])][j := old(arr[i])]
  {
    arr[i], arr[j] := arr[j], arr[i];
  }

  /** `s` with every `x` turned into `y` and every `y` into `x`. */
  function Exchange(s: string, x: char, y: char): (r: string)
    ensures |r| == |s|
    ensures forall i :: 0 <= i < |s| ==> r[i] == if s[i] == x then y else if s[i] == y then x else s[i]
  {
    if s == [] then []
    else [if s[0] == x then y else if s[0] == y then x else s[0]] + Exchange(s[1..], x, y)
  }

  /** The value exchanges `swaps`, read as "x with y", applied to `s` in order. */
  function Replay(s: string, swaps: seq<(char, char)>): string {
    if swaps == [] then s
    else
      var last := swaps[|swaps| - 1];
      Exchange(Replay(s, swaps[..|swaps| - 1]), last.0, last.1)
  }

  /** Exchanging two values of a string without repeats exchanges their slots. */
  lemma ExchangeSlots(s: string, i: nat, j: nat)
    requires Distinct(s) && i < |s| && j < |s| && i != j
    ensures Exchange(s, s[j], s[i]) == s[i := s[j]][j := s[i]]
  {
    var e := Exchange(s, s[j], s[i]);
    var u := s[i := s[j]][j := s[i]];
    forall k | 0 <= k < |s| ensures e[k] == u[k] {
      if k != i && k != j {
        DistinctAt(s, k, i);
        DistinctAt(s, k, j);
      }
    }
  }

  /**
   * `get_swaps(a, target)`.  Lengths that differ raise; otherwise it records
   * one pair per exchange, so as many pairs as `count_swaps` counts; playing
   * the recorded value exchanges back on `a` yields the target; and no
   * character that `a` already has in its right slot (the separator of a
   * number row, for one) appears in a pair.
   */
  method GetSwaps(a: string, target: string) returns (r: Result<seq<(char, char)>>)
    requires Distinct(target)
    requires |a| == |target| ==> IsArrangementOf(a, target)
    ensures |a| != |target| ==> r == Err(LengthMismatch)
    ensures |a| == |target| ==> r.Ok?
    ensures r.Ok? ==> |r.value| == SwapDistance(a, target)
    ensures r.Ok? ==> Replay(a, r.value) == target
    ensures r.Ok? ==> forall i :: 0 <= i < |a| && a[i] == target[i] ==> Avoids(r.value, a[i])
  {
    var lenTarget := |target|;
    if |a| != lenTarget {
      return Err(LengthMismatch);
    }
    var swaps: seq<(char, char)> := [];
    var n := 0;
    var arr := new char[lenTarget];
    forall i | 0 <= i < lenTarget {
      arr[i] := a[i];
    }
    ghost var work := a;
    while n < lenTarget
      invariant lenTarget == arr.Length && arr[..] == work
      invariant Walk(a, target, work, n)
      invariant |swaps| + SwapDistance(work, target) == SwapDistance(a, target)
      invariant Recorded(a, target, work, swaps)
      decreases lenTarget - n, SwapDistance(work, target)
    {
      var cn := IndexOf(target, arr[n]);
      if cn == n {
        WalkOn(a, target, work, n);
        n := n + 1;
      } else {
        ghost var c, next := RecordStep(a, target, work, n, swaps);
        SwapInPlace(arr, n, cn);
        swaps := swaps + [(arr[n], arr[cn])];
        work := next;
      }
    }
    WalkDone(a, target, work);
    DistanceToSelf(target);
    return Ok(swaps);
  }

  /**
   * The record of `get_swaps` so far: replayed on `a` it gives the working
   * copy `w`, and it leaves alone every character `a` has in its right slot.
   */
  ghost predicate Recorded(a: string, t: string, w: string, swaps: seq<(char, char)>) {
    && Replay(a, swaps) == w
    && forall i :: 0 <= i < |a| && i < |t| && a[i] == t[i] ==> Avoids(swaps, a[i])
  }

  /** One exchange of `get_swaps`: the loop state and the record both move on. */
  lemma RecordStep(a: string, t: string, w: string, n: nat, swaps: seq<(char, char)>) returns (c: nat, b: string)
    requires Distinct(t) && Walk(a, t, w, n) && n < |w|
    requires IndexOf(t, w[n]) != n
    requires Recorded(a, t, w, swaps)
    ensures c == IndexOf(t, w[n]) && c < |w| && b == w[n := w[c]][c := w[n]]
    ensures Walk(a, t, b, n)
    ensures SwapDistance(b, t) + 1 == SwapDistance(w, t)
    ensures Recorded(a, t, b, swaps + [(b[n], b[c])])
  {
    c, b := SwapStep(a, t, w, n);
    RecordSwap(a, t, w, n, c, swaps);
  }

  lemma RecordSwap(a: string, t: string, w: string, n: nat, c: nat, swaps: seq<(char, char)>)
    requires Distinct(w) && |a| == |w| == |t|
    requires n < |w| && c < |w| && n != c && w[n] != t[n] && w[c] != t[c]
    requires Replay(a, swaps) == w
    requires forall i :: 0 <= i < |a| && a[i] == t[i] ==> w[i] == t[i]
    requires forall i :: 0 <= i < |a| && a[i] == t[i] ==> Avoids(swaps, a[i])
    ensures Replay(a, swaps + [(w[c], w[n])]) == w[n := w[c]][c := w[n]]
    ensures forall i :: 0 <= i < |a| && a[i] == t[i] ==> Avoids(swaps + [(w[c], w[n])], a[i])
  {
    ReplayOneMore(a, swaps, w[c], w[n]);
    ExchangeSlots(w, n, c);
    RecordAvoids(a, t, w, n, c, swaps);
  }

  lemma RecordAvoids(a: string, t: string, w: string, n: nat, c: nat, swaps: seq<(char, char)>)
    requires Distinct(w) && |a| == |w| == |t|
    requires n < |w| && c < |w| && w[n] != t[n] && w[c] != t[c]
    requires forall i :: 0 <= i < |a| && a[i] == t[i] ==> w[i] == t[i]
    requires forall i :: 0 <= i < |a| && a[i] == t[i] ==> Avoids(swaps, a[i])
    ensures forall i :: 0 <= i < |a| && a[i] == t[i] ==> Avoids(swaps + [(w[c], w[n])], a[i])
  {
    forall i | 0 <= i < |a| && a[i] == t[i] ensures Avoids(swaps + [(w[c], w[n])], a[i]) {
      assert w[i] == t[i] && i != c && i != n;
      DistinctAt(w, c, i);
      DistinctAt(w, n, i);
    }
  }

  lemma ReplayOneMore(s: string, swaps: seq<(char, char)>, x: char, y: char)
    ensures Replay(s, swaps + [(x, y)]) == Exchange(Replay(s, swaps), x, y)
  {
    assert (swaps + [(x, y)])[..|swaps|] == swaps;
  }
}
