/**
 * Permutations of the positions 0..n-1, and the number of cycles of one.
 *
 * The least number of transpositions that sorts a permutation is its length
 * minus its number of cycles.  The swap counter of the number-row search walks
 * exactly that cycle decomposition, so its result is stated against `Cycles`.
 */
module Permutations {

  /** Some position of `p` is sent to `k`. */
  predicate Hits(p: seq<nat>, k: nat) {
    exists i :: 0 <= i < |p| && p[i] == k
  }

  /** `p` sends the positions 0..|p|-1 one-to-one onto themselves. */
  predicate IsPermutation(p: seq<nat>) {
    && (forall i :: 0 <= i < |p| ==> p[i] < |p|)
    && (forall i, j :: 0 <= i < j < |p| ==> p[i] != p[j])
    && (forall k :: 0 <= k < |p| ==> Hits(p, k))
  }

  /**
   * Pigeonhole: a sequence of positions below its length with no value twice
   * takes every value, so it is a permutation.
   */
  lemma {:induction false} InjectionIsPermutation(p: seq<nat>)
    requires forall i :: 0 <= i < |p| ==> p[i] < |p|
    requires forall i, j :: 0 <= i < j < |p| ==> p[i] != p[j]
    ensures IsPermutation(p)
    decreases |p|
  {
    if |p| > 0 {
      var m := |p| - 1;
      if p[m] == m {
        InjectionIsPermutation(p[..m]);
        HitsAfterPrefix(p, p[..m]);
      } else if j :| 0 <= j < m && p[j] == m {
        InjectionIsPermutation(Bypass(p));
        HitsAfterBypass(p, j);
      } else {
        var q := p[..m];
        InjectionIsPermutation(q);
        ghost var lastHit := Hits(q, p[m]);
        assert false;
      }
    }
  }

  lemma HitsAfterPrefix(p: seq<nat>, q: seq<nat>)
    requires |p| > 0 && p[|p| - 1] == |p| - 1 && q == p[..|p| - 1]
    requires forall k :: 0 <= k < |q| ==> Hits(q, k)
    ensures forall k :: 0 <= k < |p| ==> Hits(p, k)
  {
    var m := |p| - 1;
    forall k | 0 <= k < |p| ensures Hits(p, k) {
      if k < m {
        assert Hits(q, k);
        var i :| 0 <= i < m && q[i] == k;
        assert p[i] == k;
      } else {
        assert p[m] == k;
      }
    }
  }

  lemma HitsAfterBypass(p: seq<nat>, j: nat)
    requires |p| > 0 && j < |p| - 1 && p[j] == |p| - 1
    requires forall k :: 0 <= k < |p| - 1 ==> Hits(Bypass(p), k)
    ensures forall k :: 0 <= k < |p| ==> Hits(p, k)
  {
    var m := |p| - 1;
    var q := Bypass(p);
    forall k | 0 <= k < |p| ensures Hits(p, k) {
      if k < m {
        assert Hits(q, k);
        var i :| 0 <= i < m && q[i] == k;
        if p[i] == m {
          assert p[m] == k;
        } else {
          assert p[i] == k;
        }
      } else {
        assert p[j] == k;
      }
    }
  }

  predicate IsIdentity(p: seq<nat>) {
    forall i :: 0 <= i < |p| ==> p[i] == i
  }

  /** Every `from` in `s` replaced by `to`. */
  function Redirect(s: seq<nat>, from: nat, to: nat): (r: seq<nat>)
    ensures |r| == |s|
    ensures forall i :: 0 <= i < |s| ==> r[i] == if s[i] == from then to else s[i]
  {
    if s == [] then [] else [if s[0] == from then to else s[0]] + Redirect(s[1..], from, to)
  }

  /**
   * Takes the last position out of its cycle: the position that was sent to
   * it is sent on to where the last position was sent.  The cycle loses one
   * element and no cycle disappears.
   */
  function Bypass(p: seq<nat>): (q: seq<nat>)
    requires |p| > 0
    ensures |q| == |p| - 1
    ensures forall i :: 0 <= i < |q| ==> q[i] == if p[i] == |p| - 1 then p[|p| - 1] else p[i]
  {
    Redirect(p[..|p| - 1], |p| - 1, p[|p| - 1])
  }

  /**
   * The number of cycles of `p`.  The last position is either a cycle of its
   * own, or is taken out of its cycle, which leaves the number unchanged.
   */
  function Cycles(p: seq<nat>): (c: nat)
    ensures c <= |p|
    decreases |p|
  {
    if |p| == 0 then 0
    else if p[|p| - 1] == |p| - 1 then 1 + Cycles(p[..|p| - 1])
    else Cycles(Bypass(p))
  }

  lemma PrefixIsPermutation(p: seq<nat>)
    requires IsPermutation(p) && |p| > 0 && p[|p| - 1] == |p| - 1
    ensures IsPermutation(p[..|p| - 1])
  {
    var m := |p| - 1;
    var q := p[..m];
    forall k | 0 <= k < m ensures Hits(q, k) {
      assert Hits(p, k);
      var i :| 0 <= i < |p| && p[i] == k;
      assert i != m && q[i] == k;
    }
  }

  lemma BypassIsPermutation(p: seq<nat>)
    requires IsPermutation(p) && |p| > 0 && p[|p| - 1] != |p| - 1
    ensures IsPermutation(Bypass(p))
  {
    var m := |p| - 1;
    var q := Bypass(p);
    forall k | 0 <= k < m ensures Hits(q, k) {
      assert Hits(p, k);
      var i :| 0 <= i < |p| && p[i] == k;
      if i == m {
        assert Hits(p, m);
        var j :| 0 <= j < |p| && p[j] == m;
        assert j < m && q[j] == k;
      } else {
        assert q[i] == k;
      }
    }
  }

  /** A permutation of at least one position has at least one cycle. */
  lemma {:induction false} CyclesPositive(p: seq<nat>)
    requires IsPermutation(p) && |p| > 0
    ensures Cycles(p) >= 1
    decreases |p|
  {
    var m := |p| - 1;
    if p[m] != m {
      assert Hits(p, m);
      BypassIsPermutation(p);
      CyclesPositive(Bypass(p));
    }
  }

  /** Positions from `k` on that are left in place are one cycle each. */
  lemma {:induction false} CyclesFixedTail(p: seq<nat>, k: nat)
    requires k <= |p|
    requires forall i :: k <= i < |p| ==> p[i] == i
    ensures Cycles(p) == |p| - k + Cycles(p[..k])
    decreases |p| - k
  {
    if k == |p| {
      assert p[..k] == p;
    } else {
      var q := p[..|p| - 1];
      CyclesFixedTail(q, k);
      assert q[..k] == p[..k];
    }
  }

  /** A permutation has as many cycles as positions exactly when it is the identity. */
  lemma {:induction false} CyclesOfIdentity(p: seq<nat>)
    requires IsPermutation(p)
    ensures Cycles(p) == |p| <==> IsIdentity(p)
    decreases |p|
  {
    if |p| > 0 {
      var m := |p| - 1;
      if p[m] == m {
        PrefixIsPermutation(p);
        CyclesOfIdentity(p[..m]);
        assert IsIdentity(p) <==> IsIdentity(p[..m]);
      } else {
        assert !IsIdentity(p);
      }
    }
  }

  /** The number of positions `i < k` that `p` leaves in place. */
  function FixedCount(p: seq<nat>, k: nat): (c: nat)
    requires k <= |p|
    ensures c <= k
  {
    if k == 0 then 0 else FixedCount(p, k - 1) + (if p[k - 1] == k - 1 then 1 else 0)
  }

  /** The positions that `p` leaves in place. */
  function FixedPoints(p: seq<nat>): nat {
    FixedCount(p, |p|)
  }

  lemma {:induction false} FixedCountSame(s: seq<nat>, r: seq<nat>, k: nat)
    requires k <= |s| && k <= |r|
    requires forall i :: 0 <= i < k ==> s[i] == r[i]
    ensures FixedCount(s, k) == FixedCount(r, k)
  {
    if k > 0 {
      FixedCountSame(s, r, k - 1);
    }
  }

  lemma {:induction false} FixedCountUpdate(s: seq<nat>, j: nat, v: nat, k: nat)
    requires j < k <= |s| && s[j] != j
    ensures FixedCount(s[j := v], k) == FixedCount(s, k) + (if v == j then 1 else 0)
  {
    if k - 1 == j {
      FixedCountSame(s, s[j := v], j);
    } else {
      FixedCountUpdate(s, j, v, k - 1);
    }
  }

  /**
   * Every fixed point is a cycle of its own and every other cycle has at least
   * two elements, so the number of cycles lies between the fixed points (plus
   * one when anything moves) and the fixed points plus half of the rest.
   */
  lemma {:induction false} CyclesBetween(p: seq<nat>)
    requires IsPermutation(p)
    ensures FixedPoints(p) + (if IsIdentity(p) then 0 else 1) <= Cycles(p)
    ensures 2 * Cycles(p) <= |p| + FixedPoints(p)
    decreases |p|
  {
    if |p| > 0 {
      var m := |p| - 1;
      if p[m] == m {
        PrefixIsPermutation(p);
        PrefixFixedPoints(p);
        CyclesBetween(p[..m]);
      } else {
        BypassIsPermutation(p);
        BypassFixedPoints(p);
        CyclesBetween(Bypass(p));
      }
    }
  }

  /** A fixed last position is one more fixed point than the rest have. */
  lemma PrefixFixedPoints(p: seq<nat>)
    requires |p| > 0 && p[|p| - 1] == |p| - 1
    ensures FixedPoints(p) == FixedPoints(p[..|p| - 1]) + 1
    ensures IsIdentity(p) <==> IsIdentity(p[..|p| - 1])
  {
    var m := |p| - 1;
    FixedCountSame(p, p[..m], m);
  }

  /**
   * Taking the last position out of its cycle leaves a new fixed point when
   * the cycle had two elements, and otherwise leaves something that moves.
   */
  lemma BypassFixedPoints(p: seq<nat>)
    requires IsPermutation(p) && |p| > 0 && p[|p| - 1] != |p| - 1
    ensures var q := Bypass(p);
      || FixedPoints(q) == FixedPoints(p) + 1
      || (FixedPoints(q) == FixedPoints(p) && !IsIdentity(q))
  {
    var m := |p| - 1;
    var q := Bypass(p);
    assert Hits(p, m);
    var j :| 0 <= j < |p| && p[j] == m;
    assert q == p[..m][j := p[m]];
    FixedCountUpdate(p[..m], j, p[m], m);
    FixedCountSame(p, p[..m], m);
    assert p[m] != j ==> q[j] != j;
  }

  /**
   * The permutation after position `n` is swapped with the position `p[n]` it
   * belongs to: `p[n]` is now left in place and `n` takes over where `p[n]`
   * was sent.
   */
  function Resolve(p: seq<nat>, n: nat): (r: seq<nat>)
    requires n < |p| && p[n] < |p|
    ensures |r| == |p|
    ensures r[p[n]] == p[n] && (p[n] != n ==> r[n] == p[p[n]])
    ensures forall i :: 0 <= i < |p| && i != n && i != p[n] ==> r[i] == p[i]
  {
    p[n := p[p[n]]][p[n] := p[n]]
  }

  lemma ResolveIsPermutation(p: seq<nat>, n: nat)
    requires IsPermutation(p) && n < |p| && p[n] != n
    ensures IsPermutation(Resolve(p, n))
  {
    var c := p[n];
    var r := Resolve(p, n);
    forall k | 0 <= k < |p| ensures Hits(r, k) {
      if k == c {
        assert r[c] == k;
      } else {
        assert Hits(p, k);
        var i :| 0 <= i < |p| && p[i] == k;
        if i == c {
          assert r[n] == k;
        } else {
          assert r[i] == k;
        }
      }
    }
  }

  /**
   * Swapping a misplaced position with the one it belongs to splits its cycle
   * in two: the number of cycles goes up by exactly one.
   */
  lemma {:induction false} ResolveAddsCycle(p: seq<nat>, n: nat)
    requires IsPermutation(p) && n < |p| && p[n] != n
    ensures Cycles(Resolve(p, n)) == Cycles(p) + 1
    decreases |p|
  {
    var m := |p| - 1;
    if p[n] == m {
      SameAsBypass(p, Resolve(p, n), n);
    } else if n == m {
      if p[p[n]] == m {
        SameAsBypass(p, Resolve(p, n), p[n]);
      } else {
        var j := ResolveFromLast(p);
        BypassIsPermutation(p);
        ResolveAddsCycle(Bypass(p), j);
      }
    } else if p[m] == m {
      PrefixIsPermutation(p);
      assert n < m && p[n] < m;
      ResolveBeforeFixedLast(p, n);
      ResolveAddsCycle(p[..m], n);
    } else {
      ResolveAwayFromLast(p, n);
      BypassIsPermutation(p);
      ResolveAddsCycle(Bypass(p), n);
    }
  }

  /**
   * `s` keeps the last position in place and otherwise agrees with `p` below
   * it, except that `k`, the one position `p` sends to the last one, is sent
   * where the last one was sent.  Then `s` has one cycle more than `p`.
   */
  lemma SameAsBypass(p: seq<nat>, s: seq<nat>, k: nat)
    requires |p| > 0 && p[|p| - 1] != |p| - 1
    requires k < |p| - 1 && p[k] == |p| - 1
    requires forall i :: 0 <= i < |p| - 1 && i != k ==> p[i] != |p| - 1
    requires |s| == |p| && s[|p| - 1] == |p| - 1 && s[k] == p[|p| - 1]
    requires forall i :: 0 <= i < |p| - 1 && i != k ==> s[i] == p[i]
    ensures Cycles(s) == Cycles(p) + 1
  {
    var m := |p| - 1;
    var q := Bypass(p);
    assert s[..m] == q;
  }

  /**
   * The swap starts at the last position, in a cycle of three or more: after
   * bypassing the last position the same swap starts at its predecessor `j`.
   */
  lemma ResolveFromLast(p: seq<nat>) returns (j: nat)
    requires IsPermutation(p) && |p| > 0
    requires p[|p| - 1] != |p| - 1 && p[p[|p| - 1]] != |p| - 1
    ensures j < |p| - 1 && Bypass(p)[j] != j
    ensures Cycles(Resolve(p, |p| - 1)) == Cycles(Resolve(Bypass(p), j))
  {
    var m := |p| - 1;
    var c := p[m];
    assert Hits(p, m);
    j :| 0 <= j < |p| && p[j] == m;
    FromLastPointwise(p, j, Bypass(p), Resolve(p, m));
  }

  /** The pointwise part of `ResolveFromLast`. */
  lemma FromLastPointwise(p: seq<nat>, j: nat, q: seq<nat>, s: seq<nat>)
    requires |p| > 0 && j < |p| - 1 && p[j] == |p| - 1
    requires forall i :: 0 <= i < |p| ==> p[i] < |p|
    requires p[|p| - 1] < |p| - 1 && p[|p| - 1] != j && p[p[|p| - 1]] != |p| - 1
    requires forall i :: 0 <= i < |p| - 1 && i != j ==> p[i] != |p| - 1
    requires |q| == |p| - 1
    requires forall i :: 0 <= i < |q| ==> q[i] == if p[i] == |p| - 1 then p[|p| - 1] else p[i]
    requires |s| == |p| && s[p[|p| - 1]] == p[|p| - 1] && s[|p| - 1] == p[p[|p| - 1]]
    requires forall i :: 0 <= i < |p| && i != |p| - 1 && i != p[|p| - 1] ==> s[i] == p[i]
    ensures q[j] == p[|p| - 1] && q[j] != j && q[q[j]] < |q|
    ensures s[|s| - 1] != |s| - 1 && Bypass(s) == Resolve(q, j)
  {
    var m := |p| - 1;
    var c := p[m];
    assert q[j] == c && q[c] == p[c];
    var r := Resolve(q, j);
    var bs := Bypass(s);
    forall i | 0 <= i < m ensures bs[i] == r[i] {
      if i == j {
      } else if i == c {
      } else {
        assert p[i] != m;
      }
    }
  }

  /** Neither swapped position is the last one, which is a fixed point. */
  lemma ResolveBeforeFixedLast(p: seq<nat>, n: nat)
    requires |p| > 0 && p[|p| - 1] == |p| - 1
    requires n < |p| - 1 && p[n] < |p| - 1
    ensures Cycles(Resolve(p, n)) == 1 + Cycles(Resolve(p[..|p| - 1], n))
  {
    var m := |p| - 1;
    var s := Resolve(p, n);
    var r := Resolve(p[..m], n);
    forall x | 0 <= x < m ensures s[x] == r[x] {
    }
    assert s[..m] == r;
    assert s[m] == m;
    CyclesFixedLast(s);
  }

  /** Unfolds `Cycles` once where the last position is fixed. */
  lemma CyclesFixedLast(s: seq<nat>)
    requires |s| > 0 && s[|s| - 1] == |s| - 1
    ensures Cycles(s) == 1 + Cycles(s[..|s| - 1])
  {
  }

  /** Neither swapped position is the last one, which is not a fixed point. */
  lemma ResolveAwayFromLast(p: seq<nat>, n: nat)
    requires forall i :: 0 <= i < |p| ==> p[i] < |p|
    requires |p| > 0 && p[|p| - 1] != |p| - 1
    requires n < |p| - 1 && p[n] != n && p[n] != |p| - 1
    ensures Bypass(p)[n] == p[n] && p[n] < |p| - 1
    ensures Cycles(Resolve(p, n)) == Cycles(Resolve(Bypass(p), n))
  {
    var q := Bypass(p);
    var s := Resolve(p, n);
    AwayFromLastPointwise(p, n, q, s);
    CyclesMovedLast(s);
  }

  /** Unfolds `Cycles` once where the last position moves. */
  lemma CyclesMovedLast(s: seq<nat>)
    requires |s| > 0 && s[|s| - 1] != |s| - 1
    ensures Cycles(s) == Cycles(Bypass(s))
  {
  }

  /** The pointwise part of `ResolveAwayFromLast`: bypassing and resolving commute. */
  lemma AwayFromLastPointwise(p: seq<nat>, n: nat, q: seq<nat>, s: seq<nat>)
    requires |p| > 0 && n < |p| - 1 && p[n] < |p| - 1 && p[n] != n
    requires p[|p| - 1] != |p| - 1
    requires forall i :: 0 <= i < |p| ==> p[i] < |p|
    requires |q| == |p| - 1
    requires forall i :: 0 <= i < |q| ==> q[i] == if p[i] == |p| - 1 then p[|p| - 1] else p[i]
    requires |s| == |p| && s[p[n]] == p[n] && s[n] == p[p[n]]
    requires forall i :: 0 <= i < |p| && i != n && i != p[n] ==> s[i] == p[i]
    ensures q[n] == p[n] && q[q[n]] < |q| && s[|s| - 1] != |s| - 1
    ensures Bypass(s) == Resolve(q, n)
  {
    var m := |p| - 1;
    var c := p[n];
    assert q[n] == c;
    var r := Resolve(q, n);
    var bs := Bypass(s);
    forall i | 0 <= i < m ensures bs[i] == r[i] {
    }
  }

  /** `p` with the values at positions `i` and `j` exchanged. */
  function Transpose(p: seq<nat>, i: nat, j: nat): (r: seq<nat>)
    requires i < |p| && j < |p|
    ensures |r| == |p|
  {
    p[i := p[j]][j := p[i]]
  }

  /**
   * Any exchange of two positions adds at most one cycle: it either splits
   * one cycle in two or joins two into one.  So no sequence of fewer than
   * |p| - Cycles(p) exchanges can reach the identity.
   */
  lemma {:induction false} TransposeCycles(p: seq<nat>, i: nat, j: nat)
    requires IsPermutation(p) && i < j < |p|
    ensures Cycles(Transpose(p, i, j)) <= Cycles(p) + 1
    decreases |p|, 1
  {
    var m := |p| - 1;
    if j == m {
      TransposeLastCycles(p, i);
    } else if p[m] == m {
      TransposeBelowFixedLast(p, i, j);
    } else {
      TransposeBelowMovedLast(p, i, j);
    }
  }

  /** The last position exchanged with `k`. */
  lemma {:induction false} TransposeLastCycles(p: seq<nat>, k: nat)
    requires IsPermutation(p) && k < |p| - 1
    ensures Cycles(Transpose(p, k, |p| - 1)) <= Cycles(p) + 1
    decreases |p|, 0
  {
    var m := |p| - 1;
    if p[k] == m {
      SplitAtLast(p, k);
    } else if p[m] == m {
      JoinAtLast(p, k);
    } else {
      var lo, hi := BypassTransposed(p, k);
      TransposeCycles(Bypass(p), lo, hi);
    }
  }

  /** The case of `TransposeCycles` below a fixed last position. */
  lemma {:induction false} TransposeBelowFixedLast(p: seq<nat>, i: nat, j: nat)
    requires IsPermutation(p) && |p| > 0 && p[|p| - 1] == |p| - 1
    requires i < j < |p| - 1
    ensures Cycles(Transpose(p, i, j)) <= Cycles(p) + 1
    decreases |p|, 0
  {
    var q := p[..|p| - 1];
    PrefixTransposed(p, i, j);
    TransposeCycles(q, i, j);
  }

  /** The case of `TransposeCycles` below a last position that moves. */
  lemma {:induction false} TransposeBelowMovedLast(p: seq<nat>, i: nat, j: nat)
    requires IsPermutation(p) && |p| > 0 && p[|p| - 1] != |p| - 1
    requires i < j < |p| - 1
    ensures Cycles(Transpose(p, i, j)) <= Cycles(p) + 1
    decreases |p|, 0
  {
    BypassCommutes(p, i, j);
    TransposeCycles(Bypass(p), i, j);
  }

  /** Exchanging the last position with `k`, which is sent to it, makes it a fixed point. */
  lemma SplitAtLast(p: seq<nat>, k: nat)
    requires IsPermutation(p) && |p| > 0 && k < |p| - 1 && p[k] == |p| - 1
    ensures Cycles(Transpose(p, k, |p| - 1)) == Cycles(p) + 1
  {
    SameAsBypass(p, Transpose(p, k, |p| - 1), k);
  }

  /** Exchanging a fixed last position with `k` joins it to the cycle of `k`. */
  lemma JoinAtLast(p: seq<nat>, k: nat)
    requires IsPermutation(p) && |p| > 0 && k < |p| - 1 && p[|p| - 1] == |p| - 1
    ensures Cycles(Transpose(p, k, |p| - 1)) + 1 == Cycles(p)
  {
    var m := |p| - 1;
    var s := Transpose(p, k, m);
    assert p[k] != m;
    assert Bypass(s) == p[..m];
    CyclesMovedLast(s);
  }

  /** Exchanging two positions below a fixed last position leaves it fixed. */
  lemma PrefixTransposed(p: seq<nat>, i: nat, j: nat)
    requires IsPermutation(p) && |p| > 0 && p[|p| - 1] == |p| - 1
    requires i < |p| - 1 && j < |p| - 1
    ensures IsPermutation(p[..|p| - 1])
    ensures Cycles(Transpose(p, i, j)) == 1 + Cycles(Transpose(p[..|p| - 1], i, j))
  {
    var m := |p| - 1;
    PrefixIsPermutation(p);
    assert Transpose(p, i, j)[..m] == Transpose(p[..m], i, j);
  }

  /** An exchange away from the last, moved, position commutes with bypassing it. */
  lemma BypassCommutes(p: seq<nat>, i: nat, j: nat)
    requires IsPermutation(p) && |p| > 0 && p[|p| - 1] != |p| - 1
    requires i < |p| - 1 && j < |p| - 1
    ensures IsPermutation(Bypass(p))
    ensures Cycles(Transpose(p, i, j)) == Cycles(Transpose(Bypass(p), i, j))
  {
    BypassIsPermutation(p);
    var s := Transpose(p, i, j);
    CommutesPointwise(p, i, j, Bypass(p), s);
    CyclesMovedLast(s);
  }

  /** The pointwise part of `BypassCommutes`. */
  lemma CommutesPointwise(p: seq<nat>, i: nat, j: nat, q: seq<nat>, s: seq<nat>)
    requires |p| > 0 && p[|p| - 1] != |p| - 1 && i < |p| - 1 && j < |p| - 1
    requires |q| == |p| - 1
    requires forall x :: 0 <= x < |q| ==> q[x] == if p[x] == |p| - 1 then p[|p| - 1] else p[x]
    requires s == Transpose(p, i, j)
    ensures s[|s| - 1] != |s| - 1 && Bypass(s) == Transpose(q, i, j)
  {
    var r := Transpose(q, i, j);
    var bs := Bypass(s);
    forall x | 0 <= x < |q| ensures bs[x] == r[x] {
    }
  }

  /**
   * Exchanging the last, moved, position `m` with a position `k` not sent to
   * it: bypassing `m` afterwards is the exchange of `k` with `h`, the position
   * sent to `m`.
   */
  lemma BypassTransposed(p: seq<nat>, k: nat) returns (lo: nat, hi: nat)
    requires IsPermutation(p) && |p| > 0 && p[|p| - 1] != |p| - 1
    requires k < |p| - 1 && p[k] != |p| - 1
    ensures IsPermutation(Bypass(p)) && lo < hi < |p| - 1
    ensures Cycles(Transpose(p, k, |p| - 1)) == Cycles(Transpose(Bypass(p), lo, hi))
  {
    var m := |p| - 1;
    BypassIsPermutation(p);
    var h := SentToLast(p);
    if k < h {
      lo, hi := k, h;
    } else {
      lo, hi := h, k;
    }
    var s := Transpose(p, k, m);
    TransposedPointwise(p, k, h, Bypass(p), s);
    CyclesMovedLast(s);
  }

  /** The one position a permutation sends to its last, moved, position. */
  lemma SentToLast(p: seq<nat>) returns (h: nat)
    requires IsPermutation(p) && |p| > 0 && p[|p| - 1] != |p| - 1
    ensures h < |p| - 1 && p[h] == |p| - 1
    ensures forall x :: 0 <= x < |p| - 1 && x != h ==> p[x] != |p| - 1
  {
    assert Hits(p, |p| - 1);
    h :| 0 <= h < |p| && p[h] == |p| - 1;
  }

  /** The pointwise part of `BypassTransposed`. */
  lemma TransposedPointwise(p: seq<nat>, k: nat, h: nat, q: seq<nat>, s: seq<nat>)
    requires |p| > 0 && p[|p| - 1] != |p| - 1
    requires k < |p| - 1 && h < |p| - 1 && h != k && p[h] == |p| - 1 && p[k] != |p| - 1
    requires forall x :: 0 <= x < |p| - 1 && x != h ==> p[x] != |p| - 1
    requires |q| == |p| - 1
    requires forall x :: 0 <= x < |q| ==> q[x] == if p[x] == |p| - 1 then p[|p| - 1] else p[x]
    requires s == Transpose(p, k, |p| - 1)
    ensures s[|s| - 1] != |s| - 1
    ensures Bypass(s) == Transpose(q, k, h) == Transpose(q, h, k)
  {
    var r := Transpose(q, k, h);
    var r' := Transpose(q, h, k);
    var bs := Bypass(s);
    forall x | 0 <= x < |q| ensures bs[x] == r[x] == r'[x] {
    }
  }
}
