/**
 * Strings without a repeated character: the keys of a number row, the
 * digits of `string.digits`, and every arrangement the search rates; with
 * `str.index` and the arrangements of such a string.
 */
module Repeats {

  /** No slot of `s` from `i` on holds `c`. */
  predicate Absent(s: string, c: char, i: nat)
    decreases |s| - i
  {
    i >= |s| || (s[i] != c && Absent(s, c, i + 1))
  }

  /** No character occurs twice among the slots of `s` from `i` on. */
  predicate DistinctFrom(s: string, i: nat)
    decreases |s| - i
  {
    i >= |s| || (Absent(s, s[i], i + 1) && DistinctFrom(s, i + 1))
  }

  /** No character occurs twice. */
  predicate Distinct(s: string) {
    DistinctFrom(s, 0)
  }

  lemma {:induction false} AbsentSlots(s: string, c: char, i: nat)
    ensures Absent(s, c, i) <==> forall j :: i <= j < |s| ==> s[j] != c
    decreases |s| - i
  {
    if i < |s| {
      AbsentSlots(s, c, i + 1);
    }
  }

  lemma {:induction false} DistinctFromSlots(s: string, i: nat)
    ensures DistinctFrom(s, i) <==> forall j, k :: i <= j < k < |s| ==> s[j] != s[k]
    decreases |s| - i
  {
    if i < |s| {
      DistinctFromSlots(s, i + 1);
      AbsentSlots(s, s[i], i + 1);
    }
  }

  /** In a string without repeats, different slots hold different characters. */
  lemma DistinctSlots(s: string)
    requires Distinct(s)
    ensures forall i, j :: 0 <= i < j < |s| ==> s[i] != s[j]
  {
    DistinctFromSlots(s, 0);
  }

  /** A string whose different slots hold different characters has no repeats. */
  lemma SlotsDistinct(s: string)
    requires forall i, j :: 0 <= i < j < |s| ==> s[i] != s[j]
    ensures Distinct(s)
  {
    DistinctFromSlots(s, 0);
  }

  /** Two different slots of a string without repeats. */
  lemma DistinctAt(s: string, i: nat, j: nat)
    requires Distinct(s) && i < |s| && j < |s| && i != j
    ensures s[i] != s[j]
  {
    DistinctSlots(s);
  }

  /** The first slot from `k` on of `t` that holds `c`. */
  function IndexFrom(t: string, c: char, k: nat): (i: nat)
    requires k < |t| && c in t[k..]
    ensures k <= i < |t| && t[i] == c
    decreases |t| - k
  {
    if t[k] == c then k
    else
      assert t[k..] == [t[k]] + t[k + 1..];
      IndexFrom(t, c, k + 1)
  }

  /** `t.index(c)`: the first slot of `t` that holds `c`. */
  function IndexOf(t: string, c: char): (i: nat)
    requires c in t
    ensures i < |t| && t[i] == c
  {
    assert t[0..] == t;
    IndexFrom(t, c, 0)
  }

  lemma {:induction false} IndexFromFirst(t: string, c: char, k: nat)
    requires k < |t| && c in t[k..]
    ensures forall j :: k <= j < IndexFrom(t, c, k) ==> t[j] != c
    decreases |t| - k
  {
    if t[k] != c {
      assert t[k..] == [t[k]] + t[k + 1..];
      IndexFromFirst(t, c, k + 1);
    }
  }

  /** No slot before the one found holds `c`. */
  lemma IndexOfFirst(t: string, c: char)
    requires c in t
    ensures forall j :: 0 <= j < IndexOf(t, c) ==> t[j] != c
  {
    assert t[0..] == t;
    IndexFromFirst(t, c, 0);
  }

  /** In a string without repeats, a character is found in the one slot that holds it. */
  lemma IndexOfDistinct(s: string, k: nat)
    requires Distinct(s) && k < |s|
    ensures IndexOf(s, s[k]) == k
  {
    if IndexOf(s, s[k]) != k {
      DistinctAt(s, IndexOf(s, s[k]), k);
    }
  }

  /**
   * `a` holds the characters of `t` in some order: as many, none twice, each
   * one found in `t`.
   */
  predicate IsArrangementOf(a: string, t: string) {
    && |a| == |t|
    && Distinct(a)
    && (forall i :: 0 <= i < |a| ==> a[i] in t)
  }

  lemma {:induction false} MultiplicityInDistinct(t: string, x: char)
    requires forall i, j :: 0 <= i < j < |t| ==> t[i] != t[j]
    ensures multiset(t)[x] <= 1
  {
    if t != [] {
      assert t == [t[0]] + t[1..];
      assert t[0] !in t[1..];
      MultiplicityInDistinct(t[1..], x);
    }
  }

  /**
   * Every rearrangement of a target without repeats, that is every string with
   * the same characters the same number of times, is an arrangement of it.
   */
  lemma MultisetArrangement(a: string, t: string)
    requires Distinct(t) && multiset(a) == multiset(t)
    ensures IsArrangementOf(a, t)
  {
    assert |a| == |multiset(a)| == |multiset(t)| == |t|;
    DistinctSlots(t);
    forall i, j | 0 <= i < j < |a| ensures a[i] != a[j] {
      if a[i] == a[j] {
        assert a == a[..j] + [a[j]] + a[j + 1..];
        assert a[i] in a[..j];
        assert multiset(a)[a[i]] >= 2;
        MultiplicityInDistinct(t, a[i]);
        assert false;
      }
    }
    SlotsDistinct(a);
    forall i | 0 <= i < |a| ensures a[i] in t {
      assert a[i] in multiset(a);
    }
  }
}
