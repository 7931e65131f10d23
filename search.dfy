/**
 * The search over all arrangements of the number row: one pass over the
 * candidates that keeps the worst-rated arrangement, the best one within two
 * exchanges of today's row, the best one that keeps every left-hand digit on
 * the left, and a list of ten slots in which each new rating overwrites the
 * first slot rated below it (so the list need not hold the ten best; see
 * `AsWrittenLosesRunnerUp`).  Each of the four is a fold over the candidates
 * seen so far; the pass itself is a method over an array of ten slots.
 */
module Search {
  import opened Errors
  import opened Repeats
  import opened Swaps

  /** How many slots the list of best arrangements has. */
  const MaxPermutationsCount: nat := 10

  /** How many exchanges away from today's row an arrangement may be. */
  const MaxNSwaps: nat := 2

  /** The digits on the left half of today's row. */
  const Left: string := Current[..5]

  /** A candidate arrangement together with its rating. */
  type Rated = (string, real)

  /** Python's `s[:n]`: the first `n` characters, or all of a shorter string. */
  function Head(s: string, n: nat): string {
    if |s| <= n then s else s[..n]
  }

  /** At most `MaxNSwaps` exchanges away from today's row. */
  predicate WithinSwapBudget(p: string) {
    IsArrangementOf(p, Current) && SwapDistance(p, Current) <= MaxNSwaps
  }

  /** Every digit of the left half of today's row is on the left half of `p`. */
  predicate KeepsSides(p: string) {
    forall i :: 0 <= i < |Left| ==> Left[i] in Head(p, 5)
  }

  /** Today's row is within the exchange budget of itself. */
  lemma CurrentWithinSwapBudget()
    ensures WithinSwapBudget(Current)
  {
    CurrentDistinct();
    DistanceToSelf(Current);
  }

  /** Today's row keeps its own left-hand digits on the left. */
  lemma CurrentKeepsSides()
    ensures KeepsSides(Current)
  {
    forall i | 0 <= i < |Left|
      ensures Left[i] in Head(Current, 5)
    {
      assert Head(Current, 5)[i] == Left[i];
    }
  }

  /** A best-of search: the leading arrangement (none yet) and the rating to beat. */
  datatype Leader = Leader(perm: Option<string>, rating: real)

  /**
   * The worst candidate of `cs` with its rating; `None` stands for the
   * initial rating of infinity, which every candidate beats.
   */
  function Worst(cs: seq<string>, rate: string -> real): Option<Rated> {
    if |cs| == 0 then None
    else
      var w := Worst(cs[..|cs| - 1], rate);
      var p := cs[|cs| - 1];
      if w.None? || rate(p) < w.value.1 then Some((p, rate(p))) else w
  }

  /**
   * The best candidate of `cs` that `meets` accepts, starting from no arrangement and
   * a rating of zero; a candidate takes the lead only with a strictly higher
   * rating.
   */
  function Best(cs: seq<string>, rate: string -> real, meets: string -> bool): Leader {
    if |cs| == 0 then Leader(None, 0.0)
    else
      var b := Best(cs[..|cs| - 1], rate, meets);
      var p := cs[|cs| - 1];
      if rate(p) > b.rating && meets(p) then Leader(Some(p), rate(p)) else b
  }

  /** The list of best arrangements before the search: ten empty slots rated zero. */
  function NoPermutations(): (slots: seq<Rated>)
    ensures |slots| == MaxPermutationsCount
    ensures forall i :: 0 <= i < |slots| ==> slots[i] == ("", 0.0)
  {
    seq(MaxPermutationsCount, _ => ("", 0.0))
  }

  /** The first slot from `k` on whose rating is below `r`, or `|slots|` when there is none. */
  function FirstBelow(slots: seq<Rated>, r: real, k: nat): (i: nat)
    requires k <= |slots|
    ensures k <= i <= |slots|
    ensures i < |slots| ==> slots[i].1 < r
    ensures forall j :: k <= j < i ==> slots[j].1 >= r
    decreases |slots| - k
  {
    if k == |slots| || slots[k].1 < r then k else FirstBelow(slots, r, k + 1)
  }

  /** Ratings that never rise from one slot to the next. */
  predicate Descending(slots: seq<Rated>) {
    forall i, j :: 0 <= i < j < |slots| ==> slots[i].1 >= slots[j].1
  }

  /**
   * Offering `(p, r)` to the list as the search loop does it: the first slot
   * rated below `r` is overwritten, and the arrangement it held is lost.
   */
  function OfferedAsWritten(slots: seq<Rated>, p: string, r: real): (u: seq<Rated>)
    ensures |u| == |slots|
  {
    var i := FirstBelow(slots, r, 0);
    if i < |slots| then slots[i := (p, r)] else slots
  }

  /**
   * Offering `(p, r)` to the list as it is meant to work: `(p, r)` goes in
   * before the first slot rated below `r`, the slots from there move down one
   * place and the last one drops out.
   */
  function Inserted(slots: seq<Rated>, p: string, r: real): (u: seq<Rated>)
    ensures |u| == |slots|
  {
    var i := FirstBelow(slots, r, 0);
    if i < |slots| then slots[..i] + [(p, r)] + slots[i..|slots| - 1] else slots
  }

  /** The list after every candidate of `cs` was offered the way the loop does it. */
  function TopAsWritten(cs: seq<string>, rate: string -> real): (slots: seq<Rated>)
    ensures |slots| == MaxPermutationsCount
  {
    if |cs| == 0 then NoPermutations()
    else
      var p := cs[|cs| - 1];
      OfferedAsWritten(TopAsWritten(cs[..|cs| - 1], rate), p, rate(p))
  }

  /** The list after every candidate of `cs` was inserted in rating order. */
  function Top(cs: seq<string>, rate: string -> real): (slots: seq<Rated>)
    ensures |slots| == MaxPermutationsCount
  {
    if |cs| == 0 then NoPermutations()
    else
      var p := cs[|cs| - 1];
      Inserted(Top(cs[..|cs| - 1], rate), p, rate(p))
  }

  // ---------------------------------------------------------------------------
  // The worst and the best-of searches

  /**
   * The worst arrangement is the first of the lowest-rated candidates, and
   * there is one exactly when there was a candidate.
   */
  lemma {:induction false} WorstIsLowest(cs: seq<string>, rate: string -> real)
    ensures Worst(cs, rate).None? <==> |cs| == 0
    ensures Worst(cs, rate).Some? ==> forall j :: 0 <= j < |cs| ==> Worst(cs, rate).value.1 <= rate(cs[j])
    ensures Worst(cs, rate).Some? ==> exists k :: (0 <= k < |cs| && Worst(cs, rate).value == (cs[k], rate(cs[k])) &&
      forall j :: 0 <= j < k ==> rate(cs[j]) > rate(cs[k]))
  {
    if |cs| > 0 {
      var m := |cs| - 1;
      var front := cs[..m];
      WorstIsLowest(front, rate);
      var w := Worst(front, rate);
      assert forall j :: 0 <= j < m ==> front[j] == cs[j];
      if w.None? || rate(cs[m]) < w.value.1 {
        assert Worst(cs, rate).value == (cs[m], rate(cs[m]));
      } else {
        var k :| 0 <= k < m && w.value == (front[k], rate(front[k])) && forall j :: 0 <= j < k ==> rate(front[j]) > rate(front[k]);
        assert Worst(cs, rate).value == (cs[k], rate(cs[k]));
      }
    }
  }

  /**
   * The leader of a best-of search meets its criterion, rates above zero and
   * at least as high as every candidate that meets the criterion, and no
   * earlier such candidate rates as high; there is no leader exactly when no
   * candidate meeting the criterion rates above zero.
   */
  lemma {:induction false} BestIsHighest(cs: seq<string>, rate: string -> real, meets: string -> bool)
    ensures Best(cs, rate, meets).perm.None? <==> forall j :: 0 <= j < |cs| && meets(cs[j]) ==> rate(cs[j]) <= 0.0
    ensures Best(cs, rate, meets).perm.None? ==> Best(cs, rate, meets).rating == 0.0
    ensures Best(cs, rate, meets).perm.Some? ==> Best(cs, rate, meets).rating > 0.0
    ensures forall j :: 0 <= j < |cs| && meets(cs[j]) ==> rate(cs[j]) <= Best(cs, rate, meets).rating
    ensures Best(cs, rate, meets).perm.Some? ==> exists k :: (0 <= k < |cs| && cs[k] == Best(cs, rate, meets).perm.value &&
      meets(cs[k]) && rate(cs[k]) == Best(cs, rate, meets).rating &&
      forall j :: 0 <= j < k && meets(cs[j]) ==> rate(cs[j]) < rate(cs[k]))
  {
    if |cs| > 0 {
      var m := |cs| - 1;
      var front := cs[..m];
      BestIsHighest(front, rate, meets);
      var b := Best(front, rate, meets);
      assert forall j :: 0 <= j < m ==> front[j] == cs[j];
      if rate(cs[m]) > b.rating && meets(cs[m]) {
        assert Best(cs, rate, meets) == Leader(Some(cs[m]), rate(cs[m]));
      } else if b.perm.Some? {
        var k :| 0 <= k < m && front[k] == b.perm.value && meets(front[k]) && rate(front[k]) == b.rating &&
          forall j :: 0 <= j < k && meets(front[j]) ==> rate(front[j]) < rate(front[k]);
        assert cs[k] == Best(cs, rate, meets).perm.value;
      }
    }
  }

  // ---------------------------------------------------------------------------
  // The list of best arrangements

  /**
   * Where each slot of an insertion comes from: the slots before the first
   * one rated below `r` stay, `(p, r)` takes that slot, and the rest move down
   * one place.
   */
  lemma InsertedSlots(slots: seq<Rated>, p: string, r: real, i: nat)
    requires i == FirstBelow(slots, r, 0)
    ensures forall k :: 0 <= k < i ==> Inserted(slots, p, r)[k] == slots[k]
    ensures i < |slots| ==> Inserted(slots, p, r)[i] == (p, r)
    ensures forall k :: i < k < |slots| ==> Inserted(slots, p, r)[k] == slots[k - 1]
  {
    if i < |slots| {
      var u := Inserted(slots, p, r);
      assert u == slots[..i] + [(p, r)] + slots[i..|slots| - 1];
    }
  }

  /**
   * Inserting keeps the ratings in descending order, and `(p, r)` is in the
   * result unless every slot rates at least `r`.
   */
  lemma InsertedDescending(slots: seq<Rated>, p: string, r: real)
    requires Descending(slots)
    ensures Descending(Inserted(slots, p, r))
    ensures |slots| > 0 && r > slots[|slots| - 1].1 ==> (p, r) in Inserted(slots, p, r)
  {
    InsertedSlots(slots, p, r, FirstBelow(slots, r, 0));
  }

  /**
   * Inserting `(p, r)` loses only the entry of the last slot: every other
   * entry is still in the list.
   */
  lemma InsertedKeeps(slots: seq<Rated>, p: string, r: real)
    ensures forall j :: 0 <= j < |slots| - 1 ==> slots[j] in Inserted(slots, p, r)
  {
    var i := FirstBelow(slots, r, 0);
    var u := Inserted(slots, p, r);
    if i < |slots| {
      forall j | 0 <= j < |slots| - 1
        ensures slots[j] in u
      {
        if j < i {
          assert u[j] == slots[j];
        } else {
          assert u[j + 1] == slots[j];
        }
      }
    }
  }

  /** Offering never lowers the rating of the last slot. */
  lemma InsertedRaisesLast(slots: seq<Rated>, p: string, r: real)
    requires Descending(slots) && |slots| > 0
    ensures Inserted(slots, p, r)[|slots| - 1].1 >= slots[|slots| - 1].1
  {
    InsertedDescending(slots, p, r);
  }

  /** Every candidate of `cs` paired with its rating. */
  function Candidates(cs: seq<string>, rate: string -> real): (rs: seq<Rated>)
    ensures |rs| == |cs|
  {
    seq(|cs|, k requires 0 <= k < |cs| => (cs[k], rate(cs[k])))
  }

  /** Every slot is still empty or holds an entry of `pool`. */
  predicate DrawnFrom(slots: seq<Rated>, pool: seq<Rated>) {
    forall i :: 0 <= i < |slots| ==> slots[i] == ("", 0.0) || slots[i] in pool
  }

  /** Every entry after an insertion was there before or is the new one. */
  lemma InsertedFrom(slots: seq<Rated>, p: string, r: real, pool: seq<Rated>)
    requires DrawnFrom(slots, pool)
    ensures DrawnFrom(Inserted(slots, p, r), pool + [(p, r)])
  {
    var i := FirstBelow(slots, r, 0);
    var u := Inserted(slots, p, r);
    if i < |slots| {
      forall n | 0 <= n < |u|
        ensures u[n] == ("", 0.0) || u[n] in pool + [(p, r)]
      {
        if n == i {
          assert u[n] == (p, r);
        } else {
          assert u[n] == slots[if n < i then n else n - 1];
        }
      }
    }
  }

  /**
   * The corrected list holds ten slots in descending order, and
   * every slot is either still empty or holds a candidate with its rating.
   */
  lemma {:induction false} TopShape(cs: seq<string>, rate: string -> real)
    ensures |Top(cs, rate)| == MaxPermutationsCount
    ensures Descending(Top(cs, rate))
    ensures DrawnFrom(Top(cs, rate), Candidates(cs, rate))
  {
    if |cs| > 0 {
      var m := |cs| - 1;
      var front := cs[..m];
      TopShape(front, rate);
      var t := Top(front, rate);
      InsertedDescending(t, cs[m], rate(cs[m]));
      InsertedFrom(t, cs[m], rate(cs[m]), Candidates(front, rate));
      assert Candidates(cs, rate) == Candidates(front, rate) + [(cs[m], rate(cs[m]))];
    }
  }

  /**
   * Inserting keeps an entry that was in the list, or that rated no higher
   * than its last slot, in the same position with respect to the new list.
   */
  lemma InsertedKeepsBest(slots: seq<Rated>, p: string, r: real, x: Rated)
    requires Descending(slots) && |slots| > 0
    requires x in slots || x.1 <= slots[|slots| - 1].1
    ensures x in Inserted(slots, p, r) || x.1 <= Inserted(slots, p, r)[|slots| - 1].1
  {
    var last := |slots| - 1;
    InsertedKeeps(slots, p, r);
    InsertedRaisesLast(slots, p, r);
    if x in slots {
      var j :| 0 <= j < |slots| && slots[j] == x;
      if j < last {
        assert slots[j] in Inserted(slots, p, r);
      }
    }
  }

  /**
   * No candidate is lost unless the list is full of ratings at least as high:
   * every candidate is in the list or rates no higher than its last slot.
   */
  lemma {:induction false} TopKeepsBest(cs: seq<string>, rate: string -> real)
    ensures forall k :: 0 <= k < |cs| ==>
      (cs[k], rate(cs[k])) in Top(cs, rate) || rate(cs[k]) <= Top(cs, rate)[MaxPermutationsCount - 1].1
  {
    if |cs| > 0 {
      var m := |cs| - 1;
      var front := cs[..m];
      TopKeepsBest(front, rate);
      TopShape(front, rate);
      var t := Top(front, rate);
      var p, r := cs[m], rate(cs[m]);
      assert Top(cs, rate) == Inserted(t, p, r);
      forall k | 0 <= k < |cs|
        ensures (cs[k], rate(cs[k])) in Inserted(t, p, r) || rate(cs[k]) <= Inserted(t, p, r)[MaxPermutationsCount - 1].1
      {
        if k < m {
          assert front[k] == cs[k];
          InsertedKeepsBest(t, p, r, (cs[k], rate(cs[k])));
        } else {
          InsertedDescending(t, p, r);
          InsertedRaisesLast(t, p, r);
        }
      }
    }
  }

  /** The first slot of the list rates at least as high as every candidate. */
  lemma TopLeads(cs: seq<string>, rate: string -> real)
    ensures forall k :: 0 <= k < |cs| ==> rate(cs[k]) <= Top(cs, rate)[0].1
  {
    TopShape(cs, rate);
    TopKeepsBest(cs, rate);
    var t := Top(cs, rate);
    forall k | 0 <= k < |cs|
      ensures rate(cs[k]) <= t[0].1
    {
      if (cs[k], rate(cs[k])) in t {
        var j :| 0 <= j < |t| && t[j] == (cs[k], rate(cs[k]));
        assert t[0].1 >= t[j].1;
      } else {
        assert t[0].1 >= t[MaxPermutationsCount - 1].1;
      }
    }
  }

  /**
   * The list as the loop writes it still keeps ten slots in descending order,
   * and every offer changes at most one slot.
   */
  lemma OfferedAsWrittenDescending(slots: seq<Rated>, p: string, r: real)
    requires Descending(slots)
    ensures |OfferedAsWritten(slots, p, r)| == |slots|
    ensures Descending(OfferedAsWritten(slots, p, r))
    ensures forall j :: 0 <= j < |slots| && OfferedAsWritten(slots, p, r)[j] != slots[j] ==>
      j == FirstBelow(slots, r, 0) && OfferedAsWritten(slots, p, r)[j] == (p, r)
  {
  }

  /** An offer as the loop makes it never lowers the rating of any slot. */
  lemma AsWrittenNeverLowers(slots: seq<Rated>, p: string, r: real)
    ensures forall j :: 0 <= j < |slots| ==> OfferedAsWritten(slots, p, r)[j].1 >= slots[j].1
  {
    var i := FirstBelow(slots, r, 0);
    if i < |slots| {
      assert slots[i].1 < r;
    }
  }

  /** Every entry after an offer as the loop makes it was there before or is the new one. */
  lemma OfferedAsWrittenFrom(slots: seq<Rated>, p: string, r: real, pool: seq<Rated>)
    requires DrawnFrom(slots, pool)
    ensures DrawnFrom(OfferedAsWritten(slots, p, r), pool + [(p, r)])
  {
    var u := OfferedAsWritten(slots, p, r);
    forall n | 0 <= n < |u|
      ensures u[n] == ("", 0.0) || u[n] in pool + [(p, r)]
    {
      if u[n] != slots[n] {
        assert u[n] == (p, r);
      }
    }
  }

  /**
   * The list as the loop writes it holds ten slots in descending order, and
   * every slot is either still empty or holds a candidate with its rating.
   */
  lemma {:induction false} TopAsWrittenShape(cs: seq<string>, rate: string -> real)
    ensures |TopAsWritten(cs, rate)| == MaxPermutationsCount
    ensures Descending(TopAsWritten(cs, rate))
    ensures DrawnFrom(TopAsWritten(cs, rate), Candidates(cs, rate))
  {
    if |cs| > 0 {
      var m := |cs| - 1;
      var front := cs[..m];
      TopAsWrittenShape(front, rate);
      var t := TopAsWritten(front, rate);
      OfferedAsWrittenDescending(t, cs[m], rate(cs[m]));
      OfferedAsWrittenFrom(t, cs[m], rate(cs[m]), Candidates(front, rate));
      assert Candidates(cs, rate) == Candidates(front, rate) + [(cs[m], rate(cs[m]))];
    }
  }

  /**
   * Overwriting and moving down agree on the first slot: the list as the loop
   * writes it starts with the same entry as the list that moves entries down.
   */
  lemma {:induction false} AsWrittenSameLeader(cs: seq<string>, rate: string -> real)
    ensures TopAsWritten(cs, rate)[0] == Top(cs, rate)[0]
  {
    if |cs| > 0 {
      var m := |cs| - 1;
      var front := cs[..m];
      AsWrittenSameLeader(front, rate);
      var t, u := TopAsWritten(front, rate), Top(front, rate);
      var p, r := cs[m], rate(cs[m]);
      InsertedSlots(u, p, r, FirstBelow(u, r, 0));
      if t[0].1 < r {
        assert FirstBelow(t, r, 0) == 0 && FirstBelow(u, r, 0) == 0;
      } else {
        assert FirstBelow(t, r, 0) > 0 && FirstBelow(u, r, 0) > 0;
      }
    }
  }

  /**
   * The first slot of the list as the loop writes it rates at least as high
   * as every candidate, and it holds a candidate unless none rates above zero.
   */
  lemma TopAsWrittenLeads(cs: seq<string>, rate: string -> real)
    ensures forall k :: 0 <= k < |cs| ==> rate(cs[k]) <= TopAsWritten(cs, rate)[0].1
    ensures TopAsWritten(cs, rate)[0] == ("", 0.0) || TopAsWritten(cs, rate)[0] in Candidates(cs, rate)
  {
    AsWrittenSameLeader(cs, rate);
    TopLeads(cs, rate);
    TopAsWrittenShape(cs, rate);
  }

  /** The ratings of the example that shows the loss: today's row rates 1, anything else 2. */
  function RunnerUpRating(s: string): real {
    if s == Current then 1.0 else 2.0
  }

  /**
   * Overwriting instead of moving down loses arrangements that belong in the
   * list: after today's row rated 1 and then an arrangement rated 2, today's
   * row is gone although nine slots are still empty and rated 0, while the
   * list that moves entries down keeps it in the second slot.
   */
  lemma AsWrittenLosesRunnerUp()
    ensures var cs := [Current, "21345 67890"];
      (Current, 1.0) !in TopAsWritten(cs, RunnerUpRating) &&
      TopAsWritten(cs, RunnerUpRating)[MaxPermutationsCount - 1].1 == 0.0 &&
      Top(cs, RunnerUpRating)[1] == (Current, 1.0)
  {
    var cs := [Current, "21345 67890"];
    var rate := RunnerUpRating;
    assert cs[..1][..0] == [] && cs[..|cs| - 1] == cs[..1] && cs[..1][0] == Current;
    assert rate(Current) == 1.0 && rate(cs[1]) == 2.0;
    var none := NoPermutations();
    assert TopAsWritten([], rate) == none && Top([], rate) == none;
    assert FirstBelow(none, 1.0, 0) == 0;
    var once := TopAsWritten(cs[..1], rate);
    assert once == OfferedAsWritten(none, Current, 1.0) == none[0 := (Current, 1.0)];
    assert FirstBelow(once, 2.0, 0) == 0;
    var t := TopAsWritten(cs, rate);
    assert t == OfferedAsWritten(once, cs[1], 2.0) == once[0 := (cs[1], 2.0)];
    assert forall j :: 0 <= j < |t| ==> t[j] != (Current, 1.0);
    var first := Top(cs[..1], rate);
    assert first == Inserted(none, Current, 1.0) == [(Current, 1.0)] + none[..MaxPermutationsCount - 1];
    assert FirstBelow(first, 2.0, 0) == 0;
    assert Top(cs, rate) == Inserted(first, cs[1], 2.0);
  }

  // ---------------------------------------------------------------------------
  // The search loop

  /**
   * The offer to `max_permutations` as written: the first slot rated below `rating` is
   * overwritten with `(p, rating)`.
   */
  method OfferAsWritten(slots: array<Rated>, p: string, rating: real)
    modifies slots
    ensures slots[..] == OfferedAsWritten(old(slots[..]), p, rating)
  {
    for i := 0 to slots.Length
      invariant slots[..] == old(slots[..])
      invariant FirstBelow(slots[..], rating, 0) == FirstBelow(slots[..], rating, i)
    {
      if slots[i].1 < rating {
        slots[i] := (p, rating);
        return;
      }
    }
  }

  /**
   * Offering `(p, rating)` to the corrected list: it goes in
   * before the first slot rated below it, and the slots after move down one
   * place, the last one dropping out.
   */
  method Offer(slots: array<Rated>, p: string, rating: real)
    modifies slots
    ensures slots[..] == Inserted(old(slots[..]), p, rating)
  {
    ghost var before := slots[..];
    var i := 0;
    while i < slots.Length && slots[i].1 >= rating
      invariant 0 <= i <= slots.Length
      invariant FirstBelow(before, rating, 0) == FirstBelow(before, rating, i)
    {
      i := i + 1;
    }
    if i < slots.Length {
      var j := slots.Length - 1;
      while j > i
        invariant i <= j < slots.Length
        invariant forall k :: 0 <= k <= j ==> slots[k] == before[k]
        invariant forall k :: j < k < slots.Length ==> slots[k] == before[k - 1]
      {
        slots[j] := slots[j - 1];
        j := j - 1;
      }
      slots[i] := (p, rating);
      InsertedSlots(before, p, rating, i);
    }
  }

  /**
   * `count_swaps(p) <= MAX_N_SWAPS` for an arrangement of today's
   * row, which never raises.
   */
  method IsWithinSwapBudget(p: string) returns (within: bool)
    requires IsArrangementOf(p, Current)
    ensures within <==> SwapDistance(p, Current) <= MaxNSwaps
    ensures within == WithinSwapBudget(p)
  {
    CurrentDistinct();
    var n := CountSwaps(p, Current);
    within := n.Ok? && n.value <= MaxNSwaps;
  }

  /**
   * The search over all arrangements: one pass over the candidates, each rated once by `rate`,
   * keeping the worst arrangement, the best within two exchanges of today's
   * row, the best that keeps the left-hand digits on the left, and a list of
   * ten slots in which each new rating overwrites the first slot rated below
   * it (so it need not hold the ten best; see `AsWrittenLosesRunnerUp`).  The
   * exchange count is asked for only when the rating beats the current leader.
   */
  method FindOptimal(cs: seq<string>, rate: string -> real)
    returns (worst: Option<Rated>, bestWithinSwaps: Leader, bestKeepingSides: Leader, top: seq<Rated>)
    requires forall i :: 0 <= i < |cs| ==> IsArrangementOf(cs[i], Current)
    ensures worst == Worst(cs, rate)
    ensures bestWithinSwaps == Best(cs, rate, WithinSwapBudget)
    ensures bestKeepingSides == Best(cs, rate, KeepsSides)
    ensures top == TopAsWritten(cs, rate)
  {
    var slots := new Rated[MaxPermutationsCount](_ => ("", 0.0));
    worst := None;
    bestWithinSwaps := Leader(None, 0.0);
    bestKeepingSides := Leader(None, 0.0);
    for k := 0 to |cs|
      invariant worst == Worst(cs[..k], rate)
      invariant bestWithinSwaps == Best(cs[..k], rate, WithinSwapBudget)
      invariant bestKeepingSides == Best(cs[..k], rate, KeepsSides)
      invariant slots[..] == TopAsWritten(cs[..k], rate)
    {
      var p := cs[k];
      assert cs[..k + 1][..k] == cs[..k] && cs[..k + 1][k] == p;
      var rating := rate(p);
      if worst.None? || rating < worst.value.1 {
        worst := Some((p, rating));
      }
      if rating > bestWithinSwaps.rating {
        var within := IsWithinSwapBudget(p);
        if within {
          bestWithinSwaps := Leader(Some(p), rating);
        }
      }
      if rating > bestKeepingSides.rating && KeepsSides(p) {
        bestKeepingSides := Leader(Some(p), rating);
      }
      OfferAsWritten(slots, p, rating);
    }
    assert cs[..|cs|] == cs;
    top := slots[..];
  }
}
