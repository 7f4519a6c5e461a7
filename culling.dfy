/** What remains of a list after a reverse-index loop has spliced out some of
    its entries: the entries whose flag is set, in their original order. */
module Culling {

  /** No object occurs twice in the list. */
  ghost predicate Distinct<T>(s: seq<T>) {
    forall a, b :: 0 <= a < b < |s| ==> s[a] != s[b]
  }

  /** The number of set flags in keep[lo..]. */
  function CountKept(keep: seq<bool>, lo: nat): (n: nat)
    requires lo <= |keep|
    ensures n <= |keep| - lo
    decreases |keep| - lo
  {
    if lo == |keep| then 0 else (if keep[lo] then 1 else 0) + CountKept(keep, lo + 1)
  }

  /** The entries of xs[lo..] whose flag in keep is set, in order. */
  function Kept<T>(xs: seq<T>, keep: seq<bool>, lo: nat): (r: seq<T>)
    requires |keep| == |xs| && lo <= |xs|
    ensures |r| == CountKept(keep, lo)
    decreases |xs| - lo
  {
    if lo == |xs| then []
    else (if keep[lo] then [xs[lo]] else []) + Kept(xs, keep, lo + 1)
  }

  /** The positions in keep[lo..] whose flag is set, ascending. */
  function KeptIndices(keep: seq<bool>, lo: nat): (idx: seq<nat>)
    requires lo <= |keep|
    decreases |keep| - lo
  {
    if lo == |keep| then []
    else (if keep[lo] then [lo] else []) + KeptIndices(keep, lo + 1)
  }

  /** Every position KeptIndices(keep, lo) lists is a flagged one from lo on. */
  lemma {:induction false} KeptIndicesFlagged(keep: seq<bool>, lo: nat)
    requires lo <= |keep|
    ensures forall j :: 0 <= j < |KeptIndices(keep, lo)| ==>
      lo <= KeptIndices(keep, lo)[j] < |keep| && keep[KeptIndices(keep, lo)[j]]
    decreases |keep| - lo
  {
    if lo < |keep| {
      KeptIndicesFlagged(keep, lo + 1);
      var idx', idx := KeptIndices(keep, lo + 1), KeptIndices(keep, lo);
      if keep[lo] {
        assert idx == [lo] + idx';
        forall j | 0 <= j < |idx|
          ensures lo <= idx[j] < |keep| && keep[idx[j]]
        {
          if j > 0 {
            assert idx[j] == idx'[j - 1];
          }
        }
      } else {
        assert idx == idx';
      }
    }
  }

  /** The list is strictly ascending. */
  ghost predicate Ascending(s: seq<nat>) {
    forall j1, j2 :: 0 <= j1 < j2 < |s| ==> s[j1] < s[j2]
  }

  /** Putting a position below all of an ascending list's in front of it
      keeps it ascending. */
  lemma AscendingCons(lo: nat, s: seq<nat>)
    requires Ascending(s) && forall j :: 0 <= j < |s| ==> lo < s[j]
    ensures Ascending([lo] + s)
  {
    var t := [lo] + s;
    forall j1, j2 | 0 <= j1 < j2 < |t|
      ensures t[j1] < t[j2]
    {
      assert t[j2] == s[j2 - 1];
      if j1 > 0 {
        assert t[j1] == s[j1 - 1];
      }
    }
  }

  /** KeptIndices(keep, lo) is strictly ascending. */
  lemma {:induction false} KeptIndicesAscending(keep: seq<bool>, lo: nat)
    requires lo <= |keep|
    ensures Ascending(KeptIndices(keep, lo))
    decreases |keep| - lo
  {
    if lo < |keep| {
      KeptIndicesAscending(keep, lo + 1);
      var idx' := KeptIndices(keep, lo + 1);
      if keep[lo] {
        KeptIndicesFlagged(keep, lo + 1);
        AscendingCons(lo, idx');
        assert KeptIndices(keep, lo) == [lo] + idx';
      } else {
        assert KeptIndices(keep, lo) == idx';
      }
    }
  }

  /** Every flagged position from lo on is listed in KeptIndices(keep, lo). */
  lemma {:induction false} KeptIndicesComplete(keep: seq<bool>, lo: nat)
    requires lo <= |keep|
    ensures forall k :: lo <= k < |keep| && keep[k] ==> k in KeptIndices(keep, lo)
    decreases |keep| - lo
  {
    if lo < |keep| {
      KeptIndicesComplete(keep, lo + 1);
      var idx', idx := KeptIndices(keep, lo + 1), KeptIndices(keep, lo);
      if keep[lo] {
        assert idx == [lo] + idx';
      } else {
        assert idx == idx';
      }
    }
  }

  /** Kept(xs, keep, lo) is xs read at the positions KeptIndices(keep, lo). */
  lemma {:induction false} KeptAt<T>(xs: seq<T>, keep: seq<bool>, lo: nat)
    requires |keep| == |xs| && lo <= |xs|
    ensures var r, idx := Kept(xs, keep, lo), KeptIndices(keep, lo);
      && |idx| == |r|
      && forall j :: 0 <= j < |idx| ==> lo <= idx[j] < |xs| && r[j] == xs[idx[j]]
    decreases |xs| - lo
  {
    if lo < |xs| {
      KeptAt(xs, keep, lo + 1);
      var r', idx' := Kept(xs, keep, lo + 1), KeptIndices(keep, lo + 1);
      var r, idx := Kept(xs, keep, lo), KeptIndices(keep, lo);
      if keep[lo] {
        assert r == [xs[lo]] + r';
        assert idx == [lo] + idx';
        forall j | 0 <= j < |idx|
          ensures lo <= idx[j] < |xs| && r[j] == xs[idx[j]]
        {
          if j > 0 {
            assert idx[j] == idx'[j - 1] && r[j] == r'[j - 1];
          }
        }
      } else {
        assert r == r';
        assert idx == idx';
      }
    }
  }

  /** Kept(xs, keep, lo) is xs read at the ascending positions
      KeptIndices(keep, lo), which are exactly the positions from lo on whose
      flag is set: nothing flagged is lost, nothing unflagged survives, and the
      survivors keep their relative order. */
  lemma KeptByIndex<T>(xs: seq<T>, keep: seq<bool>, lo: nat)
    requires |keep| == |xs| && lo <= |xs|
    ensures var r, idx := Kept(xs, keep, lo), KeptIndices(keep, lo);
      && |idx| == |r|
      && (forall j :: 0 <= j < |idx| ==> lo <= idx[j] < |xs| && keep[idx[j]] && r[j] == xs[idx[j]])
      && (forall j1, j2 :: 0 <= j1 < j2 < |idx| ==> idx[j1] < idx[j2])
      && (forall k :: lo <= k < |xs| && keep[k] ==> k in idx)
  {
    KeptIndicesFlagged(keep, lo);
    KeptIndicesAscending(keep, lo);
    KeptIndicesComplete(keep, lo);
    KeptAt(xs, keep, lo);
  }

  /** One iteration of a reverse-index loop at position i: the entries above
      i are already culled; splicing out entry i when its flag is clear, and
      leaving it when set, extends the culled part down to i. */
  lemma SpliceStep<T>(xs: seq<T>, keep: seq<bool>, i: nat, cur: seq<T>)
    requires |keep| == |xs| && i < |xs|
    requires cur == xs[..i + 1] + Kept(xs, keep, i + 1)
    ensures i < |cur| && cur[i] == xs[i]
    ensures keep[i] ==> cur == xs[..i] + Kept(xs, keep, i)
    ensures !keep[i] ==> cur[..i] + cur[i + 1..] == xs[..i] + Kept(xs, keep, i)
  {
    var rest := Kept(xs, keep, i + 1);
    assert xs[..i + 1] == xs[..i] + [xs[i]];
    assert cur == xs[..i] + ([xs[i]] + rest);
    if keep[i] {
      assert Kept(xs, keep, i) == [xs[i]] + rest;
    } else {
      assert Kept(xs, keep, i) == rest;
      assert cur[..i] == xs[..i];
      assert cur[i + 1..] == rest;
    }
  }

  /** An entry survives exactly when one of its occurrences is flagged. */
  lemma KeptMember<T>(xs: seq<T>, keep: seq<bool>, lo: nat, y: T)
    requires |keep| == |xs| && lo <= |xs|
    ensures y in Kept(xs, keep, lo) <==> exists k :: lo <= k < |xs| && keep[k] && xs[k] == y
  {
    KeptByIndex(xs, keep, lo);
    var r, idx := Kept(xs, keep, lo), KeptIndices(keep, lo);
    if y in r {
      var j :| 0 <= j < |r| && r[j] == y;
      assert keep[idx[j]] && xs[idx[j]] == y;
    }
    if k :| lo <= k < |xs| && keep[k] && xs[k] == y {
      assert k in idx;
      var j :| 0 <= j < |idx| && idx[j] == k;
      assert r[j] == y;
    }
  }

  /** Splicing entries out of a list without repeats leaves a list without repeats. */
  lemma KeptDistinct<T>(xs: seq<T>, keep: seq<bool>, lo: nat)
    requires |keep| == |xs| && lo <= |xs|
    requires Distinct(xs)
    ensures Distinct(Kept(xs, keep, lo))
  {
    KeptByIndex(xs, keep, lo);
  }
}
