/** The runs of nodes that a bottom-up merge sort works on. */
module Runs {
  import opened Merging
  import opened SortMerge

  function Min(a: int, b: int): int {
    if a < b then a else b
  }

  /** From i on, every stretch of b nodes is sorted. */
  ghost predicate RunsFrom<T>(cmp: (T, T) -> int, d: seq<seq<T>>, b: nat, i: nat)
    decreases |d| - i
  {
    b > 0 && (i < |d| ==> Sorted(cmp, Concat(d[i..Min(i + b, |d|)])) && RunsFrom(cmp, d, b, i + b))
  }

  /** Up to k, every stretch of b nodes is sorted. */
  ghost predicate RunsTo<T>(cmp: (T, T) -> int, d: seq<seq<T>>, b: nat, k: nat) {
    b > 0 && k <= |d| && (k > 0 ==> k >= b && Sorted(cmp, Concat(d[k - b..k])) && RunsTo(cmp, d, b, k - b))
  }

  lemma {:induction false} RunsGlue<T>(cmp: (T, T) -> int, d: seq<seq<T>>, b: nat, k: nat)
    requires RunsTo(cmp, d, b, k) && RunsFrom(cmp, d, b, k)
    ensures RunsFrom(cmp, d, b, 0)
  {
    if k > 0 {
      assert Min(k - b + b, |d|) == k;
      RunsGlue(cmp, d, b, k - b);
    }
  }

  lemma {:induction false} RunsToSame<T>(cmp: (T, T) -> int, d: seq<seq<T>>, d': seq<seq<T>>, b: nat, k: nat)
    requires RunsTo(cmp, d, b, k) && k <= |d'| && d'[..k] == d[..k]
    ensures RunsTo(cmp, d', b, k)
  {
    if k > 0 {
      assert d'[k - b..k] == d'[..k][k - b..] == d[..k][k - b..] == d[k - b..k];
      assert d'[..k - b] == d'[..k][..k - b] == d[..k][..k - b] == d[..k - b];
      RunsToSame(cmp, d, d', b, k - b);
    }
  }

  lemma {:induction false} RunsFromSame<T>(cmp: (T, T) -> int, d: seq<seq<T>>, d': seq<seq<T>>, b: nat, i: nat)
    requires RunsFrom(cmp, d, b, i) && |d'| == |d| && forall j :: i <= j < |d| ==> d'[j] == d[j]
    ensures RunsFrom(cmp, d', b, i)
    decreases |d| - i
  {
    if i < |d| {
      var e := Min(i + b, |d|);
      assert d'[i..e] == d[i..e];
      RunsFromSame(cmp, d, d', b, i + b);
    }
  }

  lemma SortedStretch<T>(cmp: (T, T) -> int, d: seq<seq<T>>, lo: nat, hi: nat)
    requires lo <= hi <= |d| && Sorted(cmp, Concat(d))
    ensures Sorted(cmp, Concat(d[lo..hi]))
  {
    ConcatSplit(d, 0, lo, |d|);
    ConcatSplit(d, lo, hi, |d|);
    assert d[0..|d|] == d;
    SortedPart(cmp, Concat(d[0..lo]), Concat(d[lo..hi]), Concat(d[hi..|d|]));
  }

  lemma {:induction false} SortedRuns<T>(cmp: (T, T) -> int, d: seq<seq<T>>, b: nat, i: nat)
    requires b > 0 && Sorted(cmp, Concat(d))
    ensures RunsFrom(cmp, d, b, i)
    decreases |d| - i
  {
    if i < |d| {
      SortedStretch(cmp, d, i, Min(i + b, |d|));
      SortedRuns(cmp, d, b, i + b);
    }
  }

  lemma {:induction false} NodesAreRuns<T>(cmp: (T, T) -> int, d: seq<seq<T>>, i: nat, b: nat)
    requires b == 1 && forall j :: i <= j < |d| ==> Sorted(cmp, d[j])
    ensures RunsFrom(cmp, d, b, i)
    decreases |d| - i
  {
    if i < |d| {
      ConcatOne(d, i);
      NodesAreRuns(cmp, d, i + 1, b);
    }
  }

  lemma OneRun<T>(cmp: (T, T) -> int, d: seq<seq<T>>, b: nat, i: nat)
    requires RunsFrom(cmp, d, b, i) && i == 0 && |d| <= b
    ensures Sorted(cmp, Concat(d))
  {
    if |d| > 0 {
      assert Min(i + b, |d|) == |d| && d[i..|d|] == d;
    }
  }

  /** The stretches from k to q and from q to e were merged, and nothing else changed. */
  ghost predicate Merged<T>(cmp: (T, T) -> int, d: seq<seq<T>>, d': seq<seq<T>>, k: nat, q: nat, e: nat) {
    && |d'| == |d| && k <= q <= e <= |d| && d'[..k] == d[..k] && d'[e..] == d[e..]
    && Concat(d'[k..e]) == Merge(cmp, Concat(d[k..q]), Concat(d[q..e]))
  }

  /** What a merge does to all entries. */
  lemma MergedAll<T>(cmp: (T, T) -> int, d: seq<seq<T>>, d': seq<seq<T>>, k: nat, q: nat, e: nat,
                     before: seq<T>, a: seq<T>, b: seq<T>, after: seq<T>)
    requires Merged(cmp, d, d', k, q, e)
    requires before == Concat(d[..k]) && a == Concat(d[k..q]) && b == Concat(d[q..e]) && after == Concat(d[e..])
    ensures Concat(d) == before + ((a + b) + after)
    ensures Concat(d') == before + (Merge(cmp, a, b) + after)
  {
    assert d[..k] == d[0..k] && d[e..] == d[e..|d|] && d == d[0..|d|];
    ConcatSplit(d, 0, k, |d|);
    ConcatSplit(d, k, e, |d|);
    ConcatSplit(d, k, q, e);
    assert d'[..k] == d'[0..k] && d'[e..] == d'[e..|d|] && d' == d'[0..|d|];
    ConcatSplit(d', 0, k, |d|);
    ConcatSplit(d', k, e, |d|);
  }

  /** A merge of sorted runs keeps ties in order. */
  lemma MergedStable<T(!new)>(cmp: (T, T) -> int, d: seq<seq<T>>, d': seq<seq<T>>, k: nat, q: nat, e: nat, x: T)
    requires TotalPreorder(cmp) && Merged(cmp, d, d', k, q, e)
    requires Sorted(cmp, Concat(d[k..q])) && Sorted(cmp, Concat(d[q..e]))
    ensures Tied(cmp, Concat(d'), x) == Tied(cmp, Concat(d), x)
  {
    var before, a, b, after := Concat(d[..k]), Concat(d[k..q]), Concat(d[q..e]), Concat(d[e..]);
    var m := Merge(cmp, a, b);
    MergedAll(cmp, d, d', k, q, e, before, a, b, after);
    MergeStable(cmp, a, b, x);
    TiedAppend(cmp, a, b, x);
    TiedAppend(cmp, a + b, after, x);
    TiedAppend(cmp, m, after, x);
    TiedAppend(cmp, before, (a + b) + after, x);
    TiedAppend(cmp, before, m + after, x);
  }

  /** A merge within a list that is sorted leaves the entries as they are. */
  lemma MergedInOrder<T>(cmp: (T, T) -> int, d: seq<seq<T>>, d': seq<seq<T>>, k: nat, q: nat, e: nat)
    requires Merged(cmp, d, d', k, q, e) && Sorted(cmp, Concat(d))
    ensures Concat(d') == Concat(d)
  {
    var before, a, b, after := Concat(d[..k]), Concat(d[k..q]), Concat(d[q..e]), Concat(d[e..]);
    MergedAll(cmp, d, d', k, q, e, before, a, b, after);
    SortedPart(cmp, before, a + b, after);
    MergeInOrder(cmp, a, b);
  }

  /** In a pass, the runs before k were merged in pairs. */
  ghost predicate InPass<T>(cmp: (T, T) -> int, d: seq<seq<T>>, b: nat, k: nat) {
    RunsTo(cmp, d, 2 * b, k) && RunsFrom(cmp, d, b, k)
  }

  lemma TwoRuns<T>(cmp: (T, T) -> int, d: seq<seq<T>>, b: nat, k: nat, q: nat, e: nat)
    requires RunsFrom(cmp, d, b, k) && q == k + b < |d| && e == Min(q + b, |d|)
    ensures Sorted(cmp, Concat(d[k..q])) && Sorted(cmp, Concat(d[q..e])) && RunsFrom(cmp, d, b, e)
  {
    assert Min(k + b, |d|) == q;
  }

  /** After the last merge of a pass, one run is left from k on. */
  lemma LastRun<T>(cmp: (T, T) -> int, d: seq<seq<T>>, c: nat, k: nat)
    requires c > 0 && RunsTo(cmp, d, c, k) && k < |d| <= k + c && Sorted(cmp, Concat(d[k..|d|]))
    ensures RunsFrom(cmp, d, c, 0)
  {
    var next := k + c;
    assert Min(next, |d|) == |d| && RunsFrom(cmp, d, c, next);
    RunsGlue(cmp, d, c, k);
  }

  /** One merge of a pass. */
  lemma PassStep<T(!new)>(cmp: (T, T) -> int, d: seq<seq<T>>, d': seq<seq<T>>, b: nat, c: nat, k: nat, q: nat, e: nat)
    requires TotalPreorder(cmp) && InPass(cmp, d, b, k) && q == k + b < |d| && e == Min(q + b, |d|) && c == 2 * b
    requires Merged(cmp, d, d', k, q, e)
    ensures if e < |d| then InPass(cmp, d', b, e) else RunsFrom(cmp, d', c, 0)
    ensures k == 0 && e == |d| ==> Sorted(cmp, Concat(d'))
  {
    TwoRuns(cmp, d, b, k, q, e);
    MergeSorted(cmp, Concat(d[k..q]), Concat(d[q..e]));
    RunsToSame(cmp, d, d', c, k);
    if e < |d| {
      forall j | e <= j < |d| ensures d'[j] == d[j] {
        assert d'[j] == d'[e..][j - e] && d[j] == d[e..][j - e];
      }
      RunsFromSame(cmp, d, d', b, e);
      assert e - c == k && RunsTo(cmp, d', c, e);
    } else {
      LastRun(cmp, d', c, k);
      assert d'[0..|d|] == d';
    }
  }

  /** What is left at the end of a pass is one run. */
  lemma PassEnd<T>(cmp: (T, T) -> int, d: seq<seq<T>>, b: nat, k: nat)
    requires InPass(cmp, d, b, k) && |d| <= k + b
    ensures RunsFrom(cmp, d, 2 * b, 0)
  {
    if k < |d| {
      assert Min(k + b, |d|) == |d|;
      LastRun(cmp, d, 2 * b, k);
    } else {
      RunsGlue(cmp, d, 2 * b, k);
    }
  }

  /** Where a pass stands before the run at k: the runs before it are merged, or the
      whole list is sorted already. */
  ghost predicate PassAt<T>(cmp: (T, T) -> int, d: seq<seq<T>>, b: nat, k: nat) {
    b > 0 && k <= |d| && (InPass(cmp, d, b, k) || (k > 0 && Sorted(cmp, Concat(d))))
  }

  lemma PassRuns<T>(cmp: (T, T) -> int, d: seq<seq<T>>, b: nat, k: nat, q: nat, e: nat)
    requires PassAt(cmp, d, b, k) && q == k + b < |d| && e == Min(q + b, |d|)
    ensures Sorted(cmp, Concat(d[k..q])) && Sorted(cmp, Concat(d[q..e]))
  {
    if Sorted(cmp, Concat(d)) {
      SortedStretch(cmp, d, k, q);
      SortedStretch(cmp, d, q, e);
    } else {
      assert InPass(cmp, d, b, k);
      TwoRuns(cmp, d, b, k, q, e);
    }
  }

  /** A merge in a pass: what comes next, for a list that is still being merged and for
      one that is sorted already. */
  lemma PairMerged<T(!new)>(cmp: (T, T) -> int, d: seq<seq<T>>, d': seq<seq<T>>, b: nat, c: nat, k: nat, q: nat, e: nat)
    requires TotalPreorder(cmp) && PassAt(cmp, d, b, k) && q == k + b < |d| && e == Min(q + b, |d|) && c == 2 * b
    requires Merged(cmp, d, d', k, q, e)
    ensures StablePermutation(cmp, Concat(d), Concat(d'))
    ensures if e < |d| then PassAt(cmp, d', b, e) else RunsFrom(cmp, d', c, 0)
    ensures k == 0 && e == |d| ==> Sorted(cmp, Concat(d'))
  {
    PassRuns(cmp, d, b, k, q, e);
    forall x ensures Tied(cmp, Concat(d), x) == Tied(cmp, Concat(d'), x) {
      MergedStable(cmp, d, d', k, q, e, x);
    }
    if Sorted(cmp, Concat(d)) {
      MergedInOrder(cmp, d, d', k, q, e);
      SortedRuns(cmp, d', c, 0);
    } else {
      PassStep(cmp, d, d', b, c, k, q, e);
    }
  }

  lemma PassDone<T>(cmp: (T, T) -> int, d: seq<seq<T>>, b: nat, c: nat, k: nat)
    requires PassAt(cmp, d, b, k) && |d| <= k + b && c == 2 * b
    ensures RunsFrom(cmp, d, c, 0)
  {
    if Sorted(cmp, Concat(d)) {
      SortedRuns(cmp, d, c, 0);
    } else {
      PassEnd(cmp, d, b, k);
    }
  }
}
