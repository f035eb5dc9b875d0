/** array_sort: the insertion sort of one node's entries (sort.c). */
module ArraySorting {
  import opened Merging

  /** `t` is `s` with p put in before the entries from j on, all of which are above p. */
  ghost predicate Inserted<T>(cmp: (T, T) -> int, s: seq<T>, p: T, j: nat, t: seq<T>) {
    && j <= |s| && t == s[..j] + [p] + s[j..]
    && (forall h :: j <= h < |s| ==> cmp(s[h], p) > 0)
  }

  lemma Through<T(!new)>(cmp: (T, T) -> int, x: T, y: T, z: T)
    requires TotalPreorder(cmp) && cmp(x, y) <= 0 && cmp(y, z) <= 0
    ensures cmp(x, z) <= 0
  {
  }

  lemma NotAbove<T(!new)>(cmp: (T, T) -> int, x: T, y: T)
    requires TotalPreorder(cmp) && cmp(x, y) > 0
    ensures cmp(y, x) <= 0
  {
  }

  /** Two entries of `t`, where p is no lower than those before it and no higher than
      those behind. */
  lemma InsertedPair<T>(cmp: (T, T) -> int, s: seq<T>, p: T, j: nat, t: seq<T>, a: nat, b: nat)
    requires Sorted(cmp, s) && j <= |s| && t == s[..j] + [p] + s[j..] && a < b < |t|
    requires forall h {:trigger s[h]} :: 0 <= h < |s| ==> if h < j then cmp(s[h], p) <= 0 else cmp(p, s[h]) <= 0
    ensures cmp(t[a], t[b]) <= 0
  {
    var x, y := t[a], t[b];
    assert x == if a < j then s[a] else if a == j then p else s[a - 1];
    assert y == if b < j then s[b] else if b == j then p else s[b - 1];
  }

  lemma InsertedSorted<T(!new)>(cmp: (T, T) -> int, s: seq<T>, p: T, j: nat, t: seq<T>)
    requires TotalPreorder(cmp) && Sorted(cmp, s) && Inserted(cmp, s, p, j, t) && (j > 0 ==> cmp(s[j - 1], p) <= 0)
    ensures Sorted(cmp, t)
  {
    forall h {:trigger s[h]} | 0 <= h < |s| ensures if h < j then cmp(s[h], p) <= 0 else cmp(p, s[h]) <= 0 {
      if h >= j {
        NotAbove(cmp, s[h], p);
      } else if h < j - 1 {
        Through(cmp, s[h], s[j - 1], p);
      }
    }
    forall a, b | 0 <= a < b < |t| ensures cmp(t[a], t[b]) <= 0 {
      InsertedPair(cmp, s, p, j, t, a, b);
    }
  }

  lemma NoneAboveTies<T(!new)>(cmp: (T, T) -> int, above: seq<T>, p: T, x: T)
    requires TotalPreorder(cmp) && (forall h :: 0 <= h < |above| ==> cmp(above[h], p) > 0) && Ties(cmp, p, x)
    ensures Tied(cmp, above, x) == []
  {
    forall h | 0 <= h < |above| ensures !Ties(cmp, above[h], x) {
      assert cmp(above[h], p) > 0;
    }
    NoneTied(cmp, above, x);
  }

  /** Only entries above p were passed, so none that ties with p. */
  lemma InsertedStable<T(!new)>(cmp: (T, T) -> int, s: seq<T>, p: T, j: nat, t: seq<T>, x: T)
    requires TotalPreorder(cmp) && Inserted(cmp, s, p, j, t)
    ensures Tied(cmp, t, x) == Tied(cmp, s + [p], x)
  {
    var below, above, one := s[..j], s[j..], [p];
    var tb, ta, tp := Tied(cmp, below, x), Tied(cmp, above, x), Tied(cmp, one, x);
    assert Tied(cmp, t, x) == tb + tp + ta by {
      TiedAppend(cmp, below + one, above, x);
      TiedAppend(cmp, below, one, x);
    }
    assert Tied(cmp, s + one, x) == tb + ta + tp by {
      assert s == below + above;
      TiedAppend(cmp, s, one, x);
      TiedAppend(cmp, below, above, x);
    }
    if Ties(cmp, p, x) {
      NoneAboveTies(cmp, above, p, x);
      assert tb + tp + [] == tb + [] + tp;
    } else {
      assert one[1..] == [] && Tied(cmp, one[1..], x) == [];
      assert tp == [];
      assert tb + [] + ta == tb + ta + [];
    }
  }

  /** Ordering the first entries and leaving the rest keeps the whole's ties. */
  lemma PrefixStable<T>(cmp: (T, T) -> int, s: seq<T>, s': seq<T>, t: seq<T>, x: T)
    requires Tied(cmp, s, x) == Tied(cmp, s', x)
    ensures Tied(cmp, s + t, x) == Tied(cmp, s' + t, x)
  {
    TiedAppend(cmp, s, t, x);
    TiedAppend(cmp, s', t, x);
  }

  /** Move the entries above p up by one. */
  method ShiftUp<T>(a: array<T>, i: nat, p: T, cmp: (T, T) -> int, ghost s: seq<T>) returns (j: nat)
    requires 0 < i < a.Length && s == a[..] && cmp(a[i - 1], p) > 0
    modifies a
    ensures j < i && (j > 0 ==> cmp(s[j - 1], p) <= 0) && (forall h {:trigger s[h]} :: j <= h < i ==> cmp(s[h], p) > 0)
    ensures forall h {:trigger a[h]} :: 0 <= h < a.Length && h != j ==> a[h] == if j < h <= i then s[h - 1] else s[h]
  {
    j := i;
    while true
      invariant 0 < j <= i && cmp(s[j - 1], p) > 0 && (forall h {:trigger s[h]} :: j <= h < i ==> cmp(s[h], p) > 0)
      invariant forall h {:trigger a[h]} :: 0 <= h < a.Length && h != j ==>
                  a[h] == if j < h <= i then s[h - 1] else s[h]
      decreases j
    {
      a[j] := a[j - 1];
      j := j - 1;
      if j == 0 || cmp(a[j - 1], p) <= 0 {
        break;
      }
    }
  }

  lemma ShiftedIsInserted<T>(cmp: (T, T) -> int, s: seq<T>, i: nat, p: T, j: nat, t: seq<T>)
    requires j <= i < |s| == |t| && forall h {:trigger s[h]} :: j <= h < i ==> cmp(s[h], p) > 0
    requires forall h {:trigger t[h]} :: 0 <= h < |s| ==>
               t[h] == if h == j then p else if j < h <= i then s[h - 1] else s[h]
    ensures Inserted(cmp, s[..i], p, j, t[..i + 1]) && t[i + 1..] == s[i + 1..]
  {
    assert s[..i][j..] == s[j..i];
    assert t[..i + 1] == s[..i][..j] + [p] + s[j..i];
  }

  /** Move the entry at i down to its place among the first i, which are sorted. */
  method Insert<T(!new)>(a: array<T>, i: nat, cmp: (T, T) -> int)
    requires TotalPreorder(cmp) && 0 < i < a.Length && Sorted(cmp, a[..i])
    modifies a
    ensures Sorted(cmp, a[..i + 1]) && StablePermutation(cmp, old(a[..i + 1]), a[..i + 1])
    ensures a[i + 1..] == old(a[i + 1..])
  {
    ghost var s := a[..];
    ghost var low := s[..i];
    var p, j := a[i], i;
    if cmp(a[i - 1], p) > 0 {
      j := ShiftUp(a, i, p, cmp, s);
      a[j] := p;
    }
    ghost var t := a[..i + 1];
    ShiftedIsInserted(cmp, s, i, p, j, a[..]);
    assert t == a[..][..i + 1] && s[..i + 1] == low + [p];
    assert j > 0 ==> cmp(low[j - 1], p) <= 0;
    InsertedSorted(cmp, low, p, j, t);
    forall x ensures Tied(cmp, low + [p], x) == Tied(cmp, t, x) {
      InsertedStable(cmp, low, p, j, t, x);
    }
  }

  /** array_sort: sort the first `nr` entries in place, keeping ties in order. */
  method ArraySort<T(!new)>(a: array<T>, nr: nat, cmp: (T, T) -> int)
    requires TotalPreorder(cmp) && nr <= a.Length
    modifies a
    ensures Sorted(cmp, a[..nr]) && StablePermutation(cmp, old(a[..nr]), a[..nr])
    ensures a[nr..] == old(a[nr..])
  {
    ghost var s := a[..nr];
    var i := 1;
    while i < nr
      invariant 0 < i && (i <= nr || nr == 0) && (nr > 0 ==> Sorted(cmp, a[..i]))
      invariant StablePermutation(cmp, s, a[..nr]) && a[nr..] == old(a[nr..])
      decreases nr - i
    {
      ghost var u, v := a[..i + 1], a[i + 1..nr];
      ghost var rest := a[i + 1..];
      assert a[..nr] == u + v && rest[nr - (i + 1)..] == a[nr..] && rest[..nr - (i + 1)] == v;
      Insert(a, i, cmp);
      assert a[nr..] == rest[nr - (i + 1)..];
      assert a[..nr] == a[..i + 1] + v;
      forall x ensures Tied(cmp, s, x) == Tied(cmp, a[..nr], x) {
        PrefixStable(cmp, u, a[..i + 1], v, x);
      }
      i := i + 1;
    }
  }
}
