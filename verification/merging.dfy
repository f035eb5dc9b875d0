/** Stable merging of sequences under a comparison function. */
module Merging {

  /** What sorting needs of a comparator: `cmp(a, b) <= 0` is a total preorder. */
  ghost predicate TotalPreorder<T(!new)>(cmp: (T, T) -> int) {
    && (forall a, b :: cmp(a, b) <= 0 || cmp(b, a) <= 0)
    && (forall a, b, c :: cmp(a, b) <= 0 && cmp(b, c) <= 0 ==> cmp(a, c) <= 0)
  }

  ghost predicate Sorted<T>(cmp: (T, T) -> int, s: seq<T>) {
    forall i, j :: 0 <= i < j < |s| ==> cmp(s[i], s[j]) <= 0
  }

  predicate Ties<T>(cmp: (T, T) -> int, x: T, y: T) {
    cmp(x, y) <= 0 && cmp(y, x) <= 0
  }

  /** The entries that tie with x, in their order. */
  function Tied<T>(cmp: (T, T) -> int, s: seq<T>, x: T): seq<T> {
    if |s| == 0 then []
    else (if Ties(cmp, s[0], x) then [s[0]] else []) + Tied(cmp, s[1..], x)
  }

  /** `t` is `s` rearranged so that ties keep their order. */
  ghost predicate StablePermutation<T(!new)>(cmp: (T, T) -> int, s: seq<T>, t: seq<T>) {
    forall x :: Tied(cmp, s, x) == Tied(cmp, t, x)
  }

  /** Of two heads that tie, the first sequence's goes first. */
  function Merge<T>(cmp: (T, T) -> int, a: seq<T>, b: seq<T>): seq<T>
    decreases |a| + |b|
  {
    if |a| == 0 then b
    else if |b| == 0 then a
    else if cmp(a[0], b[0]) <= 0 then [a[0]] + Merge(cmp, a[1..], b)
    else [b[0]] + Merge(cmp, a, b[1..])
  }

  lemma {:induction false} TiedAppend<T>(cmp: (T, T) -> int, s: seq<T>, t: seq<T>, x: T)
    ensures Tied(cmp, s + t, x) == Tied(cmp, s, x) + Tied(cmp, t, x)
  {
    if s == [] {
      assert s + t == t;
    } else {
      assert (s + t)[0] == s[0] && (s + t)[1..] == s[1..] + t;
      TiedAppend(cmp, s[1..], t, x);
    }
  }

  lemma {:induction false} NoneTied<T>(cmp: (T, T) -> int, s: seq<T>, x: T)
    requires forall i :: 0 <= i < |s| ==> !Ties(cmp, s[i], x)
    ensures Tied(cmp, s, x) == []
  {
    if s != [] {
      NoneTied(cmp, s[1..], x);
    }
  }

  /** Every entry of a merge comes from one of its parts. */
  lemma {:induction false} MergeFrom<T>(cmp: (T, T) -> int, a: seq<T>, b: seq<T>)
    ensures |Merge(cmp, a, b)| == |a| + |b|
    ensures forall x :: x in Merge(cmp, a, b) ==> x in a || x in b
    decreases |a| + |b|
  {
    if a != [] && b != [] {
      if cmp(a[0], b[0]) <= 0 {
        MergeFrom(cmp, a[1..], b);
      } else {
        MergeFrom(cmp, a, b[1..]);
      }
    }
  }

  lemma AllAtLeast<T(!new)>(cmp: (T, T) -> int, y: T, s: seq<T>, x: T)
    requires TotalPreorder(cmp) && Sorted(cmp, s) && x in s && cmp(y, s[0]) <= 0
    ensures cmp(y, x) <= 0
  {
    var i :| 0 <= i < |s| && s[i] == x;
    assert i > 0 ==> cmp(s[0], s[i]) <= 0;
  }

  lemma SortedCons<T>(cmp: (T, T) -> int, y: T, s: seq<T>)
    requires Sorted(cmp, s) && forall x :: x in s ==> cmp(y, x) <= 0
    ensures Sorted(cmp, [y] + s)
  {
  }

  lemma {:induction false} MergeSorted<T(!new)>(cmp: (T, T) -> int, a: seq<T>, b: seq<T>)
    requires TotalPreorder(cmp) && Sorted(cmp, a) && Sorted(cmp, b)
    ensures Sorted(cmp, Merge(cmp, a, b))
    decreases |a| + |b|
  {
    if a != [] && b != [] {
      if cmp(a[0], b[0]) <= 0 {
        var rest := Merge(cmp, a[1..], b);
        MergeSorted(cmp, a[1..], b);
        MergeFrom(cmp, a[1..], b);
        forall x | x in rest ensures cmp(a[0], x) <= 0 {
          if x in b {
            AllAtLeast(cmp, a[0], b, x);
          } else {
            assert x in a[1..];
          }
        }
        SortedCons(cmp, a[0], rest);
      } else {
        var rest := Merge(cmp, a, b[1..]);
        MergeSorted(cmp, a, b[1..]);
        MergeFrom(cmp, a, b[1..]);
        forall x | x in rest ensures cmp(b[0], x) <= 0 {
          if x in a {
            AllAtLeast(cmp, b[0], a, x);
          } else {
            assert x in b[1..];
          }
        }
        SortedCons(cmp, b[0], rest);
      }
    }
  }

  lemma TiedCons<T>(cmp: (T, T) -> int, y: T, s: seq<T>, x: T)
    ensures Tied(cmp, [y] + s, x) == (if Ties(cmp, y, x) then [y] else []) + Tied(cmp, s, x)
  {
    assert ([y] + s)[1..] == s;
  }

  /** Nothing that follows b's head in the merge is tied with it from a. */
  lemma NoneTiedAbove<T(!new)>(cmp: (T, T) -> int, a: seq<T>, y: T, x: T)
    requires TotalPreorder(cmp) && Sorted(cmp, a) && a != [] && cmp(a[0], y) > 0 && Ties(cmp, y, x)
    ensures Tied(cmp, a, x) == []
  {
    forall i | 0 <= i < |a| ensures !Ties(cmp, a[i], x) {
      assert i > 0 ==> cmp(a[0], a[i]) <= 0;
    }
    NoneTied(cmp, a, x);
  }

  /** The second sequence's head y is taken. */
  lemma SecondTaken<T(!new)>(cmp: (T, T) -> int, a: seq<T>, y: T, rest: seq<T>, x: T)
    requires TotalPreorder(cmp) && Sorted(cmp, a) && a != [] && cmp(a[0], y) > 0
    requires Tied(cmp, Merge(cmp, a, rest), x) == Tied(cmp, a, x) + Tied(cmp, rest, x)
    ensures Tied(cmp, [y] + Merge(cmp, a, rest), x) == Tied(cmp, a, x) + Tied(cmp, [y] + rest, x)
  {
    TiedCons(cmp, y, Merge(cmp, a, rest), x);
    TiedCons(cmp, y, rest, x);
    if Ties(cmp, y, x) {
      NoneTiedAbove(cmp, a, y, x);
      assert [] + Tied(cmp, rest, x) == Tied(cmp, rest, x);
    }
  }

  /** Merging is stable: ties of the first sequence come before those of the second. */
  lemma {:induction false} MergeStable<T(!new)>(cmp: (T, T) -> int, a: seq<T>, b: seq<T>, x: T)
    requires TotalPreorder(cmp) && Sorted(cmp, a) && Sorted(cmp, b)
    ensures Tied(cmp, Merge(cmp, a, b), x) == Tied(cmp, a, x) + Tied(cmp, b, x)
    decreases |a| + |b|
  {
    if a != [] && b != [] {
      if cmp(a[0], b[0]) <= 0 {
        MergeStable(cmp, a[1..], b, x);
        TiedCons(cmp, a[0], Merge(cmp, a[1..], b), x);
      } else {
        MergeStable(cmp, a, b[1..], x);
        SecondTaken(cmp, a, b[0], b[1..], x);
        assert b == [b[0]] + b[1..];
      }
    }
  }

  /** A prefix that is nowhere above the second sequence's head is taken first. */
  lemma {:induction false} MergePrefix<T>(cmp: (T, T) -> int, s: seq<T>, a: seq<T>, b: seq<T>)
    requires b != [] && forall i :: 0 <= i < |s| ==> cmp(s[i], b[0]) <= 0
    ensures Merge(cmp, s + a, b) == s + Merge(cmp, a, b)
  {
    if s == [] {
      assert s + a == a;
    } else {
      assert (s + a)[0] == s[0] && (s + a)[1..] == s[1..] + a;
      MergePrefix(cmp, s[1..], a, b);
    }
  }

  /** Sequences already in order are merged by appending. */
  lemma {:induction false} MergeInOrder<T>(cmp: (T, T) -> int, a: seq<T>, b: seq<T>)
    requires Sorted(cmp, a + b)
    ensures Merge(cmp, a, b) == a + b
  {
    if a == [] || b == [] {
    } else {
      forall i | 0 <= i < |a| ensures cmp(a[i], b[0]) <= 0 {
        assert (a + b)[i] == a[i] && (a + b)[|a|] == b[0];
      }
      MergePrefix(cmp, a, [], b);
      assert a + [] == a;
    }
  }

  lemma {:induction false} TiedCount<T(!new)>(cmp: (T, T) -> int, s: seq<T>, x: T)
    requires TotalPreorder(cmp)
    ensures multiset(Tied(cmp, s, x))[x] == multiset(s)[x]
  {
    if s != [] {
      TiedCount(cmp, s[1..], x);
      assert s == [s[0]] + s[1..];
      var rest := Tied(cmp, s[1..], x);
      assert cmp(x, x) <= 0;
      assert multiset([s[0]] + rest) == multiset{s[0]} + multiset(rest);
    }
  }

  /** Rearranging in this sense neither loses nor adds an entry. */
  lemma StableIsPermutation<T(!new)>(cmp: (T, T) -> int, s: seq<T>, t: seq<T>)
    requires TotalPreorder(cmp) && StablePermutation(cmp, s, t)
    ensures multiset(s) == multiset(t)
  {
    forall x ensures multiset(s)[x] == multiset(t)[x] {
      TiedCount(cmp, s, x);
      TiedCount(cmp, t, x);
    }
  }
}
