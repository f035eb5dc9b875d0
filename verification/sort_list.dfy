/** sort_list: the bottom-up merge sort of a whole list (sort.c). */
module SortList {
  import opened Merging
  import opened SortMerge
  import opened PtrList
  import opened Runs
  import opened ArraySorting
  import opened Sort

  // ---------------------------------------------------------------------------
  // Sorting every node
  // ---------------------------------------------------------------------------

  lemma NodeStable<T>(cmp: (T, T) -> int, d: seq<seq<T>>, p: nat, y: seq<T>, x: T)
    requires p < |d| && Tied(cmp, d[p], x) == Tied(cmp, y, x)
    ensures Tied(cmp, Concat(d[p := y]), x) == Tied(cmp, Concat(d), x)
  {
    var before, after := Concat(d[..p]), Concat(d[p + 1..]);
    WholeSplit(d, p);
    RefilledConcat(d, p, y);
    TiedThree(cmp, before, d[p], after, x);
    TiedThree(cmp, before, y, after, x);
  }

  lemma TiedThree<T>(cmp: (T, T) -> int, a: seq<T>, b: seq<T>, c: seq<T>, x: T)
    ensures Tied(cmp, a + (b + c), x) == Tied(cmp, a, x) + (Tied(cmp, b, x) + Tied(cmp, c, x))
  {
    TiedAppend(cmp, a, b + c, x);
    TiedAppend(cmp, b, c, x);
  }

  method SortNode<T(!new)>(l: ListNode<T>, cmp: (T, T) -> int, ghost r: seq<ListNode<T>>, ghost p: nat)
    requires TotalPreorder(cmp) && Ring(r) && p < |r| && r[p] == l
    modifies l.list
    ensures Ring(r) && Data(r) == old(Data(r))[p := Items(l)] && Sorted(cmp, Items(l))
    ensures StablePermutation(cmp, Concat(old(Data(r))), Concat(Data(r)))
  {
    ghost var d := Data(r);
    DataAt(r, p);
    ArraySort(l.list, l.nr, cmp);
    ghost var y := Items(l);
    SeparatePairs(r);
    forall j | 0 <= j < |r| ensures d[p := y][j] == Items(r[j]) {
    }
    DataIs(r, d[p := y]);
    forall x ensures Tied(cmp, Concat(d), x) == Tied(cmp, Concat(d[p := y]), x) {
      assert Tied(cmp, d[p], x) == Tied(cmp, y, x);
      NodeStable(cmp, d, p, y, x);
    }
  }

  /** The nodes before the i-th are sorted, and ties are in their old order. */
  ghost predicate SortedTo<T(!new)>(cmp: (T, T) -> int, d0: seq<seq<T>>, d: seq<seq<T>>, i: nat) {
    && (forall j :: 0 <= j < i && j < |d| ==> Sorted(cmp, d[j]))
    && StablePermutation(cmp, Concat(d0), Concat(d))
  }

  lemma SortedOneMore<T(!new)>(cmp: (T, T) -> int, d0: seq<seq<T>>, d: seq<seq<T>>, d': seq<seq<T>>, i: nat, i': nat,
                               y: seq<T>)
    requires SortedTo(cmp, d0, d, i) && i < |d| && i' == i + 1 && d' == d[i := y] && Sorted(cmp, y)
    requires StablePermutation(cmp, Concat(d), Concat(d'))
    ensures SortedTo(cmp, d0, d', i')
  {
  }

  method SortOneMore<T(!new)>(list: ListNode<T>, cmp: (T, T) -> int, ghost d0: seq<seq<T>>, ghost r: seq<ListNode<T>>,
                              ghost i: nat)
    returns (next: ListNode<T>, ghost i': nat)
    requires TotalPreorder(cmp) && Ring(r) && i < |r| && r[i] == list && SortedTo(cmp, d0, Data(r), i)
    modifies Arrays(r)
    ensures Ring(r) && i' == i + 1 && SortedTo(cmp, d0, Data(r), i')
    ensures if next == r[0] then i' == |r| else i' < |r| && r[i'] == next
  {
    ghost var d := Data(r);
    ListInArrays(r, i, list);
    SortNode(list, cmp, r, i);
    next := list.next;
    i' := i + 1;
    SortedOneMore(cmp, d0, d, Data(r), i, i', Items(list));
    NextOrHead(r, i, i', next);
  }

  /** Behind the last node comes the head again, and only there. */
  lemma NextOrHead<T>(r: seq<ListNode<T>>, i: nat, i': nat, next: ListNode<T>)
    requires Separate(r) && i < |r| && i' == i + 1 && next == r[Succ(r, i)]
    ensures if next == r[0] then i' == |r| else i' < |r| && r[i'] == next
  {
    SeparatePairs(r);
    assert i' < |r| ==> r[0] != r[i'];
  }

  method SortNodes<T(!new)>(head: ListNode<T>, cmp: (T, T) -> int, ghost r: seq<ListNode<T>>, ghost one: nat)
    requires TotalPreorder(cmp) && Ring(r) && r[0] == head && one == 1
    modifies Arrays(r)
    ensures Ring(r) && RunsFrom(cmp, Data(r), one, 0)
    ensures StablePermutation(cmp, Concat(old(Data(r))), Concat(Data(r)))
  {
    var list := head;
    ghost var i, d0 := 0, Data(r);
    while true
      invariant Ring(r) && i < |r| && r[i] == list && SortedTo(cmp, d0, Data(r), i)
      decreases |r| - i
    {
      list, i := SortOneMore(list, cmp, d0, r, i);
      if list == head {
        break;
      }
    }
    NodesAreRuns(cmp, Data(r), 0, one);
  }

  // ---------------------------------------------------------------------------
  // One pass
  // ---------------------------------------------------------------------------

  /** `blocks` nodes on from block1, unless the list ends first. */
  method FindSecond<T>(block1: ListNode<T>, head: ListNode<T>, blocks: nat, ghost r: seq<ListNode<T>>, ghost k: nat,
                        ghost q: nat)
    returns (found: bool, block2: ListNode<T>)
    requires Linked(r) && Separate(r) && k < |r| && r[k] == block1 && r[0] == head && blocks > 0 && q == k + blocks
    ensures found <==> q < |r|
    ensures found ==> block2 == r[q]
    ensures Data(r) == old(Data(r))
  {
    SeparatePairs(r);
    block2 := block1;
    for i := 0 to blocks
      invariant k + i < |r| && block2 == r[k + i]
    {
      block2 := block2.next;
      if block2 == head {
        return false, block2;
      }
    }
    found := true;
  }

  /** The end of the second run: at most `blocks` nodes on, or at the list's end. */
  method FindNext<T>(block2: ListNode<T>, head: ListNode<T>, blocks: nat, ghost r: seq<ListNode<T>>, ghost q: nat)
    returns (next: ListNode<T>, i: nat, ghost e: nat)
    requires Linked(r) && Separate(r) && q < |r| && r[q] == block2 && r[0] == head && blocks > 0
    ensures i > 0 && e == q + i == Min(q + blocks, |r|)
    ensures next == if e < |r| then r[e] else head
    ensures Data(r) == old(Data(r))
  {
    SeparatePairs(r);
    next, i := block2, 0;
    while i < blocks
      invariant i <= blocks && q + i < |r| && next == r[q + i]
    {
      next := next.next;
      i := i + 1;
      if next == head {
        break;
      }
    }
    e := q + i;
  }

  lemma ShuffledIsMerged<T>(cmp: (T, T) -> int, r: seq<ListNode<T>>, d: seq<seq<T>>, t: seq<ListNode<T>>,
                            d': seq<seq<T>>, k: nat, q: nat, e: nat)
    requires Shuffled(r, d, t, d', k, e) && k <= q <= e
    requires Concat(d'[k..e]) == Merge(cmp, Concat(d[k..q]), Concat(d[q..e]))
    ensures Merged(cmp, d, d', k, q, e)
    ensures (k > 0 ==> t[0] == r[0]) && (e < |r| ==> t[e] == r[e])
  {
    forall j | 0 <= j < k || e <= j < |r| ensures d'[j] == d[j] && t[j] == r[j] {
      assert SameAt(r, d, t, d', j);
    }
    assert d'[..k] == d[..k] && d'[e..] == d[e..];
  }

  /** Merge the run at k with the one after it. */
  method MergePair<T(!new)>(block1: ListNode<T>, blocks: nat, block2: ListNode<T>, i: nat, cmp: (T, T) -> int,
                            ghost r: seq<ListNode<T>>, ghost k: nat, ghost q: nat, ghost e: nat, ghost c: nat)
    returns (newhead: ListNode<T>, ghost t: seq<ListNode<T>>)
    requires TotalPreorder(cmp) && Ring(r) && PassAt(cmp, Data(r), blocks, k) && c == 2 * blocks
    requires q == k + blocks < |r| && e == Min(q + blocks, |r|) == q + i && r[k] == block1 && r[q] == block2
    modifies Nodes(r)`prev, Nodes(r)`next, Arrays(r)
    ensures Ring(t) && |t| == |r| && Nodes(t) == Nodes(r) && Arrays(t) == Arrays(r)
    ensures newhead == t[k] && (k > 0 ==> t[0] == r[0]) && (e < |r| ==> t[e] == r[e])
    ensures if e < |r| then PassAt(cmp, Data(t), blocks, e) else RunsFrom(cmp, Data(t), c, 0)
    ensures k == 0 && e == |r| ==> Sorted(cmp, Concat(Data(t)))
    ensures StablePermutation(cmp, Concat(old(Data(r))), Concat(Data(t)))
  {
    ghost var d := Data(r);
    PassRuns(cmp, d, blocks, k, q, e);
    newhead, t := MergeBlockSeqs(block1, blocks, block2, i, cmp, r, k, q, e);
    ShuffledIsMerged(cmp, r, d, t, Data(t), k, q, e);
    PairMerged(cmp, d, Data(t), blocks, c, k, q, e);
  }

  /** The rest of an iteration, once the second run is found. When the merge takes in
      the whole list, the old head may end up within it, and the pass goes on from there. */
  method MergeNext<T(!new)>(block1: ListNode<T>, start: ListNode<T>, block2: ListNode<T>, blocks: nat,
                            cmp: (T, T) -> int, ghost r: seq<ListNode<T>>, ghost k: nat, ghost q: nat, ghost c: nat)
    returns (head: ListNode<T>, next: ListNode<T>, ghost t: seq<ListNode<T>>, ghost k': nat)
    requires TotalPreorder(cmp) && Ring(r) && r[0] == start && blocks > 0 && c == 2 * blocks
    requires PassAt(cmp, Data(r), blocks, k) && q == k + blocks < |r| && r[k] == block1 && r[q] == block2
    modifies Nodes(r)`prev, Nodes(r)`next, Arrays(r)
    ensures Ring(t) && |t| == |r| && Nodes(t) == Nodes(r) && Arrays(t) == Arrays(r) && t[0] == head
    ensures next == head ==> RunsFrom(cmp, Data(t), c, 0)
    ensures next != head ==> k < k' < |t| && t[k'] == next && PassAt(cmp, Data(t), blocks, k')
    ensures StablePermutation(cmp, Concat(old(Data(r))), Concat(Data(t)))
  {
    var i;
    ghost var e;
    next, i, e := FindNext(block2, start, blocks, r, q);
    k' := k;
    SameHead(r, k, block1, start);
    var newhead;
    newhead, t := MergePair(block1, blocks, block2, i, cmp, r, k, q, e, c);
    head := if block1 == start then newhead else start;
    if e < |r| {
      k' := e;
      SameHead(t, e, next, head);
    } else if next != head {
      InNodes(r, 0);
      k' := WhereInNodes(t, next);
      SameHead(t, k', next, head);
      assert k == 0;
    }
  }

  lemma SameHead<T>(r: seq<ListNode<T>>, k: nat, b: ListNode<T>, head: ListNode<T>)
    requires Separate(r) && k < |r| && r[k] == b && r[0] == head
    ensures b == head <==> k == 0
  {
    SeparatePairs(r);
  }

  lemma InNodes<T>(r: seq<ListNode<T>>, i: nat)
    requires i < |r|
    ensures r[i] in Nodes(r)
  {
  }

  lemma WhereInNodes<T>(r: seq<ListNode<T>>, b: ListNode<T>) returns (i: nat)
    requires b in Nodes(r)
    ensures i < |r| && r[i] == b
  {
    i :| i < |r| && r[i] == b;
  }

  /** One pass over the list: runs of `blocks` nodes become runs of twice as many. */
  method Pass<T(!new)>(start: ListNode<T>, blocks: nat, cmp: (T, T) -> int, ghost r: seq<ListNode<T>>, ghost c: nat)
    returns (head: ListNode<T>, done: bool, ghost t: seq<ListNode<T>>)
    requires TotalPreorder(cmp) && Ring(r) && r[0] == start && blocks > 0 && c == 2 * blocks
    requires RunsFrom(cmp, Data(r), blocks, 0)
    modifies Nodes(r)`prev, Nodes(r)`next, Arrays(r)
    ensures Ring(t) && |t| == |r| && Nodes(t) == Nodes(r) && Arrays(t) == Arrays(r) && t[0] == head
    ensures done <==> |r| <= blocks
    ensures if done then Sorted(cmp, Concat(Data(t))) else RunsFrom(cmp, Data(t), c, 0)
    ensures StablePermutation(cmp, Concat(old(Data(r))), Concat(Data(t)))
  {
    head, done, t := start, false, r;
    var block1 := head;
    ghost var k, d0 := 0, Data(r);
    while true
      invariant Ring(t) && |t| == |r| && Nodes(t) == Nodes(r) && Arrays(t) == Arrays(r) && t[0] == head
      invariant k < |t| && t[k] == block1 && PassAt(cmp, Data(t), blocks, k)
      invariant k == 0 ==> RunsFrom(cmp, Data(t), blocks, k)
      invariant |r| <= blocks ==> k == 0
      invariant StablePermutation(cmp, Concat(d0), Concat(Data(t)))
      decreases |r| - k
    {
      SameHead(t, k, block1, head);
      ghost var q := k + blocks;
      var found, block2 := FindSecond(block1, head, blocks, t, k, q);
      if !found {
        if block1 == head {
          OneRun(cmp, Data(t), blocks, k);
          done := true;
        } else {
          PassDone(cmp, Data(t), blocks, c, k);
        }
        return;
      }
      head, block1, t, k := MergeNext(block1, head, block2, blocks, cmp, t, k, q, c);
      if block1 == head {
        return;
      }
    }
  }

  /** sort_list: the list comes back sorted, ties in their old order. The nodes are the
      same, and none has more or fewer entries than before. */
  method SortList<T(!new)>(list: ListNode?<T>, cmp: (T, T) -> int, ghost r: seq<ListNode<T>>)
    returns (head: ListNode?<T>, ghost t: seq<ListNode<T>>)
    requires TotalPreorder(cmp) && (list != null ==> Ring(r) && r[0] == list)
    modifies Nodes(r)`prev, Nodes(r)`next, Arrays(r)
    ensures list == null ==> head == null
    ensures list != null ==> Ring(t) && head == t[0] && |t| == |r| && Nodes(t) == Nodes(r)
    ensures list != null ==> Sorted(cmp, Concat(Data(t)))
    ensures list != null ==> StablePermutation(cmp, Concat(old(Data(r))), Concat(Data(t)))
  {
    head, t := list, r;
    if head == null {
      return;
    }
    var first: ListNode<T> := head;
    var blocks := 1;
    SortNodes(first, cmp, r, blocks);
    ghost var d0 := old(Data(r));
    while true
      invariant Ring(t) && |t| == |r| && Nodes(t) == Nodes(r) && Arrays(t) == Arrays(r) && t[0] == first
      invariant blocks > 0 && RunsFrom(cmp, Data(t), blocks, 0)
      invariant StablePermutation(cmp, Concat(d0), Concat(Data(t)))
      decreases if |r| <= blocks then 0 else |r| - blocks
    {
      ghost var c := 2 * blocks;
      var done;
      first, done, t := Pass(first, blocks, cmp, t, c);
      head := first;
      if done {
        return;
      }
      blocks := 2 * blocks;
    }
  }
}
