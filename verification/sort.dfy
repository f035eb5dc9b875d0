/** sort_list: an in-place, stable, bottom-up merge sort of an unrolled list
    (sort.c). */
module Sort {
  import opened Options
  import opened Merging
  import opened SortMerge
  import opened PtrList

  // ---------------------------------------------------------------------------
  // The buffer
  // ---------------------------------------------------------------------------

  /** What a method must know to touch node r[p] and leave the other nodes alone. */
  ghost predicate OwnBuffer<T>(r: seq<ListNode<T>>, p: nat, b: ListNode<T>, buffer: array<T>)
    reads r`nr
  {
    Separate(r) && Filled(r) && p < |r| && r[p] == b && buffer !in Arrays(r)
  }

  lemma DataIs<T>(r: seq<ListNode<T>>, d: seq<seq<T>>)
    requires |d| == |r| && forall j :: 0 <= j < |r| ==> d[j] == Items(r[j])
    ensures Data(r) == d
  {
  }

  method CopyFront<T>(list: array<T>, buffer: array<T>, nr: nat)
    requires list != buffer && nr <= list.Length && nr <= buffer.Length
    modifies list
    ensures list[..nr] == buffer[..nr]
  {
    forall i | 0 <= i < nr {
      list[i] := buffer[i];
    }
  }

  method MoveUp<T>(buffer: array<T>, nr: nat, left: nat, ghost buf: seq<T>)
    requires nr + left <= buffer.Length && buf == buffer[..nr + left]
    modifies buffer
    ensures buffer[..left] == buf[nr..]
  {
    forall i | 0 <= i < left {
      buffer[i] := buffer[nr + i];
    }
  }

  /** FLUSH_TO: the node takes the front of the buffer, and the rest moves up. */
  method FlushTo<T>(b: ListNode<T>, buffer: array<T>, nbuf: nat, ghost buf: seq<T>, ghost r: seq<ListNode<T>>,
                    ghost p: nat)
    returns (left: nat)
    requires OwnBuffer(r, p, b, buffer) && b.nr <= nbuf <= buffer.Length && buf == buffer[..nbuf]
    modifies b.list, buffer
    ensures left == nbuf - b.nr && buffer[..left] == buf[b.nr..]
    ensures Data(r) == old(Data(r))[p := buf[..b.nr]]
    ensures Filled(r) && (old(Linked(r)) ==> Linked(r))
  {
    var nr := b.nr;
    ghost var d, x := Data(r), buf[..nr];
    SeparatePairs(r);
    CopyFront(b.list, buffer, nr);
    left := nbuf - nr;
    MoveUp(buffer, nr, left, buf);
    assert b.list[..nr] == x;
    forall j | 0 <= j < |r| ensures d[p := x][j] == Items(r[j]) {
      assert r[j].list in Arrays(r);
    }
    DataIs(r, d[p := x]);
  }

  /** DUMP_TO: the buffer goes to the front of a node that was read that far. */
  method DumpTo<T>(b: ListNode<T>, buffer: array<T>, nbuf: nat, ghost r: seq<ListNode<T>>, ghost p: nat)
    requires OwnBuffer(r, p, b, buffer) && nbuf <= b.nr && nbuf <= buffer.Length
    modifies b.list
    ensures Data(r) == old(Data(r))[p := old(buffer[..nbuf]) + old(Items(b))[nbuf..]]
    ensures Filled(r) && (old(Linked(r)) ==> Linked(r))
  {
    ghost var d, x := Data(r), buffer[..nbuf] + Items(b)[nbuf..];
    SeparatePairs(r);
    forall i | 0 <= i < nbuf {
      b.list[i] := buffer[i];
    }
    assert b.list[..b.nr] == x;
    forall j | 0 <= j < |r| ensures d[p := x][j] == Items(r[j]) {
    }
    DataIs(r, d[p := x]);
  }

  // ---------------------------------------------------------------------------
  // Moving a node
  // ---------------------------------------------------------------------------

  function Without<T>(r: seq<T>, q: nat): seq<T>
    requires q < |r|
  {
    r[..q] + r[q + 1..]
  }

  /** Taking the q-th node out and putting it back before the p-th one. */
  function Reinserted<T>(r: seq<T>, p: nat, q: nat): seq<T>
    requires p < q < |r|
  {
    Without(r, q)[..p] + [r[q]] + Without(r, q)[p..]
  }

  lemma ReinsertedIsMoved<T>(r: seq<T>, p: nat, q: nat)
    requires p < q < |r|
    ensures MovedAs(r, Reinserted(r, p, q), p, q, r[q])
  {
  }

  lemma MovedMembers<T>(r: seq<T>, t: seq<T>, p: nat, q: nat)
    requires p < q < |r| && MovedAs(r, t, p, q, r[q])
    ensures forall n :: n in t <==> n in r
  {
    forall n | n in r ensures n in t {
      var i :| 0 <= i < |r| && r[i] == n;
      assert t[if i < p || i > q then i else if i == q then p else i + 1] == n;
    }
    forall n | n in t ensures n in r {
      var i :| 0 <= i < |t| && t[i] == n;
      assert r[if i < p || i > q then i else if i == p then q else i - 1] == n;
    }
  }

  lemma MovedSeparate<T>(r: seq<ListNode<T>>, t: seq<ListNode<T>>, p: nat, q: nat)
    requires Separate(r) && p < q < |r| && MovedAs(r, t, p, q, r[q])
    ensures Separate(t) && Arrays(t) == Arrays(r)
  {
    SeparatePairs(r);
    MovedMembers(r, t, p, q);
    forall i, j | 0 <= i < j < |t| ensures t[i] != t[j] && t[i].list != t[j].list {
      var i' := if i < p || i > q then i else if i == p then q else i - 1;
      var j' := if j < p || j > q then j else if j == p then q else j - 1;
      assert i' != j' && t[i] == r[i'] && t[j] == r[j'];
    }
    forall i | 0 <= i < |t| ensures t[i].list.Length == LIST_NODE_NR {
      assert t[i] in r;
    }
    UpToPairs(t, |t|);
  }

  lemma MovedFilled<T>(r: seq<ListNode<T>>, t: seq<ListNode<T>>, p: nat, q: nat)
    requires p < q < |r| && MovedAs(r, t, p, q, r[q]) && Filled(r)
    ensures Filled(t)
  {
    forall i | 0 <= i < |t| ensures t[i].nr <= LIST_NODE_NR {
      assert t[i] == r[if i < p || i > q then i else if i == p then q else i - 1];
    }
  }

  lemma MovedData<T>(r: seq<ListNode<T>>, t: seq<ListNode<T>>, d: seq<seq<T>>, p: nat, q: nat)
    requires p < q < |r| == |d| && MovedAs(r, t, p, q, r[q]) && forall i :: 0 <= i < |r| ==> d[i] == Items(r[i])
    ensures MovedAs(d, Data(t), p, q, d[q])
  {
  }

  /** The links of a ring without the node at q. */
  lemma PulledOut<T>(r: seq<ListNode<T>>, q: nat, s: seq<ListNode<T>>)
    requires 0 < q < |r| && s == Without(r, q)
    requires r[Succ(r, q)].prev == r[q - 1] && r[q - 1].next == r[Succ(r, q)]
    requires forall i {:trigger r[i].next} :: 0 <= i < |r| && i != q - 1 && i != q ==> r[i].next == r[Succ(r, i)]
    requires forall i {:trigger r[i].prev} :: 0 <= i < |r| && i != Succ(r, q) && i != q ==> r[i].prev == r[Pred(r, i)]
    ensures Linked(s)
  {
    forall i {:trigger s[i].next} | 0 <= i < |s| ensures s[i].next == s[Succ(s, i)] {
      var j := if i < q then i else i + 1;
      assert s[i] == r[j] && r[j].next == r[if j == q - 1 then Succ(r, q) else Succ(r, j)];
      assert s[Succ(s, i)] == r[if j == q - 1 then Succ(r, q) else Succ(r, j)];
    }
    forall i {:trigger s[i].prev} | 0 <= i < |s| ensures s[i].prev == s[Pred(s, i)] {
      var j := if i < q then i else i + 1;
      assert s[i] == r[j] && r[j].prev == r[if j == Succ(r, q) then q - 1 else Pred(r, j)];
      assert s[Pred(s, i)] == r[if j == Succ(r, q) then q - 1 else Pred(r, j)];
    }
  }

  /** Take the node at q out of the ring. Its own links stay. */
  method Unlink<T>(l: ListNode<T>, ghost r: seq<ListNode<T>>, ghost q: nat) returns (b2: ListNode<T>)
    requires Linked(r) && Separate(r) && 0 < q < |r| && r[q] == l
    modifies r`prev, r`next
    ensures Linked(Without(r, q)) && b2 == r[Succ(r, q)]
  {
    SeparatePairs(r);
    b2 := l.next;
    b2.prev := l.prev;
    b2.prev.next := b2;
    PulledOut(r, q, Without(r, q));
  }

  /** The links of a ring with a node plugged in before the one at p. */
  lemma PluggedIn<T>(s: seq<ListNode<T>>, l: ListNode<T>, p: nat, t: seq<ListNode<T>>)
    requires p < |s| && t == s[..p] + [l] + s[p..]
    requires s[p].prev == l && s[Pred(s, p)].next == l && l.next == s[p] && l.prev == s[Pred(s, p)]
    requires forall i {:trigger s[i].next} :: 0 <= i < |s| && i != Pred(s, p) ==> s[i].next == s[Succ(s, i)]
    requires forall i {:trigger s[i].prev} :: 0 <= i < |s| && i != p ==> s[i].prev == s[Pred(s, i)]
    ensures Linked(t)
  {
    forall i {:trigger t[i].next} | 0 <= i < |t| ensures t[i].next == t[Succ(t, i)] {
      if i != p {
        var j := if i < p then i else i - 1;
        assert t[i] == s[j];
        assert s[j].next == if j == Pred(s, p) then l else s[Succ(s, j)];
      }
    }
    forall i {:trigger t[i].prev} | 0 <= i < |t| ensures t[i].prev == t[Pred(t, i)] {
      if i != p {
        var j := if i < p then i else i - 1;
        assert t[i] == s[j];
        assert s[j].prev == if j == p then l else s[Pred(s, j)];
      }
    }
  }

  /** Plug a node into the ring before the one at p. */
  method PlugIn<T>(l: ListNode<T>, b1: ListNode<T>, ghost s: seq<ListNode<T>>, ghost p: nat)
    requires Linked(s) && p < |s| && s[p] == b1 && l !in s
    requires forall i, j :: 0 <= i < j < |s| ==> s[i] != s[j]
    modifies s`prev, s`next, l`prev, l`next
    ensures Linked(s[..p] + [l] + s[p..])
  {
    l.next := b1;
    l.prev := b1.prev;
    l.next.prev := l;
    l.prev.next := l;
    ghost var t, c := s[..p] + [l] + s[p..], Pred(s, p);
    assert b1.prev == l && s[c].next == l && l.next == b1 && l.prev == s[c];
    assert forall i {:trigger s[i].next} :: 0 <= i < |s| && i != c ==> s[i].next == s[Succ(s, i)];
    assert forall i {:trigger s[i].prev} :: 0 <= i < |s| && i != p ==> s[i].prev == s[Pred(s, i)];
    PluggedIn(s, l, p, t);
  }

  /** Pull the node at q out of the ring and plug it in before the one at p. */
  method MoveBefore<T>(l: ListNode<T>, b1: ListNode<T>, ghost r: seq<ListNode<T>>, ghost p: nat, ghost q: nat)
    returns (b2: ListNode<T>, ghost t: seq<ListNode<T>>)
    requires Linked(r) && Separate(r) && p < q < |r| && r[p] == b1 && r[q] == l
    modifies r`prev, r`next
    ensures MovedAs(r, t, p, q, l) && Linked(t) && b2 == r[Succ(r, q)]
  {
    b2 := Unlink(l, r, q);
    SeparatePairs(r);
    assert Without(r, q)[p] == b1;
    PlugIn(l, b1, Without(r, q), p);
    t := Reinserted(r, p, q);
    ReinsertedIsMoved(r, p, q);
  }

  // ---------------------------------------------------------------------------
  // Merging two runs
  // ---------------------------------------------------------------------------

  /** What the ring from k to e will hold when the two runs are merged. */
  ghost function RingOutcome<T>(cmp: (T, T) -> int, r: seq<ListNode<T>>, buffer: array<T>, nbuf: nat, k: nat, e: nat,
                                s: Cursor): Option<seq<T>>
    reads r, Arrays(r), buffer
  {
    if Ring(r) && buffer !in Arrays(r) && buffer.Length == 2 * LIST_NODE_NR && nbuf <= buffer.Length
    then Outcome(cmp, Data(r), k, e, s, buffer[..nbuf])
    else None
  }

  /** Two runs of the ring are being merged. */
  ghost predicate InMerge<T>(cmp: (T, T) -> int, r: seq<ListNode<T>>, buffer: array<T>, nbuf: nat, k: nat, e: nat,
                             s: Cursor, target: seq<T>)
    reads r, Arrays(r), buffer
  {
    RingOutcome(cmp, r, buffer, nbuf, k, e, s) == Some(target)
  }

  lemma InMergeIs<T>(cmp: (T, T) -> int, r: seq<ListNode<T>>, buffer: array<T>, nbuf: nat, k: nat, e: nat, s: Cursor,
                     target: seq<T>, d: seq<seq<T>>, buf: seq<T>)
    requires Ring(r) && buffer !in Arrays(r) && buffer.Length == 2 * LIST_NODE_NR && nbuf <= buffer.Length
    requires d == Data(r) && buf == buffer[..nbuf] && MergeState(cmp, d, k, e, s, buf, target)
    ensures InMerge(cmp, r, buffer, nbuf, k, e, s, target)
  {
  }

  /** The j-th node and its entries are as they were. */
  ghost predicate SameAt<T>(r0: seq<ListNode<T>>, d0: seq<seq<T>>, r: seq<ListNode<T>>, d: seq<seq<T>>, j: nat) {
    j < |r0| && j < |d0| && j < |r| && j < |d| && r[j] == r0[j] && d[j] == d0[j]
  }

  /** From r0 to r the nodes between k and e changed places, and no others. */
  ghost predicate Shuffled<T>(r0: seq<ListNode<T>>, d0: seq<seq<T>>, r: seq<ListNode<T>>, d: seq<seq<T>>, k: nat,
                              e: nat) {
    && |r| == |r0| == |d0| == |d| && k <= e <= |r|
    && (forall j :: 0 <= j < k || e <= j < |r| ==> SameAt(r0, d0, r, d, j))
    && Nodes(r) == Nodes(r0)
  }

  lemma ShuffledByMove<T>(r: seq<ListNode<T>>, t: seq<ListNode<T>>, d: seq<seq<T>>, d': seq<seq<T>>, k: nat, e: nat,
                          p: nat, q: nat, x: seq<T>)
    requires k <= p < q < e <= |r| == |d| && MovedAs(r, t, p, q, r[q]) && MovedAs(d, d', p, q, x)
    ensures Shuffled(r, d, t, d', k, e)
  {
    MovedMembers(r, t, p, q);
  }

  /** Pull the second run's node out and plug it in before the first run's. */
  method PullOut<T>(l: ListNode<T>, b1: ListNode<T>, ghost r: seq<ListNode<T>>, ghost p: nat, ghost q: nat)
    returns (b2: ListNode<T>, ghost t: seq<ListNode<T>>)
    requires Ring(r) && p < q < |r| && r[p] == b1 && r[q] == l
    modifies r`prev, r`next
    ensures MovedAs(r, t, p, q, l) && Ring(t) && Arrays(t) == Arrays(r)
    ensures MovedAs(old(Data(r)), Data(t), p, q, old(Items(l)))
    ensures b2 == r[Succ(r, q)]
  {
    ghost var d := Data(r);
    b2, t := MoveBefore(l, b1, r, p, q);
    MovedSeparate(r, t, p, q);
    forall i | 0 <= i < |r| ensures d[i] == Items(r[i]) {
    }
    MovedData(r, t, d, p, q);
    MovedFilled(r, t, p, q);
  }

  /** Pull the second run's node out, plug it in before the first run's, and flush to it. */
  method PullAndFlush<T>(l: ListNode<T>, b1: ListNode<T>, buffer: array<T>, nbuf: nat, ghost buf: seq<T>,
                         ghost r: seq<ListNode<T>>, ghost p: nat, ghost q: nat)
    returns (b2: ListNode<T>, left: nat, ghost t: seq<ListNode<T>>)
    requires Ring(r) && buffer !in Arrays(r) && p < q < |r| && r[p] == b1 && r[q] == l
    requires l.nr <= nbuf <= buffer.Length && buf == buffer[..nbuf]
    modifies r`prev, r`next, l.list, buffer
    ensures MovedAs(r, t, p, q, l) && Ring(t) && Arrays(t) == Arrays(r)
    ensures MovedAs(old(Data(r)), Data(t), p, q, buf[..l.nr])
    ensures left == nbuf - l.nr && buffer[..left] == buf[l.nr..]
    ensures b2 == r[Succ(r, q)]
  {
    b2, t := PullOut(l, b1, r, p, q);
    assert OwnBuffer(t, p, l, buffer);
    left := FlushTo(l, buffer, nbuf, buf, t, p);
  }

  /** The second run's node is read to its end. */
  method PullSecond<T>(l: ListNode<T>, b1: ListNode<T>, buffer: array<T>, nbuf: nat, cmp: (T, T) -> int,
                       ghost r: seq<ListNode<T>>, ghost k: nat, ghost e: nat, ghost s: Cursor, ghost target: seq<T>)
    returns (b2: ListNode<T>, left: nat, ghost t: seq<ListNode<T>>)
    requires InMerge(cmp, r, buffer, nbuf, k, e, s, target)
    requires s.n > 0 && s.m > 0 && r[s.p] == b1 && r[s.q] == l && s.i2 == l.nr
    modifies r`prev, r`next, l.list, buffer
    ensures Shuffled(r, old(Data(r)), t, Data(t), k, e) && Arrays(t) == Arrays(r)
    ensures InMerge(cmp, t, buffer, left, k, e, s.MovedSecond(), target)
    ensures MovedAs(r, t, s.p, s.q, l)
    ensures b2 == r[Succ(r, s.q)]
  {
    ghost var d, buf := Data(r), buffer[..nbuf];
    DataAt(r, s.q);
    b2, left, t := PullAndFlush(l, b1, buffer, nbuf, buf, r, s.p, s.q);
    SecondFinished(cmp, r, t, d, Data(t), k, e, s, buf, target);
  }

  lemma SecondFinished<T>(cmp: (T, T) -> int, r: seq<ListNode<T>>, t: seq<ListNode<T>>, d: seq<seq<T>>, d': seq<seq<T>>,
                          k: nat, e: nat, s: Cursor, buf: seq<T>, target: seq<T>)
    requires MergeState(cmp, d, k, e, s, buf, target) && |r| == |d|
    requires s.n > 0 && s.m > 0 && s.i2 == |d[s.q]|
    requires MovedAs(r, t, s.p, s.q, r[s.q]) && MovedAs(d, d', s.p, s.q, buf[..s.i2])
    ensures MergeState(cmp, d', k, e, s.MovedSecond(), buf[s.i2..], target)
    ensures Shuffled(r, d, t, d', k, e)
  {
    FinishSecond(cmp, d, d', k, e, s, buf, target);
    ShuffledByMove(r, t, d, d', k, e, s.p, s.q, buf[..s.i2]);
  }

  /** The first run's node is read to its end. */
  method FlushFirst<T>(b1: ListNode<T>, buffer: array<T>, nbuf: nat, cmp: (T, T) -> int,
                       ghost r: seq<ListNode<T>>, ghost k: nat, ghost e: nat, ghost s: Cursor, ghost target: seq<T>)
    returns (left: nat)
    requires InMerge(cmp, r, buffer, nbuf, k, e, s, target) && s.n > 0 && r[s.p] == b1 && s.i1 == b1.nr
    modifies b1.list, buffer
    ensures InMerge(cmp, r, buffer, left, k, e, s.PastFirst(), target)
    ensures Shuffled(r, old(Data(r)), r, Data(r), k, e)
  {
    ghost var d, buf := Data(r), buffer[..nbuf];
    DataAt(r, s.p);
    FinishFirst(cmp, d, k, e, s, buf, target);
    assert OwnBuffer(r, s.p, b1, buffer);
    left := FlushTo(b1, buffer, nbuf, buf, r, s.p);
  }

  /** Store an entry in the buffer. */
  method Append<T>(x: T, buffer: array<T>, nbuf: nat, ghost r: seq<ListNode<T>>)
    requires nbuf < buffer.Length && buffer !in Arrays(r)
    modifies buffer
    ensures buffer[..nbuf + 1] == old(buffer[..nbuf]) + [x]
    ensures Data(r) == old(Data(r))
  {
    ghost var d := Data(r);
    buffer[nbuf] := x;
    forall j | 0 <= j < |r| ensures d[j] == Items(r[j]) {
      assert r[j].list in Arrays(r);
    }
    DataIs(r, d);
  }

  /** The next entry of the first run goes to the buffer. */
  method PushFirst<T>(x: T, buffer: array<T>, nbuf: nat, cmp: (T, T) -> int,
                      ghost r: seq<ListNode<T>>, ghost k: nat, ghost e: nat, ghost s: Cursor, ghost target: seq<T>)
    returns (kept: nat)
    requires InMerge(cmp, r, buffer, nbuf, k, e, s, target)
    requires s.n > 0 && s.m > 0 && s.i1 < r[s.p].nr && s.i2 < r[s.q].nr
    requires x == r[s.p].list[s.i1] && cmp(x, r[s.q].list[s.i2]) <= 0
    modifies buffer
    ensures InMerge(cmp, r, buffer, kept, k, e, s.TookFirst(), target)
    ensures kept == nbuf + 1 && Data(r) == old(Data(r))
  {
    ghost var d, buf := Data(r), buffer[..nbuf];
    DataAt(r, s.p);
    DataAt(r, s.q);
    TakeFirst(cmp, d, k, e, s, buf, target);
    Append(x, buffer, nbuf, r);
    kept := nbuf + 1;
  }

  /** The next entry of the second run goes to the buffer. */
  method PushSecond<T>(x: T, buffer: array<T>, nbuf: nat, cmp: (T, T) -> int,
                       ghost r: seq<ListNode<T>>, ghost k: nat, ghost e: nat, ghost s: Cursor, ghost target: seq<T>)
    returns (kept: nat)
    requires InMerge(cmp, r, buffer, nbuf, k, e, s, target)
    requires s.n > 0 && s.m > 0 && s.i1 < r[s.p].nr && s.i2 < r[s.q].nr
    requires x == r[s.q].list[s.i2] && cmp(r[s.p].list[s.i1], x) > 0
    modifies buffer
    ensures InMerge(cmp, r, buffer, kept, k, e, s.TookSecond(), target)
    ensures kept == nbuf + 1 && Data(r) == old(Data(r))
  {
    ghost var d, buf := Data(r), buffer[..nbuf];
    DataAt(r, s.p);
    DataAt(r, s.q);
    TakeSecond(cmp, d, k, e, s, buf, target);
    Append(x, buffer, nbuf, r);
    kept := nbuf + 1;
  }

  lemma BackAndForth<T>(r: seq<ListNode<T>>, i: nat)
    requires Linked(r) && i < |r|
    ensures r[i].prev.next == r[i] && r[i].next.prev == r[i]
  {
  }

  lemma NextInRing<T>(r: seq<ListNode<T>>, i: nat, j: nat)
    requires Linked(r) && j == i + 1 < |r|
    ensures r[i].next == r[j]
  {
  }

  lemma AfterMove<T>(r: seq<T>, t: seq<T>, p: nat, q: nat, j: nat)
    requires p < q && j == q + 1 < |r| && MovedAs(r, t, p, q, r[q])
    ensures r[Succ(r, q)] == t[j]
  {
  }

  /** From after a node, go to the next one that is not empty, as long as `n` lasts. */
  method Advance<T>(start: ListNode<T>, n: nat, ghost r: seq<ListNode<T>>, ghost i: nat)
    returns (b: ListNode<T>, left: nat, ghost j: nat)
    requires Linked(r) && n > 0 && i + n - 1 <= |r| && (i < |r| ==> start.next == r[i])
    ensures left < n && j == i + n - 1 - left && (j < |r| ==> b == r[j]) && (left > 0 ==> b.nr > 0)
    ensures forall h {:trigger r[h].nr} :: i <= h < j ==> r[h].nr == 0
    ensures Data(r) == old(Data(r))
  {
    b, left, j := start, n, i;
    while true
      invariant 0 < left <= n && j == i + n - left && (j < |r| ==> b.next == r[j])
      invariant forall h {:trigger r[h].nr} :: i <= h < j ==> r[h].nr == 0
      decreases left
    {
      b := b.next;
      left := left - 1;
      if left == 0 || b.nr != 0 {
        return;
      }
      j := j + 1;
    }
  }

  /** Go from a node to the first one that is not empty, as long as `n` lasts. */
  method SkipEmpty<T>(start: ListNode<T>, n: nat, ghost r: seq<ListNode<T>>, ghost i: nat)
    returns (b: ListNode<T>, left: nat, ghost j: nat)
    requires Linked(r) && n > 0 && i + n <= |r| && r[i] == start
    ensures left <= n && j == i + n - left && (left > 0 ==> r[j] == b && b.nr > 0)
    ensures forall h {:trigger r[h].nr} :: i <= h < j ==> r[h].nr == 0
    ensures Data(r) == old(Data(r))
  {
    b, left, j := start, n, i;
    while b.nr == 0
      invariant 0 < left <= n && j == i + n - left && b == r[j]
      invariant forall h {:trigger r[h].nr} :: i <= h < j ==> r[h].nr == 0
      decreases left
    {
      b := b.next;
      left := left - 1;
      j := j + 1;
      if left == 0 {
        return;
      }
    }
  }

  /** Go from a node to the first one that does not end below y, as long as `n` lasts. */
  method SkipBelowHead<T>(start: ListNode<T>, n: nat, y: T, cmp: (T, T) -> int, ghost r: seq<ListNode<T>>, ghost i: nat)
    returns (b: ListNode<T>, left: nat, ghost j: nat)
    requires Linked(r) && Separate(r) && Filled(r) && n > 0 && i + n <= |r| && r[i] == start
    ensures left <= n && j == i + n - left && (left > 0 ==> r[j] == b && b.nr > 0)
    ensures forall h {:trigger r[h]} :: i <= h < j ==> EndsBelow(cmp, Items(r[h]), y)
    ensures Data(r) == old(Data(r))
  {
    b, left, j := start, n, i;
    while b.nr == 0 || cmp(b.list[b.nr - 1], y) < 0
      invariant 0 < left <= n && j == i + n - left && b == r[j]
      invariant forall h {:trigger r[h]} :: i <= h < j ==> EndsBelow(cmp, Items(r[h]), y)
      decreases left
    {
      assert EndsBelow(cmp, Items(b), y);
      b := b.next;
      left := left - 1;
      j := j + 1;
      if left == 0 {
        return;
      }
    }
  }

  /** FLUSH_TO a node without entries. */
  method FlushNothing<T>(b: ListNode<T>, buffer: array<T>, nbuf: nat, ghost buf: seq<T>, ghost r: seq<ListNode<T>>,
                         ghost p: nat, ghost d: seq<seq<T>>)
    returns (left: nat)
    requires OwnBuffer(r, p, b, buffer) && b.nr == 0 && nbuf <= buffer.Length && buf == buffer[..nbuf]
    requires d == Data(r) && d[p] == [] && Linked(r)
    modifies b.list, buffer
    ensures left == nbuf && buffer[..left] == buf && Data(r) == d && Ring(r)
  {
    left := FlushTo(b, buffer, nbuf, buf, r, p);
    assert d[p := []] == d && buf[..0] == [];
  }

  /** The walk is at a node of the gap before the second run's node, or there. */
  ghost predicate InGap<T>(r: seq<ListNode<T>>, s: Cursor, b1: ListNode<T>, b2: ListNode<T>) {
    s.n == 0 && s.m > 0 && s.p <= s.q < |r| && r[s.p] == b1 && r[s.q] == b2
  }

  /** An empty node between the runs: there is nothing to flush. */
  method FlushEmpty<T>(b1: ListNode<T>, b2: ListNode<T>, buffer: array<T>, nbuf: nat, cmp: (T, T) -> int,
                       ghost r: seq<ListNode<T>>, ghost k: nat, ghost e: nat, ghost s: Cursor, ghost target: seq<T>)
    returns (next: ListNode<T>, left: nat, ghost s': Cursor)
    requires InMerge(cmp, r, buffer, nbuf, k, e, s, target) && InGap(r, s, b1, b2) && b1 != b2
    modifies b1.list, buffer
    ensures InMerge(cmp, r, buffer, left, k, e, s', target) && Data(r) == old(Data(r))
    ensures InGap(r, s', next, b2) && s'.q - s'.p < s.q - s.p
  {
    s' := s.PastGap();
    NextInRing(r, s.p, s'.p);
    next := b1.next;
    ghost var d, buf := Data(r), buffer[..nbuf];
    DataAt(r, s.p);
    SkipBetween(cmp, d, k, e, s, buf, target);
    assert NoEntries(d, s.p);
    assert OwnBuffer(r, s.p, b1, buffer) && b1.nr == 0;
    left := FlushNothing(b1, buffer, nbuf, buf, r, s.p, d);
    InMergeIs(cmp, r, buffer, left, k, e, s', target, d, buf);
  }

  lemma DumpedInSecond<T>(cmp: (T, T) -> int, r: seq<ListNode<T>>, d: seq<seq<T>>, d': seq<seq<T>>, k: nat, e: nat,
                          s: Cursor, buf: seq<T>, target: seq<T>)
    requires MergeState(cmp, d, k, e, s, buf, target) && |r| == |d| && s.n == 0 && s.m > 0
    requires d' == d[s.q := buf + d[s.q][|buf|..]]
    ensures Shuffled(r, d, r, d', k, e) && Concat(d'[k..e]) == target
  {
    DumpSecond(cmp, d, k, e, s, buf, target);
  }

  lemma DumpedInFirst<T>(cmp: (T, T) -> int, r: seq<ListNode<T>>, d: seq<seq<T>>, d': seq<seq<T>>, k: nat, e: nat,
                         s: Cursor, buf: seq<T>, target: seq<T>)
    requires MergeState(cmp, d, k, e, s, buf, target) && |r| == |d| && s.m == 0 && s.n > 0
    requires d' == d[s.p := buf + d[s.p][|buf|..]]
    ensures Shuffled(r, d, r, d', k, e) && Concat(d'[k..e]) == target
  {
    DumpFirst(cmp, d, k, e, s, buf, target);
  }

  method DumpInSecond<T>(b2: ListNode<T>, buffer: array<T>, nbuf: nat, cmp: (T, T) -> int,
                         ghost r: seq<ListNode<T>>, ghost k: nat, ghost e: nat, ghost s: Cursor, ghost target: seq<T>)
    requires InMerge(cmp, r, buffer, nbuf, k, e, s, target) && s.n == 0 && s.m > 0 && r[s.q] == b2
    modifies b2.list
    ensures Ring(r) && Shuffled(r, old(Data(r)), r, Data(r), k, e) && Concat(Data(r)[k..e]) == target
  {
    ghost var d, buf := Data(r), buffer[..nbuf];
    DataAt(r, s.q);
    assert OwnBuffer(r, s.q, b2, buffer) && Items(b2) == d[s.q];
    DumpTo(b2, buffer, nbuf, r, s.q);
    DumpedInSecond(cmp, r, d, Data(r), k, e, s, buf, target);
  }

  /** The empty nodes up to the second run's node. */
  method WalkGap<T>(start: ListNode<T>, b2: ListNode<T>, buffer: array<T>, nbuf: nat, cmp: (T, T) -> int,
                    ghost r: seq<ListNode<T>>, ghost k: nat, ghost e: nat, ghost s0: Cursor, ghost target: seq<T>)
    returns (left: nat, ghost s: Cursor)
    requires InMerge(cmp, r, buffer, nbuf, k, e, s0, target) && InGap(r, s0, start, b2)
    modifies Arrays(r), buffer
    ensures InMerge(cmp, r, buffer, left, k, e, s, target) && Data(r) == old(Data(r)) && InGap(r, s, b2, b2)
  {
    var b1 := start;
    left, s := nbuf, s0;
    ghost var d := Data(r);
    while b1 != b2
      invariant InMerge(cmp, r, buffer, left, k, e, s, target)
      invariant Data(r) == d && InGap(r, s, b1, b2)
      decreases s.q - s.p
    {
      assert b1.list in Arrays(r);
      b1, left, s := FlushEmpty(b1, b2, buffer, left, cmp, r, k, e, s, target);
    }
  }

  /** The first run is used up: walk to the second's node and empty the buffer there. */
  method EndInSecond<T>(start: ListNode<T>, b2: ListNode<T>, buffer: array<T>, nbuf: nat, cmp: (T, T) -> int,
                        ghost r: seq<ListNode<T>>, ghost k: nat, ghost e: nat, ghost s0: Cursor, ghost target: seq<T>)
    requires InMerge(cmp, r, buffer, nbuf, k, e, s0, target)
    requires s0.n == 0 && s0.m > 0 && r[s0.p] == start && r[s0.q] == b2
    modifies Arrays(r), buffer
    ensures Ring(r) && Shuffled(r, old(Data(r)), r, Data(r), k, e) && Concat(Data(r)[k..e]) == target
  {
    var left;
    ghost var s;
    left, s := WalkGap(start, b2, buffer, nbuf, cmp, r, k, e, s0, target);
    assert b2.list in Arrays(r);
    DumpInSecond(b2, buffer, left, cmp, r, k, e, s, target);
  }

  /** The second run is used up: the buffer goes to the first run's node. */
  method EndInFirst<T>(b1: ListNode<T>, buffer: array<T>, nbuf: nat, cmp: (T, T) -> int,
                       ghost r: seq<ListNode<T>>, ghost k: nat, ghost e: nat, ghost s: Cursor, ghost target: seq<T>)
    requires InMerge(cmp, r, buffer, nbuf, k, e, s, target) && s.n > 0 && s.m == 0 && r[s.p] == b1
    modifies b1.list
    ensures Ring(r) && Shuffled(r, old(Data(r)), r, Data(r), k, e) && Concat(Data(r)[k..e]) == target
  {
    ghost var d, buf := Data(r), buffer[..nbuf];
    DataAt(r, s.p);
    assert OwnBuffer(r, s.p, b1, buffer) && Items(b1) == d[s.p];
    DumpTo(b1, buffer, nbuf, r, s.p);
    DumpedInFirst(cmp, r, d, Data(r), k, e, s, buf, target);
  }

  lemma ShuffledTwice<T>(r0: seq<ListNode<T>>, d0: seq<seq<T>>, r1: seq<ListNode<T>>, d1: seq<seq<T>>,
                         r2: seq<ListNode<T>>, d2: seq<seq<T>>, k: nat, e: nat)
    requires Shuffled(r0, d0, r1, d1, k, e) && Shuffled(r1, d1, r2, d2, k, e)
    ensures Shuffled(r0, d0, r2, d2, k, e)
  {
    forall j | 0 <= j < k || e <= j < |r0| ensures SameAt(r0, d0, r2, d2, j) {
      assert SameAt(r0, d0, r1, d1, j) && SameAt(r1, d1, r2, d2, j);
    }
  }

  /** A node of a run, `i` of its entries read and at least one not. */
  ghost predicate AtHead<T>(r: seq<ListNode<T>>, p: nat, n: nat, i: nat, b: ListNode<T>)
    reads r`nr
  {
    p < |r| && r[p] == b && n > 0 && i < b.nr
  }

  lemma PastEmptyFirst<T>(cmp: (T, T) -> int, r: seq<ListNode<T>>, buffer: array<T>, nbuf: nat, k: nat, e: nat,
                          s: Cursor, target: seq<T>, p: nat)
    requires InMerge(cmp, r, buffer, nbuf, k, e, s, target) && s.i1 == 0 && s.p <= p <= s.p + s.n
    requires forall j {:trigger r[j].nr} :: s.p <= j < p ==> r[j].nr == 0
    ensures InMerge(cmp, r, buffer, nbuf, k, e, s.FirstAt(p), target)
  {
    var d := Data(r);
    forall j | s.p <= j < p ensures d[j] == [] {
      assert r[j].nr == 0;
    }
    SkipFirsts(cmp, d, k, e, s, buffer[..nbuf], target, p);
  }

  lemma PastEmptySecond<T>(cmp: (T, T) -> int, r: seq<ListNode<T>>, buffer: array<T>, nbuf: nat, k: nat, e: nat,
                           s: Cursor, target: seq<T>, q: nat)
    requires InMerge(cmp, r, buffer, nbuf, k, e, s, target) && s.i2 == 0 && s.q <= q <= s.q + s.m
    requires forall j {:trigger r[j].nr} :: s.q <= j < q ==> r[j].nr == 0
    ensures InMerge(cmp, r, buffer, nbuf, k, e, s.SecondAt(q), target)
  {
    var d := Data(r);
    forall j | s.q <= j < q ensures d[j] == [] {
      assert r[j].nr == 0;
    }
    SkipSeconds(cmp, d, k, e, s, buffer[..nbuf], target, q);
  }

  /** From after a node of the first run to its next one that is not empty. */
  method NextOfFirst<T>(b1: ListNode<T>, n: nat, buffer: array<T>, nbuf: nat, cmp: (T, T) -> int,
                        ghost r: seq<ListNode<T>>, ghost k: nat, ghost e: nat, ghost s: Cursor, ghost target: seq<T>)
    returns (next: ListNode<T>, left: nat, ghost p: nat)
    requires InMerge(cmp, r, buffer, nbuf, k, e, s, target) && s.m > 0 && s.i1 == 0 && n == s.n + 1
    requires b1.next == r[s.p]
    ensures s.p <= p <= s.p + s.n && left == s.FirstAt(p).n && InMerge(cmp, r, buffer, nbuf, k, e, s.FirstAt(p), target)
    ensures r[p] == next && (left > 0 ==> next.nr > 0)
    ensures Data(r) == old(Data(r))
  {
    next, left, p := Advance(b1, n, r, s.p);
    PastEmptyFirst(cmp, r, buffer, nbuf, k, e, s, target, p);
  }

  /** A node of the first run was read to its end: flush to it and go on. */
  method EndOfFirst<T>(b1: ListNode<T>, n: nat, buffer: array<T>, nbuf: nat, cmp: (T, T) -> int,
                       ghost r: seq<ListNode<T>>, ghost k: nat, ghost e: nat, ghost s: Cursor, ghost target: seq<T>)
    returns (next: ListNode<T>, left: nat, kept: nat, ghost s': Cursor)
    requires InMerge(cmp, r, buffer, nbuf, k, e, s, target) && n == s.n > 0 && s.m > 0
    requires r[s.p] == b1 && s.i1 == b1.nr
    modifies b1.list, buffer
    ensures Shuffled(r, old(Data(r)), r, Data(r), k, e) && InMerge(cmp, r, buffer, kept, k, e, s', target)
    ensures s.p < s'.p <= s.p + n && s' == s.PastFirst().FirstAt(s'.p)
    ensures s'.n == left < n && r[s'.p] == next && (left > 0 ==> next.nr > 0)
  {
    kept := FlushFirst(b1, buffer, nbuf, cmp, r, k, e, s, target);
    s' := s.PastFirst();
    NextInRing(r, s.p, s'.p);
    ghost var p;
    next, left, p := NextOfFirst(b1, n, buffer, kept, cmp, r, k, e, s', target);
    s' := s'.FirstAt(p);
  }

  /** From the node that moved to the second run's next one that is not empty. */
  method NextOfSecond<T>(b2: ListNode<T>, m: nat, buffer: array<T>, nbuf: nat, cmp: (T, T) -> int,
                         ghost r: seq<ListNode<T>>, ghost k: nat, ghost e: nat, ghost s: Cursor, ghost target: seq<T>)
    returns (next: ListNode<T>, left: nat, ghost q: nat)
    requires InMerge(cmp, r, buffer, nbuf, k, e, s, target) && s.i2 == 0 && m == s.m + 1
    requires s.q < |r| ==> b2 == r[s.q]
    ensures s.q <= q <= s.q + s.m && left == s.SecondAt(q).m
            && InMerge(cmp, r, buffer, nbuf, k, e, s.SecondAt(q), target)
    ensures left > 0 ==> r[q] == next && next.nr > 0
    ensures Data(r) == old(Data(r))
  {
    if s.q < |r| {
      BackAndForth(r, s.q);
    }
    next := b2.prev;
    next, left, q := Advance(next, m, r, s.q);
    PastEmptySecond(cmp, r, buffer, nbuf, k, e, s, target, q);
  }

  lemma HeadMoved<T>(r: seq<T>, t: seq<T>, p: nat, q: nat, p': nat, b1: T)
    requires p < q < |r| && MovedAs(r, t, p, q, r[q]) && p' == p + 1 && b1 == r[p]
    ensures p' < |t| && t[p'] == b1
  {
  }

  /** The node that is first afterwards. */
  lemma HeadAfterMove<T>(r: seq<ListNode<T>>, t: seq<ListNode<T>>, p: nat, q: nat, k: nat)
    requires Separate(r) && k <= p < q < |r| && MovedAs(r, t, p, q, r[q])
    ensures t[k] == if r[p] == r[k] then r[q] else r[k]
  {
    SeparatePairs(r);
  }

  lemma MergeBounds<T>(cmp: (T, T) -> int, r: seq<ListNode<T>>, buffer: array<T>, nbuf: nat, k: nat, e: nat, s: Cursor,
                       target: seq<T>)
    requires InMerge(cmp, r, buffer, nbuf, k, e, s, target) && s.n > 0 && s.m > 0
    ensures Separate(r) && k <= s.p < s.q < e <= |r|
  {
  }

  /** A node of the second run was read to its end: move it, flush to it and go on. */
  method EndOfSecond<T>(b1: ListNode<T>, b2: ListNode<T>, m: nat, buffer: array<T>, nbuf: nat, cmp: (T, T) -> int,
                        ghost r: seq<ListNode<T>>, ghost k: nat, ghost e: nat, ghost s: Cursor, ghost target: seq<T>)
    returns (next: ListNode<T>, left: nat, kept: nat, ghost t: seq<ListNode<T>>, ghost s': Cursor)
    requires InMerge(cmp, r, buffer, nbuf, k, e, s, target) && s.n > 0 && m == s.m > 0
    requires r[s.p] == b1 && r[s.q] == b2 && s.i2 == b2.nr
    modifies r`prev, r`next, b2.list, buffer
    ensures Shuffled(r, old(Data(r)), t, Data(t), k, e) && InMerge(cmp, t, buffer, kept, k, e, s', target)
    ensures Arrays(t) == Arrays(r) && s'.p < |t| && t[s'.p] == b1
    ensures k < |t| && t[k] == if b1 == r[k] then b2 else r[k]
    ensures s.q < s'.q <= s.q + m && s' == s.MovedSecond().SecondAt(s'.q)
    ensures s'.m == left < m && (left > 0 ==> t[s'.q] == next && next.nr > 0)
  {
    MergeBounds(cmp, r, buffer, nbuf, k, e, s, target);
    next, kept, t := PullSecond(b2, b1, buffer, nbuf, cmp, r, k, e, s, target);
    s' := s.MovedSecond();
    HeadAfterMove(r, t, s.p, s.q, k);
    HeadMoved(r, t, s.p, s.q, s'.p, b1);
    if s'.q < |t| {
      AfterMove(r, t, s.p, s.q, s'.q);
    }
    ghost var q;
    next, left, q := NextOfSecond(next, m, buffer, kept, cmp, t, k, e, s', target);
    s' := s'.SecondAt(q);
  }

  /** An entry of the first run is taken; with its node's last one, the node is done. */
  method StepFirst<T>(start: ListNode<T>, n0: nat, i0: nat, buffer: array<T>, nbuf0: nat, cmp: (T, T) -> int,
                      ghost b2: ListNode<T>, ghost r: seq<ListNode<T>>, ghost k: nat, ghost e: nat, ghost s0: Cursor,
                      ghost target: seq<T>)
    returns (b1: ListNode<T>, n: nat, i1: nat, nbuf: nat, ghost s: Cursor)
    requires InMerge(cmp, r, buffer, nbuf0, k, e, s0, target) && n0 == s0.n && i0 == s0.i1
    requires AtHead(r, s0.p, n0, i0, start) && AtHead(r, s0.q, s0.m, s0.i2, b2)
    requires cmp(start.list[i0], b2.list[s0.i2]) <= 0
    modifies start.list, buffer
    ensures Shuffled(r, old(Data(r)), r, Data(r), k, e) && InMerge(cmp, r, buffer, nbuf, k, e, s, target)
    ensures s.q == s0.q && s.m == s0.m && s.i2 == s0.i2 && n == s.n && i1 == s.i1 && r[s.p] == b1
    ensures n > 0 ==> i1 < b1.nr
    ensures n < n0 || (n == n0 && i1 == i0 + 1)
  {
    b1, n, i1, s := start, n0, i0 + 1, s0.TookFirst();
    nbuf := PushFirst(b1.list[i0], buffer, nbuf0, cmp, r, k, e, s0, target);
    if i1 >= b1.nr {
      b1, n, nbuf, s := EndOfFirst(b1, n, buffer, nbuf, cmp, r, k, e, s, target);
      i1 := 0;
    }
  }

  /** When the node of the second run is used up, its place is taken and the next is found. */
  method PastSecond<T>(b1: ListNode<T>, start: ListNode<T>, m0: nat, i0: nat, buffer: array<T>, nbuf0: nat,
                       cmp: (T, T) -> int, head: ListNode<T>,
                       ghost r: seq<ListNode<T>>, ghost k: nat, ghost e: nat, ghost s0: Cursor, ghost target: seq<T>)
    returns (newhead: ListNode<T>, b2: ListNode<T>, m: nat, i2: nat, nbuf: nat, ghost t: seq<ListNode<T>>,
             ghost s: Cursor)
    requires InMerge(cmp, r, buffer, nbuf0, k, e, s0, target) && m0 == s0.m > 0 && i0 == s0.i2 && s0.n > 0
    requires s0.p < |r| && r[s0.p] == b1 && s0.q < |r| && r[s0.q] == start && i0 <= start.nr && k < |r| && head == r[k]
    modifies r`prev, r`next, start.list, buffer
    ensures Shuffled(r, old(Data(r)), t, Data(t), k, e) && InMerge(cmp, t, buffer, nbuf, k, e, s, target)
    ensures Arrays(t) == Arrays(r) && k < |t| && newhead == t[k]
    ensures s.n == s0.n && s.i1 == s0.i1 && m == s.m && i2 == s.i2 && s.p < |t| && t[s.p] == b1
    ensures m > 0 ==> AtHead(t, s.q, m, i2, b2)
    ensures m < m0 || (m == m0 && i2 == i0)
  {
    newhead, b2, m, i2, nbuf, t, s := head, start, m0, i0, nbuf0, r, s0;
    if i2 >= b2.nr {
      b2, m, nbuf, t, s := EndOfSecond(b1, b2, m, buffer, nbuf, cmp, r, k, e, s, target);
      if b1 == head {
        newhead := start;
      }
      i2 := 0;
    }
  }

  /** An entry of the second run is taken; with its node's last one, the node moves. */
  method StepSecond<T>(b1: ListNode<T>, start: ListNode<T>, m0: nat, i0: nat, buffer: array<T>, nbuf0: nat,
                       cmp: (T, T) -> int, head: ListNode<T>,
                       ghost r: seq<ListNode<T>>, ghost k: nat, ghost e: nat, ghost s0: Cursor, ghost target: seq<T>)
    returns (newhead: ListNode<T>, b2: ListNode<T>, m: nat, i2: nat, nbuf: nat, ghost t: seq<ListNode<T>>,
             ghost s: Cursor)
    requires InMerge(cmp, r, buffer, nbuf0, k, e, s0, target) && m0 == s0.m && i0 == s0.i2
    requires AtHead(r, s0.p, s0.n, s0.i1, b1) && AtHead(r, s0.q, m0, i0, start) && k < |r| && head == r[k]
    requires cmp(b1.list[s0.i1], start.list[i0]) > 0
    modifies r`prev, r`next, start.list, buffer
    ensures Shuffled(r, old(Data(r)), t, Data(t), k, e) && InMerge(cmp, t, buffer, nbuf, k, e, s, target)
    ensures Arrays(t) == Arrays(r) && k < |t| && newhead == t[k]
    ensures s.n == s0.n && s.i1 == s0.i1 && m == s.m && i2 == s.i2 && s.p < |t| && t[s.p] == b1
    ensures m > 0 ==> AtHead(t, s.q, m, i2, b2)
    ensures m < m0 || (m == m0 && i2 == i0 + 1)
  {
    nbuf := PushSecond(start.list[i0], buffer, nbuf0, cmp, r, k, e, s0, target);
    newhead, b2, m, i2, nbuf, t, s :=
      PastSecond(b1, start, m0, i0 + 1, buffer, nbuf, cmp, head, r, k, e, s0.TookSecond(), target);
  }

  lemma ListInArrays<T>(r: seq<ListNode<T>>, p: nat, b: ListNode<T>)
    requires p < |r| && r[p] == b
    ensures b.list in Arrays(r)
  {
  }

  /** The smaller of the two heads is taken. */
  method MergeStep<T>(start1: ListNode<T>, n0: nat, j1: nat, start2: ListNode<T>, m0: nat, j2: nat, head: ListNode<T>,
                      buffer: array<T>, nbuf0: nat, cmp: (T, T) -> int,
                      ghost r: seq<ListNode<T>>, ghost k: nat, ghost e: nat, ghost s0: Cursor, ghost target: seq<T>)
    returns (b1: ListNode<T>, n: nat, i1: nat, b2: ListNode<T>, m: nat, i2: nat, newhead: ListNode<T>, nbuf: nat,
             ghost t: seq<ListNode<T>>, ghost s: Cursor)
    requires InMerge(cmp, r, buffer, nbuf0, k, e, s0, target) && n0 == s0.n && m0 == s0.m && j1 == s0.i1 && j2 == s0.i2
    requires AtHead(r, s0.p, n0, j1, start1) && AtHead(r, s0.q, m0, j2, start2) && k < |r| && head == r[k]
    modifies Nodes(r)`prev, Nodes(r)`next, Arrays(r), buffer
    ensures Shuffled(r, old(Data(r)), t, Data(t), k, e) && Arrays(t) == Arrays(r)
    ensures InMerge(cmp, t, buffer, nbuf, k, e, s, target)
    ensures n == s.n && m == s.m && i1 == s.i1 && i2 == s.i2 && k < |t| && newhead == t[k]
    ensures s.p < |t| && t[s.p] == b1 && (n > 0 ==> i1 < b1.nr)
    ensures if m > 0 then AtHead(t, s.q, m, i2, b2) else n > 0
    ensures n + m < n0 + m0 || (n + m == n0 + m0 && i1 + i2 == j1 + j2 + 1)
  {
    ListInArrays(r, s0.p, start1);
    ListInArrays(r, s0.q, start2);
    if cmp(start1.list[j1], start2.list[j2]) <= 0 {
      b2, m, i2, newhead, t := start2, m0, j2, head, r;
      b1, n, i1, nbuf, s := StepFirst(start1, n0, j1, buffer, nbuf0, cmp, b2, r, k, e, s0, target);
    } else {
      b1, n, i1 := start1, n0, j1;
      newhead, b2, m, i2, nbuf, t, s := StepSecond(b1, start2, m0, j2, buffer, nbuf0, cmp, head, r, k, e, s0, target);
    }
  }

  /** Two runs that both have entries left, merged entry by entry. */
  method MergeLoop<T>(start1: ListNode<T>, n0: nat, start2: ListNode<T>, m0: nat, head: ListNode<T>, buffer: array<T>,
                      cmp: (T, T) -> int, ghost r: seq<ListNode<T>>, ghost k: nat, ghost e: nat, ghost s0: Cursor,
                      ghost target: seq<T>)
    returns (newhead: ListNode<T>, ghost t: seq<ListNode<T>>)
    requires InMerge(cmp, r, buffer, 0, k, e, s0, target) && n0 == s0.n && m0 == s0.m && s0.i1 == s0.i2 == 0
    requires AtHead(r, s0.p, n0, s0.i1, start1) && AtHead(r, s0.q, m0, s0.i2, start2) && k < |r| && head == r[k]
    modifies Nodes(r)`prev, Nodes(r)`next, Arrays(r), buffer
    ensures Ring(t) && Shuffled(r, old(Data(r)), t, Data(t), k, e) && Arrays(t) == Arrays(r)
    ensures Concat(Data(t)[k..e]) == target && newhead == t[k]
  {
    var b1, n, i1, b2, m, i2, nbuf := start1, n0, 0, start2, m0, 0, 0;
    ghost var s, d0 := s0, Data(r);
    newhead, t := head, r;
    while n > 0 && m > 0
      invariant InMerge(cmp, t, buffer, nbuf, k, e, s, target)
      invariant s.n == n && s.m == m && s.i1 == i1 && s.i2 == i2 && k < |t| && newhead == t[k]
      invariant s.p < |t| && t[s.p] == b1 && (n > 0 ==> i1 < b1.nr)
      invariant if m > 0 then AtHead(t, s.q, m, i2, b2) else n > 0
      invariant Shuffled(r, d0, t, Data(t), k, e) && Arrays(t) == Arrays(r)
      decreases n + m, 2 * LIST_NODE_NR - (i1 + i2)
    {
      ghost var d1, t1 := Data(t), t;
      b1, n, i1, b2, m, i2, newhead, nbuf, t, s :=
        MergeStep(b1, n, i1, b2, m, i2, newhead, buffer, nbuf, cmp, t, k, e, s, target);
      ShuffledTwice(r, d0, t1, d1, t, Data(t), k, e);
    }
    ghost var d1 := Data(t);
    if n == 0 {
      EndInSecond(b1, b2, buffer, nbuf, cmp, t, k, e, s, target);
    } else {
      ListInArrays(t, s.p, b1);
      EndInFirst(b1, buffer, nbuf, cmp, t, k, e, s, target);
    }
    ShuffledTwice(r, d0, t, d1, t, Data(t), k, e);
  }

  lemma PastBelow<T(!new)>(cmp: (T, T) -> int, r: seq<ListNode<T>>, buffer: array<T>, nbuf: nat, k: nat, e: nat,
                           s: Cursor, target: seq<T>, p: nat, lo: nat, hi: nat)
    requires TotalPreorder(cmp) && InMerge(cmp, r, buffer, nbuf, k, e, s, target) && nbuf == 0
    requires s.p <= p <= s.p + s.n && s.m > 0 && r[s.q].nr > 0 && lo <= s.p && p <= hi <= |r|
    requires forall j {:trigger r[j]} :: s.p <= j < p ==> EndsBelow(cmp, Items(r[j]), r[s.q].list[0])
    requires Sorted(cmp, Concat(Data(r)[lo..hi]))
    ensures InMerge(cmp, r, buffer, nbuf, k, e, s.FirstAt(p), target)
  {
    var d, y := Data(r), r[s.q].list[0];
    DataAt(r, s.q);
    forall j | s.p <= j < p ensures Sorted(cmp, d[j]) && EndsBelow(cmp, d[j], y) {
      NodeSorted(cmp, d, lo, hi, j);
      assert d[j] == Items(r[j]);
    }
    SkipBelows(cmp, d, k, e, s, buffer[..nbuf], target, p);
  }

  lemma MergeStarts<T>(cmp: (T, T) -> int, r: seq<ListNode<T>>, buffer: array<T>, k: nat, n: nat, m: nat, q: nat,
                       e: nat, s: Cursor, target: seq<T>)
    requires Ring(r) && buffer !in Arrays(r) && buffer.Length == 2 * LIST_NODE_NR
    requires q == k + n && e == q + m <= |r| && s == Cursor(k, q, n, m, 0, 0)
    requires target == Merge(cmp, Concat(Data(r)[k..q]), Concat(Data(r)[q..e]))
    ensures InMerge(cmp, r, buffer, 0, k, e, s, target)
  {
    StartState(cmp, Data(r), k, n, m, q, e, s, buffer[..0], target);
    InMergeIs(cmp, r, buffer, 0, k, e, s, target, Data(r), buffer[..0]);
  }

  lemma MergeEnds<T>(cmp: (T, T) -> int, r: seq<ListNode<T>>, buffer: array<T>, k: nat, e: nat, s: Cursor,
                     target: seq<T>)
    requires InMerge(cmp, r, buffer, 0, k, e, s, target) && (s.n == 0) != (s.m == 0)
    ensures Ring(r) && Shuffled(r, Data(r), r, Data(r), k, e) && Concat(Data(r)[k..e]) == target
  {
    NothingToDump(cmp, Data(r), k, e, s, buffer[..0], target);
  }

  /** The merge, with room for the entries of two nodes. */
  method MergeInBuffer<T(!new)>(start1: ListNode<T>, n0: nat, start2: ListNode<T>, m0: nat, buffer: array<T>,
                                cmp: (T, T) -> int,
                                ghost r: seq<ListNode<T>>, ghost k: nat, ghost q: nat, ghost e: nat,
                                ghost target: seq<T>)
    returns (newhead: ListNode<T>, ghost t: seq<ListNode<T>>)
    requires TotalPreorder(cmp) && n0 > 0 && m0 > 0 && q == k + n0 && e == q + m0 <= |r|
    requires InMerge(cmp, r, buffer, 0, k, e, Cursor(k, q, n0, m0, 0, 0), target)
    requires r[k] == start1 && r[q] == start2 && Sorted(cmp, Concat(Data(r)[k..q]))
    modifies Nodes(r)`prev, Nodes(r)`next, Arrays(r), buffer
    ensures Ring(t) && Shuffled(r, old(Data(r)), t, Data(t), k, e) && Arrays(t) == Arrays(r)
    ensures Concat(Data(t)[k..e]) == target && newhead == t[k]
  {
    ghost var s := Cursor(k, q, n0, m0, 0, 0);
    newhead, t := start1, r;
    ghost var j;
    var b2, m;
    b2, m, j := SkipEmpty(start2, m0, r, q);
    PastEmptySecond(cmp, r, buffer, 0, k, e, s, target, j);
    s := s.SecondAt(j);
    if m == 0 {
      MergeEnds(cmp, r, buffer, k, e, s, target);
      return;
    }
    var b1, n;
    b1, n, j := SkipBelowHead(start1, n0, b2.list[0], cmp, r, k);
    PastBelow(cmp, r, buffer, 0, k, e, s, target, j, k, q);
    s := s.FirstAt(j);
    if n == 0 {
      MergeEnds(cmp, r, buffer, k, e, s, target);
      return;
    }
    newhead, t := MergeLoop(b1, n, b2, m, newhead, buffer, cmp, r, k, e, s, target);
  }

  /** merge_block_seqs: merge `n` sorted nodes from b1 and `m` from b2, in place. */
  method MergeBlockSeqs<T(!new)>(b1: ListNode<T>, n: nat, b2: ListNode<T>, m: nat, cmp: (T, T) -> int,
                                 ghost r: seq<ListNode<T>>, ghost k: nat, ghost q: nat, ghost e: nat)
    returns (newhead: ListNode<T>, ghost t: seq<ListNode<T>>)
    requires TotalPreorder(cmp) && Ring(r) && n > 0 && m > 0 && q == k + n && e == q + m <= |r|
    requires r[k] == b1 && r[q] == b2 && Sorted(cmp, Concat(Data(r)[k..q]))
    modifies Nodes(r)`prev, Nodes(r)`next, Arrays(r)
    ensures Ring(t) && Shuffled(r, old(Data(r)), t, Data(t), k, e) && Arrays(t) == Arrays(r) && newhead == t[k]
    ensures Concat(Data(t)[k..e]) == Merge(cmp, Concat(old(Data(r))[k..q]), Concat(old(Data(r))[q..e]))
  {
    ghost var d := Data(r);
    var fill := b1.list[0];
    var buffer := new T[2 * LIST_NODE_NR](_ => fill);
    forall j | 0 <= j < |r| ensures d[j] == Items(r[j]) {
    }
    DataIs(r, d);
    ghost var target := Merge(cmp, Concat(Data(r)[k..q]), Concat(Data(r)[q..e]));
    MergeStarts(cmp, r, buffer, k, n, m, q, e, Cursor(k, q, n, m, 0, 0), target);
    newhead, t := MergeInBuffer(b1, n, b2, m, buffer, cmp, r, k, q, e, target);
  }
}
