/** Changing a pointer list (ptrlist.c) and walking it while it changes (ptrlist.h). */
module ListOps {
  import opened SortMerge
  import opened PtrList
  import opened Sort

  /** Everything in the list, in order. */
  ghost function Contents<T>(r: seq<ListNode<T>>): seq<T>
    reads r`nr, Arrays(r)
  {
    Concat(Data(r))
  }

  /** Whatever is in t and not in r is new. */
  twostate predicate Grew<T>(r: seq<ListNode<T>>, new t: seq<ListNode<T>>) {
    && (forall n :: n in Nodes(t) ==> n in Nodes(r) || fresh(n))
    && (forall a :: a in Arrays(t) ==> a in Arrays(r) || fresh(a))
  }

  /** How many entries come before the k-th one of node p. */
  ghost function PlaceOf<T>(d: seq<seq<T>>, p: nat, k: nat): nat
    requires p <= |d|
  {
    |Concat(d[..p])| + k
  }

  lemma InMiddle<T>(before: seq<T>, y: seq<T>, after: seq<T>, k: nat, mid: seq<T>, pos: nat, whole: seq<T>)
    requires k <= |y| && pos == |before| + k && whole == before + (y + after)
    ensures before + ((y[..k] + mid + y[k..]) + after) == whole[..pos] + mid + whole[pos..]
  {
    assert whole[..pos] == before + y[..k];
    assert whole[pos..] == y[k..] + after;
  }

  /** An entry put into a node. */
  lemma InsertedConcat<T>(d: seq<seq<T>>, p: nat, k: nat, x: T, e: seq<seq<T>>, y: seq<T>)
    requires p < |d| && k <= |y| && d[p] == y && e == d[p := y[..k] + [x] + y[k..]]
    ensures var pos := PlaceOf(d, p, k);
            pos <= |Concat(d)| && Concat(e) == Concat(d)[..pos] + [x] + Concat(d)[pos..] && PlaceOf(e, p, k) == pos
  {
    WholeSplit(d, p);
    RefilledConcat(d, p, y[..k] + [x] + y[k..]);
    assert e[..p] == d[..p];
    InMiddle(Concat(d[..p]), y, Concat(d[p + 1..]), k, [x], PlaceOf(d, p, k), Concat(d));
  }

  /** A node cut in two. */
  ghost predicate CutAt<T>(d: seq<seq<T>>, e: seq<seq<T>>, p: nat) {
    && p < |d| && |e| == |d| + 1 && e[..p] == d[..p] && e[p + 2..] == d[p + 1..]
    && e[p] + e[p + 1] == d[p]
  }

  lemma CutConcat<T>(d: seq<seq<T>>, e: seq<seq<T>>, p: nat)
    requires CutAt(d, e, p)
    ensures Concat(e) == Concat(d) && |Concat(e[..p + 1])| == |Concat(d[..p])| + |e[p]|
  {
    WholeSplit(d, p);
    WholeSplit(e, p);
    var tail := e[p + 1..];
    TailSplit(e, p + 1, tail);
    Regrouped(Concat(d[..p]), e[p], e[p + 1], Concat(d[p + 1..]));
    ConcatSnoc(e, p);
  }

  lemma TailSplit<T>(e: seq<seq<T>>, p: nat, tail: seq<seq<T>>)
    requires p < |e| && tail == e[p..]
    ensures Concat(tail) == e[p] + Concat(e[p + 1..])
  {
    assert e[p..p + (|e| - p)] == tail && e[p + 1..p + (|e| - p)] == e[p + 1..];
    ConcatHead(e, p, |e| - p);
  }

  lemma Regrouped<T>(a: seq<T>, u: seq<T>, v: seq<T>, b: seq<T>)
    ensures a + (u + (v + b)) == a + ((u + v) + b)
  {
  }

  lemma ConcatSnoc<T>(e: seq<seq<T>>, p: nat)
    requires p < |e|
    ensures Concat(e[..p + 1]) == Concat(e[..p]) + e[p]
  {
    assert e[..p + 1][..p] == e[..p];
  }

  // ---------------------------------------------------------------------------
  // One node
  // ---------------------------------------------------------------------------

  /** The loop of DO_INSERT_CURRENT: the entries from the k-th on move up. */
  method ShiftUp<T>(list: array<T>, nr: nat, k: nat)
    requires k <= nr < list.Length
    modifies list
    ensures list[..k] == old(list[..k]) && list[k + 1..nr + 1] == old(list[k..nr])
  {
    var last := nr;
    while last > k
      invariant k <= last <= nr
      invariant forall i {:trigger list[i]} :: 0 <= i < list.Length ==>
                  list[i] == if last < i <= nr then old(list[i - 1]) else old(list[i])
    {
      list[last] := list[last - 1];
      last := last - 1;
    }
  }

  method PutIn<T>(n: ListNode<T>, k: nat, x: T)
    requires k <= n.nr < n.list.Length
    modifies n`nr, n.list
    ensures n.nr == old(n.nr) + 1 && Items(n) == old(Items(n))[..k] + [x] + old(Items(n))[k..]
  {
    ghost var s := Items(n);
    ShiftUp(n.list, n.nr, k);
    ghost var rest := n.list[k + 1..n.nr + 1];
    n.list[k] := x;
    n.nr := n.nr + 1;
    assert n.list[..k] == s[..k] && n.list[k + 1..n.nr] == rest == s[k..];
    assert n.list[..n.nr] == n.list[..k] + [n.list[k]] + n.list[k + 1..n.nr];
  }

  /** DO_DELETE_CURRENT: the entries behind the k-th move down. */
  method TakeOut<T>(n: ListNode<T>, k: nat)
    requires k < n.nr <= n.list.Length
    modifies n`nr, n.list
    ensures n.nr == old(n.nr) - 1 && Items(n) == old(Items(n))[..k] + old(Items(n))[k + 1..]
  {
    var this_ := k;
    while this_ < n.nr - 1
      invariant k <= this_ < n.nr && n.nr == old(n.nr)
      invariant forall i {:trigger n.list[i]} :: 0 <= i < n.list.Length ==>
                  n.list[i] == if k <= i < this_ then old(n.list[i + 1]) else old(n.list[i])
    {
      n.list[this_] := n.list[this_ + 1];
      this_ := this_ + 1;
    }
    n.nr := n.nr - 1;
    assert n.list[..n.nr] == old(n.list[..n.nr])[..k] + old(n.list[..n.nr])[k + 1..];
  }

  // ---------------------------------------------------------------------------
  // The ring
  // ---------------------------------------------------------------------------

  /** Only the entries of node p changed. */
  lemma NodeChanged<T>(r: seq<ListNode<T>>, d: seq<seq<T>>, p: nat)
    requires Separate(r) && p < |r| == |d| && forall j :: 0 <= j < |r| && j != p ==> d[j] == Items(r[j])
    ensures Data(r) == d[p := Items(r[p])]
  {
    DataIs(r, d[p := Items(r[p])]);
  }

  /** Put an entry before the k-th of node p, which has room. */
  method PutInRing<T>(n: ListNode<T>, k: nat, x: T, ghost r: seq<ListNode<T>>, ghost p: nat)
    requires Ring(r) && p < |r| && r[p] == n && k <= n.nr < LIST_NODE_NR
    modifies n`nr, n.list
    ensures Ring(r) && Data(r) == old(Data(r))[p := old(Items(n))[..k] + [x] + old(Items(n))[k..]]
    ensures n.nr == old(n.nr) + 1
  {
    ghost var d := Data(r);
    SeparatePairs(r);
    PutIn(n, k, x);
    forall j | 0 <= j < |r| && j != p ensures d[j] == Items(r[j]) {
      assert r[j] != r[p] && r[j].list != r[p].list;
    }
    NodeChanged(r, d, p);
  }

  method TakeOutOfRing<T>(n: ListNode<T>, k: nat, ghost r: seq<ListNode<T>>, ghost p: nat)
    requires Ring(r) && p < |r| && r[p] == n && k < n.nr
    modifies n`nr, n.list
    ensures Ring(r) && Data(r) == old(Data(r))[p := old(Items(n))[..k] + old(Items(n))[k + 1..]]
    ensures n.nr == old(n.nr) - 1
  {
    ghost var d := Data(r);
    SeparatePairs(r);
    TakeOut(n, k);
    forall j | 0 <= j < |r| && j != p ensures d[j] == Items(r[j]) {
      assert r[j] != r[p] && r[j].list != r[p].list;
    }
    NodeChanged(r, d, p);
  }

  ghost function PluggedAfter<T>(r: seq<ListNode<T>>, l: ListNode<T>, p: nat): (t: seq<ListNode<T>>)
    requires p < |r|
    ensures |t| == |r| + 1
  {
    r[..p + 1] + [l] + r[p + 1..]
  }

  /** The links of a ring that go through a node behind the one at p. */
  lemma PluggedLinked<T>(r: seq<ListNode<T>>, l: ListNode<T>, p: nat, t: seq<ListNode<T>>)
    requires p < |r| && t == PluggedAfter(r, l, p)
    requires r[p].next == l && r[Succ(r, p)].prev == l && l.next == r[Succ(r, p)] && l.prev == r[p]
    requires forall i {:trigger r[i].next} :: 0 <= i < |r| && i != p ==> r[i].next == r[Succ(r, i)]
    requires forall i {:trigger r[i].prev} :: 0 <= i < |r| && i != Succ(r, p) ==> r[i].prev == r[Pred(r, i)]
    ensures Linked(t)
  {
    forall i {:trigger t[i].next} | 0 <= i < |t| ensures t[i].next == t[Succ(t, i)] {
      if i != p + 1 {
        var k := if i <= p then i else i - 1;
        assert t[i] == r[k];
        assert r[k].next == if k == p then l else r[Succ(r, k)];
      }
    }
    forall i {:trigger t[i].prev} | 0 <= i < |t| ensures t[i].prev == t[Pred(t, i)] {
      if i != p + 1 {
        var k := if i <= p then i else i - 1;
        assert t[i] == r[k];
        assert r[k].prev == if k == Succ(r, p) then l else r[Pred(r, k)];
      }
    }
  }

  /** A new node goes behind the one at p. */
  method LinkAfter<T>(h: ListNode<T>, l: ListNode<T>, ghost r: seq<ListNode<T>>, ghost p: nat)
    requires Linked(r) && Separate(r) && p < |r| && r[p] == h && l !in r
    modifies r`prev, r`next, l`prev, l`next
    ensures Linked(PluggedAfter(r, l, p)) && h.next == l
  {
    SeparatePairs(r);
    var next := h.next;
    assert next == r[Succ(r, p)];
    l.next := next;
    next.prev := l;
    l.prev := h;
    h.next := l;
    PluggedLinked(r, l, p, PluggedAfter(r, l, p));
  }

  lemma PluggedSeparate<T>(r: seq<ListNode<T>>, l: ListNode<T>, p: nat)
    requires Separate(r) && p < |r| && l !in r && l.list !in Arrays(r) && l.list.Length == LIST_NODE_NR
    ensures Separate(PluggedAfter(r, l, p))
    ensures Nodes(PluggedAfter(r, l, p)) == Nodes(r) + {l} && Arrays(PluggedAfter(r, l, p)) == Arrays(r) + {l.list}
  {
    SeparatePairs(r);
    var t := PluggedAfter(r, l, p);
    forall i, j | 0 <= i < j < |t| ensures t[i] != t[j] && t[i].list != t[j].list {
      if i != p + 1 {
        assert t[i] == r[if i <= p then i else i - 1];
      }
      if j != p + 1 {
        assert t[j] == r[if j <= p then j else j - 1];
      }
    }
    forall i | 0 <= i < |t| ensures t[i].list.Length == LIST_NODE_NR {
      if i != p + 1 {
        assert t[i] == r[if i <= p then i else i - 1];
      }
    }
    UpToPairs(t, |t|);
    PluggedMembers(r, l, p);
  }

  lemma PluggedMembers<T>(r: seq<ListNode<T>>, l: ListNode<T>, p: nat)
    requires p < |r|
    ensures Nodes(PluggedAfter(r, l, p)) == Nodes(r) + {l} && Arrays(PluggedAfter(r, l, p)) == Arrays(r) + {l.list}
  {
    var t := PluggedAfter(r, l, p);
    assert r == r[..p + 1] + r[p + 1..];
    forall n | n in r ensures n in t {
    }
    assert t[p + 1] == l;
  }

  // ---------------------------------------------------------------------------
  // Splitting and inserting
  // ---------------------------------------------------------------------------

  /** The upper `nr` entries of a node, in a node of their own. */
  method UpperHalf<T>(n: ListNode<T>, nr: nat) returns (l: ListNode<T>)
    requires nr <= n.nr <= n.list.Length == LIST_NODE_NR
    ensures fresh(l) && fresh(l.list) && l.nr == nr && l.list.Length == LIST_NODE_NR
    ensures Items(l) == Items(n)[n.nr - nr..]
  {
    var fill := n.list[0];
    var list := new T[LIST_NODE_NR](_ => fill);
    l := new ListNode(list);
    forall i | 0 <= i < nr {
      list[i] := n.list[n.nr - nr + i];
    }
    l.nr := nr;
    assert l.list[..nr] == n.list[..n.nr][n.nr - nr..];
  }

  /** The two halves of a node, before the new one is linked. */
  method Halve<T>(head: ListNode<T>, ghost r: seq<ListNode<T>>, ghost p: nat, ghost d: seq<seq<T>>)
    returns (l: ListNode<T>)
    requires Ring(r) && p < |r| && r[p] == head && d == Data(r)
    modifies head`nr
    ensures fresh(l) && fresh(l.list) && l.list.Length == LIST_NODE_NR && Linked(r) && Filled(r)
    ensures l.nr == old(head.nr) / 2 && head.nr == old(head.nr) - l.nr && Items(head) + Items(l) == d[p]
    ensures forall j :: 0 <= j < |r| && j != p ==> Items(r[j]) == d[j]
  {
    SeparatePairs(r);
    var nr := head.nr / 2;
    l := UpperHalf(head, nr);
    ghost var y := Items(head);
    head.nr := head.nr - nr;
    assert Items(head) == y[..head.nr];
    forall i | 0 <= i < |r| ensures r[i].nr <= LIST_NODE_NR {
    }
  }

  /** The upper half goes behind the lower. */
  method LinkHalf<T>(head: ListNode<T>, l: ListNode<T>, ghost r: seq<ListNode<T>>, ghost p: nat, ghost d: seq<seq<T>>)
    returns (ghost t: seq<ListNode<T>>)
    requires Linked(r) && Separate(r) && Filled(r) && p < |r| == |d| && r[p] == head
    requires l !in r && l.list !in Arrays(r) && l.list.Length == LIST_NODE_NR && l.nr <= LIST_NODE_NR
    requires Items(head) + Items(l) == d[p] && forall j :: 0 <= j < |r| && j != p ==> Items(r[j]) == d[j]
    modifies r`prev, r`next, l`prev, l`next
    ensures t == PluggedAfter(r, l, p) && Ring(t) && head.next == l && CutAt(d, Data(t), p)
    ensures Nodes(t) == Nodes(r) + {l} && Arrays(t) == Arrays(r) + {l.list}
  {
    t := PluggedAfter(r, l, p);
    LinkAfter(head, l, r, p);
    PluggedSeparate(r, l, p);
    PluggedFilled(r, l, p);
    SplitData(r, d, t, p, l);
  }

  /** split_ptr_list_head: half of the entries go to a new node behind. */
  method SplitPtrListHead<T>(head: ListNode<T>, ghost r: seq<ListNode<T>>, ghost p: nat, ghost d: seq<seq<T>>)
    returns (newlist: ListNode<T>, ghost t: seq<ListNode<T>>)
    requires Ring(r) && p < |r| && r[p] == head && d == Data(r)
    modifies head`nr, r`prev, r`next
    ensures t == PluggedAfter(r, newlist, p) && Ring(t) && head.next == newlist
    ensures fresh(newlist) && fresh(newlist.list)
    ensures Nodes(t) == Nodes(r) + {newlist} && Arrays(t) == Arrays(r) + {newlist.list}
    ensures CutAt(d, Data(t), p) && newlist.nr == old(head.nr) / 2
            && head.nr == old(head.nr) - newlist.nr == |Data(t)[p]|
  {
    newlist := Halve(head, r, p, d);
    t := LinkHalf(head, newlist, r, p, d);
    DataAt(t, p);
  }

  twostate lemma GrewByOne<T>(r: seq<ListNode<T>>, new t: seq<ListNode<T>>, new l: ListNode<T>)
    requires fresh(l) && fresh(l.list) && Nodes(t) == Nodes(r) + {l} && Arrays(t) == Arrays(r) + {l.list}
    ensures Grew(r, t)
  {
  }

  lemma PluggedFilled<T>(r: seq<ListNode<T>>, l: ListNode<T>, p: nat)
    requires Filled(r) && l.nr <= LIST_NODE_NR && p < |r|
    ensures Filled(PluggedAfter(r, l, p))
  {
  }

  lemma SplitData<T>(r: seq<ListNode<T>>, d: seq<seq<T>>, t: seq<ListNode<T>>, p: nat, l: ListNode<T>)
    requires p < |r| == |d| && t == PluggedAfter(r, l, p)
    requires Items(r[p]) + Items(l) == d[p] && forall j :: 0 <= j < |r| && j != p ==> Items(r[j]) == d[j]
    ensures CutAt(d, Data(t), p) && Data(t)[p + 1] == Items(l)
  {
    var e := Data(t);
    forall j | 0 <= j < p ensures e[j] == d[j] {
      assert t[j] == r[j];
    }
    forall j | p + 2 <= j < |e| ensures e[j] == d[j - 1] {
      assert t[j] == r[j - 1];
    }
    assert e[..p] == d[..p] && e[p + 2..] == d[p + 1..];
  }

  /** The list has x more, before what the cursor stood on; the cursor stands on x. */
  ghost predicate InsertedAt<T>(s: seq<T>, pos: nat, x: T, t: seq<T>) {
    pos <= |s| && t == s[..pos] + [x] + s[pos..]
  }

  /** A cursor in the upper half moves to the new node. */
  lemma CursorStays<T>(d: seq<seq<T>>, e: seq<seq<T>>, p: nat, nr: nat, kept: nat, next: nat)
    requires CutAt(d, e, p) && |e[p]| == kept && next == p + 1
    ensures Concat(e) == Concat(d)
    ensures if nr < kept then PlaceOf(e, p, nr) == PlaceOf(d, p, nr)
            else PlaceOf(e, next, nr - kept) == PlaceOf(d, p, nr)
  {
    CutConcat(d, e, p);
    assert e[..p] == d[..p];
  }

  lemma PluggedAt<T>(r: seq<ListNode<T>>, l: ListNode<T>, p: nat, next: nat, t: seq<ListNode<T>>)
    requires p < |r| && next == p + 1 && t == PluggedAfter(r, l, p)
    ensures next < |t| && t[p] == r[p] && t[next] == l && t[0] == r[0]
  {
  }

  /** Before an insertion, a full node is split; the cursor stays where it is. */
  method MakeRoom<T>(list0: ListNode<T>, nr0: nat, ghost r: seq<ListNode<T>>, ghost p0: nat, ghost d: seq<seq<T>>)
    returns (list: ListNode<T>, nr: nat, ghost t: seq<ListNode<T>>, ghost p: nat, ghost e: seq<seq<T>>)
    requires Ring(r) && p0 < |r| && r[p0] == list0 && nr0 <= list0.nr && d == Data(r)
    modifies list0`nr, r`prev, r`next
    ensures Ring(t) && p < |t| && t[p] == list && nr <= list.nr < LIST_NODE_NR && t[0] == r[0] && e == Data(t)
    ensures Grew(r, t)
    ensures Concat(e) == Concat(d) && PlaceOf(e, p, nr) == PlaceOf(d, p0, nr0)
  {
    list, nr, t, p, e := list0, nr0, r, p0, d;
    if list.nr == LIST_NODE_NR {
      var newlist;
      newlist, t := SplitPtrListHead(list, r, p, d);
      GrewByOne(r, t, newlist);
      e := Data(t);
      ghost var next := p + 1;
      PluggedAt(r, newlist, p, next, t);
      CursorStays(d, e, p, nr, list.nr, next);
      if nr >= list.nr {
        nr := nr - list.nr;
        list := list.next;
        p := next;
      }
    }
  }

  /** DO_INSERT_CURRENT, at a place of the list's contents s. */
  method InsertCurrent<T>(list0: ListNode<T>, nr0: nat, x: T, ghost r: seq<ListNode<T>>, ghost p0: nat,
                          ghost s: seq<T>, ghost pos: nat)
    returns (list: ListNode<T>, nr: nat, ghost t: seq<ListNode<T>>, ghost p: nat)
    requires Ring(r) && p0 < |r| && r[p0] == list0 && nr0 <= list0.nr
    requires s == Contents(r) && pos == PlaceOf(Data(r), p0, nr0)
    modifies Nodes(r), Arrays(r)
    ensures Ring(t) && p < |t| && t[p] == list && nr < list.nr && t[0] == r[0] && Grew(r, t)
    ensures pos == PlaceOf(Data(t), p, nr) && InsertedAt(s, pos, x, Contents(t))
  {
    ghost var d, e := Data(r), [];
    list, nr, t, p, e := MakeRoom(list0, nr0, r, p0, d);
    InNodesAndArrays(t, p, list);
    ghost var y := Items(list);
    DataAt(t, p);
    PutInRing(list, nr, x, t, p);
    InsertedConcat(e, p, nr, x, Data(t), y);
  }

  lemma PlaceInside<T>(d: seq<seq<T>>, p: nat, k: nat)
    requires p < |d| && k <= |d[p]|
    ensures PlaceOf(d, p, k) <= |Concat(d)|
    ensures k < |d[p]| ==> PlaceOf(d, p, k) < |Concat(d)| && Concat(d)[PlaceOf(d, p, k)] == d[p][k]
  {
    WholeSplit(d, p);
  }

  lemma HeadAt<T>(t: seq<ListNode<T>>, p: nat)
    requires Separate(t) && p < |t|
    ensures t[p] == t[0] <==> p == 0
  {
    SeparatePairs(t);
  }

  lemma InNodesAndArrays<T>(r: seq<ListNode<T>>, p: nat, n: ListNode<T>)
    requires p < |r| && r[p] == n
    ensures n in Nodes(r) && n.list in Arrays(r)
  {
  }
}
