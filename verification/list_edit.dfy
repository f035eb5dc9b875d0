/** Appending, removing and packing (ptrlist.c). */
module ListEdit {
  import opened Options
  import opened SortMerge
  import opened PtrList
  import opened Sort
  import opened ListOps

  // ---------------------------------------------------------------------------
  // Appending
  // ---------------------------------------------------------------------------

  /** A list, which has no nodes when the pointer is null. */
  ghost predicate IsList<T>(head: ListNode?<T>, r: seq<ListNode<T>>)
    reads r
  {
    if head == null then r == [] else Ring(r) && r[0] == head
  }

  /** A node of its own, with one entry. */
  method NewNode<T>(x: T) returns (n: ListNode<T>)
    ensures fresh(n) && fresh(n.list) && n.list.Length == LIST_NODE_NR && n.nr == 0 && n.next == n.prev == n
  {
    var list := new T[LIST_NODE_NR](_ => x);
    n := new ListNode(list);
  }

  lemma LoneRing<T>(n: ListNode<T>)
    requires n.next == n.prev == n && n.list.Length == LIST_NODE_NR && n.nr == 0
    ensures Ring([n]) && Contents([n]) == []
  {
    var d := Data([n]);
    assert d[0] == Items([n][0]) == [] && d[0..1] == d;
    ConcatOne(d, 0);
  }

  lemma AppendedConcat<T>(d: seq<seq<T>>, p: nat, y: seq<T>, x: T, e: seq<seq<T>>)
    requires p + 1 == |d| && d[p] == y && e == d[p := y + [x]]
    ensures Concat(e) == Concat(d) + [x]
  {
    assert e[..p] == d[..p];
  }

  /** Put an entry behind the last one of node p, the last node. */
  method AppendTo<T>(n: ListNode<T>, x: T, ghost r: seq<ListNode<T>>, ghost p: nat)
    requires Ring(r) && p + 1 == |r| && r[p] == n && n.nr < LIST_NODE_NR
    modifies n`nr, n.list
    ensures Ring(r) && Contents(r) == old(Contents(r)) + [x]
  {
    ghost var d, y := Data(r), Items(n);
    DataAt(r, p);
    PutInRing(n, n.nr, x, r, p);
    assert y[..|y|] + [x] + y[|y|..] == y + [x];
    AppendedConcat(d, p, y, x, Data(r));
  }

  lemma EmptyAppended<T>(d: seq<seq<T>>, e: seq<seq<T>>)
    requires e == d + [[]]
    ensures Concat(e) == Concat(d)
  {
    assert e[..|e| - 1] == d && e[|e| - 1] == [];
  }

  lemma PluggedEmpty<T>(r: seq<ListNode<T>>, d: seq<seq<T>>, l: ListNode<T>, p: nat, t: seq<ListNode<T>>)
    requires p + 1 == |r| == |d| && t == PluggedAfter(r, l, p) && Items(l) == []
    requires forall j :: 0 <= j < |r| ==> Items(r[j]) == d[j]
    ensures t == r + [l] && Data(t) == d + [[]]
  {
    DataIs(t, d + [[]]);
  }

  /** A new node behind the last one. */
  method GrowList<T>(last: ListNode<T>, x: T, ghost r: seq<ListNode<T>>, ghost p: nat)
    returns (n: ListNode<T>, ghost t: seq<ListNode<T>>)
    requires Ring(r) && p + 1 == |r| && r[p] == last
    modifies r`prev, r`next
    ensures Ring(t) && t == r + [n] && n.nr == 0 && fresh(n) && fresh(n.list) && Contents(t) == old(Contents(r))
            && Grew(r, t)
  {
    ghost var d := Data(r);
    n := NewNode(x);
    LinkAfter(last, n, r, p);
    t := PluggedAfter(r, n, p);
    PluggedSeparate(r, n, p);
    PluggedFilled(r, n, p);
    PluggedEmpty(r, d, n, p, t);
    EmptyAppended(d, Data(t));
    GrewByOne(r, t, n);
  }

  /** __add_ptr_list */
  method AddPtrList<T>(list: ListNode?<T>, x: T, ghost r: seq<ListNode<T>>)
    returns (head: ListNode<T>, ghost t: seq<ListNode<T>>)
    requires IsList(list, r)
    modifies Nodes(r), Arrays(r)
    ensures IsList(head, t) && Contents(t) == old(Contents(r)) + [x] && Grew(r, t)
    ensures list != null ==> head == list && r <= t
  {
    if list == null {
      head := NewNode(x);
      t := [head];
      LoneRing(head);
      AppendTo(head, x, t, 0);
    } else {
      head, t := list, r;
      var last := list.prev;
      assert last == r[|r| - 1];
      if last.nr >= LIST_NODE_NR {
        last, t := GrowList(last, x, r, |r| - 1);
      }
      AppendTo(last, x, t, |t| - 1);
    }
  }

  // ---------------------------------------------------------------------------
  // The last entry
  // ---------------------------------------------------------------------------

  lemma DroppedConcat<T>(d: seq<seq<T>>, p: nat, y: seq<T>, e: seq<seq<T>>)
    requires p < |d| && d[p] == y && |y| > 0 && e == d[p := y[..|y| - 1]] && forall j :: p < j < |d| ==> d[j] == []
    ensures |Concat(d)| > 0 && Concat(e) == Concat(d)[..|Concat(d)| - 1] && Concat(d)[|Concat(d)| - 1] == y[|y| - 1]
  {
    WholeSplit(d, p);
    RefilledConcat(d, p, y[..|y| - 1]);
    AllEmpty(d[p + 1..]);
  }

  lemma {:induction false} AllEmpty<T>(d: seq<seq<T>>)
    requires forall j :: 0 <= j < |d| ==> d[j] == []
    ensures Concat(d) == []
  {
    if d != [] {
      AllEmpty(d[..|d| - 1]);
    }
  }

  /** Back from the head to the last node that is not empty. */
  method LastFilled<T>(first: ListNode<T>, ghost r: seq<ListNode<T>>, ghost d: seq<seq<T>>)
    returns (found: bool, last: ListNode<T>, ghost p: nat)
    requires Ring(r) && r[0] == first && d == Data(r)
    ensures p < |r| && (forall j :: p < j < |r| ==> d[j] == []) && Data(r) == d
    ensures if found then last == r[p] && last.nr > 0 else forall j :: 0 <= j < |r| ==> d[j] == []
    ensures found <==> exists j :: 0 <= j < |r| && d[j] != []
  {
    last := first;
    var done := false;
    p := |r|;
    while !done
      invariant p <= |r| && last == (if p == |r| then r[0] else r[p]) && (done <==> p == 0)
      invariant forall j :: p <= j < |r| ==> d[j] == []
      decreases p
    {
      last := last.prev;
      p := p - 1;
      assert last == r[p];
      DataAt(r, p);
      if last.nr > 0 {
        return true, last, p;
      }
      HeadAt(r, p);
      done := last == first;
    }
    found := false;
  }

  /** undo_ptr_list_last: the last entry goes, and no node. */
  method UndoPtrListLast<T>(first: ListNode?<T>, ghost r: seq<ListNode<T>>) returns (ptr: Option<T>)
    requires IsList(first, r)
    modifies r`nr
    ensures IsList(first, r)
    ensures WithoutLast(old(Contents(r)), ptr, Contents(r))
  {
    ghost var d := Data(r);
    if first == null {
      assert |d| == 0 && Concat(d) == [];
      return None;
    }
    ghost var p;
    var found, last;
    found, last, p := LastFilled(first, r, d);
    if found {
      var x := DropLast(last, r, p, d);
      ptr := Some(x);
    } else {
      AllEmpty(d);
      ptr := None;
    }
  }

  /** The last entry of s, if it has one, and what is left. */
  ghost predicate WithoutLast<T>(s: seq<T>, x: Option<T>, t: seq<T>) {
    if s == [] then x == None && t == [] else x == Some(s[|s| - 1]) && t == s[..|s| - 1]
  }

  method DropLast<T>(n: ListNode<T>, ghost r: seq<ListNode<T>>, ghost p: nat, ghost d: seq<seq<T>>)
    returns (x: T)
    requires Ring(r) && p < |r| && r[p] == n && n.nr > 0 && d == Data(r) && forall j :: p < j < |r| ==> d[j] == []
    modifies n`nr
    ensures Ring(r) && WithoutLast(Concat(d), Some(x), Contents(r))
  {
    ghost var y := Items(n);
    DataAt(r, p);
    x := n.list[n.nr - 1];
    SeparatePairs(r);
    n.nr := n.nr - 1;
    forall i | 0 <= i < |r| ensures r[i].nr <= LIST_NODE_NR {
    }
    assert Linked(r);
    assert Items(n) == y[..|y| - 1];
    OthersKept(r, d, p, y[..|y| - 1]);
    DroppedConcat(d, p, y, Data(r));
  }

  lemma OthersKept<T>(r: seq<ListNode<T>>, d: seq<seq<T>>, p: nat, y: seq<T>)
    requires Separate(r) && p < |r| == |d| && Items(r[p]) == y
    requires forall j :: 0 <= j < |r| && j != p ==> d[j] == Items(r[j])
    ensures Data(r) == d[p := y]
  {
    NodeChanged(r, d, p);
  }

  // ---------------------------------------------------------------------------
  // Removing and replacing entries
  // ---------------------------------------------------------------------------

  /** Without the first `count` entries x, or all of them when `count` is not positive. */
  function Removed<T(==)>(s: seq<T>, x: T, count: int): seq<T> {
    if s == [] then [] else if s[0] != x then [s[0]] + Removed(s[1..], x, count)
    else if count == 1 then s[1..] else Removed(s[1..], x, count - 1)
  }

  /** With y in the place of the first `count` entries x, or all of them. */
  function Replaced<T(==)>(s: seq<T>, x: T, y: T, count: int): seq<T> {
    if s == [] then [] else if s[0] != x then [s[0]] + Replaced(s[1..], x, y, count)
    else if count == 1 then [y] + s[1..] else [y] + Replaced(s[1..], x, y, count - 1)
  }

  function Occurrences<T(==)>(s: seq<T>, x: T): nat {
    if s == [] then 0 else (if s[0] == x then 1 else 0) + Occurrences(s[1..], x)
  }

  ghost function Before<T>(d: seq<seq<T>>, p: nat, k: nat): seq<T>
    requires p < |d| && k <= |d[p]|
  {
    Concat(d[..p]) + d[p][..k]
  }

  ghost function Behind<T>(d: seq<seq<T>>, p: nat, k: nat): seq<T>
    requires p < |d| && k <= |d[p]|
  {
    d[p][k..] + Concat(d[p + 1..])
  }

  lemma AroundCursor<T>(d: seq<seq<T>>, p: nat, k: nat)
    requires p < |d| && k <= |d[p]|
    ensures Concat(d) == Before(d, p, k) + Behind(d, p, k)
  {
    WholeSplit(d, p);
    assert d[p] == d[p][..k] + d[p][k..];
  }

  /** From the end of a node to the start of the next one, or to the end of the list. */
  lemma CursorWraps<T>(d: seq<seq<T>>, p: nat, k: nat, next: nat)
    requires p < |d| && k == |d[p]| && next == p + 1
    ensures if next < |d| then Before(d, next, 0) == Before(d, p, k) && Behind(d, next, 0) == Behind(d, p, k)
            else Before(d, p, k) == Concat(d) && Behind(d, p, k) == []
  {
    ConcatSnoc(d, p);
    if next < |d| {
      TailSplit(d, next, d[next..]);
      assert Behind(d, p, k) == Concat(d[next..]);
    } else {
      assert d[..next] == d;
    }
  }

  /** Past the entry under the cursor. */
  lemma CursorMoves<T>(d: seq<seq<T>>, p: nat, k: nat, next: nat)
    requires p < |d| && k < |d[p]| && next == k + 1
    ensures Before(d, p, next) == Before(d, p, k) + [d[p][k]] && Behind(d, p, k) == [d[p][k]] + Behind(d, p, next)
  {
    assert d[p][..next] == d[p][..k] + [d[p][k]] && d[p][k..] == [d[p][k]] + d[p][next..];
  }

  /** The entry under the cursor goes. */
  lemma CursorDeletes<T>(d: seq<seq<T>>, p: nat, k: nat, y: seq<T>, e: seq<seq<T>>)
    requires p < |d| && d[p] == y && k < |y| && e == d[p := y[..k] + y[k + 1..]]
    ensures Before(e, p, k) == Before(d, p, k) && Behind(d, p, k) == [y[k]] + Behind(e, p, k)
  {
    assert e[..p] == d[..p] && e[p + 1..] == d[p + 1..];
    assert e[p][..k] == y[..k] && e[p][k..] == y[k + 1..] && y[k..] == [y[k]] + y[k + 1..];
  }

  /** `goal` is what the list will hold when the walk goes on with `count`. */
  ghost predicate Deleting<T>(goal: seq<T>, x: T, count: int, d: seq<seq<T>>, p: nat, k: nat) {
    && p < |d| && k <= |d[p]|
    && goal == Before(d, p, k) + Removed(Behind(d, p, k), x, count)
    && count <= Occurrences(Behind(d, p, k), x)
  }

  lemma DeletePasses<T>(goal: seq<T>, x: T, count: int, d: seq<seq<T>>, p: nat, k: nat, next: nat)
    requires Deleting(goal, x, count, d, p, k) && k < |d[p]| && next == k + 1 && d[p][k] != x
    ensures Deleting(goal, x, count, d, p, next)
  {
    CursorMoves(d, p, k, next);
    var rest := Behind(d, p, next);
    assert Behind(d, p, k)[1..] == rest;
    assert Before(d, p, k) + ([d[p][k]] + Removed(rest, x, count)) ==
             (Before(d, p, k) + [d[p][k]]) + Removed(rest, x, count);
  }

  lemma DeleteTakes<T>(goal: seq<T>, x: T, count: int, d: seq<seq<T>>, p: nat, k: nat, y: seq<T>, e: seq<seq<T>>,
                       left: int)
    requires Deleting(goal, x, count, d, p, k) && d[p] == y && k < |y| && y[k] == x && left == count - 1
    requires e == d[p := y[..k] + y[k + 1..]]
    ensures if left == 0 then goal == Concat(e) else Deleting(goal, x, left, e, p, k)
    ensures |Concat(e)| == |Concat(d)| - 1
  {
    CursorDeletes(d, p, k, y, e);
    AroundCursor(d, p, k);
    AroundCursor(e, p, k);
    assert Behind(d, p, k)[1..] == Behind(e, p, k);
  }

  lemma DeleteWraps<T>(goal: seq<T>, x: T, count: int, d: seq<seq<T>>, p: nat, k: nat, next: nat)
    requires Deleting(goal, x, count, d, p, k) && k == |d[p]| && next == p + 1
    ensures if next < |d| then Deleting(goal, x, count, d, next, 0) else goal == Concat(d) && count <= 0
  {
    CursorWraps(d, p, k, next);
  }

  /** DELETE_CURRENT_PTR on an entry x. */
  method DeleteHere<T(==)>(n: ListNode<T>, nr: nat, x: T, count: int, ghost left: int, ghost goal: seq<T>,
                           ghost r: seq<ListNode<T>>, ghost p: nat, ghost d: seq<seq<T>>)
    returns (ghost e: seq<seq<T>>)
    requires Ring(r) && p < |r| && r[p] == n && nr < n.nr && n.list[nr] == x && d == Data(r) && left == count - 1
    requires Deleting(goal, x, count, d, p, nr)
    modifies n`nr, n.list
    ensures Ring(r) && e == Data(r) && n.nr == old(n.nr) - 1 && |Concat(e)| == |Concat(d)| - 1
    ensures if left == 0 then goal == Concat(e) else Deleting(goal, x, left, e, p, nr)
  {
    ghost var y := Items(n);
    DataAt(r, p);
    TakeOutOfRing(n, nr, r, p);
    e := Data(r);
    DeleteTakes(goal, x, count, d, p, nr, y, e, left);
  }

  /** One entry of the walk: it goes, or the cursor moves past it. */
  method DeleteStep<T(==)>(n: ListNode<T>, nr0: nat, x: T, count0: int, ghost goal: seq<T>, ghost r: seq<ListNode<T>>,
                           ghost p: nat, ghost d0: seq<seq<T>>)
    returns (nr: nat, count: int, out: bool, ghost d: seq<seq<T>>)
    requires Ring(r) && p < |r| && r[p] == n && nr0 < n.nr && d0 == Data(r) && Deleting(goal, x, count0, d0, p, nr0)
    modifies n`nr, n.list
    ensures Ring(r) && d == Data(r) && count0 - count == |Concat(d0)| - |Concat(d)| && nr <= n.nr
    ensures n.nr - nr < old(n.nr) - nr0
    ensures if out then count == 0 && Concat(d) == goal else Deleting(goal, x, count, d, p, nr)
  {
    DataAt(r, p);
    if n.list[nr0] == x {
      count, nr := count0 - 1, nr0;
      d := DeleteHere(n, nr0, x, count0, count, goal, r, p, d0);
      out := count == 0;
    } else {
      nr, count, out, d := nr0 + 1, count0, false, d0;
      DeletePasses(goal, x, count, d, p, nr0, nr);
    }
  }

  /** One node of delete_ptr_list_entry's walk. */
  method DeleteInNode<T(==)>(n: ListNode<T>, x: T, count0: int, ghost goal: seq<T>, ghost r: seq<ListNode<T>>,
                             ghost p: nat, ghost d0: seq<seq<T>>)
    returns (count: int, out: bool, ghost d: seq<seq<T>>)
    requires Ring(r) && p < |r| && r[p] == n && d0 == Data(r) && Deleting(goal, x, count0, d0, p, 0)
    modifies n`nr, n.list
    ensures Ring(r) && d == Data(r) && count0 - count == |Concat(d0)| - |Concat(d)|
    ensures if out then count == 0 && Concat(d) == goal else Deleting(goal, x, count, d, p, |d[p]|)
  {
    count, out, d := count0, false, d0;
    var nr: nat := 0;
    while nr < n.nr && !out
      invariant Ring(r) && d == Data(r) && nr <= n.nr && count0 - count == |Concat(d0)| - |Concat(d)|
      invariant if out then count == 0 && Concat(d) == goal else Deleting(goal, x, count, d, p, nr)
      decreases n.nr - nr
    {
      nr, count, out, d := DeleteStep(n, nr, x, count, goal, r, p, d);
    }
    DataAt(r, p);
  }

  lemma DeleteStarts<T>(goal: seq<T>, x: T, count: int, d: seq<seq<T>>)
    requires |d| > 0 && goal == Removed(Concat(d), x, count) && count <= Occurrences(Concat(d), x)
    ensures Deleting(goal, x, count, d, 0, 0)
  {
    AroundCursor(d, 0, 0);
    assert Before(d, 0, 0) == [];
    assert Behind(d, 0, 0) == Concat(d);
  }

  /** Where the walk is: done, or about to enter the node at p. */
  ghost predicate DeleteAt<T>(goal: seq<T>, x: T, count: int, d: seq<seq<T>>, r: seq<ListNode<T>>, p: nat,
                              list: ListNode<T>, done: bool)
  {
    if done then Concat(d) == goal && count <= 0
    else p < |r| && r[p] == list && Deleting(goal, x, count, d, p, 0)
  }

  /** One node of the walk, and on to the next. */
  method DeleteNext<T(==)>(head: ListNode<T>, list0: ListNode<T>, x: T, count0: int, ghost goal: seq<T>,
                           ghost r: seq<ListNode<T>>, ghost p: nat, ghost d0: seq<seq<T>>, ghost next: nat)
    returns (list: ListNode<T>, count: int, done: bool, ghost d: seq<seq<T>>)
    requires Ring(r) && r[0] == head && p < |r| && r[p] == list0 && next == p + 1 && d0 == Data(r)
    requires Deleting(goal, x, count0, d0, p, 0)
    modifies list0`nr, list0.list
    ensures Ring(r) && d == Data(r) && count0 - count == |Concat(d0)| - |Concat(d)|
    ensures DeleteAt(goal, x, count, d, r, next, list, done)
  {
    list := list0;
    var out;
    count, out, d := DeleteInNode(list, x, count0, goal, r, p, d0);
    done := true;
    if !out {
      DeleteWraps(goal, x, count, d, p, |d[p]|, next);
      list := list.next;
      assert list == r[Succ(r, p)];
      HeadAt(r, Succ(r, p));
      done := list == head;
    }
  }

  /** The walk of delete_ptr_list_entry over all nodes. */
  method DeleteWalk<T(==)>(head: ListNode<T>, x: T, count0: int, ghost goal: seq<T>, ghost r: seq<ListNode<T>>)
    returns (count: int)
    requires Ring(r) && r[0] == head && goal == Removed(Contents(r), x, count0) && count0 <= Occurrences(Contents(r), x)
    modifies Nodes(r)`nr, Arrays(r)
    ensures Ring(r) && Contents(r) == goal && count0 - count == |old(Contents(r))| - |goal|
    ensures count <= 0 || count0 <= 0
  {
    ghost var d0 := Data(r);
    ghost var d, p: nat := d0, 0;
    DeleteStarts(goal, x, count0, d);
    var list, done := head, false;
    count := count0;
    while !done
      invariant Ring(r) && d == Data(r) && count0 - count == |Concat(d0)| - |Concat(d)|
      invariant DeleteAt(goal, x, count, d, r, p, list, done)
      decreases |r| - p, !done
    {
      InNodesAndArrays(r, p, list);
      ghost var next := p + 1;
      list, count, done, d := DeleteNext(head, list, x, count, goal, r, p, d, next);
      p := next;
    }
  }

  // ---------------------------------------------------------------------------
  // Packing
  // ---------------------------------------------------------------------------

  ghost predicate NoEmptyNodes<T>(r: seq<ListNode<T>>)
    reads r`nr
  {
    forall i :: 0 <= i < |r| ==> r[i].nr > 0
  }

  lemma WithoutEmpty<T>(d: seq<seq<T>>, p: nat, e: seq<seq<T>>)
    requires p < |d| && d[p] == [] && e == d[..p] + d[p + 1..]
    ensures Concat(e) == Concat(d)
  {
    WholeSplit(d, p);
    ConcatAppend(d[..p], d[p + 1..]);
    assert [] + Concat(d[p + 1..]) == Concat(d[p + 1..]);
  }

  ghost function Dropped<T>(r: seq<ListNode<T>>, p: nat): (t: seq<ListNode<T>>)
    requires p < |r|
    ensures |t| == |r| - 1
  {
    r[..p] + r[p + 1..]
  }

  lemma DroppedSeparate<T>(r: seq<ListNode<T>>, p: nat)
    requires Separate(r) && p < |r|
    ensures Separate(Dropped(r, p)) && Nodes(Dropped(r, p)) <= Nodes(r)
  {
    SeparatePairs(r);
    var t := Dropped(r, p);
    forall i, j | 0 <= i < j < |t| ensures t[i] != t[j] && t[i].list != t[j].list {
      assert t[i] == r[if i < p then i else i + 1] && t[j] == r[if j < p then j else j + 1];
    }
    forall i | 0 <= i < |t| ensures t[i].list.Length == LIST_NODE_NR {
      assert t[i] == r[if i < p then i else i + 1];
    }
    UpToPairs(t, |t|);
  }

  /** The links of a ring that go past the node at p. */
  lemma DroppedLinked<T>(r: seq<ListNode<T>>, p: nat, t: seq<ListNode<T>>)
    requires p < |r| && |r| > 1 && t == Dropped(r, p)
    requires r[Pred(r, p)].next == r[Succ(r, p)] && r[Succ(r, p)].prev == r[Pred(r, p)]
    requires forall i {:trigger r[i].next} :: 0 <= i < |r| && i != Pred(r, p) ==> r[i].next == r[Succ(r, i)]
    requires forall i {:trigger r[i].prev} :: 0 <= i < |r| && i != Succ(r, p) ==> r[i].prev == r[Pred(r, i)]
    ensures Linked(t)
  {
    forall i {:trigger t[i].next} | 0 <= i < |t| ensures t[i].next == t[Succ(t, i)] {
      var k := if i < p then i else i + 1;
      assert t[i] == r[k];
      assert r[k].next == if k == Pred(r, p) then r[Succ(r, p)] else r[Succ(r, k)];
    }
    forall i {:trigger t[i].prev} | 0 <= i < |t| ensures t[i].prev == t[Pred(t, i)] {
      var k := if i < p then i else i + 1;
      assert t[i] == r[k];
      assert r[k].prev == if k == Succ(r, p) then r[Pred(r, p)] else r[Pred(r, k)];
    }
  }

  /** The links around an empty node. */
  method UnlinkEmpty<T>(n: ListNode<T>, ghost r: seq<ListNode<T>>, ghost p: nat) returns (next: ListNode<T>)
    requires Linked(r) && Separate(r) && p < |r| && r[p] == n && |r| > 1
    modifies Nodes(r)`prev, Nodes(r)`next
    ensures Linked(Dropped(r, p)) && next == r[Succ(r, p)]
  {
    SeparatePairs(r);
    next := n.next;
    var prev := n.prev;
    assert prev == r[Pred(r, p)] && next == r[Succ(r, p)];
    prev.next := next;
    next.prev := prev;
    DroppedLinked(r, p, Dropped(r, p));
  }

  lemma DroppedData<T>(r: seq<ListNode<T>>, d: seq<seq<T>>, p: nat, t: seq<ListNode<T>>)
    requires p < |r| == |d| && t == Dropped(r, p) && d[p] == [] && forall j :: 0 <= j < |r| ==> d[j] == Items(r[j])
    ensures Contents(t) == Concat(d)
  {
    var e := d[..p] + d[p + 1..];
    forall j | 0 <= j < |t| ensures e[j] == Items(t[j]) {
      assert t[j] == r[if j < p then j else j + 1];
    }
    DataIs(t, e);
    WithoutEmpty(d, p, e);
  }

  /** The first p nodes are not empty. */
  ghost predicate FilledTo<T>(r: seq<ListNode<T>>, p: nat)
    reads r`nr
  {
    forall j :: 0 <= j < p && j < |r| ==> r[j].nr > 0
  }

  /** Take an empty node out of the list. */
  method DropEmpty<T>(n: ListNode<T>, ghost r: seq<ListNode<T>>, ghost p: nat, ghost c: seq<T>)
    returns (next: ListNode<T>, ghost t: seq<ListNode<T>>)
    requires Ring(r) && p < |r| && r[p] == n && |r| > 1 && n.nr == 0 && c == Contents(r) && FilledTo(r, p)
    modifies Nodes(r)`prev, Nodes(r)`next
    ensures Ring(t) && t == Dropped(r, p) && next == r[Succ(r, p)] && Contents(t) == c && Nodes(t) <= Nodes(r)
    ensures FilledTo(t, p)
  {
    ghost var d := Data(r);
    DataAt(r, p);
    next := UnlinkEmpty(n, r, p);
    t := Dropped(r, p);
    DroppedSeparate(r, p);
    forall i | 0 <= i < |t| ensures t[i].nr <= LIST_NODE_NR {
      assert t[i] == r[if i < p then i else i + 1];
    }
    forall j | 0 <= j < p && j < |t| ensures t[j].nr > 0 {
      assert t[j] == r[j];
    }
    DroppedData(r, d, p, t);
  }

  /** pack_ptr_list, of a list that is not null. `done` when the walk is back at the head. */
  ghost predicate Packing<T>(t: seq<ListNode<T>>, p: nat, head: ListNode<T>, entry: ListNode<T>, c: seq<T>)
    reads t, Arrays(t)
  {
    && Ring(t) && p <= |t| && t[0] == head && entry == t[if p == |t| then 0 else p] && Contents(t) == c
    && FilledTo(t, p)
  }

  /** An empty entry goes. */
  method PackDrop<T>(head0: ListNode<T>, entry0: ListNode<T>, ghost r: seq<ListNode<T>>, ghost p: nat, ghost c: seq<T>)
    returns (head: ListNode<T>, entry: ListNode<T>, restart: bool, ghost t: seq<ListNode<T>>)
    requires Packing(r, p, head0, entry0, c) && p < |r| && entry0.nr == 0 && |r| > 1
    modifies Nodes(r)`prev, Nodes(r)`next
    ensures Packing(t, p, head, entry, c) && |t| + 1 == |r| && Nodes(t) <= Nodes(r)
    ensures restart <==> p == 0
  {
    HeadAt(r, p);
    entry, t := DropEmpty(entry0, r, p, c);
    restart := entry0 == head0;
    head := if restart then entry else head0;
  }

  lemma PackingKept<T>(t: seq<ListNode<T>>, p: nat, next: nat, head: ListNode<T>, entry: ListNode<T>, c: seq<T>)
    requires Packing(t, p, head, entry, c) && p < |t| && entry.nr > 0 && next == p + 1
    ensures Packing(t, next, head, entry.next, c)
  {
    assert entry.next == t[Succ(t, p)];
  }

  lemma PackingAt<T>(t: seq<ListNode<T>>, p: nat, head: ListNode<T>, entry: ListNode<T>, c: seq<T>)
    requires Packing(t, p, head, entry, c)
    ensures entry == head <==> p == 0 || p == |t|
  {
    HeadAt(t, if p < |t| then p else 0);
  }

  /** One round of the walk; after dropping the head it goes on with the new one. */
  method PackNode<T>(head0: ListNode<T>, entry0: ListNode<T>, ghost r: seq<ListNode<T>>, ghost p0: nat, ghost c: seq<T>)
    returns (head: ListNode<T>, entry: ListNode<T>, done: bool, ghost t: seq<ListNode<T>>, ghost p: nat)
    requires Packing(r, p0, head0, entry0, c) && p0 < |r| && (entry0.nr > 0 || entry0.next != entry0)
    modifies Nodes(r)`prev, Nodes(r)`next
    ensures Packing(t, p, head, entry, c) && Nodes(t) <= Nodes(r) && (done <==> p == |t|) && |t| - p < |r| - p0
  {
    if entry0.nr == 0 {
      NotAlone(r, p0, entry0);
      var restart;
      p := p0;
      head, entry, restart, t := PackDrop(head0, entry0, r, p, c);
      PackingAt(t, p, head, entry, c);
      done := !restart && entry == head;
    } else {
      head, t, p := head0, r, p0 + 1;
      PackingKept(t, p0, p, head, entry0, c);
      entry := entry0.next;
      PackingAt(t, p, head, entry, c);
      done := entry == head;
    }
  }

  /** pack_ptr_list, of a list that has nodes. */
  method PackNodes<T>(list: ListNode<T>, ghost r: seq<ListNode<T>>, ghost c: seq<T>)
    returns (head: ListNode?<T>, ghost t: seq<ListNode<T>>)
    requires Ring(r) && r[0] == list && c == Contents(r)
    modifies Nodes(r)`prev, Nodes(r)`next
    ensures IsList(head, t) && NoEmptyNodes(t) && Contents(t) == c && Nodes(t) <= Nodes(r)
  {
    t := r;
    var first: ListNode<T>, entry: ListNode<T>, done := list, list, false;
    ghost var p: nat := 0;
    while !done
      invariant Packing(t, p, first, entry, c) && Nodes(t) <= Nodes(r) && (done <==> p == |t|)
      decreases |t| - p
    {
      if entry.nr == 0 && entry.next == entry {
        LoneEmpty(t, p, entry, c);
        return null, [];
      }
      first, entry, done, t, p := PackNode(first, entry, t, p, c);
    }
    head := first;
  }

  /** pack_ptr_list */
  method PackPtrList<T>(list: ListNode?<T>, ghost r: seq<ListNode<T>>)
    returns (head: ListNode?<T>, ghost t: seq<ListNode<T>>)
    requires IsList(list, r)
    modifies Nodes(r)`prev, Nodes(r)`next
    ensures IsList(head, t) && NoEmptyNodes(t) && Contents(t) == old(Contents(r)) && Nodes(t) <= Nodes(r)
  {
    if list == null {
      head, t := null, r;
    } else {
      head, t := PackNodes(list, r, Contents(r));
    }
  }

  lemma LoneEmpty<T>(t: seq<ListNode<T>>, p: nat, entry: ListNode<T>, c: seq<T>)
    requires Ring(t) && p < |t| && t[p] == entry && entry.nr == 0 && entry.next == entry && Contents(t) == c
    ensures c == [] && Contents<T>([]) == []
  {
    SeparatePairs(t);
    assert t[p].next == t[Succ(t, p)];
    var d := Data(t);
    assert |d| == 1 && d[0] == Items(t[0]) == [];
    AllEmpty(d);
    assert |Data<T>([])| == 0;
  }

  lemma NotAlone<T>(t: seq<ListNode<T>>, p: nat, entry: ListNode<T>)
    requires Ring(t) && p < |t| && t[p] == entry && entry.next != entry
    ensures |t| > 1
  {
    assert t[p].next == t[Succ(t, p)];
  }

  /** delete_ptr_list_entry: the first `count` entries x go, or all of them, and nodes
      that are empty then. */
  method DeletePtrListEntry<T(==)>(list: ListNode?<T>, x: T, count0: int, ghost r: seq<ListNode<T>>)
    returns (head: ListNode?<T>, count: int, ghost t: seq<ListNode<T>>)
    requires IsList(list, r) && count0 <= Occurrences(Contents(r), x)
    modifies Nodes(r), Arrays(r)
    ensures IsList(head, t) && NoEmptyNodes(t) && Contents(t) == Removed(old(Contents(r)), x, count0)
    ensures count0 - count == |old(Contents(r))| - |Contents(t)|
  {
    count := count0;
    if list != null {
      count := DeleteWalk(list, x, count0, Removed(Contents(r), x, count0), r);
    } else {
      assert |Data(r)| == 0 && Contents(r) == [];
    }
    head, t := PackPtrList(list, r);
  }

  // ---------------------------------------------------------------------------
  // Replacing
  // ---------------------------------------------------------------------------

  /** The count that replace_ptr_list_entry returns. */
  function CountLeft<T(==)>(s: seq<T>, x: T, count: int): int {
    if count > 0 then 0 else count - Occurrences(s, x)
  }

  /** `goal` is what the list will hold, and `over` the count that is left, when the walk
      goes on with `count`. */
  ghost predicate Replacing<T>(goal: seq<T>, over: int, x: T, y: T, count: int, d: seq<seq<T>>, p: nat, k: nat) {
    && p < |d| && k <= |d[p]|
    && goal == Before(d, p, k) + Replaced(Behind(d, p, k), x, y, count)
    && count <= Occurrences(Behind(d, p, k), x) && over == CountLeft(Behind(d, p, k), x, count)
  }

  lemma ReplaceStarts<T>(goal: seq<T>, over: int, x: T, y: T, count: int, d: seq<seq<T>>)
    requires |d| > 0 && goal == Replaced(Concat(d), x, y, count) && count <= Occurrences(Concat(d), x)
    requires over == CountLeft(Concat(d), x, count)
    ensures Replacing(goal, over, x, y, count, d, 0, 0)
  {
    AroundCursor(d, 0, 0);
    assert Before(d, 0, 0) == [];
    assert Behind(d, 0, 0) == Concat(d);
  }

  lemma ReplacePasses<T>(goal: seq<T>, over: int, x: T, y: T, count: int, d: seq<seq<T>>, p: nat, k: nat, next: nat)
    requires Replacing(goal, over, x, y, count, d, p, k) && k < |d[p]| && next == k + 1 && d[p][k] != x
    ensures Replacing(goal, over, x, y, count, d, p, next)
  {
    CursorMoves(d, p, k, next);
    var rest := Behind(d, p, next);
    assert Behind(d, p, k)[1..] == rest;
    assert Before(d, p, k) + ([d[p][k]] + Replaced(rest, x, y, count)) ==
             (Before(d, p, k) + [d[p][k]]) + Replaced(rest, x, y, count);
  }

  /** The lists of entries around the cursor when the entry there is replaced. */
  lemma CursorReplaces<T>(d: seq<seq<T>>, p: nat, k: nat, next: nat, y: T, z: seq<T>, e: seq<seq<T>>)
    requires p < |d| && d[p] == z && k < |z| && next == k + 1 && e == d[p := z[k := y]]
    ensures Behind(d, p, k) == [z[k]] + Behind(e, p, next) && Before(e, p, next) == Before(d, p, k) + [y]
    ensures Concat(e) == Before(d, p, k) + ([y] + Behind(e, p, next))
  {
    CursorMoves(d, p, k, next);
    CursorMoves(e, p, k, next);
    assert e[..p] == d[..p] && e[p + 1..] == d[p + 1..] && e[p][..k] == z[..k] && e[p][next..] == z[next..];
    assert Behind(d, p, next) == Behind(e, p, next) && Before(e, p, k) == Before(d, p, k);
    AroundCursor(e, p, next);
    assert Before(d, p, k) + ([y] + Behind(e, p, next)) == (Before(d, p, k) + [y]) + Behind(e, p, next);
  }

  lemma ReplacedFirst<T>(s: seq<T>, x: T, y: T, count: int, rest: seq<T>, fewer: int)
    requires s == [x] + rest && fewer == count - 1
    ensures Replaced(s, x, y, count) == [y] + if fewer == 0 then rest else Replaced(rest, x, y, fewer)
    ensures Occurrences(s, x) == 1 + Occurrences(rest, x)
  {
    assert s[1..] == rest;
  }

  lemma ReplaceTakes<T>(goal: seq<T>, over: int, x: T, y: T, count: int, d: seq<seq<T>>, p: nat, k: nat, next: nat,
                        z: seq<T>, e: seq<seq<T>>, fewer: int)
    requires Replacing(goal, over, x, y, count, d, p, k) && d[p] == z && k < |z| && next == k + 1 && z[k] == x
    requires fewer == count - 1 && e == d[p := z[k := y]]
    ensures if fewer == 0 then goal == Concat(e) && over == fewer
            else Replacing(goal, over, x, y, fewer, e, p, next)
  {
    var rest, before := Behind(e, p, next), Before(d, p, k);
    CursorReplaces(d, p, k, next, y, z, e);
    ReplacedFirst(Behind(d, p, k), x, y, count, rest, fewer);
    assert before + ([y] + Replaced(rest, x, y, fewer)) == (before + [y]) + Replaced(rest, x, y, fewer);
  }

  /** REPLACE_CURRENT_PTR */
  method ReplaceHere<T>(n: ListNode<T>, k: nat, y: T, ghost r: seq<ListNode<T>>, ghost p: nat, ghost d: seq<seq<T>>)
    returns (ghost e: seq<seq<T>>)
    requires Ring(r) && p < |r| && r[p] == n && k < n.nr && d == Data(r)
    modifies n.list
    ensures Ring(r) && e == Data(r) && k < |d[p]| && e == d[p := d[p][k := y]] && n.list.Length == LIST_NODE_NR
  {
    DataAt(r, p);
    SeparatePairs(r);
    n.list[k] := y;
    assert Items(n) == d[p][k := y];
    forall j | 0 <= j < |r| && j != p ensures d[j] == Items(r[j]) {
      assert r[j].list != r[p].list;
    }
    NodeChanged(r, d, p);
    e := Data(r);
  }

  /** One entry of the walk. */
  method ReplaceStep<T(==)>(n: ListNode<T>, nr0: nat, x: T, y: T, count0: int, ghost goal: seq<T>, ghost over: int,
                            ghost r: seq<ListNode<T>>, ghost p: nat, ghost d0: seq<seq<T>>)
    returns (nr: nat, count: int, out: bool, ghost d: seq<seq<T>>)
    requires Ring(r) && p < |r| && r[p] == n && nr0 < n.nr && d0 == Data(r)
    requires Replacing(goal, over, x, y, count0, d0, p, nr0)
    modifies n.list
    ensures Ring(r) && d == Data(r) && nr == nr0 + 1
    ensures if out then Concat(d) == goal && over == count else Replacing(goal, over, x, y, count, d, p, nr)
  {
    DataAt(r, p);
    nr, count, out, d := nr0 + 1, count0, false, d0;
    if n.list[nr0] == x {
      ghost var z := d[p];
      d := ReplaceHere(n, nr0, y, r, p, d);
      count := count0 - 1;
      ReplaceTakes(goal, over, x, y, count0, d0, p, nr0, nr, z, d, count);
      out := count == 0;
    } else {
      ReplacePasses(goal, over, x, y, count, d, p, nr0, nr);
    }
  }

  method ReplaceInNode<T(==)>(n: ListNode<T>, x: T, y: T, count0: int, ghost goal: seq<T>, ghost over: int,
                              ghost r: seq<ListNode<T>>, ghost p: nat, ghost d0: seq<seq<T>>)
    returns (count: int, out: bool, ghost d: seq<seq<T>>)
    requires Ring(r) && p < |r| && r[p] == n && d0 == Data(r) && Replacing(goal, over, x, y, count0, d0, p, 0)
    modifies n.list
    ensures Ring(r) && d == Data(r)
    ensures if out then Concat(d) == goal && over == count else Replacing(goal, over, x, y, count, d, p, |d[p]|)
  {
    count, out, d := count0, false, d0;
    var nr: nat := 0;
    while nr < n.nr && !out
      invariant Ring(r) && d == Data(r) && nr <= n.nr
      invariant if out then Concat(d) == goal && over == count else Replacing(goal, over, x, y, count, d, p, nr)
      decreases n.nr - nr
    {
      nr, count, out, d := ReplaceStep(n, nr, x, y, count, goal, over, r, p, d);
    }
    DataAt(r, p);
  }

  lemma ReplaceWraps<T>(goal: seq<T>, over: int, x: T, y: T, count: int, d: seq<seq<T>>, p: nat, k: nat, next: nat)
    requires Replacing(goal, over, x, y, count, d, p, k) && k == |d[p]| && next == p + 1
    ensures if next < |d| then Replacing(goal, over, x, y, count, d, next, 0)
            else goal == Concat(d) && over == count <= 0
  {
    CursorWraps(d, p, k, next);
  }

  /** Where the walk is: done, or about to enter the node at p. */
  ghost predicate ReplaceAt<T>(goal: seq<T>, over: int, x: T, y: T, count: int, d: seq<seq<T>>, r: seq<ListNode<T>>,
                               p: nat, list: ListNode<T>, done: bool)
  {
    if done then Concat(d) == goal && over == count <= 0
    else p < |r| && r[p] == list && Replacing(goal, over, x, y, count, d, p, 0)
  }

  /** One node of the walk, and on to the next. */
  method ReplaceNext<T(==)>(head: ListNode<T>, list0: ListNode<T>, x: T, y: T, count0: int, ghost goal: seq<T>,
                            ghost over: int, ghost r: seq<ListNode<T>>, ghost p: nat, ghost d0: seq<seq<T>>,
                            ghost next: nat)
    returns (list: ListNode<T>, count: int, done: bool, ghost d: seq<seq<T>>)
    requires Ring(r) && r[0] == head && p < |r| && r[p] == list0 && next == p + 1 && d0 == Data(r)
    requires Replacing(goal, over, x, y, count0, d0, p, 0) && over <= 0
    modifies list0.list
    ensures Ring(r) && d == Data(r) && ReplaceAt(goal, over, x, y, count, d, r, next, list, done)
  {
    list := list0;
    var out;
    count, out, d := ReplaceInNode(list, x, y, count0, goal, over, r, p, d0);
    done := true;
    if !out {
      ReplaceWraps(goal, over, x, y, count, d, p, |d[p]|, next);
      list := list.next;
      assert list == r[Succ(r, p)];
      HeadAt(r, Succ(r, p));
      done := list == head;
    }
  }

  /** replace_ptr_list_entry: y for the first `count` entries x, or for all of them. */
  method ReplacePtrListEntry<T(==)>(list0: ListNode?<T>, x: T, y: T, count0: int, ghost r: seq<ListNode<T>>)
    returns (count: int)
    requires IsList(list0, r) && count0 <= Occurrences(Contents(r), x)
    modifies Arrays(r)
    ensures IsList(list0, r) && Contents(r) == Replaced(old(Contents(r)), x, y, count0)
    ensures count == CountLeft(old(Contents(r)), x, count0)
  {
    ghost var d := Data(r);
    count := count0;
    if list0 == null {
      assert |d| == 0;
      return;
    }
    ghost var goal, over := Replaced(Contents(r), x, y, count0), CountLeft(Contents(r), x, count0);
    ghost var p: nat := 0;
    ReplaceStarts(goal, over, x, y, count0, d);
    var list: ListNode<T>, done := list0, false;
    while !done
      invariant Ring(r) && d == Data(r) && ReplaceAt(goal, over, x, y, count, d, r, p, list, done)
      decreases |r| - p, !done
    {
      InNodesAndArrays(r, p, list);
      ghost var next := p + 1;
      list, count, done, d := ReplaceNext(list0, list, x, y, count, goal, over, r, p, d, next);
      p := next;
    }
  }
}
