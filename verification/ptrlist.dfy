/** The unrolled pointer list (ptrlist.h): a ring of nodes, each with room for a
    fixed number of entries. */
module PtrList {

  /** The capacity of a node. */
  const LIST_NODE_NR: nat := 29

  /** `struct ptr_list`. The entries are part of the node, so a node always has the
      same array. */
  class ListNode<T> {
    var nr: nat
    var prev: ListNode<T>
    var next: ListNode<T>
    const list: array<T>

    constructor (list: array<T>)
      ensures this.list == list && nr == 0 && prev == next == this
    {
      this.list := list;
      nr, prev, next := 0, this, this;
    }
  }

  ghost function Nodes<T>(r: seq<ListNode<T>>): set<ListNode<T>> {
    set n | n in r
  }

  ghost function Arrays<T>(r: seq<ListNode<T>>): set<array<T>> {
    set n | n in r :: n.list
  }

  /** Following `next` from r[0] visits the nodes in order and comes back, and
      `prev` goes the other way. */
  ghost predicate Linked<T>(r: seq<ListNode<T>>)
    reads r`next, r`prev
  {
    && |r| > 0
    && (forall i {:trigger r[i].next} :: 0 <= i < |r| ==> r[i].next == r[Succ(r, i)])
    && (forall i {:trigger r[i].prev} :: 0 <= i < |r| ==> r[i].prev == r[Pred(r, i)])
  }

  function Succ<T>(r: seq<T>, i: nat): (j: nat)
    requires i < |r|
    ensures j < |r|
  {
    if i + 1 == |r| then 0 else i + 1
  }

  function Pred<T>(r: seq<T>, i: nat): (j: nat)
    requires i < |r|
    ensures j < |r|
  {
    if i == 0 then |r| - 1 else i - 1
  }

  /** The nodes are different, with arrays of their own. */
  ghost predicate Separate<T>(r: seq<ListNode<T>>) {
    && SeparateUpTo(r, |r|)
    && (forall i :: 0 <= i < |r| ==> r[i].list.Length == LIST_NODE_NR)
  }

  /** The first `n` nodes are different. Stated node by node, so that a proof that
      does not need it is not slowed down by all the pairs. */
  ghost predicate SeparateUpTo<T>(r: seq<ListNode<T>>, n: nat) {
    n == 0 ||
    (n <= |r| && SeparateUpTo(r, n - 1)
     && (forall j :: 0 <= j < n - 1 ==> r[j] != r[n - 1] && r[j].list != r[n - 1].list))
  }

  lemma {:induction false} PairsUpTo<T>(r: seq<ListNode<T>>, n: nat)
    requires SeparateUpTo(r, n)
    ensures n <= |r| && forall i, j :: 0 <= i < j < n ==> r[i] != r[j] && r[i].list != r[j].list
  {
    if n > 0 {
      PairsUpTo(r, n - 1);
    }
  }

  lemma {:induction false} UpToPairs<T>(r: seq<ListNode<T>>, n: nat)
    requires n <= |r| && forall i, j :: 0 <= i < j < n ==> r[i] != r[j] && r[i].list != r[j].list
    ensures SeparateUpTo(r, n)
  {
    if n > 0 {
      UpToPairs(r, n - 1);
    }
  }

  lemma SeparatePairs<T>(r: seq<ListNode<T>>)
    requires Separate(r)
    ensures forall i, j :: 0 <= i < j < |r| ==> r[i] != r[j] && r[i].list != r[j].list
  {
    PairsUpTo(r, |r|);
  }

  ghost predicate Filled<T>(r: seq<ListNode<T>>)
    reads r`nr
  {
    forall i :: 0 <= i < |r| ==> r[i].nr <= LIST_NODE_NR
  }

  ghost predicate Ring<T>(r: seq<ListNode<T>>)
    reads r
  {
    Linked(r) && Separate(r) && Filled(r)
  }

  ghost function Items<T>(n: ListNode<T>): seq<T>
    reads n`nr, n.list
  {
    if n.nr <= n.list.Length then n.list[..n.nr] else []
  }

  /** The entries of every node. */
  ghost function Data<T>(r: seq<ListNode<T>>): (d: seq<seq<T>>)
    reads r`nr, Arrays(r)
    ensures |d| == |r|
    ensures forall i :: 0 <= i < |r| ==> d[i] == Items(r[i])
  {
    DataUpTo(r, |r|)
  }

  ghost function DataUpTo<T>(r: seq<ListNode<T>>, n: nat): (d: seq<seq<T>>)
    requires n <= |r|
    reads r`nr, Arrays(r)
    ensures |d| == n
    ensures forall i :: 0 <= i < n ==> d[i] == Items(r[i])
  {
    if n == 0 then [] else DataUpTo(r, n - 1) + [Items(r[n - 1])]
  }

  lemma DataAt<T>(r: seq<ListNode<T>>, i: nat)
    requires Separate(r) && Filled(r) && i < |r|
    ensures |Data(r)[i]| == r[i].nr && Data(r)[i] == r[i].list[..r[i].nr]
  {
  }
}
