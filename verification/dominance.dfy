/** Does one block dominate another? (cse.c) */
module Dominance {
  import opened Ir
  import opened Semantics
  import opened Graph
  import opened Paths
  import opened Generations

  /** A way from the entry block to b that does not meet x. */
  predicate Avoids(g: Code, e: BlockId, b: BlockId, x: BlockId, s: seq<BlockId>) {
    IsPath(g, s) && s[0] == e && End(s) == b && x !in s
  }

  /** Every path from the entry block to b meets x. */
  ghost predicate Dominated(g: Code, e: BlockId, b: BlockId, x: BlockId) {
    forall s :: !Avoids(g, e, b, x, s)
  }

  /** The search need not look at b, or has looked at it. */
  predicate Settled(h: Code, x: BlockId, generation: nat, b: BlockId) {
    b == x || (b < |h| && h[b].generation == generation)
  }

  /** b is not where the paths begin, and the search has dealt with all its parents. */
  predicate Searched(h: Code, e: BlockId, x: BlockId, generation: nat, b: BlockId) {
    b != e && b < |h| && forall q :: q in h[b].parents ==> Settled(h, x, generation, q)
  }

  /** The blocks marked between h and k are searched. */
  predicate NewSearched(h: Code, k: Code, e: BlockId, x: BlockId, generation: nat) {
    |k| == |h| && forall b: BlockId {:trigger k[b]} ::
      b < |h| && h[b].generation != generation && k[b].generation == generation ==> Searched(k, e, x, generation, b)
  }

  lemma SearchedLater(g: Code, h: Code, k: Code, e: BlockId, x: BlockId, generation: nat, b: BlockId)
    requires OnlyGenerations(g, h) && OnlyGenerations(g, k) && MarksStay(h, k, generation)
             && Searched(h, e, x, generation, b)
    ensures Searched(k, e, x, generation, b)
  {
    assert h[b] == g[b].(generation := h[b].generation) && k[b] == g[b].(generation := k[b].generation);
    forall q | q in k[b].parents ensures Settled(k, x, generation, q) {
      assert Settled(h, x, generation, q);
    }
  }

  lemma NewSearchedTrans(g: Code, h: Code, k: Code, l: Code, e: BlockId, x: BlockId, generation: nat)
    requires OnlyGenerations(g, h) && OnlyGenerations(g, k) && OnlyGenerations(g, l)
    requires MarksStay(h, k, generation) && MarksStay(k, l, generation)
    requires NewSearched(h, k, e, x, generation) && NewSearched(k, l, e, x, generation)
    ensures MarksStay(h, l, generation) && NewSearched(h, l, e, x, generation)
  {
    forall b: BlockId | b < |h| && h[b].generation != generation && l[b].generation == generation
      ensures Searched(l, e, x, generation, b)
    {
      if k[b].generation == generation {
        SearchedLater(g, k, l, e, x, generation, b);
      }
    }
  }

  /** bb_dominates; `s` is the way from here to the block that was asked about. */
  method BbDominates(ep: EntryPoint, bb1: BlockId, bb2: BlockId, generation: nat, ghost g: Code, ghost s: seq<BlockId>)
    returns (r: bool)
    requires LinksAgree(g) && OnlyGenerations(g, ep.blocks) && bb2 < |g|
    requires IsPath(g, s) && s[0] == bb2 && bb1 !in s
    modifies ep`blocks
    ensures OnlyGenerations(g, ep.blocks) && MarksStay(old(ep.blocks), ep.blocks, generation)
    ensures !r ==> !Dominated(g, ep.entry, End(s), bb1)
    ensures r ==> Searched(ep.blocks, ep.entry, bb1, generation, bb2)
    ensures r ==> NewSearched(old(ep.blocks), ep.blocks, ep.entry, bb1, generation)
    decreases |Unmarked(ep.blocks, generation)|
  {
    if bb2 == ep.entry {
      assert Avoids(g, ep.entry, End(s), bb1, s);
      return false;
    }
    ghost var h := ep.blocks;
    var parents := ep.blocks[bb2].parents;
    assert h[bb2] == g[bb2].(generation := h[bb2].generation);
    var i := 0;
    while i < |parents|
      invariant OnlyGenerations(g, ep.blocks) && MarksStay(h, ep.blocks, generation)
      invariant NewSearched(h, ep.blocks, ep.entry, bb1, generation)
      invariant i <= |parents| && forall j :: 0 <= j < i ==> Settled(ep.blocks, bb1, generation, parents[j])
      decreases |parents| - i
    {
      var parent := parents[i];
      i := i + 1;
      if parent == bb1 {
        continue;
      }
      EdgeBothWays(g, parent, bb2);
      ghost var k := ep.blocks;
      if ep.blocks[parent].generation == generation {
        continue;
      }
      ep.blocks := ep.blocks[parent := ep.blocks[parent].(generation := generation)];
      ghost var l := ep.blocks;
      PathPrepend(g, parent, s);
      OneFewer(h, k, l, parent, generation);
      r := BbDominates(ep, bb1, parent, generation, g, [parent] + s);
      MarksStayTrans(h, k, l, ep.blocks, generation);
      if !r {
        return;
      }
      MarkedAndSearched(g, k, l, ep.blocks, parent, ep.entry, bb1, generation);
      NewSearchedTrans(g, h, k, ep.blocks, ep.entry, bb1, generation);
    }
    assert ep.blocks[bb2] == g[bb2].(generation := ep.blocks[bb2].generation);
    r := true;
  }

  lemma OneFewer(h: Code, k: Code, l: Code, b: BlockId, generation: nat)
    requires MarksStay(h, k, generation) && b < |k| && k[b].generation != generation
    requires l == k[b := k[b].(generation := generation)]
    ensures |Unmarked(l, generation)| < |Unmarked(h, generation)| && MarksStay(k, l, generation)
  {
    UnmarkedFewer(h, k, generation);
    assert Unmarked(k, generation) == Unmarked(l, generation) + {b};
  }

  lemma MarksStayTrans(h: Code, k: Code, l: Code, m: Code, generation: nat)
    requires MarksStay(h, k, generation) && MarksStay(k, l, generation) && MarksStay(l, m, generation)
    ensures MarksStay(h, m, generation) && MarksStay(k, m, generation)
  {
    forall b | 0 <= b < |h| && k[b].generation == generation ensures m[b].generation == generation {
      assert l[b].generation == generation;
    }
    forall b | 0 <= b < |h| && h[b].generation == generation ensures m[b].generation == generation {
      assert k[b].generation == generation;
    }
  }

  lemma MarkedAndSearched(g: Code, k: Code, l: Code, m: Code, b: BlockId, e: BlockId, x: BlockId, generation: nat)
    requires b < |k| && l == k[b := k[b].(generation := generation)] && MarksStay(l, m, generation)
    requires NewSearched(l, m, e, x, generation) && Searched(m, e, x, generation, b)
    ensures NewSearched(k, m, e, x, generation)
  {
    forall c: BlockId | c < |k| && k[c].generation != generation && m[c].generation == generation
      ensures Searched(m, e, x, generation, c)
    {
      if c != b {
        assert l[c] == k[c];
      }
    }
  }

  /** A path to a searched block that does not meet x lies within the searched blocks. */
  lemma {:induction false} AvoidingIsSearched(g: Code, h: Code, e: BlockId, x: BlockId, generation: nat,
                                              s: seq<BlockId>)
    requires LinksAgree(g) && OnlyGenerations(g, h) && IsPath(g, s) && x !in s
    requires Searched(h, e, x, generation, End(s))
    requires forall b: BlockId {:trigger h[b]} :: b < |h| && h[b].generation == generation ==>
               Searched(h, e, x, generation, b)
    ensures s[0] != e
    decreases |s|
  {
    if |s| > 1 {
      PathFront(g, s);
      var front := s[..|s| - 1];
      EdgeBothWays(g, End(front), End(s));
      assert h[End(s)] == g[End(s)].(generation := h[End(s)].generation);
      assert End(front) in s && Settled(h, x, generation, End(front));
      assert h[End(front)].generation == generation;
      AvoidingIsSearched(g, h, e, x, generation, front);
    }
  }

  /** With a fresh generation, the answer for two blocks is yes exactly if every path from
      the entry block to the second meets the first. */
  method Dominates(ep: EntryPoint, bb1: BlockId, bb2: BlockId, generation: nat) returns (r: bool)
    requires LinksAgree(ep.blocks) && bb1 != bb2 && bb2 < |ep.blocks|
    requires forall b :: 0 <= b < |ep.blocks| ==> ep.blocks[b].generation != generation
    modifies ep`blocks
    ensures r <==> Dominated(old(ep.blocks), ep.entry, bb2, bb1)
    ensures OnlyGenerations(old(ep.blocks), ep.blocks)
  {
    ghost var g := ep.blocks;
    r := BbDominates(ep, bb1, bb2, generation, g, [bb2]);
    if r {
      forall s ensures !Avoids(g, ep.entry, bb2, bb1, s) {
        if Avoids(g, ep.entry, bb2, bb1, s) {
          forall b: BlockId | b < |ep.blocks| && ep.blocks[b].generation == generation
            ensures Searched(ep.blocks, ep.entry, bb1, generation, b)
          {
            assert g[b].generation != generation;
          }
          AvoidingIsSearched(g, ep.blocks, ep.entry, bb1, generation, s);
        }
      }
    }
  }
}
