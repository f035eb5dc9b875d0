/** Paths through a control-flow graph. */
module Paths {
  import opened Ir
  import opened Semantics
  import opened Graph

  predicate IsEdge(g: Code, b: BlockId, c: BlockId) {
    b < |g| && c < |g| && c in g[b].children
  }

  /** Blocks that follow each other along edges, at least one. */
  predicate IsPath(g: Code, s: seq<BlockId>) {
    && |s| > 0 && s[0] < |g|
    && (forall i {:trigger s[i]} :: 0 < i < |s| ==> IsEdge(g, s[i - 1], s[i]))
  }

  function End(s: seq<BlockId>): BlockId
    requires |s| > 0
  {
    s[|s| - 1]
  }

  lemma PathPrepend(g: Code, b: BlockId, s: seq<BlockId>)
    requires IsPath(g, s) && IsEdge(g, b, s[0])
    ensures IsPath(g, [b] + s) && ([b] + s)[0] == b && End([b] + s) == End(s)
  {
    var t := [b] + s;
    forall i {:trigger t[i]} | 0 < i < |t| ensures IsEdge(g, t[i - 1], t[i]) {
      assert t[i] == s[i - 1];
      assert i > 1 ==> t[i - 1] == s[i - 2] && IsEdge(g, s[i - 2], s[i - 1]);
    }
  }

  lemma PathAppend(g: Code, s: seq<BlockId>, c: BlockId)
    requires IsPath(g, s) && IsEdge(g, End(s), c)
    ensures IsPath(g, s + [c]) && (s + [c])[0] == s[0] && End(s + [c]) == c
  {
    var t := s + [c];
    forall i {:trigger t[i]} | 0 < i < |t| ensures IsEdge(g, t[i - 1], t[i]) {
      assert i < |s| ==> t[i] == s[i] && t[i - 1] == s[i - 1] && IsEdge(g, s[i - 1], s[i]);
    }
  }

  lemma PathTail(g: Code, s: seq<BlockId>)
    requires IsPath(g, s) && |s| > 1
    ensures IsPath(g, s[1..]) && IsEdge(g, s[0], s[1]) && End(s[1..]) == End(s)
  {
    var t := s[1..];
    assert IsEdge(g, s[0], s[1]);
    forall i {:trigger t[i]} | 0 < i < |t| ensures IsEdge(g, t[i - 1], t[i]) {
      assert t[i] == s[i + 1];
    }
  }

  lemma PathFront(g: Code, s: seq<BlockId>)
    requires IsPath(g, s) && |s| > 1
    ensures IsPath(g, s[..|s| - 1]) && IsEdge(g, End(s[..|s| - 1]), End(s))
  {
    var t := s[..|s| - 1];
    assert IsEdge(g, s[|s| - 2], s[|s| - 1]);
    forall i {:trigger t[i]} | 0 < i < |t| ensures IsEdge(g, t[i - 1], t[i]) {
      assert t[i] == s[i];
    }
  }

  /** An edge is in the list of children of the one and of parents of the other. */
  lemma EdgeBothWays(g: Code, b: BlockId, c: BlockId)
    requires LinksAgree(g)
    ensures b < |g| && c in g[b].children ==> c < |g| && b in g[c].parents
    ensures c < |g| && b in g[c].parents ==> b < |g| && c in g[b].children
  {
    assert LinkAgrees(g, b, c);
    if b < |g| {
      CountIn(g[b].children, c);
    }
    if c < |g| {
      CountIn(g[c].parents, b);
    }
  }
}
