/** Finding the blocks that can be reached, and killing the others (flow.c). */
module Reach {
  import opened Options
  import opened Ir
  import opened Semantics
  import opened Graph
  import opened Edges
  import opened Paths
  import opened Work
  import opened Threading
  import opened Flow
  import opened Generations

  ghost predicate Reachable(g: Code, e: BlockId, b: BlockId) {
    exists s :: IsPath(g, s) && s[0] == e && End(s) == b
  }

  lemma ReachableSelf(g: Code, e: BlockId)
    requires e < |g|
    ensures Reachable(g, e, e)
  {
    assert IsPath(g, [e]) && End([e]) == e;
  }

  lemma ReachableChild(g: Code, e: BlockId, b: BlockId, c: BlockId)
    requires Reachable(g, e, b) && IsEdge(g, b, c)
    ensures Reachable(g, e, c)
  {
    var s :| IsPath(g, s) && s[0] == e && End(s) == b;
    PathAppend(g, s, c);
  }

  // ---------------------------------------------------------------------------
  // Marking
  // ---------------------------------------------------------------------------

  /** b is marked, and so are its children. */
  predicate ChildrenMarked(h: Code, generation: nat, b: BlockId) {
    b < |h| && forall c :: c in h[b].children ==> c < |h| && h[c].generation == generation
  }

  predicate NewClosed(h: Code, k: Code, generation: nat) {
    |k| == |h| && forall b: BlockId {:trigger k[b]} ::
      b < |h| && h[b].generation != generation && k[b].generation == generation ==> ChildrenMarked(k, generation, b)
  }

  /** Whatever is marked can be reached. */
  ghost predicate MarksReach(g: Code, h: Code, e: BlockId, generation: nat) {
    && OnlyGenerations(g, h)
    && (forall b: BlockId {:trigger h[b]} :: b < |h| && h[b].generation == generation ==> Reachable(g, e, b))
  }

  lemma ClosedLater(g: Code, h: Code, k: Code, l: Code, generation: nat)
    requires OnlyGenerations(g, k) && OnlyGenerations(g, l) && MarksStay(h, k, generation)
             && MarksStay(k, l, generation)
    requires NewClosed(h, k, generation) && NewClosed(k, l, generation)
    ensures MarksStay(h, l, generation) && NewClosed(h, l, generation)
  {
    forall b: BlockId | b < |h| && h[b].generation != generation && l[b].generation == generation
      ensures ChildrenMarked(l, generation, b)
    {
      if k[b].generation == generation {
        assert ChildrenMarked(k, generation, b);
        assert k[b].children == l[b].children;
        forall c | c in l[b].children ensures c < |l| && l[c].generation == generation {
          assert k[c].generation == generation;
        }
      }
    }
    forall b | 0 <= b < |h| && h[b].generation == generation ensures l[b].generation == generation {
      assert k[b].generation == generation;
    }
  }

  predicate MarkedUpTo(h: Code, children: seq<BlockId>, n: nat, generation: nat) {
    n <= |children| && forall j :: 0 <= j < n ==> children[j] < |h| && h[children[j]].generation == generation
  }

  lemma OneMoreMarked(h: Code, k: Code, children: seq<BlockId>, i: nat, next: nat, generation: nat)
    requires MarkedUpTo(h, children, i, generation) && MarksStay(h, k, generation) && i < |children| && next == i + 1
    requires children[i] < |k| && k[children[i]].generation == generation
    ensures MarkedUpTo(k, children, next, generation)
  {
    forall j | 0 <= j < next ensures children[j] < |k| && k[children[j]].generation == generation {
      assert j < i ==> k[children[j]].generation == generation;
    }
  }

  /** mark_bb_reachable */
  method MarkBbReachable(ep: EntryPoint, bb: BlockId, generation: nat, ghost g: Code, ghost e: BlockId)
    requires LinksAgree(g) && MarksReach(g, ep.blocks, e, generation) && bb < |g| && Reachable(g, e, bb)
    modifies ep`blocks
    ensures MarksReach(g, ep.blocks, e, generation) && MarksStay(old(ep.blocks), ep.blocks, generation)
    ensures ep.blocks[bb].generation == generation && NewClosed(old(ep.blocks), ep.blocks, generation)
    decreases |Unmarked(ep.blocks, generation)|
  {
    if ep.blocks[bb].generation == generation {
      return;
    }
    ghost var h := ep.blocks;
    ep.blocks := ep.blocks[bb := ep.blocks[bb].(generation := generation)];
    ghost var k := ep.blocks;
    assert Unmarked(h, generation) == Unmarked(k, generation) + {bb};
    var children := ep.blocks[bb].children;
    assert children == g[bb].children;
    for i := 0 to |children|
      invariant MarksReach(g, ep.blocks, e, generation) && MarksStay(k, ep.blocks, generation)
      invariant NewClosed(k, ep.blocks, generation)
      invariant MarkedUpTo(ep.blocks, children, i, generation)
    {
      var child := children[i];
      EdgeBothWays(g, bb, child);
      ReachableChild(g, e, bb, child);
      ghost var l := ep.blocks;
      UnmarkedFewer(k, l, generation);
      MarkBbReachable(ep, child, generation, g, e);
      ClosedLater(g, k, l, ep.blocks, generation);
      OneMoreMarked(l, ep.blocks, children, i, i + 1, generation);
    }
    BlockClosed(g, h, k, ep.blocks, bb, generation);
  }

  lemma BlockClosed(g: Code, h: Code, k: Code, l: Code, bb: BlockId, generation: nat)
    requires OnlyGenerations(g, l) && bb < |h| && k == h[bb := h[bb].(generation := generation)]
    requires MarksStay(k, l, generation) && NewClosed(k, l, generation) && ChildrenMarked(l, generation, bb)
    ensures MarksStay(h, l, generation) && NewClosed(h, l, generation)
  {
    forall b | 0 <= b < |h| && h[b].generation == generation ensures l[b].generation == generation {
      assert k[b].generation == generation;
    }
    forall b: BlockId | b < |h| && h[b].generation != generation && l[b].generation == generation
      ensures ChildrenMarked(l, generation, b)
    {
      if b != bb {
        assert k[b] == h[b];
      }
    }
  }

  /** The marks of a fresh generation are complete. */
  lemma {:induction false} PathIsMarked(g: Code, h: Code, e: BlockId, generation: nat, s: seq<BlockId>)
    requires OnlyGenerations(g, h) && IsPath(g, s) && s[0] == e && h[e].generation == generation
    requires forall b: BlockId {:trigger h[b]} :: b < |h| && h[b].generation == generation ==>
               ChildrenMarked(h, generation, b)
    ensures End(s) < |h| && h[End(s)].generation == generation
    decreases |s|
  {
    if |s| > 1 {
      PathFront(g, s);
      PathIsMarked(g, h, e, generation, s[..|s| - 1]);
      assert h[End(s[..|s| - 1])].children == g[End(s[..|s| - 1])].children;
    }
  }

  /** With a fresh generation, exactly the reachable blocks are marked. */
  method MarkReachable(ep: EntryPoint, generation: nat)
    requires LinksAgree(ep.blocks) && ep.entry < |ep.blocks|
    requires forall b :: 0 <= b < |ep.blocks| ==> ep.blocks[b].generation != generation
    modifies ep`blocks
    ensures OnlyGenerations(old(ep.blocks), ep.blocks)
    ensures forall b: BlockId :: b < |ep.blocks| ==>
              (ep.blocks[b].generation == generation <==> Reachable(old(ep.blocks), ep.entry, b))
  {
    ghost var g := ep.blocks;
    ReachableSelf(g, ep.entry);
    MarkBbReachable(ep, ep.entry, generation, g, ep.entry);
    forall b: BlockId | b < |g| ensures ep.blocks[b].generation == generation <==> Reachable(g, ep.entry, b) {
      assert ep.blocks[b].generation == generation ==> Reachable(g, ep.entry, b);
      if Reachable(g, ep.entry, b) {
        var s :| IsPath(g, s) && s[0] == ep.entry && End(s) == b;
        forall c: BlockId | c < |g| && ep.blocks[c].generation == generation
          ensures ChildrenMarked(ep.blocks, generation, c)
        {
          assert g[c].generation != generation;
        }
        PathIsMarked(g, ep.blocks, ep.entry, generation, s);
      }
    }
  }

  // ---------------------------------------------------------------------------
  // Killing
  // ---------------------------------------------------------------------------

  /** The graph while the blocks that are not marked are being killed: the marked ones are
      as they were but for parents, and killed ones are empty. */
  ghost predicate Killing(g: Code, h: Code, generation: nat, killed: set<BlockId>) {
    && LinksAgree(h) && |h| == |g|
    && (forall b {:trigger h[b]} :: 0 <= b < |g| && g[b].generation == generation ==>
          h[b] == g[b].(parents := h[b].parents))
    && (forall b {:trigger h[b]} :: 0 <= b < |g| && g[b].insns == [] && g[b].children == [] ==>
          h[b].insns == [] && h[b].children == [])
    && (forall b {:trigger h[b]} :: 0 <= b < |g| ==> h[b].generation == g[b].generation)
    && (forall b :: b in killed ==> b < |g| && h[b].insns == [] && h[b].children == [] && h[b].parents == [])
  }

  /** A marked block does not lead to one that is not marked. */
  ghost predicate MarksClosed(g: Code, generation: nat) {
    forall b: BlockId, c: BlockId {:trigger IsEdge(g, b, c)} :: IsEdge(g, b, c) && g[b].generation == generation ==>
      g[c].generation == generation
  }

  lemma KillOneMore(g: Code, h: Code, generation: nat, killed: set<BlockId>, x: BlockId, now: set<BlockId>)
    requires MarksClosed(g, generation) && Killing(g, h, generation, killed) && x < |h| && g[x].generation != generation
    requires now == killed + {x}
    ensures Killing(g, Killed(h, x), generation, now)
  {
    var k := Killed(h, x);
    KillKeepsLinks(h, x);
    forall b | 0 <= b < |g| && g[b].generation == generation ensures k[b] == g[b].(parents := k[b].parents) {
      assert h[b] == g[b].(parents := h[b].parents);
      if b in h[x].parents {
        EdgeBothWays(h, b, x);
        assert IsEdge(g, b, x);
        assert false;
      }
    }
    forall b | 0 <= b < |g| && g[b].insns == [] && g[b].children == [] ensures k[b].insns == [] && k[b].children == [] {
      assert h[b].insns == [] && h[b].children == [];
    }
    forall b | 0 <= b < |g| ensures k[b].generation == g[b].generation {
      assert h[b].generation == g[b].generation;
    }
    forall b | b in now ensures b < |g| && k[b].insns == [] && k[b].children == [] && k[b].parents == [] {
      assert b != x ==> b in killed;
    }
  }

  /** The blocks of a list that are marked. */
  function MarkedOnly(h: Code, bbs: seq<BlockId>, generation: nat): (r: seq<BlockId>)
    ensures forall b :: b in r <==> b in bbs && b < |h| && h[b].generation == generation
  {
    if |bbs| == 0 then []
    else
      var front, last := MarkedOnly(h, bbs[..|bbs| - 1], generation), bbs[|bbs| - 1];
      assert bbs == bbs[..|bbs| - 1] + [last];
      if last < |h| && h[last].generation == generation then front + [last] else front
  }

  /** The loop of kill_unreachable_bbs: blocks without the mark are killed and deleted. */
  method KillUnmarked(ep: EntryPoint, generation: nat) returns (ghost killed: set<BlockId>)
    requires LinksAgree(ep.blocks) && (forall b :: b in ep.bbs ==> b < |ep.blocks|)
             && MarksClosed(ep.blocks, generation)
    modifies ep`blocks, ep`bbs
    ensures ep.bbs == MarkedOnly(old(ep.blocks), old(ep.bbs), generation)
    ensures Killing(old(ep.blocks), ep.blocks, generation, killed)
    ensures forall b :: b in old(ep.bbs) && b !in ep.bbs ==> b in killed
  {
    ghost var g := ep.blocks;
    var bbs := ep.bbs;
    var kept := [];
    killed := {};
    assert bbs[..0] == [];
    for i := 0 to |bbs|
      invariant Killing(g, ep.blocks, generation, killed) && kept == MarkedOnly(g, bbs[..i], generation)
      invariant forall b :: b in bbs[..i] && b !in kept ==> b in killed
    {
      var bb := bbs[i];
      assert bb in ep.bbs || bb in bbs;
      assert bbs[..i + 1][..i] == bbs[..i] && bbs[..i + 1] == bbs[..i] + [bb];
      assert ep.blocks[bb].generation == g[bb].generation;
      if ep.blocks[bb].generation == generation {
        kept := kept + [bb];
      } else {
        ghost var now := killed + {bb};
        KillOneMore(g, ep.blocks, generation, killed, bb, now);
        KillBb(ep, bb);
        killed := now;
      }
    }
    assert bbs[..|bbs|] == bbs;
    ep.bbs := kept;
    assert Killing(g, ep.blocks, generation, killed);
  }

  /** From a marked block, the old code and the new do the same. */
  lemma KillingSameWork(g: Code, h: Code, generation: nat, killed: set<BlockId>, e: BlockId)
    requires WellFormed(g) && MarksClosed(g, generation) && Killing(g, h, generation, killed)
    requires e < |g| && g[e].generation == generation
    ensures SameWork(g, h, Pos(e, 0))
  {
    var rel: Relation := (p: Pos, q: Pos) => p == q && p.bb < |g| && g[p.bb].generation == generation;
    forall p, q, m | rel(p, q)
      ensures Matched(g, h, rel, p, q, m) && Arrives(g, h, p, q, m) && Matched(h, g, rel, p, q, m)
              && Arrives(h, g, p, q, m)
    {
      assert h[p.bb] == g[p.bb].(parents := h[p.bb].parents);
      assert forall insn :: InsnAt(g, p, insn) <==> InsnAt(h, p, insn);
      SameStepMatched(g, h, (p: Pos, q: Pos) => p == q, p, m);
      SameStepMatched(h, g, (p: Pos, q: Pos) => p == q, p, m);
      if Step(g, At(m, p)).Some? {
        var insn := g[p.bb].insns[p.pc];
        StepLeads(g, m, p, insn);
        SameInsn(g, h, m, p, p, insn);
        var r := Step(g, At(m, p)).value.pos;
        assert r.bb != p.bb ==> IsEdge(g, p.bb, r.bb);
      }
    }
    SimulationDoesAll(g, h, rel, Pos(e, 0));
    SimulationDoesAll(h, g, rel, Pos(e, 0));
  }

  lemma KillingWellFormed(g: Code, h: Code, generation: nat, killed: set<BlockId>)
    requires WellFormed(g) && Killing(g, h, generation, killed)
    requires forall b {:trigger g[b]} :: 0 <= b < |g| && g[b].generation != generation ==>
               b in killed || (g[b].insns == [] && g[b].children == [])
    ensures WellFormed(h)
  {
    forall b | 0 <= b < |h| ensures WellTerminated(h[b]) {
      assert WellTerminated(g[b]);
      assert h[b].generation == g[b].generation;
    }
  }

  lemma MarkedIsClosed(g: Code, h: Code, e: BlockId, generation: nat)
    requires OnlyGenerations(g, h)
    requires forall b: BlockId :: b < |h| ==> (h[b].generation == generation <==> Reachable(g, e, b))
    ensures MarksClosed(h, generation)
  {
    forall b: BlockId, c: BlockId | IsEdge(h, b, c) && h[b].generation == generation
      ensures h[c].generation == generation
    {
      assert h[b].children == g[b].children;
      ReachableChild(g, e, b, c);
    }
  }

  lemma GenerationsWellFormed(g: Code, h: Code, e: BlockId)
    requires WellFormed(g) && OnlyGenerations(g, h) && e < |g|
    ensures WellFormed(h) && SameWork(g, h, Pos(e, 0))
  {
    forall b: BlockId, c: BlockId ensures LinkAgrees(h, b, c) {
      assert LinkAgrees(g, b, c);
      assert b < |h| ==> h[b].children == g[b].children;
      assert c < |h| ==> h[c].parents == g[c].parents;
    }
    forall b | 0 <= b < |h| ensures WellTerminated(h[b]) {
      assert WellTerminated(g[b]) && h[b].insns == g[b].insns && h[b].children == g[b].children;
    }
    var rel: Relation := (p: Pos, q: Pos) => p == q;
    forall p, q, m | rel(p, q)
      ensures Matched(g, h, rel, p, q, m) && Arrives(g, h, p, q, m) && Matched(h, g, rel, p, q, m)
              && Arrives(h, g, p, q, m)
    {
      assert p.bb < |g| ==> h[p.bb].insns == g[p.bb].insns;
      SameStepMatched(g, h, rel, p, m);
      SameStepMatched(h, g, rel, p, m);
    }
    SimulationDoesAll(g, h, rel, Pos(e, 0));
    SimulationDoesAll(h, g, rel, Pos(e, 0));
  }

  /** kill_unreachable_bbs: exactly the reachable blocks stay, the graph stays well formed,
      and the code does the same work. */
  method KillUnreachableBbs(ep: EntryPoint, generation: nat)
    requires ep.Valid() && ep.entry < |ep.blocks|
    requires forall b :: 0 <= b < |ep.blocks| ==> ep.blocks[b].generation != generation
    requires forall b: BlockId :: b < |ep.blocks| && b !in ep.bbs ==>
               ep.blocks[b].insns == [] && ep.blocks[b].children == []
    modifies ep`blocks, ep`bbs
    ensures ep.Valid() && SameWork(old(ep.blocks), ep.blocks, Pos(ep.entry, 0))
    ensures forall b :: b in ep.bbs <==> b in old(ep.bbs) && Reachable(old(ep.blocks), ep.entry, b)
    ensures forall b: BlockId :: b < |ep.blocks| && !Reachable(old(ep.blocks), ep.entry, b) ==>
              ep.blocks[b].insns == [] && ep.blocks[b].children == []
  {
    ghost var g, e := ep.blocks, ep.entry;
    MarkReachable(ep, generation);
    ghost var h := ep.blocks;
    GenerationsWellFormed(g, h, e);
    MarkedIsClosed(g, h, e, generation);
    ReachableSelf(g, e);
    ghost var killed := KillUnmarked(ep, generation);
    ghost var k := ep.blocks;
    forall b | 0 <= b < |h| && h[b].generation != generation
      ensures b in killed || (h[b].insns == [] && h[b].children == [])
    {
      assert h[b] == g[b].(generation := h[b].generation);
    }
    KillingWellFormed(h, k, generation, killed);
    KillingSameWork(h, k, generation, killed, e);
    SameWorkTrans(g, h, k, Pos(e, 0));
  }
}
