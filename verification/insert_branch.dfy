/** A jump whose target is known becomes a plain branch (insert_branch in linearize.c,
    called by simplify_branch and simplify_switch). */
module InsertBranches {
  import opened Options
  import opened Ir
  import opened Semantics
  import opened Graph
  import opened Edges
  import opened Paths
  import opened Work
  import opened Threading
  import opened Flow

  function Branched(insns: seq<Instruction>, target: BlockId): seq<Instruction>
    requires insns != []
  {
    insns[|insns| - 1 := Br(Void, target, None)]
  }

  /** Killed if it is one of the dead, as it was if not. */
  predicate KeptOrKilled(g: Code, h: Code, dead: set<BlockId>, c: BlockId) {
    && c < |g| && c < |h|
    && if c in dead then h[c].insns == [] && h[c].children == [] && h[c].parents == []
       else h[c].insns == g[c].insns && h[c].children == g[c].children
  }

  /** The last edge from b to c goes, and of its other parents none is left. */
  predicate Orphaned(g: Code, b: BlockId, target: BlockId, rest: seq<BlockId>, dead: set<BlockId>)
    requires rest != []
  {
    var c := rest[0];
    && c != target && c !in rest[1..] && c < |g|
    && forall p {:trigger p in dead} :: p in g[c].parents ==> p == b || p in dead
  }

  function WithNext(g: Code, b: BlockId, target: BlockId, rest: seq<BlockId>, dead: set<BlockId>): set<BlockId>
    requires rest != []
  {
    if Orphaned(g, b, target, rest, dead) then dead + {rest[0]} else dead
  }

  /** The blocks that are killed when the edges from b to `rest` go in this order. */
  function Doomed(g: Code, b: BlockId, target: BlockId, rest: seq<BlockId>, dead: set<BlockId>): set<BlockId> {
    if rest == [] then dead else Doomed(g, b, target, rest[1..], WithNext(g, b, target, rest, dead))
  }

  /** Only children other than the target are killed, and only when b and blocks killed
      with them were all their parents. */
  lemma {:induction false} DoomedChild(g: Code, b: BlockId, target: BlockId, rest: seq<BlockId>, dead: set<BlockId>,
                                       c: BlockId)
    requires c in Doomed(g, b, target, rest, dead) && c !in dead
    ensures c in rest && c != target && c < |g|
    ensures forall p :: p in g[c].parents ==> p == b || p in Doomed(g, b, target, rest, dead)
  {
    var now := WithNext(g, b, target, rest, dead);
    DoomedGrows(g, b, target, rest[1..], now);
    if c !in now {
      DoomedChild(g, b, target, rest[1..], now, c);
    }
  }

  lemma {:induction false} DoomedGrows(g: Code, b: BlockId, target: BlockId, rest: seq<BlockId>, dead: set<BlockId>)
    ensures dead <= Doomed(g, b, target, rest, dead)
  {
    if rest != [] {
      DoomedGrows(g, b, target, rest[1..], WithNext(g, b, target, rest, dead));
    }
  }

  /** A child that b alone leads to is killed. */
  lemma {:induction false} OrphanDoomed(g: Code, b: BlockId, target: BlockId, rest: seq<BlockId>, dead: set<BlockId>,
                                        c: BlockId)
    requires c in rest && c != target && c < |g| && forall p :: p in g[c].parents ==> p == b
    ensures c in Doomed(g, b, target, rest, dead)
  {
    var now := WithNext(g, b, target, rest, dead);
    if c in rest[1..] {
      OrphanDoomed(g, b, target, rest[1..], now, c);
    } else {
      DoomedGrows(g, b, target, rest[1..], now);
    }
  }

  /** A way from the entry to b that comes to b only at its end. */
  predicate WayTo(g: Code, e: BlockId, b: BlockId, s: seq<BlockId>) {
    IsPath(g, s) && s[0] == e && End(s) == b && b !in s[..|s| - 1] && e < |g| && g[e].parents == []
  }

  /** `rest` is what is left to look at of the children of b. */
  ghost predicate Cutting(g: Code, h: Code, e: BlockId, b: BlockId, target: BlockId, seen: bool, rest: seq<BlockId>,
                          s: seq<BlockId>, dead: set<BlockId>) {
    && |h| == |g| && b < |g| && g[b].insns != [] && LinksAgree(h) && WayTo(h, e, b, s)
    && h[b].children == (if seen then [target] else []) + rest && (!seen ==> target in rest)
    && h[b].insns == Branched(g[b].insns, target)
    && b !in dead && forall c: BlockId :: c < |g| && c != b ==> KeptOrKilled(g, h, dead, c)
  }

  /** One edge from b goes, in both lists. */
  function EdgeCut(g: Code, b: BlockId, c: BlockId, children: seq<BlockId>): (h: Code)
    requires b < |g| && c < |g|
    ensures |h| == |g|
  {
    var g1 := g[b := g[b].(children := children)];
    g1[c := g1[c].(parents := RemoveFirst(g1[c].parents, b))]
  }

  lemma EdgeCutLinks(g: Code, b: BlockId, c: BlockId, kept: seq<BlockId>, rest: seq<BlockId>)
    requires LinksAgree(g) && b < |g| && rest != [] && rest[0] == c && g[b].children == kept + rest
    ensures c < |g| && b in g[c].parents && LinksAgree(EdgeCut(g, b, c, kept + rest[1..]))
  {
    CountConcat(kept, rest, c);
    CountHead(rest, c);
    assert LinkAgrees(g, b, c);
    CountIn(g[b].children, c);
    CountIn(g[c].parents, b);
    var h := EdgeCut(g, b, c, kept + rest[1..]);
    forall x: BlockId, y: BlockId ensures LinkAgrees(h, x, y) {
      assert LinkAgrees(g, x, y);
      CountConcat(kept, rest, y);
      CountConcat(kept, rest[1..], y);
      CountHead(rest, y);
      CountRemoveFirst(g[c].parents, b, x);
    }
  }

  /** Another parent is still there. */
  lemma OtherParentStays(s: seq<BlockId>, b: BlockId, p: BlockId)
    requires b in s && p in s && p != b
    ensures p in RemoveFirst(s, b)
  {
    CountIn(s, p);
    CountRemoveFirst(s, b, p);
    CountIn(RemoveFirst(s, b), p);
  }

  /** On the way to b every block but the first has a parent that is not b. */
  lemma WayHasParent(g: Code, e: BlockId, b: BlockId, s: seq<BlockId>, i: nat)
    requires LinksAgree(g) && WayTo(g, e, b, s) && 0 < i < |s|
    ensures s[i] < |g| && s[i - 1] != b && s[i - 1] in g[s[i]].parents
  {
    assert IsEdge(g, s[i - 1], s[i]);
    EdgeBothWays(g, s[i - 1], s[i]);
    assert s[i - 1] == s[..|s| - 1][i - 1];
  }

  /** A block that loses its last parent with the edge from b is not on the way to b. */
  lemma OrphanNotOnWay(g: Code, h: Code, e: BlockId, b: BlockId, s: seq<BlockId>, c: BlockId)
    requires LinksAgree(g) && WayTo(g, e, b, s) && c < |g| == |h| && b in g[c].parents
    requires h[c].parents == RemoveFirst(g[c].parents, b) == []
    ensures c !in s && c != b
  {
    if i :| 0 <= i < |s| && s[i] == c {
      if i > 0 {
        WayHasParent(g, e, b, s, i);
        OtherParentStays(g[c].parents, b, s[i - 1]);
      }
      assert false;
    }
    assert s[|s| - 1] == b;
  }

  lemma WayKept(g: Code, h: Code, e: BlockId, b: BlockId, s: seq<BlockId>)
    requires WayTo(g, e, b, s) && |h| == |g| && h[e].parents == []
    requires forall i {:trigger s[i]} :: 0 <= i < |s| - 1 && s[i] < |g| ==> h[s[i]].children == g[s[i]].children
    ensures WayTo(h, e, b, s)
  {
    forall i {:trigger s[i]} | 0 < i < |s| ensures IsEdge(h, s[i - 1], s[i]) {
      assert IsEdge(g, s[i - 1], s[i]);
    }
  }

  function Front(seen: bool, target: BlockId): seq<BlockId> {
    if seen then [target] else []
  }

  /** An edge goes, and the child has other parents. */
  lemma CutOne(g: Code, h: Code, e: BlockId, b: BlockId, target: BlockId, seen: bool, rest: seq<BlockId>,
               s: seq<BlockId>, dead: set<BlockId>, c: BlockId, h1: Code)
    requires Cutting(g, h, e, b, target, seen, rest, s, dead) && rest != [] && rest[0] == c && (c == target ==> seen)
    requires c < |h| && h1 == EdgeCut(h, b, c, Front(seen, target) + rest[1..]) && h1[c].parents != []
    ensures Cutting(g, h1, e, b, target, seen, rest[1..], s, dead)
  {
    EdgeCutLinks(h, b, c, Front(seen, target), rest);
    CutOneKeeps(g, h, e, b, target, seen, rest, s, dead, c, h1);
  }

  /** The child has no parent left exactly when it counts as orphaned. */
  lemma NoParentLeft(g: Code, h: Code, e: BlockId, b: BlockId, target: BlockId, seen: bool, rest: seq<BlockId>,
                     s: seq<BlockId>, dead: set<BlockId>, c: BlockId, h1: Code)
    requires LinksAgree(g) && Cutting(g, h, e, b, target, seen, rest, s, dead) && rest != [] && rest[0] == c
             && (c == target ==> seen)
    requires c < |h| && h1 == EdgeCut(h, b, c, Front(seen, target) + rest[1..])
    ensures h1[c].parents == [] <==> Orphaned(g, b, target, rest, dead)
  {
    EdgeCutLinks(h, b, c, Front(seen, target), rest);
    CutOneKeeps(g, h, e, b, target, seen, rest, s, dead, c, h1);
    if h1[c].parents == [] {
      if c == target || c in rest[1..] {
        EdgeBothWays(h1, b, c);
        assert false;
      }
      forall p | p in g[c].parents ensures p == b || p in dead {
        EdgeBothWays(g, p, c);
        if p != b && p !in dead {
          assert KeptOrKilled(g, h1, dead, p);
          EdgeBothWays(h1, p, c);
          assert false;
        }
      }
    } else {
      var p := h1[c].parents[0];
      EdgeBothWays(h1, p, c);
      if p != b {
        assert KeptOrKilled(g, h1, dead, p);
        EdgeBothWays(g, p, c);
      }
    }
  }

  /** What the cut of one edge leaves alone. */
  lemma CutOneKeeps(g: Code, h: Code, e: BlockId, b: BlockId, target: BlockId, seen: bool, rest: seq<BlockId>,
                    s: seq<BlockId>, dead: set<BlockId>, c: BlockId, h1: Code)
    requires Cutting(g, h, e, b, target, seen, rest, s, dead) && rest != [] && rest[0] == c && (c == target ==> seen)
    requires c < |h| && b in h[c].parents && h1 == EdgeCut(h, b, c, Front(seen, target) + rest[1..])
    ensures WayTo(h1, e, b, s) && h1[b].children == Front(seen, target) + rest[1..] && (!seen ==> target in rest[1..])
    ensures forall d: BlockId :: d < |g| && d != b ==> KeptOrKilled(g, h1, dead, d)
    ensures h1[b].insns == h[b].insns && h1[c].parents == RemoveFirst(h[c].parents, b)
  {
    forall d: BlockId | d < |g| && d != b
      ensures h1[d].insns == h[d].insns && h1[d].children == h[d].children && KeptOrKilled(g, h1, dead, d)
    {
      assert KeptOrKilled(g, h, dead, d);
    }
    forall i {:trigger s[i]} | 0 <= i < |s| - 1 && s[i] < |h| ensures h1[s[i]].children == h[s[i]].children {
      assert s[i] == s[..|s| - 1][i];
    }
    WayKept(h, h1, e, b, s);
  }

  /** The child lost its last parent, and is killed. */
  lemma CutAndKill(g: Code, h: Code, e: BlockId, b: BlockId, target: BlockId, seen: bool, rest: seq<BlockId>,
                   s: seq<BlockId>, dead: set<BlockId>, c: BlockId, h1: Code, h2: Code)
    requires Cutting(g, h, e, b, target, seen, rest, s, dead) && rest != [] && rest[0] == c && (c == target ==> seen)
    requires c < |h| && h1 == EdgeCut(h, b, c, Front(seen, target) + rest[1..]) && h1[c].parents == []
             && h2 == Killed(h1, c)
    ensures Cutting(g, h2, e, b, target, seen, rest[1..], s, dead + {c})
  {
    EdgeCutLinks(h, b, c, Front(seen, target), rest);
    CutOneKeeps(g, h, e, b, target, seen, rest, s, dead, c, h1);
    OrphanNotOnWay(h, h1, e, b, s, c);
    KillKeepsLinks(h1, c);
    forall d: BlockId | d < |g| && d != b ensures KeptOrKilled(g, h2, dead + {c}, d) {
      assert KeptOrKilled(g, h1, dead, d);
    }
    assert h2[e].parents == [] by {
      assert RemoveAll([], c) == [];
    }
    WayKept(h1, h2, e, b, s);
  }

  /** remove_parent and the loop of insert_branch, from the k-th child on. */
  method CutRest(ep: EntryPoint, b: BlockId, target: BlockId, rest0: seq<BlockId>, ghost g: Code, ghost s: seq<BlockId>)
    requires LinksAgree(g) && Cutting(g, ep.blocks, ep.entry, b, target, false, rest0, s, {})
    modifies ep`blocks
    ensures Cutting(g, ep.blocks, ep.entry, b, target, true, [], s, Doomed(g, b, target, rest0, {}))
  {
    var rest, seen := rest0, false;
    ghost var dead: set<BlockId> := {};
    while rest != []
      invariant Cutting(g, ep.blocks, ep.entry, b, target, seen, rest, s, dead)
      invariant Doomed(g, b, target, rest, dead) == Doomed(g, b, target, rest0, {})
      decreases |rest|
    {
      var child := rest[0];
      if child == target && !seen {
        seen := true;
        assert [] + rest == [target] + rest[1..];
        assert WithNext(g, b, target, rest, dead) == dead;
      } else {
        dead := CutChild(ep, b, child, target, seen, rest, g, s, dead);
      }
      rest := rest[1..];
    }
  }

  method CutChild(ep: EntryPoint, b: BlockId, child: BlockId, target: BlockId, seen: bool, rest: seq<BlockId>,
                  ghost g: Code, ghost s: seq<BlockId>, ghost dead: set<BlockId>) returns (ghost now: set<BlockId>)
    requires LinksAgree(g) && Cutting(g, ep.blocks, ep.entry, b, target, seen, rest, s, dead)
    requires rest != [] && rest[0] == child && (child == target ==> seen)
    modifies ep`blocks
    ensures now == WithNext(g, b, target, rest, dead)
    ensures Cutting(g, ep.blocks, ep.entry, b, target, seen, rest[1..], s, now)
  {
    ghost var h := ep.blocks;
    EdgeCutLinks(h, b, child, Front(seen, target), rest);
    ep.blocks := ep.blocks[b := ep.blocks[b].(children := (if seen then [target] else []) + rest[1..])];
    ep.blocks := ep.blocks[child := ep.blocks[child].(parents := RemoveFirst(ep.blocks[child].parents, b))];
    ghost var h1 := ep.blocks;
    NoParentLeft(g, h, ep.entry, b, target, seen, rest, s, dead, child, h1);
    if ep.blocks[child].parents == [] {
      KillBb(ep, child);
      CutAndKill(g, h, ep.entry, b, target, seen, rest, s, dead, child, h1, ep.blocks);
      now := dead + {child};
    } else {
      CutOne(g, h, ep.entry, b, target, seen, rest, s, dead, child, h1);
      now := dead;
    }
  }

  /** The jump of b now is a branch to target; exactly the doomed children are killed, and
      all other blocks have their instructions and children as before. */
  ghost predicate Inserted(g: Code, h: Code, b: BlockId, target: BlockId) {
    && |h| == |g| && b < |g| && g[b].insns != [] && WellFormed(h)
    && h[b].insns == Branched(g[b].insns, target) && h[b].children == [target]
    && forall c: BlockId :: c < |g| && c != b ==> KeptOrKilled(g, h, Doomed(g, b, target, g[b].children, {}), c)
  }

  lemma CutsInserted(g: Code, h: Code, e: BlockId, b: BlockId, target: BlockId, s: seq<BlockId>)
    requires WellFormed(g) && b < |g| && Terminated(g[b])
    requires Cutting(g, h, e, b, target, true, [], s, Doomed(g, b, target, g[b].children, {}))
    ensures Inserted(g, h, b, target)
  {
    assert WellTerminated(g[b]);
    forall c | 0 <= c < |h| ensures WellTerminated(h[c]) {
      if c == b {
        assert TargetsOf(h[b].insns) == [target];
      } else {
        assert KeptOrKilled(g, h, Doomed(g, b, target, g[b].children, {}), c) && WellTerminated(g[c]);
      }
    }
  }

  /** When a block is killed, told by the graph alone. */
  lemma WhichAreKilled(g: Code, h: Code, b: BlockId, target: BlockId, c: BlockId)
    requires Inserted(g, h, b, target) && c < |g| && c != b
    ensures h[c].insns != g[c].insns || h[c].children != g[c].children ==>
              c in g[b].children && c != target && h[c].insns == []
    ensures c in g[b].children && c != target && (forall p :: p in g[c].parents ==> p == b) ==>
              h[c].insns == [] && h[c].children == [] && h[c].parents == []
    ensures c !in g[b].children || c == target || (exists p :: p in g[c].parents && p != b && p !in g[b].children) ==>
              h[c].insns == g[c].insns && h[c].children == g[c].children
  {
    var children := g[b].children;
    var dead := Doomed(g, b, target, children, {});
    assert KeptOrKilled(g, h, dead, c);
    if c in dead {
      DoomedChild(g, b, target, children, {}, c);
      forall p | p in g[c].parents && p in dead ensures p in children {
        DoomedChild(g, b, target, children, {}, p);
      }
    } else if c in children && c != target && forall p :: p in g[c].parents ==> p == b {
      OrphanDoomed(g, b, target, children, {}, c);
    }
  }

  /** insert_branch */
  method InsertBranch(ep: EntryPoint, b: BlockId, target: BlockId, ghost s: seq<BlockId>)
    requires WellFormed(ep.blocks) && b < |ep.blocks| && Terminated(ep.blocks[b]) && target in ep.blocks[b].children
    requires WayTo(ep.blocks, ep.entry, b, s)
    modifies ep`blocks
    ensures Inserted(old(ep.blocks), ep.blocks, b, target) && WayTo(ep.blocks, ep.entry, b, s)
  {
    ghost var g := ep.blocks;
    var children := ep.blocks[b].children;
    ep.blocks := ep.blocks[b := ep.blocks[b].(insns := Branched(ep.blocks[b].insns, target))];
    assert [] + children == children;
    forall x: BlockId, y: BlockId ensures LinkAgrees(ep.blocks, x, y) {
      assert LinkAgrees(g, x, y);
    }
    WayKept(g, ep.blocks, ep.entry, b, s);
    CutRest(ep, b, target, children, g, s);
    CutsInserted(g, ep.blocks, ep.entry, b, target, s);
  }

  // ---------------------------------------------------------------------------
  // The work stays the same
  // ---------------------------------------------------------------------------

  /** The last instruction of b always jumps to target. */
  ghost predicate AlwaysTo(g: Code, b: BlockId, target: BlockId) {
    && b < |g| && Terminated(g[b]) && !Visible(Last(g[b]))
    && forall m :: JumpsAt(Last(g[b]), m, target)
  }

  predicate JumpsAt(insn: Instruction, m: Config, target: BlockId) {
    NextPos(insn, m) == Some(Pos(target, 0)) && Effect(insn, m) == m
  }

  /** Where the two codes can be: in a block that was not killed. */
  predicate Alive(g: Code, h: Code, b: BlockId, c: BlockId) {
    c >= |g| || c >= |h| || c == b || (h[c].insns == g[c].insns && h[c].children == g[c].children)
  }

  function Together(g: Code, h: Code, b: BlockId): Relation {
    (p: Pos, q: Pos) => p == q && Alive(g, h, b, p.bb)
  }

  /** What has a parent is alive. */
  lemma ParentMakesAlive(g: Code, h: Code, b: BlockId, target: BlockId, c: BlockId)
    requires Inserted(g, h, b, target) && c < |h| && h[c].parents != []
    ensures Alive(g, h, b, c)
  {
    if c != b {
      assert KeptOrKilled(g, h, Doomed(g, b, target, g[b].children, {}), c);
    }
  }

  /** A step that is not the rewritten jump. */
  lemma OtherStep(g: Code, h: Code, b: BlockId, target: BlockId, p: Pos, m: Config)
    requires WellFormed(g) && Inserted(g, h, b, target) && Alive(g, h, b, p.bb) && p != Pos(b, |g[b].insns| - 1)
    ensures Matched(g, h, Together(g, h, b), p, p, m) && Arrives(g, h, p, p, m)
    ensures Matched(h, g, Together(g, h, b), p, p, m) && Arrives(h, g, p, p, m)
  {
    var rel := Together(g, h, b);
    forall insn ensures InsnAt(g, p, insn) <==> InsnAt(h, p, insn) {
    }
    if Step(g, At(m, p)).Some? {
      var insn := g[p.bb].insns[p.pc];
      SameInsn(g, h, m, p, p, insn);
      StepLeads(g, m, p, insn);
      StepLeads(h, m, p, insn);
      if insn.Terminator() {
        ParentMakesAlive(g, h, b, target, Step(h, At(m, p)).value.pos.bb);
      }
      assert rel(Step(g, At(m, p)).value.pos, Step(g, At(m, p)).value.pos);
    }
    if Step(h, At(m, p)).Some? {
      var insn := h[p.bb].insns[p.pc];
      SameInsn(h, g, m, p, p, insn);
    }
    SameStepMatched(g, h, rel, p, m);
    SameStepMatched(h, g, rel, p, m);
  }

  /** The jump that was rewritten leads to the same place. */
  lemma JumpStep(g: Code, h: Code, b: BlockId, target: BlockId, p: Pos, m: Config)
    requires WellFormed(g) && Inserted(g, h, b, target) && AlwaysTo(g, b, target) && p == Pos(b, |g[b].insns| - 1)
    ensures Matched(g, h, Together(g, h, b), p, p, m) && Arrives(g, h, p, p, m)
    ensures Matched(h, g, Together(g, h, b), p, p, m) && Arrives(h, g, p, p, m)
  {
    var rel, one: nat := Together(g, h, b), 1;
    var old_, new_ := Last(g[b]), Br(Void, target, None);
    assert InsnAt(g, p, old_) && InsnAt(h, p, new_) && JumpsAt(old_, At(m, p), target);
    StepOf(g, m, p, old_);
    StepOf(h, m, p, new_);
    var next := At(m, Pos(target, 0));
    assert Step(g, At(m, p)) == Some(next) && Step(h, At(m, p)) == Some(next);
    DoesStep(g, At(m, p), next);
    DoesStep(h, At(m, p), next);
    StepLeads(h, m, p, new_);
    ParentMakesAlive(g, h, b, target, target);
    assert Does(h, At(m, p), one, Log(g, p), At(next, next.pos))
           && Does(g, At(m, p), one, Log(h, p), At(next, next.pos));
  }

  /** A jump that always goes to one target is as good as a branch to it. */
  lemma InsertSameWork(g: Code, h: Code, b: BlockId, target: BlockId, start: Pos)
    requires WellFormed(g) && Inserted(g, h, b, target) && AlwaysTo(g, b, target) && Alive(g, h, b, start.bb)
    ensures SameWork(g, h, start)
  {
    var rel := Together(g, h, b);
    forall p, q, m | rel(p, q)
      ensures Matched(g, h, rel, p, q, m) && Arrives(g, h, p, q, m) && Matched(h, g, rel, p, q, m)
              && Arrives(h, g, p, q, m)
    {
      if p == Pos(b, |g[b].insns| - 1) {
        JumpStep(g, h, b, target, p, m);
      } else {
        OtherStep(g, h, b, target, p, m);
      }
    }
    SimulationDoesAll(g, h, rel, start);
    SimulationDoesAll(h, g, rel, start);
  }

  /** A target of the last jump is a child. */
  lemma TargetIsChild(g: Code, b: BlockId, target: BlockId)
    requires WellFormed(g) && b < |g| && Terminated(g[b]) && target in Last(g[b]).Targets()
    ensures target < |g| && target in g[b].children
  {
    assert WellTerminated(g[b]);
    CountIn(TargetsOf(g[b].insns), target);
    CountIn(g[b].children, target);
    EdgeBothWays(g, b, target);
  }

  /** simplify_switch: the first arm that takes the constant, or the default arm. */
  method SimplifySwitch(ep: EntryPoint, b: BlockId, ghost s: seq<BlockId>) returns (changed: bool, ghost arm: nat)
    requires WellFormed(ep.blocks) && b < |ep.blocks| && Terminated(ep.blocks[b]) && Last(ep.blocks[b]).Switch?
    requires WayTo(ep.blocks, ep.entry, b, s)
    modifies ep`blocks
    ensures WellFormed(ep.blocks) && SameWork(old(ep.blocks), ep.blocks, Pos(ep.entry, 0))
    ensures var insn := Last(old(ep.blocks)[b]);
            changed <==> insn.cond.Val?
                         && exists jmp :: jmp in insn.multijmp
                                          && (jmp.begin > jmp.end || jmp.begin <= insn.cond.value <= jmp.end)
    ensures changed ==>
              var insn := Last(old(ep.blocks)[b]);
              var jmps, val := insn.multijmp, insn.cond.value;
              && arm < |jmps| && (jmps[arm].begin > jmps[arm].end || jmps[arm].begin <= val <= jmps[arm].end)
              && (forall j :: 0 <= j < arm ==>
                    jmps[j].begin <= jmps[j].end && !(jmps[j].begin <= val <= jmps[j].end))
              && Inserted(old(ep.blocks), ep.blocks, b, jmps[arm].target)
    ensures !changed ==> ep.blocks == old(ep.blocks)
  {
    ghost var g := ep.blocks;
    SameWorkSelf(g, Pos(ep.entry, 0));
    var insn := Last(ep.blocks[b]);
    arm := 0;
    if !insn.cond.Val? {
      return false, 0;
    }
    var jmps, val := insn.multijmp, insn.cond.value;
    var i := 0;
    while i < |jmps|
      invariant i <= |jmps| && forall j :: 0 <= j < i ==> !Takes(jmps[j], val)
    {
      var jmp := jmps[i];
      if jmp.begin > jmp.end || jmp.begin <= val <= jmp.end {
        arm := i;
        ArmIsFirst(jmps, val);
        assert Takes(jmps[i], val) && jmp in jmps;
        ArmIsTarget(jmps, val);
        TargetIsChild(g, b, jmp.target);
        InsertBranch(ep, b, jmp.target, s);
        EntryAlive(g, ep.blocks, b, ep.entry, jmp.target, s);
        SwitchAlways(g, b, jmp.target);
        InsertSameWork(g, ep.blocks, b, jmp.target, Pos(ep.entry, 0));
        return true, i;
      }
      i := i + 1;
    }
    changed := false;
  }

  lemma SwitchAlways(g: Code, b: BlockId, target: BlockId)
    requires b < |g| && Terminated(g[b]) && Last(g[b]).Switch? && Last(g[b]).cond.Val?
    requires Arm(Last(g[b]).multijmp, Last(g[b]).cond.value) == Some(target)
    ensures AlwaysTo(g, b, target)
  {
    assert !Visible(Last(g[b]));
    forall m: Config ensures JumpsAt(Last(g[b]), m, target) {
      assert ValueOf(m, Last(g[b]).cond) == Last(g[b]).cond.value;
    }
  }

  lemma BranchAlways(g: Code, b: BlockId, target: BlockId)
    requires b < |g| && Terminated(g[b]) && Last(g[b]).Br? && Last(g[b]).bbFalse.Some?
    requires var insn := Last(g[b]);
             if insn.cond.Val? then target == (if insn.cond.value == 0 then insn.bbFalse.value else insn.bbTrue)
             else insn.bbTrue == insn.bbFalse.value == target
    ensures AlwaysTo(g, b, target)
  {
    assert !Visible(Last(g[b]));
    forall m: Config ensures JumpsAt(Last(g[b]), m, target) {
      assert Last(g[b]).cond.Val? ==> ValueOf(m, Last(g[b]).cond) == Last(g[b]).cond.value;
    }
  }

  lemma EntryAlive(g: Code, h: Code, b: BlockId, e: BlockId, target: BlockId, s: seq<BlockId>)
    requires WayTo(h, e, b, s) && Inserted(g, h, b, target)
    ensures Alive(g, h, b, e)
  {
    if e != b {
      assert IsEdge(h, s[0], s[1]);
      assert KeptOrKilled(g, h, Doomed(g, b, target, g[b].children, {}), e);
    }
  }

  /** simplify_branch, where the condition is a constant or both targets are the same. */
  method SimplifyBranch(ep: EntryPoint, b: BlockId, ghost s: seq<BlockId>) returns (changed: bool)
    requires WellFormed(ep.blocks) && b < |ep.blocks| && Terminated(ep.blocks[b])
    requires Last(ep.blocks[b]).Br? && Last(ep.blocks[b]).bbFalse.Some? && WayTo(ep.blocks, ep.entry, b, s)
    modifies ep`blocks
    ensures WellFormed(ep.blocks) && SameWork(old(ep.blocks), ep.blocks, Pos(ep.entry, 0))
    ensures var insn := Last(old(ep.blocks)[b]); changed <==> insn.cond.Val? || insn.bbTrue == insn.bbFalse.value
    ensures changed ==>
              var insn := Last(old(ep.blocks)[b]);
              Inserted(old(ep.blocks), ep.blocks, b,
                         if insn.cond.Val? && insn.cond.value == 0 then insn.bbFalse.value else insn.bbTrue)
  {
    ghost var g := ep.blocks;
    SameWorkSelf(g, Pos(ep.entry, 0));
    var insn := Last(ep.blocks[b]);
    changed := insn.cond.Val? || insn.bbTrue == insn.bbFalse.value;
    if changed {
      var target := if insn.cond.Val? && insn.cond.value == 0 then insn.bbFalse.value else insn.bbTrue;
      TargetIsChild(g, b, target);
      if insn.cond.Val? {
        InsertBranch(ep, b, target, s);
      } else {
        MergeTargets(ep, b, target, s);
      }
      EntryAlive(g, ep.blocks, b, ep.entry, target, s);
      BranchAlways(g, b, target);
      InsertSameWork(g, ep.blocks, b, target, Pos(ep.entry, 0));
    }
  }

  lemma TwoTargets(g: Code, b: BlockId, target: BlockId)
    requires WellFormed(g) && b < |g| && Terminated(g[b]) && Last(g[b]).Targets() == [target, target]
    ensures g[b].children == [target, target] && target < |g|
  {
    assert WellTerminated(g[b]);
    var children, targets := g[b].children, TargetsOf(g[b].insns);
    forall y ensures Count(children, y) == (if y == target then 2 else 0) {
      assert Count(children, y) == Count(targets, y);
      CountAppend([target], target, y);
      CountAppend([], target, y);
      assert targets == [target] + [target] && [target] == [] + [target];
    }
    AllOne(children, target, 2);
    TargetIsChild(g, b, target);
  }

  /** x is in the list n times, and nothing else is. */
  ghost predicate OnlyHas(s: seq<BlockId>, x: BlockId, n: nat) {
    forall y {:trigger Count(s, y)} :: Count(s, y) == if y == x then n else 0
  }

  lemma {:induction false} AllOne(s: seq<BlockId>, x: BlockId, n: nat)
    requires OnlyHas(s, x, n)
    ensures |s| == n && forall i :: 0 <= i < |s| ==> s[i] == x
  {
    if s == [] {
      assert Count(s, x) == 0;
    } else {
      var front, y := s[..|s| - 1], s[|s| - 1];
      CountIn(s, y);
      assert s == front + [y];
      forall z ensures Count(front, z) == Count(s, z) - One(z == y) {
        CountAppend(front, y, z);
      }
      assert y == x;
      AllOne(front, x, n - 1);
    }
  }

  /** Of two edges to the same block, one goes. */
  method MergeTargets(ep: EntryPoint, b: BlockId, target: BlockId, ghost s: seq<BlockId>)
    requires WellFormed(ep.blocks) && b < |ep.blocks| && Terminated(ep.blocks[b])
    requires Last(ep.blocks[b]).Targets() == [target, target] && WayTo(ep.blocks, ep.entry, b, s)
    modifies ep`blocks
    ensures Inserted(old(ep.blocks), ep.blocks, b, target) && WayTo(ep.blocks, ep.entry, b, s)
  {
    ghost var g := ep.blocks;
    TwoTargets(g, b, target);
    ep.blocks := ep.blocks[b := ep.blocks[b].(insns := Branched(ep.blocks[b].insns, target))];
    forall x: BlockId, y: BlockId ensures LinkAgrees(ep.blocks, x, y) {
      assert LinkAgrees(g, x, y);
    }
    WayKept(g, ep.blocks, ep.entry, b, s);
    ghost var h := ep.blocks;
    ep.blocks := ep.blocks[target := ep.blocks[target].(parents := RemoveFirst(ep.blocks[target].parents, b))];
    ep.blocks := ep.blocks[b := ep.blocks[b].(children := RemoveFirst(ep.blocks[b].children, target))];
    MergedTargets(g, h, ep.blocks, ep.entry, b, target, s);
  }

  lemma MergedTargets(g: Code, h: Code, k: Code, e: BlockId, b: BlockId, target: BlockId, s: seq<BlockId>)
    requires WellFormed(g) && b < |g| && Terminated(g[b]) && g[b].children == [target, target] && target < |g|
    requires h == g[b := g[b].(insns := Branched(g[b].insns, target))] && LinksAgree(h) && WayTo(h, e, b, s)
    requires var h1 := h[target := h[target].(parents := RemoveFirst(h[target].parents, b))];
             k == h1[b := h1[b].(children := RemoveFirst(h1[b].children, target))]
    ensures Inserted(g, k, b, target) && WayTo(k, e, b, s)
  {
    var two := [target, target];
    assert two[1..] == [target] && [] + two == two && [] + two[1..] == [target];
    assert RemoveFirst(two, target) == [target];
    EdgeCutLinks(h, b, target, [], two);
    assert k == EdgeCut(h, b, target, [target]);
    assert k[e].parents == [];
    forall i {:trigger s[i]} | 0 <= i < |s| - 1 && s[i] < |h| ensures k[s[i]].children == h[s[i]].children {
      assert s[i] == s[..|s| - 1][i];
    }
    WayKept(h, k, e, b, s);
    assert two[1..][1..] == [];
    assert Doomed(g, b, target, two, {}) == Doomed(g, b, target, two[1..], {}) == Doomed(g, b, target, [], {}) == {};
    forall c: BlockId | c < |g| && c != b ensures KeptOrKilled(g, k, {}, c) {
    }
    assert Cutting(g, k, e, b, target, true, [], s, {});
    CutsInserted(g, k, e, b, target, s);
  }
}
