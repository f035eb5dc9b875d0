/** Edits of the edges of a control-flow graph (flow.c): what they do to the lists of
    children and parents, and that the two keep agreeing. */
module Edges {
  import opened Options
  import opened Ir
  import opened Semantics
  import opened Graph

  // ---------------------------------------------------------------------------
  // Lists of blocks
  // ---------------------------------------------------------------------------

  /** replace_bb_in_list with count 1. */
  function ReplaceFirst(s: seq<BlockId>, x: BlockId, y: BlockId): seq<BlockId> {
    if |s| == 0 then []
    else if s[0] == x then [y] + s[1..]
    else [s[0]] + ReplaceFirst(s[1..], x, y)
  }

  /** replace_bb_in_list with count 0. */
  function ReplaceAll(s: seq<BlockId>, x: BlockId, y: BlockId): seq<BlockId> {
    if |s| == 0 then [] else [if s[0] == x then y else s[0]] + ReplaceAll(s[1..], x, y)
  }

  /** remove_bb_from_list with count 1. */
  function RemoveFirst(s: seq<BlockId>, x: BlockId): seq<BlockId> {
    if |s| == 0 then []
    else if s[0] == x then s[1..]
    else [s[0]] + RemoveFirst(s[1..], x)
  }

  /** remove_bb_from_list with count 0. */
  function RemoveAll(s: seq<BlockId>, x: BlockId): seq<BlockId> {
    if |s| == 0 then [] else (if s[0] == x then [] else [s[0]]) + RemoveAll(s[1..], x)
  }

  function One(b: bool): nat {
    if b then 1 else 0
  }

  lemma {:induction false} CountConcat(s: seq<BlockId>, t: seq<BlockId>, x: BlockId)
    ensures Count(s + t, x) == Count(s, x) + Count(t, x)
  {
    if t == [] {
      assert s + t == s;
    } else {
      assert (s + t)[..|s + t| - 1] == s + t[..|t| - 1];
      CountConcat(s, t[..|t| - 1], x);
    }
  }

  lemma CountHead(s: seq<BlockId>, x: BlockId)
    requires |s| > 0
    ensures Count(s, x) == One(s[0] == x) + Count(s[1..], x)
  {
    CountConcat([s[0]], s[1..], x);
    assert [s[0]] + s[1..] == s;
    assert [s[0]][..0] == [];
  }

  lemma CountPrepend(y: BlockId, s: seq<BlockId>, x: BlockId)
    ensures Count([y] + s, x) == One(y == x) + Count(s, x)
  {
    CountHead([y] + s, x);
    assert ([y] + s)[1..] == s;
  }

  lemma {:induction false} CountReplaceFirst(s: seq<BlockId>, x: BlockId, y: BlockId, z: BlockId)
    requires x in s
    ensures Count(ReplaceFirst(s, x, y), z) == Count(s, z) - One(z == x) + One(z == y)
  {
    CountHead(s, z);
    if s[0] == x {
      CountPrepend(y, s[1..], z);
    } else {
      CountReplaceFirst(s[1..], x, y, z);
      CountPrepend(s[0], ReplaceFirst(s[1..], x, y), z);
    }
  }

  lemma {:induction false} CountRemoveFirst(s: seq<BlockId>, x: BlockId, z: BlockId)
    requires x in s
    ensures Count(RemoveFirst(s, x), z) == Count(s, z) - One(z == x)
    ensures |RemoveFirst(s, x)| == |s| - 1
  {
    CountHead(s, z);
    if s[0] != x {
      CountRemoveFirst(s[1..], x, z);
      CountPrepend(s[0], RemoveFirst(s[1..], x), z);
    }
  }

  lemma {:induction false} CountReplaceAll(s: seq<BlockId>, x: BlockId, y: BlockId, z: BlockId)
    requires x != y
    ensures Count(ReplaceAll(s, x, y), z) ==
            if z == x then 0 else if z == y then Count(s, x) + Count(s, y) else Count(s, z)
  {
    if |s| > 0 {
      CountHead(s, x);
      CountHead(s, y);
      CountHead(s, z);
      CountReplaceAll(s[1..], x, y, z);
      CountPrepend(if s[0] == x then y else s[0], ReplaceAll(s[1..], x, y), z);
    }
  }

  lemma {:induction false} CountRemoveAll(s: seq<BlockId>, x: BlockId, z: BlockId)
    ensures Count(RemoveAll(s, x), z) == if z == x then 0 else Count(s, z)
  {
    if |s| > 0 {
      CountHead(s, z);
      CountRemoveAll(s[1..], x, z);
      if s[0] != x {
        CountPrepend(s[0], RemoveAll(s[1..], x), z);
      } else {
        assert [] + RemoveAll(s[1..], x) == RemoveAll(s[1..], x);
      }
    }
  }

  lemma {:induction false} NoneToRemove(s: seq<BlockId>, x: BlockId)
    requires Count(s, x) == 0
    ensures RemoveAll(s, x) == s
  {
    if |s| > 0 {
      CountHead(s, x);
      NoneToRemove(s[1..], x);
    }
  }

  lemma CountUpdate(s: seq<BlockId>, i: nat, y: BlockId, z: BlockId)
    requires i < |s|
    ensures Count(s[i := y], z) == Count(s, z) - One(s[i] == z) + One(y == z)
  {
    var before, after := s[..i], s[i + 1..];
    assert s == before + ([s[i]] + after) && s[i := y] == before + ([y] + after);
    CountConcat(before, [s[i]] + after, z);
    CountConcat(before, [y] + after, z);
    CountPrepend(s[i], after, z);
    CountPrepend(y, after, z);
  }

  // ---------------------------------------------------------------------------
  // Redirecting one jump
  // ---------------------------------------------------------------------------

  /** The instruction with its i-th target replaced. */
  function Retarget(insn: Instruction, i: nat, y: BlockId): (r: Instruction)
    requires i < |insn.Targets()|
  {
    match insn
    case Br(c, t, f) => if i == 0 then Br(c, y, f) else Br(c, t, Some(y))
    case Switch(c, jmps) => Switch(c, jmps[i := jmps[i].(target := y)])
    case ComputedGoto(a, jmps) => ComputedGoto(a, jmps[i := jmps[i].(target := y)])
    case _ => insn
  }

  lemma RetargetTargets(insn: Instruction, i: nat, y: BlockId)
    requires i < |insn.Targets()|
    ensures Retarget(insn, i, y).Targets() == insn.Targets()[i := y]
    ensures Retarget(insn, i, y).Terminator()
  {
    match insn
    case Switch(c, jmps) =>
      assert JmpTargets(jmps[i := jmps[i].(target := y)]) == JmpTargets(jmps)[i := y];
    case ComputedGoto(a, jmps) =>
      assert JmpTargets(jmps[i := jmps[i].(target := y)]) == JmpTargets(jmps)[i := y];
    case _ =>
  }

  function Last(b: Block): Instruction
    requires b.insns != []
  {
    b.insns[|b.insns| - 1]
  }

  /** The i-th jump of `b` leads to x. */
  ghost predicate JumpsTo(g: Code, b: BlockId, i: nat, x: BlockId) {
    b < |g| && g[b].insns != [] && i < |Last(g[b]).Targets()| && Last(g[b]).Targets()[i] == x
  }

  function SetTarget(g: Code, b: BlockId, i: nat, x: BlockId, y: BlockId): Code
    requires JumpsTo(g, b, i, x)
  {
    var n := |g[b].insns| - 1;
    g[b := g[b].(insns := g[b].insns[n := Retarget(g[b].insns[n], i, y)],
                 children := ReplaceFirst(g[b].children, x, y))]
  }

  /** rewrite_branch: the i-th jump of `b` goes to y and no longer to x. */
  function Redirected(g: Code, b: BlockId, i: nat, x: BlockId, y: BlockId): Code
    requires JumpsTo(g, b, i, x) && x < |g| && y < |g|
  {
    var h := SetTarget(g, b, i, x, y);
    var k := h[x := h[x].(parents := RemoveFirst(h[x].parents, b))];
    k[y := k[y].(parents := k[y].parents + [b])]
  }

  lemma {:induction false} TargetCounted(s: seq<BlockId>, i: nat)
    requires i < |s|
    ensures Count(s, s[i]) > 0
  {
    CountIn(s, s[i]);
  }

  /** A jump's target is a block of the graph, one of the jumping block's children, and
      has the jumping block among its parents. */
  lemma JumpIsEdge(g: Code, b: BlockId, i: nat, x: BlockId)
    requires WellFormed(g) && JumpsTo(g, b, i, x)
    ensures x < |g| && x in g[b].children && b in g[x].parents
  {
    var targets := TargetsOf(g[b].insns);
    assert WellTerminated(g[b]) && LinkAgrees(g, b, x) && targets[i] == x;
    TargetCounted(targets, i);
    assert Count(g[b].children, x) == Count(targets, x);
    CountIn(g[b].children, x);
    CountIn(g[x].parents, b);
  }

  lemma RedirectedBlocks(g: Code, b: BlockId, i: nat, x: BlockId, y: BlockId, h: Code)
    requires JumpsTo(g, b, i, x) && x < |g| && y < |g| && x != y && h == Redirected(g, b, i, x, y)
    ensures |h| == |g|
    ensures forall c :: 0 <= c < |g| && c != b ==> h[c].insns == g[c].insns && h[c].children == g[c].children
    ensures h[b].insns == g[b].insns[|g[b].insns| - 1 := Retarget(Last(g[b]), i, y)]
    ensures h[b].children == ReplaceFirst(g[b].children, x, y)
    ensures forall c :: 0 <= c < |g| && c != x && c != y ==> h[c].parents == g[c].parents
    ensures h[x].parents == RemoveFirst(g[x].parents, b) && h[y].parents == g[y].parents + [b]
  {
  }

  lemma RedirectKeepsLink(g: Code, b: BlockId, i: nat, x: BlockId, y: BlockId, h: Code, c: BlockId, d: BlockId)
    requires WellFormed(g) && JumpsTo(g, b, i, x) && x < |g| && y < |g| && x != y && h == Redirected(g, b, i, x, y)
    ensures LinkAgrees(h, c, d)
  {
    assert LinkAgrees(g, c, d);
    RedirectedBlocks(g, b, i, x, y, h);
    JumpIsEdge(g, b, i, x);
    CountReplaceFirst(g[b].children, x, y, d);
    CountRemoveFirst(g[x].parents, b, c);
    CountAppend(g[y].parents, b, c);
  }

  lemma RedirectKeepsWellFormed(g: Code, b: BlockId, i: nat, x: BlockId, y: BlockId)
    requires WellFormed(g) && JumpsTo(g, b, i, x) && x < |g| && y < |g| && x != y
    ensures WellFormed(Redirected(g, b, i, x, y))
    ensures |Redirected(g, b, i, x, y)[x].parents| < |g[x].parents|
  {
    var h := Redirected(g, b, i, x, y);
    RedirectedBlocks(g, b, i, x, y, h);
    JumpIsEdge(g, b, i, x);
    forall c, d ensures LinkAgrees(h, c, d) {
      RedirectKeepsLink(g, b, i, x, y, h, c, d);
    }
    CountRemoveFirst(g[x].parents, b, b);
    var ts := Last(g[b]).Targets();
    RetargetTargets(Last(g[b]), i, y);
    forall c | 0 <= c < |h| ensures WellTerminated(h[c]) {
      assert WellTerminated(g[c]);
      if c == b {
        forall z ensures Count(h[b].children, z) == Count(TargetsOf(h[b].insns), z) {
          CountReplaceFirst(g[b].children, x, y, z);
          CountUpdate(ts, i, y, z);
          assert Count(g[b].children, z) == Count(ts, z);
        }
      }
    }
  }

  // ---------------------------------------------------------------------------
  // Killing a block
  // ---------------------------------------------------------------------------

  /** kill_bb: the block loses its instructions and its edges. */
  function Killed(g: Code, x: BlockId): (h: Code)
    requires x < |g|
    ensures |h| == |g|
  {
    seq(|g|, i requires 0 <= i < |g| =>
      if i == x then g[i].(insns := [], children := [], parents := [])
      else g[i].(parents := if i in g[x].children then RemoveAll(g[i].parents, x) else g[i].parents,
                 children := if i in g[x].parents then RemoveAll(g[i].children, x) else g[i].children))
  }

  lemma KillKeepsLinks(g: Code, x: BlockId)
    requires LinksAgree(g) && x < |g|
    ensures LinksAgree(Killed(g, x))
  {
    var h := Killed(g, x);
    forall b: BlockId, c: BlockId ensures LinkAgrees(h, b, c) {
      assert LinkAgrees(g, b, c) && LinkAgrees(g, b, x) && LinkAgrees(g, x, c);
      if b < |g| && c < |g| {
        CountIn(g[x].parents, b);
        CountIn(g[x].children, c);
        CountRemoveAll(g[b].children, x, c);
        CountRemoveAll(g[c].parents, x, b);
      } else if b < |g| {
        CountRemoveAll(g[b].children, x, c);
      } else if c < |g| {
        CountRemoveAll(g[c].parents, x, b);
      }
    }
  }

  /** A block without parents can be killed. */
  lemma KillKeepsWellFormed(g: Code, x: BlockId)
    requires WellFormed(g) && x < |g| && g[x].parents == []
    ensures WellFormed(Killed(g, x))
    ensures forall b :: 0 <= b < |g| && b != x ==> Killed(g, x)[b].insns == g[b].insns
  {
    KillKeepsLinks(g, x);
    var h := Killed(g, x);
    forall b | 0 <= b < |h| ensures WellTerminated(h[b]) {
      assert WellTerminated(g[b]);
    }
  }

  // ---------------------------------------------------------------------------
  // Merging a block into its only parent
  // ---------------------------------------------------------------------------

  /** x hangs below p, and neither has another block there. */
  ghost predicate OnlyEdge(g: Code, p: BlockId, x: BlockId) {
    && p < |g| && x < |g| && p != x && g[x].parents != [] && g[p].children != [] && g[p].insns != []
    && (forall b :: b in g[x].parents ==> b == p)
    && (forall c :: c in g[p].children ==> c == x)
  }

  /** pack_basic_blocks: p ends with the instructions of x instead of its jump to x. */
  function MergedInto(g: Code, p: BlockId, x: BlockId): (h: Code)
    requires p < |g| && x < |g| && g[p].insns != []
    ensures |h| == |g|
  {
    seq(|g|, i requires 0 <= i < |g| =>
      var b := if i == p then g[p].(insns := g[p].insns[..|g[p].insns| - 1] + g[x].insns, children := g[x].children)
               else if i == x then g[x].(insns := [], children := [], parents := [])
               else g[i];
      if i in g[x].children then b.(parents := ReplaceAll(b.parents, x, p)) else b)
  }

  lemma OnlyEdgeCounts(g: Code, p: BlockId, x: BlockId, c: BlockId)
    requires OnlyEdge(g, p, x) && LinksAgree(g)
    ensures c != x && c < |g| ==> Count(g[c].parents, p) == 0
    ensures c != p ==> Count(g[x].parents, c) == 0
    ensures c != p && c < |g| ==> Count(g[c].children, x) == 0
  {
    CountIn(g[p].children, c);
    CountIn(g[x].parents, c);
    assert LinkAgrees(g, p, c) && LinkAgrees(g, c, x);
  }

  lemma MergeKeepsLink(g: Code, p: BlockId, x: BlockId, b: BlockId, c: BlockId)
    requires OnlyEdge(g, p, x) && LinksAgree(g)
    ensures LinkAgrees(MergedInto(g, p, x), b, c)
  {
    assert LinkAgrees(g, b, c) && LinkAgrees(g, x, c);
    OnlyEdgeCounts(g, p, x, b);
    OnlyEdgeCounts(g, p, x, c);
    CountIn(g[x].children, c);
    if c < |g| {
      CountReplaceAll(g[c].parents, x, p, b);
    }
  }

  lemma MergeKeepsWellFormed(g: Code, p: BlockId, x: BlockId)
    requires OnlyEdge(g, p, x) && WellFormed(g)
    ensures WellFormed(MergedInto(g, p, x))
  {
    var h := MergedInto(g, p, x);
    forall b, c ensures LinkAgrees(h, b, c) {
      MergeKeepsLink(g, p, x, b, c);
    }
    forall b | 0 <= b < |h| ensures WellTerminated(h[b]) {
      assert WellTerminated(g[b]);
      if b == p {
        MergedTerminated(g[p], g[x], h[p], g[p].insns[..|g[p].insns| - 1]);
      }
    }
  }

  /** A block whose last instruction gives way to the instructions of another. */
  lemma MergedTerminated(p: Block, x: Block, h: Block, front: seq<Instruction>)
    requires WellTerminated(p) && WellTerminated(x) && p.insns != [] && front == p.insns[..|p.insns| - 1]
    requires h.insns == front + x.insns && h.children == x.children
    ensures WellTerminated(h)
  {
    forall i | 0 <= i < |front| ensures !front[i].Terminator() {
      assert front[i] == p.insns[i] && !p.insns[i].Terminator();
    }
    FrontNeverEnds(front, x.insns, h.insns, |front|);
  }

  lemma FrontNeverEnds(front: seq<Instruction>, rest: seq<Instruction>, s: seq<Instruction>, n: nat)
    requires s == front + rest && n == |front| && forall i :: 0 <= i < n ==> !front[i].Terminator()
    requires forall i {:trigger rest[i].Terminator()} :: 0 <= i < |rest| - 1 ==> !rest[i].Terminator()
    ensures forall i {:trigger s[i].Terminator()} :: 0 <= i < |s| - 1 ==> !s[i].Terminator()
    ensures TargetsOf(s) == TargetsOf(rest)
  {
    forall i {:trigger s[i].Terminator()} | 0 <= i < |s| - 1 ensures !s[i].Terminator() {
      if i < n {
        assert s[i] == front[i];
      } else {
        assert s[i] == rest[i - n] && !rest[i - n].Terminator();
      }
    }
    if rest == [] {
      assert s == front && TargetsOf(front) == [];
    } else {
      assert s[|s| - 1] == rest[|rest| - 1];
    }
  }
}
