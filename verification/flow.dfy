/** pack_basic_blocks and what it is made of (flow.c): branches past blocks that only
    branch, and merging blocks into their only parents. */
module Flow {
  import opened Options
  import opened Ir
  import opened Semantics
  import opened Graph
  import opened Edges
  import opened Work
  import opened Threading

  // ---------------------------------------------------------------------------
  // What every edit keeps
  // ---------------------------------------------------------------------------

  /** The first instruction of an entry block that is not a nop is its Entry. */
  predicate BeginsWithEntry(insns: seq<Instruction>) {
    exists i :: 0 <= i < |insns| && insns[i] == Entry && forall j :: 0 <= j < i ==> insns[j].IsNop()
  }

  ghost predicate EntryOk(g: Code, e: BlockId) {
    e < |g| && g[e].parents == [] && BeginsWithEntry(g[e].insns)
  }

  ghost predicate Fine(g: Code, e: BlockId) {
    WellFormed(g) && EntryOk(g, e)
  }

  /** A block that is killed or merged. */
  predicate Gone(g: Code, x: BlockId) {
    x < |g| && g[x].insns == [] && g[x].parents == [] && g[x].children == []
  }

  predicate GoneStay(g: Code, h: Code) {
    |h| == |g| && forall x: BlockId {:trigger Gone(h, x)} :: x < |g| && Gone(g, x) ==> Gone(h, x)
  }

  /** What a pass over the graph promises. */
  ghost predicate Kept(g: Code, h: Code, e: BlockId) {
    GoneStay(g, h) && (TotalJumps(g) ==> TotalJumps(h) && SameWork(g, h, Pos(e, 0)))
  }

  lemma GoneStayTrans(g: Code, h: Code, k: Code)
    requires GoneStay(g, h) && GoneStay(h, k)
    ensures GoneStay(g, k)
  {
    forall x: BlockId | x < |g| && Gone(g, x) ensures Gone(k, x) {
      assert Gone(h, x);
    }
  }

  lemma KeptTrans(g: Code, h: Code, k: Code, e: BlockId)
    requires Kept(g, h, e) && Kept(h, k, e)
    ensures Kept(g, k, e)
  {
    GoneStayTrans(g, h, k);
    if TotalJumps(g) {
      SameWorkTrans(g, h, k, Pos(e, 0));
    }
  }

  lemma KeptSelf(g: Code, e: BlockId)
    ensures Kept(g, g, e)
  {
    SameWorkSelf(g, Pos(e, 0));
  }

  lemma EntryBeforeEnd(insns: seq<Instruction>, insns': seq<Instruction>)
    requires BeginsWithEntry(insns) && insns[|insns| - 1].Terminator()
    requires |insns| <= |insns'| + 1 && insns'[..|insns| - 1] == insns[..|insns| - 1]
    ensures BeginsWithEntry(insns')
  {
    var i :| 0 <= i < |insns| && insns[i] == Entry && forall j :: 0 <= j < i ==> insns[j].IsNop();
    var front := insns[..|insns| - 1];
    forall j | 0 <= j <= i ensures insns'[j] == insns[j] {
      assert insns'[j] == insns'[..|insns| - 1][j] && front[j] == insns[j];
    }
  }

  lemma PassesOn(g: Code, h: Code, b: BlockId, i: nat, x: BlockId, j: nat, y: BlockId)
    requires Bypass(g, h, b, i, x, j, y)
    ensures Passes(h, x, j, y)
  {
    RedirectedBlocks(g, b, i, x, y, h);
    if b == x {
      assert WellTerminated(g[x]);
      assert g[x].insns[j].Terminator();
      forall i {:trigger h[x].insns[i].IsNop()} | 0 <= i < j ensures h[x].insns[i].IsNop() {
        assert g[x].insns[i].IsNop();
      }
    }
  }

  lemma PassIsEdge(g: Code, x: BlockId, j: nat, y: BlockId)
    requires WellFormed(g) && Passes(g, x, j, y)
    ensures y < |g| && x in g[y].parents
  {
    var insn := g[x].insns[j];
    assert WellTerminated(g[x]) && insn.Terminator();
    var i := if insn.bbFalse.None? || insn.cond.value != 0 then 0 else 1;
    assert JumpsTo(g, x, i, y);
    JumpIsEdge(g, x, i, y);
  }

  lemma BypassKeeps(g: Code, h: Code, b: BlockId, i: nat, x: BlockId, j: nat, y: BlockId, e: BlockId)
    requires Fine(g, e) && Bypass(g, h, b, i, x, j, y)
    ensures Fine(h, e) && Kept(g, h, e) && Passes(h, x, j, y) && |h[x].parents| < |g[x].parents|
  {
    RedirectKeepsWellFormed(g, b, i, x, y);
    RedirectedBlocks(g, b, i, x, y, h);
    PassIsEdge(g, x, j, y);
    JumpIsEdge(g, b, i, x);
    assert GoneStay(g, h) by {
      assert b in g[x].parents && x in g[y].parents;
    }
    if b == e {
      assert Last(g[e]).Terminator();
      EntryBeforeEnd(g[e].insns, h[e].insns);
    }
    PassesOn(g, h, b, i, x, j, y);
    BypassSameWork(g, h, b, i, x, j, y, Pos(e, 0));
    if TotalJumps(g) {
      RedirectKeepsTotal(g, b, i, x, y);
    }
  }

  lemma KillKeeps(g: Code, x: BlockId, e: BlockId)
    requires Fine(g, e) && x < |g| && g[x].parents == [] && x != e
    ensures Fine(Killed(g, x), e) && Kept(g, Killed(g, x), e)
  {
    KillKeepsWellFormed(g, x);
    KillSameWork(g, x, Pos(e, 0));
    if TotalJumps(g) {
      KillKeepsTotal(g, x);
    }
    var h := Killed(g, x);
    assert h[e].parents == [];
    assert RemoveAll([], x) == [];
  }

  lemma MergeKeeps(g: Code, p: BlockId, x: BlockId, e: BlockId)
    requires Fine(g, e) && OnlyEdge(g, p, x)
    ensures Fine(MergedInto(g, p, x), e) && Kept(g, MergedInto(g, p, x), e)
  {
    var h := MergedInto(g, p, x);
    MergeKeepsWellFormed(g, p, x);
    assert ReplaceAll([], x, p) == [];
    assert GoneStay(g, h);
    if e in g[x].children {
      assert LinkAgrees(g, x, e);
      CountIn(g[x].children, e);
      assert false;
    }
    if e == p {
      assert WellTerminated(g[p]);
      CountIn(g[p].children, g[p].children[0]);
      assert Count(TargetsOf(g[p].insns), g[p].children[0]) > 0;
      assert Last(g[p]).Terminator();
      EntryBeforeEnd(g[p].insns, h[p].insns);
    }
    if TotalJumps(g) {
      MergeSameWork(g, h, p, x, Pos(e, 0));
      MergeKeepsTotal(g, h, p, x);
    }
  }

  // ---------------------------------------------------------------------------
  // Redirecting jumps
  // ---------------------------------------------------------------------------

  /** rewrite_branch, on the i-th jump of block b. */
  method RewriteBranch(ep: EntryPoint, b: BlockId, i: nat, x: BlockId, y: BlockId) returns (changed: bool)
    requires WellFormed(ep.blocks) && b < |ep.blocks| && ep.blocks[b].insns != [] && y < |ep.blocks|
    modifies ep`blocks
    ensures changed <==> x != y && JumpsTo(old(ep.blocks), b, i, x)
    ensures changed ==> x < |old(ep.blocks)| && ep.blocks == Redirected(old(ep.blocks), b, i, x, y)
    ensures !changed ==> ep.blocks == old(ep.blocks)
  {
    var targets := Last(ep.blocks[b]).Targets();
    if i >= |targets| || targets[i] != x || y == x {
      return false;
    }
    JumpIsEdge(ep.blocks, b, i, x);
    ep.blocks := SetTarget(ep.blocks, b, i, x, y);
    ep.blocks := ep.blocks[x := ep.blocks[x].(parents := RemoveFirst(ep.blocks[x].parents, b))];
    ep.blocks := ep.blocks[y := ep.blocks[y].(parents := ep.blocks[y].parents + [b])];
    changed := true;
  }

  /** What a redirection in one parent, or in all, keeps. */
  ghost predicate Threaded(g: Code, h: Code, x: BlockId, j: nat, y: BlockId, e: BlockId) {
    Fine(h, e) && Kept(g, h, e) && Passes(h, x, j, y)
  }

  function Sent(to: BlockId, x: BlockId, y: BlockId): BlockId {
    if to == x then y else to
  }

  /** The first n jumps of an instruction go to y where they went to x. */
  function Rerouted(insn: Instruction, n: nat, x: BlockId, y: BlockId): Instruction {
    match insn
    case Br(c, t, None) => Br(c, if n > 0 then Sent(t, x, y) else t, None)
    case Br(c, t, Some(f)) => Br(c, if n > 0 then Sent(t, x, y) else t, Some(if n > 1 then Sent(f, x, y) else f))
    case Switch(c, jmps) => Switch(c, ReroutedArms(jmps, n, x, y))
    case _ => insn
  }

  function ReroutedArms(jmps: seq<MultiJmp>, n: nat, x: BlockId, y: BlockId): (r: seq<MultiJmp>)
    ensures |r| == |jmps|
  {
    seq(|jmps|, i requires 0 <= i < |jmps| => if i < n then jmps[i].(target := Sent(jmps[i].target, x, y)) else jmps[i])
  }

  lemma ReroutedOneMore(insn: Instruction, i: nat, x: BlockId, y: BlockId)
    requires x != y && (insn.Br? || insn.Switch?)
    ensures var r := Rerouted(insn, i, x, y);
            Rerouted(insn, i + 1, x, y) == if i < |r.Targets()| && r.Targets()[i] == x then Retarget(r, i, y) else r
  {
    match insn
    case Switch(c, jmps) =>
      var r, more := ReroutedArms(jmps, i, x, y), ReroutedArms(jmps, i + 1, x, y);
      if i < |jmps| && jmps[i].target == x {
        assert more == r[i := r[i].(target := y)];
      } else {
        assert more == r;
      }
    case _ =>
  }

  /** After all jumps are sent on, none leads to x, and those that led elsewhere still do. */
  lemma ReroutedTargets(insn: Instruction, n: nat, x: BlockId, y: BlockId)
    requires x != y && n >= |insn.Targets()| && (insn.Br? || insn.Switch?)
    ensures var ts := Rerouted(insn, n, x, y).Targets();
            x !in ts && |ts| == |insn.Targets()| && forall i :: 0 <= i < |ts| ==> ts[i] == Sent(insn.Targets()[i], x, y)
  {
  }

  /** The first n jumps of b were sent on, and nothing else was done to any instruction. */
  ghost predicate JumpsSent(g: Code, h: Code, b: BlockId, n: nat, x: BlockId, y: BlockId) {
    && |h| == |g| && b < |g| && EndsInBranch(g[b])
    && h[b].insns == g[b].insns[|g[b].insns| - 1 := Rerouted(Last(g[b]), n, x, y)]
    && forall c: BlockId :: c < |g| && c != b ==> h[c].insns == g[c].insns
  }

  lemma JumpsSentNone(g: Code, b: BlockId, x: BlockId, y: BlockId)
    requires b < |g| && EndsInBranch(g[b])
    ensures JumpsSent(g, g, b, 0, x, y)
  {
    assert Rerouted(Last(g[b]), 0, x, y) == Last(g[b]) by {
      if Last(g[b]).Switch? {
        assert ReroutedArms(Last(g[b]).multijmp, 0, x, y) == Last(g[b]).multijmp;
      }
    }
  }

  lemma JumpsSentOneMore(g: Code, k: Code, h: Code, b: BlockId, i: nat, i': nat, x: BlockId, y: BlockId)
    requires JumpsSent(g, k, b, i, x, y) && x != y && i' == i + 1 && y < |k| && (JumpsTo(k, b, i, x) ==> x < |k|)
    requires if JumpsTo(k, b, i, x) then h == Redirected(k, b, i, x, y) else h == k
    ensures JumpsSent(g, h, b, i', x, y)
  {
    ReroutedOneMore(Last(g[b]), i, x, y);
    if JumpsTo(k, b, i, x) {
      RedirectedBlocks(k, b, i, x, y, h);
    }
  }

  /** The block b keeps its last instruction's kind and its number of jumps. */
  lemma JumpsSentShape(g: Code, h: Code, b: BlockId, n: nat, x: BlockId, y: BlockId)
    requires JumpsSent(g, h, b, n, x, y) && x != y
    ensures EndsInBranch(h[b]) && Last(h[b]) == Rerouted(Last(g[b]), n, x, y)
    ensures n >= |Last(g[b]).Targets()| ==> x !in Last(h[b]).Targets()
  {
    if n >= |Last(g[b]).Targets()| {
      ReroutedTargets(Last(g[b]), n, x, y);
    }
  }

  predicate EndsInBranch(b: Block) {
    b.insns != [] && (Last(b).Br? || Last(b).Switch?)
  }

  /** rewrite_branch on a jump to a block that only branches. */
  method ThreadJump(ep: EntryPoint, b: BlockId, i: nat, x: BlockId, y: BlockId, ghost g: Code, ghost j: nat,
                    ghost g0: Code)
    returns (changed: bool, ghost i': nat)
    requires Threaded(g, ep.blocks, x, j, y, ep.entry) && JumpsSent(g0, ep.blocks, b, i, x, y)
    requires y < |g| && x != y
    modifies ep`blocks
    ensures Threaded(g, ep.blocks, x, j, y, ep.entry) && JumpsSent(g0, ep.blocks, b, i', x, y) && i' == i + 1
    ensures changed <==> JumpsTo(old(ep.blocks), b, i, x)
    ensures changed ==> |ep.blocks[x].parents| < |old(ep.blocks)[x].parents|
    ensures !changed ==> ep.blocks == old(ep.blocks)
  {
    ghost var before := ep.blocks;
    i' := i + 1;
    changed := RewriteBranch(ep, b, i, x, y);
    JumpsSentOneMore(g0, before, ep.blocks, b, i, i', x, y);
    if changed {
      BypassKeeps(before, ep.blocks, b, i, x, j, y, ep.entry);
      KeptTrans(g, before, ep.blocks, ep.entry);
    }
  }

  /** Every jump of a switch to x goes to y instead. */
  method RewriteSwitch(ep: EntryPoint, b: BlockId, x: BlockId, y: BlockId, ghost g: Code, ghost j: nat)
    returns (changed: bool)
    requires Threaded(g, ep.blocks, x, j, y, ep.entry) && y < |g| && x != y
    requires b < |ep.blocks| && ep.blocks[b].insns != [] && Last(ep.blocks[b]).Switch?
    modifies ep`blocks
    ensures Threaded(g, ep.blocks, x, j, y, ep.entry)
    ensures JumpsSent(old(ep.blocks), ep.blocks, b, |Last(old(ep.blocks)[b]).Targets()|, x, y)
    ensures changed ==> |ep.blocks[x].parents| < |old(ep.blocks)[x].parents|
    ensures !changed ==> ep.blocks == old(ep.blocks)
  {
    ghost var before := ep.blocks;
    JumpsSentNone(before, b, x, y);
    var jmps := Last(ep.blocks[b]).multijmp;
    changed := false;
    for i := 0 to |jmps|
      invariant Threaded(g, ep.blocks, x, j, y, ep.entry) && JumpsSent(before, ep.blocks, b, i, x, y)
      invariant changed ==> |ep.blocks[x].parents| < |before[x].parents|
      invariant !changed ==> ep.blocks == before
    {
      var one, _ := ThreadJump(ep, b, i, x, y, g, j, before);
      changed := changed || one;
    }
  }

  /** rewrite_parent_branch: every jump of b to x goes to y instead. */
  method RewriteParentBranch(ep: EntryPoint, b: BlockId, x: BlockId, y: BlockId, ghost g: Code, ghost j: nat)
    returns (changed: bool)
    requires Threaded(g, ep.blocks, x, j, y, ep.entry) && y < |g|
    requires x < |ep.blocks| && b < |ep.blocks| && b in ep.blocks[x].parents
    modifies ep`blocks
    ensures Threaded(g, ep.blocks, x, j, y, ep.entry)
    ensures changed <==> x != y && EndsInBranch(old(ep.blocks)[b])
    ensures changed ==> |ep.blocks[x].parents| < |old(ep.blocks)[x].parents|
    ensures changed ==> JumpsSent(old(ep.blocks), ep.blocks, b, |Last(old(ep.blocks)[b]).Targets()|, x, y)
    ensures changed ==> EndsInBranch(ep.blocks[b]) && x !in Last(ep.blocks[b]).Targets()
    ensures !changed ==> ep.blocks == old(ep.blocks)
  {
    ghost var before := ep.blocks;
    ParentJumps(before, b, x);
    if |ep.blocks[b].insns| == 0 {
      return false;
    }
    if x == y {
      return false;
    }
    match Last(ep.blocks[b]) {
      case Br(_, _, _) =>
        changed := RewriteTargets(ep, b, x, y, g, j);
      case Switch(_, _) =>
        changed := RewriteSwitch(ep, b, x, y, g, j);
      case _ =>
        return false;
    }
    JumpsSentShape(before, ep.blocks, b, |Last(before[b]).Targets()|, x, y);
    assert changed;
  }

  /** Both targets of a branch. */
  method RewriteTargets(ep: EntryPoint, b: BlockId, x: BlockId, y: BlockId, ghost g: Code, ghost j: nat)
    returns (changed: bool)
    requires Threaded(g, ep.blocks, x, j, y, ep.entry) && y < |g| && x != y
    requires b < |ep.blocks| && ep.blocks[b].insns != [] && Last(ep.blocks[b]).Br?
    modifies ep`blocks
    ensures Threaded(g, ep.blocks, x, j, y, ep.entry)
    ensures JumpsSent(old(ep.blocks), ep.blocks, b, |Last(old(ep.blocks)[b]).Targets()|, x, y)
    ensures changed ==> |ep.blocks[x].parents| < |old(ep.blocks)[x].parents|
    ensures !changed ==> ep.blocks == old(ep.blocks)
  {
    ghost var before := ep.blocks;
    JumpsSentNone(before, b, x, y);
    var first, one := ThreadJump(ep, b, 0, x, y, g, j, before);
    var second, two := ThreadJump(ep, b, 1, x, y, g, j, before);
    changed := first || second;
    assert |Last(before[b]).Targets()| == if Last(before[b]).bbFalse.Some? then 2 else 1;
    assert Rerouted(Last(before[b]), 1, x, y) == Rerouted(Last(before[b]), 2, x, y) || Last(before[b]).bbFalse.Some?;
  }

  /** A block among the parents of x ends with a jump to x. */
  lemma ParentJumps(g: Code, b: BlockId, x: BlockId)
    requires WellFormed(g) && x < |g| && b < |g| && b in g[x].parents
    ensures g[b].insns != [] && x in Last(g[b]).Targets()
  {
    assert LinkAgrees(g, b, x) && WellTerminated(g[b]);
    CountIn(g[x].parents, b);
    CountIn(TargetsOf(g[b].insns), x);
    assert Count(g[b].children, x) == Count(TargetsOf(g[b].insns), x);
  }

  /** x does nothing but go to another block, and its parents can be told to go there. */
  ghost predicate Bypassable(g: Code, x: BlockId) {
    && (exists j, y :: Passes(g, x, j, y) && y != x)
    && (forall b :: b in g[x].parents ==> b < |g| && EndsInBranch(g[b]))
  }

  lemma OnlyPass(g: Code, x: BlockId, j: nat, j': nat, y: BlockId)
    requires Passes(g, x, j', y) && j <= |g[x].insns| && (j < |g[x].insns| ==> !g[x].insns[j].IsNop())
    requires forall i {:trigger g[x].insns[i].IsNop()} :: 0 <= i < j ==> g[x].insns[i].IsNop()
    ensures j == j'
  {
    assert !g[x].insns[j'].IsNop();
  }

  lemma NotBypassable(g: Code, x: BlockId, j: nat)
    requires x < |g| && j <= |g[x].insns| && (j < |g[x].insns| ==> !g[x].insns[j].IsNop())
    requires forall i {:trigger g[x].insns[i].IsNop()} :: 0 <= i < j ==> g[x].insns[i].IsNop()
    requires j < |g[x].insns| ==> forall y :: y != x ==> !LeadsTo(g[x].insns[j], y)
    ensures !Bypassable(g, x)
  {
    forall j': nat, y: BlockId | Passes(g, x, j', y) ensures y == x {
      OnlyPass(g, x, j, j', y);
    }
  }

  /** rewrite_branch_bb: send all jumps to x to where its branch leads, if that is known. */
  method RewriteBranchBb(ep: EntryPoint, x: BlockId, j: nat) returns (target: Option<BlockId>)
    requires Fine(ep.blocks, ep.entry) && x < |ep.blocks| && j < |ep.blocks[x].insns| && ep.blocks[x].insns[j].Br?
    requires forall i {:trigger ep.blocks[x].insns[i].IsNop()} :: 0 <= i < j ==> ep.blocks[x].insns[i].IsNop()
    modifies ep`blocks
    ensures Fine(ep.blocks, ep.entry) && Kept(old(ep.blocks), ep.blocks, ep.entry)
    ensures if target.Some? then ep.blocks[x].parents == [] else !Bypassable(ep.blocks, x)
    ensures TotalJumps(old(ep.blocks)) ==>
              if Bypassable(old(ep.blocks), x) then target.Some? else target.None? && ep.blocks == old(ep.blocks)
  {
    ghost var g := ep.blocks;
    KeptSelf(g, ep.entry);
    var br := ep.blocks[x].insns[j];
    var y := br.bbTrue;
    if br.bbFalse.Some? {
      if !br.cond.Val? {
        NotBypassable(g, x, j);
        return None;
      }
      y := if br.cond.value != 0 then y else br.bbFalse.value;
    }
    PassIsEdge(g, x, j, y);
    if TotalJumps(g) && x != y {
      AllCanBeTold(g, x, j, y);
    } else if x == y {
      OnlyItself(g, x, j);
    }
    while |ep.blocks[x].parents| > 0
      invariant Threaded(g, ep.blocks, x, j, y, ep.entry) && (x == y ==> ep.blocks == g)
      decreases |ep.blocks[x].parents|
    {
      var parent := ep.blocks[x].parents[0];
      ParentIsBlock(ep.blocks, parent, x);
      ghost var h := ep.blocks;
      var changed := RewriteParentBranch(ep, parent, x, y, g, j);
      if !changed {
        if TotalJumps(g) && x != y {
          TotalParent(h, parent, x);
        }
        if x == y {
          NotBypassable(ep.blocks, x, j);
        }
        return None;
      }
    }
    target := Some(y);
  }

  /** With total jumps every parent ends in a branch or a switch. */
  lemma TotalParent(g: Code, b: BlockId, x: BlockId)
    requires WellFormed(g) && TotalJumps(g) && x < |g| && b in g[x].parents
    ensures b < |g| && EndsInBranch(g[b])
  {
    ParentIsBlock(g, b, x);
    ParentJumps(g, b, x);
    assert TotalEnd(g[b]);
  }

  lemma AllCanBeTold(g: Code, x: BlockId, j: nat, y: BlockId)
    requires WellFormed(g) && TotalJumps(g) && Passes(g, x, j, y) && y != x
    ensures Bypassable(g, x)
  {
    forall b | b in g[x].parents ensures b < |g| && EndsInBranch(g[b]) {
      TotalParent(g, b, x);
    }
  }

  lemma OnlyItself(g: Code, x: BlockId, j: nat)
    requires WellFormed(g) && Passes(g, x, j, x)
    ensures !Bypassable(g, x) && g[x].parents != []
  {
    PassIsEdge(g, x, j, x);
    forall j': nat, y: BlockId | Passes(g, x, j', y) ensures y == x {
      SamePass(g, x, j, x, j', y);
    }
  }

  /** A block passes control on at one place, and to one block. */
  lemma SamePass(g: Code, x: BlockId, j: nat, y: BlockId, j': nat, y': BlockId)
    requires Passes(g, x, j, y) && Passes(g, x, j', y')
    ensures j == j' && y == y'
  {
    assert !g[x].insns[j].IsNop() && !g[x].insns[j'].IsNop();
  }

  lemma ParentIsBlock(g: Code, b: BlockId, x: BlockId)
    requires WellFormed(g) && x < |g| && b in g[x].parents
    ensures b < |g|
  {
    assert LinkAgrees(g, b, x);
    CountIn(g[x].parents, b);
  }

  // ---------------------------------------------------------------------------
  // Killing a block
  // ---------------------------------------------------------------------------

  /** The blocks of `cs` lose x as a parent. */
  function Unparented(g: Code, cs: seq<BlockId>, x: BlockId): (h: Code)
    ensures |h| == |g|
  {
    seq(|g|, i requires 0 <= i < |g| => if i in cs then g[i].(parents := RemoveAll(g[i].parents, x)) else g[i])
  }

  /** The blocks of `ps` lose x as a child. */
  function Unchilded(g: Code, ps: seq<BlockId>, x: BlockId): (h: Code)
    ensures |h| == |g|
  {
    seq(|g|, i requires 0 <= i < |g| => if i in ps then g[i].(children := RemoveAll(g[i].children, x)) else g[i])
  }

  lemma RemoveAllAgain(s: seq<BlockId>, x: BlockId)
    ensures RemoveAll(RemoveAll(s, x), x) == RemoveAll(s, x)
  {
    CountRemoveAll(s, x, x);
    NoneToRemove(RemoveAll(s, x), x);
  }

  lemma UnparentedOneMore(g: Code, cs: seq<BlockId>, k: nat, x: BlockId, c: BlockId, h: Code)
    requires k < |cs| && c == cs[k] < |g| && h == Unparented(g, cs[..k], x)
    ensures h[c := h[c].(parents := RemoveAll(h[c].parents, x))] == Unparented(g, cs[..k + 1], x)
  {
    assert cs[..k + 1] == cs[..k] + [c];
    RemoveAllAgain(g[c].parents, x);
  }

  lemma UnchildedOneMore(g: Code, ps: seq<BlockId>, k: nat, x: BlockId, p: BlockId, h: Code)
    requires k < |ps| && p == ps[k] < |g| && h == Unchilded(g, ps[..k], x)
    ensures h[p := h[p].(children := RemoveAll(h[p].children, x))] == Unchilded(g, ps[..k + 1], x)
  {
    assert ps[..k + 1] == ps[..k] + [p];
    RemoveAllAgain(g[p].children, x);
  }

  lemma {:induction false} RemoveAllIn(s: seq<BlockId>, x: BlockId, z: BlockId)
    requires z != x
    ensures z in RemoveAll(s, x) <==> z in s
  {
    CountRemoveAll(s, x, z);
    CountIn(s, z);
    CountIn(RemoveAll(s, x), z);
  }

  lemma KilledInSteps(g: Code, x: BlockId, g1: Code, g2: Code, ps: seq<BlockId>, g3: Code)
    requires x < |g| && g1 == Unparented(g[x := g[x].(insns := [])], g[x].children, x)
    requires g2 == g1[x := g1[x].(children := [])] && ps == g1[x].parents
    requires g3 == Unchilded(g2, ps, x)
    ensures g3[x := g3[x].(parents := [])] == Killed(g, x)
  {
    var h := g3[x := g3[x].(parents := [])];
    forall i | 0 <= i < |g| ensures h[i] == Killed(g, x)[i] {
      if i != x && x in g[x].children {
        RemoveAllIn(g[x].parents, x, i);
      }
      assert RemoveAll([], x) == [];
    }
  }

  /** kill_bb */
  method KillBb(ep: EntryPoint, x: BlockId)
    requires LinksAgree(ep.blocks) && x < |ep.blocks|
    modifies ep`blocks
    ensures ep.blocks == Killed(old(ep.blocks), x)
  {
    ghost var g := ep.blocks;
    ep.blocks := ep.blocks[x := ep.blocks[x].(insns := [])];
    ghost var g0 := ep.blocks;
    var children := ep.blocks[x].children;
    assert Unparented(g0, children[..0], x) == g0;
    for k := 0 to |children|
      invariant ep.blocks == Unparented(g0, children[..k], x)
    {
      var child := children[k];
      ChildIsBlock(g, x, child);
      UnparentedOneMore(g0, children, k, x, child, ep.blocks);
      ep.blocks := ep.blocks[child := ep.blocks[child].(parents := RemoveAll(ep.blocks[child].parents, x))];
    }
    assert children[..|children|] == children;
    ghost var g1 := ep.blocks;
    ep.blocks := ep.blocks[x := ep.blocks[x].(children := [])];
    ghost var g2 := ep.blocks;
    var parents := ep.blocks[x].parents;
    assert Unchilded(g2, parents[..0], x) == g2;
    for k := 0 to |parents|
      invariant ep.blocks == Unchilded(g2, parents[..k], x)
    {
      var parent := parents[k];
      StillParent(g, x, g1, parent);
      UnchildedOneMore(g2, parents, k, x, parent, ep.blocks);
      ep.blocks := ep.blocks[parent := ep.blocks[parent].(children := RemoveAll(ep.blocks[parent].children, x))];
    }
    assert parents[..|parents|] == parents;
    KilledInSteps(g, x, g1, g2, parents, ep.blocks);
    ep.blocks := ep.blocks[x := ep.blocks[x].(parents := [])];
  }

  lemma ChildIsBlock(g: Code, x: BlockId, c: BlockId)
    requires LinksAgree(g) && x < |g| && c in g[x].children
    ensures c < |g|
  {
    assert LinkAgrees(g, x, c);
    CountIn(g[x].children, c);
  }

  lemma StillParent(g: Code, x: BlockId, g1: Code, p: BlockId)
    requires LinksAgree(g) && x < |g| && |g1| == |g| && p in g1[x].parents
    requires g1 == Unparented(g[x := g[x].(insns := [])], g[x].children, x)
    ensures p < |g|
  {
    assert LinkAgrees(g, p, x);
    CountIn(g[x].parents, p);
    CountIn(RemoveAll(g[x].parents, x), p);
    CountRemoveAll(g[x].parents, x, p);
  }

  // ---------------------------------------------------------------------------
  // Merging a block
  // ---------------------------------------------------------------------------

  /** For the blocks of `cs`, p takes the place of x among the parents. */
  function Reparented(g: Code, cs: seq<BlockId>, x: BlockId, p: BlockId): (h: Code)
    ensures |h| == |g|
  {
    seq(|g|, i requires 0 <= i < |g| => if i in cs then g[i].(parents := ReplaceAll(g[i].parents, x, p)) else g[i])
  }

  lemma {:induction false} NoneToReplace(s: seq<BlockId>, x: BlockId, p: BlockId)
    requires Count(s, x) == 0
    ensures ReplaceAll(s, x, p) == s
  {
    if |s| > 0 {
      CountHead(s, x);
      NoneToReplace(s[1..], x, p);
    }
  }

  lemma ReparentedOneMore(g: Code, cs: seq<BlockId>, k: nat, x: BlockId, p: BlockId, c: BlockId, h: Code)
    requires k < |cs| && c == cs[k] < |g| && h == Reparented(g, cs[..k], x, p) && x != p
    ensures h[c := h[c].(parents := ReplaceAll(h[c].parents, x, p))] == Reparented(g, cs[..k + 1], x, p)
  {
    assert cs[..k + 1] == cs[..k] + [c];
    CountReplaceAll(g[c].parents, x, p, x);
    NoneToReplace(ReplaceAll(g[c].parents, x, p), x, p);
  }

  lemma MergedInSteps(g: Code, p: BlockId, x: BlockId, g1: Code, g2: Code, front: seq<Instruction>)
    requires OnlyEdge(g, p, x) && front == g[p].insns[..|g[p].insns| - 1]
    requires g1 == g[p := g[p].(children := g[x].children)][x := g[x].(children := [], parents := [])]
    requires g2 == Reparented(g1, g[x].children, x, p)
    ensures g2[p].insns == g[p].insns
    ensures g2[p := g2[p].(insns := front + g2[x].insns)][x := g2[x].(insns := [])] == MergedInto(g, p, x)
  {
    assert ReplaceAll([], x, p) == [];
  }

  /** The end of pack_basic_blocks: p takes over the instructions and children of x. */
  method MergeIntoParent(ep: EntryPoint, p: BlockId, x: BlockId)
    requires WellFormed(ep.blocks) && OnlyEdge(ep.blocks, p, x)
    modifies ep`blocks
    ensures ep.blocks == MergedInto(old(ep.blocks), p, x)
  {
    ghost var g := ep.blocks;
    var children := ep.blocks[x].children;
    ep.blocks := ep.blocks[p := ep.blocks[p].(children := children)];
    ep.blocks := ep.blocks[x := ep.blocks[x].(children := [], parents := [])];
    ghost var g1 := ep.blocks;
    assert Reparented(g1, children[..0], x, p) == g1;
    for k := 0 to |children|
      invariant ep.blocks == Reparented(g1, children[..k], x, p)
    {
      var child := children[k];
      ChildIsBlock(g, x, child);
      ReparentedOneMore(g1, children, k, x, p, child, ep.blocks);
      ep.blocks := ep.blocks[child := ep.blocks[child].(parents := ReplaceAll(ep.blocks[child].parents, x, p))];
    }
    assert children[..|children|] == children;
    var front := ep.blocks[p].insns[..|ep.blocks[p].insns| - 1];
    MergedInSteps(g, p, x, g1, ep.blocks, front);
    ep.blocks := ep.blocks[p := ep.blocks[p].(insns := front + ep.blocks[x].insns)];
    ep.blocks := ep.blocks[x := ep.blocks[x].(insns := [])];
  }

  // ---------------------------------------------------------------------------
  // Packing
  // ---------------------------------------------------------------------------

  /** The first instruction that is not a nop. */
  method FirstLive(insns: seq<Instruction>) returns (j: nat)
    ensures j <= |insns| && (j < |insns| ==> !insns[j].IsNop())
    ensures forall i {:trigger insns[i].IsNop()} :: 0 <= i < j ==> insns[i].IsNop()
  {
    j := 0;
    while j < |insns| && insns[j].IsNop()
      invariant j <= |insns| && forall i {:trigger insns[i].IsNop()} :: 0 <= i < j ==> insns[i].IsNop()
    {
      j := j + 1;
    }
  }

  ghost predicate MergeableBlock(g: Code, x: BlockId) {
    exists p :: OnlyEdge(g, p, x)
  }

  predicate AllAre(list: seq<BlockId>, b: BlockId) {
    list != [] && forall i :: 0 <= i < |list| ==> list[i] == b
  }

  /** The block that every entry of the list is. */
  method OnlyEntry(list: seq<BlockId>) returns (only: Option<BlockId>)
    ensures only.Some? ==> AllAre(list, only.value) && only.value in list && forall b :: b in list ==> b == only.value
    ensures forall b: BlockId :: AllAre(list, b) ==> only == Some(b)
  {
    only := None;
    for i := 0 to |list|
      invariant only.None? <==> i == 0
      invariant only.Some? ==> only.value == list[0] && forall j :: 0 <= j < i ==> list[j] == only.value
    {
      if only.Some? {
        if only.value != list[i] {
          assert list[0] != list[i];
          return None;
        }
      } else {
        only := Some(list[i]);
      }
    }
  }

  lemma OnlyEdgeAllAre(g: Code, p: BlockId, x: BlockId)
    requires OnlyEdge(g, p, x)
    ensures AllAre(g[x].parents, p) && AllAre(g[p].children, x)
  {
    forall i | 0 <= i < |g[x].parents| ensures g[x].parents[i] == p {
      assert g[x].parents[i] in g[x].parents;
    }
    forall i | 0 <= i < |g[p].children| ensures g[p].children[i] == x {
      assert g[p].children[i] in g[p].children;
    }
  }

  lemma NotMergeable(g: Code, x: BlockId)
    requires x < |g|
    requires forall p: nat :: p < |g| && p != x ==> !AllAre(g[x].parents, p) || !AllAre(g[p].children, x)
    ensures !MergeableBlock(g, x)
  {
    forall p: BlockId ensures !OnlyEdge(g, p, x) {
      if OnlyEdge(g, p, x) {
        OnlyEdgeAllAre(g, p, x);
      }
    }
  }

  /** Merge x into its parent, if neither has another block there. */
  method MergeBlock(ep: EntryPoint, x: BlockId)
    requires Fine(ep.blocks, ep.entry) && x < |ep.blocks|
    modifies ep`blocks
    ensures Fine(ep.blocks, ep.entry) && Kept(old(ep.blocks), ep.blocks, ep.entry)
    ensures if MergeableBlock(old(ep.blocks), x) then Gone(ep.blocks, x) else ep.blocks == old(ep.blocks)
  {
    ghost var g := ep.blocks;
    KeptSelf(g, ep.entry);
    var parent := OnlyEntry(ep.blocks[x].parents);
    if parent.None? || parent.value == x {
      NotMergeable(g, x);
      return;
    }
    ParentIsBlock(g, parent.value, x);
    var child := OnlyEntry(ep.blocks[parent.value].children);
    if child != Some(x) {
      NotMergeable(g, x);
      return;
    }
    ParentJumps(g, parent.value, x);
    assert OnlyEdge(g, parent.value, x);
    MergeKeeps(g, parent.value, x, ep.entry);
    MergeIntoParent(ep, parent.value, x);
  }

  ghost predicate Packable(g: Code, x: BlockId) {
    Bypassable(g, x) || MergeableBlock(g, x)
  }

  /** One block of pack_basic_blocks. */
  method PackBlock(ep: EntryPoint, x: BlockId)
    requires Fine(ep.blocks, ep.entry) && x < |ep.blocks|
    modifies ep`blocks
    ensures Fine(ep.blocks, ep.entry) && Kept(old(ep.blocks), ep.blocks, ep.entry)
    ensures Gone(ep.blocks, x) || !Packable(ep.blocks, x)
    ensures TotalJumps(old(ep.blocks)) ==>
              if Packable(old(ep.blocks), x) then Gone(ep.blocks, x) else ep.blocks == old(ep.blocks)
  {
    ghost var g, e := ep.blocks, ep.entry;
    KeptSelf(g, e);
    var first := FirstLive(ep.blocks[x].insns);
    if first < |ep.blocks[x].insns| && ep.blocks[x].insns[first].Br? {
      EntryIsLive(g, e, x, first);
      var replace := RewriteBranchBb(ep, x, first);
      if replace.Some? {
        ghost var h := ep.blocks;
        KillKeeps(h, x, e);
        KeptTrans(g, h, Killed(h, x), e);
        KillBb(ep, x);
        return;
      }
    } else {
      NotBypassable(g, x, first);
    }
    ghost var h := ep.blocks;
    MergeBlock(ep, x);
    KeptTrans(g, h, ep.blocks, e);
  }

  /** The first live instruction of the entry block is its Entry. */
  lemma EntryIsLive(g: Code, e: BlockId, x: BlockId, j: nat)
    requires EntryOk(g, e) && x < |g| && j < |g[x].insns| && !g[x].insns[j].IsNop()
    requires forall i {:trigger g[x].insns[i].IsNop()} :: 0 <= i < j ==> g[x].insns[i].IsNop()
    ensures x == e ==> g[x].insns[j] == Entry
  {
    if x == e {
      var i :| 0 <= i < |g[e].insns| && g[e].insns[i] == Entry && forall h :: 0 <= h < i ==> g[e].insns[h].IsNop();
      assert !g[x].insns[i].IsNop();
    }
  }

  /** The turn of block x: from g to h. */
  ghost predicate PackTurn(g: Code, h: Code, x: BlockId) {
    && (Gone(h, x) || !Packable(h, x)) && GoneStay(g, h)
    && (TotalJumps(g) ==> TotalJumps(h) && if Packable(g, x) then Gone(h, x) else h == g)
  }

  /** The graphs after each of the first n turns. */
  ghost predicate Turns(gs: seq<Code>, bbs: seq<BlockId>, n: nat) {
    && |gs| == n + 1 && n <= |bbs|
    && forall i, j :: 0 <= i < n && j == i + 1 ==> PackTurn(gs[i], gs[j], bbs[i])
  }

  lemma OneMoreTurn(gs: seq<Code>, bbs: seq<BlockId>, n: nat, next: nat, h: Code)
    requires Turns(gs, bbs, n) && n < |bbs| && next == n + 1 && PackTurn(gs[n], h, bbs[n])
    ensures Turns(gs + [h], bbs, next)
  {
    var now := gs + [h];
    forall i, j | 0 <= i < next && j == i + 1 ensures PackTurn(now[i], now[j], bbs[i]) {
      assert i < n ==> PackTurn(gs[i], gs[j], bbs[i]);
    }
  }

  /** What is gone after some turn is gone in the end. */
  lemma {:induction false} GoneToTheEnd(gs: seq<Code>, bbs: seq<BlockId>, n: nat, i: nat)
    requires Turns(gs, bbs, n) && i <= n
    ensures GoneStay(gs[i], gs[n])
    decreases n - i
  {
    if i < n {
      var j := i + 1;
      assert PackTurn(gs[i], gs[j], bbs[i]);
      GoneToTheEnd(gs, bbs, n, j);
      GoneStayTrans(gs[i], gs[j], gs[n]);
    }
  }

  /** Nothing happens before the first turn of a block that can be packed. */
  lemma {:induction false} NothingBefore(gs: seq<Code>, bbs: seq<BlockId>, n: nat, i: nat)
    requires Turns(gs, bbs, n) && i <= n && TotalJumps(gs[0])
    requires forall j :: 0 <= j < i ==> !Packable(gs[0], bbs[j])
    ensures gs[i] == gs[0]
    decreases i
  {
    if i > 0 {
      var j := i - 1;
      NothingBefore(gs, bbs, n, j);
      assert PackTurn(gs[j], gs[i], bbs[j]);
    }
  }

  /** The first listed block that can be packed, if there is one. */
  ghost predicate FirstPackable(g: Code, bbs: seq<BlockId>, i: nat) {
    i < |bbs| && Packable(g, bbs[i]) && forall j :: 0 <= j < i ==> !Packable(g, bbs[j])
  }

  lemma FirstIsPacked(gs: seq<Code>, bbs: seq<BlockId>, n: nat, i: nat)
    requires Turns(gs, bbs, n) && n == |bbs| && TotalJumps(gs[0]) && FirstPackable(gs[0], bbs, i)
    ensures Gone(gs[n], bbs[i])
  {
    var j := i + 1;
    NothingBefore(gs, bbs, n, i);
    assert PackTurn(gs[i], gs[j], bbs[i]);
    GoneToTheEnd(gs, bbs, n, j);
  }

  /** pack_basic_blocks: the graph stays well formed, and when every switch has a default
      arm and no block ends in a computed goto, the code does the same work. `gs` are the
      graphs between the turns: every block that can be packed when its turn comes goes, for
      good, and the turn of any other block changes nothing. */
  method PackBasicBlocks(ep: EntryPoint) returns (ghost gs: seq<Code>)
    requires ep.Valid() && EntryOk(ep.blocks, ep.entry)
    modifies ep`blocks
    ensures ep.Valid() && EntryOk(ep.blocks, ep.entry)
    ensures TotalJumps(old(ep.blocks)) ==>
              TotalJumps(ep.blocks) && SameWork(old(ep.blocks), ep.blocks, Pos(ep.entry, 0))
    ensures Turns(gs, ep.bbs, |ep.bbs|) && gs[0] == old(ep.blocks) && gs[|ep.bbs|] == ep.blocks
    ensures forall i, j :: 0 <= i < |ep.bbs| && j == i + 1 ==>
              (Gone(gs[j], ep.bbs[i]) ==> Gone(ep.blocks, ep.bbs[i]))
    ensures TotalJumps(old(ep.blocks)) ==>
              forall i: nat :: FirstPackable(old(ep.blocks), ep.bbs, i) ==> Gone(ep.blocks, ep.bbs[i])
    ensures TotalJumps(old(ep.blocks)) && (forall i :: 0 <= i < |ep.bbs| ==> !Packable(old(ep.blocks), ep.bbs[i])) ==>
              ep.blocks == old(ep.blocks)
  {
    ghost var g := ep.blocks;
    KeptSelf(g, ep.entry);
    gs := [g];
    for i := 0 to |ep.bbs|
      invariant Fine(ep.blocks, ep.entry) && Kept(g, ep.blocks, ep.entry)
      invariant Turns(gs, ep.bbs, i) && gs[0] == g && gs[i] == ep.blocks
    {
      ghost var h := ep.blocks;
      assert ep.bbs[i] in ep.bbs;
      PackBlock(ep, ep.bbs[i]);
      KeptTrans(g, h, ep.blocks, ep.entry);
      OneMoreTurn(gs, ep.bbs, i, i + 1, ep.blocks);
      gs := gs + [ep.blocks];
    }
    Packed(gs, ep.bbs, |ep.bbs|);
  }

  lemma Packed(gs: seq<Code>, bbs: seq<BlockId>, n: nat)
    requires Turns(gs, bbs, n) && n == |bbs|
    ensures forall i, j :: 0 <= i < n && j == i + 1 ==> (Gone(gs[j], bbs[i]) ==> Gone(gs[n], bbs[i]))
    ensures TotalJumps(gs[0]) ==> forall i: nat :: FirstPackable(gs[0], bbs, i) ==> Gone(gs[n], bbs[i])
    ensures TotalJumps(gs[0]) && (forall i :: 0 <= i < n ==> !Packable(gs[0], bbs[i])) ==> gs[n] == gs[0]
  {
    forall i, j | 0 <= i < n && j == i + 1 && Gone(gs[j], bbs[i]) ensures Gone(gs[n], bbs[i]) {
      GoneToTheEnd(gs, bbs, n, j);
    }
    if TotalJumps(gs[0]) {
      forall i: nat | FirstPackable(gs[0], bbs, i) ensures Gone(gs[n], bbs[i]) {
        FirstIsPacked(gs, bbs, n, i);
      }
      if forall i :: 0 <= i < n ==> !Packable(gs[0], bbs[i]) {
        NothingBefore(gs, bbs, n, n);
      }
    }
  }
}
