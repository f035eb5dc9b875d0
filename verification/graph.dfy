/** An entry point and its control-flow graph, and the edits that build it. */
module Graph {
  import opened Options
  import opened Ir
  import opened Semantics

  function TargetsOf(insns: seq<Instruction>): seq<BlockId> {
    if insns == [] then [] else insns[|insns| - 1].Targets()
  }

  /** How often a list holds an entry. */
  function Count(s: seq<BlockId>, x: BlockId): nat {
    if s == [] then 0 else Count(s[..|s| - 1], x) + if s[|s| - 1] == x then 1 else 0
  }

  lemma CountAppend(s: seq<BlockId>, y: BlockId, x: BlockId)
    ensures Count(s + [y], x) == Count(s, x) + if x == y then 1 else 0
  {
    assert (s + [y])[..|s|] == s;
  }

  lemma {:induction false} CountIn(s: seq<BlockId>, x: BlockId)
    ensures Count(s, x) > 0 <==> x in s
  {
    if s != [] {
      CountIn(s[..|s| - 1], x);
      assert s == s[..|s| - 1] + [s[|s| - 1]];
    }
  }

  ghost predicate SameEntries(s: seq<BlockId>, t: seq<BlockId>) {
    forall x :: Count(s, x) == Count(t, x)
  }

  /** bb_terminated */
  predicate Terminated(b: Block) {
    b.insns != [] && b.insns[|b.insns| - 1].Terminator()
  }

  /** Only the last instruction may end a block, and the children are what it can
      jump to, as often as it names them. */
  ghost predicate WellTerminated(b: Block) {
    && (forall i {:trigger b.insns[i].Terminator()} :: 0 <= i < |b.insns| - 1 ==> !b.insns[i].Terminator())
    && SameEntries(b.children, TargetsOf(b.insns))
  }

  /** `c` is among the children of `b` as often as `b` is among the parents of `c`;
      a number beyond the last block counts as a block without any. */
  ghost predicate LinkAgrees(g: Code, b: BlockId, c: BlockId) {
    (if b < |g| then Count(g[b].children, c) else 0) == (if c < |g| then Count(g[c].parents, b) else 0)
  }

  ghost predicate LinksAgree(g: Code) {
    forall b, c :: LinkAgrees(g, b, c)
  }

  ghost predicate WellFormed(g: Code) {
    && (forall b {:trigger WellTerminated(g[b])} :: 0 <= b < |g| ==> WellTerminated(g[b]))
    && LinksAgree(g)
  }

  function WithInsn(g: Code, b: BlockId, insn: Instruction): Code
    requires b < |g|
  {
    g[b := g[b].(insns := g[b].insns + [insn])]
  }

  function WithEdge(g: Code, src: BlockId, dst: BlockId): (h: Code)
    requires src < |g| && dst < |g|
    ensures |h| == |g| && forall b :: 0 <= b < |g| ==> h[b].insns == g[b].insns
  {
    var h := g[dst := g[dst].(parents := g[dst].parents + [src])];
    h[src := h[src].(children := h[src].children + [dst])]
  }

  lemma EdgeKeepsLinks(g: Code, src: BlockId, dst: BlockId)
    requires src < |g| && dst < |g| && LinksAgree(g)
    ensures LinksAgree(WithEdge(g, src, dst))
  {
    var h := WithEdge(g, src, dst);
    forall b, c ensures LinkAgrees(h, b, c) {
      assert LinkAgrees(g, b, c);
      CountAppend(g[src].children, dst, c);
      CountAppend(g[dst].parents, src, b);
    }
  }

  lemma OpenHasNoChildren(b: Block)
    requires WellTerminated(b) && !Terminated(b)
    ensures b.children == []
  {
    if b.children != [] {
      CountIn(b.children, b.children[0]);
      assert false;
    }
  }

  lemma AllocKeepsWellFormed(g: Code)
    requires WellFormed(g)
    ensures WellFormed(g + [EmptyBlock])
  {
    forall b, c ensures LinkAgrees(g + [EmptyBlock], b, c) {
      assert LinkAgrees(g, b, c);
    }
  }

  lemma InsnKeepsLinks(g: Code, b: BlockId, insn: Instruction)
    requires b < |g| && LinksAgree(g)
    ensures LinksAgree(WithInsn(g, b, insn))
  {
    forall x, y ensures LinkAgrees(WithInsn(g, b, insn), x, y) {
      assert LinkAgrees(g, x, y);
    }
  }

  lemma InsnKeepsWellFormed(g: Code, b: BlockId, insn: Instruction)
    requires b < |g| && WellFormed(g) && !Terminated(g[b]) && !insn.Terminator()
    ensures WellFormed(WithInsn(g, b, insn))
  {
    InsnKeepsLinks(g, b, insn);
    OpenHasNoChildren(g[b]);
  }

  /** The graph after block `b` gets a jump to `t`, or a branch to `t` and `f`. */
  function WithJump(g: Code, b: BlockId, cond: Pseudo, t: BlockId, f: Option<BlockId>): (h: Code)
    requires b < |g| && t < |g| && (f.Some? ==> f.value < |g|)
    ensures |h| == |g|
    ensures forall i :: 0 <= i < |g| && i != b ==> h[i].insns == g[i].insns
    ensures h[b].insns == g[b].insns + [Br(cond, t, f)]
  {
    var h := WithEdge(g, b, t);
    WithInsn(if f.Some? then WithEdge(h, b, f.value) else h, b, Br(cond, t, f))
  }

  /** A block that a jump was added to. */
  lemma JumpEnds(b: Block, c: Block, jump: Instruction)
    requires WellTerminated(b) && !Terminated(b) && jump.Br?
    requires c.insns == b.insns + [jump] && c.children == jump.Targets()
    ensures WellTerminated(c)
  {
    forall i {:trigger c.insns[i].Terminator()} | 0 <= i < |c.insns| - 1 ensures !c.insns[i].Terminator() {
      assert c.insns[i] == b.insns[i];
      assert i < |b.insns| - 1 ==> !b.insns[i].Terminator();
    }
  }

  lemma JumpKeepsWellFormed(g: Code, b: BlockId, cond: Pseudo, t: BlockId, f: Option<BlockId>)
    requires b < |g| && t < |g| && (f.Some? ==> f.value < |g|)
    requires WellFormed(g) && !Terminated(g[b])
    ensures WellFormed(WithJump(g, b, cond, t, f))
  {
    OpenHasNoChildren(g[b]);
    EdgeKeepsLinks(g, b, t);
    var h, jump := WithEdge(g, b, t), Br(cond, t, f);
    assert h[b].children == [t];
    if f.Some? {
      EdgeKeepsLinks(h, b, f.value);
      h := WithEdge(h, b, f.value);
      assert h[b].children == [t, f.value];
    }
    InsnKeepsLinks(h, b, jump);
    var k := WithJump(g, b, cond, t, f);
    assert h[b].children == jump.Targets() && k[b].children == h[b].children;
    forall i | 0 <= i < |k| ensures WellTerminated(k[i]) {
      assert WellTerminated(g[i]);
      if i == b {
        JumpEnds(g[b], k[b], jump);
      } else {
        assert k[i].insns == g[i].insns && k[i].children == g[i].children;
      }
    }
  }

  /** `struct entrypoint`. `blocks` is every block allocated for it, `bbs` those
      that became active, in order. `pseudos` and `phis` are the numbers last
      given out by alloc_pseudo and alloc_phi. */
  class EntryPoint {
    var blocks: Code
    var bbs: seq<BlockId>
    var active: Option<BlockId>
    var entry: BlockId
    var pseudos: nat
    var phis: nat

    constructor ()
      ensures Valid()
      ensures blocks == [] && bbs == [] && active == None && pseudos == 0 && phis == 0
    {
      blocks, bbs, active, entry, pseudos, phis := [], [], None, 0, 0, 0;
    }

    ghost predicate Valid()
      reads this
    {
      && (active.Some? ==> active.value < |blocks|)
      && (forall b :: b in bbs ==> b < |blocks|)
      && WellFormed(blocks)
    }

    /** The active block can take another instruction. */
    ghost predicate Open()
      reads this
    {
      active.Some? && active.value < |blocks| && !Terminated(blocks[active.value])
    }

    /** alloc_basic_block */
    method AllocBasicBlock() returns (bb: BlockId)
      requires Valid()
      modifies this`blocks
      ensures Valid()
      ensures bb == |old(blocks)| && blocks == old(blocks) + [EmptyBlock]
    {
      AllocKeepsWellFormed(blocks);
      bb := |blocks|;
      blocks := blocks + [EmptyBlock];
    }

    /** add_one_insn: append to the active block, if there is one. */
    method AddOneInsn(insn: Instruction)
      requires Valid() && (active.Some? ==> Open()) && !insn.Terminator()
      modifies this`blocks
      ensures Valid() && (active.Some? ==> Open())
      ensures blocks == if active.Some? then WithInsn(old(blocks), active.value, insn) else old(blocks)
    {
      if active.Some? {
        InsnKeepsWellFormed(blocks, active.value, insn);
        blocks := WithInsn(blocks, active.value, insn);
      }
    }

    /** OP_RET on the active block, which ends it. */
    method AddRet(src: Pseudo)
      requires Valid() && Open()
      modifies this`blocks
      ensures Valid() && blocks == WithInsn(old(blocks), active.value, Ret(src))
    {
      OpenHasNoChildren(blocks[active.value]);
      InsnKeepsLinks(blocks, active.value, Ret(src));
      blocks := WithInsn(blocks, active.value, Ret(src));
    }

    /** add_goto: jump from the active block, if there is one, and leave none. */
    method AddGoto(dst: BlockId)
      requires Valid() && dst < |blocks| && (active.Some? ==> Open())
      modifies this`blocks, this`active
      ensures Valid() && active == None
      ensures blocks == if old(active).Some? then WithJump(old(blocks), old(active).value, Void, dst, None)
                        else old(blocks)
    {
      if active.Some? {
        var src := active.value;
        JumpKeepsWellFormed(blocks, src, Void, dst, None);
        blocks := WithEdge(blocks, src, dst);
        blocks := WithInsn(blocks, src, Br(Void, dst, None));
        active := None;
      }
    }

    /** set_activeblock: fall into `bb` unless the active block has ended. */
    method SetActiveBlock(bb: BlockId)
      requires Valid() && bb < |blocks|
      modifies this`blocks, this`active, this`bbs
      ensures Valid() && active == Some(bb) && bbs == old(bbs) + [bb]
      ensures blocks == if old(Open()) then WithJump(old(blocks), old(active).value, Void, bb, None) else old(blocks)
    {
      if !(active.Some? && Terminated(blocks[active.value])) {
        AddGoto(bb);
      }
      active := Some(bb);
      bbs := bbs + [bb];
    }

    /** add_branch: nothing without an active block; otherwise that stays active, though
        it has ended. */
    method AddBranch(cond: Pseudo, bbTrue: BlockId, bbFalse: BlockId)
      requires Valid() && (active.Some? ==> Open()) && bbTrue < |blocks| && bbFalse < |blocks|
      modifies this`blocks
      ensures Valid() && (active.Some? ==> Terminated(blocks[active.value]))
      ensures blocks == if active.Some? then WithJump(old(blocks), active.value, cond, bbTrue, Some(bbFalse))
              else old(blocks)
    {
      if active.Some? {
        var bb := active.value;
        JumpKeepsWellFormed(blocks, bb, cond, bbTrue, Some(bbFalse));
        blocks := WithEdge(blocks, bb, bbTrue);
        blocks := WithEdge(blocks, bb, bbFalse);
        blocks := WithInsn(blocks, bb, Br(cond, bbTrue, Some(bbFalse)));
      }
    }
  }
}
