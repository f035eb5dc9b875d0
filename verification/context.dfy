/** The lock-context checker (sparse.c). */
module ContextCheck {
  import opened Ir
  import opened Semantics
  import opened Graph
  import opened Paths

  // ---------------------------------------------------------------------------
  // One block
  // ---------------------------------------------------------------------------

  /** What the context instructions of a block add up to. */
  function Delta(insns: seq<Instruction>): int {
    if |insns| == 0 then 0
    else
      var insn := insns[|insns| - 1];
      Delta(insns[..|insns| - 1]) + if insn.Context? && !insn.check then insn.increment else 0
  }

  /** The k-th instruction is a check that fails when the block is entered with `entry`. */
  predicate FailsAt(insns: seq<Instruction>, k: nat, entry: int)
    requires k < |insns|
  {
    var insn, current := insns[k], Delta(insns[..k]) + entry;
    insn.Context? && insn.check && (if insn.increment == 0 then current != 0 else current < insn.increment)
  }

  function Failures(insns: seq<Instruction>, entry: int): set<nat> {
    set k: nat | k < |insns| && FailsAt(insns, k, entry)
  }

  ghost function FailuresTo(insns: seq<Instruction>, entry: int, i: nat): set<nat>
    requires i <= |insns|
  {
    set k: nat | k < i && FailsAt(insns, k, entry)
  }

  lemma OneMoreInsn(insns: seq<Instruction>, entry: int, i: nat, next: nat)
    requires i < |insns| && next == i + 1
    ensures Delta(insns[..next]) == Delta(insns[..i]) +
              if insns[i].Context? && !insns[i].check then insns[i].increment else 0
    ensures |FailuresTo(insns, entry, next)| == |FailuresTo(insns, entry, i)| +
              if FailsAt(insns, i, entry) then 1 else 0
  {
    assert insns[..next][..i] == insns[..i] && insns[..next][i] == insns[i];
    assert FailuresTo(insns, entry, next) == FailuresTo(insns, entry, i) + if FailsAt(insns, i, entry) then {i} else {};
  }

  /** context_increase, with the number of warnings it gives. */
  method ContextIncrease(insns: seq<Instruction>, entry: int) returns (sum: int, warnings: nat)
    ensures sum == Delta(insns) && warnings == |Failures(insns, entry)|
  {
    sum, warnings := 0, 0;
    var i := 0;
    assert FailuresTo(insns, entry, 0) == {};
    while i < |insns|
      invariant i <= |insns| && sum == Delta(insns[..i]) && warnings == |FailuresTo(insns, entry, i)|
    {
      var insn, next := insns[i], i + 1;
      OneMoreInsn(insns, entry, i, next);
      var current := sum + entry;
      i := next;
      if !insn.Context? {
        continue;
      }
      var val := insn.increment;
      if insn.check {
        if val == 0 {
          if current == 0 {
            continue;
          }
        } else if current >= val {
          continue;
        }
        warnings := warnings + 1;
        continue;
      }
      sum := sum + val;
    }
    assert insns[..i] == insns && FailuresTo(insns, entry, i) == Failures(insns, entry);
  }

  // ---------------------------------------------------------------------------
  // Paths
  // ---------------------------------------------------------------------------

  /** The context on entry to the last block of a path that starts with `c0`. */
  function PathContext(g: Code, s: seq<BlockId>, c0: int): int
    requires IsPath(g, s)
    decreases |s|
  {
    if |s| == 1 then c0
    else
      PathFront(g, s);
      var front := s[..|s| - 1];
      PathContext(g, front, c0) + Delta(g[End(front)].insns)
  }

  predicate Returns(b: Block) {
    b.insns != [] && b.insns[|b.insns| - 1].Ret?
  }

  /** A path on which something goes wrong: the context becomes negative, or it is not
      what it should be when the function returns. */
  predicate BadPath(g: Code, s: seq<BlockId>, c0: int, exit: int) {
    IsPath(g, s) && End(s) < |g| &&
    (var after := PathContext(g, s, c0) + Delta(g[End(s)].insns);
     after < 0 || (Returns(g[End(s)]) && after != exit))
  }

  /** Two ways to a block on which the contexts differ. */
  predicate BadPair(g: Code, s: seq<BlockId>, t: seq<BlockId>, c0: int) {
    IsPath(g, s) && IsPath(g, t) && End(s) == End(t) && PathContext(g, s, c0) != PathContext(g, t, c0)
  }

  ghost predicate Imbalanced(g: Code, e: BlockId, c0: int, exit: int) {
    || (exists s :: BadPath(g, s, c0, exit) && s[0] == e)
    || (exists s, t :: BadPair(g, s, t, c0) && s[0] == e && t[0] == e)
  }

  lemma PathContextAppend(g: Code, s: seq<BlockId>, c: BlockId, c0: int, t: seq<BlockId>)
    requires IsPath(g, s) && IsEdge(g, End(s), c) && t == s + [c]
    ensures IsPath(g, t) && End(t) == c && t[0] == s[0]
    ensures PathContext(g, t, c0) == PathContext(g, s, c0) + Delta(g[End(s)].insns)
  {
    PathAppend(g, s, c);
    assert t[..|t| - 1] == s;
  }

  // ---------------------------------------------------------------------------
  // The search
  // ---------------------------------------------------------------------------

  predicate OnlyContexts(g: Code, h: Code) {
    |h| == |g| && forall b :: 0 <= b < |g| ==> h[b] == g[b].(context := h[b].context)
  }

  /** Block b agrees with its context: so do its children, or its return. */
  predicate Agrees(h: Code, b: BlockId, exit: int) {
    b < |h| &&
    (var after := h[b].context + Delta(h[b].insns);
     && after >= 0
     && (Returns(h[b]) ==> after == exit)
     && (forall c :: c in h[b].children ==> c < |h| && h[c].context == after))
  }

  ghost predicate HasPath(g: Code, e: BlockId, c0: int, b: BlockId, context: int) {
    exists s :: IsPath(g, s) && s[0] == e && End(s) == b && PathContext(g, s, c0) == context
  }

  /** A block with a context has a path that gives it. */
  ghost predicate Explained(g: Code, h: Code, e: BlockId, c0: int) {
    && OnlyContexts(g, h)
    && (forall b: BlockId {:trigger h[b]} :: b < |h| && h[b].context >= 0 ==> HasPath(g, e, c0, b, h[b].context))
  }

  /** Contexts once given stay. */
  predicate Extended(h: Code, k: Code) {
    |k| == |h| && forall b {:trigger k[b]} :: 0 <= b < |h| && h[b].context >= 0 ==> k[b] == h[b]
  }

  /** The blocks that got their contexts between h and k agree with them. */
  predicate NewAgree(h: Code, k: Code, exit: int) {
    |k| == |h| && forall b: BlockId {:trigger k[b]} :: b < |h| && h[b].context < 0 && k[b].context >= 0 ==>
      Agrees(k, b, exit)
  }

  function Unvisited(h: Code): set<nat> {
    set b: nat | b < |h| && h[b].context < 0
  }

  lemma AgreesLater(h: Code, k: Code, b: BlockId, exit: int)
    requires Agrees(h, b, exit) && b < |h| && h[b].context >= 0 && Extended(h, k)
    ensures Agrees(k, b, exit)
  {
    assert k[b] == h[b];
    forall c | c in k[b].children ensures c < |k| && k[c].context == k[b].context + Delta(k[b].insns) {
      assert c < |h| && h[c].context >= 0;
      assert k[c] == h[c];
    }
  }

  lemma NewAgreeTrans(h: Code, k: Code, l: Code, exit: int)
    requires Extended(h, k) && Extended(k, l) && NewAgree(h, k, exit) && NewAgree(k, l, exit)
    ensures Extended(h, l) && NewAgree(h, l, exit)
  {
    forall b: BlockId | b < |h| && h[b].context >= 0 ensures l[b] == h[b] {
      assert k[b] == h[b];
    }
    forall b: BlockId | b < |h| && h[b].context < 0 && l[b].context >= 0 ensures Agrees(l, b, exit) {
      if k[b].context >= 0 {
        assert Agrees(k, b, exit);
        AgreesLater(k, l, b, exit);
      }
    }
  }

  lemma UnvisitedFewer(h: Code, k: Code)
    requires Extended(h, k)
    ensures Unvisited(k) <= Unvisited(h)
  {
    forall b | b in Unvisited(k) ensures b in Unvisited(h) {
      assert k[b].context < 0;
    }
  }

  lemma FewerIsLess(a: set<nat>, b: set<nat>)
    requires a <= b
    ensures |a| <= |b| && (a != b ==> |a| < |b|)
  {
    assert b == a + (b - a);
    if a != b {
      var x :| x in b - a;
      assert |b - a| > 0;
    }
  }

  /** check_bb_context: -1 if an imbalance was found. */
  method CheckBbContext(ep: EntryPoint, bb: BlockId, entry: int, exit: int,
                        ghost g: Code, ghost e: BlockId, ghost c0: int, ghost s: seq<BlockId>)
    returns (r: int)
    requires WellFormed(g) && Explained(g, ep.blocks, e, c0) && bb < |g| && entry >= 0
    requires IsPath(g, s) && s[0] == e && End(s) == bb && PathContext(g, s, c0) == entry
    modifies ep`blocks
    ensures r == 0 || r == -1
    ensures Explained(g, ep.blocks, e, c0) && Extended(old(ep.blocks), ep.blocks)
    ensures r == 0 ==> ep.blocks[bb].context == entry && NewAgree(old(ep.blocks), ep.blocks, exit)
    ensures r == -1 ==> Imbalanced(g, e, c0, exit)
    decreases |Unvisited(ep.blocks)|, 0
  {
    ghost var h := ep.blocks;
    if ep.blocks[bb].context == entry {
      return 0;
    }
    if ep.blocks[bb].context >= 0 {
      ghost var t :| IsPath(g, t) && t[0] == e && End(t) == bb && PathContext(g, t, c0) == h[bb].context;
      assert BadPair(g, s, t, c0);
      return -1;
    }
    ep.blocks := ep.blocks[bb := ep.blocks[bb].(context := entry)];
    ghost var k := ep.blocks;
    assert HasPath(g, e, c0, bb, entry);
    assert bb in Unvisited(h) && bb !in Unvisited(k);
    UnvisitedFewer(h, k);
    FewerIsLess(Unvisited(k), Unvisited(h));
    var sum, warnings := ContextIncrease(ep.blocks[bb].insns, entry);
    if entry + sum < 0 {
      assert BadPath(g, s, c0, exit);
      return -1;
    }
    r := CheckChildren(ep, bb, entry + sum, exit, g, e, c0, s);
    if r == 0 {
      VisitedAgrees(g, h, k, ep.blocks, bb, entry, exit);
    }
  }

  /** The block just visited agrees, and so do those visited from it. */
  lemma VisitedAgrees(g: Code, h: Code, k: Code, l: Code, bb: BlockId, entry: int, exit: int)
    requires OnlyContexts(g, h) && bb < |h| && h[bb].context < 0 && k == h[bb := h[bb].(context := entry)] && entry >= 0
    requires Extended(k, l) && NewAgree(k, l, exit) && Agrees(l, bb, exit)
    ensures Extended(h, l) && NewAgree(h, l, exit) && l[bb].context == entry
  {
    assert l[bb] == k[bb];
    forall b: BlockId | b < |h| && h[b].context >= 0 ensures l[b] == h[b] {
      assert k[b] == h[b];
    }
    forall b: BlockId | b < |h| && h[b].context < 0 && l[b].context >= 0 ensures Agrees(l, b, exit) {
      if b != bb {
        assert k[b] == h[b];
      }
    }
  }

  /** The first i children were entered with `entry`. */
  predicate Entered(h: Code, children: seq<BlockId>, i: nat, entry: int) {
    i <= |children| && forall j :: 0 <= j < i ==> children[j] < |h| && h[children[j]].context == entry
  }

  lemma EnteredOneMore(h: Code, k: Code, children: seq<BlockId>, i: nat, next: nat, entry: int)
    requires Entered(h, children, i, entry) && Extended(h, k) && entry >= 0 && next == i + 1 <= |children|
    requires children[i] < |k| && k[children[i]].context == entry
    ensures Entered(k, children, next, entry)
  {
    forall j | 0 <= j < next ensures children[j] < |k| && k[children[j]].context == entry {
      if j < i {
        assert h[children[j]].context >= 0;
        assert k[children[j]] == h[children[j]];
      }
    }
  }

  /** check_children, on leaving block bb with `entry`. */
  method CheckChildren(ep: EntryPoint, bb: BlockId, entry: int, exit: int,
                       ghost g: Code, ghost e: BlockId, ghost c0: int, ghost s: seq<BlockId>)
    returns (r: int)
    requires WellFormed(g) && Explained(g, ep.blocks, e, c0) && bb < |g| && entry >= 0 && ep.blocks[bb].context >= 0
    requires IsPath(g, s) && s[0] == e && End(s) == bb && PathContext(g, s, c0) == ep.blocks[bb].context
    requires entry == ep.blocks[bb].context + Delta(g[bb].insns)
    modifies ep`blocks
    ensures r == 0 || r == -1
    ensures Explained(g, ep.blocks, e, c0) && Extended(old(ep.blocks), ep.blocks)
    ensures r == 0 ==> NewAgree(old(ep.blocks), ep.blocks, exit) && Agrees(ep.blocks, bb, exit)
    ensures r == -1 ==> Imbalanced(g, e, c0, exit)
    decreases |Unvisited(ep.blocks)|, 2
  {
    ghost var h := ep.blocks;
    assert h[bb] == g[bb].(context := h[bb].context) && WellTerminated(g[bb]);
    var insns := ep.blocks[bb].insns;
    if |insns| == 0 {
      NoJumpNoChildren(g[bb]);
      return 0;
    }
    if insns[|insns| - 1].Ret? {
      NoJumpNoChildren(g[bb]);
      if entry != exit {
        assert BadPath(g, s, c0, exit);
        return -1;
      }
      return 0;
    }
    r := VisitChildren(ep, bb, entry, exit, g, e, c0, s);
  }

  method VisitChildren(ep: EntryPoint, bb: BlockId, entry: int, exit: int,
                       ghost g: Code, ghost e: BlockId, ghost c0: int, ghost s: seq<BlockId>)
    returns (r: int)
    requires WellFormed(g) && Explained(g, ep.blocks, e, c0) && bb < |g| && entry >= 0 && ep.blocks[bb].context >= 0
    requires IsPath(g, s) && s[0] == e && End(s) == bb && PathContext(g, s, c0) == ep.blocks[bb].context
    requires entry == ep.blocks[bb].context + Delta(g[bb].insns) && !Returns(g[bb])
    modifies ep`blocks
    ensures r == 0 || r == -1
    ensures Explained(g, ep.blocks, e, c0) && Extended(old(ep.blocks), ep.blocks)
    ensures r == 0 ==> NewAgree(old(ep.blocks), ep.blocks, exit) && Agrees(ep.blocks, bb, exit)
    ensures r == -1 ==> Imbalanced(g, e, c0, exit)
    decreases |Unvisited(ep.blocks)|, 1
  {
    ghost var h := ep.blocks;
    assert h[bb] == g[bb].(context := h[bb].context);
    var children := ep.blocks[bb].children;
    var i := 0;
    while i < |children|
      invariant Explained(g, ep.blocks, e, c0) && Extended(h, ep.blocks) && NewAgree(h, ep.blocks, exit)
      invariant Entered(ep.blocks, children, i, entry)
    {
      ghost var k := ep.blocks;
      var child, next := children[i], i + 1;
      ghost var t := s + [child];
      EdgeBothWays(g, bb, child);
      PathContextAppend(g, s, child, c0, t);
      UnvisitedFewer(h, k);
      FewerIsLess(Unvisited(k), Unvisited(h));
      r := CheckBbContext(ep, child, entry, exit, g, e, c0, t);
      ExtendedTrans(h, k, ep.blocks);
      if r != 0 {
        return -1;
      }
      NewAgreeTrans(h, k, ep.blocks, exit);
      EnteredOneMore(k, ep.blocks, children, i, next, entry);
      i := next;
    }
    assert ep.blocks[bb] == h[bb];
    r := 0;
  }

  lemma ExtendedTrans(h: Code, k: Code, l: Code)
    requires Extended(h, k) && Extended(k, l)
    ensures Extended(h, l)
  {
    forall b: BlockId | b < |h| && h[b].context >= 0 ensures l[b] == h[b] {
      assert k[b] == h[b];
    }
  }

  lemma NoJumpNoChildren(b: Block)
    requires WellTerminated(b) && (b.insns == [] || b.insns[|b.insns| - 1].Ret?)
    ensures b.children == []
  {
    if b.children != [] {
      CountIn(b.children, b.children[0]);
      assert false;
    }
  }

  /** When every visited block agrees, its context is that of every path to it. */
  lemma {:induction false} PathsAgree(g: Code, h: Code, e: BlockId, c0: int, exit: int, s: seq<BlockId>)
    requires OnlyContexts(g, h) && IsPath(g, s) && s[0] == e && h[e].context == c0 >= 0
    requires forall b: BlockId {:trigger Agrees(h, b, exit)} :: b < |h| && h[b].context >= 0 ==> Agrees(h, b, exit)
    ensures End(s) < |g| && h[End(s)].context == PathContext(g, s, c0) >= 0 && Agrees(h, End(s), exit)
    decreases |s|
  {
    if |s| == 1 {
      assert Agrees(h, e, exit);
    } else {
      PathFront(g, s);
      var front := s[..|s| - 1];
      PathsAgree(g, h, e, c0, exit, front);
      assert h[End(front)] == g[End(front)].(context := h[End(front)].context);
      assert Agrees(h, End(s), exit);
    }
  }

  lemma AllAgreeIsBalanced(g: Code, h: Code, e: BlockId, c0: int, exit: int)
    requires OnlyContexts(g, h) && e < |g| && h[e].context == c0 >= 0
    requires forall b: BlockId {:trigger Agrees(h, b, exit)} :: b < |h| && h[b].context >= 0 ==> Agrees(h, b, exit)
    ensures !Imbalanced(g, e, c0, exit)
  {
    forall s | IsPath(g, s) && s[0] == e
      ensures !BadPath(g, s, c0, exit) && h[End(s)].context == PathContext(g, s, c0)
    {
      PathsAgree(g, h, e, c0, exit, s);
      assert h[End(s)] == g[End(s)].(context := h[End(s)].context);
    }
  }

  /** The check of a function, from fresh contexts: -1 exactly if some path goes below
      zero or returns with the wrong count, or two paths to a block differ. */
  method CheckContext(ep: EntryPoint, entry: int, exit: int) returns (r: int)
    requires WellFormed(ep.blocks) && ep.entry < |ep.blocks| && entry >= 0
    requires forall b :: 0 <= b < |ep.blocks| ==> ep.blocks[b].context < 0
    modifies ep`blocks
    ensures r == 0 || r == -1
    ensures r == 0 <==> !Imbalanced(old(ep.blocks), ep.entry, entry, exit)
  {
    ghost var g, s := ep.blocks, [ep.entry];
    r := CheckBbContext(ep, ep.entry, entry, exit, g, ep.entry, entry, s);
    if r == 0 {
      forall b: BlockId | b < |g| && ep.blocks[b].context >= 0 ensures Agrees(ep.blocks, b, exit) {
        assert g[b].context < 0;
      }
      AllAgreeIsBalanced(g, ep.blocks, ep.entry, entry, exit);
    }
  }
}
