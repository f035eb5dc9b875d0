/** Lowering expressions and statements to basic blocks (linearize.c). */
module Linearize {
  import opened Options
  import opened Ir
  import opened Ast
  import opened Semantics
  import opened Graph
  import opened Lowering
  import opened StmtLowering

  /** Either control cannot get here, or the active block is still open. */
  ghost predicate Ready(ep: EntryPoint)
    reads ep
  {
    ep.Valid() && (ep.active.Some? ==> ep.Open())
  }

  /** alloc_pseudo, and an instruction that sets the new pseudo. */
  method AddBinaryOp(ep: EntryPoint, size: nat, op: BinOp, left: Pseudo, right: Pseudo) returns (target: Pseudo)
    requires Ready(ep)
    modifies ep`blocks, ep`bbs, ep`active, ep`pseudos, ep`phis
    ensures Ready(ep) && ep.active == old(ep.active) && ep.pseudos == old(ep.pseudos) + 1 && ep.phis == old(ep.phis)
    ensures target == Reg(ep.pseudos)
    ensures ep.blocks == WithActiveInsn(old(ep.blocks), ep.active, Binary(op, size, target, left, right))
  {
    ep.pseudos := ep.pseudos + 1;
    target := Reg(ep.pseudos);
    ep.AddOneInsn(Binary(op, size, target, left, right));
  }

  /** alloc_phi in the active block. */
  method AllocPhi(ep: EntryPoint, pseudo: Pseudo) returns (phi: nat)
    requires Ready(ep) && ep.active.Some?
    modifies ep`blocks, ep`bbs, ep`active, ep`pseudos, ep`phis
    ensures Ready(ep) && ep.active == old(ep.active) && ep.pseudos == old(ep.pseudos)
    ensures ep.phis == old(ep.phis) + 1 && phi == ep.phis
    ensures ep.blocks == WithInsn(old(ep.blocks), ep.active.value, PhiSource(Phi(phi), pseudo))
  {
    ep.phis := ep.phis + 1;
    phi := ep.phis;
    ep.AddOneInsn(PhiSource(Phi(phi), pseudo));
  }

  // ---------------------------------------------------------------------------
  // Expressions
  // ---------------------------------------------------------------------------

  /** linearize_expression */
  method LinearizeExpression(ep: EntryPoint, e: Expr) returns (p: Pseudo)
    requires Ready(ep)
    modifies ep`blocks, ep`bbs, ep`active, ep`pseudos, ep`phis
    ensures Ready(ep) && ep.phis >= old(ep.phis)
    ensures ExprEmitted(old(ep.blocks), old(ep.active), old(ep.pseudos), ep.blocks, ep.active, ep.pseudos, e, p)
    decreases Nodes(e), 1
  {
    match e
    case Value(ty, v) =>
      p := Val(v);
      ValueEmitted(ep.blocks, ep.active, ep.pseudos, ty, v);
    case Access(_, _) => p := LinearizeAccess(ep, e);
    case Assign(_, _, _) => p := LinearizeAssignment(ep, e);
    case IncDec(_, _, _, _, _) => p := LinearizeIncDec(ep, e);
    case Preop(_, _, _) => p := LinearizePreop(ep, e);
    case Binop(ty, op, left, right) =>
      p := LinearizeBinary(ep, left, right, ty.size, BinopOpcode(op, ty.signed), e);
    case Compare(_, cmp, left, right) =>
      p := LinearizeBinary(ep, left, right, left.ty.size, CompareOpcode(cmp), e);
    case Logical(_, _, _, _) => p := LinearizeLogical(ep, e);
    case Select(_, _, _, _) => p := LinearizeSelect(ep, e);
    case Conditional(_, cond, condTrue, condFalse) =>
      if condTrue.None? {
        p := LinearizeShortConditional(ep, cond, condFalse, e);
      } else {
        p := LinearizeConditional(ep, cond, condTrue.value, condFalse, e);
      }
    case Comma(_, _, _) => p := LinearizeComma(ep, e);
    case CastTo(_, _) => p := LinearizeCast(ep, e);
  }

  /** add_load of a symbol. */
  method AddLoad(ep: EntryPoint, sym: nat, size: nat) returns (p: Pseudo)
    requires Ready(ep)
    modifies ep`blocks, ep`bbs, ep`active, ep`pseudos, ep`phis
    ensures Ready(ep) && ep.active == old(ep.active) && ep.pseudos == old(ep.pseudos) + 1 && ep.phis == old(ep.phis)
    ensures p == Reg(ep.pseudos)
    ensures ep.blocks == WithActiveInsn(old(ep.blocks), ep.active, Load(p, Sym(sym), 0, size))
  {
    ep.pseudos := ep.pseudos + 1;
    p := Reg(ep.pseudos);
    ep.AddOneInsn(Load(p, Sym(sym), 0, size));
  }

  /** add_store to a symbol. */
  method AddStore(ep: EntryPoint, value: Pseudo, sym: nat, size: nat)
    requires Ready(ep)
    modifies ep`blocks, ep`bbs, ep`active, ep`pseudos, ep`phis
    ensures Ready(ep) && ep.active == old(ep.active) && ep.pseudos == old(ep.pseudos) && ep.phis == old(ep.phis)
    ensures ep.blocks == WithActiveInsn(old(ep.blocks), ep.active, Store(value, Sym(sym), 0, size))
  {
    ep.AddOneInsn(Store(value, Sym(sym), 0, size));
  }

  /** linearize_access on a symbol. */
  method LinearizeAccess(ep: EntryPoint, e: Expr) returns (p: Pseudo)
    requires Ready(ep) && e.Access?
    modifies ep`blocks, ep`bbs, ep`active, ep`pseudos, ep`phis
    ensures Ready(ep) && ep.phis >= old(ep.phis)
    ensures ExprEmitted(old(ep.blocks), old(ep.active), old(ep.pseudos), ep.blocks, ep.active, ep.pseudos, e, p)
    decreases Nodes(e), 0
  {
    AccessEmitted(ep.blocks, ep.active, ep.pseudos, e.ty, e.sym);
    p := AddLoad(ep, e.sym, e.ty.size);
  }

  /** linearize_assignment with a plain `=`. */
  method LinearizeAssignment(ep: EntryPoint, e: Expr) returns (p: Pseudo)
    requires Ready(ep) && e.Assign?
    modifies ep`blocks, ep`bbs, ep`active, ep`pseudos, ep`phis
    ensures Ready(ep) && ep.phis >= old(ep.phis)
    ensures ExprEmitted(old(ep.blocks), old(ep.active), old(ep.pseudos), ep.blocks, ep.active, ep.pseudos, e, p)
    decreases Nodes(e), 0
  {
    ghost var g, a, lo := ep.blocks, ep.active, ep.pseudos;
    p := LinearizeExpression(ep, e.src);
    UnaryEmitted(g, a, lo, ep.blocks, ep.active, ep.pseudos, e.src, p, Store(p, Sym(e.sym), 0, e.ty.size), e, p,
                 ep.pseudos);
    AddStore(ep, p, e.sym, e.ty.size);
  }

  /** linearize_inc_dec */
  method LinearizeIncDec(ep: EntryPoint, e: Expr) returns (p: Pseudo)
    requires Ready(ep) && e.IncDec?
    modifies ep`blocks, ep`bbs, ep`active, ep`pseudos, ep`phis
    ensures Ready(ep) && ep.phis >= old(ep.phis)
    ensures ExprEmitted(old(ep.blocks), old(ep.active), old(ep.pseudos), ep.blocks, ep.active, ep.pseudos, e, p)
    decreases Nodes(e), 0
  {
    ghost var g, a, lo := ep.blocks, ep.active, ep.pseudos;
    var oldValue := AddLoad(ep, e.sym, e.ty.size);
    ghost var r1 := ep.pseudos;
    var newValue := AddBinaryOp(ep, e.ty.size, if e.inc then ADD else SUB, oldValue, Val(e.amount));
    AddStore(ep, newValue, e.sym, e.ty.size);
    p := if e.postfix then oldValue else newValue;
    IncDecEmitted(g, a, lo, e, r1, ep.pseudos, ep.blocks, p);
  }

  /** linearize_regular_preop */
  method LinearizePreop(ep: EntryPoint, e: Expr) returns (p: Pseudo)
    requires Ready(ep) && e.Preop?
    modifies ep`blocks, ep`bbs, ep`active, ep`pseudos, ep`phis
    ensures Ready(ep) && ep.phis >= old(ep.phis)
    ensures ExprEmitted(old(ep.blocks), old(ep.active), old(ep.pseudos), ep.blocks, ep.active, ep.pseudos, e, p)
    decreases Nodes(e), 0
  {
    ghost var g, a, lo := ep.blocks, ep.active, ep.pseudos;
    var pre := LinearizeExpression(ep, e.unop);
    ghost var g1, b, mid := ep.blocks, ep.active, ep.pseudos;
    match e.preop
    case UnaryPlus =>
      p := pre;
      PlusEmitted(g, a, lo, g1, b, mid, e, p);
    case LogNot =>
      p := AddBinaryOp(ep, e.unop.ty.size, SET_EQ, pre, Val(0));
      UnaryEmitted(g, a, lo, g1, b, mid, e.unop, pre, Binary(SET_EQ, e.unop.ty.size, p, pre, Val(0)), e, p, mid + 1);
    case BitNot =>
      p := AddUniop(ep, e.ty.size, NOT, pre);
      UnaryEmitted(g, a, lo, g1, b, mid, e.unop, pre, Unary(NOT, e.ty.size, p, pre), e, p, mid + 1);
    case Minus1 =>
      p := AddUniop(ep, e.ty.size, NEG, pre);
      UnaryEmitted(g, a, lo, g1, b, mid, e.unop, pre, Unary(NEG, e.ty.size, p, pre), e, p, mid + 1);
  }

  method AddUniop(ep: EntryPoint, size: nat, op: UnOp, src: Pseudo) returns (target: Pseudo)
    requires Ready(ep)
    modifies ep`blocks, ep`bbs, ep`active, ep`pseudos, ep`phis
    ensures Ready(ep) && ep.active == old(ep.active) && ep.pseudos == old(ep.pseudos) + 1 && ep.phis == old(ep.phis)
    ensures target == Reg(ep.pseudos)
    ensures ep.blocks == WithActiveInsn(old(ep.blocks), ep.active, Unary(op, size, target, src))
  {
    ep.pseudos := ep.pseudos + 1;
    target := Reg(ep.pseudos);
    ep.AddOneInsn(Unary(op, size, target, src));
  }

  /** linearize_cast between integer types. */
  method LinearizeCast(ep: EntryPoint, e: Expr) returns (p: Pseudo)
    requires Ready(ep) && e.CastTo?
    modifies ep`blocks, ep`bbs, ep`active, ep`pseudos, ep`phis
    ensures Ready(ep) && ep.phis >= old(ep.phis)
    ensures ExprEmitted(old(ep.blocks), old(ep.active), old(ep.pseudos), ep.blocks, ep.active, ep.pseudos, e, p)
    decreases Nodes(e), 0
  {
    ghost var g, a, lo := ep.blocks, ep.active, ep.pseudos;
    var src := LinearizeExpression(ep, e.castExpr);
    ghost var g1, b, mid := ep.blocks, ep.active, ep.pseudos;
    ep.pseudos := ep.pseudos + 1;
    p := Reg(ep.pseudos);
    var insn := Cast(e.castExpr.ty.signed, e.castExpr.ty.size, e.ty.size, p, src);
    ep.AddOneInsn(insn);
    UnaryEmitted(g, a, lo, g1, b, mid, e.castExpr, src, insn, e, p, mid + 1);
  }

  /** linearize_binop and linearize_compare: the operands from left to right, then
      the instruction. */
  method LinearizeBinary(ep: EntryPoint, left: Expr, right: Expr, size: nat, op: BinOp, ghost whole: Expr)
    returns (p: Pseudo)
    requires Ready(ep)
    requires MeansBinary(whole, op, size, left, right)
    modifies ep`blocks, ep`bbs, ep`active, ep`pseudos, ep`phis
    ensures Ready(ep) && ep.phis >= old(ep.phis)
    ensures ExprEmitted(old(ep.blocks), old(ep.active), old(ep.pseudos), ep.blocks, ep.active, ep.pseudos, whole, p)
    decreases Nodes(left) + Nodes(right), 2
  {
    ghost var g, a, lo := ep.blocks, ep.active, ep.pseudos;
    var p1 := LinearizeExpression(ep, left);
    ghost var g1, b1, mid := ep.blocks, ep.active, ep.pseudos;
    var p2 := LinearizeExpression(ep, right);
    ghost var g2, b2, hi := ep.blocks, ep.active, ep.pseudos;
    p := AddBinaryOp(ep, size, op, p1, p2);
    BinaryEmitted(g, a, lo, g1, b1, mid, g2, b2, hi, left, p1, right, p2, op, size, whole);
  }

  method LinearizeComma(ep: EntryPoint, e: Expr) returns (p: Pseudo)
    requires Ready(ep) && e.Comma?
    modifies ep`blocks, ep`bbs, ep`active, ep`pseudos, ep`phis
    ensures Ready(ep) && ep.phis >= old(ep.phis)
    ensures ExprEmitted(old(ep.blocks), old(ep.active), old(ep.pseudos), ep.blocks, ep.active, ep.pseudos, e, p)
    decreases Nodes(e), 0
  {
    ghost var g, a, lo := ep.blocks, ep.active, ep.pseudos;
    var p1 := LinearizeExpression(ep, e.left);
    ghost var g1, b1, mid := ep.blocks, ep.active, ep.pseudos;
    p := LinearizeExpression(ep, e.right);
    CommaEmitted(g, a, lo, g1, b1, mid, ep.blocks, ep.active, ep.pseudos, e.ty, e.left, p1, e.right, p);
  }

  /** linearize_select: both arms, then the condition. */
  method LinearizeSelect(ep: EntryPoint, e: Expr) returns (p: Pseudo)
    requires Ready(ep) && e.Select?
    modifies ep`blocks, ep`bbs, ep`active, ep`pseudos, ep`phis
    ensures Ready(ep) && ep.phis >= old(ep.phis)
    ensures ExprEmitted(old(ep.blocks), old(ep.active), old(ep.pseudos), ep.blocks, ep.active, ep.pseudos, e, p)
    decreases Nodes(e), 0
  {
    ghost var g, a, lo := ep.blocks, ep.active, ep.pseudos;
    var ifTrue := Void;
    if e.condTrue.Some? {
      ifTrue := LinearizeExpression(ep, e.condTrue.value);
    }
    ghost var g1, b1, lo1 := ep.blocks, ep.active, ep.pseudos;
    var ifFalse := LinearizeExpression(ep, e.condFalse);
    ghost var g2, b2, lo2 := ep.blocks, ep.active, ep.pseudos;
    var cond := LinearizeExpression(ep, e.conditional);
    if e.condTrue.None? {
      ifTrue := cond;
    }
    ghost var g3, b3, hi := ep.blocks, ep.active, ep.pseudos;
    SelectEmitted(g, a, lo, g1, b1, lo1, ifTrue, g2, b2, lo2, ifFalse, g3, b3, hi, cond, e);
    ep.pseudos := ep.pseudos + 1;
    p := Reg(ep.pseudos);
    ep.AddOneInsn(Sel(p, cond, ifTrue, ifFalse));
  }

  /** linearize_logical: a conditional with a constant for the decided case. */
  method LinearizeLogical(ep: EntryPoint, e: Expr) returns (p: Pseudo)
    requires Ready(ep) && e.Logical?
    modifies ep`blocks, ep`bbs, ep`active, ep`pseudos, ep`phis
    ensures Ready(ep) && ep.phis >= old(ep.phis)
    ensures ExprEmitted(old(ep.blocks), old(ep.active), old(ep.pseudos), ep.blocks, ep.active, ep.pseudos, e, p)
    decreases Nodes(e), 0
  {
    var shortcut := Value(e.ty, if e.isOr then 1 else 0);
    LogicalMeansConditional(e);
    if e.isOr {
      p := LinearizeConditional(ep, e.left, shortcut, e.right, e);
    } else {
      p := LinearizeConditional(ep, e.left, e.right, shortcut, e);
    }
  }

  /** linearize_conditional, with the join of add_join_conditional. */
  method LinearizeConditional(ep: EntryPoint, cond: Expr, exprTrue: Expr, exprFalse: Expr, ghost whole: Expr)
    returns (p: Pseudo)
    requires Ready(ep) && MeansConditional(whole, cond, Some(exprTrue), exprFalse)
    modifies ep`blocks, ep`bbs, ep`active, ep`pseudos, ep`phis
    ensures Ready(ep) && ep.phis >= old(ep.phis)
    ensures ExprEmitted(old(ep.blocks), old(ep.active), old(ep.pseudos), ep.blocks, ep.active, ep.pseudos, whole, p)
    decreases Nodes(cond) + Nodes(exprTrue) + Nodes(exprFalse), 3
  {
    if ep.active.None? {
      return Void;
    }
    ghost var g, a, lo := ep.blocks, ep.active.value, ep.pseudos;
    var bbTrue, bbFalse, merge := AllocThree(ep);
    ghost var g0 := ep.blocks;
    LinearizeCondBranch(ep, cond, bbTrue, bbFalse);
    ghost var g1, b1, lo1 := ep.blocks, ep.active, ep.pseudos;
    assert BlockKept(g0, g1, bbTrue) && BlockKept(g0, g1, bbFalse) && BlockKept(g0, g1, merge);
    ghost var t1, p1, phi1, g2, lo2, t2, p2, phi2, g3;
    t1, p1, phi1, g2, lo2, t2, p2, phi2, g3, p := JoinArms(ep, exprTrue, exprFalse, bbTrue, bbFalse, merge);
    ConditionalEmitted(g, g0, a, lo, cond, bbTrue, bbFalse, merge, g1, b1, lo1, t1, exprTrue, p1, phi1, g2, lo2,
                       t2, exprFalse, p2, phi2, g3, ep.blocks, ep.pseudos, whole);
  }

  method AllocThree(ep: EntryPoint) returns (bbTrue: BlockId, bbFalse: BlockId, merge: BlockId)
    requires Ready(ep)
    modifies ep`blocks
    ensures Ready(ep)
    ensures ThreeMore(old(ep.blocks), ep.blocks, bbTrue, bbFalse, merge)
  {
    bbTrue := ep.AllocBasicBlock();
    bbFalse := ep.AllocBasicBlock();
    merge := ep.AllocBasicBlock();
  }

  /** Both arms of a conditional, and the phi node that opens the join block. */
  method JoinArms(ep: EntryPoint, exprTrue: Expr, exprFalse: Expr, bbTrue: BlockId, bbFalse: BlockId, merge: BlockId)
    returns (ghost t1: Pos, ghost p1: Pseudo, ghost phi1: nat, ghost g2: Code, ghost lo2: nat,
             ghost t2: Pos, ghost p2: Pseudo, ghost phi2: nat, ghost g3: Code, p: Pseudo)
    requires ep.Valid() && (ep.active.Some? ==> !ep.Open())
    requires bbTrue < |ep.blocks| && bbFalse < |ep.blocks| && merge < |ep.blocks|
    requires bbTrue != bbFalse && merge != bbTrue && merge != bbFalse
    requires ep.blocks[bbTrue].insns == ep.blocks[bbFalse].insns == ep.blocks[merge].insns == []
    modifies ep`blocks, ep`bbs, ep`active, ep`pseudos, ep`phis
    ensures Ready(ep) && ep.active == Some(merge) && ep.phis >= old(ep.phis)
    ensures old(ep.pseudos) <= lo2 < ep.pseudos && phi1 < phi2 && p == Reg(ep.pseudos)
    ensures Built(old(ep.blocks), Some(bbTrue), g2) && Built(g2, Some(bbFalse), g3) && merge < |g3|
    ensures ArmLeaves(g2, bbTrue, t1, exprTrue, p1, phi1, merge, old(ep.pseudos))
    ensures ArmLeaves(g3, bbFalse, t2, exprFalse, p2, phi2, merge, lo2)
    ensures ep.blocks == WithInsn(g3, merge, PhiNode(p, [Phi(phi1), Phi(phi2)]))
    decreases Nodes(exprTrue) + Nodes(exprFalse), 4
  {
    var n1, n2;
    t1, p1, n1, g2, lo2, t2, p2, n2 := LinearizeArms(ep, exprTrue, exprFalse, bbTrue, bbFalse, merge);
    g3, phi1, phi2 := ep.blocks, n1, n2;
    assert BlockKept(old(ep.blocks), g2, merge) && BlockKept(g2, g3, merge);
    p := OpenJoin(ep, n1, n2, merge);
  }

  /** The two arms of a conditional, each in its own block. */
  method LinearizeArms(ep: EntryPoint, exprTrue: Expr, exprFalse: Expr, bbTrue: BlockId, bbFalse: BlockId,
                       merge: BlockId)
    returns (ghost t1: Pos, ghost p1: Pseudo, phi1: nat, ghost g2: Code, ghost lo2: nat,
             ghost t2: Pos, ghost p2: Pseudo, phi2: nat)
    requires ep.Valid() && (ep.active.Some? ==> !ep.Open())
    requires bbTrue < |ep.blocks| && bbFalse < |ep.blocks| && merge < |ep.blocks| && bbTrue != bbFalse
    requires ep.blocks[bbTrue].insns == ep.blocks[bbFalse].insns == []
    modifies ep`blocks, ep`bbs, ep`active, ep`pseudos, ep`phis
    ensures ep.Valid() && ep.active == None && old(ep.pseudos) <= lo2 <= ep.pseudos
    ensures ep.phis >= phi2 > phi1 > old(ep.phis)
    ensures Built(old(ep.blocks), Some(bbTrue), g2) && Built(g2, Some(bbFalse), ep.blocks)
    ensures ArmLeaves(g2, bbTrue, t1, exprTrue, p1, phi1, merge, old(ep.pseudos))
    ensures ArmLeaves(ep.blocks, bbFalse, t2, exprFalse, p2, phi2, merge, lo2)
    decreases Nodes(exprTrue) + Nodes(exprFalse), 3
  {
    ep.SetActiveBlock(bbTrue);
    t1, p1, phi1 := LinearizeArm(ep, exprTrue, bbTrue, merge);
    g2, lo2 := ep.blocks, ep.pseudos;
    assert BlockKept(old(ep.blocks), g2, bbFalse);
    ep.SetActiveBlock(bbFalse);
    t2, p2, phi2 := LinearizeArm(ep, exprFalse, bbFalse, merge);
  }

  /** One arm: the expression, its phi-source and the jump to the join block. */
  method LinearizeArm(ep: EntryPoint, e: Expr, ghost b: BlockId, merge: BlockId)
    returns (ghost t: Pos, ghost p: Pseudo, phi: nat)
    requires Ready(ep) && ep.active == Some(b) && ep.blocks[b].insns == [] && merge < |ep.blocks|
    modifies ep`blocks, ep`bbs, ep`active, ep`pseudos, ep`phis
    ensures ep.Valid() && ep.active == None && ep.pseudos >= old(ep.pseudos) && ep.phis >= phi > old(ep.phis)
    ensures Built(old(ep.blocks), Some(b), ep.blocks)
    ensures ArmLeaves(ep.blocks, b, t, e, p, phi, merge, old(ep.pseudos))
    decreases Nodes(e), 2
  {
    ghost var g, lo := ep.blocks, ep.pseudos;
    var src := LinearizeExpression(ep, e);
    ghost var g1, b1, hi := ep.blocks, ep.active.value, ep.pseudos;
    phi := AllocPhi(ep, src);
    ep.AddGoto(merge);
    ArmEmitted(g, b, lo, g1, b1, hi, e, src, phi, merge);
    t, p := EndOf(g1, b1), src;
  }

  /** add_join_conditional for two phi-sources. */
  method AddJoinConditional(ep: EntryPoint, phi1: nat, phi2: nat) returns (target: Pseudo)
    requires Ready(ep) && ep.active.Some?
    modifies ep`blocks, ep`bbs, ep`active, ep`pseudos, ep`phis
    ensures Ready(ep) && ep.active == old(ep.active) && ep.pseudos == old(ep.pseudos) + 1 && ep.phis == old(ep.phis)
    ensures target == Reg(ep.pseudos)
    ensures ep.blocks == WithInsn(old(ep.blocks), ep.active.value, PhiNode(target, [Phi(phi1), Phi(phi2)]))
  {
    ep.pseudos := ep.pseudos + 1;
    target := Reg(ep.pseudos);
    ep.AddOneInsn(PhiNode(target, [Phi(phi1), Phi(phi2)]));
  }

  /** The join block becomes active and starts with the phi node. */
  method OpenJoin(ep: EntryPoint, phi1: nat, phi2: nat, merge: BlockId) returns (target: Pseudo)
    requires ep.Valid() && ep.active == None && merge < |ep.blocks| && ep.blocks[merge].insns == []
    modifies ep`blocks, ep`bbs, ep`active, ep`pseudos, ep`phis
    ensures Ready(ep) && ep.active == Some(merge) && ep.pseudos == old(ep.pseudos) + 1 && ep.phis == old(ep.phis)
    ensures target == Reg(ep.pseudos)
    ensures ep.blocks == WithInsn(old(ep.blocks), merge, PhiNode(target, [Phi(phi1), Phi(phi2)]))
  {
    ep.SetActiveBlock(merge);
    target := AddJoinConditional(ep, phi1, phi2);
  }

  /** linearize_short_conditional: `c ?: f`. */
  method LinearizeShortConditional(ep: EntryPoint, cond: Expr, exprFalse: Expr, ghost whole: Expr) returns (p: Pseudo)
    requires Ready(ep) && MeansConditional(whole, cond, None, exprFalse)
    modifies ep`blocks, ep`bbs, ep`active, ep`pseudos, ep`phis
    ensures Ready(ep) && ep.phis >= old(ep.phis)
    ensures ExprEmitted(old(ep.blocks), old(ep.active), old(ep.pseudos), ep.blocks, ep.active, ep.pseudos, whole, p)
    decreases Nodes(cond) + Nodes(exprFalse), 3
  {
    ghost var g, lo := ep.blocks, ep.pseudos;
    var merge := ep.AllocBasicBlock();
    if ep.active.None? {
      BuiltByInsns(g, None, ep.blocks);
      return Void;
    }
    ghost var a := ep.active.value;
    var bbFalse := ep.AllocBasicBlock();
    ghost var g0 := ep.blocks;
    var p1 := LinearizeExpression(ep, cond);
    ghost var g1, b1, lo1 := ep.blocks, ep.active.value, ep.pseudos;
    assert BlockKept(g0, g1, merge) && BlockKept(g0, g1, bbFalse);
    ghost var phi1, g2, t2, p2, phi2, g3;
    phi1, g2, t2, p2, phi2, g3, p := JoinShortArm(ep, p1, exprFalse, bbFalse, merge);
    ShortEmitted(g, g0, merge, bbFalse, a, lo, cond, g1, b1, lo1, p1, phi1, g2, t2, exprFalse, p2, phi2, g3,
                 ep.blocks, ep.pseudos, whole);
  }

  /** The phi-source for the condition's value, and the branch on it. */
  method ShortBranch(ep: EntryPoint, p1: Pseudo, merge: BlockId, bbFalse: BlockId) returns (phi: nat)
    requires Ready(ep) && ep.active.Some? && bbFalse < |ep.blocks| && merge < |ep.blocks|
    modifies ep`blocks, ep`bbs, ep`active, ep`pseudos, ep`phis
    ensures ep.Valid() && ep.active == old(ep.active) && !ep.Open() && ep.pseudos == old(ep.pseudos)
    ensures phi == ep.phis == old(ep.phis) + 1
    ensures ep.blocks == ShortTest(old(ep.blocks), ep.active.value, p1, phi, merge, bbFalse)
  {
    phi := AllocPhi(ep, p1);
    ep.AddBranch(p1, merge, bbFalse);
  }

  /** After the condition of `c ?: f`: its phi-source, the branch, the arm, the join. */
  method JoinShortArm(ep: EntryPoint, p1: Pseudo, exprFalse: Expr, bbFalse: BlockId, merge: BlockId)
    returns (ghost phi1: nat, ghost g2: Code, ghost t2: Pos, ghost p2: Pseudo, ghost phi2: nat, ghost g3: Code,
             p: Pseudo)
    requires Ready(ep) && ep.active.Some? && bbFalse < |ep.blocks| && merge < |ep.blocks|
    requires merge != bbFalse && ep.active != Some(merge) && ep.active != Some(bbFalse)
    requires ep.blocks[merge].insns == ep.blocks[bbFalse].insns == []
    modifies ep`blocks, ep`bbs, ep`active, ep`pseudos, ep`phis
    ensures Ready(ep) && ep.active == Some(merge) && ep.phis >= old(ep.phis)
    ensures phi1 == old(ep.phis) + 1 < phi2 && ep.pseudos > old(ep.pseudos) && p == Reg(ep.pseudos) && merge < |g3|
    ensures g2 == ShortTest(old(ep.blocks), old(ep.active).value, p1, phi1, merge, bbFalse)
    ensures Built(g2, Some(bbFalse), g3)
    ensures ArmLeaves(g3, bbFalse, t2, exprFalse, p2, phi2, merge, old(ep.pseudos))
    ensures ep.blocks == WithInsn(g3, merge, PhiNode(p, [Phi(phi1), Phi(phi2)]))
    decreases Nodes(exprFalse), 3
  {
    var n1 := ShortBranch(ep, p1, merge, bbFalse);
    g2 := ep.blocks;
    ep.SetActiveBlock(bbFalse);
    var n2;
    t2, p2, n2 := LinearizeArm(ep, exprFalse, bbFalse, merge);
    g3, phi1, phi2 := ep.blocks, n1, n2;
    assert BlockKept(g2, g3, merge);
    p := OpenJoin(ep, n1, n2, merge);
  }

  /** linearize_cond_branch: jump to one of two blocks on the truth of `e`. */
  method LinearizeCondBranch(ep: EntryPoint, e: Expr, bbTrue: BlockId, bbFalse: BlockId)
    requires Ready(ep) && bbTrue < |ep.blocks| && bbFalse < |ep.blocks|
    modifies ep`blocks, ep`bbs, ep`active, ep`pseudos, ep`phis
    ensures ep.Valid() && ep.phis >= old(ep.phis)
    ensures CondEmitted(old(ep.blocks), old(ep.active), old(ep.pseudos), ep.blocks, ep.active, ep.pseudos,
                        e, bbTrue, bbFalse)
    decreases Nodes(e), 2
  {
    if ep.active.None? {
      return;
    }
    ghost var g, a, lo := ep.blocks, ep.active.value, ep.pseudos;
    if e.Value? {
      ConstantCondEmitted(g, a, lo, e, bbTrue, bbFalse);
      ep.AddGoto(if e.value != 0 then bbTrue else bbFalse);
    } else if e.Logical? {
      LinearizeLogicalBranch(ep, e, bbTrue, bbFalse);
    } else if e.Preop? && e.preop.LogNot? {
      LinearizeCondBranch(ep, e.unop, bbFalse, bbTrue);
      NotEmitted(g, a, lo, ep.blocks, ep.active, ep.pseudos, e.ty, e.unop, bbTrue, bbFalse);
    } else {
      var cond := LinearizeExpression(ep, e);
      BranchEmitted(g, a, lo, ep.blocks, ep.active.value, ep.pseudos, e, cond, bbTrue, bbFalse);
      ep.AddBranch(cond, bbTrue, bbFalse);
    }
  }

  /** linearize_logical_branch */
  method LinearizeLogicalBranch(ep: EntryPoint, e: Expr, bbTrue: BlockId, bbFalse: BlockId)
    requires Ready(ep) && ep.active.Some? && e.Logical? && bbTrue < |ep.blocks| && bbFalse < |ep.blocks|
    modifies ep`blocks, ep`bbs, ep`active, ep`pseudos, ep`phis
    ensures ep.Valid() && ep.phis >= old(ep.phis)
    ensures CondEmitted(old(ep.blocks), old(ep.active), old(ep.pseudos), ep.blocks, ep.active, ep.pseudos,
                        e, bbTrue, bbFalse)
    decreases Nodes(e), 1
  {
    ghost var g, a, lo := ep.blocks, ep.active.value, ep.pseudos;
    var next := ep.AllocBasicBlock();
    if e.isOr {
      LinearizeCondBranch(ep, e.left, bbTrue, next);
    } else {
      LinearizeCondBranch(ep, e.left, next, bbFalse);
    }
    ghost var g1, b1, mid := ep.blocks, ep.active, ep.pseudos;
    assert BlockKept(g + [EmptyBlock], g1, next);
    ep.SetActiveBlock(next);
    LinearizeCondBranch(ep, e.right, bbTrue, bbFalse);
    LogicalCondEmitted(g, a, lo, g1, b1, mid, ep.blocks, ep.active, ep.pseudos, e, bbTrue, bbFalse);
  }

  // ---------------------------------------------------------------------------
  // Statements
  // ---------------------------------------------------------------------------

  /** linearize_statement. `brk` and `cont` are the blocks bound to the labels of
      the innermost loop. */
  method LinearizeStatement(ep: EntryPoint, s: Stmt, brk: BlockId, cont: BlockId, ghost inLoop: bool)
    requires Ready(ep) && WellNested(s, inLoop) && (inLoop ==> brk < |ep.blocks| && cont < |ep.blocks|)
    modifies ep`blocks, ep`bbs, ep`active, ep`pseudos, ep`phis
    ensures Ready(ep) && ep.phis >= old(ep.phis)
    ensures StmtEmitted(old(ep.blocks), old(ep.active), old(ep.pseudos), ep.blocks, ep.active, ep.pseudos, s, brk, cont)
    decreases s, 1
  {
    match s
    case Empty =>
      EmptyEmitted(ep.blocks, ep.active, ep.pseudos, s, brk, cont);
    case ExprStmt(e) =>
      ghost var g, a, lo := ep.blocks, ep.active, ep.pseudos;
      var p := LinearizeExpression(ep, e);
      ExprStmtEmitted(g, a, lo, ep.blocks, ep.active, ep.pseudos, e, p, brk, cont);
    case Compound(ss) => LinearizeCompound(ep, ss, brk, cont, inLoop);
    case If(_, _, _) => LinearizeIf(ep, s, brk, cont, inLoop);
    case Iterator(_, _, _, _, _) => LinearizeIterator(ep, s, brk, cont);
    case Break =>
      LoopJumpEmitted(ep.blocks, ep.active, ep.pseudos, s, brk, cont, brk);
      ep.AddGoto(brk);
    case Continue =>
      LoopJumpEmitted(ep.blocks, ep.active, ep.pseudos, s, brk, cont, cont);
      ep.AddGoto(cont);
  }

  /** linearize_compound_statement */
  method LinearizeCompound(ep: EntryPoint, ss: seq<Stmt>, brk: BlockId, cont: BlockId, ghost inLoop: bool)
    requires Ready(ep) && WellNested(Compound(ss), inLoop) && (inLoop ==> brk < |ep.blocks| && cont < |ep.blocks|)
    modifies ep`blocks, ep`bbs, ep`active, ep`pseudos, ep`phis
    ensures Ready(ep) && ep.phis >= old(ep.phis)
    ensures StmtEmitted(old(ep.blocks), old(ep.active), old(ep.pseudos), ep.blocks, ep.active, ep.pseudos,
                        Compound(ss), brk, cont)
    decreases ss, 0
  {
    ghost var g, a, lo := ep.blocks, ep.active, ep.pseudos;
    EmptyEmitted(g, a, lo, Compound([]), brk, cont);
    assert ss[..0] == [];
    for i := 0 to |ss|
      invariant Ready(ep) && ep.phis >= old(ep.phis) && |ep.blocks| >= |g|
      invariant StmtEmitted(g, a, lo, ep.blocks, ep.active, ep.pseudos, Compound(ss[..i]), brk, cont)
    {
      ghost var g1, b1, mid := ep.blocks, ep.active, ep.pseudos;
      LinearizeStatement(ep, ss[i], brk, cont, inLoop);
      CompoundEmitted(g, a, lo, g1, b1, mid, ep.blocks, ep.active, ep.pseudos, ss[..i], ss[i], brk, cont);
      assert ss[..i] + [ss[i]] == ss[..i + 1];
    }
    assert ss[..|ss|] == ss;
  }

  /** A statement in a fresh block, left for `next` unless control never gets out. */
  method LinearizeInto(ep: EntryPoint, s: Stmt, b: BlockId, brk: BlockId, cont: BlockId, ghost inLoop: bool)
    returns (ghost g1: Code, ghost b1: Option<BlockId>)
    requires ep.Valid() && !ep.Open() && b < |ep.blocks| && ep.blocks[b].insns == []
    requires WellNested(s, inLoop) && (inLoop ==> brk < |ep.blocks| && cont < |ep.blocks|)
    modifies ep`blocks, ep`bbs, ep`active, ep`pseudos, ep`phis
    ensures Ready(ep) && ep.phis >= old(ep.phis) && g1 == ep.blocks && b1 == ep.active
    ensures StmtEmitted(old(ep.blocks), Some(b), old(ep.pseudos), g1, b1, ep.pseudos, s, brk, cont)
    decreases s, 2
  {
    ep.SetActiveBlock(b);
    LinearizeStatement(ep, s, brk, cont, inLoop);
    g1, b1 := ep.blocks, ep.active;
  }

  /** STMT_IF in linearize_statement */
  method LinearizeIf(ep: EntryPoint, s: Stmt, brk: BlockId, cont: BlockId, ghost inLoop: bool)
    requires Ready(ep) && s.If? && WellNested(s, inLoop) && (inLoop ==> brk < |ep.blocks| && cont < |ep.blocks|)
    modifies ep`blocks, ep`bbs, ep`active, ep`pseudos, ep`phis
    ensures Ready(ep) && ep.phis >= old(ep.phis)
    ensures StmtEmitted(old(ep.blocks), old(ep.active), old(ep.pseudos), ep.blocks, ep.active, ep.pseudos, s, brk, cont)
    decreases s, 0
  {
    ghost var g, a, lo := ep.blocks, ep.active, ep.pseudos;
    var bbTrue := ep.AllocBasicBlock();
    var bbFalse := ep.AllocBasicBlock();
    var endif;
    ghost var g0 := ep.blocks;
    LinearizeCondBranch(ep, s.cond, bbTrue, bbFalse);
    ghost var g1, b1, lo1 := ep.blocks, ep.active, ep.pseudos;
    assert BlockKept(g0, g1, bbTrue) && BlockKept(g0, g1, bbFalse);

    ghost var g3, t1, lo2, t2;
    endif, g3, t1, lo2, t2 := LinearizeWays(ep, s, bbTrue, bbFalse, brk, cont, inLoop);
    IfEmitted(g, g0, a, lo, bbTrue, bbFalse, endif, g1, b1, lo1, g3, t1, lo2, ep.blocks, t2, ep.pseudos, s, brk, cont);
  }

  /** The false way of an if statement, up to the way out. */
  method LinearizeElse(ep: EntryPoint, s: Stmt, bbFalse: BlockId, endif: BlockId, brk: BlockId, cont: BlockId,
                       ghost inLoop: bool)
    returns (ghost t: Option<Pos>)
    requires ep.Valid() && !ep.Open() && bbFalse < |ep.blocks| && ep.blocks[bbFalse].insns == []
    requires endif < |ep.blocks| && endif != bbFalse && ep.blocks[endif].insns == []
    requires WellNested(s, inLoop) && (inLoop ==> brk < |ep.blocks| && cont < |ep.blocks|)
    modifies ep`blocks, ep`bbs, ep`active, ep`pseudos, ep`phis
    ensures Ready(ep) && ep.active == Some(endif) && ep.phis >= old(ep.phis) && ep.pseudos >= old(ep.pseudos)
    ensures endif < |ep.blocks| && ep.blocks[endif].insns == [] && Built(old(ep.blocks), Some(bbFalse), ep.blocks)
    ensures ThenJumps(ep.blocks, Pos(bbFalse, 0), t, brk, cont, s, endif, old(ep.pseudos))
    decreases s, 3
  {
    ghost var g, lo := ep.blocks, ep.pseudos;
    ghost var g1, b1 := LinearizeInto(ep, s, bbFalse, brk, cont, inLoop);
    ghost var hi := ep.pseudos;
    t := OptionalEnd(g1, b1);
    assert BlockKept(g, g1, endif);
    ep.SetActiveBlock(endif);
    LeaveEmitted(g, bbFalse, lo, g1, b1, hi, s, brk, cont, g1, endif, ep.blocks);
  }

  /** The two ways of an if statement; without an else branch the false way is the
      way out. */
  method LinearizeWays(ep: EntryPoint, s: Stmt, bbTrue: BlockId, bbFalse: BlockId, brk: BlockId, cont: BlockId,
                       ghost inLoop: bool)
    returns (endif: BlockId, ghost g3: Code, ghost t1: Option<Pos>, ghost lo2: nat, ghost t2: Option<Pos>)
    requires ep.Valid() && !ep.Open() && s.If? && WellNested(s, inLoop)
    requires bbTrue < bbFalse < |ep.blocks| && ep.blocks[bbTrue].insns == ep.blocks[bbFalse].insns == []
    requires inLoop ==> brk < |ep.blocks| && cont < |ep.blocks|
    modifies ep`blocks, ep`bbs, ep`active, ep`pseudos, ep`phis
    ensures Ready(ep) && ep.active == Some(endif) && ep.phis >= old(ep.phis) && old(ep.pseudos) <= lo2 <= ep.pseudos
    ensures bbFalse <= endif < |ep.blocks| && ep.blocks[endif].insns == []
    ensures Built(old(ep.blocks), Some(bbTrue), g3)
    ensures ThenJumps(g3, Pos(bbTrue, 0), t1, brk, cont, s.ifTrue, endif, old(ep.pseudos))
    ensures if s.ifFalse.Some?
            then Built(g3, Some(bbFalse), ep.blocks)
                 && ThenJumps(ep.blocks, Pos(bbFalse, 0), t2, brk, cont, s.ifFalse.value, endif, lo2)
            else ep.blocks == g3 && endif == bbFalse
    decreases s, 0, 0
  {
    ghost var g1, lo1 := ep.blocks, ep.pseudos;
    ghost var g2, b2 := LinearizeInto(ep, s.ifTrue, bbTrue, brk, cont, inLoop);
    lo2, t1, t2 := ep.pseudos, OptionalEnd(g2, b2), None;
    assert BlockKept(g1, g2, bbFalse);
    if s.ifFalse.Some? {
      endif := ep.AllocBasicBlock();
      ghost var k := ep.blocks;
      ep.AddGoto(endif);
      g3 := ep.blocks;
      LeaveEmitted(g1, bbTrue, lo1, g2, b2, lo2, s.ifTrue, brk, cont, k, endif, g3);
      t2 := LinearizeElse(ep, s.ifFalse.value, bbFalse, endif, brk, cont, inLoop);
    } else {
      endif := bbFalse;
      ep.SetActiveBlock(endif);
      g3 := ep.blocks;
      LeaveEmitted(g1, bbTrue, lo1, g2, b2, lo2, s.ifTrue, brk, cont, g2, endif, g3);
    }
  }

  /** linearize_iterator */
  method LinearizeIterator(ep: EntryPoint, s: Stmt, ghost brk: BlockId, ghost cont: BlockId)
    requires Ready(ep) && s.Iterator? && WellNested(s.body, true)
    modifies ep`blocks, ep`bbs, ep`active, ep`pseudos, ep`phis
    ensures Ready(ep) && ep.phis >= old(ep.phis)
    ensures StmtEmitted(old(ep.blocks), old(ep.active), old(ep.pseudos), ep.blocks, ep.active, ep.pseudos, s, brk, cont)
    decreases s, 0
  {
    ghost var g, a, lo := ep.blocks, ep.active, ep.pseudos;
    var vPre := Void;
    if s.pre.Some? {
      vPre := LinearizeExpression(ep, s.pre.value);
    }
    var loopEnd := LinearizeLoop(ep, s, vPre, g, a, lo, brk, cont);
    ep.SetActiveBlock(loopEnd);
  }

  /** The loop that follows the statement before it. */
  method LinearizeLoop(ep: EntryPoint, s: Stmt, ghost vPre: Pseudo, ghost g: Code, ghost a: Option<BlockId>,
                       ghost lo: nat, ghost brk: BlockId, ghost cont: BlockId)
    returns (loopEnd: BlockId)
    requires Ready(ep) && s.Iterator? && WellNested(s.body, true) && lo <= ep.pseudos && (a.Some? ==> a.value < |g|)
    requires if s.pre.Some? then ExprEmitted(g, a, lo, ep.blocks, ep.active, ep.pseudos, s.pre.value, vPre)
             else ep.blocks == g && ep.active == a
    modifies ep`blocks, ep`bbs, ep`active, ep`pseudos, ep`phis
    ensures ep.Valid() && !ep.Open() && ep.phis >= old(ep.phis)
    ensures loopEnd < |ep.blocks| && ep.blocks[loopEnd].insns == []
    ensures StmtEmitted(g, a, lo, ep.blocks, Some(loopEnd), ep.pseudos, s, brk, cont)
    decreases s, 0, 2
  {
    ghost var g1, b1, lo1 := ep.blocks, ep.active, ep.pseudos;
    var loopTop, loopBody, loopContinue;
    ghost var g2, b;
    loopTop, loopBody, loopContinue, loopEnd, g2, b := OpenLoop(ep, s);
    ghost var g4, act := ep.blocks, ep.active;
    ghost var g6, lo2, g8, tBody, lo3, tPost, vPost;
    g6, lo2, g8, tBody, lo3, tPost, vPost := LinearizeRounds(ep, s, loopTop, loopBody, loopContinue, loopEnd, b);
    IteratorEmitted(g, a, lo, g1, b1, lo1, vPre, g2, b, g4, act, g6, lo2, g8, tBody, lo3, ep.blocks, tPost, vPost,
                    ep.pseudos, s, brk, cont);
  }

  /** The blocks of a loop, and the way into it. */
  method OpenLoop(ep: EntryPoint, s: Stmt)
    returns (loopTop: BlockId, loopBody: BlockId, loopContinue: BlockId, loopEnd: BlockId, ghost g2: Code,
             ghost b: LoopBlocks)
    requires Ready(ep) && s.Iterator?
    modifies ep`blocks, ep`bbs, ep`active, ep`pseudos, ep`phis
    ensures Ready(ep) && ep.phis == old(ep.phis) && ep.pseudos == old(ep.pseudos)
    ensures ThreeMore(old(ep.blocks), g2, b.body, b.cont, b.end)
    ensures LoopEntered(old(ep.blocks), old(ep.active), g2, s, ep.blocks, ep.active)
    ensures b.body == loopBody && b.cont == loopContinue && b.end == loopEnd
    ensures loopTop < |ep.blocks| && loopBody < |ep.blocks| && loopContinue < |ep.blocks| && loopEnd < |ep.blocks|
    ensures loopContinue != loopBody && loopContinue != loopEnd && loopContinue != loopTop
    ensures ep.active != Some(loopBody) && ep.active != Some(loopContinue)
    ensures ep.blocks[loopBody].insns == ep.blocks[loopContinue].insns == []
    ensures ep.active.Some? ==> b.test == EndOf(ep.blocks, ep.active.value)
    ensures if s.postCond.None? then b.test == Pos(loopTop, 0) else loopTop == loopBody
  {
    ghost var g1, b1 := ep.blocks, ep.active;
    loopBody, loopContinue, loopEnd := AllocThree(ep);
    g2 := ep.blocks;
    loopTop := EnterLoop(ep, s, loopBody, g1);
    ghost var g4, act := ep.blocks, ep.active;
    b := LoopBlocks(if act.Some? then EndOf(g4, act.value) else Pos(0, 0), loopBody, loopContinue, loopEnd);
    LoopEnteredKeeps(g1, b1, g2, s, g4, act, loopBody);
    LoopEnteredKeeps(g1, b1, g2, s, g4, act, loopContinue);
  }

  /** Test, body and post-statement, each in its place. */
  method LinearizeRounds(ep: EntryPoint, s: Stmt, loopTop: BlockId, loopBody: BlockId, loopContinue: BlockId,
                         loopEnd: BlockId, ghost b: LoopBlocks)
    returns (ghost g6: Code, ghost lo2: nat, ghost g8: Code, ghost tBody: Option<Pos>, ghost lo3: nat,
             ghost tPost: Pos, ghost vPost: Pseudo)
    requires Ready(ep) && s.Iterator? && WellNested(s.body, true)
    requires loopTop < |ep.blocks| && loopBody < |ep.blocks| && loopContinue < |ep.blocks| && loopEnd < |ep.blocks|
    requires loopContinue != loopBody && loopContinue != loopEnd && loopContinue != loopTop
    requires ep.active != Some(loopBody) && ep.active != Some(loopContinue)
    requires ep.blocks[loopBody].insns == ep.blocks[loopContinue].insns == []
    requires b.body == loopBody && b.cont == loopContinue && b.end == loopEnd
    requires ep.active.Some? ==> b.test == EndOf(ep.blocks, ep.active.value)
    requires if s.postCond.None? then b.test == Pos(loopTop, 0) else loopTop == loopBody
    modifies ep`blocks, ep`bbs, ep`active, ep`pseudos, ep`phis
    ensures ep.Valid() && !ep.Open() && ep.phis >= old(ep.phis) && ep.pseudos >= lo3
    ensures RoundsEmitted(old(ep.blocks), old(ep.active), old(ep.pseudos), b, g6, lo2, g8, tBody, lo3, ep.blocks,
                          tPost, vPost, s)
    decreases s, 0, 1
  {
    ghost var g4 := ep.blocks;
    LinearizeLoopTest(ep, s.preCond, loopBody, loopEnd);
    g6, lo2 := ep.blocks, ep.pseudos;
    assert BlockKept(g4, g6, loopContinue);
    tBody := LinearizeLoopBody(ep, s.body, loopBody, loopContinue, loopEnd);
    g8, lo3 := ep.blocks, ep.pseudos;
    tPost, vPost := LinearizeLoopPost(ep, s, loopTop, loopEnd, b);
  }

  /** Without a condition at the bottom the loop gets a top block of its own. */
  method EnterLoop(ep: EntryPoint, s: Stmt, loopBody: BlockId, ghost g1: Code) returns (loopTop: BlockId)
    requires Ready(ep) && s.Iterator? && loopBody < |ep.blocks|
    modifies ep`blocks, ep`bbs, ep`active, ep`pseudos, ep`phis
    ensures Ready(ep) && ep.phis == old(ep.phis) && ep.pseudos == old(ep.pseudos) && |ep.blocks| >= |old(ep.blocks)|
    ensures LoopEntered(g1, old(ep.active), old(ep.blocks), s, ep.blocks, ep.active)
    ensures if s.postCond.None?
            then loopTop == |old(ep.blocks)| && EndOf(ep.blocks, loopTop) == Pos(loopTop, 0) && loopTop < |ep.blocks|
            else loopTop == loopBody
  {
    loopTop := loopBody;
    if s.postCond.None? {
      loopTop := ep.AllocBasicBlock();
      ghost var k := ep.blocks;
      ep.SetActiveBlock(loopTop);
      assert ep.blocks == Leave(k, old(ep.active), loopTop);
    }
  }

  /** The test at the top of a loop, and on into the body. */
  method LinearizeLoopTest(ep: EntryPoint, preCond: Option<Expr>, body: BlockId, end: BlockId)
    requires Ready(ep) && body < |ep.blocks| && end < |ep.blocks| && ep.blocks[body].insns == []
    requires ep.active != Some(body)
    modifies ep`blocks, ep`bbs, ep`active, ep`pseudos, ep`phis
    ensures Ready(ep) && ep.active == Some(body) && ep.phis >= old(ep.phis) && ep.pseudos >= old(ep.pseudos)
    ensures Built(old(ep.blocks), old(ep.active), ep.blocks) && ep.blocks[body].insns == []
    ensures old(ep.active).Some? ==>
      TestCode(ep.blocks, EndOf(old(ep.blocks), old(ep.active).value), preCond, body, end, old(ep.pseudos))
  {
    ghost var g, a := ep.blocks, ep.active;
    if preCond.Some? {
      LinearizeCondBranch(ep, preCond.value, body, end);
      assert BlockKept(g, ep.blocks, body);
      ep.SetActiveBlock(body);
    } else {
      LeaveBuilt(g, a, body);
      if a.Some? {
        ExtendsJump(g, a.value, Void, body, None);
      }
      ep.SetActiveBlock(body);
      assert ep.blocks == Leave(g, a, body);
      assert BlockKept(g, ep.blocks, body);
    }
  }

  /** The body of a loop, and on into the `continue` block. */
  method LinearizeLoopBody(ep: EntryPoint, s: Stmt, body: BlockId, cont: BlockId, end: BlockId)
    returns (ghost t: Option<Pos>)
    requires Ready(ep) && ep.active == Some(body) && ep.blocks[body].insns == []
    requires cont < |ep.blocks| && end < |ep.blocks| && cont != body && ep.blocks[cont].insns == []
             && WellNested(s, true)
    modifies ep`blocks, ep`bbs, ep`active, ep`pseudos, ep`phis
    ensures Ready(ep) && ep.active == Some(cont) && ep.phis >= old(ep.phis) && ep.pseudos >= old(ep.pseudos)
    ensures Built(old(ep.blocks), Some(body), ep.blocks) && ep.blocks[cont].insns == []
    ensures ThenJumps(ep.blocks, Pos(body, 0), t, end, cont, s, cont, old(ep.pseudos))
    decreases s, 3
  {
    ghost var g, lo := ep.blocks, ep.pseudos;
    LinearizeStatement(ep, s, end, cont, true);
    ghost var g1, b1, hi := ep.blocks, ep.active, ep.pseudos;
    t := OptionalEnd(g1, b1);
    ep.AddGoto(cont);
    LeaveEmitted(g, body, lo, g1, b1, hi, s, end, cont, g1, cont, ep.blocks);
    assert BlockKept(g, ep.blocks, cont);
    ep.SetActiveBlock(cont);
  }

  /** The post-statement, and back to the top or to the test at the bottom. */
  method LinearizeLoopPost(ep: EntryPoint, s: Stmt, loopTop: BlockId, end: BlockId, ghost b: LoopBlocks)
    returns (ghost t: Pos, ghost v: Pseudo)
    requires Ready(ep) && s.Iterator? && ep.active == Some(b.cont) && ep.blocks[b.cont].insns == []
    requires b.body < |ep.blocks| && b.end < |ep.blocks| && b.cont != b.body && b.cont != b.end
    requires loopTop < |ep.blocks| && loopTop != b.cont && end == b.end
    requires if s.postCond.None? then b.test == Pos(loopTop, 0) else loopTop == b.body
    modifies ep`blocks, ep`bbs, ep`active, ep`pseudos, ep`phis
    ensures ep.Valid() && !ep.Open() && ep.phis >= old(ep.phis) && ep.pseudos >= old(ep.pseudos)
    ensures Built(old(ep.blocks), Some(b.cont), ep.blocks) && PostCode(ep.blocks, s, b, t, v, old(ep.pseudos))
  {
    ghost var g, lo := ep.blocks, ep.pseudos;
    v := Void;
    if s.post.Some? {
      v := LinearizeExpression(ep, s.post.value);
    }
    ghost var g9, b9, mid := ep.blocks, ep.active, ep.pseudos;
    t := EndOf(g9, b9.value);
    if s.postCond.None? {
      ep.AddGoto(loopTop);
    } else {
      LinearizeCondBranch(ep, s.postCond.value, loopTop, end);
    }
    PostEmitted(g, lo, g9, b9, mid, ep.blocks, s, b, v, ep.active, ep.pseudos);
  }

  // ---------------------------------------------------------------------------
  // Functions
  // ---------------------------------------------------------------------------

  /** The part of linearize_fn that emits code, for a function without arguments or
      result: the entry instruction, the body, and a return if control gets there. */
  method LinearizeFn(s: Stmt) returns (ep: EntryPoint)
    requires WellNested(s, false)
    ensures fresh(ep) && ep.Valid()
    ensures FunctionCode(ep.blocks, ep.entry, s)
  {
    ep := new EntryPoint();
    var bb := ep.AllocBasicBlock();
    ep.SetActiveBlock(bb);
    ep.entry := bb;
    ep.AddOneInsn(Entry);
    ghost var g, lo := ep.blocks, ep.pseudos;
    LinearizeStatement(ep, s, 0, 0, false);
    ghost var h, b, hi := ep.blocks, ep.active, ep.pseudos;
    if ep.active.Some? {
      ep.AddRet(Void);
    }
    FunctionEmitted(g, bb, lo, h, b, hi, s);
  }
}
