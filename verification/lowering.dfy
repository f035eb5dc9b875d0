/** What the blocks emitted for expressions do: simulation statements that hold in
    every way the rest of the function may later extend the code, and how the
    statement for an expression follows from those for its parts. */
module Lowering {
  import opened Options
  import opened Ir
  import opened Arith
  import opened Ast
  import opened Semantics
  import opened Graph

  // ---------------------------------------------------------------------------
  // What emitted code promises
  // ---------------------------------------------------------------------------

  /** Running from m to m' evaluated `e`: the same assignments were made, `p` holds
      the value, and the pseudos that were there before are as they were. */
  ghost predicate ExprDone(m: Config, m': Config, t: Pos, e: Expr, p: Pseudo, lo: nat) {
    var r := Eval(e, m.st, Emitted);
    m'.pos == t && m'.st == r.st && ValueOf(m', p) == r.v && Agree(m, m', lo)
  }

  ghost predicate ExprRuns(c: Code, m: Config, t: Pos, e: Expr, p: Pseudo, lo: nat) {
    exists m' :: Reaches(c, m, m') && ExprDone(m, m', t, e, p, lo)
  }

  /** The code in `g` from `s` to `t` computes `e` into `p`. */
  ghost predicate ExprSim(g: Code, s: Pos, t: Pos, e: Expr, p: Pseudo, lo: nat) {
    forall c: Code, m: Config {:trigger ExprRuns(c, m, t, e, p, lo)} ::
      Extends(g, c) && m.pos == s ==> ExprRuns(c, m, t, e, p, lo)
  }

  /** Running from m to m' tested `e` and left for one of two blocks. */
  ghost predicate CondDone(m: Config, m': Config, bbTrue: BlockId, bbFalse: BlockId, e: Expr, lo: nat) {
    var r := Eval(e, m.st, Emitted);
    m'.pos == Pos(if r.v != 0 then bbTrue else bbFalse, 0) && m'.st == r.st && Agree(m, m', lo)
  }

  ghost predicate CondRuns(c: Code, m: Config, bbTrue: BlockId, bbFalse: BlockId, e: Expr, lo: nat) {
    exists m' :: Reaches(c, m, m') && CondDone(m, m', bbTrue, bbFalse, e, lo)
  }

  ghost predicate CondSim(g: Code, s: Pos, bbTrue: BlockId, bbFalse: BlockId, e: Expr, lo: nat) {
    forall c: Code, m: Config {:trigger CondRuns(c, m, bbTrue, bbFalse, e, lo)} ::
      Extends(g, c) && m.pos == s ==> CondRuns(c, m, bbTrue, bbFalse, e, lo)
  }

  ghost predicate Below(p: Pseudo, hi: nat) {
    p.Reg? ==> p.nr <= hi
  }

  ghost predicate BlockKept(g: Code, h: Code, b: BlockId) {
    b < |g| ==> b < |h| && h[b].insns == g[b].insns
  }

  /** From g to h only block `a`, if any, and new blocks received instructions. */
  ghost predicate Built(g: Code, a: Option<BlockId>, h: Code) {
    Extends(g, h) && forall b: BlockId :: Some(b) != a ==> BlockKept(g, h, b)
  }

  lemma BuiltTrans(g: Code, a: Option<BlockId>, h: Code, b: Option<BlockId>, k: Code)
    requires Built(g, a, h) && Built(h, b, k) && (b == a || b.None? || b.value >= |g|)
    ensures Built(g, a, k)
  {
    ExtendsTrans(g, h, k);
    forall i: BlockId | Some(i) != a ensures BlockKept(g, k, i) {
      assert BlockKept(g, h, i);
      assert i < |g| ==> BlockKept(h, k, i);
    }
  }

  lemma BuiltByInsns(g: Code, a: Option<BlockId>, h: Code)
    requires |g| <= |h| && forall b :: 0 <= b < |g| && Some(b) != a ==> h[b].insns == g[b].insns
    requires a.Some? && a.value < |g| ==> g[a.value].insns <= h[a.value].insns
    ensures Built(g, a, h)
  {
  }

  /** A pseudo an instruction sets is numbered above `lo`. */
  ghost predicate SetsAbove(insn: Instruction, lo: nat) {
    match insn
    case Binary(_, _, t, _, _) => t.Reg? && t.nr > lo
    case Unary(_, _, t, _) => t.Reg? && t.nr > lo
    case Cast(_, _, _, t, _) => t.Reg? && t.nr > lo
    case Sel(t, _, _, _) => t.Reg? && t.nr > lo
    case Load(t, _, _, _) => t.Reg? && t.nr > lo
    case PhiNode(t, _) => t.Reg? && t.nr > lo
    case Store(_, _, _, _) => true
    case PhiSource(_, _) => true
    case _ => false
  }

  function After(p: Pos): Pos {
    Pos(p.bb, p.pc + 1)
  }

  lemma UseExpr(g: Code, s: Pos, t: Pos, e: Expr, p: Pseudo, lo: nat, c: Code, m: Config) returns (m': Config)
    requires ExprSim(g, s, t, e, p, lo) && Extends(g, c) && m.pos == s
    ensures Reaches(c, m, m') && ExprDone(m, m', t, e, p, lo)
  {
    assert ExprRuns(c, m, t, e, p, lo);
    m' :| Reaches(c, m, m') && ExprDone(m, m', t, e, p, lo);
  }

  lemma UseCond(g: Code, s: Pos, bbTrue: BlockId, bbFalse: BlockId, e: Expr, lo: nat, c: Code, m: Config)
    returns (m': Config)
    requires CondSim(g, s, bbTrue, bbFalse, e, lo) && Extends(g, c) && m.pos == s
    ensures Reaches(c, m, m') && CondDone(m, m', bbTrue, bbFalse, e, lo)
  {
    assert CondRuns(c, m, bbTrue, bbFalse, e, lo);
    m' :| Reaches(c, m, m') && CondDone(m, m', bbTrue, bbFalse, e, lo);
  }

  /** A run goes on with one instruction that is not a jump. */
  lemma StepOn(c: Code, m0: Config, m1: Config, insn: Instruction, lo: nat) returns (m2: Config)
    requires Reaches(c, m0, m1) && Agree(m0, m1, lo)
    requires InsnAt(c, m1.pos, insn) && SetsAbove(insn, lo)
    ensures m2 == Effect(insn, m1).(pos := After(m1.pos))
    ensures Reaches(c, m0, m2) && Agree(m0, m2, lo)
  {
    m2 := Effect(insn, m1).(pos := After(m1.pos));
    assert Step(c, m1) == Some(m2);
    ReachesStep(c, m0, m1, m2);
  }

  /** A run goes on with a jump. */
  lemma JumpOn(c: Code, m0: Config, m1: Config, cond: Pseudo, t: BlockId, f: Option<BlockId>) returns (m2: Config)
    requires Reaches(c, m0, m1) && InsnAt(c, m1.pos, Br(cond, t, f))
    ensures m2 == m1.(pos := Pos(if f.None? || ValueOf(m1, cond) != 0 then t else f.value, 0))
    ensures Reaches(c, m0, m2)
  {
    m2 := m1.(pos := Pos(if f.None? || ValueOf(m1, cond) != 0 then t else f.value, 0));
    assert Step(c, m1) == Some(m2);
    ReachesStep(c, m0, m1, m2);
  }

  /** One run after another. */
  lemma RunOn(c: Code, m0: Config, m1: Config, m2: Config, lo: nat, mid: nat)
    requires Reaches(c, m0, m1) && Agree(m0, m1, lo)
    requires Reaches(c, m1, m2) && Agree(m1, m2, mid) && lo <= mid
    ensures Reaches(c, m0, m2) && Agree(m0, m2, lo)
  {
    ReachesTrans(c, m0, m1, m2);
  }

  lemma ExtendsInsn(g: Code, b: BlockId, insn: Instruction)
    requires b < |g|
    ensures Built(g, Some(b), WithInsn(g, b, insn))
    ensures InsnAt(WithInsn(g, b, insn), EndOf(g, b), insn)
    ensures EndOf(WithInsn(g, b, insn), b) == After(EndOf(g, b))
  {
    BuiltByInsns(g, Some(b), WithInsn(g, b, insn));
  }

  lemma ExtendsJump(g: Code, b: BlockId, cond: Pseudo, t: BlockId, f: Option<BlockId>)
    requires b < |g| && t < |g| && (f.Some? ==> f.value < |g|)
    ensures Built(g, Some(b), WithJump(g, b, cond, t, f))
    ensures InsnAt(WithJump(g, b, cond, t, f), EndOf(g, b), Br(cond, t, f))
  {
    BuiltByInsns(g, Some(b), WithJump(g, b, cond, t, f));
  }

  lemma StaysAt(g: Code, c: Code, p: Pos, insn: Instruction)
    requires Extends(g, c) && InsnAt(g, p, insn)
    ensures InsnAt(c, p, insn)
  {
    assert BlockGrows(g, c, p.bb);
  }

  // ---------------------------------------------------------------------------
  // Expressions without branches
  // ---------------------------------------------------------------------------

  lemma ValueSim(g: Code, s: Pos, ty: CType, v: int, lo: nat)
    ensures ExprSim(g, s, s, Value(ty, v), Val(v), lo)
  {
    forall c: Code, m: Config | Extends(g, c) && m.pos == s ensures ExprRuns(c, m, s, Value(ty, v), Val(v), lo) {
      ReachesSelf(c, m);
      assert ExprDone(m, m, s, Value(ty, v), Val(v), lo);
    }
  }

  lemma AccessSim(g: Code, s: Pos, ty: CType, sym: nat, lo: nat)
    requires InsnAt(g, s, Load(Reg(lo + 1), Sym(sym), 0, ty.size))
    ensures ExprSim(g, s, After(s), Access(ty, sym), Reg(lo + 1), lo)
  {
    var insn := Load(Reg(lo + 1), Sym(sym), 0, ty.size);
    forall c: Code, m: Config | Extends(g, c) && m.pos == s
      ensures ExprRuns(c, m, After(s), Access(ty, sym), Reg(lo + 1), lo)
    {
      ReachesSelf(c, m);
      StaysAt(g, c, s, insn);
      var m' := StepOn(c, m, m, insn, lo);
      assert ExprDone(m, m', After(s), Access(ty, sym), Reg(lo + 1), lo);
    }
  }

  /** An operand followed by one instruction on it. */
  lemma UnarySim(g1: Code, g: Code, s: Pos, t: Pos, e: Expr, p: Pseudo, insn: Instruction, whole: Expr, d: Pseudo,
                 lo: nat)
    requires ExprSim(g1, s, t, e, p, lo) && Extends(g1, g) && InsnAt(g, t, insn) && SetsAbove(insn, lo)
    requires forall m0: Config, m1: Config :: ExprDone(m0, m1, t, e, p, lo) ==>
      var r := Eval(whole, m0.st, Emitted); var m2 := Effect(insn, m1);
      m2.st == r.st && ValueOf(m2, d) == r.v
    ensures ExprSim(g, s, After(t), whole, d, lo)
  {
    forall c: Code, m: Config | Extends(g, c) && m.pos == s ensures ExprRuns(c, m, After(t), whole, d, lo) {
      ExtendsTrans(g1, g, c);
      var m1 := UseExpr(g1, s, t, e, p, lo, c, m);
      StaysAt(g, c, t, insn);
      var m2 := StepOn(c, m, m1, insn, lo);
      assert ValueOf(m2, d) == ValueOf(Effect(insn, m1), d);
      assert ExprDone(m, m2, After(t), whole, d, lo);
    }
  }

  function BinaryResult(op: BinOp, n: nat, left: Expr, right: Expr, st: Memory): Evaluated {
    var l := Eval(left, st, Emitted);
    var r := Eval(right, l.st, Emitted);
    Evaluated(EvalBinary(op, n, l.v, r.v), r.st)
  }

  /** `whole` is the operation `op` on the values of the two operands. */
  ghost predicate MeansBinary(whole: Expr, op: BinOp, n: nat, left: Expr, right: Expr) {
    forall st :: Eval(whole, st, Emitted) == BinaryResult(op, n, left, right, st)
  }

  ghost predicate OperandsReady(m: Config, m2: Config, t: Pos, left: Expr, right: Expr, p1: Pseudo, p2: Pseudo, lo: nat)
  {
    var l := Eval(left, m.st, Emitted);
    var r := Eval(right, l.st, Emitted);
    m2.pos == t && m2.st == r.st && ValueOf(m2, p1) == l.v && ValueOf(m2, p2) == r.v && Agree(m, m2, lo)
  }

  lemma OperandsRun(g1: Code, g2: Code, s: Pos, t1: Pos, t2: Pos, left: Expr, right: Expr, p1: Pseudo, p2: Pseudo,
                    lo: nat, mid: nat, c: Code, m: Config) returns (m2: Config)
    requires ExprSim(g1, s, t1, left, p1, lo) && ExprSim(g2, t1, t2, right, p2, mid)
    requires Extends(g1, g2) && Extends(g2, c) && lo <= mid && Below(p1, mid) && m.pos == s
    ensures Reaches(c, m, m2) && OperandsReady(m, m2, t2, left, right, p1, p2, lo)
  {
    ExtendsTrans(g1, g2, c);
    var m1 := UseExpr(g1, s, t1, left, p1, lo, c, m);
    m2 := UseExpr(g2, t1, t2, right, p2, mid, c, m1);
    RunOn(c, m, m1, m2, lo, mid);
    assert ValueOf(m2, p1) == ValueOf(m1, p1);
  }

  lemma BinarySim(g1: Code, g2: Code, g: Code, s: Pos, t1: Pos, t2: Pos, left: Expr, right: Expr, p1: Pseudo,
                  p2: Pseudo, op: BinOp, n: nat, whole: Expr, lo: nat, mid: nat, hi: nat)
    requires ExprSim(g1, s, t1, left, p1, lo) && ExprSim(g2, t1, t2, right, p2, mid)
    requires Extends(g1, g2) && Extends(g2, g) && lo <= mid <= hi && Below(p1, mid)
    requires InsnAt(g, t2, Binary(op, n, Reg(hi + 1), p1, p2))
    requires MeansBinary(whole, op, n, left, right)
    ensures ExprSim(g, s, After(t2), whole, Reg(hi + 1), lo)
  {
    var insn := Binary(op, n, Reg(hi + 1), p1, p2);
    forall c: Code, m: Config | Extends(g, c) && m.pos == s
      ensures ExprRuns(c, m, After(t2), whole, Reg(hi + 1), lo)
    {
      ExtendsTrans(g2, g, c);
      var m2 := OperandsRun(g1, g2, s, t1, t2, left, right, p1, p2, lo, mid, c, m);
      StaysAt(g, c, t2, insn);
      var m3 := StepOn(c, m, m2, insn, lo);
      assert Eval(whole, m.st, Emitted) == BinaryResult(op, n, left, right, m.st);
      assert ExprDone(m, m3, After(t2), whole, Reg(hi + 1), lo);
    }
  }

  lemma CommaSim(g1: Code, g: Code, s: Pos, t1: Pos, t2: Pos, ty: CType, left: Expr, right: Expr, p1: Pseudo,
                 p2: Pseudo, lo: nat, mid: nat)
    requires ExprSim(g1, s, t1, left, p1, lo) && ExprSim(g, t1, t2, right, p2, mid)
    requires Extends(g1, g) && lo <= mid
    ensures ExprSim(g, s, t2, Comma(ty, left, right), p2, lo)
  {
    var whole := Comma(ty, left, right);
    forall c: Code, m: Config | Extends(g, c) && m.pos == s ensures ExprRuns(c, m, t2, whole, p2, lo) {
      ExtendsTrans(g1, g, c);
      var m1 := UseExpr(g1, s, t1, left, p1, lo, c, m);
      var m2 := UseExpr(g, t1, t2, right, p2, mid, c, m1);
      RunOn(c, m, m1, m2, lo, mid);
      assert ExprDone(m, m2, t2, whole, p2, lo);
    }
  }

  /** x++ and the like: load, add or subtract, store. */
  ghost predicate IncDecCode(g: Code, s: Pos, e: Expr, lo: nat) {
    && e.IncDec?
    && InsnAt(g, s, Load(Reg(lo + 1), Sym(e.sym), 0, e.ty.size))
    && InsnAt(g, After(s), Binary(if e.inc then ADD else SUB, e.ty.size, Reg(lo + 2), Reg(lo + 1), Val(e.amount)))
    && InsnAt(g, After(After(s)), Store(Reg(lo + 2), Sym(e.sym), 0, e.ty.size))
  }

  lemma IncDecRuns(c: Code, m: Config, e: Expr, lo: nat) returns (m': Config)
    requires IncDecCode(c, m.pos, e, lo)
    ensures Reaches(c, m, m') && m'.pos == After(After(After(m.pos))) && Agree(m, m', lo)
    ensures m'.st == Eval(e, m.st, Emitted).st
    ensures ValueOf(m', if e.postfix then Reg(lo + 1) else Reg(lo + 2)) == Eval(e, m.st, Emitted).v
  {
    ReachesSelf(c, m);
    var m1 := StepOn(c, m, m, Load(Reg(lo + 1), Sym(e.sym), 0, e.ty.size), lo);
    var m2 := StepOn(c, m, m1, Binary(if e.inc then ADD else SUB, e.ty.size, Reg(lo + 2), Reg(lo + 1), Val(e.amount)),
                     lo);
    m' := StepOn(c, m, m2, Store(Reg(lo + 2), Sym(e.sym), 0, e.ty.size), lo);
  }

  lemma IncDecSim(g: Code, s: Pos, e: Expr, lo: nat)
    requires IncDecCode(g, s, e, lo)
    ensures ExprSim(g, s, After(After(After(s))), e, if e.postfix then Reg(lo + 1) else Reg(lo + 2), lo)
  {
    var p := if e.postfix then Reg(lo + 1) else Reg(lo + 2);
    forall c: Code, m: Config | Extends(g, c) && m.pos == s ensures ExprRuns(c, m, After(After(After(s))), e, p, lo) {
      StaysAt(g, c, s, g[s.bb].insns[s.pc]);
      StaysAt(g, c, After(s), g[s.bb].insns[s.pc + 1]);
      StaysAt(g, c, After(After(s)), g[s.bb].insns[s.pc + 2]);
      var m' := IncDecRuns(c, m, e, lo);
      assert ExprDone(m, m', After(After(After(s))), e, p, lo);
    }
  }

  // ---------------------------------------------------------------------------
  // Branches
  // ---------------------------------------------------------------------------

  /** An arm of a conditional: its value goes through a phi-source to the phi node
      that opens the join block. */
  ghost predicate ArmCode(g: Code, b: BlockId, t: Pos, e: Expr, p: Pseudo, phi: nat, merge: BlockId, list: seq<Pseudo>,
                      lo: nat, d: nat)
  {
    && ExprSim(g, Pos(b, 0), t, e, p, lo) && d > lo
    && InsnAt(g, t, PhiSource(Phi(phi), p)) && Phi(phi) in list
    && InsnAt(g, After(t), Br(Void, merge, None))
    && InsnAt(g, Pos(merge, 0), PhiNode(Reg(d), list))
  }

  lemma ExprSimExtends(g: Code, s: Pos, t: Pos, e: Expr, p: Pseudo, lo: nat, h: Code)
    requires ExprSim(g, s, t, e, p, lo) && Extends(g, h)
    ensures ExprSim(h, s, t, e, p, lo)
  {
    forall c: Code, m: Config | Extends(h, c) && m.pos == s ensures ExprRuns(c, m, t, e, p, lo) {
      ExtendsTrans(g, h, c);
    }
  }

  lemma CondSimExtends(g: Code, s: Pos, bbTrue: BlockId, bbFalse: BlockId, e: Expr, lo: nat, h: Code)
    requires CondSim(g, s, bbTrue, bbFalse, e, lo) && Extends(g, h)
    ensures CondSim(h, s, bbTrue, bbFalse, e, lo)
  {
    forall c: Code, m: Config | Extends(h, c) && m.pos == s ensures CondRuns(c, m, bbTrue, bbFalse, e, lo) {
      ExtendsTrans(g, h, c);
    }
  }

  /** Reading the phi node right after one of its sources ran. */
  lemma JoinRuns(c: Code, m0: Config, m: Config, phi: nat, p: Pseudo, merge: BlockId, list: seq<Pseudo>, d: nat,
                 lo: nat)
    returns (m': Config)
    requires Reaches(c, m0, m) && Agree(m0, m, lo) && d > lo && Phi(phi) in list
    requires m.phis != [] && m.phis[|m.phis| - 1] == (phi, ValueOf(m, p)) && m.pos == Pos(merge, 0)
    requires InsnAt(c, m.pos, PhiNode(Reg(d), list))
    ensures Reaches(c, m0, m') && Agree(m0, m', lo)
    ensures m'.pos == Pos(merge, 1) && m'.st == m.st && ValueOf(m', Reg(d)) == ValueOf(m, p)
  {
    m' := StepOn(c, m0, m, PhiNode(Reg(d), list), lo);
  }

  lemma ArmRuns(g: Code, b: BlockId, t: Pos, e: Expr, p: Pseudo, phi: nat, merge: BlockId, list: seq<Pseudo>,
                lo: nat, d: nat, c: Code, m: Config) returns (m': Config)
    requires ArmCode(g, b, t, e, p, phi, merge, list, lo, d) && Extends(g, c) && m.pos == Pos(b, 0)
    ensures Reaches(c, m, m') && ExprDone(m, m', Pos(merge, 1), e, Reg(d), lo)
  {
    StaysAt(g, c, t, PhiSource(Phi(phi), p));
    StaysAt(g, c, After(t), Br(Void, merge, None));
    StaysAt(g, c, Pos(merge, 0), PhiNode(Reg(d), list));
    var m1 := UseExpr(g, Pos(b, 0), t, e, p, lo, c, m);
    var m2 := StepOn(c, m, m1, PhiSource(Phi(phi), p), lo);
    assert ValueOf(m2, p) == ValueOf(m1, p);
    var m3 := JumpOn(c, m, m2, Void, merge, None);
    assert ValueOf(m3, p) == ValueOf(m2, p);
    m' := JoinRuns(c, m, m3, phi, p, merge, list, d, lo);
  }

  ghost predicate MeansConditional(whole: Expr, cond: Expr, e1: Option<Expr>, e2: Expr) {
    forall st :: Eval(whole, st, Emitted) == EvalConditional(cond, e1, e2, st, Emitted)
  }

  lemma ConditionalSim(g: Code, s: Pos, cond: Expr, bbTrue: BlockId, bbFalse: BlockId, merge: BlockId,
                       t1: Pos, e1: Expr, p1: Pseudo, phi1: nat, lo1: nat,
                       t2: Pos, e2: Expr, p2: Pseudo, phi2: nat, lo2: nat, whole: Expr, lo: nat, d: nat)
    requires CondSim(g, s, bbTrue, bbFalse, cond, lo) && lo <= lo1 && lo <= lo2
    requires ArmCode(g, bbTrue, t1, e1, p1, phi1, merge, [Phi(phi1), Phi(phi2)], lo1, d)
    requires ArmCode(g, bbFalse, t2, e2, p2, phi2, merge, [Phi(phi1), Phi(phi2)], lo2, d)
    requires MeansConditional(whole, cond, Some(e1), e2)
    ensures ExprSim(g, s, Pos(merge, 1), whole, Reg(d), lo)
  {
    var list := [Phi(phi1), Phi(phi2)];
    forall c: Code, m: Config | Extends(g, c) && m.pos == s ensures ExprRuns(c, m, Pos(merge, 1), whole, Reg(d), lo) {
      var m1 := UseCond(g, s, bbTrue, bbFalse, cond, lo, c, m);
      assert Eval(whole, m.st, Emitted) == EvalConditional(cond, Some(e1), e2, m.st, Emitted);
      var m2;
      if Eval(cond, m.st, Emitted).v != 0 {
        m2 := ArmRuns(g, bbTrue, t1, e1, p1, phi1, merge, list, lo1, d, c, m1);
        RunOn(c, m, m1, m2, lo, lo1);
      } else {
        m2 := ArmRuns(g, bbFalse, t2, e2, p2, phi2, merge, list, lo2, d, c, m1);
        RunOn(c, m, m1, m2, lo, lo2);
      }
      assert ExprDone(m, m2, Pos(merge, 1), whole, Reg(d), lo);
    }
  }

  /** The condition of `c ?: f` runs into a phi-source and a branch on its value. */
  lemma ShortTestRuns(g: Code, s: Pos, t1: Pos, cond: Expr, p1: Pseudo, phi1: nat, bbFalse: BlockId, merge: BlockId,
                      lo: nat, c: Code, m: Config) returns (m': Config)
    requires ExprSim(g, s, t1, cond, p1, lo) && Extends(g, c) && m.pos == s
    requires InsnAt(g, t1, PhiSource(Phi(phi1), p1)) && InsnAt(g, After(t1), Br(p1, merge, Some(bbFalse)))
    ensures Reaches(c, m, m') && CondDone(m, m', merge, bbFalse, cond, lo)
    ensures ValueOf(m', p1) == Eval(cond, m.st, Emitted).v
    ensures m'.phis != [] && m'.phis[|m'.phis| - 1] == (phi1, ValueOf(m', p1))
  {
    StaysAt(g, c, t1, PhiSource(Phi(phi1), p1));
    StaysAt(g, c, After(t1), Br(p1, merge, Some(bbFalse)));
    var m1 := UseExpr(g, s, t1, cond, p1, lo, c, m);
    var m2 := StepOn(c, m, m1, PhiSource(Phi(phi1), p1), lo);
    assert ValueOf(m2, p1) == ValueOf(m1, p1);
    m' := JumpOn(c, m, m2, p1, merge, Some(bbFalse));
    assert ValueOf(m', p1) == ValueOf(m2, p1);
  }

  /** After the test of `c ?: f`. */
  lemma ShortArmsRun(g: Code, cond: Expr, p1: Pseudo, phi1: nat, bbFalse: BlockId, merge: BlockId, t2: Pos, e2: Expr,
                     p2: Pseudo, phi2: nat, lo2: nat, lo: nat, d: nat, c: Code, m: Config, m3: Config)
                       returns (m4: Config)
    requires Extends(g, c) && Reaches(c, m, m3) && CondDone(m, m3, merge, bbFalse, cond, lo)
    requires ValueOf(m3, p1) == Eval(cond, m.st, Emitted).v
    requires m3.phis != [] && m3.phis[|m3.phis| - 1] == (phi1, ValueOf(m3, p1))
    requires ArmCode(g, bbFalse, t2, e2, p2, phi2, merge, [Phi(phi1), Phi(phi2)], lo2, d) && lo <= lo2
    ensures Reaches(c, m, m4) && m4.pos == Pos(merge, 1) && Agree(m, m4, lo)
    ensures Evaluated(ValueOf(m4, Reg(d)), m4.st) == EvalConditional(cond, None, e2, m.st, Emitted)
  {
    var list := [Phi(phi1), Phi(phi2)];
    if ValueOf(m3, p1) != 0 {
      StaysAt(g, c, Pos(merge, 0), PhiNode(Reg(d), list));
      m4 := JoinRuns(c, m, m3, phi1, p1, merge, list, d, lo);
    } else {
      m4 := ArmRuns(g, bbFalse, t2, e2, p2, phi2, merge, list, lo2, d, c, m3);
      RunOn(c, m, m3, m4, lo, lo2);
    }
  }

  /** `c ?: f`: the condition is also the value of the first arm. */
  lemma ShortConditionalSim(g: Code, s: Pos, t1: Pos, cond: Expr, p1: Pseudo, phi1: nat, bbFalse: BlockId,
                            merge: BlockId, t2: Pos, e2: Expr, p2: Pseudo, phi2: nat, lo2: nat, whole: Expr, lo: nat,
                            d: nat)
    requires ExprSim(g, s, t1, cond, p1, lo) && lo <= lo2
    requires InsnAt(g, t1, PhiSource(Phi(phi1), p1)) && InsnAt(g, After(t1), Br(p1, merge, Some(bbFalse)))
    requires ArmCode(g, bbFalse, t2, e2, p2, phi2, merge, [Phi(phi1), Phi(phi2)], lo2, d)
    requires MeansConditional(whole, cond, None, e2)
    ensures ExprSim(g, s, Pos(merge, 1), whole, Reg(d), lo)
  {
    forall c: Code, m: Config | Extends(g, c) && m.pos == s ensures ExprRuns(c, m, Pos(merge, 1), whole, Reg(d), lo) {
      var m3 := ShortTestRuns(g, s, t1, cond, p1, phi1, bbFalse, merge, lo, c, m);
      var m4 := ShortArmsRun(g, cond, p1, phi1, bbFalse, merge, t2, e2, p2, phi2, lo2, lo, d, c, m, m3);
      assert Eval(whole, m.st, Emitted) == EvalConditional(cond, None, e2, m.st, Emitted);
      assert ExprDone(m, m4, Pos(merge, 1), whole, Reg(d), lo);
    }
  }

  /** A constant condition: one jump. */
  lemma ConstantCondSim(g: Code, s: Pos, e: Expr, bbTrue: BlockId, bbFalse: BlockId, lo: nat)
    requires e.Value? && InsnAt(g, s, Br(Void, if e.value != 0 then bbTrue else bbFalse, None))
    ensures CondSim(g, s, bbTrue, bbFalse, e, lo)
  {
    var b := if e.value != 0 then bbTrue else bbFalse;
    forall c: Code, m: Config | Extends(g, c) && m.pos == s ensures CondRuns(c, m, bbTrue, bbFalse, e, lo) {
      ReachesSelf(c, m);
      StaysAt(g, c, s, Br(Void, b, None));
      var m' := JumpOn(c, m, m, Void, b, None);
      assert CondDone(m, m', bbTrue, bbFalse, e, lo);
    }
  }

  lemma BranchSim(g: Code, s: Pos, t: Pos, e: Expr, p: Pseudo, bbTrue: BlockId, bbFalse: BlockId, lo: nat)
    requires ExprSim(g, s, t, e, p, lo) && InsnAt(g, t, Br(p, bbTrue, Some(bbFalse)))
    ensures CondSim(g, s, bbTrue, bbFalse, e, lo)
  {
    forall c: Code, m: Config | Extends(g, c) && m.pos == s ensures CondRuns(c, m, bbTrue, bbFalse, e, lo) {
      var m1 := UseExpr(g, s, t, e, p, lo, c, m);
      StaysAt(g, c, t, Br(p, bbTrue, Some(bbFalse)));
      var m2 := JumpOn(c, m, m1, p, bbTrue, Some(bbFalse));
      assert CondDone(m, m2, bbTrue, bbFalse, e, lo);
    }
  }

  lemma NotSim(g: Code, s: Pos, ty: CType, e: Expr, bbTrue: BlockId, bbFalse: BlockId, lo: nat)
    requires CondSim(g, s, bbFalse, bbTrue, e, lo)
    ensures CondSim(g, s, bbTrue, bbFalse, Preop(ty, LogNot, e), lo)
  {
    var whole := Preop(ty, LogNot, e);
    forall c: Code, m: Config | Extends(g, c) && m.pos == s ensures CondRuns(c, m, bbTrue, bbFalse, whole, lo) {
      var m' := UseCond(g, s, bbFalse, bbTrue, e, lo, c, m);
      assert CondDone(m, m', bbTrue, bbFalse, whole, lo);
    }
  }

  /** `&&` and `||` as conditions: the right side runs only when the left side does
      not decide. */
  lemma LogicalCondSim(g: Code, s: Pos, e: Expr, next: BlockId, bbTrue: BlockId, bbFalse: BlockId, lo: nat, mid: nat)
    requires e.Logical? && lo <= mid
    requires if e.isOr then CondSim(g, s, bbTrue, next, e.left, lo) else CondSim(g, s, next, bbFalse, e.left, lo)
    requires CondSim(g, Pos(next, 0), bbTrue, bbFalse, e.right, mid)
    ensures CondSim(g, s, bbTrue, bbFalse, e, lo)
  {
    forall c: Code, m: Config | Extends(g, c) && m.pos == s ensures CondRuns(c, m, bbTrue, bbFalse, e, lo) {
      var m1;
      if e.isOr {
        m1 := UseCond(g, s, bbTrue, next, e.left, lo, c, m);
      } else {
        m1 := UseCond(g, s, next, bbFalse, e.left, lo, c, m);
      }
      if (Eval(e.left, m.st, Emitted).v != 0) == e.isOr {
        assert CondDone(m, m1, bbTrue, bbFalse, e, lo);
      } else {
        var m2 := UseCond(g, Pos(next, 0), bbTrue, bbFalse, e.right, mid, c, m1);
        RunOn(c, m, m1, m2, lo, mid);
        assert CondDone(m, m2, bbTrue, bbFalse, e, lo);
      }
    }
  }

  /** Both arms, then the condition, then the choice. */
  lemma SelectSim(g1: Code, g2: Code, g3: Code, g: Code, s: Pos, t1: Pos, t2: Pos, t3: Pos, e: Expr,
                  pt: Pseudo, pf: Pseudo, pc: Pseudo, lo: nat, lo2: nat, lo3: nat, hi: nat)
    requires e.Select? && lo <= lo2 <= lo3 <= hi && (e.condTrue.Some? ==> Below(pt, lo2)) && Below(pf, lo3)
    requires if e.condTrue.Some? then ExprSim(g1, s, t1, e.condTrue.value, pt, lo) else t1 == s && pt == pc && lo == lo2
    requires ExprSim(g2, t1, t2, e.condFalse, pf, lo2) && ExprSim(g3, t2, t3, e.conditional, pc, lo3)
    requires Extends(g1, g2) && Extends(g2, g3) && Extends(g3, g)
    requires InsnAt(g, t3, Sel(Reg(hi + 1), pc, pt, pf))
    ensures ExprSim(g, s, After(t3), e, Reg(hi + 1), lo)
  {
    forall c: Code, m: Config | Extends(g, c) && m.pos == s ensures ExprRuns(c, m, After(t3), e, Reg(hi + 1), lo) {
      ExtendsTrans(g3, g, c);
      ExtendsTrans(g2, g3, c);
      ExtendsTrans(g1, g2, c);
      StaysAt(g, c, t3, Sel(Reg(hi + 1), pc, pt, pf));
      SelectRuns(g1, g2, g3, c, m, s, t1, t2, t3, e, pt, pf, pc, lo, lo2, lo3, hi + 1);
    }
  }

  lemma SelectRuns(g1: Code, g2: Code, g3: Code, c: Code, m: Config, s: Pos, t1: Pos, t2: Pos, t3: Pos, e: Expr,
                   pt: Pseudo, pf: Pseudo, pc: Pseudo, lo: nat, lo2: nat, lo3: nat, r: nat)
    requires e.Select? && lo <= lo2 <= lo3 < r && (e.condTrue.Some? ==> Below(pt, lo2)) && Below(pf, lo3)
    requires if e.condTrue.Some? then ExprSim(g1, s, t1, e.condTrue.value, pt, lo) else t1 == s && pt == pc && lo == lo2
    requires ExprSim(g2, t1, t2, e.condFalse, pf, lo2) && ExprSim(g3, t2, t3, e.conditional, pc, lo3)
    requires Extends(g1, c) && Extends(g2, c) && Extends(g3, c) && m.pos == s
    requires InsnAt(c, t3, Sel(Reg(r), pc, pt, pf))
    ensures ExprRuns(c, m, After(t3), e, Reg(r), lo)
  {
    ReachesSelf(c, m);
    var m1 := m;
    if e.condTrue.Some? {
      m1 := UseExpr(g1, s, t1, e.condTrue.value, pt, lo, c, m);
    }
    var m2 := UseExpr(g2, t1, t2, e.condFalse, pf, lo2, c, m1);
    RunOn(c, m, m1, m2, lo, lo2);
    var m3 := UseExpr(g3, t2, t3, e.conditional, pc, lo3, c, m2);
    RunOn(c, m, m2, m3, lo, lo3);
    assert e.condTrue.Some? ==> ValueOf(m3, pt) == ValueOf(m2, pt) == ValueOf(m1, pt);
    assert ValueOf(m3, pf) == ValueOf(m2, pf);
    var m4 := StepOn(c, m, m3, Sel(Reg(r), pc, pt, pf), lo);
    SelectChooses(m, m1, m2, m3, e, pt, pf, pc, r);
    assert ExprDone(m, m4, After(t3), e, Reg(r), lo);
  }

  /** The arms and the condition have their values; the select has its own. */
  lemma SelectChooses(m: Config, m1: Config, m2: Config, m3: Config, e: Expr, pt: Pseudo, pf: Pseudo, pc: Pseudo,
                      r: nat)
    requires e.Select?
    requires if e.condTrue.Some? then m1.st == Eval(e.condTrue.value, m.st, Emitted).st
             else m1.st == m.st && pt == pc
    requires e.condTrue.Some? ==> ValueOf(m3, pt) == Eval(e.condTrue.value, m.st, Emitted).v
    requires m2.st == Eval(e.condFalse, m1.st, Emitted).st && ValueOf(m3, pf) == Eval(e.condFalse, m1.st, Emitted).v
    requires m3.st == Eval(e.conditional, m2.st, Emitted).st
    requires ValueOf(m3, pc) == Eval(e.conditional, m2.st, Emitted).v
    ensures var m4 := Effect(Sel(Reg(r), pc, pt, pf), m3);
            m4.st == Eval(e, m.st, Emitted).st && ValueOf(m4, Reg(r)) == Eval(e, m.st, Emitted).v
  {
  }

  // ---------------------------------------------------------------------------
  // From one state of the graph to another
  // ---------------------------------------------------------------------------

  /** How the graph went from g, with active block a, to h, with b, when `e` was
      lowered: only a and new blocks grew, and if control gets to the end of a
      then it gets to the end of b with the value of `e` in `p`. */
  ghost predicate ExprEmitted(g: Code, a: Option<BlockId>, lo: nat, h: Code, b: Option<BlockId>, hi: nat,
                              e: Expr, p: Pseudo)
  {
    && lo <= hi && Built(g, a, h) && Below(p, hi)
    && (a.None? ==> b.None?)
    && (a.Some? ==>
      && a.value < |g| && b.Some? && b.value < |h| && (b == a || b.value >= |g|)
      && ExprSim(h, EndOf(g, a.value), EndOf(h, b.value), e, p, lo))
  }

  /** The same for a condition that ends in a jump to one of two blocks. */
  ghost predicate CondEmitted(g: Code, a: Option<BlockId>, lo: nat, h: Code, b: Option<BlockId>, hi: nat,
                              e: Expr, bbTrue: BlockId, bbFalse: BlockId)
  {
    && lo <= hi && Built(g, a, h)
    && (b.Some? ==> b.value < |h| && Terminated(h[b.value]))
    && (a.None? ==> b.None?)
    && (a.Some? ==> a.value < |g| && CondSim(h, EndOf(g, a.value), bbTrue, bbFalse, e, lo))
  }

  /** One instruction on the active block, if there is one. */
  function WithActiveInsn(g: Code, a: Option<BlockId>, insn: Instruction): Code
    requires a.Some? ==> a.value < |g|
  {
    if a.Some? then WithInsn(g, a.value, insn) else g
  }

  lemma BuiltSelf(g: Code, a: Option<BlockId>)
    ensures Built(g, a, g)
  {
  }

  lemma ValueEmitted(g: Code, a: Option<BlockId>, lo: nat, ty: CType, v: int)
    requires a.Some? ==> a.value < |g|
    ensures ExprEmitted(g, a, lo, g, a, lo, Value(ty, v), Val(v))
  {
    if a.Some? {
      ValueSim(g, EndOf(g, a.value), ty, v, lo);
    }
  }

  lemma AccessEmitted(g: Code, a: Option<BlockId>, lo: nat, ty: CType, sym: nat)
    requires a.Some? ==> a.value < |g|
    ensures ExprEmitted(g, a, lo, WithActiveInsn(g, a, Load(Reg(lo + 1), Sym(sym), 0, ty.size)), a, lo + 1,
                        Access(ty, sym), Reg(lo + 1))
  {
    if a.Some? {
      var insn := Load(Reg(lo + 1), Sym(sym), 0, ty.size);
      ExtendsInsn(g, a.value, insn);
      AccessSim(WithInsn(g, a.value, insn), EndOf(g, a.value), ty, sym, lo);
    }
  }

  /** An operand, then one instruction that makes `whole` of it. */
  lemma UnaryEmitted(g: Code, a: Option<BlockId>, lo: nat, g1: Code, b: Option<BlockId>, mid: nat, e: Expr, p: Pseudo,
                     insn: Instruction, whole: Expr, d: Pseudo, hi: nat)
    requires ExprEmitted(g, a, lo, g1, b, mid, e, p) && SetsAbove(insn, lo) && mid <= hi && Below(d, hi)
    requires forall m0: Config, m1: Config, t :: ExprDone(m0, m1, t, e, p, lo) ==>
      var r := Eval(whole, m0.st, Emitted); var m2 := Effect(insn, m1);
      m2.st == r.st && ValueOf(m2, d) == r.v
    ensures ExprEmitted(g, a, lo, WithActiveInsn(g1, b, insn), b, hi, whole, d)
  {
    if a.Some? {
      ExtendsInsn(g1, b.value, insn);
      BuiltTrans(g, a, g1, b, WithInsn(g1, b.value, insn));
      UnarySim(g1, WithInsn(g1, b.value, insn), EndOf(g, a.value), EndOf(g1, b.value), e, p, insn, whole, d, lo);
    }
  }

  lemma BinaryEmitted(g: Code, a: Option<BlockId>, lo: nat, g1: Code, b1: Option<BlockId>, mid: nat,
                      g2: Code, b2: Option<BlockId>, hi: nat, left: Expr, p1: Pseudo, right: Expr, p2: Pseudo,
                      op: BinOp, n: nat, whole: Expr)
    requires ExprEmitted(g, a, lo, g1, b1, mid, left, p1) && ExprEmitted(g1, b1, mid, g2, b2, hi, right, p2)
    requires MeansBinary(whole, op, n, left, right)
    ensures ExprEmitted(g, a, lo, WithActiveInsn(g2, b2, Binary(op, n, Reg(hi + 1), p1, p2)), b2, hi + 1,
                        whole, Reg(hi + 1))
  {
    BuiltTrans(g, a, g1, b1, g2);
    if a.Some? {
      var insn := Binary(op, n, Reg(hi + 1), p1, p2);
      var h := WithInsn(g2, b2.value, insn);
      ExtendsInsn(g2, b2.value, insn);
      BuiltTrans(g, a, g2, b2, h);
      BinarySim(g1, g2, h, EndOf(g, a.value), EndOf(g1, b1.value), EndOf(g2, b2.value), left, right,
                p1, p2, op, n, whole, lo, mid, hi);
    }
  }

  lemma CommaEmitted(g: Code, a: Option<BlockId>, lo: nat, g1: Code, b1: Option<BlockId>, mid: nat,
                     g2: Code, b2: Option<BlockId>, hi: nat, ty: CType, left: Expr, p1: Pseudo, right: Expr, p2: Pseudo)
    requires ExprEmitted(g, a, lo, g1, b1, mid, left, p1) && ExprEmitted(g1, b1, mid, g2, b2, hi, right, p2)
    ensures ExprEmitted(g, a, lo, g2, b2, hi, Comma(ty, left, right), p2)
  {
    BuiltTrans(g, a, g1, b1, g2);
    if a.Some? {
      CommaSim(g1, g2, EndOf(g, a.value), EndOf(g1, b1.value), EndOf(g2, b2.value), ty, left, right, p1, p2, lo, mid);
    }
  }

  /** The load into r1, the operation into r2 and the store. */
  function WithIncDec(g: Code, a: Option<BlockId>, r1: nat, r2: nat, e: Expr): Code
    requires (a.Some? ==> a.value < |g|) && e.IncDec?
  {
    var g1 := WithActiveInsn(g, a, Load(Reg(r1), Sym(e.sym), 0, e.ty.size));
    var g2 := WithActiveInsn(g1, a, Binary(if e.inc then ADD else SUB, e.ty.size, Reg(r2), Reg(r1), Val(e.amount)));
    WithActiveInsn(g2, a, Store(Reg(r2), Sym(e.sym), 0, e.ty.size))
  }

  lemma IncDecEmitted(g: Code, a: Option<BlockId>, lo: nat, e: Expr, r1: nat, r2: nat, h: Code, p: Pseudo)
    requires (a.Some? ==> a.value < |g|) && e.IncDec? && r1 == lo + 1 && r2 == lo + 2
    requires h == WithIncDec(g, a, r1, r2, e) && p == if e.postfix then Reg(r1) else Reg(r2)
    ensures ExprEmitted(g, a, lo, h, a, r2, e, p)
  {
    if a.Some? {
      var load := Load(Reg(r1), Sym(e.sym), 0, e.ty.size);
      var op := Binary(if e.inc then ADD else SUB, e.ty.size, Reg(r2), Reg(r1), Val(e.amount));
      var store := Store(Reg(r2), Sym(e.sym), 0, e.ty.size);
      assert h[a.value].insns == g[a.value].insns + [load, op, store];
      BuiltByInsns(g, a, h);
      IncDecSim(h, EndOf(g, a.value), e, lo);
    }
  }

  /** An arm that has been lowered and jumps to the join block. */
  ghost predicate ArmLeaves(g: Code, b: BlockId, t: Pos, e: Expr, p: Pseudo, phi: nat, merge: BlockId, lo: nat) {
    && ExprSim(g, Pos(b, 0), t, e, p, lo)
    && InsnAt(g, t, PhiSource(Phi(phi), p))
    && InsnAt(g, After(t), Br(Void, merge, None))
  }

  lemma ArmLeavesExtends(g: Code, b: BlockId, t: Pos, e: Expr, p: Pseudo, phi: nat, merge: BlockId, lo: nat, h: Code)
    requires ArmLeaves(g, b, t, e, p, phi, merge, lo) && Extends(g, h)
    ensures ArmLeaves(h, b, t, e, p, phi, merge, lo)
  {
    ExprSimExtends(g, Pos(b, 0), t, e, p, lo, h);
    StaysAt(g, h, t, PhiSource(Phi(phi), p));
    StaysAt(g, h, After(t), Br(Void, merge, None));
  }

  /** The code of an arm: the expression, its phi-source, and the jump. */
  function ArmEnd(g: Code, b: BlockId, phi: nat, p: Pseudo, merge: BlockId): Code
    requires b < |g| && merge < |g|
  {
    WithJump(WithInsn(g, b, PhiSource(Phi(phi), p)), b, Void, merge, None)
  }

  lemma ArmEmitted(g: Code, b: BlockId, lo: nat, g1: Code, b1: BlockId, hi: nat, e: Expr, p: Pseudo, phi: nat,
                   merge: BlockId)
    requires ExprEmitted(g, Some(b), lo, g1, Some(b1), hi, e, p)
    requires b < |g| && g[b].insns == [] && merge < |g|
    ensures Built(g, Some(b), ArmEnd(g1, b1, phi, p, merge))
    ensures ArmLeaves(ArmEnd(g1, b1, phi, p, merge), b, EndOf(g1, b1), e, p, phi, merge, lo)
  {
    var h := ArmEnd(g1, b1, phi, p, merge);
    assert h[b1].insns == g1[b1].insns + [PhiSource(Phi(phi), p), Br(Void, merge, None)];
    BuiltByInsns(g1, Some(b1), h);
    BuiltTrans(g, Some(b), g1, Some(b1), h);
    ExprSimExtends(g1, EndOf(g, b), EndOf(g1, b1), e, p, lo, h);
  }

  /** `g0` is g with three more blocks, for the arms and for the join. */
  ghost predicate ThreeMore(g: Code, g0: Code, bbTrue: BlockId, bbFalse: BlockId, merge: BlockId) {
    g0 == g + [EmptyBlock] + [EmptyBlock] + [EmptyBlock] && bbTrue == |g| && bbFalse == |g| + 1 && merge == |g| + 2
  }

  lemma ConditionalEmitted(g: Code, g0: Code, a: BlockId, lo: nat, cond: Expr, bbTrue: BlockId, bbFalse: BlockId,
                           merge: BlockId, g1: Code, b1: Option<BlockId>, lo1: nat,
                           t1: Pos, e1: Expr, p1: Pseudo, phi1: nat, g2: Code, lo2: nat,
                           t2: Pos, e2: Expr, p2: Pseudo, phi2: nat, g3: Code, h: Code, hi: nat, whole: Expr)
    requires a < |g| && lo1 <= lo2 < hi && phi1 < phi2 && ThreeMore(g, g0, bbTrue, bbFalse, merge)
    requires CondEmitted(g0, Some(a), lo, g1, b1, lo1, cond, bbTrue, bbFalse)
    requires Built(g1, Some(bbTrue), g2) && ArmLeaves(g2, bbTrue, t1, e1, p1, phi1, merge, lo1)
    requires Built(g2, Some(bbFalse), g3) && ArmLeaves(g3, bbFalse, t2, e2, p2, phi2, merge, lo2)
    requires merge < |g3| && h == WithInsn(g3, merge, PhiNode(Reg(hi), [Phi(phi1), Phi(phi2)]))
    requires MeansConditional(whole, cond, Some(e1), e2)
    ensures ExprEmitted(g, Some(a), lo, h, Some(merge), hi, whole, Reg(hi))
  {
    var insn := PhiNode(Reg(hi), [Phi(phi1), Phi(phi2)]);
    ConditionalBuilt(g, g0, a, bbTrue, bbFalse, merge, g1, g2, g3);
    ExtendsInsn(g3, merge, insn);
    BuiltTrans(g, Some(a), g3, Some(merge), h);
    ExtendsTrans(g1, g2, g3);
    ExtendsTrans(g1, g3, h);
    ExtendsTrans(g2, g3, h);
    CondSimExtends(g1, EndOf(g0, a), bbTrue, bbFalse, cond, lo, h);
    ArmLeavesExtends(g2, bbTrue, t1, e1, p1, phi1, merge, lo1, h);
    ArmLeavesExtends(g3, bbFalse, t2, e2, p2, phi2, merge, lo2, h);
    ConditionalSim(h, EndOf(g, a), cond, bbTrue, bbFalse, merge, t1, e1, p1, phi1, lo1, t2, e2, p2, phi2, lo2, whole,
                   lo, hi);
    assert EndOf(h, merge) == Pos(merge, 1);
  }

  /** The join block stays empty while the condition and the arms are lowered. */
  lemma ConditionalBuilt(g: Code, g0: Code, a: BlockId, bbTrue: BlockId, bbFalse: BlockId, merge: BlockId,
                         g1: Code, g2: Code, g3: Code)
    requires a < |g| && ThreeMore(g, g0, bbTrue, bbFalse, merge)
    requires Built(g0, Some(a), g1) && Built(g1, Some(bbTrue), g2) && Built(g2, Some(bbFalse), g3)
    ensures Built(g, Some(a), g3) && merge < |g3| && g3[merge].insns == []
    ensures EndOf(g0, a) == EndOf(g, a)
  {
    BuiltByInsns(g, Some(a), g0);
    BuiltTrans(g, Some(a), g0, Some(a), g1);
    BuiltTrans(g, Some(a), g1, Some(bbTrue), g2);
    BuiltTrans(g, Some(a), g2, Some(bbFalse), g3);
    assert BlockKept(g0, g1, merge) && BlockKept(g1, g2, merge) && BlockKept(g2, g3, merge);
  }

  /** What follows the condition of `c ?: f` in its last block. */
  function ShortTest(g: Code, b: BlockId, p: Pseudo, phi: nat, merge: BlockId, bbFalse: BlockId): Code
    requires b < |g| && merge < |g| && bbFalse < |g|
  {
    WithJump(WithInsn(g, b, PhiSource(Phi(phi), p)), b, p, merge, Some(bbFalse))
  }

  /** `g0` is g with two more blocks, for the join and for the arm. */
  ghost predicate TwoMore(g: Code, g0: Code, merge: BlockId, bbFalse: BlockId) {
    g0 == g + [EmptyBlock] + [EmptyBlock] && merge == |g| && bbFalse == |g| + 1
  }

  lemma ShortTestEmitted(g: Code, g0: Code, merge: BlockId, bbFalse: BlockId, a: BlockId, lo: nat, cond: Expr,
                         g1: Code, b1: BlockId, lo1: nat, p1: Pseudo, phi1: nat, g2: Code)
    requires a < |g| && TwoMore(g, g0, merge, bbFalse)
    requires ExprEmitted(g0, Some(a), lo, g1, Some(b1), lo1, cond, p1)
    requires merge < |g1| && bbFalse < |g1| && g2 == ShortTest(g1, b1, p1, phi1, merge, bbFalse)
    ensures Built(g, Some(a), g2) && g2[merge].insns == g2[bbFalse].insns == []
    ensures ExprSim(g2, EndOf(g, a), EndOf(g1, b1), cond, p1, lo)
    ensures InsnAt(g2, EndOf(g1, b1), PhiSource(Phi(phi1), p1))
    ensures InsnAt(g2, After(EndOf(g1, b1)), Br(p1, merge, Some(bbFalse)))
  {
    assert g2[b1].insns == g1[b1].insns + [PhiSource(Phi(phi1), p1), Br(p1, merge, Some(bbFalse))];
    BuiltByInsns(g, Some(a), g0);
    BuiltByInsns(g1, Some(b1), g2);
    BuiltTrans(g, Some(a), g0, Some(a), g1);
    BuiltTrans(g0, Some(a), g1, Some(b1), g2);
    BuiltTrans(g, Some(a), g1, Some(b1), g2);
    assert BlockKept(g0, g2, merge) && BlockKept(g0, g2, bbFalse);
    ExprSimExtends(g1, EndOf(g0, a), EndOf(g1, b1), cond, p1, lo, g2);
    assert EndOf(g0, a) == EndOf(g, a);
  }

  /** `g2` is the code up to the branch of `c ?: f`, `g3` has the arm as well. */
  lemma ShortConditionalEmitted(g: Code, merge: BlockId, bbFalse: BlockId, a: BlockId, lo: nat, cond: Expr, g2: Code,
                                t1: Pos, lo1: nat, p1: Pseudo, phi1: nat, t2: Pos, e2: Expr, p2: Pseudo, phi2: nat,
                                g3: Code, h: Code, hi: nat, whole: Expr)
    requires a < |g| && lo <= lo1 < hi && Built(g, Some(a), g2) && |g| <= merge < |g2| && g2[merge].insns == []
    requires |g| <= bbFalse && bbFalse != merge
    requires ExprSim(g2, EndOf(g, a), t1, cond, p1, lo)
    requires InsnAt(g2, t1, PhiSource(Phi(phi1), p1)) && InsnAt(g2, After(t1), Br(p1, merge, Some(bbFalse)))
    requires Built(g2, Some(bbFalse), g3) && ArmLeaves(g3, bbFalse, t2, e2, p2, phi2, merge, lo1)
    requires merge < |g3| && h == WithInsn(g3, merge, PhiNode(Reg(hi), [Phi(phi1), Phi(phi2)]))
    requires MeansConditional(whole, cond, None, e2)
    ensures ExprEmitted(g, Some(a), lo, h, Some(merge), hi, whole, Reg(hi))
  {
    BuiltTrans(g, Some(a), g2, Some(bbFalse), g3);
    assert BlockKept(g2, g3, merge);
    ExtendsInsn(g3, merge, PhiNode(Reg(hi), [Phi(phi1), Phi(phi2)]));
    BuiltTrans(g, Some(a), g3, Some(merge), h);
    ExtendsTrans(g2, g3, h);
    ExprSimExtends(g2, EndOf(g, a), t1, cond, p1, lo, h);
    StaysAt(g2, h, t1, PhiSource(Phi(phi1), p1));
    StaysAt(g2, h, After(t1), Br(p1, merge, Some(bbFalse)));
    ArmLeavesExtends(g3, bbFalse, t2, e2, p2, phi2, merge, lo1, h);
    ShortConditionalSim(h, EndOf(g, a), t1, cond, p1, phi1, bbFalse, merge, t2, e2, p2, phi2, lo1, whole, lo, hi);
    assert EndOf(h, merge) == Pos(merge, 1);
  }

  /** All of `c ?: f`: the condition, its test, the arm and the join. */
  lemma ShortEmitted(g: Code, g0: Code, merge: BlockId, bbFalse: BlockId, a: BlockId, lo: nat, cond: Expr,
                     g1: Code, b1: BlockId, lo1: nat, p1: Pseudo, phi1: nat, g2: Code, t2: Pos, e2: Expr, p2: Pseudo,
                     phi2: nat, g3: Code, h: Code, hi: nat, whole: Expr)
    requires a < |g| && TwoMore(g, g0, merge, bbFalse) && lo1 < hi
    requires ExprEmitted(g0, Some(a), lo, g1, Some(b1), lo1, cond, p1)
    requires merge < |g1| && bbFalse < |g1| && g2 == ShortTest(g1, b1, p1, phi1, merge, bbFalse)
    requires Built(g2, Some(bbFalse), g3) && ArmLeaves(g3, bbFalse, t2, e2, p2, phi2, merge, lo1)
    requires merge < |g3| && h == WithInsn(g3, merge, PhiNode(Reg(hi), [Phi(phi1), Phi(phi2)]))
    requires MeansConditional(whole, cond, None, e2)
    ensures ExprEmitted(g, Some(a), lo, h, Some(merge), hi, whole, Reg(hi))
  {
    ShortTestEmitted(g, g0, merge, bbFalse, a, lo, cond, g1, b1, lo1, p1, phi1, g2);
    ShortConditionalEmitted(g, merge, bbFalse, a, lo, cond, g2, EndOf(g1, b1), lo1, p1, phi1, t2, e2, p2, phi2, g3,
                            h, hi, whole);
  }

  /** `g1` is g when there is no middle operand. */
  lemma SelectEmitted(g: Code, a: Option<BlockId>, lo: nat, g1: Code, b1: Option<BlockId>, lo1: nat, pt: Pseudo,
                      g2: Code, b2: Option<BlockId>, lo2: nat, pf: Pseudo,
                      g3: Code, b3: Option<BlockId>, hi: nat, pc: Pseudo, e: Expr)
    requires e.Select?
    requires if e.condTrue.Some? then ExprEmitted(g, a, lo, g1, b1, lo1, e.condTrue.value, pt)
             else g1 == g && b1 == a && lo1 == lo && pt == pc
    requires ExprEmitted(g1, b1, lo1, g2, b2, lo2, e.condFalse, pf)
             && ExprEmitted(g2, b2, lo2, g3, b3, hi, e.conditional, pc)
    ensures ExprEmitted(g, a, lo, WithActiveInsn(g3, b3, Sel(Reg(hi + 1), pc, pt, pf)), b3, hi + 1, e, Reg(hi + 1))
  {
    BuiltSelf(g, a);
    BuiltTrans(g, a, g1, b1, g2);
    BuiltTrans(g, a, g2, b2, g3);
    if a.Some? {
      var insn := Sel(Reg(hi + 1), pc, pt, pf);
      var h := WithInsn(g3, b3.value, insn);
      ExtendsInsn(g3, b3.value, insn);
      BuiltTrans(g, a, g3, b3, h);
      SelectSim(g1, g2, g3, h, EndOf(g, a.value), EndOf(g1, b1.value), EndOf(g2, b2.value), EndOf(g3, b3.value), e,
                pt, pf, pc, lo, lo1, lo2, hi);
    }
  }

  lemma ConstantCondEmitted(g: Code, a: BlockId, lo: nat, e: Expr, bbTrue: BlockId, bbFalse: BlockId)
    requires a < |g| && bbTrue < |g| && bbFalse < |g| && e.Value?
    ensures CondEmitted(g, Some(a), lo, WithJump(g, a, Void, if e.value != 0 then bbTrue else bbFalse, None), None, lo,
                        e, bbTrue, bbFalse)
  {
    var b := if e.value != 0 then bbTrue else bbFalse;
    ExtendsJump(g, a, Void, b, None);
    ConstantCondSim(WithJump(g, a, Void, b, None), EndOf(g, a), e, bbTrue, bbFalse, lo);
  }

  lemma BranchEmitted(g: Code, a: BlockId, lo: nat, g1: Code, b: BlockId, hi: nat, e: Expr, p: Pseudo,
                      bbTrue: BlockId, bbFalse: BlockId)
    requires ExprEmitted(g, Some(a), lo, g1, Some(b), hi, e, p) && bbTrue < |g| && bbFalse < |g|
    ensures CondEmitted(g, Some(a), lo, WithJump(g1, b, p, bbTrue, Some(bbFalse)), Some(b), hi, e, bbTrue, bbFalse)
  {
    var h := WithJump(g1, b, p, bbTrue, Some(bbFalse));
    ExtendsJump(g1, b, p, bbTrue, Some(bbFalse));
    BuiltTrans(g, Some(a), g1, Some(b), h);
    ExprSimExtends(g1, EndOf(g, a), EndOf(g1, b), e, p, lo, h);
    BranchSim(h, EndOf(g, a), EndOf(g1, b), e, p, bbTrue, bbFalse, lo);
  }

  lemma NotEmitted(g: Code, a: BlockId, lo: nat, h: Code, b: Option<BlockId>, hi: nat, ty: CType, e: Expr,
                   bbTrue: BlockId, bbFalse: BlockId)
    requires CondEmitted(g, Some(a), lo, h, b, hi, e, bbFalse, bbTrue)
    ensures CondEmitted(g, Some(a), lo, h, b, hi, Preop(ty, LogNot, e), bbTrue, bbFalse)
  {
    NotSim(h, EndOf(g, a), ty, e, bbTrue, bbFalse, lo);
  }

  /** `next`, the block for the right side, is the one added to g. */
  lemma LogicalCondEmitted(g: Code, a: BlockId, lo: nat, g1: Code, b1: Option<BlockId>, mid: nat, h: Code,
                           b: Option<BlockId>, hi: nat, e: Expr, bbTrue: BlockId, bbFalse: BlockId)
    requires e.Logical? && a < |g|
    requires CondEmitted(g + [EmptyBlock], Some(a), lo, g1, b1, mid, e.left,
                         if e.isOr then bbTrue else |g|, if e.isOr then |g| else bbFalse)
    requires CondEmitted(g1, Some(|g|), mid, h, b, hi, e.right, bbTrue, bbFalse)
    ensures CondEmitted(g, Some(a), lo, h, b, hi, e, bbTrue, bbFalse)
  {
    var g0 := g + [EmptyBlock];
    BuiltByInsns(g, Some(a), g0);
    BuiltTrans(g, Some(a), g0, Some(a), g1);
    BuiltTrans(g, Some(a), g1, Some(|g|), h);
    assert BlockKept(g0, g1, |g|);
    CondSimExtends(g1, EndOf(g, a), if e.isOr then bbTrue else |g|, if e.isOr then |g| else bbFalse, e.left, lo, h);
    LogicalCondSim(h, EndOf(g, a), e, |g|, bbTrue, bbFalse, lo, mid);
  }

  lemma PlusEmitted(g: Code, a: Option<BlockId>, lo: nat, h: Code, b: Option<BlockId>, hi: nat, e: Expr, p: Pseudo)
    requires e.Preop? && e.preop.UnaryPlus? && ExprEmitted(g, a, lo, h, b, hi, e.unop, p)
    ensures ExprEmitted(g, a, lo, h, b, hi, e, p)
  {
    if a.Some? {
      var s, t := EndOf(g, a.value), EndOf(h, b.value);
      forall c: Code, m: Config | Extends(h, c) && m.pos == s ensures ExprRuns(c, m, t, e, p, lo) {
        var m' := UseExpr(h, s, t, e.unop, p, lo, c, m);
        assert ExprDone(m, m', t, e, p, lo);
      }
    }
  }

  lemma LogicalMeansConditional(e: Expr)
    requires e.Logical?
    ensures e.isOr ==> MeansConditional(e, e.left, Some(Value(e.ty, 1)), e.right)
    ensures !e.isOr ==> MeansConditional(e, e.left, Some(e.right), Value(e.ty, 0))
  {
  }
}
