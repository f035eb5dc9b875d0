/** Which expressions expansion turns into constants (expand.c). */
module Constants {
  import opened Arith
  import opened Ast
  import opened Expand

  /** Made of constants, as far as its value depends on its parts, and without the operations
      that are left for the program to do. */
  predicate IsConstant(e: Expr, st: Memory)
    decreases Nodes(e)
  {
    match e
    case Value(_, _) => true
    case Preop(ty, op, unop) =>
      IsConstant(unop, st)
      && !(op.Minus1? && ty.signed && ty.size > 0 && Eval(unop, st, Standard).v == Pow2(ty.size - 1))
    case Binop(ty, op, left, right) =>
      IsConstant(left, st) && IsConstant(right, st)
      && IsFolded(op, ty, Eval(left, st, Standard).v, Eval(right, st, Standard).v)
    case Compare(_, _, left, right) => IsConstant(left, st) && IsConstant(right, st)
    case Logical(_, isOr, left, right) =>
      IsConstant(left, st) && ((Eval(left, st, Standard).v != 0) == isOr || IsConstant(right, st))
    case Conditional(_, c, t, f) =>
      && IsConstant(c, st)
      && if Eval(c, st, Standard).v == 0 then IsConstant(f, st) else t.Some? ==> IsConstant(t.value, st)
    case Select(_, c, t, f) =>
      && IsConstant(c, st)
      && if Eval(c, st, Standard).v == 0 then IsConstant(f, st) else t.Some? ==> IsConstant(t.value, st)
    case Comma(_, left, right) => IsConstant(left, st) && IsConstant(right, st)
    case CastTo(_, c) => IsConstant(c, st)
    case _ => false
  }

  /** No division by zero, and not the signed one that overflows. */
  predicate IsFolded(op: BinaryOp, ty: CType, l: int, r: int) {
    && !op.LogAnd? && !op.LogOr? && !((op.Divide? || op.Modulo?) && r == 0)
    && !(op.Divide? && ty.signed && ty.size > 0 && l == Pow2(ty.size - 1) && r == Pow2(ty.size) - 1)
  }

  /** A constant has no effect, and its value in the expanded form is its value. */
  lemma ConstantValue(e: Expr, st: Memory, statics: set<nat>)
    requires WellTyped(e, statics) && ExpandExpr(e, statics).e.Value?
    ensures Eval(e, st, Standard) == Evaluated(ExpandExpr(e, statics).e.value, st)
    ensures Canonical(ExpandExpr(e, statics).e.value, e.ty.size) && ExpandExpr(e, statics).e.ty == e.ty
  {
    ExpandPreserves(e, st, statics);
  }

  lemma PreopFolds(e: Expr, st: Memory, statics: set<nat>)
    requires e.Preop? && WellTyped(e, statics)
    requires ExpandExpr(e.unop, statics).e.Value? <==> IsConstant(e.unop, st)
    ensures ExpandExpr(e, statics).e.Value? <==> IsConstant(e, st)
  {
    var u := ExpandExpr(e.unop, statics).e;
    if u.Value? {
      ConstantValue(e.unop, st, statics);
      FoldPreopAgrees(e.preop, e.ty, u.value);
    }
  }

  lemma BinopFolds(e: Expr, st: Memory, statics: set<nat>)
    requires e.Binop? && WellTyped(e, statics)
    requires ExpandExpr(e.left, statics).e.Value? <==> IsConstant(e.left, st)
    requires ExpandExpr(e.right, statics).e.Value? <==> IsConstant(e.right, st)
    ensures ExpandExpr(e, statics).e.Value? <==> IsConstant(e, st)
  {
    var l, r := ExpandExpr(e.left, statics), ExpandExpr(e.right, statics);
    if l.e.Value? && r.e.Value? {
      ConstantValue(e.left, st, statics);
      ConstantValue(e.right, st, statics);
      if !e.op.LogAnd? && !e.op.LogOr? {
        FoldBinopAgrees(e.op, e.ty, l.e.value, r.e.value);
      }
    }
  }

  /** expand_expression makes a constant of exactly the constant expressions. */
  lemma {:induction false} FoldsExactly(e: Expr, st: Memory, statics: set<nat>)
    requires WellTyped(e, statics)
    ensures ExpandExpr(e, statics).e.Value? <==> IsConstant(e, st)
    decreases Nodes(e), 1
  {
    match e
    case Preop(_, _, unop) =>
      FoldsExactly(unop, st, statics);
      PreopFolds(e, st, statics);
    case Binop(_, _, left, right) =>
      FoldsExactly(left, st, statics);
      FoldsExactly(right, st, statics);
      BinopFolds(e, st, statics);
    case Compare(_, _, left, right) =>
      FoldsExactly(left, st, statics);
      FoldsExactly(right, st, statics);
    case Logical(_, _, left, right) =>
      FoldsExactly(left, st, statics);
      FoldsExactly(right, st, statics);
      if ExpandExpr(left, statics).e.Value? {
        ConstantValue(left, st, statics);
      }
    case Conditional(_, _, _, _) => ChoiceFolds(e, st, statics);
    case Select(_, _, _, _) => ChoiceFolds(e, st, statics);
    case Comma(_, left, right) =>
      FoldsExactly(left, st, statics);
      FoldsExactly(right, st, statics);
    case CastTo(_, c) => FoldsExactly(c, st, statics);
    case _ =>
  }

  lemma {:induction false} ChoiceFolds(e: Expr, st: Memory, statics: set<nat>)
    requires (e.Conditional? || e.Select?) && WellTyped(e, statics)
    ensures ExpandExpr(e, statics).e.Value? <==> IsConstant(e, st)
    decreases Nodes(e), 0
  {
    FoldsExactly(e.conditional, st, statics);
    FoldsExactly(e.condFalse, st, statics);
    if e.condTrue.Some? {
      FoldsExactly(e.condTrue.value, st, statics);
    }
    if ExpandExpr(e.conditional, statics).e.Value? {
      ConstantValue(e.conditional, st, statics);
    }
  }
}
