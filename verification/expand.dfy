/** Constant folding and the cost-driven rewriting of conditionals (expand.c). */
module Expand {
  import opened Options
  import opened Arith
  import opened Ast

  const SIDE_EFFECTS: nat := 10000
  const SELECT_COST: nat := 20
  const BRANCH_COST: nat := 10

  /** The width of the type the folding computes in. */
  function LongLong(): nat { 64 }

  // ---------------------------------------------------------------------------
  // Folding in 64-bit arithmetic
  // ---------------------------------------------------------------------------

  /** A value as the unsigned 64-bit type holds it. */
  function Wrap64(v: int): nat {
    Wrap(v, LongLong())
  }

  /** A bit pattern of the given width. */
  predicate Canonical(v: int, n: nat) {
    0 <= v < Pow2(n)
  }

  function Bitwise64(op: BitOp, l: nat, r: nat): nat {
    Bitwise(op, LongLong(), l, r)
  }

  /** `sl` and `sr`: the pattern with its sign bit copied upward when the type is
      signed. */
  function SignExtended(v: int, ty: CType): int {
    if ty.signed then Signed(v, ty.size) else v
  }

  predicate IsShift(op: BinaryOp) {
    op.ShiftLeft? || op.ShiftRight?
  }

  /** check_shift_count: a count that is too big is masked. */
  function ShiftCount(op: BinaryOp, ty: CType, r: nat): nat
    requires ty.size > 0
  {
    if IsShift(op) && r >= ty.size then Bitwise(BitAnd, 32, Wrap(r, 32), ty.size - 1) else r
  }

  /** The switch of simplify_int_binop; None where it gives up. */
  function FoldBinop(op: BinaryOp, ty: CType, l: nat, r: nat): Option<int>
    requires ty.size > 0 && Canonical(l, ty.size) && (IsShift(op) || Canonical(r, ty.size))
  {
    var sl, sr := SignExtended(l, ty), SignExtended(r, ty);
    match op
    case Plus => Some(Wrap(Wrap64(l + r), ty.size))
    case Minus => Some(Wrap(Wrap64(l - r), ty.size))
    case Amp => Some(Wrap(Bitwise64(BitAnd, l, r), ty.size))
    case Bar => Some(Wrap(Bitwise64(BitOr, l, r), ty.size))
    case Caret => Some(Wrap(Bitwise64(BitXor, l, r), ty.size))
    case Times => Some(Wrap(Wrap64(sl * sr), ty.size))
    case Divide =>
      if r == 0 || (ty.signed && l == Pow2(ty.size - 1) && sr == -1) then None
      else Some(Wrap(Wrap64(TruncDiv(sl, sr)), ty.size))
    case Modulo => if r == 0 then None else Some(Wrap(Wrap64(TruncMod(sl, sr)), ty.size))
    case ShiftLeft => Some(Wrap(Wrap64(l * Pow2(r)), ty.size))
    case ShiftRight => Some(Wrap(Wrap64(sl / Pow2(r)), ty.size))
    case _ => None
  }

  /** simplify_cmp_binop, with the type of the left operand. */
  function FoldCompare(op: CompareOp, ty: CType, l: int, r: int): int {
    var sl, sr := Signed(l, ty.size), Signed(r, ty.size);
    match op
    case Less => Bool(sl < sr)
    case Greater => Bool(sl > sr)
    case Lte => Bool(sl <= sr)
    case Gte => Bool(sl >= sr)
    case Equal => Bool(l == r)
    case NotEqual => Bool(l != r)
    case UnsignedLt => Bool(l < r)
    case UnsignedGt => Bool(l > r)
    case UnsignedLte => Bool(l <= r)
    case UnsignedGte => Bool(l >= r)
  }

  /** simplify_preop; None for the negation that overflows. */
  function FoldPreop(op: PreOp, ty: CType, v: int): Option<int>
    requires ty.size > 0
  {
    match op
    case UnaryPlus => Some(Wrap(v, ty.size))
    case Minus1 => if v == Pow2(ty.size - 1) && ty.signed then None else Some(Wrap(Wrap64(-v), ty.size))
    case LogNot => Some(Wrap(Bool(v == 0), ty.size))
    case BitNot => Some(Wrap(Wrap64(-1 - v), ty.size))
  }

  /** cast_value between integer types other than _Bool. */
  function FoldCast(oldType: CType, newType: CType, v: int): int {
    if oldType.size == newType.size then v else Wrap(Wrap64(SignExtended(v, oldType)), newType.size)
  }

  // ---------------------------------------------------------------------------
  // Folding agrees with the instructions
  // ---------------------------------------------------------------------------

  lemma {:induction false} Pow2Add(m: nat, n: nat)
    ensures Pow2(m + n) == Pow2(m) * Pow2(n)
  {
    if m > 0 {
      Pow2Add(m - 1, n);
    }
  }

  lemma DivModUnique(x: int, a: int, q: int, r: int)
    requires a > 0 && x == a * q + r && 0 <= r < a
    ensures x / a == q && x % a == r
  {
    var d := q - x / a;
    assert a * d == x % a - r by {
      assert a * d == a * q - a * (x / a);
    }
    MulBound(a, d);
  }

  lemma MulBound(a: int, d: int)
    requires a > 0
    ensures d >= 1 ==> a * d >= a
    ensures d <= -1 ==> a * d <= -a
  {
    if d >= 1 {
      assert a * (d - 1) >= 0;
    } else if d <= -1 {
      assert a * (-1 - d) >= 0;
    }
  }

  lemma ModShift(y: int, a: int, k: int)
    requires a > 0
    ensures (y + a * k) % a == y % a
  {
    assert y + a * k == a * (y / a + k) + y % a;
    DivModUnique(y + a * k, a, y / a + k, y % a);
  }

  lemma ModOfMod(x: int, a: int, b: int)
    requires a > 0 && b > 0
    ensures a * b > 0 && (x % (a * b)) % a == x % a
  {
    var q := x / (a * b);
    assert x == x % (a * b) + a * (b * q);
    ModShift(x % (a * b), a, b * q);
  }

  /** Masking to 64 bits on the way to a narrower mask changes nothing. */
  lemma WrapWrap(x: int, n: nat)
    requires n <= 64
    ensures Wrap(Wrap64(x), n) == Wrap(x, n)
  {
    Pow2Add(n, LongLong() - n);
    ModOfMod(x, Pow2(n), Pow2(LongLong() - n));
  }

  lemma WrapCanonical(v: int, n: nat)
    requires Canonical(v, n)
    ensures Wrap(v, n) == v
  {
    DivModUnique(v, Pow2(n), 0, v);
  }

  /** The low n bits of a 64-bit operation are the n-bit operation. */
  lemma {:induction false} BitwiseLow(op: BitOp, m: nat, n: nat, a: nat, b: nat)
    requires n <= m
    ensures Wrap(Bitwise(op, m, a, b), n) == Bitwise(op, n, a, b)
    decreases m
  {
    if n > 0 {
      BitwiseLow(op, m - 1, n - 1, a / 2, b / 2);
      var bit, rest := Bit(op, a % 2 == 1, b % 2 == 1), Bitwise(op, m - 1, a / 2, b / 2);
      DoubleMod(bit, rest, Pow2(n - 1));
    }
  }

  lemma DoubleMod(bit: int, r: int, p: int)
    requires 0 <= bit <= 1 && p > 0
    ensures (bit + 2 * r) % (2 * p) == bit + 2 * (r % p)
  {
    assert bit + 2 * r == (2 * p) * (r / p) + (bit + 2 * (r % p));
    DivModUnique(bit + 2 * r, 2 * p, r / p, bit + 2 * (r % p));
  }

  lemma {:induction false} BelowPow2(n: nat)
    ensures n < Pow2(n)
  {
    if n > 0 {
      BelowPow2(n - 1);
    }
  }

  /** A count in range is its own bit pattern. */
  lemma CountCanonical(r: nat, n: nat)
    requires r < n
    ensures Canonical(r, n)
  {
    BelowPow2(n);
  }

  /** Operands as the instruction sees them. */
  lemma OperandsKept(op: BinaryOp, ty: CType, l: nat, r: nat)
    requires ty.size > 0 && Canonical(l, ty.size) && (if IsShift(op) then r < ty.size else Canonical(r, ty.size))
    ensures Wrap(l, ty.size) == l && Wrap(r, ty.size) == r
  {
    if IsShift(op) {
      CountCanonical(r, ty.size);
    }
    WrapCanonical(l, ty.size);
    WrapCanonical(r, ty.size);
  }

  lemma QuotientBound(l: nat, d: nat)
    requires d > 0
    ensures 0 <= l / d <= l && 0 <= l % d <= l
  {
    var q := l / d;
    assert l == d * q + l % d;
    if q >= 1 {
      MulBound(q, d);
    }
  }

  /** Unsigned quotients and remainders stay within the width. */
  lemma UnsignedDivision(l: nat, d: nat, n: nat)
    requires Canonical(l, n) && d > 0
    ensures Canonical(l / d, n) && Wrap(l / d, n) == l / d
    ensures Wrap(l % d, n) == l % d && TruncMod(l, d) == l % d
  {
    QuotientBound(l, d);
    WrapCanonical(l / d, n);
    WrapCanonical(l % d, n);
  }

  /** What folding promises: the value the instruction would compute. */
  ghost predicate Agrees(op: BinaryOp, ty: CType, l: nat, r: nat)
    requires ty.size > 0 && Canonical(l, ty.size) && (IsShift(op) || Canonical(r, ty.size))
  {
    var v := FoldBinop(op, ty, l, r);
    v.Some? ==> v.value == EvalBinary(BinopOpcode(op, ty.signed), ty.size, l, r) && Canonical(v.value, ty.size)
  }

  lemma FoldRing(op: BinaryOp, ty: CType, l: nat, r: nat)
    requires 0 < ty.size <= 64 && Canonical(l, ty.size) && Canonical(r, ty.size)
    requires op.Plus? || op.Minus? || op.Times?
    ensures Agrees(op, ty, l, r)
  {
    OperandsKept(op, ty, l, r);
    WrapWrap(l + r, ty.size);
    WrapWrap(l - r, ty.size);
    WrapWrap(SignExtended(l, ty) * SignExtended(r, ty), ty.size);
  }

  lemma FoldAnd(ty: CType, l: nat, r: nat)
    requires 0 < ty.size <= 64 && Canonical(l, ty.size) && Canonical(r, ty.size)
    ensures Agrees(Amp, ty, l, r)
  {
    OperandsKept(Amp, ty, l, r);
    Bitwise64Low(BitAnd, ty.size, l, r);
  }

  lemma FoldOr(ty: CType, l: nat, r: nat)
    requires 0 < ty.size <= 64 && Canonical(l, ty.size) && Canonical(r, ty.size)
    ensures Agrees(Bar, ty, l, r)
  {
    OperandsKept(Bar, ty, l, r);
    Bitwise64Low(BitOr, ty.size, l, r);
  }

  lemma FoldXor(ty: CType, l: nat, r: nat)
    requires 0 < ty.size <= 64 && Canonical(l, ty.size) && Canonical(r, ty.size)
    ensures Agrees(Caret, ty, l, r)
  {
    OperandsKept(Caret, ty, l, r);
    Bitwise64Low(BitXor, ty.size, l, r);
  }

  lemma Bitwise64Low(op: BitOp, n: nat, l: nat, r: nat)
    requires n <= 64
    ensures Wrap(Bitwise64(op, l, r), n) == Bitwise(op, n, l, r)
  {
    BitwiseLow(op, LongLong(), n, l, r);
  }

  lemma FoldDivision(op: BinaryOp, ty: CType, l: nat, r: nat)
    requires 0 < ty.size <= 64 && Canonical(l, ty.size) && Canonical(r, ty.size)
    requires op.Divide? || op.Modulo?
    ensures Agrees(op, ty, l, r)
  {
    OperandsKept(op, ty, l, r);
    if r != 0 {
      WrapWrap(TruncDiv(SignExtended(l, ty), SignExtended(r, ty)), ty.size);
      WrapWrap(TruncMod(SignExtended(l, ty), SignExtended(r, ty)), ty.size);
      UnsignedDivision(l, r, ty.size);
    }
  }

  lemma FoldShift(op: BinaryOp, ty: CType, l: nat, r: nat)
    requires 0 < ty.size <= 64 && Canonical(l, ty.size) && r < ty.size && IsShift(op)
    ensures Agrees(op, ty, l, r)
  {
    OperandsKept(op, ty, l, r);
    WrapWrap(l * Pow2(r), ty.size);
    WrapWrap(SignExtended(l, ty) / Pow2(r), ty.size);
    UnsignedDivision(l, Pow2(r), ty.size);
  }

  /** simplify_int_binop computes what the instruction would, in every type of up to
      64 bits, and gives up exactly on the logical operators, on a zero divisor and
      on the one signed division that overflows. */
  lemma FoldBinopAgrees(op: BinaryOp, ty: CType, l: nat, r: nat)
    requires 0 < ty.size <= 64 && Canonical(l, ty.size)
    requires if IsShift(op) then r < ty.size else Canonical(r, ty.size)
    ensures Agrees(op, ty, l, r)
    ensures FoldBinop(op, ty, l, r).None? <==>
            op.LogAnd? || op.LogOr? || ((op.Divide? || op.Modulo?) && r == 0) ||
            (op.Divide? && ty.signed && l == Pow2(ty.size - 1) && r == Pow2(ty.size) - 1)
    ensures var v := FoldBinop(op, ty, l, r);
            (op.Divide? || op.Modulo?) && v.Some? ==> Quotient(ty.size, ty.signed, op.Modulo?, l, r, v.value)
  {
    if op.Plus? || op.Minus? || op.Times? {
      FoldRing(op, ty, l, r);
    } else if op.Amp? {
      FoldAnd(ty, l, r);
    } else if op.Bar? {
      FoldOr(ty, l, r);
    } else if op.Caret? {
      FoldXor(ty, l, r);
    } else if op.Divide? || op.Modulo? {
      FoldDivision(op, ty, l, r);
      if r != 0 {
        EvalDivides(BinopOpcode(op, ty.signed), ty.size, l, r);
      }
    } else if IsShift(op) {
      FoldShift(op, ty, l, r);
    }
  }

  lemma FoldCompareAgrees(op: CompareOp, ty: CType, l: nat, r: nat)
    requires Canonical(l, ty.size) && Canonical(r, ty.size)
    ensures FoldCompare(op, ty, l, r) == EvalBinary(CompareOpcode(op), ty.size, l, r)
  {
    WrapCanonical(l, ty.size);
    WrapCanonical(r, ty.size);
  }

  lemma FoldPreopAgrees(op: PreOp, ty: CType, v: nat)
    requires 0 < ty.size <= 64 && (op.LogNot? || Canonical(v, ty.size))
    ensures var r := FoldPreop(op, ty, v);
            r.Some? ==> r.value == PreopValue(op, ty.size, v) && Canonical(r.value, ty.size)
    ensures FoldPreop(op, ty, v).None? <==> op.Minus1? && ty.signed && v == Pow2(ty.size - 1)
  {
    if op.UnaryPlus? {
      WrapCanonical(v, ty.size);
    }
    WrapWrap(0 - v, ty.size);
    WrapWrap(-1 - v, ty.size);
    assert Pow2(1) == 2;
    Pow2Add(1, ty.size - 1);
    WrapCanonical(Bool(v == 0), ty.size);
  }

  lemma FoldCastAgrees(oldType: CType, newType: CType, v: nat)
    requires 0 < oldType.size <= 64 && 0 < newType.size <= 64 && Canonical(v, oldType.size)
    ensures FoldCast(oldType, newType, v) == EvalCast(oldType.signed, oldType.size, newType.size, v)
    ensures Canonical(FoldCast(oldType, newType, v), newType.size)
  {
    WrapCanonical(v, oldType.size);
    WrapWrap(SignExtended(v, oldType), newType.size);
    if oldType.size == newType.size && SignExtended(v, oldType) != v {
      ModShift(v, Pow2(newType.size), -1);
    }
  }

  // ---------------------------------------------------------------------------
  // Expansion
  // ---------------------------------------------------------------------------

  /** An expression after expansion, and the cost of evaluating it. */
  datatype Expanded = Expanded(e: Expr, cost: nat)

  /** expand_expression. `statics` are the symbols with MOD_STATIC or MOD_EXTERN,
      which cost more to read. */
  function ExpandExpr(e: Expr, statics: set<nat>): Expanded
    decreases Nodes(e)
  {
    match e
    case Value(_, _) => Expanded(e, 0)
    case Access(_, s) => Expanded(e, if s in statics then 2 else 1)
    case Assign(ty, s, src) => Expanded(Assign(ty, s, ExpandExpr(src, statics).e), SIDE_EFFECTS)
    case IncDec(_, _, _, _, _) => Expanded(e, SIDE_EFFECTS)
    case Preop(ty, op, unop) =>
      var u := ExpandExpr(unop, statics);
      var v := if u.e.Value? && ty.size > 0 then FoldPreop(op, ty, u.e.value) else None;
      if v.Some? then Expanded(Value(ty, v.value), 0) else Expanded(Preop(ty, op, u.e), u.cost + 1)
    case Binop(ty, op, left, right) =>
      var l, r := ExpandExpr(left, statics), ExpandExpr(right, statics);
      ExpandBinop(ty, op, l.e, r.e, l.cost + r.cost)
    case Compare(ty, op, left, right) =>
      var l, r := ExpandExpr(left, statics), ExpandExpr(right, statics);
      if l.e.Value? && r.e.Value? then Expanded(Value(ty, FoldCompare(op, l.e.ty, l.e.value, r.e.value)), 0)
      else Expanded(Compare(ty, op, l.e, r.e), l.cost + r.cost + 1)
    case Logical(ty, isOr, left, right) =>
      var l := ExpandExpr(left, statics);
      if l.e.Value? && (l.e.value != 0) == isOr then Expanded(Value(ty, Bool(isOr)), 0)
      else
        var r := ExpandExpr(right, statics);
        if l.e.Value? && r.e.Value? then Expanded(Value(ty, Bool(r.e.value != 0)), 0)
        else if r.cost < BRANCH_COST then
          Expanded(Binop(ty, if isOr then LogOr else LogAnd, l.e, r.e),
                   l.cost + BRANCH_COST + r.cost - (BRANCH_COST - 1))
        else Expanded(Logical(ty, isOr, l.e, r.e), l.cost + BRANCH_COST + r.cost)
    case Conditional(_, cond, condTrue, condFalse) => ExpandConditional(e, statics)
    case Select(_, cond, condTrue, condFalse) => ExpandConditional(e, statics)
    case Comma(ty, left, right) =>
      var l, r := ExpandExpr(left, statics), ExpandExpr(right, statics);
      Expanded(if l.e.Value? then r.e else Comma(ty, l.e, r.e), l.cost + r.cost)
    case CastTo(ty, c) =>
      var r := ExpandExpr(c, statics);
      if r.e.Value? then Expanded(Value(ty, FoldCast(r.e.ty, ty, r.e.value)), 0)
      else Expanded(CastTo(ty, r.e), r.cost + 1)
  }

  /** expand_binop after its operands: a shift count that is too big is masked in
      place, and two constants are folded. Type evaluation leaves no constant that is
      not a bit pattern of its type; here one is left alone. */
  function ExpandBinop(ty: CType, op: BinaryOp, l: Expr, r: Expr, cost: nat): Expanded {
    if !r.Value? || ty.size == 0 || r.value < 0 then Expanded(Binop(ty, op, l, r), cost + 1)
    else
      var count := ShiftCount(op, ty, r.value);
      var r' := Value(r.ty, count);
      if l.Value? && Canonical(l.value, ty.size) && (IsShift(op) || Canonical(count, ty.size)) then
        var v := FoldBinop(op, ty, l.value, count);
        if v.Some? then Expanded(Value(ty, v.value), 0) else Expanded(Binop(ty, op, l, r'), cost + 1)
      else Expanded(Binop(ty, op, l, r'), cost + 1)
  }

  /** expand_conditional, which also sees selects again. */
  function ExpandConditional(e: Expr, statics: set<nat>): Expanded
    requires e.Conditional? || e.Select?
    decreases Nodes(e), 0
  {
    var c := ExpandExpr(e.conditional, statics);
    if c.e.Value? then
      if c.e.value == 0 then ExpandExpr(e.condFalse, statics)
      else if e.condTrue.Some? then ExpandExpr(e.condTrue.value, statics)
      else c
    else
      var t := if e.condTrue.Some? then ExpandExpr(e.condTrue.value, statics) else Expanded(e, 0);
      var t' := if e.condTrue.Some? then Some(t.e) else None;
      var f := ExpandExpr(e.condFalse, statics);
      var cost := t.cost + f.cost;
      if cost < SELECT_COST then
        Expanded(Select(e.ty, c.e, t', f.e), cost + c.cost + BRANCH_COST - (BRANCH_COST - 1))
      else if e.Select? then Expanded(Select(e.ty, c.e, t', f.e), cost + c.cost + BRANCH_COST)
      else Expanded(Conditional(e.ty, c.e, t', f.e), cost + c.cost + BRANCH_COST)
  }

  // ---------------------------------------------------------------------------
  // Expansion preserves meaning
  // ---------------------------------------------------------------------------

  predicate Sized(ty: CType) {
    0 < ty.size <= 64
  }

  /** What type evaluation leaves: constants are bit patterns of their type, the
      operands of an operation agree in size, the arms of a conditional have its
      type, and a constant shift count is below the width. */
  predicate WellTyped(e: Expr, statics: set<nat>) {
    Sized(e.ty) &&
    match e
    case Value(ty, v) => Canonical(v, ty.size)
    case Access(_, _) => true
    case Assign(ty, _, src) => src.ty == ty && WellTyped(src, statics)
    case IncDec(_, _, _, _, _) => true
    case Preop(ty, op, unop) => (op.LogNot? || unop.ty.size == ty.size) && WellTyped(unop, statics)
    case Binop(ty, op, left, right) =>
      && WellTyped(left, statics) && WellTyped(right, statics)
      && (op.LogAnd? || op.LogOr? || left.ty.size == ty.size)
      && (op.LogAnd? || op.LogOr? || IsShift(op) || right.ty.size == ty.size)
      && (IsShift(op) ==> var r := ExpandExpr(right, statics).e; r.Value? ==> r.value < ty.size)
    case Compare(_, _, left, right) => left.ty.size == right.ty.size && WellTyped(left, statics)
                                       && WellTyped(right, statics)
    case Logical(_, _, left, right) => WellTyped(left, statics) && WellTyped(right, statics)
    case Conditional(ty, c, t, f) =>
      && WellTyped(c, statics) && WellTyped(f, statics) && f.ty == ty
      && (if t.Some? then t.value.ty == ty && WellTyped(t.value, statics) else c.ty == ty)
    case Select(ty, c, t, f) =>
      && WellTyped(c, statics) && WellTyped(f, statics) && f.ty == ty
      && (if t.Some? then t.value.ty == ty && WellTyped(t.value, statics) else c.ty == ty)
    case Comma(ty, left, right) => right.ty == ty && WellTyped(left, statics) && WellTyped(right, statics)
    case CastTo(_, c) => WellTyped(c, statics)
  }

  /** No assignment anywhere in the expression. */
  predicate SideEffectFree(e: Expr) {
    match e
    case Value(_, _) => true
    case Access(_, _) => true
    case Assign(_, _, _) => false
    case IncDec(_, _, _, _, _) => false
    case Preop(_, _, unop) => SideEffectFree(unop)
    case Binop(_, _, left, right) => SideEffectFree(left) && SideEffectFree(right)
    case Compare(_, _, left, right) => SideEffectFree(left) && SideEffectFree(right)
    case Logical(_, _, left, right) => SideEffectFree(left) && SideEffectFree(right)
    case Conditional(_, c, t, f) => SideEffectFree(c) && (t.Some? ==> SideEffectFree(t.value)) && SideEffectFree(f)
    case Select(_, c, t, f) => SideEffectFree(c) && (t.Some? ==> SideEffectFree(t.value)) && SideEffectFree(f)
    case Comma(_, left, right) => SideEffectFree(left) && SideEffectFree(right)
    case CastTo(_, c) => SideEffectFree(c)
  }

  lemma {:induction false} PureKeepsMemory(e: Expr, st: Memory, mode: Mode)
    requires SideEffectFree(e)
    ensures Eval(e, st, mode).st == st
    decreases Nodes(e)
  {
    match e
    case Preop(_, _, unop) => PureKeepsMemory(unop, st, mode);
    case Binop(_, _, left, right) => PureKeepsMemory(left, st, mode); PureKeepsMemory(right, st, mode);
    case Compare(_, _, left, right) => PureKeepsMemory(left, st, mode); PureKeepsMemory(right, st, mode);
    case Logical(_, _, left, right) => PureKeepsMemory(left, st, mode); PureKeepsMemory(right, st, mode);
    case Conditional(_, c, t, f) =>
      PureKeepsMemory(c, st, mode);
      PureKeepsMemory(f, st, mode);
      if t.Some? { PureKeepsMemory(t.value, st, mode); }
    case Select(_, c, t, f) =>
      PureKeepsMemory(c, st, mode);
      PureKeepsMemory(f, st, mode);
      if t.Some? { PureKeepsMemory(t.value, st, mode); }
    case Comma(_, left, right) => PureKeepsMemory(left, st, mode); PureKeepsMemory(right, st, mode);
    case CastTo(_, c) => PureKeepsMemory(c, st, mode);
    case _ =>
  }

  /** What expansion promises of one expression in one state of the variables. */
  ghost predicate Preserved(e: Expr, r: Expanded, st: Memory) {
    && r.e.ty == e.ty && Sized(e.ty)
    && (r.e.Value? ==> Canonical(r.e.value, e.ty.size))
    && Eval(r.e, st, Standard) == Eval(e, st, Standard)
    && (r.cost < SIDE_EFFECTS ==> SideEffectFree(r.e))
  }

  lemma PreopPreserved(e: Expr, st: Memory, statics: set<nat>)
    requires e.Preop? && WellTyped(e, statics) && Preserved(e.unop, ExpandExpr(e.unop, statics), st)
    ensures Preserved(e, ExpandExpr(e, statics), st)
  {
    var u := ExpandExpr(e.unop, statics);
    if u.e.Value? {
      FoldPreopAgrees(e.preop, e.ty, u.e.value);
    }
  }

  lemma BinopPreserved(e: Expr, st: Memory, statics: set<nat>)
    requires e.Binop? && WellTyped(e, statics) && Preserved(e.left, ExpandExpr(e.left, statics), st)
    requires Preserved(e.right, ExpandExpr(e.right, statics), Eval(e.left, st, Standard).st)
    ensures Preserved(e, ExpandExpr(e, statics), st)
  {
    var l, r := ExpandExpr(e.left, statics), ExpandExpr(e.right, statics);
    if r.e.Value? && l.e.Value? && !e.op.LogAnd? && !e.op.LogOr? {
      FoldBinopAgrees(e.op, e.ty, l.e.value, r.e.value);
    }
  }

  lemma ComparePreserved(e: Expr, st: Memory, statics: set<nat>)
    requires e.Compare? && WellTyped(e, statics) && Preserved(e.left, ExpandExpr(e.left, statics), st)
    requires Preserved(e.right, ExpandExpr(e.right, statics), Eval(e.left, st, Standard).st)
    ensures Preserved(e, ExpandExpr(e, statics), st)
  {
    var l, r := ExpandExpr(e.left, statics), ExpandExpr(e.right, statics);
    OneCanonical(e.ty.size);
    if r.e.Value? && l.e.Value? {
      FoldCompareAgrees(e.cmp, l.e.ty, l.e.value, r.e.value);
    }
  }

  lemma OneCanonical(n: nat)
    requires n > 0
    ensures Canonical(0, n) && Canonical(1, n)
  {
    assert Pow2(n) == 2 * Pow2(n - 1);
  }

  lemma LogicalPreserved(e: Expr, st: Memory, statics: set<nat>)
    requires e.Logical? && WellTyped(e, statics) && Preserved(e.left, ExpandExpr(e.left, statics), st)
    requires Preserved(e.right, ExpandExpr(e.right, statics), Eval(e.left, st, Standard).st)
    ensures Preserved(e, ExpandExpr(e, statics), st)
  {
    OneCanonical(e.ty.size);
    var r := ExpandExpr(e.right, statics);
    if r.cost < BRANCH_COST {
      PureKeepsMemory(r.e, Eval(e.left, st, Standard).st, Standard);
    }
  }

  lemma CastPreserved(e: Expr, st: Memory, statics: set<nat>)
    requires e.CastTo? && WellTyped(e, statics) && Preserved(e.castExpr, ExpandExpr(e.castExpr, statics), st)
    ensures Preserved(e, ExpandExpr(e, statics), st)
  {
    var r := ExpandExpr(e.castExpr, statics);
    if r.e.Value? {
      FoldCastAgrees(r.e.ty, e.ty, r.e.value);
    }
  }

  lemma ConditionalPreserved(e: Expr, st: Memory, statics: set<nat>)
    requires (e.Conditional? || e.Select?) && WellTyped(e, statics)
    requires Preserved(e.conditional, ExpandExpr(e.conditional, statics), st)
    requires var c := Eval(e.conditional, st, Standard);
             (e.condTrue.Some? ==> Preserved(e.condTrue.value, ExpandExpr(e.condTrue.value, statics), c.st)) &&
             Preserved(e.condFalse, ExpandExpr(e.condFalse, statics), c.st)
    ensures Preserved(e, ExpandConditional(e, statics), st)
  {
  }

  /** expand_expression on call-free integer expressions: the value, the assignments
      and the type stay as they were, and an expression whose cost is below
      SIDE_EFFECTS assigns nothing. */
  lemma {:induction false} ExpandPreserves(e: Expr, st: Memory, statics: set<nat>)
    requires WellTyped(e, statics)
    ensures Preserved(e, ExpandExpr(e, statics), st)
    decreases Nodes(e)
  {
    match e
    case Assign(_, _, src) => ExpandPreserves(src, st, statics);
    case Preop(_, _, unop) =>
      ExpandPreserves(unop, st, statics);
      PreopPreserved(e, st, statics);
    case Binop(_, _, left, right) =>
      ExpandPreserves(left, st, statics);
      ExpandPreserves(right, Eval(left, st, Standard).st, statics);
      BinopPreserved(e, st, statics);
    case Compare(_, _, left, right) =>
      ExpandPreserves(left, st, statics);
      ExpandPreserves(right, Eval(left, st, Standard).st, statics);
      ComparePreserved(e, st, statics);
    case Logical(_, _, left, right) =>
      ExpandPreserves(left, st, statics);
      ExpandPreserves(right, Eval(left, st, Standard).st, statics);
      LogicalPreserved(e, st, statics);
    case Conditional(_, c, t, f) =>
      ExpandPreserves(c, st, statics);
      if t.Some? { ExpandPreserves(t.value, Eval(c, st, Standard).st, statics); }
      ExpandPreserves(f, Eval(c, st, Standard).st, statics);
      ConditionalPreserved(e, st, statics);
    case Select(_, c, t, f) =>
      ExpandPreserves(c, st, statics);
      if t.Some? { ExpandPreserves(t.value, Eval(c, st, Standard).st, statics); }
      ExpandPreserves(f, Eval(c, st, Standard).st, statics);
      ConditionalPreserved(e, st, statics);
    case Comma(_, left, right) =>
      ExpandPreserves(left, st, statics);
      ExpandPreserves(right, Eval(left, st, Standard).st, statics);
    case CastTo(_, c) =>
      ExpandPreserves(c, st, statics);
      CastPreserved(e, st, statics);
    case _ =>
  }
}
