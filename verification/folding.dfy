/** Constant operands of binary instructions: folding, and the rules for one
    constant side (simplify.c). Constants are known by their 64-bit patterns. */
module Folding {
  import opened Options
  import opened Ir
  import opened Arith
  import opened Expand

  predicate IsShiftOp(op: BinOp) {
    op.SHL? || op.LSR? || op.ASR?
  }

  predicate IsBoolOp(op: BinOp) {
    op.AND_BOOL? || op.OR_BOOL?
  }

  predicate IsCompare(op: BinOp) {
    op.SET_EQ? || op.SET_NE? || op.SET_LE? || op.SET_GE? || op.SET_LT? || op.SET_GT? || op.SET_B? || op.SET_A?
    || op.SET_BE? || op.SET_AE?
  }

  /** What an instruction's operands have to be: patterns of its size, a shift count
      below it, truth values for the logical operators. A sum's constants may have
      more bits, and so may what is tested for being zero. */
  predicate Fit(op: BinOp, n: nat, l: int, constL: bool, r: int, constR: bool) {
    && 0 < n <= 64 && (IsShiftOp(op) ==> 0 <= r < n)
    && (if IsBoolOp(op) then 0 <= l <= 1 && 0 <= r <= 1
        else if op.ADD? then
          Canonical(l, if constL then LongLong() else n) && Canonical(r, if constR then LongLong() else n)
        else if IsZeroTest(op, l, r) then Canonical(l, LongLong()) && Canonical(r, LongLong())
        else Canonical(l, n) && (IsShiftOp(op) || Canonical(r, n)))
  }

  predicate IsZeroTest(op: BinOp, l: int, r: int) {
    (op.SET_EQ? || op.SET_NE?) && (l == 0 || r == 0)
  }

  /** `left` and `right` after the test of the sign bit, as signed 64-bit numbers. */
  function Extended(v: nat, n: nat): int
    requires n > 0
  {
    if Wrap(v, n) >= Pow2(n - 1) then Wrap(v, n) - Pow2(n) else Signed(v, LongLong())
  }

  /** `res &= bits` */
  function Masked(res: int, n: nat): nat {
    Wrap(Wrap64(res), n)
  }

  /** simplify_constant_binop; None where it gives up. */
  function FoldConstant(op: BinOp, n: nat, l: nat, r: nat): Option<int>
    requires n > 0 && (IsShiftOp(op) ==> r < n)
  {
    var left, right := Extended(l, n), Extended(r, n);
    var ul, ur := Wrap(l, n), Wrap(r, n);
    match op
    case ADD => Some(Masked(left + right, n))
    case SUB => Some(Masked(left - right, n))
    case MULU => Some(Masked(ul * ur, n))
    case MULS => Some(Masked(left * right, n))
    case DIVU => if ur == 0 then None else Some(Masked(ul / ur, n))
    case DIVS => if right == 0 then None else Some(Masked(TruncDiv(left, right), n))
    case MODU => if ur == 0 then None else Some(Masked(ul % ur, n))
    case MODS => if right == 0 then None else Some(Masked(TruncMod(left, right), n))
    case SHL => Some(Masked(left * Pow2(r), n))
    case LSR => Some(Masked(ul / Pow2(r), n))
    case ASR => Some(Masked(left / Pow2(r), n))
    case AND => Some(Masked(Bitwise64(BitAnd, Wrap64(left), Wrap64(right)), n))
    case OR => Some(Masked(Bitwise64(BitOr, Wrap64(left), Wrap64(right)), n))
    case XOR => Some(Masked(Bitwise64(BitXor, Wrap64(left), Wrap64(right)), n))
    case AND_BOOL => Some(Masked(Bool(left != 0 && right != 0), n))
    case OR_BOOL => Some(Masked(Bool(left != 0 || right != 0), n))
    case SET_EQ => Some(Masked(Bool(left == right), n))
    case SET_NE => Some(Masked(Bool(left != right), n))
    case SET_LE => Some(Masked(Bool(left <= right), n))
    case SET_GE => Some(Masked(Bool(left >= right), n))
    case SET_LT => Some(Masked(Bool(left < right), n))
    case SET_GT => Some(Masked(Bool(left > right), n))
    case SET_B => Some(Masked(Bool(ul < ur), n))
    case SET_A => Some(Masked(Bool(ul > ur), n))
    case SET_BE => Some(Masked(Bool(ul <= ur), n))
    case SET_AE => Some(Masked(Bool(ul >= ur), n))
  }

  lemma Halves(n: nat)
    requires 0 < n <= 64
    ensures Pow2(n) == 2 * Pow2(n - 1)
    ensures Pow2(LongLong()) == Pow2(n) * Pow2(LongLong() - n)
    ensures Pow2(LongLong() - 1) == Pow2(n - 1) * Pow2(LongLong() - n)
    ensures Pow2(n) <= Pow2(LongLong()) && Pow2(n - 1) <= Pow2(LongLong() - 1)
  {
    Pow2Add(n, LongLong() - n);
    Pow2Add(n - 1, LongLong() - n);
    AtLeast(Pow2(n), Pow2(LongLong() - n));
    AtLeast(Pow2(n - 1), Pow2(LongLong() - n));
  }

  lemma AtLeast(a: nat, k: nat)
    requires k >= 1
    ensures a * k >= a
  {
    assert a * k == a + a * (k - 1);
  }

  /** Numbers a multiple of p apart have the same remainder. */
  lemma SameMod(x: int, y: int, p: int, k: int)
    requires p > 0 && x == y + p * k
    ensures x % p == y % p
  {
    ModShift(y, p, k);
  }

  /** Reading a pattern with its sign keeps its low bits, and is the signed value of a
      pattern that fits. */
  lemma ExtendedValue(v: nat, n: nat)
    requires 0 < n <= 64 && Canonical(v, LongLong())
    ensures Wrap(Extended(v, n), n) == Wrap(v, n)
    ensures Canonical(v, n) ==> Wrap(v, n) == v && Extended(v, n) == Signed(v, n)
  {
    Halves(n);
    var p, w := Pow2(n), Wrap(v, n);
    WrapCanonical(w, n);
    if w >= Pow2(n - 1) {
      SameMod(w - p, w, p, -1);
    } else if Extended(v, n) != v {
      BorrowsMultiple(v, Pow2(LongLong()), p, Pow2(LongLong() - n));
    }
    if Canonical(v, n) {
      WrapCanonical(v, n);
      assert v < Pow2(n - 1) || v == w;
    }
  }

  lemma BorrowsMultiple(v: int, whole: int, p: int, k: int)
    requires p > 0 && whole == p * k
    ensures (v - whole) % p == v % p
  {
    SameMod(v - whole, v, p, -k);
  }

  lemma ModSum(a: int, b: int, p: int, x: int, y: int, i: int, j: int)
    requires p > 0 && a == x + p * i && b == y + p * j
    ensures (a + b) % p == (x + y) % p && (a - b) % p == (x - y) % p
  {
    Spread(p, i, j);
    SameMod(a + b, x + y, p, i + j);
    SameMod(a - b, x - y, p, i - j);
  }

  lemma Spread(p: int, i: int, j: int)
    ensures p * (i + j) == p * i + p * j && p * (i - j) == p * i - p * j
  {
  }

  lemma ModProduct(a: int, b: int, p: int, x: int, y: int, i: int, j: int)
    requires p > 0 && a == x + p * i && b == y + p * j
    ensures (a * b) % p == (x * y) % p
  {
    Expanded(x, i, y, j, p);
    SameMod(a * b, x * y, p, i * y + x * j + p * i * j);
  }

  lemma Expanded(x: int, i: int, y: int, j: int, p: int)
    ensures (x + p * i) * (y + p * j) == x * y + p * (i * y + x * j + p * i * j)
  {
    assert (x + p * i) * (y + p * j) == x * y + x * (p * j) + (p * i) * y + (p * i) * (p * j);
  }

  lemma WrapSum(a: int, b: int, n: nat)
    ensures Wrap(a + b, n) == Wrap(Wrap(a, n) + Wrap(b, n), n)
    ensures Wrap(a - b, n) == Wrap(Wrap(a, n) - Wrap(b, n), n)
  {
    ModSum(a, b, Pow2(n), Wrap(a, n), Wrap(b, n), a / Pow2(n), b / Pow2(n));
  }

  lemma WrapProduct(a: int, b: int, n: nat)
    ensures Wrap(a * b, n) == Wrap(Wrap(a, n) * Wrap(b, n), n)
  {
    ModProduct(a, b, Pow2(n), Wrap(a, n), Wrap(b, n), a / Pow2(n), b / Pow2(n));
  }

  // ---------------------------------------------------------------------------
  // Folding agrees with the instructions
  // ---------------------------------------------------------------------------

  predicate IsDivision(op: BinOp) {
    op.DIVU? || op.DIVS? || op.MODU? || op.MODS?
  }

  /** What folding is to give: the value the instruction would compute, if it has one. */
  function Expected(op: BinOp, n: nat, l: nat, r: nat): Option<int> {
    if IsDivision(op) && r == 0 then None else Some(EvalBinary(op, n, l, r))
  }

  lemma MaskedOnce(res: int, n: nat)
    requires 0 < n <= 64
    ensures Masked(res, n) == Wrap(res, n) && Canonical(Masked(res, n), n)
    ensures Canonical(res, n) ==> Masked(res, n) == res
  {
    WrapWrap(res, n);
    if Canonical(res, n) {
      WrapCanonical(res, n);
    }
  }

  lemma FoldAdd(n: nat, l: nat, r: nat)
    requires 0 < n <= 64 && Canonical(l, LongLong()) && Canonical(r, LongLong())
    ensures FoldConstant(ADD, n, l, r) == Expected(ADD, n, l, r)
  {
    var left, right := Extended(l, n), Extended(r, n);
    ExtendedValue(l, n);
    ExtendedValue(r, n);
    WrapSum(left, right, n);
    MaskedOnce(left + right, n);
  }

  lemma FoldSub(n: nat, l: nat, r: nat)
    requires 0 < n <= 64 && Canonical(l, n) && Canonical(r, n)
    ensures FoldConstant(SUB, n, l, r) == Expected(SUB, n, l, r)
  {
    var left, right := Extended(l, n), Extended(r, n);
    Readings(n, l);
    Readings(n, r);
    ExtendedValue(l, n);
    ExtendedValue(r, n);
    WrapSum(left, right, n);
    MaskedOnce(left - right, n);
  }

  /** Patterns of the instruction's size, read in both ways. */
  lemma Readings(n: nat, l: nat)
    requires 0 < n <= 64 && Canonical(l, n)
    ensures Canonical(l, LongLong()) && Wrap(l, n) == l && Extended(l, n) == Signed(l, n)
    ensures Signed(l, n) == 0 <==> l == 0
  {
    Halves(n);
    ExtendedValue(l, n);
  }

  lemma FoldArithmetic(op: BinOp, n: nat, l: nat, r: nat)
    requires 0 < n <= 64 && Canonical(l, n) && Canonical(r, n)
    requires op.MULU? || op.MULS? || op.DIVU? || op.DIVS? || op.MODU? || op.MODS?
    ensures FoldConstant(op, n, l, r) == Expected(op, n, l, r)
  {
    Readings(n, l);
    Readings(n, r);
    var left, right := Signed(l, n), Signed(r, n);
    MaskedOnce(l * r, n);
    MaskedOnce(left * right, n);
    if r != 0 {
      MaskedOnce(TruncDiv(left, right), n);
      MaskedOnce(TruncMod(left, right), n);
      UnsignedDivision(l, r, n);
      MaskedOnce(l / r, n);
      MaskedOnce(l % r, n);
    }
  }

  lemma FoldShifted(op: BinOp, n: nat, l: nat, r: nat)
    requires 0 < n <= 64 && Canonical(l, n) && r < n && IsShiftOp(op)
    ensures FoldConstant(op, n, l, r) == Expected(op, n, l, r)
  {
    Readings(n, l);
    CountCanonical(r, n);
    Readings(n, r);
    MaskedOnce(Signed(l, n) / Pow2(r), n);
    UnsignedDivision(l, Pow2(r), n);
    MaskedOnce(l / Pow2(r), n);
    MaskedOnce(Signed(l, n) * Pow2(r), n);
    WrapProduct(Signed(l, n), Pow2(r), n);
    WrapProduct(l, Pow2(r), n);
    ExtendedValue(l, n);
  }

  /** Bits below n do not depend on those above. */
  lemma {:induction false} BitwiseWrapped(op: BitOp, n: nat, a: nat, b: nat)
    ensures Bitwise(op, n, a, b) == Bitwise(op, n, Wrap(a, n), Wrap(b, n))
  {
    if n > 0 {
      LowBit(a, n);
      LowBit(b, n);
      BitwiseWrapped(op, n - 1, a / 2, b / 2);
    }
  }

  lemma LowBit(a: nat, n: nat)
    requires n > 0
    ensures Wrap(a, n) % 2 == a % 2 && Wrap(a, n) / 2 == Wrap(a / 2, n - 1)
  {
    var q, h := Pow2(n - 1), a / 2;
    DoubleMod(a % 2, h, q);
    assert a == a % 2 + 2 * h;
    DivModUnique(Wrap(a, n), 2, h % q, a % 2);
  }

  lemma FoldBits(op: BinOp, n: nat, l: nat, r: nat)
    requires 0 < n <= 64 && Canonical(l, n) && Canonical(r, n) && (op.AND? || op.OR? || op.XOR?)
    ensures FoldConstant(op, n, l, r) == Expected(op, n, l, r)
  {
    MaskedBits(if op.AND? then BitAnd else if op.OR? then BitOr else BitXor, n, l, r);
    Readings(n, l);
    Readings(n, r);
  }

  /** The bits of the extended operands, masked, are those of the operands. */
  lemma MaskedBits(bit: BitOp, n: nat, l: nat, r: nat)
    requires 0 < n <= 64 && Canonical(l, n) && Canonical(r, n)
    ensures Masked(Bitwise64(bit, Wrap64(Extended(l, n)), Wrap64(Extended(r, n))), n) == Bitwise(bit, n, l, r)
  {
    var left, right := Wrap64(Extended(l, n)), Wrap64(Extended(r, n));
    Readings(n, l);
    Readings(n, r);
    ExtendedValue(l, n);
    ExtendedValue(r, n);
    WrapWrap(Extended(l, n), n);
    WrapWrap(Extended(r, n), n);
    MaskedOnce(Bitwise64(bit, left, right), n);
    BitwiseLow(bit, LongLong(), n, left, right);
    BitwiseWrapped(bit, n, left, right);
  }

  lemma MaskedTruth(n: nat, b: bool)
    requires 0 < n <= 64
    ensures Masked(Bool(b), n) == Bool(b)
  {
    assert Pow2(n) >= 2;
    MaskedOnce(Bool(b), n);
  }

  lemma FoldTruth(op: BinOp, n: nat, l: nat, r: nat)
    requires 0 < n <= 64 && Canonical(l, n) && Canonical(r, n) && (IsBoolOp(op) || IsCompare(op))
    ensures FoldConstant(op, n, l, r) == Expected(op, n, l, r)
  {
    Readings(n, l);
    Readings(n, r);
    MaskedTruth(n, true);
    MaskedTruth(n, false);
  }

  /** simplify_constant_binop computes what the instruction would, in every size of up
      to 64 bits, and gives up exactly on a zero divisor. */
  lemma FoldConstantAgrees(op: BinOp, n: nat, l: nat, r: nat)
    requires Fit(op, n, l, true, r, true)
    ensures FoldConstant(op, n, l, r) == Expected(op, n, l, r)
    ensures IsDivision(op) && r != 0 ==>
              Quotient(n, op.DIVS? || op.MODS?, op.MODU? || op.MODS?, l, r, EvalBinary(op, n, l, r))
  {
    if IsDivision(op) && r != 0 {
      EvalDivides(op, n, l, r);
    }
    if op.ADD? {
      FoldAdd(n, l, r);
    } else if IsZeroTest(op, l, r) {
      FoldZeroTest(op, n, l, r);
    } else {
      FitIsCanonical(op, n, l, r);
      if op.SUB? {
        FoldSub(n, l, r);
      } else if IsShiftOp(op) {
        FoldShifted(op, n, l, r);
      } else if op.AND? || op.OR? || op.XOR? {
        FoldBits(op, n, l, r);
      } else if IsBoolOp(op) || IsCompare(op) {
        FoldTruth(op, n, l, r);
      } else {
        FoldArithmetic(op, n, l, r);
      }
    }
  }

  lemma ExtendedZero(n: nat, l: nat)
    requires 0 < n <= 64 && Canonical(l, LongLong())
    ensures Extended(l, n) == 0 <==> l == 0
  {
    WrapCanonical(0, n);
    ExtendedValue(l, n);
  }

  lemma FoldZeroTest(op: BinOp, n: nat, l: nat, r: nat)
    requires 0 < n <= 64 && Canonical(l, LongLong()) && Canonical(r, LongLong()) && IsZeroTest(op, l, r)
    ensures FoldConstant(op, n, l, r) == Expected(op, n, l, r)
  {
    ExtendedZero(n, l);
    ExtendedZero(n, r);
    MaskedTruth(n, true);
    MaskedTruth(n, false);
  }

  lemma FitIsCanonical(op: BinOp, n: nat, l: nat, r: nat)
    requires Fit(op, n, l, true, r, true) && !op.ADD? && !IsZeroTest(op, l, r)
    ensures Canonical(l, n) && Canonical(r, n)
  {
    if IsBoolOp(op) {
      assert Pow2(n) >= 2;
    } else if IsShiftOp(op) {
      CountCanonical(r, n);
    }
  }

  /** What an instruction computes has its size. */
  lemma ResultCanonical(op: BinOp, n: nat, l: int, r: int)
    requires 0 < n
    ensures Canonical(EvalBinary(op, n, l, r), n)
  {
    assert Pow2(n) >= 2;
    var a, b := Wrap(l, n), Wrap(r, n);
    if b > 0 {
      QuotientBound(a, b);
    }
    QuotientBound(a, Pow2(b));
  }

  // ---------------------------------------------------------------------------
  // One constant operand
  // ---------------------------------------------------------------------------

  /** What takes the place of the instruction: an operand, zero, or a sum with another
      constant. */
  datatype Rule = Keep | Left | Right | Zero | AddInstead(c: nat)

  /** simplify_constant_rightside, with the constant's pattern and the operand's size. */
  function RightsideRule(op: BinOp, v: int, size1: nat): Rule {
    match op
    case SUB => if v != 0 then AddInstead(Wrap64(0 - v)) else Left
    case ADD => if v == 0 then Left else Keep
    case OR => if v == 0 then Left else Keep
    case XOR => if v == 0 then Left else Keep
    case OR_BOOL => if v == 0 then Left else Keep
    case SHL => if v == 0 then Left else Keep
    case LSR => if v == 0 then Left else Keep
    case ASR => if Signed(v, LongLong()) >= size1 then Zero else if v == 0 then Left else Keep
    case MULU => if v == 1 then Left else if v == 0 then Right else Keep
    case MULS => if v == 1 then Left else if v == 0 then Right else Keep
    case AND_BOOL => if v == 1 then Left else if v == 0 then Right else Keep
    case AND => if v == 0 then Right else Keep
    case _ => Keep
  }

  /** simplify_constant_leftside */
  function LeftsideRule(op: BinOp, v: int): Rule {
    if v != 0 then Keep
    else if op.ADD? || op.OR? || op.XOR? then Right
    else if IsShiftOp(op) || op.AND? || op.MULU? || op.MULS? then Left
    else Keep
  }

  /** An operand that leaves the other one as it is, and one that decides the result. */
  predicate NeutralOnRight(op: BinOp, v: int) {
    || (v == 0 && (op.ADD? || op.SUB? || op.OR? || op.XOR? || op.OR_BOOL? || IsShiftOp(op)))
    || (v == 1 && (op.MULU? || op.MULS? || op.AND_BOOL?))
  }

  predicate DecidesOnRight(op: BinOp, v: int) {
    v == 0 && (op.MULU? || op.MULS? || op.AND? || op.AND_BOOL?)
  }

  /** When there is a rule for a constant on the right. */
  lemma RightsideWhen(op: BinOp, v: int, size1: nat)
    ensures RightsideRule(op, v, size1) != Keep <==>
            || NeutralOnRight(op, v) || DecidesOnRight(op, v) || (op.SUB? && v != 0)
            || (op.ASR? && Signed(v, LongLong()) >= size1)
    ensures RightsideRule(op, v, size1) == Right <==> DecidesOnRight(op, v)
    ensures RightsideRule(op, v, size1) == Zero <==> op.ASR? && Signed(v, LongLong()) >= size1
    ensures RightsideRule(op, v, size1).AddInstead? <==> op.SUB? && v != 0
  {
  }

  /** When there is a rule for a constant on the left, and which. */
  lemma LeftsideWhen(op: BinOp, v: int)
    ensures LeftsideRule(op, v) == Right <==> v == 0 && (op.ADD? || op.OR? || op.XOR?)
    ensures LeftsideRule(op, v) == Left <==>
            v == 0 && (op.SHL? || op.LSR? || op.ASR? || op.AND? || op.MULU? || op.MULS?)
    ensures LeftsideRule(op, v) in {Left, Right, Keep}
  {
  }

  /** What is there by a rule has the value of the instruction. */
  predicate RuleAgrees(rule: Rule, op: BinOp, n: nat, l: nat, r: nat) {
    match rule
    case Keep => true
    case Left => l == EvalBinary(op, n, l, r)
    case Right => r == EvalBinary(op, n, l, r)
    case Zero => 0 == EvalBinary(op, n, l, r)
    case AddInstead(c) => EvalBinary(ADD, n, l, c) == EvalBinary(op, n, l, r) && Canonical(c, LongLong())
  }

  lemma {:induction false} BitwiseZero(op: BitOp, n: nat, a: nat)
    requires Canonical(a, n)
    ensures Bitwise(op, n, a, 0) == (if op.BitAnd? then 0 else a) == Bitwise(op, n, 0, a)
  {
    if n > 0 {
      BitwiseZero(op, n - 1, a / 2);
    }
  }

  lemma SubtractedIsAdded(n: nat, l: nat, v: nat)
    requires 0 < n <= 64
    ensures EvalBinary(ADD, n, l, Wrap64(0 - v)) == EvalBinary(SUB, n, l, v)
  {
    var minus := 0 - v;
    WrapWrap(minus, n);
    WrapSum(l, v, n);
    WrapSum(l, minus, n);
    assert l + minus == l - v;
  }

  /** A product with 1 is the other factor. */
  lemma TimesOne(n: nat, l: nat)
    requires 0 < n <= 64 && Canonical(l, n)
    ensures EvalBinary(MULU, n, l, 1) == l && EvalBinary(MULS, n, l, 1) == l
  {
    SignedProduct(n, l, 1);
    assert Pow2(n) >= 2;
    WrapCanonical(1, n);
    WrapCanonical(l, n);
  }

  lemma SignedLow(n: nat, a: nat)
    requires n > 0 && Canonical(a, n)
    ensures Wrap(Signed(a, n), n) == a
  {
    WrapCanonical(a, n);
    if a >= Pow2(n - 1) {
      SameMod(a - Pow2(n), a, Pow2(n), -1);
    }
  }

  /** Signed and unsigned products have the same bits. */
  lemma SignedProduct(n: nat, l: int, r: int)
    requires n > 0
    ensures EvalBinary(MULS, n, l, r) == Wrap(Wrap(l, n) * Wrap(r, n), n) == EvalBinary(MULU, n, l, r)
  {
    var a, b := Wrap(l, n), Wrap(r, n);
    SignedLow(n, a);
    SignedLow(n, b);
    WrapProduct(Signed(a, n), Signed(b, n), n);
  }

  lemma ShiftByNone(op: BinOp, n: nat, l: nat)
    requires 0 < n <= 64 && Canonical(l, n) && IsShiftOp(op)
    ensures EvalBinary(op, n, l, 0) == l
  {
    WrapCanonical(l, n);
    WrapCanonical(0, n);
    SignedLow(n, l);
    assert l * Pow2(0) == l && l / Pow2(0) == l && Signed(l, n) / Pow2(0) == Signed(l, n);
  }

  lemma {:induction false} Pow2Grows(m: nat, n: nat)
    requires m <= n
    ensures Pow2(m) <= Pow2(n)
  {
    if m < n {
      Pow2Grows(m, n - 1);
    }
  }

  /** All bits of a smaller operand are shifted out. */
  lemma ShiftedOut(n: nat, l: nat, v: nat, size1: nat)
    requires 0 < n <= 64 && size1 <= v < n && Canonical(l, size1)
    ensures EvalBinary(ASR, n, l, v) == 0
  {
    Pow2Grows(size1, n - 1);
    Pow2Grows(size1, v);
    WrapCanonical(l, n);
    CountCanonical(v, n);
    WrapCanonical(v, n);
    DivModUnique(l, Pow2(v), 0, l);
    WrapCanonical(0, n);
  }

  lemma RightsideSum(op: BinOp, n: nat, l: nat, v: nat, size1: nat)
    requires 0 < n <= 64 && Canonical(l, n) && (op.ADD? || op.SUB?)
    ensures RuleAgrees(RightsideRule(op, v, size1), op, n, l, v)
  {
    SubtractedIsAdded(n, l, v);
    WrapCanonical(l, n);
    WrapCanonical(0, n);
  }

  lemma RightsideShift(op: BinOp, n: nat, l: nat, v: nat, size1: nat)
    requires 0 < n <= 64 && Canonical(l, n) && v < n && Canonical(l, size1) && IsShiftOp(op)
    ensures RuleAgrees(RightsideRule(op, v, size1), op, n, l, v)
  {
    ShiftByNone(op, n, l);
    CountCanonical(v, n);
    Readings(n, v);
    if size1 <= v {
      ShiftedOut(n, l, v, size1);
    }
    SmallCount(n, v);
  }

  lemma SmallCount(n: nat, v: nat)
    requires 0 < n <= 64 && v < n
    ensures Signed(v, LongLong()) == v
  {
    BelowPow2(LongLong() - 1);
  }

  lemma RightsideProduct(op: BinOp, n: nat, l: nat, v: nat, size1: nat)
    requires 0 < n <= 64 && Canonical(l, n) && (op.MULU? || op.MULS?)
    ensures RuleAgrees(RightsideRule(op, v, size1), op, n, l, v)
  {
    TimesOne(n, l);
    SignedProduct(n, l, 0);
    WrapCanonical(0, n);
  }

  lemma RightsideBits(op: BinOp, n: nat, l: nat, v: nat, size1: nat)
    requires 0 < n && Canonical(l, n) && (op.AND? || op.OR? || op.XOR?)
    ensures RuleAgrees(RightsideRule(op, v, size1), op, n, l, v)
  {
    BitsWithZero(op, n, l);
    if v != 0 {
      assert RightsideRule(op, v, size1) == Keep;
    } else {
      assert RightsideRule(op, v, size1) == if op.AND? then Right else Left;
    }
  }

  /** Divisions and comparisons have no rule. */
  lemma RightsideKept(op: BinOp, v: int, size1: nat)
    requires IsDivision(op) || IsCompare(op)
    ensures RightsideRule(op, v, size1) == Keep
  {
  }

  lemma RightsideAgrees(op: BinOp, n: nat, l: nat, v: nat, size1: nat)
    requires Fit(op, n, l, false, v, true) && Canonical(l, size1)
    ensures RuleAgrees(RightsideRule(op, v, size1), op, n, l, v)
  {
    if IsDivision(op) || IsCompare(op) {
      RightsideKept(op, v, size1);
    } else if IsBoolOp(op) {
      RightsideTruth(op, n, l, v, size1);
    } else {
      assert Canonical(l, n) && (IsShiftOp(op) ==> v < n);
      RightsideNumber(op, n, l, v, size1);
    }
  }

  lemma RightsideNumber(op: BinOp, n: nat, l: nat, v: nat, size1: nat)
    requires 0 < n <= 64 && Canonical(l, n) && Canonical(l, size1) && (IsShiftOp(op) ==> v < n)
    requires !IsDivision(op) && !IsCompare(op) && !IsBoolOp(op)
    ensures RuleAgrees(RightsideRule(op, v, size1), op, n, l, v)
  {
    if op.ADD? || op.SUB? {
      RightsideSum(op, n, l, v, size1);
    } else if op.AND? || op.OR? || op.XOR? {
      RightsideBits(op, n, l, v, size1);
    } else if IsShiftOp(op) {
      RightsideShift(op, n, l, v, size1);
    } else {
      RightsideProduct(op, n, l, v, size1);
    }
  }

  lemma RightsideTruth(op: BinOp, n: nat, l: nat, v: nat, size1: nat)
    requires l <= 1 && v <= 1 && IsBoolOp(op)
    ensures RuleAgrees(RightsideRule(op, v, size1), op, n, l, v)
  {
  }

  lemma BitsWithZero(op: BinOp, n: nat, a: nat)
    requires 0 < n && Canonical(a, n) && (op.AND? || op.OR? || op.XOR?)
    ensures EvalBinary(op, n, a, 0) == (if op.AND? then 0 else a) == EvalBinary(op, n, 0, a)
  {
    WrapCanonical(a, n);
    WrapCanonical(0, n);
    BitsOf(op, n, a, 0);
    BitsOf(op, n, 0, a);
    BitwiseZero(BitOpOf(op), n, a);
  }

  lemma LeftsideBits(op: BinOp, n: nat, r: nat)
    requires 0 < n && Canonical(r, n) && (op.AND? || op.OR? || op.XOR?)
    ensures RuleAgrees(LeftsideRule(op, 0), op, n, 0, r)
  {
    BitsWithZero(op, n, r);
    assert LeftsideRule(op, 0) == if op.AND? then Left else Right;
  }

  lemma LeftsideShift(op: BinOp, n: nat, r: nat)
    requires 0 < n && IsShiftOp(op)
    ensures RuleAgrees(LeftsideRule(op, 0), op, n, 0, r)
  {
    NothingShifted(op, n, r);
    assert LeftsideRule(op, 0) == Left;
  }

  lemma LeftsideAgrees(op: BinOp, n: nat, v: nat, r: nat)
    requires Fit(op, n, v, true, r, false)
    ensures RuleAgrees(LeftsideRule(op, v), op, n, v, r)
  {
    if v != 0 {
      assert LeftsideRule(op, v) == Keep;
    } else if IsShiftOp(op) {
      LeftsideShift(op, n, r);
    } else if op.AND? || op.OR? || op.XOR? {
      LeftsideBits(op, n, r);
    } else if op.MULU? || op.MULS? || op.ADD? {
      LeftsideSum(op, n, r);
    } else {
      assert LeftsideRule(op, v) == Keep;
    }
  }

  lemma LeftsideSum(op: BinOp, n: nat, r: nat)
    requires 0 < n && Canonical(r, n) && (op.ADD? || op.MULU? || op.MULS?)
    ensures RuleAgrees(LeftsideRule(op, 0), op, n, 0, r)
  {
    WrapCanonical(0, n);
    WrapCanonical(r, n);
    SignedProduct(n, 0, r);
  }

  lemma NothingShifted(op: BinOp, n: nat, r: nat)
    requires 0 < n && IsShiftOp(op)
    ensures EvalBinary(op, n, 0, r) == 0
  {
    var p := Pow2(Wrap(r, n));
    WrapCanonical(0, n);
    DivModUnique(0, p, 0, 0);
  }

  /** `x && 1` and `x || 0` are x exactly when x is a truth value. */
  lemma TruthRules(n: nat, l: int)
    ensures EvalBinary(AND_BOOL, n, l, 1) == l <==> l == 0 || l == 1
    ensures EvalBinary(OR_BOOL, n, l, 0) == l <==> l == 0 || l == 1
  {
  }

  // ---------------------------------------------------------------------------
  // Exchanging operands
  // ---------------------------------------------------------------------------

  /** The operators that simplify_instruction calls simplify_commutative_binop for. */
  predicate Commutative(op: BinOp) {
    Associative(op) || op.MULU? || op.SET_EQ? || op.SET_NE?
  }

  /** And simplify_associative_binop. */
  predicate Associative(op: BinOp) {
    op.ADD? || op.MULS? || op.AND? || op.OR? || op.XOR? || IsBoolOp(op)
  }

  lemma {:induction false} BitwiseSwapped(op: BitOp, n: nat, a: nat, b: nat)
    ensures Bitwise(op, n, a, b) == Bitwise(op, n, b, a)
  {
    if n > 0 {
      BitwiseSwapped(op, n - 1, a / 2, b / 2);
    }
  }

  lemma {:induction false} BitwiseAssociates(op: BitOp, n: nat, a: nat, b: nat, c: nat)
    ensures Bitwise(op, n, Bitwise(op, n, a, b), c) == Bitwise(op, n, a, Bitwise(op, n, b, c))
  {
    if n > 0 {
      BitwiseAssociates(op, n - 1, a / 2, b / 2, c / 2);
    }
  }

  function BitOpOf(op: BinOp): BitOp {
    if op.AND? then BitAnd else if op.OR? then BitOr else BitXor
  }

  lemma BitsOf(op: BinOp, n: nat, l: int, r: int)
    requires op.AND? || op.OR? || op.XOR?
    ensures EvalBinary(op, n, l, r) == Bitwise(BitOpOf(op), n, Wrap(l, n), Wrap(r, n))
  {
  }

  lemma Swapped(op: BinOp, n: nat, l: int, r: int)
    requires 0 < n && Commutative(op)
    ensures EvalBinary(op, n, l, r) == EvalBinary(op, n, r, l)
  {
    if op.AND? || op.OR? || op.XOR? {
      BitsOf(op, n, l, r);
      BitsOf(op, n, r, l);
      BitwiseSwapped(BitOpOf(op), n, Wrap(l, n), Wrap(r, n));
    } else if op.MULU? || op.MULS? {
      SignedProduct(n, l, r);
      SignedProduct(n, r, l);
      assert Wrap(l, n) * Wrap(r, n) == Wrap(r, n) * Wrap(l, n);
    }
  }

  /** The operators whose operands are exchanged are exactly those that allow it. */
  lemma CommutesExactly(op: BinOp, n: nat)
    requires n >= 2
    ensures Commutative(op) <==> forall l: int, r: int :: EvalBinary(op, n, l, r) == EvalBinary(op, n, r, l)
  {
    if Commutative(op) {
      forall l: int, r: int ensures EvalBinary(op, n, l, r) == EvalBinary(op, n, r, l) {
        Swapped(op, n, l, r);
      }
    } else {
      var r := if IsDivision(op) then 2 else 0;
      SmallOperands(n);
      assert EvalBinary(op, n, 1, r) != EvalBinary(op, n, r, 1) by {
        OrderMatters(op, n, r);
      }
    }
  }

  /** Small numbers are their own patterns, and their own readings in enough bits. */
  lemma SmallOperands(n: nat)
    requires n >= 2
    ensures Pow2(n) >= 4 && Pow2(n) == 2 * Pow2(n - 1)
    ensures Wrap(0, n) == 0 && Wrap(1, n) == 1 && Wrap(2, n) == 2 && Wrap(3, n) == 3
    ensures Wrap(0 - 1, n) == Pow2(n) - 1
    ensures Signed(0, n) == 0 && Signed(1, n) == 1 && Signed(2, n) == if n == 2 then -2 else 2
  {
    assert Pow2(n - 1) == 2 * Pow2(n - 2);
    if n > 2 {
      assert Pow2(n - 2) == 2 * Pow2(n - 3);
    } else {
      assert Pow2(n - 2) == 1;
    }
    RestIs(1, Pow2(n), 0, 1);
    RestIs(2, Pow2(n), 0, 2);
    RestIs(3, Pow2(n), 0, 3);
    RestIs(-1, Pow2(n), -1, Pow2(n) - 1);
  }

  lemma OrderMatters(op: BinOp, n: nat, r: int)
    requires n >= 2 && !Commutative(op) && r == if IsDivision(op) then 2 else 0
    ensures EvalBinary(op, n, 1, r) != EvalBinary(op, n, r, 1)
  {
    SmallOperands(n);
    assert Pow2(0) == 1;
    assert Pow2(1) == 2;
  }

  lemma SumReassociates(n: nat, a: int, b: int, c: int)
    ensures EvalBinary(ADD, n, EvalBinary(ADD, n, a, b), c) == Wrap(a + b + c, n)
  {
    WrapSum(a, b, n);
    WrapSum(a + b, c, n);
    WrapSum(Wrap(a + b, n), c, n);
    WrapCanonical(Wrap(a + b, n), n);
  }

  lemma ProductReassociates(n: nat, a: int, b: int, c: int)
    requires n > 0
    ensures EvalBinary(MULS, n, EvalBinary(MULS, n, a, b), c) == Wrap(a * b * c, n)
  {
    SignedProduct(n, a, b);
    WrapProduct(a, b, n);
    SignedProduct(n, Wrap(a * b, n), c);
    WrapProduct(a * b, c, n);
    WrapCanonical(Wrap(a * b, n), n);
  }

  lemma BitsReassociate(op: BitOp, n: nat, a: nat, b: nat, c: nat)
    ensures Bitwise(op, n, Bitwise(op, n, a, b), c) == Bitwise(op, n, Bitwise(op, n, c, b), a)
  {
    BitwiseAssociates(op, n, a, b, c);
    BitwiseSwapped(op, n, b, c);
    BitwiseSwapped(op, n, a, Bitwise(op, n, c, b));
  }

  lemma Turned(n: nat, a: int, b: int, c: int)
    ensures Wrap(a + b + c, n) == Wrap(c + b + a, n) && Wrap(a * b * c, n) == Wrap(c * b * a, n)
  {
    var sum, product := a + b + c, a * b * c;
    assert sum == c + b + a && product == c * b * a;
  }

  lemma TruthReassociates(op: BinOp, n: nat, a: int, b: int, c: int)
    requires IsBoolOp(op)
    ensures EvalBinary(op, n, EvalBinary(op, n, a, b), c) == EvalBinary(op, n, EvalBinary(op, n, c, b), a)
  {
  }

  /** (a op b) op c is (c op b) op a. */
  lemma Reassociates(op: BinOp, n: nat, a: int, b: int, c: int)
    requires 0 < n && Associative(op)
    ensures EvalBinary(op, n, EvalBinary(op, n, a, b), c) == EvalBinary(op, n, EvalBinary(op, n, c, b), a)
  {
    Turned(n, a, b, c);
    if op.ADD? {
      SumReassociates(n, a, b, c);
      SumReassociates(n, c, b, a);
    } else if op.MULS? {
      ProductReassociates(n, a, b, c);
      ProductReassociates(n, c, b, a);
    } else if IsBoolOp(op) {
      TruthReassociates(op, n, a, b, c);
    } else {
      BitOpReassociates(op, n, a, b, c);
      BitOpReassociates(op, n, c, b, a);
      BitsReassociate(BitOpOf(op), n, Wrap(a, n), Wrap(b, n), Wrap(c, n));
    }
  }

  lemma BitOpReassociates(op: BinOp, n: nat, a: int, b: int, c: int)
    requires op.AND? || op.OR? || op.XOR?
    ensures EvalBinary(op, n, EvalBinary(op, n, a, b), c)
         == Bitwise(BitOpOf(op), n, Bitwise(BitOpOf(op), n, Wrap(a, n), Wrap(b, n)), Wrap(c, n))
  {
    BitsOf(op, n, a, b);
    BitsOf(op, n, EvalBinary(op, n, a, b), c);
    WrapCanonical(Bitwise(BitOpOf(op), n, Wrap(a, n), Wrap(b, n)), n);
  }

  // ---------------------------------------------------------------------------
  // Exchanging operands of instructions of different sizes
  // ---------------------------------------------------------------------------

  lemma WrapNarrow(x: int, m: nat, n: nat)
    requires n <= m
    ensures Wrap(Wrap(x, m), n) == Wrap(x, n)
  {
    Pow2Add(n, m - n);
    ModOfMod(x, Pow2(n), Pow2(m - n));
  }

  /** The low n bits of an m-bit operation are the n-bit operation. */
  lemma NarrowResult(op: BinOp, m: nat, n: nat, x: int, y: int)
    requires 0 < n <= m && Associative(op) && !IsBoolOp(op)
    ensures Wrap(EvalBinary(op, m, x, y), n) == EvalBinary(op, n, x, y)
  {
    WrapNarrow(x, m, n);
    WrapNarrow(y, m, n);
    if op.ADD? {
      WrapNarrow(Wrap(x, m) + Wrap(y, m), m, n);
      WrapSum(Wrap(x, m), Wrap(y, m), n);
    } else if op.MULS? {
      SignedProduct(m, x, y);
      SignedProduct(n, x, y);
      WrapNarrow(Wrap(x, m) * Wrap(y, m), m, n);
      WrapProduct(Wrap(x, m), Wrap(y, m), n);
    } else {
      BitsOf(op, m, x, y);
      BitsOf(op, n, x, y);
      BitwiseLow(BitOpOf(op), m, n, Wrap(x, m), Wrap(y, m));
      BitwiseWrapped(BitOpOf(op), n, Wrap(x, m), Wrap(y, m));
    }
  }

  /** Operands count by their low n bits. */
  lemma LowOperand(op: BinOp, n: nat, u: int, w: int, c: int)
    requires Associative(op) && !IsBoolOp(op) && Wrap(u, n) == Wrap(w, n)
    ensures EvalBinary(op, n, u, c) == EvalBinary(op, n, w, c)
  {
  }

  lemma {:induction false} AndNarrow(m: nat, n: nat, x: nat, c: nat)
    requires m <= n && Canonical(x, m)
    ensures Bitwise(BitAnd, n, x, c) == Bitwise(BitAnd, m, x, c)
    decreases n
  {
    if m > 0 {
      AndNarrow(m - 1, n - 1, x / 2, c / 2);
    } else {
      BitwiseSwapped(BitAnd, n, 0, c);
      NothingAnd(n, c);
    }
  }

  lemma {:induction false} NothingAnd(n: nat, c: nat)
    ensures Bitwise(BitAnd, n, 0, c) == 0
  {
    if n > 0 {
      NothingAnd(n - 1, c / 2);
    }
  }

  lemma AndReassociates(m: nat, n: nat, a: int, b: int, c: int)
    requires 0 < m <= n
    ensures EvalBinary(AND, n, EvalBinary(AND, m, a, b), c) == EvalBinary(AND, m, EvalBinary(AND, m, a, b), c)
  {
    var x := Bitwise(BitAnd, m, Wrap(a, m), Wrap(b, m));
    Pow2Grows(m, n);
    WrapCanonical(x, m);
    WrapCanonical(x, n);
    AndNarrow(m, n, x, Wrap(c, n));
    BitwiseWrapped(BitAnd, m, x, Wrap(c, n));
    WrapNarrow(c, n, m);
  }

  /** Exchanging operands between an instruction of size n and one of size m below. */
  ghost predicate Exchanges(op: BinOp, m: nat, n: nat) {
    forall a, b, c :: EvalBinary(op, n, EvalBinary(op, m, a, b), c) == EvalBinary(op, n, EvalBinary(op, m, c, b), a)
  }

  lemma NarrowExchanges(op: BinOp, m: nat, n: nat)
    requires 0 < n <= m && Associative(op) && !IsBoolOp(op)
    ensures Exchanges(op, m, n)
  {
    forall a, b, c
      ensures EvalBinary(op, n, EvalBinary(op, m, a, b), c) == EvalBinary(op, n, EvalBinary(op, m, c, b), a)
    {
      NarrowResult(op, m, n, a, b);
      NarrowResult(op, m, n, c, b);
      ResultCanonical(op, n, a, b);
      ResultCanonical(op, n, c, b);
      WrapCanonical(EvalBinary(op, n, a, b), n);
      WrapCanonical(EvalBinary(op, n, c, b), n);
      LowOperand(op, n, EvalBinary(op, m, a, b), EvalBinary(op, n, a, b), c);
      LowOperand(op, n, EvalBinary(op, m, c, b), EvalBinary(op, n, c, b), a);
      Reassociates(op, n, a, b, c);
    }
  }

  lemma AndExchanges(m: nat, n: nat)
    requires 0 < m <= n
    ensures Exchanges(AND, m, n)
  {
    forall a, b, c
      ensures EvalBinary(AND, n, EvalBinary(AND, m, a, b), c) == EvalBinary(AND, n, EvalBinary(AND, m, c, b), a)
    {
      AndReassociates(m, n, a, b, c);
      AndReassociates(m, n, c, b, a);
      Reassociates(AND, m, a, b, c);
    }
  }

  lemma {:induction false} Pow2Strict(m: nat, n: nat)
    requires m < n
    ensures Pow2(m) < Pow2(n)
  {
    Pow2Grows(m, n - 1);
  }

  lemma LostBit(m: nat, n: nat)
    requires 0 < m < n
    ensures Wrap(Pow2(m), n) == Pow2(m) && Wrap(Pow2(m), m) == 0 && Pow2(m) >= 2
    ensures Wrap(0, n) == 0 && Wrap(0, m) == 0 && Wrap(1, n) == 1 && Wrap(1, m) == 1
  {
    Pow2Strict(m, n);
    WrapCanonical(Pow2(m), n);
    SameMod(Pow2(m), 0, Pow2(m), 1);
    WrapCanonical(0, n);
    WrapCanonical(0, m);
    WrapCanonical(1, n);
    WrapCanonical(1, m);
  }

  /** The bit above the smaller size is lost when it goes through the inner instruction. */
  ghost predicate Loses(op: BinOp, m: nat, n: nat, a: int, p: int) {
    EvalBinary(op, n, EvalBinary(op, m, a, a), p) == p && EvalBinary(op, n, EvalBinary(op, m, p, a), a) == 0
  }

  lemma WideSum(m: nat, n: nat, p: nat)
    requires 0 < m < n && p == Pow2(m)
    ensures Loses(ADD, m, n, 0, p)
  {
    LostBit(m, n);
  }

  lemma WideProduct(m: nat, n: nat, p: nat)
    requires 0 < m < n && p == Pow2(m)
    ensures Loses(MULS, m, n, 1, p)
  {
    LostBit(m, n);
    SignedProduct(m, 1, 1);
    SignedProduct(m, p, 1);
    SignedProduct(n, 1, p);
    SignedProduct(n, 0, 1);
  }

  lemma WideBits(op: BinOp, m: nat, n: nat, p: nat)
    requires 0 < m < n && p == Pow2(m) && (op.OR? || op.XOR?)
    ensures Loses(op, m, n, 0, p)
  {
    LostBit(m, n);
    BitsWithZero(op, m, 0);
    BitsOf(op, m, p, 0);
    BitsOf(op, m, 0, 0);
    BitsWithZero(op, n, p);
    BitsWithZero(op, n, 0);
  }

  lemma WideLoses(op: BinOp, m: nat, n: nat)
    requires 0 < m < n && (op.ADD? || op.MULS? || op.OR? || op.XOR?)
    ensures !Exchanges(op, m, n)
  {
    var p := Pow2(m);
    if op.ADD? {
      WideSum(m, n, p);
      assert Loses(op, m, n, 0, p);
    } else if op.MULS? {
      WideProduct(m, n, p);
      assert Loses(op, m, n, 1, p);
    } else {
      WideBits(op, m, n, p);
      assert Loses(op, m, n, 0, p);
    }
  }

  /** simplify_associative_binop does not compare sizes. The value is kept, whatever the
      operands are, exactly when no bit can get lost: the inner instruction is not the
      smaller one, or the operator makes no bits of its own. */
  lemma ExchangesExactly(op: BinOp, m: nat, n: nat)
    requires 0 < m && 0 < n && Associative(op)
    ensures Exchanges(op, m, n) <==> n <= m || op.AND? || IsBoolOp(op)
  {
    if IsBoolOp(op) {
      forall a, b, c
        ensures EvalBinary(op, n, EvalBinary(op, m, a, b), c) == EvalBinary(op, n, EvalBinary(op, m, c, b), a)
      {
        TruthReassociates(op, n, a, b, c);
      }
    } else if n <= m {
      NarrowExchanges(op, m, n);
    } else if op.AND? {
      AndExchanges(m, n);
    } else {
      WideLoses(op, m, n);
    }
  }

  /** Operands for which the exchange changes the value. */
  function Witness(op: BinOp): (int, int, int) {
    match op
    case SUB => (1, 0, 0)
    case SET_EQ => (0, 0, 2)
    case SET_NE => (1, 0, 2)
    case SET_LE => (0, 1, 1)
    case SET_BE => (0, 1, 1)
    case SET_GE => (0, 1, 1)
    case SET_AE => (0, 1, 1)
    case DIVU => (1, 1, 2)
    case DIVS => (1, 1, 2)
    case MODU => (1, 3, 2)
    case MODS => (1, 3, 2)
    case _ => (0, 0, 1)
  }

  lemma ThreeIsSmall(n: nat)
    requires n >= 3
    ensures Signed(3, n) == 3 && Pow2(n - 1) >= 4
  {
    assert Pow2(n - 1) == 2 * Pow2(n - 2) && Pow2(n - 2) == 2 * Pow2(n - 3);
  }

  lemma WitnessCompare(op: BinOp, n: nat)
    requires n >= 3 && IsCompare(op)
    ensures var (a, b, c) := Witness(op);
            EvalBinary(op, n, EvalBinary(op, n, a, b), c) != EvalBinary(op, n, EvalBinary(op, n, c, b), a)
  {
    SmallOperands(n);
  }

  lemma WitnessOther(op: BinOp, n: nat)
    requires n >= 3 && !Associative(op) && !op.MULU? && !IsCompare(op)
    ensures var (a, b, c) := Witness(op);
            EvalBinary(op, n, EvalBinary(op, n, a, b), c) != EvalBinary(op, n, EvalBinary(op, n, c, b), a)
  {
    if op.SUB? {
      SmallDifferences(n);
    } else if IsShiftOp(op) {
      SmallShifts(op, n);
    } else if op.DIVU? || op.DIVS? {
      SmallQuotients(op, n);
    } else {
      SmallRests(op, n);
    }
  }

  lemma SmallDifferences(n: nat)
    requires n >= 3
    ensures EvalBinary(SUB, n, 1, 0) == 1 && EvalBinary(SUB, n, 0, 0) == 0 && EvalBinary(SUB, n, 0, 1) == Pow2(n) - 1
  {
    SmallOperands(n);
  }

  lemma SmallShifts(op: BinOp, n: nat)
    requires n >= 3 && IsShiftOp(op)
    ensures EvalBinary(op, n, 0, 0) == 0 && EvalBinary(op, n, 0, 1) == 0 && EvalBinary(op, n, 1, 0) == 1
  {
    SmallOperands(n);
    assert Pow2(0) == 1;
    assert Pow2(1) == 2;
  }

  lemma SmallQuotients(op: BinOp, n: nat)
    requires n >= 3 && (op.DIVU? || op.DIVS?)
    ensures EvalBinary(op, n, 1, 1) == 1 && EvalBinary(op, n, 2, 1) == 2 && EvalBinary(op, n, 1, 2) == 0
  {
    SmallOperands(n);
  }

  lemma SmallRests(op: BinOp, n: nat)
    requires n >= 3 && (op.MODU? || op.MODS?)
    ensures EvalBinary(op, n, 1, 3) == 1 && EvalBinary(op, n, 1, 2) == 1
    ensures EvalBinary(op, n, 2, 3) == 2 && EvalBinary(op, n, 2, 1) == 0
  {
    SmallOperands(n);
    ThreeIsSmall(n);
  }

  /** The operators that simplify_associative_binop is called for are those for which the
      exchange is right, but for the unsigned product. */
  lemma AssociatesExactly(op: BinOp, n: nat)
    requires n >= 3
    ensures Associative(op) <==> !op.MULU? && Exchanges(op, n, n)
  {
    if Associative(op) {
      ExchangesExactly(op, n, n);
    } else if !op.MULU? {
      if IsCompare(op) {
        WitnessCompare(op, n);
      } else {
        WitnessOther(op, n);
      }
      var (a, b, c) := Witness(op);
      assert EvalBinary(op, n, EvalBinary(op, n, a, b), c) != EvalBinary(op, n, EvalBinary(op, n, c, b), a);
    }
  }
}
