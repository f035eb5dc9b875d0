/** Integers of a given width. A value of width n is kept as its canonical bit
    pattern, a number in [0, 2^n), in the front end and in the linear form. */
module Arith {
  import opened Ir

  function Pow2(n: nat): (p: nat)
    ensures p >= 1
  {
    if n == 0 then 1 else 2 * Pow2(n - 1)
  }

  /** Masking with 2^n - 1. */
  function Wrap(v: int, n: nat): (r: nat)
    ensures r < Pow2(n)
  {
    v % Pow2(n)
  }

  /** The two's complement reading of a bit pattern. */
  function Signed(v: int, n: nat): int {
    if n > 0 && v >= Pow2(n - 1) then v - Pow2(n) else v
  }

  /** C division truncates toward zero. */
  function TruncDiv(a: int, b: int): int
    requires b != 0
  {
    if a >= 0 then a / b else -((-a) / b)
  }

  function TruncMod(a: int, b: int): int
    requires b != 0
  {
    a - b * TruncDiv(a, b)
  }

  function Abs(v: int): int {
    if v < 0 then -v else v
  }

  /** What C says of quotient and remainder: they give the dividend back, and a remainder
      is nearer to zero than the divisor and on the dividend's side of it. */
  predicate Truncates(a: int, b: int, q: int, r: int) {
    a == b * q + r && Abs(r) < Abs(b) && (r > 0 ==> a > 0) && (r < 0 ==> a < 0)
  }

  lemma TruncDivision(a: int, b: int)
    requires b != 0
    ensures Truncates(a, b, TruncDiv(a, b), TruncMod(a, b))
  {
    var n := Abs(a);
    RestWithin(n, b);
    if a < 0 {
      assert b * -(n / b) == -(b * (n / b));
    }
  }

  lemma RestWithin(n: nat, b: int)
    requires b != 0
    ensures n == b * (n / b) + n % b && n % b < Abs(b) && n % b <= n
  {
    if n / b != 0 {
      MultipleFar(b, n / b);
    }
  }

  /** Multiples of b other than zero are at least as far from zero as b. */
  lemma MultipleFar(b: int, q: int)
    requires q != 0
    ensures Abs(b * q) >= Abs(b)
  {
    var p, k := Abs(b), Abs(q);
    assert p * k == p + p * (k - 1) && p * (k - 1) >= 0;
    assert Abs(b * q) == p * k;
  }

  /** There is one such quotient, and one such remainder. */
  lemma TruncatesOnce(a: int, b: int, q: int, r: int, q': int, r': int)
    requires b != 0 && Truncates(a, b, q, r) && Truncates(a, b, q', r')
    ensures q == q' && r == r'
  {
    assert b * (q - q') == r' - r;
    if q != q' {
      MultipleFar(b, q - q');
    }
  }

  lemma RestIs(x: int, d: nat, q: int, r: nat)
    requires r < d && x == d * q + r
    ensures x / d == q && x % d == r
  {
    var e := x / d - q;
    assert d * e == r - x % d by {
      assert d * e == d * (x / d) - d * q;
    }
    if e != 0 {
      MultipleFar(d, e);
    }
  }

  /** The reading of a pattern is in the signed range and has that pattern. */
  lemma SignedReading(v: nat, n: nat)
    requires 0 < n && v < Pow2(n)
    ensures 0 - Pow2(n - 1) <= Signed(v, n) < Pow2(n - 1) && Wrap(Signed(v, n), n) == v
  {
    var p := Pow2(n);
    RestIs(Signed(v, n), p, if v >= Pow2(n - 1) then -1 else 0, v);
  }

  /** Every number of the signed range is the reading of its pattern. */
  lemma SignedOnce(u: int, n: nat)
    requires 0 < n && 0 - Pow2(n - 1) <= u < Pow2(n - 1)
    ensures Signed(Wrap(u, n), n) == u
  {
    var p := Pow2(n);
    RestIs(u, p, if u < 0 then -1 else 0, if u < 0 then u + p else u);
  }

  datatype BitOp = BitAnd | BitOr | BitXor

  function Bit(op: BitOp, a: bool, b: bool): nat {
    if (match op case BitAnd => a && b case BitOr => a || b case BitXor => a != b) then 1 else 0
  }

  /** The low n bits of a bitwise operation. */
  function Bitwise(op: BitOp, n: nat, a: nat, b: nat): (r: nat)
    ensures r < Pow2(n)
  {
    if n == 0 then 0 else Bit(op, a % 2 == 1, b % 2 == 1) + 2 * Bitwise(op, n - 1, a / 2, b / 2)
  }

  /** The k-th bit of a pattern. */
  function BitAt(v: nat, k: nat): bool {
    v / Pow2(k) % 2 == 1
  }

  /** Each bit of the result comes from the operands' bits there. */
  lemma {:induction false} BitwiseBits(op: BitOp, n: nat, a: nat, b: nat, k: nat)
    ensures BitAt(Bitwise(op, n, a, b), k) == (k < n && Bit(op, BitAt(a, k), BitAt(b, k)) == 1)
  {
    if n == 0 {
      RestIs(0, Pow2(k), 0, 0);
    } else {
      var v, rest := Bitwise(op, n, a, b), Bitwise(op, n - 1, a / 2, b / 2);
      BottomBit(v, Bit(op, a % 2 == 1, b % 2 == 1), rest);
      if k == 0 {
        FirstBit(v, k);
        FirstBit(a, k);
        FirstBit(b, k);
      } else {
        BitwiseBits(op, n - 1, a / 2, b / 2, k - 1);
        NextBit(v, k);
        NextBit(a, k);
        NextBit(b, k);
      }
    }
  }

  lemma FirstBit(v: nat, k: nat)
    requires k == 0
    ensures BitAt(v, k) == (v % 2 == 1)
  {
    RestIs(v, Pow2(k), v, 0);
  }

  lemma BottomBit(v: nat, bit: nat, rest: nat)
    requires v == bit + 2 * rest && bit < 2
    ensures v % 2 == bit && v / 2 == rest
  {
  }

  lemma NextBit(v: nat, k: nat)
    requires k > 0
    ensures BitAt(v, k) == BitAt(v / 2, k - 1)
  {
    HalfThenRest(v, Pow2(k - 1));
  }

  lemma HalfThenRest(v: nat, p: nat)
    requires p > 0
    ensures v / (2 * p) == v / 2 / p
  {
    var q, m := v / 2 / p, v / 2 % p;
    assert v == 2 * (p * q + m) + v % 2;
    RestIs(v, 2 * p, q, 2 * m + v % 2);
  }

  function Bool(b: bool): int {
    if b then 1 else 0
  }

  /** What an instruction `op` of the given size computes. Division and
      remainder by zero, which the linear form leaves undefined, give 0. */
  function EvalBinary(op: BinOp, n: nat, left: int, right: int): int {
    var a, b := Wrap(left, n), Wrap(right, n);
    var sa, sb := Signed(a, n), Signed(b, n);
    match op
    case ADD => Wrap(a + b, n)
    case SUB => Wrap(a - b, n)
    case MULU => Wrap(a * b, n)
    case MULS => Wrap(sa * sb, n)
    case DIVU => if b == 0 then 0 else a / b
    case DIVS => if sb == 0 then 0 else Wrap(TruncDiv(sa, sb), n)
    case MODU => if b == 0 then 0 else a % b
    case MODS => if sb == 0 then 0 else Wrap(TruncMod(sa, sb), n)
    case SHL => Wrap(a * Pow2(b), n)
    case LSR => a / Pow2(b)
    case ASR => Wrap(sa / Pow2(b), n)
    case AND => Bitwise(BitAnd, n, a, b)
    case OR => Bitwise(BitOr, n, a, b)
    case XOR => Bitwise(BitXor, n, a, b)
    case AND_BOOL => Bool(left != 0 && right != 0)
    case OR_BOOL => Bool(left != 0 || right != 0)
    case SET_EQ => Bool(left == right)
    case SET_NE => Bool(left != right)
    case SET_LE => Bool(sa <= sb)
    case SET_GE => Bool(sa >= sb)
    case SET_LT => Bool(sa < sb)
    case SET_GT => Bool(sa > sb)
    case SET_B => Bool(a < b)
    case SET_A => Bool(a > b)
    case SET_BE => Bool(a <= b)
    case SET_AE => Bool(a >= b)
  }

  /** The number that a pattern stands for. */
  function Reading(signed: bool, v: int, n: nat): int {
    if signed then Signed(v, n) else v
  }

  /** v is the pattern of the quotient of what l and r stand for, or of the remainder, as C
      defines them. */
  ghost predicate Quotient(n: nat, signed: bool, rest: bool, l: nat, r: nat, v: int) {
    exists q, m {:trigger Truncates(Reading(signed, l, n), Reading(signed, r, n), q, m)} ::
      Truncates(Reading(signed, l, n), Reading(signed, r, n), q, m) && v == Wrap(if rest then m else q, n)
  }

  /** The four instructions that divide. */
  lemma EvalDivides(op: BinOp, n: nat, l: nat, r: nat)
    requires op.DIVU? || op.DIVS? || op.MODU? || op.MODS?
    requires 0 < n && l < Pow2(n) && 0 < r < Pow2(n)
    ensures Quotient(n, op.DIVS? || op.MODS?, op.MODU? || op.MODS?, l, r, EvalBinary(op, n, l, r))
  {
    var signed := op.DIVS? || op.MODS?;
    var a, b := Reading(signed, l, n), Reading(signed, r, n);
    RestIs(l, Pow2(n), 0, l);
    RestIs(r, Pow2(n), 0, r);
    SignedReading(r, n);
    assert Pow2(n) == 2 * Pow2(n - 1);
    TruncDivision(a, b);
    if !signed {
      UnsignedQuotient(l, r, n);
    }
  }

  lemma UnsignedQuotient(l: nat, r: nat, n: nat)
    requires l < Pow2(n) && 0 < r < Pow2(n)
    ensures TruncDiv(l, r) == l / r == Wrap(l / r, n) && TruncMod(l, r) == l % r == Wrap(l % r, n)
  {
    RestWithin(l, r);
    QuotientWithin(l, r, l / r, l % r);
    RestIs(l / r, Pow2(n), 0, l / r);
    RestIs(l % r, Pow2(n), 0, l % r);
  }

  lemma QuotientWithin(l: nat, r: nat, q: nat, m: nat)
    requires r > 0 && l == r * q + m
    ensures q <= l
  {
    MultipleFar(q, r);
    assert q * r == r * q;
  }

  function EvalUnary(op: UnOp, n: nat, v: int): int {
    match op
    case NOT => Wrap(-1 - v, n)
    case NEG => Wrap(-v, n)
  }

  /** OP_SCAST sign-extends from the old size, OP_CAST zero-extends. */
  function EvalCast(signed: bool, oldSize: nat, n: nat, v: int): int {
    var a := Wrap(v, oldSize);
    Wrap(if signed then Signed(a, oldSize) else a, n)
  }
}
