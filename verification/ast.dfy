/** Expressions and statements after evaluation, and what they mean. */
module Ast {
  import opened Options
  import opened Ir
  import opened Arith

  /** An integer type: its width and whether it carries MOD_SIGNED. */
  datatype CType = CType(size: nat, signed: bool)

  datatype BinaryOp = Plus | Minus | Times | Divide | Modulo | Amp | Bar | Caret | ShiftLeft | ShiftRight
                    | LogAnd | LogOr

  datatype CompareOp = Less | Greater | Lte | Gte | Equal | NotEqual
                     | UnsignedLt | UnsignedGt | UnsignedLte | UnsignedGte

  datatype PreOp = UnaryPlus | Minus1 | LogNot | BitNot

  /** An lvalue is a symbol. `Conditional` and `Select` without `condTrue` are
      the two-operand form `c ?: f`. A `Binop` with LogAnd or LogOr is what
      expansion makes of a logical operator whose right side is safe. */
  datatype Expr =
    | Value(ty: CType, value: int)
    | Access(ty: CType, sym: nat)
    | Assign(ty: CType, sym: nat, src: Expr)
    | IncDec(ty: CType, sym: nat, inc: bool, postfix: bool, amount: int)
    | Preop(ty: CType, preop: PreOp, unop: Expr)
    | Binop(ty: CType, op: BinaryOp, left: Expr, right: Expr)
    | Compare(ty: CType, cmp: CompareOp, left: Expr, right: Expr)
    | Logical(ty: CType, isOr: bool, left: Expr, right: Expr)
    | Conditional(ty: CType, conditional: Expr, condTrue: Option<Expr>, condFalse: Expr)
    | Select(ty: CType, conditional: Expr, condTrue: Option<Expr>, condFalse: Expr)
    | Comma(ty: CType, left: Expr, right: Expr)
    | CastTo(ty: CType, castExpr: Expr)

  /** `Iterator` is every loop. Without `postCond` the `preCond` is tested before
      each round; with it, `preCond` is tested once and `postCond` after each
      round. */
  datatype Stmt =
    | Empty
    | ExprStmt(expr: Expr)
    | Compound(stmts: seq<Stmt>)
    | If(cond: Expr, ifTrue: Stmt, ifFalse: Option<Stmt>)
    | Iterator(pre: Option<Expr>, preCond: Option<Expr>, body: Stmt, post: Option<Expr>, postCond: Option<Expr>)
    | Break
    | Continue

  /** The variables, and every assignment made so far in order. */
  datatype Event = Wrote(sym: nat, value: int)
  datatype Memory = Memory(vals: map<nat, int>, trace: seq<Event>)
  {
    function Get(s: nat): int {
      if s in vals then vals[s] else 0
    }

    function Set(s: nat, v: int): Memory {
      Memory(vals[s := v], trace + [Wrote(s, v)])
    }
  }

  datatype Evaluated = Evaluated(v: int, st: Memory)

  /** `Standard` is the C reading. `Emitted` is what linearization implements: a
      logical operator yields its right operand's own value, and a select
      evaluates both arms and then the condition. */
  datatype Mode = Standard | Emitted

  /** linearize_binop's opcode table, adjusted by opcode_sign. */
  function BinopOpcode(op: BinaryOp, signed: bool): BinOp {
    match op
    case Plus => ADD
    case Minus => SUB
    case Times => if signed then MULS else MULU
    case Divide => if signed then DIVS else DIVU
    case Modulo => if signed then MODS else MODU
    case Amp => AND
    case Bar => OR
    case Caret => XOR
    case ShiftLeft => SHL
    case ShiftRight => if signed then ASR else LSR
    case LogAnd => AND_BOOL
    case LogOr => OR_BOOL
  }

  /** linearize_compare's table. */
  function CompareOpcode(op: CompareOp): BinOp {
    match op
    case Greater => SET_GT
    case Less => SET_LT
    case Equal => SET_EQ
    case NotEqual => SET_NE
    case Gte => SET_GE
    case Lte => SET_LE
    case UnsignedLt => SET_B
    case UnsignedGt => SET_A
    case UnsignedLte => SET_BE
    case UnsignedGte => SET_AE
  }

  function PreopValue(op: PreOp, n: nat, v: int): int {
    match op
    case UnaryPlus => v
    case Minus1 => EvalUnary(NEG, n, v)
    case LogNot => Bool(v == 0)
    case BitNot => EvalUnary(NOT, n, v)
  }

  function Nodes(e: Expr): (n: nat)
    ensures n > 0
  {
    match e
    case Value(_, _) => 1
    case Access(_, _) => 1
    case Assign(_, _, src) => 1 + Nodes(src)
    case IncDec(_, _, _, _, _) => 1
    case Preop(_, _, unop) => 1 + Nodes(unop)
    case Binop(_, _, left, right) => 1 + Nodes(left) + Nodes(right)
    case Compare(_, _, left, right) => 1 + Nodes(left) + Nodes(right)
    case Logical(_, _, left, right) => 3 + Nodes(left) + Nodes(right)
    case Conditional(_, c, t, f) => 1 + Nodes(c) + (if t.Some? then Nodes(t.value) else 0) + Nodes(f)
    case Select(_, c, t, f) => 1 + Nodes(c) + (if t.Some? then Nodes(t.value) else 0) + Nodes(f)
    case Comma(_, left, right) => 1 + Nodes(left) + Nodes(right)
    case CastTo(_, c) => 1 + Nodes(c)
  }

  function Eval(e: Expr, st: Memory, mode: Mode): Evaluated
    decreases Nodes(e)
  {
    match e
    case Value(_, v) => Evaluated(v, st)
    case Access(_, s) => Evaluated(st.Get(s), st)
    case Assign(_, s, src) =>
      var r := Eval(src, st, mode);
      Evaluated(r.v, r.st.Set(s, r.v))
    case IncDec(ty, s, inc, postfix, amount) =>
      var old' := st.Get(s);
      var new' := EvalBinary(if inc then ADD else SUB, ty.size, old', amount);
      Evaluated(if postfix then old' else new', st.Set(s, new'))
    case Preop(ty, op, unop) =>
      var r := Eval(unop, st, mode);
      Evaluated(PreopValue(op, ty.size, r.v), r.st)
    case Binop(ty, op, left, right) =>
      var l := Eval(left, st, mode);
      var r := Eval(right, l.st, mode);
      Evaluated(EvalBinary(BinopOpcode(op, ty.signed), ty.size, l.v, r.v), r.st)
    case Compare(_, op, left, right) =>
      var l := Eval(left, st, mode);
      var r := Eval(right, l.st, mode);
      Evaluated(EvalBinary(CompareOpcode(op), left.ty.size, l.v, r.v), r.st)
    case Logical(_, isOr, left, right) =>
      var l := Eval(left, st, mode);
      if (l.v != 0) == isOr then Evaluated(Bool(isOr), l.st)
      else
        var r := Eval(right, l.st, mode);
        if mode.Emitted? then r else Evaluated(Bool(r.v != 0), r.st)
    case Conditional(_, cond, condTrue, condFalse) =>
      EvalConditional(cond, condTrue, condFalse, st, mode)
    case Select(_, cond, condTrue, condFalse) =>
      if mode.Standard? then EvalConditional(cond, condTrue, condFalse, st, mode)
      else
        var t := if condTrue.Some? then Eval(condTrue.value, st, mode) else Evaluated(0, st);
        var f := Eval(condFalse, t.st, mode);
        var c := Eval(cond, f.st, mode);
        Evaluated(if c.v == 0 then f.v else if condTrue.Some? then t.v else c.v, c.st)
    case Comma(_, left, right) =>
      Eval(right, Eval(left, st, mode).st, mode)
    case CastTo(ty, c) =>
      var r := Eval(c, st, mode);
      Evaluated(EvalCast(c.ty.signed, c.ty.size, ty.size, r.v), r.st)
  }

  function EvalConditional(cond: Expr, condTrue: Option<Expr>, condFalse: Expr, st: Memory, mode: Mode): Evaluated
    decreases Nodes(cond) + (if condTrue.Some? then Nodes(condTrue.value) else 0) + Nodes(condFalse)
  {
    var c := Eval(cond, st, mode);
    if c.v == 0 then Eval(condFalse, c.st, mode)
    else if condTrue.Some? then Eval(condTrue.value, c.st, mode)
    else c
  }

  /** How a statement ends. `OutOfFuel` stops a run that has gone round its
      loops `fuel` times. */
  datatype Outcome = Normal | Broke | Continued | OutOfFuel

  datatype Executed = Executed(outcome: Outcome, st: Memory)

  function EvalOption(e: Option<Expr>, st: Memory, mode: Mode): Memory {
    if e.Some? then Eval(e.value, st, mode).st else st
  }

  function Exec(s: Stmt, st: Memory, fuel: nat, mode: Mode): Executed
    decreases fuel, s, 0
  {
    match s
    case Empty => Executed(Normal, st)
    case ExprStmt(e) => Executed(Normal, Eval(e, st, mode).st)
    case Compound(ss) => ExecAll(ss, st, fuel, mode)
    case If(cond, t, f) =>
      var c := Eval(cond, st, mode);
      if c.v != 0 then Exec(t, c.st, fuel, mode)
      else if f.Some? then Exec(f.value, c.st, fuel, mode)
      else Executed(Normal, c.st)
    case Iterator(pre, preCond, body, post, postCond) =>
      ExecTest(preCond, body, post, postCond, EvalOption(pre, st, mode), fuel, mode)
    case Break => Executed(Broke, st)
    case Continue => Executed(Continued, st)
  }

  /** Some number of rounds is enough for the statement to end normally. */
  ghost predicate Terminates(s: Stmt, st: Memory, mode: Mode) {
    exists fuel: nat :: Exec(s, st, fuel, mode).outcome.Normal?
  }

  function ExecAll(ss: seq<Stmt>, st: Memory, fuel: nat, mode: Mode): Executed
    decreases fuel, ss, 0
  {
    if ss == [] then Executed(Normal, st)
    else
      var r := ExecAll(ss[..|ss| - 1], st, fuel, mode);
      if r.outcome.Normal? then Exec(ss[|ss| - 1], r.st, fuel, mode) else r
  }

  /** A round of a loop that starts with the test of `preCond`. */
  function ExecTest(preCond: Option<Expr>, body: Stmt, post: Option<Expr>, postCond: Option<Expr>,
                    st: Memory, fuel: nat, mode: Mode): Executed
    decreases fuel, body, 2
  {
    if preCond.None? then ExecBody(preCond, body, post, postCond, st, fuel, mode)
    else
      var c := Eval(preCond.value, st, mode);
      if c.v == 0 then Executed(Normal, c.st)
      else ExecBody(preCond, body, post, postCond, c.st, fuel, mode)
  }

  /** The rest of a round: the body, the post-statement, and what follows. */
  function ExecBody(preCond: Option<Expr>, body: Stmt, post: Option<Expr>, postCond: Option<Expr>,
                    st: Memory, fuel: nat, mode: Mode): Executed
    decreases fuel, body, 1
  {
    var r := Exec(body, st, fuel, mode);
    match r.outcome
    case OutOfFuel => r
    case Broke => Executed(Normal, r.st)
    case _ =>
      var p := EvalOption(post, r.st, mode);
      if postCond.None? then
        if fuel == 0 then Executed(OutOfFuel, p)
        else ExecTest(preCond, body, post, postCond, p, fuel - 1, mode)
      else
        var c := Eval(postCond.value, p, mode);
        if c.v == 0 then Executed(Normal, c.st)
        else if fuel == 0 then Executed(OutOfFuel, c.st)
        else ExecBody(preCond, body, post, postCond, c.st, fuel - 1, mode)
  }
}
