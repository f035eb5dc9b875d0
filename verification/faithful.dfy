/** When the code that linearization emits means what C means. Two constructs can
    differ: the value of `&&` and `||`, and a select whose arms read what its
    condition assigns. */
module Faithful {
  import opened Options
  import opened Ir
  import opened Arith
  import opened Ast
  import opened Semantics
  import opened Expand
  import opened StmtLowering

  // ---------------------------------------------------------------------------
  // What an expression reads and assigns
  // ---------------------------------------------------------------------------

  function Reads(e: Expr): set<nat> {
    match e
    case Value(_, _) => {}
    case Access(_, s) => {s}
    case Assign(_, _, src) => Reads(src)
    case IncDec(_, s, _, _, _) => {s}
    case Preop(_, _, unop) => Reads(unop)
    case Binop(_, _, left, right) => Reads(left) + Reads(right)
    case Compare(_, _, left, right) => Reads(left) + Reads(right)
    case Logical(_, _, left, right) => Reads(left) + Reads(right)
    case Conditional(_, c, t, f) => Reads(c) + (if t.Some? then Reads(t.value) else {}) + Reads(f)
    case Select(_, c, t, f) => Reads(c) + (if t.Some? then Reads(t.value) else {}) + Reads(f)
    case Comma(_, left, right) => Reads(left) + Reads(right)
    case CastTo(_, c) => Reads(c)
  }

  function Writes(e: Expr): set<nat> {
    match e
    case Value(_, _) => {}
    case Access(_, _) => {}
    case Assign(_, s, src) => {s} + Writes(src)
    case IncDec(_, s, _, _, _) => {s}
    case Preop(_, _, unop) => Writes(unop)
    case Binop(_, _, left, right) => Writes(left) + Writes(right)
    case Compare(_, _, left, right) => Writes(left) + Writes(right)
    case Logical(_, _, left, right) => Writes(left) + Writes(right)
    case Conditional(_, c, t, f) => Writes(c) + (if t.Some? then Writes(t.value) else {}) + Writes(f)
    case Select(_, c, t, f) => Writes(c) + (if t.Some? then Writes(t.value) else {}) + Writes(f)
    case Comma(_, left, right) => Writes(left) + Writes(right)
    case CastTo(_, c) => Writes(c)
  }

  ghost predicate SameOn(vars: set<nat>, st: Memory, st': Memory) {
    forall s :: s in vars ==> st.Get(s) == st'.Get(s)
  }

  /** Evaluation changes only what the expression assigns. */
  lemma {:induction false} OnlyWrites(e: Expr, st: Memory, mode: Mode, vars: set<nat>)
    requires vars !! Writes(e)
    ensures SameOn(vars, st, Eval(e, st, mode).st)
    decreases Nodes(e)
  {
    match e
    case Value(_, _) =>
    case Access(_, _) =>
    case Assign(_, _, src) => OnlyWrites(src, st, mode, vars);
    case IncDec(_, _, _, _, _) =>
    case Preop(_, _, unop) => OnlyWrites(unop, st, mode, vars);
    case Binop(_, _, left, right) => OnlyWrites2(left, right, st, mode, vars);
    case Compare(_, _, left, right) => OnlyWrites2(left, right, st, mode, vars);
    case Logical(_, _, left, right) => OnlyWrites2(left, right, st, mode, vars);
    case Conditional(_, c, t, f) =>
      OnlyWrites2(c, f, st, mode, vars);
      if t.Some? { OnlyWrites2(c, t.value, st, mode, vars); }
    case Select(_, c, t, f) =>
      if mode.Standard? {
        OnlyWrites2(c, f, st, mode, vars);
        if t.Some? { OnlyWrites2(c, t.value, st, mode, vars); }
      } else {
        var st1 := if t.Some? then Eval(t.value, st, mode).st else st;
        if t.Some? { OnlyWrites(t.value, st, mode, vars); }
        OnlyWrites2(f, c, st1, mode, vars);
      }
    case Comma(_, left, right) => OnlyWrites2(left, right, st, mode, vars);
    case CastTo(_, c) => OnlyWrites(c, st, mode, vars);
  }

  lemma {:induction false} OnlyWrites2(e1: Expr, e2: Expr, st: Memory, mode: Mode, vars: set<nat>)
    requires vars !! Writes(e1) && vars !! Writes(e2)
    ensures SameOn(vars, st, Eval(e1, st, mode).st)
    ensures SameOn(vars, st, Eval(e2, Eval(e1, st, mode).st, mode).st)
    decreases Nodes(e1) + Nodes(e2)
  {
    OnlyWrites(e1, st, mode, vars);
    OnlyWrites(e2, Eval(e1, st, mode).st, mode, vars);
  }

  /** An expression without assignments has one value on all states that agree on
      what it reads. */
  lemma {:induction false} PureReads(e: Expr, st: Memory, st': Memory, mode: Mode)
    requires SideEffectFree(e) && SameOn(Reads(e), st, st')
    ensures Eval(e, st, mode).v == Eval(e, st', mode).v
    decreases Nodes(e)
  {
    match e
    case Preop(_, _, unop) => PureReads(unop, st, st', mode);
    case Binop(_, _, left, right) => PureReads2(left, right, st, st', mode);
    case Compare(_, _, left, right) => PureReads2(left, right, st, st', mode);
    case Logical(_, _, left, right) => PureReads2(left, right, st, st', mode);
    case Conditional(_, c, t, f) =>
      PureReads2(c, f, st, st', mode);
      if t.Some? { PureReads2(c, t.value, st, st', mode); }
    case Select(_, c, t, f) =>
      PureReads2(c, f, st, st', mode);
      PureReads2(f, c, st, st', mode);
      if t.Some? { PureReads2(c, t.value, st, st', mode); PureReads2(t.value, f, st, st', mode); }
    case Comma(_, left, right) => PureReads2(left, right, st, st', mode);
    case CastTo(_, c) => PureReads(c, st, st', mode);
    case _ =>
  }

  lemma {:induction false} PureReads2(e1: Expr, e2: Expr, st: Memory, st': Memory, mode: Mode)
    requires SideEffectFree(e1) && SideEffectFree(e2) && SameOn(Reads(e1), st, st') && SameOn(Reads(e2), st, st')
    ensures Eval(e1, st, mode).v == Eval(e1, st', mode).v && Eval(e1, st, mode).st == st
            && Eval(e1, st', mode).st == st'
    ensures Eval(e2, st, mode).v == Eval(e2, st', mode).v && Eval(e2, st, mode).st == st
            && Eval(e2, st', mode).st == st'
    decreases Nodes(e1) + Nodes(e2)
  {
    PureReads(e1, st, st', mode);
    PureReads(e2, st, st', mode);
    PureKeepsMemory(e1, st, mode);
    PureKeepsMemory(e1, st', mode);
    PureKeepsMemory(e2, st, mode);
    PureKeepsMemory(e2, st', mode);
  }

  // ---------------------------------------------------------------------------
  // The value of a logical operator
  // ---------------------------------------------------------------------------

  const Int: CType := CType(32, true)

  /** `1 && 2` is 1 in C and 2 in the emitted code. */
  lemma LogicalYieldsRightOperand()
    ensures var e := Logical(Int, false, Value(Int, 1), Value(Int, 2)); var st := Memory(map[], []);
            Eval(e, st, Standard).v == 1 && Eval(e, st, Emitted).v == 2
  {
  }

  /** The emitted value of `&&` and `||` is the C value exactly when the left side
      decides or the right side is 0 or 1; its truth is always the C truth. */
  lemma LogicalValue(e: Expr, st: Memory)
    requires e.Logical?
    requires forall s :: Eval(e.left, s, Emitted) == Eval(e.left, s, Standard)
    requires forall s :: Eval(e.right, s, Emitted) == Eval(e.right, s, Standard)
    ensures var l := Eval(e.left, st, Standard); var r := Eval(e.right, l.st, Standard);
            Eval(e, st, Emitted) == Eval(e, st, Standard) <==> ((l.v != 0) == e.isOr || r.v == 0 || r.v == 1)
    ensures Eval(e, st, Emitted).st == Eval(e, st, Standard).st
    ensures Eval(e, st, Emitted).v != 0 <==> Eval(e, st, Standard).v != 0
  {
    var l := Eval(e.left, st, Standard);
    assert Eval(e.left, st, Emitted) == l && Eval(e.right, l.st, Emitted) == Eval(e.right, l.st, Standard);
  }

  // ---------------------------------------------------------------------------
  // Selects
  // ---------------------------------------------------------------------------

  /** `(x = v) ? x : 0` */
  function AssignThenRead(ty: CType, x: nat, v: int): Expr {
    Conditional(ty, Assign(ty, x, Value(ty, v)), Some(Access(ty, x)), Value(ty, 0))
  }

  lemma AssignThenReadBecomesSelect(ty: CType, x: nat, v: int)
    requires Sized(ty) && Canonical(v, ty.size)
    ensures WellTyped(AssignThenRead(ty, x, v), {})
    ensures ExpandExpr(AssignThenRead(ty, x, v), {}).e
         == Select(ty, Assign(ty, x, Value(ty, v)), Some(Access(ty, x)), Value(ty, 0))
  {
    var e := AssignThenRead(ty, x, v);
    assert ExpandExpr(Value(ty, v), {}) == Expanded(Value(ty, v), 0);
    assert ExpandExpr(e.conditional, {}).e == e.conditional;
    assert ExpandExpr(e.condTrue.value, {}) == Expanded(Access(ty, x), 1);
    assert ExpandExpr(e.condFalse, {}) == Expanded(Value(ty, 0), 0);
  }

  /** `(x = v) ? x : 0`, with v not 0, is cheap enough to become a select, which
      reads x before it assigns it: the C value is v, the emitted one what x was. */
  lemma SelectReadsTooEarly(ty: CType, x: nat, v: int, st: Memory)
    requires Sized(ty) && Canonical(v, ty.size) && v != 0
    ensures WellTyped(AssignThenRead(ty, x, v), {})
    ensures Eval(AssignThenRead(ty, x, v), st, Standard).v == v
    ensures Eval(ExpandExpr(AssignThenRead(ty, x, v), {}).e, st, Emitted).v == st.Get(x)
  {
    AssignThenReadBecomesSelect(ty, x, v);
    assert Eval(Value(ty, v), st, Standard) == Evaluated(v, st);
    assert Eval(Assign(ty, x, Value(ty, v)), st, Standard) == Evaluated(v, st.Set(x, v));
    var e := AssignThenRead(ty, x, v);
    assert Eval(Access(ty, x), st.Set(x, v), Standard) == Evaluated(v, st.Set(x, v));
    assert Eval(e, st, Standard) == EvalConditional(e.conditional, e.condTrue, e.condFalse, st, Standard);
    assert Eval(Value(ty, v), st, Emitted) == Evaluated(v, st);
    assert Eval(Assign(ty, x, Value(ty, v)), st, Emitted) == Evaluated(v, st.Set(x, v));
    assert Eval(Access(ty, x), st, Emitted) == Evaluated(st.Get(x), st);
  }

  /** A select whose arms assign nothing is the conditional it came from exactly when
      the arm that the condition picks has the same value before the condition and
      after it. */
  lemma SelectExactly(e: Expr, st: Memory)
    requires e.Select? && SideEffectFree(e.condFalse) && (e.condTrue.Some? ==> SideEffectFree(e.condTrue.value))
    ensures var c := Eval(e.conditional, st, Emitted);
            Eval(e, st, Emitted) == EvalConditional(e.conditional, e.condTrue, e.condFalse, st, Emitted) <==>
              if c.v == 0 then Eval(e.condFalse, st, Emitted).v == Eval(e.condFalse, c.st, Emitted).v
              else e.condTrue.Some? ==> Eval(e.condTrue.value, st, Emitted).v == Eval(e.condTrue.value, c.st, Emitted).v
  {
    var c := Eval(e.conditional, st, Emitted);
    PureKeepsMemory(e.condFalse, st, Emitted);
    PureKeepsMemory(e.condFalse, c.st, Emitted);
    if e.condTrue.Some? {
      PureKeepsMemory(e.condTrue.value, st, Emitted);
      PureKeepsMemory(e.condTrue.value, c.st, Emitted);
    }
  }

  /** So it is when the condition assigns nothing that the arms read. */
  lemma SelectIsConditional(e: Expr, st: Memory)
    requires e.Select? && SideEffectFree(e.condFalse) && (e.condTrue.Some? ==> SideEffectFree(e.condTrue.value))
    requires Writes(e.conditional) !! Reads(e.condFalse)
    requires e.condTrue.Some? ==> Writes(e.conditional) !! Reads(e.condTrue.value)
    ensures Eval(e, st, Emitted) == EvalConditional(e.conditional, e.condTrue, e.condFalse, st, Emitted)
  {
    var c := Eval(e.conditional, st, Emitted);
    SelectExactly(e, st);
    OnlyWrites(e.conditional, st, Emitted, Reads(e.condFalse));
    PureReads(e.condFalse, st, c.st, Emitted);
    if e.condTrue.Some? {
      OnlyWrites(e.conditional, st, Emitted, Reads(e.condTrue.value));
      PureReads(e.condTrue.value, st, c.st, Emitted);
    }
  }

  /** Every select that expansion makes of a conditional has arms that assign
      nothing, and every logical operator it makes safe has such a right side. */
  lemma NewSelectsHavePureArms(e: Expr, statics: set<nat>)
    requires WellTyped(e, statics)
    ensures e.Conditional? && ExpandExpr(e.conditional, statics).e.Value? == false
            && ExpandExpr(e, statics).e.Select? ==>
      var r := ExpandExpr(e, statics).e;
      SideEffectFree(r.condFalse) && (r.condTrue.Some? ==> SideEffectFree(r.condTrue.value))
    ensures e.Logical? && ExpandExpr(e, statics).e.Binop? ==> SideEffectFree(ExpandExpr(e, statics).e.right)
  {
    var st := Memory(map[], []);
    if e.Conditional? {
      ExpandPreserves(e.condFalse, st, statics);
      if e.condTrue.Some? {
        ExpandPreserves(e.condTrue.value, st, statics);
      }
    } else if e.Logical? {
      ExpandPreserves(e.right, st, statics);
    }
  }

  // ---------------------------------------------------------------------------
  // Faithful expressions and statements
  // ---------------------------------------------------------------------------

  /** The value is 0 or 1. */
  predicate BooleanValued(e: Expr) {
    match e
    case Value(_, v) => v == 0 || v == 1
    case Preop(_, op, _) => op.LogNot?
    case Binop(_, op, _, _) => op.LogAnd? || op.LogOr?
    case Compare(_, _, _, _) => true
    case Logical(_, _, _, right) => BooleanValued(right)
    case _ => false
  }

  lemma {:induction false} BooleanValues(e: Expr, st: Memory, mode: Mode)
    requires BooleanValued(e)
    ensures Eval(e, st, mode).v == 0 || Eval(e, st, mode).v == 1
    decreases Nodes(e)
  {
    if e.Logical? {
      BooleanValues(e.right, Eval(e.left, st, mode).st, mode);
    }
  }

  /** The value is used (`asCond` false), or only whether it is zero. Logical
      operators whose value is used have a right side that is 0 or 1; selects have
      arms without assignments that read nothing the condition assigns. */
  predicate Faithful(e: Expr, asCond: bool)
    decreases Nodes(e)
  {
    match e
    case Value(_, _) => true
    case Access(_, _) => true
    case Assign(_, _, src) => Faithful(src, false)
    case IncDec(_, _, _, _, _) => true
    case Preop(_, op, unop) => Faithful(unop, op.LogNot?)
    case Binop(_, op, left, right) => Faithful(left, op.LogAnd? || op.LogOr?)
                                      && Faithful(right, op.LogAnd? || op.LogOr?)
    case Compare(_, _, left, right) => Faithful(left, false) && Faithful(right, false)
    case Logical(_, _, left, right) =>
      Faithful(left, true) && Faithful(right, asCond) && (asCond || BooleanValued(right))
    case Conditional(_, c, t, f) =>
      && Faithful(c, t.Some? || asCond) && (t.Some? ==> Faithful(t.value, asCond)) && Faithful(f, asCond)
    case Select(_, c, t, f) =>
      && Faithful(c, t.Some? || asCond) && (t.Some? ==> Faithful(t.value, asCond)) && Faithful(f, asCond)
      && SideEffectFree(f) && Writes(c) !! Reads(f)
      && (t.Some? ==> SideEffectFree(t.value) && Writes(c) !! Reads(t.value))
    case Comma(_, left, right) => Faithful(left, true) && Faithful(right, asCond)
    case CastTo(_, c) => Faithful(c, false)
  }

  /** The same in both readings, or at least the same truth. */
  ghost predicate SameMeaning(e: Expr, st: Memory, asCond: bool) {
    var a, b := Eval(e, st, Emitted), Eval(e, st, Standard);
    a.st == b.st && (a.v != 0 <==> b.v != 0) && (asCond || a.v == b.v)
  }

  lemma ConditionalMeaning(e: Expr, st: Memory, asCond: bool)
    requires (e.Conditional? || e.Select?) && Faithful(e, asCond)
    requires SameMeaning(e.conditional, st, e.condTrue.Some? || asCond)
    requires var c := Eval(e.conditional, st, Standard);
             SameMeaning(e.condFalse, c.st, asCond)
             && (e.condTrue.Some? ==> SameMeaning(e.condTrue.value, c.st, asCond))
    ensures SameMeaning(e, st, asCond)
  {
    if e.Select? {
      SelectIsConditional(e, st);
    }
    assert Eval(e, st, Emitted) == EvalConditional(e.conditional, e.condTrue, e.condFalse, st, Emitted);
    assert Eval(e, st, Standard) == EvalConditional(e.conditional, e.condTrue, e.condFalse, st, Standard);
  }

  lemma LogicalMeaning(e: Expr, st: Memory, asCond: bool)
    requires e.Logical? && Faithful(e, asCond)
    requires SameMeaning(e.left, st, true) && SameMeaning(e.right, Eval(e.left, st, Standard).st, asCond)
    ensures SameMeaning(e, st, asCond)
  {
    if !asCond {
      BooleanValues(e.right, Eval(e.left, st, Standard).st, Standard);
    }
  }

  lemma OperationMeaning(e: Expr, st: Memory, asCond: bool)
    requires e.Binop? || e.Compare?
    requires var b := e.Binop? && (e.op.LogAnd? || e.op.LogOr?);
             SameMeaning(e.left, st, b) && SameMeaning(e.right, Eval(e.left, st, Standard).st, b)
    ensures SameMeaning(e, st, asCond)
  {
  }

  /** What linearization emits for a faithful expression means what C means. */
  lemma {:induction false} FaithfulMeaning(e: Expr, st: Memory, asCond: bool)
    requires Faithful(e, asCond)
    ensures SameMeaning(e, st, asCond)
    decreases Nodes(e)
  {
    match e
    case Value(_, _) =>
    case Access(_, _) =>
    case Assign(_, _, src) => FaithfulMeaning(src, st, false);
    case IncDec(_, _, _, _, _) =>
    case Preop(_, op, unop) => FaithfulMeaning(unop, st, op.LogNot?);
    case Binop(_, op, left, right) =>
      FaithfulMeaning(left, st, op.LogAnd? || op.LogOr?);
      FaithfulMeaning(right, Eval(left, st, Standard).st, op.LogAnd? || op.LogOr?);
      OperationMeaning(e, st, asCond);
    case Compare(_, _, left, right) =>
      FaithfulMeaning(left, st, false);
      FaithfulMeaning(right, Eval(left, st, Standard).st, false);
      OperationMeaning(e, st, asCond);
    case Logical(_, _, left, right) =>
      FaithfulMeaning(left, st, true);
      FaithfulMeaning(right, Eval(left, st, Standard).st, asCond);
      LogicalMeaning(e, st, asCond);
    case Conditional(_, c, t, f) =>
      FaithfulMeaning(c, st, t.Some? || asCond);
      if t.Some? { FaithfulMeaning(t.value, Eval(c, st, Standard).st, asCond); }
      FaithfulMeaning(f, Eval(c, st, Standard).st, asCond);
      ConditionalMeaning(e, st, asCond);
    case Select(_, c, t, f) =>
      FaithfulMeaning(c, st, t.Some? || asCond);
      if t.Some? { FaithfulMeaning(t.value, Eval(c, st, Standard).st, asCond); }
      FaithfulMeaning(f, Eval(c, st, Standard).st, asCond);
      ConditionalMeaning(e, st, asCond);
    case Comma(_, left, right) =>
      FaithfulMeaning(left, st, true);
      FaithfulMeaning(right, Eval(left, st, Standard).st, asCond);
    case CastTo(_, c) => FaithfulMeaning(c, st, false);
  }

  predicate FaithfulOption(e: Option<Expr>) {
    e.Some? ==> Faithful(e.value, true)
  }

  predicate FaithfulStmt(s: Stmt) {
    match s
    case ExprStmt(e) => Faithful(e, true)
    case Compound(ss) => forall i :: 0 <= i < |ss| ==> FaithfulStmt(ss[i])
    case If(cond, t, f) => Faithful(cond, true) && FaithfulStmt(t) && (f.Some? ==> FaithfulStmt(f.value))
    case Iterator(pre, preCond, body, post, postCond) =>
      FaithfulOption(pre) && FaithfulOption(preCond) && FaithfulStmt(body) && FaithfulOption(post)
      && FaithfulOption(postCond)
    case _ => true
  }

  lemma OptionMeaning(e: Option<Expr>, st: Memory)
    requires FaithfulOption(e)
    ensures EvalOption(e, st, Emitted) == EvalOption(e, st, Standard)
    ensures e.Some? ==> SameMeaning(e.value, st, true)
  {
    if e.Some? {
      FaithfulMeaning(e.value, st, true);
    }
  }

  lemma {:induction false} FaithfulExec(s: Stmt, st: Memory, fuel: nat)
    requires FaithfulStmt(s)
    ensures Exec(s, st, fuel, Emitted) == Exec(s, st, fuel, Standard)
    decreases fuel, s, 0
  {
    match s
    case ExprStmt(e) => FaithfulMeaning(e, st, true);
    case Compound(ss) => FaithfulExecAll(ss, |ss|, st, fuel); assert ss[..|ss|] == ss;
    case If(cond, t, f) =>
      FaithfulMeaning(cond, st, true);
      var c := Eval(cond, st, Standard);
      FaithfulExec(t, c.st, fuel);
      if f.Some? { FaithfulExec(f.value, c.st, fuel); }
    case Iterator(pre, preCond, body, post, postCond) =>
      OptionMeaning(pre, st);
      FaithfulTest(s, EvalOption(pre, st, Standard), fuel);
    case _ =>
  }

  lemma {:induction false} FaithfulExecAll(ss: seq<Stmt>, n: nat, st: Memory, fuel: nat)
    requires n <= |ss| && forall i :: 0 <= i < |ss| ==> FaithfulStmt(ss[i])
    ensures ExecAll(ss[..n], st, fuel, Emitted) == ExecAll(ss[..n], st, fuel, Standard)
    decreases fuel, ss, 1, n
  {
    if n > 0 {
      FaithfulExecAll(ss, n - 1, st, fuel);
      assert ss[..n][..n - 1] == ss[..n - 1];
      FaithfulExec(ss[n - 1], ExecAll(ss[..n - 1], st, fuel, Standard).st, fuel);
    }
  }

  lemma {:induction false} FaithfulTest(s: Stmt, st: Memory, fuel: nat)
    requires s.Iterator? && FaithfulStmt(s)
    ensures ExecTest(s.preCond, s.body, s.post, s.postCond, st, fuel, Emitted)
         == ExecTest(s.preCond, s.body, s.post, s.postCond, st, fuel, Standard)
    decreases fuel, s.body, 2
  {
    OptionMeaning(s.preCond, st);
    FaithfulBody(s, if s.preCond.Some? then Eval(s.preCond.value, st, Standard).st else st, fuel);
  }

  lemma {:induction false} FaithfulBody(s: Stmt, st: Memory, fuel: nat)
    requires s.Iterator? && FaithfulStmt(s)
    ensures ExecBody(s.preCond, s.body, s.post, s.postCond, st, fuel, Emitted)
         == ExecBody(s.preCond, s.body, s.post, s.postCond, st, fuel, Standard)
    decreases fuel, s.body, 1
  {
    FaithfulExec(s.body, st, fuel);
    var r := Exec(s.body, st, fuel, Standard);
    OptionMeaning(s.post, r.st);
    var p := EvalOption(s.post, r.st, Standard);
    OptionMeaning(s.postCond, p);
    if fuel > 0 {
      if s.postCond.None? {
        FaithfulTest(s, p, fuel - 1);
      } else {
        FaithfulBody(s, Eval(s.postCond.value, p, Standard).st, fuel - 1);
      }
    }
  }

  // ---------------------------------------------------------------------------
  // From the source to the blocks
  // ---------------------------------------------------------------------------

  function ExpandOption(e: Option<Expr>, statics: set<nat>): Option<Expr> {
    if e.Some? then Some(ExpandExpr(e.value, statics).e) else None
  }

  /** expand_statement; a compound of one statement becomes that statement. */
  function ExpandStmt(s: Stmt, statics: set<nat>): Stmt {
    match s
    case ExprStmt(e) => ExprStmt(ExpandExpr(e, statics).e)
    case Compound(ss) =>
      if |ss| == 1 then ExpandStmt(ss[0], statics)
      else Compound(seq(|ss|, i requires 0 <= i < |ss| => ExpandStmt(ss[i], statics)))
    case If(cond, t, f) =>
      If(ExpandExpr(cond, statics).e, ExpandStmt(t, statics),
           if f.Some? then Some(ExpandStmt(f.value, statics)) else None)
    case Iterator(pre, preCond, body, post, postCond) =>
      Iterator(ExpandOption(pre, statics), ExpandOption(preCond, statics), ExpandStmt(body, statics),
               ExpandOption(post, statics), ExpandOption(postCond, statics))
    case _ => s
  }

  predicate WellTypedOption(e: Option<Expr>, statics: set<nat>) {
    e.Some? ==> WellTyped(e.value, statics)
  }

  predicate WellTypedStmt(s: Stmt, statics: set<nat>) {
    match s
    case ExprStmt(e) => WellTyped(e, statics)
    case Compound(ss) => forall i :: 0 <= i < |ss| ==> WellTypedStmt(ss[i], statics)
    case If(cond, t, f) =>
      WellTyped(cond, statics) && WellTypedStmt(t, statics) && (f.Some? ==> WellTypedStmt(f.value, statics))
    case Iterator(pre, preCond, body, post, postCond) =>
      && WellTypedOption(pre, statics) && WellTypedOption(preCond, statics) && WellTypedStmt(body, statics)
      && WellTypedOption(post, statics) && WellTypedOption(postCond, statics)
    case _ => true
  }

  lemma ExpandOptionPreserves(e: Option<Expr>, st: Memory, statics: set<nat>)
    requires WellTypedOption(e, statics)
    ensures EvalOption(ExpandOption(e, statics), st, Standard) == EvalOption(e, st, Standard)
    ensures e.Some? ==> Eval(ExpandOption(e, statics).value, st, Standard) == Eval(e.value, st, Standard)
  {
    if e.Some? {
      ExpandPreserves(e.value, st, statics);
    }
  }

  /** Expansion leaves every run of a statement as it was. */
  lemma {:induction false} ExpandExec(s: Stmt, st: Memory, fuel: nat, statics: set<nat>)
    requires WellTypedStmt(s, statics)
    ensures Exec(ExpandStmt(s, statics), st, fuel, Standard) == Exec(s, st, fuel, Standard)
    decreases fuel, s, 0
  {
    match s
    case ExprStmt(e) => ExpandPreserves(e, st, statics);
    case Compound(ss) =>
      if |ss| == 1 {
        assert ss[..0] == [];
        assert ExecAll(ss, st, fuel, Standard) == Exec(ss[0], st, fuel, Standard);
        ExpandExec(ss[0], st, fuel, statics);
      } else {
        var ss' := seq(|ss|, i requires 0 <= i < |ss| => ExpandStmt(ss[i], statics));
        ExpandExecAll(ss, ss', |ss|, st, fuel, statics);
        assert ss[..|ss|] == ss && ss'[..|ss|] == ss';
      }
    case If(cond, t, f) =>
      ExpandPreserves(cond, st, statics);
      var c := Eval(cond, st, Standard);
      ExpandExec(t, c.st, fuel, statics);
      if f.Some? { ExpandExec(f.value, c.st, fuel, statics); }
    case Iterator(pre, preCond, body, post, postCond) =>
      ExpandOptionPreserves(pre, st, statics);
      ExpandTest(s, EvalOption(pre, st, Standard), fuel, statics);
    case _ =>
  }

  lemma {:induction false} ExpandExecAll(ss: seq<Stmt>, ss': seq<Stmt>, n: nat, st: Memory, fuel: nat,
                                         statics: set<nat>)
    requires n <= |ss| == |ss'| && forall i :: 0 <= i < |ss| ==> WellTypedStmt(ss[i], statics)
    requires forall i :: 0 <= i < |ss| ==> ss'[i] == ExpandStmt(ss[i], statics)
    ensures ExecAll(ss'[..n], st, fuel, Standard) == ExecAll(ss[..n], st, fuel, Standard)
    decreases fuel, ss, 1, n
  {
    if n > 0 {
      ExpandExecAll(ss, ss', n - 1, st, fuel, statics);
      assert ss[..n][..n - 1] == ss[..n - 1] && ss'[..n][..n - 1] == ss'[..n - 1];
      ExpandExec(ss[n - 1], ExecAll(ss[..n - 1], st, fuel, Standard).st, fuel, statics);
    }
  }

  lemma {:induction false} ExpandTest(s: Stmt, st: Memory, fuel: nat, statics: set<nat>)
    requires s.Iterator? && WellTypedStmt(s, statics)
    ensures ExecTest(ExpandOption(s.preCond, statics), ExpandStmt(s.body, statics), ExpandOption(s.post, statics),
                     ExpandOption(s.postCond, statics), st, fuel, Standard)
         == ExecTest(s.preCond, s.body, s.post, s.postCond, st, fuel, Standard)
    decreases fuel, s.body, 2
  {
    ExpandOptionPreserves(s.preCond, st, statics);
    ExpandBody(s, if s.preCond.Some? then Eval(s.preCond.value, st, Standard).st else st, fuel, statics);
  }

  lemma {:induction false} ExpandBody(s: Stmt, st: Memory, fuel: nat, statics: set<nat>)
    requires s.Iterator? && WellTypedStmt(s, statics)
    ensures ExecBody(ExpandOption(s.preCond, statics), ExpandStmt(s.body, statics), ExpandOption(s.post, statics),
                     ExpandOption(s.postCond, statics), st, fuel, Standard)
         == ExecBody(s.preCond, s.body, s.post, s.postCond, st, fuel, Standard)
    decreases fuel, s.body, 1
  {
    ExpandExec(s.body, st, fuel, statics);
    var r := Exec(s.body, st, fuel, Standard);
    ExpandOptionPreserves(s.post, r.st, statics);
    var p := EvalOption(s.post, r.st, Standard);
    ExpandOptionPreserves(s.postCond, p, statics);
    if fuel > 0 {
      if s.postCond.None? {
        ExpandTest(s, p, fuel - 1, statics);
      } else {
        ExpandBody(s, Eval(s.postCond.value, p, Standard).st, fuel - 1, statics);
      }
    }
  }

  lemma {:induction false} ExpandKeepsNesting(s: Stmt, inLoop: bool, statics: set<nat>)
    requires WellNested(s, inLoop)
    ensures WellNested(ExpandStmt(s, statics), inLoop)
  {
    match s
    case Compound(ss) =>
      forall i | 0 <= i < |ss| ensures WellNested(ExpandStmt(ss[i], statics), inLoop) {
        ExpandKeepsNesting(ss[i], inLoop, statics);
      }
    case If(_, t, f) =>
      ExpandKeepsNesting(t, inLoop, statics);
      if f.Some? { ExpandKeepsNesting(f.value, inLoop, statics); }
    case Iterator(_, _, body, _, _) => ExpandKeepsNesting(body, true, statics);
    case _ =>
  }

  // ---------------------------------------------------------------------------
  // What can be checked on the source
  // ---------------------------------------------------------------------------

  /** A source expression that compilation cannot change the meaning of: no conditional
      assigns in its condition what its arms read, and `&&` and `||` whose value is
      used have a right side that is 0 or 1. */
  predicate Safe(e: Expr, asCond: bool)
    decreases Nodes(e)
  {
    match e
    case Value(_, _) => true
    case Access(_, _) => true
    case Assign(_, _, src) => Safe(src, false)
    case IncDec(_, _, _, _, _) => true
    case Preop(_, op, unop) => Safe(unop, op.LogNot?)
    case Binop(_, op, left, right) => Safe(left, op.LogAnd? || op.LogOr?) && Safe(right, op.LogAnd? || op.LogOr?)
    case Compare(_, _, left, right) => Safe(left, false) && Safe(right, false)
    case Logical(_, _, left, right) => Safe(left, true) && Safe(right, asCond) && (asCond || BooleanValued(right))
    case Conditional(_, c, t, f) =>
      && Safe(c, t.Some? || asCond) && (t.Some? ==> Safe(t.value, asCond)) && Safe(f, asCond)
      && Writes(c) !! Reads(f) && (t.Some? ==> Writes(c) !! Reads(t.value))
    case Select(_, _, _, _) => false
    case Comma(_, left, right) => Safe(left, true) && Safe(right, asCond)
    case CastTo(_, c) => Safe(c, false)
  }

  predicate SafeOption(e: Option<Expr>) {
    e.Some? ==> Safe(e.value, true)
  }

  predicate SafeStmt(s: Stmt) {
    match s
    case ExprStmt(e) => Safe(e, true)
    case Compound(ss) => forall i :: 0 <= i < |ss| ==> SafeStmt(ss[i])
    case If(cond, t, f) => Safe(cond, true) && SafeStmt(t) && (f.Some? ==> SafeStmt(f.value))
    case Iterator(pre, preCond, body, post, postCond) =>
      SafeOption(pre) && SafeOption(preCond) && SafeStmt(body) && SafeOption(post) && SafeOption(postCond)
    case _ => true
  }

  /** Expansion reads and assigns no more. */
  lemma {:induction false} ExpandReadsLess(e: Expr, statics: set<nat>)
    ensures Reads(ExpandExpr(e, statics).e) <= Reads(e) && Writes(ExpandExpr(e, statics).e) <= Writes(e)
    decreases Nodes(e), 1
  {
    match e
    case Logical(_, _, left, right) => ExpandReadsLess(left, statics); ExpandReadsLess(right, statics);
    case Conditional(_, c, t, f) =>
      ExpandReadsLess(c, statics);
      if t.Some? { ExpandReadsLess(t.value, statics); }
      ExpandReadsLess(f, statics);
    case _ => OperandsReadLess(e, statics);
  }

  lemma {:induction false} OperandsReadLess(e: Expr, statics: set<nat>)
    requires !e.Logical? && !e.Conditional?
    ensures Reads(ExpandExpr(e, statics).e) <= Reads(e) && Writes(ExpandExpr(e, statics).e) <= Writes(e)
    decreases Nodes(e), 0
  {
    match e
    case Assign(_, _, src) => ExpandReadsLess(src, statics);
    case Preop(_, _, unop) => ExpandReadsLess(unop, statics);
    case Binop(_, _, left, right) => ExpandReadsLess(left, statics); ExpandReadsLess(right, statics);
    case Compare(_, _, left, right) => ExpandReadsLess(left, statics); ExpandReadsLess(right, statics);
    case Select(_, c, t, f) =>
      ExpandReadsLess(c, statics);
      if t.Some? { ExpandReadsLess(t.value, statics); }
      ExpandReadsLess(f, statics);
    case Comma(_, left, right) => ExpandReadsLess(left, statics); ExpandReadsLess(right, statics);
    case CastTo(_, c) => ExpandReadsLess(c, statics);
    case _ =>
  }

  lemma {:induction false} ExpandStaysBoolean(e: Expr, statics: set<nat>)
    requires BooleanValued(e)
    ensures BooleanValued(ExpandExpr(e, statics).e)
    decreases Nodes(e)
  {
    if e.Logical? {
      ExpandStaysBoolean(e.right, statics);
    } else {
      OperatorStaysBoolean(e, statics);
    }
  }

  lemma OperatorStaysBoolean(e: Expr, statics: set<nat>)
    requires BooleanValued(e) && !e.Logical?
    ensures BooleanValued(ExpandExpr(e, statics).e)
  {
    match e
    case Preop(ty, op, unop) => FoldedNot(ty, ExpandExpr(unop, statics).e);
    case Binop(ty, op, left, right) =>
      var l, r := ExpandExpr(left, statics), ExpandExpr(right, statics);
      FoldedAndOr(ty, op, l.e, r.e, l.cost + r.cost);
    case Compare(_, op, left, right) =>
    case _ =>
  }

  lemma FoldedNot(ty: CType, u: Expr)
    ensures u.Value? && ty.size > 0 ==> FoldPreop(LogNot, ty, u.value) in {Some(0), Some(1)}
  {
    if u.Value? && ty.size > 0 {
      assert Pow2(ty.size) >= 2;
      assert Wrap(Bool(u.value == 0), ty.size) == Bool(u.value == 0);
    }
  }

  lemma FoldedAndOr(ty: CType, op: BinaryOp, l: Expr, r: Expr, cost: nat)
    requires op.LogAnd? || op.LogOr?
    ensures BooleanValued(ExpandBinop(ty, op, l, r, cost).e)
  {
  }

  /** What is right as a value is right as a condition. */
  lemma {:induction false} FaithfulAsCondition(e: Expr)
    requires Faithful(e, false)
    ensures Faithful(e, true)
    decreases Nodes(e)
  {
    match e
    case Logical(_, _, _, right) => FaithfulAsCondition(right);
    case Conditional(_, c, t, f) =>
      if t.Some? { FaithfulAsCondition(t.value); } else { FaithfulAsCondition(c); }
      FaithfulAsCondition(f);
    case Select(_, c, t, f) =>
      if t.Some? { FaithfulAsCondition(t.value); } else { FaithfulAsCondition(c); }
      FaithfulAsCondition(f);
    case Comma(_, _, right) => FaithfulAsCondition(right);
    case _ =>
  }

  lemma SafeLogical(e: Expr, asCond: bool, statics: set<nat>)
    requires e.Logical? && Safe(e, asCond) && WellTyped(e, statics)
    requires Faithful(ExpandExpr(e.left, statics).e, true) && Faithful(ExpandExpr(e.right, statics).e, asCond)
    ensures Faithful(ExpandExpr(e, statics).e, asCond)
  {
    if !asCond {
      ExpandStaysBoolean(e.right, statics);
      FaithfulAsCondition(ExpandExpr(e.right, statics).e);
    }
  }

  lemma SafeConditional(e: Expr, asCond: bool, statics: set<nat>)
    requires e.Conditional? && Safe(e, asCond) && WellTyped(e, statics)
    requires Faithful(ExpandExpr(e.conditional, statics).e, e.condTrue.Some? || asCond)
    requires Faithful(ExpandExpr(e.condFalse, statics).e, asCond)
    requires e.condTrue.Some? ==> Faithful(ExpandExpr(e.condTrue.value, statics).e, asCond)
    ensures Faithful(ExpandExpr(e, statics).e, asCond)
  {
    NewSelectsHavePureArms(e, statics);
    ExpandReadsLess(e.conditional, statics);
    ExpandReadsLess(e.condFalse, statics);
    if e.condTrue.Some? {
      ExpandReadsLess(e.condTrue.value, statics);
    }
  }

  /** Expansion of a safe expression leaves a faithful one. */
  lemma {:induction false} SafeExpands(e: Expr, asCond: bool, statics: set<nat>)
    requires Safe(e, asCond) && WellTyped(e, statics)
    ensures Faithful(ExpandExpr(e, statics).e, asCond)
    decreases Nodes(e), 1
  {
    match e
    case Logical(_, _, left, right) =>
      SafeExpands(left, true, statics);
      SafeExpands(right, asCond, statics);
      SafeLogical(e, asCond, statics);
    case Conditional(_, c, t, f) =>
      SafeExpands(c, t.Some? || asCond, statics);
      if t.Some? { SafeExpands(t.value, asCond, statics); }
      SafeExpands(f, asCond, statics);
      SafeConditional(e, asCond, statics);
    case _ => SafeOperands(e, asCond, statics);
  }

  lemma {:induction false} SafeOperands(e: Expr, asCond: bool, statics: set<nat>)
    requires Safe(e, asCond) && WellTyped(e, statics) && !e.Logical? && !e.Conditional?
    ensures Faithful(ExpandExpr(e, statics).e, asCond)
    decreases Nodes(e), 0
  {
    match e
    case Assign(_, _, src) => SafeExpands(src, false, statics);
    case Preop(_, op, unop) => SafeExpands(unop, op.LogNot?, statics);
    case Binop(_, op, left, right) =>
      SafeExpands(left, op.LogAnd? || op.LogOr?, statics);
      SafeExpands(right, op.LogAnd? || op.LogOr?, statics);
    case Compare(_, _, left, right) =>
      SafeExpands(left, false, statics);
      SafeExpands(right, false, statics);
    case Comma(_, left, right) =>
      SafeExpands(left, true, statics);
      SafeExpands(right, asCond, statics);
    case CastTo(_, c) => SafeExpands(c, false, statics);
    case _ =>
  }

  lemma SafeOptionExpands(e: Option<Expr>, statics: set<nat>)
    requires SafeOption(e) && WellTypedOption(e, statics)
    ensures FaithfulOption(ExpandOption(e, statics))
  {
    if e.Some? {
      SafeExpands(e.value, true, statics);
    }
  }

  lemma {:induction false} SafeStmtExpands(s: Stmt, statics: set<nat>)
    requires SafeStmt(s) && WellTypedStmt(s, statics)
    ensures FaithfulStmt(ExpandStmt(s, statics))
  {
    match s
    case ExprStmt(e) => SafeExpands(e, true, statics);
    case Compound(ss) =>
      forall i | 0 <= i < |ss| ensures FaithfulStmt(ExpandStmt(ss[i], statics)) {
        SafeStmtExpands(ss[i], statics);
      }
    case If(cond, t, f) =>
      SafeExpands(cond, true, statics);
      SafeStmtExpands(t, statics);
      if f.Some? { SafeStmtExpands(f.value, statics); }
    case Iterator(pre, preCond, body, post, postCond) =>
      SafeOptionExpands(pre, statics);
      SafeOptionExpands(preCond, statics);
      SafeStmtExpands(body, statics);
      SafeOptionExpands(post, statics);
      SafeOptionExpands(postCond, statics);
    case _ =>
  }

  /** The expanded statement, as emitted, does what the statement does in C. */
  lemma ExpandedSame(s: Stmt, x: Stmt, statics: set<nat>, st: Memory)
    requires WellTypedStmt(s, statics) && x == ExpandStmt(s, statics) && FaithfulStmt(x)
    ensures forall fuel: nat :: Exec(x, st, fuel, Emitted) == Exec(s, st, fuel, Standard)
    ensures Terminates(x, st, Emitted) <==> Terminates(s, st, Standard)
  {
    forall fuel: nat ensures Exec(x, st, fuel, Emitted) == Exec(s, st, fuel, Standard) {
      FaithfulExec(x, st, fuel);
      ExpandExec(s, st, fuel, statics);
    }
    if Terminates(x, st, Emitted) {
      var fuel: nat :| Exec(x, st, fuel, Emitted).outcome.Normal?;
      assert Exec(s, st, fuel, Standard).outcome.Normal?;
    }
    if Terminates(s, st, Standard) {
      var fuel: nat :| Exec(s, st, fuel, Standard).outcome.Normal?;
      assert Exec(x, st, fuel, Emitted).outcome.Normal?;
    }
  }

  /** The code of an expanded function returns exactly when the C function comes to
      its end, with the variables C gives it and the same assignments in the same
      order, provided that what expansion leaves is faithful. */
  lemma FaithfulCompilation(g: Code, entry: BlockId, s: Stmt, statics: set<nat>, m: Config)
    requires WellTypedStmt(s, statics) && WellNested(s, false)
    requires FaithfulStmt(ExpandStmt(s, statics))
    requires FunctionCode(g, entry, ExpandStmt(s, statics)) && m.pos == Pos(entry, 0)
    ensures (exists m' :: Returns(g, m, m')) <==> Terminates(s, m.st, Standard)
    ensures forall fuel: nat, m' :: Returns(g, m, m') && Exec(s, m.st, fuel, Standard).outcome.Normal? ==>
      m'.st == Exec(s, m.st, fuel, Standard).st
  {
    var x := ExpandStmt(s, statics);
    ExpandKeepsNesting(s, false, statics);
    ExpandedSame(s, x, statics, m.st);
    FunctionCorrect(g, entry, x, m);
    forall fuel: nat, m' | Returns(g, m, m') && Exec(s, m.st, fuel, Standard).outcome.Normal?
      ensures m'.st == Exec(s, m.st, fuel, Standard).st
    {
      assert Exec(x, m.st, fuel, Emitted) == Exec(s, m.st, fuel, Standard);
    }
  }

  /** The code of a safe function returns exactly when the C function comes to its end,
      with the variables C gives it and the same assignments in the same order. */
  lemma CompilationCorrect(g: Code, entry: BlockId, s: Stmt, statics: set<nat>, m: Config)
    requires WellTypedStmt(s, statics) && WellNested(s, false) && SafeStmt(s)
    requires FunctionCode(g, entry, ExpandStmt(s, statics)) && m.pos == Pos(entry, 0)
    ensures (exists m' :: Returns(g, m, m')) <==> Terminates(s, m.st, Standard)
    ensures forall fuel: nat, m' :: Returns(g, m, m') && Exec(s, m.st, fuel, Standard).outcome.Normal? ==>
      m'.st == Exec(s, m.st, fuel, Standard).st
  {
    SafeStmtExpands(s, statics);
    FaithfulCompilation(g, entry, s, statics, m);
  }
}
