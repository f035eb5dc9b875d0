/** What the blocks emitted for statements do. */
module StmtLowering {
  import opened Options
  import opened Ir
  import opened Ast
  import opened Semantics
  import opened Graph
  import opened Lowering

  /** Getting from m to m' in at least k steps. */
  ghost predicate ReachesIn(c: Code, m: Config, m': Config, k: nat) {
    exists n :: n >= k && Run(c, m, n) == Some(m')
  }

  lemma ReachesInTrans(c: Code, m0: Config, m1: Config, m2: Config, j: nat, k: nat)
    requires ReachesIn(c, m0, m1, j) && ReachesIn(c, m1, m2, k)
    ensures ReachesIn(c, m0, m2, j + k)
  {
    var n1 :| n1 >= j && Run(c, m0, n1) == Some(m1);
    var n2 :| n2 >= k && Run(c, m1, n2) == Some(m2);
    RunAdd(c, m0, n1, n2);
    assert n1 + n2 >= j + k && Run(c, m0, n1 + n2) == Some(m2);
  }

  lemma ReachesIsReachesIn(c: Code, m: Config, m': Config)
    requires Reaches(c, m, m')
    ensures ReachesIn(c, m, m', 0)
    ensures m.pos != m'.pos ==> ReachesIn(c, m, m', 1)
  {
    var n :| Run(c, m, n) == Some(m');
    assert n >= 0 && (m.pos != m'.pos ==> n >= 1);
  }

  /** Running from m to m' executed `s`: it made the same assignments and went on
      after the statement, or to the block that `break` or `continue` names. */
  ghost predicate StmtDone(m: Config, m': Config, t: Option<Pos>, brk: BlockId, cont: BlockId, s: Stmt, fuel: nat,
                           lo: nat)
  {
    var r := Exec(s, m.st, fuel, Emitted);
    && m'.st == r.st && Agree(m, m', lo)
    && match r.outcome
       case Normal => t.Some? && m'.pos == t.value
       case Broke => m'.pos == Pos(brk, 0)
       case Continued => m'.pos == Pos(cont, 0)
       case OutOfFuel => true
  }

  /** How many steps a run needs at least: one for each round of a loop. */
  ghost function Steps(r: Executed, fuel: nat): nat {
    if r.outcome.OutOfFuel? then fuel else 0
  }

  ghost predicate StmtRuns(c: Code, m: Config, t: Option<Pos>, brk: BlockId, cont: BlockId, s: Stmt, fuel: nat,
                           lo: nat) {
    exists m' :: ReachesIn(c, m, m', Steps(Exec(s, m.st, fuel, Emitted), fuel))
                 && StmtDone(m, m', t, brk, cont, s, fuel, lo)
  }

  /** The code in `g` from `p` to `t` executes `s`; no `t` means that control never
      gets past the statement. */
  ghost predicate StmtSim(g: Code, p: Pos, t: Option<Pos>, brk: BlockId, cont: BlockId, s: Stmt, lo: nat) {
    forall c: Code, m: Config, fuel: nat {:trigger StmtRuns(c, m, t, brk, cont, s, fuel, lo)} ::
      Extends(g, c) && m.pos == p ==> StmtRuns(c, m, t, brk, cont, s, fuel, lo)
  }

  lemma UseStmt(g: Code, p: Pos, t: Option<Pos>, brk: BlockId, cont: BlockId, s: Stmt, lo: nat, c: Code, m: Config,
                fuel: nat)
    returns (m': Config)
    requires StmtSim(g, p, t, brk, cont, s, lo) && Extends(g, c) && m.pos == p
    ensures ReachesIn(c, m, m', Steps(Exec(s, m.st, fuel, Emitted), fuel))
    ensures StmtDone(m, m', t, brk, cont, s, fuel, lo)
  {
    assert StmtRuns(c, m, t, brk, cont, s, fuel, lo);
    m' :| ReachesIn(c, m, m', Steps(Exec(s, m.st, fuel, Emitted), fuel)) && StmtDone(m, m', t, brk, cont, s, fuel, lo);
  }

  lemma StmtSimExtends(g: Code, p: Pos, t: Option<Pos>, brk: BlockId, cont: BlockId, s: Stmt, lo: nat, h: Code)
    requires StmtSim(g, p, t, brk, cont, s, lo) && Extends(g, h)
    ensures StmtSim(h, p, t, brk, cont, s, lo)
  {
    forall c: Code, m: Config, fuel: nat | Extends(h, c) && m.pos == p
      ensures StmtRuns(c, m, t, brk, cont, s, fuel, lo)
    {
      ExtendsTrans(g, h, c);
    }
  }

  /** Break and continue only inside a loop. */
  predicate WellNested(s: Stmt, inLoop: bool)
    decreases s, 0
  {
    match s
    case Compound(ss) => forall i :: 0 <= i < |ss| ==> WellNested(ss[i], inLoop)
    case If(_, t, f) => WellNested(t, inLoop) && (f.Some? ==> WellNested(f.value, inLoop))
    case Iterator(_, _, body, _, _) => WellNested(body, true)
    case Break => inLoop
    case Continue => inLoop
    case _ => true
  }

  // ---------------------------------------------------------------------------
  // Statements without loops
  // ---------------------------------------------------------------------------

  lemma AgreeSelf(m: Config, lo: nat)
    ensures Agree(m, m, lo)
  {
  }

  lemma EmptySim(g: Code, p: Pos, brk: BlockId, cont: BlockId, s: Stmt, lo: nat)
    requires s == Empty || s == Compound([])
    ensures StmtSim(g, p, Some(p), brk, cont, s, lo)
  {
    forall c: Code, m: Config, fuel: nat | Extends(g, c) && m.pos == p
      ensures StmtRuns(c, m, Some(p), brk, cont, s, fuel, lo)
    {
      ReachesSelf(c, m);
      ReachesIsReachesIn(c, m, m);
      AgreeSelf(m, lo);
      assert Exec(s, m.st, fuel, Emitted) == Executed(Normal, m.st);
      assert StmtDone(m, m, Some(p), brk, cont, s, fuel, lo);
    }
  }

  lemma ExprStmtSim(g: Code, p: Pos, t: Pos, brk: BlockId, cont: BlockId, e: Expr, v: Pseudo, lo: nat)
    requires ExprSim(g, p, t, e, v, lo)
    ensures StmtSim(g, p, Some(t), brk, cont, ExprStmt(e), lo)
  {
    var s := ExprStmt(e);
    forall c: Code, m: Config, fuel: nat | Extends(g, c) && m.pos == p
      ensures StmtRuns(c, m, Some(t), brk, cont, s, fuel, lo)
    {
      var m' := UseExpr(g, p, t, e, v, lo, c, m);
      ReachesIsReachesIn(c, m, m');
      assert StmtDone(m, m', Some(t), brk, cont, s, fuel, lo);
    }
  }

  /** A jump out of the loop, or to its next round. */
  lemma LoopJumpSim(g: Code, p: Pos, brk: BlockId, cont: BlockId, s: Stmt, lo: nat)
    requires (s == Break && InsnAt(g, p, Br(Void, brk, None))) || (s == Continue && InsnAt(g, p, Br(Void, cont, None)))
    ensures StmtSim(g, p, None, brk, cont, s, lo)
  {
    var target := if s == Break then brk else cont;
    forall c: Code, m: Config, fuel: nat | Extends(g, c) && m.pos == p
      ensures StmtRuns(c, m, None, brk, cont, s, fuel, lo)
    {
      StaysAt(g, c, p, Br(Void, target, None));
      ReachesSelf(c, m);
      var m' := JumpOn(c, m, m, Void, target, None);
      ReachesIsReachesIn(c, m, m');
      assert StmtDone(m, m', None, brk, cont, s, fuel, lo);
    }
  }

  lemma ExecSnoc(ss: seq<Stmt>, s: Stmt, whole: Stmt, st: Memory, fuel: nat, mode: Mode)
    requires whole == Compound(ss + [s])
    ensures Exec(whole, st, fuel, mode) ==
            (var r := Exec(Compound(ss), st, fuel, mode); if r.outcome.Normal? then Exec(s, r.st, fuel, mode) else r)
  {
    assert (ss + [s])[..|ss|] == ss && (ss + [s])[|ss|] == s;
  }

  lemma AgreeTwice(m0: Config, m1: Config, m2: Config, lo: nat, mid: nat)
    requires Agree(m0, m1, lo) && Agree(m1, m2, mid) && lo <= mid
    ensures Agree(m0, m2, lo)
  {
    forall r: nat | r <= lo ensures ValueOf(m0, Reg(r)) == ValueOf(m2, Reg(r)) {
      assert ValueOf(m1, Reg(r)) == ValueOf(m2, Reg(r));
    }
  }

  /** One more statement at the end of a block of statements. */
  lemma CompoundSim(g1: Code, g: Code, p: Pos, t1: Option<Pos>, t2: Option<Pos>, brk: BlockId, cont: BlockId,
                    ss: seq<Stmt>, s: Stmt, lo: nat, mid: nat)
    requires StmtSim(g1, p, t1, brk, cont, Compound(ss), lo) && Extends(g1, g) && lo <= mid
    requires t1.Some? ==> StmtSim(g, t1.value, t2, brk, cont, s, mid)
    ensures StmtSim(g, p, t2, brk, cont, Compound(ss + [s]), lo)
  {
    var whole := Compound(ss + [s]);
    forall c: Code, m: Config, fuel: nat | Extends(g, c) && m.pos == p
      ensures StmtRuns(c, m, t2, brk, cont, whole, fuel, lo)
    {
      ExtendsTrans(g1, g, c);
      var m1 := UseStmt(g1, p, t1, brk, cont, Compound(ss), lo, c, m, fuel);
      var r1 := Exec(Compound(ss), m.st, fuel, Emitted);
      ExecSnoc(ss, s, whole, m.st, fuel, Emitted);
      if r1.outcome.Normal? {
        var m2 := UseStmt(g, t1.value, t2, brk, cont, s, mid, c, m1, fuel);
        AgreeTwice(m, m1, m2, lo, mid);
        ReachesInTrans(c, m, m1, m2, 0, Steps(Exec(s, m1.st, fuel, Emitted), fuel));
        assert StmtDone(m, m2, t2, brk, cont, whole, fuel, lo);
      } else {
        assert StmtDone(m, m1, t2, brk, cont, whole, fuel, lo);
      }
    }
  }

  /** A statement that, if control gets past it, jumps on to `next`. */
  ghost predicate ThenJumps(g: Code, p: Pos, t: Option<Pos>, brk: BlockId, cont: BlockId, s: Stmt, next: BlockId,
                            lo: nat) {
    && StmtSim(g, p, t, brk, cont, s, lo)
    && (t.Some? ==> InsnAt(g, t.value, Br(Void, next, None)))
  }

  lemma ThenJumpsExtends(g: Code, p: Pos, t: Option<Pos>, brk: BlockId, cont: BlockId, s: Stmt, next: BlockId, lo: nat,
                         h: Code)
    requires ThenJumps(g, p, t, brk, cont, s, next, lo) && Extends(g, h)
    ensures ThenJumps(h, p, t, brk, cont, s, next, lo)
  {
    StmtSimExtends(g, p, t, brk, cont, s, lo, h);
    if t.Some? {
      StaysAt(g, h, t.value, Br(Void, next, None));
    }
  }

  lemma ThenJumpsRuns(g: Code, p: Pos, t: Option<Pos>, brk: BlockId, cont: BlockId, s: Stmt, next: BlockId, lo: nat,
                      c: Code, m: Config, fuel: nat) returns (m': Config)
    requires ThenJumps(g, p, t, brk, cont, s, next, lo) && Extends(g, c) && m.pos == p
    ensures ReachesIn(c, m, m', Steps(Exec(s, m.st, fuel, Emitted), fuel))
    ensures StmtDone(m, m', Some(Pos(next, 0)), brk, cont, s, fuel, lo)
  {
    m' := UseStmt(g, p, t, brk, cont, s, lo, c, m, fuel);
    if Exec(s, m.st, fuel, Emitted).outcome.Normal? {
      StaysAt(g, c, t.value, Br(Void, next, None));
      var m1 := m';
      ReachesSelf(c, m1);
      m' := JumpOn(c, m1, m1, Void, next, None);
      ReachesIsReachesIn(c, m1, m');
      ReachesInTrans(c, m, m1, m', 0, 0);
    }
  }

  /** An if statement; without an else branch `bbFalse` is where both ways meet. */
  lemma IfSim(g: Code, p: Pos, s: Stmt, bbTrue: BlockId, bbFalse: BlockId, endif: BlockId, t1: Option<Pos>,
              t2: Option<Pos>, brk: BlockId, cont: BlockId, lo: nat, lo1: nat, lo2: nat)
    requires s.If? && CondSim(g, p, bbTrue, bbFalse, s.cond, lo) && lo <= lo1 && lo <= lo2
    requires ThenJumps(g, Pos(bbTrue, 0), t1, brk, cont, s.ifTrue, endif, lo1)
    requires if s.ifFalse.Some? then ThenJumps(g, Pos(bbFalse, 0), t2, brk, cont, s.ifFalse.value, endif, lo2)
             else bbFalse == endif
    ensures StmtSim(g, p, Some(Pos(endif, 0)), brk, cont, s, lo)
  {
    var t := Some(Pos(endif, 0));
    forall c: Code, m: Config, fuel: nat | Extends(g, c) && m.pos == p
      ensures StmtRuns(c, m, t, brk, cont, s, fuel, lo)
    {
      var m1 := UseCond(g, p, bbTrue, bbFalse, s.cond, lo, c, m);
      ReachesIsReachesIn(c, m, m1);
      var m2 := m1;
      if Eval(s.cond, m.st, Emitted).v != 0 {
        m2 := ThenJumpsRuns(g, Pos(bbTrue, 0), t1, brk, cont, s.ifTrue, endif, lo1, c, m1, fuel);
        ReachesInTrans(c, m, m1, m2, 0, Steps(Exec(s.ifTrue, m1.st, fuel, Emitted), fuel));
      } else if s.ifFalse.Some? {
        m2 := ThenJumpsRuns(g, Pos(bbFalse, 0), t2, brk, cont, s.ifFalse.value, endif, lo2, c, m1, fuel);
        ReachesInTrans(c, m, m1, m2, 0, Steps(Exec(s.ifFalse.value, m1.st, fuel, Emitted), fuel));
      }
      assert StmtDone(m, m2, t, brk, cont, s, fuel, lo);
    }
  }

  // ---------------------------------------------------------------------------
  // Loops
  // ---------------------------------------------------------------------------

  /** The blocks of a loop: where a round starts with its test, the body, the
      `continue` block with the post-statement, and the block after the loop. */
  datatype LoopBlocks = LoopBlocks(test: Pos, body: BlockId, cont: BlockId, end: BlockId)

  /** The test at the top of a round, or the way into a body without one. */
  ghost predicate TestCode(g: Code, p: Pos, preCond: Option<Expr>, body: BlockId, end: BlockId, lo: nat) {
    if preCond.Some? then CondSim(g, p, body, end, preCond.value, lo) else InsnAt(g, p, Br(Void, body, None))
  }

  /** The `continue` block: the post-statement, then back to the test or on to the
      test at the bottom. */
  ghost predicate PostCode(g: Code, s: Stmt, b: LoopBlocks, t: Pos, v: Pseudo, lo: nat) {
    && s.Iterator? && b.cont != b.body && t.bb != b.body && t.bb != b.end
    && (if s.post.Some? then ExprSim(g, Pos(b.cont, 0), t, s.post.value, v, lo) else t == Pos(b.cont, 0))
    && (if s.postCond.Some? then CondSim(g, t, b.body, b.end, s.postCond.value, lo)
        else b.test.pc == 0 && t != b.test && InsnAt(g, t, Br(Void, b.test.bb, None)))
  }

  /** The code of a loop. `tBody` and `tPost` are where the body and the
      post-statement end. */
  ghost predicate LoopCode(g: Code, s: Stmt, b: LoopBlocks, tBody: Option<Pos>, tPost: Pos, vPost: Pseudo, lo: nat) {
    && s.Iterator?
    && TestCode(g, b.test, s.preCond, b.body, b.end, lo)
    && ThenJumps(g, Pos(b.body, 0), tBody, b.end, b.cont, s.body, b.cont, lo)
    && PostCode(g, s, b, tPost, vPost, lo)
  }

  ghost predicate LoopDone(m: Config, m': Config, r: Executed, end: BlockId, lo: nat) {
    && m'.st == r.st && Agree(m, m', lo)
    && ((r.outcome.Normal? && m'.pos == Pos(end, 0)) || r.outcome.OutOfFuel?)
  }

  /** From the `continue` block to the next round, or out of the loop. */
  lemma PostRuns(g: Code, s: Stmt, b: LoopBlocks, tBody: Option<Pos>, tPost: Pos, vPost: Pseudo, lo: nat,
                 c: Code, m: Config) returns (m': Config)
    requires LoopCode(g, s, b, tBody, tPost, vPost, lo) && Extends(g, c) && m.pos == Pos(b.cont, 0)
    ensures ReachesIn(c, m, m', 1) && Agree(m, m', lo)
    ensures var p := EvalOption(s.post, m.st, Emitted);
            if s.postCond.None? then m'.st == p && m'.pos == b.test
            else var q := Eval(s.postCond.value, p, Emitted);
                 m'.st == q.st && m'.pos == Pos(if q.v != 0 then b.body else b.end, 0)
  {
    ReachesSelf(c, m);
    var m1 := m;
    if s.post.Some? {
      m1 := UseExpr(g, Pos(b.cont, 0), tPost, s.post.value, vPost, lo, c, m);
    }
    ReachesIsReachesIn(c, m, m1);
    if s.postCond.Some? {
      m' := UseCond(g, tPost, b.body, b.end, s.postCond.value, lo, c, m1);
    } else {
      StaysAt(g, c, tPost, Br(Void, b.test.bb, None));
      ReachesSelf(c, m1);
      m' := JumpOn(c, m1, m1, Void, b.test.bb, None);
    }
    ReachesIsReachesIn(c, m1, m');
    ReachesInTrans(c, m, m1, m', 0, 1);
  }

  /** A round of at least one step, and what comes after it. */
  lemma NextRound(c: Code, m: Config, m2: Config, m': Config, r: Executed, fuel: nat, end: BlockId, lo: nat)
    requires fuel > 0 && ReachesIn(c, m, m2, 1) && Agree(m, m2, lo)
    requires ReachesIn(c, m2, m', Steps(r, fuel - 1)) && LoopDone(m2, m', r, end, lo)
    ensures ReachesIn(c, m, m', Steps(r, fuel)) && LoopDone(m, m', r, end, lo)
  {
    ReachesInTrans(c, m, m2, m', 1, Steps(r, fuel - 1));
  }

  lemma {:induction false} BodyRuns(g: Code, s: Stmt, b: LoopBlocks, tBody: Option<Pos>, tPost: Pos, vPost: Pseudo,
                                    lo: nat, c: Code, m: Config, fuel: nat) returns (m': Config)
    requires LoopCode(g, s, b, tBody, tPost, vPost, lo) && Extends(g, c) && m.pos == Pos(b.body, 0)
    ensures var r := ExecBody(s.preCond, s.body, s.post, s.postCond, m.st, fuel, Emitted);
            ReachesIn(c, m, m', Steps(r, fuel)) && LoopDone(m, m', r, b.end, lo)
    decreases fuel, 0
  {
    var r0 := Exec(s.body, m.st, fuel, Emitted);
    var m1 := ThenJumpsRuns(g, Pos(b.body, 0), tBody, b.end, b.cont, s.body, b.cont, lo, c, m, fuel);
    if r0.outcome.OutOfFuel? || r0.outcome.Broke? {
      m' := m1;
    } else {
      var m2 := PostRuns(g, s, b, tBody, tPost, vPost, lo, c, m1);
      ReachesInTrans(c, m, m1, m2, 0, 1);
      m' := m2;
      var p := EvalOption(s.post, m1.st, Emitted);
      if fuel > 0 && s.postCond.None? {
        m' := TestRuns(g, s, b, tBody, tPost, vPost, lo, c, m2, fuel - 1);
        NextRound(c, m, m2, m', ExecTest(s.preCond, s.body, s.post, s.postCond, m2.st, fuel - 1, Emitted), fuel, b.end,
                  lo);
      } else if fuel > 0 && Eval(s.postCond.value, p, Emitted).v != 0 {
        m' := BodyRuns(g, s, b, tBody, tPost, vPost, lo, c, m2, fuel - 1);
        NextRound(c, m, m2, m', ExecBody(s.preCond, s.body, s.post, s.postCond, m2.st, fuel - 1, Emitted), fuel, b.end,
                  lo);
      }
    }
  }

  lemma {:induction false} TestRuns(g: Code, s: Stmt, b: LoopBlocks, tBody: Option<Pos>, tPost: Pos, vPost: Pseudo,
                                    lo: nat, c: Code, m: Config, fuel: nat) returns (m': Config)
    requires LoopCode(g, s, b, tBody, tPost, vPost, lo) && Extends(g, c) && m.pos == b.test
    ensures var r := ExecTest(s.preCond, s.body, s.post, s.postCond, m.st, fuel, Emitted);
            ReachesIn(c, m, m', Steps(r, fuel)) && LoopDone(m, m', r, b.end, lo)
    decreases fuel, 1
  {
    var m1;
    if s.preCond.Some? {
      m1 := UseCond(g, b.test, b.body, b.end, s.preCond.value, lo, c, m);
    } else {
      StaysAt(g, c, b.test, Br(Void, b.body, None));
      ReachesSelf(c, m);
      m1 := JumpOn(c, m, m, Void, b.body, None);
    }
    ReachesIsReachesIn(c, m, m1);
    m' := m1;
    if m1.pos == Pos(b.body, 0) && (s.preCond.Some? ==> Eval(s.preCond.value, m.st, Emitted).v != 0) {
      m' := BodyRuns(g, s, b, tBody, tPost, vPost, lo, c, m1, fuel);
      var r := ExecBody(s.preCond, s.body, s.post, s.postCond, m1.st, fuel, Emitted);
      ReachesInTrans(c, m, m1, m', 0, Steps(r, fuel));
    }
  }

  /** A loop: the pre-statement, then the rounds. */
  lemma IteratorSim(g: Code, p: Pos, tPre: Pos, vPre: Pseudo, s: Stmt, b: LoopBlocks, tBody: Option<Pos>, tPost: Pos,
                    vPost: Pseudo, brk: BlockId, cont: BlockId, lo: nat, mid: nat)
    requires LoopCode(g, s, b, tBody, tPost, vPost, mid) && lo <= mid
    requires if s.pre.Some? then ExprSim(g, p, tPre, s.pre.value, vPre, lo) else tPre == p
    requires tPre == b.test || (InsnAt(g, tPre, Br(Void, b.test.bb, None)) && b.test.pc == 0)
    ensures StmtSim(g, p, Some(Pos(b.end, 0)), brk, cont, s, lo)
  {
    var t := Some(Pos(b.end, 0));
    forall c: Code, m: Config, fuel: nat | Extends(g, c) && m.pos == p
      ensures StmtRuns(c, m, t, brk, cont, s, fuel, lo)
    {
      ReachesSelf(c, m);
      var m1 := m;
      if s.pre.Some? {
        m1 := UseExpr(g, p, tPre, s.pre.value, vPre, lo, c, m);
      }
      var m2 := m1;
      if tPre != b.test {
        StaysAt(g, c, tPre, Br(Void, b.test.bb, None));
        m2 := JumpOn(c, m, m1, Void, b.test.bb, None);
      }
      ReachesIsReachesIn(c, m, m2);
      var m3 := TestRuns(g, s, b, tBody, tPost, vPost, mid, c, m2, fuel);
      ReachesInTrans(c, m, m2, m3, 0, Steps(Exec(s, m.st, fuel, Emitted), fuel));
      assert StmtDone(m, m3, t, brk, cont, s, fuel, lo);
    }
  }

  // ---------------------------------------------------------------------------
  // Weaker promises: more code, fewer pseudos left alone
  // ---------------------------------------------------------------------------

  lemma ExprSimWeaken(g: Code, s: Pos, t: Pos, e: Expr, p: Pseudo, hi: nat, h: Code, lo: nat)
    requires ExprSim(g, s, t, e, p, hi) && Extends(g, h) && lo <= hi
    ensures ExprSim(h, s, t, e, p, lo)
  {
    forall c: Code, m: Config | Extends(h, c) && m.pos == s ensures ExprRuns(c, m, t, e, p, lo) {
      ExtendsTrans(g, h, c);
      var m' := UseExpr(g, s, t, e, p, hi, c, m);
      assert ExprDone(m, m', t, e, p, lo);
    }
  }

  lemma CondSimWeaken(g: Code, s: Pos, bbTrue: BlockId, bbFalse: BlockId, e: Expr, hi: nat, h: Code, lo: nat)
    requires CondSim(g, s, bbTrue, bbFalse, e, hi) && Extends(g, h) && lo <= hi
    ensures CondSim(h, s, bbTrue, bbFalse, e, lo)
  {
    forall c: Code, m: Config | Extends(h, c) && m.pos == s ensures CondRuns(c, m, bbTrue, bbFalse, e, lo) {
      ExtendsTrans(g, h, c);
      var m' := UseCond(g, s, bbTrue, bbFalse, e, hi, c, m);
      assert CondDone(m, m', bbTrue, bbFalse, e, lo);
    }
  }

  lemma StmtSimWeaken(g: Code, p: Pos, t: Option<Pos>, brk: BlockId, cont: BlockId, s: Stmt, hi: nat, h: Code, lo: nat)
    requires StmtSim(g, p, t, brk, cont, s, hi) && Extends(g, h) && lo <= hi
    ensures StmtSim(h, p, t, brk, cont, s, lo)
  {
    forall c: Code, m: Config, fuel: nat | Extends(h, c) && m.pos == p
      ensures StmtRuns(c, m, t, brk, cont, s, fuel, lo)
    {
      ExtendsTrans(g, h, c);
      var m' := UseStmt(g, p, t, brk, cont, s, hi, c, m, fuel);
      assert StmtDone(m, m', t, brk, cont, s, fuel, lo);
    }
  }

  lemma TestWeaken(g: Code, p: Pos, preCond: Option<Expr>, body: BlockId, end: BlockId, hi: nat, h: Code, lo: nat)
    requires TestCode(g, p, preCond, body, end, hi) && Extends(g, h) && lo <= hi
    ensures TestCode(h, p, preCond, body, end, lo)
  {
    if preCond.Some? {
      CondSimWeaken(g, p, body, end, preCond.value, hi, h, lo);
    } else {
      StaysAt(g, h, p, Br(Void, body, None));
    }
  }

  lemma ThenJumpsWeaken(g: Code, p: Pos, t: Option<Pos>, brk: BlockId, cont: BlockId, s: Stmt, next: BlockId, hi: nat,
                        h: Code, lo: nat)
    requires ThenJumps(g, p, t, brk, cont, s, next, hi) && Extends(g, h) && lo <= hi
    ensures ThenJumps(h, p, t, brk, cont, s, next, lo)
  {
    StmtSimWeaken(g, p, t, brk, cont, s, hi, h, lo);
    if t.Some? {
      StaysAt(g, h, t.value, Br(Void, next, None));
    }
  }

  lemma PostWeaken(g: Code, s: Stmt, b: LoopBlocks, t: Pos, v: Pseudo, hi: nat, h: Code, lo: nat)
    requires PostCode(g, s, b, t, v, hi) && Extends(g, h) && lo <= hi
    ensures PostCode(h, s, b, t, v, lo)
  {
    if s.post.Some? {
      ExprSimWeaken(g, Pos(b.cont, 0), t, s.post.value, v, hi, h, lo);
    }
    if s.postCond.Some? {
      CondSimWeaken(g, t, b.body, b.end, s.postCond.value, hi, h, lo);
    } else {
      StaysAt(g, h, t, Br(Void, b.test.bb, None));
    }
  }

  // ---------------------------------------------------------------------------
  // From one state of the graph to another
  // ---------------------------------------------------------------------------

  function OptionalEnd(g: Code, b: Option<BlockId>): Option<Pos> {
    if b.Some? then Some(EndOf(g, b.value)) else None
  }

  /** How the graph went from g, with active block a, to h, with b, when `s` was
      lowered. */
  ghost predicate StmtEmitted(g: Code, a: Option<BlockId>, lo: nat, h: Code, b: Option<BlockId>, hi: nat,
                              s: Stmt, brk: BlockId, cont: BlockId)
  {
    && lo <= hi && Built(g, a, h)
    && (b.Some? ==> b.value < |h| && (b == a || b.value >= |g|))
    && (a.Some? ==> a.value < |g| && StmtSim(h, EndOf(g, a.value), OptionalEnd(h, b), brk, cont, s, lo))
  }

  /** The graph after falling out of block `b`, if there is one, into `next`. */
  function Leave(g: Code, b: Option<BlockId>, next: BlockId): (h: Code)
    requires (b.Some? ==> b.value < |g|) && next < |g|
    ensures |h| == |g|
  {
    if b.Some? then WithJump(g, b.value, Void, next, None) else g
  }

  lemma LeaveBuilt(g: Code, b: Option<BlockId>, next: BlockId)
    requires (b.Some? ==> b.value < |g|) && next < |g|
    ensures Built(g, b, Leave(g, b, next))
  {
    if b.Some? {
      ExtendsJump(g, b.value, Void, next, None);
    }
  }

  lemma EmptyEmitted(g: Code, a: Option<BlockId>, lo: nat, s: Stmt, brk: BlockId, cont: BlockId)
    requires (a.Some? ==> a.value < |g|) && (s == Empty || s == Compound([]))
    ensures StmtEmitted(g, a, lo, g, a, lo, s, brk, cont)
  {
    BuiltSelf(g, a);
    if a.Some? {
      EmptySim(g, EndOf(g, a.value), brk, cont, s, lo);
    }
  }

  lemma ExprStmtEmitted(g: Code, a: Option<BlockId>, lo: nat, h: Code, b: Option<BlockId>, hi: nat, e: Expr, p: Pseudo,
                        brk: BlockId, cont: BlockId)
    requires ExprEmitted(g, a, lo, h, b, hi, e, p)
    ensures StmtEmitted(g, a, lo, h, b, hi, ExprStmt(e), brk, cont)
  {
    if a.Some? {
      ExprStmtSim(h, EndOf(g, a.value), EndOf(h, b.value), brk, cont, e, p, lo);
    }
  }

  lemma LoopJumpEmitted(g: Code, a: Option<BlockId>, lo: nat, s: Stmt, brk: BlockId, cont: BlockId, target: BlockId)
    requires (a.Some? ==> a.value < |g|) && target < |g|
    requires (s == Break && target == brk) || (s == Continue && target == cont)
    ensures StmtEmitted(g, a, lo, Leave(g, a, target), None, lo, s, brk, cont)
  {
    LeaveBuilt(g, a, target);
    if a.Some? {
      ExtendsJump(g, a.value, Void, target, None);
      LoopJumpSim(Leave(g, a, target), EndOf(g, a.value), brk, cont, s, lo);
    }
  }

  lemma CompoundEmitted(g: Code, a: Option<BlockId>, lo: nat, g1: Code, b1: Option<BlockId>, mid: nat,
                        h: Code, b: Option<BlockId>, hi: nat, ss: seq<Stmt>, s: Stmt, brk: BlockId, cont: BlockId)
    requires StmtEmitted(g, a, lo, g1, b1, mid, Compound(ss), brk, cont)
    requires StmtEmitted(g1, b1, mid, h, b, hi, s, brk, cont)
    ensures StmtEmitted(g, a, lo, h, b, hi, Compound(ss + [s]), brk, cont)
  {
    BuiltTrans(g, a, g1, b1, h);
    if a.Some? {
      CompoundSim(g1, h, EndOf(g, a.value), OptionalEnd(g1, b1), OptionalEnd(h, b), brk, cont, ss, s, lo, mid);
    }
  }

  /** A statement lowered into the fresh block `a`, then a jump to `next`, where
      `k` is the code with a block for the jump to go to. */
  lemma LeaveEmitted(g: Code, a: BlockId, lo: nat, g1: Code, b: Option<BlockId>, hi: nat, s: Stmt, brk: BlockId,
                     cont: BlockId, k: Code, next: BlockId, h: Code)
    requires StmtEmitted(g, Some(a), lo, g1, b, hi, s, brk, cont) && a < |g| && g[a].insns == []
    requires (k == g1 || k == g1 + [EmptyBlock]) && next < |k| && h == Leave(k, b, next)
    ensures Built(g, Some(a), h) && ThenJumps(h, Pos(a, 0), OptionalEnd(g1, b), brk, cont, s, next, lo)
  {
    BuiltByInsns(g1, None, k);
    LeaveBuilt(k, b, next);
    BuiltTrans(g, Some(a), g1, None, k);
    BuiltTrans(g, Some(a), k, b, h);
    ExtendsTrans(g1, k, h);
    StmtSimExtends(g1, EndOf(g, a), OptionalEnd(g1, b), brk, cont, s, lo, h);
    if b.Some? {
      ExtendsJump(k, b.value, Void, next, None);
    }
  }

  /** `g0` is g with blocks for the two ways; `g1` has the condition, `g3` the true
      way up to its jump, `h` the false way. */
  lemma IfEmitted(g: Code, g0: Code, a: Option<BlockId>, lo: nat, bbTrue: BlockId, bbFalse: BlockId, endif: BlockId,
                  g1: Code, b1: Option<BlockId>, lo1: nat, g3: Code, t1: Option<Pos>, lo2: nat,
                  h: Code, t2: Option<Pos>, hi: nat, s: Stmt, brk: BlockId, cont: BlockId)
    requires s.If? && TwoMore(g, g0, bbTrue, bbFalse) && lo1 <= lo2 <= hi && (a.Some? ==> a.value < |g|)
    requires CondEmitted(g0, a, lo, g1, b1, lo1, s.cond, bbTrue, bbFalse)
    requires Built(g1, Some(bbTrue), g3) && ThenJumps(g3, Pos(bbTrue, 0), t1, brk, cont, s.ifTrue, endif, lo1)
    requires if s.ifFalse.Some?
             then Built(g3, Some(bbFalse), h)
                  && ThenJumps(h, Pos(bbFalse, 0), t2, brk, cont, s.ifFalse.value, endif, lo2)
             else h == g3 && endif == bbFalse
    requires bbFalse <= endif < |h| && h[endif].insns == []
    ensures StmtEmitted(g, a, lo, h, Some(endif), hi, s, brk, cont)
  {
    IfBuilt(g, g0, a, bbTrue, bbFalse, g1, g3, h);
    if a.Some? {
      assert EndOf(g0, a.value) == EndOf(g, a.value);
      ExtendsTrans(g1, g3, h);
      CondSimExtends(g1, EndOf(g0, a.value), bbTrue, bbFalse, s.cond, lo, h);
      ThenJumpsExtends(g3, Pos(bbTrue, 0), t1, brk, cont, s.ifTrue, endif, lo1, h);
      IfSim(h, EndOf(g, a.value), s, bbTrue, bbFalse, endif, t1, t2, brk, cont, lo, lo1, lo2);
    }
  }

  lemma IfBuilt(g: Code, g0: Code, a: Option<BlockId>, bbTrue: BlockId, bbFalse: BlockId, g1: Code, g3: Code, h: Code)
    requires TwoMore(g, g0, bbTrue, bbFalse) && Built(g0, a, g1) && Built(g1, Some(bbTrue), g3)
    requires h == g3 || Built(g3, Some(bbFalse), h)
    requires a.Some? ==> a.value < |g|
    ensures Built(g, a, h) && Extends(g3, h)
  {
    BuiltSelf(g3, None);
    BuiltByInsns(g, a, g0);
    BuiltTrans(g, a, g0, a, g1);
    BuiltTrans(g, a, g1, Some(bbTrue), g3);
    if h != g3 {
      BuiltTrans(g, a, g3, Some(bbFalse), h);
    }
  }

  /** Where a loop's first test is: the top block of its own, or right here. */
  ghost predicate LoopEntered(g1: Code, b1: Option<BlockId>, g2: Code, s: Stmt, g4: Code, act: Option<BlockId>) {
    && s.Iterator?
    && (b1.Some? ==> b1.value < |g2|)
    && (if s.postCond.None? then g4 == Leave(g2 + [EmptyBlock], b1, |g2|) && act == Some(|g2|)
        else g4 == g2 && act == b1)
  }

  /** The test, the body and the post-statement, one after the other. */
  ghost predicate RoundsEmitted(g4: Code, act: Option<BlockId>, lo1: nat, b: LoopBlocks, g6: Code, lo2: nat, g8: Code,
                                tBody: Option<Pos>, lo3: nat, h: Code, tPost: Pos, vPost: Pseudo, s: Stmt)
  {
    && s.Iterator? && lo1 <= lo2 <= lo3
    && Built(g4, act, g6) && (act.Some? ==> TestCode(g6, b.test, s.preCond, b.body, b.end, lo1))
    && Built(g6, Some(b.body), g8) && ThenJumps(g8, Pos(b.body, 0), tBody, b.end, b.cont, s.body, b.cont, lo2)
    && Built(g8, Some(b.cont), h) && PostCode(h, s, b, tPost, vPost, lo3)
  }

  /** The jump from before a loop to its top block. */
  lemma LoopJump(g1: Code, b1: BlockId, g2: Code, b: LoopBlocks, s: Stmt, g4: Code, act: Option<BlockId>, h: Code)
    requires ThreeMore(g1, g2, b.body, b.cont, b.end) && b1 < |g1|
    requires LoopEntered(g1, Some(b1), g2, s, g4, act) && s.postCond.None? && Extends(g4, h)
    ensures InsnAt(h, EndOf(g1, b1), Br(Void, |g2|, None))
  {
    ExtendsJump(g2 + [EmptyBlock], b1, Void, |g2|, None);
    StaysAt(g4, h, EndOf(g1, b1), Br(Void, |g2|, None));
  }

  /** `g1` has the pre-statement, `g2` the loop's blocks, `g4` the way to the first
      test, `g6` the test, `g8` the body, and `h` all of the loop. */
  lemma IteratorEmitted(g: Code, a: Option<BlockId>, lo: nat, g1: Code, b1: Option<BlockId>, lo1: nat, vPre: Pseudo,
                        g2: Code, b: LoopBlocks, g4: Code, act: Option<BlockId>, g6: Code, lo2: nat, g8: Code,
                        tBody: Option<Pos>, lo3: nat, h: Code, tPost: Pos, vPost: Pseudo, hi: nat,
                        s: Stmt, brk: BlockId, cont: BlockId)
    requires s.Iterator? && lo <= lo1 && lo3 <= hi && (a.Some? ==> a.value < |g|)
    requires if s.pre.Some? then ExprEmitted(g, a, lo, g1, b1, lo1, s.pre.value, vPre) else g1 == g && b1 == a
    requires ThreeMore(g1, g2, b.body, b.cont, b.end) && LoopEntered(g1, b1, g2, s, g4, act)
    requires act.Some? ==> b.test == EndOf(g4, act.value)
    requires RoundsEmitted(g4, act, lo1, b, g6, lo2, g8, tBody, lo3, h, tPost, vPost, s)
    ensures b.end < |h| && h[b.end].insns == []
    ensures StmtEmitted(g, a, lo, h, Some(b.end), hi, s, brk, cont)
  {
    BuiltSelf(g, a);
    LoopBuilt(g1, b1, g2, b, g4, act, g6, g8, h, s);
    BuiltTrans(g, a, g1, b1, h);
    if a.Some? {
      LoopRuns(g, a, lo, g1, b1, lo1, vPre, g2, b, g4, act, g6, lo2, g8, tBody, lo3, h, tPost, vPost, hi, s, brk, cont);
    }
  }

  /** The parts of the loop put together, where control gets there. */
  lemma LoopRuns(g: Code, a: Option<BlockId>, lo: nat, g1: Code, b1: Option<BlockId>, lo1: nat, vPre: Pseudo, g2: Code,
                 b: LoopBlocks, g4: Code, act: Option<BlockId>, g6: Code, lo2: nat, g8: Code, tBody: Option<Pos>,
                 lo3: nat, h: Code, tPost: Pos, vPost: Pseudo, hi: nat, s: Stmt, brk: BlockId, cont: BlockId)
    requires s.Iterator? && lo <= lo1 && lo3 <= hi && a.Some? && a.value < |g|
    requires if s.pre.Some? then ExprEmitted(g, a, lo, g1, b1, lo1, s.pre.value, vPre) else g1 == g && b1 == a
    requires ThreeMore(g1, g2, b.body, b.cont, b.end) && LoopEntered(g1, b1, g2, s, g4, act)
    requires act.Some? ==> b.test == EndOf(g4, act.value)
    requires RoundsEmitted(g4, act, lo1, b, g6, lo2, g8, tBody, lo3, h, tPost, vPost, s)
    requires Extends(g1, h) && b.end < |h| && h[b.end].insns == []
    ensures StmtSim(h, EndOf(g, a.value), OptionalEnd(h, Some(b.end)), brk, cont, s, lo)
  {
    ExtendsTrans(g6, g8, h);
    TestWeaken(g6, b.test, s.preCond, b.body, b.end, lo1, h, lo1);
    ThenJumpsWeaken(g8, Pos(b.body, 0), tBody, b.end, b.cont, s.body, b.cont, lo2, h, lo1);
    PostWeaken(h, s, b, tPost, vPost, lo3, h, lo1);
    var tPre := EndOf(g1, b1.value);
    ExtendsTrans(g4, g6, h);
    if s.pre.Some? {
      ExprSimExtends(g1, EndOf(g, a.value), tPre, s.pre.value, vPre, lo, h);
    }
    if s.postCond.None? {
      LoopJump(g1, b1.value, g2, b, s, g4, act, h);
    }
    IteratorSim(h, EndOf(g, a.value), tPre, vPre, s, b, tBody, tPost, vPost, brk, cont, lo, lo1);
  }

  lemma LoopBuilt(g1: Code, b1: Option<BlockId>, g2: Code, b: LoopBlocks, g4: Code, act: Option<BlockId>, g6: Code,
                  g8: Code, h: Code, s: Stmt)
    requires (b1.Some? ==> b1.value < |g1|) && ThreeMore(g1, g2, b.body, b.cont, b.end)
    requires LoopEntered(g1, b1, g2, s, g4, act)
    requires Built(g4, act, g6) && Built(g6, Some(b.body), g8) && Built(g8, Some(b.cont), h)
    ensures Built(g1, b1, h) && b.end < |h| && h[b.end].insns == []
  {
    BuiltByInsns(g1, b1, g2);
    if s.postCond.None? {
      BuiltByInsns(g2, b1, g2 + [EmptyBlock]);
      LeaveBuilt(g2 + [EmptyBlock], b1, |g2|);
      BuiltTrans(g2, b1, g2 + [EmptyBlock], b1, g4);
    } else {
      BuiltSelf(g2, b1);
    }
    BuiltTrans(g1, b1, g2, b1, g4);
    BuiltTrans(g1, b1, g4, act, g6);
    BuiltTrans(g1, b1, g6, Some(b.body), g8);
    BuiltTrans(g1, b1, g8, Some(b.cont), h);
    assert BlockKept(g2, g4, b.end) && BlockKept(g4, g6, b.end) && BlockKept(g6, g8, b.end) && BlockKept(g8, h, b.end);
  }

  /** `g9` has the post-statement and `h` the way back. */
  lemma PostEmitted(g: Code, lo: nat, g9: Code, b9: Option<BlockId>, mid: nat, h: Code, s: Stmt, b: LoopBlocks,
                    v: Pseudo, act: Option<BlockId>, hi: nat)
    requires s.Iterator? && b.cont < |g| && g[b.cont].insns == []
    requires b.body < |g| && b.end < |g| && b.cont != b.body && b.cont != b.end
    requires if s.post.Some? then ExprEmitted(g, Some(b.cont), lo, g9, b9, mid, s.post.value, v)
             else g9 == g && b9 == Some(b.cont) && mid == lo
    requires b9.Some? && b9.value < |g9|
    requires if s.postCond.Some? then CondEmitted(g9, b9, mid, h, act, hi, s.postCond.value, b.body, b.end)
             else b.test.pc == 0 && b.test.bb < |g| && b.test.bb != b.cont
                  && h == WithJump(g9, b9.value, Void, b.test.bb, None)
    ensures Built(g, Some(b.cont), h) && PostCode(h, s, b, EndOf(g9, b9.value), v, lo)
  {
    BuiltSelf(g, Some(b.cont));
    var t := EndOf(g9, b9.value);
    if s.postCond.None? {
      ExtendsJump(g9, b9.value, Void, b.test.bb, None);
    } else {
      CondSimWeaken(h, t, b.body, b.end, s.postCond.value, mid, h, lo);
    }
    BuiltTrans(g, Some(b.cont), g9, b9, h);
    if s.post.Some? {
      ExprSimExtends(g9, EndOf(g, b.cont), t, s.post.value, v, lo, h);
    }
  }

  /** The blocks of a loop stay empty until control first goes to its test. */
  lemma LoopEnteredKeeps(g1: Code, b1: Option<BlockId>, g2: Code, s: Stmt, g4: Code, act: Option<BlockId>, b: BlockId)
    requires LoopEntered(g1, b1, g2, s, g4, act) && b < |g2| && Some(b) != b1
    ensures b < |g4| && g4[b].insns == g2[b].insns
  {
    if s.postCond.None? {
      LeaveBuilt(g2 + [EmptyBlock], b1, |g2|);
      assert BlockKept(g2 + [EmptyBlock], g4, b);
    }
  }

  // ---------------------------------------------------------------------------
  // Whole functions
  // ---------------------------------------------------------------------------

  /** A function's code: the entry instruction, the body, and a return where the
      body ends, if control gets there. */
  ghost predicate FunctionCode(g: Code, entry: BlockId, s: Stmt) {
    && InsnAt(g, Pos(entry, 0), Entry)
    && exists t: Option<Pos> ::
         StmtSim(g, Pos(entry, 1), t, 0, 0, s, 0) && (t.Some? ==> InsnAt(g, t.value, Ret(Void)))
  }

  lemma FunctionEmitted(g: Code, entry: BlockId, lo: nat, h: Code, b: Option<BlockId>, hi: nat, s: Stmt)
    requires entry < |g| && g[entry].insns == [Entry] && StmtEmitted(g, Some(entry), lo, h, b, hi, s, 0, 0)
    ensures FunctionCode(if b.Some? then WithInsn(h, b.value, Ret(Void)) else h, entry, s)
  {
    var k := if b.Some? then WithInsn(h, b.value, Ret(Void)) else h;
    var t := OptionalEnd(h, b);
    BuiltSelf(h, None);
    if b.Some? {
      ExtendsInsn(h, b.value, Ret(Void));
    }
    ExtendsTrans(g, h, k);
    StaysAt(g, k, Pos(entry, 0), Entry);
    assert EndOf(g, entry) == Pos(entry, 1);
    StmtSimWeaken(h, Pos(entry, 1), t, 0, 0, s, lo, k, 0);
  }

  lemma {:induction false} NoLooseJumps(s: Stmt, st: Memory, fuel: nat, mode: Mode)
    requires WellNested(s, false)
    ensures Exec(s, st, fuel, mode).outcome.Normal? || Exec(s, st, fuel, mode).outcome.OutOfFuel?
    decreases s, 0
  {
    match s
    case Compound(ss) =>
      NoLooseJumpsAll(ss, |ss|, st, fuel, mode);
      assert ss[..|ss|] == ss;
    case If(cond, t, f) =>
      var c := Eval(cond, st, mode);
      NoLooseJumps(t, c.st, fuel, mode);
      if f.Some? {
        NoLooseJumps(f.value, c.st, fuel, mode);
      }
    case Iterator(pre, preCond, body, post, postCond) =>
      TestEnds(s, EvalOption(pre, st, mode), fuel, mode);
    case _ =>
  }

  lemma {:induction false} NoLooseJumpsAll(ss: seq<Stmt>, n: nat, st: Memory, fuel: nat, mode: Mode)
    requires n <= |ss| && forall i :: 0 <= i < |ss| ==> WellNested(ss[i], false)
    ensures var r := ExecAll(ss[..n], st, fuel, mode); r.outcome.Normal? || r.outcome.OutOfFuel?
    decreases ss, 1, n
  {
    if n > 0 {
      NoLooseJumpsAll(ss, n - 1, st, fuel, mode);
      assert ss[..n][..n - 1] == ss[..n - 1];
      NoLooseJumps(ss[n - 1], ExecAll(ss[..n - 1], st, fuel, mode).st, fuel, mode);
    }
  }

  /** A loop swallows the jumps of its body. */
  lemma {:induction false} BodyEnds(s: Stmt, st: Memory, fuel: nat, mode: Mode)
    requires s.Iterator?
    ensures var r := ExecBody(s.preCond, s.body, s.post, s.postCond, st, fuel, mode);
            r.outcome.Normal? || r.outcome.OutOfFuel?
    decreases fuel, 0
  {
    if fuel > 0 {
      var p := EvalOption(s.post, Exec(s.body, st, fuel, mode).st, mode);
      if s.postCond.Some? {
        BodyEnds(s, Eval(s.postCond.value, p, mode).st, fuel - 1, mode);
      } else {
        TestEnds(s, p, fuel - 1, mode);
      }
    }
  }

  lemma {:induction false} TestEnds(s: Stmt, st: Memory, fuel: nat, mode: Mode)
    requires s.Iterator?
    ensures var r := ExecTest(s.preCond, s.body, s.post, s.postCond, st, fuel, mode);
            r.outcome.Normal? || r.outcome.OutOfFuel?
    decreases fuel, 1
  {
    BodyEnds(s, if s.preCond.Some? then Eval(s.preCond.value, st, mode).st else st, fuel, mode);
  }

  /** A run that ends at a return. */
  ghost predicate Returns(c: Code, m: Config, m': Config) {
    Reaches(c, m, m') && InsnAt(c, m'.pos, Ret(Void))
  }

  lemma FunctionRuns(g: Code, entry: BlockId, s: Stmt, m: Config, fuel: nat) returns (m': Config)
    requires FunctionCode(g, entry, s) && WellNested(s, false) && m.pos == Pos(entry, 0)
    ensures var r := Exec(s, m.st, fuel, Emitted);
            m'.st == r.st && (r.outcome.Normal? ==> Returns(g, m, m'))
            && (!r.outcome.Normal? ==> ReachesIn(g, m, m', fuel))
  {
    var t: Option<Pos> :| StmtSim(g, Pos(entry, 1), t, 0, 0, s, 0) && (t.Some? ==> InsnAt(g, t.value, Ret(Void)));
    ReachesSelf(g, m);
    var m1 := m.(pos := Pos(entry, 1));
    assert Step(g, m) == Some(m1);
    ReachesStep(g, m, m, m1);
    ReachesIsReachesIn(g, m, m1);
    m' := UseStmt(g, Pos(entry, 1), t, 0, 0, s, 0, g, m1, fuel);
    NoLooseJumps(s, m.st, fuel, Emitted);
    ReachesInTrans(g, m, m1, m', 0, Steps(Exec(s, m1.st, fuel, Emitted), fuel));
  }

  lemma {:induction false} RunPrefix(c: Code, m: Config, n: nat, k: nat)
    requires Run(c, m, n).Some? && k <= n
    ensures Run(c, m, k).Some?
    decreases k
  {
    if k > 0 {
      RunPrefix(c, Step(c, m).value, n - 1, k - 1);
    }
  }

  lemma ReturnMeansEnd(g: Code, entry: BlockId, s: Stmt, m: Config, m': Config)
    requires FunctionCode(g, entry, s) && WellNested(s, false) && m.pos == Pos(entry, 0) && Returns(g, m, m')
    ensures Terminates(s, m.st, Emitted)
  {
    var n: nat :| Run(g, m, n) == Some(m');
    var m2 := FunctionRuns(g, entry, s, m, n + 1);
    if !Exec(s, m.st, n + 1, Emitted).outcome.Normal? {
      var k: nat :| k >= n + 1 && Run(g, m, k) == Some(m2);
      RunPrefix(g, m, k, n + 1);
      RunAdd(g, m, n, 1);
      assert false;
    }
  }

  /** A function's code returns exactly when the function's body, run with enough
      fuel, comes to its end, and then with the same variables and the same
      assignments in the same order. */
  lemma FunctionCorrect(g: Code, entry: BlockId, s: Stmt, m: Config)
    requires FunctionCode(g, entry, s) && WellNested(s, false) && m.pos == Pos(entry, 0)
    ensures (exists m' :: Returns(g, m, m')) <==> Terminates(s, m.st, Emitted)
    ensures forall fuel: nat, m' :: Returns(g, m, m') && Exec(s, m.st, fuel, Emitted).outcome.Normal? ==>
      m'.st == Exec(s, m.st, fuel, Emitted).st
  {
    if m' :| Returns(g, m, m') {
      ReturnMeansEnd(g, entry, s, m, m');
    }
    if fuel: nat :| Exec(s, m.st, fuel, Emitted).outcome.Normal? {
      var m' := FunctionRuns(g, entry, s, m, fuel);
    }
    forall fuel: nat, m' | Returns(g, m, m') && Exec(s, m.st, fuel, Emitted).outcome.Normal?
      ensures m'.st == Exec(s, m.st, fuel, Emitted).st
    {
      var m2 := FunctionRuns(g, entry, s, m, fuel);
      ReturnsOnce(g, m, m', m2);
    }
  }

  lemma ReturnsOnce(c: Code, m: Config, m1: Config, m2: Config)
    requires Returns(c, m, m1) && Returns(c, m, m2)
    ensures m1 == m2
  {
    var n1: nat :| Run(c, m, n1) == Some(m1);
    var n2: nat :| Run(c, m, n2) == Some(m2);
    if n1 < n2 {
      RunPrefix(c, m, n2, n1 + 1);
      RunAdd(c, m, n1, 1);
      assert false;
    } else if n2 < n1 {
      RunPrefix(c, m, n1, n2 + 1);
      RunAdd(c, m, n2, 1);
      assert false;
    }
  }
}
