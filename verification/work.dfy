/** When two pieces of linear code do the same work: they come to the same
    instructions other than branches and nops, in the same order and on the same
    data. A simulation of positions is enough to show it. */
module Work {
  import opened Options
  import opened Ir
  import opened Semantics

  /** Branches and nops do no work. A return does, though no step follows it. */
  predicate Visible(insn: Instruction) {
    !insn.IsNop() && !insn.Br? && !insn.Switch? && !insn.ComputedGoto?
  }

  predicate VisibleAt(c: Code, p: Pos, insn: Instruction) {
    InsnAt(c, p, insn) && Visible(insn)
  }

  function At(m: Config, p: Pos): Config {
    m.(pos := p)
  }

  function Log(c: Code, p: Pos): seq<Instruction> {
    if p.bb < |c| && p.pc < |c[p.bb].insns| && Visible(c[p.bb].insns[p.pc]) then [c[p.bb].insns[p.pc]] else []
  }

  /** The working instructions among the first n steps. */
  function Seen(c: Code, m: Config, n: nat): seq<Instruction>
    decreases n
  {
    if n == 0 then []
    else
      var m' := Step(c, m);
      if m'.Some? then Log(c, m.pos) + Seen(c, m'.value, n - 1) else []
  }

  /** The code comes from m to m' in n steps and does `log` on the way. */
  ghost predicate Does(c: Code, m: Config, n: nat, log: seq<Instruction>, m': Config) {
    Run(c, m, n) == Some(m') && Seen(c, m, n) == log
  }

  /** Having done `log`, the code comes to `insn`, with `data`. */
  ghost predicate Performs(c: Code, m: Config, log: seq<Instruction>, insn: Instruction, data: Config) {
    exists n: nat, p :: Does(c, m, n, log, At(data, p)) && VisibleAt(c, p, insn)
  }

  ghost predicate PerformsToo(c: Code, d: Code, m: Config, log: seq<Instruction>, insn: Instruction, data: Config) {
    Performs(c, m, log, insn, data) ==> Performs(d, m, log, insn, data)
  }

  /** Everything c does from `start`, d does. */
  ghost predicate DoesAll(c: Code, d: Code, start: Pos) {
    forall m: Config, log, insn, data :: m.pos == start ==> PerformsToo(c, d, m, log, insn, data)
  }

  ghost predicate SameWork(c: Code, d: Code, start: Pos) {
    DoesAll(c, d, start) && DoesAll(d, c, start)
  }

  lemma SameWorkTrans(c: Code, d: Code, e: Code, start: Pos)
    requires SameWork(c, d, start) && SameWork(d, e, start)
    ensures SameWork(c, e, start)
  {
    forall m: Config, log, insn, data | m.pos == start
      ensures PerformsToo(c, e, m, log, insn, data) && PerformsToo(e, c, m, log, insn, data)
    {
      assert PerformsToo(c, d, m, log, insn, data) && PerformsToo(d, e, m, log, insn, data);
      assert PerformsToo(e, d, m, log, insn, data) && PerformsToo(d, c, m, log, insn, data);
    }
  }

  lemma SameWorkSelf(c: Code, start: Pos)
    ensures SameWork(c, c, start)
  {
  }

  lemma FirstStep(c: Code, m: Config, n: nat, k: nat)
    requires n == k + 1
    ensures Run(c, m, n) == if Step(c, m).Some? then Run(c, Step(c, m).value, k) else None
    ensures Step(c, m).Some? ==> Seen(c, m, n) == Log(c, m.pos) + Seen(c, Step(c, m).value, k)
  {
  }

  lemma {:induction false} SeenAdd(c: Code, m: Config, n: nat, k: nat, nk: nat)
    requires Run(c, m, n).Some? && nk == n + k
    ensures Seen(c, m, nk) == Seen(c, m, n) + Seen(c, Run(c, m, n).value, k)
    decreases n
  {
    if n > 0 {
      var i: nat, ik: nat, m' := n - 1, nk - 1, Step(c, m).value;
      FirstStep(c, m, n, i);
      FirstStep(c, m, nk, ik);
      SeenAdd(c, m', i, k, ik);
      AppendAssoc(Log(c, m.pos), Seen(c, m', i), Seen(c, Run(c, m', i).value, k));
    } else {
      assert nk == k;
    }
  }

  lemma AppendAssoc(a: seq<Instruction>, b: seq<Instruction>, c: seq<Instruction>)
    ensures a + (b + c) == (a + b) + c
  {
  }

  lemma DoesThen(c: Code, m0: Config, n: nat, a: seq<Instruction>, m1: Config, k: nat, b: seq<Instruction>, m2: Config,
                 nk: nat)
    requires Does(c, m0, n, a, m1) && Does(c, m1, k, b, m2) && nk == n + k
    ensures Does(c, m0, nk, a + b, m2)
  {
    RunAdd(c, m0, n, k);
    SeenAdd(c, m0, n, k, nk);
  }

  lemma DoesStep(c: Code, m: Config, m': Config)
    requires Step(c, m) == Some(m')
    ensures forall n :: n == 1 ==> Does(c, m, n, Log(c, m.pos), m')
  {
    var zero := 0;
    assert Run(c, m', zero) == Some(m') && Seen(c, m', zero) == [];
  }

  lemma DoesNothing(c: Code, m: Config)
    ensures Does(c, m, 0, [], m)
  {
  }

  // ---------------------------------------------------------------------------
  // Simulations
  // ---------------------------------------------------------------------------

  type Relation = (Pos, Pos) -> bool

  /** A step of c from p is matched by steps of d from q. */
  ghost predicate Matched(c: Code, d: Code, rel: Relation, p: Pos, q: Pos, m: Config) {
    var m' := Step(c, At(m, p));
    m'.Some? ==>
      exists k: nat, q' :: Does(d, At(m, q), k, Log(c, p), At(m'.value, q')) && rel(m'.value.pos, q')
  }

  /** When c is at a working instruction, d comes to the same. */
  ghost predicate Arrives(c: Code, d: Code, p: Pos, q: Pos, m: Config) {
    forall insn :: VisibleAt(c, p, insn) ==>
      exists k: nat, q' :: Does(d, At(m, q), k, [], At(m, q')) && VisibleAt(d, q', insn)
  }

  ghost predicate Simulation(c: Code, d: Code, rel: Relation) {
    && (forall p, q, m :: rel(p, q) ==> Matched(c, d, rel, p, q, m))
    && (forall p, q, m :: rel(p, q) ==> Arrives(c, d, p, q, m))
  }

  lemma {:induction false} SimulatesRun(c: Code, d: Code, rel: Relation, p: Pos, q: Pos, m: Config, n: nat, m1: Config)
    returns (k: nat, q1: Pos)
    requires Simulation(c, d, rel) && rel(p, q) && Run(c, At(m, p), n) == Some(m1)
    ensures Does(d, At(m, q), k, Seen(c, At(m, p), n), At(m1, q1)) && rel(m1.pos, q1)
    decreases n
  {
    if n == 0 {
      k, q1 := 0, q;
      DoesNothing(d, At(m, q));
    } else {
      assert Matched(c, d, rel, p, q, m);
      var i: nat := n - 1;
      FirstStep(c, At(m, p), n, i);
      var m' := Step(c, At(m, p)).value;
      var k0: nat, q0 :| Does(d, At(m, q), k0, Log(c, p), At(m', q0)) && rel(m'.pos, q0);
      assert At(m', m'.pos) == m';
      var k1;
      k1, q1 := SimulatesRun(c, d, rel, m'.pos, q0, m', i, m1);
      k := k0 + k1;
      DoesThen(d, At(m, q), k0, Log(c, p), At(m', q0), k1, Seen(c, m', i), At(m1, q1), k);
    }
  }

  /** A simulation shows that d does all that c does. */
  lemma SimulationDoesAll(c: Code, d: Code, rel: Relation, start: Pos)
    requires Simulation(c, d, rel) && rel(start, start)
    ensures DoesAll(c, d, start)
  {
    forall m: Config, log, insn, data: Config | m.pos == start && Performs(c, m, log, insn, data)
      ensures Performs(d, m, log, insn, data)
    {
      var n: nat, p :| Does(c, m, n, log, At(data, p)) && VisibleAt(c, p, insn);
      assert At(m, start) == m && At(At(data, p), p) == At(data, p);
      var k, q := SimulatesRun(c, d, rel, start, start, m, n, At(data, p));
      assert At(At(data, p), q) == At(data, q);
      assert Arrives(c, d, p, q, data);
      var k', q' :| Does(d, At(data, q), k', [], At(data, q')) && VisibleAt(d, q', insn);
      DoesThen(d, m, k, log, At(data, q), k', [], At(data, q'), k + k');
      assert log + [] == log;
    }
  }

  // ---------------------------------------------------------------------------
  // Steps at another position
  // ---------------------------------------------------------------------------

  lemma EffectElsewhere(insn: Instruction, m: Config, p: Pos, q: Pos)
    ensures At(Effect(insn, At(m, p)), q) == At(Effect(insn, At(m, q)), q)
  {
  }

  lemma StepOf(c: Code, m: Config, p: Pos, insn: Instruction)
    requires InsnAt(c, p, insn)
    ensures Step(c, At(m, p)) ==
            (var next := NextPos(insn, At(m, p));
               if next.Some? then Some(At(Effect(insn, At(m, p)), next.value)) else None)
    ensures Log(c, p) == if Visible(insn) then [insn] else []
  {
  }

  /** The same instruction at two positions does the same to the data. */
  lemma SameInsn(c: Code, d: Code, m: Config, p: Pos, q: Pos, insn: Instruction)
    requires InsnAt(c, p, insn) && InsnAt(d, q, insn)
    ensures Log(c, p) == Log(d, q)
    ensures Step(c, At(m, p)).Some? <==> Step(d, At(m, q)).Some?
    ensures Step(c, At(m, p)).Some? ==>
      (var m1, m2 := Step(c, At(m, p)).value, Step(d, At(m, q)).value;
      && m2 == At(m1, m2.pos)
      && (if insn.Terminator() then m1.pos == m2.pos
          else m1.pos == Pos(p.bb, p.pc + 1) && m2.pos == Pos(q.bb, q.pc + 1)))
  {
    StepOf(c, m, p, insn);
    StepOf(d, m, q, insn);
    EffectElsewhere(insn, m, p, q);
  }
}
