/** What linear code does. Blocks are numbers; a configuration is a position
    and the data the instructions work on. */
module Semantics {
  import opened Options
  import opened Ir
  import opened Arith
  import opened Ast

  type Code = seq<Block>

  datatype Pos = Pos(bb: nat, pc: nat)

  /** What a call comes back with: its result, and the memory as it left it. */
  datatype Answer = Answer(result: int, st: Memory)

  /** `phis` lists the executed phi-sources, oldest first; `answers` is what the calls to
      come return with, in their order, whatever that is. */
  datatype Config = Config(pos: Pos, regs: map<nat, int>, phis: seq<(nat, int)>, st: Memory, answers: seq<Answer>)

  predicate InsnAt(c: Code, p: Pos, insn: Instruction) {
    p.bb < |c| && p.pc < |c[p.bb].insns| && c[p.bb].insns[p.pc] == insn
  }

  function ValueOf(m: Config, p: Pseudo): int {
    match p
    case Val(v) => v
    case Reg(r) => if r in m.regs then m.regs[r] else 0
    case _ => 0
  }

  /** A phi node reads the phi-source of its list that was executed last. */
  function LastPhi(phis: seq<(nat, int)>, list: seq<Pseudo>): int {
    if phis == [] then 0
    else
      var last := phis[|phis| - 1];
      if Phi(last.0) in list then last.1 else LastPhi(phis[..|phis| - 1], list)
  }

  /** The arm of a switch that a value selects. */
  function Arm(jmps: seq<MultiJmp>, v: int): Option<nat> {
    if jmps == [] then None
    else if jmps[0].begin > jmps[0].end || jmps[0].begin <= v <= jmps[0].end then Some(jmps[0].target)
    else Arm(jmps[1..], v)
  }

  /** An arm takes the values of its range; one with an empty range takes every value. */
  predicate Takes(jmp: MultiJmp, v: int) {
    jmp.begin > jmp.end || jmp.begin <= v <= jmp.end
  }

  /** A switch takes its first arm that takes the value. */
  lemma {:induction false} ArmIsFirst(jmps: seq<MultiJmp>, v: int)
    ensures Arm(jmps, v).Some? <==> exists i :: 0 <= i < |jmps| && Takes(jmps[i], v)
    ensures forall i :: 0 <= i < |jmps| && Takes(jmps[i], v) && (forall j :: 0 <= j < i ==> !Takes(jmps[j], v)) ==>
              Arm(jmps, v) == Some(jmps[i].target)
  {
    if jmps != [] && !Takes(jmps[0], v) {
      var rest := jmps[1..];
      ArmIsFirst(rest, v);
      assert forall i :: 0 < i < |jmps| ==> jmps[i] == rest[i - 1];
      if i :| 0 <= i < |rest| && Takes(rest[i], v) {
        assert Takes(jmps[i + 1], v);
      }
      forall i | 0 <= i < |jmps| && Takes(jmps[i], v) && (forall j :: 0 <= j < i ==> !Takes(jmps[j], v))
        ensures Arm(jmps, v) == Some(jmps[i].target)
      {
        forall j | 0 <= j < i - 1 ensures !Takes(rest[j], v) {
          assert rest[j] == jmps[j + 1];
        }
      }
    }
  }

  /** Where control goes after an instruction; None when it stops there.
      A call does not return when there is no answer; computed gotos are outside this
      semantics. */
  function NextPos(insn: Instruction, m: Config): Option<Pos> {
    match insn
    case Br(_, t, None) => Some(Pos(t, 0))
    case Br(cond, t, Some(f)) => Some(Pos(if ValueOf(m, cond) != 0 then t else f, 0))
    case Switch(cond, jmps) =>
      var t := Arm(jmps, ValueOf(m, cond));
      if t.Some? then Some(Pos(t.value, 0)) else None
    case Ret(_) => None
    case ComputedGoto(_, _) => None
    case Call(_, _, _) => if m.answers == [] then None else Some(Pos(m.pos.bb, m.pos.pc + 1))
    case _ => Some(Pos(m.pos.bb, m.pos.pc + 1))
  }

  function SetReg(m: Config, target: Pseudo, v: int): Config {
    if target.Reg? then m.(regs := m.regs[target.nr := v]) else m
  }

  /** What an instruction does to the data. */
  function Effect(insn: Instruction, m: Config): Config {
    match insn
    case Binary(op, n, t, a, b) => SetReg(m, t, EvalBinary(op, n, ValueOf(m, a), ValueOf(m, b)))
    case Unary(op, n, t, a) => SetReg(m, t, EvalUnary(op, n, ValueOf(m, a)))
    case Cast(signed, o, n, t, s) => SetReg(m, t, EvalCast(signed, o, n, ValueOf(m, s)))
    case Sel(t, a, b, c) => SetReg(m, t, if ValueOf(m, a) != 0 then ValueOf(m, b) else ValueOf(m, c))
    case Load(t, Sym(s), _, _) => SetReg(m, t, m.st.Get(s))
    case Store(v, Sym(s), _, _) => m.(st := m.st.Set(s, ValueOf(m, v)))
    case PhiNode(t, list) => SetReg(m, t, LastPhi(m.phis, list))
    case PhiSource(Phi(p), s) => m.(phis := m.phis + [(p, ValueOf(m, s))])
    case Call(t, _, _) => if m.answers == [] then m
                          else SetReg(m, t, m.answers[0].result).(st := m.answers[0].st, answers := m.answers[1..])
    case _ => m
  }

  function Step(c: Code, m: Config): Option<Config> {
    if m.pos.bb >= |c| || m.pos.pc >= |c[m.pos.bb].insns| then None
    else
      var insn := c[m.pos.bb].insns[m.pos.pc];
      var next := NextPos(insn, m);
      if next.Some? then Some(Effect(insn, m).(pos := next.value)) else None
  }

  /** The configuration after n steps, if the code gets that far. */
  function Run(c: Code, m: Config, n: nat): Option<Config>
    decreases n
  {
    if n == 0 then Some(m)
    else
      var m' := Step(c, m);
      if m'.Some? then Run(c, m'.value, n - 1) else None
  }

  lemma {:induction false} RunAdd(c: Code, m: Config, n: nat, k: nat)
    requires Run(c, m, n).Some?
    ensures Run(c, m, n + k) == Run(c, Run(c, m, n).value, k)
    decreases n
  {
    if n > 0 {
      RunAdd(c, Step(c, m).value, n - 1, k);
    }
  }

  ghost predicate Reaches(c: Code, m: Config, m': Config) {
    exists n :: Run(c, m, n) == Some(m')
  }

  lemma ReachesSelf(c: Code, m: Config)
    ensures Reaches(c, m, m)
  {
    assert Run(c, m, 0) == Some(m);
  }

  lemma ReachesTrans(c: Code, m0: Config, m1: Config, m2: Config)
    requires Reaches(c, m0, m1) && Reaches(c, m1, m2)
    ensures Reaches(c, m0, m2)
  {
    var n :| Run(c, m0, n) == Some(m1);
    var k :| Run(c, m1, k) == Some(m2);
    RunAdd(c, m0, n, k);
  }

  /** One more step after a run. */
  lemma ReachesStep(c: Code, m0: Config, m1: Config, m2: Config)
    requires Reaches(c, m0, m1) && Step(c, m1) == Some(m2)
    ensures Reaches(c, m0, m2)
  {
    assert Run(c, m1, 1) == Some(m2) by { assert Run(c, m2, 0) == Some(m2); }
    ReachesTrans(c, m0, m1, m2);
  }

  ghost predicate BlockGrows(c: Code, d: Code, b: BlockId) {
    b < |c| ==> b < |d| && c[b].insns <= d[b].insns
  }

  /** `d` has every instruction of `c` in its place, and possibly more after them. */
  ghost predicate Extends(c: Code, d: Code) {
    |c| <= |d| && forall b :: BlockGrows(c, d, b)
  }

  lemma ExtendsTrans(c: Code, d: Code, e: Code)
    requires Extends(c, d) && Extends(d, e)
    ensures Extends(c, e)
  {
    forall b ensures BlockGrows(c, e, b) {
      assert BlockGrows(c, d, b) && BlockGrows(d, e, b);
    }
  }

  /** Pseudos numbered up to `lo` keep their values. */
  ghost predicate Agree(m: Config, m': Config, lo: nat) {
    forall r: nat :: r <= lo ==> ValueOf(m, Reg(r)) == ValueOf(m', Reg(r))
  }

  /** The position after the last instruction of a block. */
  function EndOf(c: Code, bb: nat): Pos {
    Pos(bb, if bb < |c| then |c[bb].insns| else 0)
  }
}
