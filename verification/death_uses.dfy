/** What a death note promises: nothing behind the last use reads the pseudo. The table of
    uses (liveness.c) is held against what instructions do. */
module DeathUses {
  import opened Ir
  import opened Semantics
  import opened MemorySemantics
  import opened DeathNotes
  import MemOps

  /** The two machines differ at most in register r. */
  ghost predicate AgreeBut(m: Machine, m': Machine, r: nat) {
    && m'.mem == m.mem && m'.base == m.base.(regs := m'.base.regs)
    && forall x: nat {:trigger ValueOf(m'.base, Reg(x))} :: x != r ==>
         ValueOf(m'.base, Reg(x)) == ValueOf(m.base, Reg(x))
  }

  /** The instruction's uses have the same values in both. */
  predicate SameUses(insn: Instruction, m: Machine, m': Machine) {
    forall p :: p in UsesOf(insn) ==> ValueOf(m'.base, p) == ValueOf(m.base, p)
  }

  lemma {:induction false} SameArguments(args: seq<Pseudo>, c: Config, c': Config)
    requires forall p :: p in args ==> ValueOf(c', p) == ValueOf(c, p)
    ensures Values(c', args) == Values(c, args)
  {
    if |args| > 0 {
      SameArguments(args[..|args| - 1], c, c');
    }
  }

  /** An address of an access is among its uses, and so is what is stored. */
  lemma SameAddress(insn: Instruction, m: Machine, m': Machine)
    requires SameUses(insn, m, m') && (insn.Load? || insn.Store?)
    ensures BlockOf(m', insn.src) == BlockOf(m, insn.src)
    ensures insn.Store? ==> ValueOf(m'.base, insn.target) == ValueOf(m.base, insn.target)
  {
    assert insn.src in UsesOf(insn);
    if insn.Store? {
      assert insn.target in UsesOf(insn);
    }
  }

  /** What an instruction sets its register to. */
  function SetTo(w: World, insn: Instruction, m: Machine): int
    requires MemOps.Sets(insn) != {}
  {
    ValueOf(Do(w, insn, m).base, insn.target)
  }

  /** An instruction that sets a register sets it to the same value, when its uses have the
      same values, and memory is the same. */
  lemma UsesDecideValue(w: World, insn: Instruction, m: Machine, m': Machine)
    requires SameUses(insn, m, m') && m'.mem == m.mem && m'.base.phis == m.base.phis && MemOps.Sets(insn) != {}
    ensures SetTo(w, insn, m') == SetTo(w, insn, m)
  {
    match insn
    case Binary(_, _, _, a, b) =>
      assert a in UsesOf(insn) && b in UsesOf(insn);
    case Unary(_, _, _, a) =>
      assert a in UsesOf(insn);
    case Cast(_, _, _, _, a) =>
      assert a in UsesOf(insn);
    case Sel(_, a, b, c) =>
      assert a in UsesOf(insn) && b in UsesOf(insn) && c in UsesOf(insn);
    case Load(_, _, _, _) =>
      SameAddress(insn, m, m');
    case PhiNode(_, _) =>
    case Call(_, _, _) =>
      SameCall(w, insn, m, m');
  }

  /** Memory and phi-sources come out the same. */
  lemma UsesDecideMemory(w: World, insn: Instruction, m: Machine, m': Machine)
    requires SameUses(insn, m, m') && m'.mem == m.mem && m'.base.phis == m.base.phis
    ensures Do(w, insn, m').mem == Do(w, insn, m).mem && Do(w, insn, m').base.phis == Do(w, insn, m).base.phis
  {
    if insn.Store? {
      SameAddress(insn, m, m');
    } else if insn.PhiSource? {
      assert insn.phiSrc in UsesOf(insn);
    } else if insn.Call? {
      SameCall(w, insn, m, m');
    } else {
      NothingWritten(w, insn, m);
      NothingWritten(w, insn, m');
    }
  }

  lemma NothingWritten(w: World, insn: Instruction, m: Machine)
    requires !insn.Store? && !insn.PhiSource? && !insn.Call?
    ensures Do(w, insn, m).mem == m.mem && Do(w, insn, m).base.phis == m.base.phis
  {
  }

  /** A call gets the same, and comes back with the same. */
  lemma SameCall(w: World, insn: Instruction, m: Machine, m': Machine)
    requires insn.Call? && SameUses(insn, m, m') && m'.mem == m.mem && m'.base.phis == m.base.phis
    ensures Do(w, insn, m').mem == Do(w, insn, m).mem && Do(w, insn, m').base.phis == Do(w, insn, m).base.phis
    ensures insn.target.Reg? ==> SetTo(w, insn, m') == SetTo(w, insn, m)
  {
    assert insn.func in UsesOf(insn) && forall p :: p in insn.arguments ==> p in UsesOf(insn);
    SameArguments(insn.arguments, m.base, m'.base);
  }

  /** Both jump to the same place, and a return hands back the same value. */
  lemma UsesDecideJump(insn: Instruction, m: Machine, m': Machine)
    requires SameUses(insn, m, m') && m'.base.pos == m.base.pos && m'.base.answers == m.base.answers
    ensures NextPos(insn, m'.base) == NextPos(insn, m.base)
    ensures insn.Ret? ==> ValueOf(m'.base, insn.src) == ValueOf(m.base, insn.src)
    ensures insn.ComputedGoto? ==> ValueOf(m'.base, insn.addr) == ValueOf(m.base, insn.addr)
  {
    match insn
    case Ret(p) =>
      assert p in UsesOf(insn);
    case Br(p, _, _) =>
      assert p in UsesOf(insn);
    case Switch(p, _) =>
      assert p in UsesOf(insn);
    case ComputedGoto(p, _) =>
      assert p in UsesOf(insn);
    case _ =>
  }

  lemma {:induction false} RegsOfMembers(ps: seq<Pseudo>, r: nat)
    ensures r in MemOps.RegsOf(ps) <==> Reg(r) in ps
  {
    if |ps| > 0 {
      RegsOfMembers(ps[1..], r);
    }
  }

  /** The registers in the table are those that an instruction reads. */
  lemma UsesAreReads(insn: Instruction, r: nat)
    requires !insn.DeathNote?
    ensures Reg(r) in UsesOf(insn) <==> r in MemOps.Uses(insn)
  {
    if insn.Call? {
      RegsOfMembers(insn.arguments, r);
    }
  }

  // ---------------------------------------------------------------------------
  // After a note
  // ---------------------------------------------------------------------------

  lemma UnusedIsSame(insn: Instruction, m: Machine, m': Machine, r: nat)
    requires AgreeBut(m, m', r) && Reg(r) !in UsesOf(insn)
    ensures SameUses(insn, m, m')
  {
    forall p | p in UsesOf(insn) ensures ValueOf(m'.base, p) == ValueOf(m.base, p) {
      if p.Reg? {
        assert p == Reg(p.nr) && p.nr != r;
      }
    }
  }

  /** Everything but what is in registers comes out the same. */
  lemma SameApart(w: World, insn: Instruction, m: Machine, m': Machine)
    requires SameUses(insn, m, m') && m'.mem == m.mem && m'.base == m.base.(regs := m'.base.regs)
    ensures var k, k' := Do(w, insn, m), Do(w, insn, m'); k'.mem == k.mem && k'.base == k.base.(regs := k'.base.regs)
  {
    UsesDecideMemory(w, insn, m, m');
  }

  lemma OtherRegister(w: World, insn: Instruction, m: Machine, x: nat)
    requires x !in MemOps.Sets(insn)
    ensures ValueOf(Do(w, insn, m).base, Reg(x)) == ValueOf(m.base, Reg(x))
  {
    MemOps.KeepsValue(w, insn, m, Reg(x));
  }

  /** One instruction that does not use r. */
  lemma UnusedStep(w: World, insn: Instruction, m: Machine, m': Machine, r: nat)
    requires AgreeBut(m, m', r) && Reg(r) !in UsesOf(insn)
    ensures AgreeBut(Do(w, insn, m), Do(w, insn, m'), r) && NextPos(insn, m'.base) == NextPos(insn, m.base)
  {
    UnusedIsSame(insn, m, m', r);
    SameApart(w, insn, m, m');
    UsesDecideJump(insn, m, m');
    var k, k' := Do(w, insn, m), Do(w, insn, m');
    forall x: nat | x != r ensures ValueOf(k'.base, Reg(x)) == ValueOf(k.base, Reg(x)) {
      if x in MemOps.Sets(insn) {
        UsesDecideValue(w, insn, m, m');
        assert insn.target == Reg(x);
      } else {
        OtherRegister(w, insn, m, x);
        OtherRegister(w, insn, m', x);
        assert ValueOf(m'.base, Reg(x)) == ValueOf(m.base, Reg(x));
      }
    }
  }

  /** Code that does not use r does the same whatever r holds. */
  lemma {:induction false} UnusedRun(w: World, insns: seq<Instruction>, m: Machine, m': Machine, r: nat)
    requires AgreeBut(m, m', r) && forall k :: 0 <= k < |insns| ==> Reg(r) !in UsesOf(insns[k])
    ensures AgreeBut(DoAll(w, insns, m), DoAll(w, insns, m'), r)
  {
    if |insns| > 0 {
      UnusedStep(w, insns[0], m, m', r);
      UnusedRun(w, insns[1..], Do(w, insns[0], m), Do(w, insns[0], m'), r);
    }
  }

  /** A note for register r stands in the group before an instruction that reads r, and the
      code behind that instruction does the same whatever r holds by then. */
  lemma NoteMeansDead(w: World, insns: seq<Instruction>, live: set<Pseudo>, i: nat, r: nat)
    requires NoNotes(insns) && i < |Annotated(insns, live)| && Annotated(insns, live)[i] == DeathNote(Reg(r))
    ensures Reg(r) !in live
    ensures exists j: nat :: LastRead(w, Annotated(insns, live), i, j, r)
  {
    var s := Annotated(insns, live);
    NotePlace(insns, live, i, Reg(r));
    var j: nat :| BeforeLastUse(s, i, j, Reg(r));
    UsesAreReads(s[j], r);
    forall m, m' | AgreeBut(m, m', r) ensures AgreeBut(DoAll(w, s[j + 1..], m), DoAll(w, s[j + 1..], m'), r) {
      UnusedRun(w, s[j + 1..], m, m', r);
    }
    assert LastRead(w, s, i, j, r);
  }

  ghost predicate LastRead(w: World, s: seq<Instruction>, i: nat, j: nat, r: nat) {
    && i < j < |s| && (forall k :: i <= k < j ==> s[k].DeathNote?) && r in MemOps.Uses(s[j])
    && forall m, m' :: AgreeBut(m, m', r) ==> AgreeBut(DoAll(w, s[j + 1..], m), DoAll(w, s[j + 1..], m'), r)
  }
}
