/** Within one block: a load takes its value from the nearest access to the same place,
    and a store that is overwritten is killed (memops.c, and dominates in flow.c). */
module MemOps {
  import opened Options
  import opened Ir
  import opened Arith
  import opened Semantics
  import opened MemorySemantics

  // ---------------------------------------------------------------------------
  // Does one access stand for another?
  // ---------------------------------------------------------------------------

  /** local_pseudo */
  predicate IsLocal(local: set<int>, p: Pseudo) {
    p.Sym? && p.nr in local
  }

  predicate SameMemop(a: Instruction, b: Instruction)
    requires Accesses(a) && Accesses(b)
  {
    a.offset == b.offset && a.size == b.size
  }

  /** overlapping_memop, in bits. */
  predicate Overlapping(a: Instruction, b: Instruction)
    requires Accesses(a) && Accesses(b)
  {
    !(a.size + 8 * a.offset <= 8 * b.offset) && !(b.size + 8 * b.offset <= 8 * a.offset)
  }

  /** dominates: 1 if dom accesses what insn accesses, 0 if it does not matter, and -1
      if that is not known. */
  function Dominates(local: set<int>, insn: Instruction, dom: Instruction): int
    requires Accesses(insn)
  {
    if dom.Call? || dom.Entry? then if IsLocal(local, insn.src) then 0 else -1
    else if !Accesses(dom) then 0
    else if dom.src != insn.src then
      if IsLocal(local, insn.src) then 0 else if dom.src.Sym? then 0 else -1
    else if !SameMemop(insn, dom) then
      if dom.Load? then 0 else if !Overlapping(insn, dom) then 0 else -1
    else 1
  }

  /** The search for a load's value goes on past dom. */
  predicate Passes(local: set<int>, insn: Instruction, dom: Instruction)
    requires Accesses(insn)
  {
    dom.IsNop() || Dominates(local, insn, dom) == 0 || (Dominates(local, insn, dom) < 0 && dom.Load?)
  }

  predicate Found(local: set<int>, insn: Instruction, dom: Instruction)
    requires Accesses(insn)
  {
    !dom.IsNop() && Dominates(local, insn, dom) > 0
  }

  // ---------------------------------------------------------------------------
  // Single assignment
  // ---------------------------------------------------------------------------

  function RegOf(p: Pseudo): set<nat> {
    if p.Reg? then {p.nr} else {}
  }

  function RegsOf(ps: seq<Pseudo>): set<nat> {
    if |ps| == 0 then {} else RegOf(ps[0]) + RegsOf(ps[1..])
  }

  /** The register an instruction sets. */
  function Sets(insn: Instruction): set<nat> {
    match insn
    case Binary(_, _, t, _, _) => RegOf(t)
    case Unary(_, _, t, _) => RegOf(t)
    case Cast(_, _, _, t, _) => RegOf(t)
    case Sel(t, _, _, _) => RegOf(t)
    case Load(t, _, _, _) => RegOf(t)
    case PhiNode(t, _) => RegOf(t)
    case Call(t, _, _) => RegOf(t)
    case _ => {}
  }

  function Uses(insn: Instruction): set<nat> {
    match insn
    case Ret(p) => RegOf(p)
    case Br(p, _, _) => RegOf(p)
    case Switch(p, _) => RegOf(p)
    case ComputedGoto(p, _) => RegOf(p)
    case Binary(_, _, _, a, b) => RegOf(a) + RegOf(b)
    case Unary(_, _, _, a) => RegOf(a)
    case Cast(_, _, _, _, a) => RegOf(a)
    case Sel(_, a, b, c) => RegOf(a) + RegOf(b) + RegOf(c)
    case Load(_, a, _, _) => RegOf(a)
    case Store(v, a, _, _) => RegOf(v) + RegOf(a)
    case PhiSource(_, s) => RegOf(s)
    case Call(_, f, args) => RegOf(f) + RegsOf(args)
    case DeathNote(p) => RegOf(p)
    case _ => {}
  }

  /** A load sets a register, and what is stored is a value. */
  predicate Plain(insn: Instruction) {
    (insn.Load? ==> insn.target.Reg?) && (insn.Store? ==> !insn.target.Sym?)
  }

  /** `a` comes no later than b: b does not set what a uses or sets. */
  predicate InOrder(a: Instruction, b: Instruction) {
    Uses(a) !! Sets(b) && Sets(a) !! Sets(b)
  }

  predicate OwnUse(a: Instruction) {
    Uses(a) !! Sets(a)
  }

  /** Every register is set once, before it is used. */
  predicate SingleAssignment(insns: seq<Instruction>) {
    && (forall i, j :: 0 <= i < j < |insns| ==> InOrder(insns[i], insns[j]))
    && (forall i :: 0 <= i < |insns| ==> OwnUse(insns[i]))
    && (forall i :: 0 <= i < |insns| ==> Plain(insns[i]))
  }

  // ---------------------------------------------------------------------------
  // Taking one register's place
  // ---------------------------------------------------------------------------

  function SubstP(p: Pseudo, r: nat, q: Pseudo): Pseudo {
    if p == Reg(r) then q else p
  }

  function SubstPs(ps: seq<Pseudo>, r: nat, q: Pseudo): (s: seq<Pseudo>)
    ensures |s| == |ps|
  {
    if |ps| == 0 then [] else SubstPs(ps[..|ps| - 1], r, q) + [SubstP(ps[|ps| - 1], r, q)]
  }

  /** q in the place of register r, wherever the instruction uses it. */
  function Subst(insn: Instruction, r: nat, q: Pseudo): Instruction {
    match insn
    case Ret(p) => Ret(SubstP(p, r, q))
    case Br(p, t, f) => Br(SubstP(p, r, q), t, f)
    case Switch(p, jmps) => Switch(SubstP(p, r, q), jmps)
    case ComputedGoto(p, jmps) => ComputedGoto(SubstP(p, r, q), jmps)
    case Binary(op, n, t, a, b) => Binary(op, n, t, SubstP(a, r, q), SubstP(b, r, q))
    case Unary(op, n, t, a) => Unary(op, n, t, SubstP(a, r, q))
    case Cast(s, o, n, t, a) => Cast(s, o, n, t, SubstP(a, r, q))
    case Sel(t, a, b, c) => Sel(t, SubstP(a, r, q), SubstP(b, r, q), SubstP(c, r, q))
    case Load(t, a, o, n) => Load(t, SubstP(a, r, q), o, n)
    case Store(v, a, o, n) => Store(SubstP(v, r, q), SubstP(a, r, q), o, n)
    case PhiSource(t, s) => PhiSource(t, SubstP(s, r, q))
    case Call(t, f, args) => Call(t, SubstP(f, r, q), SubstPs(args, r, q))
    case DeathNote(p) => DeathNote(SubstP(p, r, q))
    case _ => insn
  }

  function SubstAll(insns: seq<Instruction>, r: nat, q: Pseudo): (s: seq<Instruction>)
    ensures |s| == |insns|
    ensures forall i :: 0 <= i < |s| ==> s[i] == Subst(insns[i], r, q)
  {
    if |insns| == 0 then [] else [Subst(insns[0], r, q)] + SubstAll(insns[1..], r, q)
  }

  /** m' is m, but that q has the value of register r, which no longer matters. */
  ghost predicate Stands(m: Machine, m': Machine, r: nat, q: Pseudo) {
    && m'.mem == m.mem && m'.base.phis == m.base.phis
    && ValueOf(m'.base, q) == ValueOf(m.base, Reg(r))
    && (forall x: nat {:trigger ValueOf(m'.base, Reg(x))} :: x != r ==>
          ValueOf(m'.base, Reg(x)) == ValueOf(m.base, Reg(x)))
  }

  lemma SubstValue(m: Machine, m': Machine, r: nat, q: Pseudo, p: Pseudo)
    requires Stands(m, m', r, q)
    ensures ValueOf(m'.base, SubstP(p, r, q)) == ValueOf(m.base, p)
  {
  }

  lemma {:induction false} SubstValues(m: Machine, m': Machine, r: nat, q: Pseudo, ps: seq<Pseudo>)
    requires Stands(m, m', r, q)
    ensures Values(m'.base, SubstPs(ps, r, q)) == Values(m.base, ps)
  {
    if |ps| > 0 {
      var front := ps[..|ps| - 1];
      SubstValues(m, m', r, q, front);
      SubstValue(m, m', r, q, ps[|ps| - 1]);
      assert SubstPs(ps, r, q)[..|ps| - 1] == SubstPs(front, r, q);
    }
  }

  lemma SetRegValue(c: Config, t: Pseudo, v: int, p: Pseudo)
    ensures ValueOf(SetReg(c, t, v), p) == if t.Reg? && p == t then v else ValueOf(c, p)
  {
  }

  lemma SetBoth(m: Machine, m': Machine, r: nat, q: Pseudo, t: Pseudo, v: int)
    requires Stands(m, m', r, q) && RegOf(t) !! ({r} + RegOf(q))
    ensures Stands(m.(base := SetReg(m.base, t, v)), m'.(base := SetReg(m'.base, t, v)), r, q)
  {
    var k, k' := m.(base := SetReg(m.base, t, v)), m'.(base := SetReg(m'.base, t, v));
    forall x: nat ensures x != r ==> ValueOf(k'.base, Reg(x)) == ValueOf(k.base, Reg(x)) {
      SetRegValue(m.base, t, v, Reg(x));
      SetRegValue(m'.base, t, v, Reg(x));
      assert x != r ==> ValueOf(m'.base, Reg(x)) == ValueOf(m.base, Reg(x));
    }
    SetRegValue(m.base, t, v, Reg(r));
    SetRegValue(m'.base, t, v, q);
  }

  lemma SubstSane(w: World, insn: Instruction, m: Machine, m': Machine, r: nat, q: Pseudo)
    requires Stands(m, m', r, q) && !q.Sym? && Sane(w, insn, m)
    ensures Sane(w, Subst(insn, r, q), m')
  {
    if insn.Load? {
      SubstValue(m, m', r, q, insn.src);
    } else if insn.Store? {
      SubstValue(m, m', r, q, insn.src);
      SubstValue(m, m', r, q, insn.target);
    }
  }

  /** An instruction that computes a value from values. */
  lemma SubstComputed(w: World, insn: Instruction, m: Machine, m': Machine, r: nat, q: Pseudo)
    requires Stands(m, m', r, q) && !q.Sym? && Sets(insn) !! ({r} + RegOf(q))
    requires insn.Binary? || insn.Unary? || insn.Cast? || insn.Sel?
    ensures Stands(Do(w, insn, m), Do(w, Subst(insn, r, q), m'), r, q)
  {
    match insn
    case Binary(op, n, t, a, b) =>
      SubstValue(m, m', r, q, a);
      SubstValue(m, m', r, q, b);
      SetBoth(m, m', r, q, t, EvalBinary(op, n, ValueOf(m.base, a), ValueOf(m.base, b)));
    case Unary(op, n, t, a) =>
      SubstValue(m, m', r, q, a);
      SetBoth(m, m', r, q, t, EvalUnary(op, n, ValueOf(m.base, a)));
    case Cast(s, o, n, t, a) =>
      SubstValue(m, m', r, q, a);
      SetBoth(m, m', r, q, t, EvalCast(s, o, n, ValueOf(m.base, a)));
    case Sel(t, a, b, c) =>
      SubstValue(m, m', r, q, a);
      SubstValue(m, m', r, q, b);
      SubstValue(m, m', r, q, c);
      SetBoth(m, m', r, q, t, if ValueOf(m.base, a) != 0 then ValueOf(m.base, b) else ValueOf(m.base, c));
  }

  lemma SubstAccess(w: World, insn: Instruction, m: Machine, m': Machine, r: nat, q: Pseudo)
    requires Stands(m, m', r, q) && !q.Sym? && Sets(insn) !! ({r} + RegOf(q)) && Accesses(insn)
    ensures Stands(Do(w, insn, m), Do(w, Subst(insn, r, q), m'), r, q)
  {
    SubstValue(m, m', r, q, insn.src);
    if insn.Load? {
      SetBoth(m, m', r, q, insn.target, LoadBytes(m.mem, BlockOf(m, insn.src), insn.offset, BytesOf(insn.size)));
    } else {
      SubstValue(m, m', r, q, insn.target);
    }
  }

  /** One instruction, with q in the place of register r. */
  lemma SubstDo(w: World, insn: Instruction, m: Machine, m': Machine, r: nat, q: Pseudo)
    requires Stands(m, m', r, q) && !q.Sym? && Sets(insn) !! ({r} + RegOf(q))
    ensures Stands(Do(w, insn, m), Do(w, Subst(insn, r, q), m'), r, q)
  {
    if insn.Binary? || insn.Unary? || insn.Cast? || insn.Sel? {
      SubstComputed(w, insn, m, m', r, q);
    } else if Accesses(insn) {
      SubstAccess(w, insn, m, m', r, q);
    } else if insn.PhiNode? || insn.PhiSource? || insn.Call? {
      SubstOther(w, insn, m, m', r, q);
    } else {
      DoesNothing(w, insn, m);
      DoesNothing(w, Subst(insn, r, q), m');
    }
  }

  /** Jumps, notes and instructions that are no more change no data. */
  lemma DoesNothing(w: World, insn: Instruction, m: Machine)
    requires !(insn.Binary? || insn.Unary? || insn.Cast? || insn.Sel? || Accesses(insn))
    requires !(insn.PhiNode? || insn.PhiSource? || insn.Call?)
    ensures Do(w, insn, m) == m
  {
  }

  lemma SubstOther(w: World, insn: Instruction, m: Machine, m': Machine, r: nat, q: Pseudo)
    requires Stands(m, m', r, q) && Sets(insn) !! ({r} + RegOf(q))
    requires insn.PhiNode? || insn.PhiSource? || insn.Call?
    ensures Stands(Do(w, insn, m), Do(w, Subst(insn, r, q), m'), r, q)
  {
    match insn
    case PhiNode(t, list) => SetBoth(m, m', r, q, t, LastPhi(m.base.phis, list));
    case PhiSource(t, s) => SubstPhiSource(w, m, m', r, q, t, s);
    case Call(t, f, args) => SubstCall(w, m, m', r, q, t, f, args);
  }

  lemma SubstPhiSource(w: World, m: Machine, m': Machine, r: nat, q: Pseudo, t: Pseudo, s: Pseudo)
    requires Stands(m, m', r, q)
    ensures Stands(Do(w, PhiSource(t, s), m), Do(w, PhiSource(t, SubstP(s, r, q)), m'), r, q)
  {
    SubstValue(m, m', r, q, s);
    var k, k' := Do(w, PhiSource(t, s), m), Do(w, PhiSource(t, SubstP(s, r, q)), m');
    forall x: nat ensures x != r ==> ValueOf(k'.base, Reg(x)) == ValueOf(k.base, Reg(x)) {
      assert x != r ==> ValueOf(m'.base, Reg(x)) == ValueOf(m.base, Reg(x));
    }
  }

  lemma SubstCall(w: World, m: Machine, m': Machine, r: nat, q: Pseudo, t: Pseudo, f: Pseudo, args: seq<Pseudo>)
    requires Stands(m, m', r, q) && RegOf(t) !! ({r} + RegOf(q))
    ensures Stands(Called(w, m, t, f, args), Called(w, m', t, SubstP(f, r, q), SubstPs(args, r, q)), r, q)
  {
    SubstValue(m, m', r, q, f);
    SubstValues(m, m', r, q, args);
    SetBoth(m, m', r, q, t, w.result([ValueOf(m.base, f)] + Values(m.base, args), Outside(m.mem, w.local)));
  }

  lemma {:induction false} SubstDoAll(w: World, insns: seq<Instruction>, m: Machine, m': Machine, r: nat, q: Pseudo)
    requires Stands(m, m', r, q) && !q.Sym? && SaneRun(w, insns, m)
    requires forall i :: 0 <= i < |insns| ==> Sets(insns[i]) !! ({r} + RegOf(q))
    ensures Stands(DoAll(w, insns, m), DoAll(w, SubstAll(insns, r, q), m'), r, q)
    ensures SaneRun(w, SubstAll(insns, r, q), m')
    decreases |insns|
  {
    if |insns| > 0 {
      SubstSane(w, insns[0], m, m', r, q);
      SubstDo(w, insns[0], m, m', r, q);
      assert SubstAll(insns, r, q)[1..] == SubstAll(insns[1..], r, q);
      SubstDoAll(w, insns[1..], Do(w, insns[0], m), Do(w, Subst(insns[0], r, q), m'), r, q);
    }
  }

  // ---------------------------------------------------------------------------
  // A load and the access that dominates it
  // ---------------------------------------------------------------------------

  /** What is known of the address of an access that is made. */
  predicate AddressSane(w: World, insn: Instruction, m: Machine)
    requires Accesses(insn)
  {
    if insn.src.Sym? then insn.src.nr in w.named
    else BlockOf(m, insn.src) !in w.named && BlockOf(m, insn.src) !in w.local
  }

  function Loaded(insn: Instruction, m: Machine): int
    requires Accesses(insn)
  {
    LoadBytes(m.mem, BlockOf(m, insn.src), insn.offset, BytesOf(insn.size))
  }

  /** A store that is passed is elsewhere. */
  lemma PassedStore(w: World, insn: Instruction, dom: Instruction, m: Machine)
    requires Accesses(insn) && dom.Store? && Passes(w.local, insn, dom) && Sane(w, dom, m) && AddressSane(w, insn, m)
    ensures BlockOf(m, dom.src) != BlockOf(m, insn.src) ||
            dom.offset + BytesOf(dom.size) <= insn.offset || insn.offset + BytesOf(insn.size) <= dom.offset
  {
  }

  lemma PassKeeps(w: World, insn: Instruction, dom: Instruction, m: Machine)
    requires Accesses(insn) && Passes(w.local, insn, dom) && Sane(w, dom, m) && AddressSane(w, insn, m)
    requires Sets(dom) !! RegOf(insn.src)
    ensures BlockOf(Do(w, dom, m), insn.src) == BlockOf(m, insn.src)
    ensures Loaded(insn, Do(w, dom, m)) == Loaded(insn, m)
  {
    var m', b, o, n := Do(w, dom, m), BlockOf(m, insn.src), insn.offset, BytesOf(insn.size);
    KeepsValue(w, dom, m, insn.src);
    forall l | Within(l, b, o, n) ensures Get(m'.mem, l) == Get(m.mem, l) {
      if dom.Store? {
        PassedStore(w, insn, dom, m);
        StoredAt(m.mem, BlockOf(m, dom.src), dom.offset, BytesOf(dom.size), ValueOf(m.base, dom.target), l);
      } else if dom.Call? {
        assert l.block in w.local;
      }
    }
    LoadSame(m'.mem, m.mem, b, o, n);
  }

  /** The bytes that an access is about. */
  predicate AtByte(insn: Instruction, m: Machine, l: Loc)
    requires Accesses(insn)
  {
    Within(l, BlockOf(m, insn.src), insn.offset, BytesOf(insn.size))
  }

  /** What the answers of dominates say about a run that is sane: 1 is an access to the
      same bytes; an instruction with 0 changes none of them, and reads none either,
      but for a load at the same address that overlaps in part. */
  lemma DominatesMeans(w: World, insn: Instruction, dom: Instruction, m: Machine)
    requires Accesses(insn) && Sane(w, dom, m) && AddressSane(w, insn, m)
    ensures Dominates(w.local, insn, dom) == 1 <==>
            Accesses(dom) && dom.src == insn.src && dom.offset == insn.offset && dom.size == insn.size
    ensures Dominates(w.local, insn, dom) == -1 <==>
            || ((dom.Call? || dom.Entry?) && !IsLocal(w.local, insn.src))
            || (Accesses(dom) && dom.src != insn.src && !dom.src.Sym? && !IsLocal(w.local, insn.src))
            || (dom.Store? && dom.src == insn.src && !(dom.offset == insn.offset && dom.size == insn.size)
                && insn.offset * 8 < dom.offset * 8 + dom.size && dom.offset * 8 < insn.offset * 8 + insn.size)
    ensures Dominates(w.local, insn, dom) == 1 ==>
              Accesses(dom) && forall l :: AtByte(dom, m, l) <==> AtByte(insn, m, l)
    ensures Dominates(w.local, insn, dom) == 0 ==>
              forall l :: AtByte(insn, m, l) ==> Get(Do(w, dom, m).mem, l) == Get(m.mem, l)
    ensures Dominates(w.local, insn, dom) == 0 && Accesses(dom)
            && (exists l :: AtByte(insn, m, l) && AtByte(dom, m, l)) ==>
              dom.Load? && dom.src == insn.src && !SameMemop(insn, dom) && Overlapping(insn, dom)
  {
    if Dominates(w.local, insn, dom) == 0 {
      forall l | AtByte(insn, m, l) ensures Get(Do(w, dom, m).mem, l) == Get(m.mem, l) {
        if dom.Store? {
          PassedStore(w, insn, dom, m);
          StoredAt(m.mem, BlockOf(m, dom.src), dom.offset, BytesOf(dom.size), ValueOf(m.base, dom.target), l);
        }
      }
    }
  }

  /** An instruction changes no value but the one it sets. */
  lemma KeepsValue(w: World, insn: Instruction, m: Machine, p: Pseudo)
    requires Sets(insn) !! RegOf(p)
    ensures ValueOf(Do(w, insn, m).base, p) == ValueOf(m.base, p)
  {
  }

  /** From the dominating access to the load nothing changes. */
  lemma {:induction false} MiddleKeeps(w: World, insn: Instruction, q: Pseudo, mid: seq<Instruction>, m: Machine)
    requires Accesses(insn) && SaneRun(w, mid, m) && AddressSane(w, insn, m)
    requires forall k :: 0 <= k < |mid| ==>
               Passes(w.local, insn, mid[k]) && Sets(mid[k]) !! (RegOf(insn.src) + RegOf(q))
    ensures Loaded(insn, DoAll(w, mid, m)) == Loaded(insn, m)
    ensures ValueOf(DoAll(w, mid, m).base, q) == ValueOf(m.base, q)
    decreases |mid|
  {
    if |mid| > 0 {
      PassKeeps(w, insn, mid[0], m);
      KeepsValue(w, mid[0], m, q);
      MiddleKeeps(w, insn, q, mid[1..], Do(w, mid[0], m));
    }
  }

  /** The j-th instruction gives the i-th, a load, its value. */
  predicate Dominated(local: set<int>, insns: seq<Instruction>, i: nat, j: nat) {
    && j < i < |insns| && insns[i].Load? && Found(local, insns[i], insns[j])
    && (forall k :: j < k < i ==> Passes(local, insns[i], insns[k]))
  }

  /** convert_load_instruction */
  function Forwarded(insns: seq<Instruction>, i: nat, j: nat): (s: seq<Instruction>)
    requires j < i < |insns| && insns[i].Load? && insns[i].target.Reg? && Accesses(insns[j])
    ensures |s| == |insns|
  {
    SubstAll(insns[i := LNop], insns[i].target.nr, insns[j].target)
  }

  lemma {:induction false} SubstPsId(ps: seq<Pseudo>, r: nat, q: Pseudo)
    requires r !in RegsOf(ps)
    ensures SubstPs(ps, r, q) == ps
  {
    if |ps| > 0 {
      RegsOfFront(ps);
      SubstPsId(ps[..|ps| - 1], r, q);
    }
  }

  lemma {:induction false} RegsOfFront(ps: seq<Pseudo>)
    requires |ps| > 0
    ensures RegsOf(ps) == RegsOf(ps[..|ps| - 1]) + RegOf(ps[|ps| - 1])
  {
    if |ps| > 1 {
      RegsOfFront(ps[1..]);
      assert ps[1..][..|ps| - 2] == ps[..|ps| - 1][1..];
    }
  }

  lemma SubstId(insn: Instruction, r: nat, q: Pseudo)
    requires r !in Uses(insn)
    ensures Subst(insn, r, q) == insn
  {
    if insn.Call? {
      SubstPsId(insn.arguments, r, q);
    }
  }

  lemma {:induction false} SubstAllId(insns: seq<Instruction>, r: nat, q: Pseudo)
    requires forall i :: 0 <= i < |insns| ==> r !in Uses(insns[i])
    ensures SubstAll(insns, r, q) == insns
  {
    if |insns| > 0 {
      SubstId(insns[0], r, q);
      SubstAllId(insns[1..], r, q);
    }
  }

  /** What comes before and after the load, when it is forwarded. */
  lemma ForwardedParts(insns: seq<Instruction>, i: nat, j: nat, next: nat, r: nat, q: Pseudo)
    requires SingleAssignment(insns) && j < i < |insns| && insns[i].Load? && Accesses(insns[j]) && insns[i].target.Reg?
    requires next == i + 1 && r == insns[i].target.nr && q == insns[j].target
    ensures Forwarded(insns, i, j) == insns[..i] + [LNop] + SubstAll(insns[next..], r, q)
    ensures insns == insns[..i] + [insns[i]] + insns[next..]
  {
    SplitAround(insns, i, next, insns[i], insns);
    SubstAllAround(insns, i, next, r, q);
    BeforeLoadSame(insns, i, r, q, insns[..i], SubstAll(insns[..i], r, q));
  }

  lemma SubstAllAround(insns: seq<Instruction>, i: nat, next: nat, r: nat, q: Pseudo)
    requires i < |insns| && next == i + 1
    ensures SubstAll(insns[i := LNop], r, q) == SubstAll(insns[..i], r, q) + [LNop] + SubstAll(insns[next..], r, q)
  {
    SplitAround(insns, i, next, LNop, insns[i := LNop]);
    SubstAllParts(insns[..i], LNop, insns[next..], r, q);
  }

  /** Nothing before the load uses its register. */
  lemma BeforeLoadSame(insns: seq<Instruction>, i: nat, r: nat, q: Pseudo, pre: seq<Instruction>,
                       now: seq<Instruction>)
    requires SingleAssignment(insns) && i < |insns| && insns[i].Load? && insns[i].target == Reg(r)
    requires pre == insns[..i] && now == SubstAll(pre, r, q)
    ensures now == pre
  {
    forall k | 0 <= k < |pre| ensures now[k] == pre[k] {
      assert InOrder(insns[k], insns[i]);
      SubstId(insns[k], r, q);
    }
  }

  lemma SplitAround(s: seq<Instruction>, i: nat, next: nat, x: Instruction, t: seq<Instruction>)
    requires i < |s| && next == i + 1 && t == s[i := x]
    ensures t == s[..i] + [x] + s[next..]
  {
  }

  lemma SubstAllParts(a: seq<Instruction>, x: Instruction, b: seq<Instruction>, r: nat, q: Pseudo)
    ensures SubstAll(a + [x] + b, r, q) == SubstAll(a, r, q) + [Subst(x, r, q)] + SubstAll(b, r, q)
  {
  }

  /** The load sees what the dominating access accessed. */
  lemma LoadValueThere(w: World, insns: seq<Instruction>, i: nat, j: nat, m: Machine)
    requires SingleAssignment(insns) && Dominated(w.local, insns, i, j) && SaneRun(w, insns[..i], m)
    ensures Loaded(insns[i], DoAll(w, insns[..i], m)) == ValueOf(DoAll(w, insns[..i], m).base, insns[j].target)
  {
    var load, dom, pre, mid := insns[i], insns[j], insns[..j], insns[j + 1..i];
    var q := dom.target;
    assert insns[..i] == pre + ([dom] + mid);
    DoAllAppend(w, pre, [dom] + mid, m);
    var m0 := DoAll(w, pre, m);
    assert ([dom] + mid)[1..] == mid;
    var m1 := Do(w, dom, m0);
    assert OwnUse(dom);
    KeepsValue(w, dom, m0, dom.src);
    if dom.Store? {
      KeepsValue(w, dom, m0, q);
      ReadBack(m0.mem, BlockOf(m0, dom.src), dom.offset, BytesOf(dom.size), ValueOf(m0.base, q));
    }
    assert Loaded(load, m1) == ValueOf(m1.base, q);
    MiddlePasses(w, insns, i, j, j + 1, mid);
    MiddleKeeps(w, load, q, mid, m1);
  }

  lemma MiddlePasses(w: World, insns: seq<Instruction>, i: nat, j: nat, next: nat, mid: seq<Instruction>)
    requires SingleAssignment(insns) && Dominated(w.local, insns, i, j) && next == j + 1 && mid == insns[next..i]
    ensures forall k :: 0 <= k < |mid| ==>
              Passes(w.local, insns[i], mid[k]) && Sets(mid[k]) !! (RegOf(insns[i].src) + RegOf(insns[j].target))
  {
    forall k | 0 <= k < |mid|
      ensures Passes(w.local, insns[i], mid[k]) && Sets(mid[k]) !! (RegOf(insns[i].src) + RegOf(insns[j].target))
    {
      assert mid[k] == insns[next + k];
      assert InOrder(insns[j], insns[next + k]) && InOrder(insns[next + k], insns[i]);
    }
  }

  lemma StandsAfter(w: World, load: Instruction, dom: Instruction, mi: Machine)
    requires load.Load? && Accesses(dom) && InOrder(dom, load) && Plain(load) && Plain(dom)
    requires Loaded(load, mi) == ValueOf(mi.base, dom.target)
    ensures Stands(Do(w, load, mi), mi, load.target.nr, dom.target)
  {
    var m1, r := Do(w, load, mi), load.target.nr;
    SetRegValue(mi.base, load.target, Loaded(load, mi), dom.target);
    forall x: nat ensures x != r ==> ValueOf(mi.base, Reg(x)) == ValueOf(m1.base, Reg(x)) {
      SetRegValue(mi.base, load.target, Loaded(load, mi), Reg(x));
    }
  }

  lemma LaterSets(insns: seq<Instruction>, i: nat, j: nat, post: seq<Instruction>, r: nat, q: Pseudo)
    requires SingleAssignment(insns) && j < i < |insns| && insns[i].Load? && Accesses(insns[j]) && insns[i].target.Reg?
    requires post == insns[i + 1..] && r == insns[i].target.nr && q == insns[j].target
    ensures forall k :: 0 <= k < |post| ==> Sets(post[k]) !! ({r} + RegOf(q))
  {
    forall k | 0 <= k < |post| ensures Sets(post[k]) !! ({r} + RegOf(q)) {
      var h := i + 1 + k;
      assert post[k] == insns[h] && InOrder(insns[i], insns[h]) && InOrder(insns[j], insns[h]);
    }
  }

  /** Forwarding one load: its register's value is the dominating access's from then on. */
  lemma ForwardOne(w: World, insns: seq<Instruction>, i: nat, j: nat, m: Machine)
    requires SingleAssignment(insns) && Dominated(w.local, insns, i, j) && SaneRun(w, insns, m)
    ensures SaneRun(w, Forwarded(insns, i, j), m)
    ensures Stands(DoAll(w, insns, m), DoAll(w, Forwarded(insns, i, j), m), insns[i].target.nr, insns[j].target)
  {
    var load, dom, next := insns[i], insns[j], i + 1;
    assert InOrder(dom, load) && Plain(dom) && Plain(load);
    var r, q, pre, post := load.target.nr, dom.target, insns[..i], insns[next..];
    ForwardedParts(insns, i, j, next, r, q);
    DoAllMiddle(w, pre, load, post, m);
    LoadValueThere(w, insns, i, j, m);
    var mi := DoAll(w, pre, m);
    StandsAfter(w, load, dom, mi);
    LaterSets(insns, i, j, post, r, q);
    SubstDoAll(w, post, Do(w, load, mi), mi, r, q);
    DoAllMiddle(w, pre, LNop, SubstAll(post, r, q), m);
    assert Do(w, LNop, mi) == mi && Sane(w, LNop, mi);
  }

  /** Registers are still set once, before they are used. */
  lemma ForwardKeepsOrder(insns: seq<Instruction>, i: nat, j: nat)
    requires SingleAssignment(insns) && j < i < |insns| && insns[i].Load? && Accesses(insns[j])
    ensures SingleAssignment(Forwarded(insns, i, j))
  {
    var f, r, q := Forwarded(insns, i, j), insns[i].target.nr, insns[j].target;
    forall k | 0 <= k < |f| ensures OwnUse(f[k]) && Plain(f[k]) && Sets(f[k]) <= Sets(insns[k])
      && Uses(f[k]) <= Uses(insns[k]) + (if k > i then RegOf(q) else {})
    {
      assert OwnUse(insns[k]) && Plain(insns[k]) && Plain(insns[j]) && InOrder(insns[j], insns[i]);
      SubstUses(insns[k], r, q);
      if k < i {
        assert InOrder(insns[k], insns[i]);
        SubstId(insns[k], r, q);
      } else if k > i {
        assert InOrder(insns[j], insns[k]);
      }
    }
    forall a, b | 0 <= a < b < |f| ensures InOrder(f[a], f[b]) {
      assert InOrder(insns[a], insns[b]) && (a > i ==> InOrder(insns[j], insns[b]));
      StaysInOrder(insns[a], insns[b], insns[j], f[a], f[b], a > i);
    }
  }

  /** Two instructions stay in order when the first only uses in addition what an access
      before both of them loads or stores. */
  lemma StaysInOrder(x: Instruction, y: Instruction, dom: Instruction, x': Instruction, y': Instruction, more: bool)
    requires InOrder(x, y) && (more ==> InOrder(dom, y)) && Accesses(dom)
    requires Sets(x') <= Sets(x) && Sets(y') <= Sets(y)
    requires Uses(x') <= Uses(x) + (if more then RegOf(dom.target) else {})
    ensures InOrder(x', y')
  {
  }

  lemma {:induction false} SubstPsUses(ps: seq<Pseudo>, r: nat, q: Pseudo)
    ensures RegsOf(SubstPs(ps, r, q)) <= RegsOf(ps) + RegOf(q)
  {
    if |ps| > 0 {
      RegsOfFront(ps);
      RegsOfFront(SubstPs(ps, r, q));
      SubstPsUses(ps[..|ps| - 1], r, q);
      assert SubstPs(ps, r, q)[..|ps| - 1] == SubstPs(ps[..|ps| - 1], r, q);
    }
  }

  lemma SubstUses(insn: Instruction, r: nat, q: Pseudo)
    ensures Uses(Subst(insn, r, q)) <= Uses(insn) + RegOf(q) && Sets(Subst(insn, r, q)) == Sets(insn)
    ensures !q.Sym? && Plain(insn) ==> Plain(Subst(insn, r, q))
  {
    if insn.Call? {
      SubstPsUses(insn.arguments, r, q);
    }
  }

  // ---------------------------------------------------------------------------
  // All loads of a block
  // ---------------------------------------------------------------------------

  /** Registers whose loads are gone, with what has their values now. */
  type Standins = map<nat, Pseudo>

  function Standin(sub: Standins, x: nat): Pseudo {
    if x in sub then sub[x] else Reg(x)
  }

  ghost predicate Standing(m: Machine, m': Machine, sub: Standins) {
    && m'.mem == m.mem && m'.base.phis == m.base.phis
    && (forall x: nat {:trigger Standin(sub, x)} :: ValueOf(m'.base, Standin(sub, x)) == ValueOf(m.base, Reg(x)))
  }

  function OneMore(sub: Standins, r: nat, q: Pseudo): Standins {
    map x | x in sub.Keys + {r} :: SubstP(Standin(sub, x), r, q)
  }

  lemma StandingOneMore(m: Machine, m1: Machine, m2: Machine, sub: Standins, r: nat, q: Pseudo)
    requires Standing(m, m1, sub) && Stands(m1, m2, r, q)
    ensures Standing(m, m2, OneMore(sub, r, q))
  {
    forall x: nat ensures ValueOf(m2.base, Standin(OneMore(sub, r, q), x)) == ValueOf(m.base, Reg(x)) {
      assert ValueOf(m1.base, Standin(sub, x)) == ValueOf(m.base, Reg(x));
      SubstValue(m1, m2, r, q, Standin(sub, x));
      assert Standin(OneMore(sub, r, q), x) == SubstP(Standin(sub, x), r, q);
    }
  }

  /** On a run of the old block that is sane, the new block does the same. */
  ghost predicate SameOn(w: World, before: seq<Instruction>, after: seq<Instruction>, sub: Standins, m: Machine) {
    SaneRun(w, before, m) ==> SaneRun(w, after, m) && Standing(DoAll(w, before, m), DoAll(w, after, m), sub)
  }

  ghost predicate SameBlock(local: set<int>, before: seq<Instruction>, after: seq<Instruction>, sub: Standins) {
    forall w: World, m: Machine {:trigger SameOn(w, before, after, sub, m)} :: w.local == local ==>
      SameOn(w, before, after, sub, m)
  }

  lemma SameSelf(local: set<int>, insns: seq<Instruction>)
    ensures SameBlock(local, insns, insns, map[])
  {
  }

  lemma ForwardKeepsBlock(local: set<int>, before: seq<Instruction>, insns: seq<Instruction>, sub: Standins, i: nat,
                          j: nat)
    requires SameBlock(local, before, insns, sub) && SingleAssignment(insns) && Dominated(local, insns, i, j)
    ensures SingleAssignment(Forwarded(insns, i, j))
    ensures SameBlock(local, before, Forwarded(insns, i, j), OneMore(sub, insns[i].target.nr, insns[j].target))
  {
    ForwardKeepsOrder(insns, i, j);
    var f, sub' := Forwarded(insns, i, j), OneMore(sub, insns[i].target.nr, insns[j].target);
    forall w: World, m: Machine | w.local == local ensures SameOn(w, before, f, sub', m) {
      assert SameOn(w, before, insns, sub, m);
      if SaneRun(w, before, m) {
        ForwardOne(w, insns, i, j, m);
        StandingOneMore(DoAll(w, before, m), DoAll(w, insns, m), DoAll(w, f, m), sub, insns[i].target.nr,
                        insns[j].target);
      }
    }
  }

  lemma DominatedOnce(local: set<int>, insns: seq<Instruction>, i: nat, j: nat, k: nat)
    requires Dominated(local, insns, i, j) && Dominated(local, insns, i, k)
    ensures j == k
  {
  }

  ghost function Dominator(local: set<int>, insns: seq<Instruction>, i: nat): (found: Option<nat>)
    ensures found.Some? ==> Dominated(local, insns, i, found.value)
    ensures found.None? ==> forall j: nat :: !Dominated(local, insns, i, j)
  {
    if j: nat :| Dominated(local, insns, i, j) then Some(j) else None
  }

  /** The block when the loads before the i-th instruction have had their turn, the last
      one first: each that an access dominates by then is forwarded, and no other. */
  ghost function LoadsForwarded(local: set<int>, insns: seq<Instruction>, i: nat): seq<Instruction>
    requires i <= |insns| && SingleAssignment(insns)
    decreases i
  {
    if i == 0 then insns
    else
      var dom := Dominator(local, insns, i - 1);
      if dom.Some? then
        assert Plain(insns[i - 1]);
        ForwardKeepsOrder(insns, i - 1, dom.value);
        LoadsForwarded(local, Forwarded(insns, i - 1, dom.value), i - 1)
      else LoadsForwarded(local, insns, i - 1)
  }

  /** Some access of the block gives the i-th instruction, a load, its value. */
  ghost predicate HasDominator(local: set<int>, insns: seq<Instruction>, i: nat) {
    exists j: nat :: Dominated(local, insns, i, j)
  }

  /** The same kind of instruction, with other operands perhaps. */
  predicate SameKind(a: Instruction, b: Instruction) {
    && (a.LNop? <==> b.LNop?) && (a.SNop? <==> b.SNop?) && (a.Load? <==> b.Load?) && (a.Store? <==> b.Store?)
  }

  lemma ForwardedKinds(insns: seq<Instruction>, i: nat, j: nat, k: nat)
    requires SingleAssignment(insns) && j < i < |insns| && k < |insns|
    requires insns[i].Load? && insns[i].target.Reg? && Accesses(insns[j])
    ensures var f := Forwarded(insns, i, j);
            if k < i then f[k] == insns[k] else if k == i then f[k] == LNop else SameKind(f[k], insns[k])
  {
    var r, q, cut := insns[i].target.nr, insns[j].target, insns[i := LNop];
    assert Forwarded(insns, i, j)[k] == Subst(cut[k], r, q);
    if k < i {
      assert InOrder(insns[k], insns[i]);
      SubstId(insns[k], r, q);
    }
  }

  /** Whether an access dominates the i-th instruction is decided before it. */
  lemma DominatedBefore(local: set<int>, a: seq<Instruction>, b: seq<Instruction>, i: nat)
    requires i < |a| == |b| && forall k :: 0 <= k <= i ==> b[k] == a[k]
    ensures HasDominator(local, a, i) <==> HasDominator(local, b, i)
  {
    if j: nat :| Dominated(local, a, i, j) {
      assert Dominated(local, b, i, j);
    }
    if j: nat :| Dominated(local, b, i, j) {
      assert Dominated(local, a, i, j);
    }
  }

  /** What became of the k-th instruction when the loads before the i-th had their turn. */
  ghost predicate LoadTurn(local: set<int>, insns: seq<Instruction>, i: nat, k: nat, s: seq<Instruction>) {
    && |s| == |insns| && k < |insns|
    && if k < i && HasDominator(local, insns, k) then s[k] == LNop else SameKind(s[k], insns[k])
  }

  /** The loads that go are exactly those that an access of the block dominated before any
      went: what is forwarded later stands before. */
  lemma {:induction false} WhichLoadsGo(local: set<int>, insns: seq<Instruction>, i: nat, k: nat)
    requires i <= |insns| && SingleAssignment(insns) && k < |insns|
    ensures LoadTurn(local, insns, i, k, LoadsForwarded(local, insns, i))
    decreases i
  {
    if i > 0 {
      var last := i - 1;
      var f := OneLoad(local, insns, last, i);
      WhichLoadsGo(local, f, last, k);
      LoadTurnThere(local, insns, last, i, k, f, LoadsForwarded(local, f, last));
    }
  }

  /** The block after the turn of the load at `last`. */
  ghost predicate AfterLoad(local: set<int>, insns: seq<Instruction>, last: nat, f: seq<Instruction>) {
    || (f == insns && !HasDominator(local, insns, last))
    || exists j: nat :: LoadForwarded(local, insns, last, j, f)
  }

  ghost predicate LoadForwarded(local: set<int>, insns: seq<Instruction>, last: nat, j: nat, f: seq<Instruction>) {
    Dominated(local, insns, last, j) && insns[last].target.Reg? && f == Forwarded(insns, last, j)
  }

  lemma OneLoad(local: set<int>, insns: seq<Instruction>, last: nat, i: nat) returns (f: seq<Instruction>)
    requires SingleAssignment(insns) && i == last + 1 <= |insns|
    ensures SingleAssignment(f) && |f| == |insns| && AfterLoad(local, insns, last, f)
    ensures LoadsForwarded(local, insns, i) == LoadsForwarded(local, f, last)
  {
    var dom := Dominator(local, insns, last);
    f := insns;
    if dom.Some? {
      LoadGoes(local, insns, last, i, dom.value);
      f := Forwarded(insns, last, dom.value);
      assert LoadForwarded(local, insns, last, dom.value, f);
    } else {
      LoadStays(local, insns, last, i);
    }
  }

  lemma LoadGoes(local: set<int>, insns: seq<Instruction>, last: nat, i: nat, j: nat)
    requires SingleAssignment(insns) && i == last + 1 <= |insns| && Dominator(local, insns, last) == Some(j)
    ensures insns[last].target.Reg? && SingleAssignment(Forwarded(insns, last, j))
    ensures LoadsForwarded(local, insns, i) == LoadsForwarded(local, Forwarded(insns, last, j), last)
  {
    assert Plain(insns[last]);
    ForwardKeepsOrder(insns, last, j);
  }

  lemma LoadStays(local: set<int>, insns: seq<Instruction>, last: nat, i: nat)
    requires SingleAssignment(insns) && i == last + 1 <= |insns| && Dominator(local, insns, last) == None
    ensures LoadsForwarded(local, insns, i) == LoadsForwarded(local, insns, last) && !HasDominator(local, insns, last)
  {
  }

  lemma LoadTurnThere(local: set<int>, insns: seq<Instruction>, last: nat, i: nat, k: nat, f: seq<Instruction>,
                      s: seq<Instruction>)
    requires SingleAssignment(insns) && AfterLoad(local, insns, last, f) && i == last + 1
    requires LoadTurn(local, f, last, k, s) && |f| == |insns|
    ensures LoadTurn(local, insns, i, k, s)
  {
    if HasDominator(local, insns, last) {
      var j: nat :| LoadForwarded(local, insns, last, j, f);
      LaterForwarded(local, insns, last, j, k, f);
      assert k == last ==> SameKind(s[k], LNop);
    }
  }

  lemma LaterForwarded(local: set<int>, insns: seq<Instruction>, i: nat, j: nat, k: nat, f: seq<Instruction>)
    requires SingleAssignment(insns) && Dominated(local, insns, i, j) && insns[i].target.Reg? && k < |insns|
    requires f == Forwarded(insns, i, j)
    ensures k < i ==> f[k] == insns[k] && (HasDominator(local, f, k) <==> HasDominator(local, insns, k))
    ensures k == i ==> f[k] == LNop && HasDominator(local, insns, k)
    ensures k > i ==> SameKind(f[k], insns[k])
  {
    ForwardedKinds(insns, i, j, k);
    if k < i {
      ForwardedBefore(insns, i, j, k);
      DominatedBefore(local, insns, f, k);
    }
  }

  lemma ForwardedBefore(insns: seq<Instruction>, i: nat, j: nat, n: nat)
    requires SingleAssignment(insns) && j < i < |insns| && n < i
    requires insns[i].Load? && insns[i].target.Reg? && Accesses(insns[j])
    ensures forall k :: 0 <= k <= n ==> Forwarded(insns, i, j)[k] == insns[k]
  {
    forall k | 0 <= k <= n ensures Forwarded(insns, i, j)[k] == insns[k] {
      ForwardedKinds(insns, i, j, k);
    }
  }

  /** What simplify_loads leaves of a block. */
  ghost predicate LoadsGone(local: set<int>, before: seq<Instruction>, after: seq<Instruction>) {
    && |after| == |before|
    && forall k :: 0 <= k < |before| ==>
         if HasDominator(local, before, k) then after[k] == LNop else SameKind(after[k], before[k])
  }

  lemma LoadsAreGone(local: set<int>, insns: seq<Instruction>, n: nat)
    requires SingleAssignment(insns) && n == |insns|
    ensures LoadsGone(local, insns, LoadsForwarded(local, insns, n))
  {
    WhichLoadsHaveLength(local, insns, n);
    forall k | 0 <= k < |insns|
      ensures var s := LoadsForwarded(local, insns, n);
              if HasDominator(local, insns, k) then s[k] == LNop else SameKind(s[k], insns[k])
    {
      WhichLoadsGo(local, insns, n, k);
    }
  }

  lemma WhichLoadsHaveLength(local: set<int>, insns: seq<Instruction>, n: nat)
    requires SingleAssignment(insns) && n == |insns|
    ensures |LoadsForwarded(local, insns, n)| == |insns|
  {
    if n > 0 {
      WhichLoadsGo(local, insns, n, 0);
    }
  }

  /** The instructions of a block, which the passes change in place. */
  class InsnList {
    var insns: seq<Instruction>

    constructor (insns: seq<Instruction>)
      ensures this.insns == insns
    {
      this.insns := insns;
    }

    /** The inner loop of simplify_loads: the nearest access that dominates the load. */
    method FindDominator(local: set<int>, i: nat) returns (found: bool, j: nat)
      requires i < |insns| && insns[i].Load?
      ensures found ==> Dominated(local, insns, i, j)
      ensures !found ==> forall k: nat :: !Dominated(local, insns, i, k)
    {
      found, j := false, i;
      while j > 0
        invariant j <= i && forall k :: j <= k < i ==> Passes(local, insns[i], insns[k])
      {
        j := j - 1;
        if insns[j].IsNop() {
          continue;
        }
        var dominance := Dominates(local, insns[i], insns[j]);
        if dominance != 0 {
          if dominance < 0 {
            if insns[j].Load? {
              continue;
            }
            return;
          }
          found := true;
          return;
        }
      }
    }

    /** simplify_loads, as far as the block itself goes. */
    method SimplifyLoads(local: set<int>) returns (ghost sub: Standins)
      requires SingleAssignment(insns)
      modifies this
      ensures SingleAssignment(insns) && SameBlock(local, old(insns), insns, sub)
      ensures insns == LoadsForwarded(local, old(insns), |old(insns)|)
      ensures LoadsGone(local, old(insns), insns)
    {
      LoadsAreGone(local, insns, |insns|);
      sub := map[];
      SameSelf(local, insns);
      var i: nat := |insns|;
      while i != 0
        invariant i <= |insns| && SingleAssignment(insns) && SameBlock(local, old(insns), insns, sub)
        invariant LoadsForwarded(local, insns, i) == LoadsForwarded(local, old(insns), |old(insns)|)
      {
        i := i - 1;
        if insns[i].Load? {
          sub := SimplifyLoad(local, i, old(insns), sub);
        }
      }
    }

    /** One load of simplify_loads. */
    method SimplifyLoad(local: set<int>, i: nat, ghost before: seq<Instruction>, ghost sub0: Standins)
      returns (ghost sub: Standins)
      requires i < |insns| && insns[i].Load? && SingleAssignment(insns) && SameBlock(local, before, insns, sub0)
      modifies this
      ensures |insns| == |old(insns)| && SingleAssignment(insns) && SameBlock(local, before, insns, sub)
      ensures LoadsForwarded(local, insns, i) == LoadsForwarded(local, old(insns), i + 1)
    {
      sub := sub0;
      var found, j := FindDominator(local, i);
      if found {
        DominatedOnce(local, insns, i, j, Dominator(local, insns, i).value);
        ForwardKeepsBlock(local, before, insns, sub, i, j);
        assert Plain(insns[i]);
        sub := OneMore(sub, insns[i].target.nr, insns[j].target);
        insns := Forwarded(insns, i, j);
      }
    }

    /** The inner loop of kill_dominated_stores_mem: the stores that the i-th instruction,
        a store, overwrites are killed. */
    method KillBefore(local: set<int>, i: nat)
      requires i < |insns| && insns[i].Store?
      modifies this
      ensures insns == Killed(local, old(insns), i)
    {
      ghost var was := insns;
      var j: nat := i;
      while j != 0
        invariant j <= i && |insns| == |was| && insns[..j] == was[..j] && insns[i..] == was[i..]
        invariant forall k :: j <= k < i ==> Skipped(local, was[i], was[k])
        invariant forall k :: j <= k < i ==> insns[k] == if Overwritten(local, was, i, k) then SNop else was[k]
      {
        j := j - 1;
        assert insns[j] == was[..j + 1][j] && insns[i] == insns[i..][0];
        if insns[j].IsNop() {
          continue;
        }
        var dominance := Dominates(local, insns[i], insns[j]);
        if dominance != 0 {
          if dominance < 0 || insns[j].Load? {
            StopsHere(local, was, i, j);
            KilledIs(local, was, i, insns);
            return;
          }
          insns := insns[j := SNop];
        }
      }
      KilledIs(local, was, i, insns);
    }

    /** kill_dominated_stores_mem */
    method KillDominatedStores(local: set<int>)
      requires SingleAssignment(insns) && Tidy(insns)
      modifies this
      ensures SingleAssignment(insns) && Tidy(insns) && SameEffect(local, old(insns), insns)
      ensures insns == StoresKilled(local, old(insns), |old(insns)|)
      ensures StoresGone(local, old(insns), insns)
    {
      var i: nat := |insns|;
      while i != 0
        invariant i <= |insns| && SingleAssignment(insns) && Tidy(insns)
        invariant SameEffect(local, old(insns), insns)
        invariant StoresKilled(local, insns, i) == StoresKilled(local, old(insns), |old(insns)|)
      {
        i := i - 1;
        if insns[i].Store? {
          KillStore(local, i, old(insns));
        }
      }
      StoresAreGone(local, old(insns), |old(insns)|);
    }

    /** One store of kill_dominated_stores_mem. */
    method KillStore(local: set<int>, i: nat, ghost before: seq<Instruction>)
      requires i < |insns| && insns[i].Store? && SingleAssignment(insns) && Tidy(insns)
      requires SameEffect(local, before, insns)
      modifies this
      ensures |insns| == |old(insns)| && SingleAssignment(insns) && Tidy(insns) && SameEffect(local, before, insns)
      ensures StoresKilled(local, insns, i) == StoresKilled(local, old(insns), i + 1)
    {
      KillKeepsBlock(local, before, insns, i);
      KillBefore(local, i);
    }
  }

  // ---------------------------------------------------------------------------
  // Overwritten stores
  // ---------------------------------------------------------------------------

  /** simplify_memops, for one block: the loads, and then the stores. `middle` is the block
      in between. */
  method SimplifyMemops(list: InsnList, local: set<int>) returns (ghost sub: Standins, ghost middle: seq<Instruction>)
    requires SingleAssignment(list.insns) && Tidy(LoadsForwarded(local, list.insns, |list.insns|))
    modifies list
    ensures SingleAssignment(list.insns) && SameBlock(local, old(list.insns), list.insns, sub)
    ensures LoadsGone(local, old(list.insns), middle) && StoresGone(local, middle, list.insns)
    ensures |list.insns| == |old(list.insns)|
    ensures forall k :: 0 <= k < |list.insns| ==>
              (list.insns[k].LNop? <==> old(list.insns)[k].LNop? || HasDominator(local, old(list.insns), k))
    ensures forall i: nat, k: nat :: Overwritten(local, middle, i, k) ==> list.insns[k] == SNop
  {
    ghost var before := list.insns;
    sub := list.SimplifyLoads(local);
    middle := list.insns;
    list.KillDominatedStores(local);
    BlockThenEffect(local, before, middle, list.insns, sub);
  }

  lemma BlockThenEffect(local: set<int>, a: seq<Instruction>, b: seq<Instruction>, c: seq<Instruction>, sub: Standins)
    requires SameBlock(local, a, b, sub) && SameEffect(local, b, c)
    ensures SameBlock(local, a, c, sub)
  {
    forall w: World, m: Machine | w.local == local ensures SameOn(w, a, c, sub, m) {
      assert SameOn(w, a, b, sub, m) && SameEffectOn(w, b, c, m);
    }
  }

  /** No load, at whatever address, is of a part of what a store writes at its address: their
      offsets and sizes are the same or apart. */
  predicate Layered(insns: seq<Instruction>) {
    forall i, k :: 0 <= i < |insns| && 0 <= k < |insns| ==> LayeredAt(insns[i], insns[k])
  }

  predicate LayeredAt(store: Instruction, load: Instruction) {
    store.Store? && load.Load? ==> SameMemop(store, load) || !Overlapping(store, load)
  }

  lemma LayeredIsTidy(insns: seq<Instruction>)
    requires Layered(insns)
    ensures Tidy(insns)
  {
    forall i, j, k | 0 <= j < k < i < |insns| ensures TidyAt(insns, i, j, k) {
      assert LayeredAt(insns[i], insns[k]);
    }
  }

  lemma SubstShape(insn: Instruction, r: nat, q: Pseudo)
    ensures var s := Subst(insn, r, q);
            (s.Store? <==> insn.Store?) && (s.Load? <==> insn.Load?)
            && (Accesses(insn) ==> s.offset == insn.offset && s.size == insn.size)
  {
  }

  lemma LayeredForwarded(insns: seq<Instruction>, i: nat, j: nat)
    requires j < i < |insns| && insns[i].Load? && insns[i].target.Reg? && Accesses(insns[j]) && Layered(insns)
    ensures Layered(Forwarded(insns, i, j))
  {
    var r, q, s := insns[i].target.nr, insns[j].target, Forwarded(insns, i, j);
    var cut := insns[i := LNop];
    forall a, k | 0 <= a < |s| && 0 <= k < |s| ensures LayeredAt(s[a], s[k]) {
      assert s[a] == Subst(cut[a], r, q) && s[k] == Subst(cut[k], r, q);
      SubstShape(cut[a], r, q);
      SubstShape(cut[k], r, q);
      assert LayeredAt(insns[a], insns[k]);
    }
  }

  /** Such a block stays so when its loads are forwarded, though addresses become the same. */
  lemma {:induction false} LayeredStays(local: set<int>, insns: seq<Instruction>, i: nat)
    requires i <= |insns| && SingleAssignment(insns) && Layered(insns)
    ensures Tidy(LoadsForwarded(local, insns, i))
    decreases i
  {
    if i == 0 {
      LayeredIsTidy(insns);
    } else {
      var dom := Dominator(local, insns, i - 1);
      if dom.Some? {
        assert Plain(insns[i - 1]);
        ForwardKeepsOrder(insns, i - 1, dom.value);
        LayeredForwarded(insns, i - 1, dom.value);
        LayeredStays(local, Forwarded(insns, i - 1, dom.value), i - 1);
      } else {
        LayeredStays(local, insns, i - 1);
      }
    }
  }

  /** Accesses at the same address are the same or apart. */
  predicate Apart(a: Instruction, b: Instruction) {
    Accesses(a) && Accesses(b) && a.src == b.src ==> SameMemop(a, b) || !Overlapping(a, b)
  }

  /** If the k-th instruction is a load between two stores to the same place, it loads all
      of that place or nothing of it. */
  predicate TidyAt(insns: seq<Instruction>, i: nat, j: nat, k: nat)
    requires j < k < i < |insns|
  {
    insns[i].Store? && insns[j].Store? && insns[j].src == insns[i].src && SameMemop(insns[i], insns[j])
    && insns[k].Load? ==>
      Apart(insns[i], insns[k])
  }

  predicate Tidy(insns: seq<Instruction>) {
    forall i, j, k :: 0 <= j < k < i < |insns| ==> TidyAt(insns, i, j, k)
  }

  /** A pass that leaves each instruction or makes a nop of it keeps that. */
  lemma TidyStays(insns: seq<Instruction>, s: seq<Instruction>)
    requires Tidy(insns) && |s| == |insns| && forall h :: 0 <= h < |s| ==> s[h] == insns[h] || s[h] == SNop
    ensures Tidy(s)
  {
    forall i, j, k | 0 <= j < k < i < |s| ensures TidyAt(s, i, j, k) {
      assert TidyAt(insns, i, j, k);
    }
  }

  /** The search for overwritten stores goes on past dom. */
  predicate Skipped(local: set<int>, store: Instruction, dom: Instruction)
    requires Accesses(store)
  {
    dom.IsNop() || Dominates(local, store, dom) == 0 || (Dominates(local, store, dom) > 0 && dom.Store?)
  }

  /** The j-th instruction is a store that the i-th overwrites before anything reads it. */
  predicate Overwritten(local: set<int>, insns: seq<Instruction>, i: nat, j: nat) {
    && j < i < |insns| && insns[i].Store? && insns[j].Store? && Found(local, insns[i], insns[j])
    && (forall k :: j < k < i ==> Skipped(local, insns[i], insns[k]))
  }

  lemma StopsHere(local: set<int>, insns: seq<Instruction>, i: nat, j: nat)
    requires j < i < |insns| && insns[i].Store? && !Skipped(local, insns[i], insns[j])
    ensures forall k :: 0 <= k <= j ==> !Overwritten(local, insns, i, k)
  {
  }

  /** The block when the stores that the i-th instruction overwrites are killed. */
  function Killed(local: set<int>, insns: seq<Instruction>, i: nat): (s: seq<Instruction>)
    ensures |s| == |insns|
    ensures forall k :: 0 <= k < |s| ==> s[k] == if Overwritten(local, insns, i, k) then SNop else insns[k]
  {
    seq(|insns|, k requires 0 <= k < |insns| => if Overwritten(local, insns, i, k) then SNop else insns[k])
  }

  /** The stores before the i-th instruction have had their turn, the last one first. */
  function StoresKilled(local: set<int>, insns: seq<Instruction>, i: nat): seq<Instruction>
    requires i <= |insns|
    decreases i
  {
    if i == 0 then insns
    else if insns[i - 1].Store? then StoresKilled(local, Killed(local, insns, i - 1), i - 1)
    else StoresKilled(local, insns, i - 1)
  }

  lemma KilledAt(local: set<int>, insns: seq<Instruction>, i: nat, k: nat)
    requires k < |insns|
    ensures Killed(local, insns, i)[k] == insns[k] || (insns[k].Store? && Killed(local, insns, i)[k] == SNop)
  {
  }

  /** The pass leaves each instruction, or makes a nop of a store. */
  lemma {:induction false} OnlyStoresGo(local: set<int>, insns: seq<Instruction>, i: nat, k: nat)
    requires i <= |insns| && k < |insns|
    ensures var s := StoresKilled(local, insns, i);
            |s| == |insns| && (s[k] == insns[k] || (insns[k].Store? && s[k] == SNop))
    decreases i
  {
    if i > 0 {
      if insns[i - 1].Store? {
        OnlyStoresGo(local, Killed(local, insns, i - 1), i - 1, k);
        KilledAt(local, insns, i - 1, k);
      } else {
        OnlyStoresGo(local, insns, i - 1, k);
      }
    }
  }

  lemma SamePlace(local: set<int>, a: Instruction, b: Instruction, dom: Instruction)
    requires a.Store? && b.Store? && a.src == b.src && SameMemop(a, b) && Skipped(local, a, dom)
    ensures Skipped(local, b, dom)
  {
  }

  /** A store that overwrites one that overwrites a third overwrites the third. */
  lemma OverwrittenTrans(local: set<int>, insns: seq<Instruction>, t: nat, i: nat, j: nat)
    requires Overwritten(local, insns, t, i) && Overwritten(local, insns, i, j)
    ensures Overwritten(local, insns, t, j)
  {
    forall k | j < k < t ensures Skipped(local, insns[t], insns[k]) {
      if k < i {
        SamePlace(local, insns[i], insns[t], insns[k]);
      }
    }
  }

  /** Killing other stores in between does not save an overwritten one. */
  lemma StillOverwritten(local: set<int>, a: seq<Instruction>, b: seq<Instruction>, i: nat, j: nat)
    requires Overwritten(local, a, i, j) && |b| == |a| && b[i] == a[i] && b[j] == a[j]
    requires forall k :: 0 <= k < |a| ==> b[k] == a[k] || b[k] == SNop
    ensures Overwritten(local, b, i, j)
  {
    forall k | j < k < i ensures Skipped(local, b[i], b[k]) {
      assert Skipped(local, a[i], a[k]);
    }
  }

  /** The turn of a store behind: what is overwritten is killed or still overwritten. */
  lemma OneStoresTurn(local: set<int>, insns: seq<Instruction>, t: nat, i: nat, j: nat, killed: seq<Instruction>)
    requires i <= t < |insns| && insns[t].Store? && Overwritten(local, insns, i, j)
    requires killed == Killed(local, insns, t)
    ensures if Overwritten(local, insns, t, j) then killed[j] == SNop else i < t && Overwritten(local, killed, i, j)
  {
    if !Overwritten(local, insns, t, j) {
      if Overwritten(local, insns, t, i) {
        OverwrittenTrans(local, insns, t, i, j);
      }
      StillOverwritten(local, insns, killed, i, j);
    }
  }

  /** Whatever a store overwrites is killed: by that store or, if it is killed itself before
      its turn, by the store that overwrites it. */
  lemma {:induction false} OverwrittenGo(local: set<int>, insns: seq<Instruction>, n: nat, i: nat, j: nat)
    requires n <= |insns| && i < n && Overwritten(local, insns, i, j)
    ensures |StoresKilled(local, insns, n)| == |insns| && StoresKilled(local, insns, n)[j] == SNop
    decreases n
  {
    var t := n - 1;
    if insns[t].Store? {
      var killed := Killed(local, insns, t);
      OneStoresTurn(local, insns, t, i, j, killed);
      if Overwritten(local, insns, t, j) {
        OnlyStoresGo(local, killed, t, j);
      } else {
        OverwrittenGo(local, killed, t, i, j);
      }
    } else {
      OverwrittenGo(local, insns, t, i, j);
    }
  }

  lemma KilledIs(local: set<int>, insns: seq<Instruction>, i: nat, s: seq<Instruction>)
    requires |s| == |insns|
    requires forall k :: 0 <= k < |s| ==> s[k] == if Overwritten(local, insns, i, k) then SNop else insns[k]
    ensures s == Killed(local, insns, i)
  {
  }

  /** What kill_dominated_stores_mem leaves of a block. */
  ghost predicate StoresGone(local: set<int>, before: seq<Instruction>, after: seq<Instruction>) {
    && |after| == |before|
    && (forall k :: 0 <= k < |before| ==> after[k] == before[k] || (before[k].Store? && after[k] == SNop))
    && (forall i: nat, j: nat :: Overwritten(local, before, i, j) ==> after[j] == SNop)
  }

  lemma StoresAreGone(local: set<int>, insns: seq<Instruction>, n: nat)
    requires n == |insns|
    ensures StoresGone(local, insns, StoresKilled(local, insns, n))
  {
    var s := StoresKilled(local, insns, n);
    if n > 0 {
      OnlyStoresGo(local, insns, n, 0);
    }
    forall k | 0 <= k < |insns| ensures s[k] == insns[k] || (insns[k].Store? && s[k] == SNop) {
      OnlyStoresGo(local, insns, n, k);
    }
    forall i: nat, j: nat | Overwritten(local, insns, i, j) ensures s[j] == SNop {
      OverwrittenGo(local, insns, n, i, j);
    }
  }

  ghost predicate SameEffectOn(w: World, before: seq<Instruction>, after: seq<Instruction>, m: Machine) {
    SaneRun(w, before, m) ==> SaneRun(w, after, m) && DoAll(w, after, m) == DoAll(w, before, m)
  }

  /** Every value and all of memory come out the same. */
  ghost predicate SameEffect(local: set<int>, before: seq<Instruction>, after: seq<Instruction>) {
    forall w: World, m: Machine {:trigger SameEffectOn(w, before, after, m)} :: w.local == local ==>
      SameEffectOn(w, before, after, m)
  }

  lemma KillKeepsBlock(local: set<int>, before: seq<Instruction>, insns: seq<Instruction>, i: nat)
    requires SameEffect(local, before, insns) && SingleAssignment(insns) && Tidy(insns) && i < |insns|
             && insns[i].Store?
    ensures SingleAssignment(Killed(local, insns, i)) && Tidy(Killed(local, insns, i))
    ensures SameEffect(local, before, Killed(local, insns, i))
  {
    var killed := Killed(local, insns, i);
    forall a, b | 0 <= a < b < |killed| ensures InOrder(killed[a], killed[b]) {
      assert InOrder(insns[a], insns[b]);
    }
    forall a | 0 <= a < |killed| ensures OwnUse(killed[a]) && Plain(killed[a]) {
      assert OwnUse(insns[a]) && Plain(insns[a]);
    }
    TidyStays(insns, killed);
    forall w: World, m: Machine | w.local == local ensures SameEffectOn(w, before, killed, m) {
      assert SameEffectOn(w, before, insns, m);
      if SaneRun(w, before, m) {
        KillAll(w, insns, i, m);
      }
    }
  }

  /** The machines differ at most in what the store writes. */
  ghost predicate AgreeOutside(m: Machine, m': Machine, store: Instruction)
    requires Accesses(store)
  {
    && m'.base == m.base
    && (forall l :: !Within(l, BlockOf(m, store.src), store.offset, BytesOf(store.size)) ==> SameByte(m.mem, m'.mem, l))
  }

  predicate SameByte(mem: Bytes, mem': Bytes, l: Loc) {
    (l in mem <==> l in mem') && (l in mem ==> mem[l] == mem'[l])
  }

  lemma SameBytes(mem: Bytes, mem': Bytes)
    requires forall l :: SameByte(mem, mem', l)
    ensures mem == mem'
  {
    forall l ensures l in mem <==> l in mem' {
      assert SameByte(mem, mem', l);
    }
    forall l | l in mem ensures mem[l] == mem'[l] {
      assert SameByte(mem, mem', l);
    }
  }

  /** Both machines write the same value. */
  lemma StoreAgrees(mem: Bytes, mem': Bytes, b: int, o: int, n: nat, v: int, l: Loc)
    requires SameByte(mem, mem', l) || Within(l, b, o, n)
    ensures SameByte(StoreBytes(mem, b, o, n, v), StoreBytes(mem', b, o, n, v), l)
  {
    StoredAt(mem, b, o, n, v, l);
    StoredAt(mem', b, o, n, v, l);
  }

  /** A load that is skipped is elsewhere. */
  lemma SkippedLoad(w: World, store: Instruction, load: Instruction, m: Machine)
    requires Accesses(store) && load.Load? && Skipped(w.local, store, load) && Apart(store, load)
    requires Sane(w, load, m) && AddressSane(w, store, m)
    ensures BlockOf(m, load.src) != BlockOf(m, store.src) ||
            load.offset + BytesOf(load.size) <= store.offset || store.offset + BytesOf(store.size) <= load.offset
  {
  }

  lemma SkippedKeeps(w: World, store: Instruction, dom: Instruction, m: Machine, m': Machine)
    requires store.Store? && AgreeOutside(m, m', store) && Sane(w, dom, m) && AddressSane(w, store, m)
    requires Skipped(w.local, store, dom) && Apart(store, dom) && Sets(dom) !! RegOf(store.src)
    ensures Sane(w, dom, m') && AgreeOutside(Do(w, dom, m), Do(w, dom, m'), store)
  {
    KeepsValue(w, dom, m, store.src);
    match dom
    case Load(_, _, _, _) =>
      SkippedLoad(w, store, dom, m);
      LoadAgrees(w, store, dom, m, m');
    case Store(v, a, o, n) =>
      forall l | !Within(l, BlockOf(m, store.src), store.offset, BytesOf(store.size))
        ensures SameByte(Do(w, dom, m).mem, Do(w, dom, m').mem, l)
      {
        StoreAgrees(m.mem, m'.mem, BlockOf(m, a), o, BytesOf(n), ValueOf(m.base, v), l);
      }
    case Call(t, f, args) =>
      CallAgrees(w, store, m, m', t, f, args);
    case _ =>
      assert Do(w, dom, m).mem == m.mem && Do(w, dom, m').mem == m'.mem;
  }

  /** A load from elsewhere gets the same. */
  lemma LoadAgrees(w: World, store: Instruction, load: Instruction, m: Machine, m': Machine)
    requires store.Store? && AgreeOutside(m, m', store) && load.Load? && RegOf(load.target) !! RegOf(store.src)
    requires BlockOf(m, load.src) != BlockOf(m, store.src) ||
             load.offset + BytesOf(load.size) <= store.offset || store.offset + BytesOf(store.size) <= load.offset
    ensures AgreeOutside(Do(w, load, m), Do(w, load, m'), store)
  {
    KeepsValue(w, load, m, store.src);
    var b, o, n := BlockOf(m, load.src), load.offset, BytesOf(load.size);
    forall l | Within(l, b, o, n) ensures Get(m.mem, l) == Get(m'.mem, l) {
      assert SameByte(m.mem, m'.mem, l);
    }
    LoadSame(m.mem, m'.mem, b, o, n);
  }

  /** A call cannot tell the difference when the store is to a local symbol. */
  lemma CallAgrees(w: World, store: Instruction, m: Machine, m': Machine, t: Pseudo, f: Pseudo, args: seq<Pseudo>)
    requires store.Store? && AgreeOutside(m, m', store) && IsLocal(w.local, store.src) && RegOf(t) !! RegOf(store.src)
    ensures AgreeOutside(Called(w, m, t, f, args), Called(w, m', t, f, args), store)
  {
    forall l ensures SameByte(Outside(m.mem, w.local), Outside(m'.mem, w.local), l) {
      assert l.block !in w.local ==> SameByte(m.mem, m'.mem, l);
    }
    SameBytes(Outside(m.mem, w.local), Outside(m'.mem, w.local));
    var k, k' := Called(w, m, t, f, args), Called(w, m', t, f, args);
    forall l | !Within(l, BlockOf(m, store.src), store.offset, BytesOf(store.size)) ensures SameByte(k.mem, k'.mem, l) {
      assert SameByte(m.mem, m'.mem, l);
    }
  }

  lemma {:induction false} SkippedAll(w: World, store: Instruction, mid: seq<Instruction>, m: Machine, m': Machine)
    requires store.Store? && AgreeOutside(m, m', store) && SaneRun(w, mid, m) && AddressSane(w, store, m)
    requires forall k :: 0 <= k < |mid| ==>
               Skipped(w.local, store, mid[k]) && Apart(store, mid[k]) && Sets(mid[k]) !! RegOf(store.src)
    ensures SaneRun(w, mid, m') && AgreeOutside(DoAll(w, mid, m), DoAll(w, mid, m'), store)
    decreases |mid|
  {
    if |mid| > 0 {
      SkippedKeeps(w, store, mid[0], m, m');
      KeepsValue(w, mid[0], m, store.src);
      SkippedAll(w, store, mid[1..], Do(w, mid[0], m), Do(w, mid[0], m'));
    }
  }

  /** After the overwriting store the machines are the same. */
  lemma OverwriteMeets(w: World, store: Instruction, m: Machine, m': Machine)
    requires store.Store? && AgreeOutside(m, m', store)
    ensures Do(w, store, m) == Do(w, store, m') && (Sane(w, store, m) ==> Sane(w, store, m'))
  {
    var k, k' := Do(w, store, m), Do(w, store, m');
    forall l ensures SameByte(k.mem, k'.mem, l) {
      StoreAgrees(m.mem, m'.mem, BlockOf(m, store.src), store.offset, BytesOf(store.size),
                  ValueOf(m.base, store.target), l);
    }
    SameBytes(k.mem, k'.mem);
  }

  /** Without the store that will be overwritten. */
  lemma StoreLeftOut(w: World, store: Instruction, dom: Instruction, m: Machine)
    requires store.Store? && dom.Store? && dom.src == store.src && SameMemop(store, dom)
    ensures AgreeOutside(Do(w, dom, m), m, store)
  {
    var m1 := Do(w, dom, m);
    forall l | !Within(l, BlockOf(m1, store.src), store.offset, BytesOf(store.size))
      ensures SameByte(m1.mem, m.mem, l)
    {
      StoredAt(m.mem, BlockOf(m, dom.src), dom.offset, BytesOf(dom.size), ValueOf(m.base, dom.target), l);
    }
  }

  /** From the store that is left out to the one that overwrites it. */
  lemma OverwriteMiddle(w: World, store: Instruction, mid: seq<Instruction>, post: seq<Instruction>, m: Machine,
                        m': Machine)
    requires store.Store? && AgreeOutside(m, m', store) && AddressSane(w, store, m)
    requires AllSkipped(w.local, store, mid) && SaneRun(w, mid + [store] + post, m)
    ensures SaneRun(w, mid + [store] + post, m')
    ensures DoAll(w, mid + [store] + post, m') == DoAll(w, mid + [store] + post, m)
  {
    DoAllMiddle(w, mid, store, post, m);
    DoAllMiddle(w, mid, store, post, m');
    SkippedAll(w, store, mid, m, m');
    OverwriteMeets(w, store, DoAll(w, mid, m), DoAll(w, mid, m'));
  }

  predicate AllSkipped(local: set<int>, store: Instruction, mid: seq<Instruction>)
    requires Accesses(store)
  {
    forall k :: 0 <= k < |mid| ==>
      Skipped(local, store, mid[k]) && Apart(store, mid[k]) && Sets(mid[k]) !! RegOf(store.src)
  }

  lemma KillThere(w: World, pre: seq<Instruction>, dom: Instruction, mid: seq<Instruction>, store: Instruction,
                  post: seq<Instruction>, m: Machine)
    requires store.Store? && dom.Store? && dom.src == store.src && SameMemop(store, dom)
    requires AllSkipped(w.local, store, mid) && SaneRun(w, pre + [dom] + (mid + [store] + post), m)
    ensures SaneRun(w, pre + [SNop] + (mid + [store] + post), m)
    ensures DoAll(w, pre + [SNop] + (mid + [store] + post), m) == DoAll(w, pre + [dom] + (mid + [store] + post), m)
  {
    var rest, m0 := mid + [store] + post, DoAll(w, pre, m);
    DoAllMiddle(w, pre, dom, rest, m);
    DoAllMiddle(w, pre, SNop, rest, m);
    assert Do(w, SNop, m0) == m0 && Sane(w, SNop, m0);
    StoreLeftOut(w, store, dom, m0);
    OverwriteMiddle(w, store, mid, post, Do(w, dom, m0), m0);
  }

  lemma KillOrder(local: set<int>, insns: seq<Instruction>, i: nat, j: nat)
    requires SingleAssignment(insns) && Tidy(insns) && Overwritten(local, insns, i, j)
    ensures AllSkipped(local, insns[i], insns[j + 1..i])
  {
    var mid := insns[j + 1..i];
    forall k | 0 <= k < |mid|
      ensures Skipped(local, insns[i], mid[k]) && Apart(insns[i], mid[k]) && Sets(mid[k]) !! RegOf(insns[i].src)
    {
      assert InOrder(insns[j], insns[j + 1 + k]) && TidyAt(insns, i, j, j + 1 + k);
    }
  }

  lemma CutTwice<T>(s: seq<T>, j: nat, i: nat, x: T)
    requires j < i < |s|
    ensures s == s[..j] + [s[j]] + (s[j + 1..i] + [s[i]] + s[i + 1..])
    ensures s[j := x] == s[..j] + [x] + (s[j + 1..i] + [s[i]] + s[i + 1..])
  {
  }

  /** Killing one store that is overwritten. */
  lemma KillOne(w: World, insns: seq<Instruction>, i: nat, j: nat, m: Machine)
    requires SingleAssignment(insns) && Tidy(insns) && Overwritten(w.local, insns, i, j) && SaneRun(w, insns, m)
    ensures SaneRun(w, insns[j := SNop], m) && DoAll(w, insns[j := SNop], m) == DoAll(w, insns, m)
  {
    var pre, mid, post := insns[..j], insns[j + 1..i], insns[i + 1..];
    CutTwice(insns, j, i, SNop);
    KillOrder(w.local, insns, i, j);
    KillThere(w, pre, insns[j], mid, insns[i], post, m);
  }

  /** The overwritten stores from the k-th instruction on are killed. */
  function KilledFrom(local: set<int>, insns: seq<Instruction>, i: nat, k: nat): (s: seq<Instruction>)
    ensures |s| == |insns|
    ensures forall h :: 0 <= h < |s| ==> s[h] == if k <= h && Overwritten(local, insns, i, h) then SNop else insns[h]
  {
    seq(|insns|, h requires 0 <= h < |insns| => if k <= h && Overwritten(local, insns, i, h) then SNop else insns[h])
  }

  lemma KilledFromKeeps(local: set<int>, insns: seq<Instruction>, i: nat, k: nat)
    requires SingleAssignment(insns) && Tidy(insns) && i < |insns| && insns[i].Store?
    ensures SingleAssignment(KilledFrom(local, insns, i, k)) && Tidy(KilledFrom(local, insns, i, k))
  {
    var killed := KilledFrom(local, insns, i, k);
    forall a, b | 0 <= a < b < |killed| ensures InOrder(killed[a], killed[b]) {
      assert InOrder(insns[a], insns[b]);
    }
    forall a | 0 <= a < |killed| ensures OwnUse(killed[a]) && Plain(killed[a]) {
      assert OwnUse(insns[a]) && Plain(insns[a]);
    }
    TidyStays(insns, killed);
  }

  lemma {:induction false} KillAllFrom(w: World, insns: seq<Instruction>, i: nat, k: nat, m: Machine)
    requires SingleAssignment(insns) && Tidy(insns) && k <= i < |insns| && insns[i].Store? && SaneRun(w, insns, m)
    ensures SaneRun(w, KilledFrom(w.local, insns, i, k), m)
    ensures DoAll(w, KilledFrom(w.local, insns, i, k), m) == DoAll(w, insns, m)
    decreases i - k
  {
    var killed := KilledFrom(w.local, insns, i, k);
    if k == i {
      assert killed == insns;
    } else {
      var next := k + 1;
      var later := KilledFrom(w.local, insns, i, next);
      KillAllFrom(w, insns, i, next, m);
      KilledOneMore(w.local, insns, i, k, next, killed, later);
      if Overwritten(w.local, insns, i, k) {
        KilledFromKeeps(w.local, insns, i, next);
        KillOne(w, later, i, k, m);
      }
    }
  }

  lemma KilledOneMore(local: set<int>, insns: seq<Instruction>, i: nat, k: nat, next: nat, killed: seq<Instruction>,
                      later: seq<Instruction>)
    requires k < i < |insns| && insns[i].Store? && next == k + 1
    requires killed == KilledFrom(local, insns, i, k) && later == KilledFrom(local, insns, i, next)
    ensures if Overwritten(local, insns, i, k) then Overwritten(local, later, i, k) && killed == later[k := SNop]
            else killed == later
  {
  }

  lemma KillAll(w: World, insns: seq<Instruction>, i: nat, m: Machine)
    requires SingleAssignment(insns) && Tidy(insns) && i < |insns| && insns[i].Store? && SaneRun(w, insns, m)
    ensures SaneRun(w, Killed(w.local, insns, i), m)
    ensures DoAll(w, Killed(w.local, insns, i), m) == DoAll(w, insns, m)
  {
    KillAllFrom(w, insns, i, 0, m);
    assert KilledFrom(w.local, insns, i, 0) == Killed(w.local, insns, i);
  }

  // ---------------------------------------------------------------------------
  // Where the conditions are needed
  // ---------------------------------------------------------------------------

  lemma ThreeSteps(w: World, a: Instruction, b: Instruction, c: Instruction, m: Machine)
    ensures DoAll(w, [a, b, c], m) == Do(w, c, Do(w, b, Do(w, a, m)))
    ensures SaneRun(w, [a, b, c], m) <==> Sane(w, a, m) && Sane(w, b, Do(w, a, m)) && Sane(w, c, Do(w, b, Do(w, a, m)))
  {
    var three, two, one := [a, b, c], [b, c], [c];
    var m1 := Do(w, a, m);
    var m2 := Do(w, b, m1);
    var m3 := Do(w, c, m2);
    assert DoAll(w, [], m3) == m3 && SaneRun(w, [], m3);
    assert three[1..] == two && two[1..] == one && one[1..] == [];
    assert DoAll(w, one, m2) == DoAll(w, [], m3) && (SaneRun(w, one, m2) <==> Sane(w, c, m2));
    assert DoAll(w, two, m1) == DoAll(w, one, m2) && (SaneRun(w, two, m1) <==> Sane(w, b, m1) && SaneRun(w, one, m2));
  }

  lemma LoadByte(mem: Bytes, b: int, o: int, n: nat)
    requires n == 1
    ensures LoadBytes(mem, b, o, n) == Get(mem, Loc(b, o))
  {
    assert LoadBytes(mem, b, o + 1, n - 1) == 0;
  }

  lemma SmallFits(v: int, n: nat)
    requires 0 <= v < 256 && n > 0
    ensures v < Pow256(n)
  {
    PowPositive(n - 1);
  }

  lemma {:induction false} PowPositive(n: nat)
    ensures Pow256(n) >= 1
  {
    if n > 0 {
      PowPositive(n - 1);
    }
  }

  lemma Three(a: Instruction, b: Instruction, c: Instruction)
    requires InOrder(a, b) && InOrder(a, c) && InOrder(b, c)
    requires OwnUse(a) && OwnUse(b) && OwnUse(c) && Plain(a) && Plain(b) && Plain(c)
    ensures SingleAssignment([a, b, c])
  {
  }

  /** A load of part of what a store writes does not stop the search: the store is killed
      though the load reads it. */
  lemma PartialLoadIsMissed(w: World, m: Machine, n: nat, insns: seq<Instruction>)
    requires w.local == {} && w.named == {0} && m.mem == map[] && m.base.regs == map[] && n == 32
    requires insns == [Store(Val(1), Sym(0), 0, n), Load(Reg(5), Sym(0), 0, 8), Store(Val(2), Sym(0), 0, n)]
    ensures SingleAssignment(insns) && SaneRun(w, insns, m) && !Tidy(insns)
    ensures Overwritten(w.local, insns, 2, 0)
    ensures ValueOf(DoAll(w, insns, m).base, Reg(5)) == 1
    ensures ValueOf(DoAll(w, insns[0 := SNop], m).base, Reg(5)) == 0
  {
    var first, load, second := insns[0], insns[1], insns[2];
    Three(first, load, second);
    SmallFits(1, BytesOf(n));
    SmallFits(2, BytesOf(n));
    ThreeSteps(w, first, load, second, m);
    assert insns[0 := SNop] == [SNop, load, second] && Do(w, SNop, m) == m;
    ThreeSteps(w, SNop, load, second, m);
    PartialLoads(w, m, n, first, load, second);
    assert !TidyAt(insns, 2, 0, 1);
  }

  /** The load gets the first byte of what is stored, or what was in memory before. */
  lemma PartialLoads(w: World, m: Machine, n: nat, first: Instruction, load: Instruction, second: Instruction)
    requires m.mem == map[] && n == 32 && load == Load(Reg(5), Sym(0), 0, 8)
    requires first == Store(Val(1), Sym(0), 0, n) && second == Store(Val(2), Sym(0), 0, n)
    ensures ValueOf(Do(w, second, Do(w, load, Do(w, first, m))).base, Reg(5)) == 1
    ensures ValueOf(Do(w, second, Do(w, load, m)).base, Reg(5)) == 0
  {
    StoredAt(m.mem, 0, 0, BytesOf(n), 1, Loc(0, 0));
    LoadByte(Do(w, first, m).mem, 0, 0, 1);
    LoadByte(m.mem, 0, 0, 1);
  }

  /** A store to a named symbol does not stop the search for the value of a load through a
      pointer: when the pointer points to the symbol, the load gets an old value. */
  lemma PointerMayAlias(w: World, m: Machine, insns: seq<Instruction>)
    requires w.local == {} && w.named == {0} && m.mem == map[] && m.base.regs == map[7 := 0]
    requires insns == [Load(Reg(5), Reg(7), 0, 8), Store(Val(1), Sym(0), 0, 8), Load(Reg(6), Reg(7), 0, 8)]
    ensures SingleAssignment(insns) && !SaneRun(w, insns, m)
    ensures Dominated(w.local, insns, 2, 0)
    ensures ValueOf(DoAll(w, insns, m).base, Reg(6)) == 1
    ensures ValueOf(DoAll(w, Forwarded(insns, 2, 0), m).base, Reg(5)) == 0
  {
    var load, store, again := insns[0], insns[1], insns[2];
    Three(load, store, again);
    ThreeSteps(w, load, store, again, m);
    AliasedLoads(w, m, load, store, again);
    AliasForwarded(insns, load, store);
    ThreeSteps(w, load, store, LNop, m);
  }

  lemma AliasForwarded(insns: seq<Instruction>, load: Instruction, store: Instruction)
    requires load == Load(Reg(5), Reg(7), 0, 8) && store == Store(Val(1), Sym(0), 0, 8)
    requires insns == [load, store, Load(Reg(6), Reg(7), 0, 8)]
    ensures Forwarded(insns, 2, 0) == [load, store, LNop]
  {
    assert Subst(load, 6, Reg(5)) == load && Subst(store, 6, Reg(5)) == store && Subst(LNop, 6, Reg(5)) == LNop;
  }

  /** The pointer points to the symbol: the first load gets 0, the second what was stored. */
  lemma AliasedLoads(w: World, m: Machine, load: Instruction, store: Instruction, again: Instruction)
    requires m.mem == map[] && m.base.regs == map[7 := 0] && load == Load(Reg(5), Reg(7), 0, 8)
    requires store == Store(Val(1), Sym(0), 0, 8) && again == Load(Reg(6), Reg(7), 0, 8)
    ensures var m2 := Do(w, store, Do(w, load, m));
            ValueOf(m2.base, Reg(5)) == 0 && ValueOf(Do(w, again, m2).base, Reg(6)) == 1
  {
    var m1 := Do(w, load, m);
    LoadByte(m.mem, 0, 0, 1);
    StoredAt(m1.mem, 0, 0, 1, 1, Loc(0, 0));
    LoadByte(Do(w, store, m1).mem, 0, 0, 1);
  }
}
