/** Bypassing a block that only branches, killing an unreachable block and merging a
    block into its parent leave the work of the code as it was (flow.c). */
module Threading {
  import opened Options
  import opened Ir
  import opened Semantics
  import opened Graph
  import opened Edges
  import opened Work

  // ---------------------------------------------------------------------------
  // Jumps
  // ---------------------------------------------------------------------------

  predicate HasDefault(jmps: seq<MultiJmp>) {
    exists i :: 0 <= i < |jmps| && jmps[i].begin > jmps[i].end
  }

  /** A jump that always finds a target. linearize_switch gives every switch a default
      arm; computed gotos have no meaning here. */
  predicate TotalJump(insn: Instruction) {
    (insn.Switch? ==> HasDefault(insn.multijmp)) && !insn.ComputedGoto?
  }

  predicate TotalEnd(b: Block) {
    b.insns != [] ==> TotalJump(Last(b))
  }

  ghost predicate TotalJumps(g: Code) {
    forall b {:trigger TotalEnd(g[b])} :: 0 <= b < |g| ==> TotalEnd(g[b])
  }

  lemma {:induction false} DefaultArm(jmps: seq<MultiJmp>, v: int)
    requires HasDefault(jmps)
    ensures Arm(jmps, v).Some?
  {
    var i :| 0 <= i < |jmps| && jmps[i].begin > jmps[i].end;
    if i > 0 && Arm(jmps, v) == Arm(jmps[1..], v) {
      assert jmps[1..][i - 1] == jmps[i];
      DefaultArm(jmps[1..], v);
    }
  }

  lemma {:induction false} ArmIsTarget(jmps: seq<MultiJmp>, v: int)
    requires Arm(jmps, v).Some?
    ensures Arm(jmps, v).value in JmpTargets(jmps)
  {
    if !(jmps[0].begin > jmps[0].end || jmps[0].begin <= v <= jmps[0].end) {
      ArmIsTarget(jmps[1..], v);
    }
  }

  /** A jump leads to the start of one of its targets. */
  lemma NextIsTarget(insn: Instruction, m: Config)
    requires insn.Terminator() && NextPos(insn, m).Some?
    ensures NextPos(insn, m).value.pc == 0 && NextPos(insn, m).value.bb in insn.Targets()
  {
    if insn.Switch? {
      ArmIsTarget(insn.multijmp, ValueOf(m, insn.cond));
    }
  }

  /** Where a step of the graph ends: right behind, or at a child's start. */
  lemma StepLeads(g: Code, m: Config, p: Pos, insn: Instruction)
    requires WellFormed(g) && InsnAt(g, p, insn) && Step(g, At(m, p)).Some?
    ensures if insn.Terminator() then
              var r := Step(g, At(m, p)).value.pos;
              r.pc == 0 && p.pc == |g[p.bb].insns| - 1 && r.bb < |g| && p.bb in g[r.bb].parents
              && r.bb in g[p.bb].children
            else Step(g, At(m, p)).value.pos == Pos(p.bb, p.pc + 1)
  {
    StepOf(g, m, p, insn);
    if insn.Terminator() {
      assert WellTerminated(g[p.bb]) && g[p.bb].insns[p.pc].Terminator();
      NextIsTarget(insn, At(m, p));
      var r := Step(g, At(m, p)).value.pos;
      var i :| 0 <= i < |insn.Targets()| && insn.Targets()[i] == r.bb;
      JumpIsEdge(g, p.bb, i, r.bb);
    }
  }

  // ---------------------------------------------------------------------------
  // Bypassing
  // ---------------------------------------------------------------------------

  /** A branch whose target is known to be y. */
  predicate LeadsTo(insn: Instruction, y: BlockId) {
    insn.Br? && match insn.bbFalse
      case None => insn.bbTrue == y
      case Some(f) => insn.cond.Val? && y == if insn.cond.value != 0 then insn.bbTrue else f
  }

  /** Before its j-th instruction, a branch to y, block x does nothing. */
  predicate Passes(g: Code, x: BlockId, j: nat, y: BlockId) {
    && x < |g| && j < |g[x].insns| && LeadsTo(g[x].insns[j], y)
    && (forall i {:trigger g[x].insns[i].IsNop()} :: 0 <= i < j ==> g[x].insns[i].IsNop())
  }

  /** A step within the part of x that does nothing. */
  lemma PassingStep(g: Code, x: BlockId, j: nat, y: BlockId, m: Config, i: nat)
    requires Passes(g, x, j, y) && i <= j
    ensures Step(g, At(m, Pos(x, i))) == Some(At(m, if i < j then Pos(x, i + 1) else Pos(y, 0)))
    ensures Log(g, Pos(x, i)) == []
  {
    assert i < j ==> g[x].insns[i].IsNop();
  }

  lemma {:induction false} PassesThrough(g: Code, x: BlockId, j: nat, y: BlockId, m: Config, i: nat)
    requires Passes(g, x, j, y) && i <= j
    ensures forall n :: n == j + 1 - i ==> Does(g, At(m, Pos(x, i)), n, [], At(m, Pos(y, 0)))
    decreases j - i
  {
    var n: nat, one: nat := j - i, 1;
    PassingStep(g, x, j, y, m, i);
    var p := if i < j then Pos(x, i + 1) else Pos(y, 0);
    DoesStep(g, At(m, Pos(x, i)), At(m, p));
    if i < j {
      PassesThrough(g, x, j, y, m, i + 1);
    } else {
      DoesNothing(g, At(m, p));
    }
    DoesThen(g, At(m, Pos(x, i)), one, [], At(m, p), n, [], At(m, Pos(y, 0)), one + n);
  }

  lemma {:induction false} ArmRetargeted(jmps: seq<MultiJmp>, i: nat, y: BlockId, v: int)
    requires i < |jmps|
    ensures var r := Arm(jmps[i := jmps[i].(target := y)], v);
            r == Arm(jmps, v) || (r == Some(y) && Arm(jmps, v) == Some(jmps[i].target))
  {
    var jmps' := jmps[i := jmps[i].(target := y)];
    if i > 0 {
      assert jmps'[1..] == jmps[1..][i - 1 := jmps[i].(target := y)];
      ArmRetargeted(jmps[1..], i - 1, y, v);
    } else {
      assert jmps'[1..] == jmps[1..];
    }
  }

  /** A redirected jump goes where it went, or to y instead of x. */
  lemma RetargetedNext(insn: Instruction, i: nat, x: BlockId, y: BlockId, m: Config)
    requires i < |insn.Targets()| && insn.Targets()[i] == x
    ensures var r := NextPos(Retarget(insn, i, y), m);
            r == NextPos(insn, m) || (r == Some(Pos(y, 0)) && NextPos(insn, m) == Some(Pos(x, 0)))
    ensures Effect(Retarget(insn, i, y), m) == m == Effect(insn, m)
    ensures !Visible(insn) && !Visible(Retarget(insn, i, y)) && insn.Terminator()
  {
    if insn.Switch? {
      ArmRetargeted(insn.multijmp, i, y, ValueOf(m, insn.cond));
    }
  }

  /** A redirection of jumps to x, which passes to y, to y itself. */
  ghost predicate Bypass(g: Code, h: Code, b: BlockId, i: nat, x: BlockId, j: nat, y: BlockId) {
    && WellFormed(g) && JumpsTo(g, b, i, x) && x < |g| && y < |g| && x != y && Passes(g, x, j, y)
    && h == Redirected(g, b, i, x, y)
  }

  lemma BypassInsns(g: Code, h: Code, b: BlockId, i: nat, x: BlockId, j: nat, y: BlockId, p: Pos)
    requires Bypass(g, h, b, i, x, j, y)
    ensures p != Pos(b, |g[b].insns| - 1) ==> forall insn :: InsnAt(g, p, insn) <==> InsnAt(h, p, insn)
    ensures InsnAt(h, Pos(b, |g[b].insns| - 1), Retarget(Last(g[b]), i, y))
  {
    RedirectedBlocks(g, b, i, x, y, h);
  }

  /** Until d has caught up, the old code is passing through x. */
  function Ahead(x: BlockId, j: nat, y: BlockId): Relation {
    (p: Pos, q: Pos) => p == q || (p.bb == x && p.pc <= j && q == Pos(y, 0))
  }

  lemma JumpMatched(g: Code, h: Code, b: BlockId, i: nat, x: BlockId, j: nat, y: BlockId, m: Config)
    requires Bypass(g, h, b, i, x, j, y)
    ensures var p := Pos(b, |g[b].insns| - 1);
            Matched(g, h, Ahead(x, j, y), p, p, m) && Matched(h, g, (q: Pos, p: Pos) => q == p, p, p, m)
  {
    var p, one: nat := Pos(b, |g[b].insns| - 1), 1;
    var insn, insn' := Last(g[b]), Retarget(Last(g[b]), i, y);
    BypassInsns(g, h, b, i, x, j, y, p);
    RetargetedNext(insn, i, x, y, At(m, p));
    StepOf(g, m, p, insn);
    StepOf(h, m, p, insn');
    var s, s' := Step(g, At(m, p)), Step(h, At(m, p));
    if s.Some? {
      DoesStep(g, At(m, p), s.value);
      DoesStep(h, At(m, p), s'.value);
      assert Does(h, At(m, p), one, Log(g, p), At(s.value, s'.value.pos));
      if s == s' {
        assert Does(g, At(m, p), one, Log(h, p), At(s'.value, s.value.pos));
      } else {
        var k: nat := j + 1;
        PassesThrough(g, x, j, y, m, 0);
        DoesThen(g, At(m, p), one, [], At(m, Pos(x, 0)), k, [], At(m, Pos(y, 0)), one + k);
        assert Does(g, At(m, p), one + k, Log(h, p), At(s'.value, s'.value.pos));
      }
    }
  }

  lemma SameStepMatched(c: Code, d: Code, rel: Relation, p: Pos, m: Config)
    requires forall insn :: InsnAt(c, p, insn) <==> InsnAt(d, p, insn)
    requires Step(c, At(m, p)).Some? ==> rel(Step(c, At(m, p)).value.pos, Step(c, At(m, p)).value.pos)
    ensures Matched(c, d, rel, p, p, m) && Arrives(c, d, p, p, m)
  {
    var s, one: nat, zero: nat := Step(c, At(m, p)), 1, 0;
    if s.Some? {
      var insn := c[p.bb].insns[p.pc];
      assert InsnAt(c, p, insn);
      SameInsn(c, d, m, p, p, insn);
      DoesStep(d, At(m, p), s.value);
      assert Does(d, At(m, p), one, Log(c, p), At(s.value, s.value.pos));
    }
    DoesNothing(d, At(m, p));
    forall insn | VisibleAt(c, p, insn)
      ensures exists k: nat, q' :: Does(d, At(m, p), k, [], At(m, q')) && VisibleAt(d, q', insn)
    {
      assert Does(d, At(m, p), zero, [], At(m, p)) && VisibleAt(d, p, insn);
    }
  }

  lemma BypassForward(g: Code, h: Code, b: BlockId, i: nat, x: BlockId, j: nat, y: BlockId)
    requires Bypass(g, h, b, i, x, j, y)
    ensures Simulation(g, h, Ahead(x, j, y))
  {
    var rel, last, zero: nat := Ahead(x, j, y), Pos(b, |g[b].insns| - 1), 0;
    forall p, q, m | rel(p, q) ensures Matched(g, h, rel, p, q, m) && Arrives(g, h, p, q, m) {
      BypassInsns(g, h, b, i, x, j, y, p);
      if p != q {
        PassingStep(g, x, j, y, m, p.pc);
        DoesNothing(h, At(m, q));
        assert Does(h, At(m, q), zero, Log(g, p), At(Step(g, At(m, p)).value, q));
      } else if p == last {
        JumpMatched(g, h, b, i, x, j, y, m);
        RetargetedNext(Last(g[b]), i, x, y, m);
      } else {
        SameStepMatched(g, h, rel, p, m);
      }
    }
  }

  lemma BypassBackward(g: Code, h: Code, b: BlockId, i: nat, x: BlockId, j: nat, y: BlockId)
    requires Bypass(g, h, b, i, x, j, y)
    ensures Simulation(h, g, (q: Pos, p: Pos) => q == p)
  {
    var rel: Relation, last := (q: Pos, p: Pos) => q == p, Pos(b, |g[b].insns| - 1);
    forall q, p, m | rel(q, p) ensures Matched(h, g, rel, q, p, m) && Arrives(h, g, q, p, m) {
      BypassInsns(g, h, b, i, x, j, y, p);
      if p == last {
        JumpMatched(g, h, b, i, x, j, y, m);
        RetargetedNext(Last(g[b]), i, x, y, m);
      } else {
        SameStepMatched(h, g, rel, p, m);
      }
    }
  }

  /** Sending a jump past a block that only branches leaves the work as it was. */
  lemma BypassSameWork(g: Code, h: Code, b: BlockId, i: nat, x: BlockId, j: nat, y: BlockId, start: Pos)
    requires Bypass(g, h, b, i, x, j, y)
    ensures SameWork(g, h, start)
  {
    BypassForward(g, h, b, i, x, j, y);
    SimulationDoesAll(g, h, Ahead(x, j, y), start);
    BypassBackward(g, h, b, i, x, j, y);
    SimulationDoesAll(h, g, (q: Pos, p: Pos) => q == p, start);
  }

  /** Redirecting keeps every switch's default arm. */
  lemma RedirectKeepsTotal(g: Code, b: BlockId, i: nat, x: BlockId, y: BlockId)
    requires TotalJumps(g) && JumpsTo(g, b, i, x) && x < |g| && y < |g| && x != y
    ensures TotalJumps(Redirected(g, b, i, x, y))
  {
    var h := Redirected(g, b, i, x, y);
    RedirectedBlocks(g, b, i, x, y, h);
    forall c | 0 <= c < |h| ensures TotalEnd(h[c]) {
      assert TotalEnd(g[c]);
      if c == b && Last(g[b]).Switch? {
        var jmps, jmps' := Last(g[b]).multijmp, Last(h[b]).multijmp;
        var a :| 0 <= a < |jmps| && jmps[a].begin > jmps[a].end;
        assert jmps'[a].begin > jmps'[a].end;
      }
    }
  }

  // ---------------------------------------------------------------------------
  // Killing
  // ---------------------------------------------------------------------------

  function Outside(x: BlockId): Relation {
    (p: Pos, q: Pos) => p == q && p.bb != x
  }

  lemma OutsideStep(c: Code, d: Code, x: BlockId, p: Pos, m: Config)
    requires p.bb != x && forall insn :: InsnAt(c, p, insn) <==> InsnAt(d, p, insn)
    requires Step(c, At(m, p)).Some? ==> Step(c, At(m, p)).value.pos.bb != x
    ensures Matched(c, d, Outside(x), p, p, m) && Arrives(c, d, p, p, m)
  {
    SameStepMatched(c, d, (p: Pos, q: Pos) => p == q, p, m);
  }

  lemma StepStaysOutside(g: Code, x: BlockId, p: Pos, m: Config)
    requires WellFormed(g) && x < |g| && g[x].parents == [] && p.bb != x && Step(g, At(m, p)).Some?
    ensures Step(g, At(m, p)).value.pos.bb != x
  {
    StepLeads(g, m, p, g[p.bb].insns[p.pc]);
  }

  lemma KillSameWork(g: Code, x: BlockId, start: Pos)
    requires WellFormed(g) && x < |g| && g[x].parents == [] && start.bb != x
    ensures SameWork(g, Killed(g, x), start)
  {
    var h, rel := Killed(g, x), Outside(x);
    KillKeepsWellFormed(g, x);
    forall p, q, m | rel(p, q)
      ensures Matched(g, h, rel, p, q, m) && Arrives(g, h, p, q, m) && Matched(h, g, rel, p, q, m)
              && Arrives(h, g, p, q, m)
    {
      if Step(g, At(m, p)).Some? {
        StepStaysOutside(g, x, p, m);
      }
      if Step(h, At(m, p)).Some? {
        StepStaysOutside(h, x, p, m);
      }
      OutsideStep(g, h, x, p, m);
      OutsideStep(h, g, x, p, m);
    }
    SimulationDoesAll(g, h, rel, start);
    SimulationDoesAll(h, g, rel, start);
  }

  lemma KillKeepsTotal(g: Code, x: BlockId)
    requires TotalJumps(g) && x < |g|
    ensures TotalJumps(Killed(g, x))
  {
    forall b | 0 <= b < |g| ensures TotalEnd(Killed(g, x)[b]) {
      assert TotalEnd(g[b]);
    }
  }

  // ---------------------------------------------------------------------------
  // Merging
  // ---------------------------------------------------------------------------

  ghost predicate Mergeable(g: Code, h: Code, p: BlockId, x: BlockId) {
    WellFormed(g) && TotalJumps(g) && OnlyEdge(g, p, x) && h == MergedInto(g, p, x)
  }

  /** Where a position of the old code is in the new: block x goes on where p ended. */
  function Glued(p: BlockId, last: nat, x: BlockId): Relation {
    (a: Pos, b: Pos) =>
      if a.bb == x then b == Pos(p, last + a.pc) else a == b && (a.bb == p ==> a.pc <= last)
  }

  function GluedBack(p: BlockId, last: nat, x: BlockId): Relation {
    (b: Pos, a: Pos) => Glued(p, last, x)(a, b)
  }

  /** The jump that the merge removes leads to x, and does nothing else. */
  lemma RemovedJump(g: Code, h: Code, p: BlockId, x: BlockId, m: Config)
    requires Mergeable(g, h, p, x)
    ensures var a := Pos(p, |g[p].insns| - 1);
            Step(g, At(m, a)) == Some(At(m, Pos(x, 0))) && Log(g, a) == []
  {
    var a, insn := Pos(p, |g[p].insns| - 1), Last(g[p]);
    assert WellTerminated(g[p]) && TotalEnd(g[p]);
    CountIn(g[p].children, g[p].children[0]);
    assert Count(TargetsOf(g[p].insns), g[p].children[0]) > 0;
    assert insn.Targets() != [] && insn.Terminator();
    if insn.Switch? {
      DefaultArm(insn.multijmp, ValueOf(At(m, a), insn.cond));
    }
    StepOf(g, m, a, insn);
    StepLeads(g, m, a, insn);
    assert Effect(insn, At(m, a)) == At(m, a);
  }

  lemma GluedInsn(g: Code, h: Code, p: BlockId, x: BlockId, a: Pos, b: Pos)
    requires Mergeable(g, h, p, x) && Glued(p, |g[p].insns| - 1, x)(a, b) && a != Pos(p, |g[p].insns| - 1)
    ensures forall insn :: InsnAt(g, a, insn) <==> InsnAt(h, b, insn)
  {
  }

  /** After the same instruction the two are at glued positions again. */
  lemma GluedNext(g: Code, h: Code, p: BlockId, x: BlockId, a: Pos, b: Pos, m: Config, insn: Instruction)
    requires Mergeable(g, h, p, x) && Glued(p, |g[p].insns| - 1, x)(a, b) && a != Pos(p, |g[p].insns| - 1)
    requires InsnAt(g, a, insn) && InsnAt(h, b, insn) && Step(g, At(m, a)).Some? && Step(h, At(m, b)).Some?
    ensures Step(h, At(m, b)).value == At(Step(g, At(m, a)).value, Step(h, At(m, b)).value.pos)
    ensures Glued(p, |g[p].insns| - 1, x)(Step(g, At(m, a)).value.pos, Step(h, At(m, b)).value.pos)
    ensures Log(g, a) == Log(h, b)
  {
    SameInsn(g, h, m, a, b, insn);
    StepLeads(g, m, a, insn);
    MergeKeepsWellFormed(g, p, x);
    StepLeads(h, m, b, insn);
  }

  lemma MergeForward(g: Code, h: Code, p: BlockId, x: BlockId)
    requires Mergeable(g, h, p, x)
    ensures Simulation(g, h, Glued(p, |g[p].insns| - 1, x))
  {
    var last, zero: nat, one: nat := |g[p].insns| - 1, 0, 1;
    var rel := Glued(p, last, x);
    forall a, b, m | rel(a, b) ensures Matched(g, h, rel, a, b, m) && Arrives(g, h, a, b, m) {
      DoesNothing(h, At(m, b));
      if a == Pos(p, last) {
        RemovedJump(g, h, p, x, m);
        assert Does(h, At(m, b), zero, Log(g, a), At(At(m, Pos(x, 0)), b)) && rel(Pos(x, 0), b);
      } else {
        GluedInsn(g, h, p, x, a, b);
        if Step(g, At(m, a)).Some? {
          var insn := g[a.bb].insns[a.pc];
          assert InsnAt(g, a, insn);
          SameInsn(g, h, m, a, b, insn);
          GluedNext(g, h, p, x, a, b, m, insn);
          DoesStep(h, At(m, b), Step(h, At(m, b)).value);
          assert Does(h, At(m, b), one, Log(g, a), At(Step(g, At(m, a)).value, Step(h, At(m, b)).value.pos));
        }
        forall insn | VisibleAt(g, a, insn)
          ensures exists k: nat, q :: Does(h, At(m, b), k, [], At(m, q)) && VisibleAt(h, q, insn)
        {
          assert Does(h, At(m, b), zero, [], At(m, b)) && VisibleAt(h, b, insn);
        }
      }
    }
  }

  /** A step of the merged code, from a position that is not the removed jump's. */
  lemma MergeBackStep(g: Code, h: Code, p: BlockId, x: BlockId, a: Pos, b: Pos, m: Config)
    requires Mergeable(g, h, p, x) && Glued(p, |g[p].insns| - 1, x)(a, b) && a != Pos(p, |g[p].insns| - 1)
    ensures Matched(h, g, GluedBack(p, |g[p].insns| - 1, x), b, a, m) && Arrives(h, g, b, a, m)
  {
    var zero: nat, one: nat := 0, 1;
    GluedInsn(g, h, p, x, a, b);
    if Step(h, At(m, b)).Some? {
      var insn := h[b.bb].insns[b.pc];
      assert InsnAt(h, b, insn);
      SameInsn(g, h, m, a, b, insn);
      GluedNext(g, h, p, x, a, b, m, insn);
      DoesStep(g, At(m, a), Step(g, At(m, a)).value);
      assert Does(g, At(m, a), one, Log(h, b), At(Step(h, At(m, b)).value, Step(g, At(m, a)).value.pos));
    }
    DoesNothing(g, At(m, a));
    forall insn | VisibleAt(h, b, insn)
      ensures exists k: nat, q :: Does(g, At(m, a), k, [], At(m, q)) && VisibleAt(g, q, insn)
    {
      assert Does(g, At(m, a), zero, [], At(m, a)) && VisibleAt(g, a, insn);
    }
  }

  /** At the removed jump, the old code first goes to x. */
  lemma MergeBackJump(g: Code, h: Code, p: BlockId, x: BlockId, a: Pos, m: Config)
    requires Mergeable(g, h, p, x) && a == Pos(p, |g[p].insns| - 1)
    ensures Matched(h, g, GluedBack(p, |g[p].insns| - 1, x), a, a, m) && Arrives(h, g, a, a, m)
  {
    var one: nat, a' := 1, Pos(x, 0);
    var back := GluedBack(p, |g[p].insns| - 1, x);
    RemovedJump(g, h, p, x, m);
    DoesStep(g, At(m, a), At(m, a'));
    MergeBackStep(g, h, p, x, a', a, m);
    if Step(h, At(m, a)).Some? {
      var s := Step(h, At(m, a)).value;
      var k: nat, q :| Does(g, At(m, a'), k, Log(h, a), At(s, q)) && back(s.pos, q);
      DoesThen(g, At(m, a), one, [], At(m, a'), k, Log(h, a), At(s, q), one + k);
      assert [] + Log(h, a) == Log(h, a);
    }
    forall insn | VisibleAt(h, a, insn)
      ensures exists k: nat, q :: Does(g, At(m, a), k, [], At(m, q)) && VisibleAt(g, q, insn)
    {
      var k: nat, q :| Does(g, At(m, a'), k, [], At(m, q)) && VisibleAt(g, q, insn);
      DoesThen(g, At(m, a), one, [], At(m, a'), k, [], At(m, q), one + k);
      assert Does(g, At(m, a), one + k, [], At(m, q));
    }
  }

  /** Merging a block into its only parent leaves the work as it was. */
  lemma MergeSameWork(g: Code, h: Code, p: BlockId, x: BlockId, start: Pos)
    requires Mergeable(g, h, p, x) && start.bb != x && start.pc == 0
    ensures SameWork(g, h, start)
  {
    var last := |g[p].insns| - 1;
    var rel, back := Glued(p, last, x), GluedBack(p, last, x);
    MergeForward(g, h, p, x);
    SimulationDoesAll(g, h, rel, start);
    forall b, a, m | back(b, a) ensures Matched(h, g, back, b, a, m) && Arrives(h, g, b, a, m) {
      if a == Pos(p, last) {
        MergeBackJump(g, h, p, x, a, m);
      } else {
        MergeBackStep(g, h, p, x, a, b, m);
      }
    }
    SimulationDoesAll(h, g, back, start);
  }

  lemma MergeKeepsTotal(g: Code, h: Code, p: BlockId, x: BlockId)
    requires Mergeable(g, h, p, x)
    ensures TotalJumps(h)
  {
    forall b | 0 <= b < |h| ensures TotalEnd(h[b]) {
      assert TotalEnd(g[b]);
      if b == p {
        assert TotalEnd(g[x]) && WellTerminated(g[p]);
        var front := g[p].insns[..|g[p].insns| - 1];
        if g[x].insns == [] && front != [] {
          assert h[p].insns == front && front[|front| - 1] == g[p].insns[|front| - 1];
          assert !g[p].insns[|front| - 1].Terminator();
        }
      }
    }
  }
}
