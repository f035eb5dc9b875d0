/** Simplifying one instruction in place (simplify.c): what every other instruction
    sees stays the same. */
module Simplify {
  import opened Options
  import opened Ir
  import opened Arith
  import opened Expand
  import opened Folding
  import opened Uses

  /** The values of the pseudos at some moment. */
  type Values = map<Pseudo, int>

  function ValueIn(m: Values, p: Pseudo): int {
    if p.Val? then p.value else if p in m then m[p] else 0
  }

  predicate IsComputed(n: Node) {
    n.op.Binop? || n.op.Unop? || n.op.Select? || n.op.Convert?
  }

  predicate Shaped(n: Node) {
    match n.op
    case Binop(_) => |n.srcs| == 2
    case Unop(_) => |n.srcs| == 1
    case Convert(_, _) => |n.srcs| == 1
    case Select => |n.srcs| == 3
    case _ => true
  }

  function Result(n: Node, m: Values): int
    requires Shaped(n) && IsComputed(n)
  {
    match n.op
    case Binop(op) => EvalBinary(op, n.size, ValueIn(m, n.srcs[0]), ValueIn(m, n.srcs[1]))
    case Unop(op) => EvalUnary(op, n.size, ValueIn(m, n.srcs[0]))
    case Convert(signed, origSize) => EvalCast(signed, origSize, n.size, ValueIn(m, n.srcs[0]))
    case Select => if ValueIn(m, n.srcs[0]) != 0 then ValueIn(m, n.srcs[1]) else ValueIn(m, n.srcs[2])
  }

  predicate Active(n: Node) {
    n.live && IsComputed(n)
  }

  /** What the source relies on: operands of the right size. */
  predicate OperandsFit(n: Node, m: Values)
    requires Shaped(n)
  {
    match n.op
    case Binop(op) => Fit(op, n.size, ValueIn(m, n.srcs[0]), n.srcs[0].Val?, ValueIn(m, n.srcs[1]), n.srcs[1].Val?)
    case Unop(_) => 0 < n.size <= 64
    case Convert(_, origSize) => 0 < n.size <= 64 && 0 < origSize <= 64
    case Select => 0 < n.size <= 64 && Canonical(ValueIn(m, n.srcs[0]), LongLong())
    case _ => true
  }

  /** The values are what the live instructions compute, from operands that fit. */
  ghost predicate Solves(nodes: seq<Node>, m: Values) {
    forall i {:trigger nodes[i]} :: 0 <= i < |nodes| && Active(nodes[i]) ==>
      Shaped(nodes[i]) && ValueIn(m, nodes[i].target) == Result(nodes[i], m) && OperandsFit(nodes[i], m)
  }

  predicate ComputedBy(nodes: seq<Node>, defs: map<Pseudo, nat>, p: Pseudo) {
    p in defs && defs[p] < |nodes| && IsComputed(nodes[defs[p]])
  }

  /** Everything that is not computed here has the same value. */
  ghost predicate SameInputs(nodes: seq<Node>, defs: map<Pseudo, nat>, m: Values, m': Values) {
    forall p :: !ComputedBy(nodes, defs, p) ==> ValueIn(m', p) == ValueIn(m, p)
  }

  /** The other instructions, such as stores, branches and returns, have the same
      operand values. */
  predicate SameSeen(a: seq<Node>, b: seq<Node>, m: Values, m': Values) {
    && |a| == |b|
    && forall j {:trigger a[j]} {:trigger b[j]} :: 0 <= j < |a| && a[j].op.Other? ==>
         && b[j] == a[j].(srcs := b[j].srcs) && |b[j].srcs| == |a[j].srcs|
         && forall k {:trigger b[j].srcs[k]} :: 0 <= k < |a[j].srcs| ==>
              ValueIn(m', b[j].srcs[k]) == ValueIn(m, a[j].srcs[k])
  }

  /** Whatever the old instructions compute from their inputs, the new ones do, and
      show the others the same. */
  ghost predicate Preserves(a: seq<Node>, b: seq<Node>, defs: map<Pseudo, nat>) {
    && |a| == |b| && (forall i {:trigger b[i]} :: 0 <= i < |b| && IsComputed(b[i]) ==> IsComputed(a[i]))
    && forall m :: Solves(a, m) ==> exists m' :: Solves(b, m') && SameInputs(a, defs, m, m') && SameSeen(a, b, m, m')
  }

  /** The values are what the live instructions compute, from any operands. */
  ghost predicate Computes(nodes: seq<Node>, m: Values) {
    forall i {:trigger nodes[i]} :: 0 <= i < |nodes| && Active(nodes[i]) ==>
      Shaped(nodes[i]) && ValueIn(m, nodes[i].target) == Result(nodes[i], m)
  }

  /** The same, but operands need not have the right size afterwards. */
  ghost predicate KeepsValues(a: seq<Node>, b: seq<Node>, defs: map<Pseudo, nat>) {
    && |a| == |b| && (forall i {:trigger b[i]} :: 0 <= i < |b| && IsComputed(b[i]) ==> IsComputed(a[i]))
    && forall m :: Solves(a, m) ==> exists m' :: Computes(b, m') && SameInputs(a, defs, m, m') && SameSeen(a, b, m, m')
  }

  lemma PreservedValues(a: seq<Node>, b: seq<Node>, defs: map<Pseudo, nat>)
    ensures Preserves(a, b, defs) ==> KeepsValues(a, b, defs)
  {
    if Preserves(a, b, defs) {
      forall m | Solves(a, m)
        ensures exists m' :: Computes(b, m') && SameInputs(a, defs, m, m') && SameSeen(a, b, m, m')
      {
        var m' :| Solves(b, m') && SameInputs(a, defs, m, m') && SameSeen(a, b, m, m');
        assert Computes(b, m');
      }
    }
  }

  lemma SeenTrans(a: seq<Node>, b: seq<Node>, c: seq<Node>, m: Values, m1: Values, m2: Values)
    requires SameSeen(a, b, m, m1) && SameSeen(b, c, m1, m2)
    ensures SameSeen(a, c, m, m2)
  {
    forall j {:trigger a[j]} | 0 <= j < |a| && a[j].op.Other?
      ensures c[j] == a[j].(srcs := c[j].srcs) && |c[j].srcs| == |a[j].srcs|
      ensures forall k {:trigger c[j].srcs[k]} :: 0 <= k < |a[j].srcs| ==>
                ValueIn(m2, c[j].srcs[k]) == ValueIn(m, a[j].srcs[k])
    {
      assert b[j].op.Other?;
      forall k {:trigger c[j].srcs[k]} | 0 <= k < |a[j].srcs|
        ensures ValueIn(m2, c[j].srcs[k]) == ValueIn(m, a[j].srcs[k])
      {
        assert ValueIn(m1, b[j].srcs[k]) == ValueIn(m, a[j].srcs[k]);
      }
    }
  }

  lemma PreservesTrans(a: seq<Node>, b: seq<Node>, c: seq<Node>, defs: map<Pseudo, nat>)
    requires Preserves(a, b, defs) && Preserves(b, c, defs)
    ensures Preserves(a, c, defs)
  {
    forall i {:trigger c[i]} | 0 <= i < |c| && IsComputed(c[i]) ensures IsComputed(a[i]) {
      assert IsComputed(b[i]);
    }
    forall m | Solves(a, m) ensures exists m' :: Solves(c, m') && SameInputs(a, defs, m, m') && SameSeen(a, c, m, m') {
      var m1 :| Solves(b, m1) && SameInputs(a, defs, m, m1) && SameSeen(a, b, m, m1);
      var m2 :| Solves(c, m2) && SameInputs(b, defs, m1, m2) && SameSeen(b, c, m1, m2);
      forall p | !ComputedBy(a, defs, p) ensures ValueIn(m2, p) == ValueIn(m, p) {
        assert !ComputedBy(b, defs, p);
      }
      SeenTrans(a, b, c, m, m1, m2);
    }
  }

  /** Each computed pseudo has one instruction, computed from operands of lower rank,
      and what an operand refers to has not been killed. */
  ghost predicate Formed(nodes: seq<Node>, defs: map<Pseudo, nat>, rank: map<Pseudo, nat>) {
    && Defined(nodes, defs) && (forall p :: p in defs ==> HasUseList(p))
    && (forall i {:trigger nodes[i]} :: 0 <= i < |nodes| ==> Shaped(nodes[i]))
    && (forall i {:trigger nodes[i]} :: 0 <= i < |nodes| && Active(nodes[i]) ==>
          nodes[i].target.Reg? && nodes[i].target in defs && defs[nodes[i].target] == i)
    && (forall s, p :: Holds(nodes, s, p) && p in defs ==> nodes[defs[p]].live)
    && (forall s, p :: Holds(nodes, s, p) && p.Reg? && Active(nodes[s.insn]) ==>
          RankOf(rank, p) < RankOf(rank, nodes[s.insn].target))
  }

  function RankOf(rank: map<Pseudo, nat>, p: Pseudo): nat {
    if p in rank then rank[p] else 0
  }

  /** No live computation lacks an operand. */
  ghost predicate Whole(nodes: seq<Node>) {
    forall i {:trigger nodes[i]} :: 0 <= i < |nodes| && Active(nodes[i]) ==> Void !in nodes[i].srcs
  }

  lemma SameResult(n: Node, m: Values, m': Values)
    requires Shaped(n) && IsComputed(n)
    requires forall k {:trigger n.srcs[k]} :: 0 <= k < |n.srcs| ==> ValueIn(m', n.srcs[k]) == ValueIn(m, n.srcs[k])
    ensures Result(n, m') == Result(n, m) && (OperandsFit(n, m') <==> OperandsFit(n, m))
  {
  }

  /** Since operands have lower ranks, the inputs determine all values. */
  lemma {:induction false} OneSolution(nodes: seq<Node>, defs: map<Pseudo, nat>, rank: map<Pseudo, nat>, m: Values,
                                       m': Values, i: nat)
    requires Formed(nodes, defs, rank) && Solves(nodes, m) && Solves(nodes, m') && SameInputs(nodes, defs, m, m')
    requires i < |nodes| && Active(nodes[i])
    ensures ValueIn(m', nodes[i].target) == ValueIn(m, nodes[i].target)
    decreases RankOf(rank, nodes[i].target)
  {
    var n := nodes[i];
    forall k {:trigger n.srcs[k]} | 0 <= k < |n.srcs| ensures ValueIn(m', n.srcs[k]) == ValueIn(m, n.srcs[k]) {
      assert Holds(nodes, Slot(i, k), n.srcs[k]);
      if ComputedBy(nodes, defs, n.srcs[k]) {
        var d := defs[n.srcs[k]];
        assert Active(nodes[d]) && nodes[d].target == n.srcs[k];
        OneSolution(nodes, defs, rank, m, m', d);
      }
    }
    SameResult(n, m, m');
  }

  // ---------------------------------------------------------------------------
  // Killing
  // ---------------------------------------------------------------------------

  lemma CascadeForms(a: seq<Node>, b: seq<Node>, defs: map<Pseudo, nat>, rank: map<Pseudo, nat>)
    requires Formed(a, defs, rank) && Cascade(a, b)
    ensures Formed(b, defs, rank)
  {
    CascadeDefined(a, b, defs);
    forall i | 0 <= i < |b| ensures KilledOrSame(a[i], b[i]) {
    }
    forall s, p | Holds(b, s, p) && p != Void ensures Holds(a, s, p) {
      assert KilledOrSame(a[s.insn], b[s.insn]);
    }
    forall s, p | Holds(b, s, p) && p in defs ensures b[defs[p]].live {
      assert Holds(a, s, p);
      assert KilledOrSame(a[defs[p]], b[defs[p]]);
    }
  }

  /** Instruction i, which nothing uses, goes, and what it alone used. */
  lemma DeadForms(a: seq<Node>, b: seq<Node>, defs: map<Pseudo, nat>, rank: map<Pseudo, nat>, i: nat)
    requires Formed(a, defs, rank) && i < |a| && Active(a[i]) && Unused(a, a[i].target)
    requires Cascade(a[i := PartlyVoided(a[i], |a[i].srcs|)], b)
    ensures Formed(b, defs, rank)
  {
    var k := a[i := PartlyVoided(a[i], |a[i].srcs|)];
    forall s, p | Holds(k, s, p) && p != Void ensures Holds(a, s, p) && s.insn != i {
    }
    forall s, p | Holds(k, s, p) && p in defs ensures k[defs[p]].live {
      assert Holds(a, s, p);
    }
    CascadeForms(k, b, defs, rank);
  }

  /** The other computations hold. */
  ghost predicate SolvesBut(nodes: seq<Node>, m: Values, i: nat) {
    forall j {:trigger nodes[j]} :: 0 <= j < |nodes| && j != i && Active(nodes[j]) ==>
      Shaped(nodes[j]) && ValueIn(m, nodes[j].target) == Result(nodes[j], m) && OperandsFit(nodes[j], m)
  }

  lemma CascadeSolves(a: seq<Node>, k: seq<Node>, b: seq<Node>, m: Values, i: nat)
    requires i < |a| == |k| && !a[i].op.Other? && k[i].op == a[i].op
    requires forall j {:trigger a[j]} :: 0 <= j < |a| && j != i ==> k[j] == a[j]
    requires Cascade(k, b) && SolvesBut(a, m, i)
    ensures SolvesBut(b, m, i) && SameSeen(a, b, m, m)
  {
    forall j {:trigger b[j]} | 0 <= j < |a| ensures KilledOrSame(k[j], b[j]) {
    }
    forall j {:trigger a[j]} {:trigger b[j]} | 0 <= j < |a| && a[j].op.Other? ensures b[j] == a[j] {
      assert KilledOrSame(k[j], b[j]);
    }
    forall j {:trigger b[j]} | 0 <= j < |b| && j != i && Active(b[j]) ensures b[j] == a[j] {
      assert KilledOrSame(k[j], b[j]);
    }
  }

  lemma CascadeWhole(a: seq<Node>, k: seq<Node>, b: seq<Node>, i: nat)
    requires Whole(a) && i < |a| == |k| && (forall j {:trigger a[j]} :: 0 <= j < |a| && j != i ==> k[j] == a[j])
             && Cascade(k, b)
    requires !b[i].live
    ensures Whole(b)
  {
    forall j {:trigger b[j]} | 0 <= j < |b| && Active(b[j]) ensures Void !in b[j].srcs {
      assert KilledOrSame(k[j], b[j]);
      assert b[j] == a[j];
    }
  }

  /** Instruction i and its uses are gone, and what lost its last use with them. */
  ghost predicate Dropped(a: seq<Node>, b: seq<Node>, i: nat) {
    i < |a| && Cascade(a[i := PartlyVoided(a[i], |a[i].srcs|)], b)
  }

  /** Killing an instruction that nothing uses. */
  lemma DeadStep(a: seq<Node>, b: seq<Node>, defs: map<Pseudo, nat>, rank: map<Pseudo, nat>, i: nat)
    requires Formed(a, defs, rank) && Whole(a) && i < |a| && Active(a[i]) && Unused(a, a[i].target)
    requires Cascade(a[i := PartlyVoided(a[i], |a[i].srcs|)], b)
    ensures Formed(b, defs, rank) && Whole(b) && Preserves(a, b, defs)
  {
    var k := a[i := PartlyVoided(a[i], |a[i].srcs|)];
    DeadForms(a, b, defs, rank, i);
    assert KilledOrSame(k[i], b[i]);
    CascadeWhole(a, k, b, i);
    forall m | Solves(a, m) ensures Solves(b, m) && SameInputs(a, defs, m, m) && SameSeen(a, b, m, m) {
      CascadeSolves(a, k, b, m, i);
    }
  }

  // ---------------------------------------------------------------------------
  // Replacing the result
  // ---------------------------------------------------------------------------

  /** p can take the place of the result of instruction i. */
  ghost predicate CanReplace(nodes: seq<Node>, i: nat, p: Pseudo) {
    i < |nodes| && Active(nodes[i]) && (p.Val? || exists k :: 0 <= k < |nodes[i].srcs| && nodes[i].srcs[k] == p)
    && p != Void
  }

  /** What is left when the users of instruction i use p. */
  ghost predicate Bypassed(a: seq<Node>, c: seq<Node>, i: nat, p: Pseudo) {
    i < |a| == |c| && Replaced(a, c[i := c[i].(live := a[i].live)], a[i].target, p) && !c[i].live
  }

  lemma BypassedAt(a: seq<Node>, c: seq<Node>, i: nat, p: Pseudo, j: nat)
    requires Bypassed(a, c, i, p) && j < |a|
    ensures |c[j].srcs| == |a[j].srcs| && c[j] == a[j].(srcs := c[j].srcs, live := a[j].live && j != i)
    ensures forall k {:trigger c[j].srcs[k]} :: 0 <= k < |a[j].srcs| ==>
              c[j].srcs[k] == if a[j].srcs[k] == a[i].target then p else a[j].srcs[k]
  {
    var b := c[i := c[i].(live := a[i].live)];
    assert b[j] == a[j].(srcs := b[j].srcs);
    assert b[j].srcs == c[j].srcs;
  }

  lemma BypassForms(a: seq<Node>, c: seq<Node>, i: nat, p: Pseudo, defs: map<Pseudo, nat>, rank: map<Pseudo, nat>)
    requires Formed(a, defs, rank) && CanReplace(a, i, p) && Bypassed(a, c, i, p)
    ensures Formed(c, defs, rank)
  {
    var t := a[i].target;
    forall j {:trigger c[j]} | 0 <= j < |c|
      ensures |c[j].srcs| == |a[j].srcs| && c[j] == a[j].(srcs := c[j].srcs, live := a[j].live && j != i)
    {
      BypassedAt(a, c, i, p, j);
    }
    CanReplaceForms(a, i, p, defs, rank);
    forall s, q | Holds(c, s, q)
      ensures q != t && (q in defs ==> a[defs[q]].live)
      ensures q.Reg? && Active(c[s.insn]) ==> RankOf(rank, q) < RankOf(rank, c[s.insn].target)
    {
      BypassedAt(a, c, i, p, s.insn);
      assert c[s.insn].srcs[s.nr] == q;
      assert Holds(a, s, a[s.insn].srcs[s.nr]);
    }
    forall s, q | Holds(c, s, q) && q in defs ensures c[defs[q]].live {
      assert defs[q] != i;
    }
  }

  /** What can take a result's place comes before it, and has not been killed. */
  lemma CanReplaceForms(a: seq<Node>, i: nat, p: Pseudo, defs: map<Pseudo, nat>, rank: map<Pseudo, nat>)
    requires Formed(a, defs, rank) && CanReplace(a, i, p)
    ensures a[i].target.Reg? && p != a[i].target && (p.Reg? ==> RankOf(rank, p) < RankOf(rank, a[i].target))
    ensures p in defs && !p.Val? ==> a[defs[p]].live
  {
    if !p.Val? {
      var k :| 0 <= k < |a[i].srcs| && a[i].srcs[k] == p;
      assert Holds(a, Slot(i, k), p);
    }
  }

  lemma FitConstant(op: BinOp, n: nat, l: int, constL: bool, r: int, constR: bool, constL': bool, constR': bool)
    requires Fit(op, n, l, constL, r, constR) && (constL ==> constL') && (constR ==> constR')
    ensures Fit(op, n, l, constL', r, constR')
  {
    Pow2Grows(n, LongLong());
  }

  /** The same operand values, some of them now constants. */
  lemma ReplacedResult(n: Node, n': Node, m: Values)
    requires Shaped(n) && IsComputed(n) && n' == n.(srcs := n'.srcs) && |n'.srcs| == |n.srcs|
    requires forall k {:trigger n'.srcs[k]} :: 0 <= k < |n.srcs| ==>
               ValueIn(m, n'.srcs[k]) == ValueIn(m, n.srcs[k]) && (n.srcs[k].Val? ==> n'.srcs[k].Val?)
    requires OperandsFit(n, m)
    ensures Result(n', m) == Result(n, m) && OperandsFit(n', m)
  {
    if n.op.Binop? {
      FitConstant(n.op.op, n.size, ValueIn(m, n.srcs[0]), n.srcs[0].Val?, ValueIn(m, n.srcs[1]), n.srcs[1].Val?,
                  n'.srcs[0].Val?, n'.srcs[1].Val?);
    }
  }

  lemma BypassSolves(a: seq<Node>, c: seq<Node>, i: nat, p: Pseudo, m: Values)
    requires Bypassed(a, c, i, p) && !a[i].op.Other? && a[i].target.Reg?
    requires SolvesBut(a, m, i) && ValueIn(m, p) == ValueIn(m, a[i].target)
    ensures Solves(c, m) && SameSeen(a, c, m, m)
  {
    forall j {:trigger c[j]} | 0 <= j < |c| && Active(c[j])
      ensures Shaped(c[j]) && ValueIn(m, c[j].target) == Result(c[j], m) && OperandsFit(c[j], m)
    {
      BypassedAt(a, c, i, p, j);
      assert j != i && Active(a[j]);
      ReplacedResult(a[j], c[j], m);
    }
    forall j {:trigger a[j]} {:trigger c[j]} | 0 <= j < |a| && a[j].op.Other?
      ensures c[j] == a[j].(srcs := c[j].srcs) && |c[j].srcs| == |a[j].srcs|
      ensures forall k {:trigger c[j].srcs[k]} :: 0 <= k < |a[j].srcs| ==>
                ValueIn(m, c[j].srcs[k]) == ValueIn(m, a[j].srcs[k])
    {
      BypassedAt(a, c, i, p, j);
    }
  }

  /** No live computation but instruction i lacks an operand. */
  ghost predicate WholeBut(nodes: seq<Node>, i: nat) {
    forall j {:trigger nodes[j]} :: 0 <= j < |nodes| && j != i && Active(nodes[j]) ==> Void !in nodes[j].srcs
  }

  lemma BypassWhole(a: seq<Node>, c: seq<Node>, i: nat, p: Pseudo)
    requires Bypassed(a, c, i, p) && WholeBut(a, i) && p != Void
    ensures Whole(c)
  {
    forall j {:trigger c[j]} | 0 <= j < |c| && Active(c[j]) ensures Void !in c[j].srcs {
      BypassedAt(a, c, i, p, j);
      assert Active(a[j]) && Void !in a[j].srcs;
      forall k {:trigger c[j].srcs[k]} | 0 <= k < |c[j].srcs| ensures c[j].srcs[k] != Void {
        assert a[j].srcs[k] != Void;
      }
    }
  }

  /** What a simplification keeps, and promises. */
  ghost predicate Step(a: seq<Node>, b: seq<Node>, defs: map<Pseudo, nat>, rank: map<Pseudo, nat>) {
    Formed(b, defs, rank) && Whole(b) && Preserves(a, b, defs)
  }

  lemma StepSelf(a: seq<Node>, defs: map<Pseudo, nat>, rank: map<Pseudo, nat>)
    requires Formed(a, defs, rank) && Whole(a)
    ensures Step(a, a, defs, rank)
  {
    forall m | Solves(a, m) ensures Solves(a, m) && SameInputs(a, defs, m, m) && SameSeen(a, a, m, m) {
    }
  }

  /** The result of instruction i always has the value of p. */
  ghost predicate ResultIs(a: seq<Node>, i: nat, p: Pseudo) {
    i < |a| && forall m :: Solves(a, m) ==> ValueIn(m, p) == ValueIn(m, a[i].target)
  }

  lemma BypassStep(a: seq<Node>, c: seq<Node>, i: nat, p: Pseudo, defs: map<Pseudo, nat>, rank: map<Pseudo, nat>)
    requires Formed(a, defs, rank) && Whole(a) && CanReplace(a, i, p) && Bypassed(a, c, i, p) && ResultIs(a, i, p)
    ensures Step(a, c, defs, rank)
  {
    BypassForms(a, c, i, p, defs, rank);
    BypassWhole(a, c, i, p);
    forall m | Solves(a, m) ensures Solves(c, m) && SameInputs(a, defs, m, m) && SameSeen(a, c, m, m) {
      BypassSolves(a, c, i, p, m);
    }
  }

  /** replace_with_pseudo */
  method ReplaceWithPseudo(f: Insns, i: nat, p: Pseudo)
    requires f.Valid() && i < |f.nodes| && HasUseList(f.nodes[i].target) && p != Void && p != f.nodes[i].target
    modifies f
    ensures f.Valid() && Bypassed(old(f.nodes), f.nodes, i, p)
  {
    ghost var a := f.nodes;
    f.ConvertInstructionTarget(f.nodes[i].target, p);
    ghost var b := f.nodes;
    AgreeMarked(f.nodes, f.users, i, f.nodes[i := f.nodes[i].(live := false)]);
    f.nodes := f.nodes[i := f.nodes[i].(live := false)];
    assert f.nodes[i := f.nodes[i].(live := a[i].live)] == b;
  }

  /** The same for a pseudo that has the value of the result. */
  method ReplaceResult(f: Insns, i: nat, p: Pseudo, ghost rank: map<Pseudo, nat>)
    requires f.Valid() && Formed(f.nodes, f.defs, rank) && Whole(f.nodes)
    requires CanReplace(f.nodes, i, p) && ResultIs(f.nodes, i, p)
    modifies f
    ensures f.Valid() && Step(old(f.nodes), f.nodes, f.defs, rank) && Bypassed(old(f.nodes), f.nodes, i, p)
  {
    ghost var a := f.nodes;
    CanReplaceForms(a, i, p, f.defs, rank);
    ReplaceWithPseudo(f, i, p);
    BypassStep(a, f.nodes, i, p, f.defs, rank);
  }

  // ---------------------------------------------------------------------------
  // One instruction changes
  // ---------------------------------------------------------------------------

  /** The new form has the same operands, or constants, and always the same result. */
  ghost predicate Reformed(a: seq<Node>, i: nat, n: Node) {
    && i < |a| && Active(a[i]) && n == a[i].(op := n.op, srcs := n.srcs) && IsComputed(n) && Shaped(n)
    && (forall p :: p in n.srcs ==> p in a[i].srcs || p.Val?)
    && forall m :: Solves(a, m) ==> Result(n, m) == Result(a[i], m) && OperandsFit(n, m)
  }

  lemma ReformedStep(a: seq<Node>, c: seq<Node>, i: nat, n: Node, defs: map<Pseudo, nat>, rank: map<Pseudo, nat>)
    requires Formed(a, defs, rank) && Whole(a) && Reformed(a, i, n) && c == a[i := n]
    ensures Step(a, c, defs, rank)
  {
    forall s, p | Holds(c, s, p)
      ensures p in defs ==> a[defs[p]].live
      ensures p.Reg? && Active(c[s.insn]) ==> RankOf(rank, p) < RankOf(rank, c[s.insn].target)
    {
      if s.insn == i {
        assert p in n.srcs;
        if !p.Val? {
          var k :| 0 <= k < |a[i].srcs| && a[i].srcs[k] == p;
          assert Holds(a, Slot(i, k), p);
        }
      } else {
        assert Holds(a, s, p);
      }
    }
    forall m | Solves(a, m) ensures Solves(c, m) && SameInputs(a, defs, m, m) && SameSeen(a, c, m, m) {
    }
  }

  /** OperandSize is the number of bits that a pseudo may have. */
  function OperandSize(nodes: seq<Node>, defs: map<Pseudo, nat>, size: nat, p: Pseudo): nat {
    if p.Reg? && p in defs && defs[p] < |nodes| then
      var op := nodes[defs[p]].op;
      if op.Convert? && !op.signed && op.origSize < size then op.origSize else size
    else if p.Val? && ValueSize(p.value) < size then ValueSize(p.value)
    else size
  }

  /** value_size, on the pattern of the value. */
  function ValueSize(v: int): nat {
    if v < 0x100 then 8 else if v < 0x10000 then 16 else if v < 0x100000000 then 32 else 64
  }

  /** What was extended with zeros has no more bits than before. */
  lemma OperandHasSize(a: seq<Node>, defs: map<Pseudo, nat>, rank: map<Pseudo, nat>, m: Values, i: nat, k: nat)
    requires Formed(a, defs, rank) && Solves(a, m) && i < |a| && k < |a[i].srcs| && !a[i].srcs[k].Val?
    requires Canonical(ValueIn(m, a[i].srcs[k]), a[i].size)
    ensures Canonical(ValueIn(m, a[i].srcs[k]), OperandSize(a, defs, a[i].size, a[i].srcs[k]))
  {
    var p := a[i].srcs[k];
    assert Holds(a, Slot(i, k), p);
    if p.Reg? && p in defs && a[defs[p]].op.Convert? && !a[defs[p]].op.signed {
      var d := a[defs[p]];
      assert Active(d);
      var v := Wrap(ValueIn(m, d.srcs[0]), d.op.origSize);
      assert ValueIn(m, p) == Wrap(v, d.size);
      SmallerWrap(v, d.size);
    }
  }

  lemma SmallerWrap(v: nat, n: nat)
    ensures Wrap(v, n) <= v
  {
    if v < Pow2(n) {
      WrapCanonical(v, n);
    }
  }

  // ---------------------------------------------------------------------------
  // Binary operations
  // ---------------------------------------------------------------------------

  /** An active binary operation whose constants, if both are, can be folded. */
  predicate IsBinary(nodes: seq<Node>, i: nat) {
    && i < |nodes| && Active(nodes[i]) && nodes[i].op.Binop? && Shaped(nodes[i])
    && var n := nodes[i];
       n.srcs[0].Val? && n.srcs[1].Val? ==> Fit(n.op.op, n.size, n.srcs[0].value, true, n.srcs[1].value, true)
  }

  /** The constant that the instruction computes from constants. */
  function Folded(n: Node): Pseudo
    requires n.op.Binop? && |n.srcs| == 2 && n.srcs[0].Val? && n.srcs[1].Val?
  {
    Val(EvalBinary(n.op.op, n.size, n.srcs[0].value, n.srcs[1].value))
  }

  /** What folding makes of the instruction. */
  function Fold(n: Node): Option<Pseudo>
    requires n.op.Binop? && |n.srcs| == 2 && n.srcs[0].Val? && n.srcs[1].Val?
    requires Fit(n.op.op, n.size, n.srcs[0].value, true, n.srcs[1].value, true)
  {
    var v := FoldConstant(n.op.op, n.size, n.srcs[0].value, n.srcs[1].value);
    if v.Some? then Some(Val(v.value)) else None
  }

  lemma FoldedResult(a: seq<Node>, i: nat, defs: map<Pseudo, nat>, rank: map<Pseudo, nat>)
    requires Formed(a, defs, rank) && IsBinary(a, i) && a[i].srcs[0].Val? && a[i].srcs[1].Val?
    ensures Fold(a[i]) == if IsDivision(a[i].op.op) && a[i].srcs[1].value == 0 then None else Some(Folded(a[i]))
    ensures CanReplace(a, i, Folded(a[i])) && ResultIs(a, i, Folded(a[i]))
  {
    FoldConstantAgrees(a[i].op.op, a[i].size, a[i].srcs[0].value, a[i].srcs[1].value);
  }

  /** simplify_constant_binop */
  method SimplifyConstantBinop(f: Insns, i: nat, ghost rank: map<Pseudo, nat>) returns (changed: bool)
    requires f.Valid() && Formed(f.nodes, f.defs, rank) && Whole(f.nodes) && IsBinary(f.nodes, i)
    requires f.nodes[i].srcs[0].Val? && f.nodes[i].srcs[1].Val?
    modifies f
    ensures f.Valid() && Step(old(f.nodes), f.nodes, f.defs, rank)
    ensures var n := old(f.nodes)[i];
            if IsDivision(n.op.op) && n.srcs[1].value == 0 then !changed && f.nodes == old(f.nodes)
            else changed && Bypassed(old(f.nodes), f.nodes, i, Folded(n))
    ensures !changed ==> f.users == old(f.users)
  {
    FoldedResult(f.nodes, i, f.defs, rank);
    var v := Fold(f.nodes[i]);
    changed := v.Some?;
    if changed {
      ReplaceResult(f, i, v.value, rank);
    } else {
      StepSelf(f.nodes, f.defs, rank);
    }
  }

  /** What the rule for one constant operand puts in the place of the result. */
  function Chosen(rule: Rule, n: Node): Pseudo
    requires |n.srcs| == 2
  {
    match rule
    case Left => n.srcs[0]
    case Right => n.srcs[1]
    case _ => Val(0)
  }

  lemma ChosenCanReplace(a: seq<Node>, i: nat, rule: Rule, defs: map<Pseudo, nat>, rank: map<Pseudo, nat>)
    requires Formed(a, defs, rank) && Whole(a) && i < |a| && Active(a[i]) && a[i].op.Binop?
    ensures CanReplace(a, i, Chosen(rule, a[i])) && Chosen(rule, a[i]) != a[i].target && HasUseList(a[i].target)
  {
    assert a[i].srcs[0] in a[i].srcs && a[i].srcs[1] in a[i].srcs;
    CanReplaceForms(a, i, Chosen(rule, a[i]), defs, rank);
  }

  /** What is left when the rule was carried out on instruction i. */
  ghost predicate Applied(a: seq<Node>, b: seq<Node>, i: nat, rule: Rule) {
    && i < |a| && |a[i].srcs| == 2
    && match rule
       case Keep => b == a
       case AddInstead(c) => b == a[i := AsSum(a[i], c)]
       case _ => Bypassed(a, b, i, Chosen(rule, a[i]))
  }

  /** simplify_constant_leftside */
  method SimplifyConstantLeftside(f: Insns, i: nat, ghost rank: map<Pseudo, nat>) returns (changed: bool)
    requires f.Valid() && Formed(f.nodes, f.defs, rank) && Whole(f.nodes) && IsBinary(f.nodes, i)
    requires f.nodes[i].srcs[0].Val? && !f.nodes[i].srcs[1].Val?
    modifies f
    ensures f.Valid() && Step(old(f.nodes), f.nodes, f.defs, rank)
    ensures var n := old(f.nodes)[i];
            var rule := LeftsideRule(n.op.op, n.srcs[0].value);
            (changed <==> rule != Keep) && Applied(old(f.nodes), f.nodes, i, rule)
    ensures var n := old(f.nodes)[i];
            var op := n.op.op;
            changed <==> n.srcs[0].value == 0
                         && (op.ADD? || op.OR? || op.XOR? || IsShiftOp(op) || op.AND? || op.MULU? || op.MULS?)
    ensures !changed ==> f.users == old(f.users)
  {
    var n := f.nodes[i];
    ghost var a := f.nodes;
    var rule := LeftsideRule(n.op.op, n.srcs[0].value);
    LeftsideWhen(n.op.op, n.srcs[0].value);
    if rule == Keep {
      StepSelf(a, f.defs, rank);
      return false;
    }
    LeftsideResult(a, i);
    ChosenCanReplace(a, i, rule, f.defs, rank);
    ReplaceResult(f, i, Chosen(rule, n), rank);
    changed := true;
  }

  lemma LeftsideResult(a: seq<Node>, i: nat)
    requires IsBinary(a, i) && a[i].srcs[0].Val? && !a[i].srcs[1].Val?
    ensures var rule := LeftsideRule(a[i].op.op, a[i].srcs[0].value);
            rule != Keep ==> ResultIs(a, i, Chosen(rule, a[i]))
  {
    var n := a[i];
    forall m | Solves(a, m)
      ensures RuleAgrees(LeftsideRule(n.op.op, n.srcs[0].value), n.op.op, n.size, ValueIn(m, n.srcs[0]),
                         ValueIn(m, n.srcs[1]))
    {
      LeftsideAgrees(n.op.op, n.size, ValueIn(m, n.srcs[0]), ValueIn(m, n.srcs[1]));
    }
  }

  /** x - c as the sum that simplify_constant_rightside makes of it. */
  function AsSum(n: Node, c: nat): Node
    requires |n.srcs| == 2
  {
    n.(op := Binop(ADD), srcs := [n.srcs[0], Val(c)])
  }

  predicate IsEquality(op: BinOp) {
    op.SET_EQ? || op.SET_NE?
  }

  lemma RightsideAt(a: seq<Node>, defs: map<Pseudo, nat>, rank: map<Pseudo, nat>, i: nat, rule: Rule, m: Values,
                    l: int, v: int)
    requires Formed(a, defs, rank) && IsBinary(a, i) && !a[i].srcs[0].Val? && a[i].srcs[1].Val? && Solves(a, m)
    requires rule == RightsideRule(a[i].op.op, a[i].srcs[1].value, OperandSize(a, defs, a[i].size, a[i].srcs[0]))
    requires !IsEquality(a[i].op.op) && l == ValueIn(m, a[i].srcs[0]) && v == ValueIn(m, a[i].srcs[1])
    ensures ValueIn(m, a[i].target) == EvalBinary(a[i].op.op, a[i].size, l, v) && 0 < a[i].size <= 64
    ensures l >= 0 && v >= 0 && RuleAgrees(rule, a[i].op.op, a[i].size, l, v)
    ensures !IsBoolOp(a[i].op.op) ==> Canonical(l, a[i].size)
  {
    var n := a[i];
    BinaryResult(n, n.op.op, n.size, n.srcs[0], n.srcs[1], m);
    OperandHere(a, defs, rank, m, i);
    RightsideAgrees(n.op.op, n.size, l, v, OperandSize(a, defs, n.size, n.srcs[0]));
  }

  lemma TakenValue(rule: Rule, n: Node, m: Values, l: int, v: int)
    requires |n.srcs| == 2 && l == ValueIn(m, n.srcs[0]) && v == ValueIn(m, n.srcs[1])
             && (rule.Left? || rule.Right? || rule.Zero?)
    ensures ValueIn(m, Chosen(rule, n)) == if rule.Left? then l else if rule.Right? then v else 0
  {
  }

  lemma SumValue(n: Node, c: nat, m: Values, l: int)
    requires |n.srcs| == 2 && l == ValueIn(m, n.srcs[0]) && 0 < n.size <= 64 && Canonical(l, n.size)
             && Canonical(c, LongLong())
    requires !n.srcs[0].Val?
    ensures Result(AsSum(n, c), m) == EvalBinary(ADD, n.size, l, c) && OperandsFit(AsSum(n, c), m)
  {
    BinaryResult(AsSum(n, c), ADD, n.size, n.srcs[0], Val(c), m);
  }

  /** Equalities have no rule. */
  lemma EqualityKept(op: BinOp, v: int, size1: nat)
    requires IsEquality(op)
    ensures RightsideRule(op, v, size1) == Keep
  {
  }

  /** By the rules for a constant right side, an operand or zero is the result. */
  lemma RightsideTaken(a: seq<Node>, defs: map<Pseudo, nat>, rank: map<Pseudo, nat>, i: nat, rule: Rule)
    requires Formed(a, defs, rank) && Whole(a) && IsBinary(a, i) && !a[i].srcs[0].Val? && a[i].srcs[1].Val?
    requires rule == RightsideRule(a[i].op.op, a[i].srcs[1].value, OperandSize(a, defs, a[i].size, a[i].srcs[0]))
    requires (rule.Left? || rule.Right? || rule.Zero?) && !IsEquality(a[i].op.op)
    ensures ResultIs(a, i, Chosen(rule, a[i]))
  {
    var p := Chosen(rule, a[i]);
    forall m | Solves(a, m) ensures ValueIn(m, p) == ValueIn(m, a[i].target) {
      var l, v := ValueIn(m, a[i].srcs[0]), ValueIn(m, a[i].srcs[1]);
      RightsideAt(a, defs, rank, i, rule, m, l, v);
      TakenValue(rule, a[i], m, l, v);
    }
  }

  lemma RightsideSummed(a: seq<Node>, i: nat, c: nat)
    requires IsBinary(a, i) && !a[i].srcs[0].Val? && a[i].srcs[1].Val? && a[i].op.op.SUB?
    requires c == Wrap64(0 - a[i].srcs[1].value)
    ensures Reformed(a, i, AsSum(a[i], c))
  {
    forall m | Solves(a, m) ensures Result(AsSum(a[i], c), m) == Result(a[i], m) && OperandsFit(AsSum(a[i], c), m) {
      DifferenceValue(a[i], c, m, ValueIn(m, a[i].srcs[0]), a[i].srcs[1].value);
    }
  }

  lemma DifferenceValue(n: Node, c: nat, m: Values, l: int, v: int)
    requires n.op == Binop(SUB) && |n.srcs| == 2 && OperandsFit(n, m) && !n.srcs[0].Val?
    requires l == ValueIn(m, n.srcs[0]) && v == ValueIn(m, n.srcs[1]) && c == Wrap64(0 - v)
    ensures Result(AsSum(n, c), m) == Result(n, m) && OperandsFit(AsSum(n, c), m)
  {
    assert n.srcs == [n.srcs[0], n.srcs[1]];
    BinaryResult(n, SUB, n.size, n.srcs[0], n.srcs[1], m);
    SubtractedIsAdded(n.size, l, v);
    SumValue(n, c, m, l);
  }

  /** Only a difference becomes a sum. */
  lemma OnlySubAdds(op: BinOp, v: int, size1: nat)
    requires RightsideRule(op, v, size1).AddInstead?
    ensures op.SUB? && RightsideRule(op, v, size1).c == Wrap64(0 - v)
  {
  }

  /** The left operand, which is no constant, has its size. */
  lemma OperandHere(a: seq<Node>, defs: map<Pseudo, nat>, rank: map<Pseudo, nat>, m: Values, i: nat)
    requires Formed(a, defs, rank) && IsBinary(a, i) && !a[i].srcs[0].Val? && a[i].srcs[1].Val? && Solves(a, m)
    requires !IsEquality(a[i].op.op)
    ensures Canonical(ValueIn(m, a[i].srcs[0]), OperandSize(a, defs, a[i].size, a[i].srcs[0]))
  {
    if IsBoolOp(a[i].op.op) {
      assert Pow2(a[i].size) >= 2;
    }
    OperandHasSize(a, defs, rank, m, i, 0);
  }

  /** Another form with the same uses. */
  method AddInsteadOf(f: Insns, i: nat, n: Node, ghost rank: map<Pseudo, nat>)
    requires f.Valid() && Formed(f.nodes, f.defs, rank) && Whole(f.nodes) && Reformed(f.nodes, i, n)
    requires |n.srcs| == |f.nodes[i].srcs| && SameButConstants(f.nodes[i].srcs, n.srcs)
    modifies f
    ensures f.Valid() && Step(old(f.nodes), f.nodes, f.defs, rank) && f.nodes == old(f.nodes)[i := n]
  {
    ghost var a := f.nodes;
    ConstantAgrees(f.nodes, f.users, i, n);
    f.nodes := f.nodes[i := n];
    ReformedStep(a, f.nodes, i, n, f.defs, rank);
  }

  predicate SameButConstants(a: seq<Pseudo>, b: seq<Pseudo>) {
    |a| == |b| && forall k {:trigger b[k]} :: 0 <= k < |b| ==> b[k] == a[k] || (b[k].Val? && a[k].Val?)
  }

  /** What a rule says of the result holds. */
  ghost predicate RuleHolds(a: seq<Node>, i: nat, rule: Rule)
    requires i < |a| && |a[i].srcs| == 2
  {
    if rule.Keep? then true else if rule.AddInstead? then Reformed(a, i, AsSum(a[i], rule.c))
    else ResultIs(a, i, Chosen(rule, a[i]))
  }

  lemma SumIsSameButConstant(n: Node, c: nat)
    requires |n.srcs| == 2 && n.srcs[1].Val?
    ensures SameButConstants(n.srcs, AsSum(n, c).srcs)
  {
  }

  lemma RightsideHolds(a: seq<Node>, defs: map<Pseudo, nat>, rank: map<Pseudo, nat>, i: nat, rule: Rule)
    requires Formed(a, defs, rank) && Whole(a) && IsBinary(a, i) && !a[i].srcs[0].Val? && a[i].srcs[1].Val?
    requires rule == RightsideRule(a[i].op.op, a[i].srcs[1].value, OperandSize(a, defs, a[i].size, a[i].srcs[0]))
    ensures RuleHolds(a, i, rule) && (rule.AddInstead? ==> SameButConstants(a[i].srcs, AsSum(a[i], rule.c).srcs))
  {
    var size1 := OperandSize(a, defs, a[i].size, a[i].srcs[0]);
    if IsEquality(a[i].op.op) {
      EqualityKept(a[i].op.op, a[i].srcs[1].value, size1);
    } else if rule.AddInstead? {
      OnlySubAdds(a[i].op.op, a[i].srcs[1].value, size1);
      RightsideSummed(a, i, rule.c);
      SumIsSameButConstant(a[i], rule.c);
    } else if !rule.Keep? {
      RightsideTaken(a, defs, rank, i, rule);
    }
  }

  /** A rule that was chosen is carried out. */
  method ApplyRule(f: Insns, i: nat, rule: Rule, ghost rank: map<Pseudo, nat>)
    requires f.Valid() && Formed(f.nodes, f.defs, rank) && Whole(f.nodes) && IsBinary(f.nodes, i)
    requires RuleHolds(f.nodes, i, rule)
    requires rule.AddInstead? ==> SameButConstants(f.nodes[i].srcs, AsSum(f.nodes[i], rule.c).srcs)
    modifies f
    ensures f.Valid() && Step(old(f.nodes), f.nodes, f.defs, rank)
    ensures Applied(old(f.nodes), f.nodes, i, rule) && (rule.Keep? ==> f.users == old(f.users))
  {
    if rule.Keep? {
      StepSelf(f.nodes, f.defs, rank);
    } else if rule.AddInstead? {
      AddInsteadOf(f, i, AsSum(f.nodes[i], rule.c), rank);
    } else {
      ChosenCanReplace(f.nodes, i, rule, f.defs, rank);
      ReplaceResult(f, i, Chosen(rule, f.nodes[i]), rank);
    }
  }

  /** simplify_constant_rightside */
  method SimplifyConstantRightside(f: Insns, i: nat, ghost rank: map<Pseudo, nat>) returns (changed: bool)
    requires f.Valid() && Formed(f.nodes, f.defs, rank) && Whole(f.nodes) && IsBinary(f.nodes, i)
    requires !f.nodes[i].srcs[0].Val? && f.nodes[i].srcs[1].Val?
    modifies f
    ensures f.Valid() && Step(old(f.nodes), f.nodes, f.defs, rank)
    ensures var n := old(f.nodes)[i];
            var rule := RightsideRule(n.op.op, n.srcs[1].value, OperandSize(old(f.nodes), f.defs, n.size, n.srcs[0]));
            (changed <==> rule != Keep) && Applied(old(f.nodes), f.nodes, i, rule)
    ensures var n := old(f.nodes)[i];
            var op, v := n.op.op, n.srcs[1].value;
            changed <==> || NeutralOnRight(op, v) || DecidesOnRight(op, v) || (op.SUB? && v != 0)
                         || (op.ASR?
                             && Signed(v, LongLong()) >= OperandSize(old(f.nodes), f.defs, n.size, n.srcs[0]))
    ensures !changed ==> f.users == old(f.users)
  {
    var n := f.nodes[i];
    var rule := RightsideRule(n.op.op, n.srcs[1].value, OperandSize(f.nodes, f.defs, n.size, n.srcs[0]));
    RightsideHolds(f.nodes, f.defs, rank, i, rule);
    RightsideWhen(n.op.op, n.srcs[1].value, OperandSize(f.nodes, f.defs, n.size, n.srcs[0]));
    ApplyRule(f, i, rule, rank);
    changed := rule != Keep;
  }

  /** Constants are in no list. */
  lemma ConstantAgrees(a: seq<Node>, users: UserLists, i: nat, n: Node)
    requires Agree(a, users) && i < |a| && SameButConstants(a[i].srcs, n.srcs)
    ensures Agree(a[i := n], users)
  {
    forall p, s | HasUseList(p) ensures Entries(ListOf(users, p), s) == One(Holds(a[i := n], s, p)) {
      assert Entries(ListOf(users, p), s) == One(Holds(a, s, p));
      if s.insn == i && s.nr < |n.srcs| {
        assert n.srcs[s.nr] == a[i].srcs[s.nr] || (n.srcs[s.nr].Val? && a[i].srcs[s.nr].Val?);
      }
    }
  }

  /** canonical_order: symbols and constants on the right. */
  predicate CanonicalOrder(p1: Pseudo, p2: Pseudo) {
    if p1.Val? then p2.Val? else p1.Sym? ==> p2.Sym? || p2.Val?
  }

  function Exchanged(n: Node): Node
    requires |n.srcs| == 2
  {
    n.(srcs := [n.srcs[1], n.srcs[0]])
  }

  lemma ExchangedReforms(a: seq<Node>, i: nat)
    requires i < |a| && Active(a[i]) && a[i].op.Binop? && Shaped(a[i]) && Commutative(a[i].op.op)
    ensures Reformed(a, i, Exchanged(a[i])) && Switched(a, Slot(i, 0), Slot(i, 1)) == a[i := Exchanged(a[i])]
  {
    var n := a[i];
    forall m | Solves(a, m) ensures Result(Exchanged(n), m) == Result(n, m) && OperandsFit(Exchanged(n), m) {
      Swapped(n.op.op, n.size, ValueIn(m, n.srcs[0]), ValueIn(m, n.srcs[1]));
    }
    assert n.srcs[0 := n.srcs[1]][1 := n.srcs[0]] == [n.srcs[1], n.srcs[0]];
  }

  /** simplify_commutative_binop */
  method SimplifyCommutativeBinop(f: Insns, i: nat, ghost rank: map<Pseudo, nat>) returns (changed: bool)
    requires f.Valid() && Formed(f.nodes, f.defs, rank) && Whole(f.nodes) && IsBinary(f.nodes, i)
    requires Commutative(f.nodes[i].op.op)
    modifies f
    ensures f.Valid() && Step(old(f.nodes), f.nodes, f.defs, rank)
    ensures var p1, p2 := old(f.nodes)[i].srcs[0], old(f.nodes)[i].srcs[1];
            changed <==> !p2.Val? && (p1.Val? || (p1.Sym? && !p2.Sym?))
    ensures f.nodes == if changed then old(f.nodes)[i := Exchanged(old(f.nodes)[i])] else old(f.nodes)
    ensures CanonicalOrder(f.nodes[i].srcs[0], f.nodes[i].srcs[1]) && (!changed ==> f.users == old(f.users))
  {
    ghost var a := f.nodes;
    changed := !CanonicalOrder(f.nodes[i].srcs[0], f.nodes[i].srcs[1]);
    if changed {
      ExchangedReforms(a, i);
      f.SwitchPseudo(Slot(i, 0), Slot(i, 1));
      ReformedStep(a, f.nodes, i, Exchanged(a[i]), f.defs, rank);
    } else {
      StepSelf(a, f.defs, rank);
    }
  }

  // ---------------------------------------------------------------------------
  // (a op c1) op c2
  // ---------------------------------------------------------------------------

  /** simple_pseudo */
  predicate Simple(p: Pseudo) {
    p.Val? || p.Sym?
  }

  /** The instruction that computes the left operand. */
  predicate HasInner(nodes: seq<Node>, defs: map<Pseudo, nat>, i: nat, d: nat) {
    && i < |nodes| && d < |nodes| && d != i && nodes[i].op.Binop? && |nodes[i].srcs| == 2
    && nodes[i].srcs[0].Reg? && nodes[i].srcs[0] in defs && defs[nodes[i].srcs[0]] == d
  }

  /** The tests of simplify_associative_binop. */
  predicate Reassociable(nodes: seq<Node>, defs: map<Pseudo, nat>, users: UserLists, i: nat, d: nat) {
    && HasInner(nodes, defs, i, d)
    && Simple(nodes[i].srcs[1]) && nodes[d].op == nodes[i].op
    && |nodes[d].srcs| == 2 && Simple(nodes[d].srcs[1])
    && |ListOf(users, nodes[d].target)| == 1
  }

  /** The instruction and the one below it with their operands exchanged. */
  predicate IsReassociated(a: seq<Node>, c: seq<Node>, i: nat, d: nat) {
    && |c| == |a| && i < |a| && d < |a| && d != i && |a[i].srcs| == |a[d].srcs| == 2
    && c[d] == a[d].(srcs := [a[i].srcs[1], a[d].srcs[1]])
    && c[i] == a[i].(srcs := [a[i].srcs[0], a[d].srcs[0]])
    && forall j {:trigger c[j]} :: 0 <= j < |a| && j != i && j != d ==> c[j] == a[j]
  }

  lemma OneUser(a: seq<Node>, users: UserLists, p: Pseudo, s: Slot, t: Slot)
    requires Agree(a, users) && HasUseList(p) && |ListOf(users, p)| == 1 && Holds(a, s, p) && Holds(a, t, p)
    ensures s == t
  {
    UnusedIsEmpty(a, users, p);
    assert s in ListOf(users, p) && t in ListOf(users, p);
  }

  /** What an operand of either holds after the exchange, one of them held before. */
  lemma ReassociatedSlots(a: seq<Node>, c: seq<Node>, i: nat, d: nat, s: Slot, p: Pseudo)
    requires IsReassociated(a, c, i, d) && Holds(c, s, p)
    ensures if s == Slot(i, 1) then p == a[d].srcs[0] else if s == Slot(d, 0) then p == a[i].srcs[1] else Holds(a, s, p)
  {
    if s.insn == i || s.insn == d {
      assert s.nr == 0 || s.nr == 1;
    } else {
      assert c[s.insn] == a[s.insn];
    }
  }

  lemma ReassociatedForms(a: seq<Node>, c: seq<Node>, defs: map<Pseudo, nat>, rank: map<Pseudo, nat>, users: UserLists,
                          i: nat, d: nat)
    requires Formed(a, defs, rank) && Whole(a) && Reassociable(a, defs, users, i, d) && Active(a[i])
    requires IsReassociated(a, c, i, d)
    ensures Active(a[d]) && a[d].target == a[i].srcs[0]
    ensures Formed(c, defs, rank) && Whole(c)
  {
    var t := a[i].srcs[0];
    assert Holds(a, Slot(i, 0), t);
    assert Active(a[d]) && a[d].target == t;
    assert Holds(a, Slot(d, 0), a[d].srcs[0]) && Holds(a, Slot(i, 1), a[i].srcs[1]);
    assert a[d].srcs[0] in a[d].srcs && a[d].srcs[1] in a[d].srcs && a[i].srcs[1] in a[i].srcs;
    forall j {:trigger c[j]} | 0 <= j < |c|
      ensures c[j] == a[j].(srcs := c[j].srcs) && Shaped(c[j]) && (Active(c[j]) ==> Void !in c[j].srcs)
    {
      if j != i && j != d {
        assert c[j] == a[j];
      }
    }
    forall s, p | Holds(c, s, p) ensures p in defs ==> c[defs[p]].live {
      ReassociatedSlots(a, c, i, d, s, p);
    }
    forall s, p | Holds(c, s, p) && p.Reg? && Active(c[s.insn])
      ensures RankOf(rank, p) < RankOf(rank, c[s.insn].target)
    {
      ReassociatedSlots(a, c, i, d, s, p);
    }
  }

  /** The values afterwards: only the inner result changes. */
  function Regrouped(a: seq<Node>, i: nat, d: nat, m: Values): Values
    requires i < |a| && d < |a| && |a[i].srcs| == |a[d].srcs| == 2 && a[d].op.Binop?
  {
    m[a[d].target := EvalBinary(a[d].op.op, a[d].size, ValueIn(m, a[i].srcs[1]), ValueIn(m, a[d].srcs[1]))]
  }

  /** Everything else sees the values that it saw. */
  lemma RegroupedElsewhere(a: seq<Node>, c: seq<Node>, defs: map<Pseudo, nat>, rank: map<Pseudo, nat>, users: UserLists,
                           i: nat, d: nat, m: Values, j: nat)
    requires Formed(a, defs, rank) && Whole(a) && Agree(a, users) && Reassociable(a, defs, users, i, d) && Active(a[i])
    requires j < |a| && j != i
    ensures forall k {:trigger a[j].srcs[k]} :: 0 <= k < |a[j].srcs| ==>
              ValueIn(Regrouped(a, i, d, m), a[j].srcs[k]) == ValueIn(m, a[j].srcs[k])
  {
    var t := a[i].srcs[0];
    forall k {:trigger a[j].srcs[k]} | 0 <= k < |a[j].srcs| ensures a[j].srcs[k] != t {
      assert Holds(a, Slot(i, 0), t);
      if a[j].srcs[k] == t {
        assert Holds(a, Slot(j, k), t);
        OneUser(a, users, t, Slot(i, 0), Slot(j, k));
      }
    }
  }

  /** What the two instructions work on, before and after. */
  lemma RegroupedValues(a: seq<Node>, c: seq<Node>, defs: map<Pseudo, nat>, rank: map<Pseudo, nat>, users: UserLists,
                        i: nat, d: nat, m: Values, m': Values, x: Pseudo, c1: Pseudo, c2: Pseudo, t: Pseudo)
    requires Formed(a, defs, rank) && Whole(a) && Reassociable(a, defs, users, i, d) && Active(a[i])
    requires IsReassociated(a, c, i, d) && m' == Regrouped(a, i, d, m)
    requires x == a[d].srcs[0] && c1 == a[d].srcs[1] && c2 == a[i].srcs[1] && t == a[d].target
    ensures a[i].srcs[0] == t && Active(a[d]) && c[d].srcs == [c2, c1] && c[i].srcs == [t, x]
    ensures ValueIn(m', x) == ValueIn(m, x) && ValueIn(m', c1) == ValueIn(m, c1) && ValueIn(m', c2) == ValueIn(m, c2)
    ensures ValueIn(m', a[i].target) == ValueIn(m, a[i].target) && t.Reg?
    ensures ValueIn(m', t) == EvalBinary(a[d].op.op, a[d].size, ValueIn(m, c2), ValueIn(m, c1))
  {
    ReassociatedForms(a, c, defs, rank, users, i, d);
    assert Holds(a, Slot(d, 0), x) && Holds(a, Slot(d, 1), c1) && Holds(a, Slot(i, 0), t) && Holds(a, Slot(i, 1), c2);
    assert x != t && c1 != t && c2 != t && a[i].target != t;
  }

  /** The two instructions with their operands exchanged, on the new values. */
  lemma RegroupedPair(a: seq<Node>, c: seq<Node>, defs: map<Pseudo, nat>, rank: map<Pseudo, nat>, users: UserLists,
                      i: nat, d: nat, m: Values, m': Values)
    requires Formed(a, defs, rank) && Whole(a) && Reassociable(a, defs, users, i, d) && Active(a[i])
    requires IsReassociated(a, c, i, d) && Associative(a[i].op.op) && BitsKept(a[i].op.op, a[d].size, a[i].size)
    requires Solves(a, m) && m' == Regrouped(a, i, d, m)
    ensures ValueIn(m', c[d].target) == Result(c[d], m') && ValueIn(m', c[i].target) == Result(c[i], m')
    ensures a[d].size == a[i].size ==> OperandsFit(c[d], m') && OperandsFit(c[i], m')
  {
    var t, op := a[d].target, a[i].op.op;
    var x, c1, c2 := a[d].srcs[0], a[d].srcs[1], a[i].srcs[1];
    RegroupedValues(a, c, defs, rank, users, i, d, m, m', x, c1, c2, t);
    RegroupedNodes(a[i], a[d], c[i], c[d], op, a[d].size, a[i].size, x, c1, c2, t, m, m');
  }

  lemma RegroupedNodes(ai: Node, ad: Node, ci: Node, cd: Node, op: BinOp, k: nat, n: nat, x: Pseudo, c1: Pseudo,
                       c2: Pseudo, t: Pseudo, m: Values, m': Values)
    requires ai.op == ad.op == ci.op == cd.op == Binop(op) && Associative(op) && BitsKept(op, k, n)
    requires ai.size == ci.size == n && ad.size == cd.size == k
    requires ad.srcs == [x, c1] && ai.srcs == [t, c2] && cd.srcs == [c2, c1] && ci.srcs == [t, x] && t.Reg?
    requires ValueIn(m, t) == Result(ad, m) && OperandsFit(ad, m) && OperandsFit(ai, m)
    requires ValueIn(m', x) == ValueIn(m, x) && ValueIn(m', c1) == ValueIn(m, c1) && ValueIn(m', c2) == ValueIn(m, c2)
    requires ValueIn(m', t) == EvalBinary(op, k, ValueIn(m, c2), ValueIn(m, c1))
    ensures ValueIn(m', t) == Result(cd, m') && Result(ci, m') == Result(ai, m)
    ensures k == n ==> OperandsFit(cd, m') && OperandsFit(ci, m')
  {
    var vx, v1, v2, vt, vt' := ValueIn(m, x), ValueIn(m, c1), ValueIn(m, c2), ValueIn(m, t), ValueIn(m', t);
    BinaryResult(ad, op, k, x, c1, m);
    BinaryResult(ai, op, n, t, c2, m);
    BinaryResult(cd, op, k, c2, c1, m');
    BinaryResult(ci, op, n, t, x, m');
    ExchangesExactly(op, k, n);
    assert EvalBinary(op, n, EvalBinary(op, k, vx, v1), v2) == EvalBinary(op, n, EvalBinary(op, k, v2, v1), vx);
    if k == n {
      RegroupedInts(op, n, vx, x.Val?, v1, c1.Val?, v2, c2.Val?, vt, vt');
    }
  }

  lemma BinaryResult(n: Node, op: BinOp, size: nat, l: Pseudo, r: Pseudo, m: Values)
    requires n.op == Binop(op) && n.size == size && n.srcs == [l, r]
    ensures Result(n, m) == EvalBinary(op, size, ValueIn(m, l), ValueIn(m, r))
    ensures OperandsFit(n, m) <==> Fit(op, size, ValueIn(m, l), l.Val?, ValueIn(m, r), r.Val?)
  {
  }

  lemma RegroupedInts(op: BinOp, n: nat, x: int, constX: bool, c1: int, const1: bool, c2: int, const2: bool, r1: int,
                      r2: int)
    requires Associative(op) && Fit(op, n, x, constX, c1, const1) && Fit(op, n, r1, false, c2, const2)
    requires r1 == EvalBinary(op, n, x, c1) && r2 == EvalBinary(op, n, c2, c1)
    ensures Fit(op, n, c2, const2, c1, const1) && Fit(op, n, r2, false, x, constX)
  {
    ResultCanonical(op, n, c2, c1);
    if IsBoolOp(op) {
      TruthOfBool(op, n, c2, c1);
    }
    RegroupedFit(op, n, x, constX, c1, const1, c2, const2, r1, r2);
  }

  lemma RegroupedFit(op: BinOp, n: nat, x: int, constX: bool, c1: int, const1: bool, c2: int, const2: bool, r1: int,
                     r2: int)
    requires Associative(op) && Fit(op, n, x, constX, c1, const1) && Fit(op, n, r1, false, c2, const2)
    requires Canonical(r2, n) && (IsBoolOp(op) ==> 0 <= r2 <= 1)
    ensures Fit(op, n, c2, const2, c1, const1) && Fit(op, n, r2, false, x, constX)
  {
    FitEach(op, n, x, constX, c1, const1);
    FitEach(op, n, r1, false, c2, const2);
    FitEach(op, n, c2, const2, c1, const1);
    FitEach(op, n, r2, false, x, constX);
  }

  /** What an associative operator asks of each operand. */
  predicate FitAlone(op: BinOp, n: nat, v: int, constant: bool) {
    && 0 < n <= 64
    && if IsBoolOp(op) then 0 <= v <= 1 else Canonical(v, if op.ADD? && constant then LongLong() else n)
  }

  lemma FitEach(op: BinOp, n: nat, l: int, constL: bool, r: int, constR: bool)
    requires Associative(op)
    ensures Fit(op, n, l, constL, r, constR) <==> FitAlone(op, n, l, constL) && FitAlone(op, n, r, constR)
  {
  }

  lemma TruthOfBool(op: BinOp, n: nat, l: int, r: int)
    requires IsBoolOp(op)
    ensures 0 <= EvalBinary(op, n, l, r) <= 1
  {
  }

  /** The values afterwards satisfy all computations, and show the others the same. */
  lemma RegroupedAll(a: seq<Node>, c: seq<Node>, defs: map<Pseudo, nat>, rank: map<Pseudo, nat>, users: UserLists,
                     i: nat, d: nat, m: Values, m': Values)
    requires Formed(a, defs, rank) && Whole(a) && Agree(a, users) && Reassociable(a, defs, users, i, d) && Active(a[i])
    requires IsReassociated(a, c, i, d) && Associative(a[i].op.op) && BitsKept(a[i].op.op, a[d].size, a[i].size)
    requires Solves(a, m) && m' == Regrouped(a, i, d, m)
    ensures Computes(c, m') && (a[d].size == a[i].size ==> Solves(c, m')) && SameSeen(a, c, m, m')
  {
    RegroupedPair(a, c, defs, rank, users, i, d, m, m');
    ReassociatedForms(a, c, defs, rank, users, i, d);
    forall j {:trigger c[j]} | 0 <= j < |c| && j != i && j != d
      ensures c[j] == a[j] && SameSources(c[j], m, m') && (Active(c[j]) ==> SolvedAt(c[j], m'))
    {
      RegroupedOther(a, c, defs, rank, users, i, d, m, m', j);
    }
    forall j {:trigger c[j]} | 0 <= j < |c| && Active(c[j])
      ensures ComputedAt(c[j], m') && (a[d].size == a[i].size ==> SolvedAt(c[j], m'))
    {
      assert j != i && j != d ==> SolvedAt(c[j], m');
    }
  }

  predicate ComputedAt(n: Node, m: Values) {
    IsComputed(n) && Shaped(n) && ValueIn(m, n.target) == Result(n, m)
  }

  predicate SolvedAt(n: Node, m: Values) {
    ComputedAt(n, m) && OperandsFit(n, m)
  }

  predicate SameSources(n: Node, m: Values, m': Values) {
    forall k {:trigger n.srcs[k]} :: 0 <= k < |n.srcs| ==> ValueIn(m', n.srcs[k]) == ValueIn(m, n.srcs[k])
  }

  /** Another instruction than the two. */
  lemma RegroupedOther(a: seq<Node>, c: seq<Node>, defs: map<Pseudo, nat>, rank: map<Pseudo, nat>, users: UserLists,
                       i: nat, d: nat, m: Values, m': Values, j: nat)
    requires Formed(a, defs, rank) && Whole(a) && Agree(a, users) && Reassociable(a, defs, users, i, d) && Active(a[i])
    requires IsReassociated(a, c, i, d) && Solves(a, m) && m' == Regrouped(a, i, d, m) && j < |c| && j != i && j != d
    ensures c[j] == a[j] && SameSources(c[j], m, m') && (Active(c[j]) ==> SolvedAt(c[j], m'))
  {
    assert c[j] == a[j];
    RegroupedElsewhere(a, c, defs, rank, users, i, d, m, j);
    if Active(a[j]) {
      SameResult(a[j], m, m');
      assert Holds(a, Slot(i, 0), a[i].srcs[0]) && Active(a[d]) && a[j].target != a[d].target;
    }
  }

  lemma ReassociatedPreserves(a: seq<Node>, c: seq<Node>, defs: map<Pseudo, nat>, rank: map<Pseudo, nat>,
                              users: UserLists, i: nat, d: nat)
    requires Formed(a, defs, rank) && Whole(a) && Agree(a, users) && Reassociable(a, defs, users, i, d) && Active(a[i])
    requires IsReassociated(a, c, i, d) && Associative(a[i].op.op) && BitsKept(a[i].op.op, a[d].size, a[i].size)
    ensures KeepsValues(a, c, defs) && (a[d].size == a[i].size ==> Preserves(a, c, defs))
  {
    ReassociatedForms(a, c, defs, rank, users, i, d);
    forall j {:trigger c[j]} | 0 <= j < |c| ensures c[j].op == a[j].op {
      if j != i && j != d {
        assert c[j] == a[j];
      }
    }
    forall m | Solves(a, m)
      ensures exists m' :: Computes(c, m') && (a[d].size == a[i].size ==> Solves(c, m')) && SameInputs(a, defs, m, m')
                           && SameSeen(a, c, m, m')
    {
      var m' := Regrouped(a, i, d, m);
      RegroupedAll(a, c, defs, rank, users, i, d, m, m');
      assert SameInputs(a, defs, m, m');
    }
  }

  /** simplify_associative_binop. It does not compare the sizes of the two instructions. */
  method SimplifyAssociativeBinop(f: Insns, i: nat, ghost rank: map<Pseudo, nat>) returns (changed: bool)
    requires f.Valid() && Formed(f.nodes, f.defs, rank) && Whole(f.nodes) && IsBinary(f.nodes, i)
    requires Associative(f.nodes[i].op.op)
    modifies f
    ensures f.Valid() && Formed(f.nodes, f.defs, rank) && Whole(f.nodes)
    ensures changed <==> exists d :: Reassociable(old(f.nodes), f.defs, old(f.users), i, d)
    ensures !changed ==> f.nodes == old(f.nodes)
    ensures changed ==>
              exists d ::
                Reassociable(old(f.nodes), f.defs, old(f.users), i, d) && IsReassociated(old(f.nodes), f.nodes, i, d)
    ensures SizesAgree(old(f.nodes), f.defs, i) ==> Preserves(old(f.nodes), f.nodes, f.defs)
    ensures SizesAllow(old(f.nodes), f.defs, i) ==> KeepsValues(old(f.nodes), f.nodes, f.defs)
  {
    ghost var a, u := f.nodes, f.users;
    StepSelf(a, f.defs, rank);
    PreservedValues(a, a, f.defs);
    var pseudo := f.nodes[i].srcs[0];
    if !Simple(f.nodes[i].srcs[1]) || !pseudo.Reg? || pseudo !in f.defs {
      return false;
    }
    var d := f.defs[pseudo];
    assert d != i by {
      assert Holds(a, Slot(i, 0), pseudo);
    }
    if f.nodes[d].op != f.nodes[i].op || !Simple(f.nodes[d].srcs[1]) || |ListOf(f.users, f.nodes[d].target)| != 1 {
      assert !exists e :: Reassociable(a, f.defs, u, i, e);
      return false;
    }
    assert Reassociable(a, f.defs, u, i, d);
    f.SwitchPseudo(Slot(d, 0), Slot(i, 1));
    assert IsReassociated(a, f.nodes, i, d);
    ReassociatedForms(a, f.nodes, f.defs, rank, u, i, d);
    if BitsKept(a[i].op.op, a[d].size, a[i].size) {
      ReassociatedPreserves(a, f.nodes, f.defs, rank, u, i, d);
    }
    changed := true;
  }

  /** Folding.ExchangesExactly: when an operation of n bits on one of k bits keeps its value. */
  predicate BitsKept(op: BinOp, k: nat, n: nat) {
    n <= k || op.AND? || IsBoolOp(op)
  }

  /** No bit can get lost between the instruction and the one that computes its left operand. */
  predicate SizesAllow(nodes: seq<Node>, defs: map<Pseudo, nat>, i: nat) {
    i < |nodes| && |nodes[i].srcs| > 0 && nodes[i].op.Binop?
    && (nodes[i].srcs[0] in defs && defs[nodes[i].srcs[0]] < |nodes| ==>
          BitsKept(nodes[i].op.op, nodes[defs[nodes[i].srcs[0]]].size, nodes[i].size))
  }

  /** The instruction and the one that computes its left operand have the same size. */
  predicate SizesAgree(nodes: seq<Node>, defs: map<Pseudo, nat>, i: nat) {
    i < |nodes| && |nodes[i].srcs| > 0
    && (nodes[i].srcs[0] in defs && defs[nodes[i].srcs[0]] < |nodes| ==>
          nodes[defs[nodes[i].srcs[0]]].size == nodes[i].size)
  }

  /** Operands that are out of order, or that the instruction below can take. */
  ghost predicate CanExchange(a: seq<Node>, defs: map<Pseudo, nat>, users: UserLists, i: nat)
    requires IsBinary(a, i)
  {
    var n := a[i];
    || (Commutative(n.op.op) && !CanonicalOrder(n.srcs[0], n.srcs[1]))
    || (Associative(n.op.op) && exists d :: Reassociable(a, defs, users, i, d))
  }

  /** simplify_instruction, for a binary operation. */
  method SimplifyBinary(f: Insns, i: nat, ghost rank: map<Pseudo, nat>) returns (changed: bool)
    requires f.Valid() && Formed(f.nodes, f.defs, rank) && Whole(f.nodes) && IsBinary(f.nodes, i)
    modifies f
    ensures f.Valid() && Formed(f.nodes, f.defs, rank) && Whole(f.nodes)
    ensures SizesAgree(old(f.nodes), f.defs, i) || !Associative(old(f.nodes)[i].op.op) ==>
              Preserves(old(f.nodes), f.nodes, f.defs)
    ensures SizesAllow(old(f.nodes), f.defs, i) || !Associative(old(f.nodes)[i].op.op) ==>
              KeepsValues(old(f.nodes), f.nodes, f.defs)
    ensures changed <==> (HasRule(old(f.nodes), f.defs, i) || CanExchange(old(f.nodes), f.defs, old(f.users), i))
    ensures !changed ==> f.nodes == old(f.nodes)
  {
    changed := SimplifyBinop(f, i, rank);
    PreservedValues(old(f.nodes), f.nodes, f.defs);
    if !changed {
      changed := SimplifyOrder(f, i, rank);
    }
  }

  /** The exchanges that may follow when no rule was found. */
  method SimplifyOrder(f: Insns, i: nat, ghost rank: map<Pseudo, nat>) returns (changed: bool)
    requires f.Valid() && Formed(f.nodes, f.defs, rank) && Whole(f.nodes) && IsBinary(f.nodes, i)
    modifies f
    ensures f.Valid() && Formed(f.nodes, f.defs, rank) && Whole(f.nodes)
    ensures SizesAgree(old(f.nodes), f.defs, i) || !Associative(old(f.nodes)[i].op.op) ==>
              Preserves(old(f.nodes), f.nodes, f.defs)
    ensures SizesAllow(old(f.nodes), f.defs, i) || !Associative(old(f.nodes)[i].op.op) ==>
              KeepsValues(old(f.nodes), f.nodes, f.defs)
    ensures changed <==> CanExchange(old(f.nodes), f.defs, old(f.users), i)
    ensures !changed ==> f.nodes == old(f.nodes)
  {
    ghost var a := f.nodes;
    StepSelf(a, f.defs, rank);
    PreservedValues(a, a, f.defs);
    changed := false;
    if Commutative(f.nodes[i].op.op) {
      changed := SimplifyCommutativeBinop(f, i, rank);
      PreservedValues(a, f.nodes, f.defs);
      if !changed && Associative(f.nodes[i].op.op) {
        changed := SimplifyAssociativeBinop(f, i, rank);
      }
    }
  }

  /** An operation that is dead, can be folded, or has a rule for its constant side. */
  ghost predicate HasRule(a: seq<Node>, defs: map<Pseudo, nat>, i: nat)
    requires IsBinary(a, i)
  {
    var n := a[i];
    || Unused(a, n.target)
    || (n.srcs[0].Val? && n.srcs[1].Val? && !(IsDivision(n.op.op) && n.srcs[1].value == 0))
    || (n.srcs[0].Val? && !n.srcs[1].Val? && LeftsideRule(n.op.op, n.srcs[0].value) != Keep)
    || (!n.srcs[0].Val? && n.srcs[1].Val?
        && RightsideRule(n.op.op, n.srcs[1].value, OperandSize(a, defs, n.size, n.srcs[0])) != Keep)
  }

  /** simplify_binop */
  method SimplifyBinop(f: Insns, i: nat, ghost rank: map<Pseudo, nat>) returns (changed: bool)
    requires f.Valid() && Formed(f.nodes, f.defs, rank) && Whole(f.nodes) && IsBinary(f.nodes, i)
    modifies f
    ensures f.Valid() && Step(old(f.nodes), f.nodes, f.defs, rank)
    ensures changed <==> HasRule(old(f.nodes), f.defs, i)
    ensures !changed ==> f.nodes == old(f.nodes) && f.users == old(f.users)
    ensures Unused(old(f.nodes), old(f.nodes)[i].target) ==> Dropped(old(f.nodes), f.nodes, i)
  {
    var n := f.nodes[i];
    ghost var a := f.nodes;
    var dead := f.DeadInsn(i);
    if dead {
      DeadStep(a, f.nodes, f.defs, rank, i);
      return true;
    }
    if n.srcs[0].Val? && n.srcs[1].Val? {
      changed := SimplifyConstantBinop(f, i, rank);
    } else if n.srcs[0].Val? {
      changed := SimplifyConstantLeftside(f, i, rank);
    } else if n.srcs[1].Val? {
      changed := SimplifyConstantRightside(f, i, rank);
    } else {
      StepSelf(a, f.defs, rank);
      changed := false;
    }
  }

  // ---------------------------------------------------------------------------
  // Unary operations and selects
  // ---------------------------------------------------------------------------

  /** The constant that the instruction computes from one. */
  function FoldedUnary(n: Node): Pseudo
    requires n.op.Unop? && |n.srcs| == 1 && n.srcs[0].Val?
  {
    Val(EvalUnary(n.op.uop, n.size, n.srcs[0].value))
  }

  /** simplify_unop */
  method SimplifyUnop(f: Insns, i: nat, ghost rank: map<Pseudo, nat>) returns (changed: bool)
    requires f.Valid() && Formed(f.nodes, f.defs, rank) && Whole(f.nodes)
    requires i < |f.nodes| && Active(f.nodes[i]) && f.nodes[i].op.Unop? && 0 < f.nodes[i].size <= 64
    modifies f
    ensures f.Valid() && Step(old(f.nodes), f.nodes, f.defs, rank)
    ensures var n := old(f.nodes)[i];
            if Unused(old(f.nodes), n.target) then changed && Dropped(old(f.nodes), f.nodes, i)
            else if n.srcs[0].Val? then changed && Bypassed(old(f.nodes), f.nodes, i, FoldedUnary(n))
            else !changed && f.nodes == old(f.nodes)
  {
    var n := f.nodes[i];
    ghost var a := f.nodes;
    var dead := f.DeadInsn(i);
    if dead {
      DeadStep(a, f.nodes, f.defs, rank, i);
      return true;
    }
    if !n.srcs[0].Val? {
      StepSelf(a, f.defs, rank);
      return false;
    }
    var val := n.srcs[0].value;
    var res := if n.op.uop.NOT? then -1 - val else 0 - val;
    MaskedOnce(res, n.size);
    assert EvalUnary(n.op.uop, n.size, val) == Masked(res, n.size);
    ReplaceResult(f, i, Val(Masked(res, n.size)), rank);
    changed := true;
  }

  predicate SameOps(a: seq<Node>, b: seq<Node>) {
    |a| == |b| && forall j {:trigger a[j]} {:trigger b[j]} :: 0 <= j < |a| ==> b[j].op == a[j].op
  }

  /** A select loses an operand, and perhaps what computed it. */
  lemma OperandGoes(a: seq<Node>, b: seq<Node>, defs: map<Pseudo, nat>, rank: map<Pseudo, nat>, i: nat, k: nat)
    requires Formed(a, defs, rank) && WholeBut(a, i) && i < |a| && Active(a[i]) && a[i].op.Select? && k < |a[i].srcs|
    requires Cascade(WithSrc(a, Slot(i, k), Void), b)
    ensures Formed(b, defs, rank) && WholeBut(b, i) && b[i] == a[i].(srcs := a[i].srcs[k := Void])
    ensures SameOps(a, b) && forall m :: SolvesBut(a, m, i) ==> SolvesBut(b, m, i) && SameSeen(a, b, m, m)
  {
    var v := WithSrc(a, Slot(i, k), Void);
    assert KilledOrSame(v[i], b[i]);
    forall s, p | Holds(v, s, p) && p != Void ensures Holds(a, s, p) {
    }
    forall s, p | Holds(v, s, p) && p in defs ensures v[defs[p]].live {
      assert Holds(a, s, p);
    }
    CascadeForms(v, b, defs, rank);
    forall j {:trigger b[j]} | 0 <= j < |b| && j != i && Active(b[j]) ensures Void !in b[j].srcs {
      assert KilledOrSame(v[j], b[j]) && v[j] == a[j];
    }
    forall j {:trigger b[j]} | 0 <= j < |b| ensures b[j].op == a[j].op {
      assert KilledOrSame(v[j], b[j]);
    }
    forall m | SolvesBut(a, m, i) ensures SolvesBut(b, m, i) && SameSeen(a, b, m, m) {
      CascadeSolves(a, v, b, m, i);
    }
  }

  /** What is left when a select takes one of its operands: the uses of the condition and
      of the other operand go first, then the operand takes the place of the result. */
  ghost predicate Taken(a: seq<Node>, d: seq<Node>, i: nat, nonzero: bool) {
    i < |a| && |a[i].srcs| == 3 && TakenOver(a, d, i, if nonzero then 2 else 1, a[i].srcs[if nonzero then 1 else 2])
  }

  ghost predicate TakenOver(a: seq<Node>, d: seq<Node>, i: nat, kill: nat, take: Pseudo) {
    exists b: seq<Node>, c: seq<Node> :: CutUse(a, b, i, 0) && CutUse(b, c, i, kill) && Bypassed(c, d, i, take)
  }

  ghost predicate CutUse(a: seq<Node>, b: seq<Node>, i: nat, k: nat) {
    IsSlot(a, Slot(i, k)) && Cascade(WithSrc(a, Slot(i, k), Void), b)
  }

  /** The operand that a select takes is its result. */
  method TakeOperand(f: Insns, i: nat, nonzero: bool, ghost rank: map<Pseudo, nat>)
    requires f.Valid() && Formed(f.nodes, f.defs, rank) && Whole(f.nodes)
    requires i < |f.nodes| && Active(f.nodes[i]) && f.nodes[i].op.Select?
    requires ResultIs(f.nodes, i, f.nodes[i].srcs[if nonzero then 1 else 2])
    modifies f
    ensures f.Valid() && Step(old(f.nodes), f.nodes, f.defs, rank) && Taken(old(f.nodes), f.nodes, i, nonzero)
  {
    ghost var a := f.nodes;
    var take, kill := f.nodes[i].srcs[if nonzero then 1 else 2], if nonzero then 2 else 1;
    assert take in a[i].srcs;
    f.KillUse(Slot(i, 0));
    ghost var b := f.nodes;
    OperandGoes(a, b, f.defs, rank, i, 0);
    f.KillUse(Slot(i, kill));
    ghost var c := f.nodes;
    OperandGoes(b, c, f.defs, rank, i, kill);
    assert c[i].srcs[3 - kill] == take;
    CanReplaceForms(c, i, take, f.defs, rank);
    ReplaceWithPseudo(f, i, take);
    TakenStep(a, b, c, f.nodes, i, take, f.defs, rank);
    assert CutUse(a, b, i, 0) && CutUse(b, c, i, kill);
  }

  lemma TakenStep(a: seq<Node>, b: seq<Node>, c: seq<Node>, d: seq<Node>, i: nat, take: Pseudo, defs: map<Pseudo, nat>,
                  rank: map<Pseudo, nat>)
    requires Formed(c, defs, rank) && WholeBut(c, i) && CanReplace(c, i, take) && Bypassed(c, d, i, take)
    requires i < |a| == |c| && Active(a[i]) && a[i].op.Select? && c[i].op == a[i].op && c[i].target == a[i].target
    requires ResultIs(a, i, take) && SameOps(a, b) && SameOps(b, c)
    requires forall m :: SolvesBut(a, m, i) ==> SolvesBut(b, m, i) && SameSeen(a, b, m, m)
    requires forall m :: SolvesBut(b, m, i) ==> SolvesBut(c, m, i) && SameSeen(b, c, m, m)
    ensures Step(a, d, defs, rank)
  {
    BypassForms(c, d, i, take, defs, rank);
    BypassWhole(c, d, i, take);
    forall j {:trigger d[j]} | 0 <= j < |d| && IsComputed(d[j]) ensures IsComputed(a[j]) {
      BypassedAt(c, d, i, take, j);
      assert c[j].op == b[j].op == a[j].op;
    }
    forall m | Solves(a, m) ensures Solves(d, m) && SameInputs(a, defs, m, m) && SameSeen(a, d, m, m) {
      assert SolvesBut(a, m, i);
      BypassSolves(c, d, i, take, m);
      SeenTrans(a, b, c, m, m, m);
      SeenTrans(a, c, d, m, m, m);
    }
  }

  /** A select of 1 and 0 as the comparison that simplify_select makes of it. */
  function AsTest(n: Node): Node
    requires |n.srcs| == 3
  {
    n.(op := Binop(if n.srcs[1] == Val(0) then SET_EQ else SET_NE), srcs := [n.srcs[0], Val(0)])
  }

  /** The comparison takes the place of a select of 1 and 0. */
  method MakeTest(f: Insns, i: nat, ghost rank: map<Pseudo, nat>)
    requires f.Valid() && Formed(f.nodes, f.defs, rank) && Whole(f.nodes)
    requires i < |f.nodes| && Active(f.nodes[i]) && f.nodes[i].op.Select? && SelectsTruth(f.nodes[i])
    modifies f
    ensures f.Valid() && Step(old(f.nodes), f.nodes, f.defs, rank)
            && f.nodes == old(f.nodes)[i := AsTest(old(f.nodes)[i])]
  {
    ghost var a := f.nodes;
    var n := AsTest(f.nodes[i]);
    TestReforms(a, i);
    TestAgrees(f.nodes, f.users, i);
    f.nodes := f.nodes[i := n];
    ReformedStep(a, f.nodes, i, n, f.defs, rank);
  }

  predicate SelectsTruth(n: Node) {
    |n.srcs| == 3
    && ((n.srcs[1] == Val(0) && n.srcs[2] == Val(1)) || (n.srcs[1] == Val(1) && n.srcs[2] == Val(0)))
  }

  /** What becomes of a select. */
  ghost predicate SelectDone(a: seq<Node>, b: seq<Node>, i: nat, changed: bool) {
    && i < |a| && |a[i].srcs| == 3
    && var n := a[i];
       if Unused(a, n.target) then changed && Dropped(a, b, i)
       else if n.srcs[0].Val? then changed && Taken(a, b, i, n.srcs[0].value != 0)
       else if n.srcs[1] == n.srcs[2] then changed && (Taken(a, b, i, true) || Taken(a, b, i, false))
       else if n.srcs[1..] == [Val(0), Val(1)] then
         changed && b == a[i := n.(op := Binop(SET_EQ), srcs := [n.srcs[0], Val(0)])]
       else if n.srcs[1..] == [Val(1), Val(0)] then
         changed && b == a[i := n.(op := Binop(SET_NE), srcs := [n.srcs[0], Val(0)])]
       else !changed && b == a
  }

  /** simplify_select. When both values are the same, which one is taken depends on bits
      that mean something else. */
  method SimplifySelect(f: Insns, i: nat, ghost rank: map<Pseudo, nat>) returns (changed: bool)
    requires f.Valid() && Formed(f.nodes, f.defs, rank) && Whole(f.nodes)
    requires i < |f.nodes| && Active(f.nodes[i]) && f.nodes[i].op.Select?
    modifies f
    ensures f.Valid() && Step(old(f.nodes), f.nodes, f.defs, rank)
    ensures SelectDone(old(f.nodes), f.nodes, i, changed)
  {
    var n := f.nodes[i];
    ghost var a := f.nodes;
    var dead := f.DeadInsn(i);
    if dead {
      DeadStep(a, f.nodes, f.defs, rank, i);
      return true;
    }
    var cond, src1, src2 := n.srcs[0], n.srcs[1], n.srcs[2];
    if cond.Val? || src1 == src2 {
      var nonzero: bool := *;
      if cond.Val? {
        nonzero := cond.value != 0;
      }
      TakeOperand(f, i, nonzero, rank);
      changed := true;
    } else if (src1 == Val(0) && src2 == Val(1)) || (src1 == Val(1) && src2 == Val(0)) {
      MakeTest(f, i, rank);
      changed := true;
    } else {
      StepSelf(a, f.defs, rank);
      changed := false;
    }
  }

  lemma ZeroTest(op: BinOp, n: nat, v: int, const1: bool)
    requires op == SET_EQ || op == SET_NE
    ensures EvalBinary(op, n, v, 0) == Bool((v == 0) == (op == SET_EQ))
    ensures 0 < n <= 64 && Canonical(v, LongLong()) ==> Fit(op, n, v, const1, 0, true)
  {
  }

  lemma TestValue(n: Node, m: Values)
    requires n.op.Select? && SelectsTruth(n) && OperandsFit(n, m)
    ensures Result(AsTest(n), m) == Result(n, m) && OperandsFit(AsTest(n), m)
  {
    var op := if n.srcs[1] == Val(0) then SET_EQ else SET_NE;
    BinaryResult(AsTest(n), op, n.size, n.srcs[0], Val(0), m);
    ZeroTest(op, n.size, ValueIn(m, n.srcs[0]), n.srcs[0].Val?);
  }

  lemma TestReforms(a: seq<Node>, i: nat)
    requires i < |a| && Active(a[i]) && a[i].op.Select? && Shaped(a[i]) && SelectsTruth(a[i])
    ensures Reformed(a, i, AsTest(a[i]))
  {
    var n := AsTest(a[i]);
    forall m | Solves(a, m) ensures Result(n, m) == Result(a[i], m) && OperandsFit(n, m) {
      TestValue(a[i], m);
    }
  }

  lemma TestAgrees(a: seq<Node>, users: UserLists, i: nat)
    requires Agree(a, users) && i < |a| && a[i].op.Select? && |a[i].srcs| == 3 && a[i].srcs[1].Val? && a[i].srcs[2].Val?
    ensures Agree(a[i := AsTest(a[i])], users)
  {
    forall p, s | HasUseList(p) ensures Entries(ListOf(users, p), s) == One(Holds(a[i := AsTest(a[i])], s, p)) {
      assert Entries(ListOf(users, p), s) == One(Holds(a, s, p));
      assert s.insn == i && s.nr < 3 ==> s.nr == 0 || s.nr == 1 || s.nr == 2;
    }
  }

  /** Simplifying any computation keeps what the others see. */
  method SimplifyInstruction(f: Insns, i: nat, ghost rank: map<Pseudo, nat>) returns (changed: bool)
    requires f.Valid() && Formed(f.nodes, f.defs, rank) && Whole(f.nodes) && i < |f.nodes|
    requires Active(f.nodes[i]) && f.nodes[i].op.Binop? ==> IsBinary(f.nodes, i)
    requires Active(f.nodes[i]) && f.nodes[i].op.Unop? ==> 0 < f.nodes[i].size <= 64
    modifies f
    ensures f.Valid() && Formed(f.nodes, f.defs, rank) && Whole(f.nodes)
    ensures SizesAgree(old(f.nodes), f.defs, i)
            || !(old(f.nodes)[i].op.Binop? && Associative(old(f.nodes)[i].op.op)) ==>
              Preserves(old(f.nodes), f.nodes, f.defs)
    ensures SizesAllow(old(f.nodes), f.defs, i)
            || !(old(f.nodes)[i].op.Binop? && Associative(old(f.nodes)[i].op.op)) ==>
              KeepsValues(old(f.nodes), f.nodes, f.defs)
    ensures !changed ==> f.nodes == old(f.nodes)
    ensures changed <==>
              var n := old(f.nodes)[i];
              && Active(n)
              && match n.op
                 case Binop(_) => (HasRule(old(f.nodes), f.defs, i)
                                   || CanExchange(old(f.nodes), f.defs, old(f.users), i))
                 case Unop(_) => n.srcs[0].Val? || Unused(old(f.nodes), n.target)
                 case Select => n.srcs[0].Val? || n.srcs[1] == n.srcs[2] || SelectsTruth(n)
                                || Unused(old(f.nodes), n.target)
                 case _ => false
  {
    StepSelf(f.nodes, f.defs, rank);
    changed := false;
    if f.nodes[i].live {
      match f.nodes[i].op
      case Binop(_) =>
        changed := SimplifyBinary(f, i, rank);
      case Unop(_) =>
        changed := SimplifyUnop(f, i, rank);
      case Select =>
        changed := SimplifySelect(f, i, rank);
      case _ =>
    }
    PreservedValues(old(f.nodes), f.nodes, f.defs);
  }

  /** A sum of two bits below a sum of one: (x + 1) + 3, where x + 1 has one bit. */
  function MixedSizes(): seq<Node> {
    [Node(Binop(ADD), 1, Reg(1), [Reg(3), Val(1)], true),
     Node(Binop(ADD), 2, Reg(2), [Reg(1), Val(3)], true),
     Node(Other, 2, Void, [Reg(2)], true)]
  }

  function MixedSizesAfter(): seq<Node> {
    [Node(Binop(ADD), 1, Reg(1), [Val(3), Val(1)], true),
     Node(Binop(ADD), 2, Reg(2), [Reg(1), Reg(3)], true),
     Node(Other, 2, Void, [Reg(2)], true)]
  }

  lemma MixedSizesAgree(users: UserLists)
    requires users == map[Reg(1) := [Slot(1, 0)], Reg(2) := [Slot(2, 0)], Reg(3) := [Slot(0, 0)]]
    ensures Agree(MixedSizes(), users)
  {
    var a := MixedSizes();
    forall p, s | HasUseList(p) ensures Entries(ListOf(users, p), s) == One(Holds(a, s, p)) {
      EntriesOne(Slot(1, 0), s);
      EntriesOne(Slot(2, 0), s);
      EntriesOne(Slot(0, 0), s);
    }
  }

  lemma MixedSizesHolds(s: Slot, p: Pseudo)
    requires Holds(MixedSizes(), s, p)
    ensures (s == Slot(0, 0) && p == Reg(3)) || (s == Slot(0, 1) && p == Val(1)) || (s == Slot(1, 0) && p == Reg(1))
            || (s == Slot(1, 1) && p == Val(3)) || (s == Slot(2, 0) && p == Reg(2))
  {
  }

  lemma MixedSizesFormed(defs: map<Pseudo, nat>, rank: map<Pseudo, nat>)
    requires defs == map[Reg(1) := 0, Reg(2) := 1] && rank == map[Reg(1) := 1, Reg(2) := 2]
    ensures Formed(MixedSizes(), defs, rank) && Whole(MixedSizes())
  {
    forall s, p | Holds(MixedSizes(), s, p)
      ensures p in defs ==> MixedSizes()[defs[p]].live
      ensures p.Reg? && Active(MixedSizes()[s.insn]) ==> RankOf(rank, p) < RankOf(rank, MixedSizes()[s.insn].target)
    {
      MixedSizesHolds(s, p);
    }
  }

  /** All tests of simplify_associative_binop pass. */
  lemma MixedSizesPass(defs: map<Pseudo, nat>, users: UserLists)
    requires defs == map[Reg(1) := 0, Reg(2) := 1]
    requires users == map[Reg(1) := [Slot(1, 0)], Reg(2) := [Slot(2, 0)], Reg(3) := [Slot(0, 0)]]
    ensures Agree(MixedSizes(), users)
    ensures Reassociable(MixedSizes(), defs, users, 1, 0) && IsReassociated(MixedSizes(), MixedSizesAfter(), 1, 0)
  {
    MixedSizesAgree(users);
  }

  lemma SmallSums()
    ensures EvalBinary(ADD, 1, 1, 1) == 0 && EvalBinary(ADD, 2, 0, 3) == 3
    ensures EvalBinary(ADD, 1, 3, 1) == 0 && EvalBinary(ADD, 2, 0, 1) == 1
  {
    assert Pow2(1) == 2;
    assert Pow2(2) == 4;
  }

  lemma MixedSizesValues(m: Values)
    requires m == map[Reg(1) := 0, Reg(2) := 3, Reg(3) := 1]
    ensures Solves(MixedSizes(), m)
  {
    var a := MixedSizes();
    BinaryResult(a[0], ADD, 1, Reg(3), Val(1), m);
    BinaryResult(a[1], ADD, 2, Reg(1), Val(3), m);
    SmallSums();
  }

  lemma MixedSizesResult(m: Values)
    requires Computes(MixedSizesAfter(), m) && ValueIn(m, Reg(3)) == 1
    ensures ValueIn(m, Reg(2)) == 1
  {
    var c := MixedSizesAfter();
    assert Active(c[0]) && Active(c[1]);
    BinaryResult(c[0], ADD, 1, Val(3), Val(1), m);
    BinaryResult(c[1], ADD, 2, Reg(1), Reg(3), m);
    SmallSums();
  }

  /** The instructions are well formed and pass all tests, and the exchange changes what the
      store of the result stores, from 3 to 1. */
  lemma ExchangeLosesBits(defs: map<Pseudo, nat>, rank: map<Pseudo, nat>, users: UserLists)
    requires defs == map[Reg(1) := 0, Reg(2) := 1] && rank == map[Reg(1) := 1, Reg(2) := 2]
    requires users == map[Reg(1) := [Slot(1, 0)], Reg(2) := [Slot(2, 0)], Reg(3) := [Slot(0, 0)]]
    ensures Formed(MixedSizes(), defs, rank) && Whole(MixedSizes()) && Agree(MixedSizes(), users)
    ensures Reassociable(MixedSizes(), defs, users, 1, 0) && IsReassociated(MixedSizes(), MixedSizesAfter(), 1, 0)
    ensures !KeepsValues(MixedSizes(), MixedSizesAfter(), defs)
  {
    MixedSizesFormed(defs, rank);
    MixedSizesPass(defs, users);
    var a, c := MixedSizes(), MixedSizesAfter();
    var m: Values := map[Reg(1) := 0, Reg(2) := 3, Reg(3) := 1];
    MixedSizesValues(m);
    forall m' | Computes(c, m') && SameInputs(a, defs, m, m') ensures !SameSeen(a, c, m, m') {
      assert !ComputedBy(a, defs, Reg(3)) && ValueIn(m', Reg(3)) == 1;
      MixedSizesResult(m');
      assert a[2].op.Other? && c[2].srcs[0] == a[2].srcs[0] == Reg(2);
    }
  }
}
