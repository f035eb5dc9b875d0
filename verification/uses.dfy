/** Instructions with their operands, and the lists of who uses a pseudo
    (linearize.h, simplify.c). */
module Uses {
  import opened Ir

  /** What an instruction makes of its operands. */
  datatype Operation = Binop(op: BinOp) | Unop(uop: UnOp) | Select | Convert(signed: bool, origSize: nat) | Join | Other

  /** `live` while `bb` is set. A killed instruction keeps its place. */
  datatype Node = Node(op: Operation, size: nat, target: Pseudo, srcs: seq<Pseudo>, live: bool)

  /** The address of an operand: `userp`. */
  datatype Slot = Slot(insn: nat, nr: nat)

  /** has_use_list */
  predicate HasUseList(p: Pseudo) {
    !p.Void? && !p.Val?
  }

  predicate IsSlot(nodes: seq<Node>, s: Slot) {
    s.insn < |nodes| && s.nr < |nodes[s.insn].srcs|
  }

  function SrcAt(nodes: seq<Node>, s: Slot): Pseudo
    requires IsSlot(nodes, s)
  {
    nodes[s.insn].srcs[s.nr]
  }

  function WithSrc(nodes: seq<Node>, s: Slot, p: Pseudo): (r: seq<Node>)
    requires IsSlot(nodes, s)
    ensures |r| == |nodes|
  {
    nodes[s.insn := nodes[s.insn].(srcs := nodes[s.insn].srcs[s.nr := p])]
  }

  predicate Holds(nodes: seq<Node>, s: Slot, p: Pseudo) {
    IsSlot(nodes, s) && SrcAt(nodes, s) == p
  }

  type UserLists = map<Pseudo, seq<Slot>>

  function ListOf(users: UserLists, p: Pseudo): seq<Slot> {
    if p in users then users[p] else []
  }

  /** How often a slot is in a list. */
  function Entries(list: seq<Slot>, s: Slot): nat {
    multiset(list)[s]
  }

  function One(b: bool): nat {
    if b then 1 else 0
  }

  /** Every list has each slot that holds its pseudo once, and no other. */
  ghost predicate Agree(nodes: seq<Node>, users: UserLists) {
    forall p, s :: HasUseList(p) ==> Entries(ListOf(users, p), s) == One(Holds(nodes, s, p))
  }

  /** The same, but for one entry too many. */
  ghost predicate AgreeBut(nodes: seq<Node>, users: UserLists, extra: Pseudo, slot: Slot) {
    forall p, s :: HasUseList(p) ==>
      Entries(ListOf(users, p), s) == One(Holds(nodes, s, p)) + One(p == extra && s == slot)
  }

  ghost predicate Unused(nodes: seq<Node>, p: Pseudo) {
    forall s :: !Holds(nodes, s, p)
  }

  lemma UnusedIsEmpty(nodes: seq<Node>, users: UserLists, p: Pseudo)
    requires Agree(nodes, users) && HasUseList(p)
    ensures ListOf(users, p) == [] <==> Unused(nodes, p)
    ensures forall s :: s in ListOf(users, p) <==> Holds(nodes, s, p)
  {
    var list := ListOf(users, p);
    forall s ensures s in list <==> Holds(nodes, s, p) {
      assert Entries(list, s) == One(Holds(nodes, s, p));
      assert s in list <==> multiset(list)[s] > 0;
    }
    if list != [] {
      assert list[0] in list;
    }
  }

  /** delete_pseudo_user_list_entry with count 1. */
  function WithoutFirst(list: seq<Slot>, s: Slot): (r: seq<Slot>) {
    if list == [] then [] else if list[0] == s then list[1..] else [list[0]] + WithoutFirst(list[1..], s)
  }

  lemma EntriesAppend(a: seq<Slot>, b: seq<Slot>, s: Slot)
    ensures Entries(a + b, s) == Entries(a, s) + Entries(b, s)
  {
    assert multiset(a + b) == multiset(a) + multiset(b);
  }

  lemma EntriesOne(x: Slot, s: Slot)
    ensures Entries([x], s) == One(x == s)
  {
  }

  lemma {:induction false} EntriesWithoutFirst(list: seq<Slot>, x: Slot, s: Slot)
    requires x in list
    ensures Entries(WithoutFirst(list, x), s) == Entries(list, s) - One(x == s)
    ensures |WithoutFirst(list, x)| == |list| - 1
  {
    assert list == [list[0]] + list[1..];
    EntriesAppend([list[0]], list[1..], s);
    EntriesOne(list[0], s);
    if list[0] != x {
      EntriesWithoutFirst(list[1..], x, s);
      EntriesAppend([list[0]], WithoutFirst(list[1..], x), s);
    }
  }

  // ---------------------------------------------------------------------------
  // What killing leaves
  // ---------------------------------------------------------------------------

  /** The cases of kill_instruction. */
  predicate Killable(n: Node) {
    n.op.Binop? || n.op.Unop? || n.op.Join?
  }

  function Voids(k: nat): (r: seq<Pseudo>)
    ensures |r| == k && forall i :: 0 <= i < k ==> r[i] == Void
  {
    if k == 0 then [] else Voids(k - 1) + [Void]
  }

  /** A killed phi node still holds what it joined. */
  function Killed(n: Node): Node {
    if n.op.Join? then n.(live := false) else n.(live := false, srcs := Voids(|n.srcs|))
  }

  predicate KilledOrSame(a: Node, b: Node) {
    b == a || (a.live && Killable(a) && b == Killed(a))
  }

  /** Some instructions were killed; nothing that is left uses what they computed. */
  ghost predicate Cascade(a: seq<Node>, b: seq<Node>) {
    && |a| == |b|
    && forall i {:trigger a[i]} {:trigger b[i]} :: 0 <= i < |a| ==>
         KilledOrSame(a[i], b[i]) && (b[i] != a[i] ==> Unused(b, a[i].target))
  }

  predicate Gone(nodes: seq<Node>, i: nat) {
    i < |nodes| && (!nodes[i].live || !(nodes[i].op.Binop? || nodes[i].op.Unop? || nodes[i].op.Join?))
  }

  /** An instruction whose last use went is gone, if its kind can be killed. */
  ghost predicate NoLeftovers(defs: map<Pseudo, nat>, a: seq<Node>, b: seq<Node>) {
    forall p :: p in defs && HasUseList(p) && !Unused(a, p) && Unused(b, p) ==> Gone(b, defs[p])
  }

  lemma CascadeSelf(a: seq<Node>)
    ensures Cascade(a, a)
  {
  }

  lemma UnusedStays(a: seq<Node>, b: seq<Node>, p: Pseudo)
    requires Cascade(a, b) && Unused(a, p) && p != Void
    ensures Unused(b, p)
  {
    forall s ensures !Holds(b, s, p) {
      assert !Holds(a, s, p);
      if IsSlot(b, s) {
        assert KilledOrSame(a[s.insn], b[s.insn]);
      }
    }
  }

  lemma CascadeTrans(a: seq<Node>, b: seq<Node>, c: seq<Node>)
    requires Cascade(a, b) && Cascade(b, c) && forall i :: 0 <= i < |a| ==> a[i].target != Void || !Killable(a[i])
    ensures Cascade(a, c)
  {
    forall i | 0 <= i < |a| ensures KilledOrSame(a[i], c[i]) && (c[i] != a[i] ==> Unused(c, a[i].target)) {
      assert KilledOrSame(a[i], b[i]) && KilledOrSame(b[i], c[i]);
      if b[i] != a[i] {
        UnusedStays(b, c, a[i].target);
      }
    }
  }

  lemma CascadeGone(a: seq<Node>, b: seq<Node>, i: nat)
    requires Cascade(a, b) && Gone(a, i)
    ensures Gone(b, i)
  {
    assert KilledOrSame(a[i], b[i]);
  }

  lemma UnusedVoided(a: seq<Node>, s: Slot, p: Pseudo)
    requires IsSlot(a, s) && p != Void
    ensures Unused(a, p) ==> Unused(WithSrc(a, s, Void), p)
    ensures Unused(WithSrc(a, s, Void), p) && SrcAt(a, s) != p ==> Unused(a, p)
  {
    var b := WithSrc(a, s, Void);
    if Unused(a, p) {
      forall t ensures !Holds(b, t, p) {
        assert !Holds(a, t, p);
      }
    }
    if Unused(b, p) && SrcAt(a, s) != p {
      forall t ensures !Holds(a, t, p) {
        assert !Holds(b, t, p);
      }
    }
  }

  // ---------------------------------------------------------------------------
  // Keeping the lists
  // ---------------------------------------------------------------------------

  function LiveCount(nodes: seq<Node>): nat {
    if nodes == [] then 0 else LiveCount(nodes[..|nodes| - 1]) + One(nodes[|nodes| - 1].live)
  }

  lemma {:induction false} FewerLive(a: seq<Node>, b: seq<Node>)
    requires |a| == |b| && forall i :: 0 <= i < |a| ==> b[i].live ==> a[i].live
    ensures LiveCount(b) <= LiveCount(a)
    ensures (exists i :: 0 <= i < |a| && a[i].live && !b[i].live) ==> LiveCount(b) < LiveCount(a)
  {
    if a != [] {
      var n := |a| - 1;
      FewerLive(a[..n], b[..n]);
      if i :| 0 <= i < |a| && a[i].live && !b[i].live && i < n {
        assert a[..n][i].live && !b[..n][i].live;
      }
    }
  }

  /** Every pseudo with a definition is what its instruction computes. */
  predicate Defined(nodes: seq<Node>, defs: map<Pseudo, nat>) {
    && (forall p :: p in defs ==> defs[p] < |nodes| && nodes[defs[p]].target == p)
    && (forall i :: 0 <= i < |nodes| && Killable(nodes[i]) ==> nodes[i].target != Void)
  }

  lemma CascadeDefined(a: seq<Node>, b: seq<Node>, defs: map<Pseudo, nat>)
    requires Cascade(a, b) && Defined(a, defs)
    ensures Defined(b, defs) && LiveCount(b) <= LiveCount(a)
  {
    forall i | 0 <= i < |a| ensures b[i].target == a[i].target && b[i].op == a[i].op && (b[i].live ==> a[i].live) {
      assert KilledOrSame(a[i], b[i]);
    }
    FewerLive(a, b);
  }

  lemma AgreeVoided(nodes: seq<Node>, users: UserLists, s: Slot, b: seq<Node>)
    requires Agree(nodes, users) && IsSlot(nodes, s) && b == WithSrc(nodes, s, Void)
    ensures AgreeBut(b, users, SrcAt(nodes, s), s)
  {
    forall p, t | HasUseList(p)
      ensures Entries(ListOf(users, p), t) == One(Holds(b, t, p)) + One(p == SrcAt(nodes, s) && t == s)
    {
      assert Entries(ListOf(users, p), t) == One(Holds(nodes, t, p));
    }
  }

  lemma AgreeRemoved(nodes: seq<Node>, users: UserLists, p: Pseudo, s: Slot, users': UserLists)
    requires AgreeBut(nodes, users, p, s) && HasUseList(p) && users' == users[p := WithoutFirst(ListOf(users, p), s)]
    ensures s in ListOf(users, p) && Agree(nodes, users')
  {
    assert Entries(ListOf(users, p), s) == One(Holds(nodes, s, p)) + 1;
    assert s in ListOf(users, p);
    forall q, t | HasUseList(q) ensures Entries(ListOf(users', q), t) == One(Holds(nodes, t, q)) {
      assert Entries(ListOf(users, q), t) == One(Holds(nodes, t, q)) + One(q == p && t == s);
      if q == p {
        EntriesWithoutFirst(ListOf(users, p), s, t);
      }
    }
  }

  /** The instruction no longer counts as live; its operands are as they were. */
  lemma AgreeMarked(nodes: seq<Node>, users: UserLists, i: nat, b: seq<Node>)
    requires Agree(nodes, users) && i < |nodes| && b == nodes[i := nodes[i].(live := false)]
    ensures Agree(b, users) && forall p :: Unused(nodes, p) <==> Unused(b, p)
  {
    forall p, t ensures Holds(b, t, p) <==> Holds(nodes, t, p) {
    }
    forall p, t | HasUseList(p) ensures Entries(ListOf(users, p), t) == One(Holds(b, t, p)) {
      assert Entries(ListOf(users, p), t) == One(Holds(nodes, t, p));
    }
    forall p ensures Unused(nodes, p) <==> Unused(b, p) {
      if Unused(nodes, p) {
        forall t ensures !Holds(b, t, p) {
          assert !Holds(nodes, t, p);
        }
      }
      if Unused(b, p) {
        forall t ensures !Holds(nodes, t, p) {
          assert !Holds(b, t, p);
        }
      }
    }
  }

  /** The node, dead, with its first k operands gone. */
  function PartlyVoided(n: Node, k: nat): Node
    requires k <= |n.srcs|
  {
    n.(live := false, srcs := Voids(k) + n.srcs[k..])
  }

  lemma VoidOneMore(a: seq<Node>, i: nat, n: Node, k: nat, next: nat)
    requires i < |a| && k < |n.srcs| && next == k + 1 && a[i] == PartlyVoided(n, k)
    ensures IsSlot(a, Slot(i, k)) && WithSrc(a, Slot(i, k), Void) == a[i := PartlyVoided(n, next)]
  {
    assert PartlyVoided(n, k).srcs[k := Void] == PartlyVoided(n, next).srcs;
  }

  lemma CascadeVoided(a: seq<Node>, b: seq<Node>, s: Slot)
    requires Cascade(a, b) && IsSlot(a, s) && b[s.insn] == a[s.insn]
    requires forall i :: 0 <= i < |a| ==> a[i].target != Void || !Killable(a[i])
    ensures IsSlot(b, s) && Cascade(WithSrc(a, s, Void), WithSrc(b, s, Void))
  {
    var a', b' := WithSrc(a, s, Void), WithSrc(b, s, Void);
    forall i | 0 <= i < |a'| ensures KilledOrSame(a'[i], b'[i]) && (b'[i] != a'[i] ==> Unused(b', a'[i].target)) {
      assert KilledOrSame(a[i], b[i]);
      if b'[i] != a'[i] {
        UnusedVoided(b, s, a[i].target);
      }
    }
  }

  class Insns {
    var nodes: seq<Node>
    var users: UserLists
    const defs: map<Pseudo, nat>

    ghost predicate Valid()
      reads this
    {
      Agree(nodes, users) && Defined(nodes, defs)
    }

    /** use_pseudo */
    method UsePseudo(p: Pseudo, s: Slot)
      requires IsSlot(nodes, s)
      modifies this
      ensures nodes == WithSrc(old(nodes), s, p)
      ensures users == if HasUseList(p) then old(users)[p := ListOf(old(users), p) + [s]] else old(users)
    {
      nodes := WithSrc(nodes, s, p);
      if HasUseList(p) {
        users := users[p := ListOf(users, p) + [s]];
      }
    }

    /** remove_usage. When an entry is left that is all; otherwise what defined the
        pseudo is killed, and what only that used, and so on. */
    method RemoveUsage(p: Pseudo, s: Slot)
      requires HasUseList(p) ==> Shared(users, p, s) || Spare(nodes, users, defs, p, s)
      modifies this
      ensures !HasUseList(p) ==> nodes == old(nodes) && users == old(users)
      ensures old(Shared(users, p, s)) ==> nodes == old(nodes) && users == Shorter(old(users), p, s)
      ensures old(Spare(nodes, users, defs, p, s)) ==>
                Valid() && Cascade(old(nodes), nodes) && NoLeftovers(defs, old(nodes), nodes)
                && (p in defs && HasUseList(p) && Unused(nodes, p) ==> Gone(nodes, defs[p]))
      decreases LiveCount(nodes), 1
    {
      ghost var spare := Spare(nodes, users, defs, p, s);
      CascadeSelf(nodes);
      if HasUseList(p) {
        if spare {
          AgreeRemoved(nodes, users, p, s, Shorter(users, p, s));
        }
        EntriesWithoutFirst(ListOf(users, p), s, s);
        users := users[p := WithoutFirst(ListOf(users, p), s)];
        if spare {
          UnusedIsEmpty(nodes, users, p);
        }
        if users[p] == [] && p in defs {
          ghost var a := nodes;
          KillInstruction(defs[p]);
          AfterKill(a, nodes, defs, p);
        }
      } else if spare {
        AgreeWithout(nodes, users, p, s);
      }
    }

    /** kill_use */
    method KillUse(s: Slot)
      requires Valid() && IsSlot(nodes, s)
      modifies this
      ensures Valid() && Cascade(WithSrc(old(nodes), s, Void), nodes) && NoLeftovers(defs, old(nodes), nodes)
      decreases LiveCount(nodes), 2
    {
      var p := SrcAt(nodes, s);
      ghost var a, b := nodes, WithSrc(nodes, s, Void);
      AgreeVoided(nodes, users, s, b);
      VoidedKeeps(a, s, defs);
      nodes := WithSrc(nodes, s, Void);
      RemoveUsage(p, s);
      VoidedLeftovers(a, s, nodes, defs);
    }

    /** switch_pseudo: the new uses are listed before the old ones go, so nothing is
        killed. */
    method SwitchPseudo(s1: Slot, s2: Slot)
      requires Valid() && IsSlot(nodes, s1) && IsSlot(nodes, s2) && s1 != s2
      modifies this
      ensures Valid() && nodes == Switched(old(nodes), s1, s2)
    {
      var p1, p2 := SrcAt(nodes, s1), SrcAt(nodes, s2);
      ghost var a, u := nodes, users;
      SwitchedLists(a, u, s1, s2, p1, p2);
      UsePseudo(p2, s1);
      UsePseudo(p1, s2);
      RemoveUsage(p1, s1);
      RemoveUsage(p2, s2);
    }

    /** convert_instruction_target: whoever used `target` uses src, which is VOID when the
        definitions of a killed block go. */
    method ConvertInstructionTarget(target: Pseudo, src: Pseudo)
      requires Valid() && HasUseList(target)
      modifies this
      ensures Valid() && Replaced(old(nodes), nodes, target, src)
    {
      ghost var a := nodes;
      if target == src {
        return;
      }
      var list := ListOf(users, target);
      UnusedIsEmpty(nodes, users, target);
      var k := 0;
      while k < |list|
        invariant k <= |list| && users == old(users) && ReplacedAt(a, nodes, list[..k], src)
      {
        assert list[k] in list;
        assert IsSlot(nodes, list[k]) && SrcAt(nodes, list[k]) in {target, src};
        ghost var b := nodes;
        nodes := WithSrc(nodes, list[k], src);
        OneMoreReplaced(a, b, nodes, list, k, k + 1, src);
        k := k + 1;
      }
      assert list[..k] == list;
      users := users[src := ListOf(users, src) + list][target := []];
      ReplacedAgrees(a, old(users), nodes, users, target, src, list);
    }

    /** dead_insn */
    method DeadInsn(i: nat) returns (dead: bool)
      requires Valid() && i < |nodes| && nodes[i].live && HasUseList(nodes[i].target)
      modifies this
      ensures Valid() && (dead <==> Unused(old(nodes), old(nodes)[i].target))
      ensures !dead ==> nodes == old(nodes) && users == old(users)
      ensures dead ==> Cascade(old(nodes)[i := PartlyVoided(old(nodes)[i], |old(nodes)[i].srcs|)], nodes)
                       && NoLeftovers(defs, old(nodes), nodes)
    {
      ghost var a := nodes;
      var list, k := ListOf(users, nodes[i].target), 0;
      ListedAreSlots(nodes, users, nodes[i].target);
      while k < |list|
        invariant k <= |list| && forall h {:trigger list[h]} :: 0 <= h < k ==> SrcAt(nodes, list[h]) == Void
      {
        if SrcAt(nodes, list[k]) != Void {
          UnusedIsEmpty(nodes, users, nodes[i].target);
          return false;
        }
        k := k + 1;
      }
      NoneLeft(nodes, users, nodes[i].target);
      AgreeMarked(nodes, users, i, nodes[i := nodes[i].(live := false)]);
      nodes := nodes[i := nodes[i].(live := false)];
      FewerLive(a, nodes);
      StartKill(a, i, nodes, defs);
      KillUses(i, a);
      dead := true;
    }

    /** kill_instruction */
    method KillInstruction(i: nat)
      requires Valid() && i < |nodes|
      modifies this
      ensures Valid()
      ensures Gone(old(nodes), i) ==> nodes == old(nodes) && users == old(users)
      ensures !Gone(old(nodes), i) ==>
                Cascade(old(nodes)[i := Killed(old(nodes)[i])], nodes) && NoLeftovers(defs, old(nodes), nodes)
      decreases LiveCount(nodes), 0
    {
      if !nodes[i].live || !Killable(nodes[i]) {
        return;
      }
      ghost var a := nodes;
      AgreeMarked(nodes, users, i, nodes[i := nodes[i].(live := false)]);
      nodes := nodes[i := nodes[i].(live := false)];
      FewerLive(a, nodes);
      if nodes[i].op.Join? {
        MarkedLeftovers(a, i, nodes, defs);
      } else {
        StartKill(a, i, nodes, defs);
        KillUses(i, a);
      }
    }

    /** Each operand in its turn. */
    method KillUses(i: nat, ghost a: seq<Node>)
      requires Valid() && Defined(a, defs) && i < |a| && LiveCount(nodes) < LiveCount(a)
      requires Cascade(a[i := PartlyVoided(a[i], 0)], nodes) && NoLeftovers(defs, a, nodes)
      modifies this
      ensures Valid() && Cascade(a[i := PartlyVoided(a[i], |a[i].srcs|)], nodes) && NoLeftovers(defs, a, nodes)
      decreases LiveCount(nodes), 3
    {
      ghost var n := a[i];
      assert KilledOrSame(PartlyVoided(n, 0), nodes[i]);
      var count := |nodes[i].srcs|;
      ghost var live := LiveCount(nodes);
      var k := 0;
      while k < count
        invariant k <= count == |n.srcs| && Valid() && LiveCount(nodes) <= live
        invariant Cascade(a[i := PartlyVoided(n, k)], nodes) && NoLeftovers(defs, a, nodes)
      {
        ghost var b := nodes;
        assert KilledOrSame(PartlyVoided(n, k), b[i]);
        KillUse(Slot(i, k));
        KillStep(a, i, n, k, k + 1, b, nodes, defs);
        LiveAfterUse(b, Slot(i, k), nodes, defs);
        k := k + 1;
      }
    }
  }

  function Switched(nodes: seq<Node>, s1: Slot, s2: Slot): (r: seq<Node>)
    requires IsSlot(nodes, s1) && IsSlot(nodes, s2)
    ensures |r| == |nodes|
  {
    WithSrc(WithSrc(nodes, s1, SrcAt(nodes, s2)), s2, SrcAt(nodes, s1))
  }

  function Added(users: UserLists, p: Pseudo, s: Slot): UserLists {
    if HasUseList(p) then users[p := ListOf(users, p) + [s]] else users
  }

  function Removed(users: UserLists, p: Pseudo, s: Slot): UserLists {
    if HasUseList(p) then Shorter(users, p, s) else users
  }

  lemma EntriesAdded(users: UserLists, p: Pseudo, s: Slot, q: Pseudo, t: Slot)
    requires HasUseList(q)
    ensures Entries(ListOf(Added(users, p, s), q), t) == Entries(ListOf(users, q), t) + One(q == p && t == s)
  {
    if p == q {
      EntriesAppend(ListOf(users, q), [s], t);
      EntriesOne(s, t);
    }
  }

  lemma EntriesRemoved(users: UserLists, p: Pseudo, s: Slot, q: Pseudo, t: Slot)
    requires HasUseList(q) && (HasUseList(p) ==> Entries(ListOf(users, p), s) > 0)
    ensures Entries(ListOf(Removed(users, p, s), q), t) == Entries(ListOf(users, q), t) - One(q == p && t == s)
  {
    if p == q {
      assert s in ListOf(users, p);
      EntriesWithoutFirst(ListOf(users, p), s, t);
    }
  }

  lemma TwoEntries(list: seq<Slot>, s: Slot, t: Slot)
    requires s != t && Entries(list, s) > 0 && Entries(list, t) > 0
    ensures s in list && |list| > 1
  {
    assert s in list && t in list;
  }

  lemma HoldsSwitched(a: seq<Node>, s1: Slot, s2: Slot, t: Slot, q: Pseudo)
    requires IsSlot(a, s1) && IsSlot(a, s2) && s1 != s2
    ensures var p1, p2 := SrcAt(a, s1), SrcAt(a, s2);
            One(Holds(Switched(a, s1, s2), t, q)) == One(Holds(a, t, q)) + One(q == p2 && t == s1)
              + One(q == p1 && t == s2) - One(q == p1 && t == s1) - One(q == p2 && t == s2)
  {
  }

  /** The lists on the way of an exchange, and that they agree in the end. */
  lemma SwitchedLists(a: seq<Node>, u: UserLists, s1: Slot, s2: Slot, p1: Pseudo, p2: Pseudo)
    requires Agree(a, u) && IsSlot(a, s1) && IsSlot(a, s2) && s1 != s2 && p1 == SrcAt(a, s1) && p2 == SrcAt(a, s2)
    ensures var u2 := Added(Added(u, p2, s1), p1, s2);
            && (HasUseList(p1) ==> Shared(u2, p1, s1))
            && (HasUseList(p2) ==> Shared(Removed(u2, p1, s1), p2, s2))
            && Agree(Switched(a, s1, s2), Removed(Removed(u2, p1, s1), p2, s2))
  {
    var u1 := Added(u, p2, s1);
    var u2 := Added(u1, p1, s2);
    var u3 := Removed(u2, p1, s1);
    var b := Switched(a, s1, s2);
    forall q, t | HasUseList(q)
      ensures Entries(ListOf(u2, q), t) == One(Holds(a, t, q)) + One(q == p2 && t == s1) + One(q == p1 && t == s2)
    {
      assert Entries(ListOf(u, q), t) == One(Holds(a, t, q));
      EntriesAdded(u, p2, s1, q, t);
      EntriesAdded(u1, p1, s2, q, t);
    }
    if HasUseList(p1) {
      TwoEntries(ListOf(u2, p1), s1, s2);
    }
    forall q, t | HasUseList(q)
      ensures Entries(ListOf(u3, q), t)
           == One(Holds(a, t, q)) + One(q == p2 && t == s1) + One(q == p1 && t == s2) - One(q == p1 && t == s1)
    {
      EntriesRemoved(u2, p1, s1, q, t);
    }
    if HasUseList(p2) {
      assert Holds(a, s2, p2);
      TwoEntries(ListOf(u3, p2), s2, s1);
    }
    forall q, t | HasUseList(q) ensures Entries(ListOf(Removed(u3, p2, s2), q), t) == One(Holds(b, t, q)) {
      EntriesRemoved(u3, p2, s2, q, t);
      HoldsSwitched(a, s1, s2, t, q);
    }
  }

  /** The slots of the list hold src. */
  predicate ReplacedAt(a: seq<Node>, b: seq<Node>, list: seq<Slot>, src: Pseudo) {
    && |a| == |b|
    && (forall i {:trigger a[i]} {:trigger b[i]} :: 0 <= i < |a| ==>
          b[i] == a[i].(srcs := b[i].srcs) && |b[i].srcs| == |a[i].srcs|)
    && forall i, k {:trigger b[i].srcs[k]} :: 0 <= i < |a| && 0 <= k < |a[i].srcs| ==>
         b[i].srcs[k] == if Slot(i, k) in list then src else a[i].srcs[k]
  }

  lemma OneMoreReplaced(a: seq<Node>, b: seq<Node>, c: seq<Node>, list: seq<Slot>, k: nat, next: nat, src: Pseudo)
    requires k < |list| && next == k + 1 && ReplacedAt(a, b, list[..k], src) && IsSlot(b, list[k])
    requires c == WithSrc(b, list[k], src)
    ensures ReplacedAt(a, c, list[..next], src)
  {
    assert list[..next] == list[..k] + [list[k]];
  }

  predicate Replaced(a: seq<Node>, b: seq<Node>, target: Pseudo, src: Pseudo) {
    && |a| == |b|
    && (forall i {:trigger a[i]} {:trigger b[i]} :: 0 <= i < |a| ==>
          b[i] == a[i].(srcs := b[i].srcs) && |b[i].srcs| == |a[i].srcs|)
    && forall i, k {:trigger b[i].srcs[k]} :: 0 <= i < |a| && 0 <= k < |a[i].srcs| ==>
         b[i].srcs[k] == if a[i].srcs[k] == target then src else a[i].srcs[k]
  }

  lemma ReplacedAgrees(a: seq<Node>, u: UserLists, b: seq<Node>, u': UserLists, target: Pseudo, src: Pseudo,
                       list: seq<Slot>)
    requires Agree(a, u) && HasUseList(target) && src != target && list == ListOf(u, target)
    requires ReplacedAt(a, b, list, src) && u' == u[src := ListOf(u, src) + list][target := []]
    ensures Replaced(a, b, target, src) && Agree(b, u')
  {
    UnusedIsEmpty(a, u, target);
    forall i, k | 0 <= i < |a| && 0 <= k < |a[i].srcs|
      ensures b[i].srcs[k] == if a[i].srcs[k] == target then src else a[i].srcs[k]
    {
      assert Holds(a, Slot(i, k), target) <==> a[i].srcs[k] == target;
    }
    assert Replaced(a, b, target, src);
    forall q, t | HasUseList(q) ensures Entries(ListOf(u', q), t) == One(Holds(b, t, q)) {
      assert Entries(ListOf(u, q), t) == One(Holds(a, t, q));
      assert Entries(ListOf(u, target), t) == One(Holds(a, t, target));
      HoldsReplaced(a, b, target, src, q, t);
      if q == src {
        EntriesAppend(ListOf(u, src), list, t);
      }
    }
  }

  /** What a slot holds after `target` has given way to src. */
  lemma HoldsReplaced(a: seq<Node>, b: seq<Node>, target: Pseudo, src: Pseudo, q: Pseudo, t: Slot)
    requires Replaced(a, b, target, src) && src != target
    ensures Holds(b, t, q) <==> q != target && (Holds(a, t, q) || (q == src && Holds(a, t, target)))
    ensures q != target ==> !(Holds(a, t, q) && Holds(a, t, target))
  {
    if IsSlot(b, t) {
      assert b[t.insn].srcs[t.nr] == if a[t.insn].srcs[t.nr] == target then src else a[t.insn].srcs[t.nr];
    }
  }

  lemma ListedAreSlots(nodes: seq<Node>, users: UserLists, p: Pseudo)
    requires Agree(nodes, users) && HasUseList(p)
    ensures forall k {:trigger ListOf(users, p)[k]} :: 0 <= k < |ListOf(users, p)| ==>
              IsSlot(nodes, ListOf(users, p)[k])
  {
    UnusedIsEmpty(nodes, users, p);
    forall k {:trigger ListOf(users, p)[k]} | 0 <= k < |ListOf(users, p)| ensures IsSlot(nodes, ListOf(users, p)[k]) {
      assert ListOf(users, p)[k] in ListOf(users, p);
    }
  }

  /** A list whose slots were all cleared is empty. */
  lemma NoneLeft(nodes: seq<Node>, users: UserLists, p: Pseudo)
    requires Agree(nodes, users) && HasUseList(p)
    requires forall k {:trigger ListOf(users, p)[k]} :: 0 <= k < |ListOf(users, p)| ==>
               IsSlot(nodes, ListOf(users, p)[k]) && SrcAt(nodes, ListOf(users, p)[k]) == Void
    ensures Unused(nodes, p)
  {
    AllCleared(nodes, ListOf(users, p));
    UnusedIsEmpty(nodes, users, p);
  }

  lemma AllCleared(nodes: seq<Node>, list: seq<Slot>)
    requires forall k {:trigger list[k]} :: 0 <= k < |list| ==> IsSlot(nodes, list[k]) && SrcAt(nodes, list[k]) == Void
    ensures forall s :: s in list ==> IsSlot(nodes, s) && SrcAt(nodes, s) == Void
  {
  }

  lemma LiveAfterUse(b: seq<Node>, s: Slot, c: seq<Node>, defs: map<Pseudo, nat>)
    requires IsSlot(b, s) && Defined(b, defs) && Cascade(WithSrc(b, s, Void), c)
    ensures LiveCount(c) <= LiveCount(b)
  {
    VoidedKeeps(b, s, defs);
    CascadeDefined(WithSrc(b, s, Void), c, defs);
  }

  lemma MarkedLeftovers(a: seq<Node>, i: nat, b: seq<Node>, defs: map<Pseudo, nat>)
    requires i < |a| && b == a[i := a[i].(live := false)]
    ensures NoLeftovers(defs, a, b) && Cascade(b, b)
  {
    forall p | !Unused(a, p) ensures !Unused(b, p) {
      var s :| Holds(a, s, p);
      assert Holds(b, s, p);
    }
  }

  lemma StartKill(a: seq<Node>, i: nat, b: seq<Node>, defs: map<Pseudo, nat>)
    requires i < |a| && b == a[i := a[i].(live := false)]
    ensures Cascade(a[i := PartlyVoided(a[i], 0)], b) && NoLeftovers(defs, a, b)
  {
    assert PartlyVoided(a[i], 0).srcs == a[i].srcs;
    MarkedLeftovers(a, i, b, defs);
  }

  lemma KillStep(a: seq<Node>, i: nat, n: Node, k: nat, next: nat, b: seq<Node>, c: seq<Node>, defs: map<Pseudo, nat>)
    requires i < |a| && a[i] == n && k < |n.srcs| && next == k + 1 && Defined(a, defs)
    requires Cascade(a[i := PartlyVoided(n, k)], b) && NoLeftovers(defs, a, b)
    requires IsSlot(b, Slot(i, k)) && Cascade(WithSrc(b, Slot(i, k), Void), c) && NoLeftovers(defs, b, c)
    ensures Cascade(a[i := PartlyVoided(n, next)], c) && NoLeftovers(defs, a, c)
  {
    var ak, b' := a[i := PartlyVoided(n, k)], WithSrc(b, Slot(i, k), Void);
    assert KilledOrSame(ak[i], b[i]);
    VoidOneMore(ak, i, n, k, next);
    CascadeVoided(ak, b, Slot(i, k));
    assert WithSrc(ak, Slot(i, k), Void) == a[i := PartlyVoided(n, next)];
    CascadeTrans(a[i := PartlyVoided(n, next)], b', c);
    forall p | p in defs && HasUseList(p) && !Unused(a, p) && Unused(c, p) ensures Gone(c, defs[p]) {
      if Unused(b, p) {
        assert Gone(b, defs[p]);
        assert Gone(b', defs[p]);
        CascadeGone(b', c, defs[p]);
      }
    }
  }

  /** Another entry is left when this one is removed. */
  predicate Shared(users: UserLists, p: Pseudo, s: Slot) {
    HasUseList(p) && s in ListOf(users, p) && |ListOf(users, p)| > 1
  }

  /** The lists agree, but that the entry to remove is one too many. */
  ghost predicate Spare(nodes: seq<Node>, users: UserLists, defs: map<Pseudo, nat>, p: Pseudo, s: Slot) {
    Defined(nodes, defs) && AgreeBut(nodes, users, p, s)
  }

  function Shorter(users: UserLists, p: Pseudo, s: Slot): UserLists {
    users[p := WithoutFirst(ListOf(users, p), s)]
  }

  lemma AgreeWithout(nodes: seq<Node>, users: UserLists, p: Pseudo, s: Slot)
    requires AgreeBut(nodes, users, p, s) && !HasUseList(p)
    ensures Agree(nodes, users)
  {
    forall q, t | HasUseList(q) ensures Entries(ListOf(users, q), t) == One(Holds(nodes, t, q)) {
      assert Entries(ListOf(users, q), t) == One(Holds(nodes, t, q)) + One(q == p && t == s);
    }
  }

  lemma AfterKill(a: seq<Node>, b: seq<Node>, defs: map<Pseudo, nat>, p: Pseudo)
    requires Defined(a, defs) && p in defs && HasUseList(p) && Unused(a, p)
    requires if Gone(a, defs[p]) then b == a
             else Cascade(a[defs[p] := Killed(a[defs[p]])], b) && NoLeftovers(defs, a, b)
    ensures Cascade(a, b) && NoLeftovers(defs, a, b) && Unused(b, p) && Gone(b, defs[p])
  {
    var i := defs[p];
    if !Gone(a, i) {
      var k := a[i := Killed(a[i])];
      KilledKeepsUnused(a, i, p);
      UnusedStays(k, b, p);
      forall j | 0 <= j < |a| ensures KilledOrSame(a[j], b[j]) && (b[j] != a[j] ==> Unused(b, a[j].target)) {
        assert KilledOrSame(k[j], b[j]);
      }
    }
  }

  lemma KilledKeepsUnused(a: seq<Node>, i: nat, p: Pseudo)
    requires i < |a| && Unused(a, p) && p != Void
    ensures Unused(a[i := Killed(a[i])], p)
  {
    var k := a[i := Killed(a[i])];
    forall s ensures !Holds(k, s, p) {
      assert !Holds(a, s, p);
    }
  }

  lemma VoidedKeeps(a: seq<Node>, s: Slot, defs: map<Pseudo, nat>)
    requires IsSlot(a, s) && Defined(a, defs)
    ensures Defined(WithSrc(a, s, Void), defs) && LiveCount(WithSrc(a, s, Void)) <= LiveCount(a)
  {
    FewerLive(a, WithSrc(a, s, Void));
  }

  lemma VoidedLeftovers(a: seq<Node>, s: Slot, c: seq<Node>, defs: map<Pseudo, nat>)
    requires IsSlot(a, s) && NoLeftovers(defs, WithSrc(a, s, Void), c)
    requires var p := SrcAt(a, s); p in defs && HasUseList(p) && Unused(c, p) ==> Gone(c, defs[p])
    ensures NoLeftovers(defs, a, c)
  {
    forall p | p in defs && HasUseList(p) && !Unused(a, p) && Unused(c, p) ensures Gone(c, defs[p]) {
      UnusedVoided(a, s, p);
    }
  }
}
