/** Where the pseudos of a block die (liveness.c): a note before the last use. */
module DeathNotes {
  import opened Ir
  import opened Semantics
  import opened Graph

  /** What track_instruction_usage reports as used, in its order. */
  function UsesOf(insn: Instruction): seq<Pseudo> {
    match insn
    case Ret(p) => [p]
    case Br(p, _, _) => [p]
    case Switch(p, _) => [p]
    case ComputedGoto(p, _) => [p]
    case Binary(_, _, _, a, b) => [a, b]
    case Unary(_, _, _, a) => [a]
    case Cast(_, _, _, _, a) => [a]
    case Sel(_, a, b, c) => [a, b, c]
    case Load(_, a, _, _) => [a]
    case Store(v, a, _, _) => [a, v]
    case PhiSource(_, s) => [s]
    case Call(_, f, args) => [f] + args
    case _ => []
  }

  /** trackable_pseudo */
  predicate Trackable(p: Pseudo) {
    p.Reg? || p.Arg?
  }

  /** death_use, for the uses of one instruction: those not live so far die here. */
  function Dying(uses: seq<Pseudo>, live: set<Pseudo>): seq<Pseudo> {
    if |uses| == 0 then []
    else if Trackable(uses[0]) && uses[0] !in live then [uses[0]] + Dying(uses[1..], live + {uses[0]})
    else Dying(uses[1..], live)
  }

  function SetOf(ps: seq<Pseudo>): set<Pseudo> {
    set p | p in ps
  }

  /** Each note is put in right before the instruction, so the last comes first. */
  function Notes(dead: seq<Pseudo>): (ns: seq<Instruction>)
    ensures |ns| == |dead|
    ensures forall i :: 0 <= i < |ns| ==> ns[i] == DeathNote(dead[|dead| - 1 - i])
  {
    if |dead| == 0 then [] else [DeathNote(dead[|dead| - 1])] + Notes(dead[..|dead| - 1])
  }

  /** The block with its notes, when the pseudos of `live` are used later. */
  function Annotated(insns: seq<Instruction>, live: set<Pseudo>): seq<Instruction> {
    if |insns| == 0 then []
    else
      var insn := insns[|insns| - 1];
      var dead := Dying(UsesOf(insn), live);
      Annotated(insns[..|insns| - 1], live + SetOf(dead)) + (Notes(dead) + [insn])
  }

  // ---------------------------------------------------------------------------
  // One note for each pseudo, before its last use
  // ---------------------------------------------------------------------------

  predicate NoNotes(insns: seq<Instruction>) {
    forall i :: 0 <= i < |insns| ==> !insns[i].DeathNote?
  }

  predicate Used(insns: seq<Instruction>, p: Pseudo) {
    exists i :: 0 <= i < |insns| && p in UsesOf(insns[i])
  }

  function NoteCount(insns: seq<Instruction>, p: Pseudo): nat {
    if |insns| == 0 then 0
    else NoteCount(insns[..|insns| - 1], p) + if insns[|insns| - 1] == DeathNote(p) then 1 else 0
  }

  /** The instructions other than notes. */
  function WithoutNotes(insns: seq<Instruction>): seq<Instruction> {
    if |insns| == 0 then []
    else
      WithoutNotes(insns[..|insns| - 1])
      + if insns[|insns| - 1].DeathNote? then [] else [insns[|insns| - 1]]
  }

  lemma {:induction false} NoteCountAppend(a: seq<Instruction>, b: seq<Instruction>, p: Pseudo)
    ensures NoteCount(a + b, p) == NoteCount(a, p) + NoteCount(b, p)
  {
    if |b| == 0 {
      assert a + b == a;
    } else {
      assert (a + b)[..|a + b| - 1] == a + b[..|b| - 1];
      NoteCountAppend(a, b[..|b| - 1], p);
    }
  }

  lemma {:induction false} WithoutNotesAppend(a: seq<Instruction>, b: seq<Instruction>)
    ensures WithoutNotes(a + b) == WithoutNotes(a) + WithoutNotes(b)
  {
    if |b| == 0 {
      assert a + b == a;
    } else {
      assert (a + b)[..|a + b| - 1] == a + b[..|b| - 1];
      WithoutNotesAppend(a, b[..|b| - 1]);
    }
  }

  /** Exactly the trackable uses that are not live die, each once. */
  lemma {:induction false} DyingOnce(uses: seq<Pseudo>, live: set<Pseudo>)
    ensures forall p :: p in Dying(uses, live) <==> p in uses && Trackable(p) && p !in live
    ensures forall i, j :: 0 <= i < j < |Dying(uses, live)| ==> Dying(uses, live)[i] != Dying(uses, live)[j]
  {
    if |uses| > 0 {
      var u, rest := uses[0], uses[1..];
      assert uses == [u] + rest;
      DyingOnce(rest, live + {u});
      DyingOnce(rest, live);
      if Trackable(u) && u !in live {
        assert forall p :: p in Dying(uses, live) <==> p == u || p in Dying(rest, live + {u});
      }
    }
  }

  lemma {:induction false} NotesCount(dead: seq<Pseudo>, p: Pseudo)
    requires forall i, j :: 0 <= i < j < |dead| ==> dead[i] != dead[j]
    ensures NoteCount(Notes(dead), p) == if p in dead then 1 else 0
    ensures WithoutNotes(Notes(dead)) == []
  {
    if |dead| > 0 {
      var front, last := dead[..|dead| - 1], dead[|dead| - 1];
      NotesCount(front, p);
      NoteCountAppend([DeathNote(last)], Notes(front), p);
      WithoutNotesAppend([DeathNote(last)], Notes(front));
      assert [DeathNote(last)][..0] == [] && NoteCount([], p) == 0 && WithoutNotes([]) == [];
      assert dead == front + [last];
    }
  }

  /** The notes of one instruction, and the instruction. */
  lemma Group(insn: Instruction, dead: seq<Pseudo>, p: Pseudo)
    requires !insn.DeathNote? && forall i, j :: 0 <= i < j < |dead| ==> dead[i] != dead[j]
    ensures NoteCount(Notes(dead) + [insn], p) == if p in dead then 1 else 0
    ensures WithoutNotes(Notes(dead) + [insn]) == [insn]
  {
    NotesCount(dead, p);
    assert (Notes(dead) + [insn])[..|dead|] == Notes(dead);
  }

  lemma UsedSplit(front: seq<Instruction>, insn: Instruction, p: Pseudo)
    ensures Used(front + [insn], p) <==> Used(front, p) || p in UsesOf(insn)
  {
    var insns := front + [insn];
    if Used(front, p) {
      var i :| 0 <= i < |front| && p in UsesOf(front[i]);
      assert insns[i] == front[i];
    }
    if p in UsesOf(insn) {
      assert insns[|front|] == insn;
    }
    if Used(insns, p) {
      var i :| 0 <= i < |insns| && p in UsesOf(insns[i]);
      assert i < |front| ==> front[i] == insns[i];
    }
  }

  lemma AnnotatedParts(insns: seq<Instruction>, live: set<Pseudo>, front: seq<Instruction>, insn: Instruction,
                       dead: seq<Pseudo>, live': set<Pseudo>)
    requires insns == front + [insn] && dead == Dying(UsesOf(insn), live) && live' == live + SetOf(dead)
    ensures Annotated(insns, live) == Annotated(front, live') + (Notes(dead) + [insn])
  {
    assert insns[..|insns| - 1] == front;
  }

  /** The notes before one instruction. */
  lemma NotesHere(insn: Instruction, live: set<Pseudo>, dead: seq<Pseudo>, live': set<Pseudo>, group: seq<Instruction>,
                  p: Pseudo)
    requires !insn.DeathNote? && dead == Dying(UsesOf(insn), live) && live' == live + SetOf(dead)
    requires group == Notes(dead) + [insn]
    ensures NoteCount(group, p) == if p in UsesOf(insn) && Trackable(p) && p !in live then 1 else 0
    ensures p in live' <==> p in live || (p in UsesOf(insn) && Trackable(p))
    ensures WithoutNotes(group) == [insn]
  {
    DyingOnce(UsesOf(insn), live);
    Group(insn, dead, p);
  }

  /** A trackable pseudo that is used and not live afterwards gets exactly one note, and
      no other pseudo gets one. The instructions stay as they are. */
  lemma {:induction false} OneNote(insns: seq<Instruction>, live: set<Pseudo>, p: Pseudo)
    requires NoNotes(insns)
    ensures NoteCount(Annotated(insns, live), p) == if (p.Reg? || p.Arg?) && p !in live && Used(insns, p) then 1 else 0
    ensures WithoutNotes(Annotated(insns, live)) == insns
  {
    if |insns| > 0 {
      var front, insn := insns[..|insns| - 1], insns[|insns| - 1];
      var dead := Dying(UsesOf(insn), live);
      var live' := live + SetOf(dead);
      var a, group := Annotated(front, live'), Notes(dead) + [insn];
      assert insns == front + [insn];
      AnnotatedParts(insns, live, front, insn, dead, live');
      OneNote(front, live', p);
      NotesHere(insn, live, dead, live', group, p);
      NoteCountAppend(a, group, p);
      WithoutNotesAppend(a, group);
      UsedSplit(front, insn, p);
    } else {
      assert !Used(insns, p);
    }
  }

  /** The note at i belongs to the group of the instruction at j, the last that uses p. */
  predicate BeforeLastUse(s: seq<Instruction>, i: nat, j: nat, p: Pseudo) {
    && i < j < |s| && (forall k :: i <= k < j ==> s[k].DeathNote?) && !s[j].DeathNote?
    && p in UsesOf(s[j]) && (forall k :: j < k < |s| ==> p !in UsesOf(s[k]))
  }

  /** Nothing in an annotated block uses more than the block did. */
  lemma {:induction false} UsedInAnnotated(insns: seq<Instruction>, live: set<Pseudo>, k: nat)
    requires NoNotes(insns) && k < |Annotated(insns, live)| && !Annotated(insns, live)[k].DeathNote?
    ensures exists i :: 0 <= i < |insns| && insns[i] == Annotated(insns, live)[k]
  {
    var front, insn := insns[..|insns| - 1], insns[|insns| - 1];
    var dead := Dying(UsesOf(insn), live);
    var a := Annotated(front, live + SetOf(dead));
    if k < |a| {
      UsedInAnnotated(front, live + SetOf(dead), k);
      var i :| 0 <= i < |front| && front[i] == a[k];
      assert insns[i] == front[i];
    } else {
      assert Annotated(insns, live)[k] == (Notes(dead) + [insn])[k - |a|];
      assert insns[|insns| - 1] == Annotated(insns, live)[k];
    }
  }

  lemma FurtherOn(a: seq<Instruction>, group: seq<Instruction>, s: seq<Instruction>, i: nat, j: nat, p: Pseudo)
    requires s == a + group && BeforeLastUse(a, i, j, p) && forall k :: 0 <= k < |group| ==> p !in UsesOf(group[k])
    ensures BeforeLastUse(s, i, j, p)
  {
    forall k | i <= k < |s| ensures s[k] == if k < |a| then a[k] else group[k - |a|] {
    }
  }

  lemma InGroup(a: seq<Instruction>, dead: seq<Pseudo>, insn: Instruction, s: seq<Instruction>, i: nat, j: nat,
                p: Pseudo)
    requires s == a + (Notes(dead) + [insn]) && |a| <= i < j && j == |s| - 1
    requires s[i] == DeathNote(p) && !insn.DeathNote? && p in UsesOf(insn)
    ensures BeforeLastUse(s, i, j, p)
  {
    forall k | i <= k < j ensures s[k].DeathNote? {
      assert s[k] == Notes(dead)[k - |a|];
    }
  }

  /** No note or last instruction of a group uses a pseudo that has its note before. */
  lemma GroupUses(a: seq<Instruction>, dead: seq<Pseudo>, insn: Instruction, s: seq<Instruction>, i: nat, j: nat,
                  p: Pseudo)
    requires s == a + (Notes(dead) + [insn]) && BeforeLastUse(a, i, j, p) && p !in UsesOf(insn)
    ensures BeforeLastUse(s, i, j, p)
  {
    var group := Notes(dead) + [insn];
    forall k | 0 <= k < |group| ensures p !in UsesOf(group[k]) {
      assert k < |dead| ==> group[k] == Notes(dead)[k];
    }
    FurtherOn(a, group, s, i, j, p);
  }

  /** A note that the last instruction got. */
  lemma NoteOfLast(a: seq<Instruction>, dead: seq<Pseudo>, insn: Instruction, s: seq<Instruction>, i: nat, p: Pseudo,
                   live: set<Pseudo>)
    requires s == a + (Notes(dead) + [insn]) && |a| <= i < |s| && s[i] == DeathNote(p) && !insn.DeathNote?
    requires dead == Dying(UsesOf(insn), live)
    ensures p !in live && exists j: nat :: BeforeLastUse(s, i, j, p)
  {
    var j: nat, k := |s| - 1, i - |a|;
    var group := Notes(dead) + [insn];
    assert s[i] == group[k] && k < |dead| && Notes(dead)[k] == DeathNote(dead[|dead| - 1 - k]);
    assert dead[|dead| - 1 - k] == p && p in dead;
    DyingOnce(UsesOf(insn), live);
    InGroup(a, dead, insn, s, i, j, p);
  }

  /** A note for a pseudo that the last instruction does not use. */
  lemma NoteOfFront(a: seq<Instruction>, dead: seq<Pseudo>, insn: Instruction, s: seq<Instruction>, i: nat, p: Pseudo,
                    live: set<Pseudo>)
    requires s == a + (Notes(dead) + [insn]) && dead == Dying(UsesOf(insn), live) && Trackable(p)
             && p !in live + SetOf(dead)
    requires exists j: nat :: BeforeLastUse(a, i, j, p)
    ensures p !in live && exists j: nat :: BeforeLastUse(s, i, j, p)
  {
    DyingOnce(UsesOf(insn), live);
    var j: nat :| BeforeLastUse(a, i, j, p);
    GroupUses(a, dead, insn, s, i, j, p);
  }

  lemma {:induction false} NotePlace(insns: seq<Instruction>, live: set<Pseudo>, i: nat, p: Pseudo)
    requires NoNotes(insns) && i < |Annotated(insns, live)| && Annotated(insns, live)[i] == DeathNote(p)
    ensures p !in live && exists j: nat :: BeforeLastUse(Annotated(insns, live), i, j, p)
  {
    var front, insn := insns[..|insns| - 1], insns[|insns| - 1];
    var dead := Dying(UsesOf(insn), live);
    var live' := live + SetOf(dead);
    var a, s := Annotated(front, live'), Annotated(insns, live);
    assert insns == front + [insn];
    AnnotatedParts(insns, live, front, insn, dead, live');
    if i < |a| {
      NotePlace(front, live', i, p);
      TrackableNote(front, live', i, p);
      NoteOfFront(a, dead, insn, s, i, p, live);
    } else {
      NoteOfLast(a, dead, insn, s, i, p, live);
    }
  }

  lemma {:induction false} TrackableNote(insns: seq<Instruction>, live: set<Pseudo>, i: nat, p: Pseudo)
    requires NoNotes(insns) && i < |Annotated(insns, live)| && Annotated(insns, live)[i] == DeathNote(p)
    ensures Trackable(p)
  {
    var front, insn := insns[..|insns| - 1], insns[|insns| - 1];
    var dead := Dying(UsesOf(insn), live);
    DyingOnce(UsesOf(insn), live);
    var a := Annotated(front, live + SetOf(dead));
    if i < |a| {
      TrackableNote(front, live + SetOf(dead), i, p);
    } else {
      assert Annotated(insns, live)[i] == (Notes(dead) + [insn])[i - |a|];
      assert dead[|dead| - 1 - (i - |a|)] == p;
    }
  }

  // ---------------------------------------------------------------------------
  // The pass
  // ---------------------------------------------------------------------------

  lemma DyingFirst(uses: seq<Pseudo>, i: nat, next: nat, use: Pseudo, live: set<Pseudo>)
    requires i < |uses| && next == i + 1 && use == uses[i]
    ensures Dying(uses[i..], live) ==
            if Trackable(use) && use !in live then [use] + Dying(uses[next..], live + {use})
            else Dying(uses[next..], live)
  {
    assert uses[i..][0] == use && uses[i..][1..] == uses[next..];
  }

  lemma OneMoreIn(ps: seq<Pseudo>, p: Pseudo)
    ensures SetOf(ps + [p]) == SetOf(ps) + {p}
  {
  }

  ghost predicate DyingSoFar(uses: seq<Pseudo>, i: nat, live: seq<Pseudo>, dead: seq<Pseudo>, now: seq<Pseudo>) {
    && i <= |uses| && SetOf(now) == SetOf(live) + SetOf(dead)
    && dead + Dying(uses[i..], SetOf(now)) == Dying(uses, SetOf(live))
  }

  lemma DyingStep(uses: seq<Pseudo>, i: nat, next: nat, use: Pseudo, live: seq<Pseudo>, dead: seq<Pseudo>,
                  now: seq<Pseudo>)
    requires DyingSoFar(uses, i, live, dead, now) && i < |uses| && next == i + 1 && use == uses[i]
    ensures if Trackable(use) && use !in now then DyingSoFar(uses, next, live, dead + [use], now + [use])
            else DyingSoFar(uses, next, live, dead, now)
  {
    DyingFirst(uses, i, next, use, SetOf(now));
    if Trackable(use) && use !in now {
      OneMoreDies(uses, next, use, live, dead, now, dead + [use], now + [use]);
    }
  }

  lemma OneMoreDies(uses: seq<Pseudo>, next: nat, use: Pseudo, live: seq<Pseudo>, dead: seq<Pseudo>, now: seq<Pseudo>,
                    dead': seq<Pseudo>, now': seq<Pseudo>)
    requires next <= |uses| && dead' == dead + [use] && now' == now + [use] && SetOf(now) == SetOf(live) + SetOf(dead)
    requires dead + ([use] + Dying(uses[next..], SetOf(now) + {use})) == Dying(uses, SetOf(live))
    ensures DyingSoFar(uses, next, live, dead', now')
  {
    OneMoreIn(now, use);
    OneMoreIn(dead, use);
    OneMoreOfThree(SetOf(live), SetOf(dead), use);
    OneMoreFront(dead, use, Dying(uses[next..], SetOf(now')));
  }

  lemma OneMoreOfThree(a: set<Pseudo>, b: set<Pseudo>, p: Pseudo)
    ensures a + b + {p} == a + (b + {p})
  {
  }

  lemma OneMoreFront(a: seq<Pseudo>, p: Pseudo, rest: seq<Pseudo>)
    ensures a + ([p] + rest) == a + [p] + rest
  {
  }

  /** death_use over the uses of an instruction. */
  method DeathUses(insn: Instruction, live: seq<Pseudo>) returns (dead: seq<Pseudo>, now: seq<Pseudo>)
    ensures dead == Dying(UsesOf(insn), SetOf(live)) && SetOf(now) == SetOf(live) + SetOf(dead)
  {
    var uses := UsesOf(insn);
    dead, now := [], live;
    var i := 0;
    assert uses[i..] == uses;
    while i < |uses|
      invariant DyingSoFar(uses, i, live, dead, now)
    {
      var use, next := uses[i], i + 1;
      DyingStep(uses, i, next, use, live, dead, now);
      if Trackable(use) && use !in now {
        dead := dead + [use];
        now := now + [use];
      }
      i := next;
    }
    assert dead + [] == dead;
  }

  ghost function NeedsOf(g: Code, children: seq<BlockId>): set<Pseudo> {
    set c, p | c in children && c < |g| && p in g[c].needs :: p
  }

  /** The pseudos that the children need. */
  method LiveOut(ep: EntryPoint, bb: BlockId) returns (live: seq<Pseudo>)
    requires bb < |ep.blocks|
    ensures SetOf(live) == NeedsOf(ep.blocks, ep.blocks[bb].children)
  {
    live := [];
    var children := ep.blocks[bb].children;
    for i := 0 to |children|
      invariant SetOf(live) == NeedsOf(ep.blocks, children[..i])
    {
      assert children[..i + 1] == children[..i] + [children[i]];
      ghost var before := SetOf(live);
      if children[i] < |ep.blocks| {
        var needs := ep.blocks[children[i]].needs;
        for k := 0 to |needs|
          invariant SetOf(live) == before + SetOf(needs[..k])
        {
          assert SetOf(needs[..k + 1]) == SetOf(needs[..k]) + {needs[k]} by {
            assert needs[..k + 1] == needs[..k] + [needs[k]];
          }
          assert SetOf(live + [needs[k]]) == SetOf(live) + {needs[k]};
          if needs[k] !in live {
            live := live + [needs[k]];
          }
        }
        assert needs[..|needs|] == needs;
      }
    }
    assert children[..|children|] == children;
  }

  lemma Regroup(a: seq<Instruction>, notes: seq<Instruction>, insn: Instruction, tail: seq<Instruction>)
    ensures a + (notes + [insn]) + tail == a + (notes + ([insn] + tail))
  {
  }

  /** The instructions from the i-th on have their notes, and those before have none. */
  ghost predicate InNotes(all: seq<Instruction>, goal: seq<Instruction>, insns: seq<Instruction>, live: seq<Pseudo>,
                          i: nat) {
    && i <= |all| && i <= |insns| && insns[..i] == all[..i]
    && Annotated(all[..i], SetOf(live)) + insns[i..] == goal
  }

  lemma NotesGoOn(all: seq<Instruction>, goal: seq<Instruction>, insns: seq<Instruction>, live: seq<Pseudo>, next: nat,
                  i: nat, dead: seq<Pseudo>, insns': seq<Instruction>, live': seq<Pseudo>)
    requires InNotes(all, goal, insns, live, next) && next == i + 1
    requires dead == Dying(UsesOf(insns[i]), SetOf(live)) && SetOf(live') == SetOf(live) + SetOf(dead)
    requires i <= |insns'| && insns'[..i] == insns[..i] && insns'[i..] == Notes(dead) + ([insns[i]] + insns[next..])
    ensures InNotes(all, goal, insns', live', i)
  {
    var insn, tail, front, rest := insns[i], insns[next..], all[..next], all[..i];
    assert insn == insns[..next][i] == all[i] && front == rest + [insn];
    assert insns[..i] == insns[..next][..i] == rest;
    AnnotatedParts(front, SetOf(live), rest, insn, dead, SetOf(live'));
    Regroup(Annotated(rest, SetOf(live')), Notes(dead), insn, tail);
  }
}
