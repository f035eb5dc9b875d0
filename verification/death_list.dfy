/** The death notes of a block (liveness.c), put into the list of its instructions
    while it is walked from its end. */
module DeathList {
  import opened Ir
  import opened Graph
  import opened SortMerge
  import opened PtrList
  import opened Sort
  import opened ListOps
  import opened DeathNotes

  type InsnNode = ListNode<Instruction>

  /** The list has notes for the first j dead pseudos at a place. */
  ghost predicate Noted(s: seq<Instruction>, pos: nat, dead: seq<Pseudo>, t: seq<Instruction>) {
    pos <= |s| && t == s[..pos] + Notes(dead) + s[pos..]
  }

  lemma NotesSnoc(dead: seq<Pseudo>, p: Pseudo)
    ensures Notes(dead + [p]) == [DeathNote(p)] + Notes(dead)
  {
    var ns := Notes(dead + [p]);
    forall i | 0 <= i < |ns| ensures ns[i] == ([DeathNote(p)] + Notes(dead))[i] {
    }
  }

  lemma PutBefore(a: seq<Instruction>, ns: seq<Instruction>, b: seq<Instruction>, x: Instruction, t: seq<Instruction>,
                  pos: nat)
    requires pos == |a| && t == a + ns + b
    ensures t[..pos] + [x] + t[pos..] == a + ([x] + ns) + b
  {
    assert t[..pos] == a && t[pos..] == ns + b;
  }

  /** What INSERT_CURRENT does for one note after others. */
  lemma OneMoreNote(s: seq<Instruction>, pos: nat, front: seq<Pseudo>, p: Pseudo, t: seq<Instruction>,
                    u: seq<Instruction>)
    requires Noted(s, pos, front, t) && InsertedAt(t, pos, DeathNote(p), u)
    ensures Noted(s, pos, front + [p], u)
  {
    NotesSnoc(front, p);
    PutBefore(s[..pos], Notes(front), s[pos..], DeathNote(p), t, pos);
  }

  lemma TakeNext(dead: seq<Pseudo>, j: nat, next: nat)
    requires j < |dead| && next == j + 1
    ensures dead[..next] == dead[..j] + [dead[j]]
  {
  }

  /** INSERT_CURRENT for every dead pseudo. The cursor stands on the note inserted
      last, and still has the same entries before it. */
  method InsertAll(list0: InsnNode, nr0: nat, dead: seq<Pseudo>, ghost r: seq<InsnNode>, ghost p0: nat,
                   ghost s: seq<Instruction>, ghost pos: nat)
    returns (list: InsnNode, nr: nat, ghost t: seq<InsnNode>, ghost p: nat)
    requires Ring(r) && p0 < |r| && r[p0] == list0 && nr0 < list0.nr
    requires s == Contents(r) && pos == PlaceOf(Data(r), p0, nr0) <= |s|
    modifies Nodes(r), Arrays(r)
    ensures Ring(t) && p < |t| && t[p] == list && nr < list.nr && t[0] == r[0] && Grew(r, t)
    ensures pos == PlaceOf(Data(t), p, nr) && Noted(s, pos, dead, Contents(t))
  {
    list, nr, t, p := list0, nr0, r, p0;
    var j := 0;
    assert s[..pos] + [] + s[pos..] == s;
    while j < |dead|
      invariant j <= |dead| && Ring(t) && p < |t| && t[p] == list && nr < list.nr && t[0] == r[0] && Grew(r, t)
      invariant pos == PlaceOf(Data(t), p, nr) && Noted(s, pos, dead[..j], Contents(t))
    {
      ghost var before := Contents(t);
      list, nr, t, p := InsertCurrent(list, nr, DeathNote(dead[j]), t, p, before, pos);
      OneMoreNote(s, pos, dead[..j], dead[j], before, Contents(t));
      TakeNext(dead, j, j + 1);
      j := j + 1;
    }
    assert dead[..j] == dead;
  }

  /** The instruction under the cursor. */
  method ReadCurrent(list: InsnNode, nr: nat, ghost r: seq<InsnNode>, ghost p: nat, ghost s: seq<Instruction>,
                     ghost i: nat)
    returns (insn: Instruction)
    requires Ring(r) && p < |r| && r[p] == list && nr < list.nr && s == Contents(r) && i == PlaceOf(Data(r), p, nr)
    ensures i < |s| && s[i] == insn && s == Contents(r) && i == PlaceOf(Data(r), p, nr)
  {
    DataAt(r, p);
    PlaceInside(Data(r), p, nr);
    insn := list.list[nr];
  }

  /** What dies there; the list stays as it is. */
  method DyingHere(insn: Instruction, live: seq<Pseudo>, ghost r: seq<InsnNode>, ghost p: nat, ghost nr: nat,
                   ghost s: seq<Instruction>, ghost i: nat)
    returns (dead: seq<Pseudo>, now: seq<Pseudo>)
    requires p < |r| && s == Contents(r) && i == PlaceOf(Data(r), p, nr)
    ensures s == Contents(r) && i == PlaceOf(Data(r), p, nr)
    ensures dead == Dying(UsesOf(insn), SetOf(live)) && SetOf(now) == SetOf(live) + SetOf(dead)
  {
    ghost var d := Data(r);
    dead, now := DeathUses(insn, live);
    forall j | 0 <= j < |r| ensures d[j] == Items(r[j]) {
    }
    DataIs(r, d);
  }

  lemma NotedMiddle(s: seq<Instruction>, pos: nat, next: nat, insn: Instruction, dead: seq<Pseudo>, t: seq<Instruction>)
    requires pos < |s| && next == pos + 1 && s[pos] == insn && Noted(s, pos, dead, t)
    ensures t[..pos] == s[..pos] && t[pos..] == Notes(dead) + ([insn] + s[next..])
  {
  }

  lemma NotesInserted(all: seq<Instruction>, goal: seq<Instruction>, s: seq<Instruction>, live: seq<Pseudo>, next: nat,
                      i: nat, insn: Instruction, dead: seq<Pseudo>, t: seq<Instruction>, now: seq<Pseudo>)
    requires InNotes(all, goal, s, live, next) && next == i + 1 && i < |s| && s[i] == insn && Noted(s, i, dead, t)
    requires dead == Dying(UsesOf(insn), SetOf(live)) && SetOf(now) == SetOf(live) + SetOf(dead)
    ensures InNotes(all, goal, t, now, i)
  {
    NotedMiddle(s, i, next, insn, dead, t);
    NotesGoOn(all, goal, s, live, next, i, dead, t, now);
  }

  /** The notes of the instruction under the cursor. */
  method NoteCurrent(list0: InsnNode, nr0: nat, live: seq<Pseudo>, ghost r: seq<InsnNode>, ghost p0: nat,
                     ghost all: seq<Instruction>, ghost goal: seq<Instruction>, ghost next: nat)
    returns (list: InsnNode, nr: nat, now: seq<Pseudo>, ghost t: seq<InsnNode>, ghost p: nat, ghost i: nat)
    requires Ring(r) && p0 < |r| && r[p0] == list0 && nr0 < list0.nr
    requires next == PlaceOf(Data(r), p0, nr0) + 1 && InNotes(all, goal, Contents(r), live, next)
    modifies Nodes(r), Arrays(r)
    ensures Ring(t) && p < |t| && t[p] == list && nr < list.nr && t[0] == r[0] && Grew(r, t)
    ensures i + 1 == next && i == PlaceOf(Data(t), p, nr) && InNotes(all, goal, Contents(t), now, i)
  {
    i := PlaceOf(Data(r), p0, nr0);
    ghost var s := Contents(r);
    var insn := ReadCurrent(list0, nr0, r, p0, s, i);
    var dead;
    dead, now := DyingHere(insn, live, r, p0, nr0, s, i);
    list, nr, t, p := InsertAll(list0, nr0, dead, r, p0, s, i);
    NotesInserted(all, goal, s, live, next, i, insn, dead, Contents(t), now);
  }

  /** The inner loop of the walk: one node, and what is split off it on the way. The
      instructions from the cursor on have their notes. */
  method NoteNode(list0: InsnNode, live0: seq<Pseudo>, ghost r: seq<InsnNode>, ghost p0: nat,
                  ghost all: seq<Instruction>, ghost goal: seq<Instruction>, ghost i0: nat)
    returns (list: InsnNode, live: seq<Pseudo>, ghost t: seq<InsnNode>, ghost p: nat, ghost i: nat)
    requires Ring(r) && p0 < |r| && r[p0] == list0
    requires i0 == PlaceOf(Data(r), p0, list0.nr) && InNotes(all, goal, Contents(r), live0, i0)
    modifies Nodes(r), Arrays(r)
    ensures Ring(t) && p < |t| && t[p] == list && t[0] == r[0] && Grew(r, t)
    ensures i == |Concat(Data(t)[..p])| && InNotes(all, goal, Contents(t), live, i)
    ensures i < i0 || (i == i0 && p == p0)
  {
    list, live, t, p, i := list0, live0, r, p0, i0;
    var nr: nat := list.nr;
    while nr > 0
      invariant Ring(t) && p < |t| && t[p] == list && nr <= list.nr && t[0] == r[0] && Grew(r, t)
      invariant i == PlaceOf(Data(t), p, nr) && InNotes(all, goal, Contents(t), live, i)
      invariant i < i0 || (i == i0 && p == p0)
      decreases i
    {
      nr := nr - 1;
      list, nr, live, t, p, i := NoteCurrent(list, nr, live, t, p, all, goal, i);
    }
  }

  /** The cursor stands on a node whose entries have their notes, as have those of the
      nodes behind. */
  ghost predicate Walked(t: seq<InsnNode>, p: nat, i: nat, list: InsnNode, all: seq<Instruction>,
                         goal: seq<Instruction>, live: seq<Pseudo>)
    reads t, Arrays(t)
  {
    && Ring(t) && p <= |t| && list == (if p == |t| then t[0] else t[p])
    && i == |Concat(Data(t)[..p])| && InNotes(all, goal, Contents(t), live, i)
  }

  lemma WalkStarts(t: seq<InsnNode>, all: seq<Instruction>, goal: seq<Instruction>, live: seq<Pseudo>)
    requires Ring(t) && Contents(t) == all && goal == Annotated(all, SetOf(live))
    ensures Walked(t, |t|, |all|, t[0], all, goal, live)
  {
    assert Data(t)[..|t|] == Data(t) && all[..|all|] == all && all[|all|..] == [] && goal + [] == goal;
  }

  lemma WalkEnds(t: seq<InsnNode>, p: nat, i: nat, list: InsnNode, all: seq<Instruction>, goal: seq<Instruction>,
                 live: seq<Pseudo>)
    requires Walked(t, p, i, list, all, goal, live) && p == 0
    ensures Contents(t) == goal
  {
    assert Data(t)[..0] == [] && i == 0;
    assert all[..0] == [] && Contents(t)[0..] == Contents(t) && Annotated([], SetOf(live)) == [];
    assert [] + Contents(t) == Contents(t);
  }

  /** One round of the walk. */
  method NoteBefore(list0: InsnNode, live0: seq<Pseudo>, ghost r: seq<InsnNode>, ghost p0: nat, ghost i0: nat,
                    ghost all: seq<Instruction>, ghost goal: seq<Instruction>)
    returns (list: InsnNode, live: seq<Pseudo>, ghost t: seq<InsnNode>, ghost p: nat, ghost i: nat)
    requires p0 > 0 && Walked(r, p0, i0, list0, all, goal, live0)
    modifies Nodes(r), Arrays(r)
    ensures Walked(t, p, i, list, all, goal, live) && p < |t| && t[p] == list && t[0] == r[0] && Grew(r, t)
    ensures i < i0 || (i == i0 && p < p0)
  {
    ghost var q := p0 - 1;
    list := list0.prev;
    assert list == r[q];
    DataAt(r, q);
    ConcatSnoc(Data(r), q);
    list, live, t, p, i := NoteNode(list, live0, r, q, all, goal, i0);
  }

  /** The whole walk, from the last node to the first. */
  method NoteList(head: InsnNode, live0: seq<Pseudo>, ghost r: seq<InsnNode>, ghost goal: seq<Instruction>)
    returns (ghost t: seq<InsnNode>)
    requires Ring(r) && r[0] == head && goal == Annotated(Contents(r), SetOf(live0))
    modifies Nodes(r), Arrays(r)
    ensures Ring(t) && t[0] == head && Grew(r, t) && Contents(t) == goal
  {
    ghost var all := Contents(r);
    WalkStarts(r, all, goal, live0);
    var list, live, done := head, live0, false;
    ghost var p: nat, i: nat := |r|, |all|;
    t := r;
    while !done
      invariant Walked(t, p, i, list, all, goal, live) && t[0] == head && Grew(r, t) && (done <==> p == 0)
      decreases i, p
    {
      list, live, t, p, i := NoteBefore(list, live, t, p, i, all, goal);
      HeadAt(t, p);
      done := list == head;
    }
    WalkEnds(t, p, i, list, all, goal, live);
  }

  /** track_pseudo_death_bb, on the list of the block's instructions. */
  method TrackPseudoDeathBb(ep: EntryPoint, bb: BlockId, head: InsnNode, ghost r: seq<InsnNode>)
    returns (ghost t: seq<InsnNode>)
    requires bb < |ep.blocks| && Ring(r) && r[0] == head
    modifies Nodes(r), Arrays(r)
    ensures Ring(t) && t[0] == head && Grew(r, t)
    ensures Contents(t) == Annotated(old(Contents(r)), NeedsOf(old(ep.blocks), old(ep.blocks)[bb].children))
  {
    ghost var goal := Annotated(Contents(r), NeedsOf(ep.blocks, ep.blocks[bb].children));
    var live := LiveOut(ep, bb);
    t := NoteList(head, live, r, goal);
  }
}
