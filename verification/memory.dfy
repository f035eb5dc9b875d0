/** Instructions on memory made of bytes: what loads, stores and calls of a block do. */
module MemorySemantics {
  import opened Ir
  import opened Semantics

  /** A byte: the block of memory it is in, and its place there. A symbol's block is
      known by its number, and so is the block that a pointer points to. */
  datatype Loc = Loc(block: int, byte: int)

  type Bytes = map<Loc, int>

  /** `base` is the data of the other instructions. */
  datatype Machine = Machine(base: Config, mem: Bytes)

  /** What lies outside the function: the effect of calls on memory they can reach, the
      symbols out of their reach, and the symbols the block names. */
  datatype World = World(memory: (seq<int>, Bytes) -> Bytes, result: (seq<int>, Bytes) -> int,
                         local: set<int>, named: set<int>)

  /** The bytes that an access of so many bits takes; one bit takes a whole byte. */
  function BytesOf(bits: nat): nat {
    (bits + 7) / 8
  }

  function ByteAt(v: int, k: nat): int
    decreases k
  {
    if k == 0 then v % 256 else ByteAt(v / 256, k - 1)
  }

  function Pow256(n: nat): nat {
    if n == 0 then 1 else 256 * Pow256(n - 1)
  }

  function Get(mem: Bytes, l: Loc): int {
    if l in mem then mem[l] else 0
  }

  function LoadBytes(mem: Bytes, b: int, o: int, n: nat): int
    decreases n
  {
    if n == 0 then 0 else Get(mem, Loc(b, o)) + 256 * LoadBytes(mem, b, o + 1, n - 1)
  }

  function StoreBytes(mem: Bytes, b: int, o: int, n: nat, v: int): Bytes {
    if n == 0 then mem else StoreBytes(mem, b, o, n - 1, v)[Loc(b, o + n - 1) := ByteAt(v, n - 1)]
  }

  predicate Within(l: Loc, b: int, o: int, n: nat) {
    l.block == b && o <= l.byte < o + n
  }

  lemma {:induction false} StoredAt(mem: Bytes, b: int, o: int, n: nat, v: int, l: Loc)
    ensures l in StoreBytes(mem, b, o, n, v) <==> l in mem || Within(l, b, o, n)
    ensures Within(l, b, o, n) ==> StoreBytes(mem, b, o, n, v)[l] == ByteAt(v, l.byte - o)
    ensures l in mem && !Within(l, b, o, n) ==> StoreBytes(mem, b, o, n, v)[l] == mem[l]
  {
    if n > 0 {
      StoredAt(mem, b, o, n - 1, v, l);
    }
  }

  lemma {:induction false} LoadSame(mem: Bytes, mem': Bytes, b: int, o: int, n: nat)
    requires forall l :: Within(l, b, o, n) ==> Get(mem, l) == Get(mem', l)
    ensures LoadBytes(mem, b, o, n) == LoadBytes(mem', b, o, n)
    decreases n
  {
    if n > 0 {
      assert Within(Loc(b, o), b, o, n);
      forall l | Within(l, b, o + 1, n - 1) ensures Get(mem, l) == Get(mem', l) {
        assert Within(l, b, o, n);
      }
      LoadSame(mem, mem', b, o + 1, n - 1);
    }
  }

  lemma {:induction false} LoadValue(mem: Bytes, b: int, o: int, n: nat, v: int)
    requires 0 <= v < Pow256(n)
    requires forall k: nat :: k < n ==> Get(mem, Loc(b, o + k)) == ByteAt(v, k)
    ensures LoadBytes(mem, b, o, n) == v
    decreases n
  {
    if n > 0 {
      assert Get(mem, Loc(b, o + 0)) == ByteAt(v, 0);
      forall k: nat | k < n - 1 ensures Get(mem, Loc(b, o + 1 + k)) == ByteAt(v / 256, k) {
        assert Get(mem, Loc(b, o + (k + 1))) == ByteAt(v, k + 1);
      }
      LoadValue(mem, b, o + 1, n - 1, v / 256);
    }
  }

  /** A value that fits is read back. */
  lemma ReadBack(mem: Bytes, b: int, o: int, n: nat, v: int)
    requires 0 <= v < Pow256(n)
    ensures LoadBytes(StoreBytes(mem, b, o, n, v), b, o, n) == v
  {
    forall k: nat | k < n ensures Get(StoreBytes(mem, b, o, n, v), Loc(b, o + k)) == ByteAt(v, k) {
      StoredAt(mem, b, o, n, v, Loc(b, o + k));
    }
    LoadValue(StoreBytes(mem, b, o, n, v), b, o, n, v);
  }

  // ---------------------------------------------------------------------------
  // Instructions
  // ---------------------------------------------------------------------------

  /** The block of memory that an address is in. */
  function BlockOf(m: Machine, p: Pseudo): int {
    if p.Sym? then p.nr else ValueOf(m.base, p)
  }

  function Outside(mem: Bytes, local: set<int>): Bytes {
    map l | l in mem && l.block !in local :: mem[l]
  }

  function Inside(mem: Bytes, local: set<int>): Bytes {
    map l | l in mem && l.block in local :: mem[l]
  }

  function Values(c: Config, ps: seq<Pseudo>): (vs: seq<int>)
    ensures |vs| == |ps| && forall i :: 0 <= i < |ps| ==> vs[i] == ValueOf(c, ps[i])
  {
    if |ps| == 0 then [] else Values(c, ps[..|ps| - 1]) + [ValueOf(c, ps[|ps| - 1])]
  }

  /** A call sees and changes all memory but the local symbols. */
  function Called(w: World, m: Machine, target: Pseudo, func: Pseudo, args: seq<Pseudo>): Machine {
    var vs, seen := [ValueOf(m.base, func)] + Values(m.base, args), Outside(m.mem, w.local);
    Machine(SetReg(m.base, target, w.result(vs, seen)), Outside(w.memory(vs, seen), w.local) + Inside(m.mem, w.local))
  }

  function Do(w: World, insn: Instruction, m: Machine): Machine {
    match insn
    case Load(t, a, o, n) => m.(base := SetReg(m.base, t, LoadBytes(m.mem, BlockOf(m, a), o, BytesOf(n))))
    case Store(v, a, o, n) => m.(mem := StoreBytes(m.mem, BlockOf(m, a), o, BytesOf(n), ValueOf(m.base, v)))
    case Call(t, f, args) => Called(w, m, t, f, args)
    case _ => m.(base := Effect(insn, m.base))
  }

  /** The instructions of a block, one after the other. */
  function DoAll(w: World, insns: seq<Instruction>, m: Machine): Machine {
    if |insns| == 0 then m else DoAll(w, insns[1..], Do(w, insns[0], m))
  }

  // ---------------------------------------------------------------------------
  // What the passes rely on
  // ---------------------------------------------------------------------------

  predicate Accesses(insn: Instruction) {
    insn.Load? || insn.Store?
  }

  /** An access through a pointer stays away from the symbols that the block names and
      from the local ones, and a stored value fits into its place. */
  predicate Sane(w: World, insn: Instruction, m: Machine) {
    && (Accesses(insn) && insn.src.Sym? ==> insn.src.nr in w.named)
    && (Accesses(insn) && !insn.src.Sym? ==> BlockOf(m, insn.src) !in w.named && BlockOf(m, insn.src) !in w.local)
    && (insn.Store? ==> 0 <= ValueOf(m.base, insn.target) < Pow256(BytesOf(insn.size)))
  }

  predicate SaneRun(w: World, insns: seq<Instruction>, m: Machine) {
    |insns| == 0 || (Sane(w, insns[0], m) && SaneRun(w, insns[1..], Do(w, insns[0], m)))
  }

  lemma {:induction false} DoAllAppend(w: World, a: seq<Instruction>, b: seq<Instruction>, m: Machine)
    ensures DoAll(w, a + b, m) == DoAll(w, b, DoAll(w, a, m))
    ensures SaneRun(w, a + b, m) <==> SaneRun(w, a, m) && SaneRun(w, b, DoAll(w, a, m))
    decreases |a|
  {
    if |a| == 0 {
      assert a + b == b;
    } else {
      assert (a + b)[0] == a[0] && (a + b)[1..] == a[1..] + b;
      DoAllAppend(w, a[1..], b, Do(w, a[0], m));
    }
  }

  lemma DoAllMiddle(w: World, pre: seq<Instruction>, x: Instruction, post: seq<Instruction>, m: Machine)
    ensures var mi := DoAll(w, pre, m);
            && DoAll(w, pre + [x] + post, m) == DoAll(w, post, Do(w, x, mi))
            && (SaneRun(w, pre + [x] + post, m) <==>
                  SaneRun(w, pre, m) && Sane(w, x, mi) && SaneRun(w, post, Do(w, x, mi)))
  {
    assert pre + [x] + post == pre + ([x] + post) && ([x] + post)[1..] == post;
    DoAllAppend(w, pre, [x] + post, m);
  }
}
