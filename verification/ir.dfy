/** The linear form of a function: pseudos, opcodes, instructions and basic
    blocks (linearize.h). A block is known by its number, its place among the
    blocks allocated for the entry point, where the source uses its address. */
module Ir {
  import opened Options

  type BlockId = nat

  /** `Void` is both the VOID pseudo and a missing one. */
  datatype Pseudo = Void | Val(value: int) | Reg(nr: nat) | Arg(nr: nat) | Sym(nr: nat) | Phi(nr: nat)

  datatype BinOp =
    | ADD | SUB | MULU | MULS | DIVU | DIVS | MODU | MODS | SHL | LSR | ASR
    | AND | OR | XOR | AND_BOOL | OR_BOOL
    | SET_EQ | SET_NE | SET_LE | SET_GE | SET_LT | SET_GT
    | SET_B | SET_A | SET_BE | SET_AE

  datatype UnOp = NOT | NEG

  /** One arm of a switch: the default arm has `begin > end`. */
  datatype MultiJmp = MultiJmp(target: BlockId, begin: int, end: int)

  /** `Dead` is an instruction whose `bb` was cleared: it stays in the list and
      does nothing. LNOP and SNOP are a killed load and a killed store. */
  datatype Instruction =
    | Entry
    | Ret(src: Pseudo)
    | Br(cond: Pseudo, bbTrue: BlockId, bbFalse: Option<BlockId>)
    | Switch(cond: Pseudo, multijmp: seq<MultiJmp>)
    | ComputedGoto(addr: Pseudo, multijmp: seq<MultiJmp>)
    | Binary(op: BinOp, size: nat, target: Pseudo, src1: Pseudo, src2: Pseudo)
    | Unary(uop: UnOp, size: nat, target: Pseudo, src1: Pseudo)
    | Cast(signed: bool, origSize: nat, size: nat, target: Pseudo, src: Pseudo)
    | Sel(target: Pseudo, src1: Pseudo, src2: Pseudo, src3: Pseudo)
    | Load(target: Pseudo, src: Pseudo, offset: int, size: nat)
    | Store(target: Pseudo, src: Pseudo, offset: int, size: nat)
    | PhiNode(target: Pseudo, phiList: seq<Pseudo>)
    | PhiSource(target: Pseudo, phiSrc: Pseudo)
    | Call(target: Pseudo, func: Pseudo, arguments: seq<Pseudo>)
    | Context(increment: int, check: bool)
    | DeathNote(target: Pseudo)
    | Nop | LNop | SNop
    | Dead
  {
    /** OP_TERMINATOR .. OP_TERMINATOR_END */
    predicate Terminator() {
      Ret? || Br? || Switch? || ComputedGoto?
    }

    predicate IsNop() {
      Nop? || LNop? || SNop? || Dead?
    }

    /** The blocks this instruction can jump to, one entry for each jump. */
    function Targets(): seq<BlockId> {
      match this
      case Br(_, t, None) => [t]
      case Br(_, t, Some(f)) => [t, f]
      case Switch(_, jmps) => JmpTargets(jmps)
      case ComputedGoto(_, jmps) => JmpTargets(jmps)
      case _ => []
    }
  }

  function JmpTargets(jmps: seq<MultiJmp>): (ts: seq<BlockId>)
    ensures |ts| == |jmps|
    ensures forall i :: 0 <= i < |ts| ==> ts[i] == jmps[i].target
  {
    if jmps == [] then [] else [jmps[0].target] + JmpTargets(jmps[1..])
  }

  /** `struct basic_block`. `context` is -1 and `generation` 0 until a pass sets
      them. */
  datatype Block = Block(insns: seq<Instruction>, parents: seq<BlockId>, children: seq<BlockId>,
                         needs: seq<Pseudo>, defines: seq<Pseudo>, context: int, generation: nat)

  /** What alloc_basic_block returns. */
  const EmptyBlock := Block([], [], [], [], [], -1, 0)
}
