/**
 Saving and restoring a task context: the macros PUSH_ALL_REG and POP_ALL_REG
 (niobeu4/liteos_m/arch/los_arch_macro.h) as programs of a register machine over a memory frame laid out by
 niobeu4/liteos_m/arch/los_arch_regs.h.
 */
module TaskContext {
  import opened Machine
  import opened FrameMemory

  type Reg = r: nat | r < 16

  /** Special and user registers the macros name; EPC and EPS stand for what the macro arguments may select. */
  datatype SpecialReg = SAR | LBEG | LEND | LCOUNT | PS | CPENABLE | FCR | FSR | EPC | EPS

  // Frame offsets.
  const OFF_PC: nat := 0
  const OFF_PS: nat := 4
  const OFF_SAR: nat := 72
  const OFF_LBEG: nat := 84
  const OFF_LEND: nat := 88
  const OFF_LCOUNT: nat := 92
  const OFF_CPENABLE: nat := 100
  const OFF_CPSTORED: nat := 102
  const OFF_FCR: nat := 104
  const OFF_FSR: nat := 108

  function OffA(i: Reg): nat { 8 + 4 * i }

  function OffF(i: Reg): nat { 112 + 4 * i }

  function ContextSize(fpu: bool): nat { if fpu then 192 else 112 }

  /** The instructions the macros use; a branch carries the index it jumps to, always a later one. */
  datatype Instr =
    | L32i(r: Reg, base: Reg, off: nat)
    | S32i(r: Reg, base: Reg, off: nat)
    | L16ui(r: Reg, base: Reg, off: nat)
    | S16i(r: Reg, base: Reg, off: nat)
    | Lsi(f: Reg, base: Reg, off: nat)
    | Ssi(f: Reg, base: Reg, off: nat)
    | Rsr(r: Reg, sr: SpecialReg)
    | Wsr(r: Reg, sr: SpecialReg)
    | Movi(r: Reg, imm: u32)
    | Rsync
    | Beqz(r: Reg, target: nat)
    | BbciL0(r: Reg, target: nat)

  type Registers = s: seq<u32> | |s| == 16 witness [0, 0, 0, 0, 0, 0, 0, 0, 0, 0, 0, 0, 0, 0, 0, 0]

  function Assign(sr: SpecialReg -> u32, x: SpecialReg, w: u32): SpecialReg -> u32 {
    (y: SpecialReg) => if y == x then w else sr(y)
  }

  datatype State = State(a: Registers, f: Registers, sr: SpecialReg -> u32, mem: Memory)
  {
    function Address(base: Reg, off: nat): u32 { Wrap(a[base] + off) }

    function SetReg(r: Reg, w: u32): State { this.(a := a[r := w]) }

    function SetSpecial(x: SpecialReg, w: u32): State { this.(sr := Assign(sr, x, w)) }
  }

  function Step(s: State, i: Instr): State {
    match i
    case L32i(r, base, off) => s.SetReg(r, Load32(s.mem, s.Address(base, off)))
    case S32i(r, base, off) => s.(mem := Store(s.mem, s.Address(base, off), s.a[r], 4))
    case L16ui(r, base, off) => s.SetReg(r, Load16(s.mem, s.Address(base, off)))
    case S16i(r, base, off) => s.(mem := Store(s.mem, s.Address(base, off), s.a[r], 2))
    case Lsi(f, base, off) => s.(f := s.f[f := Load32(s.mem, s.Address(base, off))])
    case Ssi(f, base, off) => s.(mem := Store(s.mem, s.Address(base, off), s.f[f], 4))
    case Rsr(r, sr) => s.SetReg(r, s.sr(sr))
    case Wsr(r, sr) => s.SetSpecial(sr, s.a[r])
    case Movi(r, imm) => s.SetReg(r, imm)
    case Rsync => s
    case Beqz(_, _) => s
    case BbciL0(_, _) => s
  }

  function NextPc(s: State, i: Instr, pc: nat): (next: nat)
    ensures next > pc
  {
    match i
    case Beqz(r, target) => if s.a[r] == 0 && target > pc then target else pc + 1
    case BbciL0(r, target) => if s.a[r] % 2 == 0 && target > pc then target else pc + 1
    case _ => pc + 1
  }

  /** Runs `code` from index `pc` to its end. */
  function Exec(s: State, code: seq<Instr>, pc: nat): State
    decreases if pc < |code| then |code| - pc else 0
  {
    if pc >= |code| then s else Exec(Step(s, code[pc]), code, NextPc(s, code[pc], pc))
  }

  /** The register file and the memory, changed in place by one instruction after another. */
  class Core {
    var a: Registers
    var f: Registers
    var sr: SpecialReg -> u32
    var mem: Memory

    function Now(): State
      reads this
    {
      State(a, f, sr, mem)
    }

    constructor (s: State)
      ensures Now() == s
    {
      a, f, sr, mem := s.a, s.f, s.sr, s.mem;
    }

    method Execute(i: Instr)
      modifies this
      ensures Now() == Step(old(Now()), i)
    {
      hide Wrap, Load32, Load16, Store;
      match i
      case L32i(r, base, off) => a := a[r := Load32(mem, Wrap(a[base] + off))];
      case S32i(r, base, off) => mem := Store(mem, Wrap(a[base] + off), a[r], 4);
      case L16ui(r, base, off) => a := a[r := Load16(mem, Wrap(a[base] + off))];
      case S16i(r, base, off) => mem := Store(mem, Wrap(a[base] + off), a[r], 2);
      case Lsi(d, base, off) => f := f[d := Load32(mem, Wrap(a[base] + off))];
      case Ssi(d, base, off) => mem := Store(mem, Wrap(a[base] + off), f[d], 4);
      case Rsr(r, x) => a := a[r := sr(x)];
      case Wsr(r, x) => sr := Assign(sr, x, a[r]);
      case Movi(r, imm) => a := a[r := imm];
      case _ =>
    }

    method Run(code: seq<Instr>)
      modifies this
      ensures Now() == Exec(old(Now()), code, 0)
    {
      var pc := 0;
      while pc < |code|
        invariant Exec(Now(), code, pc) == Exec(old(Now()), code, 0)
        decreases |code| - pc
      {
        var next := NextPc(Now(), code[pc], pc);
        Execute(code[pc]);
        pc := next;
      }
    }
  }

  // The macros.

  function PushInt(b: Reg): (code: seq<Instr>)
    ensures |code| == 26
    ensures forall i: Reg :: code[i] == S32i(i, b, OffA(i))
  {
    seq(16, i requires 0 <= i < 16 => S32i(i, b, OffA(i)))
    + [Rsr(3, SAR), S32i(3, b, OFF_SAR),
       Rsr(3, LBEG), S32i(3, b, OFF_LBEG),
       Rsr(3, LEND), S32i(3, b, OFF_LEND),
       Rsr(3, LCOUNT), S32i(3, b, OFF_LCOUNT),
       Rsr(3, PS), S32i(3, b, OFF_PS)]
  }

  function PushFpu(b: Reg): (code: seq<Instr>)
    ensures |code| == 25
    ensures forall i: Reg :: code[9 + i] == Ssi(i, b, OffF(i))
  {
    [Rsr(3, CPENABLE), Beqz(3, 51),
     S16i(3, b, OFF_CPSTORED), S16i(3, b, OFF_CPENABLE),
     BbciL0(3, 51),
     Rsr(3, FCR), S32i(3, b, OFF_FCR),
     Rsr(3, FSR), S32i(3, b, OFF_FSR)]
    + seq(16, i requires 0 <= i < 16 => Ssi(i, b, OffF(i)))
  }

  /** PUSH_ALL_REG with base register `b`. */
  function PushAllReg(fpu: bool, b: Reg): seq<Instr> {
    PushInt(b) + (if fpu then PushFpu(b) else [])
  }

  function PopFpu(b: Reg): (code: seq<Instr>)
    ensures |code| == 27
    ensures forall i: Reg :: code[9 + i] == Lsi(i, b, OffF(i))
  {
    [L16ui(3, b, OFF_CPENABLE), Wsr(3, CPENABLE), Rsync,
     L16ui(3, b, OFF_CPSTORED), BbciL0(3, 25),
     L32i(3, b, OFF_FCR), Wsr(3, FCR),
     L32i(3, b, OFF_FSR), Wsr(3, FSR)]
    + seq(16, i requires 0 <= i < 16 => Lsi(i, b, OffF(i)))
    + [Movi(4, 0), S16i(4, b, OFF_CPSTORED)]
  }

  function PopInt(b: Reg, pc: SpecialReg, pstate: SpecialReg): (code: seq<Instr>)
    ensures |code| == 28
    ensures forall i: Reg :: 3 <= i ==> code[6 + i] == L32i(i, b, OffA(i))
  {
    [L32i(3, b, OFF_LBEG), L32i(4, b, OFF_LEND), Wsr(3, LBEG),
     L32i(3, b, OFF_LCOUNT), Wsr(4, LEND), Wsr(3, LCOUNT),
     L32i(3, b, OFF_SAR), L32i(1, b, OffA(1)), Wsr(3, SAR)]
    + seq(13, i requires 0 <= i < 13 => L32i(3 + i, b, OffA(3 + i)))
    + [L32i(0, b, OFF_PS), Wsr(0, pstate),
       L32i(0, b, OFF_PC), Wsr(0, pc),
       L32i(0, b, OffA(0)), L32i(2, b, OffA(2))]
  }

  /** POP_ALL_REG with base register `b` and the registers its PC and PState arguments name. */
  function PopAllReg(fpu: bool, b: Reg, pc: SpecialReg, pstate: SpecialReg): seq<Instr> {
    (if fpu then PopFpu(b) else []) + PopInt(b, pc, pstate)
  }

  // The frame layout.

  /** The byte sizes of the fields of the C structure TaskContext, in order, with or without the FPU fields. */
  function FieldSizes(fpu: bool): (sizes: seq<nat>)
  {
    seq(24, _ => 4) + (if fpu then [4, 2, 2, 4, 4] + seq(16, _ => 4) else []) + seq(4, _ => 4)
  }

  /** The offset of field `k` when the fields are laid out without padding. */
  function FieldOffset(sizes: seq<nat>, k: nat): nat
    requires k <= |sizes|
  {
    if k == 0 then 0 else FieldOffset(sizes, k - 1) + sizes[k - 1]
  }

  lemma {:induction false} UniformFields(sizes: seq<nat>, at: nat, k: nat)
    requires at + k <= |sizes| && forall j :: at <= j < at + k ==> sizes[j] == 4
    ensures FieldOffset(sizes, at + k) == FieldOffset(sizes, at) + 4 * k
  {
    if k > 0 {
      UniformFields(sizes, at, k - 1);
    }
  }

  lemma FieldSizesAre(fpu: bool)
    ensures var z := FieldSizes(fpu);
      && |z| == (if fpu then 49 else 28)
      && (forall k :: 0 <= k < |z| ==> z[k] == if fpu && (k == 25 || k == 26) then 2 else 4)
  {
  }

  /**
   The offsets the macros use are those of the structure's fields: pc, ps, regA[16], sar, excCause, excVaddr, lbeg,
   lend, lcount, then temp, cpenable, cpstored, fcr, fsr, regF[16], and four reserved words up to CONTEXT_SIZE.
   */
  lemma OffsetsMatchStructure(fpu: bool, i: Reg)
    ensures var z := FieldSizes(fpu);
      && FieldOffset(z, 0) == OFF_PC && FieldOffset(z, 1) == OFF_PS && FieldOffset(z, 2 + i) == OffA(i)
      && FieldOffset(z, 18) == OFF_SAR && FieldOffset(z, 21) == OFF_LBEG && FieldOffset(z, 22) == OFF_LEND
      && FieldOffset(z, 23) == OFF_LCOUNT && FieldOffset(z, |z|) == ContextSize(fpu)
      && (fpu ==>
            && FieldOffset(z, 25) == OFF_CPENABLE && FieldOffset(z, 26) == OFF_CPSTORED
            && FieldOffset(z, 27) == OFF_FCR && FieldOffset(z, 28) == OFF_FSR && FieldOffset(z, 29 + i) == OffF(i))
  {
    var z := FieldSizes(fpu);
    FieldSizesAre(fpu);
    hide FieldSizes;
    UniformFields(z, 0, 1);
    UniformFields(z, 0, 2 + i);
    UniformFields(z, 0, 18);
    UniformFields(z, 0, 21);
    UniformFields(z, 0, 22);
    UniformFields(z, 0, 23);
    UniformFields(z, 0, 24);
    if fpu {
      assert FieldOffset(z, 25) == 100;
      assert FieldOffset(z, 27) == 104;
      assert FieldOffset(z, 29) == 112;
      UniformFields(z, 29, i);
      UniformFields(z, 29, |z| - 29);
    } else {
      UniformFields(z, 24, |z| - 24);
    }
  }
}
