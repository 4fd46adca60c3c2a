/**
 What a save followed by a restore does: the integer part for either base register the restore can use, and the
 lazily saved floating-point part over any run of saves and restores on one frame.
 */
module ContextRoundTrip {
  import opened Machine
  import opened FrameMemory
  import opened TaskContext

  // The integer part.

  ghost predicate SavedRegs(m: Memory, fa: u32, a: Registers) {
    forall i: Reg :: Slot(m, fa, OffA(i)) == a[i]
  }

  ghost predicate SavedSpecials(m: Memory, fa: u32, s: State) {
    && Slot(m, fa, OFF_SAR) == s.sr(SAR) && Slot(m, fa, OFF_LBEG) == s.sr(LBEG) && Slot(m, fa, OFF_LEND) == s.sr(LEND)
    && Slot(m, fa, OFF_LCOUNT) == s.sr(LCOUNT) && Slot(m, fa, OFF_PS) == s.sr(PS)
  }

  lemma SavedRegsKept(m: Memory, n: Memory, fa: u32, a: Registers, lo: nat, hi: nat)
    requires SavedRegs(m, fa, a) && SameOutside(m, n, fa, lo, hi) && (hi <= 8 || 72 <= lo)
    ensures SavedRegs(n, fa, a)
  {
    forall i: Reg
      ensures Slot(n, fa, OffA(i)) == a[i]
    {
      SlotOutside(m, n, fa, lo, hi, OffA(i));
    }
  }

  lemma {:induction false} SaveRegs(s: State, code: seq<Instr>, b: Reg, k: nat) returns (t: State)
    requires k <= 16 <= |code| && forall i: Reg :: code[i] == S32i(i, b, OffA(i))
    ensures Exec(s, code, k) == Exec(t, code, 16)
    ensures t == s.(mem := t.mem) && SameOutside(s.mem, t.mem, s.a[b], 8 + 4 * k, 72)
    ensures forall i: Reg :: k <= i ==> Slot(t.mem, s.a[b], OffA(i)) == s.a[i]
    decreases 16 - k
  {
    hide Wrap, Load32, Load16, Store;
    if k == 16 {
      t := s;
    } else {
      var s1 := Step(s, code[k]);
      StoreReads(s.mem, s.a[b], OffA(k), s.a[k]);
      StoreKeeps(s.mem, s.a[b], OffA(k), s.a[k], 4);
      t := SaveRegs(s1, code, b, k + 1);
      SlotOutside(s1.mem, t.mem, s.a[b], 8 + 4 * (k + 1), 72, OffA(k));
    }
  }

  /** One special register saved through a3. */
  lemma SaveSpecial(s: State, code: seq<Instr>, b: Reg, pc: nat, x: SpecialReg, off: nat) returns (t: State)
    requires pc + 1 < |code| && code[pc] == Rsr(3, x) && code[pc + 1] == S32i(3, b, off) && b != 3 && off < 192
    ensures Exec(s, code, pc) == Exec(t, code, pc + 2)
    ensures t == s.(a := s.a[3 := s.sr(x)], mem := t.mem)
    ensures Slot(t.mem, s.a[b], off) == s.sr(x) && SameOutside(s.mem, t.mem, s.a[b], off, off + 4)
  {
    hide Wrap, Load32, Load16, Store;
    var s1 := Step(s, code[pc]);
    t := Step(s1, code[pc + 1]);
    assert Exec(s1, code, pc + 1) == Exec(t, code, pc + 2);
    StoreReads(s.mem, s.a[b], off, s.sr(x));
    StoreKeeps(s.mem, s.a[b], off, s.sr(x), 4);
  }

  lemma PushIntCode(code: seq<Instr>, b: Reg)
    requires 26 <= |code| && code[..26] == PushInt(b)
    ensures forall i: Reg :: code[i] == S32i(i, b, OffA(i))
    ensures code[16] == Rsr(3, SAR) && code[17] == S32i(3, b, OFF_SAR)
    ensures code[18] == Rsr(3, LBEG) && code[19] == S32i(3, b, OFF_LBEG)
    ensures code[20] == Rsr(3, LEND) && code[21] == S32i(3, b, OFF_LEND)
    ensures code[22] == Rsr(3, LCOUNT) && code[23] == S32i(3, b, OFF_LCOUNT)
    ensures code[24] == Rsr(3, PS) && code[25] == S32i(3, b, OFF_PS)
  {
    forall i: nat | i < 26
      ensures code[i] == PushInt(b)[i]
    {
      assert code[i] == code[..26][i];
    }
  }

  /** The integer part of a save fills the frame slots and writes nothing outside [4, 96). */
  lemma PushIntEffect(s: State, code: seq<Instr>, b: Reg) returns (t: State)
    requires 26 <= |code| && code[..26] == PushInt(b) && b != 3
    ensures Exec(s, code, 0) == Exec(t, code, 26)
    ensures t == s.(a := s.a[3 := s.sr(PS)], mem := t.mem)
    ensures SavedRegs(t.mem, s.a[b], s.a) && SavedSpecials(t.mem, s.a[b], s)
    ensures SameOutside(s.mem, t.mem, s.a[b], 4, 96)
  {
    hide Wrap, Load32, Load16, Store, PushInt, Exec, Step;
    var fa := s.a[b];
    PushIntCode(code, b);
    var t0 := SaveRegs(s, code, b, 0);
    var t1 := SaveSpecial(t0, code, b, 16, SAR, OFF_SAR);
    SavedRegsKept(t0.mem, t1.mem, fa, s.a, OFF_SAR, OFF_SAR + 4);
    var t2 := SaveSpecial(t1, code, b, 18, LBEG, OFF_LBEG);
    SavedRegsKept(t1.mem, t2.mem, fa, s.a, OFF_LBEG, OFF_LBEG + 4);
    var t3 := SaveSpecial(t2, code, b, 20, LEND, OFF_LEND);
    SavedRegsKept(t2.mem, t3.mem, fa, s.a, OFF_LEND, OFF_LEND + 4);
    var t4 := SaveSpecial(t3, code, b, 22, LCOUNT, OFF_LCOUNT);
    SavedRegsKept(t3.mem, t4.mem, fa, s.a, OFF_LCOUNT, OFF_LCOUNT + 4);
    t := SaveSpecial(t4, code, b, 24, PS, OFF_PS);
    SavedRegsKept(t4.mem, t.mem, fa, s.a, OFF_PS, OFF_PS + 4);
    SpecialsKept(t1.mem, t2.mem, t3.mem, t4.mem, t.mem, fa);
  }

  /** Later special-register stores leave the earlier slots alone. */
  lemma SpecialsKept(m1: Memory, m2: Memory, m3: Memory, m4: Memory, m5: Memory, fa: u32)
    requires SameOutside(m1, m2, fa, OFF_LBEG, OFF_LBEG + 4) && SameOutside(m2, m3, fa, OFF_LEND, OFF_LEND + 4)
    requires SameOutside(m3, m4, fa, OFF_LCOUNT, OFF_LCOUNT + 4) && SameOutside(m4, m5, fa, OFF_PS, OFF_PS + 4)
    ensures Slot(m5, fa, OFF_SAR) == Slot(m1, fa, OFF_SAR) && Slot(m5, fa, OFF_LBEG) == Slot(m2, fa, OFF_LBEG)
    ensures Slot(m5, fa, OFF_LEND) == Slot(m3, fa, OFF_LEND) && Slot(m5, fa, OFF_LCOUNT) == Slot(m4, fa, OFF_LCOUNT)
  {
    SlotOutside(m1, m2, fa, OFF_LBEG, OFF_LBEG + 4, OFF_SAR);
    SameOutsideTrans(m2, m3, m4, fa, OFF_LEND, OFF_LEND + 4, OFF_LCOUNT, OFF_LCOUNT + 4);
    SlotOutside(m2, m4, fa, OFF_LEND, OFF_LCOUNT + 4, OFF_SAR);
    SlotOutside(m2, m4, fa, OFF_LEND, OFF_LCOUNT + 4, OFF_LBEG);
    SlotOutside(m3, m4, fa, OFF_LCOUNT, OFF_LCOUNT + 4, OFF_LEND);
    SlotOutside(m4, m5, fa, OFF_PS, OFF_PS + 4, OFF_SAR);
    SlotOutside(m4, m5, fa, OFF_PS, OFF_PS + 4, OFF_LBEG);
    SlotOutside(m4, m5, fa, OFF_PS, OFF_PS + 4, OFF_LEND);
    SlotOutside(m4, m5, fa, OFF_PS, OFF_PS + 4, OFF_LCOUNT);
  }

  lemma {:induction false} LoadRegs(s: State, code: seq<Instr>, at: nat, b: Reg, k: nat) returns (t: State)
    requires 3 <= k <= 16 && at + 22 <= |code| && b < 3
    requires forall i: Reg :: 3 <= i ==> code[at + 6 + i] == L32i(i, b, OffA(i))
    ensures Exec(s, code, at + 6 + k) == Exec(t, code, at + 22)
    ensures t == s.(a := t.a) && t.a[..k] == s.a[..k]
    ensures forall i: Reg :: k <= i ==> t.a[i] == Slot(s.mem, s.a[b], OffA(i))
    decreases 16 - k
  {
    hide Wrap, Load32, Load16, Store;
    if k == 16 {
      t := s;
    } else {
      var i: Reg := k;
      assert code[at + 6 + i] == L32i(i, b, OffA(i));
      var s1 := Step(s, code[at + 6 + k]);
      assert s1 == s.SetReg(i, Slot(s.mem, s.a[b], OffA(i)));
      hide Step, Slot;
      t := LoadRegs(s1, code, at, b, k + 1);
      assert t.a[k] == t.a[..k + 1][k] == s1.a[k];
      assert t.a[..k] == t.a[..k + 1][..k];
    }
  }

  predicate MacroTargets(pc: SpecialReg, pstate: SpecialReg) {
    pc != pstate && {pc, pstate} !! {SAR, LBEG, LEND, LCOUNT, CPENABLE, FCR, FSR}
  }

  function ThreeSteps(s: State, code: seq<Instr>, pc: nat): State
    requires pc + 3 <= |code|
  {
    Step(Step(Step(s, code[pc]), code[pc + 1]), code[pc + 2])
  }

  predicate Straight(i: Instr) {
    !i.Beqz? && !i.BbciL0?
  }

  lemma RunThree(s: State, code: seq<Instr>, pc: nat)
    requires pc + 3 <= |code| && Straight(code[pc]) && Straight(code[pc + 1]) && Straight(code[pc + 2])
    ensures Exec(s, code, pc) == Exec(ThreeSteps(s, code, pc), code, pc + 3)
  {
    hide Wrap, Load32, Load16, Store, Step;
    var s1 := Step(s, code[pc]);
    assert Exec(s, code, pc) == Exec(s1, code, pc + 1);
    var s2 := Step(s1, code[pc + 1]);
    assert Exec(s1, code, pc + 1) == Exec(s2, code, pc + 2);
  }

  /** The special registers a restore loads from the frame at `fa` before it changes its base. */
  function LoopSpecial(s: State, fa: u32, x: SpecialReg): u32 {
    if x == SAR then Slot(s.mem, fa, OFF_SAR) else if x == LBEG then Slot(s.mem, fa, OFF_LBEG)
    else if x == LEND then Slot(s.mem, fa, OFF_LEND) else if x == LCOUNT then Slot(s.mem, fa, OFF_LCOUNT)
    else s.sr(x)
  }

  /** The special registers a restore loads last. */
  function TailSpecial(s: State, fa: u32, pc: SpecialReg, pstate: SpecialReg, x: SpecialReg): u32 {
    if x == pc then Slot(s.mem, fa, OFF_PC) else if x == pstate then Slot(s.mem, fa, OFF_PS) else s.sr(x)
  }

  lemma PopLoopsCode(code: seq<Instr>, at: nat, b: Reg, pc: SpecialReg, pstate: SpecialReg)
    requires at + 28 == |code| && code[at..] == PopInt(b, pc, pstate)
    ensures code[at] == L32i(3, b, OFF_LBEG) && code[at + 1] == L32i(4, b, OFF_LEND) && code[at + 2] == Wsr(3, LBEG)
    ensures code[at + 3] == L32i(3, b, OFF_LCOUNT) && code[at + 4] == Wsr(4, LEND) && code[at + 5] == Wsr(3, LCOUNT)
    ensures code[at + 6] == L32i(3, b, OFF_SAR) && code[at + 7] == L32i(1, b, OffA(1)) && code[at + 8] == Wsr(3, SAR)
  {
    forall i: nat | i < 9
      ensures code[at + i] == PopInt(b, pc, pstate)[i]
    {
      assert code[at + i] == code[at..][i];
    }
  }

  /** The loop registers, SAR and a1, read before the base register can change. */
  lemma PopLoops(s: State, code: seq<Instr>, at: nat, b: Reg, pc: SpecialReg, pstate: SpecialReg) returns (t: State)
    requires at + 28 == |code| && code[at..] == PopInt(b, pc, pstate) && (b == 1 || b == 2) && MacroTargets(pc, pstate)
    ensures Exec(s, code, at) == Exec(t, code, at + 9)
    ensures t == s.(a := t.a, sr := t.sr)
    ensures t.a[0] == s.a[0] && t.a[2] == s.a[2] && t.a[1] == Slot(s.mem, s.a[b], OffA(1))
    ensures forall x :: t.sr(x) == LoopSpecial(s, s.a[b], x)
  {
    hide Wrap, Load32, Load16, Store;
    hide PopInt, Exec;
    PopLoopsCode(code, at, b, pc, pstate);
    RunThree(s, code, at);
    var s3 := ThreeSteps(s, code, at);
    RunThree(s3, code, at + 3);
    var s6 := ThreeSteps(s3, code, at + 3);
    RunThree(s6, code, at + 6);
    t := ThreeSteps(s6, code, at + 6);
  }

  /** The last six instructions: PS, PC, a0 and, last of all, a2. */
  lemma PopTail(s: State, code: seq<Instr>, at: nat, b: Reg, pc: SpecialReg, pstate: SpecialReg) returns (t: State)
    requires at + 28 == |code| && code[at..] == PopInt(b, pc, pstate) && (b == 1 || b == 2) && MacroTargets(pc, pstate)
    ensures Exec(s, code, at + 22) == t
    ensures t == s.(a := s.a[0 := Slot(s.mem, s.a[b], OffA(0))][2 := Slot(s.mem, s.a[b], OffA(2))], sr := t.sr)
    ensures forall x :: t.sr(x) == TailSpecial(s, s.a[b], pc, pstate, x)
  {
    hide Wrap, Load32, Load16, Store;
    forall i: nat | i < 28
      ensures code[at + i] == PopInt(b, pc, pstate)[i]
    {
      assert code[at + i] == code[at..][i];
    }
    RunThree(s, code, at + 22);
    var s3 := ThreeSteps(s, code, at + 22);
    RunThree(s3, code, at + 25);
    t := ThreeSteps(s3, code, at + 25);
  }

  /**
   What the integer part of a restore leaves: with base a2 every register comes from the frame at `fa`; with base
   a1 the base itself is replaced half way, and what follows comes from the frame the A1 slot points to.
   */
  ghost predicate IntRestored(s: State, t: State, b: Reg, pc: SpecialReg, pstate: SpecialReg) {
    var fa := s.a[b];
    var va := if b == 1 then Slot(s.mem, fa, OffA(1)) else fa;
    && t == s.(a := t.a, sr := t.sr)
    && (forall i: Reg :: t.a[i] == Slot(s.mem, if i == 1 then fa else va, OffA(i)))
    && (forall x :: t.sr(x) ==
          if x == pc || x == pstate then TailSpecial(s, va, pc, pstate, x) else LoopSpecial(s, fa, x))
  }

  /** The integer part of a restore from base a1 or a2. */
  lemma PopIntEffect(s: State, code: seq<Instr>, at: nat, b: Reg, pc: SpecialReg, pstate: SpecialReg) returns (t: State)
    requires at + 28 == |code| && code[at..] == PopInt(b, pc, pstate) && (b == 1 || b == 2) && MacroTargets(pc, pstate)
    ensures Exec(s, code, at) == t && IntRestored(s, t, b, pc, pstate)
  {
    hide Wrap, Load32, Load16, Store;
    forall i: Reg | 3 <= i
      ensures code[at + 6 + i] == L32i(i, b, OffA(i))
    {
      assert code[at + 6 + i] == code[at..][6 + i];
    }
    var t1 := PopLoops(s, code, at, b, pc, pstate);
    var t2 := LoadRegs(t1, code, at, b, 3);
    forall i: Reg | i < 3
      ensures t2.a[i] == t1.a[i]
    {
      assert t2.a[i] == t2.a[..3][i] == t1.a[i];
    }
    t := PopTail(t2, code, at, b, pc, pstate);
  }

  // The floating-point part.

  ghost predicate SavedFloats(m: Memory, fa: u32, s: State) {
    && Slot(m, fa, OFF_FCR) == s.sr(FCR) && Slot(m, fa, OFF_FSR) == s.sr(FSR)
    && forall i: Reg :: Slot(m, fa, OffF(i)) == s.f[i]
  }

  lemma {:induction false} SaveFloats(s: State, code: seq<Instr>, b: Reg, k: nat) returns (t: State)
    requires k <= 16 && |code| == 51 && forall i: Reg :: code[35 + i] == Ssi(i, b, OffF(i))
    ensures Exec(s, code, 35 + k) == t
    ensures t == s.(mem := t.mem) && SameOutside(s.mem, t.mem, s.a[b], 112 + 4 * k, 176)
    ensures forall i: Reg :: k <= i ==> Slot(t.mem, s.a[b], OffF(i)) == s.f[i]
    decreases 16 - k
  {
    hide Wrap, Load32, Load16, Store;
    if k == 16 {
      t := s;
    } else {
      var i: Reg := k;
      assert code[35 + i] == Ssi(i, b, OffF(i));
      var s1 := Step(s, code[35 + k]);
      StoreReads(s.mem, s.a[b], OffF(k), s.f[k]);
      StoreKeeps(s.mem, s.a[b], OffF(k), s.f[k], 4);
      t := SaveFloats(s1, code, b, k + 1);
      SlotOutside(s1.mem, t.mem, s.a[b], 112 + 4 * (k + 1), 176, OffF(k));
    }
  }

  lemma PushFpuCode(b: Reg)
    ensures var code := PushAllReg(true, b);
      && |code| == 51 && code[..26] == PushInt(b)
      && code[26] == Rsr(3, CPENABLE) && code[27] == Beqz(3, 51)
      && code[28] == S16i(3, b, OFF_CPSTORED) && code[29] == S16i(3, b, OFF_CPENABLE) && code[30] == BbciL0(3, 51)
      && code[31] == Rsr(3, FCR) && code[32] == S32i(3, b, OFF_FCR)
      && code[33] == Rsr(3, FSR) && code[34] == S32i(3, b, OFF_FSR)
      && forall i: Reg :: code[35 + i] == Ssi(i, b, OffF(i))
  {
    var code := PushAllReg(true, b);
    forall i: Reg
      ensures code[35 + i] == Ssi(i, b, OffF(i))
    {
      assert code[35 + i] == PushFpu(b)[9 + i];
    }
  }

  /** The part of a save behind its second branch. */
  lemma PushFloats(s: State, b: Reg) returns (t: State)
    requires b != 3
    ensures Exec(s, PushAllReg(true, b), 31) == t
    ensures t == s.(a := s.a[3 := t.a[3]], mem := t.mem) && SameOutside(s.mem, t.mem, s.a[b], 104, 176)
    ensures SavedFloats(t.mem, s.a[b], s)
  {
    hide Wrap, Load32, Load16, Store, PushAllReg;
    var code := PushAllReg(true, b);
    PushFpuCode(b);
    var t1 := SaveSpecial(s, code, b, 31, FCR, OFF_FCR);
    var t2 := SaveSpecial(t1, code, b, 33, FSR, OFF_FSR);
    t := SaveFloats(t2, code, b, 0);
    SlotOutside(t1.mem, t2.mem, s.a[b], OFF_FSR, OFF_FSR + 4, OFF_FCR);
    SlotOutside(t2.mem, t.mem, s.a[b], 112, 176, OFF_FCR);
    SlotOutside(t2.mem, t.mem, s.a[b], 112, 176, OFF_FSR);
  }

  /** The two half-word stores between the branches. */
  lemma PushMarks(s: State, b: Reg) returns (t: State)
    requires b != 3
    ensures Exec(s, PushAllReg(true, b), 28) == Exec(t, PushAllReg(true, b), 30)
    ensures t == s.(mem := t.mem) && SameOutside(s.mem, t.mem, s.a[b], 100, 104)
    ensures HalfSlot(t.mem, s.a[b], OFF_CPSTORED) == s.a[3] % 0x1_0000 == HalfSlot(t.mem, s.a[b], OFF_CPENABLE)
  {
    hide Wrap, Load32, Load16, Store, PushAllReg;
    var code := PushAllReg(true, b);
    PushFpuCode(b);
    var t1 := Step(s, code[28]);
    t := Step(t1, code[29]);
    assert Exec(t1, code, 29) == Exec(t, code, 30);
    StoreReads(s.mem, s.a[b], OFF_CPSTORED, s.a[3]);
    StoreKeeps(s.mem, s.a[b], OFF_CPSTORED, s.a[3], 2);
    StoreReads(t1.mem, s.a[b], OFF_CPENABLE, s.a[3]);
    StoreKeeps(t1.mem, s.a[b], OFF_CPENABLE, s.a[3], 2);
    HalfOutside(t1.mem, t.mem, s.a[b], OFF_CPENABLE, OFF_CPENABLE + 2, OFF_CPSTORED);
  }

  /** The lazy part of a save: nothing when CPENABLE is 0, the floats only when its bit 0 is set. */
  lemma PushFpuEffect(s: State, b: Reg) returns (t: State)
    requires b != 3
    ensures Exec(s, PushAllReg(true, b), 26) == t
    ensures t == s.(a := s.a[3 := t.a[3]], mem := t.mem) && SameOutside(s.mem, t.mem, s.a[b], 100, 176)
    ensures var c := s.sr(CPENABLE); var fa := s.a[b];
      && (c == 0 ==> t.mem == s.mem)
      && (c != 0 ==> HalfSlot(t.mem, fa, OFF_CPSTORED) == c % 0x1_0000 == HalfSlot(t.mem, fa, OFF_CPENABLE))
      && (c % 2 == 1 ==> SavedFloats(t.mem, fa, s))
      && (c % 2 == 0 ==> SameOutside(s.mem, t.mem, fa, 100, 104))
  {
    hide Wrap, Load32, Load16, Store, PushAllReg;
    var code := PushAllReg(true, b);
    PushFpuCode(b);
    var t1 := Step(s, code[26]);
    assert Exec(s, code, 26) == Exec(t1, code, 27);
    if s.sr(CPENABLE) == 0 {
      t := t1;
      assert Exec(t1, code, 27) == Exec(t1, code, 51) == t1;
    } else {
      assert Exec(t1, code, 27) == Exec(t1, code, 28);
      var t2 := PushMarks(t1, b);
      if s.sr(CPENABLE) % 2 == 0 {
        t := t2;
        assert Exec(t2, code, 30) == Exec(t2, code, 51) == t2;
      } else {
        assert Exec(t2, code, 30) == Exec(t2, code, 31);
        t := PushFloats(t2, b);
        HalfOutside(t2.mem, t.mem, s.a[b], 104, 176, OFF_CPSTORED);
        HalfOutside(t2.mem, t.mem, s.a[b], 104, 176, OFF_CPENABLE);
      }
    }
  }

  lemma {:induction false} LoadFloats(s: State, code: seq<Instr>, b: Reg, k: nat) returns (t: State)
    requires k <= 16 && 27 <= |code| && forall i: Reg :: code[9 + i] == Lsi(i, b, OffF(i))
    ensures Exec(s, code, 9 + k) == Exec(t, code, 25)
    ensures t == s.(f := t.f) && t.f[..k] == s.f[..k]
    ensures forall i: Reg :: k <= i ==> t.f[i] == Slot(s.mem, s.a[b], OffF(i))
    decreases 16 - k
  {
    hide Wrap, Load32, Load16, Store;
    if k == 16 {
      t := s;
    } else {
      var i: Reg := k;
      assert code[9 + i] == Lsi(i, b, OffF(i));
      var s1 := Step(s, code[9 + k]);
      assert s1 == s.(f := s.f[i := Slot(s.mem, s.a[b], OffF(i))]);
      hide Step, Slot;
      t := LoadFloats(s1, code, b, k + 1);
      assert t.f[k] == t.f[..k + 1][k] == s1.f[k];
      assert t.f[..k] == t.f[..k + 1][..k];
    }
  }

  lemma PopFpuCode(b: Reg, pc: SpecialReg, pstate: SpecialReg)
    ensures var code := PopAllReg(true, b, pc, pstate);
      && |code| == 55 && code[27..] == PopInt(b, pc, pstate)
      && code[0] == L16ui(3, b, OFF_CPENABLE) && code[1] == Wsr(3, CPENABLE) && code[2] == Rsync
      && code[3] == L16ui(3, b, OFF_CPSTORED) && code[4] == BbciL0(3, 25)
      && code[5] == L32i(3, b, OFF_FCR) && code[6] == Wsr(3, FCR)
      && code[7] == L32i(3, b, OFF_FSR) && code[8] == Wsr(3, FSR)
      && code[25] == Movi(4, 0) && code[26] == S16i(4, b, OFF_CPSTORED)
      && forall i: Reg :: code[9 + i] == Lsi(i, b, OffF(i))
  {
    var code := PopAllReg(true, b, pc, pstate);
    forall i: Reg
      ensures code[9 + i] == Lsi(i, b, OffF(i))
    {
      assert code[9 + i] == PopFpu(b)[9 + i];
    }
  }

  /** Whether a restore finds the floats marked as stored. */
  predicate Marked(m: Memory, fa: u32) {
    HalfSlot(m, fa, OFF_CPSTORED) % 2 == 1
  }

  /** The special registers behind the lazy part of a restore. */
  function FpuSpecial(s: State, fa: u32, x: SpecialReg): u32 {
    if x == CPENABLE then HalfSlot(s.mem, fa, OFF_CPENABLE)
    else if x == FCR && Marked(s.mem, fa) then Slot(s.mem, fa, OFF_FCR)
    else if x == FSR && Marked(s.mem, fa) then Slot(s.mem, fa, OFF_FSR)
    else s.sr(x)
  }

  /** The loads between the branch and its target. */
  lemma PopFloats(s: State, b: Reg, pc: SpecialReg, pstate: SpecialReg) returns (t: State)
    requires b == 1 || b == 2
    ensures Exec(s, PopAllReg(true, b, pc, pstate), 5) == Exec(t, PopAllReg(true, b, pc, pstate), 25)
    ensures t.mem == s.mem && t.a == s.a[3 := t.a[3]]
    ensures t.sr(FCR) == Slot(s.mem, s.a[b], OFF_FCR) && t.sr(FSR) == Slot(s.mem, s.a[b], OFF_FSR)
    ensures forall x :: x != FCR && x != FSR ==> t.sr(x) == s.sr(x)
    ensures forall i: Reg :: t.f[i] == Slot(s.mem, s.a[b], OffF(i))
  {
    hide Wrap, Load32, Load16, Store, PopAllReg;
    var code := PopAllReg(true, b, pc, pstate);
    PopFpuCode(b, pc, pstate);
    RunThree(s, code, 5);
    var s3 := ThreeSteps(s, code, 5);
    var s4 := Step(s3, code[8]);
    assert Exec(s3, code, 8) == Exec(s4, code, 9);
    t := LoadFloats(s4, code, b, 0);
  }

  /** The loads of CPENABLE and CPSTORED, and the branch on bit 0. */
  lemma PopMarks(s: State, b: Reg, pc: SpecialReg, pstate: SpecialReg) returns (t: State)
    requires b == 1 || b == 2
    ensures Exec(s, PopAllReg(true, b, pc, pstate), 0)
         == Exec(t, PopAllReg(true, b, pc, pstate), if Marked(s.mem, s.a[b]) then 5 else 25)
    ensures t == s.(a := s.a[3 := t.a[3]], sr := t.sr)
    ensures forall x :: t.sr(x) == if x == CPENABLE then HalfSlot(s.mem, s.a[b], OFF_CPENABLE) else s.sr(x)
  {
    hide Wrap, Load32, Load16, Store, PopAllReg;
    var code := PopAllReg(true, b, pc, pstate);
    PopFpuCode(b, pc, pstate);
    RunThree(s, code, 0);
    var s3 := ThreeSteps(s, code, 0);
    t := Step(s3, code[3]);
    assert Exec(s3, code, 3) == Exec(t, code, 4);
    assert NextPc(t, code[4], 4) == if Marked(s.mem, s.a[b]) then 5 else 25;
  }

  /** The last two instructions of the lazy part: CPSTORED becomes 0. */
  lemma PopClear(s: State, b: Reg, pc: SpecialReg, pstate: SpecialReg) returns (t: State)
    requires b == 1 || b == 2
    ensures Exec(s, PopAllReg(true, b, pc, pstate), 25) == Exec(t, PopAllReg(true, b, pc, pstate), 27)
    ensures t == s.(a := s.a[4 := 0], mem := Store(s.mem, Wrap(s.a[b] + OFF_CPSTORED), 0, 2))
    ensures SameOutside(s.mem, t.mem, s.a[b], 102, 104) && HalfSlot(t.mem, s.a[b], OFF_CPSTORED) == 0
  {
    hide Wrap, Load32, Load16, Store, PopAllReg;
    var code := PopAllReg(true, b, pc, pstate);
    PopFpuCode(b, pc, pstate);
    var s1 := Step(s, code[25]);
    t := Step(s1, code[26]);
    assert Exec(s1, code, 26) == Exec(t, code, 27);
    StoreReads(s.mem, s.a[b], OFF_CPSTORED, 0);
    StoreKeeps(s.mem, s.a[b], OFF_CPSTORED, 0, 2);
  }

  /** What the lazy part of a restore leaves. */
  ghost predicate FpuRestored(s: State, t: State, b: Reg) {
    && t.a == s.a[3 := t.a[3]][4 := t.a[4]] && t.mem == Store(s.mem, Wrap(s.a[b] + OFF_CPSTORED), 0, 2)
    && (forall x :: t.sr(x) == FpuSpecial(s, s.a[b], x))
    && if Marked(s.mem, s.a[b]) then forall i: Reg :: t.f[i] == Slot(s.mem, s.a[b], OffF(i)) else t.f == s.f
  }

  /** The lazy part of a restore. */
  lemma PopFpuEffect(s: State, b: Reg, pc: SpecialReg, pstate: SpecialReg) returns (t: State)
    requires b == 1 || b == 2
    ensures Exec(s, PopAllReg(true, b, pc, pstate), 0) == Exec(t, PopAllReg(true, b, pc, pstate), 27)
    ensures FpuRestored(s, t, b)
  {
    hide Wrap, Load32, Load16, Store, PopAllReg, Exec, Slot, HalfSlot;
    var t1 := PopMarks(s, b, pc, pstate);
    if Marked(s.mem, s.a[b]) {
      t1 := PopFloats(t1, b, pc, pstate);
    }
    t := PopClear(t1, b, pc, pstate);
  }
}
