/**
 What the two macros guarantee together: which base registers work, what a save followed by a restore gives back,
 and how the lazily saved floating-point state behaves over a whole run.
 */
module ContextTheorems {
  import opened Machine
  import opened FrameMemory
  import opened TaskContext
  import opened ContextRoundTrip

  /** `n` holds what `m` holds at the frame offsets in [lo, hi). */
  ghost predicate FrameKept(m: Memory, n: Memory, fa: u32, lo: nat, hi: nat) {
    forall x: u32 :: lo <= Wrap(x - fa) < hi ==> n(x) == m(x)
  }

  lemma KeptSlot(m: Memory, n: Memory, fa: u32, lo: nat, hi: nat, off: nat)
    requires FrameKept(m, n, fa, lo, hi) && lo <= off && off + 2 <= hi <= 192
    ensures HalfSlot(n, fa, off) == HalfSlot(m, fa, off)
    ensures off + 4 <= hi ==> Slot(n, fa, off) == Slot(m, fa, off)
  {
    hide Wrap;
    Distance(fa, off, 0);
    Distance(fa, off, 1);
    Distance(fa, off, 2);
    Distance(fa, off, 3);
    WrapSmall(Wrap(fa + off));
  }

  /** Everything a save does, with or without the floating-point unit. */
  lemma PushEffect(fpu: bool, s: State, b: Reg)
    requires b != 3
    ensures var t := Exec(s, PushAllReg(fpu, b), 0); var fa := s.a[b]; var c := s.sr(CPENABLE);
      && t == s.(a := s.a[3 := t.a[3]], mem := t.mem)
      && SavedRegs(t.mem, fa, s.a) && SavedSpecials(t.mem, fa, s)
      && SameOutside(s.mem, t.mem, fa, 4, if fpu then 176 else 96)
      && (fpu && c == 0 ==> HalfSlot(t.mem, fa, OFF_CPSTORED) == HalfSlot(s.mem, fa, OFF_CPSTORED))
      && (fpu && c == 0 ==> HalfSlot(t.mem, fa, OFF_CPENABLE) == HalfSlot(s.mem, fa, OFF_CPENABLE))
      && (fpu && c != 0 ==> HalfSlot(t.mem, fa, OFF_CPSTORED) == c % 0x1_0000 == HalfSlot(t.mem, fa, OFF_CPENABLE))
      && (fpu && c % 2 == 1 ==> SavedFloats(t.mem, fa, s))
  {
    hide Wrap, Load32, Load16, Store, Exec, PushInt, PushFpu, Slot, HalfSlot;
    var code, fa := PushAllReg(fpu, b), s.a[b];
    var t1 := PushIntEffect(s, code, b);
    if fpu {
      var t := PushFpuEffect(t1, b);
      HalfOutside(s.mem, t1.mem, fa, 4, 96, OFF_CPSTORED);
      HalfOutside(s.mem, t1.mem, fa, 4, 96, OFF_CPENABLE);
      SavedRegsKept(t1.mem, t.mem, fa, s.a, 100, 176);
      SlotOutside(t1.mem, t.mem, fa, 100, 176, OFF_SAR);
      SlotOutside(t1.mem, t.mem, fa, 100, 176, OFF_LBEG);
      SlotOutside(t1.mem, t.mem, fa, 100, 176, OFF_LEND);
      SlotOutside(t1.mem, t.mem, fa, 100, 176, OFF_LCOUNT);
      SlotOutside(t1.mem, t.mem, fa, 100, 176, OFF_PS);
    } else {
      ExecEnd(t1, code);
    }
  }

  lemma ExecEnd(s: State, code: seq<Instr>)
    ensures Exec(s, code, |code|) == s
  {
  }

  /** The memory a restore of the integer part reads: with the FPU, CPSTORED has just been cleared. */
  function Cleared(fpu: bool, m: Memory, fa: u32): Memory {
    if fpu then Store(m, Wrap(fa + OFF_CPSTORED), 0, 2) else m
  }

  /** What a restore from base a1 or a2 in state `s` must leave. */
  ghost predicate Restored(fpu: bool, s: State, b: Reg, pc: SpecialReg, pstate: SpecialReg, t: State) {
    var fa := s.a[b];
    var m := Cleared(fpu, s.mem, fa);
    var va := if b == 1 then Slot(m, fa, OffA(1)) else fa;
    && t.mem == m
    && (forall i: Reg :: t.a[i] == Slot(m, if i == 1 then fa else va, OffA(i)))
    && t.sr(pc) == Slot(m, va, OFF_PC) && t.sr(pstate) == Slot(m, va, OFF_PS)
    && t.sr(SAR) == Slot(m, fa, OFF_SAR) && t.sr(LBEG) == Slot(m, fa, OFF_LBEG)
    && t.sr(LEND) == Slot(m, fa, OFF_LEND) && t.sr(LCOUNT) == Slot(m, fa, OFF_LCOUNT)
    && (fpu ==> forall x :: x in {CPENABLE, FCR, FSR} ==> t.sr(x) == FpuSpecial(s, fa, x))
    && (fpu && Marked(s.mem, fa) ==> forall i: Reg :: t.f[i] == Slot(s.mem, fa, OffF(i)))
    && (!fpu || !Marked(s.mem, fa) ==> t.f == s.f)
  }

  /** Everything a restore from base a1 or a2 does. */
  lemma PopEffect(fpu: bool, s: State, b: Reg, pc: SpecialReg, pstate: SpecialReg)
    requires (b == 1 || b == 2) && MacroTargets(pc, pstate)
    ensures Restored(fpu, s, b, pc, pstate, Exec(s, PopAllReg(fpu, b, pc, pstate), 0))
  {
    hide Wrap, Load32, Load16, Store, Exec, PopInt, PopFpu, Slot, HalfSlot;
    if fpu {
      PopWithFpu(s, b, pc, pstate);
    } else {
      var code := PopAllReg(false, b, pc, pstate);
      assert code[0..] == code == PopInt(b, pc, pstate);
      var t := PopIntEffect(s, code, 0, b, pc, pstate);
    }
  }

  lemma PopWithFpu(s: State, b: Reg, pc: SpecialReg, pstate: SpecialReg)
    requires (b == 1 || b == 2) && MacroTargets(pc, pstate)
    ensures Restored(true, s, b, pc, pstate, Exec(s, PopAllReg(true, b, pc, pstate), 0))
  {
    hide Wrap, Load32, Load16, Store, Exec, PopInt, PopFpu, Slot, HalfSlot, PopAllReg, FpuSpecial, Marked;
    hide Restored, IntRestored, FpuRestored;
    PopFpuCode(b, pc, pstate);
    var t1 := PopFpuEffect(s, b, pc, pstate);
    var t := PopIntEffect(t1, PopAllReg(true, b, pc, pstate), 27, b, pc, pstate);
    BothRestored(s, t1, t, b, pc, pstate);
  }

  lemma BothRestored(s: State, t1: State, t: State, b: Reg, pc: SpecialReg, pstate: SpecialReg)
    requires (b == 1 || b == 2) && MacroTargets(pc, pstate)
    requires FpuRestored(s, t1, b) && IntRestored(t1, t, b, pc, pstate)
    ensures Restored(true, s, b, pc, pstate, t)
  {
    hide Wrap, Load32, Load16, Store, Slot, HalfSlot, FpuSpecial, Marked;
  }

  /** The frame slots outside CPSTORED survive its clearing. */
  lemma ClearedSlot(fpu: bool, m: Memory, fa: u32, off: nat)
    requires off + 4 <= 102
    ensures Slot(Cleared(fpu, m, fa), fa, off) == Slot(m, fa, off)
  {
    hide Wrap, Store, Slot;
    if fpu {
      StoreKeeps(m, fa, OFF_CPSTORED, 0, 2);
      SlotOutside(m, Cleared(fpu, m, fa), fa, 102, 104, off);
    }
  }

  /**
   A save from any base but a3, then anything that keeps the frame from offset 4 on, then a restore with base a2:
   all sixteen registers, SAR, the loop registers and PS come back, and PC is loaded from its slot.
   */
  lemma SaveRestore(fpu: bool, s: State, pb: Reg, r: State, pc: SpecialReg, pstate: SpecialReg)
    requires pb != 3 && MacroTargets(pc, pstate) && r.a[2] == s.a[pb]
    requires FrameKept(Exec(s, PushAllReg(fpu, pb), 0).mem, r.mem, s.a[pb], 4, ContextSize(fpu))
    ensures var t := Exec(r, PopAllReg(fpu, 2, pc, pstate), 0);
      && t.a == s.a && t.sr(pstate) == s.sr(PS) && t.sr(pc) == Slot(r.mem, s.a[pb], OFF_PC)
      && t.sr(SAR) == s.sr(SAR) && t.sr(LBEG) == s.sr(LBEG) && t.sr(LEND) == s.sr(LEND) && t.sr(LCOUNT) == s.sr(LCOUNT)
  {
    hide Wrap, Load32, Load16, Store, Exec, Slot, HalfSlot, PushAllReg, PopAllReg, Cleared;
    var fa, m := s.a[pb], Exec(s, PushAllReg(fpu, pb), 0).mem;
    PushEffect(fpu, s, pb);
    PopEffect(fpu, r, 2, pc, pstate);
    var t := Exec(r, PopAllReg(fpu, 2, pc, pstate), 0);
    forall i: Reg
      ensures t.a[i] == s.a[i]
    {
      KeptSlot(m, r.mem, fa, 4, ContextSize(fpu), OffA(i));
      ClearedSlot(fpu, r.mem, fa, OffA(i));
    }
    KeptSpecials(fpu, m, r.mem, fa);
    ClearedSlot(fpu, r.mem, fa, OFF_PC);
  }

  lemma KeptSpecials(fpu: bool, m: Memory, n: Memory, fa: u32)
    requires FrameKept(m, n, fa, 4, ContextSize(fpu))
    ensures var k := Cleared(fpu, n, fa);
      && Slot(k, fa, OFF_SAR) == Slot(m, fa, OFF_SAR) && Slot(k, fa, OFF_LBEG) == Slot(m, fa, OFF_LBEG)
      && Slot(k, fa, OFF_LEND) == Slot(m, fa, OFF_LEND) && Slot(k, fa, OFF_LCOUNT) == Slot(m, fa, OFF_LCOUNT)
      && Slot(k, fa, OFF_PS) == Slot(m, fa, OFF_PS)
  {
    hide Wrap, Store, Slot, HalfSlot, Cleared;
    KeptSlot(m, n, fa, 4, ContextSize(fpu), OFF_SAR);
    KeptSlot(m, n, fa, 4, ContextSize(fpu), OFF_LBEG);
    KeptSlot(m, n, fa, 4, ContextSize(fpu), OFF_LEND);
    KeptSlot(m, n, fa, 4, ContextSize(fpu), OFF_LCOUNT);
    KeptSlot(m, n, fa, 4, ContextSize(fpu), OFF_PS);
    ClearedSlot(fpu, n, fa, OFF_SAR);
    ClearedSlot(fpu, n, fa, OFF_LBEG);
    ClearedSlot(fpu, n, fa, OFF_LEND);
    ClearedSlot(fpu, n, fa, OFF_LCOUNT);
    ClearedSlot(fpu, n, fa, OFF_PS);
  }

  /** The slots a restore reads after it has replaced a1 hold the same words in the frames at `fa` and `va`. */
  ghost predicate FramesAgree(m: Memory, fa: u32, va: u32) {
    && Slot(m, va, OFF_PC) == Slot(m, fa, OFF_PC) && Slot(m, va, OFF_PS) == Slot(m, fa, OFF_PS)
    && forall i: Reg :: i != 1 ==> Slot(m, va, OffA(i)) == Slot(m, fa, OffA(i))
  }

  /** A restore with base a1 gives what base a2 gives exactly when those slots agree. */
  lemma RestoreFromA1(fpu: bool, r: State, pc: SpecialReg, pstate: SpecialReg)
    requires MacroTargets(pc, pstate)
    ensures var fa := r.a[1]; var t := Exec(r, PopAllReg(fpu, 1, pc, pstate), 0);
      var u := Exec(r.SetReg(2, fa), PopAllReg(fpu, 2, pc, pstate), 0);
      && t.sr(SAR) == u.sr(SAR) && t.sr(LBEG) == u.sr(LBEG) && t.sr(LEND) == u.sr(LEND) && t.sr(LCOUNT) == u.sr(LCOUNT)
      && ((t.a == u.a && t.sr(pc) == u.sr(pc) && t.sr(pstate) == u.sr(pstate))
          <==> FramesAgree(u.mem, fa, Slot(r.mem, fa, OffA(1))))
  {
    hide Wrap, Load32, Load16, Store, Exec, Slot, HalfSlot, PopAllReg, Cleared;
    var fa, r2 := r.a[1], r.SetReg(2, r.a[1]);
    PopEffect(fpu, r, 1, pc, pstate);
    PopEffect(fpu, r2, 2, pc, pstate);
    ClearedSlot(fpu, r.mem, fa, OffA(1));
    var t, u := Exec(r, PopAllReg(fpu, 1, pc, pstate), 0), Exec(r2, PopAllReg(fpu, 2, pc, pstate), 0);
    assert t.a == u.a <==> forall i: Reg :: i != 1 ==> t.a[i] == u.a[i] by {
      assert t.a[1] == u.a[1];
    }
  }

  /**
   A save with base a1, or with any base that holds the same address, stores that address as A1, so a restore with
   base a1 brings the context back.
   */
  lemma SaveRestoreOnStackPointer(fpu: bool, s: State, pb: Reg, r: State, pc: SpecialReg, pstate: SpecialReg)
    requires pb != 3 && s.a[pb] == s.a[1] && MacroTargets(pc, pstate) && r.a[1] == s.a[1]
    requires FrameKept(Exec(s, PushAllReg(fpu, pb), 0).mem, r.mem, s.a[1], 4, ContextSize(fpu))
    ensures var t := Exec(r, PopAllReg(fpu, 1, pc, pstate), 0);
      && t.a == s.a && t.sr(pstate) == s.sr(PS) && t.sr(pc) == Slot(r.mem, s.a[1], OFF_PC)
      && t.sr(SAR) == s.sr(SAR) && t.sr(LBEG) == s.sr(LBEG) && t.sr(LEND) == s.sr(LEND) && t.sr(LCOUNT) == s.sr(LCOUNT)
  {
    hide Wrap, Load32, Load16, Store, Exec, Slot, HalfSlot, PushAllReg, PopAllReg, Cleared;
    PushEffect(fpu, s, pb);
    SaveRestore(fpu, s, pb, r.SetReg(2, r.a[1]), pc, pstate);
    RestoreFromA1(fpu, r, pc, pstate);
    KeptSlot(Exec(s, PushAllReg(fpu, pb), 0).mem, r.mem, s.a[1], 4, ContextSize(fpu), OffA(1));
  }

  /** For every memory that saves `va` as A1 these slots agree exactly when `va` is the frame address. */
  lemma A1SlotMustBeFrameAddress(fa: u32, va: u32)
    ensures (forall m: Memory :: Slot(m, fa, OffA(1)) == va ==> FramesAgree(m, fa, va)) <==> va == fa
  {
    if va != fa {
      var m := DisagreeingMemory(fa, va);
    }
  }

  lemma DisagreeingMemory(fa: u32, va: u32) returns (m: Memory)
    requires va != fa
    ensures Slot(m, fa, OffA(1)) == va && !FramesAgree(m, fa, va)
  {
    hide Wrap, Store, Slot;
    var zero: Memory := (x: u32) => 0;
    var m0 := Store(zero, Wrap(fa + OffA(1)), va, 4);
    StoreReads(zero, fa, OffA(1), va);
    var there, other := Wrap(fa + OffA(15)), Wrap(va + OffA(15));
    DistinctSlots(fa, va, OffA(15));
    var c: Octet := if m0(other) == 0 then 1 else 0;
    m := (x: u32) => if x == there then c else m0(x);
    assert SameOutside(m0, m, fa, OffA(15), OffA(15) + 1) by {
      Distance(fa, OffA(15), 0);
      WrapSmall(Wrap(fa + OffA(15)));
    }
    SlotOutside(m0, m, fa, OffA(15), OffA(15) + 1, OffA(1));
    LowOctet(m, fa, OffA(15));
    LowOctet(m, va, OffA(15));
    var i: Reg := 15;
    assert Slot(m, va, OffA(i)) != Slot(m, fa, OffA(i));
  }

  lemma LowOctet(m: Memory, fa: u32, off: nat)
    ensures Slot(m, fa, off) % 0x100 == m(Wrap(fa + off))
  {
    hide Wrap;
  }

  lemma DistinctSlots(fa: u32, va: u32, off: nat)
    requires va != fa && off < 192
    ensures Wrap(fa + off) != Wrap(va + off)
  {
    WrapOnce(fa + off, 0 - off as int);
    WrapOnce(va + off, 0 - off as int);
    WrapSmall(fa);
    WrapSmall(va);
  }

  // Why a3 cannot be the base of a save.

  /** With base a3 the first special register replaces the base, and the word goes elsewhere. */
  lemma SaveSpecialThroughBase(s: State, code: seq<Instr>, pc: nat, x: SpecialReg, off: nat) returns (t: State)
    requires pc + 1 < |code| && code[pc] == Rsr(3, x) && code[pc + 1] == S32i(3, 3, off) && 4 <= off <= 92
    ensures Exec(s, code, pc) == Exec(t, code, pc + 2)
    ensures t == s.(a := s.a[3 := s.sr(x)], mem := t.mem) && SameOutside(s.mem, t.mem, s.sr(x), 4, 96)
  {
    hide Wrap, Load32, Load16, Store;
    var s1 := Step(s, code[pc]);
    t := Step(s1, code[pc + 1]);
    assert Exec(s1, code, pc + 1) == Exec(t, code, pc + 2);
    StoreKeeps(s.mem, s.sr(x), off, s.sr(x), 4);
  }

  /** a3 is the frame address, CPENABLE is 0, the other special registers hold `w`, and all memory is `c`. */
  function UniformState(fa: u32, w: u32, c: Octet): State {
    State(seq(16, _ => fa), seq(16, _ => 0), (x: SpecialReg) => if x == CPENABLE then 0 else w, (x: u32) => c)
  }

  /** The five special registers, all of which hold `w`, saved through base a3. */
  lemma SpecialsThroughBase(s: State, code: seq<Instr>, w: u32) returns (t: State)
    requires 26 <= |code| && code[..26] == PushInt(3) && forall x :: x != CPENABLE ==> s.sr(x) == w
    ensures Exec(s, code, 16) == Exec(t, code, 26)
    ensures t.sr == s.sr && SameOutside(s.mem, t.mem, w, 4, 96)
  {
    hide Wrap, Load32, Load16, Store, PushInt, Exec, Step;
    PushIntCode(code, 3);
    var t1 := SaveSpecialThroughBase(s, code, 16, SAR, OFF_SAR);
    var t2 := SaveSpecialThroughBase(t1, code, 18, LBEG, OFF_LBEG);
    var t3 := SaveSpecialThroughBase(t2, code, 20, LEND, OFF_LEND);
    var t4 := SaveSpecialThroughBase(t3, code, 22, LCOUNT, OFF_LCOUNT);
    t := SaveSpecialThroughBase(t4, code, 24, PS, OFF_PS);
  }

  lemma PushThroughA3(fpu: bool, fa: u32, w: u32, c: Octet) returns (m: Memory)
    ensures var t := Exec(UniformState(fa, w, c), PushAllReg(fpu, 3), 0);
      SameOutside(UniformState(fa, w, c).mem, m, fa, 8, 72) && SameOutside(m, t.mem, w, 4, 96)
  {
    hide Wrap, Load32, Load16, Store, PushInt, PushFpu, Exec, Step, SameOutside;
    var s, code := UniformState(fa, w, c), PushAllReg(fpu, 3);
    assert code[..26] == PushInt(3);
    PushIntCode(code, 3);
    var t0 := SaveRegs(s, code, 3, 0);
    var t := SpecialsThroughBase(t0, code, w);
    if fpu {
      NoFpuInUse(t, 3);
    } else {
      ExecEnd(t, code);
    }
    m := t0.mem;
  }

  /** With CPENABLE 0 the lazy part of a save stores nothing, whatever its base. */
  lemma NoFpuInUse(s: State, b: Reg)
    requires s.sr(CPENABLE) == 0
    ensures Exec(s, PushAllReg(true, b), 26).mem == s.mem
  {
    hide Wrap, Load32, Load16, Store, PushAllReg;
    var code := PushAllReg(true, b);
    PushFpuCode(b);
    var t := Step(s, code[26]);
    assert Exec(s, code, 26) == Exec(t, code, 27);
    assert Exec(t, code, 27) == Exec(t, code, 51) == t;
  }

  /** A distant base misses the SAR slot. */
  lemma FarFromSlot(fa: u32, k: nat)
    requires k < 4
    ensures !(4 <= Wrap(Wrap(fa + (OFF_SAR + k)) - Wrap(fa + 1024)) < 96)
    ensures !(8 <= Wrap(Wrap(fa + (OFF_SAR + k)) - fa) < 72)
  {
    WrapOnce(fa + 1024, Wrap(fa + (OFF_SAR + k)));
    WrapOnce(fa + (OFF_SAR + k), 0 - (fa + 1024));
    WrapOnce(fa + (OFF_SAR + k), 0 - fa as int);
    hide Wrap;
    WrapAround(OFF_SAR + k - 1024, 1);
    WrapSmall(OFF_SAR + k - 1024 + TWO_32);
    WrapSmall(OFF_SAR + k);
  }

  /** A save, with or without the FPU, works from every state exactly for the bases other than a3. */
  lemma PushBaseMustNotBeA3(fpu: bool, b: Reg, fa: u32)
    ensures (forall s: State :: s.a[b] == fa ==> SavedSpecials(Exec(s, PushAllReg(fpu, b), 0).mem, fa, s)) <==> b != 3
  {
    hide Exec, PushAllReg, SavedSpecials;
    if b != 3 {
      forall s: State | s.a[b] == fa
        ensures SavedSpecials(Exec(s, PushAllReg(fpu, b), 0).mem, fa, s)
      {
        PushEffect(fpu, s, b);
      }
    } else {
      var s := A3LosesSar(fpu, fa);
    }
  }

  lemma MissedOctet(m0: Memory, m1: Memory, m2: Memory, fa: u32, k: nat, c: Octet)
    requires SameOutside(m0, m1, fa, 8, 72) && SameOutside(m1, m2, Wrap(fa + 1024), 4, 96)
    requires k < 4 && forall x: u32 :: m0(x) == c
    ensures m2(Wrap(Wrap(fa + OFF_SAR) + k)) == c
  {
    hide Wrap;
    Distance(fa, OFF_SAR, k);
    FarFromSlot(fa, k);
  }

  lemma A3LosesSar(fpu: bool, fa: u32) returns (s: State)
    ensures s.a[3] == fa && !SavedSpecials(Exec(s, PushAllReg(fpu, 3), 0).mem, fa, s)
  {
    hide Wrap, Store, PushAllReg, Exec;
    var w := Wrap(fa + 1024);
    var c: Octet := if w == 0 then 1 else 0;
    s := UniformState(fa, w, c);
    var m := PushThroughA3(fpu, fa, w, c);
    var t := Exec(s, PushAllReg(fpu, 3), 0);
    MissedOctet(s.mem, m, t.mem, fa, 0, c);
    MissedOctet(s.mem, m, t.mem, fa, 1, c);
    MissedOctet(s.mem, m, t.mem, fa, 2, c);
    MissedOctet(s.mem, m, t.mem, fa, 3, c);
    WrapSmall(Wrap(fa + OFF_SAR));
    assert Slot(t.mem, fa, OFF_SAR) == if c == 0 then 0 else 0x101_0101;
  }

  // The floating-point state over a run.

  /** One save and the restore that follows it: the states in which each of them starts. */
  datatype Round = Round(saved: State, base: Reg, resumed: State)
  {
    function Pushed(): State { Exec(saved, PushAllReg(true, base), 0) }

    function Popped(pc: SpecialReg, pstate: SpecialReg): State { Exec(resumed, PopAllReg(true, 2, pc, pstate), 0) }

    /** Both on the frame at `fa`, which is left alone in between. */
    ghost predicate On(fa: u32) {
      && base != 3 && saved.a[base] == fa && resumed.a[2] == fa
      && FrameKept(Pushed().mem, resumed.mem, fa, 4, 192)
    }

    /** Whether the save stores the floats. */
    predicate Stores() { saved.sr(CPENABLE) % 2 == 1 }
  }

  /** The restore loads the floats exactly when the save stored them, and then loads what was saved. */
  ghost predicate FloatsFollow(r: Round, t: State) {
    if r.Stores() then t.sr(FCR) == r.saved.sr(FCR) && t.sr(FSR) == r.saved.sr(FSR) && t.f == r.saved.f
    else t.sr(FCR) == r.resumed.sr(FCR) && t.sr(FSR) == r.resumed.sr(FSR) && t.f == r.resumed.f
  }

  /** The marks a restore finds are those of the save it follows. */
  lemma MarksFollow(r: Round, fa: u32)
    requires r.On(fa) && HalfSlot(r.saved.mem, fa, OFF_CPSTORED) == 0
    ensures Marked(r.resumed.mem, fa) <==> r.Stores()
    ensures var c := r.saved.sr(CPENABLE);
      HalfSlot(r.resumed.mem, fa, OFF_CPENABLE) ==
        if c != 0 then c % 0x1_0000 else HalfSlot(r.saved.mem, fa, OFF_CPENABLE)
  {
    hide Wrap, Load32, Load16, Store, Exec, Slot, HalfSlot, PushAllReg, SavedRegs, SavedSpecials, SavedFloats;
    PushEffect(true, r.saved, r.base);
    var p := r.Pushed();
    KeptSlot(p.mem, r.resumed.mem, fa, 4, 192, OFF_CPSTORED);
    KeptSlot(p.mem, r.resumed.mem, fa, 4, 192, OFF_CPENABLE);
  }

  /** The saved floats are still in the frame when the restore starts. */
  lemma FloatsKept(r: Round, fa: u32)
    requires r.On(fa) && r.Stores()
    ensures SavedFloats(r.resumed.mem, fa, r.saved)
  {
    hide Wrap, Load32, Load16, Store, Exec, Slot, HalfSlot, PushAllReg, SavedRegs, SavedSpecials;
    PushEffect(true, r.saved, r.base);
    var p := r.Pushed();
    KeptSlot(p.mem, r.resumed.mem, fa, 4, 192, OFF_FCR);
    KeptSlot(p.mem, r.resumed.mem, fa, 4, 192, OFF_FSR);
    forall i: Reg
      ensures Slot(r.resumed.mem, fa, OffF(i)) == r.saved.f[i]
    {
      KeptSlot(p.mem, r.resumed.mem, fa, 4, 192, OffF(i));
    }
  }

  /** One round from a frame whose CPSTORED is 0. */
  lemma FpuRound(r: Round, fa: u32, pc: SpecialReg, pstate: SpecialReg)
    requires r.On(fa) && MacroTargets(pc, pstate) && HalfSlot(r.saved.mem, fa, OFF_CPSTORED) == 0
    ensures var t := r.Popped(pc, pstate); var c := r.saved.sr(CPENABLE);
      && FloatsFollow(r, t) && HalfSlot(t.mem, fa, OFF_CPSTORED) == 0
      && t.sr(CPENABLE) == (if c != 0 then c % 0x1_0000 else HalfSlot(r.saved.mem, fa, OFF_CPENABLE))
  {
    hide Wrap, Load32, Load16, Store, Exec, Slot, HalfSlot, PushAllReg, PopAllReg, Marked;
    MarksFollow(r, fa);
    PopEffect(true, r.resumed, 2, pc, pstate);
    StoreReads(r.resumed.mem, fa, OFF_CPSTORED, 0);
    if r.Stores() {
      FloatsKept(r, fa);
      var t := r.Popped(pc, pstate);
      assert forall i: Reg :: t.f[i] == r.saved.f[i];
    }
  }

  /** CPENABLE itself comes back exactly when it is 0 and its slot was 0, or nonzero and below 2^16. */
  lemma CpenableRoundTrip(r: Round, fa: u32, pc: SpecialReg, pstate: SpecialReg)
    requires r.On(fa) && MacroTargets(pc, pstate) && HalfSlot(r.saved.mem, fa, OFF_CPSTORED) == 0
    ensures var c := r.saved.sr(CPENABLE);
      r.Popped(pc, pstate).sr(CPENABLE) == c
      <==> if c == 0 then HalfSlot(r.saved.mem, fa, OFF_CPENABLE) == 0 else c < 0x1_0000
  {
    hide Exec, HalfSlot, PushAllReg, PopAllReg, Wrap;
    FpuRound(r, fa, pc, pstate);
  }

  /** CPENABLE and CPSTORED are 0, every address register is 0, and the CPENABLE slot of the frame at 0 holds 1. */
  const STALE: State :=
    State(seq(16, _ => 0), seq(16, _ => 0), (x: SpecialReg) => 0, (x: u32) => if x == OFF_CPENABLE then 1 else 0)

  /** A save with CPENABLE 0, followed at once by its restore: CPENABLE comes back as 1. */
  lemma StaleCpenable(pc: SpecialReg, pstate: SpecialReg)
    requires MacroTargets(pc, pstate)
    ensures var r := Round(STALE, 2, Exec(STALE, PushAllReg(true, 2), 0));
      && r.On(0) && HalfSlot(STALE.mem, 0, OFF_CPSTORED) == 0
      && STALE.sr(CPENABLE) == 0 && r.Popped(pc, pstate).sr(CPENABLE) == 1
  {
    hide Exec, PushAllReg, PopAllReg, Wrap, SavedRegs, SavedSpecials, SavedFloats;
    PushEffect(true, STALE, 2);
    StaleSlots();
    FpuRound(Round(STALE, 2, Exec(STALE, PushAllReg(true, 2), 0)), 0, pc, pstate);
  }

  lemma StaleSlots()
    ensures HalfSlot(STALE.mem, 0, OFF_CPSTORED) == 0 && HalfSlot(STALE.mem, 0, OFF_CPENABLE) == 1
  {
  }

  /** An alternating run on one frame: CPSTORED starts at 0 and nobody else writes it between two rounds. */
  ghost predicate FpuRun(rounds: seq<Round>, fa: u32, pc: SpecialReg, pstate: SpecialReg) {
    && (forall k :: 0 <= k < |rounds| ==> rounds[k].On(fa))
    && (|rounds| > 0 ==> HalfSlot(rounds[0].saved.mem, fa, OFF_CPSTORED) == 0)
    && forall k :: 0 < k < |rounds| ==>
         HalfSlot(rounds[k].saved.mem, fa, OFF_CPSTORED)
         == HalfSlot(rounds[k - 1].Popped(pc, pstate).mem, fa, OFF_CPSTORED)
  }

  /** In every round of a run the restore loads the floats exactly when its save stored them, unchanged. */
  lemma {:induction false} FpuRunFollows(rounds: seq<Round>, fa: u32, pc: SpecialReg, pstate: SpecialReg, k: nat)
    requires FpuRun(rounds, fa, pc, pstate) && MacroTargets(pc, pstate) && k < |rounds|
    ensures FloatsFollow(rounds[k], rounds[k].Popped(pc, pstate))
    ensures HalfSlot(rounds[k].Popped(pc, pstate).mem, fa, OFF_CPSTORED) == 0
  {
    hide Exec, HalfSlot, PushAllReg, PopAllReg, Wrap;
    if k > 0 {
      FpuRunFollows(rounds, fa, pc, pstate, k - 1);
    }
    FpuRound(rounds[k], fa, pc, pstate);
  }
}
