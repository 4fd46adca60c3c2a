/**
 Any number of tasks that share one core through the two macros, each with a frame of its own: whatever the schedule
 of saves and restores, every task resumes with the registers it was saved with.
 */
module ContextTasks {
  import opened Machine
  import opened FrameMemory
  import opened TaskContext
  import opened ContextRoundTrip
  import opened ContextTheorems

  /** How the macros are instantiated: with the FPU or not, and the registers a restore puts PC and PS in. */
  datatype Port = Port(fpu: bool, pc: SpecialReg, pstate: SpecialReg)
  {
    function Size(): nat { ContextSize(fpu) }
  }

  /** Two frames of `size` bytes do not overlap; addresses wrap around. */
  predicate Apart(fa: u32, fb: u32, size: nat) {
    size <= Wrap(fb - fa) && size <= Wrap(fa - fb)
  }

  ghost predicate AllApart(frames: seq<u32>, size: nat) {
    forall i, j :: 0 <= i < |frames| && 0 <= j < |frames| && i != j ==> Apart(frames[i], frames[j], size)
  }

  /** Where a suspended task was saved: the state its save began in, and the base it used. */
  datatype Saved = Saved(s: State, base: Reg)

  datatype System = System(core: State, tasks: seq<Option<Saved>>)

  datatype Event =
    | Save(task: nat, base: Reg)
    | Restore(task: nat, base: Reg)
    | Work(core: State)

  predicate Concerns(e: Event, i: nat) {
    !e.Work? && e.task == i
  }

  /**
   What each event asks for. Between two macros the running task may do anything to the registers, and to the memory
   outside the frames: it leaves the suspended tasks' frames alone from offset 4 on (PC is stored by other code), and
   CPSTORED in every frame.
   */
  ghost predicate Allowed(p: Port, frames: seq<u32>, y: System, e: Event)
    requires |y.tasks| == |frames|
  {
    match e
    case Save(i, b) =>
      i < |frames| && y.tasks[i] == None && b != 3 && y.core.a[b] == frames[i]
    case Restore(i, b) =>
      && i < |frames| && y.tasks[i].Some? && y.core.a[b] == frames[i]
      && (b == 2 || (b == 1 && y.tasks[i].value.s.a[1] == frames[i]))
    case Work(core) =>
      forall i :: 0 <= i < |frames| ==>
        if y.tasks[i].Some? then FrameKept(y.core.mem, core.mem, frames[i], 4, p.Size())
        else p.fpu ==> FrameKept(y.core.mem, core.mem, frames[i], OFF_CPSTORED, OFF_CPSTORED + 2)
  }

  function Next(p: Port, y: System, e: Event): System {
    match e
    case Save(i, b) =>
      System(Exec(y.core, PushAllReg(p.fpu, b), 0),
             if i < |y.tasks| then y.tasks[i := Some(Saved(y.core, b))] else y.tasks)
    case Restore(i, b) =>
      System(Exec(y.core, PopAllReg(p.fpu, b, p.pc, p.pstate), 0),
             if i < |y.tasks| then y.tasks[i := None] else y.tasks)
    case Work(core) => y.(core := core)
  }

  /** At the start nobody is suspended, and CPSTORED is 0 in every frame. */
  ghost predicate Start(p: Port, frames: seq<u32>, y: System) {
    && |y.tasks| == |frames|
    && forall i :: 0 <= i < |frames| ==>
         y.tasks[i] == None && (p.fpu ==> HalfSlot(y.core.mem, frames[i], OFF_CPSTORED) == 0)
  }

  /** Any schedule. */
  ghost predicate Schedule(p: Port, frames: seq<u32>, states: seq<System>, events: seq<Event>) {
    && MacroTargets(p.pc, p.pstate) && AllApart(frames, p.Size())
    && |states| == |events| + 1 && Start(p, frames, states[0])
    && forall k :: 0 <= k < |events| ==>
         |states[k].tasks| == |frames| && Allowed(p, frames, states[k], events[k])
         && states[k + 1] == Next(p, states[k], events[k])
  }

  /** What holds of one task: while it is suspended its frame holds what its save stored; otherwise CPSTORED is 0. */
  ghost predicate TaskInv(p: Port, fa: u32, t: Option<Saved>, m: Memory) {
    match t
    case None => p.fpu ==> HalfSlot(m, fa, OFF_CPSTORED) == 0
    case Some(v) =>
      && v.base != 3 && v.s.a[v.base] == fa
      && FrameKept(Exec(v.s, PushAllReg(p.fpu, v.base), 0).mem, m, fa, 4, p.Size())
      && (p.fpu ==> HalfSlot(v.s.mem, fa, OFF_CPSTORED) == 0)
  }

  ghost predicate Inv(p: Port, frames: seq<u32>, y: System) {
    && |y.tasks| == |frames|
    && forall i :: 0 <= i < |frames| ==> TaskInv(p, frames[i], y.tasks[i], y.core.mem)
  }

  lemma NoByteInBoth(fa: u32, fb: u32, size: nat, x: u32)
    requires Apart(fa, fb, size)
    ensures !(Wrap(x - fa) < size && Wrap(x - fb) < size)
  {
    hide Wrap;
    var d, e := Wrap(x - fa), Wrap(x - fb);
    WrapOnce(x - fa, 0 - e as int);
    WrapOnce(x - fb, 0 - d as int);
    WrapOnce(x - fb, x - fa);
    WrapOnce(x - fa, x - fb);
    if e <= d {
      WrapSmall(d - e);
    } else {
      WrapSmall(e - d);
    }
  }

  /** What changes inside one frame leaves the others alone. */
  lemma OthersKept(m: Memory, n: Memory, fa: u32, fb: u32, size: nat, lo: nat, hi: nat)
    requires Apart(fa, fb, size) && hi <= size && SameOutside(m, n, fa, lo, hi)
    ensures FrameKept(m, n, fb, 0, size)
  {
    hide Wrap, Apart;
    forall x: u32 | Wrap(x - fb) < size
      ensures n(x) == m(x)
    {
      NoByteInBoth(fa, fb, size, x);
    }
  }

  /** A task keeps its invariant when its frame, or what of it matters, is kept. */
  lemma TaskKept(p: Port, fa: u32, t: Option<Saved>, m: Memory, n: Memory)
    requires TaskInv(p, fa, t, m)
    requires
      if t.Some? then FrameKept(m, n, fa, 4, p.Size())
      else p.fpu ==> FrameKept(m, n, fa, OFF_CPSTORED, OFF_CPSTORED + 2)
    ensures TaskInv(p, fa, t, n)
  {
    hide Wrap, HalfSlot, Exec, PushAllReg;
    if t == None && p.fpu {
      KeptSlot(m, n, fa, OFF_CPSTORED, OFF_CPSTORED + 2, OFF_CPSTORED);
    }
  }

  /** A macro that stays inside the frame of task `i` keeps the invariant of every other task. */
  lemma OthersInv(p: Port, frames: seq<u32>, y: System, n: Memory, i: nat, lo: nat, hi: nat)
    requires Inv(p, frames, y) && AllApart(frames, p.Size()) && i < |frames|
    requires SameOutside(y.core.mem, n, frames[i], lo, hi) && hi <= p.Size()
    ensures forall j :: 0 <= j < |frames| && j != i ==> TaskInv(p, frames[j], y.tasks[j], n)
  {
    hide TaskInv, Apart, SameOutside, Wrap;
    forall j | 0 <= j < |frames| && j != i
      ensures TaskInv(p, frames[j], y.tasks[j], n)
    {
      OthersKept(y.core.mem, n, frames[i], frames[j], p.Size(), lo, hi);
      TaskKept(p, frames[j], y.tasks[j], y.core.mem, n);
    }
  }

  lemma SaveKeepsInv(p: Port, frames: seq<u32>, y: System, i: nat, b: Reg)
    requires Inv(p, frames, y) && AllApart(frames, p.Size()) && Allowed(p, frames, y, Save(i, b))
    ensures Inv(p, frames, Next(p, y, Save(i, b)))
  {
    hide AllApart, SameOutside, Wrap, HalfSlot, Exec, PushAllReg, SavedRegs, SavedSpecials, SavedFloats;
    PushEffect(p.fpu, y.core, b);
    OthersInv(p, frames, y, Exec(y.core, PushAllReg(p.fpu, b), 0).mem, i, 4, if p.fpu then 176 else 96);
  }

  lemma RestoreKeepsInv(p: Port, frames: seq<u32>, y: System, i: nat, b: Reg)
    requires Inv(p, frames, y) && AllApart(frames, p.Size()) && Allowed(p, frames, y, Restore(i, b))
    requires MacroTargets(p.pc, p.pstate)
    ensures Inv(p, frames, Next(p, y, Restore(i, b)))
  {
    hide AllApart, SameOutside, Wrap, HalfSlot, Slot, Store, Exec, PopAllReg, PushAllReg;
    var fa, m := frames[i], y.core.mem;
    PopEffect(p.fpu, y.core, b, p.pc, p.pstate);
    StoreReads(m, fa, OFF_CPSTORED, 0);
    StoreKeeps(m, fa, OFF_CPSTORED, 0, 2);
    ClearedInside(p.fpu, m, fa);
    OthersInv(p, frames, y, Cleared(p.fpu, m, fa), i, 102, 104);
  }

  lemma ClearedInside(fpu: bool, m: Memory, fa: u32)
    ensures SameOutside(m, Cleared(fpu, m, fa), fa, 102, 104)
  {
    hide Wrap, Store;
    StoreKeeps(m, fa, OFF_CPSTORED, 0, 2);
  }

  lemma StepKeepsInv(p: Port, frames: seq<u32>, y: System, e: Event)
    requires Inv(p, frames, y) && AllApart(frames, p.Size()) && Allowed(p, frames, y, e)
    requires MacroTargets(p.pc, p.pstate)
    ensures Inv(p, frames, Next(p, y, e))
  {
    match e
    case Save(i, b) => SaveKeepsInv(p, frames, y, i, b);
    case Restore(i, b) => RestoreKeepsInv(p, frames, y, i, b);
    case Work(core) =>
      hide TaskInv, Exec, FrameKept, AllApart;
      forall i | 0 <= i < |frames|
        ensures TaskInv(p, frames[i], y.tasks[i], core.mem)
      {
        TaskKept(p, frames[i], y.tasks[i], y.core.mem, core.mem);
      }
  }

  lemma {:induction false} InvHolds(p: Port, frames: seq<u32>, states: seq<System>, events: seq<Event>, k: nat)
    requires Schedule(p, frames, states, events) && k < |states|
    ensures Inv(p, frames, states[k])
  {
    hide AllApart, Allowed, Next;
    if k > 0 {
      InvHolds(p, frames, states, events, k - 1);
      StepKeepsInv(p, frames, states[k - 1], events[k - 1]);
    }
  }

  /** Until the next event of its own, what is recorded of a task is its last save. */
  lemma {:induction false} RecordStays(
    p: Port, frames: seq<u32>, states: seq<System>, events: seq<Event>, i: nat, k: nat, l: nat)
    requires Schedule(p, frames, states, events) && k < l <= |events| && i < |frames|
    requires events[k].Save? && events[k].task == i && forall j :: k < j < l ==> !Concerns(events[j], i)
    ensures |states[l].tasks| == |frames| && states[l].tasks[i] == Some(Saved(states[k].core, events[k].base))
  {
    hide AllApart, Allowed, Exec;
    if l > k + 1 {
      RecordStays(p, frames, states, events, i, k, l - 1);
      assert !Concerns(events[l - 1], i);
      assert states[l - 1 + 1] == Next(p, states[l - 1], events[l - 1]);
    } else {
      assert states[k + 1] == Next(p, states[k], events[k]);
    }
  }

  /** What a task finds when it resumes: everything it had when it was saved. */
  ghost predicate Resumes(p: Port, saved: State, t: State) {
    && t.a == saved.a && t.sr(p.pstate) == saved.sr(PS) && t.sr(SAR) == saved.sr(SAR)
    && t.sr(LBEG) == saved.sr(LBEG) && t.sr(LEND) == saved.sr(LEND) && t.sr(LCOUNT) == saved.sr(LCOUNT)
  }

  /** One restore of a task whose invariant holds. */
  lemma RegistersComeBack(p: Port, fa: u32, v: Saved, r: State, b: Reg)
    requires TaskInv(p, fa, Some(v), r.mem) && MacroTargets(p.pc, p.pstate)
    requires r.a[b] == fa && (b == 2 || (b == 1 && v.s.a[1] == fa))
    ensures var t := Exec(r, PopAllReg(p.fpu, b, p.pc, p.pstate), 0);
      Resumes(p, v.s, t) && t.sr(p.pc) == Slot(r.mem, fa, OFF_PC)
  {
    hide Exec, PushAllReg, PopAllReg, Slot, HalfSlot, FrameKept;
    if b == 2 {
      SaveRestore(p.fpu, v.s, v.base, r, p.pc, p.pstate);
    } else {
      SaveRestoreOnStackPointer(p.fpu, v.s, v.base, r, p.pc, p.pstate);
    }
  }

  /** The floats of such a restore, whichever its base, and CPENABLE when it was in use. */
  lemma FloatsComeBack(p: Port, fa: u32, v: Saved, r: State, b: Reg)
    requires p.fpu && TaskInv(p, fa, Some(v), r.mem) && MacroTargets(p.pc, p.pstate)
    requires r.a[b] == fa && (b == 1 || b == 2)
    ensures var t := Exec(r, PopAllReg(true, b, p.pc, p.pstate), 0);
      && FloatsFollow(Round(v.s, v.base, r), t)
      && (0 < v.s.sr(CPENABLE) < 0x1_0000 ==> t.sr(CPENABLE) == v.s.sr(CPENABLE))
  {
    hide Wrap, Load32, Load16, Store, Exec, Slot, HalfSlot, PushAllReg, PopAllReg, Marked, FrameKept;
    var q := Round(v.s, v.base, r.SetReg(2, fa));
    MarksFollow(q, fa);
    PopEffect(true, r, b, p.pc, p.pstate);
    if q.Stores() {
      FloatsKept(q, fa);
      var t := Exec(r, PopAllReg(true, b, p.pc, p.pstate), 0);
      assert forall i: Reg :: t.f[i] == v.s.f[i];
    }
  }

  /**
   In any schedule a task that is saved at event `k` and next restored at event `l` resumes with the registers of the
   moment it was saved, whatever the others did in between. Its floats are loaded, with their values of that
   moment, exactly when bit 0 of CPENABLE was set.
   */
  lemma TasksKeepTheirContext(
    p: Port, frames: seq<u32>, states: seq<System>, events: seq<Event>, i: nat, k: nat, l: nat)
    requires Schedule(p, frames, states, events) && k < l < |events|
    requires events[k].Save? && events[k].task == i && events[l].Restore? && events[l].task == i
    requires forall j :: k < j < l ==> !Concerns(events[j], i)
    ensures i < |frames|
    ensures var saved, t := states[k].core, states[l + 1].core;
      && Resumes(p, saved, t) && t.sr(p.pc) == Slot(states[l].core.mem, frames[i], OFF_PC)
      && (p.fpu ==>
            && FloatsFollow(Round(saved, events[k].base, states[l].core), t)
            && (0 < saved.sr(CPENABLE) < 0x1_0000 ==> t.sr(CPENABLE) == saved.sr(CPENABLE)))
  {
    hide AllApart, Exec, PushAllReg, PopAllReg, Slot, HalfSlot, FrameKept, TaskInv, Resumes, FloatsFollow, MacroTargets;
    assert Allowed(p, frames, states[k], events[k]) && Allowed(p, frames, states[l], events[l]);
    RecordStays(p, frames, states, events, i, k, l);
    InvHolds(p, frames, states, events, l);
    var v := Saved(states[k].core, events[k].base);
    RegistersComeBack(p, frames[i], v, states[l].core, events[l].base);
    if p.fpu {
      FloatsComeBack(p, frames[i], v, states[l].core, events[l].base);
    }
  }

  lemma Extended(p: Port, frames: seq<u32>, states: seq<System>, events: seq<Event>, y: System, e: Event)
    requires Schedule(p, frames, states, events) && states[|events|] == y
    requires |y.tasks| == |frames| && Allowed(p, frames, y, e)
    ensures Schedule(p, frames, states + [Next(p, y, e)], events + [e])
  {
    hide AllApart, Allowed, Next, Start, MacroTargets;
    var longer, more := states + [Next(p, y, e)], events + [e];
    assert longer[0] == states[0];
    forall k | 0 <= k < |more|
      ensures
        && |longer[k].tasks| == |frames| && Allowed(p, frames, longer[k], more[k])
        && longer[k + 1] == Next(p, longer[k], more[k])
    {
      if k < |events| {
        assert longer[k] == states[k] && longer[k + 1] == states[k + 1] && more[k] == events[k];
      }
    }
  }

  /** The state once a switch has put the address of the next frame in a2. */
  function Pointed(y: System, fa: u32): System {
    y.(core := y.core.SetReg(2, fa))
  }

  /** A macro and the switch that follows it. */
  lemma ThenPointed(p: Port, frames: seq<u32>, states: seq<System>, events: seq<Event>, y: System, e: Event, fa: u32)
    requires Schedule(p, frames, states, events) && states[|events|] == y
    requires |y.tasks| == |frames| && Allowed(p, frames, y, e)
    ensures var y1 := Next(p, y, e); var y2 := Pointed(y1, fa);
      Schedule(p, frames, states + [y1, y2], events + [e, Work(y2.core)])
  {
    Extended(p, frames, states, events, y, e);
    var y1 := Next(p, y, e);
    var y2 := Pointed(y1, fa);
    assert Allowed(p, frames, y1, Work(y2.core));
    Extended(p, frames, states + [y1], events + [e], y1, Work(y2.core));
    assert states + [y1] + [y2] == states + [y1, y2];
    assert events + [e] + [Work(y2.core)] == events + [e, Work(y2.core)];
  }

  /** Two tasks that take turns: from any start with the first one running, both get their registers back. */
  lemma TakingTurns(p: Port, fa: u32, fb: u32, core: State) returns (states: seq<System>, events: seq<Event>)
    requires MacroTargets(p.pc, p.pstate) && Apart(fa, fb, p.Size()) && core.a[2] == fa
    requires Start(p, [fa, fb], System(core, [None, None]))
    ensures Schedule(p, [fa, fb], states, events) && |events| == 6 && |states| == 7
    ensures events[0] == Save(0, 2) && events[2] == Save(1, 2) && events[4] == Restore(0, 2)
    ensures events[1].Work? && events[3].Work? && events[5].Work?
  {
    var frames := [fa, fb];
    var y0 := System(core, [None, None]);
    assert AllApart(frames, p.Size());
    assert Schedule(p, frames, [y0], []);
    hide Schedule, Start, Exec, Apart, AllApart, MacroTargets, PushAllReg, PopAllReg;
    ThenPointed(p, frames, [y0], [], y0, Save(0, 2), fb);
    var y1 := Next(p, y0, Save(0, 2));
    var y2 := Pointed(y1, fb);
    states, events := [y0] + [y1, y2], [] + [Save(0, 2), Work(y2.core)];
    ThenPointed(p, frames, states, events, y2, Save(1, 2), fa);
    var y3 := Next(p, y2, Save(1, 2));
    var y4 := Pointed(y3, fa);
    states, events := states + [y3, y4], events + [Save(1, 2), Work(y4.core)];
    ThenPointed(p, frames, states, events, y4, Restore(0, 2), fb);
    var y5 := Next(p, y4, Restore(0, 2));
    var y6 := Pointed(y5, fb);
    states, events := states + [y5, y6], events + [Restore(0, 2), Work(y6.core)];
  }
}
