/** What littlefs can rely on, whichever of the two back ends it runs on. */
module LittlefsBackends {
  import opened Machine
  import opened NorFlash
  import opened Littlefs

  /** The addresses in [lo, lo + n). */
  function Range(lo: nat, n: nat): (range: set<nat>)
    ensures forall r :: r in range <==> lo <= r < lo + n
  {
    if n == 0 then {} else Range(lo, n - 1) + {lo + n - 1}
  }

  // Every operation stays in its block.

  /** The contents of one block of a region that starts at `base`. */
  function Block(mem: seq<Byte>, base: nat, cfg: LfsConfig, b: nat): seq<Byte>
    requires base + cfg.RegionSize() <= |mem| && b < cfg.blockCount
  {
    BlocksAreDisjoint(cfg, b, cfg.blockCount);
    mem[base + cfg.At(b, 0)..base + cfg.At(b, 0) + cfg.blockSize]
  }

  /** The operation on a single block, for a write that overwrites or one that clears bits. */
  function BlockStep(block: seq<Byte>, op: Op, clears: bool): seq<Byte> {
    match op
    case Erase(_) => seq(|block|, _ => 0xFF)
    case Prog(_, off, data) => if clears then Programmed(block, off, data) else Spliced(block, off, data)
    case Read(_, _, _) => block
  }

  lemma SliceElsewhere(mem: seq<Byte>, after: seq<Byte>, lo: nat, hi: nat, s: nat, n: nat)
    requires OnlyInside(mem, after, lo, hi) && s + n <= |mem| && (s + n <= lo || hi <= s)
    ensures after[s..s + n] == mem[s..s + n]
  {
  }

  /** A RAM operation changes only the bytes it covers. */
  lemma RamStepInside(ram: seq<Byte>, cfg: LfsConfig, op: Op)
    requires InRange(cfg, op) && cfg.RegionSize() <= |ram|
    ensures OnlyInside(ram, RamStep(ram, cfg, op), First(cfg, op), First(cfg, op) + Count(cfg, op))
  {
    hide LfsConfig.At, LfsConfig.RegionSize;
    InRangeInsideRegion(cfg, op);
  }

  /** So does a flash operation. */
  lemma FlashStepInside(flash: seq<Byte>, cfg: LfsConfig, op: Op)
    ensures OnlyInside(flash, FlashStep(flash, cfg, op),
                       cfg.context + First(cfg, op), cfg.context + First(cfg, op) + Count(cfg, op))
  {
    hide LfsConfig.At;
  }

  lemma OtherBlock(cfg: LfsConfig, op: Op, c: nat)
    requires InRange(cfg, op) && c < cfg.blockCount && c != op.block
    ensures cfg.At(c, 0) + cfg.blockSize <= First(cfg, op) || First(cfg, op) + Count(cfg, op) <= cfg.At(c, 0)
  {
    hide LfsConfig.At, LfsConfig.RegionSize;
    InRangeInsideRegion(cfg, op);
    if c < op.block {
      BlocksAreDisjoint(cfg, c, op.block);
    } else {
      BlocksAreDisjoint(cfg, op.block, c);
    }
  }

  lemma AtOffset(cfg: LfsConfig, op: Op)
    ensures First(cfg, op) == cfg.At(op.block, 0) + (if op.Erase? then 0 else op.off)
  {
  }

  /** A RAM operation acts on its own block alone. */
  lemma RamStepRefinesBlocks(ram: seq<Byte>, cfg: LfsConfig, op: Op, c: nat)
    requires InRange(cfg, op) && c < cfg.blockCount && cfg.RegionSize() <= |ram|
    ensures Block(RamStep(ram, cfg, op), 0, cfg, c)
         == if c == op.block then BlockStep(Block(ram, 0, cfg, c), op, false) else Block(ram, 0, cfg, c)
  {
    hide LfsConfig.At, LfsConfig.RegionSize, Erased, Spliced, OnlyInside;
    BlocksAreDisjoint(cfg, c, cfg.blockCount);
    if c != op.block {
      OtherBlock(cfg, op, c);
      RamStepInside(ram, cfg, op);
      SliceElsewhere(ram, RamStep(ram, cfg, op), First(cfg, op), First(cfg, op) + Count(cfg, op),
                     cfg.At(c, 0), cfg.blockSize);
    } else {
      AtOffset(cfg, op);
      OwnBlock(ram, cfg.At(c, 0), cfg.blockSize, op);
    }
  }

  /** The slice that holds a block after an operation on that block. */
  lemma OwnBlock(mem: seq<Byte>, s: nat, n: nat, op: Op)
    requires s + n <= |mem| && (op.Prog? ==> op.off + |op.data| <= n)
    ensures op.Erase? ==> Erased(mem, s, n)[s..s + n] == seq(n, _ => 0xFF)
    ensures op.Prog? ==> Spliced(mem, s + op.off, op.data)[s..s + n] == BlockStep(mem[s..s + n], op, false)
    ensures op.Prog? ==> Programmed(mem, s + op.off, op.data)[s..s + n] == BlockStep(mem[s..s + n], op, true)
  {
    if op.Prog? {
      SplicedSlice(mem, s, n, op.off, op.data);
      ProgrammedSlice(mem, s, n, op.off, op.data);
    }
  }

  lemma SplicedSlice(mem: seq<Byte>, s: nat, n: nat, off: nat, data: seq<Byte>)
    requires s + n <= |mem|
    ensures Spliced(mem, s + off, data)[s..s + n] == Spliced(mem[s..s + n], off, data)
  {
  }

  lemma ProgrammedSlice(mem: seq<Byte>, s: nat, n: nat, off: nat, data: seq<Byte>)
    requires s + n <= |mem|
    ensures Programmed(mem, s + off, data)[s..s + n] == Programmed(mem[s..s + n], off, data)
  {
  }

  /** A flash operation acts on its own block alone. */
  lemma FlashStepRefinesBlocks(flash: seq<Byte>, cfg: LfsConfig, op: Op, c: nat)
    requires InRange(cfg, op) && c < cfg.blockCount && cfg.context + cfg.RegionSize() <= |flash|
    ensures Block(FlashStep(flash, cfg, op), cfg.context, cfg, c)
         == if c == op.block then BlockStep(Block(flash, cfg.context, cfg, c), op, true)
            else Block(flash, cfg.context, cfg, c)
  {
    hide LfsConfig.At, LfsConfig.RegionSize, Erased, Programmed, OnlyInside;
    BlocksAreDisjoint(cfg, c, cfg.blockCount);
    if c != op.block {
      OtherBlock(cfg, op, c);
      FlashStepInside(flash, cfg, op);
      var lo := cfg.context + First(cfg, op);
      SliceElsewhere(flash, FlashStep(flash, cfg, op), lo, lo + Count(cfg, op),
                     cfg.context + cfg.At(c, 0), cfg.blockSize);
    } else {
      AtOffset(cfg, op);
      OwnBlock(flash, cfg.context + cfg.At(c, 0), cfg.blockSize, op);
    }
  }

  /** No operation, even a failing one, reaches outside the region. */
  lemma StepStaysInRegion(mem: seq<Byte>, cfg: LfsConfig, op: Op, ok: bool, after: seq<Byte>, i: nat)
    requires InRange(cfg, op) && i < |mem|
    ensures FlashCall(mem, cfg, op, ok, after) && !(cfg.context <= i < cfg.context + cfg.RegionSize()) ==>
              |after| == |mem| && after[i] == mem[i]
    ensures i >= cfg.RegionSize() ==> RamStep(mem, cfg, op)[i] == mem[i]
  {
    InRangeInsideRegion(cfg, op);
    FlashStepInside(mem, cfg, op);
  }

  // Both back ends give the same data under the erase-before-program discipline.

  /** One operation, whether it succeeds on the flash, and what it leaves there. On the RAM it always succeeds. */
  datatype Event = Event(op: Op, ok: bool, flash: seq<Byte>)

  /**
   `known`: bytes erased since the start and not touched by a failing call since. `ready`: those not programmed
   since their last erase.
   */
  datatype Tracked = Tracked(known: set<nat>, ready: set<nat>)

  function Track(d: Tracked, cfg: LfsConfig, op: Op, ok: bool): Tracked {
    var range := Range(First(cfg, op), Count(cfg, op));
    match op
    case Erase(_) => if ok then Tracked(d.known + range, d.ready + range) else Tracked(d.known - range, d.ready - range)
    case Prog(_, _, _) => Tracked(if ok then d.known else d.known - range, d.ready - range)
    case Read(_, _, _) => d
  }

  /**
   A run from the flash contents `flash`: every operation is in range, a byte is programmed only after an erase and
   at most once per erase, and each call leaves what it may leave.
   */
  ghost predicate Disciplined(run: seq<Event>, cfg: LfsConfig, d: Tracked, flash: seq<Byte>)
  {
    run != [] ==>
      var e := run[0];
      && InRange(cfg, e.op) && FlashCall(flash, cfg, e.op, e.ok, e.flash)
      && (e.op.Prog? ==> Range(First(cfg, e.op), Count(cfg, e.op)) <= d.ready)
      && Disciplined(run[1..], cfg, Track(d, cfg, e.op, e.ok), e.flash)
  }

  // What is known and ready, read off the run alone.

  predicate Concerns(e: Event, cfg: LfsConfig, r: nat) {
    First(cfg, e.op) <= r < First(cfg, e.op) + Count(cfg, e.op)
  }

  /** Byte `r` is erased by a call that succeeds. */
  predicate ErasesWell(e: Event, cfg: LfsConfig, r: nat) {
    e.op.Erase? && e.ok && Concerns(e, cfg, r)
  }

  /** A failing call leaves byte `r` in doubt. */
  predicate Spoils(e: Event, cfg: LfsConfig, r: nat) {
    !e.op.Read? && !e.ok && Concerns(e, cfg, r)
  }

  /** Byte `r` does not stay erased. */
  predicate Uses(e: Event, cfg: LfsConfig, r: nat) {
    Concerns(e, cfg, r) && (e.op.Prog? || (e.op.Erase? && !e.ok))
  }

  function TrackRun(d: Tracked, cfg: LfsConfig, run: seq<Event>): Tracked {
    if run == [] then d
    else
      var front, last := run[..|run| - 1], run[|run| - 1];
      Track(TrackRun(d, cfg, front), cfg, last.op, last.ok)
  }

  ghost predicate ErasedAndNotSpoiled(run: seq<Event>, cfg: LfsConfig, r: nat) {
    exists k :: 0 <= k < |run| && ErasesWell(run[k], cfg, r) && forall j :: k < j < |run| ==> !Spoils(run[j], cfg, r)
  }

  ghost predicate ErasedAndNotUsed(run: seq<Event>, cfg: LfsConfig, r: nat) {
    exists k :: 0 <= k < |run| && ErasesWell(run[k], cfg, r) && forall j :: k < j < |run| ==> !Uses(run[j], cfg, r)
  }

  lemma LastSpoils(run: seq<Event>, cfg: LfsConfig, r: nat)
    requires run != []
    ensures var front, last := run[..|run| - 1], run[|run| - 1];
      ErasedAndNotSpoiled(run, cfg, r)
      <==> ErasesWell(last, cfg, r) || (ErasedAndNotSpoiled(front, cfg, r) && !Spoils(last, cfg, r))
  {
    hide Concerns, ErasesWell, Spoils;
    var n := |run| - 1;
    var front := run[..n];
    if ErasedAndNotSpoiled(run, cfg, r) {
      var k :| 0 <= k < |run| && ErasesWell(run[k], cfg, r) && forall j :: k < j < |run| ==> !Spoils(run[j], cfg, r);
      assert k < n ==> ErasesWell(front[k], cfg, r) && !Spoils(run[n], cfg, r);
    }
    if ErasedAndNotSpoiled(front, cfg, r) && !Spoils(run[n], cfg, r) {
      var k :| 0 <= k < n && ErasesWell(front[k], cfg, r) && forall j :: k < j < n ==> !Spoils(front[j], cfg, r);
      assert ErasesWell(run[k], cfg, r);
      assert forall j :: k < j < n ==> front[j] == run[j];
    }
  }

  lemma LastUses(run: seq<Event>, cfg: LfsConfig, r: nat)
    requires run != []
    ensures var front, last := run[..|run| - 1], run[|run| - 1];
      ErasedAndNotUsed(run, cfg, r)
      <==> ErasesWell(last, cfg, r) || (ErasedAndNotUsed(front, cfg, r) && !Uses(last, cfg, r))
  {
    hide Concerns, ErasesWell, Uses;
    var n := |run| - 1;
    var front := run[..n];
    if ErasedAndNotUsed(run, cfg, r) {
      var k :| 0 <= k < |run| && ErasesWell(run[k], cfg, r) && forall j :: k < j < |run| ==> !Uses(run[j], cfg, r);
      assert k < n ==> ErasesWell(front[k], cfg, r) && !Uses(run[n], cfg, r);
    }
    if ErasedAndNotUsed(front, cfg, r) && !Uses(run[n], cfg, r) {
      var k :| 0 <= k < n && ErasesWell(front[k], cfg, r) && forall j :: k < j < n ==> !Uses(front[j], cfg, r);
      assert ErasesWell(run[k], cfg, r);
      assert forall j :: k < j < n ==> front[j] == run[j];
    }
  }

  /**
   A byte is known exactly when a successful erase has covered it and no failing call since; it is ready exactly when
   nothing has programmed it since either.
   */
  lemma {:induction false} TrackedIff(run: seq<Event>, cfg: LfsConfig, r: nat)
    ensures r in TrackRun(Tracked({}, {}), cfg, run).known <==> ErasedAndNotSpoiled(run, cfg, r)
    ensures r in TrackRun(Tracked({}, {}), cfg, run).ready <==> ErasedAndNotUsed(run, cfg, r)
  {
    if run != [] {
      TrackedIff(run[..|run| - 1], cfg, r);
      LastSpoils(run, cfg, r);
      LastUses(run, cfg, r);
      hide ErasedAndNotSpoiled, ErasedAndNotUsed, First, Count;
    }
  }

  /** The data a read of `n` bytes at `at` returns. */
  function ReadData(mem: seq<Byte>, at: nat, n: nat): seq<Byte>
    requires at + n <= |mem|
  {
    mem[at..at + n]
  }

  /** The read, if it succeeds and its bytes are known, returns the same data on both devices. */
  ghost predicate SameRead(e: Event, cfg: LfsConfig, d: Tracked, ram: seq<Byte>, flash: seq<Byte>) {
    var at, n := First(cfg, e.op), Count(cfg, e.op);
    e.op.Read? && e.ok && Range(at, n) <= d.known ==>
      && at + n <= |ram| && cfg.context + at + n <= |flash|
      && ReadData(ram, at, n) == ReadData(flash, cfg.context + at, n)
  }

  ghost predicate SameReads(run: seq<Event>, cfg: LfsConfig, d: Tracked, ram: seq<Byte>, flash: seq<Byte>)
  {
    run != [] ==>
      && SameRead(run[0], cfg, d, ram, flash)
      && SameReads(run[1..], cfg, Track(d, cfg, run[0].op, run[0].ok), RamStep(ram, cfg, run[0].op), run[0].flash)
  }

  /** The two devices agree on every known byte, and a ready byte is still erased. */
  ghost predicate Agree(cfg: LfsConfig, d: Tracked, ram: seq<Byte>, flash: seq<Byte>) {
    && cfg.RegionSize() <= |ram| && cfg.context + cfg.RegionSize() <= |flash|
    && d.ready <= d.known
    && (forall r :: r in d.known ==> r < cfg.RegionSize() && ram[r] == flash[cfg.context + r])
    && forall r :: r in d.ready ==> flash[cfg.context + r] == 0xFF
  }

  lemma SuccessAgrees(op: Op, cfg: LfsConfig, d: Tracked, ram: seq<Byte>, flash: seq<Byte>)
    requires Agree(cfg, d, ram, flash) && InRange(cfg, op)
    requires op.Prog? ==> Range(First(cfg, op), Count(cfg, op)) <= d.ready
    ensures Agree(cfg, Track(d, cfg, op, true), RamStep(ram, cfg, op), FlashStep(flash, cfg, op))
  {
    hide LfsConfig.At, LfsConfig.RegionSize;
    InRangeInsideRegion(cfg, op);
    var d', ram', flash' := Track(d, cfg, op, true), RamStep(ram, cfg, op), FlashStep(flash, cfg, op);
    forall r | r in d'.known
      ensures r < cfg.RegionSize() && ram'[r] == flash'[cfg.context + r]
    {
      if op.Prog? && First(cfg, op) <= r < First(cfg, op) + Count(cfg, op) {
        assert r in d.ready;
        AllOnes(op.data[r - First(cfg, op)]);
      }
    }
  }

  lemma FailureAgrees(op: Op, cfg: LfsConfig, d: Tracked, ram: seq<Byte>, flash: seq<Byte>, flash': seq<Byte>)
    requires Agree(cfg, d, ram, flash) && InRange(cfg, op) && FlashCall(flash, cfg, op, false, flash')
    ensures Agree(cfg, Track(d, cfg, op, false), RamStep(ram, cfg, op), flash')
  {
    hide LfsConfig.At, LfsConfig.RegionSize;
    if !op.Read? {
      RamStepInside(ram, cfg, op);
      hide RamStep, FlashStep;
    }
  }

  lemma AllOnes(x: Byte)
    ensures 0xFF & x == x
  {
  }

  /** The same data, from any contents, over any disciplined run. */
  lemma {:induction false} BackendsAgree(run: seq<Event>, cfg: LfsConfig, d: Tracked, ram: seq<Byte>, flash: seq<Byte>)
    requires Agree(cfg, d, ram, flash) && Disciplined(run, cfg, d, flash)
    ensures SameReads(run, cfg, d, ram, flash)
  {
    if run != [] {
      var e := run[0];
      if e.ok {
        SuccessAgrees(e.op, cfg, d, ram, flash);
      } else {
        FailureAgrees(e.op, cfg, d, ram, flash, e.flash);
      }
      KnownReadAgrees(e, cfg, d, ram, flash);
      hide Agree, SameRead, RamStep, FlashCall, InRange;
      BackendsAgree(run[1..], cfg, Track(d, cfg, e.op, e.ok), RamStep(ram, cfg, e.op), e.flash);
    }
  }

  lemma KnownReadAgrees(e: Event, cfg: LfsConfig, d: Tracked, ram: seq<Byte>, flash: seq<Byte>)
    requires Agree(cfg, d, ram, flash) && InRange(cfg, e.op)
    ensures SameRead(e, cfg, d, ram, flash)
  {
    InRangeInsideRegion(cfg, e.op);
    hide LfsConfig.At, LfsConfig.RegionSize, First, Count;
    var at, n := First(cfg, e.op), Count(cfg, e.op);
    if Range(at, n) <= d.known {
      forall i | 0 <= i < n
        ensures ReadData(ram, at, n)[i] == ReadData(flash, cfg.context + at, n)[i]
      {
        assert at + i in Range(at, n);
      }
    }
  }

  /** From any initial contents: nothing is known, and every disciplined run gives the same reads. */
  lemma BackendsAgreeFromStart(run: seq<Event>, cfg: LfsConfig, ram: seq<Byte>, flash: seq<Byte>)
    requires cfg.RegionSize() <= |ram| && cfg.context + cfg.RegionSize() <= |flash|
    requires Disciplined(run, cfg, Tracked({}, {}), flash)
    ensures SameReads(run, cfg, Tracked({}, {}), ram, flash)
  {
    BackendsAgree(run, cfg, Tracked({}, {}), ram, flash);
  }

  function RamAfter(ram: seq<Byte>, cfg: LfsConfig, run: seq<Event>): seq<Byte>
    decreases |run|
  {
    if run == [] then ram else RamAfter(RamStep(ram, cfg, run[0].op), cfg, run[1..])
  }

  /** What the flash holds before event `k`. */
  function FlashBefore(flash: seq<Byte>, run: seq<Event>, k: nat): seq<Byte>
    requires k <= |run|
  {
    if k == 0 then flash else run[k - 1].flash
  }

  lemma {:induction false} TrackFromFront(d: Tracked, cfg: LfsConfig, run: seq<Event>)
    requires run != []
    ensures TrackRun(d, cfg, run) == TrackRun(Track(d, cfg, run[0].op, run[0].ok), cfg, run[1..])
  {
    hide Track;
    var n := |run| - 1;
    if n > 0 {
      TrackFromFront(d, cfg, run[..n]);
      assert run[..n][1..] == run[1..][..n - 1];
    } else {
      assert run[..0] == [];
      assert TrackRun(d, cfg, []) == d;
    }
  }

  lemma {:induction false} SameReadAt(
    run: seq<Event>, cfg: LfsConfig, d: Tracked, ram: seq<Byte>, flash: seq<Byte>, k: nat)
    requires SameReads(run, cfg, d, ram, flash) && k < |run|
    ensures SameRead(run[k], cfg, TrackRun(d, cfg, run[..k]), RamAfter(ram, cfg, run[..k]), FlashBefore(flash, run, k))
  {
    hide SameRead, Track, RamStep;
    if k > 0 {
      var e := run[0];
      SameReadAt(run[1..], cfg, Track(d, cfg, e.op, e.ok), RamStep(ram, cfg, e.op), e.flash, k - 1);
      TrackFromFront(d, cfg, run[..k]);
      assert run[..k][1..] == run[1..][..k - 1];
    }
  }

  /** Event `k` is in range, leaves what it may leave, and programs only bytes `d` says are ready. */
  ghost predicate StepAllowed(run: seq<Event>, cfg: LfsConfig, d: Tracked, flash: seq<Byte>, k: nat)
    requires k < |run|
  {
    var e := run[k];
    && InRange(cfg, e.op) && FlashCall(FlashBefore(flash, run, k), cfg, e.op, e.ok, e.flash)
    && (e.op.Prog? ==> Range(First(cfg, e.op), Count(cfg, e.op)) <= TrackRun(d, cfg, run[..k]).ready)
  }

  lemma {:induction false} DisciplinedSteps(run: seq<Event>, cfg: LfsConfig, d: Tracked, flash: seq<Byte>)
    ensures Disciplined(run, cfg, d, flash) <==> forall k :: 0 <= k < |run| ==> StepAllowed(run, cfg, d, flash, k)
  {
    if run != [] {
      hide InRange, FlashCall, Track, TrackRun;
      var e := run[0];
      var d', rest := Track(d, cfg, e.op, e.ok), run[1..];
      DisciplinedSteps(rest, cfg, d', e.flash);
      assert TrackRun(d, cfg, run[..0]) == d by {
        TrackNothing(d, cfg);
      }
      forall k | 0 < k < |run|
        ensures StepAllowed(run, cfg, d, flash, k) <==> StepAllowed(rest, cfg, d', e.flash, k - 1)
      {
        TrackFromFront(d, cfg, run[..k]);
        assert run[..k][1..] == rest[..k - 1];
      }
      assert forall k :: 0 <= k < |rest| ==>
          (StepAllowed(rest, cfg, d', e.flash, k) <==> StepAllowed(run, cfg, d, flash, k + 1));
      assert StepAllowed(run, cfg, d, flash, 0) <==>
        && InRange(cfg, e.op) && FlashCall(flash, cfg, e.op, e.ok, e.flash)
        && (e.op.Prog? ==> Range(First(cfg, e.op), Count(cfg, e.op)) <= d.ready);
      assert Disciplined(run, cfg, d, flash) <==>
        StepAllowed(run, cfg, d, flash, 0) && Disciplined(rest, cfg, d', e.flash);
      hide StepAllowed, Disciplined;
    }
  }

  lemma TrackNothing(d: Tracked, cfg: LfsConfig)
    ensures TrackRun(d, cfg, []) == d
  {
  }

  /** The discipline in plain terms: what is programmed has been erased, and not been programmed since. */
  ghost predicate ErasedFirst(run: seq<Event>, cfg: LfsConfig, flash: seq<Byte>) {
    forall k :: 0 <= k < |run| ==> ErasedFirstAt(run, cfg, flash, k)
  }

  ghost predicate ErasedFirstAt(run: seq<Event>, cfg: LfsConfig, flash: seq<Byte>, k: nat)
    requires k < |run|
  {
    var e := run[k];
    && InRange(cfg, e.op) && FlashCall(FlashBefore(flash, run, k), cfg, e.op, e.ok, e.flash)
    && (e.op.Prog? ==> forall r: nat :: Concerns(e, cfg, r) ==> ErasedAndNotUsed(run[..k], cfg, r))
  }

  lemma DisciplinedIff(run: seq<Event>, cfg: LfsConfig, flash: seq<Byte>)
    ensures Disciplined(run, cfg, Tracked({}, {}), flash) <==> ErasedFirst(run, cfg, flash)
  {
    DisciplinedSteps(run, cfg, Tracked({}, {}), flash);
    hide InRange, FlashCall, TrackRun, ErasedAndNotUsed, First, Count;
    forall k | 0 <= k < |run|
      ensures StepAllowed(run, cfg, Tracked({}, {}), flash, k) <==> ErasedFirstAt(run, cfg, flash, k)
    {
      ReadyIff(run[..k], run[k], cfg);
    }
  }

  lemma ReadyIff(run: seq<Event>, e: Event, cfg: LfsConfig)
    ensures Range(First(cfg, e.op), Count(cfg, e.op)) <= TrackRun(Tracked({}, {}), cfg, run).ready
       <==> forall r: nat :: Concerns(e, cfg, r) ==> ErasedAndNotUsed(run, cfg, r)
  {
    hide TrackRun, ErasedAndNotUsed, First, Count;
    forall r: nat
      ensures r in TrackRun(Tracked({}, {}), cfg, run).ready <==> ErasedAndNotUsed(run, cfg, r)
    {
      TrackedIff(run, cfg, r);
    }
  }

  /**
   In every run that programs bytes only after an erase and once per erase, from any contents, a successful read
   whose bytes have each been erased, with no failing call on them since, returns the same data on both devices.
   */
  lemma KnownBytesReadTheSame(run: seq<Event>, cfg: LfsConfig, ram: seq<Byte>, flash: seq<Byte>, k: nat)
    requires cfg.RegionSize() <= |ram| && cfg.context + cfg.RegionSize() <= |flash|
    requires ErasedFirst(run, cfg, flash) && k < |run| && run[k].op.Read? && run[k].ok
    requires forall r: nat :: Concerns(run[k], cfg, r) ==> ErasedAndNotSpoiled(run[..k], cfg, r)
    ensures var at, n := First(cfg, run[k].op), Count(cfg, run[k].op);
      var here, there := RamAfter(ram, cfg, run[..k]), FlashBefore(flash, run, k);
      && at + n <= |here| && cfg.context + at + n <= |there|
      && ReadData(here, at, n) == ReadData(there, cfg.context + at, n)
  {
    DisciplinedIff(run, cfg, flash);
    BackendsAgreeFromStart(run, cfg, ram, flash);
    SameReadAt(run, cfg, Tracked({}, {}), ram, flash, k);
    var d := TrackRun(Tracked({}, {}), cfg, run[..k]);
    hide SameReads, Disciplined, ErasedFirst, ErasedAndNotSpoiled, TrackRun, RamAfter, FlashBefore, First, Count;
    forall r | r in Range(First(cfg, run[k].op), Count(cfg, run[k].op))
      ensures r in d.known
    {
      TrackedIff(run[..k], cfg, r);
    }
  }

  /** Without the discipline: a byte both devices agree on still agrees after a write exactly when no bit is set. */
  lemma WriteAgreesIff(ram: seq<Byte>, flash: seq<Byte>, context: nat, at: nat, data: seq<Byte>, i: nat)
    requires at + |data| <= |ram| && context + at + |data| <= |flash| && at <= i < at + |data|
    requires ram[i] == flash[context + i]
    ensures Spliced(ram, at, data)[i] == Programmed(flash, context + at, data)[context + i]
       <==> Covers(flash[context + i], data[i - at])
  {
    assert Spliced(ram, at, data)[i] == data[i - at];
  }
}
