/**
 Reading, writing and erasing flash through the IoT hardware interface
 (niobeu4/liteos_m/hals/iot_hardware/wifiiot_lite/hal_iot_flash.c). With `doErase` set, a write is a
 read-modify-erase-write: the sectors under the range are backed up on both sides, erased and programmed again.
 */
module IotFlash {
  import opened Machine
  import opened NorFlash

  /** The step of a write that failed, the check of the arguments being the first; Done when none did. */
  datatype Stage = Arguments | Memory | HeadRead | TailRead | Erasing | HeadWrite | TailWrite | Programming | Done

  /** Whether malloc and the calls into the flash driver get through, in the order a write with erase makes them. */
  datatype Outcomes = Outcomes(
    memory: bool, headRead: bool, tailRead: bool, erase: bool, headWrite: bool, tailWrite: bool, write: bool)

  /** The five addresses and sizes an erasing write computes, and the end of the erase they imply. */
  datatype Plan = Plan(start: u32, sectors: u32, head: u32, tailStart: u32, tail: u32)
  {
    function WindowEnd(): nat {
      start + sectors * SECTOR
    }

    /** Both backups lie inside the erased window, or the window is empty. */
    predicate BackupsInside() {
      sectors == 0 || (start + head <= WindowEnd() && start <= tailStart && tailStart + tail == WindowEnd())
    }
  }

  /** The address arithmetic of an erasing write, in the source's 32-bit unsigned arithmetic. */
  function PlanOf(off: u32, size: u32): Plan {
    var startEraseAddr := Wrap(off / SECTOR * SECTOR);
    var endEraseAddr := Wrap((Wrap(off + size) / SECTOR + 1) * SECTOR - 1);
    var eraseSecNum := Wrap(endEraseAddr - startEraseAddr + 1) / SECTOR;
    var lastBackupSize := Wrap(endEraseAddr - Wrap(off + size));
    Plan(startEraseAddr, eraseSecNum, off % SECTOR, Wrap(off + size + 1), lastBackupSize)
  }

  /**
   What an erasing write leaves: `data` at `off`, and the byte just behind it gone to 0xFF. A caller wants
   Spliced(mem, off, data).
   */
  function SplicedWithGap(mem: seq<Byte>, off: nat, data: seq<Byte>): seq<Byte>
    requires off + |data| < |mem|
  {
    mem[..off] + data + [0xFF] + mem[off + |data| + 1..]
  }

  /** Backing up, erasing and restoring both backups, as one function of the contents. */
  function EraseAndRestore(mem: seq<Byte>, p: Plan): seq<Byte>
    requires p.start + p.head <= |mem| && p.tailStart + p.tail <= |mem|
  {
    var head := mem[p.start..p.start + p.head];
    var tail := mem[p.tailStart..p.tailStart + p.tail];
    Programmed(Programmed(Erased(mem, p.start, p.sectors * SECTOR), p.start, head), p.tailStart, tail)
  }

  /** `Wrap` of a whole number of sectors, counted in sectors. */
  lemma WrapSectors(k: int)
    requires -TWO_32 / SECTOR < k <= TWO_32 / SECTOR
    ensures Wrap(k * SECTOR) / SECTOR ==
      if k < 0 then k + TWO_32 / SECTOR else if k == TWO_32 / SECTOR then 0 else k
  {
  }

  /** `Wrap` leaves the last byte of a sector alone. */
  lemma WrapSectorEnd(e: nat)
    requires e < TWO_32 / SECTOR
    ensures Wrap((e + 1) * SECTOR - 1) == e * SECTOR + SECTOR - 1
  {
  }

  /** The plan in whole sectors: `s` is the first sector, `e` the sector of the (wrapped) end address. */
  lemma PlanInSectors(off: u32, size: u32)
    ensures var p := PlanOf(off, size); var s: int := off / SECTOR; var e: int := Wrap(off + size) / SECTOR;
      && p.start == s * SECTOR && p.head == off - s * SECTOR
      && p.sectors == Wrap((e - s + 1) * SECTOR) / SECTOR
      && p.tail == e * SECTOR + SECTOR - 1 - Wrap(off + size)
      && p.tailStart == Wrap(Wrap(off + size) + 1)
  {
    hide Wrap;
    var s: nat, end: nat := off / SECTOR, Wrap(off + size);
    var e: nat := end / SECTOR;
    WrapSmall(s * SECTOR);
    assert e < TWO_32 / SECTOR;
    WrapSectorEnd(e);
    WrapSmall(e * SECTOR + SECTOR - 1 - end);
    WrapOnce(off + size, 1);
    assert e * SECTOR + SECTOR - 1 - s * SECTOR + 1 == (e - s + 1) * SECTOR;
  }

  /**
   The prefix backup, the data, one more byte and the tail backup partition the erased window, for every range
   that ends below the last sector of the address space.
   */
  lemma WindowPartition(off: u32, size: u32)
    requires off + size < TWO_32 - SECTOR
    ensures var p := PlanOf(off, size);
      && p.start % SECTOR == 0 && p.start + p.head == off
      && off + size + 1 == p.tailStart && p.tailStart + p.tail == p.WindowEnd()
      && p.head < SECTOR && p.tail < SECTOR
  {
    hide Wrap, PlanOf;
    PlanInSectors(off, size);
    WrapSmall(off + size);
    WrapSmall(off + size + 1);
    var s: int, e: int := off / SECTOR, (off + size) / SECTOR;
    WrapSectors(e - s + 1);
  }

  /**
   For every offset and size, wrapped or not: unless the window is empty, both backups lie inside it, provided it
   ends below the last sector of the address space.
   */
  lemma BackupsInsideWindow(off: u32, size: u32)
    requires PlanOf(off, size).WindowEnd() < TWO_32 - SECTOR
    ensures PlanOf(off, size).BackupsInside()
  {
    hide Wrap, PlanOf;
    var p := PlanOf(off, size);
    var s: int, e: int, end := off / SECTOR, Wrap(off + size) / SECTOR, Wrap(off + size);
    assert SectorsIn(p, off, end, s, e) by {
      PlanInSectors(off, size);
    }
    WrapSectors(e - s + 1);
    InsideInSectors(p, off, end, s, e);
  }

  ghost predicate SectorsIn(p: Plan, off: u32, end: u32, s: int, e: int) {
    && s * SECTOR <= off < s * SECTOR + SECTOR && e * SECTOR <= end < e * SECTOR + SECTOR
    && p.start == s * SECTOR && p.head == off - s * SECTOR
    && p.sectors == Wrap((e - s + 1) * SECTOR) / SECTOR
    && p.tail == e * SECTOR + SECTOR - 1 - end
    && p.tailStart == Wrap(end + 1)
  }

  lemma InsideInSectors(p: Plan, off: u32, end: u32, s: int, e: int)
    requires SectorsIn(p, off, end, s, e) && p.WindowEnd() < TWO_32 - SECTOR
    requires p.sectors ==
      if e - s + 1 < 0 then e - s + 1 + TWO_32 / SECTOR else if e - s + 1 == TWO_32 / SECTOR then 0 else e - s + 1
    ensures p.BackupsInside()
  {
    if p.sectors != 0 {
      assert s <= e < TWO_32 / SECTOR - 1;
      assert p.tailStart == end + 1;
    }
  }

  /** Erasing and restoring keeps the whole chip except [off, off + size], which becomes 0xFF. */
  lemma EraseAndRestoreKeepsTheRest(mem: seq<Byte>, p: Plan, off: u32, size: u32)
    requires p.start + p.head == off && off + size + 1 == p.tailStart && p.tailStart + p.tail == p.WindowEnd() <= |mem|
    ensures EraseAndRestore(mem, p) == mem[..off] + seq(size + 1, _ => 0xFF) + mem[off + size + 1..]
  {
  }

  /**
   A successful erasing write followed by the last program step: the caller's bytes are in place, every other
   address is unchanged, except off + size, which is 0xFF.
   */
  lemma ErasingWriteLeavesGap(mem: seq<Byte>, off: u32, data: seq<Byte>)
    requires |data| < TWO_32 && off + |data| < TWO_32 - SECTOR && PlanOf(off, |data|).WindowEnd() <= |mem|
    ensures off + |data| < |mem|
    ensures var p := PlanOf(off, |data|); p.start + p.head <= |mem| && p.tailStart + p.tail <= |mem|
    ensures Programmed(EraseAndRestore(mem, PlanOf(off, |data|)), off, data) == SplicedWithGap(mem, off, data)
  {
    hide Wrap, PlanOf;
    WindowPartition(off, |data|);
    EraseAndRestoreKeepsTheRest(mem, PlanOf(off, |data|), off, |data|);
  }

  /** The write keeps every byte outside the range exactly when the byte after the range was erased before. */
  lemma ExactWhenNextByteErased(mem: seq<Byte>, off: nat, data: seq<Byte>)
    requires off + |data| < |mem|
    ensures SplicedWithGap(mem, off, data) == Spliced(mem, off, data) <==> mem[off + |data|] == 0xFF
  {
    assert SplicedWithGap(mem, off, data)[off + |data|] == 0xFF;
    assert Spliced(mem, off, data)[off + |data|] == mem[off + |data|];
    assert mem[off + |data|..] == [mem[off + |data|]] + mem[off + |data| + 1..];
  }

  /** A chip of one sector of zeros, one byte written with erase: the next byte becomes 0xFF. */
  lemma NextByteLost()
    ensures var mem := seq(SECTOR, _ => 0 as Byte); var p := PlanOf(0, 1);
      && p.start + p.head <= |mem| && p.tailStart + p.tail <= |mem|
      && Programmed(EraseAndRestore(mem, p), 0, [0])[1] == 0xFF != mem[1]
  {
    hide EraseAndRestore, Wrap;
    WindowPartition(0, 1);
    ErasingWriteLeavesGap(seq(SECTOR, _ => 0 as Byte), 0, [0]);
  }

  /** Without an erase, the data reads back exactly when it sets no bit the chip had cleared. */
  lemma PlainWriteReadsBack(mem: seq<Byte>, off: nat, data: seq<Byte>)
    requires off + |data| <= |mem|
    ensures Programmed(mem, off, data)[off..off + |data|] == data
       <==> forall k :: 0 <= k < |data| ==> Covers(mem[off + k], data[k])
  {
    var r := Programmed(mem, off, data)[off..off + |data|];
    forall k | 0 <= k < |data|
      ensures r[k] == data[k] <==> Covers(mem[off + k], data[k])
    {
      assert r[k] == mem[off + k] & data[k];
    }
    hide Programmed, Covers;
    assert r == data <==> forall k :: 0 <= k < |data| ==> r[k] == data[k];
  }

  /** The effect of one write without erase, successful or not. */
  ghost predicate PlainWrite(before: seq<Byte>, after: seq<Byte>, off: nat, data: seq<Byte>, r: IotResult)
  {
    if r == IOT_SUCCESS then off + |data| <= |before| && after == Programmed(before, off, data)
    else TornProgram(before, after, off, data)
  }

  datatype Write = Write(off: nat, data: seq<Byte>, r: IotResult)

  /** A run of writes without erase, whichever of them fail. */
  ghost predicate PlainRun(states: seq<seq<Byte>>, writes: seq<Write>)
  {
    && |states| == |writes| + 1
    && forall k :: 0 <= k < |writes| ==>
         PlainWrite(states[k], states[k + 1], writes[k].off, writes[k].data, writes[k].r)
  }

  /** Over any run of writes without erase, bits only ever go from 1 to 0. */
  lemma {:induction false} BitsOnlyClear(states: seq<seq<Byte>>, writes: seq<Write>, i: nat)
    requires PlainRun(states, writes) && i < |states[0]|
    ensures |states[|writes|]| == |states[0]| && Covers(states[0][i], states[|writes|][i])
  {
    if |writes| == 0 {
      AndCovers(states[0][i], 0);
    } else {
      var w := writes[0];
      assert PlainWrite(states[0], states[1], w.off, w.data, w.r);
      AndCovers(states[0][i], 0);
      if w.off <= i < w.off + |w.data| {
        AndCovers(states[0][i], w.data[i - w.off]);
      }
      var rest := states[1..];
      assert PlainRun(rest, writes[1..]) by {
        forall k | 0 <= k < |writes[1..]|
          ensures PlainWrite(rest[k], rest[k + 1], writes[1..][k].off, writes[1..][k].data, writes[1..][k].r)
        {
          assert PlainWrite(states[k + 1], states[k + 2], writes[k + 1].off, writes[k + 1].data, writes[k + 1].r);
        }
      }
      BitsOnlyClear(rest, writes[1..], i);
      CoversTransitive(states[0][i], states[1][i], rest[|writes| - 1][i]);
    }
  }

  /** Over such a run a byte that no write's range contains keeps its value. */
  lemma {:induction false} UntouchedByteKept(states: seq<seq<Byte>>, writes: seq<Write>, i: nat)
    requires PlainRun(states, writes) && i < |states[0]|
    requires forall k :: 0 <= k < |writes| ==> !(writes[k].off <= i < writes[k].off + |writes[k].data|)
    ensures |states[|writes|]| == |states[0]| && states[|writes|][i] == states[0][i]
  {
    if |writes| > 0 {
      var n := |writes| - 1;
      assert PlainRun(states[..|writes|], writes[..n]);
      UntouchedByteKept(states[..|writes|], writes[..n], i);
      assert PlainWrite(states[n], states[n + 1], writes[n].off, writes[n].data, writes[n].r);
    }
  }

  method IoTFlashRead(chip: Chip, flashOffset: u32, size: u32, ramData: array?<Byte>, works: bool)
    returns (r: IotResult)
    requires ramData != null ==> size <= ramData.Length && ramData != chip.cells
    modifies ramData
    ensures r == IOT_SUCCESS <==>
      size != 0 && ramData != null && works && flashOffset + size <= chip.cells.Length
    ensures size == 0 && ramData != null ==> ramData[..] == old(ramData[..])
    ensures r == IOT_SUCCESS ==>
      ramData[..] == chip.cells[flashOffset..flashOffset + size] + old(ramData[size..])
  {
    if size == 0 || ramData == null {
      return IOT_FAILURE;
    }
    var ok := chip.Read(flashOffset, ramData, 0, size, works);
    return if ok then IOT_SUCCESS else IOT_FAILURE;
  }

  /** Programming bytes the chip already holds changes nothing, even when it stops half way. */
  lemma ReprogramSame(before: seq<Byte>, after: seq<Byte>, at: nat, n: nat)
    requires at + n <= |before|
    requires TornProgram(before, after, at, before[at..at + n]) || after == Programmed(before, at, before[at..at + n])
    ensures after == before
  {
    forall i | 0 <= i < |before|
      ensures |after| == |before| && after[i] == before[i]
    {
      if at <= i < at + n {
        AndCovers(before[i], before[i]);
        if TornProgram(before, after, at, before[at..at + n]) {
          SameWhenCovered(before[i], after[i]);
        }
      }
    }
  }

  lemma SameWhenCovered(a: Byte, b: Byte)
    requires Covers(a, b) && Covers(b, a & a)
    ensures a == b
  {
  }

  /** Restoring a backup taken from `before` never reaches outside the window. */
  lemma RestoreInside(before: seq<Byte>, mid: seq<Byte>, after: seq<Byte>, p: Plan, at: nat, n: nat)
    requires at + n <= |before|
    requires OnlyInside(before, mid, p.start, p.WindowEnd())
    requires p.sectors == 0 || (p.start <= at && at + n <= p.WindowEnd())
    requires TornProgram(mid, after, at, before[at..at + n]) || after == Programmed(mid, at, before[at..at + n])
    ensures OnlyInside(before, after, p.start, p.WindowEnd())
  {
    if p.sectors == 0 {
      assert mid == before;
      ReprogramSame(before, after, at, n);
    }
  }

  predicate HeadIsRead(n: nat, p: Plan, o: Outcomes) { o.memory && o.headRead && p.start + p.head <= n }

  predicate BackupsRead(n: nat, p: Plan, o: Outcomes) { HeadIsRead(n, p, o) && o.tailRead && p.tailStart + p.tail <= n }

  predicate WindowErased(n: nat, p: Plan, o: Outcomes) { BackupsRead(n, p, o) && o.erase && p.WindowEnd() <= n }

  /**
   A failing step before the last one, on a chip of `n` bytes: everything before it got through, and it did not,
   whether the hardware failed or the chip was left.
   */
  predicate StoppedAt(stage: Stage, n: nat, p: Plan, o: Outcomes) {
    match stage
    case Memory => !o.memory
    case HeadRead => o.memory && !HeadIsRead(n, p, o)
    case TailRead => HeadIsRead(n, p, o) && !BackupsRead(n, p, o)
    case Erasing => BackupsRead(n, p, o) && !WindowErased(n, p, o)
    case HeadWrite => WindowErased(n, p, o) && !o.headWrite
    case TailWrite => WindowErased(n, p, o) && o.headWrite && !o.tailWrite
    case _ => false
  }

  /** Copies both backups into one buffer: the prefix first, the tail behind it. */
  method BackUp(chip: Chip, p: Plan, o: Outcomes) returns (backupBuffer: array?<Byte>, ghost stage: Stage)
    ensures backupBuffer == null <==> stage in {Memory, HeadRead, TailRead}
    ensures StoppedAt(stage, chip.cells.Length, p, o) || (stage == Done && BackupsRead(chip.cells.Length, p, o))
    ensures backupBuffer != null ==>
      && fresh(backupBuffer) && backupBuffer.Length == p.head + p.tail
      && p.start + p.head <= chip.cells.Length && p.tailStart + p.tail <= chip.cells.Length
      && backupBuffer[..p.head] == chip.cells[p.start..p.start + p.head]
      && backupBuffer[p.head..] == chip.cells[p.tailStart..p.tailStart + p.tail]
  {
    if !o.memory {
      return null, Memory;
    }
    backupBuffer := new Byte[p.head + p.tail];
    var ok := chip.Read(p.start, backupBuffer, 0, p.head, o.headRead);
    if !ok {
      return null, HeadRead;
    }
    assert backupBuffer[..p.head] == chip.cells[p.start..p.start + p.head];
    ok := chip.Read(p.tailStart, backupBuffer, p.head, p.tail, o.tailRead);
    if !ok {
      return null, TailRead;
    }
    stage := Done;
  }

  /** Programs both backups, taken from `before`, back into place. */
  method Restore(chip: Chip, p: Plan, o: Outcomes, head: seq<Byte>, tail: seq<Byte>, ghost before: seq<Byte>)
    returns (ok: bool, ghost stage: Stage)
    requires p.start + p.head <= |before| && p.tailStart + p.tail <= |before|
    requires head == before[p.start..p.start + p.head] && tail == before[p.tailStart..p.tailStart + p.tail]
    requires p.BackupsInside() && OnlyInside(before, chip.cells[..], p.start, p.WindowEnd())
    modifies chip.cells
    ensures ok <==> o.headWrite && o.tailWrite
    ensures stage == if !o.headWrite then HeadWrite else if !o.tailWrite then TailWrite else Done
    ensures ok ==> chip.cells[..] == Programmed(Programmed(old(chip.cells[..]), p.start, head), p.tailStart, tail)
    ensures OnlyInside(before, chip.cells[..], p.start, p.WindowEnd())
  {
    hide Programmed, TornProgram, OnlyInside;
    ghost var erased := chip.cells[..];
    stage := HeadWrite;
    ok := chip.Program(p.start, head, o.headWrite);
    RestoreInside(before, erased, chip.cells[..], p, p.start, p.head);
    if !ok {
      return;
    }
    stage := TailWrite;
    ghost var restored := chip.cells[..];
    ok := chip.Program(p.tailStart, tail, o.tailWrite);
    RestoreInside(before, restored, chip.cells[..], p, p.tailStart, p.tail);
    if ok {
      stage := Done;
    }
  }

  /** A write whose range does not end below the last sector restores all it erased. */
  lemma WrappedWriteRestoresAll(mem: seq<Byte>, off: u32, size: u32)
    requires off + size >= TWO_32 - SECTOR && PlanOf(off, size).WindowEnd() <= |mem| < TWO_32 - SECTOR
    requires var p := PlanOf(off, size); p.start + p.head <= |mem| && p.tailStart + p.tail <= |mem|
    ensures EraseAndRestore(mem, PlanOf(off, size)) == mem
  {
    var p, end := PlanOf(off, size), Wrap(off + size);
    PlanInSectors(off, size);
    BackupsInsideWindow(off, size);
    if off + size < TWO_32 {
      WrapSmall(off + size);
    } else {
      WrapAround(off + size - TWO_32, 1);
      WrapSmall(off + size - TWO_32);
    }
    hide PlanOf, Wrap;
    if p.sectors != 0 {
      assert p.tailStart <= p.start + p.head by {
        TailMeetsHead(off, size, p, end);
      }
    }
    RestoresAll(mem, p);
  }

  lemma TailMeetsHead(off: u32, size: u32, p: Plan, end: u32)
    requires p.sectors != 0 && p.BackupsInside() && p.WindowEnd() < TWO_32 - SECTOR
    requires p.start + p.head == off && p.tail == end / SECTOR * SECTOR + SECTOR - 1 - end
    requires (end == off + size || end == off + size - TWO_32) && p.tailStart == Wrap(end + 1)
    requires off + size >= TWO_32 - SECTOR
    ensures p.tailStart <= p.start + p.head
  {
    if end + 1 < TWO_32 {
      WrapSmall(end + 1);
    } else {
      WrapAround(0, 1);
    }
  }

  /** When the backups overlap or meet, nothing stays erased. */
  lemma RestoresAll(mem: seq<Byte>, p: Plan)
    requires p.WindowEnd() <= |mem| && p.start + p.head <= |mem| && p.tailStart + p.tail <= |mem|
    requires p.sectors == 0 || (p.BackupsInside() && p.tailStart <= p.start + p.head)
    ensures EraseAndRestore(mem, p) == mem
  {
    assert |EraseAndRestore(mem, p)| == |mem|;
    hide EraseAndRestore, Plan.BackupsInside, Plan.WindowEnd;
    forall i | 0 <= i < |mem|
      ensures EraseAndRestore(mem, p)[i] == mem[i]
    {
      RestoresByte(mem, p, i);
    }
  }

  lemma RestoresByte(mem: seq<Byte>, p: Plan, i: nat)
    requires p.WindowEnd() <= |mem| && p.start + p.head <= |mem| && p.tailStart + p.tail <= |mem|
    requires p.sectors == 0 || (p.BackupsInside() && p.tailStart <= p.start + p.head)
    requires i < |mem|
    ensures |EraseAndRestore(mem, p)| == |mem| && EraseAndRestore(mem, p)[i] == mem[i]
  {
    var erased := Erased(mem, p.start, p.sectors * SECTOR);
    var once := Programmed(erased, p.start, mem[p.start..p.start + p.head]);
    assert |once| == |mem|;
    assert |EraseAndRestore(mem, p)| == |mem|;
    var window, head, tail :=
      p.start <= i < p.WindowEnd(), p.start <= i < p.start + p.head, p.tailStart <= i < p.tailStart + p.tail;
    hide Plan.BackupsInside;
    BackupsFillWindow(p, i);
    assert erased[i] == if window then 0xFF else mem[i];
    RestoredByte(mem, erased, p.start, p.head, i);
    RestoredByte(mem, once, p.tailStart, p.tail, i);
    hide Erased, Programmed;
    AllOnesAnd(mem[i], window, head, tail);
  }

  /** One byte once a backup taken from `mem` has been programmed over `now`. */
  lemma RestoredByte(mem: seq<Byte>, now: seq<Byte>, at: nat, n: nat, i: nat)
    requires at + n <= |mem| && |now| == |mem| && i < |mem|
    ensures Programmed(now, at, mem[at..at + n])[i] == if at <= i < at + n then now[i] & mem[i] else now[i]
  {
  }

  lemma BackupsFillWindow(p: Plan, i: nat)
    requires p.sectors == 0 || (p.BackupsInside() && p.tailStart <= p.start + p.head)
    ensures p.start <= i < p.WindowEnd() ==> p.start <= i < p.start + p.head || p.tailStart <= i < p.tailStart + p.tail
  {
  }

  /** A byte once erased when in the window and programmed when in a backup, given that the backups fill the window. */
  lemma AllOnesAnd(x: Byte, window: bool, head: bool, tail: bool)
    requires window ==> head || tail
    ensures
      var erased := if window then 0xFF else x;
      var once := if head then erased & x else erased;
      (if tail then once & x else once) == x
  {
  }

  /** The erasing half of a write: back up both sides, erase the sectors, restore both sides. */
  method BackupEraseRestore(chip: Chip, p: Plan, o: Outcomes) returns (ok: bool, ghost stage: Stage)
    requires p.start % SECTOR == 0 && (p.WindowEnd() <= chip.cells.Length ==> p.BackupsInside())
    modifies chip.cells
    ensures ok <==> WindowErased(chip.cells.Length, p, o) && o.headWrite && o.tailWrite
    ensures (ok <==> stage == Done) && stage != Arguments && stage != Programming
    ensures !ok ==> StoppedAt(stage, chip.cells.Length, p, o)
    ensures ok ==> chip.cells[..] == EraseAndRestore(old(chip.cells[..]), p)
    ensures stage in {Memory, HeadRead, TailRead} ==> chip.cells[..] == old(chip.cells[..])
    ensures OnlyInside(old(chip.cells[..]), chip.cells[..], p.start, p.WindowEnd())
  {
    hide Programmed, TornProgram;
    ghost var before := chip.cells[..];
    var backupBuffer;
    backupBuffer, stage := BackUp(chip, p, o);
    if backupBuffer == null {
      return false, stage;
    }
    var head, tail := backupBuffer[..p.head], backupBuffer[p.head..];
    stage := Erasing;
    ok := chip.Erase(p.start, p.sectors * SECTOR, o.erase);
    if !ok {
      return;
    }
    ok, stage := Restore(chip, p, o, head, tail, before);
  }

  /** The end of the sector that holds the byte behind the range. */
  function EndOfSector(off: u32, size: u32): nat {
    ((off + size) / SECTOR + 1) * SECTOR
  }

  lemma WindowEndsWithSector(off: u32, size: u32)
    requires off + size < TWO_32 - SECTOR
    ensures PlanOf(off, size).WindowEnd() == EndOfSector(off, size)
  {
    hide Wrap, PlanOf;
    WindowPartition(off, size);
    PlanInSectors(off, size);
    WrapSmall(off + size);
  }

  predicate AllButLast(o: Outcomes) {
    o.memory && o.headRead && o.tailRead && o.erase && o.headWrite && o.tailWrite
  }

  /** When the erasing half of a write on a chip of `n` bytes gets through. */
  lemma RestoredIff(off: u32, size: u32, n: nat, o: Outcomes)
    requires n < TWO_32 - SECTOR
    ensures var restored := WindowErased(n, PlanOf(off, size), o) && o.headWrite && o.tailWrite;
      && (restored && off + size <= n <==> AllButLast(o) && EndOfSector(off, size) <= n)
      && (restored && off + size < TWO_32 - SECTOR ==> off + size < n)
  {
    hide PlanOf;
    if off + size < TWO_32 - SECTOR {
      WindowPartition(off, size);
      WindowEndsWithSector(off, size);
    }
  }

  /**
   `ramData` is the caller's buffer (None for NULL). The chip ends below the last sector of the 4 GiB address
   space; nothing else is assumed about the offset and the size. `stage` tells which step failed.
   */
  method IoTFlashWrite(
    chip: Chip, flashOffset: u32, size: u32, ramData: Option<seq<Byte>>, doErase: bv8, o: Outcomes)
    returns (r: IotResult, ghost stage: Stage)
    requires chip.cells.Length < TWO_32 - SECTOR
    requires ramData.Some? ==> size <= |ramData.value|
    modifies chip.cells
    // A write succeeds exactly when it has data, every call gets through, and what it touches lies on the chip.
    ensures r == IOT_SUCCESS <==>
      && size != 0 && ramData.Some? && o.write && flashOffset + size <= chip.cells.Length
      && (doErase == 1 ==> AllButLast(o) && EndOfSector(flashOffset, size) <= chip.cells.Length)
    // Otherwise the stage is the first step that failed.
    ensures stage == Done <==> r == IOT_SUCCESS
    ensures stage == Arguments <==> size == 0 || ramData == None
    ensures stage !in {Arguments, Programming, Done} ==>
      doErase == 1 && StoppedAt(stage, chip.cells.Length, PlanOf(flashOffset, size), o)
    ensures stage == Programming ==>
      && !(o.write && flashOffset + size <= chip.cells.Length)
      && (doErase == 1 ==>
            WindowErased(chip.cells.Length, PlanOf(flashOffset, size), o) && o.headWrite && o.tailWrite)
    // Success with an erase: exactly the requested range, plus the byte after it.
    ensures r == IOT_SUCCESS && doErase == 1 ==>
      && flashOffset + size < chip.cells.Length
      && chip.cells[..] == SplicedWithGap(old(chip.cells[..]), flashOffset, ramData.value[..size])
    // Without an erase: old AND new in range, nothing else.
    ensures doErase != 1 && size != 0 && ramData.Some? ==>
      PlainWrite(old(chip.cells[..]), chip.cells[..], flashOffset, ramData.value[..size], r)
    // Failure before the erase changes nothing.
    ensures stage in {Arguments, Memory, HeadRead, TailRead} ==> chip.cells[..] == old(chip.cells[..])
    // Failure of the erase or of a restore stays inside the window.
    ensures stage in {Erasing, HeadWrite, TailWrite} ==>
      OnlyInside(old(chip.cells[..]), chip.cells[..],
                 PlanOf(flashOffset, size).start, PlanOf(flashOffset, size).WindowEnd())
    // Failure of the last step of an erasing write: both backups are already back in place.
    ensures stage == Programming && doErase == 1 ==>
      OnlyInside(old(chip.cells[..]), chip.cells[..], flashOffset, flashOffset + size + 1)
  {
    hide Wrap, PlanOf, Erased, Programmed, StoppedAt, AllButLast, EndOfSector;
    if size == 0 || ramData == None {
      return IOT_FAILURE, Arguments;
    }
    ghost var before := chip.cells[..];
    if doErase == 1 {
      var p := PlanOf(flashOffset, size);
      if p.WindowEnd() < TWO_32 - SECTOR {
        BackupsInsideWindow(flashOffset, size);
      }
      PlanInSectors(flashOffset, size);
      RestoredIff(flashOffset, size, chip.cells.Length, o);
      var restored;
      restored, stage := BackupEraseRestore(chip, p, o);
      if !restored {
        return IOT_FAILURE, stage;
      }
      if flashOffset + size < TWO_32 - SECTOR {
        WindowPartition(flashOffset, size);
        EraseAndRestoreKeepsTheRest(before, p, flashOffset, size);
        ErasingWriteLeavesGap(before, flashOffset, ramData.value[..size]);
      } else {
        WrappedWriteRestoresAll(before, flashOffset, size);
      }
    }
    stage := Programming;
    var ok := chip.Program(flashOffset, ramData.value[..size], o.write);
    if !ok {
      return IOT_FAILURE, stage;
    }
    return IOT_SUCCESS, Done;
  }

  method IoTFlashErase(chip: Chip, flashOffset: u32, size: u32, works: bool) returns (r: IotResult)
    modifies chip.cells
    ensures r == IOT_SUCCESS <==>
      && size != 0 && works && flashOffset % SECTOR == 0 && size % SECTOR == 0
      && flashOffset + size <= chip.cells.Length
    ensures size == 0 ==> chip.cells[..] == old(chip.cells[..])
    ensures r == IOT_SUCCESS ==> chip.cells[..] == Erased(old(chip.cells[..]), flashOffset, size)
    ensures OnlyInside(old(chip.cells[..]), chip.cells[..], flashOffset, flashOffset + size)
  {
    if size == 0 {
      return IOT_FAILURE;
    }
    var ok := chip.Erase(flashOffset, size, works);
    return if ok then IOT_SUCCESS else IOT_FAILURE;
  }

  /**
   An erasing write and a read of the same range, when both succeed, give the caller's bytes back; and both do succeed
   for a range on the chip and calls that all get through.
   */
  method WriteThenRead(chip: Chip, flashOffset: u32, ramData: seq<Byte>, buffer: array<Byte>, o: Outcomes, works: bool)
    returns (written: IotResult, readBack: IotResult)
    requires chip.cells.Length < TWO_32 - SECTOR && |ramData| < TWO_32
    requires buffer.Length == |ramData| && buffer != chip.cells
    modifies chip.cells, buffer
    ensures written == IOT_SUCCESS && readBack == IOT_SUCCESS ==> buffer[..] == ramData
    ensures
      && ramData != [] && EndOfSector(flashOffset, |ramData|) <= chip.cells.Length && works
      && o == Outcomes(true, true, true, true, true, true, true) ==>
      written == IOT_SUCCESS && readBack == IOT_SUCCESS
  {
    hide StoppedAt, WindowErased, PlanOf;
    ghost var stage;
    ghost var before := chip.cells[..];
    written, stage := IoTFlashWrite(chip, flashOffset, |ramData|, Some(ramData), 1, o);
    readBack := IoTFlashRead(chip, flashOffset, |ramData|, buffer, works);
    if written == IOT_SUCCESS && readBack == IOT_SUCCESS {
      assert ramData[..|ramData|] == ramData;
      assert chip.cells[..] == SplicedWithGap(before, flashOffset, ramData);
      assert chip.cells[flashOffset..flashOffset + |ramData|]
          == SplicedWithGap(before, flashOffset, ramData)[flashOffset..flashOffset + |ramData|] == ramData;
      assert buffer[..] == chip.cells[flashOffset..flashOffset + |ramData|];
    }
  }
}
