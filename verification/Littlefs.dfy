/**
 The two block back ends littlefs can be mounted on: a RAM buffer
 (niobeu4/liteos_m/third_party_adapter/littlefs/littlefs_ram.c), where a write overwrites, and a flash partition
 (niobeu4/liteos_m/third_party_adapter/littlefs/littlefs.c), where a write can only clear bits.
 */
module Littlefs {
  import opened Machine
  import opened NorFlash

  datatype Status = LOS_OK | LOS_NOK

  /** The part of `struct lfs_config` both back ends read; `context` is the region's start. */
  datatype LfsConfig = LfsConfig(context: u32, blockSize: u32, blockCount: nat)
  {
    function RegionSize(): nat { blockSize * blockCount }

    /** The exact address of byte `off` of `block`, counted from the start of the region. */
    function At(block: nat, off: nat): nat { blockSize * block + off }
  }

  /** One call littlefs makes. */
  datatype Op =
    | Erase(block: nat)
    | Prog(block: nat, off: nat, data: seq<Byte>)
    | Read(block: nat, off: nat, size: nat)

  /** Inside one block of the region, and not empty. */
  predicate InRange(cfg: LfsConfig, op: Op) {
    match op
    case Erase(b) => b < cfg.blockCount && cfg.blockSize > 0
    case Prog(b, off, data) => b < cfg.blockCount && off + |data| <= cfg.blockSize && data != []
    case Read(b, off, n) => b < cfg.blockCount && off + n <= cfg.blockSize && n > 0
  }

  /** The bytes an operation covers, counted from the start of the region. */
  function First(cfg: LfsConfig, op: Op): nat {
    match op
    case Erase(b) => cfg.At(b, 0)
    case Prog(b, off, _) => cfg.At(b, off)
    case Read(b, off, _) => cfg.At(b, off)
  }

  function Count(cfg: LfsConfig, op: Op): nat {
    match op
    case Erase(_) => cfg.blockSize
    case Prog(_, _, data) => |data|
    case Read(_, _, n) => n
  }

  lemma {:induction false} LaterMultiple(size: nat, b: nat, c: nat)
    requires b < c
    ensures size * b + size <= size * c
  {
    assert size * c == size * (c - 1) + size;
    if b + 1 < c {
      LaterMultiple(size, b, c - 1);
    }
  }

  /** Blocks follow one another without overlap, all of them inside the region. */
  lemma BlocksAreDisjoint(cfg: LfsConfig, b: nat, c: nat)
    requires b < c <= cfg.blockCount
    ensures cfg.At(b, 0) + cfg.blockSize <= cfg.At(c, 0) <= cfg.RegionSize()
  {
    LaterMultiple(cfg.blockSize, b, c);
    if c < cfg.blockCount {
      LaterMultiple(cfg.blockSize, c, cfg.blockCount);
    }
  }

  lemma InRangeInsideRegion(cfg: LfsConfig, op: Op)
    requires InRange(cfg, op)
    ensures cfg.At(op.block, 0) <= First(cfg, op)
    ensures First(cfg, op) + Count(cfg, op) <= cfg.At(op.block, 0) + cfg.blockSize
    ensures cfg.At(op.block, 0) + cfg.blockSize <= cfg.RegionSize()
  {
    BlocksAreDisjoint(cfg, op.block, cfg.blockCount);
  }

  /** What an operation in range makes of the RAM buffer. */
  function RamStep(ram: seq<Byte>, cfg: LfsConfig, op: Op): (r: seq<Byte>)
    ensures |r| == |ram|
  {
    match op
    case Erase(b) => Erased(ram, cfg.At(b, 0), cfg.blockSize)
    case Prog(b, off, data) => Spliced(ram, cfg.At(b, off), data)
    case Read(_, _, _) => ram
  }

  /** What a successful operation in range makes of the flash chip. */
  function FlashStep(flash: seq<Byte>, cfg: LfsConfig, op: Op): (r: seq<Byte>)
    ensures |r| == |flash|
  {
    match op
    case Erase(b) => Erased(flash, cfg.context + cfg.At(b, 0), cfg.blockSize)
    case Prog(b, off, data) => Programmed(flash, cfg.context + cfg.At(b, off), data)
    case Read(_, _, _) => flash
  }

  /** In range of a region that fits a device of less than 4 GiB no address computation wraps around. */
  lemma InRangeDoesNotWrap(cfg: LfsConfig, op: Op, base: nat, size: nat)
    requires InRange(cfg, op) && base + cfg.RegionSize() <= size < TWO_32
    ensures base + First(cfg, op) + Count(cfg, op) <= size && Wrap(base + First(cfg, op)) == base + First(cfg, op)
    ensures Wrap(base + First(cfg, op) + Count(cfg, op)) == base + First(cfg, op) + Count(cfg, op)
  {
    InRangeInsideRegion(cfg, op);
    hide LfsConfig.At, LfsConfig.RegionSize, First, Count;
    WrapSmall(base + First(cfg, op));
    WrapSmall(base + First(cfg, op) + Count(cfg, op));
  }

  /**
   littlefs_ram.c: the buffer is the whole region. Addresses wrap around; the one thing required of a caller is that
   a range accepted by the check against the buffer's size does lie inside the buffer.
   */
  class RamDisk {
    const buf: array<Byte>

    constructor (contents: seq<Byte>)
      ensures buf[..] == contents && fresh(buf)
    {
      buf := new Byte[|contents|](i requires 0 <= i < |contents| => contents[i]);
    }

    /** A range that passes the check does not run over the end of the address space. */
    ghost predicate Accessible(at: u32, size: u32) {
      Wrap(at + size) <= buf.Length ==> at + size < TWO_32
    }

    /** `littlefs_config`: every byte starts erased, and the blocks fit the buffer. */
    method Config(blockSize: u32) returns (cfg: LfsConfig)
      requires blockSize > 0
      modifies buf
      ensures cfg.context == 0 && cfg.blockSize == blockSize
      ensures cfg.RegionSize() <= buf.Length < cfg.RegionSize() + blockSize
      ensures forall i :: 0 <= i < buf.Length ==> buf[i] == 0xFF
    {
      forall i | 0 <= i < buf.Length {
        buf[i] := 0xFF;
      }
      cfg := LfsConfig(0, blockSize, buf.Length / blockSize);
    }

    method BlockRead(cfg: LfsConfig, block: u32, off: u32, buffer: array<Byte>, size: u32) returns (ret: Status)
      requires size <= buffer.Length && buffer != buf && buf.Length < TWO_32
      requires Accessible(Wrap(cfg.At(block, off)), size)
      modifies buffer
      ensures var at := Wrap(cfg.At(block, off));
        && (ret == LOS_OK <==> size != 0 && at + size <= buf.Length)
        && buffer[..] == (if ret == LOS_OK then buf[at..at + size] + old(buffer[size..]) else old(buffer[..]))
      ensures InRange(cfg, Read(block, off, size)) && cfg.RegionSize() <= buf.Length ==>
        && ret == LOS_OK && cfg.At(block, off) + size <= buf.Length
        && buffer[..size] == buf[cfg.At(block, off)..cfg.At(block, off) + size]
    {
      var at := Wrap(cfg.At(block, off));
      CheckedRange(at, size, buf.Length);
      if InRange(cfg, Read(block, off, size)) && cfg.RegionSize() <= buf.Length {
        InRangeDoesNotWrap(cfg, Read(block, off, size), 0, buf.Length);
      }
      hide LfsConfig.At, LfsConfig.RegionSize, Wrap;
      if Wrap(at + size) > buf.Length {
        return LOS_NOK;
      }
      if size == 0 {
        return LOS_NOK;
      }
      forall k | 0 <= k < size {
        buffer[k] := buf[at + k];
      }
      ret := LOS_OK;
    }

    method BlockWrite(cfg: LfsConfig, block: u32, off: u32, buffer: seq<Byte>) returns (ret: Status)
      requires |buffer| < TWO_32 && buf.Length < TWO_32
      requires Accessible(Wrap(cfg.At(block, off)), |buffer|)
      modifies buf
      ensures var at := Wrap(cfg.At(block, off));
        && (ret == LOS_OK <==> buffer != [] && at + |buffer| <= buf.Length)
        && buf[..] == (if ret == LOS_OK then Spliced(old(buf[..]), at, buffer) else old(buf[..]))
      ensures InRange(cfg, Prog(block, off, buffer)) && cfg.RegionSize() <= buf.Length ==>
        ret == LOS_OK && buf[..] == RamStep(old(buf[..]), cfg, Prog(block, off, buffer))
    {
      var at := Wrap(cfg.At(block, off));
      CheckedRange(at, |buffer|, buf.Length);
      if InRange(cfg, Prog(block, off, buffer)) && cfg.RegionSize() <= buf.Length {
        InRangeDoesNotWrap(cfg, Prog(block, off, buffer), 0, buf.Length);
      }
      hide LfsConfig.At, LfsConfig.RegionSize, Wrap;
      if Wrap(at + |buffer|) > buf.Length {
        return LOS_NOK;
      }
      if |buffer| == 0 {
        return LOS_NOK;
      }
      forall k | at <= k < at + |buffer| {
        buf[k] := buffer[k - at];
      }
      assert buf[..] == Spliced(old(buf[..]), at, buffer);
      ret := LOS_OK;
    }

    method BlockErase(cfg: LfsConfig, block: u32) returns (ret: Status)
      requires buf.Length < TWO_32 && Accessible(Wrap(cfg.At(block, 0)), cfg.blockSize)
      modifies buf
      ensures var at := Wrap(cfg.At(block, 0));
        && (ret == LOS_OK <==> cfg.blockSize != 0 && at + cfg.blockSize <= buf.Length)
        && buf[..] == (if ret == LOS_OK then Erased(old(buf[..]), at, cfg.blockSize) else old(buf[..]))
      ensures InRange(cfg, Erase(block)) && cfg.RegionSize() <= buf.Length ==>
        ret == LOS_OK && buf[..] == RamStep(old(buf[..]), cfg, Erase(block))
    {
      var at := Wrap(cfg.At(block, 0));
      CheckedRange(at, cfg.blockSize, buf.Length);
      if InRange(cfg, Erase(block)) && cfg.RegionSize() <= buf.Length {
        InRangeDoesNotWrap(cfg, Erase(block), 0, buf.Length);
      }
      hide LfsConfig.At, LfsConfig.RegionSize, Wrap;
      if Wrap(at + cfg.blockSize) > buf.Length {
        return LOS_NOK;
      }
      if cfg.blockSize == 0 {
        return LOS_NOK;
      }
      forall k | at <= k < at + cfg.blockSize {
        buf[k] := 0xFF;
      }
      assert buf[..] == Erased(old(buf[..]), at, cfg.blockSize);
      ret := LOS_OK;
    }
  }

  /** Without a wrap the check against the buffer's size means what it says. */
  lemma CheckedRange(at: u32, size: u32, length: nat)
    requires length < TWO_32 && (Wrap(at + size) <= length ==> at + size < TWO_32)
    ensures Wrap(at + size) <= length <==> at + size <= length
  {
    if at + size < TWO_32 {
      WrapSmall(at + size);
    }
  }

  /** littlefs.c: the region is a partition of the flash chip; addresses wrap around, the chip checks them. */
  class FlashDisk {
    const chip: Chip

    constructor (chip: Chip)
      ensures this.chip == chip
    {
      this.chip := chip;
    }

    method BlockRead(cfg: LfsConfig, block: u32, off: u32, buffer: array<Byte>, size: u32, works: bool)
      returns (ok: bool)
      requires size <= buffer.Length && buffer != chip.cells
      modifies buffer
      ensures var at := Wrap(cfg.context + cfg.At(block, off));
        && (ok <==> works && at + size <= chip.cells.Length)
        && (ok ==> buffer[..] == chip.cells[at..at + size] + old(buffer[size..]))
      ensures InRange(cfg, Read(block, off, size)) && cfg.context + cfg.RegionSize() <= chip.cells.Length < TWO_32 ==>
        var at := cfg.context + cfg.At(block, off);
        && ok == works && at + size <= chip.cells.Length
        && (ok ==> buffer[..size] == chip.cells[at..at + size])
    {
      hide LfsConfig.At, LfsConfig.RegionSize, Wrap, InRange;
      if InRange(cfg, Read(block, off, size)) && cfg.context + cfg.RegionSize() <= chip.cells.Length < TWO_32 {
        InRangeDoesNotWrap(cfg, Read(block, off, size), cfg.context, chip.cells.Length);
      }
      ghost var at := Wrap(cfg.context + cfg.At(block, off));
      ok := chip.Read(Wrap(cfg.context + cfg.At(block, off)), buffer, 0, size, works);
      assert ok ==> buffer[..size] == chip.cells[at..at + size];
    }

    method BlockWrite(cfg: LfsConfig, block: u32, off: u32, buffer: seq<Byte>, works: bool) returns (ok: bool)
      modifies chip.cells
      ensures var at := Wrap(cfg.context + cfg.At(block, off));
        && (ok <==> works && at + |buffer| <= chip.cells.Length)
        && (ok ==> chip.cells[..] == Programmed(old(chip.cells[..]), at, buffer))
        && (!ok ==> TornProgram(old(chip.cells[..]), chip.cells[..], at, buffer))
      ensures InRange(cfg, Prog(block, off, buffer)) && cfg.context + cfg.RegionSize() <= chip.cells.Length < TWO_32 ==>
        ok == works && FlashCall(old(chip.cells[..]), cfg, Prog(block, off, buffer), ok, chip.cells[..])
    {
      hide LfsConfig.At, LfsConfig.RegionSize, Wrap, Programmed, TornProgram, OnlyInside, InRange;
      ghost var before, op := chip.cells[..], Prog(block, off, buffer);
      ok := chip.Program(Wrap(cfg.context + cfg.At(block, off)), buffer, works);
      if InRange(cfg, op) && cfg.context + cfg.RegionSize() <= chip.cells.Length < TWO_32 {
        InRangeDoesNotWrap(cfg, op, cfg.context, chip.cells.Length);
        if !ok {
          TornInside(before, chip.cells[..], cfg.context + First(cfg, op), buffer);
        }
      }
    }

    method BlockErase(cfg: LfsConfig, block: u32, works: bool) returns (ok: bool)
      modifies chip.cells
      ensures var at := Wrap(cfg.context + cfg.At(block, 0));
        && (ok <==> works && at % SECTOR == 0 && cfg.blockSize % SECTOR == 0 && at + cfg.blockSize <= chip.cells.Length)
        && (ok ==> chip.cells[..] == Erased(old(chip.cells[..]), at, cfg.blockSize))
        && (!ok ==> OnlyInside(old(chip.cells[..]), chip.cells[..], at, at + cfg.blockSize))
      ensures InRange(cfg, Erase(block)) && cfg.context + cfg.RegionSize() <= chip.cells.Length < TWO_32 ==>
        && (cfg.context % SECTOR == 0 && cfg.blockSize % SECTOR == 0 ==> ok == works)
        && FlashCall(old(chip.cells[..]), cfg, Erase(block), ok, chip.cells[..])
    {
      if InRange(cfg, Erase(block)) && cfg.context + cfg.RegionSize() <= chip.cells.Length < TWO_32 {
        InRangeDoesNotWrap(cfg, Erase(block), cfg.context, chip.cells.Length);
        if cfg.context % SECTOR == 0 && cfg.blockSize % SECTOR == 0 {
          SectorMultiple(cfg.context, cfg.blockSize, block);
        }
      }
      hide LfsConfig.At, LfsConfig.RegionSize, Wrap, Erased;
      ok := chip.Erase(Wrap(cfg.context + cfg.At(block, 0)), cfg.blockSize, works);
    }
  }

  /** Blocks of whole sectors in a region that starts at a sector start at sectors. */
  lemma {:induction false} SectorMultiple(base: nat, size: nat, b: nat)
    requires base % SECTOR == 0 && size % SECTOR == 0
    ensures (base + size * b) % SECTOR == 0
  {
    if b > 0 {
      SectorMultiple(base, size, b - 1);
      OneTimesMore(size, b - 1);
      SectorSum(base + size * (b - 1), size);
    }
  }

  lemma OneTimesMore(size: nat, b: nat)
    ensures size * (b + 1) == size * b + size
  {
  }

  lemma SectorSum(x: nat, y: nat)
    requires x % SECTOR == 0 && y % SECTOR == 0
    ensures (x + y) % SECTOR == 0
  {
  }

  /** What one call to the flash back end may leave: its step when it succeeds, changes in its range when it fails. */
  ghost predicate FlashCall(before: seq<Byte>, cfg: LfsConfig, op: Op, ok: bool, after: seq<Byte>) {
    if ok || op.Read? then after == FlashStep(before, cfg, op)
    else OnlyInside(before, after, cfg.context + First(cfg, op), cfg.context + First(cfg, op) + Count(cfg, op))
  }
}
