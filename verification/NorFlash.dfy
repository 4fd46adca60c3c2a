/**
 The NOR flash chip behind `spi_flash_read`, `spi_flash_write` and `spi_flash_erase_range`, as far as the
 repository relies on it: erasing sets whole sectors to 0xFF, programming can only clear bits, a transfer that
 leaves the chip is refused, and any transfer may fail half way. Whether the hardware gets one through is the parameter
 `works` of each call.
 */
module NorFlash {
  import opened Machine

  const SECTOR: nat := 4096

  /** What the chip holds after programming `data` at `at`: bits are cleared, never set. */
  function Programmed(mem: seq<Byte>, at: nat, data: seq<Byte>): (r: seq<Byte>)
  {
    seq(|mem|, i requires 0 <= i < |mem| => if at <= i < at + |data| then mem[i] & data[i - at] else mem[i])
  }

  /** What the chip holds after erasing `n` bytes from `at`. */
  function Erased(mem: seq<Byte>, at: nat, n: nat): (r: seq<Byte>)
  {
    seq(|mem|, i requires 0 <= i < |mem| => if at <= i < at + n then 0xFF else mem[i])
  }

  /** `after` differs from `before` at most inside [lo, hi). */
  ghost predicate OnlyInside(before: seq<Byte>, after: seq<Byte>, lo: int, hi: int)
  {
    && |after| == |before|
    && forall i :: 0 <= i < |before| && !(lo <= i < hi) ==> after[i] == before[i]
  }

  /** Every bit set in `b` is set in `a`. */
  predicate Covers(a: Byte, b: Byte) {
    a & b == b
  }

  /** A program operation that stopped half way: it cleared some of the bits it should have cleared, no others. */
  ghost predicate TornProgram(before: seq<Byte>, after: seq<Byte>, at: nat, data: seq<Byte>)
  {
    && OnlyInside(before, after, at, at + |data|)
    && forall i :: 0 <= i < |before| && at <= i < at + |data| ==>
         Covers(before[i], after[i]) && Covers(after[i], before[i] & data[i - at])
  }

  lemma TornInside(before: seq<Byte>, after: seq<Byte>, at: nat, data: seq<Byte>)
    requires TornProgram(before, after, at, data)
    ensures OnlyInside(before, after, at, at + |data|)
  {
  }

  lemma AndCovers(a: Byte, b: Byte)
    ensures Covers(a, a & b)
    ensures Covers(a, a)
  {
  }

  /** The contents once the first `n` bytes of `data` have been programmed. */
  function Prefix(mem: seq<Byte>, at: nat, data: seq<Byte>, n: nat): (r: seq<Byte>)
    requires n <= |data|
  {
    seq(|mem|, i requires 0 <= i < |mem| => if at <= i < at + n then mem[i] & data[i - at] else mem[i])
  }

  lemma ProgrammedIsTorn(mem: seq<Byte>, at: nat, data: seq<Byte>, n: nat)
    requires n <= |data|
    ensures TornProgram(mem, Prefix(mem, at, data, n), at, data)
    ensures n == |data| ==> Prefix(mem, at, data, n) == Programmed(mem, at, data)
  {
    hide Covers;
    forall k | 0 <= k < |mem| && at <= k < at + |data|
      ensures Covers(mem[k], Prefix(mem, at, data, n)[k])
      ensures Covers(Prefix(mem, at, data, n)[k], mem[k] & data[k - at])
    {
      AndCovers(mem[k], data[k - at]);
      AndCovers(mem[k] & data[k - at], 0);
    }
  }

  class Chip {
    const cells: array<Byte>

    constructor (contents: seq<Byte>)
      ensures cells[..] == contents && fresh(cells)
    {
      cells := new Byte[|contents|](i requires 0 <= i < |contents| => contents[i]);
    }

    /** `spi_flash_read`: copies `n` bytes to `buffer[to..]`. */
    method Read(at: nat, buffer: array<Byte>, to: nat, n: nat, works: bool) returns (ok: bool)
      requires buffer != cells && to + n <= buffer.Length
      modifies buffer
      ensures ok <==> works && at + n <= cells.Length
      ensures ok ==> buffer[..] == old(buffer[..to]) + cells[at..at + n] + old(buffer[to + n..])
    {
      if at + n > cells.Length {
        return false;
      }
      forall k | 0 <= k < n {
        buffer[to + k] := cells[at + k];
      }
      ok := works;
    }

    /** `spi_flash_write`: programs `data` at `at`; on an error the operation may have stopped anywhere. */
    method Program(at: nat, data: seq<Byte>, works: bool) returns (ok: bool)
      modifies cells
      ensures ok <==> works && at + |data| <= cells.Length
      ensures ok ==> cells[..] == Programmed(old(cells[..]), at, data)
      ensures !ok ==> TornProgram(old(cells[..]), cells[..], at, data)
    {
      if at + |data| > cells.Length {
        return false;
      }
      hide Covers, TornProgram, Programmed;
      ok := works;
      var n := |data|;
      if !ok {
        var stop: int := *;
        n := if 0 <= stop <= |data| then stop else 0;
      }
      ProgrammedIsTorn(cells[..], at, data, n);
      forall k | at <= k < at + n {
        cells[k] := cells[k] & data[k - at];
      }
      assert cells[..] == Prefix(old(cells[..]), at, data, n);
    }

    /** `spi_flash_erase_range`: whole sectors only; on an error the erased range holds anything. */
    method Erase(at: nat, n: nat, works: bool) returns (ok: bool)
      modifies cells
      ensures ok <==> works && at % SECTOR == 0 && n % SECTOR == 0 && at + n <= cells.Length
      ensures ok ==> cells[..] == Erased(old(cells[..]), at, n)
      ensures !ok ==> OnlyInside(old(cells[..]), cells[..], at, at + n)
    {
      if at % SECTOR != 0 || n % SECTOR != 0 || at + n > cells.Length {
        return false;
      }
      ok := works;
      var garbage: Byte := *;
      forall k | at <= k < at + n {
        cells[k] := if ok then 0xFF else garbage;
      }
    }
  }

  lemma CoversTransitive(a: Byte, b: Byte, c: Byte)
    requires Covers(a, b) && Covers(b, c)
    ensures Covers(a, c)
  {
  }
}
