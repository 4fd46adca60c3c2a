/**
 Byte-addressed little-endian memory with 32-bit addresses that wrap around, seen from the base of a task frame
 (niobeu4/liteos_m/arch/los_arch_context.h, niobeu4/liteos_m/arch/los_arch_regs.h).
 */
module FrameMemory {
  import opened Machine

  type Memory = u32 -> Octet

  function Load16(m: Memory, at: u32): (w: u32)
    ensures w < 0x1_0000
  {
    m(at) + 0x100 * m(Wrap(at + 1))
  }

  function Load32(m: Memory, at: u32): u32 {
    m(at) + 0x100 * m(Wrap(at + 1)) + 0x1_0000 * m(Wrap(at + 2)) + 0x100_0000 * m(Wrap(at + 3))
  }

  /** Byte `k` of the little-endian form of `w`. */
  function OctetOf(w: u32, k: nat): Octet {
    if k == 0 then w % 0x100
    else if k == 1 then w / 0x100 % 0x100
    else if k == 2 then w / 0x1_0000 % 0x100
    else w / 0x100_0000 % 0x100
  }

  /** Stores the low `n` bytes of `w`, n being 2 or 4. */
  function Store(m: Memory, at: u32, w: u32, n: nat): Memory {
    (x: u32) => if Wrap(x - at) < n then OctetOf(w, Wrap(x - at)) else m(x)
  }

  /** The word at offset `off` of the frame based at `base`. */
  function Slot(m: Memory, base: u32, off: nat): u32 {
    Load32(m, Wrap(base + off))
  }

  function HalfSlot(m: Memory, base: u32, off: nat): u32 {
    Load16(m, Wrap(base + off))
  }

  /** `n` differs from `m` at most at the frame offsets in [lo, hi). */
  ghost predicate SameOutside(m: Memory, n: Memory, base: u32, lo: nat, hi: nat) {
    forall x: u32 :: !(lo <= Wrap(x - base) < hi) ==> n(x) == m(x)
  }

  /** The distance of the byte at base + off + k from base. */
  lemma Distance(base: u32, off: nat, k: nat)
    requires off + k < TWO_32
    ensures Wrap(Wrap(base + off) + k) == Wrap(base + (off + k))
    ensures Wrap(Wrap(base + (off + k)) - base) == off + k
  {
    WrapOnce(base + off, k);
    WrapOnce(base + (off + k), 0 - base as int);
    WrapSmall(off + k);
  }

  lemma SlotOutside(m: Memory, n: Memory, base: u32, lo: nat, hi: nat, off: nat)
    requires SameOutside(m, n, base, lo, hi) && off + 4 < TWO_32 && (off + 4 <= lo || hi <= off)
    ensures Slot(n, base, off) == Slot(m, base, off)
  {
    hide Wrap;
    Distance(base, off, 0);
    Distance(base, off, 1);
    Distance(base, off, 2);
    Distance(base, off, 3);
    WrapSmall(Wrap(base + off));
  }

  lemma HalfOutside(m: Memory, n: Memory, base: u32, lo: nat, hi: nat, off: nat)
    requires SameOutside(m, n, base, lo, hi) && off + 2 < TWO_32 && (off + 2 <= lo || hi <= off)
    ensures HalfSlot(n, base, off) == HalfSlot(m, base, off)
  {
    hide Wrap;
    Distance(base, off, 0);
    Distance(base, off, 1);
    WrapSmall(Wrap(base + off));
  }

  lemma SameOutsideTrans(m: Memory, n: Memory, o: Memory, base: u32, lo: nat, hi: nat, lo': nat, hi': nat)
    requires SameOutside(m, n, base, lo, hi) && SameOutside(n, o, base, lo', hi')
    ensures SameOutside(m, o, base, if lo < lo' then lo else lo', if hi < hi' then hi' else hi)
  {
  }

  lemma StoredOctet(m: Memory, at: u32, w: u32, n: nat, k: nat)
    requires k < n <= 4
    ensures Store(m, at, w, n)(Wrap(at + k)) == OctetOf(w, k)
  {
    WrapOnce(at + k, 0 - at as int);
    WrapSmall(k);
  }

  lemma OctetsMakeWord(w: u32)
    ensures OctetOf(w, 0) + 0x100 * OctetOf(w, 1) + 0x1_0000 * OctetOf(w, 2) + 0x100_0000 * OctetOf(w, 3) == w
    ensures OctetOf(w, 0) + 0x100 * OctetOf(w, 1) == w % 0x1_0000
  {
    var a: int := w / 0x100;
    var b: int := a / 0x100;
    assert w / 0x1_0000 == b && w / 0x100_0000 == b / 0x100 < 0x100;
  }

  /** What a store reads back as. */
  lemma StoreReads(m: Memory, base: u32, off: nat, w: u32)
    ensures Slot(Store(m, Wrap(base + off), w, 4), base, off) == w
    ensures HalfSlot(Store(m, Wrap(base + off), w, 2), base, off) == w % 0x1_0000
  {
    var at := Wrap(base + off);
    OctetsMakeWord(w);
    WrapSmall(at);
    forall n: nat, k: nat | k < n <= 4
      ensures Store(m, at, w, n)(Wrap(at + k)) == OctetOf(w, k)
    {
      StoredOctet(m, at, w, n, k);
    }
    assert Store(m, at, w, 4)(Wrap(at + 0)) == OctetOf(w, 0) == Store(m, at, w, 2)(Wrap(at + 0));
  }

  /** A byte that lies within a store's range lies there seen from the frame's base too. */
  lemma InsideStore(x: u32, base: u32, off: nat, n: nat)
    requires off + n < TWO_32 && Wrap(x - Wrap(base + off)) < n
    ensures off <= Wrap(x - base) < off + n
  {
    hide Wrap;
    WrapOnce(base + off, x);
    WrapOnce(x - (base + off), off);
    WrapSmall(Wrap(x - Wrap(base + off)) + off);
  }

  /** A store changes nothing but the bytes it covers. */
  lemma StoreKeeps(m: Memory, base: u32, off: nat, w: u32, n: nat)
    requires off + n < TWO_32
    ensures SameOutside(m, Store(m, Wrap(base + off), w, n), base, off, off + n)
  {
    hide Wrap;
    forall x: u32 | !(off <= Wrap(x - base) < off + n)
      ensures Store(m, Wrap(base + off), w, n)(x) == m(x)
    {
      if Wrap(x - Wrap(base + off)) < n {
        InsideStore(x, base, off, n);
      }
    }
  }
}
