/** What several modules share: the 32-bit unsigned arithmetic of the ESP32 target, bytes, and copying into a buffer. */
module Machine {

  const TWO_32: int := 0x1_0000_0000

  type u32 = x: int | 0 <= x < TWO_32

  type Byte = bv8

  type Octet = x: int | 0 <= x < 256

  /** The result codes of the IoT hardware interface. */
  datatype IotResult = IOT_SUCCESS | IOT_FAILURE

  /** The uint32_t value of an exact value `x`: the range's size is added or subtracted until the value fits. */
  function Wrap(x: int): u32
    decreases x < 0, if x < 0 then -x else x
  {
    if x < 0 then Wrap(x + TWO_32) else if x < TWO_32 then x else Wrap(x - TWO_32)
  }

  /** `buf` after `data` has been copied to position `at`. */
  function Spliced<T>(buf: seq<T>, at: int, data: seq<T>): (r: seq<T>)
    ensures |r| == |buf|
  {
    seq(|buf|, i requires 0 <= i < |buf| => if at <= i < at + |data| then data[i - at] else buf[i])
  }

  datatype Option<+T> = None | Some(value: T)

  /** Reduction modulo 2^32. */
  lemma {:induction false} WrapIsModulo(x: int)
    ensures Wrap(x) == x % TWO_32
    decreases x < 0, if x < 0 then -x else x
  {
    if x < 0 {
      WrapIsModulo(x + TWO_32);
      ModuloTurn(x);
    } else if x >= TWO_32 {
      WrapIsModulo(x - TWO_32);
      ModuloTurn(x - TWO_32);
    }
  }

  lemma ModuloTurn(x: int)
    ensures (x + TWO_32) % TWO_32 == x % TWO_32
  {
  }

  lemma WrapAround(x: int, k: int)
    ensures Wrap(x + k * TWO_32) == Wrap(x)
  {
    hide Wrap;
    WrapIsModulo(x);
    WrapIsModulo(x + k * TWO_32);
    assert (x + k * TWO_32) % TWO_32 == x % TWO_32;
  }

  /** Wrapping an intermediate result does not change the final one. */
  lemma WrapOnce(x: int, y: int)
    ensures Wrap(Wrap(x) + y) == Wrap(x + y) && Wrap(y - Wrap(x)) == Wrap(y - x)
  {
    hide Wrap;
    WrapIsModulo(x);
    var k := x / TWO_32;
    assert x == k * TWO_32 + Wrap(x);
    WrapAround(Wrap(x) + y, k);
    WrapAround(y - Wrap(x), -k);
  }

  lemma WrapSmall(x: u32)
    ensures Wrap(x) == x
  {
  }
}
