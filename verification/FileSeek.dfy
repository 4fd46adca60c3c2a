/** Seeking in an open file (HalFileSeek in niobeu4/liteos_m/hals/utils/file/hal_file.c). */
module FileSeek {

  const OFFSET_FD: int := 8

  datatype Whence = SeekSet | SeekCur | SeekEnd | Unknown

  /** What `lseek` leaves and returns: a negative target is refused with the error `err` and moves nothing. */
  function Lseek(size: nat, pos: nat, offset: int, whence: Whence, err: int): (nat, int)
    requires whence != Unknown
  {
    var target := offset + (if whence == SeekSet then 0 else if whence == SeekCur then pos else size);
    if target < 0 then (pos, err) else (target, target)
  }

  /** An open file: its length and the position of its cursor. */
  class File {
    var size: nat
    var pos: nat

    constructor (size: nat)
      ensures this.size == size && pos == 0
    {
      this.size, pos := size, 0;
    }

    method Seek(offset: int, whence: Whence, err: int) returns (r: int)
      requires whence != Unknown
      modifies `pos
      ensures (pos, r) == Lseek(size, old(pos), offset, whence, err)
    {
      var target := offset + (if whence == SeekSet then 0 else if whence == SeekCur then pos else size);
      if target < 0 {
        return err;
      }
      pos := target;
      return target;
    }

    /** `err` is what the file system returns for a negative target; offsets and positions fit the C types. */
    method HalFileSeek(fd: int, offset: int, whence: Whence, err: int) returns (r: int)
      requires whence == SeekCur ==> -0x8000_0000 <= offset + pos < 0x8000_0000
      modifies `pos
      ensures fd < OFFSET_FD || whence == Unknown ==> r == -1 && pos == old(pos)
      ensures fd >= OFFSET_FD && whence != Unknown ==> (pos, r) == HalSeek(size, old(pos), offset, whence, err)
      ensures fd >= OFFSET_FD && whence == SeekEnd ==>
        if size + offset >= 0 then pos == r == size + offset else pos == old(pos) && r == err
    {
      if fd < OFFSET_FD {
        return -1;
      }
      if whence == Unknown {
        return -1;
      }
      var target := offset;
      if whence == SeekSet || whence == SeekCur {
        var len := Seek(0, SeekCur, err);
        var len2 := Seek(0, SeekEnd, err);
        if whence == SeekCur {
          target := target + len;
        }
        if target > len2 {
          var _ := Seek(len, SeekSet, err);
          return -1;
        }
        r := Seek(target, SeekSet, err);
        return;
      }
      r := Seek(target, whence, err);
    }
  }

  function Target(pos: nat, offset: int, whence: Whence): int {
    if whence == SeekCur then offset + pos else offset
  }

  /** The new position and the result for an accepted descriptor and origin. */
  function HalSeek(size: nat, pos: nat, offset: int, whence: Whence, err: int): (nat, int)
    requires whence != Unknown
  {
    if whence == SeekEnd then Lseek(size, pos, offset, SeekEnd, err)
    else
      var target := Target(pos, offset, whence);
      if target > size then (pos, -1) else if target < 0 then (size, err) else (target, target)
  }

  /** A cursor that can only stand inside the file, and that a refused move leaves alone. */
  function BoundedCursor(size: nat, pos: nat, target: int): (nat, int) {
    if 0 <= target <= size then (target, target) else (pos, -1)
  }

  /** With SET or CUR a seek is a bounded cursor, except that a negative target leaves the cursor at the end. */
  lemma BoundedCursorIff(size: nat, pos: nat, offset: int, whence: Whence, err: int)
    requires whence == SeekSet || whence == SeekCur
    ensures HalSeek(size, pos, offset, whence, err) == BoundedCursor(size, pos, Target(pos, offset, whence))
       <==> Target(pos, offset, whence) >= 0 || (pos == size && err == -1)
  {
  }

  /** Seeking before the start of a file of ten bytes moves the cursor from 3 to the end. */
  lemma NegativeSeekMovesToEnd(err: int)
    ensures HalSeek(10, 3, -1, SeekSet, err) == (10, err) && BoundedCursor(10, 3, -1) == (3, -1)
  {
  }

  /** With SEEK_END every target from the start of the file on is reached, past its end too; any other moves nothing. */
  lemma SeekFromEnd(size: nat, pos: nat, offset: int, err: int)
    ensures HalSeek(size, pos, offset, SeekEnd, err)
         == if size + offset >= 0 then (size + offset, size + offset) else (pos, err)
  {
  }

  /** With SET or CUR a negative target moves the cursor to the end, and one behind the end moves nothing. */
  lemma SeekOutside(size: nat, pos: nat, offset: int, whence: Whence, err: int)
    requires whence == SeekSet || whence == SeekCur
    ensures var target := if whence == SeekCur then pos + offset else offset;
      && (target < 0 ==> HalSeek(size, pos, offset, whence, err) == (size, err))
      && (0 <= target <= size ==> HalSeek(size, pos, offset, whence, err) == (target, target))
      && (size < target ==> HalSeek(size, pos, offset, whence, err) == (pos, -1))
  {
  }

  datatype Call = Call(offset: int, whence: Whence)

  /** SET and CUR seeks only. */
  predicate Relative(calls: seq<Call>) {
    forall k :: 0 <= k < |calls| ==> calls[k].whence == SeekSet || calls[k].whence == SeekCur
  }

  /** The position after the calls, and what each of them returns. */
  function Run(size: nat, pos: nat, calls: seq<Call>, err: int): (nat, seq<int>)
    requires Relative(calls)
    decreases |calls|
  {
    if calls == [] then (pos, [])
    else
      var (mid, r) := HalSeek(size, pos, calls[0].offset, calls[0].whence, err);
      var (last, rs) := Run(size, mid, calls[1..], err);
      (last, [r] + rs)
  }

  /** Over any run of SET and CUR seeks the cursor stays inside the file. */
  lemma {:induction false} CursorStaysInside(size: nat, pos: nat, calls: seq<Call>, err: int)
    requires pos <= size && Relative(calls)
    ensures Run(size, pos, calls, err).0 <= size
    decreases |calls|
  {
    if calls != [] {
      CursorStaysInside(size, HalSeek(size, pos, calls[0].offset, calls[0].whence, err).0, calls[1..], err);
    }
  }

  function BoundedRun(size: nat, pos: nat, calls: seq<Call>): (nat, seq<int>)
    decreases |calls|
  {
    if calls == [] then (pos, [])
    else
      var (mid, r) := BoundedCursor(size, pos, Target(pos, calls[0].offset, calls[0].whence));
      var (last, rs) := BoundedRun(size, mid, calls[1..]);
      (last, [r] + rs)
  }

  /** No seek of the run asks for a negative position. */
  predicate NoNegativeTarget(size: nat, pos: nat, calls: seq<Call>)
    decreases |calls|
  {
    calls != [] ==>
      var target := Target(pos, calls[0].offset, calls[0].whence);
      target >= 0 && NoNegativeTarget(size, BoundedCursor(size, pos, target).0, calls[1..])
  }

  /** A run without negative targets moves the cursor, and returns, just what the bounded cursor does. */
  lemma {:induction false} RunRefinesBoundedCursor(size: nat, pos: nat, calls: seq<Call>, err: int)
    requires Relative(calls) && NoNegativeTarget(size, pos, calls)
    ensures Run(size, pos, calls, err) == BoundedRun(size, pos, calls)
    decreases |calls|
  {
    if calls != [] {
      BoundedCursorIff(size, pos, calls[0].offset, calls[0].whence, err);
      RunRefinesBoundedCursor(size, HalSeek(size, pos, calls[0].offset, calls[0].whence, err).0, calls[1..], err);
    }
  }
}
