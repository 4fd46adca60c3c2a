/**
 Reference-counted opening of an SPI device (niobeu4/liteos_m/hdf_drivers/spi/spi_esp32u4.c). The bus driver's own
 rules are part of the model: a bus cannot be initialised twice, and cannot be freed while a device is attached.
 Beyond that every hardware call may fail.
 */
module SpiDevice {
  import opened Machine

  const MAX_COUNT: nat := 0x1_0000

  datatype Status = HDF_SUCCESS | HDF_ERR_INVALID_PARAM | HDF_ERR_IO | HDF_ERR_DEVICE_BUSY

  /** Which hardware calls of one driver call succeed, if the driver's rules allow them. */
  datatype Hardware = Hardware(initialize: bool, addDevice: bool, removeDevice: bool, free: bool)

  const FLAWLESS: Hardware := Hardware(true, true, true, true)

  /** `bound` is false once the driver has dropped its private data; `inits` and `frees` count successful calls. */
  datatype State = State(bound: bool, openCnt: nat, handle: bool, busUp: bool, attached: bool, inits: nat, frees: nat)

  const CLOSED: State := State(true, 0, false, false, false, 0, 0)

  function Opened(s: State, h: Hardware): (State, Status) {
    if !s.bound then (s, HDF_ERR_INVALID_PARAM)
    else if s.openCnt > 0 then (s.(openCnt := (s.openCnt + 1) % MAX_COUNT), HDF_SUCCESS)
    else if s.busUp || !h.initialize then (s, HDF_ERR_IO)
    else
      var s1 := s.(busUp := true, inits := s.inits + 1);
      if !h.addDevice then (s1, HDF_ERR_DEVICE_BUSY)
      else (s1.(attached := true, handle := true, openCnt := 1), HDF_SUCCESS)
  }

  function Closed(s: State, h: Hardware): (State, Status) {
    if !s.bound then (s, HDF_ERR_INVALID_PARAM)
    else if s.openCnt == 0 then (s, HDF_SUCCESS)
    else if s.openCnt > 1 then (s.(openCnt := s.openCnt - 1), HDF_SUCCESS)
    else if !s.attached || !h.removeDevice then (s.(openCnt := 0), HDF_ERR_DEVICE_BUSY)
    else
      var s1 := s.(openCnt := 0, attached := false, handle := false);
      if !s1.busUp || !h.free then (s1, HDF_ERR_IO)
      else (s1.(busUp := false, frees := s1.frees + 1), HDF_SUCCESS)
  }

  function Released(s: State, h: Hardware): State {
    if !s.bound then s
    else if s.openCnt > 0 then Closed(s.(openCnt := 1), h).0.(bound := false)
    else s.(bound := false)
  }

  datatype Msg = Msg(wbuf: bool, rbuf: bool, len: u32)

  class SpiCntlr {
    var bound: bool
    var openCnt: nat
    var handle: bool
    var busUp: bool
    var attached: bool
    var inits: nat
    var frees: nat

    function Now(): State
      reads this
    {
      State(bound, openCnt, handle, busUp, attached, inits, frees)
    }

    constructor ()
      ensures Now() == CLOSED
    {
      bound, openCnt, handle, busUp, attached, inits, frees := true, 0, false, false, false, 0, 0;
    }

    method SpiDevOpen(h: Hardware) returns (ret: Status)
      modifies this
      ensures (Now(), ret) == Opened(old(Now()), h)
    {
      if !bound {
        return HDF_ERR_INVALID_PARAM;
      }
      if openCnt == 0 {
        if busUp || !h.initialize {
          return HDF_ERR_IO;
        }
        busUp, inits := true, inits + 1;
      }
      if openCnt == 0 {
        if !h.addDevice {
          return HDF_ERR_DEVICE_BUSY;
        }
        attached, handle := true, true;
      }
      openCnt := (openCnt + 1) % MAX_COUNT;
      return HDF_SUCCESS;
    }

    method SpiDevClose(h: Hardware) returns (ret: Status)
      modifies this
      ensures (Now(), ret) == Closed(old(Now()), h)
    {
      if !bound {
        return HDF_ERR_INVALID_PARAM;
      }
      if openCnt > 0 {
        openCnt := openCnt - 1;
        if openCnt > 0 {
          return HDF_SUCCESS;
        }
        if !attached || !h.removeDevice {
          return HDF_ERR_DEVICE_BUSY;
        }
        attached, handle := false, false;
        if !busUp || !h.free {
          return HDF_ERR_IO;
        }
        busUp, frees := false, frees + 1;
      }
      return HDF_SUCCESS;
    }

    method SpiDriverRelease(h: Hardware)
      modifies this
      ensures Now() == Released(old(Now()), h)
    {
      if !bound {
        return;
      }
      if openCnt > 0 {
        openCnt := 1;
        var _ := SpiDevClose(h);
      }
      bound := false;
    }

    /**
     `works[i]` tells whether message `i` would get through. `sent` are the messages handed to the hardware: those
     with a buffer, in order, up to and including the first that fails; `bits` are the lengths they are sent with.
     */
    method SpiDevTransfer(msgs: seq<Msg>, works: seq<bool>) returns (ret: Status, sent: seq<nat>, bits: seq<u32>)
      requires |works| == |msgs|
      ensures ret == HDF_ERR_INVALID_PARAM <==> !bound
      ensures bound ==> forall i: nat :: i in sent <==> i < |msgs| && Reached(msgs, works, i)
      ensures forall k, l :: 0 <= k < l < |sent| ==> sent[k] < sent[l]
      ensures |bits| == |sent|
      ensures forall k :: 0 <= k < |sent| ==> sent[k] < |msgs| && bits[k] == Wrap(8 * msgs[sent[k]].len)
      ensures ret == HDF_ERR_DEVICE_BUSY <==> bound && exists i :: 0 <= i < |msgs| && HasBuffer(msgs[i]) && !works[i]
      ensures bound ==> (ret == HDF_SUCCESS <==> forall i :: 0 <= i < |msgs| && HasBuffer(msgs[i]) ==> works[i])
    {
      sent, bits := [], [];
      if !bound {
        return HDF_ERR_INVALID_PARAM, sent, bits;
      }
      for i := 0 to |msgs|
        invariant forall j: nat :: j in sent <==> j < i && HasBuffer(msgs[j])
        invariant forall j :: 0 <= j < i && HasBuffer(msgs[j]) ==> works[j]
        invariant forall k, l :: 0 <= k < l < |sent| ==> sent[k] < sent[l]
        invariant |bits| == |sent|
        invariant forall k :: 0 <= k < |sent| ==> sent[k] < i && bits[k] == Wrap(8 * msgs[sent[k]].len)
      {
        if !msgs[i].wbuf && !msgs[i].rbuf {
          continue;
        }
        assert forall j: nat :: j in sent + [i] <==> j in sent || j == i;
        sent, bits := sent + [i], bits + [Wrap(8 * msgs[i].len)];
        if !works[i] {
          return HDF_ERR_DEVICE_BUSY, sent, bits;
        }
      }
      return HDF_SUCCESS, sent, bits;
    }
  }

  predicate HasBuffer(m: Msg) {
    m.wbuf || m.rbuf
  }

  /** Message `i` has a buffer, and every earlier one with a buffer gets through. */
  ghost predicate Reached(msgs: seq<Msg>, works: seq<bool>, i: nat)
    requires i < |msgs| == |works|
  {
    HasBuffer(msgs[i]) && forall j :: 0 <= j < i && HasBuffer(msgs[j]) ==> works[j]
  }

  // Whole runs.

  datatype Call = Open(h: Hardware) | Close(h: Hardware) | Release(h: Hardware)

  function Apply(s: State, c: Call): State {
    match c
    case Open(h) => Opened(s, h).0
    case Close(h) => Closed(s, h).0
    case Release(h) => Released(s, h)
  }

  function Run(s: State, calls: seq<Call>): State
    decreases |calls|
  {
    if calls == [] then s else Run(Apply(s, calls[0]), calls[1..])
  }

  /** An open device has its bus and its handle, and the bus has been initialised once more than freed. */
  predicate Inv(s: State) {
    && s.openCnt < MAX_COUNT
    && (s.openCnt > 0 ==> s.busUp && s.attached)
    && (s.attached ==> s.busUp)
    && (s.handle <==> s.attached)
    && s.inits - s.frees == if s.busUp then 1 else 0
  }

  /** Over any run, whichever hardware calls fail. */
  lemma {:induction false} InvOverRuns(s: State, calls: seq<Call>)
    requires Inv(s)
    ensures Inv(Run(s, calls))
    decreases |calls|
  {
    if calls != [] {
      InvOverRuns(Apply(s, calls[0]), calls[1..]);
    }
  }

  /** The counter stays below its limit at every open of the run. */
  predicate BelowLimit(s: State, calls: seq<Call>)
    decreases |calls|
  {
    calls != [] ==> (calls[0].Open? ==> s.openCnt + 1 < MAX_COUNT) && BelowLimit(Apply(s, calls[0]), calls[1..])
  }

  /** The bus is up exactly while the counter is positive. */
  predicate Exact(s: State) {
    Inv(s) && (s.openCnt > 0 <==> s.busUp)
  }

  /** On runs without hardware failure the bus is up exactly while some open is unmatched. */
  lemma {:induction false} ExactWithoutFailures(s: State, calls: seq<Call>)
    requires Exact(s) && BelowLimit(s, calls) && forall k :: 0 <= k < |calls| ==> calls[k].h == FLAWLESS
    ensures Exact(Run(s, calls))
    decreases |calls|
  {
    if calls != [] {
      assert calls[0].h == FLAWLESS;
      ExactWithoutFailures(Apply(s, calls[0]), calls[1..]);
    }
  }

  function Opens(n: nat): seq<Call> { seq(n, _ => Open(FLAWLESS)) }

  function Closes(n: nat): seq<Call> { seq(n, _ => Close(FLAWLESS)) }

  lemma {:induction false} OpensCount(s: State, n: nat)
    requires Exact(s) && s.bound && s.openCnt + n < MAX_COUNT
    ensures var t := Run(s, Opens(n)); Exact(t) && t.bound && t.openCnt == s.openCnt + n
    decreases n
  {
    if n > 0 {
      assert Opens(n)[1..] == Opens(n - 1);
      OpensCount(Apply(s, Open(FLAWLESS)), n - 1);
    }
  }

  lemma {:induction false} ClosesCount(s: State, k: nat)
    requires Exact(s) && s.bound
    ensures var t := Run(s, Closes(k)); Exact(t) && t.bound && t.openCnt == if k <= s.openCnt then s.openCnt - k else 0
    decreases k
  {
    if k > 0 {
      assert Closes(k)[1..] == Closes(k - 1);
      ClosesCount(Apply(s, Close(FLAWLESS)), k - 1);
    }
  }

  /** `n` opens are undone by exactly `n` closes: after `k` closes the bus is still up if and only if k < n. */
  lemma OpensNeedAsManyCloses(n: nat, k: nat)
    requires n < MAX_COUNT
    ensures var t := Run(Run(CLOSED, Opens(n)), Closes(k));
      && (t.busUp <==> k < n) && (t.attached <==> k < n)
      && t.inits - t.frees == if k < n then 1 else 0
  {
    hide Run;
    OpensCount(CLOSED, n);
    ClosesCount(Run(CLOSED, Opens(n)), k);
  }

  /** Opens minus closes. */
  function Balance(calls: seq<Call>): int
    decreases |calls|
  {
    if calls == [] then 0
    else (if calls[0].Open? then 1 else if calls[0].Close? then -1 else 0) + Balance(calls[1..])
  }

  /** The largest balance of any final part of the run. */
  function BestSuffix(calls: seq<Call>): (best: int)
    ensures best >= 0 && best >= Balance(calls)
    decreases |calls|
  {
    if calls == [] then 0
    else if Balance(calls) > BestSuffix(calls[1..]) then Balance(calls) else BestSuffix(calls[1..])
  }

  lemma {:induction false} NoSuffixIsBetter(calls: seq<Call>, k: nat)
    requires k <= |calls|
    ensures Balance(calls[k..]) <= BestSuffix(calls)
    decreases |calls|
  {
    if k == 0 {
      assert calls[0..] == calls;
    } else {
      assert calls[k..] == calls[1..][k - 1..];
      NoSuffixIsBetter(calls[1..], k - 1);
    }
  }

  lemma {:induction false} SomeSuffixIsBest(calls: seq<Call>) returns (k: nat)
    ensures k <= |calls| && Balance(calls[k..]) == BestSuffix(calls)
    decreases |calls|
  {
    if BestSuffix(calls) == Balance(calls) {
      k := 0;
      assert calls[0..] == calls;
    } else {
      k := SomeSuffixIsBest(calls[1..]);
      assert calls[1..][k..] == calls[k + 1..];
      k := k + 1;
    }
  }

  /** `BestSuffix` is that maximum: no final part has a larger balance, and some final part reaches it. */
  lemma BestSuffixIsMaximum(calls: seq<Call>)
    ensures forall k :: 0 <= k <= |calls| ==> Balance(calls[k..]) <= BestSuffix(calls)
    ensures exists k :: 0 <= k <= |calls| && Balance(calls[k..]) == BestSuffix(calls)
  {
    hide Balance, BestSuffix;
    forall k | 0 <= k <= |calls|
      ensures Balance(calls[k..]) <= BestSuffix(calls)
    {
      NoSuffixIsBetter(calls, k);
    }
    var k := SomeSuffixIsBest(calls);
  }

  /**
   After any interleaving of opens and closes without hardware failure the count is the starting count plus the
   balance, or, when closes found nothing to close, the largest balance of a final part of the run.
   */
  lemma {:induction false} CountOverInterleavings(s: State, calls: seq<Call>)
    requires Exact(s) && s.bound && BelowLimit(s, calls)
    requires forall k :: 0 <= k < |calls| ==> calls[k].h == FLAWLESS && !calls[k].Release?
    ensures var t := Run(s, calls); var n := s.openCnt + Balance(calls);
      && Exact(t) && t.bound && t.openCnt == (if n > BestSuffix(calls) then n else BestSuffix(calls))
    decreases |calls|
  {
    if calls != [] {
      assert calls[0].h == FLAWLESS && !calls[0].Release?;
      CountOverInterleavings(Apply(s, calls[0]), calls[1..]);
    }
  }

  /** From a closed device: the bus is up exactly when some final part of the run opens more than it closes. */
  lemma BusUpIff(calls: seq<Call>)
    requires BelowLimit(CLOSED, calls)
    requires forall k :: 0 <= k < |calls| ==> calls[k].h == FLAWLESS && !calls[k].Release?
    ensures Run(CLOSED, calls).busUp <==> exists k :: 0 <= k <= |calls| && Balance(calls[k..]) > 0
  {
    CountOverInterleavings(CLOSED, calls);
    BestSuffixIsMaximum(calls);
  }

  /**
   A release drops the device for good, and leaves the bus down exactly when its hardware calls succeed, or, with
   nothing open, when the bus was down.
   */
  lemma ReleaseTearsDownIff(s: State, h: Hardware, h': Hardware)
    requires Inv(s) && s.bound
    ensures var t := Released(s, h);
      && (!t.busUp <==> if s.openCnt > 0 then h.removeDevice && h.free else !s.busUp)
      && (!t.busUp ==> !t.attached && t.inits == t.frees)
      && Opened(t, h') == (t, HDF_ERR_INVALID_PARAM) && Closed(t, h') == (t, HDF_ERR_INVALID_PARAM)
  {
  }

  /** When an open and a close succeed. */
  lemma SucceedsIff(s: State, h: Hardware)
    requires Inv(s) && s.bound
    ensures Opened(s, h).1 == HDF_SUCCESS <==> s.openCnt > 0 || (!s.busUp && h.initialize && h.addDevice)
    ensures Closed(s, h).1 == HDF_SUCCESS <==> s.openCnt != 1 || (h.removeDevice && h.free)
  {
  }

  /** Which error a failing open reports, and what it leaves. */
  lemma OpenErrors(s: State, h: Hardware)
    ensures var (t, code) := Opened(s, h);
      && (code == HDF_ERR_INVALID_PARAM <==> !s.bound)
      && (code == HDF_ERR_IO <==> s.bound && s.openCnt == 0 && (s.busUp || !h.initialize))
      && (code == HDF_ERR_DEVICE_BUSY <==> s.bound && s.openCnt == 0 && !s.busUp && h.initialize && !h.addDevice)
      && (code in {HDF_ERR_INVALID_PARAM, HDF_ERR_IO} ==> t == s)
      && (code == HDF_ERR_DEVICE_BUSY ==> t == s.(busUp := true, inits := s.inits + 1))
      && (code == HDF_SUCCESS && s.openCnt > 0 ==> t == s.(openCnt := (s.openCnt + 1) % MAX_COUNT))
      && (code == HDF_SUCCESS && s.openCnt == 0 ==> t.openCnt == 1 && t.busUp && t.attached && t.handle && t.bound)
  {
  }

  /** Which error a failing close reports, and what it leaves: the counter has gone down all the same. */
  lemma CloseErrors(s: State, h: Hardware)
    requires Inv(s)
    ensures var (t, code) := Closed(s, h);
      && (code == HDF_ERR_INVALID_PARAM <==> !s.bound)
      && (code == HDF_ERR_DEVICE_BUSY <==> s.bound && s.openCnt == 1 && !h.removeDevice)
      && (code == HDF_ERR_IO <==> s.bound && s.openCnt == 1 && h.removeDevice && !h.free)
      && (code == HDF_ERR_INVALID_PARAM ==> t == s)
      && (code != HDF_ERR_INVALID_PARAM ==>
            t.bound && t.openCnt == if s.openCnt > 0 then s.openCnt - 1 else 0)
      && (code == HDF_ERR_DEVICE_BUSY ==> t == s.(openCnt := 0))
      && (code == HDF_ERR_IO ==> t == s.(openCnt := 0, attached := false, handle := false))
      && (code == HDF_SUCCESS && s.openCnt > 1 ==> t == s.(openCnt := s.openCnt - 1))
      && (code == HDF_SUCCESS && s.openCnt == 0 ==> t == s)
      && (code == HDF_SUCCESS && s.openCnt == 1 ==> !t.busUp && !t.attached && !t.handle)
  {
  }

  // What a hardware failure leaves behind.

  /** The counter says closed, the bus is up. */
  predicate Stuck(s: State) {
    s.openCnt == 0 && s.busUp
  }

  /** The device gets stuck exactly when a call gives up between two hardware steps, or the counter wraps to 0. */
  lemma GetsStuckIff(s: State, c: Call)
    requires Inv(s) && !Stuck(s) && s.bound
    ensures Stuck(Apply(s, c)) <==>
      match c
      case Open(h) => (s.openCnt == 0 && h.initialize && !h.addDevice) || s.openCnt == MAX_COUNT - 1
      case Close(h) => s.openCnt == 1 && !(h.removeDevice && h.free)
      case Release(h) => s.openCnt > 0 && !(h.removeDevice && h.free)
  {
  }

  /** A first open whose second hardware step fails leaves the device so. */
  lemma FailedOpenSticks()
    ensures Stuck(Opened(CLOSED, Hardware(true, false, true, true)).0)
  {
  }

  /** From then on no run brings the bus down again, and every open of a bound device fails. */
  lemma {:induction false} StuckForever(s: State, calls: seq<Call>, h: Hardware)
    requires Stuck(s)
    ensures var t := Run(s, calls);
      && Stuck(t) && t.inits == s.inits && t.frees == s.frees
      && Opened(t, h).1 == (if t.bound then HDF_ERR_IO else HDF_ERR_INVALID_PARAM)
    decreases |calls|
  {
    if calls != [] {
      StuckForever(Apply(s, calls[0]), calls[1..], h);
    }
  }
}
