/**
 The accumulating read of a UART (IoTUartRead in niobeu4/liteos_m/hals/iot_hardware/wifiiot_lite/hal_iot_uart.c). The
 loop means to fill `dataLen` bytes, but each turn takes the whole count received so far off what remains.
 */
module UartRead {
  import opened Machine

  /** What one `uart_read_bytes` delivers; a failing one returns -1. */
  datatype Got = Bytes(data: seq<Byte>) | Error

  function Returned(g: Got): int {
    match g
    case Bytes(data) => |data|
    case Error => -1
  }

  /** `data_received` after these replies. */
  function Received(replies: seq<Got>): int {
    if replies == [] then 0 else Received(replies[..|replies| - 1]) + Returned(replies[|replies| - 1])
  }

  /** `data_remaining` after these replies. */
  function Remaining(dataLen: nat, replies: seq<Got>): int {
    if replies == [] then dataLen else Remaining(dataLen, replies[..|replies| - 1]) - Received(replies)
  }

  /** Everything delivered. */
  function Delivered(replies: seq<Got>): seq<Byte> {
    if replies == [] then []
    else
      var last := replies[|replies| - 1];
      Delivered(replies[..|replies| - 1]) + (if last.Bytes? then last.data else [])
  }

  /** The caller's buffer after these replies: each chunk goes to the current count. */
  function Stored(buf: seq<Byte>, replies: seq<Got>): (r: seq<Byte>)
    ensures |r| == |buf|
  {
    if replies == [] then buf
    else
      var front, last := replies[..|replies| - 1], replies[|replies| - 1];
      if last.Bytes? then Spliced(Stored(buf, front), Received(front), last.data) else Stored(buf, front)
  }

  predicate ErrorFree(replies: seq<Got>) {
    forall k :: 0 <= k < |replies| ==> replies[k].Bytes?
  }

  /** No read delivers more than it was asked for. */
  ghost predicate WithinRequests(dataLen: nat, replies: seq<Got>) {
    forall k :: 0 <= k < |replies| && Remaining(dataLen, replies[..k]) > 0 ==>
      Returned(replies[k]) <= Remaining(dataLen, replies[..k])
  }

  /**
   Refused before the loop; success; a negative count; a negative rest; or still waiting when the recorded replies
   end.
   */
  datatype Status = Refused | Filled | Failed | Overrun | Waiting

  /** The loop goes round again after these replies. */
  ghost predicate Continues(dataLen: nat, replies: seq<Got>) {
    Received(replies) >= 0 && Remaining(dataLen, replies) > 0
  }

  lemma Snoc(dataLen: nat, buf: seq<Byte>, replies: seq<Got>, k: nat)
    requires k < |replies|
    ensures Received(replies[..k + 1]) == Received(replies[..k]) + Returned(replies[k])
    ensures Remaining(dataLen, replies[..k + 1]) == Remaining(dataLen, replies[..k]) - Received(replies[..k + 1])
    ensures Stored(buf, replies[..k + 1]) ==
      if replies[k].Bytes? then Spliced(Stored(buf, replies[..k]), Received(replies[..k]), replies[k].data)
      else Stored(buf, replies[..k])
  {
    assert replies[..k + 1][..k] == replies[..k];
  }

  /** While the loop goes on, what is asked for fits behind what has been received. */
  lemma {:induction false} RequestFits(dataLen: nat, replies: seq<Got>, k: nat)
    requires k <= |replies| && forall j :: 0 <= j < k ==> Continues(dataLen, replies[..j])
    ensures Received(replies[..k]) + Remaining(dataLen, replies[..k]) <= dataLen
  {
    if k > 0 {
      RequestFits(dataLen, replies, k - 1);
      Snoc(dataLen, [], replies, k - 1);
      assert Continues(dataLen, replies[..k - 1]);
    }
  }

  /** `uart_read_bytes` with the reply it gives: a chunk is stored from `at` on. */
  method UartReadBytes(data: array<Byte>, at: nat, reply: Got) returns (count: int)
    requires reply.Bytes? ==> at + |reply.data| <= data.Length
    modifies data
    ensures count == Returned(reply)
    ensures data[..] == if reply.Bytes? then Spliced(old(data[..]), at, reply.data) else old(data[..])
  {
    if reply == Error {
      return -1;
    }
    forall i | at <= i < at + |reply.data| {
      data[i] := reply.data[i - at];
    }
    return |reply.data|;
  }

  /**
   The loop over recorded replies. `turns` of them are consumed; before each the loop was to go on, and the status
   says why it stopped. `r` is None when the source would still be in its loop.
   */
  method IoTUartRead(useable: bool, data: array?<Byte>, dataLen: nat, replies: seq<Got>)
    returns (r: Option<IotResult>, status: Status, turns: nat)
    requires dataLen < 0x8000_0000 && (data != null ==> dataLen <= data.Length) && WithinRequests(dataLen, replies)
    modifies data
    ensures status == Refused <==> data == null || dataLen == 0 || !useable
    ensures status == Refused ==> turns == 0
    ensures r == Some(IOT_SUCCESS) <==> status == Filled
    ensures r == Some(IOT_FAILURE) <==> status == Refused || status == Failed
    ensures turns <= |replies| && forall k :: 0 <= k < turns ==> Continues(dataLen, replies[..k])
    ensures status != Refused ==>
      && (status == Failed <==> Received(replies[..turns]) < 0)
      && (status == Filled <==> Received(replies[..turns]) >= 0 && Remaining(dataLen, replies[..turns]) == 0)
      && (status == Overrun <==> Received(replies[..turns]) >= 0 && Remaining(dataLen, replies[..turns]) < 0)
    ensures status == Waiting ==> turns == |replies|
    ensures data != null ==> data[..] == Stored(old(data[..]), replies[..turns])
  {
    hide Received, Remaining, Stored, Spliced;
    turns := 0;
    if data != null {
      Start(dataLen, data[..], replies);
    }
    if data == null || dataLen == 0 {
      return Some(IOT_FAILURE), Refused, 0;
    }
    if !useable {
      return Some(IOT_FAILURE), Refused, 0;
    }
    var received, remaining := 0, dataLen as int;
    while remaining > 0 && turns < |replies|
      invariant turns <= |replies| && forall k :: 0 <= k < turns ==> Continues(dataLen, replies[..k])
      invariant received == Received(replies[..turns]) >= 0
      invariant remaining == Remaining(dataLen, replies[..turns])
      invariant data[..] == Stored(old(data[..]), replies[..turns])
    {
      RequestFits(dataLen, replies, turns);
      Snoc(dataLen, old(data[..]), replies, turns);
      var count := UartReadBytes(data, received, replies[turns]);
      received := received + count;
      turns := turns + 1;
      if received < 0 {
        return Some(IOT_FAILURE), Failed, turns;
      }
      remaining := remaining - received;
    }
    status := if remaining == 0 then Filled else if remaining < 0 then Overrun else Waiting;
    r := if status == Filled then Some(IOT_SUCCESS) else None;
  }

  lemma Start(dataLen: nat, buf: seq<Byte>, replies: seq<Got>)
    ensures Received(replies[..0]) == 0 && Remaining(dataLen, replies[..0]) == dataLen
    ensures Stored(buf, replies[..0]) == buf
  {
    assert replies[..0] == [];
  }

  /** Without errors the chunks land one behind the other, from the start of the buffer on. */
  lemma {:induction false} ChunksAreContiguous(buf: seq<Byte>, replies: seq<Got>)
    requires ErrorFree(replies) && Received(replies) <= |buf|
    ensures 0 <= Received(replies) == |Delivered(replies)|
    ensures Stored(buf, replies) == Delivered(replies) + buf[Received(replies)..]
  {
    if replies != [] {
      var front, last := replies[..|replies| - 1], replies[|replies| - 1].data;
      ChunksAreContiguous(buf, front);
      hide Received, Delivered;
      assert Spliced(Delivered(front) + buf[Received(front)..], Received(front), last)
          == Delivered(front) + last + buf[Received(front) + |last|..];
    }
  }

  function Errors(replies: seq<Got>): nat {
    if replies == [] then 0
    else Errors(replies[..|replies| - 1]) + (if replies[|replies| - 1] == Error then 1 else 0)
  }

  /** Every failing read takes one off the count. */
  lemma {:induction false} CountLosesErrors(replies: seq<Got>)
    ensures Received(replies) == |Delivered(replies)| - Errors(replies)
  {
    if replies != [] {
      CountLosesErrors(replies[..|replies| - 1]);
    }
  }

  /** Chunk `k` is stored over byte `i`. */
  predicate Hits(replies: seq<Got>, k: nat, i: nat)
    requires k < |replies|
  {
    var at := Received(replies[..k]);
    replies[k].Bytes? && at <= i < at + |replies[k].data|
  }

  /** With failing reads in between too: a byte holds what the last chunk stored over it, or what it held before. */
  lemma {:induction false} LatestChunkStays(buf: seq<Byte>, replies: seq<Got>, i: nat, k: nat)
    requires i < |buf| && k <= |replies|
    requires forall j: nat :: k < j < |replies| ==> !Hits(replies, j, i)
    ensures k < |replies| && Hits(replies, k, i) ==>
      Stored(buf, replies)[i] == replies[k].data[i - Received(replies[..k])]
    ensures (forall j: nat :: j < |replies| ==> !Hits(replies, j, i)) ==> Stored(buf, replies)[i] == buf[i]
  {
    hide Received;
    if replies != [] {
      var n := |replies| - 1;
      var front := replies[..n];
      FrontPrefixes(replies);
      assert forall j: nat :: j < n ==> (Hits(front, j, i) <==> Hits(replies, j, i));
      LatestChunkStays(buf, front, i, if k < n then k else n);
      assert replies[..n][..n] == front;
      assert Stored(buf, replies)[i] ==
        if Hits(replies, n, i) then replies[n].data[i - Received(front)] else Stored(buf, front)[i];
      if k < n {
        assert Hits(front, k, i) <==> Hits(replies, k, i);
        assert front[..k] == replies[..k];
      }
    }
  }

  /** The sum of the counts after each read. */
  function PrefixSums(replies: seq<Got>): int {
    if replies == [] then 0 else PrefixSums(replies[..|replies| - 1]) + Received(replies)
  }

  lemma {:induction false} RemainingIsPrefixSums(dataLen: nat, replies: seq<Got>)
    ensures Remaining(dataLen, replies) == dataLen - PrefixSums(replies)
  {
    if replies != [] {
      RemainingIsPrefixSums(dataLen, replies[..|replies| - 1]);
    }
  }

  /** The count after each of these replies is not negative. */
  ghost predicate NeverNegative(replies: seq<Got>) {
    forall k :: 0 <= k <= |replies| ==> Received(replies[..k]) >= 0
  }

  /** Sums of counts that are never negative vanish exactly when every count does. */
  lemma {:induction false} SumsVanishIff(replies: seq<Got>)
    requires NeverNegative(replies)
    ensures PrefixSums(replies) >= 0
    ensures PrefixSums(replies) == 0 <==> forall k :: 0 <= k <= |replies| ==> Received(replies[..k]) == 0
  {
    assert replies[..|replies|] == replies;
    if replies != [] {
      var n := |replies| - 1;
      FrontPrefixes(replies);
      SumsVanishIff(replies[..n]);
    }
  }

  lemma FrontPrefixes(replies: seq<Got>)
    requires replies != []
    ensures var n := |replies| - 1; forall k :: 0 <= k <= n ==> replies[..n][..k] == replies[..k]
  {
  }

  /** The replies of a call that ends with success: the loop was to go on before each, and nothing remains. */
  ghost predicate FilledRun(dataLen: nat, replies: seq<Got>) {
    && (forall k :: 0 <= k < |replies| ==> Continues(dataLen, replies[..k]))
    && Received(replies) >= 0 && Remaining(dataLen, replies) == 0
  }

  /**
   A successful call, whatever its reads returned, counts `dataLen` bytes exactly when the count was still 0 before
   the last read; that read then delivered all of them.
   */
  lemma FilledIsCompleteIff(dataLen: nat, replies: seq<Got>)
    requires dataLen > 0 && FilledRun(dataLen, replies)
    ensures replies != [] && Received(replies) <= dataLen
    ensures Received(replies) == dataLen <==> forall k :: 0 <= k < |replies| ==> Received(replies[..k]) == 0
    ensures Received(replies) == dataLen ==> Returned(replies[|replies| - 1]) == dataLen
  {
    var n := |replies| - 1;
    assert replies[..|replies|] == replies;
    RemainingIsPrefixSums(dataLen, replies);
    FrontPrefixes(replies);
    forall k | 0 <= k <= n
      ensures Received(replies[..n][..k]) >= 0
    {
      assert Continues(dataLen, replies[..k]);
    }
    SumsVanishIff(replies[..n]);
    if Received(replies) == dataLen {
      assert replies[..n][..n] == replies[..n];
    }
  }

  /** Without failing reads the count is 0 before the last read exactly when all earlier reads delivered nothing. */
  lemma {:induction false} CountStaysZeroIff(replies: seq<Got>)
    requires ErrorFree(replies)
    ensures NeverNegative(replies)
    ensures (forall k :: 0 <= k <= |replies| ==> Received(replies[..k]) == 0)
       <==> forall k :: 0 <= k < |replies| ==> Returned(replies[k]) == 0
  {
    assert replies[..|replies|] == replies;
    if replies != [] {
      var n := |replies| - 1;
      FrontPrefixes(replies);
      CountStaysZeroIff(replies[..n]);
    }
  }

  /** Two reads of one byte satisfy a request for three. */
  lemma ShortSuccess(b: Byte)
    ensures var replies := [Bytes([b]), Bytes([b])]; FilledRun(3, replies) && Received(replies) == 2
  {
    var replies := [Bytes([b]), Bytes([b])];
    TwoReplies(3, replies);
  }

  /** So does a read of two bytes followed by a failing read, with a count of one. */
  lemma ShortSuccessWithError(a: Byte, b: Byte)
    ensures var replies := [Bytes([a, b]), Error]; FilledRun(3, replies) && Received(replies) == 1
  {
    var replies := [Bytes([a, b]), Error];
    TwoReplies(3, replies);
  }

  lemma TwoReplies(dataLen: nat, replies: seq<Got>)
    requires |replies| == 2
    ensures var p, q := Returned(replies[0]), Returned(replies[0]) + Returned(replies[1]);
      && Received(replies[..0]) == 0 && Remaining(dataLen, replies[..0]) == dataLen
      && Received(replies[..1]) == p && Remaining(dataLen, replies[..1]) == dataLen - p
      && Received(replies) == q && Remaining(dataLen, replies) == dataLen - p - q
  {
    assert replies[..0] == [];
    Snoc(dataLen, [], replies, 0);
    Snoc(dataLen, [], replies, 1);
    assert replies[..2] == replies;
  }
}
