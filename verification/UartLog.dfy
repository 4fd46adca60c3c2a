/**
 The console writer `s_vprintf` (niobeu4/liteos_m/hals/log/log.c): a formatted message goes out through a transmit
 FIFO in pieces no larger than the space the FIFO last reported.
 */
module UartLog {

  type Text = seq<char>

  /** `uart_ll_get_txfifo_len` returns a 16-bit value. */
  type Space = x: int | 0 <= x < 0x1_0000

  /** One call of `uart_ll_write_txfifo`, with the free space reported just before it. */
  datatype Chunk = Chunk(data: Text, space: Space)

  function Flatten(chunks: seq<Chunk>): Text {
    if chunks == [] then [] else chunks[0].data + Flatten(chunks[1..])
  }

  function Sum(reports: seq<Space>): nat {
    if reports == [] then 0 else reports[0] + Sum(reports[1..])
  }

  /** The writes for `msg` when the FIFO reports `reports`, as far as these reports last. */
  function Chunks(msg: Text, reports: seq<Space>): seq<Chunk> {
    if msg == [] || reports == [] then []
    else if reports[0] >= |msg| then [Chunk(msg, reports[0])]
    else
      (if reports[0] == 0 then [] else [Chunk(msg[..reports[0]], reports[0])])
      + Chunks(msg[reports[0]..], reports[1..])
  }

  /** What is still to be sent after these reports. */
  function Unsent(msg: Text, reports: seq<Space>): Text {
    if msg == [] || reports == [] then msg
    else if reports[0] >= |msg| then []
    else Unsent(msg[reports[0]..], reports[1..])
  }

  lemma {:induction false} FlattenAppend(a: seq<Chunk>, b: seq<Chunk>)
    ensures Flatten(a + b) == Flatten(a) + Flatten(b)
  {
    if a == [] {
      assert a + b == b;
    } else {
      assert (a + b)[1..] == a[1..] + b;
      FlattenAppend(a[1..], b);
    }
  }

  lemma OneReport(rest: Text, reports: seq<Space>, k: nat)
    requires rest != [] && k < |reports| && reports[k] < |rest|
    ensures var f := reports[k]; var later := Chunks(rest[f..], reports[k + 1..]);
      Chunks(rest, reports[k..]) == if f == 0 then later else [Chunk(rest[..f], f)] + later
    ensures Unsent(rest, reports[k..]) == Unsent(rest[reports[k]..], reports[k + 1..])
  {
    assert reports[k..][1..] == reports[k + 1..];
    var later := Chunks(rest[reports[k]..], reports[k + 1..]);
    assert [] + later == later;
  }

  lemma LastReport(rest: Text, reports: seq<Space>, k: nat)
    requires k <= |reports| && (rest != [] && k < |reports| ==> reports[k] >= |rest|)
    ensures rest == [] || k == |reports| ==> Chunks(rest, reports[k..]) == [] && Unsent(rest, reports[k..]) == rest
    ensures rest != [] && k < |reports| ==>
      Chunks(rest, reports[k..]) == [Chunk(rest, reports[k])] && Unsent(rest, reports[k..]) == []
  {
  }

  /** The chunks written and the rest make up exactly the message, in order. */
  lemma {:induction false} ChunksMakeUpMessage(msg: Text, reports: seq<Space>)
    ensures Flatten(Chunks(msg, reports)) + Unsent(msg, reports) == msg
  {
    hide Chunks, Unsent;
    assert reports[0..] == reports;
    if msg == [] || reports == [] || reports[0] >= |msg| {
      LastReport(msg, reports, 0);
      if msg != [] && reports != [] {
        FlattenOne(Chunk(msg, reports[0]));
      }
    } else {
      var head, tail := msg[..reports[0]], msg[reports[0]..];
      OneReport(msg, reports, 0);
      ChunksMakeUpMessage(tail, reports[1..]);
      FlattenOne(Chunk(head, reports[0]));
      var first := if reports[0] == 0 then [] else [Chunk(head, reports[0])];
      Glue(first, Chunks(tail, reports[1..]), Unsent(tail, reports[1..]), head, tail);
      assert first == [] ==> first + Chunks(tail, reports[1..]) == Chunks(tail, reports[1..]);
      assert head + tail == msg;
    }
  }

  lemma FlattenOne(c: Chunk)
    ensures Flatten([c]) == c.data
  {
    assert Flatten([c]) == c.data + Flatten([]);
  }

  lemma Glue(first: seq<Chunk>, later: seq<Chunk>, rest: Text, head: Text, tail: Text)
    requires Flatten(first) == head && Flatten(later) + rest == tail
    ensures Flatten(first + later) + rest == head + tail
  {
    FlattenAppend(first, later);
    assert (head + Flatten(later)) + rest == head + (Flatten(later) + rest);
  }

  /** Fewer reports give the same writes, up to where they end: each write follows the report it was made for. */
  lemma {:induction false} ChunksPrefix(msg: Text, reports: seq<Space>, k: nat)
    requires k <= |reports|
    ensures Chunks(msg, reports[..k]) <= Chunks(msg, reports)
  {
    if k > 0 && msg != [] && reports[0] < |msg| {
      assert reports[..k][1..] == reports[1..][..k - 1];
      ChunksPrefix(msg[reports[0]..], reports[1..], k - 1);
    }
  }

  /** No chunk is empty or larger than the space just reported. */
  lemma {:induction false} ChunksFit(msg: Text, reports: seq<Space>, k: nat)
    requires k < |Chunks(msg, reports)|
    ensures var c := Chunks(msg, reports)[k]; 0 < |c.data| <= c.space && c.space in reports
  {
    if reports[0] < |msg| {
      var first := if reports[0] == 0 then [] else [Chunk(msg[..reports[0]], reports[0])];
      if k >= |first| {
        ChunksFit(msg[reports[0]..], reports[1..], k - |first|);
      }
    }
  }

  /** The reports shorten the rest by their sum, so the message is out exactly when they add up to its length. */
  lemma {:induction false} UnsentLength(msg: Text, reports: seq<Space>)
    ensures |Unsent(msg, reports)| == if Sum(reports) >= |msg| then 0 else |msg| - Sum(reports)
  {
    if msg != [] && reports != [] && reports[0] < |msg| {
      UnsentLength(msg[reports[0]..], reports[1..]);
    }
  }

  /** Each further nonzero report strictly shortens the rest. */
  lemma {:induction false} NonzeroReportProgress(msg: Text, reports: seq<Space>, next: Space)
    requires Unsent(msg, reports) != [] && next != 0
    ensures |Unsent(msg, reports + [next])| < |Unsent(msg, reports)|
  {
    UnsentLength(msg, reports);
    UnsentLength(msg, reports + [next]);
    SumAppend(reports, next);
  }

  lemma {:induction false} SumAppend(reports: seq<Space>, next: Space)
    ensures Sum(reports + [next]) == Sum(reports) + next
  {
    if reports != [] {
      assert (reports + [next])[1..] == reports[1..] + [next];
      SumAppend(reports[1..], next);
    }
  }

  /** The sending loop, for the values the FIFO reports while the loop polls it. */
  method Transmit(pbuf: Text, reports: seq<Space>) returns (written: seq<Chunk>, rest: Text)
    ensures written == Chunks(pbuf, reports)
    ensures rest == Unsent(pbuf, reports)
  {
    hide Chunks, Unsent;
    written, rest := [], pbuf;
    var k := 0;
    assert reports[0..] == reports;
    while rest != [] && k < |reports| && reports[k] < |rest|
      invariant k <= |reports|
      invariant written + Chunks(rest, reports[k..]) == Chunks(pbuf, reports)
      invariant Unsent(rest, reports[k..]) == Unsent(pbuf, reports)
    {
      OneReport(rest, reports, k);
      var fillLen := reports[k];
      ghost var later := Chunks(rest[fillLen..], reports[k + 1..]);
      if fillLen != 0 {
        assert written + ([Chunk(rest[..fillLen], fillLen)] + later)
            == (written + [Chunk(rest[..fillLen], fillLen)]) + later;
        written := written + [Chunk(rest[..fillLen], fillLen)];
        rest := rest[fillLen..];
      } else {
        assert rest[0..] == rest;
      }
      k := k + 1;
    }
    LastReport(rest, reports, k);
    if rest != [] && k < |reports| {
      written, rest := written + [Chunk(rest, reports[k])], [];
    }
  }
}
