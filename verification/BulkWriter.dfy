/** The streaming writer of bulk-load messages and the session that drives it (src/copy/bcp_writer.cpp:162-245,
    388-444, 551-641, src/copy/bulk_load_session.cpp:69-211). */
module BulkWriter {
  import opened BulkFrames
  import opened Buffers
  import opened Staging
  import opened Unicode

  /** A chunk of rows as the row encoder leaves it. */
  datatype Chunk = Chunk(rows: nat, bytes: seq<byte>)

  const STREAM_BLOCK_CHUNKS := 2

  /** Token, status with a count, command INSERT, and the count in eight bytes. */
  function DoneToken(rows: nat): (s: seq<byte>)
    ensures |s| == 13
  {
    [0xFD] + Le(0x0010, 2) + Le(0x00C3, 2) + Le(rows, 8)
  }

  /** What the last thirteen bytes of a message say, read byte by byte: a DONE that counts an INSERT, and its count. */
  function ReadDone(message: seq<byte>): Option<nat> {
    if |message| < 13 then None
    else
      var t := message[|message| - 13..];
      if t[0] == 0xFD && FromLe(t[1..3]) == 0x0010 && FromLe(t[3..5]) == 0x00C3 then Some(FromLe(t[5..13])) else None
  }

  /** A DONE for `rows` rows is read as counting them, behind whatever bytes. */
  lemma DoneReadsBack(before: seq<byte>, rows: nat)
    requires rows < 0x1_0000_0000_0000_0000
    ensures ReadDone(before + DoneToken(rows)) == Some(rows)
  {
    hide Le, FromLe, Power256;
    EightByteRange();
    LeRoundTrip(0x0010, 2);
    LeRoundTrip(0x00C3, 2);
    LeRoundTrip(rows, 8);
    var t := DoneToken(rows);
    assert (before + t)[|before + t| - 13..] == t;
    assert t[1..3] == Le(0x0010, 2) && t[3..5] == Le(0x00C3, 2) && t[5..13] == Le(rows, 8);
  }

  lemma EightByteRange()
    ensures Power256(8) == 0x1_0000_0000_0000_0000 && Power256(2) == 0x1_0000
  {
    assert Power256(4) == 0x1_0000_0000;
    Power256Add(4, 4);
  }

  function Bytes(chunks: seq<Chunk>): seq<byte> {
    if chunks == [] then [] else Bytes(chunks[..|chunks| - 1]) + chunks[|chunks| - 1].bytes
  }

  function Rows(chunks: seq<Chunk>): nat {
    if chunks == [] then 0 else Rows(chunks[..|chunks| - 1]) + chunks[|chunks| - 1].rows
  }

  /** A batch on the wire: one COLMETADATA, the rows, and a DONE that counts them. */
  function Message(colmetadata: seq<byte>, chunks: seq<Chunk>): seq<byte> {
    colmetadata + Bytes(chunks) + DoneToken(Rows(chunks))
  }

  /** The bytes in front of chunk `k`. */
  function Offset(chunks: seq<Chunk>, k: nat): (n: nat)
    requires k <= |chunks|
  {
    if k == 0 then 0 else Offset(chunks, k - 1) + |chunks[k - 1].bytes|
  }

  lemma {:induction false} OffsetPrefix(chunks: seq<Chunk>, n: nat, k: nat)
    requires k <= n <= |chunks|
    ensures Offset(chunks[..n], k) == Offset(chunks, k)
  {
    if k > 0 { OffsetPrefix(chunks, n, k - 1); }
  }

  lemma {:induction false} BytesAt(chunks: seq<Chunk>, k: nat)
    requires k < |chunks|
    ensures |Bytes(chunks)| == Offset(chunks, |chunks|) && Offset(chunks, k + 1) <= |Bytes(chunks)|
    ensures Offset(chunks, k + 1) == Offset(chunks, k) + |chunks[k].bytes|
    ensures Bytes(chunks)[Offset(chunks, k)..Offset(chunks, k + 1)] == chunks[k].bytes
  {
    var n := |chunks| - 1;
    var front := chunks[..n];
    OffsetPrefix(chunks, n, n);
    BytesLast(chunks);
    hide Bytes;
    if n > 0 { BytesAt(front, if k < n then k else 0); }
    if k < n {
      OffsetPrefix(chunks, n, k);
      OffsetPrefix(chunks, n, k + 1);
      var a, b := Offset(chunks, k), Offset(chunks, k + 1);
      assert Bytes(chunks)[a..b] == Bytes(front)[a..b];
    }
  }

  lemma BytesLast(chunks: seq<Chunk>)
    requires chunks != []
    ensures var front := chunks[..|chunks| - 1];
            Bytes(chunks) == Bytes(front) + chunks[|chunks| - 1].bytes && (|chunks| == 1 ==> Bytes(front) == [])
  {
  }

  /** Where the parts of a batch lie on the wire: the column metadata in front, every chunk's bytes right behind those of
      the chunk before it, and thirteen bytes at the end. */
  lemma MessageHolds(colmetadata: seq<byte>, chunks: seq<Chunk>, k: nat)
    requires k < |chunks|
    ensures var m, at := Message(colmetadata, chunks), |colmetadata| + Offset(chunks, k);
            |m| == |colmetadata| + Offset(chunks, |chunks|) + 13 && m[..|colmetadata|] == colmetadata
            && at + |chunks[k].bytes| <= |m| && m[at..at + |chunks[k].bytes|] == chunks[k].bytes
  {
    hide DoneToken, Bytes;
    BytesAt(chunks, k);
    var m, b := Message(colmetadata, chunks), Bytes(chunks);
    assert m[|colmetadata|..|colmetadata| + |b|] == b;
  }

  /** The frames of whole messages sent one after the other, packet ids running on from 1. */
  function Stream(messages: seq<seq<byte>>, m: nat): seq<seq<byte>>
    requires m > 0
  {
    if messages == [] then []
    else
      var before := Stream(messages[..|messages| - 1], m);
      before + Frames(messages[|messages| - 1], 1 + |before|, m, true)
  }

  lemma BytesSnoc(chunks: seq<Chunk>, chunk: Chunk)
    ensures Bytes(chunks + [chunk]) == Bytes(chunks) + chunk.bytes && Rows(chunks + [chunk]) == Rows(chunks) + chunk.rows
  {
    assert (chunks + [chunk])[..|chunks|] == chunks;
  }

  lemma StreamSnoc(messages: seq<seq<byte>>, message: seq<byte>, m: nat)
    requires m > 0
    ensures Stream(messages + [message], m)
            == Stream(messages, m) + Frames(message, 1 + |Stream(messages, m)|, m, true)
  {
    assert (messages + [message])[..|messages|] == messages;
  }

  /** The same frames from the front. */
  function StreamFrom(messages: seq<seq<byte>>, id: nat, m: nat): seq<seq<byte>>
    requires m > 0
  {
    if messages == [] then []
    else var first := Frames(messages[0], id, m, true); first + StreamFrom(messages[1..], id + |first|, m)
  }

  lemma {:induction false} StreamFromSnoc(messages: seq<seq<byte>>, message: seq<byte>, id: nat, m: nat)
    requires m > 0
    ensures var before := StreamFrom(messages, id, m);
            StreamFrom(messages + [message], id, m) == before + Frames(message, id + |before|, m, true)
  {
    hide Frames;
    var all := messages + [message];
    if messages == [] {
      assert all[1..] == [] && all[0] == message;
      assert [] + Frames(message, id, m, true) == Frames(message, id, m, true) + [];
    } else {
      var first := Frames(messages[0], id, m, true);
      assert all[1..] == messages[1..] + [message] && all[0] == messages[0];
      StreamFromSnoc(messages[1..], message, id + |first|, m);
      var rest := StreamFrom(messages[1..], id + |first|, m);
      assert first + (rest + Frames(message, id + |first + rest|, m, true)) == (first + rest) + Frames(message, id + |first + rest|, m, true);
    }
  }

  lemma {:induction false} StreamForward(messages: seq<seq<byte>>, m: nat)
    requires m > 0
    ensures Stream(messages, m) == StreamFrom(messages, 1, m)
  {
    hide Frames;
    if messages != [] {
      var front, last := messages[..|messages| - 1], messages[|messages| - 1];
      StreamForward(front, m);
      StreamFromSnoc(front, last, 1, m);
      assert messages == front + [last];
    }
  }

  lemma {:induction false} StreamFromArrives(messages: seq<seq<byte>>, id: nat, m: nat)
    requires 0 < m && HEADER_SIZE + m < 0x1_0000
    ensures Arrives(Flat(StreamFrom(messages, id, m)), messages)
  {
    hide Frames, Receive;
    if messages != [] {
      var first := Frames(messages[0], id, m, true);
      var rest := StreamFrom(messages[1..], id + |first|, m);
      FlatConcat(first, rest);
      MessageArrives(messages[0], id, m, Flat(rest), []);
      assert [] + messages[0] == messages[0];
      StreamFromArrives(messages[1..], id + |first|, m);
    }
  }

  /** Whatever a writer has sent when no message is open, a receiver gets back as exactly the messages ended. */
  lemma StreamArrives(messages: seq<seq<byte>>, m: nat)
    requires 0 < m && HEADER_SIZE + m < 0x1_0000
    ensures Arrives(Flat(Stream(messages, m)), messages)
  {
    StreamForward(messages, m);
    StreamFromArrives(messages, 1, m);
  }

  /** Packet ids run on through the whole stream, modulo 256. */
  lemma {:induction false} StreamIds(messages: seq<seq<byte>>, id: nat, m: nat, k: nat)
    requires m > 0 && k < |StreamFrom(messages, id, m)|
    ensures |StreamFrom(messages, id, m)[k]| >= HEADER_SIZE && StreamFrom(messages, id, m)[k][6] as int == (id + k) % 0x100
  {
    hide Frames;
    var first := Frames(messages[0], id, m, true);
    if k < |first| {
      FramesShape(messages[0], id, m, k);
    } else {
      StreamIds(messages[1..], id + |first|, m, k - |first|);
    }
  }

  /** What has been sent is the closed messages, each cut in one go, and whole frames of the open one. */
  ghost predicate Consistent(sent: seq<seq<byte>>, closed: seq<seq<byte>>, drained: seq<byte>, packetId: nat, m: nat) {
    m > 0 && |drained| % m == 0
    && sent == Stream(closed, m) + Frames(drained, 1 + |Stream(closed, m)|, m, false)
    && packetId == (1 + |sent|) % 0x100
  }

  lemma ConsistentStart(m: nat)
    requires m > 0
    ensures Consistent([], [], [], 1, m)
  {
    DivUnique(0, m, 0, 0);
  }

  lemma ConsistentId(sent: seq<seq<byte>>, closed: seq<seq<byte>>, drained: seq<byte>, packetId: nat, m: nat)
    requires Consistent(sent, closed, drained, packetId, m)
    ensures packetId == (1 + |sent|) % 0x100
  {
  }

  /** More whole frames of the open message. */
  lemma ConsistentDrain(sent: seq<seq<byte>>, closed: seq<seq<byte>>, drained: seq<byte>, packetId: nat, m: nat,
                        more: seq<byte>, sent': seq<seq<byte>>)
    requires Consistent(sent, closed, drained, packetId, m) && more != [] && |more| % m == 0
    requires sent' == sent + Frames(more, 1 + |sent|, m, false)
    ensures Consistent(sent', closed, drained + more, (1 + |sent'|) % 0x100, m)
  {
    hide Frames, Stream;
    var base := 1 + |Stream(closed, m)|;
    FramesSplit(drained, more, base, m, false);
    DivFacts(|more|, m);
    MultiplesAdd(|drained|, |more| / m, m);
    assert (Stream(closed, m) + Frames(drained, base, m, false)) + Frames(more, 1 + |sent|, m, false)
           == Stream(closed, m) + (Frames(drained, base, m, false) + Frames(more, 1 + |sent|, m, false));
  }

  /** The end of the open message. */
  lemma ConsistentClose(sent: seq<seq<byte>>, closed: seq<seq<byte>>, drained: seq<byte>, packetId: nat, m: nat,
                        tail: seq<byte>, sent': seq<seq<byte>>)
    requires Consistent(sent, closed, drained, packetId, m) && tail != []
    requires sent' == sent + Frames(tail, 1 + |sent|, m, true)
    ensures sent' == Stream(closed + [drained + tail], m)
    ensures Consistent(sent', closed + [drained + tail], [], (1 + |sent'|) % 0x100, m)
  {
    hide Frames, Stream;
    var before, base := Stream(closed, m), 1 + |Stream(closed, m)|;
    var early, late := Frames(drained, base, m, false), Frames(tail, 1 + |sent|, m, true);
    FramesSplit(drained, tail, base, m, true);
    StreamSnoc(closed, drained + tail, m);
    assert (before + early) + late == before + (early + late);
    AllClosed(sent', closed + [drained + tail], m);
  }

  lemma AllClosed(sent: seq<seq<byte>>, closed: seq<seq<byte>>, m: nat)
    requires m > 0 && sent == Stream(closed, m)
    ensures Consistent(sent, closed, [], (1 + |sent|) % 0x100, m)
  {
    hide Stream;
    NoFrames(1 + |sent|, m);
    DivUnique(0, m, 0, 0);
    assert sent + [] == sent;
  }

  lemma NextId(n: nat)
    ensures (n % 0x100 + 1) % 0x100 == (1 + n) % 0x100
  {
  }

  class BCPWriter {
    const colmetadata: seq<byte>
    const packetSize: nat
    var accumulator: seq<byte>
    var packetId: nat
    var chunksSinceDrain: nat
    var colmetadataSent: bool
    var rowsInBatch: nat
    var rowsSent: nat
    /** Every frame handed to the socket. */
    var sent: seq<seq<byte>>
    /** The messages ended, and what has left of the one that is open. */
    ghost var closed: seq<seq<byte>>
    ghost var drained: seq<byte>
    ghost var open: bool

    ghost function Payload(): nat {
      if packetSize < HEADER_SIZE then 0 else packetSize - HEADER_SIZE
    }

    /** The bytes of the open message so far. */
    ghost function SoFar(): seq<byte>
      reads this
    {
      drained + accumulator
    }

    /** What has been sent is the closed messages, each cut in one go, and whole frames of the open one. */
    ghost predicate Valid()
      reads this
    {
      && HEADER_SIZE < packetSize < 0x1_0000 && Consistent(sent, closed, drained, packetId, Payload())
      && (open ==> colmetadataSent) && (!open ==> drained == [])
    }

    lemma PayloadInRange()
      requires Valid()
      ensures 0 < Payload() && HEADER_SIZE + Payload() < 0x1_0000
    {
    }

    constructor (colmetadata: seq<byte>, packetSize: nat)
      requires HEADER_SIZE < packetSize < 0x1_0000
      ensures Valid() && !open && !colmetadataSent && closed == [] && sent == []
      ensures this.colmetadata == colmetadata && this.packetSize == packetSize && rowsSent == rowsInBatch == 0
    {
      this.colmetadata, this.packetSize := colmetadata, packetSize;
      accumulator, packetId, chunksSinceDrain, colmetadataSent := [], 1, 0, false;
      rowsInBatch, rowsSent, sent := 0, 0, [];
      closed, drained, open := [], [], false;
      ConsistentStart(packetSize - HEADER_SIZE);
    }

    /** Opens the message; refused while one is open. */
    method WriteColmetadata() returns (ok: bool)
      requires Valid()
      modifies this
      ensures Valid() && ok == !old(colmetadataSent)
      ensures ok ==> open && SoFar() == colmetadata
      ensures !ok ==> unchanged(this)
      ensures sent == old(sent) && closed == old(closed)
      ensures rowsInBatch == old(rowsInBatch) && rowsSent == old(rowsSent) && chunksSinceDrain == old(chunksSinceDrain)
    {
      hide Consistent;
      if colmetadataSent { return false; }
      accumulator := colmetadata;
      colmetadataSent := true;
      open := true;
      assert drained + accumulator == colmetadata;
      ok := true;
    }

    method SendFrame(payload: seq<byte>, last: bool)
      requires packetId == (1 + |sent|) % 0x100
      modifies this`sent, this`packetId
      ensures sent == old(sent) + [Frame(payload, last, 1 + |old(sent)|)] && packetId == (1 + |sent|) % 0x100
    {
      hide Frame;
      SameId(payload, last, packetId, 1 + |sent|);
      NextId(1 + |sent|);
      sent := sent + [Frame(payload, last, packetId)];
      packetId := (packetId + 1) % 0x100;
    }

    /** Cuts `data` into frames and sends them. */
    method WriteFrames(data: seq<byte>, eom: bool)
      requires HEADER_SIZE < packetSize < 0x1_0000 && packetId == (1 + |sent|) % 0x100
      modifies this`sent, this`packetId
      ensures sent == old(sent) + Frames(data, 1 + |old(sent)|, Payload(), eom)
      ensures packetId == (1 + |sent|) % 0x100
    {
      hide Frame, Frames, Remaining;
      var m, offset := packetSize - HEADER_SIZE, 0;
      ghost var first := sent;
      ghost var goal := Remaining(data, 0, 1 + |sent|, m, eom);
      ghost var done: seq<seq<byte>> := [];
      RemainingAll(data, 1 + |sent|, m, eom);
      while offset < |data| || (|data| == 0 && eom)
        invariant offset <= |data| && packetId == (1 + |sent|) % 0x100 && sent == first + done
        invariant goal == done + Remaining(data, offset, 1 + |sent|, m, eom)
        decreases |data| - offset
      {
        var size := if m < |data| - offset then m else |data| - offset;
        var last := eom && offset + size >= |data|;
        NextFrame(data, offset, size, 1 + |sent|, m, eom);
        ghost var f := Frame(data[offset..offset + size], last, 1 + |sent|);
        SendFrame(data[offset..offset + size], last);
        offset := offset + size;
        ghost var rest := if size == 0 then [] else Remaining(data, offset, 1 + |sent|, m, eom);
        assert done + ([f] + rest) == (done + [f]) + rest;
        done := done + [f];
        if size == 0 { break; }
      }
      RemainingNone(data, offset, 1 + |sent|, m, eom);
    }

    /** Pushes out what fills whole frames and keeps the rest. */
    method DrainWholeFrames()
      requires Valid() && open
      modifies this`sent, this`packetId, this`accumulator, this`drained
      ensures Valid() && SoFar() == old(SoFar()) && |accumulator| < Payload()
    {
      hide Frames, Stream, Consistent;
      var m := packetSize - HEADER_SIZE;
      var sendable := (|accumulator| / m) * m;
      DivFacts(|accumulator|, m);
      if sendable == 0 {
        return;
      }
      ghost var a, b, rest, before := drained, accumulator[..sendable], accumulator[sendable..], sent;
      MultiplesAdd(0, |accumulator| / m, m);
      ConsistentId(sent, closed, drained, packetId, m);
      ghost var id := packetId;
      WriteFrames(accumulator[..sendable], false);
      ConsistentDrain(before, closed, a, id, m, b, sent);
      drained := drained + accumulator[..sendable];
      accumulator := accumulator[sendable..];
      assert (a + b) + rest == a + (b + rest) && b + rest == old(accumulator);
    }

    /** Encodes a chunk into the open message; every second chunk pushes out whole frames. */
    method WriteRows(chunk: Chunk) returns (ok: bool)
      requires Valid() && (colmetadataSent ==> open)
      modifies this
      ensures Valid() && ok == old(colmetadataSent) && closed == old(closed) && open == old(open)
      ensures ok ==> SoFar() == old(SoFar()) + chunk.bytes && colmetadataSent
      ensures ok ==> rowsInBatch == old(rowsInBatch) + chunk.rows && rowsSent == old(rowsSent) + chunk.rows
      ensures ok ==> chunksSinceDrain == (if old(chunksSinceDrain) >= 1 then 0 else 1)
                     && (old(chunksSinceDrain) >= 1 ==> |accumulator| < Payload())
      ensures !ok ==> unchanged(this)
    {
      if !colmetadataSent { return false; }
      hide Frames, Stream, Consistent;
      assert drained + (accumulator + chunk.bytes) == SoFar() + chunk.bytes;
      accumulator := accumulator + chunk.bytes;
      chunksSinceDrain := chunksSinceDrain + 1;
      if chunksSinceDrain >= STREAM_BLOCK_CHUNKS {
        chunksSinceDrain := 0;
        DrainWholeFrames();
      }
      rowsSent, rowsInBatch := rowsSent + chunk.rows, rowsInBatch + chunk.rows;
      ok := true;
    }

    /** Ends the message: with what is still held and the DONE token, the frames sent for it are those of the whole
        message cut in one go. */
    method WriteDone(rows: nat) returns (ok: bool)
      requires Valid() && (colmetadataSent ==> open)
      modifies this
      ensures ok == old(colmetadataSent) && (!ok ==> unchanged(this)) && (ok ==> Valid() && !open)
      ensures ok ==> closed == old(closed) + [old(SoFar()) + DoneToken(rows)]
      ensures ok ==> sent == Stream(closed, Payload())
      ensures ok ==> colmetadataSent && rowsInBatch == old(rowsInBatch) && rowsSent == old(rowsSent)
    {
      if !colmetadataSent { return false; }
      hide Frames, Stream, DoneToken, Consistent;
      var m := packetSize - HEADER_SIZE;
      ghost var before, id := sent, packetId;
      assert drained + (accumulator + DoneToken(rows)) == SoFar() + DoneToken(rows);
      accumulator := accumulator + DoneToken(rows);
      ConsistentId(sent, closed, drained, packetId, m);
      WriteFrames(accumulator, true);
      ConsistentClose(before, closed, drained, id, m, accumulator, sent);
      closed, drained, open := closed + [drained + accumulator], [], false;
      ok := true;
    }

    /** Between batches; packet ids and totals run on. */
    method ResetForNextBatch()
      requires Valid() && !open
      modifies this`accumulator, this`chunksSinceDrain, this`colmetadataSent, this`rowsInBatch
      ensures Valid() && !colmetadataSent && accumulator == [] && rowsInBatch == 0
    {
      hide Consistent;
      accumulator, chunksSinceDrain, colmetadataSent, rowsInBatch := [], 0, false, 0;
    }
  }

  lemma NoFrames(id: nat, m: nat)
    requires m > 0
    ensures Frames([], id, m, false) == []
  {
  }

  lemma MultiplesAdd(n: nat, q: nat, m: nat)
    requires m > 0 && n % m == 0
    ensures (n + q * m) % m == 0 && (q * m) % m == 0
  {
    DivFacts(n, m);
    assert (n / m + q) * m == (n / m) * m + q * m;
    DivUnique(n + q * m, m, n / m + q, 0);
    DivUnique(q * m, m, q, 0);
  }

  /** The frames still to be cut at an offset. */
  ghost function Remaining(data: seq<byte>, offset: nat, id: nat, m: nat, eom: bool): seq<seq<byte>>
    requires m > 0 && offset <= |data|
  {
    if offset == |data| && !(|data| == 0 && eom) then [] else Frames(data[offset..], id, m, eom)
  }

  lemma RemainingNone(data: seq<byte>, offset: nat, id: nat, m: nat, eom: bool)
    requires m > 0 && offset <= |data|
    ensures offset == |data| && !(|data| == 0 && eom) ==> Remaining(data, offset, id, m, eom) == []
  {
  }

  lemma RemainingAll(data: seq<byte>, id: nat, m: nat, eom: bool)
    requires m > 0
    ensures Remaining(data, 0, id, m, eom) == Frames(data, id, m, eom)
  {
    assert data[0..] == data;
  }

  lemma SameId(payload: seq<byte>, last: bool, a: nat, b: nat)
    requires a % 0x100 == b % 0x100
    ensures Frame(payload, last, a) == Frame(payload, last, b)
  {
  }

  lemma NextFrame(data: seq<byte>, offset: nat, size: nat, id: nat, m: nat, eom: bool)
    requires m > 0 && offset <= |data| && size == (if m < |data| - offset then m else |data| - offset)
    requires offset < |data| || (|data| == 0 && eom)
    ensures Remaining(data, offset, id, m, eom)
            == [Frame(data[offset..offset + size], eom && offset + size >= |data|, id)]
               + if size == 0 then [] else Remaining(data, offset + size, id + 1, m, eom)
  {
    hide Frames, Frame;
    var d := data[offset..];
    assert d[size..] == data[offset + size..] && d[..size] == data[offset..offset + size];
    if |d| <= m {
      assert d[..size] == d;
      OneFrame(d, id, m, eom);
      RemainingNone(data, offset + size, id + 1, m, eom);
    } else {
      FirstFrame(d, id, m, eom);
    }
  }
}
