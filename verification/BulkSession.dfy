/** One thread's bulk-load session over the writer, and the counter that caps how many there are
    (src/copy/bulk_load_session.cpp:69-211). The server is taken to confirm every batch. */
module BulkSession {
  import opened BulkFrames
  import opened BulkWriter
  import opened Staging
  import opened Unicode

  function Messages(colmetadata: seq<byte>, batches: seq<seq<Chunk>>): seq<seq<byte>> {
    if batches == [] then []
    else Messages(colmetadata, batches[..|batches| - 1]) + [Message(colmetadata, batches[|batches| - 1])]
  }

  /** The chunks of the batches, in order. */
  function AllChunks(batches: seq<seq<Chunk>>): seq<Chunk> {
    if batches == [] then [] else AllChunks(batches[..|batches| - 1]) + batches[|batches| - 1]
  }

  /** The counts read from the ends of some messages, added up; None when one of them does not end in a DONE. */
  function CountsRead(messages: seq<seq<byte>>): Option<nat> {
    if messages == [] then Some(0)
    else
      var before, last := CountsRead(messages[..|messages| - 1]), ReadDone(messages[|messages| - 1]);
      if before.None? || last.None? then None else Some(before.value + last.value)
  }

  lemma BatchSnoc(colmetadata: seq<byte>, batches: seq<seq<Chunk>>, batch: seq<Chunk>)
    ensures var more := batches + [batch];
            Messages(colmetadata, more) == Messages(colmetadata, batches) + [Message(colmetadata, batch)]
            && AllChunks(more) == AllChunks(batches) + batch
  {
    assert (batches + [batch])[..|batches|] == batches;
  }

  lemma {:induction false} RowsConcat(a: seq<Chunk>, b: seq<Chunk>)
    ensures Rows(a + b) == Rows(a) + Rows(b)
  {
    if b == [] {
      assert a + b == a;
    } else {
      RowsConcat(a, b[..|b| - 1]);
      assert (a + b)[..|a + b| - 1] == a + b[..|b| - 1];
    }
  }

  lemma {:induction false} CountsAreRows(colmetadata: seq<byte>, batches: seq<seq<Chunk>>)
    requires Rows(AllChunks(batches)) < 0x1_0000_0000_0000_0000
    ensures |Messages(colmetadata, batches)| == |batches|
    ensures CountsRead(Messages(colmetadata, batches)) == Some(Rows(AllChunks(batches)))
  {
    hide ReadDone, Message, Rows;
    if batches != [] {
      var front, last := batches[..|batches| - 1], batches[|batches| - 1];
      assert batches == front + [last];
      BatchSnoc(colmetadata, front, last);
      RowsConcat(AllChunks(front), last);
      CountsAreRows(colmetadata, front);
      assert ReadDone(Message(colmetadata, last)) == Some(Rows(last)) by { MessageCounts(colmetadata, last); }
      var messages := Messages(colmetadata, batches);
      assert messages[..|messages| - 1] == Messages(colmetadata, front);
    } else {
      NoRows();
    }
  }

  lemma NoRows()
    ensures Rows(AllChunks([])) == 0
  {
  }

  lemma MessageCounts(colmetadata: seq<byte>, chunks: seq<Chunk>)
    requires Rows(chunks) < 0x1_0000_0000_0000_0000
    ensures ReadDone(Message(colmetadata, chunks)) == Some(Rows(chunks))
  {
    DoneReadsBack(colmetadata + Bytes(chunks), Rows(chunks));
  }

  /** Reading the frames of a session's messages off the wire: as many messages as batches, and the counts of their
      DONE tokens sum to the rows of all the chunks. */
  lemma CountsConserved(colmetadata: seq<byte>, batches: seq<seq<Chunk>>, m: nat)
    requires Rows(AllChunks(batches)) < 0x1_0000_0000_0000_0000 && 0 < m && HEADER_SIZE + m < 0x1_0000
    ensures var arrived := ReceiveAll(Flat(Stream(Messages(colmetadata, batches), m)));
            arrived.Some? && |arrived.value| == |batches| && CountsRead(arrived.value) == Some(Rows(AllChunks(batches)))
  {
    hide *;
    StreamArrives(Messages(colmetadata, batches), m);
    AllReceived(Flat(Stream(Messages(colmetadata, batches), m)), Messages(colmetadata, batches));
    CountsAreRows(colmetadata, batches);
  }

  /** A batch is ended by the chunk that takes it to the limit, and no earlier. */
  predicate Flushed(batch: seq<Chunk>, flushRows: nat) {
    batch != [] && flushRows > 0 && Rows(batch) >= flushRows && Rows(batch[..|batch| - 1]) < flushRows
  }

  predicate Under(batch: seq<Chunk>, flushRows: nat) { flushRows > 0 ==> Rows(batch) < flushRows }

  predicate AllFlushed(batches: seq<seq<Chunk>>, flushRows: nat) {
    forall k :: 0 <= k < |batches| ==> Flushed(batches[k], flushRows)
  }

  /** A batch under the limit, and one chunk more that reaches it. */
  lemma Due(batches: seq<seq<Chunk>>, batch: seq<Chunk>, chunk: Chunk, flushRows: nat)
    requires AllFlushed(batches, flushRows) && Under(batch, flushRows)
    requires flushRows > 0 && Rows(batch + [chunk]) >= flushRows
    ensures AllFlushed(batches + [batch + [chunk]], flushRows)
  {
    assert (batch + [chunk])[..|batch|] == batch;
  }

  class BulkLoadSession {
    const writer: BCPWriter
    const flushRows: nat
    var live: bool
    var rowsInBatch: nat
    var batchesFlushed: nat
    /** Every chunk given to Write, the batches ended, and the chunks of the open one. */
    ghost var given: seq<Chunk>
    ghost var batches: seq<seq<Chunk>>
    ghost var current: seq<Chunk>

    /** The session's books, whether or not the open batch is due. */
    ghost predicate Kept()
      reads this, writer
    {
      && writer.Valid()
      && writer.closed == Messages(writer.colmetadata, batches)
      && given == AllChunks(batches) + current
      && writer.open == live && (!live ==> current == [])
      && (live ==> writer.SoFar() == writer.colmetadata + Bytes(current) && rowsInBatch == Rows(current))
    }

    ghost predicate Valid()
      reads this, writer
    {
      Kept() && (live ==> Under(current, flushRows) && AllFlushed(batches, flushRows))
    }

    /** A started session: INSERT BULK has been accepted and the stream opened. */
    constructor (colmetadata: seq<byte>, packetSize: nat, flushRows: nat)
      requires HEADER_SIZE < packetSize < 0x1_0000
      ensures Valid() && live && given == [] && batches == [] && batchesFlushed == 0 && fresh(writer)
      ensures writer.colmetadata == colmetadata && writer.packetSize == packetSize && this.flushRows == flushRows
    {
      var w := new BCPWriter(colmetadata, packetSize);
      var ok := w.WriteColmetadata();
      writer, this.flushRows, live, rowsInBatch, batchesFlushed := w, flushRows, true, 0, 0;
      given, batches, current := [], [], [];
      new;
      NoBytes(colmetadata);
    }

    /** Opens the next batch after a flush. */
    method ReopenBatch()
      requires writer.Valid() && !writer.open
      modifies writer
      ensures writer.Valid() && writer.open && writer.SoFar() == writer.colmetadata
      ensures writer.closed == old(writer.closed) && writer.sent == old(writer.sent)
    {
      writer.ResetForNextBatch();
      var ok := writer.WriteColmetadata();
    }

    /** Ends the open batch with a DONE that counts it. */
    method EndBatch()
      requires Kept() && live
      modifies this`batches, this`current, writer
      ensures writer.Valid() && !writer.open && batches == old(batches) + [old(current)] && current == []
      ensures writer.closed == Messages(writer.colmetadata, batches) && given == AllChunks(batches) + current
      ensures writer.sent == Stream(writer.closed, writer.Payload())
    {
      hide DoneToken, Bytes, Messages, AllChunks, Stream;
      MessageIs(writer.colmetadata, current);
      BatchSnoc(writer.colmetadata, batches, current);
      var ok := writer.WriteDone(rowsInBatch);
      batches, current := batches + [current], [];
      assert AllChunks(batches) + [] == AllChunks(batches);
    }

    /** Adds a chunk to the open batch. */
    method Append(chunk: Chunk)
      requires Kept() && live
      modifies this`given, this`current, this`rowsInBatch, writer
      ensures Kept() && given == old(given) + [chunk] && current == old(current) + [chunk]
    {
      hide DoneToken, Bytes, Messages, AllChunks, Stream, Rows, BCPWriter.Valid;
      BytesSnoc(current, chunk);
      assert writer.colmetadataSent by { OpenIsSent(); }
      ghost var all := AllChunks(batches);
      assert all + (current + [chunk]) == (all + current) + [chunk];
      assert writer.colmetadata + (Bytes(current) + chunk.bytes) == (writer.colmetadata + Bytes(current)) + chunk.bytes;
      var ok := writer.WriteRows(chunk);
      given, current := given + [chunk], current + [chunk];
      rowsInBatch := rowsInBatch + chunk.rows;
    }

    lemma OpenIsSent()
      requires Kept() && live
      ensures writer.colmetadataSent
    {
    }

    /** Gives one chunk; a batch that reached the limit is ended and the next one opened. */
    method Write(chunk: Chunk) returns (rowsWritten: nat, flushed: bool)
      requires Valid() && live
      modifies this, writer
      ensures Valid() && live && given == old(given) + [chunk] && rowsWritten == chunk.rows
      ensures flushed <==> flushRows > 0 && Rows(old(current) + [chunk]) >= flushRows
      ensures if flushed then batches == old(batches) + [old(current) + [chunk]] && current == []
              else batches == old(batches) && current == old(current) + [chunk]
      ensures batchesFlushed == old(batchesFlushed) + if flushed then 1 else 0
    {
      hide DoneToken, Bytes, Messages, AllChunks, Stream, BCPWriter.Valid, AllFlushed;
      Append(chunk);
      rowsWritten := chunk.rows;
      flushed := flushRows > 0 && rowsInBatch >= flushRows;
      if flushed {
        Due(batches, old(current), chunk, flushRows);
        EndBatch();
        rowsInBatch, batchesFlushed := 0, batchesFlushed + 1;
        ReopenBatch();
        NoBytes(writer.colmetadata);
      }
    }

    /** Ends the last batch, empty or not, and with it the session. */
    method Finish() returns (confirmed: nat)
      requires Valid()
      modifies this, writer
      ensures Valid() && !live && given == old(given) && given == AllChunks(batches)
      ensures old(live) ==> confirmed == Rows(old(current)) && batches == old(batches) + [old(current)]
      ensures !old(live) ==> confirmed == 0 && batches == old(batches)
      ensures old(live) ==> writer.sent == Stream(Messages(writer.colmetadata, batches), writer.Payload())
      ensures old(live) && Rows(given) < 0x1_0000_0000_0000_0000 ==>
                var arrived := ReceiveAll(Flat(writer.sent));
                arrived.Some? && |arrived.value| == |batches| && CountsRead(arrived.value) == Some(Rows(given))
    {
      hide DoneToken, Bytes, Messages, AllChunks, Stream, Rows, BCPWriter.Valid, AllFlushed;
      if !live {
        assert AllChunks(batches) + [] == AllChunks(batches);
        return 0;
      }
      confirmed := rowsInBatch;
      EndBatch();
      if rowsInBatch > 0 { batchesFlushed := batchesFlushed + 1; }
      rowsInBatch, live := 0, false;
      assert AllChunks(batches) + [] == AllChunks(batches);
      if Rows(given) < 0x1_0000_0000_0000_0000 {
        writer.PayloadInRange();
        CountsConserved(writer.colmetadata, batches, writer.Payload());
      }
    }
  }

  lemma NoBytes(colmetadata: seq<byte>)
    ensures colmetadata + Bytes([]) == colmetadata && Rows([]) == 0
  {
  }

  lemma MessageIs(colmetadata: seq<byte>, chunks: seq<Chunk>)
    ensures colmetadata + Bytes(chunks) + DoneToken(Rows(chunks)) == Message(colmetadata, chunks)
  {
  }

  // ---------------------------------------------------------------- the slot counter

  /** A thread in `TryStart`: it has added itself to the counter and seen the value before. */
  datatype Claim = Claim(slot: nat)

  /** The shared counter, which starts at the sessions there are without `TryStart`, and the threads counted in it. */
  datatype Slots = Slots(used: nat, claims: map<nat, Claim>)

  function Winners(s: Slots, maxWriters: nat): set<nat> { set t | t in s.claims && s.claims[t].slot < maxWriters }

  /** fetch_add by a thread that holds no slot; fetch_sub by one that lost, failed to connect, or gave up. */
  datatype SlotStep = Add(t: nat) | Sub(t: nat)

  function Apply(s: Slots, step: SlotStep): Option<Slots> {
    match step
    case Add(t) => if t in s.claims then None else Some(Slots(s.used + 1, s.claims[t := Claim(s.used)]))
    case Sub(t) => if t in s.claims && s.used > 0 then Some(Slots(s.used - 1, s.claims - {t})) else None
  }

  ghost predicate SlotRun(states: seq<Slots>, steps: seq<SlotStep>, first: nat) {
    |states| == |steps| + 1 && states[0] == Slots(first, map[])
    && forall k :: 0 <= k < |steps| ==> Apply(states[k], steps[k]) == Some(states[k + 1])
  }

  lemma WinnersAfterAdd(s: Slots, t: nat, maxWriters: nat)
    requires t !in s.claims
    ensures var s' := Apply(s, Add(t)).value;
            |Winners(s', maxWriters)| == |Winners(s, maxWriters)| + if s.used < maxWriters then 1 else 0
  {
    var s' := Apply(s, Add(t)).value;
    assert Winners(s', maxWriters) == Winners(s, maxWriters) + if s.used < maxWriters then {t} else {};
  }

  lemma WinnersAfterSub(s: Slots, t: nat, maxWriters: nat)
    requires t in s.claims && s.used > 0
    ensures |Winners(Apply(s, Sub(t)).value, maxWriters)| <= |Winners(s, maxWriters)|
    ensures s.claims[t].slot < maxWriters ==> |Winners(Apply(s, Sub(t)).value, maxWriters)| == |Winners(s, maxWriters)| - 1
  {
    assert Winners(Apply(s, Sub(t)).value, maxWriters) == Winners(s, maxWriters) - {t};
  }

  lemma WinnersAreCounted(s: Slots, maxWriters: nat)
    ensures |Winners(s, maxWriters)| <= |s.claims|
  {
    assert Winners(s, maxWriters) <= s.claims.Keys;
    SubsetSize(Winners(s, maxWriters), s.claims.Keys);
  }

  lemma SubsetSize(a: set<nat>, b: set<nat>)
    requires a <= b
    ensures |a| <= |b|
  {
    assert a + (b - a) == b;
  }

  /** The counter is the sessions it started with and one for every claim, so the winners never exceed the limit,
      whatever the order of the adds and subtractions. */
  lemma {:induction false} WritersNeverExceedLimit(states: seq<Slots>, steps: seq<SlotStep>, first: nat, maxWriters: nat, k: nat)
    requires SlotRun(states, steps, first) && k < |states| && first <= maxWriters
    ensures states[k].used == first + |states[k].claims|
    ensures first + |Winners(states[k], maxWriters)| <= maxWriters
  {
    if k == 0 {
      assert Winners(states[0], maxWriters) == {};
    } else {
      WritersNeverExceedLimit(states, steps, first, maxWriters, k - 1);
      var s := states[k - 1];
      assert Apply(s, steps[k - 1]) == Some(states[k]);
      WinnersAreCounted(s, maxWriters);
      match steps[k - 1]
      case Add(t) =>
        WinnersAfterAdd(s, t, maxWriters);
        assert states[k].claims.Keys == s.claims.Keys + {t};
      case Sub(t) =>
        WinnersAfterSub(s, t, maxWriters);
        assert s.claims.Keys == states[k].claims.Keys + {t} && t !in states[k].claims;
    }
  }
}
