/** TDS packets of a bulk-load message (section 2.2.3.1 of [MS-TDS]): how a message is cut into frames, what a
    receiver puts together again, and the writer that sends a batch while it is still being encoded
    (src/copy/bcp_writer.cpp:162-245, 388-444, 551-641). */
module BulkFrames {
  import opened Buffers
  import opened Staging
  import opened Unicode

  const HEADER_SIZE := 8
  const BULK_LOAD: byte := 7

  /** The eight bytes in front of a payload; `total` counts them too. */
  function Header(total: nat, last: bool, id: nat): (h: seq<byte>)
    ensures |h| == HEADER_SIZE
  {
    [BULK_LOAD, if last then 0x01 else 0x00, ((total / 0x100) % 0x100) as byte, (total % 0x100) as byte, 0, 0,
     (id % 0x100) as byte, 0]
  }

  function Frame(payload: seq<byte>, last: bool, id: nat): seq<byte> {
    Header(HEADER_SIZE + |payload|, last, id) + payload
  }

  /** A payload cut into frames of at most `m` bytes, numbered from `id`; with `eom` the last one ends the message,
      and an empty message is one empty frame. */
  function Frames(data: seq<byte>, id: nat, m: nat, eom: bool): seq<seq<byte>>
    requires m > 0
  {
    if data == [] then if eom then [Frame([], true, id)] else []
    else if |data| <= m then [Frame(data, eom, id)]
    else [Frame(data[..m], false, id)] + Frames(data[m..], id + 1, m, eom)
  }

  /** Cutting at a frame boundary changes nothing: what is sent early is what would have been sent at once. */
  lemma {:induction false} FramesSplit(a: seq<byte>, b: seq<byte>, id: nat, m: nat, eom: bool)
    requires m > 0 && |a| % m == 0 && b != []
    ensures Frames(a + b, id, m, eom) == Frames(a, id, m, false) + Frames(b, id + |a| / m, m, eom)
    ensures |Frames(a, id, m, false)| == |a| / m
  {
    hide Frame, Frames;
    if a == [] {
      assert a + b == b;
      NothingToFrame(id, m);
      DivUnique(0, m, 0, 0);
    } else {
      var rest := a[m..];
      WholeFrames(|a|, m);
      FramesSplit(rest, b, id + 1, m, eom);
      assert (a + b)[..m] == a[..m] && (a + b)[m..] == rest + b;
      FirstFrame(a, id, m, false);
      FirstFrame(a + b, id, m, eom);
    }
  }

  lemma NothingToFrame(id: nat, m: nat)
    requires m > 0
    ensures Frames([], id, m, false) == []
  {
  }

  /** The first frame of a payload that fills it, unless it is the message's last. */
  lemma FirstFrame(data: seq<byte>, id: nat, m: nat, eom: bool)
    requires 0 < m <= |data| && (eom ==> m < |data|)
    ensures Frames(data, id, m, eom) == [Frame(data[..m], false, id)] + Frames(data[m..], id + 1, m, eom)
  {
    hide Frame;
    if |data| == m {
      assert data[..m] == data && data[m..] == [];
      NothingToFrame(id + 1, m);
    }
  }

  /** A payload that fits a frame. */
  lemma OneFrame(data: seq<byte>, id: nat, m: nat, eom: bool)
    requires |data| <= m && 0 < m && (data != [] || eom)
    ensures Frames(data, id, m, eom) == [Frame(data, eom, id)]
  {
    hide Frame;
  }

  lemma WholeFrames(n: nat, m: nat)
    requires m > 0 && n > 0 && n % m == 0
    ensures n >= m && (n - m) % m == 0 && (n - m) / m == n / m - 1 && n / m >= 1
  {
    DivFacts(n, m);
    var q := n / m;
    assert q * m == n;
    MulAtLeast(q, m);
    assert q == 0 ==> q * m == 0;
    assert (q - 1) * m == q * m - m;
    DivUnique(n - m, m, q - 1, 0);
  }

  /** Every frame of a message but the last is full, only the last ends the message, and packet ids count up
      modulo 256. */
  lemma {:induction false} FramesShape(data: seq<byte>, id: nat, m: nat, k: nat)
    requires m > 0 && k < |Frames(data, id, m, true)|
    ensures var f, n := Frames(data, id, m, true)[k], |Frames(data, id, m, true)|;
            HEADER_SIZE <= |f| <= HEADER_SIZE + m && (k + 1 < n ==> |f| == HEADER_SIZE + m)
            && (f[1] == 0x01 <==> k + 1 == n) && (f[1] == 0x00 <==> k + 1 < n) && f[6] as int == (id + k) % 0x100
            && f[0] == 0x07 && f[4] == f[5] == f[7] == 0x00
            && (HEADER_SIZE + m < 0x1_0000 ==> f[2] as int * 0x100 + f[3] as int == |f|)
    decreases |data|
  {
    hide Header;
    if |data| <= m {
      HeaderIs(HEADER_SIZE + |data|, true, id);
    } else {
      var rest := data[m..];
      FramesNonEmpty(rest, id + 1, m);
      HeaderIs(HEADER_SIZE + m, false, id);
      if k > 0 { FramesShape(rest, id + 1, m, k - 1); }
    }
  }

  lemma FramesNonEmpty(data: seq<byte>, id: nat, m: nat)
    requires m > 0
    ensures |Frames(data, id, m, true)| >= 1
  {
  }

  lemma HeaderIs(total: nat, last: bool, id: nat)
    ensures var h := Header(total, last, id);
            h[0] == 0x07 && h[1] == (if last then 0x01 else 0x00) && h[4] == h[5] == h[7] == 0x00 && h[6] as int == id % 0x100
            && (total < 0x1_0000 ==> h[2] as int * 0x100 + h[3] as int == total)
  {
  }

  // ---------------------------------------------------------------- the receiver

  function Flat(frames: seq<seq<byte>>): seq<byte> { if frames == [] then [] else frames[0] + Flat(frames[1..]) }

  /** Reads one message off a byte stream: header by header, until a frame ends it. */
  function Receive(s: seq<byte>, got: seq<byte>): Option<(seq<byte>, seq<byte>)> {
    if |s| < HEADER_SIZE then None
    else
      var total := s[2] as int * 0x100 + s[3] as int;
      if total < HEADER_SIZE || |s| < total then None
      else if s[1] == 0x01 then Some((got + s[HEADER_SIZE..total], s[total..]))
      else Receive(s[total..], got + s[HEADER_SIZE..total])
  }

  lemma ReceiveFrame(payload: seq<byte>, last: bool, id: nat, rest: seq<byte>, got: seq<byte>)
    requires HEADER_SIZE + |payload| < 0x1_0000
    ensures Receive(Frame(payload, last, id) + rest, got) ==
            if last then Some((got + payload, rest)) else Receive(rest, got + payload)
  {
    var total := HEADER_SIZE + |payload|;
    HeaderIs(total, last, id);
    hide Header;
    var s := Frame(payload, last, id) + rest;
    assert s[HEADER_SIZE..total] == payload && s[total..] == rest;
    assert s[..HEADER_SIZE] == Header(total, last, id);
    assert s[1] == Header(total, last, id)[1] && s[2] == Header(total, last, id)[2] && s[3] == Header(total, last, id)[3];
  }

  /** A receiver of the frames gets the message back, and is left at the first byte after it. */
  lemma {:induction false} MessageArrives(data: seq<byte>, id: nat, m: nat, rest: seq<byte>, got: seq<byte>)
    requires 0 < m && HEADER_SIZE + m < 0x1_0000
    ensures Receive(Flat(Frames(data, id, m, true)) + rest, got) == Some((got + data, rest))
    decreases |data|
  {
    hide Receive, Frame;
    if |data| <= m {
      var f := Frame(data, true, id);
      assert Frames(data, id, m, true) == [f];
      assert [f][1..] == [] && Flat([f]) == f + [] && f + [] == f;
      ReceiveFrame(data, true, id, rest, got);
    } else {
      var f, more := Frame(data[..m], false, id), Frames(data[m..], id + 1, m, true);
      var all := Frames(data, id, m, true);
      assert all == [f] + more && all[1..] == more;
      assert Flat(all) + rest == f + (Flat(more) + rest);
      ReceiveFrame(data[..m], false, id, Flat(more) + rest, got);
      MessageArrives(data[m..], id + 1, m, rest, got + data[..m]);
      assert (got + data[..m]) + data[m..] == got + data;
    }
  }

  lemma {:induction false} FlatConcat(a: seq<seq<byte>>, b: seq<seq<byte>>)
    ensures Flat(a + b) == Flat(a) + Flat(b)
  {
    if a == [] {
      assert a + b == b;
    } else {
      FlatConcat(a[1..], b);
      assert (a + b)[1..] == a[1..] + b;
      assert a[0] + (Flat(a[1..]) + Flat(b)) == (a[0] + Flat(a[1..])) + Flat(b);
    }
  }

  /** The messages come off the byte stream one after the other, and nothing is left. */
  predicate Arrives(s: seq<byte>, messages: seq<seq<byte>>)
    decreases |messages|
  {
    if messages == [] then s == []
    else
      var first := Receive(s, []);
      first.Some? && first.value.0 == messages[0] && Arrives(first.value.1, messages[1..])
  }

  lemma {:induction false} ReceiveShrinks(s: seq<byte>, got: seq<byte>)
    ensures Receive(s, got).Some? ==> |Receive(s, got).value.1| < |s|
    decreases |s|
  {
    if |s| >= HEADER_SIZE {
      var total := s[2] as int * 0x100 + s[3] as int;
      if HEADER_SIZE <= total <= |s| && s[1] != 0x01 { ReceiveShrinks(s[total..], got + s[HEADER_SIZE..total]); }
    }
  }

  /** Every message on a byte stream, when it holds whole messages and nothing else. */
  function ReceiveAll(s: seq<byte>): Option<seq<seq<byte>>>
    decreases |s|
  {
    if s == [] then Some([])
    else
      var first := Receive(s, []);
      if first.None? then None
      else
        ReceiveShrinks(s, []);
        var rest := ReceiveAll(first.value.1);
        if rest.None? then None else Some([first.value.0] + rest.value)
  }

  /** A receiver finds exactly the messages that arrive. */
  lemma {:induction false} AllReceived(s: seq<byte>, messages: seq<seq<byte>>)
    requires Arrives(s, messages)
    ensures ReceiveAll(s) == Some(messages)
    decreases |messages|
  {
    if messages != [] {
      assert s != [] by { assert Receive([], []) == None; }
      AllReceived(Receive(s, []).value.1, messages[1..]);
      assert messages == [messages[0]] + messages[1..];
    }
  }
}
