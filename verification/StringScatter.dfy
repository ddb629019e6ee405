/** Write side of the string family: plan a column, then scatter it at cursors, against the row encoder
    (src/codec/string_codec.cpp:61-69, 157-261, 565-766, 864-898). PLP framing is section 2.2.5.2.3 of [MS-TDS]. */
module StringScatter {
  import opened Buffers
  import opened Unicode
  import opened Utf8Text
  import opened Staging
  import WordScan

  datatype Kind = NVarchar | Utf8Varchar | Binary | Unplanned

  /** What the target column declares; a length of 0xFFFF is the sentinel of a MAX type, not a length. */
  datatype Column = Column(kind: Kind, maxLength: nat)

  const PLP_SENTINEL := 0xFFFF
  const NO_BOUND := 0xFFFF_FFFF

  predicate Plp(col: Column) { col.maxLength == PLP_SENTINEL }

  function Bound(col: Column): nat { if Plp(col) then NO_BOUND else col.maxLength }

  /** A value below 2 GiB keeps every 32-bit length in range; a declared length has 16 bits. */
  predicate Sized(s: seq<byte>) { |s| <= 0x7FFF_FFF0 }

  // ---------------------------------------------------------------- the wire form of one value

  function Utf16Le(us: seq<unit>): (s: seq<byte>)
    ensures |s| == 2 * |us|
    ensures forall k :: 0 <= k < |us| ==> s[2 * k] as int == us[k] as int % 0x100 && s[2 * k + 1] as int == us[k] as int / 0x100
  {
    seq(2 * |us|, i requires 0 <= i < 2 * |us| =>
      if i % 2 == 0 then (us[i / 2] as int % 0x100) as byte else (us[i / 2] as int / 0x100) as byte)
  }

  /** A value the kind can carry: nvarchar needs valid UTF-8. */
  predicate Carried(kind: Kind, s: seq<byte>) { kind == NVarchar ==> Valid8(s) }

  /** Source bytes kept under the column's bound. */
  function Kept(col: Column, s: seq<byte>): (n: nat)
    requires Carried(col.kind, s)
    ensures n <= |s|
  {
    if Plp(col) then |s|
    else if col.kind == NVarchar then ClipUtf16(s, col.maxLength)
    else if col.kind == Utf8Varchar then ClipBytes(s, col.maxLength)
    else if |s| <= col.maxLength then |s| else col.maxLength
  }

  /** The payload: the kept prefix, converted for nvarchar. */
  function PayloadOf(col: Column, s: seq<byte>): seq<byte>
    requires Carried(col.kind, s)
  {
    var kept := s[..Kept(col, s)];
    if col.kind == NVarchar then KeptIsValid(col, s); Utf16Le(ToUtf16(kept)) else kept
  }

  lemma KeptIsValid(col: Column, s: seq<byte>)
    requires col.kind == NVarchar && Valid8(s)
    ensures Valid8(s[..Kept(col, s)])
  {
    assert s[..|s|] == s;
    ClipIsLargest(s, col.maxLength);
  }

  /** The bytes the first `n` bytes of a value take on the wire. */
  function WireLength(kind: Kind, s: seq<byte>, n: nat): nat
    requires n <= |s|
    requires kind == NVarchar ==> Valid8(s[..n])
  {
    if kind == NVarchar then 2 * |ToUtf16(s[..n])| else n
  }

  /** A MAX column keeps every value whole. Any other keeps the longest prefix that fits its bound in bytes: of whole
      characters for text, of bytes for binary. */
  lemma KeptIsLargest(col: Column, s: seq<byte>)
    requires Carried(col.kind, s)
    ensures col.maxLength == 0xFFFF ==> Kept(col, s) == |s|
    ensures col.maxLength != 0xFFFF ==> |PayloadOf(col, s)| <= col.maxLength
    ensures col.maxLength != 0xFFFF && (col.kind == Utf8Varchar ==> Valid8(s)) ==>
              forall n :: Kept(col, s) < n <= |s| && (col.kind == NVarchar || col.kind == Utf8Varchar ==> Valid8(s[..n])) ==>
                WireLength(col.kind, s, n) > col.maxLength
  {
    hide ClipUtf16, ClipBytes, ToUtf16, Valid8, Utf16Le;
    if col.kind == NVarchar {
      ClipIsLargest(s, col.maxLength);
    } else if col.kind == Utf8Varchar {
      ClipBytesFits(s, col.maxLength);
      if Valid8(s) { ClipBytesIsLargest(s, col.maxLength); }
    }
  }

  lemma ClipBytesFits(s: seq<byte>, max: nat)
    ensures ClipBytes(s, max) <= max
  {
    hide Continuation;
  }

  const PLP_HEADER: seq<byte> := [0xFE, 0xFF, 0xFF, 0xFF, 0xFF, 0xFF, 0xFF, 0xFF]

  function Framed(plp: bool, payload: seq<byte>): seq<byte> {
    if !plp then Le(|payload|, 2) + payload
    else if payload == [] then PLP_HEADER + Le(0, 4)
    else PLP_HEADER + Le(|payload|, 4) + payload + Le(0, 4)
  }

  function NullMarker(plp: bool): seq<byte> { if plp then seq(8, _ => 0xFF) else seq(2, _ => 0xFF) }

  function Wire(col: Column, v: Option<seq<byte>>): seq<byte>
    requires v.Some? ==> Carried(col.kind, v.value)
  {
    if v.None? then NullMarker(Plp(col)) else Framed(Plp(col), PayloadOf(col, v.value))
  }

  // ---------------------------------------------------------------- reading the wire form back

  /** What a reader of the stream makes of the bytes at its front: NULL, or a payload; and the rest. A PLP value starts
      with 2^64 - 1 for NULL or 2^64 - 2 for a length not given; its one chunk is closed by an empty one. */
  function ReadFramed(plp: bool, s: seq<byte>): (r: Option<(Option<seq<byte>>, seq<byte>)>) {
    if !plp then
      if |s| < 2 then None
      else var n := FromLe(s[..2]);
           if n == 0xFFFF then Some((None, s[2..]))
           else if |s| < 2 + n then None
           else Some((Some(s[2..2 + n]), s[2 + n..]))
    else if |s| < 8 then None
    else if FromLe(s[..8]) == 0xFFFF_FFFF_FFFF_FFFF then Some((None, s[8..]))
    else if FromLe(s[..8]) != 0xFFFF_FFFF_FFFF_FFFE || |s| < 12 then None
    else var n := FromLe(s[8..12]);
         if n == 0 then Some((Some([]), s[12..]))
         else if |s| < 16 + n || FromLe(s[12 + n..16 + n]) != 0 then None
         else Some((Some(s[12..12 + n]), s[16 + n..]))
  }

  lemma Widths()
    ensures Power256(2) == 0x1_0000 && Power256(4) == 0x1_0000_0000
  {}

  lemma EightBytes(s: seq<byte>)
    requires |s| == 8
    ensures FromLe(s) == s[0] as int + 0x100 * (s[1] as int) + 0x1_0000 * (s[2] as int) + 0x100_0000 * (s[3] as int)
                         + 0x1_0000_0000 * (s[4] as int) + 0x100_0000_0000 * (s[5] as int)
                         + 0x1_0000_0000_0000 * (s[6] as int) + 0x100_0000_0000_0000 * (s[7] as int)
  {
    var a, b := s[..4], s[4..];
    assert s == a + b;
    FromLeConcat(a, b);
    FourBytes(a);
    FourBytes(b);
    Widths();
  }

  lemma FourBytes(s: seq<byte>)
    requires |s| == 4
    ensures FromLe(s) == s[0] as int + 0x100 * (s[1] as int) + 0x1_0000 * (s[2] as int) + 0x100_0000 * (s[3] as int)
  {
    assert s[1..][1..] == s[2..] && s[2..][1..] == s[3..] && s[3..][1..] == [];
    assert FromLe(s[3..]) == s[3] as int;
    assert FromLe(s[2..]) == s[2] as int + 0x100 * FromLe(s[3..]);
    assert FromLe(s[1..]) == s[1] as int + 0x100 * FromLe(s[2..]);
  }

  /** The numbers the two PLP markers and the short one are. */
  lemma MarkersAre()
    ensures |PLP_HEADER| == 8 && FromLe(PLP_HEADER) == 0xFFFF_FFFF_FFFF_FFFE
    ensures |NullMarker(true)| == 8 && FromLe(NullMarker(true)) == 0xFFFF_FFFF_FFFF_FFFF
    ensures |NullMarker(false)| == 2 && FromLe(NullMarker(false)) == 0xFFFF
  {
    EightBytes(PLP_HEADER);
    EightBytes(NullMarker(true));
    var n := NullMarker(false);
    assert n[1..][1..] == [] && FromLe(n[1..]) == 0xFF;
  }

  lemma ReadFramedShort(payload: seq<byte>, rest: seq<byte>)
    requires |payload| < 0xFFFF
    ensures ReadFramed(false, Framed(false, payload) + rest) == Some((Some(payload), rest))
  {
    hide Le, FromLe, Power256;
    var s := Framed(false, payload) + rest;
    Widths();
    LeRoundTrip(|payload|, 2);
    assert s[..2] == Le(|payload|, 2) && s[2..2 + |payload|] == payload && s[2 + |payload|..] == rest;
  }

  lemma ReadFramedPlp(payload: seq<byte>, rest: seq<byte>)
    requires |payload| <= 0xFFFF_FFFF
    ensures ReadFramed(true, Framed(true, payload) + rest) == Some((Some(payload), rest))
  {
    hide Le, FromLe, Power256;
    var s := Framed(true, payload) + rest;
    Widths();
    LeRoundTrip(|payload|, 4);
    LeRoundTrip(0, 4);
    MarkersAre();
    assert s[..8] == PLP_HEADER;
    assert s[8..12] == Le(|payload|, 4);
    if payload == [] {
      assert s[12..] == rest;
    } else {
      assert s[12..12 + |payload|] == payload && s[16 + |payload|..] == rest;
      assert s[12 + |payload|..16 + |payload|] == Le(0, 4);
    }
  }

  lemma ReadNull(plp: bool, rest: seq<byte>)
    ensures ReadFramed(plp, NullMarker(plp) + rest) == Some((None, rest))
  {
    hide NullMarker, FromLe;
    var s := NullMarker(plp) + rest;
    MarkersAre();
    var n := |NullMarker(plp)|;
    assert s[..n] == NullMarker(plp) && s[n..] == rest;
  }

  lemma PayloadSizes(col: Column, s: seq<byte>)
    requires Carried(col.kind, s) && Sized(s)
    ensures |PayloadOf(col, s)| + 16 <= 0xFFFF_FFFF
    ensures !Plp(col) ==> |PayloadOf(col, s)| <= col.maxLength
  {
    hide ClipUtf16, ClipBytes, ToUtf16, Valid8;
    if col.kind == NVarchar {
      KeptIsValid(col, s);
      ClipIsLargest(s, col.maxLength);
      Utf16NoLonger(s[..Kept(col, s)]);
    }
  }

  lemma {:induction false} Utf16NoLonger(s: seq<byte>)
    requires Valid8(s)
    ensures |ToUtf16(s)| <= |s|
  {
    hide *;
    Valid8Step(s);
    if s != [] {
      Utf16NoLonger(s[Front8(s)..]);
      var c := FrontScalar8(s);
      Utf8Shape(c);
      UnitsLength(c);
    }
  }

  /** Reading what was written gives back the value clipped to the column, and the untouched rest. */
  lemma WireReadsBack(col: Column, v: Option<seq<byte>>, rest: seq<byte>)
    requires col.maxLength <= PLP_SENTINEL
    requires v.Some? ==> Carried(col.kind, v.value) && Sized(v.value)
    ensures ReadFramed(Plp(col), Wire(col, v) + rest) ==
            Some((if v.None? then None else Some(PayloadOf(col, v.value)), rest))
  {
    hide ReadFramed, PayloadOf, Framed, NullMarker;
    if v.None? {
      ReadNull(Plp(col), rest);
    } else {
      PayloadSizes(col, v.value);
      if Plp(col) {
        ReadFramedPlp(PayloadOf(col, v.value), rest);
      } else {
        ReadFramedShort(PayloadOf(col, v.value), rest);
      }
    }
  }

  // ---------------------------------------------------------------- ASCII

  predicate Ascii8(s: seq<byte>) { forall k :: 0 <= k < |s| ==> s[k] < 0x80 }

  lemma AsciiFront(s: seq<byte>)
    requires s != [] && s[0] < 0x80
    ensures Front8(s) == 1 && FrontScalar8(s) == s[0] as int
  {
    assert s[..1] == [s[0]];
  }

  /** ASCII is valid UTF-8 and widens unit by unit. */
  lemma {:induction false} AsciiText(s: seq<byte>)
    requires Ascii8(s)
    ensures Valid8(s) && |ToUtf16(s)| == |s|
    ensures forall k :: 0 <= k < |s| ==> ToUtf16(s)[k] as int == s[k] as int
  {
    hide Valid8, ToUtf16, Front8, FrontScalar8;
    Valid8Step(s);
    if s != [] {
      AsciiFront(s);
      AsciiText(s[1..]);
    }
  }

  // ---------------------------------------------------------------- the row encoder

  class WireBuffer {
    var bytes: seq<byte>

    constructor ()
      ensures bytes == []
    {
      bytes := [];
    }
  }

  /** Appends one nvarchar value: measured, clipped to the column, framed (valid UTF-8 only). */
  method EncodeNVarcharFromUtf8(data: seq<byte>, col: Column, buf: WireBuffer)
    requires col.kind == NVarchar && Valid8(data)
    modifies buf
    ensures buf.bytes == old(buf.bytes) + Wire(col, Some(data))
  {
    hide ToUtf16, ClipUtf16, Valid8, Utf16Le, Le;
    var kept, utf16Len := |data|, 2 * |ToUtf16(data)|;
    NVarcharWhole(col, data);
    if !Plp(col) && utf16Len > col.maxLength {
      kept, utf16Len := Utf8PrefixForUtf16Limit(data, col.maxLength);
    }
    assert data[..|data|] == data;
    var payload := Utf16Le(ToUtf16(data[..kept]));
    AppendFramed(Plp(col), payload, utf16Len, buf);
  }

  method AppendFramed(plp: bool, payload: seq<byte>, length: nat, buf: WireBuffer)
    requires length == |payload|
    modifies buf
    ensures buf.bytes == old(buf.bytes) + Framed(plp, payload)
  {
    hide Le;
    if !plp {
      buf.bytes := buf.bytes + (Le(length, 2) + payload);
    } else if length == 0 {
      buf.bytes := buf.bytes + (PLP_HEADER + Le(0, 4));
    } else {
      buf.bytes := buf.bytes + (PLP_HEADER + Le(length, 4) + payload + Le(0, 4));
    }
  }

  method EncodeVarcharUtf8(data: seq<byte>, col: Column, buf: WireBuffer)
    requires col.kind == Utf8Varchar
    modifies buf
    ensures buf.bytes == old(buf.bytes) + Wire(col, Some(data))
  {
    hide Le, ClipBytes;
    var kept := |data|;
    if !Plp(col) && |data| > col.maxLength {
      kept := Utf8PrefixForByteLimit(data, col.maxLength);
    } else if !Plp(col) {
      ClipBytesWhole(data, col.maxLength);
    }
    AppendFramed(Plp(col), data[..kept], kept, buf);
  }

  lemma ClipBytesWhole(s: seq<byte>, max: nat)
    requires |s| <= max
    ensures ClipBytes(s, max) == |s|
  {}

  /** A text that fits is kept whole. */
  lemma NVarcharWhole(col: Column, s: seq<byte>)
    requires col.kind == NVarchar && Valid8(s)
    ensures 2 * |ToUtf16(s)| <= Bound(col) ==> Kept(col, s) == |s|
  {
    hide ToUtf16, ClipUtf16, Valid8;
    ClipIsLargest(s, col.maxLength);
    assert s[..|s|] == s;
  }

  // ---------------------------------------------------------------- the plan

  /** A vector in DuckDB's unified format: row `r` reads slot `sel[r]`. */
  datatype Format = Format(strings: seq<seq<byte>>, sel: seq<nat>, validity: seq<bool>) {
    predicate Covers(end: nat) {
      && |strings| == |validity| && end <= |sel|
      && forall r :: 0 <= r < end ==> sel[r] < |strings| && Sized(strings[sel[r]])
    }

    function At(r: nat): Option<seq<byte>>
      requires |strings| == |validity| && r < |sel| && sel[r] < |strings|
    {
      if validity[sel[r]] then Some(strings[sel[r]]) else None
    }
  }

  function FramedSize(plp: bool, length: nat): nat {
    if !plp then 2 + length else if length == 0 then 12 else 16 + length
  }

  lemma FramedSizeIs(plp: bool, payload: seq<byte>)
    ensures |Framed(plp, payload)| == FramedSize(plp, |payload|)
  {}

  /** Payload length before any clipping. */
  function FullLength(kind: Kind, s: seq<byte>): nat
    requires Carried(kind, s)
  {
    if kind == NVarchar then 2 * |ToUtf16(s)| else |s|
  }

  /** Measured: the lengths of the whole value. */
  ghost predicate Measured(col: Column, v: Option<seq<byte>>, length: nat, wire: nat) {
    if v.None? then length == 0 && wire == |NullMarker(Plp(col))|
    else Carried(col.kind, v.value) && length == FullLength(col.kind, v.value) && wire == FramedSize(Plp(col), length)
  }

  /** Planned: the lengths of the value as it will be written, and how much of the source that takes. */
  ghost predicate PlannedRow(col: Column, v: Option<seq<byte>>, length: nat, wire: nat, source: nat) {
    if v.None? then wire == |Wire(col, v)|
    else Carried(col.kind, v.value) && length == |PayloadOf(col, v.value)| && wire == |Wire(col, v)|
         && source == Kept(col, v.value)
  }

  lemma MeasuredFits(col: Column, v: Option<seq<byte>>, length: nat, wire: nat, source: nat)
    requires Measured(col, v, length, wire) && length <= Bound(col)
    requires v.Some? ==> source == |v.value|
    ensures PlannedRow(col, v, length, wire, source)
  {
    hide ToUtf16, ClipUtf16, Valid8, Utf16Le, Framed, FramedSize, ClipBytes;
    if v.Some? {
      var s := v.value;
      assert s[..|s|] == s;
      if col.kind == NVarchar {
        NVarcharWhole(col, s);
      } else if |s| <= col.maxLength {
        ClipBytesWhole(s, col.maxLength);
      }
      FramedSizeIs(Plp(col), PayloadOf(col, s));
    }
  }

  lemma ClampedRow(col: Column, s: seq<byte>, length: nat, source: nat)
    requires Carried(col.kind, s) && source == Kept(col, s) && length == |PayloadOf(col, s)|
    ensures PlannedRow(col, Some(s), length, FramedSize(Plp(col), length), source)
  {
    FramedSizeIs(Plp(col), PayloadOf(col, s));
  }

  class StringColumnPlan {
    var lengths: seq<nat>
    var wire: seq<nat>
    var srcLen: seq<nat>
    var kind: Kind
    var allAscii: bool
    var truncated: bool
    var plp: bool

    constructor ()
    {
      lengths, wire, srcLen, kind, allAscii, truncated, plp := [], [], [], Unplanned, false, false, false;
    }

    /** Source bytes row `r` converts: its own count only when something in the block was truncated. */
    function SourceBytes(r: nat, v: Option<seq<byte>>): nat
      requires truncated ==> r < |srcLen|
      reads this
    {
      if truncated then srcLen[r] else if v.Some? then |v.value| else 0
    }

    ghost predicate Planned(fmt: Format, begin: nat, rows: nat, col: Column)
      reads this
    {
      && fmt.Covers(begin + rows) && kind == col.kind && plp == Plp(col)
      && |lengths| == |wire| == rows && (truncated ==> |srcLen| == rows)
      && (forall r :: 0 <= r < rows ==>
            PlannedRow(col, fmt.At(begin + r), lengths[r], wire[r], SourceBytes(r, fmt.At(begin + r))))
      && (allAscii <==> kind == NVarchar && AsciiRows(fmt, begin, rows))
    }
  }

  ghost predicate AsciiRows(fmt: Format, begin: nat, rows: nat)
    requires fmt.Covers(begin + rows)
  {
    forall r :: begin <= r < begin + rows && fmt.At(r).Some? ==> Ascii8(fmt.At(r).value)
  }

  /** Re-derive the lengths of a block in which some value exceeded the bound. */
  method ClampToBound(fmt: Format, begin: nat, rows: nat, col: Column, plan: StringColumnPlan)
    requires fmt.Covers(begin + rows) && plan.kind == col.kind && plan.plp == Plp(col) && !Plp(col)
    requires |plan.lengths| == |plan.wire| == rows
    requires forall r :: 0 <= r < rows ==> Measured(col, fmt.At(begin + r), plan.lengths[r], plan.wire[r])
    modifies plan`lengths, plan`wire, plan`srcLen, plan`truncated
    ensures plan.truncated && |plan.lengths| == |plan.wire| == |plan.srcLen| == rows
    ensures forall r :: 0 <= r < rows ==>
              PlannedRow(col, fmt.At(begin + r), plan.lengths[r], plan.wire[r], plan.srcLen[r])
  {
    hide Measured, PlannedRow, Valid8, ToUtf16, ClipUtf16, ClipBytes, PayloadOf, Utf16Le, Framed;
    var bound := Bound(col);
    plan.truncated := true;
    plan.srcLen := seq(rows, _ => 0);
    for r := 0 to rows
      invariant |plan.lengths| == |plan.wire| == |plan.srcLen| == rows && plan.truncated
      invariant plan.kind == col.kind && plan.plp == Plp(col)
      invariant forall q :: r <= q < rows ==> Measured(col, fmt.At(begin + q), plan.lengths[q], plan.wire[q])
      invariant forall q :: 0 <= q < r ==>
                  PlannedRow(col, fmt.At(begin + q), plan.lengths[q], plan.wire[q], plan.srcLen[q])
    {
      var v := fmt.At(begin + r);
      MeasuredMeans(col, v, plan.lengths[r], plan.wire[r]);
      if v.None? {
        plan.srcLen := plan.srcLen[r := 0];
        continue;
      }
      var s, length := v.value, plan.lengths[r];
      var src := |s|;
      if length > bound {
        if plan.kind == NVarchar {
          src, length := Utf8PrefixForUtf16Limit(s, bound);
        } else if plan.kind == Utf8Varchar {
          src := Utf8PrefixForByteLimit(s, bound);
          length := src;
        } else {
          src, length := bound, bound;
        }
        plan.lengths := plan.lengths[r := length];
        PayloadLength(col, s);
        ClampedRow(col, s, length, src);
      } else {
        MeasuredFits(col, v, length, plan.wire[r], src);
        PlannedMeans(col, s, length, plan.wire[r], src);
      }
      plan.srcLen := plan.srcLen[r := src];
      plan.wire := plan.wire[r := FramedSize(plan.plp, length)];
    }
  }

  lemma MeasuredMeans(col: Column, v: Option<seq<byte>>, length: nat, wire: nat)
    requires Measured(col, v, length, wire)
    ensures v.None? ==> PlannedRow(col, v, length, wire, 0)
    ensures v.Some? ==> Carried(col.kind, v.value) && length == FullLength(col.kind, v.value)
  {}

  lemma PlannedMeans(col: Column, s: seq<byte>, length: nat, wire: nat, source: nat)
    requires PlannedRow(col, Some(s), length, wire, source)
    ensures wire == FramedSize(Plp(col), length)
  {
    FramedSizeIs(Plp(col), PayloadOf(col, s));
  }

  /** How long the clipped payload is, per kind. */
  lemma PayloadLength(col: Column, s: seq<byte>)
    requires Carried(col.kind, s)
    ensures col.kind == NVarchar ==> Valid8(s[..Kept(col, s)]) && |PayloadOf(col, s)| == 2 * |ToUtf16(s[..Kept(col, s)])|
    ensures col.kind != NVarchar ==> |PayloadOf(col, s)| == Kept(col, s)
  {
    if col.kind == NVarchar {
      KeptIsValid(col, s);
    }
  }

  /** One value's length: known without a conversion call while the column is still all ASCII. */
  method MeasureValue(kind: Kind, s: seq<byte>, ascii: bool) returns (ok: bool, length: nat, stillAscii: bool)
    requires Sized(s)
    ensures ok <==> Carried(kind, s)
    ensures ok ==> length == FullLength(kind, s) && length + 16 <= NO_BOUND
    ensures ok && kind == NVarchar ==> (stillAscii <==> ascii && Ascii8(s))
  {
    hide Valid8, ToUtf16;
    ok, length, stillAscii := true, |s|, ascii;
    if kind == NVarchar {
      var run := false;
      if ascii {
        run := WordScan.IsAsciiRun(s);
      }
      if run {
        AsciiText(s);
        length := |s| * 2;
      } else {
        stillAscii := false;
        ok := Valid8(s);
        if ok {
          Utf16NoLonger(s);
          length := 2 * |ToUtf16(s)|;
        }
      }
    }
  }

  /** The first pass: every value measured, and whether any exceeds the bound or leaves ASCII. */
  method MeasureColumn(fmt: Format, begin: nat, rows: nat, col: Column, plan: StringColumnPlan)
    returns (ok: bool, over: bool, ascii: bool)
    requires fmt.Covers(begin + rows)
    modifies plan`lengths, plan`wire
    ensures ok <==> forall r :: begin <= r < begin + rows && fmt.At(r).Some? ==> Carried(col.kind, fmt.At(r).value)
    ensures ok ==> |plan.lengths| == |plan.wire| == rows
    ensures ok ==> forall q :: 0 <= q < rows ==> Measured(col, fmt.At(begin + q), plan.lengths[q], plan.wire[q])
    ensures ok && !over ==> forall q :: 0 <= q < rows ==> plan.lengths[q] <= Bound(col)
    ensures ok && over ==> !Plp(col)
    ensures ok && col.kind == NVarchar ==> (ascii <==> AsciiRows(fmt, begin, rows))
  {
    hide Measured, Carried, Ascii8, FullLength, NullMarker;
    ok, over, ascii := true, false, true;
    plan.lengths, plan.wire := seq(rows, _ => 0), seq(rows, _ => 0);
    for r := 0 to rows
      invariant |plan.lengths| == |plan.wire| == rows
      invariant forall q :: 0 <= q < r ==> Measured(col, fmt.At(begin + q), plan.lengths[q], plan.wire[q])
      invariant forall q :: begin <= q < begin + r && fmt.At(q).Some? ==> Carried(col.kind, fmt.At(q).value)
      invariant !over ==> forall q :: 0 <= q < r ==> plan.lengths[q] <= Bound(col)
      invariant over ==> !Plp(col)
      invariant col.kind == NVarchar ==> (ascii <==> AsciiRows(fmt, begin, r))
    {
      var v := fmt.At(begin + r);
      if v.None? {
        plan.lengths, plan.wire := plan.lengths[r := 0], plan.wire[r := if Plp(col) then 8 else 2];
        MeasuredNull(col);
        continue;
      }
      var length;
      ok, length, ascii := MeasureValue(col.kind, v.value, ascii);
      if !ok {
        return;
      }
      MeasuredValue(col, v.value);
      plan.lengths := plan.lengths[r := length];
      over := over || length > Bound(col);
      plan.wire := plan.wire[r := FramedSize(Plp(col), length)];
    }
  }

  /** Measures the column; refuses exactly the kinds and the texts it cannot plan. */
  method PlanColumn(fmt: Format, begin: nat, rows: nat, col: Column, plan: StringColumnPlan) returns (ok: bool)
    requires fmt.Covers(begin + rows)
    modifies plan
    ensures ok <==> col.kind != Unplanned
                    && forall r :: begin <= r < begin + rows && fmt.At(r).Some? ==> Carried(col.kind, fmt.At(r).value)
    ensures ok ==> plan.Planned(fmt, begin, rows, col)
  {
    hide Measured, PlannedRow, Carried, AsciiRows;
    if col.kind == Unplanned {
      return false;
    }
    plan.kind, plan.plp, plan.srcLen, plan.truncated := col.kind, Plp(col), [], false;
    var over, ascii;
    ok, over, ascii := MeasureColumn(fmt, begin, rows, col, plan);
    if !ok {
      return;
    }
    plan.allAscii := ascii && plan.kind == NVarchar;
    if over {
      ClampToBound(fmt, begin, rows, col, plan);
    } else {
      forall r | 0 <= r < rows
        ensures PlannedRow(col, fmt.At(begin + r), plan.lengths[r], plan.wire[r], plan.SourceBytes(r, fmt.At(begin + r)))
      {
        MeasuredFits(col, fmt.At(begin + r), plan.lengths[r], plan.wire[r], plan.SourceBytes(r, fmt.At(begin + r)));
      }
    }
  }

  lemma MeasuredNull(col: Column)
    ensures Measured(col, None, 0, if Plp(col) then 8 else 2)
  {}

  lemma MeasuredValue(col: Column, s: seq<byte>)
    requires Carried(col.kind, s)
    ensures Measured(col, Some(s), FullLength(col.kind, s), FramedSize(Plp(col), FullLength(col.kind, s)))
  {}

  // ---------------------------------------------------------------- the scatter

  /** The text with a zero after every byte: what UTF-16LE is for ASCII. */
  function Widened(s: seq<byte>): (w: seq<byte>)
    ensures |w| == 2 * |s|
  {
    seq(2 * |s|, i requires 0 <= i < 2 * |s| => if i % 2 == 0 then s[i / 2] else 0)
  }

  lemma WidenedIsConverted(s: seq<byte>)
    requires Ascii8(s)
    ensures Valid8(s) && Utf16Le(ToUtf16(s)) == Widened(s)
  {
    AsciiText(s);
    hide ToUtf16, Valid8, Utf16Le, Widened;
    var us := ToUtf16(s);
    forall i | 0 <= i < 2 * |s| ensures Utf16Le(us)[i] == Widened(s)[i] { WidenedAt(us, s, i); }
  }

  lemma WidenedAt(us: seq<unit>, s: seq<byte>, i: nat)
    requires i < 2 * |s| && |us| == |s| && us[i / 2] as int == s[i / 2] as int
    ensures Utf16Le(us)[i] == Widened(s)[i]
  {
    hide Utf16Le;
    var k := i / 2;
    if i % 2 == 0 {
      assert Utf16Le(us)[2 * k] as int == us[k] as int % 0x100;
    } else {
      assert Utf16Le(us)[2 * k + 1] as int == us[k] as int / 0x100;
    }
  }

  method WidenAscii(s: seq<byte>, dst: array<byte>, at: nat)
    requires at + 2 * |s| <= dst.Length
    modifies dst
    ensures dst[..] == Splice(old(dst[..]), at, Widened(s))
  {
    hide Splice;
    ghost var w, d := Widened(s), dst[..];
    for i := 0 to |s|
      invariant forall k :: 0 <= k < 2 * i ==> dst[at + k] == w[k]
      invariant forall k :: 0 <= k < dst.Length && !(at <= k < at + 2 * i) ==> dst[k] == d[k]
    {
      dst[at + 2 * i] := s[i];
      dst[at + 2 * i + 1] := 0;
    }
    SpliceByElement(d, at, w, dst[..]);
  }

  /** The payload bytes, by whichever of the three encoders the column resolved to. */
  method PutPayload(col: Column, s: seq<byte>, length: nat, source: nat, widen: bool, dst: array<byte>, at: nat)
    requires Carried(col.kind, s) && source == Kept(col, s) && length == |PayloadOf(col, s)|
    requires widen ==> col.kind == NVarchar && Ascii8(s)
    requires at + length <= dst.Length
    modifies dst
    ensures dst[..] == Splice(old(dst[..]), at, PayloadOf(col, s))
  {
    hide Splice, ToUtf16, Valid8, Utf16Le, Widened, ClipUtf16, ClipBytes, Kept;
    PayloadLength(col, s);
    if widen {
      var kept := s[..source];
      assert Ascii8(kept);
      AsciiText(kept);
      WidenedIsConverted(kept);
      WidenAscii(s[..length / 2], dst, at);
    } else if col.kind == NVarchar {
      KeptIsValid(col, s);
      Put(dst, at, Utf16Le(ToUtf16(s[..source])));
    } else {
      Put(dst, at, s[..length]);
    }
  }

  /** One framed value at `at`: prefix, or header, length and terminator before the payload between them. */
  method ScatterValue(col: Column, s: seq<byte>, length: nat, source: nat, widen: bool, dst: array<byte>, at: nat)
    requires Carried(col.kind, s) && source == Kept(col, s) && length == |PayloadOf(col, s)|
    requires widen ==> col.kind == NVarchar && Ascii8(s)
    requires at + FramedSize(Plp(col), length) <= dst.Length
    modifies dst
    ensures dst[..] == Splice(old(dst[..]), at, Framed(Plp(col), PayloadOf(col, s)))
  {
    hide Splice, PayloadOf, Carried, Kept, Ascii8, Le;
    ghost var d, payload := dst[..], PayloadOf(col, s);
    if !Plp(col) {
      Put(dst, at, Le(length, 2));
      PutPayload(col, s, length, source, widen, dst, at + 2);
      SpliceThen(d, at, Le(length, 2), payload);
    } else if length == 0 {
      Put(dst, at, PLP_HEADER);
      Put(dst, at + 8, Le(0, 4));
      SpliceThen(d, at, PLP_HEADER, Le(0, 4));
    } else {
      Put(dst, at, PLP_HEADER);
      Put(dst, at + 8, Le(length, 4));
      SpliceThen(d, at, PLP_HEADER, Le(length, 4));
      ghost var front := PLP_HEADER + Le(length, 4);
      Put(dst, at + 12 + length, Le(0, 4));
      PutPayload(col, s, length, source, widen, dst, at + 12);
      SpliceThen(Splice(d, at, front), at + 12, payload, Le(0, 4));
      SpliceThen(d, at, front, payload + Le(0, 4));
      Assoc(front, payload, Le(0, 4));
    }
  }

  /** Row `q` of the buffer holds the row encoder's bytes. */
  ghost predicate RowWritten(d: seq<byte>, start: nat, col: Column, v: Option<seq<byte>>)
    requires v.Some? ==> Carried(col.kind, v.value)
  {
    start + |Wire(col, v)| <= |d| && d[start..start + |Wire(col, v)|] == Wire(col, v)
  }

  lemma RowSurvives(d: seq<byte>, at: nat, w: seq<byte>, start: nat, col: Column, v: Option<seq<byte>>)
    requires v.Some? ==> Carried(col.kind, v.value)
    requires at + |w| <= |d| && RowWritten(d, start, col, v)
    requires start + |Wire(col, v)| <= at || at + |w| <= start
    ensures RowWritten(Splice(d, at, w), start, col, v)
  {
    hide Wire, Splice;
    SpliceRead(d, at, w);
    var n := |Wire(col, v)|;
    assert Splice(d, at, w)[start..start + n] == d[start..start + n];
  }

  lemma PlannedWire(col: Column, v: Option<seq<byte>>, length: nat, wire: nat, source: nat)
    requires PlannedRow(col, v, length, wire, source)
    ensures v.Some? ==> Carried(col.kind, v.value) && source == Kept(col, v.value)
                        && length == |PayloadOf(col, v.value)| && wire == FramedSize(Plp(col), length)
    ensures wire == |Wire(col, v)|
  {
    if v.Some? {
      FramedSizeIs(Plp(col), PayloadOf(col, v.value));
    }
  }

  /** One row at its cursor: NULL marker or framed value. */
  method ScatterRow(dst: array<byte>, at: nat, v: Option<seq<byte>>, col: Column, length: nat, wire: nat, source: nat,
                    widen: bool)
    requires PlannedRow(col, v, length, wire, source) && at + wire <= dst.Length
    requires widen && v.Some? ==> col.kind == NVarchar && Ascii8(v.value)
    modifies dst
    ensures v.Some? ==> Carried(col.kind, v.value)
    ensures wire == |Wire(col, v)| && dst[..] == Splice(old(dst[..]), at, Wire(col, v))
  {
    hide Splice, PayloadOf, Carried, Kept, Ascii8, Framed, PlannedRow;
    PlannedWire(col, v, length, wire, source);
    if v.None? {
      Put(dst, at, NullMarker(Plp(col)));
    } else {
      ScatterValue(col, v.value, length, source, widen, dst, at);
    }
  }

  /** Every row of the block gets exactly the row encoder's bytes at its cursor, each cursor moves past
      them, and no byte outside the rows changes. */
  method ScatterVarBlock(dst: array<byte>, cursor: array<nat>, r0: nat, rend: nat, fmt: Format, col: Column,
                         plan: StringColumnPlan)
    requires r0 <= rend <= cursor.Length && rend <= |plan.lengths| && plan.Planned(fmt, 0, |plan.lengths|, col)
    requires Apart(cursor[..], plan.wire, r0, rend)
    requires forall r :: r0 <= r < rend ==> cursor[r] + plan.wire[r] <= dst.Length
    modifies dst, cursor
    ensures forall r :: r0 <= r < rend ==>
              && (fmt.At(r).Some? ==> Carried(col.kind, fmt.At(r).value))
              && RowWritten(dst[..], old(cursor[r]), col, fmt.At(r))
              && cursor[r] == old(cursor[r]) + plan.wire[r]
    ensures forall r :: 0 <= r < cursor.Length && !(r0 <= r < rend) ==> cursor[r] == old(cursor[r])
    ensures forall i :: 0 <= i < dst.Length && OutsideRows(old(cursor[..]), plan.wire, r0, rend, i)
                        ==> dst[i] == old(dst[i])
  {
    hide Splice, PlannedRow, Carried, Ascii8, RowWritten, Wire;
    ghost var c0, d0 := cursor[..], dst[..];
    for r := r0 to rend
      invariant forall q :: r0 <= q < r ==>
                  && (fmt.At(q).Some? ==> Carried(col.kind, fmt.At(q).value))
                  && plan.wire[q] == |Wire(col, fmt.At(q))|
                  && RowWritten(dst[..], c0[q], col, fmt.At(q))
                  && cursor[q] == c0[q] + plan.wire[q]
      invariant forall q :: 0 <= q < cursor.Length && !(r0 <= q < r) ==> cursor[q] == c0[q]
      invariant forall i :: 0 <= i < dst.Length && OutsideRows(c0, plan.wire, r0, r, i) ==> dst[i] == d0[i]
    {
      var v, at := fmt.At(r), cursor[r];
      var widen := plan.allAscii;
      ghost var d := dst[..];
      assert PlannedRow(col, fmt.At(0 + r), plan.lengths[r], plan.wire[r], plan.SourceBytes(r, v));
      ScatterRow(dst, at, v, col, plan.lengths[r], plan.wire[r], plan.SourceBytes(r, v), widen);
      ghost var w := Wire(col, v);
      RowPlaced(d, at, col, v);
      SpliceRead(d, at, w);
      forall q | r0 <= q < r ensures RowWritten(dst[..], c0[q], col, fmt.At(q)) {
        RowSurvives(d, at, w, c0[q], col, fmt.At(q));
      }
      cursor[r] := cursor[r] + plan.wire[r];
    }
  }

  lemma RowPlaced(d: seq<byte>, at: nat, col: Column, v: Option<seq<byte>>)
    requires v.Some? ==> Carried(col.kind, v.value)
    requires at + |Wire(col, v)| <= |d|
    ensures RowWritten(Splice(d, at, Wire(col, v)), at, col, v)
  {
    hide Splice, Wire;
    SpliceRead(d, at, Wire(col, v));
  }
}
