/** The columnar decimal kernel, its fast and its general loop, against the row path
    (src/codec/decimal_codec.cpp:231-547, src/include/codec/scatter_position.hpp:41-74). */
module DecimalScatter {
  import opened Buffers
  import opened Decimal
  import opened Staging
  import opened Unicode

  // ---------------------------------------------------------------- sources and targets

  datatype Physical = Int16 | Int32 | Int64 | Int128Type | UInt64

  /** A DECIMAL(width, scale), or an integer that stands for DECIMAL(p, 0). */
  datatype Source = Source(decimal: bool, width: nat, scale: nat, physical: Physical)

  datatype Target = Target(precision: nat, scale: nat)

  function TypeSize(p: Physical): nat {
    match p
    case Int16 => 2
    case Int32 => 4
    case Int64 => 8
    case UInt64 => 8
    case Int128Type => 16
  }

  /** How DuckDB stores a DECIMAL of a width. */
  function PhysicalOf(width: nat): Physical {
    if width <= 4 then Int16 else if width <= 9 then Int32 else if width <= 18 then Int64 else Int128Type
  }

  predicate SourceOk(src: Source) { src.decimal ==> 1 <= src.width <= 38 && src.physical == PhysicalOf(src.width) }

  predicate InPhysical(p: Physical, v: int) {
    match p
    case Int16 => -0x8000 <= v < 0x8000
    case Int32 => -0x8000_0000 <= v < 0x8000_0000
    case Int64 => -0x8000_0000_0000_0000 <= v < 0x8000_0000_0000_0000
    case UInt64 => 0 <= v < TWO64
    case Int128Type => Int128(v)
  }

  /** A value the source column can hold: a DECIMAL's mantissa has at most `width` digits. */
  predicate Held(src: Source, v: int) { InPhysical(src.physical, v) && (src.decimal ==> Abs(v) < Pow10(src.width)) }

  function SourceScale(src: Source): nat { if src.decimal then src.scale else 0 }

  function Shift(src: Source, col: Target): int { col.scale - SourceScale(src) }

  /** The smallest of the four integers that holds every value of a width. */
  lemma SmallestPhysical(width: nat, p: Physical)
    requires 1 <= width <= 38 && p != UInt64
    ensures TypeSize(PhysicalOf(width)) <= TypeSize(p) <==>
            InPhysical(p, Pow10(width) - 1) && InPhysical(p, 1 - Pow10(width))
  {
    hide Pow10;
    Pow10Values();
    Pow10Add(4, 1);
    Pow10Add(9, 1);
    Pow10Add(18, 1);
    assert Pow10(5) == 100_000 by { PowerOne(); }
    PowerOne();
    Pow10Grows(width, if width <= 4 then 4 else if width <= 9 then 9 else if width <= 18 then 18 else 38);
    if width > 18 { Pow10Grows(19, width); } else if width > 9 { Pow10Grows(10, width); } else if width > 4 { Pow10Grows(5, width); }
  }

  lemma PowerOne()
    ensures Pow10(1) == 10 && Pow10(5) == 100_000
  {
    Pow10Values();
    assert Pow10(5) == 10 * Pow10(4);
  }

  /** The value whose sign and magnitude are written; None when the row path throws. */
  function Accepted(src: Source, col: Target, v: int): Option<int> {
    var value := Encoded(v, Shift(src, col), col.precision);
    if value == Some(-TWO127) then None else value
  }

  /** The row path's bytes: a length prefix and the payload, or the NULL marker. */
  function RowWire(src: Source, col: Target, v: Option<int>): Option<seq<byte>> {
    if v.None? then Some([0x00])
    else
      var value, size := Accepted(src, col, v.value), DecimalByteSize(col.precision);
      if value.None? then None else Some([size as byte] + DecimalBytes(value.value, size))
  }

  // ---------------------------------------------------------------- the row path

  /** Byte `i` of a magnitude, taken from the half of the int128 it lies in. */
  lemma HalfByte(v: nat, i: nat)
    requires v < 2 * TWO127 && i < 16
    ensures var n := if i < 8 then HighBytes(v % TWO64, i) else HighBytes(v / TWO64, i - 8);
            n % 0x100 == Le(v, 16)[i] as int
  {
    hide Le, HighBytes, LowBytes;
    Power256Values();
    LeSplit(v, 8, 8);
    HalvesAre(v);
    var l, h := Le(v % TWO64, 8), Le(v / TWO64, 8);
    if i < 8 {
      LeAt(v % TWO64, 8, i);
      assert (l + h)[i] == l[i];
    } else {
      LeAt(v / TWO64, 8, i - 8);
      assert (l + h)[i] == h[i - 8];
    }
  }

  lemma HalvesAre(v: nat)
    ensures LowBytes(v, 8) == v % TWO64 && HighBytes(v, 8) == v / TWO64
  {
    hide Power256;
    Power256Values();
  }

  /** The payload of one value at `at`: rescale, check, then the bytes one by one; nothing when refused. */
  method ScatterToBcp(out: array<byte>, at: nat, v: int, src: Source, col: Target) returns (ok: bool)
    requires Held(src, v) && at + DecimalByteSize(col.precision) <= out.Length
    modifies out
    ensures ok <==> Accepted(src, col, v).Some?
    ensures out[..] == if ok then Splice(old(out[..]), at, DecimalBytes(Accepted(src, col, v).value, DecimalByteSize(col.precision)))
                       else old(out[..])
  {
    hide DecimalBytes, Splice, Le, HighBytes, RescaleMantissa, FitsPrecision, Pow10;
    var value := RescaleMantissa(v, Shift(src, col));
    if value.None? { return false; }
    if !FitsPrecision(value.value, col.precision) { return false; }
    if value.value == -TWO127 { return false; }
    var size := DecimalByteSize(col.precision);
    ghost var d := out[..];
    var magnitude := Abs(value.value);
    AcceptedFits(v, Shift(src, col));
    var lower, upper := magnitude % TWO64, magnitude / TWO64;
    out[at] := if value.value < 0 then 0x00 else 0x01;
    ghost var w := DecimalBytes(value.value, size);
    SignAt(value.value, size);
    for i := 0 to size - 1
      invariant forall k :: 0 <= k < 1 + i ==> out[at + k] == w[k]
      invariant forall k :: 0 <= k < out.Length && !(at <= k < at + 1 + i) ==> out[k] == d[k]
    {
      HalfByte(magnitude, i);
      LePrefix(magnitude, size - 1, 16);
      ByteAt(value.value, size, i);
      out[at + 1 + i] := ((if i < 8 then HighBytes(lower, i) else HighBytes(upper, i - 8)) % 0x100) as byte;
    }
    SpliceByElement(d, at, w, out[..]);
    ok := true;
  }

  lemma AcceptedFits(v: int, shift: int)
    requires Int128(v) || 0 <= v < TWO64
    ensures RescaleMantissa(v, shift).Some? ==> Int128(RescaleMantissa(v, shift).value)
  {
    hide RescaleMantissa, SameNumber;
    if RescaleMantissa(v, shift).Some? { RescaleKeepsNumber(v, shift); }
  }

  lemma SignAt(value: int, size: nat)
    requires size > 0
    ensures DecimalBytes(value, size)[0] == if value < 0 then 0x00 else 0x01
  {
  }

  lemma ByteAt(value: int, size: nat, i: nat)
    requires i < size - 1
    ensures DecimalBytes(value, size)[1 + i] == Le(Abs(value), size - 1)[i]
  {
  }

  /** The appending form of the row path. */
  method EncodeToBcp(v: int, src: Source, col: Target, buf: seq<byte>) returns (ok: bool, grown: seq<byte>)
    requires Held(src, v)
    ensures ok <==> RowWire(src, col, Some(v)).Some?
    ensures ok ==> grown == buf + RowWire(src, col, Some(v)).value
  {
    hide Accepted, DecimalBytes;
    var size := DecimalByteSize(col.precision);
    var out := new byte[1 + size](_ => 0);
    out[0] := size as byte;
    ok := ScatterToBcp(out, 1, v, src, col);
    grown := buf + out[..];
    if ok {
      ghost var w := DecimalBytes(Accepted(src, col, v).value, size);
      assert out[..] == [size as byte] + w;
    }
  }

  // ---------------------------------------------------------------- the fast value

  /** How many values the intermediate type of a magnitude of so many bytes has. */
  function Modulus(bytes: nat): int {
    if bytes == 4 then 0x1_0000_0000 else if bytes == 8 then TWO64 else 2 * TWO127
  }

  /** Negation in unsigned arithmetic. */
  function NegateMag(v: int, modulus: int): nat
    requires modulus > 0
  {
    (0 - v % modulus) % modulus
  }

  /** The hand-written negation of an int128 by halves: complement, and a carry into the upper one. */
  function NegateHalves(v: int): nat {
    var bits := v % (2 * TWO127);
    var lower, upper := bits % TWO64, bits / TWO64;
    var carry := if lower == 0 then 1 else 0;
    ((TWO64 - 1 - upper + carry) % TWO64) * TWO64 + (0 - lower) % TWO64
  }

  lemma HalvesNegate(v: int)
    ensures NegateHalves(v) == NegateMag(v, 2 * TWO127)
  {
    var bits := v % (2 * TWO127);
    var lower, upper := bits % TWO64, bits / TWO64;
    DivFacts(bits, TWO64);
    if lower > 0 {
      DivUnique(0 - lower, TWO64, -1, TWO64 - lower);
      DivUnique(TWO64 - 1 - upper, TWO64, 0, TWO64 - 1 - upper);
    } else if upper > 0 {
      DivUnique(TWO64 - upper, TWO64, 0, TWO64 - upper);
    }
    if bits > 0 { DivUnique(0 - bits, 2 * TWO127, -1, 2 * TWO127 - bits); }
  }

  /** What the fast loop writes for a value: cast, sign, and one store of `bytes` bytes of the magnitude. */
  function ScatterOne(raw: int, bytes: nat): seq<byte> {
    var v := SignedWrap(raw, Modulus(bytes));
    var magnitude := if v < 0 then NegateMag(v, Modulus(bytes)) else v;
    [if v < 0 then 0x00 else 0x01] + Le(magnitude, bytes)
  }

  /** The columns the fast loop runs for. */
  predicate Fast(src: Source, col: Target) {
    Shift(src, col) == 0 && src.decimal && src.width <= col.precision
    && TypeSize(src.physical) <= DecimalByteSize(col.precision) - 1
  }

  lemma WrapWhole(v: int, modulus: int)
    requires modulus > 0 && modulus % 2 == 0 && -(modulus / 2) <= v < modulus / 2
    ensures SignedWrap(v, modulus) == v && (-(modulus / 2) < v ==> (if v < 0 then NegateMag(v, modulus) else v) == Abs(v))
  {
    if v >= 0 {
      DivUnique(v, modulus, 0, v);
    } else {
      DivUnique(v, modulus, -1, v + modulus);
      DivUnique(0 - (v + modulus), modulus, -1, -v);
    }
  }

  lemma HeldFits(src: Source, v: int, bytes: nat)
    requires Held(src, v) && TypeSize(src.physical) <= bytes && src.physical != UInt64 && (bytes == 4 || bytes == 8 || bytes >= 12)
    ensures -(Modulus(bytes) / 2) <= v < Modulus(bytes) / 2
  {
    hide Pow10;
  }

  /** Skipping the rescale, the range check and the wide arithmetic loses nothing where the fast loop is chosen. */
  lemma FastIsLossless(src: Source, col: Target, v: int)
    requires SourceOk(src) && Held(src, v) && Fast(src, col)
    ensures Accepted(src, col, v) == Some(v)
    ensures ScatterOne(v, DecimalByteSize(col.precision) - 1) == DecimalBytes(v, DecimalByteSize(col.precision))
  {
    hide Pow10, Le, SignedWrap, NegateMag;
    var bytes := DecimalByteSize(col.precision) - 1;
    HeldFits(src, v, bytes);
    Pow10Values();
    Pow10Grows(src.width, 38);
    if col.precision <= 38 { Pow10Grows(src.width, col.precision); }
    BelowHalf(src, v, bytes);
    WrapWhole(v, Modulus(bytes));
  }

  /** A decimal's mantissa is never the minimum of the type the magnitude is built in. */
  lemma BelowHalf(src: Source, v: int, bytes: nat)
    requires SourceOk(src) && Held(src, v) && src.decimal && TypeSize(src.physical) <= bytes
    requires bytes == 4 || bytes == 8 || bytes >= 12
    ensures -(Modulus(bytes) / 2) < v
  {
    hide Pow10;
    Pow10Values();
    var top := if src.width <= 9 then 9 else if src.width <= 18 then 18 else 38;
    Pow10Grows(src.width, top);
  }

  /** The last condition is needed: a DECIMAL(19) column fits decimal(19), whose magnitude is 8 bytes, but its
      values from 2^63 on do not fit the signed type those bytes would be built in, and would arrive negated. */
  lemma WithoutTheSizeTestSignsFlip(src: Source, col: Target, v: int)
    requires SourceOk(src) && src.decimal && src.width == col.precision == 19 && src.scale == col.scale
    requires TWO64 / 2 <= v && Held(src, v)
    ensures !Fast(src, col) && Accepted(src, col, v) == Some(v)
    ensures ScatterOne(v, 8)[0] == 0x00 && DecimalBytes(v, 9)[0] == 0x01
  {
    hide Pow10, Le;
    Pow10Values();
    DivUnique(v, TWO64, 0, v);
  }

  // ---------------------------------------------------------------- the general value

  /** A 128-bit integer as its two halves, the upper one signed. */
  datatype Huge = Huge(lower: nat, upper: int)

  function HugeOf(v: int): Huge { Huge(v % TWO64, v / TWO64) }

  function ValueOf(h: Huge): int { h.upper * TWO64 + h.lower }

  /** An unsigned source is its own lower half; through a signed one, values from 2^63 on would turn negative. */
  function ToHuge(p: Physical, v: int): Huge
    requires InPhysical(p, v)
  {
    if p.UInt64? then Huge(v, 0) else HugeOf(v)
  }

  lemma WideningKeepsValue(p: Physical, v: int)
    requires InPhysical(p, v)
    ensures ValueOf(ToHuge(p, v)) == v
  {
  }

  /** The sixteen bytes of the pair in memory. */
  function Image(h: Huge): seq<byte>
    requires h.upper >= 0
  {
    Le(h.lower, 8) + Le(h.upper, 8)
  }

  /** The copied bytes are the low bytes of the magnitude. */
  lemma ImageIsMagnitude(v: nat, size: nat)
    requires size <= 16
    ensures Image(HugeOf(v))[..size] == Le(v, size)
  {
    hide Le, LowBytes, HighBytes;
    HalvesAre(v);
    LeSplit(v, 8, 8);
    LePrefix(v, size, 16);
  }

  /** One value in the general loop: prefix, widening, rescale, check, sign, and one copy off the magnitude. */
  method ScatterGeneral(dst: array<byte>, at: nat, v: int, src: Source, col: Target) returns (ok: bool)
    requires Held(src, v) && at + 1 + DecimalByteSize(col.precision) <= dst.Length
    modifies dst
    ensures ok <==> RowWire(src, col, Some(v)).Some?
    ensures ok ==> dst[..] == Splice(old(dst[..]), at, RowWire(src, col, Some(v)).value)
    ensures !ok ==> exists w: seq<byte> :: |w| == 1 && dst[..] == Splice(old(dst[..]), at, w)
  {
    var size := DecimalByteSize(col.precision);
    WideningKeepsValue(src.physical, v);
    hide Splice, Le, RescaleMantissa, FitsPrecision, Pow10, ToHuge, ValueOf, HugeOf, Image;
    ghost var d := dst[..];
    var prefix := [size as byte];
    Put(dst, at, prefix);
    var value := RescaleMantissa(ValueOf(ToHuge(src.physical, v)), Shift(src, col));
    if value.None? { return false; }
    if !FitsPrecision(value.value, col.precision) { return false; }
    if value.value == -TWO127 { return false; }
    var sign := [if value.value < 0 then 0x00 else 0x01 as byte];
    Put(dst, at + 1, sign);
    SpliceThen(d, at, prefix, sign);
    var magnitude := HugeOf(Abs(value.value));
    UpperIsNatural(Abs(value.value));
    ImageIsMagnitude(Abs(value.value), size - 1);
    var copied := Image(magnitude)[..size - 1];
    Put(dst, at + 2, copied);
    SpliceThen(d, at, prefix + sign, copied);
    Assoc(prefix, sign, copied);
    ok := true;
  }

  lemma UpperIsNatural(v: nat)
    ensures HugeOf(v).upper >= 0 && |Image(HugeOf(v))| == 16
  {
  }

  // ---------------------------------------------------------------- the column

  predicate ValuesHeld(src: Source, values: seq<Option<int>>) {
    forall r :: 0 <= r < |values| && values[r].Some? ==> Held(src, values[r].value)
  }

  predicate AllAccepted(src: Source, col: Target, values: seq<Option<int>>) {
    forall r :: 0 <= r < |values| ==> RowWire(src, col, values[r]).Some?
  }

  function Wires(src: Source, col: Target, values: seq<Option<int>>): (wires: seq<seq<byte>>)
    requires AllAccepted(src, col, values)
    ensures |wires| == |values|
  {
    seq(|values|, r requires 0 <= r < |values| => RowWire(src, col, values[r]).value)
  }

  function Sizes(col: Target, values: seq<Option<int>>): (sizes: seq<nat>)
    ensures |sizes| == |values|
  {
    seq(|values|, r requires 0 <= r < |values| => RowSize(col, values[r]))
  }

  function RowSize(col: Target, v: Option<int>): nat { if v.None? then 1 else 1 + DecimalByteSize(col.precision) }

  lemma RowWireSize(src: Source, col: Target, v: Option<int>)
    ensures RowWire(src, col, v).Some? ==> |RowWire(src, col, v).value| == RowSize(col, v)
  {
  }

  /** One value, length prefix first, by whichever loop the column runs. */
  method WriteValue(dst: array<byte>, at: nat, v: int, src: Source, col: Target, fast: bool) returns (ok: bool)
    requires SourceOk(src) && Held(src, v) && (fast ==> Fast(src, col))
    requires at + 1 + DecimalByteSize(col.precision) <= dst.Length
    modifies dst
    ensures ok <==> RowWire(src, col, Some(v)).Some?
    ensures ok ==> dst[..] == Splice(old(dst[..]), at, RowWire(src, col, Some(v)).value)
    ensures !ok ==> exists w: seq<byte> :: |w| == 1 && dst[..] == Splice(old(dst[..]), at, w)
  {
    hide Splice, DecimalBytes, Accepted, ScatterOne, Held, SourceOk, Fast;
    if fast {
      FastIsLossless(src, col, v);
      ghost var d := dst[..];
      var size := DecimalByteSize(col.precision);
      var prefix, payload := [size as byte], ScatterOne(v, size - 1);
      Put(dst, at, prefix);
      Put(dst, at + 1, payload);
      SpliceThen(d, at, prefix, payload);
      ok := true;
    } else {
      ok := ScatterGeneral(dst, at, v, src, col);
    }
  }

  /** One row: the NULL marker or the value. */
  method WriteRow(dst: array<byte>, at: nat, v: Option<int>, src: Source, col: Target, fast: bool) returns (ok: bool)
    requires SourceOk(src) && (v.Some? ==> Held(src, v.value)) && (fast ==> Fast(src, col))
    requires at + RowSize(col, v) <= dst.Length
    modifies dst
    ensures ok <==> RowWire(src, col, v).Some?
    ensures ok ==> |RowWire(src, col, v).value| == RowSize(col, v) && dst[..] == Splice(old(dst[..]), at, RowWire(src, col, v).value)
    ensures !ok ==> exists w: seq<byte> :: |w| == 1 <= RowSize(col, v) && dst[..] == Splice(old(dst[..]), at, w)
  {
    hide Splice, RowWire, SourceOk, Fast, Held;
    RowWireSize(src, col, v);
    if v.None? {
      NullWire(src, col);
      Put(dst, at, [0x00]);
      ok := true;
    } else {
      ok := WriteValue(dst, at, v.value, src, col, fast);
    }
  }

  /** A whole column: every row gets the row path's bytes at its place and every cursor moves past them, or some
      value is refused, as the row path would refuse it. */
  method ScatterChunkPos(pos: Position, dst: array<byte>, cursor: array<nat>, begin: nat, rows: nat,
                         fmt: NumberFormat, src: Source, col: Target) returns (ok: bool)
    requires SourceOk(src) && fmt.Covers(begin + rows) && ValuesHeld(src, fmt.Rows(begin, rows))
    requires pos.Covers(cursor.Length, rows)
    requires Apart(pos.Starts(cursor[..], rows), Sizes(col, fmt.Rows(begin, rows)), 0, rows)
    requires Inside(pos.Starts(cursor[..], rows), Sizes(col, fmt.Rows(begin, rows)), dst.Length)
    modifies dst, cursor
    ensures ok <==> AllAccepted(src, col, fmt.Rows(begin, rows))
    ensures ok ==> Scattered(dst[..], old(pos.Starts(cursor[..], rows)), Wires(src, col, fmt.Rows(begin, rows)))
    ensures ok ==> cursor[..] == pos.Advanced(old(cursor[..]), Sizes(col, fmt.Rows(begin, rows)))
    ensures Untouched(dst[..], old(dst[..]), old(pos.Starts(cursor[..], rows)), Sizes(col, fmt.Rows(begin, rows)), rows)
  {
    hide Splice, RowWire, Held, SourceOk, Fast, Apart, Progress, Untouched, Scattered, Position.Advanced, Position.Starts, Position.At;
    var fast := Fast(src, col);
    ghost var c0, d0 := cursor[..], dst[..];
    ghost var values := fmt.Rows(begin, rows);
    ghost var starts, sizes := pos.Starts(c0, rows), Sizes(col, values);
    ghost var wires: seq<seq<byte>> := [];
    ProgressStart(d0, starts, sizes);
    pos.AdvanceNone(c0);
    assert sizes[..0] == [];
    for r := 0 to rows
      invariant |wires| == r && Progress(dst[..], d0, starts, sizes, wires)
      invariant forall q :: 0 <= q < r ==> RowWire(src, col, values[q]) == Some(wires[q])
      invariant cursor[..] == pos.Advanced(c0, sizes[..r])
    {
      pos.AtStart(c0, sizes, r, rows);
      var v, at := fmt.At(begin + r), pos.At(cursor[..], r);
      assert v == values[r] && at == starts[r];
      ghost var d := dst[..];
      ok := WriteRow(dst, at, v, src, col, fast);
      if !ok {
        ghost var junk :| |junk| == 1 <= RowSize(col, v) && dst[..] == Splice(d, at, junk);
        ProgressStops(d, d0, starts, sizes, wires, junk);
        return;
      }
      ghost var w := RowWire(src, col, v).value;
      ProgressStep(d, d0, starts, sizes, wires, w);
      wires := wires + [w];
      pos.AdvanceOne(c0, sizes, r);
      pos.Advance(cursor, r, RowSize(col, v));
    }
    ok := true;
    assert sizes[..rows] == sizes;
    assert wires == Wires(src, col, values);
    ProgressEnds(dst[..], d0, starts, sizes, wires);
  }

  lemma NullWire(src: Source, col: Target)
    ensures RowWire(src, col, None) == Some([0x00])
  {
  }

  /** The strided entry point runs where no row is NULL; rows a full value apart never meet. */
  lemma StridedRowsApart(base: nat, stride: nat, rows: nat, cursor: seq<nat>, col: Target, values: seq<Option<int>>)
    requires |values| == rows && stride >= 1 + DecimalByteSize(col.precision)
    ensures Apart(Strided(base, stride).Starts(cursor, rows), Sizes(col, values), 0, rows)
  {
    var starts, sizes := Strided(base, stride).Starts(cursor, rows), Sizes(col, values);
    forall p | 0 <= p && p + 1 < rows ensures starts[p] + sizes[p] <= starts[p + 1] {
      assert (p + 1) * stride == p * stride + stride;
    }
    PackedRowsApart(starts, sizes, 0, rows);
  }
}
