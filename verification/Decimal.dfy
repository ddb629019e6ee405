/** DECIMAL values onto the wire and back: the point moved to the target's scale, the range check, and the sign and
    magnitude bytes (section 2.2.5.5.1.6 of [MS-TDS]; src/codec/decimal_codec.cpp:60-253,
    src/tds/encoding/decimal_encoding.cpp:33-62). */
module Decimal {
  import opened Buffers
  import opened Staging
  import opened Unicode

  // ---------------------------------------------------------------- 128-bit integers and powers of ten

  const TWO64 := 0x1_0000_0000_0000_0000
  const TWO127 := 0x8000_0000_0000_0000_0000_0000_0000_0000

  predicate Int128(x: int) { -TWO127 <= x < TWO127 }

  function Abs(x: int): nat { if x < 0 then -x else x }

  function Pow10(n: nat): (p: int)
    ensures p >= 1 && (n > 0 ==> p % 2 == 0)
  {
    if n == 0 then 1 else 10 * Pow10(n - 1)
  }

  lemma {:induction false} Pow10Add(a: nat, b: nat)
    ensures Pow10(a + b) == Pow10(a) * Pow10(b)
  {
    if a > 0 {
      Pow10Add(a - 1, b);
      MulAssoc(10, Pow10(a - 1), Pow10(b));
    }
  }


  lemma Pow10Values()
    ensures Pow10(9) == 1_000_000_000 && Pow10(19) == 10_000_000_000_000_000_000
    ensures Pow10(28) == 10_000_000_000_000_000_000_000_000_000
    ensures Pow10(38) == 100_000_000_000_000_000_000_000_000_000_000_000_000
    ensures Pow10(4) == 10_000 && Pow10(18) == 1_000_000_000_000_000_000
    ensures Pow10(39) == 1_000_000_000_000_000_000_000_000_000_000_000_000_000
  {
    assert Pow10(1) == 10 && Pow10(2) == 100 && Pow10(4) == 10_000;
    assert Pow10(5) == 10 * Pow10(4);
    Pow10Add(4, 5);
    Pow10Add(9, 9);
    Pow10Add(18, 1);
    Pow10Add(19, 9);
    Pow10Add(19, 19);
    Pow10Add(38, 1);
  }

  lemma {:induction false} Pow10Grows(a: nat, b: nat)
    requires a <= b
    ensures Pow10(a) <= Pow10(b)
  {
    if a < b { Pow10Grows(a, b - 1); }
  }

  // ---------------------------------------------------------------- moving the point

  /** C++ division and remainder: the quotient is cut towards zero. */
  function TruncDiv(a: int, d: int): int
    requires d > 0
  {
    if a >= 0 then a / d else -(-a / d)
  }

  function TruncRem(a: int, d: int): int
    requires d > 0
  {
    a - TruncDiv(a, d) * d
  }

  /** The mantissa at the target's scale, `shift` digits finer than the source's; None when it is refused. */
  function RescaleMantissa(mantissa: int, shift: int): Option<int> {
    if shift == 0 then Some(mantissa)
    else if shift > 0 then
      if shift > 38 then None
      else
        var limit := Pow10(38 - shift);
        if mantissa > limit || -limit > mantissa then None else Some(mantissa * Pow10(shift))
    else if -shift > 38 then Some(0)
    else
      var divisor := Pow10(-shift);
      var quotient := TruncDiv(mantissa, divisor);
      var remainder := TruncRem(mantissa, divisor);
      var absRemainder := if 0 > remainder then -remainder else remainder;
      if !(divisor / 2 > absRemainder) then Some(if 0 > mantissa then quotient - 1 else quotient + 1)
      else Some(quotient)
  }

  predicate FitsPrecision(value: int, precision: nat) {
    precision == 0 || precision > 38 || -(Pow10(precision) - 1) <= value <= Pow10(precision) - 1
  }

  /** What goes on the wire for a mantissa: rescaled, then checked against the column; None when refused. */
  function Encoded(mantissa: int, shift: int, precision: nat): Option<int> {
    var value := RescaleMantissa(mantissa, shift);
    if value.Some? && FitsPrecision(value.value, precision) then value else None
  }

  /** `r` is `m / d` rounded to the nearest integer, halves away from zero. */
  predicate Rounded(m: int, d: int, r: int)
    requires d > 0
  {
    2 * Abs(m - r * d) < d || (2 * Abs(m - r * d) == d && if m >= 0 then r * d > m else r * d < m)
  }

  /** `r` means at the target's scale what `m` means `shift` digits coarser. */
  predicate SameNumber(m: int, shift: int, r: int) {
    if shift >= 0 then r == m * Pow10(shift) else Rounded(m, Pow10(-shift), r)
  }

  lemma MulNegates(q: int, d: int)
    ensures (-q) * d == -(q * d)
  {
  }

  lemma TruncFacts(m: int, d: int)
    requires d > 0
    ensures var q, r := TruncDiv(m, d), TruncRem(m, d);
            m == q * d + r && Abs(r) < d && (m >= 0 ==> r >= 0 && q >= 0) && (m <= 0 ==> r <= 0 && q <= 0) && Abs(q) <= Abs(m)
  {
    var a := Abs(m);
    DivFacts(a, d);
    MulNegates(a / d, d);
    var q, p, rest := a / d, (a / d) * d, a % d;
    assert 0 <= rest < d && a == p + rest;
  }

  lemma NearestBelow(m: int, d: int, q: int, r: int)
    requires d > 0 && m == q * d + r && 2 * Abs(r) < d
    ensures Rounded(m, d, q)
  {
    assert m - q * d == r;
  }

  lemma NearestAway(m: int, d: int, q: int, r: int, one: int)
    requires d > 0 && m == q * d + r && Abs(r) < d && 2 * Abs(r) >= d
    requires one == (if m < 0 then -1 else 1) && (m >= 0 ==> r >= 0) && (m < 0 ==> r <= 0)
    ensures Rounded(m, d, q + one)
  {
    assert (q + one) * d == q * d + one * d;
    assert m - (q + one) * d == r - one * d;
  }

  /** The half that rounds is the exact half: powers of ten above one are even. */
  lemma RescaleRounds(m: int, down: nat)
    requires 0 < down <= 38
    ensures var r := RescaleMantissa(m, 0 - down); r.Some? && Rounded(m, Pow10(down), r.value)
  {
    var d := Pow10(down);
    var q, r := TruncDiv(m, d), TruncRem(m, d);
    TruncFacts(m, d);
    assert d == 2 * (d / 2);
    hide TruncDiv, TruncRem, Pow10, Rounded;
    if !(d / 2 > Abs(r)) {
      NearestAway(m, d, q, r, if m < 0 then -1 else 1);
    } else {
      NearestBelow(m, d, q, r);
    }
  }

  lemma RoundedUnique(m: int, d: int, r: int, s: int)
    requires d > 0 && Rounded(m, d, r) && Rounded(m, d, s)
    ensures r == s
  {
    if r < s { RoundedOrder(m, d, r, s); }
    if s < r { RoundedOrder(m, d, s, r); }
  }

  lemma RoundedOrder(m: int, d: int, r: int, s: int)
    requires d > 0 && Rounded(m, d, r) && r < s
    ensures !Rounded(m, d, s)
  {
    var u, v := r * d, s * d;
    assert (s - r) * d == v - u;
    MulAtLeast(s - r, d);
  }

  /** A source so much finer than the column rounds to nothing. */
  lemma FarBelow(m: int, down: nat)
    requires Int128(m) && down > 38
    ensures Rounded(m, Pow10(down), 0)
  {
    hide Pow10;
    Pow10Values();
    Pow10Grows(39, down);
    assert 0 * Pow10(down) == 0;
  }

  lemma MulOrder(m: int, limit: int, p: int)
    requires p > 0
    ensures m > limit ==> m * p >= limit * p + p
    ensures m < -limit ==> m * p <= -(limit * p) - p
    ensures -limit <= m <= limit ==> -(limit * p) <= m * p <= limit * p
  {
    assert (m - limit) * p == m * p - limit * p;
    assert (-limit - m) * p == -(limit * p) - m * p;
    if m > limit { MulAtLeast(m - limit, p); }
    if m < -limit { MulAtLeast(-limit - m, p); }
    if -limit <= m <= limit {
      MulAtLeast(m + limit, p);
      assert (m + limit) * p == m * p + limit * p;
      MulAtLeast(limit - m, p);
      assert (limit - m) * p == limit * p - m * p;
    }
  }

  /** Widening the scale is exact where it is accepted, and refused only beyond every column's range. */
  lemma RescaleWidens(m: int, shift: nat)
    requires 0 < shift <= 38
    ensures var r := RescaleMantissa(m, shift);
            if r.Some? then r.value == m * Pow10(shift) && Abs(r.value) <= Pow10(38) else Abs(m * Pow10(shift)) > Pow10(38)
  {
    hide Pow10;
    Pow10Add(38 - shift, shift);
    MulOrder(m, Pow10(38 - shift), Pow10(shift));
  }

  /** The rescaled mantissa is the same number at the target's scale, and every step stays within int128. */
  lemma RescaleKeepsNumber(m: int, shift: int)
    requires Int128(m) && RescaleMantissa(m, shift).Some?
    ensures SameNumber(m, shift, RescaleMantissa(m, shift).value) && Int128(RescaleMantissa(m, shift).value)
  {
    hide Pow10, Rounded, TruncDiv, TruncRem;
    Pow10Values();
    if shift == 0 {
      assert m * Pow10(0) == m by { PowZero(); }
    } else if shift > 0 {
      RescaleWidens(m, shift);
    } else if -shift > 38 {
      FarBelow(m, -shift);
    } else {
      RescaleRounds(m, -shift);
      NarrowedFits(m, -shift);
    }
  }

  lemma PowZero()
    ensures Pow10(0) == 1
  {
  }

  lemma NarrowedFits(m: int, down: nat)
    requires Int128(m) && 0 < down <= 38
    ensures Int128(RescaleMantissa(m, 0 - down).value)
  {
    var d := Pow10(down);
    TruncFacts(m, d);
    PowAtLeastTen(down);
    DivideShrinks(m, d);
  }

  lemma PowAtLeastTen(n: nat)
    requires n > 0
    ensures Pow10(n) >= 10
  {
  }

  lemma DivideShrinks(m: int, d: int)
    requires d >= 10
    ensures Abs(TruncDiv(m, d)) * 10 <= Abs(m)
  {
    var a := Abs(m);
    DivFacts(a, d);
    var q := a / d;
    MulAtLeast(q, d - 10 + 1);
    assert q * d == q * 10 + q * (d - 10);
    MulAtLeast(q, d);
    assert q * (d - 10) >= 0;
  }

  /** For a precision of 1 to 38 and scales at most 38 apart upwards, a mantissa is accepted exactly when the number
      it stands for, at the target's scale, has at most that many digits; and that number is what is written. */
  lemma AcceptedExactly(m: int, shift: int, precision: nat, r: int)
    requires Int128(m) && 1 <= precision <= 38 && shift <= 38 && SameNumber(m, shift, r)
    ensures Encoded(m, shift, precision) == if Abs(r) < Pow10(precision) then Some(r) else None
  {
    hide Pow10, Rounded, TruncDiv, TruncRem, RescaleMantissa;
    Pow10Grows(precision, 38);
    if shift >= 0 {
      PowZero();
      if shift > 0 { RescaleWidens(m, shift); }
      RescaleZero(m);
      assert shift == 0 ==> m * Pow10(shift) == m;
    } else {
      NarrowingNeverRefuses(m, shift);
      RescaleKeepsNumber(m, shift);
      RoundedUnique(m, Pow10(-shift), r, RescaleMantissa(m, shift).value);
    }
  }

  lemma RescaleZero(m: int)
    ensures RescaleMantissa(m, 0) == Some(m)
  {
  }

  lemma NarrowingNeverRefuses(m: int, shift: int)
    requires shift < 0
    ensures RescaleMantissa(m, shift).Some?
  {
  }

  // ---------------------------------------------------------------- the bytes

  function DecimalByteSize(precision: nat): (n: nat)
    ensures n == 5 || n == 9 || n == 13 || n == 17
  {
    if precision <= 9 then 5 else if precision <= 19 then 9 else if precision <= 28 then 13 else 17
  }

  /** Sign byte and little-endian magnitude. */
  function DecimalBytes(value: int, size: nat): (s: seq<byte>)
    requires size > 0
    ensures |s| == size
  {
    [if value < 0 then 0x00 else 0x01] + Le(Abs(value), size - 1)
  }

  /** A sign byte, one for zero and above and zero below, and the magnitude behind it, lowest byte first. */
  lemma PayloadIs(value: int, size: nat)
    requires size > 1 && Abs(value) < Power256(size - 1)
    ensures var s := DecimalBytes(value, size);
            |s| == size && (s[0] == 1 <==> value >= 0) && (s[0] == 0 <==> value < 0)
            && FromLe(s[1..]) == if value < 0 then -value else value
  {
    LeRoundTrip(Abs(value), size - 1);
    assert DecimalBytes(value, size)[1..] == Le(Abs(value), size - 1);
    hide Le, FromLe, Power256;
  }

  /** The announced byte count holds every magnitude of the precision. */
  lemma MagnitudeFits(value: int, precision: nat)
    requires 1 <= precision <= 38 && Abs(value) < Pow10(precision)
    ensures Abs(value) < Power256(DecimalByteSize(precision) - 1) && Abs(value) < TWO127
  {
    hide Pow10, Power256;
    Pow10Values();
    Power256Values();
    var top := if precision <= 9 then 9 else if precision <= 19 then 19 else if precision <= 28 then 28 else 38;
    Pow10Grows(precision, top);
    Pow10Grows(precision, 38);
  }

  /** And it is the smallest of the four sizes that does: the largest magnitude does not fit a smaller one. */
  lemma SmallestSize(precision: nat, size: nat)
    requires 1 <= precision <= 38 && size in {5, 9, 13, 17}
    ensures DecimalByteSize(precision) in {5, 9, 13, 17}
    ensures DecimalByteSize(precision) <= size <==> Pow10(precision) - 1 < Power256(size - 1)
  {
    hide Pow10, Power256;
    Pow10Values();
    Power256Values();
    MagnitudeFits(Pow10(precision) - 1, precision);
    Power256Grows(DecimalByteSize(precision) - 1, if size < DecimalByteSize(precision) then DecimalByteSize(precision) - 1 else size - 1);
    JustTooLarge();
    if precision > 28 { Pow10Grows(29, precision); } else if precision > 19 { Pow10Grows(20, precision); } else if precision > 9 { Pow10Grows(10, precision); }
  }

  /** The first powers that no longer fit four, eight and twelve bytes. */
  lemma JustTooLarge()
    ensures Pow10(10) > Power256(4) && Pow10(20) > Power256(8) && Pow10(29) > Power256(12)
  {
    Pow10Values();
    Power256Values();
    Pow10Add(9, 1);
    Pow10Add(19, 1);
    Pow10Add(28, 1);
  }

  lemma Power256Values()
    ensures Power256(4) == 0x1_0000_0000 && Power256(8) == TWO64 && Power256(12) == 0x1_0000_0000_0000_0000_0000_0000
    ensures Power256(16) == 2 * TWO127
  {
    assert Power256(4) == 0x1_0000_0000;
    Power256Add(4, 4);
    Power256Add(8, 4);
    Power256Add(8, 8);
  }

  function SignedWrap(x: int, modulus: int): int
    requires modulus > 0
  {
    var u := x % modulus;
    if u >= modulus / 2 then u - modulus else u
  }

  /** Two loads into the halves of an int128, negated for a zero sign byte; None where the negation overflows. */
  function ConvertDecimal(data: seq<byte>): Option<int>
    requires |data| <= 17
  {
    if |data| == 0 then Some(0)
    else
      var low := if |data| - 1 < 8 then |data| - 1 else 8;
      var lower := FromLe(data[1..1 + low]);
      var upper := if |data| - 1 > 8 then FromLe(data[9..]) else 0;
      var magnitude := SignedWrap(upper, TWO64) * TWO64 + lower;
      if data[0] != 0 then Some(magnitude) else if magnitude == -TWO127 then None else Some(-magnitude)
  }

  /** The value as DuckDB stores it: the low bits, as wide as the precision needs. */
  function Stored(value: int, precision: nat): int {
    var lower := value % TWO64;
    if precision <= 4 then SignedWrap(lower, 0x1_0000)
    else if precision <= 9 then SignedWrap(lower, 0x1_0000_0000)
    else if precision <= 18 then SignedWrap(lower, TWO64)
    else value
  }

  function DecodeFromTds(data: seq<byte>, precision: nat): Option<int>
    requires |data| <= 17
  {
    var value := ConvertDecimal(data);
    if value.None? then None else Some(Stored(value.value, precision))
  }

  lemma StoredWhole(value: int, precision: nat)
    requires 1 <= precision <= 38 && Abs(value) < Pow10(precision)
    ensures Stored(value, precision) == value
  {
    hide Pow10;
    Pow10Values();
    if precision <= 4 {
      Pow10Grows(precision, 4);
      WrapOfLow(value, 0x1_0000, 0x1_0000_0000_0000);
    } else if precision <= 9 {
      Pow10Grows(precision, 9);
      WrapOfLow(value, 0x1_0000_0000, 0x1_0000_0000);
    } else if precision <= 18 {
      Pow10Grows(precision, 18);
      WrapOfLow(value, TWO64, 1);
    }
  }

  /** Keeping the low bits first changes nothing. */
  lemma WrapOfLow(value: int, modulus: int, times: int)
    requires modulus > 0 && times > 0 && modulus * times == TWO64 && modulus % 2 == 0
    requires -(modulus / 2) <= value < modulus / 2
    ensures SignedWrap(value % TWO64, modulus) == value
  {
    var u := value % TWO64;
    MulAtLeast(times, modulus);
    if value >= 0 {
      DivUnique(value, TWO64, 0, value);
      DivUnique(value, modulus, 0, value);
    } else {
      DivUnique(value, TWO64, -1, value + TWO64);
      assert (times - 1) * modulus == times * modulus - modulus;
      DivUnique(u, modulus, times - 1, value + modulus);
    }
  }

  lemma PayloadConverts(value: int, size: nat)
    requires 1 < size <= 17 && Abs(value) < Power256(size - 1) && Abs(value) < TWO127
    ensures ConvertDecimal(DecimalBytes(value, size)) == Some(value)
  {
    hide Le, FromLe, Power256;
    var data, mag := DecimalBytes(value, size), Abs(value);
    var low := if size - 1 < 8 then size - 1 else 8;
    LeRoundTrip(mag, size - 1);
    Power256Values();
    var bytes := data[1..];
    assert bytes == Le(mag, size - 1);
    assert data[1..1 + low] + data[1 + low..] == bytes;
    FromLeConcat(data[1..1 + low], data[1 + low..]);
    LeBounded(data[1..1 + low]);
    if size - 1 > 8 {
      assert mag == FromLe(data[1..9]) + TWO64 * FromLe(data[9..]);
      assert FromLe(data[9..]) < 0x8000_0000_0000_0000;
    } else {
      assert data[1 + low..] == [];
      assert data[1..1 + low] == bytes;
      assert mag < TWO64 by { Power256Grows(size - 1, 8); }
    }
  }

  /** Decoding the bytes written for an accepted value returns it, at the storage width of its precision. */
  lemma DecimalRoundTrip(value: int, precision: nat)
    requires 1 <= precision <= 38 && Abs(value) < Pow10(precision)
    ensures DecodeFromTds(DecimalBytes(value, DecimalByteSize(precision)), precision) == Some(value)
  {
    hide ConvertDecimal, DecimalBytes, Stored, Pow10, Power256;
    MagnitudeFits(value, precision);
    PayloadConverts(value, DecimalByteSize(precision));
    StoredWhole(value, precision);
  }
}
