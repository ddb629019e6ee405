/** Timestamps onto the wire and back: days and ticks of a day at the column's scale
    (section 2.2.5.5.1.8 of [MS-TDS]; src/codec/datetime_codec.cpp:165-242, 638-694). */
module Datetime {
  import opened Buffers
  import opened Decimal
  import opened Staging
  import opened Unicode

  const SECONDS_PER_DAY := 86400
  const EPOCH := 719162
  const MAX64 := 0x7FFF_FFFF_FFFF_FFFF

  predicate Int64(x: int) { -MAX64 - 1 <= x <= MAX64 }

  datatype Unit = Seconds | Millis | Micros | Nanos {
    /** Decimal digits of a second the unit counts in. */
    function Digits(): nat {
      match this
      case Seconds => 0
      case Millis => 3
      case Micros => 6
      case Nanos => 9
    }
  }

  function TicksPerSecond(unit: Unit): int { Pow10(unit.Digits()) }

  function PerDay(digits: nat): int { SECONDS_PER_DAY * Pow10(digits) }

  lemma Pow10Small()
    ensures Pow10(0) == 1 && Pow10(1) == 10 && Pow10(2) == 100 && Pow10(3) == 1000 && Pow10(4) == 10_000
    ensures Pow10(5) == 100_000 && Pow10(6) == 1_000_000 && Pow10(7) == 10_000_000 && Pow10(8) == 100_000_000
    ensures Pow10(9) == 1_000_000_000
  {
    assert Pow10(1) == 10 * Pow10(0) && Pow10(2) == 10 * Pow10(1) && Pow10(3) == 10 * Pow10(2);
    assert Pow10(4) == 10 * Pow10(3) && Pow10(5) == 10 * Pow10(4) && Pow10(6) == 10 * Pow10(5);
    assert Pow10(7) == 10 * Pow10(6) && Pow10(8) == 10 * Pow10(7) && Pow10(9) == 10 * Pow10(8);
  }

  // ---------------------------------------------------------------- encoding

  /** The day of a tick count, and what is left of it within the day. */
  datatype Split = Split(days: int, sub: int)

  function SplitDays(raw: int, perDay: int): Split
    requires perDay > 0
  {
    var days := if raw >= 0 then raw / perDay else TruncDiv(raw - perDay + 1, perDay);
    Split(days, if raw >= 0 then raw % perDay else raw - days * perDay)
  }

  /** Days are floored, before the epoch too. */
  lemma SplitFloors(raw: int, perDay: int)
    requires perDay > 0
    ensures var s := SplitDays(raw, perDay); raw == s.days * perDay + s.sub && 0 <= s.sub < perDay
  {
    if raw >= 0 {
      DivFacts(raw, perDay);
    } else {
      TruncFacts(raw - perDay + 1, perDay);
    }
  }

  datatype Wire = Wire(time: int, date: int)

  /** The time and date fields of a tick count; the date is an unsigned 32-bit number. */
  function Components(raw: int, unit: Unit, scale: nat): Wire {
    var s := SplitDays(raw, PerDay(unit.Digits()));
    var date := (s.days + EPOCH) % 0x1_0000_0000;
    if Pow10(scale) >= TicksPerSecond(unit) then Wire(s.sub * (Pow10(scale) / TicksPerSecond(unit)), date)
    else
      var divisor := TicksPerSecond(unit) / Pow10(scale);
      var scaled := (s.sub + divisor / 2) / divisor;
      if scaled >= PerDay(scale) then Wire(0, (date + 1) % 0x1_0000_0000) else Wire(scaled, date)
  }

  /** The tick lies on a day the three date bytes can hold, and so does the day after it. */
  predicate OnTheCalendar(raw: int, unit: Unit) {
    0 <= SplitDays(raw, PerDay(unit.Digits())).days + EPOCH < 0xFF_FFFF
  }

  /** The tick count at the target's scale: exact, or rounded to the nearest tick, halves up. */
  function Rescaled(raw: int, unit: Unit, scale: nat): int {
    if scale >= unit.Digits() then raw * Pow10(scale - unit.Digits())
    else var d := Pow10(unit.Digits() - scale); (raw + d / 2) / d
  }

  /** Ticks since the epoch that the fields stand for. */
  function ValueOf(w: Wire, scale: nat): int { (w.date - EPOCH) * PerDay(scale) + w.time }

  /** The two scales as powers of ten: their quotient is exact. */
  lemma ScaleQuotient(fine: nat, coarse: nat)
    requires coarse <= fine
    ensures Pow10(fine) == Pow10(fine - coarse) * Pow10(coarse) && Pow10(fine) / Pow10(coarse) == Pow10(fine - coarse)
    ensures PerDay(fine) == PerDay(coarse) * Pow10(fine - coarse)
  {
    hide Pow10;
    Pow10Add(fine - coarse, coarse);
    DivUnique(Pow10(fine), Pow10(coarse), Pow10(fine - coarse), 0);
    var k, c := Pow10(fine - coarse), Pow10(coarse);
    assert SECONDS_PER_DAY * (k * c) == (SECONDS_PER_DAY * c) * k;
  }

  lemma Pow10Compare(a: nat, b: nat)
    ensures Pow10(a) >= Pow10(b) <==> a >= b
  {
    hide Pow10;
    if a >= b {
      Pow10Grows(b, a);
    } else {
      Pow10Grows(a + 1, b);
      assert Pow10(a + 1) == 10 * Pow10(a) by { Pow10Next(a); }
    }
  }

  lemma Pow10Next(a: nat)
    ensures Pow10(a + 1) == 10 * Pow10(a)
  {
  }

  lemma UpscaleExact(days: int, sub: int, day: int, k: int)
    requires 0 <= sub < day && k > 0
    ensures days * (day * k) + sub * k == (days * day + sub) * k && 0 <= sub * k < day * k
  {
    assert (days * day + sub) * k == (days * day) * k + sub * k;
    assert days * (day * k) == (days * day) * k;
    MulAtLeast(day - sub, k);
    assert (day - sub) * k == day * k - sub * k;
    MulOrderSimple(sub, k);
  }

  lemma MulOrderSimple(x: nat, k: int)
    requires k > 0
    ensures x * k >= 0
  {
  }

  /** Rounding within the day is rounding of the whole count. */
  lemma DownscaleExact(days: int, sub: int, per: int, day: int, d: int)
    requires per == day * d && 0 <= sub < per && d > 0 && day > 0
    ensures var q := (sub + d / 2) / d;
            0 <= q <= day && (days * per + sub + d / 2) / d == days * day + q
  {
    var h := d / 2;
    DivFacts(sub + h, d);
    var q, r := (sub + h) / d, (sub + h) % d;
    var p := q * d;
    assert (days * day + q) * d == days * per + p by {
      assert (days * day + q) * d == (days * day) * d + q * d;
      MulAssoc(days, day, d);
    }
    DivUnique(days * per + sub + h, d, days * day + q, r);
    assert (q - day) * d == p - day * d;
    if q > day { MulAtLeast(q - day, d); }
  }

  lemma ComponentsUp(raw: int, unit: Unit, scale: nat)
    requires scale >= unit.Digits() && OnTheCalendar(raw, unit)
    ensures var s := SplitDays(raw, PerDay(unit.Digits()));
            Components(raw, unit, scale) == Wire(s.sub * Pow10(scale - unit.Digits()), s.days + EPOCH)
  {
    hide Pow10, SplitDays, PerDay;
    Pow10Compare(scale, unit.Digits());
    ScaleQuotient(scale, unit.Digits());
  }

  lemma ComponentsDown(raw: int, unit: Unit, scale: nat)
    requires scale < unit.Digits() && OnTheCalendar(raw, unit)
    ensures var s, d := SplitDays(raw, PerDay(unit.Digits())), Pow10(unit.Digits() - scale);
            var q := (s.sub + d / 2) / d;
            Components(raw, unit, scale) == if q >= PerDay(scale) then Wire(0, s.days + EPOCH + 1) else Wire(q, s.days + EPOCH)
  {
    hide Pow10, SplitDays, PerDay;
    Pow10Compare(scale, unit.Digits());
    ScaleQuotient(unit.Digits(), scale);
  }

  lemma RescaledUp(raw: int, unit: Unit, scale: nat, s: Split)
    requires scale >= unit.Digits() && raw == s.days * PerDay(unit.Digits()) + s.sub
    ensures var k, day := Pow10(scale - unit.Digits()), PerDay(unit.Digits());
            Rescaled(raw, unit, scale) == (s.days * day + s.sub) * k
  {
    hide Pow10, PerDay;
  }

  lemma RescaledDown(raw: int, unit: Unit, scale: nat, s: Split, per: int, d: int)
    requires scale < unit.Digits() && d == Pow10(unit.Digits() - scale)
    requires raw == s.days * per + s.sub
    ensures Rescaled(raw, unit, scale) == (s.days * per + s.sub + d / 2) / d
  {
    hide Pow10;
  }

  lemma ExactUp(raw: int, unit: Unit, scale: nat)
    requires OnTheCalendar(raw, unit) && scale >= unit.Digits()
    ensures var w := Components(raw, unit, scale);
            0 <= w.time < PerDay(scale) && 0 <= w.date < 0x100_0000 && ValueOf(w, scale) == Rescaled(raw, unit, scale)
  {
    var e := unit.Digits();
    var s := SplitDays(raw, PerDay(e));
    SplitFloors(raw, PerDay(e));
    ComponentsUp(raw, unit, scale);
    ScaleQuotient(scale, e);
    hide *;
    RescaledUp(raw, unit, scale, s);
    CalendarDay(raw, unit, s);
    UpscaleExact(s.days, s.sub, PerDay(e), Pow10(scale - e));
    ValueIs(Components(raw, unit, scale), scale, s.days);
  }

  lemma ValueIs(w: Wire, scale: nat, days: int)
    requires w.date == days + EPOCH
    ensures ValueOf(w, scale) == days * PerDay(scale) + w.time
  {
  }

  lemma CalendarDay(raw: int, unit: Unit, s: Split)
    requires OnTheCalendar(raw, unit) && s == SplitDays(raw, PerDay(unit.Digits()))
    ensures 0 <= s.days + EPOCH < 0xFF_FFFF
  {
  }

  lemma ExactDown(raw: int, unit: Unit, scale: nat)
    requires OnTheCalendar(raw, unit) && scale < unit.Digits()
    ensures var w := Components(raw, unit, scale);
            0 <= w.time < PerDay(scale) && 0 <= w.date < 0x100_0000 && ValueOf(w, scale) == Rescaled(raw, unit, scale)
  {
    hide *;
    var e := unit.Digits();
    DayIsLong(e);
    var s, d, day := SplitDays(raw, PerDay(e)), Pow10(e - scale), PerDay(scale);
    SplitFloors(raw, PerDay(e));
    ComponentsDown(raw, unit, scale);
    ScaleQuotient(e, scale);
    DayIsLong(scale);
    RescaledDown(raw, unit, scale, s, PerDay(e), d);
    CalendarDay(raw, unit, s);
    DownscaleExact(s.days, s.sub, PerDay(e), day, d);
    Carried(Components(raw, unit, scale), scale, s.days, (s.sub + d / 2) / d);
  }

  lemma Carried(w: Wire, scale: nat, days: int, q: int)
    requires 0 <= days + EPOCH < 0xFF_FFFF && 0 <= q <= PerDay(scale)
    requires w == if q >= PerDay(scale) then Wire(0, days + EPOCH + 1) else Wire(q, days + EPOCH)
    ensures 0 <= w.time < PerDay(scale) && 0 <= w.date < 0x100_0000 && ValueOf(w, scale) == days * PerDay(scale) + q
  {
    DayIsLong(scale);
    NextDay(days, PerDay(scale));
    hide PerDay;
  }

  /** The fields are in range and stand for the rescaled tick count, a carry into the next day included. */
  lemma ComponentsAreExact(raw: int, unit: Unit, scale: nat)
    requires OnTheCalendar(raw, unit)
    ensures var w := Components(raw, unit, scale);
            0 <= w.time < PerDay(scale) && 0 <= w.date < 0x100_0000 && ValueOf(w, scale) == Rescaled(raw, unit, scale)
  {
    if scale >= unit.Digits() { ExactUp(raw, unit, scale); } else { ExactDown(raw, unit, scale); }
  }

  lemma DayIsLong(scale: nat)
    ensures PerDay(scale) > 0
  {
  }

  lemma NextDay(days: int, day: int)
    ensures (days + 1) * day == days * day + day
  {
  }

  /** A later instant never gets earlier fields. */
  lemma EncodingIsMonotone(a: int, b: int, unit: Unit, scale: nat)
    requires a <= b && OnTheCalendar(a, unit) && OnTheCalendar(b, unit)
    ensures var v, w := Components(a, unit, scale), Components(b, unit, scale);
            v.date < w.date || (v.date == w.date && v.time <= w.time)
  {
    ComponentsAreExact(a, unit, scale);
    ComponentsAreExact(b, unit, scale);
    var v, w := Components(a, unit, scale), Components(b, unit, scale);
    hide Components, OnTheCalendar, Pow10, PerDay, Rescaled;
    DayIsLong(scale);
    RescaledMonotone(a, b, unit, scale);
    LexicalOrder(v.date - EPOCH, v.time, w.date - EPOCH, w.time, PerDay(scale));
  }

  lemma LexicalOrder(a: int, s: int, b: int, t: int, p: int)
    requires 0 <= s < p && 0 <= t < p && a * p + s <= b * p + t
    ensures a < b || (a == b && s <= t)
  {
    if a > b {
      assert (a - b) * p == a * p - b * p;
      MulAtLeast(a - b, p);
    }
  }

  lemma RescaledMonotone(a: int, b: int, unit: Unit, scale: nat)
    requires a <= b
    ensures Rescaled(a, unit, scale) <= Rescaled(b, unit, scale)
  {
    hide Pow10;
    if scale >= unit.Digits() {
      var k := Pow10(scale - unit.Digits());
      MulOrderSimple(b - a, k);
      assert (b - a) * k == b * k - a * k;
    } else {
      var d := Pow10(unit.Digits() - scale);
      FloorMonotone(a + d / 2, b + d / 2, d);
    }
  }

  lemma FloorMonotone(a: int, b: int, d: int)
    requires a <= b && d > 0
    ensures a / d <= b / d
  {
    var p, q := a / d, b / d;
    assert a == p * d + a % d && b == q * d + b % d;
    assert (p - q) * d == p * d - q * d;
    if p > q { MulAtLeast(p - q, d); }
  }

  // ---------------------------------------------------------------- the one overflow

  /** What flooring a negative tick count computes on the way: the subtraction first, then the addition. */
  predicate FloorFits(raw: int, perDay: int) { raw < 0 ==> Int64(raw - perDay) && Int64(raw - perDay + 1) }

  /** The lowest count whose floor stays in int64, and the one below it: there the sum is still a number of the type,
      and only the subtraction before it is not. */
  lemma FloorBoundary(unit: Unit)
    ensures var perDay := PerDay(unit.Digits()); var lowest := -MAX64 - 1 + perDay;
            lowest < 0 && FloorFits(lowest, perDay) && !FloorFits(lowest - 1, perDay)
            && Int64(lowest - 1) && Int64(lowest - 1 - perDay + 1)
  {
    Pow10Small();
  }

  /** For every unit and scale the only step that can leave int64 is the subtraction that floors, and it does so for
      exactly the lowest day's worth of counts the type has. */
  lemma OnlyTheFloorOverflows(raw: int, unit: Unit, scale: nat)
    requires Int64(raw) && scale <= 7
    ensures var perDay := PerDay(unit.Digits()); var s := SplitDays(raw, perDay);
            (FloorFits(raw, perDay) <==> raw >= -MAX64 - 1 + perDay)
            && (FloorFits(raw, perDay) ==> Int64(s.days * perDay) && Int64(s.days + EPOCH))
            && Int64(s.sub)
            && (scale >= unit.Digits() ==> Int64(s.sub * Pow10(scale - unit.Digits())))
            && (scale < unit.Digits() ==> Int64(s.sub + Pow10(unit.Digits() - scale) / 2))
            && Int64(PerDay(scale))
  {
    var perDay := PerDay(unit.Digits());
    var s := SplitDays(raw, perDay);
    SplitFloors(raw, perDay);
    Pow10Small();
    hide Pow10, SplitDays;
    FewDays(raw, s, perDay);
    if scale >= unit.Digits() { UpscaleFits(s, unit, scale); }
  }

  lemma UpscaleFits(s: Split, unit: Unit, scale: nat)
    requires unit.Digits() <= scale <= 7 && 0 <= s.sub < PerDay(unit.Digits())
    ensures Int64(s.sub * Pow10(scale - unit.Digits()))
  {
    hide Pow10;
    Pow10Small();
    ScaleQuotient(scale, unit.Digits());
    UpscaleExact(s.days, s.sub, PerDay(unit.Digits()), Pow10(scale - unit.Digits()));
  }

  lemma FewDays(raw: int, s: Split, perDay: int)
    requires Int64(raw) && perDay >= 86400 && raw == s.days * perDay + s.sub && 0 <= s.sub < perDay
    ensures -110_000_000_000_000 <= s.days <= 110_000_000_000_000
  {
    MulSign(s.days - 110_000_000_000_000, perDay);
    MulSign(-110_000_000_000_000 - s.days, perDay);
    assert (s.days - 110_000_000_000_000) * perDay == s.days * perDay - 110_000_000_000_000 * perDay;
    assert (-110_000_000_000_000 - s.days) * perDay == -110_000_000_000_000 * perDay - s.days * perDay;
  }

  lemma MulSign(x: int, d: int)
    requires d > 0
    ensures (x >= 0 ==> x * d >= x) && (x > 0 ==> x * d >= d) && (x <= 0 ==> x * d <= x)
  {
    if x >= 0 {
      MulAtLeast(x, d);
    } else {
      MulAtLeast(-x, d);
      MulNegates(x, d);
    }
  }

  // ---------------------------------------------------------------- the bytes

  function TimeByteSize(scale: nat): nat { if scale <= 2 then 3 else if scale <= 4 then 4 else 5 }

  /** The payload of a datetime2: time of day, then three bytes of date. */
  function Datetime2Bytes(w: Wire, scale: nat): (s: seq<byte>)
    requires 0 <= w.time && 0 <= w.date
    ensures |s| == TimeByteSize(scale) + 3
  {
    Le(w.time, TimeByteSize(scale)) + Le(w.date, 3)
  }

  lemma TimeFits(time: int, scale: nat)
    requires scale <= 7 && 0 <= time < PerDay(scale)
    ensures time < Power256(TimeByteSize(scale))
  {
    hide Pow10, Power256;
    Pow10Small();
    TimeBytes();
    Pow10Grows(scale, if scale <= 2 then 2 else if scale <= 4 then 4 else 7);
  }

  /** The bytes of a time are the smallest of the three sizes that holds every tick of the day. */
  lemma SmallestTimeSize(scale: nat, size: nat)
    requires scale <= 7 && size in {3, 4, 5}
    ensures TimeByteSize(scale) in {3, 4, 5}
    ensures TimeByteSize(scale) <= size <==> 86400 * Pow10(scale) - 1 < Power256(size)
  {
    hide Pow10, Power256;
    Pow10Small();
    TimeBytes();
    Pow10Grows(scale, if scale <= 2 then 2 else if scale <= 4 then 4 else 7);
    if scale > 4 { Pow10Grows(5, scale); } else if scale > 2 { Pow10Grows(3, scale); }
  }

  lemma TimeBytes()
    ensures Power256(3) == 0x100_0000 && Power256(4) == 0x1_0000_0000 && Power256(5) == 0x100_0000_0000
  {
    assert Power256(1) == 0x100 && Power256(2) == 0x1_0000;
    assert Power256(3) == 0x100 * Power256(2) && Power256(4) == 0x100 * Power256(3) && Power256(5) == 0x100 * Power256(4);
  }

  // ---------------------------------------------------------------- decoding

  /** The instant some wire fields denote, in a unit: finer wires are cut, not rounded. */
  function Denoted(time: int, date: int, scale: nat, unit: Unit): int {
    var e := unit.Digits();
    (date - EPOCH) * PerDay(e) + if e >= scale then time * Pow10(e - scale) else time / Pow10(scale - e)
  }

  /** Whether the overflow guards let the value through. */
  predicate Accepts(time: int, date: int, scale: nat, unit: Unit) {
    date - EPOCH >= TruncDiv(-MAX64 - 1, PerDay(unit.Digits())) && Denoted(time, date, scale, unit) <= MAX64
  }

  method ReadLe(data: seq<byte>, from: nat, n: nat) returns (v: nat)
    requires from + n <= |data|
    ensures v == FromLe(data[from..from + n])
  {
    v := 0;
    ghost var s := data[from..from + n];
    assert s[..0] == [];
    for i := 0 to n
      invariant v == FromLe(s[..i])
    {
      FromLeConcat(s[..i], [s[i]]);
      assert s[..i + 1] == s[..i] + [s[i]];
      OneByte(s[i]);
      v := v + Power256(i) * (data[from + i] as nat);
    }
    assert s[..n] == s;
  }

  lemma OneByte(b: byte)
    ensures FromLe([b]) == b as nat
  {
    assert [b][1..] == [];
    assert FromLe([]) == 0;
  }

  /** The time field in the target's unit. */
  function SubDay(time: int, scale: nat, unit: Unit): int {
    var e := unit.Digits();
    if e >= scale then time * Pow10(e - scale) else time / Pow10(scale - e)
  }

  lemma SubDayUp(time: int, scale: nat, unit: Unit)
    requires unit.Digits() >= scale
    ensures Pow10(scale) > 0 && SubDay(time, scale, unit) == time * (TicksPerSecond(unit) / Pow10(scale))
  {
    SubDayStep(time, scale, unit);
    ScaleQuotient(unit.Digits(), scale);
    hide *;
  }

  lemma SubDayDown(time: int, scale: nat, unit: Unit)
    requires unit.Digits() < scale
    ensures TicksPerSecond(unit) > 0 && Pow10(scale) / TicksPerSecond(unit) > 0
    ensures SubDay(time, scale, unit) == time / (Pow10(scale) / TicksPerSecond(unit))
  {
    SubDayStep(time, scale, unit);
    ScaleQuotient(scale, unit.Digits());
    hide *;
  }

  lemma SubDayStep(time: int, scale: nat, unit: Unit)
    ensures var e := unit.Digits();
            SubDay(time, scale, unit) == (if e >= scale then time * Pow10(e - scale) else time / Pow10(scale - e))
            && TicksPerSecond(unit) == Pow10(e)
  {
  }

  /** Five bytes of 100 ns ticks, or fewer bytes of coarser ticks, stay far inside int64. */
  lemma SubDayFits(time: nat, scale: nat, unit: Unit)
    requires scale <= 7 && time < Power256(TimeByteSize(scale))
    ensures 0 <= SubDay(time, scale, unit) < 0x40_0000_0000_0000
  {
    hide Pow10, Power256;
    TimeBytes();
    Pow10Small();
    if unit.Digits() < scale { DivFacts(time, Pow10(scale - unit.Digits())); }
  }

  lemma DenotedIs(time: int, date: int, scale: nat, unit: Unit)
    ensures Denoted(time, date, scale, unit) == (date - EPOCH) * PerDay(unit.Digits()) + SubDay(time, scale, unit)
  {
  }

  /** Any bytes at all: what is accepted is the exact instant, with nothing outside int64 on the way; and only the
      guards refuse. */
  method Datetime2WireToNativeUnit(data: seq<byte>, scale: nat, unit: Unit) returns (ok: bool, native: int)
    requires scale <= 7 && |data| == TimeByteSize(scale) + 3
    ensures var n := TimeByteSize(scale); var time, date := FromLe(data[..n]), FromLe(data[n..]);
            (ok <==> Accepts(time, date, scale, unit)) && (ok ==> native == Denoted(time, date, scale, unit) && Int64(native))
  {
    hide Pow10, FromLe, Power256, SubDay, Denoted, PerDay, TruncDiv;
    var n := TimeByteSize(scale);
    var time := ReadLe(data, 0, n);
    var date := ReadLe(data, n, 3);
    assert data[0..n] == data[..n] && data[n..n + 3] == data[n..];
    LeBounded(data[..n]);
    Pow10Compare(unit.Digits(), scale);
    SubDayFits(time, scale, unit);
    DenotedIs(time, date, scale, unit);
    var unixDays := date - EPOCH;
    var sub;
    if TicksPerSecond(unit) >= Pow10(scale) {
      SubDayUp(time, scale, unit);
      sub := time * (TicksPerSecond(unit) / Pow10(scale));
    } else {
      SubDayDown(time, scale, unit);
      sub := time / (Pow10(scale) / TicksPerSecond(unit));
    }
    var perDay := SECONDS_PER_DAY * TicksPerSecond(unit);
    PerDayIs(unit.Digits());
    GuardsExact(unixDays, perDay);
    if unixDays > MAX64 / perDay || unixDays < TruncDiv(-MAX64 - 1, perDay) { return false, 0; }
    var daysTicks := unixDays * perDay;
    assert Int64(sub) && Int64(daysTicks) && Int64(MAX64 - sub);
    if daysTicks > MAX64 - sub { return false, 0; }
    ok, native := true, daysTicks + sub;
  }

  lemma PerDayIs(digits: nat)
    ensures PerDay(digits) == SECONDS_PER_DAY * Pow10(digits) > 0
  {
  }

  /** A floored bound on the factor is an exact bound on the product. */
  lemma FactorBound(x: int, hi: int, d: int, max: int)
    requires d > 0 && hi * d <= max < hi * d + d
    ensures x > hi <==> x * d > max
  {
    MulSign(x - hi, d);
    assert (x - hi) * d == x * d - hi * d;
  }

  /** Days past the upper guard lie past int64; days at or above the lower one do not lie before it. */
  lemma GuardsExact(days: int, perDay: int)
    requires perDay > 0
    ensures days > MAX64 / perDay <==> days * perDay > MAX64
    ensures days < TruncDiv(-MAX64 - 1, perDay) <==> days * perDay < -MAX64 - 1
  {
    var hi, lo := MAX64 / perDay, TruncDiv(-MAX64 - 1, perDay);
    DivFacts(MAX64, perDay);
    TruncFacts(-MAX64 - 1, perDay);
    hide TruncDiv, TruncRem;
    FactorBound(days, hi, perDay, MAX64);
    MulNegates(days, perDay);
    MulNegates(lo, perDay);
    FactorBound(-days, -lo, perDay, MAX64 + 1);
  }

  /** Seconds, milliseconds and microseconds are never refused. */
  lemma CoarseUnitsAlwaysAccept(time: int, date: int, scale: nat, unit: Unit)
    requires scale <= 7 && unit != Nanos && 0 <= time < Power256(TimeByteSize(scale)) && 0 <= date < 0x100_0000
    ensures Accepts(time, date, scale, unit) && Int64(Denoted(time, date, scale, unit))
  {
    hide Pow10, Power256;
    Pow10Small();
    TimeBytes();
    var e := unit.Digits();
    if e < scale { DivFacts(time, Pow10(scale - e)); }
    var lo := TruncDiv(-MAX64 - 1, PerDay(e));
    TruncFacts(-MAX64 - 1, PerDay(e));
    assert lo <= -100_000_000;
  }

  // ---------------------------------------------------------------- there and back

  /** Encoding a timestamp and decoding it into the same type returns the ticks when the scale is at least as fine,
      and otherwise ticks off by at most half a wire tick. */
  lemma TimestampRoundTrip(raw: int, unit: Unit, scale: nat)
    requires scale <= 7 && OnTheCalendar(raw, unit)
    ensures var w := Components(raw, unit, scale);
            w.time >= 0 && w.date >= 0
            && var s, n := Datetime2Bytes(w, scale), TimeByteSize(scale);
            FromLe(s[..n]) == w.time && FromLe(s[n..]) == w.date
            && (scale >= unit.Digits() ==> Denoted(w.time, w.date, scale, unit) == raw)
            && (scale < unit.Digits() ==>
                 2 * Abs(Denoted(w.time, w.date, scale, unit) - raw) <= Pow10(unit.Digits() - scale))
  {
    var w, e := Components(raw, unit, scale), unit.Digits();
    ComponentsAreExact(raw, unit, scale);
    TimeFits(w.time, scale);
    TimeBytes();
    LeRoundTrip(w.time, TimeByteSize(scale));
    LeRoundTrip(w.date, 3);
    var s, n := Datetime2Bytes(w, scale), TimeByteSize(scale);
    assert s[..n] == Le(w.time, n) && s[n..] == Le(w.date, 3);
    if scale >= e { BackUp(raw, unit, scale); } else { BackDown(raw, unit, scale); }
  }

  lemma BackUp(raw: int, unit: Unit, scale: nat)
    requires OnTheCalendar(raw, unit) && scale >= unit.Digits()
    ensures var w := Components(raw, unit, scale); Denoted(w.time, w.date, scale, unit) == raw
  {
    var e := unit.Digits();
    var s, k := SplitDays(raw, PerDay(e)), Pow10(scale - e);
    SplitFloors(raw, PerDay(e));
    ComponentsUp(raw, unit, scale);
    CalendarDay(raw, unit, s);
    hide SplitDays, Components, PerDay, Pow10;
    DivUnique(s.sub * k, k, s.sub, 0);
    assert scale == e ==> k == 1 && s.sub * k == s.sub by { PowZero(); }
  }

  lemma BackDown(raw: int, unit: Unit, scale: nat)
    requires OnTheCalendar(raw, unit) && scale < unit.Digits()
    ensures var w := Components(raw, unit, scale);
            2 * Abs(Denoted(w.time, w.date, scale, unit) - raw) <= Pow10(unit.Digits() - scale)
  {
    var e, w := unit.Digits(), Components(raw, unit, scale);
    var d, day := Pow10(e - scale), PerDay(scale);
    ComponentsAreExact(raw, unit, scale);
    ScaleQuotient(e, scale);
    hide Components, PerDay, Pow10, OnTheCalendar;
    DenotedWire(w, unit, scale, d, day);
    HalfUnit(raw, d, ValueOf(w, scale));
  }

  lemma DenotedWire(w: Wire, unit: Unit, scale: nat, d: int, day: int)
    requires scale < unit.Digits() && d == Pow10(unit.Digits() - scale) && day == PerDay(scale)
    requires PerDay(unit.Digits()) == day * d
    ensures Denoted(w.time, w.date, scale, unit) == ValueOf(w, scale) * d
  {
    DenotedIs(w.time, w.date, scale, unit);
    SubDayStep(w.time, scale, unit);
    Regroup(w.date - EPOCH, day, d, w.time);
    ValueIs(w, scale, w.date - EPOCH);
    hide *;
  }

  lemma Regroup(days: int, day: int, d: int, time: int)
    ensures days * (day * d) + time * d == (days * day + time) * d
  {
    assert days * (day * d) == (days * day) * d;
    assert (days * day + time) * d == (days * day) * d + time * d;
  }

  lemma HalfUnit(raw: int, d: int, q: int)
    requires d > 0 && d % 2 == 0 && q == (raw + d / 2) / d
    ensures 2 * Abs(q * d - raw) <= d
  {
    var x := raw + d / 2;
    var r := x % d;
    assert x == q * d + r && 0 <= r < d;
  }
}
