/** The columnar date and time kernels against the row path (src/codec/datetime_codec.cpp:192-242, 265-409, 462-632,
    900-949, src/tds/encoding/bcp_row_encoder.cpp:1197-1281). */
module DatetimeScatter {
  import opened Buffers
  import opened Datetime
  import opened Decimal
  import opened Staging
  import opened Unicode

  /** A datetime2, datetimeoffset or time column of a scale, a date column, and a datetime2 column fed with dates. */
  datatype Temporal =
    | Datetime2(scale: nat) | DatetimeOffset(scale: nat) | TimeOfDay(scale: nat)
    | DateOnly | DateAsDatetime2(scale: nat)

  predicate FromDates(kind: Temporal) { kind.DateOnly? || kind.DateAsDatetime2? }

  predicate ScaleOk(kind: Temporal) { kind.DateOnly? || kind.scale <= 7 }

  /** A value of the source column: a date is days that still fit 32 bits counted from year 1, a time of day is
      microseconds, midnight to midnight, and any other value is a tick count. */
  predicate Held(kind: Temporal, unit: Unit, v: int) {
    if FromDates(kind) then -0x8000_0000 <= v && v + EPOCH < 0x8000_0000
    else if kind.TimeOfDay? then unit == Micros && 0 <= v <= PerDay(6)
    else Int64(v) && FloorFits(v, PerDay(unit.Digits()))
  }

  // ---------------------------------------------------------------- the row path

  lemma FieldsAreNatural(raw: int, unit: Unit, scale: nat)
    ensures Components(raw, unit, scale).time >= 0 && Components(raw, unit, scale).date >= 0
  {
    SplitFloors(raw, PerDay(unit.Digits()));
    PositiveDivisor(unit, scale);
    hide SplitDays, Pow10, PerDay;
    var sub, source, target := SplitDays(raw, PerDay(unit.Digits())).sub, TicksPerSecond(unit), Pow10(scale);
    if target >= source {
      MulNatural(sub, target / source);
    } else {
      QuotientNatural(sub, source / target);
    }
  }

  lemma QuotientNatural(sub: nat, divisor: int)
    requires divisor > 0
    ensures (sub + divisor / 2) / divisor >= 0
  {
    DivFacts(sub + divisor / 2, divisor);
  }

  lemma MulNatural(x: int, y: int)
    requires x >= 0 && y >= 0
    ensures x * y >= 0
  {
  }

  /** Ticks of a time of day on the row path: rounded and held below midnight up to scale 6, multiplied at scale 7. */
  function RowTicks(v: int, scale: nat): int {
    if scale <= 6 then
      var d := Pow10(6 - scale);
      var ticks := (v + d / 2) / d;
      if ticks >= PerDay(scale) then PerDay(scale) - 1 else ticks
    else v * 10
  }

  /** Ticks of a time of day in the kernel, with its column constants. */
  function KernelTicks(v: int, scale: nat): int {
    var up := Pow10(scale) >= Pow10(6);
    var ticks := if up then v * (Pow10(scale) / Pow10(6)) else (v + Pow10(6) / Pow10(scale) / 2) / (Pow10(6) / Pow10(scale));
    if ticks >= PerDay(scale) then PerDay(scale) - 1 else ticks
  }

  /** The kernel and the row path write the same time but for one value: at scale 7 the row path lets 24:00:00 through
      as a tick count no time of that scale has, and the kernel holds it below midnight. */
  lemma TimesAgreeExactly(v: int, scale: nat)
    requires scale <= 7 && Held(TimeOfDay(scale), Micros, v)
    ensures KernelTicks(v, scale) == RowTicks(v, scale) <==> !(scale == 7 && v == PerDay(6))
    ensures 0 <= KernelTicks(v, scale) < PerDay(scale)
  {
    hide Pow10;
    Pow10Small();
    Pow10Compare(scale, 6);
    if scale >= 6 {
      ScaleQuotient(scale, 6);
    } else {
      ScaleQuotient(6, scale);
      DivFacts(v + Pow10(6 - scale) / 2, Pow10(6 - scale));
    }
    DayIsLong(scale);
  }

  /** `ticks` of a scale is the time of day nearest to `v` microseconds, halves up. */
  predicate Nearest(ticks: int, v: int, scale: nat) {
    2 * 1_000_000 * ticks - 1_000_000 <= 2 * v * Pow10(scale) < 2 * 1_000_000 * ticks + 1_000_000
  }

  lemma NearestUnique(a: int, b: int, v: int, scale: nat)
    requires Nearest(a, v, scale) && Nearest(b, v, scale)
    ensures a == b
  {
    hide Pow10;
  }

  /** Both paths write the nearest tick; the kernel holds it below midnight at every scale, the row path up to 6. */
  lemma TicksAreNearest(v: int, scale: nat) returns (ticks: int)
    requires scale <= 7 && Held(TimeOfDay(scale), Micros, v)
    ensures Nearest(ticks, v, scale)
    ensures var last := 86400 * Pow10(scale) - 1;
            KernelTicks(v, scale) == (if ticks > last then last else ticks)
            && RowTicks(v, scale) == if ticks > last && scale <= 6 then last else ticks
  {
    hide Pow10;
    Pow10Small();
    Pow10Compare(scale, 6);
    if scale >= 6 {
      ScaleQuotient(scale, 6);
      ticks := v * Pow10(scale - 6);
      assert scale == 6 || scale == 7;
    } else {
      ScaleQuotient(6, scale);
      var d := Pow10(6 - scale);
      ticks := (v + d / 2) / d;
      RoundedNearest(v, d, Pow10(scale), ticks);
    }
  }

  lemma RoundedNearest(v: nat, d: int, p: int, ticks: int)
    requires d > 0 && d % 2 == 0 && p > 0 && d * p == 1_000_000 && ticks == (v + d / 2) / d
    ensures 2 * 1_000_000 * ticks - 1_000_000 <= 2 * v * p < 2 * 1_000_000 * ticks + 1_000_000
  {
    DivFacts(v + d / 2, d);
    var low, high := ticks * d, ticks * d + d;
    assert 2 * low - d <= 2 * v < 2 * high - d;
    MulMonotone(2 * low - d, 2 * v, p);
    MulStrict(2 * v, 2 * high - d, p);
    assert low * p == ticks * (d * p) by { MulAssoc(ticks, d, p); }
    assert (2 * low - d) * p == 2 * (low * p) - d * p;
    assert (2 * high - d) * p == 2 * (low * p) + d * p;
    assert (2 * v) * p == 2 * v * p;
  }

  lemma MulMonotone(a: int, b: int, p: int)
    requires a <= b && p > 0
    ensures a * p <= b * p
  {
    assert (b - a) * p == b * p - a * p;
    MulNatural(b - a, p);
  }

  lemma MulStrict(a: int, b: int, p: int)
    requires a < b && p > 0
    ensures a * p < b * p
  {
    assert (b - a) * p == b * p - a * p;
    MulAtLeast(b - a, p);
  }

  /** The row path's bytes. */
  function RowWire(kind: Temporal, unit: Unit, v: Option<int>): seq<byte>
    requires v.Some? ==> Held(kind, unit, v.value)
  {
    if v.None? then [0x00]
    else
      match kind
      case TimeOfDay(scale) =>
        var n := TimeByteSize(scale);
        [n as byte] + Le(Ticks(RowTicks(v.value, scale)), n)
      case Datetime2(scale) => [(TimeByteSize(scale) + 3) as byte] + Fields(v.value, unit, scale)
      case DatetimeOffset(scale) => [(TimeByteSize(scale) + 5) as byte] + (Fields(v.value, unit, scale) + [0, 0])
      case DateOnly => [3] + [Shifted(v.value + EPOCH, 0), Shifted(v.value + EPOCH, 1), Shifted(v.value + EPOCH, 2)]
      case DateAsDatetime2(scale) =>
        [(TimeByteSize(scale) + 3) as byte] + Datetime2Bytes(Wire(0, (v.value + EPOCH) % 0x1_0000_0000), scale)
  }

  /** The byte left after an arithmetic shift right by whole bytes. */
  function Shifted(x: int, i: nat): byte { ((x / Power256(i)) % 0x100) as byte }

  function Ticks(n: int): nat { if n < 0 then 0 else n }

  function Fields(raw: int, unit: Unit, scale: nat): (s: seq<byte>)
    ensures |s| == TimeByteSize(scale) + 3
  {
    FieldsAreNatural(raw, unit, scale);
    Datetime2Bytes(Components(raw, unit, scale), scale)
  }

  function PayloadSize(kind: Temporal): nat {
    match kind
    case TimeOfDay(scale) => TimeByteSize(scale)
    case Datetime2(scale) => TimeByteSize(scale) + 3
    case DatetimeOffset(scale) => TimeByteSize(scale) + 5
    case DateOnly => 3
    case DateAsDatetime2(scale) => TimeByteSize(scale) + 3
  }

  function RowSize(kind: Temporal, v: Option<int>): nat { if v.None? then 1 else 1 + PayloadSize(kind) }

  /** The fields of one timestamp, as the row path computes them. */
  method ComputeDatetime2Components(raw: int, unit: Unit, scale: nat) returns (time: int, date: int)
    requires Int64(raw) && FloorFits(raw, PerDay(unit.Digits()))
    ensures Wire(time, date) == Components(raw, unit, scale)
    ensures OnTheCalendar(raw, unit) ==>
              0 <= time < PerDay(scale) && ValueOf(Wire(time, date), scale) == Rescaled(raw, unit, scale)
  {
    if OnTheCalendar(raw, unit) { ComponentsAreExact(raw, unit, scale); }
    DayIsLong(unit.Digits());
    hide Pow10, OnTheCalendar, TruncDiv, Rescaled, PerDay, ValueOf;
    var perDay := PerDay(unit.Digits());
    var days, sub;
    if raw >= 0 {
      days, sub := raw / perDay, raw % perDay;
    } else {
      days := TruncDiv(raw - perDay + 1, perDay);
      sub := raw - days * perDay;
    }
    date := (days + EPOCH) % 0x1_0000_0000;
    if Pow10(scale) >= TicksPerSecond(unit) {
      time := sub * (Pow10(scale) / TicksPerSecond(unit));
      return;
    }
    var divisor := TicksPerSecond(unit) / Pow10(scale);
    PositiveDivisor(unit, scale);
    var scaled := (sub + divisor / 2) / divisor;
    if scaled >= PerDay(scale) { scaled, date := 0, (date + 1) % 0x1_0000_0000; }
    time := scaled;
  }

  lemma PositiveDivisor(unit: Unit, scale: nat)
    ensures Pow10(scale) > 0 && TicksPerSecond(unit) > 0
    ensures Pow10(scale) < TicksPerSecond(unit) ==> TicksPerSecond(unit) / Pow10(scale) > 0
    ensures Pow10(scale) >= TicksPerSecond(unit) ==> Pow10(scale) / TicksPerSecond(unit) > 0
  {
    hide Pow10;
    Pow10Compare(scale, unit.Digits());
    if scale >= unit.Digits() { ScaleQuotient(scale, unit.Digits()); } else { ScaleQuotient(unit.Digits(), scale); }
  }

  /** Low byte first, one shift for each. */
  method AppendLe(buf: seq<byte>, v: nat, n: nat) returns (grown: seq<byte>)
    ensures grown == buf + Le(v, n)
  {
    hide Le, HighBytes;
    grown := buf;
    for i := 0 to n
      invariant grown == buf + Le(v, n)[..i]
    {
      LeAt(v, n, i);
      grown := grown + [(HighBytes(v, i) % 0x100) as byte];
    }
    assert Le(v, n)[..n] == Le(v, n);
  }

  /** The ticks of a time of day: the divisor and the length of the day are multiplied up digit by digit. */
  method ScaleTime(v: int, scale: nat) returns (ticks: int)
    requires scale <= 7 && Held(TimeOfDay(scale), Micros, v)
    ensures ticks == RowTicks(v, scale) >= 0
  {
    if scale > 6 { return v * 10; }
    var divisor := 1;
    for i := 0 to 6 - scale
      invariant divisor == Pow10(i)
    {
      divisor := divisor * 10;
    }
    ticks := (v + divisor / 2) / divisor;
    var perDay := SECONDS_PER_DAY;
    for i := 0 to scale
      invariant perDay == PerDay(i)
    {
      perDay := perDay * 10;
    }
    DayIsLong(scale);
    DivFacts(v + divisor / 2, divisor);
    if ticks >= perDay { ticks := perDay - 1; }
  }

  method EncodeTime(buf: seq<byte>, v: int, scale: nat) returns (grown: seq<byte>)
    requires scale <= 7 && Held(TimeOfDay(scale), Micros, v)
    ensures grown == buf + RowWire(TimeOfDay(scale), Micros, Some(v))
  {
    hide Le, RowTicks;
    var ticks := ScaleTime(v, scale);
    var n := TimeByteSize(scale);
    grown := AppendLe(buf + [n as byte], ticks, n);
    assert grown == buf + ([n as byte] + Le(ticks, n));
  }

  method EncodeDatetime2Raw(buf: seq<byte>, time: nat, date: nat, scale: nat) returns (grown: seq<byte>)
    ensures grown == buf + ([(TimeByteSize(scale) + 3) as byte] + Datetime2Bytes(Wire(time, date), scale))
  {
    hide Le;
    grown := AppendLe(buf + [(TimeByteSize(scale) + 3) as byte], time, TimeByteSize(scale));
    grown := AppendLe(grown, date, 3);
  }

  method EncodeDatetimeOffsetRaw(buf: seq<byte>, time: nat, date: nat, offset: int, scale: nat) returns (grown: seq<byte>)
    ensures grown == buf + ([(TimeByteSize(scale) + 5) as byte]
                            + (Datetime2Bytes(Wire(time, date), scale) + [Shifted(offset, 0), Shifted(offset, 1)]))
  {
    hide Le, Shifted;
    grown := AppendLe(buf + [(TimeByteSize(scale) + 5) as byte], time, TimeByteSize(scale));
    grown := AppendLe(grown, date, 3);
    grown := grown + [Shifted(offset, 0)] + [Shifted(offset, 1)];
  }

  method EncodeDate(buf: seq<byte>, days: int) returns (grown: seq<byte>)
    requires Held(DateOnly, Micros, days)
    ensures grown == buf + RowWire(DateOnly, Micros, Some(days))
  {
    hide Shifted;
    var d := days + EPOCH;
    grown := buf + [3] + [Shifted(d, 0)] + [Shifted(d, 1)] + [Shifted(d, 2)];
  }

  lemma ZeroShifted()
    ensures Shifted(0, 0) == 0 && Shifted(0, 1) == 0
  {
    assert Power256(1) == 0x100;
  }

  /** The row path: one value, or the NULL marker, onto the end of a row. */
  method EncodeToBcp(kind: Temporal, unit: Unit, v: Option<int>, buf: seq<byte>) returns (grown: seq<byte>)
    requires ScaleOk(kind) && (v.Some? ==> Held(kind, unit, v.value))
    ensures grown == buf + RowWire(kind, unit, v)
  {
    hide Components, Shifted, RowTicks, FloorFits, PerDay;
    if v.None? { return buf + [0x00]; }
    match kind {
      case TimeOfDay(scale) => grown := EncodeTime(buf, v.value, scale);
      case DateOnly => grown := EncodeDate(buf, v.value);
      case DateAsDatetime2(scale) => grown := EncodeDatetime2Raw(buf, 0, (v.value + EPOCH) % 0x1_0000_0000, scale);
      case Datetime2(scale) =>
        var time, date := ComputeDatetime2Components(v.value, unit, scale);
        FieldsAreNatural(v.value, unit, scale);
        grown := EncodeDatetime2Raw(buf, time, date, scale);
      case DatetimeOffset(scale) =>
        var time, date := ComputeDatetime2Components(v.value, unit, scale);
        FieldsAreNatural(v.value, unit, scale);
        grown := EncodeDatetimeOffsetRaw(buf, time, date, 0, scale);
        ZeroShifted();
    }
  }

  // ---------------------------------------------------------------- the kernel

  /** What the caller of a kernel works out once for a column. */
  datatype Constants = Constants(upscale: bool, factor: int, half: int, perDay: int, perDayTarget: int)

  function ConstantsOf(unit: Unit, scale: nat): (c: Constants)
    ensures c.factor > 0 && c.perDay > 0
  {
    PositiveDivisor(unit, scale);
    DayIsLong(unit.Digits());
    var source, target := TicksPerSecond(unit), Pow10(scale);
    var upscale := target >= source;
    var factor := if upscale then target / source else source / target;
    Constants(upscale, factor, if upscale then 0 else factor / 2, PerDay(unit.Digits()), PerDay(scale))
  }

  /** What the body of the kernel's loop finds with the column's constants. */
  function KernelComponents(raw: int, c: Constants): Wire
    requires c.factor > 0 && c.perDay > 0
  {
    var days := if raw >= 0 then raw / c.perDay else TruncDiv(raw - c.perDay + 1, c.perDay);
    var sub := if raw >= 0 then raw % c.perDay else raw - days * c.perDay;
    var date := (days + EPOCH) % 0x1_0000_0000;
    var scaled := if c.upscale then sub * c.factor else (sub + c.half) / c.factor;
    if !c.upscale && scaled >= c.perDayTarget then Wire(0, (date + 1) % 0x1_0000_0000) else Wire(scaled, date)
  }

  /** It is the row path's pair, for every count, unit and scale. */
  lemma KernelFields(raw: int, unit: Unit, scale: nat)
    ensures KernelComponents(raw, ConstantsOf(unit, scale)) == Components(raw, unit, scale)
    ensures Components(raw, unit, scale).time >= 0 && Components(raw, unit, scale).date >= 0
  {
    FieldsAreNatural(raw, unit, scale);
    hide Pow10, TruncDiv, PerDay;
  }

  /** The body of the kernel's loop. */
  method SplitTicks(raw: int, c: Constants) returns (time: int, date: int)
    requires c.factor > 0 && c.perDay > 0
    ensures Wire(time, date) == KernelComponents(raw, c)
  {
    hide TruncDiv;
    var days, sub;
    if raw >= 0 {
      days, sub := raw / c.perDay, raw % c.perDay;
    } else {
      days := TruncDiv(raw - c.perDay + 1, c.perDay);
      sub := raw - days * c.perDay;
    }
    date := (days + EPOCH) % 0x1_0000_0000;
    if c.upscale {
      time := sub * c.factor;
    } else {
      var scaled := (sub + c.half) / c.factor;
      if scaled >= c.perDayTarget { scaled, date := 0, (date + 1) % 0x1_0000_0000; }
      time := scaled;
    }
  }

  /** The bytes two stores copy out of a 64-bit time and a 32-bit date. */
  function Stored(w: Wire, n: nat): (s: seq<byte>)
    requires w.time >= 0 && w.date >= 0 && n <= 8
    ensures |s| == n + 3
  {
    Le(w.time, 8)[..n] + Le(w.date, 4)[..3]
  }

  /** The kernel's bytes for a row. */
  function KernelWire(kind: Temporal, unit: Unit, v: Option<int>): seq<byte>
    requires v.Some? ==> Held(kind, unit, v.value)
  {
    if v.None? then [0x00]
    else
      match kind
      case TimeOfDay(scale) => [TimeByteSize(scale) as byte] + Le(Ticks(KernelTicks(v.value, scale)), 8)[..TimeByteSize(scale)]
      case DateOnly => [3] + Le((v.value + EPOCH) % 0x1_0000_0000, 4)[..3]
      case DateAsDatetime2(scale) =>
        [(TimeByteSize(scale) + 3) as byte] + (Zeros(TimeByteSize(scale)) + Le((v.value + EPOCH) % 0x1_0000_0000, 4)[..3])
      case Datetime2(scale) => [(TimeByteSize(scale) + 3) as byte] + KernelStored(v.value, unit, scale)
      case DatetimeOffset(scale) => [(TimeByteSize(scale) + 5) as byte] + (KernelStored(v.value, unit, scale) + [0, 0])
  }

  function Zeros(n: nat): (s: seq<byte>)
    ensures |s| == n
  {
    seq(n, i => 0)
  }

  function KernelStored(raw: int, unit: Unit, scale: nat): (s: seq<byte>)
    ensures |s| == TimeByteSize(scale) + 3
  {
    KernelFields(raw, unit, scale);
    Stored(KernelComponents(raw, ConstantsOf(unit, scale)), TimeByteSize(scale))
  }

  lemma StoredIsFields(raw: int, unit: Unit, scale: nat)
    ensures KernelStored(raw, unit, scale) == Fields(raw, unit, scale)
  {
    KernelFields(raw, unit, scale);
    hide Le, KernelComponents, Components, ConstantsOf;
    var w := Components(raw, unit, scale);
    LePrefix(w.time, TimeByteSize(scale), 8);
    LePrefix(w.date, 3, 4);
  }

  lemma {:induction false} ZerosAre(n: nat)
    ensures Le(0, n) == Zeros(n)
  {
    if n > 0 {
      ZerosAre(n - 1);
      assert [0 as byte] + Zeros(n - 1) == Zeros(n);
    }
  }

  /** The stored bytes of a date are the shifted ones, before year 1 too. */
  lemma DateBytes(days: int)
    ensures Le(days % 0x1_0000_0000, 4)[..3] == [Shifted(days, 0), Shifted(days, 1), Shifted(days, 2)]
  {
    var u := days % 0x1_0000_0000;
    hide Le;
    PowersOf256();
    LeAt(u, 4, 0);
    LeAt(u, 4, 1);
    LeAt(u, 4, 2);
    hide Power256;
    WrappedShift(days, 1, 0x100_0000);
    WrappedShift(days, 0x100, 0x1_0000);
    WrappedShift(days, 0x1_0000, 0x100);
  }

  /** Wrapping to 32 bits first leaves the shifted bytes alone. */
  lemma WrappedShift(days: int, p: int, k: int)
    requires p > 0 && k > 0 && k * (0x100 * p) == 0x1_0000_0000
    ensures ((days % 0x1_0000_0000) / p) % 0x100 == (days / p) % 0x100
  {
    var q, u := days / 0x1_0000_0000, days % 0x1_0000_0000;
    DivFacts(u, p);
    var h, r, qk := u / p, u % p, q * k;
    assert q * 0x1_0000_0000 == (0x100 * qk) * p by { MulAssoc(q, k, 0x100 * p); }
    assert (0x100 * qk + h) * p == (0x100 * qk) * p + h * p;
    DivUnique(days, p, 0x100 * qk + h, r);
    DivUnique(0x100 * qk + h, 0x100, qk + h / 0x100, h % 0x100);
  }

  lemma PowersOf256()
    ensures Power256(0) == 1 && Power256(1) == 0x100 && Power256(2) == 0x1_0000
  {
    assert Power256(1) == 0x100 * Power256(0) && Power256(2) == 0x100 * Power256(1);
  }

  /** A column written by the kernel has the row path's bytes, but for 24:00:00 in a time(7) column. */
  lemma KernelIsRowPath(kind: Temporal, unit: Unit, v: Option<int>)
    requires ScaleOk(kind) && (v.Some? ==> Held(kind, unit, v.value))
    ensures KernelWire(kind, unit, v) == RowWire(kind, unit, v) <==>
            !(kind == TimeOfDay(7) && v.Some? && v.value == PerDay(6))
  {
    if v.Some? {
      hide Le, Pow10, Power256, PerDay, KernelTicks, RowTicks, KernelStored, Fields, Shifted, Zeros;
      match kind
      case TimeOfDay(scale) => TimeIsRowPath(scale, v.value);
      case DateOnly => DateBytes(v.value + EPOCH);
      case DateAsDatetime2(scale) =>
        ZerosAre(TimeByteSize(scale));
        LePrefix((v.value + EPOCH) % 0x1_0000_0000, 3, 4);
      case Datetime2(scale) => StoredIsFields(v.value, unit, scale);
      case DatetimeOffset(scale) => StoredIsFields(v.value, unit, scale);
    }
  }

  lemma TimesAreShort(scale: nat)
    ensures TimeByteSize(scale) <= 5
  {
  }

  lemma TimeIsRowPath(scale: nat, v: int)
    requires scale <= 7 && Held(TimeOfDay(scale), Micros, v)
    ensures KernelWire(TimeOfDay(scale), Micros, Some(v)) == RowWire(TimeOfDay(scale), Micros, Some(v)) <==>
            !(scale == 7 && v == PerDay(6))
  {
    TimesAgreeExactly(v, scale);
    MidnightTicks();
    hide Le, Pow10, Power256, PerDay, KernelTicks, RowTicks, TimeByteSize, Held;
    var n, k, r := TimeByteSize(scale), KernelTicks(v, scale), RowTicks(v, scale);
    assert n <= 8 by { TimesAreShort(scale); }
    LePrefix(k, n, 8);
    if scale == 7 && v == PerDay(6) {
      LeRoundTrip(k, n);
      LeRoundTrip(r, n);
      var a, b := [n as byte] + Le(k, n), [n as byte] + Le(r, n);
      assert a[1..] == Le(k, n) && b[1..] == Le(r, n);
    }
  }

  /** One value of a datetime2 or datetimeoffset column: prefix, time, three bytes of date, and a zero offset. */
  method WriteDatetime2(dst: array<byte>, at: nat, raw: int, unit: Unit, kind: Temporal, c: Constants)
    requires (kind.Datetime2? || kind.DatetimeOffset?) && Held(kind, unit, raw) && c == ConstantsOf(unit, kind.scale)
    requires at + 1 + PayloadSize(kind) <= dst.Length
    modifies dst
    ensures dst[..] == Splice(old(dst[..]), at, KernelWire(kind, unit, Some(raw)))
  {
    hide Splice, Pow10, Le, Components, KernelComponents, Held, ConstantsOf;
    KernelFields(raw, unit, kind.scale);
    var time, date := SplitTicks(raw, c);
    var n := TimeByteSize(kind.scale);
    ghost var d := dst[..];
    var prefix, ticks, days := [PayloadSize(kind) as byte], Le(time, 8)[..n], Le(date, 4)[..3];
    Put(dst, at, prefix);
    Put(dst, at + 1, ticks);
    SpliceThen(d, at, prefix, ticks);
    Put(dst, at + 1 + n, days);
    SpliceThen(d, at, prefix + ticks, days);
    Assoc(prefix, ticks, days);
    if kind.DatetimeOffset? {
      Put(dst, at + 4 + n, [0, 0]);
      SpliceThen(d, at, prefix + (ticks + days), [0, 0]);
      Assoc(prefix, ticks + days, [0, 0]);
    }
  }

  /** One value of a column of dates. */
  method WriteDate(dst: array<byte>, at: nat, v: int, unit: Unit, kind: Temporal)
    requires FromDates(kind) && Held(kind, unit, v) && at + 1 + PayloadSize(kind) <= dst.Length
    modifies dst
    ensures dst[..] == Splice(old(dst[..]), at, KernelWire(kind, unit, Some(v)))
  {
    hide Splice, Le;
    ghost var d := dst[..];
    var prefix, days := [PayloadSize(kind) as byte], Le((v + EPOCH) % 0x1_0000_0000, 4)[..3];
    Put(dst, at, prefix);
    if kind.DateOnly? {
      Put(dst, at + 1, days);
      SpliceThen(d, at, prefix, days);
    } else {
      var n := TimeByteSize(kind.scale);
      Put(dst, at + 1, Zeros(n));
      SpliceThen(d, at, prefix, Zeros(n));
      Put(dst, at + 1 + n, days);
      SpliceThen(d, at, prefix + Zeros(n), days);
      Assoc(prefix, Zeros(n), days);
    }
  }

  lemma MidnightTicks()
    ensures RowTicks(PerDay(6), 7) == PerDay(7) < Power256(5) && TimeByteSize(7) == 5
  {
    hide Pow10, Power256;
    Pow10Small();
    TimeBytes();
  }

  method TimeTicks(v: int, scale: nat) returns (ticks: int)
    ensures ticks == KernelTicks(v, scale)
  {
    PositiveDivisor(Micros, scale);
    hide Pow10, PerDay;
    var target, source := Pow10(scale), Pow10(6);
    var up := target >= source;
    var factor := if up then target / source else source / target;
    var half := if up then 0 else factor / 2;
    ticks := if up then v * factor else (v + half) / factor;
    if ticks >= PerDay(scale) { ticks := PerDay(scale) - 1; }
  }

  /** One value of a time column. */
  method WriteTime(dst: array<byte>, at: nat, v: int, kind: Temporal)
    requires kind.TimeOfDay? && kind.scale <= 7 && Held(kind, Micros, v)
    requires at + 1 + PayloadSize(kind) <= dst.Length
    modifies dst
    ensures dst[..] == Splice(old(dst[..]), at, KernelWire(kind, Micros, Some(v)))
  {
    TimesAgreeExactly(v, kind.scale);
    hide Splice, Le, Held, PerDay, KernelTicks;
    var ticks := TimeTicks(v, kind.scale);
    var n := TimeByteSize(kind.scale);
    ghost var d := dst[..];
    Put(dst, at, [n as byte]);
    Put(dst, at + 1, Le(ticks, 8)[..n]);
    SpliceThen(d, at, [n as byte], Le(ticks, 8)[..n]);
  }

  // ---------------------------------------------------------------- the column

  ghost predicate ValuesHeld(kind: Temporal, unit: Unit, values: seq<Option<int>>) {
    forall r :: 0 <= r < |values| && values[r].Some? ==> Held(kind, unit, values[r].value)
  }

  ghost function Wires(kind: Temporal, unit: Unit, values: seq<Option<int>>): (wires: seq<seq<byte>>)
    requires ValuesHeld(kind, unit, values)
    ensures |wires| == |values|
  {
    seq(|values|, r requires 0 <= r < |values| => KernelWire(kind, unit, values[r]))
  }

  function Sizes(kind: Temporal, values: seq<Option<int>>): (sizes: seq<nat>)
    ensures |sizes| == |values|
  {
    seq(|values|, r requires 0 <= r < |values| => RowSize(kind, values[r]))
  }

  lemma RowWireSize(kind: Temporal, unit: Unit, v: Option<int>)
    requires v.Some? ==> Held(kind, unit, v.value)
    ensures |KernelWire(kind, unit, v)| == RowSize(kind, v)
  {
  }

  function ColumnConstants(unit: Unit, kind: Temporal): Constants { ConstantsOf(unit, if kind.DateOnly? then 0 else kind.scale) }

  method WriteRow(dst: array<byte>, at: nat, v: Option<int>, unit: Unit, kind: Temporal, c: Constants)
    requires ScaleOk(kind) && (v.Some? ==> Held(kind, unit, v.value))
    requires c == ColumnConstants(unit, kind) && at + RowSize(kind, v) <= dst.Length
    modifies dst
    ensures dst[..] == Splice(old(dst[..]), at, KernelWire(kind, unit, v)) && |KernelWire(kind, unit, v)| == RowSize(kind, v)
  {
    RowWireSize(kind, unit, v);
    hide Splice, ConstantsOf;
    if v.None? {
      Put(dst, at, [0x00]);
    } else if kind.TimeOfDay? {
      WriteTime(dst, at, v.value, kind);
    } else if FromDates(kind) {
      WriteDate(dst, at, v.value, unit, kind);
    } else {
      WriteDatetime2(dst, at, v.value, unit, kind, c);
    }
  }

  lemma RowAt(kind: Temporal, unit: Unit, values: seq<Option<int>>, r: nat, starts: seq<nat>, length: nat)
    requires r < |values| == |starts| && ValuesHeld(kind, unit, values) && Inside(starts, Sizes(kind, values), length)
    ensures values[r].Some? ==> Held(kind, unit, values[r].value)
    ensures Wires(kind, unit, values)[r] == KernelWire(kind, unit, values[r])
    ensures Sizes(kind, values)[r] == RowSize(kind, values[r]) && starts[r] + RowSize(kind, values[r]) <= length
  {
    hide KernelWire, Held, RowSize;
  }

  /** A whole column: every row gets its bytes at its place, every cursor moves past them, and no byte
      outside the rows changes. */
  method ScatterChunkPos(pos: Position, dst: array<byte>, cursor: array<nat>, begin: nat, rows: nat,
                         fmt: NumberFormat, unit: Unit, kind: Temporal)
    requires ScaleOk(kind) && fmt.Covers(begin + rows) && ValuesHeld(kind, unit, fmt.Rows(begin, rows))
    requires pos.Covers(cursor.Length, rows)
    requires Apart(pos.Starts(cursor[..], rows), Sizes(kind, fmt.Rows(begin, rows)), 0, rows)
    requires Inside(pos.Starts(cursor[..], rows), Sizes(kind, fmt.Rows(begin, rows)), dst.Length)
    modifies dst, cursor
    ensures Scattered(dst[..], old(pos.Starts(cursor[..], rows)), Wires(kind, unit, fmt.Rows(begin, rows)))
    ensures cursor[..] == pos.Advanced(old(cursor[..]), Sizes(kind, fmt.Rows(begin, rows)))
    ensures Untouched(dst[..], old(dst[..]), old(pos.Starts(cursor[..], rows)), Sizes(kind, fmt.Rows(begin, rows)), rows)
  {
    hide Splice, KernelWire, Held, Apart, Inside, Progress, Untouched, Scattered, ColumnConstants, ValuesHeld, Wires, Sizes, RowSize,
      Position.Advanced, Position.Starts, Position.At;
    var c := ColumnConstants(unit, kind);
    ghost var c0, d0 := cursor[..], dst[..];
    ghost var values := fmt.Rows(begin, rows);
    ghost var starts, sizes := pos.Starts(c0, rows), Sizes(kind, values);
    ghost var wires := Wires(kind, unit, values);
    ProgressStart(d0, starts, sizes);
    pos.AdvanceNone(c0);
    assert wires[..0] == [] && sizes[..0] == [];
    for r := 0 to rows
      invariant Progress(dst[..], d0, starts, sizes, wires[..r])
      invariant cursor[..] == pos.Advanced(c0, sizes[..r])
    {
      pos.AtStart(c0, sizes, r, rows);
      var v, at := fmt.At(begin + r), pos.At(cursor[..], r);
      assert v == values[r] && at == starts[r];
      RowAt(kind, unit, values, r, starts, dst.Length);
      ghost var d := dst[..];
      WriteRow(dst, at, v, unit, kind, c);
      assert KernelWire(kind, unit, v) == wires[r] && wires[..r + 1] == wires[..r] + [wires[r]];
      ProgressStep(d, d0, starts, sizes, wires[..r], wires[r]);
      pos.AdvanceOne(c0, sizes, r);
      pos.Advance(cursor, r, RowSize(kind, v));
    }
    assert sizes[..rows] == sizes && wires[..rows] == wires;
    ProgressEnds(dst[..], d0, starts, sizes, wires);
  }
}
