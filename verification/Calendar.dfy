/** The proleptic Gregorian calendar, on its own, and what the wire's date field and the decoded instants are on it
    (section 2.2.5.5.1.8 of [MS-TDS]: days since the first day of year 1). */
module Calendar {
  import opened Buffers
  import opened Datetime
  import opened DatetimeScatter
  import opened Decimal
  import opened Staging
  import opened Unicode

  // ---------------------------------------------------------------- civil dates

  datatype Civil = Civil(year: int, month: int, day: int)

  predicate Leap(year: int) { year % 4 == 0 && (year % 100 == 0 ==> year % 400 == 0) }

  function MonthLength(year: int, month: int): nat {
    if month == 2 then (if Leap(year) then 29 else 28) else if month in {4, 6, 9, 11} then 30 else 31
  }

  predicate CivilOk(c: Civil) { 1 <= c.year <= 9999 && 1 <= c.month <= 12 && 1 <= c.day <= MonthLength(c.year, c.month) }

  function DaysBeforeYear(year: nat): nat {
    if year <= 1 then 0 else DaysBeforeYear(year - 1) + if Leap(year - 1) then 366 else 365
  }

  function DaysBeforeMonth(year: int, month: nat): nat {
    if month <= 1 then 0 else DaysBeforeMonth(year, month - 1) + MonthLength(year, month - 1)
  }

  /** Days from 0001-01-01. */
  function DayNumber(c: Civil): nat
    requires CivilOk(c)
  {
    DaysBeforeYear(c.year) + DaysBeforeMonth(c.year, c.month) + (c.day - 1)
  }

  function NextDay(c: Civil): Civil {
    if c.day < MonthLength(c.year, c.month) then c.(day := c.day + 1)
    else if c.month < 12 then Civil(c.year, c.month + 1, 1)
    else Civil(c.year + 1, 1, 1)
  }

  lemma YearLength(year: int)
    ensures DaysBeforeMonth(year, 12) + MonthLength(year, 12) == if Leap(year) then 366 else 365
  {
    var february := MonthLength(year, 2);
    assert DaysBeforeMonth(year, 2) == 31;
    assert DaysBeforeMonth(year, 3) == 31 + february;
    assert DaysBeforeMonth(year, 4) == 62 + february;
    assert DaysBeforeMonth(year, 5) == 92 + february;
    assert DaysBeforeMonth(year, 6) == 123 + february;
    assert DaysBeforeMonth(year, 7) == 153 + february;
    assert DaysBeforeMonth(year, 8) == 184 + february;
    assert DaysBeforeMonth(year, 9) == 215 + february;
    assert DaysBeforeMonth(year, 10) == 245 + february;
    assert DaysBeforeMonth(year, 11) == 276 + february;
    assert DaysBeforeMonth(year, 12) == 306 + february;
  }

  /** The next day has the next number. */
  lemma NextDayNumber(c: Civil)
    requires CivilOk(c) && CivilOk(NextDay(c))
    ensures DayNumber(NextDay(c)) == DayNumber(c) + 1
  {
    hide Leap;
    if c.day == MonthLength(c.year, c.month) && c.month == 12 { YearLength(c.year); }
  }

  lemma {:induction false} YearsInClosedForm(year: nat)
    requires year >= 1
    ensures var y := year - 1; DaysBeforeYear(year) == 365 * y + y / 4 - y / 100 + y / 400
  {
    if year > 1 {
      YearsInClosedForm(year - 1);
      LeapStep(year - 2);
    }
  }

  lemma LeapStep(y: nat)
    ensures (y + 1) / 4 - (y + 1) / 100 + (y + 1) / 400 == y / 4 - y / 100 + y / 400 + if Leap(y + 1) then 1 else 0
  {
    QuotientStep(y, 4);
    QuotientStep(y, 100);
    QuotientStep(y, 400);
    if (y + 1) % 400 == 0 { Divides(y + 1, 4); }
    if (y + 1) % 100 == 0 { DividesHundred(y + 1); }
  }

  lemma QuotientStep(y: nat, d: nat)
    requires d > 1
    ensures (y + 1) / d == y / d + if (y + 1) % d == 0 then 1 else 0
  {
    DivFacts(y, d);
    if y % d + 1 < d {
      DivUnique(y + 1, d, y / d, y % d + 1);
    } else {
      assert (y / d + 1) * d == y / d * d + d;
      DivUnique(y + 1, d, y / d + 1, 0);
    }
  }

  lemma Divides(y: nat, four: nat)
    requires y % 400 == 0 && four == 4
    ensures y % 100 == 0 && y % 4 == 0
  {
  }

  lemma DividesHundred(y: nat)
    requires y % 100 == 0
    ensures y % 4 == 0
  {
    DivUnique(y, 4, 25 * (y / 100), 0);
  }

  /** The first of January of a year, and the number of the Unix epoch's day. */
  lemma UnixEpochDay()
    ensures CivilOk(Civil(1970, 1, 1)) && DayNumber(Civil(1970, 1, 1)) == 719162
    ensures DayNumber(Civil(1, 1, 1)) == 0 && DayNumber(Civil(9999, 12, 31)) == 3652058
  {
    YearStarts();
    YearLength(9999);
    FirstMonth(1970);
    FirstMonth(1);
    hide DaysBeforeMonth, DaysBeforeYear, Leap;
    assert !Leap(9999) by { NoLeap(); }
  }

  lemma NoLeap()
    ensures !Leap(9999)
  {
  }

  lemma YearStarts()
    ensures DaysBeforeYear(1970) == 719162 && DaysBeforeYear(9999) == 3651694
  {
    YearsInClosedForm(1970);
    YearsInClosedForm(9999);
    hide DaysBeforeYear;
  }

  lemma FirstMonth(year: int)
    ensures DaysBeforeMonth(year, 1) == 0 && DaysBeforeYear(1) == 0
  {
  }

  lemma {:induction false} DaysStayBelow(c: Civil)
    requires CivilOk(c)
    ensures DayNumber(c) <= 3652058
    decreases 9999 - c.year, 12 - c.month, 31 - c.day
  {
    UnixEpochDay();
    if c != Civil(9999, 12, 31) {
      NextIsOk(c);
      NextDayNumber(c);
      hide DayNumber;
      DaysStayBelow(NextDay(c));
    }
  }

  lemma NextIsOk(c: Civil)
    requires CivilOk(c) && c != Civil(9999, 12, 31)
    ensures var n := NextDay(c);
            CivilOk(n) && (n.year > c.year || (n.year == c.year && (n.month > c.month || (n.month == c.month && n.day > c.day))))
            && n.day <= 31
  {
    hide Leap;
  }

  // ---------------------------------------------------------------- instants

  function TicksOf(unit: Unit): int {
    match unit
    case Seconds => 1
    case Millis => 1_000
    case Micros => 1_000_000
    case Nanos => 1_000_000_000
  }

  /** Ticks of a unit from midnight of 1970-01-01 to a time of day of a civil date. */
  function InstantOf(c: Civil, sub: int, unit: Unit): int
    requires CivilOk(c)
  {
    UnixEpochDay();
    (DayNumber(c) - DayNumber(Civil(1970, 1, 1))) * (24 * 60 * 60 * TicksOf(unit)) + sub
  }

  predicate TimeOk(sub: int, unit: Unit) { 0 <= sub < 24 * 60 * 60 * TicksOf(unit) }

  lemma UnitTicks(unit: Unit)
    ensures TicksPerSecond(unit) == TicksOf(unit) && PerDay(unit.Digits()) == 24 * 60 * 60 * TicksOf(unit) > 0
  {
    Pow10Small();
  }

  /** The split of a civil instant is its day, counted from the Unix epoch, and its time of day. */
  lemma CivilSplit(c: Civil, sub: int, unit: Unit)
    requires CivilOk(c) && TimeOk(sub, unit)
    ensures var s := SplitDays(InstantOf(c, sub, unit), PerDay(unit.Digits())); s.days + 719162 == DayNumber(c) && s.sub == sub
    ensures OnTheCalendar(InstantOf(c, sub, unit), unit)
  {
    UnixEpochDay();
    UnitTicks(unit);
    DaysStayBelow(c);
    hide DayNumber, SplitDays, PerDay;
    var raw, per := InstantOf(c, sub, unit), PerDay(unit.Digits());
    SplitFloors(raw, per);
    var s := SplitDays(raw, per);
    DivUnique(raw, per, DayNumber(c) - 719162, sub);
    DivUnique(raw, per, s.days, s.sub);
  }

  /** `time` of a scale is nearest to `sub` ticks of a unit that has `per` ticks a second, halves up; `p` is 10^scale. */
  predicate NearestTime(time: int, sub: int, per: int, p: int) {
    2 * time * per - per <= 2 * sub * p < 2 * time * per + per
  }

  lemma FieldsUp(c: Civil, sub: int, unit: Unit, scale: nat)
    requires CivilOk(c) && TimeOk(sub, unit) && scale >= unit.Digits()
    ensures var w := Components(InstantOf(c, sub, unit), unit, scale);
            w.date == DayNumber(c) && NearestTime(w.time, sub, TicksOf(unit), Pow10(scale))
  {
    CivilSplit(c, sub, unit);
    UnitTicks(unit);
    var raw := InstantOf(c, sub, unit);
    ComponentsUp(raw, unit, scale);
    ScaleQuotient(scale, unit.Digits());
    PowersArePositive(scale - unit.Digits(), unit);
    hide *;
    DatesFrom();
    TimeIsPositive(sub, unit);
    UpscaledTime(sub, Pow10(scale - unit.Digits()), TicksOf(unit), Pow10(scale));
  }

  lemma PowersArePositive(n: nat, unit: Unit)
    ensures Pow10(n) > 0 && TicksOf(unit) > 0 && Pow10(unit.Digits()) == TicksOf(unit)
  {
    UnitTicks(unit);
  }

  lemma TimeIsPositive(sub: int, unit: Unit)
    requires TimeOk(sub, unit)
    ensures sub >= 0
  {
  }

  /** What downscaling makes of a time of day: the nearest tick, or midnight of the next day. */
  lemma FieldsDown(c: Civil, sub: int, unit: Unit, scale: nat)
    requires CivilOk(c) && TimeOk(sub, unit) && scale < unit.Digits()
    ensures var w := Components(InstantOf(c, sub, unit), unit, scale);
            (w.date == DayNumber(c) && NearestTime(w.time, sub, TicksOf(unit), Pow10(scale)))
            || (w.time == 0 && w.date == DayNumber(c) + 1
                && exists t :: t >= 24 * 60 * 60 * Pow10(scale) && NearestTime(t, sub, TicksOf(unit), Pow10(scale)))
  {
    hide *;
    CivilSplit(c, sub, unit);
    UnitTicks(unit);
    var raw := InstantOf(c, sub, unit);
    ComponentsDown(raw, unit, scale);
    ScaleQuotient(unit.Digits(), scale);
    PerDayIs(scale);
    PowersArePositive(unit.Digits() - scale, unit);
    EvenPower(unit.Digits() - scale, scale);
    DatesFrom();
    TimeIsPositive(sub, unit);
    RoundedTime(sub, Pow10(unit.Digits() - scale), TicksOf(unit), Pow10(scale));
  }

  lemma EvenPower(n: nat, m: nat)
    requires n > 0
    ensures Pow10(n) % 2 == 0 && Pow10(n) > 0 && Pow10(m) > 0
  {
  }

  /** The fields of an instant of the calendar: the number of its civil date and its time of day at the column's scale,
      rounded to the nearest tick; a time that rounds to midnight is midnight of the next civil date. */
  lemma FieldsAreCivil(c: Civil, sub: int, unit: Unit, scale: nat)
    requires CivilOk(c) && TimeOk(sub, unit)
    ensures var w := Components(InstantOf(c, sub, unit), unit, scale);
            0 <= w.time < 24 * 60 * 60 * Pow10(scale)
            && if exists t :: t >= 24 * 60 * 60 * Pow10(scale) && NearestTime(t, sub, TicksOf(unit), Pow10(scale))
               then w.time == 0 && w.date == DayNumber(c) + 1 && (c != Civil(9999, 12, 31) ==> w.date == DayNumber(NextDay(c)))
               else w.date == DayNumber(c) && NearestTime(w.time, sub, TicksOf(unit), Pow10(scale))
  {
    CivilSplit(c, sub, unit);
    ComponentsAreExact(InstantOf(c, sub, unit), unit, scale);
    PerDayIs(scale);
    PowersArePositive(scale, unit);
    if c != Civil(9999, 12, 31) {
      NextIsOk(c);
      NextDayNumber(c);
    }
    hide Components, Pow10, InstantOf, DayNumber, NearestTime, TicksOf, CivilOk, TimeOk;
    if scale >= unit.Digits() { FieldsUp(c, sub, unit, scale); } else { FieldsDown(c, sub, unit, scale); }
    var w := Components(InstantOf(c, sub, unit), unit, scale);
    if t :| t >= 24 * 60 * 60 * Pow10(scale) && NearestTime(t, sub, TicksOf(unit), Pow10(scale)) {
      if NearestTime(w.time, sub, TicksOf(unit), Pow10(scale)) { OneNearest(w.time, t, sub, TicksOf(unit), Pow10(scale)); }
    }
  }

  lemma OneNearest(s: int, t: int, sub: int, per: int, p: int)
    requires per > 0 && NearestTime(s, sub, per, p) && NearestTime(t, sub, per, p)
    ensures s == t
  {
    assert (s - t) * per == s * per - t * per && (t - s) * per == t * per - s * per;
    assert 2 * s * per == 2 * (s * per) && 2 * t * per == 2 * (t * per);
    if s > t { MulAtLeast(s - t, per); }
    if t > s { MulAtLeast(t - s, per); }
  }

  lemma PerDayIs(scale: nat)
    ensures PerDay(scale) == 24 * 60 * 60 * Pow10(scale)
  {
  }

  lemma DatesFrom()
    ensures EPOCH == 719162
  {
  }

  lemma UpscaledTime(sub: nat, k: int, per: int, p: int)
    requires k > 0 && per > 0 && p == k * per
    ensures NearestTime(sub * k, sub, per, p)
  {
    MulAssoc(sub, k, per);
    assert 2 * (sub * k) * per == 2 * ((sub * k) * per) && 2 * sub * p == 2 * (sub * p);
  }

  lemma RoundedTime(sub: nat, d: int, per: int, p: int)
    requires d > 0 && d % 2 == 0 && p > 0 && per == d * p
    ensures NearestTime((sub + d / 2) / d, sub, per, p)
  {
    DivFacts(sub + d / 2, d);
    var t := (sub + d / 2) / d;
    var low := t * d;
    MulMonotone(2 * low - d, 2 * sub, p);
    MulStrict(2 * sub, 2 * low + d, p);
    MulAssoc(t, d, p);
    assert (2 * low - d) * p == 2 * (low * p) - d * p && (2 * low + d) * p == 2 * (low * p) + d * p;
    assert (2 * sub) * p == 2 * sub * p && 2 * t * per == 2 * (t * per);
  }

  /** Decoding a date field and a time of day gives the instant of that civil date and time, finer wires cut. */
  lemma DecodedIsCivil(c: Civil, time: nat, scale: nat, unit: Unit)
    requires CivilOk(c) && time < 24 * 60 * 60 * Pow10(scale)
    ensures var sub := if unit.Digits() >= scale then time * Pow10(unit.Digits() - scale) else time / Pow10(scale - unit.Digits());
            Denoted(time, DayNumber(c), scale, unit) == InstantOf(c, sub, unit)
  {
    UnixEpochDay();
    UnitTicks(unit);
    hide DayNumber, PerDay, Pow10;
  }

  // ---------------------------------------------------------------- the wire

  lemma Parts(size: byte, a: seq<byte>, b: seq<byte>, tail: seq<byte>)
    ensures var s := [size] + ((a + b) + tail);
            s[0] == size && |s| == 1 + |a| + |b| + |tail| && s[1..1 + |a|] == a && s[1 + |a|..1 + |a| + |b|] == b
            && s[1 + |a| + |b|..] == tail
  {
  }

  function OffsetBytes(kind: Temporal): seq<byte> { if kind.DatetimeOffset? then [0, 0] else [] }

  lemma RowWireIs(kind: Temporal, unit: Unit, raw: int)
    requires (kind.Datetime2? || kind.DatetimeOffset?) && Held(kind, unit, raw)
    ensures var w, n, tail := Components(raw, unit, kind.scale), TimeByteSize(kind.scale), OffsetBytes(kind);
            w.time >= 0 && w.date >= 0
            && RowWire(kind, unit, Some(raw)) == [(n + 3 + |tail|) as byte] + ((Le(w.time, n) + Le(w.date, 3)) + tail)
  {
    FieldsAreNatural(raw, unit, kind.scale);
    hide Components, Le, Held;
    assert kind.Datetime2? ==> Fields(raw, unit, kind.scale) + [] == Fields(raw, unit, kind.scale);
  }

  /** What a reader finds in the row path's bytes of an instant: the count of bytes that follow, the time of day, the
      number of the civil date, and for a datetimeoffset a zero offset. */
  lemma WireIsCivil(kind: Temporal, unit: Unit, c: Civil, sub: int)
    requires (kind.Datetime2? || kind.DatetimeOffset?) && kind.scale <= 7 && CivilOk(c) && TimeOk(sub, unit)
    requires Held(kind, unit, InstantOf(c, sub, unit))
    ensures var s, n := RowWire(kind, unit, Some(InstantOf(c, sub, unit))), TimeByteSize(kind.scale);
            var w := Components(InstantOf(c, sub, unit), unit, kind.scale);
            |s| == 1 + n + 3 + (if kind.DatetimeOffset? then 2 else 0) && s[0] as int == |s| - 1
            && FromLe(s[1..1 + n]) == w.time && FromLe(s[1 + n..4 + n]) == w.date && FromLe(s[4 + n..]) == 0
  {
    var raw, n := InstantOf(c, sub, unit), TimeByteSize(kind.scale);
    var w, tail := Components(raw, unit, kind.scale), OffsetBytes(kind);
    assert |tail| == if kind.DatetimeOffset? then 2 else 0;
    assert n <= 5 by { TimesAreShort(kind.scale); }
    ZeroOffset();
    assert FromLe(tail) == 0;
    hide *;
    FieldsInRange(c, sub, unit, kind.scale);
    RowWireIs(kind, unit, raw);
    Parts((n + 3 + |tail|) as byte, Le(w.time, n), Le(w.date, 3), tail);
    LeRoundTrip(w.time, n);
    LeRoundTrip(w.date, 3);
  }

  lemma FieldsInRange(c: Civil, sub: int, unit: Unit, scale: nat)
    requires CivilOk(c) && TimeOk(sub, unit) && scale <= 7
    ensures var w := Components(InstantOf(c, sub, unit), unit, scale);
            0 <= w.time < Power256(TimeByteSize(scale)) && 0 <= w.date < Power256(3)
  {
    hide *;
    FieldsAreCivil(c, sub, unit, scale);
    DaysStayBelow(c);
    PerDayIs(scale);
    TimeFits(Components(InstantOf(c, sub, unit), unit, scale).time, scale);
    TimeBytes();
  }

  lemma ZeroOffset()
    ensures FromLe([0, 0]) == 0 && FromLe([]) == 0
  {
    var s: seq<byte> := [0, 0];
    assert s[1..][1..] == [];
    assert FromLe(s[1..]) == 0;
  }

  function DaysSinceUnix(c: Civil): int
    requires CivilOk(c)
  {
    UnixEpochDay();
    DayNumber(c) - DayNumber(Civil(1970, 1, 1))
  }

  lemma DateWireIs(unit: Unit, days: int)
    requires Held(DateOnly, unit, days)
    ensures RowWire(DateOnly, unit, Some(days)) == [3] + Le((days + EPOCH) % 0x1_0000_0000, 4)[..3]
  {
    DateBytes(days + EPOCH);
    hide Le, Shifted;
  }

  /** A date column carries the number of the civil date in three bytes. */
  lemma DateIsCivil(c: Civil, unit: Unit)
    requires CivilOk(c)
    ensures var days := DaysSinceUnix(c);
            Held(DateOnly, unit, days) && RowWire(DateOnly, unit, Some(days))[0] == 3
            && FromLe(RowWire(DateOnly, unit, Some(days))[1..]) == DayNumber(c)
  {
    UnixEpochDay();
    DaysStayBelow(c);
    var days, n := DaysSinceUnix(c), DayNumber(c);
    assert Held(DateOnly, unit, days) && days + EPOCH == n by { hide DayNumber; }
    hide *;
    DateWireIs(unit, days);
    SmallNumber(n);
    LePrefix(n, 3, 4);
    TimeBytes();
    LeRoundTrip(n, 3);
    assert ([3 as byte] + Le(n, 3))[1..] == Le(n, 3);
  }

  lemma SmallNumber(n: nat)
    requires n < 0x1_0000_0000
    ensures n % 0x1_0000_0000 == n
  {
  }

  /** The first instant of 1970: the date field of tick 0 is its day number, in every unit and at every scale. */
  lemma TickZero(unit: Unit, scale: nat)
    ensures Components(0, unit, scale) == Wire(0, DayNumber(Civil(1970, 1, 1)))
  {
    var c := Civil(1970, 1, 1);
    UnixEpochDay();
    PowersArePositive(scale, unit);
    ZeroInstant(unit);
    FieldsAreCivil(c, 0, unit, scale);
    hide DayNumber, Components, Pow10, TicksOf, InstantOf;
    OnlyZero(TicksOf(unit), Pow10(scale));
  }

  lemma ZeroInstant(unit: Unit)
    requires CivilOk(Civil(1970, 1, 1))
    ensures InstantOf(Civil(1970, 1, 1), 0, unit) == 0 && TimeOk(0, unit)
  {
    hide DayNumber;
  }

  lemma OnlyZero(per: int, p: int)
    requires per > 0 && p > 0
    ensures forall t :: NearestTime(t, 0, per, p) ==> t == 0
  {
    forall t | NearestTime(t, 0, per, p) ensures t == 0 { OneNearest(t, 0, 0, per, p); }
  }
}
