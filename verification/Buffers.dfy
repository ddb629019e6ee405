/** Little-endian numbers, writes into a buffer, and where the rows of a scatter may lie. */
module Buffers {
  import opened Staging
  import opened Unicode

  function Le(v: nat, width: nat): (s: seq<byte>)
    ensures |s| == width
  {
    if width == 0 then [] else [(v % 0x100) as byte] + Le(v / 0x100, width - 1)
  }

  function FromLe(s: seq<byte>): nat {
    if s == [] then 0 else s[0] as nat + 0x100 * FromLe(s[1..])
  }

  lemma {:induction false} LeRoundTrip(v: nat, width: nat)
    requires v < Power256(width)
    ensures FromLe(Le(v, width)) == v
  {
    if width > 0 {
      LeRoundTrip(v / 0x100, width - 1);
      assert Le(v, width)[1..] == Le(v / 0x100, width - 1);
    }
  }

  function Power256(n: nat): (p: nat)
    ensures p >= 1
  {
    if n == 0 then 1 else 0x100 * Power256(n - 1)
  }

  lemma MulAtLeast(x: nat, d: int)
    requires d > 0
    ensures x * d >= x && (x > 0 ==> x * d >= d)
  {
  }

  /** Quotient and remainder are the only ones. */
  lemma DivUnique(v: int, d: int, q: int, r: int)
    requires d > 0 && v == q * d + r && 0 <= r < d
    ensures v / d == q && v % d == r
  {
    var p := v / d;
    assert v == p * d + v % d;
    assert (p - q) * d == p * d - q * d && (q - p) * d == q * d - p * d;
    if p > q { MulAtLeast(p - q, d); }
    if q > p { MulAtLeast(q - p, d); }
  }

  lemma {:induction false} Power256Add(a: nat, b: nat)
    ensures Power256(a + b) == Power256(a) * Power256(b)
  {
    if a > 0 {
      Power256Add(a - 1, b);
      MulAssoc(0x100, Power256(a - 1), Power256(b));
    }
  }

  lemma MulAssoc(a: int, b: int, c: int)
    ensures (a * b) * c == a * (b * c)
  {
  }

  lemma {:induction false} FromLeConcat(a: seq<byte>, b: seq<byte>)
    ensures FromLe(a + b) == FromLe(a) + Power256(|a|) * FromLe(b)
  {
    if a == [] {
      assert a + b == b;
    } else {
      FromLeConcat(a[1..], b);
      assert (a + b)[1..] == a[1..] + b;
      MulAssoc(0x100, Power256(|a| - 1), FromLe(b));
    }
  }

  lemma {:induction false} Power256Grows(a: nat, b: nat)
    requires a <= b
    ensures 1 <= Power256(a) <= Power256(b)
  {
    if a < b {
      Power256Grows(a, b - 1);
    } else if a > 0 {
      Power256Grows(a - 1, a - 1);
    }
  }

  lemma {:induction false} LeBounded(s: seq<byte>)
    ensures FromLe(s) < Power256(|s|)
  {
    if s != [] { LeBounded(s[1..]); }
  }

  lemma DivFacts(a: nat, d: int)
    requires d > 0
    ensures var q := a / d; a == q * d + a % d && 0 <= q <= a && 0 <= a % d < d
  {
    MulAtLeast(a / d, d);
  }

  /** The low `n` bytes of a number, and the rest of it. */
  function LowBytes(v: nat, n: nat): nat { DivFacts(v, Power256(n)); v % Power256(n) }

  function HighBytes(v: nat, n: nat): nat { DivFacts(v, Power256(n)); v / Power256(n) }

  /** Dividing by 256 and then by a power of it. */
  lemma DivStep(v: nat, n: nat)
    requires n > 0
    ensures HighBytes(v, n) == HighBytes(v / 0x100, n - 1)
    ensures LowBytes(v, n) % 0x100 == v % 0x100 && LowBytes(v, n) / 0x100 == LowBytes(v / 0x100, n - 1)
  {
    var p, c, w := Power256(n - 1), v % 0x100, v / 0x100;
    var q, r := HighBytes(w, n - 1), LowBytes(w, n - 1);
    DivFacts(w, p);
    assert w == q * p + r;
    assert q * Power256(n) == 0x100 * (q * p);
    DivUnique(v, Power256(n), q, 0x100 * r + c);
    DivUnique(0x100 * r + c, 0x100, r, c);
  }

  lemma {:induction false} LeAt(v: nat, width: nat, i: nat)
    requires i < width
    ensures Le(v, width)[i] as int == HighBytes(v, i) % 0x100
  {
    if i > 0 {
      DivStep(v, i);
      LeAt(v / 0x100, width - 1, i - 1);
    }
  }

  lemma {:induction false} LeSplit(v: nat, a: nat, b: nat)
    ensures Le(v, a + b) == Le(LowBytes(v, a), a) + Le(HighBytes(v, a), b)
  {
    if a == 0 {
      assert Le(LowBytes(v, 0), 0) + Le(v, b) == Le(v, b);
    } else {
      hide Le, LowBytes, HighBytes;
      DivStep(v, a);
      LeSplit(v / 0x100, a - 1, b);
      var head := [(v % 0x100) as byte];
      var low, high := Le(LowBytes(v / 0x100, a - 1), a - 1), Le(HighBytes(v, a), b);
      LeStep(v, a + b);
      LeStep(LowBytes(v, a), a);
      assert head + (low + high) == (head + low) + high;
    }
  }

  lemma LeStep(v: nat, width: nat)
    requires width > 0
    ensures Le(v, width) == [(v % 0x100) as byte] + Le(v / 0x100, width - 1)
  {
  }

  lemma {:induction false} LePrefix(v: nat, a: nat, b: nat)
    requires a <= b
    ensures Le(v, b)[..a] == Le(v, a)
  {
    if a > 0 {
      LePrefix(v / 0x100, a - 1, b - 1);
      assert Le(v, b)[..a] == [(v % 0x100) as byte] + Le(v / 0x100, b - 1)[..a - 1];
    }
  }

  function Splice(d: seq<byte>, at: nat, w: seq<byte>): (r: seq<byte>)
    requires at + |w| <= |d|
    ensures |r| == |d|
  {
    d[..at] + w + d[at + |w|..]
  }

  method Put(dst: array<byte>, at: nat, w: seq<byte>)
    requires at + |w| <= dst.Length
    modifies dst
    ensures dst[..] == Splice(old(dst[..]), at, w)
  {
    forall i | 0 <= i < |w| {
      dst[at + i] := w[i];
    }
  }

  lemma SpliceThen(d: seq<byte>, at: nat, a: seq<byte>, b: seq<byte>)
    requires at + |a| + |b| <= |d|
    ensures Splice(Splice(d, at, a), at + |a|, b) == Splice(d, at, a + b)
    ensures Splice(Splice(d, at + |a|, b), at, a) == Splice(d, at, a + b)
  {}

  /** A splice shows its bytes where it was made and leaves everything else alone. */
  lemma SpliceRead(d: seq<byte>, at: nat, w: seq<byte>)
    requires at + |w| <= |d|
    ensures Splice(d, at, w)[at..at + |w|] == w
    ensures forall i :: 0 <= i < |d| && (i < at || at + |w| <= i) ==> Splice(d, at, w)[i] == d[i]
  {}

  lemma SpliceByElement(d: seq<byte>, at: nat, w: seq<byte>, r: seq<byte>)
    requires at + |w| <= |d| == |r|
    requires forall k :: 0 <= k < |w| ==> r[at + k] == w[k]
    requires forall k :: 0 <= k < |d| && !(at <= k < at + |w|) ==> r[k] == d[k]
    ensures r == Splice(d, at, w)
  {
    forall k | 0 <= k < |d| ensures r[k] == Splice(d, at, w)[k] {
      if at <= k < at + |w| {
        assert r[at + (k - at)] == w[k - at];
      }
    }
  }

  /** Positions claimed by rows `begin..end` given their start and size. */
  ghost predicate Apart(start: seq<nat>, wire: seq<nat>, begin: nat, end: nat) {
    && begin <= end <= |start| && end <= |wire|
    && forall p, q :: begin <= p < end && begin <= q < end && p != q ==>
         start[p] + wire[p] <= start[q] || start[q] + wire[q] <= start[p]
  }

  /** Cursors laid out row after row, each at least `wire` past the one before, never meet. */
  lemma {:induction false} PackedRowsApart(start: seq<nat>, wire: seq<nat>, begin: nat, end: nat)
    requires begin <= end <= |start| && end <= |wire|
    requires forall p :: begin <= p && p + 1 < end ==> start[p] + wire[p] <= start[p + 1]
    ensures Apart(start, wire, begin, end)
    decreases end - begin
  {
    if begin < end {
      PackedRowsApart(start, wire, begin + 1, end);
      forall q | begin < q < end ensures start[begin] + wire[begin] <= start[q] {
        PackedAhead(start, wire, begin, q, end);
      }
    }
  }

  lemma {:induction false} PackedAhead(start: seq<nat>, wire: seq<nat>, p: nat, q: nat, end: nat)
    requires p < q < end <= |start| && end <= |wire|
    requires forall k :: p <= k && k + 1 < end ==> start[k] + wire[k] <= start[k + 1]
    ensures start[p] + wire[p] <= start[q]
    decreases q
  {
    if p + 1 < q {
      PackedAhead(start, wire, p, q - 1, end);
      assert start[q - 1] + wire[q - 1] <= start[q - 1 + 1];
    }
  }

  ghost predicate OutsideRows(start: seq<nat>, wire: seq<nat>, begin: nat, end: nat, i: nat)
    requires end <= |start| && end <= |wire|
  {
    forall q :: begin <= q < end ==> i < start[q] || start[q] + wire[q] <= i
  }

  /** The bytes of a row lie at its start. */
  ghost predicate Placed(d: seq<byte>, start: nat, w: seq<byte>) { start + |w| <= |d| && d[start..start + |w|] == w }

  lemma PlacedHere(d: seq<byte>, at: nat, w: seq<byte>)
    requires at + |w| <= |d|
    ensures Placed(Splice(d, at, w), at, w)
  {
    SpliceRead(d, at, w);
  }

  lemma PlacedSurvives(d: seq<byte>, at: nat, w: seq<byte>, start: nat, x: seq<byte>)
    requires at + |w| <= |d| && Placed(d, start, x) && (start + |x| <= at || at + |w| <= start)
    ensures Placed(Splice(d, at, w), start, x)
  {
    hide Splice;
    SpliceRead(d, at, w);
    assert Splice(d, at, w)[start..start + |x|] == d[start..start + |x|];
  }

  ghost predicate Inside(starts: seq<nat>, sizes: seq<nat>, length: nat)
    requires |starts| == |sizes|
  {
    forall q :: 0 <= q < |starts| ==> starts[q] + sizes[q] <= length
  }

  /** The first rows of a block, each with its bytes at its start. */
  ghost predicate Scattered(d: seq<byte>, starts: seq<nat>, wires: seq<seq<byte>>)
    requires |wires| <= |starts|
  {
    forall q :: 0 <= q < |wires| ==> Placed(d, starts[q], wires[q])
  }

  /** The rows written so far have their sizes. */
  ghost predicate Sizing(wires: seq<seq<byte>>, sizes: seq<nat>)
    requires |wires| <= |sizes|
  {
    forall q :: 0 <= q < |wires| ==> |wires[q]| == sizes[q]
  }

  /** Nothing outside the first `n` rows differs from `d0`. */
  ghost predicate Untouched(d: seq<byte>, d0: seq<byte>, starts: seq<nat>, sizes: seq<nat>, n: nat)
    requires n <= |starts| == |sizes|
  {
    |d| == |d0| && forall i :: 0 <= i < |d| && OutsideRows(starts, sizes, 0, n, i) ==> d[i] == d0[i]
  }

  /** What the loop of a kernel keeps. */
  ghost predicate Progress(d: seq<byte>, d0: seq<byte>, starts: seq<nat>, sizes: seq<nat>, wires: seq<seq<byte>>) {
    |wires| <= |starts| == |sizes|
    && Scattered(d, starts, wires) && Sizing(wires, sizes) && Untouched(d, d0, starts, sizes, |wires|)
  }

  lemma ProgressStart(d: seq<byte>, starts: seq<nat>, sizes: seq<nat>)
    requires |starts| == |sizes|
    ensures Progress(d, d, starts, sizes, [])
  {
  }

  /** Writing one more row disturbs no row before it and nothing outside it. */
  lemma ProgressStep(d: seq<byte>, d0: seq<byte>, starts: seq<nat>, sizes: seq<nat>, wires: seq<seq<byte>>, w: seq<byte>)
    requires Progress(d, d0, starts, sizes, wires) && |wires| < |starts| && Apart(starts, sizes, 0, |starts|)
    requires |w| == sizes[|wires|] && starts[|wires|] + |w| <= |d|
    ensures Progress(Splice(d, starts[|wires|], w), d0, starts, sizes, wires + [w])
  {
    hide Splice, Placed;
    var r := |wires|;
    SpliceRead(d, starts[r], w);
    PlacedHere(d, starts[r], w);
    forall q | 0 <= q < r ensures Placed(Splice(d, starts[r], w), starts[q], wires[q]) {
      PlacedSurvives(d, starts[r], w, starts[q], wires[q]);
    }
  }

  lemma ProgressEnds(d: seq<byte>, d0: seq<byte>, starts: seq<nat>, sizes: seq<nat>, wires: seq<seq<byte>>)
    requires Progress(d, d0, starts, sizes, wires) && |wires| == |starts|
    ensures Scattered(d, starts, wires) && Untouched(d, d0, starts, sizes, |starts|)
  {
  }

  /** A row begun and given up stays within its own place. */
  lemma ProgressStops(d: seq<byte>, d0: seq<byte>, starts: seq<nat>, sizes: seq<nat>, wires: seq<seq<byte>>, junk: seq<byte>)
    requires Progress(d, d0, starts, sizes, wires) && |wires| < |starts|
    requires |junk| <= sizes[|wires|] && starts[|wires|] + sizes[|wires|] <= |d|
    ensures Untouched(Splice(d, starts[|wires|], junk), d0, starts, sizes, |starts|)
  {
    hide Splice, Placed;
    SpliceRead(d, starts[|wires|], junk);
  }

  /** Where a kernel writes row `r` of a block: at a constant stride, or at a cursor kept for each row. */
  datatype Position = Strided(base: nat, stride: nat) | Cursors(base: nat, begin: nat) {
    predicate Covers(cursors: nat, rows: nat) { Cursors? ==> begin + rows <= cursors }

    function At(cursor: seq<nat>, r: nat): nat
      requires Covers(|cursor|, r + 1)
    {
      if Strided? then base + r * stride else base + cursor[begin + r]
    }

    function Starts(cursor: seq<nat>, rows: nat): (s: seq<nat>)
      requires Covers(|cursor|, rows)
      ensures |s| == rows
    {
      seq(rows, r requires 0 <= r < rows => At(cursor, r))
    }

    /** The cursors after the first rows, of these sizes, were written. */
    ghost function Advanced(cursor: seq<nat>, sizes: seq<nat>): (after: seq<nat>)
      ensures |after| == |cursor|
    {
      seq(|cursor|, q requires 0 <= q < |cursor| =>
        cursor[q] + if Cursors? && begin <= q < begin + |sizes| then sizes[q - begin] else 0)
    }

    lemma AdvanceNone(cursor: seq<nat>)
      ensures Advanced(cursor, []) == cursor
    {
    }

    lemma AtStart(cursor: seq<nat>, sizes: seq<nat>, r: nat, rows: nat)
      requires Covers(|cursor|, rows) && r < rows == |sizes|
      ensures At(Advanced(cursor, sizes[..r]), r) == Starts(cursor, rows)[r]
    {
    }

    lemma AdvanceOne(cursor: seq<nat>, sizes: seq<nat>, r: nat)
      requires Covers(|cursor|, r + 1) && r < |sizes|
      ensures var before := Advanced(cursor, sizes[..r]);
              (Cursors? ==> before[begin + r] == cursor[begin + r])
              && Advanced(cursor, sizes[..r + 1]) == if Strided? then before else before[begin + r := cursor[begin + r] + sizes[r]]
    {
    }

    /** Record how many bytes row `r` took; a stride needs no record. */
    method Advance(cursor: array<nat>, r: nat, bytes: nat)
      requires Covers(cursor.Length, r + 1)
      modifies cursor
      ensures cursor[..] == if Strided? then old(cursor[..]) else old(cursor[..])[begin + r := old(cursor[begin + r]) + bytes]
    {
      if Cursors? { cursor[begin + r] := cursor[begin + r] + bytes; }
    }
  }

  /** A numeric vector in DuckDB's unified format: row `r` reads slot `sel[r]`, or slot `r` without a selection. */
  datatype NumberFormat = NumberFormat(data: seq<int>, sel: Option<seq<nat>>, validity: seq<bool>) {
    predicate Covers(end: nat) {
      |data| == |validity| && (sel.Some? ==> end <= |sel.value|) && forall r :: 0 <= r < end ==> Slot(r) < |data|
    }

    function Slot(r: nat): nat { if sel.Some? && r < |sel.value| then sel.value[r] else r }

    function At(r: nat): Option<int>
      requires |data| == |validity| && Slot(r) < |data|
    {
      if validity[Slot(r)] then Some(data[Slot(r)]) else None
    }

    function Rows(begin: nat, rows: nat): (values: seq<Option<int>>)
      requires Covers(begin + rows)
      ensures |values| == rows
    {
      seq(rows, r requires 0 <= r < rows => At(begin + r))
    }
  }
}
