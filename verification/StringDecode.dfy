/** Batch UTF-16 to UTF-8 decode of a staged column: one conversion call for the whole column, then four
    ways of finding the value boundaries again (src/codec/string_codec.cpp:128-140, 263-540, 784-852). */
module StringDecode {
  import opened Unicode
  import opened Staging
  import WordScan

  const MEMCHR_THRESHOLD_BYTES := 256

  /** What one value must decode to, whatever else the column holds. */
  function Decoded(trim: bool, v: seq<unit>): seq<byte> {
    if trim then Trim(ToUtf8(v), 0x20) else ToUtf8(v)
  }

  predicate HasNul(vals: seq<Value>) {
    exists r :: 0 <= r < |vals| && vals[r].Some? && 0 in vals[r].value
  }

  // ---------------------------------------------------------------- the shape of the converted blob

  function OutCell(v: Value): seq<byte> { if v.Some? then ToUtf8(v.value) + [0] else [] }

  function Blob(vals: seq<Value>): seq<byte> {
    if vals == [] then [] else Blob(vals[..|vals| - 1]) + OutCell(vals[|vals| - 1])
  }

  lemma BlobStep(vals: seq<Value>, r: nat)
    requires r < |vals|
    ensures Blob(vals[..r + 1]) == Blob(vals[..r]) + OutCell(vals[r])
    ensures Payload(vals[..r + 1]) == Payload(vals[..r]) + Cell(vals[r])
    ensures NonNull(vals[..r + 1]) == NonNull(vals[..r]) + if vals[r].Some? then 1 else 0
  {
    assert vals[..r + 1][..r] == vals[..r];
  }

  /** A delimiter is never half of a surrogate pair. */
  lemma ConvertCell(before: seq<unit>, v: seq<unit>)
    requires before == [] || before[|before| - 1] == 0
    ensures ToUtf8(before + (v + [0])) == ToUtf8(before) + (ToUtf8(v) + [0])
  {
    hide ToUtf8;
    ToUtf8Concat(before, v + [0]);
    ToUtf8Snoc(v, 0);
  }

  lemma {:induction false} PayloadEndsDelimited(vals: seq<Value>)
    ensures Payload(vals) == [] || Payload(vals)[|Payload(vals)| - 1] == 0
  {
    if vals != [] {
      PayloadEndsDelimited(vals[..|vals| - 1]);
    }
  }

  lemma ConvertSnoc(vals: seq<Value>, v: Value)
    requires ToUtf8(Payload(vals)) == Blob(vals)
    ensures ToUtf8(Payload(vals) + Cell(v)) == Blob(vals) + OutCell(v)
  {
    hide ToUtf8, Payload, Blob;
    if v.Some? {
      PayloadEndsDelimited(vals);
      ConvertCell(Payload(vals), v.value);
    } else {
      assert Payload(vals) + [] == Payload(vals) && Blob(vals) + [] == Blob(vals);
    }
  }

  lemma BlobEmpty()
    ensures ToUtf8(Payload([])) == Blob([])
  {}

  /** Converting the whole column at once is converting value by value, delimiters included. */
  lemma {:induction false} BlobIsConversion(vals: seq<Value>)
    ensures ToUtf8(Payload(vals)) == Blob(vals)
  {
    hide *;
    if vals == [] {
      BlobEmpty();
    } else {
      BlobIsConversion(vals[..|vals| - 1]);
      ConvertSnoc(vals[..|vals| - 1], vals[|vals| - 1]);
      BlobStep(vals, |vals| - 1);
      assert vals[..|vals|] == vals;
    }
  }

  /** Row `r` of the blob lies between the encodings of the rows before it and after it. */
  lemma {:induction false} BlobPrefix(vals: seq<Value>, r: nat)
    requires r <= |vals|
    ensures Blob(vals[..r]) <= Blob(vals)
    decreases |vals|
  {
    if r < |vals| {
      assert vals[..|vals| - 1][..r] == vals[..r];
      BlobPrefix(vals[..|vals| - 1], r);
    } else {
      assert vals[..r] == vals;
    }
  }

  lemma Middle<T>(whole: seq<T>, before: seq<T>, mid: seq<T>, last: T)
    requires before + (mid + [last]) <= whole
    ensures |before| + |mid| < |whole|
    ensures whole[|before|..|before| + |mid|] == mid && whole[|before| + |mid|] == last
  {
    var p := before + (mid + [last]);
    assert p == whole[..|p|];
    assert forall k :: 0 <= k < |mid| ==> whole[|before| + k] == p[|before| + k] == mid[k];
    assert whole[|before| + |mid|] == p[|before| + |mid|];
  }

  /** Where the bytes of row `r` and its delimiter are. */
  lemma BlobRow(vals: seq<Value>, r: nat)
    requires r < |vals| && vals[r].Some?
    ensures var s, n := |Blob(vals[..r])|, |ToUtf8(vals[r].value)|;
            && |Blob(vals[..r + 1])| == s + n + 1 <= |Blob(vals)|
            && Blob(vals)[s..s + n] == ToUtf8(vals[r].value) && Blob(vals)[s + n] == 0
  {
    hide Blob, Payload, NonNull, ToUtf8;
    BlobStep(vals, r);
    BlobPrefix(vals, r + 1);
    Middle(Blob(vals), Blob(vals[..r]), ToUtf8(vals[r].value), 0);
  }

  /** Zero bytes of the blob: one per value, plus the U+0000 units inside values. */
  function OwnZeros(vals: seq<Value>): nat {
    if vals == [] then 0
    else OwnZeros(vals[..|vals| - 1]) + if vals[|vals| - 1].Some? then Count(vals[|vals| - 1].value, 0) else 0
  }

  lemma {:induction false} OwnZerosNone(vals: seq<Value>)
    ensures OwnZeros(vals) == 0 <==> !HasNul(vals)
  {
    if vals != [] {
      var init, v := vals[..|vals| - 1], vals[|vals| - 1];
      OwnZerosNone(init);
      if v.Some? {
        CountNone(v.value, 0);
      }
      assert forall r :: 0 <= r < |init| ==> vals[r] == init[r];
    }
  }

  lemma OutCellZeros(v: Value)
    ensures Count(OutCell(v), 0) == if v.Some? then Count(v.value, 0) + 1 else 0
  {
    if v.Some? {
      hide ToUtf8;
      ToUtf8Zeros(v.value);
      CountConcat(ToUtf8(v.value), [0], 0);
    }
  }

  lemma {:induction false} BlobZeros(vals: seq<Value>)
    ensures Count(Blob(vals), 0) == NonNull(vals) + OwnZeros(vals)
  {
    if vals != [] {
      hide Count, OutCell;
      var init, v := vals[..|vals| - 1], vals[|vals| - 1];
      BlobZeros(init);
      OutCellZeros(v);
      CountConcat(Blob(init), OutCell(v), 0);
    }
  }

  // ---------------------------------------------------------------- conversion into the blob

  method CopyInto(dst: array<byte>, at: nat, bytes: seq<byte>)
    requires at + |bytes| <= dst.Length
    modifies dst
    ensures dst[..at + |bytes|] == old(dst[..at]) + bytes
  {
    forall i | 0 <= i < |bytes| {
      dst[at + i] := bytes[i];
    }
  }

  /** The checked converter: bytes written, or 0 when the input is ill-formed. */
  method ConvertChecked(src: seq<unit>, dst: array<byte>) returns (written: nat)
    requires |ToUtf8(src)| <= dst.Length
    modifies dst
    ensures written <= dst.Length
    ensures written == if Valid16(src) then |ToUtf8(src)| else 0
    ensures Valid16(src) ==> dst[..written] == ToUtf8(src)
  {
    if Valid16(src) {
      written := |ToUtf8(src)|;
      CopyInto(dst, 0, ToUtf8(src));
    } else {
      written := 0;
    }
  }

  /** Bulk runs with U+FFFD between them give the replacing conversion of the whole. */
  method ConvertReplacingInvalid(src: seq<unit>, dst: array<byte>) returns (out: nat, replaced: nat)
    requires |ToUtf8(src)| <= dst.Length
    modifies dst
    ensures out == |ToUtf8(src)| && dst[..out] == ToUtf8(src)
    ensures replaced == IllFormed(src)
  {
    hide ToUtf8, IllFormed, ValidUnits, Valid16;
    var at := 0;
    out, replaced := 0, 0;
    assert src[0..] == src && dst[..0] == [];
    while at < |src|
      invariant at <= |src| && out <= dst.Length
      invariant ToUtf8(src) == dst[..out] + ToUtf8(src[at..])
      invariant IllFormed(src) == replaced + IllFormed(src[at..])
    {
      ghost var rest, done := src[at..], dst[..out];
      var run := ValidUnits(src[at..]);
      var ok := run == |src| - at;
      ConvertRun(src, at, done);
      var bytes := ToUtf8(src[at..][..run]);
      CopyInto(dst, out, bytes);
      out := out + |bytes|;
      if ok {
        return;
      }
      CopyInto(dst, out, REPLACEMENT);
      out, at, replaced := out + 3, at + run + 1, replaced + 1;
    }
    ConvertEnd(src[at..]);
  }

  /** One turn of the loop: the valid run, and unless it is the last, one replacement. */
  lemma ConvertRun(src: seq<unit>, at: nat, done: seq<byte>)
    requires at < |src| && ToUtf8(src) == done + ToUtf8(src[at..])
    ensures var rest := src[at..]; var run := ValidUnits(rest); var bytes := ToUtf8(rest[..run]);
            if run == |rest| then ToUtf8(src) == done + bytes && IllFormed(rest) == 0
            else ToUtf8(src) == done + bytes + REPLACEMENT + ToUtf8(src[at + run + 1..])
                 && IllFormed(rest) == 1 + IllFormed(src[at + run + 1..])
  {
    hide *;
    var rest := src[at..];
    var run := ValidUnits(rest);
    ToUtf8Resume(rest);
    ValidUnitsIsValid(rest);
    if run == |rest| {
      assert rest[..run] == rest;
    } else {
      assert rest[run + 1..] == src[at + run + 1..];
      Assoc(done, ToUtf8(rest[..run]), REPLACEMENT);
      Assoc(done, ToUtf8(rest[..run]) + REPLACEMENT, ToUtf8(rest[run + 1..]));
    }
  }

  lemma ConvertEnd(rest: seq<unit>)
    ensures rest == [] ==> ToUtf8(rest) == [] && IllFormed(rest) == 0
  {}

  // ---------------------------------------------------------------- storing values

  method TrimTrailingUtf8Spaces(data: array<byte>, from: nat, length: nat) returns (n: nat)
    requires from + length <= data.Length
    ensures n <= length && data[from..from + n] == Trim(data[from..from + length], 0x20)
  {
    n := length;
    while n > 0 && data[from + n - 1] == 0x20
      invariant n <= length
      invariant Trim(data[from..from + n], 0x20) == Trim(data[from..from + length], 0x20)
    {
      assert data[from..from + n] == data[from..from + n - 1] + [0x20];
      TrimSnoc(data[from..from + n - 1], 0x20, 0x20);
      n := n - 1;
    }
  }

  method StoreValue(trim: bool, result: array<seq<byte>>, row: nat, data: array<byte>, from: nat, length: nat)
    requires row < result.Length && from + length <= data.Length
    modifies result
    ensures result[..] == old(result[..])[row := if trim then Trim(data[from..from + length], 0x20) else data[from..from + length]]
  {
    hide Trim;
    var n := length;
    if trim {
      n := TrimTrailingUtf8Spaces(data, from, length);
    }
    result[row] := data[from..from + n];
  }

  lemma PrefixSlice(a: array<byte>, n: nat, i: nat, j: nat)
    requires i <= j <= n <= a.Length
    ensures a[..n][i..j] == a[i..j]
  {}

  /** Rows below `n` hold their decoded value. */
  ghost predicate RowsDecoded(trim: bool, vals: seq<Value>, res: seq<seq<byte>>, n: nat) {
    n <= |vals| <= |res| && forall r :: 0 <= r < n && vals[r].Some? ==> res[r] == Decoded(trim, vals[r].value)
  }

  /** NULL rows, and rows past the column, are as they were. */
  ghost predicate Untouched(vals: seq<Value>, before: seq<seq<byte>>, after: seq<seq<byte>>) {
    && |vals| <= |before| == |after|
    && forall r :: 0 <= r < |after| && (r >= |vals| || vals[r].None?) ==> after[r] == before[r]
  }

  lemma StoreRow(trim: bool, vals: seq<Value>, before: seq<seq<byte>>, res: seq<seq<byte>>, row: nat, x: seq<byte>)
    requires row < |vals| && vals[row].Some? && Untouched(vals, before, res)
    ensures Untouched(vals, before, res[row := x])
    ensures RowsDecoded(trim, vals, res, row) && x == Decoded(trim, vals[row].value)
            ==> RowsDecoded(trim, vals, res[row := x], row + 1)
  {}

  lemma SkipRow(trim: bool, vals: seq<Value>, res: seq<seq<byte>>, row: nat)
    requires row < |vals| && vals[row].None? && RowsDecoded(trim, vals, res, row)
    ensures RowsDecoded(trim, vals, res, row + 1)
  {}

  // ---------------------------------------------------------------- the boundary strategies

  lemma {:induction false} NonNullPrefix(vals: seq<Value>, r: nat)
    requires r <= |vals|
    ensures NonNull(vals[..r]) <= NonNull(vals)
  {
    if r < |vals| {
      NonNullPrefix(vals[..|vals| - 1], r);
      assert vals[..|vals| - 1][..r] == vals[..r];
    } else {
      assert vals[..r] == vals;
    }
  }

  lemma CountSlice<T>(s: seq<T>, x: T, i: nat, j: nat)
    requires i <= j <= |s|
    ensures Count(s[..j], x) == Count(s[..i], x) + Count(s[i..j], x)
    ensures Count(s, x) == Count(s[..j], x) + Count(s[j..], x)
  {
    assert s[..j] == s[..i] + s[i..j] && s == s[..j] + s[j..];
    CountConcat(s[..i], s[i..j], x);
    CountConcat(s[..j], s[j..], x);
  }

  /** What a search from `from` to the first zero at `hit` does to the zero count. */
  lemma CountHit(b: seq<byte>, from: nat, hit: nat)
    requires from <= hit <= |b| && forall k :: from <= k < hit ==> b[k] != 0
    ensures Count(b[..hit], 0) == Count(b[..from], 0)
    ensures hit < |b| && b[hit] == 0 ==> Count(b[..hit + 1], 0) == Count(b[..from], 0) + 1
  {
    hide Count;
    CountSlice(b, 0, from, hit);
    CountNone(b[from..hit], 0);
    if hit < |b| && b[hit] == 0 {
      assert b[..hit + 1] == b[..hit] + [0];
      CountConcat(b[..hit], [0], 0);
      CountOne();
    }
  }

  lemma CountOne()
    ensures Count<byte>([0], 0) == 1
  {
    assert Count<byte>([], 0) == 0;
  }

  /** The walk's next zero exists, and without inner U+0000 it is the row's own delimiter. */
  lemma WalkHit(vals: seq<Value>, row: nat, from: nat, hit: nat)
    requires row < |vals| && vals[row].Some?
    requires var b := Blob(vals);
             && from <= hit <= |b| && (forall k :: from <= k < hit ==> b[k] != 0) && (hit < |b| ==> b[hit] == 0)
             && Count(b[..from], 0) == NonNull(vals[..row])
    ensures hit < |Blob(vals)| && Count(Blob(vals)[..hit + 1], 0) == NonNull(vals[..row + 1])
    ensures !HasNul(vals) && from == |Blob(vals[..row])| ==>
              hit + 1 == |Blob(vals[..row + 1])| && Blob(vals)[from..hit] == ToUtf8(vals[row].value)
  {
    hide Blob, Count, NonNull, Payload, ToUtf8, HasNul;
    var b := Blob(vals);
    CountHit(b, from, hit);
    BlobZeros(vals);
    BlobStep(vals, row);
    NonNullPrefix(vals, row + 1);
    assert b[..|b|] == b;
    if !HasNul(vals) && from == |Blob(vals[..row])| {
      BlobRow(vals, row);
      NoNulRow(vals, row);
      var n := |ToUtf8(vals[row].value)|;
      assert forall k :: from <= k < from + n ==> b[k] == b[from..from + n][k - from];
    }
  }

  lemma NoNulRow(vals: seq<Value>, row: nat)
    requires row < |vals| && vals[row].Some? && !HasNul(vals)
    ensures 0 !in ToUtf8(vals[row].value)
  {
    ToUtf8Zeros(vals[row].value);
    CountNone(vals[row].value, 0);
    CountNone(ToUtf8(vals[row].value), 0);
  }

  /** Having consumed one zero per value, the walk is at the end exactly when no value holds U+0000. */
  lemma WalkEnd(vals: seq<Value>, end: nat)
    requires end <= |Blob(vals)| && Count(Blob(vals)[..end], 0) == NonNull(vals)
    requires !HasNul(vals) ==> end == |Blob(vals)|
    ensures end == |Blob(vals)| <==> !HasNul(vals)
  {
    hide Blob, Count, NonNull;
    BlobZeros(vals);
    OwnZerosNone(vals);
    if end == |Blob(vals)| {
      assert Blob(vals)[..end] == Blob(vals);
    }
  }

  /** Each value takes the next zero byte; where the walk ends tells whether that was right. */
  method WalkDelimited(st: ColumnStaging, trim: bool, memchr: bool, blob: array<byte>, written: nat,
                       result: array<seq<byte>>) returns (offset: nat)
    requires st.Valid() && st.count <= result.Length
    requires written <= blob.Length && blob[..written] == Blob(st.values)
    modifies result
    ensures Untouched(st.values, old(result[..]), result[..])
    ensures offset == written <==> !HasNul(st.values)
    ensures offset == written ==> RowsDecoded(trim, st.values, result[..], st.count)
  {
    hide Blob, Count, NonNull, Payload, HasNul, Trim, ToUtf8, RowsDecoded, Untouched;
    ghost var vals, b, before := st.values, Blob(st.values), result[..];
    assert Untouched(vals, before, before) && RowsDecoded(trim, vals, before, 0) by {
      RowsStart(trim, vals, before);
    }
    WalkStart(vals);
    offset := 0;
    for row := 0 to st.count
      invariant offset <= written && Count(b[..offset], 0) == NonNull(vals[..row])
      invariant !HasNul(vals) ==> offset == |Blob(vals[..row])| && RowsDecoded(trim, vals, result[..], row)
      invariant Untouched(vals, before, result[..])
      invariant st.Valid() && blob[..written] == b
    {
      assert RowStaged(vals, row, st.offsets[row], st.lengths[row], st.validity[row]);
      if !st.validity[row] {
        BlobStep(vals, row);
        NullStep(vals, row);
        if !HasNul(vals) {
          SkipRow(trim, vals, result[..], row);
        }
        continue;
      }
      var delimiter := WordScan.FindDelimiter(memchr, blob, offset, written);
      assert forall k :: offset <= k < delimiter ==> b[k] == blob[k];
      WalkHit(vals, row, offset, delimiter);
      PrefixSlice(blob, written, offset, delimiter);
      StoreRow(trim, vals, before, result[..], row,
               if trim then Trim(b[offset..delimiter], 0x20) else b[offset..delimiter]);
      StoreValue(trim, result, row, blob, offset, delimiter - offset);
      offset := delimiter + 1;
    }
    assert vals[..st.count] == vals;
    WalkEnd(vals, offset);
  }

  lemma RowsStart(trim: bool, vals: seq<Value>, res: seq<seq<byte>>)
    requires |vals| <= |res|
    ensures Untouched(vals, res, res) && RowsDecoded(trim, vals, res, 0)
  {}

  lemma WalkStart(vals: seq<Value>)
    ensures Count(Blob(vals)[..0], 0) == NonNull(vals[..0]) == 0 && |Blob(vals[..0])| == 0
  {}

  lemma NullStep(vals: seq<Value>, row: nat)
    requires row < |vals| && vals[row].None?
    ensures Blob(vals[..row + 1]) == Blob(vals[..row]) && NonNull(vals[..row + 1]) == NonNull(vals[..row])
    ensures Payload(vals[..row + 1]) == Payload(vals[..row])
  {
    BlobStep(vals, row);
  }

  /** The zero that closes the row is the one with all of the row's own zeros before it. */
  lemma SplitHit(vals: seq<Value>, row: nat, pos: nat)
    requires row < |vals| && vals[row].Some?
    requires var b, s := Blob(vals), |Blob(vals[..row])|;
             s <= pos < |b| && b[pos] == 0 && Count(b[..pos], 0) == Count(b[..s], 0) + Count(vals[row].value, 0)
    ensures pos + 1 == |Blob(vals[..row + 1])|
    ensures Blob(vals)[|Blob(vals[..row])|..pos] == ToUtf8(vals[row].value)
  {
    hide *;
    SplitCounts(vals, row);
    BlobRow(vals, row);
    var end := |Blob(vals[..row + 1])| - 1;
    if pos < end {
      CountAdvance(Blob(vals), pos, end);
    } else if pos > end {
      CountAdvance(Blob(vals), end, pos);
    }
  }

  lemma CountAdvance(b: seq<byte>, i: nat, j: nat)
    requires i < j <= |b| && b[i] == 0
    ensures Count(b[..j], 0) > Count(b[..i], 0)
  {
    hide Count;
    CountSlice(b, 0, i + 1, j);
    assert b[..i + 1] == b[..i] + [0];
    CountConcat(b[..i], [0], 0);
    CountOne();
  }

  /** The row's delimiter is the zero unit after its own units. */
  lemma PayloadRow(vals: seq<Value>, row: nat)
    requires row < |vals| && vals[row].Some?
    ensures var s, n := |Payload(vals[..row])|, |vals[row].value|;
            && |Payload(vals[..row + 1])| == s + n + 1 <= |Payload(vals)|
            && Payload(vals)[s..s + n] == vals[row].value && Payload(vals)[s + n] == 0
  {
    hide Payload, Blob, NonNull;
    BlobStep(vals, row);
    PayloadPrefix(vals, row + 1);
    Middle(Payload(vals), Payload(vals[..row]), vals[row].value, 0);
  }

  lemma {:induction false} PayloadPrefix(vals: seq<Value>, r: nat)
    requires r <= |vals|
    ensures Payload(vals[..r]) <= Payload(vals)
    decreases |vals|
  {
    if r < |vals| {
      assert vals[..|vals| - 1][..r] == vals[..r];
      PayloadPrefix(vals[..|vals| - 1], r);
    } else {
      assert vals[..r] == vals;
    }
  }

  /** Zero units from `from` up to and including `last`. */
  method CountZeroUnits(src: seq<unit>, from: nat, last: nat) returns (zeros: nat)
    requires from <= last < |src|
    ensures zeros == Count(src[from..last + 1], 0)
  {
    zeros := 0;
    var at := from;
    assert src[from..from] == [];
    while at <= last
      invariant from <= at <= last + 1 && zeros == Count(src[from..at], 0)
    {
      assert src[from..at + 1][..at - from] == src[from..at];
      zeros := zeros + if src[at] == 0 then 1 else 0;
      at := at + 1;
    }
  }

  /** Step over `zeros - 1` zero bytes from `from` and stop at the next one. */
  method StepZeros(blob: array<byte>, from: nat, written: nat, zeros: nat) returns (pos: nat)
    requires from <= written <= blob.Length
    requires 0 < zeros && Count(blob[..from], 0) + zeros <= Count(blob[..written], 0)
    ensures from <= pos < written && blob[pos] == 0
    ensures Count(blob[..pos], 0) == Count(blob[..from], 0) + zeros - 1
  {
    hide Count;
    ghost var b, base := blob[..written], Count(blob[..from], 0);
    pos := from;
    var k := 0;
    assert b[..from] == blob[..from];
    while k < zeros
      invariant k <= zeros && from <= pos <= written
      invariant k < zeros ==> Count(b[..pos], 0) == base + k
      invariant k == zeros ==> pos < written && b[pos] == 0 && Count(b[..pos], 0) == base + zeros - 1
    {
      var hit := WordScan.FindDelimiter(false, blob, pos, written);
      CountHit(b, pos, hit);
      assert b[..|b|] == b;
      pos := hit;
      if k + 1 < zeros {
        pos := pos + 1;
      }
      k := k + 1;
    }
    assert b[..pos] == blob[..pos];
  }

  /** The row's own zeros, its delimiter included, in the input and in the output. */
  lemma SplitCounts(vals: seq<Value>, row: nat)
    requires row < |vals| && vals[row].Some?
    ensures var s, n := |Payload(vals[..row])|, |vals[row].value|;
            s + n < |Payload(vals)| && Count(Payload(vals)[s..s + n + 1], 0) == Count(vals[row].value, 0) + 1
    ensures var b, s, e := Blob(vals), |Blob(vals[..row])|, |Blob(vals[..row + 1])|;
            s < e <= |b| && Count(b[..e - 1], 0) == Count(b[..s], 0) + Count(vals[row].value, 0)
            && Count(b[..s], 0) + Count(vals[row].value, 0) + 1 <= Count(b, 0)
  {
    hide *;
    PayloadRow(vals, row);
    BlobRow(vals, row);
    var v, p, s := vals[row].value, Payload(vals), |Payload(vals[..row])|;
    assert p[s..s + |v| + 1] == v + [0];
    CountConcat(v, [0], 0);
    CountOneUnit();
    ToUtf8Zeros(v);
    var b, t, n := Blob(vals), |Blob(vals[..row])|, |ToUtf8(v)|;
    CountSlice(b, 0, t, t + n);
    CountAdvance(b, t + n, t + n + 1);
    CountSlice(b, 0, t, t + n + 1);
  }

  lemma CountOneUnit()
    ensures Count<unit>([0], 0) == 1
  {
    assert Count<unit>([], 0) == 0;
  }

  /** Counting each value's own zero units in the input tells which zero bytes to step over. */
  method SplitWithEmbeddedNuls(st: ColumnStaging, trim: bool, blob: array<byte>, written: nat,
                               result: array<seq<byte>>)
    requires st.Valid() && st.count <= result.Length
    requires written <= blob.Length && blob[..written] == Blob(st.values)
    modifies result
    ensures Untouched(st.values, old(result[..]), result[..])
    ensures RowsDecoded(trim, st.values, result[..], st.count)
  {
    hide Blob, Count, NonNull, Payload, Trim, ToUtf8, RowsDecoded, Untouched;
    ghost var vals, b, before := st.values, Blob(st.values), result[..];
    RowsStart(trim, vals, before);
    WalkStart(vals);
    var inUnit, outPos := 0, 0;
    assert |Payload(vals[..0])| == 0 by { PayloadStart(vals); }
    for row := 0 to st.count
      invariant inUnit == |Payload(vals[..row])| && outPos == |Blob(vals[..row])|
      invariant Untouched(vals, before, result[..]) && RowsDecoded(trim, vals, result[..], row)
      invariant st.Valid() && blob[..written] == b
    {
      assert RowStaged(vals, row, st.offsets[row], st.lengths[row], st.validity[row]);
      if !st.validity[row] {
        NullStep(vals, row);
        SkipRow(trim, vals, result[..], row);
        continue;
      }
      var delimiterUnit := st.offsets[row] / 2 + st.lengths[row] / 2;
      SplitCounts(vals, row);
      PayloadRow(vals, row);
      var zeros := CountZeroUnits(st.payload, inUnit, delimiterUnit);
      inUnit := delimiterUnit + 1;
      assert blob[..outPos] == b[..outPos];
      var pos := StepZeros(blob, outPos, written, zeros);
      PrefixSlice(blob, written, 0, pos);
      PrefixSlice(blob, written, outPos, pos);
      SplitHit(vals, row, pos);
      StoreRow(trim, vals, before, result[..], row,
               if trim then Trim(b[outPos..pos], 0x20) else b[outPos..pos]);
      StoreValue(trim, result, row, blob, outPos, pos - outPos);
      outPos := pos + 1;
    }
  }

  lemma PayloadStart(vals: seq<Value>)
    ensures Payload(vals[..0]) == []
  {}

  /** In a pure ASCII column output offsets are input offsets halved. */
  lemma AsciiRow(vals: seq<Value>, row: nat)
    requires row < |vals| && vals[row].Some? && AllAscii(Payload(vals))
    ensures |Blob(vals[..row])| == |Payload(vals[..row])| && |ToUtf8(vals[row].value)| == |vals[row].value|
  {
    hide *;
    PayloadRow(vals, row);
    PayloadPrefix(vals, row);
    BlobIsConversion(vals[..row]);
    var p, s, v := Payload(vals), |Payload(vals[..row])|, vals[row].value;
    AsciiSplit(p, s);
    AsciiSplit(p[s..], |v|);
    assert p[..s] == Payload(vals[..row]) && p[s..][..|v|] == v;
    ToUtf8Length(p[..s]);
    ToUtf8Length(v);
  }

  method StoreAsciiOffsets(st: ColumnStaging, trim: bool, blob: array<byte>, result: array<seq<byte>>)
    requires st.Valid() && st.count <= result.Length && AllAscii(st.payload)
    requires |Blob(st.values)| <= blob.Length && blob[..|Blob(st.values)|] == Blob(st.values)
    modifies result
    ensures Untouched(st.values, old(result[..]), result[..])
    ensures RowsDecoded(trim, st.values, result[..], st.count)
  {
    hide Blob, Count, NonNull, Payload, Trim, ToUtf8, RowsDecoded, Untouched, AllAscii;
    ghost var vals, b, before := st.values, Blob(st.values), result[..];
    RowsStart(trim, vals, before);
    for row := 0 to st.count
      invariant Untouched(vals, before, result[..]) && RowsDecoded(trim, vals, result[..], row)
      invariant st.Valid() && blob[..|b|] == b
    {
      assert RowStaged(vals, row, st.offsets[row], st.lengths[row], st.validity[row]);
      if !st.validity[row] {
        SkipRow(trim, vals, result[..], row);
        continue;
      }
      AsciiRow(vals, row);
      BlobRow(vals, row);
      var from, length := st.offsets[row] / 2, st.lengths[row] / 2;
      PrefixSlice(blob, |b|, from, from + length);
      StoreRow(trim, vals, before, result[..], row,
               if trim then Trim(b[from..from + length], 0x20) else b[from..from + length]);
      StoreValue(trim, result, row, blob, from, length);
    }
  }

  // ---------------------------------------------------------------- the column

  lemma {:induction false} EmptyPayload(vals: seq<Value>)
    ensures Payload(vals) == [] <==> NonNull(vals) == 0
    ensures NonNull(vals) == 0 <==> forall r :: 0 <= r < |vals| ==> vals[r].None?
  {
    if vals != [] {
      EmptyPayload(vals[..|vals| - 1]);
      assert forall r :: 0 <= r < |vals| - 1 ==> vals[r] == vals[..|vals| - 1][r];
    }
  }

  /** The whole column: every non-NULL row is exactly its own value decoded, and the strategy taken says
      what the column holds. */
  method DecodeChunk(st: ColumnStaging, trim: bool, result: array<seq<byte>>)
    requires st.Valid() && st.count <= result.Length
    modifies result, st`boundary, st`replacedUnits
    ensures st.Valid()
    ensures Untouched(st.values, old(result[..]), result[..])
    ensures RowsDecoded(trim, st.values, result[..], st.count)
    ensures st.replacedUnits == old(st.replacedUnits) + IllFormed(st.payload)
    ensures var b := st.boundary;
            && (st.payload == [] ==> b == old(st.boundary))
            && (st.payload != [] ==>
                && (b == AsciiOffsets <==> AllAscii(st.payload))
                && (b == EmbeddedNul <==> !AllAscii(st.payload) && HasNul(st.values))
                && (b == Memchr ==> |ToUtf8(st.payload)| >= MEMCHR_THRESHOLD_BYTES * NonNull(st.values))
                && (b == Sweep ==> |ToUtf8(st.payload)| < MEMCHR_THRESHOLD_BYTES * NonNull(st.values))
                && b != NoBoundary)
  {
    hide Blob, Count, NonNull, Payload, Trim, ToUtf8, RowsDecoded, Untouched, AllAscii, HasNul, IllFormed, Valid16;
    hide RowStaged;
    ghost var vals := st.values;
    EmptyPayload(vals);
    BlobIsConversion(vals);
    ToUtf8Length(st.payload);
    ValidUnitsIsValid(st.payload);
    RowsStart(trim, vals, result[..]);
    var units := |st.payload|;
    if units == 0 {
      AllNull(trim, vals, result[..]);
      return;
    }
    StagedPayload(st);
    hide *;
    var blob := new byte[3 * units];
    var written := ConvertChecked(st.payload, blob);
    if written == 0 {
      var replaced;
      written, replaced := ConvertReplacingInvalid(st.payload, blob);
      st.replacedUnits := st.replacedUnits + replaced;
    } else if written == units {
      StoreAsciiOffsets(st, trim, blob, result);
      st.boundary := AsciiOffsets;
      return;
    }
    FindBoundaries(st, trim, blob, written, result);
  }

  /** The column is not pure ASCII: walk the delimiters, and walk again if the walk did not end on the
      last byte. */
  method FindBoundaries(st: ColumnStaging, trim: bool, blob: array<byte>, written: nat, result: array<seq<byte>>)
    requires st.Valid() && st.count <= result.Length && NonNull(st.values) > 0
    requires written <= blob.Length && blob[..written] == Blob(st.values)
    modifies result, st`boundary
    ensures st.Valid()
    ensures Untouched(st.values, old(result[..]), result[..])
    ensures RowsDecoded(trim, st.values, result[..], st.count)
    ensures st.boundary == if HasNul(st.values) then EmbeddedNul
                           else if written >= MEMCHR_THRESHOLD_BYTES * NonNull(st.values) then Memchr
                           else Sweep
  {
    hide Blob, Count, NonNull, Payload, Trim, ToUtf8, RowsDecoded, Untouched, AllAscii, HasNul, RowStaged;
    var values := st.count - st.nullCount;
    var useMemchr := written / values >= MEMCHR_THRESHOLD_BYTES;
    AverageRun(written, values);
    st.boundary := if useMemchr then Memchr else Sweep;
    var offset := WalkDelimited(st, trim, useMemchr, blob, written, result);
    if offset != written {
      ghost var walked := result[..];
      SplitWithEmbeddedNuls(st, trim, blob, written, result);
      UntouchedTwice(st.values, old(result[..]), walked, result[..]);
      st.boundary := EmbeddedNul;
    }
  }

  lemma AverageRun(written: nat, values: nat)
    requires values > 0
    ensures written / values >= MEMCHR_THRESHOLD_BYTES <==> written >= MEMCHR_THRESHOLD_BYTES * values
  {
    var q, r := written / values, written % values;
    assert written == q * values + r;
    if q >= MEMCHR_THRESHOLD_BYTES {
      assert q * values >= MEMCHR_THRESHOLD_BYTES * values;
    } else {
      assert (q + 1) * values <= MEMCHR_THRESHOLD_BYTES * values;
    }
  }

  lemma StagedPayload(st: ColumnStaging)
    requires st.Valid()
    ensures st.payload == Payload(st.values) && st.count == |st.values|
  {}

  /** The cap on a staged payload, one MiB short of 2 GiB, keeps every output length and offset in 32 bits. */
  lemma OutputFits32(us: seq<unit>)
    requires 2 * |us| <= MAX_PAYLOAD_BYTES
    ensures MAX_PAYLOAD_BYTES + 0x10_0000 == 0x8000_0000 && |ToUtf8(us)| < 0x1_0000_0000
  {
    ToUtf8Length(us);
  }

  lemma AllNull(trim: bool, vals: seq<Value>, res: seq<seq<byte>>)
    requires |vals| <= |res| && forall r :: 0 <= r < |vals| ==> vals[r].None?
    ensures RowsDecoded(trim, vals, res, |vals|) && IllFormed([]) == 0
  {}

  lemma UntouchedTwice(vals: seq<Value>, a: seq<seq<byte>>, b: seq<seq<byte>>, c: seq<seq<byte>>)
    requires Untouched(vals, a, b) && Untouched(vals, b, c)
    ensures Untouched(vals, a, c)
  {}

  lemma {:induction false} TrimPadding(v: seq<unit>, n: nat)
    requires v == [] || v[|v| - 1] != 0x20
    ensures Trim(v + seq(n, _ => 0x20), 0x20) == v
  {
    var s := v + seq(n, _ => 0x20);
    if n == 0 {
      assert s == v;
    } else {
      assert s[..|s| - 1] == v + seq(n - 1, _ => 0x20);
      TrimPadding(v, n - 1);
    }
  }

  /** The blanks a fixed-length column is padded with are gone from the text, blanks before other text are not, and
      other columns keep theirs. */
  lemma PaddingIsTrimmed(v: seq<unit>, n: nat)
    requires v == [] || v[|v| - 1] != 0x20
    ensures Decoded(true, v + seq(n, _ => 0x20)) == ToUtf8(v) && |Decoded(true, v + seq(n, _ => 0x20))| == |ToUtf8(v)|
    ensures Decoded(false, v + seq(n, _ => 0x20)) == ToUtf8(v) + seq(n, _ => 0x20)
  {
    var s := v + seq(n, _ => 0x20);
    TrimPadding(v, n);
    TrimCommutes(s);
    hide *;
    DecodedIs(s);
    Blanks(v, n);
  }

  lemma DecodedIs(s: seq<unit>)
    ensures Decoded(true, s) == Trim(ToUtf8(s), 0x20) && Decoded(false, s) == ToUtf8(s)
  {
  }

  lemma {:induction false} Blanks(v: seq<unit>, n: nat)
    ensures ToUtf8(v + seq(n, _ => 0x20)) == ToUtf8(v) + seq(n, _ => 0x20)
  {
    hide *;
    OneMoreBlank(v, n, 0x20);
    OneMoreBlank(ToUtf8(v), n, 0x20);
    if n > 0 {
      Blanks(v, n - 1);
      BlankIsOneByte();
      ToUtf8Concat(v + seq(n - 1, _ => 0x20), [0x20]);
    }
  }

  lemma OneMoreBlank<T>(s: seq<T>, n: nat, blank: T)
    ensures s + seq(n, _ => blank) == if n == 0 then s else (s + seq(n - 1, _ => blank)) + [blank]
  {
  }

  lemma BlankIsOneByte()
    ensures ToUtf8([0x20]) == [0x20] && !Low(0x20)
  {
    assert [0x20 as unit][1..] == [] && ToUtf8([]) == [];
  }

  // ---------------------------------------------------------------- the row path

  /** The per-value decoder: trims valid input before converting, and the output of invalid input after. */
  function DecodeFromTds(trim: bool, v: seq<unit>): seq<byte> {
    var kept := if trim then Trim(v, 0x20) else v;
    if Valid16(kept) then ToUtf8(kept)
    else if trim then Trim(ToUtf8(v), 0x20)
    else ToUtf8(v)
  }

  /** Both decoders agree on every value, ill-formed and padded ones included. */
  lemma RowPathAgrees(trim: bool, v: seq<unit>)
    ensures DecodeFromTds(trim, v) == Decoded(trim, v)
  {
    TrimCommutes(v);
  }
}
