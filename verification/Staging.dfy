/** The column-major staging buffer of one string column (src/include/codec/staging/column_staging.hpp):
    values lie one after the other as UTF-16 units, each followed by one U+0000, and a NULL stages nothing. */
module Staging {
  import opened Unicode

  datatype Option<+T> = None | Some(value: T)

  datatype Boundary = NoBoundary | AsciiOffsets | Sweep | Memchr | EmbeddedNul

  type Value = Option<seq<unit>>

  const CHUNK_ROWS := 2048
  const MAX_PAYLOAD_BYTES := 2047 * 1024 * 1024

  function Cell(v: Value): seq<unit> { if v.Some? then v.value + [0] else [] }

  function Payload(vals: seq<Value>): seq<unit> {
    if vals == [] then [] else Payload(vals[..|vals| - 1]) + Cell(vals[|vals| - 1])
  }

  function NonNull(vals: seq<Value>): (n: nat)
    ensures n <= |vals|
  {
    if vals == [] then 0 else NonNull(vals[..|vals| - 1]) + if vals[|vals| - 1].Some? then 1 else 0
  }

  lemma PayloadSnoc(vals: seq<Value>, v: Value)
    ensures Payload(vals + [v]) == Payload(vals) + Cell(v)
    ensures NonNull(vals + [v]) == NonNull(vals) + if v.Some? then 1 else 0
  {
    assert (vals + [v])[..|vals|] == vals;
  }

  /** What the mask, offset and length slots of row `r` say about it. */
  ghost predicate RowStaged(vals: seq<Value>, r: nat, offset: nat, length: nat, valid: bool)
    requires r < |vals|
  {
    && (valid <==> vals[r].Some?)
    && (valid ==> offset == 2 * |Payload(vals[..r])| && length == 2 * |vals[r].value|)
  }

  lemma RowStagedSnoc(vals: seq<Value>, v: Value, r: nat, offset: nat, length: nat, valid: bool)
    requires r < |vals|
    ensures RowStaged(vals + [v], r, offset, length, valid) == RowStaged(vals, r, offset, length, valid)
  {
    assert (vals + [v])[..r] == vals[..r];
  }

  lemma RowStagedLast(vals: seq<Value>, v: Value, offset: nat, length: nat, valid: bool)
    ensures RowStaged(vals + [v], |vals|, offset, length, valid) ==
            ((valid <==> v.Some?) && (valid ==> offset == 2 * |Payload(vals)| && length == 2 * |v.value|))
  {
    assert (vals + [v])[..|vals|] == vals;
  }

  class ColumnStaging {
    var payload: seq<unit>
    var offsets: array<nat>
    var lengths: array<nat>
    var validity: array<bool>
    var count: nat
    var nullCount: nat
    var boundary: Boundary
    var replacedUnits: nat
    ghost var values: seq<Value>

    /** Offsets and lengths are in bytes; the slots of NULL rows hold anything. */
    ghost predicate Valid()
      reads `payload, `offsets, `lengths, `validity, `count, `nullCount, `values, offsets, lengths, validity
    {
      && offsets != lengths
      && offsets.Length == lengths.Length == validity.Length == CHUNK_ROWS
      && count == |values| <= CHUNK_ROWS
      && payload == Payload(values) && 2 * |payload| <= MAX_PAYLOAD_BYTES
      && nullCount == count - NonNull(values)
      && forall r :: 0 <= r < count ==> RowStaged(values, r, offsets[r], lengths[r], validity[r])
    }

    constructor ()
      ensures Valid() && values == [] && fresh(offsets) && fresh(lengths) && fresh(validity)
    {
      payload, count, nullCount, boundary, replacedUnits, values := [], 0, 0, NoBoundary, 0, [];
      offsets := new nat[CHUNK_ROWS];
      lengths := new nat[CHUNK_ROWS];
      validity := new bool[CHUNK_ROWS](_ => true);
    }

    /** A NULL is a bit and nothing else. */
    method AppendNull()
      requires Valid() && count < CHUNK_ROWS
      modifies this, validity
      ensures Valid() && values == old(values) + [None] && payload == old(payload)
      ensures offsets == old(offsets) && lengths == old(lengths) && validity == old(validity)
    {
      hide Payload, NonNull, RowStaged;
      StageRow(None, offsets[count], lengths[count]);
      validity[count] := false;
      values, count, nullCount := values + [None], count + 1, nullCount + 1;
    }

    /** What appending `v` leaves true of the rows already staged and of the new one. */
    lemma StageRow(v: Value, offset: nat, length: nat)
      requires Valid() && count < CHUNK_ROWS
      requires v.Some? ==> offset == 2 * |payload| && length == 2 * |v.value|
      ensures Payload(values + [v]) == payload + Cell(v)
      ensures NonNull(values + [v]) == NonNull(values) + if v.Some? then 1 else 0
      ensures forall r :: 0 <= r < count ==> RowStaged(values + [v], r, offsets[r], lengths[r], validity[r])
      ensures RowStaged(values + [v], count, offset, length, v.Some?)
    {
      PayloadSnoc(values, v);
      forall r | 0 <= r < count
        ensures RowStaged(values + [v], r, offsets[r], lengths[r], validity[r])
      {
        RowStagedSnoc(values, v, r, offsets[r], lengths[r], validity[r]);
      }
      RowStagedLast(values, v, offset, length, v.Some?);
    }

    /** Refuses, with nothing staged, what would pass the payload cap. */
    method AppendVarDelimited(src: seq<unit>) returns (ok: bool)
      requires Valid() && count < CHUNK_ROWS
      modifies this, offsets, lengths, validity
      ensures Valid()
      ensures offsets == old(offsets) && lengths == old(lengths) && validity == old(validity)
      ensures ok <==> 2 * (|old(payload)| + |src| + 1) <= MAX_PAYLOAD_BYTES
      ensures values == if ok then old(values) + [Some(src)] else old(values)
      ensures payload == if ok then old(payload) + src + [0] else old(payload)
    {
      hide Payload, NonNull, RowStaged;
      ok := 2 * (|payload| + |src| + 1) <= MAX_PAYLOAD_BYTES;
      if ok {
        StageRow(Some(src), 2 * |payload|, 2 * |src|);
        Assoc(payload, src, [0]);
        offsets[count], lengths[count], validity[count] := 2 * |payload|, 2 * |src|, true;
        payload := payload + src + [0];
        values, count := values + [Some(src)], count + 1;
      }
    }
  }
}
