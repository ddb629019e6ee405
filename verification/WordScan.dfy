/** The eight-bytes-at-a-time tests of the string codec (src/codec/string_codec.cpp:44-59, 291-314). */
module WordScan {
  import opened Unicode

  /** Eight consecutive bytes as the little-endian word a memcpy loads. */
  function Word(b0: bv8, b1: bv8, b2: bv8, b3: bv8, b4: bv8, b5: bv8, b6: bv8, b7: bv8): bv64 {
    (b0 as bv64) | ((b1 as bv64) << 8) | ((b2 as bv64) << 16) | ((b3 as bv64) << 24)
    | ((b4 as bv64) << 32) | ((b5 as bv64) << 40) | ((b6 as bv64) << 48) | ((b7 as bv64) << 56)
  }

  function LoadWord(s: seq<byte>): bv64
    requires |s| == 8
  {
    Word(s[0] as bv8, s[1] as bv8, s[2] as bv8, s[3] as bv8, s[4] as bv8, s[5] as bv8, s[6] as bv8, s[7] as bv8)
  }

  predicate ZeroTest(w: bv64) { ((w - 0x0101010101010101) & !w & 0x8080808080808080) != 0 }

  predicate HighBitTest(w: bv64) { w & 0x8080808080808080 != 0 }

  lemma WordTests(b0: bv8, b1: bv8, b2: bv8, b3: bv8, b4: bv8, b5: bv8, b6: bv8, b7: bv8)
    ensures var w := Word(b0, b1, b2, b3, b4, b5, b6, b7);
            && (ZeroTest(w) <==> b0 == 0 || b1 == 0 || b2 == 0 || b3 == 0 || b4 == 0 || b5 == 0 || b6 == 0 || b7 == 0)
            && (HighBitTest(w) <==> b0 >= 0x80 || b1 >= 0x80 || b2 >= 0x80 || b3 >= 0x80
                                    || b4 >= 0x80 || b5 >= 0x80 || b6 >= 0x80 || b7 >= 0x80)
  {}

  lemma ByteBits(b: byte)
    ensures (b as bv8 == 0 <==> b == 0) && (b as bv8 >= 0x80 <==> b >= 0x80)
  {}

  lemma AnyOfEight(s: seq<byte>)
    requires |s| == 8
    ensures 0 in s <==> s[0] == 0 || s[1] == 0 || s[2] == 0 || s[3] == 0 || s[4] == 0 || s[5] == 0 || s[6] == 0 || s[7] == 0
    ensures (forall k :: 0 <= k < 8 ==> s[k] < 0x80) <==>
            s[0] < 0x80 && s[1] < 0x80 && s[2] < 0x80 && s[3] < 0x80 && s[4] < 0x80 && s[5] < 0x80 && s[6] < 0x80 && s[7] < 0x80
  {}

  /** The borrow trick finds a zero byte exactly when there is one, and the mask a byte above ASCII. */
  lemma WordTestsExact(s: seq<byte>)
    requires |s| == 8
    ensures ZeroTest(LoadWord(s)) <==> 0 in s
    ensures HighBitTest(LoadWord(s)) <==> !(forall k :: 0 <= k < 8 ==> s[k] < 0x80)
  {
    hide ZeroTest, HighBitTest, Word;
    AnyOfEight(s);
    WordTests(s[0] as bv8, s[1] as bv8, s[2] as bv8, s[3] as bv8, s[4] as bv8, s[5] as bv8, s[6] as bv8, s[7] as bv8);
    ByteBits(s[0]); ByteBits(s[1]); ByteBits(s[2]); ByteBits(s[3]);
    ByteBits(s[4]); ByteBits(s[5]); ByteBits(s[6]); ByteBits(s[7]);
  }

  method IsAsciiRun(data: seq<byte>) returns (ascii: bool)
    ensures ascii <==> forall k :: 0 <= k < |data| ==> data[k] < 0x80
  {
    var i := 0;
    while i + 8 <= |data|
      invariant i <= |data|
      invariant forall k :: 0 <= k < i ==> data[k] < 0x80
    {
      hide HighBitTest, LoadWord;
      WordTestsExact(data[i..i + 8]);
      if HighBitTest(LoadWord(data[i..i + 8])) {
        ghost var k :| 0 <= k < 8 && !(data[i..i + 8][k] < 0x80);
        assert data[i + k] >= 0x80;
        return false;
      }
      forall k | i <= k < i + 8 ensures data[k] < 0x80 {
        assert data[k] == data[i..i + 8][k - i];
      }
      i := i + 8;
    }
    while i < |data|
      invariant i <= |data|
      invariant forall k :: 0 <= k < i ==> data[k] < 0x80
    {
      if data[i] >= 0x80 {
        return false;
      }
      i := i + 1;
    }
    return true;
  }

  /** The end of the value that starts at `from`: whichever search is picked, nothing before `hit` is zero, and `hit`
      is zero unless the search ran into `limit`. */
  method FindDelimiter(memchr: bool, data: array<byte>, from: nat, limit: nat) returns (hit: nat)
    requires from <= limit <= data.Length
    ensures from <= hit <= limit
    ensures forall k :: from <= k < hit ==> data[k] != 0
    ensures hit < limit ==> data[hit] == 0
  {
    if memchr {
      hit := Memchr(data, from, limit);
      return;
    }
    hit := from;
    while hit + 8 <= limit
      invariant from <= hit <= limit
      invariant forall k :: from <= k < hit ==> data[k] != 0
    {
      hide ZeroTest, LoadWord;
      ghost var w := data[hit..hit + 8];
      WordTestsExact(w);
      if ZeroTest(LoadWord(data[hit..hit + 8])) {
        hit := ZeroInWord(data, hit);
        return;
      }
      forall k | hit <= k < hit + 8 ensures data[k] != 0 {
        assert data[k] == w[k - hit];
      }
      hit := hit + 8;
    }
    while hit < limit && data[hit] != 0
      invariant from <= hit <= limit
      invariant forall k :: from <= k < hit ==> data[k] != 0
    {
      hit := hit + 1;
    }
  }

  /** Which byte of a word that failed the test it was. */
  method ZeroInWord(data: array<byte>, at: nat) returns (k: nat)
    requires at + 8 <= data.Length && 0 in data[at..at + 8]
    ensures at <= k < at + 8 && data[k] == 0
    ensures forall j :: at <= j < k ==> data[j] != 0
  {
    k := at;
    ghost var z :| 0 <= z < 8 && data[at..at + 8][z] == 0;
    while data[k] != 0
      invariant at <= k <= at + z
      invariant forall j :: at <= j < k ==> data[j] != 0
      decreases at + z - k
    {
      k := k + 1;
    }
  }

  /** The libc search, specified by its standard meaning. */
  method Memchr(data: array<byte>, from: nat, limit: nat) returns (hit: nat)
    requires from <= limit <= data.Length
    ensures from <= hit <= limit
    ensures forall k :: from <= k < hit ==> data[k] != 0
    ensures hit < limit ==> data[hit] == 0
  {
    hit := from;
    while hit < limit && data[hit] != 0
      invariant from <= hit <= limit
      invariant forall k :: from <= k < hit ==> data[k] != 0
    {
      hit := hit + 1;
    }
  }
}
