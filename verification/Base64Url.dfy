/** The base64url decoder of the token parser (section 5 of RFC 4648; src/azure/jwt_parser.cpp:26-77). */
module Base64Url {
  import opened Buffers
  import opened Unicode

  function CharValue(c: char): (v: int)
    ensures -1 <= v < 64
  {
    if 'A' <= c <= 'Z' then c as int - 'A' as int
    else if 'a' <= c <= 'z' then c as int - 'a' as int + 26
    else if '0' <= c <= '9' then c as int - '0' as int + 52
    else if c == '+' || c == '-' then 62
    else if c == '/' || c == '_' then 63
    else -1
  }

  const WORD := 0x1_0000_0000

  function Pow2(n: nat): (p: nat)
    ensures p >= 1
  {
    if n == 0 then 1 else 2 * Pow2(n - 1)
  }

  /** What the loop makes of the rest of the input: `val` is a 32-bit accumulator that wraps, `bits` how many of its
      low bits wait to become a byte, less eight. */
  function DecodeFrom(s: string, val: nat, bits: int): seq<byte>
    requires -8 <= bits < 0
  {
    if s == "" || s[0] == '=' then []
    else
      var v := CharValue(s[0]);
      if v < 0 then DecodeFrom(s[1..], val, bits)
      else
        var val' := (val * 64 + v) % WORD;
        if bits + 6 >= 0 then [((val' / Pow2(bits + 6)) % 0x100) as byte] + DecodeFrom(s[1..], val', bits - 2)
        else DecodeFrom(s[1..], val', bits + 6)
  }

  method Base64UrlDecode(input: string) returns (result: seq<byte>)
    ensures result == DecodeFrom(input, 0, -8)
  {
    result := [];
    var val, bits := 0, -8;
    assert input[0..] == input;
    for i := 0 to |input|
      invariant -8 <= bits < 0 && val >= 0
      invariant DecodeFrom(input, 0, -8) == result + DecodeFrom(input[i..], val, bits)
    {
      var c := input[i];
      ghost var rest := input[i..];
      assert rest[0] == c && rest[1..] == input[i + 1..];
      if c == '=' { break; }
      var v := CharValue(c);
      if v < 0 { continue; }
      val := (val * 64 + v) % WORD;
      bits := bits + 6;
      if bits >= 0 {
        ghost var out := [((val / Pow2(bits)) % 0x100) as byte];
        assert result + (out + DecodeFrom(input[i + 1..], val, bits - 8)) == (result + out) + DecodeFrom(input[i + 1..], val, bits - 8);
        result := result + [((val / Pow2(bits)) % 0x100) as byte];
        bits := bits - 8;
      }
    }
  }

  // ---------------------------------------------------------------- the encoding

  /** The base64url alphabet, or the standard one. */
  function ValueChar(v: nat, url: bool): (c: char)
    requires v < 64
    ensures CharValue(c) == v && c != '='
  {
    if v < 26 then ('A' as int + v) as char
    else if v < 52 then ('a' as int + (v - 26)) as char
    else if v < 62 then ('0' as int + (v - 52)) as char
    else if v == 62 then if url then '-' else '+'
    else if url then '_' else '/'
  }

  /** Groups of three bytes as four characters; a last group of one or two bytes is shorter and may be padded. */
  function Encode(data: seq<byte>, url: bool, padded: bool): string {
    if data == [] then ""
    else
      var a := data[0] as int;
      if |data| == 1 then
        [ValueChar(a / 4, url), ValueChar(a % 4 * 16, url)] + if padded then "==" else ""
      else
        var b := data[1] as int;
        if |data| == 2 then
          [ValueChar(a / 4, url), ValueChar(a % 4 * 16 + b / 16, url), ValueChar(b % 16 * 4, url)] + if padded then "=" else ""
        else
          var c := data[2] as int;
          [ValueChar(a / 4, url), ValueChar(a % 4 * 16 + b / 16, url), ValueChar(b % 16 * 4 + c / 64, url), ValueChar(c % 64, url)]
          + Encode(data[3..], url, padded)
  }

  /** The accumulator after one more character. */
  function Shifted(val: nat, v: nat): nat { (val * 64 + v) % WORD }

  lemma Step(c: char, s: string, val: nat, bits: int)
    requires -8 <= bits < 0 && CharValue(c) >= 0 && c != '='
    ensures DecodeFrom([c] + s, val, bits) ==
            var val' := Shifted(val, CharValue(c));
            if bits + 6 >= 0 then [((val' / Pow2(bits + 6)) % 0x100) as byte] + DecodeFrom(s, val', bits - 2)
            else DecodeFrom(s, val', bits + 6)
  {
    assert ([c] + s)[1..] == s;
  }

  /** Wrapping loses no bit that is still waiting. */
  lemma LowBits(val: nat, v: nat)
    requires v < 64
    ensures Shifted(val, v) % 0x1000 == (val % 64) * 64 + v
  {
    var q, r := val / 64, val % 64;
    var x := val * 64 + v;
    assert x == 0x1000 * q + (r * 64 + v);
    var w := x / WORD;
    assert x % WORD == x - WORD * w;
    assert x % WORD == 0x1000 * (q - 0x10_0000 * w) + (r * 64 + v);
  }

  /** The twelve low bits after two characters. */
  lemma TwoChars(val: nat, v: nat, w: nat)
    requires v < 64 && w < 64
    ensures Shifted(Shifted(val, v), w) % 0x1000 == v * 64 + w
  {
    LowBits(val, v);
    LowBits(Shifted(val, v), w);
    var s := Shifted(val, v);
    var p := s / 0x1000;
    assert s == 0x1000 * p + ((val % 64) * 64 + v);
    DivUnique(s, 64, 64 * p + val % 64, v);
  }

  lemma BytesOf(s: nat, t: nat)
    requires s % 0x1000 == t
    ensures (s / 16) % 0x100 == t / 16 && (s / 4) % 0x100 == (t / 4) % 0x100 && s % 0x100 == t % 0x100
  {
    var p := s / 0x1000;
    assert s == 0x1000 * p + t;
    var u, k, j := t / 16, t / 4 / 0x100, t / 4 % 0x100;
    DivUnique(s, 16, 0x100 * p + u, t % 16);
    DivUnique(0x100 * p + u, 0x100, p, u);
    DivUnique(s, 4, 0x400 * p + t / 4, t % 4);
    DivUnique(0x400 * p + t / 4, 0x100, 4 * p + k, j);
    DivUnique(s, 0x100, 16 * p + t / 0x100, t % 0x100);
  }

  /** The first two characters of a group give its first byte and leave four bits waiting. */
  lemma FirstTwo(a: nat, low: nat, url: bool, s: string, val: nat)
    requires a < 0x100 && low < 16
    ensures var v, w := a / 4, a % 4 * 16 + low;
            DecodeFrom([ValueChar(v, url), ValueChar(w, url)] + s, val, -8)
            == [a as byte] + DecodeFrom(s, Shifted(Shifted(val, v), w), -4)
  {
    hide DecodeFrom, ValueChar;
    var v, w := a / 4, a % 4 * 16 + low;
    var c, d := ValueChar(v, url), ValueChar(w, url);
    assert [c, d] + s == [c] + ([d] + s);
    Step(c, [d] + s, val, -8);
    Step(d, s, Shifted(val, v), -2);
    TwoChars(val, v, w);
    BytesOf(Shifted(Shifted(val, v), w), v * 64 + w);
    Powers();
  }

  lemma Powers()
    ensures Pow2(4) == 16 && Pow2(2) == 4 && Pow2(0) == 1
  {
    assert Pow2(1) == 2 && Pow2(2) == 4 && Pow2(3) == 8;
  }

  /** The third gives the second byte. */
  lemma Third(v: nat, b: nat, low: nat, url: bool, s: string, val: nat)
    requires v < 4 && b < 0x100 && low < 4
    ensures var w, x := v * 16 + b / 16, b % 16 * 4 + low;
            DecodeFrom([ValueChar(x, url)] + s, Shifted(val, w), -4)
            == [b as byte] + DecodeFrom(s, Shifted(Shifted(val, w), x), -6)
  {
    hide DecodeFrom, ValueChar;
    var w, x := v * 16 + b / 16, b % 16 * 4 + low;
    Step(ValueChar(x, url), s, Shifted(val, w), -4);
    TwoChars(val, w, x);
    BytesOf(Shifted(Shifted(val, w), x), w * 64 + x);
    Powers();
    SecondByte(v, b, low);
  }

  lemma SecondByte(v: nat, b: nat, low: nat)
    requires v < 4 && b < 0x100 && low < 4
    ensures (((v * 16 + b / 16) * 64 + (b % 16 * 4 + low)) / 4) % 0x100 == b
  {
    assert ((v * 16 + b / 16) * 64 + (b % 16 * 4 + low)) / 4 == v * 256 + b;
  }

  /** The fourth gives the third byte and leaves nothing waiting. */
  lemma Fourth(high: nat, c: nat, url: bool, s: string, val: nat)
    requires high < 16 && c < 0x100
    ensures var x, y := high * 4 + c / 64, c % 64;
            DecodeFrom([ValueChar(y, url)] + s, Shifted(val, x), -6)
            == [c as byte] + DecodeFrom(s, Shifted(Shifted(val, x), y), -8)
  {
    hide DecodeFrom, ValueChar;
    var x, y := high * 4 + c / 64, c % 64;
    Step(ValueChar(y, url), s, Shifted(val, x), -6);
    TwoChars(val, x, y);
    BytesOf(Shifted(Shifted(val, x), y), x * 64 + y);
    Powers();
    LastByte(high, c);
  }

  lemma LastByte(high: nat, c: nat)
    requires c < 0x100
    ensures ((high * 4 + c / 64) * 64 + c % 64) % 0x100 == c
  {
    DivUnique((high * 4 + c / 64) * 64 + c % 64, 0x100, high, c);
  }

  lemma PaddingEnds(s: string, val: nat, bits: int)
    requires -8 <= bits < 0 && (s == "" || s[0] == '=')
    ensures DecodeFrom(s, val, bits) == []
  {
  }

  lemma DecodesOne(data: seq<byte>, url: bool, padded: bool, val: nat)
    requires |data| == 1
    ensures DecodeFrom(Encode(data, url, padded), val, -8) == data
  {
    hide DecodeFrom, ValueChar;
    var a, end := data[0] as int, if padded then "==" else "";
    FirstTwo(a, 0, url, end, val);
    PaddingEnds(end, Shifted(Shifted(val, a / 4), a % 4 * 16), -4);
  }

  lemma DecodesTwo(data: seq<byte>, url: bool, padded: bool, val: nat)
    requires |data| == 2
    ensures DecodeFrom(Encode(data, url, padded), val, -8) == data
  {
    var a, b, end := data[0] as int, data[1] as int, if padded then "=" else "";
    var v, w, x := a / 4, a % 4 * 16 + b / 16, b % 16 * 4;
    assert Encode(data, url, padded) == [ValueChar(v, url), ValueChar(w, url)] + ([ValueChar(x, url)] + end);
    hide *;
    FirstTwo(a, b / 16, url, [ValueChar(x, url)] + end, val);
    Third(a % 4, b, 0, url, end, Shifted(val, v));
    PaddingEnds(end, Shifted(Shifted(Shifted(val, v), w), x), -6);
    assert data == [data[0]] + ([data[1]] + []);
  }

  lemma EncodeGroup(data: seq<byte>, url: bool, padded: bool)
    requires |data| >= 3
    ensures var a, b, c := data[0] as int, data[1] as int, data[2] as int;
            Encode(data, url, padded)
            == [ValueChar(a / 4, url), ValueChar(a % 4 * 16 + b / 16, url)]
               + ([ValueChar(b % 16 * 4 + c / 64, url)] + ([ValueChar(c % 64, url)] + Encode(data[3..], url, padded)))
  {
    hide ValueChar;
  }

  lemma DecodesGroup(data: seq<byte>, url: bool, padded: bool, val: nat, after: nat)
    requires |data| >= 3
    requires var a, b, c := data[0] as int, data[1] as int, data[2] as int;
             after == Shifted(Shifted(Shifted(Shifted(val, a / 4), a % 4 * 16 + b / 16), b % 16 * 4 + c / 64), c % 64)
    ensures DecodeFrom(Encode(data, url, padded), val, -8)
            == [data[0]] + ([data[1]] + ([data[2]] + DecodeFrom(Encode(data[3..], url, padded), after, -8)))
  {
    hide *;
    var a, b, c := data[0] as int, data[1] as int, data[2] as int;
    var v, w, x, y := a / 4, a % 4 * 16 + b / 16, b % 16 * 4 + c / 64, c % 64;
    var rest := Encode(data[3..], url, padded);
    EncodeGroup(data, url, padded);
    var end := [ValueChar(y, url)] + rest;
    FirstTwo(a, b / 16, url, [ValueChar(x, url)] + end, val);
    Third(a % 4, b, c / 64, url, end, Shifted(val, v));
    Fourth(b % 16, c, url, rest, Shifted(Shifted(val, v), w));
  }

  lemma DecodesNothing(url: bool, padded: bool, val: nat)
    ensures DecodeFrom(Encode([], url, padded), val, -8) == []
  {
  }

  /** Decoding an encoding returns the bytes, padded or not, in either alphabet, whatever the accumulator held. */
  lemma {:induction false} EncodeDecodes(data: seq<byte>, url: bool, padded: bool, val: nat)
    ensures DecodeFrom(Encode(data, url, padded), val, -8) == data
  {
    hide *;
    if data == [] {
      DecodesNothing(url, padded, val);
    } else if |data| == 1 {
      DecodesOne(data, url, padded, val);
    } else if |data| == 2 {
      DecodesTwo(data, url, padded, val);
    } else {
      var a, b, c := data[0] as int, data[1] as int, data[2] as int;
      var after := Shifted(Shifted(Shifted(Shifted(val, a / 4), a % 4 * 16 + b / 16), b % 16 * 4 + c / 64), c % 64);
      DecodesGroup(data, url, padded, val, after);
      EncodeDecodes(data[3..], url, padded, after);
      assert data == [data[0]] + ([data[1]] + ([data[2]] + data[3..]));
    }
  }

  // ---------------------------------------------------------------- the alphabet, and what is passed over

  lemma UpperAt(k: nat)
    requires k < 26
    ensures "ABCDEFGHIJKLMNOPQRSTUVWXYZ"[k] as int == 65 + k
  {
  }

  lemma LowerAt(k: nat)
    requires k < 26
    ensures "abcdefghijklmnopqrstuvwxyz"[k] as int == 97 + k
  {
  }

  lemma DigitAt(k: nat)
    requires k < 10
    ensures "0123456789"[k] as int == 48 + k
  {
  }

  /** The characters of the table of RFC 4648, section 5, in their order, with those of section 4 for the last two. */
  function AlphabetChar(v: nat, url: bool): char
    requires v < 64
  {
    if v < 26 then "ABCDEFGHIJKLMNOPQRSTUVWXYZ"[v]
    else if v < 52 then "abcdefghijklmnopqrstuvwxyz"[v - 26]
    else if v < 62 then "0123456789"[v - 52]
    else (if url then "-_" else "+/")[v - 62]
  }

  /** A character has the value of its place in either table, and no other character has a value. */
  lemma Alphabet(c: char, v: nat)
    requires v < 64
    ensures CharValue(c) == v <==> c == AlphabetChar(v, true) || c == AlphabetChar(v, false)
  {
    if v < 26 { UpperAt(v); } else if v < 52 { LowerAt(v - 26); } else if v < 62 { DigitAt(v - 52); }
  }

  lemma AnyStep(s: string, val: nat, bits: int)
    requires -8 <= bits < 0 && s != ""
    ensures DecodeFrom(s, val, bits) ==
            var v := CharValue(s[0]); var val' := if v < 0 then 0 else Shifted(val, v);
            if s[0] == '=' then []
            else if v < 0 then DecodeFrom(s[1..], val, bits)
            else if bits + 6 >= 0 then [((val' / Pow2(bits + 6)) % 0x100) as byte] + DecodeFrom(s[1..], val', bits - 2)
            else DecodeFrom(s[1..], val', bits + 6)
  {
    hide CharValue, Pow2;
  }

  /** Characters outside the alphabet are passed over wherever they stand. */
  lemma {:induction false} JunkIsPassedOver(a: string, c: char, b: string, val: nat, bits: int)
    requires -8 <= bits < 0 && CharValue(c) < 0 && c != '='
    ensures DecodeFrom(a + ([c] + b), val, bits) == DecodeFrom(a + b, val, bits)
  {
    hide DecodeFrom, CharValue, Pow2, Shifted;
    var long, short := a + ([c] + b), a + b;
    AnyStep(long, val, bits);
    if a == "" {
      assert long == [c] + b && short == b && long[1..] == b;
    } else {
      AnyStep(short, val, bits);
      assert long[0] == short[0] == a[0] && long[1..] == a[1..] + ([c] + b) && short[1..] == a[1..] + b;
      var v := CharValue(a[0]);
      if v < 0 {
        JunkIsPassedOver(a[1..], c, b, val, bits);
      } else {
        JunkIsPassedOver(a[1..], c, b, Shifted(val, v), if bits + 6 >= 0 then bits - 2 else bits + 6);
      }
    }
  }

  /** Nothing behind the padding is read. */
  lemma {:induction false} PaddingIsTheEnd(a: string, b: string, val: nat, bits: int)
    requires -8 <= bits < 0
    ensures DecodeFrom(a + ("=" + b), val, bits) == DecodeFrom(a, val, bits)
  {
    hide DecodeFrom, CharValue, Pow2, Shifted;
    var long := a + ("=" + b);
    if a == "" {
      assert long == "=" + b;
      PaddingEnds(long, val, bits);
      PaddingEnds(a, val, bits);
    } else {
      AnyStep(long, val, bits);
      AnyStep(a, val, bits);
      assert long[0] == a[0] && long[1..] == a[1..] + ("=" + b);
      var v := CharValue(a[0]);
      if v < 0 {
        PaddingIsTheEnd(a[1..], b, val, bits);
      } else {
        PaddingIsTheEnd(a[1..], b, Shifted(val, v), if bits + 6 >= 0 then bits - 2 else bits + 6);
      }
    }
  }
}
