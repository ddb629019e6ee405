/** Valid UTF-8 text, its UTF-16 form, and the two truncation walks
    (section 4 of RFC 3629; src/codec/string_codec.cpp:71-126). */
module Utf8Text {
  import opened Unicode

  /** The length a lead byte announces, in the four ranges the walk tests. */
  function LeadLength(lead: byte): nat {
    if lead < 0x80 then 1 else if lead < 0xE0 then 2 else if lead < 0xF0 then 3 else 4
  }

  predicate Continuation(b: byte) { 0x80 <= b < 0xC0 }

  /** Payload bits of the `n` bytes at the front. */
  function RawScalar(s: seq<byte>, n: nat): int
    requires 1 <= n <= 4 && n <= |s|
  {
    if n == 1 then s[0] as int
    else if n == 2 then (s[0] as int - 0xC0) * 0x40 + (s[1] as int - 0x80)
    else if n == 3 then (s[0] as int - 0xE0) * 0x1000 + (s[1] as int - 0x80) * 0x40 + (s[2] as int - 0x80)
    else (s[0] as int - 0xF0) * 0x40000 + (s[1] as int - 0x80) * 0x1000 + (s[2] as int - 0x80) * 0x40 + (s[3] as int - 0x80)
  }

  /** Bytes of the well-formed character at the front: the shortest form of a scalar value, or 0. */
  function Front8(s: seq<byte>): (n: nat)
    requires s != []
    ensures n <= |s| && n <= 4
  {
    var n := LeadLength(s[0]);
    if n <= |s| && Scalar(RawScalar(s, n)) && Utf8(RawScalar(s, n)) == s[..n] then n else 0
  }

  function FrontScalar8(s: seq<byte>): (c: int)
    requires s != [] && Front8(s) > 0
    ensures Scalar(c) && Utf8(c) == s[..Front8(s)]
  {
    RawScalar(s, Front8(s))
  }

  predicate Valid8(s: seq<byte>) {
    s == [] || (Front8(s) > 0 && Valid8(s[Front8(s)..]))
  }

  /** The UTF-16 form of one scalar value (section 2.1 of RFC 2781). */
  function Units(c: int): (us: seq<unit>)
    requires Scalar(c)
    ensures |us| == if c < 0x10000 then 1 else 2
  {
    if c < 0x10000 then [c as unit]
    else [(0xD800 + (c - 0x10000) / 0x400) as unit, (0xDC00 + (c - 0x10000) % 0x400) as unit]
  }

  function ToUtf16(s: seq<byte>): seq<unit>
    requires Valid8(s)
  {
    if s == [] then [] else Units(FrontScalar8(s)) + ToUtf16(s[Front8(s)..])
  }

  // ---------------------------------------------------------------- one character

  /** The first byte of a shortest form announces its length, and only the later bytes are continuations. */
  lemma Utf8Shape(c: int)
    requires Scalar(c)
    ensures var s := Utf8(c);
            && LeadLength(s[0]) == |s| && RawScalar(s, |s|) == c
            && !Continuation(s[0]) && (forall k :: 0 < k < |s| ==> Continuation(s[k]))
            && (|s| == 4 <==> c >= 0x10000)
  {
    if c < 0x80 {
    } else if c < 0x800 {
    } else if c < 0x10000 {
      assert c / 0x40 == c / 0x1000 * 0x40 + c / 0x40 % 0x40;
    } else {
      assert c / 0x1000 == c / 0x40000 * 0x40 + c / 0x1000 % 0x40;
      assert c / 0x40 == c / 0x1000 * 0x40 + c / 0x40 % 0x40;
    }
  }

  lemma RawScalarPrefix(s: seq<byte>, n: nat)
    requires 1 <= n <= 4 && n <= |s|
    ensures RawScalar(s[..n], n) == RawScalar(s, n)
  {}

  lemma FrontOfUtf8(c: int, rest: seq<byte>)
    requires Scalar(c)
    ensures Front8(Utf8(c) + rest) == |Utf8(c)| && FrontScalar8(Utf8(c) + rest) == c
  {
    hide Utf8, RawScalar, LeadLength, Continuation;
    var s := Utf8(c) + rest;
    Utf8Shape(c);
    assert s[0] == Utf8(c)[0] && s[..|Utf8(c)|] == Utf8(c);
    RawScalarPrefix(s, |Utf8(c)|);
  }

  lemma FrontCut(a: seq<byte>, b: seq<byte>)
    requires a != [] && Front8(a) > 0
    ensures Front8(a + b) == Front8(a) && FrontScalar8(a + b) == FrontScalar8(a)
  {
    hide Front8, FrontScalar8;
    var c := FrontScalar8(a);
    assert a == Utf8(c) + a[Front8(a)..];
    Assoc(Utf8(c), a[Front8(a)..], b);
    FrontOfUtf8(c, a[Front8(a)..] + b);
    FrontOfUtf8(c, a[Front8(a)..]);
  }

  lemma FrontOfUnits(c: int, rest: seq<unit>)
    requires Scalar(c)
    ensures Front16(Units(c) + rest) == |Units(c)| && FrontScalar16(Units(c) + rest) == c
  {
    assert (Units(c) + rest)[0] == Units(c)[0];
    if c >= 0x10000 {
      assert (Units(c) + rest)[1] == Units(c)[1];
    }
  }

  /** A surrogate pair and the scalar value it stands for determine each other. */
  lemma UnitsOfFront(us: seq<unit>)
    requires us != [] && Front16(us) > 0
    ensures Units(FrontScalar16(us)) == us[..Front16(us)]
  {}

  // ---------------------------------------------------------------- whole texts

  lemma Valid8Step(s: seq<byte>)
    ensures Valid8(s) <==> s == [] || (Front8(s) > 0 && Valid8(s[Front8(s)..]))
    ensures Valid8(s) ==> ToUtf16(s) == if s == [] then [] else Units(FrontScalar8(s)) + ToUtf16(s[Front8(s)..])
  {}

  /** Splitting a valid text at a character boundary. */
  lemma {:induction false} ToUtf16Concat(a: seq<byte>, b: seq<byte>)
    requires Valid8(a)
    ensures Valid8(a + b) <==> Valid8(b)
    ensures Valid8(b) ==> ToUtf16(a + b) == ToUtf16(a) + ToUtf16(b)
  {
    hide *;
    Valid8Step(a);
    if a == [] {
      assert a + b == b;
    } else {
      var n := Front8(a);
      FrontCut(a, b);
      assert (a + b)[n..] == a[n..] + b;
      Valid8Step(a + b);
      ToUtf16Concat(a[n..], b);
      if Valid8(b) {
        Assoc(Units(FrontScalar8(a)), ToUtf16(a[n..]), ToUtf16(b));
      }
    }
  }

  /** What the nvarchar writer produces, the reader turns back into the same text. */
  lemma {:induction false} Utf16RoundTrip(s: seq<byte>)
    requires Valid8(s)
    ensures Valid16(ToUtf16(s)) && ToUtf8(ToUtf16(s)) == s
  {
    hide *;
    Valid8Step(s);
    ToUtf8Step(ToUtf16(s));
    Valid16Step(ToUtf16(s));
    if s != [] {
      var n, c := Front8(s), FrontScalar8(s);
      var us := ToUtf16(s);
      Utf16RoundTrip(s[n..]);
      FrontOfUnits(c, ToUtf16(s[n..]));
      assert us[|Units(c)|..] == ToUtf16(s[n..]);
      WellFormedHead(us);
      assert s == s[..n] + s[n..];
    }
  }

  lemma Valid16Step(us: seq<unit>)
    ensures Valid16(us) <==> us == [] || (Front16(us) > 0 && Valid16(us[Front16(us)..]))
  {}

  lemma WellFormedHead(us: seq<unit>)
    requires us != [] && Front16(us) > 0
    ensures Head8(us) == Utf8(FrontScalar16(us)) && Take16(us) == Front16(us)
  {}

  /** And the other way round for well-formed UTF-16. */
  lemma {:induction false} Utf8RoundTrip(us: seq<unit>)
    requires Valid16(us)
    ensures Valid8(ToUtf8(us)) && ToUtf16(ToUtf8(us)) == us
  {
    hide *;
    ToUtf8Step(us);
    Valid16Step(us);
    Valid8Step(ToUtf8(us));
    if us != [] {
      var n, c := Front16(us), FrontScalar16(us);
      WellFormedHead(us);
      Utf8RoundTrip(us[n..]);
      FrontOfUtf8(c, ToUtf8(us[n..]));
      assert ToUtf8(us)[|Utf8(c)|..] == ToUtf8(us[n..]);
      UnitsOfFront(us);
      assert us == us[..n] + us[n..];
    }
  }

  // ---------------------------------------------------------------- truncation

  /** A valid text is cut at a character boundary exactly where the next byte is not a continuation. */
  lemma {:induction false} BoundaryTest(s: seq<byte>, i: nat)
    requires Valid8(s) && i < |s|
    ensures Valid8(s[..i]) <==> !Continuation(s[i])
  {
    hide *;
    Valid8Step(s);
    Valid8Step(s[..i]);
    var n, c := Front8(s), FrontScalar8(s);
    Utf8Shape(c);
    assert s[..n] == Utf8(c) && forall k :: 0 <= k < n ==> s[k] == s[..n][k];
    if i == 0 {
    } else if i < n {
      var t := s[..i];
      assert t[0] == s[0];
      FrontTooShort(t, n);
    } else {
      BoundaryTest(s[n..], i - n);
      assert s[..i] == s[..n] + s[n..][..i - n];
      FrontValid(s);
      ToUtf16Concat(s[..n], s[n..][..i - n]);
    }
  }

  lemma FrontTooShort(t: seq<byte>, n: nat)
    requires t != [] && LeadLength(t[0]) == n > |t|
    ensures Front8(t) == 0
  {}

  lemma FrontValid(s: seq<byte>)
    requires s != [] && Front8(s) > 0
    ensures Valid8(s[..Front8(s)]) && ToUtf16(s[..Front8(s)]) == Units(FrontScalar8(s))
  {
    hide *;
    var c, t := FrontScalar8(s), s[..Front8(s)];
    FrontOfUtf8(c, []);
    assert Utf8(c) + [] == t;
    Valid8Step(t);
    assert t[|t|..] == [];
    Valid8Step([]);
  }

  /** Source bytes of the prefix that fits in `max` UTF-16 bytes, taken character by character. */
  function ClipUtf16(s: seq<byte>, max: nat): (i: nat)
    requires Valid8(s)
    ensures i <= |s|
  {
    if s == [] || 2 * |Units(FrontScalar8(s))| > max then 0
    else Front8(s) + ClipUtf16(s[Front8(s)..], max - 2 * |Units(FrontScalar8(s))|)
  }

  lemma ClipStep(s: seq<byte>, max: nat)
    requires Valid8(s)
    ensures ClipUtf16(s, max) ==
            if s == [] || 2 * |Units(FrontScalar8(s))| > max then 0
            else Front8(s) + ClipUtf16(s[Front8(s)..], max - 2 * |Units(FrontScalar8(s))|)
  {}

  /** A later boundary of the text is a boundary of what follows the first character. */
  lemma BoundaryAfterFront(s: seq<byte>, j: nat)
    requires Valid8(s) && 0 < j <= |s| && Valid8(s[..j])
    ensures Front8(s) <= j && Valid8(s[Front8(s)..][..j - Front8(s)])
    ensures ToUtf16(s[..j]) == Units(FrontScalar8(s)) + ToUtf16(s[Front8(s)..][..j - Front8(s)])
  {
    hide *;
    var t := s[..j];
    Valid8Step(t);
    assert s == t + s[j..];
    FrontCut(t, s[j..]);
    assert t[Front8(s)..] == s[Front8(s)..][..j - Front8(s)];
  }

  /** The clipped prefix ends on a character boundary, fits, and no longer such prefix fits. */
  lemma {:induction false} ClipIsLargest(s: seq<byte>, max: nat)
    requires Valid8(s)
    ensures var i := ClipUtf16(s, max); Valid8(s[..i]) && 2 * |ToUtf16(s[..i])| <= max
    ensures forall j :: ClipUtf16(s, max) < j <= |s| && Valid8(s[..j]) ==> 2 * |ToUtf16(s[..j])| > max
  {
    hide *;
    Valid8Step(s);
    ClipStep(s, max);
    Valid8Step([]);
    var i := ClipUtf16(s, max);
    if s == [] {
      assert s[..i] == [];
    } else {
      var n, w := Front8(s), 2 * |Units(FrontScalar8(s))|;
      var rest := s[n..];
      if w <= max {
        ClipIsLargest(rest, max - w);
        FrontValid(s);
        assert s[..i] == s[..n] + rest[..i - n];
        ToUtf16Concat(s[..n], rest[..i - n]);
      } else {
        assert s[..i] == [];
      }
      forall j | i < j <= |s| && Valid8(s[..j]) ensures 2 * |ToUtf16(s[..j])| > max {
        BoundaryAfterFront(s, j);
      }
    }
  }

  /** The lead byte gives the character's size in both encodings. */
  lemma LeadSizes(t: seq<byte>)
    requires t != [] && Front8(t) > 0
    ensures LeadLength(t[0]) == Front8(t)
    ensures 2 * |Units(FrontScalar8(t))| == if t[0] < 0xF0 then 2 else 4
  {
    hide Utf8, RawScalar, Units;
    Utf8Shape(FrontScalar8(t));
    UnitsLength(FrontScalar8(t));
  }

  lemma UnitsLength(c: int)
    requires Scalar(c)
    ensures |Units(c)| == if c < 0x10000 then 1 else 2
  {}

  /** Largest prefix that fits in `max` UTF-16 bytes, and that size. */
  method Utf8PrefixForUtf16Limit(data: seq<byte>, max: nat) returns (i: nat, used: nat)
    requires Valid8(data)
    ensures i == ClipUtf16(data, max) && Valid8(data[..i]) && used == 2 * |ToUtf16(data[..i])|
  {
    hide *;
    i, used := 0, 0;
    assert data[0..] == data;
    while i < |data|
      invariant i <= |data| && used <= max && Valid8(data[i..])
      invariant ClipUtf16(data, max) == i + ClipUtf16(data[i..], max - used)
      invariant 2 * |ToUtf16(data)| == used + 2 * |ToUtf16(data[i..])|
    {
      var cpBytes := LeadLength(data[i]);
      var u16Bytes := if data[i] < 0xF0 then 2 else 4;
      Valid8Step(data[i..]);
      LeadSizes(data[i..]);
      ClipStep(data[i..], max - used);
      if used + u16Bytes > max {
        break;
      }
      assert data[i..][cpBytes..] == data[i + cpBytes..];
      used := used + u16Bytes;
      i := i + cpBytes;
    }
    ClipStep(data[i..], max - used);
    ClipIsLargest(data, max);
    assert data == data[..i] + data[i..];
    ToUtf16Concat(data[..i], data[i..]);
  }

  /** Step back from `n` over continuation bytes. */
  function BackOff(s: seq<byte>, n: nat): (m: nat)
    requires n < |s|
    ensures m <= n
  {
    if n > 0 && Continuation(s[n]) then BackOff(s, n - 1) else n
  }

  /** Source bytes kept of a text whose bound is in bytes. */
  function ClipBytes(s: seq<byte>, max: nat): (n: nat)
    ensures n <= |s| && n <= max
  {
    if |s| <= max then |s| else BackOff(s, max)
  }

  method Utf8PrefixForByteLimit(data: seq<byte>, max: nat) returns (n: nat)
    ensures n == ClipBytes(data, max)
  {
    if |data| <= max {
      return |data|;
    }
    n := max;
    while n > 0 && Continuation(data[n])
      invariant n <= max && BackOff(data, n) == BackOff(data, max)
    {
      n := n - 1;
    }
  }

  lemma {:induction false} BackOffIsLargest(s: seq<byte>, n: nat)
    requires Valid8(s) && n < |s|
    ensures Valid8(s[..BackOff(s, n)])
    ensures forall j :: BackOff(s, n) < j <= n ==> !Valid8(s[..j])
  {
    hide Valid8;
    BoundaryTest(s, n);
    if n > 0 && Continuation(s[n]) {
      BackOffIsLargest(s, n - 1);
    } else if n == 0 {
      Valid8Step([]);
      assert s[..0] == [];
    }
  }

  /** The byte-bounded prefix is the longest one that ends on a character boundary and fits. */
  lemma ClipBytesIsLargest(s: seq<byte>, max: nat)
    requires Valid8(s)
    ensures Valid8(s[..ClipBytes(s, max)])
    ensures forall j :: ClipBytes(s, max) < j <= |s| && Valid8(s[..j]) ==> j > max
  {
    hide Valid8, BackOff;
    if |s| > max {
      BackOffIsLargest(s, max);
    } else {
      assert s[..|s|] == s;
    }
  }

  /** Truncating again changes nothing. */
  lemma ClipTwice(s: seq<byte>, max: nat)
    requires Valid8(s)
    ensures var t := s[..ClipUtf16(s, max)]; Valid8(t) && ClipUtf16(t, max) == |t|
    ensures var t := s[..ClipBytes(s, max)]; ClipBytes(t, max) == |t|
  {
    hide *;
    ClipIsLargest(s, max);
    var t := s[..ClipUtf16(s, max)];
    ClipIsLargest(t, max);
    assert t[..|t|] == t;
    ClipBytesShort(s[..ClipBytes(s, max)], max);
  }

  lemma ClipBytesShort(s: seq<byte>, max: nat)
    requires |s| <= max
    ensures ClipBytes(s, max) == |s|
  {}
}
