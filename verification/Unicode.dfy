/** UTF-8 (section 3 of RFC 3629) and UTF-16 (section 2 of RFC 2781) as plain functions: the standard
    conversions the codec calls, with the U+FFFD substitution of ill-formed UTF-16. */
module Unicode {

  newtype byte = x: int | 0 <= x < 0x100
  newtype unit = x: int | 0 <= x < 0x10000

  predicate High(u: unit) { 0xD800 <= u < 0xDC00 }

  predicate Low(u: unit) { 0xDC00 <= u < 0xE000 }

  predicate Scalar(c: int) { 0 <= c < 0xD800 || 0xE000 <= c < 0x110000 }

  const REPLACEMENT: seq<byte> := [0xEF, 0xBF, 0xBD]

  /** The UTF-8 form of one scalar value. */
  function Utf8(c: int): (s: seq<byte>)
    requires Scalar(c)
    ensures 1 <= |s| <= 4 && (|s| == 1 <==> c < 0x80)
    ensures c != 0 ==> 0 !in s
    ensures s[|s| - 1] == 0x20 <==> c == 0x20
  {
    if c < 0x80 then [c as byte]
    else if c < 0x800 then [(0xC0 + c / 0x40) as byte, Tail(c)]
    else if c < 0x10000 then [(0xE0 + c / 0x1000) as byte, Tail(c / 0x40), Tail(c)]
    else [(0xF0 + c / 0x40000) as byte, Tail(c / 0x1000), Tail(c / 0x40), Tail(c)]
  }

  /** A continuation byte carrying the low six bits of `c`. */
  function Tail(c: nat): byte { (0x80 + c % 0x40) as byte }

  /** Units of the well-formed character at the front of `us`; 0 when the first unit is ill-formed. */
  function Front16(us: seq<unit>): (n: nat)
    requires us != []
    ensures n <= |us| && n <= 2
  {
    if High(us[0]) then (if |us| > 1 && Low(us[1]) then 2 else 0)
    else if Low(us[0]) then 0
    else 1
  }

  function FrontScalar16(us: seq<unit>): (c: int)
    requires us != [] && Front16(us) > 0
    ensures Scalar(c) && (c < 0x10000 <==> Front16(us) == 1)
  {
    var lead := us[0] as int;
    if Front16(us) == 1 then lead else 0x10000 + (lead - 0xD800) * 0x400 + (us[1] as int - 0xDC00)
  }

  /** Units one decoding step consumes, and the bytes it emits: an ill-formed unit becomes U+FFFD. */
  function Take16(us: seq<unit>): (n: nat)
    requires us != []
    ensures 1 <= n <= |us|
  {
    if Front16(us) == 0 then 1 else Front16(us)
  }

  function Head8(us: seq<unit>): (s: seq<byte>)
    requires us != []
    ensures Take16(us) <= |s| <= 3 * Take16(us)
    ensures |s| == Take16(us) <==> us[0] < 0x80
    ensures us[0] < 0x80 ==> s == [us[0] as byte] && Take16(us) == 1
    ensures us[0] != 0 ==> 0 !in s && 0 !in us[..Take16(us)]
    ensures s[|s| - 1] == 0x20 <==> us[Take16(us) - 1] == 0x20
  {
    if Front16(us) == 0 then REPLACEMENT else Utf8(FrontScalar16(us))
  }

  predicate Valid16(us: seq<unit>) {
    us == [] || (Front16(us) > 0 && Valid16(us[Front16(us)..]))
  }

  /** Units before the first ill-formed one: what a validator with error position reports. */
  function ValidUnits(us: seq<unit>): (n: nat)
    ensures n <= |us|
    ensures n < |us| ==> Front16(us[n..]) == 0
  {
    if us == [] || Front16(us) == 0 then 0 else Front16(us) + ValidUnits(us[Front16(us)..])
  }

  /** The conversion every path is measured by: one character after the other, and U+FFFD in the place of each unit
      that is no part of one. */
  function ToUtf8(us: seq<unit>): (s: seq<byte>) {
    if us == [] then [] else Head8(us) + ToUtf8(us[Take16(us)..])
  }

  /** Ill-formed units in `us`. */
  function IllFormed(us: seq<unit>): nat {
    if us == [] then 0
    else (if Front16(us) == 0 then 1 else 0) + IllFormed(us[Take16(us)..])
  }

  predicate AllAscii(us: seq<unit>) { forall i :: 0 <= i < |us| ==> us[i] < 0x80 }

  /** Occurrences of `x` in `s`. */
  function Count<T(==)>(s: seq<T>, x: T): nat {
    if s == [] then 0 else Count(s[..|s| - 1], x) + if s[|s| - 1] == x then 1 else 0
  }

  /** `s` without its trailing run of `x`. */
  function Trim<T(==)>(s: seq<T>, x: T): (t: seq<T>)
    ensures |t| <= |s| && t == s[..|t|]
    ensures t == [] || t[|t| - 1] != x
  {
    if s != [] && s[|s| - 1] == x then Trim(s[..|s| - 1], x) else s
  }

  // ---------------------------------------------------------------- concatenation

  lemma Assoc<T>(a: seq<T>, b: seq<T>, c: seq<T>)
    ensures a + (b + c) == (a + b) + c
  {}

  lemma ToUtf8Step(us: seq<unit>)
    ensures ToUtf8(us) == if us == [] then [] else Head8(us) + ToUtf8(us[Take16(us)..])
  {}

  lemma CutFront(a: seq<unit>, b: seq<unit>)
    requires a != []
    requires b == [] || !High(a[|a| - 1]) || !Low(b[0])
    ensures Front16(a + b) == Front16(a) && Head8(a + b) == Head8(a) && Take16(a + b) == Take16(a)
  {
    assert (a + b)[0] == a[0];
    if |a| > 1 {
      assert (a + b)[1] == a[1];
    } else if b != [] {
      assert (a + b)[1] == b[0];
    }
  }

  /** A cut that does not separate a surrogate pair splits the conversion. */
  lemma {:induction false} ToUtf8Concat(a: seq<unit>, b: seq<unit>)
    requires a == [] || b == [] || !High(a[|a| - 1]) || !Low(b[0])
    ensures ToUtf8(a + b) == ToUtf8(a) + ToUtf8(b)
  {
    hide *;
    ToUtf8Step(a);
    if a == [] {
      assert a + b == b;
    } else if b == [] {
      assert a + b == a;
      ToUtf8Step(b);
    } else {
      var n := Take16(a);
      CutFront(a, b);
      ToUtf8Step(a + b);
      assert (a + b)[n..] == a[n..] + b;
      ToUtf8Concat(a[n..], b);
      Assoc(Head8(a), ToUtf8(a[n..]), ToUtf8(b));
    }
  }

  lemma IllFormedStep(us: seq<unit>)
    ensures IllFormed(us) ==
            if us == [] then 0 else (if Front16(us) == 0 then 1 else 0) + IllFormed(us[Take16(us)..])
  {}

  lemma {:induction false} IllFormedConcat(a: seq<unit>, b: seq<unit>)
    requires a == [] || b == [] || !High(a[|a| - 1]) || !Low(b[0])
    ensures IllFormed(a + b) == IllFormed(a) + IllFormed(b)
  {
    hide *;
    IllFormedStep(a);
    IllFormedStep(b);
    IllFormedStep(a + b);
    if a == [] {
      assert a + b == b;
    } else if b == [] {
      assert a + b == a;
    } else {
      var n := Take16(a);
      CutFront(a, b);
      assert (a + b)[n..] == a[n..] + b;
      IllFormedConcat(a[n..], b);
    }
  }

  lemma {:induction false} CountConcat<T>(a: seq<T>, b: seq<T>, x: T)
    ensures Count(a + b, x) == Count(a, x) + Count(b, x)
  {
    if b == [] {
      assert a + b == a;
    } else {
      assert (a + b)[..|a + b| - 1] == a + b[..|b| - 1];
      CountConcat(a, b[..|b| - 1], x);
    }
  }

  lemma {:induction false} CountNone<T>(s: seq<T>, x: T)
    ensures Count(s, x) == 0 <==> x !in s
  {
    if s != [] {
      CountNone(s[..|s| - 1], x);
      assert s == s[..|s| - 1] + [s[|s| - 1]];
    }
  }

  // ---------------------------------------------------------------- facts about the conversion

  lemma {:induction false} ValidUnitsIsValid(us: seq<unit>)
    ensures Valid16(us) <==> ValidUnits(us) == |us|
    ensures Valid16(us) <==> IllFormed(us) == 0
  {
    if us != [] && Front16(us) > 0 {
      ValidUnitsIsValid(us[Front16(us)..]);
    }
  }

  lemma {:induction false} ValidRun(us: seq<unit>)
    ensures Valid16(us[..ValidUnits(us)])
  {
    if us != [] && Front16(us) > 0 {
      var k, n := Front16(us), ValidUnits(us);
      ValidRun(us[k..]);
      assert us[..n][k..] == us[k..][..n - k];
      assert Front16(us[..n]) == k;
    }
  }

  lemma {:induction false} ValidEndsWhole(us: seq<unit>)
    requires Valid16(us) && us != []
    ensures !High(us[|us| - 1])
  {
    var k := Front16(us);
    if k < |us| {
      ValidEndsWhole(us[k..]);
    }
  }

  /** How a stretch without faults and the fault behind it convert. */
  lemma ResumeAfter(run: seq<unit>, rest: seq<unit>)
    requires Valid16(run) && rest != [] && Front16(rest) == 0
    ensures ToUtf8(run + rest) == ToUtf8(run) + REPLACEMENT + ToUtf8(rest[1..])
    ensures IllFormed(run + rest) == 1 + IllFormed(rest[1..])
  {
    if run != [] {
      ValidEndsWhole(run);
    }
    ToUtf8Concat(run, rest);
    Assoc(ToUtf8(run), REPLACEMENT, ToUtf8(rest[1..]));
    IllFormedConcat(run, rest);
    ValidUnitsIsValid(run);
  }

  lemma ToUtf8Resume(us: seq<unit>)
    ensures Valid16(us[..ValidUnits(us)])
    ensures var n := ValidUnits(us);
            n < |us| ==> ToUtf8(us) == ToUtf8(us[..n]) + REPLACEMENT + ToUtf8(us[n + 1..])
                         && IllFormed(us) == 1 + IllFormed(us[n + 1..])
  {
    hide *;
    var n := ValidUnits(us);
    ValidRun(us);
    if n < |us| {
      assert us == us[..n] + us[n..] && us[n..][1..] == us[n + 1..];
      ResumeAfter(us[..n], us[n..]);
    }
  }

  /** Each zero unit gives exactly one zero byte, and nothing else does. */
  lemma {:induction false} ToUtf8Zeros(us: seq<unit>)
    ensures Count(ToUtf8(us), 0) == Count(us, 0)
  {
    if us != [] {
      var k, head := Take16(us), Head8(us);
      ToUtf8Zeros(us[k..]);
      CountConcat(head, ToUtf8(us[k..]), 0);
      CountConcat(us[..k], us[k..], 0);
      assert us == us[..k] + us[k..];
      if us[0] != 0 {
        CountNone(head, 0);
        CountNone(us[..k], 0);
      }
    }
  }

  /** The output is at least as long as the input is in units, and equally long exactly for ASCII. */
  lemma {:induction false} ToUtf8Length(us: seq<unit>)
    ensures |us| <= |ToUtf8(us)| <= 3 * |us|
    ensures |ToUtf8(us)| == |us| <==> AllAscii(us)
    ensures AllAscii(us) ==> forall i :: 0 <= i < |us| ==> ToUtf8(us)[i] as int == us[i] as int
  {
    if us != [] {
      var k := Take16(us);
      ToUtf8Length(us[k..]);
      AsciiSplit(us, k);
    }
  }

  lemma AsciiSplit(s: seq<unit>, k: nat)
    requires k <= |s|
    ensures AllAscii(s) <==> AllAscii(s[..k]) && AllAscii(s[k..])
  {
    if AllAscii(s[..k]) && AllAscii(s[k..]) {
      forall i | 0 <= i < |s| ensures s[i] < 0x80 {
        assert s[i] == if i < k then s[..k][i] else s[k..][i - k];
      }
    }
  }

  // ---------------------------------------------------------------- trailing spaces

  lemma {:induction false} ToUtf8LastByte(us: seq<unit>)
    requires us != []
    ensures ToUtf8(us) != []
    ensures ToUtf8(us)[|ToUtf8(us)| - 1] == 0x20 <==> us[|us| - 1] == 0x20
  {
    var k := Take16(us);
    if k < |us| {
      ToUtf8LastByte(us[k..]);
    } else {
      assert us[k..] == [];
    }
  }

  lemma ToUtf8Single(u: unit)
    requires u < 0x80
    ensures ToUtf8([u]) == [u as byte]
  {
    assert [u][1..] == [];
  }

  lemma ToUtf8Snoc(us: seq<unit>, u: unit)
    requires u < 0x80
    ensures ToUtf8(us + [u]) == ToUtf8(us) + [u as byte]
  {
    hide ToUtf8;
    ToUtf8Concat(us, [u]);
    ToUtf8Single(u);
  }

  lemma TrimSnoc<T>(s: seq<T>, x: T, y: T)
    ensures Trim(s + [y], x) == if y == x then Trim(s, x) else s + [y]
  {
    assert (s + [y])[..|s|] == s;
  }

  lemma ToUtf8TrimEmpty()
    ensures ToUtf8([]) == [] && Trim<unit>([], 0x20) == [] && Trim<byte>([], 0x20) == []
  {}

  /** Trimming the output is trimming the input, for well-formed and ill-formed values alike. */
  lemma {:induction false} TrimCommutes(us: seq<unit>)
    ensures Trim(ToUtf8(us), 0x20) == ToUtf8(Trim(us, 0x20))
  {
    hide *;
    ToUtf8TrimEmpty();
    if us != [] {
      ToUtf8LastByte(us);
      var init, u, out := us[..|us| - 1], us[|us| - 1], ToUtf8(us);
      assert us == init + [u];
      TrimSnoc(init, 0x20, u);
      if u == 0x20 {
        ToUtf8Snoc(init, 0x20);
        TrimSnoc(ToUtf8(init), 0x20, 0x20);
        TrimCommutes(init);
      } else {
        assert out == out[..|out| - 1] + [out[|out| - 1]];
        TrimSnoc(out[..|out| - 1], 0x20, out[|out| - 1]);
      }
    }
  }
}
