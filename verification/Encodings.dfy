/** The two encodings pinned from outside: where each form begins, that the next value has the next form, and that forms
    are ordered as the values are (section 3 of RFC 3629, section 2.1 of RFC 2781). */
module Encodings {
  import opened Unicode
  import opened Utf8Text

  // ---------------------------------------------------------------- order

  /** One code sequence is before another: lexicographic order, a prefix first. */
  predicate Before<T(==)>(a: seq<T>, b: seq<T>, less: (T, T) -> bool) {
    b != [] && (a == [] || less(a[0], b[0]) || (a[0] == b[0] && Before(a[1..], b[1..], less)))
  }

  function ByteLess(): (byte, byte) -> bool { (x: byte, y: byte) => x < y }

  function UnitLess(): (unit, unit) -> bool { (x: unit, y: unit) => x < y }

  /** The first place at which two sequences differ decides. */
  lemma {:induction false} DecidedAt<T>(a: seq<T>, b: seq<T>, less: (T, T) -> bool, k: nat)
    requires k < |a| && k < |b| && less(a[k], b[k]) && forall i :: 0 <= i < k ==> a[i] == b[i]
    ensures Before(a, b, less)
  {
    if k > 0 { DecidedAt(a[1..], b[1..], less, k - 1); }
  }

  /** Base-64 digits: the higher number has the higher digit at the first place where they differ. */
  lemma HigherDigit(c: nat, d: nat)
    requires c < d
    ensures c / 0x40 < d / 0x40 || (c / 0x40 == d / 0x40 && c % 0x40 < d % 0x40)
  {
  }

  lemma TwoByteForms(c: int)
    requires 0x80 <= c < 0x800
    ensures var s := Utf8(c); |s| == 2 && s[0] as int == 0xC0 + c / 0x40 && s[1] as int == 0x80 + c % 0x40
  {
  }

  lemma ThreeByteForms(c: int)
    requires 0x800 <= c < 0x10000 && Scalar(c)
    ensures var s := Utf8(c);
            |s| == 3 && s[0] as int == 0xE0 + c / 0x40 / 0x40 && s[1] as int == 0x80 + c / 0x40 % 0x40 && s[2] as int == 0x80 + c % 0x40
  {
  }

  lemma FourByteForms(c: int)
    requires 0x10000 <= c < 0x110000
    ensures var s := Utf8(c);
            |s| == 4 && s[0] as int == 0xF0 + c / 0x40 / 0x40 / 0x40 && s[1] as int == 0x80 + c / 0x40 / 0x40 % 0x40
            && s[2] as int == 0x80 + c / 0x40 % 0x40 && s[3] as int == 0x80 + c % 0x40
  {
  }

  /** The bytes a form of each length begins with. */
  lemma LeadRange(c: int)
    requires Scalar(c)
    ensures var s := Utf8(c);
            match |s|
            case 1 => 0x00 <= s[0] < 0x80
            case 2 => 0xC2 <= s[0] < 0xE0
            case 3 => 0xE0 <= s[0] < 0xF0
            case _ => |s| == 4 && 0xF0 <= s[0] < 0xF5
    ensures |Utf8(c)| == if c < 0x80 then 1 else if c < 0x800 then 2 else if c < 0x10000 then 3 else 4
  {
  }

  lemma OrderedTwo(c: int, d: int)
    requires 0x80 <= c < d < 0x800
    ensures Before(Utf8(c), Utf8(d), ByteLess())
  {
    hide Utf8, Before;
    TwoByteForms(c);
    TwoByteForms(d);
    HigherDigit(c, d);
    DecidedAt(Utf8(c), Utf8(d), ByteLess(), if c / 0x40 < d / 0x40 then 0 else 1);
  }

  lemma OrderedThree(c: int, d: int)
    requires 0x800 <= c < d < 0x10000 && Scalar(c) && Scalar(d)
    ensures Before(Utf8(c), Utf8(d), ByteLess())
  {
    hide Utf8, Before;
    ThreeByteForms(c);
    ThreeByteForms(d);
    HigherDigit(c, d);
    var p, q := c / 0x40, d / 0x40;
    if p < q { HigherDigit(p, q); }
    DecidedAt(Utf8(c), Utf8(d), ByteLess(), if p / 0x40 < q / 0x40 then 0 else if p < q then 1 else 2);
  }

  lemma OrderedFour(c: int, d: int)
    requires 0x10000 <= c < d < 0x110000
    ensures Before(Utf8(c), Utf8(d), ByteLess())
  {
    hide Utf8, Before;
    FourByteForms(c);
    FourByteForms(d);
    HigherDigit(c, d);
    var p, q := c / 0x40, d / 0x40;
    var x, y := p / 0x40, q / 0x40;
    if p < q { HigherDigit(p, q); }
    if x < y { HigherDigit(x, y); }
    DecidedAt(Utf8(c), Utf8(d), ByteLess(), if x / 0x40 < y / 0x40 then 0 else if x < y then 1 else if p < q then 2 else 3);
  }

  /** A higher value has the later form. */
  lemma Utf8Ordered(c: int, d: int)
    requires Scalar(c) && Scalar(d) && c < d
    ensures Before(Utf8(c), Utf8(d), ByteLess())
  {
    LeadRange(c);
    LeadRange(d);
    hide Utf8, Before;
    if |Utf8(c)| != |Utf8(d)| {
      DecidedAt(Utf8(c), Utf8(d), ByteLess(), 0);
    } else if d < 0x80 {
      SingleForms(c);
      SingleForms(d);
      DecidedAt(Utf8(c), Utf8(d), ByteLess(), 0);
    } else if d < 0x800 {
      OrderedTwo(c, d);
    } else if d < 0x10000 {
      OrderedThree(c, d);
    } else {
      OrderedFour(c, d);
    }
  }

  lemma SingleForms(c: int)
    requires 0 <= c < 0x80
    ensures Utf8(c) == [c as byte]
  {
  }

  // ---------------------------------------------------------------- first forms, and the next one

  /** The form behind this one: its last byte one higher, or the last continuation byte wrapped and the bytes before it
      moved on. */
  function Next8(s: seq<byte>): seq<byte> {
    if s == [] then []
    else
      var front, last := s[..|s| - 1], s[|s| - 1];
      if front != [] && last == 0xBF then Next8(front) + [0x80] else if last == 0xFF then s else front + [last + 1]
  }

  lemma NextSnoc(front: seq<byte>, last: byte)
    ensures Next8(front + [last]) == if front != [] && last == 0xBF then Next8(front) + [0x80]
                                     else if last == 0xFF then front + [last] else front + [last + 1]
  {
    var s := front + [last];
    assert s[..|s| - 1] == front && s[|s| - 1] == last;
  }

  lemma NextDigit(c: nat)
    ensures if c % 0x40 == 0x3F then (c + 1) / 0x40 == c / 0x40 + 1 && (c + 1) % 0x40 == 0
            else (c + 1) / 0x40 == c / 0x40 && (c + 1) % 0x40 == c % 0x40 + 1
  {
  }

  lemma NextTwo(c: int)
    requires 0x80 <= c && c + 1 < 0x800
    ensures Utf8(c + 1) == Next8(Utf8(c))
  {
    hide Utf8, Next8;
    var a := Utf8(c);
    TwoByteForms(c);
    TwoByteForms(c + 1);
    NextDigit(c);
    NextSnoc([], a[0]);
    NextSnoc([a[0]], a[1]);
    assert [] + [a[0]] == [a[0]] && [a[0]] + [a[1]] == a;
  }

  lemma NextThree(c: int)
    requires 0x800 <= c && c + 1 < 0x10000 && Scalar(c) && Scalar(c + 1)
    ensures Utf8(c + 1) == Next8(Utf8(c))
  {
    hide Utf8, Next8;
    var a := Utf8(c);
    ThreeByteForms(c);
    ThreeByteForms(c + 1);
    NextDigit(c);
    NextDigit(c / 0x40);
    NextOfThree(a[0], a[1], a[2]);
    assert a == [a[0], a[1], a[2]];
  }

  lemma NextOfThree(x: byte, y: byte, z: byte)
    requires x < 0xFF && y < 0xC0 && z < 0xC0
    ensures Next8([x, y, z]) == if z != 0xBF then [x, y, z + 1] else if y != 0xBF then [x, y + 1, 0x80] else [x + 1, 0x80, 0x80]
  {
    hide Next8;
    NextSnoc([], x);
    NextSnoc([x], y);
    NextSnoc([x, y], z);
    assert [] + [x] == [x] && [x] + [y] == [x, y] && [x, y] + [z] == [x, y, z];
  }

  lemma NextFour(c: int)
    requires 0x10000 <= c && c + 1 < 0x110000
    ensures Utf8(c + 1) == Next8(Utf8(c))
  {
    hide Utf8, Next8;
    var a := Utf8(c);
    FourByteForms(c);
    FourByteForms(c + 1);
    NextDigit(c);
    NextDigit(c / 0x40);
    NextDigit(c / 0x40 / 0x40);
    NextOfThree(a[0], a[1], a[2]);
    NextSnoc([a[0], a[1], a[2]], a[3]);
    assert a == [a[0], a[1], a[2]] + [a[3]];
  }

  /** The next value of the same length has the next form. */
  lemma Utf8Next(c: int)
    requires Scalar(c) && Scalar(c + 1) && |Utf8(c)| == |Utf8(c + 1)|
    ensures Utf8(c + 1) == Next8(Utf8(c))
  {
    LeadRange(c);
    LeadRange(c + 1);
    hide Utf8, Next8;
    if c < 0x80 {
      SingleForms(c);
      SingleForms(c + 1);
      NextSnoc([], c as byte);
      assert [] + [c as byte] == [c as byte] && [] + [c as byte + 1] == [(c + 1) as byte];
    } else if c < 0x800 {
      NextTwo(c);
    } else if c < 0x10000 {
      NextThree(c);
    } else {
      NextFour(c);
    }
  }

  /** The first and last form of each length, and those around the surrogates. With `Utf8Next` they are all the forms. */
  lemma Utf8Ends()
    ensures Utf8(0x00) == [0x00] && Utf8(0x7F) == [0x7F]
    ensures Utf8(0x80) == [0xC2, 0x80] && Utf8(0x7FF) == [0xDF, 0xBF]
    ensures Utf8(0x800) == [0xE0, 0xA0, 0x80] && Utf8(0xD7FF) == [0xED, 0x9F, 0xBF]
    ensures Utf8(0xE000) == [0xEE, 0x80, 0x80] && Utf8(0xFFFF) == [0xEF, 0xBF, 0xBF]
    ensures Utf8(0x10000) == [0xF0, 0x90, 0x80, 0x80] && Utf8(0x10FFFF) == [0xF4, 0x8F, 0xBF, 0xBF]
  {
  }

  /** An encoding that has those first forms and goes on to the next form is this one. */
  ghost predicate GoesOn(f: int -> seq<byte>) {
    && f(0x00) == [0x00] && f(0x80) == [0xC2, 0x80] && f(0x800) == [0xE0, 0xA0, 0x80] && f(0xE000) == [0xEE, 0x80, 0x80]
    && f(0x10000) == [0xF0, 0x90, 0x80, 0x80]
    && forall c: int :: Scalar(c) && Scalar(c + 1) && c + 1 != 0x80 && c + 1 != 0x800 && c + 1 != 0x10000 ==> f(c + 1) == Next8(f(c))
  }

  lemma {:induction false} OnlyUtf8(f: int -> seq<byte>, c: int)
    requires GoesOn(f) && Scalar(c)
    ensures f(c) == Utf8(c)
    decreases c
  {
    hide Next8, Utf8;
    Utf8Ends();
    if c != 0x00 && c != 0x80 && c != 0x800 && c != 0xE000 && c != 0x10000 {
      OnlyUtf8(f, c - 1);
      LeadRange(c);
      LeadRange(c - 1);
      Utf8Next(c - 1);
      assert f(c - 1 + 1) == Next8(f(c - 1));
    }
  }

  // ---------------------------------------------------------------- surrogate pairs

  /** Pairs are ordered as the values beyond the first plane are, from the first pair to the last. */
  lemma PairsOrdered(c: int, d: int)
    requires 0x10000 <= c < d < 0x110000
    ensures Before(Units(c), Units(d), UnitLess())
    ensures Units(0x10000) == [0xD800, 0xDC00] && Units(0x10FFFF) == [0xDBFF, 0xDFFF]
  {
    var a, b := Units(c), Units(d);
    DecidedAt(a, b, UnitLess(), if a[0] < b[0] then 0 else 1);
  }

  /** The next value has the next pair: the second unit one higher, or the first one and the second back at its start. */
  lemma NextPair(c: int)
    requires 0x10000 <= c && c + 1 < 0x110000
    ensures Units(c + 1) == if Units(c)[1] == 0xDFFF then [Units(c)[0] + 1, 0xDC00] else [Units(c)[0], Units(c)[1] + 1]
  {
  }

  /** Values of the first plane are their own unit, and no unit of theirs is a surrogate. */
  lemma PlaneZero(c: int)
    requires Scalar(c) && c < 0x10000
    ensures Units(c) == [c as unit] && !High(c as unit) && !Low(c as unit)
  {
  }

  // ---------------------------------------------------------------- the replacement

  /** What stands for an ill-formed unit is the form of U+FFFD. */
  lemma ReplacementIsFFFD()
    ensures Scalar(0xFFFD) && REPLACEMENT == Utf8(0xFFFD) == [0xEF, 0xBF, 0xBD]
  {
  }

  /** Which units are ill-formed: a second half with no first half before it, and a first half with no second half behind. */
  lemma IllFormedIs(us: seq<unit>)
    requires us != []
    ensures Front16(us) == 0 <==> 0xDC00 <= us[0] <= 0xDFFF
                                  || (0xD800 <= us[0] <= 0xDBFF && (|us| == 1 || !(0xDC00 <= us[1] <= 0xDFFF)))
  {
  }

  /** The replacing conversion, character by character: the form of a pair's value, of the unit itself, or of U+FFFD. */
  lemma ConvertedAs(us: seq<unit>)
    requires us != []
    ensures ToUtf8(us) ==
            if 0xD800 <= us[0] <= 0xDBFF && |us| > 1 && 0xDC00 <= us[1] <= 0xDFFF then
              Utf8(0x10000 + (us[0] as int - 0xD800) * 1024 + (us[1] as int - 0xDC00)) + ToUtf8(us[2..])
            else if 0xD800 <= us[0] <= 0xDFFF then [0xEF, 0xBF, 0xBD] + ToUtf8(us[1..])
            else Utf8(us[0] as int) + ToUtf8(us[1..])
  {
    hide Utf8;
  }
}
