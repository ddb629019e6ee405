/** The connection-string tokenizer with brace-quoted values, and percent decoding
    (src/mssql_storage.cpp:349-384, 490-585). */
module ConnString {

  datatype Pair = Pair(key: string, value: string)

  const SPACES: string := [' ', '\t', '\n', 11 as char, 12 as char, '\r']
  const BLANKS: string := " \t"
  const SEPARATORS: string := "; \t"

  function DropWhile(s: string, set_: string): (r: string)
    ensures |r| <= |s| && (r != "" ==> r[0] !in set_)
  {
    if s != "" && s[0] in set_ then DropWhile(s[1..], set_) else s
  }

  /** Length of the longest prefix without a stop character. */
  function Until(s: string, stops: string): (n: nat)
    ensures n <= |s| && (forall k :: 0 <= k < n ==> s[k] !in stops) && (n < |s| ==> s[n] in stops)
  {
    if s == "" || s[0] in stops then 0 else 1 + Until(s[1..], stops)
  }

  function TrimRight(s: string): (r: string)
    ensures |r| <= |s|
  {
    if s != "" && s[|s| - 1] in SPACES then TrimRight(s[..|s| - 1]) else s
  }

  function Trim(s: string): string { TrimRight(DropWhile(s, SPACES)) }

  /** A value from just after its opening brace, and the text behind the closing one. */
  function Braced(s: string): (r: (string, string))
    ensures |r.1| <= |s|
  {
    if s == "" then ("", "")
    else if s[0] == '}' then
      if |s| > 1 && s[1] == '}' then var r := Braced(s[2..]); ("}" + r.0, r.1) else ("", s[1..])
    else var r := Braced(s[1..]); ([s[0]] + r.0, r.1)
  }

  function DropSemicolon(s: string): (r: string)
    ensures |r| <= |s|
  {
    if s != "" && s[0] == ';' then s[1..] else s
  }

  /** A value from just after its `=`, and the text behind it and its semicolon. */
  function Value(s: string): (r: (string, string))
    ensures |r.1| <= |s|
  {
    var v := DropWhile(s, BLANKS);
    if v != "" && v[0] == '{' then
      var r := Braced(v[1..]);
      (r.0, DropSemicolon(DropWhile(r.1, BLANKS)))
    else
      var n := Until(v, ";");
      (Trim(v[..n]), DropSemicolon(v[n..]))
  }

  /** The pairs of a connection string; each step leaves a strictly shorter rest. */
  function Tokens(s: string): seq<Pair>
    decreases |s|
  {
    var t := DropWhile(s, SEPARATORS);
    if t == "" then []
    else
      var n := Until(t, "=;");
      if n == |t| || t[n] != '=' then Tokens(t[n..])
      else
        var key, v := Trim(t[..n]), Value(t[n + 1..]);
        if key == "" then Tokens(v.1) else [Pair(key, v.0)] + Tokens(v.1)
  }

  // ---------------------------------------------------------------- the loops

  method Skip(cs: string, from: nat, set_: string) returns (i: nat)
    requires from <= |cs|
    ensures from <= i <= |cs| && cs[i..] == DropWhile(cs[from..], set_)
  {
    i := from;
    while i < |cs| && cs[i] in set_
      invariant from <= i <= |cs| && DropWhile(cs[i..], set_) == DropWhile(cs[from..], set_)
    {
      assert cs[i..][1..] == cs[i + 1..];
      i := i + 1;
    }
  }

  method Find(cs: string, from: nat, stops: string) returns (i: nat)
    requires from <= |cs|
    ensures i == from + Until(cs[from..], stops)
  {
    i := from;
    while i < |cs| && cs[i] !in stops
      invariant from <= i <= |cs| && from + Until(cs[from..], stops) == i + Until(cs[i..], stops)
    {
      assert cs[i..][1..] == cs[i + 1..];
      i := i + 1;
    }
  }

  /** Inside braces, where a doubled closing brace stands for one. */
  method ReadBraced(cs: string, from: nat) returns (value: string, i: nat)
    requires from <= |cs|
    ensures from <= i <= |cs| && (value, cs[i..]) == Braced(cs[from..])
  {
    value, i := "", from;
    assert "" + Braced(cs[from..]).0 == Braced(cs[from..]).0;
    while i < |cs|
      invariant from <= i <= |cs|
      invariant var r := Braced(cs[i..]); Braced(cs[from..]) == (value + r.0, r.1)
    {
      ghost var rest := cs[i..];
      assert rest[1..] == cs[i + 1..] && (i + 1 < |cs| ==> rest[1] == cs[i + 1] && rest[2..] == cs[i + 2..]);
      if cs[i] == '}' {
        if i + 1 < |cs| && cs[i + 1] == '}' {
          assert value + ("}" + Braced(cs[i + 2..]).0) == (value + "}") + Braced(cs[i + 2..]).0;
          value := value + "}";
          i := i + 2;
          continue;
        }
        i := i + 1;
        assert value + "" == value;
        return;
      }
      assert value + ([cs[i]] + Braced(cs[i + 1..]).0) == (value + [cs[i]]) + Braced(cs[i + 1..]).0;
      value := value + [cs[i]];
      i := i + 1;
    }
    assert value + "" == value;
  }

  method SkipSemicolon(cs: string, from: nat) returns (i: nat)
    requires from <= |cs|
    ensures from <= i <= |cs| && cs[i..] == DropSemicolon(cs[from..])
  {
    i := from;
    if i < |cs| && cs[i] == ';' { i := i + 1; }
  }

  method ReadValue(cs: string, from: nat) returns (value: string, i: nat)
    requires from <= |cs|
    ensures from <= i <= |cs| && (value, cs[i..]) == Value(cs[from..])
  {
    hide Braced, DropWhile, Until, Trim;
    i := Skip(cs, from, BLANKS);
    ghost var v := cs[i..];
    if i < |cs| && cs[i] == '{' {
      assert v[1..] == cs[i + 1..];
      value, i := ReadBraced(cs, i + 1);
      i := Skip(cs, i, BLANKS);
    } else {
      var start := i;
      i := Find(cs, i, ";");
      value := Trim(cs[start..i]);
      assert v[..i - start] == cs[start..i] && v[i - start..] == cs[i..];
    }
    i := SkipSemicolon(cs, i);
  }

  method TokenizeConnectionString(cs: string) returns (out: seq<Pair>)
    ensures out == Tokens(cs)
  {
    hide Value, Trim, DropWhile, Until, Tokens;
    out := [];
    var i := 0;
    assert cs[0..] == cs;
    while i < |cs|
      invariant i <= |cs| && Tokens(cs) == out + Tokens(cs[i..])
      decreases |cs| - i
    {
      ghost var before := cs[i..];
      TokensStep(before);
      i := Skip(cs, i, SEPARATORS);
      if i >= |cs| {
        assert DropWhile(before, SEPARATORS) == "" && out + [] == out;
        return;
      }
      var start := i;
      i := Find(cs, i, "=;");
      ghost var t, n := cs[start..], i - start;
      assert t == DropWhile(before, SEPARATORS) && t != "" && t[n..] == cs[i..] && t[..n] == cs[start..i];
      if i >= |cs| || cs[i] != '=' {
        assert i < |cs| ==> t[n] == cs[i];
        i := Find(cs, i, ";");
        continue;
      }
      assert t[n] == '=' && t[n + 1..] == cs[i + 1..];
      var key := Trim(cs[start..i]);
      var value;
      value, i := ReadValue(cs, i + 1);
      if key == "" { continue; }
      assert out + ([Pair(key, value)] + Tokens(cs[i..])) == (out + [Pair(key, value)]) + Tokens(cs[i..]);
      out := out + [Pair(key, value)];
    }
    assert cs[i..] == "" && out + [] == out;
    NoTokens();
  }

  lemma TokensStep(s: string)
    ensures var t := DropWhile(s, SEPARATORS);
            Tokens(s) ==
            if t == "" then []
            else
              var n := Until(t, "=;");
              if n == |t| || t[n] != '=' then Tokens(t[n..])
              else
                var key, v := Trim(t[..n]), Value(t[n + 1..]);
                if key == "" then Tokens(v.1) else [Pair(key, v.0)] + Tokens(v.1)
  {
    hide Value, Trim, DropWhile, Until;
  }

  // ---------------------------------------------------------------- printing and reading back

  /** A key the tokenizer can give back: trimmed, not empty, and free of `=` and `;`. */
  predicate KeyOk(key: string) { key != "" && Trim(key) == key && forall k :: 0 <= k < |key| ==> key[k] !in "=;" }

  function DoubledBraces(s: string): string {
    if s == "" then "" else (if s[0] == '}' then "}}" else [s[0]]) + DoubledBraces(s[1..])
  }

  /** A value that can be written without braces: free of `;`, trimmed, and not starting with a brace. */
  predicate PlainOk(value: string) {
    (forall k :: 0 <= k < |value| ==> value[k] != ';') && Trim(value) == value && (value != "" ==> value[0] != '{')
  }

  function ValueText(value: string, plain: bool): string { if plain then value else "{" + (DoubledBraces(value) + "}") }

  function PairText(p: Pair, plain: bool): string { p.key + ("=" + ValueText(p.value, plain)) }

  /** Pairs, each with its value in braces or as it is, separated by semicolons, and one more at the end or not. */
  function Printed(pairs: seq<Pair>, plain: seq<bool>, last: bool): string
    requires |plain| == |pairs|
  {
    if pairs == [] then ""
    else
      PairText(pairs[0], plain[0])
      + if |pairs| == 1 then (if last then ";" else "") else ";" + Printed(pairs[1..], plain[1..], last)
  }

  lemma {:induction false} BracesReadBack(v: string, rest: string)
    requires rest != "" ==> rest[0] != '}'
    ensures Braced(DoubledBraces(v) + ("}" + rest)) == (v, rest)
  {
    if v == "" {
      assert DoubledBraces(v) + ("}" + rest) == "}" + rest && ("}" + rest)[1..] == rest;
    } else {
      var head, tail := if v[0] == '}' then "}}" else [v[0]], DoubledBraces(v[1..]) + ("}" + rest);
      assert DoubledBraces(v) + ("}" + rest) == head + tail && (head + tail)[|head|..] == tail;
      BracesReadBack(v[1..], rest);
      assert [v[0]] + v[1..] == v;
    }
  }

  lemma {:induction false} UntilAt(s: string, n: nat, stops: string)
    requires n < |s| && s[n] in stops && forall k :: 0 <= k < n ==> s[k] !in stops
    ensures Until(s, stops) == n
  {
    if n > 0 { UntilAt(s[1..], n - 1, stops); }
  }

  lemma {:induction false} TrimRightStarts(s: string)
    ensures TrimRight(s) != "" ==> s != "" && TrimRight(s)[0] == s[0]
  {
    if s != "" && s[|s| - 1] in SPACES { TrimRightStarts(s[..|s| - 1]); }
  }

  lemma TrimmedStarts(key: string)
    requires KeyOk(key)
    ensures key[0] !in SPACES && key[0] !in SEPARATORS
  {
    var d := DropWhile(key, SPACES);
    TrimRightStarts(d);
    assert |d| <= |key|;
  }

  lemma BracedReadsBack(v: string, rest: string)
    requires rest == "" || rest[0] == ';'
    ensures Value("{" + (DoubledBraces(v) + ("}" + rest))) == (v, if rest == "" then "" else rest[1..])
  {
    hide Braced, DoubledBraces, Trim, Until;
    var s := "{" + (DoubledBraces(v) + ("}" + rest));
    assert s[0] == '{' && s[1..] == DoubledBraces(v) + ("}" + rest);
    BracesReadBack(v, rest);
  }

  /** Any text free of `;` that does not start with a brace behind its blanks is read as it stands, trimmed. */
  lemma PlainReadsBack(v: string, rest: string)
    requires forall k :: 0 <= k < |v| ==> v[k] != ';'
    requires DropWhile(v, BLANKS) != "" ==> DropWhile(v, BLANKS)[0] != '{'
    requires rest == "" || rest[0] == ';'
    ensures Value(v + rest) == (Trim(v), if rest == "" then "" else rest[1..])
  {
    hide DropWhile, Until, Value, Trim, DropSemicolon;
    var w := DropWhile(v, BLANKS);
    DropOver(v, rest);
    DropSuffix(v, BLANKS);
    UntilRest(w, rest);
    assert (w + rest)[..|w|] == w && (w + rest)[|w|..] == rest && (w != "" ==> (w + rest)[0] == w[0]);
    Unbraced(v + rest);
    SameTrim(v);
    Semicolon(rest);
  }

  lemma UntilRest(w: string, rest: string)
    requires (forall k :: 0 <= k < |w| ==> w[k] != ';') && (rest == "" || rest[0] == ';')
    ensures Until(w + rest, ";") == |w|
  {
    hide Until;
    if rest == "" {
      UntilEnd(w, ";");
      assert w + rest == w;
    } else {
      UntilAt(w + rest, |w|, ";");
    }
  }

  lemma Unbraced(s: string)
    requires var v := DropWhile(s, BLANKS); v != "" ==> v[0] != '{'
    ensures var v := DropWhile(s, BLANKS); var n := Until(v, ";"); Value(s) == (Trim(v[..n]), DropSemicolon(v[n..]))
  {
    hide DropWhile, Until, Trim, DropSemicolon;
  }

  lemma SameTrim(v: string)
    ensures Trim(DropWhile(v, BLANKS)) == Trim(v)
  {
    BlanksThenTrim(v);
    hide DropWhile, TrimRight;
  }

  lemma Semicolon(rest: string)
    requires rest == "" || rest[0] == ';'
    ensures DropSemicolon(rest) == if rest == "" then "" else rest[1..]
  {
  }

  lemma {:induction false} DropOver(v: string, rest: string)
    requires rest == "" || rest[0] == ';'
    ensures DropWhile(v + rest, BLANKS) == DropWhile(v, BLANKS) + rest
  {
    if v == "" {
      assert v + rest == rest;
    } else {
      assert (v + rest)[1..] == v[1..] + rest;
      DropOver(v[1..], rest);
    }
  }

  lemma {:induction false} DropSuffix(s: string, set_: string)
    ensures var d := DropWhile(s, set_); d == s[|s| - |d|..]
  {
    if s != "" && s[0] in set_ { DropSuffix(s[1..], set_); }
  }

  lemma {:induction false} UntilEnd(s: string, stops: string)
    requires forall k :: 0 <= k < |s| ==> s[k] !in stops
    ensures Until(s, stops) == |s|
  {
    if s != "" { UntilEnd(s[1..], stops); }
  }

  lemma {:induction false} BlanksThenTrim(s: string)
    ensures DropWhile(DropWhile(s, BLANKS), SPACES) == DropWhile(s, SPACES)
  {
    if s != "" && s[0] in BLANKS {
      assert s[0] in SPACES;
      BlanksThenTrim(s[1..]);
    }
  }

  /** Trimming takes whitespace off both ends, and nothing else. */
  lemma TrimIs(s: string) returns (left: string, right: string)
    ensures s == left + Trim(s) + right
    ensures forall k :: 0 <= k < |left| ==> left[k] in [' ', '\t', '\n', '\r', 11 as char, 12 as char]
    ensures forall k :: 0 <= k < |right| ==> right[k] in [' ', '\t', '\n', '\r', 11 as char, 12 as char]
    ensures Trim(s) != "" ==> !Whitespace(Trim(s)[0]) && !Whitespace(Trim(s)[|Trim(s)| - 1])
  {
    var d := DropWhile(s, SPACES);
    DropSuffix(s, SPACES);
    left := s[..|s| - |d|];
    DroppedAre(s, SPACES);
    right := RightOf(d);
    TrimRightStarts(d);
  }

  predicate Whitespace(c: char) { c in [' ', '\t', '\n', '\r', 11 as char, 12 as char] }

  lemma {:induction false} DroppedAre(s: string, set_: string)
    ensures var d := DropWhile(s, set_); forall k :: 0 <= k < |s| - |d| ==> s[k] in set_
  {
    if s != "" && s[0] in set_ {
      DroppedAre(s[1..], set_);
      var d := DropWhile(s, set_);
      forall k | 0 <= k < |s| - |d| ensures s[k] in set_ {
        if k > 0 { assert s[k] == s[1..][k - 1]; }
      }
    }
  }

  lemma {:induction false} RightOf(s: string) returns (right: string)
    ensures s == TrimRight(s) + right && (forall k :: 0 <= k < |right| ==> Whitespace(right[k]))
    ensures TrimRight(s) != "" ==> !Whitespace(TrimRight(s)[|TrimRight(s)| - 1])
  {
    right := "";
    if s != "" && s[|s| - 1] in SPACES {
      var front := RightOf(s[..|s| - 1]);
      right := front + [s[|s| - 1]];
    }
  }

  lemma ValueReadsBack(v: string, plain: bool, rest: string)
    requires (rest == "" || rest[0] == ';') && (plain ==> PlainOk(v))
    ensures Value(ValueText(v, plain) + rest) == (v, if rest == "" then "" else rest[1..])
  {
    hide Value, Braced, DoubledBraces, Trim, Until;
    if plain {
      DropSuffix(v, BLANKS);
      PlainStarts(v);
      PlainReadsBack(v, rest);
    } else {
      BracedReadsBack(v, rest);
      assert ("{" + (DoubledBraces(v) + "}")) + rest == "{" + (DoubledBraces(v) + ("}" + rest));
    }
  }

  lemma PlainStarts(v: string)
    requires PlainOk(v)
    ensures DropWhile(v, BLANKS) == v
  {
    if v != "" {
      TrimRightStarts(DropWhile(v, SPACES));
      assert v[0] !in SPACES;
    }
  }

  lemma PairReadsBack(p: Pair, plain: bool, rest: string)
    requires KeyOk(p.key) && (plain ==> PlainOk(p.value)) && (rest == "" || rest[0] == ';')
    ensures Tokens(PairText(p, plain) + rest) == [p] + Tokens(if rest == "" then "" else rest[1..])
  {
    hide Value, Trim, ValueText, PlainOk;
    var value := ValueText(p.value, plain) + rest;
    var s, n := PairText(p, plain) + rest, |p.key|;
    assert s == p.key + ("=" + value);
    TrimmedStarts(p.key);
    assert DropWhile(s, SEPARATORS) == s;
    assert s[..n] == p.key && s[n] == '=' && s[n + 1..] == value;
    UntilAt(s, n, "=;");
    ValueReadsBack(p.value, plain, rest);
  }

  /** Printing pairs and tokenizing returns them, whatever the values in braces hold. */
  lemma {:induction false} PrintedReadsBack(pairs: seq<Pair>, plain: seq<bool>, last: bool)
    requires |plain| == |pairs|
    requires forall k :: 0 <= k < |pairs| ==> KeyOk(pairs[k].key) && (plain[k] ==> PlainOk(pairs[k].value))
    ensures Tokens(Printed(pairs, plain, last)) == pairs
  {
    hide Tokens, PairText, KeyOk, PlainOk;
    NoTokens();
    if pairs != [] {
      var rest := if |pairs| == 1 then (if last then ";" else "") else ";" + Printed(pairs[1..], plain[1..], last);
      PairReadsBack(pairs[0], plain[0], rest);
      assert ";"[1..] == "";
      if |pairs| > 1 {
        PrintedReadsBack(pairs[1..], plain[1..], last);
        assert rest[1..] == Printed(pairs[1..], plain[1..], last);
      }
      assert pairs == [pairs[0]] + pairs[1..];
    }
  }

  /** A piece without `=` is passed over. */
  lemma JunkPassedOver(junk: string, rest: string)
    requires junk != "" && junk[0] !in SEPARATORS && forall k :: 0 <= k < |junk| ==> junk[k] !in "=;"
    ensures Tokens(junk + (";" + rest)) == Tokens(";" + rest)
  {
    var s := junk + (";" + rest);
    assert s[0] !in SEPARATORS && s[|junk|] == ';' && s[|junk|..] == ";" + rest;
    StartsHere(s);
    UntilAt(s, |junk|, "=;");
    hide *;
    TokensStep(s);
  }

  lemma StartsHere(s: string)
    requires s != "" && s[0] !in SEPARATORS
    ensures DropWhile(s, SEPARATORS) == s
  {
  }

  /** And so is a value whose key is blank. */
  lemma KeylessPassedOver(value: string, rest: string)
    requires PlainOk(value)
    ensures Tokens("=" + (value + (";" + rest))) == Tokens(rest)
  {
    var t := "=" + (value + (";" + rest));
    assert t[1..] == value + (";" + rest) && (";" + rest)[1..] == rest && t[0] == '=' && t[0] !in SEPARATORS;
    StartsHere(t);
    UntilAt(t, 0, "=;");
    BlankKey(t);
    ValueReadsBack(value, true, ";" + rest);
    assert ValueText(value, true) == value;
    hide *;
    TokensStep(t);
  }

  lemma BlankKey(t: string)
    ensures t[..0] == "" && Trim("") == ""
  {
  }

  lemma NoTokens()
    ensures Tokens("") == []
  {
  }

  // ---------------------------------------------------------------- percent decoding

  predicate IsHexDigit(c: char) { '0' <= c <= '9' || 'A' <= c <= 'F' || 'a' <= c <= 'f' }

  function HexVal(c: char): (v: nat)
    requires IsHexDigit(c)
    ensures v < 16
  {
    if c <= '9' then c as int - '0' as int else if c <= 'F' then 10 + (c as int - 'A' as int) else 10 + (c as int - 'a' as int)
  }

  predicate Escape(s: string) { |s| >= 3 && s[0] == '%' && IsHexDigit(s[1]) && IsHexDigit(s[2]) }

  function Decoded(s: string): string {
    if s == "" then ""
    else if Escape(s) then [(HexVal(s[1]) * 16 + HexVal(s[2])) as char] + Decoded(s[3..])
    else [s[0]] + Decoded(s[1..])
  }

  lemma DecodedStep(s: string)
    requires s != ""
    ensures Decoded(s) == if Escape(s) then [(HexVal(s[1]) * 16 + HexVal(s[2])) as char] + Decoded(s[3..]) else [s[0]] + Decoded(s[1..])
  {
    hide Escape, HexVal;
  }

  method UrlDecode(str: string) returns (result: string)
    ensures result == Decoded(str)
  {
    hide Decoded, HexVal, IsHexDigit;
    assert Decoded("") == "" by { NothingDecoded(); }
    result := "";
    var i := 0;
    assert str[0..] == str && "" + Decoded(str) == Decoded(str);
    while i < |str|
      invariant i <= |str| && Decoded(str) == result + Decoded(str[i..])
    {
      ghost var rest := str[i..];
      DecodedStep(rest);
      assert rest[1..] == str[i + 1..] && (i + 2 < |str| ==> rest[1] == str[i + 1] && rest[2] == str[i + 2] && rest[3..] == str[i + 3..]);
      if str[i] == '%' && i + 2 < |str| && IsHexDigit(str[i + 1]) && IsHexDigit(str[i + 2]) {
        var c := (HexVal(str[i + 1]) * 16 + HexVal(str[i + 2])) as char;
        assert result + ([c] + Decoded(str[i + 3..])) == (result + [c]) + Decoded(str[i + 3..]);
        result := result + [c];
        i := i + 3;
      } else {
        assert result + ([str[i]] + Decoded(str[i + 1..])) == (result + [str[i]]) + Decoded(str[i + 1..]);
        result := result + [str[i]];
        i := i + 1;
      }
    }
    assert str[i..] == "" && result + "" == result;
  }

  lemma NothingDecoded()
    ensures Decoded("") == ""
  {
  }

  /** The hex digits as they are written, in either case. */
  predicate DigitFor(c: char, v: int) { 0 <= v < 16 && (c == "0123456789ABCDEF"[v] || c == "0123456789abcdef"[v]) }

  lemma DigitsRead(c: char, v: int)
    requires DigitFor(c, v)
    ensures IsHexDigit(c) && HexVal(c) == v
  {
  }

  lemma DigitsAre(c: char)
    ensures IsHexDigit(c) <==> exists v :: 0 <= v < 16 && DigitFor(c, v)
  {
    if IsHexDigit(c) { assert DigitFor(c, HexVal(c)); }
  }

  /** `%` and the two digits of a byte. */
  predicate EscapeOf(s: string, c: char) { |s| >= 3 && s[0] == '%' && DigitFor(s[1], c as int / 16) && DigitFor(s[2], c as int % 16) }

  /** `s` stands for `data`: a character stands for itself, a percent sign too where no two digits follow it, and an
      escape, in either case, for its byte. */
  predicate Encodes(s: string, data: string)
    decreases |data|
  {
    if data == "" then s == ""
    else
      (s != "" && s[0] == data[0] && (s[0] == '%' ==> !StartsEscape(s)) && Encodes(s[1..], data[1..]))
      || (EscapeOf(s, data[0]) && Encodes(s[3..], data[1..]))
  }

  predicate StartsEscape(s: string) {
    |s| >= 3 && s[0] == '%' && (exists v :: 0 <= v < 16 && DigitFor(s[1], v)) && (exists v :: 0 <= v < 16 && DigitFor(s[2], v))
  }

  lemma StartsAre(s: string)
    ensures StartsEscape(s) <==> Escape(s)
  {
    if |s| >= 3 {
      DigitsAre(s[1]);
      DigitsAre(s[2]);
    }
  }

  /** Decoding gives what a text stands for: it inverts every encoding that escapes each percent sign that digits
      follow, and keeps the percent signs that start no escape. */
  lemma {:induction false} EncodingsDecode(s: string, data: string)
    requires Encodes(s, data)
    ensures Decoded(s) == data
    decreases |data|
  {
    hide StartsEscape, DigitFor, Escape;
    if data != "" {
      assert data == [data[0]] + data[1..];
      StartsAre(s);
      if s[0] == data[0] && (s[0] == '%' ==> !StartsEscape(s)) && Encodes(s[1..], data[1..]) {
        if s[0] != '%' { NoEscape(s); }
        EncodingsDecode(s[1..], data[1..]);
      } else {
        DigitsRead(s[1], data[0] as int / 16);
        DigitsRead(s[2], data[0] as int % 16);
        IsEscape(s);
        EncodingsDecode(s[3..], data[1..]);
      }
    }
  }

  lemma NoEscape(s: string)
    requires s != "" && s[0] != '%'
    ensures !Escape(s)
  {
  }

  lemma IsEscape(s: string)
    requires |s| >= 3 && s[0] == '%' && IsHexDigit(s[1]) && IsHexDigit(s[2])
    ensures Escape(s)
  {
  }
}
