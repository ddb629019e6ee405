/** The compiler from a table filter's regex to a T-SQL predicate (src/catalog/mssql_catalog_filter.cpp:104-394):
    its loops, the functions they compute, and what regex and predicate mean. */
module RegexLike {
  import opened Staging

  // ---------------------------------------------------------------- the compiler's functions

  /** What the scan of one alternative found: a construct it cannot convert, or a LIKE text and an end anchor. */
  datatype Scanned = Refused | Scanned(like: string, end: bool)

  function Prepend(like: string, r: Scanned): Scanned {
    if r.Refused? then Refused else Scanned(like + r.like, r.end)
  }

  predicate Escapable(c: char) { c in ".*+?[](){}|^$\\" }

  predicate Unconvertible(c: char) { c in "[({|?+*" }

  /** A character to be matched literally, in LIKE syntax. */
  function LikeChar(c: char): string { if c in "%_[" then ['[', c, ']'] else [c] }

  /** The LIKE text of the next construct and how many characters it takes. */
  datatype Token = Bad | Token(like: string, width: nat)

  function NextToken(s: string): (r: Token)
    requires s != ""
    ensures r.Token? ==> 1 <= r.width <= |s|
  {
    if s[0] == '.' && |s| > 1 && s[1] == '*' then Token("%", 2)
    else if s[0] == '.' && |s| > 1 && s[1] == '+' then Token("_%", 2)
    else if s[0] == '.' then Token("_", 1)
    else if s[0] == '\\' && |s| > 1 then if Escapable(s[1]) then Token(LikeChar(s[1]), 2) else Bad
    else if Unconvertible(s[0]) then Bad
    else Token(LikeChar(s[0]), 1)
  }

  function ScanBody(s: string): Scanned {
    if s == "" then Scanned("", false)
    else if s == "$" then Scanned("", true)
    else
      var token := NextToken(s);
      if token.Bad? then Refused else Prepend(token.like, ScanBody(s[token.width..]))
  }

  /** `%` on the sides that are not anchored, unless one is there already. */
  function Widen(start: bool, like: string, end: bool): string {
    var full := if !start && (like == "" || like[0] != '%') then "%" + like else like;
    if !end && (full == "" || full[|full| - 1] != '%') then full + "%" else full
  }

  /** The LIKE pattern of one alternative. */
  function LikeOf(pattern: string): Option<string> {
    if pattern == "" then None
    else
      var start := pattern[0] == '^';
      var r := ScanBody(pattern[if start then 1 else 0..]);
      if r.Refused? then None else Some(Widen(start, r.like, r.end))
  }

  function Doubled(s: string): string {
    if s == "" then "" else (if s[0] == '\'' then "''" else [s[0]]) + Doubled(s[1..])
  }

  /** The alternatives of `s` cut at `|` outside parentheses, and whether there are two or more and the cut ran to
      the end: the pieces found so far come back either way. */
  function Split(s: string, out: seq<string>, current: string, depth: int): (seq<string>, bool) {
    if s == "" then
      if current == "" || depth != 0 then (out, false) else (out + [current], |out| >= 1)
    else if s[0] == '\\' && |s| > 1 then Split(s[2..], out, current + s[..2], depth)
    else if s[0] == '|' && depth == 0 then
      if current == "" then (out, false) else Split(s[1..], out + [current], "", 0)
    else Split(s[1..], out, current + [s[0]], if s[0] == '(' then depth + 1 else if s[0] == ')' then depth - 1 else depth)
  }

  predicate Meta(c: char) { c in ".*+?[](){}|\\" }

  predicate PlainLiteral(s: string) { forall i :: 0 <= i < |s| ==> !Meta(s[i]) }

  /** An alternative of the form ^literal$. */
  predicate Exact(alt: string) {
    |alt| >= 3 && alt[0] == '^' && alt[|alt| - 1] == '$' && PlainLiteral(alt[1..|alt| - 1])
  }

  /** An alternative with its group's anchors put on, where its own first and last characters are not those. */
  function Anchored(start: bool, alt: string, end: bool): string {
    var left := if start && alt != "" && alt[0] != '^' then "^" + alt else alt;
    if end && left != "" && left[|left| - 1] != '$' then left + "$" else left
  }

  datatype Predicate = Like(p: string) | Or(ps: seq<string>) | In(vs: seq<string>)

  function LikeAll(start: bool, alts: seq<string>, end: bool): Option<seq<string>> {
    if alts == [] then Some([])
    else
      var first, rest := LikeOf(Anchored(start, alts[0], end)), LikeAll(start, alts[1..], end);
      if first.None? || rest.None? then None else Some([first.value] + rest.value)
  }

  /** The inside of a pattern that is one group with optional anchors around it. */
  function GroupInside(t: string): Option<string> {
    var lo := if t != "" && t[0] == '^' then 1 else 0;
    var hi := if |t| > lo && t[|t| - 1] == '$' then |t| - 1 else |t|;
    if hi - lo >= 2 && t[lo] == '(' && t[hi - 1] == ')' then Some(t[lo + 1..hi - 1]) else None
  }

  datatype Alternatives = Alternatives(start: bool, alts: seq<string>, end: bool)

  function AlternativesOf(t: string): Alternatives {
    var inside := GroupInside(t);
    var grouped := if inside.Some? then Split(inside.value, [], "", 0).0 else [];
    if grouped != [] then Alternatives(t[0] == '^', grouped, t[|t| - 1] == '$')
    else Alternatives(false, Split(t, [], "", 0).0, false)
  }

  function Inner(alt: string): string { if |alt| >= 2 then alt[1..|alt| - 1] else "" }

  function Inners(alts: seq<string>): seq<string> { seq(|alts|, i requires 0 <= i < |alts| => Inner(alts[i])) }

  function Combine(a: Alternatives): Option<Predicate> {
    if a.start && a.end && (forall i :: 0 <= i < |a.alts| ==> PlainLiteral(a.alts[i])) then Some(In(a.alts))
    else if !a.start && !a.end && (forall i :: 0 <= i < |a.alts| ==> Exact(a.alts[i])) then
      Some(In(Inners(a.alts)))
    else
      var likes := LikeAll(a.start, a.alts, a.end);
      if likes.None? then None else Some(Or(likes.value))
  }

  function Convert(t: string): Option<Predicate> {
    if t == "" then None
    else
      var a := AlternativesOf(t);
      if |a.alts| >= 2 then Combine(a)
      else
        var like := LikeOf(t);
        if like.None? then None else Some(Like(like.value))
  }

  // ---------------------------------------------------------------- the predicate's text

  function LikeText(column: string, p: string): string { column + " LIKE '" + Doubled(p) + "'" }

  function Joined(parts: seq<string>, separator: string): string {
    if parts == [] then "" else if |parts| == 1 then parts[0] else parts[0] + separator + Joined(parts[1..], separator)
  }

  function Texts(column: string, ps: seq<string>): seq<string> {
    seq(|ps|, i requires 0 <= i < |ps| => LikeText(column, ps[i]))
  }

  function Quotes(vs: seq<string>): seq<string> { seq(|vs|, i requires 0 <= i < |vs| => "'" + Doubled(vs[i]) + "'") }

  function Render(column: string, p: Option<Predicate>): string {
    match p
    case None => ""
    case Some(Like(like)) => LikeText(column, like)
    case Some(Or(ps)) => "(" + Joined(Texts(column, ps), " OR ") + ")"
    case Some(In(vs)) => column + " IN (" + Joined(Quotes(vs), ", ") + ")"
  }

  // ---------------------------------------------------------------- the loops

  lemma {:induction false} DoubledSnoc(s: string, c: char)
    ensures Doubled(s + [c]) == Doubled(s) + if c == '\'' then "''" else [c]
  {
    if s == "" {
      assert s + [c] == [c];
      assert Doubled([c][1..]) == "";
    } else {
      DoubledSnoc(s[1..], c);
      assert (s + [c])[1..] == s[1..] + [c];
    }
  }

  lemma {:induction false} JoinedSnoc(parts: seq<string>, separator: string, part: string)
    ensures Joined(parts + [part], separator) == if parts == [] then part else Joined(parts, separator) + separator + part
  {
    var all := parts + [part];
    if parts == [] {
      assert all == [part];
    } else {
      var rest := parts[1..];
      JoinedSnoc(rest, separator, part);
      assert all[1..] == rest + [part];
      if rest != [] {
        assert parts[0] + separator + (Joined(rest, separator) + separator + part)
               == (parts[0] + separator + Joined(rest, separator)) + separator + part;
      }
    }
  }

  method EscapeSQLLiteral(s: string) returns (escaped: string)
    ensures escaped == Doubled(s)
  {
    escaped := "";
    for i := 0 to |s|
      invariant escaped == Doubled(s[..i])
    {
      DoubledSnoc(s[..i], s[i]);
      assert s[..i + 1] == s[..i] + [s[i]];
      if s[i] == '\'' { escaped := escaped + "''"; } else { escaped := escaped + [s[i]]; }
    }
    assert s[..|s|] == s;
  }

  method IsPlainLiteral(s: string) returns (plain: bool)
    ensures plain <==> PlainLiteral(s)
  {
    for i := 0 to |s|
      invariant PlainLiteral(s[..i])
    {
      if Meta(s[i]) { return false; }
    }
    plain := true;
  }

  lemma PrependAssoc(a: string, b: string, r: Scanned)
    ensures Prepend(a + b, r) == Prepend(a, Prepend(b, r))
  {
    if r.Scanned? { assert (a + b) + r.like == a + (b + r.like); }
  }

  lemma ScanStep(s: string, i: nat, like: string)
    requires i < |s| && s[i..] != "$" && NextToken(s[i..]).Token?
    ensures var token := NextToken(s[i..]);
            Prepend(like, ScanBody(s[i..])) == Prepend(like + token.like, ScanBody(s[i + token.width..]))
  {
    var token := NextToken(s[i..]);
    assert s[i..][token.width..] == s[i + token.width..];
    PrependAssoc(like, token.like, ScanBody(s[i + token.width..]));
  }

  /** The construct at `i`. */
  method Scan(pattern: string, i: nat) returns (token: Token)
    requires i < |pattern|
    ensures token == NextToken(pattern[i..])
  {
    ghost var rest := pattern[i..];
    var c, more := pattern[i], i + 1 < |pattern|;
    assert rest[0] == c && (more ==> rest[1] == pattern[i + 1]);
    if c == '.' && more && pattern[i + 1] == '*' { return Token("%", 2); }
    if c == '.' && more && pattern[i + 1] == '+' { return Token("_%", 2); }
    if c == '.' { return Token("_", 1); }
    if c == '\\' && more {
      if Escapable(pattern[i + 1]) { return Token(LikeChar(pattern[i + 1]), 2); }
      return Bad;
    }
    if Unconvertible(c) { return Bad; }
    token := Token(LikeChar(c), 1);
  }

  method AddWildcards(start: bool, like: string, end: bool) returns (full: string)
    ensures full == Widen(start, like, end)
  {
    if !start && (like == "" || like[0] != '%') { full := "%" + like; } else { full := like; }
    if !end && (full == "" || full[|full| - 1] != '%') { full := full + "%"; }
  }

  method ConvertSinglePatternToLike(pattern: string, column: string) returns (r: string)
    ensures r == if LikeOf(pattern).Some? then LikeText(column, LikeOf(pattern).value) else ""
  {
    hide NextToken, Doubled, Widen;
    if pattern == "" { return ""; }
    var like, end, i := "", false, 0;
    var start := pattern[0] == '^';
    if start { i := 1; }
    ghost var goal := ScanBody(pattern[i..]);
    while i < |pattern|
      invariant i <= |pattern|
      invariant end ==> i == |pattern|
      invariant goal == Prepend(like, if end then Scanned("", true) else ScanBody(pattern[i..]))
    {
      if pattern[i] == '$' && i == |pattern| - 1 {
        assert pattern[i..] == "$";
        end := true;
        i := i + 1;
        continue;
      }
      var token := Scan(pattern, i);
      if token.Bad? { return ""; }
      ScanStep(pattern, i, like);
      like := like + token.like;
      i := i + token.width;
    }
    assert (end || pattern[i..] == "") && like + "" == like;
    assert goal == Scanned(like, end);
    var full := AddWildcards(start, like, end);
    var escaped := EscapeSQLLiteral(full);
    r := column + " LIKE '" + escaped + "'";
  }

  method SplitAlternatives(s: string) returns (out: seq<string>, ok: bool)
    ensures (out, ok) == Split(s, [], "", 0)
  {
    out := [];
    var current, depth, i := "", 0, 0;
    while i < |s|
      invariant i <= |s|
      invariant Split(s, [], "", 0) == Split(s[i..], out, current, depth)
    {
      var c := s[i];
      ghost var rest := s[i..];
      assert rest[0] == c && rest[1..] == s[i + 1..];
      if c == '\\' && i + 1 < |s| {
        assert rest[2..] == s[i + 2..] && rest[..2] == [c, s[i + 1]];
        current := current + [c, s[i + 1]];
        i := i + 2;
        continue;
      }
      if c == '(' {
        depth := depth + 1;
      } else if c == ')' {
        depth := depth - 1;
      } else if c == '|' && depth == 0 {
        if current == "" { return out, false; }
        out, current := out + [current], "";
        i := i + 1;
        continue;
      }
      current := current + [c];
      i := i + 1;
    }
    assert s[i..] == "";
    if current == "" || depth != 0 { return out, false; }
    out := out + [current];
    ok := |out| >= 2;
  }

  lemma TextsSnoc(column: string, ps: seq<string>, p: string)
    ensures Texts(column, ps + [p]) == Texts(column, ps) + [LikeText(column, p)]
    ensures Texts(column, []) == []
  {
    hide LikeText;
  }

  method AddAnchors(start: bool, alt: string, end: bool) returns (full: string)
    ensures full == Anchored(start, alt, end)
  {
    full := alt;
    if start && full != "" && full[0] != '^' { full := "^" + full; }
    if end && full != "" && full[|full| - 1] != '$' { full := full + "$"; }
  }

  /** The general case: a LIKE for each alternative, or nothing when one cannot be converted. */
  method ConvertAll(start: bool, alts: seq<string>, end: bool, column: string) returns (ok: bool, parts: seq<string>)
    ensures ok <==> LikeAll(start, alts, end).Some?
    ensures ok ==> parts == Texts(column, LikeAll(start, alts, end).value)
  {
    hide LikeOf, LikeText, LikeAll, Texts, Anchored, Appended;
    parts := [];
    ghost var done: seq<string> := [];
    TextsSnoc(column, [], "");
    AppendNothing(LikeAll(start, alts, end));
    assert alts[0..] == alts;
    for j := 0 to |alts|
      invariant LikeAll(start, alts, end) == Appended(done, LikeAll(start, alts[j..], end))
      invariant parts == Texts(column, done)
    {
      var full := AddAnchors(start, alts[j], end);
      var converted := ConvertSinglePatternToLike(full, column);
      LikeAllStep(start, alts, end, j, done);
      TextNonEmpty(full, column);
      if converted == "" { return false, []; }
      TextsSnoc(column, done, LikeOf(full).value);
      parts := parts + [converted];
      done := done + [LikeOf(full).value];
    }
    assert alts[|alts|..] == [];
    AllAppended(start, done, end);
    assert LikeAll(start, alts, end) == Some(done);
    ok := true;
  }

  lemma AppendNothing(rest: Option<seq<string>>)
    ensures Appended([], rest) == rest
  {
    if rest.Some? { assert [] + rest.value == rest.value; }
  }

  lemma AllAppended(start: bool, done: seq<string>, end: bool)
    ensures Appended(done, LikeAll(start, [], end)) == Some(done)
  {
    assert done + [] == done;
  }

  lemma TextNonEmpty(pattern: string, column: string)
    ensures LikeOf(pattern).Some? ==> LikeText(column, LikeOf(pattern).value) != ""
  {
    hide LikeOf;
    if LikeOf(pattern).Some? { assert |LikeText(column, LikeOf(pattern).value)| >= |" LIKE '"|; }
  }

  function Appended(done: seq<string>, rest: Option<seq<string>>): Option<seq<string>> {
    if rest.None? then None else Some(done + rest.value)
  }

  lemma LikeAllStep(start: bool, alts: seq<string>, end: bool, j: nat, done: seq<string>)
    requires j < |alts|
    ensures var first := LikeOf(Anchored(start, alts[j], end));
            Appended(done, LikeAll(start, alts[j..], end))
            == if first.None? then None else Appended(done + [first.value], LikeAll(start, alts[j + 1..], end))
    ensures LikeOf(Anchored(start, alts[j], end)).None? ==> Appended(done, LikeAll(start, alts[j..], end)) == None
  {
    assert alts[j..][1..] == alts[j + 1..];
    var first, rest := LikeOf(Anchored(start, alts[j], end)), LikeAll(start, alts[j + 1..], end);
    if first.Some? && rest.Some? { assert (done + [first.value]) + rest.value == done + ([first.value] + rest.value); }
  }

  method JoinAll(parts: seq<string>, separator: string) returns (r: string)
    ensures r == Joined(parts, separator)
  {
    r := "";
    for j := 0 to |parts|
      invariant r == Joined(parts[..j], separator)
    {
      JoinedSnoc(parts[..j], separator, parts[j]);
      assert parts[..j + 1] == parts[..j] + [parts[j]];
      if j > 0 { r := r + separator; }
      r := r + parts[j];
    }
    assert parts[..|parts|] == parts;
  }

  /** The values of an IN list, when every alternative is an exact match. */
  method ExactValues(start: bool, alts: seq<string>, end: bool) returns (exact: bool, values: seq<string>)
    ensures exact <==> (start && end && forall i :: 0 <= i < |alts| ==> PlainLiteral(alts[i]))
                       || (!start && !end && forall i :: 0 <= i < |alts| ==> Exact(alts[i]))
    ensures exact && start ==> values == alts
    ensures exact && !start ==> values == Inners(alts)
  {
    values := [];
    if start != end { return false, []; }
    for i := 0 to |alts|
      invariant forall k :: 0 <= k < i ==> if start then PlainLiteral(alts[k]) else Exact(alts[k])
      invariant |values| == i
      invariant forall k :: 0 <= k < i ==> values[k] == if start then alts[k] else Inner(alts[k])
    {
      var alt := alts[i];
      if !start {
        if |alt| < 3 || alt[0] != '^' || alt[|alt| - 1] != '$' { return false, []; }
        alt := alt[1..|alt| - 1];
      }
      var plain := IsPlainLiteral(alt);
      if !plain { return false, []; }
      values := values + [alt];
    }
    exact := true;
  }

  /** The alternatives of a pattern, and the anchors of the group they stood in. */
  method FindAlternatives(pattern: string) returns (start: bool, alts: seq<string>, end: bool)
    requires pattern != ""
    ensures Alternatives(start, alts, end) == AlternativesOf(pattern)
  {
    start, alts, end := false, [], false;
    var lo, hi, ok := 0, |pattern|, false;
    if lo < hi && pattern[lo] == '^' { start, lo := true, lo + 1; }
    if hi > lo && pattern[hi - 1] == '$' { end, hi := true, hi - 1; }
    if hi - lo >= 2 && pattern[lo] == '(' && pattern[hi - 1] == ')' {
      alts, ok := SplitAlternatives(pattern[lo + 1..hi - 1]);
    }
    if alts == [] {
      start, end := false, false;
      alts, ok := SplitAlternatives(pattern);
    }
  }
}
