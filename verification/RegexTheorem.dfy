/** The compiled predicate selects the names the regex search selects: for which patterns, and why not for others. */
module RegexTheorem {
  import opened Staging
  import opened RegexLike
  import opened RegexMeaning

  // ---------------------------------------------------------------- finding the alternatives

  lemma NoGroup(start: bool, rest: string)
    requires rest != "" ==> rest[0] != '(' && rest[0] != '^'
    ensures GroupInside(Caret(start) + rest) == None
  {
    var t := Caret(start) + rest;
    assert !start ==> t == rest;
    if |t| > 1 && start { assert t[1] == rest[0]; }
  }

  lemma BranchHead(b: Branch, more: string) returns (rest: string)
    requires BranchOk(b) && (more != "" ==> more[0] == '|')
    ensures BranchText(b) + more == Caret(b.start) + rest && (rest != "" ==> rest[0] != '(' && rest[0] != '^')
    ensures BranchText(b) != ""
  {
    hide AtomsText;
    var body := AtomsText(b.atoms) + Dollar(b.end);
    AtomsTextFirst(b.atoms, b.end);
    BranchTextFirst(b);
    rest := body + more;
    assert body == "" ==> rest == more;
  }

  lemma FlatIsNoGroup(alts: seq<Branch>)
    requires alts != [] && forall k :: 0 <= k < |alts| ==> BranchOk(alts[k])
    ensures GroupInside(Joined(BranchTexts(alts), "|")) == None && Joined(BranchTexts(alts), "|") != ""
  {
    hide GroupInside, BranchText, BranchOk, Caret, Joined;
    var b, texts := alts[0], BranchTexts(alts);
    var more := if |alts| == 1 then "" else "|" + Joined(texts[1..], "|");
    var rest := BranchHead(b, more);
    JoinedFirst(texts);
    NoGroup(b.start, rest);
  }

  lemma JoinedFirst(texts: seq<string>)
    requires texts != []
    ensures Joined(texts, "|") == texts[0] + if |texts| == 1 then "" else "|" + Joined(texts[1..], "|")
  {
    if |texts| == 1 { assert texts[0] + "" == texts[0]; }
  }

  lemma GroupHasInside(start: bool, inside: string, end: bool)
    ensures var t := Caret(start) + ("(" + (inside + (")" + Dollar(end))));
            GroupInside(t) == Some(inside) && (t[0] == '^' <==> start) && (t[|t| - 1] == '$' <==> end)
  {
    var t := Caret(start) + ("(" + (inside + (")" + Dollar(end))));
    var lo := if start then 1 else 0;
    var hi := if end then |t| - 1 else |t|;
    assert t[lo] == '(' && t[hi - 1] == ')' && t[lo + 1..hi - 1] == inside;
  }

  /** The anchors the compiler takes from around the alternatives. */
  function GroupStart(r: Regex): bool { r.Group? && r.start }

  function GroupEnd(r: Regex): bool { r.Group? && r.end }

  lemma FindsAlternatives(r: Regex)
    requires RegexOk(r)
    ensures RegexText(r) != ""
    ensures AlternativesOf(RegexText(r)) == Alternatives(GroupStart(r), BranchTexts(r.alts), GroupEnd(r))
  {
    hide Split, GroupInside, BranchText, BranchOk, Joined;
    SplitTexts(r.alts, []);
    assert [] + BranchTexts(r.alts) == BranchTexts(r.alts);
    if r.Flat? {
      FlatIsNoGroup(r.alts);
    } else {
      GroupHasInside(r.start, Joined(BranchTexts(r.alts), "|"), r.end);
    }
  }

  // ---------------------------------------------------------------- putting the group's anchors on

  predicate EndsInEscapedDollar(b: Branch) {
    !b.end && b.atoms != [] && b.atoms[|b.atoms| - 1] == Lit('$', true)
  }

  lemma {:induction false} AtomsTextLast(atoms: seq<Atom>)
    requires AtomsOk(atoms) && atoms != []
    ensures AtomsText(atoms) != ""
    ensures AtomsText(atoms)[|AtomsText(atoms)| - 1] == '$' <==> atoms[|atoms| - 1] == Lit('$', true)
  {
    var first, rest := AtomText(atoms[0]), AtomsText(atoms[1..]);
    assert AtomOk(atoms[0]) && Escapable('$');
    if |atoms| == 1 {
      assert atoms[1..] == [] && first + "" == first;
    } else {
      AtomsTextLast(atoms[1..]);
      assert (first + rest)[|first + rest| - 1] == rest[|rest| - 1];
    }
  }

  /** The alternative with the group's anchors. */
  function Within(start: bool, b: Branch, end: bool): Branch { Branch(start || b.start, b.atoms, end || b.end) }

  lemma BranchTextLast(b: Branch)
    requires BranchOk(b) && (b.atoms != [] || b.end)
    ensures BranchText(b) != ""
    ensures BranchText(b)[|BranchText(b)| - 1] == '$' <==> b.end || EndsInEscapedDollar(b)
  {
    if b.atoms != [] { AtomsTextLast(b.atoms); }
  }

  lemma CaretGoesOn(start: bool, b: Branch)
    requires BranchOk(b)
    ensures (if start && BranchText(b)[0] != '^' then "^" + BranchText(b) else BranchText(b)) == BranchText(Within(start, b, false))
  {
    hide AtomsText, BranchOk;
    BranchTextFirst(b);
    var body := AtomsText(b.atoms) + Dollar(b.end);
    assert "" + body == body;
  }

  lemma NoAtoms()
    ensures AtomsText([]) == ""
  {
  }

  lemma DollarGoesOn(b: Branch, end: bool)
    requires BranchOk(b)
    ensures BranchText(b) != ""
    ensures (if end && BranchText(b)[|BranchText(b)| - 1] != '$' then BranchText(b) + "$" else BranchText(b))
            == BranchText(Within(false, b, end && !EndsInEscapedDollar(b)))
  {
    hide AtomsText;
    if b.atoms != [] || b.end {
      BranchTextLast(b);
    } else {
      NoAtoms();
      assert BranchText(b) == "^";
    }
    assert (Caret(b.start) + (AtomsText(b.atoms) + "")) + "$" == Caret(b.start) + (AtomsText(b.atoms) + "$");
  }

  /** What each alternative becomes: with the group's anchors on, but for the one escape the test misses. */
  function Effective(start: bool, b: Branch, end: bool): Branch { Within(start, b, end && !EndsInEscapedDollar(b)) }

  lemma AnchorsGoOn(start: bool, b: Branch, end: bool)
    requires BranchOk(b)
    ensures Anchored(start, BranchText(b), end) == BranchText(Effective(start, b, end)) && BranchOk(Effective(start, b, end))
  {
    hide *;
    BranchTextFirst(b);
    CaretGoesOn(start, b);
    EffectiveIs(start, b, end);
    DollarGoesOn(Within(start, b, false), end);
    AnchoredIs(start, BranchText(b), end);
  }

  lemma EffectiveIs(start: bool, b: Branch, end: bool)
    requires BranchOk(b)
    ensures var left := Within(start, b, false);
            BranchOk(left) && Within(false, left, end && !EndsInEscapedDollar(left)) == Effective(start, b, end)
            && BranchOk(Effective(start, b, end))
  {
    hide AtomsOk;
  }

  lemma AnchoredIs(start: bool, alt: string, end: bool)
    requires alt != ""
    ensures var left := if start && alt[0] != '^' then "^" + alt else alt;
            left != "" && Anchored(start, alt, end) == if end && left[|left| - 1] != '$' then left + "$" else left
  {
  }

  function LikePattern(b: Branch): string { Widen(b.start, Emits(b.atoms), b.end) }

  lemma {:induction false} LikeAllOf(start: bool, alts: seq<Branch>, end: bool)
    requires forall k :: 0 <= k < |alts| ==> BranchOk(alts[k])
    ensures var likes := LikeAll(start, BranchTexts(alts), end);
            likes.Some? && |likes.value| == |alts|
            && forall k :: 0 <= k < |alts| ==> likes.value[k] == LikePattern(Effective(start, alts[k], end))
  {
    hide LikeOf, BranchText, Anchored, Effective, LikePattern, BranchOk;
    if alts != [] {
      assert BranchTexts(alts)[1..] == BranchTexts(alts[1..]);
      LikeAllOf(start, alts[1..], end);
      var first := Effective(start, alts[0], end);
      AnchorsGoOn(start, alts[0], end);
      LikeOfBranch(first);
      assert LikePattern(first) == Widen(first.start, Emits(first.atoms), first.end) by { PatternIs(first); }
      var likes := LikeAll(start, BranchTexts(alts), end).value;
      forall k | 0 <= k < |alts| ensures likes[k] == LikePattern(Effective(start, alts[k], end)) {
        if k > 0 { assert alts[k] == alts[1..][k - 1]; }
      }
    }
  }

  lemma PatternIs(b: Branch)
    ensures LikePattern(b) == Widen(b.start, Emits(b.atoms), b.end)
  {
  }

  // ---------------------------------------------------------------- lists of literals

  predicate PlainAtom(a: Atom) { a.Lit? && !a.escaped }

  predicate PlainAtoms(atoms: seq<Atom>) { forall k :: 0 <= k < |atoms| ==> PlainAtom(atoms[k]) }

  lemma {:induction false} PlainText(atoms: seq<Atom>)
    requires PlainAtoms(atoms)
    ensures |AtomsText(atoms)| == |atoms| && forall k :: 0 <= k < |atoms| ==> AtomsText(atoms)[k] == atoms[k].c
  {
    if atoms != [] { PlainText(atoms[1..]); }
  }

  /** Text without metacharacters is a run of plain characters. */
  lemma {:induction false} PlainFromText(atoms: seq<Atom>, head: string, tail: string)
    requires PlainLiteral(head + (AtomsText(atoms) + tail))
    ensures PlainAtoms(atoms)
  {
    if atoms != [] {
      var first, t := AtomText(atoms[0]), head + (AtomsText(atoms) + tail);
      assert t == (head + first) + (AtomsText(atoms[1..]) + tail);
      assert t[|head|] == first[0];
      PlainFromText(atoms[1..], head + first, tail);
    }
  }

  lemma {:induction false} PlainMatches(atoms: seq<Atom>, s: string, i: nat, j: nat)
    requires i <= j <= |s| && PlainAtoms(atoms)
    ensures AtomsMatch(atoms, s, i, j) <==>
            j - i == |atoms| && forall k :: 0 <= k < |atoms| ==> Fold(s[i + k]) == Fold(atoms[k].c)
  {
    hide Fold;
    if atoms != [] {
      var rest := atoms[1..];
      if i < j {
        PlainMatches(rest, s, i + 1, j);
        if AtomsMatch(atoms, s, i, j) {
          assert AtomMatches(atoms[0], s, i, i + 1);
          forall k | 0 <= k < |atoms| ensures Fold(s[i + k]) == Fold(atoms[k].c) {
            if k > 0 { assert Fold(s[i + 1 + (k - 1)]) == Fold(rest[k - 1].c); }
          }
        }
        if j - i == |atoms| && forall k :: 0 <= k < |atoms| ==> Fold(s[i + k]) == Fold(atoms[k].c) {
          assert Fold(s[i + 0]) == Fold(atoms[0].c);
          forall k | 0 <= k < |rest| ensures Fold(s[i + 1 + k]) == Fold(rest[k].c) {
            assert Fold(s[i + (k + 1)]) == Fold(atoms[k + 1].c);
          }
          assert AtomMatches(atoms[0], s, i, i + 1);
        }
      }
    }
  }

  predicate Unpadded(s: string) { s != "" ==> s[|s| - 1] != ' ' }

  ghost predicate BranchFound(b: Branch, s: string) { exists i: nat, j: nat :: i <= j <= |s| && BranchMatches(b, s, i, j) }

  /** A literal anchored at both ends matches the names equal to it up to case. */
  lemma ExactMeaning(b: Branch, s: string)
    requires PlainAtoms(b.atoms) && b.start && b.end
    ensures BranchFound(b, s) <==> FoldEqual(s, AtomsText(b.atoms))
  {
    hide Fold, AtomsMatch;
    PlainText(b.atoms);
    PlainMatches(b.atoms, s, 0, |s|);
    if FoldEqual(s, AtomsText(b.atoms)) {
      forall k | 0 <= k < |b.atoms| ensures Fold(s[0 + k]) == Fold(b.atoms[k].c) {
        assert Fold(s[k]) == Fold(AtomsText(b.atoms)[k]);
      }
      assert BranchMatches(b, s, 0, |s|);
    }
  }

  // ---------------------------------------------------------------- equality that ignores trailing blanks

  lemma TrimShorter(s: string)
    ensures |TrimBlanks(s)| <= |s|
  {
  }

  /** T-SQL equality is equality up to case, or a difference in trailing blanks. */
  lemma {:induction false} EqualOrPadded(s: string, v: string)
    ensures SqlEqual(s, v) <==> FoldEqual(s, v) || (|s| != |v| && SqlEqual(s, v))
    decreases |s|
  {
    hide FoldEqual;
    if |s| == |v| && s != "" {
      var n := |s| - 1;
      LastFolds(s, v);
      TrimShorter(s[..n]);
      TrimShorter(v[..n]);
      if s[n] == ' ' && v[n] == ' ' { EqualOrPadded(s[..n], v[..n]); }
      if FoldEqual(TrimBlanks(s), TrimBlanks(v)) { SameLength(TrimBlanks(s), TrimBlanks(v)); }
    }
    if FoldEqual(s, v) { SameLength(s, v); }
  }

  lemma LastFolds(s: string, v: string)
    requires |s| == |v| > 0
    ensures var n := |s| - 1; FoldEqual(s, v) <==> FoldEqual(s[..n], v[..n]) && Fold(s[n]) == Fold(v[n])
    ensures var n := |s| - 1; Fold(s[n]) == Fold(v[n]) ==> (s[n] == ' ' <==> v[n] == ' ')
  {
    var n := |s| - 1;
    if FoldEqual(s[..n], v[..n]) && Fold(s[n]) == Fold(v[n]) {
      forall k | 0 <= k < |s| ensures Fold(s[k]) == Fold(v[k]) {
        if k < n { assert Fold(s[..n][k]) == Fold(v[..n][k]); }
      }
    }
  }

  lemma SameLength(s: string, v: string)
    requires FoldEqual(s, v)
    ensures |s| == |v|
  {
  }

  // ---------------------------------------------------------------- which names a predicate is right about

  predicate AllPlain(alts: seq<Branch>) { forall k :: 0 <= k < |alts| ==> PlainLiteral(BranchText(alts[k])) }

  predicate AllExact(alts: seq<Branch>) { forall k :: 0 <= k < |alts| ==> Exact(BranchText(alts[k])) }

  /** The patterns that become an IN list. */
  predicate AllLiteral(r: Regex) {
    |r.alts| >= 2
    && ((GroupStart(r) && GroupEnd(r) && AllPlain(r.alts)) || (!GroupStart(r) && !GroupEnd(r) && AllExact(r.alts)))
  }

  /** The literal an alternative of an IN list stands for. */
  function Literal(b: Branch): string { AtomsText(b.atoms) }

  /** An alternative that has an anchor of its own inside an anchored group. */
  predicate OwnAnchor(r: Regex, b: Branch) { GroupStart(r) && (b.start || b.end) }

  /** The name is a literal of the list. */
  ghost predicate PlainHit(r: Regex, s: string) {
    exists k :: 0 <= k < |r.alts| && !OwnAnchor(r, r.alts[k]) && FoldEqual(s, Literal(r.alts[k]))
  }

  /** The name is the literal of an alternative with an anchor of its own. */
  ghost predicate AnchoredHit(r: Regex, s: string) {
    exists k :: 0 <= k < |r.alts| && OwnAnchor(r, r.alts[k]) && FoldEqual(s, Literal(r.alts[k]))
  }

  /** The name differs from a literal of the list in trailing blanks. */
  ghost predicate PaddedHit(r: Regex, s: string) {
    exists k :: 0 <= k < |r.alts| && !OwnAnchor(r, r.alts[k]) && |s| != |Literal(r.alts[k])| && SqlEqual(s, Literal(r.alts[k]))
  }

  /** The name is the text, anchor characters included, of an alternative with an anchor of its own. */
  ghost predicate QuotedHit(r: Regex, s: string) {
    exists k :: 0 <= k < |r.alts| && OwnAnchor(r, r.alts[k]) && SqlEqual(s, BranchText(r.alts[k]))
  }

  /** Under a group anchored at its end, an alternative that ends in an escaped dollar occurs in the name, its end
      left open. */
  ghost predicate OpenHit(r: Regex, s: string) {
    GroupEnd(r) && exists k :: 0 <= k < |r.alts| && EndsInEscapedDollar(r.alts[k])
                               && BranchFound(Within(GroupStart(r), r.alts[k], false), s)
  }

  /** The names about which the compiled predicate says what the regex says. */
  ghost predicate RightAbout(r: Regex, s: string) {
    if AllLiteral(r) then PlainHit(r, s) || (AnchoredHit(r, s) <==> PaddedHit(r, s) || QuotedHit(r, s))
    else OpenHit(r, s) ==> Search(r, s)
  }

  /** Some alternative, with the group's anchors on, matches a stretch of the name. */
  ghost predicate SomeFound(r: Regex, s: string) {
    exists k :: 0 <= k < |r.alts| && BranchFound(Within(GroupStart(r), r.alts[k], GroupEnd(r)), s)
  }

  lemma SearchIsSomeFound(r: Regex, s: string)
    ensures Search(r, s) <==> SomeFound(r, s)
  {
    hide AtomsMatch;
    if Search(r, s) {
      var i: nat, j: nat :| i <= j <= |s| && RegexMatches(r, s, i, j);
      var k :| 0 <= k < |r.alts| && BranchMatches(r.alts[k], s, i, j);
      assert BranchMatches(Within(GroupStart(r), r.alts[k], GroupEnd(r)), s, i, j);
    }
    if SomeFound(r, s) {
      var k :| 0 <= k < |r.alts| && BranchFound(Within(GroupStart(r), r.alts[k], GroupEnd(r)), s);
      var i: nat, j: nat :| i <= j <= |s| && BranchMatches(Within(GroupStart(r), r.alts[k], GroupEnd(r)), s, i, j);
      assert BranchMatches(r.alts[k], s, i, j);
      assert RegexMatches(r, s, i, j);
    }
  }

  lemma PatternFinds(b: Branch, s: string)
    requires BranchOk(b) && NameOk(s)
    ensures LikeFrom(LikePattern(b), s, 0) <==> BranchFound(b, s)
  {
    hide LikeFrom, BranchMatches, LikeOf, Widen;
    LikeOfBranch(b);
    BranchMeaning(b, s);
  }

  lemma OpenEndFinds(start: bool, b: Branch, s: string)
    requires BranchFound(Within(start, b, true), s)
    ensures BranchFound(Within(start, b, false), s)
  {
    hide AtomsMatch;
    var i: nat, j: nat :| i <= j <= |s| && BranchMatches(Within(start, b, true), s, i, j);
    assert BranchMatches(Within(start, b, false), s, i, j);
  }

  /** The general case, one LIKE per alternative: it selects what the regex finds and what an open end lets in. */
  lemma OrMeaning(r: Regex, s: string)
    requires RegexOk(r) && NameOk(s)
    ensures var likes := LikeAll(GroupStart(r), BranchTexts(r.alts), GroupEnd(r));
            likes.Some? && (Satisfies(Or(likes.value), s) <==> SomeFound(r, s) || OpenHit(r, s))
  {
    hide LikeFrom, LikeAll, BranchFound, LikePattern, BranchOk, EndsInEscapedDollar;
    var start, end := GroupStart(r), GroupEnd(r);
    var likes := LikeAll(start, BranchTexts(r.alts), end);
    LikeAllOf(start, r.alts, end);
    forall k | 0 <= k < |r.alts|
      ensures LikeFrom(likes.value[k], s, 0) <==> BranchFound(Effective(start, r.alts[k], end), s)
      ensures BranchFound(Within(start, r.alts[k], end), s) ==> BranchFound(Effective(start, r.alts[k], end), s)
    {
      AnchorsGoOn(start, r.alts[k], end);
      PatternFinds(Effective(start, r.alts[k], end), s);
      if end && BranchFound(Within(start, r.alts[k], true), s) { OpenEndFinds(start, r.alts[k], s); }
    }
  }

  lemma PlainBranch(b: Branch)
    requires PlainLiteral(BranchText(b)) && !b.start && !b.end
    ensures PlainAtoms(b.atoms) && BranchText(b) == AtomsText(b.atoms)
  {
    PlainFromText(b.atoms, "", "");
    assert "" + (AtomsText(b.atoms) + "") == AtomsText(b.atoms);
  }

  lemma ExactBranch(b: Branch)
    requires BranchOk(b) && Exact(BranchText(b))
    ensures PlainAtoms(b.atoms) && b.start && b.end && Inner(BranchText(b)) == AtomsText(b.atoms)
  {
    var t := BranchText(b);
    BranchTextFirst(b);
    if b.atoms != [] || b.end { BranchTextLast(b); }
    if EndsInEscapedDollar(b) { EscapedIsNotExact(b); }
    assert t[1..|t| - 1] == AtomsText(b.atoms);
    PlainFromText(b.atoms, "", "");
    assert "" + (AtomsText(b.atoms) + "") == AtomsText(b.atoms);
  }

  lemma {:induction false} EscapeShows(atoms: seq<Atom>)
    requires atoms != [] && atoms[|atoms| - 1] == Lit('$', true)
    ensures var t := AtomsText(atoms); |t| >= 2 && t[|t| - 2] == '\\'
  {
    if |atoms| > 1 {
      EscapeShows(atoms[1..]);
    } else {
      assert AtomsText(atoms) == AtomText(atoms[0]) + "";
    }
  }

  lemma EscapedIsNotExact(b: Branch)
    requires EndsInEscapedDollar(b)
    ensures !Exact(BranchText(b))
  {
    var t := BranchText(b);
    EscapeShows(b.atoms);
    assert |t| >= 2 && t[|t| - 2] == '\\' && Meta('\\');
    if |t| >= 3 { assert t[1..|t| - 1][|t| - 3] == '\\'; }
  }

  /** What an alternative of an IN list adds to it: its literal, or its text when it has an anchor of its own. */
  function ValueOf(r: Regex, b: Branch): string { if OwnAnchor(r, b) then BranchText(b) else Literal(b) }

  function Values(r: Regex): (vs: seq<string>)
    ensures |vs| == |r.alts|
  {
    seq(|r.alts|, k requires 0 <= k < |r.alts| => ValueOf(r, r.alts[k]))
  }

  lemma PlainAnyway(b: Branch)
    requires PlainLiteral(BranchText(b))
    ensures PlainAtoms(b.atoms) && (!b.start && !b.end ==> BranchText(b) == Literal(b))
  {
    PlainFromText(b.atoms, Caret(b.start), Dollar(b.end));
    if !b.start && !b.end { PlainBranch(b); }
  }

  lemma ListOf(r: Regex)
    requires RegexOk(r) && AllLiteral(r)
    ensures Combine(Alternatives(GroupStart(r), BranchTexts(r.alts), GroupEnd(r))) == Some(In(Values(r)))
    ensures forall k :: 0 <= k < |r.alts| ==> PlainAtoms(r.alts[k].atoms)
    ensures forall k :: 0 <= k < |r.alts| ==> Within(GroupStart(r), r.alts[k], GroupEnd(r)) == Within(true, r.alts[k], true)
  {
    hide BranchText, BranchOk, PlainLiteral, Exact, PlainAtoms, Inner, Literal;
    TextsPlain(r.alts);
    var texts := BranchTexts(r.alts);
    if GroupStart(r) {
      forall k | 0 <= k < |r.alts| ensures PlainAtoms(r.alts[k].atoms) && texts[k] == Values(r)[k] { PlainAnyway(r.alts[k]); }
      assert texts == Values(r);
    } else {
      forall k | 0 <= k < |r.alts|
        ensures PlainAtoms(r.alts[k].atoms) && Inners(texts)[k] == Values(r)[k] && r.alts[k].start && r.alts[k].end
      {
        ExactBranch(r.alts[k]);
        LiteralIs(r.alts[k]);
      }
      assert Inners(texts) == Values(r);
    }
  }

  lemma LiteralIs(b: Branch)
    ensures Literal(b) == AtomsText(b.atoms)
  {
  }

  /** The IN list: which names the regex finds, and which the list selects. */
  lemma InMeaning(r: Regex, s: string)
    requires RegexOk(r) && AllLiteral(r)
    ensures Combine(Alternatives(GroupStart(r), BranchTexts(r.alts), GroupEnd(r))) == Some(In(Values(r)))
    ensures SomeFound(r, s) <==> PlainHit(r, s) || AnchoredHit(r, s)
    ensures Satisfies(In(Values(r)), s) <==> PlainHit(r, s) || PaddedHit(r, s) || QuotedHit(r, s)
  {
    ListOf(r);
    hide AllLiteral, Combine, BranchText, BranchTexts, BranchOk, BranchFound, FoldEqual, SqlEqual, PlainAtoms, OwnAnchor, RegexOk, Literal;
    forall k | 0 <= k < |r.alts|
      ensures BranchFound(Within(GroupStart(r), r.alts[k], GroupEnd(r)), s) <==> FoldEqual(s, Literal(r.alts[k]))
      ensures SqlEqual(s, Literal(r.alts[k]))
              <==> FoldEqual(s, Literal(r.alts[k])) || (|s| != |Literal(r.alts[k])| && SqlEqual(s, Literal(r.alts[k])))
    {
      ExactMeaning(Within(true, r.alts[k], true), s);
      LiteralIs(r.alts[k]);
      EqualOrPadded(s, Literal(r.alts[k]));
    }
    forall k | 0 <= k < |r.alts| ensures Values(r)[k] == ValueOf(r, r.alts[k]) {}
    FoundLiterals(r, s);
    SelectedValues(r, s);
  }

  lemma FoundLiterals(r: Regex, s: string)
    requires forall k :: 0 <= k < |r.alts| ==>
               (BranchFound(Within(GroupStart(r), r.alts[k], GroupEnd(r)), s) <==> FoldEqual(s, Literal(r.alts[k])))
    ensures SomeFound(r, s) <==> PlainHit(r, s) || AnchoredHit(r, s)
  {
    hide BranchFound, FoldEqual, OwnAnchor, Within, Literal;
    if SomeFound(r, s) {
      var k :| 0 <= k < |r.alts| && BranchFound(Within(GroupStart(r), r.alts[k], GroupEnd(r)), s);
      assert FoldEqual(s, Literal(r.alts[k]));
    }
  }

  lemma SelectedValues(r: Regex, s: string)
    requires forall k :: 0 <= k < |r.alts| ==>
               (SqlEqual(s, Literal(r.alts[k]))
                <==> FoldEqual(s, Literal(r.alts[k])) || (|s| != |Literal(r.alts[k])| && SqlEqual(s, Literal(r.alts[k]))))
    ensures Satisfies(In(Values(r)), s) <==> PlainHit(r, s) || PaddedHit(r, s) || QuotedHit(r, s)
  {
    hide FoldEqual, SqlEqual, OwnAnchor, Literal, BranchText;
    var vs := Values(r);
    if Satisfies(In(vs), s) {
      var k :| 0 <= k < |vs| && SqlEqual(s, vs[k]);
      assert vs[k] == ValueOf(r, r.alts[k]);
    }
    if PlainHit(r, s) {
      var k :| 0 <= k < |r.alts| && !OwnAnchor(r, r.alts[k]) && FoldEqual(s, Literal(r.alts[k]));
      assert SqlEqual(s, vs[k]);
    }
    if PaddedHit(r, s) {
      var k :| 0 <= k < |r.alts| && !OwnAnchor(r, r.alts[k]) && |s| != |Literal(r.alts[k])| && SqlEqual(s, Literal(r.alts[k]));
      assert SqlEqual(s, vs[k]);
    }
    if QuotedHit(r, s) {
      var k :| 0 <= k < |r.alts| && OwnAnchor(r, r.alts[k]) && SqlEqual(s, BranchText(r.alts[k]));
      assert SqlEqual(s, vs[k]);
    }
  }

  lemma TextsPlain(alts: seq<Branch>)
    ensures AllPlain(alts) <==> forall i :: 0 <= i < |alts| ==> PlainLiteral(BranchTexts(alts)[i])
    ensures AllExact(alts) <==> forall i :: 0 <= i < |alts| ==> Exact(BranchTexts(alts)[i])
  {
    hide PlainLiteral, Exact, BranchText;
    var texts := BranchTexts(alts);
    assert forall i :: 0 <= i < |alts| ==> texts[i] == BranchText(alts[i]);
    if forall i :: 0 <= i < |alts| ==> PlainLiteral(texts[i]) {
      forall k | 0 <= k < |alts| ensures PlainLiteral(BranchText(alts[k])) { assert PlainLiteral(texts[k]); }
    }
    if forall i :: 0 <= i < |alts| ==> Exact(texts[i]) {
      forall k | 0 <= k < |alts| ensures Exact(BranchText(alts[k])) { assert Exact(texts[k]); }
    }
  }

  lemma NoListCombines(r: Regex)
    requires |r.alts| >= 2 && !AllLiteral(r)
    ensures var likes := LikeAll(GroupStart(r), BranchTexts(r.alts), GroupEnd(r));
            Combine(Alternatives(GroupStart(r), BranchTexts(r.alts), GroupEnd(r)))
            == if likes.None? then None else Some(Or(likes.value))
  {
    hide PlainLiteral, Exact, BranchText, LikeAll;
    TextsPlain(r.alts);
  }

  lemma CombineMeaning(r: Regex, s: string)
    requires RegexOk(r) && NameOk(s) && |r.alts| >= 2
    ensures var p := Combine(Alternatives(GroupStart(r), BranchTexts(r.alts), GroupEnd(r)));
            p.Some? && ((Satisfies(p.value, s) <==> Search(r, s)) <==> RightAbout(r, s))
  {
    SearchIsSomeFound(r, s);
    if AllLiteral(r) { InMeaning(r, s); } else { OrMeaning(r, s); NoListCombines(r); }
    hide *;
    RightIs(r, s);
  }

  lemma RightIs(r: Regex, s: string)
    ensures RightAbout(r, s) <==>
            if AllLiteral(r) then PlainHit(r, s) || (AnchoredHit(r, s) <==> PaddedHit(r, s) || QuotedHit(r, s))
            else OpenHit(r, s) ==> Search(r, s)
  {
    hide AllLiteral, Search;
  }

  /** For every pattern of the fragment the compiler produces a predicate, and a name is one about which predicate
      and case-insensitive regex search agree exactly when it is right about it: an IN list finds the name among its
      plain literals, or neither misses the literal of an anchored alternative nor selects a padded or quoted form,
      and the LIKEs select nothing through an end left open that the regex does not find. */
  lemma ConvertedExactly(r: Regex, s: string)
    requires RegexOk(r) && NameOk(s)
    ensures var p := Convert(RegexText(r));
            p.Some? && ((Satisfies(p.value, s) <==> Search(r, s)) <==> RightAbout(r, s))
  {
    FindsAlternatives(r);
    if |r.alts| >= 2 {
      CombineMeaning(r, s);
      hide *;
      CombinedIs(RegexText(r));
    } else {
      SearchIsSomeFound(r, s);
      SingleMeaning(r, s);
      SingleIsRight(r, s);
    }
  }

  lemma CombinedIs(t: string)
    requires t != "" && |AlternativesOf(t).alts| >= 2
    ensures Convert(t) == Combine(AlternativesOf(t))
  {
    hide AlternativesOf, Combine;
  }

  lemma SingleIsRight(r: Regex, s: string)
    requires RegexOk(r) && |r.alts| == 1 && AlternativesOf(RegexText(r)) == Alternatives(false, BranchTexts(r.alts), false)
    requires RegexText(r) != "" && LikeOf(RegexText(r)).Some?
    ensures RightAbout(r, s) && Convert(RegexText(r)) == Some(Like(LikeOf(RegexText(r)).value))
  {
    hide AlternativesOf, LikeOf, RegexText, Search, BranchOk;
  }

  // ---------------------------------------------------------------- patterns that are right about every name

  /** What a caller can check before trusting the predicate: in a group anchored at its end no alternative ends in
      an escaped dollar, and in a list of literals anchored at both ends no alternative has anchors of its own. */
  predicate Faithful(r: Regex) {
    && (GroupEnd(r) ==> forall k :: 0 <= k < |r.alts| ==> !EndsInEscapedDollar(r.alts[k]))
    && (GroupStart(r) && GroupEnd(r) && AllPlain(r.alts) ==> forall k :: 0 <= k < |r.alts| ==> !r.alts[k].start && !r.alts[k].end)
  }

  /** A name and literals without trailing blanks: asked for only when the predicate is an IN list. */
  predicate Comparable(r: Regex, s: string) {
    AllLiteral(r) ==> Unpadded(s) && forall k :: 0 <= k < |r.alts| ==> Unpadded(Literal(r.alts[k]))
  }

  lemma UnpaddedEqual(s: string, v: string)
    requires Unpadded(s) && Unpadded(v)
    ensures SqlEqual(s, v) ==> |s| == |v|
  {
  }

  lemma FaithfulIsRight(r: Regex, s: string)
    requires Faithful(r) && Comparable(r, s)
    ensures RightAbout(r, s)
  {
    hide BranchText, Literal, PlainLiteral, Exact, EndsInEscapedDollar, BranchFound, Search, Unpadded, SqlEqual, FoldEqual;
    if AllLiteral(r) {
      forall k | 0 <= k < |r.alts| ensures !OwnAnchor(r, r.alts[k]) {}
      forall k | 0 <= k < |r.alts| && SqlEqual(s, Literal(r.alts[k])) ensures |s| == |Literal(r.alts[k])| {
        UnpaddedEqual(s, Literal(r.alts[k]));
      }
    }
  }

  /** For every faithful pattern of the fragment a name satisfies the predicate exactly when the search finds the
      pattern in it. */
  lemma ConvertedMeansSearch(r: Regex, s: string)
    requires RegexOk(r) && NameOk(s) && Faithful(r) && Comparable(r, s)
    ensures Convert(RegexText(r)).Some? && (Satisfies(Convert(RegexText(r)).value, s) <==> Search(r, s))
  {
    hide *;
    ConvertedExactly(r, s);
    FaithfulIsRight(r, s);
  }

  lemma SingleMeaning(r: Regex, s: string)
    requires RegexOk(r) && NameOk(s) && r.Flat? && |r.alts| == 1
    ensures LikeOf(RegexText(r)).Some? && (LikeFrom(LikeOf(RegexText(r)).value, s, 0) <==> SomeFound(r, s))
  {
    var b := r.alts[0];
    hide *;
    OneAlternative(r, s);
    LikeOfBranch(b);
    PatternIs(b);
    PatternFinds(b, s);
  }

  lemma OneAlternative(r: Regex, s: string)
    requires RegexOk(r) && r.Flat? && |r.alts| == 1
    ensures RegexText(r) == BranchText(r.alts[0]) && BranchOk(r.alts[0])
    ensures SomeFound(r, s) <==> BranchFound(r.alts[0], s)
  {
    hide BranchText, BranchOk, BranchFound;
    assert Within(false, r.alts[0], false) == r.alts[0];
  }
}
