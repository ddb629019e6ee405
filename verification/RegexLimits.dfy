/** Names and patterns for which the compiled predicate is not right, and by exactly how much. */
module RegexLimits {
  import opened Staging
  import opened RegexLike
  import opened RegexMeaning
  import opened RegexTheorem

  // ---------------------------------------------------------------- single alternatives

  /** A name the terms match. */
  function SampleOf(a: Atom): string {
    match a
    case Lit(c, _) => [c]
    case Any => "x"
    case AnyStar => ""
    case AnyPlus => "x"
  }

  function Sample(atoms: seq<Atom>): string { if atoms == [] then "" else SampleOf(atoms[0]) + Sample(atoms[1..]) }

  /** Terms whose characters can occur in a name. */
  predicate Nameable(atoms: seq<Atom>) {
    forall k :: 0 <= k < |atoms| && atoms[k].Lit? ==> !LineBreak(atoms[k].c) && atoms[k].c as int < 128
  }

  lemma {:induction false} SampleMatches(atoms: seq<Atom>, head: string, tail: string)
    requires Nameable(atoms)
    ensures AtomsMatch(atoms, head + Sample(atoms) + tail, |head|, |head| + |Sample(atoms)|) && NameOk(Sample(atoms))
  {
    if atoms != [] {
      var one, rest := SampleOf(atoms[0]), Sample(atoms[1..]);
      assert head + (one + rest) + tail == (head + one) + rest + tail;
      SampleMatches(atoms[1..], head + one, tail);
      SampleAt(atoms[0], head, rest + tail);
      assert head + one + (rest + tail) == (head + one) + rest + tail;
    }
  }

  lemma SampleAt(a: Atom, head: string, tail: string)
    requires Nameable([a])
    ensures AtomMatches(a, head + SampleOf(a) + tail, |head|, |head + SampleOf(a)|) && NameOk(SampleOf(a))
  {
    assert [a][0] == a;
  }

  lemma {:induction false} EndsInLiteral(atoms: seq<Atom>, s: string, i: nat, j: nat)
    requires i <= j <= |s| && atoms != [] && AtomsMatch(atoms, s, i, j) && atoms[|atoms| - 1].Lit?
    ensures i < j && Fold(s[j - 1]) == Fold(atoms[|atoms| - 1].c)
  {
    hide Fold;
    var k: nat :| i <= k <= j && AtomMatches(atoms[0], s, i, k) && AtomsMatch(atoms[1..], s, k, j);
    if |atoms| > 1 { EndsInLiteral(atoms[1..], s, k, j); }
  }

  /** In a group anchored at its end, the LIKE of an alternative that ends in an escaped dollar is left open at the
      end: it accepts a name the regex does not. The test of the last character takes the escape for an anchor. */
  lemma EscapedDollarIsLeftOpen(start: bool, b: Branch)
    requires BranchOk(b) && EndsInEscapedDollar(b) && Nameable(b.atoms)
    ensures exists s: string :: NameOk(s) && LikeOf(Anchored(start, BranchText(b), true)).Some?
              && LikeFrom(LikeOf(Anchored(start, BranchText(b), true)).value, s, 0) && !BranchFound(Within(start, b, true), s)
  {
    var s := Sample(b.atoms) + "x";
    hide *;
    EffectiveOpen(start, b);
    AnchorsGoOn(start, b, true);
    LikeOfBranch(Within(start, b, false));
    PatternIs(Within(start, b, false));
    SampleFound(start, b);
    PatternFinds(Within(start, b, false), s);
  }

  lemma EffectiveOpen(start: bool, b: Branch)
    requires EndsInEscapedDollar(b)
    ensures Effective(start, b, true) == Within(start, b, false)
  {
  }

  lemma SampleFound(start: bool, b: Branch)
    requires EndsInEscapedDollar(b) && Nameable(b.atoms)
    ensures var s := Sample(b.atoms) + "x";
            NameOk(s) && BranchFound(Within(start, b, false), s) && !BranchFound(Within(start, b, true), s)
  {
    hide AtomsMatch, NameOk, Sample;
    var s := Sample(b.atoms) + "x";
    SampleMatches(b.atoms, "", "x");
    assert "" + Sample(b.atoms) + "x" == s;
    NameGrows(Sample(b.atoms));
    assert BranchMatches(Within(start, b, false), s, 0, |Sample(b.atoms)|);
    if BranchFound(Within(start, b, true), s) {
      var i: nat, j: nat :| i <= j <= |s| && BranchMatches(Within(start, b, true), s, i, j);
      EndsInLiteral(b.atoms, s, i, j);
      assert false;
    }
  }

  lemma NameGrows(s: string)
    requires NameOk(s)
    ensures NameOk(s + "x")
  {
  }

  /** In a list of literals anchored at both ends, an alternative with an anchor of its own becomes a value that
      still holds the anchor's character: the name it stands for is not selected by it. */
  lemma InnerAnchorIsQuoted(b: Branch)
    requires PlainLiteral(BranchText(b)) && (b.start || b.end) && Unpadded(AtomsText(b.atoms))
    ensures var s := AtomsText(b.atoms); BranchFound(Within(true, b, true), s) && !SqlEqual(s, BranchText(b))
  {
    PlainFromText(b.atoms, Caret(b.start), Dollar(b.end));
    ExactMeaning(Within(true, b, true), AtomsText(b.atoms));
    var s, v := AtomsText(b.atoms), BranchText(b);
    assert |v| > |s| && TrimBlanks(s) == s;
    assert TrimBlanks(v) == v by {
      assert b.end ==> v[|v| - 1] == '$';
      assert !b.end && s != "" ==> v[|v| - 1] == s[|s| - 1];
    }
  }

  // ---------------------------------------------------------------- whole patterns

  /** Two alternatives in a group anchored at both ends. */
  function Pair(a: Branch, b: Branch): Regex { Group(true, [a, b], true) }

  lemma PairText(a: Branch, b: Branch)
    requires BranchOk(a) && BranchOk(b)
    ensures RegexOk(Pair(a, b)) && RegexText(Pair(a, b)) == "^(" + BranchText(a) + "|" + BranchText(b) + ")$"
    ensures Joined(BranchTexts([a, b]), "|") == BranchText(a) + ("|" + BranchText(b))
  {
    hide BranchText, BranchOk;
    var texts := BranchTexts([a, b]);
    assert texts == [BranchText(a), BranchText(b)] && texts[1..] == [BranchText(b)];
    assert Joined(texts[1..], "|") == BranchText(b);
  }

  lemma PairFinds(a: Branch, b: Branch, s: string)
    ensures Search(Pair(a, b), s) <==> BranchFound(Within(true, a, true), s) || BranchFound(Within(true, b, true), s)
  {
    SearchIsSomeFound(Pair(a, b), s);
    hide Search, BranchFound, Within;
    var r := Pair(a, b);
    assert r.alts[0] == a && r.alts[1] == b && GroupStart(r) && GroupEnd(r);
  }

  lemma PairOpen(a: Branch, b: Branch, s: string)
    requires EndsInEscapedDollar(a) && BranchFound(Within(true, a, false), s) && !PlainLiteral(BranchText(a))
    requires !Search(Pair(a, b), s)
    ensures !RightAbout(Pair(a, b), s)
  {
    hide Search, BranchFound, Within, EndsInEscapedDollar, PlainLiteral, BranchText;
    var r := Pair(a, b);
    assert r.alts[0] == a && GroupStart(r) && GroupEnd(r);
  }

  lemma PairHits(a: Branch, b: Branch, s: string)
    ensures var r := Pair(a, b);
            (PlainHit(r, s) <==> (!OwnAnchor(r, a) && FoldEqual(s, Literal(a))) || (!OwnAnchor(r, b) && FoldEqual(s, Literal(b))))
            && (AnchoredHit(r, s) <==> (OwnAnchor(r, a) && FoldEqual(s, Literal(a))) || (OwnAnchor(r, b) && FoldEqual(s, Literal(b))))
            && (PaddedHit(r, s) <==> (!OwnAnchor(r, a) && |s| != |Literal(a)| && SqlEqual(s, Literal(a)))
                                     || (!OwnAnchor(r, b) && |s| != |Literal(b)| && SqlEqual(s, Literal(b))))
            && (QuotedHit(r, s) <==> (OwnAnchor(r, a) && SqlEqual(s, BranchText(a))) || (OwnAnchor(r, b) && SqlEqual(s, BranchText(b))))
  {
    hide OwnAnchor, FoldEqual, SqlEqual, Literal, BranchText;
    var r := Pair(a, b);
    assert r.alts[0] == a && r.alts[1] == b;
  }

  lemma PairIsList(a: Branch, b: Branch)
    requires PlainLiteral(BranchText(a)) && PlainLiteral(BranchText(b))
    ensures AllLiteral(Pair(a, b))
  {
    hide PlainLiteral, BranchText;
  }

  /** What the predicate is wrong about, it selects exactly when the search does not find it. */
  lemma Wrong(r: Regex, s: string)
    requires RegexOk(r) && NameOk(s) && !RightAbout(r, s)
    ensures Convert(RegexText(r)).Some? && (Satisfies(Convert(RegexText(r)).value, s) <==> !Search(r, s))
  {
    hide *;
    ConvertedExactly(r, s);
  }

  function Char(c: char): Branch { Branch(false, [Lit(c, false)], false) }

  lemma CharIs(c: char)
    requires !Escapable(c)
    ensures BranchText(Char(c)) == [c] && Literal(Char(c)) == [c] && BranchOk(Char(c)) && PlainAtoms(Char(c).atoms)
    ensures PlainLiteral([c])
  {
    assert Char(c).atoms[1..] == [] && AtomsText(Char(c).atoms) == [c] + "";
    assert "" + ([c] + "") == [c];
  }

  lemma LiteralFound(b: Branch, s: string)
    requires PlainAtoms(b.atoms)
    ensures BranchFound(Within(true, b, true), s) <==> FoldEqual(s, Literal(b))
  {
    ExactMeaning(Within(true, b, true), s);
  }

  const ESCAPED := Branch(false, [Lit('a', false), Lit('$', true)], false)

  lemma EscapedIs()
    ensures BranchText(ESCAPED) == "a\\$" && BranchOk(ESCAPED) && EndsInEscapedDollar(ESCAPED) && !PlainLiteral(BranchText(ESCAPED))
  {
    assert ESCAPED.atoms[1..] == [Lit('$', true)] && ESCAPED.atoms[1..][1..] == [];
    assert AtomsText(ESCAPED.atoms[1..]) == "\\$";
    assert AtomsText(ESCAPED.atoms) == "a\\$";
    assert BranchText(ESCAPED)[1] == '\\' && Meta('\\');
  }

  lemma EscapedOccurs()
    ensures BranchFound(Within(true, ESCAPED, false), "a$x") && !BranchFound(Within(true, ESCAPED, true), "a$x")
  {
    var s := "a$x";
    var rest := ESCAPED.atoms[1..];
    assert rest == [Lit('$', true)] && rest[1..] == [];
    assert AtomMatches(rest[0], s, 1, 2) && AtomsMatch(rest[1..], s, 2, 2) && AtomsMatch(rest, s, 1, 2);
    assert AtomMatches(ESCAPED.atoms[0], s, 0, 1) && AtomsMatch(ESCAPED.atoms, s, 0, 2);
    assert BranchMatches(Within(true, ESCAPED, false), s, 0, 2);
    if BranchFound(Within(true, ESCAPED, true), s) {
      var i: nat, j: nat :| i <= j <= |s| && BranchMatches(Within(true, ESCAPED, true), s, i, j);
      EndsInLiteral(ESCAPED.atoms, s, i, j);
      assert false;
    }
  }

  /** The names of the examples, and how they compare. */
  lemma Compared()
    ensures NameOk("a$x") && NameOk("a") && NameOk("a ") && NameOk("(")
    ensures !FoldEqual("a$x", "b") && !FoldEqual("a", "b") && FoldEqual("a", "a") && !FoldEqual("(", "a") && !FoldEqual("(", "b")
    ensures !SqlEqual("a", "^a") && !SqlEqual("a", "b") && SqlEqual("a ", "a") && !FoldEqual("a ", "a") && !FoldEqual("a ", "b")
    ensures Unpadded("(") && Unpadded("a") && Unpadded("b")
  {
    assert "a "[..1] == "a";
    assert TrimBlanks("a ") == TrimBlanks("a") == "a" && TrimBlanks("^a") == "^a" && TrimBlanks("b") == "b";
  }

  /** The text of a pair, spelt out. */
  ghost predicate Spells(r: Regex, t: string) { RegexOk(r) && RegexText(r) == t }

  lemma PairSpells(a: Branch, b: Branch, left: string, right: string, t: string)
    requires BranchOk(a) && BranchOk(b) && BranchText(a) == left && BranchText(b) == right
    requires t == "^(" + left + "|" + right + ")$"
    ensures Spells(Pair(a, b), t)
  {
    hide BranchText, BranchOk, RegexText, RegexOk, Pair;
    PairText(a, b);
  }

  /** The predicate of the text selects the name, and the pattern is not found in it; or the other way round. */
  ghost predicate WrongAbout(t: string, s: string, found: bool) {
    exists r: Regex :: Spells(r, t) && Convert(t).Some? && (Satisfies(Convert(t).value, s) <==> !found) && (Search(r, s) <==> found)
  }

  lemma WrongOne(r: Regex, t: string, s: string, found: bool)
    requires Spells(r, t) && NameOk(s) && !RightAbout(r, s) && (Search(r, s) <==> found)
    ensures WrongAbout(t, s, found)
  {
    hide RegexText, RegexOk, NameOk, RightAbout, Search, Convert, Satisfies;
    Wrong(r, s);
  }

  /** `^(a\$|b)$` selects `a$x`, which it does not match. */
  lemma EscapedDollarSelects()
    ensures WrongAbout("^(a\\$|b)$", "a$x", false)
  {
    var b, s, t := Char('b'), "a$x", "^(a\\$|b)$";
    assert !Escapable('b');
    assert t == "^(" + "a\\$" + "|" + ['b'] + ")$";
    hide *;
    EscapedIs();
    EscapedOccurs();
    CharIs('b');
    PairSpells(ESCAPED, b, "a\\$", ['b'], t);
    Compared();
    LiteralFound(b, s);
    PairFinds(ESCAPED, b, s);
    PairOpen(ESCAPED, b, s);
    WrongOne(Pair(ESCAPED, b), t, s, false);
  }

  const ANCHORED := Branch(true, [Lit('a', false)], false)

  lemma AnchoredIs()
    ensures BranchText(ANCHORED) == "^a" && Literal(ANCHORED) == "a" && BranchOk(ANCHORED) && PlainLiteral("^a") && PlainAtoms(ANCHORED.atoms)
    ensures forall b :: OwnAnchor(Pair(ANCHORED, b), ANCHORED)
  {
    assert !Escapable('a');
    CharIs('a');
    assert ANCHORED.atoms == Char('a').atoms;
  }

  lemma CharAnchorless(c: char, r: Regex)
    ensures !OwnAnchor(r, Char(c))
  {
  }

  /** `^(^a|b)$` does not select `a`, which it matches. */
  lemma InnerAnchorMisses()
    ensures WrongAbout("^(^a|b)$", "a", true)
  {
    var b, s, t := Char('b'), "a", "^(^a|b)$";
    assert !Escapable('b');
    assert t == "^(" + "^a" + "|" + ['b'] + ")$";
    hide *;
    AnchoredIs();
    CharIs('b');
    CharAnchorless('b', Pair(ANCHORED, b));
    PairSpells(ANCHORED, b, "^a", ['b'], t);
    PairIsList(ANCHORED, b);
    Compared();
    LiteralFound(ANCHORED, s);
    PairFinds(ANCHORED, b, s);
    PairHits(ANCHORED, b, s);
    RightIs(Pair(ANCHORED, b), s);
    WrongOne(Pair(ANCHORED, b), t, s, true);
  }

  /** `^(a|b)$` selects `a` with a blank behind it, which it does not match. */
  lemma PaddedNameSelects()
    ensures WrongAbout("^(a|b)$", "a ", false)
  {
    var a, b, s, t := Char('a'), Char('b'), "a ", "^(a|b)$";
    assert !Escapable('a') && !Escapable('b');
    assert t == "^(" + ['a'] + "|" + ['b'] + ")$";
    hide *;
    CharIs('a');
    CharIs('b');
    CharAnchorless('a', Pair(a, b));
    CharAnchorless('b', Pair(a, b));
    PairSpells(a, b, ['a'], ['b'], t);
    PairIsList(a, b);
    Compared();
    LiteralFound(a, s);
    LiteralFound(b, s);
    PairFinds(a, b, s);
    PairHits(a, b, s);
    RightIs(Pair(a, b), s);
    WrongOne(Pair(a, b), t, s, false);
  }

  // ---------------------------------------------------------------- a last piece the cut stops in

  lemma SplitBar(more: string, out: seq<string>, current: string)
    requires current != ""
    ensures Split("|" + more, out, current, 0) == Split(more, out + [current], "", 0)
  {
    assert ("|" + more)[1..] == more;
  }

  lemma {:induction false} CutBeforeTail(alts: seq<Branch>, tail: string, out: seq<string>)
    requires alts != [] && forall k :: 0 <= k < |alts| ==> BranchOk(alts[k])
    ensures Split(Joined(BranchTexts(alts), "|") + ("|" + tail), out, "", 0) == Split(tail, out + BranchTexts(alts), "", 0)
  {
    hide BranchText, Split, Joined, AtomsOk;
    var first, texts := BranchText(alts[0]), BranchTexts(alts);
    BranchTextFirst(alts[0]);
    var more := if |alts| == 1 then tail else Joined(texts[1..], "|") + ("|" + tail);
    JoinedFirst(texts);
    assert Joined(texts, "|") + ("|" + tail) == first + ("|" + more);
    SplitBranch(alts[0], "|" + more, out);
    SplitBar(more, out, first);
    if |alts| == 1 {
      assert out + texts == out + [first];
    } else {
      assert texts[1..] == BranchTexts(alts[1..]);
      CutBeforeTail(alts[1..], tail, out + [first]);
      assert (out + [first]) + BranchTexts(alts[1..]) == out + texts;
    }
  }

  /** A pattern with one more piece behind its alternatives. */
  function TailedText(r: Regex, tail: string): string {
    match r
    case Flat(alts) => Joined(BranchTexts(alts), "|") + ("|" + tail)
    case Group(start, alts, end) => Caret(start) + ("(" + ((Joined(BranchTexts(alts), "|") + ("|" + tail)) + (")" + Dollar(end))))
  }

  lemma TailedFlat(alts: seq<Branch>, tail: string)
    requires RegexOk(Flat(alts))
    ensures GroupInside(TailedText(Flat(alts), tail)) == None && TailedText(Flat(alts), tail) != ""
  {
    hide GroupInside, BranchText, BranchOk, Caret, Joined;
    var texts, b := BranchTexts(alts), alts[0];
    JoinedFirst(texts);
    var more := if |alts| == 1 then "|" + tail else ("|" + Joined(texts[1..], "|")) + ("|" + tail);
    var rest := BranchHead(b, more);
    NoGroup(b.start, rest);
    assert TailedText(Flat(alts), tail) == BranchText(b) + more;
  }

  /** The cut's verdict is ignored: when it stops inside the last piece, the alternatives found are the others. */
  lemma TailUnseen(r: Regex, tail: string)
    requires RegexOk(r) && Split(tail, BranchTexts(r.alts), "", 0) == (BranchTexts(r.alts), false)
    ensures TailedText(r, tail) != ""
    ensures AlternativesOf(TailedText(r, tail)) == Alternatives(GroupStart(r), BranchTexts(r.alts), GroupEnd(r))
  {
    hide Split, GroupInside, BranchText, BranchOk, Joined;
    CutBeforeTail(r.alts, tail, []);
    assert [] + BranchTexts(r.alts) == BranchTexts(r.alts);
    if r.Flat? {
      TailedFlat(r.alts, tail);
    } else {
      GroupHasInside(r.start, Joined(BranchTexts(r.alts), "|") + ("|" + tail), r.end);
    }
  }

  /** So the pattern is converted as if that piece were not there. */
  lemma UnfinishedTailIsDropped(r: Regex, tail: string)
    requires RegexOk(r) && |r.alts| >= 2
    requires Split(tail, BranchTexts(r.alts), "", 0) == (BranchTexts(r.alts), false)
    ensures Convert(TailedText(r, tail)) == Convert(RegexText(r))
  {
    hide *;
    TailUnseen(r, tail);
    FindsAlternatives(r);
    CombinedIs(TailedText(r, tail));
    CombinedIs(RegexText(r));
  }

  /** With one alternative before it the whole text is tried as one pattern, and its bar refused. */
  lemma OneBeforeTail(b: Branch, tail: string)
    requires BranchOk(b) && Split(tail, [BranchText(b)], "", 0) == ([BranchText(b)], false)
    ensures Convert(TailedText(Flat([b]), tail)) == None
  {
    assert BranchTexts([b]) == [BranchText(b)];
    var t := TailedText(Flat([b]), tail);
    assert t == BranchText(b) + ("|" + tail) && RegexOk(Flat([b]));
    TailUnseen(Flat([b]), tail);
    hide Split, AlternativesOf, LikeOf, BranchText, BranchOk, RegexOk, TailedText;
    BarRefusedAfter(b, tail);
  }

  /** A group with one alternative, as written or as the cut left it, is not converted at all. */
  lemma LoneGroupRefused(t: string)
    requires GroupInside(t).Some? && |AlternativesOf(t).alts| < 2
    ensures Convert(t) == None
  {
    hide AlternativesOf;
    var lo := if t[0] == '^' then 1 else 0;
    assert t[lo..][0] == '(' && t[lo..] != "$";
    assert NextToken(t[lo..]) == Bad by { assert Unconvertible('('); }
  }

  lemma BarRefusedAfter(b: Branch, tail: string)
    requires BranchOk(b)
    ensures LikeOf(BranchText(b) + ("|" + tail)) == None
  {
    BranchTextFirst(b);
    BarRefused(b.atoms, b.end, tail);
    hide *;
    DropOver(BranchText(b), "|" + tail, if b.start then 1 else 0);
    LikeOfIs(BranchText(b) + ("|" + tail));
  }

  lemma DropOver(a: string, b: string, n: nat)
    requires n <= |a| && a != ""
    ensures (a + b)[n..] == a[n..] + b && (a + b)[0] == a[0]
  {
  }

  lemma LikeOfIs(t: string)
    requires t != "" && ScanBody(t[if t[0] == '^' then 1 else 0..]) == Refused
    ensures LikeOf(t) == None
  {
    hide ScanBody;
  }

  lemma {:induction false} BarRefused(atoms: seq<Atom>, end: bool, tail: string)
    requires AtomsOk(atoms)
    ensures ScanBody((AtomsText(atoms) + Dollar(end)) + ("|" + tail)) == Refused
  {
    if atoms == [] {
      BarAhead(end, tail);
      assert (AtomsText(atoms) + Dollar(end)) + ("|" + tail) == Dollar(end) + ("|" + tail);
    } else {
      var rest := (AtomsText(atoms[1..]) + Dollar(end)) + ("|" + tail);
      assert (AtomsText(atoms) + Dollar(end)) + ("|" + tail) == AtomText(atoms[0]) + rest;
      assert rest[0] != '*' && rest[0] != '+' by { AtomsTextFirst(atoms[1..], end); }
      assert AtomOk(atoms[0]);
      BarRefused(atoms[1..], end, tail);
      hide ScanBody;
      ScanAtom(atoms[0], rest);
    }
  }

  lemma BarAhead(end: bool, tail: string)
    ensures ScanBody(Dollar(end) + ("|" + tail)) == Refused
  {
    var s := "|" + tail;
    assert s[0] == '|' && ScanBody(s) == Refused;
    assert "" + s == s;
    if end {
      var d := "$" + s;
      assert d[0] == '$' && |d| > 1 && d[1..] == s && NextToken(d) == Token("$", 1);
    }
  }

  // ---------------------------------------------------------------- pieces the cut stops in, and what they mean

  /** An empty alternative at the end, or one with a parenthesis as a bracket expression, `[(]` or `[)]`, and
      whatever alternatives follow it: they are cut off with it. */
  datatype Tail = Nothing | Bracketed(start: bool, before: seq<Atom>, paren: char, after: seq<Atom>, end: bool, more: seq<Branch>)

  predicate TailOk(tail: Tail) {
    tail.Bracketed? ==>
      tail.paren in "()" && AtomsOk(tail.before) && AtomsOk(tail.after) && forall k :: 0 <= k < |tail.more| ==> BranchOk(tail.more[k])
  }

  function Following(more: seq<Branch>): string { if more == [] then "" else "|" + Joined(BranchTexts(more), "|") }

  function TailText(tail: Tail): string {
    match tail
    case Nothing => ""
    case Bracketed(start, before, paren, after, end, more) =>
      Caret(start) + (AtomsText(before) + (['[', paren, ']'] + (AtomsText(after) + (Dollar(end) + Following(more)))))
  }

  const EMPTY := Branch(false, [], false)

  /** The alternatives the text stands for: a bracket expression of one character is that character. */
  function Meant(tail: Tail): (alts: seq<Branch>)
    ensures |alts| >= 1
  {
    match tail
    case Nothing => [EMPTY]
    case Bracketed(start, before, paren, after, end, more) => [Branch(start, before + [Lit(paren, true)] + after, end)] + more
  }

  /** Text without parentheses outside escapes. */
  predicate Flatland(s: string) {
    if s == "" then true
    else if s[0] == '\\' && |s| > 1 then Flatland(s[2..])
    else s[0] !in "()" && Flatland(s[1..])
  }

  /** Inside a parenthesis the cut finds no bar, and at the end it is still inside. */
  lemma {:induction false} CutStaysInside(s: string, out: seq<string>, current: string, depth: int)
    requires Flatland(s) && depth != 0
    ensures Split(s, out, current, depth) == (out, false)
    decreases |s|
  {
    if s != "" {
      if s[0] == '\\' && |s| > 1 {
        CutStaysInside(s[2..], out, current + s[..2], depth);
      } else {
        CutStaysInside(s[1..], out, current + [s[0]], depth);
      }
    }
  }

  lemma FlatChar(c: char, rest: string)
    requires c !in "()\\" && Flatland(rest)
    ensures Flatland([c] + rest)
  {
    assert ([c] + rest)[1..] == rest;
  }

  lemma FlatAtom(a: Atom, rest: string)
    requires AtomOk(a) && Flatland(rest)
    ensures Flatland(AtomText(a) + rest)
  {
    match a
    case Lit(c, escaped) => if escaped { assert (AtomText(a) + rest)[2..] == rest; } else { FlatChar(c, rest); }
    case Any => FlatChar('.', rest);
    case AnyStar =>
      FlatChar('*', rest);
      FlatChar('.', "*" + rest);
      assert AtomText(a) + rest == "." + ("*" + rest);
    case AnyPlus =>
      FlatChar('+', rest);
      FlatChar('.', "+" + rest);
      assert AtomText(a) + rest == "." + ("+" + rest);
  }

  lemma {:induction false} FlatAtoms(atoms: seq<Atom>, rest: string)
    requires AtomsOk(atoms) && Flatland(rest)
    ensures Flatland(AtomsText(atoms) + rest)
  {
    hide Flatland, AtomText;
    if atoms == [] {
      assert AtomsText(atoms) + rest == rest;
    } else {
      FlatAtoms(atoms[1..], rest);
      assert AtomOk(atoms[0]);
      FlatAtom(atoms[0], AtomsText(atoms[1..]) + rest);
      assert AtomsText(atoms) + rest == AtomText(atoms[0]) + (AtomsText(atoms[1..]) + rest);
    }
  }

  lemma FlatAnchor(anchor: string, rest: string)
    requires anchor in {"", "^", "$", "|"} && Flatland(rest)
    ensures Flatland(anchor + rest)
  {
    if anchor == "" {
      assert "" + rest == rest;
    } else {
      FlatChar(anchor[0], rest);
      assert [anchor[0]] == anchor;
    }
  }

  lemma {:induction false} FlatFollowing(more: seq<Branch>)
    requires forall k :: 0 <= k < |more| ==> BranchOk(more[k])
    ensures Flatland(Following(more))
  {
    if more != [] {
      var texts := BranchTexts(more);
      FlatFollowing(more[1..]);
      assert texts[1..] == BranchTexts(more[1..]);
      JoinedFirst(texts);
      FlatBranch(more[0], Following(more[1..]));
      hide Flatland, BranchText, Joined;
      assert Joined(texts, "|") == BranchText(more[0]) + Following(more[1..]) by {
        assert BranchText(more[0]) + "" == BranchText(more[0]);
      }
      FlatAnchor("|", Joined(texts, "|"));
    }
  }

  lemma FlatBranch(b: Branch, rest: string)
    requires BranchOk(b) && Flatland(rest)
    ensures Flatland(BranchText(b) + rest)
  {
    hide Flatland, AtomsText;
    FlatAnchor(Dollar(b.end), rest);
    FlatAtoms(b.atoms, Dollar(b.end) + rest);
    FlatAnchor(Caret(b.start), AtomsText(b.atoms) + (Dollar(b.end) + rest));
    assert BranchText(b) + rest == Caret(b.start) + (AtomsText(b.atoms) + (Dollar(b.end) + rest));
  }

  /** The cut stops in every such piece, and returns what it had before. */
  lemma CutStops(tail: Tail, out: seq<string>)
    requires TailOk(tail)
    ensures Split(TailText(tail), out, "", 0) == (out, false)
  {
    if tail.Bracketed? {
      var head := Caret(tail.start);
      var behind := AtomsText(tail.after) + (Dollar(tail.end) + Following(tail.more));
      FlatFollowing(tail.more);
      FlatAnchor(Dollar(tail.end), Following(tail.more));
      FlatAtoms(tail.after, Dollar(tail.end) + Following(tail.more));
      hide Split, AtomsText, Following, Flatland;
      var paren := tail.paren;
      SplitAnchor(head, AtomsText(tail.before) + (['[', paren, ']'] + behind), out, "");
      assert "" + head == head;
      SplitOver(tail.before, ['[', paren, ']'] + behind, out, head);
      BracketOpens(paren, behind, out, head + AtomsText(tail.before));
    }
  }

  lemma BracketOpens(paren: char, behind: string, out: seq<string>, current: string)
    requires paren in "()" && Flatland(behind)
    ensures Split(['[', paren, ']'] + behind, out, current, 0) == (out, false)
  {
    var inner, close := [paren] + ("]" + behind), "]" + behind;
    SplitPlain('[', inner, out, current);
    assert ['[', paren, ']'] + behind == ['['] + inner;
    hide Split, Flatland;
    SplitParen(paren, close, out, current + ['[']);
    FlatChar(']', behind);
    CutStaysInside(close, out, current + ['['] + [paren], if paren == '(' then 1 else -1);
  }

  lemma SplitParen(paren: char, rest: string, out: seq<string>, current: string)
    requires paren in "()"
    ensures Split([paren] + rest, out, current, 0) == Split(rest, out, current + [paren], if paren == '(' then 1 else -1)
  {
    assert ([paren] + rest)[1..] == rest;
  }

  /** The pattern as it was written. */
  function Extended(r: Regex, more: seq<Branch>): Regex {
    match r
    case Flat(alts) => Flat(alts + more)
    case Group(start, alts, end) => Group(start, alts + more, end)
  }

  /** Some alternative cut off is found in the name. */
  ghost predicate TailFound(r: Regex, tail: Tail, s: string) {
    exists k :: 0 <= k < |Meant(tail)| && BranchFound(Within(GroupStart(r), Meant(tail)[k], GroupEnd(r)), s)
  }

  lemma ExtendedFinds(r: Regex, tail: Tail, s: string)
    ensures Search(Extended(r, Meant(tail)), s) <==> Search(r, s) || TailFound(r, tail, s)
  {
    var x, more := Extended(r, Meant(tail)), Meant(tail);
    SearchIsSomeFound(r, s);
    SearchIsSomeFound(x, s);
    hide Search, BranchFound, Meant, Within;
    assert GroupStart(x) == GroupStart(r) && GroupEnd(x) == GroupEnd(r) && x.alts == r.alts + more;
    if SomeFound(x, s) {
      var k :| 0 <= k < |x.alts| && BranchFound(Within(GroupStart(x), x.alts[k], GroupEnd(x)), s);
      if k >= |r.alts| { assert x.alts[k] == more[k - |r.alts|]; }
    }
    if SomeFound(r, s) {
      var k :| 0 <= k < |r.alts| && BranchFound(Within(GroupStart(r), r.alts[k], GroupEnd(r)), s);
      assert x.alts[k] == r.alts[k];
    }
    if TailFound(r, tail, s) {
      var k :| 0 <= k < |more| && BranchFound(Within(GroupStart(r), more[k], GroupEnd(r)), s);
      assert x.alts[|r.alts| + k] == more[k];
    }
  }

  /** Which names the predicate of a pattern with such a last piece is right about, bare or in a group: where it is
      right about the rest of the pattern, those the rest finds and those the piece does not; elsewhere, those the
      piece finds and the rest does not. */
  lemma TailDroppedExactly(r: Regex, tail: Tail, s: string)
    requires RegexOk(r) && |r.alts| >= 2 && TailOk(tail) && NameOk(s)
    ensures var p := Convert(TailedText(r, TailText(tail)));
            p.Some? && ((Satisfies(p.value, s) <==> Search(Extended(r, Meant(tail)), s))
                        <==> if RightAbout(r, s) then Search(r, s) || !TailFound(r, tail, s)
                             else !Search(r, s) && TailFound(r, tail, s))
  {
    hide *;
    CutStops(tail, BranchTexts(r.alts));
    UnfinishedTailIsDropped(r, TailText(tail));
    ConvertedExactly(r, s);
    ExtendedFinds(r, tail, s);
  }

  /** With an empty alternative at the end of a bare pattern the regex finds every name, and the predicate is right
      about a name exactly when the pattern without that alternative finds it. */
  lemma LastEmptyExactly(alts: seq<Branch>, s: string)
    requires RegexOk(Flat(alts)) && |alts| >= 2 && NameOk(s) && Comparable(Flat(alts), s)
    ensures var p := Convert(RegexText(Flat(alts + [EMPTY])));
            p.Some? && Search(Flat(alts + [EMPTY]), s)
            && ((Satisfies(p.value, s) <==> Search(Flat(alts + [EMPTY]), s)) <==> Search(Flat(alts), s))
  {
    hide *;
    EmptyLast(alts, s);
    TailDroppedExactly(Flat(alts), Nothing, s);
    ExtendedFinds(Flat(alts), Nothing, s);
    FaithfulIsRight(Flat(alts), s);
  }

  lemma EmptyLast(alts: seq<Branch>, s: string)
    requires alts != []
    ensures RegexText(Flat(alts + [EMPTY])) == TailedText(Flat(alts), TailText(Nothing)) && TailOk(Nothing)
    ensures Extended(Flat(alts), Meant(Nothing)) == Flat(alts + [EMPTY]) && TailFound(Flat(alts), Nothing, s) && Faithful(Flat(alts))
  {
    hide Joined;
    assert BranchText(EMPTY) == "";
    assert BranchTexts(alts + [EMPTY]) == BranchTexts(alts) + [""];
    JoinedSnoc(BranchTexts(alts), "|", "");
    assert Joined(BranchTexts(alts), "|") + "|" + "" == Joined(BranchTexts(alts), "|") + ("|" + "");
    assert BranchMatches(Within(false, EMPTY, false), s, 0, 0) && Meant(Nothing)[0] == EMPTY;
  }

  const OPENING := Bracketed(false, [], '(', [], false, [])

  lemma OpeningIs(a: Branch, b: Branch)
    ensures TailText(OPENING) == "[(]" && TailOk(OPENING) && TailFound(Pair(a, b), OPENING, "(")
  {
    var s, m := "(", Meant(OPENING)[0];
    assert m.atoms == [Lit('(', true)] && m.atoms[1..] == [];
    assert AtomMatches(m.atoms[0], s, 0, 1) && AtomsMatch(m.atoms[1..], s, 1, 1) && AtomsMatch(m.atoms, s, 0, 1);
    assert BranchMatches(Within(true, m, true), s, 0, 1);
  }

  lemma TailedPair(a: Branch, b: Branch, left: string, right: string, tail: string, t: string)
    requires BranchOk(a) && BranchOk(b) && BranchText(a) == left && BranchText(b) == right
    requires t == "^(" + left + "|" + right + "|" + tail + ")$"
    ensures RegexOk(Pair(a, b)) && |Pair(a, b).alts| == 2 && TailedText(Pair(a, b), tail) == t
  {
    PairText(a, b);
    hide BranchText, BranchOk, Joined, BranchTexts;
    SpeltOut(left, right, tail);
  }

  lemma SpeltOut(left: string, right: string, tail: string)
    ensures "^" + ("(" + (((left + ("|" + right)) + ("|" + tail)) + (")" + "$"))) == "^(" + left + "|" + right + "|" + tail + ")$"
  {
  }

  lemma PlainPairIsFaithful(a: Branch, b: Branch, s: string)
    requires PlainAtoms(a.atoms) && PlainAtoms(b.atoms) && !a.start && !a.end && !b.start && !b.end
    requires Unpadded(s) && Unpadded(Literal(a)) && Unpadded(Literal(b))
    ensures Faithful(Pair(a, b)) && Comparable(Pair(a, b), s)
  {
    hide BranchText, Literal, PlainLiteral, Unpadded;
  }

  /** `^(a|b|[(])$` does not select `(`, which it matches. */
  lemma BracketMisses()
    ensures var r, t, s := Pair(Char('a'), Char('b')), "^(a|b|[(])$", "(";
            TailedText(r, TailText(OPENING)) == t && Convert(t).Some? && !Satisfies(Convert(t).value, s)
            && Search(Extended(r, Meant(OPENING)), s)
  {
    var a, b, s, t := Char('a'), Char('b'), "(", "^(a|b|[(])$";
    assert !Escapable('a') && !Escapable('b') && !a.start && !a.end && !b.start && !b.end;
    assert t == "^(" + ['a'] + "|" + ['b'] + "|" + "[(]" + ")$";
    hide *;
    CharIs('a');
    CharIs('b');
    OpeningIs(a, b);
    TailedPair(a, b, ['a'], ['b'], TailText(OPENING), t);
    Compared();
    LiteralFound(a, s);
    LiteralFound(b, s);
    PairFinds(a, b, s);
    PlainPairIsFaithful(a, b, s);
    FaithfulIsRight(Pair(a, b), s);
    TailDroppedExactly(Pair(a, b), OPENING, s);
    ExtendedFinds(Pair(a, b), OPENING, s);
  }
}
