/** Every text the compiler converts is the text of a pattern of the fragment, strays aside, and so has its theorem. */
module RegexTexts {
  import opened Staging
  import opened RegexLike
  import opened RegexMeaning
  import opened RegexTheorem

  // ---------------------------------------------------------------- alternatives

  /** A character the compiler copies though it is no plain character of a regex: an anchor inside an alternative,
      an unmatched parenthesis or a backslash at the end. */
  predicate Stray(a: Atom) { a.Lit? && !a.escaped && a.c in "^$)\\" }

  /** Text in which no such character occurs, but for a dollar at the end. */
  predicate Clean(s: string) {
    if s == "" || s == "$" then true
    else if s[0] == '\\' then |s| > 1 && Clean(s[2..])
    else s[0] !in "^$)" && Clean(s[1..])
  }

  /** The text of an alternative behind its own anchor. */
  function Body(alt: string): string { if alt != "" && alt[0] == '^' then alt[1..] else alt }

  lemma TokenStep(s: string)
    requires s != "" && s != "$" && ScanBody(s).Scanned?
    ensures NextToken(s).Token? && ScanBody(s[NextToken(s).width..]).Scanned?
  {
    hide NextToken;
  }

  lemma CleanStep(s: string, n: nat)
    requires Clean(s) && s != "" && s != "$" && (s[0] == '\\' ==> |s| > 1 && n == 2)
    requires s[0] != '\\' ==> n == 1 || (n == 2 && |s| > 1 && s[1] !in "$\\")
    ensures Clean(s[n..]) && (s[0] != '\\' ==> s[0] !in "^$)")
  {
    if n == 2 && s[0] != '\\' {
      var t := s[1..];
      assert t != "$" && t[0] == s[1] && t[1..] == s[2..];
    }
  }

  lemma FirstAtom(s: string) returns (a: Atom)
    requires s != "" && s != "$" && ScanBody(s).Scanned?
    ensures |AtomText(a)| <= |s| && s[..|AtomText(a)|] == AtomText(a) && ScanBody(s[|AtomText(a)|..]).Scanned?
    ensures AtomOk(a) || Stray(a)
    ensures Clean(s) ==> AtomOk(a) && Clean(s[|AtomText(a)|..])
  {
    TokenStep(s);
    if s[0] == '.' {
      a := if |s| > 1 && s[1] == '*' then AnyStar else if |s| > 1 && s[1] == '+' then AnyPlus else Any;
    } else {
      a := if s[0] == '\\' && |s| > 1 then Lit(s[1], true) else Lit(s[0], false);
    }
    hide ScanBody, Clean;
    if Clean(s) {
      if s == "\\" { LoneBackslash(); }
      CleanStep(s, |AtomText(a)|);
    }
  }

  lemma LoneBackslash()
    ensures !Clean("\\")
  {
  }

  /** Text that converts is the text of terms of the fragment, but for stray characters. */
  lemma {:induction false} ConvertedBody(s: string) returns (atoms: seq<Atom>, end: bool)
    requires ScanBody(s).Scanned?
    ensures s == AtomsText(atoms) + Dollar(end)
    ensures forall k :: 0 <= k < |atoms| ==> AtomOk(atoms[k]) || Stray(atoms[k])
    ensures Clean(s) ==> AtomsOk(atoms)
    decreases |s|
  {
    hide ScanBody, AtomText;
    if s == "" || s == "$" {
      atoms, end := [], s == "$";
    } else {
      var first := FirstAtom(s);
      var n := |AtomText(first)|;
      var rest, end' := ConvertedBody(s[n..]);
      atoms, end := [first] + rest, end';
      assert atoms[1..] == rest;
      assert s == AtomText(first) + s[n..];
    }
  }

  lemma ConvertedBranch(t: string) returns (b: Branch)
    requires LikeOf(t).Some?
    ensures BranchText(b) == t && forall k :: 0 <= k < |b.atoms| ==> AtomOk(b.atoms[k]) || Stray(b.atoms[k])
    ensures Clean(Body(t)) ==> BranchOk(b)
  {
    var atoms, end := ConvertedBody(Body(t));
    b := Branch(t[0] == '^', atoms, end);
    assert BranchText(b) == t;
  }

  // ---------------------------------------------------------------- alternatives that convert under anchors

  /** The dollar a group puts behind an alternative is not what makes it convert. */
  lemma {:induction false} DollarScans(s: string)
    requires Clean(s) && ScanBody(s + "$").Scanned? && (s != "" ==> s[|s| - 1] != '$')
    ensures ScanBody(s).Scanned?
    decreases |s|
  {
    if s != "" {
      var t := s + "$";
      assert t[0] == s[0] && t != "$" && s != "$" && (|s| > 1 ==> t[1] == s[1]);
      assert NextToken(t) == NextToken(s);
      var n := NextToken(s).width;
      assert t[n..] == s[n..] + "$";
      assert n < |s| ==> s[n..][|s[n..]| - 1] == s[|s| - 1];
      assert Clean(s[n..]) by {
        assert s[1..] != "$";
        if n == 2 && s[0] == '.' { assert s[1..][1..] == s[2..]; }
      }
      DollarScans(s[n..]);
    }
  }

  lemma AnchoredBody(start: bool, alt: string, end: bool)
    requires alt != ""
    ensures Anchored(start, alt, end) != ""
    ensures Body(Anchored(start, alt, end)) == Body(alt)
            || (Body(Anchored(start, alt, end)) == Body(alt) + "$" && (Body(alt) != "" ==> Body(alt)[|Body(alt)| - 1] != '$'))
  {
    var left := if start && alt[0] != '^' then "^" + alt else alt;
    assert Body(left) == Body(alt);
    if end && left[|left| - 1] != '$' {
      assert Body(left + "$") == Body(left) + "$";
    }
  }

  lemma LikeOfBody(t: string)
    requires t != ""
    ensures LikeOf(t).Some? <==> ScanBody(Body(t)).Scanned?
  {
    hide ScanBody;
    assert t[0..] == t;
  }

  lemma AnchoredConverts(start: bool, alt: string, end: bool)
    requires alt != "" && Clean(Body(alt)) && LikeOf(Anchored(start, alt, end)).Some?
    ensures LikeOf(alt).Some?
  {
    hide *;
    AnchoredBody(start, alt, end);
    LikeOfBody(Anchored(start, alt, end));
    LikeOfBody(alt);
    if Body(Anchored(start, alt, end)) == Body(alt) + "$" && (Body(alt) != "" ==> Body(alt)[|Body(alt)| - 1] != '$') {
      DollarScans(Body(alt));
    }
  }

  lemma {:induction false} PlainScans(s: string)
    requires PlainLiteral(s)
    ensures ScanBody(s).Scanned?
    decreases |s|
  {
    if s != "" && s != "$" {
      assert !Meta(s[0]);
      assert forall i :: 0 <= i < |s| - 1 ==> s[1..][i] == s[i + 1];
      PlainScans(s[1..]);
    }
  }

  lemma PlainConverts(alt: string)
    requires alt != "" && (PlainLiteral(alt) || Exact(alt))
    ensures LikeOf(alt).Some?
  {
    LikeOfBody(alt);
    if Exact(alt) {
      var inner := alt[1..|alt| - 1];
      forall i | 0 <= i < |alt| ensures !Meta(alt[i]) {
        if 0 < i < |alt| - 1 { assert alt[i] == inner[i - 1]; }
      }
    }
    assert forall i :: 0 <= i < |alt| - 1 ==> alt[1..][i] == alt[i + 1];
    PlainScans(Body(alt));
  }

  lemma {:induction false} LikeAllEach(start: bool, alts: seq<string>, end: bool, k: nat)
    requires LikeAll(start, alts, end).Some? && k < |alts|
    ensures LikeOf(Anchored(start, alts[k], end)).Some?
  {
    hide LikeOf, Anchored;
    if k > 0 { LikeAllEach(start, alts[1..], end, k - 1); }
  }

  /** Whatever the predicate becomes, each alternative is one that converts. */
  lemma EachConverts(a: Alternatives, k: nat)
    requires Combine(a).Some? && k < |a.alts| && a.alts[k] != "" && Clean(Body(a.alts[k]))
    ensures LikeOf(a.alts[k]).Some?
  {
    hide LikeOf, Anchored, PlainLiteral, Exact, LikeAll, Clean, Body, Inners;
    if PlainLiteral(a.alts[k]) || Exact(a.alts[k]) {
      PlainConverts(a.alts[k]);
    } else {
      LikeAllEach(a.start, a.alts, a.end, k);
      AnchoredConverts(a.start, a.alts[k], a.end);
    }
  }

  // ---------------------------------------------------------------- the cut

  /** A cut that ran to the end cut the whole text. */
  lemma {:induction false} CutIsWhole(s: string, out: seq<string>, current: string, depth: int)
    requires Split(s, out, current, depth).1
    ensures Joined(Split(s, out, current, depth).0, "|")
            == (if out == [] then current else Joined(out, "|") + "|" + current) + s
    decreases |s|
  {
    hide Joined;
    var head := if out == [] then "" else Joined(out, "|") + "|";
    if s == "" {
      JoinedSnoc(out, "|", current);
    } else if s[0] == '\\' && |s| > 1 {
      CutIsWhole(s[2..], out, current + s[..2], depth);
      assert head + (current + s[..2]) + s[2..] == head + current + s;
    } else if s[0] == '|' && depth == 0 {
      JoinedSnoc(out, "|", current);
      CutIsWhole(s[1..], out + [current], "", 0);
      assert head + current + "|" + "" + s[1..] == head + current + s;
    } else {
      var depth' := if s[0] == '(' then depth + 1 else if s[0] == ')' then depth - 1 else depth;
      CutIsWhole(s[1..], out, current + [s[0]], depth');
      assert head + (current + [s[0]]) + s[1..] == head + current + s;
    }
  }

  ghost predicate NoneEmpty(pieces: seq<string>) { forall k :: 0 <= k < |pieces| ==> pieces[k] != "" }

  lemma {:induction false} PiecesNonEmpty(s: string, out: seq<string>, current: string, depth: int)
    requires NoneEmpty(out)
    ensures NoneEmpty(Split(s, out, current, depth).0)
    decreases |s|
  {
    if s == "" {
    } else if s[0] == '\\' && |s| > 1 {
      PiecesNonEmpty(s[2..], out, current + s[..2], depth);
    } else if s[0] == '|' && depth == 0 {
      if current != "" { PiecesNonEmpty(s[1..], out + [current], "", 0); }
    } else {
      var depth' := if s[0] == '(' then depth + 1 else if s[0] == ')' then depth - 1 else depth;
      PiecesNonEmpty(s[1..], out, current + [s[0]], depth');
    }
  }

  // ---------------------------------------------------------------- whole texts

  /** The cut of the group, and whether it found anything. */
  function GroupCut(t: string): (seq<string>, bool) {
    if GroupInside(t).Some? then Split(GroupInside(t).value, [], "", 0) else ([], false)
  }

  /** The verdict the compiler ignores: the cut that found the alternatives ran to the end of its text. */
  predicate CutThrough(t: string) { if GroupCut(t).0 != [] then GroupCut(t).1 else Split(t, [], "", 0).1 }

  /** What to check of a text: no strays in its alternatives, and, when there are two or more, that the cut ran
      through. */
  predicate WellCut(t: string) {
    var alts := AlternativesOf(t).alts;
    if |alts| >= 2 then CutThrough(t) && forall k :: 0 <= k < |alts| ==> Clean(Body(alts[k])) else Clean(Body(t))
  }

  lemma {:induction false} BranchesOf(texts: seq<string>) returns (alts: seq<Branch>)
    requires forall k :: 0 <= k < |texts| ==> LikeOf(texts[k]).Some? && Clean(Body(texts[k]))
    ensures BranchTexts(alts) == texts && forall k :: 0 <= k < |alts| ==> BranchOk(alts[k])
  {
    hide LikeOf, Clean, Body, BranchText, BranchOk;
    alts := [];
    if texts != [] {
      var first := ConvertedBranch(texts[0]);
      var rest := BranchesOf(texts[1..]);
      alts := [first] + rest;
      assert texts == [texts[0]] + texts[1..];
      assert BranchTexts(alts) == [BranchText(first)] + BranchTexts(rest);
    }
  }

  lemma GroupShape(t: string)
    requires GroupInside(t).Some?
    ensures t != "" && t == Caret(t[0] == '^') + ("(" + (GroupInside(t).value + (")" + Dollar(t[|t| - 1] == '$'))))
  {
    var lo := if t != "" && t[0] == '^' then 1 else 0;
    var hi := if |t| > lo && t[|t| - 1] == '$' then |t| - 1 else |t|;
    Bracket(t, lo, hi);
    hide Split;
    assert t[..lo] == Caret(t[0] == '^') && t[hi..] == Dollar(t[|t| - 1] == '$');
  }

  lemma Bracket(t: string, lo: nat, hi: nat)
    requires lo + 2 <= hi <= |t| && t[lo] == '(' && t[hi - 1] == ')'
    ensures t == t[..lo] + ("(" + (t[lo + 1..hi - 1] + (")" + t[hi..])))
  {
  }

  lemma WholeCut(s: string)
    requires Split(s, [], "", 0).1
    ensures Joined(Split(s, [], "", 0).0, "|") == s
  {
    CutIsWhole(s, [], "", 0);
    assert "" + s == s;
  }

  /** Where the alternatives came from, when the cut ran through. */
  lemma TextOfAlternatives(t: string)
    requires t != "" && CutThrough(t) && |AlternativesOf(t).alts| >= 2
    ensures var a := AlternativesOf(t);
            if GroupCut(t).0 != [] then t == Caret(a.start) + ("(" + (Joined(a.alts, "|") + (")" + Dollar(a.end))))
            else t == Joined(a.alts, "|")
    ensures NoneEmpty(AlternativesOf(t).alts)
  {
    hide Split, GroupInside, Joined;
    if GroupCut(t).0 != [] {
      GroupShape(t);
      WholeCut(GroupInside(t).value);
      PiecesNonEmpty(GroupInside(t).value, [], "", 0);
    } else {
      WholeCut(t);
      PiecesNonEmpty(t, [], "", 0);
    }
  }

  lemma CombinedAlternatives(t: string)
    requires Convert(t).Some? && |AlternativesOf(t).alts| >= 2
    ensures Combine(AlternativesOf(t)).Some?
  {
    hide AlternativesOf, Combine;
  }

  lemma ConvertedAlone(t: string)
    requires Convert(t).Some? && |AlternativesOf(t).alts| < 2
    ensures LikeOf(t).Some?
  {
    hide AlternativesOf, Combine, LikeOf;
  }

  lemma RegexOfAlternatives(t: string) returns (r: Regex)
    requires Convert(t).Some? && |AlternativesOf(t).alts| >= 2 && WellCut(t)
    ensures RegexOk(r) && RegexText(r) == t
  {
    CombinedAlternatives(t);
    var a := AlternativesOf(t);
    hide AlternativesOf, Combine, CutThrough, GroupCut, Clean, Body, LikeOf, BranchOk, BranchText, Joined, Caret, Dollar;
    TextOfAlternatives(t);
    forall k | 0 <= k < |a.alts| ensures LikeOf(a.alts[k]).Some? { EachConverts(a, k); }
    var alts := BranchesOf(a.alts);
    r := if GroupCut(t).0 != [] then Group(a.start, alts, a.end) else Flat(alts);
    hide *;
    TextIs(a, alts);
  }

  lemma TextIs(a: Alternatives, alts: seq<Branch>)
    requires BranchTexts(alts) == a.alts && |alts| >= 2 && forall k :: 0 <= k < |alts| ==> BranchOk(alts[k])
    ensures RegexOk(Flat(alts)) && RegexText(Flat(alts)) == Joined(a.alts, "|")
    ensures RegexOk(Group(a.start, alts, a.end))
    ensures RegexText(Group(a.start, alts, a.end)) == Caret(a.start) + ("(" + (Joined(a.alts, "|") + (")" + Dollar(a.end))))
  {
    hide BranchText, BranchOk, Joined;
  }

  /** Every text that converts, is cut through and holds no strays is the text of a pattern of the fragment. */
  lemma ConvertedIsRegex(t: string) returns (r: Regex)
    requires Convert(t).Some? && WellCut(t)
    ensures RegexOk(r) && RegexText(r) == t
  {
    if |AlternativesOf(t).alts| >= 2 {
      r := RegexOfAlternatives(t);
    } else {
      hide AlternativesOf, Convert, LikeOf, Clean, Body, BranchOk, BranchText;
      ConvertedAlone(t);
      var b := ConvertedBranch(t);
      r := Flat([b]);
      assert BranchTexts([b]) == [BranchText(b)];
    }
  }

  /** So the theorem about patterns is one about texts: of every such text, and every name, it says exactly whether
      the predicate agrees with the search for the pattern the text spells. */
  lemma ConvertedTextsExactly(t: string, s: string) returns (r: Regex)
    requires Convert(t).Some? && WellCut(t) && NameOk(s)
    ensures RegexOk(r) && RegexText(r) == t
    ensures (Satisfies(Convert(t).value, s) <==> Search(r, s)) <==> RightAbout(r, s)
  {
    hide *;
    r := ConvertedIsRegex(t);
    ConvertedExactly(r, s);
  }
}
