/** What a table filter's regex means, what the predicate compiled from it means, and that the two agree. */
module RegexMeaning {
  import opened Staging
  import opened RegexLike

  // ---------------------------------------------------------------- the regex fragment and its text

  /** ECMAScript terms the compiler converts: a character, plain or escaped, and `.`, `.*`, `.+`. */
  datatype Atom = Lit(c: char, escaped: bool) | Any | AnyStar | AnyPlus

  datatype Branch = Branch(start: bool, atoms: seq<Atom>, end: bool)

  /** Alternatives, bare or inside one group that may itself be anchored. */
  datatype Regex = Flat(alts: seq<Branch>) | Group(start: bool, alts: seq<Branch>, end: bool)

  predicate AtomOk(a: Atom) {
    a.Lit? ==> if a.escaped then Escapable(a.c) else !Escapable(a.c) || a.c == ']' || a.c == '}'
  }

  function AtomText(a: Atom): (s: string)
    ensures s != ""
  {
    match a
    case Lit(c, escaped) => if escaped then ['\\', c] else [c]
    case Any => "."
    case AnyStar => ".*"
    case AnyPlus => ".+"
  }

  predicate AtomsOk(atoms: seq<Atom>) { forall k :: 0 <= k < |atoms| ==> AtomOk(atoms[k]) }

  function AtomsText(atoms: seq<Atom>): string {
    if atoms == [] then "" else AtomText(atoms[0]) + AtomsText(atoms[1..])
  }

  function Caret(on: bool): (s: string)
    ensures s in {"", "^", "$"}
  {
    if on then "^" else ""
  }

  function Dollar(on: bool): (s: string)
    ensures s in {"", "^", "$"}
  {
    if on then "$" else ""
  }

  function BranchText(b: Branch): string { Caret(b.start) + (AtomsText(b.atoms) + Dollar(b.end)) }

  /** An alternative that is not empty. */
  predicate BranchOk(b: Branch) { AtomsOk(b.atoms) && (b.start || b.end || b.atoms != []) }

  function BranchTexts(alts: seq<Branch>): (texts: seq<string>)
    ensures |texts| == |alts|
  {
    seq(|alts|, i requires 0 <= i < |alts| => BranchText(alts[i]))
  }

  function RegexText(r: Regex): string {
    match r
    case Flat(alts) => Joined(BranchTexts(alts), "|")
    case Group(start, alts, end) => Caret(start) + ("(" + (Joined(BranchTexts(alts), "|") + (")" + Dollar(end))))
  }

  predicate RegexOk(r: Regex) {
    (forall k :: 0 <= k < |r.alts| ==> BranchOk(r.alts[k])) && if r.Flat? then |r.alts| >= 1 else |r.alts| >= 2
  }

  // ---------------------------------------------------------------- what a regex search means

  function Fold(c: char): char { if 'A' <= c <= 'Z' then ((c as int) + 32) as char else c }

  predicate LineBreak(c: char) { c == '\n' || c == '\r' }

  /** An object name the comparison is made for. */
  predicate NameOk(s: string) { forall k :: 0 <= k < |s| ==> !LineBreak(s[k]) && s[k] as int < 128 }

  predicate AtomMatches(a: Atom, s: string, i: nat, j: nat)
    requires i <= j <= |s|
  {
    match a
    case Lit(c, _) => j == i + 1 && Fold(s[i]) == Fold(c)
    case Any => j == i + 1 && !LineBreak(s[i])
    case AnyStar => forall k :: i <= k < j ==> !LineBreak(s[k])
    case AnyPlus => i < j && forall k :: i <= k < j ==> !LineBreak(s[k])
  }

  ghost predicate AtomsMatch(atoms: seq<Atom>, s: string, i: nat, j: nat)
    requires i <= j <= |s|
  {
    if atoms == [] then i == j
    else exists k: nat :: i <= k <= j && AtomMatches(atoms[0], s, i, k) && AtomsMatch(atoms[1..], s, k, j)
  }

  ghost predicate BranchMatches(b: Branch, s: string, i: nat, j: nat)
    requires i <= j <= |s|
  {
    (b.start ==> i == 0) && (b.end ==> j == |s|) && AtomsMatch(b.atoms, s, i, j)
  }

  ghost predicate RegexMatches(r: Regex, s: string, i: nat, j: nat)
    requires i <= j <= |s|
  {
    (r.Group? && r.start ==> i == 0) && (r.Group? && r.end ==> j == |s|)
    && exists k :: 0 <= k < |r.alts| && BranchMatches(r.alts[k], s, i, j)
  }

  /** Some stretch of the name matches. */
  ghost predicate Search(r: Regex, s: string) { exists i: nat, j: nat :: i <= j <= |s| && RegexMatches(r, s, i, j) }

  // ---------------------------------------------------------------- what a T-SQL predicate means

  predicate Reaches(i: int, k: int, s: string) { i <= k <= |s| }

  /** LIKE under a case-insensitive collation, for patterns whose sets hold one character each. */
  ghost predicate LikeFrom(p: string, s: string, i: nat)
    requires i <= |s|
    decreases |p|
  {
    if p == "" then i == |s|
    else if p[0] == '%' then exists k: nat :: Reaches(i, k, s) && LikeFrom(p[1..], s, k)
    else if p[0] == '_' then i < |s| && LikeFrom(p[1..], s, i + 1)
    else if p[0] == '[' then |p| >= 3 && p[2] == ']' && i < |s| && Fold(s[i]) == Fold(p[1]) && LikeFrom(p[3..], s, i + 1)
    else i < |s| && Fold(s[i]) == Fold(p[0]) && LikeFrom(p[1..], s, i + 1)
  }

  function TrimBlanks(s: string): string { if s != "" && s[|s| - 1] == ' ' then TrimBlanks(s[..|s| - 1]) else s }

  predicate FoldEqual(a: string, b: string) { |a| == |b| && forall k :: 0 <= k < |a| ==> Fold(a[k]) == Fold(b[k]) }

  /** T-SQL equality pads the shorter side with blanks. */
  predicate SqlEqual(a: string, b: string) { FoldEqual(TrimBlanks(a), TrimBlanks(b)) }

  ghost predicate Satisfies(p: Predicate, s: string) {
    match p
    case Like(like) => LikeFrom(like, s, 0)
    case Or(likes) => exists k :: 0 <= k < |likes| && LikeFrom(likes[k], s, 0)
    case In(vs) => exists k :: 0 <= k < |vs| && SqlEqual(s, vs[k])
  }

  // ---------------------------------------------------------------- the LIKE of a run of terms

  function Emit(a: Atom): string {
    match a
    case Lit(c, _) => LikeChar(c)
    case Any => "_"
    case AnyStar => "%"
    case AnyPlus => "_%"
  }

  function Emits(atoms: seq<Atom>): string { if atoms == [] then "" else Emit(atoms[0]) + Emits(atoms[1..]) }

  lemma LikePercent(rest: string, s: string, i: nat)
    requires i <= |s|
    ensures LikeFrom("%" + rest, s, i) <==> exists k: nat :: Reaches(i, k, s) && LikeFrom(rest, s, k)
  {
    var p := "%" + rest;
    assert p[0] == '%' && p[1..] == rest;
    LikeStar(p, s, i);
  }

  lemma LikeStar(p: string, s: string, i: nat)
    requires i <= |s| && p != "" && p[0] == '%'
    ensures LikeFrom(p, s, i) <==> exists k: nat :: Reaches(i, k, s) && LikeFrom(p[1..], s, k)
  {
  }

  /** Some `k` from which `rest` goes on after the term `a` from `i` to `k`. */
  ghost predicate After(a: Atom, rest: string, s: string, i: nat)
    requires i <= |s|
  {
    exists k: nat :: i <= k <= |s| && AtomMatches(a, s, i, k) && LikeFrom(rest, s, k)
  }

  lemma LikeAnyStar(rest: string, s: string, i: nat)
    requires NameOk(s) && i <= |s|
    ensures LikeFrom("%" + rest, s, i) <==> After(AnyStar, rest, s, i)
  {
    LikePercent(rest, s, i);
    hide LikeFrom;
    if LikeFrom("%" + rest, s, i) {
      var k: nat :| Reaches(i, k, s) && LikeFrom(rest, s, k);
      assert AtomMatches(AnyStar, s, i, k);
    }
    if After(AnyStar, rest, s, i) {
      var k: nat :| i <= k <= |s| && AtomMatches(AnyStar, s, i, k) && LikeFrom(rest, s, k);
      assert Reaches(i, k, s);
    }
  }

  lemma LikeAnyPlus(rest: string, s: string, i: nat)
    requires NameOk(s) && i < |s|
    ensures LikeFrom("%" + rest, s, i + 1) <==> After(AnyPlus, rest, s, i)
  {
    LikePercent(rest, s, i + 1);
    hide LikeFrom;
    if LikeFrom("%" + rest, s, i + 1) {
      var k: nat :| Reaches(i + 1, k, s) && LikeFrom(rest, s, k);
      assert AtomMatches(AnyPlus, s, i, k);
    }
    if After(AnyPlus, rest, s, i) {
      var k: nat :| i <= k <= |s| && AtomMatches(AnyPlus, s, i, k) && LikeFrom(rest, s, k);
      assert Reaches(i + 1, k, s);
    }
  }

  lemma LikeAtom(a: Atom, rest: string, s: string, i: nat)
    requires NameOk(s) && i <= |s|
    ensures LikeFrom(Emit(a) + rest, s, i) <==> After(a, rest, s, i)
  {
    var p := Emit(a) + rest;
    match a
    case Lit(c, _) =>
      if c in "%_[" { assert p[3..] == rest; } else { assert p[1..] == rest; }
      if i < |s| && LikeFrom(rest, s, i + 1) && Fold(s[i]) == Fold(c) { assert AtomMatches(a, s, i, i + 1); }
    case Any =>
      assert p[1..] == rest;
      if i < |s| && LikeFrom(rest, s, i + 1) { assert AtomMatches(a, s, i, i + 1); }
    case AnyStar =>
      LikeAnyStar(rest, s, i);
    case AnyPlus =>
      assert p[1..] == "%" + rest;
      if i < |s| { LikeAnyPlus(rest, s, i); }
  }

  ghost predicate AfterAll(atoms: seq<Atom>, rest: string, s: string, i: nat)
    requires i <= |s|
  {
    exists j: nat :: i <= j <= |s| && AtomsMatch(atoms, s, i, j) && LikeFrom(rest, s, j)
  }

  lemma {:induction false} LikeAtoms(atoms: seq<Atom>, rest: string, s: string, i: nat)
    requires NameOk(s) && i <= |s|
    ensures LikeFrom(Emits(atoms) + rest, s, i) <==> AfterAll(atoms, rest, s, i)
  {
    hide LikeFrom, AtomMatches;
    if atoms == [] {
      assert Emits(atoms) + rest == rest;
      assert AtomsMatch(atoms, s, i, i);
    } else {
      var more := Emits(atoms[1..]) + rest;
      assert Emits(atoms) + rest == Emit(atoms[0]) + more;
      LikeAtom(atoms[0], more, s, i);
      if After(atoms[0], more, s, i) {
        var k: nat :| i <= k <= |s| && AtomMatches(atoms[0], s, i, k) && LikeFrom(more, s, k);
        LikeAtoms(atoms[1..], rest, s, k);
        var j: nat :| k <= j <= |s| && AtomsMatch(atoms[1..], s, k, j) && LikeFrom(rest, s, j);
        assert AtomsMatch(atoms, s, i, j);
      }
      if AfterAll(atoms, rest, s, i) {
        var j: nat :| i <= j <= |s| && AtomsMatch(atoms, s, i, j) && LikeFrom(rest, s, j);
        var k: nat :| i <= k <= j && AtomMatches(atoms[0], s, i, k) && AtomsMatch(atoms[1..], s, k, j);
        assert AfterAll(atoms[1..], rest, s, k);
        LikeAtoms(atoms[1..], rest, s, k);
      }
    }
  }

  function Percent(on: bool): string { if on then "%" else "" }

  ghost predicate Found(atoms: seq<Atom>, s: string, free: bool, loose: bool) {
    exists i: nat, j: nat :: i <= j <= |s| && (free || i == 0) && (loose || j == |s|) && AtomsMatch(atoms, s, i, j)
  }

  lemma LikeTail(loose: bool, s: string, j: nat)
    requires j <= |s|
    ensures LikeFrom(Percent(loose), s, j) <==> loose || j == |s|
  {
    if loose {
      assert "%" + "" == "%" && LikeFrom("", s, |s|);
      LikePercent("", s, j);
    }
  }

  lemma LikeFound(free: bool, atoms: seq<Atom>, loose: bool, s: string)
    requires NameOk(s)
    ensures LikeFrom(Percent(free) + (Emits(atoms) + Percent(loose)), s, 0) <==> Found(atoms, s, free, loose)
  {
    hide LikeFrom, AtomMatches, AtomsMatch;
    var rest := Emits(atoms) + Percent(loose);
    if free { LikePercent(rest, s, 0); } else { assert "" + rest == rest; }
    forall i: nat | i <= |s|
      ensures LikeFrom(rest, s, i) <==> AfterAll(atoms, Percent(loose), s, i)
    {
      LikeAtoms(atoms, Percent(loose), s, i);
    }
    forall j: nat | j <= |s| ensures LikeFrom(Percent(loose), s, j) <==> loose || j == |s| { LikeTail(loose, s, j); }
    if i: nat, j: nat :| i <= j <= |s| && (free || i == 0) && (loose || j == |s|) && AtomsMatch(atoms, s, i, j) {
      assert LikeFrom(Percent(loose), s, j);
      assert AfterAll(atoms, Percent(loose), s, i);
      assert LikeFrom(rest, s, i);
    }
  }

  // ---------------------------------------------------------------- wildcards that are there already

  lemma ExtendLeft(atoms: seq<Atom>, s: string, i: nat, j: nat)
    requires NameOk(s) && i <= j <= |s| && atoms != [] && atoms[0] == AnyStar && AtomsMatch(atoms, s, i, j)
    ensures AtomsMatch(atoms, s, 0, j)
  {
    var k: nat :| i <= k <= j && AtomMatches(atoms[0], s, i, k) && AtomsMatch(atoms[1..], s, k, j);
    assert AtomMatches(atoms[0], s, 0, k);
  }

  predicate Wild(a: Atom) { a.AnyStar? || a.AnyPlus? }

  lemma {:induction false} ExtendRight(atoms: seq<Atom>, s: string, i: nat, j: nat)
    requires NameOk(s) && i <= j <= |s| && atoms != [] && Wild(atoms[|atoms| - 1]) && AtomsMatch(atoms, s, i, j)
    ensures AtomsMatch(atoms, s, i, |s|)
  {
    var k: nat :| i <= k <= j && AtomMatches(atoms[0], s, i, k) && AtomsMatch(atoms[1..], s, k, j);
    if |atoms| == 1 {
      assert atoms[1..] == [] && AtomMatches(atoms[0], s, i, |s|) && AtomsMatch(atoms[1..], s, |s|, |s|);
    } else {
      ExtendRight(atoms[1..], s, k, j);
    }
  }

  lemma EmitsFirst(atoms: seq<Atom>)
    ensures Emits(atoms) != "" && Emits(atoms)[0] == '%' <==> atoms != [] && atoms[0] == AnyStar
    ensures Emits(atoms) == "" <==> atoms == []
  {
  }

  lemma {:induction false} EmitsLast(atoms: seq<Atom>)
    requires atoms != []
    ensures Emits(atoms) != "" && (Emits(atoms)[|Emits(atoms)| - 1] == '%' <==> Wild(atoms[|atoms| - 1]))
  {
    if |atoms| == 1 {
      assert atoms[1..] == [] && Emits(atoms) == Emit(atoms[0]);
    } else {
      EmitsLast(atoms[1..]);
      var first, rest := Emit(atoms[0]), Emits(atoms[1..]);
      assert (first + rest)[|first + rest| - 1] == rest[|rest| - 1];
    }
  }

  /** Whether `%` is put in front and at the back. */
  predicate Free(start: bool, atoms: seq<Atom>) { !start && !(atoms != [] && atoms[0] == AnyStar) }

  predicate Loose(start: bool, atoms: seq<Atom>, end: bool) {
    !end && !(if atoms == [] then Free(start, atoms) else Wild(atoms[|atoms| - 1]))
  }

  lemma WidenIs(start: bool, atoms: seq<Atom>, end: bool)
    ensures Widen(start, Emits(atoms), end)
            == Percent(Free(start, atoms)) + (Emits(atoms) + Percent(Loose(start, atoms, end)))
  {
    hide Emits;
    var like, free := Emits(atoms), Percent(Free(start, atoms));
    EmitsFirst(atoms);
    var full := free + like;
    assert "%" + like == full || like == full;
    if atoms != [] {
      EmitsLast(atoms);
      assert full[|full| - 1] == like[|like| - 1];
    }
    assert full + "%" == free + (like + "%") && full == free + (like + "");
  }

  /** The LIKE pattern of an alternative means its search, one `%` at each open side or one already there. */
  lemma WidenFinds(start: bool, atoms: seq<Atom>, end: bool, s: string)
    requires NameOk(s)
    ensures LikeFrom(Widen(start, Emits(atoms), end), s, 0) <==> Found(atoms, s, !start, !end)
  {
    hide LikeFrom, Found, Widen, Emits;
    WidenIs(start, atoms, end);
    LikeFound(Free(start, atoms), atoms, Loose(start, atoms, end), s);
    FoundSame(start, atoms, end, s, Free(start, atoms), Loose(start, atoms, end));
  }

  lemma FoundSame(start: bool, atoms: seq<Atom>, end: bool, s: string, free: bool, loose: bool)
    requires NameOk(s)
    requires free == Free(start, atoms) && loose == Loose(start, atoms, end)
    ensures Found(atoms, s, free, loose) <==> Found(atoms, s, !start, !end)
  {
    hide AtomMatches;
    if Found(atoms, s, !start, !end) {
      var i: nat, j: nat :| i <= j <= |s| && (!start || i == 0) && (!end || j == |s|) && AtomsMatch(atoms, s, i, j);
      if atoms == [] {
        if free { assert AtomsMatch(atoms, s, |s|, |s|); }
      } else {
        var i': nat, j': nat := i, j;
        if !start && !free {
          ExtendLeft(atoms, s, i, j);
          i' := 0;
        }
        if !end && !loose {
          ExtendRight(atoms, s, i', j);
          j' := |s|;
        }
        assert AtomsMatch(atoms, s, i', j');
      }
    }
  }

  // ---------------------------------------------------------------- reading the text of an alternative

  lemma {:induction false} ScanAtoms(atoms: seq<Atom>, end: bool)
    requires AtomsOk(atoms)
    ensures ScanBody(AtomsText(atoms) + Dollar(end)) == Scanned(Emits(atoms), end)
  {
    if atoms == [] {
      assert AtomsText(atoms) + Dollar(end) == Dollar(end);
    } else {
      var rest := AtomsText(atoms[1..]) + Dollar(end);
      assert AtomsText(atoms) + Dollar(end) == AtomText(atoms[0]) + rest;
      ScanAtoms(atoms[1..], end);
      assert rest != "" ==> rest[0] != '*' && rest[0] != '+' by { AtomsTextFirst(atoms[1..], end); }
      assert AtomOk(atoms[0]);
      ScanAtom(atoms[0], rest);
    }
  }

  /** Text of terms begins with none of the characters the compiler gives a meaning of its own. */
  lemma AtomsTextFirst(atoms: seq<Atom>, end: bool)
    requires AtomsOk(atoms)
    ensures var t := AtomsText(atoms) + Dollar(end); t != "" ==> t[0] !in "*+(|^"
  {
    if atoms != [] { assert AtomOk(atoms[0]); }
  }

  lemma ScanAtom(a: Atom, rest: string)
    requires AtomOk(a) && (rest != "" ==> rest[0] != '*' && rest[0] != '+')
    ensures ScanBody(AtomText(a) + rest) == Prepend(Emit(a), ScanBody(rest))
  {
    AtomToken(a, rest);
    hide *;
    ScanUnfolds(AtomText(a) + rest);
  }

  lemma AtomToken(a: Atom, rest: string)
    requires AtomOk(a) && (rest != "" ==> rest[0] != '*' && rest[0] != '+')
    ensures var s := AtomText(a) + rest;
            s != "$" && NextToken(s) == Token(Emit(a), |AtomText(a)|) && s[|AtomText(a)|..] == rest
  {
    var s := AtomText(a) + rest;
    assert s[|AtomText(a)|..] == rest && (rest != "" ==> s[|AtomText(a)|] == rest[0]);
    if a.Lit? && !a.escaped { PlainChar(a.c); }
    hide Escapable, Unconvertible, LikeChar;
    assert s[0] == AtomText(a)[0];
  }

  lemma PlainChar(c: char)
    requires !Escapable(c) || c == ']' || c == '}'
    ensures c != '.' && c != '\\' && c != '$' && !Unconvertible(c)
  {
    assert Escapable('.') && Escapable('\\') && Escapable('$');
  }

  lemma ScanUnfolds(s: string)
    requires s != "" && s != "$" && NextToken(s).Token?
    ensures ScanBody(s) == Prepend(NextToken(s).like, ScanBody(s[NextToken(s).width..]))
  {
    hide NextToken, Prepend;
  }

  lemma BranchTextFirst(b: Branch)
    requires BranchOk(b)
    ensures BranchText(b) != "" && (BranchText(b)[0] == '^' <==> b.start)
    ensures BranchText(b)[if b.start then 1 else 0..] == AtomsText(b.atoms) + Dollar(b.end)
  {
    AtomsTextFirst(b.atoms, b.end);
  }

  lemma LikeOfBranch(b: Branch)
    requires BranchOk(b)
    ensures LikeOf(BranchText(b)) == Some(Widen(b.start, Emits(b.atoms), b.end))
  {
    hide Widen, BranchText;
    BranchTextFirst(b);
    ScanAtoms(b.atoms, b.end);
  }

  /** An alternative's LIKE pattern matches the names some stretch of which the alternative matches. */
  lemma BranchMeaning(b: Branch, s: string)
    requires BranchOk(b) && NameOk(s)
    ensures LikeOf(BranchText(b)).Some?
    ensures LikeFrom(LikeOf(BranchText(b)).value, s, 0) <==> exists i: nat, j: nat :: i <= j <= |s| && BranchMatches(b, s, i, j)
  {
    hide LikeFrom, AtomsMatch, Widen, LikeOf, BranchText;
    LikeOfBranch(b);
    WidenFinds(b.start, b.atoms, b.end, s);
    if Found(b.atoms, s, !b.start, !b.end) {
      var i: nat, j: nat :| i <= j <= |s| && (!b.start || i == 0) && (!b.end || j == |s|) && AtomsMatch(b.atoms, s, i, j);
      assert BranchMatches(b, s, i, j);
    }
  }

  // ---------------------------------------------------------------- cutting at `|`

  lemma {:induction false} SplitOver(atoms: seq<Atom>, rest: string, out: seq<string>, current: string)
    requires AtomsOk(atoms)
    ensures Split(AtomsText(atoms) + rest, out, current, 0) == Split(rest, out, current + AtomsText(atoms), 0)
  {
    if atoms == [] {
      assert AtomsText(atoms) + rest == rest && current + "" == current;
    } else {
      var more := AtomsText(atoms[1..]) + rest;
      assert AtomOk(atoms[0]);
      assert AtomsText(atoms) + rest == AtomText(atoms[0]) + more;
      SplitAtom(atoms[0], more, out, current);
      SplitOver(atoms[1..], rest, out, current + AtomText(atoms[0]));
      assert (current + AtomText(atoms[0])) + AtomsText(atoms[1..]) == current + AtomsText(atoms);
    }
  }

  lemma SplitPlain(c: char, rest: string, out: seq<string>, current: string)
    requires c !in "\\(|)"
    ensures Split([c] + rest, out, current, 0) == Split(rest, out, current + [c], 0)
  {
    assert ([c] + rest)[1..] == rest;
  }

  lemma SplitAtom(a: Atom, rest: string, out: seq<string>, current: string)
    requires AtomOk(a)
    ensures Split(AtomText(a) + rest, out, current, 0) == Split(rest, out, current + AtomText(a), 0)
  {
    var s := AtomText(a) + rest;
    match a
    case Lit(c, escaped) =>
      if escaped { assert s[2..] == rest && s[..2] == AtomText(a); } else { SplitPlain(c, rest, out, current); }
    case Any => SplitPlain('.', rest, out, current);
    case AnyStar =>
      SplitPlain('.', "*" + rest, out, current);
      SplitPlain('*', rest, out, current + ".");
      assert s == "." + ("*" + rest) && (current + ".") + "*" == current + ".*";
    case AnyPlus =>
      SplitPlain('.', "+" + rest, out, current);
      SplitPlain('+', rest, out, current + ".");
      assert s == "." + ("+" + rest) && (current + ".") + "+" == current + ".+";
  }

  lemma SplitBranch(b: Branch, rest: string, out: seq<string>)
    requires AtomsOk(b.atoms)
    ensures Split(BranchText(b) + rest, out, "", 0) == Split(rest, out, BranchText(b), 0)
  {
    hide Split, AtomsText, Caret, Dollar, AtomsOk;
    var head, text, tail := Caret(b.start), AtomsText(b.atoms), Dollar(b.end);
    assert BranchText(b) + rest == head + (text + (tail + rest)) && BranchText(b) == (head + text) + tail;
    SplitAnchor(head, text + (tail + rest), out, "");
    assert "" + head == head;
    SplitOver(b.atoms, tail + rest, out, head);
    SplitAnchor(tail, rest, out, head + text);
  }

  /** An anchor, or none. */
  lemma SplitAnchor(anchor: string, rest: string, out: seq<string>, current: string)
    requires anchor in {"", "^", "$"}
    ensures Split(anchor + rest, out, current, 0) == Split(rest, out, current + anchor, 0)
  {
    hide Split;
    if anchor == "" {
      assert "" + rest == rest && current + "" == current;
    } else {
      SplitPlain(anchor[0], rest, out, current);
      assert [anchor[0]] == anchor;
    }
  }

  /** A text of alternatives is cut back into them. */
  lemma {:induction false} SplitTexts(alts: seq<Branch>, out: seq<string>)
    requires alts != [] && forall k :: 0 <= k < |alts| ==> BranchOk(alts[k])
    ensures Split(Joined(BranchTexts(alts), "|"), out, "", 0) == (out + BranchTexts(alts), |out| + |alts| >= 2)
  {
    hide BranchText;
    var first := BranchText(alts[0]);
    BranchTextFirst(alts[0]);
    if |alts| == 1 {
      SplitBranch(alts[0], "", out);
      assert first + "" == first;
      assert out + BranchTexts(alts) == out + [first];
    } else {
      assert BranchTexts(alts)[1..] == BranchTexts(alts[1..]);
      var more := Joined(BranchTexts(alts[1..]), "|");
      assert Joined(BranchTexts(alts), "|") == first + ("|" + more);
      SplitBranch(alts[0], "|" + more, out);
      assert ("|" + more)[1..] == more;
      SplitTexts(alts[1..], out + [first]);
      assert (out + [first]) + BranchTexts(alts[1..]) == out + BranchTexts(alts);
    }
  }
}
