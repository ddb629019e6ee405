/** The predicate as the server reads it (src/catalog/mssql_catalog_filter.cpp:261-271, 353-394): a reader of the
    SQL text, and what the text the compiler returns selects. */
module RegexSql {
  import opened Staging
  import opened RegexLike
  import opened RegexMeaning
  import opened RegexTheorem

  // ---------------------------------------------------------------- the reader

  /** The value of a T-SQL string literal, from just after its opening quote, and the text behind it. */
  function ReadLiteral(s: string, value: string): (r: Option<(string, string)>)
    ensures r.Some? ==> |r.value.1| < |s|
  {
    if s == "" then None
    else if s[0] != '\'' then ReadLiteral(s[1..], value + [s[0]])
    else if |s| > 1 && s[1] == '\'' then ReadLiteral(s[2..], value + "'")
    else Some((value, s[1..]))
  }

  /** The text behind a word. */
  function After(s: string, word: string): (r: Option<string>)
    ensures r.Some? ==> |r.value| + |word| == |s|
  {
    if |s| >= |word| && s[..|word|] == word then Some(s[|word|..]) else None
  }

  /** A literal behind some words, and the text behind it. */
  function ReadBehind(s: string, words: string): (r: Option<(string, string)>)
    ensures r.Some? ==> |r.value.1| < |s|
  {
    var rest := After(s, words);
    if rest.None? then None else ReadLiteral(rest.value, "")
  }

  /** Literals, each behind its words, with a separator between any two, up to a closing parenthesis. */
  function ReadList(s: string, words: string, separator: string, read: seq<string>): Option<seq<string>>
    decreases |s|
  {
    var next := ReadBehind(s, words);
    if next.None? then None
    else if next.value.1 == ")" then Some(read + [next.value.0])
    else
      var more := After(next.value.1, separator);
      if more.None? then None else ReadList(more.value, words, separator, read + [next.value.0])
  }

  /** A predicate on a column: one LIKE, a parenthesised list of LIKEs of which one must hold, or a list of values. */
  function ReadPredicate(s: string, column: string): Option<Predicate> {
    var like, list, group := After(s, column + " LIKE '"), After(s, column + " IN ("), After(s, "(");
    if like.Some? then
      var literal := ReadLiteral(like.value, "");
      if literal.Some? && literal.value.1 == "" then Some(Like(literal.value.0)) else None
    else if list.Some? then
      var vs := ReadList(list.value, "'", ", ", []);
      if vs.Some? then Some(In(vs.value)) else None
    else if group.Some? then
      var ps := ReadList(group.value, column + " LIKE '", " OR ", []);
      if ps.Some? then Some(Or(ps.value)) else None
    else None
  }

  /** The name is selected by a query with this text behind WHERE. */
  ghost predicate Selects(text: string, column: string, s: string) {
    var p := ReadPredicate(text, column);
    p.Some? && Satisfies(p.value, s)
  }

  // ---------------------------------------------------------------- literals

  lemma DoubledStep(v: string)
    ensures Doubled(v) == if v == "" then "" else (if v[0] == '\'' then "''" else [v[0]]) + Doubled(v[1..])
  {
  }

  /** The server reads back the value that was quoted, whatever quotes it holds, and nothing past it. */
  lemma {:induction false} LiteralsReadBack(v: string, rest: string, value: string)
    requires rest != "" ==> rest[0] != '\''
    ensures ReadLiteral(Doubled(v) + ("'" + rest), value) == Some((value + v, rest))
  {
    DoubledStep(v);
    hide Doubled;
    if v == "" {
      assert Doubled(v) + ("'" + rest) == "'" + rest && ("'" + rest)[1..] == rest && value + v == value;
    } else {
      var head, tail := if v[0] == '\'' then "''" else [v[0]], Doubled(v[1..]) + ("'" + rest);
      assert Doubled(v) + ("'" + rest) == head + tail && (head + tail)[|head|..] == tail;
      LiteralsReadBack(v[1..], rest, value + [v[0]]);
      assert (value + [v[0]]) + v[1..] == value + v;
      assert ReadLiteral(head + tail, value) == ReadLiteral(tail, value + [v[0]]);
    }
  }

  lemma AfterWord(word: string, rest: string)
    ensures After(word + rest, word) == Some(rest)
  {
  }

  /** What stands in a list: a quoted value behind its words. */
  function Quoted(words: string, v: string): string { words + (Doubled(v) + "'") }

  lemma QuotedReadsBack(words: string, v: string, rest: string)
    requires rest != "" ==> rest[0] != '\''
    ensures ReadBehind(Quoted(words, v) + rest, words) == Some((v, rest))
  {
    hide ReadLiteral, Doubled, After;
    var tail := Doubled(v) + ("'" + rest);
    assert Quoted(words, v) + rest == words + tail;
    AfterWord(words, tail);
    LiteralsReadBack(v, rest, "");
    assert "" + v == v;
  }

  // ---------------------------------------------------------------- lists

  lemma JoinedStep(parts: seq<string>, separator: string)
    requires parts != []
    ensures Joined(parts, separator) == if |parts| == 1 then parts[0] else parts[0] + separator + Joined(parts[1..], separator)
  {
  }

  lemma ReadListStep(v: string, rest: string, words: string, separator: string, read: seq<string>)
    requires rest != "" && rest[0] != '\''
    ensures ReadList(Quoted(words, v) + rest, words, separator, read)
            == if rest == ")" then Some(read + [v])
               else
                 var more := After(rest, separator);
                 if more.None? then None else ReadList(more.value, words, separator, read + [v])
  {
    hide ReadBehind, Quoted, After;
    QuotedReadsBack(words, v, rest);
  }

  lemma {:induction false} ListReadsBack(vs: seq<string>, parts: seq<string>, words: string, separator: string, read: seq<string>)
    requires vs != [] && |parts| == |vs| && forall k :: 0 <= k < |vs| ==> parts[k] == Quoted(words, vs[k])
    requires |separator| > 0 && separator[0] != '\'' && separator[0] != ')'
    ensures ReadList(Joined(parts, separator) + ")", words, separator, read) == Some(read + vs)
  {
    hide ReadList, Quoted, Joined, After;
    JoinedStep(parts, separator);
    if |vs| == 1 {
      ReadListStep(vs[0], ")", words, separator, read);
      assert [vs[0]] == vs;
    } else {
      var more := Joined(parts[1..], separator) + ")";
      assert Joined(parts, separator) + ")" == parts[0] + (separator + more);
      assert (separator + more)[0] == separator[0];
      ReadListStep(vs[0], separator + more, words, separator, read);
      AfterWord(separator, more);
      ListReadsBack(vs[1..], parts[1..], words, separator, read + [vs[0]]);
      assert (read + [vs[0]]) + vs[1..] == read + vs;
    }
  }

  // ---------------------------------------------------------------- predicates

  lemma {:induction false} Shifted(column: string, rest: string, k: nat)
    requires k <= |column| && ("(" + column + rest)[..|column|] == column
    ensures forall i :: 0 <= i < k ==> column[i] == '('
  {
    if k > 0 {
      Shifted(column, rest, k - 1);
      var t := "(" + column + rest;
      assert column[k - 1] == t[..|column|][k - 1];
      assert t[k - 1] == if k == 1 then '(' else column[k - 2];
    }
  }

  /** A parenthesis before the column is never the column with a blank behind it. */
  lemma GroupIsNoColumn(column: string, rest: string, word: string)
    requires word != "" && word[0] == ' '
    ensures After("(" + column + rest, column + word) == None
  {
    var t, words := "(" + column + rest, column + word;
    assert words[|column|] == ' ' && words[..|column|] == column;
    if |t| >= |words| {
      assert t[..|words|][..|column|] == t[..|column|] && t[..|words|][|column|] == t[|column|];
      if t[..|column|] == column {
        Shifted(column, rest, |column|);
        assert t[|column|] == '(';
      }
    }
  }

  lemma OtherWord(column: string, rest: string)
    ensures After(column + " IN (" + rest, column + " LIKE '") == None
  {
    var t, words := column + " IN (" + rest, column + " LIKE '";
    assert t[|column| + 1] == 'I' && words[|column| + 1] == 'L';
    if |t| >= |words| { assert t[..|words|][|column| + 1] == t[|column| + 1]; }
  }

  lemma TextParts(column: string, ps: seq<string>)
    ensures |Texts(column, ps)| == |ps|
    ensures forall k :: 0 <= k < |ps| ==> Texts(column, ps)[k] == Quoted(column + " LIKE '", ps[k])
  {
    forall k | 0 <= k < |ps| ensures Texts(column, ps)[k] == Quoted(column + " LIKE '", ps[k]) {
      assert LikeText(column, ps[k]) == Quoted(column + " LIKE '", ps[k]);
    }
  }

  lemma LikeReadsBack(column: string, p: string)
    ensures ReadPredicate(LikeText(column, p), column) == Some(Like(p))
  {
    hide ReadLiteral, ReadList, Doubled;
    var words := column + " LIKE '";
    var tail := Doubled(p) + ("'" + "");
    assert LikeText(column, p) == words + tail;
    AfterWord(words, tail);
    LiteralsReadBack(p, "", "");
    assert "" + p == p;
  }

  lemma InReadsBack(column: string, vs: seq<string>)
    requires vs != []
    ensures ReadPredicate(Render(column, Some(In(vs))), column) == Some(In(vs))
  {
    hide ReadLiteral, ReadList, Joined, Doubled, After;
    var parts := Quotes(vs);
    var rest := Joined(parts, ", ") + ")";
    assert Render(column, Some(In(vs))) == column + " IN (" + rest;
    OtherWord(column, rest);
    AfterWord(column + " IN (", rest);
    ListReadsBack(vs, parts, "'", ", ", []);
    assert [] + vs == vs;
  }

  lemma OrStartsWithColumn(column: string, ps: seq<string>) returns (rest: string)
    requires ps != []
    ensures Joined(Texts(column, ps), " OR ") == column + rest
  {
    var parts, tail := Texts(column, ps), " LIKE '" + Doubled(ps[0]) + "'";
    assert parts[0] == column + tail;
    JoinedStep(parts, " OR ");
    hide Joined, Doubled, Texts;
    rest := if |parts| == 1 then tail else tail + " OR " + Joined(parts[1..], " OR ");
  }

  lemma OrReadsBack(column: string, ps: seq<string>)
    requires ps != []
    ensures ReadPredicate(Render(column, Some(Or(ps))), column) == Some(Or(ps))
  {
    hide ReadLiteral, ReadList, Joined, Doubled, After, Texts;
    var parts := Texts(column, ps);
    var list := Joined(parts, " OR ") + ")";
    assert Render(column, Some(Or(ps))) == "(" + list;
    var rest := OrStartsWithColumn(column, ps);
    assert "(" + list == "(" + column + (rest + ")");
    GroupIsNoColumn(column, rest + ")", " LIKE '");
    GroupIsNoColumn(column, rest + ")", " IN (");
    AfterWord("(", list);
    TextParts(column, ps);
    ListReadsBack(ps, parts, column + " LIKE '", " OR ", []);
    assert [] + ps == ps;
  }

  /** A predicate whose lists hold something. */
  predicate Filled(p: Predicate) { (p.Or? ==> p.ps != []) && (p.In? ==> p.vs != []) }

  lemma LikeAllCount(start: bool, alts: seq<string>, end: bool)
    ensures LikeAll(start, alts, end).Some? ==> |LikeAll(start, alts, end).value| == |alts|
  {
    hide LikeOf, Anchored;
  }

  /** The compiler writes no empty list. */
  lemma ConvertedIsFilled(t: string)
    ensures Convert(t).Some? ==> Filled(Convert(t).value)
  {
    hide AlternativesOf, LikeOf, LikeAll, PlainLiteral, Exact, Inner;
    if t != "" {
      var a := AlternativesOf(t);
      LikeAllCount(a.start, a.alts, a.end);
    }
  }

  /** Every predicate the compiler writes is read back from its text: the kind of its list, each pattern or value,
      and their order. */
  lemma PredicateReadsBack(column: string, p: Predicate)
    requires Filled(p)
    ensures ReadPredicate(Render(column, Some(p)), column) == Some(p)
  {
    match p
    case Like(like) => LikeReadsBack(column, like);
    case Or(ps) => OrReadsBack(column, ps);
    case In(vs) => InReadsBack(column, vs);
  }

  lemma NothingToRead(column: string)
    ensures ReadPredicate("", column) == None
  {
  }

  lemma TextReadsBack(column: string, t: string)
    ensures ReadPredicate(Render(column, Convert(t)), column) == Convert(t)
    ensures Render(column, Convert(t)) == "" <==> Convert(t) == None
  {
    hide ReadPredicate, Convert, Filled;
    ConvertedIsFilled(t);
    NothingToRead(column);
    if Convert(t).Some? { PredicateReadsBack(column, Convert(t).value); }
  }

  // ---------------------------------------------------------------- the compiler

  method InList(column: string, values: seq<string>) returns (r: string)
    ensures r == Render(column, Some(In(values)))
  {
    var quotes: seq<string> := [];
    for j := 0 to |values|
      invariant |quotes| == j && forall k :: 0 <= k < j ==> quotes[k] == "'" + Doubled(values[k]) + "'"
    {
      var escaped := EscapeSQLLiteral(values[j]);
      quotes := quotes + ["'" + escaped + "'"];
    }
    assert quotes == Quotes(values);
    var list := JoinAll(quotes, ", ");
    r := column + " IN (" + list + ")";
  }

  method WritePredicate(pattern: string, column: string) returns (r: string)
    ensures r == Render(column, Convert(pattern))
  {
    hide AlternativesOf, LikeOf, LikeAll, PlainLiteral, Exact, Inners, Texts, Quotes, Joined, Doubled;
    if pattern == "" { return ""; }
    var start, alts, end := FindAlternatives(pattern);
    if |alts| >= 2 {
      var exact, values := ExactValues(start, alts, end);
      if exact {
        r := InList(column, values);
        return;
      }
      var ok, parts := ConvertAll(start, alts, end, column);
      if !ok { return ""; }
      var list := JoinAll(parts, " OR ");
      return "(" + list + ")";
    }
    r := ConvertSinglePatternToLike(pattern, column);
  }

  /** The text returned is read as the converted predicate, and none is returned when there is none. For a faithful
      pattern it selects the names the search finds. */
  method TryRegexToSQLLike(pattern: string, column: string) returns (r: string)
    ensures ReadPredicate(r, column) == Convert(pattern)
    ensures r == "" <==> Convert(pattern) == None
    ensures forall x: Regex, s: string ::
              pattern == RegexText(x) && RegexOk(x) && NameOk(s) && Faithful(x) && Comparable(x, s) ==>
                (Selects(r, column, s) <==> Search(x, s))
  {
    hide *;
    r := WritePredicate(pattern, column);
    TextReadsBack(column, pattern);
    forall x: Regex, s: string
      | pattern == RegexText(x) && RegexOk(x) && NameOk(s) && Faithful(x) && Comparable(x, s)
      ensures Selects(r, column, s) <==> Search(x, s)
    {
      TextMeansSearch(x, column, s);
    }
  }

  /** For every faithful pattern of the fragment, a query with the text the compiler writes selects exactly the names
      in which the search finds the pattern. */
  lemma TextMeansSearch(r: Regex, column: string, s: string)
    requires RegexOk(r) && NameOk(s) && Faithful(r) && Comparable(r, s)
    ensures Selects(Render(column, Convert(RegexText(r))), column, s) <==> Search(r, s)
  {
    hide *;
    TextReadsBack(column, RegexText(r));
    ConvertedMeansSearch(r, s);
    SelectsIs(Render(column, Convert(RegexText(r))), column, s);
  }

  lemma SelectsIs(text: string, column: string, s: string)
    ensures Selects(text, column, s) <==>
            ReadPredicate(text, column).Some? && Satisfies(ReadPredicate(text, column).value, s)
  {
  }
}
