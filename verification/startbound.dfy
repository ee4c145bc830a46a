/** `TryParseStartDateTime`: the first `timestamp > datetime('…')` predicate in a query,
    found with the regular expression `timestamp\s*>\s*datetime\('([^']+)'\)`, whose literal
    is then read by the culture-dependent `DateTime.TryParse`. */
module StartBound {
  import opened Wrappers
  import opened Calendar

  /** `DateTime.TryParse` / `DateTime.Parse`: culture-dependent, so the model takes it as a
      parameter (None where TryParse returns false and Parse throws). */
  type DateParser = string -> Option<Ticks>

  /** The regular-expression class `\s`, that is [\f\n\r\t\v\x85\p{Z}]; it is also the set
      `char.IsWhiteSpace` tests. */
  predicate IsWhiteSpace(c: char)
  {
    || c == ' ' || ('\t' <= c <= '\r') || c == '\U{0085}' || c == '\U{00A0}' || c == '\U{1680}'
    || ('\U{2000}' <= c <= '\U{200A}') || c == '\U{2028}' || c == '\U{2029}' || c == '\U{202F}'
    || c == '\U{205F}' || c == '\U{3000}'
  }

  predicate AllWhiteSpace(w: string) { forall k :: 0 <= k < |w| ==> IsWhiteSpace(w[k]) }

  predicate NoQuote(s: string) { forall k :: 0 <= k < |s| ==> s[k] != '\'' }

  /** The text the pattern matches with the given whitespace runs and captured literal. */
  function PatternText(w1: string, w2: string, literal: string): string
  {
    "timestamp" + w1 + ">" + w2 + "datetime('" + literal + "')"
  }

  /** The pattern matches at position i, with these whitespace runs and this capture. */
  predicate MatchesWith(q: string, i: nat, w1: string, w2: string, literal: string)
  {
    && AllWhiteSpace(w1) && AllWhiteSpace(w2) && literal != [] && NoQuote(literal)
    && i + |PatternText(w1, w2, literal)| <= |q|
    && q[i..i + |PatternText(w1, w2, literal)|] == PatternText(w1, w2, literal)
  }

  /** The literal `timestamp` starts at position j. */
  predicate KeywordAt(q: string, j: int)
  {
    0 <= j && j + 9 <= |q| && q[j..j + 9] == "timestamp"
  }

  /** The end of the whitespace run starting at i (what a greedy `\s*` consumes). */
  function SkipWhiteSpace(q: string, i: nat): (j: nat)
    requires i <= |q|
    ensures i <= j <= |q| && AllWhiteSpace(q[i..j]) && (j == |q| || !IsWhiteSpace(q[j]))
    decreases |q| - i
  {
    if i < |q| && IsWhiteSpace(q[i]) then
      var j := SkipWhiteSpace(q, i + 1);
      assert q[i..j] == [q[i]] + q[i + 1..j];
      j
    else i
  }

  /** The end of the quote-free run starting at i (what a greedy `[^']+` consumes). */
  function SkipToQuote(q: string, i: nat): (j: nat)
    requires i <= |q|
    ensures i <= j <= |q| && NoQuote(q[i..j]) && (j == |q| || q[j] == '\'')
    decreases |q| - i
  {
    if i < |q| && q[i] != '\'' then
      var j := SkipToQuote(q, i + 1);
      assert q[i..j] == [q[i]] + q[i + 1..j];
      j
    else i
  }

  /** The capture of a match starting exactly at i. Giving back characters to a greedy
      quantifier never helps this pattern: each quantifier is followed by a character its
      class excludes, so the greedy attempt is the only one. */
  function MatchAt(q: string, i: nat): (r: Option<string>)
    requires i <= |q|
  {
    if !KeywordAt(q, i) then None
    else
      var a := SkipWhiteSpace(q, i + 9);
      if !(a < |q| && q[a] == '>') then None
      else
        var b := SkipWhiteSpace(q, a + 1);
        if !(b + 10 <= |q| && q[b..b + 10] == "datetime('") then None
        else
          var e := SkipToQuote(q, b + 10);
          if e == b + 10 || !(e + 2 <= |q| && q[e..e + 2] == "')") then None
          else Some(q[b + 10..e])
  }

  /** `Regex.Match`: the leftmost position at or after `start` where the pattern matches. */
  function FirstMatch(q: string, start: nat): (r: Option<(nat, string)>)
    requires start <= |q|
    ensures r.Some? ==> start <= r.value.0 <= |q| && MatchAt(q, r.value.0) == Some(r.value.1)
    ensures r.Some? ==> forall j :: start <= j < r.value.0 ==> MatchAt(q, j).None?
    ensures r.None? ==> forall j :: start <= j <= |q| ==> MatchAt(q, j).None?
    decreases |q| - start
  {
    match MatchAt(q, start)
    case Some(literal) => Some((start, literal))
    case None => if start == |q| then None else FirstMatch(q, start + 1)
  }

  /** `TryParseStartDateTime`: (true, the parsed literal of the first match), or
      (false, `DateTime.MinValue`) when nothing matches or the first literal does not parse. */
  function TryParseStartDateTime(query: string, parse: DateParser): (r: (bool, Ticks))
    ensures !r.0 ==> r.1 == 0
    ensures r.0 <==> exists i :: 0 <= i <= |query| && MatchAt(query, i).Some? && parse(MatchAt(query, i).value).Some?
                       && (forall j :: 0 <= j < i ==> MatchAt(query, j).None?)
  {
    match FirstMatch(query, 0)
    case None => (false, 0)
    case Some((_, literal)) =>
      match parse(literal)
      case Some(t) => (true, t)
      case None => (false, 0)
  }

  /** What MatchAt finds is a match of the pattern. */
  lemma MatchAtSound(q: string, i: nat)
    requires i <= |q| && MatchAt(q, i).Some?
    ensures exists w1, w2 :: MatchesWith(q, i, w1, w2, MatchAt(q, i).value)
  {
    var a := SkipWhiteSpace(q, i + 9);
    var b := SkipWhiteSpace(q, a + 1);
    var e := SkipToQuote(q, b + 10);
    assert KeywordAt(q, i) && q[a] == '>' && q[b..b + 10] == "datetime('" && e != b + 10 && q[e..e + 2] == "')";
    assert MatchAt(q, i).value == q[b + 10..e];
    PatternFromParts(q, i, a, b, e);
  }

  lemma PatternFromParts(q: string, i: nat, a: nat, b: nat, e: nat)
    requires i + 9 <= a < b + 10 < e && e + 2 <= |q| && a + 1 <= b
    requires q[i..i + 9] == "timestamp" && q[a] == '>' && q[b..b + 10] == "datetime('" && q[e..e + 2] == "')"
    requires AllWhiteSpace(q[i + 9..a]) && AllWhiteSpace(q[a + 1..b]) && NoQuote(q[b + 10..e])
    ensures MatchesWith(q, i, q[i + 9..a], q[a + 1..b], q[b + 10..e])
  {
    var w1, w2, literal := q[i + 9..a], q[a + 1..b], q[b + 10..e];
    assert q[a..a + 1] == ">";
    Join(q, i, i + 9, a);
    Join(q, i, a, a + 1);
    Join(q, i, a + 1, b);
    Join(q, i, b, b + 10);
    Join(q, i, b + 10, e);
    Join(q, i, e, e + 2);
    assert q[i..e + 2] == PatternText(w1, w2, literal);
  }

  lemma Join(q: string, x: nat, y: nat, z: nat)
    requires x <= y <= z <= |q|
    ensures q[x..z] == q[x..y] + q[y..z]
  {
  }

  lemma Split(q: string, i: nat, u: string, v: string)
    requires i + |u| + |v| <= |q| && q[i..i + |u| + |v|] == u + v
    ensures q[i..i + |u|] == u && q[i + |u|..i + |u| + |v|] == v
  {
    assert q[i..i + |u|] == (u + v)[..|u|];
    assert q[i + |u|..i + |u| + |v|] == (u + v)[|u|..];
  }

  /** Every match of the pattern at i is the one MatchAt finds: the capture is determined. */
  lemma MatchAtComplete(q: string, i: nat, w1: string, w2: string, literal: string)
    requires MatchesWith(q, i, w1, w2, literal)
    ensures MatchAt(q, i) == Some(literal)
  {
    PartsOfPattern(q, i, w1, w2, literal);
    MatchAtParts(q, i, i + 9 + |w1|, i + 10 + |w1| + |w2|, i + 20 + |w1| + |w2| + |literal|);
  }

  /** The greedy runs stop where the separators of a match are. */
  lemma MatchAtParts(q: string, i: nat, a: nat, b: nat, e: nat)
    requires i + 9 <= a && a + 1 <= b && b + 10 < e && e + 2 <= |q|
    requires KeywordAt(q, i) && AllWhiteSpace(q[i + 9..a]) && q[a] == '>' && !IsWhiteSpace(q[a])
    requires AllWhiteSpace(q[a + 1..b]) && q[b..b + 10] == "datetime('" && !IsWhiteSpace(q[b])
    requires NoQuote(q[b + 10..e]) && q[e] == '\'' && q[e..e + 2] == "')"
    ensures MatchAt(q, i) == Some(q[b + 10..e])
  {
    WhiteSpaceRun(q, i + 9, a);
    WhiteSpaceRun(q, a + 1, b);
    QuoteFreeRun(q, b + 10, e);
    MatchAtStops(q, i, a, b, e);
  }

  lemma MatchAtStops(q: string, i: nat, a: nat, b: nat, e: nat)
    requires i + 9 <= a && a + 1 <= b && b + 10 < e && e + 2 <= |q|
    requires SkipWhiteSpace(q, i + 9) == a && SkipWhiteSpace(q, a + 1) == b && SkipToQuote(q, b + 10) == e
    requires KeywordAt(q, i) && q[a] == '>' && q[b..b + 10] == "datetime('" && q[e..e + 2] == "')"
    ensures MatchAt(q, i) == Some(q[b + 10..e])
  {
  }

  lemma PartsOfPattern(q: string, i: nat, w1: string, w2: string, literal: string)
    requires MatchesWith(q, i, w1, w2, literal)
    ensures var a, b := i + 9 + |w1|, i + 10 + |w1| + |w2|;
            var e := b + 10 + |literal|;
            && KeywordAt(q, i) && q[i + 9..a] == w1 && q[a] == '>' && q[a + 1..b] == w2
            && b + 10 <= |q| && q[b..b + 10] == "datetime('" && q[b + 10..e] == literal
            && e + 2 <= |q| && q[e..e + 2] == "')"
            && !IsWhiteSpace(q[a]) && !IsWhiteSpace(q[b]) && q[e] == '\''
  {
    var a := i + 9 + |w1|;
    var b := a + 1 + |w2|;
    var e := b + 10 + |literal|;
    var p6 := "timestamp" + w1 + ">" + w2 + "datetime('" + literal;
    var p5 := "timestamp" + w1 + ">" + w2 + "datetime('";
    var p4 := "timestamp" + w1 + ">" + w2;
    var p3 := "timestamp" + w1 + ">";
    var p2 := "timestamp" + w1;
    Split(q, i, p6, "')");
    Split(q, i, p5, literal);
    Split(q, i, p4, "datetime('");
    Split(q, i, p3, w2);
    Split(q, i, p2, ">");
    Split(q, i, "timestamp", w1);
    assert q[a] == q[a..a + 1][0];
    assert q[b] == q[b..b + 10][0];
    assert q[e] == q[e..e + 2][0];
  }

  /** A greedy `\s*` from i stops exactly at j when q[i..j] is whitespace and q[j] is not. */
  lemma {:induction false} WhiteSpaceRun(q: string, i: nat, j: nat)
    requires i <= j < |q| && AllWhiteSpace(q[i..j]) && !IsWhiteSpace(q[j])
    ensures SkipWhiteSpace(q, i) == j
    decreases j - i
  {
    if i < j {
      assert IsWhiteSpace(q[i..j][0]);
      assert q[i + 1..j] == q[i..j][1..];
      WhiteSpaceRun(q, i + 1, j);
    }
  }

  /** A greedy `[^']+` from i stops exactly at j when q[i..j] has no quote and q[j] is one. */
  lemma {:induction false} QuoteFreeRun(q: string, i: nat, j: nat)
    requires i <= j < |q| && NoQuote(q[i..j]) && q[j] == '\''
    ensures SkipToQuote(q, i) == j
    decreases j - i
  {
    if i < j {
      assert q[i..j][0] != '\'';
      assert q[i + 1..j] == q[i..j][1..];
      QuoteFreeRun(q, i + 1, j);
    }
  }

  /** The start bound is the parsed literal of the leftmost predicate, whatever whitespace
      surrounds its `>`. */
  lemma StartFromFirstPredicate(q: string, i: nat, w1: string, w2: string, literal: string, parse: DateParser)
    requires MatchesWith(q, i, w1, w2, literal)
    requires forall j :: 0 <= j < i ==> MatchAt(q, j).None?
    ensures TryParseStartDateTime(q, parse)
            == if parse(literal).Some? then (true, parse(literal).value) else (false, 0)
  {
    MatchAtComplete(q, i, w1, w2, literal);
    var r := FirstMatch(q, 0);
    assert r.Some? && r.value.0 == i;
  }

  /** A query in which every `timestamp` is followed, after optional whitespace, by `>=`
      yields no start bound: `TryParseStartDateTime` returns (false, `DateTime.MinValue`). */
  lemma OnlyGreaterOrEqual(q: string, parse: DateParser)
    requires forall j :: KeywordAt(q, j) ==>
               var a := SkipWhiteSpace(q, j + 9); a + 2 <= |q| && q[a..a + 2] == ">="
    ensures TryParseStartDateTime(q, parse) == (false, 0)
  {
    forall j | 0 <= j <= |q| ensures MatchAt(q, j).None? {
      if KeywordAt(q, j) {
        GreaterOrEqualAt(q, j);
      }
    }
  }

  /** `timestamp >= datetime(...)` is not a match: after `>` and optional whitespace the
      pattern needs `datetime`, and `=` is neither. */
  lemma GreaterOrEqualAt(q: string, j: nat)
    requires KeywordAt(q, j)
    requires var a := SkipWhiteSpace(q, j + 9); a + 2 <= |q| && q[a..a + 2] == ">="
    ensures MatchAt(q, j).None?
  {
    var a := SkipWhiteSpace(q, j + 9);
    assert q[a] == q[a..a + 2][0] && q[a + 1] == q[a..a + 2][1];
    WhiteSpaceRun(q, a + 1, a + 1);
    var b := SkipWhiteSpace(q, a + 1);
    assert b == a + 1;
    assert b + 10 <= |q| ==> q[b..b + 10][0] == '=';
  }
}
