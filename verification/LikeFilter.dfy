/**
  The two log search filters: user text is escaped by three chained replacements and put into a LIKE or
  ILIKE pattern with escape character backslash.
  */
module LikeFilter {
  // ------------------------------------------------------------------ SQL LIKE

  /** LIKE ... ESCAPE '\': % is any string, _ any character, an escaped character itself. */
  predicate LikeMatch(pattern: string, s: string)
    decreases |pattern| + |s|
  {
    if pattern == [] then s == []
    else if pattern[0] == '\\' then
      |pattern| >= 2 && s != [] && s[0] == pattern[1] && LikeMatch(pattern[2..], s[1..])
    else if pattern[0] == '%' then
      LikeMatch(pattern[1..], s) || (s != [] && LikeMatch(pattern, s[1..]))
    else if pattern[0] == '_' then
      s != [] && LikeMatch(pattern[1..], s[1..])
    else
      s != [] && s[0] == pattern[0] && LikeMatch(pattern[1..], s[1..])
  }

  /** No escape character is left without a character to escape; PostgreSQL rejects such a pattern. */
  predicate WellFormed(pattern: string) {
    if pattern == [] then true
    else if pattern[0] == '\\' then |pattern| >= 2 && WellFormed(pattern[2..])
    else WellFormed(pattern[1..])
  }

  // ------------------------------------------------------------------ escaping

  /** s.replace(c, to). */
  function Replace(s: string, c: char, to: string): string {
    if s == [] then [] else (if s[0] == c then to else [s[0]]) + Replace(s[1..], c, to)
  }

  function EscapeLike(p: string): string {
    Replace(Replace(Replace(p, '\\', "\\\\"), '%', "\\%"), '_', "\\_")
  }

  function IpPrefixPattern(ip: string): string {
    EscapeLike(ip) + "%"
  }

  function SearchPattern(phrase: string): string {
    "%" + EscapeLike(phrase) + "%"
  }

  /** WHERE column LIKE pattern. */
  function Select(rows: seq<string>, pattern: string): seq<string> {
    if rows == [] then [] else (if LikeMatch(pattern, rows[0]) then [rows[0]] else []) + Select(rows[1..], pattern)
  }

  // ------------------------------------------------------------------ meaning

  predicate Special(c: char) {
    c == '\\' || c == '%' || c == '_'
  }

  /** One pass, character by character. */
  function EscapeEach(p: string): string {
    if p == [] then [] else (if Special(p[0]) then ['\\', p[0]] else [p[0]]) + EscapeEach(p[1..])
  }

  lemma {:induction false} ReplaceConcat(a: string, b: string, c: char, to: string)
    ensures Replace(a + b, c, to) == Replace(a, c, to) + Replace(b, c, to)
  {
    if a == [] {
      assert a + b == b;
    } else {
      ReplaceConcat(a[1..], b, c, to);
      assert (a + b)[1..] == a[1..] + b;
      var head := if a[0] == c then to else [a[0]];
      assert head + (Replace(a[1..], c, to) + Replace(b, c, to)) == head + Replace(a[1..], c, to) + Replace(b, c, to);
    }
  }

  lemma ReplaceTwo(x: char, y: char, c: char, to: string)
    requires x != c
    ensures Replace([x, y], c, to) == [x] + (if y == c then to else [y])
  {
    assert [x, y] == [x] + [y];
    ReplaceConcat([x], [y], c, to);
  }

  /** What the chain does to a single character. */
  lemma EscapeOne(x: char)
    ensures EscapeLike([x]) == (if Special(x) then ['\\', x] else [x])
  {
    if x == '\\' {
      ReplaceTwo('\\', '\\', '%', "\\%");
      ReplaceTwo('\\', '\\', '_', "\\_");
    } else {
      if x == '%' {
        ReplaceTwo('\\', '%', '_', "\\_");
      } else {
      }
    }
  }

  /** The three chained replacements are one per-character map: no replacement touches another's output. */
  lemma {:induction false} ChainIsPerCharacter(p: string)
    ensures EscapeLike(p) == EscapeEach(p)
  {
    if p != [] {
      var a, b := [p[0]], p[1..];
      assert p == a + b;
      ReplaceConcat(a, b, '\\', "\\\\");
      ReplaceConcat(Replace(a, '\\', "\\\\"), Replace(b, '\\', "\\\\"), '%', "\\%");
      ReplaceConcat(Replace(Replace(a, '\\', "\\\\"), '%', "\\%"), Replace(Replace(b, '\\', "\\\\"), '%', "\\%"), '_', "\\_");
      EscapeOne(p[0]);
      ChainIsPerCharacter(b);
      hide Replace;
      assert EscapeLike(p) == EscapeLike(a) + EscapeLike(b);
    }
  }

  /** Matching an escaped text followed by more pattern consumes exactly that text. */
  lemma {:induction false} EscapedConsumes(p: string, rest: string, s: string)
    ensures LikeMatch(EscapeEach(p) + rest, s) <==> p <= s && LikeMatch(rest, s[|p|..])
  {
    var pattern := EscapeEach(p) + rest;
    if p == [] {
      assert pattern == rest && s[0..] == s;
    } else {
      var tail := EscapeEach(p[1..]) + rest;
      if Special(p[0]) {
        assert pattern[0] == '\\' && pattern[1] == p[0] && pattern[2..] == tail;
      } else {
        assert pattern[0] == p[0] && pattern[1..] == tail;
      }
      if s != [] {
        EscapedConsumes(p[1..], rest, s[1..]);
        if p <= s {
          assert s[1..][|p| - 1..] == s[|p|..];
        }
      }
    }
  }

  lemma PercentMatchesAll(s: string)
    ensures LikeMatch("%", s)
    decreases |s|
  {
    if s != [] {
      PercentMatchesAll(s[1..]);
    } else {
      assert LikeMatch("%"[1..], s);
    }
  }

  lemma PercentStep(pattern: string, s: string)
    ensures LikeMatch(['%'] + pattern, s) <==>
              LikeMatch(pattern, s) || (s != [] && LikeMatch(['%'] + pattern, s[1..]))
  {
    var p := ['%'] + pattern;
    assert p[0] == '%' && p[1..] == pattern;
  }

  lemma {:induction false} LeadingPercent(pattern: string, s: string)
    ensures LikeMatch(['%'] + pattern, s) <==> exists i :: 0 <= i <= |s| && LikeMatch(pattern, s[i..])
    decreases |s|
  {
    hide LikeMatch;
    PercentStep(pattern, s);
    assert s[0..] == s;
    if s == [] {
    } else {
      var t := s[1..];
      LeadingPercent(pattern, t);
      if LikeMatch(['%'] + pattern, t) {
        var i :| 0 <= i <= |t| && LikeMatch(pattern, t[i..]);
        assert t[i..] == s[i + 1..];
      }
      if exists i :: 0 <= i <= |s| && LikeMatch(pattern, s[i..]) {
        var i :| 0 <= i <= |s| && LikeMatch(pattern, s[i..]);
        if i > 0 {
          assert t[i - 1..] == s[i..];
        }
      }
    }
  }

  ghost predicate Occurs(p: string, s: string) {
    exists i :: 0 <= i <= |s| && p <= s[i..]
  }

  /** The IP filter matches exactly the addresses that start with the given text, wildcards and all. */
  lemma IpFilterIsPrefix(ip: string, s: string)
    ensures LikeMatch(IpPrefixPattern(ip), s) <==> ip <= s
  {
    ChainIsPerCharacter(ip);
    EscapedConsumes(ip, "%", s);
    if ip <= s {
      PercentMatchesAll(s[|ip|..]);
    }
  }

  /** The phrase filter matches exactly the texts in which the phrase occurs. */
  lemma SearchFilterIsContains(phrase: string, s: string)
    ensures LikeMatch(SearchPattern(phrase), s) <==> Occurs(phrase, s)
  {
    ChainIsPerCharacter(phrase);
    var rest := EscapeEach(phrase) + "%";
    assert SearchPattern(phrase) == ['%'] + rest;
    LeadingPercent(rest, s);
    forall i | 0 <= i <= |s| ensures LikeMatch(rest, s[i..]) <==> phrase <= s[i..]
    {
      EscapedConsumes(phrase, "%", s[i..]);
      if phrase <= s[i..] {
        PercentMatchesAll(s[i..][|phrase|..]);
      }
    }
  }

  /** As a query: in table order, the rows with that prefix and no others. */
  lemma {:induction false} IpFilterSelects(rows: seq<string>, ip: string)
    ensures Select(rows, IpPrefixPattern(ip)) == WithPrefix(rows, ip)
  {
    if rows != [] {
      IpFilterIsPrefix(ip, rows[0]);
      IpFilterSelects(rows[1..], ip);
    }
  }

  function WithPrefix(rows: seq<string>, ip: string): seq<string> {
    if rows == [] then [] else (if ip <= rows[0] then [rows[0]] else []) + WithPrefix(rows[1..], ip)
  }

  // ------------------------------------------------------------------ ILIKE

  /** Case folding of a whole string. */
  function Fold(fold: char -> char, s: string): string {
    if s == [] then [] else [fold(s[0])] + Fold(fold, s[1..])
  }

  /** A folding that neither produces nor consumes pattern characters. */
  ghost predicate KeepsSpecials(fold: char -> char) {
    forall c {:trigger fold(c)} :: (Special(c) ==> fold(c) == c) && (Special(fold(c)) ==> Special(c))
  }

  function ILikeMatch(fold: char -> char, pattern: string, s: string): bool {
    LikeMatch(Fold(fold, pattern), Fold(fold, s))
  }

  lemma {:induction false} FoldConcat(fold: char -> char, a: string, b: string)
    ensures Fold(fold, a + b) == Fold(fold, a) + Fold(fold, b)
  {
    if a == [] {
      assert a + b == b;
      assert [] + Fold(fold, b) == Fold(fold, b);
    } else {
      var s := a + b;
      assert s[0] == a[0] && s[1..] == a[1..] + b;
      FoldConcat(fold, a[1..], b);
    }
  }

  lemma FoldHead(fold: char -> char, c: char)
    requires KeepsSpecials(fold)
    ensures Fold(fold, if Special(c) then ['\\', c] else [c]) == if Special(fold(c)) then ['\\', fold(c)] else [fold(c)]
  {
    assert fold('\\') == '\\';
    assert [c][1..] == [] && ['\\', c][1..] == [c];
    assert Fold(fold, [c]) == [fold(c)];
  }

  lemma {:induction false} FoldEscape(fold: char -> char, p: string)
    requires KeepsSpecials(fold)
    ensures Fold(fold, EscapeEach(p)) == EscapeEach(Fold(fold, p))
  {
    if p != [] {
      var head := if Special(p[0]) then ['\\', p[0]] else [p[0]];
      FoldHead(fold, p[0]);
      FoldConcat(fold, head, EscapeEach(p[1..]));
      FoldEscape(fold, p[1..]);
      hide KeepsSpecials;
      assert Fold(fold, p)[0] == fold(p[0]) && Fold(fold, p)[1..] == Fold(fold, p[1..]);
    }
  }

  /** The phrase filter as run: the phrase occurs in the text up to case. */
  lemma SearchFilterIsContainsUpToCase(fold: char -> char, phrase: string, s: string)
    requires KeepsSpecials(fold)
    ensures ILikeMatch(fold, SearchPattern(phrase), s) <==> Occurs(Fold(fold, phrase), Fold(fold, s))
  {
    FoldPattern(fold, phrase);
    SearchFilterIsContains(Fold(fold, phrase), Fold(fold, s));
  }

  lemma FoldPattern(fold: char -> char, phrase: string)
    requires KeepsSpecials(fold)
    ensures Fold(fold, SearchPattern(phrase)) == SearchPattern(Fold(fold, phrase))
  {
    ChainIsPerCharacter(phrase);
    ChainIsPerCharacter(Fold(fold, phrase));
    hide EscapeLike, EscapeEach;
    FoldEscape(fold, phrase);
    FoldConcat(fold, "%" + EscapeEach(phrase), "%");
    FoldConcat(fold, "%", EscapeEach(phrase));
    assert "%"[1..] == [] && Special('%');
    assert Fold(fold, "%") == "%";
  }

  // ------------------------------------------------------------------ well-formed patterns

  lemma {:induction false} EscapedIsWellFormed(p: string, rest: string)
    requires WellFormed(rest)
    ensures WellFormed(EscapeEach(p) + rest)
  {
    if p == [] {
      assert EscapeEach(p) + rest == rest;
    } else {
      EscapedIsWellFormed(p[1..], rest);
      var tail := EscapeEach(p[1..]) + rest;
      if Special(p[0]) {
        var s := ['\\', p[0]] + tail;
        assert EscapeEach(p) + rest == s && s[2..] == tail && s[0] == '\\';
      } else {
        var s := [p[0]] + tail;
        assert EscapeEach(p) + rest == s && s[1..] == tail && s[0] == p[0];
      }
    }
  }

  /** No user text can make the database reject the pattern. */
  lemma PatternsAreWellFormed(p: string)
    ensures WellFormed(IpPrefixPattern(p)) && WellFormed(SearchPattern(p))
  {
    ChainIsPerCharacter(p);
    assert "%"[1..] == [];
    EscapedIsWellFormed(p, "%");
    var rest := EscapeEach(p) + "%";
    assert SearchPattern(p) == "%" + rest;
    assert ("%" + rest)[1..] == rest;
  }
}
