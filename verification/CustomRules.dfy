/**
  Custom ModSecurity rules: splitting a rule text into statements (comments and blank lines skipped,
  backslash continuations joined) and rendering the enabled rules of a site, indented, as one text.
  */
module CustomRules {
  import opened Wrappers
  import opened PyText

  datatype Rule = Rule(text: string, enabled: bool)

  const INDENT := "        "

  // ------------------------------------------------------------------ lines

  function LineLength(s: string): (n: nat)
    ensures n <= |s| && (n < |s| ==> IsBreak(s[n]))
    ensures forall i :: 0 <= i < n ==> !IsBreak(s[i])
  {
    if s == [] || IsBreak(s[0]) then 0 else 1 + LineLength(s[1..])
  }

  /** str.splitlines(): CR LF is one break, and a final break starts no line. */
  function SplitLines(s: string): seq<string>
    decreases |s|
  {
    if s == [] then []
    else
      var n := LineLength(s);
      if n == |s| then [s]
      else if s[n] == '\r' && n + 1 < |s| && s[n + 1] == '\n' then [s[..n]] + SplitLines(s[n + 2..])
      else [s[..n]] + SplitLines(s[n + 1..])
  }

  /** Stripped lines that are neither blank nor comments. */
  function Significant(lines: seq<string>): seq<string> {
    if lines == [] then []
    else
      var line := Strip(lines[0]);
      (if line == [] || line[0] == '#' then [] else [line]) + Significant(lines[1..])
  }

  // ------------------------------------------------------------------ statements

  predicate Continued(line: string) {
    line != [] && line[|line| - 1] == '\\'
  }

  function Part(line: string): string {
    if Continued(line) then RStrip(line[..|line| - 1]) else line
  }

  function Statement(parts: seq<string>): string {
    Strip(Join(" ", parts))
  }

  /** Statements of significant lines, the parts in `current` being already open. */
  function Group(lines: seq<string>, current: seq<string>): seq<string>
    decreases lines
  {
    if lines == [] then (if current == [] then [] else [Statement(current)])
    else
      var open := current + [Part(lines[0])];
      if Continued(lines[0]) then Group(lines[1..], open)
      else [Statement(open)] + Group(lines[1..], [])
  }

  function Statements(text: string): seq<string> {
    Group(Significant(SplitLines(text)), [])
  }

  // ------------------------------------------------------------------ rendering

  function RenderedLines(lines: seq<string>): seq<string> {
    if lines == [] then []
    else (if Strip(lines[0]) == [] then [] else [INDENT + lines[0]]) + RenderedLines(lines[1..])
  }

  function RenderedRules(rules: seq<Rule>): seq<string> {
    if rules == [] then []
    else (if rules[0].enabled then RenderedLines(SplitLines(rules[0].text)) else []) + RenderedRules(rules[1..])
  }

  function Render(rules: seq<Rule>): string {
    Join("\n", RenderedRules(rules))
  }

  // ------------------------------------------------------------------ the meaning to preserve

  /** Each enabled rule's own statements, one rule after the other. */
  function OwnStatements(rules: seq<Rule>): seq<string> {
    if rules == [] then []
    else (if rules[0].enabled then Statements(rules[0].text) else []) + OwnStatements(rules[1..])
  }

  function SignificantOf(rules: seq<Rule>): seq<string> {
    if rules == [] then []
    else (if rules[0].enabled then Significant(SplitLines(rules[0].text)) else []) + SignificantOf(rules[1..])
  }

  predicate Dangling(lines: seq<string>) {
    lines != [] && Continued(lines[|lines| - 1])
  }

  /** No enabled rule whose last significant line ends in a backslash has an enabled, non-empty rule after it. */
  predicate NoneRunsOn(rules: seq<Rule>) {
    rules == [] ||
    (&& NoneRunsOn(rules[1..])
     && (rules[0].enabled && Dangling(Significant(SplitLines(rules[0].text))) ==> SignificantOf(rules[1..]) == []))
  }

  // ------------------------------------------------------------------ lines of a rendered text

  predicate Unbroken(s: string) {
    forall i :: 0 <= i < |s| ==> !IsBreak(s[i])
  }

  lemma {:induction false} LinesAreUnbroken(s: string)
    ensures forall i :: 0 <= i < |SplitLines(s)| ==> Unbroken(SplitLines(s)[i])
    decreases |s|
  {
    if s != [] {
      var n := LineLength(s);
      if n < |s| {
        LinesAreUnbroken(s[n + 1..]);
        if s[n] == '\r' && n + 1 < |s| && s[n + 1] == '\n' {
          LinesAreUnbroken(s[n + 2..]);
        }
      }
    }
  }

  lemma {:induction false} LineLengthIs(line: string, rest: string)
    requires Unbroken(line) && (rest != [] ==> IsBreak(rest[0]))
    ensures LineLength(line + rest) == |line|
  {
    if line == [] {
      assert line + rest == rest;
    } else {
      assert (line + rest)[0] == line[0] && (line + rest)[1..] == line[1..] + rest;
      LineLengthIs(line[1..], rest);
    }
  }

  ghost predicate RealLines(lines: seq<string>) {
    forall i :: 0 <= i < |lines| ==> lines[i] != [] && Unbroken(lines[i])
  }

  lemma SplitFirst(line: string, rest: string)
    requires line != [] && Unbroken(line)
    ensures SplitLines(line + "\n" + rest) == [line] + SplitLines(rest)
    ensures SplitLines(line) == [line]
  {
    var tail := "\n" + rest;
    assert line + "\n" + rest == line + tail;
    LineLengthIs(line, tail);
    var s := line + tail;
    assert s[..|line|] == line && s[|line|] == '\n' && s[|line| + 1..] == rest;
    LineLengthIs(line, []);
    assert line + [] == line;
  }

  /** CR LF is one line break, and every other break character is one of its own. */
  lemma BreaksOnce(line: string, rest: string, c: char)
    requires Unbroken(line) && IsBreak(c)
    ensures SplitLines(line + "\r\n" + rest) == [line] + SplitLines(rest)
    ensures c != '\r' ==> SplitLines(line + [c] + rest) == [line] + SplitLines(rest)
  {
    var crlf, one := "\r\n" + rest, [c] + rest;
    LineLengthIs(line, crlf);
    LineLengthIs(line, one);
    assert line + "\r\n" + rest == line + crlf && line + [c] + rest == line + one;
    var s, t := line + crlf, line + one;
    assert s[..|line|] == line && s[|line|] == '\r' && s[|line| + 1] == '\n' && s[|line| + 2..] == rest;
    assert t[..|line|] == line && t[|line|] == c && t[|line| + 1..] == rest;
  }

  /** Splitting undoes joining with newlines. */
  lemma {:induction false} SplitOfJoin(lines: seq<string>)
    requires RealLines(lines)
    ensures SplitLines(Join("\n", lines)) == lines
  {
    hide SplitLines;
    if lines == [] {
      NoLines();
    } else {
      SplitFirst(lines[0], Join("\n", lines[1..]));
      if |lines| > 1 {
        SplitOfJoin(lines[1..]);
      }
      assert lines == [lines[0]] + lines[1..];
    }
  }

  lemma NoLines()
    ensures SplitLines([]) == []
  {
  }

  lemma {:induction false} RenderedLinesAreReal(lines: seq<string>)
    requires forall i :: 0 <= i < |lines| ==> Unbroken(lines[i])
    ensures RealLines(RenderedLines(lines))
  {
    if lines != [] {
      RenderedLinesAreReal(lines[1..]);
    }
  }

  lemma {:induction false} RenderedRulesAreReal(rules: seq<Rule>)
    ensures RealLines(RenderedRules(rules))
  {
    if rules != [] {
      RenderedRulesAreReal(rules[1..]);
      LinesAreUnbroken(rules[0].text);
      RenderedLinesAreReal(SplitLines(rules[0].text));
    }
  }

  lemma {:induction false} SignificantConcat(a: seq<string>, b: seq<string>)
    ensures Significant(a + b) == Significant(a) + Significant(b)
  {
    if a == [] {
      assert a + b == b;
    } else {
      assert (a + b)[0] == a[0] && (a + b)[1..] == a[1..] + b;
      SignificantConcat(a[1..], b);
    }
  }

  lemma IndentStrips(line: string)
    ensures Strip(INDENT + line) == Strip(line)
  {
    LStripPrefix(INDENT, line);
  }

  /** Indenting lines and dropping blank ones leaves the significant lines alone. */
  lemma {:induction false} RenderingKeepsLines(lines: seq<string>)
    ensures Significant(RenderedLines(lines)) == Significant(lines)
  {
    if lines != [] {
      RenderingKeepsLines(lines[1..]);
      IndentStrips(lines[0]);
      hide Strip;
      var r := RenderedLines(lines[1..]);
      if Strip(lines[0]) == [] {
        assert [] + r == r && [] + Significant(lines[1..]) == Significant(lines[1..]);
      } else {
        var s := [INDENT + lines[0]] + r;
        assert s[0] == INDENT + lines[0] && s[1..] == r;
      }
    }
  }

  lemma {:induction false} RulesKeepLines(rules: seq<Rule>)
    ensures Significant(RenderedRules(rules)) == SignificantOf(rules)
  {
    if rules != [] {
      RulesKeepLines(rules[1..]);
      var lines := SplitLines(rules[0].text);
      RenderingKeepsLines(lines);
      SignificantConcat(if rules[0].enabled then RenderedLines(lines) else [], RenderedRules(rules[1..]));
    }
  }

  /** The significant lines of the rendered text are those of the enabled rules, in order. */
  lemma RenderedSignificant(rules: seq<Rule>)
    ensures Significant(SplitLines(Render(rules))) == SignificantOf(rules)
  {
    RenderedRulesAreReal(rules);
    SplitOfJoin(RenderedRules(rules));
    RulesKeepLines(rules);
  }

  // ------------------------------------------------------------------ grouping

  /** Without a dangling continuation the statements of two texts are simply put one after the other. */
  lemma {:induction false} GroupConcat(a: seq<string>, b: seq<string>, current: seq<string>)
    requires !Dangling(a) && (a == [] ==> current == [])
    ensures Group(a + b, current) == Group(a, current) + Group(b, [])
    decreases a
  {
    hide Part, Statement;
    if a == [] {
      assert a + b == b;
    } else {
      var s := a + b;
      assert s[0] == a[0] && s[1..] == a[1..] + b;
      assert |a| > 1 ==> a[1..][|a| - 2] == a[|a| - 1];
      if Continued(a[0]) {
        GroupConcat(a[1..], b, current + [Part(a[0])]);
      } else {
        GroupConcat(a[1..], b, []);
      }
    }
  }

  /** A dangling continuation swallows the first statement of what follows: one statement fewer. */
  lemma {:induction false} GroupRunsOn(a: seq<string>, b: seq<string>, current: seq<string>)
    requires a != [] && Dangling(a) && b != []
    ensures |Group(a + b, current)| == |Group(a, current)| + |Group(b, [])| - 1
    decreases a
  {
    hide Part, Statement, Continued;
    var s := a + b;
    assert s[0] == a[0] && s[1..] == a[1..] + b;
    if |a| == 1 {
      assert s[1..] == b;
      GroupCount(b, current + [Part(a[0])], []);
      assert a[1..] == [];
    } else {
      assert a[1..][|a| - 2] == a[|a| - 1];
      if Continued(a[0]) {
        GroupRunsOn(a[1..], b, current + [Part(a[0])]);
      } else {
        GroupRunsOn(a[1..], b, []);
      }
    }
  }

  /** How many statements a non-empty text has does not depend on parts already open. */
  lemma {:induction false} GroupCount(b: seq<string>, current: seq<string>, other: seq<string>)
    requires b != []
    ensures |Group(b, current)| == |Group(b, other)|
    decreases b
  {
    if |b| > 1 && Continued(b[0]) {
      GroupCount(b[1..], current + [Part(b[0])], other + [Part(b[0])]);
    } else {
      assert |b| == 1 ==> b[1..] == [];
    }
  }

  lemma {:induction false} StatementsOfRules(rules: seq<Rule>)
    ensures |Group(SignificantOf(rules), [])| <= |OwnStatements(rules)|
    ensures Group(SignificantOf(rules), []) == OwnStatements(rules) <==> NoneRunsOn(rules)
    ensures !NoneRunsOn(rules) ==> |Group(SignificantOf(rules), [])| < |OwnStatements(rules)|
  {
    if rules != [] {
      var rest := SignificantOf(rules[1..]);
      StatementsOfRules(rules[1..]);
      hide Group, Significant, SplitLines, Dangling;
      if rules[0].enabled {
        var own := Significant(SplitLines(rules[0].text));
        if Dangling(own) && rest != [] {
          GroupRunsOn(own, rest, []);
        } else if !Dangling(own) {
          GroupConcat(own, rest, []);
          SamePrefix(Group(own, []), Group(rest, []), OwnStatements(rules[1..]));
        } else {
          assert own + rest == own;
          NoStatements(rules[1..]);
        }
      } else {
        assert [] + rest == rest && [] + OwnStatements(rules[1..]) == OwnStatements(rules[1..]);
      }
    }
  }

  lemma SamePrefix(a: seq<string>, x: seq<string>, y: seq<string>)
    ensures a + x == a + y <==> x == y
  {
    if a + x == a + y {
      assert x == (a + x)[|a|..] && y == (a + y)[|a|..];
    }
  }

  lemma {:induction false} NoStatements(rules: seq<Rule>)
    requires SignificantOf(rules) == []
    ensures OwnStatements(rules) == [] && NoneRunsOn(rules)
  {
    if rules != [] {
      NoStatements(rules[1..]);
    }
  }

  /**
    Parsing the rendered text gives the enabled rules' own statements exactly when no rule that ends in a
    backslash is followed by another enabled rule with content.
    */
  lemma RenderingPreservesStatementsIff(rules: seq<Rule>)
    ensures Statements(Render(rules)) == OwnStatements(rules) <==> NoneRunsOn(rules)
  {
    RenderedSignificant(rules);
    StatementsOfRules(rules);
  }

  // ------------------------------------------------------------------ writing statements down

  /** A piece of a statement as it may stand on a line of its own. */
  predicate IsPiece(b: string) {
    b != [] && Unbroken(b) && !IsSpace(b[0]) && !IsSpace(b[|b| - 1]) && b[0] != '#' && b[|b| - 1] != '\\'
  }

  ghost predicate ArePieces(pieces: seq<string>) {
    pieces != [] && forall i :: 0 <= i < |pieces| ==> IsPiece(pieces[i])
  }

  /** White space within a line. */
  predicate IsGap(gap: string) {
    AllSpaces(gap) && Unbroken(gap)
  }

  /** The lines of one statement: every piece but the last goes on with white space, perhaps none, and a backslash. */
  function Written(pieces: seq<string>, gap: string): seq<string> {
    if pieces == [] then []
    else [if |pieces| == 1 then pieces[0] else pieces[0] + (gap + "\\")] + Written(pieces[1..], gap)
  }

  function AllWritten(statements: seq<seq<string>>, gap: string): seq<string> {
    if statements == [] then [] else Written(statements[0], gap) + AllWritten(statements[1..], gap)
  }

  function AllJoined(statements: seq<seq<string>>): seq<string> {
    if statements == [] then [] else [Join(" ", statements[0])] + AllJoined(statements[1..])
  }

  lemma LineOfPiece(b: string, gap: string)
    requires IsPiece(b) && IsGap(gap)
    ensures var line := b + (gap + "\\");
            && !Continued(b) && Part(b) == b && Continued(line) && Part(line) == b
            && Strip(b) == b && Strip(line) == line && line[0] == b[0] && Unbroken(line)
  {
    var line := b + (gap + "\\");
    assert line[..|line| - 1] == b + gap && line[|line| - 1] == '\\';
    RStripKeeps(b, gap);
    RStripSpaces(gap);
    assert b + [] == b;
  }

  lemma {:induction false} JoinEnds(pieces: seq<string>)
    requires ArePieces(pieces)
    ensures var s := Join(" ", pieces); s != [] && !IsSpace(s[0]) && !IsSpace(s[|s| - 1])
  {
    if |pieces| > 1 {
      JoinEnds(pieces[1..]);
    }
  }

  lemma StatementIs(pieces: seq<string>)
    requires ArePieces(pieces)
    ensures Statement(pieces) == Join(" ", pieces)
  {
    JoinEnds(pieces);
  }

  lemma {:induction false} GroupWritten(current: seq<string>, pieces: seq<string>, gap: string, rest: seq<string>)
    requires ArePieces(pieces) && IsGap(gap)
    ensures Group(Written(pieces, gap) + rest, current) == [Statement(current + pieces)] + Group(rest, [])
    decreases pieces
  {
    hide *;
    PiecesStep(pieces);
    WrittenStep(pieces, gap);
    LineOfPiece(pieces[0], gap);
    var line := if |pieces| == 1 then pieces[0] else pieces[0] + (gap + "\\");
    var open := current + [pieces[0]];
    GroupStep(line, Written(pieces[1..], gap) + rest, current);
    Assoc([line], Written(pieces[1..], gap), rest);
    if |pieces| == 1 {
      assert pieces[1..] == [] && Written(pieces[1..], gap) + rest == rest;
      assert open == current + pieces;
    } else {
      GroupWritten(open, pieces[1..], gap, rest);
      assert open + pieces[1..] == current + pieces;
    }
  }

  lemma PiecesStep(pieces: seq<string>)
    requires ArePieces(pieces)
    ensures pieces != [] && IsPiece(pieces[0]) && (|pieces| > 1 ==> ArePieces(pieces[1..]))
  {
  }

  lemma WrittenStep(pieces: seq<string>, gap: string)
    requires ArePieces(pieces)
    ensures Written([], gap) == []
    ensures Written(pieces, gap) == [if |pieces| == 1 then pieces[0] else pieces[0] + (gap + "\\")] + Written(pieces[1..], gap)
  {
  }

  lemma GroupStep(line: string, lines: seq<string>, current: seq<string>)
    ensures Group([line] + lines, current)
         == if Continued(line) then Group(lines, current + [Part(line)])
            else [Statement(current + [Part(line)])] + Group(lines, [])
  {
    hide Part, Continued, Statement;
    assert ([line] + lines)[1..] == lines;
  }

  lemma {:induction false} GroupAllWritten(statements: seq<seq<string>>, gap: string)
    requires IsGap(gap)
    requires forall i :: 0 <= i < |statements| ==> ArePieces(statements[i])
    ensures Group(AllWritten(statements, gap), []) == AllJoined(statements)
  {
    if statements != [] {
      hide Group, Statement;
      GroupWritten([], statements[0], gap, AllWritten(statements[1..], gap));
      assert [] + statements[0] == statements[0];
      StatementIs(statements[0]);
      GroupAllWritten(statements[1..], gap);
    } else {
      assert Group([], []) == [];
    }
  }

  ghost predicate Plain(lines: seq<string>) {
    forall i :: 0 <= i < |lines| ==> lines[i] != [] && Unbroken(lines[i]) && Strip(lines[i]) == lines[i] && lines[i][0] != '#'
  }

  lemma {:induction false} WrittenArePlain(pieces: seq<string>, gap: string)
    requires IsGap(gap)
    requires forall i :: 0 <= i < |pieces| ==> IsPiece(pieces[i])
    ensures Plain(Written(pieces, gap))
  {
    if pieces != [] {
      WrittenArePlain(pieces[1..], gap);
      LineOfPiece(pieces[0], gap);
      hide Strip, IsSpace, IsGap;
    }
  }

  lemma {:induction false} AllWrittenArePlain(statements: seq<seq<string>>, gap: string)
    requires IsGap(gap)
    requires forall i :: 0 <= i < |statements| ==> ArePieces(statements[i])
    ensures Plain(AllWritten(statements, gap))
  {
    if statements != [] {
      AllWrittenArePlain(statements[1..], gap);
      WrittenArePlain(statements[0], gap);
      hide Strip, IsPiece, Unbroken, IsGap;
    }
  }

  lemma {:induction false} PlainIsSignificant(lines: seq<string>)
    requires Plain(lines)
    ensures Significant(lines) == lines
  {
    hide Strip;
    if lines != [] {
      PlainIsSignificant(lines[1..]);
      assert lines == [lines[0]] + lines[1..];
    }
  }

  /**
    Round trip: statements of any number of pieces, written with white space and a backslash at the end of every line
    that goes on, read back as the pieces joined by single spaces, one statement each, in order.
    */
  lemma WrittenReadsBack(statements: seq<seq<string>>, gap: string)
    requires IsGap(gap)
    requires forall i :: 0 <= i < |statements| ==> ArePieces(statements[i])
    ensures Statements(Join("\n", AllWritten(statements, gap))) == AllJoined(statements)
  {
    AllWrittenArePlain(statements, gap);
    SplitOfJoin(AllWritten(statements, gap));
    PlainIsSignificant(AllWritten(statements, gap));
    GroupAllWritten(statements, gap);
  }

  /** Which lines count: those that are neither blank nor comments, stripped. */
  lemma {:induction false} LinesThatCount(a: seq<string>, line: string, b: seq<string>)
    ensures Significant(a + [line] + b)
         == Significant(a) + (if Strip(line) == "" || Strip(line)[0] == '#' then [] else [Strip(line)]) + Significant(b)
  {
    SignificantConcat(a + [line], b);
    SignificantConcat(a, [line]);
    hide Strip;
    assert [line][1..] == [] && Significant([]) == [];
    assert Significant([line]) == if Strip(line) == "" || Strip(line)[0] == '#' then [] else [Strip(line)];
  }

  /** The lines of the rendered text: those of the enabled rules that are not blank, behind eight spaces, in order. */
  lemma RenderedRuleByRule(rule: Rule, rest: seq<Rule>)
    ensures SplitLines(Render([])) == []
    ensures SplitLines(Render([rule] + rest))
         == (if rule.enabled then RenderedLines(SplitLines(rule.text)) else []) + SplitLines(Render(rest))
    ensures forall line: string, lines: seq<string> {:trigger RenderedLines([line] + lines)} ::
              RenderedLines([line] + lines) == (if Strip(line) == "" then [] else ["        " + line]) + RenderedLines(lines)
  {
    RenderedRulesAreReal([rule] + rest);
    RenderedRulesAreReal(rest);
    SplitOfJoin(RenderedRules([rule] + rest));
    SplitOfJoin(RenderedRules(rest));
    NoLines();
    hide SplitLines, Strip;
    assert ([rule] + rest)[1..] == rest;
    forall line: string, lines: seq<string>
      ensures RenderedLines([line] + lines) == (if Strip(line) == "" then [] else ["        " + line]) + RenderedLines(lines)
    {
      assert ([line] + lines)[1..] == lines;
    }
  }

  // ------------------------------------------------------------------ the loops

  /** _statements: a growing buffer, emitted and reset at every line that does not continue. */
  method ParseStatements(ruleText: string) returns (statements: seq<string>)
    ensures statements == Statements(ruleText)
  {
    statements := [];
    var current: seq<string> := [];
    var lines := SplitLines(ruleText);
    var i := 0;
    while i < |lines|
      invariant i <= |lines|
      invariant statements + Group(Significant(lines[i..]), current) == Statements(ruleText)
    {
      assert lines[i..][0] == lines[i] && lines[i..][1..] == lines[i + 1..];
      var line := Strip(lines[i]);
      i := i + 1;
      if line == [] || line[0] == '#' {
        assert [] + Significant(lines[i..]) == Significant(lines[i..]);
        continue;
      }
      var more := Significant(lines[i..]);
      assert ([line] + more)[0] == line && ([line] + more)[1..] == more;
      current := current + [Part(line)];
      if !Continued(line) {
        statements := statements + [Statement(current)];
        current := [];
      }
    }
    if current != [] {
      statements := statements + [Statement(current)];
    }
  }

  /** _render_custom_rules: extend a list of lines rule by rule, then join. */
  method RenderCustomRules(rules: seq<Rule>) returns (text: string)
    ensures text == Render(rules)
  {
    hide SplitLines, RenderedLines, Join;
    var lines: seq<string> := [];
    var i := 0;
    while i < |rules|
      invariant i <= |rules|
      invariant lines + RenderedRules(rules[i..]) == RenderedRules(rules)
    {
      assert rules[i..][0] == rules[i] && rules[i..][1..] == rules[i + 1..];
      ghost var more := RenderedRules(rules[i + 1..]);
      if rules[i].enabled {
        var own := RenderedLines(SplitLines(rules[i].text));
        lines := lines + own;
      } else {
        assert [] + more == more;
      }
      i := i + 1;
    }
    assert rules[i..] == [] && lines + [] == lines;
    text := Join("\n", lines);
  }
}
