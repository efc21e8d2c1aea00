/**
  The checks a custom rule passes before it is stored. Case folding and the word characters of the regular
  expressions are those of ASCII.
  */
module RuleValidation {
  import opened Wrappers
  import opened PyText
  import opened Decimal
  import opened CustomRules

  const MAX_NAME := 160
  const MAX_RULE_TEXT := 6000
  const ID_MIN := 1_000_000
  const ID_MAX := 1_999_999
  const DISALLOWED: seq<string> := ["include", "exec:", "lua:"]

  datatype Error =
    | NameMissing | NameTooLong | RuleMissing | RuleTooLong | SingleQuotes | Disallowed(token: string) | CtlAction
    | NoStatements | NotARule(line: nat) | OddDoubleQuotes(line: nat) | OddSingleQuotes(line: nat)
    | NoId(line: nat) | IdOutOfRange(line: nat, id: nat) | DuplicateIds

  // ------------------------------------------------------------------ text

  function LowerChar(c: char): char {
    if 'A' <= c <= 'Z' then c - 'A' + 'a' else c
  }

  function Lower(s: string): (r: string)
    ensures |r| == |s| && forall i :: 0 <= i < |s| ==> r[i] == LowerChar(s[i])
  {
    seq(|s|, i requires 0 <= i < |s| => LowerChar(s[i]))
  }

  /** sub in s. */
  predicate Contains(s: string, sub: string) {
    sub <= s || (s != [] && Contains(s[1..], sub))
  }

  function Count(s: string, c: char): nat {
    if s == [] then 0 else (if s[0] == c then 1 else 0) + Count(s[1..], c)
  }

  predicate IsWord(c: char) {
    '0' <= c <= '9' || 'a' <= c <= 'z' || 'A' <= c <= 'Z' || c == '_'
  }

  /** \bword\s* and a colon, in any case, at the start of s; what follows the colon. `inWord`: a word character precedes. */
  function KeyAt(s: string, word: string, inWord: bool): Option<string> {
    if inWord || |s| < |word| || Lower(s[..|word|]) != word then None
    else
      var t := LStrip(s[|word|..]);
      if t != [] && t[0] == ':' then Some(t[1..]) else None
  }

  /** \bctl\s*: anywhere in s. */
  predicate HasCtl(s: string, inWord: bool) {
    s != [] && (KeyAt(s, "ctl", inWord).Some? || HasCtl(s[1..], IsWord(s[0])))
  }

  /** \bid\s*:\s*'?(\d+) at the start of s. */
  function IdAt(s: string, inWord: bool): Option<nat> {
    match KeyAt(s, "id", inWord)
    case None => None
    case Some(rest) =>
      var t := LStrip(rest);
      var u := if t != [] && t[0] == '\'' then t[1..] else t;
      var n := DigitRun(u);
      if n == 0 then None else Some(Value(u[..n]))
  }

  /** The leftmost rule id. */
  function FindId(s: string, inWord: bool): Option<nat> {
    if s == [] then None
    else if IdAt(s, inWord).Some? then IdAt(s, inWord)
    else FindId(s[1..], IsWord(s[0]))
  }

  // ------------------------------------------------------------------ the checks

  function DisallowedIn(lowered: string, tokens: seq<string>): seq<Error> {
    if tokens == [] then []
    else (if Contains(lowered, tokens[0]) then [Disallowed(tokens[0])] else []) + DisallowedIn(lowered, tokens[1..])
  }

  predicate IsRule(statement: string) {
    "SecRule " <= statement || "SecAction " <= statement
  }

  function StatementErrors(statement: string, line: nat): seq<Error> {
    (if IsRule(statement) then [] else [NotARule(line)])
    + (if Count(statement, '"') % 2 == 0 then [] else [OddDoubleQuotes(line)])
    + (if Count(statement, '\'') % 2 == 0 then [] else [OddSingleQuotes(line)])
    + match FindId(statement, false) {
        case None => [NoId(line)]
        case Some(id) => if ID_MIN <= id <= ID_MAX then [] else [IdOutOfRange(line, id)]
      }
  }

  function AllStatementErrors(statements: seq<string>, line: nat): seq<Error> {
    if statements == [] then []
    else StatementErrors(statements[0], line) + AllStatementErrors(statements[1..], line + 1)
  }

  function Ids(statements: seq<string>): seq<nat> {
    if statements == [] then []
    else
      var id := FindId(statements[0], false);
      (if id.Some? then [id.value] else []) + Ids(statements[1..])
  }

  predicate Distinct(ids: seq<nat>) {
    forall i, j :: 0 <= i < j < |ids| ==> ids[i] != ids[j]
  }

  function TextErrors(text: string): seq<Error> {
    (if |text| > MAX_RULE_TEXT then [RuleTooLong] else [])
    + (if '\'' in text then [SingleQuotes] else [])
    + DisallowedIn(Lower(text), DISALLOWED)
    + (if HasCtl(Lower(text), false) then [CtlAction] else [])
  }

  function NameErrors(name: string): seq<Error> {
    (if name == [] then [NameMissing] else []) + (if |name| > MAX_NAME then [NameTooLong] else [])
  }

  /** validate_custom_rule */
  function Validate(name: string, text: string): seq<Error> {
    if text == [] then NameErrors(name) + [RuleMissing]
    else
      var statements := Statements(text);
      if statements == [] then NameErrors(name) + TextErrors(text) + [NoStatements]
      else
        NameErrors(name) + TextErrors(text) + AllStatementErrors(statements, 1)
        + (if Distinct(Ids(statements)) then [] else [DuplicateIds])
  }

  // ------------------------------------------------------------------ what acceptance means

  predicate GoodStatement(s: string) {
    && ("SecRule " <= s || "SecAction " <= s) && Count(s, '"') % 2 == 0 && Count(s, '\'') % 2 == 0
    && FindId(s, false).Some? && 1_000_000 <= FindId(s, false).value <= 1_999_999
  }

  predicate GoodText(text: string) {
    && text != [] && |text| <= 6000 && '\'' !in text
    && !Contains(Lower(text), "include") && !Contains(Lower(text), "exec:") && !Contains(Lower(text), "lua:")
    && !HasCtl(Lower(text), false)
  }

  lemma {:induction false} StatementErrorsIff(statements: seq<string>, line: nat)
    ensures AllStatementErrors(statements, line) == [] <==> forall i :: 0 <= i < |statements| ==> GoodStatement(statements[i])
  {
    hide FindId, Count;
    if statements != [] {
      StatementErrorsIff(statements[1..], line + 1);
      assert StatementErrors(statements[0], line) == [] <==> GoodStatement(statements[0]);
      hide StatementErrors, GoodStatement;
      assert forall i :: 1 <= i < |statements| ==> statements[i] == statements[1..][i - 1];
    }
  }

  lemma {:induction false} DisallowedIff(lowered: string, tokens: seq<string>)
    ensures DisallowedIn(lowered, tokens) == [] <==> forall i :: 0 <= i < |tokens| ==> !Contains(lowered, tokens[i])
  {
    hide Contains;
    if tokens != [] {
      DisallowedIff(lowered, tokens[1..]);
      assert forall i :: 1 <= i < |tokens| ==> tokens[i] == tokens[1..][i - 1];
    }
  }

  /** No two statements have the same id. */
  predicate NoSharedId(statements: seq<string>) {
    forall i, j :: 0 <= i < j < |statements| && FindId(statements[i], false).Some? ==>
      FindId(statements[i], false) != FindId(statements[j], false)
  }

  lemma {:induction false} IdsAre(statements: seq<string>, id: nat)
    ensures id in Ids(statements) <==> exists i :: 0 <= i < |statements| && FindId(statements[i], false) == Some(id)
  {
    hide FindId;
    if statements != [] {
      IdsAre(statements[1..], id);
      assert forall i :: 1 <= i < |statements| ==> statements[i] == statements[1..][i - 1];
      if exists i :: 0 <= i < |statements[1..]| && FindId(statements[1..][i], false) == Some(id) {
        var i :| 0 <= i < |statements[1..]| && FindId(statements[1..][i], false) == Some(id);
        assert statements[i + 1] == statements[1..][i];
      }
    }
  }

  lemma {:induction false} DistinctIff(statements: seq<string>)
    ensures Distinct(Ids(statements)) <==> NoSharedId(statements)
  {
    hide FindId;
    if statements != [] {
      var rest := statements[1..];
      DistinctIff(rest);
      var first := FindId(statements[0], false);
      assert forall i :: 0 < i < |statements| ==> statements[i] == rest[i - 1];
      assert NoSharedId(statements) <==>
               NoSharedId(rest) && (first.Some? ==> forall j :: 0 <= j < |rest| ==> FindId(rest[j], false) != first);
      if first.Some? {
        IdsAre(rest, first.value);
        DistinctStep(first.value, Ids(rest));
      } else {
        assert [] + Ids(rest) == Ids(rest);
      }
    }
  }

  lemma DistinctStep(id: nat, ids: seq<nat>)
    ensures Distinct([id] + ids) <==> id !in ids && Distinct(ids)
  {
    var all := [id] + ids;
    if Distinct(all) {
      forall i, j | 0 <= i < j < |ids| ensures ids[i] != ids[j]
      {
        assert all[i + 1] != all[j + 1];
      }
      forall i | 0 <= i < |ids| ensures ids[i] != id
      {
        assert all[0] != all[i + 1];
      }
    }
  }

  /** Text predicates, spelled out: occurrence, lower case, and counting a character. */
  lemma ContainsIff(s: string, sub: string)
    ensures Contains(s, sub) <==> exists pre: string, post: string :: s == pre + sub + post
  {
    if Contains(s, sub) {
      var pre, post := ContainsWhere(s, sub);
      assert s == pre + sub + post;
    }
    forall pre: string, post: string | s == pre + sub + post ensures Contains(s, sub)
    {
      ContainsBehind(pre, sub, post);
    }
  }

  lemma {:induction false} ContainsWhere(s: string, sub: string) returns (pre: string, post: string)
    requires Contains(s, sub)
    ensures s == pre + sub + post
  {
    if sub <= s {
      pre, post := [], s[|sub|..];
    } else {
      pre, post := ContainsWhere(s[1..], sub);
      pre := [s[0]] + pre;
    }
  }

  lemma {:induction false} ContainsBehind(pre: string, sub: string, post: string)
    ensures Contains(pre + sub + post, sub)
  {
    var s := pre + sub + post;
    if pre != [] {
      ContainsBehind(pre[1..], sub, post);
      assert s[1..] == pre[1..] + sub + post;
    } else {
      assert s == sub + post;
    }
  }

  lemma LowerAndCount(s: string, c: char, d: char)
    ensures Lower(s + [c]) == Lower(s) + [if 'A' <= c <= 'Z' then c - 'A' + 'a' else c]
    ensures Count([c] + s, d) == (if c == d then 1 else 0) + Count(s, d) && Count([], d) == 0
  {
    assert ([c] + s)[1..] == s;
  }

  /** A rule is accepted exactly when its name, its text, each of its statements and its ids are good. */
  lemma AcceptedIff(name: string, text: string)
    ensures Validate(name, text) == [] <==>
              && name != [] && |name| <= 160
              && GoodText(text)
              && Statements(text) != []
              && (forall i :: 0 <= i < |Statements(text)| ==> GoodStatement(Statements(text)[i]))
              && NoSharedId(Statements(text))
  {
    DistinctIff(Statements(text));
    StatementErrorsIff(Statements(text), 1);
    DisallowedIff(Lower(text), DISALLOWED);
    assert |DISALLOWED| == 3;
    assert DISALLOWED[0] == "include" && DISALLOWED[1] == "exec:" && DISALLOWED[2] == "lua:";
    hide Statements, AllStatementErrors, DisallowedIn, Contains, HasCtl, GoodStatement, Distinct, NoSharedId, Ids, Lower;
  }

  // ------------------------------------------------------------------ what the expressions find

  /** The key: the word in any case, not inside another word, white space, a colon. */
  lemma KeyForm(w: string, gap: string, rest: string, word: string)
    requires Lower(w) == word && AllSpaces(gap)
    ensures KeyAt(w + (gap + ([':'] + rest)), word, false) == Some(rest)
    ensures KeyAt(w + (gap + ([':'] + rest)), word, true) == None
  {
    var s := w + (gap + ([':'] + rest));
    assert s[..|word|] == w && s[|word|..] == gap + ([':'] + rest);
    LStripSkips(gap, [':'] + rest);
    assert ([':'] + rest)[1..] == rest;
  }

  /** And nothing else is one. */
  lemma {:induction false} SpacesStripped(s: string) returns (gap: string)
    ensures AllSpaces(gap) && s == gap + LStrip(s)
  {
    if s != [] && IsSpace(s[0]) {
      gap := SpacesStripped(s[1..]);
      gap := [s[0]] + gap;
    } else {
      gap := [];
    }
  }

  lemma KeyOnlyForm(s: string, word: string) returns (w: string, gap: string)
    requires KeyAt(s, word, false).Some?
    ensures Lower(w) == word && AllSpaces(gap) && s == w + (gap + ([':'] + KeyAt(s, word, false).value))
  {
    w := s[..|word|];
    gap := SpacesStripped(s[|word|..]);
    assert s == w + s[|word|..];
  }

  /** An id: the key, white space, a quote or none, and as many digits as there are. */
  lemma IdForm(w: string, gap: string, more: string, quote: string, digits: string, rest: string)
    requires Lower(w) == "id" && AllSpaces(gap) && AllSpaces(more) && quote in {"", "'"}
    requires digits != [] && AllDigits(digits) && (rest != [] ==> !IsDigit(rest[0]))
    ensures IdAt(w + (gap + ([':'] + (more + (quote + (digits + rest))))), false) == Some(Value(digits))
  {
    var t := quote + (digits + rest);
    KeyForm(w, gap, more + t, "id");
    assert t[0] == if quote == "" then digits[0] else '\'';
    assert !IsSpace(t[0]);
    LStripSkips(more, t);
    assert quote == "" ==> t == digits + rest;
    assert quote == "'" ==> t[1..] == digits + rest;
    DigitRunOf(digits, rest);
    assert (digits + rest)[..|digits|] == digits;
  }

  lemma {:induction false} DigitRunOf(digits: string, rest: string)
    requires AllDigits(digits) && (rest != [] ==> !IsDigit(rest[0]))
    ensures DigitRun(digits + rest) == |digits|
  {
    if digits == [] {
      assert digits + rest == rest;
    } else {
      assert (digits + rest)[1..] == digits[1..] + rest;
      DigitRunOf(digits[1..], rest);
    }
  }

  /** Whether a word character stands before place i; `inWord` tells it of place 0. */
  predicate WordBefore(s: string, inWord: bool, i: nat)
    requires i <= |s|
  {
    if i == 0 then inWord else IsWord(s[i - 1])
  }

  /** The search finds the leftmost id, and only when there is one. */
  lemma {:induction false} FindsLeftmost(s: string, inWord: bool) returns (i: nat)
    ensures i <= |s| && forall j :: 0 <= j < i ==> IdAt(s[j..], WordBefore(s, inWord, j)) == None
    ensures FindId(s, inWord) == if i < |s| then IdAt(s[i..], WordBefore(s, inWord, i)) else None
    ensures i < |s| ==> FindId(s, inWord).Some?
  {
    hide IdAt;
    i := 0;
    assert s[0..] == s;
    if s != [] && IdAt(s, inWord) == None {
      var k := FindsLeftmost(s[1..], IsWord(s[0]));
      i := k + 1;
      forall j | 0 <= j < i ensures IdAt(s[j..], WordBefore(s, inWord, j)) == None
      {
        if j > 0 {
          assert s[1..][j - 1..] == s[j..] && WordBefore(s, inWord, j) == WordBefore(s[1..], IsWord(s[0]), j - 1);
        }
      }
      if i < |s| {
        assert s[1..][k..] == s[i..] && WordBefore(s, inWord, i) == WordBefore(s[1..], IsWord(s[0]), k);
      }
    }
  }

  lemma {:induction false} CtlAnywhere(s: string, inWord: bool)
    ensures HasCtl(s, inWord) <==> exists i :: 0 <= i < |s| && KeyAt(s[i..], "ctl", WordBefore(s, inWord, i)).Some?
  {
    hide KeyAt;
    if s != [] {
      CtlAnywhere(s[1..], IsWord(s[0]));
      assert s[0..] == s;
      forall i | 0 < i < |s| ensures s[1..][i - 1..] == s[i..] && WordBefore(s, inWord, i) == WordBefore(s[1..], IsWord(s[0]), i - 1)
      {
      }
      if exists i :: 0 <= i < |s[1..]| && KeyAt(s[1..][i..], "ctl", WordBefore(s[1..], IsWord(s[0]), i)).Some? {
        var i :| 0 <= i < |s[1..]| && KeyAt(s[1..][i..], "ctl", WordBefore(s[1..], IsWord(s[0]), i)).Some?;
        assert s[1..][i..] == s[i + 1..];
      }
    }
  }

  // ------------------------------------------------------------------ which errors are reported

  predicate AboutStatement(e: Error) {
    e.NotARule? || e.OddDoubleQuotes? || e.OddSingleQuotes? || e.NoId? || e.IdOutOfRange?
  }

  /** The objections to one statement. */
  predicate Objects(e: Error, s: string, line: nat) {
    match e
    case NotARule(n) => n == line && !("SecRule " <= s) && !("SecAction " <= s)
    case OddDoubleQuotes(n) => n == line && Count(s, '"') % 2 != 0
    case OddSingleQuotes(n) => n == line && Count(s, '\'') % 2 != 0
    case NoId(n) => n == line && FindId(s, false) == None
    case IdOutOfRange(n, id) => n == line && FindId(s, false) == Some(id) && !(1_000_000 <= id <= 1_999_999)
    case _ => false
  }

  lemma StatementObjections(s: string, line: nat, e: Error)
    ensures e in StatementErrors(s, line) <==> Objects(e, s, line)
  {
    hide FindId, Count;
  }

  lemma {:induction false} AllObjections(statements: seq<string>, line: nat, e: Error)
    ensures e in AllStatementErrors(statements, line) <==>
              exists i :: 0 <= i < |statements| && Objects(e, statements[i], line + i)
  {
    hide Objects, StatementErrors;
    if statements != [] {
      StatementObjections(statements[0], line, e);
      AllObjections(statements[1..], line + 1, e);
      if exists i :: 0 <= i < |statements[1..]| && Objects(e, statements[1..][i], line + 1 + i) {
        var i :| 0 <= i < |statements[1..]| && Objects(e, statements[1..][i], line + 1 + i);
        assert statements[i + 1] == statements[1..][i] && Objects(e, statements[i + 1], line + (i + 1));
      }
      if exists i :: 0 <= i < |statements| && Objects(e, statements[i], line + i) {
        var i :| 0 <= i < |statements| && Objects(e, statements[i], line + i);
        if i > 0 {
          assert statements[1..][i - 1] == statements[i] && Objects(e, statements[1..][i - 1], line + 1 + (i - 1));
        }
      }
    }
  }

  /** When an error is reported that is not about one statement. */
  predicate ObjectsToRule(e: Error, name: string, text: string) {
    match e
    case NameMissing => name == ""
    case NameTooLong => |name| > 160
    case RuleMissing => text == ""
    case RuleTooLong => |text| > 6000
    case SingleQuotes => '\'' in text
    case Disallowed(token) => token in {"include", "exec:", "lua:"} && Contains(Lower(text), token)
    case CtlAction => HasCtl(Lower(text), false)
    case NoStatements => text != "" && Statements(text) == []
    case DuplicateIds => !NoSharedId(Statements(text))
    case _ => false
  }

  lemma {:induction false} DisallowedWhich(lowered: string, tokens: seq<string>, e: Error)
    ensures e in DisallowedIn(lowered, tokens) <==> e.Disallowed? && e.token in tokens && Contains(lowered, e.token)
  {
    hide Contains;
    if tokens != [] {
      DisallowedWhich(lowered, tokens[1..], e);
    }
  }

  lemma TextErrorsWhich(text: string, e: Error)
    ensures e in TextErrors(text) <==>
              (e.RuleTooLong? || e.SingleQuotes? || e.Disallowed? || e.CtlAction?) && ObjectsToRule(e, "x", text)
  {
    DisallowedWhich(Lower(text), DISALLOWED, e);
    assert forall t :: t in DISALLOWED <==> t in {"include", "exec:", "lua:"};
    hide Statements, DisallowedIn, Contains, HasCtl, Lower;
  }

  lemma NameErrorsWhich(name: string, e: Error)
    ensures e in NameErrors(name) <==> (e.NameMissing? || e.NameTooLong?) && ObjectsToRule(e, name, "x")
  {
    hide Statements, Contains, HasCtl, Lower;
  }

  lemma NotAboutTheRule(e: Error, s: string, line: nat, name: string, text: string)
    ensures Objects(e, s, line) ==> AboutStatement(e)
    ensures AboutStatement(e) ==> !ObjectsToRule(e, name, text)
  {
  }

  lemma ValidateParts(name: string, text: string, e: Error)
    ensures e in Validate(name, text) <==>
              || e in NameErrors(name)
              || (text == [] && e == RuleMissing)
              || (text != [] && e in TextErrors(text))
              || (text != [] && Statements(text) == [] && e == NoStatements)
              || (text != [] && e in AllStatementErrors(Statements(text), 1))
              || (text != [] && e == DuplicateIds && !Distinct(Ids(Statements(text))))
  {
    EmptyText();
    hide NameErrors, TextErrors, Statements, Contains, HasCtl, Lower, Ids;
  }

  /** Every error is reported exactly when there is cause for it; of a missing text nothing more is said. */
  lemma ReportedIff(name: string, text: string, e: Error)
    ensures e in Validate(name, text) <==>
              if AboutStatement(e) then exists i :: 0 <= i < |Statements(text)| && Objects(e, Statements(text)[i], 1 + i)
              else ObjectsToRule(e, name, text)
  {
    hide *;
    ValidateParts(name, text, e);
    NameErrorsWhich(name, e);
    TextErrorsWhich(text, e);
    AllObjections(Statements(text), 1, e);
    forall s, line | Objects(e, s, line) ensures AboutStatement(e)
    {
      NotAboutTheRule(e, s, line, name, text);
    }
    NotAboutTheRule(e, "", 0, name, text);
    NotAboutTheRule(e, "", 0, name, "x");
    NotAboutTheRule(e, "", 0, "x", text);
    TheOthers(name, text, e);
  }

  /** Errors that are neither about the name nor about the text as a whole, and texts without a statement. */
  lemma TheOthers(name: string, text: string, e: Error)
    ensures e.NameMissing? || e.NameTooLong? ==> (ObjectsToRule(e, name, text) <==> ObjectsToRule(e, name, "x")) && !AboutStatement(e)
    ensures e.RuleTooLong? || e.SingleQuotes? || e.Disallowed? || e.CtlAction? ==>
              (ObjectsToRule(e, name, text) <==> ObjectsToRule(e, "x", text)) && !AboutStatement(e) && (text == [] ==> !ObjectsToRule(e, name, text))
    ensures e == RuleMissing ==> (ObjectsToRule(e, name, text) <==> text == []) && !AboutStatement(e)
    ensures e == NoStatements ==> (ObjectsToRule(e, name, text) <==> text != [] && Statements(text) == []) && !AboutStatement(e)
    ensures e == DuplicateIds ==>
              && !AboutStatement(e)
              && (ObjectsToRule(e, name, text) <==> text != [] && !Distinct(Ids(Statements(text))))
    ensures text == [] ==> Statements(text) == []
    ensures AboutStatement(e) || e.NameMissing? || e.NameTooLong? || e.RuleTooLong? || e.SingleQuotes? || e.Disallowed?
            || e.CtlAction? || e == RuleMissing || e == NoStatements || e == DuplicateIds
  {
    EmptyText();
    DistinctIff(Statements(text));
    hide Statements, Contains, HasCtl, Lower, Ids, Distinct, NoSharedId;
  }

  lemma EmptyText()
    ensures Statements([]) == [] && Ids([]) == [] && Distinct([]) && Lower([]) == [] && !HasCtl([], false)
    ensures !Contains([], "include") && !Contains([], "exec:") && !Contains([], "lua:")
  {
  }

  // ------------------------------------------------------------------ a rule that ends in a backslash is accepted

  const ACTION := "SecAction id:"

  /** SecAction id:n */
  function Action(n: nat): string {
    ACTION + Dec(n)
  }

  predicate Simple(c: char) {
    IsDigit(c) || c in {'S', 'e', 'c', 'A', 't', 'i', 'o', 'n', ' ', 'd', ':'}
  }

  lemma {:induction false} CountZero(s: string, c: char)
    requires c !in s
    ensures Count(s, c) == 0
  {
    if s != [] {
      CountZero(s[1..], c);
    }
  }

  lemma {:induction false} ContainsAll(s: string, sub: string, c: char)
    requires Contains(s, sub) && c in sub
    ensures c in s
  {
    if !(sub <= s) {
      ContainsAll(s[1..], sub, c);
    }
  }

  lemma {:induction false} NoCtl(s: string, inWord: bool)
    requires 'l' !in Lower(s)
    ensures !HasCtl(s, inWord)
  {
    if s != [] {
      assert Lower(s)[1..] == Lower(s[1..]);
      NoCtl(s[1..], IsWord(s[0]));
      if |s| >= 3 {
        assert Lower(s[..3])[2] == Lower(s)[2] != 'l' && "ctl"[2] == 'l';
      }
    }
  }

  lemma {:induction false} RunOfDigits(s: string)
    requires AllDigits(s)
    ensures DigitRun(s) == |s|
  {
    if s != [] {
      RunOfDigits(s[1..]);
    }
  }

  /** Nothing that starts another way than with "id" is an id. */
  lemma Skip(s: string, inWord: bool)
    requires |s| >= 2 && Lower(s[..2]) != "id"
    ensures FindId(s, inWord) == FindId(s[1..], IsWord(s[0]))
  {
  }

  lemma IdFound(digits: string)
    requires digits != [] && AllDigits(digits)
    ensures FindId("id:" + digits, false) == Some(Value(digits))
  {
    var s := "id:" + digits;
    assert Lower(s[..2])[0] == 'i' && Lower(s[..2])[1] == 'd';
    assert Lower(s[..2]) == "id";
    assert s[2..] == ":" + digits;
    assert LStrip(":" + digits) == ":" + digits;
    assert (":" + digits)[1..] == digits;
    assert LStrip(digits) == digits;
    RunOfDigits(digits);
    assert digits[..|digits|] == digits;
  }

  /** Characters that are not the letter i start no id. */
  lemma {:induction false} SkipAll(pre: string, s: string, inWord: bool)
    requires |s| >= 1 && forall i :: 0 <= i < |pre| ==> LowerChar(pre[i]) != 'i'
    ensures FindId(pre + s, inWord) == FindId(s, if pre == [] then inWord else IsWord(pre[|pre| - 1]))
  {
    if pre == [] {
      assert pre + s == s;
    } else {
      var t := pre + s;
      assert t[0] == pre[0] && t[1..] == pre[1..] + s;
      assert Lower(t[..2])[0] != 'i' && "id"[0] == 'i';
      Skip(t, inWord);
      SkipAll(pre[1..], s, IsWord(pre[0]));
    }
  }

  lemma ActionId(n: nat)
    ensures FindId(Action(n), false) == Some(n)
  {
    var id := "id:" + Dec(n);
    var tail := "on " + id;
    var s := "i" + tail;
    assert Action(n) == "SecAct" + s;
    SkipAll("SecAct", s, false);
    assert Lower(s[..2])[1] == 'o' && "id"[1] == 'd';
    assert s[1..] == tail;
    Skip(s, true);
    SkipAll("on ", id, true);
    IdFound(Dec(n));
    ValueOfDec(n);
  }

  lemma ActionChars(n: nat)
    ensures forall i :: 0 <= i < |Action(n)| ==> Simple(Action(n)[i])
    ensures |Action(n)| >= 14 && Action(n)[0] == 'S' && IsDigit(Action(n)[|Action(n)| - 1])
  {
  }

  lemma SimpleChars(c: char)
    requires Simple(c)
    ensures c != '\'' && c != '"' && c != '\\' && !IsBreak(c) && LowerChar(c) != 'l' && LowerChar(c) != 'x'
  {
  }

  /** The action alone is one statement, with or without a backslash behind it. */
  lemma ActionStatements(n: nat)
    ensures Statements(Action(n)) == [Action(n)] && Significant(SplitLines(Action(n))) == [Action(n)]
    ensures Statements(Action(n) + "\\") == [Action(n)]
    ensures Significant(SplitLines(Action(n) + "\\")) == [Action(n) + "\\"]
  {
    var a := Action(n);
    ActionChars(n);
    forall i | 0 <= i < |a| ensures !IsBreak(a[i])
    {
      SimpleChars(a[i]);
    }
    hide Action, IsBreak, SplitLines;
    OneStatement(a, a);
    OneStatement(a, a + "\\");
  }

  lemma OneLine(text: string)
    requires text != [] && Unbroken(text) && !IsSpace(text[0]) && !IsSpace(text[|text| - 1]) && text[0] != '#'
    ensures Significant(SplitLines(text)) == [text]
  {
    SplitFirst(text, []);
    StripNothing(text);
    hide SplitLines, Strip;
    assert [text][1..] == [] && Significant([]) == [];
  }

  lemma StripNothing(s: string)
    requires s != [] && !IsSpace(s[0]) && !IsSpace(s[|s| - 1])
    ensures Strip(s) == s
  {
  }

  lemma OneStatement(a: string, text: string)
    requires text == a || text == a + "\\"
    requires a != [] && !IsSpace(a[0]) && !IsSpace(a[|a| - 1]) && a[0] != '#' && a[|a| - 1] != '\\'
    requires Unbroken(a) && !IsBreak('\\') && !IsSpace('\\')
    ensures Significant(SplitLines(text)) == [text] && Statements(text) == [a]
  {
    OneLine(text);
    StripNothing(a);
    assert Part(text) == a by {
      assert text != a ==> text[..|text| - 1] == a && RStrip(a) == a;
    }
    hide SplitLines, Strip, Part, Significant;
    assert [] + [a] == [a] && [text][1..] == [];
    assert Statement([a]) == a;
    assert Group([], [a]) == [a] && Group([], []) == [];
  }

  /** Such a rule passes every check, the backslash at its end included. */
  lemma ActionAccepted(name: string, n: nat, text: string)
    requires name != [] && |name| <= MAX_NAME && ID_MIN <= n <= ID_MAX
    requires text == Action(n) || text == Action(n) + "\\"
    requires |text| <= MAX_RULE_TEXT
    ensures Validate(name, text) == []
  {
    hide Action, Statements, GoodStatement, GoodText, Validate, NoSharedId;
    ActionStatements(n);
    ActionIsGood(n);
    ActionTextIsGood(n, text);
    OneShares(Action(n));
    AcceptedIff(name, text);
  }

  lemma OneShares(s: string)
    ensures NoSharedId([s])
  {
  }

  lemma ActionIsGood(n: nat)
    requires ID_MIN <= n <= ID_MAX
    ensures GoodStatement(Action(n))
  {
    ActionId(n);
    ActionChars(n);
    forall i | 0 <= i < |Action(n)| ensures Action(n)[i] != '"' && Action(n)[i] != '\''
    {
      SimpleChars(Action(n)[i]);
    }
    hide FindId;
    CountZero(Action(n), '"');
    CountZero(Action(n), '\'');
    assert "SecAction " <= Action(n);
  }

  lemma ActionTextIsGood(n: nat, text: string)
    requires text == Action(n) || text == Action(n) + "\\"
    requires |text| <= MAX_RULE_TEXT
    ensures GoodText(text)
  {
    ActionChars(n);
    forall i | 0 <= i < |text| ensures text[i] != '\'' && LowerChar(text[i]) != 'l' && LowerChar(text[i]) != 'x'
    {
      if i < |Action(n)| {
        SimpleChars(text[i]);
      }
    }
    hide Action, Simple;
    var low := Lower(text);
    assert 'l' !in low && 'x' !in low;
    assert Lower(low) == low;
    NoCtl(low, false);
    NoToken(low);
  }

  lemma NoToken(s: string)
    requires 'l' !in s && 'x' !in s
    ensures !Contains(s, "include") && !Contains(s, "exec:") && !Contains(s, "lua:")
  {
    hide Contains;
    assert "include"[3] == 'l' && "exec:"[1] == 'x' && "lua:"[0] == 'l';
    if Contains(s, "include") {
      ContainsAll(s, "include", 'l');
    }
    if Contains(s, "exec:") {
      ContainsAll(s, "exec:", 'x');
    }
    if Contains(s, "lua:") {
      ContainsAll(s, "lua:", 'l');
    }
  }

  /**
    Two rules that pass every check on their own and lose a statement when rendered together: the first ends in a
    backslash, and the second is joined to it.
    */
  lemma AcceptedRulesRunOn(name: string)
    requires name != [] && |name| <= MAX_NAME
    ensures var first, second := Action(1_000_001) + "\\", Action(1_000_002);
            var rules := [Rule(first, true), Rule(second, true)];
            && Validate(name, first) == [] && Validate(name, second) == []
            && OwnStatements(rules) == [Action(1_000_001), Action(1_000_002)]
            && |Statements(Render(rules))| < 2
  {
    var m, n: nat := 1_000_001, 1_000_002;
    RunsOn(name, m, n);
  }

  lemma RunsOn(name: string, m: nat, n: nat)
    requires name != [] && |name| <= MAX_NAME && ID_MIN <= m <= ID_MAX && ID_MIN <= n <= ID_MAX
    ensures var first, second := Action(m) + "\\", Action(n);
            var rules := [Rule(first, true), Rule(second, true)];
            && Validate(name, first) == [] && Validate(name, second) == []
            && OwnStatements(rules) == [Action(m), Action(n)]
            && |Statements(Render(rules))| < 2
  {
    var first, second := Action(m) + "\\", Action(n);
    ShortIds(m);
    ShortIds(n);
    ActionAccepted(name, m, first);
    ActionAccepted(name, n, second);
    ActionStatements(m);
    ActionStatements(n);
    hide Action, Validate;
    SecondIsSwallowed(first, Action(m), second, Action(n));
  }

  /** Two one-statement rules, the first of them dangling. */
  lemma SecondIsSwallowed(first: string, a: string, second: string, b: string)
    requires Statements(first) == [a] && Significant(SplitLines(first)) == [first] && Continued(first)
    requires Statements(second) == [b] && Significant(SplitLines(second)) == [second]
    ensures var rules := [Rule(first, true), Rule(second, true)];
            OwnStatements(rules) == [a, b] && |Statements(Render(rules))| < 2
  {
    hide Statements, SplitLines, Significant, Group, Render, Continued;
    var last := [Rule(second, true)];
    var rules := [Rule(first, true), Rule(second, true)];
    assert rules[1..] == last && last[1..] == [];
    assert SignificantOf(last) == [second] by {
      assert [second] + [] == [second];
    }
    assert OwnStatements(last) == [b] by {
      assert [b] + [] == [b];
    }
    assert OwnStatements(rules) == [a, b] by {
      assert [a] + [b] == [a, b];
    }
    assert Dangling([first]);
    hide OwnStatements, SignificantOf, Dangling;
    assert !NoneRunsOn(rules);
    RenderedSignificant(rules);
    StatementsOfRules(rules);
    StatementsAre(Render(rules));
  }

  lemma StatementsAre(text: string)
    ensures Statements(text) == Group(Significant(SplitLines(text)), [])
  {
  }

  lemma ShortIds(n: nat)
    requires n <= ID_MAX
    ensures |Dec(n)| <= 7
  {
    DecLength(n, 7);
  }

  // ------------------------------------------------------------------ the loop

  method ValidateCustomRule(name: string, text: string) returns (errors: seq<Error>)
    ensures errors == Validate(name, text)
  {
    hide TextErrors, Statements, AllStatementErrors, Ids, Distinct;
    errors := [];
    if name == [] {
      errors := errors + [NameMissing];
    }
    if |name| > MAX_NAME {
      errors := errors + [NameTooLong];
    }
    assert errors == NameErrors(name);
    hide NameErrors;
    if text == [] {
      return errors + [RuleMissing];
    }
    errors := errors + TextErrors(text);
    var statements := ParseStatements(text);
    if statements == [] {
      return errors + [NoStatements];
    }
    var more, ids := CheckStatements(statements);
    errors := errors + more;
    if Distinct(ids) {
      assert errors + [] == errors;
    } else {
      errors := errors + [DuplicateIds];
    }
  }

  method CheckStatements(statements: seq<string>) returns (errors: seq<Error>, ids: seq<nat>)
    ensures errors == AllStatementErrors(statements, 1) && ids == Ids(statements)
  {
    hide StatementErrors, FindId;
    errors, ids := [], [];
    var i := 0;
    while i < |statements|
      invariant i <= |statements|
      invariant errors + AllStatementErrors(statements[i..], i + 1) == AllStatementErrors(statements, 1)
      invariant ids + Ids(statements[i..]) == Ids(statements)
    {
      assert statements[i..][0] == statements[i] && statements[i..][1..] == statements[i + 1..];
      var found := StatementErrors(statements[i], i + 1);
      Assoc(errors, found, AllStatementErrors(statements[i + 1..], i + 2));
      errors := errors + found;
      var id := FindId(statements[i], false);
      var own := if id.Some? then [id.value] else [];
      Assoc(ids, own, Ids(statements[i + 1..]));
      ids := ids + own;
      i := i + 1;
    }
    assert errors + [] == errors && ids + [] == ids;
  }
}
