/** The Python str operations the repository relies on: isspace, strip, splitlines, join. */
module PyText {
  /** str.isspace(), which is also \s in a str pattern. */
  predicate IsSpace(c: char) {
    var n := c as int;
    || 0x09 <= n <= 0x0D || 0x1C <= n <= 0x20 || n == 0x85 || n == 0xA0 || n == 0x1680
    || 0x2000 <= n <= 0x200A || n == 0x2028 || n == 0x2029 || n == 0x202F || n == 0x205F || n == 0x3000
  }

  /** The characters str.splitlines() breaks at. */
  predicate IsBreak(c: char) {
    var n := c as int;
    || 0x0A <= n <= 0x0D || 0x1C <= n <= 0x1E || n == 0x85 || n == 0x2028 || n == 0x2029
  }

  predicate AllSpaces(s: string) {
    forall i :: 0 <= i < |s| ==> IsSpace(s[i])
  }

  function LStrip(s: string): (r: string)
    ensures |r| <= |s| && (r != [] ==> !IsSpace(r[0]))
  {
    if s != [] && IsSpace(s[0]) then LStrip(s[1..]) else s
  }

  function RStrip(s: string): (r: string)
    ensures r <= s && (r != [] ==> !IsSpace(r[|r| - 1]))
  {
    if s != [] && IsSpace(s[|s| - 1]) then RStrip(s[..|s| - 1]) else s
  }

  function Strip(s: string): string {
    RStrip(LStrip(s))
  }

  lemma {:induction false} LStripSkips(pre: string, s: string)
    requires AllSpaces(pre) && (s != [] ==> !IsSpace(s[0]))
    ensures LStrip(pre + s) == s
  {
    if pre == [] {
      assert pre + s == s;
    } else {
      assert (pre + s)[1..] == pre[1..] + s;
      LStripSkips(pre[1..], s);
    }
  }

  /** Leading spaces do not matter to LStrip, whatever follows. */
  lemma {:induction false} LStripPrefix(pre: string, s: string)
    requires AllSpaces(pre)
    ensures LStrip(pre + s) == LStrip(s)
  {
    if pre == [] {
      assert pre + s == s;
    } else {
      assert (pre + s)[1..] == pre[1..] + s;
      LStripPrefix(pre[1..], s);
    }
  }

  lemma {:induction false} RStripKeeps(s: string, post: string)
    requires s != [] && !IsSpace(s[|s| - 1])
    ensures RStrip(s + post) == s + RStrip(post)
  {
    var t := s + post;
    if post != [] && IsSpace(post[|post| - 1]) {
      assert t[..|t| - 1] == s + post[..|post| - 1];
      RStripKeeps(s, post[..|post| - 1]);
    } else if post == [] {
      assert t == s;
    }
  }

  lemma {:induction false} RStripSpaces(s: string)
    requires AllSpaces(s)
    ensures RStrip(s) == []
  {
    if s != [] {
      RStripSpaces(s[..|s| - 1]);
    }
  }

  /** sep.join(parts). */
  function Join(sep: string, parts: seq<string>): string {
    if parts == [] then [] else if |parts| == 1 then parts[0] else parts[0] + sep + Join(sep, parts[1..])
  }

  /** s.split(sep) for a one-character separator. */
  function Split(s: string, sep: char): (parts: seq<string>)
    ensures parts != []
    decreases |s|
  {
    if s == [] then [[]]
    else
      var rest := Split(s[1..], sep);
      if s[0] == sep then [[]] + rest else [[s[0]] + rest[0]] + rest[1..]
  }

  lemma {:induction false} SplitFirstPart(part: string, rest: string, sep: char)
    requires sep !in part
    ensures Split(part + [sep] + rest, sep) == [part] + Split(rest, sep)
    ensures Split(part, sep) == [part]
  {
    if part == [] {
      assert part + [sep] + rest == [sep] + rest;
    } else {
      SplitFirstPart(part[1..], rest, sep);
      assert (part + [sep] + rest)[1..] == part[1..] + [sep] + rest;
      assert [part[0]] + part[1..] == part;
    }
  }

  /** Splitting undoes joining when no part holds the separator. */
  lemma {:induction false} SplitUndoesJoin(parts: seq<string>, sep: char)
    requires parts != [] && forall i :: 0 <= i < |parts| ==> sep !in parts[i]
    ensures Split(Join([sep], parts), sep) == parts
  {
    SplitFirstPart(parts[0], if |parts| > 1 then Join([sep], parts[1..]) else [], sep);
    if |parts| > 1 {
      SplitUndoesJoin(parts[1..], sep);
    }
    assert parts == [parts[0]] + parts[1..];
  }

  /** And joining undoes splitting, so different texts split differently. */
  lemma {:induction false} JoinUndoesSplit(s: string, sep: char)
    ensures Join([sep], Split(s, sep)) == s
    decreases |s|
  {
    if s != [] {
      JoinUndoesSplit(s[1..], sep);
      var rest := Split(s[1..], sep);
      assert s == [s[0]] + s[1..];
      if s[0] == sep {
        assert ([[]] + rest)[1..] == rest;
      } else {
        var first := [s[0]] + rest[0];
        assert ([first] + rest[1..])[1..] == rest[1..];
      }
    }
  }
}
