/**
  Tolerant parsing of LLM output: fences are stripped, the text is parsed, and when the reply was cut off
  the summary and the explanation are dug out of the broken JSON by regular expression.
  Strings that come out of JSON are sequences of code points.
  */
module Salvage {
  import opened Wrappers
  import opened PyText
  import opened Json

  function MaxLen(field: string): nat {
    if field == "summary" then 1000 else 5000
  }

  predicate IsLetter(c: char) {
    'a' <= c <= 'z' || 'A' <= c <= 'Z'
  }

  /** "summary" and "explanation" are the two fields salvaged this way. */
  predicate IsField(field: string) {
    field == "summary" || field == "explanation"
  }

  function Take(s: seq<nat>, n: nat): (r: seq<nat>)
    ensures r <= s && |r| == Min(|s|, n)
  {
    if |s| <= n then s else s[..n]
  }

  // ------------------------------------------------------------------ fences

  const FENCE := "```"

  function SkipLetters(s: string): string {
    if s != [] && IsLetter(s[0]) then SkipLetters(s[1..]) else s
  }

  /** Remove a final fence and the white space before it. */
  function DropClosing(s: string): string {
    if |s| >= 3 && s[|s| - 3..] == FENCE then RStrip(s[..|s| - 3]) else s
  }

  function StripFences(raw: string): string {
    var text := Strip(raw);
    if FENCE <= text then Strip(DropClosing(LStrip(SkipLetters(text[3..])))) else Strip(text)
  }

  // ------------------------------------------------------------------ parsing

  function Find(s: string, c: char): (i: int)
    ensures -1 <= i < |s|
  {
    if s == [] then -1
    else if s[0] == c then 0
    else
      var i := Find(s[1..], c);
      if i == -1 then -1 else i + 1
  }

  function RFind(s: string, c: char): (i: int)
    ensures -1 <= i < |s|
  {
    if s == [] then -1 else if s[|s| - 1] == c then |s| - 1 else RFind(s[..|s| - 1], c)
  }

  ghost function AsObject(v: Option<Value>): (r: Option<Value>)
    ensures r.Some? ==> r == v && r.value.Obj?
  {
    if v.Some? && v.value.Obj? then v else None
  }

  ghost function ParseJson(raw: string): (r: Option<Value>)
    ensures r.Some? ==> r.value.Obj? && Ok(r.value)
  {
    var text := StripFences(raw);
    if Loads(text).Some? then AsObject(Loads(text))
    else
      var start, end := Find(text, '{'), RFind(text, '}');
      if start != -1 && end > start then AsObject(Loads(text[start..end + 1])) else None
  }

  /** dict.get: the last member with that key wins. */
  function Lookup(mems: Members, name: string): (r: Option<Value>)
    requires MembersOk(mems)
    ensures r.Some? ==> Ok(r.value)
  {
    match mems
    case NoMembers => None
    case Member(_, key, _, _, v, _, rest) =>
      var later := Lookup(rest, name);
      if later.Some? then later else if Decode(key) == CodePoints(name) then Some(v) else None
  }

  /** _coerce_str. */
  function CoerceStr(v: Option<Value>, max: nat): seq<nat>
    requires v.Some? ==> Ok(v.value)
  {
    if v.Some? && v.value.Str? then Take(Decode(v.value.ps), max) else []
  }

  // ------------------------------------------------------------------ the regular expression

  /** (?:\\.|[^"\\])*" from just after an opening quote: the text up to the closing one. */
  function ScanLiteral(s: string): Option<string> {
    if s == [] then None
    else if s[0] == '"' then Some([])
    else if s[0] == '\\' then
      if |s| >= 2 && s[1] != '\n' then Prefixed(s[..2], ScanLiteral(s[2..])) else None
    else Prefixed(s[..1], ScanLiteral(s[1..]))
  }

  function Prefixed(p: string, r: Option<string>): Option<string> {
    if r.Some? then Some(p + r.value) else None
  }

  /** \s*:\s*(literal) from just after the key. */
  function MatchTail(s: string): Option<string> {
    var t := LStrip(s);
    if t != [] && t[0] == ':' then
      var u := LStrip(t[1..]);
      if u != [] && u[0] == '"' then ScanLiteral(u[1..]) else None
    else None
  }

  function FieldKey(field: string): string {
    ['"'] + field + ['"']
  }

  function MatchHere(field: string, s: string): Option<string> {
    if FieldKey(field) <= s then MatchTail(s[|field| + 2..]) else None
  }

  /** re.search: the leftmost position that matches. */
  function Search(field: string, s: string): Option<string> {
    if MatchHere(field, s).Some? then MatchHere(field, s)
    else if s == [] then None
    else Search(field, s[1..])
  }

  ghost function SalvageField(raw: string, field: string): seq<nat> {
    var text := StripFences(raw);
    if text == [] || text[0] != '{' then
      if field == "summary" then Take(CodePoints(text), MaxLen(field)) else []
    else
      match Search(field, text)
      case None => []
      case Some(r) => CoerceStr(Loads(['"'] + r + ['"']), MaxLen(field))
  }

  /** The field of normalize_llm_output(raw). */
  ghost function Normalize(raw: string, field: string): seq<nat> {
    match ParseJson(raw)
    case Some(obj) => CoerceStr(Lookup(obj.mems, field), MaxLen(field))
    case None => SalvageField(raw, field)
  }

  // ------------------------------------------------------------------ which key the expression finds

  /** A quote inside the key, followed by nothing but the field name: the expression takes it for the key. */
  predicate InnerHit(field: string, ps: seq<Piece>) {
    ps != [] && ((ps[0] == Esc('"') && Raw(ps[1..]) == field) || InnerHit(field, ps[1..]))
  }

  predicate KeyHits(field: string, key: seq<Piece>) {
    Raw(key) == field || InnerHit(field, key)
  }

  function OrElse<T>(a: Option<T>, b: Option<T>): Option<T> {
    if a.Some? then a else b
  }

  /** In document order, the first string whose key the expression matches. */
  function FirstHit(field: string, v: Value): Option<seq<Piece>> {
    match v
    case Atom(_) => None
    case Str(_) => None
    case Arr(_, items) => HitItems(field, items)
    case Obj(_, mems) => HitMembers(field, mems)
  }

  function HitItems(field: string, items: Items): Option<seq<Piece>> {
    match items
    case NoItems => None
    case Item(_, v, _, rest) => OrElse(FirstHit(field, v), HitItems(field, rest))
  }

  function HitMembers(field: string, mems: Members): Option<seq<Piece>> {
    match mems
    case NoMembers => None
    case Member(_, key, _, _, v, _, rest) =>
      if KeyHits(field, key) && v.Str? then Some(v.ps)
      else OrElse(FirstHit(field, v), HitMembers(field, rest))
  }

  /** What a search finds in a text whose readable part has this first hit, and otherwise in the rest s. */
  function Found(field: string, hit: Option<seq<Piece>>, s: string): Option<string> {
    if hit.Some? then Some(Raw(hit.value)) else Search(field, s)
  }

  // ------------------------------------------------------------------ searching one string literal

  predicate NoLetter(s: string) {
    s == [] || !IsLetter(s[0])
  }

  lemma SkipChar(field: string, c: char, s: string)
    requires c != '"'
    ensures Search(field, [c] + s) == Search(field, s)
  {
    assert ([c] + s)[0] == c && ([c] + s)[1..] == s;
    assert FieldKey(field)[0] == '"';
  }

  lemma {:induction false} SkipChars(field: string, pre: string, s: string)
    requires '"' !in pre
    ensures Search(field, pre + s) == Search(field, s)
  {
    hide Search;
    if pre == [] {
      assert pre + s == s;
    } else {
      SkipChars(field, pre[1..], s);
      SkipChar(field, pre[0], pre[1..] + s);
      assert [pre[0]] + (pre[1..] + s) == pre + s;
    }
  }

  predicate AllLetters(s: string) {
    forall i :: 0 <= i < |s| ==> IsLetter(s[i])
  }

  /** Reading f and a closing quote off a literal means the literal is f. */
  lemma {:induction false} ClosesWith(ps: seq<Piece>, f: string, after: string)
    requires PiecesOk(ps) && AllLetters(f)
    ensures f + ['"'] <= RawTo(ps, ['"'] + after) <==> Raw(ps) == f
    ensures Raw(ps) == f ==> RawTo(ps, ['"'] + after)[|f| + 1..] == after
    decreases ps
  {
    var s := RawTo(ps, ['"'] + after);
    if ps == [] {
      assert s == ['"'] + after;
      if f == [] {
        assert f + ['"'] == ['"'];
      } else {
        assert (f + ['"'])[0] == f[0];
      }
    } else {
      var p, rest := ps[0], RawTo(ps[1..], ['"'] + after);
      assert s[0] == RawPiece(p)[0];
      assert Raw(ps)[0] == RawPiece(p)[0];
      if f == [] {
        assert f + ['"'] == ['"'];
      } else if f[0] == s[0] {
        assert p.Plain?;
        ClosesWith(ps[1..], f[1..], after);
        assert s[1..] == rest && Raw(ps)[1..] == Raw(ps[1..]);
        assert (f + ['"'])[1..] == f[1..] + ['"'];
        if Raw(ps) == f {
          assert f + ['"'] <= s;
          assert s[|f| + 1..] == rest[|f|..];
        }
      } else {
        assert (f + ['"'])[0] == f[0];
      }
    }
  }

  /** A match that starts at the opening quote of a literal. */
  lemma Opening(field: string, ps: seq<Piece>, after: string)
    requires IsField(field) && PiecesOk(ps)
    ensures MatchHere(field, Quoted(ps, after)) == (if Raw(ps) == field then MatchTail(after) else None)
  {
    ClosesWith(ps, field, after);
    var s := Quoted(ps, after);
    var k := FieldKey(field);
    assert s[0] == '"' && k[0] == '"' && s[1..] == RawTo(ps, ['"'] + after) && k[1..] == field + ['"'];
    if Raw(ps) == field {
      assert s[|field| + 2..] == s[1..][|field| + 1..];
    }
  }

  /** Searching on from just after an opening quote: only a trailing \"field can match. */
  lemma {:induction false} SearchInside(field: string, ps: seq<Piece>, after: string)
    requires IsField(field) && PiecesOk(ps) && NoLetter(after)
    ensures Search(field, RawTo(ps, ['"'] + after))
         == (if InnerHit(field, ps) && MatchTail(after).Some? then MatchTail(after) else Search(field, after))
    decreases ps
  {
    hide Search, MatchTail;
    if ps == [] {
      ClosingQuote(field, after);
    } else {
      var p, rest := ps[0], RawTo(ps[1..], ['"'] + after);
      SearchInside(field, ps[1..], after);
      match p {
        case Plain(c) => SkipChar(field, c, rest);
        case Hex(h) =>
          SkipChars(field, ['\\', 'u'] + h, rest);
        case Esc(c) =>
          assert ['\\', c] + rest == ['\\'] + ([c] + rest);
          SkipChar(field, '\\', [c] + rest);
          if c != '"' {
            SkipChar(field, c, rest);
          } else {
            EscapedQuote(field, ps[1..], after);
          }
      }
    }
  }

  lemma ClosingQuote(field: string, after: string)
    requires IsField(field) && NoLetter(after)
    ensures Search(field, ['"'] + after) == Search(field, after)
  {
    var s := ['"'] + after;
    assert s[1..] == after;
    assert FieldKey(field)[1] == field[0];
  }

  lemma EscapedQuote(field: string, ps: seq<Piece>, after: string)
    requires IsField(field) && PiecesOk(ps)
    requires Search(field, RawTo(ps, ['"'] + after))
          == (if InnerHit(field, ps) && MatchTail(after).Some? then MatchTail(after) else Search(field, after))
    ensures Search(field, ['"'] + RawTo(ps, ['"'] + after))
         == (if (Raw(ps) == field || InnerHit(field, ps)) && MatchTail(after).Some? then MatchTail(after)
             else Search(field, after))
  {
    Opening(field, ps, after);
    assert Quoted(ps, after)[1..] == RawTo(ps, ['"'] + after);
  }

  /** A whole literal, quotes included. */
  lemma SearchQuoted(field: string, ps: seq<Piece>, after: string)
    requires IsField(field) && PiecesOk(ps) && NoLetter(after)
    ensures Search(field, Quoted(ps, after))
         == (if KeyHits(field, ps) && MatchTail(after).Some? then MatchTail(after) else Search(field, after))
  {
    SearchInside(field, ps, after);
    EscapedQuote(field, ps, after);
  }

  // ------------------------------------------------------------------ what follows a key

  lemma {:induction false} ScanLiteralIs(ps: seq<Piece>, k: string)
    requires PiecesOk(ps)
    ensures ScanLiteral(RawTo(ps, ['"'] + k)) == Some(Raw(ps))
    decreases ps
  {
    if ps == [] {
      assert (['"'] + k)[0] == '"';
    } else {
      var p, rest := ps[0], RawTo(ps[1..], ['"'] + k);
      var s := RawTo(ps, ['"'] + k);
      ScanLiteralIs(ps[1..], k);
      match p {
        case Plain(c) =>
          assert s[0] == c && s[..1] == [c] && s[1..] == rest;
        case Esc(c) =>
          assert s[0] == '\\' && s[1] == c && s[..2] == ['\\', c] && s[2..] == rest;
        case Hex(h) =>
          ScanHex(h, rest, Raw(ps[1..]));
      }
    }
  }

  lemma ScanHex(h: string, rest: string, r: string)
    requires |h| == 4 && forall i :: 0 <= i < 4 ==> IsHex(h[i])
    requires ScanLiteral(rest) == Some(r)
    ensures ScanLiteral(['\\', 'u'] + h + rest) == Some(['\\', 'u'] + h + r)
  {
    var s := ['\\', 'u'] + h + rest;
    assert s[0] == '\\' && s[1] == 'u' && s[..2] == ['\\', 'u'] && s[2..] == h + rest;
    ScanPlain(h, rest);
    assert ['\\', 'u'] + (h + r) == ['\\', 'u'] + h + r;
  }

  lemma {:induction false} ScanPlain(h: string, rest: string)
    requires forall i :: 0 <= i < |h| ==> IsHex(h[i])
    ensures ScanLiteral(h + rest) == Prefixed(h, ScanLiteral(rest))
  {
    if h == [] {
      assert h + rest == rest;
      assert forall r: string :: [] + r == r;
    } else {
      var s := h + rest;
      assert s[0] == h[0] && s[..1] == h[..1] && s[1..] == h[1..] + rest;
      ScanPlain(h[1..], rest);
      assert forall r: string :: h[..1] + (h[1..] + r) == h + r;
    }
  }

  lemma WsIsSpace(s: string)
    requires AllWs(s)
    ensures AllSpaces(s) && '"' !in s
  {
  }

  lemma SkipWs(ws: string, c: char, k: string)
    requires AllWs(ws) && !IsSpace(c)
    ensures LStrip(ws + ([c] + k)) == [c] + k
  {
    WsIsSpace(ws);
    LStripSkips(ws, [c] + k);
  }

  lemma MatchTailOfColon(mid: string, pre2: string, v: Value, k: string)
    requires AllWs(mid) && AllWs(pre2) && Ok(v)
    ensures MatchTail(ColonText(mid, pre2, v, k)) == (if v.Str? then Some(Raw(v.ps)) else None)
  {
    var t := pre2 + Text(v, k);
    SkipWs(mid, ':', t);
    assert ([':'] + t)[1..] == t;
    WsIsSpace(pre2);
    LStripSkips(pre2, Text(v, k));
    FirstChar(v, k);
    if v.Str? {
      assert Text(v, k)[1..] == RawTo(v.ps, ['"'] + k);
      ScanLiteralIs(v.ps, k);
    }
  }

  /** After a complete value comes white space and then a comma or a bracket. */
  predicate EndsValue(k: string) {
    NoLetter(k) && MatchTail(k) == None
  }

  lemma TailEndsValue(post: string, c: char, k: string)
    requires AllWs(post) && (c == ',' || c == ']' || c == '}')
    ensures EndsValue(post + ([c] + k))
  {
    SkipWs(post, c, k);
    assert post == [] ==> post + ([c] + k) == [c] + k;
  }

  lemma SkipPadding(field: string, ws: string, c: char, k: string)
    requires AllWs(ws) && c != '"'
    ensures Search(field, ws + ([c] + k)) == Search(field, k)
  {
    WsIsSpace(ws);
    SkipChars(field, ws, [c] + k);
    SkipChar(field, c, k);
  }

  // ------------------------------------------------------------------ searching values

  /** The expression finds exactly the first hit of the document order, or else what follows the value. */
  lemma {:induction false} SearchValue(field: string, v: Value, k: string)
    requires IsField(field) && Ok(v) && EndsValue(k)
    ensures Search(field, Text(v, k)) == Found(field, FirstHit(field, v), k)
    decreases v, 0
  {
    hide MatchTail, Search;
    match v {
      case Atom(t) =>
        AtomChars(t);
        SkipChars(field, t, k);
      case Str(ps) =>
        SearchQuoted(field, ps, k);
      case Arr(pad, items) =>
        if items.NoItems? {
          SkipChar(field, '[', pad + ([']'] + k));
          SkipPadding(field, pad, ']', k);
        } else {
          SkipChar(field, '[', ItemsText(items, k));
          SearchItems(field, items, k);
        }
      case Obj(pad, mems) =>
        if mems.NoMembers? {
          SkipChar(field, '{', pad + (['}'] + k));
          SkipPadding(field, pad, '}', k);
        } else {
          SkipChar(field, '{', MembersText(mems, k));
          SearchMembers(field, mems, k);
        }
    }
  }

  lemma {:induction false} SearchItems(field: string, items: Items, k: string)
    requires IsField(field) && items.Item? && ItemsOk(items)
    ensures Search(field, ItemsText(items, k)) == Found(field, HitItems(field, items), k)
    decreases items, 1
  {
    hide MatchTail, Search, Text;
    var t := ItemsTail(items.rest, k);
    WsIsSpace(items.pre);
    SkipChars(field, items.pre, Text(items.v, items.post + t));
    if items.rest.NoItems? {
      TailEndsValue(items.post, ']', k);
      SkipPadding(field, items.post, ']', k);
    } else {
      TailEndsValue(items.post, ',', ItemsText(items.rest, k));
      SkipPadding(field, items.post, ',', ItemsText(items.rest, k));
      SearchItems(field, items.rest, k);
    }
    SearchValue(field, items.v, items.post + t);
  }

  /** One member, from its key to the end of its value, with something that ends a value behind it. */
  lemma {:induction false} SearchMember(field: string, key: seq<Piece>, mid: string, pre2: string, v: Value, k: string)
    requires IsField(field) && PiecesOk(key) && AllWs(mid) && AllWs(pre2) && Ok(v) && EndsValue(k)
    ensures Search(field, Quoted(key, ColonText(mid, pre2, v, k)))
         == Found(field, if KeyHits(field, key) && v.Str? then Some(v.ps) else FirstHit(field, v), k)
    decreases v, 1
  {
    hide MatchTail, Search, Text;
    var after := ColonText(mid, pre2, v, k);
    MatchTailOfColon(mid, pre2, v, k);
    assert NoLetter(after) by {
      assert mid == [] ==> after == [':'] + (pre2 + Text(v, k));
    }
    SearchQuoted(field, key, after);
    SkipPadding(field, mid, ':', pre2 + Text(v, k));
    WsIsSpace(pre2);
    SkipChars(field, pre2, Text(v, k));
    SearchValue(field, v, k);
  }

  lemma {:induction false} SearchMembers(field: string, mems: Members, k: string)
    requires IsField(field) && mems.Member? && MembersOk(mems)
    ensures Search(field, MembersText(mems, k)) == Found(field, HitMembers(field, mems), k)
    decreases mems, 1
  {
    hide MatchTail, Search, Text, Quoted, ColonText;
    var t := MembersTail(mems.rest, k);
    WsIsSpace(mems.pre);
    SkipChars(field, mems.pre, Quoted(mems.key, ColonText(mems.mid, mems.pre2, mems.v, mems.post + t)));
    if mems.rest.NoMembers? {
      TailEndsValue(mems.post, '}', k);
      SkipPadding(field, mems.post, '}', k);
    } else {
      TailEndsValue(mems.post, ',', MembersText(mems.rest, k));
      SkipPadding(field, mems.post, ',', MembersText(mems.rest, k));
      SearchMembers(field, mems.rest, k);
    }
    SearchMember(field, mems.key, mems.mid, mems.pre2, mems.v, mems.post + t);
  }

  // ------------------------------------------------------------------ cut-off objects

  /** The text of the members of `before`, each with its comma, followed by x. */
  function Upto(before: Members, x: string): string {
    match before
    case NoMembers => x
    case Member(pre, key, mid, pre2, v, post, rest) =>
      pre + Quoted(key, ColonText(mid, pre2, v, post + ([','] + Upto(rest, x))))
  }

  function Append(before: Members, m: Members): Members {
    match before
    case NoMembers => m
    case Member(pre, key, mid, pre2, v, post, rest) => Member(pre, key, mid, pre2, v, post, Append(rest, m))
  }

  /**
    An object seen from one of its string members: the members before it, the member itself
    (m.v is a string literal), and in m.rest those after it.
    */
  datatype Focus = Focus(before: Members, m: Members)
  {
    predicate Valid() {
      m.Member? && m.v.Str? && MembersOk(before) && MembersOk(m)
    }

    function Object(): Value {
      Obj([], Append(before, m))
    }

    function Literal(): (ps: seq<Piece>)
      requires Valid()
      ensures PiecesOk(ps)
    {
      assert Ok(m.v);
      m.v.ps
    }

    /** The object's text up to and including the literal, followed by x. */
    function Head(x: string): string
      requires Valid()
    {
      ['{'] + Upto(before, m.pre + Quoted(m.key, ColonText(m.mid, m.pre2, m.v, x)))
    }

    /** What follows the literal in the whole object. */
    function After(): string
      requires Valid()
    {
      m.post + MembersTail(m.rest, [])
    }
  }

  lemma {:induction false} AppendText(before: Members, m: Members, k: string)
    requires m.Member?
    ensures Append(before, m).Member? && MembersText(Append(before, m), k) == Upto(before, MembersText(m, k))
  {
    if before.Member? {
      AppendText(before.rest, m, k);
    }
  }

  lemma {:induction false} AppendOk(before: Members, m: Members)
    requires MembersOk(before) && MembersOk(m)
    ensures MembersOk(Append(before, m))
  {
    if before.Member? {
      AppendOk(before.rest, m);
    }
  }

  lemma FocusText(f: Focus)
    requires f.Valid()
    ensures Ok(f.Object()) && Text(f.Object(), []) == f.Head(f.After())
  {
    AppendText(f.before, f.m, []);
    AppendOk(f.before, f.m);
  }

  lemma {:induction false} UptoAppends(before: Members, x: string, q: string)
    ensures Upto(before, x + q) == Upto(before, x) + q
  {
    hide Quoted, ColonText;
    if before.Member? {
      var u := Upto(before.rest, x);
      UptoAppends(before.rest, x, q);
      Assoc([','], u, q);
      Assoc(before.post, [','] + u, q);
      var k := before.post + ([','] + u);
      ColonAppends(before.mid, before.pre2, before.v, k, q);
      QuotedAppends(before.key, ColonText(before.mid, before.pre2, before.v, k), q);
      Assoc(before.pre, Quoted(before.key, ColonText(before.mid, before.pre2, before.v, k)), q);
    }
  }

  lemma HeadAppends(f: Focus, x: string, q: string)
    requires f.Valid()
    ensures f.Head(x + q) == f.Head(x) + q
  {
    hide Quoted, ColonText, Upto;
    var c := ColonText(f.m.mid, f.m.pre2, f.m.v, x);
    ColonAppends(f.m.mid, f.m.pre2, f.m.v, x, q);
    QuotedAppends(f.m.key, c, q);
    Assoc(f.m.pre, Quoted(f.m.key, c), q);
    UptoAppends(f.before, f.m.pre + Quoted(f.m.key, c), q);
    Assoc(['{'], Upto(f.before, f.m.pre + Quoted(f.m.key, c)), q);
  }

  /** The kept part starts with a brace and ends with the literal's closing quote. */
  lemma HeadEnds(f: Focus) returns (front: string)
    requires f.Valid()
    ensures f.Head([]) == front + ['"'] && front != [] && front[0] == '{'
  {
    hide ColonText, Upto;
    var lit := f.m.v.ps;
    var q: string := ['"'];
    var open := ['"'] + RawTo(lit, []);
    assert Text(f.m.v, []) == open + q by {
      RawAppends(lit, [], q);
      assert ['"'] + [] == [] + q;
      Assoc(['"'], RawTo(lit, []), q);
    }
    Assoc(f.m.pre2, open, q);
    Assoc([':'], f.m.pre2 + open, q);
    Assoc(f.m.mid, [':'] + (f.m.pre2 + open), q);
    var c := f.m.mid + ([':'] + (f.m.pre2 + open));
    assert ColonText(f.m.mid, f.m.pre2, f.m.v, []) == c + q by {
      ColonIs(f.m.mid, f.m.pre2, f.m.v, []);
    }
    QuotedAppends(f.m.key, c, q);
    Assoc(f.m.pre, Quoted(f.m.key, c), q);
    UptoAppends(f.before, f.m.pre + Quoted(f.m.key, c), q);
    front := ['{'] + Upto(f.before, f.m.pre + Quoted(f.m.key, c));
  }

  lemma ColonIs(mid: string, pre2: string, v: Value, k: string)
    ensures ColonText(mid, pre2, v, k) == mid + ([':'] + (pre2 + Text(v, k)))
  {
  }

  lemma {:induction false} SearchUpto(field: string, before: Members, x: string)
    requires IsField(field) && MembersOk(before)
    ensures Search(field, Upto(before, x)) == Found(field, HitMembers(field, before), x)
  {
    hide Search, Quoted, ColonText, MatchTail;
    if before.Member? {
      var u := Upto(before.rest, x);
      SearchUpto(field, before.rest, x);
      WsIsSpace(before.pre);
      var k := before.post + ([','] + u);
      SkipChars(field, before.pre, Quoted(before.key, ColonText(before.mid, before.pre2, before.v, k)));
      TailEndsValue(before.post, ',', u);
      SkipPadding(field, before.post, ',', u);
      SearchMember(field, before.key, before.mid, before.pre2, before.v, k);
    }
  }

  /** The string the expression picks once the literal is in the text: an earlier hit, or else the literal itself. */
  function Picked(field: string, f: Focus): Option<seq<Piece>>
    requires f.Valid()
  {
    OrElse(HitMembers(field, f.before), if KeyHits(field, f.m.key) then Some(f.Literal()) else None)
  }

  /** However much of what follows the literal is there, it ends the literal. */
  lemma CutEndsValue(f: Focus, cut: string)
    requires f.Valid() && cut <= f.After()
    ensures EndsValue(cut)
  {
    var post := f.m.post;
    WsIsSpace(post);
    if |cut| <= |post| {
      assert cut == post[..|cut|];
      assert cut + [] == cut;
      LStripSkips(cut, []);
    } else {
      var c := if f.m.rest.NoMembers? then '}' else ',';
      var rest := cut[|post| + 1..];
      assert f.After()[|post|] == MembersTail(f.m.rest, [])[0] == c;
      assert cut == post + ([c] + rest);
      TailEndsValue(post, c, rest);
    }
  }

  lemma SearchHead(field: string, f: Focus, w: string)
    requires IsField(field) && f.Valid() && EndsValue(w)
    ensures Search(field, f.Head(w)) == Found(field, Picked(field, f), w)
  {
    hide Search, Quoted, MatchTail, Upto, KeyHits;
    var c := ColonText(f.m.mid, f.m.pre2, f.m.v, w);
    var x := f.m.pre + Quoted(f.m.key, c);
    SkipChar(field, '{', Upto(f.before, x));
    SearchUpto(field, f.before, x);
    WsIsSpace(f.m.pre);
    SkipChars(field, f.m.pre, Quoted(f.m.key, c));
    SearchMember(field, f.m.key, f.m.mid, f.m.pre2, f.m.v, w);
  }

  // ------------------------------------------------------------------ the wrapping of a reply

  /** What a model puts around the object: nothing, or a Markdown fence with an optional language word. */
  datatype Wrapper = Bare | Fenced(lang: string, gap: string)

  predicate WrapperOk(w: Wrapper) {
    w.Fenced? ==> AllLetters(w.lang) && AllSpaces(w.gap)
  }

  function OpeningText(w: Wrapper): string {
    if w.Bare? then [] else FENCE + (w.lang + w.gap)
  }

  /** What stripping leaves of the text z behind the kept part. */
  function StripTail(w: Wrapper, z: string): (r: string)
    ensures r <= z
  {
    if w.Bare? then RStrip(z) else RStrip(DropClosing(RStrip(z)))
  }

  predicate ClosingOk(w: Wrapper, closing: string) {
    AllSpaces(closing) || (w.Fenced? && exists i :: 0 <= i <= |closing| - 3 && ClosesAt(closing, i))
  }

  predicate ClosesAt(closing: string, i: nat)
    requires i + 3 <= |closing|
  {
    AllSpaces(closing[..i]) && closing[i..i + 3] == FENCE && AllSpaces(closing[i + 3..])
  }

  lemma ClosingStripped(w: Wrapper, closing: string)
    requires ClosingOk(w, closing)
    ensures StripTail(w, closing) == []
  {
    if AllSpaces(closing) {
      RStripSpaces(closing);
    } else {
      var i :| 0 <= i <= |closing| - 3 && ClosesAt(closing, i);
      var body := closing[..i] + FENCE;
      assert closing == body + closing[i + 3..];
      assert body[|body| - 1] == '`' && !IsSpace('`');
      RStripKeeps(body, closing[i + 3..]);
      RStripSpaces(closing[i + 3..]);
      assert RStrip(closing) == body;
      assert body[..|body| - 3] == closing[..i] && body[|body| - 3..] == FENCE;
      RStripSpaces(closing[..i]);
    }
  }

  /** A kept part: starts with a brace, ends with a quote or a brace. */
  predicate Kept(a: string) {
    a != [] && a[0] == '{' && (a[|a| - 1] == '"' || a[|a| - 1] == '}')
  }

  lemma {:induction false} SkipLettersIs(lang: string, s: string)
    requires AllLetters(lang) && (s == [] || !IsLetter(s[0]))
    ensures SkipLetters(lang + s) == s
  {
    if lang == [] {
      assert lang + s == s;
    } else {
      assert (lang + s)[1..] == lang[1..] + s;
      SkipLettersIs(lang[1..], s);
    }
  }

  lemma SplitNearEnd(a: string, z: string, n: nat)
    requires n <= |z|
    ensures (a + z)[|a + z| - n..] == z[|z| - n..]
    ensures (a + z)[..|a + z| - n] == a + z[..|z| - n]
  {
  }

  lemma DropClosingKeeps(a: string, z: string)
    requires Kept(a)
    ensures DropClosing(a + z) == a + DropClosing(z)
  {
    hide RStrip;
    if |z| >= 3 {
      SplitNearEnd(a, z, 3);
      if z[|z| - 3..] == FENCE {
        RStripKeeps(a, z[..|z| - 3]);
      }
    } else if |a + z| >= 3 {
      NoFenceAcross(a, z);
    }
  }

  lemma NoFenceAcross(a: string, z: string)
    requires Kept(a) && |z| < 3 <= |a + z|
    ensures (a + z)[|a + z| - 3..] != FENCE
  {
    var t := a + z;
    var i := |a| - 1;
    assert t[i] == a[i];
    assert t[|t| - 3..][2 - |z|] == t[i];
    assert FENCE[2 - |z|] == '`';
  }

  lemma StripKept(a: string, z: string)
    requires Kept(a)
    ensures Strip(a + z) == a + RStrip(z)
  {
    LStripSkips([], a + z);
    assert [] + (a + z) == a + z;
    RStripKeeps(a, z);
  }

  lemma RStripIdempotent(z: string)
    ensures RStrip(RStrip(z)) == RStrip(z)
  {
  }

  lemma BareKeeps(lead: string, a: string, z: string)
    requires AllSpaces(lead) && Kept(a)
    ensures StripFences(lead + (a + z)) == a + RStrip(z)
  {
    LStripSkips(lead, a + z);
    RStripKeeps(a, z);
    StripKept(a, RStrip(z));
    RStripIdempotent(z);
    hide LStrip, RStrip, DropClosing, SkipLetters;
    var text := a + RStrip(z);
    assert text[0] == '{' && FENCE[0] == '`';
  }

  /** The text after an opening fence loses the language word and the gap. */
  lemma FenceSkipped(lang: string, gap: string, a: string, z: string)
    requires AllLetters(lang) && AllSpaces(gap) && Kept(a)
    ensures LStrip(SkipLetters(lang + (gap + (a + z)))) == a + z
  {
    assert gap == [] ==> gap + (a + z) == a + z;
    assert gap != [] ==> (gap + (a + z))[0] == gap[0];
    SkipLettersIs(lang, gap + (a + z));
    LStripSkips(gap, a + z);
  }

  lemma AfterFence(t: string)
    ensures FENCE <= FENCE + t && (FENCE + t)[3..] == t && (FENCE + t)[0] == '`'
  {
  }

  lemma FencedText(lang: string, gap: string, a: string, z: string)
    ensures (FENCE + (lang + gap)) + (a + z) == FENCE + (lang + (gap + (a + z)))
    ensures (FENCE + (lang + gap)) + (a + z) == ((FENCE + (lang + gap)) + a) + z
  {
    hide FENCE;
    Assoc(FENCE, lang + gap, a + z);
    Assoc(lang, gap, a + z);
    Assoc(FENCE + (lang + gap), a, z);
  }

  /** What the outer strip leaves of a fenced reply. */
  lemma FencedStrip(lead: string, lang: string, gap: string, a: string, z: string)
    requires AllSpaces(lead) && Kept(a)
    ensures Strip(lead + ((FENCE + (lang + gap)) + (a + z))) == FENCE + (lang + (gap + (a + RStrip(z))))
  {
    var oa := (FENCE + (lang + gap)) + a;
    FencedText(lang, gap, a, z);
    FencedText(lang, gap, a, RStrip(z));
    AfterFence(lang + (gap + (a + z)));
    assert oa[|oa| - 1] == a[|a| - 1];
    hide FENCE, LStrip, RStrip;
    LStripSkips(lead, oa + z);
    RStripKeeps(oa, z);
  }

  lemma FencedKeeps(lead: string, lang: string, gap: string, a: string, z: string)
    requires AllSpaces(lead) && AllLetters(lang) && AllSpaces(gap) && Kept(a)
    ensures StripFences(lead + ((FENCE + (lang + gap)) + (a + z))) == a + RStrip(DropClosing(RStrip(z)))
  {
    hide FENCE, LStrip, RStrip, DropClosing, SkipLetters, Strip;
    var z1 := RStrip(z);
    FencedStrip(lead, lang, gap, a, z);
    AfterFence(lang + (gap + (a + z1)));
    FenceSkipped(lang, gap, a, z1);
    DropClosingKeeps(a, z1);
    StripKept(a, DropClosing(z1));
  }

  /** Fences and white space come off, the kept part stays. */
  lemma StripFencesKeeps(lead: string, w: Wrapper, a: string, z: string)
    requires AllSpaces(lead) && WrapperOk(w) && Kept(a)
    ensures StripFences(lead + (OpeningText(w) + (a + z))) == a + StripTail(w, z)
  {
    hide StripFences;
    if w.Bare? {
      assert [] + (a + z) == a + z;
      BareKeeps(lead, a, z);
    } else {
      FencedKeeps(lead, w.lang, w.gap, a, z);
    }
  }

  // ------------------------------------------------------------------ the main results

  lemma {:induction false} LookupAppend(before: Members, m: Members, name: string)
    requires MembersOk(before) && MembersOk(m) && MembersOk(Append(before, m)) && Lookup(m, name).Some?
    ensures Lookup(Append(before, m), name) == Lookup(m, name)
  {
    if before.Member? {
      LookupAppend(before.rest, m, name);
    }
  }

  lemma {:induction false} LettersArePlain(ps: seq<Piece>, field: string)
    requires PiecesOk(ps) && AllLetters(field) && Raw(ps) == field
    ensures ps == Plains(field)
    decreases ps
  {
    if ps != [] {
      assert Raw(ps)[0] == RawPiece(ps[0])[0] == field[0];
      assert ps[0].Plain?;
      assert Raw(ps)[1..] == Raw(ps[1..]);
      LettersArePlain(ps[1..], field[1..]);
      assert ps == [ps[0]] + ps[1..];
    }
  }

  lemma DecodePlain(ps: seq<Piece>, field: string)
    requires PiecesOk(ps) && AllLetters(field) && Raw(ps) == field
    ensures Decode(ps) == CodePoints(field)
  {
    LettersArePlain(ps, field);
    DecodeOfPieces(field);
  }

  /** The untruncated reply: json.loads gives the object and the field is the literal's value. */
  lemma WholeReply(field: string, lead: string, w: Wrapper, f: Focus, closing: string)
    requires IsField(field) && f.Valid() && Decode(f.m.key) == CodePoints(field)
    requires AllSpaces(lead) && WrapperOk(w) && ClosingOk(w, closing)
    requires Lookup(f.m.rest, field) == None
    ensures Normalize(lead + (OpeningText(w) + (Text(f.Object(), []) + closing)), field)
         == Take(Decode(f.Literal()), if field == "summary" then 1000 else 5000)
  {
    hide Focus.Head, Text, StripFences, StripTail, Normalize, Loads, Decode, CodePoints;
    FocusText(f);
    var obj := f.Object();
    var text := Text(obj, []);
    KeptWhole(f);
    StripFencesKeeps(lead, w, text, closing);
    ClosingStripped(w, closing);
    assert text + [] == text;
    assert [] + text == text;
    assert IsDocument(text, obj, [], []);
    LoadsIs(text, obj, [], []);
    LookupAppend(f.before, f.m, field);
    ParsePath(lead + (OpeningText(w) + (text + closing)), field, text, obj);
  }

  /** Normalisation when the stripped text is a JSON object. */
  lemma ParsePath(raw: string, field: string, text: string, obj: Value)
    requires StripFences(raw) == text && Loads(text) == Some(obj) && obj.Obj? && Ok(obj)
    ensures Normalize(raw, field) == CoerceStr(Lookup(obj.mems, field), MaxLen(field))
  {
  }

  lemma {:induction false} TailCloses(mems: Members) returns (front: string)
    ensures MembersTail(mems, []) == front + ['}']
    decreases mems
  {
    if mems.NoMembers? {
      front := [];
      assert ['}'] + [] == [] + ['}'];
    } else {
      front := TailCloses(mems.rest);
      var q: string := ['}'];
      Assoc(mems.post, front, q);
      ColonAppends(mems.mid, mems.pre2, mems.v, mems.post + front, q);
      var c := ColonText(mems.mid, mems.pre2, mems.v, mems.post + front);
      QuotedAppends(mems.key, c, q);
      Assoc(mems.pre, Quoted(mems.key, c), q);
      Assoc([','], mems.pre + Quoted(mems.key, c), q);
      front := [','] + (mems.pre + Quoted(mems.key, c));
    }
  }

  lemma KeptWhole(f: Focus)
    requires f.Valid()
    ensures Kept(Text(f.Object(), []))
  {
    FocusText(f);
    var front := TailCloses(f.m.rest);
    Assoc(f.m.post, front, ['}']);
    HeadAppends(f, f.m.post + front, ['}']);
  }

  lemma {:induction false} FindFirst(s: string)
    requires s != [] && s[0] == '{'
    ensures Find(s, '{') == 0
  {
  }

  /** A proper prefix of the object is not parsed, not even between its first and last brace. */
  lemma CutIsNotParsed(raw: string, f: Focus, p: string, q: string)
    requires f.Valid() && StripFences(raw) == p && p != [] && p[0] == '{' && q != []
    requires p + q == Text(f.Object(), [])
    ensures ParseJson(raw) == None
  {
    hide StripFences, Text, Loads, RFind;
    FocusText(f);
    ProperPrefixIsNoDocument(f.Object(), p, q);
    FindFirst(p);
    var end := RFind(p, '}');
    if end > 0 {
      var p' := p[..end + 1];
      assert p' + (p[end + 1..] + q) == p + q;
      ProperPrefixIsNoDocument(f.Object(), p', p[end + 1..] + q);
      assert p[0..end + 1] == p';
    }
  }

  lemma LiteralLoads(ps: seq<Piece>)
    requires PiecesOk(ps)
    ensures Loads(['"'] + Raw(ps) + ['"']) == Some(Str(ps))
  {
    RawAppends(ps, [], ['"']);
    assert [] + ['"'] == ['"'] + [];
    assert ['"'] + Raw(ps) + ['"'] == Text(Str(ps), []);
    assert [] + Text(Str(ps), []) == Text(Str(ps), []);
    assert IsDocument(['"'] + Raw(ps) + ['"'], Str(ps), [], []);
    LoadsIs(['"'] + Raw(ps) + ['"'], Str(ps), [], []);
  }

  /** What the expression finds in a text, read as a string. */
  ghost function FieldIn(field: string, text: string): seq<nat> {
    match Search(field, text)
    case None => []
    case Some(r) => CoerceStr(Loads(['"'] + r + ['"']), MaxLen(field))
  }

  /** What salvage makes of a reply of which `kept` is left behind the literal. */
  ghost function Salvaged(field: string, f: Focus, kept: string): seq<nat>
    requires f.Valid()
  {
    PickedOk(field, f);
    if Picked(field, f).Some? then Take(Decode(Picked(field, f).value), MaxLen(field)) else FieldIn(field, kept)
  }

  lemma PickedOk(field: string, f: Focus)
    requires f.Valid()
    ensures Picked(field, f).Some? ==> PiecesOk(Picked(field, f).value)
  {
    HitOk(field, f.before);
  }

  /**
    Any reply cut off inside the object but after the literal: the field is the value of the first string, in document
    order, whose key ends in a quote and the field name - which is normally the field itself - or, when there is none
    up to the literal, of whatever is found in what is left behind it.
    */
  lemma CutReply(field: string, lead: string, w: Wrapper, f: Focus, cut: string)
    requires IsField(field) && f.Valid()
    requires AllSpaces(lead) && WrapperOk(w)
    requires cut < f.After()
    ensures Normalize(lead + (OpeningText(w) + f.Head(cut)), field) == Salvaged(field, f, StripTail(w, cut))
  {
    hide Focus.Head, Focus.After, StripFences, StripTail, Normalize, Search, Decode, HitMembers, Raw, OpeningText, Picked;
    PickedOk(field, f);
    var raw := lead + (OpeningText(w) + f.Head(cut));
    var kept := StripTail(w, cut);
    CutStripped(lead, w, f, cut);
    CutEndsValue(f, kept);
    SearchHead(field, f, kept);
    var q := f.After()[|kept|..];
    assert kept + q == f.After();
    CutUnparsed(raw, f, kept, q);
    SalvagePath(raw, field);
    if Picked(field, f).Some? {
      LiteralLoads(Picked(field, f).value);
    }
  }

  /** Normalisation when nothing parses. */
  lemma SalvagePath(raw: string, field: string)
    ensures var text := StripFences(raw);
            text != [] && text[0] == '{' && ParseJson(raw) == None ==> Normalize(raw, field) == FieldIn(field, text)
  {
    hide StripFences, ParseJson, Search, Loads, Decode;
  }

  lemma CutUnparsed(raw: string, f: Focus, kept: string, q: string)
    requires f.Valid() && StripFences(raw) == f.Head(kept) && kept + q == f.After() && q != []
    ensures ParseJson(raw) == None
    ensures f.Head(kept) != [] && f.Head(kept)[0] == '{'
  {
    var front := HeadEnds(f);
    HeadSplits(f, kept);
    HeadSplits(f, f.After());
    FocusText(f);
    Assoc(f.Head([]), kept, q);
    hide Focus.Head, Focus.After, Text, StripFences, ParseJson;
    CutIsNotParsed(raw, f, f.Head(kept), q);
  }

  lemma HeadSplits(f: Focus, x: string)
    requires f.Valid()
    ensures f.Head(x) == f.Head([]) + x
  {
    HeadAppends(f, [], x);
    assert [] + x == x;
  }

  /** Stripping a cut reply leaves a shorter cut, never one that ends before the literal. */
  lemma CutStripped(lead: string, w: Wrapper, f: Focus, cut: string)
    requires f.Valid() && AllSpaces(lead) && WrapperOk(w)
    ensures StripFences(lead + (OpeningText(w) + f.Head(cut))) == f.Head(StripTail(w, cut))
  {
    hide StripFences, StripTail;
    var front := HeadEnds(f);
    HeadSplits(f, cut);
    HeadSplits(f, StripTail(w, cut));
    StripFencesKeeps(lead, w, f.Head([]), cut);
  }

  lemma {:induction false} HitOk(field: string, mems: Members)
    requires MembersOk(mems)
    ensures HitMembers(field, mems).Some? ==> PiecesOk(HitMembers(field, mems).value)
    decreases mems
  {
    if mems.Member? {
      HitOk(field, mems.rest);
      ValueHitOk(field, mems.v);
    }
  }

  lemma {:induction false} ValueHitOk(field: string, v: Value)
    requires Ok(v)
    ensures FirstHit(field, v).Some? ==> PiecesOk(FirstHit(field, v).value)
    decreases v
  {
    match v {
      case Arr(_, items) => ItemsHitOk(field, items);
      case Obj(_, mems) => HitOk(field, mems);
      case _ =>
    }
  }

  lemma {:induction false} ItemsHitOk(field: string, items: Items)
    requires ItemsOk(items)
    ensures HitItems(field, items).Some? ==> PiecesOk(HitItems(field, items).value)
    decreases items
  {
    if items.Item? {
      ValueHitOk(field, items.v);
      ItemsHitOk(field, items.rest);
    }
  }

  /** The cut reply and the whole one give the same field. */
  ghost predicate Agree(field: string, lead: string, w: Wrapper, f: Focus, cut: string, closing: string)
    requires f.Valid()
  {
    Normalize(lead + (OpeningText(w) + f.Head(cut)), field)
    == Normalize(lead + (OpeningText(w) + (Text(f.Object(), []) + closing)), field)
  }

  /** The same reply with another string in the field. */
  function WithLiteral(f: Focus, ps: seq<Piece>): (g: Focus)
    requires f.Valid() && PiecesOk(ps)
    ensures g.Valid() && g.before == f.before && g.m.key == f.m.key && g.m.rest == f.m.rest
    ensures g.After() == f.After() && g.Literal() == ps
  {
    f.(m := f.m.(v := Str(ps)))
  }

  predicate PlainlyKeyed(field: string, f: Focus)
    requires f.Valid()
  {
    HitMembers(field, f.before) == None && Raw(f.m.key) == field
  }

  /** A key that reads as the field is matched only when it is spelled without escapes. */
  lemma KeyHitsIff(field: string, key: seq<Piece>)
    requires IsField(field) && PiecesOk(key) && Decode(key) == CodePoints(field)
    ensures KeyHits(field, key) <==> Raw(key) == field
  {
    NoQuoteInField(field);
    if InnerHit(field, key) {
      InnerHitQuotes(field, key);
      QuoteDecodes(key);
      assert false;
    }
  }

  lemma NoQuoteInField(field: string)
    requires IsField(field)
    ensures 34 !in CodePoints(field)
  {
    forall i | 0 <= i < |field| ensures CodePoints(field)[i] != 34
    {
      assert field[i] != '"';
    }
  }

  lemma {:induction false} InnerHitQuotes(field: string, ps: seq<Piece>)
    requires InnerHit(field, ps)
    ensures Esc('"') in ps
    decreases ps
  {
    if ps[0] != Esc('"') {
      InnerHitQuotes(field, ps[1..]);
    }
  }

  lemma {:induction false} QuoteDecodes(ps: seq<Piece>)
    requires PiecesOk(ps) && Esc('"') in ps
    ensures 34 in Decode(ps)
    decreases ps
  {
    if ps[0] != Esc('"') {
      assert Esc('"') in ps[1..];
      if |ps| >= 2 && ps[0].Hex? && ps[1].Hex? {
        assert Esc('"') in ps[2..];
        QuoteDecodes(ps[2..]);
      }
      QuoteDecodes(ps[1..]);
    } else {
      assert Decode(ps)[0] == 34;
    }
  }

  /** One reply: the two agree exactly when what salvage reads is what the field holds. */
  lemma SalvageReads(field: string, lead: string, w: Wrapper, f: Focus, cut: string, closing: string)
    requires IsField(field) && f.Valid() && Decode(f.m.key) == CodePoints(field)
    requires AllSpaces(lead) && WrapperOk(w) && ClosingOk(w, closing)
    requires Lookup(f.m.rest, field) == None
    requires cut < f.After()
    ensures Agree(field, lead, w, f, cut, closing)
       <==> Salvaged(field, f, StripTail(w, cut)) == Take(Decode(f.Literal()), MaxLen(field))
  {
    hide Normalize, Salvaged, Decode, Text, Focus.Head;
    CutReply(field, lead, w, f, cut);
    WholeReply(field, lead, w, f, closing);
  }

  /**
    Salvage agrees with the full parse whatever string the field holds exactly when the field's key is spelled without
    escapes and no earlier key, at any depth, is one the expression takes for it. This is for every wrapping and every
    cut after the literal.
    */
  lemma SalvageAgreesIff(field: string, lead: string, w: Wrapper, f: Focus, cut: string, closing: string)
    requires IsField(field) && f.Valid() && Decode(f.m.key) == CodePoints(field)
    requires AllSpaces(lead) && WrapperOk(w) && ClosingOk(w, closing)
    requires Lookup(f.m.rest, field) == None
    requires cut < f.After()
    ensures (forall ps :: PiecesOk(ps) ==> Agree(field, lead, w, WithLiteral(f, ps), cut, closing)) <==> PlainlyKeyed(field, f)
  {
    var kept := StripTail(w, cut);
    KeyHitsIff(field, f.m.key);
    hide Agree, Focus.Head, Focus.After, StripTail, Decode, HitMembers, KeyHits;
    if PlainlyKeyed(field, f) {
      forall ps | PiecesOk(ps) ensures Agree(field, lead, w, WithLiteral(f, ps), cut, closing)
      {
        SalvageReads(field, lead, w, WithLiteral(f, ps), cut, closing);
      }
    } else {
      var a: seq<Piece>, b := [], [Plain('x')];
      SalvageReads(field, lead, w, WithLiteral(f, a), cut, closing);
      SalvageReads(field, lead, w, WithLiteral(f, b), cut, closing);
      assert Salvaged(field, WithLiteral(f, a), kept) == Salvaged(field, WithLiteral(f, b), kept);
      EmptyAndNot();
    }
  }

  lemma EmptyAndNot()
    ensures PiecesOk([]) && PiecesOk([Plain('x')]) && Decode([]) == [] && |Decode([Plain('x')])| == 1
  {
    assert [Plain('x')][1..] == [];
  }

  // ------------------------------------------------------------------ replies that follow the schema

  /** No key, at any depth, holds an escaped quote or is the field. */
  predicate Avoids(field: string, v: Value) {
    match v
    case Atom(_) => true
    case Str(_) => true
    case Arr(_, items) => ItemsAvoid(field, items)
    case Obj(_, mems) => MembersAvoid(field, mems)
  }

  predicate ItemsAvoid(field: string, items: Items) {
    items.Item? ==> Avoids(field, items.v) && ItemsAvoid(field, items.rest)
  }

  predicate MembersAvoid(field: string, mems: Members) {
    mems.Member? ==>
      Esc('"') !in mems.key && Raw(mems.key) != field && Avoids(field, mems.v) && MembersAvoid(field, mems.rest)
  }

  lemma {:induction false} AvoidsHasNoHit(field: string, v: Value)
    requires Avoids(field, v)
    ensures FirstHit(field, v) == None
    decreases v
  {
    match v {
      case Arr(_, items) => ItemsAvoidNoHit(field, items);
      case Obj(_, mems) => MembersAvoidNoHit(field, mems);
      case _ =>
    }
  }

  lemma {:induction false} ItemsAvoidNoHit(field: string, items: Items)
    requires ItemsAvoid(field, items)
    ensures HitItems(field, items) == None
    decreases items
  {
    if items.Item? {
      AvoidsHasNoHit(field, items.v);
      ItemsAvoidNoHit(field, items.rest);
    }
  }

  lemma {:induction false} MembersAvoidNoHit(field: string, mems: Members)
    requires MembersAvoid(field, mems)
    ensures HitMembers(field, mems) == None
    decreases mems
  {
    if mems.Member? {
      if InnerHit(field, mems.key) {
        InnerHitQuotes(field, mems.key);
        assert false;
      }
      AvoidsHasNoHit(field, mems.v);
      MembersAvoidNoHit(field, mems.rest);
    }
  }

  /**
    The promise for replies that keep to the schema: cut anywhere after the literal, fenced or not, with any string
    contents - quotes, braces and look-alike keys inside strings included - the field survives. Other keys may be
    spelled with escapes; that the field's own must not be is SalvageAgreesIff.
    */
  lemma SalvageAgreesOnSchema(field: string, lead: string, w: Wrapper, f: Focus, cut: string, closing: string)
    requires IsField(field) && f.Valid() && Raw(f.m.key) == field
    requires AllSpaces(lead) && WrapperOk(w) && ClosingOk(w, closing)
    requires MembersAvoid(field, f.before) && Lookup(f.m.rest, field) == None
    requires cut < f.After()
    ensures Normalize(lead + (OpeningText(w) + f.Head(cut)), field)
         == Normalize(lead + (OpeningText(w) + (Text(f.Object(), []) + closing)), field)
  {
    DecodePlain(f.m.key, field);
    MembersAvoidNoHit(field, f.before);
    hide Normalize, Focus.Head, Text, Decode, StripTail;
    SalvageReads(field, lead, w, f, cut, closing);
  }

  // ------------------------------------------------------------------ other replies

  lemma ObjectKept(obj: Value)
    requires obj.Obj?
    ensures Kept(Text(obj, [])) && |Text(obj, [])| >= 2 && Text(obj, [])[|Text(obj, [])| - 1] == '}'
  {
    var text := Text(obj, []);
    if obj.mems.NoMembers? {
      assert text[|text| - 1] == '}';
    } else {
      var front := TailCloses(obj.mems);
      var body := MembersText(obj.mems, []);
      assert ([','] + body)[|body|] == '}' && |front| == |body|;
      assert |body| > 0 by {
        MembersNotEmpty(obj.mems);
      }
      assert text == ['{'] + body;
    }
  }

  lemma MembersNotEmpty(mems: Members)
    requires mems.Member?
    ensures |MembersText(mems, [])| > 0
  {
  }

  /** The value of a field as the answer carries it: a string's, cut at the field's limit; nothing for anything else. */
  ghost function FieldOf(v: Option<Value>, field: string): seq<nat>
    requires v.Some? ==> Ok(v.value)
  {
    if v.Some? && v.value.Str? then Take(Decode(v.value.ps), if field == "summary" then 1000 else 5000) else []
  }

  /** Any object, fenced or not: a field that is a string gives its value, one that is missing or no string is empty. */
  lemma ObjectReply(field: string, lead: string, w: Wrapper, obj: Value, closing: string)
    requires obj.Obj? && Ok(obj) && AllSpaces(lead) && WrapperOk(w) && ClosingOk(w, closing)
    ensures Normalize(lead + (OpeningText(w) + (Text(obj, []) + closing)), field) == FieldOf(Lookup(obj.mems, field), field)
  {
    hide Text, StripFences, StripTail, Normalize, Loads, Decode, CodePoints, Lookup;
    var text := Text(obj, []);
    ObjectKept(obj);
    StripFencesKeeps(lead, w, text, closing);
    ClosingStripped(w, closing);
    assert text + [] == text && [] + text == text;
    assert IsDocument(text, obj, [], []);
    LoadsIs(text, obj, [], []);
    ParsePath(lead + (OpeningText(w) + (text + closing)), field, text, obj);
  }

  lemma {:induction false} FindBehind(pre: string, rest: string, c: char)
    requires c !in pre && rest != [] && rest[0] == c
    ensures Find(pre + rest, c) == |pre|
  {
    if pre == [] {
      assert pre + rest == rest;
    } else {
      assert (pre + rest)[0] == pre[0] && (pre + rest)[1..] == pre[1..] + rest;
      FindBehind(pre[1..], rest, c);
    }
  }

  lemma {:induction false} RFindBefore(front: string, post: string, c: char)
    requires c !in post && front != [] && front[|front| - 1] == c
    ensures RFind(front + post, c) == |front| - 1
  {
    var s := front + post;
    if post == [] {
      assert s == front;
    } else {
      assert s[|s| - 1] == post[|post| - 1] && s[..|s| - 1] == front + post[..|post| - 1];
      RFindBefore(front, post[..|post| - 1], c);
    }
  }

  lemma NothingToStrip(s: string)
    requires s != [] && !IsSpace(s[0]) && !IsSpace(s[|s| - 1]) && s[0] != '`'
    ensures StripFences(s) == s
  {
    assert FENCE[0] == '`';
    assert LStrip(s) == s && RStrip(s) == s;
  }

  /** An object in the middle of prose that does not parse as a whole gives its fields all the same. */
  lemma EmbeddedReply(field: string, pre: string, obj: Value, post: string)
    requires obj.Obj? && Ok(obj) && pre != [] && !IsSpace(pre[0]) && pre[0] != '`' && '{' !in pre
    requires '}' !in post && (post != [] ==> !IsSpace(post[|post| - 1]))
    requires Loads(pre + (Text(obj, []) + post)) == None
    ensures Normalize(pre + (Text(obj, []) + post), field) == FieldOf(Lookup(obj.mems, field), field)
  {
    hide *;
    var text := Text(obj, []);
    var raw := pre + (text + post);
    ObjectKept(obj);
    KeptEnds(text);
    LastChar(pre, text, post);
    NothingToStrip(raw);
    FindBehind(pre, text + post, '{');
    RFindBefore(pre + text, post, '}');
    MiddleOf(pre, text, post);
    ObjectLoads(obj);
    EmbeddedPath(raw, field, |pre|, |pre| + |text| - 1, obj);
  }

  lemma KeptEnds(a: string)
    requires Kept(a)
    ensures a != [] && a[0] == '{' && !IsSpace(a[|a| - 1])
  {
  }

  lemma LastChar(pre: string, text: string, post: string)
    requires pre != [] && text != []
    ensures var raw := pre + (text + post);
            && raw != [] && raw[0] == pre[0] && (text + post)[0] == text[0] && (pre + text)[|pre + text| - 1] == text[|text| - 1]
            && raw[|raw| - 1] == if post == [] then text[|text| - 1] else post[|post| - 1]
  {
  }

  lemma MiddleOf(pre: string, text: string, post: string)
    ensures (pre + text) + post == pre + (text + post) && (pre + (text + post))[|pre|..|pre| + |text|] == text
  {
  }

  lemma ObjectLoads(obj: Value)
    requires Ok(obj)
    ensures Loads(Text(obj, [])) == Some(obj)
  {
    hide Text;
    assert [] + Text(obj, []) == Text(obj, []);
    assert IsDocument(Text(obj, []), obj, [], []);
    LoadsIs(Text(obj, []), obj, [], []);
  }

  lemma EmbeddedPath(raw: string, field: string, i: int, j: int, obj: Value)
    requires StripFences(raw) == raw && Loads(raw) == None && Find(raw, '{') == i && RFind(raw, '}') == j
    requires 0 <= i < j < |raw| && Loads(raw[i..j + 1]) == Some(obj) && obj.Obj? && Ok(obj)
    ensures Normalize(raw, field) == FieldOf(Lookup(obj.mems, field), field)
  {
    hide StripFences, Loads, Find, RFind, Lookup, Decode, SalvageField, FieldOf, CoerceStr;
    assert ParseJson(raw) == Some(obj);
    hide ParseJson;
    SameField(Lookup(obj.mems, field), field);
  }

  lemma SameField(v: Option<Value>, field: string)
    requires v.Some? ==> Ok(v.value)
    ensures CoerceStr(v, MaxLen(field)) == FieldOf(v, field)
  {
    hide Decode;
  }

  lemma NoBraceNoObject(text: string)
    requires '{' !in text
    ensures Loads(text).Some? ==> !Loads(text).value.Obj?
  {
    hide Text;
    if IsJson(text) {
      var (v, pre, post) := Reading(text);
      FirstChar(v, post);
      assert text[|pre|] == Text(v, post)[0];
    }
  }

  /** JSON that is no object - a list, a string, a number - is taken for prose too, objects inside it or not. */
  lemma OtherJsonReply(raw: string)
    requires raw != [] && !IsSpace(raw[0]) && !IsSpace(raw[|raw| - 1]) && raw[0] != '`'
    requires Loads(raw).Some? && !Loads(raw).value.Obj?
    ensures Normalize(raw, "summary") == Take(CodePoints(raw), 1000) && Normalize(raw, "explanation") == []
  {
    NothingToStrip(raw);
    NoBraceFirst(raw);
    hide StripFences, Loads, CodePoints, Search, Find;
  }

  lemma NoBraceFirst(text: string)
    requires text != [] && !IsSpace(text[0]) && Loads(text).Some? && !Loads(text).value.Obj?
    ensures text[0] != '{'
  {
    hide Text;
    var (v, pre, post) := Reading(text);
    FirstChar(v, post);
    WsIsSpace(pre);
    LStripPrefix(pre, Text(v, post));
    assert LStrip(text) == text && |LStrip(Text(v, post))| <= |Text(v, post)|;
    assert |pre| == 0 && pre + Text(v, post) == Text(v, post);
  }

  lemma {:induction false} FindNone(s: string, c: char)
    requires c !in s
    ensures Find(s, c) == -1
  {
    if s != [] {
      FindNone(s[1..], c);
    }
  }

  /** A reply without a brace is prose: its first 1000 characters are the summary, and there is no explanation. */
  lemma ProseReply(raw: string)
    requires raw != [] && !IsSpace(raw[0]) && !IsSpace(raw[|raw| - 1]) && raw[0] != '`' && '{' !in raw
    ensures Normalize(raw, "summary") == Take(CodePoints(raw), 1000) && Normalize(raw, "explanation") == []
  {
    NothingToStrip(raw);
    NoBraceNoObject(raw);
    FindNone(raw, '{');
    hide StripFences, Loads, CodePoints, Search, Find;
  }

  // ------------------------------------------------------------------ the two ways to fail

  function Plains(s: string): seq<Piece> {
    seq(|s|, i requires 0 <= i < |s| => Plain(s[i]))
  }

  /** {"a\"summary":"evil","summary":"good"}, seen from its last member. */
  function LookAlike(): (f: Focus)
    ensures f.Valid() && f.After() == "}"
  {
    PlainPiecesOk("a");
    PlainPiecesOk("summary");
    PlainPiecesOk("evil");
    PlainPiecesOk("good");
    Focus(Member([], Plains("a") + ([Esc('"')] + Plains("summary")), [], [], Str(Plains("evil")), [], NoMembers),
          Member([], Plains("summary"), [], [], Str(Plains("good")), [], NoMembers))
  }

  /** A key that ends in a quote and the field name is mistaken for it: cut before its last brace, the reply is salvaged as "evil". */
  lemma LookAlikeKeyWins()
    ensures Normalize(LookAlike().Head([]), "summary") != Normalize(Text(LookAlike().Object(), []), "summary")
  {
    hide Normalize, Text, Decode, HitMembers;
    var f := LookAlike();
    RawOfPieces("summary");
    DecodeOfPieces("summary");
    LookAlikeHits();
    SalvageReads("summary", [], Bare, f, [], []);
    assert [] + ([] + f.Head([])) == f.Head([]);
    assert [] + ([] + (Text(f.Object(), []) + [])) == Text(f.Object(), []);
    DecodeOfPieces("evil");
    DecodeOfPieces("good");
    assert CodePoints("evil")[0] != CodePoints("good")[0];
  }

  /** s\u0075mmary */
  function EscapedSummary(): (key: seq<Piece>)
    ensures PiecesOk(key)
  {
    PlainPiecesOk("mmary");
    [Plain('s')] + ([Hex("0075")] + Plains("mmary"))
  }

  /** {"s\u0075mmary":"good"} */
  function EscapedKey(): (f: Focus)
    ensures f.Valid() && f.After() == "}"
  {
    PlainPiecesOk("good");
    Focus(NoMembers, Member([], EscapedSummary(), [], [], Str(Plains("good")), [], NoMembers))
  }

  /** A key with an escape in second place. */
  lemma DecodeEscaped(c: char, h: string, rest: string)
    requires PieceOk(Plain(c)) && PieceOk(Hex(h)) && Unit(Hex(h)) < 0xD800 && PiecesOk(Plains(rest))
    ensures var key := [Plain(c)] + ([Hex(h)] + Plains(rest));
            && PiecesOk(key) && Decode(key) == [c as nat] + ([Unit(Hex(h))] + CodePoints(rest))
            && |Raw(key)| >= 2 && Raw(key)[1] == '\\'
  {
    DecodeOfPieces(rest);
    var tail := [Hex(h)] + Plains(rest);
    var key := [Plain(c)] + tail;
    assert tail[0] == Hex(h) && tail[1..] == Plains(rest);
    assert key[0] == Plain(c) && key[1..] == tail;
    assert Raw(key) == [c] + Raw(tail) && Raw(tail)[0] == '\\';
    hide Unit, Raw;
    assert Decode(tail) == [Unit(Hex(h))] + Decode(Plains(rest));
    assert Decode(key) == [Unit(Plain(c))] + Decode(tail);
  }

  lemma EscapedSummaryReads()
    ensures Decode(EscapedSummary()) == CodePoints("summary") && Raw(EscapedSummary()) != "summary"
  {
    PlainPiecesOk("mmary");
    assert Unit(Hex("0075")) == 'u' as nat;
    DecodeEscaped('s', "0075", "mmary");
    hide Decode, Raw, Plains, Unit;
    assert CodePoints("summary") == ['s' as nat] + (['u' as nat] + CodePoints("mmary"));
  }

  /** A field whose key is spelled with an escape is read from the whole reply and lost from the cut one. */
  lemma EscapedKeyIsLost()
    ensures Normalize(Text(EscapedKey().Object(), []), "summary") == CodePoints("good")
    ensures Normalize(EscapedKey().Head([]), "summary") == []
  {
    var f := EscapedKey();
    EscapedSummaryReads();
    KeyHitsIff("summary", f.m.key);
    DecodeOfPieces("good");
    hide Normalize, Text, Decode, EscapedSummary, Search;
    assert HitMembers("summary", f.before) == None;
    CutReply("summary", [], Bare, f, []);
    WholeReply("summary", [], Bare, f, []);
    assert [] + ([] + f.Head([])) == f.Head([]);
    assert [] + ([] + (Text(f.Object(), []) + [])) == Text(f.Object(), []);
    NothingInNothing("summary");
  }

  lemma NothingInNothing(field: string)
    ensures FieldIn(field, []) == []
  {
  }

  lemma LookAlikeHits()
    ensures HitMembers("summary", LookAlike().before) == Some(Plains("evil"))
  {
    RawOfPieces("summary");
    var tail := [Esc('"')] + Plains("summary");
    var key := Plains("a") + tail;
    assert key[1..] == tail && tail[1..] == Plains("summary") && tail[0] == Esc('"');
    assert InnerHit("summary", tail);
  }

  lemma PlainPiecesOk(s: string)
    requires forall i :: 0 <= i < |s| ==> s[i] >= ' ' && s[i] != '"' && s[i] != '\\'
    ensures PiecesOk(Plains(s))
  {
  }

  lemma {:induction false} RawOfPieces(s: string)
    ensures Raw(Plains(s)) == s
  {
    if s != [] {
      RawOfPieces(s[1..]);
      assert Plains(s)[1..] == Plains(s[1..]);
    }
  }

  lemma {:induction false} DecodeOfPieces(s: string)
    requires PiecesOk(Plains(s))
    ensures Decode(Plains(s)) == CodePoints(s)
  {
    if s != [] {
      assert Plains(s)[1..] == Plains(s[1..]);
      DecodeOfPieces(s[1..]);
      assert CodePoints(s) == [s[0] as int] + CodePoints(s[1..]);
    }
  }
}
