/**
  JSON texts (RFC 8259) as concrete syntax trees: rendering, unambiguity, and json.loads defined by them.
  Rendering is in continuation style, Text(v, k) being the text of v followed by k.
  */
module Json {
  import opened Decimal
  import opened Wrappers

  // ------------------------------------------------------------------ lexical parts

  predicate IsWs(c: char) {
    c == ' ' || c == '\t' || c == '\n' || c == '\r'
  }

  predicate AllWs(s: string) {
    forall i :: 0 <= i < |s| ==> IsWs(s[i])
  }

  predicate IsHex(c: char) {
    '0' <= c <= '9' || 'a' <= c <= 'f' || 'A' <= c <= 'F'
  }

  /** One character of a string literal: itself, a short escape, or \uXXXX. */
  datatype Piece = Plain(c: char) | Esc(c: char) | Hex(h: string)

  predicate PieceOk(p: Piece) {
    match p
    case Plain(c) => c != '"' && c != '\\' && c >= ' '
    case Esc(c) => c in "\"\\/bfnrt"
    case Hex(h) => |h| == 4 && forall i :: 0 <= i < 4 ==> IsHex(h[i])
  }

  predicate PiecesOk(ps: seq<Piece>) {
    forall i :: 0 <= i < |ps| ==> PieceOk(ps[i])
  }

  function RawPiece(p: Piece): string {
    match p
    case Plain(c) => [c]
    case Esc(c) => ['\\', c]
    case Hex(h) => ['\\', 'u'] + h
  }

  /** The literal without its quotes, followed by k. */
  function RawTo(ps: seq<Piece>, k: string): string {
    if ps == [] then k else RawPiece(ps[0]) + RawTo(ps[1..], k)
  }

  function Raw(ps: seq<Piece>): string {
    RawTo(ps, [])
  }

  function Quoted(ps: seq<Piece>, k: string): string {
    ['"'] + RawTo(ps, ['"'] + k)
  }

  predicate IsAtomChar(c: char) {
    '0' <= c <= '9' || 'a' <= c <= 'z' || 'A' <= c <= 'Z' || c == '+' || c == '-' || c == '.'
  }

  predicate IsExponent(s: string) {
    s == [] ||
    ((s[0] == 'e' || s[0] == 'E') &&
     var t := if |s| > 1 && (s[1] == '+' || s[1] == '-') then s[2..] else s[1..];
     t != [] && DigitRun(t) == |t|)
  }

  predicate IsFraction(s: string) {
    if s != [] && s[0] == '.' then DigitRun(s[1..]) >= 1 && IsExponent(s[1 + DigitRun(s[1..])..])
    else IsExponent(s)
  }

  predicate IsNumber(s: string) {
    var t := if s != [] && s[0] == '-' then s[1..] else s;
    var n := DigitRun(t);
    n >= 1 && (t[0] == '0' ==> n == 1) && IsFraction(t[n..])
  }

  /** Numbers and words; Python also reads NaN and the infinities. */
  predicate IsAtom(s: string) {
    s in {"true", "false", "null", "NaN", "Infinity", "-Infinity"} || IsNumber(s)
  }

  // ------------------------------------------------------------------ trees

  datatype Value =
    | Atom(text: string)
    | Str(ps: seq<Piece>)
    | Arr(pad: string, items: Items)
    | Obj(pad: string, mems: Members)

  /** `pre` and `post` are the white space around an element, `mid` and `pre2` that around the colon. */
  datatype Items = NoItems | Item(pre: string, v: Value, post: string, rest: Items)

  datatype Members =
    | NoMembers
    | Member(pre: string, key: seq<Piece>, mid: string, pre2: string, v: Value, post: string, rest: Members)

  predicate Ok(v: Value) {
    match v
    case Atom(t) => IsAtom(t)
    case Str(ps) => PiecesOk(ps)
    case Arr(pad, items) => AllWs(pad) && (items.Item? ==> pad == []) && ItemsOk(items)
    case Obj(pad, mems) => AllWs(pad) && (mems.Member? ==> pad == []) && MembersOk(mems)
  }

  predicate ItemsOk(items: Items) {
    match items
    case NoItems => true
    case Item(pre, v, post, rest) => AllWs(pre) && Ok(v) && AllWs(post) && ItemsOk(rest)
  }

  predicate MembersOk(mems: Members) {
    match mems
    case NoMembers => true
    case Member(pre, key, mid, pre2, v, post, rest) =>
      AllWs(pre) && PiecesOk(key) && AllWs(mid) && AllWs(pre2) && Ok(v) && AllWs(post) && MembersOk(rest)
  }

  function Text(v: Value, k: string): string
    decreases v, 0
  {
    match v
    case Atom(t) => t + k
    case Str(ps) => Quoted(ps, k)
    case Arr(pad, items) => ['['] + (if items.NoItems? then pad + ([']'] + k) else ItemsText(items, k))
    case Obj(pad, mems) => ['{'] + (if mems.NoMembers? then pad + (['}'] + k) else MembersText(mems, k))
  }

  function ItemsText(items: Items, k: string): string
    requires items.Item?
    decreases items, 1
  {
    items.pre + Text(items.v, items.post + ItemsTail(items.rest, k))
  }

  function ItemsTail(items: Items, k: string): string
    decreases items, 2
  {
    if items.NoItems? then [']'] + k else [','] + ItemsText(items, k)
  }

  /** A colon, the value, and whatever follows. */
  function ColonText(mid: string, pre2: string, v: Value, k: string): string
    decreases v, 1
  {
    mid + ([':'] + (pre2 + Text(v, k)))
  }

  function MembersText(mems: Members, k: string): string
    requires mems.Member?
    decreases mems, 1
  {
    mems.pre + Quoted(mems.key, ColonText(mems.mid, mems.pre2, mems.v, mems.post + MembersTail(mems.rest, k)))
  }

  function MembersTail(mems: Members, k: string): string
    decreases mems, 2
  {
    if mems.NoMembers? then ['}'] + k else [','] + MembersText(mems, k)
  }

  // ------------------------------------------------------------------ unambiguity

  /** What may follow a value so that a number or word ends where it should. */
  predicate Stops(v: Value, k: string) {
    v.Atom? && k != [] ==> !IsAtomChar(k[0])
  }

  lemma {:induction false} DigitsAreAtomChars(s: string)
    requires DigitRun(s) == |s|
    ensures forall i :: 0 <= i < |s| ==> IsAtomChar(s[i])
  {
  }

  lemma ExponentChars(s: string)
    requires IsExponent(s)
    ensures forall i :: 0 <= i < |s| ==> IsAtomChar(s[i])
  {
    if s != [] {
      var signed := |s| > 1 && (s[1] == '+' || s[1] == '-');
      var t := if signed then s[2..] else s[1..];
      DigitsAreAtomChars(t);
      assert s == (if signed then s[..2] else s[..1]) + t;
    }
  }

  lemma FractionChars(s: string)
    requires IsFraction(s)
    ensures forall i :: 0 <= i < |s| ==> IsAtomChar(s[i])
  {
    if s != [] && s[0] == '.' {
      var m := DigitRun(s[1..]);
      ExponentChars(s[1 + m..]);
      hide IsExponent, DigitRun, IsFraction;
      forall i | 0 <= i < |s| ensures IsAtomChar(s[i])
      {
        if 1 <= i < 1 + m {
          assert s[i] == s[1..][i - 1];
        } else if 1 + m <= i {
          assert s[i] == s[1 + m..][i - 1 - m];
        }
      }
    } else {
      ExponentChars(s);
    }
  }

  lemma NumberChars(s: string)
    requires IsNumber(s)
    ensures s != [] && forall i :: 0 <= i < |s| ==> IsAtomChar(s[i])
  {
    hide IsFraction;
    var t := if s != [] && s[0] == '-' then s[1..] else s;
    var n := DigitRun(t);
    FractionChars(t[n..]);
    assert forall i :: 0 <= i < |t| ==> t[i] == if i < n then t[i] else t[n..][i - n];
    forall i | 0 <= i < |s| ensures IsAtomChar(s[i])
    {
      if t != s && i > 0 {
        assert s[i] == t[i - 1];
      }
    }
  }

  lemma AtomChars(s: string)
    requires IsAtom(s)
    ensures s != [] && forall i :: 0 <= i < |s| ==> IsAtomChar(s[i])
  {
    if IsNumber(s) {
      NumberChars(s);
    }
  }

  /** The first character tells the kind of value and is never white space. */
  lemma FirstChar(v: Value, k: string)
    requires Ok(v)
    ensures Text(v, k) != []
    ensures var c := Text(v, k)[0];
            && !IsWs(c) && c != ',' && c != ']' && c != '}' && c != ':'
            && (v.Atom? <==> IsAtomChar(c)) && (v.Str? <==> c == '"') && (v.Arr? <==> c == '[') && (v.Obj? <==> c == '{')
  {
    if v.Atom? {
      AtomChars(v.text);
    }
  }

  lemma {:induction false} UniqueWs(a: string, x: string, b: string, y: string)
    requires AllWs(a) && AllWs(b) && x != [] && y != [] && !IsWs(x[0]) && !IsWs(y[0])
    requires a + x == b + y
    ensures a == b && x == y
  {
    if a == [] || b == [] {
      assert (a + x)[0] == (b + y)[0];
      assert a == [] ==> a + x == x;
      assert b == [] ==> b + y == y;
    } else {
      assert (a + x)[0] == a[0] && (b + y)[0] == b[0];
      assert (a + x)[1..] == a[1..] + x && (b + y)[1..] == b[1..] + y;
      UniqueWs(a[1..], x, b[1..], y);
      assert a == [a[0]] + a[1..] && b == [b[0]] + b[1..];
    }
  }

  lemma {:induction false} UniqueAtom(a: string, x: string, b: string, y: string)
    requires forall i :: 0 <= i < |a| ==> IsAtomChar(a[i])
    requires forall i :: 0 <= i < |b| ==> IsAtomChar(b[i])
    requires (x != [] ==> !IsAtomChar(x[0])) && (y != [] ==> !IsAtomChar(y[0]))
    requires a + x == b + y
    ensures a == b && x == y
  {
    if a == [] || b == [] {
      assert a == [] ==> a + x == x;
      assert b == [] ==> b + y == y;
      assert a + x != [] ==> (a + x)[0] == (b + y)[0];
    } else {
      assert (a + x)[0] == a[0] && (b + y)[0] == b[0];
      assert (a + x)[1..] == a[1..] + x && (b + y)[1..] == b[1..] + y;
      UniqueAtom(a[1..], x, b[1..], y);
      assert a == [a[0]] + a[1..] && b == [b[0]] + b[1..];
    }
  }

  lemma UniquePiece(p: Piece, x: string, q: Piece, y: string)
    requires PieceOk(p) && PieceOk(q) && RawPiece(p) + x == RawPiece(q) + y
    ensures p == q && x == y
  {
    var s, t := RawPiece(p) + x, RawPiece(q) + y;
    assert s[0] == RawPiece(p)[0] && t[0] == RawPiece(q)[0];
    if p.Plain? {
      assert s[1..] == x && t[1..] == y;
    } else {
      assert s[1] == RawPiece(p)[1] && t[1] == RawPiece(q)[1];
      if p.Esc? {
        assert s[2..] == x && t[2..] == y;
      } else {
        assert s[2..6] == p.h && t[2..6] == q.h;
        assert s[6..] == x && t[6..] == y;
      }
    }
  }

  lemma {:induction false} UniqueRaw(p: seq<Piece>, x: string, q: seq<Piece>, y: string)
    requires PiecesOk(p) && PiecesOk(q)
    requires RawTo(p, ['"'] + x) == RawTo(q, ['"'] + y)
    ensures p == q && x == y
    decreases p
  {
    if p == [] || q == [] {
      if p == [] && q == [] {
        assert (['"'] + x)[1..] == (['"'] + y)[1..];
      } else if p == [] {
        assert (RawPiece(q[0]) + RawTo(q[1..], ['"'] + y))[0] == RawPiece(q[0])[0];
        assert false;
      } else {
        assert (RawPiece(p[0]) + RawTo(p[1..], ['"'] + x))[0] == RawPiece(p[0])[0];
        assert false;
      }
    } else {
      UniquePiece(p[0], RawTo(p[1..], ['"'] + x), q[0], RawTo(q[1..], ['"'] + y));
      UniqueRaw(p[1..], x, q[1..], y);
      assert p == [p[0]] + p[1..] && q == [q[0]] + q[1..];
    }
  }

  lemma UniqueQuoted(p: seq<Piece>, x: string, q: seq<Piece>, y: string)
    requires PiecesOk(p) && PiecesOk(q) && Quoted(p, x) == Quoted(q, y)
    ensures p == q && x == y
  {
    assert Quoted(p, x)[1..] == RawTo(p, ['"'] + x) && Quoted(q, y)[1..] == RawTo(q, ['"'] + y);
    UniqueRaw(p, x, q, y);
  }

  lemma Behead(c: char, s: string, d: char, t: string)
    requires [c] + s == [d] + t
    ensures c == d && s == t
  {
    assert ([c] + s)[0] == c && ([d] + t)[0] == d;
    assert ([c] + s)[1..] == s && ([d] + t)[1..] == t;
  }

  /** A text has one reading: the tree and what follows it are determined. */
  lemma {:induction false} UniqueValue(v: Value, x: string, w: Value, y: string)
    requires Ok(v) && Ok(w) && Stops(v, x) && Stops(w, y)
    requires Text(v, x) == Text(w, y)
    ensures v == w && x == y
    decreases v, 0
  {
    FirstChar(v, x);
    FirstChar(w, y);
    match v {
      case Atom(t) =>
        AtomChars(t);
        AtomChars(w.text);
        UniqueAtom(t, x, w.text, y);
      case Str(ps) =>
        UniqueQuoted(ps, x, w.ps, y);
      case Arr(pad, items) =>
        UniqueItemsBody(pad, items, x, w.pad, w.items, y);
      case Obj(pad, mems) =>
        UniqueMembersBody(pad, mems, x, w.pad, w.mems, y);
    }
  }

  function ItemsBody(pad: string, items: Items, k: string): string {
    if items.NoItems? then pad + ([']'] + k) else ItemsText(items, k)
  }

  lemma {:induction false} UniqueItemsBody(pad: string, items: Items, x: string, pad': string, items': Items, y: string)
    requires Ok(Arr(pad, items)) && Ok(Arr(pad', items'))
    requires Text(Arr(pad, items), x) == Text(Arr(pad', items'), y)
    ensures pad == pad' && items == items' && x == y
    decreases items, 2
  {
    Behead('[', ItemsBody(pad, items, x), '[', ItemsBody(pad', items', y));
    if items.Item? {
      var s := Text(items.v, items.post + ItemsTail(items.rest, x));
      FirstChar(items.v, items.post + ItemsTail(items.rest, x));
      if items'.NoItems? {
        UniqueWs(items.pre, s, pad', [']'] + y);
        assert false;
      } else {
        UniqueItems(items, x, items', y);
      }
    } else if items'.Item? {
      FirstChar(items'.v, items'.post + ItemsTail(items'.rest, y));
      UniqueWs(pad, [']'] + x, items'.pre, Text(items'.v, items'.post + ItemsTail(items'.rest, y)));
      assert false;
    } else {
      UniqueWs(pad, [']'] + x, pad', [']'] + y);
      Behead(']', x, ']', y);
    }
  }

  lemma {:induction false} UniqueItems(items: Items, x: string, items': Items, y: string)
    requires items.Item? && items'.Item? && ItemsOk(items) && ItemsOk(items')
    requires ItemsText(items, x) == ItemsText(items', y)
    ensures items == items' && x == y
    decreases items, 1
  {
    var k, k' := items.post + ItemsTail(items.rest, x), items'.post + ItemsTail(items'.rest, y);
    FirstChar(items.v, k);
    FirstChar(items'.v, k');
    UniqueWs(items.pre, Text(items.v, k), items'.pre, Text(items'.v, k'));
    TailStops(items.post, ItemsTail(items.rest, x));
    TailStops(items'.post, ItemsTail(items'.rest, y));
    UniqueValue(items.v, k, items'.v, k');
    UniqueWs(items.post, ItemsTail(items.rest, x), items'.post, ItemsTail(items'.rest, y));
    if items.rest.NoItems? || items'.rest.NoItems? {
      assert ItemsTail(items.rest, x)[0] == ItemsTail(items'.rest, y)[0];
      Behead(']', x, ']', y);
    } else {
      Behead(',', ItemsText(items.rest, x), ',', ItemsText(items'.rest, y));
      UniqueItems(items.rest, x, items'.rest, y);
    }
  }

  lemma TailStops(post: string, tail: string)
    requires AllWs(post) && tail != [] && !IsAtomChar(tail[0])
    ensures post + tail != [] && !IsAtomChar((post + tail)[0])
  {
    assert post == [] ==> post + tail == tail;
  }

  function MembersBody(pad: string, mems: Members, k: string): string {
    if mems.NoMembers? then pad + (['}'] + k) else MembersText(mems, k)
  }

  lemma {:induction false} UniqueMembersBody(pad: string, mems: Members, x: string, pad': string, mems': Members, y: string)
    requires Ok(Obj(pad, mems)) && Ok(Obj(pad', mems'))
    requires Text(Obj(pad, mems), x) == Text(Obj(pad', mems'), y)
    ensures pad == pad' && mems == mems' && x == y
    decreases mems, 2
  {
    Behead('{', MembersBody(pad, mems, x), '{', MembersBody(pad', mems', y));
    if mems.Member? {
      if mems'.NoMembers? {
        UniqueWs(mems.pre, MemberText(mems, x), pad', ['}'] + y);
        assert false;
      } else {
        UniqueMembers(mems, x, mems', y);
      }
    } else if mems'.Member? {
      UniqueWs(pad, ['}'] + x, mems'.pre, MemberText(mems', y));
      assert false;
    } else {
      UniqueWs(pad, ['}'] + x, pad', ['}'] + y);
      Behead('}', x, '}', y);
    }
  }

  function MemberText(mems: Members, k: string): string
    requires mems.Member?
  {
    Quoted(mems.key, ColonText(mems.mid, mems.pre2, mems.v, mems.post + MembersTail(mems.rest, k)))
  }

  lemma {:induction false} UniqueMembers(mems: Members, x: string, mems': Members, y: string)
    requires mems.Member? && mems'.Member? && MembersOk(mems) && MembersOk(mems')
    requires MembersText(mems, x) == MembersText(mems', y)
    ensures mems == mems' && x == y
    decreases mems, 1
  {
    var t, t' := MembersTail(mems.rest, x), MembersTail(mems'.rest, y);
    var k, k' := mems.post + t, mems'.post + t';
    UniqueWs(mems.pre, MemberText(mems, x), mems'.pre, MemberText(mems', y));
    UniqueQuoted(mems.key, ColonText(mems.mid, mems.pre2, mems.v, k), mems'.key, ColonText(mems'.mid, mems'.pre2, mems'.v, k'));
    UniqueWs(mems.mid, [':'] + (mems.pre2 + Text(mems.v, k)), mems'.mid, [':'] + (mems'.pre2 + Text(mems'.v, k')));
    Behead(':', mems.pre2 + Text(mems.v, k), ':', mems'.pre2 + Text(mems'.v, k'));
    FirstChar(mems.v, k);
    FirstChar(mems'.v, k');
    UniqueWs(mems.pre2, Text(mems.v, k), mems'.pre2, Text(mems'.v, k'));
    TailStops(mems.post, t);
    TailStops(mems'.post, t');
    UniqueValue(mems.v, k, mems'.v, k');
    UniqueWs(mems.post, t, mems'.post, t');
    if mems.rest.NoMembers? || mems'.rest.NoMembers? {
      assert t[0] == t'[0];
      Behead('}', x, '}', y);
    } else {
      Behead(',', MembersText(mems.rest, x), ',', MembersText(mems'.rest, y));
      UniqueMembers(mems.rest, x, mems'.rest, y);
    }
  }

  // ------------------------------------------------------------------ what literals denote

  function HexValue(c: char): (n: nat)
    requires IsHex(c)
    ensures n < 16
  {
    if '0' <= c <= '9' then c as int - '0' as int
    else if 'a' <= c <= 'f' then c as int - 'a' as int + 10
    else c as int - 'A' as int + 10
  }

  /** The code unit a piece stands for. */
  function Unit(p: Piece): nat
    requires PieceOk(p)
  {
    match p
    case Plain(c) => c as int
    case Esc(c) =>
      if c == 'b' then 8 else if c == 'f' then 12 else if c == 'n' then 10
      else if c == 'r' then 13 else if c == 't' then 9 else c as int
    case Hex(h) => 4096 * HexValue(h[0]) + 256 * HexValue(h[1]) + 16 * HexValue(h[2]) + HexValue(h[3])
  }

  /** Code points of a Python str: a surrogate escape pair is one, a lone surrogate stays. */
  function Decode(ps: seq<Piece>): seq<nat>
    requires PiecesOk(ps)
  {
    if ps == [] then []
    else if |ps| >= 2 && ps[0].Hex? && 0xD800 <= Unit(ps[0]) < 0xDC00 && ps[1].Hex? && 0xDC00 <= Unit(ps[1]) < 0xE000
    then [0x10000 + 1024 * (Unit(ps[0]) - 0xD800) + (Unit(ps[1]) - 0xDC00)] + Decode(ps[2..])
    else [Unit(ps[0])] + Decode(ps[1..])
  }

  function CodePoints(s: string): (r: seq<nat>)
    ensures |r| == |s| && forall i :: 0 <= i < |s| ==> r[i] == s[i] as nat
  {
    seq(|s|, i requires 0 <= i < |s| => s[i] as nat)
  }

  // ------------------------------------------------------------------ json.loads

  ghost predicate IsDocument(text: string, v: Value, pre: string, post: string) {
    AllWs(pre) && AllWs(post) && Ok(v) && text == pre + Text(v, post)
  }

  ghost predicate IsJson(text: string) {
    exists v, pre, post :: IsDocument(text, v, pre, post)
  }

  ghost function Reading(text: string): (r: (Value, string, string))
    requires IsJson(text)
    ensures IsDocument(text, r.0, r.1, r.2)
  {
    var v, pre, post :| IsDocument(text, v, pre, post);
    (v, pre, post)
  }

  /** The tree of a JSON text, white space around it ignored; None where json.loads raises. */
  ghost function Loads(text: string): (r: Option<Value>)
    ensures r.Some? ==> Ok(r.value)
  {
    if IsJson(text) then Some(Reading(text).0) else None
  }

  lemma WsStops(v: Value, post: string)
    requires AllWs(post)
    ensures Stops(v, post)
  {
  }

  /** json.loads is well defined: a text has at most one tree. */
  lemma LoadsIs(text: string, v: Value, pre: string, post: string)
    requires IsDocument(text, v, pre, post)
    ensures Loads(text) == Some(v)
  {
    var (w, pre', post') := Reading(text);
    FirstChar(v, post);
    FirstChar(w, post');
    UniqueWs(pre, Text(v, post), pre', Text(w, post'));
    WsStops(v, post);
    WsStops(w, post');
    UniqueValue(v, post, w, post');
  }

  lemma {:induction false} TextAppends(v: Value, k: string, q: string)
    ensures Text(v, k + q) == Text(v, k) + q
    decreases v, 0
  {
    hide ItemsText, MembersText, Quoted;
    match v {
      case Atom(t) => Assoc(t, k, q);
      case Str(ps) => QuotedAppends(ps, k, q);
      case Arr(pad, items) =>
        if items.Item? {
          ItemsAppend(items, k, q);
        } else {
          Assoc([']'], k, q);
          Assoc(pad, [']'] + k, q);
        }
      case Obj(pad, mems) =>
        if mems.Member? {
          MembersAppend(mems, k, q);
        } else {
          Assoc(['}'], k, q);
          Assoc(pad, ['}'] + k, q);
        }
    }
  }

  lemma {:induction false} RawAppends(ps: seq<Piece>, k: string, q: string)
    ensures RawTo(ps, k + q) == RawTo(ps, k) + q
    decreases ps
  {
    if ps != [] {
      RawAppends(ps[1..], k, q);
      hide RawPiece;
      Assoc(RawPiece(ps[0]), RawTo(ps[1..], k), q);
    }
  }

  lemma QuotedAppends(ps: seq<Piece>, k: string, q: string)
    ensures Quoted(ps, k + q) == Quoted(ps, k) + q
  {
    RawAppends(ps, ['"'] + k, q);
    assert ['"'] + (k + q) == ['"'] + k + q;
  }

  lemma {:induction false} ItemsTailAppends(items: Items, k: string, q: string)
    ensures ItemsTail(items, k + q) == ItemsTail(items, k) + q
    decreases items, 2
  {
    hide ItemsText;
    if items.NoItems? {
      Assoc([']'], k, q);
    } else {
      ItemsAppend(items, k, q);
      Assoc([','], ItemsText(items, k), q);
    }
  }

  lemma {:induction false} ItemsAppend(items: Items, k: string, q: string)
    requires items.Item?
    ensures ItemsText(items, k + q) == ItemsText(items, k) + q
    decreases items, 1
  {
    hide Text, ItemsTail;
    var t := ItemsTail(items.rest, k);
    ItemsTailAppends(items.rest, k, q);
    Assoc(items.post, t, q);
    TextAppends(items.v, items.post + t, q);
    Assoc(items.pre, Text(items.v, items.post + t), q);
  }

  lemma {:induction false} MembersTailAppends(mems: Members, k: string, q: string)
    ensures MembersTail(mems, k + q) == MembersTail(mems, k) + q
    decreases mems, 2
  {
    hide MembersText;
    if mems.NoMembers? {
      Assoc(['}'], k, q);
    } else {
      MembersAppend(mems, k, q);
      Assoc([','], MembersText(mems, k), q);
    }
  }

  lemma {:induction false} ColonAppends(mid: string, pre2: string, v: Value, k: string, q: string)
    ensures ColonText(mid, pre2, v, k + q) == ColonText(mid, pre2, v, k) + q
    decreases v, 1
  {
    hide Text;
    TextAppends(v, k, q);
    Assoc(pre2, Text(v, k), q);
    Assoc([':'], pre2 + Text(v, k), q);
    Assoc(mid, [':'] + (pre2 + Text(v, k)), q);
  }

  lemma {:induction false} MembersAppend(mems: Members, k: string, q: string)
    requires mems.Member?
    ensures MembersText(mems, k + q) == MembersText(mems, k) + q
    decreases mems, 1
  {
    hide Text, MembersTail, Quoted, ColonText;
    var t := MembersTail(mems.rest, k);
    MembersTailAppends(mems.rest, k, q);
    Assoc(mems.post, t, q);
    ColonAppends(mems.mid, mems.pre2, mems.v, mems.post + t, q);
    var c := ColonText(mems.mid, mems.pre2, mems.v, mems.post + t);
    QuotedAppends(mems.key, c, q);
    Assoc(mems.pre, Quoted(mems.key, c), q);
  }

  /** Nor is the empty text one. */
  lemma EmptyIsNoDocument()
    ensures Loads([]) == None
  {
    if IsJson([]) {
      var (v, pre, post) := Reading([]);
      FirstChar(v, post);
      assert false;
    }
  }

  /** No proper prefix of an object's text is itself a JSON text. */
  lemma ProperPrefixIsNoDocument(obj: Value, p: string, q: string)
    requires obj.Obj? && Ok(obj) && p + q == Text(obj, []) && p != [] && q != []
    ensures Loads(p) == None
  {
    FirstChar(obj, []);
    if Loads(p).Some? {
      var (v, pre, post) := Reading(p);
      FirstChar(v, post);
      Assoc(pre, Text(v, post), q);
      TextAppends(v, post, q);
      UniqueWs([], Text(obj, []), pre, Text(v, post) + q);
      UniqueValue(obj, [], v, post + q);
      assert false;
    }
  }

  /** The words json.loads reads. */
  lemma KnownWords()
    ensures forall w :: w in {"true", "false", "null", "NaN", "Infinity", "-Infinity"} ==> IsAtom(w)
  {
  }
}
