/**
  The raw ModSecurity log: json.dumps(..., ensure_ascii=False), the byte cap with its truncation envelope,
  and the insert that silently drops a transaction already stored. A record is a tree of data; json.dumps spells it.
  */
module RawLog {
  import opened Wrappers
  import opened Json
  import opened Utf8

  const CAP := 65536
  const TRUNCATED := "_truncated"
  const HEAD := "_head"
  const HEAD_BYTES := CAP - 64

  // ------------------------------------------------------------------ json.dumps

  /** Python data as json.dumps sees it; a Word is a number, true, false or null already spelled. */
  datatype Data = Word(word: string) | Chars(s: string) | List(elems: Elems) | Dict(fields: Fields)
  datatype Elems = NoElems | Elem(d: Data, rest: Elems)
  datatype Fields = NoFields | Field(key: string, d: Data, rest: Fields)

  predicate WellSpelled(d: Data) {
    match d
    case Word(w) => IsAtom(w)
    case Chars(_) => true
    case List(es) => ElemsSpelled(es)
    case Dict(fs) => FieldsSpelled(fs)
  }

  predicate ElemsSpelled(es: Elems) {
    es.NoElems? || (WellSpelled(es.d) && ElemsSpelled(es.rest))
  }

  predicate FieldsSpelled(fs: Fields) {
    fs.NoFields? || (WellSpelled(fs.d) && FieldsSpelled(fs.rest))
  }

  function HexDigit(n: nat): (c: char)
    requires n < 16
    ensures IsHex(c) && HexValue(c) == n
  {
    if n < 10 then (n + '0' as int) as char else (n - 10 + 'a' as int) as char
  }

  /** How a character is written inside a string literal. */
  function PieceOf(c: char): (p: Piece)
    ensures PieceOk(p) && Unit(p) == c as int
    ensures p.Hex? ==> c < ' '
  {
    if c == '"' || c == '\\' then Esc(c)
    else if c == '\n' then Esc('n')
    else if c == '\r' then Esc('r')
    else if c == '\t' then Esc('t')
    else if c as int == 8 then Esc('b')
    else if c as int == 12 then Esc('f')
    else if c < ' ' then Hex(['0', '0', HexDigit(c as int / 16), HexDigit(c as int % 16)])
    else Plain(c)
  }

  function Pieces(s: string): (ps: seq<Piece>)
    ensures |ps| == |s| && PiecesOk(ps)
    ensures forall i :: 0 <= i < |s| ==> ps[i] == PieceOf(s[i])
  {
    if s == [] then [] else [PieceOf(s[0])] + Pieces(s[1..])
  }

  function Tree(d: Data): Value {
    match d
    case Word(w) => Atom(w)
    case Chars(s) => Str(Pieces(s))
    case List(es) => Arr([], ElemTree(es, []))
    case Dict(fs) => Obj([], FieldTree(fs, []))
  }

  function ElemTree(es: Elems, pre: string): Items {
    match es
    case NoElems => NoItems
    case Elem(d, rest) => Item(pre, Tree(d), [], ElemTree(rest, " "))
  }

  function FieldTree(fs: Fields, pre: string): Members {
    match fs
    case NoFields => NoMembers
    case Field(key, d, rest) => Member(pre, Pieces(key), [], " ", Tree(d), [], FieldTree(rest, " "))
  }

  function Dumps(d: Data): string {
    Text(Tree(d), [])
  }

  // ------------------------------------------------------------------ what is stored

  function Envelope(head: string): Data {
    Dict(Field(TRUNCATED, Word("true"), Field(HEAD, Chars(head), NoFields)))
  }

  function HeadOf(raw: string): string {
    CutAtBytes(raw, HEAD_BYTES)
  }

  /** The data whose text goes into the row. */
  function Stored(d: Data): Data {
    var raw := Dumps(d);
    if |Encode(raw)| > CAP then Envelope(HeadOf(raw)) else d
  }

  function StoredText(d: Data): string {
    Dumps(Stored(d))
  }

  /** Characters that cost one more byte inside a literal. */
  function Specials(s: string): (n: nat)
  {
    if s == [] then 0 else (if s[0] == '"' || s[0] == '\\' then 1 else 0) + Specials(s[1..])
  }

  // ------------------------------------------------------------------ json.dumps writes what json.loads reads

  lemma {:induction false} TreeOk(d: Data)
    requires WellSpelled(d)
    ensures Ok(Tree(d))
    decreases d, 0
  {
    match d
    case Word(_) =>
    case Chars(_) =>
    case List(es) => ElemTreeOk(es, []);
    case Dict(fs) => FieldTreeOk(fs, []);
  }

  lemma {:induction false} ElemTreeOk(es: Elems, pre: string)
    requires ElemsSpelled(es) && AllWs(pre)
    ensures ItemsOk(ElemTree(es, pre))
    decreases es, 1
  {
    if es.Elem? {
      TreeOk(es.d);
      ElemTreeOk(es.rest, " ");
    }
  }

  lemma {:induction false} FieldTreeOk(fs: Fields, pre: string)
    requires FieldsSpelled(fs) && AllWs(pre)
    ensures MembersOk(FieldTree(fs, pre))
    decreases fs, 1
  {
    if fs.Field? {
      TreeOk(fs.d);
      FieldTreeOk(fs.rest, " ");
    }
  }

  /** Reading a written literal gives the string back. */
  lemma {:induction false} DecodePieces(s: string)
    ensures Decode(Pieces(s)) == CodePoints(s)
  {
    if s != [] {
      DecodePieces(s[1..]);
      assert Pieces(s)[0] == PieceOf(s[0]) && Pieces(s)[1..] == Pieces(s[1..]);
      assert Unit(Pieces(s)[0]) == s[0] as int;
      assert CodePoints(s) == [s[0] as nat] + CodePoints(s[1..]);
    }
  }

  /** json.loads(json.dumps(d)) is d's tree. */
  lemma LoadsDumps(d: Data)
    requires WellSpelled(d)
    ensures Loads(Dumps(d)) == Some(Tree(d))
  {
    TreeOk(d);
    assert Dumps(d) == [] + Text(Tree(d), []);
    LoadsIs(Dumps(d), Tree(d), [], []);
  }

  // ------------------------------------------------------------------ no control characters, one line

  predicate NoControls(s: string) {
    forall i :: 0 <= i < |s| ==> s[i] >= ' '
  }

  lemma {:induction false} RawIsClean(s: string, k: string)
    requires NoControls(k)
    ensures NoControls(RawTo(Pieces(s), k))
  {
    if s != [] {
      RawIsClean(s[1..], k);
      assert Pieces(s)[0] == PieceOf(s[0]) && Pieces(s)[1..] == Pieces(s[1..]);
      PieceIsClean(s[0]);
    }
  }

  lemma PieceIsClean(c: char)
    ensures NoControls(RawPiece(PieceOf(c)))
  {
  }

  lemma QuotedIsClean(s: string, k: string)
    requires NoControls(k)
    ensures NoControls(Quoted(Pieces(s), k))
  {
    RawIsClean(s, ['"'] + k);
  }

  lemma {:induction false} TextIsClean(d: Data, k: string)
    requires WellSpelled(d) && NoControls(k)
    ensures NoControls(Text(Tree(d), k))
    decreases d, 0
  {
    hide IsAtom, Quoted, Pieces, ItemsText, MembersText;
    match d
    case Word(w) => AtomChars(w);
    case Chars(s) => QuotedIsClean(s, k);
    case List(es) =>
      if es.Elem? {
        ElemsAreClean(es, [], k);
      }
    case Dict(fs) =>
      if fs.Field? {
        FieldsAreClean(fs, [], k);
      }
  }

  lemma {:induction false} ElemsAreClean(es: Elems, pre: string, k: string)
    requires es.Elem? && ElemsSpelled(es) && NoControls(pre) && NoControls(k)
    ensures NoControls(ItemsText(ElemTree(es, pre), k))
    decreases es, 1
  {
    hide Text;
    if es.rest.Elem? {
      ElemsAreClean(es.rest, " ", k);
    }
    var tail := ItemsTail(ElemTree(es.rest, " "), k);
    assert [] + tail == tail;
    TextIsClean(es.d, tail);
  }

  lemma CleanConcat(a: string, b: string)
    requires NoControls(a) && NoControls(b)
    ensures NoControls(a + b)
  {
  }

  lemma {:induction false} FieldsAreClean(fs: Fields, pre: string, k: string)
    requires fs.Field? && FieldsSpelled(fs) && NoControls(pre) && NoControls(k)
    ensures NoControls(MembersText(FieldTree(fs, pre), k))
    decreases fs, 1
  {
    CleanChars();
    hide Text, Tree, Quoted, Pieces, NoControls;
    if fs.rest.Field? {
      FieldsAreClean(fs.rest, " ", k);
      CleanConcat([','], MembersText(FieldTree(fs.rest, " "), k));
    } else {
      CleanConcat(['}'], k);
    }
    var tail := MembersTail(FieldTree(fs.rest, " "), k);
    assert [] + tail == tail;
    TextIsClean(fs.d, tail);
    var value := Text(Tree(fs.d), tail);
    CleanConcat(" ", value);
    CleanConcat([':'], " " + value);
    assert [] + ([':'] + (" " + value)) == [':'] + (" " + value);
    QuotedIsClean(fs.key, [':'] + (" " + value));
    CleanConcat(pre, Quoted(Pieces(fs.key), [':'] + (" " + value)));
  }

  lemma CleanChars()
    ensures NoControls([',']) && NoControls(['}']) && NoControls(" ") && NoControls([':'])
  {
  }

  /** json.dumps output holds no control character, so it is one line. */
  lemma DumpsIsOneLine(d: Data)
    requires WellSpelled(d)
    ensures NoControls(Dumps(d)) && '\n' !in Dumps(d) && Dumps(d) != []
  {
    TextIsClean(d, []);
    TreeOk(d);
    FirstChar(Tree(d), []);
  }

  lemma StoredIsSpelled(d: Data)
    requires WellSpelled(d)
    ensures WellSpelled(Stored(d))
  {
    hide Dumps, HeadOf, Encode;
    var last := Field(HEAD, Chars(HeadOf(Dumps(d))), NoFields);
    assert FieldsSpelled(last) && IsAtom("true");
    assert FieldsSpelled(Field(TRUNCATED, Word("true"), last));
  }

  lemma StoredTextIsOneLine(d: Data)
    requires WellSpelled(d)
    ensures NoControls(StoredText(d))
    ensures '\n' !in StoredText(d)
    ensures StoredText(d) != []
  {
    StoredIsSpelled(d);
    DumpsIsOneLine(Stored(d));
    assert StoredText(d) == Dumps(Stored(d));
  }

  // ------------------------------------------------------------------ size

  predicate AllPlain(s: string) {
    forall i :: 0 <= i < |s| ==> PieceOf(s[i]) == Plain(s[i])
  }

  lemma {:induction false} RawOfPlain(s: string, k: string)
    requires AllPlain(s)
    ensures RawTo(Pieces(s), k) == s + k
  {
    if s == [] {
      assert s + k == k;
    } else {
      RawOfPlain(s[1..], k);
      assert Pieces(s)[0] == Plain(s[0]) && Pieces(s)[1..] == Pieces(s[1..]);
      assert s + k == [s[0]] + (s[1..] + k);
    }
  }

  const BEFORE := "{\"_truncated\": true, \"_head\": \""
  const AFTER := "\"}"

  function KeyText(key: string): string {
    "\"" + key + "\": "
  }

  lemma Flat(pre: string, key: string, value: string)
    ensures pre + (['"'] + (key + (['"'] + ([':'] + (" " + value))))) == pre + KeyText(key) + value
  {
    var a, b, c := [':'] + (" " + value), ['"'] + ([':'] + (" " + value)), "\": " + value;
    assert b == c;
    assert ['"'] + (key + c) == KeyText(key) + value;
  }

  /** A field with a plain key is written as in {"key": value}. */
  lemma FieldText(key: string, pre: string, d: Data, rest: Fields, k: string)
    requires AllPlain(key)
    ensures MembersText(FieldTree(Field(key, d, rest), pre), k)
         == pre + KeyText(key) + Text(Tree(d), MembersTail(FieldTree(rest, " "), k))
  {
    hide Text, Tree, Pieces, RawTo, MembersTail, KeyText;
    var tail := MembersTail(FieldTree(rest, " "), k);
    assert [] + tail == tail;
    var colon := ColonText([], " ", Tree(d), tail);
    assert colon == [] + ([':'] + (" " + Text(Tree(d), tail))) == [':'] + (" " + Text(Tree(d), tail));
    RawOfPlain(key, ['"'] + colon);
    Flat(pre, key, Text(Tree(d), tail));
  }

  lemma DictText(fs: Fields)
    requires fs.Field?
    ensures Dumps(Dict(fs)) == ['{'] + MembersText(FieldTree(fs, []), [])
  {
    hide MembersText;
  }

  lemma TailText(fs: Fields)
    ensures MembersTail(FieldTree(fs, " "), [])
         == if fs.NoFields? then "}" else [','] + MembersText(FieldTree(fs, " "), [])
  {
    hide MembersText;
  }

  lemma Plainly(s: string)
    requires forall i :: 0 <= i < |s| ==> 'A' <= s[i] <= 'z' && s[i] != '\\'
    ensures AllPlain(s)
  {
  }

  lemma PlainKeys()
    ensures AllPlain(TRUNCATED) && AllPlain(HEAD)
  {
    Plainly(TRUNCATED);
    Plainly(HEAD);
  }

  lemma HeadText(head: string)
    ensures MembersTail(FieldTree(Field(HEAD, Chars(head), NoFields), " "), [])
         == [','] + (" " + KeyText(HEAD) + (['"'] + RawTo(Pieces(head), AFTER)))
  {
    var last := Field(HEAD, Chars(head), NoFields);
    TailText(NoFields);
    TailText(last);
    PlainKeys();
    assert ['"'] + "}" == AFTER;
    hide *;
    FieldText(HEAD, " ", Chars(head), NoFields, []);
  }

  lemma EnvelopeText(head: string)
    ensures Dumps(Envelope(head)) == BEFORE + RawTo(Pieces(head), AFTER)
  {
    var last := Field(HEAD, Chars(head), NoFields);
    assert Envelope(head) == Dict(Field(TRUNCATED, Word("true"), last));
    HeadText(head);
    DictText(Field(TRUNCATED, Word("true"), last));
    var tail := MembersTail(FieldTree(last, " "), []);
    assert Text(Tree(Word("true")), tail) == "true" + tail;
    PlainKeys();
    hide *;
    FieldText(TRUNCATED, [], Word("true"), last, []);
    Glue(RawTo(Pieces(head), AFTER));
  }

  lemma Glue(r: string)
    ensures ['{'] + ([] + KeyText(TRUNCATED) + ("true" + ([','] + (" " + KeyText(HEAD) + (['"'] + r))))) == BEFORE + r
  {
  }

  lemma PieceBytes(c: char)
    requires c >= ' '
    ensures |Encode(RawPiece(PieceOf(c)))| == |EncodeOne(c)| + Specials([c])
  {
    assert Encode([c]) == EncodeOne(c) + Encode([]);
    if c == '"' || c == '\\' {
      assert Encode(['\\', c]) == EncodeOne('\\') + Encode(['\\', c][1..]);
      assert ['\\', c][1..] == [c];
    }
  }

  lemma {:induction false} LiteralBytes(s: string, k: string)
    requires NoControls(s)
    ensures |Encode(RawTo(Pieces(s), k))| == |Encode(s)| + Specials(s) + |Encode(k)|
    ensures Specials(s) <= |Encode(s)|
  {
    if s != [] {
      LiteralBytes(s[1..], k);
      PieceBytes(s[0]);
      hide EncodeOne, PieceOf, RawPiece;
      assert Pieces(s)[0] == PieceOf(s[0]) && Pieces(s)[1..] == Pieces(s[1..]);
      EncodeConcat(RawPiece(PieceOf(s[0])), RawTo(Pieces(s[1..]), k));
    }
  }

  /** The envelope costs 33 bytes plus one per quote or backslash in the head. */
  lemma EnvelopeBytes(head: string)
    requires NoControls(head)
    ensures |Encode(Dumps(Envelope(head)))| == 33 + |Encode(head)| + Specials(head)
  {
    EnvelopeText(head);
    hide Dumps, Envelope, Encode, RawTo, Pieces, Specials;
    EncodeConcat(BEFORE, RawTo(Pieces(head), AFTER));
    LiteralBytes(head, AFTER);
    AsciiBytes(BEFORE);
    AsciiBytes(AFTER);
  }

  /**
    What a stored record occupies. Untruncated it is within the cap; truncated it is within the cap exactly when the
    head's bytes and escapes are at most 65503, and never more than 130977.
    */
  lemma StoredBytes(d: Data)
    requires WellSpelled(d)
    ensures var raw := Dumps(d);
            var head := HeadOf(raw);
            var size := |Encode(StoredText(d))|;
            if |Encode(raw)| <= CAP then StoredText(d) == raw
            else
              && size == 33 + |Encode(head)| + Specials(head)
              && (size <= CAP <==> |Encode(head)| + Specials(head) <= 65503)
              && HEAD_BYTES - 3 <= |Encode(head)| <= HEAD_BYTES
              && size <= 130977
  {
    var raw := Dumps(d);
    var head := HeadOf(raw);
    hide Dumps, Envelope, Encode, Specials, WellSpelled;
    if |Encode(raw)| > CAP {
      DumpsIsOneLine(d);
      CutIsExact(raw, HEAD_BYTES);
      EnvelopeBytes(head);
      LiteralBytes(head, []);
    }
  }

  /**
    What a stored record says when read back: the record itself, or a marker and the longest prefix of the record's
    text within 65472 bytes.
    */
  lemma StoredReadsBack(d: Data)
    requires WellSpelled(d)
    ensures var raw := Dumps(d);
            var head := HeadOf(raw);
            if |Encode(raw)| <= CAP then Loads(StoredText(d)) == Some(Tree(d))
            else
              && Loads(StoredText(d)) == Some(Tree(Envelope(head)))
              && Decode(Pieces(head)) == CodePoints(head)
              && head <= raw && |Encode(head)| <= HEAD_BYTES
              && forall n :: 0 <= n <= |raw| && |Encode(raw[..n])| <= HEAD_BYTES ==> n <= |head|
  {
    var raw := Dumps(d);
    var head := HeadOf(raw);
    StoredIsSpelled(d);
    hide WellSpelled, Dumps, Loads, Tree, Encode, Fitting, CutAtBytes, Decode, Pieces;
    LoadsDumps(Stored(d));
    DecodePieces(head);
    CutIsExact(raw, HEAD_BYTES);
    forall n | 0 <= n <= |raw| && |Encode(raw[..n])| <= HEAD_BYTES ensures n <= |head|
    {
      assert raw[..n] <= head;
    }
  }

  /** The longest prefix of a text that takes at most n bytes. */
  ghost predicate IsLongestWithin(head: string, raw: string, n: nat) {
    && head <= raw && |Encode(head)| <= n
    && forall k :: 0 <= k <= |raw| && |Encode(raw[..k])| <= n ==> k <= |head|
  }

  /** The dump of {"_truncated": true, "_head": head}, which also reads back as that. */
  ghost predicate IsMarked(text: string, head: string) {
    var marked := Dict(Field("_truncated", Word("true"), Field("_head", Chars(head), NoFields)));
    text == Dumps(marked) && Loads(text) == Some(Tree(marked))
  }

  /**
    A text that stands for a record: one line of at most 130977 bytes; the record's own dump when that is within 65536
    bytes, and otherwise what reads back as the marker and the longest prefix of the dump within 65472 bytes.
    */
  ghost predicate StandsFor(text: string, d: Data) {
    var raw := Dumps(d);
    && text != [] && NoControls(text) && |Encode(text)| <= 130977
    && if |Encode(raw)| <= 65536 then text == raw && Loads(text) == Some(Tree(d))
       else exists head :: IsLongestWithin(head, raw, 65472) && IsMarked(text, head)
  }

  lemma StoredIsEnvelope(d: Data)
    requires |Encode(Dumps(d))| > 65536
    ensures StoredText(d) == Dumps(Envelope(HeadOf(Dumps(d))))
  {
    hide Dumps, Encode, HeadOf, Envelope;
  }

  lemma LongStandsFor(d: Data)
    requires WellSpelled(d) && |Encode(Dumps(d))| > 65536
    ensures var head := HeadOf(Dumps(d)); IsLongestWithin(head, Dumps(d), 65472) && IsMarked(StoredText(d), head)
  {
    hide WellSpelled, Dumps, StoredText, Loads, Tree, Encode, HeadOf, Decode, Pieces;
    StoredIsEnvelope(d);
    StoredReadsBack(d);
  }

  lemma SizeAtMost(d: Data)
    requires WellSpelled(d)
    ensures |Encode(StoredText(d))| <= 130977 && (|Encode(Dumps(d))| <= 65536 ==> StoredText(d) == Dumps(d))
  {
    hide StoredText, WellSpelled, Dumps, Encode, HeadOf, Specials;
    StoredBytes(d);
  }

  lemma StoredStandsFor(d: Data)
    requires WellSpelled(d)
    ensures StandsFor(StoredText(d), d)
  {
    hide WellSpelled, StoredText, Dumps, Loads, Tree, Encode, NoControls, HeadOf, IsMarked, IsLongestWithin, Decode, Pieces;
    StoredTextIsOneLine(d);
    SizeAtMost(d);
    if |Encode(Dumps(d))| > 65536 {
      LongStandsFor(d);
    } else {
      LoadsDumps(d);
    }
  }

  // ------------------------------------------------------------------ the cap is not unconditional

  predicate AllSpecial(s: string) {
    forall i :: 0 <= i < |s| ==> s[i] == '"' || s[i] == '\\'
  }

  lemma {:induction false} SpecialsAll(s: string)
    requires AllSpecial(s)
    ensures Specials(s) == |s| && |Encode(s)| == |s|
  {
    if s != [] {
      SpecialsAll(s[1..]);
    }
  }

  lemma {:induction false} SpecialsConcat(a: string, b: string)
    ensures Specials(a + b) == Specials(a) + Specials(b)
  {
    if a == [] {
      assert a + b == b;
    } else {
      SpecialsConcat(a[1..], b);
      assert (a + b)[1..] == a[1..] + b;
    }
  }

  lemma {:induction false} SpecialsStaySpecial(s: string, k: string)
    requires AllSpecial(s) && AllSpecial(k)
    ensures AllSpecial(RawTo(Pieces(s), k)) && |RawTo(Pieces(s), k)| == 2 * |s| + |k|
  {
    if s != [] {
      SpecialsStaySpecial(s[1..], k);
      assert Pieces(s)[0] == Esc(s[0]) && Pieces(s)[1..] == Pieces(s[1..]);
    }
  }

  /** {"q": s} where s is n quotation marks. */
  function QuoteMarks(n: nat): Data {
    Dict(Field("q", Chars(seq(n, _ => '"')), NoFields))
  }

  const QUOTES_BEFORE := "{\"q\": "

  lemma OneFieldText(key: string, s: string)
    requires AllPlain(key)
    ensures Dumps(Dict(Field(key, Chars(s), NoFields)))
         == ['{'] + ([] + KeyText(key) + (['"'] + RawTo(Pieces(s), ['"'] + "}")))
  {
    DictText(Field(key, Chars(s), NoFields));
    TailText(NoFields);
    hide *;
    FieldText(key, [], Chars(s), NoFields, []);
  }

  lemma QuoteMarksText(n: nat) returns (body: string)
    ensures |body| == 2 * n + 2 && AllSpecial(body) && Dumps(QuoteMarks(n)) == QUOTES_BEFORE + (body + "}")
  {
    var q := seq(n, _ => '"');
    Plainly("q");
    OneFieldText("q", q);
    SpecialsStaySpecial(q, ['"']);
    RawAppends(Pieces(q), ['"'], "}");
    body := ['"'] + RawTo(Pieces(q), ['"']);
    hide RawTo, Pieces, Dumps;
    assert ['"'] + (RawTo(Pieces(q), ['"']) + "}") == body + "}";
    assert ['{'] + ([] + KeyText("q")) == QUOTES_BEFORE;
    Assoc(['{'], [] + KeyText("q"), body + "}");
  }

  lemma {:induction false} AsciiFits(s: string, n: nat)
    requires IsAscii(s) && n <= |s|
    ensures Fitting(s, n) == n
  {
    if n > 0 {
      AsciiFits(s[1..], n - 1);
    }
  }

  /** What the cut keeps of a text that opens with `before` and goes on with quotes and backslashes. */
  lemma HeadOfQuotes(before: string, body: string, after: string, n: nat)
    requires IsAscii(before) && AllSpecial(body) && IsAscii(after) && |before| <= n <= |before| + |body|
    ensures var raw := before + (body + after);
            && |Encode(raw)| == |raw|
            && |Encode(CutAtBytes(raw, n))| == n
            && Specials(CutAtBytes(raw, n)) == Specials(before) + (n - |before|)
  {
    var raw := before + (body + after);
    AsciiBytes(raw);
    AsciiFits(raw, n);
    CutIsExact(raw, n);
    assert raw[..n] == before + body[..n - |before|];
    AsciiBytes(raw[..n]);
    SpecialsConcat(before, body[..n - |before|]);
    SpecialsAll(body[..n - |before|]);
  }

  lemma QuotesBefore()
    ensures Specials(QUOTES_BEFORE) == 2 && IsAscii(QUOTES_BEFORE) && IsAscii("}")
  {
    SpecialsConcat("{", "\"q\": ");
    SpecialsConcat("\"q", "\": ");
    assert QUOTES_BEFORE == "{" + ("\"q" + "\": ") && "\"q\": " == "\"q" + "\": ";
  }

  lemma QuoteMarksSpelled(n: nat)
    ensures WellSpelled(QuoteMarks(n))
  {
    assert QuoteMarks(n).fields.rest == NoFields && WellSpelled(QuoteMarks(n).fields.d) && FieldsSpelled(NoFields);
  }

  /** A record of 40000 quotation marks is stored in 130973 bytes, nearly twice the cap. */
  lemma CapIsExceeded()
    ensures WellSpelled(QuoteMarks(40000))
    ensures |Encode(StoredText(QuoteMarks(40000)))| == 130973
  {
    hide Dumps, QuoteMarks, Encode, WellSpelled, StoredText, Specials, Fitting, CutAtBytes, AllSpecial, IsAscii;
    var body := QuoteMarksText(40000);
    QuotesBefore();
    HeadOfQuotes(QUOTES_BEFORE, body, "}", HEAD_BYTES);
    QuoteMarksSpelled(40000);
    StoredBytes(QuoteMarks(40000));
  }

  // ------------------------------------------------------------------ a record that is its own envelope

  /** A record is stored as its own dump exactly when that is within the cap, or the record is the envelope of its own head. */
  lemma OwnDumpIff(d: Data)
    requires WellSpelled(d)
    ensures StoredText(d) == Dumps(d) <==> |Encode(Dumps(d))| <= 65536 || Tree(d) == Tree(Envelope(HeadOf(Dumps(d))))
  {
    LoadsDumps(d);
    StoredReadsBack(d);
    StoredBytes(d);
    hide WellSpelled, Dumps, Loads, Encode, HeadOf, Decode, Pieces, Envelope, Specials;
    if |Encode(Dumps(d))| > 65536 && Tree(d) == Tree(Envelope(HeadOf(Dumps(d)))) {
      assert StoredText(d) == Dumps(Envelope(HeadOf(Dumps(d)))) == Dumps(d) by {
        SameTreeSameText(d, Envelope(HeadOf(Dumps(d))));
      }
    }
  }

  lemma SameTreeSameText(a: Data, b: Data)
    requires Tree(a) == Tree(b)
    ensures Dumps(a) == Dumps(b)
  {
  }

  function Escaped(s: string): string {
    RawTo(Pieces(s), [])
  }

  /** The envelope of the envelope of ...: each word is the opening and the escaped word before it. */
  function Nest(b: string, k: nat): string {
    if k == 0 then b else b + Escaped(Nest(b, k - 1))
  }

  /** Text of printable ASCII characters. */
  predicate Printable(s: string) {
    forall i :: 0 <= i < |s| ==> ' ' <= s[i] <= '~'
  }

  lemma EscapeFirst(s: string)
    requires s != []
    ensures Escaped(s) == RawPiece(PieceOf(s[0])) + Escaped(s[1..])
  {
    assert Pieces(s)[0] == PieceOf(s[0]) && Pieces(s)[1..] == Pieces(s[1..]);
  }

  lemma EscapedNothing()
    ensures Escaped([]) == []
  {
  }

  lemma {:induction false} EscapedConcat(s: string, t: string)
    ensures Escaped(s + t) == Escaped(s) + Escaped(t)
  {
    hide PieceOf, RawPiece, Escaped;
    if s == [] {
      EscapedNothing();
      assert s + t == t;
    } else {
      EscapedConcat(s[1..], t);
      EscapeFirst(s);
      assert (s + t)[0] == s[0] && (s + t)[1..] == s[1..] + t;
      EscapeFirst(s + t);
      Assoc(RawPiece(PieceOf(s[0])), Escaped(s[1..]), Escaped(t));
    }
  }

  lemma OneSpecial(c: char)
    requires ' ' <= c <= '~'
    ensures var p := RawPiece(PieceOf(c));
            && Printable(p) && |p| == 1 + Specials([c]) <= 2 && Specials(p) == 2 * Specials([c])
  {
    if c == '"' || c == '\\' {
      assert Specials(['\\', c]) == 1 + Specials(['\\', c][1..]) && ['\\', c][1..] == [c];
    }
  }

  lemma {:induction false} EscapedSize(s: string)
    requires Printable(s)
    ensures Printable(Escaped(s)) && |Escaped(s)| == |s| + Specials(s) <= 2 * |s| && Specials(Escaped(s)) == 2 * Specials(s)
  {
    if s != [] {
      EscapedSize(s[1..]);
      EscapeFirst(s);
      OneSpecial(s[0]);
      hide PieceOf, RawPiece, Escaped;
      SpecialsConcat(RawPiece(PieceOf(s[0])), Escaped(s[1..]));
      assert Specials([s[0]]) + Specials(s[1..]) == Specials(s) by {
        SpecialsConcat([s[0]], s[1..]);
        assert [s[0]] + s[1..] == s;
      }
    }
  }

  lemma BeforeIs()
    ensures Printable(BEFORE) && 1 <= |BEFORE| <= 31 && Specials(BEFORE) >= 1
  {
    hide Specials;
    SpecialsAt(BEFORE, 1);
  }

  lemma {:induction false} SpecialsAt(s: string, i: nat)
    requires i < |s| && (s[i] == '"' || s[i] == '\\')
    ensures Specials(s) >= 1
  {
    if i > 0 {
      SpecialsAt(s[1..], i - 1);
    }
  }

  lemma NestStep(b: string, k: nat)
    ensures Nest(b, k + 1) == b + Escaped(Nest(b, k))
    ensures Nest(b, 0) == b
  {
  }

  /** A word grows by at least the opening, at most doubles, and doubles its quotes and backslashes. */
  lemma {:induction false} NestSize(b: string, k: nat)
    requires Printable(b) && b != [] && Specials(b) >= 1
    ensures Printable(Nest(b, k)) && |Nest(b, k)| >= k + 1
    ensures k > 0 ==> && |Nest(b, k)| <= |b| + 2 * |Nest(b, k - 1)|
                      && Specials(Nest(b, k)) >= 1 + 2 * Specials(Nest(b, k - 1))
  {
    hide Nest, Escaped, Specials, Printable;
    NestStep(b, 0);
    if k > 0 {
      NestStep(b, k - 1);
      NestSize(b, k - 1);
      EscapedSize(Nest(b, k - 1));
      SpecialsConcat(b, Escaped(Nest(b, k - 1)));
      PrintableConcat(b, Escaped(Nest(b, k - 1)));
    }
  }

  lemma PrintableConcat(a: string, b: string)
    requires Printable(a) && Printable(b)
    ensures Printable(a + b)
  {
  }

  /** Each word continues the one before it. */
  lemma {:induction false} NestGrows(b: string, j: nat, k: nat)
    requires j <= k
    ensures Nest(b, j) <= Nest(b, k)
    decreases j
  {
    hide Escaped;
    if 0 < j {
      NestGrows(b, j - 1, k - 1);
      var x, y := Nest(b, j - 1), Nest(b, k - 1);
      EscapedConcat(x, y[|x|..]);
      assert x + y[|x|..] == y;
    }
  }

  /** The sixth word is short and already holds 63 quotes and backslashes. */
  lemma SixthWord(b: string)
    requires Printable(b) && 1 <= |b| <= 31 && Specials(b) >= 1
    ensures |Nest(b, 5)| <= 2000 && Specials(Nest(b, 5)) >= 63
  {
    hide Nest, Specials;
    NestSize(b, 1);
    NestSize(b, 2);
    NestSize(b, 3);
    NestSize(b, 4);
    NestSize(b, 5);
    NestStep(b, 0);
  }

  /** A long word cut at n: its escaped form behind the opening starts with the word itself. */
  lemma OwnHead(b: string, n: nat) returns (h: string)
    requires Printable(b) && 1 <= |b| <= 31 && Specials(b) >= 1 && n >= 2000
    ensures Printable(h) && |h| == n && Specials(h) >= 63 && h <= b + Escaped(h)
  {
    hide Nest, Escaped, Specials;
    NestSize(b, n);
    NestStep(b, n);
    NestGrows(b, 5, n);
    NestGrows(b, n, n + 1);
    SixthWord(b);
    var w, small := Nest(b, n), Nest(b, 5);
    h := w[..n];
    EscapedSize(h);
    EscapedConcat(h, w[n..]);
    assert h + w[n..] == w;
    Assoc(b, Escaped(h), Escaped(w[n..]));
    hide Printable;
    PrefixOfBoth(small, h, w);
    SpecialsConcat(small, h[|small|..]);
    PrefixOfBoth(h, b + Escaped(h), Nest(b, n + 1));
  }

  /** Of two prefixes of a text the shorter is a prefix of the longer. */
  lemma PrefixOfBoth(a: string, b: string, s: string)
    requires a <= s && b <= s && |a| <= |b|
    ensures a <= b && a + b[|a|..] == b
  {
  }

  lemma RawOfHead(h: string)
    ensures RawTo(Pieces(h), AFTER) == Escaped(h) + AFTER
  {
    RawAppends(Pieces(h), [], AFTER);
    assert [] + AFTER == AFTER;
  }

  lemma EnvelopeSpelled(h: string)
    ensures WellSpelled(Envelope(h))
  {
    var last := Field(HEAD, Chars(h), NoFields);
    assert WellSpelled(last.d) && FieldsSpelled(last.rest);
    assert FieldsSpelled(last) && IsAtom("true");
    assert WellSpelled(Word("true"));
    assert FieldsSpelled(Field(TRUNCATED, Word("true"), last));
  }

  lemma AfterIs()
    ensures IsAscii(AFTER) && |AFTER| == 2
  {
  }

  /** A record whose dump is over the cap and which is stored as that dump all the same. */
  lemma OwnEnvelope() returns (d: Data)
    ensures WellSpelled(d) && |Encode(Dumps(d))| > 65536 && StoredText(d) == Dumps(d)
  {
    hide *;
    BeforeIs();
    AfterIs();
    var h := OwnHead(BEFORE, 65472);
    d := Envelope(h);
    EnvelopeSpelled(h);
    EnvelopeText(h);
    RawOfHead(h);
    EscapedSize(h);
    var raw := BEFORE + (Escaped(h) + AFTER);
    OwnCut(BEFORE, h, Escaped(h), AFTER);
    StoredCut(d, h);
  }

  lemma OwnCut(before: string, h: string, escaped: string, after: string)
    requires Printable(before) && Printable(escaped) && IsAscii(after) && |h| == 65472 && h <= before + escaped
    ensures var raw := before + (escaped + after);
            |Encode(raw)| == |raw| && HeadOf(raw) == h
  {
    hide Encode, CutAtBytes, Fitting;
    var raw := before + (escaped + after);
    AsciiBytes(raw);
    AsciiFits(raw, 65472);
    CutIsExact(raw, 65472);
    assert raw == (before + escaped) + after;
    assert raw[..65472] == h;
  }

  lemma StoredCut(d: Data, h: string)
    requires d == Envelope(h) && HeadOf(Dumps(d)) == h && |Encode(Dumps(d))| > 65536
    ensures StoredText(d) == Dumps(d)
  {
    hide Dumps, Envelope, HeadOf, Encode;
  }

  // ------------------------------------------------------------------ the table

  /** A log line: the transaction's id, unique_id, client_ip and messages, any of which may be missing, and the whole dict. */
  datatype Record = Record(id: Option<string>, uniqueId: Option<string>, clientIp: Option<string>,
                           messages: seq<Message>, rootMessages: seq<Message>, data: Data)

  /** A message of the transaction or of the record itself; its rule id as text. */
  datatype Message = Message(ruleId: Option<string>)

  datatype Row = Row(transactionId: Option<string>, sourceIp: Option<string>, ruleId: Option<string>, rawJson: string)

  /** txn.get("id") or txn.get("unique_id"): an empty id counts as missing. */
  function TransactionId(r: Record): Option<string> {
    if r.id.Some? && r.id.value != [] then r.id else r.uniqueId
  }

  /** The rule of the first message there is, the transaction's messages before the record's own. */
  function RuleId(r: Record): Option<string> {
    if r.messages != [] then r.messages[0].ruleId
    else if r.rootMessages != [] then r.rootMessages[0].ruleId
    else None
  }

  function RowOf(r: Record): Row {
    Row(TransactionId(r), r.clientIp, RuleId(r), StoredText(r.data))
  }

  predicate Taken(rows: seq<Row>, id: Option<string>) {
    id.Some? && exists i :: 0 <= i < |rows| && rows[i].transactionId == id
  }

  /** The unique index refuses a second row of one transaction. */
  predicate Unique(rows: seq<Row>) {
    forall i, j :: 0 <= i < j < |rows| && rows[i].transactionId.Some? ==> rows[i].transactionId != rows[j].transactionId
  }

  /** Ingesting one record after the other; a commit may also fail for another reason, which stores nothing. */
  datatype Arrival = Arrival(record: Record, commits: bool)

  function Ingest(rows: seq<Row>, arrivals: seq<Arrival>): seq<Row>
    decreases arrivals
  {
    if arrivals == [] then rows
    else
      var a := arrivals[0];
      Ingest(if a.commits && !Taken(rows, TransactionId(a.record)) then rows + [RowOf(a.record)] else rows, arrivals[1..])
  }

  /** Whether arrival k is the first successful one of its transaction; those without an id always are. */
  predicate IsFirst(arrivals: seq<Arrival>, k: nat)
    requires k < |arrivals|
  {
    && arrivals[k].commits
    && (TransactionId(arrivals[k].record).Some? ==>
          forall i :: 0 <= i < k && arrivals[i].commits ==>
            TransactionId(arrivals[i].record) != TransactionId(arrivals[k].record))
  }

  /** The rows of the first successful arrival of every transaction among the first n, in order. */
  function Firsts(arrivals: seq<Arrival>, n: nat): seq<Row>
    requires n <= |arrivals|
  {
    if n == 0 then []
    else Firsts(arrivals, n - 1) + if IsFirst(arrivals, n - 1) then [RowOf(arrivals[n - 1].record)] else []
  }

  lemma {:induction false} FirstsHold(arrivals: seq<Arrival>, n: nat, id: Option<string>)
    requires n <= |arrivals| && id.Some?
    ensures Taken(Firsts(arrivals, n), id) <==>
              exists i :: 0 <= i < n && arrivals[i].commits && TransactionId(arrivals[i].record) == id
  {
    if n > 0 {
      FirstsHold(arrivals, n - 1, id);
      var before := Firsts(arrivals, n - 1);
      var rows := Firsts(arrivals, n);
      assert forall i :: 0 <= i < |before| ==> rows[i] == before[i];
      if IsFirst(arrivals, n - 1) {
        assert rows[|before|] == RowOf(arrivals[n - 1].record);
      }
    }
  }

  lemma FirstIsNotTaken(arrivals: seq<Arrival>, n: nat)
    requires n < |arrivals|
    ensures IsFirst(arrivals, n) <==>
              arrivals[n].commits && !Taken(Firsts(arrivals, n), TransactionId(arrivals[n].record))
  {
    if TransactionId(arrivals[n].record).Some? {
      FirstsHold(arrivals, n, TransactionId(arrivals[n].record));
    }
  }

  lemma {:induction false} IngestFrom(arrivals: seq<Arrival>, n: nat)
    requires n <= |arrivals|
    ensures Ingest(Firsts(arrivals, n), arrivals[n..]) == Firsts(arrivals, |arrivals|)
    decreases |arrivals| - n
  {
    if n < |arrivals| {
      var a := arrivals[n];
      assert arrivals[n..][0] == a && arrivals[n..][1..] == arrivals[n + 1..];
      FirstIsNotTaken(arrivals, n);
      hide IsFirst, RowOf, Taken, TransactionId;
      assert Firsts(arrivals, n) + [] == Firsts(arrivals, n);
      IngestFrom(arrivals, n + 1);
    }
  }

  /** Over any run the table holds exactly the first stored record of every transaction, in order, once each. */
  lemma FirstWriterWins(arrivals: seq<Arrival>)
    ensures Ingest([], arrivals) == Firsts(arrivals, |arrivals|)
    ensures Unique(Ingest([], arrivals))
  {
    IngestFrom(arrivals, 0);
    assert arrivals[0..] == arrivals;
    FirstsUnique(arrivals, |arrivals|);
  }

  lemma {:induction false} FirstsUnique(arrivals: seq<Arrival>, n: nat)
    requires n <= |arrivals|
    ensures Unique(Firsts(arrivals, n))
  {
    hide StoredText, TransactionId;
    if n > 0 {
      FirstsUnique(arrivals, n - 1);
      if IsFirst(arrivals, n - 1) && TransactionId(arrivals[n - 1].record).Some? {
        FirstsHold(arrivals, n - 1, TransactionId(arrivals[n - 1].record));
      }
    }
  }

  // ------------------------------------------------------------------ what the rows say

  /** Where the columns of a row come from. */
  lemma ColumnsOf(r: Record)
    ensures TransactionId(r) == if r.id.Some? && r.id.value != "" then r.id else r.uniqueId
    ensures RuleId(r) == if r.messages != [] then r.messages[0].ruleId
                         else if r.rootMessages != [] then r.rootMessages[0].ruleId else None
  {
  }

  /** A row that says what the record says. */
  ghost predicate Describes(row: Row, r: Record) {
    && row.transactionId == TransactionId(r) && row.sourceIp == r.clientIp && row.ruleId == RuleId(r)
    && StandsFor(row.rawJson, r.data)
  }

  /** The arrivals among the first n that make a row. */
  function Sources(arrivals: seq<Arrival>, n: nat): seq<nat>
    requires n <= |arrivals|
  {
    if n == 0 then [] else Sources(arrivals, n - 1) + if IsFirst(arrivals, n - 1) then [n - 1] else []
  }

  lemma {:induction false} FirstsDescribe(arrivals: seq<Arrival>, n: nat)
    requires n <= |arrivals| && forall k :: 0 <= k < |arrivals| ==> WellSpelled(arrivals[k].record.data)
    ensures var rows, from := Firsts(arrivals, n), Sources(arrivals, n);
            && |rows| == |from|
            && (forall i, j :: 0 <= i < j < |from| ==> from[i] < from[j])
            && (forall i :: 0 <= i < |from| ==> 0 <= from[i] < n && Describes(rows[i], arrivals[from[i]].record))
            && (forall k :: 0 <= k < n ==> (k in from <==> IsFirst(arrivals, k)))
  {
    hide IsFirst, Describes, WellSpelled, RowOf;
    if n > 0 {
      FirstsDescribe(arrivals, n - 1);
      RowDescribes(arrivals[n - 1].record);
    }
  }

  lemma RowDescribes(r: Record)
    requires WellSpelled(r.data)
    ensures Describes(RowOf(r), r)
  {
    StoredStandsFor(r.data);
    hide StandsFor, StoredText;
  }

  /**
    Every row of the table describes the arrival it came from, rows stand in the order of arrival, and the arrivals they
    come from are exactly those whose commit went through and whose transaction, if it has an id, no earlier one stored.
    */
  lemma RowsDescribeArrivals(arrivals: seq<Arrival>) returns (from: seq<nat>)
    requires forall k :: 0 <= k < |arrivals| ==> WellSpelled(arrivals[k].record.data)
    ensures var rows := Ingest([], arrivals);
            && |rows| == |from|
            && (forall i, j :: 0 <= i < j < |from| ==> from[i] < from[j])
            && (forall i :: 0 <= i < |from| ==> from[i] < |arrivals| && Describes(rows[i], arrivals[from[i]].record))
    ensures forall k :: 0 <= k < |arrivals| ==>
              (k in from <==>
                 && arrivals[k].commits
                 && (TransactionId(arrivals[k].record) == None ||
                     forall i :: 0 <= i < k && arrivals[i].commits ==>
                       TransactionId(arrivals[i].record) != TransactionId(arrivals[k].record)))
  {
    from := Sources(arrivals, |arrivals|);
    FirstsDescribe(arrivals, |arrivals|);
    FirstWriterWins(arrivals);
    hide Firsts, Sources, Ingest, Describes, WellSpelled, TransactionId;
  }

  class Table {
    var rows: seq<Row>

    constructor ()
      ensures rows == []
    {
      rows := [];
    }

    /** _store_raw_log: `commits` is false when the commit fails for a reason other than the unique index. */
    method Store(record: Record, commits: bool)
      requires Unique(rows)
      modifies this
      ensures Unique(rows)
      ensures rows == Ingest(old(rows), [Arrival(record, commits)])
      ensures var id := TransactionId(record);
              var taken := id.Some? && exists i :: 0 <= i < |old(rows)| && old(rows)[i].transactionId == id;
              if !commits || taken then rows == old(rows)
              else |rows| == |old(rows)| + 1 && rows[..|old(rows)|] == old(rows)
                   && (WellSpelled(record.data) ==> Describes(rows[|old(rows)|], record))
    {
      if WellSpelled(record.data) {
        RowDescribes(record);
      }
      hide Describes, WellSpelled, Taken;
      var id := TransactionId(record);
      var messages := if record.messages != [] then record.messages else record.rootMessages;
      if messages == [] {
        messages := [Message(None)];
      }
      var ruleId := messages[0].ruleId;
      var raw := Dumps(record.data);
      if |Encode(raw)| > CAP {
        var head := DecodeIgnore(Encode(raw)[..HEAD_BYTES]);
        raw := Dumps(Envelope(head));
      }
      assert raw == StoredText(record.data);
      var pending := rows + [Row(id, record.clientIp, ruleId, raw)];
      var violated := Taken(rows, id);
      assert Ingest(rows, [Arrival(record, commits)][1..]) == rows;
      if commits && !violated {
        rows := pending;
      }
    }
  }
}
