/** Redaction of sensitive headers in a parsed record before it leaves for the collector. */
module Redaction {
  import opened Wrappers
  import opened Json
  import opened RawLog
  import opened Utf8

  const SENSITIVE := {"authorization", "proxy-authorization", "cookie", "set-cookie", "x-api-key", "x-auth-token"}

  const REDACTED := Chars("[REDACTED]")

  /** _redact_headers; `lower` is str.lower. */
  function Redact(lower: string -> string, d: Data): Data {
    match d
    case Dict(fs) => Dict(RedactFields(lower, fs))
    case List(es) => List(RedactElems(lower, es))
    case Word(_) => d
    case Chars(_) => d
  }

  function RedactFields(lower: string -> string, fs: Fields): Fields {
    match fs
    case NoFields => NoFields
    case Field(key, d, rest) =>
      Field(key, if lower(key) in SENSITIVE then REDACTED else Redact(lower, d), RedactFields(lower, rest))
  }

  function RedactElems(lower: string -> string, es: Elems): Elems {
    match es
    case NoElems => NoElems
    case Elem(d, rest) => Elem(Redact(lower, d), RedactElems(lower, rest))
  }

  // ------------------------------------------------------------------ the two things it promises

  /** No sensitive key has a value other than the mark, at any depth. */
  predicate Clean(lower: string -> string, d: Data) {
    match d
    case Dict(fs) => CleanFields(lower, fs)
    case List(es) => CleanElems(lower, es)
    case Word(_) => true
    case Chars(_) => true
  }

  predicate CleanFields(lower: string -> string, fs: Fields) {
    fs.NoFields? ||
    (&& (if lower(fs.key) in SENSITIVE then fs.d == REDACTED else Clean(lower, fs.d))
     && CleanFields(lower, fs.rest))
  }

  predicate CleanElems(lower: string -> string, es: Elems) {
    es.NoElems? || (Clean(lower, es.d) && CleanElems(lower, es.rest))
  }

  /** The same data but for the values of sensitive keys. */
  predicate Agree(lower: string -> string, a: Data, b: Data) {
    match a
    case Dict(fs) => b.Dict? && AgreeFields(lower, fs, b.fields)
    case List(es) => b.List? && AgreeElems(lower, es, b.elems)
    case Word(_) => a == b
    case Chars(_) => a == b
  }

  predicate AgreeFields(lower: string -> string, a: Fields, b: Fields) {
    if a.NoFields? || b.NoFields? then a == b
    else
      && a.key == b.key
      && (lower(a.key) in SENSITIVE || Agree(lower, a.d, b.d))
      && AgreeFields(lower, a.rest, b.rest)
  }

  predicate AgreeElems(lower: string -> string, a: Elems, b: Elems) {
    if a.NoElems? || b.NoElems? then a == b
    else Agree(lower, a.d, b.d) && AgreeElems(lower, a.rest, b.rest)
  }

  // ------------------------------------------------------------------ proofs

  lemma {:induction false} RedactCleans(lower: string -> string, d: Data)
    ensures Clean(lower, Redact(lower, d)) && Agree(lower, d, Redact(lower, d))
    decreases d, 0
  {
    match d
    case Dict(fs) => FieldsCleaned(lower, fs);
    case List(es) => ElemsCleaned(lower, es);
    case Word(_) =>
    case Chars(_) =>
  }

  lemma {:induction false} FieldsCleaned(lower: string -> string, fs: Fields)
    ensures CleanFields(lower, RedactFields(lower, fs)) && AgreeFields(lower, fs, RedactFields(lower, fs))
    decreases fs, 1
  {
    if fs.Field? {
      RedactCleans(lower, fs.d);
      FieldsCleaned(lower, fs.rest);
    }
  }

  lemma {:induction false} ElemsCleaned(lower: string -> string, es: Elems)
    ensures CleanElems(lower, RedactElems(lower, es)) && AgreeElems(lower, es, RedactElems(lower, es))
    decreases es, 1
  {
    if es.Elem? {
      RedactCleans(lower, es.d);
      ElemsCleaned(lower, es.rest);
    }
  }

  /**
    Redacting a parsed record depends on nothing but the data outside sensitive values, and on all of it: two records
    are redacted to the same thing exactly when they agree everywhere else.
    */
  lemma {:induction false} RedactEqualIff(lower: string -> string, a: Data, b: Data)
    ensures Redact(lower, a) == Redact(lower, b) <==> Agree(lower, a, b)
    decreases a, 0
  {
    match a
    case Dict(fs) =>
      if b.Dict? {
        FieldsEqualIff(lower, fs, b.fields);
      }
    case List(es) =>
      if b.List? {
        ElemsEqualIff(lower, es, b.elems);
      }
    case Word(_) =>
    case Chars(_) =>
  }

  lemma {:induction false} FieldsEqualIff(lower: string -> string, a: Fields, b: Fields)
    ensures RedactFields(lower, a) == RedactFields(lower, b) <==> AgreeFields(lower, a, b)
    decreases a, 1
  {
    if a.Field? && b.Field? {
      RedactEqualIff(lower, a.d, b.d);
      FieldsEqualIff(lower, a.rest, b.rest);
    }
  }

  lemma {:induction false} ElemsEqualIff(lower: string -> string, a: Elems, b: Elems)
    ensures RedactElems(lower, a) == RedactElems(lower, b) <==> AgreeElems(lower, a, b)
    decreases a, 1
  {
    if a.Elem? && b.Elem? {
      RedactEqualIff(lower, a.d, b.d);
      ElemsEqualIff(lower, a.rest, b.rest);
    }
  }

  /** A clean record is left as it is, so redacting twice is redacting once. */
  lemma {:induction false} CleanIsFixed(lower: string -> string, d: Data)
    ensures Redact(lower, d) == d <==> Clean(lower, d)
    decreases d, 0
  {
    match d
    case Dict(fs) => FieldsFixed(lower, fs);
    case List(es) => ElemsFixed(lower, es);
    case Word(_) =>
    case Chars(_) =>
  }

  lemma {:induction false} FieldsFixed(lower: string -> string, fs: Fields)
    ensures RedactFields(lower, fs) == fs <==> CleanFields(lower, fs)
    decreases fs, 1
  {
    if fs.Field? {
      CleanIsFixed(lower, fs.d);
      FieldsFixed(lower, fs.rest);
    }
  }

  lemma {:induction false} ElemsFixed(lower: string -> string, es: Elems)
    ensures RedactElems(lower, es) == es <==> CleanElems(lower, es)
    decreases es, 1
  {
    if es.Elem? {
      CleanIsFixed(lower, es.d);
      ElemsFixed(lower, es.rest);
    }
  }

  lemma RedactTwice(lower: string -> string, d: Data)
    ensures Redact(lower, Redact(lower, d)) == Redact(lower, d)
  {
    RedactCleans(lower, d);
    CleanIsFixed(lower, Redact(lower, d));
  }

  /** Which values go: those under one of the six header names, in any case and at any depth; everything else is looked into. */
  lemma SixHeadersAreRedacted(lower: string -> string, key: string, d: Data, fields: Fields, elems: Elems)
    ensures Redact(lower, Dict(Field(key, d, fields)))
         == (var hidden := lower(key) in {"authorization", "proxy-authorization", "cookie", "set-cookie", "x-api-key", "x-auth-token"};
             Dict(Field(key, if hidden then Chars("[REDACTED]") else Redact(lower, d), Redact(lower, Dict(fields)).fields)))
    ensures Redact(lower, List(Elem(d, elems))) == List(Elem(Redact(lower, d), Redact(lower, List(elems)).elems))
    ensures Redact(lower, Dict(NoFields)) == Dict(NoFields) && Redact(lower, List(NoElems)) == List(NoElems)
  {
  }

  // ------------------------------------------------------------------ what is sent of a stored record

  /** How deep dicts and lists are nested. */
  function Depth(d: Data): nat {
    match d
    case Dict(fs) => 1 + FieldsDepth(fs)
    case List(es) => 1 + ElemsDepth(es)
    case Word(_) => 0
    case Chars(_) => 0
  }

  function FieldsDepth(fs: Fields): nat {
    if fs.NoFields? then 0 else Max(Depth(fs.d), FieldsDepth(fs.rest))
  }

  function ElemsDepth(es: Elems): nat {
    if es.NoElems? then 0 else Max(Depth(es.d), ElemsDepth(es.rest))
  }

  /**
    format_modsec_message on the row of a record: the stored data, parsed and redacted. Parsing, redaction and dump
    recurse, and past the interpreter's limit they raise; any exception is answered with the row's text as it is.
    */
  function Sent(lower: string -> string, limit: nat, d: Data): Data {
    if Depth(Stored(d)) <= limit then Redact(lower, Stored(d)) else Stored(d)
  }

  predicate WithinCap(d: Data) {
    |Encode(Dumps(d))| <= CAP
  }

  predicate Handled(limit: nat, d: Data) {
    WithinCap(d) && Depth(d) <= limit
  }

  /** The keys of the truncation envelope are no headers. */
  predicate KeepsEnvelope(lower: string -> string) {
    lower(TRUNCATED) !in SENSITIVE && lower(HEAD) !in SENSITIVE
  }

  lemma EnvelopeIsClean(lower: string -> string, head: string)
    requires KeepsEnvelope(lower)
    ensures Clean(lower, Envelope(head)) && Redact(lower, Envelope(head)) == Envelope(head)
  {
    var last := Field(HEAD, Chars(head), NoFields);
    assert Clean(lower, last.d) && CleanFields(lower, last.rest);
    assert CleanFields(lower, last);
    assert Clean(lower, Word("true"));
    assert CleanFields(lower, Field(TRUNCATED, Word("true"), last));
    CleanIsFixed(lower, Envelope(head));
  }

  lemma {:induction false} RedactDepth(lower: string -> string, d: Data)
    ensures Depth(Redact(lower, d)) <= Depth(d)
    decreases d, 0
  {
    match d
    case Dict(fs) => FieldsRedactDepth(lower, fs);
    case List(es) => ElemsRedactDepth(lower, es);
    case Word(_) =>
    case Chars(_) =>
  }

  lemma {:induction false} FieldsRedactDepth(lower: string -> string, fs: Fields)
    ensures FieldsDepth(RedactFields(lower, fs)) <= FieldsDepth(fs)
    decreases fs, 1
  {
    if fs.Field? {
      RedactDepth(lower, fs.d);
      FieldsRedactDepth(lower, fs.rest);
    }
  }

  lemma {:induction false} ElemsRedactDepth(lower: string -> string, es: Elems)
    ensures ElemsDepth(RedactElems(lower, es)) <= ElemsDepth(es)
    decreases es, 1
  {
    if es.Elem? {
      RedactDepth(lower, es.d);
      ElemsRedactDepth(lower, es.rest);
    }
  }

  lemma EnvelopeDepth(head: string)
    ensures Depth(Envelope(head)) == 1
  {
    var last := Field(HEAD, Chars(head), NoFields);
    assert FieldsDepth(last.rest) == 0 && FieldsDepth(last) == 0;
    assert FieldsDepth(Field(TRUNCATED, Word("true"), last)) == 0;
  }

  /**
    Of a record within the cap and the nesting limit no sensitive value is sent. A record nested deeper is sent as it
    is. Of a record over the cap the stored head is sent as it is: redaction does not look into strings.
    */
  lemma SentIs(lower: string -> string, limit: nat, d: Data)
    requires KeepsEnvelope(lower) && limit >= 1
    ensures Handled(limit, d) ==> Sent(lower, limit, d) == Redact(lower, d) && Clean(lower, Sent(lower, limit, d))
    ensures WithinCap(d) && !Handled(limit, d) ==> Sent(lower, limit, d) == d
    ensures !WithinCap(d) ==> Sent(lower, limit, d) == Envelope(HeadOf(Dumps(d)))
  {
    hide Dumps, Encode, HeadOf, Envelope, Depth;
    RedactCleans(lower, d);
    EnvelopeIsClean(lower, HeadOf(Dumps(d)));
    EnvelopeDepth(HeadOf(Dumps(d)));
  }

  /** Only the envelope itself agrees with an envelope. */
  lemma RedactsToEnvelope(lower: string -> string, d: Data, head: string)
    requires KeepsEnvelope(lower) && Redact(lower, d) == Envelope(head)
    ensures d == Envelope(head)
  {
    var fs := d.fields;
    var last := Field(HEAD, Chars(head), NoFields);
    assert RedactFields(lower, fs) == Field(TRUNCATED, Word("true"), last);
    ScalarIsKept(lower, fs);
    ScalarIsKept(lower, fs.rest);
    assert fs.rest.rest == NoFields;
  }

  /** A plain field with a scalar value comes from itself. */
  lemma ScalarIsKept(lower: string -> string, fs: Fields)
    requires fs.Field? && lower(fs.key) !in SENSITIVE
    requires RedactFields(lower, fs).d.Word? || RedactFields(lower, fs).d.Chars?
    ensures RedactFields(lower, fs) == Field(fs.key, fs.d, RedactFields(lower, fs.rest))
  {
  }

  /**
    When what is sent hides the sensitive values: two records that agree outside them are sent identically exactly when
    they are the same, or both are within the cap and the nesting limit, or both are over the cap with equal stored heads.
    */
  lemma SentHidesIff(lower: string -> string, limit: nat, a: Data, b: Data)
    requires KeepsEnvelope(lower) && limit >= 1 && Agree(lower, a, b)
    ensures Sent(lower, limit, a) == Sent(lower, limit, b) <==>
              || a == b
              || (Handled(limit, a) && Handled(limit, b))
              || (!WithinCap(a) && !WithinCap(b) && HeadOf(Dumps(a)) == HeadOf(Dumps(b)))
  {
    SentIs(lower, limit, a);
    SentIs(lower, limit, b);
    RedactEqualIff(lower, a, b);
    RedactDepth(lower, a);
    RedactDepth(lower, b);
    var ha, hb := HeadOf(Dumps(a)), HeadOf(Dumps(b));
    EnvelopeDepth(ha);
    EnvelopeDepth(hb);
    hide Sent, Redact, Agree, WithinCap, Dumps, HeadOf, Depth;
    if Handled(limit, a) && !WithinCap(b) && Sent(lower, limit, a) == Sent(lower, limit, b) {
      RedactsToEnvelope(lower, a, hb);
      RedactsToEnvelope(lower, b, hb);
    }
    if Handled(limit, b) && !WithinCap(a) && Sent(lower, limit, a) == Sent(lower, limit, b) {
      RedactsToEnvelope(lower, a, ha);
      RedactsToEnvelope(lower, b, ha);
    }
  }

  // ------------------------------------------------------------------ a record whose cookie is sent

  /** {"cookie": "ccc..."}, n times c. */
  function CookieRecord(c: char, n: nat): Data {
    Dict(Field("cookie", Chars(seq(n, _ => c)), NoFields))
  }

  const COOKIE_BEFORE := "{\"cookie\": \""

  lemma {:induction false} PlainRun(s: string)
    requires forall i :: 0 <= i < |s| ==> 'A' <= s[i] <= 'z' && s[i] != '\\'
    ensures AllPlain(s) && IsAscii(s)
  {
  }

  lemma CookieText(c: char, n: nat) returns (rest: string)
    requires 'a' <= c <= 'z'
    ensures rest == seq(n, _ => c) + AFTER && Dumps(CookieRecord(c, n)) == COOKIE_BEFORE + rest
  {
    var value := seq(n, _ => c);
    PlainRun("cookie");
    PlainRun(value);
    OneFieldText("cookie", value);
    RawOfPlain(value, AFTER);
    assert ['"'] + "}" == AFTER;
    rest := value + AFTER;
    CookieGlue(rest);
    hide Dumps, AllPlain, KeyText, Pieces;
  }

  lemma CookieGlue(rest: string)
    ensures ['{'] + ([] + KeyText("cookie") + (['"'] + rest)) == COOKIE_BEFORE + rest
  {
  }

  lemma CookieHead(c: char)
    requires 'a' <= c <= 'z'
    ensures !WithinCap(CookieRecord(c, 70000))
    ensures |HeadOf(Dumps(CookieRecord(c, 70000)))| > 12 && HeadOf(Dumps(CookieRecord(c, 70000)))[12] == c
  {
    var rest := CookieText(c, 70000);
    var raw := Dumps(CookieRecord(c, 70000));
    hide Dumps, CookieRecord;
    assert |raw| == 70014 && raw[12] == rest[0] == c;
    assert IsAscii(COOKIE_BEFORE) && IsAscii(AFTER);
    assert IsAscii(raw);
    AsciiBytes(raw);
    AsciiFits(raw, HEAD_BYTES);
    CutIsExact(raw, HEAD_BYTES);
    hide CutAtBytes, Encode, Fitting, IsAscii;
  }

  lemma CookiesAgree(lower: string -> string, n: nat)
    requires lower("cookie") == "cookie"
    ensures Agree(lower, CookieRecord('a', n), CookieRecord('b', n))
    ensures n > 0 ==> CookieRecord('a', n) != CookieRecord('b', n)
  {
    var a, b := CookieRecord('a', n), CookieRecord('b', n);
    assert AgreeFields(lower, a.fields, b.fields);
    assert n > 0 ==> a.fields.d.s[0] != b.fields.d.s[0];
  }

  /** Two records that differ only in a cookie of 70000 characters, and are sent differently. */
  lemma LongCookieIsSent(lower: string -> string, limit: nat)
    requires KeepsEnvelope(lower) && lower("cookie") == "cookie" && limit >= 1
    ensures var a, b := CookieRecord('a', 70000), CookieRecord('b', 70000);
            Agree(lower, a, b) && Sent(lower, limit, a) != Sent(lower, limit, b)
  {
    CookiesAgree(lower, 70000);
    CookieHead('a');
    CookieHead('b');
    hide Dumps, HeadOf, Sent, CookieRecord, Agree, WithinCap, Depth;
    SentHidesIff(lower, limit, CookieRecord('a', 70000), CookieRecord('b', 70000));
  }

  /** [[...[d]...]], n brackets deep. */
  function Nested(n: nat, d: Data): Data {
    if n == 0 then d else List(Elem(Nested(n - 1, d), NoElems))
  }

  lemma {:induction false} NestedIs(lower: string -> string, n: nat, a: Data, b: Data)
    ensures Depth(Nested(n, a)) == n + Depth(a)
    ensures Agree(lower, a, b) ==> Agree(lower, Nested(n, a), Nested(n, b))
    ensures a != b ==> Nested(n, a) != Nested(n, b)
  {
    if n > 0 {
      NestedIs(lower, n - 1, a, b);
      var x, y := Elem(Nested(n - 1, a), NoElems), Elem(Nested(n - 1, b), NoElems);
      assert ElemsDepth(x.rest) == 0 && AgreeElems(lower, x.rest, y.rest);
      assert Agree(lower, a, b) ==> AgreeElems(lower, x, y);
    }
  }

  /** Each level takes two characters. */
  lemma {:induction false} NestedText(n: nat, d: Data)
    requires IsAscii(Dumps(d))
    ensures IsAscii(Dumps(Nested(n, d))) && |Dumps(Nested(n, d))| == 2 * n + |Dumps(d)|
  {
    if n > 0 {
      NestedText(n - 1, d);
      OneElemText(Nested(n - 1, d));
    }
  }

  lemma OneElemText(d: Data)
    ensures Dumps(List(Elem(d, NoElems))) == ['['] + (Dumps(d) + "]")
  {
    var items := ElemTree(Elem(d, NoElems), []);
    TextAppends(Tree(d), [], "]");
    assert [] + (Text(Tree(d), []) + "]") == Text(Tree(d), []) + "]";
    assert ElemTree(NoElems, " ") == NoItems && items.post + "]" == "]";
    assert ItemsTail(NoItems, []) == "]" by {
      assert [']'] + [] == "]";
    }
    assert ItemsText(items, []) == [] + Text(Tree(d), "]");
  }

  /**
    Two records of a few kilobytes at most that differ only in a one-letter cookie, nested one level past the limit,
    and are sent differently.
    */
  lemma DeepCookieIsSent(lower: string -> string, limit: nat)
    requires KeepsEnvelope(lower) && lower("cookie") == "cookie" && 1 <= limit <= 30000
    ensures var a, b := Nested(limit, CookieRecord('a', 1)), Nested(limit, CookieRecord('b', 1));
            && Agree(lower, a, b) && WithinCap(a) && WithinCap(b)
            && Sent(lower, limit, a) != Sent(lower, limit, b)
  {
    var ca, cb := CookieRecord('a', 1), CookieRecord('b', 1);
    CookiesAgree(lower, 1);
    ShortCookie('a');
    ShortCookie('b');
    NestedIs(lower, limit, ca, cb);
    NestedIs(lower, limit, cb, ca);
    NestedText(limit, ca);
    NestedText(limit, cb);
    hide CookieRecord, Dumps, HeadOf, Sent, Agree, Depth, Nested, Encode;
    AsciiBytes(Dumps(Nested(limit, ca)));
    AsciiBytes(Dumps(Nested(limit, cb)));
    SentHidesIff(lower, limit, Nested(limit, ca), Nested(limit, cb));
  }

  lemma ShortCookie(c: char)
    requires 'a' <= c <= 'z'
    ensures IsAscii(Dumps(CookieRecord(c, 1))) && |Dumps(CookieRecord(c, 1))| == 15 && Depth(CookieRecord(c, 1)) == 1
  {
    var rest := CookieText(c, 1);
    var fs := CookieRecord(c, 1).fields;
    assert Depth(fs.d) == 0 && FieldsDepth(fs.rest) == 0;
    hide Dumps, CookieRecord;
    assert IsAscii(rest);
    assert IsAscii(COOKIE_BEFORE) && IsAscii(AFTER);
  }
}
