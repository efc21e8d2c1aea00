/** RFC 5424 frames: sanitised header fields, a sanitised body cut at 8192 bytes. */
module SyslogFrame {
  import opened Utf8
  import opened Decimal
  import Clock

  const MAX_MSG_BYTES: nat := 8192
  const TRUNCATED := " [truncated]"
  const NILVALUE := "-"

  /** message.translate({NUL: None, CR: " ", LF: " "}). */
  function Sanitize(message: string): string {
    if message == [] then []
    else
      var c := message[0];
      (if c == '\0' then [] else if c == '\r' || c == '\n' then [' '] else [c]) + Sanitize(message[1..])
  }

  function Body(message: string): string {
    var safe := Sanitize(message);
    var enc := Encode(safe);
    if |enc| > MAX_MSG_BYTES then DecodeIgnore(enc[..MAX_MSG_BYTES]) + TRUNCATED else safe
  }

  /** s.replace(" ", "_"). */
  function Underscored(s: string): (r: string)
    ensures |r| == |s|
  {
    if s == [] then [] else [if s[0] == ' ' then '_' else s[0]] + Underscored(s[1..])
  }

  /** One header field: never empty, no spaces, at most `cap` characters. */
  function Field(s: string, cap: nat): string {
    var u := Underscored(if s == [] then NILVALUE else s);
    if |u| <= cap then u else u[..cap]
  }

  /** PRI and version, timestamp, host, application, process id, message id, structured data. */
  function Headers(facility: nat, severity: nat, t: Clock.Stamp, hostname: string, appname: string,
                   procid: string, msgid: string): seq<string>
  {
    ["<" + Dec(facility * 8 + severity) + ">1", Clock.IsoFormat(t), Field(hostname, 255),
     Field(appname, 48), Field(procid, 128), Field(msgid, 32), NILVALUE]
  }

  function Render(header: seq<string>, body: string): string {
    if header == [] then body else header[0] + " " + Render(header[1..], body)
  }

  function BuildRfc5424(facility: nat, severity: nat, t: Clock.Stamp, hostname: string, appname: string,
                        procid: string, msgid: string, message: string): string
  {
    Render(Headers(facility, severity, t, hostname, appname, procid, msgid), Body(message))
  }

  /** The frame of table row `id`, as the worker builds it for either source. */
  function RowFrame(facility: nat, severity: nat, t: Clock.Stamp, id: nat, msgid: string, message: string): string {
    BuildRfc5424(facility, severity, t, "wardnode", "wardnode", Dec(id), msgid, message)
  }

  // ------------------------------------------------------------------ the collector's side

  function FirstSpace(s: string): (i: nat)
    ensures i <= |s| && (i < |s| ==> s[i] == ' ')
  {
    if s == [] || s[0] == ' ' then 0 else 1 + FirstSpace(s[1..])
  }

  /** Cut n space-terminated tokens off the front. */
  function Tokens(s: string, n: nat): (seq<string>, string) {
    if n == 0 || FirstSpace(s) == |s| then ([], s)
    else
      var i := FirstSpace(s);
      var (rest, body) := Tokens(s[i + 1..], n - 1);
      ([s[..i]] + rest, body)
  }

  /** A collector reads seven header tokens; what is left is the message. */
  function Parse(frame: string): (seq<string>, string) {
    Tokens(frame, 7)
  }

  predicate NoSpace(s: string) {
    ' ' !in s
  }

  predicate OneLine(s: string) {
    '\0' !in s && '\r' !in s && '\n' !in s
  }

  // ------------------------------------------------------------------ the body

  lemma {:induction false} SanitizeIsOneLine(message: string)
    ensures OneLine(Sanitize(message))
  {
    if message != [] {
      SanitizeIsOneLine(message[1..]);
    }
  }

  lemma {:induction false} SanitizeKeepsCleanText(message: string)
    requires OneLine(message)
    ensures Sanitize(message) == message
  {
    if message != [] {
      SanitizeKeepsCleanText(message[1..]);
      assert message == [message[0]] + message[1..];
    }
  }

  lemma MarkerBytes()
    ensures |Encode(TRUNCATED)| == 12
  {
    AsciiBytes(TRUNCATED);
  }

  /**
    The body: unchanged when it fits; otherwise exactly the longest prefix whose encoding fits in 8192
    bytes, followed by the marker; never over 8204 bytes, never more than one line.
    */
  lemma BodyIsExact(message: string)
    ensures var safe := Sanitize(message);
            && (|Encode(safe)| <= 8192 ==> Body(message) == safe)
            && (|Encode(safe)| > 8192 ==>
                  var k := Fitting(safe, 8192);
                  && Body(message) == safe[..k] + " [truncated]"
                  && 8189 <= |Encode(safe[..k])| <= 8192
                  && forall j :: k < j <= |safe| ==> |Encode(safe[..j])| > 8192)
    ensures |Encode(Body(message))| <= 8204
    ensures OneLine(Body(message))
  {
    hide Encode, DecodeIgnore, Sanitize, Fitting;
    var safe := Sanitize(message);
    SanitizeIsOneLine(message);
    if |Encode(safe)| > MAX_MSG_BYTES {
      CutIsExact(safe, MAX_MSG_BYTES);
      FittingIsLongest(safe, MAX_MSG_BYTES);
      var k := Fitting(safe, MAX_MSG_BYTES);
      EncodeConcat(safe[..k], TRUNCATED);
      MarkerBytes();
    }
  }

  // ------------------------------------------------------------------ the header

  lemma {:induction false} UnderscoredHasNoSpace(s: string)
    ensures NoSpace(Underscored(s))
  {
    if s != [] {
      UnderscoredHasNoSpace(s[1..]);
    }
  }

  lemma FieldHasNoSpace(s: string, cap: nat)
    requires cap > 0
    ensures NoSpace(Field(s, cap)) && 1 <= |Field(s, cap)| <= cap
  {
    UnderscoredHasNoSpace(if s == [] then NILVALUE else s);
  }

  lemma {:induction false} FirstSpaceAfterToken(token: string, rest: string)
    requires NoSpace(token)
    ensures FirstSpace(token + " " + rest) == |token|
  {
    if token != [] {
      FirstSpaceAfterToken(token[1..], rest);
      assert (token + " " + rest)[1..] == token[1..] + " " + rest;
    } else {
      assert (token + " " + rest)[0] == ' ';
    }
  }

  lemma TokenOff(token: string, rest: string, n: nat)
    requires NoSpace(token) && n > 0
    ensures Tokens(token + " " + rest, n) == ([token] + Tokens(rest, n - 1).0, Tokens(rest, n - 1).1)
  {
    FirstSpaceAfterToken(token, rest);
    var s := token + " " + rest;
    assert s[..|token|] == token && s[|token| + 1..] == rest;
  }

  /** Any header without spaces and any body, spaces included, come back from the frame. */
  lemma {:induction false} RenderParses(header: seq<string>, body: string)
    requires forall i :: 0 <= i < |header| ==> NoSpace(header[i])
    ensures Tokens(Render(header, body), |header|) == (header, body)
  {
    hide FirstSpace, Tokens, NoSpace;
    if header == [] {
      NoTokens(body);
    } else {
      RenderParses(header[1..], body);
      TokenOff(header[0], Render(header[1..], body), |header|);
      assert header == [header[0]] + header[1..];
    }
  }

  lemma NoTokens(body: string)
    ensures Tokens(body, 0) == ([], body)
  {
  }

  lemma HeadersHaveNoSpace(facility: nat, severity: nat, t: Clock.Stamp, hostname: string, appname: string,
                           procid: string, msgid: string)
    ensures var h := Headers(facility, severity, t, hostname, appname, procid, msgid);
            forall i :: 0 <= i < |h| ==> NoSpace(h[i])
  {
    FieldHasNoSpace(hostname, 255);
    FieldHasNoSpace(appname, 48);
    FieldHasNoSpace(procid, 128);
    FieldHasNoSpace(msgid, 32);
  }

  /** PRI as the collector reads it back. */
  lemma PriRoundTrip(facility: nat, severity: nat)
    requires severity < 8
    ensures var pri := "<" + Dec(facility * 8 + severity) + ">1";
            && |pri| >= 4 && AllDigits(pri[1..|pri| - 2])
            && Value(pri[1..|pri| - 2]) / 8 == facility && Value(pri[1..|pri| - 2]) % 8 == severity
  {
    var pri := "<" + Dec(facility * 8 + severity) + ">1";
    assert pri[1..|pri| - 2] == Dec(facility * 8 + severity);
    ValueOfDec(facility * 8 + severity);
  }

  /**
    Whatever the arguments - empty fields, spaces, control characters in the body - a collector that
    splits the frame at its first seven spaces recovers the sanitised fields and the body.
    */
  lemma FrameRoundTrip(facility: nat, severity: nat, t: Clock.Stamp, hostname: string, appname: string,
                       procid: string, msgid: string, message: string)
    ensures Parse(BuildRfc5424(facility, severity, t, hostname, appname, procid, msgid, message))
         == (Headers(facility, severity, t, hostname, appname, procid, msgid), Body(message))
  {
    HeadersHaveNoSpace(facility, severity, t, hostname, appname, procid, msgid);
    RenderParses(Headers(facility, severity, t, hostname, appname, procid, msgid), Body(message));
  }

  /** What becomes of one character: a NUL goes, a line break character becomes a space. */
  function Cleaned(c: char): string {
    if c == '\0' then "" else if c == '\r' || c == '\n' then " " else [c]
  }

  /** Sanitising goes character by character. */
  lemma {:induction false} SanitizeIs(a: string, c: char)
    ensures Sanitize(a + [c]) == Sanitize(a) + Cleaned(c)
    ensures Sanitize([]) == []
  {
    if a == [] {
      assert [] + [c] == [c] && [c][1..] == [];
    } else {
      SanitizeIs(a[1..], c);
      var s := a + [c];
      assert s[0] == a[0] && s[1..] == a[1..] + [c];
      hide Cleaned;
    }
  }

  /** A header field as received: the text, or a dash for an empty one, cut, with underscores for spaces. */
  predicate IsFieldOf(f: string, s: string, cap: nat) {
    var u := if s == "" then "-" else s;
    && |f| == (if |u| <= cap then |u| else cap)
    && forall i :: 0 <= i < |f| ==> f[i] == if u[i] == ' ' then '_' else u[i]
  }

  lemma {:induction false} UnderscoredAt(s: string, i: nat)
    requires i < |s|
    ensures Underscored(s)[i] == if s[i] == ' ' then '_' else s[i]
  {
    if i > 0 {
      UnderscoredAt(s[1..], i - 1);
    }
  }

  lemma FieldIs(s: string, cap: nat)
    ensures IsFieldOf(Field(s, cap), s, cap)
  {
    var u := if s == [] then NILVALUE else s;
    forall i | 0 <= i < |u| ensures Underscored(u)[i] == if u[i] == ' ' then '_' else u[i]
    {
      UnderscoredAt(u, i);
    }
    hide Underscored;
  }

  /**
    What a collector reads from a frame, field by field: facility and severity from the first token, the time, host,
    application, process id and message id in their places, no structured data, and the body.
    */
  lemma CollectorReads(facility: nat, severity: nat, t: Clock.Stamp, hostname: string, appname: string,
                       procid: string, msgid: string, message: string)
    ensures var (h, body) := Parse(BuildRfc5424(facility, severity, t, hostname, appname, procid, msgid, message));
            && |h| == 7 && h[0] == "<" + Dec(8 * facility + severity) + ">1" && h[1] == Clock.IsoFormat(t)
            && IsFieldOf(h[2], hostname, 255) && IsFieldOf(h[3], appname, 48)
            && IsFieldOf(h[4], procid, 128) && IsFieldOf(h[5], msgid, 32) && h[6] == "-" && body == Body(message)
  {
    FrameRoundTrip(facility, severity, t, hostname, appname, procid, msgid, message);
    FieldIs(hostname, 255);
    FieldIs(appname, 48);
    FieldIs(procid, 128);
    FieldIs(msgid, 32);
    hide IsFieldOf, Field, Parse, BuildRfc5424, Body, Dec, Clock.IsoFormat;
  }

  lemma CleanFieldIs(s: string, cap: nat)
    requires s != [] && NoSpace(s) && |s| <= cap
    ensures Field(s, cap) == s
  {
    UnderscoredClean(s);
  }

  lemma FixedFields(msgid: string)
    requires msgid in {"WAF", "AUDIT"}
    ensures Field("wardnode", 255) == "wardnode" && Field("wardnode", 48) == "wardnode" && Field(msgid, 32) == msgid
  {
    hide Field;
    CleanFieldIs("wardnode", 255);
    CleanFieldIs("wardnode", 48);
    CleanFieldIs(msgid, 32);
  }

  /** What it reads from a frame of the worker: this program as host and application, the row's id and its kind. */
  lemma RowFrameReads(facility: nat, severity: nat, t: Clock.Stamp, id: nat, msgid: string, message: string)
    requires msgid in {"WAF", "AUDIT"} && |Dec(id)| <= 128
    ensures Parse(RowFrame(facility, severity, t, id, msgid, message))
         == (["<" + Dec(8 * facility + severity) + ">1", Clock.IsoFormat(t), "wardnode", "wardnode", Dec(id), msgid, "-"],
             Body(message))
  {
    hide Parse, BuildRfc5424, Body, Dec, Field, Clock.IsoFormat, NoSpace;
    FrameRoundTrip(facility, severity, t, "wardnode", "wardnode", Dec(id), msgid, message);
    DecIsClean(id);
    CleanFieldIs(Dec(id), 128);
    FixedFields(msgid);
  }

  lemma {:induction false} UnderscoredClean(s: string)
    requires NoSpace(s)
    ensures Underscored(s) == s
  {
    if s != [] {
      UnderscoredClean(s[1..]);
    }
  }

  lemma {:induction false} RenderOneLine(header: seq<string>, body: string)
    requires OneLine(body) && forall i :: 0 <= i < |header| ==> OneLine(header[i])
    ensures OneLine(Render(header, body))
  {
    if header != [] {
      RenderOneLine(header[1..], body);
    }
  }

  lemma CleanField(s: string, cap: nat)
    requires s != [] && NoSpace(s) && OneLine(s)
    ensures OneLine(Field(s, cap))
  {
    UnderscoredClean(s);
  }

  lemma DecIsClean(n: nat)
    ensures NoSpace(Dec(n)) && OneLine(Dec(n))
  {
    assert forall c :: c in Dec(n) ==> IsDigit(c);
  }

  lemma FixedTokensClean(facility: nat, severity: nat, t: Clock.Stamp)
    ensures OneLine("<" + Dec(facility * 8 + severity) + ">1") && OneLine(Clock.IsoFormat(t)) && OneLine(NILVALUE)
  {
    DecIsClean(facility * 8 + severity);
    hide Dec, Pad;
  }

  /** The worker's frames occupy one line whatever the logged data contains: no forged log lines. */
  lemma RowFrameIsOneLine(facility: nat, severity: nat, t: Clock.Stamp, id: nat, msgid: string, message: string)
    requires msgid == "WAF" || msgid == "AUDIT"
    ensures OneLine(RowFrame(facility, severity, t, id, msgid, message))
  {
    DecIsClean(id);
    hide Body, Dec, Field, Render, Encode, Fitting, Sanitize;
    BodyIsExact(message);
    CleanField("wardnode", 255);
    CleanField("wardnode", 48);
    CleanField(Dec(id), 128);
    CleanField(msgid, 32);
    FixedTokensClean(facility, severity, t);
    hide OneLine, Clock.IsoFormat;
    var h := Headers(facility, severity, t, "wardnode", "wardnode", Dec(id), msgid);
    RenderOneLine(h, Body(message));
  }
}
