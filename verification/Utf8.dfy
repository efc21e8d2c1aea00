/**
  UTF-8 (section 3 of RFC 3629) as Python's encode("utf-8") and decode("utf-8", "ignore") use it.
  A Dafny char is a Unicode scalar value.
  */
module Utf8 {
  type Byte = b: int | 0 <= b < 256 witness 0
  type Bytes = seq<Byte>

  function EncodeOne(ch: char): (e: Bytes)
    ensures 1 <= |e| <= 4
  {
    var c := ch as int;
    if c < 0x80 then [c]
    else if c < 0x800 then [0xC0 + c / 64, 0x80 + c % 64]
    else if c < 0x10000 then [0xE0 + c / 4096, 0x80 + c / 64 % 64, 0x80 + c % 64]
    else [0xF0 + c / 262144, 0x80 + c / 4096 % 64, 0x80 + c / 64 % 64, 0x80 + c % 64]
  }

  function Encode(s: string): Bytes {
    if s == [] then [] else EncodeOne(s[0]) + Encode(s[1..])
  }

  /** Length of the sequence a lead byte announces; 0 for a byte that cannot start one. */
  function Announced(lead: Byte): (n: nat)
    ensures n <= 4
  {
    if lead < 0x80 then 1
    else if 0xC2 <= lead <= 0xDF then 2
    else if 0xE0 <= lead <= 0xEF then 3
    else if 0xF0 <= lead <= 0xF4 then 4
    else 0
  }

  /** Whether b may be the byte at position i >= 1 of a sequence; the second byte is restricted further. */
  predicate Continues(lead: Byte, i: nat, b: Byte) {
    && 0x80 <= b <= 0xBF
    && (i == 1 ==>
          && (lead == 0xE0 ==> 0xA0 <= b)
          && (lead == 0xED ==> b <= 0x9F)
          && (lead == 0xF0 ==> 0x90 <= b)
          && (lead == 0xF4 ==> b <= 0x8F))
  }

  /** Number of bytes, from position i on, that go on with the sequence started by s[0]. */
  function Matched(s: Bytes, i: nat, n: nat): (m: nat)
    requires 1 <= i && 0 < |s|
    ensures i <= n && i <= |s| ==> i + m <= n && i + m <= |s|
    decreases n - i
  {
    if i < n && i < |s| && Continues(s[0], i, s[i]) then 1 + Matched(s, i + 1, n) else 0
  }

  function Join(s: Bytes, n: nat): int
    requires 1 <= n <= 4 && n <= |s|
  {
    var lead: int := s[0];
    if n == 1 then lead
    else if n == 2 then 64 * (lead - 0xC0) + Tail(s, 1)
    else if n == 3 then 4096 * (lead - 0xE0) + 64 * Tail(s, 1) + Tail(s, 2)
    else 262144 * (lead - 0xF0) + 4096 * Tail(s, 1) + 64 * Tail(s, 2) + Tail(s, 3)
  }

  /** The six payload bits of a continuation byte. */
  function Tail(s: Bytes, i: nat): int
    requires i < |s|
  {
    var b: int := s[i];
    b - 0x80
  }

  lemma {:induction false} MatchedAll(s: Bytes, i: nat, n: nat)
    requires 1 <= i && 0 < |s| && i + Matched(s, i, n) == n
    ensures forall j :: i <= j < n ==> j < |s| && Continues(s[0], j, s[j])
    decreases n - i
  {
    if i < n {
      MatchedAll(s, i + 1, n);
    }
  }

  /**
    decode(..., "ignore"): an ill-formed sequence is dropped up to and excluding the first byte that cannot
    belong to it, an incomplete one at the end of the data is dropped altogether.
    */
  function DecodeIgnore(s: Bytes): string
    decreases |s|
  {
    if s == [] then []
    else
      var n := Announced(s[0]);
      if n == 0 then DecodeIgnore(s[1..])
      else
        var m := 1 + Matched(s, 1, n);
        if m < n then DecodeIgnore(s[m..])
        else
          [Join(s, n) as char] + DecodeIgnore(s[n..])
  }

  // ------------------------------------------------------------------ one character

  lemma SixBitDigits(c: nat)
    ensures c == 64 * (c / 64) + c % 64
    ensures c / 64 == 64 * (c / 4096) + c / 64 % 64
    ensures c / 4096 == 64 * (c / 262144) + c / 4096 % 64
  {
    assert c / 64 / 64 == c / 4096;
    assert c / 4096 / 64 == c / 262144;
  }

  lemma EncodedShape(ch: char)
    ensures var e := EncodeOne(ch);
            && Announced(e[0]) == |e| && Join(e, |e|) == ch as int
            && forall j :: 1 <= j < |e| ==> Continues(e[0], j, e[j])
  {
    var c := ch as int;
    SixBitDigits(c);
    var e := EncodeOne(ch);
    if c < 0x80 {
    } else if c < 0x800 {
      assert Tail(e, 1) == c % 64;
    } else if c < 0x10000 {
      assert Tail(e, 1) == c / 64 % 64 && Tail(e, 2) == c % 64;
    } else {
      assert Tail(e, 1) == c / 4096 % 64 && Tail(e, 2) == c / 64 % 64 && Tail(e, 3) == c % 64;
    }
  }

  /** Continuation bytes present up to k and nothing after them: exactly k bytes match. */
  lemma {:induction false} MatchedExactly(s: Bytes, i: nat, n: nat, k: nat)
    requires 1 <= i <= k <= n && k <= |s| && (k == n || k == |s|)
    requires forall j :: i <= j < k ==> Continues(s[0], j, s[j])
    ensures i + Matched(s, i, n) == k
    decreases k - i
  {
    if i < k {
      MatchedExactly(s, i + 1, n, k);
    }
  }

  lemma DecodeWhole(c: char, rest: Bytes)
    ensures DecodeIgnore(EncodeOne(c) + rest) == [c] + DecodeIgnore(rest)
  {
    EncodedShape(c);
    var e := EncodeOne(c);
    var s := e + rest;
    var n := |e|;
    assert forall j :: 0 <= j < n ==> s[j] == e[j];
    MatchedExactly(s, 1, n, n);
    assert s[n..] == rest;
    assert Join(s, n) == Join(e, n);
  }

  lemma DecodePartial(c: char, k: nat)
    requires k < |EncodeOne(c)|
    ensures DecodeIgnore(EncodeOne(c)[..k]) == []
  {
    EncodedShape(c);
    var s := EncodeOne(c)[..k];
    if k > 0 {
      MatchedExactly(s, 1, |EncodeOne(c)|, k);
      assert s[k..] == [];
    }
  }

  // ------------------------------------------------------------------ truncation

  /** The number of leading characters of s whose encoding fits in n bytes. */
  function Fitting(s: string, n: nat): (k: nat)
    ensures k <= |s|
  {
    if s == [] || |EncodeOne(s[0])| > n then 0 else 1 + Fitting(s[1..], n - |EncodeOne(s[0])|)
  }

  lemma {:induction false} EncodeConcat(s: string, t: string)
    ensures Encode(s + t) == Encode(s) + Encode(t)
  {
    hide EncodeOne;
    if s == [] {
      assert s + t == t;
    } else {
      EncodeConcat(s[1..], t);
      assert (s + t)[1..] == s[1..] + t;
    }
  }

  lemma EncodePrefixMonotone(s: string, i: nat, j: nat)
    requires i <= j <= |s|
    ensures |Encode(s[..i])| <= |Encode(s[..j])|
    ensures Encode(s[..i]) <= Encode(s)
  {
    EncodeConcat(s[..i], s[i..j]);
    assert s[..i] + s[i..j] == s[..j];
    EncodeConcat(s[..i], s[i..]);
    assert s[..i] + s[i..] == s;
  }

  /** Fitting really is the longest prefix that fits, and it wastes at most 3 bytes when something is cut. */
  lemma {:induction false} FittingIsLongest(s: string, n: nat)
    ensures var k := Fitting(s, n);
            && |Encode(s[..k])| <= n
            && (k < |s| ==> |Encode(s[..k])| + |EncodeOne(s[k])| > n && n < |Encode(s[..k])| + 4)
            && (forall j :: k < j <= |s| ==> |Encode(s[..j])| > n)
  {
    hide EncodeOne;
    var k := Fitting(s, n);
    if s != [] && |EncodeOne(s[0])| <= n {
      FittingIsLongest(s[1..], n - |EncodeOne(s[0])|);
      assert s[..k][1..] == s[1..][..k - 1];
    }
    if k < |s| {
      assert s[..k] + [s[k]] == s[..k + 1];
      EncodeConcat(s[..k], [s[k]]);
      assert Encode([s[k]]) == EncodeOne(s[k]) + Encode([s[k]][1..]);
      forall j | k < j <= |s| ensures |Encode(s[..j])| > n
      {
        EncodePrefixMonotone(s, k + 1, j);
      }
    }
  }

  /** Cutting the encoding at any byte and decoding with "ignore" gives the longest prefix that fits. */
  lemma {:induction false} CutThenDecode(s: string, n: nat)
    requires n <= |Encode(s)|
    ensures DecodeIgnore(Encode(s)[..n]) == s[..Fitting(s, n)]
  {
    hide EncodeOne, Announced, Matched, Join;
    if s != [] {
      var e := EncodeOne(s[0]);
      if |e| <= n {
        CutThenDecode(s[1..], n - |e|);
        assert Encode(s)[..n] == e + Encode(s[1..])[..n - |e|];
        DecodeWhole(s[0], Encode(s[1..])[..n - |e|]);
        assert s[..Fitting(s, n)] == [s[0]] + s[1..][..Fitting(s[1..], n - |e|)];
      } else {
        assert Encode(s)[..n] == e[..n];
        DecodePartial(s[0], n);
      }
    }
  }

  /** Decoding undoes encoding. */
  lemma DecodeEncode(s: string)
    ensures DecodeIgnore(Encode(s)) == s
  {
    CutThenDecode(s, |Encode(s)|);
    FittingIsLongest(s, |Encode(s)|);
    assert Encode(s)[..|Encode(s)|] == Encode(s);
    assert s[..|s|] == s;
  }

  /** encode, cut at n bytes, decode with "ignore". */
  function CutAtBytes(s: string, n: nat): string {
    if |Encode(s)| <= n then DecodeIgnore(Encode(s)) else DecodeIgnore(Encode(s)[..n])
  }

  /** What the cut keeps: the longest prefix within n bytes, at most 3 bytes short of n. */
  lemma CutIsExact(s: string, n: nat)
    ensures CutAtBytes(s, n) == s[..Fitting(s, n)]
    ensures |Encode(CutAtBytes(s, n))| <= n
    ensures |Encode(s)| > n ==> |Encode(CutAtBytes(s, n))| > n - 4
    ensures forall j :: 0 <= j <= |s| && |Encode(s[..j])| <= n ==> s[..j] <= CutAtBytes(s, n)
  {
    FittingIsLongest(s, n);
    if |Encode(s)| <= n {
      DecodeEncode(s);
      assert Fitting(s, n) == |s| by {
        EncodePrefixMonotone(s, |s|, |s|);
      }
    } else {
      CutThenDecode(s, n);
      assert s[..|s|] == s;
    }
  }

  predicate IsAscii(s: string) {
    forall i :: 0 <= i < |s| ==> s[i] as int < 0x80
  }

  /** ASCII text encodes to itself. */
  lemma {:induction false} AsciiBytes(s: string)
    requires IsAscii(s)
    ensures |Encode(s)| == |s|
    ensures forall i :: 0 <= i < |s| ==> Encode(s)[i] == s[i] as int
  {
    if s != [] {
      AsciiBytes(s[1..]);
      assert EncodeOne(s[0]) == [s[0] as int];
      forall i | 0 <= i < |s| ensures Encode(s)[i] == s[i] as int
      {
        if i > 0 {
          assert s[i] == s[1..][i - 1];
        }
      }
    }
  }

  /** Four characters of one to four bytes, written out. */
  lemma KnownEncodings()
    ensures EncodeOne('A') == [0x41] && EncodeOne(0xE9 as char) == [0xC3, 0xA9] && EncodeOne(0x20AC as char) == [0xE2, 0x82, 0xAC]
    ensures EncodeOne(0x1F600 as char) == [0xF0, 0x9F, 0x98, 0x80]
  {
  }
}
