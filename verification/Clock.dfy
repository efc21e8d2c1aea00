/** UTC calendar timestamps and the two strftime formats the repository uses. */
module Clock {
  import opened Decimal

  /** Years have four digits. */
  datatype Stamp = Stamp(year: nat, month: nat, day: nat, hour: nat, minute: nat, second: nat, micro: nat)
  {
    predicate Valid() {
      && 1000 <= year <= 9999 && 1 <= month <= 12 && 1 <= day <= 31
      && hour < 24 && minute < 60 && second < 60 && micro < 1_000_000
    }
  }

  /** "%Y-%m-%dT%H:%M:%S.%f" followed by "Z". */
  function IsoFormat(t: Stamp): string {
    Pad(t.year, 4) + "-" + Pad(t.month, 2) + "-" + Pad(t.day, 2) + "T" +
    Pad(t.hour, 2) + ":" + Pad(t.minute, 2) + ":" + Pad(t.second, 2) + "." + Pad(t.micro, 6) + "Z"
  }

  /** "%Y%m%d-%H%M%S". */
  function CompactFormat(t: Stamp): (s: string)
    ensures |s| == 15
  {
    Pad(t.year, 4) + Pad(t.month, 2) + Pad(t.day, 2) + "-" + Pad(t.hour, 2) + Pad(t.minute, 2) + Pad(t.second, 2)
  }

  /** Zero-padded numbers of that many digits read back. */
  lemma {:induction false} PadReads(n: nat, w: nat)
    requires n < Power(w)
    ensures AllDigits(Pad(n, w)) && Value(Pad(n, w)) == n
  {
    if w > 0 {
      PadReads(n / 10, w - 1);
      var s := Pad(n, w);
      assert s[..|s| - 1] == Pad(n / 10, w - 1) && s[|s| - 1] == DigitChar(n % 10);
    }
  }

  lemma Powers()
    ensures Power(2) == 100 && Power(4) == 10_000 && Power(6) == 1_000_000
  {
    assert Power(1) == 10 && Power(3) == 1000 && Power(5) == 100_000;
  }

  /** The number written at a place of a text. */
  predicate NumberAt(s: string, i: nat, w: nat, n: nat) {
    i + w <= |s| && AllDigits(s[i..i + w]) && Value(s[i..i + w]) == n
  }

  /** Both formats read back, field by field. */
  lemma FormatsRead(t: Stamp)
    requires t.Valid()
    ensures var s := IsoFormat(t);
            && |s| == 27 && s[4] == s[7] == '-' && s[10] == 'T' && s[13] == s[16] == ':' && s[19] == '.' && s[26] == 'Z'
            && NumberAt(s, 0, 4, t.year) && NumberAt(s, 5, 2, t.month) && NumberAt(s, 8, 2, t.day)
            && NumberAt(s, 11, 2, t.hour) && NumberAt(s, 14, 2, t.minute) && NumberAt(s, 17, 2, t.second)
            && NumberAt(s, 20, 6, t.micro)
    ensures var s := CompactFormat(t);
            && |s| == 15 && s[8] == '-'
            && NumberAt(s, 0, 4, t.year) && NumberAt(s, 4, 2, t.month) && NumberAt(s, 6, 2, t.day)
            && NumberAt(s, 9, 2, t.hour) && NumberAt(s, 11, 2, t.minute) && NumberAt(s, 13, 2, t.second)
  {
    Powers();
    PadReads(t.year, 4);
    PadReads(t.month, 2);
    PadReads(t.day, 2);
    PadReads(t.hour, 2);
    PadReads(t.minute, 2);
    PadReads(t.second, 2);
    PadReads(t.micro, 6);
    hide Pad, Power, Value, AllDigits;
    IsoParts(Pad(t.year, 4), Pad(t.month, 2), Pad(t.day, 2), Pad(t.hour, 2), Pad(t.minute, 2), Pad(t.second, 2), Pad(t.micro, 6));
    CompactParts(Pad(t.year, 4), Pad(t.month, 2), Pad(t.day, 2), Pad(t.hour, 2), Pad(t.minute, 2), Pad(t.second, 2));
  }

  /** What a part and a separator behind a text leave of the text, and where the part stands. */
  lemma PartBehind(before: string, part: string, sep: string)
    requires |sep| == 1
    ensures var s := before + part + sep;
            && |s| == |before| + |part| + 1 && s[|before|..|before| + |part|] == part && s[|s| - 1] == sep[0]
            && (forall i, j :: 0 <= i <= j <= |before| ==> s[i..j] == before[i..j])
            && forall i :: 0 <= i < |before| ==> s[i] == before[i]
  {
  }

  lemma IsoParts(y: string, mo: string, d: string, h: string, mi: string, sec: string, us: string)
    requires |y| == 4 && |mo| == |d| == |h| == |mi| == |sec| == 2 && |us| == 6
    ensures var s := y + "-" + mo + "-" + d + "T" + h + ":" + mi + ":" + sec + "." + us + "Z";
            && |s| == 27 && s[4] == s[7] == '-' && s[10] == 'T' && s[13] == s[16] == ':' && s[19] == '.' && s[26] == 'Z'
            && s[0..4] == y && s[5..7] == mo && s[8..10] == d && s[11..13] == h && s[14..16] == mi && s[17..19] == sec
            && s[20..26] == us
  {
    var s5 := y + "-";
    var s8 := s5 + mo + "-";
    var s11 := s8 + d + "T";
    var s14 := s11 + h + ":";
    var s17 := s14 + mi + ":";
    var s20 := s17 + sec + ".";
    assert [] + y == y;
    PartBehind([], y, "-");
    PartBehind(s5, mo, "-");
    PartBehind(s8, d, "T");
    PartBehind(s11, h, ":");
    PartBehind(s14, mi, ":");
    PartBehind(s17, sec, ".");
    PartBehind(s20, us, "Z");
  }

  lemma CompactParts(y: string, mo: string, d: string, h: string, mi: string, sec: string)
    requires |y| == 4 && |mo| == |d| == |h| == |mi| == |sec| == 2
    ensures var s := y + mo + d + "-" + h + mi + sec;
            && |s| == 15 && s[8] == '-' && s[0..4] == y && s[4..6] == mo && s[6..8] == d
            && s[9..11] == h && s[11..13] == mi && s[13..15] == sec
  {
  }
}
