/**
  Backup names and retention: fixed-width UTC names sort in time order, so keeping the names that sort last keeps the
  newest backups.
  */
module Retention {
  import opened Clock
  import opened Decimal
  import opened Wrappers

  // ------------------------------------------------------------------ string order

  /** Python's < on str. */
  predicate Below(a: string, b: string) {
    b != [] && (a == [] || a[0] < b[0] || (a[0] == b[0] && Below(a[1..], b[1..])))
  }

  lemma {:induction false} BelowIrreflexive(a: string)
    ensures !Below(a, a)
  {
    if a != [] {
      BelowIrreflexive(a[1..]);
    }
  }

  lemma {:induction false} BelowTransitive(a: string, b: string, c: string)
    requires Below(a, b) && Below(b, c)
    ensures Below(a, c)
  {
    if a != [] && a[0] == b[0] && b[0] == c[0] {
      BelowTransitive(a[1..], b[1..], c[1..]);
    }
  }

  lemma {:induction false} BelowTotal(a: string, b: string)
    ensures a == b || Below(a, b) || Below(b, a)
  {
    if a != [] && b != [] && a[0] == b[0] {
      BelowTotal(a[1..], b[1..]);
      assert a == [a[0]] + a[1..] && b == [b[0]] + b[1..];
    }
  }

  /** Texts whose first parts are equally long are ordered by these, then by the rest. */
  lemma {:induction false} BelowConcat(a: string, x: string, b: string, y: string)
    requires |a| == |b|
    ensures Below(a + x, b + y) <==> Below(a, b) || (a == b && Below(x, y))
  {
    if a == [] {
      assert a + x == x && b + y == y;
    } else {
      BelowConcat(a[1..], x, b[1..], y);
      assert (a + x)[0] == a[0] && (a + x)[1..] == a[1..] + x;
      assert (b + y)[0] == b[0] && (b + y)[1..] == b[1..] + y;
      assert a == b <==> a[0] == b[0] && a[1..] == b[1..] by {
        assert a == [a[0]] + a[1..] && b == [b[0]] + b[1..];
      }
    }
  }

  // ------------------------------------------------------------------ names

  /** Zero-padded numbers of one width sort as numbers. */
  lemma {:induction false} PadSorts(n: nat, m: nat, w: nat)
    requires n < Power(w) && m < Power(w)
    ensures Below(Pad(n, w), Pad(m, w)) <==> n < m
    ensures Pad(n, w) == Pad(m, w) <==> n == m
  {
    if w > 0 {
      PadSorts(n / 10, m / 10, w - 1);
      var d, e := [DigitChar(n % 10)], [DigitChar(m % 10)];
      BelowConcat(Pad(n / 10, w - 1), d, Pad(m / 10, w - 1), e);
      LastDigit(Pad(n / 10, w - 1), n % 10, Pad(m / 10, w - 1), m % 10);
    }
  }

  lemma LastDigit(a: string, d: nat, b: string, e: nat)
    requires d < 10 && e < 10 && |a| == |b|
    ensures Below([DigitChar(d)], [DigitChar(e)]) <==> d < e
    ensures a + [DigitChar(d)] == b + [DigitChar(e)] <==> a == b && d == e
  {
    var x, y := a + [DigitChar(d)], b + [DigitChar(e)];
    assert x[|a|] == DigitChar(d) && y[|a|] == DigitChar(e) && x[..|a|] == a && y[..|a|] == b;
    assert DigitValue(DigitChar(d)) == d && DigitValue(DigitChar(e)) == e;
  }

  /** The second of t is before that of u. */
  predicate Before(t: Stamp, u: Stamp) {
    || t.year < u.year
    || (t.year == u.year
        && (|| t.month < u.month
            || (t.month == u.month
                && (|| t.day < u.day
                    || (t.day == u.day && ClockBefore(t, u))))))
  }

  predicate ClockBefore(t: Stamp, u: Stamp) {
    || t.hour < u.hour
    || (t.hour == u.hour && (t.minute < u.minute || (t.minute == u.minute && t.second < u.second)))
  }

  predicate SameSecond(t: Stamp, u: Stamp) {
    t.(micro := 0) == u.(micro := 0)
  }

  function DateText(t: Stamp): (s: string)
    ensures |s| == 9
  {
    Pad(t.year, 4) + Pad(t.month, 2) + Pad(t.day, 2) + "-"
  }

  function ClockText(t: Stamp): (s: string)
    ensures |s| == 6
  {
    Pad(t.hour, 2) + Pad(t.minute, 2) + Pad(t.second, 2)
  }

  const PREFIX := "wardnode-backup-"
  const SUFFIX := ".zip"

  function Name(t: Stamp): string {
    PREFIX + CompactFormat(t) + SUFFIX
  }

  lemma EqualParts(a: string, x: string, b: string, y: string)
    requires |a| == |b|
    ensures a + x == b + y <==> a == b && x == y
  {
    if a + x == b + y {
      assert (a + x)[..|a|] == a && (b + y)[..|b|] == b;
      assert (a + x)[|a|..] == x && (b + y)[|b|..] == y;
    }
  }

  lemma ClockTextSorts(t: Stamp, u: Stamp)
    requires t.Valid() && u.Valid()
    ensures Below(ClockText(t), ClockText(u)) <==> ClockBefore(t, u)
    ensures ClockText(t) == ClockText(u) <==> t.hour == u.hour && t.minute == u.minute && t.second == u.second
  {
    PadSorts(t.hour, u.hour, 2);
    PadSorts(t.minute, u.minute, 2);
    PadSorts(t.second, u.second, 2);
    var a, b := Pad(t.hour, 2) + Pad(t.minute, 2), Pad(u.hour, 2) + Pad(u.minute, 2);
    hide Below, Pad, Power;
    BelowConcat(a, Pad(t.second, 2), b, Pad(u.second, 2));
    BelowConcat(Pad(t.hour, 2), Pad(t.minute, 2), Pad(u.hour, 2), Pad(u.minute, 2));
    EqualParts(a, Pad(t.second, 2), b, Pad(u.second, 2));
    EqualParts(Pad(t.hour, 2), Pad(t.minute, 2), Pad(u.hour, 2), Pad(u.minute, 2));
  }

  lemma DateTextSorts(t: Stamp, u: Stamp)
    requires t.Valid() && u.Valid()
    ensures Below(DateText(t), DateText(u)) <==> Before(t.(hour := 0, minute := 0, second := 0), u.(hour := 0, minute := 0, second := 0))
    ensures DateText(t) == DateText(u) <==> t.year == u.year && t.month == u.month && t.day == u.day
  {
    PadSorts(t.year, u.year, 4);
    PadSorts(t.month, u.month, 2);
    PadSorts(t.day, u.day, 2);
    BelowIrreflexive("-");
    var a, b := Pad(t.year, 4) + Pad(t.month, 2), Pad(u.year, 4) + Pad(u.month, 2);
    hide Below, Pad, Power;
    BelowConcat(a + Pad(t.day, 2), "-", b + Pad(u.day, 2), "-");
    BelowConcat(a, Pad(t.day, 2), b, Pad(u.day, 2));
    BelowConcat(Pad(t.year, 4), Pad(t.month, 2), Pad(u.year, 4), Pad(u.month, 2));
    EqualParts(a + Pad(t.day, 2), "-", b + Pad(u.day, 2), "-");
    EqualParts(a, Pad(t.day, 2), b, Pad(u.day, 2));
    EqualParts(Pad(t.year, 4), Pad(t.month, 2), Pad(u.year, 4), Pad(u.month, 2));
  }

  lemma FormatParts(t: Stamp)
    ensures CompactFormat(t) == DateText(t) + ClockText(t)
  {
    hide Pad;
  }

  /** Names sort in time order, and two backups have one name only in one second. */
  lemma NamesSortByTime(t: Stamp, u: Stamp)
    requires t.Valid() && u.Valid()
    ensures Below(Name(t), Name(u)) <==> Before(t, u)
    ensures Name(t) == Name(u) <==> SameSecond(t, u)
  {
    FormatParts(t);
    FormatParts(u);
    ClockTextSorts(t, u);
    DateTextSorts(t, u);
    BelowIrreflexive(SUFFIX);
    BelowIrreflexive(PREFIX);
    hide Below, DateText, ClockText;
    BelowConcat(PREFIX + CompactFormat(t), SUFFIX, PREFIX + CompactFormat(u), SUFFIX);
    BelowConcat(PREFIX, CompactFormat(t), PREFIX, CompactFormat(u));
    BelowConcat(DateText(t), ClockText(t), DateText(u), ClockText(u));
    EqualParts(PREFIX + CompactFormat(t), SUFFIX, PREFIX + CompactFormat(u), SUFFIX);
    EqualParts(PREFIX, CompactFormat(t), PREFIX, CompactFormat(u));
    EqualParts(DateText(t), ClockText(t), DateText(u), ClockText(u));
  }

  // ------------------------------------------------------------------ which files a prune removes

  /** wardnode-backup-\d{8}-\d{6}\.zip */
  predicate IsBackupName(f: string) {
    var d := |PREFIX|;
    && |f| == d + 15 + |SUFFIX|
    && f[..d] == PREFIX && f[d + 15..] == SUFFIX && f[d + 8] == '-'
    && AllDigits(f[d..d + 8]) && AllDigits(f[d + 9..d + 15])
  }

  predicate IsPart(f: string) {
    |f| >= 5 && f[|f| - 5..] == ".part"
  }

  lemma NameIsBackup(t: Stamp)
    ensures IsBackupName(Name(t))
  {
    FormatParts(t);
    var f, d := Name(t), |PREFIX|;
    var date := Pad(t.year, 4) + Pad(t.month, 2) + Pad(t.day, 2);
    assert f[d..d + 15] == date + "-" + ClockText(t);
    hide Pad;
    assert f[d..d + 8] == date && f[d + 9..d + 15] == ClockText(t);
  }

  lemma LastOfBackup(f: string)
    requires IsBackupName(f)
    ensures f[|f| - 1] == 'p'
  {
    assert f[|f| - 1] == f[|PREFIX| + 15..][3];
  }

  lemma PartIsNoBackup(f: string)
    requires IsPart(f)
    ensures !IsBackupName(f)
  {
    if IsBackupName(f) {
      LastOfBackup(f);
      assert false;
    }
  }

  function Backups(files: set<string>): set<string> {
    set f | f in files && IsBackupName(f)
  }

  /** Backups whose name sorts after f. */
  function Newer(files: set<string>, f: string): set<string> {
    set g | g in Backups(files) && Below(f, g)
  }

  /** A backup is due for removal when at least max(1, retention) backups are newer. */
  predicate Surplus(files: set<string>, f: string, retention: int) {
    f in Backups(files) && |Newer(files, f)| >= Max(1, retention)
  }

  /** `stuck` files cannot be removed; `stale` are the files last written more than a day ago. */
  function AfterPrune(files: set<string>, retention: int, stuck: set<string>, stale: set<string>): set<string> {
    set f | f in files && (f in stuck || !(Surplus(files, f, retention) || (IsPart(f) && f in stale)))
  }

  // ------------------------------------------------------------------ listings

  /** sorted(..., reverse=True) of the backups. */
  ghost predicate IsListing(files: set<string>, names: seq<string>) {
    && (forall f :: f in names <==> f in Backups(files))
    && Descending(names)
  }

  function Elements(names: seq<string>): set<string> {
    set f | f in names
  }

  predicate Descending(names: seq<string>) {
    forall i, j :: 0 <= i < j < |names| ==> Below(names[j], names[i])
  }

  lemma NoRepeat(names: seq<string>, i: nat, j: nat)
    requires Descending(names) && i < j < |names|
    ensures names[i] != names[j]
  {
    BelowIrreflexive(names[i]);
  }

  lemma {:induction false} SizeOfDescending(names: seq<string>)
    requires Descending(names)
    ensures |Elements(names)| == |names|
  {
    if names != [] {
      var last, front := names[|names| - 1], names[..|names| - 1];
      SizeOfDescending(front);
      forall i | 0 <= i < |front| ensures front[i] != last
      {
        NoRepeat(names, i, |names| - 1);
      }
      hide Below, Descending;
      assert last !in front;
      assert names == front + [last];
      assert Elements(names) == Elements(front) + {last};
    }
  }

  /** In a listing the files newer than entry i are the i entries before it. */
  lemma RankInListing(files: set<string>, names: seq<string>, i: nat)
    requires IsListing(files, names) && i < |names|
    ensures |Newer(files, names[i])| == i
  {
    var front := names[..i];
    SizeOfDescending(front);
    forall f | f in Newer(files, names[i]) ensures f in front
    {
      var j :| 0 <= j < |names| && names[j] == f;
      BelowIrreflexive(names[i]);
      if j > i {
        BelowTransitive(names[j], names[i], names[j]);
        BelowIrreflexive(names[j]);
      }
    }
    forall f | f in front ensures f in Newer(files, names[i])
    {
      var j :| 0 <= j < |front| && front[j] == f;
      assert names[j] == f && names[j] in names;
    }
    assert Newer(files, names[i]) == Elements(front);
  }

  lemma SurplusIsTail(files: set<string>, names: seq<string>, retention: int, f: string)
    requires IsListing(files, names)
    ensures Surplus(files, f, retention) <==> exists i :: Max(1, retention) <= i < |names| && names[i] == f
  {
    if f in Backups(files) {
      var i :| 0 <= i < |names| && names[i] == f;
      RankInListing(files, names, i);
      forall j | 0 <= j < |names| && names[j] == f ensures j == i
      {
        RankInListing(files, names, j);
      }
    }
  }

  /** A listing exists. */
  lemma {:induction false} Listing(files: set<string>, backups: set<string>) returns (names: seq<string>)
    requires forall f :: f in backups ==> IsBackupName(f)
    ensures forall f :: f in names <==> f in backups
    ensures Descending(names)
    decreases |backups|
  {
    if backups == {} {
      names := [];
    } else {
      var top := Highest(backups);
      var rest := Listing(files, backups - {top});
      names := [top] + rest;
      forall i, j | 0 <= i < j < |names| ensures Below(names[j], names[i])
      {
        assert names[j] == rest[j - 1] && rest[j - 1] in rest;
        if i > 0 {
          assert names[i] == rest[i - 1];
        }
      }
    }
  }

  lemma {:induction false} Highest(names: set<string>) returns (top: string)
    requires names != {}
    ensures top in names && forall f :: f in names && f != top ==> Below(f, top)
    decreases |names|
  {
    var any :| any in names;
    top := any;
    var rest := names - {any};
    if rest != {} {
      var other := Highest(rest);
      BelowTotal(any, other);
      top := if Below(any, other) then other else any;
      forall f | f in names && f != top ensures Below(f, top)
      {
        if f in rest && f != other && top == any {
          BelowTransitive(f, other, any);
        }
      }
    }
  }

  // ------------------------------------------------------------------ what retention means

  /**
    When every removal succeeds, a prune leaves exactly min(n, max(1, retention)) of n backups, and every one left is
    newer than every one removed.
    */
  lemma KeepsTheNewest(files: set<string>, retention: int, stale: set<string>)
    ensures var kept := Backups(AfterPrune(files, retention, {}, stale));
            var n := |Backups(files)|;
            && kept <= Backups(files)
            && |kept| == (if n <= Max(1, retention) then n else Max(1, retention))
            && forall f, g :: f in kept && g in Backups(files) - kept ==> Below(g, f)
  {
    var kept := Backups(AfterPrune(files, retention, {}, stale));
    var names := Listing(files, Backups(files));
    var n := Kept(names, retention);
    var front := names[..n];
    SizeOfDescending(names);
    assert Elements(names) == Backups(files);
    SizeOfDescending(front);
    forall f | f in Backups(files) ensures f in kept <==> f in front
    {
      KeptIsFront(files, names, retention, stale, f);
    }
    forall f | f in front ensures f in Backups(files)
    {
      var i :| 0 <= i < |front| && front[i] == f;
      assert names[i] in names;
    }
    assert kept == Elements(front);
    forall f, g | f in kept && g in Backups(files) - kept ensures Below(g, f)
    {
      var i :| 0 <= i < |front| && front[i] == f;
      var j :| 0 <= j < |names| && names[j] == g;
      assert names[i] == f;
    }
  }

  /** How many entries of a listing stay. */
  function Kept(names: seq<string>, retention: int): (n: nat)
    ensures n <= |names|
  {
    if |names| <= Max(1, retention) then |names| else Max(1, retention)
  }

  lemma KeptIsFront(files: set<string>, names: seq<string>, retention: int, stale: set<string>, f: string)
    requires IsListing(files, names) && f in Backups(files)
    ensures f in Backups(AfterPrune(files, retention, {}, stale)) <==> f in names[..Kept(names, retention)]
  {
    var n := Kept(names, retention);
    if IsPart(f) {
      PartIsNoBackup(f);
    }
    var i :| 0 <= i < |names| && names[i] == f;
    RankInListing(files, names, i);
    forall j | 0 <= j < n ensures names[..n][j] == f ==> j == i
    {
      RankInListing(files, names, j);
      assert names[..n][j] == names[j];
    }
  }

  /** What counts as a backup: the program's prefix, eight digits, a dash, six digits, and the suffix. */
  lemma BackupNames(f: string)
    ensures IsBackupName(f) <==>
              exists date: string, time: string :: && |date| == 8 && |time| == 6 && AllDigits(date) && AllDigits(time)
                                                   && f == "wardnode-backup-" + date + "-" + time + ".zip"
  {
    if IsBackupName(f) {
      var date, time := f[16..24], f[25..31];
      assert f[..16] == "wardnode-backup-" && f[31..] == ".zip" && f[24..25] == "-";
      FiveParts(f);
      assert f == "wardnode-backup-" + date + "-" + time + ".zip";
    }
    forall date: string, time: string | |date| == 8 && |time| == 6 && AllDigits(date) && AllDigits(time)
      ensures IsBackupName("wardnode-backup-" + date + "-" + time + ".zip")
    {
      PartsAreName("wardnode-backup-", date, time, ".zip");
    }
  }

  lemma FiveParts(f: string)
    requires |f| >= 31
    ensures f == f[..16] + f[16..24] + f[24..25] + f[25..31] + f[31..]
  {
  }

  lemma PartsAreName(prefix: string, date: string, time: string, suffix: string)
    requires prefix == PREFIX && suffix == SUFFIX
    requires |date| == 8 && |time| == 6 && AllDigits(date) && AllDigits(time)
    ensures IsBackupName(prefix + date + "-" + time + suffix)
  {
    var f, d := prefix + date + "-" + time + suffix, |prefix|;
    assert f[..d] == prefix && f[d..d + 8] == date && f[d + 9..d + 15] == time && f[d + 15..] == suffix && f[d + 8] == '-';
  }

  /** The name of a backup: its second, between the fixed parts. */
  lemma NameReads(t: Stamp)
    requires t.Valid()
    ensures Name(t) == "wardnode-backup-" + CompactFormat(t) + ".zip"
    ensures var f := Name(t);
            && NumberAt(f[16..31], 0, 4, t.year) && NumberAt(f[16..31], 4, 2, t.month) && NumberAt(f[16..31], 6, 2, t.day)
            && NumberAt(f[16..31], 9, 2, t.hour) && NumberAt(f[16..31], 11, 2, t.minute) && NumberAt(f[16..31], 13, 2, t.second)
  {
    FormatsRead(t);
    hide NumberAt, CompactFormat;
    assert Name(t)[16..31] == CompactFormat(t);
  }

  /**
    Which files a prune leaves: those that cannot be removed; the backups with fewer than max(1, retention) newer ones;
    and of all other files, whatever they are, every one that is not a stale part.
    */
  lemma SurvivesIff(files: set<string>, retention: int, stuck: set<string>, stale: set<string>, f: string)
    ensures f in AfterPrune(files, retention, stuck, stale) <==>
              && f in files
              && (|| f in stuck
                  || if IsBackupName(f)
                     then |Newer(files, f)| < (if retention > 1 then retention else 1)
                     else !(|f| >= 5 && f[|f| - 5..] == ".part" && f in stale))
  {
    if IsPart(f) {
      PartIsNoBackup(f);
    }
    hide IsBackupName, Newer;
  }

  /** Every other backup was named before the time t. */
  ghost predicate OthersOlder(files: set<string>, t: Stamp) {
    forall f :: f in Backups(files) && f != Name(t) ==> exists u: Stamp :: u.Valid() && f == Name(u) && Before(u, t)
  }

  /**
    The backup just written survives the prune that follows exactly when fewer than max(1, retention) backups have
    later names, or it cannot be removed; so it always does when every other backup is older.
    */
  lemma JustWrittenSurvives(files: set<string>, t: Stamp, retention: int, stuck: set<string>, stale: set<string>)
    requires t.Valid() && Name(t) in files
    ensures Name(t) in AfterPrune(files, retention, stuck, stale)
       <==> |Newer(files, Name(t))| < Max(1, retention) || Name(t) in stuck
    ensures OthersOlder(files, t) ==> Name(t) in AfterPrune(files, retention, stuck, stale)
  {
    BackupsAreNoParts(t);
    if OthersOlder(files, t) {
      NoneNewer(files, t);
    }
    hide Name, IsPart, IsBackupName, Newer, OthersOlder;
  }

  lemma BackupsAreNoParts(t: Stamp)
    ensures IsBackupName(Name(t)) && !IsPart(Name(t))
  {
    NameIsBackup(t);
    hide IsPart, IsBackupName, Name;
    if IsPart(Name(t)) {
      PartIsNoBackup(Name(t));
      assert false;
    }
  }

  lemma NoneNewer(files: set<string>, t: Stamp)
    requires t.Valid() && OthersOlder(files, t)
    ensures Newer(files, Name(t)) == {}
  {
    hide Name, Below, IsBackupName, Before;
    forall g | g in Newer(files, Name(t)) ensures false
    {
      BelowIrreflexive(Name(t));
      var u: Stamp :| u.Valid() && g == Name(u) && Before(u, t);
      NamesSortByTime(u, t);
      BelowTransitive(g, Name(t), g);
      BelowIrreflexive(g);
    }
  }

  /** After the clock was set back, with a retention of one, the backup just written is the one removed. */
  lemma SetBackClockLosesIt(t: Stamp, later: Stamp, retention: int)
    requires t.Valid() && later.Valid() && Before(t, later) && retention <= 1
    ensures AfterPrune({Name(t), Name(later)}, retention, {}, {}) == {Name(later)}
  {
    var files := {Name(t), Name(later)};
    BackupsAreNoParts(t);
    BackupsAreNoParts(later);
    hide Name, Below, IsPart, IsBackupName;
    NamesSortByTime(t, later);
    BelowIrreflexive(Name(t));
    BelowIrreflexive(Name(later));
    assert !Below(Name(later), Name(t)) by {
      if Below(Name(later), Name(t)) {
        BelowTransitive(Name(later), Name(t), Name(later));
      }
    }
    assert Newer(files, Name(t)) == {Name(later)};
    assert Newer(files, Name(later)) == {};
  }

  // ------------------------------------------------------------------ whole runs

  function Names(ts: seq<Stamp>): set<string> {
    set i | 0 <= i < |ts| :: Name(ts[i])
  }

  /** Every backup is written, then old ones are pruned. */
  function AfterBackups(files: set<string>, ts: seq<Stamp>, retention: int): set<string> {
    if ts == [] then files
    else AfterPrune(AfterBackups(files, ts[..|ts| - 1], retention) + {Name(ts[|ts| - 1])}, retention, {}, {})
  }

  predicate Ascending(ts: seq<Stamp>) {
    && (forall i :: 0 <= i < |ts| ==> ts[i].Valid())
    && (forall i, j :: 0 <= i < j < |ts| ==> Before(ts[i], ts[j]))
  }

  function Last(ts: seq<Stamp>, n: int): seq<Stamp> {
    if n >= |ts| then ts else if n <= 0 then [] else ts[|ts| - n..]
  }

  lemma NamesDiffer(ts: seq<Stamp>, i: nat, j: nat)
    requires Ascending(ts) && i < |ts| && j < |ts|
    ensures Below(Name(ts[i]), Name(ts[j])) <==> i < j
    ensures Name(ts[i]) == Name(ts[j]) <==> i == j
  {
    NamesSortByTime(ts[i], ts[j]);
    if j < i {
      assert Before(ts[j], ts[i]);
    }
  }

  lemma LastIsNew(ts: seq<Stamp>)
    requires Ascending(ts) && ts != []
    ensures Name(ts[|ts| - 1]) !in Names(ts[..|ts| - 1])
  {
    var n := |ts| - 1;
    forall i | 0 <= i < n ensures Name(ts[..n][i]) != Name(ts[n])
    {
      NamesDiffer(ts, i, n);
    }
  }

  lemma {:induction false} CountNames(ts: seq<Stamp>)
    requires Ascending(ts)
    ensures |Names(ts)| == |ts|
  {
    if ts != [] {
      var front := ts[..|ts| - 1];
      StillAscending(ts, front, 0);
      CountNames(front);
      LastIsNew(ts);
      hide Name, Names, Ascending;
      assert ts == front + [ts[|ts| - 1]];
      NamesAppend(front, ts[|ts| - 1]);
    }
  }

  lemma NewerNames(ts: seq<Stamp>, i: nat)
    requires Ascending(ts) && i < |ts|
    ensures |Newer(Names(ts), Name(ts[i]))| == |ts| - 1 - i
  {
    hide Below, IsBackupName, Name;
    var rest := ts[i + 1..];
    CountNames(rest);
    forall f | f in Newer(Names(ts), Name(ts[i])) ensures f in Names(rest)
    {
      var j :| 0 <= j < |ts| && f == Name(ts[j]);
      NamesDiffer(ts, i, j);
      assert rest[j - i - 1] == ts[j];
    }
    forall f | f in Names(rest) ensures f in Newer(Names(ts), Name(ts[i]))
    {
      var k :| 0 <= k < |rest| && f == Name(rest[k]);
      assert ts[i + 1 + k] == rest[k] && Name(ts[i + 1 + k]) == f;
      NamesDiffer(ts, i, i + 1 + k);
      NameIsBackup(rest[k]);
    }
    assert Newer(Names(ts), Name(ts[i])) == Names(rest);
  }

  lemma StaysWhen(ts: seq<Stamp>, retention: int, i: nat)
    requires Ascending(ts) && i < |ts|
    ensures Name(ts[i]) in AfterPrune(Names(ts), retention, {}, {}) <==> |ts| - 1 - i < Max(1, retention)
  {
    NewerNames(ts, i);
    NameIsBackup(ts[i]);
    assert Name(ts[i]) in Names(ts);
  }

  lemma InLast(ts: seq<Stamp>, n: int, i: nat)
    requires Ascending(ts) && i < |ts| && n >= 1
    ensures Name(ts[i]) in Names(Last(ts, n)) <==> |ts| - 1 - i < n
  {
    hide Before, Below, Name;
    var last := Last(ts, n);
    var d := |ts| - |last|;
    if i >= d {
      assert last[i - d] == ts[i];
    }
    forall k | 0 <= k < |last| ensures Name(last[k]) == Name(ts[i]) ==> k + d == i
    {
      NamesDiffer(ts, k + d, i);
    }
  }

  /** One prune of a directory that holds just the backups taken at ts. */
  lemma PruneKeepsLast(ts: seq<Stamp>, retention: int)
    requires Ascending(ts)
    ensures AfterPrune(Names(ts), retention, {}, {}) == Names(Last(ts, Max(1, retention)))
  {
    assert AfterPrune(Names(ts), retention, {}, {}) <= Names(ts);
    hide AfterPrune, Name, Ascending, Last;
    forall f | f in Names(ts)
      ensures f in AfterPrune(Names(ts), retention, {}, {}) <==> f in Names(Last(ts, Max(1, retention)))
    {
      var i :| 0 <= i < |ts| && f == Name(ts[i]);
      StaysWhen(ts, retention, i);
      InLast(ts, Max(1, retention), i);
    }
  }

  /**
    Over any run of backups taken at increasing seconds into an empty directory, the directory holds exactly the last
    max(1, retention) of them.
    */
  lemma {:induction false} HoldsTheLast(ts: seq<Stamp>, retention: int)
    requires Ascending(ts)
    ensures AfterBackups({}, ts, retention) == Names(Last(ts, Max(1, retention)))
  {
    if ts != [] {
      var front := ts[..|ts| - 1];
      StillAscending(ts, front, 0);
      HoldsTheLast(front, retention);
      var held := LastStep(ts, Max(1, retention));
      StillAscending(ts, held, |ts| - |held|);
      hide AfterPrune, Name, Ascending, Names, Last;
      NamesAppend(Last(front, Max(1, retention)), ts[|ts| - 1]);
      PruneKeepsLast(held, retention);
    }
  }

  lemma LastStep(ts: seq<Stamp>, n: int) returns (held: seq<Stamp>)
    requires ts != [] && n >= 1
    ensures held == Last(ts[..|ts| - 1], n) + [ts[|ts| - 1]]
    ensures |held| <= |ts| && held == ts[|ts| - |held|..]
    ensures Last(held, n) == Last(ts, n)
  {
    held := Last(ts[..|ts| - 1], n) + [ts[|ts| - 1]];
    assert forall i :: 0 <= i < |held| ==> held[i] == ts[i + |ts| - |held|];
  }

  lemma StillAscending(ts: seq<Stamp>, part: seq<Stamp>, d: nat)
    requires Ascending(ts) && |part| + d <= |ts|
    requires forall i :: 0 <= i < |part| ==> part[i] == ts[i + d]
    ensures Ascending(part)
  {
    hide Before;
  }

  lemma NamesAppend(ts: seq<Stamp>, t: Stamp)
    ensures Names(ts + [t]) == Names(ts) + {Name(t)}
  {
    hide Name;
    var all := ts + [t];
    forall i | 0 <= i < |all| ensures Name(all[i]) in Names(ts) + {Name(t)}
    {
      assert all[i] == if i < |ts| then ts[i] else t;
    }
    forall i | 0 <= i < |ts| ensures Name(ts[i]) in Names(all)
    {
      assert all[i] == ts[i];
    }
    assert all[|ts|] == t;
  }

  // ------------------------------------------------------------------ the loops

  /** The entries that can be unlinked, in order. */
  function Unlinked(names: seq<string>, stuck: set<string>): seq<string> {
    if names == [] then []
    else (if names[0] in stuck then [] else [names[0]]) + Unlinked(names[1..], stuck)
  }

  lemma {:induction false} UnlinkedElements(names: seq<string>, stuck: set<string>)
    ensures Elements(Unlinked(names, stuck)) == Elements(names) - stuck
  {
    if names != [] {
      UnlinkedElements(names[1..], stuck);
      var head := if names[0] in stuck then [] else [names[0]];
      hide Unlinked;
      assert Elements(head + Unlinked(names[1..], stuck)) == Elements(head) + Elements(Unlinked(names[1..], stuck));
      assert Elements(names) == {names[0]} + Elements(names[1..]);
    }
  }

  lemma SurplusElements(files: set<string>, names: seq<string>, retention: int)
    requires IsListing(files, names)
    ensures forall f :: f in names[Kept(names, retention)..] <==> Surplus(files, f, retention)
  {
    var tail := names[Kept(names, retention)..];
    var k := Kept(names, retention);
    forall f | f in tail ensures Surplus(files, f, retention)
    {
      var i :| 0 <= i < |tail| && tail[i] == f;
      assert names[i + k] == f;
      SurplusIsTail(files, names, retention, f);
    }
    forall f | Surplus(files, f, retention) ensures f in tail
    {
      SurplusIsTail(files, names, retention, f);
      var i :| Max(1, retention) <= i < |names| && names[i] == f;
      assert tail[i - k] == f;
    }
  }

  /** The names a prune reports are exactly the backups that go, newest first. */
  lemma ReportedAreRemoved(files: set<string>, names: seq<string>, retention: int, stuck: set<string>, stale: set<string>)
    requires IsListing(files, names)
    ensures var removed := Unlinked(names[Kept(names, retention)..], stuck);
            && Descending(removed)
            && forall f :: f in removed <==> f in Backups(files) && f !in AfterPrune(files, retention, stuck, stale)
  {
    var tail := names[Kept(names, retention)..];
    SurplusElements(files, names, retention);
    UnlinkedElements(tail, stuck);
    UnlinkedDescends(tail, stuck);
    forall f | f in Backups(files) ensures !IsPart(f)
    {
      if IsPart(f) {
        PartIsNoBackup(f);
      }
    }
    hide IsPart, IsBackupName, Unlinked, IsListing, Descending;
    forall f ensures f in Unlinked(tail, stuck) <==> f in tail && f !in stuck
    {
      assert f in Unlinked(tail, stuck) <==> f in Elements(Unlinked(tail, stuck));
    }
  }

  lemma {:induction false} UnlinkedDescends(names: seq<string>, stuck: set<string>)
    requires Descending(names)
    ensures Descending(Unlinked(names, stuck)) && forall f :: f in Unlinked(names, stuck) ==> f in names
  {
    hide Below;
    if names != [] {
      UnlinkedDescends(names[1..], stuck);
      forall f | f in Unlinked(names[1..], stuck) ensures Below(f, names[0])
      {
        var i :| 0 <= i < |names[1..]| && names[1..][i] == f;
        assert names[i + 1] == f;
      }
    }
  }

  class BackupDirectory {
    var files: set<string>

    constructor (initial: set<string>)
      ensures files == initial
    {
      files := initial;
    }

    /** Unlink one after the other, passing over those that fail. */
    method Unlink(names: seq<string>, stuck: set<string>) returns (removed: seq<string>)
      modifies this
      ensures files == old(files) - (Elements(names) - stuck)
      ensures removed == Unlinked(names, stuck)
    {
      removed := [];
      var i := 0;
      while i < |names|
        invariant i <= |names|
        invariant files == old(files) - Elements(removed)
        invariant removed + Unlinked(names[i..], stuck) == Unlinked(names, stuck)
      {
        assert names[i..][0] == names[i] && names[i..][1..] == names[i + 1..];
        ghost var more := Unlinked(names[i + 1..], stuck);
        if names[i] !in stuck {
          files := files - {names[i]};
          removed := removed + [names[i]];
        } else {
          assert [] + more == more;
        }
        i := i + 1;
      }
      assert names[i..] == [] && removed + [] == removed;
      UnlinkedElements(names, stuck);
    }

    /**
      prune_backups: `names` is list_backups(), `parts` the *.part files in whatever order the directory lists them;
      a file in `stuck` cannot be unlinked, one in `stale` was last written more than a day ago.
      */
    method PruneBackups(retention: int, names: seq<string>, parts: seq<string>, stuck: set<string>, stale: set<string>)
      returns (removed: seq<string>)
      requires IsListing(files, names)
      requires forall f :: f in parts <==> f in files && IsPart(f)
      modifies this
      ensures files == AfterPrune(old(files), retention, stuck, stale)
      ensures removed == Unlinked(names[Kept(names, retention)..], stuck)
    {
      SurplusElements(files, names, retention);
      hide Surplus, IsListing, IsPart, Unlinked;
      removed := Unlink(names[Kept(names, retention)..], stuck);
      var i := 0;
      ghost var kept := files;
      while i < |parts|
        invariant i <= |parts|
        invariant files == kept - set f | f in parts[..i] && f in stale && f !in stuck
      {
        assert parts[..i + 1] == parts[..i] + [parts[i]];
        if parts[i] in stale && parts[i] !in stuck {
          files := files - {parts[i]};
        }
        i := i + 1;
      }
      assert parts[..i] == parts;
    }
  }
}
