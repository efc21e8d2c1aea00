/**
  Pruning the raw log: archive the rows older than the cutoff, then delete them. The query result, the rows
  inserted between the query and the delete, and the point where the job fails or dies are inputs.
  */
module RawLogArchive {
  import opened Wrappers
  import opened Json
  import opened PyText
  import RawLog

  const DAY := 86400 * 1000000

  /** A modsec_raw_log row; its raw_json is what RawLog stores for the data. Times are in microseconds. */
  datatype Row = Row(id: nat, createdAt: int, data: RawLog.Data)

  function RawJson(r: Row): string {
    RawLog.StoredText(r.data)
  }

  function Lines(rows: seq<Row>): (lines: seq<string>)
    ensures |lines| == |rows| && forall i :: 0 <= i < |rows| ==> lines[i] == RawJson(rows[i])
  {
    if rows == [] then [] else [RawJson(rows[0])] + Lines(rows[1..])
  }

  /** WHERE created_at < cutoff. */
  function Old(rows: seq<Row>, cutoff: int): seq<Row> {
    if rows == [] then []
    else (if rows[0].createdAt < cutoff then [rows[0]] else []) + Old(rows[1..], cutoff)
  }

  function Recent(rows: seq<Row>, cutoff: int): seq<Row> {
    if rows == [] then []
    else (if rows[0].createdAt < cutoff then [] else [rows[0]]) + Recent(rows[1..], cutoff)
  }

  /** `retention` is None when the setting is missing or not a number. */
  datatype Config = Config(retention: Option<int>, backup: bool, password: bool)

  function RetentionDays(c: Config): int {
    if c.retention.Some? then c.retention.value else 30
  }

  datatype Fate = Completes | ZipFails | DiesBeforeReplace | DiesBeforeDelete | DeleteFails | DiesBeforeStamp

  /** One run of the job: `result` is what the SELECT returned, `gap` what was inserted before the DELETE. */
  datatype Prune = Prune(now: int, config: Config, result: seq<Row>, gap: seq<Row>, fate: Fate)
  {
    function Cutoff(): int {
      now - RetentionDays(config) * DAY
    }

    /** The archive's name is its second. */
    function Name(): int {
      now / 1000000
    }

    predicate LacksPassword() {
      config.backup && !config.password
    }

    predicate Zips() {
      config.backup && config.password && result != []
    }

    predicate Archives() {
      Zips() && fate != ZipFails && fate != DiesBeforeReplace
    }

    predicate Deletes() {
      !LacksPassword() && (Zips() ==> Archives()) && fate != DiesBeforeDelete && fate != DeleteFails
    }
  }

  datatype Archive = Archive(name: int, text: string)

  /** os.replace into the archive directory: a second archive of one name replaces the first. */
  function Put(archives: seq<Archive>, a: Archive): seq<Archive> {
    if archives == [] then [a]
    else if archives[0].name == a.name then [a] + archives[1..]
    else [archives[0]] + Put(archives[1..], a)
  }

  predicate Unused(archives: seq<Archive>, name: int) {
    forall i :: 0 <= i < |archives| ==> archives[i].name != name
  }

  datatype State = State(live: seq<Row>, archives: seq<Archive>, lastPrune: Option<int>)

  function ArchiveOf(p: Prune): Archive {
    Archive(p.Name(), Join("\n", Lines(p.result)))
  }

  function Pruned(s: State, p: Prune): State {
    State(
      if p.Deletes() then Recent(s.live + p.gap, p.Cutoff()) else s.live + p.gap,
      if p.Archives() then Put(s.archives, ArchiveOf(p)) else s.archives,
      if p.Deletes() && p.fate != DiesBeforeStamp then Some(p.now) else s.lastPrune)
  }

  predicate Ordered(rows: seq<Row>) {
    forall i, j :: 0 <= i < j < |rows| ==> rows[i].createdAt <= rows[j].createdAt
  }

  /** The SELECT returns the old rows, in order of creation. */
  predicate Answers(live: seq<Row>, p: Prune) {
    multiset(p.result) == multiset(Old(live, p.Cutoff())) && Ordered(p.result)
  }

  predicate Spelled(rows: seq<Row>) {
    forall i :: 0 <= i < |rows| ==> RawLog.WellSpelled(rows[i].data)
  }

  // ------------------------------------------------------------------ filters

  lemma {:induction false} OldConcat(a: seq<Row>, b: seq<Row>, cutoff: int)
    ensures Old(a + b, cutoff) == Old(a, cutoff) + Old(b, cutoff)
  {
    if a == [] {
      assert a + b == b;
    } else {
      OldConcat(a[1..], b, cutoff);
      assert (a + b)[0] == a[0] && (a + b)[1..] == a[1..] + b;
      var head := if a[0].createdAt < cutoff then [a[0]] else [];
      assert head + (Old(a[1..], cutoff) + Old(b, cutoff)) == head + Old(a[1..], cutoff) + Old(b, cutoff);
    }
  }

  /** Nothing is in both parts and nothing is in neither. */
  lemma {:induction false} OldAndRecent(rows: seq<Row>, cutoff: int)
    ensures multiset(Old(rows, cutoff)) + multiset(Recent(rows, cutoff)) == multiset(rows)
    ensures forall r :: r in Old(rows, cutoff) <==> r in rows && r.createdAt < cutoff
    ensures forall r :: r in Recent(rows, cutoff) <==> r in rows && r.createdAt >= cutoff
  {
    if rows != [] {
      OldAndRecent(rows[1..], cutoff);
      assert rows == [rows[0]] + rows[1..];
    }
  }

  // ------------------------------------------------------------------ one run

  lemma {:induction false} PutHolds(archives: seq<Archive>, a: Archive)
    ensures a in Put(archives, a)
    ensures forall b :: b in archives && b.name != a.name ==> b in Put(archives, a)
    ensures Unused(archives, a.name) ==> Put(archives, a) == archives + [a]
  {
    if archives != [] {
      PutHolds(archives[1..], a);
      assert a in Put(archives[1..], a) ==> a in [archives[0]] + Put(archives[1..], a);
    }
  }

  /** The archive is NDJSON: splitting it at newlines gives the archived rows' texts back, in order. */
  lemma ArchiveSplitsBack(s: State, p: Prune)
    requires p.Archives() && Spelled(p.result)
    ensures ArchiveOf(p) in Pruned(s, p).archives
    ensures Split(ArchiveOf(p).text, '\n') == Lines(p.result)
    ensures forall i :: 0 <= i < |p.result| ==>
              Loads(Lines(p.result)[i]) == Some(RawLog.Tree(RawLog.Stored(p.result[i].data)))
  {
    forall i | 0 <= i < |p.result|
      ensures '\n' !in Lines(p.result)[i]
      ensures Loads(Lines(p.result)[i]) == Some(RawLog.Tree(RawLog.Stored(p.result[i].data)))
    {
      RawLog.StoredTextIsOneLine(p.result[i].data);
      RawLog.StoredIsSpelled(p.result[i].data);
      RawLog.LoadsDumps(RawLog.Stored(p.result[i].data));
    }
    PutHolds(s.archives, ArchiveOf(p));
    SplitUndoesJoin(Lines(p.result), '\n');
    assert ['\n'] == "\n";
  }

  lemma RecentStep(rows: seq<Row>, cutoff: int)
    ensures rows == [] ==> Recent(rows, cutoff) == []
    ensures rows != [] ==> Recent(rows, cutoff) == (if rows[0].createdAt < cutoff then [] else [rows[0]]) + Recent(rows[1..], cutoff)
  {
  }

  /** Recent is determined row by row. */
  lemma {:induction false} RecentOf(a: seq<Row>, b: seq<Row>, cutoff: int)
    ensures Recent(a + b, cutoff) == Recent(a, cutoff) + Recent(b, cutoff)
    ensures |a| == 1 ==> Recent(a, cutoff) == if a[0].createdAt >= cutoff then a else []
  {
    hide Recent;
    RecentStep(a, cutoff);
    if a == [] {
      assert a + b == b && [] + Recent(b, cutoff) == Recent(b, cutoff);
    } else {
      RecentOf(a[1..], b, cutoff);
      RecentStep(a + b, cutoff);
      var s := a + b;
      assert s[0] == a[0] && s[1..] == a[1..] + b;
      Assoc(if a[0].createdAt < cutoff then [] else [a[0]], Recent(a[1..], cutoff), Recent(b, cutoff));
      RecentStep(a[1..], cutoff);
      assert |a| == 1 ==> a == [a[0]];
    }
  }

  /** The configured number of days, 30 when there is none or it is not a number, in microseconds before the job. */
  function KeptSince(p: Prune): int {
    p.now - 86_400_000_000 * match p.config.retention { case None => 30 case Some(d) => d }
  }

  /**
    What one job does, from its configuration and where it fails: nothing without the password it needs, or when its
    archive cannot be written; an archive of the rows the query returned, named after the second, when there are any and
    backup is on; and unless it then fails, exactly the rows created since the cutoff stay, in order, and the prune is
    stamped.
    */
  lemma JobDoes(s: State, p: Prune)
    ensures var t := Run(s, [Job(p)]);
            var zips := p.config.backup && p.result != [];
            if (p.config.backup && !p.config.password) || (zips && p.fate in {ZipFails, DiesBeforeReplace})
            then t == State(s.live + p.gap, s.archives, s.lastPrune)
            else
              && t.archives == (if zips then Put(s.archives, Archive(p.now / 1_000_000, Join("\n", Lines(p.result)))) else s.archives)
              && t.live == (if p.fate in {DiesBeforeDelete, DeleteFails} then s.live + p.gap
                            else Recent(s.live + p.gap, KeptSince(p)))
              && t.lastPrune == (if p.fate in {DiesBeforeDelete, DeleteFails, DiesBeforeStamp} then s.lastPrune else Some(p.now))
  {
    assert [Job(p)][1..] == [];
    assert Run(Pruned(s, p), []) == Pruned(s, p);
    hide Recent, Put, Lines, Join;
  }

  /** The rows the DELETE takes. */
  function Deleted(s: State, p: Prune): seq<Row> {
    if p.Deletes() then Old(s.live + p.gap, p.Cutoff()) else []
  }

  /**
    Exact accounting of one run, whatever happens in it: what was there or arrived is still live, in its order, or was
    deleted; only rows older than the cutoff are deleted; with backup on, every deleted row that the query could see
    is in the archive.
    */
  lemma PruneAccounts(s: State, p: Prune)
    requires p.config.backup ==> Answers(s.live, p)
    ensures var t := Pruned(s, p);
            && multiset(s.live) + multiset(p.gap) == multiset(t.live) + multiset(Deleted(s, p))
            && (forall r :: r in Deleted(s, p) ==> r.createdAt < p.Cutoff())
            && (p.config.backup && Deleted(s, p) != [] ==>
                  && multiset(Deleted(s, p)) == multiset(p.result) + multiset(Old(p.gap, p.Cutoff()))
                  && (p.result != [] ==> p.Archives()))
  {
    OldAndRecent(s.live + p.gap, p.Cutoff());
    OldConcat(s.live, p.gap, p.Cutoff());
  }

  /** Every row the job deletes is in the archive it has just written. */
  ghost predicate ArchivedFirst(s: State, p: Prune) {
    forall r :: r in Deleted(s, p) ==> p.Archives() && r in p.result
  }

  lemma ArchivedFirstWhen(s: State, p: Prune)
    requires Answers(s.live, p) && p.config.backup && p.Deletes()
    requires forall r :: r in p.gap ==> r !in s.live
    ensures ArchivedFirst(s, p) <==> Old(p.gap, p.Cutoff()) == []
  {
    OldAndRecent(s.live, p.Cutoff());
    OldAndRecent(p.gap, p.Cutoff());
    OldConcat(s.live, p.gap, p.Cutoff());
    var gone := Old(p.gap, p.Cutoff());
    if gone != [] {
      var r := gone[0];
      assert r in gone && r in Deleted(s, p);
      assert r in multiset(p.result) <==> r in multiset(Old(s.live, p.Cutoff()));
    } else {
      forall r | r in Deleted(s, p) ensures p.Archives() && r in p.result
      {
        assert r in multiset(Old(s.live, p.Cutoff()));
        assert r in multiset(p.result);
      }
    }
  }

  /**
    Rows that can arrive while the job runs: new ones, created at most `lag` before the job's own clock reading. A row
    gets its time when it is flushed and can be seen when it is committed, so rows in flight are older than the job.
    */
  ghost predicate CanArrive(s: State, p: Prune, gap: seq<Row>, lag: int) {
    forall r :: r in gap ==> r !in s.live && r.createdAt >= p.now - lag
  }

  lemma {:induction false} UnusedId(rows: seq<Row>) returns (id: nat)
    ensures forall r :: r in rows ==> r.id < id
  {
    id := 0;
    if rows != [] {
      id := UnusedId(rows[1..]);
      id := if rows[0].id < id then id else rows[0].id + 1;
    }
  }

  /** Whatever arrives while the job runs, every row it deletes is in the archive it wrote. */
  ghost predicate SafeFrom(s: State, p: Prune, lag: int) {
    forall gap: seq<Row> {:trigger CanArrive(s, p, gap, lag)} :: CanArrive(s, p, gap, lag) ==> ArchivedFirst(s, p.(gap := gap))
  }

  /**
    With backup on, a job that deletes is safe from rows that take up to `lag` to commit exactly when the configured
    retention is no shorter than that.
    */
  lemma ArchivedBeforeDeletedIff(s: State, p: Prune, lag: int)
    requires Answers(s.live, p) && p.config.backup && p.Deletes()
    ensures SafeFrom(s, p, lag) <==> lag <= RetentionDays(p.config) * DAY
  {
    if lag <= RetentionDays(p.config) * DAY {
      forall gap: seq<Row> | CanArrive(s, p, gap, lag) ensures ArchivedFirst(s, p.(gap := gap))
      {
        NothingSlipsOut(s, p, gap, lag);
      }
    } else {
      var gap := SomethingSlipsOut(s, p, lag);
      assert CanArrive(s, p, gap, lag);
    }
  }

  lemma NothingSlipsOut(s: State, p: Prune, gap: seq<Row>, lag: int)
    requires Answers(s.live, p) && p.config.backup && p.Deletes()
    requires lag <= RetentionDays(p.config) * DAY && CanArrive(s, p, gap, lag)
    ensures ArchivedFirst(s, p.(gap := gap))
  {
    var q := p.(gap := gap);
    AnswersKeeps(s.live, p, q);
    hide ArchivedFirst, Answers, Old;
    NothingOld(gap, q.Cutoff());
    ArchivedFirstWhen(s, q);
  }

  lemma SomethingSlipsOut(s: State, p: Prune, lag: int) returns (gap: seq<Row>)
    requires Answers(s.live, p) && p.config.backup && p.Deletes() && lag > RetentionDays(p.config) * DAY
    ensures CanArrive(s, p, gap, lag) && !ArchivedFirst(s, p.(gap := gap))
  {
    var id := UnusedId(s.live);
    var row := Row(id, p.now - lag, RawLog.Chars([]));
    gap := [row];
    assert row !in s.live && forall r :: r in gap ==> r == row;
    var q := p.(gap := gap);
    AnswersKeeps(s.live, p, q);
    FilterStep(gap, q.Cutoff());
    assert Old(gap, q.Cutoff()) != [];
    hide ArchivedFirst, Answers, Old;
    ArchivedFirstWhen(s, q);
  }

  lemma {:induction false} NothingOld(rows: seq<Row>, cutoff: int)
    requires forall r :: r in rows ==> r.createdAt >= cutoff
    ensures Old(rows, cutoff) == []
  {
    if rows != [] {
      assert rows[0] in rows;
      NothingOld(rows[1..], cutoff);
    }
  }

  lemma AnswersKeeps(live: seq<Row>, p: Prune, q: Prune)
    requires Answers(live, p) && q == p.(gap := q.gap)
    ensures Answers(live, q)
  {
  }

  /** logs_config_save stores only positive retentions. */
  predicate FormAccepts(days: int) {
    days > 0
  }

  /** The form's guard is the right one: as long as no row takes more than a day to commit, it draws the line exactly. */
  lemma FormGuardIsExact(s: State, p: Prune, lag: int)
    requires Answers(s.live, p) && p.config.backup && p.Deletes() && 0 < lag <= DAY
    ensures SafeFrom(s, p, lag) <==> FormAccepts(RetentionDays(p.config))
  {
    hide SafeFrom, Answers;
    ArchivedBeforeDeletedIff(s, p, lag);
  }

  /** With a retention of zero or less, a row in flight when the job starts is deleted unarchived. */
  lemma ShortRetentionLoses(days: int, now: int, row: Row)
    requires days <= 0 && row.createdAt == now - 1
    ensures var p := Prune(now, Config(Some(days), true, true), [], [row], Completes);
            var s := State([], [], None);
            && !FormAccepts(days) && Answers(s.live, p) && CanArrive(s, p, p.gap, 1)
            && Pruned(s, p) == State([], [], Some(now))
  {
    var p := Prune(now, Config(Some(days), true, true), [], [row], Completes);
    assert [] + [row] == [row] && [row][1..] == [];
    assert Recent([row], p.Cutoff()) == [] + Recent([], p.Cutoff());
  }

  // ------------------------------------------------------------------ whole runs

  datatype Event = Insert(row: Row) | Job(p: Prune)

  function Apply(s: State, e: Event): State {
    match e
    case Insert(row) => s.(live := s.live + [row])
    case Job(p) => Pruned(s, p)
  }

  function Run(s: State, events: seq<Event>): State
    decreases events
  {
    if events == [] then s else Run(Apply(s, events[0]), events[1..])
  }

  function Arrivals(e: Event): seq<Row> {
    match e
    case Insert(row) => [row]
    case Job(p) => p.gap
  }

  /** Every row stored during the run. */
  function StoredDuring(events: seq<Event>): seq<Row> {
    if events == [] then [] else Arrivals(events[0]) + StoredDuring(events[1..])
  }

  /** Backup on, an archive's name not yet used, and at a delete no row that took longer to commit than the retention. */
  predicate Safe(s: State, p: Prune) {
    && p.config.backup
    && (p.Archives() ==> Unused(s.archives, p.Name()))
    && (p.Deletes() ==> forall i :: 0 <= i < |p.gap| ==> p.gap[i].createdAt >= p.Cutoff())
  }

  predicate Fits(s: State, e: Event) {
    && Spelled(Arrivals(e))
    && (e.Job? ==> Answers(s.live, e.p) && Safe(s, e.p))
  }

  predicate SafeRun(s: State, events: seq<Event>)
    decreases events
  {
    events == [] || (Fits(s, events[0]) && SafeRun(Apply(s, events[0]), events[1..]))
  }

  /** Some archive has the row's text as a line. */
  ghost predicate InArchive(s: State, text: string) {
    exists i :: 0 <= i < |s.archives| && text in Split(s.archives[i].text, '\n')
  }

  ghost predicate Kept(s: State, r: Row) {
    r in s.live || InArchive(s, RawJson(r))
  }

  lemma SpelledOld(rows: seq<Row>, p: Prune)
    requires Spelled(rows) && Answers(rows, p)
    ensures Spelled(p.result)
  {
    OldAndRecent(rows, p.Cutoff());
    forall i | 0 <= i < |p.result| ensures RawLog.WellSpelled(p.result[i].data)
    {
      assert p.result[i] in multiset(p.result);
      assert p.result[i] in Old(rows, p.Cutoff());
      assert p.result[i] in rows;
    }
  }

  lemma StepKeeps(s: State, e: Event, r: Row)
    requires Fits(s, e) && Spelled(s.live)
    requires Kept(s, r) || r in Arrivals(e)
    ensures Kept(Apply(s, e), r)
  {
    hide RawJson, Split, RawLog.WellSpelled;
    var t := Apply(s, e);
    if InArchive(s, RawJson(r)) {
      var i :| 0 <= i < |s.archives| && RawJson(r) in Split(s.archives[i].text, '\n');
      if e.Job? {
        PutHolds(s.archives, ArchiveOf(e.p));
      }
      assert t.archives[i] == s.archives[i];
    } else if e.Job? {
      PruneKeeps(s, e.p, r);
    }
  }

  /** An old row is in the archive of the job that deletes it. */
  lemma OldIsArchived(s: State, p: Prune, r: Row)
    requires Fits(s, Job(p)) && Spelled(s.live) && p.Deletes()
    requires r in Old(s.live, p.Cutoff())
    ensures InArchive(Pruned(s, p), RawJson(r))
  {
    hide RawJson, Split, RawLog.WellSpelled, Old, Ordered, Join, Pruned;
    assert r in multiset(p.result);
    var i :| 0 <= i < |p.result| && p.result[i] == r;
    SpelledOld(s.live, p);
    ArchiveSplitsBack(s, p);
    assert Lines(p.result)[i] == RawJson(r);
    var archives := Pruned(s, p).archives;
    var j :| 0 <= j < |archives| && archives[j] == ArchiveOf(p);
    assert RawJson(r) in Split(archives[j].text, '\n');
  }

  lemma PruneKeeps(s: State, p: Prune, r: Row)
    requires Fits(s, Job(p)) && Spelled(s.live)
    requires r in s.live || r in p.gap
    ensures Kept(Pruned(s, p), r)
  {
    hide RawJson, Split, Spelled, InArchive, Old, Recent, Answers, Lines, Join;
    assert r in s.live + p.gap;
    OldAndRecent(s.live + p.gap, p.Cutoff());
    OldAndRecent(s.live, p.Cutoff());
    if r !in Pruned(s, p).live {
      OldIsArchived(s, p, r);
    }
  }

  lemma SpelledStep(s: State, e: Event)
    requires Fits(s, e) && Spelled(s.live)
    ensures Spelled(Apply(s, e).live)
  {
    if e.Job? {
      OldAndRecent(s.live + e.p.gap, e.p.Cutoff());
      var t := Apply(s, e);
      forall i | 0 <= i < |t.live| ensures RawLog.WellSpelled(t.live[i].data)
      {
        assert t.live[i] in s.live + e.p.gap;
      }
    }
  }

  /**
    While backup-before-prune stays on, no row is ever lost: whatever was there or is stored during the run, through
    any failures and crashes, ends live or as a line of an archive.
    */
  lemma {:induction false} NothingIsLost(s: State, events: seq<Event>, r: Row)
    requires SafeRun(s, events) && Spelled(s.live)
    requires Kept(s, r) || r in StoredDuring(events)
    ensures Kept(Run(s, events), r)
    decreases events
  {
    if events != [] {
      var e := events[0];
      SpelledStep(s, e);
      hide Kept, Fits, Spelled;
      if Kept(s, r) || r in Arrivals(e) {
        StepKeeps(s, e, r);
      }
      NothingIsLost(Apply(s, e), events[1..], r);
    }
  }

  // ------------------------------------------------------------------ conservation

  /** How many of the rows have that text. */
  function Copies(rows: seq<Row>, text: string): nat {
    if rows == [] then 0 else (if RawJson(rows[0]) == text then 1 else 0) + Copies(rows[1..], text)
  }

  /** How many lines of all archives are that text. */
  function ArchivedCopies(archives: seq<Archive>, text: string): nat {
    if archives == [] then 0
    else
      var n := |archives| - 1;
      ArchivedCopies(archives[..n], text) + multiset(Split(archives[n].text, '\n'))[text]
  }

  /** What a state holds of a text, live and archived. */
  function Held(s: State, text: string): nat {
    Copies(s.live, text) + ArchivedCopies(s.archives, text)
  }

  /** Copies a job archives without deleting their rows: it died or failed after it replaced the archive. */
  function ExtraCopies(e: Event, text: string): nat {
    if e.Job? && e.p.Archives() && !e.p.Deletes() then Copies(e.p.result, text) else 0
  }

  function ArchivedOnly(events: seq<Event>, text: string): nat {
    if events == [] then 0 else ExtraCopies(events[0], text) + ArchivedOnly(events[1..], text)
  }

  lemma {:induction false} CopiesAreLines(rows: seq<Row>, text: string)
    ensures multiset(Lines(rows))[text] == Copies(rows, text)
  {
    hide RawJson;
    if rows != [] {
      CopiesAreLines(rows[1..], text);
    }
  }

  lemma {:induction false} CopiesConcat(a: seq<Row>, b: seq<Row>, text: string)
    ensures Copies(a + b, text) == Copies(a, text) + Copies(b, text)
  {
    hide RawJson;
    if a == [] {
      assert a + b == b;
    } else {
      CopiesConcat(a[1..], b, text);
      assert (a + b)[0] == a[0] && (a + b)[1..] == a[1..] + b;
    }
  }

  /** Taking one row out of a table. */
  lemma TakeOut(rows: seq<Row>, r: Row, text: string) returns (rest: seq<Row>)
    requires r in rows
    ensures |rest| == |rows| - 1 && multiset(rest) == multiset(rows) - multiset{r}
    ensures Copies(rows, text) == Copies([r], text) + Copies(rest, text)
  {
    hide Copies;
    var i :| 0 <= i < |rows| && rows[i] == r;
    var a, b := rows[..i], rows[i + 1..];
    rest := a + b;
    CopiesConcat(a, [r] + b, text);
    CopiesConcat([r], b, text);
    CopiesConcat(a, b, text);
    assert rows == a + ([r] + b);
  }

  /** Counting does not depend on the order of the rows. */
  lemma {:induction false} CopiesPermute(a: seq<Row>, b: seq<Row>, text: string)
    requires multiset(a) == multiset(b)
    ensures Copies(a, text) == Copies(b, text)
    decreases |a|
  {
    if a == [] {
      assert |multiset(a)| == |multiset(b)|;
    } else {
      hide Copies;
      assert a[0] in multiset(b);
      var a' := TakeOut(a, a[0], text);
      var b' := TakeOut(b, a[0], text);
      CopiesPermute(a', b', text);
    }
  }

  lemma {:induction false} CopiesSplit(rows: seq<Row>, cutoff: int, text: string)
    ensures Copies(Old(rows, cutoff), text) + Copies(Recent(rows, cutoff), text) == Copies(rows, text)
  {
    hide RawJson;
    if rows != [] {
      CopiesSplit(rows[1..], cutoff, text);
      CopiesConcat([rows[0]], Old(rows[1..], cutoff), text);
      CopiesConcat([rows[0]], Recent(rows[1..], cutoff), text);
      CopiesConcat([rows[0]], rows[1..], text);
      FilterStep(rows, cutoff);
      hide Copies, Old, Recent;
    }
  }

  lemma FilterStep(rows: seq<Row>, cutoff: int)
    requires rows != []
    ensures rows == [rows[0]] + rows[1..]
    ensures if rows[0].createdAt < cutoff
            then Old(rows, cutoff) == [rows[0]] + Old(rows[1..], cutoff) && Recent(rows, cutoff) == Recent(rows[1..], cutoff)
            else Old(rows, cutoff) == Old(rows[1..], cutoff) && Recent(rows, cutoff) == [rows[0]] + Recent(rows[1..], cutoff)
  {
  }

  lemma ArchivesAppend(archives: seq<Archive>, a: Archive, text: string)
    ensures ArchivedCopies(archives + [a], text) == ArchivedCopies(archives, text) + multiset(Split(a.text, '\n'))[text]
  {
    assert (archives + [a])[..|archives|] == archives;
  }

  /** The archive a job writes adds the texts of the rows it found old. */
  lemma ArchivingAdds(s: State, p: Prune, text: string)
    requires Fits(s, Job(p)) && Spelled(s.live) && p.Archives()
    ensures ArchivedCopies(Pruned(s, p).archives, text) == ArchivedCopies(s.archives, text) + Copies(p.result, text)
  {
    SpelledOld(s.live, p);
    ArchiveSplitsBack(s, p);
    PutHolds(s.archives, ArchiveOf(p));
    ArchivesAppend(s.archives, ArchiveOf(p), text);
    CopiesAreLines(p.result, text);
    hide ArchivedCopies, Copies, Lines, RawJson, Join, Split, Spelled, Answers;
  }

  /** The delete takes exactly the texts of those rows, for rows that slipped in are not old. */
  lemma DeletingTakes(s: State, p: Prune, text: string)
    requires Fits(s, Job(p)) && p.Deletes()
    ensures Copies(s.live, text) + Copies(p.gap, text) == Copies(Pruned(s, p).live, text) + Copies(p.result, text)
  {
    hide RawJson, Copies, Old, Recent, RawLog.WellSpelled;
    var cutoff := p.Cutoff();
    CopiesPermute(p.result, Old(s.live, cutoff), text);
    CopiesConcat(s.live, p.gap, text);
    CopiesSplit(s.live + p.gap, cutoff, text);
    OldConcat(s.live, p.gap, cutoff);
    NothingOld(p.gap, cutoff);
    assert Old(s.live, cutoff) + [] == Old(s.live, cutoff);
  }

  lemma EventConserves(s: State, e: Event, text: string)
    requires Fits(s, e) && Spelled(s.live)
    ensures Held(Apply(s, e), text) == Held(s, text) + Copies(Arrivals(e), text) + ExtraCopies(e, text)
  {
    hide Spelled, ArchivedCopies, RawJson, Lines, Old, Recent, Answers, Put, ArchiveOf;
    match e
    case Insert(row) => CopiesConcat(s.live, [row], text);
    case Job(p) =>
      CopiesConcat(s.live, p.gap, text);
      if p.Archives() {
        ArchivingAdds(s, p, text);
      }
      if p.Deletes() {
        DeletingTakes(s, p, text);
      }
  }

  /**
    While backup-before-prune stays on, every text is conserved with its multiplicity: the copies a run ends with, live
    and archived, are those it started with, plus those stored, plus one for every row of a job that archived but could
    not delete.
    */
  lemma {:induction false} CopiesAreConserved(s: State, events: seq<Event>, text: string)
    requires SafeRun(s, events) && Spelled(s.live)
    ensures Held(Run(s, events), text)
         == Held(s, text) + Copies(StoredDuring(events), text) + ArchivedOnly(events, text)
    decreases events
  {
    if events != [] {
      var e := events[0];
      SpelledStep(s, e);
      EventConserves(s, e, text);
      CopiesConcat(Arrivals(e), StoredDuring(events[1..]), text);
      hide Fits, Spelled, Held, Copies, Apply, ExtraCopies;
      CopiesAreConserved(Apply(s, e), events[1..], text);
    }
  }

  /** Over any run a row leaves the table only through a job whose cutoff it was older than. */
  lemma {:induction false} OnlyOldRowsLeave(s: State, events: seq<Event>, r: Row)
    requires r in s.live && r !in Run(s, events).live
    ensures exists i :: 0 <= i < |events| && events[i].Job? && events[i].p.Deletes() && r.createdAt < events[i].p.Cutoff()
    decreases events
  {
    if events != [] {
      var t := Apply(s, events[0]);
      if r in t.live {
        OnlyOldRowsLeave(t, events[1..], r);
        var i :| 0 <= i < |events[1..]| && events[1..][i].Job? && events[1..][i].p.Deletes()
                 && r.createdAt < events[1..][i].p.Cutoff();
        assert events[i + 1] == events[1..][i];
      } else {
        assert r in s.live + events[0].p.gap;
        OldAndRecent(s.live + events[0].p.gap, events[0].p.Cutoff());
      }
    }
  }

  // ------------------------------------------------------------------ the job

  datatype Outcome = Skipped | Raised | Died | Finished(archived: nat, deleted: nat, file: Option<int>)

  class RawLogJob {
    var live: seq<Row>
    var archives: seq<Archive>
    var lastPrune: Option<int>

    ghost function Contents(): State
      reads this
    {
      State(live, archives, lastPrune)
    }

    constructor ()
      ensures Contents() == State([], [], None)
    {
      live, archives, lastPrune := [], [], None;
    }

    method Store(row: Row)
      modifies this
      ensures Contents() == Apply(old(Contents()), Insert(row))
    {
      live := live + [row];
    }

    /** prune_and_archive. */
    method PruneAndArchive(p: Prune) returns (outcome: Outcome)
      requires p.config.backup && p.config.password ==> Answers(live, p)
      modifies this
      ensures Contents() == Pruned(old(Contents()), p)
      ensures outcome == Skipped <==> p.config.backup && !p.config.password
      ensures outcome.Finished? <==>
                && !(p.config.backup && !p.config.password)
                && (p.fate == Completes || (p.fate in {ZipFails, DiesBeforeReplace} && !(p.config.backup && p.result != [])))
      ensures outcome.Finished? ==>
                && outcome.deleted == |old(live)| + |p.gap| - |live|
                && outcome.archived == (if p.config.backup then |p.result| else 0)
                && outcome.file == (if outcome.archived > 0 then Some(p.now / 1_000_000) else None)
                && lastPrune == Some(p.now)
      ensures outcome == Raised <==>
                && !(p.config.backup && !p.config.password)
                && (p.fate == DeleteFails || (p.fate == ZipFails && p.config.backup && p.result != []))
    {
      var cutoff := p.now - RetentionDays(p.config) * DAY;
      var archived, file := 0, None;
      var rows := [];
      if p.config.backup {
        if !p.config.password {
          live := live + p.gap;
          return Skipped;
        }
        rows := p.result;
        if rows != [] {
          var part := Join("\n", Lines(rows));
          if p.fate == ZipFails {
            live := live + p.gap;
            return Raised;
          }
          if p.fate == DiesBeforeReplace {
            live := live + p.gap;
            return Died;
          }
          archives := Put(archives, Archive(p.Name(), part));
          archived, file := |rows|, Some(p.Name());
        }
      }
      live := live + p.gap;
      if p.fate == DiesBeforeDelete {
        return Died;
      }
      if p.fate == DeleteFails {
        return Raised;
      }
      var before := live;
      live := Recent(before, cutoff);
      Lengths(before, cutoff);
      var deleted := |before| - |live|;
      if p.fate == DiesBeforeStamp {
        return Died;
      }
      lastPrune := Some(p.now);
      return Finished(archived, deleted, file);
    }
  }

  lemma Lengths(rows: seq<Row>, cutoff: int)
    ensures |Old(rows, cutoff)| + |Recent(rows, cutoff)| == |rows|
  {
    OldAndRecent(rows, cutoff);
    assert |multiset(Old(rows, cutoff)) + multiset(Recent(rows, cutoff))| == |multiset(rows)|;
  }
}
