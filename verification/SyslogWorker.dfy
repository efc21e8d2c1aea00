/** The syslog forwarding worker: its cursors and its ticks. */
module SyslogWorker {
  import opened Wrappers

  /** Rows per table and tick at most. */
  const BATCH_SIZE: nat := 500

  /** The text stored under a cursor key of AppConfig. */
  datatype Cell = Absent | Corrupt | At(id: nat)

  /**
    One append-only source. Ids stand for rows: the frame of a row is a function of that row (module SyslogFrame).
    `table` holds the ids in the order they became visible, `cell` the stored cursor,
    `log` the ids whose frames reached the collector, that is, for which `send` returned. `start` (table
    length when the cursor was bootstrapped) and `bad` (ticks that failed or died in this source) are
    history: no step reads them.
    */
  datatype Stream = Stream(table: seq<nat>, cell: Cell, log: seq<nat>, start: nat, bad: nat)

  /**
    How one source fares in one tick. `NetError(k)`: OSError after k frames reached the collector.
    `Abort(k, bootFails)`: any other exception, or the process dying, after k frames; with `bootFails`
    already before a missing cursor could be bootstrapped.
    */
  datatype Fate = Normal | NetError(k: nat) | Abort(k: nat, bootFails: bool)

  datatype Outcome = Forwarded(rows: nat) | Failed | Died

  datatype ErrorText = Clean | WafSendError | AuditSendError | TickError

  datatype Telemetry = Saved | DiedBeforeTotal | DiedAfterTotal

  datatype Plan = Plan(
    useWaf: bool, waf: Fate, wafArrivals: seq<nat>,
    useAudit: bool, audit: Fate, auditArrivals: seq<nat>,
    telemetry: Telemetry, handlerRuns: bool)

  datatype State = State(waf: Stream, audit: Stream, sentTotal: nat, lastError: ErrorText)

  datatype Event = InsertWaf(gap: nat) | InsertAudit(gap: nat) | Tick(plan: Plan)

  // ------------------------------------------------------------------ the tables

  function Last(ids: seq<nat>): nat {
    if ids == [] then 0 else ids[|ids| - 1]
  }

  /** Ids start at 1 and become visible in increasing order; a rolled back insert leaves a gap. */
  ghost predicate Ascending(ids: seq<nat>) {
    && (forall i :: 0 <= i < |ids| ==> 1 <= ids[i])
    && (forall i, j :: 0 <= i < j < |ids| ==> ids[i] < ids[j])
  }

  function Insert(s: Stream, gap: nat): Stream {
    s.(table := s.table + [Last(s.table) + 1 + gap])
  }

  function InsertAll(s: Stream, gaps: seq<nat>): Stream
    decreases gaps
  {
    if gaps == [] then s else InsertAll(Insert(s, gaps[0]), gaps[1..])
  }

  /** SELECT ... WHERE id > cursor ORDER BY id. */
  function Above(ids: seq<nat>, cursor: int): (r: seq<nat>)
    ensures |r| <= |ids|
  {
    if ids == [] then []
    else (if ids[0] > cursor then [ids[0]] else []) + Above(ids[1..], cursor)
  }

  /** ... LIMIT 500. */
  function Batch(ids: seq<nat>, cursor: int): seq<nat> {
    var rows := Above(ids, cursor);
    if |rows| <= BATCH_SIZE then rows else rows[..BATCH_SIZE]
  }

  // ------------------------------------------------------------------ one source in one tick

  /** -1 stands for a cursor that is missing or does not parse. */
  function GetCursor(cell: Cell): int {
    match cell
    case At(id) => id
    case _ => -1
  }

  function Bootstrap(s: Stream): Stream {
    s.(cell := At(Last(s.table)), start := |s.table|)
  }

  /** The source as its query finds it: cursor bootstrapped if need be, rows inserted meanwhile visible. */
  function Prepared(s: Stream, arrivals: seq<nat>): Stream {
    InsertAll(if GetCursor(s.cell) == -1 then Bootstrap(s) else s, arrivals)
  }

  /** Send the batch row by row; the cursor moves only when every row went out. */
  function Attempt(s: Stream, fate: Fate): (Stream, Outcome) {
    var rows := Batch(s.table, GetCursor(s.cell));
    match fate
    case Abort(k, _) => (s.(log := s.log + rows[..Min(k, |rows|)], bad := s.bad + 1), Died)
    case NetError(k) =>
      if rows == [] then (s, Forwarded(0))
      else (s.(log := s.log + rows[..Min(k, |rows|)], bad := s.bad + 1), Failed)
    case Normal =>
      if rows == [] then (s, Forwarded(0))
      else (s.(cell := At(Last(rows)), log := s.log + rows), Forwarded(|rows|))
  }

  function Phase(s: Stream, fate: Fate, arrivals: seq<nat>): (Stream, Outcome) {
    if GetCursor(s.cell) == -1 && fate.Abort? && fate.bootFails then (s.(bad := s.bad + 1), Died)
    else Attempt(Prepared(s, arrivals), fate)
  }

  function Rows(o: Outcome): nat {
    if o.Forwarded? then o.rows else 0
  }

  /** The exception handler around the tick; a dead process runs no handler. */
  function Handler(s: State, runs: bool): State {
    if runs then s.(lastError := TickError) else s
  }

  function RunTick(s: State, p: Plan): State {
    var (waf, o1) := if p.useWaf then Phase(s.waf, p.waf, p.wafArrivals) else (s.waf, Forwarded(0));
    if o1 == Died then Handler(s.(waf := waf), p.handlerRuns)
    else
      var (audit, o2) := if p.useAudit then Phase(s.audit, p.audit, p.auditArrivals) else (s.audit, Forwarded(0));
      var s' := s.(waf := waf, audit := audit);
      if o2 == Died || p.telemetry == DiedBeforeTotal then Handler(s', p.handlerRuns)
      else
        var s'' := s'.(sentTotal := s.sentTotal + Rows(o1) + Rows(o2));
        if p.telemetry == DiedAfterTotal then Handler(s'', p.handlerRuns)
        else s''.(lastError := if o2 == Failed then AuditSendError else if o1 == Failed then WafSendError else Clean)
  }

  function Step(s: State, e: Event): State {
    match e
    case InsertWaf(gap) => s.(waf := Insert(s.waf, gap))
    case InsertAudit(gap) => s.(audit := Insert(s.audit, gap))
    case Tick(p) => RunTick(s, p)
  }

  function Run(s: State, events: seq<Event>): State
    decreases events
  {
    if events == [] then s else Run(Step(s, events[0]), events[1..])
  }

  // ------------------------------------------------------------------ what is promised

  /** A source that was never forwarded: whatever history the table has, the cursor is missing or unreadable. */
  ghost predicate Untouched(s: Stream) {
    Ascending(s.table) && !s.cell.At? && s.log == [] && s.start == 0 && s.bad == 0
  }

  ghost predicate Initial(s: State) {
    Untouched(s.waf) && Untouched(s.audit) && s.sentTotal == 0
  }

  /** The log with every repeated entry dropped, keeping first occurrences in order. */
  function FirstOccurrences(log: seq<nat>): seq<nat> {
    if log == [] then []
    else
      var front := log[..|log| - 1];
      var x := log[|log| - 1];
      FirstOccurrences(front) + (if x in front then [] else [x])
  }

  /** The rows the cursor has passed by forwarding: after bootstrap, at or below the cursor. */
  function Passed(s: Stream): nat {
    if s.cell.At? && s.start <= |s.table|
    then |s.table| - s.start - |Above(s.table[s.start..], s.cell.id)|
    else 0
  }

  function Backlog(s: Stream): nat {
    |Above(s.table, GetCursor(s.cell))|
  }

  /** At most bound + 1 sends of any row, at most bound of the rows the cursor has not passed. */
  ghost predicate SendsBounded(table: seq<nat>, log: seq<nat>, next: nat, bound: nat) {
    && (forall id :: id in log ==> multiset(log)[id] <= bound + 1)
    && (forall i :: next <= i < |table| ==> multiset(log)[table[i]] <= bound)
  }

  /**
    The inductive invariant of one source. `next` is the table index just past the cursor and
    `high` the index just past the furthest row ever sent.
    */
  ghost predicate Inv(s: Stream, next: nat, high: nat) {
    && Ascending(s.table)
    && (s.cell.At? ==>
          && s.start <= next <= high <= |s.table|
          && s.cell.id == Last(s.table[..next])
          && FirstOccurrences(s.log) == s.table[s.start..high]
          && SendsBounded(s.table, s.log, next, s.bad))
    && (!s.cell.At? ==> s.log == [])
  }

  // ------------------------------------------------------------------ main results (their proofs follow)

  /**
    At-least-once delivery over every run. Once the cursor exists: every row inserted after the
    bootstrap and at or below the cursor reached the collector; the first occurrences in the log are an
    unbroken ascending run of rows that starts right after the bootstrap; no row is sent more often than
    once plus once per tick that failed or died.
    */
  lemma AtLeastOnce(s0: State, events: seq<Event>, source: Source) returns (high: nat)
    requires Initial(s0)
    ensures var s := Of(Run(s0, events), source);
            s.cell.At? ==> Delivered(s, high, FaultyTicks(events, source))
    ensures var s := Of(Run(s0, events), source);
            !s.cell.At? ==> s.log == []
  {
    UntouchedIsGood(s0.waf);
    UntouchedIsGood(s0.audit);
    RunKeepsGood(s0, events);
    high := GoodDelivers(Of(Run(s0, events), source));
  }

  /** Between any two points of a run the cursor never disappears and never goes back. */
  lemma CursorNeverDecreases(s0: State, before: seq<Event>, after: seq<Event>, source: Source)
    requires Initial(s0)
    ensures var s, t := Of(Run(s0, before), source), Of(Run(Run(s0, before), after), source);
            s.cell.At? ==> t.cell.At? && s.cell.id <= t.cell.id
  {
    UntouchedIsGood(s0.waf);
    UntouchedIsGood(s0.audit);
    RunKeepsGood(s0, before);
    RunKeepsGood(Run(s0, before), after);
    var s, t := Run(s0, before), Run(Run(s0, before), after);
    assert Advances(Of(s, source), Of(t, source), FaultyTicks(after, source));
  }

  /** A tick never counts a row the cursors did not pass, and one that ends normally counts them all. */
  lemma TickTelemetry(s: State, p: Plan)
    requires GoodState(s)
    ensures var t := RunTick(s, p);
            && t.sentTotal - s.sentTotal <= TotalPassed(t) - TotalPassed(s)
            && (EndsNormally(s, p) ==> t.sentTotal - s.sentTotal == TotalPassed(t) - TotalPassed(s))
  {
    hide Good, Phase, Passed;
    PhaseStep(s.waf, p.waf, p.wafArrivals);
    PhaseStep(s.audit, p.audit, p.auditArrivals);
  }

  /** sent_total never overstates; it is exact as long as no tick died between cursor and total commits. */
  lemma TelemetryConservation(s0: State, events: seq<Event>)
    requires Initial(s0)
    ensures Run(s0, events).sentTotal <= TotalPassed(Run(s0, events))
    ensures NoTickDies(s0, events) ==> Run(s0, events).sentTotal == TotalPassed(Run(s0, events))
  {
    UntouchedIsGood(s0.waf);
    UntouchedIsGood(s0.audit);
    TelemetryAlongRun(s0, events);
  }

  lemma NormalPhaseDrains(s: Stream)
    requires Good(s) && s.cell.At?
    ensures var t := Phase(s, Normal, []).0;
            Good(t) && t.cell.At? && Backlog(t) == Backlog(s) - Min(Backlog(s), BATCH_SIZE)
  {
    var next: nat, high: nat :| Inv(s, next, high);
    BacklogIs(s, next, high);
    var next', high' := AttemptKeepsInv(s, next, high, Normal);
    var t := Attempt(s, Normal).0;
    assert Phase(s, Normal, []).0 == t;
    BacklogIs(t, next', high');
  }

  /** The cursor stands at the n-th row; 0 stands before the first. */
  ghost predicate CursorAt(s: Stream, n: nat) {
    n <= |s.table| && s.cell == At(if n == 0 then 0 else s.table[n - 1])
  }

  /** Where forwarding starts: behind the cursor, and behind everything when there is none. */
  ghost predicate StartsAt(s: Stream, n: nat) {
    Ascending(s.table) && if s.cell.At? then CursorAt(s, n) else n == |s.table|
  }

  /** The source as an attempt left it that began at row n, with this log before. */
  ghost predicate Sends(log: seq<nat>, t: Stream, fate: Fate, n: nat)
    requires n <= |t.table|
  {
    var m := Min(|t.table| - n, 500);
    && t.log == log + t.table[n..n + if fate.Normal? then m else Min(fate.k, m)]
    && CursorAt(t, if fate.Normal? then n + m else n)
  }

  /**
    A source was forwarded from row n on: the next rows, at most 500, in order; all of them and the cursor behind them
    when nothing failed, otherwise the first k of them and the cursor where it was.
    */
  ghost predicate Forwards(s: Stream, t: Stream, fate: Fate, arrivals: seq<nat>, n: nat) {
    if fate.Abort? && fate.bootFails && !s.cell.At? then t == s.(bad := s.bad + 1)
    else
      && s.table <= t.table && |t.table| == |s.table| + |arrivals| && n <= |t.table|
      && Sends(s.log, t, fate, n)
  }

  /**
    What one tick does to the two sources, whatever fails in it: each one that is switched on is forwarded; the audit
    source also after a network error of the other, and not only after an abort of it.
    */
  lemma TickForwards(s: State, p: Plan, n: nat, k: nat)
    requires StartsAt(s.waf, n) && StartsAt(s.audit, k)
    ensures var t := Run(s, [Tick(p)]);
            && (if p.useWaf then Forwards(s.waf, t.waf, p.waf, p.wafArrivals, n) else t.waf == s.waf)
            && (if p.useAudit && !(p.useWaf && p.waf.Abort?) then Forwards(s.audit, t.audit, p.audit, p.auditArrivals, k)
                else t.audit == s.audit)
  {
    RunOneTick(s, p);
    PhaseForwards(s.waf, p.waf, p.wafArrivals, n);
    PhaseForwards(s.audit, p.audit, p.auditArrivals, k);
    PhaseOutcome(s.waf, p.waf, p.wafArrivals, n);
    hide Phase, Forwards, StartsAt;
  }

  predicate Aborts(p: Plan) {
    (p.useWaf && p.waf.Abort?) || (p.useAudit && p.audit.Abort?)
  }

  /**
    What a tick reports: the rows forwarded are added unless it dies first, and the error text is empty exactly when no
    source that had rows to send met a network error, the audit source's error winning.
    */
  lemma TickReports(s: State, p: Plan, n: nat, k: nat)
    requires StartsAt(s.waf, n) && StartsAt(s.audit, k)
    ensures var t := Run(s, [Tick(p)]);
            var waf, audit := |s.waf.table| + |p.wafArrivals| - n, |s.audit.table| + |p.auditArrivals| - k;
            && t.sentTotal == s.sentTotal + (if Aborts(p) || p.telemetry == DiedBeforeTotal then 0 else
                 (if p.useWaf && p.waf.Normal? then Min(waf, 500) else 0)
                 + (if p.useAudit && p.audit.Normal? then Min(audit, 500) else 0))
            && t.lastError == (if Aborts(p) || p.telemetry != Saved then (if p.handlerRuns then TickError else s.lastError)
                 else if p.useAudit && p.audit.NetError? && audit > 0 then AuditSendError
                 else if p.useWaf && p.waf.NetError? && waf > 0 then WafSendError
                 else Clean)
  {
    RunOneTick(s, p);
    PhaseOutcome(s.waf, p.waf, p.wafArrivals, n);
    PhaseOutcome(s.audit, p.audit, p.auditArrivals, k);
    hide Phase, StartsAt;
  }

  /** A tick that forwards the source with no error of its own; the other source may fail, but not abort before it. */
  predicate Serves(e: Event, source: Source) {
    e.Tick? &&
    match source
    case Waf => e.plan.useWaf && e.plan.waf.Normal? && e.plan.wafArrivals == []
    case Audit => e.plan.useAudit && e.plan.audit.Normal? && e.plan.auditArrivals == [] && !(e.plan.useWaf && e.plan.waf.Abort?)
  }

  /**
    Ticks that serve a source remove min(500, backlog) rows each, whatever network errors the other source meets: a
    backlog of n is gone after ceil(n/500) of them and not before.
    */
  lemma {:induction false} DrainsInCeilTicks(s: State, ticks: seq<Event>, source: Source)
    requires GoodState(s) && Of(s, source).cell.At?
    requires forall i :: 0 <= i < |ticks| ==> Serves(ticks[i], source)
    ensures var b, left := Backlog(Of(s, source)), Backlog(Of(Run(s, ticks), source));
            && left == b - Min(b, 500 * |ticks|)
            && (left == 0 <==> |ticks| >= (b + 499) / 500)
    decreases ticks
  {
    hide Good, Phase, Backlog;
    if ticks != [] {
      ServedOnce(s, ticks[0].plan, source);
      EventStep(s, ticks[0]);
      hide RunTick;
      assert forall i :: 0 <= i < |ticks[1..]| ==> ticks[1..][i] == ticks[i + 1];
      DrainsInCeilTicks(Step(s, ticks[0]), ticks[1..], source);
    }
  }

  /**
    Why an unreadable cursor is excluded from AtLeastOnce: the bootstrap to MAX(id) that answers it drops
    the backlog for good. With the cursor corrupt, no row in the table is ever sent again, whatever follows;
    with a readable cursor the same holds of every row at or below it.
    */
  lemma {:induction false} SkippedRowsAreNeverSent(s: State, events: seq<Event>, source: Source, id: nat)
    requires Behind(Of(s, source), id)
    ensures multiset(Of(Run(s, events), source).log)[id] == multiset(Of(s, source).log)[id]
    decreases events
  {
    if events != [] {
      BehindAfterEvent(s, events[0], source, id);
      hide Behind, Step;
      SkippedRowsAreNeverSent(Step(s, events[0]), events[1..], source, id);
    }
  }

  // ------------------------------------------------------------------ selection lemmas

  lemma {:induction false} AboveAll(ids: seq<nat>, cursor: int)
    requires forall i :: 0 <= i < |ids| ==> ids[i] > cursor
    ensures Above(ids, cursor) == ids
  {
    if ids != [] {
      AboveAll(ids[1..], cursor);
      assert ids == [ids[0]] + ids[1..];
    }
  }

  lemma {:induction false} AboveIsSuffix(ids: seq<nat>, n: nat, cursor: int)
    requires n <= |ids|
    requires forall i :: 0 <= i < n ==> ids[i] <= cursor
    requires forall i :: n <= i < |ids| ==> ids[i] > cursor
    ensures Above(ids, cursor) == ids[n..]
  {
    if n == 0 {
      AboveAll(ids, cursor);
    } else {
      AboveIsSuffix(ids[1..], n - 1, cursor);
      assert ids[1..][n - 1..] == ids[n..];
    }
  }

  /** In an ascending table the rows above the n-th id are the rows after it. */
  lemma AboveNth(ids: seq<nat>, n: nat)
    requires Ascending(ids) && n <= |ids|
    ensures Above(ids, Last(ids[..n])) == ids[n..]
  {
    hide Ascending;
    assert n > 0 ==> ids[..n][n - 1] == ids[n - 1];
    forall i | 0 <= i < |ids| ensures i < n <==> ids[i] <= Last(ids[..n])
    {
      if i < n { EarlierIsSmaller(ids, i, n - 1); } else { LaterRowAbove(ids, n, i); }
    }
    AboveIsSuffix(ids, n, Last(ids[..n]));
  }

  lemma EarlierIsSmaller(ids: seq<nat>, i: nat, j: nat)
    requires Ascending(ids) && i <= j < |ids|
    ensures ids[i] <= ids[j]
  {
  }

  lemma LaterRowAbove(table: seq<nat>, next: nat, i: nat)
    requires Ascending(table) && next <= i < |table|
    ensures table[i] > Last(table[..next])
  {
  }

  lemma {:induction false} InsertAllFacts(s: Stream, gaps: seq<nat>)
    requires Ascending(s.table)
    ensures var r := InsertAll(s, gaps);
            && Ascending(r.table) && s.table <= r.table && r == s.(table := r.table)
    decreases gaps
  {
    if gaps != [] {
      InsertAllFacts(Insert(s, gaps[0]), gaps[1..]);
    }
  }

  // ------------------------------------------------------------------ log lemmas

  lemma {:induction false} FirstOccurrencesKeepsElements(log: seq<nat>)
    ensures forall x :: x in FirstOccurrences(log) <==> x in log
  {
    if log != [] {
      var front, x := log[..|log| - 1], log[|log| - 1];
      FirstOccurrencesKeepsElements(front);
      assert log == front + [x];
    }
  }

  lemma FirstOccurrencesAppend(log: seq<nat>, x: nat)
    ensures FirstOccurrences(log + [x]) == FirstOccurrences(log) + (if x in log then [] else [x])
  {
    var whole := log + [x];
    assert whole[..|whole| - 1] == log && whole[|whole| - 1] == x;
  }

  lemma LaterRowNotEarlier(table: seq<nat>, start: nat, n: nat, i: nat)
    requires Ascending(table) && start <= n <= i < |table|
    ensures table[i] !in table[start..n]
  {
  }

  /** One more send of table[b], with everything from start to max(high, b) already sent. */
  lemma ResendOne(table: seq<nat>, log: seq<nat>, start: nat, high: nat, b: nat)
    requires Ascending(table) && start <= high <= |table| && start <= b < |table|
    requires FirstOccurrences(log) == table[start..Max(high, b)]
    ensures FirstOccurrences(log + [table[b]]) == table[start..Max(high, b + 1)]
  {
    hide Ascending, FirstOccurrences;
    FirstOccurrencesAppend(log, table[b]);
    SentIff(log, table[b]);
    if b < high {
      assert table[start..high][b - start] == table[b];
    } else {
      LaterRowNotEarlier(table, start, b, b);
      SliceExtend(table, start, b);
    }
  }

  lemma SentIff(log: seq<nat>, x: nat)
    ensures x in FirstOccurrences(log) <==> x in log
  {
    FirstOccurrencesKeepsElements(log);
  }

  lemma SliceExtend(table: seq<nat>, start: nat, b: nat)
    requires start <= b < |table|
    ensures table[start..b] + [table[b]] == table[start..b + 1]
  {
  }

  /** Re-sending table[a..b], with a at or before the furthest row sent, extends the sent interval to max(high, b). */
  lemma {:induction false} ResendInterval(table: seq<nat>, log: seq<nat>, start: nat, high: nat, a: nat, b: nat)
    requires Ascending(table)
    requires start <= a <= b <= |table| && a <= high <= |table|
    requires FirstOccurrences(log) == table[start..high]
    ensures FirstOccurrences(log + table[a..b]) == table[start..Max(high, b)]
    decreases b
  {
    hide Ascending, FirstOccurrences;
    if a == b {
      assert log + table[a..b] == log;
    } else {
      ResendInterval(table, log, start, high, a, b - 1);
      ResendOne(table, log + table[a..b - 1], start, high, b - 1);
      assert log + table[a..b - 1] + [table[b - 1]] == log + table[a..b];
    }
  }

  lemma {:induction false} SliceCount(table: seq<nat>, a: nat, b: nat, id: nat)
    requires Ascending(table) && a <= b <= |table|
    ensures multiset(table[a..b])[id] <= 1
    decreases b
  {
    hide Ascending;
    if a < b {
      SliceCount(table, a, b - 1, id);
      LaterRowNotEarlier(table, a, b - 1, b - 1);
      assert table[a..b] == table[a..b - 1] + [table[b - 1]];
      assert multiset(table[a..b]) == multiset(table[a..b - 1]) + multiset{table[b - 1]};
      assert multiset(table[a..b - 1])[table[b - 1]] == 0;
    }
  }

  // ------------------------------------------------------------------ one phase keeps the invariant

  /** Per-row send counts after sending table[next..next + k] once more. */
  lemma SendCounts(table: seq<nat>, log: seq<nat>, next: nat, k: nat, bound: nat)
    requires Ascending(table) && next + k <= |table|
    requires SendsBounded(table, log, next, bound)
    ensures SendsBounded(table, log + table[next..next + k], next + k, bound)
    ensures SendsBounded(table, log + table[next..next + k], next, bound + 1)
  {
    hide Ascending;
    var sent := table[next..next + k];
    assert multiset(log + sent) == multiset(log) + multiset(sent);
    forall id ensures multiset(log + sent)[id] <= bound + 1
    {
      SliceCount(table, next, next + k, id);
      if id in sent {
        var i :| 0 <= i < |sent| && sent[i] == id;
        assert id == table[next + i];
      }
    }
    forall i | next + k <= i < |table| ensures multiset(log + sent)[table[i]] <= bound
    {
      LaterRowNotEarlier(table, next, next + k, i);
    }
  }

  /** A failed phase: the rows that got out are logged, the cursor stays. */
  lemma FailedSendKeepsInv(s: Stream, next: nat, high: nat, k: nat)
    requires Inv(s, next, high) && s.cell.At? && next + k <= |s.table|
    ensures Inv(s.(log := s.log + s.table[next..next + k], bad := s.bad + 1), next, Max(high, next + k))
  {
    hide Ascending, FirstOccurrences, SendsBounded;
    ResendInterval(s.table, s.log, s.start, high, next, next + k);
    SendCounts(s.table, s.log, next, k, s.bad);
  }

  /** A completed phase: the cursor moves to the last row of the batch. */
  lemma FullSendKeepsInv(s: Stream, next: nat, high: nat, k: nat)
    requires Inv(s, next, high) && s.cell.At? && 0 < k && next + k <= |s.table|
    ensures Inv(s.(log := s.log + s.table[next..next + k], cell := At(s.table[next + k - 1])),
                next + k, Max(high, next + k))
  {
    hide Ascending, FirstOccurrences, SendsBounded;
    ResendInterval(s.table, s.log, s.start, high, next, next + k);
    SendCounts(s.table, s.log, next, k, s.bad);
    assert Last(s.table[..next + k]) == s.table[next + k - 1];
  }

  lemma GrowKeepsInv(s: Stream, t: Stream, next: nat, high: nat)
    requires Inv(s, next, high) && t == s.(table := t.table) && s.table <= t.table && Ascending(t.table)
    ensures Inv(t, next, high)
  {
    if s.cell.At? {
      assert t.table[..next] == s.table[..next];
      assert t.table[s.start..high] == s.table[s.start..high];
      FirstOccurrencesKeepsElements(s.log);
      forall i | next <= i < |t.table| ensures multiset(t.log)[t.table[i]] <= t.bad
      {
        if |s.table| <= i {
          LaterRowNotEarlier(t.table, s.start, high, i);
        } else {
          assert t.table[i] == s.table[i];
        }
      }
    }
  }

  lemma BootstrapKeepsInv(s: Stream)
    requires Inv(s, 0, 0) && !s.cell.At?
    ensures Inv(Bootstrap(s), |s.table|, |s.table|)
  {
    assert s.table[..|s.table|] == s.table;
    assert s.table[|s.table|..] == [];
  }

  lemma PreparedInv(s: Stream, next: nat, high: nat, arrivals: seq<nat>) returns (next': nat, high': nat)
    requires Inv(s, next, high)
    ensures Prepared(s, arrivals).cell.At? && Inv(Prepared(s, arrivals), next', high')
    ensures s.cell.At? ==> next' == next && high' == high
    ensures !s.cell.At? ==> next' == high' == Prepared(s, arrivals).start == |s.table|
    ensures Prepared(s, arrivals).bad == s.bad && Prepared(s, arrivals).log == s.log
    ensures s.cell.At? ==> Prepared(s, arrivals).start == s.start && Prepared(s, arrivals).cell == s.cell
    ensures s.table <= Prepared(s, arrivals).table
  {
    var b := s;
    next', high' := next, high;
    if !s.cell.At? {
      BootstrapKeepsInv(s);
      b := Bootstrap(s);
      next', high' := |s.table|, |s.table|;
    }
    InsertAllFacts(b, arrivals);
    GrowKeepsInv(b, Prepared(s, arrivals), next', high');
  }

  /** The batch is the run of at most 500 table rows that follows the cursor. */
  lemma BatchIsNextRows(s: Stream, next: nat, high: nat)
    requires Inv(s, next, high) && s.cell.At?
    ensures var n := Min(|s.table| - next, BATCH_SIZE);
            Batch(s.table, GetCursor(s.cell)) == s.table[next..next + n]
  {
    hide Ascending, FirstOccurrences, SendsBounded;
    AboveNth(s.table, next);
    var n := Min(|s.table| - next, BATCH_SIZE);
    assert s.table[next..][..n] == s.table[next..next + n];
  }

  /** How far one attempt moves the cursor and the sent interval. */
  lemma AttemptKeepsInv(s: Stream, next: nat, high: nat, fate: Fate) returns (next': nat, high': nat)
    requires Inv(s, next, high) && s.cell.At?
    ensures Inv(Attempt(s, fate).0, next', high') && Attempt(s, fate).0.cell.At?
    ensures next' == next + Rows(Attempt(s, fate).1)
    ensures fate == Normal ==> next' == next + Min(|s.table| - next, BATCH_SIZE)
  {
    hide Inv;
    BatchIsNextRows(s, next, high);
    next', high' := next, high;
    var n := Min(|s.table| - next, BATCH_SIZE);
    var rows := Batch(s.table, GetCursor(s.cell));
    if fate.Normal? {
      if n > 0 {
        FullSendKeepsInv(s, next, high, n);
        next', high' := next + n, Max(high, next + n);
      }
    } else {
      var k := Min(fate.k, n);
      assert rows == s.table[next..next + n] && |rows| == n;
      assert rows[..k] == s.table[next..next + k];
      if rows != [] || fate.Abort? {
        FailedSendKeepsInv(s, next, high, k);
        high' := Max(high, next + k);
      }
    }
  }

  lemma PhaseKeepsInv(s: Stream, next: nat, high: nat, fate: Fate, arrivals: seq<nat>) returns (next': nat, high': nat)
    requires Inv(s, next, high)
    ensures Inv(Phase(s, fate, arrivals).0, next', high')
    ensures s.cell.At? ==> next <= next' && Phase(s, fate, arrivals).0.cell.At?
    ensures s.cell.At? ==> Phase(s, fate, arrivals).0.start == s.start
    ensures var (t, o) := Phase(s, fate, arrivals);
            t.cell.At? ==> next' - t.start == (if s.cell.At? then next - s.start else 0) + Rows(o)
  {
    if GetCursor(s.cell) == -1 && fate.Abort? && fate.bootFails {
      next', high' := next, high;
    } else {
      next', high' := PreparedInv(s, next, high, arrivals);
      next', high' := AttemptKeepsInv(Prepared(s, arrivals), next', high', fate);
    }
  }

  // ------------------------------------------------------------------ whole runs

  datatype Source = Waf | Audit

  function Of(s: State, source: Source): Stream {
    match source
    case Waf => s.waf
    case Audit => s.audit
  }

  function Fault(e: Event, source: Source): nat {
    if e.Tick? && (if source == Waf then e.plan.waf else e.plan.audit) != Normal then 1 else 0
  }

  /** Ticks of the run in which this source met an error, or died. */
  function FaultyTicks(events: seq<Event>, source: Source): nat {
    if events == [] then 0 else Fault(events[0], source) + FaultyTicks(events[1..], source)
  }

  ghost predicate Good(s: Stream) {
    exists next: nat, high: nat :: Inv(s, next, high)
  }

  ghost predicate GoodState(s: State) {
    Good(s.waf) && Good(s.audit)
  }

  lemma LastMonotone(t: seq<nat>, u: seq<nat>, m: nat, n: nat)
    requires t <= u && m <= n && m <= |t| && n <= |u| && Ascending(u)
    ensures Last(t[..m]) <= Last(u[..n])
  {
  }

  lemma PassedIs(s: Stream, next: nat, high: nat)
    requires Inv(s, next, high) && s.cell.At?
    ensures Passed(s) == next - s.start
  {
    var tail := s.table[s.start..];
    AboveIsSuffix(tail, next - s.start, s.cell.id);
  }

  lemma PhaseGrowsTable(s: Stream, fate: Fate, arrivals: seq<nat>)
    requires Ascending(s.table)
    ensures s.table <= Phase(s, fate, arrivals).0.table
  {
    InsertAllFacts(if GetCursor(s.cell) == -1 then Bootstrap(s) else s, arrivals);
  }

  /** One phase: the invariant, a cursor that never goes back, and rows passed counted exactly. */
  lemma PhaseStep(s: Stream, fate: Fate, arrivals: seq<nat>)
    requires Good(s)
    ensures var (t, o) := Phase(s, fate, arrivals);
            && Good(t) && Passed(t) == Passed(s) + Rows(o)
            && (s.cell.At? ==> t.cell.At? && s.cell.id <= t.cell.id)
            && t.bad <= s.bad + (if fate == Normal then 0 else 1)
  {
    var next: nat, high: nat :| Inv(s, next, high);
    var next', high' := PhaseKeepsInv(s, next, high, fate, arrivals);
    var t := Phase(s, fate, arrivals).0;
    InsertAllFacts(if GetCursor(s.cell) == -1 then Bootstrap(s) else s, arrivals);
    if t.cell.At? {
      PassedIs(t, next', high');
      if s.cell.At? {
        PassedIs(s, next, high);
        PhaseGrowsTable(s, fate, arrivals);
        LastMonotone(s.table, t.table, next, next');
      }
    }
  }

  lemma InsertStep(s: Stream, gap: nat)
    requires Good(s)
    ensures Good(Insert(s, gap)) && Passed(Insert(s, gap)) == Passed(s)
  {
    var next: nat, high: nat :| Inv(s, next, high);
    var t := Insert(s, gap);
    GrowKeepsInv(s, t, next, high);
    if s.cell.At? {
      PassedIs(s, next, high);
      PassedIs(t, next, high);
    }
  }

  /** One event, for one source. */
  ghost predicate Advances(s: Stream, t: Stream, faulty: nat) {
    && Good(t) && t.bad <= s.bad + faulty
    && (s.cell.At? ==> t.cell.At? && s.cell.id <= t.cell.id)
  }

  /** What a tick does to one source: nothing, or one phase. */
  ghost predicate TickedBy(s: Stream, t: Stream, fate: Fate, arrivals: seq<nat>) {
    t == s || t == Phase(s, fate, arrivals).0
  }

  lemma TickIsPhases(s: State, p: Plan)
    ensures TickedBy(s.waf, RunTick(s, p).waf, p.waf, p.wafArrivals)
    ensures TickedBy(s.audit, RunTick(s, p).audit, p.audit, p.auditArrivals)
  {
  }

  lemma TickedAdvances(s: Stream, t: Stream, fate: Fate, arrivals: seq<nat>)
    requires Good(s) && TickedBy(s, t, fate, arrivals)
    ensures Advances(s, t, if fate == Normal then 0 else 1)
  {
    PhaseStep(s, fate, arrivals);
  }

  lemma InsertAdvances(s: Stream, gap: nat)
    requires Good(s)
    ensures Advances(s, Insert(s, gap), 0)
  {
    InsertStep(s, gap);
  }

  lemma EventStep(s: State, e: Event)
    requires GoodState(s)
    ensures GoodState(Step(s, e))
    ensures Advances(s.waf, Step(s, e).waf, Fault(e, Waf))
    ensures Advances(s.audit, Step(s, e).audit, Fault(e, Audit))
  {
    match e
    case InsertWaf(gap) => InsertAdvances(s.waf, gap);
    case InsertAudit(gap) => InsertAdvances(s.audit, gap);
    case Tick(p) =>
      TickIsPhases(s, p);
      TickedAdvances(s.waf, RunTick(s, p).waf, p.waf, p.wafArrivals);
      TickedAdvances(s.audit, RunTick(s, p).audit, p.audit, p.auditArrivals);
  }

  lemma {:induction false} RunKeepsGood(s: State, events: seq<Event>)
    requires GoodState(s)
    ensures GoodState(Run(s, events))
    ensures Advances(s.waf, Run(s, events).waf, FaultyTicks(events, Waf))
    ensures Advances(s.audit, Run(s, events).audit, FaultyTicks(events, Audit))
    decreases events
  {
    hide Good;
    if events != [] {
      EventStep(s, events[0]);
      RunKeepsGood(Step(s, events[0]), events[1..]);
    }
  }

  lemma UntouchedIsGood(s: Stream)
    requires Untouched(s)
    ensures Good(s)
  {
    assert Inv(s, 0, 0);
  }

  /** The invariant in terms of the cursor and the log alone. */
  lemma GoodDelivers(s: Stream) returns (high: nat)
    requires Good(s)
    ensures s.cell.At? ==> Delivered(s, high, s.bad)
    ensures !s.cell.At? ==> s.log == []
  {
    hide Ascending;
    var next: nat, h: nat :| Inv(s, next, h);
    high := h;
    if s.cell.At? {
      FirstOccurrencesKeepsElements(s.log);
      forall i | s.start <= i < |s.table| && s.table[i] <= s.cell.id
        ensures i < high && s.table[i] in s.log
      {
        if next <= i {
          LaterRowAbove(s.table, next, i);
          assert false;
        }
        assert s.table[s.start..high][i - s.start] == s.table[i];
      }
    }
  }

  ghost predicate Delivered(s: Stream, high: nat, bad: nat)
    requires s.cell.At?
  {
    && s.start <= high <= |s.table|
    && FirstOccurrences(s.log) == s.table[s.start..high]
    && (forall i :: s.start <= i < |s.table| && s.table[i] <= s.cell.id ==> i < high && s.table[i] in s.log)
    && (forall id :: id in s.log ==> multiset(s.log)[id] <= 1 + bad)
  }

  // ------------------------------------------------------------------ telemetry

  predicate EndsNormally(s: State, p: Plan) {
    && p.telemetry == Saved
    && (p.useWaf ==> Phase(s.waf, p.waf, p.wafArrivals).1 != Died)
    && (p.useAudit ==> Phase(s.audit, p.audit, p.auditArrivals).1 != Died)
  }

  function TotalPassed(s: State): nat {
    Passed(s.waf) + Passed(s.audit)
  }

  ghost predicate NoTickDies(s: State, events: seq<Event>)
    decreases events
  {
    events == [] ||
    ((events[0].Tick? ==> EndsNormally(s, events[0].plan)) && NoTickDies(Step(s, events[0]), events[1..]))
  }

  lemma {:induction false} TelemetryAlongRun(s: State, events: seq<Event>)
    requires GoodState(s) && s.sentTotal <= TotalPassed(s)
    ensures Run(s, events).sentTotal <= TotalPassed(Run(s, events))
    ensures NoTickDies(s, events) && s.sentTotal == TotalPassed(s) ==>
              Run(s, events).sentTotal == TotalPassed(Run(s, events))
    decreases events
  {
    if events != [] {
      var e := events[0];
      EventStep(s, e);
      match e {
        case Tick(p) => TickTelemetry(s, p);
        case InsertWaf(gap) => InsertStep(s.waf, gap);
        case InsertAudit(gap) => InsertStep(s.audit, gap);
      }
      TelemetryAlongRun(Step(s, e), events[1..]);
    }
  }

  // ------------------------------------------------------------------ draining

  lemma RunOneTick(s: State, p: Plan)
    ensures Run(s, [Tick(p)]) == RunTick(s, p)
  {
    assert [Tick(p)][1..] == [];
    assert Run(RunTick(s, p), []) == RunTick(s, p);
  }

  lemma LastIs(ids: seq<nat>, n: nat)
    requires n <= |ids|
    ensures Last(ids[..n]) == if n == 0 then 0 else ids[n - 1]
  {
  }

  /** The source as its query finds it, by position. */
  lemma PreparedAt(s: Stream, arrivals: seq<nat>, n: nat)
    requires StartsAt(s, n)
    ensures var t := Prepared(s, arrivals);
            && Ascending(t.table) && s.table <= t.table && |t.table| == |s.table| + |arrivals| && t.log == s.log && t.bad == s.bad
            && CursorAt(t, n)
  {
    LastIs(s.table, |s.table|);
    assert s.table[..|s.table|] == s.table;
    InsertAllFacts(if GetCursor(s.cell) == -1 then Bootstrap(s) else s, arrivals);
    InsertAllCounts(if GetCursor(s.cell) == -1 then Bootstrap(s) else s, arrivals);
  }

  lemma {:induction false} InsertAllCounts(s: Stream, gaps: seq<nat>)
    ensures |InsertAll(s, gaps).table| == |s.table| + |gaps|
    decreases gaps
  {
    if gaps != [] {
      InsertAllCounts(Insert(s, gaps[0]), gaps[1..]);
    }
  }

  lemma BatchAt(s: Stream, n: nat)
    requires Ascending(s.table) && CursorAt(s, n)
    ensures Batch(s.table, GetCursor(s.cell)) == s.table[n..n + Min(|s.table| - n, 500)]
  {
    LastIs(s.table, n);
    AboveNth(s.table, n);
    assert s.table[n..][..Min(|s.table| - n, 500)] == s.table[n..n + Min(|s.table| - n, 500)];
  }

  lemma FirstOfSlice(t: seq<nat>, n: nat, m: nat, k: nat)
    requires n + m <= |t| && k <= m
    ensures t[n..n + m][..k] == t[n..n + k]
    ensures m > 0 ==> Last(t[n..n + m]) == t[n + m - 1]
  {
  }

  lemma AttemptForwards(s: Stream, fate: Fate, n: nat)
    requires Ascending(s.table) && CursorAt(s, n)
    ensures var t := Attempt(s, fate).0; t.table == s.table && Sends(s.log, t, fate, n)
  {
    hide Batch, Ascending, Attempt, Last, GetCursor, Sends;
    BatchAt(s, n);
    var m := Min(|s.table| - n, 500);
    var k := if fate.Normal? then m else Min(fate.k, m);
    AttemptIs(s, fate, s.table[n..n + m]);
    FirstOfSlice(s.table, n, m, k);
    SendsWhen(s.log, Attempt(s, fate).0, fate, n, m, k);
  }

  lemma SendsWhen(log: seq<nat>, t: Stream, fate: Fate, n: nat, m: nat, k: nat)
    requires n <= |t.table| && m == Min(|t.table| - n, 500) && k == (if fate.Normal? then m else Min(fate.k, m))
    requires t.log == log + t.table[n..n + k] && CursorAt(t, if fate.Normal? then n + m else n)
    ensures Sends(log, t, fate, n)
  {
  }

  lemma AttemptIs(s: Stream, fate: Fate, rows: seq<nat>)
    requires rows == Batch(s.table, GetCursor(s.cell))
    ensures var t := Attempt(s, fate).0;
            && t.table == s.table && t.log == s.log + rows[..if fate.Normal? then |rows| else Min(fate.k, |rows|)]
            && t.cell == if fate.Normal? && rows != [] then At(Last(rows)) else s.cell
  {
    hide Batch, Last;
    assert rows[..|rows|] == rows && (rows == [] ==> s.log + rows == s.log);
  }

  lemma PhaseForwards(s: Stream, fate: Fate, arrivals: seq<nat>, n: nat)
    requires StartsAt(s, n)
    ensures Forwards(s, Phase(s, fate, arrivals).0, fate, arrivals, n)
  {
    PreparedAt(s, arrivals, n);
    var found := Prepared(s, arrivals);
    AttemptForwards(found, fate, n);
    var t := Attempt(found, fate).0;
    NoBootstrap(s, fate, arrivals);
    hide Phase, Prepared, Attempt, StartsAt, CursorAt, Sends, Ascending;
    assert t.table == found.table && found.log == s.log;
  }

  lemma NoBootstrap(s: Stream, fate: Fate, arrivals: seq<nat>)
    ensures Phase(s, fate, arrivals).0 == if fate.Abort? && fate.bootFails && !s.cell.At? then s.(bad := s.bad + 1)
                                          else Attempt(Prepared(s, arrivals), fate).0
  {
    hide Attempt, Prepared;
  }

  lemma PhaseOutcome(s: Stream, fate: Fate, arrivals: seq<nat>, n: nat)
    requires StartsAt(s, n)
    ensures var waiting := |s.table| + |arrivals| - n;
            Phase(s, fate, arrivals).1 == if fate.Abort? then Died else if fate.NetError? && waiting > 0 then Failed
                                          else Forwarded(if fate.Normal? then Min(waiting, 500) else 0)
  {
    if !(GetCursor(s.cell) == -1 && fate.Abort? && fate.bootFails) {
      PreparedAt(s, arrivals, n);
      BatchAt(Prepared(s, arrivals), n);
      hide Prepared, Batch, Ascending;
    }
  }

  lemma PhaseDies(s: Stream, fate: Fate, arrivals: seq<nat>)
    ensures Phase(s, fate, arrivals).1 == Died <==> fate.Abort?
  {
  }

  lemma ServedPhase(s: State, p: Plan, source: Source)
    requires Serves(Tick(p), source)
    ensures Of(RunTick(s, p), source) == Phase(Of(s, source), Normal, []).0
  {
    PhaseDies(s.waf, p.waf, p.wafArrivals);
    hide Phase, Rows;
  }

  lemma ServedOnce(s: State, p: Plan, source: Source)
    requires GoodState(s) && Of(s, source).cell.At? && Serves(Tick(p), source)
    ensures var t := Of(RunTick(s, p), source);
            t.cell.At? && Backlog(t) == Backlog(Of(s, source)) - Min(Backlog(Of(s, source)), 500)
  {
    ServedPhase(s, p, source);
    hide Phase, Good, Backlog, RunTick, Serves;
    NormalPhaseDrains(Of(s, source));
  }

  lemma BacklogIs(s: Stream, next: nat, high: nat)
    requires Inv(s, next, high) && s.cell.At?
    ensures next <= |s.table| && Backlog(s) == |s.table| - next
  {
    AboveNth(s.table, next);
  }

  // ------------------------------------------------------------------ rows that are never sent

  lemma {:induction false} AboveIsAbove(ids: seq<nat>, cursor: int)
    ensures forall x :: x in Above(ids, cursor) ==> x > cursor
  {
    if ids != [] {
      AboveIsAbove(ids[1..], cursor);
    }
  }

  /** The row is behind the cursor, or behind the MAX(id) that the next bootstrap will read. */
  predicate Behind(s: Stream, id: nat) {
    id <= (if s.cell.At? then s.cell.id else Last(s.table))
  }

  lemma {:induction false} InsertAllRaisesMax(s: Stream, gaps: seq<nat>)
    ensures Last(s.table) <= Last(InsertAll(s, gaps).table)
    ensures InsertAll(s, gaps) == s.(table := InsertAll(s, gaps).table)
    decreases gaps
  {
    if gaps != [] {
      InsertAllRaisesMax(Insert(s, gaps[0]), gaps[1..]);
    }
  }

  lemma BatchIsAbove(ids: seq<nat>, cursor: int, n: nat, id: nat)
    requires id <= cursor && n <= |Batch(ids, cursor)|
    ensures id !in Batch(ids, cursor)[..n]
  {
    AboveIsAbove(ids, cursor);
    assert forall x :: x in Batch(ids, cursor)[..n] ==> x in Above(ids, cursor);
  }

  lemma AttemptSkips(s: Stream, fate: Fate, id: nat)
    requires s.cell.At? && id <= s.cell.id
    ensures Behind(Attempt(s, fate).0, id)
    ensures multiset(Attempt(s, fate).0.log)[id] == multiset(s.log)[id]
  {
    var rows := Batch(s.table, s.cell.id);
    AboveIsAbove(s.table, s.cell.id);
    assert rows != [] ==> Last(rows) in Above(s.table, s.cell.id);
    hide Above, Batch;
    var n := if fate.Normal? then |rows| else Min(fate.k, |rows|);
    BatchIsAbove(s.table, s.cell.id, n, id);
    assert rows[..|rows|] == rows;
    assert multiset(s.log + rows[..n]) == multiset(s.log) + multiset(rows[..n]);
  }

  /** A phase sends only rows above the cursor, so a row that is behind stays behind and is not sent. */
  lemma BehindIsNotSent(s: Stream, fate: Fate, arrivals: seq<nat>, id: nat)
    ensures Behind(s, id) ==> Behind(Phase(s, fate, arrivals).0, id)
    ensures Behind(s, id) ==> multiset(Phase(s, fate, arrivals).0.log)[id] == multiset(s.log)[id]
  {
    hide Attempt;
    if Behind(s, id) && !(GetCursor(s.cell) == -1 && fate.Abort? && fate.bootFails) {
      InsertAllRaisesMax(if GetCursor(s.cell) == -1 then Bootstrap(s) else s, arrivals);
      AttemptSkips(Prepared(s, arrivals), fate, id);
    }
  }

  lemma BehindAfterEvent(s: State, e: Event, source: Source, id: nat)
    requires Behind(Of(s, source), id)
    ensures Behind(Of(Step(s, e), source), id)
    ensures multiset(Of(Step(s, e), source).log)[id] == multiset(Of(s, source).log)[id]
  {
    if e.Tick? {
      TickIsPhases(s, e.plan);
      BehindIsNotSent(s.waf, e.plan.waf, e.plan.wafArrivals, id);
      BehindIsNotSent(s.audit, e.plan.audit, e.plan.auditArrivals, id);
      hide Phase, RunTick;
    }
  }

  // ------------------------------------------------------------------ the worker object

  /** The stored state and the tick as the worker thread runs it. */
  class Worker {
    var waf: Stream
    var audit: Stream
    var sentTotal: nat
    var lastError: ErrorText

    ghost function View(): State
      reads this
    {
      State(waf, audit, sentTotal, lastError)
    }

    /** The query, the send loop and the cursor update of one source. */
    method ForwardSource(s: Stream, fate: Fate, arrivals: seq<nat>) returns (t: Stream, o: Outcome)
      ensures (t, o) == Phase(s, fate, arrivals)
    {
      hide Above, InsertAll, Last;
      var cursor := GetCursor(s.cell);
      t := s;
      if cursor == -1 {
        if fate.Abort? && fate.bootFails {
          return t.(bad := t.bad + 1), Died;
        }
        t := Bootstrap(t);
        cursor := GetCursor(t.cell);
      }
      InsertAllRaisesMax(t, arrivals);
      t := InsertAll(t, arrivals);
      var rows := Batch(t.table, cursor);
      var i := 0;
      ghost var log := t.log;
      ghost var found := t;
      while i < |rows| && (fate.Normal? || i < fate.k)
        invariant i <= |rows| && (!fate.Normal? ==> i <= Min(fate.k, |rows|))
        invariant t == found.(log := log + rows[..i])
      {
        t := t.(log := t.log + [rows[i]]);
        assert rows[..i + 1] == rows[..i] + [rows[i]];
        i := i + 1;
      }
      assert rows[..|rows|] == rows;
      match fate {
        case Abort(_, _) => return t.(bad := t.bad + 1), Died;
        case NetError(_) =>
          if rows == [] { return t, Forwarded(0); }
          return t.(bad := t.bad + 1), Failed;
        case Normal =>
          if rows == [] { return t, Forwarded(0); }
          return t.(cell := At(Last(rows))), Forwarded(|rows|);
      }
    }

    method Tick(p: Plan)
      modifies this
      ensures View() == RunTick(old(View()), p)
    {
      var total := sentTotal;
      var error := Clean;
      var outcome := Forwarded(0);
      if p.useWaf {
        waf, outcome := ForwardSource(waf, p.waf, p.wafArrivals);
        if outcome == Died {
          if p.handlerRuns { lastError := TickError; }
          return;
        }
        if outcome == Failed { error := WafSendError; }
        total := total + Rows(outcome);
      }
      if p.useAudit {
        audit, outcome := ForwardSource(audit, p.audit, p.auditArrivals);
        if outcome == Died {
          if p.handlerRuns { lastError := TickError; }
          return;
        }
        if outcome == Failed { error := AuditSendError; }
        total := total + Rows(outcome);
      }
      if p.telemetry == DiedBeforeTotal {
        if p.handlerRuns { lastError := TickError; }
        return;
      }
      sentTotal := total;
      if p.telemetry == DiedAfterTotal {
        if p.handlerRuns { lastError := TickError; }
        return;
      }
      lastError := error;
    }
  }
}
