/**
  The scheduled backup under an advisory lock: any number of workers wake up, check, try the lock,
  re-check, run, persist the outcome and unlock, interleaved step by step, and may die between steps.
  */
module BackupSchedule {
  import opened Wrappers

  /** Seconds since an epoch, UTC. */
  type Time = nat

  function Day(t: Time): nat {
    t / 86_400
  }

  function Hour(t: Time): nat {
    t % 86_400 / 3_600
  }

  predicate IsBackupDue(now: Time, hour: nat, lastRun: Option<Time>) {
    if Hour(now) < hour then false
    else if lastRun.None? then true
    else Day(lastRun.value) < Day(now)
  }

  /** Where a worker stands. `now` is the clock it read on waking, possibly long ago. */
  datatype Pc =
    | Idle
    | Woken(now: Time, hour: nat)
    | Checked(now: Time, hour: nat)
    | Locked(now: Time, hour: nat)
    | Running(now: Time)
    | Unlocking

  /** `persisted` records every value ever written to backup_last_run_at; no step reads it. */
  datatype State = State(clock: Time, lock: Option<nat>, lastRun: Option<Time>, workers: seq<Pc>, persisted: seq<Time>)

  /** create_backup returns, raises BackupError, or raises something else. */
  datatype Result = Ok | BackupError | OtherError

  datatype Event =
    | Wait(seconds: nat)
    | Wake(w: nat, hour: nat)
    | Check(w: nat)
    | TryLock(w: nat)
    | Recheck(w: nat)
    | Finish(w: nat, result: Result)
    | Unlock(w: nat)
    | Crash(w: nat)

  function At(s: State, w: nat, pc: Pc): State {
    if w < |s.workers| then s.(workers := s.workers[w := pc]) else s
  }

  function PcOf(s: State, w: nat): Pc {
    if w < |s.workers| then s.workers[w] else Idle
  }

  /** SQLite takes no lock; PostgreSQL takes it and checks again under it. LockOnly is the latter without that check. */
  datatype Path = NoLock | LockOnly | LockAndRecheck

  /** One atomic step; an event that is not enabled does nothing. */
  function Step(path: Path, s: State, e: Event): State {
    match e
    case Wait(seconds) => s.(clock := s.clock + seconds)
    case Wake(w, hour) => if PcOf(s, w) == Idle then At(s, w, Woken(s.clock, hour)) else s
    case Check(w) =>
      (match PcOf(s, w)
       case Woken(now, hour) => At(s, w, if IsBackupDue(now, hour, s.lastRun) then Checked(now, hour) else Idle)
       case _ => s)
    case TryLock(w) =>
      (match PcOf(s, w)
       case Checked(now, hour) =>
         if path == NoLock then At(s, w, Running(now))
         else if s.lock == None then At(s.(lock := Some(w)), w, Locked(now, hour))
         else At(s, w, Idle)
       case _ => s)
    case Recheck(w) =>
      (match PcOf(s, w)
       case Locked(now, hour) =>
         At(s, w, if path == LockOnly || IsBackupDue(now, hour, s.lastRun) then Running(now) else Unlocking)
       case _ => s)
    case Finish(w, result) =>
      (match PcOf(s, w)
       case Running(now) =>
         var t := if result == OtherError then s else s.(lastRun := Some(now), persisted := s.persisted + [now]);
         At(t, w, if path == NoLock then Idle else Unlocking)
       case _ => s)
    case Unlock(w) => if PcOf(s, w) == Unlocking then At(s.(lock := None), w, Idle) else s
    case Crash(w) => At(if s.lock == Some(w) then s.(lock := None) else s, w, Idle)
  }

  function Run(path: Path, s: State, events: seq<Event>): State
    decreases events
  {
    if events == [] then s else Run(path, Step(path, s, events[0]), events[1..])
  }

  function Start(n: nat, clock: Time, lastRun: Option<Time>): State {
    State(clock, None, lastRun, seq(n, i => Idle), [])
  }

  // ------------------------------------------------------------------ safety

  ghost predicate StrictlyIncreasingDays(times: seq<Time>) {
    forall i, j :: 0 <= i < j < |times| ==> Day(times[i]) < Day(times[j])
  }

  predicate After(now: Time, lastRun: Option<Time>) {
    lastRun.None? || Day(lastRun.value) < Day(now)
  }

  predicate Holds(pc: Pc) {
    pc.Locked? || pc.Running? || pc.Unlocking?
  }

  ghost predicate Inv(path: Path, s: State) {
    && StrictlyIncreasingDays(s.persisted)
    && (s.persisted != [] ==> s.lastRun == Some(s.persisted[|s.persisted| - 1]))
    && (path != NoLock ==> forall w :: 0 <= w < |s.workers| && Holds(s.workers[w]) ==> s.lock == Some(w))
    && (forall w :: 0 <= w < |s.workers| && s.workers[w].Running? ==> After(s.workers[w].now, s.lastRun))
    && (path != LockAndRecheck ==>
          && |s.workers| <= 1
          && forall w :: 0 <= w < |s.workers| && (s.workers[w].Checked? || s.workers[w].Locked?) ==>
               After(s.workers[w].now, s.lastRun))
  }

  lemma PersistKeepsOrder(times: seq<Time>, now: Time)
    requires StrictlyIncreasingDays(times) && (times != [] ==> Day(times[|times| - 1]) < Day(now))
    ensures StrictlyIncreasingDays(times + [now])
  {
    forall i | 0 <= i < |times| ensures Day(times[i]) < Day(now)
    {
      if i < |times| - 1 {
        assert Day(times[i]) < Day(times[|times| - 1]);
      }
    }
  }

  lemma FinishKeepsInv(path: Path, s: State, w: nat, result: Result)
    requires Inv(path, s)
    ensures Inv(path, Step(path, s, Finish(w, result)))
  {
    hide Day, Hour, StrictlyIncreasingDays;
    if PcOf(s, w).Running? {
      PersistKeepsOrder(s.persisted, PcOf(s, w).now);
    }
  }

  lemma StepKeepsInv(path: Path, s: State, e: Event)
    requires Inv(path, s)
    ensures Inv(path, Step(path, s, e))
  {
    if e.Finish? {
      FinishKeepsInv(path, s, e.w, e.result);
    } else {
      hide Day, Hour, StrictlyIncreasingDays;
      assert Inv(path, Step(path, s, e));
    }
  }

  lemma {:induction false} RunKeepsInv(path: Path, s: State, events: seq<Event>)
    requires Inv(path, s)
    ensures Inv(path, Run(path, s, events))
    decreases events
  {
    hide Inv, Step;
    if events != [] {
      StepKeepsInv(path, s, events[0]);
      RunKeepsInv(path, Step(path, s, events[0]), events[1..]);
    }
  }

  /** At most one scheduled outcome per UTC day, for every interleaving, stale clock reading, contention and crash. */
  lemma AtMostOneOutcomePerDay(n: nat, clock: Time, lastRun: Option<Time>, events: seq<Event>)
    ensures var p := Run(LockAndRecheck, Start(n, clock, lastRun), events).persisted;
            StrictlyIncreasingDays(p) && forall i, j :: 0 <= i < j < |p| ==> p[i] / 86_400 < p[j] / 86_400
  {
    RunKeepsInv(LockAndRecheck, Start(n, clock, lastRun), events);
  }

  /** The run that breaks the path without a lock: two workers check before either persists. */
  function Race(w: nat, v: nat): seq<Event> {
    [Wake(w, 0), Wake(v, 0)] + ([Check(w), Check(v)] + ([TryLock(w), TryLock(v)] + [Finish(w, Ok), Finish(v, Ok)]))
  }

  lemma {:induction false} RunConcat(path: Path, s: State, a: seq<Event>, b: seq<Event>)
    ensures Run(path, s, a + b) == Run(path, Run(path, s, a), b)
    decreases a
  {
    if a == [] {
      assert a + b == b;
    } else {
      assert (a + b)[1..] == a[1..] + b;
      RunConcat(path, Step(path, s, a[0]), a[1..], b);
    }
  }

  lemma RunTwo(path: Path, s: State, e: Event, f: Event)
    ensures Run(path, s, [e, f]) == Step(path, Step(path, s, e), f)
  {
    assert [e, f][1..] == [f] && [f][1..] == [];
    var t := Step(path, s, e);
    assert Run(path, t, [f]) == Run(path, Step(path, t, f), []);
  }

  /** Both workers stand at `pc` and nothing has been recorded yet. */
  predicate Both(s: State, pc: Pc) {
    |s.workers| >= 2 && s.workers[0] == pc && s.workers[1] == pc && s.lastRun == None && s.persisted == []
  }

  /** One step of each worker takes both from one stage of the race to the next. */
  lemma RaceStage(path: Path, s: State, from: Pc, e: Event, f: Event, to: Pc)
    requires Both(s, from) && e != f
    requires
      || (from == Idle && e == Wake(0, 0) && f == Wake(1, 0) && to == Woken(s.clock, 0))
      || (from == Woken(s.clock, 0) && e == Check(0) && f == Check(1) && to == Checked(s.clock, 0))
      || (path == NoLock && from == Checked(s.clock, 0) && e == TryLock(0) && f == TryLock(1) && to == Running(s.clock))
    ensures var t := Run(path, s, [e, f]); Both(t, to) && t.clock == s.clock && (path != NoLock ==> t.lock == s.lock)
  {
    RunTwo(path, s, e, f);
    hide Run, Day;
    var t := Step(path, s, e);
    assert t.workers[0] == to && t.workers[1] == from && |t.workers| == |s.workers|;
  }

  lemma RaceEnd(s: State, clock: Time)
    requires Both(s, Running(clock))
    ensures !StrictlyIncreasingDays(Run(NoLock, s, [Finish(0, Ok), Finish(1, Ok)]).persisted)
  {
    RunTwo(NoLock, s, Finish(0, Ok), Finish(1, Ok));
    var p := Run(NoLock, s, [Finish(0, Ok), Finish(1, Ok)]).persisted;
    assert p[0] == clock && p[1] == clock;
  }

  lemma RaceBreaksIt(n: nat, clock: Time)
    requires n >= 2
    ensures !StrictlyIncreasingDays(Run(NoLock, Start(n, clock, None), Race(0, 1)).persisted)
  {
    var s0 := Start(n, clock, None);
    assert Both(s0, Idle);
    hide Run, Step, Start, StrictlyIncreasingDays, Both;
    var a, b, c, d := [Wake(0, 0), Wake(1, 0)], [Check(0), Check(1)], [TryLock(0), TryLock(1)], [Finish(0, Ok), Finish(1, Ok)];
    var s1 := Run(NoLock, s0, a);
    var s2 := Run(NoLock, s1, b);
    var s3 := Run(NoLock, s2, c);
    RunConcat(NoLock, s0, a, b + (c + d));
    RunConcat(NoLock, s1, b, c + d);
    RunConcat(NoLock, s2, c, d);
    RaceStage(NoLock, s0, Idle, Wake(0, 0), Wake(1, 0), Woken(s0.clock, 0));
    RaceStage(NoLock, s1, Woken(s0.clock, 0), Check(0), Check(1), Checked(s0.clock, 0));
    RaceStage(NoLock, s2, Checked(s0.clock, 0), TryLock(0), TryLock(1), Running(s0.clock));
    RaceEnd(s3, s0.clock);
  }

  /** What a worker does from its first check on, when nobody disturbs it. */
  function UnderLock(w: nat): seq<Event> {
    [TryLock(w), Recheck(w)] + [Finish(w, Ok), Unlock(w)]
  }

  /** The run that breaks the path with a lock but no second check: both check, then each runs under the lock in turn. */
  function QueuedRace(w: nat, v: nat): seq<Event> {
    [Wake(w, 0), Wake(v, 0)] + ([Check(w), Check(v)] + (UnderLock(w) + UnderLock(v)))
  }

  lemma RunsUnderLock(s: State, w: nat, now: Time)
    requires w < |s.workers| && s.workers[w] == Checked(now, 0) && s.lock == None
    ensures Run(LockOnly, s, UnderLock(w))
         == s.(lastRun := Some(now), persisted := s.persisted + [now], workers := s.workers[w := Idle])
  {
    RunConcat(LockOnly, s, [TryLock(w), Recheck(w)], [Finish(w, Ok), Unlock(w)]);
    RunTwo(LockOnly, s, TryLock(w), Recheck(w));
    var s1 := s.(lock := Some(w), workers := s.workers[w := Running(now)]);
    RunTwo(LockOnly, s1, Finish(w, Ok), Unlock(w));
    hide Run, Day, Hour;
    var t := Step(LockOnly, s, TryLock(w));
    assert t == s.(lock := Some(w), workers := s.workers[w := Locked(now, 0)]);
    assert Step(LockOnly, t, Recheck(w)) == s1;
    var u := Step(LockOnly, s1, Finish(w, Ok));
    assert u == s1.(lastRun := Some(now), persisted := s.persisted + [now], workers := s.workers[w := Unlocking]);
    assert Step(LockOnly, u, Unlock(w)).workers == s.workers[w := Idle];
  }

  lemma QueuedRaceBreaksIt(n: nat, clock: Time)
    requires n >= 2
    ensures !StrictlyIncreasingDays(Run(LockOnly, Start(n, clock, None), QueuedRace(0, 1)).persisted)
  {
    var s0 := Start(n, clock, None);
    assert Both(s0, Idle) && s0.lock == None;
    hide Run, Step, Start, UnderLock;
    var a, b := [Wake(0, 0), Wake(1, 0)], [Check(0), Check(1)];
    var s1 := Run(LockOnly, s0, a);
    var s2 := Run(LockOnly, s1, b);
    RunConcat(LockOnly, s0, a, b + (UnderLock(0) + UnderLock(1)));
    RunConcat(LockOnly, s1, b, UnderLock(0) + UnderLock(1));
    RunConcat(LockOnly, s2, UnderLock(0), UnderLock(1));
    RaceStage(LockOnly, s0, Idle, Wake(0, 0), Wake(1, 0), Woken(s0.clock, 0));
    RaceStage(LockOnly, s1, Woken(s0.clock, 0), Check(0), Check(1), Checked(s0.clock, 0));
    RunsUnderLock(s2, 0, s0.clock);
    var s3 := Run(LockOnly, s2, UnderLock(0));
    RunsUnderLock(s3, 1, s0.clock);
    var p := Run(LockOnly, s3, UnderLock(1)).persisted;
    assert p[0] == s0.clock && p[1] == s0.clock;
  }

  ghost predicate SafeInEveryRun(path: Path, n: nat) {
    forall clock: Time, lastRun: Option<Time>, events: seq<Event> ::
      StrictlyIncreasingDays(Run(path, Start(n, clock, lastRun), events).persisted)
  }

  /** Exactly when the guarantee holds: with the lock and the second check under it, or with a single worker. */
  lemma SafeIffLockedOrAlone(path: Path, n: nat)
    ensures SafeInEveryRun(path, n) <==> path == LockAndRecheck || n <= 1
  {
    if path == LockAndRecheck || n <= 1 {
      forall clock: Time, lastRun: Option<Time>, events: seq<Event>
        ensures StrictlyIncreasingDays(Run(path, Start(n, clock, lastRun), events).persisted)
      {
        RunKeepsInv(path, Start(n, clock, lastRun), events);
      }
    } else if path == NoLock {
      RaceBreaksIt(n, 0);
    } else {
      QueuedRaceBreaksIt(n, 0);
    }
  }

  // ------------------------------------------------------------------ progress

  /** Nothing was recorded for the day of `now`, nor later. */
  predicate NothingYet(s: State, now: Time) {
    s.lastRun.None? || Day(s.lastRun.value) < Day(now)
  }

  /** The event is of another worker, or of none. */
  predicate IsOthers(e: Event, w: nat) {
    e.Wait? || e.w != w
  }

  predicate AllOthers(events: seq<Event>, w: nat) {
    forall i :: 0 <= i < |events| ==> IsOthers(events[i], w)
  }

  /** While a worker holds the lock, the others can change neither it, nor the lock, nor what is recorded. */
  ghost predicate Frozen(s: State, t: State, w: nat) {
    && Inv(LockAndRecheck, t)
    && |t.workers| == |s.workers| && w < |s.workers| && t.workers[w] == s.workers[w]
    && t.lock == s.lock && t.lastRun == s.lastRun && t.persisted == s.persisted
  }

  lemma HolderStep(s: State, w: nat, e: Event)
    requires Inv(LockAndRecheck, s) && w < |s.workers| && Holds(s.workers[w]) && IsOthers(e, w)
    ensures Frozen(s, Step(LockAndRecheck, s, e), w)
  {
    StepKeepsInv(LockAndRecheck, s, e);
    hide Day, Hour, IsBackupDue, StrictlyIncreasingDays, After;
  }

  lemma {:induction false} HolderIsUndisturbed(s: State, w: nat, events: seq<Event>)
    requires Inv(LockAndRecheck, s) && w < |s.workers| && Holds(s.workers[w]) && AllOthers(events, w)
    ensures Frozen(s, Run(LockAndRecheck, s, events), w)
    decreases events
  {
    if events != [] {
      var t := Step(LockAndRecheck, s, events[0]);
      HolderStep(s, w, events[0]);
      hide Inv, Step;
      HolderIsUndisturbed(t, w, events[1..]);
    }
  }

  predicate DueAt(s: State, pc: Pc)
    requires pc.Checked? || pc.Locked?
  {
    Hour(pc.now) >= pc.hour && NothingYet(s, pc.now)
  }

  /**
    From any state of any run: a worker that has the lock goes on, after any steps of the other workers and any waiting,
    to run the backup exactly when its hour had come and nothing was persisted for its day when it got the lock.
    */
  lemma LockedWorkerAttempts(s: State, w: nat, events: seq<Event>)
    requires Inv(LockAndRecheck, s) && w < |s.workers| && s.workers[w].Locked? && AllOthers(events, w)
    ensures var t := Run(LockAndRecheck, s, events);
            && Frozen(s, t, w)
            && PcOf(Step(LockAndRecheck, t, Recheck(w)), w)
               == if DueAt(s, s.workers[w]) then Running(s.workers[w].now) else Unlocking
  {
    HolderIsUndisturbed(s, w, events);
    hide Day, Hour, Run;
  }

  /** What a worker that has checked does next, the others' steps before and after its second check in between. */
  function Interleaved(w: nat, before: seq<Event>, after: seq<Event>, result: Result): seq<Event> {
    [TryLock(w)] + (before + ([Recheck(w)] + (after + [Finish(w, result)])))
  }

  lemma RunOne(path: Path, s: State, e: Event, rest: seq<Event>)
    ensures Run(path, s, [e] + rest) == Run(path, Step(path, s, e), rest)
  {
    assert ([e] + rest)[1..] == rest;
  }

  /**
    A tick that gets the lock at or after its hour on a day with nothing persisted attempts a backup and records its
    outcome, whatever the other workers do meanwhile; a tick that gets the lock otherwise records nothing.
    */
  lemma LockedTickServesTheDay(s: State, w: nat, before: seq<Event>, after: seq<Event>, result: Result)
    requires Inv(LockAndRecheck, s) && w < |s.workers| && s.workers[w].Checked? && s.lock == None
    requires AllOthers(before, w) && AllOthers(after, w)
    ensures Run(LockAndRecheck, s, Interleaved(w, before, after, result)).persisted
         == if DueAt(s, s.workers[w]) && result != OtherError then s.persisted + [s.workers[w].now] else s.persisted
  {
    var s1 := Step(LockAndRecheck, s, TryLock(w));
    var s2 := Run(LockAndRecheck, s1, before);
    var s3 := Step(LockAndRecheck, s2, Recheck(w));
    var s4 := Run(LockAndRecheck, s3, after);
    InterleavedRun(s, w, before, after, result);
    hide Inv, Day, Hour, Run, Interleaved, AllOthers, DueAt;
    StepKeepsInv(LockAndRecheck, s, TryLock(w));
    TakesLock(s, w);
    LockedWorkerAttempts(s1, w, before);
    StepKeepsInv(LockAndRecheck, s2, Recheck(w));
    RecheckKeeps(s2, w);
    HolderIsUndisturbed(s3, w, after);
    FinishRecords(s4, w, result);
    hide Step;
  }

  lemma RecheckKeeps(s: State, w: nat)
    requires w < |s.workers| && s.workers[w].Locked?
    ensures var t := Step(LockAndRecheck, s, Recheck(w));
            t == s.(workers := s.workers[w := t.workers[w]]) && |t.workers| == |s.workers| && Holds(t.workers[w])
  {
    hide Day, Hour;
  }

  lemma FinishRecords(s: State, w: nat, result: Result)
    requires w < |s.workers|
    ensures Step(LockAndRecheck, s, Finish(w, result)).persisted
         == if s.workers[w].Running? && result != OtherError then s.persisted + [s.workers[w].now] else s.persisted
  {
  }

  lemma TakesLock(s: State, w: nat)
    requires w < |s.workers| && s.workers[w].Checked? && s.lock == None
    ensures var t := Step(LockAndRecheck, s, TryLock(w));
            && t == s.(lock := Some(w), workers := s.workers[w := Locked(s.workers[w].now, s.workers[w].hour)])
            && DueAt(t, t.workers[w]) == DueAt(s, s.workers[w])
  {
    hide Day, Hour;
  }

  lemma InterleavedRun(s: State, w: nat, before: seq<Event>, after: seq<Event>, result: Result)
    ensures var s2 := Run(LockAndRecheck, Step(LockAndRecheck, s, TryLock(w)), before);
            var s4 := Run(LockAndRecheck, Step(LockAndRecheck, s2, Recheck(w)), after);
            Run(LockAndRecheck, s, Interleaved(w, before, after, result)) == Step(LockAndRecheck, s4, Finish(w, result))
  {
    hide Step;
    var path := LockAndRecheck;
    var s1 := Step(path, s, TryLock(w));
    var s2 := Run(path, s1, before);
    var s3 := Step(path, s2, Recheck(w));
    var s4 := Run(path, s3, after);
    var end := [Finish(w, result)];
    assert Run(path, s4, end) == Step(path, s4, Finish(w, result)) by {
      assert end[1..] == [];
      assert Run(path, Step(path, s4, Finish(w, result)), []) == Step(path, s4, Finish(w, result));
    }
    hide Run;
    RunOne(path, s, TryLock(w), before + ([Recheck(w)] + (after + end)));
    RunConcat(path, s1, before, [Recheck(w)] + (after + end));
    RunOne(path, s2, Recheck(w), after + end);
    RunConcat(path, s3, after, end);
  }

  function FullTick(w: nat, hour: nat, result: Result): seq<Event> {
    [Wake(w, hour), Check(w)] + ([TryLock(w), Recheck(w)] + [Finish(w, result), Unlock(w)])
  }

  /**
    From any state with the lock free, on either path, an undisturbed tick serves the day of its clock when its hour has
    come and the day has no outcome, unless the backup ends in an unforeseen exception; and it does nothing else.
    */
  lemma UndisturbedTickServesTheDay(path: Path, s: State, w: nat, hour: nat, result: Result)
    requires w < |s.workers| && s.workers[w] == Idle && s.lock == None
    ensures Run(path, s, FullTick(w, hour, result))
         == if s.clock % 86_400 / 3_600 >= hour && (s.lastRun == None || s.lastRun.value / 86_400 < s.clock / 86_400) && result != OtherError
            then s.(lastRun := Some(s.clock), persisted := s.persisted + [s.clock]) else s
  {
    var due := Hour(s.clock) >= hour && NothingYet(s, s.clock);
    var a, b, c := [Wake(w, hour), Check(w)], [TryLock(w), Recheck(w)], [Finish(w, result), Unlock(w)];
    RunConcat(path, s, a, b + c);
    TickChecks(path, s, w, hour);
    var s1 := Run(path, s, a);
    RunConcat(path, s1, b, c);
    TickLocks(path, s1, w);
    TickEnds(path, Run(path, s1, b), w, result);
    hide Day, Hour, Run;
    assert s.workers[w := Idle] == s.workers;
  }

  lemma TickChecks(path: Path, s: State, w: nat, hour: nat)
    requires w < |s.workers| && s.workers[w] == Idle
    ensures Run(path, s, [Wake(w, hour), Check(w)])
         == s.(workers := s.workers[w := if Hour(s.clock) >= hour && NothingYet(s, s.clock) then Checked(s.clock, hour) else Idle])
  {
    RunTwo(path, s, Wake(w, hour), Check(w));
    hide Day, Hour, Run;
  }

  lemma TickLocks(path: Path, s: State, w: nat)
    requires w < |s.workers| && s.lock == None
    requires s.workers[w] == Idle || (s.workers[w].Checked? && DueAt(s, s.workers[w]))
    ensures Run(path, s, [TryLock(w), Recheck(w)])
         == if s.workers[w] == Idle then s
            else s.(lock := if path == NoLock then None else Some(w), workers := s.workers[w := Running(s.workers[w].now)])
  {
    RunTwo(path, s, TryLock(w), Recheck(w));
    hide Day, Hour, Run;
  }

  lemma TickEnds(path: Path, s: State, w: nat, result: Result)
    requires w < |s.workers| && (s.workers[w] == Idle || s.workers[w].Running?)
    ensures Run(path, s, [Finish(w, result), Unlock(w)])
         == if s.workers[w] == Idle then s
            else s.(lock := if path == NoLock then s.lock else None, workers := s.workers[w := Idle],
                    lastRun := if result == OtherError then s.lastRun else Some(s.workers[w].now),
                    persisted := if result == OtherError then s.persisted else s.persisted + [s.workers[w].now])
  {
    RunTwo(path, s, Finish(w, result), Unlock(w));
    hide Day, Hour, Run;
  }

  /** A tick that finds the lock taken does nothing. */
  lemma ContendedTickDoesNothing(path: Path, s: State, w: nat, hour: nat, result: Result)
    requires path != NoLock && w < |s.workers| && s.workers[w] == Idle && s.lock.Some?
    ensures Run(path, s, FullTick(w, hour, result)) == s
  {
    var a, b, c := [Wake(w, hour), Check(w)], [TryLock(w), Recheck(w)], [Finish(w, result), Unlock(w)];
    RunConcat(path, s, a, b + c);
    TickChecks(path, s, w, hour);
    var s1 := Run(path, s, a);
    RunConcat(path, s1, b, c);
    RunTwo(path, s1, TryLock(w), Recheck(w));
    TickEnds(path, Run(path, s1, b), w, result);
    hide Day, Hour, Run;
    assert s.workers[w := Idle] == s.workers;
  }

  /** A worker that dies loses its lock and records nothing, so the day is served by the next tick of any other. */
  lemma CrashFreesTheLock(path: Path, s: State, w: nat, v: nat, hour: nat, result: Result)
    requires w < |s.workers| && v < |s.workers| && v != w && s.workers[v] == Idle && s.lock in {None, Some(w)}
    ensures var t := Run(path, s, [Crash(w)]);
            t == s.(lock := None, workers := s.workers[w := Idle])
    ensures Run(path, s, [Crash(w)] + FullTick(v, hour, result)).persisted
         == if s.clock % 86_400 / 3_600 >= hour && (s.lastRun == None || s.lastRun.value / 86_400 < s.clock / 86_400) && result != OtherError
            then s.persisted + [s.clock] else s.persisted
  {
    RunConcat(path, s, [Crash(w)], FullTick(v, hour, result));
    assert [Crash(w)][1..] == [];
    assert Run(path, Step(path, s, Crash(w)), []) == Step(path, s, Crash(w));
    UndisturbedTickServesTheDay(path, s.(lock := None, workers := s.workers[w := Idle]), v, hour, result);
    hide FullTick;
  }

  // ------------------------------------------------------------------ one worker's tick

  /** The configuration and the advisory lock, as one worker finds and leaves them. */
  class Scheduler {
    var lock: Option<nat>
    var lastRun: Option<Time>
    ghost var persisted: seq<Time>

    ghost function View(now: Time): State
      reads this
    {
      State(now, lock, lastRun, [Idle], persisted)
    }

    /** One pass of the loop on PostgreSQL that no other worker disturbs: check, lock, re-check, run, persist, unlock. */
    method Tick(now: Time, hour: nat, result: Result)
      modifies this
      ensures old(lock) == None ==> View(now) == Run(LockAndRecheck, old(View(now)), FullTick(0, hour, result))
      ensures old(lock) != None ==> View(now) == old(View(now))
    {
      if lock == None {
        UndisturbedTickServesTheDay(LockAndRecheck, View(now), 0, hour, result);
      }
      hide Run, Hour, Day;
      if !IsBackupDue(now, hour, lastRun) {
        return;
      }
      if lock != None {
        return;
      }
      lock := Some(0);
      if IsBackupDue(now, hour, lastRun) {
        if result != OtherError {
          lastRun := Some(now);
          persisted := persisted + [now];
        }
      }
      lock := None;
    }
  }
}
