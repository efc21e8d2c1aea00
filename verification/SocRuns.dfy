/** Whole runs of the incident engine: serialised detection cycles, reviews and enrichments, and what holds after any of them. */
module SocRuns {
  import opened Wrappers
  import opened SocDetect
  import opened SocIncidents
  import opened SocResponse

  datatype Cycle = Cycle(now: int, cands: seq<Candidate>, thresholds: Thresholds, alerts: Alerts, soar: Soar)

  datatype Step = Detection(c: Cycle) | Review(id: nat, status: Status) | Enrichment(id: nat, abuse: Option<int>)

  /** run_detection_cycle: the incidents created are those appended to the table, and only they are responded to. */
  function RunCycle(s: State, c: Cycle): State {
    var d := DetectAll(s, c.cands, c.now, c.thresholds, 0);
    var first := |s.incidents|;
    State(Respond(Notify(d.incidents, first, c.alerts), first, c.soar), d.log, d.clock)
  }

  /** set_estado; an unknown id is answered with 404. */
  function SetStatus(s: State, id: nat, status: Status): State {
    if id < |s.incidents| then s.(incidents := s.incidents[id := s.incidents[id].(status := status)]) else s
  }

  /** The enrichment that comes before a manual analysis; `abuse` is what the service answers. */
  function Enrich(s: State, id: nat, abuse: Option<int>): State {
    if id < |s.incidents| then s.(incidents := s.incidents[id := Enriched(s.incidents[id], abuse)]) else s
  }

  function Apply(s: State, e: Step): State {
    match e
    case Detection(c) => RunCycle(s, c)
    case Review(id, status) => SetStatus(s, id, status)
    case Enrichment(id, abuse) => Enrich(s, id, abuse)
  }

  function Run(s: State, steps: seq<Step>): State
    decreases steps
  {
    if steps == [] then s else Run(Apply(s, steps[0]), steps[1..])
  }

  const EMPTY := State([], [], 0)

  // ------------------------------------------------------------------ one candidate after the other

  lemma DetectClock(s: State, c: Candidate, now: int, t: Thresholds, asked: bool)
    ensures Detect(s, c, now, t, asked).clock == now
    ensures |Detect(s, c, now, t, asked).incidents| >= |s.incidents|
  {
  }

  lemma {:induction false} DetectAllDedupes(s: State, cands: seq<Candidate>, now: int, t: Thresholds, asked: nat)
    requires Deduped(s) && s.clock <= now
    ensures var d := DetectAll(s, cands, now, t, asked);
            Deduped(d) && s.clock <= d.clock <= now
    decreases cands
  {
    if cands != [] {
      DetectDedupes(s, cands[0], now, t, asked < MAX_ENRICH);
      DetectClock(s, cands[0], now, t, asked < MAX_ENRICH);
      hide Deduped, Detect, DetectAll, Asked;
      var u := Detect(s, cands[0], now, t, asked < MAX_ENRICH);
      DetectAllDedupes(u, cands[1..], now, t, Asked(s, u, asked));
    }
  }

  lemma {:induction false} DetectAllAccounts(s: State, cands: seq<Candidate>, now: int, t: Thresholds, asked: nat)
    requires Accounted(s) && AllInRange(cands)
    ensures Accounted(DetectAll(s, cands, now, t, asked))
    decreases cands
  {
    if cands != [] {
      DetectAccounts(s, cands[0], now, t, asked < MAX_ENRICH);
      DetectClock(s, cands[0], now, t, asked < MAX_ENRICH);
      hide Accounted, Detect, InRange, DetectAll, Asked;
      var u := Detect(s, cands[0], now, t, asked < MAX_ENRICH);
      DetectAllAccounts(u, cands[1..], now, t, Asked(s, u, asked));
    }
  }

  lemma MultisetHead(cands: seq<Candidate>)
    requires cands != []
    ensures multiset(cands) == multiset{cands[0]} + multiset(cands[1..])
  {
    assert cands == [cands[0]] + cands[1..];
  }

  lemma {:induction false} DetectAllAttributes(s: State, cands: seq<Candidate>, now: int, t: Thresholds, asked: nat)
    requires |s.log| == |s.incidents|
    ensures Flatten(DetectAll(s, cands, now, t, asked).log) == Flatten(s.log) + multiset(cands)
    decreases cands
  {
    if cands == [] {
      assert multiset(cands) == multiset{};
    } else {
      MultisetHead(cands);
      DetectAttributes(s, cands[0], now, t, asked < MAX_ENRICH);
      DetectClock(s, cands[0], now, t, asked < MAX_ENRICH);
      hide Detect, Flatten, DetectAll, Asked;
      var u := Detect(s, cands[0], now, t, asked < MAX_ENRICH);
      DetectAllAttributes(u, cands[1..], now, t, Asked(s, u, asked));
    }
  }

  lemma {:induction false} DetectAllKeepsLadder(s: State, cands: seq<Candidate>, now: int, t: Thresholds, asked: nat)
    requires OnLadder(s, t)
    ensures OnLadder(DetectAll(s, cands, now, t, asked), t)
    decreases cands
  {
    if cands != [] {
      DetectKeepsLadder(s, cands[0], now, t, asked < MAX_ENRICH);
      DetectClock(s, cands[0], now, t, asked < MAX_ENRICH);
      hide OnLadder, Detect, DetectAll, Asked;
      var u := Detect(s, cands[0], now, t, asked < MAX_ENRICH);
      DetectAllKeepsLadder(u, cands[1..], now, t, Asked(s, u, asked));
    }
  }

  /** Incidents from `first` on asked the reputation service as long as fewer than 25 had; the others are as before. */
  ghost predicate AskedInOrder(s: State, u: State, asked: nat) {
    && |s.log| == |s.incidents| <= |u.incidents| == |u.log|
    && (forall i :: 0 <= i < |s.incidents| ==>
          && s.log[i] != [] && u.log[i] != [] && u.log[i][0] == s.log[i][0]
          && u.incidents[i].abuse == s.incidents[i].abuse)
    && (forall i :: |s.incidents| <= i < |u.incidents| ==>
          && u.log[i] != []
          && u.incidents[i].abuse == (if asked + i - |s.incidents| < MAX_ENRICH then u.log[i][0].abuse else None))
  }

  lemma DetectAsks(s: State, c: Candidate, now: int, t: Thresholds, asked: nat)
    requires |s.log| == |s.incidents| && forall i :: 0 <= i < |s.log| ==> s.log[i] != []
    ensures AskedInOrder(s, Detect(s, c, now, t, asked < MAX_ENRICH), asked)
  {
    hide SeverityFor, Blended, MaxReal;
    var u := Detect(s, c, now, t, asked < MAX_ENRICH);
    forall i | 0 <= i < |s.incidents|
      ensures u.log[i] != [] && u.log[i][0] == s.log[i][0] && u.incidents[i].abuse == s.incidents[i].abuse
    {
      assert u.log[i] == s.log[i] || u.log[i] == s.log[i] + [c];
    }
  }

  lemma AsksCompose(s: State, u: State, v: State, asked: nat)
    requires AskedInOrder(s, u, asked) && AskedInOrder(u, v, Asked(s, u, asked)) && |u.incidents| <= |s.incidents| + 1
    requires asked <= MAX_ENRICH
    ensures AskedInOrder(s, v, asked)
  {
    forall i | 0 <= i < |u.incidents| ensures v.log[i] != [] && v.log[i][0] == u.log[i][0] && v.incidents[i].abuse == u.incidents[i].abuse
    {
    }
  }

  /**
    The reputation service is asked for the first 25 incidents a cycle creates and no others: these carry its answer
    for the candidate that created them, the rest carry none.
    */
  lemma {:induction false} FirstTwentyFiveAsk(s: State, cands: seq<Candidate>, now: int, t: Thresholds, asked: nat)
    requires |s.log| == |s.incidents| && (forall i :: 0 <= i < |s.log| ==> s.log[i] != []) && asked <= MAX_ENRICH
    ensures AskedInOrder(s, DetectAll(s, cands, now, t, asked), asked)
    decreases cands
  {
    if cands != [] {
      var u := Detect(s, cands[0], now, t, asked < MAX_ENRICH);
      DetectAsks(s, cands[0], now, t, asked);
      hide Detect, DetectAll;
      FirstTwentyFiveAsk(u, cands[1..], now, t, Asked(s, u, asked));
      AsksCompose(s, u, DetectAll(u, cands[1..], now, t, Asked(s, u, asked)), asked);
    }
  }

  /** What an incident keeps, step by step: its IP, alert, block and reputation, once known; its figures only grow. */
  predicate Grows(a: Incident, b: Incident) {
    && b.ip == a.ip && b.alertedAt == a.alertedAt && b.block == a.block
    && (a.abuse.Some? ==> b.abuse == a.abuse)
    && b.events >= a.events && b.score >= a.score
    && (a.ml.Some? ==> b.ml.Some? && b.ml.value >= a.ml.value)
    && Rank(b.severity) >= Rank(a.severity)
  }

  /** The same, for every incident of an older table; the newer ones are unalerted and unblocked. */
  predicate Extends(s: State, u: State) {
    && |u.incidents| >= |s.incidents|
    && (forall i :: 0 <= i < |s.incidents| ==>
          Grows(s.incidents[i], u.incidents[i]) && u.incidents[i].status == s.incidents[i].status)
    && (forall i :: |s.incidents| <= i < |u.incidents| ==> u.incidents[i].alertedAt.None? && u.incidents[i].block.None?)
  }

  lemma DetectExtends(s: State, c: Candidate, now: int, t: Thresholds, asked: bool)
    ensures Extends(s, Detect(s, c, now, t, asked))
  {
    hide SeverityFor;
    var u := Detect(s, c, now, t, asked);
    forall i | 0 <= i < |s.incidents| ensures Grows(s.incidents[i], u.incidents[i])
    {
      assert u.incidents[i] == s.incidents[i] || u.incidents[i] == Updated(s.incidents[i], c, now, t);
    }
  }

  lemma ExtendsCompose(s: State, u: State, v: State)
    requires Extends(s, u) && Extends(u, v)
    ensures Extends(s, v)
  {
    hide Rank;
    forall i | 0 <= i < |s.incidents|
      ensures Grows(s.incidents[i], v.incidents[i]) && v.incidents[i].status == s.incidents[i].status
    {
      assert Grows(s.incidents[i], u.incidents[i]) && Grows(u.incidents[i], v.incidents[i]);
    }
    hide Grows;
    forall i | |s.incidents| <= i < |v.incidents| ensures v.incidents[i].alertedAt.None? && v.incidents[i].block.None?
    {
      if i < |u.incidents| {
        GrowsKeeps(u.incidents[i], v.incidents[i]);
      }
    }
  }

  lemma GrowsKeeps(a: Incident, b: Incident)
    requires Grows(a, b)
    ensures b.alertedAt == a.alertedAt && b.block == a.block
  {
  }

  lemma ExtendsItself(s: State)
    ensures Extends(s, s)
  {
  }

  lemma {:induction false} DetectAllExtends(s: State, cands: seq<Candidate>, now: int, t: Thresholds, asked: nat)
    ensures Extends(s, DetectAll(s, cands, now, t, asked))
    decreases cands
  {
    hide Detect, Extends, Asked;
    if cands == [] {
      ExtendsItself(s);
    } else {
      DetectExtends(s, cands[0], now, t, asked < MAX_ENRICH);
      var u := Detect(s, cands[0], now, t, asked < MAX_ENRICH);
      var more := Asked(s, u, asked);
      DetectAllExtends(u, cands[1..], now, t, more);
      ExtendsCompose(s, u, DetectAll(u, cands[1..], now, t, more));
    }
  }

  // ------------------------------------------------------------------ responses leave detection's work alone

  predicate SameFigures(a: Incident, b: Incident) {
    b == a.(alertedAt := b.alertedAt, block := b.block)
  }

  lemma ResponsesOnly(s: State, c: Cycle)
    ensures var d := DetectAll(s, c.cands, c.now, c.thresholds, 0);
            var u := RunCycle(s, c);
            && |u.incidents| == |d.incidents| && u.log == d.log && u.clock == d.clock
            && (forall i :: 0 <= i < |d.incidents| ==> SameFigures(d.incidents[i], u.incidents[i]))
            && (forall i :: 0 <= i < |s.incidents| && i < |d.incidents| ==> u.incidents[i] == d.incidents[i])
  {
    hide DetectAll, AlertAll, BlockAll;
    var d := DetectAll(s, c.cands, c.now, c.thresholds, 0);
    var first := |s.incidents|;
    var a := Notify(d.incidents, first, c.alerts);
    AlertAllFrame(d.incidents, first, c.alerts, c.alerts.tries);
    BlockAllFrame(a, first, c.soar, c.soar.tries);
    var u := RunCycle(s, c);
    forall i | 0 <= i < |d.incidents|
      ensures SameFigures(d.incidents[i], u.incidents[i])
      ensures i < first ==> u.incidents[i] == d.incidents[i]
    {
      assert a[i] == d.incidents[i].(alertedAt := a[i].alertedAt);
      assert i < first ==> a[i] == d.incidents[i];
    }
  }

  // ------------------------------------------------------------------ dedupe over runs

  /** The clock never goes back from one cycle to the next. */
  predicate Timely(clock: int, steps: seq<Step>)
    decreases steps
  {
    steps == [] ||
    if steps[0].Detection? then clock <= steps[0].c.now && Timely(steps[0].c.now, steps[1..])
    else Timely(clock, steps[1..])
  }

  predicate NoReopening(steps: seq<Step>) {
    forall i :: 0 <= i < |steps| && steps[i].Review? ==> steps[i].status != Nuevo
  }

  lemma CycleDedupes(s: State, c: Cycle)
    requires Deduped(s) && s.clock <= c.now
    ensures Deduped(RunCycle(s, c)) && RunCycle(s, c).clock <= c.now
  {
    DetectAllDedupes(s, c.cands, c.now, c.thresholds, 0);
    ResponsesOnly(s, c);
    hide DetectAll, RunCycle;
    var d := DetectAll(s, c.cands, c.now, c.thresholds, 0);
    var u := RunCycle(s, c);
    assert forall i :: 0 <= i < |u.incidents| ==> SameFigures(d.incidents[i], u.incidents[i]);
    forall i, j | 0 <= i < j < |u.incidents| && BothOpen(u.incidents[i], u.incidents[j])
      ensures Distance(u.incidents[i].windowEnd, u.incidents[j].windowEnd) > HOUR
    {
      assert BothOpen(d.incidents[i], d.incidents[j]);
    }
  }

  lemma ClosingDedupes(s: State, id: nat, status: Status)
    requires Deduped(s) && status != Nuevo
    ensures Deduped(SetStatus(s, id, status))
  {
    var u := SetStatus(s, id, status);
    forall i, j | 0 <= i < j < |u.incidents| && BothOpen(u.incidents[i], u.incidents[j])
      ensures Distance(u.incidents[i].windowEnd, u.incidents[j].windowEnd) > HOUR
    {
      assert BothOpen(s.incidents[i], s.incidents[j]);
    }
  }

  lemma EnrichDedupes(s: State, id: nat, abuse: Option<int>)
    requires Deduped(s)
    ensures Deduped(Enrich(s, id, abuse))
  {
    var u := Enrich(s, id, abuse);
    forall i, j | 0 <= i < j < |u.incidents| && BothOpen(u.incidents[i], u.incidents[j])
      ensures Distance(u.incidents[i].windowEnd, u.incidents[j].windowEnd) > HOUR
    {
      assert BothOpen(s.incidents[i], s.incidents[j]);
    }
  }

  lemma {:induction false} TimelyLater(clock: int, later: int, steps: seq<Step>)
    requires Timely(later, steps) && clock <= later
    ensures Timely(clock, steps)
    decreases steps
  {
    if steps != [] && !steps[0].Detection? {
      TimelyLater(clock, later, steps[1..]);
    }
  }

  /** In every run without reopening, unreviewed incidents of one IP are more than an hour apart. */
  lemma {:induction false} DedupeHolds(s: State, steps: seq<Step>)
    requires Deduped(s) && Timely(s.clock, steps) && NoReopening(steps)
    ensures Deduped(Run(s, steps))
    decreases steps
  {
    if steps != [] {
      var u := Apply(s, steps[0]);
      match steps[0] {
        case Detection(c) =>
          CycleDedupes(s, c);
          TimelyLater(u.clock, c.now, steps[1..]);
        case Review(id, status) =>
          ClosingDedupes(s, id, status);
        case Enrichment(id, abuse) =>
          EnrichDedupes(s, id, abuse);
      }
      DedupeHolds(u, steps[1..]);
    }
  }

  /** Whether incident id may be reopened: no other unreviewed incident of its IP ends within an hour of it. */
  predicate NoneNearby(s: State, id: nat)
    requires id < |s.incidents|
  {
    forall j :: 0 <= j < |s.incidents| && j != id && s.incidents[j].ip == s.incidents[id].ip && s.incidents[j].status == Nuevo ==>
      Distance(s.incidents[j].windowEnd, s.incidents[id].windowEnd) > HOUR
  }

  /** Reopening keeps the dedupe invariant exactly when none is nearby. */
  lemma ReopeningDedupesIff(s: State, id: nat)
    requires Deduped(s) && id < |s.incidents|
    ensures Deduped(SetStatus(s, id, Nuevo)) <==> NoneNearby(s, id)
  {
    var u := SetStatus(s, id, Nuevo);
    if Deduped(u) {
      forall j | 0 <= j < |s.incidents| && j != id && s.incidents[j].ip == s.incidents[id].ip && s.incidents[j].status == Nuevo
        ensures Distance(s.incidents[j].windowEnd, s.incidents[id].windowEnd) > HOUR
      {
        assert u.incidents[j] == s.incidents[j];
        if j < id {
          assert BothOpen(u.incidents[j], u.incidents[id]);
        } else {
          assert BothOpen(u.incidents[id], u.incidents[j]);
        }
      }
    }
    if NoneNearby(s, id) {
      forall i, j | 0 <= i < j < |u.incidents| && BothOpen(u.incidents[i], u.incidents[j])
        ensures Distance(u.incidents[i].windowEnd, u.incidents[j].windowEnd) > HOUR
      {
        if i != id && j != id {
          assert BothOpen(s.incidents[i], s.incidents[j]);
        }
      }
    }
  }

  /** Reviews, one after the other. */
  function SetStatuses(s: State, reviews: seq<(nat, Status)>): State
    decreases reviews
  {
    if reviews == [] then s else SetStatuses(SetStatus(s, reviews[0].0, reviews[0].1), reviews[1..])
  }

  /**
    Reviews that commit after a candidate's query has answered and before its turn is written have the same effect as
    the same reviews right after the turn.
    */
  lemma {:induction false} ReviewsInFlight(s: State, r: Option<nat>, c: Candidate, now: int, t: Thresholds, asked: bool,
                                           reviews: seq<(nat, Status)>)
    requires forall i :: 0 <= i < |reviews| ==> reviews[i].0 < |s.incidents|
    ensures Commit(SetStatuses(s, reviews), r, c, now, t, asked) == SetStatuses(Commit(s, r, c, now, t, asked), reviews)
    decreases reviews
  {
    if reviews != [] {
      var (id, status) := reviews[0];
      ReviewInFlight(s, r, c, now, t, asked, id, status);
      hide Commit;
      ReviewsInFlight(SetStatus(s, id, status), r, c, now, t, asked, reviews[1..]);
    }
  }

  lemma ReviewInFlight(s: State, r: Option<nat>, c: Candidate, now: int, t: Thresholds, asked: bool, id: nat, status: Status)
    requires id < |s.incidents|
    ensures Commit(SetStatus(s, id, status), r, c, now, t, asked) == SetStatus(Commit(s, r, c, now, t, asked), id, status)
  {
    var u := SetStatus(s, id, status);
    var a, b := Commit(u, r, c, now, t, asked), SetStatus(Commit(s, r, c, now, t, asked), id, status);
    assert |a.incidents| == |b.incidents|;
    forall i | 0 <= i < |a.incidents| ensures a.incidents[i] == b.incidents[i]
    {
    }
  }

  /**
    So a reopening that commits inside a candidate's turn keeps the dedupe invariant exactly when none is nearby once
    the turn is written, the incident it created or moved included.
    */
  lemma ReopeningInFlightDedupesIff(s: State, c: Candidate, now: int, t: Thresholds, asked: bool, id: nat)
    requires Deduped(s) && s.clock <= now && id < |s.incidents|
    ensures Deduped(Commit(SetStatus(s, id, Nuevo), Newest(s.incidents, c.ip, now), c, now, t, asked))
       <==> NoneNearby(Detect(s, c, now, t, asked), id)
  {
    DetectDedupes(s, c, now, t, asked);
    DetectClock(s, c, now, t, asked);
    ReviewInFlight(s, Newest(s.incidents, c.ip, now), c, now, t, asked, id, Nuevo);
    hide Deduped, NoneNearby, Commit, Newest, SetStatus;
    ReopeningDedupesIff(Detect(s, c, now, t, asked), id);
  }

  /** A cycle that sees one candidate and responds to nothing. */
  function Quiet(now: int, c: Candidate): Step {
    Detection(Cycle(now, [c], DEFAULTS, Alerts(false, None, Missing, []), Soar(false, CrowdSec, false, None, "24h", now, [])))
  }

  function Comeback(c: Candidate): seq<Step> {
    [Quiet(0, c), Review(0, Descartado), Quiet(10 * MINUTE, c), Review(0, Nuevo)]
  }

  /** Discard an incident, let the IP come back ten minutes later, reopen the first: two open incidents ten minutes apart. */
  lemma ReopeningBreaksDedupe(c: Candidate)
    ensures Timely(0, Comeback(c)) && !Deduped(Run(EMPTY, Comeback(c)))
  {
    var s1 := Apply(EMPTY, Quiet(0, c));
    FirstSight(EMPTY, 0, c);
    var s2 := Apply(s1, Review(0, Descartado));
    FirstSight(s2, 10 * MINUTE, c);
    var s3 := Apply(s2, Quiet(10 * MINUTE, c));
    var s4 := Apply(s3, Review(0, Nuevo));
    assert BothOpen(s4.incidents[0], s4.incidents[1]);
    assert !Deduped(s4);
    TimelyFour(0, Quiet(0, c), Review(0, Descartado), Quiet(10 * MINUTE, c), Review(0, Nuevo));
    RunFour(EMPTY, Quiet(0, c), Review(0, Descartado), Quiet(10 * MINUTE, c), Review(0, Nuevo));
  }

  lemma RunFour(s: State, a: Step, b: Step, c: Step, d: Step)
    ensures Run(s, [a, b, c, d]) == Apply(Apply(Apply(Apply(s, a), b), c), d)
  {
    hide Apply;
    assert [a, b, c, d][1..] == [b, c, d] && [b, c, d][1..] == [c, d] && [c, d][1..] == [d] && [d][1..] == [];
    var s2 := Apply(Apply(s, a), b);
    assert Run(Apply(s2, c), [d]) == Apply(Apply(s2, c), d);
    assert Run(s2, [c, d]) == Run(Apply(s2, c), [d]);
    assert Run(s, [a, b, c, d]) == Run(Apply(s, a), [b, c, d]);
  }

  lemma TimelyFour(clock: int, a: Step, b: Step, c: Step, d: Step)
    requires a.Detection? && b.Review? && c.Detection? && d.Review? && clock <= a.c.now <= c.c.now
    ensures Timely(clock, [a, b, c, d])
  {
    assert [a, b, c, d][1..] == [b, c, d] && [b, c, d][1..] == [c, d] && [c, d][1..] == [d] && [d][1..] == [];
    assert Timely(a.c.now, [c, d]);
    assert Timely(a.c.now, [b, c, d]);
  }

  lemma FirstSight(s: State, now: int, c: Candidate)
    requires forall i :: 0 <= i < |s.incidents| ==> !IsOpen(s.incidents[i], c.ip, now)
    ensures Apply(s, Quiet(now, c)).incidents == s.incidents + [Created(c, now, DEFAULTS, true)]
  {
    hide Created, Newest, AlertAll, BlockAll;
    assert [c][1..] == [];
    var u := Detect(s, c, now, DEFAULTS, true);
    assert DetectAll(u, [], now, DEFAULTS, Asked(s, u, 0)) == u;
  }

  // ------------------------------------------------------------------ figures over runs

  predicate CandidatesOk(steps: seq<Step>) {
    forall i :: 0 <= i < |steps| && steps[i].Detection? ==> AllInRange(steps[i].c.cands)
  }

  predicate AllInRange(cands: seq<Candidate>) {
    forall i :: 0 <= i < |cands| ==> InRange(cands[i])
  }

  /** Every candidate of the run. */
  function Seen(steps: seq<Step>): multiset<Candidate> {
    if steps == [] then multiset{}
    else (if steps[0].Detection? then multiset(steps[0].c.cands) else multiset{}) + Seen(steps[1..])
  }

  lemma SameFiguresMatch(a: Incident, b: Incident, cs: seq<Candidate>)
    requires Matches(a, cs) && b.ip == a.ip && b.events == a.events && b.score == a.score && b.ml == a.ml
    ensures Matches(b, cs)
  {
  }

  lemma StepAccounts(s: State, e: Step)
    requires Accounted(s) && (e.Detection? ==> AllInRange(e.c.cands))
    ensures Accounted(Apply(s, e))
    ensures Flatten(Apply(s, e).log) == Flatten(s.log) + (if e.Detection? then multiset(e.c.cands) else multiset{})
  {
    var u := Apply(s, e);
    match e {
      case Detection(c) =>
        DetectAllAccounts(s, c.cands, c.now, c.thresholds, 0);
        DetectAllAttributes(s, c.cands, c.now, c.thresholds, 0);
        ResponsesOnly(s, c);
        hide DetectAll, RunCycle, Matches, Flatten;
        var d := DetectAll(s, c.cands, c.now, c.thresholds, 0);
        forall i | 0 <= i < |u.incidents| ensures Matches(u.incidents[i], u.log[i])
        {
          assert SameFigures(d.incidents[i], u.incidents[i]);
          SameFiguresMatch(d.incidents[i], u.incidents[i], d.log[i]);
        }
      case _ =>
        hide Matches, Flatten;
        forall i | 0 <= i < |u.incidents| ensures Matches(u.incidents[i], u.log[i])
        {
          SameFiguresMatch(s.incidents[i], u.incidents[i], s.log[i]);
        }
    }
  }

  /**
    In every run an incident's counts and scores are the maxima over exactly the candidates attributed to it, all of
    its own IP, and every candidate of the run is attributed to exactly one incident.
    */
  lemma {:induction false} FiguresAreMaxima(s: State, steps: seq<Step>)
    requires Accounted(s) && CandidatesOk(steps)
    ensures Accounted(Run(s, steps))
    ensures Flatten(Run(s, steps).log) == Flatten(s.log) + Seen(steps)
    decreases steps
  {
    if steps != [] {
      StepAccounts(s, steps[0]);
      hide Accounted, Flatten, AllInRange, Apply;
      FiguresAreMaxima(Apply(s, steps[0]), steps[1..]);
    }
  }

  // ------------------------------------------------------------------ severity over runs

  predicate FixedThresholds(steps: seq<Step>, t: Thresholds) {
    forall i :: 0 <= i < |steps| && steps[i].Detection? ==> steps[i].c.thresholds == t
  }

  lemma StepKeepsLadder(s: State, e: Step, t: Thresholds)
    requires OnLadder(s, t) && (e.Detection? ==> e.c.thresholds == t)
    ensures OnLadder(Apply(s, e), t)
  {
    var u := Apply(s, e);
    match e {
      case Detection(c) =>
        DetectAllKeepsLadder(s, c.cands, c.now, t, 0);
        ResponsesOnly(s, c);
        hide DetectAll, RunCycle, Ladder;
        var d := DetectAll(s, c.cands, c.now, t, 0);
        forall i | 0 <= i < |u.incidents| ensures IsOnLadder(u.incidents[i], u.log[i], t)
        {
          assert SameFigures(d.incidents[i], u.incidents[i]);
        }
      case Review(id, status) =>
        hide Ladder;
        forall i | 0 <= i < |u.incidents| ensures IsOnLadder(u.incidents[i], u.log[i], t)
        {
          assert u.incidents[i] == s.incidents[i].(status := u.incidents[i].status);
        }
      case Enrichment(id, abuse) =>
        if id < |s.incidents| {
          EnrichKeepsLadder(s.incidents[id], s.log[id], abuse, t);
        }
        hide IsOnLadder, Enriched;
    }
  }

  lemma {:induction false} LadderHolds(s: State, steps: seq<Step>, t: Thresholds)
    requires OnLadder(s, t) && FixedThresholds(steps, t)
    ensures OnLadder(Run(s, steps), t)
    decreases steps
  {
    if steps != [] {
      StepKeepsLadder(s, steps[0], t);
      hide OnLadder, Apply;
      LadderHolds(Apply(s, steps[0]), steps[1..], t);
    }
  }

  /**
    With thresholds that do not change, every incident of every run is at least as severe as its recorded scores
    demand; exactly as severe when the IP's reputation did not raise it, and at most one level more when it did,
    whether that was asked for at its creation or later.
    */
  lemma SeverityFloor(steps: seq<Step>, t: Thresholds, i: nat)
    requires FixedThresholds(steps, t) && Coherent(t) && CandidatesOk(steps)
    requires i < |Run(EMPTY, steps).incidents|
    ensures var inc := Run(EMPTY, steps).incidents[i];
            var demanded := SeverityFor(MaxReal(inc.score, OrZero(inc.ml)), t);
            && Rank(demanded) <= Rank(inc.severity) <= Rank(demanded) + (if Bumped(inc) then 1 else 0)
  {
    LadderHolds(EMPTY, steps, t);
    FiguresAreMaxima(EMPTY, steps);
    var u := Run(EMPTY, steps);
    var inc, cs := u.incidents[i], u.log[i];
    assert Matches(inc, cs) && IsOnLadder(inc, cs, t);
    BlendedMaximum(inc, cs);
    hide Run, Matches, Ladder, SeverityFor, Blended, MaxReal;
    LadderIs(cs, t, MaxReal(inc.score, OrZero(inc.ml)));
  }

  // ------------------------------------------------------------------ nothing recorded is undone

  /** An incident once stored keeps its IP, its alert and its block for ever; its figures and severity never fall. */
  predicate Persists(s: State, u: State) {
    && |u.incidents| >= |s.incidents|
    && forall i :: 0 <= i < |s.incidents| ==> Grows(s.incidents[i], u.incidents[i])
  }

  lemma StepPersists(s: State, e: Step)
    ensures Persists(s, Apply(s, e))
  {
    hide Rank;
    var u := Apply(s, e);
    if e.Detection? {
      DetectAllExtends(s, e.c.cands, e.c.now, e.c.thresholds, 0);
      ResponsesOnly(s, e.c);
      hide DetectAll, RunCycle, Grows;
      forall i | 0 <= i < |s.incidents| ensures Grows(s.incidents[i], u.incidents[i])
      {
      }
    }
  }

  lemma {:induction false} RecordsPersist(s: State, steps: seq<Step>)
    ensures Persists(s, Run(s, steps))
    decreases steps
  {
    if steps == [] {
      assert forall i :: 0 <= i < |s.incidents| ==> Grows(s.incidents[i], s.incidents[i]);
    } else {
      var u := Apply(s, steps[0]);
      StepPersists(s, steps[0]);
      RecordsPersist(u, steps[1..]);
      hide Apply, Rank;
      forall i | 0 <= i < |s.incidents| ensures Grows(s.incidents[i], Run(s, steps).incidents[i])
      {
        assert Grows(s.incidents[i], u.incidents[i]) && Grows(u.incidents[i], Run(u, steps[1..]).incidents[i]);
      }
    }
  }

  // ------------------------------------------------------------------ spacing over runs

  /** Every cooldown is at least that long and every alert is stamped no earlier than its cooldown check. */
  predicate PacedAlerts(a: Alerts, minutes: int) {
    minutes <= Cooldown(a.cooldown) && forall i :: 0 <= i < |a.tries| ==> a.tries[i].checkedAt <= a.tries[i].sentAt
  }

  predicate Paced(steps: seq<Step>, minutes: int) {
    forall i :: 0 <= i < |steps| && steps[i].Detection? ==> PacedAlerts(steps[i].c.alerts, minutes)
  }

  lemma ExtendsApart(s: State, d: State, minutes: int)
    requires Extends(s, d)
    ensures AlertsApart(s.incidents, minutes) ==> AlertsApart(d.incidents, minutes)
    ensures BlocksApart(s.incidents) ==> BlocksApart(d.incidents)
  {
    hide Rank, Distance;
    var n := |s.incidents|;
    forall i | 0 <= i < |d.incidents|
      ensures i < n ==> d.incidents[i].ip == s.incidents[i].ip && d.incidents[i].alertedAt == s.incidents[i].alertedAt
                        && d.incidents[i].block == s.incidents[i].block
      ensures i >= n ==> d.incidents[i].alertedAt.None? && d.incidents[i].block.None?
    {
      if i < n {
        assert Grows(s.incidents[i], d.incidents[i]);
      }
    }
  }

  lemma OnlyAlertsKeepsBlocks(before: seq<Incident>, after: seq<Incident>, first: nat)
    requires OnlyAlerts(before, after, first) && BlocksApart(before)
    ensures BlocksApart(after)
  {
    forall i | 0 <= i < |after| ensures after[i].block == before[i].block && after[i].ip == before[i].ip
    {
    }
  }

  lemma OnlyBlocksKeepsAlerts(before: seq<Incident>, after: seq<Incident>, first: nat, minutes: int)
    requires OnlyBlocks(before, after, first) && AlertsApart(before, minutes)
    ensures AlertsApart(after, minutes)
  {
    forall i | 0 <= i < |after| ensures after[i].alertedAt == before[i].alertedAt && after[i].ip == before[i].ip
    {
    }
  }

  lemma CycleSpaces(s: State, c: Cycle, minutes: int)
    requires AlertsApart(s.incidents, minutes) && BlocksApart(s.incidents) && PacedAlerts(c.alerts, minutes)
    ensures AlertsApart(RunCycle(s, c).incidents, minutes) && BlocksApart(RunCycle(s, c).incidents)
  {
    hide DetectAll, AlertAll, BlockAll, AlertsApart, BlocksApart, Extends, OnlyAlerts, OnlyBlocks;
    var d := DetectAll(s, c.cands, c.now, c.thresholds, 0);
    var first := |s.incidents|;
    DetectAllExtends(s, c.cands, c.now, c.thresholds, 0);
    ExtendsApart(s, d, minutes);
    var a := Notify(d.incidents, first, c.alerts);
    if c.alerts.enabled {
      AlertAllKeepsApart(d.incidents, first, c.alerts, c.alerts.tries, minutes);
      AlertAllFrame(d.incidents, first, c.alerts, c.alerts.tries);
      OnlyAlertsKeepsBlocks(d.incidents, a, first);
    }
    BlockAllKeepsApart(a, first, c.soar, c.soar.tries);
    BlockAllFrame(a, first, c.soar, c.soar.tries);
    OnlyBlocksKeepsAlerts(a, BlockAll(a, first, c.soar, c.soar.tries), first, minutes);
  }

  lemma SameResponsesSpace(s: State, u: State, minutes: int)
    requires AlertsApart(s.incidents, minutes) && BlocksApart(s.incidents) && |u.incidents| == |s.incidents|
    requires forall i :: 0 <= i < |s.incidents| ==>
               && u.incidents[i].ip == s.incidents[i].ip
               && u.incidents[i].alertedAt == s.incidents[i].alertedAt && u.incidents[i].block == s.incidents[i].block
    ensures AlertsApart(u.incidents, minutes) && BlocksApart(u.incidents)
  {
  }

  /**
    Over any run, recorded alerts of one IP are further apart than every cooldown in force was long, and recorded
    blocks of one IP more than six hours apart.
    */
  lemma {:induction false} SpacingHolds(s: State, steps: seq<Step>, minutes: int)
    requires AlertsApart(s.incidents, minutes) && BlocksApart(s.incidents) && Paced(steps, minutes)
    ensures AlertsApart(Run(s, steps).incidents, minutes) && BlocksApart(Run(s, steps).incidents)
    decreases steps
  {
    if steps != [] {
      match steps[0] {
        case Detection(c) => CycleSpaces(s, c, minutes);
        case Review(id, status) => SameResponsesSpace(s, SetStatus(s, id, status), minutes);
        case Enrichment(id, abuse) => SameResponsesSpace(s, Enrich(s, id, abuse), minutes);
      }
      hide AlertsApart, BlocksApart, RunCycle, SetStatus, Enrich, PacedAlerts;
      SpacingHolds(Apply(s, steps[0]), steps[1..], minutes);
    }
  }

  // ------------------------------------------------------------------ what one candidate does

  /** An unreviewed incident of the address whose window ended within the last hour. */
  predicate OpenAt(i: Incident, ip: string, now: int) {
    i.ip == ip && i.status == Nuevo && i.windowEnd >= now - 3_600_000_000
  }

  /** One level up when the reputation is bad. */
  predicate Raised(rank: nat, abuse: Option<int>, from: nat) {
    rank == if abuse.Some? && abuse.value >= 75 && from < 3 then from + 1 else from
  }

  /** A new incident of the candidate. */
  ghost predicate MadeFrom(i: Incident, c: Candidate, now: int, t: Thresholds, abuse: Option<int>) {
    && i.ip == c.ip && i.windowEnd == now && i.events == c.events && i.score == c.score && i.ml == c.ml
    && i.status == Nuevo && i.alertedAt == None && i.block == None && i.abuse == abuse
    && Raised(Rank(i.severity), abuse, Rank(SeverityFor(MaxReal(c.score, OrZero(c.ml)), t)))
  }

  /** An incident before and after a candidate was added to it: its window ends now, and its figures are raised to the candidate's. */
  ghost predicate RaisedBy(i: Incident, j: Incident, c: Candidate, now: int, t: Thresholds) {
    && j == i.(windowEnd := now, events := j.events, score := j.score, ml := j.ml, severity := j.severity)
    && j.events == (if c.events > i.events then c.events else i.events)
    && j.score == (if c.score > i.score then c.score else i.score)
    && j.ml == (if c.ml == None then i.ml
                else if i.ml == None then Some(MaxReal(0.0, c.ml.value)) else Some(MaxReal(i.ml.value, c.ml.value)))
    && var demanded := SeverityFor(MaxReal(c.score, OrZero(c.ml)), t);
       j.severity == if Rank(demanded) > Rank(i.severity) then demanded else i.severity
  }

  /**
    What a candidate does: with no incident of its address open it adds one, and asks for the reputation as long as
    fewer than 25 did; otherwise it raises an open one whose window ended last, and touches no other.
    */
  lemma CandidateDoes(s: State, c: Candidate, now: int, t: Thresholds, asked: nat)
    ensures var a, b := s.incidents, DetectAll(s, [c], now, t, asked).incidents;
            if forall i :: 0 <= i < |a| ==> !OpenAt(a[i], c.ip, now)
            then |b| == |a| + 1 && b[..|a|] == a && MadeFrom(b[|a|], c, now, t, if asked < 25 then c.abuse else None)
            else |b| == |a| && exists k :: 0 <= k < |a| && OpenAt(a[k], c.ip, now) && RaisedBy(a[k], b[k], c, now, t)
                                 && (forall i :: 0 <= i < |a| && OpenAt(a[i], c.ip, now) ==> a[i].windowEnd <= a[k].windowEnd)
                                 && (forall i :: 0 <= i < |a| && i != k ==> b[i] == a[i])
  {
    hide SeverityFor;
    assert [c][1..] == [];
    var u := Detect(s, c, now, t, asked < 25);
    assert DetectAll(s, [c], now, t, asked) == u by {
      assert DetectAll(u, [], now, t, Asked(s, u, asked)) == u;
    }
    assert forall i :: 0 <= i < |s.incidents| ==> (OpenAt(s.incidents[i], c.ip, now) <==> IsOpen(s.incidents[i], c.ip, now));
    var r := Newest(s.incidents, c.ip, now);
    if r.Some? {
      UpdateRaises(s.incidents[r.value], c, now, t);
    }
    hide Newest, Updated, RaisedBy, OpenAt, DetectAll, IsOpen;
  }

  lemma UpdateRaises(i: Incident, c: Candidate, now: int, t: Thresholds)
    ensures RaisedBy(i, Updated(i, c, now, t), c, now, t)
  {
    hide SeverityFor, Rank;
  }

  /** Several candidates are taken one after the other, and each new incident below the 25th counts as one question. */
  lemma {:induction false} CandidatesInTurn(s: State, a: seq<Candidate>, b: seq<Candidate>, now: int, t: Thresholds, asked: nat)
    requires asked <= 25
    ensures var u := DetectAll(s, a, now, t, asked);
            var more := asked + |u.incidents| - |s.incidents|;
            && |u.incidents| >= |s.incidents|
            && DetectAll(s, a + b, now, t, asked) == DetectAll(u, b, now, t, if more > 25 then 25 else more)
    decreases a
  {
    hide Detect, DetectAll;
    DetectAllStep(s, a, now, t, asked);
    if a == [] {
      assert a + b == b;
    } else {
      assert (a + b)[0] == a[0] && (a + b)[1..] == a[1..] + b;
      DetectAllStep(s, a + b, now, t, asked);
      var u := Detect(s, a[0], now, t, asked < 25);
      CandidatesInTurn(u, a[1..], b, now, t, Asked(s, u, asked));
    }
  }

  lemma DetectAllStep(s: State, cands: seq<Candidate>, now: int, t: Thresholds, asked: nat)
    ensures cands == [] ==> DetectAll(s, cands, now, t, asked) == s
    ensures cands != [] ==>
              var u := Detect(s, cands[0], now, t, asked < 25);
              && |s.incidents| <= |u.incidents| <= |s.incidents| + 1
              && DetectAll(s, cands, now, t, asked) == DetectAll(u, cands[1..], now, t, Asked(s, u, asked))
  {
    if cands != [] {
      DetectClock(s, cands[0], now, t, asked < 25);
      DetectGrowsByOne(s, cands[0], now, t, asked < 25);
      hide Detect;
    }
  }

  lemma DetectGrowsByOne(s: State, c: Candidate, now: int, t: Thresholds, asked: bool)
    ensures |Detect(s, c, now, t, asked).incidents| <= |s.incidents| + 1
  {
  }

  /** What a review and an enrichment do to the table: one field of one incident; the answer, once, and one level. */
  lemma ReviewAndEnrichmentDo(s: State, id: nat, status: Status, abuse: Option<int>)
    requires id < |s.incidents|
    ensures var u := Run(s, [Review(id, status)]); u == s.(incidents := s.incidents[id := s.incidents[id].(status := status)])
    ensures var i, u := s.incidents[id], Run(s, [Enrichment(id, abuse)]);
            if i.abuse.Some? || abuse.None? then u == s
            else
              && |u.incidents| == |s.incidents| && (forall j :: 0 <= j < |s.incidents| && j != id ==> u.incidents[j] == s.incidents[j])
              && u.incidents[id] == i.(abuse := abuse, severity := u.incidents[id].severity)
              && Raised(Rank(u.incidents[id].severity), abuse, Rank(i.severity))
  {
    assert [Review(id, status)][1..] == [] && [Enrichment(id, abuse)][1..] == [];
    assert Run(SetStatus(s, id, status), []) == SetStatus(s, id, status);
    assert Run(Enrich(s, id, abuse), []) == Enrich(s, id, abuse);
  }

  // ------------------------------------------------------------------ what a cycle answers

  /**
    Which of the incidents a cycle creates it alerts on, and when: with alerts on, those whose turn came, that are severe
    enough, for whose address no earlier incident carries an alert within the cooldown, and that some channel delivered.
    */
  lemma CycleAlertsIff(s: State, c: Cycle, k: nat)
    requires |s.incidents| <= k < |RunCycle(s, c).incidents|
    ensures var u, n := RunCycle(s, c).incidents, k - |s.incidents|;
            && (u[k].alertedAt.Some? <==>
                  && c.alerts.enabled && n < |c.alerts.tries| && c.alerts.tries[n].delivered
                  && Rank(u[k].severity) >= MinRank(c.alerts.minSeverity)
                  && !AlertedBefore(u, k, c.alerts.tries[n].checkedAt - Cooldown(c.alerts.cooldown) * 60_000_000))
            && (u[k].alertedAt.Some? ==> u[k].alertedAt.value == c.alerts.tries[n].sentAt)
  {
    var d, a := CycleParts(s, c);
    hide RunCycle, Notify, Respond, AlertedBefore, Rank, Cooldown;
    var first := |s.incidents|;
    NotifyIff(d, first, c.alerts, k);
    if k - first < |c.alerts.tries| {
      SameAlerts(a, Respond(a, first, c.soar), first, k, c.alerts.tries[k - first].checkedAt - Cooldown(c.alerts.cooldown) * 60_000_000);
    }
  }

  lemma NotifyFrame(incs: seq<Incident>, first: nat, a: Alerts)
    ensures OnlyAlerts(incs, Notify(incs, first, a), first)
  {
    AlertAllFrame(incs, first, a, a.tries);
    hide AlertAll;
  }

  lemma SameAlerts(a: seq<Incident>, u: seq<Incident>, first: nat, k: nat, since: int)
    requires k < |a| && OnlyBlocks(a, u, first)
    ensures AlertedBefore(a, k, since) <==> AlertedBefore(u, k, since)
  {
    assert forall j :: 0 <= j < |a| ==> u[j].ip == a[j].ip && u[j].alertedAt == a[j].alertedAt;
  }

  /**
    Which of the incidents a cycle creates it blocks, and how: with automation on and a known method that works, those
    whose turn came and passed every guard - severe enough, a public address safe to ban, no recent admin login, no
    earlier incident of the address blocked within six hours - and whose ban went through.
    */
  lemma CycleBlocksIff(s: State, c: Cycle, k: nat)
    requires |s.incidents| <= k < |RunCycle(s, c).incidents|
    ensures var u, n, r := RunCycle(s, c).incidents, k - |s.incidents|, c.soar;
            && (u[k].block.Some? <==>
                  && r.enabled && r.via in {CrowdSec, Ufw} && r.available && n < |r.tries|
                  && Rank(u[k].severity) >= MinRank(r.minSeverity)
                  && r.tries[n].public && r.tries[n].safe && !r.tries[n].adminRecent && r.tries[n].executed
                  && !BlockedBefore(u, k, r.now - 21_600_000_000))
            && (u[k].block.Some? ==>
                  u[k].block.value == Block(r.now, r.via, if r.via == CrowdSec then Until(r.now, Duration(r.duration)) else None))
  {
    var d, a := CycleParts(s, c);
    hide RunCycle, Notify, Respond, BlockedBefore, Rank, Until, Duration;
    RespondIff(a, |s.incidents|, c.soar, k);
  }

  /** A cycle's table in three stages; new incidents start without alert and block. */
  lemma CycleParts(s: State, c: Cycle) returns (d: seq<Incident>, a: seq<Incident>)
    ensures a == Notify(d, |s.incidents|, c.alerts) && RunCycle(s, c).incidents == Respond(a, |s.incidents|, c.soar)
    ensures OnlyAlerts(d, a, |s.incidents|) && OnlyBlocks(a, Respond(a, |s.incidents|, c.soar), |s.incidents|)
    ensures forall j :: |s.incidents| <= j < |d| ==> d[j].alertedAt.None? && a[j].block.None?
  {
    d := DetectAll(s, c.cands, c.now, c.thresholds, 0).incidents;
    a := Notify(d, |s.incidents|, c.alerts);
    DetectAllExtends(s, c.cands, c.now, c.thresholds, 0);
    NotifyFrame(d, |s.incidents|, c.alerts);
    RespondFrame(a, |s.incidents|, c.soar);
    hide DetectAll, Notify, Respond, Grows;
  }

  lemma RespondFrame(a: seq<Incident>, first: nat, r: Soar)
    ensures OnlyBlocks(a, Respond(a, first, r), first)
  {
    BlockAllFrame(a, first, r, r.tries);
    hide BlockAll;
  }

  /** A run all of whose cycles have automation off blocks nobody. */
  lemma {:induction false} NoAutomationNoBlocks(s: State, steps: seq<Step>)
    requires forall i :: 0 <= i < |steps| && steps[i].Detection? ==> !steps[i].c.soar.enabled
    requires forall i :: 0 <= i < |s.incidents| ==> s.incidents[i].block.None?
    ensures forall i :: 0 <= i < |Run(s, steps).incidents| ==> Run(s, steps).incidents[i].block.None?
    decreases steps
  {
    if steps != [] {
      var u := Apply(s, steps[0]);
      StepPersists(s, steps[0]);
      forall i | 0 <= i < |u.incidents| ensures u.incidents[i].block.None?
      {
        if i < |s.incidents| {
          GrowsKeeps(s.incidents[i], u.incidents[i]);
        } else if steps[0].Detection? {
          CycleBlocksIff(s, steps[0].c, i);
        }
      }
      hide Apply, Persists;
      NoAutomationNoBlocks(u, steps[1..]);
    }
  }

  // ------------------------------------------------------------------ the engine

  class Engine {
    var incidents: seq<Incident>
    ghost var log: seq<seq<Candidate>>
    ghost var clock: int

    ghost function Contents(): State
      reads this
    {
      State(incidents, log, clock)
    }

    constructor ()
      ensures Contents() == EMPTY
    {
      incidents, log, clock := [], [], 0;
    }

    /** The loop of run_detection_cycle over the candidates; returns how many incidents it created. */
    method DetectLoop(cands: seq<Candidate>, now: int, t: Thresholds) returns (created: nat)
      modifies this
      ensures Contents() == DetectAll(old(Contents()), cands, now, t, 0)
      ensures created == |incidents| - |old(incidents)|
    {
      created := 0;
      var enriched := 0;
      var i := 0;
      hide DetectAll;
      while i < |cands|
        invariant i <= |cands|
        invariant created == |incidents| - |old(incidents)|
        invariant DetectAll(Contents(), cands[i..], now, t, enriched) == DetectAll(old(Contents()), cands, now, t, 0)
      {
        assert cands[i..][0] == cands[i] && cands[i..][1..] == cands[i + 1..];
        ghost var before := Contents();
        var createdOne := DetectOne(cands[i], now, t, enriched < MAX_ENRICH);
        if createdOne {
          created := created + 1;
          if enriched < MAX_ENRICH {
            enriched := enriched + 1;
          }
        }
        i := i + 1;
      }
      assert cands[i..] == [];
    }

    /** One candidate: update the IP's open recent incident, or create one. */
    method DetectOne(c: Candidate, now: int, t: Thresholds, asked: bool) returns (created: bool)
      modifies this
      ensures Contents() == Detect(old(Contents()), c, now, t, asked)
      ensures |incidents| == |old(incidents)| + (if created then 1 else 0)
    {
      hide Updated, Created;
      var existing := Newest(incidents, c.ip, now);
      created := existing.None?;
      if existing.Some? {
        var k := existing.value;
        log := if k < |log| then log[k := log[k] + [c]] else log;
        incidents := incidents[k := Updated(incidents[k], c, now, t)];
      } else {
        log := log + [[c]];
        incidents := incidents + [Created(c, now, t, asked)];
      }
      clock := now;
    }

    /** notify_incidents over the incidents created. */
    method NotifyIncidents(first: nat, a: Alerts)
      modifies this`incidents
      ensures incidents == Notify(old(incidents), first, a)
    {
      if !a.enabled {
        return;
      }
      hide AlertOne;
      var i := 0;
      while i < |a.tries| && first + i < |incidents|
        invariant i <= |a.tries|
        invariant AlertAll(incidents, first + i, a, a.tries[i..]) == AlertAll(old(incidents), first, a, a.tries)
      {
        assert a.tries[i..][0] == a.tries[i] && a.tries[i..][1..] == a.tries[i + 1..];
        NotifyOne(first + i, a, a.tries[i]);
        i := i + 1;
      }
    }

    /** One incident's turn in notify_incidents. */
    method NotifyOne(id: nat, a: Alerts, t: AlertTry)
      requires id < |incidents|
      modifies this`incidents
      ensures incidents == AlertOne(old(incidents), id, a, t)
    {
      if Rank(incidents[id].severity) < MinRank(a.minSeverity) {
        return;
      }
      if InCooldown(incidents, id, t.checkedAt, Cooldown(a.cooldown)) {
        return;
      }
      if t.delivered {
        incidents := incidents[id := incidents[id].(alertedAt := Some(t.sentAt))];
      }
    }

    /** maybe_block_incidents over the incidents created. */
    method MaybeBlockIncidents(first: nat, r: Soar)
      modifies this`incidents
      ensures incidents == Respond(old(incidents), first, r)
    {
      if !r.enabled || r.via == Unknown || !r.available {
        return;
      }
      hide BlockOne;
      var i := 0;
      while i < |r.tries| && first + i < |incidents|
        invariant i <= |r.tries|
        invariant BlockAll(incidents, first + i, r, r.tries[i..]) == BlockAll(old(incidents), first, r, r.tries)
      {
        assert r.tries[i..][0] == r.tries[i] && r.tries[i..][1..] == r.tries[i + 1..];
        EvaluateAndBlock(first + i, r, r.tries[i]);
        i := i + 1;
      }
    }

    /** _evaluate_and_block: guard after guard, then the ban, then the record. */
    method EvaluateAndBlock(id: nat, r: Soar, t: BlockTry)
      requires id < |incidents|
      modifies this`incidents
      ensures incidents == BlockOne(old(incidents), id, r, t)
    {
      if Rank(incidents[id].severity) < MinRank(r.minSeverity) {
        return;
      }
      if !t.public || !t.safe || t.adminRecent {
        return;
      }
      if BlockedRecently(incidents, id, r.now) {
        return;
      }
      if !t.executed {
        return;
      }
      var until: Option<int> := None;
      if r.via == CrowdSec {
        until := Until(r.now, Duration(r.duration));
      }
      incidents := incidents[id := incidents[id].(block := Some(Block(r.now, r.via, until)))];
    }

    method RunDetectionCycle(c: Cycle) returns (created: nat)
      modifies this
      ensures Contents() == RunCycle(old(Contents()), c)
      ensures created == |incidents| - |old(incidents)|
    {
      var first := |incidents|;
      created := DetectLoop(c.cands, c.now, c.thresholds);
      NotifyIncidents(first, c.alerts);
      MaybeBlockIncidents(first, c.soar);
    }

    /** The first part of a manual analysis. */
    method EnrichRetroactively(id: nat, abuse: Option<int>)
      modifies this`incidents
      ensures Contents() == Enrich(old(Contents()), id, abuse)
    {
      if id < |incidents| && incidents[id].abuse.None? && abuse.Some? {
        incidents := incidents[id := incidents[id].(abuse := abuse)];
        if abuse.value >= ABUSE_BUMP {
          incidents := incidents[id := incidents[id].(severity := Bump(incidents[id].severity))];
        }
      }
    }

    method SetEstado(id: nat, status: Status)
      modifies this`incidents
      ensures Contents() == SetStatus(old(Contents()), id, status)
    {
      if id < |incidents| {
        incidents := incidents[id := incidents[id].(status := status)];
      }
    }
  }
}
