/** The incident table: a candidate updates its IP's open recent incident or creates one. */
module SocIncidents {
  import opened Wrappers
  import opened SocDetect

  /** Microseconds. */
  const MINUTE := 60 * 1000000
  const HOUR := 60 * MINUTE

  const MAX_ENRICH := 25
  const ABUSE_BUMP := 75

  /** `abuse` is what the reputation service would answer for the IP. */
  datatype Candidate = Candidate(ip: string, events: nat, score: real, ml: Option<real>, abuse: Option<int>)

  datatype Status = Nuevo | Revisado | Descartado | Confirmado

  /** blocked_at, blocked_method and blocked_until of a blocked incident. */
  datatype Block = Block(at: int, via: Method, until: Option<int>)

  datatype Method = CrowdSec | Ufw | Unknown

  datatype Incident = Incident(ip: string, windowEnd: int, events: nat, score: real, ml: Option<real>,
                               severity: Severity, status: Status, abuse: Option<int>,
                               alertedAt: Option<int>, block: Option<Block>)

  /** `log` is history the program does not keep: the candidates each incident was made from, in order. */
  datatype State = State(incidents: seq<Incident>, log: seq<seq<Candidate>>, clock: int)

  function OrZero(o: Option<real>): real {
    if o.Some? then o.value else 0.0
  }

  function Blended(c: Candidate): real {
    MaxReal(c.score, OrZero(c.ml))
  }

  // ------------------------------------------------------------------ the step

  predicate IsOpen(i: Incident, ip: string, now: int) {
    i.ip == ip && i.status == Nuevo && i.windowEnd >= now - HOUR
  }

  /** The open incident of the IP with the latest window end. */
  function Newest(incs: seq<Incident>, ip: string, now: int): (r: Option<nat>)
    ensures r.Some? ==> r.value < |incs| && IsOpen(incs[r.value], ip, now)
    ensures r.Some? ==> forall j :: 0 <= j < |incs| && IsOpen(incs[j], ip, now) ==> incs[j].windowEnd <= incs[r.value].windowEnd
    ensures r.None? ==> forall j :: 0 <= j < |incs| ==> !IsOpen(incs[j], ip, now)
  {
    if incs == [] then None
    else
      var n := |incs| - 1;
      var r := Newest(incs[..n], ip, now);
      if !IsOpen(incs[n], ip, now) then r
      else if r.Some? && incs[r.value].windowEnd >= incs[n].windowEnd then r
      else Some(n)
  }

  function Updated(i: Incident, c: Candidate, now: int, t: Thresholds): Incident {
    i.(windowEnd := now,
       events := if c.events > i.events then c.events else i.events,
       score := MaxReal(i.score, c.score),
       ml := if c.ml.Some? then Some(MaxReal(OrZero(i.ml), c.ml.value)) else i.ml,
       severity := Higher(i.severity, SeverityFor(Blended(c), t)))
  }

  /** `asked` tells whether the reputation service is consulted. */
  function Created(c: Candidate, now: int, t: Thresholds, asked: bool): Incident {
    var abuse := if asked then c.abuse else None;
    var severity := SeverityFor(Blended(c), t);
    Incident(c.ip, now, c.events, c.score, c.ml,
             if abuse.Some? && abuse.value >= ABUSE_BUMP then Bump(severity) else severity,
             Nuevo, abuse, None, None)
  }

  function Detect(s: State, c: Candidate, now: int, t: Thresholds, asked: bool): State {
    Commit(s, Newest(s.incidents, c.ip, now), c, now, t, asked)
  }

  /** What the candidate's turn writes once its query has answered. */
  function Commit(s: State, r: Option<nat>, c: Candidate, now: int, t: Thresholds, asked: bool): State {
    if r.Some? && r.value < |s.incidents| then
      var k := r.value;
      State(s.incidents[k := Updated(s.incidents[k], c, now, t)],
            if k < |s.log| then s.log[k := s.log[k] + [c]] else s.log,
            now)
    else State(s.incidents + [Created(c, now, t, asked)], s.log + [[c]], now)
  }

  /** Reputation queries made so far, after the step from s to u: one more when it created an incident below the cap. */
  function Asked(s: State, u: State, asked: nat): nat {
    if |u.incidents| > |s.incidents| && asked < MAX_ENRICH then asked + 1 else asked
  }

  /** The candidates of a cycle. */
  function DetectAll(s: State, cands: seq<Candidate>, now: int, t: Thresholds, asked: nat): State
    decreases cands
  {
    if cands == [] then s
    else
      var u := Detect(s, cands[0], now, t, asked < MAX_ENRICH);
      DetectAll(u, cands[1..], now, t, Asked(s, u, asked))
  }

  /** The retroactive query of the reputation service, for an incident that has no answer yet. */
  function Enriched(i: Incident, abuse: Option<int>): Incident {
    if i.abuse.Some? || abuse.None? then i
    else i.(abuse := abuse, severity := if abuse.value >= ABUSE_BUMP then Bump(i.severity) else i.severity)
  }

  /** The same when the incident was read as `seen` before the service was asked, and has become i since. */
  function EnrichedLate(seen: Incident, i: Incident, abuse: Option<int>): Incident {
    var late := Enriched(seen, abuse);
    i.(abuse := if late.abuse != seen.abuse then late.abuse else i.abuse,
       severity := if late.severity != seen.severity then late.severity else i.severity)
  }

  // ------------------------------------------------------------------ what an incident holds

  function MaxEvents(cs: seq<Candidate>): nat {
    if cs == [] then 0
    else
      var m := MaxEvents(cs[..|cs| - 1]);
      if cs[|cs| - 1].events > m then cs[|cs| - 1].events else m
  }

  /** An upper bound that is reached. */
  ghost predicate IsMaximum(m: real, cs: seq<Candidate>) {
    (exists i :: 0 <= i < |cs| && cs[i].score == m) && forall i :: 0 <= i < |cs| ==> cs[i].score <= m
  }

  ghost predicate IsEventMaximum(m: nat, cs: seq<Candidate>) {
    (exists i :: 0 <= i < |cs| && cs[i].events == m) && forall i :: 0 <= i < |cs| ==> cs[i].events <= m
  }

  /** The best of the machine-learning scores there were; None when there was none. */
  ghost predicate IsMlMaximum(m: Option<real>, cs: seq<Candidate>) {
    if m.None? then forall i :: 0 <= i < |cs| ==> cs[i].ml.None?
    else
      && (exists i :: 0 <= i < |cs| && cs[i].ml == m)
      && forall i :: 0 <= i < |cs| && cs[i].ml.Some? ==> cs[i].ml.value <= m.value
  }

  /** Both scores are 0 to 100. */
  predicate InRange(c: Candidate) {
    0.0 <= c.score <= 100.0 && (c.ml.Some? ==> 0.0 <= c.ml.value <= 100.0)
  }

  /** Everything about incident i comes from its candidates. */
  ghost predicate Matches(i: Incident, cs: seq<Candidate>) {
    && cs != []
    && (forall k :: 0 <= k < |cs| ==> cs[k].ip == i.ip && InRange(cs[k]))
    && IsEventMaximum(i.events, cs)
    && IsMaximum(i.score, cs)
    && IsMlMaximum(i.ml, cs)
  }

  ghost predicate Accounted(s: State) {
    && |s.log| == |s.incidents|
    && forall i :: 0 <= i < |s.incidents| ==> Matches(s.incidents[i], s.log[i])
  }

  lemma UpdateMatches(i: Incident, cs: seq<Candidate>, c: Candidate, now: int, t: Thresholds)
    requires Matches(i, cs) && c.ip == i.ip && InRange(c)
    ensures Matches(Updated(i, c, now, t), cs + [c])
  {
    var u := Updated(i, c, now, t);
    var all := cs + [c];
    var n := |cs|;
    assert all[n] == c && forall k :: 0 <= k < n ==> all[k] == cs[k];
    assert IsEventMaximum(u.events, all) by {
      var k :| 0 <= k < n && cs[k].events == i.events;
      assert all[k].events == i.events && all[n].events == c.events;
    }
    assert IsMaximum(u.score, all) by {
      var k :| 0 <= k < n && cs[k].score == i.score;
      assert all[k].score == i.score && all[n].score == c.score;
    }
    MlMaximum(i, cs, c);
  }

  lemma MlMaximum(i: Incident, cs: seq<Candidate>, c: Candidate)
    requires IsMlMaximum(i.ml, cs) && InRange(c)
    requires forall k :: 0 <= k < |cs| ==> InRange(cs[k])
    ensures IsMlMaximum(if c.ml.Some? then Some(MaxReal(OrZero(i.ml), c.ml.value)) else i.ml, cs + [c])
  {
    var all, n := cs + [c], |cs|;
    assert all[n] == c && forall k :: 0 <= k < n ==> all[k] == cs[k];
    if i.ml.Some? {
      var k :| 0 <= k < n && cs[k].ml == i.ml;
      assert all[k].ml == i.ml;
    }
    assert all[n].ml == c.ml;
  }

  lemma CreateMatches(c: Candidate, now: int, t: Thresholds, asked: bool)
    requires InRange(c)
    ensures Matches(Created(c, now, t, asked), [c])
  {
    var cs := [c];
    assert cs[0].events == c.events && cs[0].score == c.score && cs[0].ml == c.ml;
  }

  lemma DetectAccounts(s: State, c: Candidate, now: int, t: Thresholds, asked: bool)
    requires Accounted(s) && InRange(c)
    ensures Accounted(Detect(s, c, now, t, asked))
  {
    var r := Newest(s.incidents, c.ip, now);
    if r.Some? {
      UpdateMatches(s.incidents[r.value], s.log[r.value], c, now, t);
    } else {
      CreateMatches(c, now, t, asked);
    }
    hide Matches, Newest, Updated, Created;
  }

  // ------------------------------------------------------------------ every candidate goes to one incident

  function Flatten(log: seq<seq<Candidate>>): multiset<Candidate> {
    if log == [] then multiset{} else Flatten(log[..|log| - 1]) + multiset(log[|log| - 1])
  }

  lemma {:induction false} FlattenUpdate(log: seq<seq<Candidate>>, k: nat, c: Candidate)
    requires k < |log|
    ensures Flatten(log[k := log[k] + [c]]) == Flatten(log) + multiset{c}
  {
    var n := |log| - 1;
    var after := log[k := log[k] + [c]];
    if k == n {
      assert after[..n] == log[..n];
      assert multiset(log[n] + [c]) == multiset(log[n]) + multiset{c};
    } else {
      FlattenUpdate(log[..n], k, c);
      assert after[..n] == log[..n][k := log[..n][k] + [c]];
    }
  }

  lemma DetectAttributes(s: State, c: Candidate, now: int, t: Thresholds, asked: bool)
    requires |s.log| == |s.incidents|
    ensures |Detect(s, c, now, t, asked).log| == |Detect(s, c, now, t, asked).incidents|
    ensures Flatten(Detect(s, c, now, t, asked).log) == Flatten(s.log) + multiset{c}
  {
    var r := Newest(s.incidents, c.ip, now);
    if r.Some? {
      FlattenUpdate(s.log, r.value, c);
    } else {
      assert (s.log + [[c]])[..|s.log|] == s.log;
      assert multiset([c]) == multiset{c};
    }
  }

  // ------------------------------------------------------------------ dedupe

  function Distance(a: int, b: int): int {
    if a >= b then a - b else b - a
  }

  predicate BothOpen(a: Incident, b: Incident) {
    a.ip == b.ip && a.status == Nuevo && b.status == Nuevo
  }

  /** Unreviewed incidents of one IP are more than an hour apart, and no window ends in the future. */
  predicate Deduped(s: State) {
    && (forall i :: 0 <= i < |s.incidents| ==> s.incidents[i].windowEnd <= s.clock)
    && (forall i, j :: 0 <= i < j < |s.incidents| && BothOpen(s.incidents[i], s.incidents[j]) ==>
          Distance(s.incidents[i].windowEnd, s.incidents[j].windowEnd) > HOUR)
  }

  /** So at most one incident of an IP is open at a time: which one the query returns first is not a choice. */
  lemma OpenIsUnique(s: State, ip: string, now: int, i: nat, j: nat)
    requires Deduped(s) && s.clock <= now && i < |s.incidents| && j < |s.incidents|
    requires IsOpen(s.incidents[i], ip, now) && IsOpen(s.incidents[j], ip, now)
    ensures i == j
  {
    if i < j {
      assert BothOpen(s.incidents[i], s.incidents[j]);
    } else if j < i {
      assert BothOpen(s.incidents[j], s.incidents[i]);
    }
  }

  lemma DetectDedupes(s: State, c: Candidate, now: int, t: Thresholds, asked: bool)
    requires Deduped(s) && s.clock <= now
    ensures Deduped(Detect(s, c, now, t, asked))
  {
    var u := Detect(s, c, now, t, asked);
    var r := Newest(s.incidents, c.ip, now);
    var k := if r.Some? then r.value else |s.incidents|;
    forall j | 0 <= j < |u.incidents| && j != k && BothOpen(u.incidents[j], u.incidents[k])
      ensures Distance(u.incidents[j].windowEnd, now) > HOUR
    {
      assert u.incidents[j] == s.incidents[j];
      if IsOpen(s.incidents[j], c.ip, now) && k < |s.incidents| {
        OpenIsUnique(s, c.ip, now, j, k);
      }
    }
    forall i, j | 0 <= i < j < |u.incidents| && BothOpen(u.incidents[i], u.incidents[j])
      ensures Distance(u.incidents[i].windowEnd, u.incidents[j].windowEnd) > HOUR
    {
      if i != k && j != k {
        assert u.incidents[i] == s.incidents[i] && u.incidents[j] == s.incidents[j];
      }
    }
  }

  // ------------------------------------------------------------------ severity

  function Bumped(i: Incident): bool {
    i.abuse.Some? && i.abuse.value >= ABUSE_BUMP
  }

  /** The severity a list of candidates leads to when the thresholds never change and reputation plays no part. */
  function Ladder(cs: seq<Candidate>, t: Thresholds): Severity
    requires cs != []
  {
    var n := |cs| - 1;
    var last := SeverityFor(Blended(cs[n]), t);
    if n == 0 then last else Higher(Ladder(cs[..n], t), last)
  }

  /** Exactly on the ladder when reputation did not raise the incident, and at most one level above when it did. */
  predicate IsOnLadder(i: Incident, cs: seq<Candidate>, t: Thresholds) {
    cs != [] && Rank(Ladder(cs, t)) <= Rank(i.severity) <= Rank(Ladder(cs, t)) + (if Bumped(i) then 1 else 0)
  }

  ghost predicate OnLadder(s: State, t: Thresholds) {
    && |s.log| == |s.incidents|
    && forall i :: 0 <= i < |s.incidents| ==> IsOnLadder(s.incidents[i], s.log[i], t)
  }

  lemma UpdateKeepsLadder(i: Incident, cs: seq<Candidate>, c: Candidate, now: int, t: Thresholds)
    requires IsOnLadder(i, cs, t)
    ensures IsOnLadder(Updated(i, c, now, t), cs + [c], t)
  {
    hide SeverityFor;
    assert (cs + [c])[..|cs|] == cs && (cs + [c])[|cs|] == c;
  }

  lemma EnrichKeepsLadder(i: Incident, cs: seq<Candidate>, abuse: Option<int>, t: Thresholds)
    requires IsOnLadder(i, cs, t)
    ensures IsOnLadder(Enriched(i, abuse), cs, t)
  {
    hide Ladder;
  }

  /**
    An enrichment during which a candidate raised the incident's severity: it overwrites that, and the severity falls
    exactly when the reputation is bad and the candidate had raised it by more than one level.
    */
  lemma LateEnrichmentKeepsIff(seen: Incident, i: Incident, abuse: int)
    requires seen.abuse.None? && Rank(seen.severity) <= Rank(i.severity)
    ensures Rank(EnrichedLate(seen, i, Some(abuse)).severity) >= Rank(i.severity)
       <==> abuse < ABUSE_BUMP || Rank(i.severity) <= Rank(seen.severity) + 1
    ensures i.severity == seen.severity && i.abuse == seen.abuse ==> EnrichedLate(seen, i, Some(abuse)) == Enriched(i, Some(abuse))
  {
  }

  lemma DetectKeepsLadder(s: State, c: Candidate, now: int, t: Thresholds, asked: bool)
    requires OnLadder(s, t)
    ensures OnLadder(Detect(s, c, now, t, asked), t)
  {
    var r := Newest(s.incidents, c.ip, now);
    if r.Some? {
      UpdateKeepsLadder(s.incidents[r.value], s.log[r.value], c, now, t);
    } else {
      assert IsOnLadder(Created(c, now, t, asked), [c], t);
    }
    hide IsOnLadder, Newest, Updated, Created;
  }

  /** The ladder ends at the severity of the best blended score. */
  lemma {:induction false} LadderIs(cs: seq<Candidate>, t: Thresholds, best: real)
    requires cs != [] && Coherent(t)
    requires exists i :: 0 <= i < |cs| && Blended(cs[i]) == best
    requires forall i :: 0 <= i < |cs| ==> Blended(cs[i]) <= best
    ensures Ladder(cs, t) == SeverityFor(best, t)
  {
    hide SeverityFor;
    var n := |cs| - 1;
    if n > 0 {
      var front := cs[..n];
      var top := BestOf(front);
      LadderIs(front, t, top);
      SeverityOfMax(top, Blended(cs[n]), t);
      var i :| 0 <= i < |cs| && Blended(cs[i]) == best;
      assert i < n ==> front[i] == cs[i];
      assert best == MaxReal(top, Blended(cs[n]));
    }
  }

  lemma {:induction false} BestOf(cs: seq<Candidate>) returns (best: real)
    requires cs != []
    ensures exists i :: 0 <= i < |cs| && Blended(cs[i]) == best
    ensures forall i :: 0 <= i < |cs| ==> Blended(cs[i]) <= best
  {
    var n := |cs| - 1;
    if n == 0 {
      best := Blended(cs[0]);
    } else {
      var front := cs[..n];
      var rest := BestOf(front);
      best := MaxReal(rest, Blended(cs[n]));
      var i :| 0 <= i < |front| && Blended(front[i]) == rest;
      assert front[i] == cs[i];
      assert forall j :: 0 <= j < n ==> front[j] == cs[j];
    }
  }

  /** The best blended score of an incident's candidates is the maximum of its two recorded scores. */
  lemma BlendedMaximum(i: Incident, cs: seq<Candidate>)
    requires Matches(i, cs)
    ensures exists k :: 0 <= k < |cs| && Blended(cs[k]) == MaxReal(i.score, OrZero(i.ml))
    ensures forall k :: 0 <= k < |cs| ==> Blended(cs[k]) <= MaxReal(i.score, OrZero(i.ml))
  {
    var m := MaxReal(i.score, OrZero(i.ml));
    assert InRange(cs[0]) && cs[0].score <= i.score;
    forall k | 0 <= k < |cs| ensures Blended(cs[k]) <= m
    {
      assert cs[k].score <= i.score;
    }
    if m == i.score {
      var k :| 0 <= k < |cs| && cs[k].score == i.score;
      assert Blended(cs[k]) <= m;
    } else {
      var k :| 0 <= k < |cs| && cs[k].ml == i.ml;
      assert Blended(cs[k]) <= m;
    }
  }
}
