/** Severities and the configurable thresholds that turn a 0-100 score into one. */
module SocDetect {
  import opened Wrappers

  datatype Severity = Low | Medium | High | Critical

  function Rank(s: Severity): (r: nat)
    ensures r <= 3
  {
    match s
    case Low => 0
    case Medium => 1
    case High => 2
    case Critical => 3
  }

  /** The place of a configured minimum; a name that is no severity counts as "high". */
  function MinRank(s: Option<Severity>): nat {
    if s.Some? then Rank(s.value) else 2
  }

  /** One level up, at most critical. */
  function Bump(s: Severity): (r: Severity)
    ensures Rank(r) == if Rank(s) < 3 then Rank(s) + 1 else 3
  {
    match s
    case Low => Medium
    case Medium => High
    case High => Critical
    case Critical => Critical
  }

  function Higher(a: Severity, b: Severity): (r: Severity)
    ensures Rank(r) == if Rank(b) > Rank(a) then Rank(b) else Rank(a)
  {
    if Rank(b) > Rank(a) then b else a
  }

  // ------------------------------------------------------------------ settings

  /** A stored setting: absent or empty, not a number, or a number. */
  datatype Setting = Missing | Bad | Num(n: int)

  function Clamp(lo: int, hi: int, n: int): int {
    if n < lo then lo else if n > hi then hi else n
  }

  function Or(s: Setting, default: int): int {
    if s.Num? then s.n else default
  }

  datatype Thresholds = Thresholds(critical: int, high: int, medium: int)

  const DEFAULTS := Thresholds(80, 60, 40)

  /** resolve_severity_thresholds */
  function Resolve(critical: Setting, high: Setting, medium: Setting): (t: Thresholds)
    ensures 1 <= t.medium < t.high < t.critical <= 100
  {
    if critical.Bad? || high.Bad? || medium.Bad? then DEFAULTS
    else
      var t := Thresholds(Clamp(1, 100, Or(critical, 80)), Clamp(1, 100, Or(high, 60)), Clamp(1, 100, Or(medium, 40)));
      if t.medium < t.high < t.critical then t else DEFAULTS
  }

  predicate Coherent(t: Thresholds) {
    t.medium < t.high < t.critical
  }

  /** severity_for_score */
  function SeverityFor(score: real, t: Thresholds): Severity {
    if score >= t.critical as real then Critical
    else if score >= t.high as real then High
    else if score >= t.medium as real then Medium
    else Low
  }

  function MaxReal(a: real, b: real): (m: real)
    ensures m >= a && m >= b && (m == a || m == b)
  {
    if b > a then b else a
  }

  /** A higher score is never less severe, so the severity of a maximum is the higher of the severities. */
  lemma SeverityOfMax(a: real, b: real, t: Thresholds)
    requires Coherent(t)
    ensures a <= b ==> Rank(SeverityFor(a, t)) <= Rank(SeverityFor(b, t))
    ensures SeverityFor(MaxReal(a, b), t) == Higher(SeverityFor(a, t), SeverityFor(b, t))
  {
    hide MaxReal;
  }

  /** Low, medium, high, critical, in that order; a minimum that is no severity stands for high. */
  lemma ScaleIs()
    ensures Rank(Low) == 0 && Rank(Medium) == 1 && Rank(High) == 2 && Rank(Critical) == 3
    ensures MinRank(None) == 2 && forall v :: MinRank(Some(v)) == Rank(v)
  {
  }

  /** A stored threshold: clamped to 1 .. 100, or the default when it is missing. */
  function Stored(s: Setting, default: int): int {
    if !s.Num? then default else if s.n < 1 then 1 else if s.n > 100 then 100 else s.n
  }

  /**
    The severity of a score under the stored settings: the thresholds as configured when all of them are numbers or
    missing and they come out in order, and 80, 60 and 40 otherwise.
    */
  lemma SeverityUnderSettings(score: real, critical: Setting, high: Setting, medium: Setting)
    ensures var c, h, m := Stored(critical, 80), Stored(high, 60), Stored(medium, 40);
            var usable := !critical.Bad? && !high.Bad? && !medium.Bad? && m < h < c;
            SeverityFor(score, Resolve(critical, high, medium))
            == if score >= (if usable then c else 80) as real then Critical
               else if score >= (if usable then h else 60) as real then High
               else if score >= (if usable then m else 40) as real then Medium
               else Low
  {
  }
}
