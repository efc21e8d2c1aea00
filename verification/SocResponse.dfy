/** What a cycle does with the incidents it created: alerts under a per-IP cooldown, automatic blocks without repetition. */
module SocResponse {
  import opened Wrappers
  import opened SocDetect
  import opened SocIncidents
  import opened Decimal

  const BLOCK_LOOKBACK := 6 * HOUR

  // ------------------------------------------------------------------ alerts

  /** One incident's turn: when the cooldown is checked, when the alert is stamped, whether some channel delivered it. */
  datatype AlertTry = AlertTry(checkedAt: int, sentAt: int, delivered: bool)

  datatype Alerts = Alerts(enabled: bool, minSeverity: Option<Severity>, cooldown: Setting, tries: seq<AlertTry>)

  /** soc_alert_cooldown_min, in minutes: 60 by default, clamped to 5 .. 1440. */
  function Cooldown(s: Setting): (m: int)
    ensures 5 <= m <= 1440
  {
    Clamp(5, 1440, Or(s, 60))
  }

  /** Another incident of the IP was alerted within the cooldown. */
  predicate InCooldown(incs: seq<Incident>, id: nat, at: int, minutes: int)
    requires id < |incs|
  {
    exists j :: 0 <= j < |incs| && j != id && incs[j].ip == incs[id].ip
                && incs[j].alertedAt.Some? && incs[j].alertedAt.value >= at - minutes * MINUTE
  }

  function AlertOne(incs: seq<Incident>, id: nat, a: Alerts, t: AlertTry): (r: seq<Incident>)
    requires id < |incs|
    ensures |r| == |incs|
  {
    if Rank(incs[id].severity) < MinRank(a.minSeverity) || InCooldown(incs, id, t.checkedAt, Cooldown(a.cooldown)) then incs
    else if !t.delivered then incs
    else incs[id := incs[id].(alertedAt := Some(t.sentAt))]
  }

  /** The turns of incidents id, id + 1, ...; fewer tries than incidents when the process dies on the way. */
  function AlertAll(incs: seq<Incident>, id: nat, a: Alerts, tries: seq<AlertTry>): (r: seq<Incident>)
    ensures |r| == |incs|
    decreases tries
  {
    if tries == [] || id >= |incs| then incs
    else AlertAll(AlertOne(incs, id, a, tries[0]), id + 1, a, tries[1..])
  }

  function Notify(incs: seq<Incident>, first: nat, a: Alerts): (r: seq<Incident>)
    ensures |r| == |incs|
  {
    if a.enabled then AlertAll(incs, first, a, a.tries) else incs
  }

  // ------------------------------------------------------------------ blocks

  /** The guards' answers for one incident, and whether the ban was carried out. */
  datatype BlockTry = BlockTry(public: bool, safe: bool, adminRecent: bool, executed: bool)

  /** `available` tells whether the chosen method's module is on and working. */
  datatype Soar = Soar(enabled: bool, via: Method, available: bool, minSeverity: Option<Severity>, duration: string,
                       now: int, tries: seq<BlockTry>)

  predicate BlockedRecently(incs: seq<Incident>, id: nat, now: int)
    requires id < |incs|
  {
    exists j :: 0 <= j < |incs| && j != id && incs[j].ip == incs[id].ip
                && incs[j].block.Some? && incs[j].block.value.at >= now - BLOCK_LOOKBACK
  }

  /** ^\d+[smhd]$ */
  predicate IsDuration(d: string) {
    |d| >= 2 && AllDigits(d[..|d| - 1]) && d[|d| - 1] in "smhd"
  }

  function Duration(setting: string): (d: string)
    ensures IsDuration(d)
  {
    if IsDuration(setting) then setting else "24h"
  }

  function UnitOf(c: char): (u: int)
    ensures u >= 1
  {
    if c == 's' then 1000000 else if c == 'm' then MINUTE else if c == 'h' then HOUR else 24 * HOUR
  }

  /** _parse_duration_to_dt: a zero duration gives no expiry. */
  function Until(now: int, d: string): (r: Option<int>)
    requires IsDuration(d)
    ensures r.Some? ==> r.value > now
    ensures r.None? <==> Value(d[..|d| - 1]) == 0
  {
    var delta := Value(d[..|d| - 1]) * UnitOf(d[|d| - 1]);
    if delta == 0 then None else Some(now + delta)
  }

  /** Guards 1 to 4 and the ban itself. */
  predicate Blocks(incs: seq<Incident>, id: nat, r: Soar, t: BlockTry)
    requires id < |incs|
  {
    && Rank(incs[id].severity) >= MinRank(r.minSeverity)
    && t.public && t.safe && !t.adminRecent
    && !BlockedRecently(incs, id, r.now)
    && t.executed
  }

  function BlockOne(incs: seq<Incident>, id: nat, r: Soar, t: BlockTry): (s: seq<Incident>)
    requires id < |incs|
    ensures |s| == |incs|
  {
    if !Blocks(incs, id, r, t) then incs
    else
      var until := if r.via == CrowdSec then Until(r.now, Duration(r.duration)) else None;
      incs[id := incs[id].(block := Some(Block(r.now, r.via, until)))]
  }

  function BlockAll(incs: seq<Incident>, id: nat, r: Soar, tries: seq<BlockTry>): (s: seq<Incident>)
    ensures |s| == |incs|
    decreases tries
  {
    if tries == [] || id >= |incs| then incs
    else BlockAll(BlockOne(incs, id, r, tries[0]), id + 1, r, tries[1..])
  }

  function Respond(incs: seq<Incident>, first: nat, r: Soar): (s: seq<Incident>)
    ensures |s| == |incs|
  {
    if r.enabled && r.via != Unknown && r.available then BlockAll(incs, first, r, r.tries) else incs
  }

  /** The alert cooldown in minutes: 60 unless configured, and never under 5 or over 1440. */
  lemma CooldownIs(s: Setting)
    ensures Cooldown(s) == if !s.Num? then 60 else if s.n < 5 then 5 else if s.n > 1440 then 1440 else s.n
  {
  }

  /** The end of a ban of n seconds, minutes, hours or days. */
  lemma ExpiryIs(now: int, n: nat, u: char)
    requires u in {'s', 'm', 'h', 'd'}
    ensures var micros := if u == 's' then 1_000_000 else if u == 'm' then 60_000_000
                          else if u == 'h' then 3_600_000_000 else 86_400_000_000;
            Until(now, Duration(Dec(n) + [u])) == if n == 0 then None else Some(now + n * micros)
  {
    var d := Dec(n) + [u];
    ValueOfDec(n);
    assert d[..|d| - 1] == Dec(n) && d[|d| - 1] == u && u in "smhd";
    hide Dec, Value;
  }

  /** A configured duration of any other form stands for 24 hours. */
  lemma OtherExpiry(now: int, setting: string)
    requires !(|setting| >= 2 && AllDigits(setting[..|setting| - 1]) && setting[|setting| - 1] in {'s', 'm', 'h', 'd'})
    ensures Until(now, Duration(setting)) == Some(now + 86_400_000_000)
  {
    assert forall c :: c in "smhd" <==> c in {'s', 'm', 'h', 'd'};
    assert Duration(setting) == "24h";
    ExpiryIs(now, 24, 'h');
    assert Dec(24) + ['h'] == "24h" by {
      assert Dec(2) == "2";
    }
    hide Until, AllDigits, Dec;
    assert IsDuration("24h") && Duration("24h") == "24h";
  }

  // ------------------------------------------------------------------ spacing

  /** Alerts of one IP are more than that many minutes apart. */
  predicate AlertsApart(incs: seq<Incident>, minutes: int) {
    forall i, j :: 0 <= i < j < |incs| && incs[i].ip == incs[j].ip && incs[i].alertedAt.Some? && incs[j].alertedAt.Some? ==>
      Distance(incs[i].alertedAt.value, incs[j].alertedAt.value) > minutes * MINUTE
  }

  /** Blocks of one IP are more than six hours apart. */
  predicate BlocksApart(incs: seq<Incident>) {
    forall i, j :: 0 <= i < j < |incs| && incs[i].ip == incs[j].ip && incs[i].block.Some? && incs[j].block.Some? ==>
      Distance(incs[i].block.value.at, incs[j].block.value.at) > BLOCK_LOOKBACK
  }

  lemma AlertOneKeepsApart(incs: seq<Incident>, id: nat, a: Alerts, t: AlertTry, minutes: int)
    requires id < |incs| && AlertsApart(incs, minutes) && minutes <= Cooldown(a.cooldown) && t.checkedAt <= t.sentAt
    ensures AlertsApart(AlertOne(incs, id, a, t), minutes)
  {
    var r := AlertOne(incs, id, a, t);
    if r != incs {
      assert minutes * MINUTE <= Cooldown(a.cooldown) * MINUTE;
      forall j | 0 <= j < |r| && j != id && r[j].ip == r[id].ip && r[j].alertedAt.Some?
        ensures Distance(r[j].alertedAt.value, t.sentAt) > minutes * MINUTE
      {
        assert r[j] == incs[j];
      }
    }
  }

  lemma {:induction false} AlertAllKeepsApart(incs: seq<Incident>, id: nat, a: Alerts, tries: seq<AlertTry>, minutes: int)
    requires AlertsApart(incs, minutes) && minutes <= Cooldown(a.cooldown)
    requires forall i :: 0 <= i < |tries| ==> tries[i].checkedAt <= tries[i].sentAt
    ensures AlertsApart(AlertAll(incs, id, a, tries), minutes)
    decreases tries
  {
    hide AlertsApart, AlertOne;
    if tries != [] && id < |incs| {
      AlertOneKeepsApart(incs, id, a, tries[0], minutes);
      AlertAllKeepsApart(AlertOne(incs, id, a, tries[0]), id + 1, a, tries[1..], minutes);
    }
  }

  lemma BlockOneKeepsApart(incs: seq<Incident>, id: nat, r: Soar, t: BlockTry)
    requires id < |incs| && BlocksApart(incs)
    ensures BlocksApart(BlockOne(incs, id, r, t))
  {
    hide Duration, Until;
    var s := BlockOne(incs, id, r, t);
    if s != incs {
      forall j | 0 <= j < |s| && j != id && s[j].ip == s[id].ip && s[j].block.Some?
        ensures Distance(s[j].block.value.at, r.now) > BLOCK_LOOKBACK
      {
        assert s[j] == incs[j];
      }
    }
  }

  lemma {:induction false} BlockAllKeepsApart(incs: seq<Incident>, id: nat, r: Soar, tries: seq<BlockTry>)
    requires BlocksApart(incs)
    ensures BlocksApart(BlockAll(incs, id, r, tries))
    decreases tries
  {
    hide BlocksApart, BlockOne;
    if tries != [] && id < |incs| {
      BlockOneKeepsApart(incs, id, r, tries[0]);
      BlockAllKeepsApart(BlockOne(incs, id, r, tries[0]), id + 1, r, tries[1..]);
    }
  }

  // ------------------------------------------------------------------ what responses leave alone

  /** Alerts change nothing but alerted_at, and that only from incident `first` on. */
  predicate OnlyAlerts(before: seq<Incident>, after: seq<Incident>, first: nat) {
    && |after| == |before|
    && forall i :: 0 <= i < |before| ==>
         after[i] == if i < first then before[i] else before[i].(alertedAt := after[i].alertedAt)
  }

  predicate OnlyBlocks(before: seq<Incident>, after: seq<Incident>, first: nat) {
    && |after| == |before|
    && forall i :: 0 <= i < |before| ==>
         after[i] == if i < first then before[i] else before[i].(block := after[i].block)
  }

  lemma {:induction false} AlertAllFrame(incs: seq<Incident>, id: nat, a: Alerts, tries: seq<AlertTry>)
    ensures OnlyAlerts(incs, AlertAll(incs, id, a, tries), id)
    decreases tries
  {
    hide InCooldown, Rank;
    if tries != [] && id < |incs| {
      var next := AlertOne(incs, id, a, tries[0]);
      AlertAllFrame(next, id + 1, a, tries[1..]);
      var last := AlertAll(next, id + 1, a, tries[1..]);
      forall i | 0 <= i < |incs|
        ensures last[i] == if i < id then incs[i] else incs[i].(alertedAt := last[i].alertedAt)
      {
        assert i != id ==> next[i] == incs[i];
      }
    }
  }

  lemma {:induction false} BlockAllFrame(incs: seq<Incident>, id: nat, r: Soar, tries: seq<BlockTry>)
    ensures OnlyBlocks(incs, BlockAll(incs, id, r, tries), id)
    decreases tries
  {
    hide Blocks, Duration, Until;
    if tries != [] && id < |incs| {
      var next := BlockOne(incs, id, r, tries[0]);
      BlockAllFrame(next, id + 1, r, tries[1..]);
      var last := BlockAll(next, id + 1, r, tries[1..]);
      forall i | 0 <= i < |incs|
        ensures last[i] == if i < id then incs[i] else incs[i].(block := last[i].block)
      {
        assert i != id ==> next[i] == incs[i];
      }
    }
  }

  /** The turns after the n-th leave the first n alone, and those before it the others. */
  lemma {:induction false} AlertPrefix(incs: seq<Incident>, id: nat, a: Alerts, tries: seq<AlertTry>, n: nat, j: nat)
    requires n <= |tries| && j < |incs|
    ensures var before, after := AlertAll(incs, id, a, tries[..n]), AlertAll(incs, id, a, tries);
            && (j < id + n ==> after[j] == before[j])
            && (j >= id + n ==> before[j] == incs[j])
    decreases n
  {
    if n == 0 {
      assert tries[..0] == [];
      AlertAllFrame(incs, id, a, tries);
    } else if id < |incs| {
      var next := AlertOne(incs, id, a, tries[0]);
      assert tries[..n][0] == tries[0] && tries[..n][1..] == tries[1..][..n - 1];
      hide AlertOne;
      AlertPrefix(next, id + 1, a, tries[1..], n - 1, j);
      AlertOneFrame(incs, id, a, tries[0]);
    }
  }

  lemma AlertOneFrame(incs: seq<Incident>, id: nat, a: Alerts, t: AlertTry)
    requires id < |incs|
    ensures forall j :: 0 <= j < |incs| && j != id ==> AlertOne(incs, id, a, t)[j] == incs[j]
  {
  }

  lemma {:induction false} BlockPrefix(incs: seq<Incident>, id: nat, r: Soar, tries: seq<BlockTry>, n: nat, j: nat)
    requires n <= |tries| && j < |incs|
    ensures var before, after := BlockAll(incs, id, r, tries[..n]), BlockAll(incs, id, r, tries);
            && (j < id + n ==> after[j] == before[j])
            && (j >= id + n ==> before[j] == incs[j])
    decreases n
  {
    if n == 0 {
      assert tries[..0] == [];
      BlockAllFrame(incs, id, r, tries);
    } else if id < |incs| {
      var next := BlockOne(incs, id, r, tries[0]);
      assert tries[..n][0] == tries[0] && tries[..n][1..] == tries[1..][..n - 1];
      hide BlockOne;
      BlockPrefix(next, id + 1, r, tries[1..], n - 1, j);
      BlockOneFrame(incs, id, r, tries[0]);
    }
  }

  lemma BlockOneFrame(incs: seq<Incident>, id: nat, r: Soar, t: BlockTry)
    requires id < |incs|
    ensures forall j :: 0 <= j < |incs| && j != id ==> BlockOne(incs, id, r, t)[j] == incs[j]
  {
  }

  /**
    Which incidents a round of alerts marks, and how: incident k, not alerted before, is marked at its own turn, with
    that turn's time, exactly when it is severe enough, no other incident of its IP was alerted within the cooldown -
    by then, earlier turns of the same round included - and some channel delivered.
    */
  lemma {:induction false} AlertedIff(incs: seq<Incident>, id: nat, a: Alerts, tries: seq<AlertTry>, k: nat)
    requires id <= k < |incs| && incs[k].alertedAt.None?
    ensures var after := AlertAll(incs, id, a, tries)[k].alertedAt;
            && (after.Some? <==>
                  && k - id < |tries|
                  && Rank(incs[k].severity) >= MinRank(a.minSeverity)
                  && !InCooldown(AlertAll(incs, id, a, tries[..k - id]), k, tries[k - id].checkedAt, Cooldown(a.cooldown))
                  && tries[k - id].delivered)
            && (after.Some? ==> after.value == tries[k - id].sentAt)
    decreases tries
  {
    hide InCooldown, Rank;
    if tries != [] {
      var next := AlertOne(incs, id, a, tries[0]);
      if k == id {
        AlertAllFrame(next, id + 1, a, tries[1..]);
        assert tries[..0] == [];
      } else {
        assert next[k] == incs[k];
        AlertedIff(next, id + 1, a, tries[1..], k);
        if k - id < |tries| {
          assert tries[..k - id][0] == tries[0] && tries[..k - id][1..] == tries[1..][..k - id - 1];
        }
      }
    }
  }

  /**
    Which incidents a round of responses blocks, and how: incident k, not blocked before, exactly when at its own turn
    it passes every guard - severe enough, a public address that is safe to ban, no recent admin login from it, no
    other block of the address within six hours, earlier turns of the round included - and the ban goes through.
    */
  lemma {:induction false} BlockedIff(incs: seq<Incident>, id: nat, r: Soar, tries: seq<BlockTry>, k: nat)
    requires id <= k < |incs| && incs[k].block.None?
    ensures var after := BlockAll(incs, id, r, tries)[k].block;
            && (after.Some? <==>
                  && k - id < |tries|
                  && Rank(incs[k].severity) >= MinRank(r.minSeverity)
                  && tries[k - id].public && tries[k - id].safe && !tries[k - id].adminRecent
                  && !BlockedRecently(BlockAll(incs, id, r, tries[..k - id]), k, r.now)
                  && tries[k - id].executed)
            && (after.Some? ==>
                  after.value == Block(r.now, r.via, if r.via == CrowdSec then Until(r.now, Duration(r.duration)) else None))
    decreases tries
  {
    hide Duration, Until, BlockedRecently, Rank;
    if tries != [] {
      var next := BlockOne(incs, id, r, tries[0]);
      if k == id {
        BlockAllFrame(next, id + 1, r, tries[1..]);
        assert tries[..0] == [];
      } else {
        assert next[k] == incs[k];
        BlockedIff(next, id + 1, r, tries[1..], k);
        if k - id < |tries| {
          assert tries[..k - id][0] == tries[0] && tries[..k - id][1..] == tries[1..][..k - id - 1];
        }
      }
    }
  }

  // ------------------------------------------------------------------ in terms of the outcome

  /** An earlier incident of the address carries an alert no older than that. */
  ghost predicate AlertedBefore(incs: seq<Incident>, k: nat, since: int)
    requires k < |incs|
  {
    exists j :: 0 <= j < k && incs[j].ip == incs[k].ip && incs[j].alertedAt.Some? && incs[j].alertedAt.value >= since
  }

  ghost predicate BlockedBefore(incs: seq<Incident>, k: nat, since: int)
    requires k < |incs|
  {
    exists j :: 0 <= j < k && incs[j].ip == incs[k].ip && incs[j].block.Some? && incs[j].block.value.at >= since
  }

  /** At its own turn an incident sees exactly the alerts that the incidents before it carry in the end. */
  lemma CooldownSeen(incs: seq<Incident>, id: nat, a: Alerts, tries: seq<AlertTry>, k: nat, at: int, minutes: int)
    requires id <= k < |incs| && k - id <= |tries| && forall j :: id <= j < |incs| ==> incs[j].alertedAt.None?
    ensures InCooldown(AlertAll(incs, id, a, tries[..k - id]), k, at, minutes)
       <==> AlertedBefore(AlertAll(incs, id, a, tries), k, at - minutes * 60_000_000)
  {
    var before, after := AlertAll(incs, id, a, tries[..k - id]), AlertAll(incs, id, a, tries);
    AlertAllFrame(incs, id, a, tries);
    forall j | 0 <= j < |incs|
      ensures before[j].ip == after[j].ip && before[j].alertedAt == if j < k then after[j].alertedAt else None
    {
      AlertPrefix(incs, id, a, tries, k - id, j);
    }
    hide AlertAll, OnlyAlerts;
    if InCooldown(before, k, at, minutes) {
      var j :| 0 <= j < |before| && j != k && before[j].ip == before[k].ip
               && before[j].alertedAt.Some? && before[j].alertedAt.value >= at - minutes * MINUTE;
      assert after[j].alertedAt == before[j].alertedAt;
    }
    if AlertedBefore(after, k, at - minutes * 60_000_000) {
      var j :| 0 <= j < k && after[j].ip == after[k].ip && after[j].alertedAt.Some?
               && after[j].alertedAt.value >= at - minutes * 60_000_000;
      assert before[j].alertedAt == after[j].alertedAt;
    }
  }

  lemma BlocksSeen(incs: seq<Incident>, id: nat, r: Soar, tries: seq<BlockTry>, k: nat)
    requires id <= k < |incs| && k - id <= |tries| && forall j :: id <= j < |incs| ==> incs[j].block.None?
    ensures BlockedRecently(BlockAll(incs, id, r, tries[..k - id]), k, r.now)
       <==> BlockedBefore(BlockAll(incs, id, r, tries), k, r.now - 21_600_000_000)
  {
    var before, after := BlockAll(incs, id, r, tries[..k - id]), BlockAll(incs, id, r, tries);
    BlockAllFrame(incs, id, r, tries);
    forall j | 0 <= j < |incs|
      ensures before[j].ip == after[j].ip && before[j].block == if j < k then after[j].block else None
    {
      BlockPrefix(incs, id, r, tries, k - id, j);
    }
    hide BlockAll, OnlyBlocks;
    SameBlocks(before, after, k, r.now);
  }

  lemma SameBlocks(before: seq<Incident>, after: seq<Incident>, k: nat, now: int)
    requires k < |before| == |after|
    requires forall j :: 0 <= j < |before| ==>
               before[j].ip == after[j].ip && before[j].block == if j < k then after[j].block else None
    ensures BlockedRecently(before, k, now) <==> BlockedBefore(after, k, now - 21_600_000_000)
  {
    if BlockedRecently(before, k, now) {
      var j :| 0 <= j < |before| && j != k && before[j].ip == before[k].ip
               && before[j].block.Some? && before[j].block.value.at >= now - BLOCK_LOOKBACK;
      assert after[j].block == before[j].block;
    }
    if BlockedBefore(after, k, now - 21_600_000_000) {
      var j :| 0 <= j < k && after[j].ip == after[k].ip && after[j].block.Some?
               && after[j].block.value.at >= now - 21_600_000_000;
      assert before[j].block == after[j].block;
    }
  }

  /** Which incidents a round alerts on, all from `first` on being new. */
  lemma NotifyIff(incs: seq<Incident>, first: nat, a: Alerts, k: nat)
    requires first <= k < |incs| && forall j :: first <= j < |incs| ==> incs[j].alertedAt.None?
    ensures var u, n := Notify(incs, first, a), k - first;
            && (u[k].alertedAt.Some? <==>
                  && a.enabled && n < |a.tries| && a.tries[n].delivered
                  && Rank(incs[k].severity) >= MinRank(a.minSeverity)
                  && !AlertedBefore(u, k, a.tries[n].checkedAt - Cooldown(a.cooldown) * 60_000_000))
            && (u[k].alertedAt.Some? ==> u[k].alertedAt.value == a.tries[n].sentAt)
  {
    AlertedIff(incs, first, a, a.tries, k);
    if k - first < |a.tries| {
      CooldownSeen(incs, first, a, a.tries, k, a.tries[k - first].checkedAt, Cooldown(a.cooldown));
    }
    hide AlertAll, InCooldown, AlertedBefore, Rank, Cooldown;
  }

  /** Which incidents a round blocks, all from `first` on being new. */
  lemma RespondIff(incs: seq<Incident>, first: nat, r: Soar, k: nat)
    requires first <= k < |incs| && forall j :: first <= j < |incs| ==> incs[j].block.None?
    ensures var u, n := Respond(incs, first, r), k - first;
            && (u[k].block.Some? <==>
                  && r.enabled && r.via in {CrowdSec, Ufw} && r.available && n < |r.tries|
                  && Rank(incs[k].severity) >= MinRank(r.minSeverity)
                  && r.tries[n].public && r.tries[n].safe && !r.tries[n].adminRecent && r.tries[n].executed
                  && !BlockedBefore(u, k, r.now - 21_600_000_000))
            && (u[k].block.Some? ==>
                  u[k].block.value == Block(r.now, r.via, if r.via == CrowdSec then Until(r.now, Duration(r.duration)) else None))
  {
    BlockedIff(incs, first, r, r.tries, k);
    if k - first < |r.tries| {
      BlocksSeen(incs, first, r, r.tries, k);
    }
    hide BlockAll, BlockedRecently, BlockedBefore, Rank, Until, Duration;
  }
}
