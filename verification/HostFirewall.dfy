/**
  The host firewall agent: an ordered first-match chain (raw/PREROUTING) edited with bounded delete loops
  and head insertions, mirrored in a marker file, and rebuilt from the marker after a restart.
  */
module HostFirewall {
  import Decimal
  import Json
  import RawLog

  type Port = p: int | 1 <= p <= 65535 witness 1

  /** Ports the agent refuses to protect. */
  const RESERVED: set<int> := {22, 80, 443, 5000}
  const DELETE_TRIES: nat := 10

  /** Rules of anyone else are told apart by a tag; what they do is a parameter of the verdict. */
  datatype Rule = LoAccept(port: Port) | DropExternal(port: Port) | Foreign(tag: nat)

  datatype Verdict = Accept | Drop

  datatype Hit = Pass | Stop(verdict: Verdict)

  datatype Packet = Packet(loopback: bool, tcp: bool, src: int, dport: int)

  /** The verdict of a foreign rule on a packet, if it has one. */
  type Semantics = (nat, Packet) -> Hit

  // ------------------------------------------------------------------ meaning of a chain

  /** 172.16.0.0/12: the top 12 of the 32 address bits. */
  predicate InDockerCidr(src: int) {
    src / 1_048_576 == 172 * 16 + 1
  }

  function Address(a: int, b: int, c: int, d: int): int {
    16_777_216 * a + 65_536 * b + 256 * c + d
  }

  function Match(sem: Semantics, r: Rule, k: Packet): Hit {
    match r
    case LoAccept(p) => if k.loopback && k.tcp && k.dport == p then Stop(Accept) else Pass
    case DropExternal(p) => if k.tcp && k.dport == p && !InDockerCidr(k.src) then Stop(Drop) else Pass
    case Foreign(tag) => sem(tag, k)
  }

  /** First match wins; the chain policy is ACCEPT. */
  function VerdictOf(sem: Semantics, chain: seq<Rule>, k: Packet): Verdict {
    if chain == [] then Accept
    else
      match Match(sem, chain[0], k)
      case Stop(v) => v
      case Pass => VerdictOf(sem, chain[1..], k)
  }

  // ------------------------------------------------------------------ iptables

  /** -D: remove the first rule equal to r; fails when there is none. */
  function DeleteFirst(chain: seq<Rule>, r: Rule): seq<Rule> {
    if chain == [] then []
    else if chain[0] == r then chain[1..]
    else [chain[0]] + DeleteFirst(chain[1..], r)
  }

  /** Up to n deletions, stopping at the first that fails; the number that succeeded. */
  function DeleteUpTo(chain: seq<Rule>, r: Rule, n: nat): (seq<Rule>, nat)
    decreases n
  {
    if n == 0 || r !in chain then (chain, 0)
    else
      var (c, m) := DeleteUpTo(DeleteFirst(chain, r), r, n - 1);
      (c, m + 1)
  }

  function Cleared(chain: seq<Rule>, p: Port): seq<Rule> {
    DeleteUpTo(DeleteUpTo(chain, LoAccept(p), DELETE_TRIES).0, DropExternal(p), DELETE_TRIES).0
  }

  function Removed(chain: seq<Rule>, p: Port): nat {
    var (c, m) := DeleteUpTo(chain, LoAccept(p), DELETE_TRIES);
    m + DeleteUpTo(c, DropExternal(p), DELETE_TRIES).1
  }

  /** -C on the DROP rule. */
  predicate IsBlocked(chain: seq<Rule>, p: Port) {
    DropExternal(p) in chain
  }

  // ------------------------------------------------------------------ commands

  /** An insertion: exit code 0, another exit code, or a timeout, which may come after the rule has gone in. */
  datatype Call = Done | Refused | Raises(took: bool)

  /**
    A deletion that fails although its rule may be there, after n that succeeded: refused because the lock is held, or
    timed out, perhaps after its rule has gone.
    */
  datatype Halt = NoHalt | RefusedAfter(n: nat) | RaisesAfter(n: nat, took: bool)

  /** The -C call of the last step: it runs, exits as if the rule were not there, or times out. */
  datatype Check = Runs | Errs | TimesOut

  /** A marker read in the middle of a command; any exception is answered with no ports at all. */
  datatype Read = Loaded | Unreadable

  /**
    A marker write. It opens the file, which empties it, and then writes: it succeeds, fails before the file is
    opened, or leaves only part of the text, which the next load cannot parse and takes for no ports at all.
    */
  datatype Write = Saved | Untouched | Torn

  /** How the calls of one command fare. */
  datatype Luck = Luck(lo: Halt, drop: Halt, insertDrop: Call, insertAccept: Call, load: Read, save: Write, check: Check)

  const ALL_OK := Luck(NoHalt, NoHalt, Done, Done, Loaded, Saved, Runs)

  datatype State = State(chain: seq<Rule>, marker: map<Port, bool>)

  /** Malformed is the answer to a command whose handler raised. */
  datatype Reply = InvalidPort | ReservedPort | InsertFailed | Malformed | Protected(blocked: bool) | Unprotected(removed: nat)

  /** The delete loop for one rule: the chain, how many rules went, and whether the loop raised. */
  function Deleted(chain: seq<Rule>, r: Rule, halt: Halt): (seq<Rule>, nat, bool) {
    DeletedIn(chain, r, halt, DELETE_TRIES)
  }

  function Tries(halt: Halt, n: nat): nat {
    if halt.NoHalt? || halt.n > n then n else halt.n
  }

  function DeletedIn(chain: seq<Rule>, r: Rule, halt: Halt, n: nat): (seq<Rule>, nat, bool) {
    var (c, m) := DeleteUpTo(chain, r, Tries(halt, n));
    var raised := halt.RaisesAfter? && halt.n < n && m == halt.n;
    (if raised && halt.took then DeleteFirst(c, r) else c, m, raised)
  }

  function Found(marker: map<Port, bool>, load: Read): map<Port, bool> {
    if load == Loaded then marker else map[]
  }

  function Written(marker: map<Port, bool>, updated: map<Port, bool>, w: Write): map<Port, bool> {
    match w
    case Saved => updated
    case Untouched => marker
    case Torn => map[]
  }

  function ProtectPort(s: State, p: Port, luck: Luck): (State, Reply) {
    var (c1, _, raised1) := Deleted(s.chain, LoAccept(p), luck.lo);
    if raised1 then (s.(chain := c1), Malformed)
    else
      var (c2, _, raised2) := Deleted(c1, DropExternal(p), luck.drop);
      if raised2 then (s.(chain := c2), Malformed) else Inserted(s.(chain := c2), p, luck)
  }

  /** What follows the deletions: the two insertions, the marker, the check. */
  function Inserted(s: State, p: Port, luck: Luck): (State, Reply) {
    var dropped := [DropExternal(p)] + s.chain;
    var chain := [LoAccept(p)] + dropped;
    match luck.insertDrop
    case Refused => (s, InsertFailed)
    case Raises(took) => (if took then s.(chain := dropped) else s, Malformed)
    case Done =>
      match luck.insertAccept
      case Refused => (s.(chain := dropped), InsertFailed)
      case Raises(took) => (s.(chain := if took then chain else dropped), Malformed)
      case Done =>
        (State(chain, Written(s.marker, Found(s.marker, luck.load)[p := true], luck.save)),
         match luck.check
         case Runs => Protected(IsBlocked(chain, p))
         case Errs => Protected(false)
         case TimesOut => Malformed)
  }

  function UnprotectPort(s: State, p: Port, luck: Luck): (State, Reply) {
    var (c1, m, raised1) := Deleted(s.chain, LoAccept(p), luck.lo);
    if raised1 then (s.(chain := c1), Malformed)
    else
      var (c2, n, raised2) := Deleted(c1, DropExternal(p), luck.drop);
      if raised2 then (s.(chain := c2), Malformed)
      else (State(c2, Written(s.marker, Found(s.marker, luck.load) - {p}, luck.save)), Unprotected(m + n))
  }

  datatype Command = Protect(port: int) | Unprotect(port: int)

  /** The two branches of handle(), with their argument checks. */
  function Handle(s: State, c: Command, luck: Luck): (State, Reply) {
    match c
    case Protect(p) =>
      if !(1 <= p <= 65535) then (s, InvalidPort)
      else if p in RESERVED then (s, ReservedPort)
      else ProtectPort(s, p, luck)
    case Unprotect(p) =>
      if !(1 <= p <= 65535) then (s, InvalidPort) else UnprotectPort(s, p, luck)
  }

  function Run(s: State, commands: seq<Command>): State
    decreases commands
  {
    if commands == [] then s else Run(Handle(s, commands[0], ALL_OK).0, commands[1..])
  }

  /** The luck of the first entry, and of those after it; beyond the list everything succeeds. */
  function First(lucks: seq<Luck>): Luck {
    if lucks == [] then ALL_OK else lucks[0]
  }

  function Later(lucks: seq<Luck>): seq<Luck> {
    if lucks == [] then [] else lucks[1..]
  }

  /** The restore loop over the marker's entries, in the order the file lists them; an exception ends it. */
  function RestoreWith(s: State, entries: seq<(Port, bool)>, lucks: seq<Luck>): State
    decreases entries
  {
    if entries == [] then s
    else
      var (p, active) := entries[0];
      if !active then RestoreWith(s, entries[1..], Later(lucks))
      else
        var (t, reply) := ProtectPort(s, p, First(lucks));
        if reply == Malformed then t else RestoreWith(t, entries[1..], Later(lucks))
  }

  /** A restore in which every call succeeds. */
  function Restore(s: State, entries: seq<(Port, bool)>): State {
    RestoreWith(s, entries, [])
  }

  /** `entries` lists exactly the marker's items, each port once, in some order. */
  ghost predicate Lists(entries: seq<(Port, bool)>, marker: map<Port, bool>) {
    && (forall i, j :: 0 <= i < j < |entries| ==> entries[i].0 != entries[j].0)
    && (forall e :: e in entries ==> e.0 in marker && marker[e.0] == e.1)
    && (forall p :: p in marker ==> (p, marker[p]) in entries)
  }

  // ------------------------------------------------------------------ what the rules are for

  function Active(marker: map<Port, bool>): set<Port> {
    set p | p in marker && marker[p]
  }

  /** The policy the agent stands for: protected ports are reachable from loopback and Docker only. */
  function Policy(sem: Semantics, foreign: seq<Rule>, ports: set<Port>, k: Packet): Verdict {
    if k.tcp && k.dport in ports && k.loopback then Accept
    else if k.tcp && k.dport in ports && !InDockerCidr(k.src) then Drop
    else VerdictOf(sem, foreign, k)
  }

  ghost predicate AllForeign(chain: seq<Rule>) {
    forall r :: r in chain ==> r.Foreign?
  }

  function Pairs(ports: seq<Port>): seq<Rule> {
    if ports == [] then [] else [LoAccept(ports[0]), DropExternal(ports[0])] + Pairs(ports[1..])
  }

  ghost predicate Distinct(ports: seq<Port>) {
    ports == [] || (ports[0] !in ports[1..] && Distinct(ports[1..]))
  }

  /**
    The chain invariant: the agent's rules form a block of ACCEPT/DROP pairs, one per port of the marker,
    in front of the foreign rules in their original order.
    */
  ghost predicate Shape(s: State, foreign: seq<Rule>, ports: seq<Port>) {
    && AllForeign(foreign) && Distinct(ports)
    && s.chain == Pairs(ports) + foreign
    && s.marker.Keys == (set p | p in ports)
    && forall p :: p in s.marker ==> s.marker[p]
  }

  function Without(ports: seq<Port>, p: Port): seq<Port> {
    if ports == [] then []
    else (if ports[0] == p then [] else [ports[0]]) + Without(ports[1..], p)
  }

  // ------------------------------------------------------------------ CIDR

  /** The /12 test is the dotted-quad range 172.16.0.0 - 172.31.255.255. */
  lemma DockerCidrIsRange(a: int, b: int, c: int, d: int)
    requires 0 <= a < 256 && 0 <= b < 256 && 0 <= c < 256 && 0 <= d < 256
    ensures InDockerCidr(Address(a, b, c, d)) <==> a == 172 && 16 <= b <= 31
  {
    var low := 65_536 * (b % 16) + 256 * c + d;
    assert Address(a, b, c, d) == 1_048_576 * (16 * a + b / 16) + low;
    assert 0 <= low < 1_048_576;
  }

  // ------------------------------------------------------------------ deletion lemmas

  lemma {:induction false} DeleteInside(front: seq<Rule>, r: Rule, back: seq<Rule>)
    requires r !in front
    ensures DeleteFirst(front + [r] + back, r) == front + back
  {
    var chain := front + [r] + back;
    if front == [] {
      assert chain[0] == r && chain[1..] == back;
      assert front + back == back;
    } else {
      assert chain[0] == front[0];
      assert chain[1..] == front[1..] + [r] + back;
      DeleteInside(front[1..], r, back);
      assert [front[0]] + (front[1..] + back) == front + back;
    }
  }

  /** A rule that occurs once is removed once, wherever it stands. */
  lemma DeleteOnce(front: seq<Rule>, r: Rule, back: seq<Rule>)
    requires r !in front && r !in back
    ensures DeleteUpTo(front + [r] + back, r, DELETE_TRIES) == (front + back, 1)
  {
    DeleteInside(front, r, back);
    assert r in front + [r] + back;
  }

  lemma {:induction false} PairsContents(ports: seq<Port>, r: Rule)
    ensures r in Pairs(ports) <==> !r.Foreign? && r.port in ports
  {
    if ports != [] {
      PairsContents(ports[1..], r);
      assert Pairs(ports) == [LoAccept(ports[0]), DropExternal(ports[0])] + Pairs(ports[1..]);
    }
  }

  lemma NoPairs(foreign: seq<Rule>)
    ensures Pairs([]) + foreign == foreign
  {
  }

  lemma PairsFirst(ports: seq<Port>, foreign: seq<Rule>)
    requires ports != []
    ensures Pairs(ports) + foreign == [LoAccept(ports[0]), DropExternal(ports[0])] + (Pairs(ports[1..]) + foreign)
  {
  }

  lemma {:induction false} PairsConcat(a: seq<Port>, b: seq<Port>)
    ensures Pairs(a + b) == Pairs(a) + Pairs(b)
  {
    if a == [] {
      assert a + b == b;
    } else {
      PairsConcat(a[1..], b);
      assert (a + b)[1..] == a[1..] + b;
    }
  }

  lemma {:induction false} WithoutAbsent(ports: seq<Port>, p: Port)
    requires p !in ports
    ensures Without(ports, p) == ports
  {
    if ports != [] {
      WithoutAbsent(ports[1..], p);
    }
  }

  lemma {:induction false} WithoutSplit(a: seq<Port>, p: Port, b: seq<Port>)
    requires p !in a && p !in b
    ensures Without(a + [p] + b, p) == a + b
  {
    if a == [] {
      assert ([] + [p] + b)[1..] == b;
      WithoutAbsent(b, p);
    } else {
      assert (a + [p] + b)[1..] == a[1..] + [p] + b;
      WithoutSplit(a[1..], p, b);
    }
  }

  lemma {:induction false} WithoutMember(ports: seq<Port>, p: Port, q: Port)
    ensures q in Without(ports, p) <==> q in ports && q != p
  {
    if ports != [] {
      WithoutMember(ports[1..], p, q);
      assert q in ports <==> q == ports[0] || q in ports[1..];
    }
  }

  lemma {:induction false} WithoutDistinct(ports: seq<Port>, p: Port)
    requires Distinct(ports)
    ensures Distinct(Without(ports, p))
  {
    if ports != [] {
      WithoutDistinct(ports[1..], p);
      WithoutMember(ports[1..], p, ports[0]);
      if ports[0] == p {
        assert Without(ports, p) == Without(ports[1..], p);
      } else {
        assert Without(ports, p)[1..] == Without(ports[1..], p);
      }
    }
  }

  lemma WithoutContents(ports: seq<Port>, p: Port)
    requires Distinct(ports)
    ensures Distinct(Without(ports, p))
    ensures forall q :: q in Without(ports, p) <==> q in ports && q != p
  {
    WithoutDistinct(ports, p);
    forall q ensures q in Without(ports, p) <==> q in ports && q != p
    {
      WithoutMember(ports, p, q);
    }
  }

  lemma {:induction false} DistinctSplit(a: seq<Port>, p: Port, b: seq<Port>)
    requires Distinct(a + [p] + b)
    ensures p !in a && p !in b
  {
    var ports := a + [p] + b;
    if a == [] {
      assert ports[1..] == b;
    } else {
      assert ports[1..] == a[1..] + [p] + b;
      DistinctSplit(a[1..], p, b);
    }
  }

  lemma ClearSplitPair(front: seq<Rule>, p: Port, back: seq<Rule>)
    requires LoAccept(p) !in front && LoAccept(p) !in back && DropExternal(p) !in front && DropExternal(p) !in back
    ensures Cleared(front + [LoAccept(p), DropExternal(p)] + back, p) == front + back
    ensures Removed(front + [LoAccept(p), DropExternal(p)] + back, p) == 2
  {
    var lo, dr := LoAccept(p), DropExternal(p);
    assert front + [lo, dr] + back == front + [lo] + ([dr] + back);
    DeleteOnce(front, lo, [dr] + back);
    assert front + ([dr] + back) == front + [dr] + back;
    DeleteOnce(front, dr, back);
  }

  lemma ClearNothing(chain: seq<Rule>, p: Port)
    requires LoAccept(p) !in chain && DropExternal(p) !in chain
    ensures Cleared(chain, p) == chain && Removed(chain, p) == 0
  {
  }

  /** Clearing a port takes out exactly its pair and leaves every other rule in place. */
  lemma ClearPair(foreign: seq<Rule>, ports: seq<Port>, p: Port)
    requires AllForeign(foreign) && Distinct(ports)
    ensures Cleared(Pairs(ports) + foreign, p) == Pairs(Without(ports, p)) + foreign
    ensures Removed(Pairs(ports) + foreign, p) == (if p in ports then 2 else 0)
  {
    hide Cleared, Removed, Pairs, Without;
    var lo, dr := LoAccept(p), DropExternal(p);
    if p !in ports {
      PairsContents(ports, lo);
      PairsContents(ports, dr);
      WithoutAbsent(ports, p);
      ClearNothing(Pairs(ports) + foreign, p);
    } else {
      var i :| 0 <= i < |ports| && ports[i] == p;
      var a, b := ports[..i], ports[i + 1..];
      assert ports == a + [p] + b;
      DistinctSplit(a, p, b);
      SplitPairs(a, p, b);
      var front, back := Pairs(a), Pairs(b) + foreign;
      PairsContents(a, lo);
      PairsContents(a, dr);
      PairsContents(b, lo);
      PairsContents(b, dr);
      assert Pairs(ports) + foreign == front + [lo, dr] + back;
      ClearSplitPair(front, p, back);
      WithoutSplit(a, p, b);
      PairsConcat(a, b);
      assert front + back == Pairs(a + b) + foreign;
    }
  }

  lemma SplitPairs(a: seq<Port>, p: Port, b: seq<Port>)
    ensures Pairs(a + [p] + b) == Pairs(a) + [LoAccept(p), DropExternal(p)] + Pairs(b)
  {
    PairsConcat(a + [p], b);
    PairsConcat(a, [p]);
    assert Pairs([p]) == [LoAccept(p), DropExternal(p)] + Pairs([p][1..]);
  }

  // ------------------------------------------------------------------ the chain invariant

  /** The port's old rules gone and a new pair on top. */
  function WithPair(s: State, p: Port): State {
    State([LoAccept(p)] + ([DropExternal(p)] + Cleared(s.chain, p)), s.marker[p := true])
  }

  lemma AllOk(s: State, p: Port)
    ensures ProtectPort(s, p, ALL_OK) == (WithPair(s, p), Protected(true))
    ensures UnprotectPort(s, p, ALL_OK) == (State(Cleared(s.chain, p), s.marker - {p}), Unprotected(Removed(s.chain, p)))
  {
    hide DeleteUpTo;
  }

  lemma ProtectShape(s: State, foreign: seq<Rule>, ports: seq<Port>, p: Port)
    requires Shape(s, foreign, ports)
    ensures Shape(ProtectPort(s, p, ALL_OK).0, foreign, [p] + Without(ports, p))
    ensures ProtectPort(s, p, ALL_OK).1 == Protected(true)
  {
    hide Pairs, Cleared, Without, ProtectPort, WithPair, Distinct, AllForeign;
    AllOk(s, p);
    assert s == State(Pairs(ports) + foreign, s.marker);
    PairOnTop(foreign, ports, s.marker, p);
    WithoutContents(ports, p);
    assert (set q | q in [p] + Without(ports, p)) == s.marker.Keys + {p};
  }

  lemma UnprotectShape(s: State, foreign: seq<Rule>, ports: seq<Port>, p: Port)
    requires Shape(s, foreign, ports)
    ensures Shape(UnprotectPort(s, p, ALL_OK).0, foreign, Without(ports, p))
    ensures UnprotectPort(s, p, ALL_OK).1 == Unprotected(if p in ports then 2 else 0)
  {
    AllOk(s, p);
    hide UnprotectPort, Cleared, Removed, Pairs;
    ClearPair(foreign, ports, p);
    WithoutContents(ports, p);
  }

  lemma HandleShape(s: State, foreign: seq<Rule>, ports: seq<Port>, c: Command) returns (ports': seq<Port>)
    requires Shape(s, foreign, ports)
    ensures Shape(Handle(s, c, ALL_OK).0, foreign, ports')
  {
    ports' := ports;
    match c
    case Protect(p) =>
      if 1 <= p <= 65535 && p !in RESERVED {
        ProtectShape(s, foreign, ports, p);
        ports' := [p] + Without(ports, p);
      }
    case Unprotect(p) =>
      if 1 <= p <= 65535 {
        UnprotectShape(s, foreign, ports, p);
        ports' := Without(ports, p);
      }
  }

  lemma {:induction false} RunShape(s: State, foreign: seq<Rule>, ports: seq<Port>, commands: seq<Command>)
    returns (ports': seq<Port>)
    requires Shape(s, foreign, ports)
    ensures Shape(Run(s, commands), foreign, ports')
    decreases commands
  {
    hide Shape;
    ports' := ports;
    if commands != [] {
      ports' := HandleShape(s, foreign, ports, commands[0]);
      ports' := RunShape(Handle(s, commands[0], ALL_OK).0, foreign, ports', commands[1..]);
    }
  }

  /**
    Over every run of commands from an agent-free chain: the chain is one ACCEPT/DROP pair per port of the
    marker, ACCEPT directly before DROP, followed by the foreign rules untouched and in order.
    */
  lemma ChainInvariant(foreign: seq<Rule>, commands: seq<Command>) returns (ports: seq<Port>)
    requires AllForeign(foreign)
    ensures Shape(Run(State(foreign, map[]), commands), foreign, ports)
  {
    var s := State(foreign, map[]);
    NoPairs(foreign);
    assert Shape(s, foreign, []);
    ports := RunShape(s, foreign, [], commands);
  }

  /** What the shape says about counts: a port has exactly one ACCEPT and one DROP iff the marker holds it. */
  lemma {:induction false} ShapeCounts(foreign: seq<Rule>, ports: seq<Port>, p: Port)
    requires AllForeign(foreign) && Distinct(ports)
    ensures multiset(Pairs(ports) + foreign)[LoAccept(p)] == (if p in ports then 1 else 0)
    ensures multiset(Pairs(ports) + foreign)[DropExternal(p)] == (if p in ports then 1 else 0)
  {
    assert LoAccept(p) !in foreign && DropExternal(p) !in foreign;
    hide AllForeign, Pairs;
    if ports == [] {
      NoPairs(foreign);
    } else {
      ShapeCounts(foreign, ports[1..], p);
      PairsFirst(ports, foreign);
      assert p in ports <==> p == ports[0] || p in ports[1..];
    }
  }

  /** After any run a port has exactly one ACCEPT and one DROP rule when the marker holds it, and none otherwise. */
  lemma RuleCounts(foreign: seq<Rule>, commands: seq<Command>, p: Port)
    requires AllForeign(foreign)
    ensures var s := Run(State(foreign, map[]), commands);
            && multiset(s.chain)[LoAccept(p)] == (if p in s.marker then 1 else 0)
            && multiset(s.chain)[DropExternal(p)] == (if p in s.marker then 1 else 0)
            && forall r: Rule :: r.Foreign? ==> multiset(s.chain)[r] == multiset(foreign)[r]
  {
    var ports := ChainInvariant(foreign, commands);
    ShapeCounts(foreign, ports, p);
    forall r: Rule | r.Foreign? ensures multiset(Pairs(ports) + foreign)[r] == multiset(foreign)[r]
    {
      PairsContents(ports, r);
    }
  }

  // ------------------------------------------------------------------ verdicts

  /** The verdict of a shaped chain depends on the set of protected ports only, not on their order. */
  lemma {:induction false} ShapeVerdict(sem: Semantics, foreign: seq<Rule>, ports: seq<Port>, k: Packet)
    ensures VerdictOf(sem, Pairs(ports) + foreign, k) == Policy(sem, foreign, (set p | p in ports), k)
  {
    hide Pairs;
    if ports == [] {
      NoPairs(foreign);
    } else {
      var p := ports[0];
      var rest := Pairs(ports[1..]) + foreign;
      ShapeVerdict(sem, foreign, ports[1..], k);
      var chain := Pairs(ports) + foreign;
      PairsFirst(ports, foreign);
      assert chain[0] == LoAccept(p) && chain[1..] == [DropExternal(p)] + rest;
      assert chain[1..][0] == DropExternal(p) && chain[1..][1..] == rest;
      assert (set q | q in ports) == {p} + (set q | q in ports[1..]);
    }
  }

  /** In every reachable state each packet gets what the policy for the marker's ports prescribes. */
  lemma ReachableMeansPolicy(sem: Semantics, foreign: seq<Rule>, commands: seq<Command>, k: Packet)
    requires AllForeign(foreign)
    ensures var s := Run(State(foreign, map[]), commands);
            VerdictOf(sem, s.chain, k) == Policy(sem, foreign, Active(s.marker), k)
  {
    var ports := ChainInvariant(foreign, commands);
    var s := Run(State(foreign, map[]), commands);
    ShapeVerdict(sem, foreign, ports, k);
    assert Active(s.marker) == set p | p in ports;
  }

  // ------------------------------------------------------------------ restart

  function ActivePorts(entries: seq<(Port, bool)>): seq<Port> {
    if entries == [] then []
    else ActivePorts(entries[..|entries| - 1]) + (if entries[|entries| - 1].1 then [entries[|entries| - 1].0] else [])
  }

  function Reverse(ports: seq<Port>): seq<Port> {
    if ports == [] then [] else Reverse(ports[1..]) + [ports[0]]
  }

  lemma RestoreStep(s: State, entries: seq<(Port, bool)>)
    ensures Restore(s, entries)
         == if entries == [] then s
            else Restore(if entries[0].1 then WithPair(s, entries[0].0) else s, entries[1..])
  {
    if entries != [] {
      AllOk(s, entries[0].0);
      hide ProtectPort, Cleared;
    }
  }

  lemma PairOnTop(foreign: seq<Rule>, ports: seq<Port>, marker: map<Port, bool>, p: Port)
    requires AllForeign(foreign) && Distinct(ports)
    ensures Distinct([p] + Without(ports, p))
    ensures WithPair(State(Pairs(ports) + foreign, marker), p)
         == State(Pairs([p] + Without(ports, p)) + foreign, marker[p := true])
  {
    hide Pairs, Cleared, Without;
    ClearPair(foreign, ports, p);
    WithoutContents(ports, p);
    var next := [p] + Without(ports, p);
    assert next[1..] == Without(ports, p);
    PairsFirst(next, foreign);
    assert Pairs(next) + foreign == [LoAccept(p)] + ([DropExternal(p)] + Cleared(Pairs(ports) + foreign, p));
  }

  /** The chain after restoring: one pair per active entry of the marker, whatever the listing order. */
  lemma {:induction false} RestoreChain(foreign: seq<Rule>, ports: seq<Port>, marker: map<Port, bool>,
                                        entries: seq<(Port, bool)>) returns (ports': seq<Port>)
    requires AllForeign(foreign) && Distinct(ports)
    requires forall e :: e in entries ==> e.0 in marker && marker[e.0] == e.1
    ensures var s := Restore(State(Pairs(ports) + foreign, marker), entries);
            && Distinct(ports') && s == State(Pairs(ports') + foreign, marker)
            && forall p :: p in ports' <==> p in ports || (p, true) in entries
    decreases entries
  {
    ports' := ports;
    RestoreStep(State(Pairs(ports) + foreign, marker), entries);
    hide Restore, WithPair, Pairs;
    if entries != [] {
      var (p, active) := entries[0];
      assert entries[0] in entries;
      var next := ports;
      if active {
        PairOnTop(foreign, ports, marker, p);
        WithoutContents(ports, p);
        next := [p] + Without(ports, p);
        assert marker[p := true] == marker;
      }
      ports' := RestoreChain(foreign, next, marker, entries[1..]);
      assert forall q :: (q, true) in entries <==> (q == p && active) || (q, true) in entries[1..];
    }
  }

  /**
    Restart from any marker: after a flush back to the foreign rules and a restore, in whatever order the
    file lists its entries, the chain means the policy for the marker's active ports.
    */
  lemma RestoreMeansPolicy(sem: Semantics, foreign: seq<Rule>, marker: map<Port, bool>,
                           entries: seq<(Port, bool)>, k: Packet)
    requires AllForeign(foreign) && Lists(entries, marker)
    ensures var s := Restore(State(foreign, marker), entries);
            && s.marker == marker
            && VerdictOf(sem, s.chain, k) == Policy(sem, foreign, Active(marker), k)
  {
    NoPairs(foreign);
    var ports := RestoreChain(foreign, [], marker, entries);
    ShapeVerdict(sem, foreign, ports, k);
    assert Active(marker) == set p | p in ports;
  }

  /** Restart refinement: no packet can tell a restarted host from one that was never restarted. */
  lemma RestartKeepsVerdicts(sem: Semantics, foreign: seq<Rule>, commands: seq<Command>,
                             entries: seq<(Port, bool)>, k: Packet)
    requires AllForeign(foreign)
    requires Lists(entries, Run(State(foreign, map[]), commands).marker)
    ensures var s := Run(State(foreign, map[]), commands);
            VerdictOf(sem, Restore(s.(chain := foreign), entries).chain, k) == VerdictOf(sem, s.chain, k)
  {
    ReachableMeansPolicy(sem, foreign, commands, k);
    RestoreMeansPolicy(sem, foreign, Run(State(foreign, map[]), commands).marker, entries, k);
  }

  /** Nor one whose agent was restarted while the rules were still in place. */
  lemma AgentRestartKeepsVerdicts(sem: Semantics, foreign: seq<Rule>, commands: seq<Command>,
                                  entries: seq<(Port, bool)>, k: Packet)
    requires AllForeign(foreign)
    requires Lists(entries, Run(State(foreign, map[]), commands).marker)
    ensures var s := Run(State(foreign, map[]), commands);
            VerdictOf(sem, Restore(s, entries).chain, k) == VerdictOf(sem, s.chain, k)
  {
    var s := Run(State(foreign, map[]), commands);
    var ports := ChainInvariant(foreign, commands);
    var ports' := RestoreChain(foreign, ports, s.marker, entries);
    ShapeVerdict(sem, foreign, ports, k);
    ShapeVerdict(sem, foreign, ports', k);
    assert (set p | p in ports') == (set p | p in ports);
  }

  // ------------------------------------------------------------------ single commands

  /** Protecting twice is protecting once. */
  lemma ProtectIdempotent(s: State, foreign: seq<Rule>, ports: seq<Port>, p: Port)
    requires Shape(s, foreign, ports)
    ensures var t := ProtectPort(s, p, ALL_OK).0; ProtectPort(t, p, ALL_OK).0 == t
  {
    AllOk(s, p);
    AllOk(WithPair(s, p), p);
    WithoutTwice(ports, p);
    PairOnTop(foreign, ports, s.marker, p);
    PairOnTop(foreign, [p] + Without(ports, p), s.marker[p := true], p);
    hide Pairs, Without, ProtectPort, WithPair, Distinct, AllForeign;
  }

  lemma WithoutTwice(ports: seq<Port>, p: Port)
    requires Distinct(ports)
    ensures Without([p] + Without(ports, p), p) == Without(ports, p)
  {
    WithoutContents(ports, p);
    WithoutAbsent(Without(ports, p), p);
    assert ([p] + Without(ports, p))[1..] == Without(ports, p);
  }

  /** Unprotect undoes protect of a fresh port, rule for rule. */
  lemma UnprotectUndoesProtect(s: State, foreign: seq<Rule>, ports: seq<Port>, p: Port)
    requires Shape(s, foreign, ports) && p !in s.marker
    ensures UnprotectPort(ProtectPort(s, p, ALL_OK).0, p, ALL_OK).0 == s
  {
    var t := ProtectPort(s, p, ALL_OK).0;
    AllOk(s, p);
    AllOk(t, p);
    hide Pairs, Without, Distinct, Cleared, AllForeign, ProtectPort, UnprotectPort;
    var u := UnprotectPort(t, p, ALL_OK).0;
    assert s.marker[p := true] - {p} == s.marker;
    assert u.marker == s.marker;
    ProtectShape(s, foreign, ports, p);
    WithoutAbsent(ports, p);
    UnprotectShape(t, foreign, [p] + ports, p);
    WithoutFirst(ports, p);
  }

  lemma WithoutFirst(ports: seq<Port>, p: Port)
    requires p !in ports
    ensures Without([p] + ports, p) == ports
  {
    assert ([p] + ports)[1..] == ports;
    WithoutAbsent(ports, p);
  }

  ghost predicate Blind(sem: Semantics, r: Rule, k: Packet) {
    Match(sem, r, k) == Pass
  }

  lemma {:induction false} DeleteBlind(sem: Semantics, chain: seq<Rule>, r: Rule, k: Packet)
    requires Blind(sem, r, k)
    ensures VerdictOf(sem, DeleteFirst(chain, r), k) == VerdictOf(sem, chain, k)
  {
    if chain != [] && chain[0] != r {
      DeleteBlind(sem, chain[1..], r, k);
    }
  }

  lemma {:induction false} DeleteUpToBlind(sem: Semantics, chain: seq<Rule>, r: Rule, n: nat, k: Packet)
    requires Blind(sem, r, k)
    ensures VerdictOf(sem, DeleteUpTo(chain, r, n).0, k) == VerdictOf(sem, chain, k)
    decreases n
  {
    if n > 0 && r in chain {
      DeleteBlind(sem, chain, r, k);
      DeleteUpToBlind(sem, DeleteFirst(chain, r), r, n - 1, k);
    }
  }

  function PortOf(c: Command): int {
    c.port
  }

  lemma DeletedBlind(sem: Semantics, chain: seq<Rule>, r: Rule, halt: Halt, k: Packet)
    requires Blind(sem, r, k)
    ensures VerdictOf(sem, Deleted(chain, r, halt).0, k) == VerdictOf(sem, chain, k)
  {
    var n := Tries(halt, DELETE_TRIES);
    DeleteUpToBlind(sem, chain, r, n, k);
    DeleteBlind(sem, DeleteUpTo(chain, r, n).0, r, k);
  }

  lemma InsertedBlind(sem: Semantics, s: State, p: Port, luck: Luck, k: Packet)
    requires !(k.tcp && k.dport == p)
    ensures VerdictOf(sem, Inserted(s, p, luck).0.chain, k) == VerdictOf(sem, s.chain, k)
  {
    var d := [DropExternal(p)] + s.chain;
    assert d[1..] == s.chain;
    var a := [LoAccept(p)] + d;
    assert a[1..] == d;
  }

  /**
    From any chain whatsoever, and whichever calls fail - deletions included - a command for one port never changes
    the verdict of a packet for another port or protocol.
    */
  lemma OtherPacketsUnaffected(sem: Semantics, s: State, c: Command, luck: Luck, k: Packet)
    requires !(k.tcp && k.dport == PortOf(c))
    ensures VerdictOf(sem, Handle(s, c, luck).0.chain, k) == VerdictOf(sem, s.chain, k)
  {
    if 1 <= c.port <= 65535 {
      var lo, dr := LoAccept(c.port), DropExternal(c.port);
      var c1 := Deleted(s.chain, lo, luck.lo).0;
      var c2 := Deleted(c1, dr, luck.drop).0;
      DeletedBlind(sem, s.chain, lo, luck.lo, k);
      DeletedBlind(sem, c1, dr, luck.drop, k);
      InsertedBlind(sem, s.(chain := c2), c.port, luck, k);
      hide Deleted, Inserted, VerdictOf;
    }
  }

  /** Loopback gets in, anything from outside the Docker range does not. */
  predicate Enforced(sem: Semantics, chain: seq<Rule>, p: Port, k: Packet) {
    k.tcp && k.dport == p ==>
      && (k.loopback ==> VerdictOf(sem, chain, k) == Accept)
      && (!k.loopback && !InDockerCidr(k.src) ==> VerdictOf(sem, chain, k) == Drop)
  }

  /** From any chain, whichever deletions fail: a port answered as protected is protected, stale rules or not. */
  lemma ProtectedIsEnforced(sem: Semantics, s: State, p: Port, luck: Luck, k: Packet)
    requires ProtectPort(s, p, luck).1.Protected?
    ensures Enforced(sem, ProtectPort(s, p, luck).0.chain, p, k)
  {
    hide Deleted;
    var chain := ProtectPort(s, p, luck).0.chain;
    var d := [DropExternal(p)] + chain[2..];
    assert chain == [LoAccept(p)] + d;
    assert chain[1..] == d && d[0] == DropExternal(p);
    hide ProtectPort;
    if k.tcp && k.dport == p && !k.loopback && !InDockerCidr(k.src) {
      assert VerdictOf(sem, d, k) == Drop;
    }
  }

  /** The restore reaches entry i and answers it as protected. */
  predicate Reaches(s: State, entries: seq<(Port, bool)>, lucks: seq<Luck>, i: nat)
    requires i < |entries|
    decreases entries
  {
    var (p, active) := entries[0];
    var (t, reply) := ProtectPort(s, p, First(lucks));
    if i == 0 then active && reply.Protected?
    else if !active then Reaches(s, entries[1..], Later(lucks), i - 1)
    else reply != Malformed && Reaches(t, entries[1..], Later(lucks), i - 1)
  }

  lemma {:induction false} RestoreBlind(sem: Semantics, s: State, entries: seq<(Port, bool)>, lucks: seq<Luck>, k: Packet)
    requires forall e :: e in entries ==> !(k.tcp && k.dport == e.0)
    ensures VerdictOf(sem, RestoreWith(s, entries, lucks).chain, k) == VerdictOf(sem, s.chain, k)
    decreases entries
  {
    hide Deleted, Inserted, VerdictOf;
    if entries != [] {
      var (p, active) := entries[0];
      assert entries[0] in entries;
      var (t, reply) := ProtectPort(s, p, First(lucks));
      ProtectBlind(sem, s, p, First(lucks), k);
      hide ProtectPort;
      if !active {
        RestoreBlind(sem, s, entries[1..], Later(lucks), k);
      } else if reply != Malformed {
        RestoreBlind(sem, t, entries[1..], Later(lucks), k);
      }
    }
  }

  lemma ProtectBlind(sem: Semantics, s: State, p: Port, luck: Luck, k: Packet)
    requires !(k.tcp && k.dport == p)
    ensures VerdictOf(sem, ProtectPort(s, p, luck).0.chain, k) == VerdictOf(sem, s.chain, k)
  {
    var c1 := Deleted(s.chain, LoAccept(p), luck.lo).0;
    var c2 := Deleted(c1, DropExternal(p), luck.drop).0;
    DeletedBlind(sem, s.chain, LoAccept(p), luck.lo, k);
    DeletedBlind(sem, c1, DropExternal(p), luck.drop, k);
    InsertedBlind(sem, s.(chain := c2), p, luck, k);
    hide Deleted, Inserted, VerdictOf;
  }

  /**
    A restore in which calls fail still protects every port whose own turn came and was answered as protected, whatever
    happens to the others: failed deletions, failed insertions, marker writes torn on the way.
    */
  lemma {:induction false} FailingRestoreProtects(sem: Semantics, s: State, entries: seq<(Port, bool)>, lucks: seq<Luck>,
                                                  i: nat, k: Packet)
    requires i < |entries| && Reaches(s, entries, lucks, i)
    requires forall j, l :: 0 <= j < l < |entries| ==> entries[j].0 != entries[l].0
    ensures Enforced(sem, RestoreWith(s, entries, lucks).chain, entries[i].0, k)
    decreases entries
  {
    hide ProtectPort, VerdictOf;
    var (p, active) := entries[0];
    var (t, reply) := ProtectPort(s, p, First(lucks));
    if i == 0 {
      ProtectedIsEnforced(sem, s, p, First(lucks), k);
      if k.tcp && k.dport == p {
        RestoreBlind(sem, t, entries[1..], Later(lucks), k);
      }
    } else {
      FailingRestoreProtects(sem, if active then t else s, entries[1..], Later(lucks), i - 1, k);
    }
  }

  // ------------------------------------------------------------------ which commands take effect

  /**
    From any state, with every call succeeding: a port outside 1 to 65535 and, for protect, the ports of SSH, HTTP,
    HTTPS and the console are refused and nothing changes; every other port is protected, recorded and enforced.
    Unprotect takes any port out of the marker.
    */
  lemma CommandsTakeEffect(sem: Semantics, s: State, p: int, k: Packet)
    ensures var (t, reply) := Handle(s, Protect(p), ALL_OK);
            if !(1 <= p <= 65535) then t == s && reply == InvalidPort
            else if p in {22, 80, 443, 5000} then t == s && reply == ReservedPort
            else reply == Protected(true) && t.marker == s.marker[p := true] && Enforced(sem, t.chain, p, k)
    ensures var (t, reply) := Handle(s, Unprotect(p), ALL_OK);
            if !(1 <= p <= 65535) then t == s && reply == InvalidPort
            else reply.Unprotected? && t.marker == s.marker - {p}
  {
    if 1 <= p <= 65535 {
      AllOk(s, p);
      ProtectedIsEnforced(sem, s, p, ALL_OK, k);
      hide ProtectPort, UnprotectPort, Enforced, Cleared, Removed;
    }
  }

  function Count(chain: seq<Rule>, r: Rule): nat {
    if chain == [] then 0 else (if chain[0] == r then 1 else 0) + Count(chain[1..], r)
  }

  /** The rules that are not the agent's for that port, in order. */
  function Others(chain: seq<Rule>, p: Port): seq<Rule> {
    if chain == [] then []
    else (if chain[0] in {LoAccept(p), DropExternal(p)} then [] else [chain[0]]) + Others(chain[1..], p)
  }

  lemma {:induction false} DeleteFirstCounts(chain: seq<Rule>, r: Rule, q: Rule, p: Port)
    requires r in {LoAccept(p), DropExternal(p)}
    ensures r in chain <==> Count(chain, r) > 0
    ensures Count(DeleteFirst(chain, r), q) == Count(chain, q) - (if q == r && r in chain then 1 else 0)
    ensures Others(DeleteFirst(chain, r), p) == Others(chain, p)
  {
    if chain != [] {
      DeleteFirstCounts(chain[1..], r, q, p);
      if chain[0] != r {
        assert DeleteFirst(chain, r)[1..] == DeleteFirst(chain[1..], r);
      }
    }
  }

  lemma {:induction false} DeleteUpToCounts(chain: seq<Rule>, r: Rule, n: nat, q: Rule, p: Port)
    requires r in {LoAccept(p), DropExternal(p)}
    ensures var (c, m) := DeleteUpTo(chain, r, n);
            && m == (if Count(chain, r) < n then Count(chain, r) else n)
            && Count(c, q) == Count(chain, q) - (if q == r then m else 0)
            && Others(c, p) == Others(chain, p)
    decreases n
  {
    hide DeleteFirst, Count, Others;
    DeleteFirstCounts(chain, r, r, p);
    DeleteFirstCounts(chain, r, q, p);
    if n > 0 && r in chain {
      DeleteUpToCounts(DeleteFirst(chain, r), r, n - 1, q, p);
    }
  }

  /**
    From any chain, however it got there: unprotect takes out the first ten rules of each kind for the port and reports
    how many, leaving all others in order, and protect puts a new pair on top of the same.
    */
  lemma TenOfEachGo(s: State, p: Port)
    requires p !in {22, 80, 443, 5000}
    ensures var lo, dr := Count(s.chain, LoAccept(p)), Count(s.chain, DropExternal(p));
            var (t, reply) := Handle(s, Unprotect(p), ALL_OK);
            && reply == Unprotected((if lo < 10 then lo else 10) + if dr < 10 then dr else 10)
            && Count(t.chain, LoAccept(p)) == (if lo < 10 then 0 else lo - 10)
            && Count(t.chain, DropExternal(p)) == (if dr < 10 then 0 else dr - 10)
            && Others(t.chain, p) == Others(s.chain, p)
            && Handle(s, Protect(p), ALL_OK).0.chain == [LoAccept(p)] + ([DropExternal(p)] + t.chain)
  {
    var lo, dr := LoAccept(p), DropExternal(p);
    var c := DeleteUpTo(s.chain, lo, 10).0;
    AllOk(s, p);
    hide ProtectPort, UnprotectPort, Count, Others, DeleteUpTo;
    DeleteUpToCounts(s.chain, lo, 10, lo, p);
    DeleteUpToCounts(s.chain, lo, 10, dr, p);
    DeleteUpToCounts(c, dr, 10, lo, p);
    DeleteUpToCounts(c, dr, 10, dr, p);
  }

  /**
    A protect one of whose insertions fails records nothing. Nothing new is in the chain when the first fails, unless
    it timed out too late; when the second does, the port is closed to loopback too.
    */
  lemma FailedInsertionsShow(sem: Semantics, s: State, p: Port, luck: Luck, k: Packet)
    requires p !in {22, 80, 443, 5000} && luck.lo == NoHalt && luck.drop == NoHalt
    requires luck.insertDrop != Done || luck.insertAccept != Done
    ensures var base := Handle(s, Unprotect(p), ALL_OK).0.chain;
            var (t, reply) := Handle(s, Protect(p), luck);
            var failing := if luck.insertDrop != Done then luck.insertDrop else luck.insertAccept;
            && t.marker == s.marker
            && reply == (if failing == Refused then InsertFailed else Malformed)
            && (luck.insertDrop in {Refused, Raises(false)} ==> t.chain == base)
            && (luck.insertDrop == Raises(true) ==> t.chain == [DropExternal(p)] + base)
            && (luck.insertDrop == Done && luck.insertAccept == Raises(true) ==>
                  t.chain == [LoAccept(p)] + ([DropExternal(p)] + base))
            && (luck.insertDrop == Done && luck.insertAccept in {Refused, Raises(false)} ==>
                  && t.chain == [DropExternal(p)] + base
                  && (k.tcp && k.dport == p && k.loopback && !InDockerCidr(k.src) ==> VerdictOf(sem, t.chain, k) == Drop))
  {
    AllOk(s, p);
    assert Deleted(s.chain, LoAccept(p), NoHalt) == (DeleteUpTo(s.chain, LoAccept(p), 10).0, DeleteUpTo(s.chain, LoAccept(p), 10).1, false);
    hide UnprotectPort, DeleteUpTo;
  }

  /** With both insertions in, the rules are there and recorded; the check decides only what is answered. */
  lemma CheckDecidesReply(s: State, p: Port, check: Check)
    requires p !in {22, 80, 443, 5000}
    ensures var (t, reply) := Handle(s, Protect(p), ALL_OK.(check := check));
            && t == Handle(s, Protect(p), ALL_OK).0
            && reply == if check == Runs then Protected(true) else if check == Errs then Protected(false) else Malformed
  {
    AllOk(s, p);
    hide Deleted;
  }

  /** How many of that many equal rules a deletion loop takes out, and whether it ends in an exception. */
  function Taken(halt: Halt, count: nat): nat {
    var most := if halt.NoHalt? || halt.n > 10 then 10 else halt.n;
    if count < most then count else most
  }

  predicate TimesOutIn(halt: Halt, count: nat) {
    halt.RaisesAfter? && halt.n < 10 && halt.n <= count
  }

  lemma DeletedCounts(chain: seq<Rule>, r: Rule, halt: Halt, q: Rule, p: Port)
    requires r in {LoAccept(p), DropExternal(p)}
    ensures var (c, m, raised) := Deleted(chain, r, halt);
            && raised == TimesOutIn(halt, Count(chain, r)) && m == Taken(halt, Count(chain, r))
            && (!raised ==> Count(c, q) == Count(chain, q) - (if q == r then m else 0) && Others(c, p) == Others(chain, p))
  {
    hide Count, Others, DeleteUpTo, DeleteFirst;
    DeleteUpToCounts(chain, r, Tries(halt, 10), q, p);
  }

  /** An unprotect whose deletions fail: a refusal ends its own loop only, a timeout ends the command, with nothing recorded. */
  lemma HaltedUnprotect(s: State, p: Port, luck: Luck)
    ensures var lo, dr := Count(s.chain, LoAccept(p)), Count(s.chain, DropExternal(p));
            var (t, reply) := Handle(s, Unprotect(p), luck);
            if TimesOutIn(luck.lo, lo) || TimesOutIn(luck.drop, dr) then reply == Malformed && t.marker == s.marker
            else
              && reply == Unprotected(Taken(luck.lo, lo) + Taken(luck.drop, dr))
              && Count(t.chain, LoAccept(p)) == lo - Taken(luck.lo, lo)
              && Count(t.chain, DropExternal(p)) == dr - Taken(luck.drop, dr)
              && Others(t.chain, p) == Others(s.chain, p)
  {
    var lo, dr := LoAccept(p), DropExternal(p);
    var c := Deleted(s.chain, lo, luck.lo).0;
    DeletedCounts(s.chain, lo, luck.lo, lo, p);
    DeletedCounts(s.chain, lo, luck.lo, dr, p);
    DeletedCounts(c, dr, luck.drop, lo, p);
    DeletedCounts(c, dr, luck.drop, dr, p);
    hide Deleted, Count, Others, Taken, TimesOutIn, Written, Found;
  }

  /** A deletion of the first rule that times out ends the command there; the rule it was about may be gone. */
  lemma TimedOutUnprotect(s: State, p: Port, luck: Luck)
    requires TimesOutIn(luck.lo, Count(s.chain, LoAccept(p)))
    ensures var left := Count(s.chain, LoAccept(p)) - luck.lo.n;
            var (t, reply) := Handle(s, Unprotect(p), luck);
            && reply == Malformed && t.marker == s.marker
            && Count(t.chain, LoAccept(p)) == (if luck.lo.took && left > 0 then left - 1 else left)
            && Count(t.chain, DropExternal(p)) == Count(s.chain, DropExternal(p))
            && Others(t.chain, p) == Others(s.chain, p)
  {
    var lo, dr := LoAccept(p), DropExternal(p);
    var c := DeleteUpTo(s.chain, lo, luck.lo.n).0;
    hide Count, Others, DeleteUpTo, DeleteFirst;
    DeleteUpToCounts(s.chain, lo, luck.lo.n, lo, p);
    DeleteUpToCounts(s.chain, lo, luck.lo.n, dr, p);
    DeleteFirstCounts(c, lo, lo, p);
    DeleteFirstCounts(c, lo, dr, p);
  }

  /** Command i protects the port and none after it unprotects it. */
  ghost predicate StaysProtected(commands: seq<Command>, p: Port, i: int) {
    0 <= i < |commands| && commands[i] == Protect(p) && Unprotect(p) !in commands[i + 1..]
  }

  /** The last command that names the port and takes effect is a protect. */
  ghost predicate EndsProtected(commands: seq<Command>, p: Port) {
    p !in {22, 80, 443, 5000} && exists i :: StaysProtected(commands, p, i)
  }

  lemma StaysProtectedLater(commands: seq<Command>, p: Port, i: int)
    requires commands != []
    ensures i >= 0 ==> (StaysProtected(commands, p, i + 1) <==> StaysProtected(commands[1..], p, i))
    ensures i < 0 ==> (StaysProtected(commands, p, i + 1) <==> i == -1 && commands[0] == Protect(p) && Unprotect(p) !in commands[1..])
  {
    if i >= 0 && i + 1 < |commands| {
      assert commands[1..][i + 1..] == commands[i + 1 + 1..];
    }
  }

  lemma EndsProtectedStep(commands: seq<Command>, p: Port)
    requires commands != []
    ensures EndsProtected(commands, p) <==>
              EndsProtected(commands[1..], p)
              || (commands[0] == Protect(p) && p !in {22, 80, 443, 5000} && Unprotect(p) !in commands[1..])
  {
    hide StaysProtected;
    if exists i :: StaysProtected(commands, p, i) {
      var i :| StaysProtected(commands, p, i);
      StaysProtectedLater(commands, p, i - 1);
    }
    if exists i :: StaysProtected(commands[1..], p, i) {
      var i :| StaysProtected(commands[1..], p, i);
      NotNegative(commands[1..], p, i);
      StaysProtectedLater(commands, p, i);
    }
    StaysProtectedLater(commands, p, -1);
  }

  lemma NotNegative(commands: seq<Command>, p: Port, i: int)
    requires StaysProtected(commands, p, i)
    ensures i >= 0
  {
  }

  /** After any run the marker holds exactly the ports that were in it and not taken out, and those that end protected. */
  lemma {:induction false} MarkerAfterRun(s: State, commands: seq<Command>, p: Port)
    ensures p in Run(s, commands).marker <==> EndsProtected(commands, p) || (p in s.marker && Unprotect(p) !in commands)
    decreases commands
  {
    if commands != [] {
      var c, rest := commands[0], commands[1..];
      EndsProtectedStep(commands, p);
      CommandsTakeEffect((tag, k) => Pass, s, c.port, Packet(true, true, 0, 0));
      hide Handle, EndsProtected, Enforced;
      MarkerAfterRun(Handle(s, c, ALL_OK).0, rest, p);
    }
  }

  /**
    From the commands alone, over any run from an agent-free chain: a TCP packet to a port that ends protected is let in
    from loopback and dropped from outside 172.16.0.0 to 172.31.255.255; for every other packet, those to the four
    reserved ports included, the foreign rules decide as if there were no agent.
    */
  lemma CommandsDecideVerdicts(sem: Semantics, foreign: seq<Rule>, commands: seq<Command>, k: Packet)
    requires AllForeign(foreign)
    ensures var closed := k.tcp && 1 <= k.dport <= 65535 && EndsProtected(commands, k.dport);
            VerdictOf(sem, Run(State(foreign, map[]), commands).chain, k)
            == if closed && k.loopback then Accept
               else if closed && !(2_886_729_728 <= k.src < 2_887_778_304) then Drop
               else VerdictOf(sem, foreign, k)
  {
    var s := State(foreign, map[]);
    var t := Run(s, commands);
    ReachableMeansPolicy(sem, foreign, commands, k);
    var ports := ChainInvariant(foreign, commands);
    if 1 <= k.dport <= 65535 {
      MarkerAfterRun(s, commands, k.dport);
    }
    assert k.dport in Active(t.marker) <==> 1 <= k.dport <= 65535 && k.dport in t.marker;
    hide VerdictOf, Run, EndsProtected;
  }

  // ------------------------------------------------------------------ the marker file

  /** The object json.dump writes for the marker. */
  function MarkerFields(entries: seq<(Port, bool)>): RawLog.Fields {
    if entries == [] then RawLog.NoFields
    else RawLog.Field(Decimal.Dec(entries[0].0), RawLog.Word(if entries[0].1 then "true" else "false"), MarkerFields(entries[1..]))
  }

  lemma {:induction false} MarkerIsSpelled(entries: seq<(Port, bool)>)
    ensures RawLog.FieldsSpelled(MarkerFields(entries))
  {
    if entries != [] {
      MarkerIsSpelled(entries[1..]);
      assert Json.IsAtom("true") && Json.IsAtom("false");
    }
  }

  /** Why a torn write reads as no ports: no proper prefix of the marker's text, the empty one included, is JSON. */
  lemma TornMarkerDoesNotLoad(entries: seq<(Port, bool)>, written: string)
    requires written < RawLog.Dumps(RawLog.Dict(MarkerFields(entries)))
    ensures Json.Loads(written) == Json.Loads([]) && Json.Loads(written).None?
  {
    var d := RawLog.Dict(MarkerFields(entries));
    MarkerIsSpelled(entries);
    RawLog.TreeOk(d);
    Json.EmptyIsNoDocument();
    if written != [] {
      var text := RawLog.Dumps(d);
      assert written + text[|written|..] == text;
      Json.ProperPrefixIsNoDocument(RawLog.Tree(d), written, text[|written|..]);
    }
  }

  /** What a restart makes of a marker: the foreign rules, and a restore from the file's entries. */
  lemma RestartBlocks(foreign: seq<Rule>, marker: map<Port, bool>, entries: seq<(Port, bool)>, q: Port)
    requires AllForeign(foreign) && Lists(entries, marker)
    ensures IsBlocked(Restore(State(foreign, marker), entries).chain, q) <==> q in Active(marker)
  {
    hide RestoreWith;
    NoPairs(foreign);
    var ports := RestoreChain(foreign, [], marker, entries);
    PairsContents(ports, DropExternal(q));
    assert (q, true) in entries <==> q in Active(marker);
    assert DropExternal(q) in Pairs(ports) + foreign <==> DropExternal(q) in Pairs(ports);
  }

  /** The marker write keeps what the command did not name: not torn, and not of a marker that could not be read. */
  predicate KeepsOthers(luck: Luck) {
    luck.save == Untouched || (luck.save == Saved && luck.load == Loaded)
  }

  /**
    From any state and whichever calls fail, a port answered as protected is blocked after a restart exactly when the
    marker was saved, or was left alone and already held it; every other protected port stays so exactly when the file
    was left alone, or was read and saved.
    */
  lemma ProtectionSurvivesRestartIff(s: State, foreign: seq<Rule>, p: Port, luck: Luck, entries: seq<(Port, bool)>)
    requires AllForeign(foreign) && ProtectPort(s, p, luck).1.Protected?
    requires Lists(entries, ProtectPort(s, p, luck).0.marker)
    ensures var after := Restore(State(foreign, ProtectPort(s, p, luck).0.marker), entries).chain;
            && (IsBlocked(after, p) <==> luck.save == Saved || (luck.save == Untouched && p in Active(s.marker)))
            && forall q: Port :: q != p ==> (IsBlocked(after, q) <==> KeepsOthers(luck) && q in Active(s.marker))
  {
    hide Deleted, Restore, IsBlocked;
    var marker := ProtectPort(s, p, luck).0.marker;
    assert marker == Written(s.marker, Found(s.marker, luck.load)[p := true], luck.save);
    hide ProtectPort;
    forall q: Port
      ensures IsBlocked(Restore(State(foreign, marker), entries).chain, q) <==> q in Active(marker)
    {
      RestartBlocks(foreign, marker, entries, q);
    }
  }

  /**
    The twin for unprotect: the port is open after a restart exactly when the write went through or tore the file, or
    the marker did not hold it as protected; every other protected port stays so under the same condition as above.
    */
  lemma UnprotectionSurvivesRestartIff(s: State, foreign: seq<Rule>, p: Port, luck: Luck, entries: seq<(Port, bool)>)
    requires AllForeign(foreign) && UnprotectPort(s, p, luck).1.Unprotected?
    requires Lists(entries, UnprotectPort(s, p, luck).0.marker)
    ensures var after := Restore(State(foreign, UnprotectPort(s, p, luck).0.marker), entries).chain;
            && (!IsBlocked(after, p) <==> luck.save == Saved || luck.save == Torn || p !in Active(s.marker))
            && forall q: Port :: q != p ==> (IsBlocked(after, q) <==> KeepsOthers(luck) && q in Active(s.marker))
  {
    hide Deleted, Restore, IsBlocked;
    var marker := UnprotectPort(s, p, luck).0.marker;
    assert marker == Written(s.marker, Found(s.marker, luck.load) - {p}, luck.save);
    hide UnprotectPort;
    forall q: Port
      ensures IsBlocked(Restore(State(foreign, marker), entries).chain, q) <==> q in Active(marker)
    {
      RestartBlocks(foreign, marker, entries, q);
    }
  }

  /**
    Protecting a second port while the marker cannot be read: answered as protected, and after a restart the second
    port is blocked and the first is open.
    */
  lemma UnreadableMarkerForgets(foreign: seq<Rule>, q: Port, p: Port)
    requires AllForeign(foreign) && p != q
    ensures var s := ProtectPort(State(foreign, map[]), q, ALL_OK).0;
            var (t, reply) := ProtectPort(s, p, ALL_OK.(load := Unreadable));
            var after := Restore(State(foreign, t.marker), [(p, true)]).chain;
            && q in Active(s.marker) && reply == Protected(true) && Lists([(p, true)], t.marker)
            && IsBlocked(after, p) && !IsBlocked(after, q)
  {
    var s := ProtectPort(State(foreign, map[]), q, ALL_OK).0;
    hide Deleted, Restore;
    AllOk(State(foreign, map[]), q);
    var luck := ALL_OK.(load := Unreadable);
    var (t, reply) := ProtectPort(s, p, luck);
    assert reply == Protected(true) by {
      AllOk(s, p);
    }
    assert t.marker == map[p := true];
    var entries := [(p, true)];
    assert Lists(entries, t.marker);
    hide ProtectPort, IsBlocked, Lists, Cleared;
    ProtectionSurvivesRestartIff(s, foreign, p, luck, entries);
  }

  /** Protecting a protected port again, with a write that tears the marker: answered as protected, open after a restart. */
  lemma TornWriteForgets(foreign: seq<Rule>, p: Port)
    requires AllForeign(foreign)
    ensures var s := ProtectPort(State(foreign, map[]), p, ALL_OK).0;
            var (t, reply) := ProtectPort(s, p, ALL_OK.(save := Torn));
            && p in Active(s.marker) && reply == Protected(true)
            && !IsBlocked(Restore(State(foreign, t.marker), []).chain, p)
  {
    var s := ProtectPort(State(foreign, map[]), p, ALL_OK).0;
    hide Deleted;
    AllOk(State(foreign, map[]), p);
    assert ProtectPort(s, p, ALL_OK).1 == Protected(true) by {
      AllOk(s, p);
    }
    hide Cleared;
  }

  // ------------------------------------------------------------------ the agent

  class Agent {
    var chain: seq<Rule>
    var marker: map<Port, bool>

    ghost function View(): State
      reads this
    {
      State(chain, marker)
    }

    /** for _ in range(n): iptables -D ...; break on failure. */
    method DeleteLoop(r: Rule, halt: Halt, n: nat) returns (removed: nat, raised: bool)
      modifies this`chain
      ensures (chain, removed, raised) == DeletedIn(old(chain), r, halt, n)
    {
      hide DeleteFirst;
      removed, raised := 0, false;
      ghost var tries := Tries(halt, n);
      var i := 0;
      while i < n
        invariant i <= tries && removed == i && !raised
        invariant DeleteUpTo(old(chain), r, tries)
               == (DeleteUpTo(chain, r, tries - i).0, removed + DeleteUpTo(chain, r, tries - i).1)
      {
        if halt.RaisesAfter? && halt.n == i {
          if halt.took {
            chain := DeleteFirst(chain, r);
          }
          raised := true;
          return;
        }
        if halt.RefusedAfter? && halt.n == i {
          break;
        }
        if r !in chain {
          break;
        }
        chain := DeleteFirst(chain, r);
        removed := removed + 1;
        i := i + 1;
      }
    }

    method LoadMarker(load: Read) returns (ports: map<Port, bool>)
      ensures ports == Found(marker, load)
    {
      ports := map[];
      if load == Loaded {
        ports := marker;
      }
    }

    method SaveMarker(updated: map<Port, bool>, w: Write)
      modifies this`marker
      ensures marker == Written(old(marker), updated, w)
    {
      match w
      case Saved => marker := updated;
      case Untouched =>
      case Torn => marker := map[];
    }

    method ProtectHostPort(p: Port, luck: Luck) returns (reply: Reply)
      modifies this
      ensures (View(), reply) == ProtectPort(old(View()), p, luck)
    {
      hide DeletedIn;
      var m, raised := DeleteLoop(LoAccept(p), luck.lo, DELETE_TRIES);
      if raised {
        return Malformed;
      }
      m, raised := DeleteLoop(DropExternal(p), luck.drop, DELETE_TRIES);
      if raised {
        return Malformed;
      }
      if luck.insertDrop == Done || luck.insertDrop == Raises(true) {
        chain := [DropExternal(p)] + chain;
      }
      if luck.insertDrop != Done {
        return if luck.insertDrop == Refused then InsertFailed else Malformed;
      }
      if luck.insertAccept == Done || luck.insertAccept == Raises(true) {
        chain := [LoAccept(p)] + chain;
      }
      if luck.insertAccept != Done {
        return if luck.insertAccept == Refused then InsertFailed else Malformed;
      }
      var ports := LoadMarker(luck.load);
      SaveMarker(ports[p := true], luck.save);
      match luck.check
      case Runs => return Protected(DropExternal(p) in chain);
      case Errs => return Protected(false);
      case TimesOut => return Malformed;
    }

    method UnprotectHostPort(p: Port, luck: Luck) returns (reply: Reply)
      modifies this
      ensures (View(), reply) == UnprotectPort(old(View()), p, luck)
    {
      hide DeletedIn;
      var m, raised := DeleteLoop(LoAccept(p), luck.lo, DELETE_TRIES);
      if raised {
        return Malformed;
      }
      var n: nat;
      n, raised := DeleteLoop(DropExternal(p), luck.drop, DELETE_TRIES);
      if raised {
        return Malformed;
      }
      var ports := LoadMarker(luck.load);
      SaveMarker(ports - {p}, luck.save);
      return Unprotected(m + n);
    }

    method HandleCommand(c: Command, luck: Luck) returns (reply: Reply)
      modifies this
      ensures (View(), reply) == Handle(old(View()), c, luck)
    {
      hide ProtectPort, UnprotectPort;
      match c
      case Protect(p) =>
        if !(1 <= p <= 65535) {
          return InvalidPort;
        }
        if p in RESERVED {
          return ReservedPort;
        }
        reply := ProtectHostPort(p, luck);
      case Unprotect(p) =>
        if !(1 <= p <= 65535) {
          return InvalidPort;
        }
        reply := UnprotectHostPort(p, luck);
    }

    /** At start-up; `entries` is the marker file as loaded, `lucks` how the calls for each entry fare. */
    method RestoreProtectedPorts(entries: seq<(Port, bool)>, lucks: seq<Luck>)
      modifies this
      ensures View() == RestoreWith(old(View()), entries, lucks)
    {
      hide ProtectPort;
      var i := 0;
      ghost var left := lucks;
      while i < |entries|
        invariant i <= |entries|
        invariant left == if i <= |lucks| then lucks[i..] else []
        invariant RestoreWith(View(), entries[i..], left) == RestoreWith(old(View()), entries, lucks)
      {
        var (p, active) := entries[i];
        assert entries[i..][0] == entries[i] && entries[i..][1..] == entries[i + 1..];
        if active {
          var reply := ProtectHostPort(p, if i < |lucks| then lucks[i] else ALL_OK);
          if reply == Malformed {
            return;
          }
        }
        left := Later(left);
        i := i + 1;
      }
    }
  }
}
