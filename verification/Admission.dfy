/** Connection admission (server/internal/server/server.go `serveConn`, `acquireIP`, `releaseIP`):
    every connection is a goroutine, and the statements on shared state of any number of them
    interleave in any order. */
module Admission {

  /** 0 or less: no limit. */
  datatype Config = Config(maxConns: int, maxPerIp: int)

  /** Where a connection is in `serveConn`: the next statement on shared state it has to run. */
  datatype Phase =
    | Counted     // in connTotal; about to ask for a slot
    | NoSlot      // refused a slot; about to be counted as rejected
    | Slotted     // about to ask for its address
    | NoIp        // refused for its address; about to be counted as rejected
    | Refused     // counted as rejected; about to give its slot back
    | Admitted    // about to be counted as active
    | Handling    // in the handler
    | Ending      // no longer counted as active; about to give its address back
    | Freed       // about to give its slot back
    | Gone(rejected: bool)

  datatype Conn = Conn(ip: string, phase: Phase)

  /** The shared state: tokens in the semaphore, connections per address, and the counters. */
  datatype Shared = Shared(slots: nat, perIp: map<string, int>, total: nat, rejected: nat, active: int)

  const IDLE: Shared := Shared(0, map[], 0, 0, 0)

  function PerIp(s: Shared, ip: string): int { if ip in s.perIp then s.perIp[ip] else 0 }

  function Acquired(s: Shared, ip: string): Shared { s.(perIp := s.perIp[ip := PerIp(s, ip) + 1]) }

  function Released(s: Shared, ip: string): Shared {
    if PerIp(s, ip) - 1 <= 0 then s.(perIp := s.perIp - {ip}) else s.(perIp := s.perIp[ip := PerIp(s, ip) - 1])
  }

  /** A token is taken back from the semaphore; there is always one (SlotsNeverBlock). */
  function SlotBack(cfg: Config, s: Shared): Shared {
    if cfg.maxConns > 0 && s.slots > 0 then s.(slots := s.slots - 1) else s
  }

  /** The next statement of a connection. */
  function Turn(cfg: Config, s: Shared, c: Conn): (Shared, Conn) {
    match c.phase
    case Counted =>
      if cfg.maxConns <= 0 then (s, c.(phase := Slotted))
      else if s.slots < cfg.maxConns then (s.(slots := s.slots + 1), c.(phase := Slotted))
      else (s, c.(phase := NoSlot))
    case NoSlot => (s.(rejected := s.rejected + 1), c.(phase := Gone(true)))
    case Slotted =>
      if cfg.maxPerIp <= 0 then (s, c.(phase := Admitted))
      else if PerIp(s, c.ip) >= cfg.maxPerIp then (s, c.(phase := NoIp))
      else (Acquired(s, c.ip), c.(phase := Admitted))
    case NoIp => (s.(rejected := s.rejected + 1), c.(phase := Refused))
    case Refused => (SlotBack(cfg, s), c.(phase := Gone(true)))
    case Admitted => (s.(active := s.active + 1), c.(phase := Handling))
    case Handling => (s.(active := s.active - 1), c.(phase := Ending))
    case Ending => (if cfg.maxPerIp <= 0 then s else Released(s, c.ip), c.(phase := Freed))
    case Freed => (SlotBack(cfg, s), c.(phase := Gone(false)))
    case Gone(_) => (s, c)
  }

  datatype State = State(shared: Shared, conns: seq<Conn>)

  /** A connection is accepted and counted, or connection i runs its next statement. */
  datatype Event = Accept(ip: string) | Next(i: nat)

  function Step(cfg: Config, st: State, e: Event): State {
    match e
    case Accept(ip) => State(st.shared.(total := st.shared.total + 1), st.conns + [Conn(ip, Counted)])
    case Next(i) =>
      if i >= |st.conns| then st
      else
        var (s, c) := Turn(cfg, st.shared, st.conns[i]);
        State(s, st.conns[i := c])
  }

  function Run(cfg: Config, events: seq<Event>): State {
    if events == [] then State(IDLE, []) else Step(cfg, Run(cfg, events[..|events| - 1]), events[|events| - 1])
  }

  // ---------------------------------------------------------------- counting connections

  function One(b: bool): nat { if b then 1 else 0 }

  function Count(conns: seq<Conn>, f: Conn -> bool): nat {
    if conns == [] then 0 else Count(conns[..|conns| - 1], f) + One(f(conns[|conns| - 1]))
  }

  predicate HoldsSlot(c: Conn) {
    c.phase in {Slotted, NoIp, Refused, Admitted, Handling, Ending, Freed}
  }

  predicate HoldsIp(c: Conn) { c.phase in {Admitted, Handling, Ending} }

  predicate IsHandled(c: Conn) { c.phase == Handling }

  predicate IsRejected(c: Conn) { c.phase == Refused || c.phase == Gone(true) }

  predicate IsFinished(c: Conn) { c.phase == Gone(false) }

  /** Counted, but not yet rejected, active or finished. */
  predicate InTransit(c: Conn) { c.phase in {Counted, NoSlot, Slotted, NoIp, Admitted, Ending, Freed} }

  function HoldsThisIp(ip: string): Conn -> bool { (c: Conn) => HoldsIp(c) && c.ip == ip }

  lemma {:induction false} CountUpdate(conns: seq<Conn>, i: nat, c: Conn, f: Conn -> bool)
    requires i < |conns|
    ensures Count(conns[i := c], f) + One(f(conns[i])) == Count(conns, f) + One(f(c))
  {
    var last := |conns| - 1;
    if i < last {
      CountUpdate(conns[..last], i, c, f);
      assert conns[i := c][..last] == conns[..last][i := c];
    } else {
      assert conns[i := c][..last] == conns[..last];
    }
  }

  lemma CountMore(conns: seq<Conn>, c: Conn, f: Conn -> bool)
    ensures Count(conns + [c], f) == Count(conns, f) + One(f(c))
  {
    assert (conns + [c])[..|conns|] == conns;
  }

  lemma {:induction false} CountHas(conns: seq<Conn>, i: nat, f: Conn -> bool)
    requires i < |conns| && f(conns[i])
    ensures Count(conns, f) >= 1
  {
    var last := |conns| - 1;
    if i < last { CountHas(conns[..last], i, f); }
  }

  lemma {:induction false} CountImplies(conns: seq<Conn>, f: Conn -> bool, g: Conn -> bool)
    requires forall c :: f(c) ==> g(c)
    ensures Count(conns, f) <= Count(conns, g)
  {
    if conns != [] { CountImplies(conns[..|conns| - 1], f, g); }
  }

  lemma {:induction false} CountNone(conns: seq<Conn>, f: Conn -> bool)
    requires forall i :: 0 <= i < |conns| ==> !f(conns[i])
    ensures Count(conns, f) == 0
  {
    if conns != [] { CountNone(conns[..|conns| - 1], f); }
  }

  /** Addresses, slots and counters are independent of each other. */
  lemma Untouched(cfg: Config, s: Shared, ip: string)
    ensures Released(s, ip) == s.(perIp := Released(s, ip).perIp)
    ensures Acquired(s, ip) == s.(perIp := Acquired(s, ip).perIp)
    ensures SlotBack(cfg, s) == s.(slots := SlotBack(cfg, s).slots)
  {}

  // ---------------------------------------------------------------- the semaphore

  /** The semaphore holds one token per connection that has a slot, and never too many. */
  ghost predicate SlotsExact(cfg: Config, st: State) {
    if cfg.maxConns <= 0 then st.shared.slots == 0
    else st.shared.slots == Count(st.conns, HoldsSlot) <= cfg.maxConns
  }

  lemma StepSlots(cfg: Config, st: State, e: Event)
    requires SlotsExact(cfg, st)
    ensures SlotsExact(cfg, Step(cfg, st, e))
  {
    hide Count, Released, Acquired;
    match e {
      case Accept(ip) => CountMore(st.conns, Conn(ip, Counted), HoldsSlot);
      case Next(i) =>
        if i < |st.conns| {
          Untouched(cfg, st.shared, st.conns[i].ip);
          if HoldsSlot(st.conns[i]) { CountHas(st.conns, i, HoldsSlot); }
          CountUpdate(st.conns, i, Turn(cfg, st.shared, st.conns[i]).1, HoldsSlot);
        }
    }
  }

  lemma {:induction false} RunSlots(cfg: Config, events: seq<Event>)
    ensures SlotsExact(cfg, Run(cfg, events))
  {
    hide Step, SlotsExact;
    if events == [] {
      assert SlotsExact(cfg, State(IDLE, [])) by { IdleSlots(cfg); }
    } else {
      RunSlots(cfg, events[..|events| - 1]);
      StepSlots(cfg, Run(cfg, events[..|events| - 1]), events[|events| - 1]);
    }
  }

  lemma IdleSlots(cfg: Config)
    ensures SlotsExact(cfg, State(IDLE, []))
  {}

  /** Giving a slot back never waits for a token. */
  lemma SlotsNeverBlock(cfg: Config, events: seq<Event>, i: nat)
    requires cfg.maxConns > 0 && i < |Run(cfg, events).conns|
    requires Run(cfg, events).conns[i].phase in {Refused, Freed}
    ensures Run(cfg, events).shared.slots > 0
  {
    hide Run, Count;
    RunSlots(cfg, events);
    CountHas(Run(cfg, events).conns, i, HoldsSlot);
  }

  // ---------------------------------------------------------------- connections per address

  /** The table gives the connections that hold the address, has no entry for none, and stays within
      the limit. */
  ghost predicate IpExact(cfg: Config, st: State, ip: string) {
    var n := Count(st.conns, HoldsThisIp(ip));
    if cfg.maxPerIp <= 0 then ip !in st.shared.perIp
    else PerIp(st.shared, ip) == n <= cfg.maxPerIp && (ip in st.shared.perIp <==> n > 0)
  }

  lemma StepIp(cfg: Config, st: State, e: Event, ip: string)
    requires IpExact(cfg, st, ip)
    ensures IpExact(cfg, Step(cfg, st, e), ip)
  {
    hide Count, SlotBack;
    match e {
      case Accept(other) => CountMore(st.conns, Conn(other, Counted), HoldsThisIp(ip));
      case Next(i) =>
        if i < |st.conns| {
          Untouched(cfg, st.shared, st.conns[i].ip);
          if HoldsThisIp(ip)(st.conns[i]) { CountHas(st.conns, i, HoldsThisIp(ip)); }
          CountUpdate(st.conns, i, Turn(cfg, st.shared, st.conns[i]).1, HoldsThisIp(ip));
        }
    }
  }

  lemma {:induction false} RunIp(cfg: Config, events: seq<Event>, ip: string)
    ensures IpExact(cfg, Run(cfg, events), ip)
  {
    hide Step, IpExact;
    if events == [] {
      assert IpExact(cfg, State(IDLE, []), ip) by { IdleIp(cfg, ip); }
    } else {
      RunIp(cfg, events[..|events| - 1], ip);
      StepIp(cfg, Run(cfg, events[..|events| - 1]), events[|events| - 1], ip);
    }
  }

  lemma IdleIp(cfg: Config, ip: string)
    ensures IpExact(cfg, State(IDLE, []), ip)
  {}

  // ---------------------------------------------------------------- the counters

  ghost predicate CountersExact(st: State) {
    && st.shared.total == |st.conns|
    && st.shared.rejected == Count(st.conns, IsRejected)
    && st.shared.active == Count(st.conns, IsHandled)
  }

  lemma StepCounters(cfg: Config, st: State, e: Event)
    requires CountersExact(st)
    ensures CountersExact(Step(cfg, st, e))
  {
    hide Count, SlotBack, Released, Acquired;
    match e {
      case Accept(ip) =>
        CountMore(st.conns, Conn(ip, Counted), IsRejected);
        CountMore(st.conns, Conn(ip, Counted), IsHandled);
      case Next(i) =>
        if i < |st.conns| {
          Untouched(cfg, st.shared, st.conns[i].ip);
          CountUpdate(st.conns, i, Turn(cfg, st.shared, st.conns[i]).1, IsRejected);
          CountUpdate(st.conns, i, Turn(cfg, st.shared, st.conns[i]).1, IsHandled);
        }
    }
  }

  lemma {:induction false} RunCounters(cfg: Config, events: seq<Event>)
    ensures CountersExact(Run(cfg, events))
  {
    hide Step, CountersExact;
    if events == [] {
      IdleCounters();
    } else {
      RunCounters(cfg, events[..|events| - 1]);
      StepCounters(cfg, Run(cfg, events[..|events| - 1]), events[|events| - 1]);
    }
  }

  lemma IdleCounters()
    ensures CountersExact(State(IDLE, []))
  {}

  lemma {:induction false} Partition(conns: seq<Conn>)
    ensures |conns| == Count(conns, IsRejected) + Count(conns, IsHandled) + Count(conns, IsFinished)
            + Count(conns, InTransit)
  {
    if conns != [] { Partition(conns[..|conns| - 1]); }
  }

  /** In every interleaving: accepted = rejected + active + finished + in transit. */
  lemma NothingUncounted(cfg: Config, events: seq<Event>)
    ensures var st := Run(cfg, events);
            && st.shared.total == st.shared.rejected + st.shared.active + Count(st.conns, IsFinished)
               + Count(st.conns, InTransit)
            && 0 <= st.shared.active
  {
    hide Run, Count;
    RunCounters(cfg, events);
    Partition(Run(cfg, events).conns);
  }

  // ---------------------------------------------------------------- what the guards guarantee

  /** No more sessions are in the handler than allowed, in all or for one address. */
  lemma LimitsHold(cfg: Config, events: seq<Event>, ip: string)
    ensures var st := Run(cfg, events);
            && (cfg.maxConns > 0 ==> st.shared.active == Count(st.conns, IsHandled) <= cfg.maxConns)
            && (cfg.maxPerIp > 0 ==> Count(st.conns, (c: Conn) => IsHandled(c) && c.ip == ip) <= cfg.maxPerIp)
  {
    hide Run, Count;
    var st := Run(cfg, events);
    RunSlots(cfg, events);
    RunIp(cfg, events, ip);
    RunCounters(cfg, events);
    CountImplies(st.conns, IsHandled, HoldsSlot);
    CountImplies(st.conns, (c: Conn) => IsHandled(c) && c.ip == ip, HoldsThisIp(ip));
  }

  /** A connection is refused exactly when the limit is reached by connections that hold slots, or
      hold its address, at that moment. */
  lemma RefusedWhenFull(cfg: Config, events: seq<Event>, i: nat)
    requires i < |Run(cfg, events).conns|
    ensures var st, c := Run(cfg, events), Run(cfg, events).conns[i];
            var after := Step(cfg, st, Next(i)).conns[i].phase;
            && (c.phase == Counted ==> (after == NoSlot
               <==> cfg.maxConns > 0 && Count(st.conns, HoldsSlot) == cfg.maxConns))
            && (c.phase == Slotted ==> (after == NoIp
               <==> cfg.maxPerIp > 0 && Count(st.conns, HoldsThisIp(c.ip)) == cfg.maxPerIp))
  {
    hide Run, Count, SlotBack, Released, Acquired;
    RunSlots(cfg, events);
    RunIp(cfg, events, Run(cfg, events).conns[i].ip);
  }

  /** When every connection is gone, all slots and addresses have been given back and every accepted
      connection has been either rejected or served. */
  lemma AllGivenBack(cfg: Config, events: seq<Event>)
    requires forall i :: 0 <= i < |Run(cfg, events).conns| ==> Run(cfg, events).conns[i].phase.Gone?
    ensures var st := Run(cfg, events);
            && st.shared.slots == 0 && st.shared.perIp == map[] && st.shared.active == 0
            && st.shared.total == st.shared.rejected + Count(st.conns, IsFinished)
  {
    hide Run, Count;
    var st := Run(cfg, events);
    RunSlots(cfg, events);
    RunCounters(cfg, events);
    NothingUncounted(cfg, events);
    CountNone(st.conns, HoldsSlot);
    CountNone(st.conns, IsHandled);
    CountNone(st.conns, InTransit);
    forall ip | true
      ensures ip !in st.shared.perIp
    {
      RunIp(cfg, events, ip);
      CountNone(st.conns, HoldsThisIp(ip));
    }
  }

  // ---------------------------------------------------------------- every connection gets through

  /** How many statements a connection still has to run, at most. */
  function ToGo(p: Phase): nat {
    match p
    case Counted => 7
    case Slotted => 6
    case Admitted => 5
    case Handling => 4
    case Ending => 3
    case NoIp => 3
    case Freed => 2
    case Refused => 2
    case NoSlot => 1
    case Gone(_) => 0
  }

  function Work(conns: seq<Conn>): nat {
    if conns == [] then 0 else Work(conns[..|conns| - 1]) + ToGo(conns[|conns| - 1].phase)
  }

  lemma {:induction false} WorkUpdate(conns: seq<Conn>, i: nat, c: Conn)
    requires i < |conns|
    ensures Work(conns[i := c]) + ToGo(conns[i].phase) == Work(conns) + ToGo(c.phase)
  {
    var last := |conns| - 1;
    if i < last {
      WorkUpdate(conns[..last], i, c);
      assert conns[i := c][..last] == conns[..last][i := c];
    } else {
      assert conns[i := c][..last] == conns[..last];
    }
  }

  /** Every statement brings its connection nearer to its end, whatever the others do. */
  lemma WorkShrinks(cfg: Config, st: State, i: nat)
    requires i < |st.conns| && !st.conns[i].phase.Gone?
    ensures Work(Step(cfg, st, Next(i)).conns) < Work(st.conns)
  {
    hide Work;
    WorkUpdate(st.conns, i, Turn(cfg, st.shared, st.conns[i]).1);
  }

  lemma {:induction false} NoWorkLeft(conns: seq<Conn>)
    ensures Work(conns) == 0 <==> forall i :: 0 <= i < |conns| ==> conns[i].phase.Gone?
  {
    if conns != [] {
      var last := |conns| - 1;
      NoWorkLeft(conns[..last]);
      assert forall i :: 0 <= i < last ==> conns[..last][i] == conns[i];
      assert ToGo(conns[last].phase) == 0 <==> conns[last].phase.Gone?;
    }
  }

  /** Connections that run their next statements in this order, none of them gone when it does. */
  predicate Productive(cfg: Config, st: State, moves: seq<nat>)
    decreases |moves|
  {
    moves != [] ==>
      && moves[0] < |st.conns| && !st.conns[moves[0]].phase.Gone?
      && Productive(cfg, Step(cfg, st, Next(moves[0])), moves[1..])
  }

  function After(cfg: Config, st: State, moves: seq<nat>): State
    decreases |moves|
  {
    if moves == [] then st else After(cfg, Step(cfg, st, Next(moves[0])), moves[1..])
  }

  /** Once no more connections come, whatever the order in which those present go on: at most Work
      statements are run, and when no connection can run one, all are gone. */
  lemma {:induction false} WorkBounds(cfg: Config, st: State, moves: seq<nat>)
    requires Productive(cfg, st, moves)
    ensures |moves| + Work(After(cfg, st, moves).conns) <= Work(st.conns)
    ensures var end := After(cfg, st, moves);
            && (Work(end.conns) == 0 <==> forall i :: 0 <= i < |end.conns| ==> end.conns[i].phase.Gone?)
            && (Work(end.conns) == 0 <==> forall i: nat :: !Productive(cfg, end, [i]))
    decreases |moves|
  {
    hide Step, Work;
    if moves == [] {
      NoWorkLeft(st.conns);
      forall i: nat ensures Productive(cfg, st, [i]) <==> i < |st.conns| && !st.conns[i].phase.Gone? {
        OneMove(cfg, st, i);
      }
    } else {
      WorkShrinks(cfg, st, moves[0]);
      WorkBounds(cfg, Step(cfg, st, Next(moves[0])), moves[1..]);
    }
  }

  lemma OneMove(cfg: Config, st: State, i: nat)
    ensures Productive(cfg, st, [i]) <==> i < |st.conns| && !st.conns[i].phase.Gone?
  {
    hide Step;
    assert [i][1..] == [];
  }

  /** And there is always such an order that leaves none. */
  lemma {:induction false} AllCanLeave(cfg: Config, st: State) returns (moves: seq<nat>)
    ensures Productive(cfg, st, moves)
    ensures forall i :: 0 <= i < |After(cfg, st, moves).conns| ==> After(cfg, st, moves).conns[i].phase.Gone?
    decreases Work(st.conns)
  {
    hide Step, Work;
    if i :| 0 <= i < |st.conns| && !st.conns[i].phase.Gone? {
      WorkShrinks(cfg, st, i);
      var rest := AllCanLeave(cfg, Step(cfg, st, Next(i)));
      moves := [i] + rest;
      assert moves[1..] == rest;
    } else {
      moves := [];
    }
  }
}
