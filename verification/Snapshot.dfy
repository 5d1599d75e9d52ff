/** `Stats` (server/internal/server/server.go) reads the three counters one after the other, while
    connections go on: when the three values are those of one moment, and how far off they can be. */
module Snapshot {
  import opened Admission

  /** `Stats` reads the three counters one after the other, while connections go on. */
  datatype Stats = Stats(total: nat, active: int, rejected: nat)

  function Observed(cfg: Config, events: seq<Event>, between: seq<Event>, later: seq<Event>): Stats {
    Stats(Run(cfg, events).shared.total,
          Run(cfg, events + between).shared.active,
          Run(cfg, events + between + later).shared.rejected)
  }

  lemma {:induction false} RunAppend(cfg: Config, a: seq<Event>, b: seq<Event>)
    ensures |b| > 0 ==> Run(cfg, a + b) == Step(cfg, Run(cfg, a + b[..|b| - 1]), b[|b| - 1])
    ensures b == [] ==> Run(cfg, a + b) == Run(cfg, a)
  {
    hide Step;
    if b == [] { assert a + b == a; } else { assert (a + b)[..|a + b| - 1] == a + b[..|b| - 1]; }
  }

  /** Connections accepted in a run. */
  function Accepts(events: seq<Event>): nat {
    if events == [] then 0 else Accepts(events[..|events| - 1]) + One(events[|events| - 1].Accept?)
  }

  lemma {:induction false} TotalGrows(cfg: Config, a: seq<Event>, b: seq<Event>)
    ensures Run(cfg, a + b).shared.total == Run(cfg, a).shared.total + Accepts(b)
    ensures Run(cfg, a + b).shared.rejected >= Run(cfg, a).shared.rejected
  {
    hide Run, SlotBack, Released, Acquired;
    RunAppend(cfg, a, b);
    if b != [] {
      var front := b[..|b| - 1];
      TotalGrows(cfg, a, front);
      StepTotal(cfg, Run(cfg, a + front), b[|b| - 1]);
    }
  }

  lemma StepTotal(cfg: Config, st: State, e: Event)
    ensures Step(cfg, st, e).shared.total == st.shared.total + One(e.Accept?)
    ensures Step(cfg, st, e).shared.rejected >= st.shared.rejected
  {
    hide SlotBack, Released, Acquired;
    if e.Next? && e.i < |st.conns| { Untouched(cfg, st.shared, st.conns[e.i].ip); }
  }

  /** Past both guards, and so never rejected. */
  predicate IsServed(c: Conn) { c.phase in {Admitted, Handling, Ending, Freed, Gone(false)} }

  lemma StepServed(cfg: Config, st: State, e: Event)
    ensures Count(Step(cfg, st, e).conns, IsServed) >= Count(st.conns, IsServed)
  {
    hide Count, SlotBack, Released, Acquired;
    match e {
      case Accept(ip) => CountMore(st.conns, Conn(ip, Phase.Counted), IsServed);
      case Next(i) =>
        if i < |st.conns| { CountUpdate(st.conns, i, Turn(cfg, st.shared, st.conns[i]).1, IsServed); }
    }
  }

  lemma {:induction false} ServedGrows(cfg: Config, a: seq<Event>, b: seq<Event>)
    ensures Count(Run(cfg, a + b).conns, IsServed) >= Count(Run(cfg, a).conns, IsServed)
  {
    hide Run, Count, Step;
    RunAppend(cfg, a, b);
    if b != [] {
      ServedGrows(cfg, a, b[..|b| - 1]);
      StepServed(cfg, Run(cfg, a + b[..|b| - 1]), b[|b| - 1]);
    }
  }

  lemma {:induction false} ServedOrRejected(conns: seq<Conn>)
    ensures Count(conns, IsServed) + Count(conns, IsRejected) <= |conns|
  {
    if conns != [] { ServedOrRejected(conns[..|conns| - 1]); }
  }

  /** The connections reported as active or rejected exceed those reported as accepted by no more
      than the connections accepted while the counters were being read. */
  lemma StatsBound(cfg: Config, events: seq<Event>, between: seq<Event>, later: seq<Event>)
    ensures var o := Observed(cfg, events, between, later);
            o.active + o.rejected <= o.total + Accepts(between) + Accepts(later)
  {
    hide Run, Count;
    var mid, end := events + between, events + between + later;
    TotalGrows(cfg, events, between);
    TotalGrows(cfg, mid, later);
    RunCounters(cfg, mid);
    RunCounters(cfg, end);
    CountImplies(Run(cfg, mid).conns, IsHandled, IsServed);
    ServedGrows(cfg, mid, later);
    ServedOrRejected(Run(cfg, end).conns);
  }

  // ---------------------------------------------------------------- the moment of a snapshot

  datatype Counter = Total | Active | Rejected

  function Reading(s: Shared, c: Counter): int {
    match c case Total => s.total case Active => s.active case Rejected => s.rejected
  }

  function Read(s: Shared): Stats { Stats(s.total, s.active, s.rejected) }

  /** The shared state after the first k of the events that take place while the counters are read. */
  function Moment(cfg: Config, events: seq<Event>, window: seq<Event>, k: nat): Shared
    requires k <= |window|
  {
    Run(cfg, events + window[..k]).shared
  }

  /** Between the first reading and the last there is a moment at which the three counters had the
      values read. */
  ghost predicate Momentary(cfg: Config, events: seq<Event>, between: seq<Event>, later: seq<Event>) {
    exists k: nat | k <= |between + later| ::
      Read(Moment(cfg, events, between + later, k)) == Observed(cfg, events, between, later)
  }

  /** The counter does not move while the counters are read. */
  ghost predicate Still(cfg: Config, events: seq<Event>, window: seq<Event>, c: Counter) {
    forall k: nat | k <= |window| ::
        Reading(Moment(cfg, events, window, k), c) == Reading(Moment(cfg, events, window, 0), c)
  }

  /** No counter moves but those given. */
  ghost predicate OnlyMove(cfg: Config, events: seq<Event>, window: seq<Event>, moving: set<Counter>) {
    forall c :: c !in moving ==> Still(cfg, events, window, c)
  }

  /** If at most one counter moves while they are read, the snapshot is that of one moment: the one at
      which that counter was read. */
  lemma OneMoves(cfg: Config, events: seq<Event>, between: seq<Event>, later: seq<Event>, c: Counter)
    requires OnlyMove(cfg, events, between + later, {c})
    ensures Momentary(cfg, events, between, later)
  {
    hide Run;
    var window := between + later;
    var k := match c case Total => 0 case Active => |between| case Rejected => |window|;
    assert events + window[..0] == events;
    assert events + window[..|between|] == events + between by { assert window[..|between|] == between; }
    assert events + window[..|window|] == events + between + later by { assert window[..|window|] == window; }
    forall d | d != c
      ensures Reading(Moment(cfg, events, window, k), d) == Reading(Moment(cfg, events, window, 0), d)
      ensures Reading(Moment(cfg, events, window, |between|), d) == Reading(Moment(cfg, events, window, 0), d)
      ensures Reading(Moment(cfg, events, window, |window|), d) == Reading(Moment(cfg, events, window, 0), d)
    {
      assert Still(cfg, events, window, d) by { assert d !in {c}; }
      StillAt(cfg, events, window, d, k);
      StillAt(cfg, events, window, d, |between|);
      StillAt(cfg, events, window, d, |window|);
    }
    var s := Moment(cfg, events, window, k);
    assert Reading(s, Total) == s.total && Reading(s, Active) == s.active && Reading(s, Rejected) == s.rejected;
    assert Reading(Moment(cfg, events, window, 0), Total) == Run(cfg, events).shared.total;
    assert Reading(Moment(cfg, events, window, |between|), Active) == Run(cfg, events + between).shared.active;
    assert Reading(Moment(cfg, events, window, |window|), Rejected)
        == Run(cfg, events + between + later).shared.rejected;
    assert Read(Moment(cfg, events, window, k)) == Observed(cfg, events, between, later);
  }

  lemma StillAt(cfg: Config, events: seq<Event>, window: seq<Event>, c: Counter, k: nat)
    requires k <= |window| && Still(cfg, events, window, c)
    ensures Reading(Moment(cfg, events, window, k), c) == Reading(Moment(cfg, events, window, 0), c)
  {
    hide Moment, Reading;
  }

  // ---------------------------------------------------------------- torn snapshots

  lemma NextRun(cfg: Config, events: seq<Event>, e: Event)
    ensures Run(cfg, events + [e]) == Step(cfg, Run(cfg, events), e)
  {
    hide Step;
    assert (events + [e])[..|events|] == events;
  }

  /** The moments of a window of two events. */
  lemma ThreeMoments(cfg: Config, events: seq<Event>, a: Event, b: Event)
    ensures Moment(cfg, events, [a, b], 0) == Run(cfg, events).shared
    ensures Moment(cfg, events, [a, b], 1) == Step(cfg, Run(cfg, events), a).shared
    ensures Moment(cfg, events, [a, b], 2) == Step(cfg, Step(cfg, Run(cfg, events), a), b).shared
  {
    hide Step, Run;
    NextRun(cfg, events, a);
    NextRun(cfg, events + [a], b);
    assert events + [a, b][..0] == events && events + [a, b][..1] == events + [a];
    assert events + [a, b][..2] == events + [a] + [b];
  }

  /** A connection accepted, and another one starting its session. */
  const LETTING: seq<Event> := [Accept(""), Next(0), Next(0)]

  lemma Let()
    ensures Run(Config(0, 0), LETTING) == State(IDLE.(total := 1), [Conn("", Admitted)])
  {
    var cfg := Config(0, 0);
    Counted(cfg);
    NextRun(cfg, [Accept("")], Next(0));
    NextRun(cfg, [Accept(""), Next(0)], Next(0));
    hide Run;
    assert [Accept("")] + [Next(0)] == [Accept(""), Next(0)] && [Accept(""), Next(0)] + [Next(0)] == LETTING;
  }

  lemma Counted(cfg: Config)
    ensures Run(cfg, [Accept("")]) == State(IDLE.(total := 1), [Conn("", Phase.Counted)])
  {
    NextRun(cfg, [], Accept(""));
    assert [] + [Accept("")] == [Accept("")] && Run(cfg, []) == State(IDLE, []);
    hide Run;
  }

  /** The total is read, a connection is accepted, another becomes active, and that is read. */
  lemma TotalActiveTorn()
    ensures var window := [Accept(""), Next(0)];
            OnlyMove(Config(0, 0), LETTING, window, {Total, Active}) && !Momentary(Config(0, 0), LETTING, window, [])
  {
    var cfg, window := Config(0, 0), [Accept(""), Next(0)];
    Let();
    ThreeMoments(cfg, LETTING, Accept(""), Next(0));
    hide Run;
    ReadAtEnd(cfg, LETTING, window);
  }

  /** When nothing comes after the second reading, it and the third are of the last moment. */
  lemma ReadAtEnd(cfg: Config, events: seq<Event>, window: seq<Event>)
    ensures window + [] == window
    ensures Observed(cfg, events, window, []) ==
            Stats(Moment(cfg, events, window, 0).total, Moment(cfg, events, window, |window|).active,
                  Moment(cfg, events, window, |window|).rejected)
  {
    hide Run;
    assert events + window[..0] == events && window[..|window|] == window && events + window + [] == events + window;
  }

  /** When nothing comes between the first two readings, they are of the first moment. */
  lemma ReadAtStart(cfg: Config, events: seq<Event>, window: seq<Event>)
    ensures [] + window == window
    ensures Observed(cfg, events, [], window) ==
            Stats(Moment(cfg, events, window, 0).total, Moment(cfg, events, window, 0).active,
                  Moment(cfg, events, window, |window|).rejected)
  {
    hide Run;
    assert events + window[..0] == events && window[..|window|] == window && events + [] == events;
  }

  /** With one slot: a connection holds it, another is about to be counted as refused. */
  const REFUSING: seq<Event> := [Accept(""), Next(0), Accept(""), Next(1)]

  lemma Refusing()
    ensures Run(Config(1, 0), REFUSING) == State(IDLE.(total := 2, slots := 1), [Conn("", Slotted), Conn("", NoSlot)])
  {
    var cfg := Config(1, 0);
    Counted(cfg);
    NextRun(cfg, [Accept("")], Next(0));
    NextRun(cfg, [Accept(""), Next(0)], Accept(""));
    NextRun(cfg, [Accept(""), Next(0), Accept("")], Next(1));
    hide Run;
    assert [Accept("")] + [Next(0)] == [Accept(""), Next(0)];
    assert [Accept(""), Next(0)] + [Accept("")] == [Accept(""), Next(0), Accept("")];
    assert [Accept(""), Next(0), Accept("")] + [Next(1)] == REFUSING;
  }

  /** The total is read, a connection is accepted, another is refused, and that is read. */
  lemma TotalRejectedTorn()
    ensures var window := [Accept(""), Next(1)];
            OnlyMove(Config(1, 0), REFUSING, window, {Total, Rejected})
            && !Momentary(Config(1, 0), REFUSING, [], window)
  {
    var cfg, window := Config(1, 0), [Accept(""), Next(1)];
    hide Run, Moment, Observed, Step;
    RefusingMoments();
    ReadAtStart(cfg, REFUSING, window);
  }

  lemma RefusingMoments()
    ensures var window := [Accept(""), Next(1)];
            && Read(Moment(Config(1, 0), REFUSING, window, 0)) == Stats(2, 0, 0)
            && Read(Moment(Config(1, 0), REFUSING, window, 1)) == Stats(3, 0, 0)
            && Read(Moment(Config(1, 0), REFUSING, window, 2)) == Stats(3, 0, 1)
  {
    hide Run, Moment;
    Refusing();
    ThreeMoments(Config(1, 0), REFUSING, Accept(""), Next(1));
  }

  /** With one slot: a session, and a connection about to be counted as refused. */
  const SERVING: seq<Event> := REFUSING + [Next(0)] + [Next(0)]

  /** The active sessions are read, the session ends, a connection is refused, and that is read: nothing
      has been accepted meanwhile. */
  lemma ActiveRejectedTorn()
    ensures var window := [Next(0), Next(1)];
            OnlyMove(Config(1, 0), SERVING, window, {Active, Rejected}) && !Momentary(Config(1, 0), SERVING, [], window)
  {
    var cfg, window := Config(1, 0), [Next(0), Next(1)];
    hide Run, Moment, Observed, Step;
    ServingMoments();
    ReadAtStart(cfg, SERVING, window);
  }

  lemma ServingMoments()
    ensures var window := [Next(0), Next(1)];
            && Read(Moment(Config(1, 0), SERVING, window, 0)) == Stats(2, 1, 0)
            && Read(Moment(Config(1, 0), SERVING, window, 1)) == Stats(2, 0, 0)
            && Read(Moment(Config(1, 0), SERVING, window, 2)) == Stats(2, 0, 1)
  {
    hide Run, Moment;
    Serving();
    ThreeMoments(Config(1, 0), SERVING, Next(0), Next(1));
  }

  lemma Serving()
    ensures Run(Config(1, 0), SERVING)
            == State(IDLE.(total := 2, slots := 1, active := 1), [Conn("", Handling), Conn("", NoSlot)])
  {
    hide Run;
    Refusing();
    NextRun(Config(1, 0), REFUSING, Next(0));
    NextRun(Config(1, 0), REFUSING + [Next(0)], Next(0));
  }

  /** A snapshot during which only the given counters move is sure to be that of one moment, whatever
      the limits and the run, if and only if they are one at most. */
  lemma SnapshotExact(moving: set<Counter>)
    ensures (exists c :: moving <= {c}) <==>
            forall cfg, events, between, later | OnlyMove(cfg, events, between + later, moving) ::
              Momentary(cfg, events, between, later)
  {
    hide OnlyMove, Momentary;
    if c :| moving <= {c} {
      forall cfg, events, between, later | OnlyMove(cfg, events, between + later, moving)
        ensures Momentary(cfg, events, between, later)
      {
        MoreMayMove(cfg, events, between + later, moving, {c});
        OneMoves(cfg, events, between, later, c);
      }
    } else {
      OneOrTwo(moving);
      if {Total, Active} <= moving {
        TotalActiveTorn();
        var window := [Accept(""), Next(0)];
        MoreMayMove(Config(0, 0), LETTING, window, {Total, Active}, moving);
        assert window + [] == window;
      } else if {Total, Rejected} <= moving {
        TotalRejectedTorn();
        var window := [Accept(""), Next(1)];
        MoreMayMove(Config(1, 0), REFUSING, window, {Total, Rejected}, moving);
        assert [] + window == window;
      } else {
        ActiveRejectedTorn();
        var window := [Next(0), Next(1)];
        MoreMayMove(Config(1, 0), SERVING, window, {Active, Rejected}, moving);
        assert [] + window == window;
      }
    }
  }

  lemma MoreMayMove(cfg: Config, events: seq<Event>, window: seq<Event>, few: set<Counter>, many: set<Counter>)
    requires few <= many && OnlyMove(cfg, events, window, few)
    ensures OnlyMove(cfg, events, window, many)
  {
    hide Still;
  }

  lemma OneOrTwo(moving: set<Counter>)
    ensures moving <= {Total} || moving <= {Active} || moving <= {Rejected}
            || {Total, Active} <= moving || {Total, Rejected} <= moving || {Active, Rejected} <= moving
  {
    var only := if Total in moving then Total else if Active in moving then Active else Rejected;
    forall c | c in moving && c != only ensures {c, only} <= moving {}
  }

  // ---------------------------------------------------------------- how many connections it reports

  /** No more connections reported active or rejected than reported accepted. */
  predicate Accounted(o: Stats) { o.active + o.rejected <= o.total }

  function Arrivals(ip: string, n: nat): seq<Event> { seq(n, _ => Accept(ip)) }

  lemma {:induction false} ArrivalsCounted(ip: string, n: nat)
    ensures Accepts(Arrivals(ip, n)) == n
  {
    if n > 0 {
      assert Arrivals(ip, n)[..n - 1] == Arrivals(ip, n - 1);
      ArrivalsCounted(ip, n - 1);
    }
  }

  /** Whatever the limits: a connection accepted, let through both guards and counted as active after
      the total has been read, and n - 1 more accepted before the last counter is. */
  function Through(ip: string): seq<Event> { [Accept(ip), Next(0), Next(0), Next(0)] }

  lemma StatsTorn(cfg: Config, ip: string, n: nat)
    requires n > 0
    ensures Accepts(Through(ip)) + Accepts(Arrivals(ip, n - 1)) == n
    ensures var o := Observed(cfg, [], Through(ip), Arrivals(ip, n - 1)); o.total == 0 && o.active == 1 && !Accounted(o)
  {
    ArrivalsCounted(ip, n - 1);
    var e1 := [Accept(ip)];
    var e2 := e1 + [Next(0)];
    var e3 := e2 + [Next(0)];
    var e4 := e3 + [Next(0)];
    assert e4 == Through(ip) == [] + Through(ip);
    assert e1[..0] == [] && e2[..1] == e1 && e3[..2] == e2 && e4[..3] == e3;
    assert Accepts([]) == 0 && Accepts(e1) == Accepts(e2) == Accepts(e3) == Accepts(e4) == 1;
    hide Accepts;
    assert Run(cfg, []) == State(IDLE, []);
    assert Run(cfg, e1) == State(IDLE.(total := 1), [Conn(ip, Phase.Counted)]);
    hide Count;
    LetThrough(cfg, ip, e1, e2, e3, e4);
  }

  lemma LetThrough(cfg: Config, ip: string, e1: seq<Event>, e2: seq<Event>, e3: seq<Event>, e4: seq<Event>)
    requires e2 == e1 + [Next(0)] && e3 == e2 + [Next(0)] && e4 == e3 + [Next(0)]
    requires Run(cfg, e1) == State(IDLE.(total := 1), [Conn(ip, Phase.Counted)])
    ensures Run(cfg, e4).shared.active == 1
  {
    NextRun(cfg, e1, Next(0));
    NextRun(cfg, e2, Next(0));
    NextRun(cfg, e3, Next(0));
    hide Run, Released, SlotBack;
    assert Run(cfg, e2).conns == [Conn(ip, Slotted)] && Run(cfg, e2).shared.perIp == map[];
    assert Run(cfg, e3).conns == [Conn(ip, Admitted)] && Run(cfg, e3).shared.active == 0;
  }

  /** Whatever the limits, a snapshot during which n connections are accepted is sure to report no more
      of them active or rejected than accepted if and only if n is 0. */
  lemma StatsAccounted(cfg: Config, n: nat)
    ensures n == 0 <==>
            forall events, between, later | Accepts(between) + Accepts(later) == n ::
                Accounted(Observed(cfg, events, between, later))
  {
    hide Observed, Accepts, Run;
    if n == 0 {
      forall events, between, later | Accepts(between) + Accepts(later) == n
        ensures Accounted(Observed(cfg, events, between, later))
      {
        StatsBound(cfg, events, between, later);
      }
    } else {
      StatsTorn(cfg, "", n);
    }
  }
}
