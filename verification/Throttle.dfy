/** The sliding-window limiter (server/internal/throttle/throttle.go) over whole runs: the failures it
    has kept, after pruning, decide as the complete log would. */
module Throttle {

  /** A key, usually an address, and instants in nanoseconds. */
  type Key = string
  type Time = int

  /** A call, with the instants the clock gives: `Fail` reads it twice, to prune and to stamp. */
  datatype Event = Allowed(key: Key, now: Time) | Fail(key: Key, now: Time, stamp: Time) | Reset(key: Key)

  // ---------------------------------------------------------------- the failures kept

  /** The instants strictly after the cutoff, in order. */
  function After(ts: seq<Time>, cutoff: Time): seq<Time> {
    if ts == [] then []
    else After(ts[..|ts| - 1], cutoff) + (if ts[|ts| - 1] > cutoff then [ts[|ts| - 1]] else [])
  }

  type Fails = map<Key, seq<Time>>

  function At(fails: Fails, key: Key): seq<Time> { if key in fails then fails[key] else [] }

  /** Nothing is stored for a key without failures. */
  function With(fails: Fails, key: Key, ts: seq<Time>): Fails {
    if ts == [] then fails - {key} else fails[key := ts]
  }

  function Pruned(fails: Fails, key: Key, cutoff: Time): Fails { With(fails, key, After(At(fails, key), cutoff)) }

  function Step(fails: Fails, max: int, window: int, e: Event): Fails {
    match e
    case Allowed(key, now) => if max <= 0 then fails else Pruned(fails, key, now - window)
    case Fail(key, now, stamp) =>
      if max <= 0 then fails else With(fails, key, After(At(fails, key), now - window) + [stamp])
    case Reset(key) => fails - {key}
  }

  function Kept(events: seq<Event>, max: int, window: int): Fails {
    if events == [] then map[] else Step(Kept(events[..|events| - 1], max, window), max, window, events[|events| - 1])
  }

  /** What `Allowed` answers. */
  predicate Permits(fails: Fails, max: int, window: int, key: Key, now: Time) {
    max <= 0 || |After(At(fails, key), now - window)| < max
  }

  // ---------------------------------------------------------------- the complete log

  /** Every failure of a key since its last reset. */
  function Log(events: seq<Event>, key: Key): seq<Time> {
    if events == [] then []
    else
      var log := Log(events[..|events| - 1], key);
      match events[|events| - 1]
      case Fail(k, _, stamp) => if k == key then log + [stamp] else log
      case Reset(k) => if k == key then [] else log
      case Allowed(_, _) => log
  }

  /** The last instant read so far, if any. */
  function Last(events: seq<Event>): (l: seq<Time>)
    ensures |l| <= 1
  {
    if events == [] then []
    else
      match events[|events| - 1]
      case Allowed(_, now) => [now]
      case Fail(_, _, stamp) => [stamp]
      case Reset(_) => Last(events[..|events| - 1])
  }

  predicate NotBefore(last: seq<Time>, t: Time) { last == [] || last[|last| - 1] <= t }

  /** The clock never goes back. */
  predicate Steady(events: seq<Event>) {
    events == [] ||
    var front := events[..|events| - 1];
    && Steady(front)
    && match events[|events| - 1]
       case Allowed(_, now) => NotBefore(Last(front), now)
       case Fail(_, now, stamp) => NotBefore(Last(front), now) && now <= stamp
       case Reset(_) => true
  }

  // ---------------------------------------------------------------- pruning is harmless

  lemma {:induction false} AfterAfter(ts: seq<Time>, a: Time, b: Time)
    ensures a <= b ==> After(After(ts, a), b) == After(ts, b)
    ensures |After(After(ts, a), b)| <= |After(ts, b)|
  {
    if ts != [] {
      AfterAfter(ts[..|ts| - 1], a, b);
      var front := After(ts[..|ts| - 1], a);
      AfterAppend(front, if ts[|ts| - 1] > a then [ts[|ts| - 1]] else [], b);
      AfterOne(ts[|ts| - 1], b);
    }
  }

  lemma {:induction false} AfterAppend(s: seq<Time>, t: seq<Time>, c: Time)
    ensures After(s + t, c) == After(s, c) + After(t, c)
  {
    if t == [] {
      assert s + t == s;
    } else {
      assert (s + t)[..|s + t| - 1] == s + t[..|t| - 1];
      AfterAppend(s, t[..|t| - 1], c);
    }
  }

  lemma AfterOne(t: Time, c: Time)
    ensures After([t], c) == if t > c then [t] else []
  {
    assert [t][..0] == [];
    assert After([], c) == [];
  }

  lemma {:induction false} AfterSwap(ts: seq<Time>, a: Time, b: Time)
    ensures After(After(ts, a), b) == After(After(ts, b), a)
  {
    if ts != [] {
      var front, t := ts[..|ts| - 1], ts[|ts| - 1];
      AfterSwap(front, a, b);
      AfterAppend(After(front, a), if t > a then [t] else [], b);
      AfterAppend(After(front, b), if t > b then [t] else [], a);
      AfterOne(t, a);
      AfterOne(t, b);
      NoneAfter(a);
      NoneAfter(b);
    }
  }

  /** Every one of the instants lies after the cutoff. */
  ghost predicate AllAfter(ts: seq<Time>, cutoff: Time) { forall i :: 0 <= i < |ts| ==> ts[i] > cutoff }

  lemma {:induction false} AfterAll(ts: seq<Time>, cutoff: Time)
    ensures AllAfter(ts, cutoff) ==> After(ts, cutoff) == ts
    ensures !AllAfter(ts, cutoff) ==> |After(ts, cutoff)| < |ts|
    ensures |After(ts, cutoff)| <= |ts|
  {
    if ts != [] {
      AfterAll(ts[..|ts| - 1], cutoff);
      assert ts == ts[..|ts| - 1] + [ts[|ts| - 1]];
    }
  }

  /** No failure of the key's log that lies after the cutoff has been pruned by a call since the last
      reset: each call kept what was after its own instant less the window. */
  ghost predicate NonePruned(events: seq<Event>, window: int, key: Key, cutoff: Time) {
    events == [] ||
    var front, e := events[..|events| - 1], events[|events| - 1];
    e == Reset(key) ||
    (NonePruned(front, window, key, cutoff)
     && (!e.Reset? && e.key == key ==> AllAfter(After(Log(front, key), cutoff), e.now - window)))
  }

  /** Whatever the clock does: as long as none has been pruned, what is kept agrees with the complete
      log beyond the cutoff, and from then on it counts fewer. */
  lemma {:induction false} KeptExact(events: seq<Event>, max: int, window: int, key: Key, cutoff: Time)
    requires max > 0
    ensures var kept, log := After(At(Kept(events, max, window), key), cutoff), After(Log(events, key), cutoff);
            if NonePruned(events, window, key, cutoff) then kept == log else |kept| < |log|
  {
    hide After, AllAfter;
    NoneAfter(cutoff);
    if events != [] {
      var front, e := events[..|events| - 1], events[|events| - 1];
      KeptExact(front, max, window, key, cutoff);
      if !e.Reset? && e.key == key {
        PruneExact(At(Kept(front, max, window), key), Log(front, key), e.now - window, cutoff);
        if e.Fail? {
          AfterAppend(After(At(Kept(front, max, window), key), e.now - window), [e.stamp], cutoff);
          AfterAppend(Log(front, key), [e.stamp], cutoff);
        }
      }
    }
  }

  lemma PruneExact(kept: seq<Time>, log: seq<Time>, prune: Time, cutoff: Time)
    ensures After(kept, cutoff) == After(log, cutoff) ==>
              if AllAfter(After(log, cutoff), prune) then After(After(kept, prune), cutoff) == After(log, cutoff)
              else |After(After(kept, prune), cutoff)| < |After(log, cutoff)|
    ensures |After(After(kept, prune), cutoff)| <= |After(kept, cutoff)|
  {
    hide After, AllAfter;
    AfterSwap(kept, prune, cutoff);
    AfterAll(After(kept, cutoff), prune);
  }

  /** A clock that never goes back prunes nothing that a later cutoff lets through. */
  lemma {:induction false} SteadyPrunesNone(events: seq<Event>, window: int, key: Key, cutoff: Time)
    requires Steady(events) && NotBefore(Last(events), cutoff + window)
    ensures NonePruned(events, window, key, cutoff)
  {
    hide After;
    if events != [] {
      var front, e := events[..|events| - 1], events[|events| - 1];
      SteadyPrunesNone(front, window, key, cutoff);
      if !e.Reset? { LaterAfter(Log(front, key), e.now - window, cutoff); }
    }
  }

  lemma {:induction false} LaterAfter(ts: seq<Time>, early: Time, late: Time)
    requires early <= late
    ensures AllAfter(After(ts, late), early)
  {
    if ts != [] { LaterAfter(ts[..|ts| - 1], early, late); }
  }

  /** So with such a clock what has been kept is all that any later cutoff can let through. */
  lemma KeptEnough(events: seq<Event>, max: int, window: int, key: Key, cutoff: Time)
    requires Steady(events) && max > 0 && NotBefore(Last(events), cutoff + window)
    ensures After(At(Kept(events, max, window), key), cutoff) == After(Log(events, key), cutoff)
  {
    hide After, Kept, Log, NonePruned;
    SteadyPrunesNone(events, window, key, cutoff);
    KeptExact(events, max, window, key, cutoff);
  }

  /** Whatever the clock does: limiters of every capacity decide as the complete log would, if and only
      if no failure inside the window has been pruned. */
  lemma DecidesExactly(events: seq<Event>, window: int, key: Key, now: Time)
    ensures NonePruned(events, window, key, now - window) <==>
            forall max | max > 0 :: Permits(Kept(events, max, window), max, window, key, now)
                <==> |After(Log(events, key), now - window)| < max
  {
    hide After, Log, NonePruned, Kept;
    var cutoff, n := now - window, |After(Log(events, key), now - window)|;
    forall max | max > 0
      ensures NonePruned(events, window, key, cutoff)
              ==> (Permits(Kept(events, max, window), max, window, key, now) <==> n < max)
    {
      KeptExact(events, max, window, key, cutoff);
    }
    if !NonePruned(events, window, key, cutoff) {
      KeptExact(events, 1, window, key, cutoff);
      KeptExact(events, n, window, key, cutoff);
      assert Permits(Kept(events, n, window), n, window, key, now);
    }
  }

  /** At every instant of every run with such a clock, a key is allowed if and only if fewer than max
      of its failures since its last reset lie strictly inside the window; a limiter of no capacity
      allows everything. */
  lemma PermitsExactly(events: seq<Event>, max: int, window: int, key: Key, now: Time)
    requires Steady(events) && NotBefore(Last(events), now)
    ensures Permits(Kept(events, max, window), max, window, key, now) <==>
            (max <= 0 || |After(Log(events, key), now - window)| < max)
  {
    if max > 0 { KeptEnough(events, max, window, key, now - window); }
  }

  /** Whatever the clock does, a key with fewer than max failures inside the window is allowed. */
  lemma {:induction false} NeverTooStrict(events: seq<Event>, max: int, window: int, key: Key, cutoff: Time)
    ensures |After(At(Kept(events, max, window), key), cutoff)| <= |After(Log(events, key), cutoff)|
  {
    hide After;
    NoneAfter(cutoff);
    if events != [] {
      var front, e := events[..|events| - 1], events[|events| - 1];
      NeverTooStrict(front, max, window, key, cutoff);
      var had := At(Kept(front, max, window), key);
      if !e.Reset? && e.key == key {
        AfterAfter(had, e.now - window, cutoff);
        if e.Fail? {
          AfterAppend(After(had, e.now - window), [e.stamp], cutoff);
          AfterAppend(Log(front, key), [e.stamp], cutoff);
        }
      }
    }
  }

  lemma NoneAfter(c: Time)
    ensures After([], c) == []
  {}

  /** A clock that goes back can make it too lax: a failure pruned at 100 is missing at 5. */
  lemma ClockBack(key: Key)
    ensures var events := [Fail(key, 0, 0), Allowed(key, 100)];
            Permits(Kept(events, 1, 10), 1, 10, key, 5) && |After(Log(events, key), 5 - 10)| == 1
  {
    var one := [Fail(key, 0, 0)];
    var events := one + [Allowed(key, 100)];
    assert events[..1] == one && one[..0] == [];
    AfterOne(0, 90);
    AfterOne(0, -5);
    assert After([], -10) == [] && After([], -5) == [];
    assert Kept([], 1, 10) == map[] && Log([], key) == [];
    assert Kept(one, 1, 10) == map[key := [0]];
    assert Log(one, key) == [0];
    assert events == [Fail(key, 0, 0), Allowed(key, 100)];
  }

  /** No key is stored without failures, so idle keys take no room once they are asked about. */
  lemma {:induction false} NoEmptyKeys(events: seq<Event>, max: int, window: int, key: Key)
    ensures key in Kept(events, max, window) ==> Kept(events, max, window)[key] != []
  {
    hide After;
    if events != [] { NoEmptyKeys(events[..|events| - 1], max, window, key); }
  }

  /** Pruning and then appending is what a failure does. */
  lemma PrunedThenAppended(fails: Fails, key: Key, cutoff: Time, t: Time)
    ensures var p := Pruned(fails, key, cutoff);
            p[key := At(p, key) + [t]] == With(fails, key, After(At(fails, key), cutoff) + [t])
  {
    hide After;
    var p := Pruned(fails, key, cutoff);
    assert At(p, key) == After(At(fails, key), cutoff);
    assert p[key := At(p, key) + [t]].Keys == fails[key := At(p, key) + [t]].Keys;
  }

  lemma OneKeyChanged(m: Fails, was: Fails, key: Key, ts: seq<Time>)
    requires forall k :: k in m <==> (k in was && k != key) || (k == key && ts != [])
    requires key in m ==> m[key] == ts
    requires forall k :: k in m && k != key ==> k in was && m[k] == was[k]
    ensures m == With(was, key, ts)
  {}

  lemma OneKeySet(m: Fails, was: Fails, key: Key, ts: seq<Time>)
    requires m.Keys == was.Keys + {key} && m[key] == ts
    requires forall k :: k in m && k != key ==> m[k] == was[k]
    ensures m == was[key := ts]
  {}
}
