/** `Limiter` itself (server/internal/throttle/throttle.go): one slice per key, compacted in the array
    it lives in.  Each method is proved to take the stored failures where Throttle says. */
module Limiter {
  import opened Throttle

  /** A Go slice: the first `len` elements of its array. */
  datatype Slice = Slice(arr: array<Time>, len: nat)

  class Limiter {
    const max: int
    const window: int
    var fails: map<Key, Slice>
    ghost var arrays: set<array<Time>>

    ghost predicate Valid()
      reads this
    {
      && (forall k :: k in fails ==> fails[k].arr in arrays && fails[k].len <= fails[k].arr.Length)
      && (forall k, l :: k in fails && l in fails && k != l ==> fails[k].arr != fails[l].arr)
    }

    ghost function Value(): Fails
      requires Valid()
      reads this, arrays
    {
      map k | k in fails :: Stored(k)
    }

    ghost function Stored(key: Key): seq<Time>
      requires Valid() && key in fails
      reads this, arrays
    {
      fails[key].arr[..fails[key].len]
    }

    /** `New` */
    constructor (max: int, window: int)
      ensures Valid() && this.max == max && this.window == window && arrays == {}
      ensures Value() == Kept([], max, window)
    {
      this.max, this.window := max, window;
      fails, arrays := map[], {};
    }

    /** `Allowed`, at the instant the clock gives. */
    method Allowed(key: Key, now: Time) returns (ok: bool)
      requires Valid()
      modifies this`fails, arrays
      ensures Valid()
      ensures ok <==> Permits(old(Value()), max, window, key, now)
      ensures Value() == Step(old(Value()), max, window, Event.Allowed(key, now))
    {
      if max <= 0 { return true; }
      hide After;
      var kept, n := Recent(key, now - window);
      ok := n < max;
    }

    /** `Fail`, at the instants its two readings of the clock give. */
    method Fail(key: Key, now: Time, stamp: Time)
      requires Valid()
      modifies this`fails, this`arrays, arrays
      ensures Valid() && fresh(arrays - old(arrays))
      ensures Value() == Step(old(Value()), max, window, Event.Fail(key, now, stamp))
    {
      if max <= 0 { return; }
      hide After, Value, Valid, With, Pruned;
      Record(key, now - window, stamp);
    }

    /** The assignment of `Fail`: what is recent enough, and this failure. */
    method Record(key: Key, cutoff: Time, stamp: Time)
      requires Valid()
      modifies this`fails, this`arrays, arrays
      ensures Valid() && fresh(arrays - old(arrays))
      ensures Value() == With(old(Value()), key, After(At(old(Value()), key), cutoff) + [stamp])
    {
      hide After, Value, Valid, With, Pruned, At;
      PrunedThenAppended(Value(), key, cutoff, stamp);
      var kept, n := Recent(key, cutoff);
      Append(key, kept, n, stamp);
    }

    method Reset(key: Key)
      requires Valid()
      modifies this`fails
      ensures Valid() && Value() == Step(old(Value()), max, window, Event.Reset(key))
    {
      fails := fails - {key};
    }

    /** `recentLocked`: the array the kept failures are in, if there are any, and their number. */
    method Recent(key: Key, cutoff: Time) returns (kept: array?<Time>, n: nat)
      requires Valid()
      modifies this`fails, arrays
      ensures Valid() && Value() == Pruned(old(Value()), key, cutoff)
      ensures n == |After(At(old(Value()), key), cutoff)|
      ensures if n == 0 then kept == null && key !in fails
              else key in fails && fails[key].arr == kept && fails[key].len == n
    {
      hide After, With;
      ghost var was := Value();
      ghost var ts := After(At(was, key), cutoff);
      if key !in fails {
        NoneAfter(cutoff);
        OneKeyChanged(was, was, key, []);
        return null, 0;
      }
      var src := fails[key];
      n := Compact(src.arr, src.len, cutoff);
      assert forall k :: k in fails && k != key ==> Stored(k) == was[k];
      if n == 0 {
        fails := fails - {key};
        OneKeyChanged(Value(), was, key, ts);
        return null, 0;
      }
      Store(key, src.arr, n, was, ts);
      kept := src.arr;
    }

    /** `l.fails[key] = a[:n]`, for the array the key already has; `was` is the value before its
        elements were written. */
    method Store(key: Key, a: array<Time>, n: nat, ghost was: Fails, ghost ts: seq<Time>)
      requires Valid() && key in fails && fails[key].arr == a && n <= a.Length && a[..n] == ts != []
      requires was.Keys == fails.Keys && forall k :: k in fails && k != key ==> Stored(k) == was[k]
      modifies this`fails
      ensures Valid() && Value() == With(was, key, ts) == was[key := ts]
      ensures fails == old(fails)[key := Slice(a, n)]
    {
      fails := fails[key := Slice(a, n)];
      assert Stored(key) == ts;
      OneKeySet(Value(), was, key, ts);
    }

    /** `l.fails[key] = append(kept, t)` */
    method Append(key: Key, kept: array?<Time>, n: nat, t: Time)
      requires Valid()
      requires if n == 0 then kept == null && key !in fails
               else key in fails && fails[key].arr == kept && fails[key].len == n
      modifies this`fails, this`arrays, arrays
      ensures Valid() && fresh(arrays - old(arrays))
      ensures Value() == old(Value())[key := At(old(Value()), key) + [t]]
    {
      hide Value;
      if kept != null && n < kept.Length {
        AppendHere(key, kept, n, t);
      } else {
        AppendElsewhere(key, kept, n, t);
      }
    }

    method AppendHere(key: Key, kept: array<Time>, n: nat, t: Time)
      requires Valid() && key in fails && fails[key] == Slice(kept, n) && n < kept.Length
      modifies this`fails, kept
      ensures Valid() && Value() == old(Value())[key := At(old(Value()), key) + [t]]
    {
      ghost var was := Value();
      assert At(was, key) == kept[..n];
      hide With, At;
      kept[n] := t;
      assert forall k :: k in fails && k != key ==> Stored(k) == was[k];
      assert kept[..n + 1] == kept[..n] + [t];
      Store(key, kept, n + 1, was, At(was, key) + [t]);
    }

    method AppendElsewhere(key: Key, kept: array?<Time>, n: nat, t: Time)
      requires Valid()
      requires if n == 0 then kept == null && key !in fails
               else key in fails && fails[key].arr == kept && fails[key].len == n
      modifies this`fails, this`arrays
      ensures Valid() && fresh(arrays - old(arrays))
      ensures Value() == old(Value())[key := At(old(Value()), key) + [t]]
    {
      hide With;
      ghost var was := Value();
      var more := Grown(kept, n, t);
      arrays := arrays + {more};
      fails := fails[key := Slice(more, n + 1)];
      assert Stored(key) == At(was, key) + [t];
      OneKeySet(Value(), was, key, At(was, key) + [t]);
    }
  }

  /** A larger array, when the old one is full. */
  method Grown(kept: array?<Time>, n: nat, t: Time) returns (more: array<Time>)
    requires if kept == null then n == 0 else n <= kept.Length
    ensures fresh(more) && more.Length > n
    ensures more[..n + 1] == (if kept == null then [] else kept[..n]) + [t]
  {
    more := new Time[2 * n + 1](_ => t);
    for i := 0 to n
      invariant forall k :: 0 <= k < i ==> more[k] == kept[k]
      invariant more[n] == t
    {
      more[i] := kept[i];
    }
    assert kept != null ==> more[..n] == kept[..n];
    assert more[..n + 1] == more[..n] + [t];
  }

  /** The loop of `recentLocked`: the failures that are recent enough move to the front of the array
      they are read from. */
  method Compact(a: array<Time>, len: nat, cutoff: Time) returns (n: nat)
    requires len <= a.Length
    modifies a
    ensures n <= len && a[..n] == After(old(a[..len]), cutoff)
  {
    n := 0;
    for i := 0 to len
      invariant n <= i && a[..n] == After(old(a[..i]), cutoff)
      invariant forall k :: i <= k < len ==> a[k] == old(a[k])
    {
      ghost var before := old(a[..i + 1]);
      assert before[..i] == old(a[..i]);
      var t := a[i];
      if t > cutoff {
        a[n] := t;
        assert a[..n + 1] == a[..n] + [t];
        n := n + 1;
      }
    }
  }
}
