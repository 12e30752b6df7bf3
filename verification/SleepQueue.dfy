/** The queue of sleeping threads, kept in the order of their wake-up times. */
module SleepQueue {
  /** A sleep queue object; the scheduler wakes its thread once and then leaves it marked expired. */
  datatype Sleeper = Sleeper(thread: nat, time: int, expired: bool)

  ghost predicate Sorted(q: seq<Sleeper>) {
    forall i: nat, j: nat :: i < j < |q| ==> q[i].time <= q[j].time
  }

  /** Position of the first object that wakes later. */
  ghost predicate LaterFrom(q: seq<Sleeper>, time: int, k: nat) {
    && k <= |q|
    && (forall i: nat :: i < k ==> q[i].time <= time)
    && (forall i: nat :: k <= i < |q| ==> q[i].time > time)
  }

  predicate Due(s: Sleeper, now: int) { !s.expired && s.time <= now }

  /** The threads whose time has come, in the order of the queue. */
  function DueThreads(q: seq<Sleeper>, now: int): seq<nat> {
    if q == [] then []
    else DueThreads(q[..|q| - 1], now) + if Due(q[|q| - 1], now) then [q[|q| - 1].thread] else []
  }

  lemma {:induction false} NoneDue(q: seq<Sleeper>, k: nat, now: int)
    requires k <= |q| && forall i: nat :: k <= i < |q| ==> !Due(q[i], now)
    ensures DueThreads(q, now) == DueThreads(q[..k], now)
    decreases |q|
  {
    if k == |q| {
      assert q[..k] == q;
    } else {
      var shorter := q[..|q| - 1];
      NoneDue(shorter, k, now);
      assert shorter[..k] == q[..k];
    }
  }

  lemma NextDue(q: seq<Sleeper>, k: nat, now: int)
    requires k < |q|
    ensures DueThreads(q[..k + 1], now) == DueThreads(q[..k], now) + if Due(q[k], now) then [q[k].thread] else []
  {
    assert q[..k + 1][..k] == q[..k];
  }

  /** The object after the timer looked at it. */
  function Timed(s: Sleeper, now: int): Sleeper { if Due(s, now) then s.(expired := true) else s }

  class Queue {
    var q: seq<Sleeper>

    constructor ()
      ensures q == []
    {
      q := [];
    }

    /** guk_sleep_queue_add: behind every object that wakes no later. */
    method Add(s: Sleeper)
      requires Sorted(q)
      modifies this
      ensures Sorted(q)
      ensures exists k: nat :: LaterFrom(old(q), s.time, k) && q == old(q)[..k] + [s] + old(q)[k..]
    {
      var k := 0;
      while k < |q| && !(q[k].time > s.time)
        invariant q == old(q) && 0 <= k <= |q| && forall i: nat :: i < k ==> q[i].time <= s.time
      {
        k := k + 1;
      }
      assert LaterFrom(old(q), s.time, k);
      q := q[..k] + [s] + q[k..];
    }

    /**
     * wake_expired: stops at the first object that is neither expired nor due, and still wakes every
     * thread that is due, because the queue is sorted.
     */
    method WakeExpired(now: int) returns (woken: seq<nat>)
      requires Sorted(q)
      modifies this
      ensures Sorted(q) && woken == DueThreads(old(q), now)
      ensures |q| == |old(q)| && forall i: nat :: i < |q| ==> q[i] == Timed(old(q)[i], now)
      ensures DueThreads(q, now) == []
    {
      hide DueThreads;
      woken := [];
      var k := 0;
      Nothing(now);
      assert q[..0] == [];
      while k < |q|
        invariant 0 <= k <= |q| == |old(q)| && woken == DueThreads(old(q)[..k], now)
        invariant forall i: nat :: i < k ==> q[i] == Timed(old(q)[i], now)
        invariant forall i: nat :: k <= i < |q| ==> q[i] == old(q)[i]
      {
        NextDue(old(q), k, now);
        var s := q[k];
        if s.expired {
          k := k + 1;
          continue;
        }
        if s.time <= now {
          q := q[k := s.(expired := true)];
          woken := woken + [s.thread];
        } else {
          break;
        }
        k := k + 1;
      }
      NoneDue(old(q), k, now);
      NoneDue(q, 0, now);
      assert q[..0] == [];
    }
  }

  lemma Nothing(now: int)
    ensures DueThreads([], now) == []
  {
  }
}
