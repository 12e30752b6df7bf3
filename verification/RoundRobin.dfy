/**
  Round robin on one CPU (sched.c): a runnable thread at position k of the ready queue is dispatched
  within k + 1 calls of schedule(), whatever the other threads do in between.
  */
module RoundRobin {
  import opened Common
  import opened Queues
  import opened Scheduler

  /** `x` waits for its turn on the only CPU. */
  ghost predicate Waiting(s: State, x: Thread) {
    Inv(s) && |s.cpus| == 1 && x in s.ready && s.cpus[0].current != Some(x)
  }

  /** How many more calls of schedule() x can have to wait: one less if the current thread is still queued ahead of it. */
  function Turns(s: State, x: Thread): nat
    requires |s.cpus| == 1
  {
    Position(s.ready, x) +
    if s.cpus[0].current.Some? && Ahead(s.ready, s.cpus[0].current.value, x) then 0 else 1
  }

  /** A call of schedule() that gets as far as choosing a thread. */
  predicate Schedules(s: State, step: Step)
    requires |s.cpus| == 1
  {
    step == Schedule(0, true) && !s.cpus[0].switching
    && !(s.cpus[0].current.Some? && s.cpus[0].current.value in s.exiting)
  }

  /** With one CPU the first thread of the ready queue is always eligible. */
  lemma FrontIsPicked(s: State, q: seq<Thread>)
    requires Inv(s) && |s.cpus| == 1 && q != [] && forall t :: t in q ==> t in s.ready
    ensures FirstEligible(s.threads, q, 0) == Some(q[0])
  {
    assert q[0] in q;
    assert LinkOk(s, q[0]) && RunningOk(s, q[0]);
  }

  /** Each effective call dispatches x or brings it one turn closer. */
  lemma ScheduleBringsCloser(s: State, x: Thread)
    requires Waiting(s, x) && Schedules(s, Schedule(0, true))
    ensures var s' := Apply(s, Schedule(0, true));
            |s'.cpus| == 1 &&
            (s'.cpus[0].current == Some(x) || (Waiting(s', x) && Turns(s', x) < Turns(s, x)))
  {
    var s' := Apply(s, Schedule(0, true));
    StepKeeps(s, Schedule(0, true));
    var prev, q := s.cpus[0].current, Rotated(s, s.cpus[0].current);
    assert x in q && forall t :: t in q ==> t in s.ready by {
      assert prev.Some? ==> LinkOk(s, prev.value);
    }
    FrontIsPicked(s, q);
    assert s'.ready == q && s'.cpus[0].current == Some(q[0]);
    if q[0] != x {
      FrontIsAhead(q, x);
      if prev.Some? && s.Runnable(prev.value) {
        var p := prev.value;
        PositionAfterRemove(s.ready, p, x);
        AppendBehind(Remove(s.ready, p), [p], q[0], x);
      } else if prev.Some? {
        assert LinkOk(s, prev.value);
        AheadIsMember(s.ready, prev.value, x);
      }
    }
  }

  lemma BlockKeepsPlace(s: State, t: Thread, x: Thread)
    requires Waiting(s, x) && t != x
    ensures Waiting(BlockThread(s, t), x) && Turns(BlockThread(s, t), x) <= Turns(s, x)
  {
    BlockKeeps(s, t);
    var s' := BlockThread(s, t);
    if s.Runnable(t) {
      PositionAfterRemove(s.ready, t, x);
      if s.cpus[0].current.Some? {
        var p := s.cpus[0].current.value;
        if p != t {
          AheadAfterRemove(s.ready, t, p, x);
        }
      }
    }
  }

  /** A step that leaves the CPU alone and only adds at the back of the ready queue. */
  lemma AppendingKeepsPlace(s: State, s': State, tail: seq<Thread>, x: Thread)
    requires Waiting(s, x) && Inv(s') && s'.cpus == s.cpus && s'.ready == s.ready + tail
    ensures Waiting(s', x) && Turns(s', x) == Turns(s, x)
  {
    assert x in s'.ready;
    AppendBehind(s.ready, tail, x, x);
    if s.cpus[0].current.Some? {
      AppendBehind(s.ready, tail, s.cpus[0].current.value, x);
    }
  }

  lemma {:induction false} WakeJoinersAppends(s: State, z: Thread) returns (tail: seq<Thread>)
    ensures WakeJoiners(s, z).ready == s.ready + tail && WakeJoiners(s, z).cpus == s.cpus
    decreases if z in s.joiners then |s.joiners[z]| else 0
  {
    if z !in s.joiners || s.joiners[z] == [] {
      tail := [];
    } else {
      var s1 := WakeFirstJoiner(s, z);
      var j := s.joiners[z][0];
      var rest := WakeJoinersAppends(s1, z);
      tail := (if s1.ready == s.ready then [] else [j]) + rest;
    }
  }

  lemma WakeKeepsPlace(s: State, t: Thread, x: Thread)
    requires Waiting(s, x) && Inv(WakeThread(s, t))
    ensures Waiting(WakeThread(s, t), x) && Turns(WakeThread(s, t), x) == Turns(s, x)
  {
    var s' := WakeThread(s, t);
    AppendingKeepsPlace(s, s', if s'.ready == s.ready + [t] then [t] else [], x);
  }

  lemma SamePlace(s: State, s': State, x: Thread)
    requires Waiting(s, x) && Inv(s') && s'.ready == s.ready && |s'.cpus| == 1 && s'.cpus[0].current == s.cpus[0].current
    ensures Waiting(s', x) && Turns(s', x) == Turns(s, x)
  {
  }

  lemma ExitZombieKeepsPlace(s: State, c: nat, x: Thread)
    requires Waiting(s, x)
    ensures var s' := Apply(s, ExitZombie(c)); Waiting(s', x) && Turns(s', x) == Turns(s, x)
  {
    var s' := Apply(s, ExitZombie(c));
    ExitZombieKeeps(s, c);
    if s' == s {
      SamePlace(s, s', x);
    } else {
      hide WakeJoiners;
      var t := s.cpus[c].current.value;
      var s1 := s.(threads := s.threads[t := s.threads[t].(dying := true)], zombies := s.zombies + [t],
                   exiting := s.exiting - {t});
      var tail := WakeJoinersAppends(s1, t);
      AppendingKeepsPlace(s, s', tail, x);
    }
  }

  lemma ReapKeepsPlace(s: State, c: nat, t: Thread, x: Thread)
    requires Waiting(s, x)
    ensures var s' := Apply(s, Reap(c, t)); Waiting(s', x) && Turns(s', x) == Turns(s, x)
  {
    var s' := Apply(s, Reap(c, t));
    ReapKeeps(s, c, t);
    if s' == s {
      SamePlace(s, s', x);
    } else {
      hide WakeJoiners;
      var tail := WakeJoinersAppends(s.(zombies := Remove(s.zombies, t)), t);
      AppendingKeepsPlace(s, s', tail, x);
    }
  }

  lemma JoinKeepsPlace(s: State, c: nat, joinee: Thread, x: Thread)
    requires Waiting(s, x)
    ensures var s' := Apply(s, Join(c, joinee)); Waiting(s', x) && Turns(s', x) <= Turns(s, x)
  {
    JoinKeeps(s, c, joinee);
    var s' := Apply(s, Join(c, joinee));
    if s' != s {
      BlockKeepsPlace(s, s.cpus[c].current.value, x);
      SamePlace(BlockThread(s, s.cpus[c].current.value), s', x);
    }
  }

  lemma ExitBlockKeepsPlace(s: State, c: nat, x: Thread)
    requires Waiting(s, x)
    ensures var s' := Apply(s, ExitBlock(c)); Waiting(s', x) && Turns(s', x) <= Turns(s, x)
  {
    ExitBlockKeeps(s, c);
    var s' := Apply(s, ExitBlock(c));
    if s' != s {
      BlockKeepsPlace(s, s.cpus[c].current.value, x);
      SamePlace(BlockThread(s, s.cpus[c].current.value), s', x);
    }
  }

  lemma InterruptKeepsPlace(s: State, t: Thread, x: Thread)
    requires Waiting(s, x)
    ensures var s' := Apply(s, Interrupt(t)); Waiting(s', x) && Turns(s', x) == Turns(s, x)
  {
    InterruptKeeps(s, t);
    var s' := Apply(s, Interrupt(t));
    if s' == s {
      SamePlace(s, s', x);
    } else {
      AppendingKeepsPlace(s, s', if s'.ready == s.ready + [t] then [t] else [], x);
    }
  }

  /** No other step sets x back, unless it blocks x itself. */
  lemma OtherStepKeepsPlace(s: State, step: Step, x: Thread)
    requires Waiting(s, x) && !Schedules(s, step) && step != Block(x) && (step.Schedule? ==> step.up)
    ensures var s' := Apply(s, step); Waiting(s', x) && Turns(s', x) <= Turns(s, x)
  {
    StepKeeps(s, step);
    match step
    case Schedule(c, up) => SamePlace(s, Apply(s, step), x);
    case SwitchIn(c) => SamePlace(s, Apply(s, step), x);
    case Create(t) => SamePlace(s, Apply(s, step), x);
    case Block(t) => BlockKeepsPlace(s, t, x);
    case Wake(t) =>
      if !s.Dying(t) && !s.Joining(t) && t !in s.exiting { WakeKeepsPlace(s, t, x); }
    case Join(c, joinee) => JoinKeepsPlace(s, c, joinee, x);
    case ExitBlock(c) => ExitBlockKeepsPlace(s, c, x);
    case ExitZombie(c) => ExitZombieKeepsPlace(s, c, x);
    case Reap(c, t) => ReapKeepsPlace(s, c, t, x);
    case Interrupt(t) => InterruptKeepsPlace(s, t, x);
  }

  lemma CpusStay(s: State, step: Step)
    ensures |Apply(s, step).cpus| == |s.cpus|
  {
    match step
    case ExitZombie(c) =>
      var s' := Apply(s, step);
      if s' != s {
        var t := s.cpus[c].current.value;
        var s1 := s.(threads := s.threads[t := s.threads[t].(dying := true)], zombies := s.zombies + [t],
                     exiting := s.exiting - {t});
        WakeJoinersFrame(s1, t, []);
      }
    case Reap(c, t) => WakeJoinersFrame(s.(zombies := Remove(s.zombies, t)), t, []);
    case _ =>
  }

  /** The effective calls of schedule() in an interleaving. */
  function Calls(s: State, steps: seq<Step>): nat
    requires |s.cpus| == 1
    decreases steps
  {
    if steps == [] then 0
    else
      CpusStay(s, steps[0]);
      (if Schedules(s, steps[0]) then 1 else 0) + Calls(Apply(s, steps[0]), steps[1..])
  }

  /** x has its turn within Turns(s, x) effective calls. */
  lemma {:induction false} DispatchedInTime(s: State, steps: seq<Step>, x: Thread) returns (i: nat)
    requires Waiting(s, x) && Block(x) !in steps
    requires forall k :: 0 <= k < |steps| && steps[k].Schedule? ==> steps[k].up
    requires Calls(s, steps) >= Turns(s, x)
    ensures i <= |steps| && |Run(s, steps[..i]).cpus| == 1 && Run(s, steps[..i]).cpus[0].current == Some(x)
    decreases steps
  {
    hide Apply;
    var s' := Apply(s, steps[0]);
    assert steps[0] in steps;
    if Schedules(s, steps[0]) {
      ScheduleBringsCloser(s, x);
    } else {
      OtherStepKeepsPlace(s, steps[0], x);
    }
    if s'.cpus[0].current == Some(x) {
      i := 1;
      assert steps[..1][1..] == [];
      assert Run(s, steps[..1]) == s';
    } else {
      var rest := DispatchedInTime(s', steps[1..], x);
      i := rest + 1;
      assert steps[..i][1..] == steps[1..][..rest];
      assert Run(s, steps[..i]) == Run(s', steps[1..][..rest]);
    }
  }

  /**
    A runnable thread at position k of the ready queue becomes current within k + 1 calls of
    schedule(), whatever blocks, wakes, joins and exits of other threads come in between.
    */
  lemma RoundRobinBound(s: State, steps: seq<Step>, x: Thread, k: nat) returns (i: nat)
    requires Inv(s) && |s.cpus| == 1 && k < |s.ready| && s.ready[k] == x && s.cpus[0].current != Some(x)
    requires Block(x) !in steps && forall j :: 0 <= j < |steps| && steps[j].Schedule? ==> steps[j].up
    requires Calls(s, steps) >= k + 1
    ensures i <= |steps| && |Run(s, steps[..i]).cpus| == 1 && Run(s, steps[..i]).cpus[0].current == Some(x)
  {
    hide Apply, Calls, Run;
    PositionOfIndex(s.ready, k);
    i := DispatchedInTime(s, steps, x);
  }

  lemma {:induction false} PositionOfIndex(q: seq<Thread>, k: nat)
    requires k < |q|
    ensures Position(q, q[k]) <= k
  {
    if k > 0 {
      PositionOfIndex(q[1..], k - 1);
    }
  }
}
