/**
  What the steps of the scheduler achieve: a thread that is woken, interrupted, created or released
  from a join gets its turn, one that is blocked or joins does not run before that is undone, and one
  that exits goes away.
  */
module ThreadLife {
  import opened Common
  import opened Queues
  import opened RoundRobin
  import opened Scheduler

  // ---------- Single steps ----------

  /** Of all threads only t differs, and nothing else does but the queues of runnable and joining threads. */
  ghost predicate OnlyConcerns(s: State, s': State, t: Thread) {
    && s'.threads.Keys == s.threads.Keys && (forall u :: u in s.threads && u != t ==> s'.threads[u] == s.threads[u])
    && s'.zombies == s.zombies && s'.exiting == s.exiting && s'.cpus == s.cpus && s'.joiners.Keys == s.joiners.Keys
  }

  /** wake(): the thread is runnable and last on the ready queue. */
  lemma WakeTakesEffect(s: State, t: Thread)
    requires Inv(s) && t in s.threads && !s.Runnable(t) && !s.Dying(t) && !s.Joining(t) && t !in s.exiting
    ensures var s' := Apply(s, Wake(t));
      s'.Runnable(t) && s'.ready == s.ready + [t] && s'.joiners == s.joiners && OnlyConcerns(s, s', t)
  {
  }

  /** block(): the thread is not runnable and off the ready queue, whose order stays. */
  lemma BlockTakesEffect(s: State, t: Thread) returns (k: nat)
    requires Inv(s) && s.Runnable(t)
    ensures k < |s.ready| && s.ready[k] == t
    ensures var s' := Apply(s, Block(t));
      !s'.Runnable(t) && s'.ready == s.ready[..k] + s.ready[k + 1..] && s'.joiners == s.joiners && OnlyConcerns(s, s', t)
  {
    assert LinkOk(s, t);
    k := RemoveAt(s.ready, t);
  }

  lemma {:induction false} RemoveAt(q: seq<Thread>, x: Thread) returns (k: nat)
    requires Distinct(q) && x in q
    ensures k < |q| && q[k] == x && Remove(q, x) == q[..k] + q[k + 1..]
  {
    if q[0] == x {
      k := 0;
      RemoveAbsent(q[1..], x);
    } else {
      var rest := RemoveAt(q[1..], x);
      k := rest + 1;
      assert q[..k] == [q[0]] + q[1..][..rest];
      assert q[k + 1..] == q[1..][rest + 1..];
    }
  }

  /** join_thread(): the caller is last on the joiners queue and no longer runnable. */
  lemma JoinTakesEffect(s: State, c: nat, t: Thread, joinee: Thread)
    requires Inv(s) && Acts(s, c, t) && joinee in s.joiners
    ensures var s' := Apply(s, Join(c, joinee));
      !s'.Runnable(t) && s'.Joining(t) && s'.joiners == s.joiners[joinee := s.joiners[joinee] + [t]]
      && s'.ready == Remove(s.ready, t) && OnlyConcerns(s, s', t)
  {
    assert LinkOk(s, t);
    if !s.Runnable(t) {
      RemoveAbsent(s.ready, t);
    }
  }

  lemma NotOnAnyQueue(s: State, t: Thread)
    requires !Joined(s, t)
    ensures forall j :: j in s.joiners ==> s.joiners[j] == Remove(s.joiners[j], t)
  {
    forall j | j in s.joiners
      ensures s.joiners[j] == Remove(s.joiners[j], t)
    {
      RemoveAbsent(s.joiners[j], t);
    }
  }

  /** interrupt(): a waiting thread, joining or not, is off the joiners queues and last on the ready queue. */
  lemma InterruptTakesEffect(s: State, t: Thread)
    requires Inv(s) && t in s.threads && !s.Runnable(t) && !s.Running(t) && !s.Dying(t)
    ensures var s' := Apply(s, Interrupt(t));
      s'.Runnable(t) && !s'.Joining(t) && s'.ready == s.ready + [t] && OnlyConcerns(s, s', t)
      && forall j :: j in s.joiners ==> s'.joiners[j] == Remove(s.joiners[j], t)
  {
    hide Cpus, ExitOk, JoinersOk;
    assert LinkOk(s, t);
    if !s.Joining(t) {
      NotOnAnyQueue(s, t);
    }
  }

  /** A CPU that calls schedule() runs the idle thread exactly if every runnable thread is running on another CPU. */
  lemma IdleOnlyWithoutWork(s: State, c: nat)
    requires Inv(s) && c < |s.cpus| && !s.cpus[c].switching && !(s.cpus[c].current.Some? && s.cpus[c].current.value in s.exiting)
    ensures var s' := Apply(s, Schedule(c, true));
      s'.cpus[c].current == None <==> forall t :: s.Runnable(t) ==> s.Running(t) && s.threads[t].cpu != c
  {
    var ready := Rotated(s, s.cpus[c].current);
    forall t
      ensures t in ready <==> s.Runnable(t)
    {
      assert LinkOk(s, t);
    }
    var s' := Apply(s, Schedule(c, true));
    assert s'.cpus[c].current == FirstEligible(s.threads, ready, c);
  }

  // ---------- Who is made runnable runs ----------

  /** On one CPU, a thread last on the ready queue of s is current within as many calls of schedule() as there are threads on it. */
  lemma LastRuns(s: State, steps: seq<Step>, x: Thread, k: nat) returns (i: nat)
    requires Inv(s) && |s.cpus| == 1 && k < |s.ready| && s.ready[k] == x
    requires Block(x) !in steps && forall j :: 0 <= j < |steps| && steps[j].Schedule? ==> steps[j].up
    requires Calls(s, steps) >= k + 1
    ensures i <= |steps| && |Run(s, steps[..i]).cpus| == 1 && Run(s, steps[..i]).cpus[0].current == Some(x)
  {
    hide Inv, Calls, Apply;
    if s.cpus[0].current == Some(x) {
      i := 0;
      assert steps[..0] == [];
    } else {
      i := RoundRobinBound(s, steps, x, k);
    }
  }

  /** A woken thread has its turn within |ready| + 1 calls, over every continuation that does not block it. */
  lemma WokenThreadRuns(s: State, steps: seq<Step>, x: Thread) returns (i: nat)
    requires Inv(s) && |s.cpus| == 1 && x in s.threads && !s.Runnable(x) && !s.Dying(x) && !s.Joining(x) && x !in s.exiting
    requires |Apply(s, Wake(x)).cpus| == 1 && Calls(Apply(s, Wake(x)), steps) >= |s.ready| + 1
    requires Block(x) !in steps && forall j :: 0 <= j < |steps| && steps[j].Schedule? ==> steps[j].up
    ensures i <= |steps| && var r := Run(Apply(s, Wake(x)), steps[..i]); |r.cpus| == 1 && r.cpus[0].current == Some(x)
  {
    hide Calls, Run, Inv, Apply;
    WakeTakesEffect(s, x);
    StepKeeps(s, Wake(x));
    i := LastRuns(Apply(s, Wake(x)), steps, x, |s.ready|);
  }

  /** So does an interrupted one, even out of a join. */
  lemma InterruptedThreadRuns(s: State, steps: seq<Step>, x: Thread) returns (i: nat)
    requires Inv(s) && |s.cpus| == 1 && x in s.threads && !s.Runnable(x) && !s.Running(x) && !s.Dying(x)
    requires |Apply(s, Interrupt(x)).cpus| == 1 && Calls(Apply(s, Interrupt(x)), steps) >= |s.ready| + 1
    requires Block(x) !in steps && forall j :: 0 <= j < |steps| && steps[j].Schedule? ==> steps[j].up
    ensures i <= |steps| && var r := Run(Apply(s, Interrupt(x)), steps[..i]); |r.cpus| == 1 && r.cpus[0].current == Some(x)
  {
    hide Calls, Run, Inv, Apply;
    InterruptTakesEffect(s, x);
    StepKeeps(s, Interrupt(x));
    i := LastRuns(Apply(s, Interrupt(x)), steps, x, |s.ready|);
  }

  /** create_thread() wakes the thread it makes, so that runs too. */
  lemma CreatedThreadRuns(s: State, steps: seq<Step>, x: Thread) returns (i: nat)
    requires Inv(s) && |s.cpus| == 1 && x !in s.threads
    requires var s' := Apply(Apply(s, Create(x)), Wake(x)); |s'.cpus| == 1 && Calls(s', steps) >= |s.ready| + 1
    requires Block(x) !in steps && forall j :: 0 <= j < |steps| && steps[j].Schedule? ==> steps[j].up
    ensures i <= |steps|
    ensures var r := Run(Apply(Apply(s, Create(x)), Wake(x)), steps[..i]); |r.cpus| == 1 && r.cpus[0].current == Some(x)
  {
    hide Calls, Run;
    CreateTakesEffect(s, x);
    StepKeeps(s, Create(x));
    hide Inv, Apply;
    i := WokenThreadRuns(Apply(s, Create(x)), steps, x);
  }

  lemma CreateTakesEffect(s: State, x: Thread)
    requires Inv(s) && x !in s.threads
    ensures var s' := Apply(s, Create(x));
      && x in s'.threads && !s'.Runnable(x) && !s'.Dying(x) && !s'.Joining(x) && x !in s'.exiting
      && s'.ready == s.ready && s'.cpus == s.cpus && s'.threads.Keys == s.threads.Keys + {x}
      && forall u :: u in s.threads ==> s'.threads[u] == s.threads[u]
  {
    assert LinkOk(s, x);
  }

  // ---------- Who is not, does not ----------

  ghost predicate CurrentNowhere(s: State, t: Thread) { forall c :: 0 <= c < |s.cpus| ==> s.cpus[c].current != Some(t) }

  /** A thread that waits for a wake-up: not runnable, in no join, and switched out. */
  ghost predicate Asleep(s: State, t: Thread) { !s.Runnable(t) && !s.Joining(t) && CurrentNowhere(s, t) }

  lemma {:induction false} WakeJoinersLeaves(s: State, z: Thread, t: Thread)
    requires Links(s) && !s.Joining(t)
    ensures WakeJoiners(s, z).Runnable(t) == s.Runnable(t) && !WakeJoiners(s, z).Joining(t)
    decreases if z in s.joiners then |s.joiners[z]| else 0
  {
    if z in s.joiners && s.joiners[z] != [] {
      assert LinkOk(s, t) && s.joiners[z][0] in s.joiners[z];
      WakeFirstJoinerKeepsLinks(s, z);
      WakeJoinersLeaves(WakeFirstJoiner(s, z), z, t);
    }
  }

  lemma ExitZombieLeaves(s: State, c: nat, t: Thread)
    requires Inv(s) && Asleep(s, t)
    ensures Asleep(Apply(s, ExitZombie(c)), t)
  {
    hide WakeJoiners;
    var s' := Apply(s, ExitZombie(c));
    if s' != s {
      var z := s.cpus[c].current.value;
      var s1 := s.(threads := s.threads[z := s.threads[z].(dying := true)], zombies := s.zombies + [z],
                   exiting := s.exiting - {z});
      DieKeepsLinks(s, z);
      WakeJoinersLeaves(s1, z, t);
      WakeJoinersFrame(s1, z, []);
    }
  }

  lemma ReapLeaves(s: State, c: nat, z: Thread, t: Thread)
    requires Inv(s) && Asleep(s, t)
    ensures Asleep(Apply(s, Reap(c, z)), t)
  {
    hide WakeJoiners;
    var s' := Apply(s, Reap(c, z));
    if s' != s {
      WakeJoinersLeaves(s, z, t);
      WakeJoinersFrame(s, z, Remove(s.zombies, z));
    }
  }

  lemma ScheduleLeaves(s: State, c: nat, up: bool, t: Thread)
    requires Inv(s) && Asleep(s, t)
    ensures Asleep(Apply(s, Schedule(c, up)), t)
  {
  }

  lemma StaysAsleep(s: State, step: Step, t: Thread)
    requires Inv(s) && Asleep(s, t) && step != Wake(t) && step != Interrupt(t)
    ensures Asleep(Apply(s, step), t)
  {
    match step
    case Schedule(c, up) => ScheduleLeaves(s, c, up, t);
    case ExitZombie(c) => ExitZombieLeaves(s, c, t);
    case Reap(c, z) => ReapLeaves(s, c, z, t);
    case _ =>
  }

  /** Over every interleaving on any number of CPUs, a blocked thread that was switched out runs nowhere until somebody wakes it. */
  lemma {:induction false} BlockedUntilWoken(s: State, steps: seq<Step>, t: Thread)
    requires Inv(s) && Asleep(s, t) && Wake(t) !in steps && Interrupt(t) !in steps
    ensures Asleep(Run(s, steps), t)
    decreases steps
  {
    if steps != [] {
      hide Apply, Inv, Asleep;
      assert steps == [steps[0]] + steps[1..];
      StaysAsleep(s, steps[0], t);
      StepKeeps(s, steps[0]);
      BlockedUntilWoken(Apply(s, steps[0]), steps[1..], t);
    }
  }

  // ---------- Joins ----------

  /** t waits on the joiners queue of z. */
  ghost predicate WaitsFor(s: State, t: Thread, z: Thread) { z in s.joiners && t in s.joiners[z] }

  ghost predicate Exited(s: State, z: Thread) { z !in s.threads || s.Dying(z) }

  lemma {:induction false} WakeJoinersElsewhere(s: State, z: Thread, y: Thread)
    requires y != z && y in s.joiners
    ensures y in WakeJoiners(s, z).joiners && WakeJoiners(s, z).joiners[y] == s.joiners[y]
    decreases if z in s.joiners then |s.joiners[z]| else 0
  {
    if z in s.joiners && s.joiners[z] != [] {
      WakeJoinersElsewhere(WakeFirstJoiner(s, z), z, y);
    }
  }

  lemma ExitZombieAndJoin(s: State, c: nat, t: Thread, z: Thread)
    requires Inv(s) && WaitsFor(s, t, z)
    ensures var s' := Apply(s, ExitZombie(c)); WaitsFor(s', t, z) || Exited(s', z)
  {
    hide WakeJoiners;
    var s' := Apply(s, ExitZombie(c));
    if s' != s {
      var y := s.cpus[c].current.value;
      var s1 := s.(threads := s.threads[y := s.threads[y].(dying := true)], zombies := s.zombies + [y],
                   exiting := s.exiting - {y});
      WakeJoinersFrame(s1, y, []);
      if y != z {
        WakeJoinersElsewhere(s1, y, z);
      }
    }
  }

  lemma ReapAndJoin(s: State, c: nat, y: Thread, t: Thread, z: Thread)
    requires Inv(s) && WaitsFor(s, t, z)
    ensures var s' := Apply(s, Reap(c, y)); WaitsFor(s', t, z) || Exited(s', z)
  {
    hide WakeJoiners;
    var s' := Apply(s, Reap(c, y));
    if s' != s && y != z {
      WakeJoinersElsewhere(s.(zombies := Remove(s.zombies, y)), y, z);
    }
  }

  lemma JoinLastsAStep(s: State, step: Step, t: Thread, z: Thread)
    requires Inv(s) && WaitsFor(s, t, z) && step != Interrupt(t)
    ensures var s' := Apply(s, step); WaitsFor(s', t, z) || Exited(s', z)
  {
    match step
    case ExitZombie(c) => ExitZombieAndJoin(s, c, t, z);
    case Reap(c, y) => ReapAndJoin(s, c, y, t, z);
    case _ =>
  }

  /**
    Over every interleaving that does not interrupt it, a joining thread stays on the queue, and so
    cannot run, until the thread it waits for has exited.
    */
  lemma {:induction false} JoinLastsUntilExit(s: State, steps: seq<Step>, t: Thread, z: Thread) returns (i: nat)
    requires Inv(s) && WaitsFor(s, t, z) && Interrupt(t) !in steps
    ensures i <= |steps|
    ensures (WaitsFor(Run(s, steps), t, z) && !Run(s, steps).Runnable(t)) || Exited(Run(s, steps[..i]), z)
    decreases steps
  {
    hide Apply, Inv, WaitsFor, Exited;
    i := 0;
    if steps == [] {
      JoinerIsNotRunnable(s, t, z);
    } else {
      var s' := Apply(s, steps[0]);
      assert steps == [steps[0]] + steps[1..];
      JoinLastsAStep(s, steps[0], t, z);
      StepKeeps(s, steps[0]);
      if Exited(s', z) {
        i := 1;
        assert steps[..1][1..] == [];
        assert Run(s, steps[..1]) == s';
      } else {
        var rest := JoinLastsUntilExit(s', steps[1..], t, z);
        i := rest + 1;
        assert steps[..i][1..] == steps[1..][..rest];
        assert Run(s, steps[..i]) == Run(s', steps[1..][..rest]);
      }
    }
  }

  lemma JoinerIsNotRunnable(s: State, t: Thread, z: Thread)
    requires Inv(s) && WaitsFor(s, t, z)
    ensures !s.Runnable(t) && s.Joining(t)
  {
    assert LinkOk(s, t) && Joined(s, t);
  }

  /** When that exits, all who wait for it follow each other at the end of the ready queue. */
  lemma ExitReleasesJoiners(s: State, c: nat, z: Thread)
    requires Inv(s) && c < |s.cpus| && s.cpus[c].current == Some(z) && z in s.exiting
    ensures z in s.joiners
    ensures var s' := Apply(s, ExitZombie(c));
      && s'.ready == s.ready + s.joiners[z] && z in s'.joiners && s'.joiners[z] == []
      && s'.Dying(z) && s'.zombies == s.zombies + [z] && z !in s'.exiting && s'.cpus == s.cpus
      && forall t :: t in s.joiners[z] ==> s'.Runnable(t) && !s'.Joining(t)
  {
    hide WakeJoiners;
    assert LinkOk(s, z) && CpuOk(s, c);
    DieKeepsLinks(s, z);
    var s1 := s.(threads := s.threads[z := s.threads[z].(dying := true)], zombies := s.zombies + [z],
                 exiting := s.exiting - {z});
    WakeJoinersKeepsLinks(s1, z);
    WakeJoinersFrame(s1, z, []);
    forall t | t in s.joiners[z]
      ensures WakeJoiners(s1, z).Runnable(t) && !WakeJoiners(s1, z).Joining(t)
    {
      WakesEveryJoiner(s1, z, t);
    }
  }

  /** So each of them runs within as many calls as threads are on it then. */
  lemma ReleasedJoinerRuns(s: State, c: nat, z: Thread, steps: seq<Step>, k: nat) returns (i: nat)
    requires Inv(s) && c < |s.cpus| == 1 && s.cpus[c].current == Some(z) && z in s.exiting && z in s.joiners && k < |s.joiners[z]|
    requires |Apply(s, ExitZombie(c)).cpus| == 1 && Calls(Apply(s, ExitZombie(c)), steps) >= |s.ready| + k + 1
    requires Block(s.joiners[z][k]) !in steps && forall j :: 0 <= j < |steps| && steps[j].Schedule? ==> steps[j].up
    ensures i <= |steps|
    ensures var r := Run(Apply(s, ExitZombie(c)), steps[..i]); |r.cpus| == 1 && r.cpus[0].current == Some(s.joiners[z][k])
  {
    hide Calls, Run, Inv, Apply;
    ExitReleasesJoiners(s, c, z);
    StepKeeps(s, ExitZombie(c));
    i := LastRuns(Apply(s, ExitZombie(c)), steps, s.joiners[z][k], |s.ready| + k);
  }

  // ---------- Exits ----------

  /**
    A thread that exits is gone, from every queue and CPU, after the two sections of exit_thread, the
    switch away from it and one pass of the reaper, and all that joined it are runnable.
    */
  lemma ExitedThreadGoes(s: State, c: nat, t: Thread)
    requires Inv(s) && Acts(s, c, t)
    ensures t in s.joiners
    ensures var r := Run(s, [ExitBlock(c), ExitZombie(c), Schedule(c, true), SwitchIn(c), Reap(c, t)]);
      && t !in r.threads && t !in r.ready && t !in r.zombies && t !in r.exiting && CurrentNowhere(r, t)
      && forall j :: j in s.joiners[t] ==> r.Runnable(j) && !r.Joining(j)
  {
    hide Run, Inv;
    var s1 := Apply(s, ExitBlock(c));
    var s2 := Apply(s1, ExitZombie(c));
    var s3 := Apply(s2, Schedule(c, true));
    var s4 := Apply(s3, SwitchIn(c));
    var s5 := Apply(s4, Reap(c, t));
    FiveSteps(s, ExitBlock(c), ExitZombie(c), Schedule(c, true), SwitchIn(c), Reap(c, t));
    StepKeeps(s, ExitBlock(c));
    StepKeeps(s1, ExitZombie(c));
    StepKeeps(s2, Schedule(c, true));
    StepKeeps(s3, SwitchIn(c));
    StepKeeps(s4, Reap(c, t));
    ExitBlockEnters(s, c, t);
    ExitReleasesJoiners(s1, c, t);
    SwitchedAway(s2, c, t);
    ReapedThread(s4, c, t);
    forall j | j in s.joiners[t]
      ensures s5.Runnable(j) && !s5.Joining(j)
    {
      SwitchedAwayKeeps(s2, c, j);
      ReapKeepsRunnable(s4, c, t, j);
    }
  }

  lemma FiveSteps(s: State, a: Step, b: Step, c: Step, d: Step, e: Step)
    ensures Run(s, [a, b, c, d, e]) == Apply(Apply(Apply(Apply(Apply(s, a), b), c), d), e)
  {
    hide Apply;
    var s1 := Apply(s, a);
    var s2 := Apply(s1, b);
    var s3 := Apply(s2, c);
    var s4 := Apply(s3, d);
    assert [a, b, c, d, e][1..] == [b, c, d, e] && [b, c, d, e][1..] == [c, d, e] && [c, d, e][1..] == [d, e];
    assert [d, e][1..] == [e] && [e][1..] == [];
    assert Run(s4, [e]) == Apply(s4, e);
    assert Run(s3, [d, e]) == Run(s4, [e]);
    assert Run(s2, [c, d, e]) == Run(s3, [d, e]);
  }

  lemma ExitBlockEnters(s: State, c: nat, t: Thread)
    requires Inv(s) && Acts(s, c, t)
    ensures var s' := Apply(s, ExitBlock(c)); t in s'.exiting && s'.cpus == s.cpus && s'.joiners == s.joiners && t in s.joiners
  {
  }

  /** schedule() and switch_thread_in() on the CPU of a dying thread. */
  lemma SwitchedAway(s: State, c: nat, t: Thread)
    requires Inv(s) && c < |s.cpus| && s.cpus[c].current == Some(t) && !s.cpus[c].switching && s.Dying(t) && t !in s.exiting
    ensures var s' := Apply(Apply(s, Schedule(c, true)), SwitchIn(c));
      t in s'.zombies && s'.Dying(t) && !s'.Running(t) && s'.threads[t].cpu == c && t in s'.joiners && s'.joiners == s.joiners
      && CurrentNowhere(s', t)
  {
    assert LinkOk(s, t) && CpuOk(s, c);
    InvIsSafe(s);
  }

  lemma SwitchedAwayKeeps(s: State, c: nat, j: Thread)
    ensures var s' := Apply(Apply(s, Schedule(c, true)), SwitchIn(c));
      s'.Runnable(j) == s.Runnable(j) && s'.Joining(j) == s.Joining(j)
  {
  }

  lemma ReapedThread(s: State, c: nat, t: Thread)
    requires Inv(s) && t in s.zombies && s.Dying(t) && !s.Running(t) && s.threads[t].cpu == c && CurrentNowhere(s, t)
    ensures var s' := Apply(s, Reap(c, t));
      t !in s'.threads && t !in s'.ready && t !in s'.zombies && t !in s'.exiting && CurrentNowhere(s', t)
  {
    hide WakeJoiners;
    StepKeeps(s, Reap(c, t));
    var s' := Apply(s, Reap(c, t));
    WakeJoinersFrame(s, t, Remove(s.zombies, t));
    assert LinkOk(s', t);
  }

  lemma ReapKeepsRunnable(s: State, c: nat, z: Thread, j: Thread)
    requires Inv(s) && s.Runnable(j) && !s.Joining(j) && s.Dying(z)
    ensures var s' := Apply(s, Reap(c, z)); s'.Runnable(j) && !s'.Joining(j)
  {
    hide WakeJoiners;
    assert LinkOk(s, z) && LinkOk(s, j);
    WakeJoinersLeaves(s, z, j);
    WakeJoinersFrame(s, z, Remove(s.zombies, z));
  }
}
