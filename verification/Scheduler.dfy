/**
  The scheduler (sched.c) without the application-scheduler upcalls and the debugger. Each section
  under a lock is one atomic step; the choice made by pick_thread and the assignment of next->cpu
  are one step. A sequence of steps is one interleaving on any number of CPUs.
  */
module Scheduler {
  import opened Common
  import opened Queues

  type Thread = nat

  /** The flags of a thread other than an idle thread, and the CPU it last ran on. */
  datatype Info = Info(runnable: bool, running: bool, dying: bool, joining: bool, cpu: int)

  /**
    A CPU: its current thread (None is its idle thread) and, from the choice of the next thread until
    switch_thread_in, the thread being switched out.
    */
  datatype Cpu = Cpu(current: Option<Thread>, switching: bool, prev: Option<Thread>)

  /**
    The three uses of a thread's single `ready_list` link are the ready queue, the zombie queue and
    the joiners queue of another thread. `exiting` are the threads in exit_thread that have blocked
    and are not yet zombies.
    */
  datatype State = State(
    threads: map<Thread, Info>,
    ready: seq<Thread>,
    zombies: seq<Thread>,
    joiners: map<Thread, seq<Thread>>,
    exiting: set<Thread>,
    cpus: seq<Cpu>)
  {
    predicate Runnable(t: Thread) { t in threads && threads[t].runnable }
    predicate Running(t: Thread) { t in threads && threads[t].running }
    predicate Dying(t: Thread) { t in threads && threads[t].dying }
    predicate Joining(t: Thread) { t in threads && threads[t].joining }
  }

  datatype Step =
    | Schedule(c: nat, up: bool)
    | SwitchIn(c: nat)
    | Create(t: Thread)
    | Block(t: Thread)
    | Wake(t: Thread)
    | Join(c: nat, joinee: Thread)
    | ExitBlock(c: nat)
    | ExitZombie(c: nat)
    | Reap(c: nat, t: Thread)
    | Interrupt(t: Thread)

  // ---------- pick_thread ----------

  /** A thread that pick_thread accepts on CPU c: runnable and not running on another CPU. */
  predicate Eligible(threads: map<Thread, Info>, t: Thread, c: int) {
    t in threads && threads[t].runnable && !(threads[t].running && threads[t].cpu != c)
  }

  function FirstEligible(threads: map<Thread, Info>, q: seq<Thread>, c: int): (r: Option<Thread>)
    ensures r.Some? ==> r.value in q && Eligible(threads, r.value, c)
    ensures r.None? ==> forall t :: t in q ==> !Eligible(threads, t, c)
  {
    if q == [] then None else if Eligible(threads, q[0], c) then Some(q[0]) else FirstEligible(threads, q[1..], c)
  }

  /** The scan of the ready queue: the first eligible thread, skipping nobody that is eligible. */
  method ScanReady(threads: map<Thread, Info>, ready: seq<Thread>, c: int) returns (next: Option<Thread>)
    ensures next == FirstEligible(threads, ready, c)
    ensures next.Some? ==> exists k :: 0 <= k < |ready| && next.value == ready[k]
                              && forall j :: 0 <= j < k ==> !Eligible(threads, ready[j], c)
  {
    next := None;
    var i := 0;
    while i < |ready|
      invariant 0 <= i <= |ready| && next == None
      invariant forall j :: 0 <= j < i ==> !Eligible(threads, ready[j], c)
      invariant FirstEligible(threads, ready, c) == FirstEligible(threads, ready[i..], c)
    {
      if Eligible(threads, ready[i], c) {
        next := Some(ready[i]);
        break;
      }
      i := i + 1;
    }
  }

  /** Unless the previous thread is idle or blocked, it moves to the back of the ready queue. */
  function Rotated(s: State, prev: Option<Thread>): seq<Thread> {
    if prev.Some? && s.Runnable(prev.value) then Remove(s.ready, prev.value) + [prev.value] else s.ready
  }

  function PickThread(s: State, c: nat): (State, Option<Thread>)
    requires c < |s.cpus|
  {
    var ready := Rotated(s, s.cpus[c].current);
    var next := FirstEligible(s.threads, ready, c);
    var threads := if next.None? then s.threads
                   else s.threads[next.value := s.threads[next.value].(running := true, cpu := c)];
    (s.(ready := ready, threads := threads), next)
  }

  /** The switch: `next` becomes current and the old current is switched out, unless they are the same. */
  function SwitchTo(s: State, c: nat, next: Option<Thread>): State
    requires c < |s.cpus|
  {
    var prev := s.cpus[c].current;
    if next == prev then s else s.(cpus := s.cpus[c := Cpu(next, true, prev)])
  }

  // ---------- The other operations ----------

  function BlockThread(s: State, t: Thread): State {
    if s.Runnable(t) then
      s.(threads := s.threads[t := s.threads[t].(runnable := false)], ready := Remove(s.ready, t))
    else s
  }

  function WakeThread(s: State, t: Thread): State {
    if t in s.threads && !s.Runnable(t) then
      s.(threads := s.threads[t := s.threads[t].(runnable := true)], ready := s.ready + [t])
    else s
  }

  /** The first round of wake_joiners: unlink, clear JOIN, wake. */
  function WakeFirstJoiner(s: State, z: Thread): State
    requires z in s.joiners && s.joiners[z] != []
  {
    var j := s.joiners[z][0];
    var s1 := s.(joiners := s.joiners[z := s.joiners[z][1..]]);
    if j in s.threads then WakeThread(s1.(threads := s1.threads[j := s1.threads[j].(joining := false)]), j) else s1
  }

  function WakeJoiners(s: State, z: Thread): State
    decreases if z in s.joiners then |s.joiners[z]| else 0
  {
    if z !in s.joiners || s.joiners[z] == [] then s else WakeJoiners(WakeFirstJoiner(s, z), z)
  }

  /** list_del_init on the link of a joining thread. */
  function Unlink(s: State, t: Thread): State {
    s.(joiners := map j | j in s.joiners :: Remove(s.joiners[j], t),
       threads := if t in s.threads then s.threads[t := s.threads[t].(joining := false)] else s.threads)
  }

  /** The thread running its own code on CPU c: not idle, not in a switch, not already joining, exiting or dying. */
  predicate Acts(s: State, c: nat, t: Thread) {
    && c < |s.cpus| && !s.cpus[c].switching && s.cpus[c].current == Some(t)
    && t in s.threads && !s.threads[t].joining && !s.threads[t].dying && t !in s.exiting
  }

  /** One atomic step; a step that is not possible changes nothing. */
  function Apply(s: State, step: Step): State {
    match step
    case Schedule(c, up) =>
      // exit_thread runs with preemption disabled until its thread is a zombie
      if c >= |s.cpus| || s.cpus[c].switching || (s.cpus[c].current.Some? && s.cpus[c].current.value in s.exiting) then s
      else if up then
        var (s1, next) := PickThread(s, c);
        SwitchTo(s1, c, next)
      else SwitchTo(s, c, None)
    case SwitchIn(c) =>
      if c >= |s.cpus| || !s.cpus[c].switching then s
      else
        var cpus := s.cpus[c := s.cpus[c].(switching := false, prev := None)];
        if s.cpus[c].prev.Some? && s.cpus[c].prev.value in s.threads then
          var p := s.cpus[c].prev.value;
          s.(cpus := cpus, threads := s.threads[p := s.threads[p].(running := false)])
        else s.(cpus := cpus)
    case Create(t) =>
      if t in s.threads then s
      else s.(threads := s.threads[t := Info(false, false, false, false, -1)], joiners := s.joiners[t := []])
    case Block(t) =>
      BlockThread(s, t)
    case Wake(t) =>
      // the caller may not wake a thread that is in another queue or on its way there
      if s.Dying(t) || s.Joining(t) || t in s.exiting then s else WakeThread(s, t)
    case Join(c, joinee) =>
      if c < |s.cpus| && s.cpus[c].current.Some? && Acts(s, c, s.cpus[c].current.value) && joinee in s.joiners then
        var t := s.cpus[c].current.value;
        var s1 := BlockThread(s, t);
        s1.(threads := s1.threads[t := s1.threads[t].(joining := true)],
            joiners := s1.joiners[joinee := s1.joiners[joinee] + [t]])
      else s
    case ExitBlock(c) =>
      if c < |s.cpus| && s.cpus[c].current.Some? && Acts(s, c, s.cpus[c].current.value) then
        var t := s.cpus[c].current.value;
        var s1 := BlockThread(s, t);
        s1.(exiting := s1.exiting + {t})
      else s
    case ExitZombie(c) =>
      if c < |s.cpus| && !s.cpus[c].switching && s.cpus[c].current.Some? && s.cpus[c].current.value in s.exiting
         && s.cpus[c].current.value in s.threads then
        var t := s.cpus[c].current.value;
        var s1 := s.(threads := s.threads[t := s.threads[t].(dying := true)], zombies := s.zombies + [t],
                     exiting := s.exiting - {t});
        WakeJoiners(s1, t)
      else s
    case Reap(c, t) =>
      if t in s.zombies && s.Dying(t) && !s.Running(t) && s.threads[t].cpu == c then
        var s1 := WakeJoiners(s.(zombies := Remove(s.zombies, t)), t);
        s1.(threads := s1.threads - {t}, joiners := s1.joiners - {t})
      else s
    case Interrupt(t) =>
      if t !in s.threads || s.Runnable(t) || s.Running(t) || s.Dying(t) then s
      else WakeThread(if s.Joining(t) then Unlink(s, t) else s, t)
  }

  function Run(s: State, steps: seq<Step>): State
    decreases steps
  {
    if steps == [] then s else Run(Apply(s, steps[0]), steps[1..])
  }

  /** Boot: every CPU runs its idle thread and no other thread exists. */
  function Boot(ncpus: nat): State {
    State(map[], [], [], map[], {}, seq(ncpus, _ => Cpu(None, false, None)))
  }

  // ---------- What every interleaving keeps: the queues ----------

  ghost predicate Joined(s: State, t: Thread) {
    exists j :: j in s.joiners && t in s.joiners[j]
  }

  /** A thread is on the queue its flags say, and its link is used at most once. */
  ghost predicate LinkOk(s: State, t: Thread) {
    && (t in s.ready <==> s.Runnable(t))
    && (t in s.zombies <==> s.Dying(t))
    && (Joined(s, t) <==> s.Joining(t))
    && !(s.Runnable(t) && s.Dying(t)) && !(s.Runnable(t) && s.Joining(t)) && !(s.Dying(t) && s.Joining(t))
    && (t in s.exiting ==> t in s.threads && !s.Runnable(t) && !s.Dying(t) && !s.Joining(t))
  }

  ghost predicate JoinersOk(s: State) {
    && s.joiners.Keys == s.threads.Keys
    && (forall j :: j in s.joiners ==> Distinct(s.joiners[j]))
    && (forall i, j, t :: i in s.joiners && j in s.joiners && t in s.joiners[i] && t in s.joiners[j] ==> i == j)
  }

  ghost predicate Links(s: State) {
    && Distinct(s.ready) && Distinct(s.zombies) && JoinersOk(s)
    && forall t :: LinkOk(s, t)
  }

  lemma BlockKeepsLinks(s: State, t: Thread)
    requires Links(s)
    ensures Links(BlockThread(s, t))
  {
    var s' := BlockThread(s, t);
    RemoveDistinct(s.ready, t);
    forall u
      ensures LinkOk(s', u)
    {
      assert LinkOk(s, u);
      assert Joined(s', u) == Joined(s, u);
    }
  }

  lemma WakeKeepsLinks(s: State, t: Thread)
    requires Links(s) && !s.Dying(t) && !s.Joining(t) && t !in s.exiting
    ensures Links(WakeThread(s, t))
  {
    var s' := WakeThread(s, t);
    assert LinkOk(s, t);
    forall u
      ensures LinkOk(s', u)
    {
      assert LinkOk(s, u);
      assert Joined(s', u) == Joined(s, u);
    }
  }

  /** Taking a thread off the joiners queue it is on leaves it on no queue. */
  lemma UnjoinKeepsLinks(s: State, s': State, t: Thread)
    requires Links(s) && s.Joining(t)
    requires s' == s.(joiners := s'.joiners, threads := s.threads[t := s.threads[t].(joining := false)])
    requires s'.joiners.Keys == s.joiners.Keys
    requires forall j :: j in s.joiners ==> Distinct(s'.joiners[j])
    requires forall j, u :: j in s.joiners ==> (u in s'.joiners[j] <==> u in s.joiners[j] && u != t)
    ensures Links(s')
  {
    assert LinkOk(s, t);
    forall u
      ensures LinkOk(s', u)
    {
      assert LinkOk(s, u);
      if u != t && Joined(s, u) {
        var j :| j in s.joiners && u in s.joiners[j];
        assert u in s'.joiners[j];
      }
    }
  }

  lemma WakeFirstJoinerKeepsLinks(s: State, z: Thread)
    requires Links(s) && z in s.joiners && s.joiners[z] != []
    ensures Links(WakeFirstJoiner(s, z))
  {
    var q := s.joiners[z];
    var j := q[0];
    assert LinkOk(s, j) && Joined(s, j);
    var s1 := s.(joiners := s.joiners[z := q[1..]], threads := s.threads[j := s.threads[j].(joining := false)]);
    assert q == [j] + q[1..];
    forall i | i in s.joiners
      ensures Distinct(s1.joiners[i]) && forall u :: u in s1.joiners[i] <==> u in s.joiners[i] && u != j
    {
      if i != z {
        assert j !in s.joiners[i];
      }
    }
    UnjoinKeepsLinks(s, s1, j);
    assert s1.joiners.Keys == s.joiners.Keys;
    WakeKeepsLinks(s1, j);
  }

  /** All joiners of z move, in their order, to the end of the ready queue. */
  lemma {:induction false} WakeJoinersKeepsLinks(s: State, z: Thread)
    requires Links(s)
    ensures Links(WakeJoiners(s, z))
    ensures z in s.joiners ==> z in WakeJoiners(s, z).joiners && WakeJoiners(s, z).joiners[z] == []
    ensures z in s.joiners ==> WakeJoiners(s, z).ready == s.ready + s.joiners[z]
    decreases if z in s.joiners then |s.joiners[z]| else 0
  {
    if z in s.joiners && s.joiners[z] != [] {
      WakeFirstJoinerKeepsLinks(s, z);
      assert LinkOk(s, s.joiners[z][0]) && Joined(s, s.joiners[z][0]);
      assert s.joiners[z] == [s.joiners[z][0]] + s.joiners[z][1..];
      WakeJoinersKeepsLinks(WakeFirstJoiner(s, z), z);
    }
  }

  lemma UnlinkKeepsLinks(s: State, t: Thread)
    requires Links(s) && s.Joining(t)
    ensures Links(Unlink(s, t)) && !Unlink(s, t).Joining(t)
  {
    var s' := Unlink(s, t);
    forall j | j in s.joiners
      ensures Distinct(s'.joiners[j])
    {
      RemoveDistinct(s.joiners[j], t);
    }
    UnjoinKeepsLinks(s, s', t);
  }

  lemma JoinKeepsLinks(s: State, t: Thread, joinee: Thread)
    requires Links(s) && t in s.threads && !s.Runnable(t) && !s.Joining(t) && !s.Dying(t) && t !in s.exiting
    requires joinee in s.joiners
    ensures Links(s.(threads := s.threads[t := s.threads[t].(joining := true)],
                     joiners := s.joiners[joinee := s.joiners[joinee] + [t]]))
  {
    var s' := s.(threads := s.threads[t := s.threads[t].(joining := true)],
                 joiners := s.joiners[joinee := s.joiners[joinee] + [t]]);
    assert LinkOk(s, t);
    assert t in s'.joiners[joinee];
    forall j | j in s'.joiners
      ensures Distinct(s'.joiners[j])
      ensures forall u :: u in s'.joiners[j] <==> u in s.joiners[j] || (j == joinee && u == t)
    {
      assert !Joined(s, t);
      if j == joinee {
        AppendDistinct(s.joiners[j], t);
      }
    }
    forall u
      ensures LinkOk(s', u)
    {
      assert LinkOk(s, u);
      if u != t && Joined(s, u) {
        var j :| j in s.joiners && u in s.joiners[j];
        assert u in s'.joiners[j];
      }
    }
  }

  lemma DieKeepsLinks(s: State, t: Thread)
    requires Links(s) && t in s.exiting && t in s.threads
    ensures Links(s.(threads := s.threads[t := s.threads[t].(dying := true)], zombies := s.zombies + [t],
                     exiting := s.exiting - {t}))
  {
    assert LinkOk(s, t);
    var s' := s.(threads := s.threads[t := s.threads[t].(dying := true)], zombies := s.zombies + [t],
                 exiting := s.exiting - {t});
    AppendDistinct(s.zombies, t);
    forall u
      ensures LinkOk(s', u)
    {
      assert LinkOk(s, u);
      assert Joined(s', u) == Joined(s, u);
    }
  }

  lemma CreateKeepsLinks(s: State, t: Thread)
    requires Links(s) && t !in s.threads
    ensures Links(Apply(s, Create(t)))
  {
    var s' := Apply(s, Create(t));
    assert LinkOk(s, t);
    forall u
      ensures LinkOk(s', u)
    {
      assert LinkOk(s, u);
      if Joined(s, u) {
        var j :| j in s.joiners && u in s.joiners[j];
        assert u in s'.joiners[j];
      }
    }
  }

  /** wake_joiners touches only the flags RUNNABLE and JOIN, the ready queue and the joiners queue. */
  ghost predicate SameButQueues(s: State, s': State) {
    && s'.zombies == s.zombies && s'.exiting == s.exiting && s'.cpus == s.cpus
    && s'.threads.Keys == s.threads.Keys
    && forall t :: t in s.threads ==>
         s'.threads[t] == s.threads[t].(runnable := s'.threads[t].runnable, joining := s'.threads[t].joining)
  }

  lemma WakeFirstJoinerFrame(s: State, z: Thread, zombies: seq<Thread>)
    requires z in s.joiners && s.joiners[z] != []
    ensures SameButQueues(s, WakeFirstJoiner(s, z))
    ensures WakeFirstJoiner(s.(zombies := zombies), z) == WakeFirstJoiner(s, z).(zombies := zombies)
    ensures z in WakeFirstJoiner(s, z).joiners && WakeFirstJoiner(s, z).joiners[z] == s.joiners[z][1..]
  {
  }

  lemma {:induction false} WakeJoinersFrame(s: State, z: Thread, zombies: seq<Thread>)
    ensures SameButQueues(s, WakeJoiners(s, z))
    ensures WakeJoiners(s.(zombies := zombies), z) == WakeJoiners(s, z).(zombies := zombies)
    decreases if z in s.joiners then |s.joiners[z]| else 0
  {
    if z in s.joiners && s.joiners[z] != [] {
      hide WakeFirstJoiner;
      WakeFirstJoinerFrame(s, z, zombies);
      WakeJoinersFrame(WakeFirstJoiner(s, z), z, zombies);
    }
  }

  lemma ReapKeepsLinks(s: State, t: Thread)
    requires Links(s) && s.Dying(t) && s.joiners[t] == []
    ensures Links(s.(zombies := Remove(s.zombies, t), threads := s.threads - {t}, joiners := s.joiners - {t}))
  {
    var s' := s.(zombies := Remove(s.zombies, t), threads := s.threads - {t}, joiners := s.joiners - {t});
    assert LinkOk(s, t);
    RemoveDistinct(s.zombies, t);
    forall u
      ensures LinkOk(s', u)
    {
      assert LinkOk(s, u);
      if Joined(s, u) {
        var j :| j in s.joiners && u in s.joiners[j];
        assert u in s'.joiners[j];
      }
    }
  }

  lemma RotateKeepsLinks(s: State, prev: Option<Thread>)
    requires Links(s)
    ensures Links(s.(ready := Rotated(s, prev)))
  {
    var s' := s.(ready := Rotated(s, prev));
    if prev.Some? {
      RemoveDistinct(s.ready, prev.value);
      if s.Runnable(prev.value) {
        AppendDistinct(Remove(s.ready, prev.value), prev.value);
      }
    }
    forall u
      ensures LinkOk(s', u)
    {
      assert LinkOk(s, u);
      assert Joined(s', u) == Joined(s, u);
    }
  }

  /** Changing RUNNING and cpu of a thread, or the CPUs, does not concern the queues. */
  lemma RunningIsNoLink(s: State, s': State)
    requires Links(s)
    requires s' == s.(threads := s'.threads, cpus := s'.cpus) && s'.threads.Keys == s.threads.Keys
    requires forall t :: t in s.threads ==>
               s'.threads[t] == s.threads[t].(running := s'.threads[t].running, cpu := s'.threads[t].cpu)
    ensures Links(s')
  {
    forall u
      ensures LinkOk(s', u)
    {
      assert LinkOk(s, u);
      assert Joined(s', u) == Joined(s, u);
    }
  }

  // ---------- What every interleaving keeps: the CPUs ----------

  /** The current thread of a CPU, and the one it is switching out, are marked as running there. */
  ghost predicate CpuOk(s: State, c: nat)
    requires c < |s.cpus|
  {
    var cpu := s.cpus[c];
    && (cpu.current.Some? ==> s.Running(cpu.current.value) && s.threads[cpu.current.value].cpu == c)
    && (cpu.switching && cpu.prev.Some? ==>
          s.Running(cpu.prev.value) && s.threads[cpu.prev.value].cpu == c && cpu.current != cpu.prev)
  }

  /** RUNNING is set only for the current thread of a CPU and for one that is being switched out. */
  ghost predicate RunningOk(s: State, t: Thread) {
    s.Running(t) ==>
      var c := s.threads[t].cpu;
      && 0 <= c < |s.cpus|
      && (s.cpus[c].current == Some(t) || (s.cpus[c].switching && s.cpus[c].prev == Some(t)))
  }

  ghost predicate Cpus(s: State) {
    && (forall c :: 0 <= c < |s.cpus| ==> CpuOk(s, c))
    && forall t :: RunningOk(s, t)
  }

  /** Nothing that the CPU invariant speaks of differs. */
  ghost predicate SameCpus(s: State, s': State) {
    && s'.cpus == s.cpus
    && (forall t :: s.Running(t) <==> s'.Running(t))
    && (forall t :: s.Running(t) ==> s'.threads[t].cpu == s.threads[t].cpu)
  }

  lemma SameCpusKeeps(s: State, s': State)
    requires Cpus(s) && SameCpus(s, s')
    ensures Cpus(s')
  {
    forall t
      ensures RunningOk(s', t)
    {
      assert RunningOk(s, t);
    }
    forall c | 0 <= c < |s'.cpus|
      ensures CpuOk(s', c)
    {
      assert CpuOk(s, c);
    }
  }

  lemma SwitchInKeeps(s: State, c: nat)
    requires Cpus(s)
    ensures Cpus(Apply(s, SwitchIn(c)))
  {
    var s' := Apply(s, SwitchIn(c));
    if s' != s {
      assert CpuOk(s, c);
      forall t
        ensures RunningOk(s', t)
      {
        assert RunningOk(s, t);
      }
      forall d | 0 <= d < |s'.cpus|
        ensures CpuOk(s', d)
      {
        assert CpuOk(s, d);
      }
    }
  }

  /** Marking `next` as running on c and making it current: it is not running elsewhere, because pick_thread skips such threads. */
  lemma DispatchKeeps(s: State, s': State, c: nat, next: Option<Thread>)
    requires Cpus(s) && c < |s.cpus| && !s.cpus[c].switching
    requires next.Some? ==> next.value in s.threads && !(s.Running(next.value) && s.threads[next.value].cpu != c)
    requires s'.threads == if next.None? then s.threads
                           else s.threads[next.value := s.threads[next.value].(running := true, cpu := c)]
    requires s'.cpus == if next == s.cpus[c].current then s.cpus else s.cpus[c := Cpu(next, true, s.cpus[c].current)]
    ensures Cpus(s')
  {
    assert CpuOk(s, c);
    forall t
      ensures RunningOk(s', t)
    {
      assert RunningOk(s, t);
    }
    forall d | 0 <= d < |s'.cpus|
      ensures CpuOk(s', d)
    {
      assert CpuOk(s, d);
    }
  }

  // ---------- Every step keeps both ----------

  /** A thread inside exit_thread stays current on its CPU. */
  ghost predicate ExitOk(s: State) {
    forall t :: t in s.exiting ==>
      s.Running(t) && 0 <= s.threads[t].cpu < |s.cpus| && s.cpus[s.threads[t].cpu].current == Some(t)
      && !s.cpus[s.threads[t].cpu].switching
  }

  ghost predicate Inv(s: State) { Links(s) && Cpus(s) && ExitOk(s) }

  lemma ScheduleKeepsExits(s: State, c: nat, up: bool)
    requires Inv(s)
    ensures ExitOk(Apply(s, Schedule(c, up)))
  {
    var s' := Apply(s, Schedule(c, up));
    forall t | t in s'.exiting
      ensures s'.Running(t) && 0 <= s'.threads[t].cpu < |s'.cpus| && s'.cpus[s'.threads[t].cpu].current == Some(t)
              && !s'.cpus[s'.threads[t].cpu].switching
    {
      assert LinkOk(s, t);
      assert s'.threads[t] == s.threads[t];
    }
  }

  lemma ScheduleKeeps(s: State, c: nat, up: bool)
    requires Inv(s)
    ensures Inv(Apply(s, Schedule(c, up)))
  {
    hide Links, Cpus, ExitOk;
    ScheduleKeepsExits(s, c, up);
    var s' := Apply(s, Schedule(c, up));
    if s' != s {
      if up {
        var s0 := s.(ready := Rotated(s, s.cpus[c].current));
        var next := FirstEligible(s.threads, s0.ready, c);
        RotateKeepsLinks(s, s.cpus[c].current);
        RunningIsNoLink(s0, s');
        DispatchKeeps(s, s', c, next);
      } else {
        RunningIsNoLink(s, s');
        DispatchKeeps(s, s', c, None);
      }
    }
  }

  lemma SwitchInKeepsExits(s: State, c: nat)
    requires Cpus(s) && ExitOk(s)
    ensures ExitOk(Apply(s, SwitchIn(c)))
  {
    var s' := Apply(s, SwitchIn(c));
    if s' != s {
      assert CpuOk(s, c);
      forall t | t in s'.exiting
        ensures s'.Running(t) && 0 <= s'.threads[t].cpu < |s'.cpus| && s'.cpus[s'.threads[t].cpu].current == Some(t)
                && !s'.cpus[s'.threads[t].cpu].switching
      {
        assert s'.threads[t] == s.threads[t];
      }
    }
  }

  lemma SwitchInKeepsInv(s: State, c: nat)
    requires Inv(s)
    ensures Inv(Apply(s, SwitchIn(c)))
  {
    hide Links, Cpus, ExitOk;
    SwitchInKeeps(s, c);
    SwitchInKeepsExits(s, c);
    RunningIsNoLink(s, Apply(s, SwitchIn(c)));
  }

  lemma BlockKeeps(s: State, t: Thread)
    requires Inv(s)
    ensures Inv(BlockThread(s, t)) && SameCpus(s, BlockThread(s, t))
  {
    BlockKeepsLinks(s, t);
    SameCpusKeeps(s, BlockThread(s, t));
  }

  lemma WakeKeeps(s: State, t: Thread)
    requires Inv(s) && !s.Dying(t) && !s.Joining(t) && t !in s.exiting
    ensures Inv(WakeThread(s, t)) && SameCpus(s, WakeThread(s, t))
  {
    WakeKeepsLinks(s, t);
    SameCpusKeeps(s, WakeThread(s, t));
  }

  lemma CreateKeeps(s: State, t: Thread)
    requires Inv(s)
    ensures Inv(Apply(s, Create(t)))
  {
    if t !in s.threads {
      CreateKeepsLinks(s, t);
      SameCpusKeeps(s, Apply(s, Create(t)));
    }
  }

  lemma JoinKeeps(s: State, c: nat, joinee: Thread)
    requires Inv(s)
    ensures Inv(Apply(s, Join(c, joinee)))
  {
    var s' := Apply(s, Join(c, joinee));
    if s' != s {
      var t := s.cpus[c].current.value;
      BlockKeepsLinks(s, t);
      JoinKeepsLinks(BlockThread(s, t), t, joinee);
      SameCpusKeeps(s, s');
    }
  }

  lemma ExitBlockKeeps(s: State, c: nat)
    requires Inv(s)
    ensures Inv(Apply(s, ExitBlock(c)))
  {
    var s' := Apply(s, ExitBlock(c));
    if s' != s {
      var t := s.cpus[c].current.value;
      BlockKeepsLinks(s, t);
      assert CpuOk(s, c);
      var s1 := BlockThread(s, t);
      forall u
        ensures LinkOk(s', u)
      {
        assert LinkOk(s1, u);
        assert Joined(s', u) == Joined(s1, u);
      }
      SameCpusKeeps(s, s');
    }
  }

  lemma ExitZombieKeeps(s: State, c: nat)
    requires Inv(s)
    ensures Inv(Apply(s, ExitZombie(c)))
  {
    hide WakeJoiners;
    var s' := Apply(s, ExitZombie(c));
    if s' != s {
      var t := s.cpus[c].current.value;
      DieKeepsLinks(s, t);
      var s1 := s.(threads := s.threads[t := s.threads[t].(dying := true)], zombies := s.zombies + [t],
                   exiting := s.exiting - {t});
      WakeJoinersKeepsLinks(s1, t);
      WakeJoinersFrame(s1, t, []);
      SameCpusKeeps(s, s');
    }
  }

  lemma ReapKeeps(s: State, c: nat, t: Thread)
    requires Inv(s)
    ensures Inv(Apply(s, Reap(c, t)))
  {
    hide WakeJoiners;
    var s' := Apply(s, Reap(c, t));
    if s' != s {
      assert LinkOk(s, t);
      WakeJoinersKeepsLinks(s, t);
      WakeJoinersFrame(s, t, Remove(s.zombies, t));
      ReapKeepsLinks(WakeJoiners(s, t), t);
      SameCpusKeeps(s, s');
    }
  }

  lemma InterruptKeeps(s: State, t: Thread)
    requires Inv(s)
    ensures Inv(Apply(s, Interrupt(t)))
  {
    if t in s.threads && !s.Runnable(t) && !s.Running(t) && !s.Dying(t) && t !in s.exiting {
      if s.Joining(t) {
        UnlinkKeepsLinks(s, t);
        SameCpusKeeps(s, Unlink(s, t));
        WakeKeeps(Unlink(s, t), t);
      } else {
        WakeKeeps(s, t);
      }
    }
  }

  lemma StepKeeps(s: State, step: Step)
    requires Inv(s)
    ensures Inv(Apply(s, step))
  {
    hide Inv;
    match step
    case Schedule(c, up) => ScheduleKeeps(s, c, up);
    case SwitchIn(c) => SwitchInKeepsInv(s, c);
    case Create(t) => CreateKeeps(s, t);
    case Block(t) => BlockKeeps(s, t);
    case Wake(t) => if !s.Dying(t) && !s.Joining(t) && t !in s.exiting { WakeKeeps(s, t); }
    case Join(c, joinee) => JoinKeeps(s, c, joinee);
    case ExitBlock(c) => ExitBlockKeeps(s, c);
    case ExitZombie(c) => ExitZombieKeeps(s, c);
    case Reap(c, t) => ReapKeeps(s, c, t);
    case Interrupt(t) => InterruptKeeps(s, t);
  }

  lemma {:induction false} RunKeeps(s: State, steps: seq<Step>)
    requires Inv(s)
    ensures Inv(Run(s, steps))
    decreases steps
  {
    if steps != [] {
      hide Apply, Inv;
      StepKeeps(s, steps[0]);
      RunKeeps(Apply(s, steps[0]), steps[1..]);
    }
  }

  lemma BootOk(ncpus: nat)
    ensures Inv(Boot(ncpus))
  {
  }

  // ---------- The promises ----------

  /** No thread is current on two CPUs. */
  ghost predicate NoThreadTwice(s: State) {
    forall c, d :: 0 <= c < |s.cpus| && 0 <= d < |s.cpus| ==>
      s.cpus[c].current.Some? && s.cpus[c].current == s.cpus[d].current ==> c == d
  }

  /** A thread is on the ready queue exactly once iff it is RUNNABLE, and its link is on at most one queue. */
  ghost predicate OneQueue(s: State) {
    && Distinct(s.ready) && (forall t :: t in s.ready <==> s.Runnable(t))
    && Distinct(s.zombies) && (forall t :: t in s.zombies <==> s.Dying(t))
    && (forall t :: Joined(s, t) <==> s.Joining(t))
    && (forall i, j, t :: i in s.joiners && j in s.joiners && t in s.joiners[i] && t in s.joiners[j] ==> i == j)
    && (forall t :: !(t in s.ready && t in s.zombies) && !(t in s.ready && Joined(s, t)) && !(t in s.zombies && Joined(s, t)))
  }

  lemma InvIsSafe(s: State)
    requires Inv(s)
    ensures NoThreadTwice(s) && OneQueue(s)
  {
    forall c, d | 0 <= c < |s.cpus| && 0 <= d < |s.cpus| && s.cpus[c].current.Some? && s.cpus[c].current == s.cpus[d].current
      ensures c == d
    {
      assert CpuOk(s, c) && CpuOk(s, d);
    }
    forall t
      ensures (t in s.ready <==> s.Runnable(t)) && (t in s.zombies <==> s.Dying(t)) && (Joined(s, t) <==> s.Joining(t))
      ensures !(t in s.ready && t in s.zombies) && !(t in s.ready && Joined(s, t)) && !(t in s.zombies && Joined(s, t))
    {
      assert LinkOk(s, t);
    }
  }

  /** In every interleaving from boot on any number of CPUs. */
  lemma EveryInterleavingIsSafe(ncpus: nat, steps: seq<Step>)
    ensures NoThreadTwice(Run(Boot(ncpus), steps)) && OneQueue(Run(Boot(ncpus), steps))
  {
    hide Run, Inv, NoThreadTwice, OneQueue, Boot;
    BootOk(ncpus);
    RunKeeps(Boot(ncpus), steps);
    InvIsSafe(Run(Boot(ncpus), steps));
  }

  /** While a CPU is still switching a thread out, no other CPU can make it current. */
  lemma NotPickedWhileSwitchingOut(s: State, c: nat, d: nat, up: bool)
    requires Inv(s) && c < |s.cpus| && d < |s.cpus| && c != d
    requires s.cpus[c].switching && s.cpus[c].prev.Some?
    ensures Apply(s, Schedule(d, up)).cpus[d].current != s.cpus[c].prev
  {
    assert CpuOk(s, c) && CpuOk(s, d);
  }

  /** The BUG traps of schedule() are unreachable: the chosen thread is runnable, not dying and not running elsewhere. */
  lemma ChosenThreadIsSound(s: State, c: nat)
    requires Inv(s) && c < |s.cpus| && PickThread(s, c).1.Some?
    ensures var next := PickThread(s, c).1.value;
            s.Runnable(next) && !s.Dying(next) && !(s.Running(next) && s.threads[next].cpu != c)
  {
    assert LinkOk(s, PickThread(s, c).1.value);
  }

  /** Nobody keeps waiting for a thread that is gone: reaping a zombie makes everyone still joined on it runnable. */
  lemma ReapReleasesJoiners(s: State, c: nat, z: Thread, t: Thread)
    requires Inv(s) && s.Dying(z) && !s.Running(z) && s.threads[z].cpu == c
    requires z in s.joiners && t in s.joiners[z]
    ensures var s' := Apply(s, Reap(c, z)); s'.Runnable(t) && !s'.Joining(t)
  {
    hide WakeJoiners, Cpus, JoinersOk;
    assert z in s.zombies && t != z by {
      assert LinkOk(s, z) && LinkOk(s, t) && Joined(s, t);
    }
    WakeJoinersFrame(s, z, Remove(s.zombies, z));
    WakesEveryJoiner(s, z, t);
  }

  lemma {:induction false} WakesEveryJoiner(s: State, z: Thread, t: Thread)
    requires Links(s) && z in s.joiners && (t in s.joiners[z] || (s.Runnable(t) && !s.Joining(t)))
    ensures WakeJoiners(s, z).Runnable(t) && !WakeJoiners(s, z).Joining(t)
    decreases |s.joiners[z]|
  {
    if s.joiners[z] != [] {
      assert LinkOk(s, s.joiners[z][0]) && Joined(s, s.joiners[z][0]);
      assert LinkOk(s, t);
      WakeFirstJoinerKeepsLinks(s, z);
      WakesEveryJoiner(WakeFirstJoiner(s, z), z, t);
    }
  }
}
