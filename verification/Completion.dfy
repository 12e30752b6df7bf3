/**
  Completions (completion.c) with the wait queue of include/guk/wait.h. Each section under the
  completion's lock is one atomic step, so a sequence of steps is one interleaving of any number of
  waiters and posters.
  */
module Completion {
  import opened Queues

  type Thread = nat

  /** UINT_MAX/2, what complete_all stores. */
  const MANY: nat := 2147483647

  /**
    `queue` is the wait queue. `blocked` are the queued threads that block() took off the run queue
    and no wake() has put back. `returned` counts the waits that have returned.
    */
  datatype State = State(done: nat, queue: seq<Thread>, blocked: set<Thread>, returned: nat)

  /**
    Wait: wait_for_completion up to its first unlock. Recheck: a queued thread that runs again takes
    the lock and looks at `done`. Wake: some other wake() of the thread. Reset: INIT_COMPLETION.
    */
  datatype Step = Wait(t: Thread) | Recheck(t: Thread) | Complete | CompleteAll | Wake(t: Thread) | Reset

  function WakeUp(s: State): State {
    s.(blocked := s.blocked - set t | t in s.queue)
  }

  /** One atomic step; a step that its thread cannot take changes nothing. */
  function Apply(s: State, step: Step): State {
    match step
    case Wait(t) =>
      if t in s.queue then s
      else if s.done == 0 then s.(queue := s.queue + [t], blocked := s.blocked + {t})
      else s.(done := s.done - 1, returned := s.returned + 1)
    case Recheck(t) =>
      if t !in s.queue || t in s.blocked then s
      else if s.done == 0 then s.(blocked := s.blocked + {t})
      else s.(queue := Remove(s.queue, t), done := s.done - 1, returned := s.returned + 1)
    case Complete => WakeUp(s.(done := 1))
    case CompleteAll => WakeUp(s.(done := MANY))
    case Wake(t) => s.(blocked := s.blocked - {t})
    case Reset => s.(done := 0)
  }

  function Run(s: State, steps: seq<Step>): State
    decreases steps
  {
    if steps == [] then s else Run(Apply(s, steps[0]), steps[1..])
  }

  const Init := State(0, [], {}, 0)

  // ---------- No lost wake-up ----------

  ghost predicate NoSleeperMissed(s: State) {
    s.done > 0 ==> forall t :: t in s.queue ==> t !in s.blocked
  }

  lemma StepMissesNoSleeper(s: State, step: Step)
    requires NoSleeperMissed(s)
    ensures NoSleeperMissed(Apply(s, step))
  {
  }

  /** In every interleaving, while the completion is posted no queued waiter is left blocked. */
  lemma {:induction false} NoLostWakeUp(s: State, steps: seq<Step>)
    requires NoSleeperMissed(s)
    ensures NoSleeperMissed(Run(s, steps))
    decreases steps
  {
    if steps != [] {
      StepMissesNoSleeper(s, steps[0]);
      NoLostWakeUp(Apply(s, steps[0]), steps[1..]);
    }
  }

  /** So a waiter that finds the completion posted returns as soon as it runs, and one that does not stays queued. */
  lemma RecheckReturns(s: State, t: Thread)
    requires NoSleeperMissed(s) && t in s.queue
    ensures s.done > 0 ==> Apply(s, Recheck(t)).returned == s.returned + 1 && t !in Apply(s, Recheck(t)).queue
    ensures s.done == 0 ==> Apply(s, Recheck(t)).queue == s.queue && t in Apply(s, Recheck(t)).blocked
  {
  }

  /** It wakes a queued waiter: any of the three posts a wake-up. */
  predicate Wakes(step: Step, t: Thread) { step == Wake(t) || step.Complete? || step.CompleteAll? }

  /** Over every continuation in which it does not run, a blocked waiter stays blocked exactly as long as nothing wakes it. */
  lemma {:induction false} BlockedUntilWoken(s: State, steps: seq<Step>, t: Thread)
    requires t in s.queue && t in s.blocked && Recheck(t) !in steps
    ensures t in Run(s, steps).queue
    ensures t in Run(s, steps).blocked <==> forall x :: x in steps ==> !Wakes(x, t)
    decreases steps
  {
    if steps != [] {
      var s' := Apply(s, steps[0]);
      assert steps == [steps[0]] + steps[1..];
      if Wakes(steps[0], t) {
        AwakeUntilItRuns(s', steps[1..], t);
      } else {
        BlockedUntilWoken(s', steps[1..], t);
      }
    }
  }

  lemma {:induction false} AwakeUntilItRuns(s: State, steps: seq<Step>, t: Thread)
    requires t in s.queue && t !in s.blocked && Recheck(t) !in steps
    ensures t in Run(s, steps).queue && t !in Run(s, steps).blocked
    decreases steps
  {
    if steps != [] {
      assert steps[0] != Recheck(t);
      AwakeUntilItRuns(Apply(s, steps[0]), steps[1..], t);
    }
  }

  // ---------- Every wait is accounted for ----------

  /** The calls of wait_for_completion in an interleaving: a thread that is queued is inside one already. */
  function Waits(s: State, steps: seq<Step>): nat
    decreases steps
  {
    if steps == [] then 0
    else (if steps[0].Wait? && steps[0].t !in s.queue then 1 else 0) + Waits(Apply(s, steps[0]), steps[1..])
  }

  /** Every wait has returned or is queued, and no other has. */
  lemma {:induction false} WaitsReturnOrQueue(s: State, steps: seq<Step>)
    requires Distinct(s.queue)
    ensures Run(s, steps).returned + |Run(s, steps).queue| == s.returned + |s.queue| + Waits(s, steps)
    decreases steps
  {
    if steps != [] {
      if steps[0].Recheck? {
        RemoveDistinct(s.queue, steps[0].t);
        if steps[0].t in s.queue {
          RemoveShortens(s.queue, steps[0].t);
        }
      }
      WaitsReturnOrQueue(Apply(s, steps[0]), steps[1..]);
    }
  }

  lemma EveryWaitIsAccountedFor(steps: seq<Step>)
    ensures Run(Init, steps).returned + |Run(Init, steps).queue| == Waits(Init, steps)
  {
    WaitsReturnOrQueue(Init, steps);
  }

  // ---------- Waits that return are paid for ----------

  function Posts(steps: seq<Step>): nat {
    if steps == [] then 0 else (if steps[0].Complete? then 1 else 0) + Posts(steps[1..])
  }

  /**
    Without complete_all, the waits that return are at most the posts plus what was already posted;
    with `Init` in place of s, at most the calls of complete.
    */
  lemma {:induction false} ReturnsArePaidFor(s: State, steps: seq<Step>)
    requires CompleteAll !in steps
    ensures Run(s, steps).returned + Run(s, steps).done <= s.returned + s.done + Posts(steps)
    decreases steps
  {
    if steps != [] {
      ReturnsArePaidFor(Apply(s, steps[0]), steps[1..]);
    }
  }

  lemma {:induction false} QueueStaysDistinct(s: State, steps: seq<Step>)
    requires Distinct(s.queue)
    ensures Distinct(Run(s, steps).queue)
    decreases steps
  {
    if steps != [] {
      if steps[0].Recheck? {
        RemoveDistinct(s.queue, steps[0].t);
      }
      QueueStaysDistinct(Apply(s, steps[0]), steps[1..]);
    }
  }

  /** Both promises for every interleaving on a fresh completion; no thread is queued twice. */
  lemma EveryInterleaving(steps: seq<Step>)
    ensures NoSleeperMissed(Run(Init, steps)) && Distinct(Run(Init, steps).queue)
    ensures CompleteAll !in steps ==> Run(Init, steps).returned <= Posts(steps)
  {
    NoLostWakeUp(Init, steps);
    QueueStaysDistinct(Init, steps);
    if CompleteAll !in steps {
      ReturnsArePaidFor(Init, steps);
    }
  }

  // ---------- complete_all releases everybody ----------

  function RecheckAll(q: seq<Thread>): seq<Step> {
    if q == [] then [] else [Recheck(q[0])] + RecheckAll(q[1..])
  }

  lemma {:induction false} RecheckAllDrains(s: State, q: seq<Thread>)
    requires s.queue == q && Distinct(q) && (forall t :: t in q ==> t !in s.blocked)
    ensures Run(s, RecheckAll(q)).returned == s.returned + if |q| <= s.done then |q| else s.done
    ensures Run(s, RecheckAll(q)).queue == [] <==> |q| <= s.done
    decreases q
  {
    if q != [] {
      var s' := Apply(s, Recheck(q[0]));
      var steps := RecheckAll(q);
      assert steps[0] == Recheck(q[0]) && steps[1..] == RecheckAll(q[1..]);
      if s.done > 0 {
        RemoveAbsent(q[1..], q[0]);
        assert s'.queue == q[1..];
        RecheckAllDrains(s', q[1..]);
      } else {
        RecheckAllAreRechecks(q[1..]);
        NothingPostedNothingReturns(s', RecheckAll(q[1..]));
        assert |q| > s.done;
      }
    }
  }

  lemma {:induction false} NothingPostedNothingReturns(s: State, steps: seq<Step>)
    requires s.done == 0 && s.queue != [] && forall i :: 0 <= i < |steps| ==> steps[i].Recheck?
    ensures Run(s, steps).returned == s.returned && Run(s, steps).queue == s.queue
    decreases steps
  {
    if steps != [] {
      NothingPostedNothingReturns(Apply(s, steps[0]), steps[1..]);
    }
  }

  lemma {:induction false} RecheckAllAreRechecks(q: seq<Thread>)
    ensures forall i :: 0 <= i < |RecheckAll(q)| ==> RecheckAll(q)[i].Recheck?
  {
    if q != [] {
      RecheckAllAreRechecks(q[1..]);
    }
  }

  /** If the queued waiters run right after complete_all, they all return, unless there are more than UINT_MAX/2 of them. */
  lemma CompleteAllThenRechecks(s: State)
    requires Distinct(s.queue)
    ensures Run(Apply(s, CompleteAll), RecheckAll(s.queue)).queue == [] <==> |s.queue| <= MANY
  {
    RecheckAllDrains(Apply(s, CompleteAll), s.queue);
  }

  /** The steps that set `done`, and what they set it to. */
  predicate Posting(step: Step) { step.Complete? || step.CompleteAll? || step.Reset? }

  function Value(step: Step): nat
    requires Posting(step)
  {
    if step.CompleteAll? then MANY else if step.Complete? then 1 else 0
  }

  ghost predicate Quiet(steps: seq<Step>) {
    forall i :: 0 <= i < |steps| ==> !Posting(steps[i])
  }

  /** Between two postings, what returns is taken from `done`. */
  lemma {:induction false} Balance(s: State, steps: seq<Step>)
    requires Quiet(steps)
    ensures Run(s, steps).done + Run(s, steps).returned == s.done + s.returned
    decreases steps
  {
    if steps != [] {
      Balance(Apply(s, steps[0]), steps[1..]);
    }
  }

  /**
    Whatever happened before the last posting and whatever happens after it: a queued waiter that runs
    returns exactly if fewer waits have returned since that posting than it allows.
    */
  lemma ReleasedExactlyWhileLeft(s: State, post: Step, steps: seq<Step>, t: Thread)
    requires NoSleeperMissed(s) && Posting(post) && Quiet(steps) && t in Run(Apply(s, post), steps).queue
    ensures var r := Run(Apply(s, post), steps);
      t !in Apply(r, Recheck(t)).queue <==> r.returned - s.returned < Value(post)
  {
    hide Run, NoSleeperMissed;
    StepMissesNoSleeper(s, post);
    NoLostWakeUp(Apply(s, post), steps);
    Balance(Apply(s, post), steps);
    RecheckReturns(Run(Apply(s, post), steps), t);
  }

  /** What is left of the last posting, after `steps`. */
  function Left(s: State, post: Step, steps: seq<Step>): int
    requires Posting(post)
  {
    Value(post) - (Run(Apply(s, post), steps).returned - s.returned)
  }

  /**
    A new wait returns at once, without queueing, and uses up one of what is left, exactly if anything
    is left of the last posting; otherwise it queues and blocks.
    */
  lemma WaitReturnsExactlyWhileLeft(s: State, post: Step, steps: seq<Step>, t: Thread)
    requires Posting(post) && Quiet(steps) && t !in Run(Apply(s, post), steps).queue
    ensures var r := Run(Apply(s, post), steps);
      var r' := Run(Apply(s, post), steps + [Wait(t)]);
      && (Left(s, post, steps) > 0 ==>
            r'.queue == r.queue && r'.blocked == r.blocked && Left(s, post, steps + [Wait(t)]) == Left(s, post, steps) - 1)
      && (Left(s, post, steps) <= 0 ==>
            r'.queue == r.queue + [t] && t in r'.blocked && Left(s, post, steps + [Wait(t)]) == Left(s, post, steps) == 0)
  {
    Balance(Apply(s, post), steps);
    RunThen(Apply(s, post), steps, Wait(t));
  }

  lemma {:induction false} RunThen(s: State, steps: seq<Step>, step: Step)
    ensures Run(s, steps + [step]) == Apply(Run(s, steps), step)
    decreases steps
  {
    if steps == [] {
      assert [step][1..] == [];
      assert steps + [step] == [step];
    } else {
      assert (steps + [step])[1..] == steps[1..] + [step];
      RunThen(Apply(s, steps[0]), steps[1..], step);
    }
  }

  /** `done` is not used up before the last of the steps. */
  ghost predicate Lasts(s: State, steps: seq<Step>) {
    forall k :: 0 <= k < |steps| ==> Run(s, steps[..k]).done > 0
  }

  lemma LastsAfter(s: State, steps: seq<Step>)
    requires Lasts(s, steps) && steps != []
    ensures s.done > 0 && Lasts(Apply(s, steps[0]), steps[1..])
  {
    assert Run(s, steps[..0]) == s;
    forall k | 0 <= k < |steps[1..]|
      ensures Run(Apply(s, steps[0]), steps[1..][..k]).done > 0
    {
      assert steps[..k + 1][1..] == steps[1..][..k];
      assert Run(s, steps[..k + 1]).done > 0;
    }
  }

  /** While `done` lasts nobody joins the queue, and everybody who runs leaves it. */
  lemma {:induction false} RunnersLeave(s: State, steps: seq<Step>, t: Thread)
    requires NoSleeperMissed(s) && Lasts(s, steps)
    requires t !in s.queue || Recheck(t) in steps
    requires Quiet(steps)
    ensures t !in Run(s, steps).queue
    decreases steps
  {
    hide NoSleeperMissed, Lasts;
    if steps != [] {
      LastsAfter(s, steps);
      StepMissesNoSleeper(s, steps[0]);
      if t in s.queue && steps[0] == Recheck(t) {
        RecheckReturns(s, t);
      } else {
        assert Recheck(t) in steps ==> steps[0] == Recheck(t) || Recheck(t) in steps[1..];
      }
      RunnersLeave(Apply(s, steps[0]), steps[1..], t);
    }
  }

  /**
    complete_all releases everybody: over every continuation without another posting in which at most
    UINT_MAX/2 waits return, each queued waiter that runs has left the queue.
    */
  lemma CompleteAllReleasesAll(s: State, steps: seq<Step>, t: Thread)
    requires NoSleeperMissed(s) && Quiet(steps) && t in s.queue && Recheck(t) in steps
    requires forall k :: 0 <= k < |steps| ==> Run(Apply(s, CompleteAll), steps[..k]).returned < s.returned + MANY
    ensures t !in Run(Apply(s, CompleteAll), steps).queue
  {
    hide Run, NoSleeperMissed;
    var s' := Apply(s, CompleteAll);
    StepMissesNoSleeper(s, CompleteAll);
    forall k | 0 <= k < |steps|
      ensures Run(s', steps[..k]).done > 0
    {
      Balance(s', steps[..k]);
    }
    RunnersLeave(s', steps, t);
  }

  /** But `complete` overwrites what is left: until the next posting it strands all queued waiters but one. */
  lemma CompleteStrandsAllButOne(s: State, steps: seq<Step>, t: Thread, u: Thread)
    requires Quiet(steps) && t in s.queue && u in s.queue && t != u
    ensures var r := Run(Apply(s, Complete), steps);
      t in r.queue || u in r.queue
  {
    hide Run;
    OneLeaves(Apply(s, Complete), steps, t, u);
  }

  lemma {:induction false} OneLeaves(s: State, steps: seq<Step>, t: Thread, u: Thread)
    requires Quiet(steps) && t != u
    requires if s.done == 0 then t in s.queue || u in s.queue else s.done == 1 && t in s.queue && u in s.queue
    ensures t in Run(s, steps).queue || u in Run(s, steps).queue
    decreases steps
  {
    if steps != [] {
      OneLeaves(Apply(s, steps[0]), steps[1..], t, u);
    }
  }

  /** And INIT_COMPLETION strands them all. */
  lemma ResetStrandsAll(s: State, steps: seq<Step>, t: Thread)
    requires Quiet(steps) && t in s.queue
    ensures t in Run(Apply(s, Reset), steps).queue
  {
    hide Run;
    NobodyLeaves(Apply(s, Reset), steps, t);
  }

  lemma {:induction false} NobodyLeaves(s: State, steps: seq<Step>, t: Thread)
    requires Quiet(steps) && s.done == 0 && t in s.queue
    ensures t in Run(s, steps).queue
    decreases steps
  {
    if steps != [] {
      NobodyLeaves(Apply(s, steps[0]), steps[1..], t);
    }
  }

  /** For instance two waiters, complete_all, and a `complete` before either of them runs. */
  lemma StrandedWaiter()
    ensures Run(Init, [Wait(1), Wait(2), CompleteAll, Complete, Recheck(1), Recheck(2)]) == State(0, [2], {2}, 1)
  {
    var s1 := State(0, [1], {1}, 0);
    var s2 := State(0, [1, 2], {1, 2}, 0);
    var s4 := State(1, [1, 2], {}, 0);
    assert Run(Init, [Wait(1), Wait(2), CompleteAll, Complete, Recheck(1), Recheck(2)])
        == Run(s1, [Wait(2), CompleteAll, Complete, Recheck(1), Recheck(2)]);
    assert Run(s1, [Wait(2), CompleteAll, Complete, Recheck(1), Recheck(2)]) == Run(s2, [CompleteAll, Complete, Recheck(1), Recheck(2)]);
    assert WakeUp(s2.(done := MANY)).blocked == {};
    assert Run(s2, [CompleteAll, Complete, Recheck(1), Recheck(2)]) == Run(s4, [Recheck(1), Recheck(2)]);
    assert Remove([1, 2], 1) == [2];
    assert Run(s4, [Recheck(1), Recheck(2)]) == Run(State(0, [2], {}, 1), [Recheck(2)]);
  }
}
