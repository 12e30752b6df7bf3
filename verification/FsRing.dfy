/**
  The file-system front end's request ring (fs-front.c): any number of threads reserve slots with
  compare-and-swap on `req_prod_pvt`, fill them, and publish them with compare-and-swap on
  `req_prod`, while the back end's responses advance `rsp_cons`. Every load, test, slot write and
  compare-and-swap is one atomic step, so a sequence of steps is one interleaving.
  */
module FsRing {
  import opened Arithmetic

  type Thread = nat

  /** What a front-end operation writes into its slot. */
  datatype Request = Request(kind: nat, id: nat, fields: seq<int>)

  /**
    Where a thread is: in reserve_fsif_request before loading the index, after loading it, after
    finding a free slot for it; then owning a reserved slot, unfilled or filled.
    */
  datatype Pc =
    | Outside
    | Loaded(idx: nat)
    | Checked(idx: nat)
    | Reserved(idx: nat)
    | Filled(idx: nat)

  /**
    `slots` is the shared ring. `owner` and `content` are history: which thread won each index, and
    what its owner last wrote for it.
    */
  datatype State = State(
    reqProdPvt: nat,
    reqProd: nat,
    rspCons: nat,
    slots: seq<Request>,
    threads: map<Thread, Pc>,
    owner: map<nat, Thread>,
    content: map<nat, Request>)
  {
    function PcOf(t: Thread): Pc {
      if t in threads then threads[t] else Outside
    }

    /** FS_RING_FREE_REQUESTS for a possibly stale index. */
    function FreeRequests(idx: nat): int {
      |slots| - (idx - rspCons)
    }
  }

  datatype Step =
    | Load(t: Thread)
    | Check(t: Thread)
    | Reserve(t: Thread)
    | Fill(t: Thread, r: Request)
    | Commit(t: Thread)
    | Respond(upTo: nat)

  function Init(slots: seq<Request>): State {
    State(0, 0, 0, slots, map[], map[], map[])
  }

  /** One atomic step; a step that is not the thread's next instruction changes nothing. */
  function Apply(s: State, step: Step): State
    requires |s.slots| > 0
  {
    match step
    case Load(t) =>
      if s.PcOf(t).Outside? then s.(threads := s.threads[t := Loaded(s.reqProdPvt)]) else s
    case Check(t) =>
      if !s.PcOf(t).Loaded? then s
      else if s.FreeRequests(s.PcOf(t).idx) == 0 then s.(threads := s.threads[t := Outside])
      else s.(threads := s.threads[t := Checked(s.PcOf(t).idx)])
    case Reserve(t) =>
      if !s.PcOf(t).Checked? then s
      else
        var idx := s.PcOf(t).idx;
        if s.reqProdPvt == idx then
          s.(reqProdPvt := idx + 1, owner := s.owner[idx := t], threads := s.threads[t := Reserved(idx)])
        else s.(threads := s.threads[t := Outside])
    case Fill(t, r) =>
      if !s.PcOf(t).Reserved? && !s.PcOf(t).Filled? then s
      else
        var idx := s.PcOf(t).idx;
        s.(slots := s.slots[idx % |s.slots| := r], content := s.content[idx := r],
           threads := s.threads[t := Filled(idx)])
    case Commit(t) =>
      if s.PcOf(t).Filled? && s.reqProd == s.PcOf(t).idx then
        s.(reqProd := s.reqProd + 1, threads := s.threads[t := Outside])
      else s
    case Respond(upTo) =>
      if s.rspCons <= upTo <= s.reqProd then s.(rspCons := upTo) else s
  }

  /** The state after an interleaving. */
  function Run(s: State, steps: seq<Step>): (s': State)
    requires |s.slots| > 0
    ensures |s'.slots| == |s.slots|
  {
    if steps == [] then s else Apply(Run(s, steps[..|steps| - 1]), steps[|steps| - 1])
  }

  // ---------- What every interleaving keeps ----------

  predicate Holds(pc: Pc, i: nat) { (pc.Reserved? || pc.Filled?) && pc.idx == i }

  ghost predicate ThreadOk(s: State, t: Thread)
    requires |s.slots| > 0
  {
    match s.PcOf(t)
    case Outside => true
    case Loaded(idx) => idx <= s.reqProdPvt
    case Checked(idx) => idx <= s.reqProdPvt && idx - s.rspCons < |s.slots|
    case Reserved(idx) => s.reqProd <= idx < s.reqProdPvt && idx in s.owner && s.owner[idx] == t
    case Filled(idx) => s.reqProd <= idx < s.reqProdPvt && idx in s.owner && s.owner[idx] == t
                        && idx in s.content && s.slots[idx % |s.slots|] == s.content[idx]
  }

  ghost predicate IndexOk(s: State, i: nat)
    requires |s.slots| > 0
  {
    && i in s.owner
    && (i < s.reqProd ==> i in s.content)
    && (s.rspCons <= i < s.reqProd ==> s.slots[i % |s.slots|] == s.content[i])
    && (s.reqProd <= i ==> Holds(s.PcOf(s.owner[i]), i))
  }

  ghost predicate Inv(s: State) {
    && |s.slots| > 0
    && s.rspCons <= s.reqProd <= s.reqProdPvt <= s.rspCons + |s.slots|
    && (forall i :: i in s.owner <==> 0 <= i < s.reqProdPvt)
    && (forall t :: t in s.threads ==> ThreadOk(s, t))
    && (forall i :: 0 <= i < s.reqProdPvt ==> IndexOk(s, i))
  }

  lemma FillKeeps(s: State, t: Thread, r: Request)
    requires Inv(s)
    ensures Inv(Apply(s, Fill(t, r)))
  {
    var s' := Apply(s, Fill(t, r));
    if s' != s {
      var n, idx := |s.slots|, s.PcOf(t).idx;
      assert t in s.threads && ThreadOk(s, t);
      forall i | 0 <= i < s'.reqProdPvt
        ensures IndexOk(s', i)
      {
        assert IndexOk(s, i);
        if s.rspCons <= i < s.reqProd {
          RemaindersDiffer(i, idx, n);
        }
      }
      forall u | u in s'.threads
        ensures ThreadOk(s', u)
      {
        if u != t {
          assert ThreadOk(s, u);
          if s.PcOf(u).Filled? {
            var j := s.PcOf(u).idx;
            assert j != idx;
            if j < idx { RemaindersDiffer(j, idx, n); } else { RemaindersDiffer(idx, j, n); }
          }
        }
      }
    }
  }

  lemma ReserveKeeps(s: State, t: Thread)
    requires Inv(s)
    ensures Inv(Apply(s, Reserve(t)))
  {
    var s' := Apply(s, Reserve(t));
    if s' != s {
      assert ThreadOk(s, t);
      ThreadsAndIndicesKeep(s, s', t);
    }
  }

  lemma CommitKeeps(s: State, t: Thread)
    requires Inv(s)
    ensures Inv(Apply(s, Commit(t)))
  {
    var s' := Apply(s, Commit(t));
    if s' != s {
      assert ThreadOk(s, t) && IndexOk(s, s.reqProd);
      ThreadsAndIndicesKeep(s, s', t);
    }
  }

  lemma ReadsKeep(s: State, step: Step)
    requires Inv(s) && (step.Load? || step.Check? || step.Respond?)
    ensures Inv(Apply(s, step))
  {
    var s' := Apply(s, step);
    if s' != s {
      if !step.Respond? {
        assert step.t in s.threads ==> ThreadOk(s, step.t);
      }
      ThreadsAndIndicesKeep(s, s', if step.Respond? then 0 else step.t);
    }
  }

  /** A step of `t` that leaves the slots alone, judged thread by thread and index by index. */
  lemma ThreadsAndIndicesKeep(s: State, s': State, t: Thread)
    requires Inv(s) && s'.slots == s.slots && s'.content == s.content
    requires s.rspCons <= s'.rspCons <= s'.reqProd <= s'.reqProdPvt <= s'.rspCons + |s.slots|
    requires s.reqProdPvt <= s'.reqProdPvt <= s.reqProdPvt + 1 && s.reqProd <= s'.reqProd
    requires forall u :: u in s'.threads && u != t ==> u in s.threads && s'.threads[u] == s.threads[u]
    requires forall u :: u in s.threads ==> u in s'.threads
    requires forall i :: i in s'.owner <==> i in s.owner || s.reqProdPvt <= i < s'.reqProdPvt
    requires forall i :: i in s.owner ==> s'.owner[i] == s.owner[i]
    requires t in s'.threads ==> ThreadOk(s', t)
    requires forall i :: s'.reqProd <= i < s.reqProdPvt && Holds(s.PcOf(t), i) ==> Holds(s'.PcOf(t), i)
    requires s.reqProdPvt < s'.reqProdPvt ==> s'.owner[s.reqProdPvt] == t && Holds(s'.PcOf(t), s.reqProdPvt)
    requires s.reqProd < s'.reqProd ==> s'.reqProd == s.reqProd + 1 && s.PcOf(t) == Filled(s.reqProd)
    ensures Inv(s')
  {
    forall u | u in s'.threads
      ensures ThreadOk(s', u)
    {
      if u != t {
        assert ThreadOk(s, u);
        if s.reqProd < s'.reqProd {
          assert ThreadOk(s, t);
        }
      }
    }
    forall i | 0 <= i < s'.reqProdPvt
      ensures IndexOk(s', i)
    {
      if i < s.reqProdPvt {
        assert IndexOk(s, i);
        if i == s.reqProd < s'.reqProd {
          assert ThreadOk(s, t);
        }
      }
    }
  }

  lemma StepKeeps(s: State, step: Step)
    requires Inv(s)
    ensures Inv(Apply(s, step))
  {
    hide Apply, Inv;
    match step
    case Reserve(t) => ReserveKeeps(s, t);
    case Fill(t, r) => FillKeeps(s, t, r);
    case Commit(t) => CommitKeeps(s, t);
    case _ => ReadsKeep(s, step);
  }

  lemma {:induction false} RunKeeps(s: State, steps: seq<Step>)
    requires Inv(s)
    ensures Inv(Run(s, steps))
  {
    if steps != [] {
      var before, step := steps[..|steps| - 1], steps[|steps| - 1];
      RunKeeps(s, before);
      StepKeeps(Run(s, before), step);
    }
  }

  lemma InitOk(slots: seq<Request>)
    requires |slots| > 0
    ensures Inv(Init(slots))
  {
  }

  // ---------- The promises of the protocol ----------

  /**
    An index is held by at most one thread; reservations never run more than a ring ahead of the
    responses; every published index was filled, and until its response comes its slot holds what its
    owner wrote; every reserved index that is not published yet is still held by its owner.
    */
  ghost predicate Safe(s: State) {
    && |s.slots| > 0
    && s.rspCons <= s.reqProd <= s.reqProdPvt <= s.rspCons + |s.slots|
    && (forall t, u, i :: Holds(s.PcOf(t), i) && Holds(s.PcOf(u), i) ==> t == u)
    && (forall i :: 0 <= i < s.reqProd ==> i in s.owner && i in s.content)
    && (forall i :: s.rspCons <= i < s.reqProd ==> s.slots[i % |s.slots|] == s.content[i])
    && (forall i :: s.reqProd <= i < s.reqProdPvt ==> i in s.owner && Holds(s.PcOf(s.owner[i]), i))
  }

  lemma InvIsSafe(s: State)
    requires Inv(s)
    ensures Safe(s)
  {
    forall t, u, i | Holds(s.PcOf(t), i) && Holds(s.PcOf(u), i)
      ensures t == u
    {
      assert ThreadOk(s, t) && ThreadOk(s, u);
    }
    forall i | 0 <= i < s.reqProd
      ensures i in s.owner && i in s.content
      ensures s.rspCons <= i ==> s.slots[i % |s.slots|] == s.content[i]
    {
      assert IndexOk(s, i);
    }
    forall i | s.reqProd <= i < s.reqProdPvt
      ensures i in s.owner && Holds(s.PcOf(s.owner[i]), i)
    {
      assert IndexOk(s, i);
    }
  }

  /** Every interleaving of any number of threads, from an empty ring of any size, is safe. */
  lemma EveryInterleavingIsSafe(slots: seq<Request>, steps: seq<Step>)
    requires |slots| > 0
    ensures Safe(Run(Init(slots), steps))
  {
    hide Run, Inv, Safe;
    InitOk(slots);
    RunKeeps(Init(slots), steps);
    InvIsSafe(Run(Init(slots), steps));
  }

  /** `t` extends `s`: no index changes owner, and what was published stays as it was. */
  ghost predicate Extends(s: State, t: State) {
    && s.reqProdPvt <= t.reqProdPvt && s.reqProd <= t.reqProd && s.rspCons <= t.rspCons
    && (forall i :: i in s.owner ==> i in t.owner && t.owner[i] == s.owner[i])
    && (forall i :: 0 <= i < s.reqProd && i in s.content ==> i in t.content && t.content[i] == s.content[i])
  }

  lemma StepExtends(s: State, step: Step)
    requires Inv(s)
    ensures Extends(s, Apply(s, step))
    ensures Apply(s, step).reqProd <= s.reqProd + 1
    ensures Apply(s, step).reqProd == s.reqProd + 1 ==>
              step.Commit? && s.PcOf(step.t) == Filled(s.reqProd) && s.owner[s.reqProd] == step.t
    ensures forall i :: i in Apply(s, step).content && (i !in s.content || Apply(s, step).content[i] != s.content[i]) ==>
              step.Fill? && i in s.owner && s.owner[i] == step.t
  {
    if !step.Respond? && step.t in s.threads {
      assert ThreadOk(s, step.t);
    }
  }

  /**
    Over any continuation of any interleaving, each index keeps the one owner it was given, and a
    published request is never rewritten. Publication goes index by index, each published by its
    owner after filling it (`StepExtends`).
    */
  lemma {:induction false} ReservedOnce(s: State, steps: seq<Step>)
    requires Inv(s)
    ensures Extends(s, Run(s, steps))
  {
    if steps != [] {
      var before := steps[..|steps| - 1];
      ReservedOnce(s, before);
      RunKeeps(s, before);
      StepExtends(Run(s, before), steps[|steps| - 1]);
      forall i | 0 <= i < s.reqProd && i in s.content
        ensures i in Run(s, steps).content && Run(s, steps).content[i] == s.content[i]
      {
        assert i in Run(s, before).content;
      }
    }
  }

  /** The spin in commit_fsif_request cannot deadlock: the owner of index req_prod is always able to publish it. */
  lemma OwnerCanCommit(s: State, r: Request)
    requires Inv(s) && s.reqProd < s.reqProdPvt
    ensures s.reqProd in s.owner
    ensures var t := s.owner[s.reqProd];
            var filled := if s.PcOf(t).Filled? then s else Apply(s, Fill(t, r));
            Apply(filled, Commit(t)).reqProd == s.reqProd + 1
            && Apply(filled, Commit(t)).reqProdPvt == s.reqProdPvt
            && forall u :: s.PcOf(u).Outside? ==> Apply(filled, Commit(t)).PcOf(u).Outside?
  {
    assert IndexOk(s, s.reqProd);
  }

  lemma {:induction false} RunConcat(s: State, a: seq<Step>, b: seq<Step>)
    requires |s.slots| > 0
    ensures Run(s, a + b) == Run(Run(s, a), b)
  {
    if b == [] {
      assert a + b == a;
    } else {
      assert (a + b)[..|a + b| - 1] == a + b[..|b| - 1];
      RunConcat(s, a, b[..|b| - 1]);
    }
  }

  lemma PublishOne(s: State, r: Request) returns (steps: seq<Step>)
    requires Inv(s) && s.reqProd < s.reqProdPvt
    ensures Run(s, steps).reqProd == s.reqProd + 1 && Run(s, steps).reqProdPvt == s.reqProdPvt
    ensures forall u :: s.PcOf(u).Outside? ==> Run(s, steps).PcOf(u).Outside?
  {
    hide Apply;
    OwnerCanCommit(s, r);
    var t := s.owner[s.reqProd];
    if s.PcOf(t).Filled? {
      steps := [Commit(t)];
      assert Run(s, steps[..0]) == s;
    } else {
      steps := [Fill(t, r), Commit(t)];
      assert steps[..1] == [Fill(t, r)] && steps[..1][..0] == [];
      assert Run(s, steps[..1]) == Apply(s, Fill(t, r));
    }
  }

  /** From every reachable state, letting the owners finish in index order publishes everything reserved. */
  lemma {:induction false} EverythingCanBePublished(s: State, r: Request) returns (steps: seq<Step>)
    requires Inv(s)
    ensures Run(s, steps).reqProd == Run(s, steps).reqProdPvt == s.reqProdPvt
    ensures forall u :: s.PcOf(u).Outside? ==> Run(s, steps).PcOf(u).Outside?
    decreases s.reqProdPvt - s.reqProd
  {
    if s.reqProd == s.reqProdPvt {
      steps := [];
    } else {
      hide Run, Apply;
      var first := PublishOne(s, r);
      RunKeeps(s, first);
      var rest := EverythingCanBePublished(Run(s, first), r);
      RunConcat(s, first, rest);
      steps := first + rest;
    }
  }

  // ---------- Reservations make progress ----------

  ghost predicate NotBy(steps: seq<Step>, t: Thread) {
    forall x :: x in steps ==> x.Respond? || x.t != t
  }

  lemma OtherDoesNotMove(s: State, step: Step, t: Thread)
    requires |s.slots| > 0 && (step.Respond? || step.t != t)
    ensures Apply(s, step).PcOf(t) == s.PcOf(t)
    ensures forall i :: i in Apply(s, step).owner && i !in s.owner ==> Apply(s, step).owner[i] != t
    ensures forall i :: i in s.owner && i in Apply(s, step).owner && Apply(s, step).owner[i] == t ==> s.owner[i] == t
  {
  }

  /** Steps of other threads leave t where it is and give it no index. */
  lemma {:induction false} OthersDoNotMove(s: State, steps: seq<Step>, t: Thread)
    requires |s.slots| > 0 && NotBy(steps, t)
    ensures Run(s, steps).PcOf(t) == s.PcOf(t)
    ensures forall i :: i in Run(s, steps).owner && i !in s.owner ==> Run(s, steps).owner[i] != t
  {
    if steps != [] {
      var before, last := steps[..|steps| - 1], steps[|steps| - 1];
      assert last in steps && forall x :: x in before ==> x in steps;
      hide Apply;
      OthersDoNotMove(s, before, t);
      OtherDoesNotMove(Run(s, before), last, t);
    }
  }

  /**
    One attempt of reserve_fsif_request, with any steps of other threads between its three accesses.
    It gets the index it loaded exactly if a slot was free at the check and nobody has got that index
    before the compare-and-swap; so an attempt fails only because the ring is full or another thread
    succeeded.
    */
  lemma AttemptSucceedsUnlessOvertaken(s: State, t: Thread, a: seq<Step>, b: seq<Step>)
    requires Inv(s) && s.PcOf(t).Outside? && NotBy(a, t) && NotBy(b, t)
    ensures var idx := s.reqProdPvt;
      var s1 := Run(Apply(s, Load(t)), a);
      var s2 := Run(Apply(s1, Check(t)), b);
      var s3 := Apply(s2, Reserve(t));
      && (s3.PcOf(t) == Reserved(idx) <==> s1.FreeRequests(idx) != 0 && idx !in s2.owner)
      && (s3.PcOf(t) != Reserved(idx) ==> s3.PcOf(t) == Outside && s3.owner == s2.owner)
      && (s3.PcOf(t) == Reserved(idx) ==> s3.owner == s2.owner[idx := t] && s3.reqProdPvt == idx + 1)
      && (idx in s2.owner ==> s2.owner[idx] != t)
  {
    hide Run;
    var idx := s.reqProdPvt;
    var s0 := Apply(s, Load(t));
    StepKeeps(s, Load(t));
    OthersDoNotMove(s0, a, t);
    RunKeeps(s0, a);
    ReservedOnce(s0, a);
    var s1 := Run(s0, a);
    var s1' := Apply(s1, Check(t));
    StepKeeps(s1, Check(t));
    OthersDoNotMove(s1', b, t);
    RunKeeps(s1', b);
    ReservedOnce(s1', b);
  }

  lemma {:induction false} RunThen(s: State, steps: seq<Step>, step: Step)
    requires |s.slots| > 0
    ensures Run(s, steps + [step]) == Apply(Run(s, steps), step)
  {
    assert (steps + [step])[..|steps|] == steps;
  }

  /** Alone on a ring that is not full, a thread reserves, fills and, if all before it are published, publishes. */
  lemma OneRequest(s: State, t: Thread, r: Request)
    requires Inv(s) && s.PcOf(t).Outside? && s.reqProd == s.reqProdPvt < s.rspCons + |s.slots|
    ensures var s' := Run(s, [Load(t), Check(t), Reserve(t), Fill(t, r), Commit(t)]);
      && s'.reqProd == s.reqProd + 1 && s'.PcOf(t).Outside? && s.reqProd in s'.owner && s'.owner[s.reqProd] == t
      && s.reqProd in s'.content && s'.content[s.reqProd] == r && s'.slots[s.reqProd % |s.slots|] == r
  {
    hide Run;
    var none: seq<Step> := [];
    RunThen(s, none, Load(t));
    RunNothing(s);
    assert none + [Load(t)] == [Load(t)];
    RunThen(s, [Load(t)], Check(t));
    assert [Load(t)] + [Check(t)] == [Load(t), Check(t)];
    RunThen(s, [Load(t), Check(t)], Reserve(t));
    assert [Load(t), Check(t)] + [Reserve(t)] == [Load(t), Check(t), Reserve(t)];
    RunThen(s, [Load(t), Check(t), Reserve(t)], Fill(t, r));
    assert [Load(t), Check(t), Reserve(t)] + [Fill(t, r)] == [Load(t), Check(t), Reserve(t), Fill(t, r)];
    RunThen(s, [Load(t), Check(t), Reserve(t), Fill(t, r)], Commit(t));
    assert [Load(t), Check(t), Reserve(t), Fill(t, r)] + [Commit(t)] == [Load(t), Check(t), Reserve(t), Fill(t, r), Commit(t)];
  }

  lemma RunNothing(s: State)
    requires |s.slots| > 0
    ensures Run(s, []) == s
  {
  }

  /** From every reachable state, full ring or not, any thread outside can still get any request published. */
  lemma AnyRequestCanBePublished(s: State, t: Thread, r: Request) returns (steps: seq<Step>, i: nat)
    requires Inv(s) && s.PcOf(t).Outside?
    ensures var s' := Run(s, steps);
      i < s'.reqProd && i in s'.owner && s'.owner[i] == t && i in s'.content && s'.content[i] == r && s'.slots[i % |s'.slots|] == r
  {
    hide Run;
    var publish := EverythingCanBePublished(s, r);
    var s1 := Run(s, publish);
    RunKeeps(s, publish);
    var s2 := Apply(s1, Respond(s1.reqProd));
    StepKeeps(s1, Respond(s1.reqProd));
    RunThen(s, publish, Respond(s1.reqProd));
    var request := [Load(t), Check(t), Reserve(t), Fill(t, r), Commit(t)];
    OneRequest(s2, t, r);
    RunConcat(s, publish + [Respond(s1.reqProd)], request);
    steps, i := publish + [Respond(s1.reqProd)] + request, s2.reqProd;
  }
}
