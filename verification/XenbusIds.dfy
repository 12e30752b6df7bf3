/** Identifiers of xenstore requests: a table of slots, searched round from where the last search ended. */
module XenbusIds {
  const SLOTS := 32        // NR_REQS

  /** The number of slots in use. */
  function InUse(slots: seq<bool>): nat {
    if slots == [] then 0 else InUse(slots[..|slots| - 1]) + if slots[|slots| - 1] then 1 else 0
  }

  /** If all slots are in use, that is their number. */
  lemma {:induction false} AllInUse(slots: seq<bool>)
    requires forall i: nat :: i < |slots| ==> slots[i]
    ensures InUse(slots) == |slots|
  {
    if slots != [] {
      AllInUse(slots[..|slots| - 1]);
    }
  }

  lemma {:induction false} Changed(slots: seq<bool>, i: nat, b: bool)
    requires i < |slots| && slots[i] != b
    ensures InUse(slots[i := b]) == InUse(slots) + if b then 1 else -1
  {
    var last := |slots| - 1;
    if i < last {
      Changed(slots[..last], i, b);
      assert slots[i := b][..last] == slots[..last][i := b];
    } else {
      assert slots[i := b][..last] == slots[..last];
    }
  }

  /** The slot j steps round from `probe`. */
  function Round(probe: nat, j: nat): (r: nat)
    ensures r < SLOTS
  {
    (probe + j) % SLOTS
  }

  lemma RoundStep(probe: nat, j: nat)
    ensures (Round(probe, j) + 1) % SLOTS == Round(probe, j + 1)
    ensures probe < SLOTS && j < SLOTS ==> (Round(probe, j) == probe <==> j == 0)
  {
  }

  /** Going round once passes every slot. */
  lemma RoundPasses(probe: nat, i: nat)
    requires probe < SLOTS && i < SLOTS
    ensures exists j: nat :: j < SLOTS && Round(probe, j) == i
  {
    var j: nat := if i >= probe then i - probe else i + SLOTS - probe;
    assert Round(probe, j) == i;
  }

  /** So if slots are counted right and fewer than all are in use, the search meets a free one. */
  lemma FreeSlotIsMet(slots: seq<bool>, probe: nat)
    requires |slots| == SLOTS && probe < SLOTS && InUse(slots) < SLOTS
    ensures exists j: nat :: j < SLOTS && !slots[Round(probe, j)]
  {
    if forall i: nat :: i < |slots| ==> slots[i] {
      AllInUse(slots);
    }
    var i: nat :| i < |slots| && !slots[i];
    RoundPasses(probe, i);
  }

  class Requests {
    const inUse: array<bool>      // req_info[].in_use
    var live: nat                 // nr_live_reqs
    var probe: nat

    ghost predicate Valid()
      reads this, inUse
    {
      inUse.Length == SLOTS && probe < SLOTS && live == InUse(inUse[..])
    }

    constructor ()
      ensures Valid() && fresh(inUse) && forall i: nat :: i < SLOTS ==> !inUse[i]
    {
      inUse := new bool[SLOTS](_ => false);
      live, probe := 0, 0;
      new;
      NoneInUse(inUse[..]);
    }

    /** allocate_xenbus_id once fewer than all slots are in use; the trap is not reached. */
    method Allocate() returns (id: nat, trap: bool)
      requires Valid() && live < SLOTS
      modifies this, inUse
      ensures Valid() && !trap && id < SLOTS && !old(inUse[id]) && live == old(live) + 1
      ensures inUse[..] == old(inUse[..])[id := true]
    {
      hide InUse, Round;
      ghost var was := inUse[..];
      FreeSlotIsMet(was, probe);
      ghost var stop: nat :| stop < SLOTS && !was[Round(probe, stop)];
      ghost var j: nat := 0;
      id := probe;
      RoundStart(probe);
      while inUse[id]
        invariant id < SLOTS && id == Round(probe, j) && j <= stop && inUse[..] == was && probe == old(probe) && live == old(live)
        decreases stop - j
      {
        RoundStep(probe, j);
        RoundStep(probe, j + 1);
        assert j != stop;
        id := (id + 1) % SLOTS;
        j := j + 1;
        if id == probe {
          return id, true;
        }
      }
      live := live + 1;
      Changed(was, id, true);
      inUse[id] := true;
      assert inUse[..] == was[id := true];
      probe := (id + 1) % SLOTS;
      trap := false;
    }

    /** release_xenbus_id of an identifier in use; waiters are woken when a slot becomes free again and when none is left. */
    method Release(id: nat) returns (wake: bool)
      requires Valid() && id < SLOTS && inUse[id]
      modifies this`live, inUse
      ensures Valid() && live == old(live) - 1 && inUse[..] == old(inUse[..])[id := false]
      ensures wake <==> old(live) == SLOTS || old(live) == 1
    {
      hide InUse;
      ghost var was := inUse[..];
      Changed(was, id, false);
      live := live - 1;
      inUse[id] := false;
      assert inUse[..] == was[id := false];
      wake := live == SLOTS - 1 || live == 0;
    }
  }

  lemma RoundStart(probe: nat)
    requires probe < SLOTS
    ensures Round(probe, 0) == probe
  {
  }

  lemma {:induction false} NoneInUse(slots: seq<bool>)
    requires forall i: nat :: i < |slots| ==> !slots[i]
    ensures InUse(slots) == 0
  {
    if slots != [] {
      NoneInUse(slots[..|slots| - 1]);
    }
  }
}
