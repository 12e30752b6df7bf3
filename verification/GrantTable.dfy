/**
 * Grant references: a stack of free references linked through the array that they index, with
 * entry 0 as its head and reference 0 as its end.
 */
module GrantTable {
  import opened Queues

  const RESERVED := 8          // references below this are never handed out
  const PERMIT_ACCESS := 1     // GTF_permit_access
  const READONLY := 4          // GTF_readonly

  predicate InUse(flags: nat) { flags / 8 % 2 == 1 || flags / 16 % 2 == 1 }

  /**
   * history[met] are the flags that end the loop: all before are idle and each store changes them,
   * and they are in use, or as the compare-and-swap expects them.
   */
  predicate Decided(history: seq<nat>, met: nat) {
    && met < |history|
    && (forall j: nat :: j < met ==> !InUse(history[j]))
    && (forall j: nat :: j + 1 < met ==> history[j + 1] != history[j])
    && (InUse(history[met]) || met == |history| - 1 || (met > 0 && history[met] == history[met - 1]))
  }

  /** There is only one such place, so whether the access ends depends on the stores alone. */
  lemma DecidedOnce(history: seq<nat>, a: nat, b: nat)
    requires Decided(history, a) && Decided(history, b)
    ensures a == b
  {
    hide Decided;
    if a < b {
      DecidedFirst(history, a, b);
    } else if b < a {
      DecidedFirst(history, b, a);
    }
  }

  lemma DecidedFirst(history: seq<nat>, a: nat, b: nat)
    requires Decided(history, b) && a < b
    ensures !Decided(history, a)
  {
    hide InUse;
    assert a > 0 ==> history[(a - 1) + 1] != history[a - 1];
  }

  datatype Entry = Entry(flags: nat, domid: nat, frame: nat)

  /** The entry that follows position i of the chain; 0 after the last. */
  function Follows(chain: seq<nat>, i: nat): nat { if i < |chain| then chain[i] else 0 }

  /** list[0] leads to the chain, each of its references to the next, and the last to 0. */
  ghost predicate Linked(list: seq<nat>, chain: seq<nat>) {
    && |list| > 0 && Distinct(chain)
    && list[0] == Follows(chain, 0)
    && forall i: nat :: i < |chain| ==> RESERVED <= chain[i] < |list| && list[chain[i]] == Follows(chain, i + 1)
  }

  function Pushed(list: seq<nat>, ref: nat): seq<nat>
    requires 0 < ref < |list|
  {
    list[ref := list[0]][0 := ref]
  }

  lemma PushLinks(list: seq<nat>, chain: seq<nat>, ref: nat)
    requires Linked(list, chain) && RESERVED <= ref < |list| && ref !in chain
    ensures Linked(Pushed(list, ref), [ref] + chain)
  {
    var list', chain' := Pushed(list, ref), [ref] + chain;
    forall i: nat | i < |chain'|
      ensures RESERVED <= chain'[i] < |list'| && list'[chain'[i]] == Follows(chain', i + 1)
    {
      if i > 0 {
        assert chain'[i] == chain[i - 1] && chain[i - 1] in chain;
      }
    }
  }

  lemma PopLinks(list: seq<nat>, chain: seq<nat>)
    requires Linked(list, chain) && chain != []
    ensures chain[0] == list[0] && chain[0] !in chain[1..]
    ensures Linked(list[0 := list[chain[0]]], chain[1..])
  {
    var rest := chain[1..];
    forall i: nat | i < |rest|
      ensures RESERVED <= rest[i] < |list| && list[0 := list[chain[0]]][rest[i]] == Follows(rest, i + 1)
    {
      assert rest[i] == chain[i + 1];
    }
  }

  class Grants {
    const list: array<nat>         // gnttab_list
    const table: array<Entry>      // gnttab_table, shared with the other domains
    var numFree: int
    ghost var chain: seq<nat>      // the free references, the next to be handed out first
    ghost var granted: set<nat>

    /** Every reference is free once or granted, never both, and the counter agrees. */
    ghost predicate Valid()
      reads this, list
    {
      && list.Length == table.Length && list.Length > RESERVED
      && Linked(list[..], chain) && numFree == |chain|
      && (forall r: nat :: r in granted ==> r !in chain)
      && (forall r: nat :: RESERVED <= r < list.Length <==> r in chain || r in granted)
    }

    /** The fill loop of init_frames. */
    constructor (n: nat)
      requires n > RESERVED
      ensures Valid() && fresh(list) && fresh(table) && list.Length == n && granted == {}
    {
      list := new nat[n](_ => 0);
      table := new Entry[n](_ => Entry(0, 0, 0));
      numFree, chain, granted := 0, [], {};
      new;
      var i := RESERVED;
      while i < n
        invariant RESERVED <= i <= n && Linked(list[..], chain) && numFree == |chain| && granted == {}
        invariant forall r: nat :: r in chain <==> RESERVED <= r < i
      {
        Push(i);
        i := i + 1;
      }
    }

    /** put_free_entry */
    method Push(ref: nat)
      requires Linked(list[..], chain) && numFree == |chain| && RESERVED <= ref < list.Length && ref !in chain
      modifies list, this`numFree, this`chain
      ensures Linked(list[..], chain) && numFree == |chain| && chain == [ref] + old(chain)
    {
      hide Linked;
      PushLinks(list[..], chain, ref);
      ghost var after := Pushed(list[..], ref);
      list[ref] := list[0];
      list[0] := ref;
      numFree := numFree + 1;
      chain := [ref] + chain;
      assert list[..] == after;
    }

    /** get_free_entry; the trap is reached exactly when no reference is free. */
    method Get() returns (ref: nat, trap: bool)
      requires Valid()
      modifies list, this`numFree, this`chain, this`granted
      ensures trap <==> old(chain) == []
      ensures !trap ==> Valid() && ref == old(chain)[0] && chain == old(chain)[1..]
      ensures !trap ==> ref !in old(granted) && granted == old(granted) + {ref}
      ensures trap ==> ref == 0 && list[..] == old(list[..]) && granted == old(granted)
    {
      ref := list[0];
      ghost var was := list[..];
      if chain != [] {
        PopLinks(was, chain);
        assert chain == [ref] + chain[1..];
        chain := chain[1..];
        granted := granted + {ref};
      }
      list[0] := list[ref];
      assert list[..] == was[0 := was[ref]];
      numFree := numFree - 1;
      trap := numFree < 0;
    }

    /** gnttab_grant_access */
    method GrantAccess(domid: nat, frame: nat, readonly: bool) returns (ref: nat, trap: bool)
      requires Valid()
      modifies list, table, this`numFree, this`chain, this`granted
      ensures trap <==> old(chain) == []
      ensures !trap ==> Valid() && ref !in old(granted) && granted == old(granted) + {ref} && RESERVED <= ref < table.Length
      ensures !trap ==> table[..] == old(table[..])[ref := Entry(PERMIT_ACCESS + (if readonly then READONLY else 0), domid, frame)]
      ensures trap ==> table[..] == old(table[..])
    {
      hide Linked;
      ref, trap := Get();
      if trap {
        return;
      }
      assert ref in granted;
      table[ref] := table[ref].(frame := frame);
      table[ref] := table[ref].(domid := domid);
      table[ref] := table[ref].(flags := PERMIT_ACCESS + if readonly then READONLY else 0);
    }

    /**
     * gnttab_end_access, with what the other domain stores into the flags before each
     * compare-and-swap. The reference is taken back in one atomic step, and exactly if the flags
     * that this step, or the refusing read, meets do not show the other domain as using it.
     */
    method EndAccess(ref: nat, stores: seq<nat>) returns (ended: bool, ghost met: nat)
      requires Valid() && ref in granted
      modifies list, table, this`numFree, this`chain, this`granted
      ensures Valid()
      ensures Decided([old(table[ref].flags)] + stores, met)
      ensures ended <==> !InUse(([old(table[ref].flags)] + stores)[met])
      ensures ended ==> granted == old(granted) - {ref} && chain == [ref] + old(chain) && table[ref].flags == 0
      ensures !ended ==> granted == old(granted) && chain == old(chain) && table[ref].flags == ([old(table[ref].flags)] + stores)[met]
      ensures forall r: nat :: r < table.Length && r != ref ==> table[r] == old(table[r])
    {
      hide Linked;
      var seen := table[ref].flags;
      ghost var history := [seen] + stores;
      var k := 0;
      while true
        invariant 0 <= k <= |stores| && Valid() && granted == old(granted) && chain == old(chain)
        invariant seen == table[ref].flags == history[k]
        invariant forall j: nat :: j < k ==> !InUse(history[j]) && history[j + 1] != history[j]
        invariant forall r: nat :: r < table.Length && r != ref ==> table[r] == old(table[r])
        decreases |stores| - k
      {
        met := k;
        if InUse(seen) {
          return false, met;
        }
        if k < |stores| {
          table[ref] := table[ref].(flags := stores[k]);
          k := k + 1;
          met := k;
          if table[ref].flags != seen {
            seen := table[ref].flags;
            continue;
          }
        }
        table[ref] := table[ref].(flags := 0);
        break;
      }
      granted := granted - {ref};
      Push(ref);
      ended := true;
    }
  }
}
