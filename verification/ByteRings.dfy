/** A ring buffer as a queue: free-running indices select slots modulo the size of the ring. */
module ByteRings {
  import opened Arithmetic

  function Slot(i: nat, n: nat): (s: nat)
    requires n > 0
    ensures s < n
  {
    i % n
  }

  lemma SlotsDiffer(i: nat, j: nat, n: nat)
    requires i < j < i + n
    ensures Slot(i, n) != Slot(j, n)
  {
    RemaindersDiffer(i, j, n);
  }

  /** Up to the end of the ring, slots follow each other. */
  lemma SlotStep(i: nat, k: nat, n: nat)
    requires n > 0 && Slot(i, n) + k < n
    ensures Slot(i + k, n) == Slot(i, n) + k
  {
    DivModSplit(i, n);
    DivModUnique(i + k, n, i / n, i % n + k);
  }

  /** At the end of the ring, slots start over. */
  lemma SlotWraps(i: nat, k: nat, n: nat)
    requires n > 0 && n <= Slot(i, n) + k < 2 * n
    ensures Slot(i + k, n) == Slot(i, n) + k - n
  {
    DivModSplit(i, n);
    MulDist(i / n, 1, n);
    DivModUnique(i + k, n, i / n + 1, i % n + k - n);
  }

  /** The elements at indices `from` to `end` - 1. */
  function Between<T>(ring: seq<T>, from: nat, end: nat): (r: seq<T>)
    requires |ring| > 0 && from <= end
    ensures |r| == end - from
    ensures forall k: nat :: k < |r| ==> r[k] == ring[Slot(from + k, |ring|)]
    decreases end - from
  {
    if from == end then [] else Between(ring, from, end - 1) + [ring[Slot(end - 1, |ring|)]]
  }

  lemma BetweenSplits<T>(ring: seq<T>, from: nat, mid: nat, end: nat)
    requires |ring| > 0 && from <= mid <= end
    ensures Between(ring, from, end) == Between(ring, from, mid) + Between(ring, mid, end)
  {
    hide Slot, Between;
    forall k: nat | mid - from <= k < end - from
      ensures Between(ring, from, end)[k] == Between(ring, mid, end)[k - (mid - from)]
    {
      assert from + k == mid + (k - (mid - from));
    }
  }

  /** Writing at the producer index appends, as long as the ring is not full. */
  lemma PutAppends<T>(ring: seq<T>, from: nat, end: nat, x: T)
    requires from <= end < from + |ring|
    ensures Between(ring[Slot(end, |ring|) := x], from, end + 1) == Between(ring, from, end) + [x]
  {
    var one := [x];
    assert Overwrite(ring, Slot(end, |ring|), one) == ring[Slot(end, |ring|) := x];
    ChunkAppends(ring, from, end, one);
  }

  function Overwrite<T>(s: seq<T>, off: nat, d: seq<T>): (r: seq<T>)
    requires off + |d| <= |s|
    ensures |r| == |s|
    ensures forall i: nat :: i < |s| ==> r[i] == if off <= i < off + |d| then d[i - off] else s[i]
  {
    s[..off] + d + s[off + |d|..]
  }

  /** Writing a chunk that does not reach past the end of the ring appends it, if there is room. */
  lemma ChunkAppends<T>(ring: seq<T>, from: nat, end: nat, d: seq<T>)
    requires |ring| > 0 && from <= end && end - from + |d| <= |ring| && Slot(end, |ring|) + |d| <= |ring|
    ensures Between(Overwrite(ring, Slot(end, |ring|), d), from, end + |d|) == Between(ring, from, end) + d
  {
    hide Slot, Between, Overwrite;
    var n := |ring|;
    var ring' := Overwrite(ring, Slot(end, n), d);
    forall k: nat | k < end - from + |d|
      ensures ring'[Slot(from + k, n)] == (Between(ring, from, end) + d)[k]
    {
      if k < end - from {
        OldSlotKept(from + k, end, |d|, n);
      } else {
        SlotStep(end, from + k - end, n);
      }
    }
  }

  lemma OldSlotKept(i: nat, end: nat, len: nat, n: nat)
    requires n > 0 && i < end && end + len <= i + n && Slot(end, n) + len <= n
    ensures !(Slot(end, n) <= Slot(i, n) < Slot(end, n) + len)
  {
    hide Slot;
    if Slot(end, n) <= Slot(i, n) < Slot(end, n) + len {
      var k := Slot(i, n) - Slot(end, n);
      SlotStep(end, k, n);
      SlotsDiffer(i, end + k, n);
    }
  }
}
