/**
 * The physical page allocator: first fit over the allocation bitmap in a small and a bulk region,
 * with holes in the physical address space that ballooning fills and digs.
 */
module PagePool {
  import opened Bitmap
  import opened Common

  const BULK := 512    // allocations of this many pages or more go to the bulk region

  // ---------- Page sets ----------

  /** The n pages from `first` on. */
  function Range(first: nat, n: nat): (r: set<nat>)
    ensures |r| == n
    ensures forall p: nat :: p in r <==> first <= p < first + n
  {
    if n == 0 then {} else Range(first, n - 1) + {first + n - 1}
  }

  lemma Removed(s: set<nat>, t: set<nat>)
    requires t <= s
    ensures |s - t| == |s| - |t|
  {
    assert s == (s - t) + t;
  }

  lemma Added(s: set<nat>, t: set<nat>)
    requires s !! t
    ensures |s + t| == |s| + |t|
  {
  }

  /** A free page is one whose bit is clear. */
  ghost predicate Tracks(words: seq<bv64>, free: set<nat>) {
    forall p: nat :: WordOf(p) < |words| ==> (Allocated(words, p) <==> p !in free)
  }

  lemma TracksAlloc(words: seq<bv64>, words': seq<bv64>, free: set<nat>, first: nat, n: nat)
    requires Tracks(words, free) && MapAfter(words, words', first, first + n, true)
    ensures Tracks(words', free - Range(first, n))
  {
    hide Allocated, WordOf;
  }

  lemma TracksFree(words: seq<bv64>, words': seq<bv64>, free: set<nat>, first: nat, n: nat)
    requires Tracks(words, free) && MapAfter(words, words', first, first + n, false)
    ensures Tracks(words', free + Range(first, n))
  {
    hide Allocated, WordOf;
  }

  lemma InMap(p: nat, limit: nat, len: nat)
    requires p <= limit && WordOf(limit) < len
    ensures WordOf(p) < len
  {
  }

  // ---------- First fit ----------

  /** n pages from q on are free and lie below `end`. */
  ghost predicate FreeRun(free: set<nat>, q: nat, n: nat, end: nat) {
    n > 0 && q + n <= end && Range(q, n) <= free
  }

  /** The lowest such q at or after `from`; -1 if there is none. */
  ghost function FirstRun(free: set<nat>, from: nat, n: nat, end: nat): (r: int)
    ensures r == -1 || (from <= r && FreeRun(free, r, n, end))
    decreases end - from
  {
    if from >= end then -1
    else if FreeRun(free, from, n, end) then from
    else FirstRun(free, from + 1, n, end)
  }

  lemma {:induction false} FirstRunSkips(free: set<nat>, from: nat, to: nat, n: nat, end: nat)
    requires from <= to && forall q: nat :: from <= q < to ==> !FreeRun(free, q, n, end)
    ensures FirstRun(free, from, n, end) == FirstRun(free, to, n, end)
    decreases if from < to then to - from else 0
  {
    hide FreeRun;
    if from < to {
      NoRunPastEnd(free, from, to, n, end);
      FirstRunSkips(free, from + 1, to, n, end);
    }
  }

  lemma NoRunPastEnd(free: set<nat>, from: nat, to: nat, n: nat, end: nat)
    requires from < to
    ensures from >= end ==> FirstRun(free, from, n, end) == FirstRun(free, from + 1, n, end)
  {
  }

  /** FirstRun misses no run. */
  lemma {:induction false} FirstRunIsFirst(free: set<nat>, from: nat, n: nat, end: nat, q: nat)
    requires from <= q && FreeRun(free, q, n, end)
    ensures from <= FirstRun(free, from, n, end) <= q
    decreases end - from
  {
    hide Range;
    if !FreeRun(free, from, n, end) {
      FirstRunIsFirst(free, from + 1, n, end, q);
    }
  }

  // ---------- Holes ----------

  datatype Hole = Hole(start: nat, end: nat)

  ghost predicate InHole(holes: seq<Hole>, p: nat) {
    exists h :: h in holes && h.start <= p < h.end
  }

  /** Sorted, disjoint, in the bulk part of the address space; only a hole at the very end may be empty. */
  ghost predicate HolesOk(holes: seq<Hole>, bulk: nat, max: nat) {
    && (forall h :: h in holes ==> bulk <= h.start <= h.end <= max && (h.start < h.end || h.start == max))
    && (forall i, j :: 0 <= i < j < |holes| ==> holes[i].end <= holes[j].start)
  }

  function HolePages(h: Hole): nat { if h.start <= h.end then h.end - h.start else 0 }

  function HoleTotal(holes: seq<Hole>): nat {
    if holes == [] then 0 else HolePages(holes[0]) + HoleTotal(holes[1..])
  }

  function HoleSet(holes: seq<Hole>): set<nat> {
    if holes == [] then {} else Range(holes[0].start, HolePages(holes[0])) + HoleSet(holes[1..])
  }

  lemma {:induction false} HoleSetIs(holes: seq<Hole>, p: nat)
    ensures p in HoleSet(holes) <==> InHole(holes, p)
  {
    if holes != [] {
      HoleSetIs(holes[1..], p);
      assert holes == [holes[0]] + holes[1..];
    }
  }

  lemma {:induction false} HoleSetSize(holes: seq<Hole>, bulk: nat, max: nat)
    requires HolesOk(holes, bulk, max)
    ensures |HoleSet(holes)| == HoleTotal(holes)
  {
    hide Range;
    if holes != [] {
      HoleSetSize(holes[1..], bulk, max);
      forall p: nat | p in Range(holes[0].start, HolePages(holes[0]))
        ensures p !in HoleSet(holes[1..])
      {
        HoleSetIs(holes[1..], p);
      }
      Added(Range(holes[0].start, HolePages(holes[0])), HoleSet(holes[1..]));
    }
  }

  lemma {:induction false} TotalOfParts(a: seq<Hole>, b: seq<Hole>)
    ensures HoleTotal(a + b) == HoleTotal(a) + HoleTotal(b)
  {
    if a == [] {
      assert a + b == b;
    } else {
      TotalOfParts(a[1..], b);
      assert (a + b)[1..] == a[1..] + b;
    }
  }

  // ---------- The state of the pool ----------

  datatype View = View(free: set<nat>, holes: seq<Hole>, runs: map<nat, nat>, lo: nat, bulk: nat, end: nat, max: nat)

  ghost predicate InRun(runs: map<nat, nat>, p: nat) {
    exists a: nat :: a in runs && a <= p < a + runs[a]
  }

  ghost predicate RunsOk(runs: map<nat, nat>, lo: nat, bulk: nat, end: nat) {
    && (forall a: nat :: a in runs ==> runs[a] > 0 && lo <= a && a + runs[a] <= end && (runs[a] >= BULK ==> a >= bulk))
    && (forall a: nat, b: nat :: a in runs && b in runs && a < b ==> a + runs[a] <= b)
  }

  /** A page of the pool is free, in a live run, or in a hole, and only one of these. */
  ghost predicate PageOk(v: View, p: nat) {
    && (p in v.free ==> v.lo <= p < v.end && !InHole(v.holes, p) && !InRun(v.runs, p))
    && (InRun(v.runs, p) ==> v.lo <= p < v.end && !InHole(v.holes, p))
    && (InHole(v.holes, p) ==> v.bulk <= p < v.max)
    && (v.lo <= p < v.max ==> p in v.free || InRun(v.runs, p) || InHole(v.holes, p))
  }

  ghost predicate ViewOk(v: View) {
    && 1 < v.lo <= v.bulk <= v.end <= v.max
    && HolesOk(v.holes, v.bulk, v.max)
    && RunsOk(v.runs, v.lo, v.bulk, v.end)
    && forall p: nat :: PageOk(v, p)
  }

  ghost function RunPages(v: View): set<nat> { set p: nat | p < v.max && InRun(v.runs, p) }

  /** Free, allocated and missing pages always add up to the pool. */
  lemma Conservation(v: View)
    requires ViewOk(v)
    ensures |v.free| + |RunPages(v)| + HoleTotal(v.holes) == v.max - v.lo
  {
    hide Range, InRun, InHole, HolesOk, RunsOk;
    var missing := HoleSet(v.holes);
    var pool := Range(v.lo, v.max - v.lo);
    forall p: nat
      ensures p in missing <==> InHole(v.holes, p)
      ensures p in pool <==> p in v.free || p in RunPages(v) || p in missing
      ensures !(p in v.free && p in RunPages(v)) && !(p in missing && (p in v.free || p in RunPages(v)))
    {
      HoleSetIs(v.holes, p);
      assert PageOk(v, p);
    }
    HoleSetSize(v.holes, v.bulk, v.max);
    Partition(pool, v.free, RunPages(v), missing);
  }

  lemma Partition(all: set<nat>, a: set<nat>, b: set<nat>, c: set<nat>)
    requires forall p: nat :: p in all <==> p in a || p in b || p in c
    requires forall p: nat :: !(p in a && p in b)
    requires forall p: nat :: !(p in c && (p in a || p in b))
    ensures |all| == |a| + |b| + |c|
  {
    assert all == a + b + c;
    Added(a, b);
    Added(a + b, c);
  }

  // ---------- What the operations do to the state ----------

  function Take(v: View, page: nat, n: nat): View {
    v.(free := v.free - Range(page, n), runs := v.runs[page := n])
  }

  lemma InRunAfterTake(runs: map<nat, nat>, page: nat, n: nat, p: nat)
    requires page !in runs
    ensures InRun(runs[page := n], p) <==> InRun(runs, p) || page <= p < page + n
  {
    if page <= p < page + n {
      assert page in runs[page := n];
    }
    if InRun(runs, p) {
      var a: nat :| a in runs && a <= p < a + runs[a];
      assert a in runs[page := n];
    }
  }

  lemma TakeKeeps(v: View, page: nat, n: nat)
    requires ViewOk(v) && n > 0 && Range(page, n) <= v.free && (n >= BULK ==> page >= v.bulk)
    ensures ViewOk(Take(v, page, n)) && page !in v.runs
  {
    hide Range, InRun, InHole, HolesOk;
    forall a: nat | a in v.runs
      ensures a != page && (a < page ==> a + v.runs[a] <= page) && (page < a ==> page + n <= a)
    {
      ApartFromFree(v, a, page, n);
    }
    assert page in Range(page, n) && page + n - 1 in Range(page, n);
    assert PageOk(v, page) && PageOk(v, page + n - 1);
    forall p: nat
      ensures PageOk(Take(v, page, n), p)
    {
      assert PageOk(v, p);
      InRunAfterTake(v.runs, page, n, p);
    }
  }

  /** A live run and a free range do not meet. */
  lemma ApartFromFree(v: View, a: nat, page: nat, n: nat)
    requires ViewOk(v) && n > 0 && Range(page, n) <= v.free && a in v.runs
    ensures a + v.runs[a] <= page || page + n <= a
  {
    hide Range;
    var p := if a >= page then a else page;
    assert a <= p < a + v.runs[a] ==> InRun(v.runs, p);
    assert PageOk(v, p);
  }

  function Give(v: View, page: nat): View
    requires page in v.runs
  {
    v.(free := v.free + Range(page, v.runs[page]), runs := v.runs - {page})
  }

  lemma InRunAfterGive(runs: map<nat, nat>, lo: nat, bulk: nat, end: nat, page: nat, p: nat)
    requires RunsOk(runs, lo, bulk, end) && page in runs
    ensures InRun(runs - {page}, p) <==> InRun(runs, p) && !(page <= p < page + runs[page])
    ensures page <= p < page + runs[page] ==> InRun(runs, p)
  {
    if InRun(runs - {page}, p) {
      var a: nat :| a in runs - {page} && a <= p < a + runs[a];
      assert a in runs;
    }
    if InRun(runs, p) && !(page <= p < page + runs[page]) {
      var a: nat :| a in runs && a <= p < a + runs[a];
      assert a in runs - {page};
    }
  }

  lemma FewerRuns(runs: map<nat, nat>, lo: nat, bulk: nat, end: nat, page: nat)
    requires RunsOk(runs, lo, bulk, end)
    ensures RunsOk(runs - {page}, lo, bulk, end)
  {
  }

  lemma GiveKeeps(v: View, page: nat)
    requires ViewOk(v) && page in v.runs
    ensures ViewOk(Give(v, page)) && v.free !! Range(page, v.runs[page])
  {
    hide Range, InRun, InHole, HolesOk, RunsOk;
    FewerRuns(v.runs, v.lo, v.bulk, v.end, page);
    forall p: nat
      ensures PageOk(Give(v, page), p) && !(p in v.free && p in Range(page, v.runs[page]))
    {
      assert PageOk(v, p);
      InRunAfterGive(v.runs, v.lo, v.bulk, v.end, page, p);
    }
  }

  /** Xen fills the first rc pages of the first hole. */
  function Filled(holes: seq<Hole>, rc: nat): seq<Hole>
    requires holes != []
  {
    if HolePages(holes[0]) == rc then holes[1..] else [Hole(holes[0].start + rc, holes[0].end)] + holes[1..]
  }

  function Fill(v: View, rc: nat): View
    requires v.holes != []
  {
    v.(free := v.free + Range(v.holes[0].start, rc), holes := Filled(v.holes, rc), end := Max(v.end, v.holes[0].start + rc))
  }

  lemma FilledTotal(holes: seq<Hole>, rc: nat)
    requires holes != [] && rc <= HolePages(holes[0])
    ensures HoleTotal(Filled(holes, rc)) == HoleTotal(holes) - rc
  {
    if HolePages(holes[0]) != rc {
      assert Filled(holes, rc)[1..] == holes[1..];
    }
  }

  lemma FilledHoles(holes: seq<Hole>, bulk: nat, max: nat, rc: nat)
    requires HolesOk(holes, bulk, max) && holes != [] && rc <= HolePages(holes[0])
    ensures HolesOk(Filled(holes, rc), bulk, max)
  {
    var holes' := Filled(holes, rc);
    assert holes[0] in holes;
    if HolePages(holes[0]) != rc {
      assert |holes'| == |holes| && holes'[0] == Hole(holes[0].start + rc, holes[0].end);
      forall i | 0 <= i < |holes|
        ensures i > 0 ==> holes'[i] == holes[i] && holes[i] in holes
      {
      }
    } else {
      assert forall i :: 0 <= i < |holes'| ==> holes'[i] == holes[i + 1];
    }
  }

  lemma InHoleAfterFill(holes: seq<Hole>, bulk: nat, max: nat, rc: nat, p: nat)
    requires HolesOk(holes, bulk, max) && holes != [] && rc <= HolePages(holes[0])
    ensures InHole(Filled(holes, rc), p) <==> InHole(holes, p) && !(holes[0].start <= p < holes[0].start + rc)
    ensures holes[0].start <= p < holes[0].start + rc ==> InHole(holes, p)
  {
    var holes' := Filled(holes, rc);
    if InHole(holes', p) {
      var h :| h in holes' && h.start <= p < h.end;
      if h in holes[1..] {
        assert h in holes;
      } else {
        assert holes[0] in holes;
      }
    }
    if InHole(holes, p) && !(holes[0].start <= p < holes[0].start + rc) {
      var h :| h in holes && h.start <= p < h.end;
      if h == holes[0] {
        assert holes'[0] in holes';
      } else {
        assert h in holes[1..];
        assert h in holes';
      }
    }
    if holes[0].start <= p < holes[0].start + rc {
      assert holes[0] in holes;
    }
  }

  lemma FillKeeps(v: View, rc: nat)
    requires ViewOk(v) && v.holes != [] && rc <= HolePages(v.holes[0])
    ensures ViewOk(Fill(v, rc)) && v.free !! Range(v.holes[0].start, rc)
    ensures HoleTotal(Fill(v, rc).holes) == HoleTotal(v.holes) - rc
    ensures v.bulk <= v.holes[0].start && v.holes[0].start + rc <= v.max
  {
    assert v.holes[0] in v.holes;
    FilledHoles(v.holes, v.bulk, v.max, rc);
    FilledTotal(v.holes, rc);
    hide Range, InRun, InHole, HolesOk, Filled;
    forall p: nat
      ensures PageOk(Fill(v, rc), p) && !(p in v.free && p in Range(v.holes[0].start, rc))
    {
      assert PageOk(v, p);
      InHoleAfterFill(v.holes, v.bulk, v.max, rc, p);
    }
  }

  /** memory_hole_add: before the first hole that starts later. */
  function Insert(holes: seq<Hole>, h: Hole): (r: seq<Hole>)
    ensures forall x :: x in r <==> x in holes || x == h
  {
    if holes == [] then [h]
    else if holes[0].start > h.start then [h] + holes
    else [holes[0]] + Insert(holes[1..], h)
  }

  lemma ConsOk(h: Hole, holes: seq<Hole>, bulk: nat, max: nat)
    requires HolesOk(holes, bulk, max) && bulk <= h.start <= h.end <= max && (h.start < h.end || h.start == max)
    requires forall x :: x in holes ==> h.end <= x.start
    ensures HolesOk([h] + holes, bulk, max)
  {
    var r := [h] + holes;
    forall i, j | 0 <= i < j < |r|
      ensures r[i].end <= r[j].start
    {
      assert r[j] == holes[j - 1] && holes[j - 1] in holes;
    }
  }

  lemma RestOk(holes: seq<Hole>, bulk: nat, max: nat)
    requires HolesOk(holes, bulk, max) && holes != []
    ensures HolesOk(holes[1..], bulk, max) && holes[0] in holes
    ensures forall x :: x in holes[1..] ==> x in holes && holes[0].end <= x.start
  {
    forall x | x in holes[1..]
      ensures x in holes && holes[0].end <= x.start
    {
      var j :| 0 < j < |holes| && x == holes[j];
    }
  }

  ghost predicate Apart(holes: seq<Hole>, h: Hole) {
    forall x :: x in holes ==> x.end <= h.start || h.end <= x.start
  }

  lemma {:induction false} InsertOk(holes: seq<Hole>, h: Hole, bulk: nat, max: nat)
    requires HolesOk(holes, bulk, max) && bulk <= h.start < h.end <= max && Apart(holes, h)
    ensures HolesOk(Insert(holes, h), bulk, max)
    ensures HoleTotal(Insert(holes, h)) == HoleTotal(holes) + h.end - h.start
  {
    if holes == [] {
      assert [h][1..] == [];
    } else {
      RestOk(holes, bulk, max);
      if holes[0].start > h.start {
        ConsOk(h, holes, bulk, max);
        assert ([h] + holes)[1..] == holes;
      } else {
        InsertOk(holes[1..], h, bulk, max);
        ConsOk(holes[0], Insert(holes[1..], h), bulk, max);
        assert ([holes[0]] + Insert(holes[1..], h))[1..] == Insert(holes[1..], h);
      }
    }
  }

  /** A new hole joins the first hole if they touch, and is inserted otherwise. */
  function Dug(holes: seq<Hole>, h: Hole): seq<Hole> {
    if holes == [] || h.end != holes[0].start then Insert(holes, h) else [Hole(h.start, holes[0].end)] + holes[1..]
  }

  lemma DugOk(holes: seq<Hole>, h: Hole, bulk: nat, max: nat)
    requires HolesOk(holes, bulk, max) && bulk <= h.start < h.end <= max && Apart(holes, h)
    ensures HolesOk(Dug(holes, h), bulk, max)
    ensures HoleTotal(Dug(holes, h)) == HoleTotal(holes) + h.end - h.start
  {
    if holes == [] || h.end != holes[0].start {
      InsertOk(holes, h, bulk, max);
    } else {
      RestOk(holes, bulk, max);
      ConsOk(Hole(h.start, holes[0].end), holes[1..], bulk, max);
      assert Dug(holes, h)[1..] == holes[1..];
    }
  }

  lemma InHoleAfterDig(holes: seq<Hole>, h: Hole, bulk: nat, max: nat, p: nat)
    requires HolesOk(holes, bulk, max) && h.start < h.end
    ensures InHole(Dug(holes, h), p) <==> InHole(holes, p) || h.start <= p < h.end
  {
    hide Insert;
    var holes' := Dug(holes, h);
    if holes != [] && h.end == holes[0].start {
      RestOk(holes, bulk, max);
      assert holes'[0] in holes' && holes'[1..] == holes[1..];
      assert forall x :: x in holes' <==> x == holes'[0] || x in holes[1..];
      assert forall x :: x in holes <==> x == holes[0] || x in holes[1..];
    }
  }

  function Dig(v: View, start: nat, n: nat): View {
    v.(free := v.free - Range(start, n), holes := Dug(v.holes, Hole(start, start + n)),
       end := if v.end == start + n then start else v.end)
  }

  lemma FreeIsApart(v: View, start: nat, n: nat)
    requires ViewOk(v) && n > 0 && Range(start, n) <= v.free
    ensures Apart(v.holes, Hole(start, start + n)) && v.lo <= start && start + n <= v.end
  {
    hide Range;
    assert start in Range(start, n) && start + n - 1 in Range(start, n);
    assert PageOk(v, start) && PageOk(v, start + n - 1);
    forall x | x in v.holes
      ensures x.end <= start || start + n <= x.start
    {
      var p := if x.start >= start then x.start else start;
      assert x.start <= p < x.end ==> InHole(v.holes, p);
      assert PageOk(v, p);
    }
  }

  lemma RunsBelow(v: View, start: nat, n: nat)
    requires ViewOk(v) && n > 0 && Range(start, n) <= v.free && v.end == start + n && v.bulk <= start
    ensures RunsOk(v.runs, v.lo, v.bulk, start)
  {
    hide Range, InRun, InHole, HolesOk;
    forall a: nat | a in v.runs
      ensures a + v.runs[a] <= start
    {
      ApartFromFree(v, a, start, n);
    }
  }

  lemma DigKeeps(v: View, start: nat, n: nat)
    requires ViewOk(v) && n > 0 && start >= v.bulk && Range(start, n) <= v.free
    ensures ViewOk(Dig(v, start, n)) && HoleTotal(Dig(v, start, n).holes) == HoleTotal(v.holes) + n
  {
    hide Range, InRun, InHole, HolesOk, RunsOk, Dug;
    var v' := Dig(v, start, n);
    FreeIsApart(v, start, n);
    DugOk(v.holes, Hole(start, start + n), v.bulk, v.max);
    if v.end == start + n {
      RunsBelow(v, start, n);
    }
    forall p: nat
      ensures PageOk(v', p)
    {
      assert PageOk(v, p);
      InHoleAfterDig(v.holes, Hole(start, start + n), v.bulk, v.max, p);
      if InRun(v.runs, p) {
        InRunBounds(v.runs, v.lo, v.bulk, v'.end, p);
      }
    }
  }

  lemma InRunBounds(runs: map<nat, nat>, lo: nat, bulk: nat, end: nat, p: nat)
    requires RunsOk(runs, lo, bulk, end) && InRun(runs, p)
    ensures lo <= p < end
  {
  }
}
