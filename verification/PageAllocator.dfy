/**
 * The page allocator's operations on the bitmap, the counters, the hints and the hole list. What
 * the hypervisor grants, how many page-table frames are taken and what others do while the lock is
 * dropped are parameters.
 */
module PageAllocator {
  import opened Bitmap
  import opened Common
  import opened PagePool

  /** What others may do to the pool while the lock is dropped: take any free pages of one region, or give back what they hold. */
  datatype PageOp = TakePages(page: nat, n: nat) | GivePages(page: nat, n: nat)

  /**
   * One answer of the hypervisor: the pages it grants, the page-table frames needed to map them, and
   * what others do while the lock is dropped to ask for it.
   */
  datatype Grant = Grant(pages: nat, frames: nat, others: seq<PageOp>)

  ghost predicate NoOthers(grants: seq<Grant>) { forall g :: g in grants ==> g.others == [] }

  ghost predicate Quiet(grants: seq<Grant>) { forall g :: g in grants ==> g.frames == 0 && g.others == [] }

  function Quieted(grants: seq<Grant>): (r: seq<Grant>)
    ensures Quiet(r)
  {
    seq(|grants|, i requires 0 <= i < |grants| => Grant(grants[i].pages, 0, []))
  }

  function Pages(grants: seq<Grant>): seq<nat> {
    if grants == [] then [] else [grants[0].pages] + Pages(grants[1..])
  }

  /**
   * What a series of answers brings: each as much as it grants, as is still needed and as the first
   * hole has, until one brings nothing.
   */
  function Obtained(holes: seq<Hole>, left: nat, answers: seq<nat>): nat
    decreases answers
  {
    if left == 0 || answers == [] || holes == [] then 0
    else
      var rc := Min(answers[0], Min(left, HolePages(holes[0])));
      if rc == 0 then 0 else rc + Obtained(Filled(holes, rc), left - rc, answers[1..])
  }

  /** From a hypervisor that never gives less than is asked for, one answer for each hole is enough. */
  lemma {:induction false} WillingAnswers(holes: seq<Hole>, left: nat, answers: seq<nat>, bulk: nat, max: nat)
    requires HolesOk(holes, bulk, max) && left <= HoleTotal(holes) && |holes| <= |answers|
    requires forall i :: 0 <= i < |answers| ==> answers[i] >= left
    ensures Obtained(holes, left, answers) == left
    decreases answers
  {
    if left > 0 {
      var rc := Min(left, HolePages(holes[0]));
      FilledTotal(holes, rc);
      if rc == 0 {
        EmptyFirst(holes, bulk, max);
      } else if rc < left {
        RestOk(holes, bulk, max);
        WillingAnswers(holes[1..], left - rc, answers[1..], bulk, max);
      } else {
        assert Obtained(Filled(holes, rc), 0, answers[1..]) == 0;
      }
    }
  }

  /** In a sorted list only the last hole is empty. */
  lemma EmptyFirst(holes: seq<Hole>, bulk: nat, max: nat)
    requires HolesOk(holes, bulk, max) && holes != [] && HolePages(holes[0]) == 0
    ensures HoleTotal(holes) == 0
  {
    assert holes[0] in holes;
    forall h | h in holes
      ensures h.start == max
    {
      var i :| 0 <= i < |holes| && holes[i] == h;
      assert i > 0 ==> holes[0].end <= holes[i].start;
    }
    EmptyHoles(holes, bulk, max);
  }

  /** No page can be found for a page-table frame. */
  ghost predicate OutOfPages(free: set<nat>, firstFree: nat, bulk: nat, firstFreeBulk: nat, end: nat) {
    FirstRun(free, firstFree, 1, bulk) == -1 && FirstRun(free, firstFreeBulk, 1, end) == -1
  }

  /** In a gap of the decrease others may also increase the pool. */
  datatype Callback = OnPages(op: PageOp) | Grow(n: nat, grants: seq<Grant>)

  function GivenBy(ops: seq<PageOp>): set<nat> { set op | op in ops && op.GivePages? :: op.page }

  function GivenDuring(grants: seq<Grant>): set<nat> { set g, op | g in grants && op in g.others && op.GivePages? :: op.page }

  function GivenBack(ops: seq<Callback>): set<nat> { set op | op in ops && op.OnPages? && op.op.GivePages? :: op.op.page }

  function AllGiven(gaps: seq<seq<Callback>>): set<nat> { set ops, op | ops in gaps && op in ops && op.OnPages? && op.op.GivePages? :: op.op.page }

  /** The callback stays below the bulk region. */
  predicate Small(op: Callback, bulk: nat) { op.OnPages? && op.op.page + op.op.n <= bulk }

  ghost predicate SmallOnly(ops: seq<Callback>, bulk: nat) { forall op :: op in ops ==> Small(op, bulk) }

  ghost predicate AllSmall(gaps: seq<seq<Callback>>, bulk: nat) { forall ops :: ops in gaps ==> SmallOnly(ops, bulk) }

  /** Live allocations stay where they are, except those given back. */
  ghost predicate RunsKeptBut(was: map<nat, nat>, now: map<nat, nat>, given: set<nat>) {
    forall a: nat :: a in was ==> a in given || (a in now && now[a] == was[a])
  }

  /** No free page of the small region lies below its hint; the bulk hint lies in the bulk region. */
  ghost predicate HintsOk(free: set<nat>, bulk: nat, firstFree: nat, firstFreeBulk: nat) {
    && (forall p: nat :: p in free && p < bulk ==> firstFree <= p)
    && bulk <= firstFreeBulk
  }

  /** So the hint loses no run: searching from it finds what searching the whole small region finds. */
  lemma {:induction false} HintLosesNothing(free: set<nat>, lo: nat, bulk: nat, firstFree: nat, firstFreeBulk: nat, n: nat)
    requires HintsOk(free, bulk, firstFree, firstFreeBulk) && lo <= firstFree
    ensures FirstRun(free, firstFree, n, bulk) == FirstRun(free, lo, n, bulk)
  {
    hide Range;
    forall q: nat | lo <= q < firstFree
      ensures !FreeRun(free, q, n, bulk)
    {
      assert n > 0 ==> q in Range(q, n);
    }
    FirstRunSkips(free, lo, firstFree, n, bulk);
  }

  lemma HintsAfterTake(free: set<nat>, bulk: nat, firstFree: nat, firstFreeBulk: nat, page: nat, n: nat, next: nat)
    requires HintsOk(free, bulk, firstFree, firstFreeBulk)
    requires forall q: nat :: page + n <= q < next ==> q !in free
    ensures HintsOk(free - Range(page, n), bulk, firstFree, firstFreeBulk)
    ensures page == firstFree ==> HintsOk(free - Range(page, n), bulk, next, firstFreeBulk)
  {
    hide Range;
  }

  /** Where the bulk region starts: after a percentage of the maximum reservation. */
  function FirstBulk(min: nat, last: nat, maxEnd: nat, pct: nat): (b: nat)
    requires min <= last
    ensures min <= b <= last
  {
    var b := min + maxEnd * pct / 100;
    if b > last then last else b
  }

  lemma NothingFree(words: seq<bv64>)
    requires forall p: nat :: WordOf(p) < |words| ==> Allocated(words, p)
    ensures Tracks(words, {})
  {
  }

  class Pool {
    const bits: array<bv64>
    const lo: nat       // first_alloc_page
    const bulk: nat     // first_bulk_page
    const max: nat      // max_end_alloc_page
    var end: nat        // end_alloc_page
    var firstFree: nat
    var firstFreeBulk: nat
    var numFree: nat
    var holes: seq<Hole>
    var inIncrease: bool
    ghost var free: set<nat>
    var runs: map<nat, nat>          // what callers hold: first page and number of pages of each live allocation

    ghost function V(): View
      reads this
    {
      View(free, holes, runs, lo, bulk, end, max)
    }

    ghost predicate Valid()
      reads this, bits
    {
      && WordOf(max) < bits.Length && Tracks(bits[..], free)
      && ViewOk(V()) && numFree == |free|
      && HintsOk(free, bulk, firstFree, firstFreeBulk) && lo <= firstFree
    }

    /** init_page_allocator and the hole up to the maximum reservation: pages min to last - 1 are free. */
    constructor (words: array<bv64>, min: nat, last: nat, maxEnd: nat, pct: nat)
      requires 1 < min <= last <= maxEnd && WordOf(maxEnd) < words.Length
      requires forall p: nat :: WordOf(p) < words.Length ==> Allocated(words[..], p)
      modifies words
      ensures Valid() && bits == words && lo == min && end == last && max == maxEnd && !inIncrease
      ensures free == Range(min, last - min) && runs == map[] && holes == [Hole(last, maxEnd)]
    {
      hide Allocated, Range, WordOf, ViewOk, HintsOk, Tracks, FirstBulk;
      bits, lo, max, end := words, min, maxEnd, last;
      bulk, firstFree, firstFreeBulk := FirstBulk(min, last, maxEnd, pct), min, FirstBulk(min, last, maxEnd, pct);
      numFree := last - min;
      holes := [Hole(last, maxEnd)];
      inIncrease := false;
      free, runs := {}, map[];
      new;
      NothingFree(bits[..]);
      InMap(last, max, bits.Length);
      Unmark(lo, last - lo);
      assert free == Range(min, last - min);
      InitialView(lo, bulk, end, max);
    }

    predicate InUse(page: nat)
      requires WordOf(page) < bits.Length
      reads this, bits
    {
      Allocated(bits[..], page)
    }

    lemma InUseIs(page: nat)
      requires Valid() && page <= max
      ensures WordOf(page) < bits.Length && (InUse(page) <==> page !in free)
    {
      hide Allocated, ViewOk;
      InMap(page, max, bits.Length);
    }

    lemma Bounds()
      requires Valid()
      ensures 1 < lo <= bulk <= end <= max && bulk <= firstFreeBulk && lo <= firstFree
    {
    }

    /** next_free: the first free page at or after `from`. */
    method NextFree(from: nat) returns (page: nat)
      requires Valid() && from <= end
      ensures from <= page <= end && (page < end ==> page in free)
      ensures forall q: nat :: from <= q < page ==> q !in free
    {
      hide Allocated, ViewOk, Tracks;
      Bounds();
      page := from;
      while page < end
        invariant from <= page <= end && forall q: nat :: from <= q < page ==> q !in free
      {
        InUseIs(page);
        if !InUse(page) {
          break;
        }
        page := page + 1;
      }
    }

    /** The search of _allocate_pages: the lowest run of n free pages between the hint and the end of the region. */
    method Search(n: nat, from: nat, endPage: nat) returns (found: int)
      requires Valid() && endPage <= end
      ensures found == FirstRun(free, from, n, endPage)
    {
      hide Allocated, ViewOk, Tracks, FirstRun, FreeRun, Range;
      Bounds();
      var page: nat := from;
      while page < endPage
        invariant from <= page && forall q: nat :: from <= q < page ==> !FreeRun(free, q, n, endPage)
      {
        InUseIs(page);
        if !InUse(page) {
          var nn: int, npage: nat := n, page + 1;
          ghost var start := page;
          while nn > 1 && npage < endPage
            invariant page == start && start < npage <= endPage && npage - start + nn == n + 1 && (n > 0 ==> nn >= 1)
            invariant forall p: nat :: start <= p < npage ==> p in free
          {
            InUseIs(npage);
            if !InUse(npage) {
              nn := nn - 1;
              npage := npage + 1;
            } else {
              page := npage;
              break;
            }
          }
          if nn == 1 {
            FoundRun(free, from, start, n, endPage);
            return page;
          }
          NoRunThrough(free, start, page, n, endPage);
        } else {
          NoRunThrough(free, page, page, n, endPage);
        }
        page := page + 1;
      }
      NoRun(free, from, page, n, endPage);
      return -1;
    }

    method Mark(page: nat, n: nat)
      requires WordOf(page + n) < bits.Length && Tracks(bits[..], free)
      modifies this`free, bits
      ensures Tracks(bits[..], free) && free == old(free) - Range(page, n)
    {
      hide Allocated, Range, Tracks, MapAfter;
      ghost var was := bits[..];
      MapAlloc(bits, page, n);
      TracksAlloc(was, bits[..], free, page, n);
      free := free - Range(page, n);
    }

    method Unmark(page: nat, n: nat)
      requires WordOf(page + n) < bits.Length && Tracks(bits[..], free)
      modifies this`free, bits
      ensures Tracks(bits[..], free) && free == old(free) + Range(page, n)
    {
      hide Allocated, Range, Tracks, MapAfter;
      ghost var was := bits[..];
      MapFree(bits, page, n);
      TracksFree(was, bits[..], free, page, n);
      free := free + Range(page, n);
    }

    /** Mark a free run as allocated and move the hint of its region past it if it started there. */
    method TakeRun(page: nat, n: nat, isBulk: bool)
      requires Valid() && n > 0 && Range(page, n) <= free && page + n <= end && (n >= BULK ==> page >= bulk)
      modifies this, bits
      ensures Valid() && V() == Take(old(V()), page, n) && page !in old(runs) && numFree == old(numFree) - n
      ensures old(firstFreeBulk) <= firstFreeBulk && PassesNoFree(free, old(firstFreeBulk), firstFreeBulk)
      ensures inIncrease == old(inIncrease)
    {
      hide ViewOk, Tracks, Range, HintsOk;
      Bounds();
      TakeKeeps(V(), page, n);
      TakeCounts(free, page, n);
      InMap(page + n, max, bits.Length);
      var next := NextFree(page + n);
      HintsAfterTake(free, bulk, firstFree, firstFreeBulk, page, n, next);
      if isBulk {
        if page == firstFreeBulk {
          firstFreeBulk := next;
          BulkHintMoves(free - Range(page, n), bulk, firstFree, page, next);
          NothingPassed(free, page, n, next);
        }
      } else if page == firstFree {
        firstFree := next;
      }
      numFree := numFree - n;
      Mark(page, n);
      runs := runs[page := n];
    }

    /** One pass of _allocate_pages over a region. */
    method TryRegion(n: nat, isBulk: bool) returns (page: int)
      requires Valid() && (!isBulk ==> n < BULK)
      modifies this, bits
      ensures Valid() && page == FirstRun(old(free), old(if isBulk then firstFreeBulk else firstFree), n, old(if isBulk then end else bulk))
      ensures page == -1 ==> V() == old(V()) && firstFree == old(firstFree) && firstFreeBulk == old(firstFreeBulk)
      ensures numFree == if page == -1 then old(numFree) else old(numFree) - n
      ensures old(firstFreeBulk) <= firstFreeBulk && PassesNoFree(free, old(firstFreeBulk), firstFreeBulk)
      ensures page != -1 ==> page >= 0 && V() == Take(old(V()), page, n) && page !in old(runs) && n > 0
      ensures inIncrease == old(inIncrease)
    {
      hide ViewOk, Tracks, FirstRun, Range, HintsOk;
      Bounds();
      page := Search(n, if isBulk then firstFreeBulk else firstFree, if isBulk then end else bulk);
      if page != -1 {
        TakeRun(page, n, isBulk);
      }
    }

    /** guk_deallocate_pages of a run with the size it was allocated with. */
    method DeallocatePages(page: nat, n: nat)
      requires Valid() && page in runs && runs[page] == n
      modifies this, bits
      ensures Valid() && V() == Give(old(V()), page) && numFree == old(numFree) + n
      ensures firstFree == (if n < BULK && page < old(firstFree) then page else old(firstFree))
      ensures firstFreeBulk == (if n >= BULK && page < old(firstFreeBulk) then page else old(firstFreeBulk))
      ensures inIncrease == old(inIncrease)
    {
      hide ViewOk, Tracks, Range, HintsOk;
      Bounds();
      GiveKeeps(V(), page);
      RunLies(V(), page);
      Added(free, Range(page, n));
      InMap(page + n, max, bits.Length);
      if n >= BULK {
        if page < firstFreeBulk {
          firstFreeBulk := page;
        }
      } else if page < firstFree {
        firstFree := page;
      }
      HintsAfterGive(old(free), bulk, old(firstFree), old(firstFreeBulk), page, n, firstFree, firstFreeBulk);
      Unmark(page, n);
      runs := runs - {page};
      numFree := numFree + n;
    }

    /** can_increase: nonzero exactly when the holes hold the n > 0 pages asked for. */
    method CanIncrease(n: nat) returns (r: nat)
      ensures r != 0 <==> n > 0 && HoleTotal(holes) >= n
    {
      hide HoleTotal;
      var left: nat, i := n, 0;
      assert holes[0..] == holes;
      while i < |holes|
        invariant 0 <= i <= |holes| && (n > 0 ==> left > 0) && left <= n
        invariant HoleTotal(holes) - n == HoleTotal(holes[i..]) - left
      {
        TotalStep(holes, i);
        var hole := HolePages(holes[i]);
        if hole >= left {
          return left;
        }
        left := left - hole;
        i := i + 1;
      }
      TotalOfNone(holes);
      return 0;
    }

    /** guk_current_reservation: the pages the domain holds, those below the pool included. */
    method CurrentReservation() returns (r: int)
      requires Valid()
      ensures r == lo + |free| + |RunPages(V())|
    {
      hide HoleTotal, ViewOk, Tracks, HintsOk;
      var sum: nat, i := 0, 0;
      assert holes[0..] == holes;
      while i < |holes|
        invariant 0 <= i <= |holes| && sum + HoleTotal(holes[i..]) == HoleTotal(holes)
      {
        TotalStep(holes, i);
        sum := sum + HolePages(holes[i]);
        i := i + 1;
      }
      TotalOfNone(holes);
      Conservation(V());
      return max - sum;
    }

    /** Page-table frames taken while the lock is dropped; a recursive entry to the increase fails. */
    method PageFrames(k: nat) returns (ok: bool, ghost took: nat)
      requires Valid()
      modifies this, bits
      ensures Valid() && holes == old(holes) && end == old(end) && RunsKept(old(runs), runs)
      ensures numFree + took == old(numFree) && took <= k && (ok ==> took == k) && (ok ==> inIncrease == old(inIncrease))
      ensures free <= old(free) && old(firstFreeBulk) <= firstFreeBulk
      ensures k == 0 ==> ok && free == old(free) && runs == old(runs)
      ensures !ok ==> OutOfPages(free, firstFree, bulk, firstFreeBulk, end)
    {
      hide ViewOk, Tracks, HintsOk, FirstRun, Range;
      took := 0;
      var i := 0;
      while i < k
        invariant 0 <= i <= k && took == i
        invariant Valid() && holes == old(holes) && end == old(end) && RunsKept(old(runs), runs)
        invariant numFree + took == old(numFree) && inIncrease == old(inIncrease)
        invariant free <= old(free) && old(firstFreeBulk) <= firstFreeBulk
        invariant k == 0 ==> free == old(free) && runs == old(runs)
      {
        var page := TryRegion(1, false);
        if page == -1 {
          page := TryRegion(1, true);
          if page == -1 {
            inIncrease := false;
            return false, took;
          }
        }
        took := took + 1;
        i := i + 1;
      }
      return true, took;
    }

    /** Put rc pages that Xen gave for the first hole, which had `size` pages when it was chosen, into the pool. */
    method FillHole(size: nat, rc: nat)
      requires Valid() && holes != [] && rc <= size == HolePages(holes[0])
      modifies this, bits
      ensures Valid() && V() == Fill(old(V()), rc) && HoleTotal(holes) == HoleTotal(old(holes)) - rc
      ensures numFree == old(numFree) + rc && inIncrease == old(inIncrease)
    {
      hide ViewOk, Tracks, HintsOk, Range, HoleTotal;
      var hole := holes[0];
      FillKeeps(V(), rc);
      Added(free, Range(hole.start, rc));
      InMap(hole.start + rc, max, bits.Length);
      HintsAfterFill(free, bulk, firstFree, firstFreeBulk, hole.start, rc);
      Unmark(hole.start, rc);
      if hole.start + rc > end {
        end := hole.start + rc;
      }
      numFree := numFree + rc;
      if size == rc {
        holes := holes[1..];
      } else {
        holes := [Hole(hole.start + rc, hole.end)] + holes[1..];
      }
    }

    /** increase_reservation of at most nn pages: Xen grants up to nn, mapping them takes frames, and others use the pool meanwhile. */
    method IncreaseReservation(nn: nat, grants: seq<Grant>) returns (rc: nat, rest: seq<Grant>, ghost took: nat, ghost mapped: bool)
      requires Valid()
      modifies this, bits
      ensures Valid() && holes == old(holes) && end == old(end)
      ensures rc == (if grants == [] || !mapped then 0 else Min(grants[0].pages, nn)) && rest == (if grants == [] then [] else grants[1..])
      ensures (Quiet(grants) || grants == [] ==> mapped) && (!mapped ==> OutOfPages(free, firstFree, bulk, firstFreeBulk, end))
      ensures RunsKeptBut(old(runs), runs, GivenDuring(grants)) && GivenDuring(rest) <= GivenDuring(grants)
      ensures NoOthers(grants) ==> NoOthers(rest) && numFree + took == old(numFree) && free <= old(free) && old(firstFreeBulk) <= firstFreeBulk
      ensures Quiet(grants) ==> Quiet(rest) && took == 0 && free == old(free) && runs == old(runs)
    {
      hide ViewOk, Tracks, HintsOk, Range, RunsKeptBut, RunsKept, GivenBy, OutOfPages;
      rc, rest, took, mapped := 0, grants, 0, true;
      KeptAtFirst(runs, GivenDuring(grants));
      if grants != [] {
        rc := Min(grants[0].pages, nn);
        rest := grants[1..];
        GivenFirst(grants);
        NoneToProtect(free);
        RunOps(grants[0].others, 0, 0);
        KeptThrough(old(runs), old(runs), runs, GivenBy(grants[0].others), GivenDuring(grants));
        if rc > 0 {
          ghost var runs1 := runs;
          var ok;
          ok, took := PageFrames(grants[0].frames);
          mapped := ok;
          KeptAfter(old(runs), runs1, runs, GivenDuring(grants));
          if !ok {
            rc := 0;
          }
        }
      }
    }

    /** One round of the increase: as much of the first hole as is needed and granted. */
    method IncreaseOnce(left: nat, grants: seq<Grant>) returns (rc: nat, rest: seq<Grant>, ghost took: nat, ghost mapped: bool)
      requires Valid() && 0 < left <= HoleTotal(holes)
      modifies this, bits
      ensures Valid() && old(end) <= end && HoleTotal(holes) == HoleTotal(old(holes)) - rc && rest == (if grants == [] then [] else grants[1..])
      ensures old(holes) != [] && HolePages(old(holes)[0]) > 0
      ensures rc == if grants == [] || !mapped then 0 else Min(grants[0].pages, Min(left, HolePages(old(holes)[0])))
      ensures rc > 0 ==> holes == Filled(old(holes), rc)
      ensures (Quiet(grants) || grants == [] ==> mapped) && (!mapped ==> OutOfPages(free, firstFree, bulk, firstFreeBulk, end))
      ensures RunsKeptBut(old(runs), runs, GivenDuring(grants)) && GivenDuring(rest) <= GivenDuring(grants)
      ensures NoOthers(grants) ==> NoOthers(rest) && numFree == old(numFree) + rc - took
      ensures Quiet(grants) ==> Quiet(rest) && took == 0 && old(free) <= free && runs == old(runs)
      ensures rc == 0 ==> end == old(end) && holes == old(holes)
      ensures rc == 0 && NoOthers(grants) ==> free <= old(free) && old(firstFreeBulk) <= firstFreeBulk
    {
      hide ViewOk, Tracks, HintsOk, HoleTotal, HolePages, Quiet, NoOthers, Range, Filled, RunsKeptBut, GivenDuring, OutOfPages;
      HeadHasPages(V());
      var size := HolePages(holes[0]);
      rc, rest, took, mapped := IncreaseReservation(Min(left, size), grants);
      if rc > 0 {
        FillHole(size, rc);
      }
    }

    /**
     * increase_memory_holding_lock: what was granted leaves the holes and becomes free, whatever others
     * do meanwhile. All that the answers bring is taken, unless a page-table frame was missing, and
     * less than n only if Xen refused or gave no further answer.
     */
    method Increase(n: nat, grants: seq<Grant>) returns (result: nat, rest: seq<Grant>, ghost took: nat, ghost mapped: bool)
      requires Valid()
      modifies this, bits
      ensures Valid() && !inIncrease && old(end) <= end
      ensures RunsKeptBut(old(runs), runs, GivenDuring(grants)) && GivenDuring(rest) <= GivenDuring(grants)
      ensures old(inIncrease) || n == 0 || HoleTotal(old(holes)) < n ==> V() == old(V()) && result == 0 && rest == grants
      ensures HoleTotal(holes) == HoleTotal(old(holes)) - result && result <= n
      ensures !old(inIncrease) && 0 < n <= HoleTotal(old(holes)) ==>
                result <= Obtained(old(holes), n, Pages(grants)) && (mapped ==> result == Obtained(old(holes), n, Pages(grants)))
      ensures !old(inIncrease) && 0 < n <= HoleTotal(old(holes)) && result < n ==> !mapped || Refused(grants, rest)
      ensures Suffix(grants, rest) && (Quiet(grants) ==> mapped) && (!mapped ==> OutOfPages(free, firstFree, bulk, firstFreeBulk, end))
      ensures NoOthers(grants) ==> NoOthers(rest) && numFree == old(numFree) + result - took
      ensures Quiet(grants) ==> took == 0 && old(free) <= free && runs == old(runs)
      ensures result == 0 ==> end == old(end) && holes == old(holes)
      ensures result == 0 && NoOthers(grants) ==> free <= old(free) && old(firstFreeBulk) <= firstFreeBulk
    {
      hide ViewOk, Tracks, HintsOk, HoleTotal, HolePages, Quiet, NoOthers, RunsKeptBut, GivenDuring, OutOfPages, Obtained, Filled;
      result, rest, took, mapped := 0, grants, 0, true;
      KeptAtFirst(runs, GivenDuring(grants));
      if inIncrease {
        inIncrease := false;
        return;
      }
      inIncrease := true;
      var can := CanIncrease(n);
      if can != 0 {
        var left: nat := n;
        while left > 0
          invariant Valid() && left + result == n && old(end) <= end
          invariant RunsKeptBut(old(runs), runs, GivenDuring(grants)) && GivenDuring(rest) <= GivenDuring(grants)
          invariant HoleTotal(holes) == HoleTotal(old(holes)) - result && HoleTotal(holes) >= left
          invariant mapped && Suffix(grants, rest) && result + Obtained(holes, left, Pages(rest)) == Obtained(old(holes), n, Pages(grants))
          invariant NoOthers(grants) ==> NoOthers(rest) && numFree == old(numFree) + result - took
          invariant Quiet(grants) ==> Quiet(rest) && took == 0 && old(free) <= free && runs == old(runs)
          invariant result == 0 ==> end == old(end) && holes == old(holes)
          invariant result == 0 && NoOthers(grants) ==> free <= old(free) && old(firstFreeBulk) <= firstFreeBulk
        {
          var rc; ghost var frames, runs1, given, holes1, rest1 := 0, runs, GivenDuring(rest), holes, rest;
          rc, rest, frames, mapped := IncreaseOnce(left, rest);
          ObtainedStep(holes1, left, rest1);
          KeptThrough(old(runs), runs1, runs, given, GivenDuring(grants));
          took := took + frames;
          if rc == 0 {
            break;
          }
          left := left - rc;
          result := result + rc;
        }
        NothingMore(holes);
      }
      inIncrease := false;
    }

    /**
     * _allocate_pages: a small request is served from the small region if that has a run, else from
     * the bulk region, whose search is repeated as long as the pool can be increased. `at` and `hint`
     * are the pool and the hint that the last search started from.
     */
    method AllocatePages(n: nat, grants: seq<Grant>) returns (page: int, rest: seq<Grant>, ghost at: View, ghost hint: nat, ghost mapped: bool)
      requires Valid()
      modifies this, bits
      ensures Valid() && RunsKeptBut(old(runs), runs, GivenDuring(grants)) && RunsKeptBut(old(runs), at.runs, GivenDuring(grants))
      ensures page != -1 ==> page >= 0 && page in runs && runs[page] == n && page !in at.runs && V() == Take(at, page, n)
      ensures n < BULK && FirstRun(old(free), lo, n, bulk) != -1 ==>
                page == FirstRun(old(free), lo, n, bulk) && at == old(V()) && PassesNoFree(free, old(firstFreeBulk), firstFreeBulk)
      ensures n >= BULK || FirstRun(old(free), lo, n, bulk) == -1 ==> bulk <= hint && page == FirstRun(at.free, hint, n, at.end)
      ensures (n >= BULK || FirstRun(old(free), lo, n, bulk) == -1) && (page != -1 || NoOthers(grants)) ==> PassesNoFree(free, hint, firstFreeBulk)
      ensures (n >= BULK || FirstRun(old(free), lo, n, bulk) == -1) && FirstRun(old(free), old(firstFreeBulk), n, old(end)) != -1 ==>
                at == old(V()) && hint == old(firstFreeBulk)
      ensures page == -1 && NoOthers(grants) ==> at == V() && hint == firstFreeBulk
      ensures page == -1 ==> n == 0 || old(inIncrease) || HoleTotal(holes) < n || !mapped || Refused(grants, rest)
      ensures Quiet(grants) ==> mapped
    {
      hide Refused, Quiet, OutOfPages, Obtained, ViewOk, Tracks, HintsOk, HoleTotal, FirstRun, Range, PassesNoFree, RunsKeptBut, GivenDuring, NoOthers;
      HintLosesNothing(free, lo, bulk, firstFree, firstFreeBulk, n);
      page, rest, at, hint, mapped := -1, grants, V(), firstFreeBulk, true;
      KeptAtFirst(runs, GivenDuring(grants));
      var isBulk := n >= BULK;
      ghost var same := true;    // no increase so far
      while page == -1
        invariant Valid() && page == -1
        invariant RunsKeptBut(old(runs), runs, GivenDuring(grants)) && GivenDuring(rest) <= GivenDuring(grants)
        invariant (NoOthers(grants) ==> NoOthers(rest)) && Suffix(grants, rest) && (Quiet(grants) ==> mapped)
        invariant same ==> inIncrease == old(inIncrease)
        invariant !same ==> !inIncrease
        invariant same ==> V() == old(V()) && firstFree == old(firstFree) && firstFreeBulk == old(firstFreeBulk)
        invariant isBulk ==> n >= BULK || FirstRun(old(free), lo, n, bulk) == -1
        invariant !isBulk ==> n < BULK && same
        invariant !same ==> isBulk && FirstRun(old(free), old(firstFreeBulk), n, old(end)) == -1
        decreases HoleTotal(holes), if isBulk then 0 else 1
      {
        Bounds();
        at, hint := V(), firstFreeBulk;
        page := TryRegion(n, isBulk);
        if page != -1 {
          KeptWithNew(old(runs), at.runs, page, n, GivenDuring(grants));
          break;
        }
        if !isBulk {
          isBulk := true;
        } else {
          var got; ghost var took, given := 0, GivenDuring(rest);
          ghost var rest1 := rest;
          QuietSuffix(grants, rest1);
          got, rest, took, mapped := Increase(n, rest);
          SuffixThrough(grants, rest1, rest);
          KeptThrough(old(runs), at.runs, runs, given, GivenDuring(grants));
          same := false;
          if got == 0 {
            if NoOthers(grants) {
              FewerRunsFree(at.free, free, hint, firstFreeBulk, n, end);
              Bounds();
              at, hint := V(), firstFreeBulk;
              NothingPassedYet(free, hint);
            }
            break;
          }
        }
      }
    }

    /** memory_hole_add */
    method HoleAdd(h: Hole)
      modifies this`holes
      ensures holes == Insert(old(holes), h)
    {
      hide Insert;
      var k := 0;
      assert holes[0..] == holes && holes[..0] + Insert(holes[0..], h) == Insert(holes, h);
      while k < |holes| && !(holes[k].start > h.start)
        invariant holes == old(holes) && 0 <= k <= |holes| && holes[..k] + Insert(holes[k..], h) == Insert(holes, h)
      {
        InsertLater(holes, k, h);
        k := k + 1;
      }
      InsertHere(holes, k, h);
      holes := holes[..k] + [h] + holes[k..];
    }

    /** Release the free run [start, start + n) to Xen: it becomes a hole. */
    method DigHole(start: nat, n: nat) returns (coalesced: bool)
      requires Valid() && n > 0 && start >= bulk && Range(start, n) <= free
      modifies this, bits
      ensures Valid() && V() == Dig(old(V()), start, n) && HoleTotal(holes) == HoleTotal(old(holes)) + n
      ensures numFree == old(numFree) - n && (coalesced <==> old(holes) != [] && start + n == old(holes)[0].start)
    {
      hide ViewOk, Tracks, HintsOk, Range, HoleTotal, Insert;
      DigKeeps(V(), start, n);
      TakeCounts(free, start, n);
      FreeIsApart(V(), start, n);
      Bounds();
      InMap(start + n, max, bits.Length);
      HintsAfterTake(free, bulk, firstFree, firstFreeBulk, start, n, start + n);
      numFree := numFree - n;
      if end == start + n {
        end := end - n;
      }
      Mark(start, n);
      coalesced := !(holes == [] || start + n != holes[0].start);
      if !coalesced {
        HoleAdd(Hole(start, start + n));
      } else {
        holes := [Hole(start, holes[0].end)] + holes[1..];
      }
    }

    /** Whether the n pages from `page` on are free. */
    method AllFree(page: nat, n: nat) returns (b: bool)
      requires Valid() && page + n <= max
      ensures b <==> Range(page, n) <= free
    {
      hide Allocated, ViewOk, Tracks, HintsOk, Range;
      var i := 0;
      while i < n
        invariant 0 <= i <= n && forall p: nat :: page <= p < page + i ==> p in free
      {
        InUseIs(page + i);
        if InUse(page + i) {
          assert page + i in Range(page, n);
          return false;
        }
        i := i + 1;
      }
      return true;
    }

    /** One such step while the run of `len` pages from `start` on is being released: it does not take a page of that run. */
    method RunOp(op: PageOp, start: nat, len: nat)
      requires Valid() && Range(start, len) <= free
      modifies this, bits
      ensures Valid() && Range(start, len) <= free && holes == old(holes) && end == old(end) && inIncrease == old(inIncrease)
      ensures RunsKeptBut(old(runs), runs, GivenBy([op]))
      ensures op.page + op.n <= bulk ==> BulkPages(free, bulk) == BulkPages(old(free), bulk)
    {
      hide ViewOk, Tracks, HintsOk, Range;
      Bounds();
      match op {
        case TakePages(page, n) =>
          if n > 0 && page + n <= end && (page + n <= start || start + len <= page) && (page >= bulk || (page + n <= bulk && n < BULK)) {
            var ok := AllFree(page, n);
            if ok {
              TakeRun(page, n, page >= bulk);
            }
          }
        case GivePages(page, n) =>
          if page in runs && runs[page] == n {
            assert op in [op];
            DeallocatePages(page, n);
          }
      }
    }

    /** All that others do in one gap of the increase. */
    method RunOps(ops: seq<PageOp>, start: nat, len: nat)
      requires Valid() && Range(start, len) <= free
      modifies this, bits
      ensures Valid() && Range(start, len) <= free && holes == old(holes) && end == old(end) && inIncrease == old(inIncrease)
      ensures RunsKeptBut(old(runs), runs, GivenBy(ops))
      ensures ops == [] ==> V() == old(V()) && numFree == old(numFree) && firstFreeBulk == old(firstFreeBulk)
    {
      hide ViewOk, Tracks, HintsOk, Range, GivenBy, RunsKeptBut;
      var i := 0;
      KeptAtFirst(runs, GivenBy(ops));
      while i < |ops|
        invariant 0 <= i <= |ops| && Valid() && Range(start, len) <= free
        invariant holes == old(holes) && end == old(end) && inIncrease == old(inIncrease)
        invariant RunsKeptBut(old(runs), runs, GivenBy(ops))
        invariant ops == [] ==> V() == old(V()) && numFree == old(numFree) && firstFreeBulk == old(firstFreeBulk)
      {
        ghost var was := runs;
        RunOp(ops[i], start, len);
        GivenByOne(ops, ops[i]);
        KeptThrough(old(runs), was, runs, GivenBy([ops[i]]), GivenBy(ops));
        i := i + 1;
      }
    }

    /** One callback in a gap of the decrease. */
    method RunCallback(op: Callback, start: nat, len: nat) returns (ghost granted: nat)
      requires Valid() && Range(start, len) <= free
      modifies this, bits
      ensures Valid() && Range(start, len) <= free && old(end) <= end
      ensures HoleTotal(holes) + granted == HoleTotal(old(holes))
      ensures RunsKeptBut(old(runs), runs, GivenBack([op]))
      ensures Small(op, bulk) ==> granted == 0 && BulkPages(free, bulk) == BulkPages(old(free), bulk)
    {
      hide ViewOk, Tracks, HintsOk, Range, HoleTotal, BulkPages;
      granted := 0;
      match op {
        case OnPages(o) =>
          RunOp(o, start, len);
          assert op in [op] && o in [o];
        case Grow(n, grants) =>
          var rest; ghost var took;
          ghost var mapped;
          granted, rest, took, mapped := Increase(n, Quieted(grants));
      }
    }

    /** All that happens in one gap. */
    method RunCallbacks(ops: seq<Callback>, start: nat, len: nat) returns (ghost granted: nat)
      requires Valid() && Range(start, len) <= free
      modifies this, bits
      ensures Valid() && Range(start, len) <= free && old(end) <= end
      ensures HoleTotal(holes) + granted == HoleTotal(old(holes))
      ensures RunsKeptBut(old(runs), runs, GivenBack(ops))
      ensures SmallOnly(ops, bulk) ==> granted == 0 && BulkPages(free, bulk) == BulkPages(old(free), bulk)
    {
      hide ViewOk, Tracks, HintsOk, Range, HoleTotal, BulkPages, Small, GivenBack;
      granted := 0;
      var i := 0;
      KeptAtFirst(runs, GivenBack(ops));
      while i < |ops|
        invariant 0 <= i <= |ops| && Valid() && Range(start, len) <= free && old(end) <= end
        invariant HoleTotal(holes) + granted == HoleTotal(old(holes))
        invariant RunsKeptBut(old(runs), runs, GivenBack(ops))
        invariant SmallOnly(ops, bulk) ==> granted == 0 && BulkPages(free, bulk) == BulkPages(old(free), bulk)
      {
        ghost var was := runs;
        ghost var more;
        more := RunCallback(ops[i], start, len);
        granted := granted + more;
        GivenIn(ops, ops[i]);
        KeptThrough(old(runs), was, runs, GivenBack([ops[i]]), GivenBack(ops));
        assert ops[i] in ops;
        i := i + 1;
      }
    }

    /** The run that the inner loop of the decrease collects: free pages from `page` down. */
    method FreeRunDown(from: nat, n: nat) returns (page: int)
      requires Valid() && bulk <= from < end && n > 0 && from in free
      ensures bulk - 1 <= page < from && from - page <= n
      ensures forall p: nat :: page < p <= from ==> p in free
      ensures page >= bulk && from - page < n ==> page !in free
    {
      hide Allocated, ViewOk, Tracks, HintsOk;
      Bounds();
      page := from;
      var nn := 0;
      while true
        invariant bulk - 1 <= page <= from && nn == from - page && nn <= n
        invariant forall p: nat :: page < p <= from ==> p in free
        decreases page
      {
        InUseIs(page);
        if !(!InUse(page) && page >= bulk && nn < n) {
          break;
        }
        page := page - 1;
        nn := nn + 1;
      }
    }

    /** Release a free run, with what others do in the gap before it and, if its hole was coalesced, in the gap after. */
    method ReleaseRun(start: nat, n: nat, gaps: seq<seq<Callback>>, i: nat) returns (i': nat, ghost granted: nat)
      requires Valid() && n > 0 && start >= bulk && Range(start, n) <= free
      modifies this, bits
      ensures Valid() && RunsKeptBut(old(runs), runs, AllGiven(gaps)) && start <= end
      ensures HoleTotal(holes) + granted == HoleTotal(old(holes)) + n
      ensures AllSmall(gaps, bulk) ==> granted == 0 && BulkPages(free, bulk) == BulkPages(old(free), bulk) - Range(start, n)
    {
      hide ViewOk, Tracks, HintsOk, Range, HoleTotal, BulkPages, AllGiven, GivenBack, RunsKeptBut, AllSmall, SmallOnly, Dug;
      GapFacts(gaps, i, bulk);
      KeptAtFirst(runs, AllGiven(gaps));
      granted := RunCallbacks(Gap(gaps, i), start, n);
      KeptThrough(old(runs), old(runs), runs, GivenBack(Gap(gaps, i)), AllGiven(gaps));
      FreeIsApart(V(), start, n);
      DigsSame(free, bulk, start, n);
      var coalesced := DigHole(start, n);
      i' := i + 1;
      if coalesced {
        ghost var runs1, more := runs, 0;
        NoneToProtect(free);
        GapFacts(gaps, i', bulk);
        more := RunCallbacks(Gap(gaps, i'), 0, 0);
        KeptThrough(old(runs), runs1, runs, GivenBack(Gap(gaps, i')), AllGiven(gaps));
        granted := granted + more;
        i' := i' + 1;
      }
    }

    /**
     * guk_decrease_page_pool: at most n free pages of the bulk region become holes. gaps[i] is what
     * others do in the i-th gap in which the lock is dropped, which is before a run is released and,
     * if its hole was coalesced, after. If that stays in the small region, the pages are the n highest
     * free ones of the bulk region, or all of them if there are fewer.
     */
    method Decrease(n: nat, gaps: seq<seq<Callback>>) returns (ghost released: nat, ghost granted: nat)
      requires Valid()
      modifies this, bits
      ensures Valid() && RunsKeptBut(old(runs), runs, AllGiven(gaps)) && released <= n
      ensures HoleTotal(holes) + granted == HoleTotal(old(holes)) + released
      ensures AllSmall(gaps, bulk) ==>
        var was, now := BulkPages(old(free), bulk), BulkPages(free, bulk);
        && granted == 0 && now <= was && |was - now| == released == (if n <= |was| then n else |was|)
        && forall p: nat, q: nat :: p in was - now && q in now ==> q < p
    {
      hide ViewOk, Tracks, HintsOk, Range, HoleTotal, BulkPages, DecreaseState, AllGiven, RunsKeptBut, AllSmall;
      Bounds();
      ghost var was, gone: set<nat> := BulkPages(free, bulk), {};
      released, granted := 0, 0;
      var page: int, left: nat, i: nat := end - 1, n, 0;
      DecreaseStarts(V(), was, page, n);
      KeptAtFirst(runs, AllGiven(gaps));
      while page >= bulk && left > 0
        invariant Valid() && RunsKeptBut(old(runs), runs, AllGiven(gaps)) && bulk - 2 <= page < end && released + left == n
        invariant HoleTotal(holes) + granted == HoleTotal(old(holes)) + released
        invariant AllSmall(gaps, bulk) ==>
          granted == 0 && |gone| == released && DecreaseState(was, gone, BulkPages(free, bulk), page, n, left)
        decreases page
      {
        InUseIs(page);
        if !InUse(page) {
          var npage := page + 1;
          page := FreeRunDown(page, left);
          var size := npage - page - 1;
          RunDownIsFree(free, page, npage);
          if AllSmall(gaps, bulk) {
            DecreaseNext(was, gone, free, bulk, page, npage, n, left);
          }
          ghost var more, runs1 := 0, runs;
          i, more := ReleaseRun(page + 1, size, gaps, i);
          KeptThrough(old(runs), runs1, runs, AllGiven(gaps), AllGiven(gaps));
          granted := granted + more;
          released := released + size;
          gone := gone + Range(page + 1, size);
          left := left - size;
        } else if AllSmall(gaps, bulk) {
          DecreaseSkips(was, gone, free, bulk, page, n, left);
        }
        page := page - 1;
      }
      if AllSmall(gaps, bulk) {
        DecreaseEnds(was, gone, free, old(free), bulk, page, n, left);
      }
    }
  }

  // ---------- A third entry to the increase ----------

  /**
   * The end of a round of the increase in a pool that others increased since the round chose its hole
   * of `size` pages: the pages go to where that hole starts now, and it is dropped if all were granted.
   */
  function Resumed(v: View, size: nat, rc: nat): View
    requires v.holes != []
  {
    var h := v.holes[0];
    v.(free := v.free + Range(h.start, rc),
       holes := if size == rc then v.holes[1..] else [Hole(h.start + rc, h.end)] + v.holes[1..],
       end := Max(v.end, h.start + rc))
  }

  /**
   * A second entry to the increase is refused but clears the flag, so a third one is admitted while
   * the first still waits, and fills k pages of the same hole. Xen was then asked twice for pages from
   * the same start. The first ends soundly, with only granted pages free and all of them counted,
   * exactly if k is 0.
   */
  lemma ThirdEntry(v: View, k: nat, rc: nat)
    requires ViewOk(v) && v.holes != [] && k < HolePages(v.holes[0]) && 0 < rc <= HolePages(v.holes[0])
    ensures Fill(v, k).holes != []
    ensures var start, v' := v.holes[0].start, Resumed(Fill(v, k), HolePages(v.holes[0]), rc);
      v'.free <= v.free + Range(start, k) + Range(start, rc) && |v'.free| == |v.free| + k + rc <==> k == 0
  {
    hide ViewOk, Range;
    var start, more := v.holes[0].start, if k < rc then rc else k;
    var v' := Resumed(Fill(v, k), HolePages(v.holes[0]), rc);
    FillKeeps(v, rc);
    Added(v.free, Range(start, rc));
    if k == 0 {
      assert v'.free == v.free + Range(start, rc);
    } else if v'.free <= v.free + Range(start, k) + Range(start, rc) {
      assert v'.free <= v.free + Range(start, more);
      AtMost(v'.free, v.free, Range(start, more));
    }
  }

  lemma AtMost(s: set<nat>, a: set<nat>, b: set<nat>)
    requires s <= a + b
    ensures |s| <= |a| + |b|
  {
    Removed(a + b, s);
    assert a + b == a + (b - a);
    Added(a, b - a);
    Removed(b, b - a);
  }

  function Gap(gaps: seq<seq<Callback>>, i: nat): seq<Callback> { if i < |gaps| then gaps[i] else [] }

  lemma GapFacts(gaps: seq<seq<Callback>>, i: nat, bulk: nat)
    ensures GivenBack(Gap(gaps, i)) <= AllGiven(gaps)
    ensures AllSmall(gaps, bulk) ==> SmallOnly(Gap(gaps, i), bulk)
  {
    assert i < |gaps| ==> gaps[i] in gaps;
  }

  lemma KeptAtFirst(runs: map<nat, nat>, given: set<nat>)
    ensures RunsKeptBut(runs, runs, given)
  {
  }

  /** What is left of the answers after some of them. */
  ghost predicate Suffix(grants: seq<Grant>, rest: seq<Grant>) { |rest| <= |grants| && rest == grants[|grants| - |rest|..] }

  /** The hypervisor gave nothing: the last answer that was used is 0, or there was none left. */
  predicate Refused(grants: seq<Grant>, rest: seq<Grant>) {
    rest == [] || (|rest| < |grants| && grants[|grants| - |rest| - 1].pages == 0)
  }

  lemma SuffixThrough(grants: seq<Grant>, mid: seq<Grant>, rest: seq<Grant>)
    requires Suffix(grants, mid) && Suffix(mid, rest)
    ensures Suffix(grants, rest) && (Refused(mid, rest) ==> Refused(grants, rest))
  {
    if |rest| < |mid| {
      assert mid[|mid| - |rest| - 1] == grants[|grants| - |rest| - 1];
    }
  }

  lemma QuietSuffix(grants: seq<Grant>, rest: seq<Grant>)
    requires Suffix(grants, rest)
    ensures Quiet(grants) ==> Quiet(rest)
  {
  }

  lemma ObtainedStep(holes: seq<Hole>, left: nat, grants: seq<Grant>)
    requires left > 0 && holes != []
    ensures grants == [] ==> Obtained(holes, left, Pages(grants)) == 0
    ensures grants != [] ==>
      var rc := Min(grants[0].pages, Min(left, HolePages(holes[0])));
      Obtained(holes, left, Pages(grants)) == if rc == 0 then 0 else rc + Obtained(Filled(holes, rc), left - rc, Pages(grants[1..]))
  {
    if grants != [] {
      assert Pages(grants)[1..] == Pages(grants[1..]);
    }
  }

  lemma NothingMore(holes: seq<Hole>)
    ensures forall answers :: Obtained(holes, 0, answers) == 0
  {
  }

  lemma KeptAfter(a: map<nat, nat>, b: map<nat, nat>, c: map<nat, nat>, given: set<nat>)
    requires RunsKeptBut(a, b, given) && RunsKept(b, c)
    ensures RunsKeptBut(a, c, given)
  {
  }

  lemma KeptWithNew(a: map<nat, nat>, b: map<nat, nat>, page: nat, n: nat, given: set<nat>)
    requires RunsKeptBut(a, b, given) && page !in b
    ensures RunsKeptBut(a, b[page := n], given)
  {
  }

  lemma GivenFirst(grants: seq<Grant>)
    requires grants != []
    ensures GivenBy(grants[0].others) <= GivenDuring(grants) && GivenDuring(grants[1..]) <= GivenDuring(grants)
  {
    assert grants[0] in grants;
  }

  lemma GivenByOne(ops: seq<PageOp>, op: PageOp)
    requires op in ops
    ensures GivenBy([op]) <= GivenBy(ops)
  {
  }

  lemma GivenIn(ops: seq<Callback>, op: Callback)
    requires op in ops
    ensures GivenBack([op]) <= GivenBack(ops)
  {
  }

  lemma KeptThrough(a: map<nat, nat>, b: map<nat, nat>, c: map<nat, nat>, given: set<nat>, all: set<nat>)
    requires RunsKeptBut(a, b, all) && RunsKeptBut(b, c, given) && given <= all
    ensures RunsKeptBut(a, c, all)
  {
  }

  lemma RunDownIsFree(free: set<nat>, page: int, npage: int)
    requires -1 <= page < npage && forall p: nat :: page < p < npage ==> p in free
    ensures Range(page + 1, npage - page - 1) <= free
  {
    hide Range;
  }

  lemma NoneToProtect(free: set<nat>)
    ensures Range(0, 0) <= free
  {
  }

  lemma DigsSame(free: set<nat>, bulk: nat, start: nat, n: nat)
    ensures BulkPages(free - Range(start, n), bulk) == BulkPages(free, bulk) - Range(start, n)
  {
    hide Range;
  }

  /** The pages of `free` in the bulk region. */
  function BulkPages(free: set<nat>, bulk: nat): set<nat> { set p | p in free && p >= bulk }

  /** `gone` are the highest pages of `was`; all above `page` unless enough are gone. */
  ghost predicate DecreaseState(was: set<nat>, gone: set<nat>, now: set<nat>, page: int, n: nat, left: nat) {
    && gone <= was && now == was - gone && |gone| + left == n
    && (forall p: nat :: p in gone ==> p > page)
    && (forall p: nat, q: nat :: p in gone && q in now ==> q < p)
    && (left > 0 ==> forall p: nat :: p in was && p > page ==> p in gone)
  }

  lemma DecreaseStarts(v: View, was: set<nat>, page: int, n: nat)
    requires ViewOk(v) && was == BulkPages(v.free, v.bulk) && page == v.end - 1
    ensures DecreaseState(was, {}, was, page, n, n)
  {
    hide InRun, InHole, HolesOk, RunsOk;
    forall p: nat | p in was
      ensures p <= page
    {
      assert PageOk(v, p);
    }
  }

  lemma DecreaseEnds(was: set<nat>, gone: set<nat>, free: set<nat>, free0: set<nat>, bulk: nat, page: int, n: nat, left: nat)
    requires was == BulkPages(free0, bulk) && DecreaseState(was, gone, BulkPages(free, bulk), page, n, left)
    requires page < bulk || left == 0
    ensures BulkPages(free, bulk) <= was && was - BulkPages(free, bulk) == gone
    ensures |gone| == if n <= |was| then n else |was|
    ensures forall p: nat, q: nat :: p in gone && q in BulkPages(free, bulk) ==> q < p
  {
    Removed(was, gone);
    if left > 0 {
      assert gone == was;
    }
  }

  lemma DecreaseSkips(was: set<nat>, gone: set<nat>, free: set<nat>, bulk: nat, page: int, n: nat, left: nat)
    requires DecreaseState(was, gone, BulkPages(free, bulk), page, n, left) && 0 <= page && page !in free
    ensures DecreaseState(was, gone, BulkPages(free, bulk), page - 1, n, left)
  {
    assert page in was ==> page in gone || page in BulkPages(free, bulk);
  }

  lemma DecreaseNext(was: set<nat>, gone: set<nat>, free: set<nat>, bulk: nat, page: int, npage: int, n: nat, left: nat)
    requires DecreaseState(was, gone, BulkPages(free, bulk), npage - 1, n, left)
    requires 0 < bulk && bulk - 1 <= page < npage - 1 && npage - 1 - page <= left
    requires forall p: nat :: page < p < npage ==> p in free
    requires page >= bulk && npage - 1 - page < left ==> page !in free
    ensures Range(page + 1, npage - 1 - page) <= free
    ensures |gone + Range(page + 1, npage - 1 - page)| == |gone| + (npage - 1 - page)
    ensures DecreaseState(was, gone + Range(page + 1, npage - 1 - page), BulkPages(free, bulk) - Range(page + 1, npage - 1 - page),
                          page - 1, n, left - (npage - 1 - page))
  {
    hide Range;
    var run := Range(page + 1, npage - 1 - page);
    var now, now' := BulkPages(free, bulk), BulkPages(free, bulk) - run;
    assert run <= now;
    Added(gone, run);
    assert now' == was - (gone + run);
    assert page in was ==> page in gone || page in now;
    assert forall p: nat :: p in was && p > page ==> p in gone + run;
  }

  lemma InitialView(lo: nat, bulk: nat, end: nat, max: nat)
    requires 1 < lo <= bulk <= end <= max
    ensures ViewOk(View(Range(lo, end - lo), [Hole(end, max)], map[], lo, bulk, end, max))
    ensures HintsOk(Range(lo, end - lo), bulk, lo, bulk)
  {
    hide Range;
    var v := View(Range(lo, end - lo), [Hole(end, max)], map[], lo, bulk, end, max);
    assert [Hole(end, max)][0] in [Hole(end, max)];
    forall p: nat
      ensures PageOk(v, p)
    {
      assert InHole(v.holes, p) <==> end <= p < max;
    }
  }

  lemma InsertLater(holes: seq<Hole>, k: nat, h: Hole)
    requires k < |holes| && holes[k].start <= h.start
    ensures holes[..k + 1] + Insert(holes[k + 1..], h) == holes[..k] + Insert(holes[k..], h)
  {
    assert holes[k..][1..] == holes[k + 1..];
    assert Insert(holes[k..], h) == [holes[k]] + Insert(holes[k + 1..], h);
    assert holes[..k + 1] == holes[..k] + [holes[k]];
  }

  lemma InsertHere(holes: seq<Hole>, k: nat, h: Hole)
    requires k <= |holes| && (k < |holes| ==> holes[k].start > h.start)
    ensures holes[..k] + Insert(holes[k..], h) == holes[..k] + [h] + holes[k..]
  {
    assert Insert(holes[k..], h) == [h] + holes[k..];
  }

  lemma HintsAfterFill(free: set<nat>, bulk: nat, firstFree: nat, firstFreeBulk: nat, start: nat, n: nat)
    requires HintsOk(free, bulk, firstFree, firstFreeBulk) && bulk <= start
    ensures HintsOk(free + Range(start, n), bulk, firstFree, firstFreeBulk)
  {
    hide Range;
  }

  lemma {:induction false} EmptyHoles(holes: seq<Hole>, bulk: nat, max: nat)
    requires HolesOk(holes, bulk, max) && forall h :: h in holes ==> h.start == max
    ensures HoleTotal(holes) == 0
  {
    if holes != [] {
      assert holes[0] in holes;
      RestOk(holes, bulk, max);
      EmptyHoles(holes[1..], bulk, max);
    }
  }

  /** Only the last hole can be empty. */
  lemma EmptyHeadIsLast(v: View)
    requires ViewOk(v) && v.holes != [] && HolePages(v.holes[0]) == 0
    ensures HoleTotal(v.holes) == 0
  {
    hide InRun, InHole;
    RestOk(v.holes, v.bulk, v.max);
    forall h | h in v.holes
      ensures h.start == v.max
    {
      var j :| 0 <= j < |v.holes| && h == v.holes[j];
    }
    EmptyHoles(v.holes, v.bulk, v.max);
  }

  /** If any page is missing, the first hole has pages. */
  lemma HeadHasPages(v: View)
    requires ViewOk(v) && HoleTotal(v.holes) > 0
    ensures v.holes != [] && HolePages(v.holes[0]) > 0
  {
    hide ViewOk;
    if HolePages(v.holes[0]) == 0 {
      EmptyHeadIsLast(v);
    }
  }

  lemma {:induction false} FewerRunsFree(free: set<nat>, free': set<nat>, from: nat, from': nat, n: nat, end: nat)
    requires free' <= free && from <= from' && FirstRun(free, from, n, end) == -1
    ensures FirstRun(free', from', n, end) == -1
  {
    hide Range;
    var q := FirstRun(free', from', n, end);
    if q != -1 {
      FirstRunIsFirst(free, from, n, end, q);
    }
  }

  /** Live allocations stay where they are. */
  ghost predicate RunsKept(was: map<nat, nat>, now: map<nat, nat>) {
    forall a: nat :: a in was ==> a in now && now[a] == was[a]
  }

  lemma TotalStep(holes: seq<Hole>, i: nat)
    requires i < |holes|
    ensures HoleTotal(holes[i..]) == HolePages(holes[i]) + HoleTotal(holes[i + 1..])
  {
    assert holes[i..][1..] == holes[i + 1..];
  }

  lemma TotalOfNone(holes: seq<Hole>)
    ensures HoleTotal(holes[|holes|..]) == 0
  {
  }

  lemma TakeCounts(free: set<nat>, page: nat, n: nat)
    requires Range(page, n) <= free
    ensures |free - Range(page, n)| == |free| - n && |free| >= n
  {
    hide Range;
    Removed(free, Range(page, n));
  }

  /** A hint that moves from `from` up to `hint` passes no free page. */
  ghost predicate PassesNoFree(free: set<nat>, from: nat, hint: nat) {
    forall q: nat :: from <= q < hint ==> q !in free
  }

  lemma NothingPassedYet(free: set<nat>, hint: nat)
    ensures PassesNoFree(free, hint, hint)
  {
  }

  lemma NothingPassed(free: set<nat>, page: nat, n: nat, next: nat)
    requires forall q: nat :: page + n <= q < next ==> q !in free
    ensures PassesNoFree(free - Range(page, n), page, next)
  {
    hide Range;
  }

  lemma BulkHintMoves(free: set<nat>, bulk: nat, firstFree: nat, page: nat, next: nat)
    requires HintsOk(free, bulk, firstFree, page) && page <= next
    ensures HintsOk(free, bulk, firstFree, next)
  {
  }

  lemma RunLies(v: View, page: nat)
    requires ViewOk(v) && page in v.runs
    ensures v.lo <= page && page + v.runs[page] <= v.end <= v.max && (v.runs[page] >= BULK ==> v.bulk <= page)
  {
  }

  lemma HintsAfterGive(free: set<nat>, bulk: nat, firstFree: nat, firstFreeBulk: nat, page: nat, n: nat, firstFree': nat, firstFreeBulk': nat)
    requires HintsOk(free, bulk, firstFree, firstFreeBulk)
    requires n >= BULK ==> bulk <= page && firstFree' == firstFree && firstFreeBulk' == (if page < firstFreeBulk then page else firstFreeBulk)
    requires n < BULK ==> firstFreeBulk' == firstFreeBulk && firstFree' == (if page < firstFree then page else firstFree)
    ensures HintsOk(free + Range(page, n), bulk, firstFree', firstFreeBulk')
  {
    hide Range;
  }

  lemma FoundRun(free: set<nat>, from: nat, page: nat, n: nat, end: nat)
    requires from <= page && page + n <= end && n > 0
    requires forall q: nat :: from <= q < page ==> !FreeRun(free, q, n, end)
    requires forall p: nat :: page <= p < page + n ==> p in free
    ensures FirstRun(free, from, n, end) == page
  {
    hide Range;
    assert FreeRun(free, page, n, end);
    FirstRunSkips(free, from, page, n, end);
  }

  lemma NoRun(free: set<nat>, from: nat, page: nat, n: nat, end: nat)
    requires page >= end
    requires forall q: nat :: from <= q < page ==> !FreeRun(free, q, n, end)
    ensures FirstRun(free, from, n, end) == -1
  {
    hide FreeRun;
    if from <= page {
      FirstRunSkips(free, from, page, n, end);
    }
  }

  /** A run that starts between `start` and `page` would need a page that is taken or past the end. */
  lemma NoRunThrough(free: set<nat>, start: nat, page: nat, n: nat, end: nat)
    requires start <= page && (n == 0 || (page < start + n && page !in free) || (page == start && start + n > end))
    ensures forall q: nat :: start <= q <= page ==> !FreeRun(free, q, n, end)
  {
    hide Range;
    forall q: nat | start <= q <= page
      ensures !FreeRun(free, q, n, end)
    {
      assert n > 0 && page < start + n ==> page in Range(q, n);
    }
  }
}
