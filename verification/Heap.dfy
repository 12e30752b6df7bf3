/**
  The kernel heap (lib/xmalloc.c): blocks with headers that tile whole pages, a free list searched
  first-fit, splitting, and coalescing within a page. The page allocator is an oracle that hands out
  fresh page runs.
  */
module Heap {
  import opened Common
  import opened Queues

  const PAGE := 4096
  const HDR := 24                    // sizeof(struct xmalloc_hdr): a size and a list link
  const ALIGN := 8                   // its alignment
  const WORD := 0x1_0000_0000_0000_0000 // size_t arithmetic is modulo this
  const INT := 0x1_0000_0000         // page counts are passed as a signed int of this range

  /** A block header: the size with the header included, and whether its list pointers are set. */
  datatype Header = Header(size: nat, linked: bool)

  type Headers = map<nat, Header>

  function PageOf(a: nat): nat { a / PAGE * PAGE }

  predicate Aligned(x: int) { x % ALIGN == 0 }

  lemma AlignedSum(x: int, y: int)
    requires Aligned(x) && Aligned(y)
    ensures Aligned(x + y) && Aligned(x - y)
  {
    var m, n := x / ALIGN, y / ALIGN;
    assert x == ALIGN * m && y == ALIGN * n;
    assert x + y == ALIGN * (m + n) && x - y == ALIGN * (m - n);
  }

  lemma PageBounds(a: nat)
    ensures PageOf(a) <= a < PageOf(a) + PAGE && PageOf(a) % PAGE == 0
  {
  }

  lemma SamePage(a: nat, b: nat)
    requires PageOf(a) <= b < PageOf(a) + PAGE
    ensures PageOf(b) == PageOf(a)
  {
  }

  lemma PageStart(p: nat)
    requires p % PAGE == 0
    ensures PageOf(p) == p
  {
  }

  // ---------- Sizes ----------

  /** align_up to ALIGN in size_t arithmetic. */
  function AlignUp(size: nat): nat { (size + ALIGN - 1) % WORD / ALIGN * ALIGN }

  /** The size of the block asked for by a request: room for a header, padded to align the next one. */
  function RequestSize(asize: nat): nat
    requires asize < WORD
  {
    AlignUp((asize + HDR) % WORD)
  }

  /** The block has room for the request exactly when the computation does not overflow. */
  lemma RequestFits(asize: nat)
    requires asize < WORD
    ensures RequestSize(asize) >= asize + HDR <==> asize + HDR + ALIGN - 1 < WORD
    ensures asize + HDR + ALIGN - 1 < WORD ==> RequestSize(asize) < asize + HDR + ALIGN
    ensures Aligned(RequestSize(asize))
  {
  }

  /** A request that overflows gets a block with no room for anything but a header, or not even that. */
  lemma RequestOverflows(asize: nat)
    requires asize < WORD && asize + HDR + ALIGN - 1 >= WORD
    ensures RequestSize(asize) <= HDR
    ensures RequestSize(asize) < HDR <==> asize < WORD - ALIGN + 1
  {
  }

  /** For instance a request for WORD - 24 bytes gets a block of size 0. */
  lemma OverflowExample()
    ensures RequestSize(WORD - HDR) == 0
  {
  }

  /** The size in the header of a whole-page run: rounded up to pages, in size_t arithmetic. */
  function RunSize(size: nat): nat { (size + PAGE - 1) % WORD / PAGE * PAGE }

  /** The pages that a run of this size is taken and given back with: the count passed as an int. */
  function PageCount(size: nat): int { AsSigned(INT, size / PAGE % INT) }

  /** The bytes that a run whose header has this size really holds. */
  function Held(size: nat): nat { if PageCount(size) > 0 then PageCount(size) * PAGE else 0 }

  /** The bytes that a request takes from the page allocator if the free list cannot serve it. */
  function RunBytes(size: nat): nat { if size < PAGE then PAGE else Held(RunSize(size)) }

  /** Neither the size nor the page count of this request is cut short. */
  predicate Fits(asize: nat)
    requires asize < WORD
  {
    asize + HDR + ALIGN - 1 < WORD && RunSize(RequestSize(asize)) / PAGE < INT / 2
  }

  /** The room that a request gets: what it asked for, unless something is cut short. */
  function Room(asize: nat): nat
    requires asize < WORD
  {
    if Fits(asize) then asize else 0
  }

  lemma HeldPages(size: nat)
    ensures Held(size) % PAGE == 0
    ensures PageCount(size) > 0 ==> Held(size) >= PAGE && PageCount(size) * PAGE == Held(size)
    ensures size / PAGE < INT / 2 && size % PAGE == 0 ==> Held(size) == size
  {
  }

  /** A page count that is not cut is itself; one that is cut loses at least the range of an int. */
  lemma CountCut(count: nat)
    requires AsSigned(INT, count % INT) > 0
    ensures count < INT / 2 ==> AsSigned(INT, count % INT) == count
    ensures count >= INT / 2 ==> AsSigned(INT, count % INT) <= count - INT
  {
  }

  /** A run that the page allocator does hand out has room for the request exactly when its page count is below 2^31. */
  lemma RunHasRoom(asize: nat)
    requires asize < WORD && RequestSize(asize) >= PAGE && PageCount(RunSize(RequestSize(asize))) > 0
    ensures Held(RunSize(RequestSize(asize))) >= HDR + asize <==> RunSize(RequestSize(asize)) / PAGE < INT / 2
    ensures Fits(asize) <==> RunSize(RequestSize(asize)) / PAGE < INT / 2
    ensures RunSize(RequestSize(asize)) >= PAGE && RunSize(RequestSize(asize)) % PAGE == 0
  {
    hide RequestSize, AsSigned;
    var size := RequestSize(asize);
    RequestFits(asize);
    if asize + HDR + ALIGN - 1 >= WORD {
      RequestOverflows(asize);
    }
    var run := RunSize(size);
    RunRounds(size);
    HeldPages(run);
    CountCut(run / PAGE);
  }

  lemma RunRounds(size: nat)
    requires size < WORD
    ensures RunSize(size) % PAGE == 0
    ensures size + PAGE - 1 < WORD ==> size <= RunSize(size) < size + PAGE
    ensures size + PAGE - 1 >= WORD ==> RunSize(size) == 0
  {
  }

  /** For instance a request for 2^44 + 4072 bytes gets one page, under a header that says 2^44 + 4096. */
  lemma CutCountExample()
    ensures var asize := 0x1000_0000_0000 + 4072;
      && RequestSize(asize) == asize + HDR && RunSize(RequestSize(asize)) == 0x1000_0000_0000 + PAGE
      && PageCount(RunSize(RequestSize(asize))) == 1 && RunBytes(RequestSize(asize)) == PAGE && !Fits(asize)
  {
  }

  // ---------- The blocks of the heap pages ----------

  /** h heads a block: a free one or a live one. */
  ghost predicate Block(free: set<nat>, live: set<nat>, h: nat) { h in free || h in live }

  ghost predicate BlockOk(hdrs: Headers, free: set<nat>, live: set<nat>, pages: set<nat>, h: nat) {
    && h in hdrs && HDR <= hdrs[h].size < PAGE && Aligned(h) && Aligned(hdrs[h].size)
    && PageOf(h) in pages
    && h + hdrs[h].size <= PageOf(h) + PAGE
    && (h + hdrs[h].size == PageOf(h) + PAGE ==> hdrs[h].size >= 2 * HDR)
    && (h + hdrs[h].size < PageOf(h) + PAGE ==> h + hdrs[h].size in free || h + hdrs[h].size in live)
  }

  /** Blocks start where a page starts or another block ends, end where a page ends or another block starts, and do not overlap. */
  ghost predicate Tiled(hdrs: Headers, free: set<nat>, live: set<nat>, pages: set<nat>) {
    && free !! live
    && (forall h: nat :: Block(free, live, h) ==> BlockOk(hdrs, free, live, pages, h))
    && (forall p: nat :: p in pages ==> p > 0 && p % PAGE == 0 && (p in free || p in live))
    && (forall h: nat, k: nat :: Block(free, live, h) && Block(free, live, k) && h < k ==> h + hdrs[h].size <= k)
  }

  /** Block k starts where block h ends. */
  ghost predicate Adjacent(hdrs: Headers, h: nat, k: nat) { h in hdrs && h + hdrs[h].size == k }

  /** No two adjacent blocks of a page are both free. */
  ghost predicate Coalesced(hdrs: Headers, free: set<nat>) {
    forall h: nat, k: nat :: h in free && k in free && Adjacent(hdrs, h, k) ==> k == PageOf(h) + PAGE
  }

  /** No page is entirely free: it holds a live block. */
  ghost predicate PagesInUse(live: set<nat>, pages: set<nat>) {
    forall p :: p in pages ==> exists h :: h in live && PageOf(h) == p
  }

  // ---------- Tiling, seen as a chain ----------

  /** From address a the blocks follow each other without gap to the end of the page. */
  ghost predicate Chain(hdrs: Headers, free: set<nat>, live: set<nat>, a: nat, end: nat)
    decreases end - a
  {
    a == end || (a < end && Block(free, live, a) && a in hdrs && 0 < hdrs[a].size <= end - a
                 && Chain(hdrs, free, live, a + hdrs[a].size, end))
  }

  lemma {:induction false} BlocksChain(hdrs: Headers, free: set<nat>, live: set<nat>, pages: set<nat>, h: nat)
    requires Tiled(hdrs, free, live, pages) && Block(free, live, h)
    ensures Chain(hdrs, free, live, h, PageOf(h) + PAGE)
    decreases PageOf(h) + PAGE - h
  {
    hide PageOf, Aligned;
    assert BlockOk(hdrs, free, live, pages, h);
    var e := h + hdrs[h].size;
    PageBounds(h);
    if e < PageOf(h) + PAGE {
      SamePage(h, e);
      assert Block(free, live, e);
      BlocksChain(hdrs, free, live, pages, e);
    }
  }

  /** Every heap page is exactly tiled by its blocks. */
  lemma EveryPageIsTiled(hdrs: Headers, free: set<nat>, live: set<nat>, pages: set<nat>, p: nat)
    requires Tiled(hdrs, free, live, pages) && p in pages
    ensures Chain(hdrs, free, live, p, p + PAGE)
  {
    hide PageOf, Aligned;
    PageStart(p);
    assert Block(free, live, p);
    BlocksChain(hdrs, free, live, pages, p);
  }

  // ---------- Taking a block ----------

  ghost predicate HeapOk(hdrs: Headers, free: set<nat>, live: set<nat>, pages: set<nat>) {
    Tiled(hdrs, free, live, pages) && Coalesced(hdrs, free) && PagesInUse(live, pages)
  }

  /** A free block becomes live as it is. */
  lemma TakeWhole(hdrs: Headers, free: set<nat>, live: set<nat>, pages: set<nat>, h: nat, linked: bool)
    requires HeapOk(hdrs, free, live, pages) && h in free && h in hdrs
    ensures HeapOk(hdrs[h := Header(hdrs[h].size, linked)], free - {h}, live + {h}, pages)
  {
    hide PageOf, Aligned;
    var hdrs', free', live' := hdrs[h := Header(hdrs[h].size, linked)], free - {h}, live + {h};
    assert forall k: nat :: Block(free', live', k) <==> Block(free, live, k);
    forall k: nat | Block(free', live', k)
      ensures BlockOk(hdrs', free', live', pages, k)
    {
      assert BlockOk(hdrs, free, live, pages, k);
    }
    UseKept(live, live', pages);
  }

  lemma UseKept(live: set<nat>, live': set<nat>, pages: set<nat>)
    requires PagesInUse(live, pages) && live <= live'
    ensures PagesInUse(live', pages)
  {
    hide PageOf, Aligned;
    forall p | p in pages
      ensures exists h :: h in live' && PageOf(h) == p
    {
      var h :| h in live && PageOf(h) == p;
    }
  }

  /** The headers after a block at h is cut to `size`, with the rest of its `block` bytes as a free block. */
  function Cut(hdrs: Headers, h: nat, size: nat, block: nat): Headers
    requires size <= block
  {
    hdrs[h + size := Header(block - size, true)][h := Header(size, false)]
  }

  lemma TakeFrontTiles(hdrs: Headers, free: set<nat>, live: set<nat>, pages: set<nat>, h: nat, size: nat)
    requires Tiled(hdrs, free, live, pages) && h in free && h in hdrs
    requires HDR <= size && Aligned(size) && hdrs[h].size >= size + 2 * HDR
    ensures !Block(free, live, h + size)
    ensures Tiled(Cut(hdrs, h, size, hdrs[h].size), free - {h} + {h + size}, live + {h}, pages)
  {
    hide PageOf, Aligned;
    var x, bs := h + size, hdrs[h].size;
    var hdrs', free', live' := Cut(hdrs, h, size, bs), free - {h} + {x}, live + {h};
    assert Block(free, live, h) && BlockOk(hdrs, free, live, pages, h);
    PageBounds(h);
    SamePage(h, x);
    AlignedSum(h, size);
    AlignedSum(bs, size);
    assert !Block(free, live, x);
    assert forall k: nat :: Block(free', live', k) <==> Block(free, live, k) || k == x;
    forall k: nat | Block(free', live', k)
      ensures BlockOk(hdrs', free', live', pages, k)
    {
      if k != x {
        assert BlockOk(hdrs, free, live, pages, k);
      }
    }
    forall j: nat, k: nat | Block(free', live', j) && Block(free', live', k) && j < k
      ensures j + hdrs'[j].size <= k
    {
      if j == x {
        assert Block(free, live, k);
      } else if k == x {
        assert Block(free, live, j);
      }
    }
  }

  /** The front of a free block becomes live and the rest a free block of its own. */
  lemma TakeFront(hdrs: Headers, free: set<nat>, live: set<nat>, pages: set<nat>, h: nat, size: nat)
    requires HeapOk(hdrs, free, live, pages) && h in free && h in hdrs
    requires HDR <= size && Aligned(size) && hdrs[h].size >= size + 2 * HDR
    ensures HeapOk(Cut(hdrs, h, size, hdrs[h].size), free - {h} + {h + size}, live + {h}, pages)
  {
    hide PageOf, Aligned;
    var x, bs := h + size, hdrs[h].size;
    var hdrs', free' := Cut(hdrs, h, size, bs), free - {h} + {x};
    TakeFrontTiles(hdrs, free, live, pages, h, size);
    assert Block(free, live, h) && BlockOk(hdrs, free, live, pages, h);
    PageBounds(h);
    SamePage(h, x);
    forall j: nat, k: nat | j in free' && k in free' && Adjacent(hdrs', j, k)
      ensures k == PageOf(j) + PAGE
    {
      if j == x {
        assert Adjacent(hdrs, h, k);
      } else {
        assert Block(free, live, j);
        assert Adjacent(hdrs, j, k);
      }
    }
    UseKept(live, live + {h}, pages);
  }

  lemma PageAligned(p: nat)
    requires p % PAGE == 0
    ensures Aligned(p) && Aligned(PAGE)
  {
    assert p == ALIGN * (512 * (p / PAGE));
  }

  lemma OpenPageTiles(hdrs: Headers, free: set<nat>, live: set<nat>, pages: set<nat>, p: nat, size: nat)
    requires Tiled(hdrs, free, live, pages) && p !in pages && p > 0 && p % PAGE == 0
    requires HDR <= size && Aligned(size) && size + 2 * HDR <= PAGE
    ensures Tiled(Cut(hdrs, p, size, PAGE), free + {p + size}, live + {p}, pages + {p})
  {
    hide PageOf, Aligned;
    var x := p + size;
    var hdrs', free', live', pages' := Cut(hdrs, p, size, PAGE), free + {x}, live + {p}, pages + {p};
    PageStart(p);
    SamePage(p, x);
    PageAligned(p);
    AlignedSum(p, size);
    AlignedSum(PAGE, size);
    forall k: nat | Block(free, live, k)
      ensures k in hdrs && (k < p ==> k + hdrs[k].size <= p) && (k >= p ==> k >= p + PAGE)
    {
      OutsidePage(hdrs, free, live, pages, p, k);
    }
    assert forall k: nat :: Block(free', live', k) <==> Block(free, live, k) || k == p || k == x;
    assert !Block(free, live, p) && !Block(free, live, x);
    forall k: nat | Block(free', live', k)
      ensures BlockOk(hdrs', free', live', pages', k)
    {
      if k == p {
        assert hdrs'[k] == Header(size, false) && p + size in free';
      } else if k == x {
        assert hdrs'[k] == Header(PAGE - size, true) && PageOf(k) == p;
      } else {
        assert BlockOk(hdrs, free, live, pages, k) && hdrs'[k] == hdrs[k];
      }
    }
    forall j: nat, k: nat | Block(free', live', j) && Block(free', live', k) && j < k
      ensures j + hdrs'[j].size <= k
    {
    }
  }

  /** A fresh page whose front becomes live and whose rest becomes free. */
  lemma OpenPage(hdrs: Headers, free: set<nat>, live: set<nat>, pages: set<nat>, p: nat, size: nat)
    requires HeapOk(hdrs, free, live, pages) && p !in pages && p > 0 && p % PAGE == 0
    requires HDR <= size && Aligned(size) && size + 2 * HDR <= PAGE
    ensures HeapOk(Cut(hdrs, p, size, PAGE), free + {p + size}, live + {p}, pages + {p})
  {
    hide PageOf, Aligned;
    var x := p + size;
    var hdrs', free', live', pages' := Cut(hdrs, p, size, PAGE), free + {x}, live + {p}, pages + {p};
    PageStart(p);
    SamePage(p, x);
    OpenPageTiles(hdrs, free, live, pages, p, size);
    forall j: nat, k: nat | j in free' && k in free' && Adjacent(hdrs', j, k)
      ensures k == PageOf(j) + PAGE
    {
      if j != x {
        assert Block(free, live, j) && BlockOk(hdrs, free, live, pages, j);
        OutsidePage(hdrs, free, live, pages, p, j);
        assert Adjacent(hdrs, j, k);
      }
    }
    forall q | q in pages'
      ensures exists h :: h in live' && PageOf(h) == q
    {
      if q == p {
        assert p in live' && PageOf(p) == q;
      } else {
        var h :| h in live && PageOf(h) == q;
        assert h in live';
      }
    }
  }

  lemma OutsidePage(hdrs: Headers, free: set<nat>, live: set<nat>, pages: set<nat>, p: nat, k: nat)
    requires Tiled(hdrs, free, live, pages) && p !in pages && p % PAGE == 0 && Block(free, live, k)
    ensures k in hdrs && (k < p ==> k + hdrs[k].size <= p) && (k >= p ==> k >= p + PAGE)
  {
    assert BlockOk(hdrs, free, live, pages, k);
    PageBounds(k);
  }

  // ---------- Giving a block back ----------

  function End(hdrs: Headers, h: nat): nat { if h in hdrs then h + hdrs[h].size else h }

  /** The live block h together with its free neighbours in the page occupies [c, e). */
  ghost predicate Merged(hdrs: Headers, free: set<nat>, h: nat, c: nat, e: nat) {
    && h in hdrs
    && (c == h || (c in free && End(hdrs, c) == h && PageOf(c) == PageOf(h)))
    && (e == End(hdrs, h) || (End(hdrs, h) in free && PageOf(End(hdrs, h)) == PageOf(h) && e == End(hdrs, End(hdrs, h))))
    && (forall k: nat :: k in free && PageOf(k) == PageOf(h) && Adjacent(hdrs, k, h) ==> c == k)
    && (End(hdrs, h) in free && PageOf(End(hdrs, h)) == PageOf(h) ==> e == End(hdrs, End(hdrs, h)))
  }

  /** The free blocks that the merge swallowed. */
  function Swallowed(hdrs: Headers, h: nat, c: nat, e: nat): set<nat> {
    (if c == h then {} else {c}) + (if e == End(hdrs, h) then {} else {End(hdrs, h)})
  }

  /** Blocks other than h and the swallowed ones lie outside [c, e). */
  lemma MergedSpan(hdrs: Headers, free: set<nat>, live: set<nat>, pages: set<nat>, h: nat, c: nat, e: nat)
    requires Tiled(hdrs, free, live, pages) && h in live && Merged(hdrs, free, h, c, e)
    ensures PageOf(h) <= c <= h < End(hdrs, h) <= e <= PageOf(h) + PAGE && PageOf(c) == PageOf(h)
    ensures Aligned(c) && Aligned(e - c) && hdrs[h].size <= e - c
    ensures e < PageOf(h) + PAGE ==> Block(free, live, e)
    ensures Adjacent(hdrs, if e == End(hdrs, h) then h else End(hdrs, h), e)
    ensures Swallowed(hdrs, h, c, e) <= free
    ensures e == PageOf(h) + PAGE ==> e - c >= 2 * HDR
    ensures forall k: nat :: Block(free, live, k) && k != h && k !in Swallowed(hdrs, h, c, e) ==>
              k in hdrs && k + hdrs[k].size > k && (k + hdrs[k].size <= c || k >= e)
  {
    hide PageOf, Aligned;
    assert Block(free, live, h) && BlockOk(hdrs, free, live, pages, h);
    PageBounds(h);
    PageBounds(c);
    var m := End(hdrs, h);
    if c != h {
      assert Block(free, live, c) && BlockOk(hdrs, free, live, pages, c);
    }
    if e != m {
      assert Block(free, live, m) && BlockOk(hdrs, free, live, pages, m);
    }
    assert Aligned(e - c) by {
      AlignedSum(h, hdrs[h].size);
      if e != m {
        AlignedSum(m, hdrs[m].size);
      }
      AlignedSum(e, c);
    }
    forall k: nat | Block(free, live, k) && k != h && k !in Swallowed(hdrs, h, c, e)
      ensures k in hdrs && k + hdrs[k].size > k && (k + hdrs[k].size <= c || k >= e)
    {
      assert BlockOk(hdrs, free, live, pages, k);
    }
  }

  /** Headers after the merge: the block at c covers [c, e), and only c and h were touched. */
  ghost predicate MergedHeaders(hdrs: Headers, hdrs': Headers, h: nat, c: nat, e: nat) {
    && c <= e && c in hdrs' && hdrs'[c].size == e - c
    && forall k: nat :: k in hdrs && k != c && k != h ==> k in hdrs' && hdrs'[k] == hdrs[k]
  }

  lemma MergeKeepsOther(hdrs: Headers, hdrs': Headers, free: set<nat>, live: set<nat>, pages: set<nat>, h: nat, c: nat, e: nat, k: nat)
    requires Tiled(hdrs, free, live, pages) && h in live && Merged(hdrs, free, h, c, e) && MergedHeaders(hdrs, hdrs', h, c, e)
    requires Block(free, live, k) && k != h && k !in Swallowed(hdrs, h, c, e)
    ensures BlockOk(hdrs', free - Swallowed(hdrs, h, c, e) + {c}, live - {h}, pages, k)
  {
    hide PageOf, Aligned;
    MergedSpan(hdrs, free, live, pages, h, c, e);
    assert Block(free, live, h) && BlockOk(hdrs, free, live, pages, h);
    assert BlockOk(hdrs, free, live, pages, k) && hdrs'[k] == hdrs[k];
    if c != h {
      assert Block(free, live, c);
    }
  }

  lemma MergeOwnBlock(hdrs: Headers, hdrs': Headers, free: set<nat>, live: set<nat>, pages: set<nat>, h: nat, c: nat, e: nat)
    requires Tiled(hdrs, free, live, pages) && h in live && Merged(hdrs, free, h, c, e)
    requires MergedHeaders(hdrs, hdrs', h, c, e) && e - c < PAGE
    ensures BlockOk(hdrs', free - Swallowed(hdrs, h, c, e) + {c}, live - {h}, pages, c)
  {
    hide PageOf, Aligned, Merged;
    MergedSpan(hdrs, free, live, pages, h, c, e);
    assert Block(free, live, h) && BlockOk(hdrs, free, live, pages, h);
    assert e != h && e !in Swallowed(hdrs, h, c, e);
  }

  /** Page starts stay block starts: the first block of h's page is c if it was swallowed. */
  lemma MergeKeepsPageStarts(hdrs: Headers, free: set<nat>, live: set<nat>, pages: set<nat>, h: nat, c: nat, e: nat, p: nat)
    requires Tiled(hdrs, free, live, pages) && h in live && Merged(hdrs, free, h, c, e) && p in pages
    ensures p in free - Swallowed(hdrs, h, c, e) + {c} || p in live - {h}
  {
    hide PageOf, Aligned;
    MergedSpan(hdrs, free, live, pages, h, c, e);
    PageStart(p);
    PageBounds(h);
    if p == h || p in Swallowed(hdrs, h, c, e) {
      assert PageOf(p) == PageOf(h);
    }
  }

  lemma MergeTiles(hdrs: Headers, hdrs': Headers, free: set<nat>, live: set<nat>, pages: set<nat>, h: nat, c: nat, e: nat)
    requires Tiled(hdrs, free, live, pages) && h in live && Merged(hdrs, free, h, c, e)
    requires MergedHeaders(hdrs, hdrs', h, c, e) && e - c < PAGE
    ensures Tiled(hdrs', free - Swallowed(hdrs, h, c, e) + {c}, live - {h}, pages)
  {
    hide PageOf, Aligned, Merged, BlockOk;
    MergedSpan(hdrs, free, live, pages, h, c, e);
    var gone := Swallowed(hdrs, h, c, e);
    var free', live' := free - gone + {c}, live - {h};
    assert c == h || c in gone;
    assert forall k: nat :: Block(free', live', k) <==> k == c || (Block(free, live, k) && k != h && k !in gone);
    forall k: nat | Block(free', live', k)
      ensures BlockOk(hdrs', free', live', pages, k)
    {
      if k == c {
        MergeOwnBlock(hdrs, hdrs', free, live, pages, h, c, e);
      } else {
        MergeKeepsOther(hdrs, hdrs', free, live, pages, h, c, e, k);
      }
    }
    forall p: nat | p in pages
      ensures p in free' || p in live'
    {
      MergeKeepsPageStarts(hdrs, free, live, pages, h, c, e, p);
    }
    forall j: nat, k: nat | Block(free', live', j) && Block(free', live', k) && j < k
      ensures j + hdrs'[j].size <= k
    {
    }
  }

  lemma MergeCoalesces(hdrs: Headers, hdrs': Headers, free: set<nat>, live: set<nat>, pages: set<nat>, h: nat, c: nat, e: nat)
    requires Tiled(hdrs, free, live, pages) && Coalesced(hdrs, free) && h in live && Merged(hdrs, free, h, c, e)
    requires MergedHeaders(hdrs, hdrs', h, c, e) && e - c < PAGE
    ensures Coalesced(hdrs', free - Swallowed(hdrs, h, c, e) + {c})
  {
    hide PageOf, Aligned;
    MergedSpan(hdrs, free, live, pages, h, c, e);
    var free' := free - Swallowed(hdrs, h, c, e) + {c};
    assert Block(free, live, h) && BlockOk(hdrs, free, live, pages, h);
    forall j: nat, k: nat | j in free' && k in free' && Adjacent(hdrs', j, k)
      ensures k == PageOf(j) + PAGE
    {
      if j == c {
        if e != End(hdrs, h) {
          assert Adjacent(hdrs, End(hdrs, h), k);
        } else {
          assert Adjacent(hdrs, h, k);
        }
        if k < PageOf(h) + PAGE {
          SamePage(h, k);
        }
      } else {
        assert Block(free, live, j) && BlockOk(hdrs, free, live, pages, j);
        assert Adjacent(hdrs, j, k);
        if k == c && c == h && k < PageOf(j) + PAGE {
          PageBounds(j);
          SamePage(j, h);
        }
      }
    }
  }

  /** The merged block is the whole page exactly when the page has no other live block. */
  lemma WholePageIffLastLive(hdrs: Headers, free: set<nat>, live: set<nat>, pages: set<nat>, h: nat, c: nat, e: nat)
    requires Tiled(hdrs, free, live, pages) && Coalesced(hdrs, free) && h in live && Merged(hdrs, free, h, c, e)
    ensures e - c == PAGE <==> forall k: nat :: k in live && PageOf(k) == PageOf(h) ==> k == h
    ensures e - c == PAGE ==> c == PageOf(h)
  {
    hide PageOf, Aligned;
    MergedSpan(hdrs, free, live, pages, h, c, e);
    if e - c == PAGE {
      forall k: nat | k in live && PageOf(k) == PageOf(h)
        ensures k == h
      {
        assert Block(free, live, k);
        PageBounds(k);
      }
    }
    if forall k: nat :: k in live && PageOf(k) == PageOf(h) ==> k == h {
      LastLiveFillsPage(hdrs, free, live, pages, h, c, e);
    }
  }

  lemma LastLiveFillsPage(hdrs: Headers, free: set<nat>, live: set<nat>, pages: set<nat>, h: nat, c: nat, e: nat)
    requires Tiled(hdrs, free, live, pages) && Coalesced(hdrs, free) && h in live && Merged(hdrs, free, h, c, e)
    requires forall k: nat :: k in live && PageOf(k) == PageOf(h) ==> k == h
    ensures c == PageOf(h) && e == PageOf(h) + PAGE
  {
    hide PageOf, Aligned;
    MergedSpan(hdrs, free, live, pages, h, c, e);
    var p := PageOf(h);
    assert Block(free, live, h) && BlockOk(hdrs, free, live, pages, h);
    PageBounds(h);
    PageBounds(p);
    PageStart(p);
    if c > p {
      // the block before c would be free: next to the free block c, or a free neighbour of h left out
      assert Block(free, live, p) && Block(free, live, c);
      var k := Predecessor(hdrs, free, live, pages, p, c);
    }
    if e < p + PAGE {
      // likewise the block at e
      SamePage(h, e);
    }
  }

  lemma {:induction false} Predecessor(hdrs: Headers, free: set<nat>, live: set<nat>, pages: set<nat>, a: nat, b: nat) returns (k: nat)
    requires Tiled(hdrs, free, live, pages) && Block(free, live, a) && Block(free, live, b) && a < b && PageOf(a) == PageOf(b)
    ensures Block(free, live, k) && PageOf(k) == PageOf(b) && Adjacent(hdrs, k, b)
    decreases b - a
  {
    hide PageOf, Aligned;
    assert BlockOk(hdrs, free, live, pages, a);
    var e := a + hdrs[a].size;
    if e == b {
      k := a;
    } else {
      PageBounds(a);
      PageBounds(b);
      SamePage(a, e);
      assert Block(free, live, e);
      k := Predecessor(hdrs, free, live, pages, e, b);
    }
  }

  /** After the merge, unless it filled the page. */
  lemma MergeKeeps(hdrs: Headers, hdrs': Headers, free: set<nat>, live: set<nat>, pages: set<nat>, h: nat, c: nat, e: nat)
    requires HeapOk(hdrs, free, live, pages) && h in live && Merged(hdrs, free, h, c, e)
    requires MergedHeaders(hdrs, hdrs', h, c, e) && e - c != PAGE
    ensures HeapOk(hdrs', free - Swallowed(hdrs, h, c, e) + {c}, live - {h}, pages)
  {
    hide PageOf, Aligned, Merged, MergedHeaders, Tiled, Coalesced, Swallowed;
    MergedSpan(hdrs, free, live, pages, h, c, e);
    MergeTiles(hdrs, hdrs', free, live, pages, h, c, e);
    MergeCoalesces(hdrs, hdrs', free, live, pages, h, c, e);
    WholePageIffLastLive(hdrs, free, live, pages, h, c, e);
    forall p | p in pages
      ensures exists k :: k in live - {h} && PageOf(k) == p
    {
      var k :| k in live && PageOf(k) == p;
      if k == h {
        var k' :| k' in live && PageOf(k') == PageOf(h) && k' != h;
        assert k' in live - {h};
      } else {
        assert k in live - {h};
      }
    }
  }

  lemma ReleaseKeepsOther(hdrs: Headers, hdrs': Headers, free: set<nat>, live: set<nat>, pages: set<nat>, h: nat, c: nat, e: nat, k: nat)
    requires Tiled(hdrs, free, live, pages) && h in live && Merged(hdrs, free, h, c, e)
    requires MergedHeaders(hdrs, hdrs', h, c, e) && e - c == PAGE
    requires Block(free, live, k) && k != h && k !in Swallowed(hdrs, h, c, e)
    ensures BlockOk(hdrs', free - Swallowed(hdrs, h, c, e), live - {h}, pages - {PageOf(h)}, k) && hdrs'[k] == hdrs[k]
    ensures PageOf(k) != PageOf(h)
  {
    hide PageOf, Aligned;
    MergedSpan(hdrs, free, live, pages, h, c, e);
    assert BlockOk(hdrs, free, live, pages, k);
    PageBounds(k);
    InsideOwnPage(hdrs, free, live, pages, h, c, e, k);
  }

  lemma ReleaseTiles(hdrs: Headers, hdrs': Headers, free: set<nat>, live: set<nat>, pages: set<nat>, h: nat, c: nat, e: nat)
    requires Tiled(hdrs, free, live, pages) && h in live && Merged(hdrs, free, h, c, e)
    requires MergedHeaders(hdrs, hdrs', h, c, e) && e - c == PAGE
    ensures Tiled(hdrs', free - Swallowed(hdrs, h, c, e), live - {h}, pages - {PageOf(h)})
  {
    hide PageOf, Aligned, Merged, BlockOk, MergedHeaders;
    MergedSpan(hdrs, free, live, pages, h, c, e);
    var gone, q := Swallowed(hdrs, h, c, e), PageOf(h);
    var free', live', pages' := free - gone, live - {h}, pages - {q};
    assert forall k: nat :: Block(free', live', k) <==> Block(free, live, k) && k != h && k !in gone;
    forall k: nat | Block(free', live', k)
      ensures BlockOk(hdrs', free', live', pages', k) && k in hdrs && k in hdrs' && hdrs'[k] == hdrs[k]
    {
      ReleaseKeepsOther(hdrs, hdrs', free, live, pages, h, c, e, k);
      OkHasHeader(hdrs', free', live', pages', k);
      OkHasHeader(hdrs, free, live, pages, k);
    }
    forall p: nat | p in pages'
      ensures p in free' || p in live'
    {
      OtherPageStart(hdrs, free, live, pages, h, c, e, p);
    }
  }

  lemma OkHasHeader(hdrs: Headers, free: set<nat>, live: set<nat>, pages: set<nat>, k: nat)
    requires BlockOk(hdrs, free, live, pages, k)
    ensures k in hdrs
  {
  }

  lemma OtherPageStart(hdrs: Headers, free: set<nat>, live: set<nat>, pages: set<nat>, h: nat, c: nat, e: nat, p: nat)
    requires Tiled(hdrs, free, live, pages) && h in live && Merged(hdrs, free, h, c, e) && p in pages && p != PageOf(h)
    ensures p != h && p !in Swallowed(hdrs, h, c, e)
  {
    hide PageOf, Aligned;
    MergedSpan(hdrs, free, live, pages, h, c, e);
    PageStart(p);
  }

  /** The page goes back once the merge filled it. */
  lemma ReleaseKeeps(hdrs: Headers, hdrs': Headers, free: set<nat>, live: set<nat>, pages: set<nat>, h: nat, c: nat, e: nat)
    requires HeapOk(hdrs, free, live, pages) && h in live && Merged(hdrs, free, h, c, e)
    requires MergedHeaders(hdrs, hdrs', h, c, e) && e - c == PAGE
    ensures HeapOk(hdrs', free - Swallowed(hdrs, h, c, e), live - {h}, pages - {PageOf(h)})
  {
    hide PageOf, Aligned, Merged, Tiled, MergedHeaders, BlockOk;
    var gone, q := Swallowed(hdrs, h, c, e), PageOf(h);
    var free', live', pages' := free - gone, live - {h}, pages - {q};
    ReleaseTiles(hdrs, hdrs', free, live, pages, h, c, e);
    forall j: nat, k: nat | j in free' && k in free' && Adjacent(hdrs', j, k)
      ensures k == PageOf(j) + PAGE
    {
      DisjointSets(hdrs, free, live, pages);
      assert Block(free, live, j);
      ReleaseKeepsOther(hdrs, hdrs', free, live, pages, h, c, e, j);
      OkHasHeader(hdrs, free, live, pages, j);
      assert Adjacent(hdrs, j, k);
    }
    forall p | p in pages'
      ensures exists k :: k in live' && PageOf(k) == p
    {
      var k :| k in live && PageOf(k) == p;
      assert k in live';
    }
  }

  lemma DisjointSets(hdrs: Headers, free: set<nat>, live: set<nat>, pages: set<nat>)
    requires Tiled(hdrs, free, live, pages)
    ensures free !! live && forall k: nat :: Block(free, live, k) ==> BlockOk(hdrs, free, live, pages, k)
  {
  }

  lemma InsideOwnPage(hdrs: Headers, free: set<nat>, live: set<nat>, pages: set<nat>, h: nat, c: nat, e: nat, k: nat)
    requires Tiled(hdrs, free, live, pages) && h in live && Merged(hdrs, free, h, c, e)
    requires Block(free, live, k) && PageOf(k) != PageOf(h)
    ensures k in hdrs
    ensures k + hdrs[k].size < PageOf(k) + PAGE ==> k + hdrs[k].size != h && k + hdrs[k].size !in Swallowed(hdrs, h, c, e)
  {
    hide PageOf, Aligned;
    MergedSpan(hdrs, free, live, pages, h, c, e);
    assert BlockOk(hdrs, free, live, pages, k);
    PageBounds(k);
    PageBounds(h);
    var x := k + hdrs[k].size;
    if x < PageOf(k) + PAGE {
      SamePage(k, x);
    }
  }

  // ---------- The allocator ----------

  function Elements(q: seq<nat>): set<nat> { set h | h in q }

  function SizeAt(hdrs: Headers, h: nat): nat { if h in hdrs then hdrs[h].size else 0 }

  /** The bytes in the blocks of the list. */
  function FreeBytes(hdrs: Headers, q: seq<nat>): nat {
    if q == [] then 0 else SizeAt(hdrs, q[0]) + FreeBytes(hdrs, q[1..])
  }

  lemma {:induction false} FreeBytesSame(hdrs: Headers, hdrs': Headers, q: seq<nat>)
    requires forall k: nat :: k in q ==> SizeAt(hdrs', k) == SizeAt(hdrs, k)
    ensures FreeBytes(hdrs', q) == FreeBytes(hdrs, q)
  {
    hide SizeAt;
    if q != [] {
      FreeBytesSame(hdrs, hdrs', q[1..]);
    }
  }

  lemma FreeBytesWith(hdrs: Headers, h: nat, q: seq<nat>)
    ensures FreeBytes(hdrs, [h] + q) == SizeAt(hdrs, h) + FreeBytes(hdrs, q)
  {
    assert ([h] + q)[1..] == q;
  }

  lemma {:induction false} FreeBytesWithout(hdrs: Headers, h: nat, q: seq<nat>)
    requires Distinct(q) && h in q
    ensures FreeBytes(hdrs, Remove<nat>(q, h)) + SizeAt(hdrs, h) == FreeBytes(hdrs, q)
  {
    hide SizeAt;
    if q[0] == h {
      RemoveAbsent<nat>(q[1..], h);
    } else {
      FreeBytesWithout(hdrs, h, q[1..]);
      FreeBytesWith(hdrs, q[0], Remove<nat>(q[1..], h));
    }
  }

  /** The first block of the list that is large enough. */
  function FirstFit(hdrs: Headers, q: seq<nat>, size: nat): (r: int)
    ensures r == -1 || (r in q && r in hdrs && hdrs[r].size >= size)
    ensures r == -1 ==> forall h :: h in q && h in hdrs ==> hdrs[h].size < size
  {
    if q == [] then -1
    else if q[0] in hdrs && hdrs[q[0]].size >= size then q[0]
    else FirstFit(hdrs, q[1..], size)
  }

  /**
   * Whole-page allocations: runs of pages with a header at the start, apart from each other and from
   * the heap pages. A run is as long as the pages that were really taken for it.
   */
  ghost predicate BigOk(hdrs: Headers, big: map<nat, nat>, pages: set<nat>) {
    && (forall b: nat :: b in big ==> b > 0 && b % PAGE == 0 && b in hdrs && !hdrs[b].linked
                                      && hdrs[b].size >= PAGE && PageCount(hdrs[b].size) > 0 && Held(hdrs[b].size) >= HDR + big[b])
    && (forall a: nat, b: nat :: a in big && b in big && a < b ==> a + Held(hdrs[a].size) <= b)
    && (forall p: nat, b: nat :: p in pages && b in big ==> p + PAGE <= b || b + Held(hdrs[b].size) <= p)
  }

  /** Free blocks have their list pointers set; live blocks have them cleared and have room for what was asked. */
  ghost predicate FlagsOk(hdrs: Headers, free: set<nat>, live: map<nat, nat>) {
    && (forall h: nat :: h in free ==> h in hdrs && hdrs[h].linked)
    && (forall h: nat :: h in live ==> h in hdrs && !hdrs[h].linked && hdrs[h].size >= HDR + live[h])
  }

  /** What the page allocator may hand out: nothing, or a run of pages that the heap does not hold. */
  ghost predicate FreshRun(hdrs: Headers, big: map<nat, nat>, pages: set<nat>, a: nat, bytes: nat) {
    a == 0 ||
    (&& a % PAGE == 0 && bytes > 0
     && (forall p: nat :: p in pages ==> p + PAGE <= a || a + bytes <= p)
     && (forall b: nat :: b in big && b in hdrs ==> b + Held(hdrs[b].size) <= a || a + bytes <= b))
  }

  // ---------- Keeping flags and whole-page runs ----------

  lemma BigKept(hdrs: Headers, hdrs': Headers, big: map<nat, nat>, pages: set<nat>, pages': set<nat>)
    requires BigOk(hdrs, big, pages)
    requires forall b: nat :: b in big && b in hdrs ==> b in hdrs' && hdrs'[b] == hdrs[b]
    requires forall p: nat, b: nat :: p in pages' && p !in pages && b in big && b in hdrs ==> p + PAGE <= b || b + Held(hdrs[b].size) <= p
    ensures BigOk(hdrs', big, pages')
  {
    hide Held, PageCount;
  }

  /** No whole-page run starts inside a heap page. */
  lemma NotBig(hdrs: Headers, big: map<nat, nat>, pages: set<nat>, a: nat)
    requires BigOk(hdrs, big, pages) && PageOf(a) in pages
    ensures a !in big
  {
    hide PageOf;
    PageBounds(a);
  }

  /** Changing headers inside heap pages leaves the whole-page runs alone. */
  lemma BigUntouched(hdrs: Headers, hdrs': Headers, big: map<nat, nat>, pages: set<nat>, pages': set<nat>, touched: set<nat>)
    requires BigOk(hdrs, big, pages) && pages' <= pages
    requires forall a: nat :: a in touched ==> PageOf(a) in pages
    requires forall k: nat :: k in hdrs && k !in touched ==> k in hdrs' && hdrs'[k] == hdrs[k]
    ensures BigOk(hdrs', big, pages')
    ensures forall b: nat :: b in big ==> b in hdrs && b in hdrs' && hdrs'[b] == hdrs[b]
  {
    hide PageOf;
    forall b: nat | b in big
      ensures b in hdrs' && hdrs'[b] == hdrs[b]
    {
      if b in touched {
        NotBig(hdrs, big, pages, b);
      }
    }
    BigKept(hdrs, hdrs', big, pages, pages');
  }

  /** A header just inside a block's page: where a caller's pointer lies. */
  lemma PayloadOnHeaderPage(hdrs: Headers, free: set<nat>, live: set<nat>, pages: set<nat>, h: nat)
    requires Tiled(hdrs, free, live, pages) && h in live
    ensures PageOf(h + HDR) == PageOf(h)
  {
    hide PageOf, Aligned;
    assert Block(free, live, h) && BlockOk(hdrs, free, live, pages, h);
    PageBounds(h);
    SamePage(h, h + HDR);
  }

  /** One turn of the merging loop over the free list: block i is looked at after those of F. */
  lemma MergeTurn(hdrs: Headers, now: Headers, free: set<nat>, live: set<nat>, pages: set<nat>, F: set<nat>, h: nat, c: nat, e: nat, i: nat)
    requires Tiled(hdrs, free, live, pages) && Coalesced(hdrs, free) && h in live && F <= free && i in free && i !in F
    requires Merged(hdrs, F, h, c, e) && MergedHeaders(hdrs, now, h, c, e)
    ensures PageOf(c) == PageOf(h) && i != c && i != h && i in hdrs && i in now && now[i] == hdrs[i] && now[i].size > 0 && c <= h < e
    ensures PageOf(i) != PageOf(c) ==> Merged(hdrs, F + {i}, h, c, e)
    ensures PageOf(i) == PageOf(c) && Adjacent(now, i, c) ==> c == h && Merged(hdrs, F + {i}, h, i, e) && c + (e - i) != i
    ensures PageOf(i) == PageOf(c) && !Adjacent(now, i, c) && e == i ==> e == End(hdrs, h) && Merged(hdrs, F + {i}, h, c, End(hdrs, i))
    ensures PageOf(i) == PageOf(c) && !Adjacent(now, i, c) && e != i ==> Merged(hdrs, F + {i}, h, c, e)
  {
    hide PageOf, Aligned;
    assert Block(free, live, h) && BlockOk(hdrs, free, live, pages, h);
    assert Block(free, live, i) && BlockOk(hdrs, free, live, pages, i);
    assert Block(free, live, c) && BlockOk(hdrs, free, live, pages, c);
    var m := End(hdrs, h);
    if e != m {
      assert Block(free, live, m) && BlockOk(hdrs, free, live, pages, m);
    }
  }

  ghost predicate AllOk(hdrs: Headers, q: seq<nat>, live: map<nat, nat>, big: map<nat, nat>, pages: set<nat>) {
    && HeapOk(hdrs, Elements(q), live.Keys, pages)
    && Distinct(q)
    && FlagsOk(hdrs, Elements(q), live)
    && BigOk(hdrs, big, pages)
  }

  /** The headers of live blocks are as they were. */
  ghost predicate Kept(hdrs: Headers, hdrs': Headers, live: map<nat, nat>, big: map<nat, nat>) {
    forall k: nat :: k in live || k in big ==> k in hdrs && k in hdrs' && hdrs'[k] == hdrs[k]
  }

  lemma NothingChanged(hdrs: Headers, q: seq<nat>, live: map<nat, nat>, big: map<nat, nat>, pages: set<nat>)
    requires AllOk(hdrs, q, live, big, pages)
    ensures Kept(hdrs, hdrs, live, big)
  {
    hide HeapOk;
  }

  /** Headers outside heap pages do not matter to the heap. */
  lemma HeapElsewhere(hdrs: Headers, hdrs': Headers, free: set<nat>, live: set<nat>, pages: set<nat>)
    requires HeapOk(hdrs, free, live, pages)
    requires forall k: nat :: k in hdrs && (k in free || k in live) ==> k in hdrs' && hdrs'[k] == hdrs[k]
    ensures HeapOk(hdrs', free, live, pages)
  {
    hide PageOf, Aligned;
    assert Tiled(hdrs', free, live, pages) by {
      forall h: nat | Block(free, live, h)
        ensures BlockOk(hdrs', free, live, pages, h)
      {
        assert BlockOk(hdrs, free, live, pages, h);
      }
    }
    forall h: nat, k: nat | h in free && k in free && Adjacent(hdrs', h, k)
      ensures k == PageOf(h) + PAGE
    {
      assert Block(free, live, h) && BlockOk(hdrs, free, live, pages, h);
      assert Adjacent(hdrs, h, k);
    }
  }

  /** No block starts in a run that the page allocator hands out. */
  lemma RunIsFresh(hdrs: Headers, free: set<nat>, live: set<nat>, big: map<nat, nat>, pages: set<nat>, a: nat, run: nat, k: nat)
    requires HeapOk(hdrs, free, live, pages) && BigOk(hdrs, big, pages)
    requires a != 0 && run >= PAGE && run % PAGE == 0 && FreshRun(hdrs, big, pages, a, run)
    requires k in free || k in live || k in big
    ensures k in hdrs && !(a <= k < a + run) && a !in pages
  {
    hide PageOf, Aligned, PageCount, Held;
    if k in big {
      HeldPages(hdrs[k].size);
    } else {
      assert Block(free, live, k) && BlockOk(hdrs, free, live, pages, k);
      PageBounds(k);
    }
  }

  /** A whole-page run joins the live ones. */
  lemma NewRunKeeps(hdrs: Headers, q: seq<nat>, live: map<nat, nat>, big: map<nat, nat>, pages: set<nat>, a: nat, size: nat, asize: nat)
    requires AllOk(hdrs, q, live, big, pages) && a != 0 && size >= PAGE && PageCount(size) > 0 && Held(size) >= HDR + asize
    requires FreshRun(hdrs, big, pages, a, Held(size))
    ensures AllOk(hdrs[a := Header(size, false)], q, live, big[a := asize], pages)
    ensures Kept(hdrs, hdrs[a := Header(size, false)], live, big) && a !in live && a !in big
  {
    HeldPages(size);
    hide HeapOk, PageOf, Aligned, Held, PageCount;
    var run := Held(size);
    var hdrs' := hdrs[a := Header(size, false)];
    forall k: nat | k in Elements(q) || k in live || k in big
      ensures k in hdrs && k != a
    {
      RunIsFresh(hdrs, Elements(q), live.Keys, big, pages, a, run, k);
    }
    HeapElsewhere(hdrs, hdrs', Elements(q), live.Keys, pages);
  }

  /** Nothing that the heap holds lies in a page that the page allocator hands out. */
  lemma OutsideNewPage(hdrs: Headers, q: seq<nat>, live: map<nat, nat>, big: map<nat, nat>, pages: set<nat>, a: nat, size: nat)
    requires AllOk(hdrs, q, live, big, pages) && a != 0 && size < PAGE && FreshRun(hdrs, big, pages, a, PAGE)
    ensures Kept(hdrs, Cut(hdrs, a, size, PAGE), live, big) && a !in live && a !in big
    ensures forall k: nat :: k in Elements(q) || k in live || k in big ==> k in hdrs && k != a && k != a + size
  {
    hide HeapOk, PageOf, Aligned, BigOk, FreshRun;
    forall k: nat | k in Elements(q) || k in live || k in big
      ensures k in hdrs && k != a && k != a + size
    {
      RunIsFresh(hdrs, Elements(q), live.Keys, big, pages, a, PAGE, k);
    }
  }

  /** A fresh page becomes a heap page: its front live, its rest at the head of the free list. */
  lemma NewPageKeeps(hdrs: Headers, q: seq<nat>, live: map<nat, nat>, big: map<nat, nat>, pages: set<nat>, a: nat, size: nat, asize: nat)
    requires AllOk(hdrs, q, live, big, pages) && a != 0 && HDR + asize <= size && Aligned(size) && size + 2 * HDR <= PAGE
    requires FreshRun(hdrs, big, pages, a, PAGE)
    ensures AllOk(Cut(hdrs, a, size, PAGE), [a + size] + q, live[a := asize], big, pages + {a})
    ensures Kept(hdrs, Cut(hdrs, a, size, PAGE), live, big) && a !in live && a !in big
  {
    hide HeapOk, PageOf, Aligned, BigOk, Held;
    var hdrs' := Cut(hdrs, a, size, PAGE);
    OutsideNewPage(hdrs, q, live, big, pages, a, size);
    FreshPage(hdrs, Elements(q), live.Keys, big, pages, a);
    OpenPage(hdrs, Elements(q), live.Keys, pages, a, size);
    assert Elements([a + size] + q) == Elements(q) + {a + size};
    assert live[a := asize].Keys == live.Keys + {a};
    BigKept(hdrs, hdrs', big, pages, pages + {a});
  }

  lemma FreshPage(hdrs: Headers, free: set<nat>, live: set<nat>, big: map<nat, nat>, pages: set<nat>, a: nat)
    requires HeapOk(hdrs, free, live, pages) && a != 0 && FreshRun(hdrs, big, pages, a, PAGE)
    ensures a !in pages && a % PAGE == 0
  {
  }

  lemma BlockFacts(hdrs: Headers, free: set<nat>, live: set<nat>, pages: set<nat>, h: nat)
    requires HeapOk(hdrs, free, live, pages) && Block(free, live, h)
    ensures h in hdrs && PageOf(h) in pages && free !! live
    ensures forall k: nat :: h <= k < h + hdrs[h].size ==> PageOf(k) == PageOf(h)
  {
    hide PageOf, Aligned;
    assert BlockOk(hdrs, free, live, pages, h);
    PageBounds(h);
    forall k: nat | h <= k < h + hdrs[h].size
      ensures PageOf(k) == PageOf(h)
    {
      SamePage(h, k);
    }
  }

  /** A free block is taken off the list and handed out whole. */
  lemma WholeBlockKeeps(hdrs: Headers, q: seq<nat>, live: map<nat, nat>, big: map<nat, nat>, pages: set<nat>, h: nat, asize: nat)
    requires AllOk(hdrs, q, live, big, pages) && h in q && h in hdrs && hdrs[h].size >= HDR + asize
    ensures AllOk(hdrs[h := Header(hdrs[h].size, false)], Remove<nat>(q, h), live[h := asize], big, pages)
    ensures Kept(hdrs, hdrs[h := Header(hdrs[h].size, false)], live, big) && h !in live && h !in big
  {
    hide HeapOk, PageOf, Aligned, BigOk;
    BlockFacts(hdrs, Elements(q), live.Keys, pages, h);
    NotBig(hdrs, big, pages, h);
    TakeWhole(hdrs, Elements(q), live.Keys, pages, h, false);
    RemoveDistinct<nat>(q, h);
    assert Elements(Remove<nat>(q, h)) == Elements(q) - {h};
    assert live[h := asize].Keys == live.Keys + {h};
    BigUntouched(hdrs, hdrs[h := Header(hdrs[h].size, false)], big, pages, pages, {h});
  }

  /** A free block is taken off the list, its front handed out, and its rest put at the head of the list. */
  lemma SplitKeeps(hdrs: Headers, q: seq<nat>, live: map<nat, nat>, big: map<nat, nat>, pages: set<nat>, h: nat, size: nat, asize: nat)
    requires AllOk(hdrs, q, live, big, pages) && h in q && h in hdrs && HDR + asize <= size && Aligned(size)
    requires hdrs[h].size >= size + 2 * HDR
    ensures AllOk(Cut(hdrs, h, size, hdrs[h].size), [h + size] + Remove<nat>(q, h), live[h := asize], big, pages)
    ensures Kept(hdrs, Cut(hdrs, h, size, hdrs[h].size), live, big) && h !in live && h !in big
  {
    hide HeapOk, PageOf, Aligned, BigOk, FlagsOk;
    var hdrs' := Cut(hdrs, h, size, hdrs[h].size);
    BlockFacts(hdrs, Elements(q), live.Keys, pages, h);
    NotBig(hdrs, big, pages, h);
    TakeFront(hdrs, Elements(q), live.Keys, pages, h, size);
    RestIsNew(hdrs, Elements(q), live.Keys, pages, h, size);
    RemoveDistinct<nat>(q, h);
    assert Elements([h + size] + Remove<nat>(q, h)) == Elements(q) - {h} + {h + size};
    assert live[h := asize].Keys == live.Keys + {h};
    BigUntouched(hdrs, hdrs', big, pages, pages, {h, h + size});
    TakenFlags(hdrs, hdrs', Elements(q), live, pages, h, {h + size}, asize);
  }

  lemma TakenFlags(hdrs: Headers, hdrs': Headers, free: set<nat>, live: map<nat, nat>, pages: set<nat>, h: nat, added: set<nat>, asize: nat)
    requires HeapOk(hdrs, free, live.Keys, pages) && FlagsOk(hdrs, free, live) && h in free && added !! live.Keys && h !in added
    requires forall k: nat :: k in hdrs && k != h && k !in added ==> k in hdrs' && hdrs'[k] == hdrs[k]
    requires forall k: nat :: k in added ==> k in hdrs' && hdrs'[k].linked
    requires h in hdrs' && !hdrs'[h].linked && hdrs'[h].size >= HDR + asize
    ensures FlagsOk(hdrs', free - {h} + added, live[h := asize])
    ensures forall k: nat :: k in live ==> k in hdrs && k in hdrs' && hdrs'[k] == hdrs[k]
  {
    hide PageOf, Aligned, Coalesced, PagesInUse;
    DisjointSets(hdrs, free, live.Keys, pages);
  }

  lemma RestIsNew(hdrs: Headers, free: set<nat>, live: set<nat>, pages: set<nat>, h: nat, size: nat)
    requires HeapOk(hdrs, free, live, pages) && h in free && h in hdrs
    requires HDR <= size && Aligned(size) && hdrs[h].size >= size + 2 * HDR
    ensures h + size !in free && h + size !in live
  {
    hide Tiled, PageOf, Aligned;
    TakeFrontTiles(hdrs, free, live, pages, h, size);
  }

  ghost predicate MergeLoop(hdrs: Headers, now: Headers, q: seq<nat>, list: seq<nat>, k: nat, h: nat, c: nat, e: nat) {
    && k <= |q|
    && Merged(hdrs, Elements(q[..k]), h, c, e) && MergedHeaders(hdrs, now, h, c, e)
    && Distinct(list) && Elements(list) == Elements(q) - Swallowed(hdrs, h, c, e)
    && FreeBytes(hdrs, list) + (e - c) == FreeBytes(hdrs, q) + hdrs[h].size
  }

  lemma MergeLoopStarts(hdrs: Headers, q: seq<nat>, h: nat)
    requires h in hdrs && Distinct(q)
    ensures MergeLoop(hdrs, hdrs, q, q, 0, h, h, h + hdrs[h].size)
  {
  }

  /** One more element of the list is looked at; `now` and `list` are as the loop body leaves them. */
  lemma MergeLoopNext(hdrs: Headers, now: Headers, q: seq<nat>, list: seq<nat>, live: set<nat>, pages: set<nat>,
                      k: nat, h: nat, c: nat, e: nat)
    requires HeapOk(hdrs, Elements(q), live, pages) && Distinct(q) && h in live
    requires MergeLoop(hdrs, now, q, list, k, h, c, e) && k < |q|
    ensures var i := q[k];
      && i in now && c in now && now[c].size == e - c && i != c && c <= h < e && PageOf(c) == PageOf(h)
      && (PageOf(i) != PageOf(c) ==> MergeLoop(hdrs, now, q, list, k + 1, h, c, e))
      && (PageOf(i) == PageOf(c) && Adjacent(now, i, c) ==>
            && c == h && c + (e - i) != i
            && MergeLoop(hdrs, now[i := now[i].(size := now[i].size + now[c].size)], q, Remove<nat>(list, i), k + 1, h, i, e))
      && (PageOf(i) == PageOf(c) && !Adjacent(now, i, c) && e == i ==>
            MergeLoop(hdrs, now[c := now[c].(size := now[c].size + now[i].size)], q, Remove<nat>(list, i), k + 1, h, c, i + now[i].size))
      && (PageOf(i) == PageOf(c) && !Adjacent(now, i, c) && e != i ==> MergeLoop(hdrs, now, q, list, k + 1, h, c, e))
  {
    hide PageOf, Tiled, Coalesced, PagesInUse, Merged, FreeBytes;
    var i := q[k];
    var F := Elements(q[..k]);
    assert Elements(q[..k + 1]) == F + {i} by {
      assert q[..k + 1] == q[..k] + [i];
    }
    MergeTurn(hdrs, now, Elements(q), live, pages, F, h, c, e, i);
    RemoveDistinct<nat>(list, i);
    assert Elements(Remove<nat>(list, i)) == Elements(list) - {i};
    if PageOf(i) == PageOf(c) && Adjacent(now, i, c) {
      assert Swallowed(hdrs, h, i, e) == Swallowed(hdrs, h, c, e) + {i};
      assert i in Elements(list);
      FreeBytesWithout(hdrs, i, list);
    } else if PageOf(i) == PageOf(c) && e == i {
      assert Swallowed(hdrs, h, c, i + now[i].size) == Swallowed(hdrs, h, c, e) + {i};
      assert i in Elements(list);
      FreeBytesWithout(hdrs, i, list);
    }
  }

  /** What the loop has found once it looked at the whole list. */
  lemma MergeLoopEnds(hdrs: Headers, now: Headers, q: seq<nat>, list: seq<nat>, live: set<nat>, big: map<nat, nat>, pages: set<nat>,
                      h: nat, c: nat, e: nat)
    requires HeapOk(hdrs, Elements(q), live, pages) && BigOk(hdrs, big, pages) && h in live
    requires MergeLoop(hdrs, now, q, list, |q|, h, c, e)
    ensures Merged(hdrs, Elements(q), h, c, e) && MergedHeaders(hdrs, now, h, c, e)
    ensures c in now && now[c].size == e - c && PageOf(h) in pages && PageOf(c) == PageOf(h) && c <= h < e
    ensures c == h || (c in Elements(q) && c !in Elements(list))
    ensures e - c == PAGE <==> Alone(live, h)
    ensures e - c == PAGE ==> c == PageOf(h)
    ensures c !in big && h !in big && c !in list
    ensures forall k: nat :: k in Elements(q) || k in live ==> k in hdrs
  {
    hide PageOf, Aligned, BigOk;
    assert q[..|q|] == q;
    WholePageIffLastLive(hdrs, Elements(q), live, pages, h, c, e);
    MergedSpan(hdrs, Elements(q), live, pages, h, c, e);
    assert Block(Elements(q), live, h) && BlockOk(hdrs, Elements(q), live, pages, h);
    NotBig(hdrs, big, pages, h);
    NotBig(hdrs, big, pages, c);
    DisjointSets(hdrs, Elements(q), live, pages);
    assert c in list ==> c in Elements(list);
    forall k: nat | k in Elements(q) || k in live
      ensures k in hdrs
    {
      assert Block(Elements(q), live, k);
    }
  }

  /** The free blocks that were not merged are as they were. */
  lemma RestBytes(hdrs: Headers, now: Headers, q: seq<nat>, list: seq<nat>, live: map<nat, nat>, big: map<nat, nat>, pages: set<nat>,
                  h: nat, c: nat, e: nat)
    requires AllOk(hdrs, q, live, big, pages) && h in live && MergeLoop(hdrs, now, q, list, |q|, h, c, e)
    ensures FreeBytes(now, list) + (e - c) == FreeBytes(hdrs, q) + SizeAt(hdrs, h)
  {
    hide HeapOk, PageOf, BigOk, Merged, FreeBytes;
    MergeLoopEnds(hdrs, now, q, list, live.Keys, big, pages, h, c, e);
    BlockFacts(hdrs, Elements(q), live.Keys, pages, h);
    forall k: nat | k in list
      ensures SizeAt(now, k) == SizeAt(hdrs, k)
    {
      assert k in Elements(list) && k in Elements(q);
    }
    FreeBytesSame(hdrs, now, list);
  }

  /** h heads the only live block of its page. */
  ghost predicate Alone(live: set<nat>, h: nat) {
    forall k: nat :: k in live && PageOf(k) == PageOf(h) ==> k == h
  }

  /** The merged block goes to the head of the free list. */
  lemma FreeBlockKeeps(hdrs: Headers, now: Headers, q: seq<nat>, list: seq<nat>, live: map<nat, nat>, big: map<nat, nat>, pages: set<nat>,
                       h: nat, c: nat, e: nat)
    requires AllOk(hdrs, q, live, big, pages) && h in live && MergeLoop(hdrs, now, q, list, |q|, h, c, e)
    requires c in now && e - c != PAGE
    ensures AllOk(now[c := now[c].(linked := true)], [c] + list, live - {h}, big, pages)
    ensures Kept(hdrs, now[c := now[c].(linked := true)], live - {h}, big)
    ensures FreeBytes(now[c := now[c].(linked := true)], [c] + list) == FreeBytes(hdrs, q) + SizeAt(hdrs, h)
  {
    hide HeapOk, PageOf, BigOk, Merged, FreeBytes;
    var now' := now[c := now[c].(linked := true)];
    MergeLoopEnds(hdrs, now, q, list, live.Keys, big, pages, h, c, e);
    FreeBytesWith(now', c, list);
    RestBytes(hdrs, now, q, list, live, big, pages, h, c, e);
    FreeBytesSame(now, now', list);
    MergeKeeps(hdrs, now', Elements(q), live.Keys, pages, h, c, e);
    assert Elements([c] + list) == Elements(q) - Swallowed(hdrs, h, c, e) + {c};
    assert (live - {h}).Keys == live.Keys - {h};
    BigUntouched(hdrs, now', big, pages, pages, {h, c});
    FreedFlags(hdrs, now', Elements(q), live, pages, h, c, {c});
  }

  /** The merged block is a whole page and leaves the heap. */
  lemma FreePageKeeps(hdrs: Headers, now: Headers, q: seq<nat>, list: seq<nat>, live: map<nat, nat>, big: map<nat, nat>, pages: set<nat>,
                      h: nat, c: nat, e: nat)
    requires AllOk(hdrs, q, live, big, pages) && h in live && MergeLoop(hdrs, now, q, list, |q|, h, c, e)
    requires c in now && e - c == PAGE
    ensures AllOk(now, list, live - {h}, big, pages - {PageOf(h)})
    ensures Kept(hdrs, now, live - {h}, big)
    ensures FreeBytes(now, list) + PAGE == FreeBytes(hdrs, q) + SizeAt(hdrs, h)
  {
    hide HeapOk, PageOf, BigOk, Merged, FreeBytes;
    MergeLoopEnds(hdrs, now, q, list, live.Keys, big, pages, h, c, e);
    RestBytes(hdrs, now, q, list, live, big, pages, h, c, e);
    ReleaseKeeps(hdrs, now, Elements(q), live.Keys, pages, h, c, e);
    assert (live - {h}).Keys == live.Keys - {h};
    BigUntouched(hdrs, now, big, pages, pages - {PageOf(h)}, {h, c});
    FreedFlags(hdrs, now, Elements(q), live, pages, h, c, {});
  }

  /** Headers of blocks other than h and c are as they were, flags included. */
  lemma FreedFlags(hdrs: Headers, now: Headers, free: set<nat>, live: map<nat, nat>, pages: set<nat>, h: nat, c: nat, added: set<nat>)
    requires HeapOk(hdrs, free, live.Keys, pages) && FlagsOk(hdrs, free, live) && h in live && (c == h || c in free)
    requires forall k: nat :: k in hdrs && k != c && k != h ==> k in now && now[k] == hdrs[k]
    requires forall k: nat :: k in added ==> k in now && now[k].linked
    ensures FlagsOk(now, free - {c} + added, live - {h})
    ensures forall k: nat :: k in live && k != h ==> k in hdrs && k in now && now[k] == hdrs[k]
  {
    hide PageOf, Aligned, Coalesced, PagesInUse;
    DisjointSets(hdrs, free, live.Keys, pages);
  }

  /** The tests that guk_xfree makes on a header pass for every live block, and its size tells the two kinds apart. */
  lemma HeaderChecks(hdrs: Headers, q: seq<nat>, live: map<nat, nat>, big: map<nat, nat>, pages: set<nat>, h: nat)
    requires AllOk(hdrs, q, live, big, pages) && (h in live || h in big)
    ensures h in hdrs && !hdrs[h].linked && PageOf(h + HDR) == PageOf(h)
    ensures hdrs[h].size >= PAGE <==> h in big
    ensures h in live <==> h !in big
  {
    hide PageOf, Aligned, Coalesced, PagesInUse;
    if h in live {
      PayloadOnHeaderPage(hdrs, Elements(q), live.Keys, pages, h);
      assert Block(Elements(q), live.Keys, h) && BlockOk(hdrs, Elements(q), live.Keys, pages, h);
      NotBig(hdrs, big, pages, h);
    } else {
      PageStart(h);
      SamePage(h, h + HDR);
    }
  }

  lemma FreeRunKeeps(hdrs: Headers, q: seq<nat>, live: map<nat, nat>, big: map<nat, nat>, pages: set<nat>, h: nat)
    requires AllOk(hdrs, q, live, big, pages) && h in big && h in hdrs
    ensures AllOk(hdrs, q, live, big - {h}, pages) && Kept(hdrs, hdrs, live, big - {h})
    ensures PageCount(hdrs[h].size) > 0 && PageCount(hdrs[h].size) * PAGE == Held(hdrs[h].size)
  {
    hide HeapOk, PageCount;
  }

  function Requested(live: map<nat, nat>, big: map<nat, nat>, h: nat): nat
    requires h in live || h in big
  {
    if h in live then live[h] else big[h]
  }

  /** The bytes that belong to the block at h: what its header says, or the pages really taken for a run. */
  function Extent(hdrs: Headers, big: map<nat, nat>, h: nat): nat
    requires h in hdrs
  {
    if h in big then Held(hdrs[h].size) else hdrs[h].size
  }

  /** What callers hold never overlaps, headers included, and none of it lies in a free block. */
  lemma PayloadsApart(hdrs: Headers, q: seq<nat>, live: map<nat, nat>, big: map<nat, nat>, pages: set<nat>, a: nat, b: nat)
    requires AllOk(hdrs, q, live, big, pages) && a != b
    requires (a in live || a in big) && (b in live || b in big || b in q)
    ensures b in hdrs
    ensures a + HDR + Requested(live, big, a) <= b || b + Extent(hdrs, big, b) <= a
  {
    hide Held, PageCount, PageOf, Aligned, Coalesced, PagesInUse;
    var free := Elements(q);
    if a in live {
      assert Block(free, live.Keys, a) && BlockOk(hdrs, free, live.Keys, pages, a);
      PageBounds(a);
    }
    if b in live || b in q {
      assert Block(free, live.Keys, b) && BlockOk(hdrs, free, live.Keys, pages, b);
      PageBounds(b);
    }
  }

  /** The first block of the free list contains address a. */
  predicate HeadCovers(hdrs: Headers, q: seq<nat>, a: nat) {
    q != [] && q[0] in hdrs && q[0] <= a < q[0] + hdrs[q[0]].size
  }

  /** A block smaller than a header is live: the blocks of its page do not tile it. */
  lemma SmallBlockBreaks(hdrs: Headers, q: seq<nat>, live: map<nat, nat>, big: map<nat, nat>, pages: set<nat>, h: nat)
    requires h in live && h in hdrs && hdrs[h].size < HDR
    ensures !AllOk(hdrs, q, live, big, pages)
  {
    hide PageOf, Aligned, Coalesced, PagesInUse, FlagsOk, BigOk;
    assert Block(Elements(q), live.Keys, h);
    assert !BlockOk(hdrs, Elements(q), live.Keys, pages, h);
  }

  /** Any free block will do for a request smaller than a header. */
  lemma HeadFits(hdrs: Headers, q: seq<nat>, live: map<nat, nat>, big: map<nat, nat>, pages: set<nat>, size: nat)
    requires AllOk(hdrs, q, live, big, pages) && size < HDR
    ensures FirstFit(hdrs, q, size) == if q == [] then -1 else q[0]
    ensures q != [] ==> q[0] in hdrs && hdrs[q[0]].size >= HDR
  {
    hide PageOf, Aligned, Coalesced, PagesInUse, FlagsOk, BigOk;
    if q != [] {
      assert q[0] in Elements(q);
      assert Block(Elements(q), live.Keys, q[0]) && BlockOk(hdrs, Elements(q), live.Keys, pages, q[0]);
    }
  }

  /** Cutting a block that is smaller than a header: from a free block, or from a fresh page when none is free. */
  predicate CutsTooSmall(hdrs: Headers, q: seq<nat>, size: nat, got: nat) {
    && size < HDR
    && var fit := FirstFit(hdrs, q, size);
       if fit == -1 then got != 0 else hdrs[fit].size >= size + 2 * HDR
  }

  /**
   * A request whose block is smaller than a header takes the head of the free list. The heap stays
   * sound exactly when that block is too small to be split; a fresh page is always split.
   */
  lemma SmallerThanHeader(hdrs: Headers, q: seq<nat>, live: map<nat, nat>, big: map<nat, nat>, pages: set<nat>, asize: nat, a: nat)
    requires asize < WORD && RequestSize(asize) < HDR && AllOk(hdrs, q, live, big, pages)
    ensures var size := RequestSize(asize);
      && !AllOk(Cut(hdrs, a, size, PAGE), [a + size] + q, live[a := 0], big, pages + {a})
      && (q != [] ==>
            && FirstFit(hdrs, q, size) == q[0] && q[0] in hdrs
            && !AllOk(Cut(hdrs, q[0], size, hdrs[q[0]].size), [q[0] + size] + Remove<nat>(q, q[0]), live[q[0] := 0], big, pages)
            && AllOk(hdrs[q[0] := Header(hdrs[q[0]].size, false)], Remove<nat>(q, q[0]), live[q[0] := 0], big, pages))
  {
    hide RequestSize, AllOk;
    var size := RequestSize(asize);
    SmallBlockBreaks(Cut(hdrs, a, size, PAGE), [a + size] + q, live[a := 0], big, pages + {a}, a);
    HeadFits(hdrs, q, live, big, pages, size);
    if q != [] {
      SmallBlockBreaks(Cut(hdrs, q[0], size, hdrs[q[0]].size), [q[0] + size] + Remove<nat>(q, q[0]), live[q[0] := 0], big, pages, q[0]);
      WholeBlockKeeps(hdrs, q, live, big, pages, q[0], 0);
    }
  }

  /** Cutting up a free block leaves the headers of live blocks alone, however small the piece. */
  lemma CutKeepsLive(hdrs: Headers, q: seq<nat>, live: map<nat, nat>, big: map<nat, nat>, pages: set<nat>, h: nat, size: nat)
    requires AllOk(hdrs, q, live, big, pages) && h in q && h in hdrs && size < hdrs[h].size
    ensures Kept(hdrs, Cut(hdrs, h, size, hdrs[h].size), live, big) && h !in live && h !in big
  {
    hide HeapOk, PageOf, Aligned, BigOk;
    BlockFacts(hdrs, Elements(q), live.Keys, pages, h);
    NotBig(hdrs, big, pages, h);
    NotBig(hdrs, big, pages, h + size);
    RestNotLive(hdrs, Elements(q), live.Keys, pages, h, size);
    BigHeaders(hdrs, big, pages);
  }

  lemma BigHeaders(hdrs: Headers, big: map<nat, nat>, pages: set<nat>)
    requires BigOk(hdrs, big, pages)
    ensures forall b: nat :: b in big ==> b in hdrs
  {
    hide Held, PageCount;
  }

  lemma RestNotLive(hdrs: Headers, free: set<nat>, live: set<nat>, pages: set<nat>, h: nat, size: nat)
    requires HeapOk(hdrs, free, live, pages) && h in free && h in hdrs && size < hdrs[h].size
    ensures h + size !in live
  {
    hide PageOf, Aligned, Coalesced, PagesInUse;
    assert Block(free, live, h);
    assert h + size in live ==> Block(free, live, h + size);
  }

  // ---------- The bytes of the free list ----------

  lemma NewRunBytes(hdrs: Headers, q: seq<nat>, live: map<nat, nat>, big: map<nat, nat>, pages: set<nat>, a: nat, size: nat)
    requires AllOk(hdrs, q, live, big, pages) && a != 0 && PageCount(size) > 0 && FreshRun(hdrs, big, pages, a, Held(size))
    ensures FreeBytes(hdrs[a := Header(size, false)], q) == FreeBytes(hdrs, q)
  {
    HeldPages(size);
    hide HeapOk, PageOf, Aligned, Held, PageCount, BigOk, FlagsOk, FreeBytes, FreshRun;
    forall k: nat | k in q
      ensures k != a
    {
      assert k in Elements(q);
      RunIsFresh(hdrs, Elements(q), live.Keys, big, pages, a, Held(size), k);
    }
    FreeBytesSame(hdrs, hdrs[a := Header(size, false)], q);
  }

  lemma NewPageBytes(hdrs: Headers, q: seq<nat>, live: map<nat, nat>, big: map<nat, nat>, pages: set<nat>, a: nat, size: nat)
    requires AllOk(hdrs, q, live, big, pages) && a != 0 && 0 < size < PAGE && FreshRun(hdrs, big, pages, a, PAGE)
    ensures FreeBytes(Cut(hdrs, a, size, PAGE), [a + size] + q) == FreeBytes(hdrs, q) + PAGE - size
  {
    hide AllOk, FreshRun, FreeBytes;
    OutsideNewPage(hdrs, q, live, big, pages, a, size);
    forall k: nat | k in q
      ensures SizeAt(Cut(hdrs, a, size, PAGE), k) == SizeAt(hdrs, k)
    {
      assert k in Elements(q);
    }
    FreeBytesSame(hdrs, Cut(hdrs, a, size, PAGE), q);
    FreeBytesWith(Cut(hdrs, a, size, PAGE), a + size, q);
  }

  lemma SplitBytes(hdrs: Headers, q: seq<nat>, live: map<nat, nat>, big: map<nat, nat>, pages: set<nat>, h: nat, size: nat)
    requires AllOk(hdrs, q, live, big, pages) && h in q && h in hdrs && HDR <= size && Aligned(size)
    requires hdrs[h].size >= size + 2 * HDR
    ensures FreeBytes(Cut(hdrs, h, size, hdrs[h].size), [h + size] + Remove<nat>(q, h)) + size == FreeBytes(hdrs, q)
  {
    hide HeapOk, PageOf, Aligned, BigOk, FlagsOk, FreeBytes;
    var hdrs', rest := Cut(hdrs, h, size, hdrs[h].size), Remove<nat>(q, h);
    RestIsNew(hdrs, Elements(q), live.Keys, pages, h, size);
    forall k: nat | k in rest
      ensures SizeAt(hdrs', k) == SizeAt(hdrs, k)
    {
      assert k in Elements(q);
    }
    FreeBytesSame(hdrs, hdrs', rest);
    FreeBytesWith(hdrs', h + size, rest);
    FreeBytesWithout(hdrs, h, q);
  }

  lemma WholeBlockBytes(hdrs: Headers, q: seq<nat>, live: map<nat, nat>, big: map<nat, nat>, pages: set<nat>, h: nat)
    requires AllOk(hdrs, q, live, big, pages) && h in q && h in hdrs
    ensures FreeBytes(hdrs[h := Header(hdrs[h].size, false)], Remove<nat>(q, h)) + hdrs[h].size == FreeBytes(hdrs, q)
  {
    hide HeapOk, BigOk, FlagsOk, FreeBytes;
    FreeBytesSame(hdrs, hdrs[h := Header(hdrs[h].size, false)], Remove<nat>(q, h));
    FreeBytesWithout(hdrs, h, q);
  }

  lemma OnePage()
    ensures PageCount(PAGE) == 1 && Held(PAGE) == PAGE
  {
  }

  lemma BlockSize(hdrs: Headers, q: seq<nat>, live: map<nat, nat>, big: map<nat, nat>, pages: set<nat>, h: nat)
    requires AllOk(hdrs, q, live, big, pages) && h in q
    ensures h in hdrs && HDR <= hdrs[h].size < PAGE
  {
    hide PageOf, Aligned, Coalesced, PagesInUse, FlagsOk, BigOk;
    assert h in Elements(q);
    assert Block(Elements(q), live.Keys, h) && BlockOk(hdrs, Elements(q), live.Keys, pages, h);
  }

  /** A request served from a heap page fits exactly when its size did not overflow. */
  lemma SmallFits(asize: nat)
    requires asize < WORD && RequestSize(asize) < PAGE
    ensures Fits(asize) <==> asize + HDR + ALIGN - 1 < WORD
    ensures RequestSize(asize) < HDR ==> Room(asize) == 0
    ensures RequestSize(asize) >= HDR ==> HDR + Room(asize) <= RequestSize(asize)
    ensures !Fits(asize) ==> asize > PAGE
  {
    hide RequestSize, RunSize;
    RequestFits(asize);
    RunRounds(RequestSize(asize));
    if asize + HDR + ALIGN - 1 >= WORD {
      RequestOverflows(asize);
    }
  }

  datatype Freed = Trap | Nothing | BlockFreed | PagesFreed(addr: nat, count: nat)

  class Allocator {
    var hdrs: Headers
    var freelist: seq<nat>
    ghost var live: map<nat, nat>   // headers of live blocks in heap pages, with the bytes asked for
    ghost var big: map<nat, nat>    // headers of live whole-page runs, likewise
    ghost var pages: set<nat>       // the heap pages

    ghost predicate Valid()
      reads this
    {
      AllOk(hdrs, freelist, live, big, pages)
    }

    constructor ()
      ensures Valid() && live == map[] && big == map[] && pages == {} && freelist == []
    {
      hdrs, freelist, live, big, pages := map[], [], map[], map[], {};
    }

    /** maybe_split: cut the block to `size` if enough is left to make another free block. */
    method MaybeSplit(h: nat, size: nat, block: nat)
      requires size <= block
      modifies this`hdrs, this`freelist
      ensures block - size >= 2 * HDR ==> hdrs == Cut(old(hdrs), h, size, block) && freelist == [h + size] + old(freelist)
      ensures block - size < 2 * HDR ==> hdrs == old(hdrs)[h := Header(block, false)] && freelist == old(freelist)
    {
      var leftover := block - size;
      if leftover >= 2 * HDR {
        hdrs := hdrs[h + size := Header(leftover, true)];
        freelist := [h + size] + freelist;
        hdrs := hdrs[h := Header(size, false)];
      } else {
        hdrs := hdrs[h := Header(block, false)];
      }
    }

    /** The first-fit search of guk_xmalloc. */
    method Search(size: nat) returns (found: int)
      requires Valid()
      ensures found == FirstFit(hdrs, freelist, size)
    {
      hide HeapOk;
      found := -1;
      var k := 0;
      assert freelist[0..] == freelist;
      while k < |freelist|
        invariant 0 <= k <= |freelist| && found == -1
        invariant FirstFit(hdrs, freelist, size) == FirstFit(hdrs, freelist[k..], size)
      {
        assert freelist[k] in Elements(freelist);
        if hdrs[freelist[k]].size >= size {
          found := freelist[k];
          break;
        }
        k := k + 1;
      }
    }

    /**
     * guk_xmalloc, given what the page allocator returns if it is asked. The block comes from the
     * first fitting free block, else from fresh pages; no live block changes. The heap stays sound
     * exactly when no block smaller than a header is cut, and the block has room for the request
     * exactly when neither its size nor its page count is cut short.
     */
    method Malloc(asize: nat, got: nat) returns (p: nat)
      requires Valid() && asize < WORD
      requires FreshRun(hdrs, big, pages, got, RunBytes(RequestSize(asize)))
      modifies this
      ensures Valid() <==> !CutsTooSmall(old(hdrs), old(freelist), RequestSize(asize), got)
      ensures var size := RequestSize(asize);
        var fit := if size >= PAGE then -1 else FirstFit(old(hdrs), old(freelist), size);
        p == if fit != -1 then fit + HDR else if got != 0 then got + HDR else 0
      ensures p == 0 ==> hdrs == old(hdrs) && freelist == old(freelist) && live == old(live) && big == old(big) && pages == old(pages)
      ensures p != 0 ==> p >= HDR && p - HDR !in old(live) && p - HDR !in old(big)
      ensures p != 0 ==> (live == old(live)[p - HDR := Room(asize)] && big == old(big)) || (live == old(live) && big == old(big)[p - HDR := Room(asize)])
      ensures p != 0 ==> p - HDR in hdrs && (Extent(hdrs, big, p - HDR) >= HDR + asize <==> Fits(asize))
      ensures p != 0 && RequestSize(asize) < PAGE ==> p - HDR in hdrs && Extent(hdrs, big, p - HDR) < RequestSize(asize) + 2 * HDR
      ensures Valid() && p != 0 && RequestSize(asize) < PAGE ==>
                (p - HDR in hdrs
                 && FreeBytes(hdrs, freelist) + Extent(hdrs, big, p - HDR) ==
                    FreeBytes(old(hdrs), old(freelist)) + if FirstFit(old(hdrs), old(freelist), RequestSize(asize)) == -1 then PAGE else 0)
      ensures RequestSize(asize) >= PAGE ==> FreeBytes(hdrs, freelist) == FreeBytes(old(hdrs), old(freelist)) && freelist == old(freelist)
      ensures Kept(old(hdrs), hdrs, old(live), old(big))
    {
      hide HeapOk, FlagsOk, BigOk, Kept, PageOf, Aligned, FreshRun, RunSize, PageCount, RequestSize, Held, FreeBytes;
      RequestFits(asize);
      var size := RequestSize(asize);
      if size >= PAGE {
        p := WholePages(asize, size, got);
        return;
      }
      SmallFits(asize);
      var fit := Search(size);
      if fit == -1 {
        p := NewPage(Room(asize), size, got);
        return;
      }
      p := FromFreeBlock(Room(asize), size, fit);
    }

    /** xmalloc_whole_pages. The header keeps the whole size, the page allocator sees its count as an int. */
    method WholePages(ghost asize: nat, size: nat, got: nat) returns (p: nat)
      requires Valid() && asize < WORD && size == RequestSize(asize) && size >= PAGE && FreshRun(hdrs, big, pages, got, RunBytes(size))
      modifies this`hdrs, this`big
      ensures Valid() && p == if got != 0 then got + HDR else 0
      ensures got == 0 ==> hdrs == old(hdrs) && big == old(big)
      ensures got != 0 ==> got !in live && got !in old(big) && big == old(big)[got := Room(asize)]
      ensures got != 0 ==> hdrs == old(hdrs)[got := Header(RunSize(size), false)] && Held(RunSize(size)) == RunBytes(size)
      ensures got != 0 ==> (Held(RunSize(size)) >= HDR + asize <==> Fits(asize))
      ensures Kept(old(hdrs), hdrs, live, old(big)) && FreeBytes(hdrs, freelist) == FreeBytes(old(hdrs), freelist)
    {
      hide FreeBytes, HeapOk, PageOf, Aligned, RequestSize, RunSize, PageCount, FlagsOk, BigOk, Kept, Fits;
      if got == 0 {
        NothingChanged(hdrs, freelist, live, big, pages);
        return 0;
      }
      var run := RunSize(size);
      HeldPages(run);
      RunHasRoom(asize);
      NewRunKeeps(hdrs, freelist, live, big, pages, got, run, Room(asize));
      NewRunBytes(hdrs, freelist, live, big, pages, got, run);
      hdrs := hdrs[got := Header(run, false)];
      big := big[got := Room(asize)];
      p := got + HDR;
    }

    /** xmalloc_new_page; a page too small to split is handed out whole. */
    method NewPage(ghost asize: nat, size: nat, got: nat) returns (p: nat)
      requires Valid() && size < PAGE && Aligned(size) && FreshRun(hdrs, big, pages, got, PAGE)
      requires if size < HDR then asize == 0 else HDR + asize <= size
      modifies this
      ensures (Valid() <==> size >= HDR || got == 0) && p == if got != 0 then got + HDR else 0
      ensures got == 0 ==> hdrs == old(hdrs) && big == old(big) && live == old(live) && freelist == old(freelist) && pages == old(pages)
      ensures got != 0 ==> got !in old(live) && got !in old(big)
      ensures got != 0 ==> (live == old(live)[got := asize] && big == old(big)) || (live == old(live) && big == old(big)[got := asize])
      ensures got != 0 ==> got in hdrs && size <= Extent(hdrs, big, got) <= PAGE && Extent(hdrs, big, got) < size + 2 * HDR
      ensures got != 0 && size >= HDR ==> FreeBytes(hdrs, freelist) + Extent(hdrs, big, got) == FreeBytes(old(hdrs), old(freelist)) + PAGE
      ensures Kept(old(hdrs), hdrs, old(live), old(big))
    {
      hide FreeBytes, HeapOk, PageOf, Aligned, FlagsOk, BigOk, FreshRun, Kept, PageCount, Held, AllOk;
      if got == 0 {
        NothingChanged(hdrs, freelist, live, big, pages);
        return 0;
      }
      OnePage();
      if PAGE - size >= 2 * HDR {
        OutsideNewPage(hdrs, freelist, live, big, pages, got, size);
        if size >= HDR {
          NewPageKeeps(hdrs, freelist, live, big, pages, got, size, asize);
          NewPageBytes(hdrs, freelist, live, big, pages, got, size);
        } else {
          SmallBlockBreaks(Cut(hdrs, got, size, PAGE), [got + size] + freelist, live[got := asize], big, pages + {got}, got);
        }
        live := live[got := asize];
        pages := pages + {got};
      } else {
        NewRunKeeps(hdrs, freelist, live, big, pages, got, PAGE, asize);
        NewRunBytes(hdrs, freelist, live, big, pages, got, PAGE);
        big := big[got := asize];
      }
      MaybeSplit(got, size, PAGE);
      p := got + HDR;
    }

    /** The search succeeded: take the block off the list and split it. */
    method FromFreeBlock(ghost asize: nat, size: nat, i: nat) returns (p: nat)
      requires Valid() && size < PAGE && Aligned(size)
      requires if size < HDR then asize == 0 else HDR + asize <= size
      requires i in freelist && i in hdrs && hdrs[i].size >= size
      modifies this
      ensures Valid() <==> size >= HDR || old(hdrs)[i].size < size + 2 * HDR
      ensures p == i + HDR && i !in old(live) && i !in old(big) && pages == old(pages)
      ensures live == old(live)[i := asize] && big == old(big)
      ensures i in hdrs && size <= Extent(hdrs, big, i) <= PAGE && Extent(hdrs, big, i) < size + 2 * HDR
      ensures Valid() ==> FreeBytes(hdrs, freelist) + Extent(hdrs, big, i) == FreeBytes(old(hdrs), old(freelist))
      ensures Kept(old(hdrs), hdrs, old(live), old(big))
    {
      hide FreeBytes, HeapOk, PageOf, Aligned, FlagsOk, BigOk, Kept, AllOk;
      BlockSize(hdrs, freelist, live, big, pages, i);
      if hdrs[i].size - size >= 2 * HDR {
        CutKeepsLive(hdrs, freelist, live, big, pages, i, size);
        if size >= HDR {
          SplitKeeps(hdrs, freelist, live, big, pages, i, size, asize);
          SplitBytes(hdrs, freelist, live, big, pages, i, size);
        } else {
          SmallBlockBreaks(Cut(hdrs, i, size, hdrs[i].size), [i + size] + Remove<nat>(freelist, i), live[i := asize], big, pages, i);
        }
      } else {
        WholeBlockKeeps(hdrs, freelist, live, big, pages, i, asize);
        WholeBlockBytes(hdrs, freelist, live, big, pages, i);
      }
      freelist := Remove<nat>(freelist, i);
      live := live[i := asize];
      MaybeSplit(i, size, hdrs[i].size);
      p := i + HDR;
    }

    /**
     * guk_xfree of a pointer that guk_xmalloc returned and nobody freed since. None of its traps is
     * reached, the block's free neighbours are merged with it, and its page goes back exactly when
     * no other live block is left in it.
     */
    method Free(p: nat) returns (r: Freed)
      requires Valid() && (p == 0 || (p >= HDR && (p - HDR in live || p - HDR in big)))
      modifies this
      ensures Valid() && r != Trap
      ensures p == 0 ==> r == Nothing && hdrs == old(hdrs) && freelist == old(freelist)
      ensures p == 0 ==> live == old(live) && big == old(big) && pages == old(pages)
      ensures p != 0 ==> live == old(live) - {p - HDR} && big == old(big) - {p - HDR} && Kept(old(hdrs), hdrs, live, big)
      ensures p != 0 && p - HDR in old(big) ==>
                r.PagesFreed? && r.addr == p - HDR && p - HDR in old(hdrs) && r.count * PAGE == Held(old(hdrs)[p - HDR].size) && pages == old(pages)
      ensures p != 0 && p - HDR in old(live) ==>
                && r == (if Alone(old(live).Keys, p - HDR) then PagesFreed(PageOf(p - HDR), 1) else BlockFreed)
                && pages == (if r.PagesFreed? then old(pages) - {PageOf(p - HDR)} else old(pages))
                && (r == BlockFreed ==> HeadCovers(hdrs, freelist, p - HDR))
      ensures p != 0 && p - HDR in old(live) ==>
                FreeBytes(hdrs, freelist) + (if r.PagesFreed? then PAGE else 0) == FreeBytes(old(hdrs), old(freelist)) + SizeAt(old(hdrs), p - HDR)
      ensures p != 0 && p - HDR in old(big) ==> hdrs == old(hdrs) && freelist == old(freelist)
    {
      hide HeapOk, PageOf, FlagsOk, BigOk, Alone, PageCount, Held, FreeBytes;
      if p == 0 {
        return Nothing;
      }
      var hdr := p - HDR;
      HeaderChecks(hdrs, freelist, live, big, pages, hdr);
      if PageOf(p) != PageOf(hdr) {
        return Trap;
      }
      if hdrs[hdr].linked {
        return Trap;
      }
      if hdrs[hdr].size >= PAGE {
        FreeRunKeeps(hdrs, freelist, live, big, pages, hdr);
        big := big - {hdr};
        assert live - {hdr} == live;
        return PagesFreed(hdr, PageCount(hdrs[hdr].size));
      }
      r := MergeAndFree(hdr);
    }

    /** The part of guk_xfree that holds the free list lock. */
    method MergeAndFree(h: nat) returns (r: Freed)
      requires Valid() && h in live && h in hdrs
      modifies this
      ensures Valid() && r != Trap
      ensures live == old(live) - {h} && big == old(big) - {h} && Kept(old(hdrs), hdrs, live, big)
      ensures r == (if Alone(old(live).Keys, h) then PagesFreed(PageOf(h), 1) else BlockFreed)
      ensures pages == (if r.PagesFreed? then old(pages) - {PageOf(h)} else old(pages))
      ensures r == BlockFreed ==> HeadCovers(hdrs, freelist, h)
      ensures FreeBytes(hdrs, freelist) + (if r.PagesFreed? then PAGE else 0) == FreeBytes(old(hdrs), old(freelist)) + SizeAt(old(hdrs), h)
    {
      hide HeapOk, PageOf, FlagsOk, BigOk, MergeLoop, Alone, Kept, FreeBytes;
      var hdr: nat := h;
      ghost var e: nat := h + hdrs[h].size;
      var q, k := freelist, 0;
      PageBounds(h);
      MergeLoopStarts(hdrs, q, h);
      while k < |q|
        invariant k <= |q| && MergeLoop(old(hdrs), hdrs, q, freelist, k, h, hdr, e)
        invariant live == old(live) && big == old(big) && pages == old(pages)
      {
        var i, start := q[k], hdr;
        MergeLoopNext(old(hdrs), hdrs, q, freelist, live.Keys, pages, k, h, hdr, e);
        k := k + 1;
        if PageOf(i) != PageOf(start) {
          continue;
        }
        if i + hdrs[i].size == start {
          freelist := Remove<nat>(freelist, i);
          hdrs := hdrs[i := hdrs[i].(size := hdrs[i].size + hdrs[hdr].size)];
          hdr := i;
        }
        if start + hdrs[hdr].size == i {
          freelist := Remove<nat>(freelist, i);
          e := i + hdrs[i].size;
          hdrs := hdrs[hdr := hdrs[hdr].(size := hdrs[hdr].size + hdrs[i].size)];
        }
      }
      MergeLoopEnds(old(hdrs), hdrs, q, freelist, live.Keys, big, pages, h, hdr, e);
      live := live - {h};
      if hdrs[hdr].size == PAGE {
        FreePageKeeps(old(hdrs), hdrs, q, freelist, old(live), big, pages, h, hdr, e);
        if hdr % PAGE != 0 {
          return Trap;
        }
        pages := pages - {PageOf(h)};
        r := PagesFreed(hdr, 1);
      } else {
        FreeBlockKeeps(old(hdrs), hdrs, q, freelist, old(live), big, pages, h, hdr, e);
        freelist := [hdr] + freelist;
        hdrs := hdrs[hdr := hdrs[hdr].(linked := true)];
        r := BlockFreed;
      }
    }
  }
}
