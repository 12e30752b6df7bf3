/**
  Building and walking 4-level page tables (arch/x86/mm.c, x86_64; 4-level paging, section 4.5 of
  the Intel SDM volume 3A). Table frames are read through the kernel's 1-1 mapping, so a table is
  found from its machine frame number; the hypervisor's mmu_update writes one entry.
  */
module PageTables {
  import opened Arithmetic
  import opened Common

  const ENTRIES := 512            // L1_PAGETABLE_ENTRIES
  const PAGE_SIZE := 4096
  const FRAMES := 0x100_0000_0000 // machine frames addressed by PADDR_BITS = 52
  const PAGES := 0x10_0000_0000   // virtual pages addressed by VADDR_BITS = 48
  const PRESENT := 0x1
  const RW := 0x2
  const USER := 0x4
  const ACCESSED := 0x20
  const DIRTY := 0x40

  const L1_PROT := PRESENT + RW + ACCESSED + USER
  const L1_PROT_RO := L1_PROT - RW
  const L2_PROT := PRESENT + RW + ACCESSED + DIRTY + USER // also L3_PROT and L4_PROT
  const L2_PROT_RO := L2_PROT - RW

  // ---------- Entries ----------

  function MakePte(mfn: nat, prot: nat): nat { mfn * PAGE_SIZE + prot }

  predicate Present(pte: nat) { pte % 2 == 1 }

  predicate Writable(pte: nat) { pte / 2 % 2 == 1 }

  /** pte_to_mfn. */
  function FrameOf(pte: nat): nat { (pte % (FRAMES * PAGE_SIZE)) / PAGE_SIZE }

  lemma PteRoundTrip(mfn: nat, prot: nat)
    requires mfn < FRAMES && prot < PAGE_SIZE && prot % 2 == 1
    ensures Present(MakePte(mfn, prot)) && FrameOf(MakePte(mfn, prot)) == mfn
  {
    var pte := MakePte(mfn, prot);
    assert pte % 2 == prot % 2 by {
      assert pte == 2 * (mfn * 2048) + prot;
    }
    DivModUnique(pte, FRAMES * PAGE_SIZE, 0, pte);
    DivModUnique(pte, PAGE_SIZE, mfn, prot);
  }

  lemma PteWritable(mfn: nat, prot: nat)
    requires prot < PAGE_SIZE
    ensures Writable(MakePte(mfn, prot)) <==> Writable(prot)
  {
    DivModSplit(prot, 2);
    DivModUnique(MakePte(mfn, prot), 2, mfn * 2048 + prot / 2, prot % 2);
    DivModSplit(prot / 2, 2);
    DivModUnique(mfn * 2048 + prot / 2, 2, mfn * 1024 + prot / 2 / 2, prot / 2 % 2);
  }

  // ---------- Tables ----------

  type Memory = map<nat, seq<nat>>

  /** What a table frame is for: its level, and which stretch of the address space it covers. */
  datatype Role = Role(level: nat, region: nat)

  /** The number of the level-`level` table region that virtual page p lies in. */
  function Region(p: nat, level: nat): nat {
    if level == 0 then p else Region(p, level - 1) / ENTRIES
  }

  /** The index used for page p in its table of the given level. */
  function Index(p: nat, level: nat): (i: nat)
    requires level > 0
    ensures i < ENTRIES
  {
    Region(p, level - 1) % ENTRIES
  }

  function Zeroed(): (t: seq<nat>)
    ensures |t| == ENTRIES && forall i :: 0 <= i < ENTRIES ==> t[i] == 0
  {
    seq(ENTRIES, _ => 0)
  }

  /** A present entry of an upper table leads to the table of the region it stands for. */
  ghost predicate EntryOk(mem: Memory, roles: map<nat, Role>, f: nat, i: nat)
    requires f in mem && f in roles && i < |mem[f]|
  {
    roles[f].level > 1 && Present(mem[f][i]) ==>
      var g := FrameOf(mem[f][i]);
      g in roles && roles[g] == Role(roles[f].level - 1, roles[f].region * ENTRIES + i)
  }

  ghost predicate Good(mem: Memory, roles: map<nat, Role>, root: nat) {
    && mem.Keys == roles.Keys
    && root in roles && roles[root] == Role(4, 0)
    && (forall f :: f in mem ==> |mem[f]| == ENTRIES && 1 <= roles[f].level <= 4 && f < FRAMES)
    && (forall f, i :: f in mem && 0 <= i < ENTRIES ==> EntryOk(mem, roles, f, i))
  }

  /** The table of the given level on the path of page p, if the walk gets there. */
  function TableAt(mem: Memory, root: nat, p: nat, level: nat): Option<nat>
    requires 1 <= level <= 4
    decreases 4 - level
  {
    if level == 4 then (if root in mem && |mem[root]| == ENTRIES then Some(root) else None)
    else
      var up := TableAt(mem, root, p, level + 1);
      if up.None? || up.value !in mem || |mem[up.value]| != ENTRIES then None
      else
        var pte := mem[up.value][Index(p, level + 1)];
        if Present(pte) then Some(FrameOf(pte)) else None
  }

  /** The last-level entry of page p, if all upper levels are present. */
  function Leaf(mem: Memory, root: nat, p: nat): Option<nat> {
    var t := TableAt(mem, root, p, 1);
    if t.None? || t.value !in mem || |mem[t.value]| != ENTRIES then None
    else Some(mem[t.value][Index(p, 1)])
  }

  /** The frame that page p is mapped to. */
  function Translate(mem: Memory, root: nat, p: nat): Option<nat> {
    var leaf := Leaf(mem, root, p);
    if leaf.None? || !Present(leaf.value) then None else Some(FrameOf(leaf.value))
  }

  lemma {:induction false} TableHasRole(mem: Memory, roles: map<nat, Role>, root: nat, p: nat, level: nat)
    requires Good(mem, roles, root) && 1 <= level <= 4 && p < PAGES
    ensures var t := TableAt(mem, root, p, level);
            t.Some? ==> t.value in roles && roles[t.value] == Role(level, Region(p, level))
    decreases 4 - level
  {
    if level == 4 {
      RootRegion(p);
    } else {
      TableHasRole(mem, roles, root, p, level + 1);
      var up := TableAt(mem, root, p, level + 1);
      if up.Some? {
        assert EntryOk(mem, roles, up.value, Index(p, level + 1));
      }
    }
  }

  lemma RootRegion(p: nat)
    requires p < PAGES
    ensures Region(p, 4) == 0
  {
    assert Region(p, 1) == p / 512;
    assert Region(p, 2) == p / 512 / 512;
    assert Region(p, 3) == p / 512 / 512 / 512;
  }

  // ---------- One entry written ----------

  /** mmu_update on one entry. */
  function Written(mem: Memory, f: nat, i: nat, pte: nat): Memory
    requires f in mem && i < |mem[f]|
  {
    var table: seq<nat> := mem[f][i := pte];
    mem[f := table]
  }

  lemma {:induction false} LeafWriteKeepsTables(mem: Memory, roles: map<nat, Role>, root: nat, t: nat, i: nat, pte: nat, p: nat, level: nat)
    requires Good(mem, roles, root) && t in mem && roles[t].level == 1 && i < ENTRIES && 1 <= level <= 4 && p < PAGES
    ensures TableAt(Written(mem, t, i, pte), root, p, level) == TableAt(mem, root, p, level)
    decreases 4 - level
  {
    if level < 4 {
      LeafWriteKeepsTables(mem, roles, root, t, i, pte, p, level + 1);
      TableHasRole(mem, roles, root, p, level + 1);
    }
  }

  /** Writing a last-level entry changes the entry of exactly one page. */
  lemma LeafWrite(mem: Memory, roles: map<nat, Role>, root: nat, t: nat, i: nat, pte: nat, p: nat, q: nat)
    requires Good(mem, roles, root) && p < PAGES && q < PAGES
    requires TableAt(mem, root, q, 1) == Some(t) && i == Index(q, 1)
    ensures t in mem && i < |mem[t]|
    ensures Good(Written(mem, t, i, pte), roles, root)
    ensures Leaf(Written(mem, t, i, pte), root, p) == if p == q then Some(pte) else Leaf(mem, root, p)
  {
    hide Region, Index, FrameOf, Present;
    TableHasRole(mem, roles, root, q, 1);
    TableHasRole(mem, roles, root, p, 1);
    LeafWriteKeepsTables(mem, roles, root, t, i, pte, p, 1);
    LeafWriteKeepsGood(mem, roles, root, t, i, pte);
    SamePage(p, q);
  }

  lemma SamePage(p: nat, q: nat)
    ensures p == q <==> Region(p, 1) == Region(q, 1) && Index(p, 1) == Index(q, 1)
  {
    assert Region(p, 1) == p / 512 && Region(q, 1) == q / 512;
  }

  lemma LeafWriteKeepsGood(mem: Memory, roles: map<nat, Role>, root: nat, t: nat, i: nat, pte: nat)
    requires Good(mem, roles, root) && t in mem && roles[t].level == 1 && i < ENTRIES
    ensures Good(Written(mem, t, i, pte), roles, root)
  {
    var mem' := Written(mem, t, i, pte);
    forall f, k | f in mem' && 0 <= k < ENTRIES
      ensures EntryOk(mem', roles, f, k)
    {
      assert EntryOk(mem, roles, f, k);
    }
  }

  // ---------- A new table installed ----------

  /** An all-zero table g hung into the absent entry i of table f. */
  function Installed(mem: Memory, f: nat, i: nat, g: nat, prot: nat): Memory
    requires f in mem && i < |mem[f]| && g != f
  {
    Written(mem[g := Zeroed()], f, i, MakePte(g, prot))
  }

  /** g is a fresh frame for the entry i of table f, which is absent. */
  ghost predicate CanInstall(mem: Memory, roles: map<nat, Role>, root: nat, f: nat, i: nat, g: nat) {
    && Good(mem, roles, root) && f in mem && i < ENTRIES && roles[f].level > 1
    && !Present(mem[f][i]) && g !in mem && g < FRAMES
  }

  function RolesWith(roles: map<nat, Role>, f: nat, i: nat, g: nat): map<nat, Role>
    requires f in roles && roles[f].level > 0
  {
    roles[g := Role(roles[f].level - 1, roles[f].region * ENTRIES + i)]
  }

  lemma InstallKeepsGood(mem: Memory, roles: map<nat, Role>, root: nat, f: nat, i: nat, g: nat, prot: nat)
    requires CanInstall(mem, roles, root, f, i, g) && prot < PAGE_SIZE && prot % 2 == 1
    ensures Good(Installed(mem, f, i, g, prot), RolesWith(roles, f, i, g), root)
  {
    hide FrameOf, MakePte;
    PteRoundTrip(g, prot);
    var mem', roles' := Installed(mem, f, i, g, prot), RolesWith(roles, f, i, g);
    forall h, k | h in mem' && 0 <= k < ENTRIES
      ensures EntryOk(mem', roles', h, k)
    {
      if h != g {
        assert EntryOk(mem, roles, h, k);
      }
    }
  }

  /** Tables that were on a path stay on it; a path that is longer now only reaches the new table. */
  lemma {:induction false} InstallTables(mem: Memory, roles: map<nat, Role>, root: nat, f: nat, i: nat, g: nat, prot: nat, p: nat, level: nat)
    requires CanInstall(mem, roles, root, f, i, g) && prot < PAGE_SIZE && prot % 2 == 1 && 1 <= level <= 4 && p < PAGES
    ensures var t, t' := TableAt(mem, root, p, level), TableAt(Installed(mem, f, i, g, prot), root, p, level);
            (t.Some? ==> t' == t) && (t.None? ==> t' == None || t' == Some(g))
    decreases 4 - level
  {
    hide FrameOf, MakePte;
    PteRoundTrip(g, prot);
    if level < 4 {
      InstallTables(mem, roles, root, f, i, g, prot, p, level + 1);
      TableHasRole(mem, roles, root, p, level + 1);
    }
  }

  /** The last-level entry of a page once new tables are hung in: the same, or zero if there was none and is one now. */
  function LeafOrZero(mem: Memory, mem': Memory, root: nat, p: nat): Option<nat> {
    if Leaf(mem, root, p).Some? then Leaf(mem, root, p) else if TableAt(mem', root, p, 1).Some? then Some(0) else None
  }

  /** Installing a table keeps every last-level entry; those it opens are zero. */
  lemma InstallKeepsLeaves(mem: Memory, roles: map<nat, Role>, root: nat, f: nat, i: nat, g: nat, prot: nat, p: nat)
    requires CanInstall(mem, roles, root, f, i, g) && prot < PAGE_SIZE && prot % 2 == 1 && p < PAGES
    ensures Leaf(Installed(mem, f, i, g, prot), root, p) == LeafOrZero(mem, Installed(mem, f, i, g, prot), root, p)
  {
    hide TableAt, FrameOf, Present, Region;
    InstallTables(mem, roles, root, f, i, g, prot, p, 1);
    TableHasRole(mem, roles, root, p, 1);
    InstallKeepsGood(mem, roles, root, f, i, g, prot);
    TableHasRole(Installed(mem, f, i, g, prot), RolesWith(roles, f, i, g), root, p, 1);
  }

  /** And the path of a page that stopped at entry i of f goes on to g. */
  lemma InstallExtends(mem: Memory, roles: map<nat, Role>, root: nat, f: nat, i: nat, g: nat, prot: nat, p: nat, level: nat)
    requires CanInstall(mem, roles, root, f, i, g) && prot < PAGE_SIZE && prot % 2 == 1 && p < PAGES && 1 <= level < 4
    requires TableAt(mem, root, p, level + 1) == Some(f) && i == Index(p, level + 1)
    ensures TableAt(Installed(mem, f, i, g, prot), root, p, level) == Some(g)
  {
    hide FrameOf, MakePte;
    PteRoundTrip(g, prot);
    InstallTables(mem, roles, root, f, i, g, prot, p, level + 1);
  }

  // ---------- What a step may change ----------

  /** `own` are the pages whose last-level entry was replaced; the others keep theirs, or gain an empty one. */
  ghost predicate LeavesAfter(mem: Memory, mem': Memory, root: nat, own: map<nat, nat>) {
    forall p :: 0 <= p < PAGES ==>
      Leaf(mem', root, p) == if p in own then Some(own[p]) else LeafOrZero(mem, mem', root, p)
  }

  /** Every table that a walk reached, it still reaches. */
  ghost predicate KeepsTables(mem: Memory, mem': Memory, root: nat) {
    forall p, level :: 0 <= p < PAGES && 1 <= level <= 4 && TableAt(mem, root, p, level).Some? ==>
      TableAt(mem', root, p, level) == TableAt(mem, root, p, level)
  }

  /** The only pages that gain a table are those of region r, and only of this level. */
  ghost predicate OpensOnly(mem: Memory, mem': Memory, root: nat, level: nat, r: nat) {
    forall p, l :: 0 <= p < PAGES && 1 <= l < 4 && TableAt(mem, root, p, l).None? && TableAt(mem', root, p, l).Some? ==>
      l == level && Region(p, l) == r
  }

  /** The only pages that gain a table share it with page q. */
  ghost predicate OpensPath(mem: Memory, mem': Memory, root: nat, q: nat) {
    forall p, l :: 0 <= p < PAGES && 1 <= l < 4 && TableAt(mem, root, p, l).None? && TableAt(mem', root, p, l).Some? ==>
      Region(p, l) == Region(q, l)
  }

  /** The entry that leads to the table of the given level on the path of page p. */
  function Above(mem: Memory, root: nat, p: nat, level: nat): Option<nat>
    requires 1 <= level < 4
  {
    var up := TableAt(mem, root, p, level + 1);
    if up.None? || up.value !in mem || |mem[up.value]| != ENTRIES then None else Some(mem[up.value][Index(p, level + 1)])
  }

  /** Entries that lead to a table stay as they are, and those that lead to a new one are writable. */
  ghost predicate UppersGrow(mem: Memory, mem': Memory, root: nat) {
    forall p, l :: 0 <= p < PAGES && 1 <= l < 4 && TableAt(mem', root, p, l).Some? ==> UpperOk(mem, mem', root, p, l)
  }

  ghost predicate UpperOk(mem: Memory, mem': Memory, root: nat, p: nat, l: nat)
    requires 1 <= l < 4
  {
    if TableAt(mem, root, p, l).Some? then Above(mem', root, p, l) == Above(mem, root, p, l)
    else Above(mem', root, p, l).Some? && Writable(Above(mem', root, p, l).value)
  }

  lemma UppersThrough(a: Memory, b: Memory, c: Memory, root: nat)
    requires UppersGrow(a, b, root) && UppersGrow(b, c, root) && KeepsTables(a, b, root)
    ensures UppersGrow(a, c, root)
  {
    hide TableAt, Above, Writable;
    forall p, l | 0 <= p < PAGES && 1 <= l < 4 && TableAt(c, root, p, l).Some?
      ensures UpperOk(a, c, root, p, l)
    {
      assert UpperOk(b, c, root, p, l);
      if TableAt(b, root, p, l).Some? {
        assert UpperOk(a, b, root, p, l);
      }
    }
  }

  lemma UppersStay(mem: Memory, root: nat)
    ensures UppersGrow(mem, mem, root)
  {
    hide TableAt, Above, Writable;
  }

  /** Writing a last-level entry leaves the upper ones alone. */
  lemma LeafWriteKeepsUppers(mem: Memory, roles: map<nat, Role>, root: nat, t: nat, j: nat, pte: nat)
    requires Good(mem, roles, root) && t in mem && roles[t].level == 1 && j < ENTRIES
    ensures UppersGrow(mem, Written(mem, t, j, pte), root)
  {
    hide FrameOf, Present, Writable, Region, TableAt;
    var mem' := Written(mem, t, j, pte);
    forall p, l | 0 <= p < PAGES && 1 <= l < 4 && TableAt(mem', root, p, l).Some?
      ensures UpperOk(mem, mem', root, p, l)
    {
      LeafWriteKeepsTables(mem, roles, root, t, j, pte, p, l);
      LeafWriteKeepsTables(mem, roles, root, t, j, pte, p, l + 1);
      TableHasRole(mem, roles, root, p, l + 1);
    }
  }

  /** Hanging in a table adds one upper entry, which is writable. */
  lemma InstallKeepsUppers(mem: Memory, roles: map<nat, Role>, root: nat, f: nat, i: nat, g: nat)
    requires CanInstall(mem, roles, root, f, i, g)
    ensures UppersGrow(mem, Installed(mem, f, i, g, L2_PROT), root)
  {
    hide TableAt, Writable, FrameOf, MakePte, Region, UpperOk;
    var mem' := Installed(mem, f, i, g, L2_PROT);
    forall p, l | 0 <= p < PAGES && 1 <= l < 4 && TableAt(mem', root, p, l).Some?
      ensures UpperOk(mem, mem', root, p, l)
    {
      InstallUpper(mem, roles, root, f, i, g, p, l);
    }
  }

  lemma InstallUpper(mem: Memory, roles: map<nat, Role>, root: nat, f: nat, i: nat, g: nat, p: nat, l: nat)
    requires CanInstall(mem, roles, root, f, i, g) && p < PAGES && 1 <= l < 4
    requires TableAt(Installed(mem, f, i, g, L2_PROT), root, p, l).Some?
    ensures UpperOk(mem, Installed(mem, f, i, g, L2_PROT), root, p, l)
  {
    hide FrameOf, MakePte, Writable, Region;
    var mem' := Installed(mem, f, i, g, L2_PROT);
    InstallTables(mem, roles, root, f, i, g, L2_PROT, p, l);
    InstallTables(mem, roles, root, f, i, g, L2_PROT, p, l + 1);
    TableHasRole(mem, roles, root, p, l + 1);
    PteWritable(g, L2_PROT);
    ProtBits();
    var u := TableAt(mem', root, p, l + 1).value;
    if u in mem {
      assert EntryOk(mem, roles, u, Index(p, l + 1));
    }
  }

  /** Every walk meets the same tables. */
  ghost predicate SameTables(mem: Memory, mem': Memory, root: nat) {
    forall p, l :: 0 <= p < PAGES && 1 <= l <= 4 ==> TableAt(mem', root, p, l) == TableAt(mem, root, p, l)
  }

  /** No page gains a last-level table. */
  ghost predicate OpensNone(mem: Memory, mem': Memory, root: nat) {
    forall p :: 0 <= p < PAGES && TableAt(mem', root, p, 1).Some? ==> TableAt(mem, root, p, 1).Some?
  }

  /** Paths that ended at the absent entry i of table f go on to table g. */
  ghost predicate LeadsTo(mem: Memory, mem': Memory, root: nat, f: nat, i: nat, g: nat) {
    forall p, level :: 0 <= p < PAGES && 1 <= level < 4 && TableAt(mem, root, p, level + 1) == Some(f) && i == Index(p, level + 1) ==>
      TableAt(mem', root, p, level) == Some(g)
  }

  /** The last-level entry of the page at which the 1-1 mapping shows frame f, read-write. */
  ghost predicate OneToOne(leaf: Option<nat>, f: nat) {
    leaf.Some? && Present(leaf.value) && FrameOf(leaf.value) == f && Writable(leaf.value)
  }

  /**
    A frame for a new table: not a table yet, reachable read-write through its own 1-1 page, and that
    page is outside [lo, hi).
    */
  ghost predicate FreshFrame(mem: Memory, root: nat, virt: nat -> nat, f: int, lo: nat, hi: nat) {
    && 0 <= f < FRAMES && f !in mem
    && virt(f) < PAGES && OneToOne(Leaf(mem, root, virt(f)), f) && !(lo <= virt(f) < hi)
  }

  /** The frames that the table callback still has to offer (a negative result is a failure) are fresh and distinct. */
  ghost predicate Supply(mem: Memory, root: nat, virt: nat -> nat, npf: nat -> int, from: nat, lo: nat, hi: nat) {
    && (forall i :: from <= i && npf(i) >= 0 ==> FreshFrame(mem, root, virt, npf(i), lo, hi))
    && (forall i, j :: from <= i < j && npf(i) >= 0 && npf(j) >= 0 ==> npf(i) != npf(j))
  }

  /** The RO update of new_pt_frame and the installation, on the memory: nothing is mapped or unmapped. */
  function NewTable(mem: Memory, t: nat, j: nat, ro: nat, f: nat, i: nat, g: nat): Memory
    requires t in mem && j < |mem[t]| && f in mem && i < |mem[f]| && g !in mem && t != f
  {
    Installed(Written(mem, t, j, MakePte(g, ro)), f, i, g, L2_PROT)
  }

  /** The order in which new_pt_frame works: clear, then the two updates. */
  lemma NewTableSteps(mem: Memory, t: nat, j: nat, ro: nat, f: nat, i: nat, g: nat)
    requires t in mem && j < |mem[t]| && f in mem && i < |mem[f]| && g !in mem && t != f
    ensures Written(Written(mem[g := Zeroed()], t, j, MakePte(g, ro)), f, i, MakePte(g, L2_PROT)) == NewTable(mem, t, j, ro, f, i, g)
    ensures NewTable(mem, t, j, ro, f, i, g).Keys == mem.Keys + {g}
  {
  }

  lemma GoodTables(mem: Memory, roles: map<nat, Role>, root: nat, f: nat)
    requires Good(mem, roles, root) && f in mem
    ensures |mem[f]| == ENTRIES && f in roles
  {
  }

  lemma LeafHasTable(mem: Memory, root: nat, p: nat)
    requires Leaf(mem, root, p).Some?
    ensures TableAt(mem, root, p, 1).Some?
  {
  }

  lemma NewTableOk(mem: Memory, roles: map<nat, Role>, root: nat, virt: nat -> nat, t: nat, ro: nat, f: nat, i: nat, g: nat)
    requires CanInstall(mem, roles, root, f, i, g) && ro < PAGE_SIZE && ro % 2 == 1
    requires virt(g) < PAGES && TableAt(mem, root, virt(g), 1) == Some(t)
    ensures t in mem && t != f && |mem[t]| == ENTRIES
    ensures var mem' := NewTable(mem, t, Index(virt(g), 1), ro, f, i, g);
            Good(mem', RolesWith(roles, f, i, g), root) && KeepsTables(mem, mem', root) && LeadsTo(mem, mem', root, f, i, g)
            && LeavesAfter(mem, mem', root, map[virt(g) := MakePte(g, ro)])
            && OpensOnly(mem, mem', root, roles[f].level - 1, roles[f].region * ENTRIES + i) && UppersGrow(mem, mem', root)
  {
    hide MakePte, FrameOf, Present, Leaf;
    var q, j := virt(g), Index(virt(g), 1);
    TableHasRole(mem, roles, root, q, 1);
    var mem1 := Written(mem, t, j, MakePte(g, ro));
    LeafWrite(mem, roles, root, t, j, MakePte(g, ro), q, q);
    assert CanInstall(mem1, roles, root, f, i, g);
    InstallKeepsGood(mem1, roles, root, f, i, g, L2_PROT);
    var mem' := Installed(mem1, f, i, g, L2_PROT);
    assert UppersGrow(mem, mem', root) by {
      hide UppersGrow, TableAt, Region, Index;
      LeafWriteKeepsUppers(mem, roles, root, t, j, MakePte(g, ro));
      InstallKeepsUppers(mem1, roles, root, f, i, g);
      LeafWriteKeepsAll(mem, roles, root, t, j, MakePte(g, ro));
      UppersThrough(mem, mem1, mem', root);
    }
    forall p | 0 <= p < PAGES
      ensures Leaf(mem', root, p) == if p == q then Some(MakePte(g, ro)) else LeafOrZero(mem, mem', root, p)
    {
      LeafWrite(mem, roles, root, t, j, MakePte(g, ro), p, q);
      InstallKeepsLeaves(mem1, roles, root, f, i, g, L2_PROT, p);
    }
    forall p, level | 0 <= p < PAGES && 1 <= level <= 4 && TableAt(mem, root, p, level).Some?
      ensures TableAt(mem', root, p, level) == TableAt(mem, root, p, level)
    {
      LeafWriteKeepsTables(mem, roles, root, t, j, MakePte(g, ro), p, level);
      InstallTables(mem1, roles, root, f, i, g, L2_PROT, p, level);
    }
    forall p, level | 0 <= p < PAGES && 1 <= level < 4 && TableAt(mem, root, p, level + 1) == Some(f) && i == Index(p, level + 1)
      ensures TableAt(mem', root, p, level) == Some(g)
    {
      LeafWriteKeepsTables(mem, roles, root, t, j, MakePte(g, ro), p, level + 1);
      InstallExtends(mem1, roles, root, f, i, g, L2_PROT, p, level);
    }
    forall p, l | 0 <= p < PAGES && 1 <= l < 4 && TableAt(mem, root, p, l).None? && TableAt(mem', root, p, l).Some?
      ensures l == roles[f].level - 1 && Region(p, l) == roles[f].region * ENTRIES + i
    {
      LeafWriteKeepsTables(mem, roles, root, t, j, MakePte(g, ro), p, l);
      InstallTables(mem1, roles, root, f, i, g, L2_PROT, p, l);
      TableHasRole(mem', RolesWith(roles, f, i, g), root, p, l);
    }
  }

  lemma LeafWriteKeepsAll(mem: Memory, roles: map<nat, Role>, root: nat, t: nat, j: nat, pte: nat)
    requires Good(mem, roles, root) && t in mem && roles[t].level == 1 && j < ENTRIES
    ensures KeepsTables(mem, Written(mem, t, j, pte), root)
  {
    hide TableAt;
    forall p, level | 0 <= p < PAGES && 1 <= level <= 4
      ensures TableAt(Written(mem, t, j, pte), root, p, level) == TableAt(mem, root, p, level)
    {
      LeafWriteKeepsTables(mem, roles, root, t, j, pte, p, level);
    }
  }

  // ---------- The pages of the new tables themselves ----------

  /** The protection that new_pt_frame gives the own page of a new table of the given level. */
  function ReadOnly(level: nat): nat { if level == 1 then L1_PROT_RO else L2_PROT_RO }

  /** The frames npf(from) to npf(end - 1) became tables: `own` are their own pages, outside [lo, hi), with their new entries. */
  ghost predicate OwnPages(own: map<nat, nat>, mem: Memory, root: nat, virt: nat -> nat, npf: nat -> int, from: nat, end: nat,
                           roles: map<nat, Role>, lo: nat, hi: nat)
  {
    && from <= end
    && (forall i :: from <= i < end && npf(i) >= 0 ==>
         npf(i) in roles && virt(npf(i)) in own && own[virt(npf(i))] == MakePte(npf(i), ReadOnly(roles[npf(i)].level)))
    && (forall p :: p in own ==> OwnPage(own[p], mem, root, virt, npf, from, end, lo, hi, p))
  }

  ghost predicate OwnPage(pte: nat, mem: Memory, root: nat, virt: nat -> nat, npf: nat -> int, from: nat, end: nat, lo: nat, hi: nat, p: nat) {
    && p < PAGES && !(lo <= p < hi)
    && exists i :: from <= i < end && 0 <= npf(i) < FRAMES && virt(npf(i)) == p && OneToOne(Leaf(mem, root, p), npf(i))
                   && (pte == MakePte(npf(i), L1_PROT_RO) || pte == MakePte(npf(i), L2_PROT_RO))
  }

  ghost predicate RolesGrow(roles: map<nat, Role>, roles': map<nat, Role>) {
    forall f :: f in roles ==> f in roles' && roles'[f] == roles[f]
  }

  lemma OwnNone(mem: Memory, root: nat, virt: nat -> nat, npf: nat -> int, from: nat, roles: map<nat, Role>, lo: nat, hi: nat)
    ensures OwnPages(map[], mem, root, virt, npf, from, from, roles, lo, hi)
  {
  }

  lemma OwnFailed(mem: Memory, root: nat, virt: nat -> nat, npf: nat -> int, from: nat, roles: map<nat, Role>, lo: nat, hi: nat)
    requires npf(from) < 0
    ensures OwnPages(map[], mem, root, virt, npf, from, from + 1, roles, lo, hi)
  {
  }

  lemma OwnOne(mem: Memory, root: nat, virt: nat -> nat, npf: nat -> int, from: nat, roles: map<nat, Role>, lo: nat, hi: nat)
    requires npf(from) >= 0 && FreshFrame(mem, root, virt, npf(from), lo, hi) && npf(from) in roles
    ensures OwnPages(map[virt(npf(from)) := MakePte(npf(from), ReadOnly(roles[npf(from)].level))], mem, root, virt, npf, from, from + 1,
                     roles, lo, hi)
  {
    hide MakePte, Leaf;
    var g, p := npf(from), virt(npf(from));
    assert OwnPage(MakePte(g, ReadOnly(roles[g].level)), mem, root, virt, npf, from, from + 1, lo, hi, p) by {
      assert from <= from < from + 1 && 0 <= npf(from) < FRAMES;
    }
  }

  /** A replaced entry is no longer writable, so no other frame shows there read-write. */
  lemma OwnIsReadOnly(pte: nat, mem: Memory, root: nat, virt: nat -> nat, npf: nat -> int, from: nat, end: nat, lo: nat, hi: nat, p: nat)
    requires OwnPage(pte, mem, root, virt, npf, from, end, lo, hi, p)
    ensures Present(pte) && !Writable(pte) && Leaf(mem, root, p).Some? && Leaf(mem, root, p) != Some(pte)
    ensures Present(Leaf(mem, root, p).value) && FrameOf(pte) == FrameOf(Leaf(mem, root, p).value)
  {
    hide MakePte, FrameOf, Present, Writable, Leaf;
    var i :| from <= i < end && 0 <= npf(i) < FRAMES && virt(npf(i)) == p && OneToOne(Leaf(mem, root, p), npf(i))
             && (pte == MakePte(npf(i), L1_PROT_RO) || pte == MakePte(npf(i), L2_PROT_RO));
    PteRoundTrip(npf(i), L1_PROT_RO);
    PteRoundTrip(npf(i), L2_PROT_RO);
    PteWritable(npf(i), L1_PROT_RO);
    PteWritable(npf(i), L2_PROT_RO);
    ProtBits();
  }

  lemma ProtBits()
    ensures !Writable(L1_PROT_RO) && !Writable(L2_PROT_RO) && Writable(L1_PROT) && Writable(L2_PROT)
  {
  }

  /** `mem` has, outside [lo, hi), the entries of mem0 except for those in `own` and for new empty ones. */
  ghost predicate LeavesOutside(mem0: Memory, mem: Memory, root: nat, own: map<nat, nat>, lo: nat, hi: nat) {
    forall p :: 0 <= p < PAGES && !(lo <= p < hi) ==>
      Leaf(mem, root, p) == if p in own then Some(own[p]) else LeafOrZero(mem0, mem, root, p)
  }

  lemma OwnPageBefore(own: map<nat, nat>, pte: nat, mem0: Memory, mem: Memory, root: nat, virt: nat -> nat, npf: nat -> int,
                      from: nat, mid: nat, end: nat, roles: map<nat, Role>, lo: nat, hi: nat, p: nat)
    requires OwnPages(own, mem0, root, virt, npf, from, mid, roles, lo, hi) && LeavesOutside(mem0, mem, root, own, lo, hi)
    requires OwnPage(pte, mem, root, virt, npf, mid, end, lo, hi, p)
    ensures p !in own && OwnPage(pte, mem0, root, virt, npf, from, end, lo, hi, p)
  {
    hide MakePte, FrameOf, Present, Writable, Leaf;
    var i :| mid <= i < end && 0 <= npf(i) < FRAMES && virt(npf(i)) == p && OneToOne(Leaf(mem, root, p), npf(i))
             && (pte == MakePte(npf(i), L1_PROT_RO) || pte == MakePte(npf(i), L2_PROT_RO));
    if p in own {
      OwnIsReadOnly(own[p], mem0, root, virt, npf, from, mid, lo, hi, p);
    }
    ZeroIsAbsent();
    assert Leaf(mem, root, p) == Leaf(mem0, root, p);
  }

  lemma ZeroIsAbsent()
    ensures !Present(0)
  {
  }

  /** Tables taken first, and tables taken after. */
  lemma OwnMore(own: map<nat, nat>, own': map<nat, nat>, mem0: Memory, mem: Memory, root: nat, virt: nat -> nat, npf: nat -> int,
                from: nat, mid: nat, end: nat, roles: map<nat, Role>, roles': map<nat, Role>, lo: nat, hi: nat)
    requires OwnPages(own, mem0, root, virt, npf, from, mid, roles, lo, hi) && LeavesOutside(mem0, mem, root, own, lo, hi)
    requires OwnPages(own', mem, root, virt, npf, mid, end, roles', lo, hi) && RolesGrow(roles, roles')
    ensures OwnPages(own + own', mem0, root, virt, npf, from, end, roles', lo, hi) && own.Keys !! own'.Keys
  {
    hide MakePte, OwnPage;
    forall p | p in own'
      ensures p !in own && OwnPage(own'[p], mem0, root, virt, npf, from, end, lo, hi, p)
    {
      OwnPageBefore(own, own'[p], mem0, mem, root, virt, npf, from, mid, end, roles, lo, hi, p);
    }
    forall p | p in own
      ensures OwnPage(own[p], mem0, root, virt, npf, from, end, lo, hi, p)
    {
      OwnPageLonger(own[p], mem0, root, virt, npf, from, mid, end, lo, hi, p);
    }
  }

  lemma OwnPageLonger(pte: nat, mem: Memory, root: nat, virt: nat -> nat, npf: nat -> int, from: nat, mid: nat, end: nat, lo: nat, hi: nat, p: nat)
    requires OwnPage(pte, mem, root, virt, npf, from, mid, lo, hi, p) && mid <= end
    ensures OwnPage(pte, mem, root, virt, npf, from, end, lo, hi, p)
  {
    hide MakePte, OneToOne;
  }

  lemma LeavesGoOutside(mem: Memory, mem': Memory, root: nat, own: map<nat, nat>, lo: nat, hi: nat)
    requires LeavesAfter(mem, mem', root, own)
    ensures LeavesOutside(mem, mem', root, own, lo, hi)
  {
    hide LeafOrZero, Leaf;
  }

  /** None of the first n answers of a callback, counted from `from`, was a failure. */
  predicate Answers(callback: nat -> int, from: nat, end: nat) {
    forall i :: from <= i < end ==> callback(i) >= 0
  }

  /** Frame g became a table that was missing on the path of a page of [lo, hi). */
  ghost predicate MadeFor(mem: Memory, mem': Memory, root: nat, lo: nat, hi: nat, g: nat) {
    exists q, level :: lo <= q < hi && q < PAGES && 1 <= level < 4 && TableAt(mem, root, q, level).None? && TableAt(mem', root, q, level) == Some(g)
  }

  /** So did all the frames that the table callback gave, and no others. */
  ghost predicate Made(mem: Memory, mem': Memory, root: nat, npf: nat -> int, from: nat, end: nat, lo: nat, hi: nat) {
    && (forall i :: from <= i < end && npf(i) >= 0 ==> MadeFor(mem, mem', root, lo, hi, npf(i)))
    && (forall f :: f in mem' ==> f in mem || exists i :: from <= i < end && npf(i) == f)
  }

  /** A table is missing on the path of a page of [lo, hi). */
  ghost predicate SomeMissing(mem: Memory, root: nat, lo: nat, hi: nat) {
    exists q, level :: lo <= q < hi && 1 <= level < 4 && TableAt(mem, root, q, level).None?
  }

  lemma MadeMore(a: Memory, b: Memory, c: Memory, root: nat, npf: nat -> int, from: nat, mid: nat, end: nat, lo: nat, hi: nat)
    requires Made(a, b, root, npf, from, mid, lo, hi) && Made(b, c, root, npf, mid, end, lo, hi)
    requires KeepsTables(a, b, root) && KeepsTables(b, c, root) && from <= mid <= end
    ensures Made(a, c, root, npf, from, end, lo, hi)
  {
    hide TableAt;
    forall f | f in c && f !in a
      ensures exists i :: from <= i < end && npf(i) == f
    {
      if f in b {
        var i :| from <= i < mid && npf(i) == f;
      } else {
        var i :| mid <= i < end && npf(i) == f;
      }
    }
    forall i | from <= i < end && npf(i) >= 0
      ensures MadeFor(a, c, root, lo, hi, npf(i))
    {
      if i < mid {
        assert MadeFor(a, b, root, lo, hi, npf(i));
        var q, level :| lo <= q < hi && q < PAGES && 1 <= level < 4 && TableAt(a, root, q, level).None? && TableAt(b, root, q, level) == Some(npf(i));
        assert TableAt(c, root, q, level) == Some(npf(i));
      } else {
        assert MadeFor(b, c, root, lo, hi, npf(i));
        var q, level :| lo <= q < hi && q < PAGES && 1 <= level < 4 && TableAt(b, root, q, level).None? && TableAt(c, root, q, level) == Some(npf(i));
        assert TableAt(a, root, q, level).None?;
      }
    }
  }

  /** What making tables from the frames npf(from) to npf(end - 1) does. */
  ghost predicate Grown(mem: Memory, roles: map<nat, Role>, mem': Memory, roles': map<nat, Role>, root: nat, virt: nat -> nat,
                        npf: nat -> int, from: nat, end: nat, own: map<nat, nat>, lo: nat, hi: nat)
  {
    && from <= end && KeepsTables(mem, mem', root) && UppersGrow(mem, mem', root) && RolesGrow(roles, roles')
    && LeavesAfter(mem, mem', root, own) && OwnPages(own, mem, root, virt, npf, from, end, roles', lo, hi)
    && Made(mem, mem', root, npf, from, end, lo, hi)
  }

  lemma GrownMore(a: Memory, ra: map<nat, Role>, b: Memory, rb: map<nat, Role>, c: Memory, rc: map<nat, Role>, root: nat, virt: nat -> nat,
                  npf: nat -> int, from: nat, mid: nat, end: nat, own: map<nat, nat>, own': map<nat, nat>, lo: nat, hi: nat)
    requires Grown(a, ra, b, rb, root, virt, npf, from, mid, own, lo, hi) && Grown(b, rb, c, rc, root, virt, npf, mid, end, own', lo, hi)
    ensures Grown(a, ra, c, rc, root, virt, npf, from, end, own + own', lo, hi)
  {
    hide LeavesAfter, LeavesOutside, KeepsTables, UppersGrow, OwnPages, Made;
    UppersThrough(a, b, c, root);
    LeavesGoOutside(a, b, root, own, lo, hi);
    StepsCompose(a, b, c, root, own, own');
    OwnMore(own, own', a, b, root, virt, npf, from, mid, end, rb, rc, lo, hi);
    MadeMore(a, b, c, root, npf, from, mid, end, lo, hi);
  }

  lemma MadeOne(mem: Memory, mem': Memory, root: nat, npf: nat -> int, from: nat, lo: nat, hi: nat, p: nat, level: nat)
    requires lo <= p < hi && p < PAGES && 1 <= level < 4 && TableAt(mem, root, p, level).None?
    requires npf(from) >= 0 ==> TableAt(mem', root, p, level) == Some(npf(from))
    requires forall f :: f in mem' ==> f in mem || npf(from) == f
    ensures Made(mem, mem', root, npf, from, from + 1, lo, hi)
  {
    hide TableAt;
  }

  // ---------- Addresses ----------

  const ADDRESSES := PAGES * PAGE_SIZE

  function TableOffset(a: nat, level: nat): nat
    requires 1 <= level <= 4
  {
    match level
    case 1 => (a / 0x1000) % ENTRIES
    case 2 => (a / 0x20_0000) % ENTRIES
    case 3 => (a / 0x4000_0000) % ENTRIES
    case 4 => (a / 0x80_0000_0000) % ENTRIES
  }

  /** The l1..l4_table_offset macros pick the indices of the address's page. */
  lemma OffsetIsIndex(a: nat, level: nat)
    requires 1 <= level <= 4
    ensures TableOffset(a, level) == Index(a / PAGE_SIZE, level)
  {
    var p := a / 4096;
    assert Region(p, 1) == p / 512;
    assert Region(p, 2) == p / 512 / 512;
    assert Region(p, 3) == p / 512 / 512 / 512;
    assert p / 512 == a / 0x20_0000;
    assert a / 0x20_0000 / 512 == a / 0x4000_0000;
    assert a / 0x4000_0000 / 512 == a / 0x80_0000_0000;
  }

  /** An mmu_update request: the machine address of an entry, and its new value. */
  datatype Update = Update(ptr: nat, val: nat)

  function EntryPtr(f: nat, i: nat): nat { f * PAGE_SIZE + 8 * i }

  lemma PtrDecodes(f: nat, i: nat)
    requires i < ENTRIES
    ensures EntryPtr(f, i) / PAGE_SIZE == f && (EntryPtr(f, i) % PAGE_SIZE) / 8 == i
  {
    DivModUnique(EntryPtr(f, i), PAGE_SIZE, f, 8 * i);
  }

  // ---------- The deferred batch ----------

  /**
    The last-level entry that page p should have once the first k pages from lo have been built with the
    frames `pfn` offers: that of its frame, the read-only one of a table's own page, or as LeafOrZero says.
    */
  function ExpectedLeaf(mem0: Memory, mem: Memory, root: nat, pfn: nat -> int, lo: nat, k: nat, own: map<nat, nat>, p: nat): Option<nat> {
    if lo <= p < lo + k && pfn(p - lo) > 0 then Some(MakePte(pfn(p - lo), L1_PROT))
    else if p in own then Some(own[p])
    else LeafOrZero(mem0, mem, root, p)
  }

  ghost predicate Built(mem: Memory, mem0: Memory, root: nat, pfn: nat -> int, lo: nat, k: nat, own: map<nat, nat>) {
    forall p :: 0 <= p < PAGES ==> Leaf(mem, root, p) == ExpectedLeaf(mem0, mem, root, pfn, lo, k, own, p)
  }

  /** The request queued for page lo + j: its last-level entry, and the frame the callback gave. */
  ghost predicate RequestFor(mem: Memory, root: nat, pfn: nat -> int, lo: nat, j: nat, u: Update) {
    && 0 < pfn(j) < FRAMES && lo + j < PAGES && TableAt(mem, root, lo + j, 1).Some?
    && u == Update(EntryPtr(TableAt(mem, root, lo + j, 1).value, Index(lo + j, 1)), MakePte(pfn(j), L1_PROT))
  }

  ghost predicate Queued(mem: Memory, root: nat, pfn: nat -> int, lo: nat, pages: seq<nat>, batch: seq<Update>) {
    |batch| == |pages| && forall i :: 0 <= i < |pages| ==> RequestFor(mem, root, pfn, lo, pages[i], batch[i])
  }

  /** `pages` are the pages from f up to k that the callback wants mapped. */
  ghost predicate Wanted(pfn: nat -> int, f: nat, k: nat, pages: seq<nat>) {
    forall j :: j in pages <==> f <= j < k && pfn(j) > 0
  }

  /** In the middle of a flush: the pages below f and the pages in `done` are mapped. */
  ghost predicate Flushing(mem: Memory, mem0: Memory, root: nat, pfn: nat -> int, lo: nat, f: nat, own: map<nat, nat>, done: seq<nat>) {
    forall p :: 0 <= p < PAGES ==>
      Leaf(mem, root, p)
      == if p >= lo && (p - lo) in done && pfn(p - lo) > 0 then Some(MakePte(pfn(p - lo), L1_PROT))
         else ExpectedLeaf(mem0, mem, root, pfn, lo, f, own, p)
  }

  lemma FlushStart(mem: Memory, mem0: Memory, root: nat, pfn: nat -> int, lo: nat, f: nat, own: map<nat, nat>)
    requires Built(mem, mem0, root, pfn, lo, f, own)
    ensures Flushing(mem, mem0, root, pfn, lo, f, own, [])
  {
  }

  lemma FlushEnd(mem: Memory, mem0: Memory, root: nat, pfn: nat -> int, lo: nat, f: nat, k: nat, own: map<nat, nat>, pages: seq<nat>)
    requires Flushing(mem, mem0, root, pfn, lo, f, own, pages) && Wanted(pfn, f, k, pages) && f <= k
    ensures Built(mem, mem0, root, pfn, lo, k, own)
  {
    hide Leaf, MakePte, LeafOrZero;
    forall p | 0 <= p < PAGES
      ensures Leaf(mem, root, p) == ExpectedLeaf(mem0, mem, root, pfn, lo, k, own, p)
    {
    }
  }

  lemma FlushStep(mem: Memory, roles: map<nat, Role>, mem0: Memory, root: nat, pfn: nat -> int, lo: nat, f: nat, own: map<nat, nat>,
                  done: seq<nat>, j: nat, u: Update)
    requires Good(mem, roles, root) && Flushing(mem, mem0, root, pfn, lo, f, own, done)
    requires RequestFor(mem, root, pfn, lo, j, u)
    ensures u.ptr / PAGE_SIZE in mem && (u.ptr % PAGE_SIZE) / 8 < |mem[u.ptr / PAGE_SIZE]|
    ensures var mem' := Written(mem, u.ptr / PAGE_SIZE, (u.ptr % PAGE_SIZE) / 8, u.val);
            Good(mem', roles, root) && Flushing(mem', mem0, root, pfn, lo, f, own, done + [j])
            && KeepsTables(mem, mem', root) && SameTables(mem, mem', root) && UppersGrow(mem, mem', root)
  {
    hide Leaf, MakePte, FrameOf, EntryPtr, Index, Region;
    var q, t := lo + j, TableAt(mem, root, lo + j, 1).value;
    PtrDecodes(t, Index(q, 1));
    LeafWrite(mem, roles, root, t, Index(q, 1), u.val, q, q);
    TableHasRole(mem, roles, root, q, 1);
    var mem' := Written(mem, t, Index(q, 1), u.val);
    LeafWriteKeepsUppers(mem, roles, root, t, Index(q, 1), u.val);
    hide UppersGrow;
    forall p, level | 0 <= p < PAGES && 1 <= level <= 4
      ensures TableAt(mem', root, p, level) == TableAt(mem, root, p, level)
    {
      LeafWriteKeepsTables(mem, roles, root, t, Index(q, 1), u.val, p, level);
    }
    forall p | 0 <= p < PAGES
      ensures Leaf(mem', root, p)
           == if p >= lo && (p - lo) in done + [j] && pfn(p - lo) > 0 then Some(MakePte(pfn(p - lo), L1_PROT))
              else ExpectedLeaf(mem0, mem', root, pfn, lo, f, own, p)
    {
      LeafWrite(mem, roles, root, t, Index(q, 1), u.val, p, q);
    }
  }

  lemma {:induction false} QueuedAfter(mem: Memory, mem': Memory, root: nat, pfn: nat -> int, lo: nat, pages: seq<nat>, batch: seq<Update>)
    requires Queued(mem, root, pfn, lo, pages, batch) && KeepsTables(mem, mem', root)
    ensures Queued(mem', root, pfn, lo, pages, batch)
  {
    forall i | 0 <= i < |pages|
      ensures RequestFor(mem', root, pfn, lo, pages[i], batch[i])
    {
      assert RequestFor(mem, root, pfn, lo, pages[i], batch[i]);
    }
  }

  /** Page p shares its region of the given level with one of the k pages from lo on. */
  ghost predicate Shares(lo: nat, k: nat, p: nat, level: nat) {
    exists q :: lo <= q < lo + k && Region(q, level) == Region(p, level)
  }

  /** After the first k pages from lo: a page has a table of this level iff it had one or shares its region with one of them. */
  ghost predicate Opened(mem0: Memory, mem: Memory, root: nat, lo: nat, k: nat, level: nat)
    requires 1 <= level < 4
  {
    forall p :: 0 <= p < PAGES ==> (TableAt(mem, root, p, level).Some? <==> TableAt(mem0, root, p, level).Some? || Shares(lo, k, p, level))
  }

  ghost predicate AllOpened(mem0: Memory, mem: Memory, root: nat, lo: nat, k: nat) {
    Opened(mem0, mem, root, lo, k, 1) && Opened(mem0, mem, root, lo, k, 2) && Opened(mem0, mem, root, lo, k, 3)
  }

  function Absent(mem: Memory, root: nat, p: nat, level: nat): nat
    requires 1 <= level <= 4
  {
    if TableAt(mem, root, p, level).None? then 1 else 0
  }

  /** The tables that are missing on the path of page p. */
  function AbsentOnPath(mem: Memory, root: nat, p: nat): nat {
    Absent(mem, root, p, 3) + Absent(mem, root, p, 2) + Absent(mem, root, p, 1)
  }

  /** Whether page lo + k is the first of the range to need its table of this level, and it is missing. */
  ghost function NeedsFirst(mem: Memory, root: nat, lo: nat, k: nat, level: nat): nat
    requires 1 <= level <= 4
  {
    if Shares(lo, k, lo + k, level) then 0 else Absent(mem, root, lo + k, level)
  }

  /** The tables that the k pages from lo on need and do not have, each counted once. */
  ghost function TablesNeeded(mem: Memory, root: nat, lo: nat, k: nat): nat {
    if k == 0 then 0
    else
      TablesNeeded(mem, root, lo, k - 1)
      + NeedsFirst(mem, root, lo, k - 1, 3) + NeedsFirst(mem, root, lo, k - 1, 2) + NeedsFirst(mem, root, lo, k - 1, 1)
  }

  /** What is still missing on the path of the next page is what nobody before it needed. */
  lemma NeededNext(mem0: Memory, mem: Memory, root: nat, lo: nat, k: nat)
    requires AllOpened(mem0, mem, root, lo, k) && lo + k < PAGES
    ensures TablesNeeded(mem0, root, lo, k + 1) == TablesNeeded(mem0, root, lo, k) + AbsentOnPath(mem, root, lo + k)
  {
    hide TableAt, Shares;
  }

  /** The calls of the table callback: one for each table needed, or up to its first failure. */
  ghost predicate CallsMade(mem0: Memory, root: nat, npf: nat -> int, lo: nat, k: nat, used: nat) {
    if Answers(npf, 0, used) then used == TablesNeeded(mem0, root, lo, k) else used > 0 && Answers(npf, 0, used - 1)
  }

  lemma BuiltStart(mem: Memory, roles: map<nat, Role>, root: nat, pfn: nat -> int, lo: nat)
    requires Good(mem, roles, root)
    ensures Built(mem, mem, root, pfn, lo, 0, map[]) && AllOpened(mem, mem, root, lo, 0)
    ensures Wanted(pfn, 0, 0, []) && Queued(mem, root, pfn, lo, [], [])
  {
    Unchanged(mem, roles, root, 0, 0);
  }

  /** New tables after some pages were built: their own pages are outside the range. */
  lemma BuiltAfter(mem: Memory, mem': Memory, mem0: Memory, root: nat, pfn: nat -> int, lo: nat, k: nat, own: map<nat, nat>, own': map<nat, nat>)
    requires Built(mem, mem0, root, pfn, lo, k, own) && LeavesAfter(mem, mem', root, own') && KeepsTables(mem, mem', root)
    requires forall p :: p in own' ==> !(lo <= p < lo + k)
    ensures Built(mem', mem0, root, pfn, lo, k, own + own')
  {
    hide Leaf, MakePte, TableAt;
    forall p | 0 <= p < PAGES
      ensures Leaf(mem', root, p) == ExpectedLeaf(mem0, mem', root, pfn, lo, k, own + own', p)
    {
      assert TableAt(mem, root, p, 1).Some? ==> TableAt(mem', root, p, 1) == TableAt(mem, root, p, 1);
    }
  }

  lemma BuiltOutside(mem: Memory, mem0: Memory, root: nat, pfn: nat -> int, lo: nat, k: nat, own: map<nat, nat>, hi: nat)
    requires Built(mem, mem0, root, pfn, lo, k, own) && lo + k <= hi
    ensures LeavesOutside(mem0, mem, root, own, lo, hi)
  {
    hide Leaf, MakePte, LeafOrZero;
  }

  lemma WantedNext(pfn: nat -> int, f: nat, k: nat, pages: seq<nat>)
    requires Wanted(pfn, f, k, pages) && f <= k
    ensures Wanted(pfn, f, k + 1, if pfn(k) > 0 then pages + [k] else pages)
  {
  }

  lemma QueuedNext(mem: Memory, root: nat, pfn: nat -> int, lo: nat, pages: seq<nat>, batch: seq<Update>, k: nat, u: Update)
    requires Queued(mem, root, pfn, lo, pages, batch) && RequestFor(mem, root, pfn, lo, k, u)
    ensures Queued(mem, root, pfn, lo, pages + [k], batch + [u])
  {
    hide RequestFor;
  }

  lemma NothingWanted(mem: Memory, root: nat, pfn: nat -> int, lo: nat, k: nat, batch: seq<Update>)
    requires batch == []
    ensures Wanted(pfn, k, k, []) && Queued(mem, root, pfn, lo, [], batch)
  {
  }

  lemma StepsCompose(a: Memory, b: Memory, c: Memory, root: nat, own: map<nat, nat>, own': map<nat, nat>)
    requires LeavesAfter(a, b, root, own) && KeepsTables(a, b, root)
    requires LeavesAfter(b, c, root, own') && KeepsTables(b, c, root)
    ensures LeavesAfter(a, c, root, own + own') && KeepsTables(a, c, root)
  {
    hide TableAt, Leaf;
    forall p, level | 0 <= p < PAGES && 1 <= level <= 4 && TableAt(a, root, p, level).Some?
      ensures TableAt(c, root, p, level) == TableAt(a, root, p, level)
    {
      assert TableAt(b, root, p, level) == TableAt(a, root, p, level);
    }
    forall p | 0 <= p < PAGES
      ensures Leaf(c, root, p) == if p in own + own' then Some((own + own')[p]) else LeafOrZero(a, c, root, p)
    {
      assert TableAt(b, root, p, 1).Some? ==> TableAt(c, root, p, 1) == TableAt(b, root, p, 1);
    }
  }

  lemma OpensCompose(a: Memory, b: Memory, c: Memory, root: nat, q: nat, level: nat)
    requires OpensPath(a, b, root, q) && OpensOnly(b, c, root, level, Region(q, level))
    ensures OpensPath(a, c, root, q)
  {
    hide TableAt, Region;
  }

  lemma OpensNoneThrough(a: Memory, b: Memory, c: Memory, root: nat)
    requires OpensNone(a, b, root) && OpensNone(b, c, root)
    ensures OpensNone(a, c, root)
  {
    hide TableAt;
  }

  lemma OnlyOnPath(mem: Memory, mem': Memory, root: nat, level: nat, q: nat)
    requires OpensOnly(mem, mem', root, level, Region(q, level))
    ensures OpensPath(mem, mem', root, q)
    ensures level != 1 ==> OpensNone(mem, mem', root)
  {
    hide TableAt, Region;
  }

  /** The tables of other levels are there as before. */
  lemma OtherLevels(mem: Memory, mem': Memory, root: nat, level: nat, r: nat, p: nat, l: nat)
    requires OpensOnly(mem, mem', root, level, r) && KeepsTables(mem, mem', root) && p < PAGES && 1 <= l < 4 && l != level
    ensures Absent(mem', root, p, l) == Absent(mem, root, p, l)
  {
    hide TableAt, Region;
  }

  /** Pages of one 2MB region share their upper tables. */
  lemma {:induction false} SharedPath(mem: Memory, root: nat, p: nat, q: nat, level: nat)
    requires 1 <= level <= 4 && Region(p, level) == Region(q, level)
    ensures TableAt(mem, root, p, level) == TableAt(mem, root, q, level)
    decreases 4 - level
  {
    if level < 4 {
      SharedPath(mem, root, p, q, level + 1);
    }
  }

  lemma OpenedNext(mem0: Memory, mem: Memory, mem': Memory, root: nat, lo: nat, k: nat, level: nat)
    requires 1 <= level < 4 && Opened(mem0, mem, root, lo, k, level) && KeepsTables(mem, mem', root) && lo + k < PAGES
    requires OpensPath(mem, mem', root, lo + k) && TableAt(mem', root, lo + k, level).Some?
    ensures Opened(mem0, mem', root, lo, k + 1, level)
  {
    hide Region, TableAt;
    forall p | 0 <= p < PAGES
      ensures TableAt(mem', root, p, level).Some? <==> TableAt(mem0, root, p, level).Some? || Shares(lo, k + 1, p, level)
    {
      if q :| lo <= q < lo + (k + 1) && Region(q, level) == Region(p, level) {
        if q == lo + k {
          SharedPath(mem', root, p, q, level);
        } else {
          assert Shares(lo, k, p, level);
        }
      }
      if TableAt(mem', root, p, level).Some? && TableAt(mem, root, p, level).None? {
        assert lo <= lo + k < lo + (k + 1) && Region(lo + k, level) == Region(p, level);
      }
    }
  }

  lemma AllOpenedNext(mem0: Memory, mem: Memory, mem': Memory, root: nat, lo: nat, k: nat)
    requires AllOpened(mem0, mem, root, lo, k) && KeepsTables(mem, mem', root) && lo + k < PAGES
    requires OpensPath(mem, mem', root, lo + k) && TableAt(mem', root, lo + k, 1).Some?
    ensures AllOpened(mem0, mem', root, lo, k + 1)
  {
    hide Opened, KeepsTables, OpensPath;
    assert TableAt(mem', root, lo + k, 2).Some? && TableAt(mem', root, lo + k, 3).Some?;
    OpenedNext(mem0, mem, mem', root, lo, k, 1);
    OpenedNext(mem0, mem, mem', root, lo, k, 2);
    OpenedNext(mem0, mem, mem', root, lo, k, 3);
  }

  lemma OpenedAfterFailure(mem0: Memory, mem: Memory, mem': Memory, root: nat, lo: nat, k: nat)
    requires Opened(mem0, mem, root, lo, k, 1) && KeepsTables(mem, mem', root) && OpensNone(mem, mem', root)
    ensures Opened(mem0, mem', root, lo, k, 1)
  {
    hide Shares, TableAt;
    forall p | 0 <= p < PAGES
      ensures TableAt(mem', root, p, 1).Some? <==> TableAt(mem, root, p, 1).Some?
    {
    }
  }

  lemma OpenedAfterFlush(mem0: Memory, mem: Memory, mem': Memory, root: nat, lo: nat, k: nat)
    requires AllOpened(mem0, mem, root, lo, k) && SameTables(mem, mem', root)
    ensures AllOpened(mem0, mem', root, lo, k)
  {
    hide Shares, TableAt;
  }

  /** A flush only changes entries inside the range, so the frames still on offer stay fresh. */
  lemma SupplyOutside(mem: Memory, mem': Memory, mem0: Memory, root: nat, virt: nat -> nat, pfn: nat -> int, npf: nat -> int,
                      kf: nat, lo: nat, hi: nat, f: nat, k: nat, own: map<nat, nat>)
    requires Supply(mem, root, virt, npf, kf, lo, hi) && mem'.Keys == mem.Keys && lo + k <= hi && f <= k
    requires Built(mem, mem0, root, pfn, lo, f, own) && Built(mem', mem0, root, pfn, lo, k, own)
    requires SameTables(mem, mem', root)
    ensures Supply(mem', root, virt, npf, kf, lo, hi)
  {
    hide Leaf, OneToOne, MakePte, TableAt;
    forall i | kf <= i && npf(i) >= 0
      ensures FreshFrame(mem', root, virt, npf(i), lo, hi)
    {
      assert FreshFrame(mem, root, virt, npf(i), lo, hi);
      var p := virt(npf(i));
      assert TableAt(mem', root, p, 1).Some? <==> TableAt(mem, root, p, 1).Some?;
    }
  }

  datatype WalkResult = NotPresent | Found(pfn: int, pte: nat)

  /** What the walker answers: the last level is read without looking at its present bit. */
  function Walk(mem: Memory, root: nat, pfnOf: nat -> int, p: nat): WalkResult {
    var leaf := Leaf(mem, root, p);
    if leaf.None? then NotPresent else Found(pfnOf(FrameOf(leaf.value)), leaf.value)
  }

  /** The page tables of the domain, in the machine's memory. */
  class AddressSpace {
    const root: nat            // the frame of start_info.pt_base
    const virt: nat -> nat     // the page at which the 1-1 mapping shows a frame
    const pfnOf: nat -> int    // machine_to_phys_mapping
    var mem: Memory
    ghost var roles: map<nat, Role>

    constructor (root: nat, virt: nat -> nat, pfnOf: nat -> int, mem: Memory, ghost roles: map<nat, Role>)
      requires Good(mem, roles, root)
      ensures Valid() && this.root == root && this.virt == virt && this.pfnOf == pfnOf && this.mem == mem && this.roles == roles
    {
      this.root, this.virt, this.pfnOf, this.mem, this.roles := root, virt, pfnOf, mem, roles;
    }

    ghost predicate Valid()
      reads this
    {
      Good(mem, roles, root)
    }

    /** HYPERVISOR_mmu_update with one request. */
    method MmuUpdate(u: Update)
      requires u.ptr / PAGE_SIZE in mem && (u.ptr % PAGE_SIZE) / 8 < |mem[u.ptr / PAGE_SIZE]|
      modifies this`mem
      ensures mem == Written(old(mem), u.ptr / PAGE_SIZE, (u.ptr % PAGE_SIZE) / 8, u.val)
    {
      mem := Written(mem, u.ptr / PAGE_SIZE, (u.ptr % PAGE_SIZE) / 8, u.val);
    }

    /** The L1 table that maps page q, found through the present upper levels. */
    method FindL1(q: nat) returns (t: nat)
      requires Valid() && q < PAGES && TableAt(mem, root, q, 1).Some?
      ensures TableAt(mem, root, q, 1) == Some(t)
    {
      TableHasRole(mem, roles, root, q, 2);
      TableHasRole(mem, roles, root, q, 3);
      t := root;
      OffsetIsIndex(q * PAGE_SIZE, 4);
      t := FrameOf(mem[t][TableOffset(q * PAGE_SIZE, 4)]);
      assert TableAt(mem, root, q, 3) == Some(t);
      OffsetIsIndex(q * PAGE_SIZE, 3);
      t := FrameOf(mem[t][TableOffset(q * PAGE_SIZE, 3)]);
      assert TableAt(mem, root, q, 2) == Some(t);
      OffsetIsIndex(q * PAGE_SIZE, 2);
      t := FrameOf(mem[t][TableOffset(q * PAGE_SIZE, 2)]);
    }

    /** new_pt_frame: clear the frame, make its own page read-only, and hang it into the given entry. */
    method NewPtFrame(g: nat, prev: nat, offset: nat, level: nat)
      requires Valid() && CanInstall(mem, roles, root, prev, offset, g) && roles[prev].level == level + 1
      requires virt(g) < PAGES && OneToOne(Leaf(mem, root, virt(g)), g)
      modifies this
      ensures Valid() && mem.Keys == old(mem).Keys + {g} && roles == RolesWith(old(roles), prev, offset, g)
      ensures LeavesAfter(old(mem), mem, root, map[virt(g) := MakePte(g, ReadOnly(level))])
      ensures KeepsTables(old(mem), mem, root) && UppersGrow(old(mem), mem, root) && LeadsTo(old(mem), mem, root, prev, offset, g)
      ensures OpensOnly(old(mem), mem, root, level, old(roles)[prev].region * ENTRIES + offset)
    {
      hide MakePte, FrameOf, Present, LeavesAfter, KeepsTables, UppersGrow, LeadsTo, OpensOnly, OpensNone, EntryPtr, Good, TableAt, Leaf, TableOffset, Index;
      ghost var mem0 := mem;
      GoodTables(mem, roles, root, prev);
      LeafHasTable(mem, root, virt(g));
      var ro := ReadOnly(level);
      var t := FindL1(virt(g));
      NewTableOk(mem, roles, root, virt, t, ro, prev, offset, g);
      OffsetIsIndex(virt(g) * PAGE_SIZE, 1);
      var j := TableOffset(virt(g) * PAGE_SIZE, 1);
      PtrDecodes(t, j);
      PtrDecodes(prev, offset);
      mem := mem[g := Zeroed()];
      MmuUpdate(Update(EntryPtr(t, j), MakePte(g, ro)));
      MmuUpdate(Update(EntryPtr(prev, offset), MakePte(g, L2_PROT)));
      NewTableSteps(mem0, t, j, ro, prev, offset, g);
      roles := RolesWith(roles, prev, offset, g);
    }

    /** The table under the absent entry `offset` of table t, made from the next frame of the table callback, if there is one. */
    method MissingTable(a: nat, level: nat, t: nat, offset: nat, npf: nat -> int, k: nat, ghost lo: nat, ghost hi: nat)
      returns (ok: bool, ghost own: map<nat, nat>)
      requires Valid() && 2 <= level <= 4 && a < ADDRESSES && TableAt(mem, root, a / PAGE_SIZE, level) == Some(t)
      requires t in mem && t in roles && roles[t] == Role(level, Region(a / PAGE_SIZE, level)) && |mem[t]| == ENTRIES
      requires offset == Index(a / PAGE_SIZE, level) && !Present(mem[t][offset])
      requires Supply(mem, root, virt, npf, k, lo, hi) && lo <= a / PAGE_SIZE < hi
      modifies this
      ensures Valid() && Grown(old(mem), old(roles), mem, roles, root, virt, npf, k, k + 1, own, lo, hi)
      ensures Supply(mem, root, virt, npf, k + 1, lo, hi)
      ensures ok ==> TableAt(mem, root, a / PAGE_SIZE, level - 1).Some?
      ensures ok <==> npf(k) >= 0
      ensures !ok ==> mem == old(mem) && roles == old(roles) && TableAt(mem, root, a / PAGE_SIZE, level - 1).None?
      ensures OpensOnly(old(mem), mem, root, level - 1, Region(a / PAGE_SIZE, level - 1))
    {
      hide MakePte, FrameOf, Leaf, LeavesAfter, KeepsTables, UppersGrow, LeadsTo, OpensOnly, OpensNone, Region, Index, Supply, OwnPages, TableAt, Made;
      ghost var p, mem0 := a / PAGE_SIZE, mem;
      var g := npf(k);
      own := map[];
      AbsentBelow(mem, root, p, level, t, offset);
      SupplyHead(mem, root, virt, npf, k, lo, hi);
      if g < 0 {
        Unchanged(mem, roles, root, level - 1, Region(p, level - 1));
        OwnFailed(mem, root, virt, npf, k, roles, lo, hi);
        MadeOne(mem0, mem, root, npf, k, lo, hi, p, level - 1);
        return false, own;
      }
      own := map[virt(g) := MakePte(g, ReadOnly(level - 1))];
      NewPtFrame(g, t, offset, level - 1);
      OwnOne(mem0, root, virt, npf, k, roles, lo, hi);
      SupplyShrinks(mem0, mem, root, virt, npf, k, lo, hi, own);
      PathContinues(mem0, mem, root, t, offset, g, p, level - 1);
      MadeOne(mem0, mem, root, npf, k, lo, hi, p, level - 1);
      RegionStep(p, level);
      ok := true;
    }

    /**
      One level down on the path of page p: a missing table is made from the next frame of the table
      callback; the method fails if there is none.
      */
    method Descend(a: nat, level: nat, t: nat, npf: nat -> int, k: nat, ghost lo: nat, ghost hi: nat)
      returns (ok: bool, next: nat, k': nat, ghost own: map<nat, nat>)
      requires Valid() && 2 <= level <= 4 && a < ADDRESSES && TableAt(mem, root, a / PAGE_SIZE, level) == Some(t)
      requires Supply(mem, root, virt, npf, k, lo, hi) && lo <= a / PAGE_SIZE < hi
      modifies this
      ensures Valid() && Grown(old(mem), old(roles), mem, roles, root, virt, npf, k, k', own, lo, hi)
      ensures Supply(mem, root, virt, npf, k', lo, hi)
      ensures ok ==> TableAt(mem, root, a / PAGE_SIZE, level - 1) == Some(next)
      ensures k <= k' && (ok <==> Answers(npf, k, k')) && (!ok ==> k' == k + 1)
      ensures ok ==> k' == k + Absent(old(mem), root, a / PAGE_SIZE, level - 1)
      ensures KeepsTables(old(mem), mem, root)
      ensures !ok ==> mem == old(mem) && roles == old(roles) && TableAt(mem, root, a / PAGE_SIZE, level - 1).None?
      ensures OpensOnly(old(mem), mem, root, level - 1, Region(a / PAGE_SIZE, level - 1))
    {
      hide MakePte, FrameOf, Leaf, LeavesAfter, UppersGrow, LeadsTo, OpensOnly, OpensNone, Region, Index, Supply, OwnPages, Made;
      ghost var p, mem0 := a / PAGE_SIZE, mem;
      TableHasRole(mem, roles, root, p, level);
      OffsetIsIndex(a, level);
      var offset := TableOffset(a, level);
      k', own := k, map[];
      if !Present(mem[t][offset]) {
        k' := k + 1;
        AbsentBelow(mem, root, p, level, t, offset);
        ok, own := MissingTable(a, level, t, offset, npf, k, lo, hi);
        TableOnPath(mem0, mem, root, p, level);
        if !ok {
          return false, 0, k', own;
        }
      } else {
        UnchangedGrows(mem, roles, root, virt, npf, k, lo, hi, level - 1, Region(p, level - 1));
      }
      ok, next := true, FrameOf(mem[t][offset]);
    }

    /** HYPERVISOR_mmu_update on the first `count` queued requests, in order. */
    method Flush(updates: array<Update>, count: nat, ghost mem0: Memory, ghost pfn: nat -> int, ghost lo: nat, ghost f: nat,
                 ghost k: nat, ghost own: map<nat, nat>, ghost pages: seq<nat>)
      requires Valid() && count <= updates.Length
      requires Built(mem, mem0, root, pfn, lo, f, own) && Wanted(pfn, f, k, pages) && f <= k
      requires Queued(mem, root, pfn, lo, pages, updates[..count])
      modifies this`mem
      ensures Valid() && mem.Keys == old(mem).Keys && Built(mem, mem0, root, pfn, lo, k, own)
      ensures KeepsTables(old(mem), mem, root) && SameTables(old(mem), mem, root) && UppersGrow(old(mem), mem, root)
    {
      hide Built, Wanted, RequestFor, Flushing, KeepsTables, SameTables, UppersGrow, Good;
      ghost var batch := updates[..count];
      FlushStart(mem, mem0, root, pfn, lo, f, own);
      KeepsReflexive(mem, root);
      var i := 0;
      while i < count
        invariant 0 <= i <= count && Valid() && mem.Keys == old(mem).Keys
        invariant Flushing(mem, mem0, root, pfn, lo, f, own, pages[..i])
        invariant KeepsTables(old(mem), mem, root) && SameTables(old(mem), mem, root) && UppersGrow(old(mem), mem, root)
        invariant updates[..count] == batch && Queued(mem, root, pfn, lo, pages, batch)
      {
        ghost var mem1 := mem;
        assert updates[i] == batch[i];
        FlushStep(mem, roles, mem0, root, pfn, lo, f, own, pages[..i], pages[i], updates[i]);
        MmuUpdate(updates[i]);
        assert pages[..i + 1] == pages[..i] + [pages[i]];
        QueuedAfter(mem1, mem, root, pfn, lo, pages, batch);
        KeepsTransitive(old(mem), mem1, mem, root);
        i := i + 1;
      }
      assert pages[..count] == pages;
      FlushEnd(mem, mem0, root, pfn, lo, f, k, own, pages);
    }

    /** The three upper levels on the path of address a, made where missing. */
    method ReachL1(a: nat, npf: nat -> int, k: nat, ghost lo: nat, ghost hi: nat)
      returns (ok: bool, t: nat, k': nat, ghost own: map<nat, nat>)
      requires Valid() && a < ADDRESSES && Supply(mem, root, virt, npf, k, lo, hi) && lo <= a / PAGE_SIZE < hi
      modifies this
      ensures Valid() && Supply(mem, root, virt, npf, k', lo, hi)
      ensures Grown(old(mem), old(roles), mem, roles, root, virt, npf, k, k', own, lo, hi)
      ensures OpensPath(old(mem), mem, root, a / PAGE_SIZE)
      ensures ok ==> TableAt(mem, root, a / PAGE_SIZE, 1) == Some(t)
      ensures k <= k' && (ok <==> Answers(npf, k, k')) && (!ok ==> k < k' && Answers(npf, k, k' - 1))
      ensures ok ==> k' == k + AbsentOnPath(old(mem), root, a / PAGE_SIZE)
      ensures !ok ==> OpensNone(old(mem), mem, root) && SomeMissing(mem, root, lo, hi)
    {
      hide Grown, OpensOnly, OpensPath, OpensNone, KeepsTables, Supply, Region, TableAt, Good, Absent;
      ghost var mem0, roles0, p, own' := mem, roles, a / PAGE_SIZE, map[];
      RootTable(mem, roles, root, p);
      ok, t, k', own := Descend(a, 4, root, npf, k, lo, hi);
      OnlyOnPath(mem0, mem, root, 3, p);
      if !ok {
        return;
      }
      ghost var mem1, roles1, k1 := mem, roles, k';
      ok, t, k', own' := Descend(a, 3, t, npf, k', lo, hi);
      OnlyOnPath(mem1, mem, root, 2, p);
      OpensCompose(mem0, mem1, mem, root, p, 2);
      OpensNoneThrough(mem0, mem1, mem, root);
      GrownMore(mem0, roles0, mem1, roles1, mem, roles, root, virt, npf, k, k1, k', own, own', lo, hi);
      own := own + own';
      if !ok {
        return;
      }
      ghost var mem2, roles2, k2 := mem, roles, k';
      ok, t, k', own' := Descend(a, 2, t, npf, k', lo, hi);
      OpensCompose(mem0, mem2, mem, root, p, 1);
      SameBelow(mem0, mem1, mem2, root, p);
      GrownMore(mem0, roles0, mem2, roles2, mem, roles, root, virt, npf, k, k2, k', own, own', lo, hi);
      own := own + own';
    }

    /**
      build_pagetable_vs with 4K pages over an aligned range. `pfn` is what the page callback returns
      for the first, second, ... page (a frame, 0 to leave the page alone, negative to fail), `npf` what
      the table callback returns. The last-level entry of every page afterwards is exactly known: pages
      of the range as their callback said, the own pages of the `used` table frames read-only, an empty
      entry where a 2MB region got its first table, and every other page as before. On failure that
      holds with the first `done` pages of the range mapped and the 2MB regions of the first `regions`
      opened. The table callback is called once for each table that those need and do not have.
      */
    method BuildPagetable(startAddress: nat, endAddress: nat, pfn: nat -> int, npf: nat -> int)
      returns (ok: bool, ghost done: nat, ghost regions: nat, ghost used: nat, ghost own: map<nat, nat>)
      requires Valid() && startAddress % PAGE_SIZE == 0 && endAddress % PAGE_SIZE == 0
      requires startAddress <= endAddress <= ADDRESSES
      requires forall i :: 0 <= i < (endAddress - startAddress) / PAGE_SIZE ==> pfn(i) < FRAMES
      requires Supply(mem, root, virt, npf, 0, startAddress / PAGE_SIZE, endAddress / PAGE_SIZE)
      modifies this
      ensures Valid() && done <= regions <= (endAddress - startAddress) / PAGE_SIZE
      ensures Built(mem, old(mem), root, pfn, startAddress / PAGE_SIZE, done, own)
      ensures Opened(old(mem), mem, root, startAddress / PAGE_SIZE, regions, 1)
      ensures OwnPages(own, old(mem), root, virt, npf, 0, used, roles, startAddress / PAGE_SIZE, endAddress / PAGE_SIZE)
      ensures ok ==> done == regions == (endAddress - startAddress) / PAGE_SIZE
      ensures ok <==> Answers(pfn, 0, regions) && Answers(npf, 0, used)
      ensures CallsMade(old(mem), root, npf, startAddress / PAGE_SIZE, regions, used)
      ensures Made(old(mem), mem, root, npf, 0, used, startAddress / PAGE_SIZE, endAddress / PAGE_SIZE)
      ensures KeepsTables(old(mem), mem, root) && UppersGrow(old(mem), mem, root) && RolesGrow(old(roles), roles)
      ensures !Answers(npf, 0, used) ==> SomeMissing(mem, root, startAddress / PAGE_SIZE, endAddress / PAGE_SIZE)
    {
      hide Built, Wanted, Queued, KeepsTables, UppersGrow, SameTables, OpensNone, OpensPath, Opened, AllOpened, TablesNeeded, AbsentOnPath;
      hide Good, LeavesAfter, LeavesOutside, Supply, OwnPages, Made, SomeMissing;
      hide Region, Index, TableAt, EntryPtr, MakePte, TableOffset;
      ghost var mem0 := mem;
      ghost var lo, hi := startAddress / PAGE_SIZE, endAddress / PAGE_SIZE;
      ghost var pages: seq<nat> := [];
      var updates := new Update[ENTRIES + 1](_ => Update(0, 0));
      var count, kf: nat := 0, 0;
      var address := startAddress;
      var k: nat := 0; // how often the page callback was called
      done, own := 0, map[];
      BuiltStart(mem, roles, root, pfn, lo);
      OwnNone(mem, root, virt, npf, 0, roles, lo, hi);
      NothingMade(mem, root, npf, lo, hi);
      while address < endAddress
        invariant Valid() && address == startAddress + k * PAGE_SIZE && address <= endAddress && done <= k
        invariant count < ENTRIES && count == |pages| && updates.Length == ENTRIES + 1
        invariant Supply(mem, root, virt, npf, kf, lo, hi) && OwnPages(own, mem0, root, virt, npf, 0, kf, roles, lo, hi)
        invariant Built(mem, mem0, root, pfn, lo, done, own) && AllOpened(mem0, mem, root, lo, k) && kf == TablesNeeded(mem0, root, lo, k)
        invariant Made(mem0, mem, root, npf, 0, kf, lo, hi) && KeepsTables(mem0, mem, root) && UppersGrow(mem0, mem, root) && RolesGrow(old(roles), roles)
        invariant Answers(pfn, 0, k) && Answers(npf, 0, kf)
        invariant Wanted(pfn, done, k, pages) && Queued(mem, root, pfn, lo, pages, updates[..count])
        invariant address == endAddress ==> done == k
        decreases endAddress - address
      {
        assert address / PAGE_SIZE == lo + k;
        ghost var mem1, roles1, kf1, batch := mem, roles, kf, updates[..count];
        var reached, t; ghost var own';
        NeededNext(mem0, mem, root, lo, k);
        reached, t, kf, own' := ReachL1(address, npf, kf, lo, hi);
        OwnIsOutside(own', mem1, root, virt, npf, kf1, kf, roles, lo, hi);
        BuiltOutside(mem1, mem0, root, pfn, lo, done, own, hi);
        OwnMore(own, own', mem0, mem1, root, virt, npf, 0, kf1, kf, roles1, roles, lo, hi);
        BuiltAfter(mem1, mem, mem0, root, pfn, lo, done, own, own');
        MadeMore(mem0, mem1, mem, root, npf, 0, kf1, kf, lo, hi);
        KeepsThrough(mem0, mem1, mem, root);
        own := own + own';
        assert updates[..count] == batch;
        QueuedAfter(mem1, mem, root, pfn, lo, pages, batch);
        if !reached {
          OpenedFirst(mem0, mem1, root, lo, k);
          OpenedAfterFailure(mem0, mem1, mem, root, lo, k);
          return false, done, k, kf, own;
        }
        AllOpenedNext(mem0, mem1, mem, root, lo, k);
        var offset := TableOffset(address, 1);
        OffsetIsIndex(address, 1);
        var frame := pfn(k);
        if frame < 0 {
          OpenedFirst(mem0, mem, root, lo, k + 1);
          return false, done, k + 1, kf, own;
        }
        WantedNext(pfn, done, k, pages);
        if frame > 0 {
          updates[count] := Update(EntryPtr(t, offset), MakePte(frame, L1_PROT));
          QueuedNext(mem, root, pfn, lo, pages, batch, k, updates[count]);
          assert updates[..count + 1] == batch + [updates[count]];
          pages := pages + [k];
          count := count + 1;
        }
        k := k + 1;
        address := address + PAGE_SIZE;
        if count == ENTRIES || address == endAddress {
          ghost var mem2 := mem;
          Flush(updates, count, mem0, pfn, lo, done, k, own, pages);
          SupplyOutside(mem2, mem, mem0, root, virt, pfn, npf, kf, lo, hi, done, k, own);
          OpenedAfterFlush(mem0, mem2, mem, root, lo, k);
          MadeStays(mem0, mem2, mem, root, npf, kf, lo, hi);
          KeepsThrough(mem0, mem2, mem, root);
          done, count, pages := k, 0, [];
          NothingWanted(mem, root, pfn, lo, k, updates[..0]);
        }
      }
      OpenedFirst(mem0, mem, root, lo, k);
      return true, done, k, kf, own;
    }

    /** guk_not11_virt_to_pfn */
    method VirtToPfn(a: nat) returns (r: WalkResult)
      requires Valid() && a < ADDRESSES
      ensures r == Walk(mem, root, pfnOf, a / PAGE_SIZE)
    {
      hide MakePte, FrameOf, Present;
      ghost var p := a / PAGE_SIZE;
      var tab, level, pte, frame := root, 4, 0, root;
      while level > 0
        invariant 0 <= level <= 4
        invariant level > 0 ==> TableAt(mem, root, p, level) == Some(tab)
        invariant level == 0 ==> Leaf(mem, root, p) == Some(pte) && frame == FrameOf(pte)
      {
        TableHasRole(mem, roles, root, p, level);
        OffsetIsIndex(a, level);
        pte := mem[tab][TableOffset(a, level)];
        if level > 1 && !Present(pte) {
          NoLeaf(mem, root, p, level - 1);
          return NotPresent;
        }
        frame := FrameOf(pte);
        tab := frame;
        level := level - 1;
      }
      r := Found(pfnOf(frame), pte);
    }

    /** guk_validate. */
    method Validate(a: nat) returns (valid: bool)
      requires Valid() && a < ADDRESSES
      ensures valid == Valid1(mem, root, pfnOf, a / PAGE_SIZE)
    {
      var r := VirtToPfn(a);
      valid := r.Found? && r.pfn > 0 && Present(r.pte);
    }
  }

  /** Page p is mapped, to a frame with a positive pseudo-physical number. */
  predicate Valid1(mem: Memory, root: nat, pfnOf: nat -> int, p: nat) {
    Translate(mem, root, p).Some? && pfnOf(Translate(mem, root, p).value) > 0
  }

  lemma {:induction false} NoLeaf(mem: Memory, root: nat, p: nat, level: nat)
    requires 1 <= level < 4 && TableAt(mem, root, p, level).None?
    ensures Leaf(mem, root, p).None?
  {
    if level > 1 {
      NoLeaf(mem, root, p, level - 1);
    }
  }

  lemma RegionStep(p: nat, level: nat)
    requires level > 0
    ensures Region(p, level - 1) == Region(p, level) * ENTRIES + Index(p, level)
  {
  }

  lemma Unchanged(mem: Memory, roles: map<nat, Role>, root: nat, level: nat, r: nat)
    requires Good(mem, roles, root)
    ensures LeavesAfter(mem, mem, root, map[]) && KeepsTables(mem, mem, root) && UppersGrow(mem, mem, root) && OpensOnly(mem, mem, root, level, r)
  {
    hide TableAt, Region;
    forall p | 0 <= p < PAGES
      ensures LeafOrZero(mem, mem, root, p) == Leaf(mem, root, p)
    {
      TableHasRole(mem, roles, root, p, 1);
    }
  }

  lemma RootTable(mem: Memory, roles: map<nat, Role>, root: nat, p: nat)
    requires Good(mem, roles, root)
    ensures TableAt(mem, root, p, 4) == Some(root)
  {
  }

  lemma UnchangedGrows(mem: Memory, roles: map<nat, Role>, root: nat, virt: nat -> nat, npf: nat -> int, k: nat, lo: nat, hi: nat, level: nat, r: nat)
    requires Good(mem, roles, root)
    ensures Grown(mem, roles, mem, roles, root, virt, npf, k, k, map[], lo, hi)
    ensures OpensOnly(mem, mem, root, level, r)
  {
    hide LeavesAfter, KeepsTables, UppersGrow, TableAt;
    Unchanged(mem, roles, root, level, r);
  }

  lemma AbsentBelow(mem: Memory, root: nat, p: nat, level: nat, t: nat, offset: nat)
    requires 2 <= level <= 4 && TableAt(mem, root, p, level) == Some(t) && t in mem && |mem[t]| == ENTRIES
    requires offset == Index(p, level) && !Present(mem[t][offset])
    ensures TableAt(mem, root, p, level - 1).None?
  {
  }

  lemma OpenedFirst(mem0: Memory, mem: Memory, root: nat, lo: nat, k: nat)
    requires AllOpened(mem0, mem, root, lo, k)
    ensures Opened(mem0, mem, root, lo, k, 1)
  {
  }

  /** Making the tables of levels 3 and 2 does not touch what is missing below. */
  lemma SameBelow(mem0: Memory, mem1: Memory, mem2: Memory, root: nat, p: nat)
    requires OpensOnly(mem0, mem1, root, 3, Region(p, 3)) && OpensOnly(mem1, mem2, root, 2, Region(p, 2)) && p < PAGES
    requires KeepsTables(mem0, mem1, root) && KeepsTables(mem1, mem2, root)
    ensures Absent(mem1, root, p, 2) == Absent(mem0, root, p, 2) && Absent(mem2, root, p, 1) == Absent(mem0, root, p, 1)
  {
    hide OpensOnly, KeepsTables, Region, Absent;
    OtherLevels(mem0, mem1, root, 3, Region(p, 3), p, 2);
    OtherLevels(mem0, mem1, root, 3, Region(p, 3), p, 1);
    OtherLevels(mem1, mem2, root, 2, Region(p, 2), p, 1);
  }

  lemma OwnIsOutside(own: map<nat, nat>, mem: Memory, root: nat, virt: nat -> nat, npf: nat -> int, from: nat, end: nat,
                     roles: map<nat, Role>, lo: nat, hi: nat)
    requires OwnPages(own, mem, root, virt, npf, from, end, roles, lo, hi)
    ensures forall p :: p in own ==> !(lo <= p < hi)
  {
  }

  lemma SupplyHead(mem: Memory, root: nat, virt: nat -> nat, npf: nat -> int, k: nat, lo: nat, hi: nat)
    requires Supply(mem, root, virt, npf, k, lo, hi)
    ensures npf(k) >= 0 ==> FreshFrame(mem, root, virt, npf(k), lo, hi)
    ensures npf(k) < 0 ==> Supply(mem, root, virt, npf, k + 1, lo, hi)
  {
  }

  lemma SupplyShrinks(mem: Memory, mem': Memory, root: nat, virt: nat -> nat, npf: nat -> int, k: nat, lo: nat, hi: nat, own: map<nat, nat>)
    requires Supply(mem, root, virt, npf, k, lo, hi) && npf(k) >= 0 && own.Keys == {virt(npf(k))}
    requires mem'.Keys == mem.Keys + {npf(k)} && LeavesAfter(mem, mem', root, own)
    ensures Supply(mem', root, virt, npf, k + 1, lo, hi)
  {
    hide Leaf, FrameOf, Present, Writable;
    assert FreshFrame(mem, root, virt, npf(k), lo, hi);
    forall i | k + 1 <= i && npf(i) >= 0
      ensures FreshFrame(mem', root, virt, npf(i), lo, hi)
    {
      assert FreshFrame(mem, root, virt, npf(i), lo, hi);
    }
  }

  lemma PathContinues(mem: Memory, mem': Memory, root: nat, f: nat, i: nat, g: nat, p: nat, level: nat)
    requires LeadsTo(mem, mem', root, f, i, g) && p < PAGES && 1 <= level < 4
    requires TableAt(mem, root, p, level + 1) == Some(f) && i == Index(p, level + 1)
    ensures TableAt(mem', root, p, level) == Some(g)
  {
  }

  lemma TableOnPath(mem: Memory, mem': Memory, root: nat, p: nat, level: nat)
    requires KeepsTables(mem, mem', root) && p < PAGES && 1 <= level <= 4 && TableAt(mem, root, p, level).Some?
    ensures TableAt(mem', root, p, level) == TableAt(mem, root, p, level)
  {
  }

  lemma KeepsReflexive(mem: Memory, root: nat)
    ensures KeepsTables(mem, mem, root) && SameTables(mem, mem, root) && UppersGrow(mem, mem, root)
  {
    UppersStay(mem, root);
    hide UppersGrow;
  }

  lemma KeepsThrough(a: Memory, b: Memory, c: Memory, root: nat)
    requires KeepsTables(a, b, root) && KeepsTables(b, c, root) && UppersGrow(a, b, root) && UppersGrow(b, c, root)
    ensures KeepsTables(a, c, root) && UppersGrow(a, c, root)
  {
    UppersThrough(a, b, c, root);
    hide TableAt, UppersGrow;
  }

  lemma NothingMade(mem: Memory, root: nat, npf: nat -> int, lo: nat, hi: nat)
    ensures Made(mem, mem, root, npf, 0, 0, lo, hi) && KeepsTables(mem, mem, root) && UppersGrow(mem, mem, root) && TablesNeeded(mem, root, lo, 0) == 0
  {
    UppersStay(mem, root);
    hide UppersGrow;
  }

  lemma MadeStays(a: Memory, b: Memory, c: Memory, root: nat, npf: nat -> int, end: nat, lo: nat, hi: nat)
    requires Made(a, b, root, npf, 0, end, lo, hi) && KeepsTables(a, b, root) && KeepsTables(b, c, root) && b.Keys == c.Keys
    ensures Made(a, c, root, npf, 0, end, lo, hi)
  {
    hide TableAt, MadeFor, KeepsTables;
    MadeMore(a, b, c, root, npf, 0, end, end, lo, hi);
  }

  lemma KeepsTransitive(a: Memory, b: Memory, c: Memory, root: nat)
    requires KeepsTables(a, b, root) && KeepsTables(b, c, root) && SameTables(a, b, root) && SameTables(b, c, root)
    requires UppersGrow(a, b, root) && UppersGrow(b, c, root)
    ensures KeepsTables(a, c, root) && SameTables(a, c, root) && UppersGrow(a, c, root)
  {
    UppersThrough(a, b, c, root);
    hide TableAt, UppersGrow;
  }

  // ---------- The builder and the walker agree ----------

  /** After a build, the walk of a page the callback gave a frame for ends at a present entry for that frame. */
  lemma WalkFindsBuiltPage(mem: Memory, mem0: Memory, root: nat, pfnOf: nat -> int, pfn: nat -> int, lo: nat, k: nat, own: map<nat, nat>, p: nat)
    requires Built(mem, mem0, root, pfn, lo, k, own) && p < PAGES && lo <= p < lo + k && 0 < pfn(p - lo) < FRAMES
    ensures Walk(mem, root, pfnOf, p) == Found(pfnOf(pfn(p - lo)), MakePte(pfn(p - lo), L1_PROT))
    ensures Translate(mem, root, p) == Some(pfn(p - lo))
  {
    hide MakePte, FrameOf, Leaf;
    assert Leaf(mem, root, p) == ExpectedLeaf(mem0, mem, root, pfn, lo, k, own, p);
    PteRoundTrip(pfn(p - lo), L1_PROT);
  }

  /** Page p is not one that the build was asked to map. */
  predicate Other(pfn: nat -> int, lo: nat, k: nat, p: nat) { !(lo <= p < lo + k && pfn(p - lo) > 0) }

  /** Every other page, and every page the callback answered 0 for, is mapped and validated as before. */
  lemma OtherPagesUnchanged(mem: Memory, mem0: Memory, root: nat, virt: nat -> nat, pfnOf: nat -> int, pfn: nat -> int, npf: nat -> int,
                            roles: map<nat, Role>, lo: nat, hi: nat, k: nat, used: nat, own: map<nat, nat>, p: nat)
    requires Built(mem, mem0, root, pfn, lo, k, own) && OwnPages(own, mem0, root, virt, npf, 0, used, roles, lo, hi)
    requires p < PAGES && Other(pfn, lo, k, p)
    ensures Translate(mem, root, p) == Translate(mem0, root, p) && Valid1(mem, root, pfnOf, p) == Valid1(mem0, root, pfnOf, p)
  {
    hide MakePte, FrameOf, Leaf, Writable, Present;
    assert Leaf(mem, root, p) == ExpectedLeaf(mem0, mem, root, pfn, lo, k, own, p);
    ZeroIsAbsent();
    if p in own {
      OwnIsReadOnly(own[p], mem0, root, virt, npf, 0, used, lo, hi, p);
    }
  }

  /** Page p shows, in the 1-1 mapping, one of the first `used` frames that the table callback gave. */
  ghost predicate TablePage(virt: nat -> nat, npf: nat -> int, used: nat, p: nat) {
    exists i :: 0 <= i < used && npf(i) >= 0 && virt(npf(i)) == p
  }

  /** Page p had no last-level table and lies in the 2MB region of one of the k pages from lo on. */
  ghost predicate NewlyOpened(mem0: Memory, root: nat, lo: nat, k: nat, p: nat) {
    Leaf(mem0, root, p).None? && Shares(lo, k, p, 1)
  }

  /**
    The walker does not answer as before for every other page, because it reports entries and not
    mappings. It answers differently exactly for the pages of the new tables, whose entries became
    read-only, and for the pages of newly opened 2MB regions, where NOT PRESENT became an empty entry.
    */
  lemma WalkerOnEveryPage(mem0: Memory, roles0: map<nat, Role>, mem: Memory, roles: map<nat, Role>, root: nat, virt: nat -> nat,
                          pfnOf: nat -> int, pfn: nat -> int, npf: nat -> int, lo: nat, hi: nat, k: nat, regions: nat, used: nat,
                          own: map<nat, nat>, p: nat)
    requires Good(mem0, roles0, root) && Good(mem, roles, root) && p < PAGES && Other(pfn, lo, k, p)
    requires Built(mem, mem0, root, pfn, lo, k, own) && Opened(mem0, mem, root, lo, regions, 1)
    requires OwnPages(own, mem0, root, virt, npf, 0, used, roles, lo, hi) && CallsMade(mem0, root, npf, lo, regions, used)
    ensures Walk(mem, root, pfnOf, p) == Walk(mem0, root, pfnOf, p) <==>
            !TablePage(virt, npf, used, p) && !NewlyOpened(mem0, root, lo, regions, p)
    ensures Answers(npf, 0, used) ==>
            (Walk(mem, root, pfnOf, p) == Walk(mem0, root, pfnOf, p) <==>
             !TablePage(virt, npf, TablesNeeded(mem0, root, lo, regions), p) && !NewlyOpened(mem0, root, lo, regions, p))
    ensures NewlyOpened(mem0, root, lo, regions, p) ==>
            Walk(mem0, root, pfnOf, p) == NotPresent && Walk(mem, root, pfnOf, p) == Found(pfnOf(FrameOf(0)), 0)
    ensures TablePage(virt, npf, used, p) ==>
            exists i :: 0 <= i < used && npf(i) >= 0 && virt(npf(i)) == p && npf(i) in roles &&
                        Leaf(mem, root, p) == Some(MakePte(npf(i), ReadOnly(roles[npf(i)].level)))
  {
    hide MakePte, FrameOf, TableAt, Writable, Present, Region, Shares, TablesNeeded;
    assert Leaf(mem, root, p) == ExpectedLeaf(mem0, mem, root, pfn, lo, k, own, p);
    TableHasRole(mem0, roles0, root, p, 1);
    assert TableAt(mem, root, p, 1).Some? <==> TableAt(mem0, root, p, 1).Some? || Shares(lo, regions, p, 1);
    TablePagesAreOwn(own, mem0, root, virt, npf, used, roles, lo, hi, p);
    if p in own {
      OwnIsReadOnly(own[p], mem0, root, virt, npf, 0, used, lo, hi, p);
    }
  }

  lemma TablePagesAreOwn(own: map<nat, nat>, mem0: Memory, root: nat, virt: nat -> nat, npf: nat -> int, used: nat,
                         roles: map<nat, Role>, lo: nat, hi: nat, p: nat)
    requires OwnPages(own, mem0, root, virt, npf, 0, used, roles, lo, hi)
    ensures p in own <==> TablePage(virt, npf, used, p)
    ensures p in own ==> exists i :: 0 <= i < used && npf(i) >= 0 && virt(npf(i)) == p && npf(i) in roles &&
                                     own[p] == MakePte(npf(i), ReadOnly(roles[npf(i)].level))
  {
    hide MakePte, Leaf;
    if p in own {
      assert OwnPage(own[p], mem0, root, virt, npf, 0, used, lo, hi, p);
    }
  }

  /** With pfn_linear_alloc, whose i-th frame is that of pseudo-physical page base + i, a range is mapped linearly. */
  lemma LinearAllocMapsLinearly(mem: Memory, mem0: Memory, root: nat, p2m: nat -> int, pfnOf: nat -> int, base: nat, lo: nat, k: nat,
                                own: map<nat, nat>, p: nat)
    requires forall n :: base <= n < base + k ==> 0 < p2m(n) < FRAMES && pfnOf(p2m(n)) == n
    requires Built(mem, mem0, root, (i: nat) => p2m(base + i), lo, k, own) && p < PAGES && lo <= p < lo + k
    ensures Walk(mem, root, pfnOf, p) == Found(base + (p - lo), MakePte(p2m(base + (p - lo)), L1_PROT))
    ensures Translate(mem, root, p) == Some(p2m(base + (p - lo)))
  {
    hide Built, MakePte, Walk, Translate;
    assert base <= base + (p - lo) < base + k;
    WalkFindsBuiltPage(mem, mem0, root, pfnOf, (i: nat) => p2m(base + i), lo, k, own, p);
  }

  /** Building a range with that callback, and walking it. */
  method BuildLinear(space: AddressSpace, startAddress: nat, endAddress: nat, base: nat, p2m: nat -> int, npf: nat -> int) returns (ok: bool)
    requires space.Valid() && startAddress % PAGE_SIZE == 0 && endAddress % PAGE_SIZE == 0
    requires startAddress <= endAddress <= ADDRESSES
    requires forall n :: base <= n < base + (endAddress - startAddress) / PAGE_SIZE ==> 0 < p2m(n) < FRAMES && space.pfnOf(p2m(n)) == n
    requires Supply(space.mem, space.root, space.virt, npf, 0, startAddress / PAGE_SIZE, endAddress / PAGE_SIZE)
    modifies space
    ensures space.Valid()
    ensures ok ==> forall p :: startAddress / PAGE_SIZE <= p < endAddress / PAGE_SIZE ==>
              Walk(space.mem, space.root, space.pfnOf, p)
              == Found(base + (p - startAddress / PAGE_SIZE), MakePte(p2m(base + (p - startAddress / PAGE_SIZE)), L1_PROT))
  {
    hide Built, MakePte, Walk, Translate, Supply, Good, Opened, OwnPages;
    ghost var mem0, lo, k := space.mem, startAddress / PAGE_SIZE, (endAddress - startAddress) / PAGE_SIZE;
    ghost var done, regions, used, own;
    ok, done, regions, used, own := space.BuildPagetable(startAddress, endAddress, (i: nat) => p2m(base + i), npf);
    if ok {
      forall p | lo <= p < endAddress / PAGE_SIZE
        ensures Walk(space.mem, space.root, space.pfnOf, p) == Found(base + (p - lo), MakePte(p2m(base + (p - lo)), L1_PROT))
      {
        LinearAllocMapsLinearly(space.mem, mem0, space.root, p2m, space.pfnOf, base, lo, k, own, p);
      }
    }
  }

  // ---------- A build that the walker notices ----------

  /** A table with one entry, for the table in frame g. */
  function TableTo(g: nat): seq<nat> {
    var table: seq<nat> := Zeroed()[0 := MakePte(g, L2_PROT)];
    table
  }

  /** The first 2MB mapped 1-1, by tables in the frames 1 to 4. */
  function SmallMemory(): Memory {
    map[1 := TableTo(2), 2 := TableTo(3), 3 := TableTo(4), 4 := seq(ENTRIES, i requires 0 <= i < ENTRIES => MakePte(i, L1_PROT))]
  }

  function SmallRoles(): map<nat, Role> {
    map[1 := Role(4, 0), 2 := Role(3, 0), 3 := Role(2, 0), 4 := Role(1, 0)]
  }

  lemma TableToEntries(g: nat, i: nat)
    requires g < FRAMES && i < ENTRIES
    ensures |TableTo(g)| == ENTRIES && (Present(TableTo(g)[i]) <==> i == 0) && FrameOf(TableTo(g)[0]) == g
  {
    hide MakePte, FrameOf;
    PteRoundTrip(g, L2_PROT);
  }

  lemma SmallIsGood()
    ensures Good(SmallMemory(), SmallRoles(), 1)
  {
    hide MakePte, FrameOf, Present, TableTo;
    var mem, roles := SmallMemory(), SmallRoles();
    forall g | g in {2, 3, 4}
      ensures |TableTo(g)| == ENTRIES
    {
      TableToEntries(g, 0);
    }
    forall f, i | f in mem && 0 <= i < ENTRIES
      ensures EntryOk(mem, roles, f, i)
    {
      if f < 4 {
        TableToEntries(f + 1, i);
      }
    }
  }

  /** The walks in it: pages below 512 have their own frames, and from 512 on there is no last-level table. */
  lemma SmallWalks(p: nat)
    requires p < 1024
    ensures var mem := SmallMemory();
      && (p < 512 ==> Leaf(mem, 1, p) == Some(MakePte(p, L1_PROT)))
      && (p >= 512 ==> Leaf(mem, 1, p) == None)
      && TableAt(mem, 1, p, 2) == Some(3) && TableAt(mem, 1, p, 3) == Some(2)
  {
    hide MakePte, FrameOf, Present, TableTo;
    var mem := SmallMemory();
    SmallIndices(p);
    TableToEntries(2, Index(p, 4));
    TableToEntries(3, Index(p, 3));
    TableToEntries(4, Index(p, 2));
    assert TableAt(mem, 1, p, 4) == Some(1);
    assert TableAt(mem, 1, p, 3) == Some(2);
    assert TableAt(mem, 1, p, 2) == Some(3);
    assert TableAt(mem, 1, p, 1) == if p < 512 then Some(4) else None;
  }

  lemma SmallIndices(p: nat)
    requires p < 1024
    ensures Index(p, 4) == 0 && Index(p, 3) == 0 && Index(p, 2) == p / 512 && Index(p, 1) == p % 512
  {
    assert Region(p, 0) == p;
    assert Region(p, 1) == p / 512;
    assert Region(p, 2) == p / 512 / 512;
    assert Region(p, 3) == p / 512 / 512 / 512;
  }

  lemma SmallSupply(npf: nat -> int)
    requires npf(0) == 10 && forall i: nat :: i > 0 ==> npf(i) < 0
    ensures Supply(SmallMemory(), 1, (f: nat) => f, npf, 0, 512, 513)
  {
    hide MakePte, FrameOf, Present, Writable, Leaf;
    SmallWalks(10);
    PteRoundTrip(10, L1_PROT);
    PteWritable(10, L1_PROT);
    ProtBits();
    assert FreshFrame(SmallMemory(), 1, (f: nat) => f, 10, 512, 513);
  }

  /** Building page 512 there needs one table and finds a frame for it. */
  lemma SmallBuild(mem: Memory, roles: map<nat, Role>, npf: nat -> int, used: nat)
    requires npf(0) == 10 && forall i: nat :: i > 0 ==> npf(i) < 0
    requires Good(mem, roles, 1) && KeepsTables(SmallMemory(), mem, 1) && RolesGrow(SmallRoles(), roles)
    requires Made(SmallMemory(), mem, 1, npf, 0, used, 512, 513)
    ensures used > 0 ==> 10 in roles && roles[10].level == 1 && !SomeMissing(mem, 1, 512, 513)
    ensures Opened(SmallMemory(), mem, 1, 512, 1, 1) ==> used > 0
  {
    hide TableAt, SmallMemory, FrameOf, Leaf, Region;
    var mem0 := SmallMemory();
    SmallWalks(512);
    TableHasRole(mem, roles, 1, 512, 1);
    if used > 0 {
      assert MadeFor(mem0, mem, 1, 512, 513, npf(0));
      assert TableAt(mem, 1, 512, 1) == Some(10);
      assert TableAt(mem, 1, 512, 2) == TableAt(mem0, 1, 512, 2) && TableAt(mem, 1, 512, 3) == TableAt(mem0, 1, 512, 3);
    } else if Opened(mem0, mem, 1, 512, 1, 1) {
      SharesItself(512, 1, Region(512, 1));
      NoSuchRole(mem, roles, npf, TableAt(mem, 1, 512, 1).value);
      SmallRegion();
    }
  }

  lemma SharesItself(p: nat, level: nat, r: nat)
    requires Region(p, level) == r
    ensures Shares(p, 1, p, level)
  {
    hide Region;
    assert p <= p < p + 1 && Region(p, level) == r;
  }

  lemma SmallRegion()
    ensures Region(512, 1) == 1 && Region(513, 1) == 1 && FrameOf(0) == 0
  {
    assert Region(512, 0) == 512 && Region(513, 0) == 513;
  }

  lemma NoSuchRole(mem: Memory, roles: map<nat, Role>, npf: nat -> int, t: nat)
    requires Good(mem, roles, 1) && RolesGrow(SmallRoles(), roles) && Made(SmallMemory(), mem, 1, npf, 0, 0, 512, 513) && t in roles
    ensures roles[t] in {Role(4, 0), Role(3, 0), Role(2, 0), Role(1, 0)}
  {
    hide TableAt, TableTo;
    assert t in mem;
    assert t in SmallMemory();
    assert t in SmallRoles();
  }

  /**
    There the walker's answers change for two pages that the build does not map: page 10, where the
    table's own frame shows, and page 513, which had no table.
    */
  method WalkerNotices() returns (ok: bool, tableBefore: WalkResult, tableAfter: WalkResult, nextBefore: WalkResult, nextAfter: WalkResult)
    ensures ok
    ensures tableBefore == Found(10, MakePte(10, L1_PROT)) && tableAfter == Found(10, MakePte(10, L1_PROT_RO))
    ensures nextBefore == NotPresent && nextAfter == Found(0, 0)
  {
    hide Good, SmallMemory, SmallRoles, MakePte, FrameOf, Supply, Built, Opened, OwnPages, Made, CallsMade, KeepsTables, SomeMissing, Walk, TableAt, Leaf;
    SmallIsGood();
    SmallSupply((i: nat) => if i == 0 then 10 else -1);
    var space := new AddressSpace(1, (f: nat) => f, (f: nat) => f, SmallMemory(), SmallRoles());
    tableBefore := space.VirtToPfn(10 * PAGE_SIZE);
    nextBefore := space.VirtToPfn(513 * PAGE_SIZE);
    ghost var done, regions, used, own;
    ok, done, regions, used, own := space.BuildPagetable(512 * PAGE_SIZE, 513 * PAGE_SIZE, (i: nat) => 20, (i: nat) => if i == 0 then 10 else -1);
    SmallBuild(space.mem, space.roles, (i: nat) => if i == 0 then 10 else -1, used);
    tableAfter := space.VirtToPfn(10 * PAGE_SIZE);
    nextAfter := space.VirtToPfn(513 * PAGE_SIZE);
    SmallAnswers(space.mem, space.roles, (i: nat) => 20, (i: nat) => if i == 0 then 10 else -1, used, own);
  }

  lemma SmallAnswers(mem: Memory, roles: map<nat, Role>, pfn: nat -> int, npf: nat -> int, used: nat, own: map<nat, nat>)
    requires npf(0) == 10 && (forall i: nat :: i > 0 ==> npf(i) < 0) && used > 0 && 10 in roles && roles[10].level == 1
    requires Good(SmallMemory(), SmallRoles(), 1) && Good(mem, roles, 1)
    requires Built(mem, SmallMemory(), 1, pfn, 512, 1, own) && Opened(SmallMemory(), mem, 1, 512, 1, 1)
    requires OwnPages(own, SmallMemory(), 1, (f: nat) => f, npf, 0, used, roles, 512, 513) && CallsMade(SmallMemory(), 1, npf, 512, 1, used)
    ensures Walk(SmallMemory(), 1, (f: nat) => f, 10) == Found(10, MakePte(10, L1_PROT))
    ensures Walk(SmallMemory(), 1, (f: nat) => f, 513) == NotPresent
    ensures Walk(mem, 1, (f: nat) => f, 10) == Found(10, MakePte(10, L1_PROT_RO))
    ensures Walk(mem, 1, (f: nat) => f, 513) == Found(0, 0)
  {
    hide Good, SmallMemory, SmallRoles, MakePte, FrameOf, Built, Opened, OwnPages, CallsMade, TableAt, Leaf, Region;
    SmallWalks(10);
    SmallWalks(513);
    PteRoundTrip(10, L1_PROT);
    PteRoundTrip(10, L1_PROT_RO);
    SmallRegion();
    assert npf(0) >= 0;
    WalkerOnEveryPage(SmallMemory(), SmallRoles(), mem, roles, 1, (f: nat) => f, (f: nat) => f, pfn, npf, 512, 513, 1, 1, used, own, 10);
    WalkerOnEveryPage(SmallMemory(), SmallRoles(), mem, roles, 1, (f: nat) => f, (f: nat) => f, pfn, npf, 512, 513, 1, 1, used, own, 513);
  }
}
