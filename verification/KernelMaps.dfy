/** The kernel's own mapping loops: physical memory through the window at KERNEL_VMA, and device
    registers through the one at KERNEL_MMIO. */
module KernelMaps {
  import opened Runs
  import opened Frames
  import opened PageSpec
  import opened PageMap
  import opened PageRuns
  import opened PageCost
  import opened Paging

  const KERNEL_MMIO: nat := 0xFFFF_FE00_0000_0000
  const WRITEABLE: bv64 := 0x2

  // ---------------------------------------------------------------- physical memory

  /** ALIGN_UP to a 2 MiB boundary. */
  function AlignUpHuge(a: nat): (r: nat)
    ensures r % HUGE_PS == 0 && a <= r < a + HUGE_PS
  {
    (a + HUGE_PS - 1) / HUGE_PS * HUGE_PS
  }

  /** Address `a` is shown in the window by a 2 MiB leaf whose frame is the start of a's 2 MiB:
      writeable and executable for the kernel alone, and cached. */
  ghost predicate InWindow(s: Pages, root: nat, a: nat) {
    var o := Translate(s, root, KernelPtr(a));
    && o.Some? && o.value.level == 2 && o.value.entry.ppn == a / 0x20_0000 * 512
    && o.value.entry.writeable && !o.value.entry.user && !o.value.entry.executionDisabled
    && !o.value.entry.writeThrough && !o.value.entry.cacheDisabled
  }

  /** That is what a leaf says that is written with the window's permissions. */
  lemma WindowLeaf(o: Option<Leaf>, ppn: nat)
    ensures LeafSays(o, 2, ppn, Decode(WRITEABLE)) <==>
            && o.Some? && o.value.level == 2 && o.value.entry.ppn == ppn
            && o.value.entry.writeable && !o.value.entry.user && !o.value.entry.executionDisabled
            && !o.value.entry.writeThrough && !o.value.entry.cacheDisabled
  {
    WindowRights();
  }

  lemma WindowRights()
    ensures Decode(WRITEABLE) == Perms(true, false, false, false, false)
  {
  }

  /** No 1 GiB leaf translates any address. */
  ghost predicate NoSuperLeaf(s: Pages, root: nat) {
    forall va :: SmallAt(s, root, va)
  }

  ghost predicate SmallAt(s: Pages, root: nat, va: nat) {
    Translate(s, root, va).Some? ==> Translate(s, root, va).value.level <= 2
  }

  lemma WindowIsCanonical(a: nat)
    requires a < PHYS_LIMIT
    ensures Canonical(KernelPtr(a))
  {
  }

  /** Window addresses share a 2 MiB page exactly when their physical addresses do. */
  lemma WindowPages(a: nat, b: nat)
    requires a < PHYS_LIMIT && b < PHYS_LIMIT
    ensures KernelPtr(a) / HUGE_PS == KernelPtr(b) / HUGE_PS <==> a / HUGE_PS == b / HUGE_PS
  {
    WindowQuotient(a);
    WindowQuotient(b);
  }

  /** KERNEL_VMA is 1024 times 2 MiB below 2^64. */
  lemma WindowQuotient(a: nat)
    requires a < PHYS_LIMIT
    ensures KernelPtr(a) / HUGE_PS == if a < 0x8000_0000 then a / HUGE_PS + 0x7FF_FFFF_FC00 else a / HUGE_PS - 1024
    ensures a / HUGE_PS < 0x8_0000
  {
  }

  lemma HugeFrame(a: nat)
    requires a < PHYS_LIMIT && a % HUGE_PS == 0
    ensures FrameField(a) == a / HUGE_PS * 512
  {
  }

  /** Mapping one 2 MiB page into the window shows it and loses none shown before. */
  lemma WindowStep(s: Pages, root: nat, a: nat, b: nat)
    requires Inv(s) && IsRoot(s, root) && NoSuperLeaf(s, root) && a < PHYS_LIMIT && a % HUGE_PS == 0
    requires b < PHYS_LIMIT && ClearPath(s, root, 4, KernelPtr(a), 2)
    ensures var (s', ok) := Insert(s, root, KernelPtr(a), 2, FrameField(a), Decode(WRITEABLE));
            && (ok && a <= b < a + HUGE_PS ==> InWindow(s', root, b))
            && (InWindow(s, root, b) ==> InWindow(s', root, b))
  {
    hide Insert, Inv, LeafSays, Translate, SamePage, Canonical, ClearPath, IsRoot, Shares, KernelPtr, Decode;
    InsertTranslates(s, root, KernelPtr(a), 2, FrameField(a), Decode(WRITEABLE), root, KernelPtr(b));
    WindowLeaf(Translate(Insert(s, root, KernelPtr(a), 2, FrameField(a), Decode(WRITEABLE)).0, root, KernelPtr(b)),
               FrameField(a));
    WindowIsCanonical(a);
    WindowIsCanonical(b);
    SamePageIff(2, KernelPtr(a), KernelPtr(b));
    WindowPages(a, b);
    HugeFrame(a);
  }

  lemma StaysSmall(s: Pages, root: nat, a: nat)
    requires Inv(s) && IsRoot(s, root) && NoSuperLeaf(s, root) && ClearPath(s, root, 4, KernelPtr(a), 2)
    ensures var s' := Insert(s, root, KernelPtr(a), 2, FrameField(a), Decode(WRITEABLE)).0;
            Inv(s') && IsRoot(s', root) && NoSuperLeaf(s', root)
  {
    var s' := Insert(s, root, KernelPtr(a), 2, FrameField(a), Decode(WRITEABLE)).0;
    InsertTranslates(s, root, KernelPtr(a), 2, FrameField(a), Decode(WRITEABLE), root, 0);
    forall va: nat
      ensures SmallAt(s', root, va)
    {
      InsertTranslates(s, root, KernelPtr(a), 2, FrameField(a), Decode(WRITEABLE), root, va);
      assert SmallAt(s, root, va);
    }
  }

  /** Everything from `lo`, rounded up to 2 MiB, to `hi` is in the window. */
  ghost predicate ShownUpTo(s: Pages, root: nat, lo: nat, hi: nat) {
    forall a: nat | AlignUpHuge(lo) <= a < hi && a < PHYS_LIMIT :: InWindow(s, root, a)
  }

  /** What the window shows in s it still shows in s'. */
  ghost predicate KeepsWindow(s: Pages, s': Pages, root: nat) {
    forall a: nat | a < PHYS_LIMIT && InWindow(s, root, a) :: InWindow(s', root, a)
  }

  lemma ShownStays(s: Pages, s': Pages, root: nat, lo: nat, hi: nat)
    requires ShownUpTo(s, root, lo, hi) && KeepsWindow(s, s', root)
    ensures ShownUpTo(s', root, lo, hi)
  {
  }

  lemma RegionEnds(m: Mem, i: nat)
    requires Layout(m) && i < |m.regions|
    ensures m.regions[i].End() <= PHYS_LIMIT
  {
    assert OkAt(m, i);
  }

  /** The address space while the loop runs: shape, page sizes and regions stay what they were,
      and nothing shown is lost. */
  ghost predicate Underway(s0: Pages, s: Pages, root: nat) {
    && Inv(s) && IsRoot(s, root) && NoSuperLeaf(s, root)
    && SameShape(s0.mem.regions, s.mem.regions) && KeepsWindow(s0, s, root)
  }

  lemma ShowStep(s0: Pages, s: Pages, root: nat, a: nat)
    requires Underway(s0, s, root) && a < PHYS_LIMIT && a % HUGE_PS == 0
    ensures ClearPath(s, root, 4, KernelPtr(a), 2)
    ensures var (s', ok) := Insert(s, root, KernelPtr(a), 2, FrameField(a), Decode(WRITEABLE));
            && Underway(s0, s', root) && KeepsWindow(s, s', root)
            && (ok ==> forall b: nat | a <= b < a + HUGE_PS && b < PHYS_LIMIT :: InWindow(s', root, b))
  {
    assert SmallAt(s, root, KernelPtr(a));
    UnmappedIsClear(s, root, 4, KernelPtr(a), 2);
    StaysSmall(s, root, a);
    InsertShape(s0, s, root, KernelPtr(a), FrameField(a));
    var (s', ok) := Insert(s, root, KernelPtr(a), 2, FrameField(a), Decode(WRITEABLE));
    forall b: nat | b < PHYS_LIMIT
      ensures InWindow(s, root, b) ==> InWindow(s', root, b)
      ensures ok && a <= b < a + HUGE_PS ==> InWindow(s', root, b)
    {
      WindowStep(s, root, a, b);
    }
  }

  lemma InsertShape(s0: Pages, s: Pages, root: nat, va: nat, ppn: nat)
    requires Inv(s) && IsRoot(s, root) && ClearPath(s, root, 4, va, 2) && SameShape(s0.mem.regions, s.mem.regions)
    ensures SameShape(s0.mem.regions, Insert(s, root, va, 2, ppn, Decode(WRITEABLE)).0.mem.regions)
  {
    BuildKeeps(s, root, 4, va, 2, Decode(WRITEABLE));
    BuildMem(s, root, 4, va, 2, Decode(WRITEABLE));
    SameShapeTrans(s0.mem.regions, s.mem.regions, Build(s, root, 4, va, 2, Decode(WRITEABLE)).0.mem.regions);
  }

  /** Some 2 MiB page between these addresses needs tables, and no frame is free. */
  ghost predicate ShowFails(s: Pages, root: nat, lo: nat, hi: nat) {
    exists a: nat :: PageFails(s, root, lo, hi, a)
  }

  ghost predicate PageFails(s: Pages, root: nat, lo: nat, hi: nat, a: nat) {
    AlignUpHuge(lo) <= a < hi && a % HUGE_PS == 0 && NoFrameFor(s, root, KernelPtr(a), 2)
  }

  ghost predicate RegionFails(s: Pages, root: nat, rs: seq<Region>, i: int) {
    0 <= i < |rs| && ShowFails(s, root, rs[i].startAddr, rs[i].End())
  }

  /** Shows one region in the window, 2 MiB at a time. */
  method PageInRegion(space: PageMemory, root: nat, startAddr: nat, end: nat, ghost s0: Pages) returns (r: int)
    requires space.Valid() && Underway(s0, space.Model(), root) && end <= PHYS_LIMIT
    modifies space, space.mmap.regions, space.mmap.bitmap.data
    ensures space.Valid() && Underway(s0, space.Model(), root) && (r == 0 || r == -1)
    ensures KeepsWindow(old(space.Model()), space.Model(), root)
    ensures r == 0 ==> ShownUpTo(space.Model(), root, startAddr, end)
    ensures r == -1 ==> ShowFails(space.Model(), root, startAddr, end)
  {
    hide Underway, InWindow, Inv;
    ghost var s1 := space.Model();
    var addr := AlignUpHuge(startAddr);
    while addr < end
      invariant addr % HUGE_PS == 0 && space.Valid() && Underway(s0, space.Model(), root)
      invariant KeepsWindow(s1, space.Model(), root)
      invariant ShownUpTo(space.Model(), root, startAddr, addr)
    {
      ShowStep(s0, space.Model(), root, addr);
      var code := ShowHuge(space, root, addr, s0);
      if code != 0 {
        assert PageFails(space.Model(), root, startAddr, end, addr);
        return -1;
      }
      addr := addr + HUGE_PS;
    }
    return 0;
  }

  /** Maps one 2 MiB page of physical memory into the window. */
  method ShowHuge(space: PageMemory, root: nat, addr: nat, ghost s0: Pages) returns (r: int)
    requires space.Valid() && Underway(s0, space.Model(), root) && addr < PHYS_LIMIT && addr % HUGE_PS == 0
    modifies space, space.mmap.regions, space.mmap.bitmap.data
    ensures space.Valid() && Underway(s0, space.Model(), root) && (r == 0 || r == -1)
    ensures KeepsWindow(old(space.Model()), space.Model(), root)
    ensures r == 0 ==> forall b: nat | addr <= b < addr + HUGE_PS && b < PHYS_LIMIT :: InWindow(space.Model(), root, b)
    ensures r == -1 ==> NoFrameFor(space.Model(), root, KernelPtr(addr), 2)
  {
    ShowStep(s0, space.Model(), root, addr);
    r := space.PageIn(root, KernelPtr(addr), addr, HUGE_PS, WRITEABLE);
  }

  /** Shows every region of the memory map in the window. Page tables come out of the same map
      meanwhile. */
  method PageInRegions(space: PageMemory, root: nat) returns (r: int)
    requires space.Valid() && IsRoot(space.Model(), root) && NoSuperLeaf(space.Model(), root)
    modifies space, space.mmap.regions, space.mmap.bitmap.data
    ensures space.Valid() && (r == 0 || r == -1) && Underway(old(space.Model()), space.Model(), root)
    ensures r == 0 ==> forall i | 0 <= i < |old(space.Model()).mem.regions| ::
                         var g := old(space.Model()).mem.regions[i]; ShownUpTo(space.Model(), root, g.startAddr, g.End())
    ensures r == -1 ==> exists i :: RegionFails(space.Model(), root, old(space.Model()).mem.regions, i)
  {
    hide Inv, ShownUpTo, NoSuperLeaf, Layout;
    ghost var s0 := space.Model();
    ghost var rs := s0.mem.regions;
    SameShapeRefl(rs);
    for i := 0 to space.mmap.regionCount
      invariant space.Valid() && Underway(s0, space.Model(), root) && |rs| == space.mmap.regionCount
      invariant forall j | 0 <= j < i :: ShownUpTo(space.Model(), root, rs[j].startAddr, rs[j].End())
    {
      ghost var s := space.Model();
      assert ShapeAt(rs, s.mem.regions, i);
      RegionEnds(s.mem, i);
      var region := space.mmap.regions[i];
      assert region == s.mem.regions[i];
      var code := PageInRegion(space, root, region.startAddr, region.End(), s0);
      if code != 0 {
        assert RegionFails(space.Model(), root, rs, i);
        return -1;
      }
      forall j | 0 <= j < i + 1
        ensures ShownUpTo(space.Model(), root, rs[j].startAddr, rs[j].End())
      {
        if j < i {
          ShownStays(s, space.Model(), root, rs[j].startAddr, rs[j].End());
        }
      }
    }
    return 0;
  }

  /** A software walk of the window reads a 2 MiB-aligned address back exactly below 2 GiB. */
  lemma WindowReadsBack(s: Pages, root: nat, a: nat)
    requires InWindow(s, root, a) && a < PHYS_LIMIT && a % HUGE_PS == 0
    ensures Shl12(Translate(s, root, KernelPtr(a)).value.entry.ppn) == a <==> a < 0x8000_0000
  {
    HugeFrame(a);
    ReadBackIff(FrameField(a));
  }

  // ---------------------------------------------------------------- device registers

  /** MMIO_PHYS_TO_VIRT, in 64 bits. */
  function MmioPtr(physAddr: nat): nat { (physAddr + KERNEL_MMIO) % WORD64 }

  /** The frames of n consecutive pages from `start` on. */
  function FramesFrom(start: nat, n: nat): (ppns: seq<nat>)
    ensures |ppns| == n
  {
    seq(n, i requires 0 <= i < n => FrameField(start + i * PAGE))
  }

  lemma FramesFromStep(start: nat, n: nat)
    ensures FramesFrom(start, n + 1) == FramesFrom(start, n) + [FrameField(start + n * PAGE)]
  {
  }

  function PagesFor(size: nat): nat { (size + PAGE - 1) / PAGE }

  /** Nothing larger than a 4 KiB page translates any of the n pages from va0 on. */
  ghost predicate OnlySmallPages(s: Pages, root: nat, va0: nat, n: nat) {
    forall k: nat | k < n :: SmallPageAt(s, root, va0 + k * PAGE)
  }

  ghost predicate SmallPageAt(s: Pages, root: nat, va: nat) {
    Translate(s, root, va).Some? ==> Translate(s, root, va).value.level == 1
  }

  lemma MmioStretch(start: nat, n: nat)
    requires start % PAGE == 0 && start + n * PAGE <= PHYS_LIMIT
    ensures CanonicalStretch(MmioPtr(start), n * PAGE) && MmioPtr(start) % PAGE == 0
    ensures MmioPtr(start) == start + KERNEL_MMIO
    ensures n > 0 ==> MmioPtr(start + (n - 1) * PAGE) == MmioPtr(start) + (n - 1) * PAGE
  {
  }

  lemma MmioStep(s0: Pages, s: Pages, root: nat, start: nat, i: nat, n: nat, p: Perms)
    requires Inv(s) && IsRoot(s, root) && start % PAGE == 0 && i < n && start + n * PAGE <= PHYS_LIMIT
    requires OnlySmallPages(s0, root, MmioPtr(start), n)
    requires Filled(s0, s, root, MmioPtr(start), 1, FramesFrom(start, i), p)
    ensures var va := MmioPtr(start + i * PAGE);
            && ClearPath(s, root, 4, va, 1)
            && var (s', ok) := Insert(s, root, va, 1, FrameField(start + i * PAGE), p);
               && Inv(s') && IsRoot(s', root)
               && Filled(s0, s', root, MmioPtr(start), 1, FramesFrom(start, if ok then i + 1 else i), p)
  {
    hide Insert, Inv, LeafSays, ClearPath, MmioPtr, Filled, Shares;
    var va := MmioPtr(start + i * PAGE);
    MmioStretch(start, i + 1);
    assert FilledAt(s0, s, root, MmioPtr(start), 1, FramesFrom(start, i), p, va) by {
      FilledMeans(s0, s, root, MmioPtr(start), FramesFrom(start, i), p, va);
    }
    assert SmallPageAt(s0, root, MmioPtr(start) + i * PAGE);
    UnmappedIsClear(s, root, 4, va, 1);
    FillStep(s0, s, root, MmioPtr(start), 1, FramesFrom(start, i), p, FrameField(start + i * PAGE));
    FramesFromStep(start, i);
  }

  lemma FilledMeans(s0: Pages, s: Pages, r: nat, va0: nat, ppns: seq<nat>, p: Perms, va: nat)
    requires Filled(s0, s, r, va0, 1, ppns, p) && Canonical(va)
    ensures FilledAt(s0, s, r, va0, 1, ppns, p, va)
  {
  }

  /** Maps the pages from `physAddr`, rounded down, that `size` bytes fill: the address to use on
      success, FRAME_ALLOC_FAILED when a table could not be allocated. The first `done` pages are
      mapped either way. */
  method MapMmio(space: PageMemory, root: nat, physAddr: nat, size: nat, flags: bv64) returns (v: nat, ghost done: nat)
    requires space.Valid() && IsRoot(space.Model(), root)
    requires physAddr + PagesFor(size) * PAGE <= PHYS_LIMIT
    requires OnlySmallPages(space.Model(), root, MmioPtr(physAddr - physAddr % PAGE), PagesFor(size))
    modifies space, space.mmap.regions, space.mmap.bitmap.data
    ensures space.Valid() && IsRoot(space.Model(), root)
    ensures done <= PagesFor(size) && v == if done == PagesFor(size) then physAddr + 0xFFFF_FE00_0000_0000 else FAILED
    ensures Filled(old(space.Model()), space.Model(), root, MmioPtr(physAddr - physAddr % PAGE), 1,
                   FramesFrom(physAddr - physAddr % PAGE, done), Decode(flags))
    ensures done < PagesFor(size) ==> NoFrameFor(space.Model(), root, MmioPtr(physAddr - physAddr % PAGE + done * PAGE), 1)
  {
    hide Insert, Inv, Filled, OnlySmallPages, Decode, FramesFrom, ClearPath, NoFrameFor;
    ghost var s0, n := space.Model(), PagesFor(size);
    var start := physAddr - physAddr % PAGE;
    done := 0;
    FilledStart(s0, root, start, Decode(flags));
    var i := 0;
    while i < size
      invariant i == done * PAGE && done <= n && space.Valid() && IsRoot(space.Model(), root)
      invariant Filled(s0, space.Model(), root, MmioPtr(start), 1, FramesFrom(start, done), Decode(flags))
    {
      PageCount(size, done);
      MmioStep(s0, space.Model(), root, start, done, n, Decode(flags));
      var code := space.PageIn(root, MmioPtr(start + i), start + i, PAGE, flags);
      if code != 0 {
        return FAILED, done;
      }
      i := i + PAGE;
      done := done + 1;
    }
    PageCount(size, done);
    return MmioPtr(physAddr), done;
  }

  lemma FilledStart(s: Pages, root: nat, start: nat, p: Perms)
    ensures Filled(s, s, root, MmioPtr(start), 1, FramesFrom(start, 0), p)
  {
    assert FramesFrom(start, 0) == [];
  }

  lemma PageCount(size: nat, k: nat)
    ensures k * PAGE < size <==> k < PagesFor(size)
  {
  }

  /** Nothing translates the page at physical address `start`. */
  ghost predicate PageUnmapped(s: Pages, root: nat, start: nat) {
    forall b: nat | start <= b < start + PAGE :: Translate(s, root, MmioPtr(b)) == None
  }

  /** The call covers every byte asked for exactly when the offset of the first byte in its page
      leaves room in the last page mapped; a page-aligned address always does. */
  lemma MmioCoversIff(s0: Pages, s: Pages, root: nat, physAddr: nat, size: nat, p: Perms)
    requires size > 0 && physAddr + (PagesFor(size) + 1) * PAGE <= PHYS_LIMIT
    requires var start := physAddr - physAddr % PAGE;
             && Filled(s0, s, root, MmioPtr(start), 1, FramesFrom(start, PagesFor(size)), p)
             && PageUnmapped(s0, root, start + PagesFor(size) * PAGE)
    ensures (forall b: nat | physAddr <= b < physAddr + size ::
               LeafSays(Translate(s, root, MmioPtr(b)), 1, b / PAGE, p))
            <==> physAddr % PAGE + size <= PagesFor(size) * PAGE
  {
    hide Filled, MmioPtr, LeafSays, FramesFrom, Translate;
    var start, n := physAddr - physAddr % PAGE, PagesFor(size);
    if physAddr % PAGE + size <= n * PAGE {
      forall b: nat | physAddr <= b < physAddr + size
        ensures LeafSays(Translate(s, root, MmioPtr(b)), 1, b / PAGE, p)
      {
        MmioByte(s0, s, root, start, n, p, b);
      }
    } else {
      MmioBehind(s0, s, root, start, n, p, physAddr + size - 1);
    }
  }

  lemma MmioBehind(s0: Pages, s: Pages, root: nat, start: nat, n: nat, p: Perms, b: nat)
    requires start % PAGE == 0 && start + (n + 1) * PAGE <= PHYS_LIMIT && start + n * PAGE <= b < start + (n + 1) * PAGE
    requires Filled(s0, s, root, MmioPtr(start), 1, FramesFrom(start, n), p) && PageUnmapped(s0, root, start + n * PAGE)
    ensures !LeafSays(Translate(s, root, MmioPtr(b)), 1, b / PAGE, p)
  {
    MmioInRange(start, b);
    FilledMeans(s0, s, root, MmioPtr(start), FramesFrom(start, n), p, MmioPtr(b));
  }

  lemma MmioInRange(start: nat, b: nat)
    requires start <= b < PHYS_LIMIT
    ensures Canonical(MmioPtr(b)) && MmioPtr(b) - MmioPtr(start) == b - start
  {
  }

  lemma FrameOfByte(start: nat, n: nat, b: nat)
    requires start % PAGE == 0 && start + n * PAGE <= PHYS_LIMIT && start <= b < start + n * PAGE
    ensures var k := (b - start) / PAGE; k < n && FramesFrom(start, n)[k] == b / PAGE
  {
    var k := (b - start) / PAGE;
    assert start + k * PAGE == b / PAGE * PAGE;
    assert b / PAGE < PPN_LIMIT;
  }

  lemma MmioByte(s0: Pages, s: Pages, root: nat, start: nat, n: nat, p: Perms, b: nat)
    requires start % PAGE == 0 && start + n * PAGE <= PHYS_LIMIT && start <= b < start + n * PAGE
    requires Filled(s0, s, root, MmioPtr(start), 1, FramesFrom(start, n), p)
    ensures LeafSays(Translate(s, root, MmioPtr(b)), 1, b / PAGE, p)
  {
    hide MmioPtr, LeafSays, FramesFrom, Translate, Filled, Canonical;
    MmioInRange(start, b);
    FrameOfByte(start, n, b);
    FilledMeans(s0, s, root, MmioPtr(start), FramesFrom(start, n), p, MmioPtr(b));
  }
}
