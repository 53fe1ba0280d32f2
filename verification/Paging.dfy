/** `page_in` and `walk_table` over table frames in physical memory, reached through the kernel's
    window at KERNEL_VMA. Every method is tied to the functions on `Pages`. */
module Paging {
  import opened Runs
  import opened Frames
  import opened Alloc
  import opened MemMaps
  import opened PageSpec
  import opened PageMap
  import opened PageCost

  const KERNEL_VMA: nat := 0xFFFF_FFFF_8000_0000
  const INVALID_PHYS_ADDR: nat := WORD64 - 1
  const HUGE_PS: nat := 0x20_0000
  const SUPER_PS: nat := 0x4000_0000

  /** `page_ppn << 12`: the 28-bit field is promoted to a 32-bit int, shifted, and widened to 64
      bits with its sign. */
  function Shl12(ppn: nat): (a: nat)
    ensures a < WORD64
  {
    var v := ppn * 0x1000 % WORD32;
    if v >= 0x8000_0000 then v + WORD64 - WORD32 else v
  }

  /** KERNEL_PHYS_TO_VIRT, in 64 bits. */
  function KernelPtr(physAddr: nat): (p: nat)
    ensures p < WORD64
  {
    (physAddr + KERNEL_VMA) % WORD64
  }

  /** The frame a pointer into the kernel window shows. */
  function WindowFrame(ptr: nat): nat
    requires ptr >= KERNEL_VMA
  {
    (ptr - KERNEL_VMA) / 0x1000
  }

  /** `phys_addr >> 12` stored in the 28-bit field. */
  function FrameField(physAddr: nat): (ppn: nat)
    ensures ppn < PPN_LIMIT
  {
    physAddr / 0x1000 % PPN_LIMIT
  }

  /** The level whose entries a page of this size is a leaf of. */
  function LeafLevel(pageSize: nat): (l: nat)
    ensures 1 <= l <= 3
  {
    if pageSize == SUPER_PS then 3 else if pageSize == HUGE_PS then 2 else 1
  }

  /** Reading a frame number back from an entry gives its address exactly below 2 GiB. */
  lemma ReadBackIff(ppn: nat)
    requires ppn < PPN_LIMIT
    ensures Shl12(ppn) == ppn * 0x1000 <==> ppn < WINDOW_FRAMES
  {
    if ppn < WINDOW_FRAMES {
      assert ppn * 0x1000 % WORD32 == ppn * 0x1000;
    } else if ppn < 2 * WINDOW_FRAMES {
      assert ppn * 0x1000 % WORD32 == ppn * 0x1000;
    } else {
      assert ppn * 0x1000 >= WORD32;
      assert ppn * 0x1000 < WORD64 - WORD32;
    }
  }

  /** What is read back otherwise: the low 32 bits of the address, and ones above if bit 31 is set. */
  lemma ReadBackValue(ppn: nat)
    requires ppn < PPN_LIMIT
    ensures Shl12(ppn) == ppn % 0x10_0000 * 0x1000 + if ppn % 0x10_0000 >= 0x8_0000 then 0xFFFF_FFFF_0000_0000 else 0
  {
    NoWrap(ppn);
  }

  /** No frame is read back as the invalid address. */
  lemma NeverInvalid()
    ensures forall ppn :: Shl12(ppn) != 0xFFFF_FFFF_FFFF_FFFF
  {
    forall ppn: nat
      ensures Shl12(ppn) != 0xFFFF_FFFF_FFFF_FFFF
    {
      NoWrap(ppn);
    }
  }

  /** Physical memory below 2 GiB is seen in the top 2 GiB of addresses; above, the sum wraps and it
      is seen from address 0 on. */
  lemma WindowWraps(physAddr: nat)
    requires physAddr < PHYS_LIMIT
    ensures KernelPtr(physAddr) ==
            if physAddr < 0x8000_0000 then 0xFFFF_FFFF_8000_0000 + physAddr else physAddr - 0x8000_0000
  {
  }

  /** A table below 2 GiB is found where its entry points. */
  lemma TableInWindow(ppn: nat)
    requires ppn < WINDOW_FRAMES
    ensures KernelPtr(Shl12(ppn)) >= KERNEL_VMA && WindowFrame(KernelPtr(Shl12(ppn))) == ppn
  {
    ReadBackIff(ppn);
  }

  /** A physical address survives being stored and read back exactly when it is below 2 GiB. */
  lemma AddressReadBackIff(physAddr: nat)
    requires physAddr < PHYS_LIMIT
    ensures Shl12(FrameField(physAddr)) == physAddr - physAddr % 0x1000 <==> physAddr < 0x8000_0000
  {
    var ppn := physAddr / 0x1000;
    assert ppn < PPN_LIMIT && FrameField(physAddr) == ppn;
    assert physAddr - physAddr % 0x1000 == ppn * 0x1000;
    ReadBackIff(ppn);
  }

  /** The offset bits of a physical address are ignored, as its page's first address would be
      stored, exactly when none of bits 12 and up is set in the offset: always for 4 KiB pages. */
  lemma OffsetIgnoredIff(physAddr: nat, leaf: nat)
    requires physAddr < PHYS_LIMIT && 1 <= leaf <= 3
    ensures FrameField(physAddr) == FrameField(physAddr - physAddr % Span(leaf)) <==> physAddr % Span(leaf) < 0x1000
  {
    var base := physAddr - physAddr % Span(leaf);
    FramesFromBase(physAddr, leaf);
    assert physAddr / 0x1000 < PPN_LIMIT && base / 0x1000 < PPN_LIMIT;
  }

  lemma FramesFromBase(physAddr: nat, leaf: nat)
    requires 1 <= leaf <= 3
    ensures physAddr / 0x1000 == (physAddr - physAddr % Span(leaf)) / 0x1000 + physAddr % Span(leaf) / 0x1000
  {
    var q, r := physAddr / Span(leaf), physAddr % Span(leaf);
    match leaf
    case 1 =>
    case 2 => assert physAddr - r == 0x1000 * (0x200 * q);
    case 3 => assert physAddr - r == 0x1000 * (0x4_0000 * q);
  }

  /** A 2 MiB page asked for at 0x20_1000 is stored as the frame 0x201, not as the 2 MiB at 0x20_0000. */
  lemma OffsetKept()
    ensures FrameField(0x20_1000) == 0x201 != FrameField(0x20_1000 - 0x20_1000 % Span(2))
  {
    OffsetIgnoredIff(0x20_1000, 2);
  }

  class PageMemory {
    var tables: map<nat, Table>      // the frames that hold tables
    ghost var level: map<nat, nat>
    const mmap: MemMap

    constructor (mmap: MemMap, pml4: nat)
      requires mmap.Valid() && Wf(mmap.Model()) && Small(mmap.Model())
      requires pml4 < WINDOW_FRAMES && !FrameFree(mmap.Model(), pml4)
      requires forall f: nat :: FrameFree(mmap.Model(), f) ==> f < WINDOW_FRAMES
      ensures Valid() && this.mmap == mmap && IsRoot(Model(), pml4)
      ensures Model() == Pages(map[pml4 := ZERO_TABLE], map[pml4 := 4], mmap.Model())
    {
      this.mmap := mmap;
      tables := map[pml4 := ZERO_TABLE];
      level := map[pml4 := 4];
    }

    ghost predicate Valid()
      reads this, mmap, mmap.regions, mmap.bitmap, mmap.bitmap.data
    {
      mmap.Valid() && Inv(Pages(tables, level, mmap.Model()))
    }

    ghost function Model(): (s: Pages)
      requires mmap.Valid()
      reads this, mmap, mmap.regions, mmap.bitmap, mmap.bitmap.data
      ensures Layout(s.mem)
    {
      Pages(tables, level, mmap.Model())
    }

    /** Overwrites entry i of a table. */
    method Store(t: nat, i: nat, e: Entry)
      requires mmap.Valid() && t in tables && i < 512
      modifies `tables
      ensures mmap.Valid() && Model() == Put(old(Model()), t, i, e)
    {
      tables := tables[t := tables[t][i := e]];
    }

    /** Allocates and zeroes a table frame and links it at an absent entry. */
    method LinkTable(t: nat, i: nat) returns (ok: bool)
      requires Valid() && t in tables && t in level && level[t] >= 2 && i < 512 && !tables[t][i].present
      modifies this, mmap.regions, mmap.bitmap.data
      ensures mmap.Valid()
      ensures ok <==> AllocSpec(old(Model()).mem, 1).1 != FAILED
      ensures !ok ==> Model() == old(Model())
      ensures ok ==>
                var s := old(Model()); var (m, a) := AllocSpec(s.mem, 1); var f := a / PAGE;
                && t in s.tables && t in s.level && s.level[t] >= 1
                && Model() == Put(Pages(s.tables[f := ZERO_TABLE], s.level[f := s.level[t] - 1], m), t, i,
                                  s.tables[t][i].(ppn := f % PPN_LIMIT, present := true))
    {
      hide ShapeOk, FreeAtOk, FrameFree;
      ghost var s := Model();
      FailureKeeps(s.mem);
      var frame := mmap.AllocFrameContiguous(1);
      if frame == FAILED {
        return false;
      }
      TableFrame(s);
      ghost var l := level[t];
      tables := tables[frame / PAGE := ZERO_TABLE];
      level := level[frame / PAGE := l - 1];
      Store(t, i, tables[t][i].(ppn := FrameField(frame), present := true));
      return true;
    }

    /** Raises the rights of an entry that leads on, and follows it through the window. */
    method Follow(t: nat, i: nat, permissions: bv64) returns (next: nat)
      requires mmap.Valid() && t in tables && i < 512 && tables[t][i].ppn < WINDOW_FRAMES
      modifies `tables
      ensures mmap.Valid() && old(t in tables)
      ensures Model() == Put(old(Model()), t, i, Raise(old(tables[t][i]), Decode(permissions)))
      ensures next == old(tables[t][i].ppn)
    {
      Store(t, i, Raise(tables[t][i], Decode(permissions)));
      TableInWindow(tables[t][i].ppn);
      next := WindowFrame(KernelPtr(Shl12(tables[t][i].ppn)));
    }

    /** One level of the walk down: a missing table is allocated, zeroed and linked; then the
        entry's rights are raised and the next table's frame is returned. */
    method NextTable(t: nat, i: nat, permissions: bv64) returns (next: Option<nat>)
      requires Valid() && t in tables && t in level && level[t] >= 2 && i < 512
      requires tables[t][i].present ==> !IsLeaf(level[t], tables[t][i])
      modifies this, mmap.regions, mmap.bitmap.data
      ensures Valid()
      ensures match Descend(old(Model()), t, i, Decode(permissions))
              case None => next == None && Model() == old(Model())
              case Some(s) => Model() == s && t in s.tables && next == Some(s.tables[t][i].ppn)
    {
      ghost var s := Model();
      assert SlotAt(s, t, i) && TableAt(s, t);
      if !tables[t][i].present {
        var ok := LinkTable(t, i);
        if !ok {
          return None;
        }
        TableFrame(s);
        ghost var f := AllocSpec(s.mem, 1).1 / PAGE;
        PutPut(Pages(s.tables[f := ZERO_TABLE], s.level[f := s.level[t] - 1], mmap.Model()), t, i, tables[t][i],
               Raise(tables[t][i], Decode(permissions)));
      } else {
        assert TableAt(s, tables[t][i].ppn);
      }
      DescendKeeps(s, t, i, Decode(permissions));
      var frame := Follow(t, i, permissions);
      next := Some(frame);
    }

    /** Writes a leaf of level l. */
    method StoreLeaf(t: nat, l: nat, i: nat, physAddr: nat, permissions: bv64)
      requires mmap.Valid() && t in tables && i < 512
      modifies `tables
      ensures mmap.Valid() && old(t in tables)
      ensures Model() == Put(old(Model()), t, i,
                             LeafEntry(old(tables[t][i]), l, FrameField(physAddr), Decode(permissions)))
    {
      Store(t, i, LeafEntry(tables[t][i], l, FrameField(physAddr), Decode(permissions)));
    }

    /** Maps the page of virtAddr to the frame of physAddr: 0 on success, -1 when a table could
        not be allocated. */
    method PageIn(pml4: nat, virtAddr: nat, physAddr: nat, pageSize: nat, permissions: bv64) returns (r: int)
      requires Valid() && IsRoot(Model(), pml4) && ClearPath(Model(), pml4, 4, virtAddr, LeafLevel(pageSize))
      modifies this, mmap.regions, mmap.bitmap.data
      ensures Valid() && (r == 0 || r == -1)
      ensures (Model(), r == 0) ==
              Insert(old(Model()), pml4, virtAddr, LeafLevel(pageSize), FrameField(physAddr), Decode(permissions))
      ensures r == 0 <==>
              Missing(old(Model()).tables, pml4, 4, virtAddr, LeafLevel(pageSize)) <= FreeFrames(old(Model()))
      ensures r == -1 ==> NoFrameFor(Model(), pml4, virtAddr, LeafLevel(pageSize))
    {
      hide Decode, ClearPath, Layout, Idx, Missing, FreeFrames, NoFrameFor;
      ghost var s, leaf, p := Model(), LeafLevel(pageSize), Decode(permissions);
      InsertSucceedsIff(s, pml4, virtAddr, leaf, FrameField(physAddr), p);
      MidwayDown(s, pml4, virtAddr, leaf, p, Model(), pml4, 4);
      var pdpt := NextTable(pml4, Idx(4, virtAddr), permissions);
      if pdpt == None {
        return -1;
      }
      if pageSize == SUPER_PS {
        StoreLeaf(pdpt.value, 3, Idx(3, virtAddr), physAddr, permissions);
        EndInsert(s, pml4, virtAddr, leaf, FrameField(physAddr), p);
        return 0;
      }
      MidwayDown(s, pml4, virtAddr, leaf, p, Model(), pdpt.value, 3);
      var pd := NextTable(pdpt.value, Idx(3, virtAddr), permissions);
      if pd == None {
        return -1;
      }
      if pageSize == HUGE_PS {
        StoreLeaf(pd.value, 2, Idx(2, virtAddr), physAddr, permissions);
        EndInsert(s, pml4, virtAddr, leaf, FrameField(physAddr), p);
        return 0;
      }
      MidwayDown(s, pml4, virtAddr, leaf, p, Model(), pd.value, 2);
      var pt := NextTable(pd.value, Idx(2, virtAddr), permissions);
      if pt == None {
        return -1;
      }
      StoreLeaf(pt.value, 1, Idx(1, virtAddr), physAddr, permissions);
      EndInsert(s, pml4, virtAddr, leaf, FrameField(physAddr), p);
      return 0;
    }

    /** The address a software walk reads back, or INVALID_PHYS_ADDR. */
    method WalkTable(pml4: nat, virtAddr: nat) returns (a: nat)
      requires Valid() && IsRoot(Model(), pml4)
      ensures a == match Translate(Model(), pml4, virtAddr)
                   case None => INVALID_PHYS_ADDR
                   case Some(leaf) => Shl12(leaf.entry.ppn)
      ensures a == 0xFFFF_FFFF_FFFF_FFFF <==> Translate(Model(), pml4, virtAddr) == None
    {
      ghost var s := Model();
      NeverInvalid();
      assert SlotAt(s, pml4, Idx(4, virtAddr));
      var pml4Entry := tables[pml4][Idx(4, virtAddr)];
      if !pml4Entry.present {
        return INVALID_PHYS_ADDR;
      }
      assert TableAt(s, pml4Entry.ppn);
      TableInWindow(pml4Entry.ppn);
      var pdpt := WindowFrame(KernelPtr(Shl12(pml4Entry.ppn)));
      assert SlotAt(s, pdpt, Idx(3, virtAddr));
      var pdptEntry := tables[pdpt][Idx(3, virtAddr)];
      if !pdptEntry.present {
        return INVALID_PHYS_ADDR;
      }
      if pdptEntry.huge {
        return Shl12(pdptEntry.ppn);
      }
      assert TableAt(s, pdptEntry.ppn);
      TableInWindow(pdptEntry.ppn);
      var pd := WindowFrame(KernelPtr(Shl12(pdptEntry.ppn)));
      assert SlotAt(s, pd, Idx(2, virtAddr));
      var pdEntry := tables[pd][Idx(2, virtAddr)];
      if !pdEntry.present {
        return INVALID_PHYS_ADDR;
      }
      if pdEntry.huge {
        return Shl12(pdEntry.ppn);
      }
      assert TableAt(s, pdEntry.ppn);
      TableInWindow(pdEntry.ppn);
      var pt := WindowFrame(KernelPtr(Shl12(pdEntry.ppn)));
      var ptEntry := tables[pt][Idx(1, virtAddr)];
      if !ptEntry.present {
        return INVALID_PHYS_ADDR;
      }
      return Shl12(ptEntry.ppn);
    }
  }

  lemma FailureKeeps(m: Mem)
    requires Wf(m) && Small(m)
    ensures AllocSpec(m, 1).1 == FAILED ==> AllocSpec(m, 1).0 == m
  {
    AllocOne(m);
  }

  /** The state is s1, the walk stands at table t of level l, and what is left to build below it
      is all that a build from `root` in `s` still has to do. */
  ghost predicate Midway(s: Pages, root: nat, va: nat, leaf: nat, p: Perms, s1: Pages, t: nat, l: nat) {
    && Inv(s) && IsRoot(s, root) && 1 <= leaf <= l <= 4 && ClearPath(s, root, 4, va, leaf)
    && Inv(s1) && t in s1.tables && t in s1.level && s1.level[t] == l && ClearPath(s1, t, l, va, leaf)
    && Build(s, root, 4, va, leaf, p) == Build(s1, t, l, va, leaf, p)
  }

  /** One level down keeps the walk midway; running out of frames ends it. */
  lemma MidwayDown(s: Pages, root: nat, va: nat, leaf: nat, p: Perms, s1: Pages, t: nat, l: nat)
    requires Midway(s, root, va, leaf, p, s1, t, l) && leaf < l
    ensures s1.tables[t][Idx(l, va)].present ==> !IsLeaf(l, s1.tables[t][Idx(l, va)])
    ensures match Descend(s1, t, Idx(l, va), p)
            case None => Build(s, root, 4, va, leaf, p) == (s1, None)
            case Some(s2) =>
              t in s2.tables && Midway(s, root, va, leaf, p, s2, s2.tables[t][Idx(l, va)].ppn, l - 1)
  {
    if Descend(s1, t, Idx(l, va), p).Some? {
      DescendKeeps(s1, t, Idx(l, va), p);
      DescendClear(s1, t, l, va, leaf, p);
    }
  }

  lemma EndInsert(s: Pages, root: nat, va: nat, leaf: nat, ppn: nat, p: Perms)
    requires Inv(s) && IsRoot(s, root) && 1 <= leaf <= 3 && ClearPath(s, root, 4, va, leaf)
    ensures Inv(Insert(s, root, va, leaf, ppn, p).0)
  {
    InsertTranslates(s, root, va, leaf, ppn, p, root, va);
  }

  lemma PutPut(s: Pages, t: nat, i: nat, e: Entry, e': Entry)
    requires t in s.tables && i < 512
    ensures Put(Put(s, t, i, e), t, i, e') == Put(s, t, i, e')
  {
    var row := s.tables[t];
    assert row[i := e][i := e'] == row[i := e'];
    assert s.tables[t := row[i := e]][t := row[i := e']] == s.tables[t := row[i := e']];
  }
}
