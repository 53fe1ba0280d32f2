/** Threads' address spaces: a copy of the current level-4 table, filled through `page_in`. */
module Threads {
  import opened Runs
  import opened Frames
  import opened Alloc
  import opened PageSpec
  import opened PageMap
  import opened PagePerms
  import opened PageRuns
  import opened PageCost
  import opened Paging

  // ---------------------------------------------------------------- copying an address space

  /** A new root n, a copy of root `from`, in a frame just taken from the allocator. */
  ghost function Copied(s: Pages, from: nat, n: nat, mem: Mem): Pages
    requires from in s.tables
  {
    Pages(s.tables[n := s.tables[from]], s.level[n := 4], mem)
  }

  lemma CopySlot(s: Pages, from: nat, n: nat, mem: Mem, u: nat, j: nat)
    requires ShapeOk(s) && IsRoot(s, from) && n !in s.tables
    ensures var s' := Copied(s, from, n, mem); var u0 := if u == n then from else u;
            && (Points(s', u, j) <==> Points(s, u0, j))
            && (u0 in s.tables ==> s'.tables[u] == s.tables[u0])
            && (u0 in s.tables && u0 in s.level ==> s'.level[u] == s.level[u0])
            && (Points(s, u0, j) ==> s.tables[u0][j].ppn in s.tables && s.tables[u0][j].ppn in s.level)
  {
    assert TableAt(s, from) && TableAt(s, u) && SlotAt(s, u, j) && SlotAt(s, from, j);
  }

  lemma CopyShape(s: Pages, from: nat, n: nat, mem: Mem)
    requires ShapeOk(s) && IsRoot(s, from) && n !in s.tables && n < WINDOW_FRAMES
    ensures ShapeOk(Copied(s, from, n, mem))
  {
    var s' := Copied(s, from, n, mem);
    forall u: nat
      ensures TableAt(s', u)
    {
      assert TableAt(s, u);
    }
    forall u: nat, j: nat
      ensures SlotAt(s', u, j)
    {
      CopySlot(s, from, n, mem, u, j);
      assert SlotAt(s, u, j) && SlotAt(s, from, j);
    }
    forall u: nat, j: nat, v: nat, k: nat
      ensures UnaliasedAt(s', u, j, v, k)
    {
      CopySlot(s, from, n, mem, u, j);
      CopySlot(s, from, n, mem, v, k);
      assert UnaliasedAt(s, if u == n then from else u, j, if v == n then from else v, k);
    }
  }

  lemma {:induction false} CopyWalk(s: Pages, from: nat, n: nat, mem: Mem, u: nat, m: nat, va: nat)
    requires ShapeOk(s) && IsRoot(s, from) && n !in s.tables
    requires u in s.tables && u in s.level && s.level[u] == m && m <= 4
    ensures Walk(Copied(s, from, n, mem).tables, u, m, va) == Walk(s.tables, u, m, va)
    decreases m
  {
    assert TableAt(s, u) && SlotAt(s, u, Idx(m, va));
    var e := s.tables[u][Idx(m, va)];
    if e.present && !IsLeaf(m, e) {
      CopyWalk(s, from, n, mem, e.ppn, m - 1, va);
    }
  }

  /** `mem` and n are what a single-frame allocation left and returned. */
  ghost predicate FrameTaken(s: Pages, mem: Mem, n: nat)
    requires Inv(s)
  {
    AllocSpec(s.mem, 1).1 != FAILED && mem == AllocSpec(s.mem, 1).0 && n == AllocSpec(s.mem, 1).1 / PAGE
  }

  lemma CopyKeeps(s: Pages, from: nat, mem: Mem, n: nat)
    requires Inv(s) && IsRoot(s, from) && FrameTaken(s, mem, n)
    ensures Inv(Copied(s, from, n, mem)) && IsRoot(Copied(s, from, n, mem), n) && n !in s.tables
  {
    TableFrame(s);
    LinkMem(s, Copied(s, from, n, mem), n);
    CopyShape(s, from, n, mem);
  }

  /** The copy translates like the original, and every other address space like itself. */
  lemma CopyTranslates(s: Pages, from: nat, mem: Mem, n: nat, r: nat, va: nat)
    requires Inv(s) && IsRoot(s, from) && FrameTaken(s, mem, n) && IsRoot(s, r)
    ensures var s' := Copied(s, from, n, mem);
            && Translate(s', n, va) == Translate(s, from, va)
            && IsRoot(s', r) && Translate(s', r, va) == Translate(s, r, va)
  {
    TableFrame(s);
    var e := s.tables[from][Idx(4, va)];
    assert SlotAt(s, from, Idx(4, va));
    if e.present {
      CopyWalk(s, from, n, mem, e.ppn, 3, va);
    }
    CopyWalk(s, from, n, mem, r, 4, va);
  }

  /** The copy shares with the original every entry that leads on, and with another root what the
      original shares with it. */
  lemma CopyShares(s: Pages, from: nat, mem: Mem, n: nat, r: nat, j: nat)
    requires Inv(s) && IsRoot(s, from) && FrameTaken(s, mem, n) && IsRoot(s, r) && j < 512
    ensures Shares(Copied(s, from, n, mem), n, r, j) <==>
            if r == from then Points(s, from, j) else Shares(s, from, r, j)
  {
    TableFrame(s);
    CopySlot(s, from, n, mem, n, j);
    CopySlot(s, from, n, mem, r, j);
  }

  /** The rights invariant carries over to the copy. */
  lemma CopyPerms(s: Pages, roots: set<nat>, from: nat, n: nat, mem: Mem)
    requires ShapeOk(s) && IsRoot(s, from) && n !in s.tables && from in roots && PermsOk(s, roots)
    ensures PermsOk(Copied(s, from, n, mem), roots + {n})
  {
    var s' := Copied(s, from, n, mem);
    forall u: nat, i: nat, j: nat
      ensures WatchedAt(s', roots + {n}, u, i, j)
    {
      var u0 := if u == n then from else u;
      CopySlot(s, from, n, mem, u, i);
      assert WatchedAt(s, roots, u0, i, j);
    }
  }

  // ---------------------------------------------------------------- sub-spaces

  datatype SubSpace = Code | Mapping | Stack

  const SLOT_BYTES: nat := 0x80_0000_0000          // one level-4 entry

  function SubIndex(sub: SubSpace): (i: nat)
    ensures i < 3
  {
    match sub case Code => 0 case Mapping => 1 case Stack => 2
  }

  /** SUB_SPACE_TO_ADDR */
  function SubBase(sub: SubSpace): nat {
    match sub
    case Code => 0x0480_0000_0000
    case Mapping => 0x0900_0000_0000
    case Stack => 0x7C80_0000_0000
  }

  function SubSlot(sub: SubSpace): nat {
    match sub case Code => 9 case Mapping => 18 case Stack => 249
  }

  /** Each sub-space is one whole level-4 entry, 9, 18 or 249, and all of it is canonical. */
  lemma SubSpaceSlot(sub: SubSpace, offset: nat)
    requires offset < SLOT_BYTES
    ensures Idx(4, SubBase(sub) + offset) == SubSlot(sub) && Canonical(SubBase(sub) + offset)
    ensures SubSlot(sub) == match sub case Code => 9 case Mapping => 18 case Stack => 249
    ensures SLOT_BYTES == 0x80_0000_0000
  {
  }

  function Or(p: bv64, q: bv64): bv64 { p | q }

  /** `permissions | (!privileged << USER_ACCESS_SHIFT)` */
  function ThreadPerms(permissions: bv64, privileged: bool): bv64 { Or(permissions, if privileged then 0 else 8) }

  /** The processor may use a thread's page in user mode if the thread is unprivileged or the
      caller asked for it; all else is as asked. */
  lemma ThreadPermsMean(permissions: bv64, privileged: bool)
    ensures Decode(ThreadPerms(permissions, privileged)) ==
            Decode(permissions).(user := Decode(permissions).user || !privileged)
  {
    hide PermBit, Or;
    OrBits(permissions);
  }

  lemma OrBits(p: bv64)
    ensures PermBit(Or(p, 8), 3) && PermBit(Or(p, 8), 1) == PermBit(p, 1) && PermBit(Or(p, 8), 7) == PermBit(p, 7)
    ensures PermBit(Or(p, 8), 15) == PermBit(p, 15) && PermBit(Or(p, 8), 63) == PermBit(p, 63) && Or(p, 0) == p
  {
    hide PermBit, Or;
    OrBit(p, 1);
    OrBit(p, 3);
    OrBit(p, 7);
    OrBit(p, 15);
    OrBit(p, 63);
    OrNothing(p);
  }

  lemma OrBit(p: bv64, k: bv7)
    requires k <= 63
    ensures PermBit(Or(p, 8), k) == (PermBit(p, k) || k == 3)
  {
  }

  lemma OrNothing(p: bv64)
    ensures Or(p, 0) == p
  {
  }

  class Thread {
    const pageTable: nat             // frame of the level-4 table
    const privileged: bool
    var fields: seq<nat>             // sizes of the three sub-spaces
    var memoryLimit: nat

    constructor (pageTable: nat, privileged: bool)
      ensures this.pageTable == pageTable && this.privileged == privileged
      ensures fields == [0, 0, 0] && memoryLimit == 0
    {
      this.pageTable, this.privileged := pageTable, privileged;
      fields, memoryLimit := [0, 0, 0], 0;
    }

    // the names that the fields have beside their indices
    function CodeSize(): nat
      requires |fields| == 3
      reads this
    {
      fields[0]
    }

    function MappingSize(): nat
      requires |fields| == 3
      reads this
    {
      fields[1]
    }

    function StackSize(): nat
      requires |fields| == 3
      reads this
    {
      fields[2]
    }
  }

  /** A thread with its own address space: a copy of the level-4 table in use. None when no frame
      is left for it. */
  method CreateThread(space: PageMemory, current: nat, privileged: bool) returns (thread: Thread?)
    requires space.Valid() && IsRoot(space.Model(), current)
    modifies space, space.mmap.regions, space.mmap.bitmap.data
    ensures space.Valid()
    ensures thread == null <==> AllocSpec(old(space.Model()).mem, 1).1 == FAILED
    ensures thread == null ==> space.Model() == old(space.Model())
    ensures thread != null ==>
              var s := old(space.Model()); var (m, a) := AllocSpec(s.mem, 1);
              && fresh(thread) && thread.pageTable == a / PAGE && thread.privileged == privileged
              && thread.fields == [0, 0, 0] && thread.memoryLimit == 0
              && space.Model() == Copied(s, current, a / PAGE, m)
              && thread.pageTable !in old(space.tables)
              && space.tables == old(space.tables)[thread.pageTable := old(space.tables)[current]]
  {
    ghost var s := space.Model();
    AllocOne(s.mem);
    var frame := space.mmap.AllocFrameContiguous(1);
    if frame == FAILED {
      return null;
    }
    TableFrame(s);
    CopyKeeps(s, current, space.mmap.Model(), frame / PAGE);
    space.tables := space.tables[frame / PAGE := space.tables[current]];
    space.level := space.level[frame / PAGE := 4];
    thread := new Thread(frame / PAGE, privileged);
  }

  /** Frame numbers as the entries store them. */
  function FrameFields(addrs: seq<nat>): (ppns: seq<nat>)
    ensures |ppns| == |addrs|
  {
    seq(|addrs|, i requires 0 <= i < |addrs| => FrameField(addrs[i]))
  }

  /** The rest of a sub-space behind its current size translates to nothing. */
  ghost predicate RestUnmapped(s: Pages, r: nat, sub: SubSpace, size: nat) {
    forall va | SubBase(sub) + size <= va < SubBase(sub) + SLOT_BYTES :: Translate(s, r, va) == None
  }

  lemma FilledRest(s0: Pages, s: Pages, r: nat, sub: SubSpace, size: nat, leaf: nat, ppns: seq<nat>, p: Perms)
    requires 1 <= leaf <= 3 && size + |ppns| * Span(leaf) <= SLOT_BYTES
    requires RestUnmapped(s0, r, sub, size) && Filled(s0, s, r, SubBase(sub) + size, leaf, ppns, p)
    ensures RestUnmapped(s, r, sub, size + |ppns| * Span(leaf))
  {
    forall va: nat | SubBase(sub) + size + |ppns| * Span(leaf) <= va < SubBase(sub) + SLOT_BYTES
      ensures Translate(s, r, va) == None
    {
      SubSpaceSlot(sub, va - SubBase(sub));
      assert FilledAt(s0, s, r, SubBase(sub) + size, leaf, ppns, p, va);
    }
  }

  /** Address spaces other than r's that do not share entry j with it: their translations, and the
      fact that they do not share, are the same in both states. */
  ghost predicate OthersKept(s0: Pages, s: Pages, r: nat, j: nat) {
    forall b, va :: OtherKept(s0, s, r, j, b, va)
  }

  ghost predicate OtherKept(s0: Pages, s: Pages, r: nat, j: nat, b: nat, va: nat) {
    IsRoot(s0, b) && b != r && !Shares(s0, r, b, j) ==>
      IsRoot(s, b) && !Shares(s, r, b, j) && Translate(s, b, va) == Translate(s0, b, va)
  }

  lemma OthersStep(s0: Pages, s: Pages, r: nat, va: nat, leaf: nat, ppn: nat, p: Perms)
    requires Inv(s) && IsRoot(s, r) && 1 <= leaf <= 3 && ClearPath(s, r, 4, va, leaf)
    requires OthersKept(s0, s, r, Idx(4, va))
    ensures OthersKept(s0, Insert(s, r, va, leaf, ppn, p).0, r, Idx(4, va))
  {
    var j := Idx(4, va);
    var s' := Insert(s, r, va, leaf, ppn, p).0;
    forall b: nat, va': nat
      ensures OtherKept(s0, s', r, j, b, va')
    {
      assert OtherKept(s0, s, r, j, b, va');
      if IsRoot(s0, b) && b != r && !Shares(s0, r, b, j) {
        InsertTranslates(s, r, va, leaf, ppn, p, b, va');
        InsertShares(s, r, va, leaf, ppn, p, r, b, j);
      }
    }
  }

  predicate PageSize(n: nat) { n == PAGE || n == HUGE_PS || n == SUPER_PS }

  lemma PageSizeIsSpan(n: nat)
    requires PageSize(n)
    ensures n == Span(LeafLevel(n)) && SubBase(Code) % n == 0 && SubBase(Mapping) % n == 0 && SubBase(Stack) % n == 0
  {
  }

  /** The next page of a sub-space: where it goes, and that the way is clear. */
  lemma NextPage(s0: Pages, s: Pages, r: nat, sub: SubSpace, size: nat, leaf: nat, ppns: seq<nat>, p: Perms)
    requires Inv(s) && IsRoot(s, r) && 1 <= leaf <= 3 && size + (|ppns| + 1) * Span(leaf) <= SLOT_BYTES
    requires RestUnmapped(s0, r, sub, size) && Filled(s0, s, r, SubBase(sub) + size, leaf, ppns, p)
    ensures var va := SubBase(sub) + size + |ppns| * Span(leaf);
            && ClearPath(s, r, 4, va, leaf) && Idx(4, va) == SubSlot(sub)
            && CanonicalStretch(SubBase(sub) + size, (|ppns| + 1) * Span(leaf))
  {
    var va := SubBase(sub) + size + |ppns| * Span(leaf);
    assert (|ppns| + 1) * Span(leaf) == |ppns| * Span(leaf) + Span(leaf);
    FilledRest(s0, s, r, sub, size, leaf, ppns, p);
    SubSpaceSlot(sub, size + |ppns| * Span(leaf));
    UnmappedIsClear(s, r, 4, va, leaf);
  }

  /** The sub-space, `size` bytes long in s0, has had pages with these frame numbers appended. */
  ghost predicate Supplied(s0: Pages, s: Pages, r: nat, sub: SubSpace, size: nat, leaf: nat, ppns: seq<nat>, p: Perms) {
    && Inv(s) && IsRoot(s, r) && 1 <= leaf <= 3
    && Filled(s0, s, r, SubBase(sub) + size, leaf, ppns, p)
    && OthersKept(s0, s, r, SubSlot(sub))
  }

  /** Maps one more page behind those supplied so far. */
  method SupplyPage(space: PageMemory, root: nat, sub: SubSpace, offset: nat, physAddr: nat, pageSize: nat,
                    permissions: bv64, ghost s0: Pages, ghost size: nat, ghost ppns: seq<nat>) returns (r: int)
    requires space.Valid() && PageSize(pageSize) && size % pageSize == 0
    requires Supplied(s0, space.Model(), root, sub, size, LeafLevel(pageSize), ppns, Decode(permissions))
    requires size + (|ppns| + 1) * pageSize <= SLOT_BYTES && offset == size + |ppns| * pageSize
    requires RestUnmapped(s0, root, sub, size)
    modifies space, space.mmap.regions, space.mmap.bitmap.data
    ensures space.Valid() && (r == 0 || r == -1)
    ensures Supplied(s0, space.Model(), root, sub, size, LeafLevel(pageSize),
                     if r == 0 then ppns + [FrameField(physAddr)] else ppns, Decode(permissions))
    ensures r == -1 ==> NoFrameFor(space.Model(), root, SubBase(sub) + offset, LeafLevel(pageSize))
  {
    hide Supplied, RestUnmapped, Layout, Inv;
    SupplyStep(s0, space.Model(), root, sub, size, pageSize, ppns, Decode(permissions), FrameField(physAddr));
    r := space.PageIn(root, SubBase(sub) + offset, physAddr, pageSize, permissions);
  }

  lemma SupplyStep(s0: Pages, s: Pages, r: nat, sub: SubSpace, size: nat, pageSize: nat, ppns: seq<nat>, p: Perms,
                   ppn: nat)
    requires PageSize(pageSize) && size % pageSize == 0 && RestUnmapped(s0, r, sub, size)
    requires Supplied(s0, s, r, sub, size, LeafLevel(pageSize), ppns, p)
    requires size + (|ppns| + 1) * pageSize <= SLOT_BYTES
    ensures var leaf := LeafLevel(pageSize); var va := SubBase(sub) + (size + |ppns| * pageSize);
            && Inv(s) && IsRoot(s, r) && ClearPath(s, r, 4, va, leaf)
            && var (s', ok) := Insert(s, r, va, leaf, ppn, p);
               Supplied(s0, s', r, sub, size, leaf, if ok then ppns + [ppn] else ppns, p)
  {
    hide Inv, Insert, Filled, RestUnmapped, OthersKept, ClearPath, Idx, Translate, CanonicalStretch;
    var leaf := LeafLevel(pageSize);
    PageSizeIsSpan(pageSize);
    BaseAligned(sub, size, pageSize);
    NextPage(s0, s, r, sub, size, leaf, ppns, p);
    FillStep(s0, s, r, SubBase(sub) + size, leaf, ppns, p, ppn);
    OthersStep(s0, s, r, SubBase(sub) + size + |ppns| * pageSize, leaf, ppn, p);
  }

  lemma BaseAligned(sub: SubSpace, size: nat, pageSize: nat)
    requires PageSize(pageSize) && size % pageSize == 0
    ensures (SubBase(sub) + size) % pageSize == 0
  {
  }

  /** Bytes in `count` pages. */
  function Bytes(count: nat, pageSize: nat): nat { count * pageSize }

  lemma BytesStep(i: nat, n: nat, pageSize: nat)
    ensures Bytes(0, pageSize) == 0 && Bytes(i + 1, pageSize) == Bytes(i, pageSize) + pageSize
    ensures Bytes(i, pageSize) == i * pageSize
    ensures i < n ==> (i + 1) * pageSize <= Bytes(n, pageSize)
  {
    if i < n {
      assert (i + 1) * pageSize <= n * pageSize;
    }
  }

  /** An address space and its thread's sizes; one call, by the pages it has mapped. */
  datatype Space = Space(pages: Pages, fields: seq<nat>)

  datatype Supply = Supply(sub: SubSpace, leaf: nat, ppns: seq<nat>, perms: Perms)

  function SizeOf(sp: Space, sub: SubSpace): nat
    requires |sp.fields| == 3
  {
    sp.fields[SubIndex(sub)]
  }

  /** The call appends its pages behind the end of its sub-space and adds their bytes to that size;
      the other sizes stay. */
  ghost predicate ServedBy(a: Space, b: Space, r: nat, q: Supply) {
    && |a.fields| == |b.fields| == 3 && 1 <= q.leaf <= 3
    && SizeOf(b, q.sub) == SizeOf(a, q.sub) + |q.ppns| * Span(q.leaf) <= SLOT_BYTES
    && (forall other | other != q.sub :: SizeOf(b, other) == SizeOf(a, other))
    && Supplied(a.pages, b.pages, r, q.sub, SizeOf(a, q.sub), q.leaf, q.ppns, q.perms)
  }

  lemma ServedNow(a: Space, b: Space, r: nat, q: Supply)
    requires |a.fields| == 3 && 1 <= q.leaf <= 3
    requires b.fields == a.fields[SubIndex(q.sub) := SizeOf(a, q.sub) + |q.ppns| * Span(q.leaf)]
    requires SizeOf(a, q.sub) + |q.ppns| * Span(q.leaf) <= SLOT_BYTES
    requires Supplied(a.pages, b.pages, r, q.sub, SizeOf(a, q.sub), q.leaf, q.ppns, q.perms)
    ensures ServedBy(a, b, r, q)
  {
    hide Supplied;
  }

  /** Appends pages to a sub-space of a thread: 0 when all are mapped, -1 when a table could not
      be allocated; `done` of them are mapped either way. */
  method SupplyMemRegion(space: PageMemory, thread: Thread, sub: SubSpace, addrs: seq<nat>, pageSize: nat,
                         permissions: bv64) returns (r: int, ghost done: nat)
    requires space.Valid() && IsRoot(space.Model(), thread.pageTable) && |thread.fields| == 3
    requires PageSize(pageSize) && thread.fields[SubIndex(sub)] % pageSize == 0
    requires thread.fields[SubIndex(sub)] + Bytes(|addrs|, pageSize) <= SLOT_BYTES
    requires RestUnmapped(space.Model(), thread.pageTable, sub, thread.fields[SubIndex(sub)])
    requires thread as object !in {space, space.mmap, space.mmap.regions, space.mmap.bitmap, space.mmap.bitmap.data}
    modifies thread, space, space.mmap.regions, space.mmap.bitmap.data
    ensures space.Valid()
    ensures done <= |addrs| && (r == 0 || r == -1) && (r == 0 <==> done == |addrs|)
    ensures var i := SubIndex(sub); var size := old(thread.fields[i]);
            && thread.fields == old(thread.fields)[i := size + Bytes(done, pageSize)]
            && thread.memoryLimit == old(thread.memoryLimit) + Bytes(done, pageSize)
            && Supplied(old(space.Model()), space.Model(), thread.pageTable, sub, size, LeafLevel(pageSize),
                        FrameFields(addrs)[..done], Decode(ThreadPerms(permissions, thread.privileged)))
            && RestUnmapped(space.Model(), thread.pageTable, sub, size + Bytes(done, pageSize))
    ensures r == -1 ==> NoFrameFor(space.Model(), thread.pageTable,
                                   SubBase(sub) + old(thread.fields[SubIndex(sub)]) + Bytes(done, pageSize),
                                   LeafLevel(pageSize))
    ensures thread.CodeSize() == old(thread.CodeSize()) + if sub.Code? then done * pageSize else 0
    ensures thread.MappingSize() == old(thread.MappingSize()) + if sub.Mapping? then done * pageSize else 0
    ensures thread.StackSize() == old(thread.StackSize()) + if sub.Stack? then done * pageSize else 0
    ensures ServedBy(Space(old(space.Model()), old(thread.fields)), Space(space.Model(), thread.fields), thread.pageTable,
                     Supply(sub, LeafLevel(pageSize), FrameFields(addrs)[..done],
                            Decode(ThreadPerms(permissions, thread.privileged))))
  {
    hide Supplied, RestUnmapped, Decode, ThreadPerms, FrameFields, Bytes, PageSize, Inv, Layout, LeafLevel, NoFrameFor,
         ServedBy, Span;
    ghost var s0, root := space.Model(), thread.pageTable;
    ghost var p := Decode(ThreadPerms(permissions, thread.privileged));
    var f := SubIndex(sub);
    ghost var size := thread.fields[f];
    SuppliedNone(s0, root, sub, size, LeafLevel(pageSize), p);
    BytesStep(0, 0, pageSize);
    done := 0;
    for i := 0 to |addrs|
      invariant done == i && space.Valid()
      invariant thread.fields == old(thread.fields)[f := size + Bytes(i, pageSize)]
      invariant thread.memoryLimit == old(thread.memoryLimit) + Bytes(i, pageSize)
      invariant Supplied(s0, space.Model(), root, sub, size, LeafLevel(pageSize), FrameFields(addrs)[..i], p)
    {
      BytesStep(i, |addrs|, pageSize);
      var code := SupplyPage(space, thread.pageTable, sub, thread.fields[f], addrs[i], pageSize,
                             ThreadPerms(permissions, thread.privileged), s0, size, FrameFields(addrs)[..i]);
      if code != 0 {
        SuppliedRest(s0, space.Model(), root, sub, size, pageSize, FrameFields(addrs)[..i], p);
        BytesOfPages(done, |addrs|, pageSize);
        ServedNow(Space(s0, old(thread.fields)), Space(space.Model(), thread.fields), root,
                  Supply(sub, LeafLevel(pageSize), FrameFields(addrs)[..done], p));
        return -1, done;
      }
      FieldsStep(addrs, i);
      thread.fields := thread.fields[f := thread.fields[f] + pageSize];
      thread.memoryLimit := thread.memoryLimit + pageSize;
      done := i + 1;
    }
    SuppliedRest(s0, space.Model(), root, sub, size, pageSize, FrameFields(addrs)[..|addrs|], p);
    BytesOfPages(done, |addrs|, pageSize);
    ServedNow(Space(s0, old(thread.fields)), Space(space.Model(), thread.fields), root,
              Supply(sub, LeafLevel(pageSize), FrameFields(addrs)[..done], p));
    return 0, done;
  }

  lemma BytesOfPages(done: nat, n: nat, pageSize: nat)
    requires done <= n && PageSize(pageSize)
    ensures Bytes(done, pageSize) == done * pageSize == done * Span(LeafLevel(pageSize)) && 1 <= LeafLevel(pageSize) <= 3
    ensures done * pageSize <= Bytes(n, pageSize)
  {
    PageSizeIsSpan(pageSize);
    assert done * pageSize <= n * pageSize;
  }

  lemma FieldsStep(addrs: seq<nat>, i: nat)
    requires i < |addrs|
    ensures FrameFields(addrs)[..i + 1] == FrameFields(addrs)[..i] + [FrameField(addrs[i])]
  {
  }

  lemma SuppliedNone(s: Pages, r: nat, sub: SubSpace, size: nat, leaf: nat, p: Perms)
    requires Inv(s) && IsRoot(s, r) && 1 <= leaf <= 3
    ensures Supplied(s, s, r, sub, size, leaf, [], p)
  {
    FilledNone(s, r, SubBase(sub) + size, leaf, p);
  }

  lemma SuppliedRest(s0: Pages, s: Pages, r: nat, sub: SubSpace, size: nat, pageSize: nat, ppns: seq<nat>, p: Perms)
    requires PageSize(pageSize) && Supplied(s0, s, r, sub, size, LeafLevel(pageSize), ppns, p)
    requires size + Bytes(|ppns|, pageSize) <= SLOT_BYTES && RestUnmapped(s0, r, sub, size)
    ensures RestUnmapped(s, r, sub, size + Bytes(|ppns|, pageSize))
  {
    PageSizeIsSpan(pageSize);
    FilledRest(s0, s, r, sub, size, LeafLevel(pageSize), ppns, p);
  }
}
