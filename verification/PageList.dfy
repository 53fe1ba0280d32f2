/** Page lists: frames taken one by one and recorded in the first of them. */
module PageLists {
  import opened Runs
  import opened Frames
  import opened Alloc
  import opened AllocRuns
  import opened MemMaps

  const LIST_MAX: nat := 510        // entries that fit a frame behind the two header words
  const FRAME_WORDS: nat := 512

  /** Two header words and the most entries a list may have fill one frame exactly. */
  lemma ListFillsFrame()
    ensures 8 * (2 + LIST_MAX) == 4096 == 8 * FRAME_WORDS
  {
  }

  function Takes(n: nat): seq<Op> { seq(n, _ => Take(1)) }

  /** The state after n single-frame allocations. */
  ghost function Taken(m: Mem, n: nat): State
    requires Layout(m)
  {
    Run(m, Takes(n))
  }

  lemma TakenStep(m: Mem, n: nat)
    requires Layout(m)
    ensures Taken(m, n + 1) == Step(Taken(m, n), Take(1))
  {
    assert Takes(n + 1)[..n] == Takes(n);
  }

  ghost predicate SingleFrames(st: State, n: nat) {
    |st.live| == LiveFrames(st.live) == n && forall j | 0 <= j < |st.live| :: st.live[j].count == 1
  }

  lemma OneMore(st: State, n: nat)
    requires Wf(st.mem) && SingleFrames(st, n)
    ensures SingleFrames(Step(st, Take(1)), if TotalFree(st.mem.regions) > 0 then n + 1 else n)
  {
    SomeFree(st.mem);
    SearchIsFirstFit(st.mem, 1, 0);
    if FirstFit(st.mem, 1).Some? {
      LiveConcat(st.live, [Step(st, Take(1)).live[|st.live|]]);
    }
  }

  /** While frames are left, each single-frame allocation succeeds. */
  lemma {:induction false} TakenCount(m: Mem, n: nat)
    requires Wf(m) && Small(m)
    ensures Wf(Taken(m, n).mem)
    ensures TotalFree(Taken(m, n).mem.regions) + LiveFrames(Taken(m, n).live) == TotalFree(m.regions)
    ensures SingleFrames(Taken(m, n), if n <= TotalFree(m.regions) then n else TotalFree(m.regions))
  {
    FramesConserved(m, Takes(n));
    if n > 0 {
      TakenCount(m, n - 1);
      var k := if n - 1 <= TotalFree(m.regions) then n - 1 else TotalFree(m.regions);
      assert LiveFrames(Taken(m, n - 1).live) == k;
      hide Wf, Small, Run, Step, SingleFrames, LiveFrames, Takes, Taken;
      TakenStep(m, n - 1);
      OneMore(Taken(m, n - 1), k);
    }
  }

  // ---------------------------------------------------------------- giving a list back

  /** ALIGN_DOWN for a power-of-two alignment. */
  function AlignDown(a: nat, align: nat): (r: nat)
    requires align > 0
    ensures r == align * (a / align) && r <= a < r + align
  {
    a - a % align
  }

  /** Frees the pages of the listed addresses in order; stops at the first refusal. */
  ghost function FreeAll(m: Mem, addrs: seq<nat>, size: nat): (r: (Mem, int))
    requires Layout(m) && |m.regions| > 0 && size > 0
    ensures Layout(r.0) && |r.0.regions| == |m.regions|
    decreases |addrs|
  {
    if |addrs| == 0 then (m, 0)
    else
      var a := AlignDown(addrs[0], size);
      WriteRangeLayout(m, a, a + size, false);
      var (m1, r) := FreeSpec(m, a, size);
      if r != 0 then (m1, -1) else FreeAll(m1, addrs[1..], size)
  }

  lemma FreeAllStep(m: Mem, addrs: seq<nat>, i: nat, size: nat)
    requires Layout(m) && |m.regions| > 0 && i < |addrs| && size > 0
    ensures var (m1, r) := FreeSpec(m, AlignDown(addrs[i], size), size);
            && Layout(m1) && |m1.regions| == |m.regions|
            && FreeAll(m, addrs[i..], size) == (if r != 0 then (m1, -1) else FreeAll(m1, addrs[i + 1..], size))
  {
    assert addrs[i..][1..] == addrs[i + 1..];
    WriteRangeLayout(m, AlignDown(addrs[i], size), AlignDown(addrs[i], size) + size, false);
  }

  function AddrsOf(live: seq<Block>): seq<nat> {
    seq(|live|, j requires 0 <= j < |live| => live[j].addr)
  }

  lemma GiveIsFree(base: Mem, st: State, j: nat)
    requires Inv(base, st) && j < |st.live| && |st.mem.regions| > 0 && st.live[j].count == 1
    ensures Inv(base, Step(st, Give(j)))
    ensures AlignDown(st.live[j].addr, PAGE) == st.live[j].addr
    ensures FreeSpec(st.mem, st.live[j].addr, PAGE) == (Step(st, Give(j)).mem, 0)
  {
    GiveKeeps(base, st, j);
    var b := st.live[j];
    assert BlockAt(base, st, j);
    FrameAddress(base, b.region, b.place);
    RowLengths(base, st.mem, b.region);
    FreePaints(st.mem, b.region, b.place, 1);
  }

  /** Freeing the addresses of all blocks but the first leaves just the first. */
  lemma {:induction false} FreeTail(base: Mem, st: State)
    requires Inv(base, st) && |st.live| >= 1 && |st.mem.regions| > 0
    requires forall j | 0 <= j < |st.live| :: st.live[j].count == 1
    ensures var (m, r) := FreeAll(st.mem, AddrsOf(st.live)[1..], PAGE);
            r == 0 && Layout(m) && Inv(base, State(m, [st.live[0]]))
    decreases |st.live|
  {
    hide Layout, BlockAt, Apart, MarkedAt, PaddedAt, CountedAt, WriteRange, AlignDown, FreeSpec;
    if |st.live| == 1 {
      assert st.live == [st.live[0]];
    } else {
      GiveIsFree(base, st, 1);
      var st' := Step(st, Give(1));
      assert AddrsOf(st.live)[1..][0] == st.live[1].addr;
      assert AddrsOf(st.live)[1..][1..] == AddrsOf(st'.live)[1..];
      FreeTail(base, st');
    }
  }

  /** What `idealloc_frames` does to the map: the tail in order, the first frame last. */
  ghost function FreeList(m: Mem, addrs: seq<nat>, size: nat): (r: (Mem, int))
    requires Layout(m) && |m.regions| > 0 && |addrs| >= 1 && size > 0
  {
    var (m1, r1) := FreeAll(m, addrs[1..], size);
    if r1 != 0 then (m1, -1) else (FreeSpec(m1, AlignDown(addrs[0], PAGE), size).0, 0)
  }

  /** Taking n frames one by one and giving the list back restores the map exactly. */
  lemma ListRoundTrip(m: Mem, n: nat)
    requires Wf(m) && Small(m) && 1 <= n <= TotalFree(m.regions)
    ensures var st := Taken(m, n);
            |st.live| == n && |st.mem.regions| > 0 && FreeList(st.mem, AddrsOf(st.live), PAGE) == (m, 0)
  {
    TakenCount(m, n);
    RunInv(m, Takes(n));
    var st := Taken(m, n);
    FreeTail(m, st);
    var m1 := FreeAll(st.mem, AddrsOf(st.live)[1..], PAGE).0;
    var last := State(m1, [st.live[0]]);
    GiveIsFree(m, last, 0);
    assert Step(last, Give(0)).live == [];
    NothingLive(m, Step(last, Give(0)));
  }

  lemma ListDistinct(m: Mem, n: nat, j: nat, k: nat)
    requires Wf(m) && Small(m) && j < k < |Taken(m, n).live|
    ensures Taken(m, n).live[j].addr != Taken(m, n).live[k].addr
  {
    TakenCount(m, n);
    LiveBlocksDisjoint(m, Takes(n), j, k);
  }

  // ---------------------------------------------------------------- the two operations

  /** The addresses n single-frame allocations return. */
  ghost function TakenAddrs(m: Mem, n: nat): seq<nat>
    requires Layout(m)
  {
    AddrsOf(Taken(m, n).live)
  }

  lemma TakenNone(m: Mem)
    requires Layout(m)
    ensures Taken(m, 0).mem == m && TakenAddrs(m, 0) == []
  {
  }

  /** The map is what n single-frame allocations, all successful, make of `m`. */
  ghost predicate HasTaken(mmap: MemMap, m: Mem, n: nat)
    reads mmap, mmap.regions, mmap.bitmap, mmap.bitmap.data
  {
    && Wf(m) && Small(m) && n <= TotalFree(m.regions) && |TakenAddrs(m, n)| == n
    && mmap.Valid() && mmap.Model() == Taken(m, n).mem
  }

  lemma TakenAddrsStep(m: Mem, n: nat)
    requires Wf(m) && Small(m) && n < TotalFree(m.regions)
    ensures var a := AllocSpec(Taken(m, n).mem, 1).1;
            TakenAddrs(m, n + 1) == TakenAddrs(m, n) + [a] && |TakenAddrs(m, n)| == n && a != FAILED
    ensures Taken(m, n + 1).mem == AllocSpec(Taken(m, n).mem, 1).0
  {
    TakenCount(m, n);
    TakenCount(m, n + 1);
    TakenStep(m, n);
    SomeFree(Taken(m, n).mem);
    FailsIff(Taken(m, n).mem, 1);
  }

  /** One default page: the (n+1)-st frame taken, or a failure when none is left. */
  method MapAllocFrame(mmap: MemMap, ghost m: Mem, ghost n: nat) returns (a: nat)
    requires HasTaken(mmap, m, n)
    modifies mmap.regions, mmap.bitmap.data
    ensures n < TotalFree(m.regions) ==> HasTaken(mmap, m, n + 1) && TakenAddrs(m, n + 1) == TakenAddrs(m, n) + [a]
    ensures n < TotalFree(m.regions) <==> a != FAILED
    ensures n == TotalFree(m.regions) ==> HasTaken(mmap, m, n)
  {
    TakenCount(m, n);
    if n < TotalFree(m.regions) {
      TakenAddrsStep(m, n);
    } else {
      SomeFree(Taken(m, n).mem);
    }
    a := mmap.AllocFrameContiguous(1);
  }

  /** `info` is a list of `count` pages of this size at the addresses `addrs`. */
  ghost predicate PagesListed(info: array<nat>, count: nat, size: nat, addrs: seq<nat>)
    reads info
  {
    && info.Length == FRAME_WORDS && 2 + |addrs| <= info.Length
    && info[0] == count && info[1] == size && info[2..2 + |addrs|] == addrs
  }

  ghost predicate ListHolds(info: array<nat>, count: nat, addrs: seq<nat>)
    reads info
  {
    PagesListed(info, count, PAGE, addrs)
  }

  method AppendAddr(info: array<nat>, i: nat, a: nat, ghost count: nat, ghost addrs: seq<nat>)
    requires ListHolds(info, count, addrs) && |addrs| == i && 2 + i < info.Length
    modifies info
    ensures ListHolds(info, count, addrs + [a])
  {
    info[2 + i] := a;
  }

  /** Takes the frames for entries 1 .. count - 1; entry 0 is the frame of the list itself. */
  method FillList(mmap: MemMap, page: array<nat>, count: nat, ghost m: Mem) returns (ok: bool)
    requires HasTaken(mmap, m, 1) && ListHolds(page, count, TakenAddrs(m, 1)) && 1 <= count <= LIST_MAX
    requires (page as object) !in {mmap as object, mmap.regions, mmap.bitmap, mmap.bitmap.data}
    modifies page, mmap.regions, mmap.bitmap.data
    ensures ok <==> count <= TotalFree(m.regions)
    ensures ok ==> HasTaken(mmap, m, count) && ListHolds(page, count, TakenAddrs(m, count))
    ensures !ok ==> HasTaken(mmap, m, TotalFree(m.regions))
  {
    hide TakenAddrs, Small;
    for i := 1 to count
      invariant HasTaken(mmap, m, i)
      invariant ListHolds(page, count, TakenAddrs(m, i))
    {
      var a := MapAllocFrame(mmap, m, i);
      if a == FAILED {
        return false;
      }
      AppendAddr(page, i, a, count, TakenAddrs(m, i));
    }
    return true;
  }

  /** Takes `count` single frames, at least one, and writes their addresses into the first.
      The list is that frame's 512 words: count, page size, addresses. Null is failure, which
      leaves the frames taken so far marked. */
  method IallocFrames(mmap: MemMap, count: nat) returns (info: array?<nat>)
    requires mmap.Valid() && Wf(mmap.Model()) && Small(mmap.Model()) && TotalFree(mmap.Model().regions) >= 1
    modifies mmap.regions, mmap.bitmap.data
    ensures mmap.Valid()
    ensures info != null <==> count <= LIST_MAX && count <= TotalFree(old(mmap.Model()).regions)
    ensures count > LIST_MAX ==> mmap.Model() == old(mmap.Model())
    ensures info != null ==>
              var n := if count == 0 then 1 else count;
              && fresh(info) && HasTaken(mmap, old(mmap.Model()), n)
              && ListHolds(info, count, TakenAddrs(old(mmap.Model()), n))
    ensures info == null && count <= LIST_MAX ==>
              HasTaken(mmap, old(mmap.Model()), TotalFree(old(mmap.Model()).regions))
  {
    hide TakenAddrs, Taken, Small;
    if count > LIST_MAX {
      return null;
    }
    ghost var m := mmap.Model();
    TakenNone(m);
    var a := MapAllocFrame(mmap, m, 0);
    var page := new nat[FRAME_WORDS];
    page[0] := count;
    page[2] := a;
    page[1] := PAGE;
    if count >= 1 {
      var ok := FillList(mmap, page, count, m);
      if !ok {
        return null;
      }
    }
    return page;
  }

  /** Gives the page of entry `i` of a list back. */
  method FreeEntry(mmap: MemMap, info: array<nat>, i: nat, align: nat, ghost count: nat, ghost size: nat,
                   ghost addrs: seq<nat>) returns (r: int)
    requires mmap.Valid() && mmap.regionCount > 0 && PagesListed(info, count, size, addrs)
    requires i < |addrs| && align > 0
    requires (info as object) !in {mmap as object, mmap.regions, mmap.bitmap, mmap.bitmap.data}
    modifies mmap.regions, mmap.bitmap.data
    ensures mmap.Valid() && (mmap.Model(), r) == FreeSpec(old(mmap.Model()), AlignDown(addrs[i], align), size)
  {
    assert addrs[i] == info[2 + i];
    r := mmap.DeallocFrame(AlignDown(info[2 + i], align), info[1]);
  }

  /** Gives a list of pages of any of the three sizes back: the tail in order, then the page that
      holds the list. */
  method IdeallocFrames(mmap: MemMap, info: array<nat>, ghost addrs: seq<nat>) returns (r: int)
    requires mmap.Valid() && mmap.regionCount > 0 && |addrs| >= 1
    requires info.Length > 1 && PagesListed(info, info[0], info[1], addrs)
    requires |addrs| == (if info[0] == 0 then 1 else info[0]) && info[1] in {PAGE, 512 * PAGE, 0x4_0000 * PAGE}
    requires (info as object) !in {mmap as object, mmap.regions, mmap.bitmap, mmap.bitmap.data}
    modifies mmap.regions, mmap.bitmap.data
    ensures mmap.Valid() && (mmap.Model(), r) == FreeList(old(mmap.Model()), addrs, info[1])
  {
    hide Layout, AlignDown, FreeSpec;
    var count, size := info[0], info[1];
    ghost var all := FreeAll(mmap.Model(), addrs[1..], size);
    var i := 1;
    while i < count
      invariant mmap.Valid() && mmap.regionCount > 0
      invariant 1 <= i <= |addrs| && FreeAll(mmap.Model(), addrs[i..], size) == all
    {
      FreeAllStep(mmap.Model(), addrs, i, size);
      var code := FreeEntry(mmap, info, i, size, count, size, addrs);
      if code != 0 {
        return -1;
      }
      i := i + 1;
    }
    assert addrs[|addrs|..] == [];
    var code := FreeEntry(mmap, info, 0, PAGE, count, size, addrs);
    return 0;
  }
}
