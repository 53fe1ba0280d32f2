/** Contiguous frame allocation on the memory map's value: what a call picks, when it is
    right, and what a free undoes. */
module Alloc {
  import opened Runs
  import opened Frames

  datatype Pick = Pick(region: nat, place: nat)

  /** The lowest region at or above `i` that has n consecutive free frames, and the lowest
      place in it where they start. */
  ghost function FirstFit(m: Mem, n: nat, i: nat := 0): (r: Option<Pick>)
    requires Layout(m) && i <= |m.regions|
    ensures r.Some? ==> i <= r.value.region < |m.regions|
    ensures r.Some? ==> IsFirstRun(Row(m, r.value.region), n, r.value.place)
    ensures r.Some? ==> forall j: nat, t: nat | i <= j < r.value.region :: !RunAt(Row(m, j), t, n)
    ensures r.None? ==> forall j: nat, t: nat | i <= j < |m.regions| :: !RunAt(Row(m, j), t, n)
    decreases |m.regions| - i
  {
    if i == |m.regions| then None
    else match FirstRun(Row(m, i), n)
      case Some(s) => Some(Pick(i, s))
      case None => FirstFit(m, n, i + 1)
  }

  /** The region and place a call settles on: as first fit, but regions whose counter is below n
      are passed over unseen. */
  ghost function Search(m: Mem, n: nat, i: nat := 0): (r: Option<Pick>)
    requires Layout(m) && i <= |m.regions|
    ensures r.Some? ==> i <= r.value.region < |m.regions| && m.regions[r.value.region].freeFrames >= n
    ensures r.Some? ==> IsFirstRun(Row(m, r.value.region), n, r.value.place)
    ensures r.Some? ==> forall j: nat, t: nat | i <= j < r.value.region :: !SeenRun(m, n, j, t)
    ensures r.None? ==> forall j: nat, t: nat | i <= j < |m.regions| :: !SeenRun(m, n, j, t)
    decreases |m.regions| - i
  {
    if i == |m.regions| then None
    else if m.regions[i].freeFrames < n then Search(m, n, i + 1)
    else match FirstRun(Row(m, i), n)
      case Some(s) => Some(Pick(i, s))
      case None => Search(m, n, i + 1)
  }

  /** A run of n free bits in a region whose counter admits the request. */
  ghost predicate SeenRun(m: Mem, n: nat, j: nat, t: nat)
    requires Layout(m) && j < |m.regions|
  {
    m.regions[j].freeFrames >= n && RunAt(Row(m, j), t, n)
  }

  /** The address the code computes for place `s`: the product is taken in 32 bits. */
  function PlaceAddr(r: Region, s: nat): nat { r.startAddr + s * PAGE % WORD32 }

  /** The map after a contiguous allocation of n frames, and the address it returns. */
  ghost function AllocSpec(m: Mem, n: nat): (r: (Mem, nat))
    requires Layout(m)
  {
    match Search(m, n)
    case None => (m, FAILED)
    case Some(p) =>
      var a := PlaceAddr(m.regions[p.region], p.place);
      (WriteRange(m, a, a + n * PAGE, true).0, a)
  }

  /** The map after `map_dealloc_frame`, and its return code. */
  ghost function FreeSpec(m: Mem, addr: nat, size: nat): (r: (Mem, int))
    requires Layout(m) && |m.regions| > 0
  {
    WriteRange(m, addr, addr + size, false)
  }

  /** No region exceeds the 2^20 frames that the 32-bit product can address. */
  ghost predicate Small(m: Mem) {
    forall i | 0 <= i < |m.regions| :: m.regions[i].Frames() <= WRAP_FRAMES
  }

  // ---------------------------------------------------------------- picks

  /** A non-empty run never reaches into the padding. */
  lemma RunInFrames(m: Mem, i: nat, s: nat, n: nat)
    requires Wf(m) && i < |m.regions| && IsFirstRun(Row(m, i), n, s)
    ensures s + n <= m.regions[i].Frames() <= m.regions[i].Slots() && (n == 0 ==> s == 0)
  {
    assert OkAt(m, i) && PaddedAt(m, i);
    if n > 0 {
      assert !Row(m, i)[s + n - 1];
    } else {
      assert s == 0 by {
        assert RunAt(Row(m, i), 0, 0);
      }
    }
  }

  /** Skipping a region whose counter is below n loses nothing. */
  lemma SkipIsSound(m: Mem, i: nat, n: nat)
    requires Wf(m) && i < |m.regions| && m.regions[i].freeFrames < n
    ensures FirstRun(Row(m, i), n) == None
  {
    var row := Row(m, i);
    assert CountedAt(m, i);
    if FirstRun(row, n).Some? {
      RunIsCounted(row, FirstRun(row, n).value, n);
    }
  }

  /** With right counters the search is first fit. */
  lemma {:induction false} SearchIsFirstFit(m: Mem, n: nat, i: nat)
    requires Wf(m) && i <= |m.regions|
    ensures Search(m, n, i) == FirstFit(m, n, i)
    decreases |m.regions| - i
  {
    if i < |m.regions| {
      SearchIsFirstFit(m, n, i + 1);
      if m.regions[i].freeFrames < n {
        SkipIsSound(m, i, n);
      }
    }
  }

  lemma NoWrap(s: nat)
    ensures s * PAGE % WORD32 == s % WRAP_FRAMES * PAGE
    ensures s < WRAP_FRAMES ==> s * PAGE % WORD32 == s * PAGE
  {
    var q, r := s / WRAP_FRAMES, s % WRAP_FRAMES;
    assert s * PAGE == q * WORD32 + r * PAGE;
    ModOfSum(q, r * PAGE);
  }

  lemma ModOfSum(q: nat, r: nat)
    requires r < WORD32
    ensures (q * WORD32 + r) % WORD32 == r
  {
  }

  lemma AllocPaints(m: Mem, n: nat, p: Pick)
    requires Layout(m) && Search(m, n) == Some(p) && p.place < WRAP_FRAMES
    requires p.place + n <= m.regions[p.region].Frames() <= m.regions[p.region].Slots()
    ensures AllocSpec(m, n) ==
            (Paint(m, p.region, p.place, n, true), m.regions[p.region].startAddr + p.place * PAGE)
  {
    NoWrap(p.place);
    WriteAt(m, p.region, p.place, n, true);
  }

  /** A call below the 32-bit limit marks exactly the first fit and keeps the map sound. */
  lemma AllocExact(m: Mem, n: nat, p: Pick)
    requires Wf(m) && FirstFit(m, n) == Some(p) && p.place < WRAP_FRAMES
    ensures p.place + n <= m.regions[p.region].Frames() <= m.regions[p.region].Slots()
    ensures AllocSpec(m, n) ==
            (Paint(m, p.region, p.place, n, true), m.regions[p.region].startAddr + p.place * PAGE)
    ensures Wf(AllocSpec(m, n).0)
  {
    SearchIsFirstFit(m, n, 0);
    RunInFrames(m, p.region, p.place, n);
    AllocPaints(m, n, p);
    PaintWf(m, p.region, p.place, n, true);
  }

  /** All n frames from address `a` on were free in region `i`. */
  ghost predicate BlockFree(m: Mem, i: nat, a: nat, n: nat)
    requires Layout(m) && i < |m.regions|
  {
    a >= m.regions[i].startAddr && RunAt(Row(m, i), (a - m.regions[i].startAddr) / PAGE, n)
  }

  /** The 32-bit product decides: a successful call returns frames that were all free exactly
      when the first fit starts below frame 2^20 of its region. */
  lemma AllocSoundIff(m: Mem, n: nat, p: Pick)
    requires Wf(m) && n >= 1 && FirstFit(m, n) == Some(p)
    ensures BlockFree(m, p.region, AllocSpec(m, n).1, n) <==> p.place < WRAP_FRAMES
  {
    var r := m.regions[p.region];
    SearchIsFirstFit(m, n, 0);
    NoWrap(p.place);
    var t := p.place % WRAP_FRAMES;
    WholePages(r.startAddr, t, n);
    assert AllocSpec(m, n).1 == r.startAddr + t * PAGE;
    if p.place >= WRAP_FRAMES {
      assert t < p.place;
    }
  }

  // ---------------------------------------------------------------- which regions are too long

  /** The call returns free frames, if it returns any. */
  ghost predicate SoundCall(m: Mem, n: nat)
    requires Layout(m)
  {
    FirstFit(m, n).Some? ==> BlockFree(m, FirstFit(m, n).value.region, AllocSpec(m, n).1, n)
  }

  ghost predicate SoundAt(shape: seq<Region>, m: Mem, n: nat) {
    Wf(m) && SameShape(shape, m.regions) && n >= 1 ==> SoundCall(m, n)
  }

  /** The same regions with every frame taken but frame s of region i. */
  function OneLeft(m: Mem, i: nat, s: nat): Mem
    requires i < |m.regions|
  {
    Mem(seq(|m.regions|, j requires 0 <= j < |m.regions| => m.regions[j].(freeFrames := if j == i then 1 else 0)),
        seq(|m.bits|, k => k != m.regions[i].bitStart + s))
  }

  lemma OneLeftLayout(m: Mem, i: nat, s: nat)
    requires Layout(m) && i < |m.regions|
    ensures Layout(OneLeft(m, i, s)) && SameShape(m.regions, OneLeft(m, i, s).regions)
  {
    var m' := OneLeft(m, i, s);
    forall j
      ensures OkAt(m', j) && FitsAt(m', j)
    {
      assert OkAt(m, j) && FitsAt(m, j);
    }
    forall j, k
      ensures OrderedAt(m', j, k)
    {
      assert OrderedAt(m, j, k);
    }
    forall j
      ensures TightAt(m', j)
    {
      assert TightAt(m, j);
    }
  }

  lemma OneLeftRow(m: Mem, i: nat, s: nat, j: nat)
    requires Layout(m) && i < |m.regions| && s < m.regions[i].Frames() && j < |m.regions|
    requires Layout(OneLeft(m, i, s))
    ensures var row := Row(OneLeft(m, i, s), j);
            |row| == m.regions[j].Slots() && forall k | 0 <= k < |row| :: row[k] <==> !(j == i && k == s)
  {
    assert FitsAt(m, j) && OrderedAt(m, i, j) && OrderedAt(m, j, i);
    RowFrames(m, i);
    var m' := OneLeft(m, i, s);
    forall k | 0 <= k < m.regions[j].Slots()
      ensures Row(m', j)[k] <==> !(j == i && k == s)
    {
      assert Row(m', j)[k] == m'.bits[m.regions[j].bitStart + k];
    }
  }

  lemma OneLeftAt(m: Mem, i: nat, s: nat, j: nat)
    requires Layout(m) && i < |m.regions| && s < m.regions[i].Frames() && j < |m.regions|
    requires Layout(OneLeft(m, i, s))
    ensures var m' := OneLeft(m, i, s);
            && PaddedAt(m', j) && CountedAt(m', j)
            && (if j == i then FirstRun(Row(m', j), 1) == Some(s) else forall t: nat :: !RunAt(Row(m', j), t, 1))
  {
    hide Layout, Row;
    var row := Row(OneLeft(m, i, s), j);
    OneLeftRow(m, i, s, j);
    assert m.regions[i].Frames() <= m.regions[i].Slots() by {
      RowFrames(m, i);
    }
    if j == i {
      OneFree(row, s);
    } else {
      CountUniform(row, true);
      NoRunInTaken(row);
    }
  }

  lemma RowFrames(m: Mem, i: nat)
    requires Layout(m) && i < |m.regions|
    ensures m.regions[i].Frames() <= m.regions[i].Slots() && m.regions[i].lenBytes % PAGE == 0
  {
    assert OkAt(m, i);
  }

  lemma OneLeftWf(m: Mem, i: nat, s: nat)
    requires Layout(m) && i < |m.regions| && s < m.regions[i].Frames()
    ensures Wf(OneLeft(m, i, s)) && FirstFit(OneLeft(m, i, s), 1) == Some(Pick(i, s))
  {
    hide Row, FirstRun, OneLeft;
    var m' := OneLeft(m, i, s);
    OneLeftLayout(m, i, s);
    forall j: nat | j < |m.regions|
      ensures PaddedAt(m', j) && CountedAt(m', j)
      ensures j != i ==> forall t: nat :: !RunAt(Row(m', j), t, 1)
    {
      OneLeftAt(m, i, s, j);
    }
    OneLeftAt(m, i, s, i);
    assert RunAt(Row(m', i), s, 1);
  }

  lemma NoRunInTaken(row: seq<bool>)
    requires forall k | 0 <= k < |row| :: row[k]
    ensures forall t: nat :: !RunAt(row, t, 1)
  {
    forall t: nat
      ensures !RunAt(row, t, 1)
    {
      if t < |row| {
        assert row[t];
      }
    }
  }

  /** For regions of given sizes: every call on every well-formed map of them returns free frames
      exactly when no region has more than 2^20 frames. */
  lemma AllSoundIffSmall(m: Mem)
    requires Layout(m)
    ensures (forall m', n :: SoundAt(m.regions, m', n)) <==> Small(m)
  {
    if Small(m) {
      forall m': Mem, n: nat
        ensures SoundAt(m.regions, m', n)
      {
        if Wf(m') && SameShape(m.regions, m'.regions) && n >= 1 && FirstFit(m', n).Some? {
          SmallIsSound(m, m', n);
        }
      }
    } else {
      var i: nat :| i < |m.regions| && m.regions[i].Frames() > WRAP_FRAMES;
      var m' := OneLeft(m, i, WRAP_FRAMES);
      OneLeftLayout(m, i, WRAP_FRAMES);
      OneLeftWf(m, i, WRAP_FRAMES);
      AllocSoundIff(m', 1, Pick(i, WRAP_FRAMES));
      assert !SoundAt(m.regions, m', 1);
    }
  }

  lemma SmallIsSound(m: Mem, m': Mem, n: nat)
    requires Small(m) && Wf(m') && SameShape(m.regions, m'.regions) && n >= 1 && FirstFit(m', n).Some?
    ensures SoundCall(m', n)
  {
    var p := FirstFit(m', n).value;
    assert ShapeAt(m.regions, m'.regions, p.region);
    RunInFrames(m', p.region, p.place, n);
    AllocSoundIff(m', n, p);
  }

  lemma OneFree(row: seq<bool>, s: nat)
    requires s < |row| && forall k | 0 <= k < |row| :: row[k] <==> k != s
    ensures CountFree(row) == 1 && FirstRun(row, 1) == Some(s)
  {
    CountSplit(row, s, 1);
    CountUniform(row[..s], true);
    CountUniform(row[s..s + 1], false);
    CountUniform(row[s + 1..], true);
    forall t: nat | t < s
      ensures !RunAt(row, t, 1)
    {
      assert row[t];
    }
    FirstRunUnique(row, 1, s);
  }

  /** Well-formed but for its length: 2^20 frames taken, one more free. */
  function LongMap(): Mem {
    OneLeft(Mem([Region(0, (WRAP_FRAMES + 1) * PAGE, 0, WRAP_FRAMES / 64 + 1, 0)], seq(WRAP_FRAMES + 64, _ => true)),
            0, WRAP_FRAMES)
  }

  /** On it the call hands out frame 0, which is taken, for frame 2^20. */
  lemma WrapHandsOutTakenFrame()
    ensures Wf(LongMap()) && AllocSpec(LongMap(), 1).1 == 0 && Row(LongMap(), 0)[0]
  {
    hide Row, Search, FirstFit, OneLeft;
    var base := Mem([Region(0, (WRAP_FRAMES + 1) * PAGE, 0, WRAP_FRAMES / 64 + 1, 0)], seq(WRAP_FRAMES + 64, _ => true));
    assert Layout(base);
    OneLeftLayout(base, 0, WRAP_FRAMES);
    OneLeftWf(base, 0, WRAP_FRAMES);
    OneLeftRow(base, 0, WRAP_FRAMES, 0);
    SearchIsFirstFit(LongMap(), 1, 0);
    assert ShapeAt(base.regions, LongMap().regions, 0);
  }

  // ---------------------------------------------------------------- free padding

  /** Places s .. s + n - 1 of region i are marked. */
  ghost predicate Marked(m: Mem, i: nat, s: nat, n: nat)
    requires Layout(m)
  {
    i < |m.regions| && s + n <= |Row(m, i)| && forall k | s <= k < s + n :: Row(m, i)[k]
  }

  /** On any map, padding free or not, a call marks the frames it returns in their region exactly
      when they are frames of it. Otherwise the block ends behind the region, and the next equal
      call returns the same address again. */
  lemma MarksIff(m: Mem, n: nat, p: Pick)
    requires Layout(m) && n >= 1 && Search(m, n) == Some(p) && p.place < WRAP_FRAMES
    ensures var (m', a) := AllocSpec(m, n); var r := m.regions[p.region];
            && Layout(m') && a == r.startAddr + p.place * PAGE
            && (Marked(m', p.region, p.place, n) <==> p.place + n <= r.Frames())
            && (p.place + n > r.Frames() ==> AllocSpec(m', n).1 == a && a + n * PAGE > r.End())
  {
    hide Layout, WriteRange, Outside;
    var r := m.regions[p.region];
    RowFrames(m, p.region);
    NoWrap(p.place);
    if p.place + n <= r.Frames() {
      AllocPaints(m, n, p);
      PaintRow(m, p.region, p.place, n, true, p.region);
    } else {
      var m' := AllocSpec(m, n).0;
      BeyondEnd(r, p.place, n);
      WriteBehind(m, p.region, p.place, n);
      assert KeptAt(m, m', p.region);
      SearchAgain(m, m', n, 0, p);
      assert !Row(m', p.region)[p.place];
    }
  }

  ghost predicate KeptAt(m: Mem, m': Mem, j: nat)
    requires Layout(m) && Layout(m')
  {
    j < |m.regions| && j < |m'.regions| ==> m'.regions[j] == m.regions[j] && Row(m', j) == Row(m, j)
  }

  /** Regions up to and including i are the same in both maps. */
  ghost predicate SameUpTo(m: Mem, m': Mem, i: nat) {
    Layout(m) && Layout(m') && |m'.regions| == |m.regions| && forall j: nat | j <= i :: KeptAt(m, m', j)
  }

  /** A block that ends behind region i is written, if at all, in a later region. */
  lemma WriteBehind(m: Mem, i: nat, s: nat, n: nat)
    requires Layout(m) && i < |m.regions| && n >= 1 && s + n > m.regions[i].Frames()
    ensures var a := m.regions[i].startAddr + s * PAGE; SameUpTo(m, WriteRange(m, a, a + n * PAGE, true).0, i)
  {
    hide Layout, WriteRange, Row;
    var a := m.regions[i].startAddr + s * PAGE;
    var b := a + n * PAGE;
    EndsBehind(m, i, s, n);
    WriteCases(m, a, b, true);
    if !Outside(m, a, b) && Holder(m.regions, a, b).Some? {
      var h := Holder(m.regions, a, b).value;
      PaintKeeps(m, h, (a - m.regions[h].startAddr) / PAGE, (b - a) / PAGE, true, i);
    }
  }

  lemma EndsBehind(m: Mem, i: nat, s: nat, n: nat)
    requires Layout(m) && i < |m.regions| && n >= 1 && s + n > m.regions[i].Frames()
    ensures var a := m.regions[i].startAddr + s * PAGE; var h := Holder(m.regions, a, a + n * PAGE);
            h.Some? ==> i < h.value
  {
    var a := m.regions[i].startAddr + s * PAGE;
    var h := Holder(m.regions, a, a + n * PAGE);
    assert OkAt(m, i);
    BeyondEnd(m.regions[i], s, n);
    if h.Some? {
      assert OrderedAt(m, h.value, i);
    }
  }

  lemma PaintKeeps(m: Mem, h: nat, s: nat, n: nat, v: bool, i: nat)
    requires Layout(m) && i < h < |m.regions| && s + n <= m.regions[h].Slots()
    ensures SameUpTo(m, Paint(m, h, s, n, v), i)
  {
    PaintLayout(m, h, s, n, v);
    forall j: nat | j <= i
      ensures KeptAt(m, Paint(m, h, s, n, v), j)
    {
      PaintRow(m, h, s, n, v, j);
    }
  }

  lemma {:induction false} SearchAgain(m: Mem, m': Mem, n: nat, i: nat, p: Pick)
    requires Layout(m) && i <= |m.regions| && Search(m, n, i) == Some(p) && SameUpTo(m, m', p.region)
    ensures Search(m', n, i) == Some(p)
    decreases |m.regions| - i
  {
    assert KeptAt(m, m', i);
    if p.region > i {
      SearchAgain(m, m', n, i + 1, p);
    }
  }

  /** A hundred frames, the first and the last free, and the padding free too. */
  function HoleMap(): Mem {
    Mem([Region(0, 100 * PAGE, 0, 2, 2)], [false] + seq(98, _ => true) + seq(29, _ => false))
  }

  /** On it a request for two frames is answered twice with the last frame and what lies behind. */
  lemma HandedOutTwice()
    ensures Layout(HoleMap())
    ensures var (m', a) := AllocSpec(HoleMap(), 2); Layout(m') && a == 99 * PAGE && AllocSpec(m', 2).1 == a
  {
    var m := HoleMap();
    var row := Row(m, 0);
    forall t: nat | t < 99
      ensures !RunAt(row, t, 2)
    {
      assert row[if t == 0 then 1 else t];
    }
    FirstRunUnique(row, 2, 99);
    MarksIff(m, 2, Pick(0, 99));
  }

  lemma BeyondEnd(r: Region, s: nat, n: nat)
    requires r.lenBytes % PAGE == 0 && s + n > r.Frames()
    ensures r.startAddr + s * PAGE + n * PAGE > r.End()
  {
    assert (s + n) * PAGE >= (r.Frames() + 1) * PAGE;
  }

  // ---------------------------------------------------------------- failure and undo

  /** Allocation fails exactly when no region has n consecutive free frames. */
  lemma FailsIff(m: Mem, n: nat)
    requires Wf(m)
    ensures AllocSpec(m, n).1 == FAILED <==>
            forall i: nat, t: nat | i < |m.regions| :: !RunAt(Row(m, i), t, n)
  {
    SearchIsFirstFit(m, n, 0);
    match FirstFit(m, n)
    case None =>
    case Some(p) =>
      assert RunAt(Row(m, p.region), p.place, n);
      assert OkAt(m, p.region);
  }

  lemma FreePaints(m: Mem, i: nat, s: nat, n: nat)
    requires Layout(m) && i < |m.regions| && s + n <= m.regions[i].Frames() <= m.regions[i].Slots()
    ensures FreeSpec(m, m.regions[i].startAddr + s * PAGE, n * PAGE) == (Paint(m, i, s, n, false), 0)
  {
    WriteAt(m, i, s, n, false);
  }

  lemma FreeUndoesPaint(m: Mem, i: nat, s: nat, n: nat)
    requires Wf(m) && i < |m.regions| && RunAt(Row(m, i), s, n)
    requires s + n <= m.regions[i].Frames() <= m.regions[i].Slots()
    ensures Layout(Paint(m, i, s, n, true))
    ensures FreeSpec(Paint(m, i, s, n, true), m.regions[i].startAddr + s * PAGE, n * PAGE) == (m, 0)
  {
    PaintBack(m, i, s, n);
    FreePaints(Paint(m, i, s, n, true), i, s, n);
  }

  /** Freeing what was just allocated restores the map, bits and counters alike. */
  lemma FreeUndoesAlloc(m: Mem, n: nat, p: Pick)
    requires Wf(m) && FirstFit(m, n) == Some(p) && p.place < WRAP_FRAMES
    ensures Layout(AllocSpec(m, n).0)
    ensures FreeSpec(AllocSpec(m, n).0, AllocSpec(m, n).1, n * PAGE) == (m, 0)
  {
    hide Layout, Wf, Row, Paint, AllocSpec, FreeSpec;
    AllocExact(m, n, p);
    FreeUndoesPaint(m, p.region, p.place, n);
  }

  // ---------------------------------------------------------------- single frames by number

  function FrameNumber(m: Mem, i: nat, s: nat): nat
    requires i < |m.regions|
  {
    m.regions[i].startAddr / PAGE + s
  }

  /** Place `s` of region `i` is a frame, numbered f, and free. */
  ghost predicate FreeAt(m: Mem, i: nat, s: nat, f: nat)
    requires Layout(m)
  {
    i < |m.regions| && s < m.regions[i].Frames() && s < |Row(m, i)| && !Row(m, i)[s] && f == FrameNumber(m, i, s)
  }

  ghost predicate FrameFree(m: Mem, f: nat)
    requires Layout(m)
  {
    exists i: nat, s: nat :: FreeAt(m, i, s, f)
  }

  lemma NumbersOrdered(m: Mem, i: nat, s: nat, j: nat, t: nat)
    requires Layout(m) && i < j < |m.regions| && s < m.regions[i].Frames()
    ensures FrameNumber(m, i, s) < FrameNumber(m, j, t)
  {
    assert OrderedAt(m, i, j) && OkAt(m, i) && OkAt(m, j);
  }

  /** Taking one frame removes it, and nothing else, from the free frames. */
  lemma PaintOneFrame(m: Mem, i: nat, s: nat, f: nat)
    requires Wf(m) && i < |m.regions| && s < m.regions[i].Frames() <= m.regions[i].Slots() && !Row(m, i)[s]
    ensures Layout(Paint(m, i, s, 1, true))
    ensures FrameFree(Paint(m, i, s, 1, true), f) <==> FrameFree(m, f) && f != FrameNumber(m, i, s)
  {
    var m' := Paint(m, i, s, 1, true);
    PaintLayout(m, i, s, 1, true);
    if FrameFree(m, f) {
      var j: nat, t: nat :| FreeAt(m, j, t, f);
      PaintRow(m, i, s, 1, true, j);
      if j < i {
        NumbersOrdered(m, j, t, i, s);
      } else if i < j {
        NumbersOrdered(m, i, s, j, t);
      }
      assert f != FrameNumber(m, i, s) ==> FreeAt(m', j, t, f);
    }
    if FrameFree(m', f) {
      var j: nat, t: nat :| FreeAt(m', j, t, f);
      PaintRow(m, i, s, 1, true, j);
      if j < i {
        NumbersOrdered(m, j, t, i, s);
      } else if i < j {
        NumbersOrdered(m, i, s, j, t);
      }
      assert FreeAt(m, j, t, f);
    }
  }

  lemma PaintSmall(m: Mem, i: nat, s: nat, n: nat, v: bool)
    requires Layout(m) && Small(m) && i < |m.regions| && s + n <= m.regions[i].Slots()
    ensures Small(Paint(m, i, s, n, v))
  {
  }

  lemma FrameAddress(m: Mem, i: nat, s: nat)
    requires Layout(m) && i < |m.regions| && s < m.regions[i].Frames()
    ensures var a := m.regions[i].startAddr + s * PAGE;
            a % PAGE == 0 && a / PAGE == FrameNumber(m, i, s) && a < PHYS_LIMIT
  {
    assert OkAt(m, i);
  }

  /** A single-frame allocation returns the lowest free frame of the whole map, and takes
      exactly that frame; it fails only when no frame is free. */
  lemma AllocOne(m: Mem)
    requires Wf(m) && Small(m)
    ensures var (m', a) := AllocSpec(m, 1);
            && Wf(m') && Small(m')
            && (a == FAILED ==> m' == m && forall f :: !FrameFree(m, f))
            && (a != FAILED ==> a % PAGE == 0 && a < PHYS_LIMIT && FrameFree(m, a / PAGE))
            && (a != FAILED ==> forall f :: FrameFree(m', f) <==> FrameFree(m, f) && f != a / PAGE)
            && (a != FAILED ==> forall f | FrameFree(m, f) :: a / PAGE <= f)
  {
    SearchIsFirstFit(m, 1, 0);
    match FirstFit(m, 1)
    case None =>
      forall f: nat
        ensures !FrameFree(m, f)
      {
        FreeIsRun(m, f);
      }
    case Some(p) =>
      var i, s := p.region, p.place;
      RunInFrames(m, i, s, 1);
      AllocExact(m, 1, p);
      PaintSmall(m, i, s, 1, true);
      FrameAddress(m, i, s);
      assert FreeAt(m, i, s, FrameNumber(m, i, s));
      forall f: nat
        ensures FrameFree(Paint(m, i, s, 1, true), f) <==> FrameFree(m, f) && f != FrameNumber(m, i, s)
        ensures FrameFree(m, f) ==> FrameNumber(m, i, s) <= f
      {
        PaintOneFrame(m, i, s, f);
        if FrameFree(m, f) {
          FirstIsLowest(m, f, i, s);
        }
      }
  }

  lemma FreeIsRun(m: Mem, f: nat)
    requires Layout(m)
    ensures FrameFree(m, f) ==> exists j: nat, t: nat :: j < |m.regions| && RunAt(Row(m, j), t, 1)
  {
    if FrameFree(m, f) {
      var j: nat, t: nat :| FreeAt(m, j, t, f);
      assert RunAt(Row(m, j), t, 1);
    }
  }

  lemma FirstIsLowest(m: Mem, f: nat, i: nat, s: nat)
    requires Layout(m) && FrameFree(m, f) && i < |m.regions| && s < m.regions[i].Frames()
    requires forall j: nat, t: nat | j < i :: !RunAt(Row(m, j), t, 1)
    requires forall t: nat | t < s :: !RunAt(Row(m, i), t, 1)
    ensures FrameNumber(m, i, s) <= f
  {
    var j: nat, t: nat :| FreeAt(m, j, t, f);
    assert RunAt(Row(m, j), t, 1);
    if i < j {
      NumbersOrdered(m, i, s, j, t);
    }
  }
}
