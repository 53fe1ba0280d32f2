/** The physical memory map as a value: registered regions and the bits of their frames. */
module Frames {
  import opened BitMaps
  import opened Runs

  const PAGE: nat := 4096                              // DEFAULT_PAGE_SIZE
  const WORD32: nat := 0x1_0000_0000
  const WORD64: nat := 0x1_0000_0000_0000_0000
  const FAILED: nat := WORD64 - 1                      // FRAME_ALLOC_FAILED
  const PHYS_LIMIT: nat := 0x100_0000_0000             // a 28-bit frame number ends here
  const WRAP_FRAMES: nat := 0x10_0000                  // 2^32 bytes in frames

  function Sub64(x: int, n: int): (r: nat) { (x - n) % WORD64 }

  function Add64(x: int, n: int): (r: nat) { (x + n) % WORD64 }

  datatype Region = Region(startAddr: nat, lenBytes: nat, bitStart: nat, qwords: nat, freeFrames: nat) {
    function End(): nat { startAddr + lenBytes }

    function Frames(): nat { lenBytes / PAGE }

    /** Bits owned in the bitmap: the frames, padded to whole 64-bit words. */
    function Slots(): nat { 64 * qwords }

    predicate Ok() {
      && startAddr % PAGE == 0 && lenBytes % PAGE == 0 && lenBytes > 0 && End() <= PHYS_LIMIT
      && qwords == (Frames() + 63) / 64
      && bitStart % 64 == 0 && freeFrames < WORD64
    }

    predicate Holds(a: nat, b: nat) { startAddr <= a && b <= End() }

    predicate Before(other: Region) {
      End() <= other.startAddr && bitStart + Slots() <= other.bitStart
    }
  }

  datatype Mem = Mem(regions: seq<Region>, bits: seq<bool>)

  /** Regions are page aligned, sorted and disjoint, in memory and in the bitmap. */
  ghost predicate Layout(m: Mem) {
    && (forall i :: OkAt(m, i))
    && (forall i :: FitsAt(m, i))
    && (forall i, j :: OrderedAt(m, i, j))
    && (forall i :: TightAt(m, i))
    && |m.bits| == SlotsEnd(m.regions)
  }

  ghost predicate OkAt(m: Mem, i: int) {
    0 <= i < |m.regions| ==> m.regions[i].Ok()
  }

  ghost predicate FitsAt(m: Mem, i: int) {
    0 <= i < |m.regions| ==> m.regions[i].bitStart + m.regions[i].Slots() <= |m.bits|
  }

  ghost predicate OrderedAt(m: Mem, i: int, j: int) {
    0 <= i < j < |m.regions| ==> m.regions[i].Before(m.regions[j])
  }

  /** Rows follow each other in the bitmap without gaps. */
  ghost predicate TightAt(m: Mem, i: int) {
    0 <= i < |m.regions| ==> m.regions[i].bitStart == SlotsEnd(m.regions[..i])
  }

  function SlotsEnd(rs: seq<Region>): nat {
    if |rs| == 0 then 0 else rs[|rs| - 1].bitStart + rs[|rs| - 1].Slots()
  }

  /** The bits of region `i`, padding included. */
  ghost function Row(m: Mem, i: nat): (row: seq<bool>)
    requires Layout(m) && i < |m.regions|
    ensures |row| == m.regions[i].Slots()
  {
    assert FitsAt(m, i);
    m.bits[m.regions[i].bitStart..m.regions[i].bitStart + m.regions[i].Slots()]
  }

  /** The places behind region `i`'s last frame are marked as taken. */
  ghost predicate PaddedAt(m: Mem, i: int)
    requires Layout(m)
  {
    0 <= i < |m.regions| ==>
      forall k | m.regions[i].Frames() <= k < m.regions[i].Slots() :: Row(m, i)[k]
  }

  /** Region `i`'s counter is its number of free bits. */
  ghost predicate CountedAt(m: Mem, i: int)
    requires Layout(m)
  {
    0 <= i < |m.regions| ==> m.regions[i].freeFrames == CountFree(Row(m, i))
  }

  ghost predicate Wf(m: Mem) {
    Layout(m) && (forall i :: PaddedAt(m, i)) && (forall i :: CountedAt(m, i))
  }

  // ---------------------------------------------------------------- writing a range

  /** Places s .. s + n - 1 of region `i` become `v`, and the counter follows. */
  ghost function Paint(m: Mem, i: nat, s: nat, n: nat, v: bool): Mem
    requires Layout(m) && i < |m.regions| && s + n <= m.regions[i].Slots()
  {
    assert FitsAt(m, i);
    var r := m.regions[i];
    var r' := r.(freeFrames := if v then Sub64(r.freeFrames, n) else Add64(r.freeFrames, n));
    Mem(m.regions[i := r'], Fill(m.bits, r.bitStart + s, n, v))
  }

  /** First region that contains the addresses [a, b). */
  function Holder(rs: seq<Region>, a: nat, b: nat): (r: Option<nat>)
    ensures r.Some? ==> r.value < |rs| && rs[r.value].Holds(a, b)
    ensures r.Some? ==> forall i | 0 <= i < r.value :: !rs[i].Holds(a, b)
    ensures r.None? ==> forall i | 0 <= i < |rs| :: !rs[i].Holds(a, b)
  {
    if |rs| == 0 then None
    else if rs[0].Holds(a, b) then Some(0)
    else match Holder(rs[1..], a, b)
      case None => None
      case Some(i) =>
        assert forall k | 1 <= k < i + 1 :: rs[k] == rs[1..][k - 1];
        Some(i + 1)
  }

  predicate Outside(m: Mem, a: nat, b: nat)
    requires |m.regions| > 0
  {
    a < m.regions[0].startAddr || b > m.regions[|m.regions| - 1].End()
  }

  /** What writing `v` over the addresses [a, b) does: refuse outside the map, otherwise act
      on the one region that holds the range, and silently do nothing when none does. */
  ghost function WriteRange(m: Mem, a: nat, b: nat, v: bool): (r: (Mem, int))
    requires Layout(m) && |m.regions| > 0 && a <= b
  {
    if Outside(m, a, b) then (m, -1)
    else match Holder(m.regions, a, b)
      case None => (m, 0)
      case Some(i) =>
        assert OkAt(m, i);
        RangeInRegion(m.regions[i], a, b);
        (Paint(m, i, (a - m.regions[i].startAddr) / PAGE, (b - a) / PAGE, v), 0)
  }

  lemma RangeInRegion(r: Region, a: nat, b: nat)
    requires r.startAddr <= a <= b <= r.End() && r.qwords == (r.Frames() + 63) / 64
    ensures (a - r.startAddr) / PAGE + (b - a) / PAGE <= r.Frames() <= r.Slots()
  {
  }

  lemma InsideMap(m: Mem, i: nat, a: nat, b: nat)
    requires Layout(m) && i < |m.regions| && m.regions[i].Holds(a, b)
    ensures !Outside(m, a, b)
  {
    var last := |m.regions| - 1;
    assert OrderedAt(m, 0, i);
    assert OrderedAt(m, i, last);
  }

  /** A non-empty range lies in one region at most. */
  lemma HolderIs(m: Mem, i: nat, a: nat, b: nat)
    requires Layout(m) && i < |m.regions| && a < b
    requires m.regions[i].Holds(a, b)
    ensures Holder(m.regions, a, b) == Some(i)
  {
    var h := Holder(m.regions, a, b).value;
    assert OrderedAt(m, h, i);
  }

  lemma WholePages(base: nat, s: nat, n: nat)
    ensures var a := base + s * PAGE; (a - base) / PAGE == s && (a + n * PAGE - a) / PAGE == n
  {
  }

  lemma PagesFit(r: Region, s: nat, n: nat)
    requires s + n <= r.Frames()
    ensures r.startAddr + s * PAGE + n * PAGE <= r.End()
  {
  }

  lemma WriteHeld(m: Mem, i: nat, a: nat, b: nat, v: bool)
    requires Layout(m) && i < |m.regions| && a <= b
    requires !Outside(m, a, b) && Holder(m.regions, a, b) == Some(i)
    ensures var r := m.regions[i]; var s, n := (a - r.startAddr) / PAGE, (b - a) / PAGE;
            s + n <= r.Slots() && WriteRange(m, a, b, v) == (Paint(m, i, s, n, v), 0)
  {
    assert OkAt(m, i);
    RangeInRegion(m.regions[i], a, b);
  }

  /** The three outcomes of a range write. */
  lemma WriteCases(m: Mem, a: nat, b: nat, v: bool)
    requires Layout(m) && |m.regions| > 0 && a <= b
    ensures Outside(m, a, b) ==> WriteRange(m, a, b, v) == (m, -1)
    ensures !Outside(m, a, b) && Holder(m.regions, a, b) == None ==> WriteRange(m, a, b, v) == (m, 0)
    ensures !Outside(m, a, b) && Holder(m.regions, a, b).Some? ==>
              var i := Holder(m.regions, a, b).value;
              var s, n := (a - m.regions[i].startAddr) / PAGE, (b - a) / PAGE;
              s + n <= m.regions[i].Slots() && WriteRange(m, a, b, v) == (Paint(m, i, s, n, v), 0)
  {
    if !Outside(m, a, b) && Holder(m.regions, a, b).Some? {
      WriteHeld(m, Holder(m.regions, a, b).value, a, b, v);
    }
  }

  /** The bits of region i are whole words of the bitmap. */
  lemma RowBounds(m: Mem, i: nat)
    requires Layout(m) && i < |m.regions|
    ensures var r := m.regions[i];
            && r.bitStart % 64 == 0 && r.bitStart + r.Slots() <= |m.bits| && r.Slots() > 0
            && Row(m, i) == m.bits[r.bitStart..r.bitStart + r.Slots()]
  {
    assert OkAt(m, i) && FitsAt(m, i);
  }

  /** The region that holds an aligned range is found, and the right places written. */
  lemma WriteAt(m: Mem, i: nat, s: nat, n: nat, v: bool)
    requires Layout(m) && i < |m.regions| && s + n <= m.regions[i].Frames() <= m.regions[i].Slots()
    ensures var a := m.regions[i].startAddr + s * PAGE;
            WriteRange(m, a, a + n * PAGE, v) == (Paint(m, i, s, n, v), 0)
  {
    var r := m.regions[i];
    var a := r.startAddr + s * PAGE;
    var b := a + n * PAGE;
    WholePages(r.startAddr, s, n);
    PagesFit(r, s, n);
    InsideMap(m, i, a, b);
    if n > 0 {
      HolderIs(m, i, a, b);
      WriteHeld(m, i, a, b, v);
    } else {
      WriteNothing(m, i, a, v);
      PaintNothing(m, i, s, v);
    }
  }

  lemma WriteNothing(m: Mem, i: nat, a: nat, v: bool)
    requires Layout(m) && i < |m.regions| && m.regions[i].Holds(a, a)
    ensures WriteRange(m, a, a, v) == (m, 0)
  {
    InsideMap(m, i, a, a);
    var h := Holder(m.regions, a, a).value;
    WriteHeld(m, h, a, a, v);
    PaintNothing(m, h, (a - m.regions[h].startAddr) / PAGE, v);
  }

  lemma PaintNothing(m: Mem, i: nat, s: nat, v: bool)
    requires Layout(m) && i < |m.regions| && s <= m.regions[i].Slots()
    ensures Paint(m, i, s, 0, v) == m
  {
    assert OkAt(m, i) && FitsAt(m, i);
    assert Fill(m.bits, m.regions[i].bitStart + s, 0, v) == m.bits;
  }

  lemma PaintLayout(m: Mem, i: nat, s: nat, n: nat, v: bool)
    requires Layout(m) && i < |m.regions| && s + n <= m.regions[i].Slots()
    ensures Layout(Paint(m, i, s, n, v))
  {
    var m' := Paint(m, i, s, n, v);
    forall j
      ensures OkAt(m', j) && FitsAt(m', j)
    {
      assert OkAt(m, j) && FitsAt(m, j);
    }
    forall j, k
      ensures OrderedAt(m', j, k)
    {
      assert OrderedAt(m, j, k);
    }
    forall j
      ensures TightAt(m', j)
    {
      assert TightAt(m, j);
    }
  }

  lemma PaintRowHere(m: Mem, i: nat, s: nat, n: nat, v: bool)
    requires Layout(m) && i < |m.regions| && s + n <= m.regions[i].Slots()
    requires Layout(Paint(m, i, s, n, v))
    ensures Row(Paint(m, i, s, n, v), i) == Fill(Row(m, i), s, n, v)
  {
    assert FitsAt(m, i);
    var lo, hi := m.regions[i].bitStart, m.regions[i].bitStart + m.regions[i].Slots();
    FillWithin(m.bits, lo + s, n, v, lo, hi);
  }

  lemma PaintRowElsewhere(m: Mem, i: nat, s: nat, n: nat, v: bool, j: nat)
    requires Layout(m) && i < |m.regions| && s + n <= m.regions[i].Slots() && j < |m.regions| && j != i
    requires Layout(Paint(m, i, s, n, v))
    ensures Row(Paint(m, i, s, n, v), j) == Row(m, j)
  {
    assert FitsAt(m, i) && FitsAt(m, j) && OrderedAt(m, i, j) && OrderedAt(m, j, i);
    var lo, hi := m.regions[j].bitStart, m.regions[j].bitStart + m.regions[j].Slots();
    FillElsewhere(m.bits, m.regions[i].bitStart + s, n, v, lo, hi);
  }

  /** Only region `i`'s bits change, and there exactly the painted places. */
  lemma PaintRow(m: Mem, i: nat, s: nat, n: nat, v: bool, j: nat)
    requires Layout(m) && i < |m.regions| && s + n <= m.regions[i].Slots() && j < |m.regions|
    ensures Layout(Paint(m, i, s, n, v))
    ensures Row(Paint(m, i, s, n, v), j) == if j == i then Fill(Row(m, i), s, n, v) else Row(m, j)
  {
    PaintLayout(m, i, s, n, v);
    if j == i {
      PaintRowHere(m, i, s, n, v);
    } else {
      PaintRowElsewhere(m, i, s, n, v, j);
    }
  }

  lemma Counter(x: nat, n: nat)
    requires x < WORD64
    ensures n <= x ==> Sub64(x, n) == x - n
    ensures x + n < WORD64 ==> Add64(x, n) == x + n
    ensures n <= x ==> Add64(Sub64(x, n), n) == x
  {
  }

  lemma PaintedRowWf(m: Mem, i: nat, s: nat, n: nat, v: bool)
    requires Wf(m) && i < |m.regions| && s + n <= m.regions[i].Frames() <= m.regions[i].Slots()
    requires forall k | s <= k < s + n :: Row(m, i)[k] == !v
    ensures var r := Paint(m, i, s, n, v).regions[i]; var row := Fill(Row(m, i), s, n, v);
            r.freeFrames == CountFree(row) && forall k | r.Frames() <= k < r.Slots() :: row[k]
  {
    assert OkAt(m, i) && CountedAt(m, i) && PaddedAt(m, i);
    CountFill(Row(m, i), s, n, v);
    Counter(m.regions[i].freeFrames, n);
  }

  /** Painting a run the other way inside the frames keeps padding and counters right. */
  lemma PaintWf(m: Mem, i: nat, s: nat, n: nat, v: bool)
    requires Wf(m) && i < |m.regions| && s + n <= m.regions[i].Frames() <= m.regions[i].Slots()
    requires forall k | s <= k < s + n :: Row(m, i)[k] == !v
    ensures Wf(Paint(m, i, s, n, v))
  {
    var m' := Paint(m, i, s, n, v);
    PaintLayout(m, i, s, n, v);
    PaintedRowWf(m, i, s, n, v);
    forall j
      ensures PaddedAt(m', j) && CountedAt(m', j)
    {
      assert CountedAt(m, j) && PaddedAt(m, j);
      if 0 <= j < |m.regions| {
        PaintRow(m, i, s, n, v, j);
      }
    }
  }

  /** Taking a free run and giving it back restores the map exactly. */
  lemma PaintBack(m: Mem, i: nat, s: nat, n: nat)
    requires Wf(m) && i < |m.regions| && RunAt(Row(m, i), s, n)
    ensures Layout(Paint(m, i, s, n, true))
    ensures Paint(Paint(m, i, s, n, true), i, s, n, false) == m
  {
    var r, row := m.regions[i], Row(m, i);
    PaintLayout(m, i, s, n, true);
    assert OkAt(m, i) && FitsAt(m, i) && CountedAt(m, i);
    RunIsCounted(row, s, n);
    Counter(r.freeFrames, n);
    forall k | r.bitStart + s <= k < r.bitStart + s + n
      ensures !m.bits[k]
    {
      assert m.bits[k] == row[k - r.bitStart];
    }
    FillBack(m.bits, r.bitStart + s, n, false);
    assert m.regions[i := r] == m.regions;
  }

  /** Equal rows over equal regions make equal bitmaps. */
  lemma SameRowsSameBits(m: Mem, m': Mem)
    requires Layout(m) && Layout(m') && m.regions == m'.regions
    requires forall i | 0 <= i < |m.regions| :: Row(m, i) == Row(m', i)
    ensures m == m'
  {
    SameRowsSamePrefix(m, m', |m.regions|);
  }

  lemma {:induction false} SameRowsSamePrefix(m: Mem, m': Mem, n: nat)
    requires Layout(m) && Layout(m') && m.regions == m'.regions && n <= |m.regions|
    requires forall i | 0 <= i < |m.regions| :: Row(m, i) == Row(m', i)
    ensures var e := SlotsEnd(m.regions[..n]); e <= |m.bits| && e <= |m'.bits| && m.bits[..e] == m'.bits[..e]
    decreases n
  {
    if n > 0 {
      SameRowsSamePrefix(m, m', n - 1);
      var r := m.regions[n - 1];
      assert FitsAt(m, n - 1) && FitsAt(m', n - 1) && TightAt(m, n - 1);
      assert Row(m, n - 1) == Row(m', n - 1);
      var e := r.bitStart + r.Slots();
      assert m.bits[..e] == m.bits[..r.bitStart] + Row(m, n - 1);
      assert m'.bits[..e] == m'.bits[..r.bitStart] + Row(m', n - 1);
      assert SlotsEnd(m.regions[..n]) == e;
    }
  }

  lemma WriteRangeLayout(m: Mem, a: nat, b: nat, v: bool)
    requires Layout(m) && |m.regions| > 0 && a <= b
    ensures Layout(WriteRange(m, a, b, v).0)
  {
    if !Outside(m, a, b) {
      match Holder(m.regions, a, b)
      case None =>
      case Some(i) =>
        WriteHeld(m, i, a, b, v);
        PaintLayout(m, i, (a - m.regions[i].startAddr) / PAGE, (b - a) / PAGE, v);
    }
  }

  /** Same regions, apart from their counters. */
  ghost predicate SameShape(rs: seq<Region>, rs': seq<Region>) {
    |rs| == |rs'| && forall i :: ShapeAt(rs, rs', i)
  }

  ghost predicate ShapeAt(rs: seq<Region>, rs': seq<Region>, i: int) {
    0 <= i < |rs| && i < |rs'| ==> rs'[i] == rs[i].(freeFrames := rs'[i].freeFrames)
  }

  lemma PaintShape(base: seq<Region>, m: Mem, i: nat, s: nat, n: nat, v: bool)
    requires Layout(m) && i < |m.regions| && s + n <= m.regions[i].Slots()
    requires SameShape(base, m.regions)
    ensures SameShape(base, Paint(m, i, s, n, v).regions)
  {
    var m' := Paint(m, i, s, n, v);
    forall k
      ensures ShapeAt(base, m'.regions, k)
    {
      assert ShapeAt(base, m.regions, k);
    }
  }

  lemma SameShapeTrans(a: seq<Region>, b: seq<Region>, c: seq<Region>)
    requires SameShape(a, b) && SameShape(b, c)
    ensures SameShape(a, c)
  {
    forall i
      ensures ShapeAt(a, c, i)
    {
      assert ShapeAt(a, b, i) && ShapeAt(b, c, i);
    }
  }

  lemma SameShapeRefl(a: seq<Region>)
    ensures SameShape(a, a)
  {
  }

  lemma WriteRangeShape(m: Mem, a: nat, b: nat, v: bool)
    requires Layout(m) && |m.regions| > 0 && a <= b
    ensures SameShape(m.regions, WriteRange(m, a, b, v).0.regions)
  {
    SameShapeRefl(m.regions);
    if !Outside(m, a, b) && Holder(m.regions, a, b).Some? {
      var i := Holder(m.regions, a, b).value;
      WriteHeld(m, i, a, b, v);
      PaintShape(m.regions, m, i, (a - m.regions[i].startAddr) / PAGE, (b - a) / PAGE, v);
    }
  }

  // ---------------------------------------------------------------- padding

  /** No place behind region `i`'s last frame is marked. */
  ghost predicate PadFreeAt(m: Mem, i: int)
    requires Layout(m)
  {
    0 <= i < |m.regions| ==>
      forall k | m.regions[i].Frames() <= k < m.regions[i].Slots() :: !Row(m, i)[k]
  }

  /** Writing a range of addresses never reaches the padding, whatever the range. */
  lemma WriteSparesPadding(m: Mem, a: nat, b: nat, v: bool)
    requires Layout(m) && |m.regions| > 0 && a <= b && forall i :: PadFreeAt(m, i)
    ensures var m' := WriteRange(m, a, b, v).0;
            Layout(m') && SameShape(m.regions, m'.regions) && forall i :: PadFreeAt(m', i)
  {
    if !Outside(m, a, b) && Holder(m.regions, a, b).Some? {
      var h := Holder(m.regions, a, b).value;
      var s, n := (a - m.regions[h].startAddr) / PAGE, (b - a) / PAGE;
      assert OkAt(m, h);
      RangeInRegion(m.regions[h], a, b);
      WriteHeld(m, h, a, b, v);
      PaintLayout(m, h, s, n, v);
      PaintShape(m.regions, m, h, s, n, v);
      forall i
        ensures PadFreeAt(Paint(m, h, s, n, v), i)
      {
        assert PadFreeAt(m, i);
        if 0 <= i < |m.regions| {
          PaintRow(m, h, s, n, v, i);
        }
      }
    }
  }

  /** Free padding is correct padding exactly when there is none: every region is a multiple
      of 64 frames. */
  lemma PaddedIffWholeWords(m: Mem)
    requires Layout(m) && forall i :: PadFreeAt(m, i)
    ensures (forall i :: PaddedAt(m, i)) <==> (forall i | 0 <= i < |m.regions| :: m.regions[i].Frames() % 64 == 0)
  {
    forall i: nat | i < |m.regions|
      ensures PaddedAt(m, i) <==> m.regions[i].Frames() % 64 == 0
    {
      var r := m.regions[i];
      assert OkAt(m, i) && PadFreeAt(m, i);
      assert r.Frames() % 64 == 0 <==> r.Slots() == r.Frames();
      assert r.Slots() > r.Frames() ==> !Row(m, i)[r.Frames()];
    }
  }

  /** Clearing every bit keeps the layout, and frees the padding with the rest. */
  lemma ClearedLayout(m: Mem, bits: seq<bool>)
    requires Layout(m) && |bits| == |m.bits| && forall k | 0 <= k < |bits| :: !bits[k]
    ensures Layout(Mem(m.regions, bits)) && SameShape(m.regions, m.regions)
    ensures forall i :: PadFreeAt(Mem(m.regions, bits), i)
  {
    var m' := Mem(m.regions, bits);
    forall i
      ensures OkAt(m', i) && FitsAt(m', i) && TightAt(m', i)
    {
      assert OkAt(m, i) && FitsAt(m, i) && TightAt(m, i);
    }
    forall i, j
      ensures OrderedAt(m', i, j)
    {
      assert OrderedAt(m, i, j);
    }
    assert Layout(m');
    forall i
      ensures PadFreeAt(m', i)
    {
      assert FitsAt(m', i);
    }
  }
}
