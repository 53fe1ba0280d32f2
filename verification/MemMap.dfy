/** The memory map as the kernel keeps it: an array of region records and a bitmap,
    both changed in place. Every method is tied to a function of `Model()`. */
module MemMaps {
  import opened Bits
  import opened BitMaps
  import opened Runs
  import opened Scan
  import opened Frames
  import opened Alloc
  import opened FreshMaps

  class MemMap {
    const regions: array<Region>
    var regionCount: nat
    var memSize: nat
    const bitmap: BitMap

    /** An empty map over storage for its region records and its bitmap. */
    constructor (regions: array<Region>, bitmap: BitMap)
      requires bitmap.size == 0 && (regions as object) != (bitmap.data as object)
      ensures Valid() && this.regions == regions && this.bitmap == bitmap && Model() == Mem([], [])
    {
      this.regions := regions;
      this.bitmap := bitmap;
      regionCount := 0;
      memSize := 0;
    }

    ghost predicate Valid()
      reads this, regions, bitmap, bitmap.data
    {
      && regionCount <= regions.Length && (regions as object) != (bitmap.data as object)
      && bitmap.Valid() && Layout(Mem(regions[..regionCount], bitmap.Bits()))
    }

    ghost function Model(): (m: Mem)
      requires Valid()
      reads this, regions, bitmap, bitmap.data
      ensures Layout(m)
    {
      Mem(regions[..regionCount], bitmap.Bits())
    }

    // -------------------------------------------------------------- marking

    /** Applies one write to region `i`: its counter first, then the bitmap. */
    method PaintRegion(i: nat, place: nat, n: nat, v: bool)
      requires Valid() && i < regionCount && place + n <= regions[i].Slots()
      modifies regions, bitmap.data
      ensures Valid() && Model() == Paint(old(Model()), i, place, n, v)
    {
      ghost var was := Model();
      ghost var m := Paint(was, i, place, n, v);
      PaintLayout(was, i, place, n, v);
      assert FitsAt(was, i);
      var region := regions[i];
      var freeFrames := if v then Sub64(region.freeFrames, n) else Add64(region.freeFrames, n);
      regions[i] := region.(freeFrames := freeFrames);
      assert regions[..regionCount] == was.regions[i := region.(freeFrames := freeFrames)];
      var r: int;
      if v {
        r := bitmap.SetLen(region.bitStart + place, n);
      } else {
        r := bitmap.ClearLen(region.bitStart + place, n);
      }
      assert Mem(regions[..regionCount], bitmap.Bits()) == m;
    }

    /** Walks the region records for the first one that contains [startAddr, endAddr). */
    method FindHolder(startAddr: nat, endAddr: nat) returns (h: Option<nat>)
      requires Valid()
      ensures h == Holder(Model().regions, startAddr, endAddr)
    {
      for i := 0 to regionCount
        invariant forall j | 0 <= j < i :: !regions[j].Holds(startAddr, endAddr)
      {
        if regions[i].startAddr > startAddr || endAddr > regions[i].End() {
          continue;
        }
        return Some(i);
      }
      return None;
    }

    method SetMemRegion(startAddr: nat, endAddr: nat) returns (r: int)
      requires Valid() && regionCount > 0 && startAddr <= endAddr
      modifies regions, bitmap.data
      ensures Valid() && (Model(), r) == WriteRange(old(Model()), startAddr, endAddr, true)
    {
      hide Layout, Paint, WriteRange;
      WriteCases(Model(), startAddr, endAddr, true);
      if startAddr < regions[0].startAddr || endAddr > regions[regionCount - 1].End() {
        return -1;
      }
      var len := endAddr - startAddr;
      var h := FindHolder(startAddr, endAddr);
      if h.Some? {
        var region := regions[h.value];
        PaintRegion(h.value, (startAddr - region.startAddr) / PAGE, len / PAGE, true);
      }
      return 0;
    }

    method ZeroMemRegion(startAddr: nat, endAddr: nat) returns (r: int)
      requires Valid() && regionCount > 0 && startAddr <= endAddr
      modifies regions, bitmap.data
      ensures Valid() && (Model(), r) == WriteRange(old(Model()), startAddr, endAddr, false)
    {
      hide Layout, Paint, WriteRange;
      WriteCases(Model(), startAddr, endAddr, false);
      if startAddr < regions[0].startAddr || endAddr > regions[regionCount - 1].End() {
        return -1;
      }
      var len := endAddr - startAddr;
      var h := FindHolder(startAddr, startAddr + len);
      if h.Some? {
        var region := regions[h.value];
        PaintRegion(h.value, (startAddr - region.startAddr) / PAGE, len / PAGE, false);
      }
      return 0;
    }

    method DeallocFrame(physAddr: nat, pageSize: nat) returns (r: int)
      requires Valid() && regionCount > 0
      modifies regions, bitmap.data
      ensures Valid() && (Model(), r) == FreeSpec(old(Model()), physAddr, pageSize)
    {
      hide Layout, Paint, WriteRange;
      WriteCases(Model(), physAddr, physAddr + pageSize, false);
      var contUnits := pageSize / PAGE;
      if physAddr < regions[0].startAddr || physAddr + pageSize > regions[regionCount - 1].End() {
        return -1;
      }
      var h := FindHolder(physAddr, physAddr + pageSize);
      if h.Some? {
        var region := regions[h.value];
        PaintRegion(h.value, (physAddr - region.startAddr) / PAGE, contUnits, false);
      }
      return 0;
    }

    // -------------------------------------------------------------- allocating

    /** One 64-bit word of a region's row. */
    method RegionWord(i: nat, q: nat) returns (w: bv64)
      requires Valid() && i < regionCount && q < regions[i].qwords
      ensures IsWord(Row(Model(), i), 64 * q, w)
    {
      hide Layout, Row, Region.Slots, IsWord, Bit;
      RowBounds(Model(), i);
      WordInRow(regions[i], q);
      var region := regions[i];
      w := bitmap.ReadWord(region.bitStart / 8 + q * 8);
      WordOfSlice(bitmap.Bits(), region.bitStart, region.bitStart + region.Slots(), 64 * q, w);
    }

    /** Scans region `i` word by word for n consecutive free frames. */
    method FindInRegion(i: nat, pageCount: nat) returns (hit: Option<nat>)
      requires Valid() && i < regionCount
      ensures hit == FirstRun(Row(Model(), i), pageCount)
    {
      hide Layout, Scanned, IsWord, FirstRun;
      ghost var row := Row(Model(), i);
      var carriedRun: nat, runStart: nat := 0, 0;
      ScanStart(row, pageCount);
      RowBounds(Model(), i);
      for q := 0 to regions[i].qwords
        invariant Scanned(row, pageCount, 64 * q, carriedRun)
        invariant carriedRun > 0 ==> runStart == 64 * q - carriedRun
      {
        var word := RegionWord(i, q);
        hit, carriedRun, runStart := ScanWord(word, q, pageCount, carriedRun, runStart, row);
        if hit.Some? {
          return;
        }
      }
      ScannedOut(row, pageCount, carriedRun);
      return None;
    }

    /** Region by region, passing over those whose counter is too low; the start address is computed
        with a 32-bit product. */
    method AllocFrameContiguous(pageCount: nat) returns (addr: nat)
      requires Valid()
      modifies regions, bitmap.data
      ensures Valid() && (Model(), addr) == AllocSpec(old(Model()), pageCount)
    {
      hide Layout, WriteRange, Row, FirstRun, PlaceAddr;
      ghost var m := Model();
      for i := 0 to regionCount
        invariant Valid() && Model() == m
        invariant Search(m, pageCount) == Search(m, pageCount, i)
      {
        assert regions[i] == m.regions[i];
        if regions[i].freeFrames < pageCount {
          continue;
        }
        var found := FindInRegion(i, pageCount);
        if found.Some? {
          addr := PlaceAddr(regions[i], found.value);
          var r := SetMemRegion(addr, addr + pageCount * PAGE);
          return;
        }
      }
      return FAILED;
    }

    // -------------------------------------------------------------- registering

    /** Clears the map, then tries to mark each region's padding and puts its counter back. The
        addresses passed mix a bit index with byte lengths. */
    method ZeroMemMap()
      requires Valid()
      modifies regions, bitmap.data
      ensures Valid() && Model() == ZeroSpec(old(Model()))
    {
      hide Layout, ZeroStep;
      ghost var was := Model();
      SlotsAreBytes(was);
      bitmap.ZeroBytes();
      ClearedLayout(was, bitmap.Bits());
      assert Mem(was.regions, bitmap.Bits()) == Cleared(was);
      for i := 0 to regionCount
        invariant Valid() && |was.regions| == regionCount && Model() == ZeroSteps(Cleared(was), i)
      {
        MarkPadding(i);
      }
    }

    method MarkPadding(i: nat)
      requires Valid() && i < regionCount
      modifies regions, bitmap.data
      ensures Valid() && Model() == ZeroStep(old(Model()), i)
    {
      hide Layout, Paint;
      var region := regions[i];
      var frCount := region.freeFrames;
      ghost var was := Model();
      RestoreLayout(was, i);
      PadEnds(was, i);
      var r := SetMemRegion(region.bitStart + region.lenBytes, region.bitStart + region.Slots() * PAGE);
      ghost var m := Model();
      regions[i] := regions[i].(freeFrames := frCount);
      assert regions[..regionCount] == m.regions[i := m.regions[i].(freeFrames := frCount)];
    }

    /** Appends a region record and grows the bitmap by its padded row. */
    method RegisterRegion(startAddr: nat, endAddr: nat)
      requires Valid() && regionCount < regions.Length
      requires startAddr % PAGE == 0 && endAddr % PAGE == 0 && startAddr < endAddr <= PHYS_LIMIT
      requires regionCount > 0 ==> regions[regionCount - 1].End() <= startAddr
      requires bitmap.size + 64 * (((endAddr - startAddr) / PAGE + 63) / 64) <= 8 * bitmap.data.Length
      modifies this, regions, bitmap
      ensures Valid() && regionCount == old(regionCount) + 1
      ensures Model().regions[..old(regionCount)] == old(Model().regions)
      ensures var r := Model().regions[old(regionCount)];
              r.startAddr == startAddr && r.End() == endAddr && r.freeFrames == r.Frames()
      ensures old(Model().bits) <= Model().bits && memSize == old(memSize) + (endAddr - startAddr)
    {
      hide Layout, BitsOf, Region.Ok;
      ghost var was := Model();
      ghost var bytes := BitsOf(bitmap.data[..]);
      RowsEnd(was);
      var len := endAddr - startAddr;
      var realFrames := len / PAGE;
      memSize := memSize + len;
      var qwords := (realFrames + 63) / 64;
      var bitStart := 0;
      if regionCount != 0 {
        var prevRegion := regions[regionCount - 1];
        assert prevRegion == was.regions[regionCount - 1];
        bitStart := prevRegion.bitStart + prevRegion.Slots();
      }
      var region := Region(startAddr, len, bitStart, qwords, realFrames);
      NewRegionOk(startAddr, endAddr, bitStart);
      assert bitStart == |was.bits|;
      ghost var m := Mem(was.regions + [region], bytes[..bitmap.size + 64 * qwords]);
      RegisterLayout(was, region, m.bits);
      regions[regionCount] := region;
      bitmap.size := bitmap.size + 64 * qwords;
      regionCount := regionCount + 1;
      assert Mem(regions[..regionCount], bitmap.Bits()) == m;
    }
  }

  lemma NewRegionOk(startAddr: nat, endAddr: nat, bitStart: nat)
    requires startAddr % PAGE == 0 && endAddr % PAGE == 0 && startAddr < endAddr <= PHYS_LIMIT && bitStart % 64 == 0
    ensures var frames := (endAddr - startAddr) / PAGE;
            Region(startAddr, endAddr - startAddr, bitStart, (frames + 63) / 64, frames).Ok()
  {
    PagesBetween(startAddr / PAGE, endAddr / PAGE);
    assert startAddr == PAGE * (startAddr / PAGE) && endAddr == PAGE * (endAddr / PAGE);
  }

  lemma PagesBetween(a: nat, b: nat)
    requires a <= b
    ensures (PAGE * b - PAGE * a) % PAGE == 0
  {
    assert PAGE * b - PAGE * a == PAGE * (b - a);
  }

  /** The rows of all regions end where the bitmap does, at a whole word. */
  lemma RowsEnd(m: Mem)
    requires Layout(m)
    ensures |m.bits| == SlotsEnd(m.regions) && |m.bits| % 64 == 0
  {
    if |m.regions| > 0 {
      assert OkAt(m, |m.regions| - 1);
      WholeRows(m.regions[|m.regions| - 1].bitStart, m.regions[|m.regions| - 1].qwords);
    }
  }

  lemma WholeRows(a: nat, q: nat)
    requires a % 64 == 0
    ensures (a + 64 * q) % 64 == 0
  {
    var k := a / 64 + q;
    assert a + 64 * q == 64 * k;
    WholeWord(k);
  }

  lemma WholeWord(k: nat)
    ensures 64 * k % 64 == 0
  {
  }

  lemma RegisterLayout(was: Mem, region: Region, bits: seq<bool>)
    requires Layout(was) && region.Ok() && |bits| == region.bitStart + region.Slots()
    requires region.bitStart == |was.bits|
    requires |was.regions| > 0 ==> was.regions[|was.regions| - 1].End() <= region.startAddr
    ensures Layout(Mem(was.regions + [region], bits))
  {
    var rs := was.regions + [region];
    var m := Mem(rs, bits);
    forall i
      ensures OkAt(m, i) && FitsAt(m, i)
    {
      assert OkAt(was, i) && FitsAt(was, i);
    }
    forall i, j
      ensures OrderedAt(m, i, j)
    {
      assert OrderedAt(was, i, |was.regions| - 1) && OrderedAt(was, i, j) && FitsAt(was, i);
    }
    forall i
      ensures TightAt(m, i)
    {
      assert TightAt(was, i);
      if 0 <= i < |rs| {
        assert rs[..i] == was.regions[..i];
      }
    }
  }

  lemma WordInRow(r: Region, q: nat)
    requires r.bitStart % 64 == 0 && q < r.qwords
    ensures 8 * (r.bitStart / 8 + q * 8) == r.bitStart + 64 * q && 64 * q + 64 <= r.Slots()
  {
    var k := r.bitStart / 64;
    assert r.bitStart == 8 * (8 * k) && r.bitStart / 8 == 8 * k;
  }

  lemma WordsAreBytes(a: nat, q: nat)
    requires a % 64 == 0
    ensures (a + 64 * q) % 8 == 0
  {
    var k := 8 * (a / 64) + 8 * q;
    assert a + 64 * q == 8 * k;
    WholeBytes(k);
  }

  lemma WholeBytes(k: nat)
    ensures 8 * k % 8 == 0
  {
  }

  lemma SlotsAreBytes(m: Mem)
    requires Layout(m)
    ensures |m.bits| % 8 == 0
  {
    if |m.regions| > 0 {
      var r := m.regions[|m.regions| - 1];
      assert OkAt(m, |m.regions| - 1);
      WordsAreBytes(r.bitStart, r.qwords);
    }
  }
}
