/** What `zero_mem_map` makes of a registered map, and when that is a sound one. */
module FreshMaps {
  import opened Runs
  import opened Frames

  ghost function Cleared(m: Mem): (m': Mem)
    requires Layout(m)
    ensures Layout(m') && m'.regions == m.regions && forall i :: PadFreeAt(m', i)
  {
    ClearedLayout(m, seq(|m.bits|, _ => false));
    Mem(m.regions, seq(|m.bits|, _ => false))
  }

  lemma PadEnds(m: Mem, i: nat)
    requires Layout(m) && i < |m.regions|
    ensures m.regions[i].lenBytes <= m.regions[i].Slots() * PAGE
  {
    assert OkAt(m, i);
  }

  /** The addresses that are passed for region i's padding. */
  ghost function PadWrite(m: Mem, i: nat): (m': Mem)
    requires Layout(m) && i < |m.regions|
    ensures Layout(m') && SameShape(m.regions, m'.regions)
  {
    PadEnds(m, i);
    var r := m.regions[i];
    WriteRangeLayout(m, r.bitStart + r.lenBytes, r.bitStart + r.Slots() * PAGE, true);
    WriteRangeShape(m, r.bitStart + r.lenBytes, r.bitStart + r.Slots() * PAGE, true);
    WriteRange(m, r.bitStart + r.lenBytes, r.bitStart + r.Slots() * PAGE, true).0
  }

  /** One turn: the write for region i, then the region's counter as it was. */
  ghost function ZeroStep(m: Mem, i: nat): (m': Mem)
    requires Layout(m) && i < |m.regions|
    ensures Layout(m') && SameShape(m.regions, m'.regions)
  {
    RestoreLayout(m, i);
    var w := PadWrite(m, i);
    Mem(w.regions[i := w.regions[i].(freeFrames := m.regions[i].freeFrames)], w.bits)
  }

  /** The first i turns. */
  ghost function ZeroSteps(m: Mem, i: nat): (m': Mem)
    requires Layout(m) && i <= |m.regions|
    ensures Layout(m') && SameShape(m.regions, m'.regions)
    decreases i
  {
    SameShapeRefl(m.regions);
    if i == 0 then m
    else
      SameShapeTrans(m.regions, ZeroSteps(m, i - 1).regions, ZeroStep(ZeroSteps(m, i - 1), i - 1).regions);
      ZeroStep(ZeroSteps(m, i - 1), i - 1)
  }

  ghost function ZeroSpec(m: Mem): (m': Mem)
    requires Layout(m)
    ensures Layout(m') && SameShape(m.regions, m'.regions)
  {
    ZeroSteps(Cleared(m), |m.regions|)
  }

  lemma RestoreLayout(m: Mem, i: nat)
    requires Layout(m) && i < |m.regions|
    ensures var w := PadWrite(m, i); var rs := w.regions[i := w.regions[i].(freeFrames := m.regions[i].freeFrames)];
            Layout(Mem(rs, w.bits)) && SameShape(m.regions, rs)
  {
    var w := PadWrite(m, i);
    assert OkAt(m, i);
    CounterLayout(w, i, m.regions[i].freeFrames);
    SameShapeTrans(m.regions, w.regions, w.regions[i := w.regions[i].(freeFrames := m.regions[i].freeFrames)]);
  }

  /** A counter may be set to any 64-bit value. */
  lemma CounterLayout(m: Mem, i: nat, count: nat)
    requires Layout(m) && i < |m.regions| && count < WORD64
    ensures var m' := Mem(m.regions[i := m.regions[i].(freeFrames := count)], m.bits);
            && Layout(m') && SameShape(m.regions, m'.regions)
            && forall j: nat | j < |m.regions| :: Row(m', j) == Row(m, j)
  {
    var m' := Mem(m.regions[i := m.regions[i].(freeFrames := count)], m.bits);
    forall j
      ensures OkAt(m', j) && FitsAt(m', j) && TightAt(m', j) && ShapeAt(m.regions, m'.regions, j)
    {
      assert OkAt(m, j) && FitsAt(m, j) && TightAt(m, j);
    }
    forall j, k
      ensures OrderedAt(m', j, k)
    {
      assert OrderedAt(m, j, k);
    }
  }

  // ---------------------------------------------------------------- padding stays free

  lemma StepSparesPadding(m: Mem, i: nat)
    requires Layout(m) && i < |m.regions| && forall j :: PadFreeAt(m, j)
    ensures forall j :: PadFreeAt(ZeroStep(m, i), j)
  {
    hide Layout, Row, WriteRange;
    var r := m.regions[i];
    var w := PadWrite(m, i);
    PadEnds(m, i);
    WriteSparesPadding(m, r.bitStart + r.lenBytes, r.bitStart + r.Slots() * PAGE, true);
    RowIsOk(m, i);
    CounterLayout(w, i, r.freeFrames);
    forall j
      ensures PadFreeAt(ZeroStep(m, i), j)
    {
      assert PadFreeAt(w, j);
    }
  }

  lemma RowIsOk(m: Mem, i: nat)
    requires Layout(m) && i < |m.regions|
    ensures m.regions[i].Ok()
  {
    assert OkAt(m, i);
  }

  lemma {:induction false} StepsSparePadding(m: Mem, i: nat)
    requires Layout(m) && i <= |m.regions| && forall j :: PadFreeAt(m, j)
    ensures forall j :: PadFreeAt(ZeroSteps(m, i), j)
    decreases i
  {
    if i > 0 {
      StepsSparePadding(m, i - 1);
      StepSparesPadding(ZeroSteps(m, i - 1), i - 1);
    }
  }

  /** Whatever the regions, no padding ends marked. */
  lemma PaddingStaysFree(m: Mem)
    requires Layout(m)
    ensures forall i :: PadFreeAt(ZeroSpec(m), i)
  {
    StepsSparePadding(Cleared(m), |m.regions|);
  }

  // ---------------------------------------------------------------- when the result is sound

  predicate WholeWords(rs: seq<Region>) { forall i | 0 <= i < |rs| :: rs[i].Frames() % 64 == 0 }

  lemma SameWholeWords(rs: seq<Region>, rs': seq<Region>)
    requires SameShape(rs, rs')
    ensures WholeWords(rs) <==> WholeWords(rs')
  {
    forall i | 0 <= i < |rs|
      ensures rs[i].Frames() == rs'[i].Frames()
    {
      assert ShapeAt(rs, rs', i);
    }
  }

  /** Without padding a turn changes nothing. */
  lemma WholeStep(m: Mem, i: nat)
    requires Layout(m) && i < |m.regions| && m.regions[i].Frames() % 64 == 0
    ensures ZeroStep(m, i) == m
  {
    hide Layout;
    var r := m.regions[i];
    RowIsOk(m, i);
    NoPadding(r);
    var a := r.bitStart + r.lenBytes;
    WriteCases(m, a, a, true);
    if !Outside(m, a, a) && Holder(m.regions, a, a).Some? {
      var h := Holder(m.regions, a, a).value;
      PaintNothing(m, h, (a - m.regions[h].startAddr) / PAGE, true);
    }
  }

  lemma NoPadding(r: Region)
    requires r.Ok() && r.Frames() % 64 == 0
    ensures r.Slots() == r.Frames() && r.Slots() * PAGE == r.lenBytes
  {
  }

  lemma {:induction false} WholeSteps(m: Mem, i: nat)
    requires Layout(m) && i <= |m.regions| && WholeWords(m.regions)
    ensures ZeroSteps(m, i) == m
    decreases i
  {
    if i > 0 {
      WholeSteps(m, i - 1);
      WholeStep(m, i - 1);
    }
  }

  lemma ClearedCount(m: Mem, i: nat)
    requires Layout(m) && i < |m.regions| && m.regions[i].Frames() % 64 == 0
    ensures PaddedAt(Cleared(m), i) && (CountedAt(Cleared(m), i) <==> m.regions[i].freeFrames == m.regions[i].Frames())
  {
    RowIsOk(m, i);
    NoPadding(m.regions[i]);
    var row := Row(Cleared(m), i);
    RowBounds(Cleared(m), i);
    forall k | 0 <= k < |row|
      ensures !row[k]
    {
      assert row[k] == Cleared(m).bits[m.regions[i].bitStart + k];
    }
    CountUniform(row, false);
  }

  /** The call leaves a sound map, padding marked and counters right, exactly when there is no
      padding and every counter was its region's size, as registering sets it. */
  lemma ZeroSoundIff(m: Mem)
    requires Layout(m)
    ensures Wf(ZeroSpec(m)) <==>
            forall i | 0 <= i < |m.regions| ::
              m.regions[i].Frames() % 64 == 0 && m.regions[i].freeFrames == m.regions[i].Frames()
  {
    hide Layout, Row, ZeroSteps, PaddedAt, CountedAt, PadFreeAt;
    PaddingStaysFree(m);
    PaddedIffWholeWords(ZeroSpec(m));
    SameWholeWords(m.regions, ZeroSpec(m).regions);
    if WholeWords(m.regions) {
      WholeSteps(Cleared(m), |m.regions|);
      forall i: nat | i < |m.regions|
        ensures PaddedAt(Cleared(m), i)
        ensures CountedAt(Cleared(m), i) <==> m.regions[i].freeFrames == m.regions[i].Frames()
      {
        ClearedCount(m, i);
      }
      OnlyRegionsCount(Cleared(m));
    }
  }

  lemma OnlyRegionsCount(m: Mem)
    requires Layout(m)
    ensures Wf(m) <==> forall i: nat | i < |m.regions| :: PaddedAt(m, i) && CountedAt(m, i)
  {
    if forall i: nat | i < |m.regions| :: PaddedAt(m, i) && CountedAt(m, i) {
      forall i
        ensures PaddedAt(m, i) && CountedAt(m, i)
      {
        if 0 <= i < |m.regions| {
          var k: nat := i;
          assert PaddedAt(m, k) && CountedAt(m, k);
        }
      }
    }
  }

  // ---------------------------------------------------------------- which frames end marked

  /** Region i's write covers frame s of region j: the addresses from its first bit number plus its
      length to its first bit number plus 4096 for each of its places lie in region j, around s. */
  predicate MarksFrame(rs: seq<Region>, i: nat, j: nat, s: nat) {
    i < |rs| && j < |rs| &&
    var lo, hi := rs[i].bitStart + rs[i].lenBytes, rs[i].bitStart + 4096 * (64 * rs[i].qwords);
    && rs[j].startAddr <= lo <= hi <= rs[j].startAddr + rs[j].lenBytes
    && (lo - rs[j].startAddr) / 4096 <= s < (lo - rs[j].startAddr) / 4096 + (hi - lo) / 4096
  }

  /** The write of one of the first n regions covers the frame. */
  ghost predicate MarkedBelow(rs: seq<Region>, n: nat, j: nat, s: nat) {
    exists i: nat :: i < n && MarksFrame(rs, i, j, s)
  }

  lemma NoneBelow(rs: seq<Region>, n: nat, j: nat, s: nat)
    ensures !MarkedBelow(rs, 0, j, s)
    ensures n > 0 ==> (MarkedBelow(rs, n, j, s) <==> MarkedBelow(rs, n - 1, j, s) || MarksFrame(rs, n - 1, j, s))
  {
  }

  lemma SameMarks(rs: seq<Region>, rs': seq<Region>, i: nat, j: nat, s: nat)
    requires SameShape(rs, rs')
    ensures MarksFrame(rs, i, j, s) <==> MarksFrame(rs', i, j, s)
  {
    if i < |rs| && j < |rs| {
      assert ShapeAt(rs, rs', i) && ShapeAt(rs, rs', j);
    }
  }

  /** One turn marks in region j exactly the frames its write covers. */
  lemma StepMarks(m: Mem, i: nat, j: nat, s: nat)
    requires Layout(m) && i < |m.regions| && j < |m.regions| && s < |Row(m, j)|
    ensures s < |Row(ZeroStep(m, i), j)|
    ensures Row(ZeroStep(m, i), j)[s] <==> Row(m, j)[s] || MarksFrame(m.regions, i, j, s)
  {
    hide Layout, Row, WriteRange, Paint;
    var r := m.regions[i];
    var lo, hi := r.bitStart + r.lenBytes, r.bitStart + r.Slots() * PAGE;
    PadEnds(m, i);
    RowIsOk(m, i);
    WriteCases(m, lo, hi, true);
    WriteMarks(m, lo, hi, j, s);
    CounterLayout(PadWrite(m, i), i, r.freeFrames);
    assert r.Slots() * PAGE == 4096 * (64 * r.qwords);
  }

  /** A range write marks in region j exactly the range's frames, if region j holds the range. */
  lemma WriteMarks(m: Mem, lo: nat, hi: nat, j: nat, s: nat)
    requires Layout(m) && |m.regions| > 0 && j < |m.regions| && lo <= hi && s < |Row(m, j)|
    ensures var m' := WriteRange(m, lo, hi, true).0; var r := m.regions[j];
            && Layout(m') && j < |m'.regions| && s < |Row(m', j)|
            && (Row(m', j)[s] <==>
                || Row(m, j)[s]
                || (r.startAddr <= lo && hi <= r.startAddr + r.lenBytes
                    && (lo - r.startAddr) / 4096 <= s < (lo - r.startAddr) / 4096 + (hi - lo) / 4096))
  {
    hide Layout, WriteRange, Row, Outside;
    WriteCases(m, lo, hi, true);
    if m.regions[j].Holds(lo, hi) {
      InsideMap(m, j, lo, hi);
      if lo < hi {
        HolderIs(m, j, lo, hi);
      }
    }
    if !Outside(m, lo, hi) && Holder(m.regions, lo, hi).Some? {
      var h := Holder(m.regions, lo, hi).value;
      PaintRow(m, h, (lo - m.regions[h].startAddr) / PAGE, (hi - lo) / PAGE, true, j);
    }
  }

  lemma {:induction false} StepsMark(m: Mem, n: nat, j: nat, s: nat)
    requires Layout(m) && n <= |m.regions| && j < |m.regions| && s < |Row(m, j)|
    ensures s < |Row(ZeroSteps(m, n), j)|
    ensures Row(ZeroSteps(m, n), j)[s] <==> Row(m, j)[s] || MarkedBelow(m.regions, n, j, s)
    decreases n
  {
    hide Layout, Row, ZeroStep, MarksFrame, MarkedBelow;
    NoneBelow(m.regions, n, j, s);
    if n > 0 {
      StepsMark(m, n - 1, j, s);
      StepMarks(ZeroSteps(m, n - 1), n - 1, j, s);
      SameMarks(m.regions, ZeroSteps(m, n - 1).regions, n - 1, j, s);
    }
  }

  /** The frames the call ends up marking: those that some region's mis-addressed write covers. */
  lemma MarkedIff(m: Mem, j: nat, s: nat)
    requires Layout(m) && j < |m.regions| && s < |Row(m, j)|
    ensures s < |Row(ZeroSpec(m), j)|
    ensures Row(ZeroSpec(m), j)[s] <==> MarkedBelow(m.regions, |m.regions|, j, s)
  {
    RowBounds(Cleared(m), j);
    assert !Row(Cleared(m), j)[s];
    StepsMark(Cleared(m), |m.regions|, j, s);
  }

  // ---------------------------------------------------------------- which counters are left

  /** Frames of region j that region i's write marks. */
  function MarksIn(rs: seq<Region>, i: nat, j: nat): nat {
    if i < |rs| && j < |rs| then
      var lo, hi := rs[i].bitStart + rs[i].lenBytes, rs[i].bitStart + 4096 * (64 * rs[i].qwords);
      if rs[j].startAddr <= lo <= hi <= rs[j].startAddr + rs[j].lenBytes then (hi - lo) / 4096 else 0
    else 0
  }

  /** Frames of region j that the first n regions' writes mark, its own not counted. */
  function MarksByOthers(rs: seq<Region>, n: nat, j: nat): nat {
    if n == 0 then 0 else MarksByOthers(rs, n - 1, j) + if n - 1 == j then 0 else MarksIn(rs, n - 1, j)
  }

  lemma WriteCounts(m: Mem, lo: nat, hi: nat, j: nat)
    requires Layout(m) && |m.regions| > 0 && j < |m.regions| && lo <= hi
    ensures var m' := WriteRange(m, lo, hi, true).0; var r := m.regions[j];
            && |m'.regions| == |m.regions|
            && m'.regions[j].freeFrames ==
               if r.startAddr <= lo && hi <= r.startAddr + r.lenBytes then Sub64(r.freeFrames, (hi - lo) / 4096)
               else r.freeFrames
  {
    hide Layout, WriteRange, Row, Outside, Sub64;
    WriteCases(m, lo, hi, true);
    NothingTaken(m, j);
    if m.regions[j].Holds(lo, hi) {
      InsideMap(m, j, lo, hi);
      if lo < hi {
        HolderIs(m, j, lo, hi);
      }
    }
    if lo == hi && Holder(m.regions, lo, hi).Some? {
      NothingTaken(m, Holder(m.regions, lo, hi).value);
    }
  }

  lemma NothingTaken(m: Mem, j: nat)
    requires Layout(m) && j < |m.regions|
    ensures Sub64(m.regions[j].freeFrames, 0) == m.regions[j].freeFrames
  {
    RowIsOk(m, j);
  }

  /** One turn lowers region j's counter by the frames marked there, unless the turn is its own. */
  lemma StepCounts(m: Mem, i: nat, j: nat)
    requires Layout(m) && i < |m.regions| && j < |m.regions|
    ensures |ZeroStep(m, i).regions| == |m.regions|
    ensures ZeroStep(m, i).regions[j].freeFrames ==
            if i == j then m.regions[j].freeFrames else Sub64(m.regions[j].freeFrames, MarksIn(m.regions, i, j))
  {
    hide Layout, Row, WriteRange, Sub64;
    var r := m.regions[i];
    PadEnds(m, i);
    NothingTaken(m, j);
    WriteCounts(m, r.bitStart + r.lenBytes, r.bitStart + r.Slots() * PAGE, j);
    assert r.Slots() * PAGE == 4096 * (64 * r.qwords);
  }

  lemma SameCounts(rs: seq<Region>, rs': seq<Region>, i: nat, j: nat)
    requires SameShape(rs, rs')
    ensures MarksIn(rs, i, j) == MarksIn(rs', i, j)
  {
    if i < |rs| && j < |rs| {
      assert ShapeAt(rs, rs', i) && ShapeAt(rs, rs', j);
    }
  }

  lemma Sub64Twice(x: nat, a: nat, b: nat)
    ensures Sub64(Sub64(x, a), b) == Sub64(x, a + b)
  {
    var q := (x - a) / WORD64;
    assert x - a == WORD64 * q + Sub64(x, a);
    assert x - a - b == WORD64 * q + (Sub64(x, a) - b);
    WholeTurns(q, Sub64(x, a) - b);
  }

  lemma WholeTurns(q: int, y: int)
    ensures (WORD64 * q + y) % WORD64 == y % WORD64
  {
  }

  lemma {:induction false} StepsCount(m: Mem, n: nat, j: nat)
    requires Layout(m) && n <= |m.regions| && j < |m.regions|
    ensures ZeroSteps(m, n).regions[j].freeFrames == Sub64(m.regions[j].freeFrames, MarksByOthers(m.regions, n, j))
    decreases n
  {
    hide Layout, Sub64, ZeroStep, MarksIn;
    if n == 0 {
      NothingTaken(m, j);
    } else {
      StepsCount(m, n - 1, j);
      StepCounts(ZeroSteps(m, n - 1), n - 1, j);
      SameCounts(m.regions, ZeroSteps(m, n - 1).regions, n - 1, j);
      Sub64Twice(m.regions[j].freeFrames, MarksByOthers(m.regions, n - 1, j), MarksIn(m.regions, n - 1, j));
    }
  }

  /** The counters left: each is lowered by the frames that other regions' writes mark in its region;
      those its own region's write marks there are not counted, since the counter is put back. */
  lemma CounterLeft(m: Mem, j: nat)
    requires Layout(m) && j < |m.regions|
    ensures ZeroSpec(m).regions[j].freeFrames ==
            (m.regions[j].freeFrames - MarksByOthers(m.regions, |m.regions|, j)) % 0x1_0000_0000_0000_0000
  {
    StepsCount(Cleared(m), |m.regions|, j);
  }
}
