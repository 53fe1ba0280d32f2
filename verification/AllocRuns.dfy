/** Whole runs of the frame allocator: any sequence of allocations and frees of live blocks. */
module AllocRuns {
  import opened Runs
  import opened Frames
  import opened Alloc

  /** A block handed out: where the allocator found it, and the address the caller was given. */
  datatype Block = Block(region: nat, place: nat, count: nat, addr: nat) {
    predicate Covers(i: nat, s: nat) { region == i && place <= s < place + count }

    function End(): nat { addr + count * PAGE }
  }

  datatype State = State(mem: Mem, live: seq<Block>)

  datatype Op = Take(count: nat) | Give(index: nat)

  ghost function Step(st: State, op: Op): State
    requires Layout(st.mem)
  {
    match op
    case Take(n) =>
      (match Search(st.mem, n)
       case None => st
       case Some(p) =>
         var (m, a) := AllocSpec(st.mem, n);
         State(m, st.live + [Block(p.region, p.place, n, a)]))
    case Give(j) =>
      if j < |st.live| && |st.mem.regions| > 0 then
        var b := st.live[j];
        State(FreeSpec(st.mem, b.addr, b.count * PAGE).0, st.live[..j] + st.live[j + 1..])
      else st
  }

  lemma StepLayout(st: State, op: Op)
    requires Layout(st.mem)
    ensures Layout(Step(st, op).mem)
  {
    hide Layout, WriteRange, PlaceAddr, Search;
    match op
    case Take(n) =>
      if Search(st.mem, n).Some? {
        var p := Search(st.mem, n).value;
        var a := PlaceAddr(st.mem.regions[p.region], p.place);
        WriteRangeLayout(st.mem, a, a + n * PAGE, true);
      }
    case Give(j) =>
      if j < |st.live| && |st.mem.regions| > 0 {
        WriteRangeLayout(st.mem, st.live[j].addr, st.live[j].addr + st.live[j].count * PAGE, false);
      }
  }

  /** The state after a sequence of operations, from a map with no blocks handed out. */
  ghost function Run(base: Mem, ops: seq<Op>): (st: State)
    requires Layout(base)
    ensures Layout(st.mem)
    decreases |ops|
  {
    if |ops| == 0 then State(base, [])
    else
      var st := Run(base, ops[..|ops| - 1]);
      StepLayout(st, ops[|ops| - 1]);
      Step(st, ops[|ops| - 1])
  }

  // ---------------------------------------------------------------- totals

  function TotalFree(rs: seq<Region>): nat {
    if |rs| == 0 then 0 else rs[0].freeFrames + TotalFree(rs[1..])
  }

  function LiveFrames(live: seq<Block>): nat {
    if |live| == 0 then 0 else live[0].count + LiveFrames(live[1..])
  }

  lemma {:induction false} TotalAfter(rs: seq<Region>, i: nat, r: Region)
    requires i < |rs|
    ensures TotalFree(rs[i := r]) == TotalFree(rs) - rs[i].freeFrames + r.freeFrames
  {
    if i == 0 {
      assert rs[i := r][1..] == rs[1..];
    } else {
      assert rs[i := r][1..] == rs[1..][i - 1 := r];
      TotalAfter(rs[1..], i - 1, r);
    }
  }

  lemma {:induction false} LiveConcat(a: seq<Block>, b: seq<Block>)
    ensures LiveFrames(a + b) == LiveFrames(a) + LiveFrames(b)
  {
    if |a| == 0 {
      assert a + b == b;
    } else {
      assert (a + b)[1..] == a[1..] + b;
      LiveConcat(a[1..], b);
    }
  }

  // ---------------------------------------------------------------- the invariant

  /** Block j lies in one region, its address is its place, its frames are marked, and they
      were free to begin with. */
  ghost predicate BlockAt(base: Mem, st: State, j: int)
    requires Layout(base) && Layout(st.mem) && SameShape(base.regions, st.mem.regions)
  {
    0 <= j < |st.live| ==>
      var b := st.live[j];
      && b.region < |base.regions| && b.place + b.count <= base.regions[b.region].Frames()
      && b.addr == base.regions[b.region].startAddr + b.place * PAGE
      && forall s | b.place <= s < b.place + b.count :: InRow(base, st.mem, b.region, s)
  }

  ghost predicate InRow(base: Mem, m: Mem, i: nat, s: nat)
    requires Layout(base) && Layout(m) && SameShape(base.regions, m.regions) && i < |base.regions|
  {
    s < |Row(base, i)| && s < |Row(m, i)| && Row(m, i)[s] && !Row(base, i)[s]
  }

  ghost predicate Apart(st: State, j: int, k: int) {
    0 <= j < k < |st.live| ==>
      forall i: nat, s: nat :: !(st.live[j].Covers(i, s) && st.live[k].Covers(i, s))
  }

  /** A place is marked exactly when it was marked from the start or a live block covers it. */
  ghost predicate MarkedAt(base: Mem, st: State, i: int, s: nat)
    requires Layout(base) && Layout(st.mem)
  {
    0 <= i < |base.regions| && i < |st.mem.regions| && s < |Row(base, i)| && s < |Row(st.mem, i)| ==>
      (Row(st.mem, i)[s] <==> Row(base, i)[s] || CoveredBy(st.live, i, s))
  }

  ghost predicate CoveredBy(live: seq<Block>, i: nat, s: nat) {
    exists b :: b in live && b.Covers(i, s)
  }

  ghost predicate Inv(base: Mem, st: State) {
    && Layout(base) && Wf(st.mem) && SameShape(base.regions, st.mem.regions)
    && (forall j :: BlockAt(base, st, j))
    && (forall j, k :: Apart(st, j, k))
    && (forall i, s :: MarkedAt(base, st, i, s))
    && TotalFree(st.mem.regions) + LiveFrames(st.live) == TotalFree(base.regions)
  }

  // ---------------------------------------------------------------- one step keeps it

  lemma RowLengths(base: Mem, m: Mem, i: nat)
    requires Layout(base) && Layout(m) && SameShape(base.regions, m.regions) && i < |m.regions|
    ensures |Row(m, i)| == |Row(base, i)| == base.regions[i].Slots()
    ensures m.regions[i].Frames() == base.regions[i].Frames() <= base.regions[i].Slots()
    ensures m.regions[i].startAddr == base.regions[i].startAddr
  {
    assert ShapeAt(base.regions, m.regions, i) && OkAt(base, i);
  }

  /** What a step that paints one block's frames leaves to show. */
  lemma PaintTotals(m: Mem, i: nat, s: nat, n: nat, v: bool)
    requires Wf(m) && i < |m.regions| && s + n <= m.regions[i].Frames() <= m.regions[i].Slots()
    requires forall k | s <= k < s + n :: Row(m, i)[k] == !v
    ensures TotalFree(Paint(m, i, s, n, v).regions) ==
            if v then TotalFree(m.regions) - n else TotalFree(m.regions) + n
  {
    var m' := Paint(m, i, s, n, v);
    assert CountedAt(m, i);
    PaintedRowWf(m, i, s, n, v);
    CountFill(Row(m, i), s, n, v);
    TotalAfter(m.regions, i, m'.regions[i]);
  }

  lemma TakeKeeps(base: Mem, st: State, n: nat)
    requires Inv(base, st) && Small(base)
    ensures Layout(Step(st, Take(n)).mem) && Inv(base, Step(st, Take(n)))
  {
    hide Paint, WriteRange, Row, BlockAt, MarkedAt, Apart;
    SearchIsFirstFit(st.mem, n, 0);
    match FirstFit(st.mem, n)
    case None =>
    case Some(p) =>
      var m, i, s := st.mem, p.region, p.place;
      RunInFrames(m, i, s, n);
      RowLengths(base, m, i);
      AllocExact(m, n, p);
      PaintShape(base.regions, m, i, s, n, true);
      PaintTotals(m, i, s, n, true);
      var b := Block(i, s, n, m.regions[i].startAddr + s * PAGE);
      LiveConcat(st.live, [b]);
      assert Step(st, Take(n)) == State(Paint(m, i, s, n, true), st.live + [b]);
      TakeBlocks(base, st, b);
      TakeMarks(base, st, b);
  }

  /** `b` is a run of free frames of its region. */
  ghost predicate Fresh(base: Mem, st: State, b: Block)
    requires Layout(st.mem)
  {
    && b.region < |st.mem.regions| && RunAt(Row(st.mem, b.region), b.place, b.count)
    && b.place + b.count <= st.mem.regions[b.region].Frames()
    && b.addr == st.mem.regions[b.region].startAddr + b.place * PAGE
  }

  lemma TakeBlocks(base: Mem, st: State, b: Block)
    requires Inv(base, st) && Fresh(base, st, b)
    ensures var st' := State(Paint(st.mem, b.region, b.place, b.count, true), st.live + [b]);
            && Layout(st'.mem) && SameShape(base.regions, st'.mem.regions)
            && (forall j :: BlockAt(base, st', j)) && (forall j, k :: Apart(st', j, k))
  {
    var m' := Paint(st.mem, b.region, b.place, b.count, true);
    var st' := State(m', st.live + [b]);
    PaintLayout(st.mem, b.region, b.place, b.count, true);
    PaintShape(base.regions, st.mem, b.region, b.place, b.count, true);
    RowLengths(base, st.mem, b.region);
    forall j
      ensures BlockAt(base, st', j)
    {
      assert BlockAt(base, st, j);
      if 0 <= j < |st'.live| {
        var c := st'.live[j];
        PaintRow(st.mem, b.region, b.place, b.count, true, c.region);
        RowLengths(base, m', c.region);
        forall s | c.place <= s < c.place + c.count
          ensures InRow(base, m', c.region, s)
        {
          assert j < |st.live| ==> InRow(base, st.mem, c.region, s);
          assert MarkedAt(base, st, c.region, s);
        }
      }
    }
    forall j, k
      ensures Apart(st', j, k)
    {
      assert Apart(st, j, k) && BlockAt(base, st, j);
      if 0 <= j < k == |st.live| {
        var c := st.live[j];
        forall i: nat, s: nat
          ensures !(c.Covers(i, s) && b.Covers(i, s))
        {
          assert c.Covers(i, s) ==> InRow(base, st.mem, i, s);
        }
      }
    }
  }

  lemma TakeMarks(base: Mem, st: State, b: Block)
    requires Inv(base, st) && Fresh(base, st, b)
    ensures Layout(Paint(st.mem, b.region, b.place, b.count, true))
    ensures var st' := State(Paint(st.mem, b.region, b.place, b.count, true), st.live + [b]);
            forall i, s :: MarkedAt(base, st', i, s)
  {
    var st' := State(Paint(st.mem, b.region, b.place, b.count, true), st.live + [b]);
    PaintLayout(st.mem, b.region, b.place, b.count, true);
    RowLengths(base, st.mem, b.region);
    forall i, s: nat
      ensures MarkedAt(base, st', i, s)
    {
      assert MarkedAt(base, st, i, s);
      if 0 <= i < |st.mem.regions| {
        PaintRow(st.mem, b.region, b.place, b.count, true, i);
        RowLengths(base, st.mem, i);
        CoverMore(st.live, b, i, s);
      }
    }
  }

  lemma CoverMore(live: seq<Block>, b: Block, i: nat, s: nat)
    ensures CoveredBy(live + [b], i, s) <==> CoveredBy(live, i, s) || b.Covers(i, s)
  {
    if CoveredBy(live, i, s) {
      var c :| c in live && c.Covers(i, s);
      assert c in live + [b];
    }
    if b.Covers(i, s) {
      assert b in live + [b];
    }
  }

  /** Giving block j back clears exactly its frames. */
  lemma GivePaints(base: Mem, st: State, j: nat)
    requires Inv(base, st) && j < |st.live| && |st.mem.regions| > 0
    ensures var b := st.live[j];
            && b.region < |st.mem.regions|
            && b.place + b.count <= st.mem.regions[b.region].Frames() <= st.mem.regions[b.region].Slots()
            && (forall s | b.place <= s < b.place + b.count :: Row(st.mem, b.region)[s])
            && Step(st, Give(j)) == State(Paint(st.mem, b.region, b.place, b.count, false),
                                          st.live[..j] + st.live[j + 1..])
  {
    var m, b := st.mem, st.live[j];
    assert BlockAt(base, st, j);
    RowLengths(base, m, b.region);
    forall s | b.place <= s < b.place + b.count
      ensures Row(m, b.region)[s]
    {
      assert InRow(base, m, b.region, s);
    }
    FreePaints(m, b.region, b.place, b.count);
  }

  lemma GiveKeeps(base: Mem, st: State, j: nat)
    requires Inv(base, st)
    ensures Layout(Step(st, Give(j)).mem) && Inv(base, Step(st, Give(j)))
  {
    if j < |st.live| && |st.mem.regions| > 0 {
      var b := st.live[j];
      GivePaints(base, st, j);
      PaintWf(st.mem, b.region, b.place, b.count, false);
      PaintTotals(st.mem, b.region, b.place, b.count, false);
      LiveWithout(st.live, j);
      GiveBlocks(base, st, j);
      GiveMarks(base, st, j);
    }
  }

  lemma LiveWithout(live: seq<Block>, j: nat)
    requires j < |live|
    ensures LiveFrames(live[..j] + live[j + 1..]) == LiveFrames(live) - live[j].count
  {
    LiveConcat(live[..j], live[j + 1..]);
    LiveConcat(live[..j], [live[j]]);
    LiveConcat(live[..j] + [live[j]], live[j + 1..]);
    assert live[..j] + [live[j]] + live[j + 1..] == live;
  }

  /** Block k of the shortened list is this block of the full one. */
  function Back(j: nat, k: int): int { if k < j then k else k + 1 }

  lemma GiveBlocks(base: Mem, st: State, j: nat)
    requires Inv(base, st) && j < |st.live|
    requires st.live[j].region < |st.mem.regions|
    requires st.live[j].place + st.live[j].count <= st.mem.regions[st.live[j].region].Slots()
    ensures var b := st.live[j];
            var st' := State(Paint(st.mem, b.region, b.place, b.count, false), st.live[..j] + st.live[j + 1..]);
            && Layout(st'.mem) && SameShape(base.regions, st'.mem.regions)
            && (forall k :: BlockAt(base, st', k)) && (forall k, l :: Apart(st', k, l))
  {
    hide Paint, MarkedAt, Layout, Row;
    var b := st.live[j];
    var m' := Paint(st.mem, b.region, b.place, b.count, false);
    var st' := State(m', st.live[..j] + st.live[j + 1..]);
    PaintLayout(st.mem, b.region, b.place, b.count, false);
    PaintShape(base.regions, st.mem, b.region, b.place, b.count, false);
    forall k
      ensures BlockAt(base, st', k)
    {
      var k0 := Back(j, k);
      assert BlockAt(base, st, k0) && Apart(st, k0, j) && Apart(st, j, k0);
      if 0 <= k < |st'.live| {
        assert st'.live[k] == st.live[k0];
        GiveKeepsBlock(base, st, b, st.live[k0]);
      }
    }
    forall k, l
      ensures Apart(st', k, l)
    {
      assert Apart(st, Back(j, k), Back(j, l));
    }
  }

  /** Block c's frames stay marked when block b, which has none of them, is given back. */
  lemma GiveKeepsBlock(base: Mem, st: State, b: Block, c: Block)
    requires Layout(base) && Layout(st.mem) && SameShape(base.regions, st.mem.regions)
    requires b.region < |st.mem.regions| && b.place + b.count <= st.mem.regions[b.region].Slots()
    requires c.region < |base.regions| && forall i: nat, s: nat :: !(b.Covers(i, s) && c.Covers(i, s))
    requires forall s | c.place <= s < c.place + c.count :: InRow(base, st.mem, c.region, s)
    ensures var m' := Paint(st.mem, b.region, b.place, b.count, false);
            && Layout(m') && SameShape(base.regions, m'.regions)
            && forall s | c.place <= s < c.place + c.count :: InRow(base, m', c.region, s)
  {
    hide Paint, Layout;
    var m' := Paint(st.mem, b.region, b.place, b.count, false);
    PaintRow(st.mem, b.region, b.place, b.count, false, c.region);
    PaintShape(base.regions, st.mem, b.region, b.place, b.count, false);
    forall s | c.place <= s < c.place + c.count
      ensures InRow(base, m', c.region, s)
    {
      assert InRow(base, st.mem, c.region, s);
      assert c.Covers(c.region, s);
    }
  }

  lemma GiveMarks(base: Mem, st: State, j: nat)
    requires Inv(base, st) && j < |st.live|
    requires st.live[j].region < |st.mem.regions|
    requires st.live[j].place + st.live[j].count <= st.mem.regions[st.live[j].region].Slots()
    ensures var b := st.live[j]; Layout(Paint(st.mem, b.region, b.place, b.count, false))
    ensures var b := st.live[j];
            var st' := State(Paint(st.mem, b.region, b.place, b.count, false), st.live[..j] + st.live[j + 1..]);
            forall i, s :: MarkedAt(base, st', i, s)
  {
    var b := st.live[j];
    var st' := State(Paint(st.mem, b.region, b.place, b.count, false), st.live[..j] + st.live[j + 1..]);
    PaintLayout(st.mem, b.region, b.place, b.count, false);
    assert BlockAt(base, st, j);
    forall i, s: nat
      ensures MarkedAt(base, st', i, s)
    {
      assert MarkedAt(base, st, i, s);
      if 0 <= i < |st.mem.regions| {
        PaintRow(st.mem, b.region, b.place, b.count, false, i);
        CoverLess(st, j, i, s);
        assert b.Covers(i, s) ==> InRow(base, st.mem, i, s);
      }
    }
  }

  lemma CoverLess(st: State, j: nat, i: nat, s: nat)
    requires j < |st.live| && forall k, l :: Apart(st, k, l)
    ensures CoveredBy(st.live[..j] + st.live[j + 1..], i, s) <==>
            CoveredBy(st.live, i, s) && !st.live[j].Covers(i, s)
  {
    var rest := st.live[..j] + st.live[j + 1..];
    if CoveredBy(rest, i, s) {
      var k :| 0 <= k < |rest| && rest[k].Covers(i, s);
      assert rest[k] == st.live[Back(j, k)] && rest[k] in st.live;
      assert Apart(st, Back(j, k), j) && Apart(st, j, Back(j, k));
    }
    if CoveredBy(st.live, i, s) && !st.live[j].Covers(i, s) {
      var k :| 0 <= k < |st.live| && st.live[k].Covers(i, s);
      assert st.live[k] == rest[if k < j then k else k - 1];
    }
  }

  // ---------------------------------------------------------------- whole runs

  lemma StartInv(base: Mem)
    requires Wf(base)
    ensures Inv(base, State(base, []))
  {
  }

  lemma {:induction false} RunInv(base: Mem, ops: seq<Op>)
    requires Wf(base) && Small(base)
    ensures Inv(base, Run(base, ops))
    decreases |ops|
  {
    StartInv(base);
    if |ops| > 0 {
      RunInv(base, ops[..|ops| - 1]);
      match ops[|ops| - 1]
      case Take(n) => TakeKeeps(base, Run(base, ops[..|ops| - 1]), n);
      case Give(j) => GiveKeeps(base, Run(base, ops[..|ops| - 1]), j);
    }
  }

  /** Any run: live blocks lie inside one region each and do not overlap in memory. */
  lemma LiveBlocksDisjoint(base: Mem, ops: seq<Op>, j: nat, k: nat)
    requires Wf(base) && Small(base)
    requires var live := Run(base, ops).live; j < |live| && k < |live| && j != k
    requires var live := Run(base, ops).live; live[j].count > 0 && live[k].count > 0
    ensures var live := Run(base, ops).live;
            && live[j].region < |base.regions| && base.regions[live[j].region].Holds(live[j].addr, live[j].End())
            && (live[j].End() <= live[k].addr || live[k].End() <= live[j].addr)
  {
    RunInv(base, ops);
    var st := Run(base, ops);
    var b, c := st.live[j], st.live[k];
    assert BlockAt(base, st, j) && BlockAt(base, st, k);
    assert Apart(st, j, k) && Apart(st, k, j);
    InsideRegion(base.regions[b.region], b);
    InsideRegion(base.regions[c.region], c);
    assert OrderedAt(base, b.region, c.region) && OrderedAt(base, c.region, b.region);
    assert b.Covers(b.region, b.place) && c.Covers(c.region, c.place);
    assert c.Covers(b.region, b.place) || b.Covers(c.region, c.place)
      || b.region != c.region || b.place + b.count <= c.place || c.place + c.count <= b.place;
  }

  lemma InsideRegion(r: Region, b: Block)
    requires b.place + b.count <= r.Frames() && b.addr == r.startAddr + b.place * PAGE
    ensures r.Holds(b.addr, b.End())
  {
    PagesFit(r, b.place, b.count);
  }

  /** Any run: what is free plus what is handed out is what was free at the start, and every
      counter still is the number of its region's free bits. */
  lemma FramesConserved(base: Mem, ops: seq<Op>)
    requires Wf(base) && Small(base)
    ensures var st := Run(base, ops);
            Wf(st.mem) && TotalFree(st.mem.regions) + LiveFrames(st.live) == TotalFree(base.regions)
  {
    RunInv(base, ops);
  }

  lemma RegionReturned(base: Mem, st: State, i: nat)
    requires Wf(base) && Inv(base, st) && st.live == [] && i < |base.regions|
    ensures st.mem.regions[i] == base.regions[i] && Row(st.mem, i) == Row(base, i)
  {
    RowLengths(base, st.mem, i);
    forall s: nat | s < |Row(base, i)|
      ensures Row(st.mem, i)[s] == Row(base, i)[s]
    {
      assert MarkedAt(base, st, i, s);
    }
    assert Row(st.mem, i) == Row(base, i);
    assert CountedAt(base, i) && CountedAt(st.mem, i) && ShapeAt(base.regions, st.mem.regions, i);
  }

  /** With every block given back the map is the one at the start. */
  lemma NothingLive(base: Mem, st: State)
    requires Wf(base) && Inv(base, st) && st.live == []
    ensures st.mem == base
  {
    forall i: nat | i < |base.regions|
      ensures st.mem.regions[i] == base.regions[i] && Row(st.mem, i) == Row(base, i)
    {
      RegionReturned(base, st, i);
    }
    assert st.mem.regions == base.regions;
    SameRowsSameBits(st.mem, base);
  }

  /** Any run that has given every block back ends in the map it started from. */
  lemma AllReturned(base: Mem, ops: seq<Op>)
    requires Wf(base) && Small(base) && Run(base, ops).live == []
    ensures Run(base, ops).mem == base
  {
    RunInv(base, ops);
    NothingLive(base, Run(base, ops));
  }

  // ---------------------------------------------------------------- single frames

  /** One frame can be found exactly when some counter is not zero. */
  lemma SomeFree(m: Mem)
    requires Wf(m)
    ensures FirstFit(m, 1).Some? <==> TotalFree(m.regions) > 0
  {
    if FirstFit(m, 1).Some? {
      var p := FirstFit(m, 1).value;
      RunIsCounted(Row(m, p.region), p.place, 1);
      assert CountedAt(m, p.region);
      TotalAtLeast(m.regions, p.region);
    } else {
      forall i: nat | i < |m.regions|
        ensures m.regions[i].freeFrames == 0
      {
        assert CountedAt(m, i);
        NoRunNoFree(Row(m, i));
      }
      TotalZero(m.regions);
    }
  }

  lemma {:induction false} TotalAtLeast(rs: seq<Region>, i: nat)
    requires i < |rs|
    ensures TotalFree(rs) >= rs[i].freeFrames
  {
    if i > 0 {
      TotalAtLeast(rs[1..], i - 1);
    }
  }

  lemma {:induction false} TotalZero(rs: seq<Region>)
    requires forall i: nat | i < |rs| :: rs[i].freeFrames == 0
    ensures TotalFree(rs) == 0
  {
    if |rs| > 0 {
      TotalZero(rs[1..]);
    }
  }

  lemma NoRunNoFree(bits: seq<bool>)
    requires forall t: nat :: !RunAt(bits, t, 1)
    ensures CountFree(bits) == 0
  {
    forall k: nat | k < |bits|
      ensures bits[k]
    {
      assert !RunAt(bits, k, 1);
    }
    CountUniform(bits, true);
  }

  /** A single-frame call fails exactly when no frame is free, and otherwise leaves one frame less. */
  lemma OneTaken(m: Mem)
    requires Wf(m) && Small(m)
    ensures var (m', a) := AllocSpec(m, 1);
            && (a == FAILED <==> TotalFree(m.regions) == 0)
            && TotalFree(m'.regions) == if a == FAILED then 0 else TotalFree(m.regions) - 1
  {
    SearchIsFirstFit(m, 1, 0);
    SomeFree(m);
    FailsIff(m, 1);
    match FirstFit(m, 1)
    case None =>
    case Some(p) =>
      RunInFrames(m, p.region, p.place, 1);
      AllocExact(m, 1, p);
      PaintTotals(m, p.region, p.place, 1, true);
  }

  /** What one step of a run does to the blocks handed out: an allocation that can be met adds a
      block of as many frames, at the first fit, and a free removes the block named. */
  lemma StepBlocks(base: Mem, st: State, n: nat, j: nat)
    requires Wf(base) && Small(base) && Inv(base, st)
    ensures match FirstFit(st.mem, n)
            case None => Step(st, Take(n)) == st
            case Some(p) =>
              var a := st.mem.regions[p.region].startAddr + p.place * 4096;
              Step(st, Take(n)).live == st.live + [Block(p.region, p.place, n, a)]
    ensures j < |st.live| ==> Step(st, Give(j)).live == st.live[..j] + st.live[j + 1..]
  {
    SearchIsFirstFit(st.mem, n, 0);
    if FirstFit(st.mem, n).Some? {
      var p := FirstFit(st.mem, n).value;
      RunInFrames(st.mem, p.region, p.place, n);
      RowLengths(base, st.mem, p.region);
      AllocExact(st.mem, n, p);
    }
    if j < |st.live| {
      assert BlockAt(base, st, j);
      assert |st.mem.regions| > 0;
    }
  }
}
