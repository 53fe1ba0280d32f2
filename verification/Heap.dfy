/** The heap in memory: a header in front of every block, walked and rewritten in place. */
module Heaps {
  import opened Runs
  import opened HeapSpec
  import Frames

  /** What sixteen bytes of the heap say when read as a header. */
  datatype Header = Header(size: nat, taken: bool, prev: nat)

  function HeadOf(b: Block): Header { Header(16 * b.units, b.used, 16 * b.back) }

  ghost predicate HeadAt(cells: seq<Header>, bs: seq<Block>, i: int) {
    0 <= i < |bs| ==> Start(bs, i) < |cells| && cells[Start(bs, i)] == HeadOf(bs[i])
  }

  /** The memory holds these blocks; what lies between headers is the users' and says nothing. */
  ghost predicate Shows(cells: seq<Header>, bs: seq<Block>) {
    Tiles(bs, |cells|) && forall i :: HeadAt(cells, bs, i)
  }

  predicate RoomFor(cells: seq<Header>, at: nat, n: nat) {
    at < |cells| && 16 * n <= cells[at].size && (16 * n < cells[at].size ==> 0 < n && at + n < |cells|)
  }

  /** Memory after the block at unit `at` is handed out or split: the rest's header first, then the
      block's own. */
  function SplitCells(cells: seq<Header>, at: nat, n: nat): (r: seq<Header>)
    requires RoomFor(cells, at, n)
    ensures |r| == |cells|
  {
    var h := cells[at];
    if h.size == 16 * n then cells[at := h.(taken := true)]
    else cells[at + n := Header(h.size - 16 * n, false, 16 * n)][at := Header(16 * n, true, h.prev)]
  }

  lemma ExactCells(cells: seq<Header>, at: nat, n: nat)
    requires RoomFor(cells, at, n) && cells[at].size == 16 * n
    ensures SplitCells(cells, at, n) == cells[at := cells[at].(taken := true)]
  {
  }

  lemma RestCells(cells: seq<Header>, at: nat, n: nat)
    requires RoomFor(cells, at, n) && cells[at].size > 16 * n
    ensures SplitCells(cells, at, n) ==
            cells[at + n := Header(cells[at].size - 16 * n, false, 16 * n)][at := Header(16 * n, true, cells[at].prev)]
  {
  }

  lemma AtStart(bs: seq<Block>)
    ensures Start(bs, 0) == 0
  {
  }

  lemma HeadHere(cells: seq<Header>, bs: seq<Block>, i: nat)
    requires Shows(cells, bs) && i < |bs|
    ensures Start(bs, i) < |cells| && cells[Start(bs, i)] == HeadOf(bs[i]) && bs[i].units >= 1
    ensures Start(bs, i + 1) == Start(bs, i) + bs[i].units <= |cells|
  {
    assert HeadAt(cells, bs, i) && OkAt(bs, i);
    StartOrder(bs, i + 1, |bs|);
  }

  lemma RoomInside(cells: seq<Header>, bs: seq<Block>, i: nat, n: nat)
    requires Shows(cells, bs) && i < |bs| && 1 <= n <= bs[i].units
    ensures RoomFor(cells, Start(bs, i), n)
  {
    HeadHere(cells, bs, i);
  }

  lemma SplitShows(cells: seq<Header>, bs: seq<Block>, i: nat, n: nat)
    requires Shows(cells, bs) && i < |bs| && 1 <= n <= bs[i].units && !bs[i].used
    ensures RoomFor(cells, Start(bs, i), n) && Shows(SplitCells(cells, Start(bs, i), n), Split(bs, i, n))
  {
    var bs' := Split(bs, i, n);
    RoomInside(cells, bs, i, n);
    var cells' := SplitCells(cells, Start(bs, i), n);
    SplitTiles(bs, i, n, |cells|);
    forall k
      ensures HeadAt(cells', bs', k)
    {
      if 0 <= k < |bs'| {
        SplitHead(cells, bs, i, n, k);
      }
    }
  }

  lemma SplitHead(cells: seq<Header>, bs: seq<Block>, i: nat, n: nat, k: nat)
    requires Shows(cells, bs) && i < |bs| && 1 <= n <= bs[i].units && !bs[i].used
    requires RoomFor(cells, Start(bs, i), n) && k < |Split(bs, i, n)|
    ensures HeadAt(SplitCells(cells, Start(bs, i), n), Split(bs, i, n), k)
  {
    hide Start, Split;
    HeadHere(cells, bs, i);
    SplitStarts(bs, i, n, i);
    if k < i {
      SplitStarts(bs, i, n, k);
      SplitHeadKept(cells, bs, i, n, k, k);
    } else if k > i + 1 || (k > i && bs[i].units == n) {
      var k0: nat := if bs[i].units == n then k else k - 1;
      SplitAt(bs, i, n, k);
      SplitStarts(bs, i, n, k0);
      SplitHeadKept(cells, bs, i, n, k, k0);
    } else {
      SplitHeadNew(cells, bs, i, n, k);
    }
  }

  lemma SplitHeadNew(cells: seq<Header>, bs: seq<Block>, i: nat, n: nat, k: nat)
    requires Shows(cells, bs) && i < |bs| && 1 <= n <= bs[i].units && !bs[i].used
    requires RoomFor(cells, Start(bs, i), n) && k < |Split(bs, i, n)|
    requires k == i || (k == i + 1 && n < bs[i].units)
    ensures HeadAt(SplitCells(cells, Start(bs, i), n), Split(bs, i, n), k)
  {
    hide Start;
    HeadHere(cells, bs, i);
    SplitStarts(bs, i, n, i);
  }

  lemma SplitHeadKept(cells: seq<Header>, bs: seq<Block>, i: nat, n: nat, k: nat, k0: nat)
    requires Shows(cells, bs) && i < |bs| && 1 <= n <= bs[i].units && RoomFor(cells, Start(bs, i), n)
    requires k < |Split(bs, i, n)| && k0 < |bs| && k != i && k0 != i
    requires k0 == (if bs[i].units == n || k < i then k else k - 1)
    requires Start(Split(bs, i, n), k) == Start(bs, k0)
    ensures HeadAt(SplitCells(cells, Start(bs, i), n), Split(bs, i, n), k)
  {
    hide Start, Split;
    HeadHere(cells, bs, i);
    HeadHere(cells, bs, k0);
    SplitAt(bs, i, n, k);
    if k0 < i {
      StartOrder(bs, k0 + 1, i);
    } else {
      StartOrder(bs, i + 1, k0);
    }
  }

  // ---------------------------------------------------------------- freeing

  /** What `free` writes: the headers behind and ahead are looked at, and a free one is joined. */
  function FreeCells(cells: seq<Header>, at: nat): (r: seq<Header>)
    requires at < |cells| && cells[at].prev / 16 <= at && at + cells[at].size / 16 < |cells|
    ensures |r| == |cells|
  {
    var prev := at - cells[at].prev / 16;
    var next := at + cells[at].size / 16;
    var working := if !cells[prev].taken then prev else at;
    var grown := cells[working].size + (if !cells[prev].taken then cells[at].size + HEADER else 0);
    var grown' := grown + (if !cells[next].taken then cells[next].size + HEADER else 0);
    cells[working := Header(grown', false, cells[working].prev)]
  }

  /** Where the headers of block i lead: to the block behind that it names and the one ahead. */
  lemma Neighbours(cells: seq<Header>, bs: seq<Block>, i: nat, j: nat)
    requires Shows(cells, bs) && i + 1 < |bs| && LandsAt(bs, i, j)
    ensures var at := Start(bs, i);
            && at < |cells| && cells[at] == HeadOf(bs[i])
            && cells[at].prev / 16 <= at && at + cells[at].size / 16 < |cells|
            && at - cells[at].prev / 16 == Start(bs, j) && cells[Start(bs, j)] == HeadOf(bs[j])
            && at + cells[at].size / 16 == Start(bs, i + 1) && cells[Start(bs, i + 1)] == HeadOf(bs[i + 1])
  {
    assert HeadAt(cells, bs, i) && HeadAt(cells, bs, j) && HeadAt(cells, bs, i + 1);
  }

  /** The one block behind that a block's header names. */
  lemma Behind(cells: seq<Header>, bs: seq<Block>, i: nat) returns (j: nat)
    requires Shows(cells, bs) && i < |bs|
    ensures LandsAt(bs, i, j) && forall j': nat | LandsAt(bs, i, j') :: j' == j
  {
    assert OkAt(bs, i);
    j :| LandsAt(bs, i, j);
    forall j': nat | LandsAt(bs, i, j')
      ensures j' == j
    {
      LandsOnce(bs, i, j, j');
    }
  }

  /** With both neighbours in use the block becomes free and nothing else changes. */
  lemma FreeShows(cells: seq<Header>, bs: seq<Block>, i: nat, j: nat)
    requires Shows(cells, bs) && i + 1 < |bs| && LandsAt(bs, i, j)
    requires bs[i].used && bs[i + 1].used && bs[j].used
    ensures Start(bs, i) < |cells| && cells[Start(bs, i)].prev / 16 <= Start(bs, i)
    ensures Start(bs, i) + cells[Start(bs, i)].size / 16 < |cells|
    ensures Shows(FreeCells(cells, Start(bs, i)), Give(bs, i))
  {
    Neighbours(cells, bs, i, j);
    var cells' := FreeCells(cells, Start(bs, i));
    var bs' := Give(bs, i);
    GiveTiles(bs, i, |cells|);
    forall k
      ensures HeadAt(cells', bs', k)
    {
      if 0 <= k < |bs| {
        assert HeadAt(cells, bs, k);
        GiveStarts(bs, i, k);
        StartOrder(bs, if k < i then k else i, if k < i then i else k);
      }
    }
  }

  /** Headers decide the blocks: two readings of memories that agree up to a block agree so far. */
  lemma {:induction false} SameReading(cells: seq<Header>, bs: seq<Block>, cells': seq<Header>, bs': seq<Block>, i: nat)
    requires Shows(cells, bs) && Shows(cells', bs') && |cells| == |cells'| && i < |bs|
    requires forall c | 0 <= c < |cells| && c != Start(bs, i) :: cells[c] == cells'[c]
    ensures i < |bs'| && Start(bs', i) == Start(bs, i)
    decreases i
  {
    if i > 0 {
      SameReadingBefore(cells, bs, cells', bs', i, i - 1);
    }
  }

  lemma {:induction false} SameReadingBefore(cells: seq<Header>, bs: seq<Block>, cells': seq<Header>, bs': seq<Block>,
                                             i: nat, k: nat)
    requires Shows(cells, bs) && Shows(cells', bs') && |cells| == |cells'| && k < i < |bs|
    requires forall c | 0 <= c < |cells| && c != Start(bs, i) :: cells[c] == cells'[c]
    ensures k + 1 < |bs'| && Start(bs', k + 1) == Start(bs, k + 1)
    decreases k
  {
    if k > 0 {
      SameReadingBefore(cells, bs, cells', bs', i, k - 1);
    }
    assert HeadAt(cells, bs, k) && HeadAt(cells', bs', k);
    StartOrder(bs, k, i);
    StartOrder(bs, i, |bs|);
    assert OkAt(bs, i);
  }

  /** Joining with a free last block never leaves a tiled heap: the sizes joined already hold
      their headers, and the one added again reaches past the heap's end. */
  lemma MergeWithLastOverruns(cells: seq<Header>, bs: seq<Block>, i: nat, j: nat, bs': seq<Block>)
    requires Shows(cells, bs) && i + 2 == |bs| && LandsAt(bs, i, j)
    requires bs[i].used && bs[j].used && !bs[i + 1].used
    ensures Start(bs, i) < |cells| && cells[Start(bs, i)].prev / 16 <= Start(bs, i)
    ensures Start(bs, i) + cells[Start(bs, i)].size / 16 < |cells|
    ensures !Shows(FreeCells(cells, Start(bs, i)), bs')
  {
    Neighbours(cells, bs, i, j);
    var cells' := FreeCells(cells, Start(bs, i));
    HeadHere(cells, bs, i);
    HeadHere(cells, bs, i + 1);
    if Shows(cells', bs') {
      SameReading(cells, bs, cells', bs', i);
      HeadHere(cells', bs', i);
      assert false;
    }
  }

  // ---------------------------------------------------------------- joining neighbours

  /** The header of block i gives the block's size and says whether it is in use. */
  ghost predicate SizeAt(cells: seq<Header>, bs: seq<Block>, i: int) {
    0 <= i < |bs| ==>
      Start(bs, i) < |cells| && cells[Start(bs, i)].size == 16 * bs[i].units && cells[Start(bs, i)].taken == bs[i].used
  }

  ghost predicate ShowsSizes(cells: seq<Header>, bs: seq<Block>) { forall i :: SizeAt(cells, bs, i) }

  /** The first block, and the one behind the last, of those that become one when block i is freed:
      free neighbours are those next to it, the one behind known through its header, which names j. */
  function JoinFrom(bs: seq<Block>, i: nat, j: nat): (lo: nat)
    requires i < |bs| && j <= i
    ensures lo <= i
  {
    if j + 1 == i && !bs[j].used then j else i
  }

  function JoinTo(bs: seq<Block>, i: nat): (hi: nat)
    requires i + 1 < |bs|
    ensures i < hi <= |bs|
  {
    if bs[i + 1].used then i + 1 else i + 2
  }

  /** The heap that freeing block i should leave: one free block of exactly the joined units. */
  function Joined(bs: seq<Block>, i: nat, j: nat): seq<Block>
    requires i + 1 < |bs| && j <= i
  {
    var lo, hi := JoinFrom(bs, i, j), JoinTo(bs, i);
    bs[..lo] + [Block(Units(bs[lo..hi]), false, bs[lo].back)] + bs[hi..]
  }

  function Units(bs: seq<Block>): nat {
    if |bs| == 0 then 0 else bs[0].units + Units(bs[1..])
  }

  lemma {:induction false} SamePrefixStart(bs: seq<Block>, bs': seq<Block>, k: nat)
    requires k <= |bs| && k <= |bs'| && bs[..k] == bs'[..k]
    ensures Start(bs, k) == Start(bs', k)
    decreases k
  {
    if k > 0 {
      assert bs[..k][..k - 1] == bs[..k - 1] && bs'[..k][..k - 1] == bs'[..k - 1];
      SamePrefixStart(bs, bs', k - 1);
      assert bs[..k][k - 1] == bs[k - 1] && bs'[..k][k - 1] == bs'[k - 1];
    }
  }

  /** The block that grows when a neighbour named by the headers is free: its size afterwards, and
      the size it should have. */
  lemma JoinSizes(cells: seq<Header>, bs: seq<Block>, i: nat, j: nat)
    requires Shows(cells, bs) && i + 1 < |bs| && LandsAt(bs, i, j) && bs[i].used
    requires Start(bs, i) < |cells| && cells[Start(bs, i)].prev / 16 <= Start(bs, i)
    requires Start(bs, i) + cells[Start(bs, i)].size / 16 < |cells|
    ensures var w := if bs[j].used then i else j; var good := Joined(bs, i, j);
            var joins := (if bs[j].used then 0 else 1) + (if bs[i + 1].used then 0 else 1);
            && w < |good| && Start(good, w) == Start(bs, w) < |cells|
            && FreeCells(cells, Start(bs, i))[Start(bs, w)].size >= 16 * good[w].units + 16 * joins
  {
    Neighbours(cells, bs, i, j);
    var w := if bs[j].used then i else j;
    var lo, hi := JoinFrom(bs, i, j), JoinTo(bs, i);
    var good := Joined(bs, i, j);
    assert w <= lo;
    SamePrefixStart(bs, good, w);
    JoinedUnits(bs, i, j);
  }

  lemma JoinedUnits(bs: seq<Block>, i: nat, j: nat)
    requires i + 1 < |bs| && j <= i
    ensures var lo, hi := JoinFrom(bs, i, j), JoinTo(bs, i);
            Units(bs[lo..hi]) == (if lo < i then bs[lo].units else 0) + bs[i].units
                                 + (if i + 1 < hi then bs[i + 1].units else 0)
  {
    var lo, hi := JoinFrom(bs, i, j), JoinTo(bs, i);
    var last := bs[i + 1..hi];
    UnitsFirst(bs[i], last);
    if last != [] {
      UnitsFirst(bs[i + 1], []);
      assert last == [bs[i + 1]] + [];
    }
    if lo < i {
      UnitsFirst(bs[lo], [bs[i]] + last);
      assert bs[lo..hi] == [bs[lo]] + ([bs[i]] + last);
    } else {
      assert bs[lo..hi] == [bs[i]] + last;
    }
  }

  lemma UnitsFirst(b: Block, rest: seq<Block>)
    ensures Units([b] + rest) == b.units + Units(rest)
  {
    assert ([b] + rest)[1..] == rest;
  }

  /** Freeing block i leaves the heap it should, sizes and use, exactly when neither neighbour that
      the headers name is free: a join always makes the block at least one header too large. */
  lemma FreeRightIff(cells: seq<Header>, bs: seq<Block>, i: nat, j: nat)
    requires Shows(cells, bs) && i + 1 < |bs| && LandsAt(bs, i, j) && bs[i].used
    ensures Start(bs, i) < |cells| && cells[Start(bs, i)].prev / 16 <= Start(bs, i)
    ensures Start(bs, i) + cells[Start(bs, i)].size / 16 < |cells|
    ensures ShowsSizes(FreeCells(cells, Start(bs, i)), Joined(bs, i, j)) <==> bs[j].used && bs[i + 1].used
  {
    Neighbours(cells, bs, i, j);
    var cells', good := FreeCells(cells, Start(bs, i)), Joined(bs, i, j);
    if bs[j].used && bs[i + 1].used {
      FreeShows(cells, bs, i, j);
      JoinedUnits(bs, i, j);
      assert good == Give(bs, i);
      forall k
        ensures SizeAt(cells', good, k)
      {
        assert HeadAt(cells', Give(bs, i), k);
      }
    } else {
      JoinSizes(cells, bs, i, j);
      assert !SizeAt(cells', good, if bs[j].used then i else j);
    }
  }

  /** Two units in use, one free, two in use: freeing the first makes a block of four units where
      three are joined, reaching into the last block. */
  lemma JoinReachesIntoNext(garbage: Header)
    ensures var cells := [Header(32, true, 0), garbage, Header(16, false, 32), Header(32, true, 16), garbage];
            var bs := [Block(2, true, 0), Block(1, false, 2), Block(2, true, 1)];
            && Shows(cells, bs) && FreeCells(cells, 0)[0] == Header(64, false, 0)
            && Joined(bs, 0, 0) == [Block(3, false, 0), Block(2, true, 1)]
  {
    var cells := [Header(32, true, 0), garbage, Header(16, false, 32), Header(32, true, 16), garbage];
    var bs := [Block(2, true, 0), Block(1, false, 2), Block(2, true, 1)];
    assert Start(bs, 1) == 2 && Start(bs, 2) == 3 && Start(bs, 3) == 5;
    assert LandsAt(bs, 0, 0) && LandsAt(bs, 1, 0) && LandsAt(bs, 2, 1);
    JoinedUnits(bs, 0, 0);
  }

  // ---------------------------------------------------------------- the fresh heap

  /** A size rounded up to whole pages. */
  function WholePages(size: nat): (bytes: nat)
    ensures bytes % Frames.PAGE == 0 && size <= bytes < size + Frames.PAGE
  {
    (size + Frames.PAGE - 1) / Frames.PAGE * Frames.PAGE
  }

  lemma WholeUnits(k: nat)
    ensures 16 * k % 16 == 0
  {
  }

  lemma PagesAreUnits(bytes: nat)
    requires bytes % Frames.PAGE == 0
    ensures bytes % 16 == 0
  {
    var k := 256 * (bytes / Frames.PAGE);
    assert bytes == 16 * k;
    WholeUnits(k);
  }

  lemma BehindAlloc(base: nat)
    requires base % Frames.PAGE == 0
    ensures (base + HEADER) % 16 == 0
  {
    var k := 256 * (base / Frames.PAGE) + 1;
    assert base + HEADER == 16 * k;
    WholeUnits(k);
  }

  lemma FreshShows(cells: seq<Header>, total: nat)
    requires |cells| == total >= 1 && cells[0] == Header(16 * total, false, 0)
    ensures Shows(cells, [Block(total, false, 0)])
  {
    FreshTiles(total);
  }

  // ---------------------------------------------------------------- the allocator

  class Heap {
    const heapStart: nat
    const heapSize: nat
    const cells: array<Header>
    ghost var blocks: seq<Block>

    ghost predicate Valid()
      reads this, cells
    {
      && Shows(cells[..], blocks) && heapStart % 16 == 0
      && 16 * cells.Length + HEADER == heapSize
    }

    /** `init_custom_alloc` past its mappings: the bookkeeping in the first page, one free block. */
    constructor (base: nat, initialSize: nat)
      requires base % Frames.PAGE == 0 && 0 < initialSize && initialSize + Frames.PAGE <= 0x8000_0000_0000_0000
      ensures Valid() && fresh(cells) && heapStart == base + 16 && heapSize == 16 * cells.Length + 16
      ensures heapSize == WholePages(initialSize)
      ensures blocks == [Block(cells.Length, false, 0)]
    {
      hide Shows, Tiles, Start, WholePages;
      var bytes := WholePages(initialSize);
      var total := (bytes - HEADER) / 16;
      BehindAlloc(base);
      PagesAreUnits(bytes);
      heapStart := base + HEADER;
      heapSize := bytes;
      cells := new Header[total](_ => Header(bytes - HEADER, false, 0));
      blocks := [Block(total, false, 0)];
      new;
      FreshShows(cells[..], total);
    }

    /** Address handed out for a block: on a 16-byte boundary, right behind the header. */
    function AddressOf(at: nat): (a: nat)
      requires heapStart % 16 == 0
      ensures a % 16 == 0 && a == heapStart + 16 * at + 16
    {
      heapStart + 16 * at + HEADER
    }

    /** `Imalloc_alocator` up to its growth path, which None stands for. */
    method Imalloc(size: nat) returns (r: Option<nat>)
      requires Valid() && size + HEADER + 15 < WORD_SPAN && SomeFree(blocks)
      modifies this`blocks, cells
      ensures Valid()
      ensures r.Some? <==> Fits(old(blocks), UnitsFor(size))
      ensures r.None? ==> blocks == old(blocks) && cells[..] == old(cells[..])
      ensures r.Some? ==> blocks == Take(old(blocks), UnitsFor(size))
                          && r.value == AddressOf(Start(old(blocks), FirstFree(old(blocks), 0)))
    {
      hide Tiles, Start, Split, SplitCells, Shows, UnitsFor;
      UnitsSufficeIff(size);
      var total := (size + HEADER + 15) / 16 * 16;
      ghost var n, f := UnitsFor(size), FirstFree(blocks, 0);
      assert total == 16 * n;
      FirstFreeExists(blocks);
      var p := 0;
      ghost var k := 0;
      AtStart(blocks);
      HeadHere(cells[..], blocks, k);
      while p + cells[p / 16].size < heapSize
        invariant blocks == old(blocks) && cells[..] == old(cells[..])
        invariant 0 <= k <= f && p == 16 * Start(blocks, k) && p / 16 < cells.Length
        decreases f - k
      {
        HeadHere(cells[..], blocks, k);
        var at, h := p / 16, cells[p / 16];
        assert h == HeadOf(blocks[k]);
        if !h.taken && h.size >= total {
          SplitShows(cells[..], blocks, k, n);
        }
        if !h.taken && h.size == total {
          cells[at] := h.(taken := true);
          ExactCells(old(cells[..]), at, n);
          assert cells[..] == SplitCells(old(cells[..]), at, n);
          blocks := Split(blocks, k, n);
          return Some(heapStart + p + HEADER);
        }
        if !h.taken && h.size > total {
          cells[(p + total) / 16] := Header(h.size - total, false, total);
          cells[at] := Header(total, true, h.prev);
          RestCells(old(cells[..]), at, n);
          assert cells[..] == SplitCells(old(cells[..]), at, n);
          blocks := Split(blocks, k, n);
          return Some(heapStart + p + HEADER);
        }
        if !h.taken {
          return None;
        }
        p := p + h.size;
        k := k + 1;
        HeadHere(cells[..], blocks, k);
      }
      HeadHere(cells[..], blocks, k);
      assert false;
    }

    /** `free` of a block that is not the last. */
    method Free(addr: nat, ghost i: nat)
      requires Valid() && i + 1 < |blocks| && blocks[i].used && addr == AddressOf(Start(blocks, i))
      modifies this`blocks, cells
      ensures old(Start(blocks, i) < cells.Length && cells[Start(blocks, i)].prev / 16 <= Start(blocks, i)
                  && Start(blocks, i) + cells[Start(blocks, i)].size / 16 < cells.Length)
      ensures cells[..] == FreeCells(old(cells[..]), old(Start(blocks, i)))
      ensures old(blocks[i + 1].used && forall j: nat | LandsAt(blocks, i, j) :: blocks[j].used)
              ==> Valid() && blocks == Give(old(blocks), i)
    {
      hide Start, Tiles, LandsAt;
      ghost var j := Behind(cells[..], blocks, i);
      Neighbours(cells[..], blocks, i, j);
      var at := (addr - HEADER - heapStart) / 16;
      var h := cells[at];
      var next, prev := at + h.size / 16, at - h.prev / 16;
      var working := at;
      ghost var was := cells[..];
      if blocks[j].used && blocks[i + 1].used {
        FreeShows(was, blocks, i, j);
      }
      if !cells[prev].taken {
        working := prev;
        cells[working] := cells[working].(size := cells[working].size + h.size + HEADER);
      }
      if !cells[next].taken {
        cells[working] := cells[working].(size := cells[working].size + cells[next].size + HEADER);
      }
      cells[working] := cells[working].(taken := false);
      assert cells[..] == FreeCells(was, at);
      if blocks[j].used && blocks[i + 1].used {
        blocks := Give(blocks, i);
      }
    }
  }
}
