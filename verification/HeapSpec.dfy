/** The kernel heap as a row of blocks, in units of its 16-byte headers. */
module HeapSpec {

  const HEADER: nat := 16
  const WORD_SPAN: nat := 0x1_0000_0000_0000_0000   // sizes are 64-bit words

  /** A block with its header; `back` is the distance its header gives to an earlier one. */
  datatype Block = Block(units: nat, used: bool, back: nat)

  /** Units asked for by a request: the header is added and the sum rounded up, in 64 bits. */
  function UnitsFor(size: nat): nat
    requires size < WORD_SPAN
  {
    ((size + HEADER) % WORD_SPAN + 15) % WORD_SPAN / 16
  }

  /** The request and a header fit the units exactly when neither sum wraps; then less than one
      unit is spare. */
  lemma UnitsSufficeIff(size: nat)
    requires size < WORD_SPAN
    ensures 16 * UnitsFor(size) >= size + HEADER <==> size + HEADER + 15 < WORD_SPAN
    ensures size + HEADER + 15 < WORD_SPAN ==> 0 <= 16 * UnitsFor(size) - (size + HEADER) < 16
    ensures HEADER == 16 && WORD_SPAN == 0x1_0000_0000_0000_0000
  {
  }

  /** Unit at which block i starts. */
  function Start(bs: seq<Block>, i: nat): nat
    requires i <= |bs|
    decreases i
  {
    if i == 0 then 0 else Start(bs, i - 1) + bs[i - 1].units
  }

  /** The backward distance of block i leads to the start of block j. */
  predicate LandsAt(bs: seq<Block>, i: nat, j: nat)
    requires i < |bs|
  {
    j <= i && (j == i ==> i == 0) && Start(bs, j) + bs[i].back == Start(bs, i)
  }

  ghost predicate OkAt(bs: seq<Block>, i: int) {
    0 <= i < |bs| ==> bs[i].units >= 1 && exists j: nat :: LandsAt(bs, i, j)
  }

  /** The blocks tile the heap, none is empty, and every backward distance leads to a header. */
  ghost predicate Tiles(bs: seq<Block>, total: nat) {
    |bs| > 0 && Start(bs, |bs|) == total && forall i :: OkAt(bs, i)
  }

  /** The fresh heap: one free block. */
  lemma FreshTiles(total: nat)
    requires total >= 1
    ensures Tiles([Block(total, false, 0)], total)
  {
    var bs := [Block(total, false, 0)];
    assert LandsAt(bs, 0, 0);
    assert Start(bs, 1) == Start(bs, 0) + bs[0].units;
  }

  lemma {:induction false} StartOrder(bs: seq<Block>, i: nat, j: nat)
    requires i <= j <= |bs| && forall k :: OkAt(bs, k)
    ensures Start(bs, i) + (j - i) <= Start(bs, j)
    ensures i < j ==> Start(bs, i) + bs[i].units <= Start(bs, j)
    decreases j
  {
    if i < j {
      assert OkAt(bs, j - 1);
      StartOrder(bs, i, j - 1);
    }
  }

  // ---------------------------------------------------------------- taking a block

  /** The first block at or after i that is free, or the number of blocks. */
  function FirstFree(bs: seq<Block>, i: nat): (r: nat)
    requires i <= |bs|
    ensures i <= r <= |bs| && (r < |bs| ==> !bs[r].used)
    ensures forall j | i <= j < r :: bs[j].used
    decreases |bs| - i
  {
    if i == |bs| || !bs[i].used then i else FirstFree(bs, i + 1)
  }

  ghost predicate SomeFree(bs: seq<Block>) { exists i :: 0 <= i < |bs| && !bs[i].used }

  lemma FirstFreeExists(bs: seq<Block>)
    requires SomeFree(bs)
    ensures FirstFree(bs, 0) < |bs|
  {
  }

  /** The search ends at the first free block, whether or not that one is large enough. */
  predicate Fits(bs: seq<Block>, n: nat) {
    var i := FirstFree(bs, 0);
    i < |bs| && bs[i].units >= n
  }

  /** The block a true first fit takes: the first free one that is large enough, or the number of
      blocks. */
  function FirstLarge(bs: seq<Block>, n: nat, i: nat): (r: nat)
    requires i <= |bs|
    ensures i <= r <= |bs| && (r < |bs| ==> !bs[r].used && bs[r].units >= n)
    ensures forall j | i <= j < r :: bs[j].used || bs[j].units < n
    decreases |bs| - i
  {
    if i == |bs| || (!bs[i].used && bs[i].units >= n) then i else FirstLarge(bs, n, i + 1)
  }

  /** The search is a first fit exactly as far as the first free block: it takes the first-fit
      block if and only if no free block ahead of that one was too small. */
  lemma FirstFitIff(bs: seq<Block>, n: nat)
    requires FirstLarge(bs, n, 0) < |bs|
    ensures Fits(bs, n) <==> forall j | 0 <= j < FirstLarge(bs, n, 0) :: bs[j].used
    ensures Fits(bs, n) ==> FirstFree(bs, 0) == FirstLarge(bs, n, 0)
  {
    var f, g := FirstFree(bs, 0), FirstLarge(bs, n, 0);
    assert f <= g;
  }

  /** A heap where it is not: a small free block hides a large one. */
  lemma SmallBlockHidesLarge()
    ensures var bs := [Block(2, false, 0), Block(3, true, 2), Block(90, false, 3)];
            Tiles(bs, 95) && FirstLarge(bs, 5, 0) == 2 && !Fits(bs, 5)
  {
    var bs := [Block(2, false, 0), Block(3, true, 2), Block(90, false, 3)];
    assert Start(bs, 1) == 2 && Start(bs, 2) == 5 && Start(bs, 3) == 95;
    assert LandsAt(bs, 0, 0) && LandsAt(bs, 1, 0) && LandsAt(bs, 2, 1);
    assert FirstLarge(bs, 5, 2) == 2;
    assert FirstLarge(bs, 5, 1) == 2;
  }

  /** Block i is given out whole, or its first n units are and the rest stays free. */
  function Split(bs: seq<Block>, i: nat, n: nat): seq<Block>
    requires i < |bs| && n <= bs[i].units
  {
    var b := bs[i];
    if b.units == n then bs[i := b.(used := true)]
    else bs[..i] + [Block(n, true, b.back), Block(b.units - n, false, n)] + bs[i + 1..]
  }

  function Take(bs: seq<Block>, n: nat): seq<Block>
    requires Fits(bs, n)
  {
    Split(bs, FirstFree(bs, 0), n)
  }

  /** Where block k of the heap before a split stands in the heap after it. */
  function After(bs: seq<Block>, i: nat, n: nat, k: nat): nat
    requires i < |bs|
  {
    if k <= i || bs[i].units == n then k else k + 1
  }

  lemma {:induction false} SplitStarts(bs: seq<Block>, i: nat, n: nat, k: nat)
    requires i < |bs| && n <= bs[i].units && k <= |bs|
    ensures After(bs, i, n, k) <= |Split(bs, i, n)|
    ensures Start(Split(bs, i, n), After(bs, i, n, k)) == Start(bs, k)
    ensures bs[i].units > n ==> Start(Split(bs, i, n), i + 1) == Start(bs, i) + n
    decreases k
  {
    var bs' := Split(bs, i, n);
    if k > 0 {
      SplitStarts(bs, i, n, k - 1);
      if k == i + 1 && bs[i].units > n {
        assert bs'[i + 1].units == bs[i].units - n;
      }
    } else {
      SplitUpTo(bs, i, n, i);
    }
  }

  lemma {:induction false} SplitUpTo(bs: seq<Block>, i: nat, n: nat, k: nat)
    requires i < |bs| && n <= bs[i].units && k <= i
    ensures k < |Split(bs, i, n)| && Start(Split(bs, i, n), k) == Start(bs, k)
    decreases k
  {
    if k > 0 {
      SplitUpTo(bs, i, n, k - 1);
    }
  }

  /** Splitting moves no header that was there, so backward distances still lead to one. */
  lemma SplitTiles(bs: seq<Block>, i: nat, n: nat, total: nat)
    requires Tiles(bs, total) && i < |bs| && 1 <= n <= bs[i].units
    ensures Tiles(Split(bs, i, n), total)
  {
    var bs' := Split(bs, i, n);
    SplitStarts(bs, i, n, |bs|);
    forall k
      ensures OkAt(bs', k)
    {
      SplitOk(bs, i, n, k, total);
    }
  }

  lemma SplitOk(bs: seq<Block>, i: nat, n: nat, k: int, total: nat)
    requires Tiles(bs, total) && i < |bs| && 1 <= n <= bs[i].units
    ensures OkAt(Split(bs, i, n), k)
  {
    var bs' := Split(bs, i, n);
    if 0 <= k < |bs'| {
      SplitStarts(bs, i, n, i);
      if bs[i].units > n && k == i + 1 {
        assert LandsAt(bs', k, i);
      } else {
        var k0: nat := if bs[i].units > n && k > i then k - 1 else k;
        assert OkAt(bs, k0);
        var j: nat :| LandsAt(bs, k0, j);
        SplitStarts(bs, i, n, k0);
        SplitStarts(bs, i, n, j);
        assert LandsAt(bs', k, After(bs, i, n, j));
      }
    }
  }

  lemma TakeTiles(bs: seq<Block>, n: nat, total: nat)
    requires Tiles(bs, total) && n >= 1 && Fits(bs, n)
    ensures Tiles(Take(bs, n), total)
  {
    SplitTiles(bs, FirstFree(bs, 0), n, total);
  }

  // ---------------------------------------------------------------- giving a block back

  function Give(bs: seq<Block>, i: nat): seq<Block>
    requires i < |bs|
  {
    bs[i := bs[i].(used := false)]
  }

  lemma {:induction false} GiveStarts(bs: seq<Block>, i: nat, k: nat)
    requires i < |bs| && k <= |bs|
    ensures Start(Give(bs, i), k) == Start(bs, k)
    decreases k
  {
    if k > 0 {
      GiveStarts(bs, i, k - 1);
    }
  }

  lemma GiveTiles(bs: seq<Block>, i: nat, total: nat)
    requires Tiles(bs, total) && i < |bs|
    ensures Tiles(Give(bs, i), total)
  {
    var bs' := Give(bs, i);
    GiveStarts(bs, i, |bs|);
    forall k
      ensures OkAt(bs', k)
    {
      assert OkAt(bs, k);
      if 0 <= k < |bs| {
        var j: nat :| LandsAt(bs, k, j);
        GiveStarts(bs, i, k);
        GiveStarts(bs, i, j);
        assert LandsAt(bs', k, j);
      }
    }
  }

  /** The block a backward distance leads to is the only one starting there. */
  lemma LandsOnce(bs: seq<Block>, i: nat, j: nat, j': nat)
    requires i < |bs| && LandsAt(bs, i, j) && LandsAt(bs, i, j') && forall k :: OkAt(bs, k)
    ensures j == j'
  {
    StartOrder(bs, if j < j' then j else j', if j < j' then j' else j);
  }

  // ---------------------------------------------------------------- the blocks handed out

  /** A block starting at unit `at`, with this many units, is handed out. */
  ghost predicate Held(bs: seq<Block>, at: nat, units: nat) {
    exists i: nat :: HeldAs(bs, at, units, i)
  }

  predicate HeldAs(bs: seq<Block>, at: nat, units: nat, i: nat) {
    i < |bs| && bs[i].used && Start(bs, i) == at && bs[i].units == units
  }

  lemma HeldOnce(bs: seq<Block>, total: nat, at: nat, units: nat, i: nat)
    requires Tiles(bs, total) && Held(bs, at, units) && i < |bs| && Start(bs, i) == at
    ensures HeldAs(bs, at, units, i)
  {
    var k: nat :| HeldAs(bs, at, units, k);
    StartOrder(bs, if i < k then i else k, if i < k then k else i);
  }

  lemma SplitHoldsOld(bs: seq<Block>, i: nat, n: nat, at: nat, units: nat)
    requires i < |bs| && !bs[i].used && n <= bs[i].units && Held(bs, at, units)
    ensures Held(Split(bs, i, n), at, units)
  {
    var k: nat :| HeldAs(bs, at, units, k);
    SplitStarts(bs, i, n, k);
    assert HeldAs(Split(bs, i, n), at, units, After(bs, i, n, k));
  }

  /** A split heap, block by block. */
  lemma SplitAt(bs: seq<Block>, i: nat, n: nat, k: nat)
    requires i < |bs| && n <= bs[i].units && k < |Split(bs, i, n)|
    ensures var b := Split(bs, i, n)[k];
            if k < i || (k > i && bs[i].units == n) then k < |bs| && b == bs[k]
            else if k == i then b.units == n && b.used
            else if k == i + 1 then !b.used
            else k - 1 < |bs| && b == bs[k - 1]
  {
  }

  lemma SplitHeldAs(bs: seq<Block>, i: nat, n: nat, at: nat, units: nat, k: nat) returns (k0: nat)
    requires i < |bs| && n <= bs[i].units && k != i && HeldAs(Split(bs, i, n), at, units, k)
    ensures HeldAs(bs, at, units, k0)
  {
    hide Start, Split;
    k0 := if bs[i].units > n && k > i then k - 1 else k;
    SplitAt(bs, i, n, k);
    SplitStarts(bs, i, n, k0);
  }

  lemma SplitHoldsNoMore(bs: seq<Block>, i: nat, n: nat, at: nat, units: nat)
    requires i < |bs| && n <= bs[i].units && Held(Split(bs, i, n), at, units)
    ensures Held(bs, at, units) || (at == Start(bs, i) && units == n)
  {
    hide Start, Split;
    var k: nat :| HeldAs(Split(bs, i, n), at, units, k);
    if k != i {
      var k0 := SplitHeldAs(bs, i, n, at, units, k);
    } else {
      SplitAt(bs, i, n, k);
      SplitStarts(bs, i, n, i);
    }
  }

  /** Taking a block hands out exactly one more, and nothing held moves, shrinks or is lost. */
  lemma TakeHolds(bs: seq<Block>, n: nat, total: nat, at: nat, units: nat)
    requires Tiles(bs, total) && Fits(bs, n)
    ensures var start := Start(bs, FirstFree(bs, 0));
            && !Held(bs, start, n)
            && (Held(Take(bs, n), at, units) <==> Held(bs, at, units) || (at == start && units == n))
  {
    var i := FirstFree(bs, 0);
    SplitStarts(bs, i, n, i);
    assert HeldAs(Take(bs, n), Start(bs, i), n, i);
    hide Start, Held, Split, Tiles;
    if Held(bs, Start(bs, i), n) {
      HeldOnce(bs, total, Start(bs, i), n, i);
    }
    if Held(bs, at, units) {
      SplitHoldsOld(bs, i, n, at, units);
    }
    if Held(Take(bs, n), at, units) {
      SplitHoldsNoMore(bs, i, n, at, units);
    }
  }

  /** Giving block i back takes exactly that one from those held. */
  lemma GiveHolds(bs: seq<Block>, i: nat, total: nat, at: nat, units: nat)
    requires Tiles(bs, total) && i < |bs| && bs[i].used
    ensures Held(Give(bs, i), at, units) <==> Held(bs, at, units) && at != Start(bs, i)
  {
    var bs' := Give(bs, i);
    GiveStarts(bs, i, i);
    if Held(bs', at, units) {
      var k: nat :| HeldAs(bs', at, units, k);
      GiveStarts(bs, i, k);
      assert HeldAs(bs, at, units, k);
      StartOrder(bs, if i < k then i else k, if i < k then k else i);
    }
    if Held(bs, at, units) && at != Start(bs, i) {
      var k: nat :| HeldAs(bs, at, units, k);
      GiveStarts(bs, i, k);
      assert HeldAs(bs', at, units, k);
    }
  }

  /** Blocks held at different places do not overlap, headers included, and lie in the heap. */
  lemma HeldDisjoint(bs: seq<Block>, total: nat, at: nat, units: nat, at': nat, units': nat)
    requires Tiles(bs, total) && Held(bs, at, units) && Held(bs, at', units')
    ensures at + units <= total
    ensures if at == at' then units == units' else at + units <= at' || at' + units' <= at
  {
    var i: nat :| HeldAs(bs, at, units, i);
    var j: nat :| HeldAs(bs, at', units', j);
    StartOrder(bs, i, |bs|);
    StartOrder(bs, if i < j then i else j, if i < j then j else i);
  }

  // ---------------------------------------------------------------- runs

  /** The heap with the requests that are live: where each was placed and its size in bytes. */
  datatype State = State(blocks: seq<Block>, live: map<nat, nat>)

  datatype Op = Alloc(size: nat) | Release(index: nat)

  /** A request that is served, or a release next to no free block: neither neighbour that the
      headers name is free, so nothing is merged. */
  ghost predicate Legal(s: State, op: Op) {
    match op
    case Alloc(size) => size + HEADER + 15 < WORD_SPAN && Fits(s.blocks, UnitsFor(size))
    case Release(i) =>
      && i + 1 < |s.blocks| && s.blocks[i].used && s.blocks[i + 1].used
      && forall j: nat | LandsAt(s.blocks, i, j) :: s.blocks[j].used
  }

  function Step(s: State, op: Op): State {
    match op
    case Alloc(size) =>
      if size < WORD_SPAN && Fits(s.blocks, UnitsFor(size)) then
        State(Take(s.blocks, UnitsFor(size)), s.live[Start(s.blocks, FirstFree(s.blocks, 0)) := size])
      else s
    case Release(i) =>
      if i < |s.blocks| then State(Give(s.blocks, i), s.live - {Start(s.blocks, i)}) else s
  }

  ghost predicate LegalRun(s: State, ops: seq<Op>)
    decreases |ops|
  {
    |ops| > 0 ==> Legal(s, ops[0]) && LegalRun(Step(s, ops[0]), ops[1..])
  }

  function Run(s: State, ops: seq<Op>): State
    decreases |ops|
  {
    if |ops| == 0 then s else Run(Step(s, ops[0]), ops[1..])
  }

  /** A live request has a block of its own, placed where it was told, with room for its bytes
      behind the header; and no block is handed out otherwise. */
  ghost predicate LiveAt(s: State, at: nat) {
    && (at in s.live ==> exists units: nat :: Serves(s, at, units))
    && (forall units: nat :: Held(s.blocks, at, units) ==> at in s.live)
  }

  ghost predicate Serves(s: State, at: nat, units: nat)
    requires at in s.live
  {
    Held(s.blocks, at, units) && 16 * units >= HEADER + s.live[at]
  }

  ghost predicate Inv(s: State, total: nat) {
    Tiles(s.blocks, total) && forall at: nat :: LiveAt(s, at)
  }

  lemma FreshInv(total: nat)
    requires total >= 1
    ensures Inv(State([Block(total, false, 0)], map[]), total)
  {
    FreshTiles(total);
  }

  lemma AllocKeeps(s: State, size: nat, total: nat)
    requires Inv(s, total) && Legal(s, Alloc(size))
    ensures Inv(Step(s, Alloc(size)), total)
  {
    hide Start, UnitsFor, FirstFree, Tiles, Held;
    var n, s' := UnitsFor(size), Step(s, Alloc(size));
    UnitsSufficeIff(size);
    var start := Start(s.blocks, FirstFree(s.blocks, 0));
    TakeTiles(s.blocks, n, total);
    forall at: nat
      ensures LiveAt(s', at)
    {
      assert LiveAt(s, at);
      forall units: nat
        ensures Held(s'.blocks, at, units) <==> Held(s.blocks, at, units) || (at == start && units == n)
      {
        TakeHolds(s.blocks, n, total, at, units);
      }
      if at == start {
        assert Serves(s', at, n);
      } else if at in s.live {
        var units: nat :| Serves(s, at, units);
        assert Serves(s', at, units);
      }
    }
  }

  lemma ReleaseKeeps(s: State, i: nat, total: nat)
    requires Inv(s, total) && Legal(s, Release(i))
    ensures Inv(Step(s, Release(i)), total)
  {
    hide Start, Tiles, Held;
    var s' := Step(s, Release(i));
    GiveTiles(s.blocks, i, total);
    forall at: nat
      ensures LiveAt(s', at)
    {
      assert LiveAt(s, at);
      forall units: nat
        ensures Held(s'.blocks, at, units) <==> Held(s.blocks, at, units) && at != Start(s.blocks, i)
      {
        GiveHolds(s.blocks, i, total, at, units);
      }
      if at in s'.live {
        var units: nat :| Serves(s, at, units);
        assert Serves(s', at, units);
      }
    }
  }

  /** What one step does to the live requests: a request served adds one, where no other was, with a
      block of its own; a release removes one. */
  lemma StepLives(s: State, op: Op, total: nat)
    requires Inv(s, total) && Legal(s, op)
    ensures match op
            case Alloc(size) =>
              var at := Start(s.blocks, FirstFree(s.blocks, 0));
              at !in s.live && Step(s, op).live == s.live[at := size]
            case Release(i) =>
              var at := Start(s.blocks, i);
              at in s.live && Step(s, op).live == s.live - {at}
  {
    match op
    case Alloc(size) =>
      var f := FirstFree(s.blocks, 0);
      var at := Start(s.blocks, f);
      assert LiveAt(s, at);
      if at in s.live {
        var units: nat :| Serves(s, at, units);
        HeldOnce(s.blocks, total, at, units, f);
      }
    case Release(i) =>
      assert LiveAt(s, Start(s.blocks, i));
      assert HeldAs(s.blocks, Start(s.blocks, i), s.blocks[i].units, i);
      assert Held(s.blocks, Start(s.blocks, i), s.blocks[i].units);
  }

  lemma {:induction false} RunInv(s: State, ops: seq<Op>, total: nat)
    requires Inv(s, total) && LegalRun(s, ops)
    ensures Inv(Run(s, ops), total)
    decreases |ops|
  {
    if |ops| > 0 {
      match ops[0] {
        case Alloc(size) => AllocKeeps(s, size, total);
        case Release(i) => ReleaseKeeps(s, i, total);
      }
      RunInv(Step(s, ops[0]), ops[1..], total);
    }
  }

  /** Three requests on a fresh heap, and the middle one released between the others: all of it is
      legal, and leaves the two others live where they were put. */
  lemma SampleRun()
    ensures var boot := State([Block(100, false, 0)], map[]);
            var ops := [Alloc(10), Alloc(20), Alloc(5), Release(1)];
            LegalRun(boot, ops) && Run(boot, ops).live == map[0 := 10, 5 := 5]
  {
    var s0 := State([Block(100, false, 0)], map[]);
    var s1 := State([Block(2, true, 0), Block(98, false, 2)], map[0 := 10]);
    var s2 := State([Block(2, true, 0), Block(3, true, 2), Block(95, false, 3)], map[0 := 10, 2 := 20]);
    var s3 := State([Block(2, true, 0), Block(3, true, 2), Block(2, true, 3), Block(93, false, 2)],
                    map[0 := 10, 2 := 20, 5 := 5]);
    hide Step, Legal, Run, LegalRun;
    SampleFirst(s0, s1);
    SampleSecond(s1, s2);
    SampleThird(s2, s3);
    SampleRelease(s3);
    RunFirst(s0, Alloc(10), [Alloc(20), Alloc(5), Release(1)]);
    RunFirst(s1, Alloc(20), [Alloc(5), Release(1)]);
    RunFirst(s2, Alloc(5), [Release(1)]);
    RunFirst(s3, Release(1), []);
    RunNone(Step(s3, Release(1)));
    assert [Alloc(10)] + [Alloc(20), Alloc(5), Release(1)] == [Alloc(10), Alloc(20), Alloc(5), Release(1)];
    assert [Alloc(20)] + [Alloc(5), Release(1)] == [Alloc(20), Alloc(5), Release(1)];
    assert [Alloc(5)] + [Release(1)] == [Alloc(5), Release(1)] && [Release(1)] + [] == [Release(1)];
  }

  lemma RunFirst(s: State, op: Op, rest: seq<Op>)
    ensures Run(s, [op] + rest) == Run(Step(s, op), rest)
    ensures LegalRun(s, [op] + rest) <==> Legal(s, op) && LegalRun(Step(s, op), rest)
  {
    assert ([op] + rest)[1..] == rest;
  }

  lemma RunNone(s: State)
    ensures Run(s, []) == s && LegalRun(s, [])
  {
  }

  lemma SampleFirst(s: State, s': State)
    requires s == State([Block(100, false, 0)], map[])
    requires s' == State([Block(2, true, 0), Block(98, false, 2)], map[0 := 10])
    ensures Legal(s, Alloc(10)) && Step(s, Alloc(10)) == s'
  {
    assert FirstFree(s.blocks, 0) == 0;
  }

  lemma SampleStarts(bs: seq<Block>)
    requires |bs| >= 3 && bs[0].units == 2 && bs[1].units == 3
    ensures Start(bs, 0) == 0 && Start(bs, 1) == 2 && Start(bs, 2) == 5
  {
  }

  lemma SampleSecond(s: State, s': State)
    requires s == State([Block(2, true, 0), Block(98, false, 2)], map[0 := 10])
    requires s' == State([Block(2, true, 0), Block(3, true, 2), Block(95, false, 3)], map[0 := 10, 2 := 20])
    ensures Legal(s, Alloc(20)) && Step(s, Alloc(20)) == s'
  {
    assert FirstFree(s.blocks, 1) == 1;
    assert Start(s.blocks, 1) == 2;
  }

  lemma SampleThird(s: State, s': State)
    requires s == State([Block(2, true, 0), Block(3, true, 2), Block(95, false, 3)], map[0 := 10, 2 := 20])
    requires s' == State([Block(2, true, 0), Block(3, true, 2), Block(2, true, 3), Block(93, false, 2)],
                         map[0 := 10, 2 := 20, 5 := 5])
    ensures Legal(s, Alloc(5)) && Step(s, Alloc(5)) == s'
  {
    assert FirstFree(s.blocks, 2) == 2 && FirstFree(s.blocks, 1) == 2;
    SampleStarts(s.blocks);
  }

  lemma SampleRelease(s: State)
    requires s == State([Block(2, true, 0), Block(3, true, 2), Block(2, true, 3), Block(93, false, 2)],
                        map[0 := 10, 2 := 20, 5 := 5])
    ensures Legal(s, Release(1)) && Step(s, Release(1)).live == map[0 := 10, 5 := 5]
  {
    SampleStarts(s.blocks);
    forall j: nat | LandsAt(s.blocks, 1, j)
      ensures s.blocks[j].used
    {
    }
  }

  /** Any run from a fresh heap: the bytes of two live requests never meet, they never reach a
      header or the heap's end, and they start on a 16-byte boundary of the heap. */
  lemma LivePayloadsDisjoint(total: nat, ops: seq<Op>, at: nat, at': nat)
    requires total >= 1 && LegalRun(State([Block(total, false, 0)], map[]), ops)
    requires var s := Run(State([Block(total, false, 0)], map[]), ops); at in s.live && at' in s.live
    ensures var s := Run(State([Block(total, false, 0)], map[]), ops);
            && (16 * at + HEADER) + s.live[at] <= 16 * total
            && (at < at' ==> (16 * at + HEADER) + s.live[at] <= 16 * at')
  {
    hide Start, Held, Tiles, Run, LegalRun;
    var boot := State([Block(total, false, 0)], map[]);
    var s := Run(boot, ops);
    FreshInv(total);
    RunInv(boot, ops, total);
    assert LiveAt(s, at) && LiveAt(s, at');
    var units: nat :| Serves(s, at, units);
    var units': nat :| Serves(s, at', units');
    HeldDisjoint(s.blocks, total, at, units, at', units');
  }
}
