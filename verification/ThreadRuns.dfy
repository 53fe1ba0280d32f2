/** Two threads made from one address space, and any interleaving of what they map. */
module ThreadRuns {
  import opened Runs
  import opened Frames
  import opened PageSpec
  import opened PageMap
  import opened PagePerms
  import opened PageRuns
  import opened PageCost
  import opened Threads
  import Alloc
  import AllocRuns

  /** Roots a and b are copies of root `from`, made one after the other. */
  ghost predicate TwoThreads(s: Pages, from: nat, mem1: Mem, a: nat, mem2: Mem, b: nat) {
    && Inv(s) && IsRoot(s, from) && PermsOk(s, {from}) && FrameTaken(s, mem1, a)
    && var s1 := Copied(s, from, a, mem1); Inv(s1) && FrameTaken(s1, mem2, b)
  }

  ghost function BothMade(s: Pages, from: nat, mem1: Mem, a: nat, mem2: Mem, b: nat): Pages
    requires TwoThreads(s, from, mem1, a, mem2, b)
  {
    Copied(Copied(s, from, a, mem1), from, b, mem2)
  }

  /** The copied table has nothing in the three entries that threads fill. */
  predicate SlotsEmpty(s: Pages, from: nat)
    requires from in s.tables
  {
    forall sub: SubSpace :: !s.tables[from][SubSlot(sub)].present
  }

  /** An address in one of the three entries. */
  predicate OwnAddress(va: nat) { exists sub: SubSpace :: Idx(4, va) == SubSlot(sub) }

  /** All requests are the two threads', and stay in those entries. */
  predicate OwnRequests(qs: seq<SpaceRequest>, a: nat, b: nat) {
    forall i | 0 <= i < |qs| :: qs[i].root in {a, b} && OwnAddress(qs[i].request.va)
  }

  lemma FewerWatched(s: Pages, roots: set<nat>, r: nat)
    requires PermsOk(s, roots) && r in roots
    ensures PermsOk(s, {r})
  {
    forall t: nat, i: nat, j: nat
      ensures WatchedAt(s, {r}, t, i, j)
    {
      assert WatchedAt(s, roots, t, i, j);
    }
  }

  /** What a thread's table shows right after it is made: what the copied one showed. */
  lemma CopyShows(s: Pages, roots: set<nat>, from: nat, mem: Mem, n: nat, r: nat, va: nat)
    requires Inv(s) && IsRoot(s, from) && FrameTaken(s, mem, n) && from in roots && PermsOk(s, roots)
    requires IsRoot(s, r) && r in roots
    ensures var s' := Copied(s, from, n, mem);
            && Inv(s') && IsRoot(s', n) && IsRoot(s', r) && n != r && PermsOk(s', roots + {n})
            && Shown(s', n, va) == Shown(s, from, va) && Shown(s', r, va) == Shown(s, r, va)
  {
    var s' := Copied(s, from, n, mem);
    CopyKeeps(s, from, mem, n);
    CopyTranslates(s, from, mem, n, r, va);
    CopyPerms(s, roots, from, n, mem);
    RightsAreLeafs(s, roots, from, 4, va);
    RightsAreLeafs(s, roots, r, 4, va);
    RightsAreLeafs(s', roots + {n}, n, 4, va);
    RightsAreLeafs(s', roots + {n}, r, 4, va);
  }

  lemma BothShow(s: Pages, from: nat, mem1: Mem, a: nat, mem2: Mem, b: nat, va: nat)
    requires TwoThreads(s, from, mem1, a, mem2, b)
    ensures var s2 := BothMade(s, from, mem1, a, mem2, b);
            && Inv(s2) && IsRoot(s2, a) && IsRoot(s2, b) && a != b && PermsOk(s2, {a}) && PermsOk(s2, {b})
            && Shown(s2, a, va) == Shown(s, from, va) == Shown(s2, b, va)
  {
    hide Inv, Shown, Copied, PermsOk;
    var s1 := Copied(s, from, a, mem1);
    CopyShows(s, {from}, from, mem1, a, from, va);
    CopyShows(s1, {from, a}, from, mem2, b, a, va) by {
      assert {from} + {a} == {from, a};
    }
    CopyShows(s1, {from, a}, from, mem2, b, from, va) by {
      assert {from} + {a} == {from, a};
    }
    var s2 := Copied(s1, from, b, mem2);
    FewerWatched(s2, {from, a} + {b}, a);
    FewerWatched(s2, {from, a} + {b}, b);
  }

  /** Two threads share exactly the entries that led on in the table both copy. */
  lemma BothShareIff(s: Pages, from: nat, mem1: Mem, a: nat, mem2: Mem, b: nat, j: nat)
    requires TwoThreads(s, from, mem1, a, mem2, b) && j < 512
    ensures var s2 := BothMade(s, from, mem1, a, mem2, b);
            && (Shares(s2, b, a, j) <==> Points(s, from, j)) && (Shares(s2, a, b, j) <==> Points(s, from, j))
  {
    CopyKeeps(s, from, mem1, a);
    var s1 := Copied(s, from, a, mem1);
    assert IsRoot(s1, from) by {
      CopyTranslates(s, from, mem1, a, from, 0);
    }
    CopyShares(s, from, mem1, a, from, j);
    CopyShares(s1, from, mem2, b, a, j);
  }

  /** Requests in other level-4 entries leave the latest view of an address at what it was. */
  lemma {:induction false} LatestElsewhere(s: Pages, roots: set<nat>, qs: seq<SpaceRequest>, b: nat, va: nat)
    requires Inv(s) && forall r | r in roots :: IsRoot(s, r)
    requires forall i | 0 <= i < |qs| :: qs[i].root in roots && Idx(4, qs[i].request.va) != Idx(4, va)
    ensures LatestOwn(s, roots, qs, b, va) == Shown(s, b, va)
    decreases |qs|
  {
    if |qs| > 0 {
      LatestElsewhere(s, roots, qs[..|qs| - 1], b, va);
      assert Idx(4, qs[|qs| - 1].request.va) != Idx(4, va);
    }
  }

  /** Isolation of threads: when the table both copy has nothing in the threads' own entries, any
      interleaving of their requests leaves each thread's view at what its own requests asked for,
      and outside those entries at what the copied table showed. */
  lemma ThreadIsolation(s: Pages, from: nat, mem1: Mem, a: nat, mem2: Mem, b: nat, qs: seq<SpaceRequest>, va: nat)
    requires TwoThreads(s, from, mem1, a, mem2, b) && SlotsEmpty(s, from) && OwnRequests(qs, a, b)
    ensures var s2 := BothMade(s, from, mem1, a, mem2, b);
            && Inv(s2) && (forall r | r in {a, b} :: IsRoot(s2, r))
            && var s' := ServeMany(s2, {a, b}, qs);
               && Shown(s', a, va) == LatestOwn(s2, {a, b}, qs, a, va)
               && Shown(s', b, va) == LatestOwn(s2, {a, b}, qs, b, va)
               && (!OwnAddress(va) ==> Shown(s', a, va) == Shown(s, from, va) == Shown(s', b, va))
  {
    hide Shares, Points, Shown, Inv, PermsOk, ServeMany, LatestOwn, BothMade, TwoThreads;
    var s2 := BothMade(s, from, mem1, a, mem2, b);
    BothShow(s, from, mem1, a, mem2, b, va);
    NothingShared(s, from, mem1, a, mem2, b, qs);
    Isolation(s2, {a, b}, qs, a, va);
    Isolation(s2, {a, b}, qs, b, va);
    if !OwnAddress(va) {
      forall i | 0 <= i < |qs|
        ensures Idx(4, qs[i].request.va) != Idx(4, va)
      {
        assert OwnAddress(qs[i].request.va);
      }
      LatestElsewhere(s2, {a, b}, qs, a, va);
      LatestElsewhere(s2, {a, b}, qs, b, va);
    }
  }

  lemma NothingShared(s: Pages, from: nat, mem1: Mem, a: nat, mem2: Mem, b: nat, qs: seq<SpaceRequest>)
    requires TwoThreads(s, from, mem1, a, mem2, b) && SlotsEmpty(s, from) && OwnRequests(qs, a, b)
    ensures var s2 := BothMade(s, from, mem1, a, mem2, b); Separate(s2, qs, a) && Separate(s2, qs, b)
  {
    hide Shares, Inv, PermsOk, BothMade;
    forall i | 0 <= i < |qs|
      ensures !Points(s, from, Idx(4, qs[i].request.va))
    {
      assert OwnAddress(qs[i].request.va);
    }
    forall j: nat | j < 512
      ensures var s2 := BothMade(s, from, mem1, a, mem2, b);
              (Shares(s2, b, a, j) <==> Points(s, from, j)) && (Shares(s2, a, b, j) <==> Points(s, from, j))
    {
      BothShareIff(s, from, mem1, a, mem2, b, j);
    }
  }

  /** With two frames free, two threads can be made of any sound address space. */
  lemma ThreadsCanBeMade(s: Pages, from: nat)
    requires Inv(s) && IsRoot(s, from) && PermsOk(s, {from}) && FreeFrames(s) >= 2
    ensures exists mem1, a, mem2, b :: TwoThreads(s, from, mem1, a, mem2, b)
  {
    AllocRuns.OneTaken(s.mem);
    var (mem1, addr1) := Alloc.AllocSpec(s.mem, 1);
    var a := addr1 / PAGE;
    CopyKeeps(s, from, mem1, a);
    var s1 := Copied(s, from, a, mem1);
    AllocRuns.OneTaken(mem1);
    var (mem2, addr2) := Alloc.AllocSpec(mem1, 1);
    assert TwoThreads(s, from, mem1, a, mem2, addr2 / PAGE);
  }
}
