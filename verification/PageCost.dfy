/** When a mapping call succeeds, and what it costs: one frame for each table missing on the path. */
module PageCost {
  import opened Runs
  import opened Frames
  import opened PageSpec
  import opened PageMap
  import AllocRuns

  /** Free frames of the whole memory map. */
  function FreeFrames(s: Pages): nat { AllocRuns.TotalFree(s.mem.regions) }

  /** Tables missing on va's path below table t of level l, down to the table of level `leaf`. */
  function Missing(tables: map<nat, Table>, t: nat, l: nat, va: nat, leaf: nat): (n: nat)
    requires l <= 4
    ensures n <= l
    decreases l
  {
    if l <= leaf then 0
    else if t !in tables || !tables[t][Idx(l, va)].present then l - leaf
    else Missing(tables, tables[t][Idx(l, va)].ppn, l - 1, va, leaf)
  }

  function Least(a: nat, b: nat): nat { if a <= b then a else b }

  /** The path below u is the same in both states when the tables of its levels are. */
  lemma {:induction false} MissingBelow(s: Pages, s': Pages, u: nat, m: nat, va: nat, leaf: nat)
    requires Inv(s) && u in s.tables && u in s.level && s.level[u] == m && m <= 4 && 1 <= leaf
    requires AgreeBelow(s, s', m) && ClearPath(s, u, m, va, leaf)
    ensures Missing(s'.tables, u, m, va, leaf) == Missing(s.tables, u, m, va, leaf)
    decreases m
  {
    if m > leaf {
      assert AgreeAt(s, s', m, u) && TableAt(s, u) && SlotAt(s, u, Idx(m, va));
      if s.tables[u][Idx(m, va)].present {
        var k := m - 1;
        forall v: nat
          ensures AgreeAt(s, s', k, v)
        {
          assert AgreeAt(s, s', m, v);
        }
        MissingBelow(s, s', s.tables[u][Idx(m, va)].ppn, m - 1, va, leaf);
      }
    }
  }

  /** One step down takes a frame exactly when its table is missing, and leaves the rest of the
      path as it was, or all of it missing. */
  lemma DescendCost(s: Pages, t: nat, l: nat, va: nat, leaf: nat, p: Perms)
    requires Inv(s) && 1 <= leaf < l <= 4 && t in s.tables && t in s.level && s.level[t] == l
    requires ClearPath(s, t, l, va, leaf)
    ensures Descend(s, t, Idx(l, va), p).None? <==> !s.tables[t][Idx(l, va)].present && FreeFrames(s) == 0
    ensures Descend(s, t, Idx(l, va), p).Some? ==>
              var s1 := Descend(s, t, Idx(l, va), p).value; var taken := if s.tables[t][Idx(l, va)].present then 0 else 1;
              && t in s1.tables && s1.tables[t][Idx(l, va)].present
              && FreeFrames(s1) == FreeFrames(s) - taken
              && Missing(s1.tables, s1.tables[t][Idx(l, va)].ppn, l - 1, va, leaf) ==
                 Missing(s.tables, t, l, va, leaf) - taken
  {
    var i := Idx(l, va);
    assert SlotAt(s, t, i) && TableAt(s, t);
    AllocRuns.OneTaken(s.mem);
    if s.tables[t][i].present {
      var s1 := Descend(s, t, i, p).value;
      var k := l - 1;
      forall v: nat
        ensures AgreeAt(s, s1, k, v)
      {
      }
      MissingBelow(s, s1, s.tables[t][i].ppn, l - 1, va, leaf);
    } else if FreeFrames(s) > 0 {
      TableFrame(s);
    }
  }

  lemma NoneMissing(tables: map<nat, Table>, t: nat, l: nat, va: nat, leaf: nat)
    requires l <= leaf && l <= 4
    ensures Missing(tables, t, l, va, leaf) == 0
  {
  }

  lemma MissingNext(tables: map<nat, Table>, t: nat, l: nat, va: nat, leaf: nat)
    requires leaf < l && 1 <= l <= 4 && t in tables && tables[t][Idx(l, va)].present
    ensures Missing(tables, t, l, va, leaf) == Missing(tables, tables[t][Idx(l, va)].ppn, l - 1, va, leaf)
  {
  }

  lemma AllMissing(tables: map<nat, Table>, t: nat, l: nat, va: nat, leaf: nat)
    requires leaf < l && 1 <= l <= 4 && t in tables && !tables[t][Idx(l, va)].present
    ensures Missing(tables, t, l, va, leaf) == l - leaf
  {
  }

  /** Building succeeds exactly when every missing table finds a frame. It takes one frame for each,
      or all there are; what is still missing afterwards is what found none. */
  lemma {:induction false} BuildCost(s: Pages, t: nat, l: nat, va: nat, leaf: nat, p: Perms)
    requires Inv(s) && 1 <= leaf <= l <= 4 && t in s.tables && t in s.level && s.level[t] == l
    requires ClearPath(s, t, l, va, leaf)
    ensures var (s', o) := Build(s, t, l, va, leaf, p); var n := Missing(s.tables, t, l, va, leaf);
            && (o.Some? <==> n <= FreeFrames(s))
            && FreeFrames(s') == FreeFrames(s) - Least(n, FreeFrames(s))
            && Missing(s'.tables, t, l, va, leaf) == n - Least(n, FreeFrames(s))
    decreases l
  {
    hide Idx, Descend, ShapeOk, Missing, FreeFrames;
    if l == leaf {
      NoneMissing(s.tables, t, l, va, leaf);
    } else {
      var i := Idx(l, va);
      DescendCost(s, t, l, va, leaf, p);
      if Descend(s, t, i, p).Some? {
        var s1 := Descend(s, t, i, p).value;
        DescendKeeps(s, t, i, p);
        DescendClear(s, t, l, va, leaf, p);
        var c := s1.tables[t][i].ppn;
        BuildCost(s1, c, l - 1, va, leaf, p);
        BuildKeeps(s1, c, l - 1, va, leaf, p);
        var s' := Build(s, t, l, va, leaf, p).0;
        assert KeptAt(s1, s', c, l - 1, t);
        MissingNext(s'.tables, t, l, va, leaf);
      } else {
        AllMissing(s.tables, t, l, va, leaf);
      }
    }
  }

  /** A mapping call succeeds exactly when the tables missing on its path number no more than the
      free frames; it takes exactly that many, and otherwise all there are. */
  lemma InsertSucceedsIff(s: Pages, r: nat, va: nat, leaf: nat, ppn: nat, p: Perms)
    requires Inv(s) && IsRoot(s, r) && 1 <= leaf <= 3 && ClearPath(s, r, 4, va, leaf)
    ensures var (s', ok) := Insert(s, r, va, leaf, ppn, p); var n := Missing(s.tables, r, 4, va, leaf);
            && (ok <==> n <= FreeFrames(s))
            && FreeFrames(s') == FreeFrames(s) - Least(n, FreeFrames(s))
            && (!ok ==> NoFrameFor(s', r, va, leaf))
  {
    BuildCost(s, r, 4, va, leaf, p);
  }

  /** Why a call fails: tables are missing for the page, and no frame is free. */
  predicate NoFrameFor(s: Pages, r: nat, va: nat, leaf: nat) {
    FreeFrames(s) == 0 && Missing(s.tables, r, 4, va, leaf) > 0
  }

  /** A page that is mapped already, with this size or a smaller one, is never refused. */
  lemma NothingMissing(s: Pages, r: nat, va: nat, leaf: nat)
    requires Inv(s) && IsRoot(s, r) && 1 <= leaf <= 3 && Translate(s, r, va).Some? && Translate(s, r, va).value.level <= leaf
    ensures Missing(s.tables, r, 4, va, leaf) == 0
  {
    NothingMissingBelow(s.tables, r, 4, va, leaf);
  }

  lemma {:induction false} NothingMissingBelow(tables: map<nat, Table>, t: nat, l: nat, va: nat, leaf: nat)
    requires l <= 4 && Walk(tables, t, l, va).Some? && Walk(tables, t, l, va).value.level <= leaf
    ensures Missing(tables, t, l, va, leaf) == 0
    decreases l
  {
    if l > leaf {
      NothingMissingBelow(tables, tables[t][Idx(l, va)].ppn, l - 1, va, leaf);
    }
  }

  /** An address in an empty address space needs a table for each level below the root's. */
  lemma EmptyNeedsAll(tables: map<nat, Table>, r: nat, va: nat, leaf: nat)
    requires 1 <= leaf <= 3 && r in tables && tables[r] == ZERO_TABLE
    ensures Missing(tables, r, 4, va, leaf) == 4 - leaf
  {
  }
}
