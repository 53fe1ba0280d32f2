/** Entry by entry, what a mapping call writes: the leaf, and the entries that lead to it. */
module PageEntries {
  import opened Runs
  import opened PageSpec
  import opened PageMap

  /** The entry was passed on the way down: user and write access are granted if the call asks for
      them and never taken away, and nothing else changes; an absent entry now leads to a table. */
  predicate Passed(e: Entry, e': Entry, p: Perms) {
    && e'.present && e'.user == (e.user || p.user) && e'.writeable == (e.writeable || p.writeable)
    && e'.writeThrough == e.writeThrough && e'.cacheDisabled == e.cacheDisabled
    && e'.executionDisabled == e.executionDisabled && e'.accessed == e.accessed && e'.dirty == e.dirty
    && e'.huge == e.huge && (e.present ==> e'.ppn == e.ppn)
  }

  /** The leaf as written: frame and rights are those asked for, in pages above 4 KiB the processor's
      accessed and dirty bits stay. */
  predicate Leafed(e: Entry, e': Entry, leaf: nat, ppn: nat, p: Perms) {
    && e'.present && e'.ppn == ppn && e'.user == p.user && e'.writeable == p.writeable
    && e'.writeThrough == p.writeThrough && e'.cacheDisabled == p.cacheDisabled
    && e'.executionDisabled == p.executionDisabled
    && (if leaf == 1 then !e'.accessed && !e'.dirty && e'.huge == e.huge
        else e'.huge && e'.accessed == e.accessed && e'.dirty == e.dirty)
  }

  /** The table at frame u before the call; one that the call adds starts all zero. */
  function Before(s: Pages, u: nat): Table { if u in s.tables then s.tables[u] else ZERO_TABLE }

  /** Entry j of table u is the one that va's path from table t of level l goes through. */
  predicate OnPath(s: Pages, t: nat, l: nat, va: nat, u: nat, j: nat)
    requires l <= 4
  {
    u in s.level && 1 <= s.level[u] <= 4 && Reaches(s.tables, t, l, va, u, s.level[u]) && j == Idx(s.level[u], va)
  }

  lemma DescendEntries(s: Pages, t: nat, i: nat, p: Perms, u: nat, j: nat)
    requires Inv(s) && t in s.tables && t in s.level && 2 <= s.level[t] && i < 512 && j < 512
    requires Descend(s, t, i, p).Some? && u in Descend(s, t, i, p).value.tables
    ensures var e, e' := Before(s, u)[j], Descend(s, t, i, p).value.tables[u][j];
            if u == t && j == i then Passed(e, e', p) else e' == e
  {
    assert SlotAt(s, t, i);
    if !s.tables[t][i].present {
      TableFrame(s);
    }
  }

  /** Building writes only entries on the path above the leaf's level, and all of them if it gets
      there. */
  lemma {:induction false} BuildEntries(s: Pages, t: nat, l: nat, va: nat, leaf: nat, p: Perms, u: nat, j: nat)
    requires Inv(s) && 1 <= leaf <= l <= 4 && t in s.tables && t in s.level && s.level[t] == l
    requires ClearPath(s, t, l, va, leaf) && u in Build(s, t, l, va, leaf, p).0.tables && j < 512
    ensures var (s', o) := Build(s, t, l, va, leaf, p); var e, e' := Before(s, u)[j], s'.tables[u][j];
            && u in s'.level
            && (e' == e || (OnPath(s', t, l, va, u, j) && s'.level[u] > leaf && Passed(e, e', p)))
            && (o.Some? && OnPath(s', t, l, va, u, j) && s'.level[u] > leaf ==> Passed(e, e', p))
    decreases l
  {
    hide Idx, Descend, ShapeOk, Passed;
    var i := Idx(l, va);
    BuildKeeps(s, t, l, va, leaf, p);
    var (s', o) := Build(s, t, l, va, leaf, p);
    TablesHaveLevels(s', u);
    if l > leaf && Descend(s, t, i, p).Some? {
      var s1 := Descend(s, t, i, p).value;
      DescendKeeps(s, t, i, p);
      DescendClear(s, t, l, va, leaf, p);
      var c := s1.tables[t][i].ppn;
      BuildKeeps(s1, c, l - 1, va, leaf, p);
      assert KeptAt(s1, s', c, l - 1, t) && KeptAt(s1, s', c, l - 1, c);
      BuildEntries(s1, c, l - 1, va, leaf, p, u, j);
      PathStep(s', t, l, va, u, j);
      if u in s1.tables {
        DescendEntries(s, t, i, p, u, j);
        assert u == t ==> s'.tables[t] == s1.tables[t];
      } else {
        NoNewTable(s, t, i, p, u);
      }
    }
  }

  lemma TablesHaveLevels(s: Pages, u: nat)
    requires Inv(s) && u in s.tables
    ensures u in s.level && 1 <= s.level[u] <= 4
  {
    assert TableAt(s, u);
  }

  lemma NoNewTable(s: Pages, t: nat, i: nat, p: Perms, u: nat)
    requires Inv(s) && t in s.tables && t in s.level && 2 <= s.level[t] && i < 512
    requires Descend(s, t, i, p).Some? && u !in Descend(s, t, i, p).value.tables
    ensures u !in s.tables
  {
  }

  /** A path from t goes through t's entry, and then along the path from the table that leads to. */
  lemma PathStep(s: Pages, t: nat, l: nat, va: nat, u: nat, j: nat)
    requires 1 <= l <= 4 && t in s.tables && t in s.level && s.level[t] == l && Points(s, t, Idx(l, va))
    requires u in s.level && 1 <= s.level[u] <= 4
    requires s.tables[t][Idx(l, va)].ppn in s.level && s.level[s.tables[t][Idx(l, va)].ppn] == l - 1
    ensures OnPath(s, t, l, va, u, j) <==>
            (u == t && j == Idx(l, va)) || OnPath(s, s.tables[t][Idx(l, va)].ppn, l - 1, va, u, j)
    ensures OnPath(s, s.tables[t][Idx(l, va)].ppn, l - 1, va, u, j) ==> u != t
  {
  }

  /** A mapping call leaves every entry of every table as it was but for those on its path: the ones
      above the leaf's level are passed, all of them if it succeeds, and the one at the leaf's level
      is then the leaf. */
  lemma InsertEntries(s: Pages, r: nat, va: nat, leaf: nat, ppn: nat, p: Perms, u: nat, j: nat)
    requires Inv(s) && IsRoot(s, r) && 1 <= leaf <= 3 && ClearPath(s, r, 4, va, leaf)
    requires u in Insert(s, r, va, leaf, ppn, p).0.tables && j < 512
    ensures var (s', ok) := Insert(s, r, va, leaf, ppn, p); var e, e' := Before(s, u)[j], s'.tables[u][j];
            && u in s'.level
            && (if !OnPath(s', r, 4, va, u, j) || s'.level[u] < leaf then e' == e
                else if s'.level[u] > leaf then Passed(e, e', p) || (!ok && e' == e)
                else if ok then Leafed(e, e', leaf, ppn, p) else e' == e)
  {
    hide Idx, Passed, OnPath, Inv, Build, ClearPath, Reaches, LeafEntry, Leafed;
    BuildKeeps(s, r, 4, va, leaf, p);
    var (s1, o) := Build(s, r, 4, va, leaf, p);
    BuildEntries(s, r, 4, va, leaf, p, u, j);
    TablesHaveLevels(s1, u);
    if o.Some? {
      assert KeptAt(s, s1, r, 4, r);
      var e := s1.tables[o.value][Idx(leaf, va)];
      LeafIs(e, leaf, ppn, p);
      LeafOnPath(s1, r, va, leaf, o.value, LeafEntry(e, leaf, ppn, p), u, j);
    }
  }

  lemma LeafIs(e: Entry, leaf: nat, ppn: nat, p: Perms)
    requires 1 <= leaf <= 3
    ensures var e' := LeafEntry(e, leaf, ppn, p); e'.present && IsLeaf(leaf, e') && Leafed(e, e', leaf, ppn, p)
  {
  }

  /** The leaf's entry is the path's entry of its level, and writing it moves no path. */
  lemma LeafOnPath(s1: Pages, r: nat, va: nat, leaf: nat, t: nat, e: Entry, u: nat, j: nat)
    requires Inv(s1) && IsRoot(s1, r) && 1 <= leaf <= 3 && t in s1.tables && t in s1.level && s1.level[t] == leaf
    requires Reaches(s1.tables, r, 4, va, t, leaf) && e.present && IsLeaf(leaf, e) && u in s1.tables && j < 512
    ensures var s' := Put(s1, t, Idx(leaf, va), e);
            && (OnPath(s', r, 4, va, u, j) && s1.level[u] >= leaf <==> OnPath(s1, r, 4, va, u, j) && s1.level[u] >= leaf)
            && (OnPath(s1, r, 4, va, u, j) && s1.level[u] == leaf <==> u == t && j == Idx(leaf, va))
  {
    TablesHaveLevels(s1, u);
    var l := s1.level[u];
    if l >= leaf {
      ReachKept(s1, t, Idx(leaf, va), e, r, 4, va, u, l);
    }
    if l == leaf && Reaches(s1.tables, r, 4, va, u, l) {
      ReachOne(s1.tables, r, 4, va, u, t, l);
    }
  }

  lemma {:induction false} ReachOne(tables: map<nat, Table>, v: nat, m: nat, va: nat, u: nat, t: nat, l: nat)
    requires m <= 4 && Reaches(tables, v, m, va, u, l) && Reaches(tables, v, m, va, t, l)
    ensures u == t
    decreases m
  {
    if m > l {
      ReachOne(tables, tables[v][Idx(m, va)].ppn, m - 1, va, u, t, l);
    }
  }

  /** Writing an entry of a table of level k leaves what is reached at level k or above. */
  lemma {:induction false} ReachKept(s: Pages, t: nat, i: nat, e: Entry, v: nat, m: nat, va: nat, u: nat, l: nat)
    requires Inv(s) && t in s.tables && t in s.level && i < 512 && v in s.tables && v in s.level
    requires s.level[v] == m <= 4 && s.level[t] <= l
    ensures Reaches(Put(s, t, i, e).tables, v, m, va, u, l) <==> Reaches(s.tables, v, m, va, u, l)
    decreases m
  {
    if m > l {
      assert TableAt(s, v) && SlotAt(s, v, Idx(m, va));
      var f := s.tables[v][Idx(m, va)];
      if f.present && !IsLeaf(m, f) {
        ReachKept(s, t, i, e, f.ppn, m - 1, va, u, l);
      }
    }
  }
}
