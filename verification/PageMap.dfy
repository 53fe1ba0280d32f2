/** What a mapping call does to translations: exactly the addresses of its page change. */
module PageMap {
  import opened Runs
  import opened PageSpec

  /** `page_in` on values: build down to the leaf's table, then write the leaf. The flag is
      false when a table could not be allocated. */
  ghost function Insert(s: Pages, root: nat, va: nat, leaf: nat, ppn: nat, p: Perms): (r: (Pages, bool))
    requires Inv(s) && IsRoot(s, root) && 1 <= leaf <= 3 && ClearPath(s, root, 4, va, leaf)
  {
    BuildKeeps(s, root, 4, va, leaf, p);
    var (s1, o) := Build(s, root, 4, va, leaf, p);
    match o
    case None => (s1, false)
    case Some(t) => (Put(s1, t, Idx(leaf, va), LeafEntry(s1.tables[t][Idx(leaf, va)], leaf, ppn, p)), true)
  }

  predicate IsRoot(s: Pages, r: nat) { r in s.tables && r in s.level && s.level[r] == 4 }

  /** The translation of an address in the address space of a root. */
  function Translate(s: Pages, r: nat, va: nat): Option<Leaf> { Walk(s.tables, r, 4, va) }

  /** Two roots lead to the same level-3 table at index i. */
  predicate Shares(s: Pages, r: nat, r': nat, i: nat) {
    Points(s, r, i) && Points(s, r', i) && s.tables[r][i].ppn == s.tables[r'][i].ppn
  }

  /** A translation that ends at this level, with this frame and exactly these rights. */
  predicate LeafSays(o: Option<Leaf>, leaf: nat, ppn: nat, p: Perms) {
    && o.Some? && o.value.level == leaf && o.value.entry.ppn == ppn
    && o.value.entry.user == p.user && o.value.entry.writeable == p.writeable
    && o.value.entry.writeThrough == p.writeThrough && o.value.entry.cacheDisabled == p.cacheDisabled
    && o.value.entry.executionDisabled == p.executionDisabled
    && (leaf == 1 ==> !o.value.entry.accessed && !o.value.entry.dirty)
  }

  // ---------------------------------------------------------------- writing the leaf

  /** Overwriting one entry of a table of level l with a leaf. */
  lemma LeafKeeps(s: Pages, t: nat, i: nat, e: Entry)
    requires Inv(s) && t in s.tables && t in s.level && s.level[t] <= 3 && i < 512
    requires e.present && IsLeaf(s.level[t], e)
    ensures Inv(Put(s, t, i, e))
  {
    var s' := Put(s, t, i, e);
    SameMem(s, s');
    LeafShape(s, s', t, i, e);
  }

  lemma LeafShape(s: Pages, s': Pages, t: nat, i: nat, e: Entry)
    requires ShapeOk(s) && t in s.tables && t in s.level && s.level[t] <= 3 && i < 512
    requires e.present && IsLeaf(s.level[t], e) && s' == Put(s, t, i, e)
    ensures ShapeOk(s')
  {
    forall u: nat
      ensures TableAt(s', u)
    {
      assert TableAt(s, u);
    }
    forall u: nat, j: nat
      ensures SlotAt(s', u, j)
    {
      assert SlotAt(s, u, j);
    }
    forall u: nat, j: nat, v: nat, k: nat
      ensures UnaliasedAt(s', u, j, v, k)
    {
      assert UnaliasedAt(s, u, j, v, k);
    }
  }

  /** After a leaf is written at (t, i), a walk gives it exactly when it comes through that entry. */
  lemma {:induction false} LeafWalk(s: Pages, t: nat, i: nat, e: Entry, u: nat, m: nat, va: nat)
    requires Inv(s) && t in s.tables && t in s.level && s.level[t] <= 3 && i < 512
    requires e.present && IsLeaf(s.level[t], e)
    requires u in s.tables && u in s.level && s.level[u] == m && m <= 4
    ensures var l := s.level[t];
            Walk(Put(s, t, i, e).tables, u, m, va) ==
            if Reaches(s.tables, u, m, va, t, l) && 1 <= l && Idx(l, va) == i then Some(Leaf(e, l))
            else Walk(s.tables, u, m, va)
    decreases m
  {
    assert TableAt(s, t) && TableAt(s, u) && SlotAt(s, u, Idx(m, va));
    var f := s.tables[u][Idx(m, va)];
    if !(u == t && Idx(m, va) == i) && f.present && !IsLeaf(m, f) {
      LeafWalk(s, t, i, e, f.ppn, m - 1, va);
    }
  }

  // ---------------------------------------------------------------- one path only

  /** Equal indices from level l up to level m. */
  predicate SameIdx(l: nat, m: nat, va: nat, va': nat)
    requires 1 <= l && m <= 4
    decreases m
  {
    m < l || (Idx(m, va) == Idx(m, va') && SameIdx(l, m - 1, va, va'))
  }

  lemma SameIdxPage(l: nat, va: nat, va': nat)
    requires 1 <= l <= 4
    ensures SameIdx(l, 4, va, va') <==> SamePage(l, va, va')
  {
    assert SameIdx(l, 4, va, va') == (Idx(4, va) == Idx(4, va') && SameIdx(l, 3, va, va'));
    assert SameIdx(l, 3, va, va') == (3 < l || (Idx(3, va) == Idx(3, va') && SameIdx(l, 2, va, va')));
    assert SameIdx(l, 2, va, va') == (2 < l || (Idx(2, va) == Idx(2, va') && SameIdx(l, 1, va, va')));
  }

  /** Below the roots, a table is reached by one path from one table of each level. */
  lemma {:induction false} ReachUnique(s: Pages, u: nat, u': nat, m: nat, va: nat, va': nat, t: nat, l: nat)
    requires Inv(s) && 1 <= l <= m <= 3
    requires u in s.tables && u in s.level && s.level[u] == m
    requires u' in s.tables && u' in s.level && s.level[u'] == m
    requires Reaches(s.tables, u, m, va, t, l) && Reaches(s.tables, u', m, va', t, l)
    ensures u == u' && SameIdx(l + 1, m, va, va')
    decreases m
  {
    if m > l {
      var i, i' := Idx(m, va), Idx(m, va');
      assert SlotAt(s, u, i) && SlotAt(s, u', i') && UnaliasedAt(s, u, i, u', i');
      ReachUnique(s, s.tables[u][i].ppn, s.tables[u'][i'].ppn, m - 1, va, va', t, l);
    }
  }

  /** Two address spaces arrive at the same table exactly when the addresses agree above it and
      the roots are the same or share the level-3 table. */
  lemma ReachIff(s: Pages, r: nat, r': nat, va: nat, va': nat, t: nat, l: nat)
    requires Inv(s) && IsRoot(s, r) && IsRoot(s, r') && 1 <= l <= 3
    requires Reaches(s.tables, r, 4, va, t, l)
    ensures Reaches(s.tables, r', 4, va', t, l) <==>
            SameIdx(l + 1, 4, va, va') && (r' == r || Shares(s, r, r', Idx(4, va)))
  {
    var i, i' := Idx(4, va), Idx(4, va');
    var c, c' := s.tables[r][i].ppn, s.tables[r'][i'].ppn;
    assert SlotAt(s, r, i) && SlotAt(s, r', i') && UnaliasedAt(s, r, i, r', i');
    if Reaches(s.tables, r', 4, va', t, l) {
      ReachUnique(s, c, c', 3, va, va', t, l);
    }
    if SameIdx(l + 1, 4, va, va') && (r' == r || Shares(s, r, r', i)) {
      ReachSame(s.tables, c, 3, va, va', t, l);
    }
  }

  lemma {:induction false} ReachSame(tables: map<nat, Table>, u: nat, m: nat, va: nat, va': nat, t: nat, l: nat)
    requires 1 <= l <= m <= 3 && SameIdx(l + 1, m, va, va') && Reaches(tables, u, m, va, t, l)
    ensures Reaches(tables, u, m, va', t, l)
    decreases m
  {
    if m > l {
      ReachSame(tables, tables[u][Idx(m, va)].ppn, m - 1, va, va', t, l);
    }
  }

  // ---------------------------------------------------------------- the call

  /** Building below r shares its level-3 table with no root that did not share it before. */
  lemma BuildShares(s: Pages, r: nat, va: nat, leaf: nat, p: Perms, r': nat)
    requires Inv(s) && IsRoot(s, r) && IsRoot(s, r') && 1 <= leaf <= 3 && ClearPath(s, r, 4, va, leaf)
    requires r' != r
    ensures var s1 := Build(s, r, 4, va, leaf, p).0;
            IsRoot(s1, r') && (Shares(s1, r, r', Idx(4, va)) <==> Shares(s, r, r', Idx(4, va)))
  {
    var i := Idx(4, va);
    if Descend(s, r, i, p).Some? {
      var s0 := Descend(s, r, i, p).value;
      var s1 := Build(s, r, 4, va, leaf, p).0;
      DescendKeeps(s, r, i, p);
      DescendClear(s, r, 4, va, leaf, p);
      DescendKept(s, r, i, p, r');
      var c := s0.tables[r][i].ppn;
      BuildKeeps(s0, c, 3, va, leaf, p);
      assert KeptAt(s0, s1, c, 3, r) && KeptAt(s0, s1, c, 3, r');
      assert SlotAt(s, r', i);
      if !s.tables[r][i].present {
        TableFrame(s);
      }
    }
  }

  /** A mapping call keeps the shape. If it succeeds, the addresses of its page translate to its
      leaf, in this address space and in those that share its level-3 table, and every other
      translation is as before; if it fails, all are. */
  lemma InsertTranslates(s: Pages, r: nat, va: nat, leaf: nat, ppn: nat, p: Perms, r': nat, va': nat)
    requires Inv(s) && IsRoot(s, r) && IsRoot(s, r') && 1 <= leaf <= 3 && ClearPath(s, r, 4, va, leaf)
    ensures var (s', ok) := Insert(s, r, va, leaf, ppn, p);
            && Inv(s') && IsRoot(s', r')
            && (if ok && SamePage(leaf, va, va') && (r' == r || Shares(s, r, r', Idx(4, va)))
                then LeafSays(Translate(s', r', va'), leaf, ppn, p)
                else Translate(s', r', va') == Translate(s, r', va'))
  {
    hide Build, Points, SamePage, ClearPath, Walk, Inv, Reaches, Idx, Shares;
    BuildKeeps(s, r, 4, va, leaf, p);
    var (s1, o) := Build(s, r, 4, va, leaf, p);
    assert KeptAt(s, s1, r, 4, r') && KeptAt(s, s1, r, 4, r) && SameWalkAt(s, s1, r', va');
    if o.Some? {
      var t := o.value;
      var e := s1.tables[t][Idx(leaf, va)];
      if r' != r {
        BuildShares(s, r, va, leaf, p, r');
      }
      LeafTranslates(s1, r, va, leaf, t, LeafEntry(e, leaf, ppn, p), r', va');
    }
  }

  /** Writing the leaf at the end of va's path. */
  lemma LeafTranslates(s: Pages, r: nat, va: nat, leaf: nat, t: nat, e: Entry, r': nat, va': nat)
    requires Inv(s) && IsRoot(s, r) && IsRoot(s, r') && 1 <= leaf <= 3
    requires t in s.tables && t in s.level && s.level[t] == leaf && Reaches(s.tables, r, 4, va, t, leaf)
    requires e.present && IsLeaf(leaf, e)
    ensures var s' := Put(s, t, Idx(leaf, va), e);
            && Inv(s') && IsRoot(s', r')
            && Translate(s', r', va') ==
               if SamePage(leaf, va, va') && (r' == r || Shares(s, r, r', Idx(4, va))) then Some(Leaf(e, leaf))
               else Translate(s, r', va')
  {
    var i := Idx(leaf, va);
    LeafKeeps(s, t, i, e);
    LeafWalk(s, t, i, e, r', 4, va');
    ReachIff(s, r, r', va, va', t, leaf);
    SameIdxSplit(leaf, va, va');
    SameIdxPage(leaf, va, va');
  }

  lemma SameIdxSplit(l: nat, va: nat, va': nat)
    requires 1 <= l <= 3
    ensures SameIdx(l, 4, va, va') <==> SameIdx(l + 1, 4, va, va') && Idx(l, va) == Idx(l, va')
  {
    SameIdxPage(l, va, va');
    SameIdxPage(l + 1, va, va');
  }
}
