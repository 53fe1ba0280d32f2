/** Four-level page tables as values: translation, insertion, and the shape they keep
    (4-level paging, Intel SDM volume 3A, section 4.5). */
module PageSpec {
  import opened Runs
  import opened Frames
  import opened Alloc

  const WINDOW_FRAMES: nat := 0x8_0000          // frames below 2^31, which the kernel window shows
  const PPN_LIMIT: nat := 0x1000_0000           // page_ppn has 28 bits

  /** One table entry. Levels 3 and 2 use `huge`; only the last level uses `dirty`. */
  datatype Entry = Entry(
    present: bool, writeable: bool, user: bool, writeThrough: bool, cacheDisabled: bool,
    accessed: bool, dirty: bool, huge: bool, ppn: nat, executionDisabled: bool)

  const ZERO: Entry := Entry(false, false, false, false, false, false, false, false, 0, false)

  function ZeroRow(): seq<Entry> { seq(512, _ => ZERO) }

  type Table = t: seq<Entry> | |t| == 512 witness ZeroRow()

  const ZERO_TABLE: Table := ZeroRow()

  /** The permission bits of a request, decoded. */
  datatype Perms = Perms(
    writeable: bool, user: bool, writeThrough: bool, cacheDisabled: bool, executionDisabled: bool)

  predicate PermBit(p: bv64, shift: bv7)
    requires shift <= 63
  {
    (p >> shift) & 1 == 1
  }

  function Decode(p: bv64): Perms {
    Perms(PermBit(p, 1), PermBit(p, 3), PermBit(p, 7), PermBit(p, 15), PermBit(p, 63))
  }

  /** Each right by its mask in the request. */
  lemma RightsByMask(p: bv64)
    ensures Decode(p).writeable <==> p & 0x2 != 0
    ensures Decode(p).user <==> p & 0x8 != 0
    ensures Decode(p).writeThrough <==> p & 0x80 != 0
    ensures Decode(p).cacheDisabled <==> p & 0x8000 != 0
    ensures Decode(p).executionDisabled <==> p & 0x8000_0000_0000_0000 != 0
  {
  }

  /** Tables by frame number, the level each table has, and the frame allocator's map. */
  datatype Pages = Pages(tables: map<nat, Table>, level: map<nat, nat>, mem: Mem)

  // ---------------------------------------------------------------- addresses

  /** Bytes one entry of a level covers. */
  function Span(l: nat): (b: nat)
    requires 1 <= l <= 4
    ensures b > 0
  {
    if l == 1 then 0x1000 else if l == 2 then 0x20_0000 else if l == 3 then 0x4000_0000 else 0x80_0000_0000
  }

  /** VA_PML4_INDEX, VA_PDPT_INDEX, VA_PD_INDEX and VA_PT_INDEX for levels 4, 3, 2 and 1. */
  function Idx(l: nat, va: nat): (i: nat)
    requires 1 <= l <= 4
    ensures i < 512
  {
    va / Span(l) % 512
  }

  /** The two addresses agree in all indices from level l up: no walk that ends at level l or
      above can tell them apart. */
  predicate SamePage(l: nat, va: nat, va': nat)
    requires 1 <= l <= 4
  {
    && Idx(4, va) == Idx(4, va')
    && (l <= 3 ==> Idx(3, va) == Idx(3, va'))
    && (l <= 2 ==> Idx(2, va) == Idx(2, va'))
    && (l <= 1 ==> Idx(1, va) == Idx(1, va'))
  }

  /** Bits 63..47 all equal (VA_IS_CANONICAL_48). */
  predicate Canonical(va: nat) {
    va < 0x8000_0000_0000 || 0xFFFF_8000_0000_0000 <= va < WORD64
  }

  lemma OneDigit(x: nat, hi: nat, d: nat, x': nat, hi': nat, d': nat)
    requires x == 512 * hi + d && x' == 512 * hi' + d' && d < 512 && d' < 512
    ensures x == x' <==> hi == hi' && d == d'
  {
  }

  /** Between canonical addresses, agreeing in the indices is being in the same page. */
  lemma SamePageIff(l: nat, va: nat, va': nat)
    requires 1 <= l <= 4 && Canonical(va) && Canonical(va')
    ensures SamePage(l, va, va') <==> va / Span(l) == va' / Span(l)
  {
    hide Idx, Canonical, Span;
    Digits(va);
    Digits(va');
    CanonicalTop(va);
    CanonicalTop(va');
    var top := 0x1_0000_0000_0000;
    OneDigit(va / Span(4), va / top, Idx(4, va), va' / Span(4), va' / top, Idx(4, va'));
    OneDigit(va / Span(3), va / Span(4), Idx(3, va), va' / Span(3), va' / Span(4), Idx(3, va'));
    OneDigit(va / Span(2), va / Span(3), Idx(2, va), va' / Span(2), va' / Span(3), Idx(2, va'));
    OneDigit(va / Span(1), va / Span(2), Idx(1, va), va' / Span(1), va' / Span(2), Idx(1, va'));
  }

  /** An address in units of one level is the next level up in units, times 512, plus an index. */
  lemma Digits(va: nat)
    ensures va / Span(4) == 512 * (va / 0x1_0000_0000_0000) + Idx(4, va)
    ensures va / Span(3) == 512 * (va / Span(4)) + Idx(3, va)
    ensures va / Span(2) == 512 * (va / Span(3)) + Idx(2, va)
    ensures va / Span(1) == 512 * (va / Span(2)) + Idx(1, va)
  {
    assert va / 0x1_0000_0000_0000 == va / Span(4) / 512;
    assert va / Span(4) == va / Span(3) / 512;
    assert va / Span(3) == va / Span(2) / 512;
    assert va / Span(2) == va / Span(1) / 512;
  }

  /** The level-4 index fixes the bits above it. */
  lemma CanonicalTop(va: nat)
    requires Canonical(va)
    ensures va / 0x1_0000_0000_0000 == (if Idx(4, va) < 256 then 0 else 0xFFFF)
  {
    Digits(va);
  }

  // ---------------------------------------------------------------- walking

  /** An entry of level l that ends a walk. */
  predicate IsLeaf(l: nat, e: Entry) { l == 1 || (l <= 3 && e.huge) }

  datatype Leaf = Leaf(entry: Entry, level: nat)

  /** What the table at frame t, taken at level l, translates an address to. */
  function Walk(tables: map<nat, Table>, t: nat, l: nat, va: nat): (r: Option<Leaf>)
    requires l <= 4
    ensures r.Some? ==> r.value.entry.present && 1 <= r.value.level <= l && IsLeaf(r.value.level, r.value.entry)
    decreases l
  {
    if l == 0 || t !in tables then None
    else
      var e := tables[t][Idx(l, va)];
      if !e.present then None
      else if IsLeaf(l, e) then Some(Leaf(e, l))
      else Walk(tables, e.ppn, l - 1, va)
  }

  /** Walking down non-leaf entries from table u at level m along va arrives at t at level l. */
  predicate Reaches(tables: map<nat, Table>, u: nat, m: nat, va: nat, t: nat, l: nat)
    requires m <= 4
    decreases m
  {
    if m <= l then m == l && u == t
    else
      && u in tables
      && var e := tables[u][Idx(m, va)];
      e.present && !IsLeaf(m, e) && Reaches(tables, e.ppn, m - 1, va, t, l)
  }

  // ---------------------------------------------------------------- shape

  /** Entry i of table t leads to another table. */
  predicate Points(s: Pages, t: nat, i: nat) {
    t in s.tables && t in s.level && i < 512 && s.tables[t][i].present && !IsLeaf(s.level[t], s.tables[t][i])
  }

  ghost predicate TableAt(s: Pages, t: nat) {
    t in s.tables ==> t in s.level && 1 <= s.level[t] <= 4 && t < WINDOW_FRAMES
  }

  /** An absent entry is all zero; one that leads on leads to a table one level down. */
  ghost predicate SlotAt(s: Pages, t: nat, i: nat) {
    t in s.tables && i < 512 ==>
      && (!s.tables[t][i].present ==> s.tables[t][i] == ZERO)
      && (Points(s, t, i) ==>
            var c := s.tables[t][i].ppn; c in s.tables && c in s.level && s.level[c] + 1 == s.level[t])
  }

  /** A table hangs from one entry only. A level-3 table may hang from several level-4 tables,
      since new address spaces copy one, but always at the same index. */
  ghost predicate UnaliasedAt(s: Pages, t: nat, i: nat, u: nat, j: nat) {
    Points(s, t, i) && Points(s, u, j) && s.tables[t][i].ppn == s.tables[u][j].ppn ==>
      i == j && (s.level[t] <= 3 ==> t == u)
  }

  /** A free frame is within the kernel window and is no table. */
  ghost predicate FreeAtOk(s: Pages, f: nat)
    requires Layout(s.mem)
  {
    FrameFree(s.mem, f) ==> f < WINDOW_FRAMES && f !in s.tables
  }

  /** The allocator is sound, and hands out frames that can serve as tables. */
  ghost predicate MemOk(s: Pages) {
    Wf(s.mem) && Small(s.mem) && forall f :: FreeAtOk(s, f)
  }

  ghost predicate ShapeOk(s: Pages) {
    && (forall t :: TableAt(s, t))
    && (forall t, i :: SlotAt(s, t, i))
    && (forall t, i, u, j :: UnaliasedAt(s, t, i, u, j))
  }

  ghost predicate Inv(s: Pages) {
    MemOk(s) && ShapeOk(s)
  }

  lemma SameMem(s: Pages, s': Pages)
    requires MemOk(s) && s'.mem == s.mem && s'.tables.Keys == s.tables.Keys
    ensures MemOk(s')
  {
    forall f
      ensures FreeAtOk(s', f)
    {
      assert FreeAtOk(s, f);
    }
  }

  // ---------------------------------------------------------------- inserting

  /** APPLY_UPPER_PERMS: a one propagates up, a zero clears nothing. */
  function Raise(e: Entry, p: Perms): Entry {
    e.(user := e.user || p.user, writeable := e.writeable || p.writeable)
  }

  /** APPLY_LEAF_PERMS with the rest of the leaf: only the last level clears accessed and dirty. */
  function LeafEntry(e: Entry, l: nat, ppn: nat, p: Perms): Entry {
    Entry(true, p.writeable, p.user, p.writeThrough, p.cacheDisabled, l != 1 && e.accessed, l != 1 && e.dirty,
          l != 1 || e.huge, ppn, p.executionDisabled)
  }

  function Put(s: Pages, t: nat, i: nat, e: Entry): Pages
    requires t in s.tables && i < 512
  {
    s.(tables := s.tables[t := s.tables[t][i := e]])
  }

  /** One step down: a missing table is allocated and zeroed, and the entry's rights raised.
      None when no frame is left. */
  ghost function Descend(s: Pages, t: nat, i: nat, p: Perms): (r: Option<Pages>)
    requires Layout(s.mem) && t in s.tables && t in s.level && s.level[t] >= 1 && i < 512
  {
    var e := s.tables[t][i];
    if e.present then Some(Put(s, t, i, Raise(e, p)))
    else
      var (m, a) := AllocSpec(s.mem, 1);
      if a == FAILED then None
      else
        var f := a / PAGE;
        var s' := Pages(s.tables[f := ZERO_TABLE], s.level[f := s.level[t] - 1], m);
        Some(Put(s', t, i, Raise(e.(ppn := f % PPN_LIMIT, present := true), p)))
  }

  /** Nothing larger than level `leaf` already translates va on the path below t. */
  predicate ClearPath(s: Pages, t: nat, l: nat, va: nat, leaf: nat)
    requires l <= 4
    decreases l
  {
    l <= leaf || t !in s.tables ||
    (var e := s.tables[t][Idx(l, va)];
     !e.present || (!IsLeaf(l, e) && ClearPath(s, e.ppn, l - 1, va, leaf)))
  }

  // ---------------------------------------------------------------- one step down

  /** What a successful allocation of a table frame gives. */
  lemma TableFrame(s: Pages)
    requires Inv(s) && AllocSpec(s.mem, 1).1 != FAILED
    ensures var (m, a) := AllocSpec(s.mem, 1); var f := a / PAGE;
            && Wf(m) && Small(m) && f < WINDOW_FRAMES && f % PPN_LIMIT == f && f !in s.tables
            && forall g :: FrameFree(m, g) <==> FrameFree(s.mem, g) && g != f
  {
    AllocOne(s.mem);
    assert FreeAtOk(s, AllocSpec(s.mem, 1).1 / PAGE);
  }

  lemma DescendKeeps(s: Pages, t: nat, i: nat, p: Perms)
    requires Inv(s) && t in s.tables && t in s.level && 2 <= s.level[t] && i < 512
    requires s.tables[t][i].present ==> !IsLeaf(s.level[t], s.tables[t][i])
    requires Descend(s, t, i, p).Some?
    ensures var s' := Descend(s, t, i, p).value;
            && Inv(s') && Points(s', t, i)
            && t in s'.tables && s'.level[t] == s.level[t]
            && var c := s'.tables[t][i].ppn; c in s'.tables && c in s'.level && s'.level[c] + 1 == s.level[t]
  {
    var e := s.tables[t][i];
    var s' := Descend(s, t, i, p).value;
    assert SlotAt(s, t, i) && TableAt(s, t);
    if e.present {
      RaiseKeeps(s, t, i, p);
    } else {
      TableFrame(s);
      LinkKeeps(s, t, i, p);
    }
  }

  /** Raising rights changes no other bit that the shape depends on. */
  lemma RaisedSlot(s: Pages, t: nat, i: nat, p: Perms, u: nat, j: nat)
    requires Points(s, t, i)
    ensures var s' := Put(s, t, i, Raise(s.tables[t][i], p));
            && (Points(s', u, j) <==> Points(s, u, j))
            && (Points(s, u, j) ==> u in s.tables && u in s.level && j < 512)
            && s'.level == s.level && s'.tables.Keys == s.tables.Keys
            && (u in s.tables && j < 512 ==> s'.tables[u][j].ppn == s.tables[u][j].ppn
                                             && s'.tables[u][j].present == s.tables[u][j].present
                                             && (!s.tables[u][j].present ==> s'.tables[u][j] == s.tables[u][j]))
  {
  }

  lemma RaiseShape(s: Pages, s': Pages, t: nat, i: nat, p: Perms)
    requires ShapeOk(s) && Points(s, t, i) && s' == Put(s, t, i, Raise(s.tables[t][i], p))
    ensures ShapeOk(s')
  {
    hide Put, Raise, Points;
    forall u: nat
      ensures TableAt(s', u)
    {
      RaisedSlot(s, t, i, p, u, 0);
      assert TableAt(s, u);
    }
    forall u: nat, j: nat
      ensures SlotAt(s', u, j)
    {
      RaisedSlot(s, t, i, p, u, j);
      assert SlotAt(s, u, j);
    }
    forall u: nat, j: nat, v: nat, k: nat
      ensures UnaliasedAt(s', u, j, v, k)
    {
      RaisedSlot(s, t, i, p, u, j);
      RaisedSlot(s, t, i, p, v, k);
      assert UnaliasedAt(s, u, j, v, k);
    }
  }

  lemma RaiseKeeps(s: Pages, t: nat, i: nat, p: Perms)
    requires Inv(s) && Points(s, t, i)
    ensures Inv(Put(s, t, i, Raise(s.tables[t][i], p)))
  {
    hide MemOk, ShapeOk;
    var s' := Put(s, t, i, Raise(s.tables[t][i], p));
    SameMem(s, s');
    RaiseShape(s, s', t, i, p);
  }

  lemma LinkMem(s: Pages, s': Pages, f: nat)
    requires Inv(s) && AllocSpec(s.mem, 1).1 != FAILED
    requires s'.mem == AllocSpec(s.mem, 1).0 && f == AllocSpec(s.mem, 1).1 / PAGE
    requires s'.tables.Keys == s.tables.Keys + {f}
    ensures MemOk(s')
  {
    TableFrame(s);
    forall g: nat
      ensures FreeAtOk(s', g)
    {
      assert FreeAtOk(s, g);
    }
  }

  /** Linking an empty table at an unused frame below an absent entry. */
  lemma LinkShape(s: Pages, s': Pages, t: nat, i: nat, f: nat, e: Entry)
    requires ShapeOk(s) && t in s.tables && t in s.level && 2 <= s.level[t] <= 4 && i < 512
    requires !s.tables[t][i].present && f !in s.tables && f < WINDOW_FRAMES
    requires e.present && !e.huge && e.ppn == f
    requires s'.tables == s.tables[f := ZERO_TABLE][t := s.tables[t][i := e]]
    requires s'.level == s.level[f := s.level[t] - 1]
    ensures ShapeOk(s')
  {
    forall u: nat
      ensures TableAt(s', u)
    {
      assert TableAt(s, u);
    }
    forall u: nat, j: nat
      ensures SlotAt(s', u, j)
    {
      assert SlotAt(s, u, j);
    }
    forall u: nat, j: nat, v: nat, k: nat
      ensures UnaliasedAt(s', u, j, v, k)
    {
      assert UnaliasedAt(s, u, j, v, k) && SlotAt(s, u, j) && SlotAt(s, v, k);
    }
  }

  lemma LinkKeeps(s: Pages, t: nat, i: nat, p: Perms)
    requires Inv(s) && t in s.tables && t in s.level && 2 <= s.level[t] <= 4 && i < 512
    requires !s.tables[t][i].present && AllocSpec(s.mem, 1).1 != FAILED
    ensures Descend(s, t, i, p).Some? && Inv(Descend(s, t, i, p).value)
  {
    var s' := Descend(s, t, i, p).value;
    var f := AllocSpec(s.mem, 1).1 / PAGE;
    TableFrame(s);
    assert SlotAt(s, t, i);
    LinkMem(s, s', f);
    LinkShape(s, s', t, i, f, s'.tables[t][i]);
  }

  /** Two states that agree on the tables of levels up to m. */
  ghost predicate AgreeBelow(s: Pages, s': Pages, m: nat) {
    forall v: nat :: AgreeAt(s, s', m, v)
  }

  ghost predicate AgreeAt(s: Pages, s': Pages, m: nat, v: nat) {
    v in s.tables && v in s.level && s.level[v] <= m ==> v in s'.tables && s'.tables[v] == s.tables[v]
  }

  lemma {:induction false} ClearBelow(s: Pages, s': Pages, u: nat, m: nat, va: nat, leaf: nat)
    requires Inv(s) && u in s.tables && u in s.level && s.level[u] == m && m <= 4
    requires AgreeBelow(s, s', m) && ClearPath(s, u, m, va, leaf)
    ensures ClearPath(s', u, m, va, leaf)
    decreases m
  {
    if m > leaf {
      assert AgreeAt(s, s', m, u) && TableAt(s, u) && SlotAt(s, u, Idx(m, va));
      if s.tables[u][Idx(m, va)].present {
        var k := m - 1;
        forall v: nat
          ensures AgreeAt(s, s', k, v)
        {
          assert AgreeAt(s, s', m, v);
        }
        ClearBelow(s, s', s.tables[u][Idx(m, va)].ppn, m - 1, va, leaf);
      }
    }
  }

  lemma DescendClear(s: Pages, t: nat, l: nat, va: nat, leaf: nat, p: Perms)
    requires Inv(s) && 1 <= leaf < l <= 4 && t in s.tables && t in s.level && s.level[t] == l
    requires ClearPath(s, t, l, va, leaf) && Descend(s, t, Idx(l, va), p).Some?
    ensures var s1 := Descend(s, t, Idx(l, va), p).value;
            ClearPath(s1, s1.tables[t][Idx(l, va)].ppn, l - 1, va, leaf)
  {
    var i := Idx(l, va);
    var s1 := Descend(s, t, i, p).value;
    assert SlotAt(s, t, i) && TableAt(s, t);
    if s.tables[t][i].present {
      var k := l - 1;
      forall v: nat
        ensures AgreeAt(s, s1, k, v)
      {
      }
      ClearBelow(s, s1, s.tables[t][i].ppn, l - 1, va, leaf);
    } else {
      TableFrame(s);
    }
  }

  // ---------------------------------------------------------------- building down to a level

  /** Walks down from table t of level l to the table of level `leaf` on va's path, building what
      is missing. None when a table could not be allocated; what was built until then stays. */
  ghost function Build(s: Pages, t: nat, l: nat, va: nat, leaf: nat, p: Perms): (r: (Pages, Option<nat>))
    requires Inv(s) && 1 <= leaf <= l <= 4 && t in s.tables && t in s.level && s.level[t] == l
    requires ClearPath(s, t, l, va, leaf)
    decreases l
  {
    if l == leaf then (s, Some(t))
    else
      var i := Idx(l, va);
      match Descend(s, t, i, p)
      case None => (s, None)
      case Some(s1) =>
        DescendKeeps(s, t, i, p);
        DescendClear(s, t, l, va, leaf, p);
        Build(s1, s1.tables[t][i].ppn, l - 1, va, leaf, p)
  }

  /** Table u stays, at its level; above level l, and beside t at level l, it is untouched. */
  ghost predicate KeptAt(s: Pages, s': Pages, t: nat, l: nat, u: nat) {
    u in s.tables && u in s.level ==>
      && u in s'.tables && u in s'.level && s'.level[u] == s.level[u]
      && (s.level[u] > l || (s.level[u] == l && u != t) ==> s'.tables[u] == s.tables[u])
  }

  /** Table u translates address va as before. */
  ghost predicate SameWalkAt(s: Pages, s': Pages, u: nat, va: nat) {
    u in s.tables && u in s.level && s.level[u] <= 4 ==>
      Walk(s'.tables, u, s.level[u], va) == Walk(s.tables, u, s.level[u], va)
  }

  lemma DescendKept(s: Pages, t: nat, i: nat, p: Perms, u: nat)
    requires Inv(s) && t in s.tables && t in s.level && 2 <= s.level[t] && i < 512
    requires Descend(s, t, i, p).Some?
    ensures KeptAt(s, Descend(s, t, i, p).value, t, s.level[t], u)
    ensures u in s.tables && u != t ==> Descend(s, t, i, p).value.tables[u] == s.tables[u]
  {
    if !s.tables[t][i].present {
      TableFrame(s);
    }
  }

  lemma ZeroWalk(tables: map<nat, Table>, t: nat, l: nat, va: nat)
    requires l <= 4 && t in tables && tables[t] == ZERO_TABLE
    ensures Walk(tables, t, l, va) == None
  {
  }

  /** A step down adds at most an empty table: no translation changes. */
  lemma {:induction false} DescendWalk(s: Pages, t: nat, i: nat, p: Perms, u: nat, va: nat)
    requires Inv(s) && t in s.tables && t in s.level && 2 <= s.level[t] && i < 512
    requires s.tables[t][i].present ==> !IsLeaf(s.level[t], s.tables[t][i])
    requires Descend(s, t, i, p).Some? && u in s.tables && u in s.level
    ensures SameWalkAt(s, Descend(s, t, i, p).value, u, va)
    decreases s.level[u]
  {
    var s' := Descend(s, t, i, p).value;
    var m := s.level[u];
    assert TableAt(s, u) && SlotAt(s, u, Idx(m, va)) && SlotAt(s, t, i) && TableAt(s, t);
    DescendKept(s, t, i, p, u);
    var e := s.tables[u][Idx(m, va)];
    if e.present && !IsLeaf(m, e) {
      DescendWalk(s, t, i, p, e.ppn, va);
    } else if !e.present && u == t && i == Idx(m, va) {
      TableFrame(s);
      ZeroWalk(s'.tables, s'.tables[t][i].ppn, m - 1, va);
    }
  }

  /** Building keeps the shape and every translation, and ends at the table it names. */
  lemma {:induction false} BuildKeeps(s: Pages, t: nat, l: nat, va: nat, leaf: nat, p: Perms)
    requires Inv(s) && 1 <= leaf <= l <= 4 && t in s.tables && t in s.level && s.level[t] == l
    requires ClearPath(s, t, l, va, leaf)
    ensures var (s', o) := Build(s, t, l, va, leaf, p);
            && Inv(s')
            && (forall u :: KeptAt(s, s', t, l, u))
            && (forall u, va' :: SameWalkAt(s, s', u, va'))
            && (o.Some? ==> o.value in s'.tables && o.value in s'.level && s'.level[o.value] == leaf
                            && Reaches(s'.tables, t, l, va, o.value, leaf))
    decreases l
  {
    hide ShapeOk, Idx, Descend;
    var i := Idx(l, va);
    if l > leaf && Descend(s, t, i, p).Some? {
      var s1 := Descend(s, t, i, p).value;
      DescendKeeps(s, t, i, p);
      DescendClear(s, t, l, va, leaf, p);
      var c := s1.tables[t][i].ppn;
      BuildKeeps(s1, c, l - 1, va, leaf, p);
      var s' := Build(s, t, l, va, leaf, p).0;
      forall u: nat
        ensures KeptAt(s, s', t, l, u)
      {
        DescendKept(s, t, i, p, u);
        assert KeptAt(s1, s', c, l - 1, u);
      }
      forall u: nat, va': nat
        ensures SameWalkAt(s, s', u, va')
      {
        if u in s.tables && u in s.level {
          DescendKept(s, t, i, p, u);
          DescendWalk(s, t, i, p, u, va');
          assert SameWalkAt(s1, s', u, va');
        }
      }
      assert KeptAt(s1, s', c, l - 1, t);
    }
  }

  /** Building takes frames from the memory map but changes none of its regions otherwise. */
  lemma {:induction false} BuildMem(s: Pages, t: nat, l: nat, va: nat, leaf: nat, p: Perms)
    requires Inv(s) && 1 <= leaf <= l <= 4 && t in s.tables && t in s.level && s.level[t] == l
    requires ClearPath(s, t, l, va, leaf)
    ensures SameShape(s.mem.regions, Build(s, t, l, va, leaf, p).0.mem.regions)
    decreases l
  {
    var i := Idx(l, va);
    SameShapeRefl(s.mem.regions);
    if l > leaf && Descend(s, t, i, p).Some? {
      var s1 := Descend(s, t, i, p).value;
      DescendKeeps(s, t, i, p);
      DescendClear(s, t, l, va, leaf, p);
      AllocShape(s.mem);
      BuildMem(s1, s1.tables[t][i].ppn, l - 1, va, leaf, p);
      SameShapeTrans(s.mem.regions, s1.mem.regions, Build(s, t, l, va, leaf, p).0.mem.regions);
    }
  }

  lemma AllocShape(m: Mem)
    requires Layout(m)
    ensures SameShape(m.regions, AllocSpec(m, 1).0.regions)
  {
    SameShapeRefl(m.regions);
    if Search(m, 1).Some? {
      var q := Search(m, 1).value;
      var a := PlaceAddr(m.regions[q.region], q.place);
      WriteRangeShape(m, a, a + PAGE, true);
    }
  }
}
