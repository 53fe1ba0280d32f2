/** Consecutive pages, several address spaces, and copies of an address space. */
module PageRuns {
  import opened Runs
  import opened Frames
  import opened PageSpec
  import opened PageMap
  import opened PagePerms

  // ---------------------------------------------------------------- consecutive pages

  /** A stretch of addresses inside one canonical half. */
  predicate CanonicalStretch(va: nat, n: nat) {
    va + n <= 0x8000_0000_0000 || (0xFFFF_8000_0000_0000 <= va && va + n <= WORD64)
  }

  /** What `va` translates to once the pages from va0 on, one for each frame number in `ppns`,
      have been mapped: the pages' frames inside the stretch, and what it was outside. */
  ghost predicate FilledAt(s0: Pages, s: Pages, r: nat, va0: nat, leaf: nat, ppns: seq<nat>, p: Perms, va: nat)
    requires 1 <= leaf <= 3
  {
    if va0 <= va < va0 + |ppns| * Span(leaf) then
      (va - va0) / Span(leaf) < |ppns|
      && LeafSays(Translate(s, r, va), leaf, ppns[(va - va0) / Span(leaf)], p)
    else Translate(s, r, va) == Translate(s0, r, va)
  }

  ghost predicate Filled(s0: Pages, s: Pages, r: nat, va0: nat, leaf: nat, ppns: seq<nat>, p: Perms)
    requires 1 <= leaf <= 3
  {
    forall va | Canonical(va) :: FilledAt(s0, s, r, va0, leaf, ppns, p, va)
  }

  lemma FilledNone(s: Pages, r: nat, va0: nat, leaf: nat, p: Perms)
    requires 1 <= leaf <= 3
    ensures Filled(s, s, r, va0, leaf, [], p)
  {
  }

  lemma StretchPages(leaf: nat, va0: nat, n: nat, va: nat)
    requires 1 <= leaf <= 3 && va0 % Span(leaf) == 0
    ensures var cur := va0 + n * Span(leaf);
            && (va / Span(leaf) == cur / Span(leaf) <==> cur <= va < cur + Span(leaf))
            && (va0 <= va < cur ==> (va - va0) / Span(leaf) < n)
            && (cur <= va < cur + Span(leaf) ==> (va - va0) / Span(leaf) == n)
            && va0 + (n + 1) * Span(leaf) == cur + Span(leaf)
  {
    hide Span;
    var q := va0 / Span(leaf);
    InPage(leaf, q, va0);
    PagesAdd(leaf, q, n);
    PagesAdd(leaf, q, n + 1);
    InPage(leaf, q + n, va);
    InPage(leaf, q + n, va0 + n * Span(leaf));
    if va0 <= va {
      InPage(leaf, n, va - va0);
      Within(leaf, n, va - va0);
    }
  }

  /** An address is in page k of a size exactly when it lies between the page's ends. */
  lemma InPage(leaf: nat, k: nat, va: nat)
    requires 1 <= leaf <= 3
    ensures va / Span(leaf) == k <==> k * Span(leaf) <= va < k * Span(leaf) + Span(leaf)
    ensures va % Span(leaf) == 0 && va / Span(leaf) == k ==> va == k * Span(leaf)
  {
    match leaf
    case 1 =>
    case 2 =>
    case 3 =>
  }

  lemma Within(leaf: nat, n: nat, x: nat)
    requires 1 <= leaf <= 3
    ensures x < n * Span(leaf) ==> x / Span(leaf) < n
  {
    match leaf
    case 1 =>
    case 2 =>
    case 3 =>
  }

  lemma PagesAdd(leaf: nat, q: nat, n: nat)
    requires 1 <= leaf <= 3
    ensures (q + n) * Span(leaf) == q * Span(leaf) + n * Span(leaf)
    ensures (n + 1) * Span(leaf) == n * Span(leaf) + Span(leaf)
  {
  }

  /** Mapping the page that follows the stretch extends it; failing to leaves it as it is. */
  lemma FillStep(s0: Pages, s: Pages, r: nat, va0: nat, leaf: nat, ppns: seq<nat>, p: Perms, ppn: nat)
    requires Inv(s) && IsRoot(s, r) && 1 <= leaf <= 3 && va0 % Span(leaf) == 0
    requires CanonicalStretch(va0, (|ppns| + 1) * Span(leaf))
    requires Filled(s0, s, r, va0, leaf, ppns, p)
    requires ClearPath(s, r, 4, va0 + |ppns| * Span(leaf), leaf)
    ensures var (s', ok) := Insert(s, r, va0 + |ppns| * Span(leaf), leaf, ppn, p);
            && Inv(s') && IsRoot(s', r)
            && Filled(s0, s', r, va0, leaf, if ok then ppns + [ppn] else ppns, p)
  {
    var cur := va0 + |ppns| * Span(leaf);
    var (s', ok) := Insert(s, r, cur, leaf, ppn, p);
    var ppns' := if ok then ppns + [ppn] else ppns;
    InsertTranslates(s, r, cur, leaf, ppn, p, r, cur);
    StretchPages(leaf, va0, |ppns|, cur);
    forall va | Canonical(va)
      ensures FilledAt(s0, s', r, va0, leaf, ppns', p, va)
    {
      assert FilledAt(s0, s, r, va0, leaf, ppns, p, va);
      FillStepAt(s0, s, r, va0, leaf, ppns, p, ppn, va);
    }
  }

  lemma FillStepAt(s0: Pages, s: Pages, r: nat, va0: nat, leaf: nat, ppns: seq<nat>, p: Perms, ppn: nat, va: nat)
    requires Inv(s) && IsRoot(s, r) && 1 <= leaf <= 3 && va0 % Span(leaf) == 0
    requires Canonical(va0 + |ppns| * Span(leaf)) && Canonical(va)
    requires FilledAt(s0, s, r, va0, leaf, ppns, p, va)
    requires ClearPath(s, r, 4, va0 + |ppns| * Span(leaf), leaf)
    ensures var (s', ok) := Insert(s, r, va0 + |ppns| * Span(leaf), leaf, ppn, p);
            FilledAt(s0, s', r, va0, leaf, if ok then ppns + [ppn] else ppns, p, va)
  {
    hide Insert, Inv, LeafSays, Translate, SamePage, Canonical, ClearPath, IsRoot, Shares, Span;
    var cur := va0 + |ppns| * Span(leaf);
    InsertTranslates(s, r, cur, leaf, ppn, p, r, va);
    SamePageIff(leaf, cur, va);
    StretchPages(leaf, va0, |ppns|, va);
  }

  /** An address that translates to nothing, or to a leaf no larger, has a clear path. */
  lemma {:induction false} UnmappedIsClear(s: Pages, t: nat, l: nat, va: nat, leaf: nat)
    requires l <= 4 && 1 <= leaf
    requires var w := Walk(s.tables, t, l, va); w == None || w.value.level <= leaf
    ensures ClearPath(s, t, l, va, leaf)
    decreases l
  {
    if l > leaf && t in s.tables {
      var e := s.tables[t][Idx(l, va)];
      if e.present && !IsLeaf(l, e) {
        UnmappedIsClear(s, e.ppn, l - 1, va, leaf);
      }
    }
  }

  // ---------------------------------------------------------------- several address spaces

  /** A mapping call through r changes neither which roots there are nor which of them share. */
  lemma InsertShares(s: Pages, r: nat, va: nat, leaf: nat, ppn: nat, p: Perms, a: nat, b: nat, j: nat)
    requires Inv(s) && IsRoot(s, r) && IsRoot(s, a) && IsRoot(s, b) && a != b && j < 512
    requires 1 <= leaf <= 3 && ClearPath(s, r, 4, va, leaf)
    ensures var s' := Insert(s, r, va, leaf, ppn, p).0;
            IsRoot(s', a) && IsRoot(s', b) && (Shares(s', a, b, j) <==> Shares(s, a, b, j))
  {
    hide Build, ClearPath, Inv, Idx;
    var i := Idx(4, va);
    BuildKeeps(s, r, 4, va, leaf, p);
    var (s1, o) := Build(s, r, 4, va, leaf, p);
    assert KeptAt(s, s1, r, 4, a) && KeptAt(s, s1, r, 4, b);
    RootEntries(s, r, va, leaf, p, j);
    if j == i {
      if a == r {
        BuildShares(s, r, va, leaf, p, b);
      } else if b == r {
        BuildShares(s, r, va, leaf, p, a);
      }
    }
  }

  /** Of a root's entries a build touches only the one on its path. */
  lemma RootEntries(s: Pages, r: nat, va: nat, leaf: nat, p: Perms, j: nat)
    requires Inv(s) && IsRoot(s, r) && 1 <= leaf <= 3 && ClearPath(s, r, 4, va, leaf) && j < 512
    ensures var s1 := Build(s, r, 4, va, leaf, p).0;
            IsRoot(s1, r) && (j != Idx(4, va) ==> s1.tables[r][j] == s.tables[r][j])
  {
    var i := Idx(4, va);
    if Descend(s, r, i, p).Some? {
      var s0 := Descend(s, r, i, p).value;
      DescendKeeps(s, r, i, p);
      DescendClear(s, r, 4, va, leaf, p);
      DescendKept(s, r, i, p, r);
      BuildKeeps(s0, s0.tables[r][i].ppn, 3, va, leaf, p);
      assert KeptAt(s0, Build(s, r, 4, va, leaf, p).0, s0.tables[r][i].ppn, 3, r);
      if j != i {
        DescendEntry(s, r, i, p, j);
      }
    }
  }

  /** In another address space that shares the level-3 table, a mapped page shows the frame, and the
      rights asked for exactly when that space's own entry already allowed them. */
  lemma SharedShowsIff(s: Pages, r: nat, va: nat, leaf: nat, ppn: nat, p: Perms, b: nat, va': nat)
    requires Inv(s) && IsRoot(s, r) && IsRoot(s, b) && b != r && Shares(s, r, b, Idx(4, va)) && PermsOk(s, {r})
    requires 1 <= leaf <= 3 && ClearPath(s, r, 4, va, leaf)
    requires Insert(s, r, va, leaf, ppn, p).1 && SamePage(leaf, va, va')
    ensures var s' := Insert(s, r, va, leaf, ppn, p).0; var own := s.tables[b][Idx(4, va)];
            && Shown(s', b, va') == Some(View(leaf, ppn, Rights(p.writeable && own.writeable, p.user && own.user,
                                                                !p.executionDisabled && !own.executionDisabled)))
            && (Shown(s', b, va') == Some(View(leaf, ppn, Rights(p.writeable, p.user, !p.executionDisabled))) <==>
                Allows(own, p) && (own.executionDisabled ==> p.executionDisabled))
  {
    hide Insert, ClearPath, PermsOk, Inv;
    var s' := Insert(s, r, va, leaf, ppn, p).0;
    InsertTranslates(s, r, va, leaf, ppn, p, b, va');
    InsertTranslates(s, r, va, leaf, ppn, p, r, va');
    InsertPerms(s, {r}, r, va, leaf, ppn, p);
    InsertShares(s, r, va, leaf, ppn, p, r, b, Idx(4, va));
    OtherRootKept(s, r, va, leaf, ppn, p, b);
    BelowRoot(s', r, va');
  }

  /** Of the roots a mapping call writes only its own. */
  lemma OtherRootKept(s: Pages, r: nat, va: nat, leaf: nat, ppn: nat, p: Perms, b: nat)
    requires Inv(s) && IsRoot(s, r) && IsRoot(s, b) && b != r && 1 <= leaf <= 3 && ClearPath(s, r, 4, va, leaf)
    ensures var s' := Insert(s, r, va, leaf, ppn, p).0; b in s'.tables && s'.tables[b] == s.tables[b]
  {
    BuildKeeps(s, r, 4, va, leaf, p);
    assert KeptAt(s, Build(s, r, 4, va, leaf, p).0, r, 4, b);
  }

  /** What a root's entry leads to has the rights its leaf states. */
  lemma BelowRoot(s: Pages, r: nat, va: nat)
    requires Inv(s) && IsRoot(s, r) && PermsOk(s, {r}) && Points(s, r, Idx(4, va))
    ensures var t := s.tables[r][Idx(4, va)].ppn;
            && Translate(s, r, va) == Walk(s.tables, t, 3, va)
            && match Translate(s, r, va)
               case None => Effective(s.tables, t, 3, va) == None
               case Some(l) =>
                 Effective(s.tables, t, 3, va) ==
                 Some(Rights(l.entry.writeable, l.entry.user, !l.entry.executionDisabled))
  {
    assert SlotAt(s, r, Idx(4, va)) && TableAt(s, s.tables[r][Idx(4, va)].ppn);
    RightsAreLeafs(s, {r}, s.tables[r][Idx(4, va)].ppn, 3, va);
  }

  lemma DescendEntry(s: Pages, r: nat, i: nat, p: Perms, j: nat)
    requires Inv(s) && IsRoot(s, r) && i < 512 && j < 512 && j != i && Descend(s, r, i, p).Some?
    ensures r in Descend(s, r, i, p).value.tables && Descend(s, r, i, p).value.tables[r][j] == s.tables[r][j]
  {
    if !s.tables[r][i].present {
      TableFrame(s);
    }
  }

  /** A request to map a page in one of several address spaces. */
  datatype SpaceRequest = SpaceRequest(root: nat, request: Request)

  ghost function ServeIn(s: Pages, q: SpaceRequest): (res: (Pages, bool))
    requires Inv(s) && IsRoot(s, q.root)
    ensures Inv(res.0)
  {
    Serve(s, q.root, q.request)
  }

  lemma RootsStay(s: Pages, q: SpaceRequest, b: nat)
    requires Inv(s) && IsRoot(s, q.root) && IsRoot(s, b)
    ensures IsRoot(ServeIn(s, q).0, b)
  {
    if Allowed(s, q.root, q.request) {
      InsertTranslates(s, q.root, q.request.va, q.request.leaf, q.request.ppn, q.request.perms, b, 0);
    }
  }

  /** The state after requests on any of the address spaces in `roots`. */
  ghost function ServeMany(s: Pages, roots: set<nat>, qs: seq<SpaceRequest>): (s': Pages)
    requires Inv(s) && forall r | r in roots :: IsRoot(s, r)
    requires forall i | 0 <= i < |qs| :: qs[i].root in roots
    ensures Inv(s') && forall r | r in roots :: IsRoot(s', r)
    decreases |qs|
  {
    if |qs| == 0 then s
    else
      var s1 := ServeMany(s, roots, qs[..|qs| - 1]);
      var q := qs[|qs| - 1];
      assert forall r | r in roots :: IsRoot(ServeIn(s1, q).0, r) by {
        forall r | r in roots
          ensures IsRoot(ServeIn(s1, q).0, r)
        {
          RootsStay(s1, q, r);
        }
      }
      ServeIn(s1, q).0
  }

  /** What the latest successful request of address space b itself asked for an address. */
  ghost function LatestOwn(s: Pages, roots: set<nat>, qs: seq<SpaceRequest>, b: nat, va: nat): Option<View>
    requires Inv(s) && forall r | r in roots :: IsRoot(s, r)
    requires forall i | 0 <= i < |qs| :: qs[i].root in roots
    decreases |qs|
  {
    if |qs| == 0 then Shown(s, b, va)
    else
      var before := qs[..|qs| - 1];
      var q := qs[|qs| - 1];
      if q.root == b && ServeIn(ServeMany(s, roots, before), q).1 && SamePage(q.request.leaf, q.request.va, va)
      then
        var p := q.request.perms;
        Some(View(q.request.leaf, q.request.ppn, Rights(p.writeable, p.user, !p.executionDisabled)))
      else LatestOwn(s, roots, before, b, va)
  }

  lemma ServeShares(s: Pages, q: SpaceRequest, a: nat, b: nat, j: nat)
    requires Inv(s) && IsRoot(s, q.root) && IsRoot(s, a) && IsRoot(s, b) && a != b && j < 512
    ensures Shares(ServeIn(s, q).0, a, b, j) <==> Shares(s, a, b, j)
  {
    var c := q.request;
    if Allowed(s, q.root, c) {
      InsertShares(s, q.root, c.va, c.leaf, c.ppn, c.perms, a, b, j);
    }
  }

  /** No other space's request falls in a slot that the space shares with b. */
  ghost predicate Separate(s: Pages, qs: seq<SpaceRequest>, b: nat) {
    forall i | 0 <= i < |qs| && qs[i].root != b :: !Shares(s, qs[i].root, b, Idx(4, qs[i].request.va))
  }

  /** One request of another space, in a slot not shared with b, changes nothing b shows. */
  lemma OtherSpaceShows(s: Pages, r: nat, q: Request, b: nat, va: nat)
    requires Inv(s) && IsRoot(s, r) && IsRoot(s, b) && r != b && Allowed(s, r, q)
    requires PermsOk(s, {b}) && !Shares(s, r, b, Idx(4, q.va))
    ensures var s' := Serve(s, r, q).0;
            IsRoot(s', b) && PermsOk(s', {b}) && Shown(s', b, va) == Shown(s, b, va)
  {
    var s' := Serve(s, r, q).0;
    InsertTranslates(s, r, q.va, q.leaf, q.ppn, q.perms, b, va);
    InsertPerms(s, {b}, r, q.va, q.leaf, q.ppn, q.perms);
    RightsAreLeafs(s, {b}, b, 4, va);
    RightsAreLeafs(s', {b}, b, 4, va);
  }

  /** Isolation over any interleaving: as long as other spaces keep to slots they do not share
      with b, everything b shows is what b's own latest requests asked for. */
  lemma {:induction false} Isolation(s: Pages, roots: set<nat>, qs: seq<SpaceRequest>, b: nat, va: nat)
    requires Inv(s) && forall r | r in roots :: IsRoot(s, r)
    requires forall i | 0 <= i < |qs| :: qs[i].root in roots
    requires b in roots && PermsOk(s, {b}) && Separate(s, qs, b)
    ensures var s' := ServeMany(s, roots, qs);
            && PermsOk(s', {b}) && Shown(s', b, va) == LatestOwn(s, roots, qs, b, va)
            && forall r, j | r in roots && r != b && j < 512 && !Shares(s, r, b, j) :: !Shares(s', r, b, j)
    decreases |qs|
  {
    if |qs| > 0 {
      var before, q := qs[..|qs| - 1], qs[|qs| - 1];
      Isolation(s, roots, before, b, va);
      var s1 := ServeMany(s, roots, before);
      if Allowed(s1, q.root, q.request) {
        if q.root == b {
          InsertShows(s1, b, q.request.va, q.request.leaf, q.request.ppn, q.request.perms, va);
        } else {
          assert qs[|qs| - 1].root != b;
          OtherSpaceShows(s1, q.root, q.request, b, va);
        }
        forall r, j | r in roots && r != b && j < 512 && !Shares(s, r, b, j)
          ensures !Shares(ServeIn(s1, q).0, r, b, j)
        {
          ServeShares(s1, q, r, b, j);
        }
      }
    }
  }
}
