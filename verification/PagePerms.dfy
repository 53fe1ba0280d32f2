/** Access rights: the processor grants what every level of a walk grants, and mapping calls keep
    that equal to what the latest call for the page asked for. */
module PagePerms {
  import opened Runs
  import opened Frames
  import opened Alloc
  import opened PageSpec
  import opened PageMap
  import opened PageCost

  datatype Rights = Rights(writeable: bool, user: bool, executable: bool)

  /** Rights of an address below table t of level l: the AND over the entries of its walk. */
  function Effective(tables: map<nat, Table>, t: nat, l: nat, va: nat): Option<Rights>
    requires l <= 4
    decreases l
  {
    if l == 0 || t !in tables then None
    else
      var e := tables[t][Idx(l, va)];
      if !e.present then None
      else if IsLeaf(l, e) then Some(Rights(e.writeable, e.user, !e.executionDisabled))
      else match Effective(tables, e.ppn, l - 1, va)
        case None => None
        case Some(r) => Some(Rights(e.writeable && r.writeable, e.user && r.user, !e.executionDisabled && r.executable))
  }

  predicate AtMost(e: Entry, f: Entry) { (e.user ==> f.user) && (e.writeable ==> f.writeable) }

  predicate Allows(e: Entry, p: Perms) { (p.user ==> e.user) && (p.writeable ==> e.writeable) }

  // ---------------------------------------------------------------- the invariant

  /** An entry that leads on does not disable execution, and allows at least what entry j of the
      table below it allows. */
  ghost predicate PermAt(s: Pages, t: nat, i: nat, j: nat) {
    Points(s, t, i) ==>
      && !s.tables[t][i].executionDisabled
      && (j < 512 && s.tables[t][i].ppn in s.tables && s.tables[s.tables[t][i].ppn][j].present ==>
            AtMost(s.tables[s.tables[t][i].ppn][j], s.tables[t][i]))
  }

  /** Tables whose entries must allow what is below them: all but the roots outside `roots`. */
  predicate Watched(s: Pages, roots: set<nat>, t: nat) {
    t in s.level && (s.level[t] <= 3 || t in roots)
  }

  ghost predicate WatchedAt(s: Pages, roots: set<nat>, t: nat, i: nat, j: nat) {
    Watched(s, roots, t) ==> PermAt(s, t, i, j)
  }

  ghost predicate PermsOk(s: Pages, roots: set<nat>) {
    forall t, i, j :: WatchedAt(s, roots, t, i, j)
  }

  /** Every watched entry that leads to t allows p. */
  ghost predicate AllowedAt(s: Pages, roots: set<nat>, t: nat, p: Perms, u: nat, j: nat) {
    Watched(s, roots, u) && Points(s, u, j) && s.tables[u][j].ppn == t ==> Allows(s.tables[u][j], p)
  }

  ghost predicate ParentsAllow(s: Pages, roots: set<nat>, t: nat, p: Perms) {
    forall u, j :: AllowedAt(s, roots, t, p, u, j)
  }

  /** Where entries never allow less than what is below them, the rights of an address are the
      rights its leaf states. */
  lemma {:induction false} RightsAreLeafs(s: Pages, roots: set<nat>, u: nat, m: nat, va: nat)
    requires Inv(s) && PermsOk(s, roots) && u in s.tables && Watched(s, roots, u) && s.level[u] == m <= 4
    ensures match Walk(s.tables, u, m, va)
            case None => Effective(s.tables, u, m, va) == None
            case Some(leaf) =>
              && Effective(s.tables, u, m, va) ==
                 Some(Rights(leaf.entry.writeable, leaf.entry.user, !leaf.entry.executionDisabled))
              && AtMost(leaf.entry, s.tables[u][Idx(m, va)])
    decreases m
  {
    assert TableAt(s, u);
    var i := Idx(m, va);
    var e := s.tables[u][i];
    if e.present && !IsLeaf(m, e) {
      assert SlotAt(s, u, i);
      assert WatchedAt(s, roots, u, i, Idx(m - 1, va));
      RightsAreLeafs(s, roots, e.ppn, m - 1, va);
    }
  }

  // ---------------------------------------------------------------- one step down

  lemma RaisePerm(s: Pages, roots: set<nat>, t: nat, i: nat, p: Perms, u: nat, j: nat, k: nat)
    requires Points(s, t, i)
    requires WatchedAt(s, roots, u, j, k) && AllowedAt(s, roots, t, p, u, j)
    ensures WatchedAt(Put(s, t, i, Raise(s.tables[t][i], p)), roots, u, j, k)
  {
    RaisedSlot(s, t, i, p, u, j);
    if Watched(s, roots, u) && Points(s, u, j) && k < 512 && s.tables[u][j].ppn in s.tables {
      var c := s.tables[u][j].ppn;
      RaisedSlot(s, t, i, p, c, k);
      if c == t && k == i {
        assert AtMost(Raise(s.tables[c][k], p), s.tables[u][j]);
      }
    }
  }

  lemma LinkPerm(s: Pages, roots: set<nat>, t: nat, i: nat, p: Perms, u: nat, j: nat, k: nat)
    requires Inv(s) && t in s.tables && t in s.level && 2 <= s.level[t] && i < 512
    requires !s.tables[t][i].present && Descend(s, t, i, p).Some?
    requires WatchedAt(s, roots, u, j, k) && AllowedAt(s, roots, t, p, u, j)
    ensures WatchedAt(Descend(s, t, i, p).value, roots, u, j, k)
  {
    assert SlotAt(s, t, i) && TableAt(s, t) && SlotAt(s, u, j);
    TableFrame(s);
    hide Inv;
  }

  lemma DescendPerms(s: Pages, roots: set<nat>, t: nat, i: nat, p: Perms)
    requires Inv(s) && t in s.tables && t in s.level && 2 <= s.level[t] && i < 512
    requires s.tables[t][i].present ==> !IsLeaf(s.level[t], s.tables[t][i])
    requires Descend(s, t, i, p).Some?
    requires PermsOk(s, roots) && ParentsAllow(s, roots, t, p)
    ensures PermsOk(Descend(s, t, i, p).value, roots)
  {
    var s' := Descend(s, t, i, p).value;
    hide Inv, WatchedAt, AllowedAt;
    forall u: nat, j: nat, k: nat
      ensures WatchedAt(s', roots, u, j, k)
    {
      assert WatchedAt(s, roots, u, j, k) && AllowedAt(s, roots, t, p, u, j);
      if s.tables[t][i].present {
        RaisePerm(s, roots, t, i, p, u, j, k);
      } else {
        LinkPerm(s, roots, t, i, p, u, j, k);
      }
    }
  }

  /** The entry just passed is the only watched one that leads down, apart from roots that share
      its table, which must allow p already. */
  lemma DescendAllows(s: Pages, roots: set<nat>, t: nat, i: nat, p: Perms)
    requires Inv(s) && t in s.tables && t in s.level && 2 <= s.level[t] && i < 512
    requires s.tables[t][i].present ==> !IsLeaf(s.level[t], s.tables[t][i])
    requires Descend(s, t, i, p).Some?
    requires s.level[t] == 4 ==> forall u | u in roots && Shares(s, t, u, i) && u != t :: Allows(s.tables[u][i], p)
    ensures var s' := Descend(s, t, i, p).value; ParentsAllow(s', roots, s'.tables[t][i].ppn, p)
  {
    var s' := Descend(s, t, i, p).value;
    var c := s'.tables[t][i].ppn;
    DescendKeeps(s, t, i, p);
    assert SlotAt(s, t, i) && TableAt(s, t);
    if !s.tables[t][i].present {
      TableFrame(s);
    }
    forall u: nat, j: nat
      ensures AllowedAt(s', roots, c, p, u, j)
    {
      assert UnaliasedAt(s', t, i, u, j) && SlotAt(s', u, j) && SlotAt(s', t, i) && SlotAt(s, u, j);
      DescendKept(s, t, i, p, u);
    }
  }

  lemma {:induction false} BuildPerms(s: Pages, roots: set<nat>, t: nat, l: nat, va: nat, leaf: nat, p: Perms)
    requires Inv(s) && 1 <= leaf <= l <= 4 && t in s.tables && t in s.level && s.level[t] == l
    requires ClearPath(s, t, l, va, leaf)
    requires PermsOk(s, roots) && ParentsAllow(s, roots, t, p)
    requires l == 4 ==>
               forall u | u in roots && Shares(s, t, u, Idx(4, va)) && u != t :: Allows(s.tables[u][Idx(4, va)], p)
    ensures var (s', o) := Build(s, t, l, va, leaf, p);
            PermsOk(s', roots) && (o.Some? ==> ParentsAllow(s', roots, o.value, p))
    decreases l
  {
    var i := Idx(l, va);
    if l > leaf && Descend(s, t, i, p).Some? {
      var s1 := Descend(s, t, i, p).value;
      DescendKeeps(s, t, i, p);
      DescendClear(s, t, l, va, leaf, p);
      DescendPerms(s, roots, t, i, p);
      DescendAllows(s, roots, t, i, p);
      BuildPerms(s1, roots, s1.tables[t][i].ppn, l - 1, va, leaf, p);
    }
  }

  lemma LeafPerms(s: Pages, roots: set<nat>, t: nat, i: nat, leaf: nat, ppn: nat, p: Perms)
    requires Inv(s) && t in s.tables && t in s.level && s.level[t] == leaf && 1 <= leaf <= 3 && i < 512
    requires PermsOk(s, roots) && ParentsAllow(s, roots, t, p)
    ensures PermsOk(Put(s, t, i, LeafEntry(s.tables[t][i], leaf, ppn, p)), roots)
  {
    var s' := Put(s, t, i, LeafEntry(s.tables[t][i], leaf, ppn, p));
    forall u: nat, j: nat, k: nat
      ensures WatchedAt(s', roots, u, j, k)
    {
      assert WatchedAt(s, roots, u, j, k) && AllowedAt(s, roots, t, p, u, j);
    }
  }

  /** Nothing leads to a root. */
  lemma RootsHaveNoParents(s: Pages, roots: set<nat>, r: nat, p: Perms)
    requires Inv(s) && IsRoot(s, r)
    ensures ParentsAllow(s, roots, r, p)
  {
    forall u: nat, j: nat
      ensures AllowedAt(s, roots, r, p, u, j)
    {
      assert SlotAt(s, u, j) && TableAt(s, u);
    }
  }

  /** A mapping call, successful or not, keeps the rights invariant for every address space whose
      own entry to a shared table already allows the rights asked for. */
  lemma InsertPerms(s: Pages, roots: set<nat>, r: nat, va: nat, leaf: nat, ppn: nat, p: Perms)
    requires Inv(s) && IsRoot(s, r) && 1 <= leaf <= 3 && ClearPath(s, r, 4, va, leaf)
    requires PermsOk(s, roots)
    requires forall u | u in roots && Shares(s, r, u, Idx(4, va)) && u != r :: Allows(s.tables[u][Idx(4, va)], p)
    ensures PermsOk(Insert(s, r, va, leaf, ppn, p).0, roots)
  {
    RootsHaveNoParents(s, roots, r, p);
    BuildPerms(s, roots, r, 4, va, leaf, p);
    BuildKeeps(s, r, 4, va, leaf, p);
    var (s1, o) := Build(s, r, 4, va, leaf, p);
    if o.Some? {
      LeafPerms(s1, roots, o.value, Idx(leaf, va), leaf, ppn, p);
    }
  }

  // ---------------------------------------------------------------- what an address space shows

  /** What the processor sees of an address: page size by level, frame number, rights. */
  datatype View = View(level: nat, ppn: nat, rights: Rights)

  function Shown(s: Pages, r: nat, va: nat): Option<View> {
    match (Translate(s, r, va), Effective(s.tables, r, 4, va))
    case (Some(leaf), Some(rights)) => Some(View(leaf.level, leaf.entry.ppn, rights))
    case _ => None
  }

  /** After a mapping call the addresses of the page show the frame and exactly the rights asked
      for; every other address shows what it showed. */
  lemma InsertShows(s: Pages, r: nat, va: nat, leaf: nat, ppn: nat, p: Perms, va': nat)
    requires Inv(s) && IsRoot(s, r) && 1 <= leaf <= 3 && ClearPath(s, r, 4, va, leaf) && PermsOk(s, {r})
    ensures var (s', ok) := Insert(s, r, va, leaf, ppn, p);
            && Inv(s') && IsRoot(s', r) && PermsOk(s', {r})
            && Shown(s', r, va') == if ok && SamePage(leaf, va, va')
                                    then Some(View(leaf, ppn, Rights(p.writeable, p.user, !p.executionDisabled)))
                                    else Shown(s, r, va')
  {
    var s' := Insert(s, r, va, leaf, ppn, p).0;
    InsertTranslates(s, r, va, leaf, ppn, p, r, va');
    InsertPerms(s, {r}, r, va, leaf, ppn, p);
    RightsAreLeafs(s, {r}, r, 4, va');
    RightsAreLeafs(s', {r}, r, 4, va');
  }

  // ---------------------------------------------------------------- whole runs

  /** One request to map a page. */
  datatype Request = Request(va: nat, leaf: nat, ppn: nat, perms: Perms)

  /** The caller may make this request here: the size is one of the three, and no larger leaf is
      in the way. */
  predicate Allowed(s: Pages, r: nat, q: Request) {
    1 <= q.leaf <= 3 && ClearPath(s, r, 4, q.va, q.leaf)
  }

  /** A request is served exactly when the caller may make it and every table missing on its path
      finds a frame. */
  ghost function Serve(s: Pages, r: nat, q: Request): (res: (Pages, bool))
    requires Inv(s) && IsRoot(s, r)
    ensures Inv(res.0) && IsRoot(res.0, r)
    ensures res.1 <==> Allowed(s, r, q) && Missing(s.tables, r, 4, q.va, q.leaf) <= FreeFrames(s)
    ensures Allowed(s, r, q) ==> res == Insert(s, r, q.va, q.leaf, q.ppn, q.perms)
  {
    if Allowed(s, r, q) then
      InsertSucceedsIff(s, r, q.va, q.leaf, q.ppn, q.perms);
      InsertTranslates(s, r, q.va, q.leaf, q.ppn, q.perms, r, q.va);
      Insert(s, r, q.va, q.leaf, q.ppn, q.perms)
    else (s, false)
  }

  ghost function ServeAll(s: Pages, r: nat, qs: seq<Request>): (s': Pages)
    requires Inv(s) && IsRoot(s, r)
    ensures Inv(s') && IsRoot(s', r)
    decreases |qs|
  {
    if |qs| == 0 then s else Serve(ServeAll(s, r, qs[..|qs| - 1]), r, qs[|qs| - 1]).0
  }

  /** What the latest successful request for an address asked for. */
  ghost function Latest(s: Pages, r: nat, qs: seq<Request>, va: nat): Option<View>
    requires Inv(s) && IsRoot(s, r)
    decreases |qs|
  {
    if |qs| == 0 then Shown(s, r, va)
    else
      var q := qs[|qs| - 1];
      var before := qs[..|qs| - 1];
      if Serve(ServeAll(s, r, before), r, q).1 && SamePage(q.leaf, q.va, va)
      then Some(View(q.leaf, q.ppn, Rights(q.perms.writeable, q.perms.user, !q.perms.executionDisabled)))
      else Latest(s, r, before, va)
  }

  /** After any run of requests an address shows exactly what the latest successful request for
      its page asked for, frame and rights; mapping other pages never changes it. */
  lemma {:induction false} LatestWins(s: Pages, r: nat, qs: seq<Request>, va: nat)
    requires Inv(s) && IsRoot(s, r) && PermsOk(s, {r})
    ensures PermsOk(ServeAll(s, r, qs), {r})
    ensures Shown(ServeAll(s, r, qs), r, va) == Latest(s, r, qs, va)
    decreases |qs|
  {
    if |qs| > 0 {
      var q := qs[|qs| - 1];
      LatestWins(s, r, qs[..|qs| - 1], va);
      var s1 := ServeAll(s, r, qs[..|qs| - 1]);
      if Allowed(s1, r, q) {
        InsertShows(s1, r, q.va, q.leaf, q.ppn, q.perms, va);
      }
    }
  }

  /** An empty address space satisfies every invariant there is. */
  lemma EmptySpace(mem: Mem, r: nat)
    requires Wf(mem) && Small(mem) && r < WINDOW_FRAMES && !FrameFree(mem, r)
    requires forall f: nat :: FrameFree(mem, f) ==> f < WINDOW_FRAMES
    ensures var s := Pages(map[r := ZERO_TABLE], map[r := 4], mem);
            Inv(s) && IsRoot(s, r) && PermsOk(s, {r}) && forall va :: Shown(s, r, va) == None
  {
  }

  /** In an empty address space any page can be mapped, and is if there is a frame for each table
      between the root and the page's level. */
  lemma FirstRequest(mem: Mem, r: nat, q: Request)
    requires Wf(mem) && Small(mem) && r < WINDOW_FRAMES && !FrameFree(mem, r) && 1 <= q.leaf <= 3
    requires forall f: nat :: FrameFree(mem, f) ==> f < WINDOW_FRAMES
    ensures var s := Pages(map[r := ZERO_TABLE], map[r := 4], mem); var p := q.perms;
            && Inv(s) && IsRoot(s, r) && (Serve(s, r, q).1 <==> 4 - q.leaf <= FreeFrames(s))
            && (Serve(s, r, q).1 ==> Shown(Serve(s, r, q).0, r, q.va) ==
                                     Some(View(q.leaf, q.ppn, Rights(p.writeable, p.user, !p.executionDisabled))))
  {
    var s := Pages(map[r := ZERO_TABLE], map[r := 4], mem);
    EmptySpace(mem, r);
    EmptyNeedsAll(s.tables, r, q.va, q.leaf);
    assert Allowed(s, r, q);
    InsertShows(s, r, q.va, q.leaf, q.ppn, q.perms, q.va);
  }
}
