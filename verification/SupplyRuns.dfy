/** A thread's memory over any sequence of supplies to its three sub-spaces. */
module SupplyRuns {
  import opened Runs
  import opened PageSpec
  import opened PageMap
  import opened PageRuns
  import opened Threads

  /** Call k takes the thread's space from state k to state k + 1. */
  ghost predicate CallAt(sps: seq<Space>, r: nat, qs: seq<Supply>, k: int) {
    0 <= k < |qs| && k + 1 < |sps| ==> ServedBy(sps[k], sps[k + 1], r, qs[k])
  }

  ghost predicate History(sps: seq<Space>, r: nat, qs: seq<Supply>) {
    |sps| == |qs| + 1 && |sps[0].fields| == 3 && forall k :: CallAt(sps, r, qs, k)
  }

  /** Bytes that the calls have supplied to one sub-space. */
  function Given(qs: seq<Supply>, sub: SubSpace): nat
    requires forall k | 0 <= k < |qs| :: 1 <= qs[k].leaf <= 3
  {
    if |qs| == 0 then 0
    else
      var q := qs[|qs| - 1];
      Given(qs[..|qs| - 1], sub) + if q.sub == sub then |q.ppns| * Span(q.leaf) else 0
  }

  lemma Shorter(sps: seq<Space>, r: nat, qs: seq<Supply>)
    requires History(sps, r, qs) && |qs| > 0
    ensures History(sps[..|qs|], r, qs[..|qs| - 1]) && ServedBy(sps[|qs| - 1], sps[|qs|], r, qs[|qs| - 1])
  {
    var n := |qs|;
    assert CallAt(sps, r, qs, n - 1);
    var sps', qs' := sps[..n], qs[..n - 1];
    forall k
      ensures CallAt(sps', r, qs', k)
    {
      assert CallAt(sps, r, qs, k);
    }
  }

  lemma CallsAreSound(sps: seq<Space>, r: nat, qs: seq<Supply>, k: nat)
    requires History(sps, r, qs) && k <= |qs|
    ensures |sps[k].fields| == 3 && (k < |qs| ==> 1 <= qs[k].leaf <= 3)
  {
    assert CallAt(sps, r, qs, k) && CallAt(sps, r, qs, k - 1);
  }

  /** After any sequence of supplies each size is what it was plus the bytes supplied to that
      sub-space and to no other. */
  lemma {:induction false} SizesAreGiven(sps: seq<Space>, r: nat, qs: seq<Supply>, sub: SubSpace)
    requires History(sps, r, qs)
    ensures forall k | 0 <= k < |qs| :: 1 <= qs[k].leaf <= 3
    ensures |sps[|qs|].fields| == 3 && SizeOf(sps[|qs|], sub) == SizeOf(sps[0], sub) + Given(qs, sub)
    decreases |qs|
  {
    forall k: nat | k < |qs|
      ensures 1 <= qs[k].leaf <= 3
    {
      CallsAreSound(sps, r, qs, k);
    }
    if |qs| > 0 {
      Shorter(sps, r, qs);
      SizesAreGiven(sps[..|qs|], r, qs[..|qs| - 1], sub);
    }
  }

  lemma {:induction false} SizesGrow(sps: seq<Space>, r: nat, qs: seq<Supply>, sub: SubSpace, k: nat)
    requires History(sps, r, qs) && k <= |qs|
    ensures |sps[k].fields| == |sps[|qs|].fields| == 3
    ensures SizeOf(sps[0], sub) <= SizeOf(sps[k], sub) <= SizeOf(sps[|qs|], sub)
    decreases |qs|
  {
    CallsAreSound(sps, r, qs, k);
    CallsAreSound(sps, r, qs, |qs|);
    if |qs| > 0 {
      Shorter(sps, r, qs);
      SizesGrow(sps[..|qs|], r, qs[..|qs| - 1], sub, if k < |qs| then k else |qs| - 1);
    }
  }

  /** Offset `o` of its sub-space lies in page i of call k. */
  ghost predicate InCall(sps: seq<Space>, qs: seq<Supply>, k: nat, i: nat, o: nat) {
    && k < |qs| && k < |sps| && |sps[k].fields| == 3 && 1 <= qs[k].leaf <= 3 && i < |qs[k].ppns|
    && var at := SizeOf(sps[k], qs[k].sub) + i * Span(qs[k].leaf);
       at <= o < at + Span(qs[k].leaf)
  }

  lemma InCallEnds(sps: seq<Space>, r: nat, qs: seq<Supply>, k: nat, i: nat, o: nat)
    requires History(sps, r, qs) && InCall(sps, qs, k, i, o)
    ensures |sps[k + 1].fields| == 3 && SizeOf(sps[k], qs[k].sub) <= o < SizeOf(sps[k + 1], qs[k].sub) <= SLOT_BYTES
    ensures (o - SizeOf(sps[k], qs[k].sub)) / Span(qs[k].leaf) == i
  {
    assert CallAt(sps, r, qs, k);
    var n, x := Span(qs[k].leaf), o - SizeOf(sps[k], qs[k].sub);
    InPage(qs[k].leaf, i, x);
    PagesUpTo(qs[k].leaf, i, |qs[k].ppns|);
  }

  lemma PagesUpTo(leaf: nat, i: nat, n: nat)
    requires 1 <= leaf <= 3 && i < n
    ensures i * Span(leaf) + Span(leaf) <= n * Span(leaf)
  {
    match leaf
    case 1 =>
    case 2 =>
    case 3 =>
  }

  /** One call changes no translation of its thread outside the stretch it appends. */
  lemma CallKeeps(a: Space, b: Space, r: nat, q: Supply, sub: SubSpace, o: nat)
    requires ServedBy(a, b, r, q) && o < SLOT_BYTES
    requires sub != q.sub || o < SizeOf(a, sub) || o >= SizeOf(b, sub)
    ensures Translate(b.pages, r, SubBase(sub) + o) == Translate(a.pages, r, SubBase(sub) + o)
  {
    var va, lo := SubBase(sub) + o, SubBase(q.sub) + SizeOf(a, q.sub);
    SubSpaceSlot(sub, o);
    assert FilledAt(a.pages, b.pages, r, lo, q.leaf, q.ppns, q.perms, va);
  }

  /** A page once supplied stays where it was put: in the end it still translates to its frame, with
      the rights it was supplied with. */
  lemma {:induction false} PageStays(sps: seq<Space>, r: nat, qs: seq<Supply>, k: nat, i: nat, o: nat)
    requires History(sps, r, qs) && InCall(sps, qs, k, i, o)
    ensures LeafSays(Translate(sps[|qs|].pages, r, SubBase(qs[k].sub) + o), qs[k].leaf, qs[k].ppns[i], qs[k].perms)
    decreases |qs|
  {
    hide ServedBy, LeafSays, Translate, Span;
    InCallEnds(sps, r, qs, k, i, o);
    Shorter(sps, r, qs);
    if k == |qs| - 1 {
      LastCall(sps, r, qs, i, o);
    } else {
      var n := |qs| - 1;
      PageStays(sps[..|qs|], r, qs[..n], k, i, o);
      CallsAreSound(sps, r, qs, n);
      SizesGrow(sps[..|qs|], r, qs[..n], qs[k].sub, k + 1);
      CallKeeps(sps[n], sps[n + 1], r, qs[n], qs[k].sub, o);
    }
  }

  lemma LastCall(sps: seq<Space>, r: nat, qs: seq<Supply>, i: nat, o: nat)
    requires History(sps, r, qs) && |qs| > 0 && InCall(sps, qs, |qs| - 1, i, o)
    ensures var q := qs[|qs| - 1];
            LeafSays(Translate(sps[|qs|].pages, r, SubBase(q.sub) + o), q.leaf, q.ppns[i], q.perms)
  {
    var k := |qs| - 1;
    var q := qs[k];
    InCallEnds(sps, r, qs, k, i, o);
    assert CallAt(sps, r, qs, k);
    SubSpaceSlot(q.sub, o);
    assert FilledAt(sps[k].pages, sps[k + 1].pages, r, SubBase(q.sub) + SizeOf(sps[k], q.sub), q.leaf, q.ppns, q.perms,
                    SubBase(q.sub) + o);
  }

  /** Each sub-space is filled from its start without a gap: every byte below its size that was not
      there from the beginning lies in a page of some call. */
  lemma {:induction false} NoGap(sps: seq<Space>, r: nat, qs: seq<Supply>, sub: SubSpace, o: nat) returns (k: nat, i: nat)
    requires History(sps, r, qs) && |sps[|qs|].fields| == 3
    requires SizeOf(sps[0], sub) <= o < SizeOf(sps[|qs|], sub)
    ensures InCall(sps, qs, k, i, o) && qs[k].sub == sub
    decreases |qs|
  {
    Shorter(sps, r, qs);
    var n := |qs| - 1;
    if o < SizeOf(sps[n], sub) {
      k, i := NoGap(sps[..|qs|], r, qs[..n], sub, o);
    } else {
      k, i := n, (o - SizeOf(sps[n], sub)) / Span(qs[n].leaf);
      InPage(qs[n].leaf, i, o - SizeOf(sps[n], sub));
      Within(qs[n].leaf, |qs[n].ppns|, o - SizeOf(sps[n], sub));
    }
  }

  /** The whole memory of a thread that started empty: its sizes are the bytes given, every byte
      below them shows the frame of the page it was given in, and nothing lies behind. */
  lemma ThreadMemory(sps: seq<Space>, r: nat, qs: seq<Supply>, sub: SubSpace, o: nat) returns (k: nat, i: nat)
    requires History(sps, r, qs) && sps[0].fields == [0, 0, 0] && o < SLOT_BYTES
    requires RestUnmapped(sps[0].pages, r, sub, 0)
    ensures forall j | 0 <= j < |qs| :: 1 <= qs[j].leaf <= 3
    ensures |sps[|qs|].fields| == 3 && SizeOf(sps[|qs|], sub) == Given(qs, sub)
    ensures if o < Given(qs, sub) then
              && InCall(sps, qs, k, i, o) && qs[k].sub == sub
              && LeafSays(Translate(sps[|qs|].pages, r, SubBase(sub) + o), qs[k].leaf, qs[k].ppns[i], qs[k].perms)
            else Translate(sps[|qs|].pages, r, SubBase(sub) + o) == None
  {
    SizesAreGiven(sps, r, qs, sub);
    k, i := 0, 0;
    if o < Given(qs, sub) {
      k, i := NoGap(sps, r, qs, sub, o);
      PageStays(sps, r, qs, k, i, o);
    } else {
      StaysUnmapped(sps, r, qs, sub, o);
    }
  }

  lemma {:induction false} StaysUnmapped(sps: seq<Space>, r: nat, qs: seq<Supply>, sub: SubSpace, o: nat)
    requires History(sps, r, qs) && |sps[|qs|].fields| == 3 && SizeOf(sps[|qs|], sub) <= o < SLOT_BYTES
    requires Translate(sps[0].pages, r, SubBase(sub) + o) == None
    ensures Translate(sps[|qs|].pages, r, SubBase(sub) + o) == None
    decreases |qs|
  {
    if |qs| > 0 {
      hide Translate, Span;
      Shorter(sps, r, qs);
      var n := |qs| - 1;
      SizesGrow(sps, r, qs, sub, n);
      StaysUnmapped(sps[..|qs|], r, qs[..n], sub, o);
      CallKeeps(sps[n], sps[n + 1], r, qs[n], sub, o);
    }
  }

  /** Histories are what calls add up to: one begins anywhere, and a call extends it. */
  lemma HistoryGrows(sps: seq<Space>, r: nat, qs: seq<Supply>, a: Space, b: Space, q: Supply)
    requires |a.fields| == 3
    ensures History([a], r, [])
    ensures History(sps, r, qs) && ServedBy(sps[|qs|], b, r, q) ==> History(sps + [b], r, qs + [q])
  {
    if History(sps, r, qs) && ServedBy(sps[|qs|], b, r, q) {
      var sps', qs' := sps + [b], qs + [q];
      forall k
        ensures CallAt(sps', r, qs', k)
      {
        assert CallAt(sps, r, qs, k);
      }
    }
  }
}
