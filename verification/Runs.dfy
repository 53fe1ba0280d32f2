/** Runs of free bits in a row of bits, and counts of them. False is free, true is taken. */
module Runs {
  import opened BitMaps

  datatype Option<+T> = None | Some(value: T)

  /** Bits s .. s + n - 1 exist and are all free. */
  ghost predicate RunAt(bits: seq<bool>, s: nat, n: nat) {
    s + n <= |bits| && forall k | s <= k < s + n :: !bits[k]
  }

  /** `s` is the lowest place where `n` free bits start. */
  ghost predicate IsFirstRun(bits: seq<bool>, n: nat, s: nat) {
    RunAt(bits, s, n) && forall t: nat | t < s :: !RunAt(bits, t, n)
  }

  ghost function FirstRun(bits: seq<bool>, n: nat): (r: Option<nat>)
    ensures r.Some? ==> IsFirstRun(bits, n, r.value)
    ensures r.None? ==> forall t: nat :: !RunAt(bits, t, n)
  {
    if exists t: nat :: RunAt(bits, t, n) then
      LowestRun(bits, n);
      var s: nat :| IsFirstRun(bits, n, s);
      Some(s)
    else None
  }

  lemma LowestRun(bits: seq<bool>, n: nat)
    requires exists t: nat :: RunAt(bits, t, n)
    ensures exists s: nat :: IsFirstRun(bits, n, s)
  {
    var t: nat :| RunAt(bits, t, n);
    var s: nat := 0;
    while !RunAt(bits, s, n)
      invariant s <= t
      invariant forall u: nat | u < s :: !RunAt(bits, u, n)
      decreases t - s
    {
      s := s + 1;
    }
    assert IsFirstRun(bits, n, s);
  }

  lemma FirstRunUnique(bits: seq<bool>, n: nat, s: nat)
    requires IsFirstRun(bits, n, s)
    ensures FirstRun(bits, n) == Some(s)
  {
  }

  // ---------------------------------------------------------------- counting

  /** Number of free bits. */
  function CountFree(bits: seq<bool>): (c: nat)
    ensures c <= |bits|
  {
    if |bits| == 0 then 0 else (if bits[0] then 0 else 1) + CountFree(bits[1..])
  }

  lemma {:induction false} CountConcat(a: seq<bool>, b: seq<bool>)
    ensures CountFree(a + b) == CountFree(a) + CountFree(b)
  {
    if |a| == 0 {
      assert a + b == b;
    } else {
      assert (a + b)[1..] == a[1..] + b;
      CountConcat(a[1..], b);
    }
  }

  lemma {:induction false} CountUniform(bits: seq<bool>, v: bool)
    requires forall k | 0 <= k < |bits| :: bits[k] == v
    ensures CountFree(bits) == if v then 0 else |bits|
  {
    if |bits| != 0 {
      CountUniform(bits[1..], v);
    }
  }

  lemma CountSplit(bits: seq<bool>, a: nat, n: nat)
    requires a + n <= |bits|
    ensures CountFree(bits) == CountFree(bits[..a]) + CountFree(bits[a..a + n]) + CountFree(bits[a + n..])
  {
    CountConcat(bits[..a], bits[a..a + n]);
    CountConcat(bits[..a] + bits[a..a + n], bits[a + n..]);
    assert bits[..a] + bits[a..a + n] + bits[a + n..] == bits;
  }

  lemma FillParts(bits: seq<bool>, a: nat, n: nat, v: bool)
    requires a + n <= |bits|
    ensures var r := Fill(bits, a, n, v); r[..a] == bits[..a] && r[a + n..] == bits[a + n..]
    ensures var mid := Fill(bits, a, n, v)[a..a + n]; forall k | 0 <= k < |mid| :: mid[k] == v
  {
  }

  /** Taking a run of free bits lowers the count by its length, giving taken bits back raises it. */
  lemma CountFill(bits: seq<bool>, a: nat, n: nat, v: bool)
    requires a + n <= |bits|
    requires forall k | a <= k < a + n :: bits[k] == !v
    ensures CountFree(Fill(bits, a, n, v)) == if v then CountFree(bits) - n else CountFree(bits) + n
  {
    FillParts(bits, a, n, v);
    CountSplit(bits, a, n);
    CountSplit(Fill(bits, a, n, v), a, n);
    CountUniform(bits[a..a + n], !v);
    CountUniform(Fill(bits, a, n, v)[a..a + n], v);
  }

  /** A row holds no run longer than its number of free bits. */
  lemma RunIsCounted(bits: seq<bool>, s: nat, n: nat)
    requires RunAt(bits, s, n)
    ensures n <= CountFree(bits)
  {
    CountSplit(bits, s, n);
    CountUniform(bits[s..s + n], false);
  }

  lemma FillBack(bits: seq<bool>, a: nat, n: nat, v: bool)
    requires a + n <= |bits|
    requires forall k | a <= k < a + n :: bits[k] == v
    ensures Fill(Fill(bits, a, n, !v), a, n, v) == bits
  {
  }
}
