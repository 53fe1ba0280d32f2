/** The search for free bits: inside one 64-bit word, and word by word along a region. */
module Scan {
  import opened Bits
  import opened Runs

  /** The 64 places of a word, lowest first. */
  function WordRow(w: bv64): (row: seq<bool>)
    ensures |row| == 64
  {
    seq(64, j requires 0 <= j < 64 => Bit(w, j))
  }

  // ---------------------------------------------------------------- inside a word

  /** Bit i of `mask` is set exactly where `covered` free bits of `word` start. */
  ghost predicate Covers(word: bv64, mask: bv64, covered: nat) {
    forall i: nat | i < 64 :: Bit(mask, i) <==> RunAt(WordRow(word), i, covered)
  }

  lemma CoversOne(word: bv64)
    ensures Covers(word, Not(word), 1)
  {
    forall i: nat | i < 64
      ensures Bit(Not(word), i) <==> RunAt(WordRow(word), i, 1)
    {
      BitOfNot(word, i);
      assert WordRow(word)[i] == Bit(word, i);
    }
  }

  /** Two overlapping runs `shift` apart make a run that is `shift` longer. */
  lemma CoversMore(word: bv64, mask: bv64, covered: nat, shift: nat)
    requires Covers(word, mask, covered) && 1 <= shift <= covered
    ensures Covers(word, And(mask, Shr(mask, shift)), covered + shift)
  {
    var row := WordRow(word);
    forall i: nat | i < 64
      ensures Bit(And(mask, Shr(mask, shift)), i) <==> RunAt(row, i, covered + shift)
    {
      BitOfAnd(mask, Shr(mask, shift), i);
      BitOfShr(mask, shift, i);
      if shift + i >= 64 {
        BitsAbove(mask, shift + i);
      } else {
        RunsOverlap(row, i, covered, shift);
      }
    }
  }

  lemma RunsOverlap(bits: seq<bool>, i: nat, n: nat, shift: nat)
    requires shift <= n
    ensures RunAt(bits, i, n + shift) <==> RunAt(bits, i, n) && RunAt(bits, i + shift, n)
  {
  }

  /** Index of the lowest run of `runLength` free bits in `word`, or -1. */
  method FindRunInWord(word: bv64, runLength: nat) returns (r: int)
    requires 1 <= runLength <= 64
    ensures r == match FirstRun(WordRow(word), runLength) case Some(s) => s case None => -1
  {
    hide Covers, And, Not, Shr, WordRow, FirstRun;
    var freeMask := Not(word);
    var covered := 1;
    CoversOne(word);
    while covered * 2 <= runLength
      invariant 1 <= covered <= runLength
      invariant Covers(word, freeMask, covered)
      decreases runLength - covered
    {
      CoversMore(word, freeMask, covered, covered);
      freeMask := And(freeMask, Shr(freeMask, covered));
      covered := covered * 2;
    }
    if covered < runLength {
      CoversMore(word, freeMask, covered, runLength - covered);
      freeMask := And(freeMask, Shr(freeMask, runLength - covered));
    }
    LowestCovered(word, freeMask, runLength);
    r := if freeMask != 0 then Ctz(freeMask) else -1;
  }

  lemma LowestCovered(word: bv64, mask: bv64, n: nat)
    requires Covers(word, mask, n) && n >= 1
    ensures mask != 0 ==> FirstRun(WordRow(word), n) == Some(Ctz(mask))
    ensures mask == 0 ==> FirstRun(WordRow(word), n) == None
  {
    var row := WordRow(word);
    if FirstRun(row, n).Some? {
      assert Bit(mask, FirstRun(row, n).value);
      BitOfZero(FirstRun(row, n).value);
    }
    if mask != 0 {
      assert RunAt(row, Ctz(mask), n);
      FirstRunUnique(row, n, Ctz(mask));
    }
  }

  // ---------------------------------------------------------------- along a region

  /** What the scan knows before place `p`: the `carried` places below p are a maximal free
      suffix, too short to answer the request, and no run of n lies wholly below p. */
  ghost predicate Scanned(bits: seq<bool>, n: nat, p: nat, carried: nat) {
    && carried <= p <= |bits|
    && (forall k | p - carried <= k < p :: !bits[k])
    && (carried < p ==> bits[p - carried - 1])
    && (carried < n || p == 0)
    && (forall t: nat | t + n <= p && RunAt(bits, t, n) :: p == 0)
  }

  lemma ScanStart(bits: seq<bool>, n: nat)
    ensures Scanned(bits, n, 0, 0)
  {
  }

  /** The carried run, grown by free places after p, is long enough: it is the first run. */
  lemma CarriedHit(bits: seq<bool>, n: nat, p: nat, carried: nat, more: nat)
    requires Scanned(bits, n, p, carried)
    requires p + more <= |bits| && forall k | p <= k < p + more :: !bits[k]
    requires carried + more >= n
    ensures IsFirstRun(bits, n, p - carried)
  {
    forall t: nat | t < p - carried
      ensures !RunAt(bits, t, n)
    {
      assert bits[p - carried - 1];
    }
  }

  /** A run across p is shorter than n when the places on both sides add up to less. */
  lemma CrossingTooShort(bits: seq<bool>, n: nat, p: nat, carried: nat, lead: nat, t: nat)
    requires Scanned(bits, n, p, carried)
    requires p + lead < |bits| && bits[p + lead] && carried + lead < n
    requires t < p < t + n
    ensures !RunAt(bits, t, n)
  {
    if t < p - carried {
      assert bits[p - carried - 1];
    }
  }

  lemma RunInSlice(bits: seq<bool>, p: nat, w: nat, t: nat, n: nat)
    requires p + w <= |bits| && p <= t && t + n <= p + w
    ensures RunAt(bits, t, n) <==> RunAt(bits[p..p + w], t - p, n)
  {
    var s := bits[p..p + w];
    if RunAt(s, t - p, n) {
      forall k | t <= k < t + n
        ensures !bits[k]
      {
        assert bits[k] == s[k - p];
      }
    }
  }

  /** The carried run fails, and the word at p holds a run: its first run is the first overall. */
  lemma InWordHit(bits: seq<bool>, n: nat, p: nat, carried: nat, lead: nat, b: nat)
    requires Scanned(bits, n, p, carried) && p + 64 <= |bits| && lead < 64
    requires bits[p + lead] && carried + lead < n
    requires IsFirstRun(bits[p..p + 64], n, b)
    ensures IsFirstRun(bits, n, p + b)
  {
    RunInSlice(bits, p, 64, p + b, n);
    forall t: nat | t < p + b
      ensures !RunAt(bits, t, n)
    {
      if t >= p {
        RunInSlice(bits, p, 64, t, n);
      } else if t + n > p {
        CrossingTooShort(bits, n, p, carried, lead, t);
      }
    }
  }

  /** Neither the carried run nor the word answers: carry the word's top free places on. */
  lemma CarryTop(bits: seq<bool>, n: nat, p: nat, carried: nat, lead: nat, top: nat)
    requires Scanned(bits, n, p, carried) && p + 64 <= |bits| && lead < 64 && top < 64
    requires bits[p + lead] && carried + lead < n
    requires FirstRun(bits[p..p + 64], n) == None
    requires bits[p + 63 - top] && forall k | p + 64 - top <= k < p + 64 :: !bits[k]
    ensures Scanned(bits, n, p + 64, top)
  {
    if top >= n {
      assert RunAt(bits, p + 64 - n, n);
      RunInSlice(bits, p, 64, p + 64 - n, n);
    }
    forall t: nat | t + n <= p + 64
      ensures !RunAt(bits, t, n)
    {
      if t >= p {
        RunInSlice(bits, p, 64, t, n);
      } else if t + n > p {
        CrossingTooShort(bits, n, p, carried, lead, t);
      }
    }
  }

  /** The word at p is wholly free and the run is still too short: carry all of it on. */
  lemma CarryWord(bits: seq<bool>, n: nat, p: nat, carried: nat)
    requires Scanned(bits, n, p, carried) && p + 64 <= |bits| && carried + 64 < n
    requires forall k | p <= k < p + 64 :: !bits[k]
    ensures Scanned(bits, n, p + 64, carried + 64)
  {
    forall t: nat | t + n <= p + 64
      ensures !RunAt(bits, t, n)
    {
      if t < p - carried {
        assert bits[p - carried - 1];
      }
    }
  }

  /** The whole region is scanned and nothing was found. */
  lemma ScannedOut(bits: seq<bool>, n: nat, carried: nat)
    requires Scanned(bits, n, |bits|, carried) && |bits| > 0
    ensures FirstRun(bits, n) == None
  {
  }

  // ---------------------------------------------------------------- one word of the scan

  /** `word` is the 64 places of `row` from `p` on. */
  ghost predicate IsWord(row: seq<bool>, p: nat, word: bv64) {
    p + 64 <= |row| && row[p..p + 64] == WordRow(word)
  }

  lemma WordPlace(row: seq<bool>, p: nat, word: bv64, k: nat)
    requires IsWord(row, p, word) && k < 64
    ensures row[p + k] == Bit(word, k)
  {
    assert row[p + k] == row[p..p + 64][k];
  }

  /** Sixty-four places read from the middle of a longer row. */
  lemma WordOfSlice(bits: seq<bool>, lo: nat, hi: nat, p: nat, w: bv64)
    requires lo + p + 64 <= hi <= |bits|
    requires forall j: nat | j < 64 :: Bit(w, j) == bits[lo + p + j]
    ensures IsWord(bits[lo..hi], p, w)
  {
    forall j: nat | j < 64
      ensures bits[lo..hi][p..p + 64][j] == WordRow(w)[j]
    {
    }
  }

  lemma WordFree(word: bv64, row: seq<bool>, p: nat)
    requires word == 0 && IsWord(row, p, word)
    ensures forall k | p <= k < p + 64 :: !row[k]
  {
    forall k | p <= k < p + 64
      ensures !row[k]
    {
      BitOfZero(k - p);
      WordPlace(row, p, word, k - p);
    }
  }

  /** The free places at both ends of a word that is not wholly free. */
  lemma WordEnds(word: bv64, row: seq<bool>, p: nat)
    requires word != 0 && IsWord(row, p, word)
    ensures row[p + Ctz(word)] && forall k | p <= k < p + Ctz(word) :: !row[k]
    ensures row[p + 63 - Clz(word)] && forall k | p + 64 - Clz(word) <= k < p + 64 :: !row[k]
  {
    forall k | p <= k < p + 64
      ensures row[k] == Bit(word, k - p)
    {
      WordPlace(row, p, word, k - p);
    }
  }

  lemma ZeroWord(row: seq<bool>, p: nat, word: bv64, n: nat, carried: nat)
    requires Scanned(row, n, p, carried) && IsWord(row, p, word) && word == 0
    ensures carried + 64 >= n ==> FirstRun(row, n) == Some(p - carried)
    ensures carried + 64 < n ==> Scanned(row, n, p + 64, carried + 64)
  {
    WordFree(word, row, p);
    if carried + 64 >= n {
      CarriedHit(row, n, p, carried, 64);
      FirstRunUnique(row, n, p - carried);
    } else {
      CarryWord(row, n, p, carried);
    }
  }

  lemma LeadAnswers(row: seq<bool>, p: nat, word: bv64, n: nat, carried: nat)
    requires Scanned(row, n, p, carried) && IsWord(row, p, word) && word != 0
    requires carried + Ctz(word) >= n
    ensures FirstRun(row, n) == Some(p - carried)
  {
    WordEnds(word, row, p);
    CarriedHit(row, n, p, carried, Ctz(word));
    FirstRunUnique(row, n, p - carried);
  }

  lemma WordAnswers(row: seq<bool>, p: nat, word: bv64, n: nat, carried: nat, b: nat)
    requires Scanned(row, n, p, carried) && IsWord(row, p, word) && word != 0
    requires carried + Ctz(word) < n && FirstRun(WordRow(word), n) == Some(b)
    ensures FirstRun(row, n) == Some(p + b)
  {
    WordEnds(word, row, p);
    InWordHit(row, n, p, carried, Ctz(word), b);
    FirstRunUnique(row, n, p + b);
  }

  lemma TopCarries(row: seq<bool>, p: nat, word: bv64, n: nat, carried: nat)
    requires Scanned(row, n, p, carried) && IsWord(row, p, word) && word != 0
    requires carried + Ctz(word) < n && (n > 64 || FirstRun(WordRow(word), n) == None)
    ensures Scanned(row, n, p + 64, Clz(word))
  {
    WordEnds(word, row, p);
    CarryTop(row, n, p, carried, Ctz(word), Clz(word));
  }

  /** One word of the scan: either the request is answered, or the free places at the top of
      the word are carried on. `row` is the region's bits, of which `word` is the q-th 64. */
  method ScanWord(word: bv64, q: nat, pageCount: nat, carriedRun: nat, runStart: nat, ghost row: seq<bool>)
    returns (hit: Option<nat>, carriedRun': nat, runStart': nat)
    requires IsWord(row, 64 * q, word) && Scanned(row, pageCount, 64 * q, carriedRun)
    requires carriedRun > 0 ==> runStart == 64 * q - carriedRun
    ensures hit.Some? ==> hit == FirstRun(row, pageCount)
    ensures hit.None? ==> Scanned(row, pageCount, 64 * q + 64, carriedRun')
    ensures hit.None? && carriedRun' > 0 ==> runStart' == 64 * q + 64 - carriedRun'
  {
    hide Scanned, IsWord, FirstRun, WordRow, Bit;
    hit, carriedRun', runStart' := None, carriedRun, runStart;
    if word == 0 {
      ZeroWord(row, 64 * q, word, pageCount, carriedRun);
      if carriedRun == 0 {
        runStart' := q * 64;
      }
      carriedRun' := carriedRun + 64;
      if carriedRun' >= pageCount {
        hit := Some(runStart');
      }
      return;
    }
    var leadingFree := Ctz(word);
    if carriedRun + leadingFree >= pageCount {
      LeadAnswers(row, 64 * q, word, pageCount, carriedRun);
      if carriedRun == 0 {
        runStart' := q * 64;
      }
      hit := Some(runStart');
      return;
    }
    if pageCount <= 64 {
      var bitIndex := FindRunInWord(word, pageCount);
      if bitIndex >= 0 {
        WordAnswers(row, 64 * q, word, pageCount, carriedRun, bitIndex);
        hit := Some(q * 64 + bitIndex);
        return;
      }
    }
    TopCarries(row, 64 * q, word, pageCount, carriedRun);
    var trailingFree := Clz(word);
    carriedRun' := trailingFree;
    runStart' := q * 64 + 64 - trailingFree;
  }
}
