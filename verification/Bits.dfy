/** Machine words as rows of bits: what the bitmap's byte writes and the allocator's
    64-bit reads have to agree on. */
module Bits {

  const ALL_ONES: bv64 := 0xFFFF_FFFF_FFFF_FFFF

  // The word operations. Each is one machine operator, named so that the proofs below
  // can reason about rows of bits without opening the operator.

  function Half(w: bv64): bv64 { w >> 1 }

  predicate Low(w: bv64) { w & 1 == 1 }

  function And(w: bv64, v: bv64): bv64 { w & v }

  function Not(w: bv64): bv64 { !w }

  /** Puts byte `b` below the low seven bytes of `hi`. */
  function Join(b: bv8, hi: bv64): bv64 { (b as bv64) | (hi << 8) }

  /** Logical right shift by `s` places, `>>` with an amount known only at run time. */
  function Shr(w: bv64, s: nat): bv64
    decreases s
  {
    if s == 0 then w else Shr(Half(w), s - 1)
  }

  /** Bit `i` of a word: its lowest bit after `i` single shifts. */
  predicate Bit(w: bv64, i: nat)
    decreases i
  {
    if i == 0 then Low(w) else Bit(Half(w), i - 1)
  }

  /** Bit `j` of a byte. */
  predicate ByteBit(b: bv8, j: nat)
    requires j < 8
  {
    (b >> j) & 1 == 1
  }

  // ---------------------------------------------------------------- shifts and masks

  lemma {:induction false} ShrLast(w: bv64, s: nat)
    ensures Shr(w, s + 1) == Half(Shr(w, s))
    decreases s
  {
    if s != 0 {
      ShrLast(Half(w), s - 1);
    }
  }

  lemma {:induction false} ShrShr(w: bv64, s: nat, t: nat)
    ensures Shr(Shr(w, s), t) == Shr(w, s + t)
    decreases s
  {
    if s != 0 {
      ShrShr(Half(w), s - 1, t);
    }
  }

  lemma {:induction false} BitOfShr(w: bv64, s: nat, i: nat)
    ensures Bit(Shr(w, s), i) == Bit(w, s + i)
    decreases s
  {
    if s != 0 {
      BitOfShr(Half(w), s - 1, i);
    }
  }

  lemma HalfOfAnd(w: bv64, v: bv64)
    ensures Half(And(w, v)) == And(Half(w), Half(v))
    ensures Low(And(w, v)) == (Low(w) && Low(v))
  {
  }

  lemma {:induction false} BitOfAnd(w: bv64, v: bv64, i: nat)
    ensures Bit(And(w, v), i) == (Bit(w, i) && Bit(v, i))
    decreases i
  {
    HalfOfAnd(w, v);
    if i != 0 {
      BitOfAnd(Half(w), Half(v), i - 1);
    }
  }

  lemma HalfOfNot(w: bv64)
    ensures Half(Not(w)) == And(Not(Half(w)), Half(ALL_ONES))
    ensures Low(Not(w)) == !Low(w)
  {
  }

  /** Complement flips each of the 64 places. */
  lemma {:induction false} BitOfNot(w: bv64, i: nat)
    requires i < 64
    ensures Bit(Not(w), i) == !Bit(w, i)
    decreases i
  {
    HalfOfNot(w);
    if i != 0 {
      BitOfNot(Half(w), i - 1);
      BitOfAnd(Not(Half(w)), Half(ALL_ONES), i - 1);
      BitOfOnes(i);
    }
  }

  // ---------------------------------------------------------------- the 64-bit width

  predicate OnesBlock(x: bv64) { x & (x + 1) == 0 }

  lemma HalfOfBlock(x: bv64)
    requires OnesBlock(x)
    ensures OnesBlock(Half(x)) && (x == 0 || Low(x))
  {
  }

  /** Shifting the all-ones word leaves a block of low ones. */
  lemma {:induction false} OnesShrink(m: nat)
    ensures OnesBlock(Shr(ALL_ONES, m))
  {
    if m != 0 {
      OnesShrink(m - 1);
      ShrLast(ALL_ONES, m - 1);
      HalfOfBlock(Shr(ALL_ONES, m - 1));
    }
  }

  lemma Shr8(w: bv64)
    ensures Shr(w, 8) == w >> 8
  {
  }

  lemma OnesEnd()
    ensures Shr(ALL_ONES, 63) == 1 && Shr(ALL_ONES, 64) == 0
  {
    var x := ALL_ONES;
    Shr8(x);
    ShrShr(x, 8, 8);
    Shr8(x >> 8);
    ShrShr(x, 16, 8);
    Shr8(x >> 16);
    ShrShr(x, 24, 8);
    Shr8(x >> 24);
    ShrShr(x, 32, 8);
    Shr8(x >> 32);
    ShrShr(x, 40, 8);
    Shr8(x >> 40);
    ShrShr(x, 48, 8);
    Shr8(x >> 48);
    ShrShr(x, 56, 7);
    ShrShr(x, 56, 8);
    assert Shr(x, 56) == 0xFF;
  }

  lemma {:induction false} ZeroStays(w: bv64, m: nat, n: nat)
    requires m <= n && Shr(w, m) == 0
    ensures Shr(w, n) == 0
    decreases n
  {
    if m < n {
      ZeroStays(w, m, n - 1);
      ShrLast(w, n - 1);
    }
  }

  /** `Shr(ALL_ONES, m)` keeps a low one until the width is used up, then is zero. */
  lemma OnesRunOut(m: nat)
    ensures if m < 64 then Low(Shr(ALL_ONES, m)) else Shr(ALL_ONES, m) == 0
  {
    OnesEnd();
    OnesShrink(m);
    HalfOfBlock(Shr(ALL_ONES, m));
    if m >= 64 {
      ZeroStays(ALL_ONES, 64, m);
    } else if Shr(ALL_ONES, m) == 0 {
      ZeroStays(ALL_ONES, m, 63);
    }
  }

  lemma BitOfOnes(i: nat)
    ensures Bit(ALL_ONES, i) <==> i < 64
  {
    BitOfShr(ALL_ONES, i, 0);
    OnesRunOut(i);
  }

  lemma AndOnes(w: bv64)
    ensures And(w, ALL_ONES) == w
  {
  }

  /** A word has no bits from place 64 on. */
  lemma BitsAbove(w: bv64, i: nat)
    requires i >= 64
    ensures !Bit(w, i)
  {
    AndOnes(w);
    BitOfAnd(w, ALL_ONES, i);
    BitOfOnes(i);
  }

  lemma {:induction false} BitOfZero(i: nat)
    ensures !Bit(0, i)
  {
    if i != 0 {
      BitOfZero(i - 1);
    }
  }

  lemma NoneIsZero(w: bv64, v: bv64)
    requires And(w, v) == w && w != 0
    ensures v != 0
    ensures !Low(w) ==> And(Half(w), Half(v)) == Half(w) && Half(w) != 0
  {
  }

  lemma {:induction false} SomeBit(w: bv64, m: nat) returns (i: nat)
    requires w != 0 && m <= 64 && And(w, Shr(ALL_ONES, m)) == w
    ensures i < 64 - m && Bit(w, i)
    decreases 64 - m
  {
    NoneIsZero(w, Shr(ALL_ONES, m));
    OnesRunOut(m);
    if Low(w) {
      i := 0;
    } else {
      ShrLast(ALL_ONES, m);
      i := SomeBit(Half(w), m + 1);
      i := i + 1;
    }
  }

  /** A word is zero exactly when none of its 64 places is set. */
  lemma ZeroIffNoBits(w: bv64)
    ensures w == 0 <==> forall i: nat | i < 64 :: !Bit(w, i)
  {
    if w == 0 {
      forall i: nat | i < 64
        ensures !Bit(w, i)
      {
        BitOfZero(i);
      }
    } else {
      AndOnes(w);
      var j: nat := SomeBit(w, 0);
      assert j < 64;
      assert Bit(w, j);
      assert exists i: nat :: i < 64 && Bit(w, i);
    }
  }

  // ---------------------------------------------------------------- counting zeros

  /** Number of trailing zero bits (`__builtin_ctzll`, which is undefined on 0). */
  function Ctz(w: bv64): (r: nat)
    requires w != 0
    ensures r < 64 && Bit(w, r) && forall k: nat | k < r :: !Bit(w, k)
  {
    ZeroIffNoBits(w);
    LowestFrom(w, 0)
  }

  function LowestFrom(w: bv64, i: nat): (r: nat)
    requires exists k: nat :: i <= k < 64 && Bit(w, k)
    ensures i <= r < 64 && Bit(w, r) && forall k: nat | i <= k < r :: !Bit(w, k)
    decreases 64 - i
  {
    if Bit(w, i) then i else LowestFrom(w, i + 1)
  }

  /** Number of leading zero bits (`__builtin_clzll`, which is undefined on 0). */
  function Clz(w: bv64): (r: nat)
    requires w != 0
    ensures r < 64 && Bit(w, 63 - r) && forall k: nat | 64 - r <= k < 64 :: !Bit(w, k)
  {
    ZeroIffNoBits(w);
    63 - HighestBelow(w, 64)
  }

  function HighestBelow(w: bv64, i: nat): (r: nat)
    requires i <= 64 && exists k: nat :: k < i && Bit(w, k)
    ensures r < i && Bit(w, r) && forall k: nat | r < k < i :: !Bit(w, k)
    decreases i
  {
    if Bit(w, i - 1) then i - 1 else HighestBelow(w, i - 1)
  }

  // ---------------------------------------------------------------- bytes in memory

  /** The bits a byte buffer holds, eight to a byte, lowest bit first. */
  function BitsOf(bytes: seq<bv8>): (bits: seq<bool>)
    ensures |bits| == 8 * |bytes|
  {
    seq(8 * |bytes|, k requires 0 <= k < 8 * |bytes| => ByteBit(bytes[k / 8], k % 8))
  }

  /** Little-endian load. */
  function LoadLE(bytes: seq<bv8>): bv64
  {
    if |bytes| == 0 then 0 else Join(bytes[0], LoadLE(bytes[1..]))
  }

  /** The byte seen after one shift: the top place is filled from the byte above. */
  function HalfByte(b: bv8, hi: bv64): bv8 {
    if Low(hi) then (b >> 1) | 0x80 else b >> 1
  }

  lemma HalfOfJoin(b: bv8, hi: bv64)
    ensures Half(Join(b, hi)) == Join(HalfByte(b, hi), (hi << 8) >> 9)
    ensures Low(Join(b, hi)) == ByteBit(b, 0)
  {
  }

  lemma BitOfHalfByte(b: bv8, hi: bv64, j: nat)
    requires 1 <= j < 8
    ensures ByteBit(HalfByte(b, hi), j - 1) == ByteBit(b, j)
  {
  }

  lemma {:induction false} ByteInWord(b: bv8, hi: bv64, j: nat)
    requires j < 8
    ensures Bit(Join(b, hi), j) == ByteBit(b, j)
    decreases j
  {
    HalfOfJoin(b, hi);
    if j != 0 {
      BitOfHalfByte(b, hi, j);
      ByteInWord(HalfByte(b, hi), (hi << 8) >> 9, j - 1);
    }
  }

  lemma DropByte(b: bv8, hi: bv64)
    ensures Shr(Join(b, hi), 8) == And(hi, Shr(ALL_ONES, 8))
  {
    Shr8(Join(b, hi));
    Shr8(ALL_ONES);
  }

  lemma BitOfUpper(b: bv8, hi: bv64, j: nat)
    requires 8 <= j < 64
    ensures Bit(Join(b, hi), j) == Bit(hi, j - 8)
  {
    BitOfShr(Join(b, hi), 8, j - 8);
    DropByte(b, hi);
    BitOfAnd(hi, Shr(ALL_ONES, 8), j - 8);
    BitOfShr(ALL_ONES, 8, j - 8);
    BitOfOnes(j);
  }

  /** Bit `j` of a little-endian word is bit `j` of the bytes it was loaded from. */
  lemma {:induction false} BitOfLoad(bytes: seq<bv8>, j: nat)
    requires |bytes| <= 8 && j < 8 * |bytes|
    ensures Bit(LoadLE(bytes), j) == BitsOf(bytes)[j]
  {
    var rest := bytes[1..];
    if j < 8 {
      ByteInWord(bytes[0], LoadLE(rest), j);
    } else {
      BitOfUpper(bytes[0], LoadLE(rest), j);
      BitOfLoad(rest, j - 8);
      assert rest[(j - 8) / 8] == bytes[j / 8];
    }
  }
}
