/** The frame bitmap: one bit per frame, 0 free and 1 taken, written byte by byte. */
module BitMaps {
  import opened Bits

  /** `bits` with [a, a+n) set to `v` and nothing else changed. */
  function Fill(bits: seq<bool>, a: nat, n: nat, v: bool): (r: seq<bool>)
    requires a + n <= |bits|
    ensures |r| == |bits|
  {
    seq(|bits|, k requires 0 <= k < |bits| => if a <= k < a + n then v else bits[k])
  }

  lemma FillNone(bits: seq<bool>, a: nat, v: bool)
    requires a <= |bits|
    ensures Fill(bits, a, 0, v) == bits
  {
  }

  lemma FillFill(bits: seq<bool>, a: nat, n: nat, m: nat, v: bool)
    requires a + n + m <= |bits|
    ensures Fill(Fill(bits, a, n, v), a + n, m, v) == Fill(bits, a, n + m, v)
  {
  }

  lemma FillPrefix(bits: seq<bool>, size: nat, a: nat, n: nat, v: bool)
    requires a + n <= size <= |bits|
    ensures Fill(bits, a, n, v)[..size] == Fill(bits[..size], a, n, v)
  {
  }

  /** A slice that misses the filled range is untouched. */
  lemma FillElsewhere(bits: seq<bool>, a: nat, n: nat, v: bool, lo: nat, hi: nat)
    requires a + n <= |bits| && lo <= hi <= |bits| && (hi <= a || a + n <= lo)
    ensures Fill(bits, a, n, v)[lo..hi] == bits[lo..hi]
  {
  }

  /** A slice around the filled range is filled in the same way. */
  lemma FillWithin(bits: seq<bool>, a: nat, n: nat, v: bool, lo: nat, hi: nat)
    requires lo <= a && a + n <= hi <= |bits|
    ensures Fill(bits, a, n, v)[lo..hi] == Fill(bits[lo..hi], a - lo, n, v)
  {
  }

  // ---------------------------------------------------------------- single byte writes

  function WithBit(b: bv8, j: nat): bv8
    requires j < 8
  {
    b | (1 << j)
  }

  function WithoutBit(b: bv8, j: nat): bv8
    requires j < 8
  {
    b & !(1 << j)
  }

  lemma SetInByte(b: bv8, j: nat, k: nat)
    requires j < 8 && k < 8
    ensures ByteBit(WithBit(b, j), k) == (k == j || ByteBit(b, k))
  {
    match k
    case 0 | 1 | 2 | 3 | 4 | 5 | 6 | 7 =>
  }

  lemma ClearInByte(b: bv8, j: nat, k: nat)
    requires j < 8 && k < 8
    ensures ByteBit(WithoutBit(b, j), k) == (k != j && ByteBit(b, k))
  {
    match k
    case 0 | 1 | 2 | 3 | 4 | 5 | 6 | 7 =>
  }

  lemma WholeByte(k: nat)
    requires k < 8
    ensures ByteBit(0xFF, k) && !ByteBit(0, k)
  {
  }

  lemma SetBitWrites(bytes: seq<bv8>, i: nat)
    requires i < 8 * |bytes|
    ensures BitsOf(bytes[i / 8 := WithBit(bytes[i / 8], i % 8)]) == Fill(BitsOf(bytes), i, 1, true)
  {
    var bytes' := bytes[i / 8 := WithBit(bytes[i / 8], i % 8)];
    forall k: nat | k < 8 * |bytes|
      ensures BitsOf(bytes')[k] == Fill(BitsOf(bytes), i, 1, true)[k]
    {
      SetInByte(bytes[i / 8], i % 8, k % 8);
    }
  }

  lemma ClearBitWrites(bytes: seq<bv8>, i: nat)
    requires i < 8 * |bytes|
    ensures BitsOf(bytes[i / 8 := WithoutBit(bytes[i / 8], i % 8)]) == Fill(BitsOf(bytes), i, 1, false)
  {
    var bytes' := bytes[i / 8 := WithoutBit(bytes[i / 8], i % 8)];
    forall k: nat | k < 8 * |bytes|
      ensures BitsOf(bytes')[k] == Fill(BitsOf(bytes), i, 1, false)[k]
    {
      ClearInByte(bytes[i / 8], i % 8, k % 8);
    }
  }

  lemma ByteWrites(bytes: seq<bv8>, i: nat, v: bool)
    requires i % 8 == 0 && i + 8 <= 8 * |bytes|
    ensures BitsOf(bytes[i / 8 := if v then 0xFF else 0]) == Fill(BitsOf(bytes), i, 8, v)
  {
    var bytes' := bytes[i / 8 := if v then 0xFF else 0];
    forall k: nat | k < 8 * |bytes|
      ensures BitsOf(bytes')[k] == Fill(BitsOf(bytes), i, 8, v)[k]
    {
      WholeByte(k % 8);
      assert k / 8 == i / 8 <==> i <= k < i + 8;
    }
  }

  // ---------------------------------------------------------------- the bitmap object

  class BitMap {
    var size: nat          // in bits
    const data: array<bv8>

    constructor (data: array<bv8>)
      ensures this.data == data && size == 0
    {
      this.data := data;
      size := 0;
    }

    ghost predicate Valid()
      reads this
    {
      size <= 8 * data.Length
    }

    /** The bits in use. */
    ghost function Bits(): (bits: seq<bool>)
      requires Valid()
      reads this, data
      ensures |bits| == size
    {
      BitsOf(data[..])[..size]
    }

    method SetOne(i: nat)
      requires i < 8 * data.Length
      modifies data
      ensures BitsOf(data[..]) == Fill(old(BitsOf(data[..])), i, 1, true)
    {
      SetBitWrites(data[..], i);
      data[i / 8] := WithBit(data[i / 8], i % 8);
    }

    method ClearOne(i: nat)
      requires i < 8 * data.Length
      modifies data
      ensures BitsOf(data[..]) == Fill(old(BitsOf(data[..])), i, 1, false)
    {
      ClearBitWrites(data[..], i);
      data[i / 8] := WithoutBit(data[i / 8], i % 8);
    }

    /** Writes the byte holding bits i .. i + 7: 0xFF for set, 0 for clear. */
    method WriteByte(i: nat, v: bool)
      requires i % 8 == 0 && i + 8 <= 8 * data.Length
      modifies data
      ensures BitsOf(data[..]) == Fill(old(BitsOf(data[..])), i, 8, v)
    {
      ByteWrites(data[..], i, v);
      data[i / 8] := if v then 0xFF else 0x0;
    }

    /** Sets the `len` bits from `startIndex` on, or refuses and changes nothing. */
    method SetLen(startIndex: nat, len: nat) returns (r: int)
      requires Valid()
      modifies data
      ensures Valid()
      ensures r == if startIndex + len <= size then 0 else -1
      ensures Bits() == if r == 0 then Fill(old(Bits()), startIndex, len, true) else old(Bits())
    {
      hide Fill, BitsOf;
      if startIndex > size || len > size - startIndex {
        return -1;
      }
      var end := startIndex + len;
      var i := startIndex;
      ghost var was := BitsOf(data[..]);
      FillNone(was, startIndex, true);

      // bit by bit up to a byte boundary
      while i < end && i % 8 != 0
        invariant startIndex <= i <= end
        invariant BitsOf(data[..]) == Fill(was, startIndex, i - startIndex, true)
        decreases end - i
      {
        FillFill(was, startIndex, i - startIndex, 1, true);
        SetOne(i);
        i := i + 1;
      }

      // whole bytes
      while i + 8 <= end
        invariant startIndex <= i <= end && (i % 8 == 0 || i == end)
        invariant BitsOf(data[..]) == Fill(was, startIndex, i - startIndex, true)
        decreases end - i
      {
        FillFill(was, startIndex, i - startIndex, 8, true);
        WriteByte(i, true);
        i := i + 8;
      }

      // what is left of the last byte
      while i < end
        invariant startIndex <= i <= end
        invariant BitsOf(data[..]) == Fill(was, startIndex, i - startIndex, true)
        decreases end - i
      {
        FillFill(was, startIndex, i - startIndex, 1, true);
        SetOne(i);
        i := i + 1;
      }
      FillPrefix(was, size, startIndex, len, true);
      return 0;
    }

    /** Clears the `len` bits from `startIndex` on, or refuses and changes nothing. */
    method ClearLen(startIndex: nat, len: nat) returns (r: int)
      requires Valid()
      modifies data
      ensures Valid()
      ensures r == if startIndex + len <= size then 0 else -1
      ensures Bits() == if r == 0 then Fill(old(Bits()), startIndex, len, false) else old(Bits())
    {
      hide Fill, BitsOf;
      if startIndex > size || len > size - startIndex {
        return -1;
      }
      var end := startIndex + len;
      var i := startIndex;
      ghost var was := BitsOf(data[..]);
      FillNone(was, startIndex, false);

      while i < end && i % 8 != 0
        invariant startIndex <= i <= end
        invariant BitsOf(data[..]) == Fill(was, startIndex, i - startIndex, false)
        decreases end - i
      {
        FillFill(was, startIndex, i - startIndex, 1, false);
        ClearOne(i);
        i := i + 1;
      }

      while i + 8 <= end
        invariant startIndex <= i <= end && (i % 8 == 0 || i == end)
        invariant BitsOf(data[..]) == Fill(was, startIndex, i - startIndex, false)
        decreases end - i
      {
        FillFill(was, startIndex, i - startIndex, 8, false);
        WriteByte(i, false);
        i := i + 8;
      }

      while i < end
        invariant startIndex <= i <= end
        invariant BitsOf(data[..]) == Fill(was, startIndex, i - startIndex, false)
        decreases end - i
      {
        FillFill(was, startIndex, i - startIndex, 1, false);
        ClearOne(i);
        i := i + 1;
      }
      FillPrefix(was, size, startIndex, len, false);
      return 0;
    }

    /** Fills the bytes in use with zero. */
    method ZeroBytes()
      requires Valid() && size % 8 == 0
      modifies data
      ensures Valid() && forall k | 0 <= k < size :: !Bits()[k]
    {
      for i := 0 to size / 8
        invariant forall k | 0 <= k < i :: data[k] == 0
      {
        data[i] := 0;
      }
      forall k | 0 <= k < size
        ensures !Bits()[k]
      {
        WholeByte(k % 8);
      }
    }

    /** Reads 64 bits at once from byte `at` on: bit j of the word is bit 8*at + j of the map. */
    method ReadWord(at: nat) returns (w: bv64)
      requires Valid() && 8 * at + 64 <= size
      ensures forall j: nat | j < 64 :: Bit(w, j) == Bits()[8 * at + j]
    {
      w := LoadLE(data[at..at + 8]);
      forall j: nat | j < 64
        ensures Bit(w, j) == Bits()[8 * at + j]
      {
        BitOfLoad(data[at..at + 8], j);
        assert (8 * at + j) / 8 == at + j / 8;
      }
    }
  }
}
