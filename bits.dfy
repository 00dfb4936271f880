/** Bit-level vocabulary shared by the codec: powers of two, shifts and masks on
    unbounded naturals, MSB-first bit strings, the bits of a byte, and the packing
    of a bit string into zero-padded bytes.

    Bytes (`uint8_t`) are `bv8`. The wider registers of the stream routines
    (`uint32_t`, `uint16_t`) are naturals: `x >> k` is `Shr(x, k)`, `x << k` is
    `Shl(x, k)`, the mask `x & (2^k - 1)` and the truncation to a k-bit type are both
    `Low(x, k)`, and `a | b` on operands with disjoint bits is `a + b`. A register
    and a byte meet only through their bit strings: `Bits(x, w)` for a register,
    `ByteBits(b)` for a byte. */
module BitStream {

  /** 2^32, the modulus of `uint32_t` arithmetic. */
  const TWO32: nat := 0x1_0000_0000

  /** The widths of `uint8_t`, `uint16_t` and `uint32_t`. Widths are passed to
      the shift and mask functions below by these names. */
  const BYTE_BITS: nat := 8
  const UINT16_BITS: nat := 16
  const UINT32_BITS: nat := 32

  function Pow2(k: nat): (p: nat)
    ensures p >= 1
  {
    if k == 0 then 1 else 2 * Pow2(k - 1)
  }

  lemma Pow2Values()
    ensures Pow2(7) == 128 && Pow2(8) == 256 && Pow2(14) == 0x4000 && Pow2(32) == TWO32
  {
    assert Pow2(1) == 2 && Pow2(2) == 4 && Pow2(3) == 8 && Pow2(4) == 16;
    assert Pow2(5) == 32 && Pow2(6) == 64 && Pow2(7) == 128 && Pow2(8) == 256;
    assert Pow2(9) == 512 && Pow2(10) == 1024 && Pow2(11) == 2048 && Pow2(12) == 4096;
    assert Pow2(13) == 8192 && Pow2(14) == 16384 && Pow2(15) == 32768 && Pow2(16) == 65536;
    assert Pow2(17) == 0x2_0000 && Pow2(18) == 0x4_0000 && Pow2(19) == 0x8_0000;
    assert Pow2(20) == 0x10_0000 && Pow2(21) == 0x20_0000 && Pow2(22) == 0x40_0000;
    assert Pow2(23) == 0x80_0000 && Pow2(24) == 0x100_0000 && Pow2(25) == 0x200_0000;
    assert Pow2(26) == 0x400_0000 && Pow2(27) == 0x800_0000 && Pow2(28) == 0x1000_0000;
    assert Pow2(29) == 0x2000_0000 && Pow2(30) == 0x4000_0000 && Pow2(31) == 0x8000_0000;
  }

  lemma Pow2Byte()
    ensures Pow2(BYTE_BITS) == 256
  {
    Pow2Values();
  }

  lemma Pow2Half()
    ensures Pow2(UINT16_BITS) == 0x1_0000
  {
    Pow2Values();
    assert Pow2(15) == 2 * Pow2(14);
  }

  lemma Pow2Word()
    ensures Pow2(UINT32_BITS) == TWO32
  {
    Pow2Values();
  }

  // ---------------------------------------------------------------------------
  // Shifts and masks on unsigned values

  /** `x >> k`. */
  function Shr(x: nat, k: nat): nat
  {
    if k == 0 then x else Shr(x / 2, k - 1)
  }

  /** `x << k`, before any truncation to the width of a C type. */
  function Shl(x: nat, k: nat): nat
  {
    if k == 0 then x else 2 * Shl(x, k - 1)
  }

  /** `x & (2^k - 1)`: the low k bits of x; also the truncation of x to a k-bit type. */
  function Low(x: nat, k: nat): (r: nat)
    ensures r < Pow2(k)
  {
    if k == 0 then 0 else 2 * Low(x / 2, k - 1) + x % 2
  }

  lemma MulMonotone(d: nat, a: int, b: int)
    requires a <= b
    ensures d * a <= d * b
  {
    assert d * b - d * a == d * (b - a);
  }

  /** Quotient and remainder are unique. */
  lemma DivModUnique(x: int, d: int, q: int, r: int)
    requires d > 0 && 0 <= r < d && x == d * q + r
    ensures x / d == q && x % d == r
  {
    var q', r' := x / d, x % d;
    assert x == d * q' + r' && 0 <= r' < d;
    if q' > q {
      assert d * (q + 1) == d * q + d;
      MulMonotone(d, q + 1, q');
    } else if q' < q {
      assert d * (q' + 1) == d * q' + d;
      MulMonotone(d, q' + 1, q);
    }
  }

  lemma HalveDivMod(x: nat, e: nat)
    requires e >= 1
    ensures x / (2 * e) == (x / 2) / e && x % (2 * e) == 2 * ((x / 2) % e) + x % 2
  {
    var q, r := (x / 2) / e, (x / 2) % e;
    assert x / 2 == e * q + r;
    assert x == (2 * e) * q + (2 * r + x % 2);
    DivModUnique(x, 2 * e, q, 2 * r + x % 2);
  }

  /** The k-bit mask is the remainder modulo d = 2^k. */
  lemma {:induction false} LowIsMod(x: nat, k: nat, d: nat)
    requires d == Pow2(k)
    ensures Low(x, k) == x % d
  {
    if k > 0 {
      var e := Pow2(k - 1);
      LowIsMod(x / 2, k - 1, e);
      HalveDivMod(x, e);
    }
  }

  /** `x << k` is multiplication by d = 2^k. */
  lemma {:induction false} ShlIsMul(x: nat, k: nat, d: nat)
    requires d == Pow2(k)
    ensures Shl(x, k) == x * d
  {
    if k > 0 {
      ShlIsMul(x, k - 1, Pow2(k - 1));
    }
  }

  /** A value that already fits in k bits is unchanged by the mask. */
  lemma {:induction false} LowOfSmall(x: nat, k: nat)
    requires x < Pow2(k)
    ensures Low(x, k) == x
  {
    if k > 0 {
      LowOfSmall(x / 2, k - 1);
    }
  }

  // ---------------------------------------------------------------------------
  // Bit strings of registers

  /** The low w bits of x, most significant first (bit w-1 first, bit 0 last). */
  function Bits(x: nat, w: nat): (bs: seq<bool>)
    ensures |bs| == w
  {
    if w == 0 then [] else Bits(x / 2, w - 1) + [x % 2 == 1]
  }

  /** The number whose binary digits, most significant first, are bs. */
  function FromBits(bs: seq<bool>): (x: nat)
    ensures x < Pow2(|bs|)
  {
    if bs == [] then 0
    else 2 * FromBits(bs[..|bs| - 1]) + (if bs[|bs| - 1] then 1 else 0)
  }

  function Zeros(k: nat): (bs: seq<bool>)
    ensures |bs| == k && forall i :: 0 <= i < k ==> !bs[i]
  {
    seq(k, _ => false)
  }


  /** Bits(x, w) only looks at the low w bits of x. */
  lemma {:induction false} BitsLow(x: nat, w: nat, k: nat)
    requires w <= k
    ensures Bits(Low(x, k), w) == Bits(x, w)
    decreases w
  {
    if w > 0 {
      var m := Low(x, k);
      assert m / 2 == Low(x / 2, k - 1) && m % 2 == x % 2;
      BitsLow(x / 2, w - 1, k - 1);
    }
  }

  /** A k-bit mask read in a wider field: zeros above the k low bits. */
  lemma {:induction false} BitsOfLow(x: nat, k: nat, w: nat)
    requires k <= w
    ensures Bits(Low(x, k), w) == Zeros(w - k) + Bits(x, k)
    decreases k
  {
    if k == 0 {
      BitsOfZero(w);
    } else {
      var m := Low(x, k);
      assert m / 2 == Low(x / 2, k - 1) && m % 2 == x % 2;
      BitsOfLow(x / 2, k - 1, w - 1);
      assert Bits(m, w) == Bits(m / 2, w - 1) + [m % 2 == 1];
    }
  }

  /** The top a bits of an (a + c)-bit field are x >> c; the bottom c are x's low bits. */
  lemma {:induction false} BitsSplit(x: nat, a: nat, c: nat)
    ensures Bits(x, a + c) == Bits(Shr(x, c), a) + Bits(x, c)
    decreases c
  {
    if c > 0 {
      BitsSplit(x / 2, a, c - 1);
      assert Bits(x, a + c) == Bits(x / 2, a + c - 1) + [x % 2 == 1];
    }
  }

  /** Shifting a k-bit value y into the low end of a register holding b bits:
      the register's b + k low bits are the old b bits followed by y's k bits. */
  lemma {:induction false} BitsShiftIn(x: nat, b: nat, y: nat, k: nat)
    requires y < Pow2(k)
    ensures Bits(Shl(x, k) + y, b + k) == Bits(x, b) + Bits(y, k)
  {
    if k > 0 {
      var z := Shl(x, k) + y;
      assert z / 2 == Shl(x, k - 1) + y / 2 && z % 2 == y % 2;
      BitsShiftIn(x, b, y / 2, k - 1);
      assert Bits(z, b + k) == Bits(z / 2, b + k - 1) + [z % 2 == 1];
    }
  }

  /** The same, for a register truncated to 32 bits (`uint32_t`). */
  lemma ShiftIn32(x: nat, b: nat, y: nat, k: nat)
    requires y < Pow2(k) && b + k <= 32
    ensures Bits(Low(Shl(x, k) + y, UINT32_BITS), b + k) == Bits(x, b) + Bits(y, k)
  {
    BitsLow(Shl(x, k) + y, b + k, UINT32_BITS);
    BitsShiftIn(x, b, y, k);
  }

  lemma {:induction false} BitsOfZero(k: nat)
    ensures Bits(0, k) == Zeros(k)
  {
    if k > 0 {
      BitsOfZero(k - 1);
    }
  }

  /** Reading back the bits of x as a number gives x's low w bits. */
  lemma {:induction false} FromBitsOfBits(x: nat, w: nat)
    ensures FromBits(Bits(x, w)) == Low(x, w)
  {
    if w > 0 {
      var bs := Bits(x, w);
      assert bs[..w - 1] == Bits(x / 2, w - 1);
      FromBitsOfBits(x / 2, w - 1);
    }
  }

  /** Writing FromBits(bs) with |bs| bits gives bs back. */
  lemma {:induction false} BitsOfFromBits(bs: seq<bool>)
    ensures Bits(FromBits(bs), |bs|) == bs
  {
    if bs != [] {
      var init := bs[..|bs| - 1];
      BitsOfFromBits(init);
      assert bs == init + [bs[|bs| - 1]];
    }
  }

  // ---------------------------------------------------------------------------
  // Bytes

  /** Incrementing a byte wraps around at 256. */
  lemma ByteIncrement(b: bv8, v: nat)
    requires v == b as int
    ensures (b + 1) as int == (v + 1) % 256
  {
  }

  lemma ModSucc(x: nat)
    requires x > 0
    ensures ((x - 1) % 256 + 1) % 256 == x % 256
  {
  }

  /** The conversion of a register to `uint8_t`: its value modulo 256. */
  function ToByte(x: nat): (b: bv8)
    ensures b as int == x % 256
  {
    if x == 0 then 0
    else
      var b := ToByte(x - 1);
      ByteIncrement(b, (x - 1) % 256);
      ModSucc(x);
      b + 1
  }

  /** A byte is determined by its value. */
  lemma ByteInjective(b: bv8, c: bv8)
    requires b as int == c as int
    ensures b == c
  {
  }

  /** A byte converted to a number and back is the same byte. */
  lemma ToByteOfByte(b: bv8)
    ensures ToByte(b as int) == b
  {
    var x := b as int;
    ByteRange(b);
    SmallMod(x);
    ByteInjective(ToByte(x), b);
  }

  lemma ByteRange(b: bv8)
    ensures b as int < 256
  {
  }

  lemma SmallMod(x: nat)
    requires x < 256
    ensures x % 256 == x
  {
  }

  /** The eight bits of a byte, most significant first. */
  function ByteBits(b: bv8): (bs: seq<bool>)
    ensures |bs| == 8
  {
    Bits(b as int, BYTE_BITS)
  }

  /** The byte whose bits, most significant first, are bs. */
  function ByteOf(bs: seq<bool>): (b: bv8)
    requires |bs| == 8
  {
    ToByte(FromBits(bs))
  }

  lemma ByteBitsOfByteOf(bs: seq<bool>)
    requires |bs| == 8
    ensures ByteBits(ByteOf(bs)) == bs
  {
    Pow2Byte();
    LowIsMod(FromBits(bs), BYTE_BITS, 256);
    LowOfSmall(FromBits(bs), BYTE_BITS);
    BitsOfFromBits(bs);
  }

  lemma ByteOfByteBits(b: bv8)
    ensures ByteOf(ByteBits(b)) == b
  {
    Pow2Byte();
    FromBitsOfBits(b as int, BYTE_BITS);
    LowOfSmall(b as int, BYTE_BITS);
    ToByteOfByte(b);
  }

  /** The bits of `(uint8_t)x` are the low eight bits of x. */
  lemma ByteBitsOfToByte(x: nat)
    ensures ByteBits(ToByte(x)) == Bits(x, BYTE_BITS)
  {
    Pow2Byte();
    LowIsMod(x, BYTE_BITS, 256);
    BitsLow(x, BYTE_BITS, BYTE_BITS);
  }

  // ---------------------------------------------------------------------------
  // Byte streams as bit strings

  /** The bits of a byte sequence, each byte most significant bit first. */
  function Flatten(bytes: seq<bv8>): (bs: seq<bool>)
    ensures |bs| == 8 * |bytes|
  {
    if bytes == [] then [] else ByteBits(bytes[0]) + Flatten(bytes[1..])
  }

  lemma {:induction false} FlattenAppend(a: seq<bv8>, b: seq<bv8>)
    ensures Flatten(a + b) == Flatten(a) + Flatten(b)
  {
    if a != [] {
      assert (a + b)[0] == a[0] && (a + b)[1..] == a[1..] + b;
      FlattenAppend(a[1..], b);
    } else {
      assert a + b == b;
    }
  }

  lemma FlattenOne(b: bv8)
    ensures Flatten([b]) == ByteBits(b)
  {
    assert Flatten([b]) == ByteBits(b) + Flatten([]);
  }

  /** MSB-first packing of a bit string into bytes; a final partial byte is
      padded with zero bits on the low end. */
  function Pack(bs: seq<bool>): (bytes: seq<bv8>)
  {
    if |bs| == 0 then []
    else if |bs| < 8 then [ByteOf(bs + Zeros(8 - |bs|))]
    else [ByteOf(bs[..8])] + Pack(bs[8..])
  }

  /** One byte per started group of eight bits. */
  lemma {:induction false} PackLength(bs: seq<bool>)
    ensures |Pack(bs)| == (|bs| + 7) / 8
  {
    if |bs| >= 8 {
      PackLength(bs[8..]);
    }
  }

  /** The number of zero bits that pad n bits to a whole number of bytes. */
  function Padding(n: nat): (k: nat)
    ensures k < 8 && (n + k) % 8 == 0
  {
    (8 - n % 8) % 8
  }

  lemma PaddingShort(n: nat)
    requires 0 < n < 8
    ensures Padding(n) == 8 - n
  {
  }

  lemma PaddingStep(n: nat)
    requires n >= 8
    ensures Padding(n - 8) == Padding(n)
  {
  }

  lemma PackShort(bs: seq<bool>)
    requires 0 < |bs| < 8
    ensures Pack(bs) == [ByteOf(bs + Zeros(8 - |bs|))]
  {
  }

  lemma FlattenPackShort(bs: seq<bool>)
    requires 0 < |bs| < 8
    ensures Flatten(Pack(bs)) == bs + Zeros(Padding(|bs|))
  {
    var padded := bs + Zeros(8 - |bs|);
    PaddingShort(|bs|);
    PackShort(bs);
    ByteBitsOfByteOf(padded);
    FlattenOne(ByteOf(padded));
  }

  lemma FlattenPackCons(bs: seq<bool>)
    requires |bs| >= 8
    ensures Flatten(Pack(bs)) == bs[..8] + Flatten(Pack(bs[8..]))
  {
    var b := ByteOf(bs[..8]);
    assert Pack(bs) == [b] + Pack(bs[8..]);
    FlattenAppend([b], Pack(bs[8..]));
    FlattenOne(b);
    ByteBitsOfByteOf(bs[..8]);
  }

  /** Unpacking the packed bytes gives the bit string back, followed by the
      zero padding of the last byte. */
  lemma {:induction false} FlattenPack(bs: seq<bool>)
    ensures Flatten(Pack(bs)) == bs + Zeros(Padding(|bs|))
  {
    if |bs| == 0 {
      assert bs + Zeros(0) == [];
    } else if |bs| < 8 {
      FlattenPackShort(bs);
    } else {
      var z := Zeros(Padding(|bs|));
      FlattenPack(bs[8..]);
      FlattenPackCons(bs);
      PaddingStep(|bs|);
      assert bs[..8] + (bs[8..] + z) == bs + z by {
        assert bs == bs[..8] + bs[8..];
      }
    }
  }

  /** Packing splits at any byte boundary of the bit string. */
  lemma {:induction false} PackAppend(x: seq<bool>, y: seq<bool>)
    requires |x| % 8 == 0
    ensures Pack(x + y) == Pack(x) + Pack(y)
    decreases |x|
  {
    if |x| > 0 {
      assert (x + y)[..8] == x[..8];
      assert (x + y)[8..] == x[8..] + y;
      PackAppend(x[8..], y);
    } else {
      assert x + y == y;
    }
  }

  /** Eight bits pack to the one byte that has them. */
  lemma PackEight(bs: seq<bool>)
    requires |bs| == 8
    ensures Pack(bs) == [ByteOf(bs)]
  {
    assert bs[..8] == bs;
    assert Pack(bs[8..]) == [];
  }

  /** Packing the bits of whole bytes gives the bytes back. */
  lemma {:induction false} PackFlatten(bytes: seq<bv8>)
    ensures Pack(Flatten(bytes)) == bytes
  {
    if bytes != [] {
      var first := ByteBits(bytes[0]);
      PackAppend(first, Flatten(bytes[1..]));
      PackEight(first);
      ByteOfByteBits(bytes[0]);
      PackFlatten(bytes[1..]);
    }
  }

  /** 1 to 7 leftover bits of a 32-bit register, shifted to the top of a byte with
      zero padding, `(x << k) & 0xFF` where k = 8 - b. */
  lemma PackTail(x: nat, b: nat, k: nat)
    requires 0 < b && 0 < k && b + k == 8
    ensures Pack(Bits(x, b)) == [ToByte(Low(Low(Shl(x, k), UINT32_BITS), BYTE_BITS))]
  {
    PackTailAt(x, b, k, BYTE_BITS);
  }

  lemma PackTailAt(x: nat, b: nat, k: nat, w: nat)
    requires 0 < b && 0 < k && b + k == w == 8
    ensures Pack(Bits(x, b)) == [ToByte(Low(Low(Shl(x, k), UINT32_BITS), w))]
  {
    var z := Low(Shl(x, k), UINT32_BITS);
    var y := Low(z, w);
    var padded := Bits(x, b) + Zeros(k);
    PaddedBits(x, b, k, w);
    BitsLow(z, w, w);
    ByteOfBitsValue(y, padded, w);
    var bs := Bits(x, b);
    assert |bs| == b < 8;
    PackShort(bs);
  }

  /** The byte with the bits of a value below 2^8 is that value's byte. */
  lemma ByteOfBitsValue(y: nat, bs: seq<bool>, w: nat)
    requires w == 8 && y < Pow2(w)
    requires Bits(y, w) == bs
    ensures ByteOf(bs) == ToByte(y)
  {
    FromBitsOfBits(y, w);
    LowOfSmall(y, w);
  }

  lemma PaddedBits(x: nat, b: nat, k: nat, w: nat)
    requires b + k == w <= 32
    ensures Bits(Low(Shl(x, k), UINT32_BITS), w) == Bits(x, b) + Zeros(k)
  {
    assert Shl(x, k) + 0 == Shl(x, k);
    ShiftIn32(x, b, 0, k);
    BitsOfZero(k);
  }
}
